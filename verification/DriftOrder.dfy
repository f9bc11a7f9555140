/** The order of the walk's reports, what a value without drift is, and what a run counts. */
module DriftOrder {
  import opened Outcomes
  import opened Sorting
  import opened Drift
  import opened DriftTheorems

  // ---- Each place once, and the keys of an object in order ----

  ghost predicate OncePerPlace(rs: seq<Report>) {
    forall i, j :: 0 <= i < j < |rs| ==> rs[i].at != rs[j].at
  }

  /** Every report is under this hop. */
  ghost predicate AllUnder(hop: Hop, rs: seq<Report>) {
    forall i :: 0 <= i < |rs| ==> rs[i].at != [] && rs[i].at[0] == hop
  }

  lemma UnderKeepsOnce(hop: Hop, rs: seq<Report>)
    requires OncePerPlace(rs)
    ensures OncePerPlace(Under(hop, rs)) && AllUnder(hop, Under(hop, rs))
  {
    forall i, j | 0 <= i < j < |rs| ensures [hop] + rs[i].at != [hop] + rs[j].at {
      assert ([hop] + rs[i].at)[1..] == rs[i].at && ([hop] + rs[j].at)[1..] == rs[j].at;
    }
  }

  lemma JoinKeepsOnce(hop: Hop, a: seq<Report>, b: seq<Report>)
    requires OncePerPlace(a) && OncePerPlace(b) && AllUnder(hop, a)
    requires forall j :: 0 <= j < |b| ==> b[j].at != [] && b[j].at[0] != hop
    ensures OncePerPlace(a + b)
  {
  }

  ghost predicate UnderOneOf(keys: seq<string>, rs: seq<Report>) {
    forall i :: 0 <= i < |rs| ==> rs[i].at != [] && rs[i].at[0].Key? && rs[i].at[0].k in keys
  }

  ghost predicate InKeyOrder(rs: seq<Report>) {
    && (forall i :: 0 <= i < |rs| ==> rs[i].at != [] && rs[i].at[0].Key?)
    && (forall i, j :: 0 <= i < j < |rs| ==> AtMost(rs[i].at[0].k, rs[j].at[0].k))
  }

  /** No place is reported twice. */
  lemma {:induction false} EachPlaceOnce(types: Types, path: string, t: Shape, v: Json)
    requires EmbedsDown(types) && WellFormed(v)
    ensures OncePerPlace(Walk(types, path, t, v))
    decreases v, 1, 0
  {
    match Deref(t)
    case Struct(id) =>
      if v.Obj? {
        SortKeepsMembers(Keys(v.members));
        KeysOnce(types, path, id, v, Sort(Keys(v.members)));
      }
    case Slice(e) => if v.Arr? { ItemsOnce(types, path, e, v, 0); }
    case MapOf(e) => if v.Obj? { MembersOnce(types, path, e, v, 0); }
    case _ =>
  }

  lemma {:induction false} KeysOnce(types: Types, path: string, id: nat, v: Json, keys: seq<string>)
    requires EmbedsDown(types) && WellFormed(v) && v.Obj?
    requires Distinct(keys) && Sorted(keys) && forall k :: k in keys ==> k in Keys(v.members)
    ensures OncePerPlace(WalkKeys(types, path, id, v, keys))
    ensures UnderOneOf(keys, WalkKeys(types, path, id, v, keys))
    ensures InKeyOrder(WalkKeys(types, path, id, v, keys))
    decreases v, 0, |keys|
  {
    hide Fields, Walk, AtMost, OncePerPlace, InKeyOrder;
    NothingWalked();
    if keys != [] {
      var k := keys[0];
      var fields := Fields(types, id);
      if k in fields {
        EachPlaceOnce(types, path + "." + k, fields[k], ValueOf(v, k));
      }
      KeysOnce(types, path, id, v, keys[1..]);
      var one, rest := OneKey(types, path, id, v, k), WalkKeys(types, path, id, v, keys[1..]);
      OneKeyOnce(types, path, id, v, k);
      assert k !in keys[1..];
      Total(k, k);
      forall x | x in keys[1..] ensures AtMost(k, x) {
        var i :| 0 <= i < |keys| - 1 && keys[1..][i] == x;
        assert keys[i + 1] == x;
      }
      assert UnderOneOf(keys[1..], rest);
      JoinKeepsOnce(Key(k), one, rest);
      JoinKeepsOrder(k, one, keys[1..], rest);
    }
  }

  lemma OneKeyOnce(types: Types, path: string, id: nat, v: Json, k: string)
    requires EmbedsDown(types) && v.Obj? && k in Keys(v.members)
    requires k in Fields(types, id) ==>
               OncePerPlace(Walk(types, path + "." + k, Fields(types, id)[k], ValueOf(v, k)))
    ensures OncePerPlace(OneKey(types, path, id, v, k)) && AllUnder(Key(k), OneKey(types, path, id, v, k))
  {
    hide Fields, Walk;
    if k in Fields(types, id) {
      UnderKeepsOnce(Key(k), Walk(types, path + "." + k, Fields(types, id)[k], ValueOf(v, k)));
    }
  }

  lemma NothingWalked()
    ensures OncePerPlace([]) && InKeyOrder([])
  {
  }

  lemma JoinKeepsOrder(k: string, one: seq<Report>, keys: seq<string>, rest: seq<Report>)
    requires AllUnder(Key(k), one) && UnderOneOf(keys, rest) && InKeyOrder(rest)
    requires AtMost(k, k) && forall x :: x in keys ==> AtMost(k, x)
    ensures InKeyOrder(one + rest)
  {
    hide AtMost;
  }

  lemma {:induction false} ItemsOnce(types: Types, path: string, e: Shape, v: Json, from: nat)
    requires EmbedsDown(types) && WellFormed(v) && v.Arr? && from <= |v.items|
    ensures var rs := WalkItems(types, path, e, v, from);
            && OncePerPlace(rs)
            && forall i :: 0 <= i < |rs| ==> rs[i].at != [] && rs[i].at[0].Index? && from <= rs[i].at[0].i
    decreases v, 0, |v.items| - from
  {
    hide Walk;
    if from < |v.items| {
      EachPlaceOnce(types, path, e, v.items[from]);
      UnderKeepsOnce(Index(from), Walk(types, path, e, v.items[from]));
      ItemsOnce(types, path, e, v, from + 1);
      JoinKeepsOnce(Index(from), Under(Index(from), Walk(types, path, e, v.items[from])),
                    WalkItems(types, path, e, v, from + 1));
    }
  }

  lemma {:induction false} MembersOnce(types: Types, path: string, e: Shape, v: Json, from: nat)
    requires EmbedsDown(types) && WellFormed(v) && v.Obj? && from <= |v.members|
    ensures var rs := WalkMembers(types, path, e, v, from);
            && OncePerPlace(rs)
            && UnderOneOf(Keys(v.members)[from..], rs)
    decreases v, 0, |v.members| - from
  {
    hide Walk;
    if from < |v.members| {
      var k := v.members[from].key;
      EachPlaceOnce(types, path, e, v.members[from].value);
      UnderKeepsOnce(Key(k), Walk(types, path, e, v.members[from].value));
      MembersOnce(types, path, e, v, from + 1);
      var keys := Keys(v.members);
      assert keys[from..] == [k] + keys[from + 1..];
      assert k !in keys[from + 1..];
      JoinKeepsOnce(Key(k), Under(Key(k), Walk(types, path, e, v.members[from].value)),
                    WalkMembers(types, path, e, v, from + 1));
    }
  }

  /** The reports from an object come in the order of its keys, whatever order Go ranged
      over the decoded map in. */
  lemma ObjectsReportInOrder(types: Types, path: string, t: Shape, v: Json)
    requires EmbedsDown(types) && WellFormed(v) && Deref(t).Struct?
    ensures InKeyOrder(Walk(types, path, t, v))
  {
    if v.Obj? {
      SortKeepsMembers(Keys(v.members));
      KeysOnce(types, path, Deref(t).id, v, Sort(Keys(v.members)));
    }
  }

  // ---- A value without drift ----

  /** The value with every unmodelled key taken out. */
  function Prune(types: Types, t: Shape, v: Json): Json
    requires EmbedsDown(types)
    decreases v, 1, 0
  {
    match (Deref(t), v)
    case (Struct(id), Obj(_)) => Obj(PruneFrom(types, id, v, 0))
    case (Slice(e), Arr(items)) =>
      Arr(seq(|items|, i requires 0 <= i < |items| => Prune(types, e, items[i])))
    case (MapOf(e), Obj(members)) =>
      Obj(seq(|members|, i requires 0 <= i < |members| => Member(members[i].key, Prune(types, e, members[i].value))))
    case _ => v
  }

  function PruneFrom(types: Types, id: nat, v: Json, from: nat): seq<Member>
    requires EmbedsDown(types) && v.Obj? && from <= |v.members|
    decreases v, 0, |v.members| - from
  {
    if from == |v.members| then []
    else
      var m, fields := v.members[from], Fields(types, id);
      (if m.key in fields then [Member(m.key, Prune(types, fields[m.key], m.value))] else [])
      + PruneFrom(types, id, v, from + 1)
  }

  /** Of the members from there on, the modelled ones, in order, each pruned. */
  lemma {:induction false} PrunedMembers(types: Types, id: nat, v: Json, from: nat)
    requires EmbedsDown(types) && WellFormed(v) && v.Obj? && from <= |v.members|
    ensures var ms, fields := PruneFrom(types, id, v, from), Fields(types, id);
            && Distinct(Keys(ms))
            && (forall j :: 0 <= j < |ms| ==>
                  exists i :: from <= i < |v.members| && ms[j].key == v.members[i].key && ms[j].key in fields
                              && ms[j].value == Prune(types, fields[ms[j].key], v.members[i].value))
    decreases |v.members| - from
  {
    hide Prune, Fields;
    if from < |v.members| {
      PrunedMembers(types, id, v, from + 1);
      var rest := PruneFrom(types, id, v, from + 1);
      var m, fields := v.members[from], Fields(types, id);
      var keys := Keys(v.members);
      if m.key in fields {
        forall j | 0 <= j < |rest| ensures rest[j].key != m.key {
          var i :| from + 1 <= i < |v.members| && rest[j].key == v.members[i].key && rest[j].key in fields
                   && rest[j].value == Prune(types, fields[rest[j].key], v.members[i].value);
          assert keys[i] != keys[from];
        }
      }
    }
  }

  /** All of them, when all are modelled. */
  lemma {:induction false} AllPruned(types: Types, id: nat, v: Json, from: nat)
    requires EmbedsDown(types) && v.Obj? && from <= |v.members|
    requires forall i :: from <= i < |v.members| ==> v.members[i].key in Fields(types, id)
    ensures var ms, fields := PruneFrom(types, id, v, from), Fields(types, id);
            && |ms| == |v.members| - from
            && forall j :: 0 <= j < |ms| ==>
                 ms[j] == Member(v.members[from + j].key,
                                 Prune(types, fields[v.members[from + j].key], v.members[from + j].value))
    decreases |v.members| - from
  {
    hide Prune, Fields;
    if from < |v.members| {
      AllPruned(types, id, v, from + 1);
    }
  }

  lemma {:induction false} PruneIsWellFormed(types: Types, t: Shape, v: Json)
    requires EmbedsDown(types) && WellFormed(v)
    ensures WellFormed(Prune(types, t, v))
    decreases v
  {
    match (Deref(t), v)
    case (Struct(id), Obj(members)) =>
      PrunedMembers(types, id, v, 0);
      var ms, fields := PruneFrom(types, id, v, 0), Fields(types, id);
      forall j | 0 <= j < |ms| ensures WellFormed(ms[j].value) {
        var i :| 0 <= i < |v.members| && ms[j].key == v.members[i].key && ms[j].key in fields
                 && ms[j].value == Prune(types, fields[ms[j].key], v.members[i].value);
        PruneIsWellFormed(types, fields[ms[j].key], v.members[i].value);
      }
    case (Slice(e), Arr(items)) =>
      forall i | 0 <= i < |items| ensures WellFormed(Prune(types, e, items[i])) {
        PruneIsWellFormed(types, e, items[i]);
      }
    case (MapOf(e), Obj(members)) =>
      assert Keys(Prune(types, t, v).members) == Keys(members);
      forall i | 0 <= i < |members| ensures WellFormed(Prune(types, e, members[i].value)) {
        PruneIsWellFormed(types, e, members[i].value);
      }
    case _ =>
  }

  lemma {:induction false} NothingUnmodelledIsLeft(types: Types, t: Shape, v: Json, at: seq<Hop>)
    requires EmbedsDown(types) && WellFormed(v)
    ensures !Unmodelled(types, t, Prune(types, t, v), at)
    decreases v
  {
    var p := Prune(types, t, v);
    if at != [] {
      match (Deref(t), v)
      case (Struct(id), Obj(members)) =>
        if at[0].Key? && at[0].k in Keys(p.members) {
          PrunedMembers(types, id, v, 0);
          var k, fields := at[0].k, Fields(types, id);
          var j := IndexOf(p.members, k);
          var i :| 0 <= i < |v.members| && p.members[j].key == v.members[i].key && k in fields
                   && p.members[j].value == Prune(types, fields[k], v.members[i].value);
          NothingUnmodelledIsLeft(types, fields[k], v.members[i].value, at[1..]);
        }
      case (Slice(e), Arr(items)) =>
        if at[0].Index? && at[0].i < |items| {
          NothingUnmodelledIsLeft(types, e, items[at[0].i], at[1..]);
        }
      case (MapOf(e), Obj(members)) =>
        if at[0].Key? && at[0].k in Keys(p.members) {
          var j := IndexOf(p.members, at[0].k);
          NothingUnmodelledIsLeft(types, e, members[j].value, at[1..]);
        }
      case _ =>
    }
  }

  lemma {:induction false} NoDriftNothingPruned(types: Types, t: Shape, v: Json)
    requires EmbedsDown(types) && WellFormed(v)
    requires forall at :: !Unmodelled(types, t, v, at)
    ensures Prune(types, t, v) == v
    decreases v
  {
    match (Deref(t), v)
    case (Struct(id), Obj(members)) =>
      var fields := Fields(types, id);
      forall i | 0 <= i < |members|
        ensures members[i].key in fields && Prune(types, fields[members[i].key], members[i].value) == members[i].value
      {
        KeyIsIts(members, i);
        var k := members[i].key;
        assert !Unmodelled(types, t, v, [Key(k)]);
        forall at ensures !Unmodelled(types, fields[k], members[i].value, at) {
          assert !Unmodelled(types, t, v, [Key(k)] + at);
          assert ([Key(k)] + at)[1..] == at;
        }
        NoDriftNothingPruned(types, fields[k], members[i].value);
      }
      AllPruned(types, id, v, 0);
      assert PruneFrom(types, id, v, 0) == members;
    case (Slice(e), Arr(items)) =>
      forall i | 0 <= i < |items| ensures Prune(types, e, items[i]) == items[i] {
        forall at ensures !Unmodelled(types, e, items[i], at) {
          assert !Unmodelled(types, t, v, [Index(i)] + at);
          assert ([Index(i)] + at)[1..] == at;
        }
        NoDriftNothingPruned(types, e, items[i]);
      }
      assert Prune(types, t, v).items == items;
    case (MapOf(e), Obj(members)) =>
      forall i | 0 <= i < |members| ensures Prune(types, e, members[i].value) == members[i].value {
        KeyIsIts(members, i);
        forall at ensures !Unmodelled(types, e, members[i].value, at) {
          assert !Unmodelled(types, t, v, [Key(members[i].key)] + at);
          assert ([Key(members[i].key)] + at)[1..] == at;
        }
        NoDriftNothingPruned(types, e, members[i].value);
      }
      assert Prune(types, t, v).members == members;
    case _ =>
  }

  /** Taking the unmodelled keys out leaves a value that reports nothing, and a value reports
      nothing only when there was nothing to take out. */
  lemma PrunedReportsNothing(types: Types, path: string, t: Shape, v: Json)
    requires EmbedsDown(types) && WellFormed(v)
    ensures Walk(types, path, t, Prune(types, t, v)) == []
    ensures Walk(types, path, t, v) == [] <==> Prune(types, t, v) == v
  {
    var p := Prune(types, t, v);
    PruneIsWellFormed(types, t, v);
    var rs := Walk(types, path, t, p);
    if rs != [] {
      ReportsAreUnmodelled(types, path, t, p, rs[0]);
      NothingUnmodelledIsLeft(types, t, v, rs[0].at);
      assert false;
    }
    if Walk(types, path, t, v) == [] {
      forall at ensures !Unmodelled(types, t, v, at) {
        if Unmodelled(types, t, v, at) {
          UnmodelledIsReported(types, path, t, v, at);
        }
      }
      NoDriftNothingPruned(types, t, v);
    }
  }

  // ---- What a run counts ----

  function PathsOf(rs: seq<Report>): set<string> {
    set r | r in rs :: r.path
  }

  lemma NoPaths()
    ensures PathsOf([]) == {}
  {
  }

  lemma OnePathMore(rs: seq<Report>, r: Report)
    ensures PathsOf(rs + [r]) == PathsOf(rs) + {r.path}
  {
  }

  /** The client's drift counter and the paths it has logged. */
  class DriftReporter {
    var driftSeen: nat
    var driftOnce: set<string>
    var log: seq<string>

    constructor ()
      ensures driftSeen == 0 && driftOnce == {} && log == []
    {
      driftSeen := 0;
      driftOnce := {};
      log := [];
    }

    /** A path is logged once, and counted every time. */
    method Report(field: string)
      modifies this
      ensures driftSeen == old(driftSeen) + 1 && driftOnce == old(driftOnce) + {field}
      ensures log == if field in old(driftOnce) then old(log) else old(log) + [field]
    {
      driftSeen := driftSeen + 1;
      if field in driftOnce {
        return;
      }
      driftOnce := driftOnce + {field};
      log := log + [field];
    }

    /** Over a run the counter is the number of reports, the paths are their set, and the
        log has each path once, where it first came. */
    method ReportAll(rs: seq<Report>)
      requires forall p :: p in log <==> p in driftOnce
      requires Distinct(log)
      modifies this
      ensures driftSeen == old(driftSeen) + |rs|
      ensures driftOnce == old(driftOnce) + PathsOf(rs)
      ensures Distinct(log) && old(log) <= log && forall p :: p in log <==> p in driftOnce
    {
      hide PathsOf;
      NoPaths();
      assert rs[..0] == [];
      for i := 0 to |rs|
        invariant driftSeen == old(driftSeen) + i
        invariant driftOnce == old(driftOnce) + PathsOf(rs[..i])
        invariant Distinct(log) && old(log) <= log && forall p :: p in log <==> p in driftOnce
      {
        assert rs[..i + 1] == rs[..i] + [rs[i]];
        OnePathMore(rs[..i], rs[i]);
        Report(rs[i].path);
      }
      assert rs[..|rs|] == rs;
    }

    /** The paths so far, each once and in order. */
    method DriftPaths() returns (paths: seq<string>)
      ensures Sorted(paths) && Distinct(paths)
      ensures forall p :: p in paths <==> p in driftOnce
    {
      var found: seq<string> := [];
      var todo := driftOnce;
      while todo != {}
        invariant todo <= driftOnce && Distinct(found)
        invariant forall p :: p in found <==> p in driftOnce - todo
        decreases |todo|
      {
        var p :| p in todo;
        assert p !in found;
        found := found + [p];
        todo := todo - {p};
        assert forall q :: q in found <==> q in found[..|found| - 1] || q == p;
      }
      SortKeepsMembers(found);
      return Sort(found);
    }
  }
}
