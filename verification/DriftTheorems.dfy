/** The walk is exact: it reports each unmodelled key once, and nothing else. */
module DriftTheorems {
  import opened Outcomes
  import opened Sorting
  import opened Drift

  /** Following the hops through modelled fields, items and map entries ends at a key of an
      object whose struct does not model it. */
  predicate Unmodelled(types: Types, t: Shape, v: Json, at: seq<Hop>)
    requires EmbedsDown(types)
    decreases v
  {
    && at != []
    && match (Deref(t), at[0])
       case (Struct(id), Key(k)) =>
         && v.Obj? && k in Keys(v.members)
         && (var fields := Fields(types, id);
             if k in fields then Unmodelled(types, fields[k], ValueOf(v, k), at[1..]) else |at| == 1)
       case (MapOf(e), Key(k)) =>
         v.Obj? && k in Keys(v.members) && Unmodelled(types, e, ValueOf(v, k), at[1..])
       case (Slice(e), Index(i)) =>
         v.Arr? && i < |v.items| && Unmodelled(types, e, v.items[i], at[1..])
       case _ => false
  }

  /** The dotted name of such a place: the struct keys on the way, and neither the keys of
      an open map nor the places in a list. */
  function Dotted(types: Types, path: string, t: Shape, at: seq<Hop>): string
    requires EmbedsDown(types)
    decreases at
  {
    if at == [] then path
    else
      match (Deref(t), at[0])
      case (Struct(id), Key(k)) =>
        var fields := Fields(types, id);
        Dotted(types, path + "." + k, if k in fields then fields[k] else Scalar, at[1..])
      case (MapOf(e), _) => Dotted(types, path, e, at[1..])
      case (Slice(e), _) => Dotted(types, path, e, at[1..])
      case _ => path
  }

  // ---- Nothing else ----

  lemma {:induction false} ReportsAreUnmodelled(types: Types, path: string, t: Shape, v: Json, r: Report)
    requires EmbedsDown(types) && WellFormed(v)
    requires r in Walk(types, path, t, v)
    ensures Unmodelled(types, t, v, r.at) && r.path == Dotted(types, path, t, r.at)
    decreases v, 1, 0
  {
    match Deref(t)
    case Struct(id) =>
      SortKeepsMembers(Keys(v.members));
      var k := KeyReports(types, path, id, v, Sort(Keys(v.members)), r);
      var fields := Fields(types, id);
      if k in fields {
        var inner := Walk(types, path + "." + k, fields[k], ValueOf(v, k));
        var i :| 0 <= i < |inner| && r == Report(inner[i].path, [Key(k)] + inner[i].at);
        ReportsAreUnmodelled(types, path + "." + k, fields[k], ValueOf(v, k), inner[i]);
        assert r.at[1..] == inner[i].at;
      } else {
        assert r == Report(path + "." + k, [Key(k)]);
        assert r.at[1..] == [];
      }
    case Slice(e) =>
      var i := ItemReports(types, path, e, v, 0, r);
      var inner := Walk(types, path, e, v.items[i]);
      var j :| 0 <= j < |inner| && r == Report(inner[j].path, [Index(i)] + inner[j].at);
      ReportsAreUnmodelled(types, path, e, v.items[i], inner[j]);
      assert r.at[1..] == inner[j].at;
    case MapOf(e) =>
      var i := MemberReports(types, path, e, v, 0, r);
      var inner := Walk(types, path, e, v.members[i].value);
      var j :| 0 <= j < |inner| && r == Report(inner[j].path, [Key(v.members[i].key)] + inner[j].at);
      ReportsAreUnmodelled(types, path, e, v.members[i].value, inner[j]);
      assert r.at[1..] == inner[j].at;
      KeyIsIts(v.members, i);
  }

  /** With each key once, the key finds its own member. */
  lemma KeyIsIts(members: seq<Member>, i: nat)
    requires Distinct(Keys(members)) && i < |members|
    ensures members[i].key in Keys(members) && IndexOf(members, members[i].key) == i
  {
    hide *;
    var keys := Keys(members);
    assert keys[i] == members[i].key && members[i].key in keys;
    var j := IndexOf(members, members[i].key);
    assert members[j].key == members[i].key;
    assert keys[j] == members[j].key;
    SamePlace(keys, i, j);
  }

  lemma SamePlace(keys: seq<string>, i: nat, j: nat)
    requires Distinct(keys) && i < |keys| && j < |keys| && keys[i] == keys[j]
    ensures i == j
  {
  }

  lemma {:induction false} KeyReports(types: Types, path: string, id: nat, v: Json, keys: seq<string>, r: Report)
    returns (k: string)
    requires EmbedsDown(types) && v.Obj?
    requires forall k :: k in keys ==> k in Keys(v.members)
    requires r in WalkKeys(types, path, id, v, keys)
    ensures k in keys && r in OneKey(types, path, id, v, k)
    decreases |keys|
  {
    if r in OneKey(types, path, id, v, keys[0]) {
      k := keys[0];
    } else {
      k := KeyReports(types, path, id, v, keys[1..], r);
    }
  }

  lemma {:induction false} ItemReports(types: Types, path: string, e: Shape, v: Json, from: nat, r: Report)
    returns (i: nat)
    requires EmbedsDown(types) && v.Arr? && from <= |v.items|
    requires r in WalkItems(types, path, e, v, from)
    ensures from <= i < |v.items| && r in Under(Index(i), Walk(types, path, e, v.items[i]))
    decreases |v.items| - from
  {
    if r in Under(Index(from), Walk(types, path, e, v.items[from])) {
      i := from;
    } else {
      i := ItemReports(types, path, e, v, from + 1, r);
    }
  }

  lemma {:induction false} MemberReports(types: Types, path: string, e: Shape, v: Json, from: nat, r: Report)
    returns (i: nat)
    requires EmbedsDown(types) && v.Obj? && from <= |v.members|
    requires r in WalkMembers(types, path, e, v, from)
    ensures from <= i < |v.members| && r in Under(Key(v.members[i].key), Walk(types, path, e, v.members[i].value))
    decreases |v.members| - from
  {
    if r in Under(Key(v.members[from].key), Walk(types, path, e, v.members[from].value)) {
      i := from;
    } else {
      i := MemberReports(types, path, e, v, from + 1, r);
    }
  }

  // ---- Everything ----

  lemma {:induction false} UnmodelledIsReported(types: Types, path: string, t: Shape, v: Json, at: seq<Hop>)
    requires EmbedsDown(types) && WellFormed(v)
    requires Unmodelled(types, t, v, at)
    ensures Report(Dotted(types, path, t, at), at) in Walk(types, path, t, v)
    decreases v
  {
    var r := Report(Dotted(types, path, t, at), at);
    assert at == [at[0]] + at[1..];
    match (Deref(t), at[0])
    case (Struct(id), Key(k)) =>
      var fields := Fields(types, id);
      if k in fields {
        UnmodelledIsReported(types, path + "." + k, fields[k], ValueOf(v, k), at[1..]);
        InUnder(Key(k), Walk(types, path + "." + k, fields[k], ValueOf(v, k)),
                Report(Dotted(types, path + "." + k, fields[k], at[1..]), at[1..]));
      } else {
        assert at == [Key(k)] && at[1..] == [];
        assert Dotted(types, path + "." + k, Scalar, at[1..]) == path + "." + k;
        assert OneKey(types, path, id, v, k) == [Report(path + "." + k, [Key(k)])];
      }
      assert r in OneKey(types, path, id, v, k);
      SortKeepsMembers(Keys(v.members));
      KeysReport(types, path, id, v, Sort(Keys(v.members)), k, r);
    case (MapOf(e), Key(k)) =>
      var i := IndexOf(v.members, k);
      UnmodelledIsReported(types, path, e, v.members[i].value, at[1..]);
      InUnder(Key(k), Walk(types, path, e, v.members[i].value), Report(Dotted(types, path, e, at[1..]), at[1..]));
      MembersReport(types, path, e, v, 0, i, r);
    case (Slice(e), Index(i)) =>
      UnmodelledIsReported(types, path, e, v.items[i], at[1..]);
      InUnder(Index(i), Walk(types, path, e, v.items[i]), Report(Dotted(types, path, e, at[1..]), at[1..]));
      ItemsReport(types, path, e, v, 0, i, r);
  }

  lemma InUnder(hop: Hop, rs: seq<Report>, r: Report)
    requires r in rs
    ensures Report(r.path, [hop] + r.at) in Under(hop, rs)
  {
    var i :| 0 <= i < |rs| && rs[i] == r;
    assert Under(hop, rs)[i] == Report(r.path, [hop] + r.at);
  }

  lemma {:induction false} KeysReport(types: Types, path: string, id: nat, v: Json, keys: seq<string>, k: string,
                                      r: Report)
    requires EmbedsDown(types) && v.Obj?
    requires forall k :: k in keys ==> k in Keys(v.members)
    requires k in keys && r in OneKey(types, path, id, v, k)
    ensures r in WalkKeys(types, path, id, v, keys)
    decreases |keys|
  {
    if keys[0] != k {
      KeysReport(types, path, id, v, keys[1..], k, r);
    }
  }

  lemma {:induction false} ItemsReport(types: Types, path: string, e: Shape, v: Json, from: nat, i: nat, r: Report)
    requires EmbedsDown(types) && v.Arr? && from <= i < |v.items|
    requires r in Under(Index(i), Walk(types, path, e, v.items[i]))
    ensures r in WalkItems(types, path, e, v, from)
    decreases i - from
  {
    hide Walk, Under;
    if from < i {
      ItemsReport(types, path, e, v, from + 1, i, r);
    }
  }

  lemma {:induction false} MembersReport(types: Types, path: string, e: Shape, v: Json, from: nat, i: nat, r: Report)
    requires EmbedsDown(types) && v.Obj? && from <= i < |v.members|
    requires r in Under(Key(v.members[i].key), Walk(types, path, e, v.members[i].value))
    ensures r in WalkMembers(types, path, e, v, from)
    decreases i - from
  {
    hide Walk, Under;
    if from < i {
      MembersReport(types, path, e, v, from + 1, i, r);
    }
  }

  /** For every type, recursive ones included, and every value, what is reported is exactly
      the unmodelled keys, each under its dotted name. */
  lemma TheWalkIsExact(types: Types, path: string, t: Shape, v: Json, at: seq<Hop>)
    requires EmbedsDown(types) && WellFormed(v)
    ensures Report(Dotted(types, path, t, at), at) in Walk(types, path, t, v) <==> Unmodelled(types, t, v, at)
    ensures forall r :: r in Walk(types, path, t, v) && r.at == at ==> r.path == Dotted(types, path, t, at)
  {
    if Unmodelled(types, t, v, at) {
      UnmodelledIsReported(types, path, t, v, at);
    }
    forall r | r in Walk(types, path, t, v)
      ensures Unmodelled(types, t, v, r.at) && r.path == Dotted(types, path, t, r.at)
    {
      ReportsAreUnmodelled(types, path, t, v, r);
    }
  }
}
