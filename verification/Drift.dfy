/** The walk that reports what a response carries and its type does not model. */
module Drift {
  import opened Outcomes
  import opened Sorting

  // ---- Types and values ----

  /** A Go type, as far as the walk looks into it. A struct is named, so a type may contain
      itself. */
  datatype Shape = Struct(id: nat) | Slice(elem: Shape) | MapOf(elem: Shape) | Pointer(elem: Shape) | Scalar

  datatype Field = Field(name: string, tag: string, embedded: bool, exported: bool, shape: Shape)

  /** The fields of every struct. */
  type Types = nat -> seq<Field>

  function Deref(t: Shape): (r: Shape)
    ensures !r.Pointer? && (!t.Pointer? ==> r == t)
  {
    if t.Pointer? then Deref(t.elem) else t
  }

  /** What strings.Cut leaves before the first comma. */
  function TagName(tag: string): (name: string)
    ensures ',' !in name && name <= tag
    ensures name == tag || tag[|name|] == ','
  {
    if tag == "" || tag[0] == ',' then "" else [tag[0]] + TagName(tag[1..])
  }

  predicate Inlined(f: Field) {
    f.tag != "-" && f.embedded && TagName(f.tag) == "" && Deref(f.shape).Struct?
  }

  predicate Modelled(f: Field) {
    f.tag != "-" && !Inlined(f) && f.exported
  }

  function WireName(f: Field): string {
    if TagName(f.tag) == "" then f.name else TagName(f.tag)
  }

  /** No struct embeds itself, through however many others: an embedded one comes earlier. */
  ghost predicate EmbedsDown(types: Types) {
    forall id: nat, i :: 0 <= i < |types(id)| && Inlined(types(id)[i]) ==> Deref(types(id)[i].shape).id < id
  }

  /** A decoded value. The members of an object come in the order Go happens to range over
      them, which is no order to rely on. */
  datatype Json = Other | Arr(items: seq<Json>) | Obj(members: seq<Member>)
  datatype Member = Member(key: string, value: Json)

  function Keys(members: seq<Member>): (keys: seq<string>)
    ensures |keys| == |members| && forall i :: 0 <= i < |keys| ==> keys[i] == members[i].key
  {
    seq(|members|, i requires 0 <= i < |members| => members[i].key)
  }

  /** Every object has each key once, as a decoded one does. */
  ghost predicate WellFormed(v: Json) {
    match v
    case Other => true
    case Arr(items) => forall i :: 0 <= i < |items| ==> WellFormed(items[i])
    case Obj(members) =>
      && Distinct(Keys(members))
      && forall i :: 0 <= i < |members| ==> WellFormed(members[i].value)
  }

  function IndexOf(members: seq<Member>, k: string): (i: nat)
    requires k in Keys(members)
    ensures i < |members| && members[i].key == k
  {
    if members[0].key == k then 0
    else
      assert exists j :: 0 <= j < |members| && Keys(members)[j] == k;
      var j :| 0 <= j < |members| && Keys(members)[j] == k;
      assert Keys(members[1..])[j - 1] == k;
      1 + IndexOf(members[1..], k)
  }

  // ---- The fields of a struct ----

  /** The wire names the first n fields of a struct model, embedded structs inlined, and
      each name's type as the last of them to claim it. */
  function FieldsTo(types: Types, id: nat, n: nat): map<string, Shape>
    requires EmbedsDown(types) && n <= |types(id)|
    decreases id, n
  {
    if n == 0 then map[]
    else
      var before, f := FieldsTo(types, id, n - 1), types(id)[n - 1];
      if Inlined(f) then
        var e := Deref(f.shape).id;
        before + FieldsTo(types, e, |types(e)|)
      else if Modelled(f) then before[WireName(f) := f.shape]
      else before
  }

  function Fields(types: Types, id: nat): map<string, Shape>
    requires EmbedsDown(types)
  {
    FieldsTo(types, id, |types(id)|)
  }

  // ---- Which field a wire name stands for ----

  /** A field that claims a wire name: whether its tag spells it, how many embeddings deep it
      is declared, and its type. */
  datatype Claim = Claim(name: string, tagged: bool, depth: nat, shape: Shape)

  /** The claims of the first n fields and of the structs they embed, in the order declared. */
  function ClaimsTo(types: Types, id: nat, n: nat, depth: nat): seq<Claim>
    requires EmbedsDown(types) && n <= |types(id)|
    decreases id, n
  {
    if n == 0 then []
    else
      var before, f := ClaimsTo(types, id, n - 1, depth), types(id)[n - 1];
      if Inlined(f) then
        var e := Deref(f.shape).id;
        before + ClaimsTo(types, e, |types(e)|, depth + 1)
      else if Modelled(f) then before + [Claim(WireName(f), TagName(f.tag) != "", depth, f.shape)]
      else before
  }

  function Claims(types: Types, id: nat): seq<Claim>
    requires EmbedsDown(types)
  {
    ClaimsTo(types, id, |types(id)|, 0)
  }

  /** The last claim of a name. */
  function LastClaim(cs: seq<Claim>, k: string): (i: Option<nat>)
    ensures i.Some? ==> i.value < |cs| && cs[i.value].name == k
    ensures forall j :: 0 <= j < |cs| && cs[j].name == k ==> i.Some? && j <= i.value
  {
    if cs == [] then None
    else if cs[|cs| - 1].name == k then Some(|cs| - 1)
    else LastClaim(cs[..|cs| - 1], k)
  }

  lemma LastOfBoth(a: seq<Claim>, b: seq<Claim>, k: string)
    ensures LastClaim(a + b, k) ==
            match LastClaim(b, k)
            case Some(i) => Some(|a| + i)
            case None => LastClaim(a, k)
  {
    var c := a + b;
    assert forall j :: 0 <= j < |b| ==> c[|a| + j] == b[j];
    assert forall j :: 0 <= j < |a| ==> c[j] == a[j];
    var l := LastClaim(c, k);
    if l.Some? {
      assert if l.value < |a| then a[l.value].name == k else b[l.value - |a|].name == k;
    }
  }

  /** The map's word on a name is its last claim's. */
  predicate LastWins(cs: seq<Claim>, fields: map<string, Shape>, k: string) {
    match LastClaim(cs, k)
    case None => k !in fields
    case Some(i) => k in fields && fields[k] == cs[i].shape
  }

  lemma LaterWins(a: seq<Claim>, x: map<string, Shape>, b: seq<Claim>, y: map<string, Shape>, k: string)
    requires LastWins(a, x, k) && LastWins(b, y, k)
    ensures LastWins(a + b, x + y, k)
  {
    hide LastClaim;
    LastOfBoth(a, b, k);
  }

  lemma {:induction false} FieldsToAreLastClaims(types: Types, id: nat, n: nat, depth: nat, k: string)
    requires EmbedsDown(types) && n <= |types(id)|
    ensures LastWins(ClaimsTo(types, id, n, depth), FieldsTo(types, id, n), k)
    decreases id, n
  {
    hide LastWins, TagName, WireName, Modelled;
    if n == 0 {
      NoClaims(k);
    } else {
      FieldsToAreLastClaims(types, id, n - 1, depth, k);
      var before, f := ClaimsTo(types, id, n - 1, depth), types(id)[n - 1];
      if Inlined(f) {
        var e := Deref(f.shape).id;
        FieldsToAreLastClaims(types, e, |types(e)|, depth + 1, k);
        LaterWins(before, FieldsTo(types, id, n - 1), ClaimsTo(types, e, |types(e)|, depth + 1), Fields(types, e), k);
      } else if Modelled(f) {
        var c := Claim(WireName(f), TagName(f.tag) != "", depth, f.shape);
        OneClaim(c, k);
        LaterWins(before, FieldsTo(types, id, n - 1), [c], map[WireName(f) := f.shape], k);
        assert FieldsTo(types, id, n - 1) + map[WireName(f) := f.shape]
            == FieldsTo(types, id, n - 1)[WireName(f) := f.shape];
      }
    }
  }

  lemma NoClaims(k: string)
    ensures LastWins([], map[], k)
  {
  }

  lemma OneClaim(c: Claim, k: string)
    ensures LastWins([c], map[c.name := c.shape], k)
  {
    var cs, fields := [c], map[c.name := c.shape];
    assert cs[0] == c;
    if c.name == k {
      assert LastClaim(cs, k) == Some(0);
      assert k in fields && fields[k] == cs[0].shape;
    } else {
      assert LastClaim(cs, k) == None;
      assert k !in fields;
    }
  }

  /** The field map knows exactly the wire names the struct and the ones it embeds claim, and
      gives each the type of the last claim of it in the order of declaration. */
  lemma FieldsAreWhatIsDeclared(types: Types, id: nat, k: string)
    requires EmbedsDown(types)
    ensures var cs := Claims(types, id);
            && (k in Fields(types, id) <==> exists i :: 0 <= i < |cs| && cs[i].name == k)
            && (k in Fields(types, id) ==>
                  exists i :: && 0 <= i < |cs| && cs[i].name == k && cs[i].shape == Fields(types, id)[k]
                              && forall j :: i < j < |cs| ==> cs[j].name != k)
  {
    hide LastClaim, ClaimsTo, FieldsTo;
    FieldsToAreLastClaims(types, id, |types(id)|, 0, k);
    var cs := Claims(types, id);
    var last := LastClaim(cs, k);
    if last.Some? {
      assert cs[last.value].name == k;
    } else {
      forall i | 0 <= i < |cs| ensures cs[i].name != k {
      }
    }
  }

  /** However many pointers lead to a type, it is the type looked into. */
  lemma {:induction false} PointersAreFollowed(t: Shape, n: nat)
    requires !t.Pointer?
    ensures Deref(Pointers(t, n)) == t
  {
    if n > 0 {
      PointersAreFollowed(t, n - 1);
    }
  }

  function Pointers(t: Shape, n: nat): Shape {
    if n == 0 then t else Pointer(Pointers(t, n - 1))
  }

  /** The tag spells this name, with or without options after it. */
  predicate Spells(tag: string, name: string) {
    ',' !in name && (tag == name || name + "," <= tag)
  }

  /** The struct the field embeds, its tag giving it no name of its own. */
  predicate Embeds(f: Field) {
    f.tag != "-" && f.embedded && Spells(f.tag, "") && Deref(f.shape).Struct?
  }

  /** The field is decoded under the name: the one its tag spells, or its own when the tag spells
      none. */
  predicate Declares(f: Field, k: string) {
    f.tag != "-" && f.exported && !Embeds(f) && if Spells(f.tag, "") then k == f.name else Spells(f.tag, k)
  }

  /** A field of the struct declares the name, or a struct it embeds knows it. */
  ghost predicate Knows(types: Types, id: nat, k: string)
    requires EmbedsDown(types)
    decreases id
  {
    EmbedsAreInlined();
    exists i :: 0 <= i < |types(id)| && (var f := types(id)[i];
      Declares(f, k) || (Embeds(f) && Knows(types, Deref(f.shape).id, k)))
  }

  lemma EmbedsAreInlined()
    ensures forall f :: Embeds(f) <==> Inlined(f)
  {
    forall f: Field ensures Embeds(f) <==> Inlined(f) {
      TagSpells(f.tag, "");
    }
  }

  lemma TagSpells(tag: string, name: string)
    ensures Spells(tag, name) <==> TagName(tag) == name
  {
    var cut := TagName(tag);
    hide TagName;
    assert name == cut != tag ==> name + "," == tag[..|name| + 1];
    if ',' !in name && name + "," <= tag {
      CommaEnds(tag, name);
      CutAtComma(tag, cut, name);
    }
  }

  lemma CommaEnds(tag: string, name: string)
    requires name + "," <= tag
    ensures |name| < |tag| && tag[..|name|] == name && tag[|name|] == ','
  {
    var whole := name + ",";
    assert tag[..|whole|] == whole;
    assert tag[..|name|] == whole[..|name|] == name && tag[|name|] == whole[|name|];
  }

  /** There is one first comma. */
  lemma CutAtComma(tag: string, a: string, b: string)
    requires ',' !in a && ',' !in b && a <= tag && b <= tag
    requires a == tag || tag[|a|] == ','
    requires |b| < |tag| && tag[|b|] == ','
    ensures a == b
  {
    assert forall k :: 0 <= k < |a| ==> tag[k] == a[k] && a[k] in a;
    assert forall k :: 0 <= k < |b| ==> tag[k] == b[k] && b[k] in b;
  }

  lemma {:induction false} FieldsAreKnown(types: Types, id: nat, n: nat, k: string)
    requires EmbedsDown(types) && n <= |types(id)|
    ensures k in FieldsTo(types, id, n) <==>
            exists i :: 0 <= i < n && (var f := types(id)[i];
              Declares(f, k) || (Embeds(f) && Knows(types, Deref(f.shape).id, k)))
    decreases id, n
  {
    if n > 0 {
      FieldsAreKnown(types, id, n - 1, k);
      var f := types(id)[n - 1];
      EmbedsAreInlined();
      TagSpells(f.tag, "");
      TagSpells(f.tag, k);
      if Inlined(f) {
        var e := Deref(f.shape).id;
        FieldsAreKnown(types, e, |types(e)|, k);
      }
      hide TagName, Spells, Knows;
    }
  }

  /** A struct models exactly the names its own fields and those of the structs it embeds are
      decoded under. */
  lemma StructsModelWhatTheyDeclare(types: Types, id: nat, k: string)
    requires EmbedsDown(types)
    ensures k in Fields(types, id) <==> Knows(types, id, k)
  {
    FieldsAreKnown(types, id, |types(id)|, k);
    hide FieldsTo;
  }

  // ---- encoding/json's rule ----

  /** encoding/json prefers the shallowest claim of a name, and of those the tagged ones. */
  ghost predicate Preferred(cs: seq<Claim>, k: string, i: nat) {
    && i < |cs| && cs[i].name == k
    && (forall j :: 0 <= j < |cs| && cs[j].name == k ==> cs[i].depth <= cs[j].depth)
    && (forall j :: 0 <= j < |cs| && cs[j].name == k && cs[j].depth == cs[i].depth && cs[j].tagged ==> cs[i].tagged)
  }

  /** It decodes the name into the one it prefers, and into none when there are several. */
  ghost predicate JsonTakes(cs: seq<Claim>, k: string, i: nat) {
    Preferred(cs, k, i) && forall j :: Preferred(cs, k, j) ==> j == i
  }

  /** No other claim of the name is as shallow, unless this one's tag is what sets it apart. */
  predicate Undisputed(cs: seq<Claim>, k: string, i: nat)
    requires i < |cs|
  {
    forall j :: 0 <= j < |cs| && j != i && cs[j].name == k ==>
      cs[i].depth < cs[j].depth || (cs[i].depth == cs[j].depth && cs[i].tagged && !cs[j].tagged)
  }

  /** The walk looks at the field encoding/json decodes into exactly when the last claim of the
      name is undisputed. */
  lemma FieldsFollowJsonExactly(types: Types, id: nat, k: string, i: nat)
    requires EmbedsDown(types) && LastClaim(Claims(types, id), k) == Some(i)
    ensures var cs := Claims(types, id);
            && k in Fields(types, id) && Fields(types, id)[k] == cs[i].shape
            && (JsonTakes(cs, k, i) <==> Undisputed(cs, k, i))
  {
    hide LastClaim, ClaimsTo;
    FieldsToAreLastClaims(types, id, |types(id)|, 0, k);
    JsonTakesExactly(Claims(types, id), k, i);
  }

  lemma JsonTakesExactly(cs: seq<Claim>, k: string, i: nat)
    requires i < |cs| && cs[i].name == k
    ensures JsonTakes(cs, k, i) <==> Undisputed(cs, k, i)
  {
    if JsonTakes(cs, k, i) {
      forall j | 0 <= j < |cs| && j != i && cs[j].name == k
        ensures cs[i].depth < cs[j].depth || (cs[i].depth == cs[j].depth && cs[i].tagged && !cs[j].tagged)
      {
        assert !Preferred(cs, k, j);
      }
    }
    if Undisputed(cs, k, i) {
      assert Preferred(cs, k, i);
      forall j | Preferred(cs, k, j) ensures j == i {
      }
    }
  }

  /** Struct 0 has a scalar n; struct 1 has a list of them, and then embeds struct 0. */
  const DISPUTED: Types := id =>
    if id == 0 then [Field("n", "", false, true, Scalar)]
    else if id == 1 then [Field("n", "", false, true, Slice(Scalar)), Field("E", "", true, true, Struct(0))]
    else []

  /** It happens: encoding/json decodes into the list, and the walk takes the scalar. */
  lemma AnEmbeddedFieldWins()
    ensures EmbedsDown(DISPUTED)
    ensures var cs := Claims(DISPUTED, 1);
            && JsonTakes(cs, "n", 0) && cs[0].shape == Slice(Scalar)
            && "n" in Fields(DISPUTED, 1) && Fields(DISPUTED, 1)["n"] == Scalar
  {
    var cs := Claims(DISPUTED, 1);
    assert ClaimsTo(DISPUTED, 1, 1, 0) == [Claim("n", false, 0, Slice(Scalar))];
    assert Claims(DISPUTED, 0) == [Claim("n", false, 0, Scalar)];
    assert ClaimsTo(DISPUTED, 0, 1, 1) == [Claim("n", false, 1, Scalar)];
    assert cs == [Claim("n", false, 0, Slice(Scalar)), Claim("n", false, 1, Scalar)];
    JsonTakesExactly(cs, "n", 0);
    FieldsToAreLastClaims(DISPUTED, 1, 2, 0, "n");
    assert LastClaim(cs, "n") == Some(1);
  }

  /** The field maps built so far, shared by every walk. */
  class FieldCache {
    var memo: map<nat, map<string, Shape>>

    constructor ()
      ensures memo == map[]
    {
      memo := map[];
    }

    ghost predicate Valid(types: Types)
      reads this
      requires EmbedsDown(types)
    {
      forall id :: id in memo ==> memo[id] == Fields(types, id)
    }

    /** The memoised field map is always the one that would be built. */
    method JsonFields(types: Types, id: nat) returns (out: map<string, Shape>)
      requires EmbedsDown(types) && Valid(types)
      modifies this
      ensures Valid(types) && out == Fields(types, id)
      ensures memo.Keys >= old(memo.Keys) + {id}
      decreases id, 1
    {
      if id in memo {
        return memo[id];
      }
      out := BuildJsonFields(types, id);
      memo := memo[id := out];
    }

    method BuildJsonFields(types: Types, id: nat) returns (out: map<string, Shape>)
      requires EmbedsDown(types) && Valid(types)
      modifies this
      ensures Valid(types) && out == Fields(types, id)
      ensures memo.Keys >= old(memo.Keys)
      decreases id, 0
    {
      out := map[];
      for i := 0 to |types(id)|
        invariant Valid(types) && out == FieldsTo(types, id, i)
        invariant memo.Keys >= old(memo.Keys)
      {
        var f := types(id)[i];
        if f.tag == "-" {
          continue;
        }
        var name := TagName(f.tag);
        if f.embedded && name == "" {
          var et := Deref(f.shape);
          if et.Struct? {
            var inner := JsonFields(types, et.id);
            out := out + inner;
            continue;
          }
        }
        if !f.exported {
          continue;
        }
        if name == "" {
          name := f.name;
        }
        out := out[name := f.shape];
      }
    }
  }

  // ---- The walk ----

  datatype Hop = Key(k: string) | Index(i: nat)

  /** An unknown field: the path it is reported by, and where in the value it is. */
  datatype Report = Report(path: string, at: seq<Hop>)

  function Under(hop: Hop, rs: seq<Report>): (r: seq<Report>)
    ensures |r| == |rs|
    ensures forall i :: 0 <= i < |r| ==> r[i] == Report(rs[i].path, [hop] + rs[i].at)
  {
    seq(|rs|, i requires 0 <= i < |rs| => Report(rs[i].path, [hop] + rs[i].at))
  }

  function ValueOf(v: Json, k: string): (r: Json)
    requires v.Obj? && k in Keys(v.members)
    ensures r < v
  {
    var i := IndexOf(v.members, k);
    assert v.members[i].value < v;
    v.members[i].value
  }

  /** reportUnknown. */
  function Walk(types: Types, path: string, t: Shape, v: Json): seq<Report>
    requires EmbedsDown(types)
    decreases v, 1, 0
  {
    match Deref(t)
    case Struct(id) =>
      if v.Obj? then
        SortKeepsMembers(Keys(v.members));
        WalkKeys(types, path, id, v, Sort(Keys(v.members)))
      else []
    case Slice(e) => if v.Arr? then WalkItems(types, path, e, v, 0) else []
    case MapOf(e) => if v.Obj? then WalkMembers(types, path, e, v, 0) else []
    case Pointer(_) => []
    case Scalar => []
  }

  function OneKey(types: Types, path: string, id: nat, v: Json, k: string): seq<Report>
    requires EmbedsDown(types) && v.Obj? && k in Keys(v.members)
    decreases v, 0, 0
  {
    var fields := Fields(types, id);
    if k !in fields then [Report(path + "." + k, [Key(k)])]
    else Under(Key(k), Walk(types, path + "." + k, fields[k], ValueOf(v, k)))
  }

  function WalkKeys(types: Types, path: string, id: nat, v: Json, keys: seq<string>): seq<Report>
    requires EmbedsDown(types) && v.Obj?
    requires forall k :: k in keys ==> k in Keys(v.members)
    decreases v, 0, |keys| + 1
  {
    if keys == [] then []
    else OneKey(types, path, id, v, keys[0]) + WalkKeys(types, path, id, v, keys[1..])
  }

  function WalkItems(types: Types, path: string, e: Shape, v: Json, i: nat): seq<Report>
    requires EmbedsDown(types) && v.Arr? && i <= |v.items|
    decreases v, 0, |v.items| - i + 1
  {
    if i == |v.items| then []
    else Under(Index(i), Walk(types, path, e, v.items[i])) + WalkItems(types, path, e, v, i + 1)
  }

  function WalkMembers(types: Types, path: string, e: Shape, v: Json, i: nat): seq<Report>
    requires EmbedsDown(types) && v.Obj? && i <= |v.members|
    decreases v, 0, |v.members| - i + 1
  {
    if i == |v.members| then []
    else Under(Key(v.members[i].key), Walk(types, path, e, v.members[i].value)) + WalkMembers(types, path, e, v, i + 1)
  }
}
