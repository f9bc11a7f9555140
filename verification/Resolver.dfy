/** Turning Chat user ids into people: the cache first, then as few requests as Google
    allows, and never a failure. */
module Resolver {
  import opened Outcomes
  import opened Cache

  const USER_PREFIX := "users/"
  const PEOPLE_PREFIX := "people/"
  const MAX_BATCH := 200

  // ---- The ids ----

  /** Every id worth looking up, once, in the order it first came. */
  function Unique(ids: seq<string>): (u: seq<string>)
    ensures forall id :: id in u <==> id in ids && USER_PREFIX <= id
    ensures forall i, j :: 0 <= i < j < |u| ==> u[i] != u[j]
  {
    if ids == [] then []
    else
      var rest, id := Unique(ids[..|ids| - 1]), ids[|ids| - 1];
      assert forall x :: x in ids <==> x in ids[..|ids| - 1] || x == id;
      if id in rest || !(USER_PREFIX <= id) then rest else rest + [id]
  }

  function Misses(ids: seq<string>, known: map<string, Person>): (m: seq<string>)
    ensures forall id :: id in m <==> id in ids && id !in known
    ensures (forall i, j :: 0 <= i < j < |ids| ==> ids[i] != ids[j]) ==>
              forall i, j :: 0 <= i < j < |m| ==> m[i] != m[j]
  {
    if ids == [] then []
    else
      var rest, id := Misses(ids[..|ids| - 1], known), ids[|ids| - 1];
      assert forall x :: x in ids <==> x in ids[..|ids| - 1] || x == id;
      if id in known then rest else rest + [id]
  }

  /** slices.Chunk. */
  function Chunks(ids: seq<string>): (c: seq<seq<string>>) {
    if |ids| <= MAX_BATCH then (if ids == [] then [] else [ids])
    else [ids[..MAX_BATCH]] + Chunks(ids[MAX_BATCH..])
  }

  /** The resource name asked about, and the id read back from the one a reply echoes. */
  function ResourceOf(user: string): string {
    PEOPLE_PREFIX + (if USER_PREFIX <= user then user[|USER_PREFIX|..] else user)
  }

  function ChatUserOf(resource: string): string {
    if PEOPLE_PREFIX <= resource && resource != PEOPLE_PREFIX
    then USER_PREFIX + resource[|PEOPLE_PREFIX|..] else ""
  }

  /** A reply's echo names the id it was asked about, for every id that is more than the
      bare prefix, so an answer is never filed under somebody else. */
  lemma EchoNamesWhoWasAsked(user: string, other: string)
    requires USER_PREFIX <= user && USER_PREFIX <= other
    ensures user != USER_PREFIX <==> ChatUserOf(ResourceOf(user)) == user
    ensures ChatUserOf(ResourceOf(user)) == other ==> user == other
  {
    assert user == USER_PREFIX + user[|USER_PREFIX|..];
    assert other == USER_PREFIX + other[|USER_PREFIX|..];
    assert ResourceOf(user)[|PEOPLE_PREFIX|..] == user[|USER_PREFIX|..];
    if user != USER_PREFIX {
      assert ChatUserOf(ResourceOf(user)) == user;
    }
  }

  // ---- The People API ----

  datatype Found = Found(requested: string, person: Option<Person>)

  datatype Reply = Refused | Replied(found: seq<Found>)

  /** What a reply adds, entry by entry. */
  function Learn(out: map<string, Person>, found: seq<Found>): (r: map<string, Person>)
    ensures out.Keys <= r.Keys
  {
    if found == [] then out
    else
      var rest, f := Learn(out, found[..|found| - 1]), found[|found| - 1];
      var id := ChatUserOf(f.requested);
      if id == "" || f.person.None? then rest else rest[id := f.person.value]
  }

  function Nobodies(ids: seq<string>): map<string, Person> {
    map id | id in ids :: NOBODY
  }

  /** What the lookups of the first chunks learned, chunk k getting reply k. */
  function LookedUp(ids: seq<string>, chunks: seq<seq<string>>, replies: nat -> Reply): (r: map<string, Person>)
    ensures forall id :: id in ids ==> id in r
  {
    if chunks == [] then Nobodies(ids)
    else
      var before := LookedUp(ids, chunks[..|chunks| - 1], replies);
      match replies(|chunks| - 1)
      case Refused => before
      case Replied(found) => Learn(before, found)
  }

  function Answered(chunks: seq<seq<string>>, replies: nat -> Reply): seq<string> {
    if chunks == [] then []
    else Answered(chunks[..|chunks| - 1], replies)
         + (if replies(|chunks| - 1).Refused? then [] else chunks[|chunks| - 1])
  }

  /** The API as this package uses it, remembering what it was asked. */
  class PeopleApi {
    var asked: seq<seq<string>>

    constructor ()
      ensures asked == []
    {
      asked := [];
    }

    method GetPeople(users: seq<string>, reply: Reply) returns (r: Reply)
      modifies this
      ensures asked == old(asked) + [users] && r == reply
    {
      asked := asked + [users];
      r := reply;
    }
  }

  lemma LookedUpNext(ids: seq<string>, chunks: seq<seq<string>>, replies: nat -> Reply, k: nat)
    requires k < |chunks|
    ensures LookedUp(ids, chunks[..k + 1], replies) ==
            match replies(k)
            case Refused => LookedUp(ids, chunks[..k], replies)
            case Replied(found) => Learn(LookedUp(ids, chunks[..k], replies), found)
    ensures Answered(chunks[..k + 1], replies) ==
            Answered(chunks[..k], replies) + if replies(k).Refused? then [] else chunks[k]
  {
    assert chunks[..k + 1][..k] == chunks[..k] && chunks[..k + 1][k] == chunks[k];
  }

  /** lookup: one request a chunk, every failure absorbed. */
  method Lookup(people: PeopleApi, ids: seq<string>, replies: nat -> Reply)
    returns (out: map<string, Person>, answered: seq<string>)
    modifies people
    ensures people.asked == old(people.asked) + Chunks(ids)
    ensures out == LookedUp(ids, Chunks(ids), replies)
    ensures answered == Answered(Chunks(ids), replies)
  {
    hide Chunks, LookedUp, Answered, Learn;
    out := Nobodies(ids);
    answered := [];
    var chunks := Chunks(ids);
    NoChunks(ids, replies);
    assert chunks[..0] == [];
    for k := 0 to |chunks|
      invariant people.asked == old(people.asked) + chunks[..k]
      invariant out == LookedUp(ids, chunks[..k], replies)
      invariant answered == Answered(chunks[..k], replies)
    {
      LookedUpNext(ids, chunks, replies, k);
      assert chunks[..k + 1] == chunks[..k] + [chunks[k]];
      var resp := people.GetPeople(chunks[k], replies(k));
      match resp {
        case Refused =>
        case Replied(found) =>
          answered := answered + chunks[k];
          out := LearnAll(out, found);
      }
    }
    assert chunks[..|chunks|] == chunks;
  }

  lemma NoChunks(ids: seq<string>, replies: nat -> Reply)
    ensures LookedUp(ids, [], replies) == Nobodies(ids) && Answered([], replies) == []
  {
  }

  /** One reply's people. */
  method LearnAll(before: map<string, Person>, found: seq<Found>) returns (out: map<string, Person>)
    ensures out == Learn(before, found)
  {
    out := before;
    for i := 0 to |found|
      invariant out == Learn(before, found[..i])
    {
      assert found[..i + 1][..i] == found[..i] && found[..i + 1][i] == found[i];
      var id := ChatUserOf(found[i].requested);
      if id != "" && found[i].person.Some? {
        out := out[id := found[i].person.value];
      }
    }
    assert found[..|found|] == found;
  }

  /** The people among learned that a replied chunk was asked about. */
  function Cacheable(answered: seq<string>, learned: map<string, Person>): map<string, Person>
    requires forall id :: id in answered ==> id in learned
  {
    map id | id in answered :: learned[id]
  }

  lemma {:induction false} AnsweredWereAsked(chunks: seq<seq<string>>, replies: nat -> Reply)
    ensures forall id :: id in Answered(chunks, replies) <==>
              exists k :: 0 <= k < |chunks| && replies(k).Replied? && id in chunks[k]
  {
    if chunks != [] {
      var n := |chunks| - 1;
      AnsweredWereAsked(chunks[..n], replies);
      assert forall k :: 0 <= k < n ==> chunks[..n][k] == chunks[k];
    }
  }

  lemma {:induction false} ChunksPartition(ids: seq<string>)
    ensures |Chunks(ids)| == (|ids| + 199) / 200
    ensures forall k :: 0 <= k < |Chunks(ids)| ==> 0 < |Chunks(ids)[k]| <= 200
    ensures Flat(Chunks(ids)) == ids
  {
    if |ids| > MAX_BATCH {
      ChunksPartition(ids[MAX_BATCH..]);
      assert Chunks(ids)[1..] == Chunks(ids[MAX_BATCH..]);
      assert ids[..MAX_BATCH] + ids[MAX_BATCH..] == ids;
    } else if ids != [] {
      assert Chunks(ids)[1..] == [];
    }
  }

  function Flat(chunks: seq<seq<string>>): seq<string> {
    if chunks == [] then [] else chunks[0] + Flat(chunks[1..])
  }

  lemma {:induction false} OneChunkEach(ids: seq<string>, id: string)
    requires forall i, j :: 0 <= i < j < |ids| ==> ids[i] != ids[j]
    requires id in ids
    ensures exists k :: 0 <= k < |Chunks(ids)| && id in Chunks(ids)[k]
    ensures forall j, k :: 0 <= j < k < |Chunks(ids)| ==> !(id in Chunks(ids)[j] && id in Chunks(ids)[k])
  {
    if |ids| > MAX_BATCH {
      var head, tail := ids[..MAX_BATCH], ids[MAX_BATCH..];
      var c := Chunks(ids);
      assert c[0] == head && c[1..] == Chunks(tail);
      assert head + tail == ids;
      ChunksHold(tail);
      if id in tail {
        OneChunkEach(tail, id);
        var k :| 0 <= k < |Chunks(tail)| && id in Chunks(tail)[k];
        assert id in c[k + 1];
        assert id !in head;
      }
      forall j, k | 0 <= j < k < |c| ensures !(id in c[j] && id in c[k]) {
        assert c[k] == Chunks(tail)[k - 1];
        if j > 0 {
          assert c[j] == Chunks(tail)[j - 1];
        }
      }
    } else {
      assert id in Chunks(ids)[0];
    }
  }

  lemma {:induction false} ChunksHold(ids: seq<string>)
    ensures forall k, id :: 0 <= k < |Chunks(ids)| && id in Chunks(ids)[k] ==> id in ids
  {
    if |ids| > MAX_BATCH {
      ChunksHold(ids[MAX_BATCH..]);
      assert Chunks(ids)[1..] == Chunks(ids[MAX_BATCH..]);
      forall k, id | 0 <= k < |Chunks(ids)| && id in Chunks(ids)[k] ensures id in ids {
        if k > 0 {
          assert Chunks(ids)[k] == Chunks(ids[MAX_BATCH..])[k - 1];
          assert id in ids[MAX_BATCH..];
        }
      }
    }
  }

  lemma NothingToAsk(replies: nat -> Reply)
    ensures Chunks([]) == [] && Answered([], replies) == []
  {
  }

  // ---- Resolve ----

  /** Every id asked about, from what was known or what the lookup learned. */
  function Resolved(wanted: seq<string>, known: map<string, Person>, replies: nat -> Reply): map<string, Person> {
    var m := Misses(wanted, known);
    var learned := LookedUp(m, Chunks(m), replies);
    map id | id in wanted :: if id in known then known[id] else learned[id]
  }

  /** What the cache holds afterwards: exactly the answered ids are put. */
  function CachedAfter(v: View, wanted: seq<string>, known: map<string, Person>, replies: nat -> Reply,
                       persistent: bool, works: bool, now: int, later: int, ttl: int): View
  {
    var m := Misses(wanted, known);
    var answered := Answered(Chunks(m), replies);
    if answered == [] then v
    else
      AnsweredAreMisses(m, replies);
      Put(v, Cacheable(answered, LookedUp(m, Chunks(m), replies)), persistent, works, now, later, ttl)
  }

  lemma AnsweredAreMisses(m: seq<string>, replies: nat -> Reply)
    ensures forall id :: id in Answered(Chunks(m), replies) ==> id in m
  {
    AnsweredWereAsked(Chunks(m), replies);
    ChunksHold(m);
  }

  class DirectoryResolver {
    const people: PeopleApi
    const cache: DirectoryCache?

    constructor (people: PeopleApi, cache: DirectoryCache?)
      ensures this.people == people && this.cache == cache
    {
      this.people := people;
      this.cache := cache;
    }

    /** now is the clock at the Get, then at the Put, and later at the save. */
    method Resolve(ids: seq<string>, replies: nat -> Reply, works: bool, now: int, then_: int, later: int)
      returns (out: map<string, Person>)
      modifies people, if cache == null then {} else {cache, cache.disk}
      ensures
        var wanted := Unique(ids);
        if wanted == [] then
          && out == map[] && people.asked == old(people.asked)
          && (cache != null ==> cache.Contents() == old(cache.Contents()))
        else
          var known := if cache == null then map[]
                       else Answers(Loaded(old(cache.Contents()), cache.persistent).entries, Ids(wanted), now,
                                    cache.ttl);
          && out == Resolved(wanted, known, replies)
          && people.asked == old(people.asked) + Chunks(Misses(wanted, known))
          && (cache != null ==>
                cache.Contents() == CachedAfter(Loaded(old(cache.Contents()), cache.persistent), wanted, known, replies,
                                                cache.persistent, works, then_, later, cache.ttl))
    {
      hide Loaded, Put, Chunks, Unique, Misses, LookedUp, Answered, Answers;
      NothingToAsk(replies);
      var unique := UniqueIds(ids);
      if unique == [] {
        return map[];
      }
      var cached: map<string, Person> := map[];
      if cache != null {
        cached := cache.Get(unique, now);
      }
      var known, misses := FromCache(unique, cached);
      if misses == [] {
        return known;
      }
      var learned, answered := Lookup(people, misses, replies);
      out := Filled(unique, known, misses, learned);
      if cache != null && answered != [] {
        AnsweredAreMisses(misses, replies);
        cache.PutAll(Cacheable(answered, learned), works, then_, later);
      }
    }
  }

  lemma MissesNext(unique: seq<string>, cached: map<string, Person>, i: nat)
    requires i < |unique|
    ensures Misses(unique[..i + 1], cached)
         == Misses(unique[..i], cached) + if unique[i] in cached then [] else [unique[i]]
  {
    assert unique[..i + 1][..i] == unique[..i] && unique[..i + 1][i] == unique[i];
  }

  function Picked(ids: seq<string>, cached: map<string, Person>): map<string, Person> {
    map id | id in ids && id in cached :: cached[id]
  }

  lemma PickedNext(ids: seq<string>, cached: map<string, Person>, id: string)
    ensures Picked(ids + [id], cached) ==
            if id in cached then Picked(ids, cached)[id := cached[id]] else Picked(ids, cached)
  {
  }

  lemma NothingPicked(cached: map<string, Person>)
    ensures Picked([], cached) == map[] && Misses([], cached) == []
  {
  }

  /** The answers the cache gave, and the ids it did not know. */
  method FromCache(unique: seq<string>, cached: map<string, Person>)
    returns (out: map<string, Person>, misses: seq<string>)
    ensures misses == Misses(unique, cached)
    ensures out == Picked(unique, cached)
  {
    hide Misses, Picked;
    out := map[];
    misses := [];
    NothingPicked(cached);
    assert unique[..0] == [];
    for i := 0 to |unique|
      invariant misses == Misses(unique[..i], cached)
      invariant out == Picked(unique[..i], cached)
    {
      PickedNext(unique[..i], cached, unique[i]);
      MissesNext(unique, cached, i);
      assert unique[..i + 1] == unique[..i] + [unique[i]];
      var id := unique[i];
      if id in cached {
        out := out[id := cached[id]];
      } else {
        misses := misses + [id];
      }
    }
    assert unique[..|unique|] == unique;
  }

  /** What was known, with every miss filled in from what was learned. */
  method Filled(ghost unique: seq<string>, known: map<string, Person>, misses: seq<string>, learned: map<string,
                Person>)
    returns (out: map<string, Person>)
    requires forall id :: id in misses ==> id in learned
    requires forall id :: id in unique <==> id in known || id in misses
    requires forall id :: id in misses ==> id !in known
    ensures out == map id | id in unique :: if id in known then known[id] else learned[id]
  {
    out := known;
    for i := 0 to |misses|
      invariant forall id :: id in out <==> id in known || id in misses[..i]
      invariant forall id :: id in out ==> out[id] == if id in known then known[id] else learned[id]
    {
      assert misses[..i + 1] == misses[..i] + [misses[i]];
      out := out[misses[i] := learned[misses[i]]];
    }
    assert misses[..|misses|] == misses;
  }

  method UniqueIds(ids: seq<string>) returns (unique: seq<string>)
    ensures unique == Unique(ids)
  {
    unique := [];
    var seen: set<string> := {};
    for i := 0 to |ids|
      invariant unique == Unique(ids[..i])
      invariant forall id :: id in seen <==> id in unique
    {
      assert ids[..i + 1][..i] == ids[..i] && ids[..i + 1][i] == ids[i];
      var id := ids[i];
      if id == "" || id in seen || !(USER_PREFIX <= id) {
        continue;
      }
      seen := seen + {id};
      unique := unique + [id];
    }
    assert ids[..|ids|] == ids;
  }
}
