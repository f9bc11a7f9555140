/** Where each of Resolve's answers comes from, and what it may cache. */
module ResolverTheorems {
  import opened Outcomes
  import opened Cache
  import opened Resolver

  /** The last profile a reply carries for the id. */
  function LastFor(found: seq<Found>, id: string): Option<Person> {
    if found == [] then None
    else
      var f := found[|found| - 1];
      if ChatUserOf(f.requested) == id && f.person.Some? then f.person else LastFor(found[..|found| - 1], id)
  }

  function Or(p: Option<Person>, other: Person): Person {
    match p
    case Some(q) => q
    case None => other
  }

  lemma {:induction false} LearnIsLast(out: map<string, Person>, found: seq<Found>, id: string)
    requires id in out && id != ""
    ensures Learn(out, found)[id] == Or(LastFor(found, id), out[id])
  {
    if found != [] {
      LearnIsLast(out, found[..|found| - 1], id);
    }
  }

  /** Google answers a request about the people it asked for and no others. */
  ghost predicate OnlyAbout(chunks: seq<seq<string>>, replies: nat -> Reply) {
    forall k, id :: 0 <= k < |chunks| && replies(k).Replied? && id !in chunks[k] ==>
      LastFor(replies(k).found, id) == None
  }

  function AnswerOf(r: Reply, id: string): Person {
    match r
    case Refused => NOBODY
    case Replied(found) => Or(LastFor(found, id), NOBODY)
  }

  lemma {:induction false} LookedUpFrom(ids: seq<string>, chunks: seq<seq<string>>, replies: nat -> Reply, id: string,
                                        k: nat)
    requires id in ids && id != "" && OnlyAbout(chunks, replies)
    requires forall j :: 0 <= j < |chunks| && id in chunks[j] ==> j == k
    ensures LookedUp(ids, chunks, replies)[id] ==
            if k < |chunks| && id in chunks[k] then AnswerOf(replies(k), id) else NOBODY
  {
    if chunks != [] {
      var n := |chunks| - 1;
      assert forall j :: 0 <= j < n ==> chunks[..n][j] == chunks[j];
      LookedUpFrom(ids, chunks[..n], replies, id, k);
      var before := LookedUp(ids, chunks[..n], replies);
      match replies(n) {
        case Refused =>
        case Replied(found) =>
          LearnIsLast(before, found, id);
          if id !in chunks[n] {
            assert LastFor(found, id) == None;
          }
      }
    }
  }

  /** The id is in request k and no other, has its answer, and is answered just if k is. */
  ghost predicate FromRequest(k: nat, id: string, c: seq<seq<string>>, out: map<string, Person>,
                              replies: nat -> Reply)
  {
    && k < |c| && id in c[k] && id in out
    && (forall j :: 0 <= j < |c| && id in c[j] ==> j == k)
    && out[id] == AnswerOf(replies(k), id)
    && (id in Answered(c, replies) <==> replies(k).Replied?)
  }

  /** Resolve answers exactly the users/ ids it was asked about. What the cache knew is not
      asked; every other id is in exactly one request, of the fewest requests of 200 that
      hold them all; and its answer is what the reply to that request says of it, or nobody
      when that request failed or says nothing. It is given to the cache exactly when its own
      request was answered. */
  lemma {:induction false} EveryAnswerHasItsSource(ids: seq<string>, known: map<string, Person>, replies: nat -> Reply)
    requires OnlyAbout(Chunks(Misses(Unique(ids), known)), replies)
    ensures
      var wanted := Unique(ids);
      var m := Misses(wanted, known);
      var c := Chunks(m);
      var out := Resolved(wanted, known, replies);
      && |c| == (|m| + 199) / 200
      && (forall id :: id in out <==> id in ids && USER_PREFIX <= id)
      && (forall id :: id in out && id in known ==>
            out[id] == known[id] && forall k :: 0 <= k < |c| ==> id !in c[k])
      && (forall id :: id in out && id !in known ==>
            exists k :: FromRequest(k, id, c, out, replies))
  {
    hide LookedUp, Chunks, Answered, Misses, Unique, AnswerOf, OnlyAbout;
    var wanted := Unique(ids);
    var m := Misses(wanted, known);
    var c := Chunks(m);
    var out := Resolved(wanted, known, replies);
    ChunksPartition(m);
    ChunksHold(m);
    AnsweredWereAsked(c, replies);
    forall id | id in out && id !in known
      ensures exists k :: FromRequest(k, id, c, out, replies)
    {
      OneChunkEach(m, id);
      var k :| 0 <= k < |c| && id in c[k];
      LookedUpFrom(m, c, replies, id, k);
      assert FromRequest(k, id, c, out, replies);
    }
  }

  /** A failed request leaves no trace in the cache: whatever the cache holds of an id whose
      request was not answered, it held before. */
  lemma AFailureIsNeverCached(v: View, wanted: seq<string>, known: map<string, Person>, replies: nat -> Reply,
                              persistent: bool, works: bool, now: int, later: int, ttl: int, id: string)
    requires v.loaded
    requires id !in Answered(Chunks(Misses(wanted, known)), replies)
    ensures var after := CachedAfter(v, wanted, known, replies, persistent, works, now, later, ttl);
            && (id in after.entries ==> id in v.entries && after.entries[id] == v.entries[id])
            && (id in Readable(after.file) ==>
                  || (id in Readable(v.file) && Readable(after.file)[id] == Readable(v.file)[id])
                  || (id in v.entries && Readable(after.file)[id] == v.entries[id]))
  {
    AnsweredAreMisses(Misses(wanted, known), replies);
  }

  /** What the resolver hands out it also remembers: an answered id is cached as the person it
      was resolved to, in memory and, if it resolved and the file could be written, there. Only
      an answer the cache held already and that expired before the save is not kept. */
  lemma WhatIsAnsweredIsCached(v: View, wanted: seq<string>, known: map<string, Person>, replies: nat -> Reply,
                               persistent: bool, works: bool, now: int, later: int, ttl: int, id: string)
    requires v.loaded && later - ttl <= now
    requires id in Answered(Chunks(Misses(wanted, known)), replies)
    ensures
      var after := CachedAfter(v, wanted, known, replies, persistent, works, now, later, ttl);
      var out := Resolved(wanted, known, replies);
      && id in out
      && (id in after.entries ==> after.entries[id].person == out[id])
      && (id !in after.entries ==> id in v.entries && v.entries[id].fetchedAt < later - ttl)
      && (persistent && works && out[id].email != "" && (id in v.entries ==> v.entries[id].person != out[id]) ==>
            after.file.File? && after.file.version == VERSION
            && id in after.file.entries && after.file.entries[id] == Entry(out[id], now))
  {
    var m := Misses(wanted, known);
    AnsweredAreMisses(m, replies);
    var out := Resolved(wanted, known, replies);
    var people := Cacheable(Answered(Chunks(m), replies), LookedUp(m, Chunks(m), replies));
    assert id in people && people[id] == out[id];
    WhatAPutKeeps(v, people, persistent, works, now, later, ttl, id);
    hide Put, Misses, Chunks, Answered, LookedUp;
  }

  lemma WhatAPutKeeps(v: View, people: map<string, Person>, persistent: bool, works: bool, now: int, later: int,
                      ttl: int, id: string)
    requires v.loaded && later - ttl <= now && id in people
    ensures
      var after := Put(v, people, persistent, works, now, later, ttl);
      && (id in after.entries ==> after.entries[id].person == people[id])
      && (id !in after.entries ==> id in v.entries && v.entries[id].fetchedAt < later - ttl)
      && (persistent && works && people[id].email != "" && (id in v.entries ==> v.entries[id].person != people[id]) ==>
            after.file.File? && after.file.version == VERSION
            && id in after.file.entries && after.file.entries[id] == Entry(people[id], now))
  {
    var u := Updated(v.entries, people.Keys, people, now, ttl);
    assert id in u && u[id].person == people[id];
    if people[id].email != "" && (id in v.entries ==> v.entries[id].person != people[id]) {
      assert !Unchanged(v.entries, id, people[id], now, ttl);
      assert WorthSaving(v.entries, people.Keys, people, now, ttl);
      assert u[id] == Entry(people[id], now);
    }
    hide Updated, WorthSaving;
  }
}
