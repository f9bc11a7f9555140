/** The cache over whole runs: gets, puts, the clock, and process restarts. */
module CacheRuns {
  import opened Outcomes
  import opened Cache

  /** A cache with its file at a point in time. */
  datatype World = World(view: View, now: int)

  /** What happens to it. A Put's save reads the clock again, slack after the Put did. */
  datatype Op = Gets | Puts(people: map<string, Person>, slack: nat) | Advances(d: nat) | Restarts

  function Step(w: World, op: Op, ttl: int): World {
    match op
    case Gets => w.(view := Loaded(w.view, true))
    case Puts(people, slack) =>
      World(Put(w.view, people, true, true, w.now, w.now + slack, ttl), w.now + slack)
    case Advances(d) => w.(now := w.now + d)
    case Restarts => w.(view := View(map[], false, w.view.file))
  }

  function Play(w: World, ops: seq<Op>, ttl: int): World {
    if ops == [] then w else Step(Play(w, ops[..|ops| - 1], ttl), ops[|ops| - 1], ttl)
  }

  /** What a Get answers. */
  function Got(w: World, ids: seq<string>, ttl: int): map<string, Person> {
    Answers(Loaded(w.view, true).entries, Ids(ids), w.now, ttl)
  }

  /** And of one id. */
  function Lookup(w: World, id: string, ttl: int): Option<Person> {
    if id in Got(w, [id], ttl) then Some(Got(w, [id], ttl)[id]) else None
  }

  function InFile(w: World): map<string, Entry> {
    Readable(w.view.file)
  }

  ghost predicate FileInv(file: map<string, Entry>, now: int) {
    forall id :: id in file ==> file[id].person.email != "" && file[id].fetchedAt <= now
  }

  /** Memory against the file. Nothing is known from the future; every unexpired answer that
      resolved is in the file with the same value and time; and an unexpired entry of the
      file is either the one in memory or stands behind a miss remembered later. */
  ghost predicate Inv(w: World, ttl: int) {
    var mem, file := w.view.entries, InFile(w);
    && FileInv(file, w.now)
    && (!w.view.loaded ==> mem == map[])
    && (forall id :: id in mem ==> mem[id].fetchedAt <= w.now)
    && (w.view.loaded ==>
          && (forall id :: Fresh(mem, id, w.now, ttl) && mem[id].person.email != "" ==>
                id in file && file[id] == mem[id])
          && (forall id :: Fresh(file, id, w.now, ttl) ==>
                id in mem && (mem[id] == file[id]
                              || (mem[id].person.email == "" && mem[id].fetchedAt >= file[id].fetchedAt))))
  }

  lemma LoadKeepsInv(w: World, ttl: int)
    requires Inv(w, ttl)
    ensures Inv(w.(view := Loaded(w.view, true)), ttl)
  {
    if !w.view.loaded {
      assert map[] + InFile(w) == InFile(w);
    }
  }

  /** A save writes what is live and drops what is expired, whenever it happens. */
  lemma SaveKeepsInv(l: View, u: map<string, Entry>, people: map<string, Person>, now: int, later: int, ttl: int)
    requires Inv(World(l, now), ttl) && l.loaded && ttl > 0 && now <= later
    requires u == Updated(l.entries, people.Keys, people, now, ttl)
    ensures Inv(World(Saved(l.(entries := u), true, true, later, ttl), later), ttl)
  {
    hide Updated;
    UpdatedIsKnown(l.entries, people, now, ttl);
    var saved := Saved(l.(entries := u), true, true, later, ttl);
    assert Readable(saved.file) == Live(u, later, ttl);
  }

  lemma UpdatedIsKnown(entries: map<string, Entry>, people: map<string, Person>, now: int, ttl: int)
    requires forall id :: id in entries ==> entries[id].fetchedAt <= now
    ensures var u := Updated(entries, people.Keys, people, now, ttl);
            forall id :: id in u ==> u[id].fetchedAt <= now
  {
  }

  /** Nothing worth saving means nothing that resolved is new. */
  lemma UnsavedKeepsInv(l: View, u: map<string, Entry>, people: map<string, Person>, now: int, later: int, ttl: int)
    requires Inv(World(l, now), ttl) && l.loaded && ttl > 0 && now <= later
    requires u == Updated(l.entries, people.Keys, people, now, ttl)
    requires !WorthSaving(l.entries, people.Keys, people, now, ttl)
    ensures Inv(World(l.(entries := u), later), ttl)
  {
    forall id | id in people && !Unchanged(l.entries, id, people[id], now, ttl)
      ensures people[id].email == ""
    {
    }
  }

  lemma PutKeepsInv(w: World, people: map<string, Person>, slack: nat, ttl: int)
    requires Inv(w, ttl) && ttl > 0
    ensures Inv(Step(w, Puts(people, slack), ttl), ttl)
  {
    hide Inv, Updated, WorthSaving, Saved;
    LoadKeepsInv(w, ttl);
    var l := Loaded(w.view, true);
    var u := Updated(l.entries, people.Keys, people, w.now, ttl);
    if WorthSaving(l.entries, people.Keys, people, w.now, ttl) {
      SaveKeepsInv(l, u, people, w.now, w.now + slack, ttl);
    } else {
      UnsavedKeepsInv(l, u, people, w.now, w.now + slack, ttl);
    }
  }

  lemma StepKeepsInv(w: World, op: Op, ttl: int)
    requires Inv(w, ttl) && ttl > 0
    ensures Inv(Step(w, op, ttl), ttl)
  {
    match op
    case Gets => LoadKeepsInv(w, ttl);
    case Puts(people, slack) => PutKeepsInv(w, people, slack, ttl);
    case _ =>
  }

  /** Whatever is at the path when the first process starts, as long as this program wrote
      it: nothing, another version, something corrupt, or resolved answers from the past. */
  ghost predicate Begins(w: World) {
    w.view.entries == map[] && !w.view.loaded && FileInv(InFile(w), w.now)
  }

  /** The invariant holds over every run, so the file never holds a miss, and nothing that
      resolved is in memory alone. */
  lemma {:induction false} EveryRunKeepsInv(w: World, ops: seq<Op>, ttl: int)
    requires Begins(w) && ttl > 0
    ensures Inv(Play(w, ops, ttl), ttl)
  {
    if ops != [] {
      EveryRunKeepsInv(w, ops[..|ops| - 1], ttl);
      StepKeepsInv(Play(w, ops[..|ops| - 1], ttl), ops[|ops| - 1], ttl);
    }
  }

  /** At any point of any run, restarting the process changes the answer for exactly the ids
      it remembers as unresolved. Nothing that resolved is lost, and what such an id answers
      afterwards is nothing, or an address it resolved to before. */
  lemma RestartLosesNothing(w: World, ops: seq<Op>, ttl: int, id: string)
    requires Begins(w) && ttl > 0
    ensures var here := Play(w, ops, ttl);
            var before, after := Lookup(here, id, ttl), Lookup(Step(here, Restarts, ttl), id, ttl);
            && (before == after <==> !(before.Some? && before.value.email == ""))
            && (before != after ==> after.None? || after.value.email != "")
  {
    EveryRunKeepsInv(w, ops, ttl);
    var here := Play(w, ops, ttl);
    LoadKeepsInv(here, ttl);
    assert map[] + InFile(here) == InFile(here);
  }

  lemma PutIntoNothing(w: World, p: Person, ttl: int, id: string)
    requires Begins(w) && ttl > 0 && p.email != "" && InFile(w) == map[]
    ensures var e := map[id := Entry(p, w.now)];
            Step(w, Puts(map[id := p], 0), ttl) == World(View(e, true, File(VERSION, e)), w.now)
  {
    assert map[] + InFile(w) == map[];
    var people, e := map[id := p], map[id := Entry(p, w.now)];
    assert Updated(map[], people.Keys, people, w.now, ttl) == e;
    assert !Unchanged(map[], id, people[id], w.now, ttl);
    assert WorthSaving(map[], people.Keys, people, w.now, ttl);
    assert Pruned(e, w.now, ttl) == e && Live(e, w.now, ttl) == e;
  }

  lemma MissOver(w: World, p: Person, ttl: int, id: string)
    requires ttl > 0 && p.email != ""
    requires w.view.loaded && w.view.entries == map[id := Entry(p, w.now)]
    ensures Step(w, Puts(map[id := NOBODY], 0), ttl).view ==
            View(map[id := Entry(NOBODY, w.now)], true, w.view.file)
  {
    var people := map[id := NOBODY];
    assert Updated(w.view.entries, people.Keys, people, w.now, ttl) == map[id := Entry(NOBODY, w.now)];
  }

  /** Which is no more than can happen: an answer put, then a miss put over it, comes back. */
  lemma AMissIsForgotten(w: World, p: Person, ttl: int, id: string)
    requires Begins(w) && ttl > 0 && p.email != "" && InFile(w) == map[]
    ensures var here := Step(Step(w, Puts(map[id := p], 0), ttl), Puts(map[id := NOBODY], 0), ttl);
            && Lookup(here, id, ttl) == Some(NOBODY)
            && Lookup(Step(here, Restarts, ttl), id, ttl) == Some(p)
  {
    PutIntoNothing(w, p, ttl, id);
    var once := Step(w, Puts(map[id := p], 0), ttl);
    MissOver(once, p, ttl, id);
    var here := Step(once, Puts(map[id := NOBODY], 0), ttl);
    var there := Step(here, Restarts, ttl);
    assert Loaded(there.view, true).entries == map[id := Entry(p, w.now)];
  }

  // ---- Where an answer comes from ----

  /** The entry was in the file at the start, or some Put of the run made it when it says. */
  ghost predicate Came(w: World, ops: seq<Op>, ttl: int, id: string, e: Entry) {
    || (id in InFile(w) && InFile(w)[id] == e)
    || exists i :: && 0 <= i < |ops| && ops[i].Puts? && id in ops[i].people
                   && ops[i].people[id] == e.person && Play(w, ops[..i], ttl).now == e.fetchedAt
  }

  lemma CameStays(w: World, ops: seq<Op>, op: Op, ttl: int, id: string, e: Entry)
    requires Came(w, ops, ttl, id, e)
    ensures Came(w, ops + [op], ttl, id, e)
  {
    if !(id in InFile(w) && InFile(w)[id] == e) {
      var i :| && 0 <= i < |ops| && ops[i].Puts? && id in ops[i].people
               && ops[i].people[id] == e.person && Play(w, ops[..i], ttl).now == e.fetchedAt;
      assert (ops + [op])[..i] == ops[..i] && (ops + [op])[i] == ops[i];
    }
  }

  ghost predicate AllCame(w: World, ops: seq<Op>, ttl: int, entries: map<string, Entry>) {
    forall id :: id in entries ==> Came(w, ops, ttl, id, entries[id])
  }

  lemma {:induction false} EntriesCame(w: World, ops: seq<Op>, ttl: int)
    requires Begins(w)
    ensures AllCame(w, ops, ttl, Play(w, ops, ttl).view.entries)
    ensures AllCame(w, ops, ttl, InFile(Play(w, ops, ttl)))
  {
    if ops != [] {
      var past, op := ops[..|ops| - 1], ops[|ops| - 1];
      EntriesCame(w, past, ttl);
      assert past + [op] == ops;
      var t := Play(w, past, ttl);
      var merged := Loaded(t.view, true).entries;
      forall id | id in merged ensures Came(w, ops, ttl, id, merged[id]) {
        CameStays(w, past, op, ttl, id, merged[id]);
      }
      forall id | id in InFile(t) ensures Came(w, ops, ttl, id, InFile(t)[id]) {
        CameStays(w, past, op, ttl, id, InFile(t)[id]);
      }
      forall id | id in t.view.entries ensures Came(w, ops, ttl, id, t.view.entries[id]) {
        CameStays(w, past, op, ttl, id, t.view.entries[id]);
      }
      if op.Puts? {
        var u := Updated(merged, op.people.Keys, op.people, t.now, ttl);
        forall id | id in u ensures Came(w, ops, ttl, id, u[id]) {
          if id in op.people && !Unchanged(merged, id, op.people[id], t.now, ttl) {
            assert ops[|ops| - 1].Puts? && Play(w, ops[..|ops| - 1], ttl).now == u[id].fetchedAt;
          }
        }
      }
    }
  }

  /** Every answer a Get gives, in every run, was put by some Put of that run, or stood in
      the file it began with, no longer ago than the time to live. */
  lemma EveryAnswerIsRecent(w: World, ops: seq<Op>, ttl: int, ids: seq<string>, id: string)
    requires Begins(w)
    ensures var here := Play(w, ops, ttl);
            id in Got(here, ids, ttl) ==>
              && id in ids
              && exists e :: Came(w, ops, ttl, id, e) && e.person == Got(here, ids, ttl)[id]
                             && here.now - ttl <= e.fetchedAt
  {
    EntriesCame(w, ops, ttl);
    var here := Play(w, ops, ttl);
    var entries := Loaded(here.view, true).entries;
    if id in Got(here, ids, ttl) {
      assert Came(w, ops, ttl, id, entries[id]);
    }
  }

  /** What is asked together is answered as what is asked alone. */
  lemma EachIsAnsweredAlone(w: World, ids: seq<string>, ttl: int, id: string)
    ensures id in ids ==>
              (Lookup(w, id, ttl) == if id in Got(w, ids, ttl) then Some(Got(w, ids, ttl)[id]) else None)
  {
  }

  lemma PutHolds(v: View, people: map<string, Person>, now: int, later: int, ttl: int, id: string)
    requires id in people && !Unchanged(Loaded(v, true).entries, id, people[id], now, ttl) && later - ttl <= now
    ensures var out := Put(v, people, true, true, now, later, ttl);
            && out.loaded && id in out.entries && out.entries[id] == Entry(people[id], now)
            && (people[id].email != "" ==> id in Readable(out.file) && Readable(out.file)[id] == Entry(people[id], now))
  {
    var l := Loaded(v, true);
    var u := Updated(l.entries, people.Keys, people, now, ttl);
    hide Loaded, Unchanged;
    assert u[id] == Entry(people[id], now);
    assert people[id].email != "" ==> WorthSaving(l.entries, people.Keys, people, now, ttl);
    hide Updated, WorthSaving;
  }

  lemma LookedUp(w: World, id: string, ttl: int)
    ensures var entries := Loaded(w.view, true).entries;
            Lookup(w, id, ttl) == if Fresh(entries, id, w.now, ttl) then Some(entries[id].person) else None
  {
  }

  /** And the cache is of use: what a Put was given it answers, for the time to live, from
      memory and after a restart unless it is a miss. */
  lemma WhatIsPutIsGot(w: World, people: map<string, Person>, slack: nat, d: nat, ttl: int, id: string)
    requires id in people && slack + d <= ttl
    requires Lookup(w, id, ttl) != Some(people[id])
    ensures var put := Step(w, Puts(people, slack), ttl);
            var later := Step(put, Advances(d), ttl);
            && Lookup(later, id, ttl) == Some(people[id])
            && (people[id].email != "" ==> Lookup(Step(later, Restarts, ttl), id, ttl) == Some(people[id]))
  {
    var later := Step(Step(w, Puts(people, slack), ttl), Advances(d), ttl);
    LookedUp(w, id, ttl);
    PutHolds(w.view, people, w.now, w.now + slack, ttl, id);
    LookedUp(later, id, ttl);
    LookedUp(Step(later, Restarts, ttl), id, ttl);
    hide Put, Lookup;
  }
}
