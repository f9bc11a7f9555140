/** The on-disk cache from a Chat user id to the person behind it. */
module Cache {
  import opened Outcomes

  /** An empty email means unresolved. */
  datatype Person = Person(email: string, displayName: string)

  const NOBODY := Person("", "")

  datatype Entry = Entry(person: Person, fetchedAt: int)

  /** What is at the cache's path: nothing, something unreadable, or a file of a version. */
  datatype Stored = Missing | Corrupt | File(version: int, entries: map<string, Entry>)

  const VERSION := 1
  const DEFAULT_TTL := 86_400_000_000_000

  /** A cache and its file. */
  datatype View = View(entries: map<string, Entry>, loaded: bool, file: Stored)

  predicate Expired(e: Entry, now: int, ttl: int) {
    e.fetchedAt < now - ttl
  }

  predicate Fresh(entries: map<string, Entry>, id: string, now: int, ttl: int) {
    id in entries && !Expired(entries[id], now, ttl)
  }

  // ---- What each operation does ----

  function Readable(file: Stored): map<string, Entry> {
    if file.File? && file.version == VERSION then file.entries else map[]
  }

  function Loaded(v: View, persistent: bool): View {
    if v.loaded then v
    else v.(loaded := true, entries := if persistent then v.entries + Readable(v.file) else v.entries)
  }

  function Ids(ids: seq<string>): set<string> {
    set id | id in ids
  }

  function Answers(entries: map<string, Entry>, ids: set<string>, now: int, ttl: int): map<string, Person> {
    map id | id in ids && Fresh(entries, id, now, ttl) :: entries[id].person
  }

  /** An answer the cache already holds unexpired is not worth an update. */
  predicate Unchanged(entries: map<string, Entry>, id: string, p: Person, now: int, ttl: int) {
    Fresh(entries, id, now, ttl) && entries[id].person == p
  }

  function Updated(entries: map<string, Entry>, ids: set<string>, people: map<string, Person>, now: int, ttl: int)
    : map<string, Entry>
    requires ids <= people.Keys
  {
    map id | id in entries.Keys + ids ::
      if id in ids && !Unchanged(entries, id, people[id], now, ttl) then Entry(people[id], now) else entries[id]
  }

  predicate WorthSaving(entries: map<string, Entry>, ids: set<string>, people: map<string, Person>, now: int, ttl: int)
    requires ids <= people.Keys
  {
    exists id :: id in ids && !Unchanged(entries, id, people[id], now, ttl) && people[id].email != ""
  }

  function Pruned(entries: map<string, Entry>, now: int, ttl: int): map<string, Entry> {
    map id | id in entries && !Expired(entries[id], now, ttl) :: entries[id]
  }

  function Live(entries: map<string, Entry>, now: int, ttl: int): map<string, Entry> {
    map id | id in entries && !Expired(entries[id], now, ttl) && entries[id].person.email != "" :: entries[id]
  }

  function Saved(v: View, persistent: bool, works: bool, now: int, ttl: int): View {
    if !persistent then v
    else v.(entries := Pruned(v.entries, now, ttl),
            file := if works then File(VERSION, Live(v.entries, now, ttl)) else v.file)
  }

  /** A Put at now whose save, if it needs one, reads the clock at later. */
  function Put(v: View, people: map<string, Person>, persistent: bool, works: bool, now: int, later: int,
               ttl: int): View
  {
    var l := Loaded(v, persistent);
    var u := l.(entries := Updated(l.entries, people.Keys, people, now, ttl));
    if WorthSaving(l.entries, people.Keys, people, now, ttl) then Saved(u, persistent, works, later, ttl) else u
  }

  /** What the people are put over: memory, with the file's entries in it once loaded. */
  predicate Held(v: View, persistent: bool, id: string, e: Entry) {
    if !v.loaded && persistent && v.file.File? && v.file.version == 1 && id in v.file.entries
    then e == v.file.entries[id]
    else id in v.entries && e == v.entries[id]
  }

  /** The answer is held already, unexpired. */
  ghost predicate Known(v: View, persistent: bool, id: string, p: Person, now: int, ttl: int) {
    exists at: int :: now - ttl <= at && Held(v, persistent, id, Entry(p, at))
  }

  /** What a put makes of an id: the answer it brings, from now on, unless that is held
      already, and what was held of any other. */
  ghost predicate Becomes(v: View, persistent: bool, people: map<string, Person>, id: string, e: Entry, now: int,
                          ttl: int)
  {
    if id in people && !Known(v, persistent, id, people[id], now, ttl) then e == Entry(people[id], now)
    else Held(v, persistent, id, e)
  }

  /** A put, id by id. It saves just when some answer that resolved is new, and that drops from
      memory what has expired by then; the file it writes, if it can, is what is left and
      resolved. Without a save nothing is dropped and the file stays. */
  lemma WhatAPutLeaves(v: View, people: map<string, Person>, persistent: bool, works: bool, now: int, later: int,
                       ttl: int)
    ensures
      var out := Put(v, people, persistent, works, now, later, ttl);
      var saves := persistent
                   && exists id :: id in people && people[id].email != ""
                                   && !Known(v, persistent, id, people[id], now, ttl);
      && out.loaded
      && (forall id, e :: id in out.entries && out.entries[id] == e <==>
            Becomes(v, persistent, people, id, e, now, ttl) && (saves ==> later - ttl <= e.fetchedAt))
      && (saves && works ==>
            && out.file.File? && out.file.version == 1
            && forall id, e :: id in out.file.entries && out.file.entries[id] == e <==>
                 Becomes(v, persistent, people, id, e, now, ttl) && later - ttl <= e.fetchedAt
                 && e.person.email != "")
      && (!(saves && works) ==> out.file == v.file)
  {
    var base := Loaded(v, persistent).entries;
    HeldIsLoaded(v, persistent);
    forall id, p ensures Known(v, persistent, id, p, now, ttl) <==> Unchanged(base, id, p, now, ttl) {
      if Unchanged(base, id, p, now, ttl) {
        assert base[id] == Entry(p, base[id].fetchedAt);
        assert Held(v, persistent, id, Entry(p, base[id].fetchedAt));
      }
    }
    hide Held, Known, Loaded;
    UpdatedIsWhatBecomes(v, persistent, people, now, ttl);
    hide Becomes, Updated, Unchanged;
  }

  lemma HeldIsLoaded(v: View, persistent: bool)
    ensures var base := Loaded(v, persistent).entries;
            forall id, e :: Held(v, persistent, id, e) <==> id in base && base[id] == e
  {
  }

  lemma UpdatedIsWhatBecomes(v: View, persistent: bool, people: map<string, Person>, now: int, ttl: int)
    requires forall id, p :: Known(v, persistent, id, p, now, ttl) <==>
                             Unchanged(Loaded(v, persistent).entries, id, p, now, ttl)
    ensures var u := Updated(Loaded(v, persistent).entries, people.Keys, people, now, ttl);
            forall id, e :: id in u && u[id] == e <==> Becomes(v, persistent, people, id, e, now, ttl)
  {
    HeldIsLoaded(v, persistent);
    hide Held, Known, Loaded;
  }

  // ---- One step of each loop ----

  function Merged(base: map<string, Entry>, more: map<string, Entry>, done: set<string>): map<string, Entry> {
    base + (map id | id in more && id in done :: more[id])
  }

  lemma MergedStep(base: map<string, Entry>, more: map<string, Entry>, done: set<string>, id: string)
    requires id in more
    ensures Merged(base, more, done + {id}) == Merged(base, more, done)[id := more[id]]
  {
  }

  lemma MergedWhole(base: map<string, Entry>, more: map<string, Entry>)
    ensures Merged(base, more, {}) == base && Merged(base, more, more.Keys) == base + more
  {
  }

  lemma PlusNothing(base: map<string, Entry>)
    ensures base + map[] == base
  {
  }

  lemma UpdatedStep(base: map<string, Entry>, done: set<string>, id: string, people: map<string, Person>, now: int,
                    ttl: int)
    requires done <= people.Keys && id in people && id !in done
    ensures var u := Updated(base, done, people, now, ttl);
            && (id in u <==> id in base) && (id in base ==> u[id] == base[id])
            && Updated(base, done + {id}, people, now, ttl) ==
               if Unchanged(base, id, people[id], now, ttl) then u else u[id := Entry(people[id], now)]
    ensures WorthSaving(base, done + {id}, people, now, ttl) <==>
            WorthSaving(base, done, people, now, ttl)
            || (!Unchanged(base, id, people[id], now, ttl) && people[id].email != "")
  {
  }

  lemma UpdatedNone(base: map<string, Entry>, people: map<string, Person>, now: int, ttl: int)
    ensures Updated(base, {}, people, now, ttl) == base
    ensures !WorthSaving(base, {}, people, now, ttl)
  {
  }

  /** Memory while a save has looked at all but the ids in todo. */
  function Sieved(was: map<string, Entry>, todo: set<string>, now: int, ttl: int): map<string, Entry> {
    map id | id in was && (id in todo || !Expired(was[id], now, ttl)) :: was[id]
  }

  function LiveBut(was: map<string, Entry>, todo: set<string>, now: int, ttl: int): map<string, Entry> {
    map id | id in was && id !in todo && !Expired(was[id], now, ttl) && was[id].person.email != "" :: was[id]
  }

  lemma SieveStep(was: map<string, Entry>, todo: set<string>, id: string, now: int, ttl: int)
    requires id in todo && id in was
    ensures var s, l := Sieved(was, todo, now, ttl), LiveBut(was, todo, now, ttl);
            && id in s && s[id] == was[id]
            && Sieved(was, todo - {id}, now, ttl) == (if Expired(was[id], now, ttl) then s - {id} else s)
            && LiveBut(was, todo - {id}, now, ttl) ==
               (if !Expired(was[id], now, ttl) && was[id].person.email != "" then l[id := was[id]] else l)
  {
  }

  lemma SieveWhole(was: map<string, Entry>, now: int, ttl: int)
    ensures Sieved(was, was.Keys, now, ttl) == was && LiveBut(was, was.Keys, now, ttl) == map[]
    ensures Sieved(was, {}, now, ttl) == Pruned(was, now, ttl) && LiveBut(was, {}, now, ttl) == Live(was, now, ttl)
  {
  }

  // ---- The code ----

  class Disk {
    var file: Stored

    constructor (file: Stored)
      ensures this.file == file
    {
      this.file := file;
    }
  }

  class DirectoryCache {
    const persistent: bool
    const ttl: int
    const disk: Disk
    var entries: map<string, Entry>
    var loaded: bool

    /** An empty path keeps the answers in memory; a ttl that is not positive means a day. */
    constructor (path: string, ttl: int, disk: Disk)
      ensures this.persistent == (path != "") && this.disk == disk
      ensures this.ttl == if ttl <= 0 then DEFAULT_TTL else ttl
      ensures Contents() == View(map[], false, disk.file)
    {
      this.persistent := path != "";
      this.ttl := if ttl <= 0 then DEFAULT_TTL else ttl;
      this.disk := disk;
      this.entries := map[];
      this.loaded := false;
    }

    ghost function Contents(): View
      reads this, disk
    {
      View(entries, loaded, disk.file)
    }

    /** Once, and only from a readable file of this version. */
    method Load()
      modifies this
      ensures Contents() == Loaded(old(Contents()), persistent)
      ensures loaded && disk.file == old(disk.file)
      ensures !old(loaded) && persistent && disk.file.File? && disk.file.version == 1 ==>
                entries == old(entries) + disk.file.entries
      ensures old(loaded) || !persistent || !disk.file.File? || disk.file.version != 1 ==>
                entries == old(entries)
    {
      if loaded {
        return;
      }
      loaded := true;
      if !persistent || !disk.file.File? || disk.file.version != VERSION {
        PlusNothing(entries);
        return;
      }
      TakeIn(disk.file.entries);
    }

    /** Each entry read, over what memory has. */
    method TakeIn(more: map<string, Entry>)
      modifies this`entries
      ensures entries == old(entries) + more
    {
      hide Merged;
      ghost var before := entries;
      MergedWhole(before, more);
      var todo := more.Keys;
      assert more.Keys - todo == {};
      while todo != {}
        invariant todo <= more.Keys
        invariant entries == Merged(before, more, more.Keys - todo)
        decreases |todo|
      {
        var id :| id in todo;
        MergedStep(before, more, more.Keys - todo, id);
        assert more.Keys - (todo - {id}) == more.Keys - todo + {id};
        entries := entries[id := more[id]];
        todo := todo - {id};
      }
      assert more.Keys - todo == more.Keys;
    }

    /** Exactly the ids asked for that are held and were fetched no longer ago than the time to
        live, each with the person held. */
    method Get(ids: seq<string>, now: int) returns (out: map<string, Person>)
      modifies this
      ensures Contents() == Loaded(old(Contents()), persistent)
      ensures forall id :: id in out <==> id in ids && id in entries && now - ttl <= entries[id].fetchedAt
      ensures forall id :: id in out ==> out[id] == entries[id].person
      ensures out == Answers(entries, Ids(ids), now, ttl)
    {
      Load();
      out := map[];
      for i := 0 to |ids|
        invariant Contents() == Loaded(old(Contents()), persistent)
        invariant out == Answers(entries, Ids(ids[..i]), now, ttl)
      {
        var id := ids[i];
        assert ids[..i + 1] == ids[..i] + [id];
        if id in entries && !Expired(entries[id], now, ttl) {
          out := out[id := entries[id].person];
        }
      }
      assert ids[..|ids|] == ids;
    }

    method PutAll(people: map<string, Person>, works: bool, now: int, later: int)
      modifies this, disk
      ensures Contents() == Put(old(Contents()), people, persistent, works, now, later, ttl)
    {
      hide Loaded, Updated, WorthSaving, Saved, Expired;
      Load();
      ghost var was := Contents();
      UpdatedNone(entries, people, now, ttl);
      var changed := false;
      var todo := people.Keys;
      assert people.Keys - todo == {};
      while todo != {}
        invariant todo <= people.Keys && loaded == was.loaded && disk.file == was.file
        invariant entries == Updated(was.entries, people.Keys - todo, people, now, ttl)
        invariant changed <==> WorthSaving(was.entries, people.Keys - todo, people, now, ttl)
        decreases |todo|
      {
        var id :| id in todo;
        var p := people[id];
        UpdatedStep(was.entries, people.Keys - todo, id, people, now, ttl);
        assert people.Keys - (todo - {id}) == people.Keys - todo + {id};
        if !(id in entries && !Expired(entries[id], now, ttl) && entries[id].person == p) {
          entries := entries[id := Entry(p, now)];
          if p.email != "" {
            changed := true;
          }
        }
        todo := todo - {id};
      }
      assert people.Keys - todo == people.Keys;
      if changed {
        Save(works, later);
      }
    }

    /** Writes the file, dropping what has expired from memory too. */
    method Save(works: bool, now: int)
      modifies this, disk
      ensures Contents() == Saved(old(Contents()), persistent, works, now, ttl)
    {
      if !persistent {
        return;
      }
      var live: map<string, Entry> := map[];
      ghost var was := entries;
      SieveWhole(was, now, ttl);
      var todo := entries.Keys;
      while todo != {}
        invariant todo <= was.Keys && loaded == old(loaded) && disk.file == old(disk.file)
        invariant entries == Sieved(was, todo, now, ttl)
        invariant live == LiveBut(was, todo, now, ttl)
        decreases |todo|
      {
        hide Sieved, LiveBut, Expired;
        var id :| id in todo;
        SieveStep(was, todo, id, now, ttl);
        todo := todo - {id};
        if Expired(entries[id], now, ttl) {
          entries := entries - {id};
        } else if entries[id].person.email != "" {
          live := live[id := entries[id]];
        }
      }
      if works {
        disk.file := File(VERSION, live);
      }
    }
  }
}
