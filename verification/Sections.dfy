/** Filing a space under a section of the caller's sidebar, by the names Google gives them. */
module Sections {
  import opened Outcomes

  // ---- Names ----

  /** strings.Index. */
  function Index(s: string, sep: string): (i: Option<nat>)
    ensures i.Some? ==> i.value <= |s| && sep <= s[i.value..]
  {
    if sep <= s then Some(0)
    else if s == "" then None
    else
      match Index(s[1..], sep)
      case None => None
      case Some(i) => assert s[1..][i..] == s[i + 1..]; Some(i + 1)
  }

  /** strings.Cut. */
  function Cut(s: string, sep: string): (string, string, bool) {
    match Index(s, sep)
    case None => (s, "", false)
    case Some(i) => (s[..i], s[i + |sep|..], true)
  }

  function SectionName(user: string, section: string): string {
    "users/" + user + "/sections/" + section
  }

  function ItemName(user: string, section: string, id: string): string {
    SectionName(user, section) + "/items/" + id
  }

  /** An id fills one segment of a name. */
  predicate Id(x: string) {
    x != "" && '/' !in x
  }

  function SectionOfItem(name: string): string {
    match Index(name, "/items/")
    case Some(i) => if i > 0 then name[..i] else ""
    case None => ""
  }

  predicate SameSection(a: string, b: string) {
    var (aUser, aId, _) := Cut(a, "/sections/");
    var (bUser, bId, _) := Cut(b, "/sections/");
    aId == bId && (aUser == bUser || aUser == "users/me" || bUser == "users/me")
  }

  lemma IndexSkips(c: char, rest: string, sep: string)
    requires sep != "" && sep[0] != c
    ensures Index([c] + rest, sep) == match Index(rest, sep) case None => None case Some(i) => Some(i + 1)
  {
    assert ([c] + rest)[1..] == rest;
  }

  lemma IndexAtSlash(rest: string, word: string)
    ensures var sep := "/" + word + "/";
            Index("/" + rest, sep) ==
              if word + "/" <= rest then Some(0)
              else match Index(rest, sep) case None => None case Some(i) => Some(i + 1)
  {
    SlashThen(word, rest);
    assert ("/" + rest)[1..] == rest;
  }

  /** The first "/word/" is looked for after each segment in turn. */
  lemma {:induction false} NextSegment(first: string, rest: string, word: string)
    requires '/' !in first
    ensures var sep := "/" + word + "/";
            Index(first + "/" + rest, sep) ==
              if word + "/" <= rest then Some(|first|)
              else match Index(rest, sep) case None => None case Some(i) => Some(|first| + 1 + i)
  {
    hide Index;
    if first == "" {
      assert first + "/" + rest == "/" + rest;
      IndexAtSlash(rest, word);
    } else {
      var tail := first[1..];
      assert first[0] in first && first + "/" + rest == [first[0]] + (tail + "/" + rest);
      IndexSkips(first[0], tail + "/" + rest, "/" + word + "/");
      NextSegment(tail, rest, word);
    }
  }

  lemma SlashThen(word: string, rest: string)
    ensures "/" + word + "/" <= "/" + rest <==> word + "/" <= rest
  {
    var sep, s := "/" + word + "/", "/" + rest;
    assert sep == "/" + (word + "/");
    if sep <= s {
      assert word + "/" == sep[1..] == s[..|sep|][1..] == rest[..|sep| - 1];
    }
    if word + "/" <= rest {
      assert s[..|sep|] == "/" + rest[..|sep| - 1] == sep;
    }
  }

  /** A segment is the word exactly when the text goes on with the word and a slash. */
  lemma SegmentIs(x: string, word: string, rest: string)
    requires '/' !in x && '/' !in word
    ensures word + "/" <= x + "/" + rest <==> x == word
  {
    var s, w := x + "/" + rest, word + "/";
    assert forall k :: 0 <= k < |x| ==> s[k] == x[k] && x[k] in x;
    assert forall k :: 0 <= k < |word| ==> w[k] == word[k] && word[k] in word;
    assert s[|x|] == '/' && w[|word|] == '/';
    if w <= s {
      assert |word| == |x|;
      assert s[..|x|] == x && w[..|x|] == word;
    }
    if x == word {
      assert s[..|w|] == w;
    }
  }

  // ---- What the two readings of a name mean ----

  /** Where the "/items/" of an item's name is found. */
  lemma ItemsAt(user: string, section: string, id: string)
    requires Id(user) && Id(section)
    ensures Index(ItemName(user, section, id), "/items/") ==
            Some(if user == "items" then 5
                 else if section == "items" then 5 + 1 + |user| + 9
                 else |SectionName(user, section)|)
  {
    hide Index, SectionName;
    var d := section + "/" + ("items/" + id);
    var b := user + "/" + ("sections" + "/" + d);
    NameBySegments(user, section, id);
    assert "/" + "items" + "/" == "/items/" && ("items/" + id)[..6] == "items" + "/";
    NextSegment("users", b, "items");
    SegmentIs(user, "items", "sections" + "/" + d);
    NextSegment(user, "sections" + "/" + d, "items");
    SegmentIs("sections", "items", d);
    NextSegment("sections", d, "items");
    SegmentIs(section, "items", "items/" + id);
    NextSegment(section, "items/" + id, "items");
  }

  lemma NameBySegments(user: string, section: string, id: string)
    ensures ItemName(user, section, id)
         == "users" + "/" + (user + "/" + ("sections" + "/" + (section + "/" + ("items/" + id))))
    ensures |SectionName(user, section)| == 16 + |user| + |section|
  {
  }

  lemma FirstSegment(x: string, a: string, y: string, b: string)
    requires '/' !in x && '/' !in y && x + "/" + a == y + "/" + b
    ensures x == y && a == b
  {
    var s := x + "/" + a;
    assert forall k :: 0 <= k < |x| ==> s[k] == x[k] && x[k] in x;
    assert forall k :: 0 <= k < |y| ==> s[k] == (y + "/" + b)[k] == y[k] && y[k] in y;
    assert s[|x|] == '/' && (y + "/" + b)[|y|] == '/';
    assert |x| == |y|;
    assert x == s[..|x|] && y == s[..|y|] && a == s[|x| + 1..] && b == s[|y| + 1..];
  }

  /** An item's name says all of it. */
  lemma ItemNameIsInjective(u: string, s: string, i: string, v: string, t: string, j: string)
    requires Id(u) && Id(s) && Id(v) && Id(t)
    requires ItemName(u, s, i) == ItemName(v, t, j)
    ensures u == v && s == t && i == j
  {
    hide ItemName;
    NameBySegments(u, s, i);
    NameBySegments(v, t, j);
    var a, b := s + "/" + ("items/" + i), t + "/" + ("items/" + j);
    FirstSegment("users", u + "/" + ("sections" + "/" + a), "users", v + "/" + ("sections" + "/" + b));
    FirstSegment(u, "sections" + "/" + a, v, "sections" + "/" + b);
    FirstSegment("sections", a, "sections", b);
    FirstSegment(s, "items/" + i, t, "items/" + j);
    assert ("items/" + i)[6..] == i && ("items/" + j)[6..] == j;
  }

  /** The section an item's name holds is read out of it exactly when neither the user nor
      the section is called "items". */
  lemma SectionOfItemExactly(user: string, section: string, id: string)
    requires Id(user) && Id(section)
    ensures SectionOfItem(ItemName(user, section, id)) == SectionName(user, section)
            <==> user != "items" && section != "items"
  {
    hide Index;
    ItemsAt(user, section, id);
    var name := ItemName(user, section, id);
    assert name[..|SectionName(user, section)|] == SectionName(user, section);
  }

  lemma SectionsAt(user: string, section: string)
    requires Id(user) && Id(section)
    ensures Index(SectionName(user, section), "/sections/") == Some(if user == "sections" then 5 else 6 + |user|)
  {
    hide Index;
    var c := "sections/" + section;
    var b := user + "/" + c;
    assert SectionName(user, section) == "users" + "/" + b;
    assert "/" + "sections" + "/" == "/sections/";
    NextSegment("users", b, "sections");
    SegmentIs(user, "sections", c);
    NextSegment(user, c, "sections");
    assert c[..9] == "sections" + "/";
  }

  lemma CutSection(user: string, section: string)
    requires Id(user) && Id(section)
    ensures Cut(SectionName(user, section), "/sections/") ==
            if user == "sections" then ("users", "sections/" + section, true)
            else ("users/" + user, section, true)
  {
    hide Index;
    SectionsAt(user, section);
    var name := SectionName(user, section);
    if user == "sections" {
      assert name == "users" + "/sections/" + ("sections/" + section);
      assert name[..5] == "users" && name[15..] == "sections/" + section;
    } else {
      assert name == ("users/" + user) + "/sections/" + section;
      assert name[..6 + |user|] == "users/" + user && name[16 + |user|..] == section;
    }
  }

  /** Two section names are the same section exactly when the section ids are the same and
      the users are, "me" standing for any user but one called "sections". */
  lemma SameSectionExactly(u: string, s: string, v: string, t: string)
    requires Id(u) && Id(s) && Id(v) && Id(t)
    ensures SameSection(SectionName(u, s), SectionName(v, t)) <==>
            && s == t
            && (u == v || (u == "me" && v != "sections") || (v == "me" && u != "sections"))
  {
    hide Cut, SectionName;
    CutSection(u, s);
    CutSection(v, t);
    Apart(u, v);
    Apart(u, "me");
    Apart(v, "me");
    assert ("sections/" + s)[8] == '/' && ("sections/" + t)[8] == '/';
    assert ("sections/" + s)[9..] == s && ("sections/" + t)[9..] == t;
  }

  lemma Apart(u: string, v: string)
    ensures "users/" + u == "users/" + v <==> u == v
    ensures u != "" ==> "users/" + u != "users"
  {
    assert ("users/" + u)[6..] == u && ("users/" + v)[6..] == v;
  }

  // ---- The sidebar at Google ----

  /** One entry of the sidebar: the space, where it is filed, and its own id. */
  datatype Entry = Entry(space: string, section: string, id: string)

  /** How Google spells the user in a name it answers with, or that it names nothing. */
  datatype Spelling = Blank | AsMe | AsItself

  datatype Answer<E> = Refused(error: E) | Lost(error: E, applied: bool) | Done(spelling: Spelling)

  class Sidebar {
    const user: string
    var entries: set<Entry>

    /** The ids are ids, and an entry's own id is nobody else's. */
    ghost predicate Valid()
      reads this
    {
      && Id(user)
      && (forall e :: e in entries ==> Id(e.section) && e.id != "")
      && forall e, f :: e in entries && f in entries && e.id == f.id ==> e == f
    }

    /** The user segments that address this sidebar. */
    predicate Mine(u: string) {
      u == "me" || u == user
    }

    function Spelled(spelling: Spelling): string {
      if spelling == AsMe then "me" else user
    }

    /** The name addresses the entry. */
    predicate Addresses(name: string, e: Entry) {
      name == ItemName("me", e.section, e.id) || name == ItemName(user, e.section, e.id)
    }

    /** The name addresses some entry, and the target is a section of this sidebar. */
    ghost predicate Reaches(entries: set<Entry>, name: string, u: string) {
      Mine(u) && exists f :: f in entries && Addresses(name, f)
    }

    /** users.sections.items.move: an entry addressed by where it is now is filed under the
        target. A refusal changes nothing, and an answer that is lost may have changed it. */
    method Move<E>(name: string, u: string, section: string, answer: Answer<E>, unknown: E)
      returns (r: Result<string, E>, ghost e: Entry)
      requires Valid() && Id(section)
      modifies this
      ensures Valid()
      ensures r.Ok? <==> answer.Done? && Reaches(old(entries), name, u)
      ensures r.Err? ==>
                r.error == if !answer.Refused? && !Reaches(old(entries), name, u) then unknown else answer.error
      ensures if (answer.Done? || (answer.Lost? && answer.applied)) && Reaches(old(entries), name, u)
              then Filed(old(entries), entries, name, u, section, e) else entries == old(entries)
      ensures r.Ok? && answer.spelling == Blank ==> r.value == ""
      ensures r.Ok? && answer.spelling != Blank ==> Addresses(r.value, e.(section := section))
    {
      e := *;
      if answer.Refused? { return Err(answer.error), e; }
      if !Mine(u) || !exists f :: f in entries && Addresses(name, f) { return Err(unknown), e; }
      var f :| f in entries && Addresses(name, f);
      e := f;
      if answer.Lost? && !answer.applied { return Err(answer.error), e; }
      entries := entries - {f} + {f.(section := section)};
      if answer.Lost? { return Err(answer.error), e; }
      r := Ok(if answer.spelling == Blank then ""
              else ItemName(Spelled(answer.spelling), section, f.id));
    }

    /** One entry, the one the name addressed, is now under the section; the others are as
        they were. */
    ghost predicate Filed(before: set<Entry>, after: set<Entry>, name: string, u: string, section: string, e: Entry) {
      && e in before && Addresses(name, e) && Mine(u)
      && after == before - {e} + {e.(section := section)}
    }

    /** The names in play can be read: no id in them is a word of a name's shape. They are the
        target's and those of the entry itself. */
    predicate Readable(u: string, s: string, e: Entry) {
      Plain(u, s) && Plain(user, s) && Plain(user, e.section)
    }
  }

  // ---- The move ----

  datatype SectionItem = SectionItem(name: string, space: string)

  datatype Failure<E> = NotFound | Upstream | FromGoogle(error: E)

  datatype Moved = Moved(item: string, from: string, moved: bool)

  /** locateSectionItem, on what the listing answered. */
  function Located<E>(listed: Result<seq<SectionItem>, E>, space: string): Result<string, Failure<E>> {
    match listed
    case Err(e) => Err(FromGoogle(e))
    case Ok(items) =>
      if items == [] then Err(NotFound)
      else if items[0].space != space then Err(Upstream)
      else if items[0].name == "" || SectionOfItem(items[0].name) == "" then Err(Upstream)
      else Ok(items[0].name)
  }

  /** The name the move goes by: the caller's, or the one looked up. */
  function Chosen<E>(hint: string, listed: Result<seq<SectionItem>, E>, space: string): Result<string, Failure<E>> {
    if hint != "" then Ok(hint) else Located(listed, space)
  }

  /** The name used is the caller's if there is one. One looked up is that of the first row,
      which has to be of this space and to name a section; no row at all is not found. */
  lemma TheNameUsed<E>(hint: string, listed: Result<seq<SectionItem>, E>, space: string)
    ensures
      var name := Chosen(hint, listed, space);
      && (hint != "" ==> name == Ok(hint))
      && (hint == "" ==>
            && (name.Ok? <==> listed.Ok? && listed.value != [] && listed.value[0].space == space
                              && SectionOfItem(listed.value[0].name) != "")
            && (name.Ok? ==> name.value == listed.value[0].name)
            && (name == Err(NotFound) <==> listed == Ok([]))
            && (listed.Err? ==> name == Err(FromGoogle(listed.error))))
  {
  }

  function MovedItemName(says: string, item: string, section: string): string {
    if says != "" then says
    else
      var (_, id, found) := Cut(item, "/items/");
      if found then section + "/items/" + id else item
  }

  /** No id is one of the words a name is read by. */
  predicate Plain(user: string, section: string) {
    Id(user) && Id(section) && user != "items" && user != "sections" && section != "items"
  }

  /** A move that is not answered with a name makes up the right one. */
  lemma MadeUpName(user: string, section: string, id: string, u: string, s: string)
    requires Plain(user, section)
    ensures MovedItemName("", ItemName(user, section, id), SectionName(u, s)) == ItemName(u, s, id)
  {
    hide Index, SectionName;
    ItemsAt(user, section, id);
    var name := ItemName(user, section, id);
    assert name[|SectionName(user, section)| + 7..] == id;
  }

  /** What is read out of a name that cannot be read. */
  lemma Misread(user: string, section: string, id: string)
    requires Id(user) && Id(section) && (user == "items" || section == "items")
    ensures var (who, where, _) := Cut(SectionOfItem(ItemName(user, section, id)), "/sections/");
            && who != "users/me"
            && if user == "sections" then who == "users" && where == "sections" else where == ""
  {
    hide Index, SectionName;
    ItemsAt(user, section, id);
    NameBySegments(user, section, id);
    assert "/" + "sections" + "/" == "/sections/";
    var name := ItemName(user, section, id);
    var rest := user + "/" + "sections";
    NoSlashNoSegment("users");
    NoSlashNoSegment("sections");
    NextSegment("users", rest, "sections");
    SegmentIs(user, "sections", "sections");
    NextSegment(user, "sections", "sections");
    assert !("sections" + "/" <= "sections");
    if user == "items" {
      assert name[..5] == "users";
    } else {
      assert name[..15 + |user|] == "users" + "/" + rest;
      var read := "users" + "/" + rest;
      assert user == "sections" ==> read[15..] == "sections" && read[..5] == "users";
    }
    assert |"users" + "/" + rest| != |"users/me"|;
  }

  lemma {:induction false} NoSlashNoSegment(s: string)
    requires '/' !in s
    ensures Index(s, "/sections/") == None
  {
    if s != "" {
      assert s[0] != '/';
      NoSlashNoSegment(s[1..]);
    }
  }

  /** A target is taken for where an item is filed exactly when the item's name says it is
      filed there, for every user and section whose name can be read: none called "items",
      and no user called "sections" that is also "me". The last line is the one misreading
      that makes two different sections one. */
  lemma SettledExactly(user: string, section: string, id: string, u: string, s: string)
    requires Id(user) && Id(section) && Id(u) && Id(s)
    ensures SameSection(SectionOfItem(ItemName(user, section, id)), SectionName(u, s)) <==>
            || (&& user != "items" && section != "items" && section == s
                && (user == u || (user == "me" && u != "sections") || (u == "me" && user != "sections")))
            || (user == "sections" && section == "items" && u == "me" && s == "sections")
  {
    hide Index, ItemName, SectionName, Cut;
    if user != "items" && section != "items" {
      SectionOfItemExactly(user, section, id);
      SameSectionExactly(user, section, u, s);
    } else {
      Misread(user, section, id);
      CutSection(u, s);
      Apart(u, "me");
      assert "users/" + "me" == "users/me";
      assert |"sections/" + s| > |"sections"|;
    }
  }

  /** So an item filed in a section called "items" never counts as being there: filing it there
      again sends a write, every time. */
  lemma ItemsNeverSettles(user: string, id: string, u: string)
    requires Id(user) && Id(u)
    ensures !SameSection(SectionOfItem(ItemName(user, "items", id)), SectionName(u, "items"))
  {
    hide SameSection, SectionOfItem, ItemName, SectionName;
    SettledExactly(user, "items", id, u, "items");
  }

  /** MoveSpaceToSection, its arguments' shapes checked. A write is sent exactly when the item
      is not already there, and nothing else changes the sidebar. After an answer without an
      error, what the item's name addressed is filed under the target; and where the names can
      be read, the name given back addresses it and moving by that name again sends nothing. */
  method MoveSpaceToSection<E>(sidebar: Sidebar, space: string, u: string, s: string, hint: string,
                               listed: Result<seq<SectionItem>, E>, checked: Option<E>, dryRun: bool,
                               answer: Answer<E>, unknown: E)
    returns (r: Result<Moved, Failure<E>>, wrote: bool, ghost e: Entry)
    requires sidebar.Valid() && Id(u) && Id(s)
    modifies sidebar
    ensures sidebar.Valid()
    ensures !wrote ==> sidebar.entries == old(sidebar.entries)
    ensures
      var item := Chosen(hint, listed, space);
      && (wrote <==> item.Ok? && checked.None? && !dryRun
                     && !SameSection(SectionOfItem(item.value), SectionName(u, s)))
      && (r.Ok? <==> item.Ok? && checked.None?
                     && (wrote ==> answer.Done? && sidebar.Reaches(old(sidebar.entries), item.value, u)))
      && (r.Ok? ==> r.value.moved == wrote && r.value.from == SectionOfItem(item.value))
      && (r.Ok? && !wrote ==> r.value.item == item.value)
      && (r.Err? ==>
            r.error == if item.Err? then item.error
                       else if checked.Some? then FromGoogle(checked.value)
                       else if !answer.Refused? && !sidebar.Reaches(old(sidebar.entries), item.value, u)
                       then FromGoogle(unknown)
                       else FromGoogle(answer.error))
    ensures r.Ok? ==> forall f :: f in old(sidebar.entries) && sidebar.Addresses(Chosen(hint, listed, space).value, f)
                                  && Plain(sidebar.user, f.section) ==>
                        r.value.from == SectionName("me", f.section)
                        || r.value.from == SectionName(sidebar.user, f.section)
    ensures r.Ok? && wrote ==>
              sidebar.Filed(old(sidebar.entries), sidebar.entries, Chosen(hint, listed, space).value, u, s, e)
    ensures r.Ok? && wrote && sidebar.Readable(u, s, e) ==>
              && sidebar.Addresses(r.value.item, e.(section := s))
              && SameSection(SectionOfItem(r.value.item), SectionName(u, s))
    ensures r.Ok? && wrote && answer.spelling != Blank ==> sidebar.Addresses(r.value.item, e.(section := s))
    ensures r.Ok? && !wrote && !dryRun ==>
              && SameSection(SectionOfItem(r.value.item), SectionName(u, s))
              && forall f :: f in sidebar.entries && sidebar.Addresses(r.value.item, f) ==>
                   sidebar.Readable(u, s, f) ==> f.section == s
  {
    hide SameSection, SectionOfItem, SectionName, Chosen, MovedItemName, ItemName, Plain, Id;
    e := *;
    wrote := false;
    var section := SectionName(u, s);
    var chosen := Chosen(hint, listed, space);
    if chosen.Err? { return Err(chosen.error), wrote, e; }
    if checked.Some? { return Err(FromGoogle(checked.value)), wrote, e; }
    var item := chosen.value;
    var from := SectionOfItem(item);
    WhereItWas(sidebar, item);
    var needsMove := !SameSection(from, section);
    if dryRun { return Ok(Moved(item, from, false)), wrote, e; }
    if !needsMove {
      AlreadyThere(sidebar, item, u, s);
      return Ok(Moved(item, from, false)), wrote, e;
    }
    wrote := true;
    var moved;
    moved, e := sidebar.Move(item, u, s, answer, unknown);
    if moved.Err? { return Err(FromGoogle(moved.error)), wrote, e; }
    var now := MovedItemName(moved.value, item, section);
    if answer.spelling != Blank { NamesAreNames(sidebar.user, e, s, moved.value); }
    if sidebar.Readable(u, s, e) { NameAfterMove(sidebar, moved.value, item, e, u, s); }
    return Ok(Moved(now, from, true)), wrote, e;
  }

  /** A name is not blank, and one Google gives is kept. */
  lemma NamesAreNames(user: string, e: Entry, s: string, says: string)
    requires says == ItemName("me", s, e.id) || says == ItemName(user, s, e.id)
    ensures says != "" && forall item, section :: MovedItemName(says, item, section) == says
  {
  }

  /** Where the item was is read out of its name. */
  lemma WhereItWas(sidebar: Sidebar, item: string)
    requires sidebar.Valid()
    ensures forall f :: f in sidebar.entries && sidebar.Addresses(item, f) && Plain(sidebar.user, f.section) ==>
              SectionOfItem(item) == SectionName("me", f.section)
              || SectionOfItem(item) == SectionName(sidebar.user, f.section)
  {
    hide SectionOfItem, ItemName, SectionName;
    forall f | f in sidebar.entries && sidebar.Addresses(item, f) && Plain(sidebar.user, f.section)
      ensures SectionOfItem(item) == SectionName("me", f.section)
              || SectionOfItem(item) == SectionName(sidebar.user, f.section)
    {
      SectionOfItemExactly("me", f.section, f.id);
      SectionOfItemExactly(sidebar.user, f.section, f.id);
    }
  }

  lemma AlreadyThere(sidebar: Sidebar, item: string, u: string, s: string)
    requires sidebar.Valid() && Id(u) && Id(s)
    requires SameSection(SectionOfItem(item), SectionName(u, s))
    ensures forall f :: f in sidebar.entries && sidebar.Addresses(item, f) && sidebar.Readable(u, s, f) ==>
              f.section == s
  {
    hide SameSection, SectionOfItem, ItemName, SectionName;
    forall f | f in sidebar.entries && sidebar.Addresses(item, f) && sidebar.Readable(u, s, f)
      ensures f.section == s
    {
      SettledExactly("me", f.section, f.id, u, s);
      SettledExactly(sidebar.user, f.section, f.id, u, s);
    }
  }

  lemma NameAfterMove(sidebar: Sidebar, says: string, item: string, e: Entry, u: string, s: string)
    requires Plain(u, s) && Plain(sidebar.user, s) && sidebar.Mine(u) && Plain(sidebar.user, e.section)
    requires sidebar.Addresses(item, e) && (says == "" || sidebar.Addresses(says, e.(section := s)))
    ensures var now := MovedItemName(says, item, SectionName(u, s));
            && sidebar.Addresses(now, e.(section := s))
            && SameSection(SectionOfItem(now), SectionName(u, s))
  {
    hide SameSection, SectionOfItem, ItemName, SectionName, Cut;
    MadeUpName("me", e.section, e.id, u, s);
    MadeUpName(sidebar.user, e.section, e.id, u, s);
    SettledExactly("me", s, e.id, u, s);
    SettledExactly(sidebar.user, s, e.id, u, s);
  }

  /** When the listing tells the truth, the entry moved is the space's own: a row of another
      space is refused, and a name addresses one entry. */
  lemma TheEntryMovedIsTheSpaces<E>(sidebar: Sidebar, listed: Result<seq<SectionItem>, E>, space: string, e: Entry)
    requires sidebar.Valid() && e in sidebar.entries
    requires listed.Ok? ==> forall it :: it in listed.value ==>
               exists f :: f in sidebar.entries && f.space == it.space && sidebar.Addresses(it.name, f)
    requires Located(listed, space).Ok? && sidebar.Addresses(Located(listed, space).value, e)
    ensures e.space == space
  {
    hide ItemName, SectionOfItem;
    var it := listed.value[0];
    var f :| f in sidebar.entries && f.space == it.space && sidebar.Addresses(it.name, f);
    OneEntry(sidebar, it.name, e, f);
  }

  lemma OneEntry(sidebar: Sidebar, name: string, e: Entry, f: Entry)
    requires sidebar.Valid() && e in sidebar.entries && f in sidebar.entries
    requires sidebar.Addresses(name, e) && sidebar.Addresses(name, f)
    ensures e == f
  {
    hide ItemName;
    forall u, v | u in {"me", sidebar.user} && v in {"me", sidebar.user}
                  && ItemName(u, e.section, e.id) == ItemName(v, f.section, f.id) ensures e.id == f.id {
      ItemNameIsInjective(u, e.section, e.id, v, f.section, f.id);
    }
  }
}
