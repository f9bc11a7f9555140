/** Naming the people of a listing from what Chat sent with its rows and what a lookup
    knows, and remembering what Chat named. */
module People {
  import opened Outcomes
  import opened Cache

  /** A user as Chat sends one with a row. A row with no user has no name. */
  datatype User = User(name: string, email: string, displayName: string)

  /** The first row of the list that gives this user an address. */
  function FirstAddressed(users: seq<User>, id: string): (p: Option<Person>)
    ensures p.Some? <==> id != "" && exists u :: u in users && u.name == id && u.email != ""
    ensures p.Some? ==> User(id, p.value.email, p.value.displayName) in users && p.value.email != ""
  {
    if users == [] then None
    else
      var rest, u := FirstAddressed(users[..|users| - 1], id), users[|users| - 1];
      assert forall x :: x in users <==> x in users[..|users| - 1] || x == u;
      if rest.None? && id != "" && u.name == id && u.email != "" then Some(Person(u.email, u.displayName)) else rest
  }

  /** The first name any row gives this user. */
  function FirstNamed(users: seq<User>, id: string): (name: string)
    ensures name == "" <==> id == "" || forall u :: u in users && u.name == id ==> u.displayName == ""
  {
    if users == [] then ""
    else
      var rest, u := FirstNamed(users[..|users| - 1], id), users[|users| - 1];
      assert forall x :: x in users <==> x in users[..|users| - 1] || x == u;
      if rest == "" && id != "" && u.name == id then u.displayName else rest
  }

  function Named(p: Person, name: string): Person {
    if p.displayName == "" then p.(displayName := name) else p
  }

  function At(found: map<string, Person>, id: string): Person {
    if id in found then found[id] else NOBODY
  }

  /** Chat's word on a user: the address of the first row that has one, with that row's name
      or, failing that, the looked-up one. */
  function FromChat(users: seq<User>, found: map<string, Person>, id: string): Option<Person> {
    match FirstAddressed(users, id)
    case None => None
    case Some(p) => Some(Named(p, At(found, id).displayName))
  }

  predicate NeedsLookup(users: seq<User>, u: User) {
    var p := FirstAddressed(users, u.name);
    p.None? || p.value.displayName == ""
  }

  function Lookups(users: seq<User>, all: seq<User>): seq<string> {
    if users == [] then []
    else
      var rest, u := Lookups(users[..|users| - 1], all), users[|users| - 1];
      if NeedsLookup(all, u) then rest + [u.name] else rest
  }

  /** What is known before the rows' own names are tried. */
  function Known(users: seq<User>, found: map<string, Person>, id: string): Person {
    match FromChat(users, found, id)
    case Some(p) => p
    case None => At(found, id)
  }

  /** What Chat and the lookup gave, as a map: each user it knows as they are known, and what it
      taught. */
  lemma OverIsKnown(users: seq<User>, fromChat: map<string, Person>, found: map<string, Person>)
    requires forall id :: id in fromChat <==> FirstAddressed(users, id).Some?
    requires forall id :: id in fromChat ==> fromChat[id] == FirstAddressed(users, id).value
    ensures var over, taught := Over(fromChat, found, {}), Taught(fromChat, found, {});
            && (forall id :: id in over <==> id in found || FirstAddressed(users, id).Some?)
            && (forall id :: At(over, id) == Known(users, found, id))
            && (forall id :: id in taught <==>
                  FromChat(users, found, id).Some? && FromChat(users, found, id).value.displayName != "")
            && (forall id :: id in taught ==> taught[id] == FromChat(users, found, id).value)
  {
    hide FirstAddressed, Named;
  }

  lemma NamedByMeans(users: seq<User>, known: map<string, Person>, out: map<string, Person>)
    requires NamedBy(users, known, out)
    ensures forall id :: id in out <==> id in known || FirstNamed(users, id) != ""
    ensures forall id :: id in out ==> out[id] == Named(At(known, id), FirstNamed(users, id))
  {
  }

  /** mergePeople: what each user resolves to, and what is worth remembering. A missing
      lookup answers nobody. */
  method MergePeople(users: seq<User>, lookup: Option<seq<string> -> map<string, Person>>)
    returns (out: map<string, Person>, learned: map<string, Person>)
    ensures
      var found := if lookup.None? then map[] else lookup.value(Lookups(users, users));
      && (forall id :: id in out <==>
            id in found || FirstAddressed(users, id).Some? || FirstNamed(users, id) != "")
      && (forall id :: id in out ==> out[id] == Named(Known(users, found, id), FirstNamed(users, id)))
      && (forall id :: id in learned <==>
            FromChat(users, found, id).Some? && FromChat(users, found, id).value.displayName != "")
      && (forall id :: id in learned ==> learned[id] == FromChat(users, found, id).value)
  {
    hide Lookups, FirstAddressed, FirstNamed, Over, Taught, NamedBy, Known, FromChat, Named, At;
    var fromChat := Addressed(users);
    var found: map<string, Person> := map[];
    if lookup.Some? {
      var lookups := WhoToLookUp(users, fromChat);
      found := lookup.value(lookups);
    }
    out, learned := Overlay(fromChat, found);
    OverIsKnown(users, fromChat, found);
    ghost var known := out;
    out := NameTheRest(users, out);
    NamedByMeans(users, known, out);
  }

  /** Everyone Chat gave no address, or no name with it, in row order. */
  method WhoToLookUp(users: seq<User>, fromChat: map<string, Person>) returns (lookups: seq<string>)
    requires forall id :: id in fromChat <==> FirstAddressed(users, id).Some?
    requires forall id :: id in fromChat ==> fromChat[id] == FirstAddressed(users, id).value
    ensures lookups == Lookups(users, users)
  {
    lookups := [];
    for i := 0 to |users|
      invariant lookups == Lookups(users[..i], users)
    {
      assert users[..i + 1][..i] == users[..i] && users[..i + 1][i] == users[i];
      var u := users[i];
      if u.name in fromChat && fromChat[u.name].displayName != "" {
        continue;
      }
      lookups := lookups + [u.name];
    }
    assert users[..|users|] == users;
  }

  /** Chat's people laid over what was found, all but those in todo; only a missing name is
      taken from what was found. */
  function Over(fromChat: map<string, Person>, found: map<string, Person>, todo: set<string>): map<string, Person> {
    map id | id in found.Keys + (fromChat.Keys - todo) ::
      if id in fromChat && id !in todo then Named(fromChat[id], At(found, id).displayName) else found[id]
  }

  /** And those of them that ended up with a name. */
  function Taught(fromChat: map<string, Person>, found: map<string, Person>, todo: set<string>): map<string, Person> {
    map id | id in fromChat && id !in todo && Named(fromChat[id], At(found, id).displayName).displayName != "" ::
      Named(fromChat[id], At(found, id).displayName)
  }

  lemma OverStep(fromChat: map<string, Person>, found: map<string, Person>, todo: set<string>, id: string)
    requires id in todo && id in fromChat
    ensures At(Over(fromChat, found, todo), id) == At(found, id)
    ensures var p := Named(fromChat[id], At(found, id).displayName);
            && Over(fromChat, found, todo - {id}) == Over(fromChat, found, todo)[id := p]
            && Taught(fromChat, found, todo - {id}) ==
               if p.displayName != "" then Taught(fromChat, found, todo)[id := p] else Taught(fromChat, found, todo)
  {
    hide Named;
    OneMoreOver(fromChat, found, todo, id);
    OneMoreTaught(fromChat, found, todo, id);
    hide Over, Taught;
  }

  lemma OneMoreOver(fromChat: map<string, Person>, found: map<string, Person>, todo: set<string>, id: string)
    requires id in todo && id in fromChat
    ensures At(Over(fromChat, found, todo), id) == At(found, id)
    ensures Over(fromChat, found, todo - {id}) ==
            Over(fromChat, found, todo)[id := Named(fromChat[id], At(found, id).displayName)]
  {
    hide Named;
  }

  lemma OneMoreTaught(fromChat: map<string, Person>, found: map<string, Person>, todo: set<string>, id: string)
    requires id in todo && id in fromChat
    ensures var p := Named(fromChat[id], At(found, id).displayName);
            Taught(fromChat, found, todo - {id}) ==
            if p.displayName != "" then Taught(fromChat, found, todo)[id := p] else Taught(fromChat, found, todo)
  {
    hide Named, At;
  }

  lemma OverNothing(fromChat: map<string, Person>, found: map<string, Person>)
    ensures Over(fromChat, found, fromChat.Keys) == found && Taught(fromChat, found, fromChat.Keys) == map[]
  {
  }

  method Overlay(fromChat: map<string, Person>, found: map<string, Person>)
    returns (out: map<string, Person>, learned: map<string, Person>)
    ensures out == Over(fromChat, found, {}) && learned == Taught(fromChat, found, {})
  {
    hide Over, Taught;
    out := found;
    learned := map[];
    var todo := fromChat.Keys;
    OverNothing(fromChat, found);
    while todo != {}
      invariant todo <= fromChat.Keys
      invariant out == Over(fromChat, found, todo) && learned == Taught(fromChat, found, todo)
      decreases |todo|
    {
      var id :| id in todo;
      OverStep(fromChat, found, todo, id);
      var p := fromChat[id];
      if p.displayName == "" {
        p := p.(displayName := At(out, id).displayName);
      }
      out := out[id := p];
      if p.displayName != "" {
        learned := learned[id := p];
      }
      todo := todo - {id};
    }
  }

  lemma FirstNamedNext(users: seq<User>, i: nat, id: string)
    requires i < |users|
    ensures FirstNamed(users[..i + 1], id) ==
            var name := FirstNamed(users[..i], id);
            if name == "" && id != "" && users[i].name == id then users[i].displayName else name
  {
    assert users[..i + 1][..i] == users[..i] && users[..i + 1][i] == users[i];
  }

  /** Every user known or named by these rows, by the name known or else the rows' first. */
  ghost predicate NamedBy(users: seq<User>, known: map<string, Person>, out: map<string, Person>) {
    && (forall id :: id in out <==> id in known || FirstNamed(users, id) != "")
    && (forall id :: id in out ==> out[id] == Named(At(known, id), FirstNamed(users, id)))
  }

  lemma NamedByNext(users: seq<User>, i: nat, known: map<string, Person>, out: map<string, Person>, next: map<string,
                    Person>)
    requires i < |users| && NamedBy(users[..i], known, out)
    requires var u := users[i];
             var p := At(out, u.name);
             next == if u.name != "" && p.displayName == "" && u.displayName != ""
                     then out[u.name := p.(displayName := u.displayName)] else out
    ensures NamedBy(users[..i + 1], known, next)
  {
    hide FirstNamed;
    forall id
      ensures id in next <==> id in known || FirstNamed(users[..i + 1], id) != ""
      ensures id in next ==> next[id] == Named(At(known, id), FirstNamed(users[..i + 1], id))
    {
      FirstNamedNext(users, i, id);
    }
  }

  /** The name Chat sent with the row is the last resort. */
  method NameTheRest(users: seq<User>, known: map<string, Person>) returns (out: map<string, Person>)
    ensures NamedBy(users, known, out)
  {
    out := known;
    for i := 0 to |users|
      invariant NamedBy(users[..i], known, out)
    {
      hide NamedBy;
      ghost var before := out;
      var u := users[i];
      var p := At(out, u.name);
      if u.name != "" && p.displayName == "" && u.displayName != "" {
        out := out[u.name := p.(displayName := u.displayName)];
      }
      NamedByNext(users, i, known, before, out);
    }
    assert users[..|users|] == users;
  }

  lemma FirstAddressedNext(users: seq<User>, i: nat, id: string)
    requires i < |users|
    ensures FirstAddressed(users[..i + 1], id) ==
            var p, u := FirstAddressed(users[..i], id), users[i];
            if p.None? && id != "" && u.name == id && u.email != "" then Some(Person(u.email, u.displayName)) else p
  {
    assert users[..i + 1][..i] == users[..i] && users[..i + 1][i] == users[i];
  }

  /** The address each user came with first. */
  method Addressed(users: seq<User>) returns (fromChat: map<string, Person>)
    ensures forall id :: id in fromChat <==> FirstAddressed(users, id).Some?
    ensures forall id :: id in fromChat ==> fromChat[id] == FirstAddressed(users, id).value
  {
    fromChat := map[];
    for i := 0 to |users|
      invariant forall id :: id in fromChat <==> FirstAddressed(users[..i], id).Some?
      invariant forall id :: id in fromChat ==> fromChat[id] == FirstAddressed(users[..i], id).value
    {
      hide FirstAddressed;
      forall id { FirstAddressedNext(users, i, id); }
      var u := users[i];
      if u.name == "" || u.email == "" {
        continue;
      }
      if u.name !in fromChat {
        fromChat := fromChat[u.name := Person(u.email, u.displayName)];
      }
    }
    assert users[..|users|] == users;
  }

  // ---- What the merge means for a caller ----

  /** The result for a user, as MergePeople's contract gives it. */
  function Merged(users: seq<User>, found: map<string, Person>, id: string): Person {
    Named(Known(users, found, id), FirstNamed(users, id))
  }

  /** An address Chat sent on any row wins over any lookup for every row of that person;
      without one the lookup's stands. */
  lemma ChatsAddressWins(users: seq<User>, found: map<string, Person>, u: User)
    requires u in users && u.name != ""
    ensures u.email != "" ==> exists v :: v in users && v.name == u.name && v.email != ""
                                          && Merged(users, found, u.name).email == v.email
    ensures (forall v :: v in users && v.name == u.name ==> v.email == "") ==>
              Merged(users, found, u.name).email == At(found, u.name).email
  {
    var p := FirstAddressed(users, u.name);
    if p.Some? {
      var v := User(u.name, p.value.email, p.value.displayName);
      assert v in users;
    }
  }

  /** A name is missing exactly when no row of Chat's has one and the lookup gave none. */
  lemma NameMissingOnlyIfNobodyKnows(users: seq<User>, found: map<string, Person>, id: string)
    requires id != ""
    ensures Merged(users, found, id).displayName == "" <==>
            && (forall u :: u in users && u.name == id ==> u.displayName == "")
            && At(found, id).displayName == ""
  {
    var p := FirstAddressed(users, id);
    if p.Some? {
      assert User(id, p.value.email, p.value.displayName) in users;
    }
  }

  /** Exactly the users Chat gave no address with a name are looked up. */
  lemma {:induction false} LookedUpExactly(users: seq<User>, all: seq<User>, id: string)
    ensures id in Lookups(users, all) <==>
            && (exists u :: u in users && u.name == id)
            && (FirstAddressed(all, id).None? || FirstAddressed(all, id).value.displayName == "")
  {
    if users != [] {
      LookedUpExactly(users[..|users| - 1], all, id);
      assert forall x :: x in users <==> x in users[..|users| - 1] || x == users[|users| - 1];
    }
  }

  /** No row before this one gives the user an address, and this one does. */
  predicate FirstWithAddress(users: seq<User>, id: string, i: nat) {
    && i < |users| && users[i].name == id && users[i].email != ""
    && forall j :: 0 <= j < i && users[j].name == id ==> users[j].email == ""
  }

  predicate FirstWithName(users: seq<User>, id: string, i: nat) {
    && i < |users| && users[i].name == id && users[i].displayName != ""
    && forall j :: 0 <= j < i && users[j].name == id ==> users[j].displayName == ""
  }

  lemma {:induction false} AddressedIsFirst(users: seq<User>, id: string, i: nat)
    requires id != "" && FirstWithAddress(users, id, i)
    ensures FirstAddressed(users, id) == Some(Person(users[i].email, users[i].displayName))
  {
    var before := users[..|users| - 1];
    if i < |before| {
      AddressedIsFirst(before, id, i);
    } else {
      assert forall u :: u in before && u.name == id ==> u.email == "";
    }
  }

  lemma {:induction false} NamedIsFirst(users: seq<User>, id: string, i: nat)
    requires id != "" && FirstWithName(users, id, i)
    ensures FirstNamed(users, id) == users[i].displayName
  {
    var before := users[..|users| - 1];
    if i < |before| {
      NamedIsFirst(before, id, i);
    } else {
      assert forall u :: u in before && u.name == id ==> u.displayName == "";
    }
  }

  /** Who a user Chat gave an address is: the address of the first row that has one, under that
      row's name, else the lookup's, else the first row's that has one. What is worth
      remembering is that person, by the first two, unless neither has a name. */
  lemma AnAddressedUserIs(users: seq<User>, found: map<string, Person>, id: string, i: nat)
    requires id != "" && FirstWithAddress(users, id, i)
    ensures
      var looked := if id in found then found[id].displayName else "";
      var name := if users[i].displayName != "" then users[i].displayName else looked;
      && FromChat(users, found, id) == Some(Person(users[i].email, name))
      && (name != "" ==> Merged(users, found, id) == Person(users[i].email, name))
      && (name == "" ==> forall j: nat :: FirstWithName(users, id, j) ==>
            Merged(users, found, id) == Person(users[i].email, users[j].displayName))
  {
    AddressedIsFirst(users, id, i);
    forall j: nat | FirstWithName(users, id, j) ensures FirstNamed(users, id) == users[j].displayName {
      NamedIsFirst(users, id, j);
    }
    hide FirstAddressed, FirstNamed, FirstWithName, FirstWithAddress;
  }

  /** Anybody else is whoever the lookup says, named by the first row with a name if the lookup
      has none, and is not remembered from here. */
  lemma AnyOtherUserIs(users: seq<User>, found: map<string, Person>, id: string)
    requires id != "" && forall u :: u in users && u.name == id ==> u.email == ""
    ensures
      var looked := if id in found then found[id] else Person("", "");
      && FromChat(users, found, id) == None
      && (looked.displayName != "" ==> Merged(users, found, id) == looked)
      && (looked.displayName == "" ==> forall j: nat :: FirstWithName(users, id, j) ==>
            Merged(users, found, id) == Person(looked.email, users[j].displayName))
  {
    forall j: nat | FirstWithName(users, id, j) ensures FirstNamed(users, id) == users[j].displayName {
      NamedIsFirst(users, id, j);
    }
    assert FirstAddressed(users, id).None?;
    hide FirstAddressed, FirstNamed, FirstWithName;
  }
}
