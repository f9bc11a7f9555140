/** The witness of a write to a conversation without a name: the people in it. */
module SpaceCheck {
  import opened Outcomes
  import opened Paging
  import S = Sorting
  import W = Witness

  const MAX_WITNESS_PAGES: nat := 10

  datatype Member = Member(human: bool, name: string, email: string)

  /** strings.ToLower, whatever Unicode's table says. */
  type Lowering = string -> string

  // ---- The witness, as it is read ----

  /** strings.Split(s, ","). */
  function Split(s: string): (parts: seq<string>)
    ensures parts != []
  {
    if s == "" then [""]
    else
      var rest := Split(s[1..]);
      if s[0] == ',' then [""] + rest else [[s[0]] + rest[0]] + rest[1..]
  }

  function TrimStart(s: string): (r: string)
    ensures r != "" ==> !W.IsSpace(r[0])
    ensures s != "" && !W.IsSpace(s[0]) ==> r == s
  {
    if s != "" && W.IsSpace(s[0]) then TrimStart(s[1..]) else s
  }

  function TrimEnd(s: string): (r: string)
    ensures r <= s
    ensures r != "" ==> !W.IsSpace(r[|r| - 1])
    ensures s != "" && !W.IsSpace(s[|s| - 1]) ==> r == s
  {
    if s != "" && W.IsSpace(s[|s| - 1]) then TrimEnd(s[..|s| - 1]) else s
  }

  /** strings.TrimSpace. */
  function TrimSpace(s: string): string {
    TrimEnd(TrimStart(s))
  }

  // ---- The rule ----

  /** The lowercased addresses of the people other than the caller. */
  function OtherAddresses(lower: Lowering, me: string, rows: seq<Member>): set<string> {
    set m | m in rows && m.human && m.name != me :: lower(m.email)
  }

  /** The caller's own lowercased address, as the last row that is the caller's has it. */
  function OwnAddress(lower: Lowering, me: string, rows: seq<Member>): string {
    if rows == [] then ""
    else
      var m := rows[|rows| - 1];
      if m.human && m.name == me then lower(m.email) else OwnAddress(lower, me, rows[..|rows| - 1])
  }

  /** The addresses a witness gives, less blanks and the caller's own. */
  function GivenAddresses(lower: Lowering, mine: string, wording: string): set<string> {
    set p | p in Split(wording) && lower(TrimSpace(p)) != "" && lower(TrimSpace(p)) != mine :: lower(TrimSpace(p))
  }

  /** The witness names exactly the other people of these rows, by their addresses. */
  predicate Names(lower: Lowering, me: string, rows: seq<Member>, wording: string) {
    OtherAddresses(lower, me, rows) == GivenAddresses(lower, OwnAddress(lower, me, rows), wording)
  }

  // ---- The check ----

  ghost predicate Members(s: seq<string>, of: set<string>) {
    forall x :: x in s <==> x in of
  }

  lemma OneMoreMember(lower: Lowering, me: string, rows: seq<Member>, m: Member)
    ensures OtherAddresses(lower, me, rows + [m])
         == OtherAddresses(lower, me, rows) + if m.human && m.name != me then {lower(m.email)} else {}
    ensures OwnAddress(lower, me, rows + [m])
         == if m.human && m.name == me then lower(m.email) else OwnAddress(lower, me, rows)
  {
    assert (rows + [m])[..|rows|] == rows;
  }

  /** The rows of one page added to what the earlier ones gave. */
  method AddPage(lower: Lowering, me: string, rows: seq<Member>, ghost earlier: seq<Member>,
                 before: seq<string>, own: string) returns (others: seq<string>, mine: string)
    requires Members(before, OtherAddresses(lower, me, earlier)) && own == OwnAddress(lower, me, earlier)
    ensures Members(others, OtherAddresses(lower, me, earlier + rows))
    ensures mine == OwnAddress(lower, me, earlier + rows)
  {
    hide OtherAddresses, OwnAddress;
    others, mine := before, own;
    assert earlier + rows[..0] == earlier;
    for i := 0 to |rows|
      invariant Members(others, OtherAddresses(lower, me, earlier + rows[..i]))
      invariant mine == OwnAddress(lower, me, earlier + rows[..i])
    {
      var m := rows[i];
      OneMoreMember(lower, me, earlier + rows[..i], m);
      assert earlier + rows[..i + 1] == earlier + rows[..i] + [m];
      if m.human {
        if m.name == me {
          mine := lower(m.email);
        } else {
          others := others + [lower(m.email)];
        }
      }
    }
    assert rows[..|rows|] == rows;
  }

  method GivenList(lower: Lowering, mine: string, wording: string) returns (given: seq<string>)
    ensures Members(given, GivenAddresses(lower, mine, wording))
  {
    var parts := Split(wording);
    given := [];
    for i := 0 to |parts|
      invariant forall x :: x in given <==>
                  exists k :: 0 <= k < i && lower(TrimSpace(parts[k])) == x && x != "" && x != mine
    {
      var addr := lower(TrimSpace(parts[i]));
      if addr != "" && addr != mine {
        given := given + [addr];
      }
    }
  }

  /** checkMembers: it accepts exactly when the witness names the other people of the rows it
      read, which are all of them when the listing ends within ten pages. */
  method CheckMembers<E(!new)>(list: Listing<Member, E>, lower: Lowering, me: string, wording: string)
    returns (r: Result<bool, E>, calls: nat)
    ensures 1 <= calls <= 10
    ensures match r
            case Ok(accepted) =>
              && Answered(list, calls) && (Token(list, calls) == "" || calls == 10)
              && (accepted <==> Names(lower, me, Read(list, calls), wording))
            case Err(e) =>
              Answered(list, calls - 1) && list(Token(list, calls - 1), calls - 1) == Err(e)
  {
    hide Token, Read, Answered, OtherAddresses, OwnAddress, GivenAddresses;
    NoPage(list);
    var others, mine, token := [], "", "";
    NoMembers(lower, me);
    calls := 0;
    while calls < MAX_WITNESS_PAGES
      invariant 0 <= calls <= MAX_WITNESS_PAGES && token == Token(list, calls)
      invariant Answered(list, calls) && (calls > 0 ==> token != "")
      invariant Members(others, OtherAddresses(lower, me, Read(list, calls)))
      invariant mine == OwnAddress(lower, me, Read(list, calls))
    {
      var page := list(token, calls);
      calls := calls + 1;
      if page.Err? { return Err(page.error), calls; }
      NextPage(list, calls - 1);
      others, mine := AddPage(lower, me, page.value.rows, Read(list, calls - 1), others, mine);
      token := page.value.next;
      if token == "" { break; }
    }
    var listed := GivenList(lower, mine, wording);
    S.SortCompactEqualIsSetEquality(others, listed);
    SameMembers(others, OtherAddresses(lower, me, Read(list, calls)), listed, GivenAddresses(lower, mine, wording));
    return Ok(S.Compact(S.Sort(others)) == S.Compact(S.Sort(listed))), calls;
  }

  lemma NoMembers(lower: Lowering, me: string)
    ensures Members([], OtherAddresses(lower, me, [])) && OwnAddress(lower, me, []) == ""
  {
  }

  lemma SameMembers(a: seq<string>, x: set<string>, b: seq<string>, y: set<string>)
    requires Members(a, x) && Members(b, y)
    ensures (forall z :: z in a <==> z in b) <==> x == y
  {
    if forall z :: z in a <==> z in b {
      assert forall z :: z in x <==> z in y;
    }
    if x == y {
      forall z ensures z in a <==> z in b {
        assert z in x <==> z in y;
      }
    }
  }

  // ---- What the rule means ----

  /** Nobody gets past a person whose address is not known: no witness names them. */
  lemma AnUnknownAddressRefuses(lower: Lowering, me: string, rows: seq<Member>, m: Member, wording: string)
    requires lower("") == ""
    requires m in rows && m.human && m.name != me && m.email == ""
    ensures !Names(lower, me, rows, wording)
  {
    assert lower(m.email) in OtherAddresses(lower, me, rows);
  }

  /** Every witness accepted for all the rows names each other person. */
  lemma EverybodyIsNamed(lower: Lowering, me: string, rows: seq<Member>, m: Member, wording: string)
    requires Names(lower, me, rows, wording)
    requires m in rows && m.human && m.name != me
    ensures exists p :: p in Split(wording) && lower(TrimSpace(p)) == lower(m.email)
  {
    assert lower(m.email) in OtherAddresses(lower, me, rows);
  }

  /** The listing of a whole conversation, cut at ten pages or not. */
  lemma {:induction false} DecidesTheConversation<E(!new)>(list: Listing<Member, E>, roster: seq<Member>,
                                                    place: string -> nat,
                                        lower: Lowering, me: string, wording: string, calls: nat)
    requires PagesOf(list, roster, place) && calls >= 1 && Answered(list, calls)
    ensures Read(list, calls) <= roster
    ensures Token(list, calls) == "" ==>
              (Names(lower, me, Read(list, calls), wording) <==> Names(lower, me, roster, wording))
  {
    hide Names, Token, Read, PagesOf, Answered;
    ReadIsThePagesRows(list, roster, place, calls);
  }

  const LATE := Member(true, "users/2", "b@example.com")

  const LONG: Listing<Member, bool> := (token: string, n: nat) =>
    if token == "the rest" then Ok(Page([LATE], "")) else Ok(Page([], if n < 9 then "more" else "the rest"))

  lemma {:induction false} EmptyPages(n: nat)
    requires n <= 10
    ensures Answered(LONG, n) && Read(LONG, n) == []
    ensures Token(LONG, n) == if n == 0 then "" else if n < 10 then "more" else "the rest"
  {
    hide Token, Read, Answered;
    if n == 0 {
      NoPage(LONG);
    } else {
      EmptyPages(n - 1);
      NextPage(LONG, n - 1);
    }
  }

  /** A listing that goes on after ten pages is decided on those alone. Here nobody is on
      them and one other person is on the eleventh: a witness naming nobody is accepted. */
  lemma TenPagesAreNotEverybody(lower: Lowering)
    requires lower("") == ""
    ensures && PagesOf(LONG, [LATE], (token: string) => 0)
            && Answered(LONG, MAX_WITNESS_PAGES) && Token(LONG, MAX_WITNESS_PAGES) != ""
            && Names(lower, "users/1", Read(LONG, MAX_WITNESS_PAGES), ",")
            && !Names(lower, "users/1", [LATE], ",")
  {
    hide Token, Read, Answered, Split;
    EmptyPages(10);
    SplitAt("", "");
    SplitPlain("");
    assert "" + "," + "" == ",";
    assert GivenAddresses(lower, "", ",") == {};
    assert lower(LATE.email) in OtherAddresses(lower, "users/1", [LATE]);
  }

  // ---- Writing a witness ----

  /** The addresses, comma and space between them. */
  function Written(addrs: seq<string>): string
    requires addrs != []
  {
    if |addrs| == 1 then addrs[0] else addrs[0] + ", " + Written(addrs[1..])
  }

  lemma {:induction false} SplitPlain(s: string)
    requires ',' !in s
    ensures Split(s) == [s]
  {
    if s != "" {
      SplitPlain(s[1..]);
      assert s == [s[0]] + s[1..];
    }
  }

  lemma {:induction false} SplitAt(s: string, rest: string)
    requires ',' !in s
    ensures Split(s + "," + rest) == [s] + Split(rest)
  {
    var t := s + "," + rest;
    if s == "" {
      assert t[1..] == rest;
    } else {
      SplitAt(s[1..], rest);
      assert t[1..] == s[1..] + "," + rest;
      assert s == [s[0]] + s[1..];
    }
  }

  lemma {:induction false} SplitWritten(addrs: seq<string>, lead: string)
    requires addrs != [] && ',' !in lead
    requires forall a :: a in addrs ==> ',' !in a
    ensures var parts := Split(lead + Written(addrs));
            && |parts| == |addrs| && parts[0] == lead + addrs[0]
            && forall i :: 0 < i < |addrs| ==> parts[i] == " " + addrs[i]
  {
    hide Split;
    var first := lead + addrs[0];
    if |addrs| == 1 {
      SplitPlain(first);
    } else {
      var rest := addrs[1..];
      assert forall a :: a in rest ==> a in addrs;
      assert Written(addrs) == addrs[0] + ", " + Written(rest);
      assert lead + Written(addrs) == first + "," + (" " + Written(rest));
      SplitAt(first, " " + Written(rest));
      SplitWritten(rest, " ");
      assert forall i :: 0 < i < |addrs| ==> addrs[i] == rest[i - 1];
    }
  }

  /** An address as Google reports one: it has no comma and no space around it. */
  predicate PlainAddress(a: string) {
    a != "" && ',' !in a && !W.IsSpace(a[0]) && !W.IsSpace(a[|a| - 1])
  }

  /** The check can always be met when every address is known: the addresses of the others,
      in any order and any case, written one after another, are accepted. */
  lemma AWrittenWitnessIsAccepted(lower: Lowering, me: string, rows: seq<Member>, addrs: seq<string>)
    requires addrs != [] && forall a :: a in addrs ==> PlainAddress(a)
    requires (set a | a in addrs :: lower(a)) == OtherAddresses(lower, me, rows)
    requires "" !in OtherAddresses(lower, me, rows)
    requires OwnAddress(lower, me, rows) !in OtherAddresses(lower, me, rows)
    ensures Names(lower, me, rows, Written(addrs))
  {
    hide Split, OtherAddresses, OwnAddress;
    var parts := Split(Written(addrs));
    SplitWritten(addrs, "");
    assert "" + Written(addrs) == Written(addrs);
    forall i | 0 <= i < |addrs| ensures TrimSpace(parts[i]) == addrs[i] {
      TrimPlain(addrs[i]);
      assert "" + addrs[i] == addrs[i];
    }
    SameTrimmed(lower, OwnAddress(lower, me, rows), Written(addrs), addrs);
  }

  lemma SameTrimmed(lower: Lowering, mine: string, wording: string, addrs: seq<string>)
    requires |Split(wording)| == |addrs|
    requires forall i :: 0 <= i < |addrs| ==> TrimSpace(Split(wording)[i]) == addrs[i]
    requires forall a :: a in addrs ==> lower(a) != "" && lower(a) != mine
    ensures GivenAddresses(lower, mine, wording) == set a | a in addrs :: lower(a)
  {
    hide Split, TrimSpace;
    var parts := Split(wording);
    forall a | a in addrs ensures lower(a) in GivenAddresses(lower, mine, wording) {
      var i :| 0 <= i < |addrs| && addrs[i] == a;
      assert parts[i] in parts;
    }
    forall p | p in parts ensures TrimSpace(p) in addrs {
      var i :| 0 <= i < |parts| && parts[i] == p;
    }
  }

  lemma TrimPlain(a: string)
    requires PlainAddress(a)
    ensures TrimSpace(a) == a && TrimSpace(" " + a) == a
  {
    assert (" " + a)[1..] == a;
  }

  predicate AllSpaces(s: string) {
    forall c :: c in s ==> W.IsSpace(c)
  }

  /** Whatever whitespace stands around an address, and nothing else of it, is left out. */
  lemma {:induction false} OnlySpacesAreTrimmed(before: string, a: string, after: string)
    requires AllSpaces(before) && AllSpaces(after)
    requires a != "" && !W.IsSpace(a[0]) && !W.IsSpace(a[|a| - 1])
    ensures TrimSpace(before + a + after) == a
  {
    hide W.IsSpace;
    if before != "" {
      assert before[0] in before;
      assert (before + a + after)[1..] == before[1..] + a + after;
      OnlySpacesAreTrimmed(before[1..], a, after);
    } else {
      assert before + a + after == a + after;
      EndIsTrimmed(a, after);
    }
  }

  lemma {:induction false} EndIsTrimmed(a: string, after: string)
    requires AllSpaces(after) && a != "" && !W.IsSpace(a[|a| - 1])
    ensures TrimEnd(a + after) == a
  {
    hide W.IsSpace;
    if after != "" {
      var n := |after| - 1;
      assert after[n] in after;
      assert (a + after)[..|a + after| - 1] == a + after[..n];
      EndIsTrimmed(a, after[..n]);
    } else {
      assert a + after == a;
    }
  }

  // ---- When ten pages are enough ----

  /** Some part of a wording reads as this address. */
  ghost predicate Sayable(lower: Lowering, a: string) {
    exists p :: ',' !in p && lower(TrimSpace(p)) == a
  }

  /** Some wording can be accepted for these rows: every other address is known, sayable and
      not the caller's. */
  ghost predicate Nameable(lower: Lowering, me: string, rows: seq<Member>) {
    forall a :: a in OtherAddresses(lower, me, rows) ==>
      a != "" && a != OwnAddress(lower, me, rows) && Sayable(lower, a)
  }

  /** The caller's own address, as far as a wording can give it. */
  ghost function Heard(lower: Lowering, mine: string): string {
    if Sayable(lower, mine) then mine else ""
  }

  lemma {:induction false} PartsHaveNoComma(s: string)
    ensures forall p :: p in Split(s) ==> ',' !in p
  {
    if s != "" {
      var rest := Split(s[1..]);
      PartsHaveNoComma(s[1..]);
      if s[0] != ',' {
        assert rest[0] in rest;
        assert forall p :: p in Split(s) ==> p == [s[0]] + rest[0] || p in rest;
      } else {
        assert forall p :: p in Split(s) ==> p == "" || p in rest;
      }
    }
  }

  /** What a wording gives is sayable, known and not the caller's. */
  lemma GivenIsSayable(lower: Lowering, mine: string, wording: string)
    ensures forall a :: a in GivenAddresses(lower, mine, wording) ==> a != "" && a != mine && Sayable(lower, a)
  {
    PartsHaveNoComma(wording);
  }

  /** The addresses of a list of parts. */
  function Said(lower: Lowering, ps: seq<string>): set<string> {
    set p | p in ps :: lower(TrimSpace(p))
  }

  lemma TrimAfterSpace(p: string)
    ensures TrimSpace(" " + p) == TrimSpace(p)
  {
    assert (" " + p)[1..] == p;
  }

  lemma WrittenSays(lower: Lowering, mine: string, ps: seq<string>)
    requires ps != [] && forall p :: p in ps ==> ',' !in p
    ensures GivenAddresses(lower, mine, Written(ps)) == Said(lower, ps) - {"", mine}
  {
    hide Split, TrimSpace;
    var parts := Split(Written(ps));
    SplitWritten(ps, "");
    assert "" + Written(ps) == Written(ps) && "" + ps[0] == ps[0];
    forall i | 0 <= i < |ps| ensures TrimSpace(parts[i]) == TrimSpace(ps[i]) {
      TrimAfterSpace(ps[i]);
    }
    forall a ensures a in GivenAddresses(lower, mine, Written(ps)) <==> a in Said(lower, ps) - {"", mine} {
      if a in GivenAddresses(lower, mine, Written(ps)) {
        var p :| p in parts && lower(TrimSpace(p)) == a;
        var i :| 0 <= i < |parts| && parts[i] == p;
        assert ps[i] in ps;
      }
      if a in Said(lower, ps) - {"", mine} {
        var p :| p in ps && lower(TrimSpace(p)) == a;
        var i :| 0 <= i < |ps| && ps[i] == p;
        assert parts[i] in parts;
      }
    }
  }

  /** Sayable addresses can all be said at once. */
  lemma {:induction false} Spell(lower: Lowering, addrs: set<string>) returns (ps: seq<string>)
    requires forall a :: a in addrs ==> Sayable(lower, a)
    ensures Said(lower, ps) == addrs && forall p :: p in ps ==> ',' !in p
    decreases |addrs|
  {
    ps := [];
    if addrs != {} {
      var a :| a in addrs;
      var rest := Spell(lower, addrs - {a});
      var p :| ',' !in p && lower(TrimSpace(p)) == a;
      ps := rest + [p];
      SaidOneMore(lower, rest, p);
    }
  }

  lemma SaidOneMore(lower: Lowering, ps: seq<string>, p: string)
    ensures Said(lower, ps + [p]) == Said(lower, ps) + {lower(TrimSpace(p))}
  {
    hide TrimSpace;
  }

  /** For sayable addresses there is a wording that gives them, and to whichever caller, less
      the caller's own. */
  lemma SomeWording(lower: Lowering, addrs: set<string>) returns (wording: string)
    requires lower("") == "" && forall a :: a in addrs ==> Sayable(lower, a)
    ensures forall mine :: GivenAddresses(lower, mine, wording) == addrs - {"", mine}
  {
    hide Said, TrimSpace, GivenAddresses;
    var ps := Spell(lower, addrs);
    var spoken := ps + [""];
    assert forall p :: p in spoken ==> p in ps || p == "";
    SaidOneMore(lower, ps, "");
    NothingTrimmed();
    wording := Written(spoken);
    forall mine ensures GivenAddresses(lower, mine, wording) == addrs - {"", mine} {
      WrittenSays(lower, mine, spoken);
    }
  }

  lemma HeardIsSayable(lower: Lowering, mine: string)
    requires lower("") == ""
    ensures Sayable(lower, Heard(lower, mine))
  {
    NothingTrimmed();
    assert ',' !in "" && lower(TrimSpace("")) == "";
  }

  lemma NothingTrimmed()
    ensures TrimSpace("") == ""
  {
  }

  /** Nameable is when some wording is accepted. */
  lemma NameableExactly(lower: Lowering, me: string, rows: seq<Member>)
    requires lower("") == ""
    ensures (exists wording :: Names(lower, me, rows, wording)) <==> Nameable(lower, me, rows)
  {
    hide OtherAddresses, OwnAddress, GivenAddresses, Sayable;
    var others, mine := OtherAddresses(lower, me, rows), OwnAddress(lower, me, rows);
    if Nameable(lower, me, rows) {
      var wording := SomeWording(lower, others);
      assert others - {"", mine} == others;
      assert Names(lower, me, rows, wording);
    } else {
      forall wording ensures !Names(lower, me, rows, wording) {
        GivenIsSayable(lower, mine, wording);
      }
    }
  }

  /** An own address no wording can give makes no difference to what is given. */
  lemma OnlyTheHeardMatters(lower: Lowering, mine: string, wording: string)
    ensures GivenAddresses(lower, mine, wording) == GivenAddresses(lower, Heard(lower, mine), wording)
  {
    PartsHaveNoComma(wording);
  }

  /** Every wording is decided for some of the rows as it would be for the whole roster, exactly
      when both have the same other addresses and the same own one, so far as it can be given,
      or when no wording is accepted for either. */
  lemma DecidedAlikeExactly(lower: Lowering, me: string, some: seq<Member>, roster: seq<Member>)
    requires lower("") == ""
    ensures (forall wording :: Names(lower, me, some, wording) <==> Names(lower, me, roster, wording))
            <==>
            || (OtherAddresses(lower, me, some) == OtherAddresses(lower, me, roster)
                && Heard(lower, OwnAddress(lower, me, some)) == Heard(lower, OwnAddress(lower, me, roster)))
            || (!Nameable(lower, me, some) && !Nameable(lower, me, roster))
  {
    hide OtherAddresses, OwnAddress, GivenAddresses, Nameable;
    NameableExactly(lower, me, some);
    NameableExactly(lower, me, roster);
    var a, b := OwnAddress(lower, me, some), OwnAddress(lower, me, roster);
    if OtherAddresses(lower, me, some) == OtherAddresses(lower, me, roster) && Heard(lower, a) == Heard(lower, b) {
      forall wording ensures Names(lower, me, some, wording) <==> Names(lower, me, roster, wording) {
        OnlyTheHeardMatters(lower, a, wording);
        OnlyTheHeardMatters(lower, b, wording);
      }
    } else if Nameable(lower, me, some) && Nameable(lower, me, roster) {
      var wording := ToldApart(lower, me, some, roster);
    }
  }

  /** Otherwise a wording tells them apart: one side's addresses, with its own or without. */
  lemma ToldApart(lower: Lowering, me: string, some: seq<Member>, roster: seq<Member>) returns (wording: string)
    requires lower("") == "" && Nameable(lower, me, some) && Nameable(lower, me, roster)
    requires OtherAddresses(lower, me, some) != OtherAddresses(lower, me, roster)
             || Heard(lower, OwnAddress(lower, me, some)) != Heard(lower, OwnAddress(lower, me, roster))
    ensures Names(lower, me, some, wording) != Names(lower, me, roster, wording)
  {
    hide OtherAddresses, OwnAddress, GivenAddresses, Sayable;
    var x, a := OtherAddresses(lower, me, some), OwnAddress(lower, me, some);
    var y, b := OtherAddresses(lower, me, roster), OwnAddress(lower, me, roster);
    assert x - {"", a} == x && y - {"", b} == y;
    var plain := SomeWording(lower, x);
    var other := SomeWording(lower, y);
    HeardIsSayable(lower, a);
    HeardIsSayable(lower, b);
    var withA := SomeWording(lower, x + {Heard(lower, a)});
    var withB := SomeWording(lower, y + {Heard(lower, b)});
    wording := if Names(lower, me, some, plain) != Names(lower, me, roster, plain) then plain
               else if Names(lower, me, some, other) != Names(lower, me, roster, other) then other
               else if Names(lower, me, some, withA) != Names(lower, me, roster, withA) then withA
               else withB;
  }

  /** So the pages read decide as the whole conversation would exactly when the members past
      them add nobody's address, and not the caller's own either, or when neither could accept
      a wording. A listing that ends always does. */
  lemma PagesDecideExactly<E(!new)>(list: Listing<Member, E>, roster: seq<Member>, place: string -> nat,
                                    lower: Lowering, me: string, calls: nat)
    requires PagesOf(list, roster, place) && calls >= 1 && Answered(list, calls) && lower("") == ""
    ensures var some := Read(list, calls);
            && some <= roster && OtherAddresses(lower, me, some) <= OtherAddresses(lower, me, roster)
            && ((forall wording :: Names(lower, me, some, wording) <==> Names(lower, me, roster, wording))
                <==>
                || (OtherAddresses(lower, me, some) == OtherAddresses(lower, me, roster)
                    && Heard(lower, OwnAddress(lower, me, some)) == Heard(lower, OwnAddress(lower, me, roster)))
                || (!Nameable(lower, me, some) && !Nameable(lower, me, roster)))
  {
    hide *;
    ReadIsThePagesRows(list, roster, place, calls);
    FewerAddresses(lower, me, Read(list, calls), roster);
    DecidedAlikeExactly(lower, me, Read(list, calls), roster);
  }

  lemma FewerAddresses(lower: Lowering, me: string, some: seq<Member>, roster: seq<Member>)
    requires some <= roster
    ensures OtherAddresses(lower, me, some) <= OtherAddresses(lower, me, roster)
  {
    forall m | m in some ensures m in roster {
      var i :| 0 <= i < |some| && some[i] == m;
      assert roster[i] == m;
    }
  }

  /** It happens with the caller too: listed after the pages read, their own address is held
      against them. */
  lemma AnOwnAddressUnread(lower: Lowering, me: string, address: string)
    requires PlainAddress(address) && lower(address) != ""
    ensures Names(lower, me, [Member(true, me, address)], address) && !Names(lower, me, [], address)
  {
    var own := lower(address);
    SplitPlain(address);
    TrimPlain(address);
    hide Split, TrimSpace, PlainAddress;
    assert OwnAddress(lower, me, [Member(true, me, address)]) == own;
    assert OtherAddresses(lower, me, [Member(true, me, address)]) == {};
    assert GivenAddresses(lower, own, address) == {};
    assert address in Split(address);
    assert own in GivenAddresses(lower, "", address);
  }
}
