/** The local scan of one space's history, page by page. */
module Search {
  import opened Outcomes
  import opened Paging

  datatype Message = Message(name: string, text: string)

  /** Where the pattern first matches a text, if it does. */
  type Pattern = string -> Option<nat>

  type Messages<E> = Listing<Message, E>

  datatype Match = Match(message: Message, at: nat)
  datatype Found = Found(matches: seq<Match>, scanned: nat, unparsed: nat, capReached: bool)

  // ---- What a scan of some messages finds ----

  function Matching(pattern: Pattern, messages: seq<Message>): seq<Match> {
    if messages == [] then []
    else
      var m := messages[|messages| - 1];
      Matching(pattern, messages[..|messages| - 1]) +
      if m.name != "" && pattern(m.text).Some? then [Match(m, pattern(m.text).value)] else []
  }

  function Nameless(messages: seq<Message>): nat {
    if messages == [] then 0
    else Nameless(messages[..|messages| - 1]) + if messages[|messages| - 1].name == "" then 1 else 0
  }

  lemma OneMore(pattern: Pattern, messages: seq<Message>, m: Message)
    ensures Matching(pattern, messages + [m]) == Matching(pattern, messages) +
            if m.name != "" && pattern(m.text).Some? then [Match(m, pattern(m.text).value)] else []
    ensures Nameless(messages + [m]) == Nameless(messages) + if m.name == "" then 1 else 0
  {
    assert (messages + [m])[..|messages|] == messages;
  }

  /** Where the messages without a name are. */
  function NamelessAt(messages: seq<Message>): set<nat> {
    set i: nat | i < |messages| && messages[i].name == ""
  }

  lemma OneMoreAt(messages: seq<Message>, m: Message)
    ensures NamelessAt(messages + [m]) == NamelessAt(messages) + if m.name == "" then {|messages|} else {}
    ensures |messages| !in NamelessAt(messages) && NamelessAt([]) == {}
  {
  }

  /** The unparsed are the messages without a name, each counted once. */
  lemma {:induction false} NamelessAreCounted(messages: seq<Message>)
    ensures Nameless(messages) == |NamelessAt(messages)|
  {
    hide NamelessAt;
    if messages != [] {
      var n := |messages| - 1;
      assert messages == messages[..n] + [messages[n]];
      OneMoreAt(messages[..n], messages[n]);
      NamelessAreCounted(messages[..n]);
    } else {
      OneMoreAt([], Message("", ""));
    }
  }

  /** The matches are the named messages the pattern finds, each once and in order, each with
      where it is found. */
  lemma {:induction false} MatchingIsExact(pattern: Pattern, messages: seq<Message>) returns (places: seq<nat>)
    ensures |places| == |Matching(pattern, messages)|
    ensures forall i, j :: 0 <= i < j < |places| ==> places[i] < places[j]
    ensures forall i :: 0 <= i < |places| ==>
              && places[i] < |messages| && messages[places[i]].name != ""
              && pattern(messages[places[i]].text)
                 == Some(Matching(pattern, messages)[i].at)
              && messages[places[i]] == Matching(pattern, messages)[i].message
    ensures forall k :: 0 <= k < |messages| && messages[k].name != "" && pattern(messages[k].text).Some? ==>
              k in places
  {
    hide Matching;
    NothingMatches(pattern);
    places := [];
    if messages != [] {
      var n := |messages| - 1;
      var m := messages[n];
      assert messages == messages[..n] + [m];
      OneMore(pattern, messages[..n], m);
      var before := MatchingIsExact(pattern, messages[..n]);
      places := before;
      if m.name != "" && pattern(m.text).Some? {
        places := before + [n];
        assert places[|before|] == n;
        assert forall k :: k in before ==> k in places;
      }
    }
  }

  lemma NothingMatches(pattern: Pattern)
    ensures Matching(pattern, []) == []
  {
  }

  lemma {:induction false} MatchingOfPrefix(pattern: Pattern, messages: seq<Message>, k: nat)
    requires k <= |messages|
    ensures Matching(pattern, messages[..k]) <= Matching(pattern, messages)
    decreases |messages| - k
  {
    if k < |messages| {
      OneMore(pattern, messages[..k], messages[k]);
      assert messages[..k + 1] == messages[..k] + [messages[k]];
      MatchingOfPrefix(pattern, messages, k + 1);
    } else {
      assert messages[..k] == messages;
    }
  }

  // ---- The scan ----

  /** What was found is exactly what the first scanned of the messages hold. */
  ghost predicate FoundIn(pattern: Pattern, messages: seq<Message>, out: Found) {
    && out.scanned <= |messages|
    && out.matches == Matching(pattern, messages[..out.scanned])
    && out.unparsed == Nameless(messages[..out.scanned])
  }

  /** One page, until it ends or the limit is reached. */
  method ScanPage(pattern: Pattern, limit: nat, messages: seq<Message>, ghost earlier: seq<Message>, soFar: Found)
    returns (out: Found, full: bool)
    requires !soFar.capReached && |soFar.matches| < limit
    requires FoundIn(pattern, earlier, soFar) && soFar.scanned == |earlier|
    ensures FoundIn(pattern, earlier + messages, out)
    ensures full == out.capReached == (|out.matches| == limit)
    ensures |out.matches| <= limit && (!full ==> out.scanned == |earlier + messages|)
  {
    hide Matching, Nameless;
    out, full := soFar, false;
    ghost var all := earlier + messages;
    var i := 0;
    assert all[..|earlier|] == earlier == earlier[..|earlier|];
    while i < |messages|
      invariant 0 <= i <= |messages| && out.scanned == |earlier| + i && !out.capReached
      invariant FoundIn(pattern, all, out) && |out.matches| < limit
    {
      var m := messages[i];
      OneMore(pattern, all[..out.scanned], m);
      assert all[..out.scanned + 1] == all[..out.scanned] + [m];
      out := out.(scanned := out.scanned + 1);
      i := i + 1;
      if m.name == "" {
        out := out.(unparsed := out.unparsed + 1);
        continue;
      }
      var at := pattern(m.text);
      if at.None? {
        continue;
      }
      out := out.(matches := out.matches + [Match(m, at.value)]);
      if |out.matches| >= limit {
        out := out.(capReached := true);
        return out, true;
      }
    }
  }

  /** The scan made these calls and found this: exactly what the messages it read hold; it
      says the cap was reached unless it read every page to its end, and stopped early only
      when full or out of pages. */
  ghost predicate ScanOf<E(!new)>(list: Messages<E>, pattern: Pattern, limit: nat, maxPages: nat, calls: nat,
                           out: Found)
  {
    var all := Read(list, calls);
    && Answered(list, calls) && FoundIn(pattern, all, out) && |out.matches| <= limit
    && (!out.capReached ==> out.scanned == |all| && Token(list, calls) == "")
    && (out.capReached ==>
          || |out.matches| == limit
          || (calls == maxPages && out.scanned == |all| && Token(list, calls) != ""))
  }

  /** The last of these calls failed, and no other. */
  ghost predicate FailedAt<E(!new)>(list: Messages<E>, calls: nat, e: E) {
    && calls > 0 && Answered(list, calls - 1) && list(Token(list, calls - 1), calls - 1) == Err(e)
    && (calls > 1 ==> Token(list, calls - 1) != "")
  }

  /** The loop over the pages. */
  method ScanPages<E(!new)>(list: Messages<E>, pattern: Pattern, limit: nat, maxPages: nat)
    returns (r: Result<Found, E>, calls: nat)
    requires 1 <= limit && 1 <= maxPages
    ensures 1 <= calls <= maxPages
    ensures match r
            case Ok(out) => ScanOf(list, pattern, limit, maxPages, calls, out)
            case Err(e) => FailedAt(list, calls, e)
  {
    hide Read, Token, Answered, FoundIn;
    var out := Found([], 0, 0, false);
    var token := "";
    calls := 0;
    NoPage(list);
    NothingFound(pattern, out);
    while calls < maxPages
      invariant 0 <= calls <= maxPages && token == Token(list, calls)
      invariant Answered(list, calls) && (calls > 0 ==> token != "")
      invariant !out.capReached && |out.matches| < limit && out.scanned == |Read(list, calls)|
      invariant FoundIn(pattern, Read(list, calls), out)
    {
      var resp := list(token, calls);
      calls := calls + 1;
      if resp.Err? { return Err(resp.error), calls; }
      NextPage(list, calls - 1);
      var full;
      out, full := ScanPage(pattern, limit, resp.value.rows, Read(list, calls - 1), out);
      if full { return Ok(out), calls; }
      if resp.value.next == "" { return Ok(out), calls; }
      token := resp.value.next;
    }
    StillFound(pattern, Read(list, calls), out);
    out := out.(capReached := true);
    return Ok(out), calls;
  }

  const DEFAULT_LIMIT := 50
  const MAX_LIMIT := 100
  const DEFAULT_PAGES := 10
  const MAX_PAGES := 50

  /** What a limit that was asked for comes to; None refuses it. */
  function ClampLimit(asked: int, fallback: int, maximum: int): Option<int> {
    if asked <= 0 then Some(fallback) else if asked > maximum then None else Some(asked)
  }

  datatype ScanError<E> = TooMany | FromGoogle(error: E)

  /** scanSpace, its space, pattern and times checked. A number asked for that is too large is
      refused before anything is read; otherwise the scan keeps to the numbers that apply, of
      the caller, the operator and the server, which are never none. */
  method ScanSpace<E(!new)>(list: Messages<E>, pattern: Pattern, limit: int, maxPages: int, operatorPages: int)
    returns (r: Result<Found, ScanError<E>>, calls: nat)
    ensures limit > MAX_LIMIT || maxPages > MAX_PAGES ==> r == Err(TooMany) && calls == 0
    ensures limit <= MAX_LIMIT && maxPages <= MAX_PAGES ==>
              var most: nat := if limit <= 0 then DEFAULT_LIMIT else limit;
              var fallback := if operatorPages > 0 then operatorPages else DEFAULT_PAGES;
              var pages: nat := if maxPages > 0 then maxPages else fallback;
              && 1 <= calls <= pages
              && match r
                 case Ok(out) => ScanOf(list, pattern, most, pages, calls, out)
                 case Err(TooMany) => false
                 case Err(FromGoogle(e)) => FailedAt(list, calls, e)
  {
    calls := 0;
    var most := ClampLimit(limit, DEFAULT_LIMIT, MAX_LIMIT);
    if most.None? { return Err(TooMany), 0; }
    var operator := if operatorPages <= 0 then DEFAULT_PAGES else operatorPages;
    var pages := ClampLimit(maxPages, operator, MAX_PAGES);
    if pages.None? { return Err(TooMany), 0; }
    var scanned;
    scanned, calls := ScanPages(list, pattern, most.value, pages.value);
    r := match scanned case Ok(out) => Ok(out) case Err(e) => Err(FromGoogle(e));
  }

  lemma NothingFound(pattern: Pattern, out: Found)
    requires out == Found([], 0, 0, false)
    ensures FoundIn(pattern, [], out)
  {
  }

  lemma StillFound(pattern: Pattern, all: seq<Message>, out: Found)
    requires FoundIn(pattern, all, out)
    ensures FoundIn(pattern, all, out.(capReached := true))
  {
  }

  /** What ScanSpace's result says about the space: its matches begin the space's matches, and
      when it does not say the cap was reached they are all of them, every message read. */
  lemma {:induction false} ScanOfHistory<E(!new)>(list: Messages<E>, pattern: Pattern, limit: nat, maxPages: nat,
                                           calls: nat, out: Found,
                               history: seq<Message>, place: string -> nat)
    requires PagesOf(list, history, place)
    requires calls >= 1 && ScanOf(list, pattern, limit, maxPages, calls, out)
    ensures out.matches <= Matching(pattern, history) && FoundIn(pattern, history, out)
    ensures !out.capReached ==> out.matches == Matching(pattern, history) && out.scanned == |history|
  {
    hide Matching, Read, Token, Answered, PagesOf;
    var all, k := Read(list, calls), out.scanned;
    ReadIsThePagesRows(list, history, place, calls);
    assert all[..k] == history[..k];
    MatchingOfPrefix(pattern, history, k);
    assert history[..|history|] == history;
  }
}
