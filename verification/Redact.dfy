/** Masking every address in a text that came from elsewhere. */
module Redact {
  import opened Outcomes

  const MASK := '\U{2026}'

  predicate Letter(c: char) {
    'a' <= c <= 'z' || 'A' <= c <= 'Z'
  }

  /** [A-Za-z0-9.\-], the characters of a domain. */
  predicate DomainChar(c: char) {
    Letter(c) || '0' <= c <= '9' || c == '.' || c == '-'
  }

  /** [A-Za-z0-9._%+\-…], the characters of a local part, the mask included. */
  predicate LocalChar(c: char) {
    DomainChar(c) || c == '_' || c == '%' || c == '+' || c == MASK
  }

  /** The classes of the pattern, and what a local part is replaced with. */
  lemma ThePatternsClasses(c: char)
    ensures LocalChar(c) <==> 'a' <= c <= 'z' || 'A' <= c <= 'Z' || '0' <= c <= '9' || c in "._%+-\U{2026}"
    ensures DomainChar(c) <==> 'a' <= c <= 'z' || 'A' <= c <= 'Z' || '0' <= c <= '9' || c in ".-"
    ensures MASK == '\U{2026}'
  {
  }

  // ---- The pattern ----

  predicate AllOf(s: string, from: nat, to: nat, p: char -> bool)
    requires from <= to <= |s|
  {
    forall i :: from <= i < to ==> p(s[i])
  }

  /** The text starts with b domain characters, ".", and c letters. */
  predicate DomainFits(r: string, b: nat, c: nat) {
    && b >= 1 && c >= 2 && b + 1 + c <= |r|
    && AllOf(r, 0, b, DomainChar) && r[b] == '.' && AllOf(r, b + 1, b + 1 + c, Letter)
  }

  /** The text starts with an address of a local characters, then "@" and its domain: what
      the pattern can match there. */
  predicate AddressAt(s: string, a: nat, b: nat, c: nat) {
    && 1 <= a < |s| && AllOf(s, 0, a, LocalChar) && s[a] == '@'
    && DomainFits(s[a + 1..], b, c)
  }

  /** How many characters from the start are of the class. */
  function RunOf(s: string, p: char -> bool): (n: nat)
    ensures n <= |s| && AllOf(s, 0, n, p)
    ensures n < |s| ==> !p(s[n])
  {
    if s == "" || !p(s[0]) then 0
    else
      var n := 1 + RunOf(s[1..], p);
      assert forall i :: 1 <= i < n ==> s[i] == s[1..][i - 1];
      n
  }

  predicate DotAt(r: string, p: nat) {
    1 <= p && p + 2 < |r| && r[p] == '.' && Letter(r[p + 1]) && Letter(r[p + 2])
  }

  /** The last dot below the bound that ends a domain: something before it and at least two
      letters after. */
  function LastDot(r: string, bound: nat): (p: Option<nat>)
    ensures p.Some? ==> p.value < bound && DotAt(r, p.value)
    ensures p.Some? ==> forall i :: p.value < i < bound ==> !DotAt(r, i)
    ensures p.None? ==> forall i :: 0 <= i < bound ==> !DotAt(r, i)
  {
    if bound == 0 then None
    else if DotAt(r, bound - 1) then Some(bound - 1)
    else LastDot(r, bound - 1)
  }

  /** The length of the domain a run of domain characters holds, if it holds one. */
  function DomainLength(r: string): (n: Option<nat>)
    ensures n.Some? ==> 4 <= n.value <= |r|
  {
    match LastDot(r, |r|)
    case None => None
    case Some(p) =>
      var tail := r[p + 1..];
      Some(p + 1 + RunOf(tail, Letter))
  }

  /** The domain at the start of a text, taken from its whole run of domain characters. */
  function DomainAt(rest: string): (n: Option<nat>)
    ensures n.Some? ==> 4 <= n.value <= RunOf(rest, DomainChar)
  {
    DomainLength(rest[..RunOf(rest, DomainChar)])
  }

  /** Where the match that starts here ends, and where its local part does. */
  datatype Match = Match(local: nat, end: nat)

  function MatchAt(s: string): (m: Option<Match>)
    ensures m.Some? ==> 1 <= m.value.local < m.value.end <= |s| && s[m.value.local] == '@'
                        && m.value.local == RunOf(s, LocalChar) && m.value.local + 5 <= m.value.end
  {
    var a := RunOf(s, LocalChar);
    if a == 0 || a == |s| || s[a] != '@' then None
    else
      match DomainAt(s[a + 1..])
      case None => None
      case Some(n) => Some(Match(a, a + 1 + n))
  }

  /** A run is as long as the class says. */
  lemma RunIsWhole(s: string, p: char -> bool, n: nat)
    requires n <= |s| && AllOf(s, 0, n, p) && (n < |s| ==> !p(s[n]))
    ensures RunOf(s, p) == n
  {
  }

  /** Of all the domains that fit: the latest dot, then the most letters. */
  ghost predicate BestDomain(r: string, b: nat, c: nat) {
    && DomainFits(r, b, c)
    && forall b': nat, c': nat :: DomainFits(r, b', c') ==> b' < b || (b' == b && c' <= c)
  }

  /** Whatever domain fits lies inside the run of domain characters, with a dot there. */
  lemma FitsInsideRun(rest: string, b: nat, c: nat)
    requires DomainFits(rest, b, c)
    ensures var k := RunOf(rest, DomainChar);
            b + 1 + c <= k && DotAt(rest[..k], b)
  {
    assert forall i :: 0 <= i < b + 1 + c ==> DomainChar(rest[i]);
    assert Letter(rest[b + 1]) && Letter(rest[b + 2]);
  }

  /** The domain found is one that fits, and its letters go as far as letters go. */
  lemma DomainFound(rest: string) returns (b: nat, c: nat)
    requires DomainAt(rest).Some?
    ensures DomainFits(rest, b, c) && DomainAt(rest) == Some(b + 1 + c)
    ensures forall i :: b < i < RunOf(rest, DomainChar) ==> !DotAt(rest[..RunOf(rest, DomainChar)], i)
    ensures b + 1 + c < RunOf(rest, DomainChar) ==> !Letter(rest[b + 1 + c])
  {
    hide RunOf;
    var r := rest[..RunOf(rest, DomainChar)];
    b := LastDot(r, |r|).value;
    var tail := r[b + 1..];
    c := RunOf(tail, Letter);
    assert forall i :: 0 <= i < |tail| ==> tail[i] == rest[b + 1 + i];
    assert AllOf(rest, b + 1, b + 1 + c, Letter) by {
      forall i | b + 1 <= i < b + 1 + c ensures Letter(rest[i]) {
        assert Letter(tail[i - b - 1]);
      }
    }
    assert Letter(tail[0]) && Letter(tail[1]);
  }

  /** And it is the best one. */
  lemma DomainIsBest(rest: string) returns (b: nat, c: nat)
    requires DomainAt(rest).Some?
    ensures BestDomain(rest, b, c) && DomainAt(rest) == Some(b + 1 + c)
  {
    b, c := DomainFound(rest);
    hide *;
    forall b': nat, c': nat | DomainFits(rest, b', c') ensures b' < b || (b' == b && c' <= c) {
      FitsInsideRun(rest, b', c');
      AfterTheBest(rest, b, c, b', c');
    }
    BestMeans(rest, b, c);
  }

  lemma AfterTheBest(rest: string, b: nat, c: nat, b': nat, c': nat)
    requires DomainFits(rest, b', c') && b + 1 + c <= |rest|
    requires var k := RunOf(rest, DomainChar);
             && b' < k && (b' > b ==> !DotAt(rest[..k], b')) && DotAt(rest[..k], b')
             && b' + 1 + c' <= k && (b + 1 + c < k ==> !Letter(rest[b + 1 + c]))
    ensures b' < b || (b' == b && c' <= c)
  {
    hide RunOf, DotAt;
  }

  lemma BestMeans(rest: string, b: nat, c: nat)
    requires DomainFits(rest, b, c)
    requires forall b': nat, c': nat :: DomainFits(rest, b', c') ==> b' < b || (b' == b && c' <= c)
    ensures BestDomain(rest, b, c)
  {
    hide DomainFits;
  }

  /** MatchAt is the pattern's match at the start of the text, as Go prefers it: there is one
      exactly when the pattern matches there at all, and of all the ways to match it takes the
      longest local part, then the longest domain before a dot, then the most letters. */
  lemma MatchIsTheBest(s: string)
    ensures match MatchAt(s)
            case None => forall a: nat, b: nat, c: nat :: !AddressAt(s, a, b, c)
            case Some(m) =>
              exists b: nat, c: nat ::
                && AddressAt(s, m.local, b, c) && m.end == m.local + b + c + 2
                && forall a': nat, b': nat, c': nat :: AddressAt(s, a', b', c') ==>
                     a' == m.local && (b' < b || (b' == b && c' <= c))
  {
    hide RunOf, DomainFits, DomainAt;
    forall a: nat, b: nat, c: nat | AddressAt(s, a, b, c) ensures MatchAt(s).Some? && a == MatchAt(s).value.local {
      RunIsWhole(s, LocalChar, a);
      SomeDomain(s[a + 1..], b, c);
    }
    if MatchAt(s).Some? {
      var m := MatchAt(s).value;
      var b, c := DomainIsBest(s[m.local + 1..]);
      assert AddressAt(s, m.local, b, c);
    }
  }

  lemma SomeDomain(rest: string, b: nat, c: nat)
    requires DomainFits(rest, b, c)
    ensures DomainAt(rest).Some?
  {
    hide DomainFits, RunOf;
    FitsInsideRun(rest, b, c);
  }

  // ---- The text, piece by piece ----

  datatype Piece = Plain(c: char) | Address(local: string, domain: string)

  function Show(p: Piece): string {
    match p
    case Plain(c) => [c]
    case Address(l, d) => l + "@" + d
  }

  function ShowAll(ps: seq<Piece>): string {
    if ps == [] then "" else Show(ps[0]) + ShowAll(ps[1..])
  }

  /** The leftmost matches, none overlapping, and the characters between them. */
  function Pieces(s: string): seq<Piece> {
    if s == "" then []
    else
      match MatchAt(s)
      case None => [Plain(s[0])] + Pieces(s[1..])
      case Some(m) => [Address(s[..m.local], s[m.local + 1..m.end])] + Pieces(s[m.end..])
  }

  /** Account: everything before the first "@" becomes the mask, if there is something on
      both sides of it. */
  function Account(addr: string): string {
    var at := RunOf(addr, c => c != '@');
    if at == |addr| || at == 0 || at + 1 == |addr| then addr
    else [MASK] + addr[at..]
  }

  /** ReplaceAllStringFunc(Account). */
  function Accounts(s: string): string {
    if s == "" then ""
    else
      match MatchAt(s)
      case None => [s[0]] + Accounts(s[1..])
      case Some(m) => Account(s[..m.end]) + Accounts(s[m.end..])
  }

  function Masked(p: Piece): Piece {
    match p
    case Plain(_) => p
    case Address(_, d) => Address([MASK], d)
  }

  function MaskAll(ps: seq<Piece>): (r: seq<Piece>)
    ensures |r| == |ps| && forall i :: 0 <= i < |r| ==> r[i] == Masked(ps[i])
  {
    seq(|ps|, i requires 0 <= i < |ps| => Masked(ps[i]))
  }

  lemma AccountOfMatch(s: string)
    requires MatchAt(s).Some?
    ensures var m := MatchAt(s).value;
            Account(s[..m.end]) == [MASK] + "@" + s[m.local + 1..m.end]
  {
    hide MatchAt;
    var m := MatchAt(s).value;
    var addr := s[..m.end];
    var f := (c: char) => c != '@';
    assert forall i :: 0 <= i < m.local ==> LocalChar(s[i]) && addr[i] != '@';
    RunIsWhole(addr, f, m.local);
    assert addr[m.local..] == "@" + s[m.local + 1..m.end];
  }

  lemma EmptyText()
    ensures Accounts("") == "" && Pieces("") == [] && ShowAll([]) == "" && MaskAll([]) == []
    ensures RunOf("", DomainChar) == 0
  {
  }

  lemma ShowCons(p: Piece, ps: seq<Piece>)
    ensures ShowAll([p] + ps) == Show(p) + ShowAll(ps)
    ensures MaskAll([p] + ps) == [Masked(p)] + MaskAll(ps)
  {
    assert ([p] + ps)[1..] == ps;
  }

  /** The text is its pieces, and the redacted text is the masked ones. */
  lemma {:induction false} PiecesShow(s: string)
    ensures ShowAll(Pieces(s)) == s
    ensures Accounts(s) == ShowAll(MaskAll(Pieces(s)))
  {
    hide *;
    if s == "" {
      EmptyText();
    } else {
      var p, e := FirstPiece(s);
      var rest := Pieces(s[e..]);
      PiecesShow(s[e..]);
      ShowCons(p, rest);
      ShowCons(Masked(p), MaskAll(rest));
      assert s == s[..e] + s[e..];
    }
  }

  lemma FirstPiece(s: string) returns (p: Piece, e: nat)
    requires s != ""
    ensures 1 <= e <= |s|
    ensures Pieces(s) == [p] + Pieces(s[e..]) && Show(p) == s[..e]
    ensures Accounts(s) == Show(Masked(p)) + Accounts(s[e..])
  {
    hide MatchAt, Account;
    if MatchAt(s).Some? {
      var m := MatchAt(s).value;
      p, e := Address(s[..m.local], s[m.local + 1..m.end]), m.end;
      MatchedText(s);
      assert s[..e] == s[..m.local] + "@" + s[m.local + 1..e];
    } else {
      p, e := Plain(s[0]), 1;
      UnmatchedText(s);
    }
  }

  // ---- Masking what is masked ----

  /** Masking never lengthens the run of domain characters a text starts with. */
  lemma {:induction false} RunIsCut(u: string)
    ensures var out := Accounts(u);
            var k := RunOf(out, DomainChar);
            k <= RunOf(u, DomainChar) && out[..k] == u[..k]
  {
    hide *;
    if u == "" {
      EmptyText();
    } else if MatchAt(u).Some? {
      MatchedText(u);
      RunIsWhole(Accounts(u), DomainChar, 0);
    } else {
      var v := Accounts(u[1..]);
      UnmatchedText(u);
      assert u == [u[0]] + u[1..];
      RunOfCons(u[0], u[1..]);
      RunOfCons(u[0], v);
      RunIsCut(u[1..]);
    }
  }

  lemma MatchedText(s: string)
    requires MatchAt(s).Some?
    ensures var m := MatchAt(s).value;
            && Accounts(s) == [MASK] + "@" + s[m.local + 1..m.end] + Accounts(s[m.end..])
            && Pieces(s) == [Address(s[..m.local], s[m.local + 1..m.end])] + Pieces(s[m.end..])
            && !DomainChar(Accounts(s)[0])
  {
    hide MatchAt, Account;
    AccountOfMatch(s);
  }

  lemma UnmatchedText(s: string)
    requires s != "" && MatchAt(s).None?
    ensures Accounts(s) == [s[0]] + Accounts(s[1..]) && Pieces(s) == [Plain(s[0])] + Pieces(s[1..])
  {
    hide MatchAt;
  }

  lemma RunOfCons(c: char, s: string)
    ensures RunOf([c] + s, DomainChar) == if DomainChar(c) then 1 + RunOf(s, DomainChar) else 0
    ensures RunOf([c] + s, LocalChar) == if LocalChar(c) then 1 + RunOf(s, LocalChar) else 0
  {
    assert ([c] + s)[1..] == s;
  }

  lemma FitsInCut(r: string, r': string, k: nat, b: nat, c: nat)
    requires k <= |r| && k <= |r'| && r[..k] == r'[..k] && b + 1 + c <= k
    requires DomainFits(r, b, c)
    ensures DomainFits(r', b, c)
  {
    assert forall i :: 0 <= i < k ==> r[i] == r[..k][i] == r'[..k][i] == r'[i];
  }

  /** A domain is still found, and none is still not, after what follows it is cut short. */
  lemma DomainOfCut(rest: string, rest': string)
    requires var k := RunOf(rest', DomainChar);
             && k <= RunOf(rest, DomainChar) && rest'[..k] == rest[..k]
             && (DomainAt(rest).Some? ==> DomainAt(rest).value <= k)
    ensures DomainAt(rest') == DomainAt(rest)
  {
    hide DomainFits, DomainAt, RunOf;
    var k := RunOf(rest', DomainChar);
    if DomainAt(rest).Some? {
      var b, c := DomainIsBest(rest);
      FitsInCut(rest, rest', k, b, c);
      SomeDomain(rest', b, c);
    }
    if DomainAt(rest').Some? {
      var b, c := DomainIsBest(rest');
      FitsInCut(rest', rest, k, b, c);
      SomeDomain(rest, b, c);
      var b', c' := DomainIsBest(rest);
      FitsInCut(rest, rest', k, b', c');
    }
  }

  /** The domain kept is found whole, whatever now follows it. */
  lemma DomainIsFound(domain: string, u: string)
    requires DomainAt(domain + u) == Some(|domain|)
    ensures DomainAt(domain + Accounts(u)) == Some(|domain|)
  {
    hide Accounts, DomainAt, RunOf;
    var v := Accounts(u);
    RunIsCut(u);
    assert forall i :: 0 <= i < |domain| ==> domain[i] == (domain + u)[i];
    RunAfter(domain, u);
    RunAfter(domain, v);
    var k := RunOf(v, DomainChar);
    assert (domain + v)[..|domain| + k] == domain + v[..k] == domain + u[..k] == (domain + u)[..|domain| + k];
    DomainOfCut(domain + u, domain + v);
  }

  lemma MaskedIsFound(domain: string, v: string)
    requires DomainAt(domain + v) == Some(|domain|)
    ensures MatchAt([MASK] + "@" + domain + v) == Some(Match(1, 2 + |domain|))
  {
    hide DomainAt, RunOf;
    var s := [MASK] + "@" + domain + v;
    RunIsWhole(s, LocalChar, 1);
    assert s[2..] == domain + v;
  }

  lemma RunAfter(domain: string, u: string)
    requires AllOf(domain, 0, |domain|, DomainChar)
    ensures RunOf(domain + u, DomainChar) == |domain| + RunOf(u, DomainChar)
  {
    RunIsWhole(domain + u, DomainChar, |domain| + RunOf(u, DomainChar));
  }

  lemma NoMatchLater(s: string)
    requires s != "" && MatchAt(s).None? && LocalChar(s[0])
    ensures MatchAt(s[1..]).None?
  {
    hide RunOf, DomainAt;
    var t := s[1..];
    assert s == [s[0]] + t;
    RunOfCons(s[0], t);
    var j := RunOf(t, LocalChar);
    if 0 < j < |t| {
      assert t[j + 1..] == s[j + 2..];
    }
  }

  /** Where nothing matches, the local characters and what ends them are copied. */
  lemma {:induction false} RunIsCopied(s: string)
    requires MatchAt(s).None?
    ensures var j := RunOf(s, LocalChar);
            Accounts(s) == if j == |s| then s else s[..j + 1] + Accounts(s[j + 1..])
  {
    hide *;
    if s == "" {
      EmptyText();
    } else {
      var t := s[1..];
      assert s == [s[0]] + t;
      RunOfCons(s[0], t);
      UnmatchedText(s);
      if LocalChar(s[0]) {
        var i := RunOf(t, LocalChar);
        NoMatchLater(s);
        RunIsCopied(t);
        if i < |t| {
          assert t[i + 1..] == s[i + 2..];
          assert s[..i + 2] == [s[0]] + t[..i + 1];
        }
      }
    }
  }

  /** So nothing matches there afterwards either. */
  lemma NoMatchStays(s: string)
    requires s != "" && MatchAt(s).None?
    ensures MatchAt(Accounts(s)).None?
  {
    hide Accounts, DomainAt;
    var j := RunOf(s, LocalChar);
    RunIsCopied(s);
    if j < |s| {
      var rest := s[j + 1..];
      var out := Accounts(s);
      assert forall i :: 0 <= i <= j ==> out[i] == s[i];
      RunIsWhole(out, LocalChar, j);
      assert out[j + 1..] == Accounts(rest);
      if j > 0 && s[j] == '@' {
        RunIsCut(rest);
        DomainOfCut(rest, Accounts(rest));
      }
    }
  }

  /** Redacting finds the same pieces again: every address is found with its mask and its own
      domain, and every other character is found where it was, in no new address. */
  lemma {:induction false} SamePiecesMasked(s: string)
    ensures Pieces(Accounts(s)) == MaskAll(Pieces(s))
  {
    hide *;
    EmptyText();
    if s != "" && MatchAt(s).Some? {
      var m := MatchAt(s).value;
      var domain, u := s[m.local + 1..m.end], s[m.end..];
      var out := Accounts(s);
      MatchedText(s);
      DomainOfMatch(s);
      DomainIsFound(domain, u);
      MaskedIsFound(domain, Accounts(u));
      MatchedText(out);
      assert out[..1] == [MASK] && out[2..2 + |domain|] == domain && out[2 + |domain|..] == Accounts(u);
      SamePiecesMasked(u);
      ShowCons(Address(s[..m.local], domain), Pieces(u));
      MaskOf(Address(s[..m.local], domain));
    } else if s != "" {
      var out := Accounts(s);
      UnmatchedText(s);
      NoMatchStays(s);
      UnmatchedText(out);
      assert out[1..] == Accounts(s[1..]);
      SamePiecesMasked(s[1..]);
      ShowCons(Plain(s[0]), Pieces(s[1..]));
      MaskOf(Plain(s[0]));
    }
  }

  lemma MaskOf(p: Piece)
    ensures Masked(p) == if p.Address? then Address([MASK], p.domain) else p
  {
  }

  lemma DomainOfMatch(s: string)
    requires MatchAt(s).Some?
    ensures var m := MatchAt(s).value;
            var domain := s[m.local + 1..m.end];
            DomainAt(domain + s[m.end..]) == Some(|domain|)
  {
    hide DomainAt;
    var m := MatchAt(s).value;
    assert s[m.local + 1..] == s[m.local + 1..m.end] + s[m.end..];
  }

  lemma {:induction false} MaskingTwice(ps: seq<Piece>)
    ensures MaskAll(MaskAll(ps)) == MaskAll(ps)
  {
  }

  /** Redacting twice is redacting once, for every text. */
  lemma {:induction false} Idempotent(s: string)
    ensures Accounts(Accounts(s)) == Accounts(s)
  {
    hide MatchAt, Account, Accounts, Pieces, MaskAll;
    SamePiecesMasked(s);
    PiecesShow(s);
    PiecesShow(Accounts(s));
    MaskingTwice(Pieces(s));
  }
}
