/** Rendering a resource name into a request path. */
module Paths {
  import opened Outcomes

  type Byte = b: int | 0 <= b < 256
  type Bytes = seq<Byte>

  const SLASH: Byte := 0x2F
  const COLON: Byte := 0x3A
  const PERCENT: Byte := 0x25

  // ---- One segment ----

  /** What url.PathEscape leaves alone: the unreserved characters of section 2.3 of RFC 3986,
      and the reserved ones it does not count as separators inside a segment. */
  predicate Kept(b: Byte) {
    || 0x41 <= b <= 0x5A || 0x61 <= b <= 0x7A || 0x30 <= b <= 0x39  // letters and digits
    || b == 0x2D || b == 0x5F || b == 0x2E || b == 0x7E               // - _ . ~
    || b == 0x24 || b == 0x26 || b == 0x2B || b == 0x3D || b == COLON || b == 0x40  // $ & + = : @
  }

  function HexDigit(n: nat): (d: Byte)
    requires n < 16
  {
    if n < 10 then 0x30 + n else 0x41 + n - 10
  }

  function Escaped(b: Byte): Bytes {
    [PERCENT, HexDigit(b / 16), HexDigit(b % 16)]
  }

  function PathEscape(s: Bytes): Bytes {
    if s == [] then [] else (if Kept(s[0]) then [s[0]] else Escaped(s[0])) + PathEscape(s[1..])
  }

  function ReplaceColon(b: Byte): Bytes {
    if b == COLON then [PERCENT, 0x33, 0x41] else [b]
  }

  /** strings.ReplaceAll(s, ":", "%3A"). */
  function ReplaceColons(s: Bytes): Bytes {
    if s == [] then [] else ReplaceColon(s[0]) + ReplaceColons(s[1..])
  }

  function EscapeSegment(s: Bytes): Bytes {
    ReplaceColons(PathEscape(s))
  }

  function HexValue(d: Byte): Option<nat> {
    if 0x30 <= d <= 0x39 then Some(d - 0x30)
    else if 0x41 <= d <= 0x46 then Some(d - 0x41 + 10)
    else if 0x61 <= d <= 0x66 then Some(d - 0x61 + 10)
    else None
  }

  /** Percent-decoding, section 2.1 of RFC 3986: what the server does with a segment. */
  function Unescape(s: Bytes): Option<Bytes> {
    if s == [] then Some([])
    else if s[0] != PERCENT then
      match Unescape(s[1..])
      case None => None
      case Some(rest) => Some([s[0]] + rest)
    else if |s| < 3 then None
    else
      match (HexValue(s[1]), HexValue(s[2]), Unescape(s[3..]))
      case (Some(hi), Some(lo), Some(rest)) =>
        var b := hi * 16 + lo;
        if b < 256 then Some([b] + rest) else None
      case _ => None
  }

  /** The two passes together, byte by byte. */
  function EscapeByte(b: Byte): Bytes {
    if Kept(b) && b != COLON then [b] else Escaped(b)
  }

  lemma {:induction false} ReplaceColonsOver(a: Bytes, b: Bytes)
    ensures ReplaceColons(a + b) == ReplaceColons(a) + ReplaceColons(b)
  {
    if a == [] {
      assert a + b == b;
    } else {
      hide ReplaceColon;
      ReplaceColonsOver(a[1..], b);
      assert (a + b)[1..] == a[1..] + b && (a + b)[0] == a[0];
      var one, rest, more := ReplaceColon(a[0]), ReplaceColons(a[1..]), ReplaceColons(b);
      assert one + (rest + more) == (one + rest) + more;
    }
  }

  lemma {:induction false} EscapeSegmentStep(s: Bytes)
    requires s != []
    ensures EscapeSegment(s) == EscapeByte(s[0]) + EscapeSegment(s[1..])
  {
    var one := if Kept(s[0]) then [s[0]] else Escaped(s[0]);
    ReplaceColonsOver(one, PathEscape(s[1..]));
    if Kept(s[0]) {
      assert ReplaceColons([s[0]]) == (if s[0] == COLON then [PERCENT, 0x33, 0x41] else [s[0]]) + ReplaceColons([]);
    } else {
      NoColonsNothingReplaced(one);
    }
  }

  lemma {:induction false} NoColonsNothingReplaced(s: Bytes)
    requires COLON !in s
    ensures ReplaceColons(s) == s
  {
    if s != [] {
      NoColonsNothingReplaced(s[1..]);
    }
  }

  lemma UnescapeByte(b: Byte, rest: Bytes)
    ensures Unescape(EscapeByte(b) + rest) ==
            match Unescape(rest) case None => None case Some(r) => Some([b] + r)
  {
    var s := EscapeByte(b) + rest;
    if Kept(b) && b != COLON {
      assert s[1..] == rest;
    } else {
      assert s[3..] == rest;
      assert (b / 16) * 16 + b % 16 == b;
    }
  }

  /** Unescaping a segment gives back what was escaped, whatever bytes it holds; and no
      separator survives in it. */
  lemma {:induction false} SegmentRoundTrip(s: Bytes)
    ensures Unescape(EscapeSegment(s)) == Some(s)
    ensures SLASH !in EscapeSegment(s) && COLON !in EscapeSegment(s)
    ensures EscapeSegment(s) == [] <==> s == []
  {
    if s != [] {
      SegmentRoundTrip(s[1..]);
      EscapeSegmentStep(s);
      UnescapeByte(s[0], EscapeSegment(s[1..]));
      assert [s[0]] + s[1..] == s;
    }
  }

  // ---- The whole name ----

  function IndexOf(s: Bytes, b: Byte): (i: nat)
    ensures i <= |s|
    ensures b !in s[..i]
    ensures i < |s| ==> s[i] == b
    ensures i == |s| <==> b !in s
  {
    if s == [] || s[0] == b then 0
    else
      var i := 1 + IndexOf(s[1..], b);
      assert s[..i] == [s[0]] + s[1..][..i - 1];
      i
  }

  function Split(s: Bytes): (segments: seq<Bytes>)
    ensures segments != []
  {
    var i := IndexOf(s, SLASH);
    if i == |s| then [s] else [s[..i]] + Split(s[i + 1..])
  }

  function JoinSlashes(segments: seq<Bytes>): Bytes
    requires segments != []
  {
    if |segments| == 1 then segments[0] else segments[0] + [SLASH] + JoinSlashes(segments[1..])
  }

  function EscapeEach(segments: seq<Bytes>): (r: seq<Bytes>)
    ensures |r| == |segments|
    ensures forall i :: 0 <= i < |r| ==> r[i] == EscapeSegment(segments[i])
  {
    seq(|segments|, i requires 0 <= i < |segments| => EscapeSegment(segments[i]))
  }

  function EscapedName(name: Bytes): Bytes {
    JoinSlashes(EscapeEach(Split(name)))
  }

  /** The first separator is where a part without one ends. */
  lemma {:induction false} IndexAfter(part: Bytes, b: Byte, rest: Bytes)
    requires b !in part
    ensures IndexOf(part + [b] + rest, b) == |part|
    ensures (part + [b] + rest)[..|part|] == part && (part + [b] + rest)[|part| + 1..] == rest
  {
    var s := part + [b] + rest;
    if part == [] {
      assert s == [b] + rest && s[0] == b;
    } else {
      assert part[0] in part && forall x :: x in part[1..] ==> x in part;
      IndexAfter(part[1..], b, rest);
      assert s[1..] == part[1..] + [b] + rest;
      assert s[0] == part[0];
    }
  }

  lemma JoinCons(first: Bytes, rest: seq<Bytes>)
    requires rest != []
    ensures JoinSlashes([first] + rest) == first + [SLASH] + JoinSlashes(rest)
  {
    assert ([first] + rest)[1..] == rest;
  }

  lemma EscapeCons(first: Bytes, rest: seq<Bytes>)
    ensures EscapeEach([first] + rest) == [EscapeSegment(first)] + EscapeEach(rest)
  {
    hide EscapeSegment;
  }

  lemma SplitAfter(part: Bytes, rest: Bytes)
    requires SLASH !in part
    ensures Split(part + [SLASH] + rest) == [part] + Split(rest)
  {
    IndexAfter(part, SLASH, rest);
    hide IndexOf;
  }

  lemma SplitCons(part: Bytes, rest: Bytes)
    requires SLASH !in part
    ensures Split(part + [SLASH] + rest) == [part] + Split(rest)
    ensures EscapedName(part + [SLASH] + rest) == EscapeSegment(part) + [SLASH] + EscapedName(rest)
  {
    hide Split, EscapeEach, EscapeSegment, JoinSlashes;
    SplitAfter(part, rest);
    EscapeCons(part, Split(rest));
    JoinCons(EscapeSegment(part), EscapeEach(Split(rest)));
  }

  lemma SplitLast(part: Bytes)
    requires SLASH !in part
    ensures Split(part) == [part] && EscapedName(part) == EscapeSegment(part)
  {
  }

  /** escapeName, scanning for the separators. The loop is join of escaped of split. */
  method EscapeName(name: Bytes) returns (out: Bytes)
    ensures out == EscapedName(name)
  {
    hide EscapedName, EscapeSegment, Split, IndexOf;
    out := [];
    var start := 0;
    assert name[0..] == name;
    for i := 0 to |name|
      invariant 0 <= start <= i
      invariant SLASH !in name[start..i]
      invariant EscapedName(name) == out + EscapedName(name[start..])
    {
      if name[i] != SLASH {
        assert name[start..i + 1] == name[start..i] + [name[i]];
        continue;
      }
      SplitCons(name[start..i], name[i + 1..]);
      assert name[start..] == name[start..i] + [SLASH] + name[i + 1..];
      ghost var e, tail := EscapeSegment(name[start..i]), EscapedName(name[i + 1..]);
      assert out + (e + [SLASH] + tail) == out + e + [SLASH] + tail;
      out := out + EscapeSegment(name[start..i]);
      out := out + [SLASH];
      start := i + 1;
    }
    assert name[start..|name|] == name[start..];
    SplitLast(name[start..]);
    out := out + EscapeSegment(name[start..]);
  }

  /** Unescaping each segment of the escaped name gives the name's own segments. */
  lemma {:induction false} NameRoundTrip(name: Bytes)
    ensures Split(EscapedName(name)) == EscapeEach(Split(name))
    ensures COLON !in EscapedName(name)
    ensures EscapedName(name) == [] <==> name == []
    decreases |name|
  {
    hide EscapeSegment, EscapedName, Split;
    var i := IndexOf(name, SLASH);
    var first := EscapeSegment(name[..i]);
    SegmentRoundTrip(name[..i]);
    if i < |name| {
      var rest := name[i + 1..];
      NameRoundTrip(rest);
      assert name == name[..i] + [SLASH] + rest;
      SplitCons(name[..i], rest);
      SplitCons(first, EscapedName(rest));
      assert EscapeEach(Split(name)) == [first] + EscapeEach(Split(rest));
    } else {
      assert name[..i] == name;
      SplitLast(name);
      SplitLast(first);
    }
  }

  lemma {:induction false} SplitIsInjective(a: Bytes, b: Bytes)
    requires Split(a) == Split(b)
    ensures a == b
  {
    JoinSplit(a);
    JoinSplit(b);
  }

  lemma {:induction false} JoinSplit(a: Bytes)
    ensures JoinSlashes(Split(a)) == a
    decreases |a|
  {
    hide JoinSlashes;
    var i := IndexOf(a, SLASH);
    if i < |a| {
      JoinSplit(a[i + 1..]);
      JoinCons(a[..i], Split(a[i + 1..]));
      assert a == a[..i] + [SLASH] + a[i + 1..];
    } else {
      JoinOne(a);
    }
  }

  lemma JoinOne(a: Bytes)
    ensures JoinSlashes([a]) == a
  {
  }

  lemma EscapedNameIsInjective(a: Bytes, b: Bytes)
    requires EscapedName(a) == EscapedName(b)
    ensures a == b
  {
    NameRoundTrip(a);
    NameRoundTrip(b);
    forall i | 0 <= i < |Split(a)| ensures Split(a)[i] == Split(b)[i] {
      assert EscapeEach(Split(a))[i] == EscapeEach(Split(b))[i];
      SegmentRoundTrip(Split(a)[i]);
      SegmentRoundTrip(Split(b)[i]);
    }
    SplitIsInjective(a, b);
  }

  /** A character a segment may carry as it is: a letter, a digit, or one of - _ . ~ $ & + = @. */
  predicate Unescaped(b: Byte) {
    || 'a' <= b as char <= 'z' || 'A' <= b as char <= 'Z' || '0' <= b as char <= '9'
    || b as char in "-_.~$&+=@"
  }

  /** Nothing is escaped that need not be: a name of such characters and separators goes out as
      it is, and any other character of a segment as its percent-encoding. */
  lemma {:induction false} PlainNamesStay(name: Bytes)
    requires forall b :: b in name ==> Unescaped(b) || b == SLASH
    ensures EscapedName(name) == name
    decreases |name|
  {
    hide EscapedName, Split, EscapeSegment, Unescaped;
    var i := IndexOf(name, SLASH);
    forall b | b in name[..i] ensures Unescaped(b) {
    }
    PlainSegmentStays(name[..i]);
    if i < |name| {
      assert name == name[..i] + [SLASH] + name[i + 1..];
      SplitCons(name[..i], name[i + 1..]);
      PlainNamesStay(name[i + 1..]);
    } else {
      assert name[..i] == name;
      SplitLast(name);
    }
  }

  lemma {:induction false} PlainSegmentStays(s: Bytes)
    requires forall b :: b in s ==> Unescaped(b)
    ensures EscapeSegment(s) == s
  {
    if s != [] {
      assert s[0] in s;
      EscapeSegmentStep(s);
      KeptExactly(s[0]);
      PlainSegmentStays(s[1..]);
      assert s == [s[0]] + s[1..];
    }
  }

  lemma KeptExactly(b: Byte)
    ensures EscapeByte(b) == if Unescaped(b) then [b] else [PERCENT, HexDigit(b / 16), HexDigit(b % 16)]
  {
  }

  // ---- The path ----

  function ResolvePath(prefix: Bytes, name: Bytes, path: Bytes, verb: Bytes): Bytes {
    var p0 := EscapedName(name);
    var p1 := if prefix == [] then p0 else prefix + (if p0 == [] then [] else [SLASH] + p0);
    var p2 := if path == [] then p1 else (if p1 == [] then [] else p1 + [SLASH]) + path;
    if verb == [] then p2 else p2 + [COLON] + verb
  }

  /** The literals a call is written with carry no colon of their own, and a verb is one
      word. */
  predicate Literals(prefix: Bytes, path: Bytes, verb: Bytes) {
    COLON !in prefix && COLON !in path && COLON !in verb
  }

  /** What a server reads as the custom method: whatever follows the colon. */
  function VerbOf(p: Bytes): Bytes {
    var i := IndexOf(p, COLON);
    if i == |p| then [] else p[i + 1..]
  }

  function WithoutVerb(p: Bytes): Bytes {
    p[..IndexOf(p, COLON)]
  }

  lemma NoColonBeforeVerb(prefix: Bytes, name: Bytes, path: Bytes, verb: Bytes)
    requires Literals(prefix, path, verb)
    ensures COLON !in ResolvePath(prefix, name, path, [])
    ensures WithoutVerb(ResolvePath(prefix, name, path, verb)) == ResolvePath(prefix, name, path, [])
    ensures VerbOf(ResolvePath(prefix, name, path, verb)) == verb
  {
    hide EscapedName;
    NameRoundTrip(name);
    var p := ResolvePath(prefix, name, path, []);
    if verb != [] {
      assert ResolvePath(prefix, name, path, verb) == p + [COLON] + verb;
      IndexAfter(p, COLON, verb);
    } else {
      assert IndexOf(p, COLON) == |p|;
    }
  }

  /** The literals around a name that is not empty. */
  lemma AroundTheName(prefix: Bytes, name: Bytes, path: Bytes)
    ensures var x := ResolvePath(prefix, name, path, []);
            var head := if prefix == [] then [] else prefix + [SLASH];
            var tail := if path == [] then [] else [SLASH] + path;
            && (name != [] ==> x == head + EscapedName(name) + tail && EscapedName(name) != [])
            && (name == [] ==> |x| < |head| + 1 + |tail|)
            && (name == [] ==> x == if prefix == [] then path else prefix + tail)
  {
    NameRoundTrip(name);
    hide EscapedName;
  }

  lemma SameAround(head: Bytes, n: Bytes, m: Bytes, tail: Bytes)
    requires head + n + tail == head + m + tail
    ensures n == m
  {
    assert |n| == |m|;
    assert (head + n + tail)[|head|..|head| + |n|] == n;
    assert (head + m + tail)[|head|..|head| + |m|] == m;
  }

  /** For a call written with fixed literals, two names that resolve to one path are one
      name, colons, separators and percent signs in them included; and no name can make the
      path address another custom method than the call's. */
  lemma {:induction false} PathsAddressWhatWasAsked(prefix: Bytes, path: Bytes, verb: Bytes, a: Bytes, b: Bytes)
    requires Literals(prefix, path, verb)
    ensures ResolvePath(prefix, a, path, verb) == ResolvePath(prefix, b, path, verb) <==> a == b
    ensures VerbOf(ResolvePath(prefix, a, path, verb)) == verb
  {
    hide EscapedName, ResolvePath;
    NoColonBeforeVerb(prefix, a, path, verb);
    NoColonBeforeVerb(prefix, b, path, verb);
    AroundTheName(prefix, a, path);
    AroundTheName(prefix, b, path);
    if ResolvePath(prefix, a, path, verb) == ResolvePath(prefix, b, path, verb) {
      if a != [] && b != [] {
        SameAround(if prefix == [] then [] else prefix + [SLASH], EscapedName(a), EscapedName(b),
                   if path == [] then [] else [SLASH] + path);
        EscapedNameIsInjective(a, b);
      }
    }
  }
}
