/** The witness of a destructive call, compared with the target's text by its words. */
module Witness {
  import Text

  /** unicode.IsSpace. */
  predicate IsSpace(c: char) {
    || '\t' <= c <= '\r' || c == ' ' || c == '\U{85}' || c == '\U{A0}' || c == '\U{1680}'
    || '\U{2000}' <= c <= '\U{200A}' || c == '\U{2028}' || c == '\U{2029}' || c == '\U{202F}'
    || c == '\U{205F}' || c == '\U{3000}'
  }

  /** The characters with Unicode's White_Space property, one by one. */
  lemma TheSpaces(c: char)
    ensures IsSpace(c) <==>
            || c in "\t\n\U{B}\U{C}\r \U{85}\U{A0}\U{1680}\U{2000}\U{2001}\U{2002}\U{2003}\U{2004}"
            || c in "\U{2005}\U{2006}\U{2007}\U{2008}\U{2009}\U{200A}\U{2028}\U{2029}\U{202F}\U{205F}\U{3000}"
  {
  }

  predicate IsWord(w: string) {
    w != "" && forall c :: c in w ==> !IsSpace(c)
  }

  predicate AllWords(ws: seq<string>) {
    forall w :: w in ws ==> IsWord(w)
  }

  /** strings.Fields: the maximal runs without whitespace, in order. */
  function Fields(s: string): (ws: seq<string>)
    ensures AllWords(ws)
    ensures s != "" && !IsSpace(s[|s| - 1]) ==> ws != []
  {
    if s == "" then []
    else
      var rest, c := s[..|s| - 1], s[|s| - 1];
      if IsSpace(c) then Fields(rest)
      else if rest == "" || IsSpace(rest[|rest| - 1]) then Fields(rest) + [[c]]
      else
        var ws := Fields(rest);
        assert ws[|ws| - 1] in ws;
        ws[..|ws| - 1] + [ws[|ws| - 1] + [c]]
  }

  /** strings.Join with one space. */
  function Join(ws: seq<string>): string {
    if ws == [] then ""
    else if |ws| == 1 then ws[0]
    else Join(ws[..|ws| - 1]) + " " + ws[|ws| - 1]
  }

  /** words: every run of whitespace folded to one space and the ends trimmed. */
  function Words(s: string): string {
    Join(Fields(s))
  }

  lemma JoinEnds(ws: seq<string>)
    requires AllWords(ws) && ws != []
    ensures Join(ws) != "" && !IsSpace(Join(ws)[|Join(ws)| - 1])
  {
    var last := ws[|ws| - 1];
    assert last in ws;
    assert Join(ws)[|Join(ws)| - 1] == last[|last| - 1];
  }

  /** Reading one more character only ever appends to the words. */
  lemma WordsGrow(s: string, c: char)
    ensures Words(s) <= Words(s + [c])
  {
    assert (s + [c])[..|s|] == s;
    var ws := Fields(s);
    if !IsSpace(c) && s != "" && !IsSpace(s[|s| - 1]) {
      JoinLonger(ws, [c]);
    } else if !IsSpace(c) {
      assert (ws + [[c]])[..|ws|] == ws;
    }
  }

  lemma JoinLonger(ws: seq<string>, more: string)
    requires ws != []
    ensures Join(ws[..|ws| - 1] + [ws[|ws| - 1] + more]) == Join(ws) + more
  {
    hide Join;
    var n := |ws| - 1;
    assert ws == ws[..n] + [ws[n]];
    LastLonger(ws[..n], ws[n], more);
  }

  lemma LastLonger(before: seq<string>, last: string, more: string)
    ensures Join(before + [last + more]) == Join(before + [last]) + more
  {
    hide Join;
    JoinSnoc(before, last);
    JoinSnoc(before, last + more);
    var lead := Join(before) + " ";
    assert lead + (last + more) == (lead + last) + more;
  }

  /** The words of how a text begins are how the words of the text begin. */
  lemma {:induction false} WordsOfPrefix(s: string, k: nat)
    requires k <= |s|
    ensures Words(s[..k]) <= Words(s)
    decreases |s| - k
  {
    if k < |s| {
      WordsGrow(s[..k], s[k]);
      assert s[..k + 1] == s[..k] + [s[k]];
      WordsOfPrefix(s, k + 1);
    } else {
      assert s[..k] == s;
    }
  }

  /** Fields, one character at a time. */
  lemma FieldsSnoc(s: string, c: char)
    ensures var ws, t := Fields(s), Fields(s + [c]);
            if IsSpace(c) then t == ws
            else if s == "" || IsSpace(s[|s| - 1]) then t == ws + [[c]]
            else ws != [] && t == ws[..|ws| - 1] + [ws[|ws| - 1] + [c]]
  {
    assert (s + [c])[..|s|] == s;
  }

  lemma JoinSnoc(ws: seq<string>, w: string)
    ensures Join(ws + [w]) == if ws == [] then w else Join(ws) + " " + w
  {
    assert (ws + [w])[..|ws|] == ws;
  }

  lemma Nothing()
    ensures Fields("") == [] && Join([]) == ""
  {
  }

  lemma WordOf(w: string, k: nat)
    requires k < |w| && IsWord(w)
    ensures !IsSpace(w[k]) && (k > 0 ==> IsWord(w[..k]))
  {
    hide IsSpace;
    assert w[k] in w;
    assert forall c :: c in w[..k] ==> c in w;
  }

  lemma {:induction false} FieldsOfAppendedWord(a: string, w: string)
    requires IsWord(w)
    requires a == "" || IsSpace(a[|a| - 1])
    ensures Fields(a + w) == Fields(a) + [w]
  {
    hide Fields, IsSpace;
    var n := |w| - 1;
    WordOf(w, n);
    assert a + w == (a + w[..n]) + [w[n]];
    FieldsSnoc(a + w[..n], w[n]);
    if n == 0 {
      assert a + w[..0] == a && w == [w[0]];
    } else {
      FieldsOfAppendedWord(a, w[..n]);
      WordOf(w, n - 1);
      assert w == w[..n] + [w[n]];
    }
  }

  /** Splitting what was joined gives the words back, so joined texts agree exactly when
      their words do. */
  lemma {:induction false} FieldsOfJoin(ws: seq<string>)
    requires AllWords(ws)
    ensures Fields(Join(ws)) == ws
  {
    hide Fields, IsWord, Join;
    Nothing();
    if ws != [] {
      var n := |ws| - 1;
      var before := Join(ws[..n]);
      assert ws == ws[..n] + [ws[n]];
      JoinSnoc(ws[..n], ws[n]);
      FieldsOfJoin(ws[..n]);
      if n == 0 {
        FieldsOfAppendedWord("", ws[0]);
        assert "" + ws[0] == ws[0];
      } else {
        FieldsSnoc(before, ' ');
        FieldsOfAppendedWord(before + " ", ws[n]);
      }
    }
  }

  /** Whitespace is all words forgets: two texts fold to the same string exactly when they
      have the same words, and folding twice is folding once. */
  lemma {:induction false} WordsForgetOnlyWhitespace(a: string, b: string)
    ensures Words(a) == Words(b) <==> Fields(a) == Fields(b)
    ensures Words(Words(a)) == Words(a)
  {
    FieldsOfJoin(Fields(a));
    FieldsOfJoin(Fields(b));
  }

  /** No character but whitespace is lost or moved. */
  lemma {:induction false} FieldsKeepTheText(s: string)
    ensures Concat(Fields(s)) == NoSpaces(s)
  {
    if s != "" {
      var rest, c := s[..|s| - 1], s[|s| - 1];
      FieldsKeepTheText(rest);
      if !IsSpace(c) {
        if rest == "" || IsSpace(rest[|rest| - 1]) {
          assert (Fields(rest) + [[c]])[..|Fields(rest)|] == Fields(rest);
        } else {
          ConcatLonger(Fields(rest), [c]);
        }
      }
    }
  }

  lemma ConcatLonger(ws: seq<string>, more: string)
    requires ws != []
    ensures Concat(ws[..|ws| - 1] + [ws[|ws| - 1] + more]) == Concat(ws) + more
  {
    hide Concat;
    var n := |ws| - 1;
    assert ws == ws[..n] + [ws[n]];
    LastConcat(ws[..n], ws[n], more);
  }

  lemma LastConcat(before: seq<string>, last: string, more: string)
    ensures Concat(before + [last + more]) == Concat(before + [last]) + more
  {
    hide Concat;
    ConcatSnoc(before, last);
    ConcatSnoc(before, last + more);
    assert Concat(before) + (last + more) == (Concat(before) + last) + more;
  }

  lemma ConcatSnoc(ws: seq<string>, w: string)
    ensures Concat(ws + [w]) == Concat(ws) + w
  {
    assert (ws + [w])[..|ws|] == ws;
  }

  function Concat(ws: seq<string>): string {
    if ws == [] then "" else Concat(ws[..|ws| - 1]) + ws[|ws| - 1]
  }

  function NoSpaces(s: string): string {
    if s == "" then ""
    else NoSpaces(s[..|s| - 1]) + (if IsSpace(s[|s| - 1]) then "" else [s[|s| - 1]])
  }

  // ---- The check ----

  const MIN_TEXT_WITNESS := 20

  datatype Verdict = Matches | Invalid | Stale

  function CheckText(text: string, given: string): Verdict {
    var have, want := Words(text), Words(given);
    if want == "" && have == "" then Matches
    else if want == "" then Invalid
    else if !Text.HasPrefix(have, want) then Stale
    else if |want| < (if MIN_TEXT_WITNESS < |have| then MIN_TEXT_WITNESS else |have|) then Invalid
    else Matches
  }

  /** checkText accepts exactly the beginnings of the text, by its words, that carry its
      first 20 characters or all of it. */
  lemma CheckTextAccepts(text: string, given: string)
    ensures CheckText(text, given) == Matches <==>
            && Words(given) <= Words(text)
            && (|Words(given)| >= MIN_TEXT_WITNESS || Words(given) == Words(text))
  {
  }

  /** A witness cut from where the text starts and respaced in any way is never called
      stale, and is accepted once it reaches 20 characters. */
  lemma ACutWitnessIsNeverStale(text: string, k: nat, given: string)
    requires k <= |text|
    requires Fields(given) == Fields(text[..k])
    ensures CheckText(text, given) != Stale
    ensures |Words(given)| >= MIN_TEXT_WITNESS || k == |text| ==> CheckText(text, given) == Matches
  {
    WordsOfPrefix(text, k);
    assert k == |text| ==> text[..k] == text;
  }

  /** strings.EqualFold, for the table fold that gives each character its folding class. */
  predicate EqualUnder(fold: char -> char, a: string, b: string) {
    |a| == |b| && forall i :: 0 <= i < |a| ==> fold(a[i]) == fold(b[i])
  }

  /** What is true of Unicode's table: no whitespace folds with anything else. */
  ghost predicate KeepsSpace(fold: char -> char) {
    forall c, d :: fold(c) == fold(d) && IsSpace(c) ==> c == d
  }

  function CheckName(fold: char -> char, name: string, given: string): Verdict {
    var have, want := Words(name), Words(given);
    if want == "" then Invalid
    else if !EqualUnder(fold, have, want) then Stale
    else Matches
  }

  ghost predicate SameUpToCase(fold: char -> char, a: seq<string>, b: seq<string>) {
    |a| == |b| && forall i :: 0 <= i < |a| ==> EqualUnder(fold, a[i], b[i])
  }

  lemma {:induction false} FoldKeepsWords(fold: char -> char, a: string, b: string)
    requires KeepsSpace(fold) && EqualUnder(fold, a, b)
    ensures SameUpToCase(fold, Fields(a), Fields(b))
  {
    hide Fields, IsSpace;
    Nothing();
    if a != "" {
      var n := |a| - 1;
      assert a == a[..n] + [a[n]] && b == b[..n] + [b[n]];
      FieldsSnoc(a[..n], a[n]);
      FieldsSnoc(b[..n], b[n]);
      FoldKeepsWords(fold, a[..n], b[..n]);
      SameSpace(fold, a, b, n);
      if n > 0 { SameSpace(fold, a, b, n - 1); }
      var x, y := Fields(a[..n]), Fields(b[..n]);
      if !IsSpace(a[n]) && n > 0 && !IsSpace(a[n - 1]) {
        var m := |x| - 1;
        assert EqualUnder(fold, x[m] + [a[n]], y[m] + [b[n]]);
      } else if !IsSpace(a[n]) {
        assert EqualUnder(fold, [a[n]], [b[n]]);
      }
    }
  }

  lemma SameSpace(fold: char -> char, a: string, b: string, k: nat)
    requires KeepsSpace(fold) && EqualUnder(fold, a, b) && k < |a|
    ensures IsSpace(a[k]) <==> IsSpace(b[k])
  {
    hide IsSpace;
    assert fold(a[k]) == fold(b[k]);
  }

  lemma {:induction false} JoinKeepsFold(fold: char -> char, a: seq<string>, b: seq<string>)
    requires SameUpToCase(fold, a, b)
    ensures EqualUnder(fold, Join(a), Join(b))
  {
    if |a| > 1 {
      var n := |a| - 1;
      JoinKeepsFold(fold, a[..n], b[..n]);
    }
  }

  /** A name is accepted exactly when it has the given one's words up to case, whatever the
      spacing of either. */
  lemma {:induction false} CheckNameAccepts(fold: char -> char, name: string, given: string)
    requires KeepsSpace(fold)
    ensures CheckName(fold, name, given) == Matches <==>
            Fields(given) != [] && SameUpToCase(fold, Fields(name), Fields(given))
    ensures CheckName(fold, name, given) == Invalid <==> Fields(given) == []
  {
    var have, want := Fields(name), Fields(given);
    FieldsOfJoin(have);
    FieldsOfJoin(want);
    if want != [] {
      JoinEnds(want);
      if EqualUnder(fold, Join(have), Join(want)) {
        FoldKeepsWords(fold, Join(have), Join(want));
      } else if SameUpToCase(fold, have, want) {
        JoinKeepsFold(fold, have, want);
      }
    }
  }
}
