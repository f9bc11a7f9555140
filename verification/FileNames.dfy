/** Making a file name out of whatever an attachment is called. */
module FileNames {
  import opened Outcomes
  import W = Witness

  const MAX_NAME: nat := 80

  /** unicode.IsControl. */
  predicate IsControl(c: char) {
    c < ' ' || '\U{7F}' <= c <= '\U{9F}'
  }

  predicate Separates(c: char) {
    c == '/' || c == '\\' || c == ':' || c == '\0'
  }

  function MapChar(c: char): Option<char> {
    if Separates(c) then Some('-')
    else if IsControl(c) then None
    else if W.IsSpace(c) then Some(' ')
    else Some(c)
  }

  /** A character that may stand in a file name. */
  predicate Harmless(c: char) {
    !Separates(c) && !IsControl(c) && (W.IsSpace(c) ==> c == ' ')
  }

  predicate AllHarmless(s: string) {
    forall i :: 0 <= i < |s| ==> Harmless(s[i])
  }

  function Mapped(s: string): (r: string)
    ensures AllHarmless(r)
    ensures AllHarmless(s) ==> r == s
  {
    if s == "" then ""
    else
      assert s == [s[0]] + s[1..];
      match MapChar(s[0])
      case None => Mapped(s[1..])
      case Some(c) => [c] + Mapped(s[1..])
  }

  /** What mapping makes of each character, on its own: a separator a dash, a control character
      nothing, other whitespace a space. */
  lemma {:induction false} MappedCharByChar(a: string, c: char, b: string)
    ensures Mapped(a + [c] + b)
         == Mapped(a) + (if c in "/\\:\0" then "-"
                         else if c < ' ' || '\U{7F}' <= c <= '\U{9F}' then ""
                         else if W.IsSpace(c) then " "
                         else [c]) + Mapped(b)
  {
    if a == "" {
      assert a + [c] + b == [c] + b && ([c] + b)[1..] == b;
    } else {
      assert (a + [c] + b)[1..] == a[1..] + [c] + b;
      MappedCharByChar(a[1..], c, b);
    }
  }

  /** strings.TrimLeft(s, "."). */
  function TrimDots(s: string): (r: string)
    ensures |r| <= |s| && r == s[|s| - |r|..]
    ensures r != "" ==> r[0] != '.'
    ensures forall i :: 0 <= i < |s| - |r| ==> s[i] == '.'
    ensures s != "" && s[0] != '.' ==> r == s
  {
    if s != "" && s[0] == '.' then
      var t := s[1..];
      var r := TrimDots(t);
      assert t[|t| - |r|..] == s[|s| - |r|..];
      assert forall i :: 1 <= i < |s| - |r| ==> s[i] == t[i - 1];
      r
    else s
  }

  /** strings.TrimRight(s, ". "). */
  function TrimEnd(s: string): (r: string)
    ensures r <= s
    ensures r != "" ==> r[|r| - 1] != '.' && r[|r| - 1] != ' '
    ensures forall i :: |r| <= i < |s| ==> s[i] == '.' || s[i] == ' '
    ensures s != "" && s[|s| - 1] != '.' && s[|s| - 1] != ' ' ==> r == s
  {
    if s != "" && (s[|s| - 1] == '.' || s[|s| - 1] == ' ') then TrimEnd(s[..|s| - 1]) else s
  }

  function Shortened(out: string): string {
    if |out| > MAX_NAME then TrimEnd(out[..MAX_NAME]) else out
  }

  function Named(out: string): string {
    if out == "" then "attachment" else out
  }

  function SafeName(name: string): string {
    Named(Shortened(TrimEnd(TrimDots(W.Words(Mapped(name))))))
  }

  /** No two spaces in a row. */
  predicate SingleSpaced(s: string) {
    forall i :: 0 <= i < |s| - 1 ==> !(s[i] == ' ' && s[i + 1] == ' ')
  }

  predicate Tidy(s: string) {
    AllHarmless(s) && SingleSpaced(s)
  }

  /** One component of a path that any file system takes, with nothing in it that hides it or
      that a listing shows as something else. */
  predicate Safe(name: string) {
    && 1 <= |name| <= 80 && Tidy(name)
    && name[0] != '.' && name[|name| - 1] != '.' && name[|name| - 1] != ' '
  }

  lemma {:induction false} JoinIsSingleSpaced(ws: seq<string>)
    requires W.AllWords(ws)
    requires forall w :: w in ws ==> AllHarmless(w)
    ensures Tidy(W.Join(ws))
    ensures ws != [] ==> W.Join(ws) != "" && W.Join(ws)[0] != ' ' && W.Join(ws)[|W.Join(ws)| - 1] != ' '
  {
    hide W.IsSpace, W.Join, Harmless;
    W.Nothing();
    if ws != [] {
      var n := |ws| - 1;
      var rest, last := ws[..n], ws[n];
      assert ws == rest + [last] && last in ws;
      WordIsTidy(last);
      JoinIsSingleSpaced(rest);
      W.JoinSnoc(rest, last);
      if rest != [] {
        TidyAfterSpace(W.Join(rest), last);
      }
    }
  }

  lemma TidyAfterSpace(before: string, last: string)
    requires Tidy(before) && before != "" && before[|before| - 1] != ' '
    requires Tidy(last) && last != "" && last[0] != ' ' && Harmless(' ')
    ensures Tidy(before + " " + last)
  {
    hide Harmless;
  }

  lemma WordIsTidy(w: string)
    requires W.IsWord(w)
    ensures SingleSpaced(w) && w[0] != ' ' && w[|w| - 1] != ' ' && Harmless(' ')
  {
    assert forall i :: 0 <= i < |w| ==> w[i] in w;
  }

  lemma {:induction false} FieldsAreHarmless(s: string)
    requires AllHarmless(s)
    ensures forall w :: w in W.Fields(s) ==> AllHarmless(w)
  {
    hide W.Fields, W.IsSpace, Harmless;
    W.Nothing();
    if s != "" {
      var rest, c := s[..|s| - 1], s[|s| - 1];
      assert s == rest + [c];
      FieldsAreHarmless(rest);
      W.FieldsSnoc(rest, c);
      var ws := W.Fields(rest);
      if !W.IsSpace(c) && rest != "" && !W.IsSpace(rest[|rest| - 1]) {
        assert ws[|ws| - 1] in ws;
        assert AllHarmless(ws[|ws| - 1] + [c]);
      } else if !W.IsSpace(c) {
        assert AllHarmless([c]);
      }
    }
  }

  lemma WordsAreTidy(s: string)
    requires AllHarmless(s)
    ensures var w := W.Words(s);
            && Tidy(w) && (w != "" ==> w[0] != ' ' && w[|w| - 1] != ' ')
  {
    FieldsAreHarmless(s);
    JoinIsSingleSpaced(W.Fields(s));
  }

  lemma PartIsTidy(s: string, from: nat, to: nat)
    requires from <= to <= |s| && Tidy(s)
    ensures Tidy(s[from..to])
  {
  }

  lemma TrimmedLeft(s: string)
    requires Tidy(s)
    ensures Tidy(TrimDots(s))
  {
    hide *;
    var r := TrimDots(s);
    PartIsTidy(s, |s| - |r|, |s|);
    assert s[|s| - |r|..|s|] == r;
  }

  lemma TrimmedRight(s: string)
    requires Tidy(s)
    ensures Tidy(TrimEnd(s))
    ensures s != "" && s[0] != '.' && TrimEnd(s) != "" ==> TrimEnd(s)[0] != '.'
  {
    hide *;
    var r := TrimEnd(s);
    PartIsTidy(s, 0, |r|);
    assert s[0..|r|] == r;
  }

  /** Whatever an attachment is called, the name made of it is safe. */
  lemma {:induction false} SafeNameIsSafe(name: string)
    ensures Safe(SafeName(name))
  {
    hide *;
    var w := W.Words(Mapped(name));
    WordsAreTidy(Mapped(name));
    TrimmedLeft(w);
    TrimmedRight(TrimDots(w));
    var out := TrimEnd(TrimDots(w));
    assert out != "" ==> out[0] != '.';
    ShortIsTidy(out);
    NameIsSafe(Shortened(out));
    NameMade(name);
  }

  lemma NameMade(name: string)
    ensures SafeName(name) == Named(Shortened(TrimEnd(TrimDots(W.Words(Mapped(name))))))
  {
    hide Named, Shortened, TrimEnd, TrimDots, W.Words, Mapped;
  }

  lemma ShortIsTidy(out: string)
    requires Tidy(out) && (out != "" ==> out[0] != '.' && out[|out| - 1] != '.' && out[|out| - 1] != ' ')
    ensures var r := Shortened(out);
            && Tidy(r) && |r| <= MAX_NAME
            && (r != "" ==> r[0] != '.' && r[|r| - 1] != '.' && r[|r| - 1] != ' ')
  {
    hide Tidy, TrimEnd;
    if |out| > MAX_NAME {
      PartIsTidy(out, 0, MAX_NAME);
      assert out[0..MAX_NAME] == out[..MAX_NAME];
      TrimmedRight(out[..MAX_NAME]);
    }
  }

  lemma NameIsSafe(out: string)
    requires Tidy(out) && |out| <= MAX_NAME
    requires out != "" ==> out[0] != '.' && out[|out| - 1] != '.' && out[|out| - 1] != ' '
    ensures Safe(Named(out))
  {
  }

  /** r is w without what is before a and from b on: dots in front, dots and spaces at the
      end, and whatever is past the eightieth character. */
  ghost predicate EndsCut(w: string, a: nat, b: nat, r: string) {
    && a <= b <= |w| && b <= a + 80
    && (forall i :: 0 <= i < a ==> w[i] == '.') && (a < |w| ==> w[a] != '.')
    && (forall i :: b <= i < |w| && i < a + 80 ==> w[i] == '.' || w[i] == ' ')
    && r == if a == b then "attachment" else w[a..b]
  }

  /** The rest of the name is kept: only the ends of its words go. */
  lemma {:induction false} OnlyTheEndsAreCut(name: string) returns (a: nat, b: nat)
    ensures EndsCut(W.Words(Mapped(name)), a, b, SafeName(name))
  {
    hide *;
    NameMade(name);
    a, b := CutWhere(W.Words(Mapped(name)));
  }

  lemma CutWhere(w: string) returns (a: nat, b: nat)
    ensures EndsCut(w, a, b, Named(Shortened(TrimEnd(TrimDots(w)))))
  {
    hide *;
    DotsOff(w);
    a := |w| - |TrimDots(w)|;
    b := CutFrom(w, TrimDots(w), a);
  }

  lemma CutFrom(w: string, cut: string, a: nat) returns (b: nat)
    requires a + |cut| == |w| && forall j :: 0 <= j < |cut| ==> cut[j] == w[a + j]
    requires (forall i :: 0 <= i < a ==> w[i] == '.') && (cut != "" ==> cut[0] != '.')
    ensures EndsCut(w, a, b, Named(Shortened(TrimEnd(cut))))
  {
    hide TrimEnd, Shortened, Named;
    b := EndCut(w, cut, a);
  }

  lemma DotsOff(w: string)
    ensures var cut := TrimDots(w);
            var a := |w| - |cut|;
            && a >= 0 && (forall i :: 0 <= i < a ==> w[i] == '.')
            && (forall j :: 0 <= j < |cut| ==> cut[j] == w[a + j])
            && (cut != "" ==> cut[0] != '.')
  {
  }

  lemma EndCut(w: string, cut: string, a: nat) returns (b: nat)
    requires a + |cut| == |w| && forall j :: 0 <= j < |cut| ==> cut[j] == w[a + j]
    ensures a <= b <= |w| && b <= a + MAX_NAME
    ensures forall i :: b <= i < |w| && i < a + MAX_NAME ==> w[i] == '.' || w[i] == ' '
    ensures Named(Shortened(TrimEnd(cut))) == if a == b then "attachment" else w[a..b]
  {
    hide *;
    BeginsAs(cut);
    var short := Shortened(TrimEnd(cut));
    b := a + |short|;
    assert w[a..b] == short;
    forall i | b <= i < |w| && i < a + MAX_NAME ensures w[i] == '.' || w[i] == ' ' {
      CutOff(cut, i - a);
    }
  }

  lemma BeginsAs(cut: string)
    ensures var short := Shortened(TrimEnd(cut));
            && short <= cut && |short| <= MAX_NAME
            && Named(short) == if short == "" then "attachment" else short
  {
    hide TrimEnd;
  }

  lemma CutOff(cut: string, j: nat)
    requires |Shortened(TrimEnd(cut))| <= j < |cut| && j < MAX_NAME
    ensures cut[j] == '.' || cut[j] == ' '
  {
    hide TrimEnd;
    var out := TrimEnd(cut);
    if |out| > MAX_NAME {
      assert cut[j] == out[..MAX_NAME][j];
    }
  }

  /** Words change nothing in a text that is already single-spaced, but for a space at its end. */
  lemma {:induction false} WordsKeepTidy(s: string)
    requires Tidy(s) && s != "" && s[0] != ' '
    ensures s == W.Words(s) + if s[|s| - 1] == ' ' then " " else ""
  {
    hide W.Fields, W.Join;
    var n := |s| - 1;
    var rest, c := s[..n], s[n];
    assert s == rest + [c];
    W.FieldsSnoc(rest, c);
    W.Nothing();
    if rest == "" {
      W.JoinSnoc([], [c]);
      assert [] + [[c]] == [[c]];
    } else {
      PartIsTidy(s, 0, n);
      assert rest == s[0..n];
      WordsKeepTidy(rest);
      var ws := W.Fields(rest);
      if c != ' ' && rest[n - 1] == ' ' {
        W.JoinSnoc(ws, [c]);
      } else if c != ' ' {
        W.JoinLonger(ws, [c]);
      }
    }
  }

  lemma {:induction false} FieldsAfterSpace(s: string)
    ensures W.Fields(" " + s) == W.Fields(s)
  {
    if s == "" {
    } else {
      var n := |s| - 1;
      assert (" " + s)[..n + 1] == " " + s[..n];
      FieldsAfterSpace(s[..n]);
    }
  }

  /** The names it leaves as they are: exactly the safe ones that do not begin with a space. */
  lemma {:induction false} FixedExactly(name: string)
    ensures SafeName(name) == name <==> Safe(name) && name[0] != ' '
  {
    hide SafeName, Tidy, W.Words, Mapped;
    SafeNameIsSafe(name);
    if SafeName(name) == name && name[0] == ' ' {
      LeadingSpaceGoes(name);
      NamedShorter(name);
    }
    if Safe(name) && name[0] != ' ' {
      AlreadySafe(name);
    }
  }

  lemma AlreadySafe(name: string)
    requires Safe(name) && name[0] != ' '
    ensures SafeName(name) == name
  {
    hide Mapped, TrimDots, TrimEnd, Named, Shortened, W.Words, Tidy;
    MappedKeeps(name);
    WordsKeepTidy(name);
    assert W.Words(name) + "" == W.Words(name);
    NamedAs(name);
  }

  lemma NamedAs(out: string)
    requires Safe(out)
    ensures Named(out) == out && Shortened(out) == out && TrimDots(out) == out && TrimEnd(out) == out
  {
  }

  lemma NamedShorter(name: string)
    requires SafeName(name) == name && name != "" && name[0] == ' '
    ensures |name| <= |W.Words(Mapped(name))|
  {
    hide W.Words, Mapped, TrimDots, TrimEnd;
  }

  lemma MappedKeeps(s: string)
    requires Tidy(s)
    ensures Mapped(s) == s
  {
  }

  lemma LeadingSpaceGoes(name: string)
    requires Safe(name) && name[0] == ' '
    ensures |W.Words(Mapped(name))| < |name|
  {
    hide TrimDots, TrimEnd, Mapped, W.Fields, W.Join;
    var rest := name[1..];
    assert name == " " + rest;
    MappedKeeps(name);
    FieldsAfterSpace(rest);
    PartIsTidy(name, 1, |name|);
    assert name[1..|name|] == rest;
    WordsKeepTidy(rest);
  }

  /** What loses its leading space the second time: words that begin with dots and a space,
      with something other than dots and spaces in the eighty characters from there. */
  ghost predicate SpaceBehindDots(w: string) {
    exists a, i ::
      && 0 < a < |w| && (forall j :: 0 <= j < a ==> w[j] == '.') && w[a] == ' '
      && a < i < |w| && i < a + MAX_NAME && w[i] != '.' && w[i] != ' '
  }

  /** Making a safe name safe changes nothing, but for exactly the names whose words begin with
      dots and then a space, and go on to something other than dots and spaces soon enough. */
  lemma {:induction false} TwiceExactly(name: string)
    ensures SafeName(SafeName(name)) == SafeName(name) <==> !SpaceBehindDots(W.Words(Mapped(name)))
  {
    hide *;
    var w := W.Words(Mapped(name));
    SafeNameIsSafe(name);
    FixedExactly(SafeName(name));
    WordsAreTidy(Mapped(name));
    var a, b := OnlyTheEndsAreCut(name);
    SafeEnds(SafeName(name));
    BeginsWithSpace(w, a, b, SafeName(name));
  }

  lemma SafeEnds(r: string)
    requires Safe(r)
    ensures r != "" && r[|r| - 1] != '.' && r[|r| - 1] != ' '
  {
  }

  lemma BeginsWithSpace(w: string, a: nat, b: nat, r: string)
    requires EndsCut(w, a, b, r) && (w != "" ==> w[0] != ' ')
    requires r != "" && r[|r| - 1] != '.' && r[|r| - 1] != ' '
    ensures r[0] == ' ' <==> SpaceBehindDots(w)
  {
    if a < b {
      assert r[0] == w[a] && r[|r| - 1] == w[b - 1];
      assert forall c :: 0 < c < |w| && (forall j :: 0 <= j < c ==> w[j] == '.') && w[c] == ' ' ==> c == a;
    } else {
      forall c, i | && 0 < c < |w| && (forall j :: 0 <= j < c ==> w[j] == '.') && w[c] == ' '
                    && c < i < |w| && i < c + MAX_NAME
        ensures w[i] == '.' || w[i] == ' '
      {
        assert c == a;
      }
    }
  }

  /** It happens: ". x" becomes " x", and " x" becomes "x". */
  lemma ADotAndASpace()
    ensures SafeName(". x") == " x" && SafeName(" x") == "x"
  {
    hide *;
    OnceMore();
    AndAgain();
  }

  lemma OnceMore()
    ensures SafeName(". x") == " x"
  {
    hide *;
    NameMade(". x");
    OneWordWithDot();
    MappedKeeps(". x");
    WordsKeepTidy(". x");
    assert W.Words(". x") + "" == W.Words(". x");
    EndsOf();
  }

  lemma AndAgain()
    ensures SafeName(" x") == "x"
  {
    hide *;
    NameMade(" x");
    OneWordWithDot();
    MappedKeeps(" x");
    WordsOfX();
    EndsOf();
  }

  lemma WordsOfX()
    ensures W.Words(" x") == "x"
  {
    hide W.Words;
    WordsAfterSpace("x");
    OneWordWithDot();
    WordsKeepTidy("x");
    assert " " + "x" == " x" && W.Words("x") + "" == W.Words("x");
  }

  lemma WordsAfterSpace(s: string)
    ensures W.Words(" " + s) == W.Words(s)
  {
    hide W.Fields, W.Join;
    FieldsAfterSpace(s);
  }

  lemma OneWordWithDot()
    ensures Tidy(". x") && Tidy(" x") && Tidy("x") && " x"[0] == ' '
  {
  }

  lemma EndsOf()
    ensures TrimDots(". x") == " x" && TrimEnd(" x") == " x" && TrimDots("x") == "x" && TrimEnd("x") == "x"
    ensures Named(Shortened(" x")) == " x" && Named(Shortened("x")) == "x"
  {
    assert ". x"[1..] == " x";
  }
}
