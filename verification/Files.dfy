/** Creating the file a download goes into, without opening anybody else's. */
module Files {
  import opened FileNames

  const MAX_TRIES: nat := 100

  /** fmt's %d. */
  function Decimal(n: nat): (s: string)
    ensures s != "" && forall c :: c in s ==> '0' <= c <= '9'
  {
    if n < 10 then [('0' as int + n) as char]
    else Decimal(n / 10) + [('0' as int + n % 10) as char]
  }

  lemma {:induction false} DecimalIsInjective(m: nat, n: nat)
    requires Decimal(m) == Decimal(n)
    ensures m == n
  {
    var a, b := Decimal(m), Decimal(n);
    assert a[|a| - 1] == b[|b| - 1];
    if m >= 10 && n >= 10 {
      assert Decimal(m / 10) == a[..|a| - 1] == b[..|b| - 1] == Decimal(n / 10);
      DecimalIsInjective(m / 10, n / 10);
    }
  }

  /** The number a decimal numeral stands for. */
  function Value(s: string): int {
    if s == "" then 0 else 10 * Value(s[..|s| - 1]) + (s[|s| - 1] as int - '0' as int)
  }

  lemma {:induction false} DecimalIsTheNumber(n: nat)
    ensures Value(Decimal(n)) == n
  {
    var s := Decimal(n);
    if n >= 10 {
      DecimalIsTheNumber(n / 10);
      assert s[..|s| - 1] == Decimal(n / 10);
    } else {
      assert s[..|s| - 1] == "";
    }
  }

  /** filepath.Ext, of a name without separators: from the last dot on. */
  function Ext(name: string): (e: string)
    ensures |e| <= |name| && e == name[|name| - |e|..]
    ensures e == "" ==> '.' !in name
    ensures e != "" ==> e[0] == '.' && '.' !in e[1..]
  {
    if name == "" then ""
    else if name[|name| - 1] == '.' then "."
    else
      var rest := Ext(name[..|name| - 1]);
      if rest == "" then "" else rest + [name[|name| - 1]]
  }

  /** The names tried, in order: the name itself, then with -2, -3, ... before its extension. */
  function Candidate(base: string, k: nat): string {
    if k == 0 then base
    else
      var ext := Ext(base);
      base[..|base| - |ext|] + "-" + Decimal(k + 1) + ext
  }

  /** A name that, joined to a directory, is a file right inside it. */
  predicate OneComponent(name: string) {
    name != "" && '/' !in name && '\\' !in name && ':' !in name && name != "." && name != ".."
  }

  lemma CandidatesAreDistinct(base: string, j: nat, k: nat)
    requires j != k
    ensures Candidate(base, j) != Candidate(base, k)
  {
    hide Ext, Decimal;
    if Candidate(base, j) == Candidate(base, k) {
      var ext := Ext(base);
      var stem := base[..|base| - |ext|];
      assert base == stem + ext;
      assert j > 0 && k > 0;
      SameMiddle(stem + "-", Decimal(j + 1), Decimal(k + 1), ext);
      DecimalIsInjective(j + 1, k + 1);
    }
  }

  /** A candidate past the first is the name with a number from two on, in front of what follows
      its last dot. */
  lemma ACandidateKeepsItsExtension(base: string, k: nat)
    ensures Candidate(base, 0) == base
    ensures k > 0 && '.' in base ==>
              exists stem, rest :: base == stem + "." + rest && '.' !in rest
                                   && Candidate(base, k) == stem + "-" + Decimal(k + 1) + "." + rest
    ensures k > 0 && '.' !in base ==> Candidate(base, k) == base + "-" + Decimal(k + 1)
  {
    hide Decimal, Ext;
    var ext := Ext(base);
    var stem := base[..|base| - |ext|];
    assert base == stem + ext;
    assert ext != "" ==> base[|stem|] == ext[0] == '.';
    assert ext == "" ==> stem == base;
    if '.' in base {
      var rest := ext[1..];
      assert ext == "." + rest;
      assert base == stem + "." + rest;
      if k > 0 {
        assert Candidate(base, k) == stem + "-" + Decimal(k + 1) + "." + rest;
      }
    }
  }

  lemma SameMiddle(before: string, a: string, b: string, after: string)
    requires before + a + after == before + b + after
    ensures a == b
  {
    assert |a| == |b|;
    assert a == (before + a + after)[|before|..|before| + |a|];
    assert b == (before + b + after)[|before|..|before| + |b|];
  }

  lemma CandidatesStayInside(base: string, k: nat)
    requires Safe(base)
    ensures OneComponent(Candidate(base, k))
  {
    hide Ext, Decimal;
    assert forall c :: c in base ==> Harmless(c);
    var c := Candidate(base, k);
    assert c[0] == base[0];
    forall x | x in c ensures !Separates(x) {
      assert x in base || x == '-' || x in Decimal(k + 1);
    }
  }

  /** What other programs do to the directory just before an attempt. */
  datatype Meanwhile = Meanwhile(added: set<string>, removed: set<string>)

  /** What the directory holds when attempt k opens its file, while none has succeeded. */
  function Present(files: set<string>, others: nat -> Meanwhile, k: nat): set<string> {
    var before := if k == 0 then files else Present(files, others, k - 1);
    before - others(k).removed + others(k).added
  }

  lemma PresentNext(files: set<string>, others: nat -> Meanwhile, k: nat)
    ensures Present(files, others, k)
         == (if k == 0 then files else Present(files, others, k - 1)) - others(k).removed + others(k).added
  {
  }

  /** Each of the first n candidates was already there when it was tried. */
  ghost predicate TakenBefore(files: set<string>, others: nat -> Meanwhile, fails: nat -> bool, base: string, n: nat) {
    forall j: nat :: j < n ==> !fails(j) && Candidate(base, j) in Present(files, others, j)
  }

  lemma TakenNext(files: set<string>, others: nat -> Meanwhile, fails: nat -> bool, base: string, n: nat)
    requires TakenBefore(files, others, fails, base, n)
    ensures !fails(n) && Candidate(base, n) in Present(files, others, n) ==>
              TakenBefore(files, others, fails, base, n + 1)
  {
    hide Candidate, Present;
  }

  lemma FirstCandidates(files: set<string>, others: nat -> Meanwhile, fails: nat -> bool, base: string, n: nat)
    requires n >= 2
    ensures TakenBefore(files, others, fails, base, 0)
    ensures Candidate(base, 0) == base
    ensures Candidate(base, n - 1) == base[..|base| - |Ext(base)|] + "-" + Decimal(n) + Ext(base)
  {
    hide Ext, Decimal;
  }

  datatype Opened = Fresh | Exists | Failed

  datatype Created = Made(name: string, attempts: nat) | Unwritable(attempts: nat) | AllTaken

  class Directory {
    var files: set<string>

    /** os.OpenFile with O_CREATE and O_EXCL: looking and creating are one step. */
    method OpenExclusive(name: string, meanwhile: Meanwhile, fails: bool) returns (r: Opened)
      modifies this
      ensures r == if fails then Failed
                   else if name in old(files) - meanwhile.removed + meanwhile.added then Exists
                   else Fresh
      ensures files == old(files) - meanwhile.removed + meanwhile.added
                       + if r == Fresh then {name} else {}
    {
      files := files - meanwhile.removed + meanwhile.added;
      if fails { return Failed; }
      if name in files { return Exists; }
      files := files + {name};
      return Fresh;
    }

    /** The file made is the first candidate that was not there when it was tried: nothing
        already there is opened, whatever others add or remove meanwhile, and no more than a
        hundred names are tried. */
    method Create(name: string, others: nat -> Meanwhile, fails: nat -> bool) returns (r: Created)
      modifies this
      ensures var base := SafeName(name);
              match r
              case Made(made, k) =>
                && 1 <= k <= 100 && TakenBefore(old(files), others, fails, base, k - 1)
                && made == Candidate(base, k - 1) && made !in Present(old(files), others, k - 1)
                && files == Present(old(files), others, k - 1) + {made}
              case Unwritable(k) =>
                && 1 <= k <= 100 && TakenBefore(old(files), others, fails, base, k - 1)
                && fails(k - 1) && files == Present(old(files), others, k - 1)
              case AllTaken =>
                && TakenBefore(old(files), others, fails, base, 100)
                && files == Present(old(files), others, 99)
    {
      hide SafeName, Present, Ext, Decimal, Candidate, TakenBefore;
      var base := SafeName(name);
      var ext := Ext(base);
      var stem := base[..|base| - |ext|];
      var candidate := base;
      var n := 2;
      FirstCandidates(old(files), others, fails, base, n);
      while true
        invariant 2 <= n <= MAX_TRIES + 1
        invariant candidate == Candidate(base, n - 2)
        invariant TakenBefore(old(files), others, fails, base, n - 2)
        invariant files == if n == 2 then old(files) else Present(old(files), others, n - 3)
        decreases MAX_TRIES + 1 - n
      {
        PresentNext(old(files), others, n - 2);
        TakenNext(old(files), others, fails, base, n - 2);
        var outcome := OpenExclusive(candidate, others(n - 2), fails(n - 2));
        if outcome == Fresh { return Made(candidate, n - 1); }
        if outcome == Failed { return Unwritable(n - 1); }
        if n > MAX_TRIES { return AllTaken; }
        FirstCandidates(old(files), others, fails, base, n);
        candidate := stem + "-" + Decimal(n) + ext;
        n := n + 1;
      }
    }
  }

  /** While others only add, what was there stays there, so a name found free was free from
      the start and no file of anybody's is opened or lost. */
  lemma {:induction false} AddedOnly(files: set<string>, others: nat -> Meanwhile, k: nat)
    requires forall j: nat :: j <= k ==> others(j).removed == {}
    ensures files <= Present(files, others, k)
    ensures forall j: nat :: j <= k ==> others(j).added <= Present(files, others, k)
  {
    if k > 0 {
      AddedOnly(files, others, k - 1);
    }
  }

  function Tried(base: string, k: nat): set<string> {
    set j: nat | j < k :: Candidate(base, j)
  }

  /** All a hundred names being taken means a hundred different files. */
  lemma {:induction false} AllTakenMeansAHundred(base: string, k: nat)
    ensures |Tried(base, k)| == k
  {
    hide Candidate;
    if k > 0 {
      AllTakenMeansAHundred(base, k - 1);
      forall j: nat | j < k - 1 ensures Candidate(base, j) != Candidate(base, k - 1) {
        CandidatesAreDistinct(base, j, k - 1);
      }
      assert Tried(base, k) == Tried(base, k - 1) + {Candidate(base, k - 1)};
    }
  }
}
