/** Go's order on strings, and sorting by it. */
module Sorting {

  /** Bytewise order, which on UTF-8 is the order of the characters. */
  predicate AtMost(a: string, b: string) {
    a == "" || (b != "" && (a[0] < b[0] || (a[0] == b[0] && AtMost(a[1..], b[1..]))))
  }

  lemma {:induction false} Total(a: string, b: string)
    ensures AtMost(a, b) || AtMost(b, a)
    ensures AtMost(a, b) && AtMost(b, a) ==> a == b
  {
    if a != "" && b != "" && a[0] == b[0] {
      Total(a[1..], b[1..]);
      assert a == [a[0]] + a[1..] && b == [b[0]] + b[1..];
    }
  }

  lemma {:induction false} Transitive(a: string, b: string, c: string)
    requires AtMost(a, b) && AtMost(b, c)
    ensures AtMost(a, c)
  {
    if a != "" && a[0] == b[0] && b[0] == c[0] {
      Transitive(a[1..], b[1..], c[1..]);
    }
  }

  /** A string that goes on is after one that ends, and otherwise the first difference decides. */
  lemma {:induction false} TheFirstDifferenceDecides(a: string, b: string, k: nat)
    requires k <= |a| && k <= |b| && a[..k] == b[..k]
    requires (k == |a| || k == |b|) || a[k] != b[k]
    ensures AtMost(a, b) <==> k == |a| || (k < |b| && a[k] < b[k])
  {
    if k > 0 {
      assert a[0] == a[..k][0] == b[..k][0] == b[0];
      assert a[1..][..k - 1] == a[..k][1..] == b[..k][1..] == b[1..][..k - 1];
      TheFirstDifferenceDecides(a[1..], b[1..], k - 1);
    }
  }

  predicate Sorted(s: seq<string>) {
    forall i, j :: 0 <= i < j < |s| ==> AtMost(s[i], s[j])
  }

  function Insert(x: string, s: seq<string>): seq<string> {
    if s == [] || AtMost(x, s[0]) then [x] + s else [s[0]] + Insert(x, s[1..])
  }

  lemma {:induction false} InsertKeeps(x: string, s: seq<string>)
    ensures multiset(Insert(x, s)) == multiset(s) + multiset{x}
  {
    if s != [] && !AtMost(x, s[0]) {
      InsertKeeps(x, s[1..]);
      assert s == [s[0]] + s[1..];
    }
  }

  lemma FirstIsLeast(x: string, s: seq<string>)
    requires Sorted(s) && (s != [] ==> AtMost(x, s[0]))
    ensures Sorted([x] + s)
  {
    forall j | 0 <= j < |s| ensures AtMost(x, s[j]) {
      if j > 0 {
        Transitive(x, s[0], s[j]);
      }
    }
  }

  lemma {:induction false} InsertSorts(x: string, s: seq<string>)
    requires Sorted(s)
    ensures Sorted(Insert(x, s))
  {
    hide AtMost;
    if s == [] || AtMost(x, s[0]) {
      FirstIsLeast(x, s);
    } else {
      var rest := Insert(x, s[1..]);
      InsertSorts(x, s[1..]);
      InsertKeeps(x, s[1..]);
      assert rest[0] in multiset(rest);
      Total(x, s[0]);
      assert AtMost(s[0], rest[0]);
      FirstIsLeast(s[0], rest);
    }
  }

  /** slices.Sort and sort.Strings, as far as their result goes. */
  function Sort(s: seq<string>): (r: seq<string>)
    ensures Sorted(r)
    ensures multiset(r) == multiset(s)
  {
    if s == [] then []
    else
      assert s == s[..|s| - 1] + [s[|s| - 1]];
      var rest := Sort(s[..|s| - 1]);
      InsertKeeps(s[|s| - 1], rest);
      InsertSorts(s[|s| - 1], rest);
      Insert(s[|s| - 1], rest)
  }

  lemma SortKeepsMembers(s: seq<string>)
    ensures |Sort(s)| == |s|
    ensures forall x :: x in Sort(s) <==> x in s
    ensures Distinct(s) ==> Distinct(Sort(s))
  {
    var r := Sort(s);
    assert |multiset(r)| == |r| && |multiset(s)| == |s|;
    forall x ensures x in r <==> x in s {
      assert x in r <==> x in multiset(r);
      assert x in s <==> x in multiset(s);
    }
    if Distinct(s) {
      forall x ensures multiset(r)[x] <= 1 {
        DistinctCounts(s, x);
      }
      CountsDistinct(r);
    }
  }

  predicate Distinct(s: seq<string>) {
    forall i, j :: 0 <= i < j < |s| ==> s[i] != s[j]
  }

  lemma {:induction false} DistinctCounts(s: seq<string>, x: string)
    requires Distinct(s)
    ensures multiset(s)[x] <= 1
  {
    if s != [] {
      DistinctCounts(s[1..], x);
      assert s == [s[0]] + s[1..];
      if s[0] == x {
        assert x !in s[1..];
      }
    }
  }

  lemma CountsDistinct(s: seq<string>)
    requires forall x :: multiset(s)[x] <= 1
    ensures Distinct(s)
  {
    forall i, j | 0 <= i < j < |s| ensures s[i] != s[j] {
      assert s == s[..j] + [s[j]] + s[j + 1..];
      assert multiset(s) == multiset(s[..j]) + multiset{s[j]} + multiset(s[j + 1..]);
      assert s[..j][i] == s[i];
      assert s[i] in multiset(s[..j]);
      assert multiset(s)[s[j]] >= multiset(s[..j])[s[j]] + 1;
    }
  }

  /** slices.Compact: each run of equal strings kept once. */
  function Compact(s: seq<string>): (r: seq<string>)
    ensures s != [] ==> r != [] && r[|r| - 1] == s[|s| - 1]
    ensures forall x :: x in r <==> x in s
  {
    if |s| <= 1 then s
    else
      var rest := Compact(s[..|s| - 1]);
      assert forall x :: x in s <==> x in s[..|s| - 1] || x == s[|s| - 1];
      if s[|s| - 1] == s[|s| - 2] then rest else rest + [s[|s| - 1]]
  }

  /** Sorted and without repeats. */
  predicate Strict(s: seq<string>) {
    forall i, j :: 0 <= i < j < |s| ==> AtMost(s[i], s[j]) && s[i] != s[j]
  }

  lemma {:induction false} CompactIsStrict(s: seq<string>)
    requires Sorted(s)
    ensures Strict(Compact(s))
  {
    if |s| > 1 {
      var n := |s| - 1;
      CompactIsStrict(s[..n]);
      var rest := Compact(s[..n]);
      if s[n] != s[n - 1] {
        assert rest[|rest| - 1] == s[n - 1];
        forall i | 0 <= i < |rest| ensures AtMost(rest[i], s[n]) && rest[i] != s[n] {
          assert rest[i] in s[..n];
          assert i < |rest| - 1 ==> AtMost(rest[i], rest[|rest| - 1]);
          Total(rest[i], rest[|rest| - 1]);
          Total(s[n], s[n - 1]);
        }
      }
    }
  }

  /** A strictly sorted sequence is determined by its members. */
  lemma {:induction false} StrictIsUnique(a: seq<string>, b: seq<string>)
    requires Strict(a) && Strict(b)
    requires forall x :: x in a <==> x in b
    ensures a == b
  {
    assert b != [] ==> b[0] in b;
    if a != [] {
      assert a[0] in b && b != [];
      assert b[0] in a;
      var i :| 0 <= i < |b| && b[i] == a[0];
      var j :| 0 <= j < |a| && a[j] == b[0];
      Total(a[0], b[0]);
      assert a[0] == b[0];
      forall x ensures x in a[1..] <==> x in b[1..] {
        if x in a[1..] {
          var k :| 0 <= k < |a| - 1 && a[1..][k] == x;
          assert a[k + 1] == x && x in b && x != b[0];
        }
        if x in b[1..] {
          var k :| 0 <= k < |b| - 1 && b[1..][k] == x;
          assert b[k + 1] == x && x in a && x != a[0];
        }
      }
      StrictIsUnique(a[1..], b[1..]);
    }
  }

  /** Sorting, dropping repeats and comparing decides equality of the sets. */
  lemma {:induction false} SortCompactEqualIsSetEquality(a: seq<string>, b: seq<string>)
    ensures Compact(Sort(a)) == Compact(Sort(b)) <==> forall x :: x in a <==> x in b
  {
    SortKeepsMembers(a);
    SortKeepsMembers(b);
    CompactIsStrict(Sort(a));
    CompactIsStrict(Sort(b));
    var x, y := Compact(Sort(a)), Compact(Sort(b));
    if forall z :: z in a <==> z in b {
      StrictIsUnique(x, y);
    }
    if x == y {
      forall z ensures z in a <==> z in b {
        assert z in x <==> z in y;
      }
    }
  }
}
