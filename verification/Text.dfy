/** The few string operations of Go's standard library that the error rules compare with. */
module Text {

  predicate HasPrefix(s: string, prefix: string) {
    prefix <= s
  }

  predicate Contains(s: string, part: string) {
    exists i :: 0 <= i <= |s| && HasPrefix(s[i..], part)
  }

  /** Go's simple lower-casing, on every character whose lower case is an ASCII letter.
      Comparing with an ASCII constant cannot tell it from the full table. */
  function LowerChar(c: char): char {
    if 'A' <= c <= 'Z' then (c as int + 32) as char
    else if c == '\U{212A}' then 'k'
    else if c == '\U{0130}' then 'i'
    else c
  }

  function Lower(s: string): (r: string)
    ensures |r| == |s|
    ensures forall i :: 0 <= i < |s| ==> r[i] == LowerChar(s[i])
  {
    seq(|s|, i requires 0 <= i < |s| => LowerChar(s[i]))
  }

  /** Go's simple folding, with the same reservation: the Kelvin sign folds to k and the
      long s to s, and no other character outside ASCII folds to an ASCII letter. */
  function FoldChar(c: char): char {
    if 'A' <= c <= 'Z' then (c as int + 32) as char
    else if c == '\U{212A}' then 'k'
    else if c == '\U{017F}' then 's'
    else c
  }

  predicate EqualFold(a: string, b: string) {
    |a| == |b| && forall i :: 0 <= i < |a| ==> FoldChar(a[i]) == FoldChar(b[i])
  }

  /** The string without the character. */
  function Without(s: string, c: char): (r: string)
    ensures c !in r
  {
    if s == "" then "" else if s[0] == c then Without(s[1..], c) else [s[0]] + Without(s[1..], c)
  }
}
