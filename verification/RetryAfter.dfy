/** What becomes of the Retry-After header a server sends. */
module RetryAfter {
  import opened Outcomes
  import opened Errors
  import opened Engine

  const SECOND := 1_000_000_000

  /** What fits in a Go time.Duration. */
  type Int64 = n: int | -0x8000_0000_0000_0000 <= n < 0x8000_0000_0000_0000

  /** What an amd64 machine gives for a number that does not fit. */
  const LEAST: Int64 := -0x8000_0000_0000_0000

  /** The header as Go reads it: a number that parses, one that is infinite, a date so many
      nanoseconds from now, or anything else. */
  datatype Header = Absent | Number(secs: real) | Infinite | Date(away: Int64) | Unreadable

  /** The nanoseconds a number of seconds comes to. */
  function Nanos(secs: real): int {
    (secs * SECOND as real).Floor
  }

  /** A conversion that does not fit an integer gives whatever the machine gives. */
  function ParseRetryAfter(h: Header, unfit: Int64): Int64 {
    match h
    case Number(secs) =>
      if secs <= 0.0 then 0
      else if Nanos(secs) < 0x8000_0000_0000_0000 then Positive(secs); Nanos(secs)
      else unfit
    case Infinite => unfit
    case Date(away) => if away > 0 then away else 0
    case _ => 0
  }

  lemma Positive(secs: real)
    requires secs > 0.0
    ensures Nanos(secs) >= 0
  {
  }

  /** The wait keeps what the header asks: that long, or the longest there is. */
  predicate Keeps(h: Header, d: int) {
    match h
    case Number(secs) => d >= Nanos(secs) || d >= MAX_BACKOFF
    case Infinite => d >= MAX_BACKOFF
    case Date(away) => d >= away || d >= MAX_BACKOFF
    case _ => true
  }

  /** A number of seconds that fits a duration. */
  predicate Fits(h: Header) {
    !h.Infinite? && (h.Number? ==> Nanos(h.secs) < 0x8000_0000_0000_0000)
  }

  /** What the header asks is kept, on every machine and with any jitter, exactly when it fits a
      duration. One that does not may come out negative, and is then not waited for. */
  lemma HintSurvivesExactly(h: Header, attempt: nat, e: Error)
    requires 1 <= attempt <= 10
    ensures (forall unfit: Int64, jitter: nat ::
               Keeps(h, Backoff(attempt, RetryHint(e, ParseRetryAfter(h, unfit)), jitter)))
            <==> Fits(h)
  {
    hide Base, Shl64;
    if Fits(h) {
      forall unfit: Int64, jitter: nat
        ensures Keeps(h, Backoff(attempt, RetryHint(e, ParseRetryAfter(h, unfit)), jitter))
      {
      }
    } else {
      NegativeIsIgnored(attempt, e);
      assert !Keeps(h, Backoff(attempt, RetryHint(e, ParseRetryAfter(h, LEAST)), 0));
    }
  }

  lemma NegativeIsIgnored(attempt: nat, e: Error)
    requires 1 <= attempt <= 10
    ensures Backoff(attempt, RetryHint(e, LEAST), 0) < MAX_BACKOFF
  {
    hide Shl64, Pow2, Base;
    var shifted := Shl64(BASE_BACKOFF, attempt - 1);
    var base := if shifted > MAX_BACKOFF then MAX_BACKOFF else shifted;
    ShiftDoesNotWrap(attempt);
    Least(base);
    assert AsHint(RetryHint(e, LEAST)) == Some(LEAST);
  }

  lemma Least(base: int)
    requires 0 < base <= MAX_BACKOFF
    ensures base / 2 + 0 % (base / 2 + 1) == base / 2 < MAX_BACKOFF
  {
  }
}
