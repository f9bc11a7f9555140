/** The waits of a whole call, told by what Google did before each. */
module Waits {
  import opened Outcomes
  import opened Errors
  import opened GoogleModel
  import opened Engine
  import opened EngineTheorems

  /** How long Google asked to wait, when it answered. */
  function Asked(m: Move): int {
    match m
    case Refuse(_, _, after) => after
    case Fail(_, _, _, after) => after
    case _ => 0
  }

  function Min(a: int, b: int): int {
    if a < b then a else b
  }

  /** The wait that follows a move and comes before that attempt, counted from zero: what
      Google asked, up to thirty seconds, and else within the upper half of what doubles from
      half a second. */
  predicate WaitFollows(m: Move, attempt: nat, d: int)
    requires attempt >= 1
  {
    var base := Min(500_000_000 * Pow2(attempt - 1), 30_000_000_000);
    if Asked(m) > 0 then d == Min(Asked(m), 30_000_000_000) else base / 2 <= d <= base
  }

  lemma BackoffFollows(m: Move, attempt: nat, e: Error, jitter: nat)
    requires 1 <= attempt <= 10
    ensures WaitFollows(m, attempt, Backoff(attempt, RetryHint(e, Asked(m)), jitter))
  {
    hide Pow2, Shl64;
    assert AsHint(RetryHint(e, Asked(m))) == Some(Asked(m));
  }

  /** An attempt's reply carries what was asked with it. */
  lemma TheHintIsGooglesOwn(r: Request, m: Move, g: Google)
    ensures var reply := Attempt(r, m, g).1;
            reply.res.Err? ==> reply.after == Asked(m)
  {
  }

  /** It follows the move of the attempt before. */
  predicate WaitBefore(w: World, attempt: nat, d: int)
    requires attempt >= 1
  {
    WaitFollows(w.tick(attempt - 1).move, attempt, d)
  }

  /** The waits a run added, the first of them before that attempt. */
  ghost predicate FollowMoves(w: World, from: nat, before: Net, after: Net)
    requires from >= 1
  {
    && |before.waits| <= |after.waits| && after.waits[..|before.waits|] == before.waits
    && forall i: nat :: |before.waits| <= i < |after.waits| ==>
         WaitBefore(w, from + i - |before.waits|, after.waits[i])
  }

  /** How many, for so many attempts: one before each but the first, and one more when the call
      stopped in it or after it. */
  predicate WaitsBetween(first: bool, before: Net, after: Net, ok: bool) {
    var waits, attempts := |after.waits| - |before.waits|, |after.tried| - |before.tried|;
    if first then
      && (attempts == 0 ==> waits == 0)
      && (attempts > 0 ==> waits == attempts - 1 || (waits == attempts && !ok))
    else waits == attempts || (waits == attempts + 1 && !ok)
  }

  lemma WaitInFront(w: World, from: nat, net: Net, next: Net, out: Net, d: int)
    requires from >= 1 && FollowMoves(w, from + 1, next, out)
    requires next.waits == net.waits + [d] && WaitFollows(w.tick(from - 1).move, from, d)
    ensures FollowMoves(w, from, net, out)
  {
    hide WaitFollows;
    assert out.waits[..|net.waits|] == out.waits[..|next.waits|][..|net.waits|];
    forall i: nat | |net.waits| <= i < |out.waits| ensures WaitBefore(w, from + i - |net.waits|, out.waits[i]) {
      if i == |net.waits| {
        assert out.waits[i] == out.waits[..|next.waits|][i] == d;
      } else {
        assert WaitBefore(w, from + 1 + i - |next.waits|, out.waits[i]);
      }
    }
  }

  lemma {:induction false} LoopWaits(r: Request, tries: Retries, w: World, try: nat, last: Option<Error>, net: Net)
    requires try <= tries + 1
    requires try > 0 ==> last.Some? && last.value.RetryHint? && last.value.after == Asked(w.tick(try - 1).move)
    ensures var (out, res) := Loop(r, tries, w, try, last, net);
            && FollowMoves(w, if try == 0 then 1 else try, net, out)
            && (try <= tries ==> WaitsBetween(try == 0, net, out, res.Ok?))
            && (try > tries ==> out == net && res.Err?)
    decreases tries + 1 - try
  {
    hide Attempt, ShouldRetry, MarkUnsafeWrite, Backoff, WaitFollows, Asked, Unhinted;
    if try <= tries {
      var t := w.tick(try);
      if try > 0 {
        BackoffFollows(w.tick(try - 1).move, try, last.value.err, t.jitter);
      }
      var waits := if try > 0 then net.waits + [Backoff(try, last.value, t.jitter)] else net.waits;
      if (try == 0 || t.noRest.None?) && t.noEntry.None? {
        var (g, reply) := Attempt(r, t.move, net.google);
        TheHintIsGooglesOwn(r, t.move, net.google);
        var next := Net(g, net.tried + [r], waits);
        if reply.res.Err? && ShouldRetry(reply.res.error, r) {
          var hint := Some(RetryHint(reply.res.error, reply.after));
          assert Loop(r, tries, w, try, last, net) == Loop(r, tries, w, try + 1, hint, next);
          LoopWaits(r, tries, w, try + 1, hint, next);
          var out := Loop(r, tries, w, try + 1, hint, next).0;
          if try > 0 {
            hide FollowMoves;
            WaitInFront(w, try, net, next, out, Backoff(try, last.value, t.jitter));
          }
        } else {
          assert Loop(r, tries, w, try, last, net).0 == next;
        }
      } else {
        assert Loop(r, tries, w, try, last, net).0 == net.(waits := waits);
      }
    }
  }

  /** Over every run of every call, wait i follows the move of attempt i, both counted from
      zero: it is what that answer asked for, or thirty seconds if that is less, and without
      anything asked it is between half and all of half a second doubled i times. There is one
      before each attempt but the first, and one more only in a call that stopped there. */
  lemma EveryWaitIsWhatGoogleAsked(ctx: Context, r: Request, tries: Retries, wanted: bool, w: World, net: Net)
    ensures var (out, res) := DoSpec(ctx, r, tries, wanted, w, net);
            && |net.waits| <= |out.waits| && out.waits[..|net.waits|] == net.waits
            && (forall i: nat :: |net.waits| <= i < |out.waits| ==>
                  WaitBefore(w, i - |net.waits| + 1, out.waits[i]))
            && WaitsBetween(true, net, out, res.Ok?)
  {
    hide WaitFollows, Loop;
    LoopWaits(AsSent(ctx, r), tries, w, 0, None, net);
    var out := DoSpec(ctx, r, tries, wanted, w, net).0;
    forall i: nat | |net.waits| <= i < |out.waits| ensures WaitBefore(w, i - |net.waits| + 1, out.waits[i]) {
      assert WaitBefore(w, 1 + i - |net.waits|, out.waits[i]);
    }
  }

  /** The jitter is what keeps calls that failed together apart: without a hint every wait from
      half the base to all of it is one a draw from 0 up to half the base gives. */
  lemma EveryWaitCanBeDrawn(attempt: nat, last: Error, d: int) returns (jitter: nat)
    requires 1 <= attempt <= 10 && (AsHint(last).None? || AsHint(last).value <= 0)
    requires Base(attempt) / 2 <= d <= Base(attempt) / 2 * 2
    ensures Backoff(attempt, last, jitter) == d && jitter <= Base(attempt) / 2
  {
    hide Pow2, Shl64;
    ShiftDoesNotWrap(attempt);
    jitter := d - Base(attempt) / 2;
    Drawn(jitter, Base(attempt) / 2);
  }

  lemma Drawn(jitter: nat, half: nat)
    requires jitter <= half
    ensures jitter % (half + 1) == jitter
  {
  }
}
