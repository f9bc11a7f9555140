/** What holds of every call to Google, whatever Google does. */
module EngineTheorems {
  import opened Outcomes
  import opened Errors
  import opened GoogleModel
  import opened Engine
  import Redact

  function Copies(r: Request, k: nat): (s: seq<Request>)
    ensures |s| == k
    ensures forall i :: 0 <= i < k ==> s[i] == r
  {
    seq(k, i => r)
  }

  // ---- Bounds ----

  /** One call's traffic: at most so many attempts, all of them the same request, and every
      wait above zero and at most thirty seconds. */
  ghost predicate Bounded(before: Net, after: Net, r: Request, attempts: nat, rests: nat) {
    && |before.tried| <= |after.tried| <= |before.tried| + attempts
    && after.tried == before.tried + Copies(r, |after.tried| - |before.tried|)
    && |before.waits| <= |after.waits| <= |before.waits| + rests
    && after.waits[..|before.waits|] == before.waits
    && forall i :: |before.waits| <= i < |after.waits| ==> 0 < after.waits[i] <= MAX_BACKOFF
  }

  /** One more attempt in front, after a wait or without one. */
  lemma BoundedAfter(net: Net, next: Net, out: Net, r: Request, attempts: nat, rests: nat)
    requires Bounded(next, out, r, attempts, rests)
    requires next.tried == net.tried + [r]
    requires next.waits == net.waits || exists d :: 0 < d <= MAX_BACKOFF && next.waits == net.waits + [d]
    ensures Bounded(net, out, r, attempts + 1, rests + |next.waits| - |net.waits|)
  {
    var k := |out.tried| - |next.tried|;
    assert next.tried + Copies(r, k) == net.tried + Copies(r, k + 1);
    assert next.waits[..|net.waits|] == net.waits;
    assert out.waits[..|net.waits|] == out.waits[..|next.waits|][..|net.waits|];
    assert forall i :: |net.waits| <= i < |next.waits| ==>
             out.waits[i] == out.waits[..|next.waits|][i] == next.waits[i];
  }

  lemma {:induction false} LoopIsBounded(r: Request, tries: Retries, w: World, try: nat, last: Option<Error>, net: Net)
    requires try <= tries + 1
    requires try > 0 ==> last.Some?
    ensures Bounded(net, Loop(r, tries, w, try, last, net).0, r, tries + 1 - try,
                    if try == 0 then tries else tries + 1 - try)
    decreases tries + 1 - try
  {
    hide Attempt, ShouldRetry, MarkUnsafeWrite, Backoff;
    var out := Loop(r, tries, w, try, last, net).0;
    if try <= tries {
      var t := w.tick(try);
      var waits := if try > 0 then net.waits + [Backoff(try, last.value, t.jitter)] else net.waits;
      if (try == 0 || t.noRest.None?) && t.noEntry.None? {
        var (g, reply) := Attempt(r, t.move, net.google);
        var next := Net(g, net.tried + [r], waits);
        if reply.res.Err? && ShouldRetry(reply.res.error, r) {
          var hint := Some(RetryHint(reply.res.error, reply.after));
          assert Loop(r, tries, w, try, last, net) == Loop(r, tries, w, try + 1, hint, next);
          LoopIsBounded(r, tries, w, try + 1, hint, next);
          hide Bounded;
          BoundedAfter(net, next, out, r, tries - try, tries - try);
        } else {
          assert out == next;
          assert next.tried == net.tried + Copies(r, 1);
        }
      } else {
        assert out == net.(waits := waits);
        assert net.tried == net.tried + Copies(r, 0);
      }
    } else {
      assert net.tried == net.tried + Copies(r, 0);
    }
  }

  /** The request as it leaves, after the administrator rewrite. */
  function AsSent(ctx: Context, r: Request): Request {
    if IsChat(r) && ctx.admin then AsAdmin(r) else r
  }

  /** Every call makes at most MaxRetries+1 attempts and MaxRetries waits, and every attempt
      carries the same request: the same client-chosen id among the rest. */
  lemma EveryCallIsBounded(ctx: Context, r: Request, tries: Retries, wanted: bool, w: World, net: Net)
    ensures Bounded(net, DoSpec(ctx, r, tries, wanted, w, net).0, AsSent(ctx, r), tries + 1, tries)
  {
    LoopIsBounded(AsSent(ctx, r), tries, w, 0, None, net);
    assert net.tried == net.tried + Copies(AsSent(ctx, r), 0);
  }

  /** What stops a call before anything is sent, in this order: an administrator's Chat call
      that has no admin form, then a write under a dry run, then the want of a token. What is
      not stopped makes its first attempt unless the limiter fails, and every attempt carries
      the call's request, with the privilege and the administrator's scope just for an
      administrator's Chat call. */
  lemma WhatStopsACallAndWhatItSends(ctx: Context, r: Request, tries: Retries, wanted: bool, w: World, net: Net)
    ensures
      var (out, res) := DoSpec(ctx, r, tries, wanted, w, net);
      var asAdmin := ctx.admin && (r.api == ChatAPI || r.api == UploadAPI);
      if asAdmin && r.adminScope == "" then out == net && res == Err(Wrapped(Plain(NoAdminForm)))
      else if ctx.noWrites && r.httpMethod != GET && !r.readOnly then
        out == net && res == Err(Wrapped(Plain(WriteForbidden)))
      else if w.noToken.Some? then out == net && res == Err(w.noToken.value)
      else
        && |net.tried| <= |out.tried|
        && (|net.tried| < |out.tried| <==> w.tick(0).noEntry.None?)
        && forall i :: |net.tried| <= i < |out.tried| ==>
             if asAdmin then
               && out.tried[i].query == r.query["useAdminAccess" := ["true"]]
               && out.tried[i].scope == r.adminScope && out.tried[i].alsoScopes == []
               && out.tried[i] == r.(query := out.tried[i].query, scope := r.adminScope, alsoScopes := [])
             else out.tried[i] == r
  {
    EveryCallIsBounded(ctx, r, tries, wanted, w, net);
    if w.noToken.None? {
      LoopBegins(AsSent(ctx, r), tries, w, net);
    }
    hide Loop;
  }

  lemma LoopBegins(r: Request, tries: Retries, w: World, net: Net)
    ensures var out := Loop(r, tries, w, 0, None, net).0;
            |net.tried| < |out.tried| <==> w.tick(0).noEntry.None?
  {
    hide Attempt, ShouldRetry, MarkUnsafeWrite, Backoff;
    var t := w.tick(0);
    if t.noEntry.None? {
      var (g, reply) := Attempt(r, t.move, net.google);
      var next := net.(google := g, tried := net.tried + [r]);
      if reply.res.Err? && ShouldRetry(reply.res.error, r) {
        LoopIsBounded(r, tries, w, 1, Some(RetryHint(reply.res.error, reply.after)), next);
      }
    }
  }

  /** What each move is told apart by: errors.Is and errors.As find in the error of an attempt
      what became of it. */
  lemma EachMoveHasItsError(r: Request, m: Move, g: Google)
    ensures
      var (g', reply) := Attempt(r, m, g);
      reply.res.Err? ==>
        var e := reply.res.error;
        match m
        case Unsent => Is(e, HostNotAllowed) && AsApi(e).None?
        case NoDial(canceled) =>
          AsApi(e).None? && AsNet(e) == Some("dial") && (Is(e, Canceled) <==> canceled) && !MayHaveApplied(e)
        case Cut(_, canceled) =>
          && AsApi(e).None? && (Is(e, Canceled) <==> canceled) && (!canceled ==> AsNet(e) == Some("read"))
          && (MayHaveApplied(e) <==> !SafeToRepeat(r) && !r.repeatHarmless)
        case Oversize(_) => AsApi(e).None? && Is(e, ResponseTooLarge)
        case Refuse(status, body, _) => Answered(r, g', status, body, e)
        case Fail(status, _, body, _) => Answered(r, g', status, body, e)
        case Answer(_) => AsApi(e) == Some(e) && (e.status == 404 || e.status == 409)
  {
  }

  /** The error of an answer: its status, the reasons and the message of its body, and the
      scopes of the call, but for a not found about something that is there. */
  predicate Answered(r: Request, g: Google, status: int, body: Option<Envelope>, e: Error) {
    && AsApi(e) == Some(e) && e.scope == r.scope && e.alsoScopes == r.alsoScopes && !e.mayHaveApplied
    && (e.status == status || (status == 404 && e.status == 400))
    && (!((r.act.Fetches? || r.act.Removes?) && g.There(r.act.target) && g.Shows(r.act.target, Privileged(r))) ==>
          && e.status == status
          && (body.Some? && body.value.status != "" ==> e.code == body.value.status)
          && (body.Some? ==>
                && e.reason == FirstNonEmpty(body.value.details + body.value.errors)
                && e.message == Redact.Accounts(body.value.message)))
  }

  // ---- A write that is not safe to repeat ----

  /** The move the run ended on, after k attempts. */
  function FinalMove(w: World, k: nat): Move
    requires k > 0
  {
    w.tick(k - 1).move
  }

  /** One attempt at such a write: it changes at most one thing, only a refusal that changed
      nothing is tried again, and what ends the run is marked when it may have landed. */
  lemma UnsafeAttempt(r: Request, m: Move, g: Google)
    requires !SafeToRepeat(r) && Coherent(r)
    ensures
      var (g', reply) := Attempt(r, m, g);
      && g.applied <= g'.applied <= g.applied + 1
      && (reply.res.Ok? <==> m.Answer?)
      && (reply.res.Ok? ==> g'.applied == g.applied + 1)
      && (reply.res.Err? && ShouldRetry(reply.res.error, r) ==>
            m.Refuse? && g' == g && !MayHaveApplied(reply.res.error))
      && (reply.res.Err? && !ShouldRetry(reply.res.error, r) ==>
            var e := MarkUnsafeWrite(reply.res.error, r);
            && (MayHaveApplied(e) <==> !r.repeatHarmless && (m.Cut? || m.Fail?))
            && (g' != g ==> m.Cut? || m.Oversize? || m.Fail?))
  {
  }

  /** How a run that starts at pass `from` went, by the move it ended on. */
  ghost predicate OnceAndTold(r: Request, w: World, from: nat, before: Net, after: Net, res: Result<Body, Error>)
  {
    var k := from + |after.tried| - |before.tried|;
    && before.google.applied <= after.google.applied <= before.google.applied + 1
    && (res.Ok? ==> after.google.applied == before.google.applied + 1 && k > 0 && FinalMove(w, k).Answer?)
    && (res.Err? && after.google != before.google ==>
          k > 0 && (FinalMove(w, k).Cut? || FinalMove(w, k).Oversize? || FinalMove(w, k).Fail?)
          && (MayHaveApplied(res.error) <==> !r.repeatHarmless && !FinalMove(w, k).Oversize?))
    && (res.Err? && MayHaveApplied(res.error) ==>
          !r.repeatHarmless && k > 0 && (FinalMove(w, k).Cut? || FinalMove(w, k).Fail?))
  }

  /** An attempt that changed nothing counts among the run's. */
  lemma ToldLater(r: Request, w: World, from: nat, before: Net, next: Net, after: Net, res: Result<Body, Error>)
    requires next.google == before.google && |next.tried| == |before.tried| + 1 && |next.tried| <= |after.tried|
    requires OnceAndTold(r, w, from + 1, next, after, res)
    ensures OnceAndTold(r, w, from, before, after, res)
  {
    hide MayHaveApplied, FinalMove;
  }

  lemma {:induction false} LoopOnceAndTold(r: Request, tries: Retries, w: World, try: nat, last: Option<Error>,
                                           net: Net)
    requires !SafeToRepeat(r) && Coherent(r)
    requires try <= tries + 1
    requires try > 0 ==> last.Some? && last.value.RetryHint? && !MayHaveApplied(last.value.err)
    ensures var (out, res) := Loop(r, tries, w, try, last, net);
            |net.tried| <= |out.tried| && OnceAndTold(r, w, try, net, out, res)
    decreases tries + 1 - try
  {
    hide Attempt, ShouldRetry, MarkUnsafeWrite, Coherent, SafeToRepeat, Backoff;
    if try <= tries {
      var t := w.tick(try);
      var waits := if try > 0 then net.waits + [Backoff(try, last.value, t.jitter)] else net.waits;
      if (try == 0 || t.noRest.None?) && t.noEntry.None? {
        UnsafeAttempt(r, t.move, net.google);
        var (g, reply) := Attempt(r, t.move, net.google);
        var next := Net(g, net.tried + [r], waits);
        if reply.res.Err? && ShouldRetry(reply.res.error, r) {
          var hint := Some(RetryHint(reply.res.error, reply.after));
          assert Loop(r, tries, w, try, last, net) == Loop(r, tries, w, try + 1, hint, next);
          LoopOnceAndTold(r, tries, w, try + 1, hint, next);
          var (out, res) := Loop(r, tries, w, try + 1, hint, next);
          hide OnceAndTold;
          ToldLater(r, w, try, net, next, out, res);
        } else {
          assert Loop(r, tries, w, try, last, net).0 == next;
          assert FinalMove(w, try + 1) == t.move;
        }
      } else {
        assert Loop(r, tries, w, try, last, net).0 == net.(waits := waits);
      }
    }
  }

  /** The failures that are not of an attempt say nothing of a write. */
  lemma OwnFailuresSayNothing()
    ensures !MayHaveApplied(Plain(Undecodable)) && !MayHaveApplied(Wrapped(Plain(NoAdminForm)))
    ensures !MayHaveApplied(Wrapped(Plain(WriteForbidden)))
    ensures forall e: Stop :: !MayHaveApplied(e)
  {
  }

  /** A write not safe to repeat is applied at most once in every run, and exactly once when
      the call succeeds. When it was applied and the call fails all the same, the error says
      it may have been, except in three cases: an upload, whose repeat is harmless and says
      nothing; an answer too large to read; and an answer that does not decode. A failure
      that says so ended on a broken connection or a 5xx. */
  lemma AtMostOnceAndTold(ctx: Context, r: Request, tries: Retries, wanted: bool, w: World, net: Net)
    requires !SafeToRepeat(r) && Coherent(r)
    ensures
      var (out, res) := DoSpec(ctx, r, tries, wanted, w, net);
      var k := |out.tried| - |net.tried|;
      && 0 <= k
      && net.google.applied <= out.google.applied <= net.google.applied + 1
      && (res.Ok? ==> out.google.applied == net.google.applied + 1)
      && (res.Err? && out.google.applied > net.google.applied ==>
            k > 0 && (MayHaveApplied(res.error) <==>
                      !r.repeatHarmless && !FinalMove(w, k).Oversize? && !FinalMove(w, k).Answer?))
      && (res.Err? && MayHaveApplied(res.error) ==>
            k > 0 && !r.repeatHarmless && (FinalMove(w, k).Cut? || FinalMove(w, k).Fail?))
  {
    hide MayHaveApplied, Loop;
    LoopOnceAndTold(AsSent(ctx, r), tries, w, 0, None, net);
    OwnFailuresSayNothing();
  }

  /** Both silent exits happen: a create applied once whose oversized or undecodable answer
      comes back as an error that does not say it may have been applied. */
  lemma SilentExitsExist(r: Request, net: Net, p: Payload)
    requires !SafeToRepeat(r) && Coherent(r) && !r.repeatHarmless && !p.decodes
    ensures var large := World(None, _ => Tick(None, None, 0, Oversize(true)));
            var (out, res) := DoSpec(Context(false, false), r, 0, true, large, net);
            out.google.applied == net.google.applied + 1 && res.Err? && !MayHaveApplied(res.error)
    ensures var garbled := World(None, _ => Tick(None, None, 0, Answer(p)));
            var (out, res) := DoSpec(Context(false, false), r, 0, true, garbled, net);
            out.google.applied == net.google.applied + 1 && res.Err? && !MayHaveApplied(res.error)
  {
  }

  // ---- What the retries are for ----

  /** An answer that carried nothing out: the chosen name is taken, or the target is not
      there, as far as this request is shown. */
  predicate AnsweredNo(r: Request, g: Google, e: Error) {
    || (r.act.CreatesAs? && IsAlreadyExists(e) && r.act.target in g.stored)
    || (r.act.Fetches? && IsAlreadyGone(e) && !(r.act.target in g.stored && g.Shows(r.act.target, Privileged(r))))
    || (r.act.Removes? && IsAlreadyGone(e) && !(g.There(r.act.target) && g.Shows(r.act.target, Privileged(r))))
  }

  /** A transient move ends no call. */
  lemma TransientGoesOn(r: Request, m: Move, g: Google)
    requires Coherent(r) && Transient(r, m)
    ensures var res := Attempt(r, m, g).1.res;
            res.Err? && ShouldRetry(res.error, r)
  {
    RetryTable(r, m, g);
  }

  /** An answer ends it, with what it says. */
  lemma AnswerEnds(r: Request, m: Move, g: Google)
    requires Coherent(r) && m.Answer?
    ensures var (g', reply) := Attempt(r, m, g);
            && (reply.res.Ok? ==> reply.res.value.payload == m.payload)
            && (reply.res.Err? ==>
                  && !ShouldRetry(reply.res.error, r) && MarkUnsafeWrite(reply.res.error, r) == reply.res.error
                  && AnsweredNo(r, g', reply.res.error))
  {
  }

  lemma {:induction false} LoopPersists(r: Request, tries: Retries, w: World, try: nat, last: Option<Error>, net: Net,
                                        k: nat)
    requires Coherent(r)
    requires try <= k <= tries
    requires try > 0 ==> last.Some?
    requires forall i :: try <= i <= k ==> w.tick(i).noRest.None? && w.tick(i).noEntry.None?
    requires forall i :: try <= i < k ==> Transient(r, w.tick(i).move)
    requires w.tick(k).move.Answer?
    ensures var (out, res) := Loop(r, tries, w, try, last, net);
            && |out.tried| == |net.tried| + k - try + 1
            && (res.Err? ==> AnsweredNo(r, out.google, res.error))
            && (res.Ok? ==> res.value.payload == w.tick(k).move.payload)
    decreases k - try
  {
    hide Attempt, ShouldRetry, MarkUnsafeWrite, Backoff, Transient, Coherent, AnsweredNo;
    var t := w.tick(try);
    var waits := if try > 0 then net.waits + [Backoff(try, last.value, t.jitter)] else net.waits;
    var (g, reply) := Attempt(r, t.move, net.google);
    var next := Net(g, net.tried + [r], waits);
    if try < k {
      TransientGoesOn(r, t.move, net.google);
      var hint := Some(RetryHint(reply.res.error, reply.after));
      assert Loop(r, tries, w, try, last, net) == Loop(r, tries, w, try + 1, hint, next);
      LoopPersists(r, tries, w, try + 1, hint, next, k);
    } else {
      AnswerEnds(r, t.move, net.google);
      assert Loop(r, tries, w, try, last, net) == (next, reply.res);
    }
  }

  /** A call rides out its transient failures: if Google answers at attempt k within the
      budget and everything before it was transient for this request, the call has exactly
      that answer after exactly k+1 attempts, if only that its chosen name is taken or its
      target not there. */
  lemma TransientFailuresAreRiddenOut(ctx: Context, r: Request, tries: Retries, w: World, net: Net, k: nat)
    requires Coherent(r)
    requires w.noToken.None? && !(ctx.noWrites && IsWrite(r)) && !(ctx.admin && IsChat(r) && r.adminScope == "")
    requires k <= tries && w.tick(k).move.Answer?
    requires forall i :: 0 <= i <= k ==> w.tick(i).noRest.None? && w.tick(i).noEntry.None?
    requires forall i :: 0 <= i < k ==> Transient(r, w.tick(i).move)
    ensures var (out, res) := SendSpec(ctx, r, tries, w, net);
            && |out.tried| == |net.tried| + k + 1
            && (res.Err? ==> AnsweredNo(AsSent(ctx, r), out.google, res.error))
            && (res.Ok? ==> res.value.payload == w.tick(k).move.payload)
  {
    assert forall i :: 0 <= i < k ==> Transient(AsSent(ctx, r), w.tick(i).move);
    LoopPersists(AsSent(ctx, r), tries, w, 0, None, net, k);
  }
}
