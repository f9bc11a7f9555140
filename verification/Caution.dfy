/** What a failed send says about whether its message was posted. */
module Caution {
  import opened Outcomes
  import opened Errors
  import opened GoogleModel
  import opened Engine
  import opened EngineTheorems
  import opened Messages
  import E = CallEffects

  /** sendFailure warns that the message may have been posted, and names the id to send
      again with, for a failure of Google's or none it knows, unless the call was canceled. */
  predicate Cautioned(e: Error) {
    (Classify(e) == ClassServer || Classify(e) == ClassUnexpected) && !Is(e, Canceled)
  }

  // ---- How a call ends ----

  /** A call that never began, one stopped before its next attempt, or one that ended on what
      happened to its last. */
  datatype Ending = Never(why: Error) | Stopped(why: Error) | On(m: Move)

  /** How the loop ended after k attempts, read off the world alone. */
  function LoopEnding(r: Request, tries: Retries, w: World, k: nat): Ending {
    if k > 0 && (k > tries || !Transient(r, FinalMove(w, k))) then On(FinalMove(w, k))
    else if k > 0 && w.tick(k).noRest.Some? then Stopped(w.tick(k).noRest.value)
    else if w.tick(k).noEntry.Some? then Stopped(w.tick(k).noEntry.value)
    else Stopped(Plain(Canceled))
  }

  /** How a call ended that made k attempts. */
  function EndingOf(ctx: Context, r: Request, tries: Retries, w: World, k: nat): Ending {
    if IsChat(r) && ctx.admin && r.adminScope == "" then Never(Wrapped(Plain(NoAdminForm)))
    else if IsWrite(r) && ctx.noWrites then Never(Wrapped(Plain(WriteForbidden)))
    else if w.noToken.Some? then Never(w.noToken.value)
    else LoopEnding(AsSent(ctx, r), tries, w, k)
  }

  /** The move leaves open what Google did, as the error it ends in tells it: nothing readable
      came back, the request never left, or Google failed without saying why. */
  predicate LeavesOpen(r: Request, m: Move, g: Google) {
    match m
    case Refuse(_, _, _) => false
    case NoDial(canceled) => !canceled
    case Cut(_, canceled) => !canceled
    case Fail(status, _, env, _) =>
      var e := Honest(g, r.act, Privileged(r), ParseApiError(status, env, r.scope, r.alsoScopes));
      !IsNotFound(e) && !IsQuotaExceeded(e)
    case Answer(_) => r.act.Fetches? ==> r.act.target in g.stored && g.Shows(r.act.target, Privileged(r))
    case _ => true
  }

  /** A failure to begin or go on leaves doubt unless the call was given up, or the person has
      to sign in again. */
  predicate Doubtful(r: Request, e: Ending, g: Google) {
    match e
    case Never(why) => !Is(why, Canceled) && !Is(why, Reauthorize)
    case Stopped(why) => !Is(why, Canceled) && !Is(why, Reauthorize)
    case On(m) => LeavesOpen(r, m, g)
  }

  /** The result is what the move was answered with, leaving Google as it now is. */
  ghost predicate EndedOn(r: Request, m: Move, after: Google, res: Result<Body, Error>) {
    exists g :: Attempt(r, m, g).0 == after && Attempt(r, m, g).1.res == res
  }

  ghost predicate EndsAs(r: Request, e: Ending, after: Google, res: Result<Body, Error>) {
    match e
    case Never(why) => false
    case Stopped(why) => Outside(why) && res == Err(why)
    case On(m) => EndedOn(r, m, after, res)
  }

  lemma {:induction false} LoopEndsAs(r: Request, tries: Retries, w: World, try: nat, last: Option<Error>, net: Net)
    requires SafeToRepeat(r) && Coherent(r)
    requires try <= tries + 1
    requires try > 0 ==>
               && last.Some? && last.value.RetryHint? && Transient(r, FinalMove(w, try))
               && EndedOn(r, FinalMove(w, try), net.google, Err(last.value.err))
    ensures var (out, res) := Loop(r, tries, w, try, last, net);
            && |net.tried| <= |out.tried|
            && EndsAs(r, LoopEnding(r, tries, w, try + |out.tried| - |net.tried|), out.google, res)
    decreases tries + 1 - try
  {
    hide Attempt, Backoff, ShouldRetry, Transient, SafeToRepeat, Coherent;
    if try <= tries {
      var t := w.tick(try);
      var waits := if try > 0 then net.waits + [Backoff(try, last.value, t.jitter)] else net.waits;
      if (try == 0 || t.noRest.None?) && t.noEntry.None? {
        var (g, reply) := Attempt(r, t.move, net.google);
        var next := Net(g, net.tried + [r], waits);
        assert EndedOn(r, t.move, g, reply.res);
        assert FinalMove(w, try + 1) == t.move;
        Decided(r, t.move, net.google);
        if reply.res.Err? && ShouldRetry(reply.res.error, r) {
          var hint := Some(RetryHint(reply.res.error, reply.after));
          assert Loop(r, tries, w, try, last, net) == Loop(r, tries, w, try + 1, hint, next);
          LoopEndsAs(r, tries, w, try + 1, hint, next);
        } else {
          assert Loop(r, tries, w, try, last, net) == (next, reply.res);
        }
      }
    }
  }

  /** A call safe to repeat goes on exactly after a transient move, and is never marked. */
  lemma Decided(r: Request, m: Move, g: Google)
    requires SafeToRepeat(r) && Coherent(r)
    ensures var res := Attempt(r, m, g).1.res;
            && (res.Ok? ==> !Transient(r, m))
            && (res.Err? ==> MarkUnsafeWrite(res.error, r) == res.error)
            && (res.Err? ==> (ShouldRetry(res.error, r) <==> Transient(r, m)))
  {
    if Attempt(r, m, g).1.res.Err? {
      RetryTable(r, m, g);
    }
  }

  // ---- The rule ----

  lemma MoveDecides(r: Request, m: Move, g: Google)
    requires (r.act.CreatesAs? || r.act.Fetches?) && SafeToRepeat(r) && Attempt(r, m, g).1.res.Err?
    requires r.act.CreatesAs? ==> !IsAlreadyExists(Attempt(r, m, g).1.res.error)
    ensures Cautioned(Attempt(r, m, g).1.res.error) <==> LeavesOpen(r, m, Attempt(r, m, g).0)
  {
    match m
    case Refuse(_, _, _) =>
      RefusalClears(Attempt(r, m, g).1.res.error);
      hide Cautioned, Honest, ParseApiError;
    case Fail(_, _, _, _) =>
      FailureCautions(Attempt(r, m, g).1.res.error);
      hide Cautioned, Honest, ParseApiError, IsNotFound, IsQuotaExceeded;
    case Answer(_) =>
      AnswerClears(r, m, g);
    case _ =>
      hide MatchesReason;
  }

  lemma RefusalClears(e: Error)
    requires e.ApiError? && e.status < 500
    ensures !Cautioned(e)
  {
    hide MatchesReason, IsMissingScope;
  }

  lemma FailureCautions(e: Error)
    requires e.ApiError? && e.status >= 500
    ensures Cautioned(e) <==> !IsNotFound(e) && !IsQuotaExceeded(e)
  {
    hide MatchesReason;
  }

  lemma AnswerClears(r: Request, m: Move, g: Google)
    requires (r.act.CreatesAs? || r.act.Fetches?) && m.Answer? && Attempt(r, m, g).1.res.Err?
    requires r.act.CreatesAs? ==> !IsAlreadyExists(Attempt(r, m, g).1.res.error)
    ensures !Cautioned(Attempt(r, m, g).1.res.error) && !LeavesOpen(r, m, Attempt(r, m, g).0)
  {
    RefusalClears(Attempt(r, m, g).1.res.error);
    hide Cautioned;
  }

  /** One call's failure carries the caution exactly when its ending leaves doubt. */
  lemma CallRule(ctx: Context, r: Request, tries: Retries, w: World, net: Net)
    requires (r.act.CreatesAs? || r.act.Fetches?) && SafeToRepeat(r) && Coherent(r)
    ensures var (out, res) := DoSpec(ctx, r, tries, true, w, net);
            && |net.tried| <= |out.tried|
            && (res.Err? && (r.act.CreatesAs? ==> !IsAlreadyExists(res.error)) ==>
                  (Cautioned(res.error) <==>
                   Doubtful(AsSent(ctx, r), EndingOf(ctx, r, tries, w, |out.tried| - |net.tried|), out.google)))
  {
    hide Attempt, Loop, LoopEnding, LeavesOpen, Transient, IsMissingScope, MatchesReason, EndsAs;
    var r' := AsSent(ctx, r);
    LoopEndsAs(r', tries, w, 0, None, net);
    var (out, sent) := SendSpec(ctx, r, tries, w, net);
    var ending := EndingOf(ctx, r, tries, w, |out.tried| - |net.tried|);
    if w.noToken.None? && !(IsWrite(r') && ctx.noWrites) && !(IsChat(r) && ctx.admin && r.adminScope == "") {
      EndedRule(r', ending, out.google, sent);
    }
  }

  lemma EndedRule(r: Request, e: Ending, after: Google, res: Result<Body, Error>)
    requires (r.act.CreatesAs? || r.act.Fetches?) && SafeToRepeat(r) && EndsAs(r, e, after, res)
    ensures res.Ok? ==> Doubtful(r, e, after)
    ensures res.Err? && (r.act.CreatesAs? ==> !IsAlreadyExists(res.error)) ==>
              (Cautioned(res.error) <==> Doubtful(r, e, after))
  {
    hide Attempt, LeavesOpen, IsMissingScope, MatchesReason;
    if e.On? {
      var g :| Attempt(r, e.m, g).0 == after && Attempt(r, e.m, g).1.res == res;
      if res.Ok? {
        AnswerLeavesOpen(r, e.m, g);
      } else if r.act.CreatesAs? ==> !IsAlreadyExists(res.error) {
        MoveDecides(r, e.m, g);
      }
    }
  }

  lemma AnswerLeavesOpen(r: Request, m: Move, g: Google)
    requires Attempt(r, m, g).1.res.Ok?
    ensures LeavesOpen(r, m, Attempt(r, m, g).0)
  {
  }

  /** Where a send's failure comes from: the post, or once that was told the message exists,
      the read of it. */
  predicate SendDoubt(tries: Retries, s: Send, net: Net) {
    var post := SendRequest(s.space, IdOf(s), s.threaded, s.fallback);
    var (posted, res) := DoSpec(s.ctx, post, tries, true, s.post, net);
    if res.Err? && IsAlreadyExists(res.error) then
      var read := GetRequest(NameOf(s));
      var out := DoSpec(s.ctx, read, tries, true, s.read, posted).0;
      |posted.tried| <= |out.tried| &&
      Doubtful(AsSent(s.ctx, read), EndingOf(s.ctx, read, tries, s.read, |out.tried| - |posted.tried|), out.google)
    else
      |net.tried| <= |posted.tried| &&
      Doubtful(AsSent(s.ctx, post), EndingOf(s.ctx, post, tries, s.post, |posted.tried| - |net.tried|), posted.google)
  }

  /** Every failed send, however it failed: the caution is there exactly when the ending of the
      call that failed leaves doubt, and nothing before that ending matters. That call is the
      post, or the read of what landed once the post was told the message exists. */
  lemma CautionFollowsTheEnding(tries: Retries, s: Send, net: Net)
    ensures var (_, res) := SendMessage(tries, s, net);
            res.Err? ==> (Cautioned(res.error) <==> SendDoubt(tries, s, net))
  {
    hide Doubtful, EndingOf, DoSpec, Cautioned, NameOf, IdOf;
    var post := SendRequest(s.space, IdOf(s), s.threaded, s.fallback);
    CallRule(s.ctx, post, tries, s.post, net);
    var (posted, res) := DoSpec(s.ctx, post, tries, true, s.post, net);
    CallRule(s.ctx, GetRequest(NameOf(s)), tries, s.read, posted);
  }

  // ---- Posted and not told ----

  /** Google carried the attempt out. */
  predicate Lands(m: Move) {
    match m
    case Cut(processed, _) => processed
    case Oversize(processed) => processed
    case Fail(_, processed, _, _) => processed
    case Answer(_) => true
    case _ => false
  }

  lemma {:induction false} LandedInLoop(r: Request, tries: Retries, w: World, try: nat, last: Option<Error>, net: Net)
    requires r.act.CreatesAs? && try <= tries + 1 && (try > 0 ==> last.Some?)
    ensures var out := Loop(r, tries, w, try, last, net).0;
            && |net.tried| <= |out.tried|
            && (r.act.target in out.google.stored <==>
                r.act.target in net.google.stored
                || exists i :: try <= i < try + |out.tried| - |net.tried| && Lands(w.tick(i).move))
    decreases tries + 1 - try
  {
    hide Backoff, ShouldRetry, MarkUnsafeWrite, Unhinted, Attempt, Lands;
    if try <= tries {
      var t := w.tick(try);
      var waits := if try > 0 then net.waits + [Backoff(try, last.value, t.jitter)] else net.waits;
      if (try == 0 || t.noRest.None?) && t.noEntry.None? {
        LandsStores(r, t.move, net.google);
        var (g, reply) := Attempt(r, t.move, net.google);
        var next := Net(g, net.tried + [r], waits);
        if reply.res.Err? && ShouldRetry(reply.res.error, r) {
          var hint := Some(RetryHint(reply.res.error, reply.after));
          assert Loop(r, tries, w, try, last, net) == Loop(r, tries, w, try + 1, hint, next);
          LandedInLoop(r, tries, w, try + 1, hint, next);
        } else {
          assert Loop(r, tries, w, try, last, net).0 == next;
          assert |next.tried| == |net.tried| + 1;
        }
      }
    }
  }

  lemma LandsStores(r: Request, m: Move, g: Google)
    requires r.act.CreatesAs?
    ensures r.act.target in Attempt(r, m, g).0.stored <==> r.act.target in g.stored || Lands(m)
  {
  }

  /** Some attempt of the post was carried out. */
  ghost predicate Landed(tries: Retries, s: Send, net: Net) {
    var posted := DoSpec(s.ctx, SendRequest(s.space, IdOf(s), s.threaded, s.fallback), tries, true, s.post, net).0;
    exists i :: 0 <= i < |posted.tried| - |net.tried| && Lands(s.post.tick(i).move)
  }

  lemma PostLands(tries: Retries, s: Send, net: Net)
    ensures var r := SendRequest(s.space, IdOf(s), s.threaded, s.fallback);
            var posted := DoSpec(s.ctx, r, tries, true, s.post, net).0;
            NameOf(s) in posted.google.stored <==> NameOf(s) in net.google.stored || Landed(tries, s, net)
  {
    var r := SendRequest(s.space, IdOf(s), s.threaded, s.fallback);
    LandedInLoop(AsSent(s.ctx, r), tries, s.post, 0, None, net);
    hide Loop, Lands;
  }

  /** A fresh message is posted by a send that fails and does not say it may have been, exactly
      when some attempt was carried out and the ending of the failed call leaves no doubt. */
  lemma PostedInSilenceExactly(tries: Retries, s: Send, net: Net)
    requires NameOf(s) !in net.google.stored
    ensures var (out, res) := SendMessage(tries, s, net);
            res.Err? ==>
              (NameOf(s) in out.google.stored && !Cautioned(res.error) <==>
               Landed(tries, s, net) && !SendDoubt(tries, s, net))
  {
    CautionFollowsTheEnding(tries, s, net);
    PostLands(tries, s, net);
    ReadStoresNothing(tries, s, net);
    hide Landed, SendDoubt, Cautioned;
  }

  lemma ReadStoresNothing(tries: Retries, s: Send, net: Net)
    ensures var posted := DoSpec(s.ctx, SendRequest(s.space, IdOf(s), s.threaded, s.fallback), tries, true, s.post,
                                 net).0;
            SendMessage(tries, s, net).0.google == posted.google
  {
    var posted := DoSpec(s.ctx, SendRequest(s.space, IdOf(s), s.threaded, s.fallback), tries, true, s.post, net).0;
    E.CallEffect(s.ctx, GetRequest(NameOf(s)), tries, true, s.read, posted);
  }

  /** What happens to the first attempt and to those after it. */
  function Then(first: Move, later: Move): World {
    World(None, i => Tick(None, None, 0, if i == 0 then first else later))
  }

  const LANDS_UNTOLD := Fail(500, true, None, 0)

  lemma LandsThen(s: Send, tries: Retries, net: Net, w: World)
    requires tries > 0 && NameOf(s) !in net.google.stored && w.tick(0).move == LANDS_UNTOLD && w.tick(0).noEntry.None?
    ensures var r := SendRequest(s.space, IdOf(s), s.threaded, s.fallback);
            var (g, reply) := Attempt(r, LANDS_UNTOLD, net.google);
            && NameOf(s) in g.stored && g.hidden == net.google.hidden
            && reply.res.Err?
            && Loop(r, tries, w, 0, None, net)
               == Loop(r, tries, w, 1, Some(RetryHint(reply.res.error, reply.after)), Net(g, net.tried + [r],
                       net.waits))
  {
  }

  /** A refusal ends the post where it comes. */
  lemma RefusedAt(r: Request, tries: Retries, w: World, try: nat, last: Option<Error>, net: Net, status: RefusalCode)
    requires r.act.CreatesAs? && status != 429 && SafeToRepeat(r)
    requires 0 < try <= tries && last.Some? && w.tick(try).noRest.None? && w.tick(try).noEntry.None?
    requires w.tick(try).move == Refuse(status, None, 0)
    ensures var (out, res) := Loop(r, tries, w, try, last, net);
            out.google == net.google && res == Err(ParseApiError(status, None, r.scope, r.alsoScopes))
  {
    hide Backoff, ParseApiError;
  }

  lemma RefusedIsClear(scope: string, also: seq<string>)
    ensures var e := ParseApiError(403, None, scope, also);
            !Cautioned(e) && !MayHaveApplied(e) && !IsAlreadyExists(e)
  {
    RefusalClears(ParseApiError(403, None, scope, also));
    hide Cautioned;
  }

  /** It happens. The first attempt lands and answers 500, the second is turned down with a
      403: the message is posted, and the failure is a plain refusal. */
  lemma PostedButReportedRefused(s: Send, tries: Retries, net: Net)
    requires tries > 0 && !s.ctx.noWrites && !s.ctx.admin
    requires NameOf(s) !in net.google.stored && s.post == Then(LANDS_UNTOLD, Refuse(403, None, 0))
    ensures var (out, res) := SendMessage(tries, s, net);
            && NameOf(s) in out.google.stored
            && res.Err? && !Cautioned(res.error) && !MayHaveApplied(res.error)
  {
    var r := SendRequest(s.space, IdOf(s), s.threaded, s.fallback);
    LandsThen(s, tries, net, s.post);
    var (g, reply) := Attempt(r, LANDS_UNTOLD, net.google);
    RefusedAt(r, tries, s.post, 1, Some(RetryHint(reply.res.error, reply.after)), Net(g, net.tried + [r], net.waits),
              403);
    RefusedIsClear(r.scope, r.alsoScopes);
    hide Loop, Attempt, Cautioned, MayHaveApplied, IsAlreadyExists, ParseApiError;
  }

  lemma PostThenExists(tries: Retries, s: Send, net: Net)
    requires tries > 0 && !s.ctx.noWrites && !s.ctx.admin
    requires NameOf(s) !in net.google.stored && s.post == Then(LANDS_UNTOLD, Refuse(409, None, 0))
    ensures var r := SendRequest(s.space, IdOf(s), s.threaded, s.fallback);
            var (posted, res) := DoSpec(s.ctx, r, tries, true, s.post, net);
            && NameOf(s) in posted.google.stored && res.Err? && IsAlreadyExists(res.error)
            && SendMessage(tries, s, net) == DoSpec(s.ctx, GetRequest(NameOf(s)), tries, true, s.read, posted)
  {
    var r := SendRequest(s.space, IdOf(s), s.threaded, s.fallback);
    LandsThen(s, tries, net, s.post);
    var (g, reply) := Attempt(r, LANDS_UNTOLD, net.google);
    RefusedAt(r, tries, s.post, 1, Some(RetryHint(reply.res.error, reply.after)), Net(g, net.tried + [r], net.waits),
              409);
    hide Loop, Attempt;
  }

  /** It happens behind the read too: the second attempt is told the message exists, and
      reading it back is refused, for a scope the send itself does not need. */
  lemma PostedButTheReadRefused(s: Send, tries: Retries, net: Net)
    requires tries > 0 && !s.ctx.noWrites && !s.ctx.admin
    requires NameOf(s) !in net.google.stored && s.post == Then(LANDS_UNTOLD, Refuse(409, None, 0))
    requires s.read == Then(Refuse(403, None, 0), Refuse(403, None, 0))
    ensures var (out, res) := SendMessage(tries, s, net);
            && NameOf(s) in out.google.stored
            && res.Err? && !Cautioned(res.error) && !MayHaveApplied(res.error)
  {
    PostThenExists(tries, s, net);
    ReadStoresNothing(tries, s, net);
    hide Attempt;
  }

  /** And when the call is given up, in the wait after an attempt that landed or in the limiter
      after that wait. */
  lemma PostedButGivenUp(s: Send, tries: Retries, net: Net, inTheLimiter: bool)
    requires tries > 0 && !s.ctx.noWrites && !s.ctx.admin
    requires NameOf(s) !in net.google.stored
    requires s.post == GivenUpAfterTheFirst(inTheLimiter)
    ensures var (out, res) := SendMessage(tries, s, net);
            && NameOf(s) in out.google.stored
            && res.Err? && !Cautioned(res.error) && !MayHaveApplied(res.error)
  {
    LandsThen(s, tries, net, s.post);
  }

  function GivenUpAfterTheFirst(inTheLimiter: bool): World {
    var givenUp: Option<Stop> := Some(Plain(Canceled));
    World(None, i => Tick(if i == 0 || inTheLimiter then None else givenUp,
                          if i == 0 || !inTheLimiter then None else givenUp, 0, LANDS_UNTOLD))
  }

  /** When the read of what landed gets no token, the failure says the message may have been
      posted unless it says to sign in again or was given up: a refresh that failed is
      cautioned. */
  lemma PostedButNoToken(s: Send, tries: Retries, net: Net, why: Stop)
    requires tries > 0 && !s.ctx.noWrites && !s.ctx.admin
    requires NameOf(s) !in net.google.stored && s.post == Then(LANDS_UNTOLD, Refuse(409, None, 0))
    requires s.read.noToken == Some(why)
    ensures var (out, res) := SendMessage(tries, s, net);
            && NameOf(s) in out.google.stored
            && res == Err(why) && (Cautioned(why) <==> !Is(why, Canceled) && !Is(why, Reauthorize))
  {
    PostThenExists(tries, s, net);
    ReadStoresNothing(tries, s, net);
    hide Attempt;
  }

  /** The two ways the token source fails. */
  lemma RefreshesTellApart()
    ensures var refresh, signIn := Wrapped(Plain(RefreshFailed)), Wrapped(Plain(Reauthorize));
            Outside(refresh) && Outside(signIn) && Cautioned(refresh) && !Cautioned(signIn)
  {
  }
}
