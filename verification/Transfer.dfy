/** The timers of one streamed transfer, interleaved with the transport, the caller, the
    reader of the answer and the clock.

    Three timers can cancel the transfer: the waiting deadline, the stall guard on the
    request body and the stall guard on the response body. Each atomic operation on them is
    a step, so a timer may fire between any two, and its callback, which Go runs on a
    goroutine of its own, may run arbitrarily later. */
module Transfer {
  import opened Outcomes

  /** An AfterFunc timer. armed names the span it was started for. */
  datatype Timer = Off | On(armed: nat)

  /** A stretch of time something was being waited for; open while until is None. */
  datatype Span = Span(since: nat, until: Option<nat>)

  /** A timer went off at fired, having been started for that span. */
  datatype Firing = Firing(span: nat, fired: nat)

  /** Where a guard is: made by starting its timer and then stopping it, and afterwards where
      its Read is, whose calls in between are its two timer operations. */
  datatype Phase = Unbuilt | Building | Idle | Entered | Outstanding | Returned(last: bool) | HandingBack

  /** A stall guard with everything that happened to it: spans holds the time its timer was
      started for, first while the guard was made and then for each outstanding Read, late
      the firings whose callback has yet to run, and cut the firings whose callback canceled
      the transfer. */
  datatype Guard = Guard(timer: Timer, phase: Phase, closed: bool, spans: seq<Span>, late: seq<Firing>,
                         cut: seq<Firing>)

  datatype Answer = Failed | Refused | Accepted

  /** The caller of transfer: before Do, inside it, back from it, past the answered flag, past
      the deadline's Stop, and finished with the transfer. */
  datatype Caller = Preparing | InDo | Back(a: Answer) | Told(a: Answer) | Arrived(a: Answer) | Finished

  /** deadline is the waiting deadline, with the same history as a guard: its spans run from
      the start, or the end of the request body, until the first Read of the body or the
      Stop after the answer. answered is when the flag went up. */
  datatype State = State(
    limit: nat, now: nat, hasBody: bool, started: bool, answered: Option<nat>, caller: Caller,
    deadline: Guard, up: Guard, down: Guard)

  function FreshGuard(): Guard {
    Guard(Off, Unbuilt, false, [], [], [])
  }

  function Start(limit: nat, hasBody: bool): State {
    State(limit, 0, hasBody, false, None, Preparing, Reset(FreshGuard(), 0), FreshGuard(), FreshGuard())
  }

  // ---- What a timer does ----

  /** Reset: a new span starts now. */
  function Reset(g: Guard, now: nat): Guard {
    Close(g, now).(timer := On(|g.spans|), spans := Close(g, now).spans + [Span(now, None)])
  }

  /** Stop, which does nothing about a firing already under way. */
  function Stop(g: Guard, now: nat): Guard {
    Close(g, now).(timer := Off)
  }

  function Close(g: Guard, now: nat): Guard {
    if g.spans != [] && g.spans[|g.spans| - 1].until == None
    then g.(spans := g.spans[|g.spans| - 1 := g.spans[|g.spans| - 1].(until := Some(now))])
    else g
  }

  predicate Due(g: Guard, now: nat, limit: nat) {
    g.timer.On? && g.timer.armed < |g.spans| && now >= g.spans[g.timer.armed].since + limit
  }

  function Fire(g: Guard, now: nat): Guard
    requires g.timer.On?
  {
    g.(timer := Off, late := g.late + [Firing(g.timer.armed, now)])
  }

  /** The oldest pending callback runs, and cancels when it may. */
  function Callback(g: Guard, cancels: bool): Guard
    requires g.late != []
  {
    g.(late := g.late[1..], cut := if cancels then g.cut + [g.late[0]] else g.cut)
  }

  // ---- The steps ----

  datatype Step =
    | Pass(d: nat)
    | DeadlineFires | DeadlineCallback
    | UpBuilds | UpBuilt | Enters
    | UpReads | UpArms | UpReturns(last: bool) | UpDisarms | UpHandsBack | UpCloses | UpFires | UpCallback
    | DoReturns(a: Answer) | MarksAnswered | StopsDeadline | CallerCancels
    | DownBuilds | DownBuilt | DownReads | DownReturns | DownDisarms | DownCloses | DownFires | DownCallback

  /** The request's body, if it has one, has its guard. */
  predicate Ready(s: State) {
    s.hasBody ==> !s.up.phase.Unbuilt? && !s.up.phase.Building?
  }

  predicate Enabled(s: State, step: Step) {
    match step
    case Pass(_) => true
    case DeadlineFires => Due(s.deadline, s.now, s.limit)
    case DeadlineCallback => s.deadline.late != []
    case UpBuilds => s.hasBody && s.caller.Preparing? && s.up.phase.Unbuilt?
    case UpBuilt => s.up.phase.Building?
    case Enters => s.caller.Preparing? && Ready(s)
    case UpReads => s.hasBody && !s.caller.Preparing? && s.up.phase.Idle?
    case UpArms => s.up.phase.Entered?
    case UpReturns(_) => s.up.phase.Outstanding?
    case UpDisarms => s.up.phase.Returned?
    case UpHandsBack => s.up.phase.HandingBack?
    case UpCloses => s.hasBody && !s.caller.Preparing?
    case UpFires => Due(s.up, s.now, s.limit)
    case UpCallback => s.up.late != []
    case DoReturns(a) => s.caller.InDo? || (s.caller.Preparing? && Ready(s) && a.Failed?)
    case MarksAnswered => s.caller.Back?
    case StopsDeadline => s.caller.Told?
    case CallerCancels => s.caller.Arrived? && !s.caller.a.Accepted?
    case DownBuilds => s.caller.Arrived? && s.caller.a.Accepted? && s.down.phase.Unbuilt?
    case DownBuilt => s.down.phase.Building?
    case DownReads => s.caller.Arrived? && s.caller.a.Accepted? && s.down.phase.Idle?
    case DownReturns => s.down.phase.Outstanding?
    case DownDisarms => s.down.phase.Returned?
    case DownCloses =>
      s.caller.Arrived? && s.caller.a.Accepted? && !s.down.phase.Unbuilt? && !s.down.phase.Building?
    case DownFires => Due(s.down, s.now, s.limit)
    case DownCallback => s.down.late != []
  }

  function Apply(s: State, step: Step): State
    requires Enabled(s, step)
  {
    match step
    case Pass(d) => s.(now := s.now + d)
    case DeadlineFires => s.(deadline := Fire(s.deadline, s.now))
    case DeadlineCallback => s.(deadline := Callback(s.deadline, s.answered == None))
    case UpBuilds => s.(up := Reset(s.up, s.now).(phase := Building))
    case UpBuilt => s.(up := Stop(s.up, s.now).(phase := Idle))
    case Enters => s.(caller := InDo)
    case UpReads =>
      s.(started := true, up := s.up.(phase := Entered),
         deadline := if s.started then s.deadline else Stop(s.deadline, s.now))
    case UpArms => s.(up := Reset(s.up, s.now).(phase := Outstanding))
    case UpReturns(last) => s.(up := s.up.(phase := Returned(last)))
    case UpDisarms => s.(up := Stop(s.up, s.now).(phase := if s.up.phase.last then HandingBack else Idle))
    case UpHandsBack => s.(up := s.up.(phase := Idle), deadline := Reset(s.deadline, s.now))
    case UpCloses => s.(up := s.up.(timer := Off, closed := true))
    case UpFires => s.(up := Fire(s.up, s.now))
    case UpCallback => s.(up := Callback(s.up, true))
    case DoReturns(a) => s.(caller := Back(a))
    case MarksAnswered => s.(caller := Told(s.caller.a), answered := Some(s.now))
    case StopsDeadline => s.(caller := Arrived(s.caller.a), deadline := Stop(s.deadline, s.now))
    case CallerCancels => s.(caller := Finished)
    case DownBuilds => s.(down := Reset(s.down, s.now).(phase := Building))
    case DownBuilt => s.(down := Stop(s.down, s.now).(phase := Idle))
    case DownReads => s.(down := Reset(s.down, s.now).(phase := Outstanding))
    case DownReturns => s.(down := s.down.(phase := Returned(false)))
    case DownDisarms => s.(down := Stop(s.down, s.now).(phase := Idle))
    case DownCloses => s.(caller := Finished, down := s.down.(timer := Off, closed := true))
    case DownFires => s.(down := Fire(s.down, s.now))
    case DownCallback => s.(down := Callback(s.down, true))
  }

  /** Any interleaving: where a sequence of steps leads, if each is possible when taken. */
  function After(s: State, steps: seq<Step>): Option<State> {
    if steps == [] then Some(s)
    else
      match After(s, steps[..|steps| - 1])
      case None => None
      case Some(t) =>
        var step := steps[|steps| - 1];
        if Enabled(t, step) then Some(Apply(t, step)) else None
  }

  // ---- The invariant ----

  /** The firing came a full limit into its span, while the span was still open. */
  predicate Proven(spans: seq<Span>, limit: nat, now: nat, e: Firing) {
    && e.span < |spans|
    && spans[e.span].since + limit <= e.fired <= now
    && (spans[e.span].until.Some? ==> e.fired <= spans[e.span].until.value)
  }

  predicate HasOpenSpan(g: Guard) {
    g.spans != [] && g.spans[|g.spans| - 1].until == None
  }

  predicate FiredFor(g: Guard, span: nat) {
    exists e :: e in g.late + g.cut && e.span == span
  }

  ghost predicate GuardInv(g: Guard, limit: nat, now: nat) {
    && (g.timer.On? ==> HasOpenSpan(g) && g.timer.armed == |g.spans| - 1)
    && (forall i :: 0 <= i < |g.spans| ==>
          && g.spans[i].since <= now
          && (g.spans[i].until.Some? ==> g.spans[i].since <= g.spans[i].until.value <= now)
          && (i < |g.spans| - 1 ==> g.spans[i].until.Some?))
    && (forall e :: e in g.late ==> Proven(g.spans, limit, now, e))
    && (forall e :: e in g.cut ==> Proven(g.spans, limit, now, e))
  }

  /** While a span is open and the guard is, its timer is running or has gone off for it. */
  ghost predicate Watched(g: Guard) {
    HasOpenSpan(g) && !g.closed ==> g.timer.On? || FiredFor(g, |g.spans| - 1)
  }

  /** The first span is the guard's making and the others are Reads. */
  ghost predicate MadeFirst(g: Guard) {
    && (g.phase.Unbuilt? <==> g.spans == [])
    && (g.phase.Building? ==> |g.spans| == 1)
    && (g.phase.Outstanding? || g.phase.Returned? || g.phase.HandingBack? ==> |g.spans| >= 2)
  }

  /** A guard on a body: a span is open exactly while it is being made or one of its Reads is
      outstanding. */
  ghost predicate BodyInv(g: Guard, limit: nat, now: nat) {
    && GuardInv(g, limit, now)
    && Watched(g) && MadeFirst(g)
    && (HasOpenSpan(g) <==> g.phase.Building? || g.phase.Outstanding? || g.phase.Returned?)
  }

  /** The deadline: watched until the answer, and never the cause of a cancel after it. */
  ghost predicate DeadlineInv(g: Guard, answered: Option<nat>, limit: nat, now: nat) {
    && GuardInv(g, limit, now)
    && !g.closed
    && (answered.Some? ==> answered.value <= now)
    && (forall e :: e in g.cut ==> answered.None? || e.fired <= answered.value)
    && (answered.None? ==> Watched(g))
  }

  ghost predicate Inv(s: State) {
    && DeadlineInv(s.deadline, s.answered, s.limit, s.now)
    && BodyInv(s.up, s.limit, s.now)
    && BodyInv(s.down, s.limit, s.now)
    && (s.answered.None? <==> s.caller.Preparing? || s.caller.InDo? || s.caller.Back?)
  }

  lemma StopKeeps(g: Guard, limit: nat, now: nat)
    requires GuardInv(g, limit, now)
    ensures GuardInv(Stop(g, now), limit, now) && !HasOpenSpan(Stop(g, now))
    ensures Stop(g, now).late == g.late && Stop(g, now).cut == g.cut && Stop(g, now).closed == g.closed
  {
    var h := Stop(g, now);
    forall e | Proven(g.spans, limit, now, e)
      ensures Proven(h.spans, limit, now, e)
    {
    }
  }

  lemma ResetKeeps(g: Guard, limit: nat, now: nat)
    requires GuardInv(g, limit, now)
    ensures GuardInv(Reset(g, now), limit, now) && HasOpenSpan(Reset(g, now)) && Watched(Reset(g, now))
    ensures Reset(g, now).late == g.late && Reset(g, now).cut == g.cut && Reset(g, now).closed == g.closed
  {
    StopKeeps(g, limit, now);
    var h := Reset(g, now);
    forall e | Proven(Stop(g, now).spans, limit, now, e)
      ensures Proven(h.spans, limit, now, e)
    {
    }
  }

  lemma FireKeeps(g: Guard, limit: nat, now: nat)
    requires GuardInv(g, limit, now) && Due(g, now, limit)
    ensures GuardInv(Fire(g, now), limit, now) && Watched(Fire(g, now))
  {
    var e := Firing(g.timer.armed, now);
    assert Proven(g.spans, limit, now, e);
    assert e in Fire(g, now).late + Fire(g, now).cut;
  }

  lemma CallbackKeeps(g: Guard, limit: nat, now: nat, cancels: bool)
    requires GuardInv(g, limit, now) && g.late != []
    ensures GuardInv(Callback(g, cancels), limit, now)
    ensures cancels && Watched(g) ==> Watched(Callback(g, cancels))
  {
    var h := Callback(g, cancels);
    assert g.late[0] in g.late;
    assert forall e :: e in h.late ==> e in g.late;
    if cancels && HasOpenSpan(g) && !g.closed && !g.timer.On? && Watched(g) {
      var e :| e in g.late + g.cut && e.span == |g.spans| - 1;
      assert e == g.late[0] || e in g.late[1..] || e in g.cut;
      assert e in h.late + h.cut;
    }
  }

  lemma ClosingKeeps(g: Guard, limit: nat, now: nat)
    requires BodyInv(g, limit, now)
    ensures BodyInv(g.(timer := Off, closed := true), limit, now)
  {
  }

  lemma EnteringKeeps(g: Guard, limit: nat, now: nat)
    requires BodyInv(g, limit, now)
    ensures g.phase.Idle? ==> BodyInv(g.(phase := Entered), limit, now)
    ensures g.phase.HandingBack? ==> BodyInv(g.(phase := Idle), limit, now)
    ensures g.phase.Outstanding? ==> forall last :: BodyInv(g.(phase := Returned(last)), limit, now)
  {
  }

  lemma BodyTimerKeeps(g: Guard, limit: nat, now: nat)
    requires BodyInv(g, limit, now)
    ensures g.phase.Unbuilt? ==> BodyInv(Reset(g, now).(phase := Building), limit, now)
    ensures !g.phase.Unbuilt? ==> BodyInv(Reset(g, now).(phase := Outstanding), limit, now)
    ensures g.phase.Returned? ==> BodyInv(Stop(g, now).(phase := HandingBack), limit, now)
    ensures !g.phase.Unbuilt? ==> BodyInv(Stop(g, now).(phase := Idle), limit, now)
  {
    ResetKeeps(g, limit, now);
    StopKeeps(g, limit, now);
    SpansAfter(g, now);
    hide Reset, Stop;
  }

  /** What Reset and Stop leave of the spans there were. */
  lemma SpansAfter(g: Guard, now: nat)
    ensures |Stop(g, now).spans| == |g.spans| && |Reset(g, now).spans| == |g.spans| + 1
    ensures Reset(g, now).spans[|g.spans|] == Span(now, None) && Reset(g, now).phase == g.phase
    ensures forall i :: 0 <= i < |g.spans| ==>
              && Stop(g, now).spans[i] == Reset(g, now).spans[i]
              && Stop(g, now).spans[i].since == g.spans[i].since
              && (g.spans[i].until.Some? || i < |g.spans| - 1 ==> Stop(g, now).spans[i] == g.spans[i])
              && (i == |g.spans| - 1 && g.spans[i].until.None? ==> Stop(g, now).spans[i].until == Some(now))
  {
  }

  lemma BodyFiringKeeps(g: Guard, limit: nat, now: nat)
    requires BodyInv(g, limit, now)
    ensures Due(g, now, limit) ==> BodyInv(Fire(g, now), limit, now)
    ensures g.late != [] ==> BodyInv(Callback(g, true), limit, now)
  {
    if Due(g, now, limit) {
      FireKeeps(g, limit, now);
    }
    if g.late != [] {
      CallbackKeeps(g, limit, now, true);
    }
  }

  lemma DeadlineKeeps(g: Guard, answered: Option<nat>, limit: nat, now: nat)
    requires DeadlineInv(g, answered, limit, now)
    ensures DeadlineInv(Reset(g, now), answered, limit, now)
    ensures DeadlineInv(Stop(g, now), answered, limit, now)
    ensures Due(g, now, limit) ==> DeadlineInv(Fire(g, now), answered, limit, now)
    ensures g.late != [] ==> DeadlineInv(Callback(g, answered == None), answered, limit, now)
    ensures answered == None ==> DeadlineInv(g, Some(now), limit, now)
  {
    ResetKeeps(g, limit, now);
    StopKeeps(g, limit, now);
    if Due(g, now, limit) {
      FireKeeps(g, limit, now);
    }
    if g.late != [] {
      CallbackKeeps(g, limit, now, answered == None);
    }
    forall e | e in g.cut ensures e.fired <= now {}
    hide Reset, Stop;
  }

  lemma TimePasses(s: State, later: nat)
    requires Inv(s) && s.now <= later
    ensures Inv(s.(now := later))
  {
    assert forall e :: Proven(s.up.spans, s.limit, s.now, e) ==> Proven(s.up.spans, s.limit, later, e);
    assert forall e :: Proven(s.down.spans, s.limit, s.now, e) ==> Proven(s.down.spans, s.limit, later, e);
    assert forall e :: Proven(s.deadline.spans, s.limit, s.now, e) ==> Proven(s.deadline.spans, s.limit, later, e);
  }

  lemma UpKeepsInv(s: State, step: Step)
    requires Inv(s) && Enabled(s, step)
    requires step.UpBuilds? || step.UpBuilt? || step.UpReads? || step.UpArms? || step.UpReturns? || step.UpDisarms?
             || step.UpHandsBack? || step.UpCloses? || step.UpFires? || step.UpCallback?
    ensures Inv(Apply(s, step))
  {
    hide BodyInv, DeadlineInv, Due, Reset, Stop, Fire, Callback;
    DeadlineKeeps(s.deadline, s.answered, s.limit, s.now);
    ClosingKeeps(s.up, s.limit, s.now);
    EnteringKeeps(s.up, s.limit, s.now);
    BodyTimerKeeps(s.up, s.limit, s.now);
    BodyFiringKeeps(s.up, s.limit, s.now);
  }

  lemma DownKeepsInv(s: State, step: Step)
    requires Inv(s) && Enabled(s, step)
    requires step.DownBuilds? || step.DownBuilt? || step.DownReads? || step.DownReturns? || step.DownDisarms?
             || step.DownCloses? || step.DownFires? || step.DownCallback?
    ensures Inv(Apply(s, step))
  {
    hide BodyInv, DeadlineInv, Due, Reset, Stop, Fire, Callback;
    ClosingKeeps(s.down, s.limit, s.now);
    EnteringKeeps(s.down, s.limit, s.now);
    BodyTimerKeeps(s.down, s.limit, s.now);
    BodyFiringKeeps(s.down, s.limit, s.now);
  }

  /** Every step of every party keeps the invariant. */
  lemma StepKeepsInv(s: State, step: Step)
    requires Inv(s) && Enabled(s, step)
    ensures Inv(Apply(s, step)) && Apply(s, step).limit == s.limit
  {
    hide BodyInv, DeadlineInv, Due, Reset, Stop, Fire, Callback;
    match step
    case Pass(d) => TimePasses(s, s.now + d);
    case DeadlineFires => DeadlineKeeps(s.deadline, s.answered, s.limit, s.now);
    case DeadlineCallback => DeadlineKeeps(s.deadline, s.answered, s.limit, s.now);
    case MarksAnswered => DeadlineKeeps(s.deadline, s.answered, s.limit, s.now);
    case StopsDeadline => DeadlineKeeps(s.deadline, s.answered, s.limit, s.now);
    case Enters =>
    case DoReturns(_) =>
    case CallerCancels =>
    case DownBuilds => DownKeepsInv(s, step);
    case DownBuilt => DownKeepsInv(s, step);
    case DownReads => DownKeepsInv(s, step);
    case DownReturns => DownKeepsInv(s, step);
    case DownDisarms => DownKeepsInv(s, step);
    case DownCloses => DownKeepsInv(s, step);
    case DownFires => DownKeepsInv(s, step);
    case DownCallback => DownKeepsInv(s, step);
    case _ => UpKeepsInv(s, step);
  }

  lemma StartKeepsInv(limit: nat, hasBody: bool)
    ensures Inv(Start(limit, hasBody)) && Start(limit, hasBody).limit == limit
  {
    ResetKeeps(FreshGuard(), limit, 0);
  }

  lemma {:induction false} RunKeepsInv(limit: nat, hasBody: bool, steps: seq<Step>)
    ensures var s := After(Start(limit, hasBody), steps);
            s.Some? ==> Inv(s.value) && s.value.limit == limit
  {
    hide Inv, Apply, Enabled, Start;
    if steps == [] {
      StartKeepsInv(limit, hasBody);
    } else {
      RunKeepsInv(limit, hasBody, steps[..|steps| - 1]);
      var t := After(Start(limit, hasBody), steps[..|steps| - 1]);
      if t.Some? && Enabled(t.value, steps[|steps| - 1]) {
        StepKeepsInv(t.value, steps[|steps| - 1]);
      }
    }
  }

  // ---- What the timers promise ----

  function Lasted(sp: Span, now: nat): int {
    (if sp.until.Some? then sp.until.value else now) - sp.since
  }

  /** How much of a wait passed before the answer. */
  function Unanswered(sp: Span, answered: Option<nat>, now: nat): int {
    if answered.Some? && answered.value < sp.since + Lasted(sp, now) then answered.value - sp.since
    else Lasted(sp, now)
  }

  /** The guard was made faster than its own limit, or has yet to be. */
  ghost predicate Prompt(g: Guard, limit: nat, now: nat) {
    g.spans != [] ==> Lasted(g.spans[0], now) < limit
  }

  /** A cancel for a Read of the guard's own that was outstanding for the full limit. */
  ghost predicate Earned(g: Guard, limit: nat, now: nat, e: Firing) {
    1 <= e.span < |g.spans| && Lasted(g.spans[e.span], now) >= limit
  }

  lemma CutsLasted(g: Guard, limit: nat, now: nat)
    requires BodyInv(g, limit, now)
    ensures forall e :: e in g.cut ==> e.span < |g.spans| && Lasted(g.spans[e.span], now) >= limit
    ensures Prompt(g, limit, now) ==> forall e :: e in g.cut ==> Earned(g, limit, now, e)
  {
    forall e | e in g.cut ensures e.span < |g.spans| && Lasted(g.spans[e.span], now) >= limit {
      assert Proven(g.spans, limit, now, e);
    }
  }

  /** In every interleaving, a cancel by a guard made in less than the limit was earned by one
      of its own Reads, which had been outstanding for the full limit; any other cancel of a
      guard's was for its own making having taken that long; and a cancel by the deadline was
      earned by one stretch of waiting that had gone a full limit unanswered. */
  lemma EveryCutWasEarned(limit: nat, hasBody: bool, steps: seq<Step>, s: State)
    requires After(Start(limit, hasBody), steps) == Some(s)
    ensures Prompt(s.up, limit, s.now) ==> forall e :: e in s.up.cut ==> Earned(s.up, limit, s.now, e)
    ensures Prompt(s.down, limit, s.now) ==> forall e :: e in s.down.cut ==> Earned(s.down, limit, s.now, e)
    ensures forall e :: e in s.up.cut ==> Earned(s.up, limit, s.now, e) || e.span == 0
    ensures forall e :: e in s.down.cut ==> Earned(s.down, limit, s.now, e) || e.span == 0
    ensures forall e :: e in s.deadline.cut ==>
              e.span < |s.deadline.spans| && Unanswered(s.deadline.spans[e.span], s.answered, s.now) >= limit
  {
    RunKeepsInv(limit, hasBody, steps);
    CutsLasted(s.up, limit, s.now);
    CutsLasted(s.down, limit, s.now);
    forall e | e in s.deadline.cut
      ensures e.span < |s.deadline.spans| && Unanswered(s.deadline.spans[e.span], s.answered, s.now) >= limit
    {
      assert Proven(s.deadline.spans, limit, s.now, e);
    }
  }

  // ---- A guard that cancels before any Read ----

  /** One more step of a run. */
  lemma Go(start: State, steps: seq<Step>, s: State, step: Step) returns (more: seq<Step>, t: State)
    requires After(start, steps) == Some(s) && Enabled(s, step)
    ensures After(start, more) == Some(t) && t == Apply(s, step) && |more| == |steps| + 1
  {
    more, t := steps + [step], Apply(s, step);
    assert more[..|steps|] == steps;
  }

  /** Some run leads here. */
  ghost predicate Reached(limit: nat, hasBody: bool, s: State) {
    exists steps :: After(Start(limit, hasBody), steps) == Some(s)
  }

  /** The guard's making took d, and its timer canceled the transfer for that alone. */
  ghost predicate CutWhileMade(g: Guard, d: nat, now: nat) {
    && g.spans != [] && Lasted(g.spans[0], now) == d
    && exists e :: e in g.cut && e.span == 0
  }

  /** A transfer without a body, answered before any time passes. */
  lemma AnsweredAtOnce(limit: nat) returns (steps: seq<Step>, s: State)
    ensures After(Start(limit, false), steps) == Some(s)
    ensures s == State(limit, 0, false, false, Some(0), Arrived(Accepted),
                       FreshGuard().(spans := [Span(0, Some(0))]), FreshGuard(), FreshGuard())
  {
    var s0 := Start(limit, false);
    steps, s := [], s0;
    steps, s := Go(s0, steps, s, Enters);
    steps, s := Go(s0, steps, s, DoReturns(Accepted));
    steps, s := Go(s0, steps, s, MarksAnswered);
    steps, s := Go(s0, steps, s, StopsDeadline);
  }

  lemma ResponseGuardCuts(limit: nat, d: nat) returns (s: State)
    requires limit <= d
    ensures Reached(limit, false, s) && s.answered == Some(0) && s.limit == limit
    ensures CutWhileMade(s.down, d, s.now) && |s.down.spans| == 1
    ensures s.up.spans == [] && s.deadline.spans == [Span(0, Some(0))]
  {
    var s0 := Start(limit, false);
    var steps;
    steps, s := AnsweredAtOnce(limit);
    hide After, Start;
    steps, s := Go(s0, steps, s, DownBuilds);
    steps, s := Go(s0, steps, s, Pass(d));
    steps, s := Go(s0, steps, s, DownFires);
    steps, s := Go(s0, steps, s, DownBuilt);
    steps, s := Go(s0, steps, s, DownCallback);
    assert s.down.cut == [Firing(0, d)];
    assert s.down.cut[0] in s.down.cut;
  }

  lemma RequestGuardCuts(limit: nat, d: nat) returns (s: State)
    requires limit <= d
    ensures Reached(limit, true, s) && CutWhileMade(s.up, d, s.now) && |s.up.spans| == 1
  {
    var s0 := Start(limit, true);
    var steps: seq<Step> := [];
    s := s0;
    steps, s := Go(s0, steps, s, UpBuilds);
    steps, s := Go(s0, steps, s, Pass(d));
    steps, s := Go(s0, steps, s, UpFires);
    steps, s := Go(s0, steps, s, UpBuilt);
    steps, s := Go(s0, steps, s, UpCallback);
    assert s.up.cut == [Firing(0, d)];
    assert s.up.cut[0] in s.up.cut;
  }

  /** A guard can cancel without any Read having been outstanding exactly when a full limit
      can pass between the two timer operations that make it: for either guard, and for any
      time d that their making takes. */
  lemma UnearnedExactly(limit: nat, d: nat)
    ensures (exists s :: Reached(limit, false, s) && CutWhileMade(s.down, d, s.now)) <==> d >= limit
    ensures (exists s :: Reached(limit, true, s) && CutWhileMade(s.up, d, s.now)) <==> d >= limit
  {
    forall s, hasBody | Reached(limit, hasBody, s) && (CutWhileMade(s.down, d, s.now) || CutWhileMade(s.up, d, s.now))
      ensures d >= limit
    {
      var steps :| After(Start(limit, hasBody), steps) == Some(s);
      RunKeepsInv(limit, hasBody, steps);
      CutsLasted(s.up, limit, s.now);
      CutsLasted(s.down, limit, s.now);
    }
    if d >= limit {
      var s := ResponseGuardCuts(limit, d);
      var t := RequestGuardCuts(limit, d);
    }
  }

  // ---- A timely transfer ----

  /** Every Read of either body came back within the limit, and so did the first Read of
      the request body, or the answer, from each point the deadline ran from. */
  ghost predicate Timely(s: State) {
    && (forall i :: 1 <= i < |s.up.spans| ==> Lasted(s.up.spans[i], s.now) < s.limit)
    && (forall i :: 1 <= i < |s.down.spans| ==> Lasted(s.down.spans[i], s.now) < s.limit)
    && (forall i :: 0 <= i < |s.deadline.spans| ==> Unanswered(s.deadline.spans[i], s.answered, s.now) < s.limit)
  }

  /** The stretches the deadline counts are the waits of the protocol: one from the start,
      which covers the making of the request's guard and is over by the time the first Read of
      the request body starts its own clock, and later ones only from the end of the body. */
  ghost predicate WaitsFit(s: State) {
    var waits, pulls := s.deadline.spans, s.up.spans;
    && waits != [] && waits[0].since == 0
    && (!s.hasBody ==> s.up.phase.Unbuilt?)
    && (s.caller.Preparing? ==> waits[0].until.None? && !s.started)
    && (s.up.phase.Building? ==> s.caller.Preparing? && s.answered.None?)
    && (!s.started ==> |waits| == 1 && |pulls| <= 1
                       && (s.up.phase.Unbuilt? || s.up.phase.Building? || s.up.phase.Idle?))
    && (s.started ==> waits[0].until.Some? && waits[0].until.value <= s.now)
    && (|pulls| >= 1 && pulls[0].until.Some? ==>
          && pulls[0].until.value <= s.now
          && (waits[0].until.Some? ==> pulls[0].until.value <= waits[0].until.value)
          && (s.answered.Some? ==> pulls[0].until.value <= s.answered.value))
    && (|pulls| > 1 ==> s.started && waits[0].until.value <= pulls[1].since <= s.now)
    && (s.up.phase.HandingBack? || |waits| > 1 ==>
          |pulls| > 1 && pulls[1].until.Some? && pulls[1].until.value <= s.now)
    && (forall i :: 1 <= i < |waits| ==> pulls[1].until.value <= waits[i].since)
  }

  /** When the spans of a guard were, and whether the last is over. */
  lemma SpansOfGuard(g: Guard, limit: nat, now: nat)
    requires BodyInv(g, limit, now)
    ensures forall i :: 0 <= i < |g.spans| ==>
              && g.spans[i].since <= now
              && (g.spans[i].until.Some? ==> g.spans[i].until.value <= now)
              && (i < |g.spans| - 1 || !(g.phase.Building? || g.phase.Outstanding? || g.phase.Returned?) ==>
                    g.spans[i].until.Some?)
    ensures MadeFirst(g)
  {
  }

  lemma ReadKeepsWaits(s: State, step: Step)
    requires WaitsFit(s) && Inv(s) && Enabled(s, step)
    requires step.UpBuilds? || step.UpBuilt? || step.UpReads? || step.UpArms? || step.UpDisarms?
    ensures WaitsFit(Apply(s, step))
  {
    SpansAfter(s.deadline, s.now);
    SpansAfter(s.up, s.now);
    SpansOfGuard(s.up, s.limit, s.now);
    hide Reset, Stop, BodyInv, DeadlineInv;
  }

  lemma DeadlineKeepsWaits(s: State, step: Step)
    requires WaitsFit(s) && Inv(s) && Enabled(s, step)
    requires step.UpHandsBack? || step.StopsDeadline? || step.MarksAnswered?
    ensures WaitsFit(Apply(s, step))
  {
    SpansAfter(s.deadline, s.now);
    SpansOfGuard(s.up, s.limit, s.now);
    hide Reset, Stop, BodyInv, DeadlineInv;
  }

  lemma OthersKeepWaits(s: State, t: State)
    requires WaitsFit(s) && s.now <= t.now
    requires t.deadline.spans == s.deadline.spans && t.up.spans == s.up.spans && t.started == s.started
    requires t.answered == s.answered && t.hasBody == s.hasBody
    requires t.caller == s.caller || (!t.caller.Preparing? && (s.caller.Preparing? ==> !s.up.phase.Building?))
    requires t.up.phase == s.up.phase || (s.up.phase.Outstanding? && t.up.phase.Returned? && s.started)
    ensures WaitsFit(t)
  {
  }

  /** Steps that leave the spans alone. */
  predicate LeavesSpans(step: Step) {
    match step
    case UpBuilds => false
    case UpBuilt => false
    case UpReads => false
    case UpArms => false
    case UpDisarms => false
    case UpHandsBack => false
    case StopsDeadline => false
    case MarksAnswered => false
    case _ => true
  }

  lemma SpansLeft(s: State, step: Step)
    requires Enabled(s, step) && LeavesSpans(step)
    ensures var t := Apply(s, step);
            && s.now <= t.now && t.answered == s.answered && t.hasBody == s.hasBody && t.started == s.started
            && t.deadline.spans == s.deadline.spans && t.up.spans == s.up.spans
  {
    hide Reset, Stop, Due;
  }

  lemma CallerAfter(s: State, step: Step)
    requires Enabled(s, step) && LeavesSpans(step) && (!s.hasBody ==> s.up.phase.Unbuilt?)
    ensures var t := Apply(s, step);
            t.caller == s.caller || (!t.caller.Preparing? && (s.caller.Preparing? ==> !s.up.phase.Building?))
  {
    hide Reset, Stop, Due, Fire, Callback;
  }

  lemma PhaseAfter(s: State, step: Step)
    requires Enabled(s, step) && LeavesSpans(step) && (s.up.phase.Outstanding? ==> s.started)
    ensures var t := Apply(s, step);
            t.up.phase == s.up.phase || (s.up.phase.Outstanding? && t.up.phase.Returned? && s.started)
  {
    hide Reset, Stop, Due;
  }

  lemma FitsWhen(s: State)
    requires WaitsFit(s)
    ensures (!s.hasBody ==> s.up.phase.Unbuilt?) && (s.up.phase.Outstanding? ==> s.started)
  {
  }

  lemma StepKeepsWaits(s: State, step: Step)
    requires WaitsFit(s) && Inv(s) && Enabled(s, step)
    ensures WaitsFit(Apply(s, step))
  {
    hide WaitsFit, Inv, Enabled, Apply;
    match step
    case UpBuilds => ReadKeepsWaits(s, step);
    case UpBuilt => ReadKeepsWaits(s, step);
    case UpReads => ReadKeepsWaits(s, step);
    case UpArms => ReadKeepsWaits(s, step);
    case UpDisarms => ReadKeepsWaits(s, step);
    case UpHandsBack => DeadlineKeepsWaits(s, step);
    case StopsDeadline => DeadlineKeepsWaits(s, step);
    case MarksAnswered => DeadlineKeepsWaits(s, step);
    case _ => OtherStepKeepsWaits(s, step);
  }

  lemma OtherStepKeepsWaits(s: State, step: Step)
    requires WaitsFit(s) && Enabled(s, step) && LeavesSpans(step)
    ensures WaitsFit(Apply(s, step))
  {
    hide *;
    FitsWhen(s);
    SpansLeft(s, step);
    CallerAfter(s, step);
    PhaseAfter(s, step);
    OthersKeepWaits(s, Apply(s, step));
  }

  lemma {:induction false} WaitsAlwaysFit(limit: nat, hasBody: bool, steps: seq<Step>)
    ensures var s := After(Start(limit, hasBody), steps);
            s.Some? ==> WaitsFit(s.value)
  {
    hide WaitsFit, Inv, Apply, Enabled, Start;
    if steps == [] {
      StartFits(limit, hasBody);
    } else {
      WaitsAlwaysFit(limit, hasBody, steps[..|steps| - 1]);
      var t := After(Start(limit, hasBody), steps[..|steps| - 1]);
      if t.Some? && Enabled(t.value, steps[|steps| - 1]) {
        RunKeepsInv(limit, hasBody, steps[..|steps| - 1]);
        StepKeepsWaits(t.value, steps[|steps| - 1]);
      }
    }
  }

  lemma StartFits(limit: nat, hasBody: bool)
    ensures WaitsFit(Start(limit, hasBody))
  {
  }

  /** So a timely transfer whose answer's guard was made in less than the limit is never cut
      by a timer, however long it takes in all, however slow its caller, and however late the
      callbacks run. The request's guard needs no such condition: its making is part of the
      first wait. */
  lemma TimelyIsNeverCut(limit: nat, hasBody: bool, steps: seq<Step>, s: State)
    requires After(Start(limit, hasBody), steps) == Some(s)
    requires Timely(s) && Prompt(s.down, limit, s.now)
    ensures s.up.cut == [] && s.down.cut == [] && s.deadline.cut == []
  {
    assert s.up.cut != [] ==> s.up.cut[0] in s.up.cut;
    assert s.down.cut != [] ==> s.down.cut[0] in s.down.cut;
    assert s.deadline.cut != [] ==> s.deadline.cut[0] in s.deadline.cut;
    RunKeepsInv(limit, hasBody, steps);
    WaitsAlwaysFit(limit, hasBody, steps);
    assert Prompt(s.up, limit, s.now);
    EveryCutWasEarned(limit, hasBody, steps, s);
  }

  lemma NothingIsTimely(s: State)
    requires Inv(s) && WaitsFit(s) && s.limit == 0
    ensures !Timely(s)
  {
    var wait := s.deadline.spans[0];
    assert wait.since == 0 && Unanswered(wait, s.answered, s.now) >= 0;
  }

  /** And with no less: for any making of the answer's guard that takes the limit or more,
      some timely transfer is cut, and for any shorter one none is. */
  lemma TimelyCutExactly(limit: nat, d: nat)
    ensures (exists s, hasBody :: && Reached(limit, hasBody, s) && Timely(s)
                                  && s.down.spans != [] && Lasted(s.down.spans[0], s.now) == d
                                  && (s.up.cut != [] || s.down.cut != [] || s.deadline.cut != []))
            <==> d >= limit > 0
  {
    if d >= limit > 0 {
      var s := ResponseGuardCuts(limit, d);
      assert Timely(s);
      assert Reached(limit, false, s);
    } else {
      forall s, hasBody | && Reached(limit, hasBody, s) && Timely(s)
                          && s.down.spans != [] && Lasted(s.down.spans[0], s.now) == d
        ensures s.up.cut == [] && s.down.cut == [] && s.deadline.cut == []
      {
        var steps :| After(Start(limit, hasBody), steps) == Some(s);
        RunKeepsInv(limit, hasBody, steps);
        if limit > 0 {
          TimelyIsNeverCut(limit, hasBody, steps, s);
        } else {
          WaitsAlwaysFit(limit, hasBody, steps);
          NothingIsTimely(s);
        }
      }
    }
  }

  /** Once the answer has arrived the deadline cancels nothing more, whether it had already
      fired, fires later, or is armed again by the end of the request body. */
  lemma {:induction false} AnsweredIsFinal(s: State, steps: seq<Step>)
    requires Answered(s)
    ensures var t := After(s, steps);
            t.Some? ==> t.value.deadline.cut == s.deadline.cut && t.value.answered == s.answered && Answered(t.value)
  {
    hide Apply, Enabled, Answered;
    if steps != [] {
      AnsweredIsFinal(s, steps[..|steps| - 1]);
      var t := After(s, steps[..|steps| - 1]);
      if t.Some? && Enabled(t.value, steps[|steps| - 1]) {
        AnsweredStays(t.value, steps[|steps| - 1]);
      }
    }
  }

  /** The flag is up and the caller past raising it. */
  predicate Answered(s: State) {
    s.answered.Some? && !s.caller.Preparing? && !s.caller.InDo? && !s.caller.Back?
  }

  lemma AnsweredStays(s: State, step: Step)
    requires Answered(s) && Enabled(s, step)
    ensures var t := Apply(s, step);
            t.deadline.cut == s.deadline.cut && t.answered == s.answered && Answered(t)
  {
  }

  /** The other direction: a Read outstanding for the limit is cut. Its timer is due, or has
      gone off for this very Read, unless the body was closed under it. And so is a wait for
      the first Read or the answer. */
  lemma AStallIsCut(limit: nat, hasBody: bool, steps: seq<Step>, s: State)
    requires After(Start(limit, hasBody), steps) == Some(s)
    ensures HasOpenSpan(s.up) && !s.up.closed && Lasted(s.up.spans[|s.up.spans| - 1], s.now) >= limit ==>
              Enabled(s, UpFires) || FiredFor(s.up, |s.up.spans| - 1)
    ensures HasOpenSpan(s.down) && !s.down.closed && Lasted(s.down.spans[|s.down.spans| - 1], s.now) >= limit ==>
              Enabled(s, DownFires) || FiredFor(s.down, |s.down.spans| - 1)
    ensures s.answered.None? && HasOpenSpan(s.deadline)
            && Lasted(s.deadline.spans[|s.deadline.spans| - 1], s.now) >= limit ==>
              Enabled(s, DeadlineFires) || FiredFor(s.deadline, |s.deadline.spans| - 1)
    ensures s.up.phase.Outstanding? ==> HasOpenSpan(s.up)
    ensures s.down.phase.Outstanding? ==> HasOpenSpan(s.down)
  {
    RunKeepsInv(limit, hasBody, steps);
  }

  /** No timer is running and none has gone off. */
  predicate NothingWatches(s: State) {
    && !s.deadline.timer.On? && !s.up.timer.On? && !s.down.timer.On?
    && s.deadline.late == s.up.late == s.down.late == []
  }

  /** Some timer is not always armed: between two Reads of the request body nothing bounds
      the wait. */
  lemma BetweenReadsNothingWatches(limit: nat, d: nat) returns (steps: seq<Step>, s: State)
    ensures After(Start(limit, true), steps) == Some(s)
    ensures NothingWatches(s) && s.answered.None? && s.now == d
  {
    var s0 := Start(limit, true);
    steps, s := [], s0;
    steps, s := Go(s0, steps, s, UpBuilds);
    steps, s := Go(s0, steps, s, UpBuilt);
    steps, s := Go(s0, steps, s, Enters);
    steps, s := Go(s0, steps, s, UpReads);
    steps, s := Go(s0, steps, s, UpArms);
    steps, s := Go(s0, steps, s, UpReturns(false));
    steps, s := Go(s0, steps, s, UpDisarms);
    steps, s := Go(s0, steps, s, Pass(d));
  }

  /** And nothing bounds reading the body of a refusal. */
  lemma ARefusalIsReadUnwatched(limit: nat, hasBody: bool, d: nat) returns (steps: seq<Step>, s: State)
    ensures After(Start(limit, hasBody), steps) == Some(s)
    ensures NothingWatches(s) && s.caller == Arrived(Refused) && s.now == d
  {
    var s0 := Start(limit, hasBody);
    steps, s := [], s0;
    if hasBody {
      steps, s := Go(s0, steps, s, UpBuilds);
      steps, s := Go(s0, steps, s, UpBuilt);
    }
    steps, s := Go(s0, steps, s, Enters);
    steps, s := Go(s0, steps, s, DoReturns(Refused));
    steps, s := Go(s0, steps, s, MarksAnswered);
    steps, s := Go(s0, steps, s, StopsDeadline);
    steps, s := Go(s0, steps, s, Pass(d));
  }
}
