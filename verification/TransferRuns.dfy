/** The three timers told by what was done alone: the steps of a run say when each was set and
    stopped, and that decides what can be canceled and what will be. */
module TransferRuns {
  import opened Outcomes
  import opened Transfer

  /** The waiting deadline, the guard on the request body and the guard on the answer's. */
  datatype Which = Wait | Sending | Receiving

  function Init<T>(s: seq<T>): seq<T>
    requires s != []
  {
    s[..|s| - 1]
  }

  function Last<T>(s: seq<T>): T
    requires s != []
  {
    s[|s| - 1]
  }

  // ---- The account of a run, from its steps ----

  /** The time that has passed. */
  function Clock(steps: seq<Step>): nat {
    if steps == [] then 0
    else Clock(Init(steps)) + if Last(steps).Pass? then Last(steps).d else 0
  }

  /** The wait starts over at the end of the request body, and a guard's clock with its making
      and with each Read. */
  predicate Sets(w: Which, step: Step) {
    match w
    case Wait => step.UpHandsBack?
    case Sending => step.UpBuilds? || step.UpArms?
    case Receiving => step.DownBuilds? || step.DownReads?
  }

  /** The wait is over with the first Read of the request body or the caller's Stop, and a
      guard's clock stops with the making or the Read, or with the body closed. */
  predicate Stops(w: Which, before: seq<Step>, step: Step) {
    match w
    case Wait => step.StopsDeadline? || (step.UpReads? && UpReads !in before)
    case Sending => step.UpBuilt? || step.UpDisarms? || step.UpCloses?
    case Receiving => step.DownBuilt? || step.DownDisarms? || step.DownCloses?
  }

  /** Since when the clock has been running, if it is. */
  function Since(w: Which, steps: seq<Step>): Option<nat> {
    if steps == [] then if w.Wait? then Some(0) else None
    else if Sets(w, Last(steps)) then Some(Clock(Init(steps)))
    else if Stops(w, Init(steps), Last(steps)) then None
    else Since(w, Init(steps))
  }

  /** A full limit has passed, and for the wait no answer has come. */
  predicate Overdue(w: Which, limit: nat, steps: seq<Step>) {
    && Since(w, steps).Some?
    && Clock(steps) >= Since(w, steps).value + limit
    && (w.Wait? ==> MarksAnswered !in steps)
  }

  function The(w: Which, s: State): Guard {
    match w
    case Wait => s.deadline
    case Sending => s.up
    case Receiving => s.down
  }

  function Firings(w: Which): Step {
    match w
    case Wait => DeadlineFires
    case Sending => UpFires
    case Receiving => DownFires
  }

  function Callbacks(w: Which): Step {
    match w
    case Wait => DeadlineCallback
    case Sending => UpCallback
    case Receiving => DownCallback
  }

  // ---- The account is kept ----

  /** The state's timer is the one the steps tell of. */
  ghost predicate Account(w: Which, g: Guard, answered: bool, since: Option<nat>) {
    && (since.None? ==> !g.timer.On?)
    && (since.Some? ==> HasOpenSpan(g) && Last(g.spans).since == since.value)
    && (since.Some? && !(w.Wait? && answered) ==> g.timer.On? || FiredFor(g, |g.spans| - 1))
  }

  ghost predicate Told(s: State, steps: seq<Step>) {
    && s.now == Clock(steps)
    && (s.started <==> UpReads in steps)
    && (s.answered.Some? <==> MarksAnswered in steps)
    && (forall w :: Account(w, The(w, s), s.answered.Some?, Since(w, steps)))
  }

  lemma SetKeeps(w: Which, g: Guard, answered: bool, since: Option<nat>, now: nat, limit: nat)
    requires GuardInv(g, limit, now) && Account(w, g, answered, since)
    ensures Account(w, Reset(g, now), answered, Some(now))
    ensures Account(w, Stop(g, now), answered, None)
    ensures Account(w, g.(timer := Off, closed := true), answered, None)
  {
  }

  lemma FiringKeeps(w: Which, g: Guard, answered: bool, since: Option<nat>, now: nat, limit: nat)
    requires GuardInv(g, limit, now) && Account(w, g, answered, since)
    ensures Due(g, now, limit) ==> Account(w, Fire(g, now), answered, since)
    ensures g.late != [] ==> Account(w, Callback(g, !(w.Wait? && answered)), answered, since)
  {
    if Due(g, now, limit) {
      FireKeeps(g, limit, now);
      var e := Firing(g.timer.armed, now);
      assert e in Fire(g, now).late + Fire(g, now).cut;
    }
    if g.late != [] && !(w.Wait? && answered) {
      var h := Callback(g, true);
      forall e | e in g.late + g.cut ensures e in h.late + h.cut {
        assert e == g.late[0] || e in g.late[1..] || e in g.cut;
      }
    }
  }

  /** What the phase and the flag are makes no difference. */
  lemma PhaseKeeps(w: Which, g: Guard, phase: Phase, answered: bool, since: Option<nat>)
    requires Account(w, g, answered, since)
    ensures Account(w, g.(phase := phase), answered, since) && Account(w, g, true, since)
  {
  }

  lemma OneMore(w: Which, steps: seq<Step>, step: Step)
    ensures Clock(steps + [step]) == Clock(steps) + if step.Pass? then step.d else 0
    ensures Since(w, steps + [step]) ==
            if Sets(w, step) then Some(Clock(steps)) else if Stops(w, steps, step) then None else Since(w, steps)
    ensures forall other :: other in steps + [step] <==> other in steps || other == step
    ensures (steps + [step])[..|steps|] == steps
  {
    assert Init(steps + [step]) == steps;
    assert Last(steps + [step]) == step;
  }

  /** What a step does to a timer. */
  ghost predicate TimerMoves(w: Which, s: State, steps: seq<Step>, step: Step, g: Guard, h: Guard) {
    if Sets(w, step) then h == Reset(g, s.now).(phase := h.phase)
    else if Stops(w, steps, step) then
      h == Stop(g, s.now).(phase := h.phase) || h == g.(timer := Off, closed := true)
    else
      || h == g.(phase := h.phase)
      || (Due(g, s.now, s.limit) && h == Fire(g, s.now))
      || (g.late != [] && h == Callback(g, !(w.Wait? && s.answered.Some?)))
  }

  lemma WaitMoves(s: State, steps: seq<Step>, step: Step)
    requires Enabled(s, step) && (s.started <==> UpReads in steps)
    ensures TimerMoves(Wait, s, steps, step, s.deadline, Apply(s, step).deadline)
  {
    hide Reset, Stop, Fire, Callback, Due;
  }

  lemma SendingMoves(s: State, steps: seq<Step>, step: Step)
    requires Enabled(s, step)
    ensures TimerMoves(Sending, s, steps, step, s.up, Apply(s, step).up)
  {
    hide Reset, Stop, Fire, Callback, Due;
  }

  lemma ReceivingMoves(s: State, steps: seq<Step>, step: Step)
    requires Enabled(s, step)
    ensures TimerMoves(Receiving, s, steps, step, s.down, Apply(s, step).down)
  {
    hide Reset, Stop, Fire, Callback, Due;
  }

  lemma FlagAfter(w: Which, s: State, step: Step)
    requires Enabled(s, step)
    ensures Apply(s, step).answered.Some? <==> s.answered.Some? || step.MarksAnswered?
    ensures step.MarksAnswered? ==> The(w, Apply(s, step)) == The(w, s)
  {
    hide Reset, Stop, Fire, Callback, Due;
  }

  lemma TimersMove(w: Which, s: State, steps: seq<Step>, step: Step)
    requires Enabled(s, step) && (s.started <==> UpReads in steps)
    ensures TimerMoves(w, s, steps, step, The(w, s), The(w, Apply(s, step)))
  {
    hide Apply, Enabled, TimerMoves;
    match w
    case Wait => WaitMoves(s, steps, step);
    case Sending => SendingMoves(s, steps, step);
    case Receiving => ReceivingMoves(s, steps, step);
  }

  /** The account of the timer as it moved. */
  lemma MovesKeepAccount(w: Which, s: State, steps: seq<Step>, step: Step, g: Guard, h: Guard, later: bool)
    requires TimerMoves(w, s, steps, step, g, h) && GuardInv(g, s.limit, s.now)
    requires Account(w, g, s.answered.Some?, Since(w, steps)) && s.now == Clock(steps)
    requires later == s.answered.Some? || (later && h == g)
    ensures Account(w, h, later, Since(w, steps + [step]))
  {
    var since, was := Since(w, steps), s.answered.Some?;
    hide Account, GuardInv, Reset, Stop, Fire, Callback, Since, Sets, Stops;
    OneMore(w, steps, step);
    SetKeeps(w, g, was, since, s.now, s.limit);
    FiringKeeps(w, g, was, since, s.now, s.limit);
    PhaseKeeps(w, g, h.phase, was, since);
    PhaseKeeps(w, Reset(g, s.now), h.phase, was, Some(s.now));
    PhaseKeeps(w, Stop(g, s.now), h.phase, was, None);
    PhaseKeeps(w, h, h.phase, was, Since(w, steps + [step]));
  }

  lemma GuardsHold(w: Which, s: State, steps: seq<Step>)
    requires Inv(s) && Told(s, steps)
    ensures GuardInv(The(w, s), s.limit, s.now) && Account(w, The(w, s), s.answered.Some?, Since(w, steps))
    ensures (s.started <==> UpReads in steps) && s.now == Clock(steps)
  {
    hide GuardInv, Account, Since;
  }

  lemma TimerIsKept(w: Which, s: State, steps: seq<Step>, step: Step)
    requires Inv(s) && Told(s, steps) && Enabled(s, step)
    ensures var t := Apply(s, step);
            Account(w, The(w, t), t.answered.Some?, Since(w, steps + [step]))
  {
    hide *;
    GuardsHold(w, s, steps);
    FlagAfter(w, s, step);
    TimersMove(w, s, steps, step);
    var t := Apply(s, step);
    MovesKeepAccount(w, s, steps, step, The(w, s), The(w, t), t.answered.Some?);
  }

  lemma FlagsKept(s: State, steps: seq<Step>, step: Step)
    requires Told(s, steps) && Enabled(s, step)
    ensures var t := Apply(s, step);
            && t.now == Clock(steps + [step])
            && (t.started <==> UpReads in steps + [step])
            && (t.answered.Some? <==> MarksAnswered in steps + [step])
  {
    hide Account, Since, Reset, Stop, Fire, Callback, Due;
    OneMore(Wait, steps, step);
  }

  lemma StepKeepsTold(s: State, steps: seq<Step>, step: Step)
    requires Inv(s) && Told(s, steps) && Enabled(s, step)
    ensures Told(Apply(s, step), steps + [step])
  {
    FlagsKept(s, steps, step);
    hide Account, Since, Apply, Enabled;
    var t := Apply(s, step);
    forall w ensures Account(w, The(w, t), t.answered.Some?, Since(w, steps + [step])) {
      TimerIsKept(w, s, steps, step);
    }
  }

  lemma {:induction false} EveryRunIsTold(limit: nat, hasBody: bool, steps: seq<Step>)
    ensures var s := After(Start(limit, hasBody), steps);
            s.Some? ==> Inv(s.value) && s.value.limit == limit && Told(s.value, steps)
  {
    RunKeepsInv(limit, hasBody, steps);
    if steps == [] {
    } else {
      hide Inv, Told, Apply, Enabled, Start;
      EveryRunIsTold(limit, hasBody, Init(steps));
      var t := After(Start(limit, hasBody), Init(steps));
      if t.Some? && Enabled(t.value, Last(steps)) {
        StepKeepsTold(t.value, Init(steps), Last(steps));
        assert Init(steps) + [Last(steps)] == steps;
      }
    }
  }

  // ---- A cancel has its cause in the steps ----

  /** A timer may have gone off: at some point its clock had run for the limit. */
  ghost predicate Ripe(w: Which, limit: nat, steps: seq<Step>) {
    exists k: nat :: k <= |steps| && Ran(w, limit, steps[..k])
  }

  predicate Ran(w: Which, limit: nat, steps: seq<Step>) {
    Since(w, steps).Some? && Clock(steps) >= Since(w, steps).value + limit
  }

  ghost predicate Caused(w: Which, limit: nat, steps: seq<Step>) {
    exists k: nat :: k <= |steps| && Overdue(w, limit, steps[..k])
  }

  /** What a step does to what went off and what was canceled. */
  lemma FiringsAfter(w: Which, s: State, steps: seq<Step>, step: Step)
    requires Enabled(s, step) && (s.started <==> UpReads in steps)
    ensures var g, h := The(w, s), The(w, Apply(s, step));
            && (h.late != [] ==> g.late != [] || Due(g, s.now, s.limit))
            && (h.cut != [] ==> g.cut != [] || (g.late != [] && (w.Wait? ==> s.answered.None?)))
  {
    hide *;
    TimersMove(w, s, steps, step);
    FiringsMove(w, s, steps, step, The(w, s), The(w, Apply(s, step)));
  }

  lemma FiringsMove(w: Which, s: State, steps: seq<Step>, step: Step, g: Guard, h: Guard)
    requires TimerMoves(w, s, steps, step, g, h)
    ensures h.late != [] ==> g.late != [] || Due(g, s.now, s.limit)
    ensures h.cut != [] ==> g.cut != [] || (g.late != [] && (w.Wait? ==> s.answered.None?))
  {
    hide Sets, Stops;
  }

  lemma DueHasRun(w: Which, s: State, steps: seq<Step>)
    requires Inv(s) && Told(s, steps) && Due(The(w, s), s.now, s.limit)
    ensures Ran(w, s.limit, steps)
  {
    assert Account(w, The(w, s), s.answered.Some?, Since(w, steps));
  }

  /** A transfer is canceled by a timer only if at some point its clock had run for the full
      limit, since it was last set and without having been stopped, and for the waiting
      deadline without an answer yet. */
  lemma {:induction false} EveryCutHasACause(limit: nat, hasBody: bool, steps: seq<Step>, s: State, w: Which)
    requires After(Start(limit, hasBody), steps) == Some(s)
    ensures The(w, s).late != [] ==> Ripe(w, limit, steps)
    ensures The(w, s).cut != [] ==> Caused(w, limit, steps)
  {
    if steps != [] {
      var before, step := Init(steps), Last(steps);
      var t := After(Start(limit, hasBody), before).value;
      EveryRunIsTold(limit, hasBody, before);
      EveryCutHasACause(limit, hasBody, before, t, w);
      assert t.started <==> UpReads in before;
      hide Inv, Told, Apply, Enabled, Start;
      FiringsAfter(w, t, before, step);
      CauseStays(w, limit, before, steps);
      if Due(The(w, t), t.now, t.limit) {
        DueHasRun(w, t, before);
        assert steps[..|before|] == before;
      }
      if The(w, t).late != [] && (w.Wait? ==> t.answered.None?) {
        RipeCauses(w, limit, t, before);
      }
    }
  }

  lemma RipeCauses(w: Which, limit: nat, s: State, steps: seq<Step>)
    requires Told(s, steps) && Ripe(w, limit, steps) && (w.Wait? ==> s.answered.None?)
    ensures Caused(w, limit, steps)
  {
    var k: nat :| k <= |steps| && Ran(w, limit, steps[..k]);
    assert Overdue(w, limit, steps[..k]);
  }

  lemma CauseStays(w: Which, limit: nat, before: seq<Step>, steps: seq<Step>)
    requires before <= steps
    ensures Ripe(w, limit, before) ==> Ripe(w, limit, steps)
    ensures Caused(w, limit, before) ==> Caused(w, limit, steps)
  {
    hide Ran, Overdue;
    assert forall k: nat :: k <= |before| ==> before[..k] == steps[..k];
  }

  // ---- And what is overdue is canceled ----

  /** The steps of one timer alone. */
  predicate Own(w: Which, steps: seq<Step>) {
    forall step :: step in steps ==> step == Firings(w) || step == Callbacks(w)
  }

  lemma DueIsPossible(s: State, w: Which)
    ensures Enabled(s, Firings(w)) <==> Due(The(w, s), s.now, s.limit)
    ensures Enabled(s, Callbacks(w)) <==> The(w, s).late != []
  {
  }

  /** One more step of a timer's own. */
  lemma OwnStep(start: State, steps: seq<Step>, s: State, w: Which, step: Step) returns (t: State)
    requires After(start, steps) == Some(s) && Enabled(s, step)
    requires step == Firings(w) || step == Callbacks(w)
    ensures After(start, steps + [step]) == Some(t) && t.now == s.now && t.answered == s.answered
    ensures var g, h := The(w, s), The(w, t);
            && h.spans == g.spans
            && (step == Firings(w) ==> g.timer.On? && h.late == g.late + [Firing(g.timer.armed, s.now)])
            && (step == Callbacks(w) && (w.Wait? ==> s.answered.None?) ==>
                  g.late != [] && h.late == g.late[1..] && h.cut == g.cut + [g.late[0]])
  {
    t := Apply(s, step);
    assert Init(steps + [step]) == steps;
    hide After;
  }

  /** The i-th pending callback runs, after those before it. */
  lemma {:induction false} Drain(start: State, steps: seq<Step>, s: State, w: Which, i: nat)
    returns (more: seq<Step>, t: State)
    requires After(start, steps) == Some(s) && i < |The(w, s).late| && (w.Wait? ==> s.answered.None?)
    ensures After(start, steps + more) == Some(t) && Own(w, more)
    ensures t.now == s.now && The(w, t).spans == The(w, s).spans && The(w, s).late[i] in The(w, t).cut
    decreases i
  {
    DueIsPossible(s, w);
    hide After, Apply, Enabled, The;
    var u := OwnStep(start, steps, s, w, Callbacks(w));
    var e := The(w, s).late[i];
    more, t := [Callbacks(w)], u;
    if i > 0 {
      assert The(w, u).late[i - 1] == e;
      var rest;
      rest, t := Drain(start, steps + [Callbacks(w)], u, w, i - 1);
      more := [Callbacks(w)] + rest;
      assert steps + more == (steps + [Callbacks(w)]) + rest;
    }
  }

  /** The cancel is for the stretch that is running now. */
  predicate CutNow(g: Guard, since: nat) {
    exists e :: e in g.cut && e.span == |g.spans| - 1 && g.spans != [] && Last(g.spans).since == since
  }

  lemma PendingCuts(limit: nat, hasBody: bool, steps: seq<Step>, s: State, w: Which, e: Firing)
    returns (more: seq<Step>, t: State)
    requires After(Start(limit, hasBody), steps) == Some(s) && (w.Wait? ==> s.answered.None?)
    requires e in The(w, s).late + The(w, s).cut
    ensures After(Start(limit, hasBody), steps + more) == Some(t) && Own(w, more)
    ensures t.now == s.now && The(w, t).spans == The(w, s).spans && e in The(w, t).cut
  {
    if e in The(w, s).late {
      var i: nat :| i < |The(w, s).late| && The(w, s).late[i] == e;
      more, t := Drain(Start(limit, hasBody), steps, s, w, i);
    } else {
      more, t := [], s;
      assert steps + more == steps;
    }
  }

  /** A clock that is running has its timer on, for its last span, or gone off for it. */
  lemma RunningIsOn(limit: nat, hasBody: bool, steps: seq<Step>, s: State, w: Which)
    requires After(Start(limit, hasBody), steps) == Some(s)
    requires Since(w, steps).Some? && (w.Wait? ==> MarksAnswered !in steps)
    ensures var g := The(w, s);
            && g.spans != [] && Last(g.spans).since == Since(w, steps).value
            && s.now == Clock(steps) && s.limit == limit && (w.Wait? ==> s.answered.None?)
            && ((g.timer.On? && g.timer.armed == |g.spans| - 1) || FiredFor(g, |g.spans| - 1))
  {
    EveryRunIsTold(limit, hasBody, steps);
    assert Account(w, The(w, s), s.answered.Some?, Since(w, steps));
    hide After, Start;
  }

  lemma FiringCuts(limit: nat, hasBody: bool, steps: seq<Step>, s: State, w: Which)
    returns (more: seq<Step>, t: State)
    requires After(Start(limit, hasBody), steps) == Some(s) && Enabled(s, Firings(w))
    requires The(w, s).timer.On? && (w.Wait? ==> s.answered.None?)
    ensures After(Start(limit, hasBody), steps + more) == Some(t) && Own(w, more)
    ensures t.now == s.now && The(w, t).spans == The(w, s).spans
    ensures Firing(The(w, s).timer.armed, s.now) in The(w, t).cut
  {
    hide After, Start, The, Enabled;
    var e := Firing(The(w, s).timer.armed, s.now);
    var u := OwnStep(Start(limit, hasBody), steps, s, w, Firings(w));
    assert Last(The(w, u).late) == e;
    assert e in The(w, u).late + The(w, u).cut;
    var rest;
    rest, t := PendingCuts(limit, hasBody, steps + [Firings(w)], u, w, e);
    more := [Firings(w)] + rest;
    assert steps + more == (steps + [Firings(w)]) + rest;
  }

  /** Nobody else is needed for it: wherever a clock has run for the limit, its timer's own
      steps cancel the transfer, before any more time passes. */
  lemma WhatIsOverdueIsCut(limit: nat, hasBody: bool, steps: seq<Step>, s: State, w: Which)
    returns (more: seq<Step>, t: State)
    requires After(Start(limit, hasBody), steps) == Some(s) && Overdue(w, limit, steps)
    ensures Own(w, more) && After(Start(limit, hasBody), steps + more) == Some(t)
    ensures t.now == s.now && CutNow(The(w, t), Since(w, steps).value)
  {
    RunningIsOn(limit, hasBody, steps, s, w);
    DueIsPossible(s, w);
    hide After, Start, Since, The, Enabled, Clock, Own;
    var g := The(w, s);
    if FiredFor(g, |g.spans| - 1) {
      var e :| e in g.late + g.cut && e.span == |g.spans| - 1;
      more, t := PendingCuts(limit, hasBody, steps, s, w, e);
    } else {
      more, t := FiringCuts(limit, hasBody, steps, s, w);
    }
  }

  // ---- The end of the request body ----

  /** The last Read of the request body said it is at its end, and has yet to hand back. */
  predicate BodyEnded(steps: seq<Step>) {
    steps != [] &&
    match Last(steps)
    case UpReturns(last) => last
    case UpReads => false
    case UpHandsBack => false
    case _ => BodyEnded(Init(steps))
  }

  lemma EndAfter(s: State, step: Step)
    requires Enabled(s, step)
    ensures var was, now := s.up.phase, Apply(s, step).up.phase;
            now == Returned(true) || now.HandingBack? <==>
            step == UpReturns(true) || (!step.UpReturns? && !step.UpReads? && !step.UpHandsBack?
                                        && (was == Returned(true) || was.HandingBack?))
  {
    hide Due;
  }

  lemma {:induction false} EndIsKnown(limit: nat, hasBody: bool, steps: seq<Step>, s: State)
    requires After(Start(limit, hasBody), steps) == Some(s)
    ensures BodyEnded(steps) <==> s.up.phase == Returned(true) || s.up.phase.HandingBack?
  {
    if steps != [] {
      var t := After(Start(limit, hasBody), Init(steps)).value;
      EndIsKnown(limit, hasBody, Init(steps), t);
      EndAfter(t, Last(steps));
      hide Apply, Enabled, Start;
    }
  }

  /** The Read that ended the body hands back, in its own next step or the one after, before
      there can be another Read, and no other Read does. */
  lemma TheEndIsHandedBack(limit: nat, hasBody: bool, steps: seq<Step>, s: State)
    requires After(Start(limit, hasBody), steps) == Some(s)
    ensures BodyEnded(steps) <==>
            || Enabled(s, UpHandsBack)
            || (Enabled(s, UpDisarms) && Enabled(Apply(s, UpDisarms), UpHandsBack))
    ensures BodyEnded(steps) ==> !Enabled(s, UpReads)
  {
    EndIsKnown(limit, hasBody, steps, s);
    hide After, Reset, Stop, Fire, Callback, Due;
  }

  lemma {:induction false} ClockRuns(steps: seq<Step>, i: nat)
    requires i <= |steps|
    ensures Clock(steps[..i]) <= Clock(steps)
  {
    if i < |steps| {
      assert Init(steps)[..i] == steps[..i];
      ClockRuns(Init(steps), i);
    } else {
      assert steps[..i] == steps;
    }
  }

  /** Each step of a run was possible when it was taken. */
  lemma {:induction false} WasPossible(start: State, steps: seq<Step>, s: State, i: nat) returns (b: State)
    requires After(start, steps) == Some(s) && i < |steps|
    ensures After(start, steps[..i]) == Some(b) && Enabled(b, steps[i])
  {
    var before := Init(steps);
    if i < |before| {
      b := WasPossible(start, before, After(start, before).value, i);
      assert before[..i] == steps[..i];
    } else {
      b := After(start, before).value;
    }
  }

  lemma HandedBackWasRead(limit: nat, hasBody: bool, steps: seq<Step>, s: State, i: nat)
    requires After(Start(limit, hasBody), steps) == Some(s)
    requires i < |steps| && steps[i] == UpHandsBack
    ensures UpReads in steps[..i]
  {
    var b := WasPossible(Start(limit, hasBody), steps, s, i);
    WaitsAlwaysFit(limit, hasBody, steps[..i]);
    EveryRunIsTold(limit, hasBody, steps[..i]);
    hide After;
  }

  /** From when the request body's end was handed back until the caller stops it, the wait for
      the answer is on, and began no earlier than that. */
  lemma {:induction false} AnEndedBodyIsWaitedFor(limit: nat, hasBody: bool, steps: seq<Step>, s: State, i: nat)
    requires After(Start(limit, hasBody), steps) == Some(s)
    requires i < |steps| && steps[i] == UpHandsBack && StopsDeadline !in steps[i..]
    ensures Since(Wait, steps).Some? && Clock(steps[..i]) <= Since(Wait, steps).value <= Clock(steps)
    ensures UpHandsBack !in steps[i + 1..] ==> Since(Wait, steps).value == Clock(steps[..i])
  {
    HandedBackWasRead(limit, hasBody, steps, s, i);
    hide After, Start;
    SetOnceRead(steps, i);
  }

  lemma PartsOf(before: seq<Step>, last: Step, i: nat)
    requires i < |before|
    ensures var steps := before + [last];
            && steps[..i] == before[..i] && steps[i] == before[i]
            && steps[i..] == before[i..] + [last] && steps[i + 1..] == before[i + 1..] + [last]
  {
  }

  lemma {:induction false} SetOnceRead(steps: seq<Step>, i: nat)
    requires i < |steps| && steps[i] == UpHandsBack && StopsDeadline !in steps[i..] && UpReads in steps[..i]
    ensures Since(Wait, steps).Some? && Clock(steps[..i]) <= Since(Wait, steps).value <= Clock(steps)
    ensures UpHandsBack !in steps[i + 1..] ==> Since(Wait, steps).value == Clock(steps[..i])
  {
    var before := Init(steps);
    assert steps == before + [Last(steps)];
    OneMore(Wait, before, Last(steps));
    hide Clock, Since;
    ClockRuns(before, i);
    if i < |before| {
      PartsOf(before, Last(steps), i);
      SetOnceRead(before, i);
    } else {
      assert before == steps[..i];
    }
  }

  /** An upload whose body has ended and that is not answered within the limit is canceled. */
  lemma AnUnansweredUploadIsCut(limit: nat, hasBody: bool, steps: seq<Step>, s: State, i: nat)
    returns (more: seq<Step>, t: State)
    requires After(Start(limit, hasBody), steps) == Some(s)
    requires i < |steps| && steps[i] == UpHandsBack && UpHandsBack !in steps[i + 1..]
    requires MarksAnswered !in steps && Clock(steps) >= Clock(steps[..i]) + limit
    ensures Own(Wait, more) && After(Start(limit, hasBody), steps + more) == Some(t)
    ensures t.now == s.now && t.deadline.cut != []
  {
    UnmarkedIsUnstopped(limit, hasBody, steps, s);
    AnEndedBodyIsWaitedFor(limit, hasBody, steps, s, i);
    more, t := WhatIsOverdueIsCut(limit, hasBody, steps, s, Wait);
  }

  /** The caller stops the deadline only after raising the flag. */
  lemma {:induction false} UnmarkedIsUnstopped(limit: nat, hasBody: bool, steps: seq<Step>, s: State)
    requires After(Start(limit, hasBody), steps) == Some(s) && MarksAnswered !in steps
    ensures StopsDeadline !in steps
  {
    if steps != [] {
      var t := After(Start(limit, hasBody), Init(steps)).value;
      UnmarkedIsUnstopped(limit, hasBody, Init(steps), t);
      EveryRunIsTold(limit, hasBody, Init(steps));
      hide After, Start, Told, Account;
      assert steps == Init(steps) + [Last(steps)];
      UnmarkedIsEarly(limit, hasBody, Init(steps), t);
    }
  }

  lemma UnmarkedIsEarly(limit: nat, hasBody: bool, steps: seq<Step>, s: State)
    requires After(Start(limit, hasBody), steps) == Some(s) && MarksAnswered !in steps
    ensures !s.caller.Told?
  {
    EveryRunIsTold(limit, hasBody, steps);
    hide After, Start, Account;
  }

  /** Until the request body is read or the caller stops it, the wait is from the start. */
  lemma {:induction false} TheFirstWait(steps: seq<Step>)
    requires UpReads !in steps && StopsDeadline !in steps && UpHandsBack !in steps
    ensures Since(Wait, steps) == Some(0)
  {
    if steps != [] {
      assert steps == Init(steps) + [Last(steps)];
      TheFirstWait(Init(steps));
    }
  }

  /** A request body read to its end in two Reads. */
  lemma ABodyIsSent(limit: nat, a: nat, b: nat) returns (steps: seq<Step>, s: State)
    ensures After(Start(limit, true), steps) == Some(s) && s.now == a + b && s.caller.InDo?
    ensures s.hasBody && s.up.phase.Idle? && s.down.phase.Unbuilt?
  {
    var s0 := Start(limit, true);
    steps, s := [], s0;
    hide Reset, Stop;
    steps, s := Go(s0, steps, s, UpBuilds);
    steps, s := Go(s0, steps, s, UpBuilt);
    steps, s := Go(s0, steps, s, Enters);
    steps, s := Go(s0, steps, s, UpReads);
    steps, s := Go(s0, steps, s, UpArms);
    steps, s := Go(s0, steps, s, Pass(a));
    steps, s := Go(s0, steps, s, UpReturns(false));
    steps, s := Go(s0, steps, s, UpDisarms);
    steps, s := Go(s0, steps, s, Pass(b));
    steps, s := Go(s0, steps, s, UpReads);
    steps, s := Go(s0, steps, s, UpArms);
    steps, s := Go(s0, steps, s, UpReturns(true));
    steps, s := Go(s0, steps, s, UpDisarms);
    steps, s := Go(s0, steps, s, UpHandsBack);
  }

  /** A whole transfer, every party doing what it does: its steps can be taken in this order,
      whatever time passes in and between its Reads. */
  lemma AWholeTransferRuns(limit: nat, a: nat, b: nat, c: nat, d: nat) returns (steps: seq<Step>, s: State)
    ensures After(Start(limit, true), steps) == Some(s) && s.caller.Finished? && s.now == a + b + c + d
  {
    var s0 := Start(limit, true);
    steps, s := ABodyIsSent(limit, a, b);
    hide Reset, Stop, After, Start;
    steps, s := Go(s0, steps, s, UpCloses);
    steps, s := Go(s0, steps, s, DoReturns(Accepted));
    steps, s := Go(s0, steps, s, MarksAnswered);
    steps, s := Go(s0, steps, s, StopsDeadline);
    steps, s := Go(s0, steps, s, DownBuilds);
    steps, s := Go(s0, steps, s, DownBuilt);
    steps, s := Go(s0, steps, s, DownReads);
    steps, s := Go(s0, steps, s, Pass(c));
    steps, s := Go(s0, steps, s, DownReturns);
    steps, s := Go(s0, steps, s, DownDisarms);
    steps, s := Go(s0, steps, s, Pass(d));
    steps, s := Go(s0, steps, s, DownCloses);
  }

  lemma NoStepsYet(start: State)
    ensures After(start, []) == Some(start)
  {
  }

  lemma ARefusal(limit: nat) returns (steps: seq<Step>, s: State)
    ensures After(Start(limit, true), steps) == Some(s) && s.caller == Arrived(Refused) && s.answered.Some?
    ensures s.hasBody && s.up.phase.Idle?
  {
    var s0 := Start(limit, true);
    steps, s := [], s0;
    NoStepsYet(s0);
    hide After, Reset, Stop;
    steps, s := Go(s0, steps, s, UpBuilds);
    steps, s := Go(s0, steps, s, UpBuilt);
    steps, s := Go(s0, steps, s, Enters);
    steps, s := Go(s0, steps, s, DoReturns(Refused));
    steps, s := Go(s0, steps, s, MarksAnswered);
    steps, s := Go(s0, steps, s, StopsDeadline);
  }

  /** Google may refuse an upload before its body is read: the body's end then comes after the
      flag, and the deadline it sets again is never stopped, though it cancels nothing. */
  lemma ARefusalMayComeEarly(limit: nat) returns (steps: seq<Step>, s: State)
    ensures After(Start(limit, true), steps) == Some(s) && s.caller.Finished? && s.answered.Some?
    ensures s.deadline.timer.On?
  {
    var s0 := Start(limit, true);
    steps, s := ARefusal(limit);
    hide After, Start, Close;
    steps, s := Go(s0, steps, s, UpReads);
    steps, s := Go(s0, steps, s, UpArms);
    steps, s := Go(s0, steps, s, UpReturns(true));
    steps, s := Go(s0, steps, s, UpDisarms);
    steps, s := Go(s0, steps, s, UpHandsBack);
    steps, s := Go(s0, steps, s, CallerCancels);
  }

  /** And a call may fail before Do is entered. */
  lemma ACallMayFailAtOnce(limit: nat) returns (steps: seq<Step>, s: State)
    ensures After(Start(limit, false), steps) == Some(s) && s.caller.Finished? && |steps| == 4
  {
    var s0 := Start(limit, false);
    steps, s := [], s0;
    hide After;
    assert After(s0, steps) == Some(s) by {
      NoStepsYet(s0);
    }
    steps, s := Go(s0, steps, s, DoReturns(Failed));
    steps, s := Go(s0, steps, s, MarksAnswered);
    steps, s := Go(s0, steps, s, StopsDeadline);
    steps, s := Go(s0, steps, s, CallerCancels);
  }
}
