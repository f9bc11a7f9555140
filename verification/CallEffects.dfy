/** What one call, retries and all, does to Google's store, and what its answer proves. */
module CallEffects {
  import opened Outcomes
  import opened Errors
  import opened GoogleModel
  import opened Engine
  import opened EngineTheorems

  /** The change a call may make: a create under a name adds that name if it was free, a
      delete takes one away if it was there, and a read changes nothing. */
  ghost predicate Changed(act: Act, before: Google, after: Google) {
    match act
    case Reads => after == before
    case Fetches(_) => after == before
    case CreatesAs(n) =>
      || after == before
      || (n !in before.stored
          && after == before.(applied := before.applied + 1, stored := before.stored + multiset{n}))
    case Removes(n) =>
      || after == before
      || (before.There(n) && after == before.(applied := before.applied + 1, tombs := before.tombs + {n}))
    case Creates => after == before.(applied := after.applied)
    case Sets => after == before.(applied := after.applied)
  }

  /** What a success shows. */
  ghost predicate Shown(act: Act, before: Google, after: Google, b: Body) {
    match act
    case CreatesAs(n) => n in after.stored
    case Fetches(n) => n in after.stored && (b.deleted <==> n in after.tombs)
    case Removes(n) => before.There(n) && !after.There(n)
    case _ => true
  }

  /** What a not-found answer shows: what the request would be shown is not there. */
  ghost predicate GoneIfNotFound(r: Request, after: Google, e: Error) {
    (r.act.Fetches? || r.act.Removes?) && IsNotFound(e) ==>
      !(after.There(r.act.target) && after.Shows(r.act.target, Privileged(r)))
  }

  /** A delete takes away only what the request is shown. */
  ghost predicate OnlyShown(r: Request, before: Google, after: Google) {
    && after.hidden == before.hidden
    && (r.act.Removes? && after != before ==> before.Shows(r.act.target, Privileged(r)))
  }

  lemma AttemptEffect(r: Request, m: Move, g: Google)
    ensures var (g', reply) := Attempt(r, m, g);
            && Changed(r.act, g, g') && OnlyShown(r, g, g')
            && (reply.res.Ok? ==> Shown(r.act, g, g', reply.res.value))
            && (reply.res.Err? ==>
                  && GoneIfNotFound(r, g', reply.res.error)
                  && GoneIfNotFound(r, g', MarkUnsafeWrite(reply.res.error, r)))
  {
    AttemptChanges(r, m, g);
    AttemptTells(r, m, g);
    hide Attempt;
  }

  lemma AttemptChanges(r: Request, m: Move, g: Google)
    ensures var (g', reply) := Attempt(r, m, g);
            Changed(r.act, g, g') && OnlyShown(r, g, g')
  {
    hide Honest, ParseApiError, Uncertain;
  }

  lemma AttemptTells(r: Request, m: Move, g: Google)
    ensures var (g', reply) := Attempt(r, m, g);
            && (reply.res.Ok? ==> Shown(r.act, g, g', reply.res.value))
            && (reply.res.Err? ==>
                  && GoneIfNotFound(r, g', reply.res.error)
                  && GoneIfNotFound(r, g', MarkUnsafeWrite(reply.res.error, r)))
  {
  }

  lemma ChangesCompose(act: Act, a: Google, b: Google, c: Google)
    requires Changed(act, a, b) && Changed(act, b, c)
    ensures Changed(act, a, c)
    ensures act.Removes? && b.There(act.target) ==> a.There(act.target)
  {
  }

  lemma {:induction false} LoopEffect(r: Request, tries: Retries, w: World, try: nat, last: Option<Error>, net: Net)
    requires try <= tries + 1
    requires try > 0 ==> last.Some? && last.value.RetryHint? && GoneIfNotFound(r, net.google, last.value.err)
    ensures var (out, res) := Loop(r, tries, w, try, last, net);
            && Changed(r.act, net.google, out.google) && OnlyShown(r, net.google, out.google)
            && (res.Ok? ==> Shown(r.act, net.google, out.google, res.value))
            && (res.Err? ==> GoneIfNotFound(r, out.google, res.error))
    decreases tries + 1 - try
  {
    hide Attempt, ShouldRetry, MarkUnsafeWrite, Backoff;
    if try <= tries {
      var t := w.tick(try);
      var waits := if try > 0 then net.waits + [Backoff(try, last.value, t.jitter)] else net.waits;
      if (try == 0 || t.noRest.None?) && t.noEntry.None? {
        AttemptEffect(r, t.move, net.google);
        var (g, reply) := Attempt(r, t.move, net.google);
        var next := Net(g, net.tried + [r], waits);
        if reply.res.Err? && ShouldRetry(reply.res.error, r) {
          var hint := Some(RetryHint(reply.res.error, reply.after));
          assert Loop(r, tries, w, try, last, net) == Loop(r, tries, w, try + 1, hint, next);
          LoopEffect(r, tries, w, try + 1, hint, next);
          var (out, _) := Loop(r, tries, w, try + 1, hint, next);
          ChangesCompose(r.act, net.google, g, out.google);
        }
      }
    }
  }

  /** A call's effect on the store and what its answer proves, over every run: a 2xx to a
      create means the name is taken, to a read that it was ever stored and whether it is a
      tombstone, to a delete that this call removed it; not found means it is not there, as far
      as the request is shown; and a delete takes nothing away that it is not shown. */
  lemma CallEffect(ctx: Context, r: Request, tries: Retries, wanted: bool, w: World, net: Net)
    ensures var (out, res) := DoSpec(ctx, r, tries, wanted, w, net);
            && Changed(r.act, net.google, out.google) && OnlyShown(AsSent(ctx, r), net.google, out.google)
            && (res.Ok? ==> Shown(r.act, net.google, out.google, res.value))
            && (res.Err? ==> GoneIfNotFound(AsSent(ctx, r), out.google, res.error))
  {
    LoopEffect(AsSent(ctx, r), tries, w, 0, None, net);
  }
}
