/** The deletes: a target already gone is success, and nothing still there ever is. */
module Deletes {
  import opened Outcomes
  import opened Errors
  import opened GoogleModel
  import opened Engine
  import opened EngineTheorems
  import opened CallEffects
  import Messages
  import Witness

  /** Which delete this is: the target, the scopes its calls name, and whether a refusal is
      checked by reading the target back. */
  datatype Delete = Delete(target: string, scope: string, readScope: string, adminScope: string, confirms: bool)

  function DeleteRequest(d: Delete): (r: Request)
    ensures Coherent(r) && IsWrite(r) && SafeToRepeat(r)
  {
    Request(ChatAPI, DELETE, Removes(d.target), map[], d.scope, [], d.adminScope, false, false, false)
  }

  function ReadBack(d: Delete): (r: Request)
    ensures Coherent(r) && !IsWrite(r)
  {
    Request(ChatAPI, GET, Fetches(d.target), map[], d.readScope, [], d.adminScope, false, false, false)
  }

  /** confirmGone: only a not-found answer or a tombstone says the target is gone. */
  function ConfirmGone(tries: Retries, ctx: Context, d: Delete, w: World, net: Net): (Net, bool) {
    var (after, res) := DoSpec(ctx, ReadBack(d), tries, true, w, net);
    match res
    case Ok(b) => (after, b.deleted)
    case Err(e) => (after, IsNotFound(e))
  }

  /** deleteIdempotent: true when this call deleted the target, false when it was gone. */
  function DeleteIdempotent(tries: Retries, ctx: Context, d: Delete, del: World, read: World, net: Net)
    : (Net, Result<bool, Error>)
  {
    var (after, res) := DoSpec(ctx, DeleteRequest(d), tries, false, del, net);
    match res
    case Ok(_) => (after, Ok(true))
    case Err(e) =>
      if IsAlreadyGone(e) then (after, Ok(false))
      else if !d.confirms || !IsForbidden(e) then (after, Err(e))
      else
        var (after', gone) := ConfirmGone(tries, ctx, d, read, after);
        if gone then (after', Ok(false)) else (after', Err(e))
  }

  /** What a call for the target is shown: everything for an administrator's. */
  predicate Visible(ctx: Context, g: Google, name: string) {
    ctx.admin || name !in g.hidden
  }

  /** A delete that returns no error leaves nothing there that its caller is shown, lost and
      repeated attempts included; it says it deleted the target only when the target was there; it touches
      nothing else; and a refusal for want of a scope is always reported. */
  lemma NoErrorMeansGone(tries: Retries, ctx: Context, d: Delete, del: World, read: World, net: Net)
    ensures var (out, res) := DeleteIdempotent(tries, ctx, d, del, read, net);
            && Changed(Removes(d.target), net.google, out.google)
            && (res.Ok? ==> !(out.google.There(d.target) && Visible(ctx, net.google, d.target)))
            && (out.google != net.google ==> Visible(ctx, net.google, d.target))
            && out.google.hidden == net.google.hidden
            && (res == Ok(true) ==> net.google.There(d.target) && !out.google.There(d.target))
            && (res.Ok? && net.google.There(d.target) && Visible(ctx, net.google, d.target) ==>
                  out.google.applied == net.google.applied + 1)
    ensures var (_, first) := DoSpec(ctx, DeleteRequest(d), tries, false, del, net);
            first.Err? && IsMissingScope(first.error) ==>
              DeleteIdempotent(tries, ctx, d, del, read, net).1 == Err(first.error)
  {
    CallEffect(ctx, DeleteRequest(d), tries, false, del, net);
    var (after, res) := DoSpec(ctx, DeleteRequest(d), tries, false, del, net);
    CallEffect(ctx, ReadBack(d), tries, true, read, after);
  }

  /** Repeating a delete that succeeded reports that it deleted nothing, and changes nothing. */
  lemma RepeatedDeleteDoesNothing(tries: Retries, ctx: Context, d: Delete, del: World, read: World,
                                  again: World, readAgain: World, net: Net)
    ensures var (once, res) := DeleteIdempotent(tries, ctx, d, del, read, net);
            res.Ok? ==>
              var (twice, res') := DeleteIdempotent(tries, ctx, d, again, readAgain, once);
              twice.google == once.google && res' != Ok(true)
  {
    NoErrorMeansGone(tries, ctx, d, del, read, net);
    var (once, _) := DeleteIdempotent(tries, ctx, d, del, read, net);
    NoErrorMeansGone(tries, ctx, d, again, readAgain, once);
  }

  /** Asking Google about a target it does not show gets not found for an answer. */
  const ANSWERED := World(None, _ => Tick(None, None, 0, Answer(Payload("", false, true))))

  /** The promise needs the target to be shown, and no more: a target that is there is
      reported gone by some run exactly when the delete may be sent and is not shown it. */
  lemma GoneWhileThereExactly(tries: Retries, ctx: Context, d: Delete, net: Net)
    requires net.google.There(d.target)
    ensures (exists del, read :: var (out, res) := DeleteIdempotent(tries, ctx, d, del, read, net);
                                 res.Ok? && out.google.There(d.target))
            <==> !Visible(ctx, net.google, d.target) && !ctx.noWrites
  {
    if ctx.noWrites {
    } else if Visible(ctx, net.google, d.target) {
      forall del, read
        ensures var (out, res) := DeleteIdempotent(tries, ctx, d, del, read, net);
                !(res.Ok? && out.google.There(d.target))
      {
        NoErrorMeansGone(tries, ctx, d, del, read, net);
      }
    } else {
      NotShownNotFound(tries, ctx, DeleteRequest(d), false, net);
      var (out, res) := DeleteIdempotent(tries, ctx, d, ANSWERED, ANSWERED, net);
      assert res.Ok? && out.google.There(d.target);
    }
  }

  lemma NotShownNotFound(tries: Retries, ctx: Context, r: Request, wanted: bool, net: Net)
    requires Coherent(r) && (r.act.Fetches? || r.act.Removes?) && r.query == map[]
    requires !ctx.admin && !ctx.noWrites && r.act.target in net.google.hidden
    ensures var (out, res) := DoSpec(ctx, r, tries, wanted, ANSWERED, net);
            out.google == net.google && res.Err? && IsAlreadyGone(res.error)
  {
  }

  /** Reading the target back tells the truth about one that is there exactly when it is read
      with the access that shows it: a refused administrator's delete read back as the caller
      could be reported as done. */
  lemma ReadBackNeedsTheAccess(tries: Retries, ctx: Context, d: Delete, net: Net)
    requires net.google.There(d.target)
    ensures (forall w :: !ConfirmGone(tries, ctx, d, w, net).1) <==> Visible(ctx, net.google, d.target)
  {
    if Visible(ctx, net.google, d.target) {
      forall w ensures !ConfirmGone(tries, ctx, d, w, net).1 {
        CallEffect(ctx, ReadBack(d), tries, true, w, net);
        if ctx.admin && d.adminScope == "" {
          assert !IsNotFound(Wrapped(Plain(NoAdminForm)));
        }
      }
    } else {
      NotShownNotFound(tries, ctx.(noWrites := false), ReadBack(d), true, net);
      assert ConfirmGone(tries, ctx, d, ANSWERED, net).1;
    }
  }

  // ---- A message, and a thread ----

  datatype Refusal = FromGoogle(err: Error) | NotFirstInThread | BadWitness | StaleWitness

  /** delete_message and, with thread set, delete_thread. */
  datatype Input = Input(message: string, textStart: string, dryRun: bool, thread: bool)

  const MESSAGES := "https://www.googleapis.com/auth/chat.messages"

  function MessageDelete(in_: Input): Delete {
    Delete(in_.message, MESSAGES, Messages.MESSAGES_READONLY, "", !in_.thread)
  }

  /** What the message read first decides: refuse, report it gone, or go on to the delete. */
  datatype Verdict = Refused(why: Refusal) | AlreadyGone | GoOn

  function Judge(in_: Input, res: Result<Body, Error>): Verdict {
    match res
    case Err(e) => if IsNotFound(e) then AlreadyGone else Refused(FromGoogle(e))
    case Ok(b) =>
      if in_.thread && b.payload.threadReply then Refused(NotFirstInThread)
      else if !b.deleted then
        match Witness.CheckText(b.payload.text, in_.textStart)
        case Matches => GoOn
        case Invalid => Refused(BadWitness)
        case Stale => Refused(StaleWitness)
      else if !in_.thread then AlreadyGone
      else GoOn
  }

  /** The three worlds are those of the read, the delete and the read-back. */
  function DeleteMessage(tries: Retries, ctx: Context, in_: Input, first: World, del: World, back: World, net: Net)
    : (Net, Result<bool, Refusal>)
  {
    var (seen, res) := DoSpec(ctx, Messages.GetRequest(in_.message), tries, true, first, net);
    match Judge(in_, res)
    case Refused(why) => (seen, Err(why))
    case AlreadyGone => (seen, Ok(false))
    case GoOn =>
      if in_.dryRun then (seen, Ok(false))
      else
        var (out, deleted) := DeleteIdempotent(tries, ctx, MessageDelete(in_), del, back, seen);
        match deleted
        case Ok(b) => (out, Ok(b))
        case Err(e) => (out, Err(FromGoogle(e)))
  }

  predicate SendsDelete(before: Net, after: Net)
    requires |before.tried| <= |after.tried|
  {
    exists i :: |before.tried| <= i < |after.tried| && after.tried[i].httpMethod == DELETE
  }

  lemma ReadsOnlyRead(ctx: Context, r: Request, tries: Retries, wanted: bool, w: World, net: Net)
    requires !IsWrite(r) && r.httpMethod == GET
    ensures var out := DoSpec(ctx, r, tries, wanted, w, net).0;
            |net.tried| <= |out.tried| && !SendsDelete(net, out)
            && out.tried[..|net.tried|] == net.tried
  {
    EveryCallIsBounded(ctx, r, tries, wanted, w, net);
  }

  lemma Traffic(tries: Retries, ctx: Context, d: Delete, del: World, read: World, net: Net)
    ensures |net.tried| <= |DeleteIdempotent(tries, ctx, d, del, read, net).0.tried|
  {
    EveryCallIsBounded(ctx, DeleteRequest(d), tries, false, del, net);
    var (after, _) := DoSpec(ctx, DeleteRequest(d), tries, false, del, net);
    EveryCallIsBounded(ctx, ReadBack(d), tries, true, read, after);
  }

  /** A DELETE leaves only on a real call whose message was first read back, either live
      with a text the witness matches or, for a thread, as a tombstone that is not a reply.
      And a call that returns no error was a dry run that changed nothing, or leaves no
      message there that its caller is shown. */
  lemma DeleteOnlyWhatWasSeen(tries: Retries, ctx: Context, in_: Input, first: World, del: World, back: World, net: Net)
    ensures
      var (seen, read) := DoSpec(ctx, Messages.GetRequest(in_.message), tries, true, first, net);
      var (out, res) := DeleteMessage(tries, ctx, in_, first, del, back, net);
      && |net.tried| <= |out.tried|
      && (SendsDelete(net, out) ==>
            && !in_.dryRun && read.Ok?
            && (|| (!read.value.deleted
                    && Witness.CheckText(read.value.payload.text, in_.textStart) == Witness.Matches)
                || (in_.thread && read.value.deleted))
            && !(in_.thread && read.value.payload.threadReply))
      && (out.google != net.google ==> SendsDelete(net, out) && res != Err(StaleWitness) && res != Err(BadWitness))
      && (res.Ok? ==>
            || !(out.google.There(in_.message) && Visible(ctx, net.google, in_.message))
            || (in_.dryRun && out.google == net.google))
      && (res == Ok(true) ==> net.google.There(in_.message) && !out.google.There(in_.message))
  {
    var r := Messages.GetRequest(in_.message);
    CallEffect(ctx, r, tries, true, first, net);
    ReadsOnlyRead(ctx, r, tries, true, first, net);
    var (seen, read) := DoSpec(ctx, r, tries, true, first, net);
    if Judge(in_, read).GoOn? && !in_.dryRun {
      var d := MessageDelete(in_);
      NoErrorMeansGone(tries, ctx, d, del, back, seen);
      Traffic(tries, ctx, d, del, back, seen);
      ChangeNeedsADelete(tries, ctx, d, del, back, seen);
    }
  }

  lemma ChangeNeedsADelete(tries: Retries, ctx: Context, d: Delete, del: World, read: World, net: Net)
    ensures var out := DeleteIdempotent(tries, ctx, d, del, read, net).0;
            |net.tried| <= |out.tried| && (out.google != net.google ==> SendsDelete(net, out))
  {
    var r := DeleteRequest(d);
    EveryCallIsBounded(ctx, r, tries, false, del, net);
    var (after, _) := DoSpec(ctx, r, tries, false, del, net);
    EveryCallIsBounded(ctx, ReadBack(d), tries, true, read, after);
    CallEffect(ctx, ReadBack(d), tries, true, read, after);
    if after.google != net.google {
      NothingSentNothingChanged(ctx, r, tries, false, del, net);
      assert after.tried[|net.tried|].httpMethod == DELETE;
      var out := DeleteIdempotent(tries, ctx, d, del, read, net).0;
      assert out.tried[|net.tried|] == after.tried[|net.tried|];
    }
  }

  lemma {:induction false} LoopSendsFirst(r: Request, tries: Retries, w: World, try: nat, last: Option<Error>, net: Net)
    requires try <= tries + 1
    requires try > 0 ==> last.Some?
    ensures var out := Loop(r, tries, w, try, last, net).0;
            |out.tried| == |net.tried| ==> out.google == net.google
    decreases tries + 1 - try
  {
    hide Attempt, Backoff, ShouldRetry, MarkUnsafeWrite, Unhinted, Base;
    if try <= tries {
      var t := w.tick(try);
      var waits := if try > 0 then net.waits + [Backoff(try, last.value, t.jitter)] else net.waits;
      if (try == 0 || t.noRest.None?) && t.noEntry.None? {
        var (g, reply) := Attempt(r, t.move, net.google);
        var next := Net(g, net.tried + [r], waits);
        if reply.res.Err? && ShouldRetry(reply.res.error, r) {
          var hint := Some(RetryHint(reply.res.error, reply.after));
          assert Loop(r, tries, w, try, last, net) == Loop(r, tries, w, try + 1, hint, next);
          LoopIsBounded(r, tries, w, try + 1, hint, next);
        }
      }
    }
  }

  lemma NothingSentNothingChanged(ctx: Context, r: Request, tries: Retries, wanted: bool, w: World, net: Net)
    ensures var out := DoSpec(ctx, r, tries, wanted, w, net).0;
            |out.tried| == |net.tried| ==> out.google == net.google
  {
    LoopSendsFirst(AsSent(ctx, r), tries, w, 0, None, net);
  }
}
