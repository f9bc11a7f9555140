/** What a delete does, told by what Google answered to its calls. */
module DeleteDecisions {
  import opened Outcomes
  import opened Errors
  import opened GoogleModel
  import opened Engine
  import opened EngineTheorems
  import opened CallEffects
  import opened Deletes
  import Messages
  import Witness

  /** Google answers attempt k of the call, readably, and what came before was transient. */
  ghost predicate AnswersAt(r: Request, tries: Retries, w: World, k: nat) {
    && w.noToken.None? && k <= tries
    && w.tick(k).move.Answer? && w.tick(k).move.payload.decodes
    && (forall i :: 0 <= i <= k ==> w.tick(i).noRest.None? && w.tick(i).noEntry.None?)
    && (forall i :: 0 <= i < k ==> Transient(r, w.tick(i).move))
  }

  /** An answered read says whether the target is there, as far as its caller is shown, and
      with what text; an answered delete leaves nothing there. */
  lemma AnsweredCall(ctx: Context, r: Request, tries: Retries, wanted: bool, w: World, net: Net, k: nat)
    requires Coherent(r) && AnswersAt(r, tries, w, k)
    requires !(ctx.noWrites && IsWrite(r)) && !(ctx.admin && IsChat(r) && r.adminScope == "")
    ensures var (out, res) := DoSpec(ctx, r, tries, wanted, w, net);
            && (res.Err? ==> AnsweredNo(AsSent(ctx, r), out.google, res.error))
            && (res.Ok? ==> res.value.payload == w.tick(k).move.payload)
            && |out.tried| == |net.tried| + k + 1
  {
    TransientFailuresAreRiddenOut(ctx, r, tries, w, net, k);
    hide SendSpec, AnsweredNo;
  }

  lemma ShownAsVisible(ctx: Context, g: Google, r: Request)
    requires r.query == map[] && IsChat(r) && (r.act.Fetches? || r.act.Removes?)
    ensures g.Shows(r.act.target, Privileged(AsSent(ctx, r))) <==> Visible(ctx, g, r.act.target)
  {
  }

  // ---- deleteIdempotent ----

  /** Which of its three ends a delete comes to, and with what error, from how its calls
      ended; the read is made only after a plain refusal that is to be confirmed. */
  lemma EachRefusalHasItsEnd(tries: Retries, ctx: Context, d: Delete, del: World, read: World, net: Net)
    ensures
      var (after, first) := DoSpec(ctx, DeleteRequest(d), tries, false, del, net);
      var (later, back) := DoSpec(ctx, ReadBack(d), tries, true, read, after);
      var (out, res) := DeleteIdempotent(tries, ctx, d, del, read, net);
      && (res == Ok(true) <==> first.Ok?)
      && (first.Err? && IsAlreadyGone(first.error) ==> res == Ok(false))
      && (first.Err? && IsForbidden(first.error) && d.confirms && !IsAlreadyGone(first.error) ==>
            && out == later
            && (res == Ok(false) <==> if back.Ok? then back.value.deleted else IsNotFound(back.error))
            && (res != Ok(false) ==> res == Err(first.error)))
      && (first.Err? && !IsAlreadyGone(first.error) && !(IsForbidden(first.error) && d.confirms) ==>
            res == Err(first.error))
      && (out == after || (first.Err? && IsForbidden(first.error) && d.confirms && !IsAlreadyGone(first.error)))
  {
    var (after, first) := DoSpec(ctx, DeleteRequest(d), tries, false, del, net);
    var (later, back) := DoSpec(ctx, ReadBack(d), tries, true, read, after);
    hide DoSpec, IsAlreadyGone, IsForbidden, IsNotFound;
    if first.Err? && IsForbidden(first.error) && d.confirms && !IsAlreadyGone(first.error) {
      assert ConfirmGone(tries, ctx, d, read, after).0 == later;
      assert ConfirmGone(tries, ctx, d, read, after).1
          == if back.Ok? then back.value.deleted else IsNotFound(back.error);
    }
  }

  /** A plain refusal is looked into, and looking tells its two meanings apart: read back and
      answered, the delete is reported done exactly when nothing is there that its caller is
      shown, and refused as Google refused it otherwise. One that is not to be confirmed stands. */
  lemma ARefusalIsLookedInto(tries: Retries, ctx: Context, d: Delete, del: World, read: World, net: Net, k: nat)
    requires AnswersAt(ReadBack(d), tries, read, k)
    ensures
      var (_, first) := DoSpec(ctx, DeleteRequest(d), tries, false, del, net);
      var (out, res) := DeleteIdempotent(tries, ctx, d, del, read, net);
      first.Err? && IsForbidden(first.error) && !IsAlreadyGone(first.error) ==>
        res == if d.confirms && !(out.google.There(d.target) && Visible(ctx, net.google, d.target)) then Ok(false)
               else Err(first.error)
  {
    EachRefusalHasItsEnd(tries, ctx, d, del, read, net);
    var (after, first) := DoSpec(ctx, DeleteRequest(d), tries, false, del, net);
    if first.Err? && IsForbidden(first.error) && !IsAlreadyGone(first.error) && d.confirms {
      assert !(ctx.admin && d.adminScope == "");
      AnsweredRead(tries, ctx, d, read, after, k);
      CallEffect(ctx, DeleteRequest(d), tries, false, del, net);
    }
    hide DoSpec, IsForbidden, IsAlreadyGone;
  }

  lemma AnsweredRead(tries: Retries, ctx: Context, d: Delete, read: World, net: Net, k: nat)
    requires AnswersAt(ReadBack(d), tries, read, k) && !(ctx.admin && d.adminScope == "")
    ensures var (out, back) := DoSpec(ctx, ReadBack(d), tries, true, read, net);
            && out.google == net.google
            && (if back.Ok? then back.value.deleted else IsNotFound(back.error))
               == !(net.google.There(d.target) && Visible(ctx, net.google, d.target))
  {
    var r := ReadBack(d);
    AnsweredCall(ctx, r, tries, true, read, net, k);
    CallEffect(ctx, r, tries, true, read, net);
    ShownAsVisible(ctx, net.google, r);
    FetchedIsVisible(ctx, r, tries, read, net);
    hide DoSpec, IsNotFound, IsAlreadyGone;
  }

  /** What a read is answered with it was shown. */
  lemma FetchedIsVisible(ctx: Context, r: Request, tries: Retries, w: World, net: Net)
    requires r.act.Fetches? && Coherent(r)
    ensures var res := DoSpec(ctx, r, tries, true, w, net).1;
            res.Ok? ==> net.google.Shows(r.act.target, Privileged(AsSent(ctx, r)))
  {
    LoopFetchesShown(AsSent(ctx, r), tries, w, 0, None, net);
    hide Loop;
  }

  lemma {:induction false} LoopFetchesShown(r: Request, tries: Retries, w: World, try: nat, last: Option<Error>,
                                            net: Net)
    requires r.act.Fetches? && try <= tries + 1 && (try > 0 ==> last.Some?)
    ensures Loop(r, tries, w, try, last, net).1.Ok? ==> net.google.Shows(r.act.target, Privileged(r))
    decreases tries + 1 - try
  {
    hide Backoff, ShouldRetry, MarkUnsafeWrite, Unhinted, Privileged, Attempt;
    if try <= tries {
      var t := w.tick(try);
      var waits := if try > 0 then net.waits + [Backoff(try, last.value, t.jitter)] else net.waits;
      if (try == 0 || t.noRest.None?) && t.noEntry.None? {
        FetchAttempt(r, t.move, net.google);
        var (g, reply) := Attempt(r, t.move, net.google);
        if reply.res.Err? && ShouldRetry(reply.res.error, r) {
          LoopFetchesShown(r, tries, w, try + 1, Some(RetryHint(reply.res.error, reply.after)),
                           Net(g, net.tried + [r], waits));
        }
      }
    }
  }

  lemma FetchAttempt(r: Request, m: Move, g: Google)
    requires r.act.Fetches?
    ensures var (g', reply) := Attempt(r, m, g);
            g' == g && (reply.res.Ok? ==> g.Shows(r.act.target, Privileged(r)))
  {
    hide Honest, ParseApiError;
  }

  /** A delete that Google answers is done: nothing is there, and if the first attempt is the
      one answered it says so exactly when the target was there to delete. */
  lemma AnAnsweredDeleteIsDone(tries: Retries, ctx: Context, d: Delete, del: World, read: World, net: Net, k: nat)
    requires AnswersAt(DeleteRequest(d), tries, del, k) && !ctx.noWrites && !(ctx.admin && d.adminScope == "")
    ensures var (out, res) := DeleteIdempotent(tries, ctx, d, del, read, net);
            && res.Ok? && !(out.google.There(d.target) && Visible(ctx, net.google, d.target))
            && (k == 0 ==> res == Ok(net.google.There(d.target) && Visible(ctx, net.google, d.target)))
  {
    EachRefusalHasItsEnd(tries, ctx, d, del, read, net);
    NoErrorMeansGone(tries, ctx, d, del, read, net);
    AnsweredCall(ctx, DeleteRequest(d), tries, false, del, net, k);
    if k == 0 {
      DeletedAtOnce(tries, ctx, d, del, net);
    }
    hide DoSpec, IsAlreadyGone, IsForbidden, IsNotFound;
  }

  lemma DeletedAtOnce(tries: Retries, ctx: Context, d: Delete, del: World, net: Net)
    requires AnswersAt(DeleteRequest(d), tries, del, 0) && !ctx.noWrites && !(ctx.admin && d.adminScope == "")
    ensures var res := DoSpec(ctx, DeleteRequest(d), tries, false, del, net).1;
            res.Ok? <==> net.google.There(d.target) && Visible(ctx, net.google, d.target)
  {
    var r := AsSent(ctx, DeleteRequest(d));
    ShownAsVisible(ctx, net.google, DeleteRequest(d));
    AnswerEnds(r, del.tick(0).move, net.google);
    hide ShouldRetry, MarkUnsafeWrite, Visible, AnsweredNo;
  }

  // ---- A message ----

  /** The beginning is the text's, by its words, and long enough. */
  predicate Begins(textStart: string, text: string) {
    var want, have := Witness.Words(textStart), Witness.Words(text);
    want <= have && (|want| >= 20 || want == have)
  }

  /** Which delete it is, and which refusal, from what the message read as; and whether the
      delete's own call is made. */
  lemma EachReadHasItsEnd(tries: Retries, ctx: Context, in_: Input, first: World, del: World, back: World, net: Net)
    ensures
      var (seen, read) := DoSpec(ctx, Messages.GetRequest(in_.message), tries, true, first, net);
      var (out, res) := DeleteMessage(tries, ctx, in_, first, del, back, net);
      var (deleted, done) := DeleteIdempotent(tries, ctx, MessageDelete(in_), del, back, seen);
      var want := Witness.Words(in_.textStart);
      var reply := read.Ok? && in_.thread && read.value.payload.threadReply;
      var live := read.Ok? && !reply && !read.value.deleted;
      var have := if live then Witness.Words(read.value.payload.text) else "";
      var goesOn := if live then Begins(in_.textStart, read.value.payload.text)
                    else read.Ok? && !reply && in_.thread;
      && (res == Err(NotFirstInThread) <==> reply)
      && (res == Err(StaleWitness) <==> live && want != "" && !(want <= have))
      && (res == Err(BadWitness) <==>
          live && want != have && (want == "" || (want <= have && |want| < 20)))
      && (read.Err? ==> res == if IsNotFound(read.error) then Ok(false) else Err(FromGoogle(read.error)))
      && (read.Ok? && read.value.deleted && !in_.thread ==> res == Ok(false))
      && (goesOn && in_.dryRun ==> res == Ok(false))
      && (goesOn && !in_.dryRun ==>
            out == deleted && res == match done case Ok(b) => Ok(b) case Err(e) => Err(FromGoogle(e)))
      && (out == seen || (goesOn && !in_.dryRun))
  {
    hide DoSpec, DeleteIdempotent, Witness.Words, IsNotFound;
  }

  lemma SeenAsItIs(tries: Retries, ctx: Context, message: string, w: World, net: Net, k: nat)
    requires AnswersAt(Messages.GetRequest(message), tries, w, k) && !ctx.admin
    ensures var (seen, read) := DoSpec(ctx, Messages.GetRequest(message), tries, true, w, net);
            && seen.google == net.google
            && (read.Ok? <==> message in net.google.stored && message !in net.google.hidden)
            && (read.Err? ==> IsNotFound(read.error))
            && (read.Ok? ==> read.value == Body(message in net.google.tombs, w.tick(k).move.payload))
  {
    var r := Messages.GetRequest(message);
    AnsweredCall(ctx, r, tries, true, w, net, k);
    CallEffect(ctx, r, tries, true, w, net);
    FetchedIsVisible(ctx, r, tries, w, net);
    hide DoSpec, IsNotFound, IsMissingScope;
  }

  /** Everything about one call on a message that Google shows and answers for: a live message
      that is no reply where a thread is meant, with words that begin its text and are long
      enough, is deleted, and that is what is reported when the first attempt was answered. A
      reply, a stale beginning or a short one is refused as such and leaves it, and so does a
      dry run. */
  lemma ALiveMessageIsDeleted(tries: Retries, ctx: Context, in_: Input, first: World, del: World, back: World, net: Net,
                              k: nat, n: nat)
    requires !ctx.admin && !ctx.noWrites
    requires net.google.There(in_.message) && in_.message !in net.google.hidden
    requires AnswersAt(Messages.GetRequest(in_.message), tries, first, k)
    requires AnswersAt(DeleteRequest(MessageDelete(in_)), tries, del, n)
    ensures
      var p := first.tick(k).move.payload;
      var want, have := Witness.Words(in_.textStart), Witness.Words(p.text);
      var (out, res) := DeleteMessage(tries, ctx, in_, first, del, back, net);
      if in_.thread && p.threadReply then res == Err(NotFirstInThread) && out.google == net.google
      else if want != "" && !(want <= have) then res == Err(StaleWitness) && out.google == net.google
      else if !Begins(in_.textStart, p.text) then res == Err(BadWitness) && out.google == net.google
      else if in_.dryRun then res == Ok(false) && out.google == net.google
      else res.Ok? && !out.google.There(in_.message) && (n == 0 ==> res == Ok(true))
  {
    SeenAsItIs(tries, ctx, in_.message, first, net, k);
    EachReadHasItsEnd(tries, ctx, in_, first, del, back, net);
    var seen := DoSpec(ctx, Messages.GetRequest(in_.message), tries, true, first, net).0;
    AnAnsweredDeleteIsDone(tries, ctx, MessageDelete(in_), del, back, seen, n);
    hide DoSpec, DeleteMessage, DeleteIdempotent, Witness.Words, AnswersAt;
  }

  /** A plain refusal of a message's delete is looked into as above; that of a thread's stands,
      since its first message being gone says nothing of the replies. */
  lemma ARefusedMessageIsLookedInto(tries: Retries, ctx: Context, in_: Input, first: World, del: World, back: World,
                                    net: Net, k: nat, e: Error)
    requires
      var (seen, read) := DoSpec(ctx, Messages.GetRequest(in_.message), tries, true, first, net);
      && read.Ok? && !read.value.deleted && !(in_.thread && read.value.payload.threadReply)
      && Begins(in_.textStart, read.value.payload.text) && !in_.dryRun
      && DoSpec(ctx, DeleteRequest(MessageDelete(in_)), tries, false, del, seen).1 == Err(e)
    requires IsForbidden(e) && !IsAlreadyGone(e) && AnswersAt(ReadBack(MessageDelete(in_)), tries, back, k)
    ensures
      var (out, res) := DeleteMessage(tries, ctx, in_, first, del, back, net);
      res == if in_.thread || (out.google.There(in_.message) && Visible(ctx, net.google, in_.message))
             then Err(FromGoogle(e)) else Ok(false)
  {
    var seen := DoSpec(ctx, Messages.GetRequest(in_.message), tries, true, first, net).0;
    CallEffect(ctx, Messages.GetRequest(in_.message), tries, true, first, net);
    EachReadHasItsEnd(tries, ctx, in_, first, del, back, net);
    ARefusalIsLookedInto(tries, ctx, MessageDelete(in_), del, back, seen, k);
    hide DoSpec, DeleteMessage, DeleteIdempotent, Begins, AnswersAt, IsForbidden, IsAlreadyGone;
  }

  /** And one on a message already deleted, or that Google never had or does not show: the
      delete of a message reports that it deleted nothing and sends nothing, and so does that
      of a thread whose first message is not found. */
  lemma AGoneMessageIsReportedGone(tries: Retries, ctx: Context, in_: Input, first: World, del: World, back: World,
                                   net: Net, k: nat)
    requires !ctx.admin && AnswersAt(Messages.GetRequest(in_.message), tries, first, k)
    requires in_.message !in net.google.stored || in_.message in net.google.hidden
             || (in_.message in net.google.tombs && !in_.thread)
    ensures
      var (out, res) := DeleteMessage(tries, ctx, in_, first, del, back, net);
      && res == Ok(false) && out.google == net.google
      && |net.tried| <= |out.tried| && !SendsDelete(net, out)
  {
    SeenAsItIs(tries, ctx, in_.message, first, net, k);
    EachReadHasItsEnd(tries, ctx, in_, first, del, back, net);
    ReadsOnlyRead(ctx, Messages.GetRequest(in_.message), tries, true, first, net);
    hide DoSpec, DeleteMessage, DeleteIdempotent, Witness.Words, AnswersAt;
  }

  /** All a delete of a message hands to the transport: reads of that message, and deletes of it,
      each with its scope. */
  lemma WhatADeleteSends(tries: Retries, ctx: Context, in_: Input, first: World, del: World, back: World, net: Net)
    requires !ctx.admin
    ensures
      var out := DeleteMessage(tries, ctx, in_, first, del, back, net).0;
      && |net.tried| <= |out.tried|
      && forall i :: |net.tried| <= i < |out.tried| ==>
           var q := out.tried[i];
           if q.httpMethod == DELETE
           then q.act == Removes(in_.message) && q.scope == "https://www.googleapis.com/auth/chat.messages"
           else
             && q.httpMethod == GET && q.act == Fetches(in_.message)
             && q.scope == "https://www.googleapis.com/auth/chat.messages.readonly"
  {
    var d := MessageDelete(in_);
    var get := Messages.GetRequest(in_.message);
    EveryCallIsBounded(ctx, get, tries, true, first, net);
    var seen := DoSpec(ctx, get, tries, true, first, net).0;
    EveryCallIsBounded(ctx, DeleteRequest(d), tries, false, del, seen);
    var after := DoSpec(ctx, DeleteRequest(d), tries, false, del, seen).0;
    EveryCallIsBounded(ctx, ReadBack(d), tries, true, back, after);
    hide DoSpec, Judge;
  }
}
