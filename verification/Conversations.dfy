/** Runs in which messages are sent and deleted, in any order and with ids used again. */
module Conversations {
  import opened Outcomes
  import opened Errors
  import opened GoogleModel
  import opened Engine
  import opened EngineTheorems
  import opened CallEffects
  import opened Messages
  import D = Deletes

  datatype Op =
    | Post(s: Send)
    | Remove(ctx: Context, d: D.Delete, del: World, back: World)

  /** What a run has come to, and for each operation so far whether it returned no error. */
  datatype Run = Run(net: Net, ok: seq<bool>)

  function Do(tries: Retries, op: Op, net: Net): (Net, bool) {
    match op
    case Post(s) => var (after, res) := SendMessage(tries, s, net); (after, res.Ok?)
    case Remove(ctx, d, del, back) =>
      var (after, res) := D.DeleteIdempotent(tries, ctx, d, del, back, net);
      (after, res.Ok?)
  }

  function Play(tries: Retries, ops: seq<Op>, net: Net): (run: Run)
    ensures |run.ok| == |ops|
  {
    if ops == [] then Run(net, [])
    else
      var before := Play(tries, ops[..|ops| - 1], net);
      var (after, ok) := Do(tries, ops[|ops| - 1], before.net);
      Run(after, before.ok + [ok])
  }

  function NameIn(op: Op): string {
    match op
    case Post(s) => NameOf(s)
    case Remove(_, d, _, _) => d.target
  }

  /** Every name is stored at most once, and only stored names are tombstones. */
  ghost predicate Tidy(g: Google) {
    forall n :: g.stored[n] <= 1 && (n in g.tombs ==> n in g.stored)
  }

  /** What one operation may do to the store, and what a result without an error shows. */
  lemma OneOp(tries: Retries, op: Op, net: Net)
    requires Tidy(net.google)
    ensures var (after, ok) := Do(tries, op, net);
            var n := NameIn(op);
            && Tidy(after.google) && after.google.hidden == net.google.hidden
            && (forall m :: m != n ==> after.google.stored[m] == net.google.stored[m]
                                       && (m in after.google.tombs <==> m in net.google.tombs))
            && net.google.stored[n] <= after.google.stored[n]
            && net.google.tombs <= after.google.tombs
            && (op.Post? ==>
                  && after.google.tombs == net.google.tombs
                  && (ok ==> after.google.stored[n] == 1))
            && (op.Remove? ==>
                  && after.google.stored == net.google.stored
                  && (ok && D.Visible(op.ctx, net.google, n) ==> !after.google.There(n)))
  {
    match op
    case Post(s) =>
      SendEffect(tries, s, net);
      hide SendMessage, NameOf;
    case Remove(ctx, d, del, back) =>
      D.NoErrorMeansGone(tries, ctx, d, del, back, net);
      hide D.DeleteIdempotent;
  }

  lemma {:induction false} RunsStayTidy(tries: Retries, ops: seq<Op>, net: Net)
    requires Tidy(net.google)
    ensures var out := Play(tries, ops, net).net.google;
            && Tidy(out) && out.hidden == net.google.hidden && net.google.tombs <= out.tombs
            && forall n :: net.google.stored[n] <= out.stored[n]
  {
    hide Do, Tidy;
    if ops != [] {
      var last := |ops| - 1;
      RunsStayTidy(tries, ops[..last], net);
      OneOp(tries, ops[last], Play(tries, ops[..last], net).net);
    }
  }

  /** What the rest of a run keeps of a point in it. */
  lemma {:induction false} LaterOnly(tries: Retries, ops: seq<Op>, i: nat, net: Net)
    requires Tidy(net.google) && i <= |ops|
    ensures var then_, out := Play(tries, ops[..i], net).net.google, Play(tries, ops, net).net.google;
            && then_.tombs <= out.tombs
            && (forall n :: then_.stored[n] <= out.stored[n])
            && (forall n :: (forall j :: i <= j < |ops| && ops[j].Remove? ==> NameIn(ops[j]) != n) ==>
                  (n in out.tombs <==> n in then_.tombs))
    decreases |ops|
  {
    hide Do, Tidy, NameIn;
    if i < |ops| {
      var last := |ops| - 1;
      LaterOnly(tries, ops[..last], i, net);
      assert ops[..last][..i] == ops[..i];
      RunsStayTidy(tries, ops[..last], net);
      var mid := Play(tries, ops[..last], net).net;
      OneOp(tries, ops[last], mid);
      forall n | forall j :: i <= j < |ops| && ops[j].Remove? ==> NameIn(ops[j]) != n
        ensures n in Play(tries, ops, net).net.google.tombs <==> n in Play(tries, ops[..i], net).net.google.tombs
      {
        assert forall j :: i <= j < last && ops[..last][j].Remove? ==> NameIn(ops[..last][j]) != n;
        assert n in mid.google.tombs <==> n in Play(tries, ops[..i], net).net.google.tombs;
      }
    } else {
      assert ops[..i] == ops;
    }
  }

  /** Over any run of sends and deletes: a send without an error has exactly one message under
      its name, at the end as well; that message is there exactly when its name is no
      tombstone, which is so as long as no delete names it after a start without it; and what
      a delete that is shown its target reported gone, once it had been posted, no later send
      brings back. */
  lemma SentAndDeleted(tries: Retries, ops: seq<Op>, i: nat, net: Net)
    requires Tidy(net.google) && i < |ops| && Play(tries, ops, net).ok[i]
    ensures var out := Play(tries, ops, net).net.google;
            var n := NameIn(ops[i]);
            && (ops[i].Post? ==>
                  && out.stored[n] == 1
                  && (out.There(n) <==> n !in out.tombs)
                  && (n !in net.google.tombs
                      && (forall j :: 0 <= j < |ops| && ops[j].Remove? ==> NameIn(ops[j]) != n) ==>
                        out.There(n)))
            && (ops[i].Remove? && D.Visible(ops[i].ctx, net.google, n) ==>
                  n in Play(tries, ops[..i], net).net.google.stored ==> !out.There(n))
  {
    var n := NameIn(ops[i]);
    RunsStayTidy(tries, ops, net);
    RunsStayTidy(tries, ops[..i], net);
    OneOp(tries, ops[i], Play(tries, ops[..i], net).net);
    OkThere(tries, ops, i, net);
    assert ops[..i + 1][..i] == ops[..i] && ops[..i + 1][i] == ops[i];
    LaterOnly(tries, ops, i + 1, net);
    LaterOnly(tries, ops, 0, net);
    assert ops[..0] == [];
    hide Do, NameIn;
  }

  lemma {:induction false} OkThere(tries: Retries, ops: seq<Op>, i: nat, net: Net)
    requires i < |ops|
    ensures Play(tries, ops, net).ok[i] == Do(tries, ops[i], Play(tries, ops[..i], net).net).1
    decreases |ops|
  {
    hide Do;
    if i < |ops| - 1 {
      OkThere(tries, ops[..|ops| - 1], i, net);
      assert ops[..|ops| - 1][..i] == ops[..i];
    }
  }
}
