/** What every tool's handler gets from being wrapped, whatever the handler does. */
module Tools {
  import opened Outcomes
  import opened Errors
  import opened GoogleModel
  import opened Engine
  import opened EngineTheorems
  import opened CallEffects
  import Drift

  // ---- Registering a tool ----

  datatype Kind = Read | ReadWritesLocally | Adding | AddingIdempotent | Write | WriteIdempotent | Destructive

  const ADMIN_PREFIX := "admin_"
  const CORE_TOOLSET := "core"
  const ADMIN_TOOLSET := "admin"

  datatype Spec = Spec(name: string, kind: Kind, toolset: string, marked: bool, writeScope: bool)

  datatype Config = Config(readOnly: bool, enableDestructive: bool, toolsets: seq<string>)

  /** A field of a tool's input type, by its json tag. */
  datatype InputField = InputField(tag: string, isBool: bool)

  predicate IsBoolNamed(f: InputField, name: string) {
    Drift.TagName(f.tag) == name && f.isBool
  }

  /** The tag names it, with or without options after it, and the field is a boolean. */
  predicate Switch(f: InputField, name: string) {
    f.isBool && (f.tag == name || name + "," <= f.tag)
  }

  lemma SwitchIsBoolNamed(f: InputField, name: string)
    requires ',' !in name
    ensures Switch(f, name) <==> IsBoolNamed(f, name)
  {
    var cut := Drift.TagName(f.tag);
    assert forall k :: 0 <= k < |cut| ==> f.tag[k] == cut[k] && cut[k] in cut;
    assert forall k :: 0 <= k < |name| ==> name[k] in name;
    assert name + "," <= f.tag ==> f.tag[..|name| + 1] == name + "," && (name + ",")[|name|] == ',';
    assert name + "," <= f.tag ==> forall k :: 0 <= k < |name| ==> f.tag[k] == (name + ",")[k] == name[k];
    assert name == cut != f.tag ==> name + "," == f.tag[..|name| + 1];
  }

  /** The index is that of the first such field, if there is one. */
  ghost predicate FirstSwitch(fields: seq<InputField>, name: string, i: Option<nat>) {
    match i
    case None => forall f :: f in fields ==> !Switch(f, name)
    case Some(k) => k < |fields| && Switch(fields[k], name) && forall j :: 0 <= j < k ==> !Switch(fields[j], name)
  }

  /** The first field there is from an index on. */
  function BoolFrom(fields: seq<InputField>, name: string, from: nat): (i: Option<nat>)
    requires from <= |fields|
    ensures i.Some? ==> from <= i.value < |fields| && IsBoolNamed(fields[i.value], name)
    ensures i.None? ==> forall j :: from <= j < |fields| ==> !IsBoolNamed(fields[j], name)
    ensures i.Some? ==> forall j :: from <= j < i.value ==> !IsBoolNamed(fields[j], name)
    decreases |fields| - from
  {
    if from == |fields| then None
    else if IsBoolNamed(fields[from], name) then Some(from)
    else BoolFrom(fields, name, from + 1)
  }

  lemma FirstSwitchIsFirst(fields: seq<InputField>, name: string)
    requires ',' !in name
    ensures FirstSwitch(fields, name, BoolFrom(fields, name, 0))
  {
    forall f: InputField ensures Switch(f, name) <==> IsBoolNamed(f, name) {
      SwitchIsBoolNamed(f, name);
    }
    hide Switch, IsBoolNamed;
  }

  method BoolField(fields: seq<InputField>, name: string) returns (i: Option<nat>)
    ensures i == BoolFrom(fields, name, 0)
    ensures ',' !in name ==> FirstSwitch(fields, name, i)
  {
    if ',' !in name {
      FirstSwitchIsFirst(fields, name);
    }
    for k := 0 to |fields|
      invariant BoolFrom(fields, name, 0) == BoolFrom(fields, name, k)
    {
      if IsBoolNamed(fields[k], name) {
        return Some(k);
      }
    }
    return None;
  }

  /** A tool as the server has it: its spec, which inputs the wrapper reads, and whether its
      calls run as an administrator. */
  datatype Tool = Tool(spec: Spec, dryRun: Option<nat>, confirm: Option<nat>, admin: bool)

  datatype Registration = Panics | LeftOut | Registered(tool: Tool)

  predicate Registers(sp: Spec, cfg: Config) {
    var toolset := if sp.toolset == "" then CORE_TOOLSET else sp.toolset;
    && (toolset == CORE_TOOLSET || toolset in cfg.toolsets)
    && (cfg.readOnly ==> (sp.kind == Read || sp.kind == ReadWritesLocally) && !sp.writeScope)
    && (sp.kind == Destructive ==> cfg.enableDestructive && !cfg.readOnly)
  }

  function Register(sp: Spec, fields: seq<InputField>, cfg: Config): Registration {
    var confirm := BoolFrom(fields, "confirm", 0);
    var admin := ADMIN_PREFIX <= sp.name;
    if (sp.kind == Destructive) != confirm.Some? then Panics
    else if sp.marked && sp.kind != Destructive then Panics
    else if admin && sp.toolset != "" && sp.toolset != ADMIN_TOOLSET then Panics
    else
      var placed := if admin then sp.(toolset := ADMIN_TOOLSET) else sp;
      if !Registers(placed, cfg) then LeftOut
      else Registered(Tool(placed, BoolFrom(fields, "dry_run", 0), confirm, admin))
  }

  /** The spec is wrong: confirm goes with the destructive kind and nowhere else, so does the
      mark, and an administrator's tool is in no other toolset. */
  ghost predicate Wrong(sp: Spec, fields: seq<InputField>) {
    || (sp.kind == Destructive && forall f :: f in fields ==> !Switch(f, "confirm"))
    || (sp.kind != Destructive && (sp.marked || exists f :: f in fields && Switch(f, "confirm")))
    || ("admin_" <= sp.name && sp.toolset != "" && sp.toolset != "admin")
  }

  /** The configuration lets the tool in: its toolset is the core one or enabled, it writes only
      where writing is allowed, and it destroys only where that was turned on. */
  predicate LetIn(sp: Spec, cfg: Config) {
    && (if "admin_" <= sp.name then "admin" in cfg.toolsets
        else sp.toolset == "" || sp.toolset == "core" || sp.toolset in cfg.toolsets)
    && (cfg.readOnly ==> !sp.writeScope && (sp.kind == Read || sp.kind == ReadWritesLocally))
    && (sp.kind == Destructive ==> cfg.enableDestructive && !cfg.readOnly)
  }

  /** The tool is the spec's, its switches are the first of their names, and it acts as an
      administrator by its name alone, in the toolset that goes with it. */
  ghost predicate ToolOf(t: Tool, sp: Spec, fields: seq<InputField>) {
    && t.admin == ("admin_" <= sp.name)
    && t.spec == sp.(toolset := if t.admin then "admin" else sp.toolset)
    && FirstSwitch(fields, "dry_run", t.dryRun) && FirstSwitch(fields, "confirm", t.confirm)
  }

  /** What every tool a server has is, under its configuration. */
  predicate Sound(t: Tool, cfg: Config) {
    && (t.confirm.Some? <==> t.spec.kind == Destructive)
    && (t.admin <==> ADMIN_PREFIX <= t.spec.name)
    && (t.admin ==> ADMIN_TOOLSET in cfg.toolsets)
    && (t.spec.marked ==> t.spec.kind == Destructive)
    && (t.spec.kind == Destructive ==> cfg.enableDestructive && !cfg.readOnly)
    && (cfg.readOnly ==> t.spec.kind == Read || t.spec.kind == ReadWritesLocally)
  }

  lemma WrongPanics(sp: Spec, fields: seq<InputField>, cfg: Config)
    ensures Register(sp, fields, cfg).Panics? <==> Wrong(sp, fields)
  {
    FirstSwitchIsFirst(fields, "confirm");
    hide BoolFrom, Switch, Registers;
  }

  lemma RegisteredIsLetIn(sp: Spec, fields: seq<InputField>, cfg: Config)
    ensures
      var r := Register(sp, fields, cfg);
      && (!Wrong(sp, fields) && LetIn(sp, cfg) <==> r.Registered?)
      && (r.Registered? ==> ToolOf(r.tool, sp, fields) && Sound(r.tool, cfg))
  {
    WrongPanics(sp, fields, cfg);
    FirstSwitchIsFirst(fields, "confirm");
    FirstSwitchIsFirst(fields, "dry_run");
    hide BoolFrom, Switch, Wrong;
  }

  /** The tools of a running server. A spec that is wrong panics at start. */
  class Server {
    const cfg: Config
    var tools: seq<Tool>

    constructor (cfg: Config)
      ensures this.cfg == cfg && tools == [] && Valid()
    {
      this.cfg := cfg;
      this.tools := [];
    }

    ghost predicate Valid()
      reads this
    {
      forall t :: t in tools ==> Sound(t, cfg)
    }

    /** Every tool that is added has a confirm input exactly when it is destructive, and is
        one the configuration lets in; and whether a spec is refused does not depend on the
        configuration. */
    method Add(sp: Spec, fields: seq<InputField>) returns (panics: bool)
      requires Valid()
      modifies this
      ensures Valid()
      ensures tools == match Register(sp, fields, cfg)
                       case Registered(t) => old(tools) + [t]
                       case _ => old(tools)
      ensures panics <==> Wrong(sp, fields)
      ensures !panics && LetIn(sp, cfg) ==> exists t :: tools == old(tools) + [t] && ToolOf(t, sp, fields)
      ensures panics || !LetIn(sp, cfg) ==> tools == old(tools)
      ensures forall other :: panics <==> Register(sp, fields, other).Panics?
    {
      hide BoolFrom, Registers, Switch;
      WrongPanics(sp, fields, cfg);
      RegisteredIsLetIn(sp, fields, cfg);
      var confirm := BoolField(fields, "confirm");
      if (sp.kind == Destructive) != confirm.Some? {
        return true;
      }
      if sp.marked && sp.kind != Destructive {
        return true;
      }
      var admin := ADMIN_PREFIX <= sp.name;
      var placed := sp;
      if admin {
        if sp.toolset != "" && sp.toolset != ADMIN_TOOLSET {
          return true;
        }
        placed := placed.(toolset := ADMIN_TOOLSET);
      }
      if !Registers(placed, cfg) {
        return false;
      }
      var dryRun := BoolField(fields, "dry_run");
      tools := tools + [Tool(placed, dryRun, confirm, admin)];
      return false;
    }
  }

  // ---- A handler ----

  /** A handler picks its next call from everything it has been answered, for as many calls
      as it likes. It may add marks to the context it was given and never drop one. */
  datatype Next = Stop | Ask(r: Request, marks: Context, retries: bool, wanted: bool)
  type Handler = seq<Result<Body, Error>> -> Next

  function Marked(ctx: Context, marks: Context): Context {
    Context(ctx.noWrites || marks.noWrites, ctx.admin || marks.admin)
  }

  datatype Run = Run(net: Net, history: seq<Result<Body, Error>>)

  /** The handler's first n calls, or all of them if it stops sooner. */
  function Handle(h: Handler, ctx: Context, tries: Retries, worlds: nat -> World, net: Net, n: nat): Run {
    if n == 0 then Run(net, [])
    else
      var run := Handle(h, ctx, tries, worlds, net, n - 1);
      match h(run.history)
      case Stop => run
      case Ask(r, marks, retries, wanted) =>
        var (after, res) := DoSpec(Marked(ctx, marks), r, if retries then tries else 0, wanted,
                                   worlds(|run.history|), run.net);
        Run(after, run.history + [res])
  }

  /** A run is the handler's: each of its calls was made as the handler asked, with the marks
      it was given and those it added, on what the calls before left, and was answered to it;
      and it ended when the handler stopped or after n calls. */
  lemma {:induction false} EachCallIsTheHandlers(h: Handler, ctx: Context, tries: Retries, worlds: nat -> World,
                                                 net: Net, n: nat, i: nat)
    ensures var run := Handle(h, ctx, tries, worlds, net, n);
            && |run.history| <= n
            && (|run.history| < n ==> h(run.history).Stop?)
            && (i < |run.history| ==>
                  var past, ask := Handle(h, ctx, tries, worlds, net, i), h(run.history[..i]);
                  && ask.Ask?
                  && run.history[..i] == past.history
                  && (Handle(h, ctx, tries, worlds, net, i + 1).net, run.history[i])
                     == DoSpec(Context(ctx.noWrites || ask.marks.noWrites, ctx.admin || ask.marks.admin),
                               ask.r, if ask.retries then tries else 0, ask.wanted, worlds(i), past.net))
            && run.net == Handle(h, ctx, tries, worlds, net, |run.history|).net
  {
    hide DoSpec;
    if n > 0 {
      EachCallIsTheHandlers(h, ctx, tries, worlds, net, n - 1, i);
      var before := Handle(h, ctx, tries, worlds, net, n - 1);
      var run := Handle(h, ctx, tries, worlds, net, n);
      if h(before.history).Ask? {
        assert run.history[..|before.history|] == before.history;
        if i < |before.history| {
          assert run.history[..i] == before.history[..i];
        }
      }
    }
  }

  datatype Outcome = NeedsConfirm | Ran(history: seq<Result<Body, Error>>)

  /** The input an index found by name reads, in the values of the call's input. */
  predicate Says(args: seq<bool>, i: Option<nat>) {
    i.Some? && i.value < |args| && args[i.value]
  }

  /** wrap: the confirm rule, then the handler on a context carrying the marks. */
  function Wrap(t: Tool, args: seq<bool>, h: Handler, tries: Retries, worlds: nat -> World, net: Net, n: nat)
    : (Net, Outcome)
  {
    var dry := Says(args, t.dryRun);
    if t.confirm.Some? && !dry && !Says(args, t.confirm) then (net, NeedsConfirm)
    else
      var run := Handle(h, Context(dry, t.admin), tries, worlds, net, n);
      (run.net, Ran(run.history))
  }

  /** What is not refused for want of confirm is the handler's own run, under the marks of a dry
      run that is said and of a tool that acts as an administrator. */
  lemma WrapRunsTheHandler(t: Tool, args: seq<bool>, h: Handler, tries: Retries, worlds: nat -> World, net: Net,
                           n: nat)
    ensures
      var (out, outcome) := Wrap(t, args, h, tries, worlds, net, n);
      var run := Handle(h, Context(Says(args, t.dryRun), t.admin), tries, worlds, net, n);
      && (outcome.NeedsConfirm? <==> t.confirm.Some? && !Says(args, t.dryRun) && !Says(args, t.confirm))
      && (outcome.NeedsConfirm? ==> out == net)
      && (outcome.Ran? ==>
            out == run.net && outcome.history == run.history && (|run.history| == n || h(run.history).Stop?))
  {
    EachCallIsTheHandlers(h, Context(Says(args, t.dryRun), t.admin), tries, worlds, net, n, 0);
  }

  /** Every call a handler can make is declared for what it does. */
  ghost predicate WellDeclared(h: Handler) {
    forall past :: h(past).Ask? ==> Coherent(h(past).r)
  }

  ghost predicate NewTraffic(before: Net, after: Net, p: Request -> bool) {
    && |before.tried| <= |after.tried|
    && forall i :: |before.tried| <= i < |after.tried| ==> p(after.tried[i])
  }

  lemma {:induction false} HandlerTraffic(h: Handler, ctx: Context, tries: Retries, worlds: nat -> World, net: Net,
                                          n: nat, p: Request -> bool)
    requires forall past :: h(past).Ask? ==>
               var c := Marked(ctx, h(past).marks);
               || (IsWrite(h(past).r) && c.noWrites)
               || (IsChat(h(past).r) && c.admin && h(past).r.adminScope == "")
               || p(AsSent(c, h(past).r))
    ensures NewTraffic(net, Handle(h, ctx, tries, worlds, net, n).net, p)
  {
    if n > 0 {
      HandlerTraffic(h, ctx, tries, worlds, net, n - 1, p);
      var run := Handle(h, ctx, tries, worlds, net, n - 1);
      var next := h(run.history);
      if next.Ask? {
        var c := Marked(ctx, next.marks);
        var w := worlds(|run.history|);
        var k: Retries := if next.retries then tries else 0;
        EveryCallIsBounded(c, next.r, k, next.wanted, w, run.net);
        var after := DoSpec(c, next.r, k, next.wanted, w, run.net).0;
        if |after.tried| > |run.net.tried| {
          assert IsWrite(AsSent(c, next.r)) <==> IsWrite(next.r);
          assert p(AsSent(c, next.r));
        }
      }
    }
  }

  lemma {:induction false} DryRunKeepsGoogle(h: Handler, ctx: Context, tries: Retries, worlds: nat -> World, net: Net,
                                             n: nat)
    requires WellDeclared(h) && ctx.noWrites
    ensures Handle(h, ctx, tries, worlds, net, n).net.google == net.google
  {
    hide DoSpec, Coherent;
    if n > 0 {
      DryRunKeepsGoogle(h, ctx, tries, worlds, net, n - 1);
      var run := Handle(h, ctx, tries, worlds, net, n - 1);
      var next := h(run.history);
      if next.Ask? {
        DryCallKeepsGoogle(Marked(ctx, next.marks), next.r, if next.retries then tries else 0, next.wanted,
                           worlds(|run.history|), run.net);
      }
    }
  }

  lemma DryCallKeepsGoogle(ctx: Context, r: Request, tries: Retries, wanted: bool, w: World, net: Net)
    requires ctx.noWrites && Coherent(r)
    ensures DoSpec(ctx, r, tries, wanted, w, net).0.google == net.google
  {
    CallEffect(ctx, r, tries, wanted, w, net);
    hide Loop;
  }

  /** A dry run of any tool, whatever its handler calls and however often, hands no write to
      the transport and leaves Google as it was. */
  lemma DryRunWritesNothing(t: Tool, args: seq<bool>, h: Handler, tries: Retries, worlds: nat -> World, net: Net,
                            n: nat)
    requires WellDeclared(h)
    requires Says(args, t.dryRun)
    ensures var (out, outcome) := Wrap(t, args, h, tries, worlds, net, n);
            && outcome.Ran?
            && NewTraffic(net, out, r => !IsWrite(r))
            && out.google == net.google
  {
    var ctx := Context(true, t.admin);
    forall past | h(past).Ask?
      ensures IsWrite(h(past).r) || !IsWrite(AsSent(Marked(ctx, h(past).marks), h(past).r))
    {
    }
    HandlerTraffic(h, ctx, tries, worlds, net, n, r => !IsWrite(r));
    DryRunKeepsGoogle(h, ctx, tries, worlds, net, n);
  }

  /** The request goes out with the administrator's privileges and names the scope for it. */
  predicate AsAdministrator(r: Request) {
    && "useAdminAccess" in r.query && r.query["useAdminAccess"] == ["true"]
    && r.scope == r.adminScope && r.adminScope != "" && r.alsoScopes == []
  }

  /** An admin tool sends every Chat request as the administrator, the reads its guards make
      included, and no request that has no administrator form. */
  lemma AdminToolsActAsAdministrator(t: Tool, args: seq<bool>, h: Handler, tries: Retries, worlds: nat -> World,
                                     net: Net, n: nat)
    requires t.admin
    ensures NewTraffic(net, Wrap(t, args, h, tries, worlds, net, n).0, r => IsChat(r) ==> AsAdministrator(r))
  {
    HandlerTraffic(h, Context(Says(args, t.dryRun), true), tries, worlds, net, n,
                   r => IsChat(r) ==> AsAdministrator(r));
  }

  /** And only an admin tool does: with a handler that adds no admin mark and writes no such
      parameter itself, another tool's requests never carry the privilege. */
  lemma OnlyAdminToolsDo(t: Tool, args: seq<bool>, h: Handler, tries: Retries, worlds: nat -> World, net: Net, n: nat)
    requires !t.admin
    requires forall past :: h(past).Ask? ==> !h(past).marks.admin && "useAdminAccess" !in h(past).r.query
    ensures NewTraffic(net, Wrap(t, args, h, tries, worlds, net, n).0, (r: Request) => "useAdminAccess" !in r.query)
  {
    HandlerTraffic(h, Context(Says(args, t.dryRun), false), tries, worlds, net, n,
                   (r: Request) => "useAdminAccess" !in r.query);
  }

  // ---- A session ----

  /** A call of a tool the server has: the values of its input and the handler behind it. */
  datatype Call = Call(tool: Tool, args: seq<bool>, h: Handler, worlds: nat -> World, n: nat)

  /** What a client's calls, one after another, come to. */
  function Play(tries: Retries, calls: seq<Call>, net: Net): (s: (Net, seq<Outcome>))
    ensures |s.1| == |calls|
  {
    if calls == [] then (net, [])
    else
      var (before, outcomes) := Play(tries, calls[..|calls| - 1], net);
      var c := calls[|calls| - 1];
      var (after, outcome) := Wrap(c.tool, c.args, c.h, tries, c.worlds, before, c.n);
      (after, outcomes + [outcome])
  }

  /** One call's part in a session. */
  ghost predicate CallKeepsTheRules(c: Call, before: Net, after: Net, outcome: Outcome) {
    var dry, confirmed := Says(c.args, c.tool.dryRun), Says(c.args, c.tool.confirm);
    && (outcome.NeedsConfirm? <==> c.tool.spec.kind == Destructive && !dry && !confirmed)
    && (outcome.NeedsConfirm? ==> after == before)
    && (c.tool.spec.kind == Destructive && after != before ==> dry || confirmed)
    && |before.tried| <= |after.tried|
    && (after.google != before.google
        || (exists i :: |before.tried| <= i < |after.tried| && IsWrite(after.tried[i])) ==>
          !dry && (c.tool.spec.kind == Destructive ==> confirmed))
  }

  /** Over any session with the tools of a server: a destructive call that neither confirms nor
      is a dry run is refused and leaves everything as it was, not one request having left; no
      other call is refused; and whenever a call hands Google a write or changes anything there,
      it was no dry run, and said confirm if its tool is destructive. */
  lemma {:induction false} DestructiveNeedsConfirm(tries: Retries, cfg: Config, calls: seq<Call>, i: nat, net: Net)
    requires i < |calls|
    requires forall c :: c in calls ==> Sound(c.tool, cfg) && WellDeclared(c.h)
    ensures CallKeepsTheRules(calls[i], Play(tries, calls[..i], net).0, Play(tries, calls[..i + 1], net).0,
                              Play(tries, calls, net).1[i])
    decreases |calls|
  {
    var last := |calls| - 1;
    hide Wrap, CallKeepsTheRules, WellDeclared, Sound;
    if i < last {
      forall c | c in calls[..last] ensures c in calls {}
      DestructiveNeedsConfirm(tries, cfg, calls[..last], i, net);
      assert calls[..last][..i] == calls[..i] && calls[..last][..i + 1] == calls[..i + 1];
    } else {
      assert calls[..i + 1] == calls;
      OneCall(tries, cfg, calls[i], Play(tries, calls[..i], net).0);
    }
  }

  lemma OneCall(tries: Retries, cfg: Config, c: Call, net: Net)
    requires Sound(c.tool, cfg) && WellDeclared(c.h)
    ensures var (after, outcome) := Wrap(c.tool, c.args, c.h, tries, c.worlds, net, c.n);
            CallKeepsTheRules(c, net, after, outcome)
  {
    HandlerTraffic(c.h, Context(Says(c.args, c.tool.dryRun), c.tool.admin), tries, c.worlds, net, c.n, r => true);
    if Says(c.args, c.tool.dryRun) {
      DryRunWritesNothing(c.tool, c.args, c.h, tries, c.worlds, net, c.n);
    }
    hide Handle;
  }

  /** A Chat call with no administrator form ends at ErrNoAdminForm before it leaves. */
  lemma NoAdminFormStops(ctx: Context, r: Request, tries: Retries, wanted: bool, w: World, net: Net)
    requires ctx.admin && IsChat(r)
    ensures var (out, res) := DoSpec(ctx, r, tries, wanted, w, net);
            r.adminScope == "" <==> res.Err? && Is(res.error, NoAdminForm)
    ensures r.adminScope == "" ==> DoSpec(ctx, r, tries, wanted, w, net).0 == net
  {
    if r.adminScope != "" {
      LoopNeverSaysNoAdminForm(AsAdmin(r), tries, w, 0, None, net);
    }
  }

  lemma {:induction false} LoopNeverSaysNoAdminForm(r: Request, tries: Retries, w: World, try: nat,
                                                    last: Option<Error>, net: Net)
    requires try <= tries + 1
    requires try > 0 ==> last.Some? && last.value.RetryHint? && !Is(last.value.err, NoAdminForm)
    ensures var res := Loop(r, tries, w, try, last, net).1;
            res.Err? ==> !Is(res.error, NoAdminForm)
    decreases tries + 1 - try
  {
    hide Attempt, Backoff, ShouldRetry, MarkUnsafeWrite;
    if try <= tries {
      var t := w.tick(try);
      var waits := if try > 0 then net.waits + [Backoff(try, last.value, t.jitter)] else net.waits;
      if (try == 0 || t.noRest.None?) && t.noEntry.None? {
        AttemptSaysOther(r, t.move, net.google);
        var (g, reply) := Attempt(r, t.move, net.google);
        var next := Net(g, net.tried + [r], waits);
        if reply.res.Err? && ShouldRetry(reply.res.error, r) {
          var hint := Some(RetryHint(reply.res.error, reply.after));
          assert Loop(r, tries, w, try, last, net) == Loop(r, tries, w, try + 1, hint, next);
          LoopNeverSaysNoAdminForm(r, tries, w, try + 1, hint, next);
        }
      }
    }
  }

  lemma AttemptSaysOther(r: Request, m: Move, g: Google)
    ensures var res := Attempt(r, m, g).1.res;
            res.Err? ==> !Is(res.error, NoAdminForm) && !Is(MarkUnsafeWrite(res.error, r), NoAdminForm)
  {
  }
}
