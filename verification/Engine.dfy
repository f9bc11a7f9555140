/** The one loop every call to Google passes through, against an adversarial Google. */
module Engine {
  import opened Outcomes
  import opened Errors
  import opened GoogleModel

  datatype Api = ChatAPI | PeopleAPI | OidcAPI | CloudIdentityAPI | UploadAPI
  datatype HttpMethod = GET | POST | PATCH | PUT | DELETE

  datatype Request = Request(
    api: Api, httpMethod: HttpMethod, act: Act, query: map<string, seq<string>>,
    scope: string, alsoScopes: seq<string>, adminScope: string,
    readOnly: bool, repeatHarmless: bool, idempotent: bool)

  /** The two marks a call's context can carry. */
  datatype Context = Context(noWrites: bool, admin: bool)

  predicate IsChat(r: Request) {
    r.api == ChatAPI || r.api == UploadAPI
  }

  function AsAdmin(r: Request): Request {
    r.(query := r.query["useAdminAccess" := ["true"]], scope := r.adminScope, alsoScopes := [])
  }

  /** The request runs with the caller's administrator privileges. */
  predicate Privileged(r: Request) {
    "useAdminAccess" in r.query && r.query["useAdminAccess"] == ["true"]
  }

  predicate IsWrite(r: Request) {
    r.httpMethod != GET && !r.readOnly
  }

  predicate SafeToRepeat(r: Request) {
    r.httpMethod != POST || r.idempotent || r.readOnly
  }

  /** What Google does fits how the request is declared: only a call that changes nothing
      is a GET or marked readOnly, and only a create under a chosen name is idempotent. */
  predicate Coherent(r: Request) {
    match r.act
    case Reads => !IsWrite(r)
    case Fetches(_) => !IsWrite(r)
    case Creates => r.httpMethod == POST && !r.readOnly && !r.idempotent
    case CreatesAs(_) => r.httpMethod == POST && !r.readOnly && r.idempotent
    case Sets => IsWrite(r) && r.httpMethod != DELETE && !r.idempotent
    case Removes(_) => r.httpMethod == DELETE && !r.readOnly && !r.idempotent
  }

  // ---- The retry decision ----

  predicate ShouldRetry(e: Error, r: Request) {
    match AsApi(e)
    case Some(api) => if SafeToRepeat(r) then Retryable(api.status) else TurnedAway(api.status)
    case None => SafeToRepeat(r)
  }

  function MarkUnsafeWrite(e: Error, r: Request): Error {
    if !SafeToRepeat(r) && !r.repeatHarmless && AsApi(e).Some? && AsApi(e).value.status >= 500
    then Flagged(e)
    else e
  }

  function Uncertain(e: Error, r: Request): Error {
    if SafeToRepeat(r) || r.repeatHarmless || AsNet(e) == Some("dial") then e else UncertainWrite(e)
  }

  // ---- Backoff, in nanoseconds ----

  const BASE_BACKOFF := 500_000_000
  const MAX_BACKOFF := 30_000_000_000

  /** The configured range of HTTPMaxRetries. */
  type Retries = n: nat | n <= 10

  function Pow2(k: nat): (r: nat)
    ensures r >= 1
  {
    if k == 0 then 1 else 2 * Pow2(k - 1)
  }

  /** Go's << on an int64: the low 64 bits, read as two's complement. */
  function Shl64(x: int, k: nat): int {
    var low := (x * Pow2(k)) % 0x1_0000_0000_0000_0000;
    if low < 0x8000_0000_0000_0000 then low else low - 0x1_0000_0000_0000_0000
  }

  lemma {:induction false} Pow2Monotone(a: nat, b: nat)
    requires a <= b
    ensures Pow2(a) <= Pow2(b)
    decreases b
  {
    if a < b {
      Pow2Monotone(a, b - 1);
    }
  }

  lemma Pow2At9()
    ensures Pow2(9) == 512
  {
    assert Pow2(3) == 8;
    assert Pow2(6) == 64;
  }

  /** Within the configured range the shift never wraps: it is the plain product. */
  lemma ShiftDoesNotWrap(attempt: nat)
    requires 1 <= attempt <= 10
    ensures Shl64(BASE_BACKOFF, attempt - 1) == BASE_BACKOFF * Pow2(attempt - 1)
    ensures Shl64(BASE_BACKOFF, attempt - 1) >= BASE_BACKOFF
  {
    hide Pow2;
    Pow2Monotone(attempt - 1, 9);
    Pow2At9();
    var product := BASE_BACKOFF * Pow2(attempt - 1);
    assert BASE_BACKOFF <= product <= BASE_BACKOFF * 512;
    assert product % 0x1_0000_0000_0000_0000 == product;
  }

  function AsHint(e: Error): Option<int> {
    match e
    case RetryHint(_, after) => Some(after)
    case UncertainWrite(inner) => AsHint(inner)
    case Wrapped(inner) => AsHint(inner)
    case _ => None
  }

  /** Twice as long before each attempt, and never longer than the most. */
  function Base(attempt: nat): int
    requires attempt >= 1
  {
    var doubled := BASE_BACKOFF * Pow2(attempt - 1);
    if doubled > MAX_BACKOFF then MAX_BACKOFF else doubled
  }

  /** The wait before an attempt. jitter stands for the random number, which Go draws from
      0 up to and including half the base. A hint of nothing is no hint. */
  function Backoff(attempt: nat, last: Error, jitter: nat): (d: int)
    requires 1 <= attempt <= 10
    ensures 0 < d <= MAX_BACKOFF
    ensures AsHint(last).Some? && AsHint(last).value > 0 ==>
              d == MAX_BACKOFF <= AsHint(last).value || d == AsHint(last).value
    ensures AsHint(last).None? || AsHint(last).value <= 0 ==> Base(attempt) / 2 <= d <= Base(attempt)
  {
    ShiftDoesNotWrap(attempt);
    var shifted := Shl64(BASE_BACKOFF, attempt - 1);
    var base := if shifted > MAX_BACKOFF then MAX_BACKOFF else shifted;
    match AsHint(last)
    case Some(after) =>
      if after > 0 then (if after < MAX_BACKOFF then after else MAX_BACKOFF)
      else base / 2 + jitter % (base / 2 + 1)
    case None => base / 2 + jitter % (base / 2 + 1)
  }

  // ---- One attempt ----

  datatype Reply = Reply(res: Result<Body, Error>, after: int)

  function Broken(canceled: bool): Error {
    Wrapped(if canceled then Plain(Canceled) else NetError("read", false))
  }

  function Undialed(canceled: bool): Error {
    Wrapped(if canceled then NetError("dial", true) else NetError("dial", false))
  }

  function Attempt(r: Request, m: Move, g: Google): (Google, Reply) {
    match m
    case Unsent => (g, Reply(Err(Wrapped(Plain(HostNotAllowed))), 0))
    case NoDial(canceled) => (g, Reply(Err(Uncertain(Undialed(canceled), r)), 0))
    case Cut(processed, canceled) =>
      (g.After(r.act, Privileged(r), processed), Reply(Err(Uncertain(Broken(canceled), r)), 0))
    case Oversize(processed) =>
      (g.After(r.act, Privileged(r), processed), Reply(Err(Plain(ResponseTooLarge)), 0))
    case Refuse(status, env, after) =>
      (g, Reply(Err(Honest(g, r.act, Privileged(r), ParseApiError(status, env, r.scope, r.alsoScopes))), after))
    case Fail(status, processed, env, after) =>
      var g' := g.After(r.act, Privileged(r), processed);
      (g', Reply(Err(Honest(g', r.act, Privileged(r), ParseApiError(status, env, r.scope, r.alsoScopes))), after))
    case Answer(payload) =>
      var (g', status) := g.Performed(r.act, Privileged(r));
      if status < 300
      then (g', Reply(Ok(Body(r.act.Fetches? && r.act.target in g.tombs, payload)), 0))
      else (g', Reply(Err(ParseApiError(status, None, r.scope, r.alsoScopes)), 0))
  }

  /** The moves after which the loop tries again, as one table: for a call safe to repeat
      every failure but a refusal, and for any other only Google's refusal to start. */
  predicate Transient(r: Request, m: Move) {
    match m
    case Refuse(status, _, _) => status == 429
    case Answer(_) => false
    case _ => SafeToRepeat(r)
  }

  /** The decision spread over shouldRetry, safeToRepeat, retryable and turnedAway is that
      table, whatever state Google is in and however the error was wrapped. */
  lemma RetryTable(r: Request, m: Move, g: Google)
    requires Coherent(r)
    ensures var res := Attempt(r, m, g).1.res;
            res.Err? ==> (ShouldRetry(res.error, r) <==> Transient(r, m))
  {
  }

  // ---- The loop ----

  /** One pass of the loop as the world decides it: what stopped the wait before it, or did
      not, what stopped it in the limiter, and what Google did. */
  datatype Tick = Tick(noRest: Option<Stop>, noEntry: Option<Stop>, jitter: nat, move: Move)

  /** Everything outside the client during one call: why no token could be had, if none could,
      and each pass. */
  datatype World = World(noToken: Option<Stop>, tick: nat -> Tick)

  /** What accumulates outside the client: Google's state, every request handed to the
      transport, and every wait. */
  datatype Net = Net(google: Google, tried: seq<Request>, waits: seq<int>)

  function Unhinted(last: Error): Error {
    match last
    case RetryHint(e, _) => e
    case UncertainWrite(e) => Unhinted(e)
    case Wrapped(e) => Unhinted(e)
    case _ => last
  }

  function Loop(r: Request, tries: Retries, w: World, try: nat, last: Option<Error>, net: Net)
    : (Net, Result<Body, Error>)
    requires try <= tries + 1
    requires try > 0 ==> last.Some?
    decreases tries + 1 - try
  {
    if try > tries then (net, Err(Unhinted(last.value)))
    else
      var t := w.tick(try);
      var net1 := if try > 0 then net.(waits := net.waits + [Backoff(try, last.value, t.jitter)]) else net;
      if try > 0 && t.noRest.Some? then (net1, Err(t.noRest.value))
      else if t.noEntry.Some? then (net1, Err(t.noEntry.value))
      else
        var (g, reply) := Attempt(r, t.move, net1.google);
        var net2 := net1.(google := g, tried := net1.tried + [r]);
        match reply.res
        case Ok(b) => (net2, Ok(b))
        case Err(e) =>
          if !ShouldRetry(e, r) then (net2, Err(MarkUnsafeWrite(e, r)))
          else Loop(r, tries, w, try + 1, Some(RetryHint(e, reply.after)), net2)
  }

  function SendSpec(ctx: Context, r: Request, tries: Retries, w: World, net: Net)
    : (Net, Result<Body, Error>)
  {
    if IsChat(r) && ctx.admin && r.adminScope == "" then (net, Err(Wrapped(Plain(NoAdminForm))))
    else
      var r' := if IsChat(r) && ctx.admin then AsAdmin(r) else r;
      if IsWrite(r') && ctx.noWrites then (net, Err(Wrapped(Plain(WriteForbidden))))
      else if w.noToken.Some? then (net, Err(w.noToken.value))
      else Loop(r', tries, w, 0, None, net)
  }

  /** A call whose answer is decoded when wanted. */
  function DoSpec(ctx: Context, r: Request, tries: Retries, wanted: bool, w: World, net: Net)
    : (Net, Result<Body, Error>)
  {
    var (net', res) := SendSpec(ctx, r, tries, w, net);
    if res.Ok? && wanted && !res.value.payload.decodes then (net', Err(Plain(Undecodable)))
    else (net', res)
  }

  class Client {
    const maxRetries: Retries
    var net: Net

    constructor (maxRetries: Retries, net: Net)
      ensures this.maxRetries == maxRetries && this.net == net
    {
      this.maxRetries := maxRetries;
      this.net := net;
    }

    /** send: the admin rewrite, the dry-run guard, the token, and then the loop. */
    method Send(ctx: Context, request: Request, retries: bool, w: World)
      returns (res: Result<Body, Error>)
      modifies this`net
      ensures (net, res) ==
              SendSpec(ctx, request, if retries then maxRetries else 0, w, old(net))
    {
      hide Attempt, Backoff, ShouldRetry, MarkUnsafeWrite, Unhinted, IsChat, AsAdmin, IsWrite;
      var r := request;
      if IsChat(r) && ctx.admin {
        if r.adminScope == "" {
          return Err(Wrapped(Plain(NoAdminForm)));
        }
        r := AsAdmin(r);
      }
      if IsWrite(r) && ctx.noWrites {
        return Err(Wrapped(Plain(WriteForbidden)));
      }
      if w.noToken.Some? {
        return Err(w.noToken.value);
      }
      var tries: Retries := if retries then maxRetries else 0;
      var last: Option<Error> := None;
      var try: nat := 0;
      while try <= tries
        invariant try <= tries + 1
        invariant try > 0 ==> last.Some?
        invariant Loop(r, tries, w, try, last, net) == Loop(r, tries, w, 0, None, old(net))
      {
        var t := w.tick(try);
        if try > 0 {
          net := net.(waits := net.waits + [Backoff(try, last.value, t.jitter)]);
          if t.noRest.Some? {
            return Err(t.noRest.value);
          }
        }
        if t.noEntry.Some? {
          return Err(t.noEntry.value);
        }
        var (g, reply) := Attempt(r, t.move, net.google);
        net := net.(google := g, tried := net.tried + [r]);
        match reply.res {
          case Ok(b) => return Ok(b);
          case Err(e) =>
            if !ShouldRetry(e, r) {
              return Err(MarkUnsafeWrite(e, r));
            }
            last := Some(RetryHint(e, reply.after));
        }
        try := try + 1;
      }
      return Err(Unhinted(last.value));
    }

    method Do(ctx: Context, r: Request, wanted: bool, w: World) returns (res: Result<Body, Error>)
      modifies this`net
      ensures (net, res) == DoSpec(ctx, r, maxRetries, wanted, w, old(net))
    {
      res := Send(ctx, r, true, w);
      if res.Ok? && wanted && !res.value.payload.decodes {
        res := Err(Plain(Undecodable));
      }
    }
  }
}
