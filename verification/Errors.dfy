/** What a failed call to Google is, and how the rest of the program tells the kinds apart.

    A Go error is a chain of wrappers, and errors.As walks it. The chain is kept here,
    because whether a failure is still recognised depends on who wrapped what. */
module Errors {
  import opened Outcomes
  import Redact
  import Text

  /** Failures that carry no answer from Google. */
  datatype Cause =
    | HostNotAllowed | ResponseTooLarge | Undecodable | Canceled
    | LimiterRefused | WriteForbidden | NoAdminForm | Reauthorize | RefreshFailed

  datatype Error =
    | ApiError(status: int, code: string, message: string, reason: string,
               scope: string, alsoScopes: seq<string>, mayHaveApplied: bool)
    | UncertainWrite(err: Error)
    | RetryHint(err: Error, after: int)
    | Wrapped(err: Error)
    | NetError(op: string, canceled: bool)
    | Plain(cause: Cause)

  /** The error envelope of a response body that parsed as one. */
  datatype Envelope = Envelope(status: string, message: string, details: seq<string>, errors: seq<string>)

  /** http.StatusText on the statuses a decision here depends on or Google documents. */
  function StatusText(status: int): string {
    match status
    case 400 => "Bad Request"
    case 401 => "Unauthorized"
    case 403 => "Forbidden"
    case 404 => "Not Found"
    case 409 => "Conflict"
    case 429 => "Too Many Requests"
    case 500 => "Internal Server Error"
    case 502 => "Bad Gateway"
    case 503 => "Service Unavailable"
    case 504 => "Gateway Timeout"
    case _ => ""
  }

  /** The first reason that says anything. */
  function FirstNonEmpty(reasons: seq<string>): string {
    if reasons == [] then "" else if reasons[0] != "" then reasons[0] else FirstNonEmpty(reasons[1..])
  }

  /** It is one of them, and missing only if all are. */
  lemma {:induction false} FirstIsOne(reasons: seq<string>)
    ensures var r := FirstNonEmpty(reasons);
            && (r == "" ==> forall s :: s in reasons ==> s == "")
            && (r != "" ==> r in reasons)
  {
    if reasons != [] {
      FirstIsOne(reasons[1..]);
      assert reasons == [reasons[0]] + reasons[1..];
    }
  }

  lemma NextReason(a: seq<string>, i: nat, b: seq<string>)
    requires i < |a|
    ensures FirstNonEmpty(a[i..] + b) == if a[i] != "" then a[i] else FirstNonEmpty(a[i + 1..] + b)
  {
    assert (a[i..] + b)[1..] == a[i + 1..] + b;
  }

  lemma LastReason(a: seq<string>, i: nat)
    requires i < |a|
    ensures FirstNonEmpty(a[i..]) == if a[i] != "" then a[i] else FirstNonEmpty(a[i + 1..])
  {
    assert a[i..][1..] == a[i + 1..];
  }

  lemma ReasonsEnd(a: seq<string>, b: seq<string>)
    ensures a[0..] == a && a[|a|..] + b == b && FirstNonEmpty(a[|a|..]) == ""
  {
  }

  /** Reads the typed reason from either of the two places Google puts it. */
  method ParseReason(env: Envelope) returns (reason: string)
    ensures reason == FirstNonEmpty(env.details + env.errors)
  {
    hide FirstNonEmpty;
    reason := "";
    ReasonsEnd(env.details, env.errors);
    ReasonsEnd(env.errors, []);
    var i := 0;
    while i < |env.details|
      invariant 0 <= i <= |env.details|
      invariant reason == ""
      invariant FirstNonEmpty(env.details + env.errors) == FirstNonEmpty(env.details[i..] + env.errors)
    {
      NextReason(env.details, i, env.errors);
      if env.details[i] != "" {
        reason := env.details[i];
        break;
      }
      i := i + 1;
    }
    var j := 0;
    while j < |env.errors|
      invariant 0 <= j <= |env.errors|
      invariant reason == "" ==> FirstNonEmpty(env.details + env.errors) == FirstNonEmpty(env.errors[j..])
      invariant reason != "" ==> FirstNonEmpty(env.details + env.errors) == reason
    {
      LastReason(env.errors, j);
      if reason == "" && env.errors[j] != "" {
        reason := env.errors[j];
      }
      j := j + 1;
    }
  }

  /** parseAPIError with the scopes stamped on, as every send path builds it. A body that
      is no envelope still yields an error from the status. */
  function ParseApiError(status: int, body: Option<Envelope>, scope: string, also: seq<string>): (e: Error)
    ensures e.ApiError? && e.status == status && !e.mayHaveApplied
    ensures e.scope == scope && e.alsoScopes == also
    ensures body.Some? && body.value.status != "" ==> e.code == body.value.status
    ensures body.None? || body.value.status == "" ==> e.code == StatusText(status)
    ensures body.None? ==> e.message == "" && e.reason == ""
    ensures body.Some? ==> e.message == Redact.Accounts(body.value.message)
    ensures body.Some? && e.reason == "" ==>
              forall r :: r in body.value.details + body.value.errors ==> r == ""
    ensures e.reason != "" ==> body.Some? && e.reason in body.value.details + body.value.errors
  {
    match body
    case None => ApiError(status, StatusText(status), "", "", scope, also, false)
    case Some(env) =>
      FirstIsOne(env.details + env.errors);
      ApiError(status, if env.status == "" then StatusText(status) else env.status,
               Redact.Accounts(env.message), FirstNonEmpty(env.details + env.errors), scope, also, false)
  }

  /** errors.As to *APIError: the first one down the chain. */
  function AsApi(e: Error): (r: Option<Error>)
    ensures r.Some? ==> r.value.ApiError?
  {
    match e
    case ApiError(_, _, _, _, _, _, _) => Some(e)
    case UncertainWrite(inner) => AsApi(inner)
    case RetryHint(inner, _) => AsApi(inner)
    case Wrapped(inner) => AsApi(inner)
    case _ => None
  }

  /** errors.As to *uncertainWrite. */
  predicate IsUncertain(e: Error) {
    match e
    case UncertainWrite(_) => true
    case RetryHint(inner, _) => IsUncertain(inner)
    case Wrapped(inner) => IsUncertain(inner)
    case _ => false
  }

  /** errors.As to *net.OpError. */
  function AsNet(e: Error): Option<string> {
    match e
    case NetError(op, _) => Some(op)
    case UncertainWrite(inner) => AsNet(inner)
    case RetryHint(inner, _) => AsNet(inner)
    case Wrapped(inner) => AsNet(inner)
    case _ => None
  }

  /** errors.Is against one of the plain causes. */
  predicate Is(e: Error, cause: Cause) {
    match e
    case Plain(c) => c == cause
    case NetError(_, canceled) => canceled && cause == Canceled
    case UncertainWrite(inner) => Is(inner, cause)
    case RetryHint(inner, _) => Is(inner, cause)
    case Wrapped(inner) => Is(inner, cause)
    case _ => false
  }

  /** A failure from outside this package: nothing Google answered, nothing of a request that
      was sent, and none of the package's own refusals. It may be any chain otherwise. */
  predicate Outside(e: Error) {
    AsApi(e).None? && !IsUncertain(e) && !Is(e, NoAdminForm) && !Is(e, WriteForbidden)
  }

  /** What keeps a call from going on: the token, the wait or the limiter fails. */
  type Stop = e: Error | Outside(e) witness Plain(Canceled)

  /** The chain with the first APIError in it flagged, which Go does through the pointer. */
  function Flagged(e: Error): (r: Error)
    ensures AsApi(e).Some? ==> AsApi(r) == Some(AsApi(e).value.(mayHaveApplied := true))
  {
    match e
    case ApiError(_, _, _, _, _, _, _) => e.(mayHaveApplied := true)
    case UncertainWrite(inner) => UncertainWrite(Flagged(inner))
    case RetryHint(inner, after) => RetryHint(Flagged(inner), after)
    case Wrapped(inner) => Wrapped(Flagged(inner))
    case _ => e
  }

  /** Whether the failure is that of a write Google may have applied before it failed. */
  predicate MayHaveApplied(e: Error) {
    match AsApi(e)
    case Some(api) => api.mayHaveApplied
    case None => IsUncertain(e)
  }

  // ---- The kinds of refusal ----

  const SCOPE_REASONS := ["ACCESS_TOKEN_SCOPE_INSUFFICIENT", "insufficientPermissions"]
  const SCOPE_MESSAGES := ["insufficient authentication scopes", "insufficient permission"]
  const DISABLED_REASONS := ["SERVICE_DISABLED", "accessNotConfigured"]
  const QUOTA_REASONS := ["dailyLimitExceeded", "quotaExceeded"]
  const RATE_REASONS := ["rateLimitExceeded", "userRateLimitExceeded"]

  /** One reason code in Google's two spellings of it. */
  predicate SameReason(a: string, b: string) {
    a != "" && b != "" && Text.EqualFold(Text.Without(a, '_'), Text.Without(b, '_'))
  }

  predicate MatchesReason(reason: string, want: seq<string>) {
    exists w :: w in want && SameReason(reason, w)
  }

  predicate IsMissingScope(e: Error) {
    match AsApi(e)
    case None => false
    case Some(api) =>
      && api.status == 403
      && (|| MatchesReason(api.reason, SCOPE_REASONS)
          || exists want :: want in SCOPE_MESSAGES && Text.Contains(Text.Lower(api.message), want))
  }

  predicate IsNotFound(e: Error) {
    var api := AsApi(e);
    api.Some? && (api.value.status == 404 || api.value.code == "NOT_FOUND")
  }

  predicate IsAlreadyExists(e: Error) {
    var api := AsApi(e);
    api.Some? && (api.value.status == 409 || api.value.code == "ALREADY_EXISTS")
  }

  predicate IsAlreadyGone(e: Error) {
    !IsMissingScope(e) && IsNotFound(e)
  }

  predicate IsServiceDisabled(e: Error) {
    var api := AsApi(e);
    api.Some? && api.value.status == 403 && MatchesReason(api.value.reason, DISABLED_REASONS)
  }

  predicate IsRateLimited(e: Error) {
    var api := AsApi(e);
    && api.Some?
    && (|| api.value.status == 429
        || (api.value.status == 403 && MatchesReason(api.value.reason, RATE_REASONS)))
  }

  predicate IsQuotaExceeded(e: Error) {
    var api := AsApi(e);
    api.Some? && MatchesReason(api.value.reason, QUOTA_REASONS)
  }

  predicate IsUnauthorized(e: Error) {
    var api := AsApi(e);
    api.Some? && api.value.status == 401
  }

  predicate IsForbidden(e: Error) {
    && !IsMissingScope(e) && !IsRateLimited(e) && !IsQuotaExceeded(e) && !IsServiceDisabled(e)
    && AsApi(e).Some? && AsApi(e).value.status == 403
  }

  /** Another attempt could succeed. */
  predicate Retryable(status: int) {
    status == 429 || status >= 500
  }

  /** Google refused to start, so nothing was applied. */
  predicate TurnedAway(status: int) {
    status == 429
  }

  // ---- The class a tool error carries ----

  datatype Class =
    | ClassAuth | ClassScope | ClassNotFound | ClassInvalid | ClassRateLimited | ClassQuota
    | ClassForbidden | ClassServer | ClassUpstream | ClassUnexpected

  /** Classify, as the class it puts on the front of the message. */
  function Classify(e: Error): Class {
    if Is(e, Reauthorize) then ClassAuth
    else match AsApi(e)
      case None => ClassUnexpected
      case Some(api) =>
        if IsMissingScope(e) then ClassScope
        else if IsUnauthorized(e) then ClassAuth
        else if IsNotFound(e) then ClassNotFound
        else if IsQuotaExceeded(e) then ClassQuota
        else if IsRateLimited(e) then ClassRateLimited
        else if IsServiceDisabled(e) then ClassForbidden
        else if IsForbidden(e) then ClassForbidden
        else if api.status >= 500 then ClassServer
        else if api.status == 400 then ClassInvalid
        else ClassUpstream
  }
}
