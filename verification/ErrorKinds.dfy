/** The kinds of failure, told by what Google answered instead of by how the error is built. */
module ErrorKinds {
  import opened Outcomes
  import opened Errors
  import Text

  // ---- Walking the chain ----

  /** The error and everything it wraps. */
  function Chain(e: Error): (c: seq<Error>)
    ensures c != [] && c[0] == e
  {
    [e] + if e.UncertainWrite? || e.RetryHint? || e.Wrapped? then Chain(e.err) else []
  }

  /** errors.As and errors.Is look at every link, however the error was wrapped. */
  lemma {:induction false} EveryLinkIsLookedAt(e: Error)
    ensures forall x :: AsApi(e) == Some(x) <==> x in Chain(e) && x.ApiError?
    ensures IsUncertain(e) <==> exists x :: x in Chain(e) && x.UncertainWrite?
    ensures forall op :: AsNet(e) == Some(op) <==> exists x :: x in Chain(e) && x.NetError? && x.op == op
    ensures forall c :: Is(e, c) <==>
                        exists x :: x in Chain(e) && (x == Plain(c) || (x.NetError? && x.canceled && c == Canceled))
  {
    if e.UncertainWrite? || e.RetryHint? || e.Wrapped? {
      EveryLinkIsLookedAt(e.err);
      assert forall x :: x in Chain(e) <==> x == e || x in Chain(e.err);
    } else {
      assert Chain(e) == [e];
      assert e in Chain(e);
    }
  }

  // ---- Reasons ----

  /** A reason without its underscores and its case, in which Google's two spellings agree. */
  function Folded(s: string): string {
    if s == "" then ""
    else if s[0] == '_' then Folded(s[1..])
    else [Text.FoldChar(s[0])] + Folded(s[1..])
  }

  lemma {:induction false} FoldedIsFolding(s: string)
    ensures var w := Text.Without(s, '_');
            |Folded(s)| == |w| && forall i :: 0 <= i < |w| ==> Folded(s)[i] == Text.FoldChar(w[i])
  {
    if s != "" {
      FoldedIsFolding(s[1..]);
    }
  }

  lemma SpellingDoesNotMatter(a: string, b: string)
    ensures SameReason(a, b) <==> a != "" && b != "" && Folded(a) == Folded(b)
  {
    FoldedIsFolding(a);
    FoldedIsFolding(b);
  }

  /** The reason is this one, in whatever spelling. */
  predicate Spells(r: string, name: string) {
    r != "" && Folded(r) == Folded(name)
  }

  /** Spelling out a reason with underscores between its words changes nothing. */
  lemma {:induction false} UnderscoresVanish(a: string, b: string)
    ensures Folded(a + b) == Folded(a) + Folded(b)
    ensures Folded(a + "_" + b) == Folded(a + b)
  {
    if a == "" {
      assert a + b == b && a + "_" + b == "_" + b;
      assert ("_" + b)[1..] == b;
    } else {
      assert (a + b)[1..] == a[1..] + b;
      assert (a + "_" + b)[1..] == a[1..] + "_" + b;
      UnderscoresVanish(a[1..], b);
    }
  }

  predicate SaysScope(r: string) {
    Spells(r, "ACCESS_TOKEN_SCOPE_INSUFFICIENT") || Spells(r, "insufficientPermissions")
  }

  predicate SaysDisabled(r: string) {
    Spells(r, "SERVICE_DISABLED") || Spells(r, "accessNotConfigured")
  }

  predicate SaysQuota(r: string) {
    Spells(r, "dailyLimitExceeded") || Spells(r, "quotaExceeded")
  }

  predicate SaysRate(r: string) {
    Spells(r, "rateLimitExceeded") || Spells(r, "userRateLimitExceeded")
  }

  lemma EitherOf(r: string, a: string, b: string)
    requires a != "" && b != ""
    ensures MatchesReason(r, [a, b]) <==> Spells(r, a) || Spells(r, b)
  {
    SpellingDoesNotMatter(r, a);
    SpellingDoesNotMatter(r, b);
    hide SameReason, Folded;
    assert a in [a, b] && b in [a, b];
  }

  lemma ReasonsMean(r: string)
    ensures MatchesReason(r, SCOPE_REASONS) <==> SaysScope(r)
    ensures MatchesReason(r, DISABLED_REASONS) <==> SaysDisabled(r)
    ensures MatchesReason(r, QUOTA_REASONS) <==> SaysQuota(r)
    ensures MatchesReason(r, RATE_REASONS) <==> SaysRate(r)
  {
    EitherOf(r, "ACCESS_TOKEN_SCOPE_INSUFFICIENT", "insufficientPermissions");
    EitherOf(r, "SERVICE_DISABLED", "accessNotConfigured");
    EitherOf(r, "dailyLimitExceeded", "quotaExceeded");
    EitherOf(r, "rateLimitExceeded", "userRateLimitExceeded");
    hide MatchesReason, Spells;
  }

  // ---- The class of an answer ----

  /** Google's message says that a scope is missing. */
  predicate MentionsScope(message: string) {
    var m := Text.Lower(message);
    Text.Contains(m, "insufficient authentication scopes") || Text.Contains(m, "insufficient permission")
  }

  lemma ScopeSaid(e: Error)
    ensures IsMissingScope(e) <==>
            AsApi(e).Some? && AsApi(e).value.status == 403
            && (SaysScope(AsApi(e).value.reason) || MentionsScope(AsApi(e).value.message))
  {
    if AsApi(e).Some? {
      ReasonsMean(AsApi(e).value.reason);
      var m := Text.Lower(AsApi(e).value.message);
      hide Text.Contains, Text.Lower, SaysScope, MatchesReason;
      assert SCOPE_MESSAGES[0] in SCOPE_MESSAGES && SCOPE_MESSAGES[1] in SCOPE_MESSAGES;
      assert forall want :: want in SCOPE_MESSAGES <==> want == SCOPE_MESSAGES[0] || want == SCOPE_MESSAGES[1];
    }
  }

  /** A refusal that may be one of a target already deleted: a 403 that says nothing else. */
  lemma ForbiddenExactly(e: Error)
    ensures IsForbidden(e) <==>
            && AsApi(e).Some? && AsApi(e).value.status == 403
            && !SaysScope(AsApi(e).value.reason) && !MentionsScope(AsApi(e).value.message)
            && !SaysRate(AsApi(e).value.reason) && !SaysQuota(AsApi(e).value.reason)
            && !SaysDisabled(AsApi(e).value.reason)
    ensures IsAlreadyGone(e) <==>
            && AsApi(e).Some? && (AsApi(e).value.status == 404 || AsApi(e).value.code == "NOT_FOUND")
            && !(AsApi(e).value.status == 403
                 && (SaysScope(AsApi(e).value.reason) || MentionsScope(AsApi(e).value.message)))
  {
    ScopeSaid(e);
    if AsApi(e).Some? {
      ReasonsMean(AsApi(e).value.reason);
    }
    hide MatchesReason, Spells, MentionsScope, IsMissingScope;
  }

  lemma OthersExactly(e: Error)
    requires AsApi(e).Some?
    ensures IsQuotaExceeded(e) <==> SaysQuota(AsApi(e).value.reason)
    ensures IsRateLimited(e) <==>
            AsApi(e).value.status == 429 || (AsApi(e).value.status == 403 && SaysRate(AsApi(e).value.reason))
    ensures IsServiceDisabled(e) <==> AsApi(e).value.status == 403 && SaysDisabled(AsApi(e).value.reason)
    ensures IsUnauthorized(e) <==> AsApi(e).value.status == 401
    ensures IsNotFound(e) <==> AsApi(e).value.status == 404 || AsApi(e).value.code == "NOT_FOUND"
  {
    ReasonsMean(AsApi(e).value.reason);
    hide MatchesReason, Spells;
  }

  /** What each class says of the answer, and so what each predicate behind it does: every
      answer has one class, and these are the conditions under which it is which. A 401, a not
      found and a spent quota are told before what is left of a 403, and a missing scope
      before all. */
  lemma EachClassExactly(e: Error)
    requires AsApi(e).Some? && !Is(e, Reauthorize)
    ensures
      var a := AsApi(e).value;
      var scope := a.status == 403 && (SaysScope(a.reason) || MentionsScope(a.message));
      var gone := a.status == 404 || a.code == "NOT_FOUND";
      var rate := a.status == 429 || (a.status == 403 && SaysRate(a.reason));
      var told := scope || a.status == 401 || gone || SaysQuota(a.reason) || rate;
      && (Classify(e) == ClassScope <==> scope)
      && (Classify(e) == ClassAuth <==> a.status == 401)
      && (Classify(e) == ClassNotFound <==> gone && !scope && a.status != 401)
      && (Classify(e) == ClassQuota <==> SaysQuota(a.reason) && !scope && !gone && a.status != 401)
      && (Classify(e) == ClassRateLimited <==>
          rate && !scope && !gone && !SaysQuota(a.reason))
      && (Classify(e) == ClassForbidden <==> a.status == 403 && !told)
      && (Classify(e) == ClassServer <==> a.status >= 500 && !gone && !SaysQuota(a.reason))
      && (Classify(e) == ClassInvalid <==> a.status == 400 && !gone && !SaysQuota(a.reason))
      && Classify(e) != ClassUnexpected
  {
    ScopeSaid(e);
    ForbiddenExactly(e);
    OthersExactly(e);
    hide Spells, SaysScope, SaysQuota, SaysRate, SaysDisabled, MentionsScope, Is, AsApi;
    hide IsMissingScope, IsForbidden, IsQuotaExceeded, IsRateLimited, IsServiceDisabled, IsUnauthorized, IsNotFound;
  }

  /** A failure that carries no answer has no class of its own, but for wanting a sign-in. */
  lemma NoAnswerNoClass(e: Error)
    ensures AsApi(e).None? ==> Classify(e) == if Is(e, Reauthorize) then ClassAuth else ClassUnexpected
    ensures Is(e, Reauthorize) ==> Classify(e) == ClassAuth
  {
  }

  /** How an answer's body decides beside its status. */
  lemma TheCodeDecidesToo(status: int, body: Option<Envelope>, scope: string, also: seq<string>)
    ensures var e := ParseApiError(status, body, scope, also);
            && (IsNotFound(e) <==> status == 404 || (body.Some? && body.value.status == "NOT_FOUND"))
            && (IsAlreadyExists(e) <==> status == 409 || (body.Some? && body.value.status == "ALREADY_EXISTS"))
            && !MayHaveApplied(e)
  {
  }
}
