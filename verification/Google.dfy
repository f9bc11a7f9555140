/** Google, as far as this client can tell: a store of named resources behind an
    adversary that decides, attempt by attempt, what happens to the request. */
module GoogleModel {
  import opened Outcomes
  import opened Errors

  /** What Google does when it carries a request out. A message sent with a client-chosen
      id is a CreatesAs under the name it will have. */
  datatype Act =
    | Reads
    | Fetches(target: string)
    | Creates
    | CreatesAs(target: string)
    | Sets
    | Removes(target: string)

  /** applied counts the changes made, stored holds every named resource ever created,
      tombs the ones deleted since, and hidden those only an administrator is shown, such as
      a space the caller is not in. */
  datatype Google = Google(applied: nat, stored: multiset<string>, tombs: set<string>, hidden: set<string>) {
    predicate There(name: string) {
      name in stored && name !in tombs
    }

    predicate Shows(name: string, admin: bool) {
      admin || name !in hidden
    }

    /** The state after carrying act out, as an administrator or not, and the status it is
        answered with. A create under a taken name is refused, a deleted one's included, which
        is Google's promise for client-assigned ids. */
    function Performed(act: Act, admin: bool): (Google, int) {
      match act
      case Reads => (this, 200)
      case Fetches(n) => (this, if n in stored && Shows(n, admin) then 200 else 404)
      case Creates => (this.(applied := applied + 1), 200)
      case CreatesAs(n) =>
        if n in stored then (this, 409)
        else (this.(applied := applied + 1, stored := stored + multiset{n}), 200)
      case Sets => (this.(applied := applied + 1), 200)
      case Removes(n) =>
        if There(n) && Shows(n, admin) then (this.(applied := applied + 1, tombs := tombs + {n}), 200)
        else (this, 404)
    }

    function After(act: Act, admin: bool, processed: bool): Google {
      if processed then Performed(act, admin).0 else this
    }
  }

  type RefusalCode = s: int | 300 <= s < 500 witness 400
  type FailureCode = s: int | 500 <= s witness 500

  /** What a 2xx body says; decodes is false when it is not the JSON its type expects. */
  datatype Payload = Payload(text: string, threadReply: bool, decodes: bool)

  datatype Body = Body(deleted: bool, payload: Payload)

  /** The adversary's choice for one attempt. A dial that fails and a 3xx or 4xx change
      nothing; a broken connection, an oversized answer and a 5xx may have changed
      everything; a 2xx comes only after carrying the request out. */
  datatype Move =
    | Unsent
    | NoDial(canceled: bool)
    | Cut(processed: bool, canceled: bool)
    | Oversize(processed: bool)
    | Refuse(status: RefusalCode, refusal: Option<Envelope>, after: int)
    | Fail(failure: FailureCode, processed: bool, reason: Option<Envelope>, after: int)
    | Answer(payload: Payload)

  /** Google does not call something that is there, and that it shows, not found: an answer
      that would say so about a named target reaches the client without saying so, a 404 as a
      400 and any other status bare. */
  function Honest(g: Google, act: Act, admin: bool, e: Error): (r: Error)
    requires e.ApiError?
    ensures r.ApiError?
    ensures (act.Fetches? || act.Removes?) && IsNotFound(r) ==> !(g.There(act.target) && g.Shows(act.target, admin))
    ensures !act.Fetches? && !act.Removes? ==> r == e
    ensures r.mayHaveApplied ==> e.mayHaveApplied
    ensures r.status == if e.status == 404 && r != e then 400 else e.status
  {
    if (act.Fetches? || act.Removes?) && IsNotFound(e) && g.There(act.target) && g.Shows(act.target, admin)
    then ParseApiError(if e.status == 404 then 400 else e.status, None, e.scope, e.alsoScopes)
    else e
  }
}
