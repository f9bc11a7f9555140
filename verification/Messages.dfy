/** Sending a message under a client-chosen id, once or over and over. */
module Messages {
  import opened Outcomes
  import opened Errors
  import opened GoogleModel
  import opened Engine
  import opened EngineTheorems
  import opened CallEffects

  // ---- The id ----

  const ID_PREFIX := "client-"
  const MAX_ID := 63

  predicate IdChar(c: char) {
    'a' <= c <= 'z' || '0' <= c <= '9' || c == '-'
  }

  /** The length of a string in bytes of UTF-8, which is what Go's len counts. */
  function Utf8Length(s: string): (n: nat)
    ensures |s| <= n
    ensures (forall c :: c in s ==> c < '\U{80}') ==> n == |s|
  {
    if s == "" then 0
    else
      var c := s[0];
      assert c in s && forall d :: d in s[1..] ==> d in s;
      (if c < '\U{80}' then 1 else if c < '\U{800}' then 2 else if c < '\U{10000}' then 3 else 4)
      + Utf8Length(s[1..])
  }

  /** Counting bytes or characters comes to the same: an id long in bytes only is refused
      for its characters anyway. */
  method ValidMessageID(id: string) returns (ok: bool)
    ensures ok <==> "client-" <= id && |id| <= 63
                    && forall c :: c in id ==> 'a' <= c <= 'z' || '0' <= c <= '9' || c == '-'
  {
    if !(ID_PREFIX <= id) || Utf8Length(id) > MAX_ID {
      assert (forall c :: c in id ==> IdChar(c)) ==> Utf8Length(id) == |id|;
      return false;
    }
    for i := 0 to |id|
      invariant forall c :: c in id[..i] ==> IdChar(c)
    {
      if !IdChar(id[i]) {
        assert id[i] in id;
        return false;
      }
      assert id[..i + 1] == id[..i] + [id[i]];
    }
    assert id[..|id|] == id;
    return true;
  }

  // ---- One send ----

  /** The name the message has at Google. */
  function MessageName(space: string, id: string): string {
    space + "/messages/" + id
  }

  const MESSAGES_CREATE := "https://www.googleapis.com/auth/chat.messages.create"
  const MESSAGES_READONLY := "https://www.googleapis.com/auth/chat.messages.readonly"

  function SendRequest(space: string, id: string, threaded: bool, fallback: bool): (r: Request)
    ensures Coherent(r) && SafeToRepeat(r) && IsWrite(r)
  {
    var option := if fallback then "REPLY_MESSAGE_FALLBACK_TO_NEW_THREAD" else "REPLY_MESSAGE_OR_FAIL";
    var query := map["messageId" := [id]];
    Request(ChatAPI, POST, CreatesAs(MessageName(space, id)),
            if threaded then query["messageReplyOption" := [option]] else query,
            MESSAGES_CREATE, [], "", false, false, true)
  }

  function GetRequest(name: string): (r: Request)
    ensures Coherent(r) && !IsWrite(r)
  {
    Request(ChatAPI, GET, Fetches(name), map[], MESSAGES_READONLY, [], "", false, false, false)
  }

  /** One call of SendMessage: clientID is the caller's id, empty for none, and minted the
      one this call would make up. */
  datatype Send = Send(ctx: Context, space: string, clientID: string, minted: string,
                       threaded: bool, fallback: bool, post: World, read: World)

  function IdOf(s: Send): string {
    if s.clientID == "" then s.minted else s.clientID
  }

  function NameOf(s: Send): string {
    MessageName(s.space, IdOf(s))
  }

  /** The post, and after "already exists" the read of what landed. */
  function SendMessage(tries: Retries, s: Send, net: Net): (Net, Result<Body, Error>) {
    var (posted, res) := DoSpec(s.ctx, SendRequest(s.space, IdOf(s), s.threaded, s.fallback), tries, true, s.post, net);
    if res.Ok? then (posted, res)
    else if !IsAlreadyExists(res.error) then (posted, res)
    else DoSpec(s.ctx, GetRequest(NameOf(s)), tries, true, s.read, posted)
  }

  // ---- Any number of sends ----

  datatype Conversation = Conversation(net: Net, results: seq<Result<Body, Error>>)

  function Converse(tries: Retries, sends: seq<Send>, net: Net): (c: Conversation)
    ensures |c.results| == |sends|
  {
    if sends == [] then Conversation(net, [])
    else
      var before := Converse(tries, sends[..|sends| - 1], net);
      var (after, res) := SendMessage(tries, sends[|sends| - 1], before.net);
      Conversation(after, before.results + [res])
  }

  /** One send adds at most one message, only under its own name and only if that name was
      free, and takes none away; a nil error means the name has been posted under, and the
      message is there exactly when it had not been deleted. */
  lemma SendEffect(tries: Retries, s: Send, net: Net)
    ensures var (out, res) := SendMessage(tries, s, net);
            && Changed(CreatesAs(NameOf(s)), net.google, out.google)
            && out.google.tombs == net.google.tombs && out.google.hidden == net.google.hidden
            && (res.Ok? ==>
                  && NameOf(s) in out.google.stored
                  && (out.google.There(NameOf(s)) <==> NameOf(s) !in net.google.tombs))
  {
    var r := SendRequest(s.space, IdOf(s), s.threaded, s.fallback);
    CallEffect(s.ctx, r, tries, true, s.post, net);
    var (posted, res) := DoSpec(s.ctx, r, tries, true, s.post, net);
    if res.Err? && IsAlreadyExists(res.error) {
      CallEffect(s.ctx, GetRequest(NameOf(s)), tries, true, s.read, posted);
    }
  }

  /** Over any number of sends, with ids reused across calls or not, whatever is lost, fails
      or is repeated on the way: no name is ever stored twice, names no send chose are
      untouched, nothing is lost, every send that returned no error has exactly one message,
      there just if it was not a tombstone from the start, and Google made exactly as many
      changes as there are new messages. */
  lemma {:induction false} SendsNeverDouble(tries: Retries, sends: seq<Send>, net: Net)
    requires forall n :: net.google.stored[n] <= 1
    ensures var c := Converse(tries, sends, net);
            && (forall n :: net.google.stored[n] <= c.net.google.stored[n] <= 1)
            && (forall n :: (forall i :: 0 <= i < |sends| ==> NameOf(sends[i]) != n) ==>
                  c.net.google.stored[n] == net.google.stored[n])
            && (forall i :: 0 <= i < |sends| && c.results[i].Ok? ==>
                  && c.net.google.stored[NameOf(sends[i])] == 1
                  && (c.net.google.There(NameOf(sends[i])) <==> NameOf(sends[i]) !in net.google.tombs))
            && c.net.google.tombs == net.google.tombs
            && c.net.google.applied - net.google.applied == |c.net.google.stored| - |net.google.stored|
  {
    hide SendMessage;
    hide NameOf;
    if sends != [] {
      var last := |sends| - 1;
      SendsNeverDouble(tries, sends[..last], net);
      var before := Converse(tries, sends[..last], net);
      var c := Converse(tries, sends, net);
      SendEffect(tries, sends[last], before.net);
      forall n | forall i :: 0 <= i < |sends| ==> NameOf(sends[i]) != n
        ensures c.net.google.stored[n] == net.google.stored[n]
      {
        assert NameOf(sends[last]) != n;
        assert forall i :: 0 <= i < last ==> sends[..last][i] == sends[i];
      }
      forall i | 0 <= i < |sends| && c.results[i].Ok?
        ensures c.net.google.stored[NameOf(sends[i])] == 1
      {
        if i < last {
          assert sends[..last][i] == sends[i] && before.results[i] == c.results[i];
        }
      }
    }
  }

  /** The id is the caller's, and one made up only for a caller that gave none: what a send
      hands to the transport is a post that carries that id, of the message of that name, and
      a read of that message. */
  lemma EveryAttemptCarriesTheId(tries: Retries, s: Send, net: Net)
    ensures
      var out := SendMessage(tries, s, net).0;
      var id := if s.clientID != "" then s.clientID else s.minted;
      && |net.tried| <= |out.tried|
      && forall i :: |net.tried| <= i < |out.tried| ==>
           var q := out.tried[i];
           if q.httpMethod == POST then
             && q.act == CreatesAs(s.space + "/messages/" + id)
             && (!s.ctx.admin ==> q.scope == "https://www.googleapis.com/auth/chat.messages.create")
             && "messageId" in q.query && q.query["messageId"] == [id]
             && (if s.threaded then
                   && "messageReplyOption" in q.query
                   && q.query["messageReplyOption"]
                      == [if s.fallback then "REPLY_MESSAGE_FALLBACK_TO_NEW_THREAD" else "REPLY_MESSAGE_OR_FAIL"]
                 else "messageReplyOption" !in q.query)
           else
             && q.httpMethod == GET && q.act == Fetches(s.space + "/messages/" + id)
             && (!s.ctx.admin ==> q.scope == "https://www.googleapis.com/auth/chat.messages.readonly")
  {
    var r, read := SendRequest(s.space, IdOf(s), s.threaded, s.fallback), GetRequest(NameOf(s));
    EveryCallIsBounded(s.ctx, r, tries, true, s.post, net);
    var posted := DoSpec(s.ctx, r, tries, true, s.post, net).0;
    EveryCallIsBounded(s.ctx, read, tries, true, s.read, posted);
    hide DoSpec, Bounded;
    assert AsSent(s.ctx, r).query == if s.ctx.admin then r.query["useAdminAccess" := ["true"]] else r.query;
    PostsThenReads(tries, s, net);
  }

  lemma PostsThenReads(tries: Retries, s: Send, net: Net)
    ensures var r, read := SendRequest(s.space, IdOf(s), s.threaded, s.fallback), GetRequest(NameOf(s));
            var out := SendMessage(tries, s, net).0;
            && |net.tried| <= |out.tried|
            && forall i :: |net.tried| <= i < |out.tried| ==>
                 out.tried[i] == AsSent(s.ctx, r) || out.tried[i] == AsSent(s.ctx, read)
  {
    var r, read := SendRequest(s.space, IdOf(s), s.threaded, s.fallback), GetRequest(NameOf(s));
    EveryCallIsBounded(s.ctx, r, tries, true, s.post, net);
    var posted := DoSpec(s.ctx, r, tries, true, s.post, net).0;
    EveryCallIsBounded(s.ctx, read, tries, true, s.read, posted);
    hide DoSpec, AsSent, SendRequest, GetRequest, IdOf, NameOf;
  }

  /** A send with this id to this space. */
  predicate Carries(s: Send, space: string, id: string) {
    s.space == space && s.clientID == id
  }

  /** A caller's id is worth what it is for: over any sends some of which carry it, at most one
      message is stored under it, any of those that returned no error has exactly that one, and
      if all carry it then, whatever ids were made up, Google made at most one change, which is
      that message. */
  lemma OneIdOneMessage(tries: Retries, sends: seq<Send>, net: Net, space: string, id: string)
    requires id != "" && forall n :: net.google.stored[n] <= 1
    ensures var c := Converse(tries, sends, net);
            var n := space + "/messages/" + id;
            && c.net.google.stored[n] <= 1
            && (forall i :: 0 <= i < |sends| && Carries(sends[i], space, id) && c.results[i].Ok? ==>
                  c.net.google.stored[n] == 1)
            && ((forall i :: 0 <= i < |sends| ==> Carries(sends[i], space, id)) ==>
                  || c.net.google == net.google
                  || (n !in net.google.stored
                      && c.net.google == net.google.(applied := net.google.applied + 1,
                                                     stored := net.google.stored + multiset{n})))
  {
    SendsNeverDouble(tries, sends, net);
    var c := Converse(tries, sends, net);
    var n := space + "/messages/" + id;
    hide Converse;
    forall s: Send | Carries(s, space, id) ensures NameOf(s) == n {
    }
    hide NameOf;
    if forall i :: 0 <= i < |sends| ==> Carries(sends[i], space, id) {
      AllCarryOne(tries, sends, net, space, id);
    }
  }

  lemma {:induction false} AllCarryOne(tries: Retries, sends: seq<Send>, net: Net, space: string, id: string)
    requires id != "" && forall i :: 0 <= i < |sends| ==> Carries(sends[i], space, id)
    ensures var out := Converse(tries, sends, net).net.google;
            Changed(CreatesAs(space + "/messages/" + id), net.google, out)
  {
    hide SendMessage, Changed;
    if sends != [] {
      var last := |sends| - 1;
      AllCarryOne(tries, sends[..last], net, space, id);
      var before := Converse(tries, sends[..last], net);
      SendEffect(tries, sends[last], before.net);
      assert Carries(sends[last], space, id);
      ChangesCompose(CreatesAs(space + "/messages/" + id), net.google, before.net.google,
                     Converse(tries, sends, net).net.google);
    } else {
      NoChange(CreatesAs(space + "/messages/" + id), net.google);
    }
  }

  lemma NoChange(act: Act, g: Google)
    ensures Changed(act, g, g)
  {
  }

  /** A deleted message passes for a sent one: a send with its id, whether a repeat or the
      retry of one that landed, is answered that the name is taken, and the tombstone read
      back is returned without an error. */
  lemma ATombstonePassesForSent(tries: Retries, s: Send, net: Net, p: Payload)
    requires !s.ctx.noWrites && !s.ctx.admin && p.decodes
    requires NameOf(s) in net.google.stored && NameOf(s) in net.google.tombs && NameOf(s) !in net.google.hidden
    requires s.post == s.read == World(None, _ => Tick(None, None, 0, Answer(p)))
    ensures var (out, res) := SendMessage(tries, s, net);
            res == Ok(Body(true, p)) && out.google == net.google && !out.google.There(NameOf(s))
  {
  }
}
