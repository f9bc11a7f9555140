# google-chat-mcp: a verified model

An MCP server that lets a language model work in Google Chat. Every tool ends in calls to
Google that may be lost, refused, repeated or answered unreadably, so what the server promises
is about whole runs against a server it cannot trust. This project models those parts in Dafny
and proves the promises for every run, or states exactly where they stop.

`dafny verify dfyconfig.toml` checks everything.

## What is modelled

| module | what it is |
|---|---|
| `Errors`, `ErrorKinds`, `Text` | the error chain, how `errors.As` walks it, and the predicates that tell failures apart |
| `GoogleModel`, `Engine`, `RetryAfter`, `Waits` | Google as an adversary that decides each attempt, and `send`, the one loop every call goes through: admin rewrite, dry-run guard, token, limiter, retry, backoff |
| `EngineTheorems`, `CallEffects` | what holds of every call whatever Google does |
| `Messages`, `Caution`, `Deletes`, `DeleteDecisions`, `Conversations` | sends under client-chosen ids, what a failed one says, the idempotent deletes, and runs that mix them |
| `Tools` | which tools a server registers, what wrapping gives any handler, and sessions of calls |
| `Transfer`, `TransferRuns` | the three timers of a streamed transfer, interleaved with transport, caller and clock |
| `Cache`, `CacheRuns`, `Resolver`, `ResolverTheorems`, `People` | the directory cache over runs and restarts, the chunked lookup above it, and the merge of what Chat sent with what was looked up |
| `Drift`, `DriftTheorems`, `DriftOrder` | the walk that reports fields a type does not model |
| `Paths`, `Redact`, `Witness`, `FileNames`, `Files` | path escaping, address masking, whitespace-free witnesses, file names and their creation |
| `Paging`, `Search`, `SpaceCheck`, `Sections`, `Sorting` | the local scan, the check of who is in a conversation, and filing a space, over paged or stateful listings |

A Go method that changes state is a method here, with its loops, tied by its contract to a
specification function; the theorems are lemmas about those functions. Clocks, random numbers,
tokens, limiters, the network and the disk are parameters, so a statement holds for all of them.
When the token, a wait or the limiter fails, it is with any error there is, as long as it is neither
an answer of Google's nor one of the client's own refusals, and the call returns it as it is.

### What Google is assumed to do

- A failed dial and a 3xx or 4xx answer change nothing. A 2xx comes only after the request was
  carried out. A broken connection, an oversized answer and a 5xx may follow either.
- A create under a name already taken is refused, a deleted one's included, which is its promise
  for message ids the client chooses.
- Something that is there is never called not found to a request that is shown it. Some things are
  shown to an administrator's requests alone.
- While a run lasts, the resources it names are changed by its own requests and by nobody else's.
- `Coherent` holds of each request: only what changes nothing is sent as GET or marked read-only.

### What was found

- A write that is not safe to repeat is applied at most once, and an error after it was applied
  says so, except by design for an upload, and then after an oversized answer
  (internal/gchat/client.go:905) and after one that does not decode (internal/gchat/client.go:814).
  `SilentExitsExist` shows both happen.
- The caution a failed send carries depends only on how the call that failed ended, whether that is
  the post or the read of what landed, and on nothing before (`CautionFollowsTheEnding`). So a
  message can be posted and the failure not say so: after a 500 that landed, when the second attempt
  answers 403 (`PostedButReportedRefused`), when it answers 409 and the read is refused
  (`PostedButTheReadRefused`) or needs a new sign-in (`PostedButNoToken`), and when the call is given
  up, in the wait before the second attempt or in the limiter (`PostedButGivenUp`).
  `PostedInSilenceExactly` says when. A token refresh that fails otherwise is cautioned.
- A send whose id belongs to a deleted message returns the tombstone without an error, and nothing
  is there (`ATombstonePassesForSent`). Otherwise no error means exactly one message is there.
- A stall guard is made by starting its timer and then stopping it. If the limit passes between the
  two, it cancels a transfer of which no Read was ever outstanding (`UnearnedExactly`), and the
  answer's guard can so cut a transfer that was never late (`TimelyCutExactly`).
- A Retry-After header asking for more than a Go duration holds is converted to whatever the machine
  gives, which may be negative and then is not waited for (`HintSurvivesExactly`).
- Between two Reads of a request body, and while a refusal's body is read, no timer runs. And when an
  answer comes before the end of the request body, that end sets the deadline again and nobody stops it
  (`ARefusalMayComeEarly`), though it cancels nothing (`AnsweredIsFinal`).
- A delete of something its caller is not shown is reported as done although it is there
  (`GoneWhileThereExactly`). Reading back a refused delete has to use the access the delete used
  (`ReadBackNeedsTheAccess`), as it does.
- A restart changes the answer for exactly the ids remembered as unresolved: it forgets the miss, and
  an address cached before the miss comes back (`RestartLosesNothing`, `AMissIsForgotten`).
- A conversation's members are compared on the first ten pages of the listing only, without
  saying so when there are more (`TenPagesAreNotEverybody`). Nor is the caller's own address then
  known if their row comes later, and giving it is held against them (`AnOwnAddressUnread`). Every
  witness is decided as for all the members exactly when the pages left out add neither, or none
  could be accepted (`PagesDecideExactly`).
- A section, or a user, called `items` is misread in an item's name, so filing into such a section
  writes again on every call (`ItemsNeverSettles`). `SettledExactly` has the exact condition.
- `safeName` is not idempotent: ". x" becomes " x", and " x" becomes "x" (`ADotAndASpace`).
  `TwiceExactly` says for which names.
- When several fields claim one wire name, the field map keeps the one declared last, where
  encoding/json takes the shallowest, or among those the tagged one, or none
  (`AnEmbeddedFieldWins`). They agree exactly when the last claim is undisputed
  (`FieldsFollowJsonExactly`).

## Model

| member | source | states |
|---|---|---|
| `Engine.Client.Send` | internal/gchat/client.go:741-793 | The loop, step by step, is `SendSpec`: same attempts, same waits, same answer, for every world |
| `Engine.Client.Do` | internal/gchat/client.go:797-815 | A call is a send whose 2xx must decode when an answer is wanted |
| `Engine.ShiftDoesNotWrap` | internal/gchat/client.go:924-941 | For the configured 1 to 10 retries the 64-bit shift is the plain product, never negative |
| `Engine.Backoff` | internal/gchat/client.go:924-941 | Every wait is positive and at most 30 s; a hint of so many nanoseconds is waited out up to that; and without one, which a hint of zero or less is, the wait is between half the attempt's base and all of it |
| `RetryAfter.HintSurvivesExactly` | internal/gchat/client.go:924-972 | What a Retry-After header asks is kept, up to 30 s, on every machine and with any jitter, if and only if it fits a duration |
| `Waits.EveryWaitIsWhatGoogleAsked` | internal/gchat/client.go:766-793 | Over every run of every call, wait i follows the move of attempt i: what that answer asked for, up to 30 s, or between half and all of half a second doubled i times, up to 30 s; and there is one before each attempt but the first, and one more only in a call that stopped there |
| `Waits.EveryWaitCanBeDrawn` | internal/gchat/client.go:924-941 | Without a hint every wait in that range is one a draw gives, so calls that failed together can come apart |
| `Engine.RetryTable` | internal/gchat/client.go:837-852 | The decision spread over four functions and the error's wrappers comes to one table over what Google did, for every failed attempt: a call safe to repeat retries all but refusals, any other only a 429 |
| `EngineTheorems.EveryCallIsBounded` | internal/gchat/client.go:741-793 | Every call makes at most MaxRetries+1 attempts, all of the same request, and at most MaxRetries waits of at most 30 s |
| `EngineTheorems.WhatStopsACallAndWhatItSends` | internal/gchat/client.go:741-775 | What stops a call before anything is sent, and in which order; what is not stopped makes its first attempt unless the limiter fails, with the privilege and the admin scope just for an administrator's Chat call |
| `EngineTheorems.EachMoveHasItsError` | internal/gchat/client.go:879-913 | What became of an attempt can be told from its error, by errors.Is and errors.As |
| `EngineTheorems.UnsafeAttempt` | internal/gchat/client.go:857-913 | One attempt at a write not safe to repeat: what it can change, that only a refusal is tried again, and when its error is marked |
| `EngineTheorems.AtMostOnceAndTold` | internal/gchat/client.go:741-815 | Over every run such a write is applied at most once, exactly once on success, and an error after it was applied says it may have been if and only if the run did not end on an upload, an oversized answer or an undecodable one |
| `EngineTheorems.SilentExitsExist` | internal/gchat/client.go:810-814 | Runs that apply the write and return an unmarked error, through each of the two exits |
| `EngineTheorems.TransientFailuresAreRiddenOut` | internal/gchat/client.go:741-793 | If Google answers at attempt k within the budget and all before was transient, the call, of any kind, has that answer after exactly k+1 attempts |
| `Errors.ParseReason` | internal/gchat/errors.go:119-141 | The reason is the first non-empty one, details before errors |
| `Errors.ParseApiError` | internal/gchat/errors.go:119-141 | Any body yields an unmarked error of the answer's status, with Google's code or else the status text, its message with the addresses masked, a reason that is one of those given or missing only if all are, and the call's scopes |
| `Errors.Flagged` | internal/gchat/client.go:857-863 | Marking reaches the API error through any wrappers and changes nothing else of it |
| `ErrorKinds.EveryLinkIsLookedAt` | internal/gchat/errors.go:171-312 | What each predicate on an error finds, it finds in any link of the chain, and only there |
| `ErrorKinds.ReasonsMean` | internal/gchat/errors.go:143-312 | A reason is of a list when it is one of its members up to case and underscores |
| `ErrorKinds.ForbiddenExactly` | internal/gchat/errors.go:215-262 | Which 403 is a plain refusal, and which answer means already gone |
| `ErrorKinds.EachClassExactly` | internal/service/errors.go:134-230 | The class of each answer, by its status, code, reason and message alone |
| `ErrorKinds.TheCodeDecidesToo` | internal/gchat/errors.go:196-214 | An answer is a not found, or an already exists, by its status or by Google's code |
| `CallEffects.AttemptEffect` | internal/gchat/client.go:879-913 | What one attempt may change in Google's store, and what its answer proves |
| `CallEffects.CallEffect` | internal/gchat/client.go:741-815 | The same for a whole call with its retries: a 2xx to a create means the name is taken, to a delete that this call removed it; not found means it is not there, as far as the request is shown; and nothing is removed that it is not shown |
| `Messages.ValidMessageID` | internal/gchat/messages.go:205-217 | Accepts exactly the ids with the prefix, at most 63 characters and only lower-case letters, digits and hyphens, though the length is counted in bytes |
| `Messages.SendRequest` | internal/gchat/messages.go:237-269 | A send is a write, and safe to repeat because its id makes a second one be refused |
| `Messages.SendEffect` | internal/gchat/messages.go:237-269 | One send adds at most one message, under its own name, and removes none; with a nil error the message is there exactly when it had not been deleted |
| `Messages.EveryAttemptCarriesTheId` | internal/gchat/messages.go:237-269 | Every attempt of a send carries the caller's id, or the one made up if the caller gave none, and the reply option when threaded; the read is of that message |
| `Messages.OneIdOneMessage` | internal/gchat/messages.go:219-269 | Over any sends, at most one message is stored under an id a caller gave, any send with it that returns no error has exactly that one, and if all carry it Google makes at most that one change, whatever ids were made up |
| `Messages.SendsNeverDouble` | internal/gchat/messages.go:237-269 | Over any number of sends, ids reused or not, no name is stored twice, every send without an error has exactly one message, there unless it was a tombstone from the start, and Google made as many changes as there are new messages |
| `Messages.ATombstonePassesForSent` | internal/gchat/messages.go:262-269 | A send without an error whose message is not there |
| `Conversations.SentAndDeleted` | internal/gchat/messages.go:237-320 | Over any run of sends and deletes, a send without an error has exactly one message, there to the end unless its name is a tombstone, and what was reported deleted no later send brings back |
| `Caution.CallRule` | internal/service/messages.go:885-898 | A failed call carries the caution exactly when how it ended leaves doubt: it never began or stopped before an attempt, other than given up or for want of a sign-in, or what happened to its last attempt left it open |
| `Caution.CautionFollowsTheEnding` | internal/service/messages.go:885-898 | The same for every failed send, whose failed call is the post or the read of what landed |
| `Caution.PostedInSilenceExactly` | internal/service/messages.go:635-644 | A fresh message is posted by a send that fails without saying so exactly when some attempt landed and the ending leaves no doubt |
| `Caution.PostedButReportedRefused` | internal/service/messages.go:635-644 | A run that posts the message and reports a plain refusal |
| `Caution.PostedButTheReadRefused` | internal/gchat/messages.go:262-269 | One that posts it and fails reading it back |
| `Caution.PostedButGivenUp` | internal/gchat/client.go:766-775 | One that posts it and is given up, in the wait after or in the limiter |
| `Caution.PostedButNoToken` | internal/gchat/client.go:756-759 | One that posts it and has no token for reading it back, cautioned unless it was given up or needs a sign-in |
| `Caution.RefreshesTellApart` | internal/auth/tokensource.go:34-43 | Of the token source's two failures, a refresh that failed is cautioned and a sign-in that is needed is not |
| `Deletes.NoErrorMeansGone` | internal/service/service.go:200-243 | A delete without an error leaves nothing there that its caller is shown, says it deleted only what was there, touches nothing else, and never takes a missing scope for gone |
| `Deletes.GoneWhileThereExactly` | internal/service/service.go:200-243 | Some run reports a target gone that is there exactly when the delete may be sent and is not shown it |
| `Deletes.ReadBackNeedsTheAccess` | internal/gchat/client.go:560-574 | Reading a target back never calls one that is there gone exactly when it is read with the access that shows it |
| `Deletes.RepeatedDeleteDoesNothing` | internal/service/service.go:200-220 | Repeating a successful delete changes nothing and does not report a deletion |
| `DeleteDecisions.EachRefusalHasItsEnd` | internal/service/service.go:200-220 | Which end a delete comes to and with what error, from how its call ended, and when it reads back |
| `DeleteDecisions.ARefusalIsLookedInto` | internal/service/service.go:186-243 | A plain refusal that can be read back is reported done exactly when nothing its caller is shown is there, and as Google's refusal otherwise; one not to be confirmed stands |
| `DeleteDecisions.AnAnsweredDeleteIsDone` | internal/service/service.go:200-210 | A delete that Google answers leaves nothing there, and says it deleted the target exactly when it was there, if the first attempt was answered |
| `Deletes.DeleteOnlyWhatWasSeen` | internal/service/messages.go:841-879 | A DELETE leaves only after a read whose text the witness matched, or of a thread's tombstone, never on a dry run; and no error means nothing is there that the caller is shown, or a dry run |
| `DeleteDecisions.EachReadHasItsEnd` | internal/service/messages.go:841-879 | When a delete goes on after its read, and which refusal it gives otherwise, each if and only if, in terms of the read and the words of the witness |
| `DeleteDecisions.ALiveMessageIsDeleted` | internal/service/messages.go:841-879 | When Google answers, a live message whose words the witness begins, by 20 characters or all, is gone afterwards and reported deleted; a reply, a stale or a short witness and a dry run leave it, each with its own answer |
| `DeleteDecisions.AGoneMessageIsReportedGone` | internal/service/messages.go:841-868 | One that is gone, was never there or is not shown is reported so, and no DELETE is sent |
| `DeleteDecisions.ARefusedMessageIsLookedInto` | internal/service/messages.go:862-879 | A refused delete of one message is read back; a thread's refusal stands |
| `DeleteDecisions.WhatADeleteSends` | internal/service/messages.go:841-879 | All it hands to the transport is reads and deletes of that message, each with its scope |
| `Deletes.ReadsOnlyRead` | internal/gchat/client.go:513-513 | A read of any outcome hands no DELETE to the transport |
| `Tools.HandlerTraffic` | internal/tools/register.go:220-253 | What holds of every request a handler could send holds of all its traffic, for handlers that pick each call from all earlier answers |
| `Tools.EachCallIsTheHandlers` | internal/tools/register.go:220-253 | Each call of a run was made as the handler asked, with the marks given and added, and answered to it, until it stopped |
| `Tools.WrapRunsTheHandler` | internal/tools/register.go:220-253 | What is not refused for want of confirm is the handler's own run, under the marks of the call and the tool |
| `Tools.DryRunWritesNothing` | internal/tools/register.go:220-253 | A dry run of any handler hands no write to the transport and leaves Google as it was |
| `Tools.AdminToolsActAsAdministrator` | internal/gchat/client.go:427-439 | Every Chat request of an admin tool carries useAdminAccess and the admin scope |
| `Tools.OnlyAdminToolsDo` | internal/tools/register.go:132-177 | No other tool's requests carry the privilege |
| `Tools.BoolField` | internal/tools/register.go:264-276 | Finds the first boolean input whose tag names it, with or without options, and none only if there is none |
| `Tools.Server.Add` | internal/tools/register.go:132-205 | A spec panics exactly when it is wrong, under every configuration; a right one is added exactly when its toolset, read-only and the destructive switch let it in, with the first inputs of the names and acting as an administrator exactly by its own; so every tool a server has takes confirm exactly when it is destructive |
| `Tools.DestructiveNeedsConfirm` | internal/tools/register.go:220-253 | Over any session with such tools, exactly the destructive calls that neither confirm nor are dry runs are refused, and those leave everything as it was; any write or change comes from a call that is no dry run and, if destructive, confirmed |
| `Tools.NoAdminFormStops` | internal/gchat/client.go:741-755 | Under admin access a Chat call ends at ErrNoAdminForm exactly when it has no admin form, and then nothing was sent |
| `Transfer.StepKeepsInv` | internal/gchat/media.go:89-239 | Every step of every party, in any order, keeps the account of what each timer was armed for |
| `Transfer.EveryCutWasEarned` | internal/gchat/media.go:89-239 | In every interleaving a guard made in less than the limit cancels only after one of its own Reads was outstanding for the limit, any other cancel of its is for its own making, and the deadline cancels only after one wait went that long unanswered |
| `Transfer.UnearnedExactly` | internal/gchat/media.go:210-214 | For either guard, and any time d its making takes, some run cancels with no Read outstanding if and only if d reaches the limit |
| `Transfer.WaitsAlwaysFit` | internal/gchat/media.go:110-174 | The deadline counts one wait from the start, past the making of the request's guard, to the first Read of the body, and later ones only from its end |
| `Transfer.TimelyIsNeverCut` | internal/gchat/media.go:89-239 | A transfer whose Reads and answer each come within the limit, the answer's guard made within it too, is never cut, whatever its length and however late callbacks run |
| `Transfer.TimelyCutExactly` | internal/gchat/media.go:165-214 | For any time d the answer's guard takes to make, some timely transfer is cut if and only if d reaches a limit above zero |
| `Transfer.AnsweredIsFinal` | internal/gchat/media.go:89-174 | Once the answer arrived the deadline cancels nothing, whether it had fired, fires later or is armed again |
| `Transfer.AStallIsCut` | internal/gchat/media.go:210-239 | Conversely, a Read or a wait that reaches the limit has its timer due, or already gone off for it |
| `TransferRuns.EveryCutHasACause` | internal/gchat/media.go:89-239 | Told by the steps alone: a timer cancels only if its clock had run for the limit since it was last set, not stopped, and for the deadline unanswered |
| `TransferRuns.WhatIsOverdueIsCut` | internal/gchat/media.go:89-239 | And wherever a clock has so run, that timer's own steps cancel the transfer before any more time passes |
| `TransferRuns.AnEndedBodyIsWaitedFor` | internal/gchat/media.go:216-230 | From the end of the request body until the caller stops it the deadline runs, since no earlier than that |
| `TransferRuns.AnUnansweredUploadIsCut` | internal/gchat/media.go:216-230 | So an upload not answered within the limit of its end is canceled |
| `TransferRuns.TheEndIsHandedBack` | internal/gchat/media.go:216-230 | The Read that ends the body hands back before any other Read, and no other does |
| `TransferRuns.AWholeTransferRuns` | internal/gchat/media.go:89-239 | A whole transfer can run, whatever time passes in and between its Reads |
| `TransferRuns.ARefusalMayComeEarly` | internal/gchat/media.go:89-239 | A run in which the deadline is set again after the answer and never stopped |
| `Transfer.BetweenReadsNothingWatches` | internal/gchat/media.go:216-230 | A run in which any time passes with no timer armed or pending |
| `Transfer.ARefusalIsReadUnwatched` | internal/gchat/media.go:89-174 | Another, after a refusal arrived |
| `Cache.DirectoryCache.Load` | internal/directory/cache.go:135-158 | Loads once, and only a readable file of this version |
| `Cache.DirectoryCache.Get` | internal/directory/cache.go:80-94 | Answers an id exactly when it was asked, is held and was fetched no longer ago than the time to live, with the person held |
| `Cache.DirectoryCache.PutAll` | internal/directory/cache.go:103-126 | Memory and file afterwards: unchanged answers keep their time, and the file is written only for a new resolved answer |
| `Cache.WhatAPutLeaves` | internal/directory/cache.go:103-198 | A put id by id: what memory and the file then hold, and when it saves |
| `Cache.DirectoryCache.Save` | internal/directory/cache.go:162-198 | Drops what expired from memory and writes exactly the live resolved answers |
| `CacheRuns.EveryRunKeepsInv` | internal/directory/cache.go:69-198 | Over every run of gets, puts, clock and restarts: each unexpired resolved answer in memory is in the file with its value and time, and the file never holds a miss |
| `CacheRuns.RestartLosesNothing` | internal/directory/cache.go:135-198 | A restart changes an id's answer if and only if it was remembered as unresolved, and then to nothing or to an address resolved before |
| `CacheRuns.AMissIsForgotten` | internal/directory/cache.go:103-126 | A run in which that happens |
| `CacheRuns.EveryAnswerIsRecent` | internal/directory/cache.go:80-94 | Every answer a Get gives in any run was asked for, and was put, or stood in the first file, within the time to live |
| `CacheRuns.WhatIsPutIsGot` | internal/directory/cache.go:80-126 | And what was put is answered for the time to live, across a restart too unless it is a miss |
| `Resolver.DirectoryResolver.Resolve` | internal/directory/resolver.go:43-101 | The answers, the requests made and the cache afterwards, as functions of what was known and replied |
| `Resolver.Lookup` | internal/directory/resolver.go:132-157 | One request a chunk, every failure absorbed, and which ids were answered |
| `Resolver.EchoNamesWhoWasAsked` | internal/directory/resolver.go:161-183 | A reply is filed under the id it was asked for and nobody else |
| `Resolver.ChunksPartition` | internal/directory/resolver.go:132-157 | The requests are as few as 200 a request allows, and together are the ids in order |
| `ResolverTheorems.EveryAnswerHasItsSource` | internal/directory/resolver.go:43-101 | Each users/ id is answered, from the cache if known there, else from the one request it was in, and is cached exactly when that request was answered |
| `ResolverTheorems.AFailureIsNeverCached` | internal/directory/resolver.go:80-101 | What the cache holds of an id whose request failed, it held before |
| `ResolverTheorems.WhatIsAnsweredIsCached` | internal/directory/resolver.go:86-101 | An answered id is cached as the person it was resolved to, in memory and, if resolved, in the file |
| `People.MergePeople` | internal/service/service.go:331-383 | Who each user is, who is looked up and what is remembered, from the rows and the lookup |
| `People.ChatsAddressWins` | internal/service/service.go:331-383 | An address Chat sent on any row wins for every row of that person, else the lookup's stands |
| `People.AnAddressedUserIs` | internal/service/service.go:331-383 | The address of the first row with one, under that row's name, else the lookup's, else the first row's that has one; and that is what is remembered |
| `People.AnyOtherUserIs` | internal/service/service.go:331-383 | Anybody else is who the lookup says, named by the first row with a name if it has none, and is not remembered |
| `People.NameMissingOnlyIfNobodyKnows` | internal/service/service.go:331-383 | A name is missing exactly when no row and no lookup gave one |
| `People.LookedUpExactly` | internal/service/service.go:331-383 | Exactly the users without a Chat address that came with a name are looked up |
| `Drift.FieldCache.JsonFields` | internal/gchat/drift.go:134-141 | The shared memo always answers what would be built |
| `Drift.FieldCache.BuildJsonFields` | internal/gchat/drift.go:145-175 | Builds the field map, embedded structs inlined, and keeps the memo right |
| `Drift.FieldsAreWhatIsDeclared` | internal/gchat/drift.go:145-175 | The map knows exactly the wire names the struct and those it embeds claim, each with the type of the last claim in order of declaration |
| `Drift.StructsModelWhatTheyDeclare` | internal/gchat/drift.go:145-175 | A struct models exactly the names its own fields are decoded under, by their tags or their own names, and those of the structs it embeds |
| `Drift.FieldsFollowJsonExactly` | internal/gchat/drift.go:132-175 | The walk takes the field encoding/json decodes into exactly when no other claim of the name is as shallow, unless the last one's tag sets it apart |
| `Drift.AnEmbeddedFieldWins` | internal/gchat/drift.go:145-175 | Two structs for which they differ |
| `DriftTheorems.TheWalkIsExact` | internal/gchat/drift.go:75-126 | For every type, recursive ones included, and every value, exactly the unmodelled keys are reported, each under its dotted name |
| `DriftOrder.EachPlaceOnce` | internal/gchat/drift.go:75-126 | No place is reported twice |
| `DriftOrder.ObjectsReportInOrder` | internal/gchat/drift.go:84-102 | An object's reports come in key order, whatever order the map was ranged in |
| `DriftOrder.PrunedReportsNothing` | internal/gchat/drift.go:75-126 | Taking the unmodelled keys out leaves a value that reports nothing, and only a value without any reports nothing |
| `DriftOrder.DriftReporter.Report` | internal/gchat/client.go:977-985 | Counts every report, keeps and logs each path once |
| `DriftOrder.DriftReporter.ReportAll` | internal/gchat/client.go:977-985 | Over a run the counter is the number of reports, the paths are their set and the log has each once |
| `DriftOrder.DriftReporter.DriftPaths` | internal/gchat/client.go:295-305 | The paths seen, each once and sorted |
| `Paths.EscapeName` | internal/gchat/client.go:484-497 | The scanning loop is the join of the escaped segments |
| `Paths.SegmentRoundTrip` | internal/gchat/client.go:500-502 | Unescaping an escaped segment gives it back, and it holds no colon or slash |
| `Paths.NameRoundTrip` | internal/gchat/client.go:484-502 | The escaped name's segments are the name's, escaped, and it holds no colon |
| `Paths.EscapedNameIsInjective` | internal/gchat/client.go:484-502 | Two names escape alike only if they are one |
| `Paths.PlainNamesStay` | internal/gchat/client.go:484-502 | A name of unreserved characters goes out as it is |
| `Paths.PathsAddressWhatWasAsked` | internal/gchat/client.go:450-468 | For fixed literals the path determines the name, and no name can change the custom method addressed |
| `Redact.MatchIsTheBest` | internal/redact/redact.go:18-18 | The scanner finds a match exactly where the pattern has one, and the one leftmost-greedy matching prefers |
| `Redact.ThePatternsClasses` | internal/redact/redact.go:18-18 | The characters of the pattern's classes, the mask among a local part's |
| `Redact.PiecesShow` | internal/redact/redact.go:26-44 | The text is its addresses and the characters between; the redacted text is the same with each local part masked and each domain kept |
| `Redact.SamePiecesMasked` | internal/redact/redact.go:12-44 | Read again, the redacted text has the same addresses, masked, and no others |
| `Redact.Idempotent` | internal/redact/redact.go:44-44 | Redacting twice is redacting once, for every text |
| `Witness.WordsForgetOnlyWhitespace` | internal/service/service.go:260-260 | Two texts fold alike exactly when their words agree, and folding twice is folding once |
| `Witness.FieldsKeepTheText` | internal/service/service.go:260-260 | No character but whitespace is lost or moved |
| `Witness.WordsOfPrefix` | internal/service/service.go:260-260 | The words of a text's beginning begin the words of the text |
| `Witness.CheckTextAccepts` | internal/service/service.go:265-280 | Accepts exactly the beginnings that reach 20 characters or the whole text |
| `Witness.ACutWitnessIsNeverStale` | internal/service/service.go:265-280 | A witness cut from the start and respaced is never called stale |
| `Witness.CheckNameAccepts` | internal/service/service.go:285-295 | A name is accepted exactly when its words are the given ones up to case |
| `FileNames.SafeNameIsSafe` | internal/service/localfiles.go:140-167 | Every name made is non-empty, at most 80 characters, without separators, control characters or odd spaces, and begins with no dot and ends with no dot or space |
| `FileNames.MappedCharByChar` | internal/service/localfiles.go:140-153 | Separators become dashes, control characters go, other whitespace becomes a space, and all else stays |
| `FileNames.OnlyTheEndsAreCut` | internal/service/localfiles.go:154-165 | Of the name's words only leading dots, trailing dots and spaces, and what is past the 80th character are lost |
| `FileNames.FixedExactly` | internal/service/localfiles.go:140-167 | It leaves exactly the safe names that do not begin with a space as they are |
| `FileNames.TwiceExactly` | internal/service/localfiles.go:152-163 | Making a safe name safe changes it exactly for the names whose words begin with dots and a space and go on, within eighty characters, to something else |
| `FileNames.ADotAndASpace` | internal/service/localfiles.go:152-163 | A name for which it does |
| `Files.Directory.Create` | internal/service/localfiles.go:104-121 | The file made is the first candidate not there when tried, whatever others add or remove meanwhile; at most a hundred are tried; no other file is touched |
| `Files.CandidatesAreDistinct` | internal/service/localfiles.go:104-121 | No candidate is tried twice |
| `Files.ACandidateKeepsItsExtension` | internal/service/localfiles.go:104-121 | The number goes in front of what follows the last dot |
| `Files.DecimalIsTheNumber` | internal/service/localfiles.go:104-121 | And is the number of the try, in decimal |
| `Files.CandidatesStayInside` | internal/service/localfiles.go:104-121 | Every candidate is one component, so a file right inside the directory |
| `Files.AddedOnly` | internal/service/localfiles.go:104-121 | While others only add, what was there stays, so a free name was nobody's |
| `Files.AllTakenMeansAHundred` | internal/service/localfiles.go:94-121 | Giving up means that many different names were taken |
| `Paging.ReadIsThePagesRows` | internal/service/search.go:263-298 | Following the tokens reads the rows in order, empty pages included, and all of them once a page carries no token |
| `Search.MatchingIsExact` | internal/service/search.go:267-283 | The matches are the named messages the pattern finds, each once, in order, with where |
| `Search.NamelessAreCounted` | internal/service/search.go:267-283 | The unparsed are the messages without a name, each once |
| `Search.ScanPage` | internal/service/search.go:267-292 | One page adds exactly what its messages hold, up to the limit |
| `Search.ScanPages` | internal/service/search.go:252-299 | Matches, scanned and unparsed are exact for what was read, at most max_pages calls are made, it stops early only when full or out of pages, and without the cap flag every page was read to its end |
| `Search.ScanSpace` | internal/service/search.go:210-299 | The same under the limits that apply; a limit too large is refused before anything is read |
| `Search.ScanOfHistory` | internal/service/search.go:252-299 | Over any paging of a history the matches begin its matches, and without the cap flag are all of them |
| `Sorting.SortCompactEqualIsSetEquality` | internal/service/spacecheck.go:140-142 | Sorting, dropping repeats and comparing decides equality of the sets |
| `Sorting.TheFirstDifferenceDecides` | internal/gchat/drift.go:96-96 | The order sorted by: the first difference decides, and what ends comes first |
| `SpaceCheck.AddPage` | internal/service/spacecheck.go:121-129 | One page's rows added to the others' addresses and the caller's own |
| `SpaceCheck.CheckMembers` | internal/service/spacecheck.go:108-148 | Accepts exactly when the given addresses, less blanks and the caller's own, are the other people's of the rows read, which are all of them unless ten pages did not suffice |
| `SpaceCheck.DecidesTheConversation` | internal/service/spacecheck.go:108-133 | A listing that ends is decided as the whole conversation |
| `SpaceCheck.PagesDecideExactly` | internal/service/spacecheck.go:108-148 | Every wording is decided on the pages read as on all members if and only if they have the same other addresses and the same own one as far as a wording can give it, or no wording is accepted for either |
| `SpaceCheck.AnOwnAddressUnread` | internal/service/spacecheck.go:121-139 | A caller whose row was not read is refused for giving their own address |
| `SpaceCheck.NameableExactly` | internal/service/spacecheck.go:108-148 | Some wording is accepted exactly when every other person's address is known, can be given in a wording and is not the caller's |
| `SpaceCheck.TenPagesAreNotEverybody` | internal/service/spacecheck.go:116-133 | A longer listing and a witness accepted though somebody is not named |
| `SpaceCheck.AnUnknownAddressRefuses` | internal/service/spacecheck.go:108-148 | A person without a known address makes every witness refused |
| `SpaceCheck.EverybodyIsNamed` | internal/service/spacecheck.go:108-148 | An accepted witness names each other person |
| `SpaceCheck.OnlySpacesAreTrimmed` | internal/service/spacecheck.go:135-139 | Whitespace around an address is left out, and nothing else of it |
| `SpaceCheck.AWrittenWitnessIsAccepted` | internal/service/spacecheck.go:62-69 | The other people's addresses written with commas, in any order and case, are accepted |
| `Sections.SectionOfItemExactly` | internal/service/service.go:493-498 | The section is read out of an item's name exactly when no id in front is "items" |
| `Sections.SameSectionExactly` | internal/service/sections.go:545-552 | Two names mean one section exactly when the ids agree and the users do, "me" standing for any but one called "sections" |
| `Sections.SettledExactly` | internal/service/sections.go:545-552 | A target counts as where an item is exactly when the item's name says so, with the misreadings spelled out |
| `Sections.ItemsNeverSettles` | internal/service/sections.go:445-472 | An item in a section called items never counts as being there, so each call writes again |
| `Sections.MadeUpName` | internal/service/sections.go:523-532 | The name made up after a move without a name is the item's new one |
| `Sections.TheNameUsed` | internal/service/sections.go:445-520 | The caller's name if there is one, else the first row's if it is of this space and names a section, and not found without a row |
| `Sections.MoveSpaceToSection` | internal/service/sections.go:429-489 | When it succeeds, with which error it fails and when a write is sent, each exactly; where the space was; and without an error the item is then under the target, by Google's name if it gave one, and where the target's and its own names can be read, moving it again by the name given back sends nothing |
| `Sections.TheEntryMovedIsTheSpaces` | internal/service/sections.go:492-516 | Under a truthful listing the entry moved is the space's own |

## Left out

- HTTP, TLS, JSON decoding, OAuth, the keyring and real disk calls: parameters of the model, with the assumptions above.
- The rate limiter and the random jitter: library code; only the bound on each wait is kept.
- RetryAfter.HintSurvivesExactly: a number of seconds is a real number, so what float64 rounds away is not modelled, and neither is how the header's text is parsed.
- Redirects and the allowed-host check: a request that is not let out is one of the adversary's moves.
- Byte-level text: strings are sequences of characters, so invalid UTF-8 is not modelled; paths are bytes.
- Go's map iteration order: `Load`, `PutAll`, `Save` and the overlay of `MergePeople` pick keys in any order.
- Locks: the cache, the resolver and the field map are used by one call at a time; `Transfer` models its mutex as an atomic step.
- Transfer: modelled on values and steps, not as objects with methods, because its parties run at once. The bytes moved are not modelled, and neither is a cancel from outside the transfer.
- Files.Directory.Create: the directory holds names only; contents, permissions and symbolic links are not modelled.
- Deletes.DeleteOnlyWhatWasSeen: deleting a thread's first message is modelled as removing that message; what Google does to the replies is not.
- Deletes: the shape check on a message name, and the display-name check of other deletes.
- Sections.MoveSpaceToSection: the outcome of the space check is an input, and the dry-run preview body is not modelled.
- Errors.ParseApiError: `http.StatusText` is a table of the statuses a decision depends on; case folding is exact against ASCII constants only.
- SpaceCheck.CheckMembers: the caller's own id is an input, the sort and compaction are functions on values, and the text of the refusal is not modelled. A direct message's check is one lookup and is not modelled.
- Witness.CheckNameAccepts: Unicode's folding table is a parameter that never folds whitespace with anything else.
- Redact: the one address pattern is modelled as a scanner; other patterns, and the search pattern, are not (a search pattern is any function).
- Drift.FieldsFollowJsonExactly: encoding/json's check that a tag's name is valid, and its dropping of fields it cannot reach through an unexported pointer, are not modelled.
- DriftTheorems.TheWalkIsExact: struct types embed one another in a well-founded order, without which the Go walk would not end either.
- Resolver.DirectoryResolver.Resolve: replies answer only about the people asked in `EveryAnswerHasItsSource`; without that a later reply could overwrite an earlier one.
- Google's own search, the filter grammar, snippets, read states, cards, reactions, members, events, emoji and the command line: data shaping or plumbing.
- Tool tables, annotations and scopes: finite, so listing them settles them.
