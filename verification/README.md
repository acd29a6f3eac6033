# A verified model of the AXIAM Rust SDK's stateful core

The parts of the SDK whose correctness spans several calls, modelled in Dafny and proved:
the Security Event Token (SET) receiver and the whole RFC 8936 exchange around it, the
AMQP consumer's replay gates, the decision memo, the retry runner, webhook verification,
the management generator's schema closure and argument lists, and the UMA challenge.

`dafny verify dfyconfig.toml` checks everything.

## How the model is laid out

| file | models |
|---|---|
| `Ssf.dfy`, `SsfPollLaws.dfy`, `SsfRunLaws.dfy` | steps 1-9 and the two-phase `poll` on values, and what every poll and every run of calls keeps |
| `SsfReceiver.dfy` | the replay store, the receiver and key discovery as classes, proved against `Ssf` |
| `SsfProtocol.dfy` | transmitter, receiver and rule-following caller as a step system with faults |
| `AmqpWire.dfy`, `Consumer.dfy`, `AuditMessage.dfy` | the signed body, the consumer's gates, and the producer's `sign` |
| `Memo.dfy`, `MemoCap.dfy` | the two tables of the decision memo against a log, atomically and with `clear` split, and exactly when the cap then holds |
| `Retry.dfy`, `RetryLaws.dfy` | the retry loop against a recursive specification, and its laws |
| `Webhook.dfy` | header parser, candidate fold, `i64` window |
| `Closure.dfy`, `Arguments.dfy` | the generator's worklist, and its emitters of argument lists |
| `Uma.dfy` | challenge printer and parser |
| `ExpiryLog.dfy`, `Text.dfy`, `Decimal.dfy`, `Hex.dfy`, `Outcomes.dfy` | shared: a table that forgets and the log it answers for; splitting and trimming; decimal and hex (section 8 of RFC 4648) text |

Code that changes state in place is a class or a method with a loop, and its `ensures`
equates the new state with a specification function of the old one; the properties are
then lemmas about those functions, over every input and every run.

## What is assumed

- HMAC, the compact JSON printer and the RFC 3339 parser are arbitrary functions, passed
  as parameters. A SET's key lookup is an arbitrary answer chosen per SET: fetch failed,
  no key, unusable key, or a signature that does or does not verify.
- Clocks do not run backwards, except in the memo, whose readings are arbitrary. A
  delivery of the AMQP consumer reads one clock. The retry runner's time is real-valued
  milliseconds, a sleep of `d` moves the clock by `d`, and jitter is any real number.
- A `jti` names one SET for ever (section 2.2 of RFC 8417), the keys of a reply's `sets`
  map are distinct, and the replay store is atomic, as its trait demands. The store may
  fail at any call.
- The protocol's caller follows the documented rules (`src/ssf.rs:610-617`): acknowledge
  what was returned and what was refused as `Replayed`, report what was refused for any
  other reason. Requests, replies, key fetches and store calls may fail at any point, and
  SETs may be pushed as well as polled.

## Where the code and what is promised of it part

Each of these is a lemma with the exact condition under which the promise holds.

- AMQP nonces (`src/amqp/consumer.rs:97-102`): the module says a replay can never get
  through after its entry was pruned. Freshness is closed and retention is open, so a body
  with `issued_at` exactly `t1 + skew` is fresh at the instant `t1 + 2*skew` at which its
  nonce is forgotten. `Consumer.SecondDispatchIff`: a second dispatch of a message is
  possible, with its signature spelt or placed in any way, if and only if `issued_at` is
  that edge. `AuditMessage.EdgeMessageIsDispatchedTwice` is such a delivery.
- Memo capacity (`src/memo.rs:206-213`): `clear` empties the map and the queue under
  separate locks. Decisions put between the two halves are never queued for eviction, so
  the cap of 1024 can be passed. Call it safe in a state if no puts, and no clears whose
  second half finds nothing, can pass it from there. `MemoCap.CappedIffCovered`: it is
  safe if and only if every remembered key is queued; `MemoCap.CapIsSafeIff`: after any
  interleaving, if and only if no second half has found decisions since the last first
  half; `MemoCap.CapacityIffHalvesMeet`: throughout, if and only if every second half
  found an empty map. With `n` such second halves it is passed by at most `1024 * n`
  (`MemoCap.OverflowIsBounded`), and that many are reached (`MemoCap.OverflowIsReached`).
  `MemoCap.CapacityLeaks` is a run of one clear that ends with 1025 entries.
- Webhook window (`src/webhook.rs:380-388`): the saturating subtraction is the true
  distance for every clock and timestamp if and only if the tolerance is below 2^63-1
  seconds or is 2^64-1. `Webhook.WindowIsExactIff`.
- Failed discovery (`src/ssf.rs:407-410`): the once-a-minute limit is set by a failed
  fetch of the configuration document, and not by a fetched document whose `jwks_uri` is
  then refused as insecure; the next SET fetches again. `SsfReceiver.LimitedIffFailed`.
- Auto-paging (`tools/gen_management.py:1495-1514`): the companion forwards its leading
  arguments and then the page. That is the method's parameter order if and only if the
  operation takes no body. No paginated operation in the registry has one.
  `Arguments.ForwardingMatchesIff`.

## Model

| member | source | states |
|---|---|---|
| SsfProtocol.NoSetIsLost | src/ssf.rs:607-637 | in every run of transmitter, receiver and rule-following caller, with faults anywhere, a SET leaves the transmitter's buffer only after its jti was returned as accepted or that very SET was refused for a reason other than `Replayed` |
| SsfProtocol.UnsettledSetsStay | src/ssf.rs:619-633 | a SET neither returned nor refused (other than as replayed) is still in the buffer, unchanged, however many polls failed over it or left it unjudged |
| SsfProtocol.FaultFreeReplySettles | src/ssf.rs:610-617 | after a reply received with no key-fetch and no store failure while it is judged, whatever fails later, the caller may acknowledge or report every SET in it |
| SsfProtocol.FaultFreeRoundDischarges | src/ssf.rs:607-637 | from any state of a run, a request whose reply offers a SET, that reply received without a fault, and one more request leave the buffer without the SET |
| SsfProtocol.EverySetCanLeave | src/ssf.rs:607-637 | in every run, each buffered SET is those three steps from leaving once one key fetch and one store call succeed |
| SsfProtocol.ReturnsAreApart | src/ssf.rs:607-633 | in every run, two returns of one jti to the caller, by poll or push, were accepted at least the replay window apart |
| SsfProtocol.RunKeepsInStep | src/ssf.rs:494-505 | in every run what the caller was given is what the store accepted, in order |
| SsfProtocol.StepKeepsInv | src/ssf.rs:607-771 | every step of the exchange keeps the invariant: every departure and every replayed refusal has its cause earlier in the history, every logged jti was returned, every issued SET is buffered or noted as gone |
| SsfProtocol.RunKeepsInv | src/ssf.rs:607-771 | every run keeps that invariant |
| SsfProtocol.DischargeNotes | src/ssf.rs:610-617 | a request removes exactly the named SETs from the buffer, and notes each one that was there |
| SsfPollLaws.PollIsAllOrNothing | src/ssf.rs:715-755 | an error leaves the store as it was; a result grew its log by exactly `events`, in order; the store was asked for the verified SETs in order up to and including its first failure and never again |
| SsfPollLaws.LiveAfterPoll | src/ssf.rs:732-755 | while the batch's records live, the held jtis are the old ones plus exactly those in `events` |
| SsfPollLaws.PollConserves | src/ssf.rs:715-770 | `events`, `refused` and `unjudged` are subsequences of the reply's keys, together as many as the keys, and hold every key; `moreAvailable` is passed on |
| SsfPollLaws.PollPlaces | src/ssf.rs:732-755 | which list each key is in, if and only if: refused for its own reason when it fails steps 1-8, unjudged from the store's first failure on, `Replayed` when held, otherwise an event |
| SsfPollLaws.FatesAreExpected | src/ssf.rs:732-755 | a SET's fate depends only on its verdict, on whether the store has failed by its turn, and on whether its jti was held before the batch |
| SsfPollLaws.SettleGrowsByEvents | src/ssf.rs:732-755 | step 9 over a batch appends one record per event, in order, and nothing else |
| SsfPollLaws.SettleAsksUntilOutage | src/ssf.rs:735-741 | the store is asked for the verified SETs up to the first failure and no further |
| SsfPollLaws.JudgeAllIsAllOrNothing | src/ssf.rs:715-731 | phase one succeeds if and only if no SET's failure is a non-verdict; otherwise it fails with the first such error in map order |
| SsfPollLaws.RefusedKeysWereOffered | src/ssf.rs:743-754 | nothing is refused under a key the reply did not use |
| SsfPollLaws.EventsAreOffered | src/ssf.rs:508-605 | every event of a poll is that of one SET of the reply under its own key, member for member: one of the two types in any case, EdDSA with a kid, signature verified, one event, from the configured issuer, and with this receiver's name as its audience or among its audiences |
| SsfPollLaws.AcceptedIsEventOf | src/ssf.rs:508-605 | the same of every SET that passes steps 1-8, polled or given to `verify_set` |
| SsfRunLaws.RunKeepsSound | src/ssf.rs:494-505 | every sequence of `verify_set` and `poll` calls keeps acceptances of one jti from overlapping, each lasting the window |
| SsfRunLaws.NoDoubleAcceptance | src/ssf.rs:141-153 | over any such sequence, two calls that both return one jti as accepted did so at instants at least the replay window apart, which for a constructed receiver is at least seven days |
| SsfRunLaws.ReturnsAtSomeInstant | src/ssf.rs:488-505 | every jti a call returns has such an instant, when the store was asked for it |
| SsfRunLaws.ReturnIsRecorded | src/ssf.rs:494-505 | what a call returns, by `verify_set` or `poll`, was not held at its instant and is on record for the window from then on |
| Ssf.JudgeStopsAtTheFirstFailure | src/ssf.rs:508-605 | each of steps 1-8 is passed if and only if those before it were and its own test holds, said of the header and the claims: the two types in any case, the audience alone or among others; a failed key fetch is the only non-verdict; acceptance is passing all |
| Ssf.StoreFailure | src/ssf.rs:333-341 | an error of this SDK passes through unless it is a refusal; whatever else the store raised becomes a transport failure, and nothing carries a reason code |
| SsfReceiver.ReplayStore.CheckAndRecord | src/ssf.rs:140-153 | the pruned table answers exactly as the unpruned log of all acceptances, and an outage records nothing |
| SsfReceiver.SsfReceiver.New | src/ssf.rs:358-387 | a receiver is built if and only if the window is at least seven days and issuer and audience are not empty |
| SsfReceiver.SsfReceiver.Record | src/ssf.rs:494-505 | step 9: the event, `Replayed`, or a failure that carries no reason code |
| SsfReceiver.SsfReceiver.VerifySet | src/ssf.rs:488-491 | result and store are those of judging, by the steps above, and then recording, with nothing recorded for a refused SET |
| SsfReceiver.SsfReceiver.JudgeBatch | src/ssf.rs:715-731 | the phase-one loop computes the recursive specification and stops at the first non-verdict |
| SsfReceiver.SsfReceiver.Settle | src/ssf.rs:736-754 | one turn of the phase-two loop: skip a verified SET once the store is down, otherwise record it |
| SsfReceiver.SsfReceiver.SettleBatch | src/ssf.rs:732-755 | the phase-two loop yields the three lists and the store of the specification |
| SsfReceiver.SsfReceiver.Poll | src/ssf.rs:638-771 | `poll` on a given reply refines the specification the laws above are about; the telemetry alarm is raised exactly when SETs are left unjudged, with their number |
| SsfReceiver.KeyDiscovery.Verifier | src/ssf.rs:389-428 | when a discovery fetch is made, what it leaves behind, and that its failures are never a verdict |
| SsfReceiver.FailedFetchesAreSpaced | src/ssf.rs:407-428 | in any run of calls no fetch starts within a minute of the end of a failed one |
| SsfReceiver.LimitHolds | src/ssf.rs:407-428 | until that minute is over the failure stays on record, whatever calls come between |
| SsfReceiver.LimitedIffFailed | src/ssf.rs:389-428 | after a failed discovery the next SET fetches again if and only if only the `jwks_uri` was refused or a minute has passed since the fetch failed |
| Consumer.NonceWindow | src/amqp/consumer.rs:129-157 | in any run a nonce dispatched at t1 is not dispatched again before t1 + 2*skew |
| Consumer.NeverDispatchedTwice | src/amqp/consumer.rs:92-105 | a message with `issued_at` before t1 + skew is never dispatched a second time, even after its entry was pruned, and however the redelivery spells, places or repeats its signature |
| Consumer.NonceNeverDispatchedTwice | src/amqp/consumer.rs:92-105 | nor is any other message with its nonce and with its own `issued_at` before t1 + skew |
| Consumer.SecondDispatchIff | src/amqp/consumer.rs:92-139 | after a dispatch, some redelivery of the same unsigned body is dispatched again if and only if its `issued_at` is exactly t1 + skew; then the delivery itself is, at t1 + 2*skew |
| Consumer.RecordHolds | src/amqp/consumer.rs:144-157 | two dispatches of one nonce are at least the nonce TTL apart |
| Consumer.RejectionsSpendNothing | src/amqp/consumer.rs:169-186 | after any run of rejected deliveries, forged ones among them, the next fares as if it had come alone |
| Consumer.ReplayGuard.CheckAndRecordNonce | src/amqp/consumer.rs:144-157 | the self-pruning table answers as the unpruned log of accepted nonces |
| Consumer.ValidateReplayProtection | src/amqp/consumer.rs:169-186 | the gates in their order with their reasons, the nonce recorded only behind all of them |
| Consumer.VerifyAndDispatch | src/amqp/consumer.rs:236-340 | the delivery's actions and the nonce log are those of the specification the lemmas are about; it adds exactly one ack or nack, never a requeue, acked exactly when the handler ran, and after it |
| AmqpWire.AuthenticIff | src/amqp/consumer.rs:282-306 | a body verifies if and only if its last `hmac_signature` is the hex MAC, in either case, of the compact bytes of the same text with that member deleted |
| AmqpWire.RemoveFromCollected | src/amqp/consumer.rs:286-287 | removing a field from the parsed, order-preserving object equals parsing the text without that member, repeated keys included |
| AmqpWire.SignedDeliveryVerifies | src/amqp/consumer.rs:257-306 | sign any object without the field and insert the signature at any position: the delivery verifies and the handler gets the signed object |
| AmqpWire.VerifiesIffSigned | src/amqp/hmac.rs:26-43 | `verify_payload` accepts exactly the text `sign_payload` gives, up to hex case |
| AuditMessage.AuditEvent.Sign | src/amqp/messages.rs:169-176 | a reserved action is refused with the message untouched; otherwise the signature covers the message without one |
| AuditMessage.ReservedIff | src/amqp/messages.rs:34-44 | an action is reserved if and only if its lowercase form begins with `tenants.` or `gdpr.` |
| AuditMessage.SignedMessageVerifies | src/amqp/messages.rs:99-176 | the wire form of every signed message verifies, and its canonical form is the message without the signature |
| AuditMessage.SignedMessageIsDispatchedIff | src/amqp/messages.rs:99-176 | from producer to handler: a signed message is dispatched, unsigned, if and only if its key version is at least 2, the clock is within the skew of its issue time on either side, and its nonce is unseen |
| AuditMessage.EveryFieldIsOnTheWire | src/amqp/messages.rs:99-139 | every field is on the wire under its name, an absent option not at all |
| AuditMessage.WireKeepsTheOrder | src/amqp/messages.rs:99-139 | in the declared order |
| AuditMessage.EdgeMessageIsDispatchedTwice | src/amqp/consumer.rs:129-157 | a signed message issued exactly the skew ahead of the consumer's clock is dispatched on its first delivery and again twice the skew later |
| AuditMessage.FieldsReadBack | src/amqp/consumer.rs:78-90 | the consumer reads back the key version, nonce and issue time the producer wrote |
| Consumer.FieldsIff | src/amqp/consumer.rs:78-90 | the replay fields are those three members of an object, of the right types and ranges, and there are none without all three |
| Memo.RunIsCoupled | src/memo.rs:173-213 | after any puts and clears the queue is the last (at most 1024) insertions of absent keys in order, without duplicates, and the map holds exactly those keys with their latest puts |
| Memo.Capacity | src/memo.rs:173-199 | never more than 1024 entries, queue and map hold the same keys, none queued twice |
| Memo.ReputKeepsOrder | src/memo.rs:183-194 | putting a live key again neither grows nor reorders the queue |
| Memo.HitIsTheLatestPut | src/memo.rs:151-164 | a hit is the whole decision of the latest put for that exact five-part key since the last clear, read before that put's instant plus the TTL, itself at most 5 s |
| Memo.LatestPutIsLast | src/memo.rs:173-213 | the log's latest put, said by position: nothing after it cleared or put the key again |
| Memo.ExactWhileSmall | src/memo.rs:151-199 | while at most 1024 distinct keys were put since the last clear, hits and misses are those of the unbounded log: a hit if and only if there is a latest put and the TTL has not passed since, and then its decision |
| Memo.KeysArePut | src/memo.rs:173-213 | the keys counted there are those of the puts with no clear after them |
| Memo.EntryProvenance | src/memo.rs:173-213 | with `clear` as two halves interleaved with puts, an entry is what the last put of its key stored, after the last first half |
| Memo.HitSurvivesNoClear | src/memo.rs:151-213 | under that interleaving no decision put before a first half is returned after it, and a hit is read before its put's instant plus the TTL |
| Memo.MoveKeepsCoveredIff | src/memo.rs:206-213 | a step keeps every entry evictable if and only if it is not a second half that finds entries |
| MemoCap.CappedIffCovered | src/memo.rs:173-213 | no puts, and no clears whose second half finds an empty map, interleaved in any way, hold more than 1024 entries from a state on, if and only if every remembered key is queued in that state |
| MemoCap.MoveKeepsCappedIff | src/memo.rs:206-213 | the one step after which a cap safe in that sense is no longer so is a second half that finds decisions |
| MemoCap.CapIsSafeIff | src/memo.rs:173-213 | after any interleaving of puts and halves the cap is safe, against puts and clears whose second half finds nothing, if and only if no second half has found decisions since the last first half |
| MemoCap.CapacityIffHalvesMeet | src/memo.rs:173-213 | the cap is safe, in that sense, at every point of an interleaving if and only if every second half in it found an empty map; the run then holds at most 1024 entries |
| MemoCap.OverflowIsBounded | src/memo.rs:173-213 | any interleaving holds at most 1024 * (1 + n) entries, n the second halves that found decisions since the last first half |
| MemoCap.OverflowIsReached | src/memo.rs:173-213 | for every n, clears begun together and puts reach exactly that many |
| MemoCap.CapacityLeaks | src/memo.rs:206-213 | a run with puts between the halves of one clear ends with 1025 entries |
| Memo.DecisionMemo.constructor | src/memo.rs:129-135 | an empty memo with the TTL clamped to 5 s |
| Memo.DecisionMemo.GetAt | src/memo.rs:151-164 | a hit if and only if the memo is enabled, the key is present and the clock is before the entry's instant plus the TTL, and then the entry's decision |
| Memo.DecisionMemo.PutAt | src/memo.rs:173-199 | the in-place insert, queue and eviction loop give the specified tables; a disabled memo is left alone |
| Memo.DecisionMemo.Clear | src/memo.rs:206-213 | both tables emptied |
| Memo.DecisionMemo.ClearEntries | src/memo.rs:207-209 | the first locked section empties the map and leaves the queue |
| Memo.DecisionMemo.ClearOrder | src/memo.rs:210-212 | the second locked section empties the queue and leaves the map |
| Retry.RunUntil | src/retry.rs:234-296 | the loop's result, clock and whole trace of attempts, Retry events and sleeps are those of the recursive specification |
| Retry.Turnover | src/retry.rs:249-293 | one turn of the loop does what one turn of the specification does |
| RetryLaws.RunIsBounded | src/retry.rs:234-296 | for every attempt cap a u32 holds, attempts are consecutive, each but the last a transport failure; the finish is the last attempt's; the run stops short of the cap only on a value, a failure that is no transport failure, or the deadline |
| RetryLaws.AtMostThreeAttempts | src/retry.rs:243-245 | at most three attempts, one when disabled; fewer only after a value, a failure that is no transport failure, or at the deadline |
| RetryLaws.EveryOutcomeLeadsOn | src/retry.rs:249-293 | in every run, after each transport failure with attempts left the next attempt starts exactly when the delay drawn is over, if that is strictly before any deadline, and otherwise the run ends at the deadline with that failure and its hint |
| RetryLaws.EveryWaitIsAnnounced | src/retry.rs:270-283 | each wait directly follows one Retry event with the same delay, and each event announcing a wait is followed by it |
| RetryLaws.NothingFollowsTheLastAttempt | src/retry.rs:246-293 | each Retry event directly follows the attempt whose number it carries, and a run's last event is an attempt if and only if it did not end at the deadline: no event and no wait after a value, a decisive failure or the last failure |
| RetryLaws.RetriesBeatTheDeadline | src/retry.rs:262-290 | under a deadline every attempt after the first starts strictly before it |
| RetryLaws.DeadlineIsExact | src/retry.rs:262-290 | a run ended at the deadline ends exactly there, or without waiting when its last failure was already later |
| RetryLaws.TotalWaitIsBounded | src/retry.rs:89-114 | all waits of a run add up to at most 600 ms plus the hints of its first two attempts |
| RetryLaws.WaitWithinBudget | src/retry.rs:89-114 | the waits from any attempt on are within the backoffs and hints of the attempts that may be followed by another |
| RetryLaws.HintIsAFloor | src/retry.rs:96-114 | without a deadline no wait is shorter than its `Retry-After` |
| Retry.BackoffIsExponential | src/retry.rs:85-94 | the saturating backoff equals min(5000, 200 * 2^(n-1)) ms for every u32 n from 1 |
| Retry.BackoffIsMonotone | src/retry.rs:85-94 | and never decreases |
| Retry.DelayFor | src/retry.rs:102-114 | a delay is at least its hint and at most the backoff plus the hint |
| Retry.JitterIsFull | src/retry.rs:102-114 | the fraction, kept within 0 and 1, spreads the delay over the whole of min(5000, 200 * 2^(n-1)) ms; a hint replaces it or leaves it |
| Webhook.VerifiesIffVouched | src/webhook.rs:277-396 | success if and only if, of the header's text: every segment is blank or has an `=`, exactly one has the key `t`, its value reads as an i64, any separate timestamp reads as the same one, some `v1` value is the hex in either case of the MAC of that `t` as written, a dot and the body, and the window holds |
| Webhook.VerifiesIffGenuine | src/webhook.rs:277-396 | the same of the fields the header was parsed into |
| Webhook.SignedBytes | src/webhook.rs:352-357 | the MAC covers `t` character by character, a dot, and the body |
| Text.BlanksAreWhiteSpace | src/webhook.rs:287-293 | what is trimmed is the 25 Unicode White_Space characters |
| Text.OnlyCapitalsFold | src/amqp/messages.rs:34-44 | ignoring ASCII case folds the 26 capitals and nothing else |
| Hex.DigitsAreTheSixteen | src/amqp/hmac.rs:31-31 | the digits printed are 0 to 9 and a to f |
| Decimal.DigitsAreTheTen | src/webhook.rs:329-331 | the digits read are 0 to 9 |
| Decimal.NumeralIsPositional | src/webhook.rs:329-331 | each counts by its place |
| Decimal.ParsesIff | src/webhook.rs:328-345 | a text reads as an i64 if and only if it is an optional sign and a decimal numeral in range |
| Webhook.BuiltHeaderVerifies | src/webhook.rs:286-396 | any header with one `t` and a correct `v1` for it verifies when fresh, with any unknown keys, padding and further `v1` values in any order |
| Webhook.ServerDeliveryVerifies | src/webhook.rs:277-396 | what a server sends for a timestamp and body verifies in every window that covers it |
| Webhook.HeaderReadsBack | src/webhook.rs:286-321 | a header joined from well-formed segments parses to their trimmed keys and values |
| Webhook.WindowIff | src/webhook.rs:380-388 | the saturating test is the mathematical one except where the tolerance reaches the saturation and the true distance exceeds it |
| Webhook.WindowIsExactIff | src/webhook.rs:380-388 | it is exact for all clocks and timestamps if and only if the tolerance is below 2^63-1 or is 2^64-1 |
| Webhook.ParseHeader | src/webhook.rs:286-321 | the parsing loop returns the one `t` and all `v1` values, or the error of the first offending segment |
| Webhook.ScanIff | src/webhook.rs:286-321 | the header is accepted if and only if no segment is a bare token and `t` occurs at most once, and the value kept is that one |
| Webhook.AnyMatches | src/webhook.rs:364-374 | the fold over a reused buffer is true if and only if some candidate decodes to the expected MAC |
| Webhook.DecodeToSlice | src/webhook.rs:367-369 | decoding fills the buffer with the bytes the hex denotes, and fails if and only if it is no hex or of another length |
| Webhook.VerifyWebhook | src/webhook.rs:277-396 | the method gives that verdict, with the errors in their order |
| Closure.Closure | tools/gen_management.py:549-578 | terminates on every schema graph, and returns in ascending order exactly the schemas reachable from the operations' seeds through `$ref` |
| Closure.ClosureIsDetermined | tools/gen_management.py:549-578 | the order in which the worklist is popped cannot show in the result |
| Closure.ClosedHoldsPath | tools/gen_management.py:567-577 | a set holding the seeds and closed under mention holds the end of every path |
| Closure.OwnRefIff | tools/gen_management.py:559-561 | a node gives a name if and only if it is an object whose `$ref` is the name or ends in a slash and the name, which has no slash |
| Closure.ChildrenAre | tools/gen_management.py:562-566 | below an object are its values, below a list its items |
| Closure.SeedsIff | tools/gen_management.py:550-556 | the seeds are the request and response schemas of the operations |
| Closure.SeedOfIff | tools/gen_management.py:553-556 | each without its leading brackets, and none for an empty name |
| Closure.LessIff | tools/gen_management.py:578-578 | the sort compares the first differing characters, a prefix coming first |
| Closure.RefsAreMentions | tools/gen_management.py:558-566 | the names collected from a document are exactly those some object anywhere in it gives as `$ref` |
| Closure.RefsInto | tools/gen_management.py:558-566 | the recursive visitor adds exactly those names to the set it is given |
| Closure.Sorted | tools/gen_management.py:578-578 | the ascending list of exactly the given names |
| Arguments.CallMatchesSignatureIff | tools/gen_management.py:1746-1790 | the generated test's call type-checks against the generated signature, argument by argument, if and only if any hand-written body is of the operation's own model, taking the literal of a schema to have that schema's type |
| Arguments.PagingCallMatches | tools/gen_management.py:1879-1887 | so does its call of the auto-paging companion |
| Arguments.ForwardingMatchesIff | tools/gen_management.py:1495-1514 | what the companion forwards is the method's parameter list if and only if the operation takes no body |
| Arguments.ImplicitIff | tools/gen_management.py:1177-1184 | a path parameter is implicit if and only if it is `org_id`, or `tenant_id` in one of the six namespaces |
| Arguments.PathArgumentIs | tools/gen_management.py:1349-1357 | every other one is an argument, after those before it, a `Uuid` if and only if its format is uuid |
| Arguments.PathArgumentsAreThose | tools/gen_management.py:1349-1357 | and every path argument is one of those |
| Arguments.ExtraQueryIff | tools/gen_management.py:1477-1492 | a query parameter is an argument if and only if it is not `offset`, `limit` or, when paginated, `search` |
| Arguments.ExtraQueryKeepsOrder | tools/gen_management.py:1477-1492 | in the order of the operation |
| Arguments.QueryTypeIff | tools/gen_management.py:1171-1174 | `i64` if and only if the declared type is integer, `bool` if and only if boolean, and otherwise text, the first of several types that is not null counting |
| Arguments.EmitArguments | tools/gen_management.py:1341-1380 | the signature's parameters, in order |
| Arguments.CallArguments | tools/gen_management.py:1746-1790 | the call's arguments, in order |
| Uma.RoundTripIff | src/uma.rs:222-261 | parsing the printed challenge returns all three values unchanged if and only if none contains a comma and none starts or ends with a double quote |
| Uma.AssignsOnlyPlain | src/uma.rs:236-248 | the parser never stores a value with a comma in it or a quote at either end, whatever the header |
| Uma.ParsesIff | src/uma.rs:222-251 | parsing succeeds if and only if the trimmed header is the scheme alone or the scheme and a blank; each key then holds what the last part to give it gave, blanks and quotes around it dropped, whatever other keys and order |
| Uma.ParseChallenge | src/uma.rs:222-251 | the loop over parts computes that challenge |

## Left out

- HTTP, gRPC and AMQP connections, TLS, browser and wasm code: a reply or a delivery is an input of the model.
- The mathematics of HMAC and Ed25519, base64, and constant-time behaviour.
- The JWKS cache (`src/token/jwks.rs`): each SET's key lookup is one arbitrary answer.
- `SsfReceiver.KeyDiscovery.Verifier`: models the discovery-URL key source with fetches one after the other, as the once-cell makes them; a fixed `jwks_uri` needs no fetch.
- `SsfReceiver.SsfReceiver.Poll`: starts from the transmitter's answer; the URL, the bearer token and the retried HTTP call are not modelled, nor how its status becomes an error (which statuses are retried, `parse_retry_after`).
- `Ssf.JudgeStopsAtTheFirstFailure`: the members of the decoded header and claims are given, so the three-part split and base64url decoding are one undecodable case.
- Local errors are one value without their texts, and error categories are kept only as far as the code branches on them.
- `Consumer.NonceWindow`: the code reads two clocks, a wall clock for freshness and a monotonic one for retention; the model has one reading of both per delivery.
- `Consumer.RecordHolds`: a skew whose double overflows the duration types is not modelled; a negative skew, which falls back to the default TTL, is.
- `AmqpWire.RemoveFromCollected`: repeated keys are followed at the top level of a body; nested objects are values already parsed.
- `AuditMessage.SignedMessageVerifies`: identifiers and times are the strings they serialize to, and metadata is any JSON value; `AuthzRequest` is another field list of the same kind and is not repeated.
- `Retry.DelayFor`: `Duration::mul_f64` is exact multiplication here, so nanosecond rounding and a jitter that is not a number are not captured.
- The memo's telemetry on a clamped TTL, and a poisoned lock, which the code treats as a miss or a put that is lost.
- Cancellation of a future between await points, and panicking handlers or telemetry hooks.
- The generator's text: names, documentation, layout, filter structs and the path and query assembly of an operation. Argument lists are types and values.
- `Arguments.CallMatchesSignatureIff`: that the literal built for a body has its schema's type is assumed; its fields, its enum and union arms and `Default::default()`, whose type is inferred (`tools/gen_management.py:1698-1743`), are not modelled.
- `Arguments.EmitArguments`: the fields and the Rust type of a filter struct are not modelled; it is known by its name.
- `Closure.RefsInto`: a `$ref` whose value is not a string, on which the generator would raise, gives no name here.
- `SetErr::from_reason` and the other mapping tables of `src/error.rs`: one line per case.
