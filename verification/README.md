# Hexeract bus: delivery and request/reply, modelled and proved

Hexeract is a message bus over RabbitMQ. A producer publishes envelopes, a worker decodes,
verifies, handles, retries or dead-letters them, and a request client correlates replies
with pending calls while its reply inbox may disappear and come back. This project models
that core (`hexeract-bus` and `hexeract-bus-rabbitmq`) and proves the guarantees the two
crates are for.

| file | models |
|---|---|
| `Bytes.dfy`, `Envelope.dfy`, `Amqp.dfy` | bytes, UTF-8, decimal text, envelopes, reserved names, errors, AMQP values and properties |
| `Unicode.dfy`, `Octets.dfy` | independent definitions of UTF-8, decimal text and AMQP octets, and that the code's agree with them |
| `Metadata.dfy` | the header limits: measuring, encoding and decoding field tables |
| `Wire.dfy` | envelope to AMQP properties and back |
| `Canonical.dfy`, `CanonicalReader.dfy` | the byte representation a signature covers, and a reader that undoes it |
| `Verifier.dfy` | what establishes the publisher of an envelope |
| `Deadline.dfy` | deadlines on the wire and on a local clock |
| `Replies.dfy`, `Responder.dfy` | what a caller accepts as a reply, and the responder that builds it |
| `Registry.dfy` | pending calls, their retirement, and reply counters |
| `Reconnect.dfy` | the reply inbox being lost and rebuilt while callers register |
| `Calls.dfy` | call counters and the in-flight gauge, under every interleaving |
| `Pacing.dfy` | connect backoff and the pacing of inbox rebuilds |
| `Pool.dfy` | the bounded channel pool |
| `Worker.dfy` | what a worker does with one delivery |
| `Outcomes.dfy` | what a dispatch comes to, on what it learnt alone |
| `Retries.dfy` | what one trip through the wait queue does to a message |
| `Broker.dfy` | a broker and any number of Manual-mode workers, step by step |
| `Accounts.dfy`, `Conservation.dfy` | over whole runs: no message is lost, and how many copies there are |
| `Settlement.dfy` | over whole runs: one settle a delivery, and which deliveries hold a slot |
| `Journeys.dfy`, `Retrying.dfy` | over whole runs: where every copy comes from, and exactly how often it is retried |
| `Identities.dfy` | over whole runs: who a message is |
| `SignedRetries.dfy` | over whole runs: what becomes of a signed message |
| `Exchange.dfy` | a whole remote call, from request envelope to resolved slot |

How the forms were chosen. Objects with mutable fields are classes (`RequestRegistry`,
`RetiredSlots`, `RepliedHandler`, `ChannelPool`, `CallObservation`, the worker's `Channel`),
loops are methods with invariants proved against functions, and pure code is functions.
Properties of several tasks at once are state machines whose steps are the atomic actions
of the code (one lock section, one atomic counter update, one broker operation), so a lemma
over all step sequences is a lemma over all interleavings. Where an order of two actions is
what makes a protocol safe, the order is a parameter and the theorem says exactly which
orders are needed (`ReconnectSafety`, `PoolBound`).

A function that a method and its specification share is held to a definition that does not
mention it: the lemmas ending in `Exactly` state what a dispatch, a reply, a verdict or a
measurement comes to on its inputs alone, in both directions.

What is outside appears as a parameter: clocks are instants, iteration order of a hash map
is any enumeration of it (`Enumerates`), a handler's result, a publisher confirmation and a
settle result are inputs of the call (`Oracle`,
`Circumstances`) or choices of the step. UUID and JSON formats enter only through their
laws (`Lawful`: parsing what was rendered gives it back). `DecodesTo` says what a decode may
return; it leaves free only which of several violated rules is reported, since that depends
on iteration order.

The broker in `Broker.dfy` may lose any confirmation, apply or ignore any settle, whatever the
settle call reports, and close any channel at any time. It is trusted for three things: a
confirmed mandatory publish is stored, a returned one is not, and an expiry counts the wait
queue's `x-death` entry (adding one when it is missing) and moves it to the front. What else
it stamps on an expired message is a parameter (`Expiry`). A worker's dispatch is not free:
each attempt decodes what it was delivered, as `DecodesTo` says, verifies it by one fixed
function of the decoded envelope and the routing key it arrived on, and finds a handler
exactly for the types that are registered (`System`). Only what a handler returns is the
environment's. `SignedRetries.dfy` puts the verifier of `Verifier.dfy` in the place of that
function; the one law it needs is that a signature is good for one byte string (`Binds`).

## Model

| member | source | states |
|---|---|---|
| `Accounts.NoMessageIsLost` | crates/hexeract-bus-rabbitmq/src/worker.rs:1073-1255 | After any run of any number of workers, every published message was handled, was dropped by an explicit rule, or is still queued, waiting, dead-lettered or held unacked by a worker that has not let it go |
| `Accounts.AtLeastOnce` | crates/hexeract-bus-rabbitmq/src/worker.rs:1379-1399 | With a dead-letter queue and no unroutable publish nothing is ever dropped: every message was handled or is still with the broker |
| `Accounts.StepAccounts` | crates/hexeract-bus-rabbitmq/src/worker.rs:1310-1359 | Each single step, whatever the broker answers, keeps every published message accounted for: publish before settle, requeue on a failed publish |
| `Accounts.RecordsAreExact` | crates/hexeract-bus-rabbitmq/src/worker.rs:1145-1215 | After any run a message counts as handled if and only if some attempt decoded it, trusted its sender and had `Ok` returned by its handler (a panic is none), and as dropped if and only if some attempt failed it for good without a dead-letter queue or had its copy returned |
| `Accounts.HandledDroppedOrKept` | crates/hexeract-bus-rabbitmq/src/worker.rs:1073-1255 | So every published message had success from its handler, was let go by one of those two rules, or is still with the broker; with a dead-letter queue and no copy returned the second cannot be |
| `Conservation.CopiesAreConserved` | crates/hexeract-bus-rabbitmq/src/worker.rs:1310-1399 | After any run the broker holds as many copies of a message as were published or stored by workers, less those whose ack or drop it applied: requeues, redeliveries, expiries and lost channels make none and lose none |
| `Retrying.RetriesAreBounded` | crates/hexeract-bus-rabbitmq/src/worker.rs:1219-1255 | After any run no message has made more wait-queue trips than `max_attempts - 1` plus the amount its published count lay below zero; requeues and redeliveries buy none |
| `Retrying.TripsExactly` | crates/hexeract-bus-rabbitmq/src/worker.rs:1219-1255 | Some run takes a published message through `n` trips if and only if each of its first `n` attempts decodes and verifies, under the table and the routing key the broker will have given it, has a handler registered, and reads a count that leaves a retry |
| `Retrying.ConfiguredAttemptsHold` | crates/hexeract-bus-rabbitmq/src/worker.rs:2036-2068 | Every run retries a message at most `max_attempts - 1` times, except exactly when the count the broker increments is negative and each of the first `max_attempts` attempts decodes, verifies and has a handler |
| `Retrying.BudgetIsReached` | crates/hexeract-bus-rabbitmq/src/worker.rs:1379-1399 | Wherever a message stands in a run, the run can go on through every trip the message is entitled to, each attempt decoding and verifying what it is really delivered |
| `Retrying.NegativeCountExample` | crates/hexeract-bus-rabbitmq/src/worker.rs:2054-2064 | Two attempts configured, a count of -1 on the wire, a broker that stamps what RabbitMQ stamps: the message is retried twice |
| `Journeys.RunFollows` | crates/hexeract-bus-rabbitmq/src/worker.rs:1734-1791 | After any run every copy of a published message, wherever it is, has the body, own headers and properties of the publication and the table its trips give it, and was entitled to each trip; only a dead-lettered copy may have lost its table |
| `Journeys.DeadCopiesAreIntact` | crates/hexeract-bus-rabbitmq/src/worker.rs:1619-1660 | After any run a dead-lettered copy is persistent and is the published message under the table of its trips, in particular whenever its last attempt reached a handler; it has lost its table and `user-id` if and only if that attempt was refused for its metadata or its sender |
| `Journeys.SameDiscredit` | crates/hexeract-bus-rabbitmq/src/worker.rs:1528-1540 | Which of the two it is follows from the publication and the number of trips alone |
| `Journeys.DecodesExactly` | crates/hexeract-bus-rabbitmq/src/worker.rs:2159-2298 | A delivery decodes exactly when its payload, its table and its properties are within the rules, whatever is minted |
| `Journeys.SameVerdict` | crates/hexeract-bus-rabbitmq/src/worker.rs:1031-1070 | Whether an attempt verifies follows from the publication and the number of trips alone: not from the retry copy's own spelling, nor from what a lenient decode mints |
| `Identities.StableIdentity` | crates/hexeract-bus-rabbitmq/src/worker.rs:1947-1967 | After any run every copy of a message published with two parseable identifiers, requeued, duplicated or dead-lettered, carries them byte for byte and decodes to them |
| `Identities.RetriedIdentity` | crates/hexeract-bus-rabbitmq/src/worker.rs:1734-1758 | After any run a copy that has been retried, waiting, queued again or held by a worker, decodes to one identity at every attempt, whatever the attempt would have minted |
| `Identities.CopiesAgree` | crates/hexeract-bus-rabbitmq/src/worker.rs:1947-1967 | Any two copies of a published message, queued, waiting, dead-lettered or held, carry the same identifiers in every run if and only if it was published with two parseable ones or cannot be retried at all |
| `Identities.CopiesDisagree` | crates/hexeract-bus-rabbitmq/src/worker.rs:1310-1340 | The failing run: a stored copy, a lost confirmation, a requeue and a second mint |
| `SignedRetries.SignedDeliveryVerifiesAgain` | crates/hexeract-bus-rabbitmq/src/worker.rs:1425-1450 | A signed delivery that verified on arrival verifies after `n` trips if and only if the broker left every string header as it was and the queue's name is the destination it was sent to |
| `SignedRetries.SignedTripsExactly` | crates/hexeract-bus-rabbitmq/src/worker.rs:1031-1070 | Some run takes a signed delivery through `n` trips if and only if it verifies on arrival, each of its first `n` attempts is retriable otherwise, and the broker hands it back untouched before each of them |
| `SignedRetries.SignedDeliveryIsRetriedOnce` | crates/hexeract-bus-rabbitmq/src/metadata.rs:258-290 | The failing family: where the broker stamps a new string header, no run retries a signed delivery twice, whatever `max_attempts` is |
| `SignedRetries.RabbitStampsString` | crates/hexeract-bus-rabbitmq/src/metadata.rs:258-290 | And RabbitMQ's `x-first-death-queue` is such a header on every message that has not died before |
| `SignedRetries.ProtocolHeadersAt` | crates/hexeract-bus-rabbitmq/src/metadata.rs:258-290 | No number of trips changes what is read on the reserved side of a table |
| `Settlement.SlotsAreExact` | crates/hexeract-bus-rabbitmq/src/worker.rs:97-134 | After any run a delivery holds its prefetch slot exactly when no settle of it was applied and its channel did not close |
| `Settlement.OneSettle` | crates/hexeract-bus-rabbitmq/src/worker.rs:1693-1715 | No run settles a delivery twice |
| `Settlement.FinishedDispatch` | crates/hexeract-bus-rabbitmq/src/worker.rs:1073-1189 | The steps of a finished delivery are one decision, a publication exactly when its route has one, and one settle, and what the worker did is the dispatch of that delivery |
| `Settlement.HeldSlotsAreFailedSettles` | crates/hexeract-bus-rabbitmq/src/worker.rs:97-134 | Where settle calls report what happened, the finished deliveries still holding a slot on a live channel are exactly those whose one settle call failed |
| `Worker.Dispatch` | crates/hexeract-bus-rabbitmq/src/worker.rs:1073-1189 | The effects of one delivery in order, for all three ack modes and every failure of decode, verification, handler, publish and settle; the disposition is `LeftForRedelivery` exactly when the settle failed |
| `Outcomes.ManualExactly` | crates/hexeract-bus-rabbitmq/src/worker.rs:1073-1255 | In Manual mode: the wait queue gets a copy if and only if the delivery decoded, was trusted, and its handler panicked or returned an error other than the two permanent ones with the count leaving a retry; the dead-letter queue if and only if it failed otherwise; the settle call is the confirmation's where there is a copy |
| `Outcomes.AckedAloneExactly` | crates/hexeract-bus-rabbitmq/src/worker.rs:1145-1215 | With a dead-letter queue a delivery is acked with no copy published if and only if it decoded, was trusted, and its handler returned `Ok` |
| `Outcomes.UnmanagedExactly` | crates/hexeract-bus-rabbitmq/src/worker.rs:1100-1189 | In the other two modes only refused deliveries are copied, AckOnReceive acks everything but a refused delivery whose copy failed, and without acknowledgements nothing is settled |
| `Outcomes.EffectsInOrder` | crates/hexeract-bus-rabbitmq/src/worker.rs:1031-1189 | Verification comes first, a copy before the settle call, the handler before both, except that AckOnReceive acks first and handles only once the ack went out; the result noted is the handler's own |
| `Outcomes.DeadLetterCopyExactly` | crates/hexeract-bus-rabbitmq/src/worker.rs:1521-1540 | In every mode a dead-letter copy is the delivery made persistent, without its table and `user-id` if and only if its metadata is bad or its sender was not trusted |
| `Outcomes.RetryCopyExactly` | crates/hexeract-bus-rabbitmq/src/worker.rs:1734-1758 | A retry copy is the delivery made persistent under the very identity its handler saw, read or minted |
| `Worker.HandleManualOutcome` | crates/hexeract-bus-rabbitmq/src/worker.rs:1191-1255 | A handled delivery is acked, retried, dead-lettered or dropped, by its error and its attempt number; which, exactly, is `ManualExactly` |
| `Worker.HandlePoison` | crates/hexeract-bus-rabbitmq/src/worker.rs:1507-1617 | A refused delivery is quarantined before it is settled; without a dead-letter queue it is nacked in Manual mode and acked in AckOnReceive |
| `Worker.RetryCore` | crates/hexeract-bus-rabbitmq/src/worker.rs:1379-1399 | Publish, then settle: ack only after a stored copy, nack otherwise |
| `Worker.ExhaustedCore` | crates/hexeract-bus-rabbitmq/src/worker.rs:1693-1715 | Dead-letter when configured, then settle |
| `Worker.ExactSettlement` | crates/hexeract-bus-rabbitmq/src/worker.rs:97-134 | Every path makes exactly one settle call, and none under `no_ack` |
| `Worker.AckFollowsVerification` | crates/hexeract-bus-rabbitmq/src/worker.rs:1031-1070 | A delivery is acked unverified exactly when it was refused, the mode settles, and either its dead-letter copy is confirmed or there is no dead-letter queue and the worker acks on receive |
| `Worker.RefusedDropIsAcked` | crates/hexeract-bus-rabbitmq/src/worker.rs:1490-1492 | The failing family: an AckOnReceive worker without a dead-letter queue acks every delivery it refuses |
| `Worker.SettleMatchesBroker` | crates/hexeract-bus-rabbitmq/src/confirm.rs:18-39 | The original is acked exactly when the copy was confirmed and not returned, and discarded exactly when the broker returned it |
| `Worker.RetriedExactly` | crates/hexeract-bus-rabbitmq/src/worker.rs:1837-1845 | A failure is retried exactly when it is not permanent and the raw count, of any sign or size, leaves an attempt |
| `Worker.QuarantineIsReadable` | crates/hexeract-bus-rabbitmq/src/metadata.rs:100-108 | The quarantine copy of a delivery refused by decoding is within the same limits, exactly unless the payload was too large and the unread table was not |
| `Worker.HandledExactly` | crates/hexeract-bus-rabbitmq/src/worker.rs:1073-1189 | The handler sees a delivery if and only if it decoded and verified and, in AckOnReceive, the ack went out |
| `Worker.RefusedIsQuarantined` | crates/hexeract-bus-rabbitmq/src/worker.rs:1507-1617 | With a dead-letter queue every refused delivery is copied there before anything else, in every ack mode |
| `Worker.DeathCount` | crates/hexeract-bus-rabbitmq/src/worker.rs:2036-2068 | The first readable expiry count of the wait queue, clamped to `u32` from both sides |
| `Worker.FirstCountExactly` | crates/hexeract-bus-rabbitmq/src/worker.rs:2036-2068 | The count read is that of the first entry naming the wait queue, the reason `expired` and a signed count, and none is read where no entry does |
| `Retries.ExpiryCounts` | crates/hexeract-bus-rabbitmq/src/worker.rs:2030-2068 | After every expiry the count read back is one more than the broker found in its entry, or 1 when it found none it could read |
| `Retries.CountAfterTrips` | crates/hexeract-bus-rabbitmq/src/worker.rs:2030-2068 | From the first expiry on every trip adds one to the count, and that count is the one read back |
| `Retries.AttemptAdvances` | crates/hexeract-bus-rabbitmq/src/worker.rs:2054-2064 | A retry uses up one attempt exactly when the count the broker increments is the one read, not negative and below the top of `u32`, or none was there to read |
| `Retries.RetryKeepsIdentity` | crates/hexeract-bus-rabbitmq/src/worker.rs:1947-1967 | One retry fixes the identifiers an attempt minted, whatever the next attempt would mint |
| `Retries.RetryKeepsMessage` | crates/hexeract-bus-rabbitmq/src/worker.rs:1734-1758 | The retry copy is persistent, has an identity, and is otherwise the message it copies |
| `Retries.AcceptedAfterRetry` | crates/hexeract-bus-rabbitmq/src/metadata.rs:221-290 | An accepted delivery is accepted again after a retry exactly when everything the broker wrote into its table fits the limits too, whichever headers this broker writes |
| `Retries.FullTableIsRefusedAfterRetry` | crates/hexeract-bus-rabbitmq/src/metadata.rs:221-290 | A delivery whose table is exactly full is refused as soon as it comes back from its first retry |
| `Metadata.MeasureValue` | crates/hexeract-bus-rabbitmq/src/metadata.rs:299-343 | The explicit-stack measurement is the recursive byte weight, saturating, and it refuses exactly what exceeds the bound |
| `Octets.WeightCountsOctets` | crates/hexeract-bus-rabbitmq/src/metadata.rs:299-343 | The recursive weight is the number of key and payload octets of the value's AMQP 0-9-1 encoding, every kind of value and every nesting |
| `Octets.SignedOctetsAreExact` | crates/hexeract-bus-rabbitmq/src/metadata.rs:310-313 | In two's complement of the width counted, no two integers of its range share their octets |
| `Octets.LimitsBoundOctets` | crates/hexeract-bus-rabbitmq/src/metadata.rs:221-258 | A table is within the inbound limits if and only if its entries, key lengths and octets are |
| `Metadata.EncodeHeaders` | crates/hexeract-bus-rabbitmq/src/metadata.rs:119-205 | Encoding succeeds exactly when no rule is broken, reports the first broken one, and yields the union of the three header maps |
| `Metadata.EncodeStream` | crates/hexeract-bus-rabbitmq/src/metadata.rs:145-205 | The checks in order over one stream of entries, and the table that results |
| `Metadata.StreamVerdict` | crates/hexeract-bus-rabbitmq/src/metadata.rs:119-143 | The verdict and the table depend on the maps alone, not on their iteration order |
| `Metadata.DecodeHeaders` | crates/hexeract-bus-rabbitmq/src/metadata.rs:221-290 | Decoding succeeds exactly for tables within limits and readable, splits them at the reserved boundary, and on refusal names a rule really violated |
| `Metadata.CopyStrings` | crates/hexeract-bus-rabbitmq/src/metadata.rs:258-290 | Only string values are copied, each to its own side of the reserved boundary; non-canonical and non-UTF-8 entries refuse the table |
| `Unicode.Utf8Exactly` | crates/hexeract-bus-rabbitmq/src/metadata.rs:279-281 | Bytes are accepted as UTF-8 if and only if they encode some sequence of Unicode scalar values |
| `Envelopes.ReservedExactly` | crates/hexeract-bus/src/rpc_protocol.rs:12-19 | A key is reserved in whatever case it is spelled, and canonical only in lower case |
| `Metadata.EnumerationBytes` | crates/hexeract-bus-rabbitmq/src/metadata.rs:160-190 | The byte total of a header map is the same however it is iterated |
| `Wire.EnvelopeToProperties` | crates/hexeract-bus-rabbitmq/src/transport.rs:559-589 | The properties published for an envelope, or the exact reason it is not published |
| `Wire.DeliveryToEnvelope` | crates/hexeract-bus-rabbitmq/src/worker.rs:2159-2298 | The envelope a delivery decodes to under strict or lenient fields, or a real violation |
| `Wire.RoundTrip` | crates/hexeract-bus-rabbitmq/src/worker.rs:2159-2298 | Every publishable envelope comes back from the wire, to the second, if and only if its protocol keys are canonical reserved names |
| `Wire.UnreservedProtocolKeyIsLost` | crates/hexeract-bus/src/envelope.rs:235-254 | The failing input: a protocol map holding `x-tenant` is published and comes back as an application header |
| `Wire.PlainEnvelopePublishes` | crates/hexeract-bus-rabbitmq/src/transport.rs:559-589 | An envelope without headers is publishable exactly when its short strings are short |
| `Wire.SplitExactly` | crates/hexeract-bus-rabbitmq/src/metadata.rs:258-290 | The reserved boundary recovers both header maps exactly for canonical protocol keys |
| `Wire.OutboundFitsInbound` | crates/hexeract-bus-rabbitmq/src/metadata.rs:119-290 | Whatever encoding lets out under some limits, decoding lets in under the same ones |
| `Canonical.CanonicalRepresentation` | crates/hexeract-bus/src/envelope_security/canonical.rs:68-98 | The bytes to sign are the framed fields in order, or the reason there are none |
| `Canonical.PushFields` | crates/hexeract-bus/src/envelope_security/canonical.rs:100-105 | Length-prefixed frames, refused exactly when a field is longer than `u32` |
| `Canonical.PushOptionalField` | crates/hexeract-bus/src/envelope_security/canonical.rs:107-118 | An absent field and an empty one differ by a presence byte |
| `Canonical.RepresentationDeterministic` | crates/hexeract-bus/src/envelope_security/canonical.rs:120-147 | No iteration order of either header map changes the bytes |
| `Canonical.RepresentationInjective` | crates/hexeract-bus/src/envelope_security/canonical.rs:60-147 | Equal bytes mean equal identifiers, type, reply address, second, binding, digest, and the same covered header pairs |
| `CanonicalReader.SignedBytesReadBack` | crates/hexeract-bus/src/envelope_security/canonical.rs:68-98 | A reader of frames, in the order the format lays them down, gets back every covered field and the covered headers from the signed bytes |
| `Canonical.SignedOrderOfMaps` | crates/hexeract-bus/src/envelope_security/canonical.rs:120-147 | The signed pairs are the non-security entries of both maps, each once, sorted by key and then value |
| `Canonical.FramesSplit` | crates/hexeract-bus/src/envelope_security/canonical.rs:100-105 | No field boundary can move: a sequence of frames determines its fields and what follows |
| `Canonical.RepresentationSurvivesTheWire` | crates/hexeract-bus/src/envelope_security/canonical.rs:149-158 | Adding security headers and dropping sub-second time leaves the signed bytes unchanged |
| `Canonical.SignedBytesReachTheVerifier` | crates/hexeract-bus-rabbitmq/src/worker.rs:1031-1070 | The bytes a consumer verifies after decoding a signed publish are the bytes that were signed |
| `Verifiers.BytesOfAnyIteration` | crates/hexeract-bus/src/envelope_security/verifier.rs:96-103 | The bytes a signature is checked against are those of any iteration of the two header maps |
| `Verifiers.BytesCoverHeadersAndDestination` | crates/hexeract-bus/src/envelope_security/canonical.rs:60-147 | Two envelopes that differ in application headers at most have the same bytes to verify if and only if those headers and the destinations are equal |
| `Verifiers.ClaimMoves` | crates/hexeract-bus/src/envelope_security/verifier.rs:68-77 | An envelope's claim stands on the routing key it was made for, whatever its application headers, and is a destination mismatch on every other |
| `Verifiers.AcceptedAgain` | crates/hexeract-bus/src/envelope_security/verifier.rs:56-112 | A signed envelope once accepted, with other application headers or on another routing key, is accepted again if and only if neither changed |
| `Verifiers.VerifyExactly` | crates/hexeract-bus/src/envelope_security/verifier.rs:56-112 | A publisher is established if and only if the envelope is signed for this destination and a served audience and the named key accepts the signature over the envelope's own bytes; an unsigned one passes if and only if signatures are not required |
| `Deadlines.MillisRoundTrip` | crates/hexeract-bus/src/deadline.rs:79-112 | Every representable millisecond count survives, `i64::MIN` included |
| `Unicode.IntExactly` | crates/hexeract-bus/src/rpc_protocol.rs:66-88 | Header text parses to an integer if and only if it is an optional sign, zeros, and the integer's decimal digits, within the range of its type |
| `Deadlines.InstantRoundTrip` | crates/hexeract-bus/src/deadline.rs:95-112 | An instant moves toward the epoch, by less than a millisecond exactly unless the count saturates |
| `Deadlines.LiveIsBounded` | crates/hexeract-bus/src/deadline.rs:117-129 | Whatever the header said, an accepted deadline leaves at most the horizon plus the tolerance |
| `Deadlines.ReadingExactly` | crates/hexeract-bus/src/deadline.rs:58-129 | What any header text reads as on any clock: absent, unreadable, beyond the horizon, expired, or live with exactly the time left |
| `Deadlines.DeadlineAcrossProcesses` | crates/hexeract-bus/src/deadline.rs:58-129 | Caller and responder on different clocks: the deadline is the timeout after sending (at once where that overflows), never late, under a millisecond early unless saturated, and refused or expired exactly when stated |
| `Replies.ReplyPassesGate` | crates/hexeract-bus/src/reply_acceptance.rs:105-168 | Every reply a responder can build passes the caller's gate, as published and as received |
| `Replies.GateExactly` | crates/hexeract-bus/src/reply_acceptance.rs:105-168 | A reply passes if and only if its version header reads 1 and it is an `ok` of the awaited type, or an error of the error type whose payload names the call; any other is refused for the rule it breaks |
| `Replies.ReplyHeadersReadBack` | crates/hexeract-bus/src/replied_handler.rs:144-186 | Status, request identity and version read back unchanged, security headers added or not |
| `Replies.ReplyReachesItsCaller` | crates/hexeract-bus/src/replied_handler.rs:478-500 | A reply that is published and decoded under the same limits arrives as it was sent, names its request and passes the gate |
| `Responder.RepliedHandler.Dispatch` | crates/hexeract-bus/src/replied_handler.rs:369-464 | One request: the counter it moves, the one reply published or none, the handler called exactly when destination, identity, version, deadline and payload all pass, and the outcome or translated failure reported |
| `Responder.ReportExactly` | crates/hexeract-bus/src/replied_handler.rs:420-464 | Each report on what handler and publisher returned; only an unroutable reply changes the error |
| `Responder.PublicationExactly` | crates/hexeract-bus/src/replied_handler.rs:144-186 | The reply published holds the payload the handler produced, or the category of the guard that refused or of the error the handler returned |
| `Responder.RepliedHandler.Answer` | crates/hexeract-bus/src/replied_handler.rs:420-464 | Past the guards: the handler is called, and its result published unless the deadline passed meanwhile |
| `Responder.RepliedHandler.DeliverReply` | crates/hexeract-bus/src/replied_handler.rs:197-217 | One publication, its failure classified as permanent or transient |
| `Responder.HandlerAccounting` | crates/hexeract-bus/src/responder_counters.rs:104-132 | Over the life of a responder: dispatches are counted refusals, undecodable payloads and handler calls; handler calls are suppressed or answered; nothing else is published |
| `Responder.ResponderAccounting` | crates/hexeract-bus/src/responder_counters.rs:104-132 | The same sums over any sequence of dispatch endings |
| `Responder.TallyExactly` | crates/hexeract-bus/src/responder_counters.rs:104-132 | Each of the six totals is the number of dispatches that ended so |
| `Responder.PublishedReply` | crates/hexeract-bus/src/replied_handler.rs:144-186 | Whatever a responder publishes is a reply to the request it received |
| `Exchange.ReplyAnswersItsRequest` | crates/hexeract-bus/src/replied_handler.rs:478-500 | Whatever a dispatch publishes for the request it received, once encoded and decoded, resolves the slot of that request, carries its correlation identifier, and tells how it went |
| `Exchange.UndeliverableReplyIsNotRetried` | crates/hexeract-bus/src/replied_handler.rs:197-217 | A reply whose inbox is gone is reported as a permanent failure, which the worker never sends to the wait queue |
| `Exchange.RequestPassesGuards` | crates/hexeract-bus/src/request_client.rs:690-712 | A call's request, once carried over, arrives with its payload and type and reaches the handler exactly when its deadline is open and the responder accepts the inbox and decodes the payload |
| `Exchange.CallIsAnswered` | crates/hexeract-bus/src/request_client.rs:666-760 | The whole call: whatever the responder publishes for the request resolves the slot the caller waits on, at its inbox and under its correlation identifier; it is an `ok` with payload `p` if and only if the handler produced `p`, and an error of some category naming the call if and only if that is what went wrong |
| `Registry.RequestRegistry.Register` | crates/hexeract-bus/src/request_registry.rs:206-236 | A slot is taken exactly when the registry is open, the identity free and the bound not reached; otherwise nothing changes and the reason is exact |
| `Registry.RequestRegistry.Resolve` | crates/hexeract-bus/src/request_registry.rs:263-361 | Each delivery is routed to its waiting caller or counted under exactly one refusal; only the first valid reply consumes a slot |
| `Registry.VerdictExactly` | crates/hexeract-bus/src/request_registry.rs:263-361 | Each verdict on the delivery's headers and payload, the waiting slots and the remembered fates |
| `Registry.SlotsExactly` | crates/hexeract-bus/src/request_registry.rs:263-361 | A slot goes away if and only if its own acceptable, authenticated reply arrives; any other delivery leaves every call awaiting the same type and at most notes, on the call it names, why it was refused |
| `Registry.RequestRegistry.HandOver` | crates/hexeract-bus/src/request_registry.rs:330-361 | Delivery of a rightful reply, its slot retired as resolved |
| `Registry.RequestRegistry.RecordUndecodable` | crates/hexeract-bus/src/request_registry.rs:368-370 | Counted once, changing no slot |
| `Registry.RequestRegistry.Remove` | crates/hexeract-bus/src/request_registry.rs:464-469 | Dropping a pending reply retires its slot as abandoned only if it is still there |
| `Registry.RequestRegistry.Drain` | crates/hexeract-bus/src/request_registry.rs:417-456 | Every pending call is abandoned, in any order, and none is left |
| `Registry.RequestRegistry.Close` | crates/hexeract-bus/src/request_registry.rs:433-456 | Closed with no slot left, every one of them recorded as abandoned; conservation still holds |
| `Registry.RequestRegistry.constructor` | crates/hexeract-bus/src/request_registry.rs:169-180 | The conservation law holds from the start |
| `Registry.RetiredSlots.Record` | crates/hexeract-bus/src/slot_retirement.rs:39-61 | Map and queue after a retirement hold exactly the window of the whole history, a re-recorded identity keeping its place, each identity with its latest fate |
| `Registry.RetiredSlots.Lookup` | crates/hexeract-bus/src/slot_retirement.rs:63-66 | The latest fate of an identity in the window, nothing outside it |
| `Registry.WindowDistinct` | crates/hexeract-bus/src/slot_retirement.rs:39-61 | Over any history the window holds no identity twice and never exceeds its capacity |
| `Registry.PublishedReplyResolvesItsCall` | crates/hexeract-bus/src/request_registry.rs:263-361 | A published, decoded and verified reply resolves the slot of the request it answers, whatever the registry remembers |
| `Reconnect.ReconnectSafety` | crates/hexeract-bus-rabbitmq/src/request_client.rs:386-452 | No caller is left waiting on an inbox that is gone, after a loss or after the client stopped, in every interleaving, if and only if the supervisor marks before draining, callers register before reading, and the token is cancelled only after the registry was closed |
| `Reconnect.ReadsFailFast` | crates/hexeract-bus/src/request_client.rs:666-689 | From the mark to the next ready inbox a caller fails at once and leaves no slot |
| `Reconnect.LeavingFreesTheSlot` | crates/hexeract-bus/src/request_registry.rs:464-469 | In every interleaving only a call under way holds a slot, and a call that leaves gives its slot up |
| `Reconnect.FreshInboxServes` | crates/hexeract-bus-rabbitmq/src/request_client.rs:454-507 | An inbox declared after a loss is one no caller has ever read, and calls made once it is published wait on it |
| `Reconnect.CancelledClientStops` | crates/hexeract-bus-rabbitmq/src/request_client.rs:386-419 | Once the token is cancelled the supervisor can stop from wherever it is, after at most one more step of its own |
| `Reconnect.StepKeepsInv` | crates/hexeract-bus-rabbitmq/src/request_client.rs:386-507 | Each step of supervisor, caller, closing or cancelling preserves the reconnect invariant |
| `Reconnect.DrainFirstIsUnsafe` | crates/hexeract-bus-rabbitmq/src/request_client.rs:420-452 | Draining before marking strands a caller in a concrete interleaving |
| `Reconnect.ReadFirstIsUnsafe` | crates/hexeract-bus/src/request_client.rs:666-689 | Reading before registering strands a caller in a concrete interleaving |
| `Reconnect.CancelFirstIsUnsafe` | crates/hexeract-bus-rabbitmq/src/request_client.rs:399-406 | A token cancelled on its own stops the supervisor under a call in flight, which is left waiting |
| `Reconnect.CallsAfterCancelAreStranded` | crates/hexeract-bus-rabbitmq/src/request_client.rs:399-406 | And every later call still registers and waits on the inbox nobody reads |
| `Calls.CallAccounting` | crates/hexeract-bus/src/call_observation.rs:79-166 | At every point of every interleaving the calls started are the eight totals plus the open calls, each total is exact, and the gauge counts exactly the admitted calls not yet let go |
| `Calls.CallObservation.Finish` | crates/hexeract-bus/src/call_observation.rs:132-143 | The outcome is counted once and the gauge comes down on the path shared with cancellation |
| `Calls.CallObservation.Drop` | crates/hexeract-bus/src/call_observation.rs:145-166 | The gauge comes down for an admitted call; `cancelled` is counted only when no outcome was |
| `Calls.ObserveCall` | crates/hexeract-bus/src/call_observation.rs:79-166 | A whole call adds one to `started` and one to exactly one total and leaves the gauge where it was |
| `Calls.AtRest` | crates/hexeract-bus/src/request_client_counters.rs:8-16 | With every call gone the gauge is zero and the totals add up to the calls started |
| `Calls.GaugeOverrun` | crates/hexeract-bus/src/call_observation.rs:91-100 | The gauge exceeds the bound by at most the calls whose slot is gone and whose observation is not |
| `Calls.GaugeBound` | crates/hexeract-bus/src/request_client.rs:635-677 | The gauge stays within `max_in_flight` in every run of at most `k` calls at a time if and only if `k` is within it (or nothing is admitted at all) |
| `Calls.GaugeReaches` | crates/hexeract-bus/src/request_client.rs:635-677 | Whatever the bound, `n` calls under way can raise the gauge to `n` |
| `Pacing.ConnectWithRetry` | crates/hexeract-bus-rabbitmq/src/connection.rs:743-792 | Stops at the first success or permanent failure, otherwise spends every try, sleeping once between tries and never after the last |
| `Pacing.Backoff` | crates/hexeract-bus-rabbitmq/src/connection.rs:779-783 | The wait is never below the base delay and never overflows |
| `Pacing.BackoffDoubles` | crates/hexeract-bus-rabbitmq/src/connection.rs:779-783 | It doubles from one try to the next for eight tries while the product fits, falls back to the base delay for good when it does not, and stays put from the ninth try on |
| `Pacing.ExhaustionSleeps` | crates/hexeract-bus-rabbitmq/src/connection.rs:743-792 | An exhausted connect slept at least the base delay for each try but the last |
| `Pacing.RoundSpacing` | crates/hexeract-bus-rabbitmq/src/request_client.rs:648-662 | A failed rebuild attempt and the wait after it take at least the smaller delay, because either this loop waited or the connect loop slept |
| `Pacing.RetryReplyInbox` | crates/hexeract-bus-rabbitmq/src/request_client.rs:596-628 | When each rebuild attempt starts, until success or cancellation; the loop reports itself stopped if and only if cancellation had fired when it left |
| `Pacing.NoStartAfterCancellation` | crates/hexeract-bus-rabbitmq/src/request_client.rs:608-617 | No attempt starts once cancellation has fired |
| `Pacing.ReconnectIsPaced` | crates/hexeract-bus-rabbitmq/src/request_client.rs:596-662 | Consecutive attempts are at least the smaller delay apart in every run of the two loops, cancelled or not, if and only if `retry_attempts` is at least two (or a delay is zero) |
| `Pacing.UnpacedRebuilds` | crates/hexeract-bus-rabbitmq/src/request_client.rs:648-662 | The failing run: two single-try connects refused at once, with nothing between them |
| `Pool.ChannelPool.constructor` | crates/hexeract-bus-rabbitmq/src/pool.rs:54-63 | A pool holds at least one channel |
| `Pool.ChannelPool.TakeIdle` | crates/hexeract-bus-rabbitmq/src/pool.rs:112-149 | The first connected idle channel is taken and the disconnected ones before it are discarded |
| `Pool.FirstConnectedSuffix` | crates/hexeract-bus-rabbitmq/src/pool.rs:112-149 | What is taken is the first connected channel and what remains is exactly what lay behind it, or all were disconnected and none remain |
| `Pool.ChannelPool.ReturnIdle` | crates/hexeract-bus-rabbitmq/src/pool.rs:194-207 | A connected channel goes back while there is room |
| `Pool.PoolBound` | crates/hexeract-bus-rabbitmq/src/pool.rs:112-207 | In every interleaving idle, held and opening channels stay within the bound if and only if a guard returns its channel before its permit; no channel is ever held twice |
| `Pool.ConnectedChannelIsNeverDiscarded` | crates/hexeract-bus-rabbitmq/src/pool.rs:194-207 | In every interleaving the capacity check never discards a connected channel |
| `Pool.ChannelsAreReused` | crates/hexeract-bus-rabbitmq/src/pool.rs:112-207 | In every interleaving each channel opened and still connected is idle or held by a task, and a fresh one is opened if and only if no connected one is idle |
| `Pool.StepKeepsExclusive` | crates/hexeract-bus-rabbitmq/src/pool.rs:112-149 | One step never puts a channel in two hands |

## Where the code and its documentation differ

The model follows the code. Each point has its exact condition, and a failing run or input.

- `call_observation.rs` and `request_client_counters.rs` say the in-flight gauge never
  exceeds `max_in_flight`. A slot leaves the registry before the call's observation is
  dropped, so another call can be admitted in between: the gauge is bounded exactly by the
  calls under way (`GaugeBound`, `GaugeReaches`).
- `x-death` counts are clamped so that a negative one reads as 0, but the broker goes on
  incrementing the negative value, so such a message, if its attempts keep reaching a handler, is retried more
  often than `max_attempts` says (`ConfiguredAttemptsHold`, `NegativeCountExample`).
- A token cancelled without closing the client stops the reply supervisor without marking or
  draining: calls in flight, and every later one, wait out their timeout on an inbox nobody
  reads (`ReconnectSafety`, `CancelFirstIsUnsafe`, `CallsAfterCancelAreStranded`).
- A transient connect failure is classified as already backed off. With `retry_attempts` of
  0 or 1 the connect loop sleeps nowhere, so inbox rebuilds may follow each other at once
  (`ReconnectIsPaced`, `UnpacedRebuilds`).
- What the broker writes on an expired message counts against the header limits, so a delivery
  with a full table becomes poison after its first retry (`AcceptedAfterRetry`,
  `FullTableIsRefusedAfterRetry`).
- A failed handler is meant to see `max_attempts` attempts. A signed delivery comes back from
  its first retry under the queue's own name and with the strings the broker stamped among its
  application headers; the signature covers both, so it is refused unless neither changed
  (`SignedTripsExactly`, `SignedDeliveryIsRetriedOnce`).
- A message published without a parseable identifier gets one per attempt until a retry copy
  is stored; a requeue in between leaves two copies with two identities (`CopiesAgree`,
  `CopiesDisagree`).
- An unverified delivery is settled by ack, not nack, in AckOnReceive mode without a
  dead-letter queue (`AckFollowsVerification`, `RefusedDropIsAcked`).
- Protocol headers whose keys are not canonical reserved names are published and not
  recovered by decoding (`RoundTrip`, `UnreservedProtocolKeyIsLost`).

## Left out

- lapin, tokio, TLS and URI handling: library behaviour, represented only by the results the code sees.
- Ed25519, SHA-256, base64 and header syntax: abstract functions of `Verifier`; collisions and forgeries are excluded by law.
- Key sources, their refresh and revocation: the key set is fixed for a run, so a verdict that changes because a key does is not modelled.
- Serde bodies and UUID text: known by the law that rendering then parsing is the identity.
- Topology declaration, name validation and configuration builders: only easy members.
- Tracing, `Debug` output and error texts: no effect on state.
- `PublicationLifecycle` and the two-phase close of a client: `RequestRegistry.Close` is modelled, waiting for permits is not.
- Draining of in-flight deliveries at worker shutdown, the no-ack flow control and requeue pacing: timing only.
- The publisher's recovery loop: a failed publish is a failed publish here.
- Counters are unbounded integers: `u64` wrap-around and relaxed memory ordering are not modelled, each counter update is one step.
- AMQP properties `content-encoding`, `priority`, `expiration`, `app-id` and `cluster-id`: the modelled code only copies them.
- Accounts.NoMessageIsLost: states what is kept, not that a kept message is eventually handled, since requeues may repeat for as long as publishing fails.
- Retrying.RetriesAreBounded: counts trips through the wait queue; redeliveries after a lost channel or a failed publish run the handler again without counting.
- Exchanges, bindings and queue order: a queue is a bag of messages, and a copy goes where the worker sends it.
- Pacing.RetryReplyInbox: follows the loop for any finite list of attempts, since the loop itself need not end.
- Registry.RequestRegistry.Drain: the order in which slots are abandoned is left open, as the map's iteration order is.
- The CLI, outbox, scheduler and in-memory transport crates.
