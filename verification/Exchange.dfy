/**
 A whole remote call: the request a client publishes (`hexeract-bus/src/request_client.rs`),
 the responder that receives it, the reply it publishes, and the slot that reply resolves.
 */
module Exchange {
  import opened Bytes
  import opened Envelopes
  import opened Amqp
  import opened Wire
  import opened Deadlines
  import opened Replies
  import opened Responder
  import Registry
  import Worker

  // ---- One leg over the wire ----

  /** Everything that shapes one publication and its decoding. */
  datatype Leg = Leg(
    platform: Platform,
    limits: MetadataLimits,
    security: Headers,
    userId: Option<Text>,
    required: RequiredFields,
    minted: Minted,
    maxPayload: nat)

  /** The publisher let the envelope out and the consumer, under the same limits, decoded it to `received`. */
  ghost predicate Carries(f: UuidFormat, leg: Leg, e: Envelope, received: Result<Envelope, BusError>) {
    && leg.platform.HasEpoch() && leg.platform.Represents(e.publishedAt)
    && Utf8Values(leg.security) && leg.security.Keys <= SECURITY_HEADERS
    && CanPublish(e, leg.limits, leg.security, leg.userId) && |e.payload| <= leg.maxPayload
    && DecodesTo(f, leg.platform, PropertiesOf(f, e, leg.security, leg.userId), e.payload, leg.maxPayload, leg.limits,
                 leg.required, leg.minted, received)
  }

  // ---- The reply answers the request ----

  /** The reply of a publishing dispatch is a reply to the inbound request, under its correlation identifier. */
  lemma PublicationAnswers(f: Formats, p: Platform, replyType: Text, e: Envelope, c: Circumstances, id: Uuid)
    requires Publishes(EndingOf(f, p, e, c)) && ReadRequestId(f.uuid, e) == Some(id)
    ensures IsReply(f, replyType, Publication(f, p, replyType, e, c).1, id)
    ensures Publication(f, p, replyType, e, c).1.correlationId == e.correlationId
  {
    PublishedReply(f, p, replyType, e, c);
  }

  lemma CarriedReplyResolves(f: Formats, replyType: Text, reply: Envelope, id: Uuid, leg: Leg,
                             received: Result<Envelope, BusError>, slots: Registry.Slots,
                             remembered: Option<Registry.SlotRetirement>)
    requires f.Lawful() && IsReply(f, replyType, reply, id) && Carries(f.uuid, leg, reply, received)
    requires id in slots && slots[id].replyType == replyType
    ensures received == Ok(OnTheWire(reply, leg.security))
    ensures Registry.VerdictOn(f, slots, remembered, received.value, true) == Registry.Deliver(id)
  {
    ReplyReachesItsCaller(f, leg.platform, replyType, reply, id, leg.limits, leg.security, leg.userId, leg.required,
                          leg.minted, leg.maxPayload, received);
    Registry.PublishedReplyResolvesItsCall(f, leg.platform, replyType, reply, id, leg.limits, leg.security, leg.userId,
                                           leg.required, leg.minted, leg.maxPayload, received, slots, remembered);
  }

  lemma OkReplyReads(f: Formats, replyType: Text, payload: ByteString, correlationId: Uuid, id: Uuid, stamp: Stamp,
                     security: Headers)
    requires f.Lawful() && security.Keys <= SECURITY_HEADERS
    ensures var answer := OnTheWire(OkReply(f, replyType, payload, correlationId, id, stamp), security);
            && IsOkAnswer(answer, replyType) && answer.payload == payload
            && forall found :: !IsErrorAnswer(f.error, answer, found)
  {
    StatusesDiffer();
    var answer := OnTheWire(OkReply(f, replyType, payload, correlationId, id, stamp), security);
    ReplyHeadersReadBack(f.uuid, REPLY_STATUS_OK, id, security, answer);
  }

  lemma ErrorReplyReads(f: Formats, category: RemoteErrorType, correlationId: Uuid, id: Uuid, stamp: Stamp,
                        security: Headers)
    requires f.Lawful() && security.Keys <= SECURITY_HEADERS
    ensures var answer := OnTheWire(ErrorReply(f, category, correlationId, id, stamp), security);
            && (forall replyType :: !IsOkAnswer(answer, replyType))
            && forall found :: IsErrorAnswer(f.error, answer, found) <==> found == ErrorPayload(category, id)
  {
    StatusesDiffer();
    var answer := OnTheWire(ErrorReply(f, category, correlationId, id, stamp), security);
    ReplyHeadersReadBack(f.uuid, REPLY_STATUS_ERROR, id, security, answer);
    assert f.error.parse(answer.payload) == Some(ErrorPayload(category, id));
  }

  /**
   What the caller finds in the reply to its request: the handler's own payload under status
   `ok` exactly when the handler produced one, and otherwise an error that names the request,
   in exactly the category of what went wrong.
   */
  ghost predicate Tells(f: Formats, p: Platform, replyType: Text, e: Envelope, c: Circumstances, id: Uuid,
                        answer: Envelope)
  {
    && (forall payload ::
          IsOkAnswer(answer, replyType) && answer.payload == payload
          <==> PastTheGuards(f, p, e, c) && c.handler == Produced(Some(payload)))
    && (forall found ::
          IsErrorAnswer(f.error, answer, found) <==> found.requestId == id && Fails(f, p, e, c, found.errorType))
  }

  lemma OneCategory(f: Formats, p: Platform, e: Envelope, c: Circumstances, a: RemoteErrorType, b: RemoteErrorType)
    requires Fails(f, p, e, c, a) && Fails(f, p, e, c, b)
    ensures a == b
    ensures !(PastTheGuards(f, p, e, c) && c.handler.Produced? && c.handler.payload.Some?)
  {
    if c.handler.Failed? {
      CategoryExactly(c.handler.error);
    }
  }

  lemma PublicationTells(f: Formats, p: Platform, replyType: Text, e: Envelope, c: Circumstances, id: Uuid,
                         security: Headers)
    requires f.Lawful() && security.Keys <= SECURITY_HEADERS
    requires Publishes(EndingOf(f, p, e, c)) && ReadRequestId(f.uuid, e) == Some(id)
    ensures Tells(f, p, replyType, e, c, id, OnTheWire(Publication(f, p, replyType, e, c).1, security))
  {
    PublicationExactly(f, p, replyType, e, c);
    if category :| Fails(f, p, e, c, category) {
      ErrorReplyReads(f, category, e.correlationId, id, c.stamp, security);
      forall other | Fails(f, p, e, c, other)
        ensures other == category
      {
        OneCategory(f, p, e, c, other, category);
      }
      OneCategory(f, p, e, c, category, category);
    } else {
      OkReplyReads(f, replyType, c.handler.payload.value, e.correlationId, id, c.stamp, security);
    }
  }

  /**
   Whatever a dispatch publishes for the request it received, once carried back, resolves the
   slot of that request, carries its correlation identifier, and tells how it went.
   */
  lemma ReplyAnswersItsRequest(f: Formats, p: Platform, replyType: Text, e: Envelope, c: Circumstances, id: Uuid,
                               leg: Leg, received: Result<Envelope, BusError>, slots: Registry.Slots,
                               remembered: Option<Registry.SlotRetirement>)
    requires f.Lawful() && Publishes(EndingOf(f, p, e, c)) && ReadRequestId(f.uuid, e) == Some(id)
    requires Carries(f.uuid, leg, Publication(f, p, replyType, e, c).1, received)
    requires id in slots && slots[id].replyType == replyType
    ensures received.Ok? && received.value.correlationId == e.correlationId
    ensures Tells(f, p, replyType, e, c, id, received.value)
    ensures Registry.VerdictOn(f, slots, remembered, received.value, true) == Registry.Deliver(id)
  {
    var reply := Publication(f, p, replyType, e, c).1;
    PublicationAnswers(f, p, replyType, e, c, id);
    PublicationTells(f, p, replyType, e, c, id, leg.security);
    CarriedReplyResolves(f, replyType, reply, id, leg, received, slots, remembered);
  }

  /** A reply whose inbox is gone is reported as a permanent failure, so its request is never retried. */
  lemma UndeliverableReplyIsNotRetried(f: Formats, p: Platform, e: Envelope, c: Circumstances, cfg: Worker.Config,
                                       d: Worker.Delivery)
    requires Publishes(EndingOf(f, p, e, c)) && c.publishResult == Err(Unroutable)
    ensures var report := ReportOf(EndingOf(f, p, e, c), c);
            && report == Err(ReplyUndeliverable)
            && var route := Worker.ManualRoute(cfg, f.uuid, d, e, Err(report.error));
               route.Via? ==> route.target.DeadLetterQueue?
  {
  }

  // ---- The request a client publishes ----

  /** What one call puts on the wire, and when. */
  datatype Call = Call(
    messageId: Uuid,
    messageType: Text,
    payload: ByteString,
    correlationId: Uuid,
    inbox: Text,
    requestId: Uuid,
    publishedAt: int,
    sent: int,
    timeout: nat)

  /** The deadline header, left out when the timeout lies beyond the horizon a responder enforces. */
  function DeadlineHeader(caller: Platform, call: Call): Option<Text> {
    match WithinHorizon(caller, call.sent, call.timeout)
    case Some(deadline) => Some(PrintInt(ToUnixMillis(deadline)))
    case None => None
  }

  function RequestHeaders(f: UuidFormat, requestId: Uuid, deadline: Option<Text>): Headers {
    var headers := map[REQUEST_ID_HEADER := f.render(requestId), PROTOCOL_VERSION_HEADER := PrintInt(PROTOCOL_VERSION)];
    if deadline.Some? then headers[DEADLINE_HEADER := deadline.value] else headers
  }

  function RequestEnvelope(f: UuidFormat, caller: Platform, call: Call): Envelope {
    Envelope(call.messageId, call.messageType, call.payload, call.correlationId, Some(call.inbox), map[],
             RequestHeaders(f, call.requestId, DeadlineHeader(caller, call)), call.publishedAt)
  }

  lemma RequestNames()
    ensures |REQUEST_ID_HEADER| == 21 && |PROTOCOL_VERSION_HEADER| == 27 && |DEADLINE_HEADER| == 19
    ensures IsReserved(REQUEST_ID_HEADER) && IsReserved(PROTOCOL_VERSION_HEADER) && IsReserved(DEADLINE_HEADER)
  {
    WireNamesAreCanonical();
    WireNameLengths();
  }

  lemma RequestNamesAreFree(security: Headers)
    requires security.Keys <= SECURITY_HEADERS
    ensures REQUEST_ID_HEADER !in security && PROTOCOL_VERSION_HEADER !in security && DEADLINE_HEADER !in security
  {
    WireNameLengths();
    DeadlineIsNotSecurity();
  }

  lemma DeadlineIsNotSecurity()
    ensures DEADLINE_HEADER !in SECURITY_HEADERS
  {
    assert |DEADLINE_HEADER| == 19 && |AUDIENCE_HEADER| == 19;
    assert |SIGNATURE_HEADER| == 20 && |ALGORITHM_HEADER| == 20 && |KEY_ID_HEADER| == 17 && |ISSUER_HEADER| == 17;
    assert |DESTINATION_HEADER| == 22;
    assert DEADLINE_HEADER[11] == 0x64 && AUDIENCE_HEADER[11] == 0x61;
  }

  /** The request's own headers read back, security headers added or not. */
  lemma RequestHeadersReadBack(f: UuidFormat, id: Uuid, deadline: Option<Text>, security: Headers, e: Envelope)
    requires f.Lawful() && security.Keys <= SECURITY_HEADERS
    requires e.protocolHeaders == RequestHeaders(f, id, deadline) + security
    ensures ReadRequestId(f, e) == Some(id) && ReadProtocolVersion(e) == Some(PROTOCOL_VERSION)
            && Header(e, DEADLINE_HEADER) == deadline
  {
    RequestNames();
    RequestNamesAreFree(security);
    IntRoundTrip(PROTOCOL_VERSION, 0, U32_MAX);
    var headers := RequestHeaders(f, id, deadline);
    assert e.protocolHeaders[REQUEST_ID_HEADER] == headers[REQUEST_ID_HEADER];
    assert e.protocolHeaders[PROTOCOL_VERSION_HEADER] == headers[PROTOCOL_VERSION_HEADER];
    assert deadline.Some? ==> e.protocolHeaders[DEADLINE_HEADER] == headers[DEADLINE_HEADER];
  }

  lemma RequestIsWellTyped(f: UuidFormat, caller: Platform, call: Call, security: Headers)
    requires f.Lawful() && Utf8Values(security) && security.Keys <= SECURITY_HEADERS
    ensures WellTyped(RequestEnvelope(f, caller, call), security)
    ensures CanonicalProtocol(RequestEnvelope(f, caller, call).protocolHeaders)
  {
    WireNamesAreCanonical();
    AsciiIsUtf8(f.render(call.requestId));
    AsciiIsUtf8(PrintInt(PROTOCOL_VERSION));
    var deadline := DeadlineHeader(caller, call);
    if deadline.Some? {
      AsciiIsUtf8(deadline.value);
    }
  }

  /** A request that is published and decoded arrives as it was sent. */
  lemma RequestArrives(f: UuidFormat, caller: Platform, call: Call, leg: Leg, received: Result<Envelope, BusError>)
    requires f.Lawful() && Carries(f, leg, RequestEnvelope(f, caller, call), received)
    ensures received == Ok(OnTheWire(RequestEnvelope(f, caller, call), leg.security))
  {
    var e := RequestEnvelope(f, caller, call);
    RequestIsWellTyped(f, caller, call, leg.security);
    RoundTrip(f, leg.platform, e, leg.limits, leg.security, leg.userId, leg.required, leg.minted, leg.maxPayload,
              received);
  }

  /** The instant a request's deadline names, to the millisecond. */
  function Due(caller: Platform, call: Call): int {
    ToUnixMillis(FromWallClock(caller, call.sent, call.timeout)) * NANOS_PER_MILLI
  }

  /** The deadline, if the request carries one, can be judged by the responder and has not run out. */
  predicate DeadlineOpen(caller: Platform, responder: Platform, call: Call, now: int) {
    call.timeout <= MAX_DEADLINE_HORIZON ==>
      && responder.Represents(Due(caller, call)) && responder.Represents(now + MAX_DEADLINE_HORIZON)
      && responder.Represents(Due(caller, call) + CLOCK_SKEW_TOLERANCE)
      && now <= Due(caller, call) + CLOCK_SKEW_TOLERANCE
  }

  /**
   A call's request, once carried to a responder whose clock is at or past the caller's,
   passes the identity and version guards always, and the deadline guard exactly while its
   deadline is open; so it reaches the handler exactly when, besides, the responder accepts
   the inbox and decodes the payload.
   */
  lemma RequestPassesGuards(f: Formats, caller: Platform, call: Call, leg: Leg, received: Result<Envelope, BusError>,
                            c: Circumstances)
    requires f.Lawful() && Carries(f.uuid, leg, RequestEnvelope(f.uuid, caller, call), received)
            && 0 <= call.sent <= c.wallClock
    ensures received.Ok? && ReadRequestId(f.uuid, received.value) == Some(call.requestId)
    ensures received.value.payload == call.payload && received.value.messageType == call.messageType
    ensures PastTheGuards(f, leg.platform, received.value, c)
            <==> && c.acceptsDestination(call.inbox)
                 && DeadlineOpen(caller, leg.platform, call, c.wallClock)
                 && c.payloadDecodes
  {
    var e := RequestEnvelope(f.uuid, caller, call);
    RequestArrives(f.uuid, caller, call, leg, received);
    RequestHeadersReadBack(f.uuid, call.requestId, DeadlineHeader(caller, call), leg.security, received.value);
    DeadlineGuard(leg.platform, caller, call, received.value, c);
  }

  lemma DeadlineGuard(responder: Platform, caller: Platform, call: Call, e: Envelope, c: Circumstances)
    requires Header(e, DEADLINE_HEADER) == DeadlineHeader(caller, call) && 0 <= call.sent <= c.wallClock
    ensures var reading := DeadlineOf(responder, e, c);
            reading.Absent? || reading.Live? <==> DeadlineOpen(caller, responder, call, c.wallClock)
  {
    if call.timeout <= MAX_DEADLINE_HORIZON {
      DeadlineAcrossProcesses(caller, responder, call.sent, call.timeout, c.wallClock, c.anchoredAt);
    }
  }

  /**
   The whole call. Its request arrives; whatever the responder publishes for it, once carried
   back, resolves the slot the caller waits on, under the caller's correlation identifier, and
   holds the payload the handler produced or the category of what went wrong.
   */
  lemma CallIsAnswered(f: Formats, caller: Platform, call: Call, out: Leg, received: Result<Envelope, BusError>,
                       c: Circumstances, replyType: Text, back: Leg, answer: Result<Envelope, BusError>,
                       slots: Registry.Slots, remembered: Option<Registry.SlotRetirement>)
    requires f.Lawful() && Carries(f.uuid, out, RequestEnvelope(f.uuid, caller, call), received) && received.Ok?
    requires Publishes(EndingOf(f, out.platform, received.value, c))
    requires Carries(f.uuid, back, Publication(f, out.platform, replyType, received.value, c).1, answer)
    requires call.requestId in slots && slots[call.requestId].replyType == replyType
    ensures Publication(f, out.platform, replyType, received.value, c).0 == call.inbox
    ensures answer.Ok? && answer.value.correlationId == call.correlationId
    ensures Tells(f, out.platform, replyType, received.value, c, call.requestId, answer.value)
    ensures Registry.VerdictOn(f, slots, remembered, answer.value, true) == Registry.Deliver(call.requestId)
  {
    RequestArrives(f.uuid, caller, call, out, received);
    RequestHeadersReadBack(f.uuid, call.requestId, DeadlineHeader(caller, call), out.security, received.value);
    ReplyAnswersItsRequest(f, out.platform, replyType, received.value, c, call.requestId, back, answer, slots,
                           remembered);
  }
}
