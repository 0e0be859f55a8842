/**
 The request-reply wire protocol: what a responder publishes (`replied_handler.rs`,
 `remote_error.rs`) and what a caller accepts (`reply_acceptance.rs`).
 */
module Replies {
  import opened Bytes
  import opened Envelopes
  import opened Amqp
  import opened Wire

  // ---- Error payloads ----

  datatype RemoteErrorType = InternalFailure | Malformed | Unavailable | Unsupported | ExpiredRequest

  function FromBusError(e: BusError): RemoteErrorType {
    match e
    case ReservedHeaderNamespace => Malformed
    case MetadataLimitExceeded(_, _, _) => Malformed
    case InvalidMetadata(_) => Malformed
    case Serialization => Malformed
    case TypeMismatch => Malformed
    case PayloadTooLarge(_, _) => Malformed
    case EnvelopeSecurity(_) => Malformed
    case Connection(_) => Unavailable
    case Transport => Unavailable
    case Unroutable => Unavailable
    case ReplyUndeliverable => Unavailable
    case _ => InternalFailure
  }

  predicate IsMalformed(e: BusError) {
    || e.ReservedHeaderNamespace? || e.MetadataLimitExceeded? || e.InvalidMetadata? || e.Serialization?
    || e.TypeMismatch? || e.PayloadTooLarge? || e.EnvelopeSecurity?
  }

  predicate IsUnavailable(e: BusError) {
    e.Connection? || e.Transport? || e.Unroutable? || e.ReplyUndeliverable?
  }

  predicate IsInternal(e: BusError) {
    e.Internal? || e.MissingHandler? || e.InvalidTopology? || e.ShutdownDrainTimedOut?
  }

  /** Three of the five categories stand for errors, and each error is in one of them. */
  lemma CategoryExactly(e: BusError)
    ensures FromBusError(e) == Malformed <==> IsMalformed(e)
    ensures FromBusError(e) == Unavailable <==> IsUnavailable(e)
    ensures FromBusError(e) == InternalFailure <==> IsInternal(e)
    ensures IsMalformed(e) || IsUnavailable(e) || IsInternal(e)
  {
  }

  datatype ErrorPayload = ErrorPayload(errorType: RemoteErrorType, requestId: Uuid)

  /** JSON rendering of the error payload, known through its law only. */
  datatype ErrorFormat = ErrorFormat(render: ErrorPayload -> ByteString, parse: ByteString -> Option<ErrorPayload>) {
    ghost predicate Lawful() {
      forall p: ErrorPayload :: parse(render(p)) == Some(p)
    }
  }

  datatype Formats = Formats(uuid: UuidFormat, error: ErrorFormat) {
    ghost predicate Lawful() {
      uuid.Lawful() && error.Lawful()
    }
  }

  // ---- Reading protocol headers ----

  function ReadProtocolVersion(e: Envelope): Option<int> {
    match Header(e, PROTOCOL_VERSION_HEADER)
    case None => None
    case Some(text) => ParseInt(text, 0, U32_MAX)
  }

  /** The request identity, absent when the header is missing or does not parse. */
  function ReadRequestId(f: UuidFormat, e: Envelope): Option<Uuid> {
    match Header(e, REQUEST_ID_HEADER)
    case None => None
    case Some(text) => f.parse(text)
  }

  // ---- What a caller accepts ----

  datatype Rejection =
    | MissingVersion | UnsupportedVersion(version: int) | MissingStatus | UnknownStatus | UnexpectedType
    | Unauthenticated | UndecodableErrorPayload | IdentityMismatch

  function Accepts(replyType: Text, e: Envelope): Result<(), Rejection> {
    match ReadProtocolVersion(e)
    case None => Err(MissingVersion)
    case Some(version) =>
      if version != PROTOCOL_VERSION then Err(UnsupportedVersion(version))
      else
        match Header(e, REPLY_STATUS_HEADER)
        case None => Err(MissingStatus)
        case Some(status) =>
          if status == REPLY_STATUS_OK then (if e.messageType == replyType then Ok(()) else Err(UnexpectedType))
          else if status == REPLY_STATUS_ERROR
              then (if e.messageType == REPLY_ERROR_MESSAGE_TYPE then Ok(()) else Err(UnexpectedType))
          else Err(UnknownStatus)
  }

  function AcceptsErrorIdentity(f: ErrorFormat, e: Envelope, expected: Uuid): Result<(), Rejection> {
    if Header(e, REPLY_STATUS_HEADER) != Some(REPLY_STATUS_ERROR) then Ok(())
    else
      match f.parse(e.payload)
      case None => Err(UndecodableErrorPayload)
      case Some(payload) => if payload.requestId == expected then Ok(()) else Err(IdentityMismatch)
  }

  /** The gate in front of a pending slot: shape first, then the identity of an error payload. */
  function Judge(f: Formats, replyType: Text, e: Envelope, expected: Uuid): Result<(), Rejection> {
    var shape := Accepts(replyType, e);
    if shape.Err? then shape else AcceptsErrorIdentity(f.error, e, expected)
  }

  predicate AnnouncesVersion(e: Envelope, version: int) {
    match Header(e, PROTOCOL_VERSION_HEADER)
    case None => false
    case Some(text) => ParseInt(text, 0, U32_MAX) == Some(version)
  }

  /** A nominal reply: status `ok` under the type the caller awaits. */
  predicate IsOkAnswer(e: Envelope, replyType: Text) {
    Header(e, REPLY_STATUS_HEADER) == Some(REPLY_STATUS_OK) && e.messageType == replyType
  }

  /** An error reply whose payload can be read. */
  predicate IsErrorAnswer(f: ErrorFormat, e: Envelope, payload: ErrorPayload) {
    && Header(e, REPLY_STATUS_HEADER) == Some(REPLY_STATUS_ERROR) && e.messageType == REPLY_ERROR_MESSAGE_TYPE
    && f.parse(e.payload) == Some(payload)
  }

  /** A reply a caller may take, in the version spoken: nominal of the awaited type, or an error naming the call. */
  predicate Acceptable(f: Formats, replyType: Text, e: Envelope, expected: Uuid) {
    && AnnouncesVersion(e, 1)
    && (IsOkAnswer(e, replyType) || NamesCall(f.error, e, expected))
  }

  predicate NamesCall(f: ErrorFormat, e: Envelope, expected: Uuid) {
    var payload := f.parse(e.payload);
    payload.Some? && IsErrorAnswer(f, e, payload.value) && payload.value.requestId == expected
  }

  /** The rule a refusal names. */
  predicate Breaks(f: Formats, replyType: Text, e: Envelope, expected: Uuid, rejection: Rejection) {
    var status := Header(e, REPLY_STATUS_HEADER);
    var isError := status == Some(REPLY_STATUS_ERROR);
    var known := isError || status == Some(REPLY_STATUS_OK);
    var awaited := if isError then REPLY_ERROR_MESSAGE_TYPE else replyType;
    match rejection
    case MissingVersion => ReadProtocolVersion(e).None?
    case UnsupportedVersion(version) => AnnouncesVersion(e, version) && version != 1
    case MissingStatus => AnnouncesVersion(e, 1) && status.None?
    case UnknownStatus => AnnouncesVersion(e, 1) && status.Some? && !known
    case UnexpectedType => AnnouncesVersion(e, 1) && known && e.messageType != awaited
    case UndecodableErrorPayload =>
      AnnouncesVersion(e, 1) && isError && e.messageType == awaited && f.error.parse(e.payload).None?
    case IdentityMismatch =>
      && AnnouncesVersion(e, 1) && isError && e.messageType == awaited && f.error.parse(e.payload).Some?
      && f.error.parse(e.payload).value.requestId != expected
    case Unauthenticated => false
  }

  /** The gate lets through exactly the acceptable replies, and refuses any other for a rule it breaks. */
  lemma GateExactly(f: Formats, replyType: Text, e: Envelope, expected: Uuid)
    ensures Judge(f, replyType, e, expected).Ok? <==> Acceptable(f, replyType, e, expected)
    ensures Judge(f, replyType, e, expected).Err?
            ==> Breaks(f, replyType, e, expected, Judge(f, replyType, e, expected).error)
  {
    StatusesDiffer();
  }

  // ---- What a responder publishes ----

  /** Values a responder reads off its environment when it builds a reply. */
  datatype Stamp = Stamp(messageId: Uuid, publishedAt: int)

  function ReplyHeaders(f: UuidFormat, status: Text, requestId: Uuid): Headers {
    map[REPLY_STATUS_HEADER := status, REQUEST_ID_HEADER := f.render(requestId),
        PROTOCOL_VERSION_HEADER := PrintInt(PROTOCOL_VERSION)]
  }

  function ErrorReply(f: Formats, category: RemoteErrorType, correlationId: Uuid, requestId: Uuid,
                      stamp: Stamp): Envelope {
    Envelope(stamp.messageId, REPLY_ERROR_MESSAGE_TYPE, f.error.render(ErrorPayload(category, requestId)),
             correlationId, None, map[], ReplyHeaders(f.uuid, REPLY_STATUS_ERROR, requestId), stamp.publishedAt)
  }

  function OkReply(f: Formats, replyType: Text, payload: ByteString, correlationId: Uuid, requestId: Uuid,
                   stamp: Stamp): Envelope {
    Envelope(stamp.messageId, replyType, payload, correlationId, None, map[],
             ReplyHeaders(f.uuid, REPLY_STATUS_OK, requestId), stamp.publishedAt)
  }

  /** A reply to `requestId` in one of the two shapes a responder can build. */
  ghost predicate IsReply(f: Formats, replyType: Text, e: Envelope, requestId: Uuid) {
    || (exists payload: ByteString, c: Uuid, s: Stamp :: e == OkReply(f, replyType, payload, c, requestId, s))
    || (exists category: RemoteErrorType, c: Uuid, s: Stamp :: e == ErrorReply(f, category, c, requestId, s))
  }

  lemma StatusesDiffer()
    ensures REPLY_STATUS_OK != REPLY_STATUS_ERROR
  {
    assert |REPLY_STATUS_OK| == 2 && |REPLY_STATUS_ERROR| == 5;
  }

  /** The three headers of a reply read back unchanged, security headers added or not. */
  lemma ReplyHeadersReadBack(f: UuidFormat, status: Text, requestId: Uuid, security: Headers, e: Envelope)
    requires f.Lawful() && security.Keys <= SECURITY_HEADERS
    requires e.protocolHeaders == ReplyHeaders(f, status, requestId) + security
    ensures Header(e, REPLY_STATUS_HEADER) == Some(status)
    ensures ReadRequestId(f, e) == Some(requestId)
    ensures ReadProtocolVersion(e) == Some(PROTOCOL_VERSION)
  {
    ReplyNamesAreFree(security);
    var headers := ReplyHeaders(f, status, requestId);
    ReplyHeaderValues(f, status, requestId);
    assert e.protocolHeaders[REPLY_STATUS_HEADER] == headers[REPLY_STATUS_HEADER];
    assert e.protocolHeaders[REQUEST_ID_HEADER] == headers[REQUEST_ID_HEADER];
    assert e.protocolHeaders[PROTOCOL_VERSION_HEADER] == headers[PROTOCOL_VERSION_HEADER];
    IntRoundTrip(PROTOCOL_VERSION, 0, U32_MAX);
  }

  /** The reply's own header names are reserved and are not security headers. */
  lemma ReplyNamesAreFree(security: Headers)
    requires security.Keys <= SECURITY_HEADERS
    ensures IsReserved(REPLY_STATUS_HEADER) && IsReserved(REQUEST_ID_HEADER) && IsReserved(PROTOCOL_VERSION_HEADER)
    ensures REPLY_STATUS_HEADER !in security && REQUEST_ID_HEADER !in security && PROTOCOL_VERSION_HEADER !in security
  {
    WireNamesAreCanonical();
    WireNameLengths();
  }

  lemma ReplyHeaderValues(f: UuidFormat, status: Text, requestId: Uuid)
    ensures var headers := ReplyHeaders(f, status, requestId);
            && REPLY_STATUS_HEADER in headers && headers[REPLY_STATUS_HEADER] == status
            && REQUEST_ID_HEADER in headers && headers[REQUEST_ID_HEADER] == f.render(requestId)
            && PROTOCOL_VERSION_HEADER in headers && headers[PROTOCOL_VERSION_HEADER] == PrintInt(PROTOCOL_VERSION)
  {
    WireNameLengths();
  }

  lemma ReplyHeadersWellFormed(f: UuidFormat, status: Text, requestId: Uuid)
    requires f.Lawful() && AllAscii(status)
    ensures CanonicalProtocol(ReplyHeaders(f, status, requestId)) && Utf8Values(ReplyHeaders(f, status, requestId))
  {
    WireNamesAreCanonical();
    AsciiIsUtf8(status);
    AsciiIsUtf8(f.render(requestId));
    AsciiIsUtf8(PrintInt(PROTOCOL_VERSION));
  }

  /** A reply passes the gate of the call it answers, as published and as received. */
  lemma ReplyPassesGate(f: Formats, replyType: Text, e: Envelope, requestId: Uuid, security: Headers)
    requires f.Lawful() && IsReply(f, replyType, e, requestId) && security.Keys <= SECURITY_HEADERS
    ensures Judge(f, replyType, OnTheWire(e, security), requestId).Ok?
    ensures ReadRequestId(f.uuid, OnTheWire(e, security)) == Some(requestId)
  {
    StatusesDiffer();
    if category: RemoteErrorType, c: Uuid, s: Stamp :| e == ErrorReply(f, category, c, requestId, s) {
      ReplyHeadersReadBack(f.uuid, REPLY_STATUS_ERROR, requestId, security, OnTheWire(e, security));
      assert f.error.parse(e.payload) == Some(ErrorPayload(category, requestId));
    } else {
      var payload: ByteString, c: Uuid, s: Stamp :| e == OkReply(f, replyType, payload, c, requestId, s);
      ReplyHeadersReadBack(f.uuid, REPLY_STATUS_OK, requestId, security, OnTheWire(e, security));
    }
  }

  lemma ReplyIsWellTyped(f: Formats, replyType: Text, e: Envelope, requestId: Uuid, security: Headers)
    requires f.Lawful() && IsReply(f, replyType, e, requestId)
    requires Utf8Values(security) && security.Keys <= SECURITY_HEADERS
    ensures WellTyped(e, security) && CanonicalProtocol(e.protocolHeaders)
  {
    ReplyHeadersWellFormed(f.uuid, REPLY_STATUS_ERROR, requestId);
    ReplyHeadersWellFormed(f.uuid, REPLY_STATUS_OK, requestId);
  }

  /**
   End-to-end reply compatibility. A reply that leaves the responder, signed or not, and
   reaches an inbox decoding under the same limits is decoded, names the request it
   answers, and passes the caller's gate.
   */
  lemma ReplyReachesItsCaller(f: Formats, p: Platform, replyType: Text, e: Envelope, requestId: Uuid,
                              limits: MetadataLimits, security: Headers, userId: Option<Text>,
                              required: RequiredFields, minted: Minted, maxPayload: nat,
                              received: Result<Envelope, BusError>)
    requires f.Lawful() && p.HasEpoch() && p.Represents(e.publishedAt)
    requires IsReply(f, replyType, e, requestId) && Utf8Values(security) && security.Keys <= SECURITY_HEADERS
    requires CanPublish(e, limits, security, userId) && |e.payload| <= maxPayload
    requires DecodesTo(f.uuid, p, PropertiesOf(f.uuid, e, security, userId), e.payload, maxPayload, limits, required,
                       minted, received)
    ensures received.Ok? && ReadRequestId(f.uuid, received.value) == Some(requestId)
    ensures Judge(f, replyType, received.value, requestId).Ok?
    ensures received == Ok(OnTheWire(e, security))
  {
    ReplyIsWellTyped(f, replyType, e, requestId, security);
    RoundTrip(f.uuid, p, e, limits, security, userId, required, minted, maxPayload, received);
    ReplyPassesGate(f, replyType, e, requestId, security);
  }
}
