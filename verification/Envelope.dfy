/**
 The bus envelope, its reserved header namespace and the bus error taxonomy
 (`hexeract-bus`: `envelope.rs`, `rpc_protocol.rs`, `error.rs`, `envelope_security/protocol.rs`).
 */
module Envelopes {
  import opened Bytes

  type Headers = map<Text, Text>

  /** `publishedAt` counts nanoseconds since the Unix epoch and may be negative. */
  datatype Envelope = Envelope(
    messageId: Uuid,
    messageType: Text,
    payload: ByteString,
    correlationId: Uuid,
    replyTo: Option<Text>,
    headers: Headers,
    protocolHeaders: Headers,
    publishedAt: int)

  // ---- Reserved namespace ----

  const RESERVED_HEADER_PREFIX := Ascii("x-hexeract-")

  predicate IsReserved(key: ByteString) {
    |key| >= |RESERVED_HEADER_PREFIX|
    && forall i :: 0 <= i < |RESERVED_HEADER_PREFIX| ==> Lowercase(key[i]) == RESERVED_HEADER_PREFIX[i]
  }

  /** A reserved name in the only spelling a decoder accepts. */
  predicate CanonicalReserved(key: ByteString) {
    IsReserved(key) && !HasUppercase(key)
  }

  /** A key spelled in lower case. */
  function Lowered(key: ByteString): (t: ByteString)
    ensures |t| == |key|
  {
    seq(|key|, i requires 0 <= i < |key| => Lowercase(key[i]))
  }

  /**
   A key is reserved in whatever case it is spelled, and its one accepted spelling is the one
   without capitals.
   */
  lemma ReservedExactly(key: ByteString)
    ensures IsReserved(key) <==> RESERVED_HEADER_PREFIX <= Lowered(key)
    ensures IsReserved(key) <==> IsReserved(Lowered(key))
    ensures CanonicalReserved(key) <==> IsReserved(key) && Lowered(key) == key
  {
    var low := Lowered(key);
    assert forall i :: 0 <= i < |key| ==> low[i] == Lowercase(key[i]) && Lowercase(low[i]) == low[i];
    if IsReserved(key) {
      assert low[..|RESERVED_HEADER_PREFIX|] == RESERVED_HEADER_PREFIX;
    }
    if low == key {
      assert forall i :: 0 <= i < |key| ==> Lowercase(key[i]) == key[i];
    }
  }

  predicate LowercaseLiteral(s: string) {
    forall i :: 0 <= i < |s| ==> s[i] < '\U{80}' && !('A' <= s[i] <= 'Z')
  }

  /** A framework header name: the reserved prefix and a lowercase suffix. */
  function ReservedName(suffix: string): (key: Text)
    requires LowercaseLiteral(suffix)
    ensures CanonicalReserved(key) && |key| == |RESERVED_HEADER_PREFIX| + |suffix|
  {
    var prefix := "x-hexeract-";
    assert LowercaseLiteral(prefix);
    assert LowercaseLiteral(prefix + suffix);
    Ascii(prefix + suffix)
  }

  const PROTOCOL_VERSION_HEADER := ReservedName("protocol-version")
  const REQUEST_ID_HEADER := ReservedName("request-id")
  const REPLY_STATUS_HEADER := ReservedName("reply-status")
  const DEADLINE_HEADER := ReservedName("deadline")

  const SIGNATURE_HEADER := ReservedName("signature")
  const KEY_ID_HEADER := ReservedName("key-id")
  const ISSUER_HEADER := ReservedName("issuer")
  const AUDIENCE_HEADER := ReservedName("audience")
  const ALGORITHM_HEADER := ReservedName("algorithm")
  const DESTINATION_HEADER := ReservedName("destination")

  /** The six headers a signature adds to the wire. */
  const SECURITY_HEADERS: set<Text> :=
    {SIGNATURE_HEADER, KEY_ID_HEADER, ISSUER_HEADER, AUDIENCE_HEADER, ALGORITHM_HEADER, DESTINATION_HEADER}

  const REPLY_STATUS_OK := Ascii("ok")
  const REPLY_STATUS_ERROR := Ascii("error")
  const REPLY_ERROR_MESSAGE_TYPE := Ascii("hexeract.rpc.error")
  const PROTOCOL_VERSION := 1

  lemma WireNamesAreCanonical()
    ensures forall k :: k in SECURITY_HEADERS ==> CanonicalReserved(k)
    ensures CanonicalReserved(PROTOCOL_VERSION_HEADER) && CanonicalReserved(REQUEST_ID_HEADER)
    ensures CanonicalReserved(REPLY_STATUS_HEADER) && CanonicalReserved(DEADLINE_HEADER)
  {
  }

  lemma WireNameLengths()
    ensures |PROTOCOL_VERSION_HEADER| == 27 && |REQUEST_ID_HEADER| == 21 && |REPLY_STATUS_HEADER| == 23
    ensures forall k :: k in SECURITY_HEADERS ==> 17 <= |k| <= 22 && |k| != 21
  {
  }

  /** What the Rust type of a header map guarantees about its values. */
  predicate Utf8Values(headers: Headers) {
    forall k :: k in headers ==> ValidUtf8(headers[k])
  }

  /** The protocol map an envelope built by the framework, or decoded by a transport, carries. */
  predicate CanonicalProtocol(headers: Headers) {
    forall k :: k in headers ==> CanonicalReserved(k)
  }

  /** `BusEnvelope::header`: a reserved name is looked up in the protocol map only. */
  function Header(e: Envelope, key: Text): (value: Option<Text>)
  {
    var headers := if IsReserved(key) then e.protocolHeaders else e.headers;
    if key in headers then Some(headers[key]) else None
  }

  // ---- Errors ----

  datatype MetadataLimit = HeaderCount | KeyBytes | ValueBytes | TotalBytes

  datatype InvalidMetadataReason = NonUtf8LongString | NonCanonicalReservedHeader

  datatype CoveredField = MessageIdField | CorrelationIdField | PublishedAtField

  datatype SecurityFault =
    | MissingRequiredField(field: CoveredField)
    | MalformedRequiredField(field: CoveredField)
    | MissingSignature
    | MalformedSecurityHeader(header: Text)
    | UnsupportedAlgorithm
    | DestinationMismatch
    | AudienceMismatch
    | KeyRefused
    | SignatureMismatch
    | BrokerUserMismatch
    | FieldTooLarge

  datatype BusError =
    | ReservedHeaderNamespace
    | MetadataLimitExceeded(limit: MetadataLimit, actual: nat, max: nat)
    | InvalidMetadata(reason: InvalidMetadataReason)
    | Serialization
    | Transport
    | Connection(retryable: bool)
    | Unroutable
    | ReplyUndeliverable
    | ShutdownDrainTimedOut
    | MissingHandler
    | TypeMismatch
    | PayloadTooLarge(size: nat, limit_: nat)
    | InvalidTopology
    | Internal
    | EnvelopeSecurity(fault: SecurityFault)

  predicate IsPermanentDeliveryFailure(e: BusError) {
    e.MissingHandler? || e.ReplyUndeliverable?
  }

  function IsRetryableConnection(e: BusError): Option<bool> {
    if e.Connection? then Some(e.retryable) else None
  }
}
