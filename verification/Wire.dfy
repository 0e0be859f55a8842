/**
 From an envelope to AMQP properties and back (`transport.rs`, `worker.rs`), and the
 round trip the two make together.
 */
module Wire {
  import opened Bytes
  import opened Envelopes
  import opened Amqp
  import opened Metadata

  /** `Uuid`'s `Display` and `parse_str`, known through their law only. */
  datatype UuidFormat = UuidFormat(render: Uuid -> Text, parse: Text -> Option<Uuid>) {
    ghost predicate Lawful() {
      forall u: Uuid :: parse(render(u)) == Some(u) && AllAscii(render(u)) && |render(u)| <= SHORT_STRING_MAX
    }
  }

  const NANOS_PER_SECOND := 1_000_000_000

  /** The instants a platform's `SystemTime` can represent, in nanoseconds since the epoch. */
  datatype Platform = Platform(earliest: int, latest: int) {
    predicate Represents(t: int) {
      earliest <= t <= latest
    }

    predicate HasEpoch() {
      Represents(0)
    }
  }

  // ---- envelope_to_properties ----

  const JSON_CONTENT_TYPE := Ascii("application/json")

  /** Whole seconds since the epoch; an instant before it is written as the epoch. */
  function EpochSeconds(t: int): (secs: nat)
    ensures 0 <= t ==> secs * NANOS_PER_SECOND <= t < (secs + 1) * NANOS_PER_SECOND
    ensures t < 0 ==> secs == 0
  {
    if t < 0 then 0 else t / NANOS_PER_SECOND
  }

  predicate ShortText(t: Option<Text>) {
    t.Some? ==> |t.value| <= SHORT_STRING_MAX
  }

  ghost predicate CanPublish(e: Envelope, limits: MetadataLimits, security: Headers, userId: Option<Text>) {
    && OutboundRefusal(e, limits, security).None?
    && |e.messageType| <= SHORT_STRING_MAX
    && ShortText(e.replyTo)
    && ShortText(userId)
  }

  function PropertiesOf(f: UuidFormat, e: Envelope, security: Headers, userId: Option<Text>): Properties {
    Properties(
      contentType := Some(JSON_CONTENT_TYPE),
      headers := Some(LongStrings(e.headers + e.protocolHeaders + security)),
      deliveryMode := Some(2),
      correlationId := Some(f.render(e.correlationId)),
      replyTo := e.replyTo,
      messageId := Some(f.render(e.messageId)),
      timestamp := Some(EpochSeconds(e.publishedAt)),
      kind := Some(e.messageType),
      userId := userId)
  }

  method EnvelopeToProperties(f: UuidFormat, e: Envelope, limits: MetadataLimits, security: Headers,
                              userId: Option<Text>,
                              app: Stream, protocol: Stream, sec: Stream)
    returns (r: Result<Properties, BusError>)
    requires UsizeLimits(limits)
    requires Enumerates(app, e.headers) && Enumerates(protocol, e.protocolHeaders) && Enumerates(sec, security)
    ensures r.Ok? <==> CanPublish(e, limits, security, userId)
    ensures r.Ok? ==> r.value == PropertiesOf(f, e, security, userId)
    ensures r.Ok? ==> r.value.deliveryMode == Some(2) && r.value.contentType == Some(JSON_CONTENT_TYPE)
                      && r.value.userId == userId
    ensures OutboundRefusal(e, limits, security).Some?
            ==> r.Err? && Reported(r.error) == OutboundRefusal(e, limits, security)
    ensures r.Err? && OutboundRefusal(e, limits, security).None? ==> r.error == InvalidTopology
  {
    var amqpHeaders := EncodeHeaders(e, limits, security, app, protocol, sec);
    if amqpHeaders.Err? {
      return Err(amqpHeaders.error);
    }
    if |e.messageType| > SHORT_STRING_MAX {
      return Err(InvalidTopology);
    }
    var properties := Properties(Some(JSON_CONTENT_TYPE), Some(amqpHeaders.value), Some(2),
                                 Some(f.render(e.correlationId)), None, Some(f.render(e.messageId)),
                                 Some(EpochSeconds(e.publishedAt)), Some(e.messageType), None);
    if e.replyTo.Some? {
      if |e.replyTo.value| > SHORT_STRING_MAX {
        return Err(InvalidTopology);
      }
      properties := properties.(replyTo := e.replyTo);
    }
    if userId.Some? {
      if |userId.value| > SHORT_STRING_MAX {
        return Err(InvalidTopology);
      }
      properties := properties.(userId := userId);
    }
    return Ok(properties);
  }

  // ---- delivery_to_envelope ----

  datatype RequiredFields = Lenient | Strict

  /** Values a lenient decode may invent: two fresh UUIDs and the current time. */
  datatype Minted = Minted(messageId: Uuid, correlationId: Uuid, now: int)

  /** One identifier property: parsed, minted, or refused when `strict`. */
  function Identifier(f: UuidFormat, raw: Option<Text>, strict: bool, minted: Uuid,
                      field: CoveredField): Result<Uuid, BusError>
  {
    match raw
    case None => if strict then Err(EnvelopeSecurity(MissingRequiredField(field))) else Ok(minted)
    case Some(text) =>
      match f.parse(text)
      case Some(id) => Ok(id)
      case None => if strict then Err(EnvelopeSecurity(MalformedRequiredField(field))) else Ok(minted)
  }

  function PublishedAt(p: Platform, raw: Option<nat>, strict: bool, now: int): Result<int, BusError> {
    match raw
    case Some(secs) =>
      if p.Represents(secs * NANOS_PER_SECOND) then Ok(secs * NANOS_PER_SECOND)
      else Err(EnvelopeSecurity(MalformedRequiredField(PublishedAtField)))
    case None => if strict then Err(EnvelopeSecurity(MissingRequiredField(PublishedAtField))) else Ok(now)
  }

  /** Rebuild the envelope once the field table has been decoded into its two maps. */
  function Restore(f: UuidFormat, p: Platform, props: Properties, payload: ByteString, required: RequiredFields,
                   minted: Minted,
                   headers: (Headers, Headers)): Result<Envelope, BusError>
  {
    var strict := SIGNATURE_HEADER in headers.1 || required.Strict?;
    var messageId := Identifier(f, props.messageId, strict, minted.messageId, MessageIdField);
    if messageId.Err? then Err(messageId.error) else
    var correlationId := Identifier(f, props.correlationId, strict, minted.correlationId, CorrelationIdField);
    if correlationId.Err? then Err(correlationId.error) else
    if props.kind.None? then Err(InvalidTopology) else
    var publishedAt := PublishedAt(p, props.timestamp, strict, minted.now);
    if publishedAt.Err? then Err(publishedAt.error) else
    Ok(Envelope(messageId.value, props.kind.value, payload, correlationId.value, props.replyTo, headers.0, headers.1,
                publishedAt.value))
  }

  function TableOf(props: Properties): FieldTable {
    if props.headers.Some? then props.headers.value else map[]
  }

  ghost predicate MetadataAccepted(props: Properties, limits: MetadataLimits) {
    var t := TableOf(props);
    props.headers.Some? ==> InboundFits(t, limits) && forall k :: k in t ==> Readable(k, t[k])
  }

  /** What `delivery_to_envelope` may return: exact on success, a real violation on a metadata refusal. */
  ghost predicate DecodesTo(f: UuidFormat, p: Platform, props: Properties, payload: ByteString, maxPayload: nat,
                            limits: MetadataLimits,
                            required: RequiredFields, minted: Minted, r: Result<Envelope, BusError>)
  {
    var t := TableOf(props);
    if |payload| > maxPayload then r == Err(PayloadTooLarge(|payload|, maxPayload))
    else if !MetadataAccepted(props, limits) then r.Err? && InboundFault(t, limits, r.error)
    else r == Restore(f, p, props, payload, required, minted, (StringHeaders(t, false), StringHeaders(t, true)))
  }

  method DeliveryToEnvelope(f: UuidFormat, p: Platform, props: Properties, payload: ByteString, maxPayload: nat,
                            limits: MetadataLimits,
                            required: RequiredFields, minted: Minted)
    returns (r: Result<Envelope, BusError>)
    requires UsizeLimits(limits)
    ensures DecodesTo(f, p, props, payload, maxPayload, limits, required, minted, r)
  {
    if |payload| > maxPayload {
      return Err(PayloadTooLarge(|payload|, maxPayload));
    }
    var headers: (Headers, Headers) := (map[], map[]);
    if props.headers.Some? {
      var decoded := DecodeHeaders(props.headers.value, limits);
      if decoded.Err? {
        return Err(decoded.error);
      }
      headers := decoded.value;
    }
    return Restore(f, p, props, payload, required, minted, headers);
  }

  // ---- Round trip ----

  /** The envelope as a consumer sees it: security headers join the protocol map, the instant loses its fraction. */
  function OnTheWire(e: Envelope, security: Headers): Envelope {
    e.(protocolHeaders := e.protocolHeaders + security, publishedAt := EpochSeconds(e.publishedAt) * NANOS_PER_SECOND)
  }

  /** What the Rust types, and the signer, guarantee about an outbound envelope. */
  ghost predicate WellTyped(e: Envelope, security: Headers) {
    && Utf8Values(e.headers) && Utf8Values(e.protocolHeaders) && Utf8Values(security)
    && security.Keys <= SECURITY_HEADERS
  }

  /** An envelope without headers is publishable under any limits, its short strings being short. */
  lemma PlainEnvelopePublishes(e: Envelope, limits: MetadataLimits, userId: Option<Text>)
    requires e.headers == map[] && e.protocolHeaders == map[]
    ensures WellTyped(e, map[]) && CanonicalProtocol(e.protocolHeaders)
    ensures CanPublish(e, limits, map[], userId)
            <==> |e.messageType| <= SHORT_STRING_MAX && ShortText(e.replyTo) && ShortText(userId)
  {
    var none: Headers := map[];
    assert HeaderBytes(none) == 0;
    assert KeysWithin(none, limits.maxKeyBytes) && ValuesWithin(none, limits.maxValueBytes)
        && KeysWithin(none, SHORT_STRING_MAX);
  }

  /** Merging two maps never weighs more than the two apart. */
  lemma UnionBytes(h: Headers, g: Headers)
    ensures HeaderBytes(h + g) <= HeaderBytes(h) + HeaderBytes(g)
  {
    var own := h.Keys - g.Keys;
    assert (h + g).Keys - g.Keys == own;
    BytesOverSplit(h + g, (h + g).Keys, g.Keys);
    BytesOverAgree(h + g, g, g.Keys);
    BytesOverAgree(h + g, h, own);
    BytesOverSplit(h, h.Keys, own);
  }

  lemma UnionSize(h: Headers, g: Headers)
    ensures |h + g| <= |h| + |g|
  {
    assert (h + g).Keys == h.Keys + g.Keys;
    assert |h.Keys + g.Keys| <= |h.Keys| + |g.Keys|;
  }

  lemma LongStringEntry(h: Headers, keys: set<Text>, k: Text)
    requires k in keys && keys <= h.Keys
    ensures EntriesWeight(Table(LongStrings(h)), keys) - EntriesWeight(Table(LongStrings(h)), keys - {k})
         == BytesOver(h, keys) - BytesOver(h, keys - {k})
  {
    EntriesWeightRemove(Table(LongStrings(h)), keys, k);
    BytesOverRemove(h, keys, k);
    assert Table(LongStrings(h)).fields[k] == LongString(h[k]);
  }

  lemma {:induction false} LongStringWeight(h: Headers, keys: set<Text>)
    requires keys <= h.Keys
    ensures EntriesWeight(Table(LongStrings(h)), keys) == BytesOver(h, keys)
    decreases |keys|
  {
    if keys != {} {
      var k :| k in keys;
      LongStringEntry(h, keys, k);
      LongStringWeight(h, keys - {k});
    }
  }

  lemma EncodedSize(e: Envelope, security: Headers)
    ensures |LongStrings(e.headers + e.protocolHeaders + security)| <= |e.headers| + |e.protocolHeaders| + |security|
  {
    var all := e.headers + e.protocolHeaders + security;
    UnionSize(e.headers, e.protocolHeaders);
    UnionSize(e.headers + e.protocolHeaders, security);
    assert |LongStrings(all).Keys| == |all.Keys|;
  }

  lemma EncodedWeight(e: Envelope, security: Headers)
    ensures TableWeight(LongStrings(e.headers + e.protocolHeaders + security)) <= OutboundBytes(e, security)
  {
    var all := e.headers + e.protocolHeaders + security;
    UnionBytes(e.headers, e.protocolHeaders);
    UnionBytes(e.headers + e.protocolHeaders, security);
    LongStringWeight(all, all.Keys);
  }

  lemma EncodedEntries(e: Envelope, security: Headers, max: nat)
    ensures KeysWithin(e.headers, max) && KeysWithin(e.protocolHeaders, max) && KeysWithin(security, max)
            ==> KeysWithin(e.headers + e.protocolHeaders + security, max)
    ensures ValuesWithin(e.headers, max) && ValuesWithin(e.protocolHeaders, max) && ValuesWithin(security, max)
            ==> ValuesWithin(e.headers + e.protocolHeaders + security, max)
  {
  }

  /** Whatever `encode_headers` lets out under some limits, `decode_headers` lets in under the same ones. */
  lemma OutboundFitsInbound(e: Envelope, limits: MetadataLimits, security: Headers)
    requires OutboundRefusal(e, limits, security).None?
    ensures InboundFits(LongStrings(e.headers + e.protocolHeaders + security), limits)
  {
    EncodedSize(e, security);
    EncodedWeight(e, security);
    SaturateMonotone(TableWeight(LongStrings(e.headers + e.protocolHeaders + security)), OutboundBytes(e, security));
    EncodedEntries(e, security, limits.maxKeyBytes);
    EncodedEntries(e, security, limits.maxValueBytes);
    FittingStrings(e.headers + e.protocolHeaders + security, limits);
  }

  lemma SaturateMonotone(a: nat, b: nat)
    requires a <= b
    ensures Saturate(a) <= Saturate(b)
  {
  }

  lemma FittingStrings(h: Headers, limits: MetadataLimits)
    requires |LongStrings(h)| <= limits.maxHeaders && Saturate(TableWeight(LongStrings(h))) <= limits.maxTotalBytes
    requires KeysWithin(h, limits.maxKeyBytes) && ValuesWithin(h, limits.maxValueBytes)
    ensures InboundFits(LongStrings(h), limits)
  {
  }

  /** The reserved boundary splits the merged table back into the two maps it came from. */
  lemma StringHeadersSplit(h: Headers, g: Headers)
    requires NoReservedKey(h) && forall k :: k in g ==> IsReserved(k)
    ensures StringHeaders(LongStrings(h + g), false) == h
    ensures StringHeaders(LongStrings(h + g), true) == g
  {
  }

  /** With the two maps recovered, every other field is read back from its own property. */
  lemma PropertiesRestore(f: UuidFormat, p: Platform, e: Envelope, security: Headers, userId: Option<Text>,
                          required: RequiredFields, minted: Minted, headers: (Headers, Headers))
    requires f.Lawful() && p.HasEpoch() && p.Represents(e.publishedAt)
    ensures Restore(f, p, PropertiesOf(f, e, security, userId), e.payload, required, minted, headers)
         == Ok(OnTheWire(e, security).(headers := headers.0, protocolHeaders := headers.1))
  {
    var instant := EpochSeconds(e.publishedAt) * NANOS_PER_SECOND;
    assert p.Represents(instant);
  }

  /** The table both ends see: application entries and reserved ones, application keys never reserved. */
  lemma MergedReadable(h: Headers, g: Headers)
    requires Utf8Values(h) && Utf8Values(g) && NoReservedKey(h)
    ensures (forall k :: k in h + g ==> Readable(k, LongStrings(h + g)[k]))
            <==> (forall k :: k in g && IsReserved(k) ==> CanonicalReserved(k))
  {
    forall k | k in g ensures k in h + g && LongStrings(h + g)[k] == LongString(g[k]) {}
  }

  /** For a publishable envelope the decode verdict is only a matter of reserved spellings. */
  lemma DecodeOfPublished(f: UuidFormat, p: Platform, e: Envelope, limits: MetadataLimits, security: Headers,
                          userId: Option<Text>,
                          required: RequiredFields, minted: Minted, maxPayload: nat, r: Result<Envelope, BusError>)
    requires f.Lawful() && p.HasEpoch() && p.Represents(e.publishedAt)
    requires CanPublish(e, limits, security, userId) && |e.payload| <= maxPayload
    requires DecodesTo(f, p, PropertiesOf(f, e, security, userId), e.payload, maxPayload, limits, required, minted, r)
    ensures var t := LongStrings(e.headers + e.protocolHeaders + security);
            if forall k :: k in t ==> Readable(k, t[k])
            then r == Ok(OnTheWire(e, security).(headers := StringHeaders(t, false),
                                                      protocolHeaders := StringHeaders(t, true)))
            else r.Err?
  {
    var t := LongStrings(e.headers + e.protocolHeaders + security);
    OutboundFitsInbound(e, limits, security);
    PropertiesRestore(f, p, e, security, userId, required, minted, (StringHeaders(t, false), StringHeaders(t, true)));
  }

  /**
   Every envelope a transport agrees to publish comes back from the wire, under either
   decode policy and whatever values a lenient decode would have minted, exactly when its
   protocol keys are canonical reserved names.
   */
  lemma RoundTrip(f: UuidFormat, p: Platform, e: Envelope, limits: MetadataLimits, security: Headers,
                  userId: Option<Text>,
                  required: RequiredFields, minted: Minted, maxPayload: nat, r: Result<Envelope, BusError>)
    requires f.Lawful() && p.HasEpoch() && p.Represents(e.publishedAt)
    requires WellTyped(e, security) && CanPublish(e, limits, security, userId) && |e.payload| <= maxPayload
    requires DecodesTo(f, p, PropertiesOf(f, e, security, userId), e.payload, maxPayload, limits, required, minted, r)
    ensures r == Ok(OnTheWire(e, security)) <==> CanonicalProtocol(e.protocolHeaders)
  {
    DecodeOfPublished(f, p, e, limits, security, userId, required, minted, maxPayload, r);
    assert NoReservedKey(e.headers);
    SplitExactly(e, security);
  }

  /**
   The reserved boundary recovers the two maps, and every spelling is readable, exactly for canonical
   protocol keys.
   */
  lemma SplitExactly(e: Envelope, security: Headers)
    requires WellTyped(e, security) && NoReservedKey(e.headers)
    ensures var t := LongStrings(e.headers + e.protocolHeaders + security);
            ((forall k :: k in t ==> Readable(k, t[k])) && StringHeaders(t, false) == e.headers
             && StringHeaders(t, true) == e.protocolHeaders + security)
            <==> CanonicalProtocol(e.protocolHeaders)
  {
    var g := e.protocolHeaders + security;
    assert e.headers + e.protocolHeaders + security == e.headers + g;
    MergedReadable(e.headers, g);
    WireNamesAreCanonical();
    if CanonicalProtocol(e.protocolHeaders) {
      StringHeadersSplit(e.headers, g);
    } else {
      var k :| k in e.protocolHeaders && !CanonicalReserved(k);
      assert k in g;
      if !IsReserved(k) {
        assert k !in StringHeaders(LongStrings(e.headers + g), true);
      }
    }
  }

  /** A protocol key outside the reserved namespace. */
  const TENANT := Ascii("x-tenant")

  /**
   One input the round trip fails on: a protocol map holding an unreserved key is let out, and
   comes back as an application header.
   */
  lemma UnreservedProtocolKeyIsLost(f: UuidFormat, p: Platform, e: Envelope, limits: MetadataLimits,
                                    required: RequiredFields, minted: Minted, maxPayload: nat,
                                    r: Result<Envelope, BusError>)
    requires f.Lawful() && p.HasEpoch() && p.Represents(e.publishedAt) && |e.payload| <= maxPayload
    requires e.headers == map[] && e.protocolHeaders == map[TENANT := []]
    requires |e.messageType| <= SHORT_STRING_MAX && ShortText(e.replyTo)
    requires limits.maxHeaders >= 1 && limits.maxKeyBytes >= 8 && limits.maxTotalBytes >= 8
    requires DecodesTo(f, p, PropertiesOf(f, e, map[], None), e.payload, maxPayload, limits, required, minted, r)
    ensures CanPublish(e, limits, map[], None)
    ensures r == Ok(OnTheWire(e, map[]).(headers := e.protocolHeaders, protocolHeaders := map[]))
    ensures r != Ok(OnTheWire(e, map[]))
  {
    TenantPublishes(e, limits);
    TenantIsUnreserved(e);
    DecodeOfPublished(f, p, e, limits, map[], None, required, minted, maxPayload, r);
  }

  lemma TenantIsUnreserved(e: Envelope)
    requires e.headers == map[] && e.protocolHeaders == map[TENANT := []]
    ensures var t := LongStrings(e.headers + e.protocolHeaders + map[]);
            && (forall k :: k in t ==> Readable(k, t[k]))
            && StringHeaders(t, false) == e.protocolHeaders && StringHeaders(t, true) == map[]
  {
    assert !IsReserved(TENANT);
    assert e.headers + e.protocolHeaders + map[] == e.protocolHeaders;
  }

  lemma TenantPublishes(e: Envelope, limits: MetadataLimits)
    requires e.headers == map[] && e.protocolHeaders == map[TENANT := []]
    requires |e.messageType| <= SHORT_STRING_MAX && ShortText(e.replyTo)
    requires limits.maxHeaders >= 1 && limits.maxKeyBytes >= 8 && limits.maxTotalBytes >= 8
    ensures CanPublish(e, limits, map[], None) && WellTyped(e, map[])
  {
    var none: Headers := map[];
    assert |TENANT| == 8 && e.protocolHeaders.Keys == {TENANT};
    assert |e.protocolHeaders| == |e.protocolHeaders.Keys|;
    BytesOverRemove(e.protocolHeaders, {TENANT}, TENANT);
    assert BytesOver(e.protocolHeaders, {TENANT} - {TENANT}) == 0;
    assert HeaderBytes(none) == 0;
    assert ValidUtf8([]);
    assert KeysWithin(none, limits.maxKeyBytes) && ValuesWithin(none, limits.maxValueBytes);
    assert KeysWithin(none, SHORT_STRING_MAX);
  }
}
