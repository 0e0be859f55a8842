/**
 The journey of one message through a run: what becomes of its table, its count and its envelope,
 and where every copy comes from.
 */
module Journeys {
  import opened Bytes
  import opened Envelopes
  import opened Amqp
  import opened Metadata
  import opened Wire
  import opened Worker
  import opened Retries
  import opened Broker
  import Outcomes

  // ---- What a publication can expect ----

  /** The header table of attempt `n` of a published message. */
  function TableAt(sys: System, first: Delivery, n: nat): FieldTable {
    TableAfter(sys.expiry, sys.cfg.waitQueue, TableOf(first.props), n)
  }

  predicate DecodesStrictly(sys: System, t: FieldTable) {
    SIGNATURE_HEADER in StringHeaders(t, true) || sys.cfg.required.Strict?
  }

  /** The properties an envelope is rebuilt from are all there, in the form the policy asks for. */
  predicate Restorable(sys: System, props: Properties) {
    && (DecodesStrictly(sys, TableOf(props)) ==> HasIdentity(sys.f, props) && props.timestamp.Some?)
    && props.kind.Some?
    && (props.timestamp.Some? ==> sys.platform.Represents(props.timestamp.value * NANOS_PER_SECOND))
  }

  /** Attempt `n` of a published message decodes. */
  ghost predicate DecodesAt(sys: System, first: Delivery, n: nat) {
    && |first.body| <= sys.cfg.maxPayload
    && Restorable(sys, first.props)
    && TableAccepted(TableAt(sys, first, n), sys.cfg.limits)
  }

  function HeadersOf(t: FieldTable): (Headers, Headers) {
    (StringHeaders(t, false), StringHeaders(t, true))
  }

  const NIL: Uuid := [0, 0, 0, 0, 0, 0, 0, 0, 0, 0, 0, 0, 0, 0, 0, 0]

  /** The envelope of attempt `n`. Where a lenient decode of an unsigned one mints values, they are nil here. */
  function EnvelopeAt(sys: System, first: Delivery, n: nat): Result<Envelope, BusError> {
    Restore(sys.f, sys.platform, first.props, first.body, sys.cfg.required, Minted(NIL, NIL, 0),
            HeadersOf(TableAt(sys, first, n)))
  }

  /** The routing key attempt `n` arrives on: the published one, then the queue's own name. */
  function DestinationAt(sys: System, first: Delivery, n: nat): Text {
    if n == 0 then first.destination else sys.cfg.queue
  }

  /** The verifier accepts the envelope, and no broker identity contradicts its signer. */
  predicate Admitted(sys: System, e: Envelope, destination: Text, userId: Option<Text>) {
    sys.cfg.hasSecurity ==>
      var verified := sys.verify(e, destination);
      verified.Ok? && (verified.value.Some? && userId.Some? ==> verified.value.value == userId.value)
  }

  predicate VerifiesAt(sys: System, first: Delivery, n: nat) {
    var e := EnvelopeAt(sys, first, n);
    e.Ok? && Admitted(sys, e.value, DestinationAt(sys, first, n), first.props.userId)
  }

  /** Attempt `n` of a published message decodes, verifies, and finds a handler for its type. */
  ghost predicate HandledAt(sys: System, first: Delivery, n: nat) {
    DecodesAt(sys, first, n) && VerifiesAt(sys, first, n) && first.props.kind.value in sys.handlers
  }

  /** Attempt `n` reaches its handler and its count leaves a retry. */
  ghost predicate Retriable(sys: System, first: Delivery, n: nat) {
    HandledAt(sys, first, n) && 1 < sys.cfg.maxAttempts && CountAt(sys, first, n) + 1 < sys.cfg.maxAttempts
  }

  /** The retry count attempt `n` reads. */
  function CountAt(sys: System, first: Delivery, n: nat): int {
    CountIn(TableAt(sys, first, n), sys.cfg.waitQueue)
  }

  ghost predicate RetriableUntil(sys: System, first: Delivery, n: nat) {
    forall i :: 0 <= i < n ==> Retriable(sys, first, i)
  }

  lemma RestoredExactly(f: UuidFormat, p: Platform, props: Properties, body: ByteString, required: RequiredFields,
                        minted: Minted, headers: (Headers, Headers))
    ensures Restore(f, p, props, body, required, minted, headers).Ok?
            <==> && (SIGNATURE_HEADER in headers.1 || required.Strict?
                     ==> HasIdentity(f, props) && props.timestamp.Some?)
                 && props.kind.Some?
                 && (props.timestamp.Some? ==> p.Represents(props.timestamp.value * NANOS_PER_SECOND))
  {
  }

  /** Whether a delivery decodes is a matter of its size, its table and its properties. */
  lemma DecodesExactly(sys: System, d: Delivery, minted: Minted, r: Result<Envelope, BusError>)
    requires sys.Decodes(d, minted, r)
    ensures r.Ok?
            <==> && |d.body| <= sys.cfg.maxPayload
                 && TableAccepted(TableOf(d.props), sys.cfg.limits)
                 && Restorable(sys, d.props)
  {
    AcceptedTable(d.props, sys.cfg.limits);
    RestoredExactly(sys.f, sys.platform, d.props, d.body, sys.cfg.required, minted, HeadersOf(TableOf(d.props)));
  }

  lemma SameStrictness(sys: System, first: Properties, later: Properties)
    requires SameMessage(sys.f, first, later)
    ensures DecodesStrictly(sys, TableOf(first)) <==> DecodesStrictly(sys, TableOf(later))
  {
    assert !IsBrokerHeader(SIGNATURE_HEADER) by {
      assert SIGNATURE_HEADER[2] == 0x68 && |SIGNATURE_HEADER| == 20;
      assert X_DEATH[2] == 0x64 && FIRST_DEATH[2] == 0x66 && LAST_DEATH[2] == 0x6c;
    }
    var a, b := TableOf(first), TableOf(later);
    assert SIGNATURE_HEADER in OwnHeaders(a) <==> SIGNATURE_HEADER in a;
    assert SIGNATURE_HEADER in OwnHeaders(b) <==> SIGNATURE_HEADER in b;
    assert SIGNATURE_HEADER in a ==> OwnHeaders(a)[SIGNATURE_HEADER] == a[SIGNATURE_HEADER];
    assert SIGNATURE_HEADER in b ==> OwnHeaders(b)[SIGNATURE_HEADER] == b[SIGNATURE_HEADER];
    assert CanonicalReserved(SIGNATURE_HEADER);
  }

  /** A signed delivery, or any under a policy that requires signatures, is decoded without minting. */
  lemma StrictRestores(f: UuidFormat, p: Platform, a: Properties, b: Properties, body: ByteString,
                       required: RequiredFields, minted: Minted, other: Minted, headers: (Headers, Headers))
    requires SameMessage(f, a, b) && HasIdentity(f, a) && a.timestamp.Some?
    ensures Restore(f, p, a, body, required, minted, headers) == Restore(f, p, b, body, required, other, headers)
  {
  }

  lemma AttemptRestored(sys: System, first: Delivery, n: nat)
    requires Restorable(sys, first.props)
    requires DecodesStrictly(sys, TableAt(sys, first, n)) == DecodesStrictly(sys, TableOf(first.props))
    ensures EnvelopeAt(sys, first, n).Ok?
    ensures EnvelopeAt(sys, first, n).value.protocolHeaders == StringHeaders(TableAt(sys, first, n), true)
  {
  }

  /** What a decoded envelope is restored from. */
  lemma RestoredFrom(sys: System, d: Delivery, minted: Minted, r: Result<Envelope, BusError>)
    requires sys.Decodes(d, minted, r) && r.Ok?
    ensures r == Restore(sys.f, sys.platform, d.props, d.body, sys.cfg.required, minted, HeadersOf(TableOf(d.props)))
    ensures d.props.kind == Some(r.value.messageType)
    ensures r.value.protocolHeaders == StringHeaders(TableOf(d.props), true)
  {
    AcceptedTable(d.props, sys.cfg.limits);
  }

  lemma SignedVerdict(sys: System, first: Delivery, m: Message, minted: Minted, e: Envelope)
    requires sys.Valid() && AtWorker(sys, first, m) && Restorable(sys, first.props)
    requires SIGNATURE_HEADER in StringHeaders(TableOf(m.content.props), true)
    requires DecodesStrictly(sys, TableOf(first.props))
    requires Ok(e) == Restore(sys.f, sys.platform, m.content.props, m.content.body, sys.cfg.required, minted,
                              HeadersOf(TableOf(m.content.props)))
    ensures EnvelopeAt(sys, first, m.cycles) == Ok(e)
  {
    StrictRestores(sys.f, sys.platform, first.props, m.content.props, first.body, sys.cfg.required,
                   Minted(NIL, NIL, 0), minted, HeadersOf(TableOf(m.content.props)));
  }

  /** Without a signature only the policy speaks, whatever the rest of the envelope. */
  lemma UnsignedVerdict(sys: System, a: Envelope, b: Envelope, here: Text, there: Text, userId: Option<Text>)
    requires sys.Valid() && SIGNATURE_HEADER !in a.protocolHeaders && SIGNATURE_HEADER !in b.protocolHeaders
    ensures Admitted(sys, a, here, userId) <==> Admitted(sys, b, there, userId)
  {
    assert CanonicalReserved(SIGNATURE_HEADER);
    assert Header(a, SIGNATURE_HEADER).None? && Header(b, SIGNATURE_HEADER).None?;
  }

  /** What the verifier makes of an attempt follows from the publication and its trips, whatever was minted. */
  lemma SameVerdict(sys: System, first: Delivery, m: Message, minted: Minted, r: Result<Envelope, BusError>)
    requires sys.Valid() && AtWorker(sys, first, m) && DecodesAt(sys, first, m.cycles)
    requires sys.Decodes(m.content, minted, r) && r.Ok?
    ensures Admitted(sys, r.value, m.content.destination, m.content.props.userId) <==> VerifiesAt(sys, first, m.cycles)
    ensures m.content.props.kind == first.props.kind && r.value.messageType == first.props.kind.value
  {
    var t := TableOf(m.content.props);
    SameStrictness(sys, first.props, m.content.props);
    AttemptRestored(sys, first, m.cycles);
    RestoredFrom(sys, m.content, minted, r);
    if SIGNATURE_HEADER in StringHeaders(t, true) {
      SignedVerdict(sys, first, m, minted, r.value);
    } else {
      UnsignedVerdict(sys, r.value, EnvelopeAt(sys, first, m.cycles).value, m.content.destination,
                      m.content.destination, first.props.userId);
    }
  }

  // ---- Where every copy comes from ----

  /** A copy of the published message after `m.cycles` trips, each of which it was entitled to. */
  ghost predicate CopyOfFirst(sys: System, first: Delivery, m: Message) {
    && m.content.body == first.body
    && SameMessage(sys.f, first.props, m.content.props)
    && TableOf(m.content.props) == TableAt(sys, first, m.cycles)
    && RetriableUntil(sys, first, m.cycles)
  }

  /** As a worker meets it: untouched on its first trip, with an identity from then on. */
  ghost predicate AtWorker(sys: System, first: Delivery, m: Message) {
    && CopyOfFirst(sys, first, m) && m.content.destination == DestinationAt(sys, first, m.cycles)
    && if m.cycles == 0 then m.content == first else HasIdentity(sys.f, m.content.props)
  }

  ghost predicate AtWait(sys: System, first: Delivery, m: Message) {
    && CopyOfFirst(sys, first, m) && Retriable(sys, first, m.cycles)
    && HasIdentity(sys.f, m.content.props) && m.content.props.deliveryMode == Some(2)
  }

  /**
   Attempt `n` is refused for what its metadata says or who sent it: the payload is small
   enough to be looked at, and the table is refused, or a field that signing requires is
   missing, or there is a type and the attempt still does not verify.
   */
  ghost predicate DiscreditedAt(sys: System, first: Delivery, n: nat) {
    && |first.body| <= sys.cfg.maxPayload
    && (|| !TableAccepted(TableAt(sys, first, n), sys.cfg.limits)
        || (DecodesStrictly(sys, TableOf(first.props)) && !HasIdentity(sys.f, first.props))
        || (first.props.kind.Some? && !VerifiesAt(sys, first, n)))
  }

  /** What is left of a discredited message: everything but its table and its `user-id`. */
  predicate Stripped(f: UuidFormat, first: Properties, copy: Properties) {
    && SameMessage(f, first.(headers := None), copy.(headers := None, userId := first.userId))
    && TableOf(copy) == map[] && copy.userId.None?
  }

  /** A dead-lettered copy is the message itself after its trips, unless its last attempt discredited it. */
  ghost predicate AtDead(sys: System, first: Delivery, m: Message) {
    && m.content.body == first.body && m.content.props.deliveryMode == Some(2)
    && (if DiscreditedAt(sys, first, m.cycles) then Stripped(sys.f, first.props, m.content.props)
        else && SameMessage(sys.f, first.props, m.content.props)
             && TableOf(m.content.props) == TableAt(sys, first, m.cycles))
    && (m.cycles == 0 ==> SameSpelling(m.content.props, first.props))
    && RetriableUntil(sys, first, m.cycles)
  }

  predicate SameSpelling(a: Properties, b: Properties) {
    a.messageId == b.messageId && a.correlationId == b.correlationId
  }

  ghost predicate CopyFollows(sys: System, first: Delivery, copy: Message, target: Target) {
    if target.WaitQueue? then AtWait(sys, first, copy) else AtDead(sys, first, copy)
  }

  ghost predicate WorkFollows(sys: System, first: Delivery, w: Work) {
    && AtWorker(sys, first, w.message)
    && (w.phase.Publishing? ==> CopyFollows(sys, first, CopyOf(w.message, w.phase.copy), w.phase.target))
  }

  ghost predicate QueueFollows(sys: System, q: multiset<Message>, origin: nat, first: Delivery) {
    forall m :: m in q && m.origin == origin ==> AtWorker(sys, first, m)
  }

  ghost predicate WaitFollows(sys: System, q: multiset<Message>, origin: nat, first: Delivery) {
    forall m :: m in q && m.origin == origin ==> AtWait(sys, first, m)
  }

  ghost predicate DeadFollows(sys: System, q: multiset<Message>, origin: nat, first: Delivery) {
    forall m :: m in q && m.origin == origin ==> AtDead(sys, first, m)
  }

  ghost predicate UnackedFollows(sys: System, unacked: map<nat, Message>, origin: nat, first: Delivery) {
    forall t :: t in unacked && unacked[t].origin == origin ==> AtWorker(sys, first, unacked[t])
  }

  ghost predicate WorksFollow(sys: System, works: map<nat, Work>, origin: nat, first: Delivery) {
    forall t :: t in works && works[t].message.origin == origin ==> WorkFollows(sys, first, works[t])
  }

  /** Every copy of one origin, wherever it is, comes from what was published. */
  ghost predicate Follows(sys: System, s: State, origin: nat, first: Delivery) {
    && QueueFollows(sys, s.main, origin, first)
    && WaitFollows(sys, s.waiting, origin, first)
    && DeadFollows(sys, s.dead, origin, first)
    && UnackedFollows(sys, s.unacked, origin, first)
    && WorksFollow(sys, s.works, origin, first)
  }

  // ---- Each step keeps it ----

  lemma RetryEntitled(sys: System, first: Delivery, m: Message, minted: Minted, o: Oracle)
    requires sys.Valid() && AtWorker(sys, first, m) && sys.Learns(m.content, minted, o)
    requires RouteOf(sys.cfg, sys.f, m.content, o).Via? && RouteOf(sys.cfg, sys.f, m.content, o).target.WaitQueue?
    ensures Retriable(sys, first, m.cycles)
  {
    DecodesExactly(sys, m.content, minted, o.decoded);
    RetriedExactly(sys.cfg, sys.f, m.content, o.decoded.value, HandlerResult(o.handler).error);
    if m.cycles > 0 {
      assert Retriable(sys, first, 0);
    }
    SameVerdict(sys, first, m, minted, o.decoded);
  }

  lemma RetryCopyFollows(sys: System, first: Delivery, m: Message, messageId: Uuid, correlationId: Uuid)
    requires sys.Valid() && CopyOfFirst(sys, first, m)
    ensures var copy := CopyOf(m, RetryCopy(sys.f, m.content.props, messageId, correlationId));
            && CopyOfFirst(sys, first, copy) && HasIdentity(sys.f, copy.content.props)
            && copy.content.props.deliveryMode == Some(2)
  {
    RetryKeepsMessage(sys.f, m.content.props, messageId, correlationId);
    SameMessageTrans(sys.f, first.props, m.content.props, RetryCopy(sys.f, m.content.props, messageId, correlationId));
  }

  /** Whether an attempt discredits its message follows from the publication and its trips alone. */
  lemma SameDiscredit(sys: System, first: Delivery, m: Message, minted: Minted, o: Oracle)
    requires sys.Valid() && AtWorker(sys, first, m) && sys.Learns(m.content, minted, o)
    ensures Outcomes.Discredited(sys.cfg, sys.f, sys.platform, m.content, o) <==> DiscreditedAt(sys, first, m.cycles)
  {
    AcceptedTable(m.content.props, sys.cfg.limits);
    SameStrictness(sys, first.props, m.content.props);
    if m.cycles > 0 {
      assert Retriable(sys, first, 0);
    }
    DecodesExactly(sys, m.content, minted, o.decoded);
    if o.decoded.Ok? {
      SameVerdict(sys, first, m, minted, o.decoded);
    }
  }

  lemma DeadCopyFollows(sys: System, first: Delivery, m: Message, minted: Minted, o: Oracle)
    requires sys.Valid() && AtWorker(sys, first, m) && sys.Learns(m.content, minted, o)
    requires RouteOf(sys.cfg, sys.f, m.content, o).Via?
    requires RouteOf(sys.cfg, sys.f, m.content, o).target.DeadLetterQueue?
    ensures AtDead(sys, first, CopyOf(m, RouteOf(sys.cfg, sys.f, m.content, o).copy))
  {
    SameDiscredit(sys, first, m, minted, o);
    Outcomes.DeadLetterCopyExactly(sys.cfg, sys.f, sys.platform, m.content, minted, o);
  }

  lemma DecidedCopy(sys: System, first: Delivery, m: Message, minted: Minted, o: Oracle)
    requires sys.Valid() && AtWorker(sys, first, m) && sys.Learns(m.content, minted, o)
    ensures var route := RouteOf(sys.cfg, sys.f, m.content, o);
            route.Via? ==> CopyFollows(sys, first, CopyOf(m, route.copy), route.target)
  {
    var route := RouteOf(sys.cfg, sys.f, m.content, o);
    if route.Via? {
      if route.target.WaitQueue? {
        RetryEntitled(sys, first, m, minted, o);
        RetryCopyFollows(sys, first, m, o.decoded.value.messageId, o.decoded.value.correlationId);
      } else {
        DeadCopyFollows(sys, first, m, minted, o);
      }
    }
  }

  lemma ExpiredCopy(sys: System, first: Delivery, m: Message)
    requires sys.Valid() && AtWait(sys, first, m)
    ensures AtWorker(sys, first, Expired(sys, m))
  {
    ExpiredProperties(sys, first.props, m.content.props);
    ExpiredJourney(sys, first, m);
    CopyIntro(sys, first, Expired(sys, m));
  }

  lemma ExpiredJourney(sys: System, first: Delivery, m: Message)
    requires AtWait(sys, first, m)
    ensures TableOf(AfterExpiry(sys.expiry, m.content.props, sys.cfg.waitQueue)) == TableAt(sys, first, m.cycles + 1)
    ensures RetriableUntil(sys, first, m.cycles + 1)
  {
    NextTable(sys, first, m.cycles, m.content.props);
    OneMoreTrip(sys, first, m.cycles);
  }

  lemma CopyIntro(sys: System, first: Delivery, m: Message)
    requires m.cycles > 0 && m.content.body == first.body && m.content.destination == sys.cfg.queue
    requires SameMessage(sys.f, first.props, m.content.props) && HasIdentity(sys.f, m.content.props)
    requires TableOf(m.content.props) == TableAt(sys, first, m.cycles) && RetriableUntil(sys, first, m.cycles)
    ensures AtWorker(sys, first, m)
  {
  }

  lemma ExpiredProperties(sys: System, first: Properties, props: Properties)
    requires sys.Valid() && SameMessage(sys.f, first, props) && HasIdentity(sys.f, props)
    ensures var back := AfterExpiry(sys.expiry, props, sys.cfg.waitQueue);
            SameMessage(sys.f, first, back) && HasIdentity(sys.f, back)
  {
    var back := AfterExpiry(sys.expiry, props, sys.cfg.waitQueue);
    ExpiryKeepsMessage(sys.f, sys.expiry, props, sys.cfg.waitQueue);
    SameMessageTrans(sys.f, first, props, back);
  }

  lemma NextTable(sys: System, first: Delivery, n: nat, props: Properties)
    requires TableOf(props) == TableAt(sys, first, n)
    ensures TableOf(AfterExpiry(sys.expiry, props, sys.cfg.waitQueue)) == TableAt(sys, first, n + 1)
  {
    OneMoreExpiry(sys.expiry, sys.cfg.waitQueue, TableOf(first.props), n);
  }

  lemma OneMoreTrip(sys: System, first: Delivery, n: nat)
    requires RetriableUntil(sys, first, n) && Retriable(sys, first, n)
    ensures RetriableUntil(sys, first, n + 1)
  {
  }

  lemma QueueGains(sys: System, q: multiset<Message>, m: Message, origin: nat, first: Delivery)
    requires QueueFollows(sys, q, origin, first) && (m.origin == origin ==> AtWorker(sys, first, m))
    ensures QueueFollows(sys, q + multiset{m}, origin, first)
  {
  }

  lemma WorkMovesOn(sys: System, works: map<nat, Work>, tag: nat, w: Work, origin: nat, first: Delivery)
    requires WorksFollow(sys, works, origin, first) && (w.message.origin == origin ==> WorkFollows(sys, first, w))
    ensures WorksFollow(sys, works[tag := w], origin, first)
  {
  }

  lemma DecideFollows(sys: System, s: State, tag: nat, minted: Minted, o: Oracle, origin: nat, first: Delivery)
    requires sys.Valid() && Enabled(sys, s, Decide(tag, minted, o)) && Follows(sys, s, origin, first)
    ensures Follows(sys, Decided(sys, s, tag, o), origin, first)
  {
    var m := s.works[tag].message;
    if m.origin == origin {
      DecidedCopy(sys, first, m, minted, o);
    }
    WorkMovesOn(sys, s.works, tag, Decided(sys, s, tag, o).works[tag], origin, first);
  }

  lemma RepublishFollows(sys: System, s: State, tag: nat, outcome: PublishOutcome, stored: bool, origin: nat,
                         first: Delivery)
    requires tag in s.works && s.works[tag].phase.Publishing? && Follows(sys, s, origin, first)
    ensures Follows(sys, Republished(s, tag, outcome, stored), origin, first)
  {
    var Work(m, phase, _) := s.works[tag];
    var copy := CopyOf(m, phase.copy);
    WorkMovesOn(sys, s.works, tag, Republished(s, tag, outcome, stored).works[tag], origin, first);
    if stored {
      StoredCopy(sys, s, copy, phase.target, origin, first);
    }
  }

  lemma StoredCopy(sys: System, s: State, copy: Message, target: Target, origin: nat, first: Delivery)
    requires Follows(sys, s, origin, first) && (copy.origin == origin ==> CopyFollows(sys, first, copy, target))
    ensures target.WaitQueue? ==> WaitFollows(sys, s.waiting + multiset{copy}, origin, first)
    ensures target.DeadLetterQueue? ==> DeadFollows(sys, s.dead + multiset{copy}, origin, first)
  {
  }

  lemma SettleFollows(sys: System, s: State, tag: nat, ok: bool, applied: bool, origin: nat, first: Delivery)
    requires tag in s.works && s.works[tag].phase.Settling? && (applied ==> tag in s.unacked)
            && Follows(sys, s, origin, first)
    ensures Follows(sys, SettledState(s, tag, ok, applied), origin, first)
  {
    WorkMovesOn(sys, s.works, tag, SettledState(s, tag, ok, applied).works[tag], origin, first);
    if applied {
      QueueGains(sys, s.main, s.unacked[tag], origin, first);
    }
  }

  lemma StartFollows(sys: System, s: State, tag: nat, origin: nat, first: Delivery)
    requires tag in s.unacked && tag !in s.works && Follows(sys, s, origin, first)
    ensures Follows(sys, Apply(sys, s, Start(tag)), origin, first)
  {
    WorkMovesOn(sys, s.works, tag, Work(s.unacked[tag], Running, []), origin, first);
  }

  lemma CloseFollows(sys: System, s: State, tag: nat, origin: nat, first: Delivery)
    requires tag in s.unacked && Follows(sys, s, origin, first)
    ensures Follows(sys, Apply(sys, s, CloseChannel(tag)), origin, first)
  {
    QueueGains(sys, s.main, s.unacked[tag], origin, first);
  }

  lemma ExpireFollows(sys: System, s: State, m: Message, origin: nat, first: Delivery)
    requires sys.Valid() && m in s.waiting && Follows(sys, s, origin, first)
    ensures Follows(sys, Apply(sys, s, Expire(m)), origin, first)
  {
    if m.origin == origin {
      ExpiredCopy(sys, first, m);
    }
    QueueGains(sys, s.main, Expired(sys, m), origin, first);
  }

  lemma StepFollows(sys: System, s: State, step: Step, origin: nat, first: Delivery)
    requires sys.Valid() && Enabled(sys, s, step) && Follows(sys, s, origin, first) && origin < |s.published|
    ensures Follows(sys, Apply(sys, s, step), origin, first)
  {
    match step
    case Produce(d) => QueueGains(sys, s.main, Message(|s.published|, 0, d), origin, first);
    case Deliver(m) =>
    case Start(tag) => StartFollows(sys, s, tag, origin, first);
    case Decide(tag, minted, o) => DecideFollows(sys, s, tag, minted, o, origin, first);
    case Republish(tag, outcome, stored) => RepublishFollows(sys, s, tag, outcome, stored, origin, first);
    case Settle(tag, ok, applied) => SettleFollows(sys, s, tag, ok, applied, origin, first);
    case CloseChannel(tag) => CloseFollows(sys, s, tag, origin, first);
    case Expire(m) => ExpireFollows(sys, s, m, origin, first);
  }

  predicate KnownIn(q: multiset<Message>, n: nat) {
    forall m :: m in q ==> m.origin < n
  }

  ghost predicate KnownAtWork(s: State, n: nat) {
    && (forall t :: t in s.unacked ==> s.unacked[t].origin < n)
    && (forall t :: t in s.works ==> s.works[t].message.origin < n)
  }

  /** No message comes from a publication yet to be made. */
  ghost predicate OriginsKnown(s: State) {
    var n := |s.published|;
    KnownIn(s.main, n) && KnownIn(s.waiting, n) && KnownIn(s.dead, n) && KnownAtWork(s, n)
  }

  lemma FreshFollows(sys: System, s: State, d: Delivery)
    requires OriginsKnown(s)
    ensures Follows(sys, Apply(sys, s, Produce(d)), |s.published|, d)
  {
  }

  lemma WorkKeepsOrigins(s: State, s': State, tag: nat)
    requires KnownAtWork(s, |s.published|) && WorkMoves(s, s', tag) && s'.published == s.published
    ensures KnownAtWork(s', |s'.published|)
  {
  }

  lemma DecideKeepsOrigins(sys: System, s: State, tag: nat, o: Oracle)
    requires tag in s.works && OriginsKnown(s)
    ensures OriginsKnown(Decided(sys, s, tag, o))
  {
    WorkKeepsOrigins(s, Decided(sys, s, tag, o), tag);
  }

  lemma RepublishKeepsOrigins(s: State, tag: nat, outcome: PublishOutcome, stored: bool)
    requires tag in s.works && s.works[tag].phase.Publishing? && OriginsKnown(s)
    ensures OriginsKnown(Republished(s, tag, outcome, stored))
  {
    WorkKeepsOrigins(s, Republished(s, tag, outcome, stored), tag);
  }

  lemma SettleKeepsOrigins(s: State, tag: nat, ok: bool, applied: bool)
    requires tag in s.works && s.works[tag].phase.Settling? && (applied ==> tag in s.unacked) && OriginsKnown(s)
    ensures OriginsKnown(SettledState(s, tag, ok, applied))
  {
    WorkKeepsOrigins(s, SettledState(s, tag, ok, applied), tag);
  }

  lemma StepKeepsOrigins(sys: System, s: State, step: Step)
    requires Enabled(sys, s, step) && OriginsKnown(s)
    ensures OriginsKnown(Apply(sys, s, step))
  {
    match step
    case Decide(tag, _, o) => DecideKeepsOrigins(sys, s, tag, o);
    case Republish(tag, outcome, stored) => RepublishKeepsOrigins(s, tag, outcome, stored);
    case Settle(tag, ok, applied) => SettleKeepsOrigins(s, tag, ok, applied);
    case _ => QueueKeepsOrigins(sys, s, step);
  }

  lemma QueueKeepsOrigins(sys: System, s: State, step: Step)
    requires Enabled(sys, s, step) && OriginsKnown(s) && !step.Decide? && !step.Republish? && !step.Settle?
    ensures OriginsKnown(Apply(sys, s, step))
  {
  }

  lemma {:induction false} RunKeepsOrigins(sys: System, steps: seq<Step>)
    requires Enables(sys, steps)
    ensures OriginsKnown(Run(sys, steps))
  {
    if steps != [] {
      RunKeepsOrigins(sys, Most(steps));
      StepKeepsOrigins(sys, Run(sys, Most(steps)), Last(steps));
    }
  }

  /** After any run every copy of every published message comes from it, trip by trip. */
  lemma {:induction false} RunFollows(sys: System, steps: seq<Step>, origin: nat)
    requires sys.Valid() && Enables(sys, steps) && origin < |Run(sys, steps).published|
    ensures Follows(sys, Run(sys, steps), origin, Run(sys, steps).published[origin])
  {
    if steps == [] {
      assert false;
    }
    var s, step := Run(sys, Most(steps)), Last(steps);
    if origin < |s.published| {
      RunFollows(sys, Most(steps), origin);
      StepFollows(sys, s, step, origin, s.published[origin]);
      PublishedStays(sys, s, step, origin);
    } else {
      RunKeepsOrigins(sys, Most(steps));
      FreshFollows(sys, s, step.d);
    }
  }

  lemma PublishedStays(sys: System, s: State, step: Step, origin: nat)
    requires Enabled(sys, s, step) && origin < |s.published|
    ensures origin < |Apply(sys, s, step).published| && Apply(sys, s, step).published[origin] == s.published[origin]
  {
  }

  /**
   After any run, a dead-lettered copy is persistent and has the body of what was published.
   Where its last attempt could still be handled it is the published message, under the table
   its trips gave it; it lost that table exactly where the attempt was refused and discredited.
   */
  lemma DeadCopiesAreIntact(sys: System, steps: seq<Step>, m: Message)
    requires sys.Valid() && Enables(sys, steps)
    requires m in Run(sys, steps).dead && m.origin < |Run(sys, steps).published|
    ensures var first, props := Run(sys, steps).published[m.origin], m.content.props;
            && m.content.body == first.body && props.deliveryMode == Some(2)
            && (HandledAt(sys, first, m.cycles) || !DiscreditedAt(sys, first, m.cycles)
                ==> SameMessage(sys.f, first.props, props) && TableOf(props) == TableAt(sys, first, m.cycles))
            && (DiscreditedAt(sys, first, m.cycles)
                ==> !HandledAt(sys, first, m.cycles) && Stripped(sys.f, first.props, props))
  {
    RunFollows(sys, steps, m.origin);
  }
}
