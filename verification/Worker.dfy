/**
 What the consumer worker does with one delivery (`hexeract-bus-rabbitmq/src/worker.rs`,
 `confirm.rs`): decode, verify, handle, then settle, retry through the wait queue or
 dead-letter. The broker's answers are inputs; the effects are a log.
 */
module Worker {
  import opened Bytes
  import opened Envelopes
  import opened Amqp
  import opened Metadata
  import opened Wire

  // ---- Broker operations and their results ----

  /** The two queues a worker republishes to. */
  datatype Target = WaitQueue | DeadLetterQueue

  datatype Confirmation = AckConfirmation(returned: bool) | NackConfirmation(returned: bool) | NotRequested

  /** A publish fails before its confirmation, or is confirmed. */
  datatype PublishOutcome = SendFailed | Confirmed(confirmation: Confirmation)

  /** Only an ack without a returned message proves the copy is queued. */
  function ConfirmationToResult(c: Confirmation): Result<(), BusError> {
    match c
    case AckConfirmation(false) => Ok(())
    case AckConfirmation(true) => Err(Unroutable)
    case NackConfirmation(true) => Err(Unroutable)
    case NackConfirmation(false) => Err(Transport)
    case NotRequested => Err(Internal)
  }

  function PublishResult(o: PublishOutcome): Result<(), BusError> {
    if o.SendFailed? then Err(Transport) else ConfirmationToResult(o.confirmation)
  }

  datatype SettleOp = Ack | Nack(requeue: bool)

  datatype Disposition = Settled | LeftForRedelivery

  datatype Effect =
    | Verified
    | Handled(result: Result<(), BusError>)
    | Published(target: Target, copy: Properties, body: ByteString, published: Result<(), BusError>)
    | SettleCall(op: SettleOp, ok: bool)

  // ---- Configuration and inputs ----

  datatype AckMode = Manual | AckOnReceive | Unacknowledged

  const RETRY_QUEUE_SUFFIX := Ascii(".retry")

  datatype Config = Config(
    ackMode: AckMode,
    maxAttempts: nat,
    hasDeadLetter: bool,
    queue: Text,
    hasSecurity: bool,
    maxPayload: nat,
    limits: MetadataLimits,
    required: RequiredFields)
  {
    const waitQueue: Text := queue + RETRY_QUEUE_SUFFIX

    predicate Valid() {
      maxAttempts <= U32_MAX && UsizeLimits(limits)
    }
  }

  /** A delivery and the routing key it arrived on. */
  datatype Delivery = Delivery(destination: Text, props: Properties, body: ByteString)

  datatype HandlerCall = NoHandler | Panicked | Returned(result: Result<(), BusError>)

  /** Everything one dispatch learns from outside: the decode, the verification, the handler, the broker. */
  datatype Oracle = Oracle(
    decoded: Result<Envelope, BusError>,
    verification: Result<Option<Text>, SecurityFault>,
    handler: HandlerCall,
    publish: PublishOutcome,
    settles: bool)

  // ---- Retry count ----

  const X_DEATH := Ascii("x-death")
  const QUEUE := Ascii("queue")
  const REASON := Ascii("reason")
  const COUNT := Ascii("count")
  const EXPIRED := Ascii("expired")

  lemma DeathFieldNames()
    ensures QUEUE != REASON && QUEUE != COUNT && REASON != COUNT
  {
    assert |QUEUE| == 5 && |REASON| == 6 && |COUNT| == 5;
    assert QUEUE[0] == 0x71 && COUNT[0] == 0x63;
  }

  /** An `x-death` entry for expiries of the wait queue. */
  predicate IsExpiry(death: AmqpValue, waitQueue: Text) {
    death.Table?
    && QUEUE in death.fields && death.fields[QUEUE] == LongString(waitQueue)
    && REASON in death.fields && death.fields[REASON] == LongString(EXPIRED)
  }

  /** The count an expiry entry carries, if it is a signed 64-bit integer. */
  function ExpiryCount(death: AmqpValue, waitQueue: Text): Option<int> {
    if IsExpiry(death, waitQueue) && COUNT in death.fields && death.fields[COUNT].LongLongInt?
        then Some(death.fields[COUNT].i64) else None
  }

  /** The first readable count. */
  function FirstCount(deaths: seq<AmqpValue>, waitQueue: Text): Option<int> {
    if deaths == [] then None
    else if ExpiryCount(deaths[0], waitQueue).Some? then ExpiryCount(deaths[0], waitQueue)
    else FirstCount(deaths[1..], waitQueue)
  }

  function Deaths(t: FieldTable): seq<AmqpValue> {
    if X_DEATH in t && t[X_DEATH].FieldArray? then t[X_DEATH].items else []
  }

  /** The raw count in a header table, 0 when there is none. */
  function CountIn(t: FieldTable, waitQueue: Text): int {
    var c := FirstCount(Deaths(t), waitQueue);
    if c.Some? then c.value else 0
  }

  function RawCount(props: Properties, waitQueue: Text): int {
    CountIn(TableOf(props), waitQueue)
  }

  /** Negative counts read as 0, counts beyond `u32` as its maximum. */
  function ClampToU32(count: int): (r: nat)
    ensures r <= U32_MAX
  {
    if count < 0 then 0 else if count > U32_MAX then U32_MAX else count
  }

  method DeathCount(props: Properties, waitQueue: Text) returns (count: nat)
    ensures count == ClampToU32(RawCount(props, waitQueue))
  {
    var deaths := Deaths(TableOf(props));
    for i := 0 to |deaths|
      invariant FirstCount(deaths, waitQueue) == FirstCount(deaths[i..], waitQueue)
    {
      assert deaths[i..][0] == deaths[i] && deaths[i..][1..] == deaths[i + 1..];
      var found := ExpiryCount(deaths[i], waitQueue);
      if found.Some? {
        return ClampToU32(found.value);
      }
    }
    return 0;
  }

  /** An entry that says: the wait queue expired this message `count` times. */
  predicate CarriesCount(death: AmqpValue, waitQueue: Text, count: int) {
    && death.Table? && {QUEUE, REASON, COUNT} <= death.fields.Keys
    && death.fields[QUEUE] == LongString(waitQueue) && death.fields[REASON] == LongString(EXPIRED)
    && death.fields[COUNT] == LongLongInt(count)
  }

  ghost predicate NoneCarriesCount(deaths: seq<AmqpValue>, waitQueue: Text) {
    forall i, count :: 0 <= i < |deaths| ==> !CarriesCount(deaths[i], waitQueue, count)
  }

  /** The count read is that of the first entry that carries one. */
  lemma {:induction false} FirstCountExactly(deaths: seq<AmqpValue>, waitQueue: Text)
    ensures match FirstCount(deaths, waitQueue)
            case None => NoneCarriesCount(deaths, waitQueue)
            case Some(count) =>
              exists i :: 0 <= i < |deaths| && CarriesCount(deaths[i], waitQueue, count)
                          && NoneCarriesCount(deaths[..i], waitQueue)
  {
    if deaths != [] && ExpiryCount(deaths[0], waitQueue).None? {
      var rest := deaths[1..];
      FirstCountExactly(rest, waitQueue);
      assert forall count :: !CarriesCount(deaths[0], waitQueue, count);
      match FirstCount(rest, waitQueue) {
        case None =>
          assert forall i :: 0 < i < |deaths| ==> deaths[i] == rest[i - 1];
        case Some(count) =>
          var i :| 0 <= i < |rest| && CarriesCount(rest[i], waitQueue, count)
                   && NoneCarriesCount(rest[..i], waitQueue);
          assert deaths[i + 1] == rest[i];
          assert deaths[..i + 1] == [deaths[0]] + rest[..i];
      }
    } else if deaths != [] {
      assert CarriesCount(deaths[0], waitQueue, FirstCount(deaths, waitQueue).value);
      assert NoneCarriesCount(deaths[..0], waitQueue);
    }
  }

  /** The number of the attempt that just failed; the addition saturates, so no forged count wraps it back. */
  function Attempt(props: Properties, waitQueue: Text): nat {
    var done := ClampToU32(RawCount(props, waitQueue));
    if done == U32_MAX then U32_MAX else done + 1
  }

  datatype FailureRoute = Retry | DeadLetter

  function RouteFailure(error: BusError, attempt: nat, maxAttempts: nat): FailureRoute {
    if IsPermanentDeliveryFailure(error) then DeadLetter
    else if attempt < maxAttempts then Retry
    else DeadLetter
  }

  // ---- Republished copies ----

  predicate Parseable(f: UuidFormat, id: Option<Text>) {
    id.Some? && f.parse(id.value).Some?
  }

  /** The retry copy: identifiers are rewritten only where the delivery carried no parseable one. */
  function RetryCopy(f: UuidFormat, props: Properties, messageId: Uuid, correlationId: Uuid): Properties {
    props.(
      messageId := if Parseable(f, props.messageId) then props.messageId else Some(f.render(messageId)),
      correlationId := if Parseable(f, props.correlationId) then props.correlationId else Some(f.render(correlationId)),
      deliveryMode := Some(2))
  }

  predicate NeedsSanitizedQuarantine(e: BusError) {
    e.ReservedHeaderNamespace? || e.MetadataLimitExceeded? || e.InvalidMetadata? || e.EnvelopeSecurity?
  }

  /** The dead-letter copy of a refused delivery: an untrusted table is not republished, nor is `user-id`. */
  function Quarantine(props: Properties, e: BusError): Properties {
    if NeedsSanitizedQuarantine(e) then props.(headers := Some(map[]), userId := None, deliveryMode := Some(2))
    else props.(deliveryMode := Some(2))
  }

  // ---- What one dispatch does ----

  /** Settle at once, or publish a copy first and let its result decide. */
  datatype Route = SettleNow(op: SettleOp) | Via(target: Target, copy: Properties)

  /** A stored copy lets the original go; an unroutable one drops it; any other failure requeues it. */
  function SettleAfter(published: Result<(), BusError>): SettleOp {
    if published.Ok? then Ack else Nack(!published.error.Unroutable?)
  }

  function RouteTrace(route: Route, body: ByteString, o: Oracle): seq<Effect> {
    match route
    case SettleNow(op) => [SettleCall(op, o.settles)]
    case Via(target, copy) =>
      var published := PublishResult(o.publish);
      [Published(target, copy, body, published), SettleCall(SettleAfter(published), o.settles)]
  }

  /** Where a handled delivery goes in Manual mode. */
  function ManualRoute(cfg: Config, f: UuidFormat, d: Delivery, e: Envelope, result: Result<(), BusError>): Route {
    if result.Ok? then SettleNow(Ack)
    else if RouteFailure(result.error, Attempt(d.props, cfg.waitQueue), cfg.maxAttempts).Retry?
    then Via(WaitQueue, RetryCopy(f, d.props, e.messageId, e.correlationId))
    else if cfg.hasDeadLetter then Via(DeadLetterQueue, d.props.(deliveryMode := Some(2)))
    else SettleNow(Ack)
  }

  /** Where a delivery that never reached a handler goes, in the two modes that settle. */
  function PoisonRoute(cfg: Config, d: Delivery, error: BusError): Route {
    if cfg.hasDeadLetter then Via(DeadLetterQueue, Quarantine(d.props, error))
    else if cfg.ackMode.Manual? then SettleNow(Nack(false))
    else SettleNow(Ack)
  }

  function PoisonTrace(cfg: Config, d: Delivery, error: BusError, o: Oracle): seq<Effect> {
    if !cfg.ackMode.Unacknowledged? then RouteTrace(PoisonRoute(cfg, d, error), d.body, o)
    else if cfg.hasDeadLetter
        then [Published(DeadLetterQueue, Quarantine(d.props, error), d.body, PublishResult(o.publish))]
    else []
  }

  /** The outcome of verification, the signer checked against the broker's `user-id` when both are known. */
  function Verification(cfg: Config, d: Delivery, o: Oracle): Result<(), BusError> {
    if !cfg.hasSecurity then Ok(())
    else
      match o.verification
      case Err(fault) => Err(EnvelopeSecurity(fault))
      case Ok(issuer) =>
        if issuer.Some? && d.props.userId.Some? && issuer.value != d.props.userId.value
            then Err(EnvelopeSecurity(BrokerUserMismatch)) else Ok(())
  }

  function HandlerResult(h: HandlerCall): Result<(), BusError> {
    match h
    case NoHandler => Err(MissingHandler)
    case Panicked => Err(Internal)
    case Returned(result) => result
  }

  function DispatchTrace(cfg: Config, f: UuidFormat, d: Delivery, o: Oracle): seq<Effect> {
    if o.decoded.Err? then PoisonTrace(cfg, d, o.decoded.error, o)
    else
      var verified := Verification(cfg, d, o);
      if verified.Err? then PoisonTrace(cfg, d, verified.error, o)
      else
        var result := HandlerResult(o.handler);
        match cfg.ackMode
        case Manual =>
          [Verified, Handled(result)] + RouteTrace(ManualRoute(cfg, f, d, o.decoded.value, result), d.body, o)
        case AckOnReceive => [Verified, SettleCall(Ack, o.settles)] + (if o.settles then [Handled(result)] else [])
        case Unacknowledged => [Verified, Handled(result)]
  }

  /** Where one Manual dispatch goes. */
  function RouteOf(cfg: Config, f: UuidFormat, d: Delivery, o: Oracle): Route {
    if o.decoded.Err? then PoisonRoute(cfg, d, o.decoded.error)
    else
      var verified := Verification(cfg, d, o);
      if verified.Err? then PoisonRoute(cfg, d, verified.error)
      else ManualRoute(cfg, f, d, o.decoded.value, HandlerResult(o.handler))
  }

  /** The handler ran on this delivery and succeeded. */
  predicate Succeeded(cfg: Config, d: Delivery, o: Oracle) {
    o.decoded.Ok? && Verification(cfg, d, o).Ok? && HandlerResult(o.handler).Ok?
  }

  /** The effects of a Manual dispatch before it settles or republishes: none when the delivery was refused. */
  function HandlerEffects(cfg: Config, d: Delivery, o: Oracle): seq<Effect> {
    if o.decoded.Ok? && Verification(cfg, d, o).Ok? then [Verified, Handled(HandlerResult(o.handler))] else []
  }

  /** A Manual dispatch is its route's effects, after the handler's when the delivery got that far. */
  lemma ManualDispatch(cfg: Config, f: UuidFormat, d: Delivery, o: Oracle)
    requires cfg.ackMode.Manual?
    ensures DispatchTrace(cfg, f, d, o) == HandlerEffects(cfg, d, o) + RouteTrace(RouteOf(cfg, f, d, o), d.body, o)
  {
  }

  // ---- The code, sequencing broker effects ----

  class Channel {
    var log: seq<Effect>

    constructor ()
      ensures log == []
    {
      log := [];
    }

    method Publish(target: Target, copy: Properties, body: ByteString, o: Oracle) returns (r: Result<(), BusError>)
      modifies this
      ensures r == PublishResult(o.publish) && log == old(log) + [Published(target, copy, body, r)]
    {
      r := PublishResult(o.publish);
      log := log + [Published(target, copy, body, r)];
    }

    method Settle(op: SettleOp, o: Oracle) returns (r: Disposition)
      modifies this
      ensures log == old(log) + [SettleCall(op, o.settles)] && r == (if o.settles then Settled else LeftForRedelivery)
    {
      log := log + [SettleCall(op, o.settles)];
      return if o.settles then Settled else LeftForRedelivery;
    }

    method Note(e: Effect)
      modifies this
      ensures log == old(log) + [e]
    {
      log := log + [e];
    }
  }

  function DispositionOf(o: Oracle): Disposition {
    if o.settles then Settled else LeftForRedelivery
  }

  /** Publish, then settle: the original is acked only once the copy is stored. */
  method RetryCore(channel: Channel, copy: Properties, body: ByteString, o: Oracle) returns (r: Disposition)
    modifies channel
    ensures channel.log == old(channel.log) + RouteTrace(Via(WaitQueue, copy), body, o) && r == DispositionOf(o)
  {
    var published := channel.Publish(WaitQueue, copy, body, o);
    if published.Err? {
      r := channel.Settle(Nack(!published.error.Unroutable?), o);
      return;
    }
    r := channel.Settle(Ack, o);
  }

  /** Dead-letter when configured, then settle with `final`. */
  method ExhaustedCore(channel: Channel, deadLetter: Option<Properties>, body: ByteString, final: SettleOp, o: Oracle)
    returns (r: Disposition)
    modifies channel
    ensures var published := PublishResult(o.publish);
            channel.log == old(channel.log)
              + (if deadLetter.None? then [SettleCall(final, o.settles)]
                 else [Published(DeadLetterQueue, deadLetter.value, body, published),
                       SettleCall(if published.Ok? then final else SettleAfter(published), o.settles)])
    ensures r == DispositionOf(o)
  {
    if deadLetter.Some? {
      var published := channel.Publish(DeadLetterQueue, deadLetter.value, body, o);
      if published.Err? {
        r := channel.Settle(Nack(!published.error.Unroutable?), o);
        return;
      }
    }
    r := channel.Settle(final, o);
  }

  method HandlePoison(channel: Channel, cfg: Config, d: Delivery, error: BusError, o: Oracle) returns (r: Disposition)
    modifies channel
    ensures channel.log == old(channel.log) + PoisonTrace(cfg, d, error, o)
    ensures r == if cfg.ackMode.Unacknowledged? then Settled else DispositionOf(o)
  {
    if cfg.ackMode.Unacknowledged? {
      if cfg.hasDeadLetter {
        var published := channel.Publish(DeadLetterQueue, Quarantine(d.props, error), d.body, o);
      }
      return Settled;
    }
    var settlesWithNack := cfg.ackMode.Manual? && !cfg.hasDeadLetter;
    r := ExhaustedCore(channel, if cfg.hasDeadLetter then Some(Quarantine(d.props, error)) else None, d.body,
                       if settlesWithNack then Nack(false) else Ack, o);
  }

  method HandleManualOutcome(channel: Channel, cfg: Config, f: UuidFormat, d: Delivery, e: Envelope,
                             result: Result<(), BusError>, o: Oracle)
    returns (r: Disposition)
    modifies channel
    ensures channel.log == old(channel.log) + RouteTrace(ManualRoute(cfg, f, d, e, result), d.body, o)
    ensures r == DispositionOf(o)
  {
    if result.Ok? {
      r := channel.Settle(Ack, o);
      return;
    }
    var count := DeathCount(d.props, cfg.waitQueue);
    var current := if count == U32_MAX then U32_MAX else count + 1;
    match RouteFailure(result.error, current, cfg.maxAttempts) {
      case Retry => r := RetryCore(channel, RetryCopy(f, d.props, e.messageId, e.correlationId), d.body, o);
      case DeadLetter =>
        r := ExhaustedCore(channel, if cfg.hasDeadLetter then Some(d.props.(deliveryMode := Some(2))) else None,
                           d.body, Ack, o);
    }
  }

  method Dispatch(channel: Channel, cfg: Config, f: UuidFormat, d: Delivery, o: Oracle) returns (r: Disposition)
    modifies channel
    ensures channel.log == old(channel.log) + DispatchTrace(cfg, f, d, o)
    ensures r == if cfg.ackMode.Unacknowledged? then Settled else DispositionOf(o)
  {
    if o.decoded.Err? {
      r := HandlePoison(channel, cfg, d, o.decoded.error, o);
      return;
    }
    // Identity first: nothing may settle a delivery as a success before it is established.
    var verified := Verification(cfg, d, o);
    if verified.Err? {
      r := HandlePoison(channel, cfg, d, verified.error, o);
      return;
    }
    channel.Note(Verified);
    if cfg.ackMode.AckOnReceive? {
      r := channel.Settle(Ack, o);
      if r.LeftForRedelivery? {
        return;
      }
    }
    var result := HandlerResult(o.handler);
    channel.Note(Handled(result));
    match cfg.ackMode {
      case Manual => r := HandleManualOutcome(channel, cfg, f, d, o.decoded.value, result, o);
      case AckOnReceive => r := Settled;
      case Unacknowledged => r := Settled;
    }
  }

  // ---- What decides where a delivery goes ----

  /** The original is let go exactly when its copy is queued, and dropped exactly when the broker returned the copy. */
  lemma SettleMatchesBroker(o: PublishOutcome)
    ensures SettleAfter(PublishResult(o)) == Ack <==> o == Confirmed(AckConfirmation(false))
    ensures SettleAfter(PublishResult(o)) == Nack(false)
            <==> o.Confirmed? && !o.confirmation.NotRequested? && o.confirmation.returned
  {
  }

  /**
   A failure is retried exactly when it is not permanent and the raw count leaves an attempt,
   whatever its sign or size.
   */
  lemma RetriedExactly(cfg: Config, f: UuidFormat, d: Delivery, e: Envelope, error: BusError)
    requires cfg.Valid()
    ensures var route := ManualRoute(cfg, f, d, e, Err(error));
            route.Via? && route.target.WaitQueue?
            <==> && !IsPermanentDeliveryFailure(error)
                 && 1 < cfg.maxAttempts && RawCount(d.props, cfg.waitQueue) + 1 < cfg.maxAttempts
  {
  }

  /**
   A delivery refused by decoding is quarantined under a header table the same limits accept,
   unless its payload was too large: that is checked first, and its table is copied unread.
   */
  lemma QuarantineIsReadable(cfg: Config, f: UuidFormat, p: Platform, d: Delivery, minted: Minted,
                             r: Result<Envelope, BusError>)
    requires DecodesTo(f, p, d.props, d.body, cfg.maxPayload, cfg.limits, cfg.required, minted, r) && r.Err?
    ensures MetadataAccepted(Quarantine(d.props, r.error), cfg.limits)
            <==> |d.body| <= cfg.maxPayload || MetadataAccepted(d.props, cfg.limits)
  {
    assert TableWeight(map[]) == 0;
  }

  ghost predicate RunsHandler(trace: seq<Effect>) {
    exists i :: 0 <= i < |trace| && trace[i].Handled?
  }

  /**
   The handler sees a delivery exactly when it decoded and verified and, where the ack comes first,
   the ack went out.
   */
  lemma HandledExactly(cfg: Config, f: UuidFormat, d: Delivery, o: Oracle)
    ensures RunsHandler(DispatchTrace(cfg, f, d, o))
            <==> o.decoded.Ok? && Verification(cfg, d, o).Ok? && (cfg.ackMode.AckOnReceive? ==> o.settles)
  {
    var trace := DispatchTrace(cfg, f, d, o);
    if o.decoded.Ok? && Verification(cfg, d, o).Ok? && !cfg.ackMode.AckOnReceive? {
      assert trace[1] == Handled(HandlerResult(o.handler));
    } else if o.decoded.Ok? && Verification(cfg, d, o).Ok? && o.settles {
      assert trace[2] == Handled(HandlerResult(o.handler));
    }
  }

  /** With a dead-letter queue, every delivery kept from its handler is copied there first, whatever the ack mode. */
  lemma RefusedIsQuarantined(cfg: Config, f: UuidFormat, d: Delivery, o: Oracle)
    requires cfg.hasDeadLetter && (o.decoded.Err? || Verification(cfg, d, o).Err?)
    ensures var trace := DispatchTrace(cfg, f, d, o);
            |trace| >= 1 && trace[0].Published? && trace[0].target.DeadLetterQueue? && trace[0].body == d.body
  {
  }

  // ---- Exact settlement ----

  function SettleCalls(trace: seq<Effect>): nat {
    if trace == [] then 0 else (if trace[0].SettleCall? then 1 else 0) + SettleCalls(trace[1..])
  }

  lemma {:induction false} SettleCallsAppend(a: seq<Effect>, b: seq<Effect>)
    ensures SettleCalls(a + b) == SettleCalls(a) + SettleCalls(b)
  {
    if a == [] {
      assert a + b == b;
    } else {
      assert (a + b)[1..] == a[1..] + b;
      SettleCallsAppend(a[1..], b);
    }
  }

  lemma OneEffect(a: Effect)
    ensures SettleCalls([a]) == if a.SettleCall? then 1 else 0
  {
    assert [a][1..] == [];
  }

  lemma TwoEffects(a: Effect, b: Effect)
    ensures SettleCalls([a, b]) == (if a.SettleCall? then 1 else 0) + (if b.SettleCall? then 1 else 0)
  {
    OneEffect(b);
    assert [a, b][1..] == [b];
  }

  lemma RouteSettlesOnce(route: Route, body: ByteString, o: Oracle)
    ensures SettleCalls(RouteTrace(route, body, o)) == 1
  {
    var trace := RouteTrace(route, body, o);
    if route.SettleNow? {
      OneEffect(trace[0]);
    } else {
      TwoEffects(trace[0], trace[1]);
    }
  }

  /** Every path of every dispatch makes exactly one settle call, and none under `no_ack`. */
  lemma ExactSettlement(cfg: Config, f: UuidFormat, d: Delivery, o: Oracle)
    ensures SettleCalls(DispatchTrace(cfg, f, d, o)) == if cfg.ackMode.Unacknowledged? then 0 else 1
  {
    var verified := Verification(cfg, d, o);
    if o.decoded.Err? {
      PoisonSettlesOnce(cfg, d, o.decoded.error, o);
    } else if verified.Err? {
      PoisonSettlesOnce(cfg, d, verified.error, o);
    } else {
      var result := HandlerResult(o.handler);
      TwoEffects(Verified, Handled(result));
      TwoEffects(Verified, SettleCall(Ack, o.settles));
      var route := ManualRoute(cfg, f, d, o.decoded.value, result);
      RouteSettlesOnce(route, d.body, o);
      SettleCallsAppend([Verified, Handled(result)], RouteTrace(route, d.body, o));
      SettleCallsAppend([Verified, SettleCall(Ack, o.settles)], if o.settles then [Handled(result)] else []);
      OneEffect(Handled(result));
    }
  }

  lemma PoisonSettlesOnce(cfg: Config, d: Delivery, error: BusError, o: Oracle)
    ensures SettleCalls(PoisonTrace(cfg, d, error, o)) == if cfg.ackMode.Unacknowledged? then 0 else 1
  {
    RouteSettlesOnce(PoisonRoute(cfg, d, error), d.body, o);
    OneEffect(Published(DeadLetterQueue, Quarantine(d.props, error), d.body, PublishResult(o.publish)));
  }

  /** The delivery was acked although nothing had established who sent it. */
  ghost predicate AckedUnverified(trace: seq<Effect>) {
    exists i :: 0 <= i < |trace| && IsAck(trace[i]) && Verified !in trace[..i]
  }

  predicate IsAck(e: Effect) {
    e.SettleCall? && e.op == Ack
  }

  /** The delivery did not decode, or its sender did not verify. */
  predicate Refused(cfg: Config, d: Delivery, o: Oracle) {
    o.decoded.Err? || Verification(cfg, d, o).Err?
  }

  /**
   A delivery is acked unverified exactly when it was refused, the mode settles at all, and
   either its dead-letter copy is confirmed or there is no dead-letter queue to copy it to and
   the worker acks on receive.
   */
  lemma AckFollowsVerification(cfg: Config, f: UuidFormat, d: Delivery, o: Oracle)
    ensures AckedUnverified(DispatchTrace(cfg, f, d, o))
            <==> && Refused(cfg, d, o) && !cfg.ackMode.Unacknowledged?
                 && if cfg.hasDeadLetter then o.publish == Confirmed(AckConfirmation(false))
                     else cfg.ackMode.AckOnReceive?
  {
    var trace := DispatchTrace(cfg, f, d, o);
    if !Refused(cfg, d, o) {
      assert trace[0] == Verified;
      forall i | 0 <= i < |trace| && IsAck(trace[i])
        ensures Verified in trace[..i]
      {
        assert trace[..i][0] == Verified;
      }
    } else if !cfg.ackMode.Unacknowledged? {
      RefusedAck(cfg, d, if o.decoded.Err? then o.decoded.error else Verification(cfg, d, o).error, o);
    }
  }

  lemma RefusedAck(cfg: Config, d: Delivery, error: BusError, o: Oracle)
    requires !cfg.ackMode.Unacknowledged?
    ensures AckedUnverified(PoisonTrace(cfg, d, error, o))
            <==> if cfg.hasDeadLetter then o.publish == Confirmed(AckConfirmation(false)) else cfg.ackMode.AckOnReceive?
  {
    var trace := PoisonTrace(cfg, d, error, o);
    SettleMatchesBroker(o.publish);
    assert Verified !in trace;
    var last := |trace| - 1;
    assert IsAck(trace[last]) ==> Verified !in trace[..last];
  }

  /** The failing family: an ack-on-receive worker without a dead-letter queue acks every delivery it refuses. */
  lemma RefusedDropIsAcked(cfg: Config, f: UuidFormat, d: Delivery, o: Oracle)
    requires cfg.ackMode.AckOnReceive? && !cfg.hasDeadLetter && Refused(cfg, d, o)
    ensures DispatchTrace(cfg, f, d, o) == [SettleCall(Ack, o.settles)] && AckedUnverified(DispatchTrace(cfg, f, d, o))
  {
    AckFollowsVerification(cfg, f, d, o);
  }
}
