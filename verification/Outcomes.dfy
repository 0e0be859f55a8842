/**
 What a dispatch comes to, stated on what it learnt: the decode, the verifier's answer, the
 handler's own result, the broker's confirmation (`hexeract-bus-rabbitmq/src/worker.rs`).
 */
module Outcomes {
  import opened Bytes
  import opened Envelopes
  import opened Amqp
  import opened Metadata
  import opened Wire
  import opened Worker
  import opened Retries

  // ---- The conditions, on the inputs alone ----

  /** Without security anybody is trusted; with it, a verified sender whom the broker does not contradict. */
  predicate Trusted(cfg: Config, d: Delivery, o: Oracle) {
    cfg.hasSecurity ==>
      && o.verification.Ok?
      && (o.verification.value.Some? && d.props.userId.Some? ==> o.verification.value == d.props.userId)
  }

  /** Nothing keeps the delivery from its handler. */
  predicate Cleared(cfg: Config, d: Delivery, o: Oracle) {
    o.decoded.Ok? && Trusted(cfg, d, o)
  }

  /** The handler returned, and returned success. */
  predicate HandledWell(cfg: Config, d: Delivery, o: Oracle) {
    Cleared(cfg, d, o) && o.handler == Returned(Ok(()))
  }

  /** A panic, or an error that another attempt may cure. */
  predicate MayRecover(h: HandlerCall) {
    match h
    case NoHandler => false
    case Panicked => true
    case Returned(Ok(_)) => false
    case Returned(Err(error)) => !error.MissingHandler? && !error.ReplyUndeliverable?
  }

  predicate Retried(cfg: Config, d: Delivery, o: Oracle) {
    && cfg.ackMode.Manual? && Cleared(cfg, d, o) && MayRecover(o.handler)
    && 1 < cfg.maxAttempts && RawCount(d.props, cfg.waitQueue) + 1 < cfg.maxAttempts
  }

  predicate DeadLettered(cfg: Config, d: Delivery, o: Oracle) {
    && cfg.hasDeadLetter
    && if cfg.ackMode.Manual? then !HandledWell(cfg, d, o) && !Retried(cfg, d, o) else !Cleared(cfg, d, o)
  }

  /** The broker confirmed the copy and did not return it. */
  predicate Stored(o: Oracle) {
    o.publish == Confirmed(AckConfirmation(false))
  }

  predicate ReturnsCopy(outcome: PublishOutcome) {
    outcome.Confirmed? && !outcome.confirmation.NotRequested? && outcome.confirmation.returned
  }

  // ---- What a trace shows ----

  ghost predicate CopiesTo(trace: seq<Effect>, target: Target) {
    exists i :: 0 <= i < |trace| && IsCopy(trace[i], target)
  }

  predicate IsCopy(e: Effect, target: Target) {
    e.Published? && e.target == target
  }

  ghost predicate SettlesWith(trace: seq<Effect>, op: SettleOp) {
    exists i :: 0 <= i < |trace| && IsSettle(trace[i], op)
  }

  predicate IsSettle(e: Effect, op: SettleOp) {
    e.SettleCall? && e.op == op
  }

  lemma CopiesAppend(a: seq<Effect>, b: seq<Effect>, target: Target)
    ensures CopiesTo(a + b, target) <==> CopiesTo(a, target) || CopiesTo(b, target)
  {
    forall i | 0 <= i < |a|
      ensures (a + b)[i] == a[i]
    {
    }
    forall i | 0 <= i < |b|
      ensures (a + b)[|a| + i] == b[i]
    {
    }
  }

  lemma SettlesAppend(a: seq<Effect>, b: seq<Effect>, op: SettleOp)
    ensures SettlesWith(a + b, op) <==> SettlesWith(a, op) || SettlesWith(b, op)
  {
    forall i | 0 <= i < |a|
      ensures (a + b)[i] == a[i]
    {
    }
    forall i | 0 <= i < |b|
      ensures (a + b)[|a| + i] == b[i]
    {
    }
  }

  lemma RouteShows(route: Route, body: ByteString, o: Oracle, target: Target, op: SettleOp)
    ensures CopiesTo(RouteTrace(route, body, o), target) <==> route.Via? && route.target == target
    ensures SettlesWith(RouteTrace(route, body, o), op)
            <==> if route.SettleNow? then op == route.op
                 else op == (if Stored(o) then Ack else Nack(!ReturnsCopy(o.publish)))
  {
    var trace := RouteTrace(route, body, o);
    SettleMatchesBroker(o.publish);
    if route.SettleNow? {
      assert trace[0] == SettleCall(route.op, o.settles);
    } else {
      assert IsCopy(trace[0], route.target) && trace[1].SettleCall?;
    }
  }

  // ---- Each dispatch, exactly ----

  lemma RefusedExactly(cfg: Config, d: Delivery, o: Oracle)
    ensures Refused(cfg, d, o) <==> !Cleared(cfg, d, o)
  {
  }

  lemma SuccessIsUnit(h: HandlerCall)
    ensures h == Returned(Ok(())) <==> h.Returned? && h.result.Ok?
  {
    if h.Returned? && h.result.Ok? {
      var unit := h.result.value;
      assert unit == ();
    }
  }

  lemma RouteExactly(cfg: Config, f: UuidFormat, d: Delivery, o: Oracle)
    requires cfg.Valid() && cfg.ackMode.Manual?
    ensures var route := RouteOf(cfg, f, d, o);
            && (route.Via? && route.target.WaitQueue? <==> Retried(cfg, d, o))
            && (route.Via? && route.target.DeadLetterQueue? <==> DeadLettered(cfg, d, o))
            && (route.SettleNow? ==> route.op == if Cleared(cfg, d, o) then Ack else Nack(false))
  {
    RefusedExactly(cfg, d, o);
    SuccessIsUnit(o.handler);
    if Cleared(cfg, d, o) && HandlerResult(o.handler).Err? {
      RetriedExactly(cfg, f, d, o.decoded.value, HandlerResult(o.handler).error);
    }
  }

  /** A copy of a delivery is published, and the delivery settled by what becomes of it. */
  predicate Copied(cfg: Config, d: Delivery, o: Oracle) {
    Retried(cfg, d, o) || DeadLettered(cfg, d, o)
  }

  /** In Manual mode, what a dispatch publishes and how it settles follow from what it learnt. */
  lemma ManualExactly(cfg: Config, f: UuidFormat, d: Delivery, o: Oracle, target: Target, op: SettleOp)
    requires cfg.Valid() && cfg.ackMode.Manual?
    ensures var trace := DispatchTrace(cfg, f, d, o);
            && (CopiesTo(trace, target) <==> if target.WaitQueue? then Retried(cfg, d, o) else DeadLettered(cfg, d, o))
            && (SettlesWith(trace, op)
                <==> op == if Copied(cfg, d, o)
                           then (if Stored(o) then Ack else Nack(!ReturnsCopy(o.publish)))
                           else if Cleared(cfg, d, o) then Ack else Nack(false))
  {
    var before, route := HandlerEffects(cfg, d, o), RouteOf(cfg, f, d, o);
    ManualDispatch(cfg, f, d, o);
    RouteExactly(cfg, f, d, o);
    RouteShows(route, d.body, o, target, op);
    CopiesAppend(before, RouteTrace(route, d.body, o), target);
    SettlesAppend(before, RouteTrace(route, d.body, o), op);
  }

  /**
   With a dead-letter queue, a Manual worker acks a delivery without copying it anywhere
   exactly when it decoded, its sender was trusted, and its handler returned success.
   */
  lemma AckedAloneExactly(cfg: Config, f: UuidFormat, d: Delivery, o: Oracle)
    requires cfg.Valid() && cfg.ackMode.Manual? && cfg.hasDeadLetter
    ensures var trace := DispatchTrace(cfg, f, d, o);
            SettlesWith(trace, Ack) && !CopiesTo(trace, WaitQueue) && !CopiesTo(trace, DeadLetterQueue)
            <==> HandledWell(cfg, d, o)
  {
    ManualExactly(cfg, f, d, o, WaitQueue, Ack);
    ManualExactly(cfg, f, d, o, DeadLetterQueue, Ack);
  }

  /**
   In the two other modes nothing is retried, and a copy is made of a refused delivery only.
   AckOnReceive acks whatever it admits, and what it refuses once the copy is stored or where
   there is no queue to copy it to; without acknowledgements nothing is settled.
   */
  lemma UnmanagedExactly(cfg: Config, f: UuidFormat, d: Delivery, o: Oracle, target: Target, op: SettleOp)
    requires !cfg.ackMode.Manual?
    ensures var trace := DispatchTrace(cfg, f, d, o);
            && (CopiesTo(trace, target) <==> target.DeadLetterQueue? && DeadLettered(cfg, d, o))
            && (SettlesWith(trace, op)
                <==> && cfg.ackMode.AckOnReceive?
                     && op == if DeadLettered(cfg, d, o) && !Stored(o) then Nack(!ReturnsCopy(o.publish)) else Ack)
  {
    var trace := DispatchTrace(cfg, f, d, o);
    RefusedExactly(cfg, d, o);
    if !Cleared(cfg, d, o) {
      var error := if o.decoded.Err? then o.decoded.error else Verification(cfg, d, o).error;
      if cfg.ackMode.AckOnReceive? {
        RouteShows(PoisonRoute(cfg, d, error), d.body, o, target, op);
      } else if cfg.hasDeadLetter {
        assert IsCopy(trace[0], DeadLetterQueue);
      }
    } else if cfg.ackMode.AckOnReceive? {
      assert IsSettle(trace[1], Ack);
    }
  }

  // ---- In what order ----

  /** The handler's own result, a panic or a missing handler being an error. */
  predicate Reports(h: HandlerCall, result: Result<(), BusError>) {
    match h
    case NoHandler => result == Err(MissingHandler)
    case Panicked => result == Err(Internal)
    case Returned(own) => result == own
  }

  /**
   Nothing happens before the sender is established but the quarantine of a refused delivery;
   a copy is published before the delivery is settled; and the handler runs before both,
   except that AckOnReceive acks first and runs it only once the ack went out.
   */
  lemma EffectsInOrder(cfg: Config, f: UuidFormat, d: Delivery, o: Oracle, i: nat, j: nat)
    requires i < j < |DispatchTrace(cfg, f, d, o)|
    ensures var before, after := DispatchTrace(cfg, f, d, o)[i], DispatchTrace(cfg, f, d, o)[j];
            && !after.Verified?
            && (before.SettleCall? ==> cfg.ackMode.AckOnReceive? && before == SettleCall(Ack, true) && after.Handled?)
            && (before.Published? ==> after.SettleCall?)
            && (before.Handled? ==> cfg.ackMode.Manual? && Reports(o.handler, before.result))
            && (after.Handled? ==> Cleared(cfg, d, o) && Reports(o.handler, after.result))
  {
    RefusedExactly(cfg, d, o);
    if Cleared(cfg, d, o) && cfg.ackMode.Manual? {
      ManualDispatch(cfg, f, d, o);
    }
  }

  // ---- What the copies are ----

  /** Signed deliveries are decoded strictly, and so is everything where signatures are required. */
  predicate DecodedStrictly(cfg: Config, d: Delivery) {
    SIGNATURE_HEADER in StringHeaders(TableOf(d.props), true) || cfg.required.Strict?
  }

  /** An identifier or a timestamp that signing requires is not there, or no clock here can represent the timestamp. */
  predicate BadFields(f: UuidFormat, p: Platform, props: Properties, strict: bool) {
    || (strict && !HasIdentity(f, props))
    || (props.kind.Some?
        && if props.timestamp.None? then strict else !p.Represents(props.timestamp.value * NANOS_PER_SECOND))
  }

  /**
   The metadata of a delivery that is not to be trusted. The payload is looked at first, and the
   type before the timestamp: a delivery that fails there keeps what was not read.
   */
  ghost predicate BadMetadata(cfg: Config, f: UuidFormat, p: Platform, d: Delivery) {
    && |d.body| <= cfg.maxPayload
    && (|| !MetadataAccepted(d.props, cfg.limits)
        || BadFields(f, p, d.props, DecodedStrictly(cfg, d)))
  }

  lemma RestoreFaults(f: UuidFormat, p: Platform, props: Properties, body: ByteString, required: RequiredFields,
                      minted: Minted, headers: (Headers, Headers))
    ensures var r := Restore(f, p, props, body, required, minted, headers);
            var strict := SIGNATURE_HEADER in headers.1 || required.Strict?;
            && (BadFields(f, p, props, strict) ==> r.Err?)
            && (r.Err? ==> (NeedsSanitizedQuarantine(r.error) <==> BadFields(f, p, props, strict)))
  {
  }

  lemma SanitizedFor(cfg: Config, f: UuidFormat, p: Platform, d: Delivery, minted: Minted,
                     r: Result<Envelope, BusError>)
    requires DecodesTo(f, p, d.props, d.body, cfg.maxPayload, cfg.limits, cfg.required, minted, r)
    ensures BadMetadata(cfg, f, p, d) ==> r.Err?
    ensures r.Err? ==> (NeedsSanitizedQuarantine(r.error) <==> BadMetadata(cfg, f, p, d))
  {
    if |d.body| <= cfg.maxPayload && MetadataAccepted(d.props, cfg.limits) {
      var t := TableOf(d.props);
      RestoreFaults(f, p, d.props, d.body, cfg.required, minted, (StringHeaders(t, false), StringHeaders(t, true)));
    }
  }

  /** The metadata is bad, or the delivery decoded and its sender was not trusted. */
  ghost predicate Discredited(cfg: Config, f: UuidFormat, p: Platform, d: Delivery, o: Oracle) {
    BadMetadata(cfg, f, p, d) || (o.decoded.Ok? && !Trusted(cfg, d, o))
  }

  /** The delivery itself made persistent, or what is left of one that is discredited. */
  ghost function DeadLetterCopy(cfg: Config, f: UuidFormat, p: Platform, d: Delivery, o: Oracle): Properties {
    if Discredited(cfg, f, p, d, o) then d.props.(headers := Some(map[]), userId := None, deliveryMode := Some(2))
    else d.props.(deliveryMode := Some(2))
  }

  lemma QuarantineExactly(cfg: Config, f: UuidFormat, p: Platform, d: Delivery, minted: Minted, o: Oracle)
    requires DecodesTo(f, p, d.props, d.body, cfg.maxPayload, cfg.limits, cfg.required, minted, o.decoded)
    ensures o.decoded.Err? ==> Quarantine(d.props, o.decoded.error) == DeadLetterCopy(cfg, f, p, d, o)
    ensures o.decoded.Ok? && Verification(cfg, d, o).Err?
            ==> Quarantine(d.props, Verification(cfg, d, o).error) == DeadLetterCopy(cfg, f, p, d, o)
    ensures Cleared(cfg, d, o) ==> d.props.(deliveryMode := Some(2)) == DeadLetterCopy(cfg, f, p, d, o)
  {
    SanitizedFor(cfg, f, p, d, minted, o.decoded);
    RefusedExactly(cfg, d, o);
  }

  /**
   A dead-letter copy is the delivery itself, made persistent; only where its metadata is bad or
   its sender was not trusted does it lose its header table and its `user-id`.
   */
  lemma DeadLetterCopyExactly(cfg: Config, f: UuidFormat, p: Platform, d: Delivery, minted: Minted, o: Oracle)
    requires DecodesTo(f, p, d.props, d.body, cfg.maxPayload, cfg.limits, cfg.required, minted, o.decoded)
    ensures var trace := DispatchTrace(cfg, f, d, o);
            forall i :: 0 <= i < |trace| && IsCopy(trace[i], DeadLetterQueue)
                        ==> trace[i].body == d.body && trace[i].copy == DeadLetterCopy(cfg, f, p, d, o)
    ensures var route := RouteOf(cfg, f, d, o);
            route.Via? && route.target.DeadLetterQueue? ==> route.copy == DeadLetterCopy(cfg, f, p, d, o)
  {
    QuarantineExactly(cfg, f, p, d, minted, o);
    RefusedExactly(cfg, d, o);
  }

  /**
   A retry copy is the delivery itself, made persistent, under the identity its handler saw,
   whether that was on the wire or minted for this attempt.
   */
  lemma RetryCopyExactly(cfg: Config, f: UuidFormat, p: Platform, d: Delivery, minted: Minted, o: Oracle, i: nat)
    requires f.Lawful()
    requires DecodesTo(f, p, d.props, d.body, cfg.maxPayload, cfg.limits, cfg.required, minted, o.decoded)
    requires i < |DispatchTrace(cfg, f, d, o)| && IsCopy(DispatchTrace(cfg, f, d, o)[i], WaitQueue)
    ensures DispatchTrace(cfg, f, d, o)[i].body == d.body && o.decoded.Ok?
    ensures var copy := DispatchTrace(cfg, f, d, o)[i].copy;
            && copy == d.props.(messageId := copy.messageId, correlationId := copy.correlationId,
                                deliveryMode := Some(2))
            && SameMessage(f, d.props, copy) && HasIdentity(f, copy)
            && f.parse(copy.messageId.value) == Some(o.decoded.value.messageId)
            && f.parse(copy.correlationId.value) == Some(o.decoded.value.correlationId)
  {
    var e := o.decoded.value;
    var t := TableOf(d.props);
    DecodedIdentity(f, p, d.props, d.body, cfg.required, minted, (StringHeaders(t, false), StringHeaders(t, true)));
    RetryKeepsMessage(f, d.props, e.messageId, e.correlationId);
    assert f.parse(f.render(e.messageId)) == Some(e.messageId);
    assert f.parse(f.render(e.correlationId)) == Some(e.correlationId);
  }
}
