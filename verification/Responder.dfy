/**
 The responder (`hexeract-bus/src/replied_handler.rs`, `responder_counters.rs`): five
 ordered guards, the handler, a second look at the deadline, and at most one reply.
 */
module Responder {
  import opened Bytes
  import opened Envelopes
  import opened Wire
  import opened Deadlines
  import opened Replies

  /** What the handler returned: a reply (`None` when it does not serialize) or an error. */
  datatype HandlerOutcome = Produced(payload: Option<ByteString>) | Failed(error: BusError)

  /** Everything one dispatch reads off the outside world. */
  datatype Circumstances = Circumstances(
    acceptsDestination: Text -> bool,
    wallClock: int,
    anchoredAt: int,
    payloadDecodes: bool,
    handler: HandlerOutcome,
    handledAt: int,
    stamp: Stamp,
    publishResult: Result<(), BusError>)

  datatype Outcome = Replied | RepliedWithError | Dropped | SuppressedAfterDeadline

  /** Where a dispatch ended: at a guard, on an undecodable payload, or past the handler. */
  datatype Ending = InvalidReplyTo | InvalidRequestId | UnsupportedProtocolVersion | ExpiredDeadline | InvalidDeadline
    | UndecodablePayload | ReplyDroppedAfterDeadline | ReplyDelivered

  /** Only an unroutable reply is translated: its inbox is gone for good. */
  function DeliveryResult(r: Result<(), BusError>): Result<(), BusError> {
    if r.Err? && r.error.Unroutable? then Err(ReplyUndeliverable) else r
  }

  function DestinationAccepted(e: Envelope, c: Circumstances): bool {
    e.replyTo.Some? && c.acceptsDestination(e.replyTo.value)
  }

  function DeadlineOf(p: Platform, e: Envelope, c: Circumstances): DeadlineReading {
    ReadDeadline(p, Header(e, DEADLINE_HEADER), c.wallClock, c.anchoredAt)
  }

  /** The first guard an envelope fails decides where its dispatch ends. */
  function EndingOf(f: Formats, p: Platform, e: Envelope, c: Circumstances): Ending {
    var deadline := DeadlineOf(p, e, c);
    if !DestinationAccepted(e, c) then InvalidReplyTo
    else if ReadRequestId(f.uuid, e).None? then InvalidRequestId
    else if ReadProtocolVersion(e) != Some(PROTOCOL_VERSION) then UnsupportedProtocolVersion
    else if deadline.Expired? then ExpiredDeadline
    else if deadline.Invalid? then InvalidDeadline
    else if !c.payloadDecodes then UndecodablePayload
    else if deadline.Live? && deadline.deadline.IsExpired(c.handledAt) then ReplyDroppedAfterDeadline
    else ReplyDelivered
  }

  /** A request every guard lets through to its handler. */
  predicate PastTheGuards(f: Formats, p: Platform, e: Envelope, c: Circumstances) {
    && DestinationAccepted(e, c) && ReadRequestId(f.uuid, e).Some? && ReadProtocolVersion(e) == Some(PROTOCOL_VERSION)
    && (DeadlineOf(p, e, c).Absent? || DeadlineOf(p, e, c).Live?) && c.payloadDecodes
  }

  predicate RunsHandler(ending: Ending) {
    ending.ReplyDroppedAfterDeadline? || ending.ReplyDelivered?
  }

  /** What the responder reports of a dispatch: the translated failure of its publication, or how it went. */
  function ReportOf(ending: Ending, c: Circumstances): Result<Outcome, BusError> {
    var delivered := DeliveryResult(c.publishResult);
    if Publishes(ending) && delivered.Err? then Err(delivered.error)
    else
      match ending
      case ReplyDelivered => Ok(if c.handler.Produced? then Replied else RepliedWithError)
      case ReplyDroppedAfterDeadline => Ok(SuppressedAfterDeadline)
      case _ => Ok(Dropped)
  }

  predicate Publishes(ending: Ending) {
    ending in {UnsupportedProtocolVersion, InvalidDeadline, UndecodablePayload, ReplyDelivered}
  }

  /** The reply a publishing dispatch hands to the publisher. */
  function ReplyOf(f: Formats, replyType: Text, e: Envelope, c: Circumstances, requestId: Uuid,
                   ending: Ending): Envelope {
    match ending
    case UnsupportedProtocolVersion => ErrorReply(f, Unsupported, e.correlationId, requestId, c.stamp)
    case ReplyDelivered =>
      (match c.handler
       case Produced(Some(payload)) => OkReply(f, replyType, payload, e.correlationId, requestId, c.stamp)
       case Produced(None) => ErrorReply(f, InternalFailure, e.correlationId, requestId, c.stamp)
       case Failed(error) => ErrorReply(f, FromBusError(error), e.correlationId, requestId, c.stamp))
    case _ => ErrorReply(f, Malformed, e.correlationId, requestId, c.stamp)
  }

  /** The publication of a dispatch that makes one. */
  function Publication(f: Formats, p: Platform, replyType: Text, e: Envelope, c: Circumstances): (Text, Envelope)
    requires Publishes(EndingOf(f, p, e, c))
  {
    (e.replyTo.value, ReplyOf(f, replyType, e, c, ReadRequestId(f.uuid, e).value, EndingOf(f, p, e, c)))
  }

  // ---- Which ending, what report, what answer ----

  /** The first three guards pass: the request can be answered, and in the version spoken. */
  predicate Answerable(f: Formats, e: Envelope, c: Circumstances) {
    DestinationAccepted(e, c) && ReadRequestId(f.uuid, e).Some? && AnnouncesVersion(e, 1)
  }

  /** The handler returned no later than the deadline, if there is one. */
  predicate InTime(p: Platform, e: Envelope, c: Circumstances) {
    DeadlineOf(p, e, c).Live? ==> c.handledAt <= DeadlineOf(p, e, c).deadline.expiresAt
  }

  /** Each ending on what the request says: an earlier guard is judged before a later one. */
  lemma EndingExactly(f: Formats, p: Platform, e: Envelope, c: Circumstances)
    ensures var ending, deadline := EndingOf(f, p, e, c), DeadlineOf(p, e, c);
            && (ending.InvalidReplyTo? <==> !DestinationAccepted(e, c))
            && (ending.InvalidRequestId? <==> DestinationAccepted(e, c) && ReadRequestId(f.uuid, e).None?)
            && (ending.UnsupportedProtocolVersion?
                <==> DestinationAccepted(e, c) && ReadRequestId(f.uuid, e).Some? && !AnnouncesVersion(e, 1))
            && (ending.ExpiredDeadline? <==> Answerable(f, e, c) && deadline.Expired?)
            && (ending.InvalidDeadline? <==> Answerable(f, e, c) && deadline.Invalid?)
            && (ending.UndecodablePayload?
                <==> Answerable(f, e, c) && (deadline.Absent? || deadline.Live?) && !c.payloadDecodes)
            && (ending.ReplyDroppedAfterDeadline? <==> PastTheGuards(f, p, e, c) && !InTime(p, e, c))
            && (ending.ReplyDelivered? <==> PastTheGuards(f, p, e, c) && InTime(p, e, c))
  {
  }

  /** What is reported of a dispatch, on what the handler and the publisher returned. */
  lemma ReportExactly(f: Formats, p: Platform, e: Envelope, c: Circumstances)
    ensures var report := ReportOf(EndingOf(f, p, e, c), c);
            var answered := PastTheGuards(f, p, e, c) && InTime(p, e, c);
            && (report == Ok(Replied) <==> answered && c.handler.Produced? && c.publishResult.Ok?)
            && (report == Ok(RepliedWithError) <==> answered && c.handler.Failed? && c.publishResult.Ok?)
            && (report == Ok(SuppressedAfterDeadline) <==> PastTheGuards(f, p, e, c) && !InTime(p, e, c))
            && (report.Err? <==> Publishes(EndingOf(f, p, e, c)) && c.publishResult.Err?)
            && (report.Err? ==> report.error == if c.publishResult.error.Unroutable? then ReplyUndeliverable
                                                else c.publishResult.error)
  {
    EndingExactly(f, p, e, c);
  }

  /** The category of an error reply: which guard refused the request, or how its handler failed. */
  predicate Fails(f: Formats, p: Platform, e: Envelope, c: Circumstances, category: RemoteErrorType) {
    var handled := PastTheGuards(f, p, e, c);
    match category
    case Unsupported => !AnnouncesVersion(e, 1)
    case Malformed => AnnouncesVersion(e, 1) && (!handled || (c.handler.Failed? && IsMalformed(c.handler.error)))
    case Unavailable => handled && c.handler.Failed? && IsUnavailable(c.handler.error)
    case InternalFailure =>
      handled && (c.handler == Produced(None) || (c.handler.Failed? && IsInternal(c.handler.error)))
    case ExpiredRequest => false
  }

  /** The published reply is nominal with the handler's own payload, or an error of the rightful category. */
  lemma PublicationExactly(f: Formats, p: Platform, replyType: Text, e: Envelope, c: Circumstances)
    requires Publishes(EndingOf(f, p, e, c))
    ensures var id, reply := ReadRequestId(f.uuid, e).value, Publication(f, p, replyType, e, c).1;
            && (forall payload :: PastTheGuards(f, p, e, c) && c.handler == Produced(Some(payload))
                                  ==> reply == OkReply(f, replyType, payload, e.correlationId, id, c.stamp))
            && (forall category :: Fails(f, p, e, c, category)
                                   ==> reply == ErrorReply(f, category, e.correlationId, id, c.stamp))
            && (|| (PastTheGuards(f, p, e, c) && c.handler.Produced? && c.handler.payload.Some?)
                || exists category :: Fails(f, p, e, c, category))
  {
    EndingExactly(f, p, e, c);
    var ending := EndingOf(f, p, e, c);
    if ending.UnsupportedProtocolVersion? {
      assert Fails(f, p, e, c, Unsupported);
    } else if !ending.ReplyDelivered? {
      assert Fails(f, p, e, c, Malformed);
    } else if c.handler == Produced(None) {
      assert Fails(f, p, e, c, InternalFailure);
    } else if c.handler.Failed? {
      CategoryExactly(c.handler.error);
      assert Fails(f, p, e, c, FromBusError(c.handler.error));
    }
  }

  /** The six shared totals of `ResponderCounters`. */
  datatype Counters = Counters(
    invalidReplyTo: nat,
    invalidRequestId: nat,
    unsupportedProtocolVersion: nat,
    expiredDeadline: nat,
    invalidDeadline: nat,
    replyDroppedAfterDeadline: nat)
  {
    /** Requests refused before the payload was looked at. */
    function Refused(): nat {
      invalidReplyTo + invalidRequestId + unsupportedProtocolVersion + expiredDeadline + invalidDeadline
    }
  }

  /** The counter a dispatch moves, if any. */
  function Counted(n: Counters, ending: Ending): Counters {
    match ending
    case InvalidReplyTo => n.(invalidReplyTo := n.invalidReplyTo + 1)
    case InvalidRequestId => n.(invalidRequestId := n.invalidRequestId + 1)
    case UnsupportedProtocolVersion => n.(unsupportedProtocolVersion := n.unsupportedProtocolVersion + 1)
    case ExpiredDeadline => n.(expiredDeadline := n.expiredDeadline + 1)
    case InvalidDeadline => n.(invalidDeadline := n.invalidDeadline + 1)
    case ReplyDroppedAfterDeadline => n.(replyDroppedAfterDeadline := n.replyDroppedAfterDeadline + 1)
    case UndecodablePayload => n
    case ReplyDelivered => n
  }

  class RepliedHandler {
    const f: Formats
    const platform: Platform
    const replyType: Text

    var counters: Counters

    /** Every publication attempted, in order. */
    var attempts: seq<(Text, Envelope)>

    /** Every request handed to the handler, in order. */
    var handled: seq<Envelope>

    /** How every dispatch so far ended. */
    ghost var endings: seq<Ending>

    /** The counters, the publications and the handler calls are exactly what the dispatches account for. */
    ghost predicate Accounted()
      reads this
    {
      counters == Tally(endings) && |attempts| == Count(endings, Publishes) && |handled| == Count(endings, RunsHandler)
    }

    constructor (f: Formats, platform: Platform, replyType: Text)
      ensures Accounted() && endings == [] && attempts == [] && handled == []
      ensures this.f == f && this.platform == platform && this.replyType == replyType
    {
      this.f, this.platform, this.replyType := f, platform, replyType;
      counters, attempts, handled, endings := Counters(0, 0, 0, 0, 0, 0), [], [], [];
    }

    method DeliverReply(destination: Text, reply: Envelope, c: Circumstances) returns (r: Result<(), BusError>)
      modifies this`attempts
      ensures attempts == old(attempts) + [(destination, reply)] && r == DeliveryResult(c.publishResult)
    {
      attempts := attempts + [(destination, reply)];
      return DeliveryResult(c.publishResult);
    }

    /** Answer with a categorized error, then stop. */
    method Refuse(category: RemoteErrorType, e: Envelope, requestId: Uuid, c: Circumstances)
      returns (r: Result<Outcome, BusError>)
      requires e.replyTo.Some?
      modifies this`attempts
      ensures var reply := ErrorReply(f, category, e.correlationId, requestId, c.stamp);
              attempts == old(attempts) + [(e.replyTo.value, reply)]
      ensures r == ReportOf(UndecodablePayload, c)
    {
      var delivered := DeliverReply(e.replyTo.value, ErrorReply(f, category, e.correlationId, requestId, c.stamp), c);
      return if delivered.Err? then Err(delivered.error) else Ok(Dropped);
    }

    /** Past the five guards: run the handler, look at the deadline again, publish. */
    method Answer(e: Envelope, requestId: Uuid, deadline: DeadlineReading, c: Circumstances)
      returns (r: Result<Outcome, BusError>)
      requires e.replyTo.Some?
      modifies this`attempts, this`counters, this`handled
      ensures handled == old(handled) + [e]
      ensures var late := deadline.Live? && deadline.deadline.IsExpired(c.handledAt);
              if late
              then counters == Counted(old(counters), ReplyDroppedAfterDeadline) && attempts == old(attempts)
                   && r == ReportOf(ReplyDroppedAfterDeadline, c)
              else counters == old(counters) && r == ReportOf(ReplyDelivered, c)
                   && var reply := ReplyOf(f, replyType, e, c, requestId, ReplyDelivered);
                      attempts == old(attempts) + [(e.replyTo.value, reply)]
    {
      handled := handled + [e];
      var reply, outcome;
      match c.handler {
        case Produced(Some(payload)) =>
          reply, outcome := OkReply(f, replyType, payload, e.correlationId, requestId, c.stamp), Replied;
        case Produced(None) =>
          reply, outcome := ErrorReply(f, InternalFailure, e.correlationId, requestId, c.stamp), Replied;
        case Failed(error) =>
          reply, outcome := ErrorReply(f, FromBusError(error), e.correlationId, requestId, c.stamp), RepliedWithError;
      }
      if deadline.Live? && deadline.deadline.IsExpired(c.handledAt) {
        counters := counters.(replyDroppedAfterDeadline := counters.replyDroppedAfterDeadline + 1);
        return Ok(SuppressedAfterDeadline);
      }
      var delivered := DeliverReply(e.replyTo.value, reply, c);
      return if delivered.Err? then Err(delivered.error) else Ok(outcome);
    }

    /**
     One dispatch: the ending decides the counter that moves, the one reply, if any, that is
     published, and what is reported; the handler is called exactly past the guards.
     */
    method Dispatch(e: Envelope, c: Circumstances) returns (r: Result<Outcome, BusError>)
      requires Accounted()
      modifies this
      ensures Accounted() && endings == old(endings) + [EndingOf(f, platform, e, c)]
      ensures counters == Counted(old(counters), EndingOf(f, platform, e, c))
      ensures handled == if PastTheGuards(f, platform, e, c) then old(handled) + [e] else old(handled)
      ensures var ending := EndingOf(f, platform, e, c);
              attempts == old(attempts) + if Publishes(ending) then [Publication(f, platform, replyType, e, c)] else []
      ensures r == ReportOf(EndingOf(f, platform, e, c), c)
    {
      ghost var before := endings;
      endings := endings + [EndingOf(f, platform, e, c)];
      assert endings[..|endings| - 1] == before;
      // Guard 1: the reply destination, before anything that could publish.
      if e.replyTo.None? || !c.acceptsDestination(e.replyTo.value) {
        counters := counters.(invalidReplyTo := counters.invalidReplyTo + 1);
        return Ok(Dropped);
      }
      // Guard 2: the request identity.
      var requestId := ReadRequestId(f.uuid, e);
      if requestId.None? {
        counters := counters.(invalidRequestId := counters.invalidRequestId + 1);
        return Ok(Dropped);
      }
      // Guard 3: the protocol version.
      if ReadProtocolVersion(e) != Some(PROTOCOL_VERSION) {
        counters := counters.(unsupportedProtocolVersion := counters.unsupportedProtocolVersion + 1);
        r := Refuse(Unsupported, e, requestId.value, c);
        return;
      }
      // Guard 4: the deadline.
      var deadline := ReadDeadline(platform, Header(e, DEADLINE_HEADER), c.wallClock, c.anchoredAt);
      if deadline.Expired? {
        counters := counters.(expiredDeadline := counters.expiredDeadline + 1);
        return Ok(Dropped);
      }
      if deadline.Invalid? {
        counters := counters.(invalidDeadline := counters.invalidDeadline + 1);
        r := Refuse(Malformed, e, requestId.value, c);
        return;
      }
      // Guard 5: the payload.
      if !c.payloadDecodes {
        r := Refuse(Malformed, e, requestId.value, c);
        return;
      }
      r := Answer(e, requestId.value, deadline, c);
    }
  }

  // ---- Accounting over whole runs ----

  function Tally(endings: seq<Ending>): Counters {
    if endings == [] then Counters(0, 0, 0, 0, 0, 0)
    else Counted(Tally(endings[..|endings| - 1]), endings[|endings| - 1])
  }

  function Count(endings: seq<Ending>, p: Ending -> bool): nat {
    if endings == [] then 0
    else Count(endings[..|endings| - 1], p) + (if p(endings[|endings| - 1]) then 1 else 0)
  }

  /** Each total is the number of dispatches that ended so. */
  lemma {:induction false} TallyExactly(endings: seq<Ending>)
    ensures var n := Tally(endings);
            && n.invalidReplyTo == Count(endings, (x: Ending) => x.InvalidReplyTo?)
            && n.invalidRequestId == Count(endings, (x: Ending) => x.InvalidRequestId?)
            && n.unsupportedProtocolVersion == Count(endings, (x: Ending) => x.UnsupportedProtocolVersion?)
            && n.expiredDeadline == Count(endings, (x: Ending) => x.ExpiredDeadline?)
            && n.invalidDeadline == Count(endings, (x: Ending) => x.InvalidDeadline?)
            && n.replyDroppedAfterDeadline == Count(endings, (x: Ending) => x.ReplyDroppedAfterDeadline?)
  {
    if endings != [] {
      TallyExactly(endings[..|endings| - 1]);
    }
  }

  /**
   Over any run: every dispatch is refused by one counted guard, undecodable, or handled;
   every handled one is suppressed or published; and nothing else publishes.
   */
  lemma {:induction false} ResponderAccounting(endings: seq<Ending>)
    ensures var n := Tally(endings);
            && |endings| == n.Refused() + Count(endings, (x: Ending) => x.UndecodablePayload?)
                            + Count(endings, RunsHandler)
            && Count(endings, RunsHandler)
                == n.replyDroppedAfterDeadline + Count(endings, (x: Ending) => x.ReplyDelivered?)
            && Count(endings, Publishes) == n.unsupportedProtocolVersion + n.invalidDeadline
                 + Count(endings, (x: Ending) => x.UndecodablePayload?)
                 + Count(endings, (x: Ending) => x.ReplyDelivered?)
  {
    if endings != [] {
      ResponderAccounting(endings[..|endings| - 1]);
    }
  }

  /**
   Over the life of a responder, on what it really did: every dispatch was refused by one
   counted guard, undecodable, or handed to the handler; every handled request was suppressed
   or answered; and nothing else was published.
   */
  lemma HandlerAccounting(h: RepliedHandler)
    requires h.Accounted()
    ensures |h.endings| == h.counters.Refused() + Count(h.endings, (x: Ending) => x.UndecodablePayload?) + |h.handled|
    ensures |h.handled| == h.counters.replyDroppedAfterDeadline + Count(h.endings, (x: Ending) => x.ReplyDelivered?)
    ensures |h.attempts| == h.counters.unsupportedProtocolVersion + h.counters.invalidDeadline
                            + Count(h.endings, (x: Ending) => x.UndecodablePayload?)
                            + |h.handled| - h.counters.replyDroppedAfterDeadline
  {
    ResponderAccounting(h.endings);
  }

  /**
   Whatever a dispatch publishes is a reply to the inbound request, sent where it was accepted, and
   never past its deadline.
   */
  lemma PublishedReply(f: Formats, p: Platform, replyType: Text, e: Envelope, c: Circumstances)
    requires Publishes(EndingOf(f, p, e, c))
    ensures DestinationAccepted(e, c) && ReadRequestId(f.uuid, e).Some?
    ensures IsReply(f, replyType, ReplyOf(f, replyType, e, c, ReadRequestId(f.uuid, e).value, EndingOf(f, p, e, c)),
                    ReadRequestId(f.uuid, e).value)
    ensures EndingOf(f, p, e, c).ReplyDelivered? && DeadlineOf(p, e, c).Live? ==>
              var remaining := DeadlineOf(p, e, c).deadline.expiresAt - c.anchoredAt;
              c.handledAt - c.anchoredAt <= remaining <= MAX_DEADLINE_HORIZON + CLOCK_SKEW_TOLERANCE
  {
    if DeadlineOf(p, e, c).Live? {
      LiveIsBounded(p, Header(e, DEADLINE_HEADER), c.wallClock, c.anchoredAt);
    }
  }
}
