/** How often a message is retried, exactly: bounds over every run, and runs that attain them. */
module Retrying {
  import opened Bytes
  import opened Envelopes
  import opened Amqp
  import opened Metadata
  import opened Wire
  import opened Worker
  import opened Retries
  import opened Broker
  import opened Journeys

  // ---- Retries are bounded ----

  /** How far below zero the count a message was published with lies. */
  function Debt(sys: System, first: Delivery): nat {
    var count := RawCount(first.props, sys.cfg.waitQueue);
    if count < 0 then -count else 0
  }

  /** How many trips through the wait queue a message may make: one per attempt but the last, plus its debt. */
  function Budget(sys: System, first: Delivery): nat {
    if sys.cfg.maxAttempts <= 1 then 0 else sys.cfg.maxAttempts - 1 + Debt(sys, first)
  }

  /** The count the first trip leaves on the message. */
  function StartCount(sys: System, first: Delivery): int {
    CountAfterExpiry(TableOf(first.props), sys.cfg.waitQueue)
  }

  lemma CountsUp(sys: System, first: Delivery, n: nat)
    ensures n == 0 ==> CountAt(sys, first, n) == RawCount(first.props, sys.cfg.waitQueue)
    ensures n > 0 ==> CountAt(sys, first, n) == StartCount(sys, first) + n - 1
  {
    if n > 0 {
      CountAfterTrips(sys.expiry, sys.cfg.waitQueue, TableOf(first.props), n);
    }
  }

  lemma StartAboveDebt(sys: System, first: Delivery)
    ensures StartCount(sys, first) >= 1 - Debt(sys, first)
  {
    ExpiryCounts(sys.expiry, TableOf(first.props), sys.cfg.waitQueue);
  }

  lemma RetriableCount(sys: System, first: Delivery, n: nat)
    requires Retriable(sys, first, n)
    ensures 1 < sys.cfg.maxAttempts && CountAt(sys, first, n) + 1 < sys.cfg.maxAttempts
  {
  }

  lemma TripsWithinBudget(sys: System, first: Delivery, n: nat)
    requires RetriableUntil(sys, first, n)
    ensures n <= Budget(sys, first)
  {
    if n >= 1 {
      LastTrip(sys, first, n - 1);
    }
  }

  lemma LastTrip(sys: System, first: Delivery, n: nat)
    requires Retriable(sys, first, n)
    ensures n < Budget(sys, first)
  {
    RetriableCount(sys, first, n);
    CountsUp(sys, first, n);
    StartAboveDebt(sys, first);
  }

  ghost predicate Somewhere(s: State, m: Message) {
    m in s.main || m in s.waiting || m in s.dead || exists t :: t in s.unacked && s.unacked[t] == m
  }

  /** After any run every message, wherever it is, made at most as many trips as its publication had budget. */
  lemma RetriesAreBounded(sys: System, steps: seq<Step>, m: Message)
    requires sys.Valid() && Enables(sys, steps) && Somewhere(Run(sys, steps), m)
    ensures m.origin < |Run(sys, steps).published|
    ensures m.cycles <= Budget(sys, Run(sys, steps).published[m.origin])
    ensures m in Run(sys, steps).waiting ==> m.cycles < Budget(sys, Run(sys, steps).published[m.origin])
  {
    RunKeepsOrigins(sys, steps);
    RunFollows(sys, steps, m.origin);
    var first := Run(sys, steps).published[m.origin];
    TripsWithinBudget(sys, first, m.cycles);
    if m in Run(sys, steps).waiting {
      OneMoreTrip(sys, first, m.cycles);
      TripsWithinBudget(sys, first, m.cycles + 1);
    }
  }

  // ---- Runs that attain the bound ----

  /** A handler that fails transiently. */
  function Failing(decoded: Result<Envelope, BusError>, verification: Result<Option<Text>, SecurityFault>): Oracle {
    Oracle(decoded, verification, Returned(Err(Transport)), Confirmed(AckConfirmation(false)), true)
  }

  /** The delivery as a worker meets it on a trip it can be retried from. */
  ghost predicate CanFail(sys: System, first: Delivery, m: Message) {
    AtWorker(sys, first, m) && Retriable(sys, first, m.cycles)
  }

  lemma StillRestorable(sys: System, first: Delivery, m: Message)
    requires CanFail(sys, first, m)
    ensures Restorable(sys, m.content.props)
  {
    SameStrictness(sys, first.props, m.content.props);
  }

  /** Such a delivery reaches its handler, and a failure goes to the wait queue under the identity it decoded to. */
  lemma FailureIsRetried(sys: System, first: Delivery, m: Message, minted: Minted) returns (o: Oracle)
    requires sys.Valid() && CanFail(sys, first, m)
    ensures sys.Learns(m.content, minted, o)
    ensures var ids := IdentityOf(sys.f, m.content.props, minted);
            RouteOf(sys.cfg, sys.f, m.content, o) == Via(WaitQueue, RetryCopy(sys.f, m.content.props, ids.0, ids.1))
  {
    var d := m.content;
    var t := TableOf(d.props);
    var headers := HeadersOf(t);
    var decoded := Restore(sys.f, sys.platform, d.props, d.body, sys.cfg.required, minted, headers);
    StillRestorable(sys, first, m);
    AcceptedTable(d.props, sys.cfg.limits);
    assert sys.Decodes(d, minted, decoded);
    DecodesExactly(sys, d, minted, decoded);
    DecodedIdentity(sys.f, sys.platform, d.props, d.body, sys.cfg.required, minted, headers);
    SameVerdict(sys, first, m, minted, decoded);
    RetriedExactly(sys.cfg, sys.f, d, decoded.value, Transport);
    o := Failing(decoded, sys.verify(decoded.value, d.destination));
  }

  /** The worker of `tag` holds `m` and has yet to settle it, with `op`. */
  predicate AboutToSettle(s: State, tag: nat, m: Message, op: SettleOp) {
    && tag in s.unacked && s.unacked[tag] == m
    && tag in s.works && s.works[tag].message == m && s.works[tag].phase.Settling? && s.works[tag].phase.op == op
  }

  predicate HoldsFresh(s: State, tag: nat, m: Message) {
    tag in s.unacked && s.unacked[tag] == m && tag in s.works && s.works[tag] == Work(m, Running, [])
  }

  lemma TakeUp(sys: System, steps: seq<Step>, m: Message) returns (longer: seq<Step>)
    requires Enables(sys, steps) && m in Run(sys, steps).main
    ensures Enables(sys, longer) && HoldsFresh(Run(sys, longer), Run(sys, steps).nextTag, m) && Continues(steps, longer)
    ensures Run(sys, longer).waiting == Run(sys, steps).waiting
  {
    var tag := Run(sys, steps).nextTag;
    RunKeepsTags(sys, steps);
    Extend(sys, steps, Deliver(m));
    Extend(sys, steps + [Deliver(m)], Start(tag));
    longer := steps + [Deliver(m)] + [Start(tag)];
  }

  /** The same run, gone on. */
  predicate Continues(steps: seq<Step>, longer: seq<Step>) {
    steps <= longer
  }

  function RetryCopyOf(sys: System, m: Message, minted: Minted): Message {
    var ids := IdentityOf(sys.f, m.content.props, minted);
    CopyOf(m, RetryCopy(sys.f, m.content.props, ids.0, ids.1))
  }

  /** One failed attempt whose retry copy is stored, with or without the worker being told. */
  lemma AttemptFails(sys: System, first: Delivery, steps: seq<Step>, m: Message, minted: Minted,
                     outcome: PublishOutcome)
    returns (longer: seq<Step>)
    requires sys.Valid() && Enables(sys, steps) && m in Run(sys, steps).main && CanFail(sys, first, m)
            && Honest(outcome, true)
    ensures Enables(sys, longer) && Continues(steps, longer)
    ensures AboutToSettle(Run(sys, longer), Run(sys, steps).nextTag, m, SettleAfter(PublishResult(outcome)))
    ensures Run(sys, longer).waiting == Run(sys, steps).waiting + multiset{RetryCopyOf(sys, m, minted)}
  {
    var tag := Run(sys, steps).nextTag;
    var o := FailureIsRetried(sys, first, m, minted);
    var taken := TakeUp(sys, steps, m);
    Extend(sys, taken, Decide(tag, minted, o));
    Extend(sys, taken + [Decide(tag, minted, o)], Republish(tag, outcome, true));
    longer := taken + [Decide(tag, minted, o)] + [Republish(tag, outcome, true)];
  }

  /** One failed attempt whose message comes back through the wait queue. */
  lemma TakeTrip(sys: System, first: Delivery, steps: seq<Step>, m: Message, minted: Minted)
    returns (longer: seq<Step>, back: Message)
    requires sys.Valid() && Enables(sys, steps) && m in Run(sys, steps).main && CanFail(sys, first, m)
    ensures Enables(sys, longer) && Continues(steps, longer) && back in Run(sys, longer).main
    ensures back.origin == m.origin && back.cycles == m.cycles + 1 && AtWorker(sys, first, back)
  {
    var copy := RetryCopyOf(sys, m, minted);
    var failed := AttemptFails(sys, first, steps, m, minted, Confirmed(AckConfirmation(false)));
    CopyAtWait(sys, first, m, minted);
    ExpiredCopy(sys, first, copy);
    longer := SettleAndExpire(sys, failed, Run(sys, steps).nextTag, m, copy);
    back := Expired(sys, copy);
  }

  lemma CopyAtWait(sys: System, first: Delivery, m: Message, minted: Minted)
    requires sys.Valid() && CanFail(sys, first, m)
    ensures AtWait(sys, first, RetryCopyOf(sys, m, minted))
  {
    var ids := IdentityOf(sys.f, m.content.props, minted);
    RetryCopyFollows(sys, first, m, ids.0, ids.1);
  }

  lemma SettleAndExpire(sys: System, steps: seq<Step>, tag: nat, m: Message, copy: Message) returns (longer: seq<Step>)
    requires Enables(sys, steps) && AboutToSettle(Run(sys, steps), tag, m, Ack) && copy in Run(sys, steps).waiting
    ensures Enables(sys, longer) && Continues(steps, longer) && Expired(sys, copy) in Run(sys, longer).main
  {
    Extend(sys, steps, Settle(tag, true, true));
    Extend(sys, steps + [Settle(tag, true, true)], Expire(copy));
    longer := steps + [Settle(tag, true, true)] + [Expire(copy)];
  }

  /** Wherever a message stands in a run, the run goes on through every trip the message is entitled to. */
  lemma {:induction false} BudgetIsReached(sys: System, first: Delivery, steps: seq<Step>, m: Message, minted: Minted,
                                           n: nat)
    returns (longer: seq<Step>, last: Message)
    requires sys.Valid() && Enables(sys, steps) && m in Run(sys, steps).main && AtWorker(sys, first, m)
    requires m.cycles <= n && RetriableUntil(sys, first, n)
    ensures Enables(sys, longer) && Continues(steps, longer) && last in Run(sys, longer).main
    ensures last.origin == m.origin && last.cycles == n
    decreases n - m.cycles
  {
    if m.cycles == n {
      return steps, m;
    }
    assert Retriable(sys, first, m.cycles);
    var further, back := TakeTrip(sys, first, steps, m, minted);
    longer, last := BudgetIsReached(sys, first, further, back, minted, n);
  }

  // ---- Exactly how often ----

  /** A run that begins by publishing `first` and has `m`, a copy of it, in the main queue. */
  ghost predicate Reaches(sys: System, first: Delivery, steps: seq<Step>, m: Message) {
    && steps != [] && steps[0] == Produce(first) && Enables(sys, steps)
    && m in Run(sys, steps).main && m.origin == 0
  }

  lemma {:induction false} FirstPublished(sys: System, first: Delivery, steps: seq<Step>)
    requires steps != [] && steps[0] == Produce(first) && Enables(sys, steps)
    ensures |Run(sys, steps).published| > 0 && Run(sys, steps).published[0] == first
  {
    if |steps| > 1 {
      assert Most(steps)[0] == steps[0];
      FirstPublished(sys, first, Most(steps));
      PublishedStays(sys, Run(sys, Most(steps)), Last(steps), 0);
    } else {
      assert Most(steps) == [];
    }
  }

  lemma PublishOnly(sys: System, first: Delivery)
    ensures Enables(sys, [Produce(first)]) && Message(0, 0, first) in Run(sys, [Produce(first)]).main
    ensures AtWorker(sys, first, Message(0, 0, first))
  {
    Extend(sys, [], Produce(first));
    assert [] + [Produce(first)] == [Produce(first)];
  }

  ghost predicate ReachesTrip(sys: System, first: Delivery, n: nat) {
    exists steps, m :: Reaches(sys, first, steps, m) && m.cycles == n
  }

  /**
   Some run takes a published message through `n` trips exactly when each of its first `n`
   attempts decodes and verifies, under the table and the routing key the broker will have
   made of it, finds a handler, and leaves a retry.
   */
  lemma TripsExactly(sys: System, first: Delivery, n: nat, minted: Minted)
    requires sys.Valid()
    ensures ReachesTrip(sys, first, n) <==> RetriableUntil(sys, first, n)
  {
    if ReachesTrip(sys, first, n) {
      var steps, m :| Reaches(sys, first, steps, m) && m.cycles == n;
      FirstPublished(sys, first, steps);
      RunFollows(sys, steps, 0);
    }
    if RetriableUntil(sys, first, n) {
      PublishOnly(sys, first);
      var steps, last := BudgetIsReached(sys, first, [Produce(first)], Message(0, 0, first), minted, n);
      assert Reaches(sys, first, steps, last);
    }
  }

  /** The entry the broker counts carries a readable negative count. */
  predicate NegativeCount(sys: System, first: Delivery) {
    var count := EntryCount(TableOf(first.props), sys.cfg.waitQueue);
    count.Some? && count.value < 0
  }

  function AllowedRetries(sys: System): nat {
    if sys.cfg.maxAttempts <= 1 then 0 else sys.cfg.maxAttempts - 1
  }

  ghost predicate HandledUntil(sys: System, first: Delivery, n: nat) {
    forall i :: 0 <= i < n ==> HandledAt(sys, first, i)
  }

  lemma ExcessRetriable(sys: System, first: Delivery)
    requires 1 < sys.cfg.maxAttempts
    ensures RetriableUntil(sys, first, sys.cfg.maxAttempts)
            <==> NegativeCount(sys, first) && HandledUntil(sys, first, sys.cfg.maxAttempts)
  {
    var max := sys.cfg.maxAttempts;
    ExpiryCounts(sys.expiry, TableOf(first.props), sys.cfg.waitQueue);
    if RetriableUntil(sys, first, max) {
      RetriableCount(sys, first, max - 1);
      CountsUp(sys, first, max - 1);
      assert forall i :: 0 <= i < max && Retriable(sys, first, i) ==> HandledAt(sys, first, i);
    }
    if NegativeCount(sys, first) && HandledUntil(sys, first, max) {
      forall i | 0 <= i < max
        ensures Retriable(sys, first, i)
      {
        assert HandledAt(sys, first, i);
        CountsUp(sys, first, i);
      }
    }
  }

  /**
   Every run retries a published message at most `max_attempts - 1` times, unless the count
   the broker goes on from is negative and every one of the first `max_attempts` attempts
   reaches its handler.
   */
  lemma ConfiguredAttemptsHold(sys: System, first: Delivery, minted: Minted)
    requires sys.Valid()
    ensures (forall steps, m :: Reaches(sys, first, steps, m) ==> m.cycles <= AllowedRetries(sys))
            <==> !(&& 1 < sys.cfg.maxAttempts
                   && NegativeCount(sys, first)
                   && HandledUntil(sys, first, sys.cfg.maxAttempts))
  {
    var max := sys.cfg.maxAttempts;
    if 1 < max {
      ExcessRetriable(sys, first);
      TripsExactly(sys, first, max, minted);
    }
    forall steps, m | Reaches(sys, first, steps, m) && m.cycles > AllowedRetries(sys)
      ensures 1 < max && RetriableUntil(sys, first, max)
    {
      TripsExactly(sys, first, m.cycles, minted);
      RetriableCount(sys, first, 0);
    }
  }

  // ---- One input that exceeds the configured attempts ----

  const FIRST_DEATH_QUEUE := FIRST_DEATH + QUEUE
  const FIRST_DEATH_REASON := FIRST_DEATH + REASON
  const FIRST_DEATH_EXCHANGE := FIRST_DEATH + Ascii("exchange")

  /** What RabbitMQ stamps on a message that expires in the wait queue, beside `x-death`. */
  function RabbitStamps(waitQueue: Text): FieldTable {
    map[FIRST_DEATH_QUEUE := LongString(waitQueue), FIRST_DEATH_REASON := LongString(EXPIRED),
        FIRST_DEATH_EXCHANGE := LongString([])]
  }

  /** An `x-death` list and string stamps. */
  predicate Stamped(t: FieldTable) {
    && t.Keys <= {X_DEATH, FIRST_DEATH_QUEUE, FIRST_DEATH_REASON, FIRST_DEATH_EXCHANGE}
    && (forall k :: k in t ==> if k == X_DEATH then t[k].FieldArray? else t[k].LongString? && ValidUtf8(t[k].bytes))
  }

  const NO_LIMITS := MetadataLimits(USIZE_MAX, USIZE_MAX, USIZE_MAX, USIZE_MAX)

  /** RabbitMQ, no signatures, limits wide open, two attempts. */
  ghost predicate Permissive(sys: System) {
    && (forall t :: sys.expiry.stamps(t) == RabbitStamps(sys.cfg.waitQueue)) && ValidUtf8(sys.cfg.waitQueue)
    && sys.cfg.maxAttempts == 2 && !sys.cfg.hasSecurity && sys.cfg.limits == NO_LIMITS
  }

  /** Two attempts configured, a count of -1 on the wire, and the message is retried twice. */
  lemma NegativeCountExample(sys: System, kind: Text, minted: Minted) returns (first: Delivery)
    requires sys.Valid() && Permissive(sys) && kind in sys.handlers
    ensures RawCount(first.props, sys.cfg.waitQueue) == -1 && ReachesTrip(sys, first, 2) && AllowedRetries(sys) == 1
  {
    DeathFieldNames();
    var fields := map[QUEUE := LongString(sys.cfg.waitQueue), REASON := LongString(EXPIRED), COUNT := LongLongInt(-1)];
    var death := Table(fields);
    var t: FieldTable := map[X_DEATH := FieldArray([death])];
    first := Delivery([], Properties(None, Some(t), None, None, None, None, None, Some(kind), None), []);
    assert IsExpiry(death, sys.cfg.waitQueue) && ExpiryCount(death, sys.cfg.waitQueue) == Some(-1);
    assert Deaths(t) == [death];
    ExampleHandled(sys, first);
    ExcessRetriable(sys, first);
    TripsExactly(sys, first, 2, minted);
  }

  lemma ExampleHandled(sys: System, first: Delivery)
    requires sys.Valid() && Permissive(sys) && Stamped(TableOf(first.props)) && first.body == []
    requires first.props.kind.Some? && first.props.kind.value in sys.handlers && first.props.timestamp.None?
    ensures HandledUntil(sys, first, 2)
  {
    var t := TableOf(first.props);
    StillStamped(sys, t);
    assert TableAt(sys, first, 0) == t;
    OneMoreExpiry(sys.expiry, sys.cfg.waitQueue, t, 0);
    ExampleAttempt(sys, first, 0);
    ExampleAttempt(sys, first, 1);
    forall i | 0 <= i < 2
      ensures HandledAt(sys, first, i)
    {
      assert i == 0 || i == 1;
    }
  }

  lemma ExampleAttempt(sys: System, first: Delivery, n: nat)
    requires sys.Valid() && Permissive(sys) && Stamped(TableOf(first.props)) && Stamped(TableAt(sys, first, n))
    requires first.props.kind.Some? && first.props.kind.value in sys.handlers && first.props.timestamp.None?
    requires first.body == []
    ensures HandledAt(sys, first, n)
  {
    NotStrict(sys, TableOf(first.props));
    NotStrict(sys, TableAt(sys, first, n));
    StampsAccepted(TableAt(sys, first, n));
    AttemptRestored(sys, first, n);
  }

  lemma StampNames()
    ensures |X_DEATH| == 7 && |FIRST_DEATH| == 14 && |SIGNATURE_HEADER| == 20
    ensures |FIRST_DEATH_QUEUE| == 19 && |FIRST_DEATH_REASON| == 20 && |FIRST_DEATH_EXCHANGE| == 22
    ensures FIRST_DEATH_REASON[2] == 0x66 && SIGNATURE_HEADER[2] == 0x68
  {
  }

  lemma StillStamped(sys: System, t: FieldTable)
    requires Permissive(sys) && Stamped(t)
    ensures Stamped(ExpiredTable(sys.expiry, t, sys.cfg.waitQueue))
  {
    StampNames();
    assert AllAscii(EXPIRED);
    AsciiIsUtf8(EXPIRED);
    AsciiIsUtf8([]);
  }

  lemma NotStrict(sys: System, t: FieldTable)
    requires Stamped(t) && sys.cfg.required.Lenient?
    ensures !DecodesStrictly(sys, t)
  {
    StampNames();
  }

  lemma StampsAccepted(t: FieldTable)
    requires Stamped(t)
    ensures TableAccepted(t, NO_LIMITS)
  {
    StampNames();
    FewKeys(t.Keys);
    assert |t| == |t.Keys|;
    forall k | k in t
      ensures EntryAccepted(k, t[k], NO_LIMITS)
    {
      StampReadable(k, t[k]);
    }
  }

  lemma FewKeys(keys: set<Text>)
    requires keys <= {X_DEATH, FIRST_DEATH_QUEUE, FIRST_DEATH_REASON, FIRST_DEATH_EXCHANGE}
    ensures |keys| <= 4
  {
    var all := {X_DEATH, FIRST_DEATH_QUEUE, FIRST_DEATH_REASON, FIRST_DEATH_EXCHANGE};
    assert all == keys + (all - keys);
  }

  lemma StampReadable(k: Text, v: AmqpValue)
    requires k in {X_DEATH, FIRST_DEATH_QUEUE, FIRST_DEATH_REASON, FIRST_DEATH_EXCHANGE}
    requires v.LongString? ==> ValidUtf8(v.bytes)
    ensures Readable(k, v)
  {
    assert X_DEATH[2] == 0x64 && FIRST_DEATH[2] == 0x66 && RESERVED_HEADER_PREFIX[2] == 0x68;
    assert Lowercase(k[2]) != RESERVED_HEADER_PREFIX[2];
  }
}
