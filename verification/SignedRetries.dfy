/** What becomes of a signed delivery on its way through the wait queue. */
module SignedRetries {
  import opened Bytes
  import opened Envelopes
  import opened Amqp
  import opened Metadata
  import opened Wire
  import opened Verifiers
  import opened Worker
  import opened Retries
  import opened Broker
  import opened Journeys
  import opened Retrying

  /** The worker enforces envelope security with this verifier. */
  ghost predicate Enforces(sys: System, v: Verifier) {
    && sys.Valid() && sys.cfg.hasSecurity && v.Binds()
    && forall e, destination :: sys.verify(e, destination) == Verify(v, e, destination)
  }

  predicate IsSigned(first: Delivery) {
    SIGNATURE_HEADER in StringHeaders(TableOf(first.props), true)
  }

  /** Seconds since the epoch fit the eight bytes that AMQP and the signed form give them. */
  ghost predicate InRange(first: Delivery) {
    first.props.timestamp.Some? ==> first.props.timestamp.value < Pow256(8)
  }

  lemma BrokerHeadersAreNotReserved(k: Text)
    requires IsBrokerHeader(k)
    ensures !IsReserved(k)
  {
    assert X_DEATH[2] == 0x64 && FIRST_DEATH[2] == 0x66 && LAST_DEATH[2] == 0x6c && RESERVED_HEADER_PREFIX[2] == 0x68;
    assert |X_DEATH| == 7 && |FIRST_DEATH| == 14 && |LAST_DEATH| == 13;
    assert k[2] == 0x64 || k[2] == 0x66 || k[2] == 0x6c;
    assert Lowercase(k[2]) != RESERVED_HEADER_PREFIX[2];
  }

  /** Whatever the broker writes leaves the protocol headers alone. */
  lemma ProtocolHeadersStay(b: Expiry, t: FieldTable, waitQueue: Text)
    requires b.Lawful()
    ensures StringHeaders(ExpiredTable(b, t, waitQueue), true) == StringHeaders(t, true)
  {
    var after := ExpiredTable(b, t, waitQueue);
    forall k | k in BrokerEntries(b, t, waitQueue)
      ensures !IsReserved(k)
    {
      BrokerHeadersAreNotReserved(k);
    }
    assert forall k :: k in after && IsReserved(k) ==> k in t && after[k] == t[k];
    assert forall k :: k in t && IsReserved(k) ==> k in after && after[k] == t[k];
  }

  lemma NextTableKeepsProtocolHeaders(sys: System, first: Delivery, n: nat)
    requires sys.Valid()
    ensures StringHeaders(TableAt(sys, first, n + 1), true) == StringHeaders(TableAt(sys, first, n), true)
  {
    OneMoreExpiry(sys.expiry, sys.cfg.waitQueue, TableOf(first.props), n);
    ProtocolHeadersStay(sys.expiry, TableAt(sys, first, n), sys.cfg.waitQueue);
  }

  lemma {:induction false} ProtocolHeadersAt(sys: System, first: Delivery, n: nat)
    requires sys.Valid()
    ensures StringHeaders(TableAt(sys, first, n), true) == StringHeaders(TableOf(first.props), true)
  {
    if n > 0 {
      ProtocolHeadersAt(sys, first, n - 1);
      NextTableKeepsProtocolHeaders(sys, first, n - 1);
    }
  }

  /** The attempts of one publication differ in their application headers at most. */
  lemma AttemptsDifferInHeaders(sys: System, first: Delivery, n: nat)
    requires sys.Valid() && EnvelopeAt(sys, first, 0).Ok?
    ensures EnvelopeAt(sys, first, n).Ok?
    ensures SameButHeaders(EnvelopeAt(sys, first, 0).value, EnvelopeAt(sys, first, n).value)
    ensures EnvelopeAt(sys, first, n).value.headers == StringHeaders(TableAt(sys, first, n), false)
  {
    ProtocolHeadersAt(sys, first, n);
  }

  lemma ApplicationHeadersAreUnreserved(t: FieldTable)
    ensures StringHeaders(t, false).Keys !! SECURITY_HEADERS
  {
    SecurityNamesAreReserved();
  }

  /** A signed delivery is dated by its own timestamp property. */
  lemma SignedSeconds(sys: System, first: Delivery)
    requires IsSigned(first) && EnvelopeAt(sys, first, 0).Ok?
    ensures first.props.timestamp.Some?
    ensures EpochSeconds(EnvelopeAt(sys, first, 0).value.publishedAt) == first.props.timestamp.value
  {
  }

  /** The broker has left every string header as it was, and the delivery arrives where it was sent. */
  predicate Untouched(sys: System, first: Delivery, n: nat) {
    && StringHeaders(TableAt(sys, first, n), false) == StringHeaders(TableOf(first.props), false)
    && DestinationAt(sys, first, n) == first.destination
  }

  /** A signed delivery that verified when it first arrived verifies after `n` trips exactly when it is untouched. */
  lemma SignedDeliveryVerifiesAgain(sys: System, v: Verifier, first: Delivery, n: nat)
    requires Enforces(sys, v) && IsSigned(first) && InRange(first) && VerifiesAt(sys, first, 0)
    ensures VerifiesAt(sys, first, n) <==> Untouched(sys, first, n)
  {
    var a := EnvelopeAt(sys, first, 0).value;
    AttemptsDifferInHeaders(sys, first, 0);
    AttemptsDifferInHeaders(sys, first, n);
    ApplicationHeadersAreUnreserved(TableAt(sys, first, 0));
    ApplicationHeadersAreUnreserved(TableAt(sys, first, n));
    var b := EnvelopeAt(sys, first, n).value;
    assert TableAt(sys, first, 0) == TableOf(first.props);
    SignedSeconds(sys, first);
    SecurityNamesAreReserved();
    AcceptedAgain(v, a, b, first.destination, DestinationAt(sys, first, n));
  }

  /** All an attempt needs to be retried, its signature apart. */
  ghost predicate RetriableUnsigned(sys: System, first: Delivery, n: nat) {
    && DecodesAt(sys, first, n) && first.props.kind.value in sys.handlers
    && 1 < sys.cfg.maxAttempts && CountAt(sys, first, n) + 1 < sys.cfg.maxAttempts
  }

  ghost predicate RetriableUntouched(sys: System, first: Delivery, n: nat) {
    forall i :: 0 <= i < n ==> Untouched(sys, first, i) && RetriableUnsigned(sys, first, i)
  }

  /**
   Some run takes a signed delivery through `n` trips exactly when it verifies on arrival and
   the broker hands it back untouched before each of the attempts that must still verify.
   */
  lemma SignedTripsExactly(sys: System, v: Verifier, first: Delivery, n: nat, minted: Minted)
    requires Enforces(sys, v) && IsSigned(first) && InRange(first)
    ensures ReachesTrip(sys, first, n) <==> (n == 0 || VerifiesAt(sys, first, 0)) && RetriableUntouched(sys, first, n)
  {
    TripsExactly(sys, first, n, minted);
    if n > 0 {
      assert RetriableUntil(sys, first, n) ==> Retriable(sys, first, 0);
      if VerifiesAt(sys, first, 0) {
        forall i | 0 <= i < n
          ensures Retriable(sys, first, i) <==> Untouched(sys, first, i) && RetriableUnsigned(sys, first, i)
        {
          SignedDeliveryVerifiesAgain(sys, v, first, i);
        }
      }
    }
  }

  predicate StampsString(before: FieldTable, stamps: FieldTable) {
    exists k :: k in stamps && k != X_DEATH && stamps[k].LongString? && !(k in before && before[k] == stamps[k])
  }

  lemma StampShows(sys: System, first: Delivery)
    requires sys.Valid() && StampsString(TableOf(first.props), sys.expiry.stamps(TableOf(first.props)))
    ensures !Untouched(sys, first, 1)
  {
    var t := TableOf(first.props);
    var stamps := sys.expiry.stamps(t);
    var k :| k in stamps && k != X_DEATH && stamps[k].LongString? && !(k in t && t[k] == stamps[k]);
    OneMoreExpiry(sys.expiry, sys.cfg.waitQueue, t, 0);
    BrokerHeadersAreNotReserved(k);
    assert k in StringHeaders(TableAt(sys, first, 1), false);
  }

  /**
   Under a broker that stamps a new string on the message, a signed delivery is refused when
   it comes back from its first retry, however many attempts are configured.
   */
  lemma SignedDeliveryIsRetriedOnce(sys: System, v: Verifier, first: Delivery, n: nat, minted: Minted)
    requires Enforces(sys, v) && IsSigned(first) && InRange(first)
    requires StampsString(TableOf(first.props), sys.expiry.stamps(TableOf(first.props)))
    ensures ReachesTrip(sys, first, n) ==> n <= 1
  {
    SignedTripsExactly(sys, v, first, n, minted);
    StampShows(sys, first);
  }

  /** RabbitMQ is such a broker, for a message that has not died before. */
  lemma RabbitStampsString(before: FieldTable, waitQueue: Text)
    requires FIRST_DEATH_QUEUE !in before
    ensures StampsString(before, RabbitStamps(waitQueue))
  {
    StampNames();
    assert FIRST_DEATH_QUEUE in RabbitStamps(waitQueue);
  }
}
