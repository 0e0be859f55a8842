/**
 What a trip through the wait queue does to a message: the broker counts it and stamps its
 header table, the worker fixes its identity, and the grown table meets the limits again
 (`hexeract-bus-rabbitmq/src/worker.rs`, `metadata.rs`).
 */
module Retries {
  import opened Bytes
  import opened Envelopes
  import opened Amqp
  import opened Metadata
  import opened Wire
  import opened Worker

  // ---- Expiry in the wait queue ----

  const FIRST_DEATH := Ascii("x-first-death-")
  const LAST_DEATH := Ascii("x-last-death-")

  /** The header names a broker writes when it dead-letters a message. */
  predicate IsBrokerHeader(k: Text) {
    k == X_DEATH || FIRST_DEATH <= k || LAST_DEATH <= k
  }

  /** What a broker stamps on an expired message beside `x-death`; which entries those are differs between versions. */
  datatype Expiry = Expiry(stamps: FieldTable -> FieldTable) {
    ghost predicate Lawful() {
      forall t: FieldTable, k: Text :: k in stamps(t) ==> IsBrokerHeader(k)
    }
  }

  /** Index of the first expiry entry of the wait queue, `|deaths|` when there is none. */
  function ExpiryIndex(deaths: seq<AmqpValue>, waitQueue: Text): (i: nat)
    ensures i <= |deaths| && (i < |deaths| ==> IsExpiry(deaths[i], waitQueue))
    ensures forall j :: 0 <= j < i ==> !IsExpiry(deaths[j], waitQueue)
  {
    if deaths == [] then 0
    else if IsExpiry(deaths[0], waitQueue) then 0
    else 1 + ExpiryIndex(deaths[1..], waitQueue)
  }

  /** The `x-death` list after an expiry: the entry of the wait queue is counted and moved to the front. */
  function CountExpiry(deaths: seq<AmqpValue>, waitQueue: Text): seq<AmqpValue> {
    var i := ExpiryIndex(deaths, waitQueue);
    if i == |deaths| then
      [Table(map[QUEUE := LongString(waitQueue), REASON := LongString(EXPIRED), COUNT := LongLongInt(1)])] + deaths
    else
      var count := ExpiryCount(deaths[i], waitQueue);
      var next := if count.Some? then count.value + 1 else 1;
      [Table(deaths[i].fields[COUNT := LongLongInt(next)])] + deaths[..i] + deaths[i + 1..]
  }

  function BrokerEntries(b: Expiry, t: FieldTable, waitQueue: Text): FieldTable {
    b.stamps(t)[X_DEATH := FieldArray(CountExpiry(Deaths(t), waitQueue))]
  }

  function ExpiredTable(b: Expiry, t: FieldTable, waitQueue: Text): FieldTable {
    t + BrokerEntries(b, t, waitQueue)
  }

  /** A message leaving the wait queue: the broker rewrites its own headers and nothing else. */
  function AfterExpiry(b: Expiry, props: Properties, waitQueue: Text): Properties {
    props.(headers := Some(ExpiredTable(b, TableOf(props), waitQueue)))
  }

  // ---- The retry count across cycles ----

  /** The count of the entry the broker will count next, if it is readable. */
  function EntryCount(t: FieldTable, waitQueue: Text): Option<int> {
    var i := ExpiryIndex(Deaths(t), waitQueue);
    if i == |Deaths(t)| then None else ExpiryCount(Deaths(t)[i], waitQueue)
  }

  lemma {:induction false} FirstCountAt(deaths: seq<AmqpValue>, waitQueue: Text)
    ensures var i := ExpiryIndex(deaths, waitQueue);
            if i == |deaths| then FirstCount(deaths, waitQueue) == None
            else
              var count := ExpiryCount(deaths[i], waitQueue);
              count.Some? ==> FirstCount(deaths, waitQueue) == count
  {
    if deaths != [] && !IsExpiry(deaths[0], waitQueue) {
      FirstCountAt(deaths[1..], waitQueue);
    }
  }

  /** The count the first expiry leaves. */
  function CountAfterExpiry(t: FieldTable, waitQueue: Text): int {
    Successor(EntryCount(t, waitQueue))
  }

  function Successor(count: Option<int>): int {
    if count.Some? then count.value + 1 else 1
  }

  /** A readable entry is the count read back, and an expiry always leaves a readable one: one more, or 1. */
  lemma ExpiryCounts(b: Expiry, t: FieldTable, waitQueue: Text)
    ensures EntryCount(t, waitQueue).Some? ==> CountIn(t, waitQueue) == EntryCount(t, waitQueue).value
    ensures EntryCount(ExpiredTable(b, t, waitQueue), waitQueue) == Some(CountAfterExpiry(t, waitQueue))
    ensures CountIn(ExpiredTable(b, t, waitQueue), waitQueue) == CountAfterExpiry(t, waitQueue)
  {
    DeathFieldNames();
    var after := ExpiredTable(b, t, waitQueue);
    FirstCountAt(Deaths(t), waitQueue);
    assert Deaths(after) == CountExpiry(Deaths(t), waitQueue);
    assert IsExpiry(Deaths(after)[0], waitQueue);
  }

  /**
   A retry uses up one attempt exactly when the count the broker increments is the one that
   was read and is not negative, or when neither was there to read.
   */
  lemma AttemptAdvances(b: Expiry, props: Properties, waitQueue: Text)
    ensures var count := RawCount(props, waitQueue);
            Attempt(AfterExpiry(b, props, waitQueue), waitQueue) == Attempt(props, waitQueue) + 1
            <==> if EntryCount(TableOf(props), waitQueue).Some? then 0 <= count < U32_MAX - 1 else count <= 0
  {
    ExpiryCounts(b, TableOf(props), waitQueue);
  }

  function Iterate<T>(f: T -> T, x: T, n: nat): T {
    if n == 0 then x else f(Iterate(f, x, n - 1))
  }

  function OneExpiry(b: Expiry, waitQueue: Text): FieldTable -> FieldTable {
    t => ExpiredTable(b, t, waitQueue)
  }

  /** The header table of attempt `n`, attempt 0 being the first delivery. */
  function TableAfter(b: Expiry, waitQueue: Text, t: FieldTable, n: nat): FieldTable {
    Iterate(OneExpiry(b, waitQueue), t, n)
  }

  lemma OneMoreExpiry(b: Expiry, waitQueue: Text, t: FieldTable, n: nat)
    ensures TableAfter(b, waitQueue, t, n + 1) == ExpiredTable(b, TableAfter(b, waitQueue, t, n), waitQueue)
  {
  }

  /** A reading that every step takes to its successor counts the steps. */
  lemma {:induction false} IterateCounts<T(!new)>(f: T -> T, reading: T -> Option<int>, x: T, n: nat)
    requires n >= 1 && forall y :: reading(f(y)) == Some(Successor(reading(y)))
    ensures reading(Iterate(f, x, n)) == Some(Successor(reading(x)) + n - 1)
  {
    assert Iterate(f, x, n) == f(Iterate(f, x, n - 1));
    if n > 1 {
      IterateCounts(f, reading, x, n - 1);
    }
  }

  function Reading(waitQueue: Text): FieldTable -> Option<int> {
    t => EntryCount(t, waitQueue)
  }

  lemma ExpiryReads(b: Expiry, waitQueue: Text)
    ensures forall t :: Reading(waitQueue)(OneExpiry(b, waitQueue)(t)) == Some(Successor(Reading(waitQueue)(t)))
  {
    forall t: FieldTable
      ensures Reading(waitQueue)(OneExpiry(b, waitQueue)(t)) == Some(Successor(Reading(waitQueue)(t)))
    {
      ExpiryCounts(b, t, waitQueue);
    }
  }

  lemma TripsCounted(b: Expiry, waitQueue: Text, t: FieldTable, n: nat)
    requires n >= 1
    ensures Reading(waitQueue)(TableAfter(b, waitQueue, t, n)) == Some(Successor(Reading(waitQueue)(t)) + n - 1)
  {
    ExpiryReads(b, waitQueue);
    IterateCounts(OneExpiry(b, waitQueue), Reading(waitQueue), t, n);
  }

  /** From the first expiry on, every trip adds one to the count, and that count is the one read back. */
  lemma CountAfterTrips(b: Expiry, waitQueue: Text, t: FieldTable, n: nat)
    requires n >= 1
    ensures EntryCount(TableAfter(b, waitQueue, t, n), waitQueue) == Some(CountAfterExpiry(t, waitQueue) + n - 1)
    ensures CountIn(TableAfter(b, waitQueue, t, n), waitQueue) == CountAfterExpiry(t, waitQueue) + n - 1
  {
    TripsCounted(b, waitQueue, t, n);
    ReadBack(TableAfter(b, waitQueue, t, n), waitQueue);
  }

  lemma ReadBack(t: FieldTable, waitQueue: Text)
    ensures Reading(waitQueue)(t) == EntryCount(t, waitQueue)
    ensures EntryCount(t, waitQueue).Some? ==> CountIn(t, waitQueue) == EntryCount(t, waitQueue).value
  {
    FirstCountAt(Deaths(t), waitQueue);
  }

  // ---- Identity ----

  /** The identifiers an attempt decodes to: what the properties say, or what this attempt minted. */
  function IdentityOf(f: UuidFormat, props: Properties, minted: Minted): (Uuid, Uuid) {
    (if Parseable(f, props.messageId) then f.parse(props.messageId.value).value else minted.messageId,
     if Parseable(f, props.correlationId) then f.parse(props.correlationId.value).value else minted.correlationId)
  }

  lemma DecodedIdentity(f: UuidFormat, p: Platform, props: Properties, payload: ByteString, required: RequiredFields,
                        minted: Minted, headers: (Headers, Headers))
    requires Restore(f, p, props, payload, required, minted, headers).Ok?
    ensures var e := Restore(f, p, props, payload, required, minted, headers).value;
            (e.messageId, e.correlationId) == IdentityOf(f, props, minted)
  {
  }

  predicate HasIdentity(f: UuidFormat, props: Properties) {
    Parseable(f, props.messageId) && Parseable(f, props.correlationId)
  }

  /** The entries of a table that are not the broker's. */
  function OwnHeaders(t: FieldTable): FieldTable {
    map k | k in t && !IsBrokerHeader(k) :: t[k]
  }

  /** Equal but for identifiers that did not parse, the delivery mode and the broker's headers. */
  predicate SameMessage(f: UuidFormat, first: Properties, later: Properties) {
    && (Parseable(f, first.messageId) ==> later.messageId == first.messageId)
    && (Parseable(f, first.correlationId) ==> later.correlationId == first.correlationId)
    && later == first.(messageId := later.messageId, correlationId := later.correlationId,
                       deliveryMode := later.deliveryMode, headers := later.headers)
    && OwnHeaders(TableOf(later)) == OwnHeaders(TableOf(first))
  }

  lemma SameMessageTrans(f: UuidFormat, a: Properties, b: Properties, c: Properties)
    requires SameMessage(f, a, b) && SameMessage(f, b, c)
    ensures SameMessage(f, a, c)
  {
  }

  /** The retry copy is the same message, persistent, with an identity. */
  lemma RetryKeepsMessage(f: UuidFormat, props: Properties, messageId: Uuid, correlationId: Uuid)
    requires f.Lawful()
    ensures var copy := RetryCopy(f, props, messageId, correlationId);
            SameMessage(f, props, copy) && HasIdentity(f, copy) && copy.deliveryMode == Some(2)
  {
    assert f.parse(f.render(messageId)).Some? && f.parse(f.render(correlationId)).Some?;
  }

  lemma ExpiryKeepsMessage(f: UuidFormat, b: Expiry, props: Properties, waitQueue: Text)
    requires b.Lawful()
    ensures SameMessage(f, props, AfterExpiry(b, props, waitQueue))
  {
    var t := TableOf(props);
    assert forall k :: k in BrokerEntries(b, t, waitQueue) ==> IsBrokerHeader(k);
  }

  /** One retry fixes the identifiers an attempt minted, whatever the next attempt would mint. */
  lemma RetryKeepsIdentity(f: UuidFormat, b: Expiry, props: Properties, waitQueue: Text, minted: Minted, later: Minted)
    requires f.Lawful()
    ensures var ids := IdentityOf(f, props, minted);
            IdentityOf(f, AfterExpiry(b, RetryCopy(f, props, ids.0, ids.1), waitQueue), later) == ids
  {
    var ids := IdentityOf(f, props, minted);
    assert f.parse(f.render(ids.0)) == Some(ids.0) && f.parse(f.render(ids.1)) == Some(ids.1);
  }

  // ---- The broker's headers against the metadata limits ----

  lemma {:induction false} EntriesWeightAgree(a: AmqpValue, b: AmqpValue, keys: set<Text>)
    requires a.Table? && b.Table? && keys <= a.fields.Keys && keys <= b.fields.Keys
    requires forall k :: k in keys ==> a.fields[k] == b.fields[k]
    ensures EntriesWeight(a, keys) == EntriesWeight(b, keys)
    decreases |keys|
  {
    if keys != {} {
      var k :| k in keys;
      EntriesWeightRemove(a, keys, k);
      EntriesWeightRemove(b, keys, k);
      EntriesWeightAgree(a, b, keys - {k});
    }
  }

  lemma {:induction false} EntriesWeightSplit(table: AmqpValue, keys: set<Text>, part: set<Text>)
    requires table.Table? && keys <= table.fields.Keys && part <= keys
    ensures EntriesWeight(table, keys) == EntriesWeight(table, keys - part) + EntriesWeight(table, part)
    decreases |part|
  {
    if part == {} {
      assert keys - part == keys;
    } else {
      var k :| k in part;
      EntriesWeightRemove(table, keys, k);
      EntriesWeightRemove(table, part, k);
      EntriesWeightSplit(table, keys - {k}, part - {k});
      assert keys - {k} - (part - {k}) == keys - part;
    }
  }

  /** Weight of a table after entries were written over it. */
  lemma MergedWeight(t: FieldTable, added: FieldTable)
    ensures TableWeight(t + added) == EntriesWeight(Table(t), t.Keys - added.Keys) + TableWeight(added)
  {
    var whole := t + added;
    EntriesWeightSplit(Table(whole), whole.Keys, added.Keys);
    assert whole.Keys - added.Keys == t.Keys - added.Keys;
    EntriesWeightAgree(Table(whole), Table(t), t.Keys - added.Keys);
    EntriesWeightAgree(Table(whole), Table(added), added.Keys);
  }

  ghost predicate EntryAccepted(k: Text, v: AmqpValue, limits: MetadataLimits) {
    |k| <= limits.maxKeyBytes && Saturate(Weight(v)) <= limits.maxValueBytes && Readable(k, v)
  }

  ghost predicate EntriesAccepted(t: FieldTable, limits: MetadataLimits) {
    forall k :: k in t ==> EntryAccepted(k, t[k], limits)
  }

  /** A table `decode_headers` accepts. */
  ghost predicate TableAccepted(t: FieldTable, limits: MetadataLimits) {
    |t| <= limits.maxHeaders && EntriesAccepted(t, limits) && Saturate(TableWeight(t)) <= limits.maxTotalBytes
  }

  lemma AcceptedTable(props: Properties, limits: MetadataLimits)
    ensures MetadataAccepted(props, limits) <==> TableAccepted(TableOf(props), limits)
  {
    if props.headers.None? {
      assert TableWeight(map[]) == 0;
    } else {
      AcceptedEntries(props.headers.value, limits);
    }
  }

  lemma AcceptedEntries(t: FieldTable, limits: MetadataLimits)
    ensures EntriesAccepted(t, limits)
            <==> && (forall k :: k in t ==> |k| <= limits.maxKeyBytes)
                 && (forall k :: k in t ==> Saturate(Weight(t[k])) <= limits.maxValueBytes)
                 && (forall k :: k in t ==> Readable(k, t[k]))
  {
    if EntriesAccepted(t, limits) {
      forall k | k in t
        ensures |k| <= limits.maxKeyBytes && Saturate(Weight(t[k])) <= limits.maxValueBytes && Readable(k, t[k])
      {
        assert EntryAccepted(k, t[k], limits);
      }
    }
  }

  /** What entries written over an accepted table must satisfy. */
  ghost predicate AddedFit(t: FieldTable, added: FieldTable, limits: MetadataLimits) {
    && |t.Keys + added.Keys| <= limits.maxHeaders
    && EntriesAccepted(added, limits)
    && Saturate(EntriesWeight(Table(t), t.Keys - added.Keys) + TableWeight(added)) <= limits.maxTotalBytes
  }

  lemma MergedEntries(t: FieldTable, added: FieldTable, limits: MetadataLimits)
    requires EntriesAccepted(t, limits)
    ensures EntriesAccepted(t + added, limits) <==> EntriesAccepted(added, limits)
  {
    var whole := t + added;
    forall k | k in added
      ensures k in whole && whole[k] == added[k]
    {
    }
  }

  lemma MergedAccepted(t: FieldTable, added: FieldTable, limits: MetadataLimits)
    requires TableAccepted(t, limits)
    ensures TableAccepted(t + added, limits) <==> AddedFit(t, added, limits)
  {
    MergedEntries(t, added, limits);
    MergedWeight(t, added);
    assert (t + added).Keys == t.Keys + added.Keys;
    assert |t + added| == |(t + added).Keys|;
  }

  /**
   The broker's headers count against the metadata limits. An accepted delivery is still
   accepted when it comes back from a retry exactly when what the broker wrote fits too.
   */
  lemma AcceptedAfterRetry(f: UuidFormat, b: Expiry, waitQueue: Text, props: Properties, limits: MetadataLimits,
                           messageId: Uuid, correlationId: Uuid)
    requires MetadataAccepted(props, limits)
    ensures MetadataAccepted(AfterExpiry(b, RetryCopy(f, props, messageId, correlationId), waitQueue), limits)
            <==> AddedFit(TableOf(props), BrokerEntries(b, TableOf(props), waitQueue), limits)
  {
    AcceptedTable(props, limits);
    AcceptedTable(AfterExpiry(b, RetryCopy(f, props, messageId, correlationId), waitQueue), limits);
    MergedAccepted(TableOf(props), BrokerEntries(b, TableOf(props), waitQueue), limits);
  }

  /** In particular a delivery whose table is exactly full is accepted at most once. */
  lemma FullTableIsRefusedAfterRetry(f: UuidFormat, b: Expiry, waitQueue: Text, props: Properties,
                                     limits: MetadataLimits,
                                     messageId: Uuid, correlationId: Uuid)
    requires |TableOf(props)| == limits.maxHeaders && X_DEATH !in TableOf(props)
    ensures !MetadataAccepted(AfterExpiry(b, RetryCopy(f, props, messageId, correlationId), waitQueue), limits)
  {
    var t := TableOf(props);
    var after := ExpiredTable(b, t, waitQueue);
    LargerSet(t.Keys, X_DEATH, after.Keys);
  }

  lemma LargerSet(a: set<Text>, k: Text, b: set<Text>)
    requires k !in a && k in b && a <= b
    ensures |a| < |b|
  {
    assert b == a + (b - a);
    assert k in b - a;
  }
}
