/**
 The octets an AMQP 0-9-1 field value occupies on the wire, type tags and length prefixes left
 out: what the byte limits of `hexeract-bus-rabbitmq/src/metadata.rs` are meant to bound.
 */
module Octets {
  import opened Bytes
  import opened Amqp
  import opened Metadata

  /** A signed integer in two's complement. */
  ghost function SignedOctets(i: int, width: nat): (b: ByteString)
    requires width >= 1
    ensures |b| == width
  {
    PowIsPositive(width);
    BigEndian(i % Pow256(width), width)
  }

  lemma {:induction false} PowIsPositive(width: nat)
    ensures Pow256(width) >= 1
  {
    if width > 0 {
      PowIsPositive(width - 1);
    }
  }

  /** Every integer of the width's signed range has octets of its own: no narrower width would do. */
  lemma SignedOctetsAreExact(i: int, j: int, width: nat)
    requires width >= 1 && SignedOctets(i, width) == SignedOctets(j, width)
    requires 0 <= 2 * i + Pow256(width) < 2 * Pow256(width) && 0 <= 2 * j + Pow256(width) < 2 * Pow256(width)
    ensures i == j
  {
    var p := Pow256(width);
    PowIsPositive(width);
    BigEndianInjective(i % p, j % p, width);
    ModularlyEqual(i, j, p);
  }

  lemma ModularlyEqual(i: int, j: int, p: int)
    requires p >= 1 && i % p == j % p && -p <= 2 * i < p && -p <= 2 * j < p
    ensures i == j
  {
    var a, b := i / p, j / p;
    assert i - j == p * (a - b);
    SmallMultiple(p, a - b);
  }

  lemma SmallMultiple(p: int, q: int)
    requires p >= 1
    ensures q >= 1 ==> p * q >= p
    ensures q <= -1 ==> p * q <= -p
  {
  }

  ghost function ScalarOctets(v: AmqpValue): ByteString {
    match v
    case Boolean(flag) => [if flag then 1 else 0]
    case ShortShortInt(i) => SignedOctets(i, 1)
    case ShortShortUInt(u) => BigEndian(u, 1)
    case ShortInt(i) => SignedOctets(i, 2)
    case ShortUInt(u) => BigEndian(u, 2)
    case LongInt(i) => SignedOctets(i, 4)
    case LongUInt(u) => BigEndian(u, 4)
    case LongLongInt(i) => SignedOctets(i, 8)
    case Float(bits) => BigEndian(bits, 4)
    case Double(bits) => BigEndian(bits, 8)
    case DecimalValue(scale, unscaled) => BigEndian(scale, 1) + BigEndian(unscaled, 4)
    case ShortString(text) => text
    case LongString(bytes) => bytes
    case ByteArray(raw) => raw
    case Timestamp(seconds) => BigEndian(seconds, 8)
    case Void => []
    case FieldArray(_) => []
    case Table(_) => []
  }

  /** A value's octets: those of its members in order, a table's entries each preceded by its key. */
  ghost function ValueOctets(v: AmqpValue): ByteString
    decreases v, 0
  {
    match v
    case FieldArray(items) => ItemOctets(items)
    case Table(fields) => EntryOctets(v, fields.Keys)
    case _ => ScalarOctets(v)
  }

  ghost function ItemOctets(items: seq<AmqpValue>): ByteString
    decreases items, 1
  {
    if items == [] then [] else ValueOctets(items[0]) + ItemOctets(items[1..])
  }

  ghost function EntryOctets(table: AmqpValue, keys: set<Text>): ByteString
    requires table.Table? && keys <= table.fields.Keys
    decreases table, 0, |keys|
  {
    if keys == {} then []
    else
      var k :| k in keys;
      k + ValueOctets(table.fields[k]) + EntryOctets(table, keys - {k})
  }

  lemma ScalarIsMeasured(v: AmqpValue)
    ensures ScalarBytes(v) == |ScalarOctets(v)|
  {
  }

  /** What a value weighs is exactly the number of key and payload octets it takes on the wire. */
  lemma {:induction false} WeightCountsOctets(v: AmqpValue)
    ensures Weight(v) == |ValueOctets(v)|
    decreases v, 0
  {
    match v
    case FieldArray(items) => ItemsCountOctets(items);
    case Table(fields) => EntriesCountOctets(v, fields.Keys);
    case _ => ScalarIsMeasured(v);
  }

  lemma {:induction false} ItemsCountOctets(items: seq<AmqpValue>)
    ensures ItemsWeight(items) == |ItemOctets(items)|
    decreases items, 1
  {
    if items != [] {
      WeightCountsOctets(items[0]);
      ItemsCountOctets(items[1..]);
    }
  }

  lemma {:induction false} EntriesCountOctets(table: AmqpValue, keys: set<Text>)
    requires table.Table? && keys <= table.fields.Keys
    ensures EntriesWeight(table, keys) == |EntryOctets(table, keys)|
    decreases table, 0, |keys|
  {
    if keys != {} {
      var k :| k in keys && EntryOctets(table, keys)
          == k + ValueOctets(table.fields[k]) + EntryOctets(table, keys - {k});
      EntriesWeightRemove(table, keys, k);
      WeightCountsOctets(table.fields[k]);
      EntriesCountOctets(table, keys - {k});
    }
  }

  /** A bound at the top of `usize` is no bound: the measurement saturates there. */
  predicate Within(octets: nat, max: nat) {
    octets <= max || max >= USIZE_MAX
  }

  /**
   So the inbound limits bound octets: a table fits exactly when it has few enough entries,
   short enough keys, and few enough octets in each value and altogether.
   */
  lemma LimitsBoundOctets(t: FieldTable, limits: MetadataLimits)
    ensures InboundFits(t, limits)
            <==> && |t| <= limits.maxHeaders
                 && (forall k :: k in t ==> |k| <= limits.maxKeyBytes)
                 && (forall k :: k in t ==> Within(|ValueOctets(t[k])|, limits.maxValueBytes))
                 && Within(|ValueOctets(Table(t))|, limits.maxTotalBytes)
  {
    WeightCountsOctets(Table(t));
    forall k | k in t
      ensures Weight(t[k]) == |ValueOctets(t[k])|
    {
      WeightCountsOctets(t[k]);
    }
  }
}
