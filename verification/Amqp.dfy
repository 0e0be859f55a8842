/**
 AMQP 0-9-1 values, field tables and basic properties as `lapin` decodes them,
 and the bounds Hexeract applies to them (`metadata.rs`).
 */
module Amqp {
  import opened Bytes

  /** A field table is a `BTreeMap`: distinct short-string keys, each with one value. */
  type FieldTable = map<Text, AmqpValue>

  datatype AmqpValue =
    | Boolean(flag: bool)
    | ShortShortInt(i8: int)
    | ShortShortUInt(u8: nat)
    | ShortInt(i16: int)
    | ShortUInt(u16: nat)
    | LongInt(i32: int)
    | LongUInt(u32: nat)
    | LongLongInt(i64: int)
    | Float(bits32: nat)
    | Double(bits64: nat)
    | DecimalValue(scale: nat, unscaled: nat)
    | ShortString(text: Text)
    | LongString(bytes: ByteString)
    | ByteArray(raw: ByteString)
    | Timestamp(u64: nat)
    | Void
    | FieldArray(items: seq<AmqpValue>)
    | Table(fields: FieldTable)

  const SHORT_STRING_MAX := 255

  /** `BasicProperties`, the fields Hexeract writes or reads. */
  datatype Properties = Properties(
    contentType: Option<Text>,
    headers: Option<FieldTable>,
    deliveryMode: Option<nat>,
    correlationId: Option<Text>,
    replyTo: Option<Text>,
    messageId: Option<Text>,
    timestamp: Option<nat>,
    kind: Option<Text>,
    userId: Option<Text>)

  datatype MetadataLimits = MetadataLimits(maxHeaders: nat, maxKeyBytes: nat, maxValueBytes: nat, maxTotalBytes: nat)

  /** Every bound is a `usize`. */
  predicate UsizeLimits(l: MetadataLimits) {
    l.maxHeaders <= USIZE_MAX && l.maxKeyBytes <= USIZE_MAX && l.maxValueBytes <= USIZE_MAX
        && l.maxTotalBytes <= USIZE_MAX
  }

  // ---- What a value weighs ----

  /** Encoded width of a scalar; a container weighs what it holds. */
  function ScalarBytes(v: AmqpValue): nat {
    match v
    case Boolean(_) => 1
    case ShortShortInt(_) => 1
    case ShortShortUInt(_) => 1
    case ShortInt(_) => 2
    case ShortUInt(_) => 2
    case LongInt(_) => 4
    case LongUInt(_) => 4
    case Float(_) => 4
    case LongLongInt(_) => 8
    case Double(_) => 8
    case Timestamp(_) => 8
    case DecimalValue(_, _) => 5
    case ShortString(text) => |text|
    case LongString(bytes) => |bytes|
    case ByteArray(raw) => |raw|
    case Void => 0
    case FieldArray(_) => 0
    case Table(_) => 0
  }

  /** Recursive size of a value: the reference the work-list measurement is held to. */
  ghost function Weight(v: AmqpValue): nat
    decreases v, 0
  {
    match v
    case FieldArray(items) => ItemsWeight(items)
    case Table(fields) => EntriesWeight(v, fields.Keys)
    case _ => ScalarBytes(v)
  }

  ghost function ItemsWeight(items: seq<AmqpValue>): nat
    decreases items, 1
  {
    if items == [] then 0 else Weight(items[0]) + ItemsWeight(items[1..])
  }

  /** Keys and values of the entries of `table` whose key is in `keys`. */
  ghost function EntriesWeight(table: AmqpValue, keys: set<Text>): nat
    requires table.Table? && keys <= table.fields.Keys
    decreases table, 0, |keys|
  {
    if keys == {} then 0
    else
      var k :| k in keys;
      |k| + Weight(table.fields[k]) + EntriesWeight(table, keys - {k})
  }

  /** The sum does not depend on which entry is taken first. */
  lemma {:induction false} EntriesWeightRemove(table: AmqpValue, keys: set<Text>, k: Text)
    requires table.Table? && keys <= table.fields.Keys && k in keys
    ensures EntriesWeight(table, keys) == |k| + Weight(table.fields[k]) + EntriesWeight(table, keys - {k})
    decreases |keys|
  {
    var first :| first in keys && EntriesWeight(table, keys)
        == |first| + Weight(table.fields[first]) + EntriesWeight(table, keys - {first});
    if first != k {
      EntriesWeightRemove(table, keys - {first}, k);
      EntriesWeightRemove(table, keys - {k}, first);
      assert keys - {first} - {k} == keys - {k} - {first};
    }
  }

  lemma {:induction false} ItemsWeightAppend(items: seq<AmqpValue>, more: seq<AmqpValue>)
    ensures ItemsWeight(items + more) == ItemsWeight(items) + ItemsWeight(more)
  {
    if items == [] {
      assert items + more == more;
    } else {
      assert (items + more)[1..] == items[1..] + more;
      ItemsWeightAppend(items[1..], more);
    }
  }

  // ---- How many nodes a value has: the termination measure of the work list ----

  ghost function Nodes(v: AmqpValue): (n: nat)
    ensures n >= 1
    decreases v, 0
  {
    match v
    case FieldArray(items) => 1 + ItemNodes(items)
    case Table(fields) => 1 + EntryNodes(v, fields.Keys)
    case _ => 1
  }

  ghost function ItemNodes(items: seq<AmqpValue>): nat
    decreases items, 1
  {
    if items == [] then 0 else Nodes(items[0]) + ItemNodes(items[1..])
  }

  ghost function EntryNodes(table: AmqpValue, keys: set<Text>): nat
    requires table.Table? && keys <= table.fields.Keys
    decreases table, 0, |keys|
  {
    if keys == {} then 0
    else
      var k :| k in keys;
      Nodes(table.fields[k]) + EntryNodes(table, keys - {k})
  }

  lemma {:induction false} EntryNodesRemove(table: AmqpValue, keys: set<Text>, k: Text)
    requires table.Table? && keys <= table.fields.Keys && k in keys
    ensures EntryNodes(table, keys) == Nodes(table.fields[k]) + EntryNodes(table, keys - {k})
    decreases |keys|
  {
    var first :| first in keys && EntryNodes(table, keys)
        == Nodes(table.fields[first]) + EntryNodes(table, keys - {first});
    if first != k {
      EntryNodesRemove(table, keys - {first}, k);
      EntryNodesRemove(table, keys - {k}, first);
      assert keys - {first} - {k} == keys - {k} - {first};
    }
  }

  lemma {:induction false} ItemNodesAppend(items: seq<AmqpValue>, more: seq<AmqpValue>)
    ensures ItemNodes(items + more) == ItemNodes(items) + ItemNodes(more)
  {
    if items == [] {
      assert items + more == more;
    } else {
      assert (items + more)[1..] == items[1..] + more;
      ItemNodesAppend(items[1..], more);
    }
  }
}
