/**
 The bounded AMQP metadata codec shared by the transport, the worker and the reply
 inbox (`hexeract-bus-rabbitmq/src/metadata.rs`).

 Hash maps are iterated in an unspecified order. An outbound iteration is a parameter
 (any stream enumerating the map), an inbound one a nondeterministic choice of the next
 entry, so each contract below holds for every order.
 */
module Metadata {
  import opened Bytes
  import opened Envelopes
  import opened Amqp

  // ---- measure_value ----

  /**
   Work-list measurement of one value. It stops as soon as the running total exceeds
   the bound, and agrees with the recursive size `Weight` on both verdicts.
   */
  method MeasureValue(value: AmqpValue, max: nat) returns (r: Result<nat, BusError>)
    requires max <= USIZE_MAX
    ensures r.Ok? <==> Saturate(Weight(value)) <= max
    ensures r.Ok? ==> r.value == Saturate(Weight(value))
    ensures r.Err? ==> r.error.MetadataLimitExceeded? && r.error.limit == ValueBytes && r.error.max == max
                       && max < r.error.actual <= Weight(value)
  {
    var measured: nat := 0;
    var pending := [value];
    ghost var exact: nat := 0;
    assert ItemsWeight(pending[1..]) == 0;
    while pending != []
      invariant measured == Saturate(exact) <= max
      invariant exact + ItemsWeight(pending) == Weight(value)
      decreases ItemNodes(pending)
    {
      var current := pending[|pending| - 1];
      var rest := pending[..|pending| - 1];
      PopSums(pending);
      pending := rest;
      var contribution := ScalarBytes(current);
      ghost var own: nat := contribution;
      match current {
        case FieldArray(items) =>
          pending := pending + items;
          ItemsWeightAppend(rest, items);
          ItemNodesAppend(rest, items);
        case Table(_) => contribution, pending, own := PushEntries(current, rest);
        case _ =>
      }
      measured := Saturate(measured + contribution);
      exact := exact + own;
      if measured > max {
        return Err(MetadataLimitExceeded(ValueBytes, measured, max));
      }
    }
    return Ok(measured);
  }

  /** The inner loop: the keys of a table are measured, its values go on the work list. */
  method PushEntries(table: AmqpValue, rest: seq<AmqpValue>)
    returns (contribution: nat, pending: seq<AmqpValue>, ghost own: nat)
    requires table.Table?
    ensures contribution == Saturate(own)
    ensures own + ItemsWeight(pending) == Weight(table) + ItemsWeight(rest)
    ensures ItemNodes(pending) + 1 == Nodes(table) + ItemNodes(rest)
  {
    contribution, pending, own := 0, rest, 0;
    var unvisited := table.fields.Keys;
    while unvisited != {}
      invariant unvisited <= table.fields.Keys && contribution == Saturate(own)
      invariant own + EntriesWeight(table, unvisited) + ItemsWeight(pending) == Weight(table) + ItemsWeight(rest)
      invariant EntryNodes(table, unvisited) + ItemNodes(pending) + 1 == Nodes(table) + ItemNodes(rest)
    {
      var key :| key in unvisited;
      contribution := Saturate(contribution + |key|);
      EntriesWeightRemove(table, unvisited, key);
      EntryNodesRemove(table, unvisited, key);
      PushSums(pending, table.fields[key]);
      pending := pending + [table.fields[key]];
      own := own + |key|;
      unvisited := unvisited - {key};
    }
  }

  lemma PushSums(pending: seq<AmqpValue>, v: AmqpValue)
    ensures ItemsWeight(pending + [v]) == ItemsWeight(pending) + Weight(v)
    ensures ItemNodes(pending + [v]) == ItemNodes(pending) + Nodes(v)
  {
    ItemsWeightAppend(pending, [v]);
    ItemNodesAppend(pending, [v]);
    assert [v][1..] == [];
  }

  lemma PopSums(pending: seq<AmqpValue>)
    requires pending != []
    ensures ItemsWeight(pending) == ItemsWeight(pending[..|pending| - 1]) + Weight(pending[|pending| - 1])
    ensures ItemNodes(pending) == ItemNodes(pending[..|pending| - 1]) + Nodes(pending[|pending| - 1])
  {
    assert pending == pending[..|pending| - 1] + [pending[|pending| - 1]];
    PushSums(pending[..|pending| - 1], pending[|pending| - 1]);
  }

  // ---- Header maps and their enumerations ----

  type Stream = seq<(Text, Text)>

  /** `s` visits every entry of `h` exactly once. */
  ghost predicate Enumerates(s: Stream, h: Headers) {
    && |s| == |h|
    && (forall i :: 0 <= i < |s| ==> s[i].0 in h && h[s[i].0] == s[i].1)
    && (forall k :: k in h ==> (k, h[k]) in s)
    && (forall i, j :: 0 <= i < j < |s| ==> s[i].0 != s[j].0)
  }

  /** Keys and values of the entries of `h` whose key is in `keys`. */
  ghost function BytesOver(h: Headers, keys: set<Text>): nat
    requires keys <= h.Keys
    decreases |keys|
  {
    if keys == {} then 0
    else
      var k :| k in keys;
      |k| + |h[k]| + BytesOver(h, keys - {k})
  }

  ghost function HeaderBytes(h: Headers): nat {
    BytesOver(h, h.Keys)
  }

  lemma {:induction false} BytesOverRemove(h: Headers, keys: set<Text>, k: Text)
    requires keys <= h.Keys && k in keys
    ensures BytesOver(h, keys) == |k| + |h[k]| + BytesOver(h, keys - {k})
    decreases |keys|
  {
    var first :| first in keys && BytesOver(h, keys) == |first| + |h[first]| + BytesOver(h, keys - {first});
    if first != k {
      BytesOverRemove(h, keys - {first}, k);
      BytesOverRemove(h, keys - {k}, first);
      assert keys - {first} - {k} == keys - {k} - {first};
    }
  }

  /** Two maps that agree on `keys` weigh the same there. */
  lemma {:induction false} BytesOverAgree(h: Headers, g: Headers, keys: set<Text>)
    requires keys <= h.Keys && keys <= g.Keys && forall k :: k in keys ==> h[k] == g[k]
    ensures BytesOver(h, keys) == BytesOver(g, keys)
    decreases |keys|
  {
    if keys != {} {
      var k :| k in keys;
      BytesOverRemove(h, keys, k);
      BytesOverRemove(g, keys, k);
      BytesOverAgree(h, g, keys - {k});
    }
  }

  lemma {:induction false} BytesOverSplit(h: Headers, keys: set<Text>, part: set<Text>)
    requires part <= keys <= h.Keys
    ensures BytesOver(h, keys) == BytesOver(h, part) + BytesOver(h, keys - part)
    decreases |part|
  {
    if part == {} {
      assert keys - part == keys;
    } else {
      var k :| k in part;
      BytesOverRemove(h, keys, k);
      BytesOverRemove(h, part, k);
      BytesOverSplit(h, keys - {k}, part - {k});
      assert (keys - {k}) - (part - {k}) == keys - part;
    }
  }

  ghost function StreamBytes(s: Stream): nat {
    if s == [] then 0
    else var last := s[|s| - 1]; StreamBytes(s[..|s| - 1]) + |last.0| + |last.1|
  }

  lemma {:induction false} StreamBytesAppend(s: Stream, t: Stream)
    ensures StreamBytes(s + t) == StreamBytes(s) + StreamBytes(t)
  {
    if t == [] {
      assert s + t == s;
    } else {
      assert (s + t)[..|s + t| - 1] == s + t[..|t| - 1];
      StreamBytesAppend(s, t[..|t| - 1]);
    }
  }

  lemma EnumerationInit(s: Stream, h: Headers)
    requires Enumerates(s, h) && s != []
    ensures Enumerates(s[..|s| - 1], h - {s[|s| - 1].0})
  {
    var n := |s| - 1;
    var rest := h - {s[n].0};
    RemoveKeySize(h, s[n].0);
    forall k | k in rest ensures (k, rest[k]) in s[..n] {
      EntryBefore(s, h, k);
    }
  }

  lemma EntryBefore(s: Stream, h: Headers, k: Text)
    requires Enumerates(s, h) && s != [] && k in h && k != s[|s| - 1].0
    ensures (k, h[k]) in s[..|s| - 1]
  {
    assert (k, h[k]) in s;
    var i :| 0 <= i < |s| && s[i] == (k, h[k]);
    assert s[..|s| - 1][i] == s[i];
  }

  /** However a map is enumerated, the byte total is that of the map. */
  lemma {:induction false} EnumerationBytes(s: Stream, h: Headers)
    requires Enumerates(s, h)
    ensures StreamBytes(s) == HeaderBytes(h)
    decreases |s|
  {
    if s != [] {
      var k := s[|s| - 1].0;
      BytesOverRemove(h, h.Keys, k);
      BytesOverAgree(h, h - {k}, h.Keys - {k});
      assert (h - {k}).Keys == h.Keys - {k};
      EnumerationInit(s, h);
      EnumerationBytes(s[..|s| - 1], h - {k});
    }
  }

  lemma RemoveKeySize<K, V>(m: map<K, V>, k: K)
    requires k in m
    ensures |m - {k}| == |m| - 1
  {
    assert (m - {k}).Keys == m.Keys - {k};
  }

  // ---- encode_headers ----

  /** Header values as they sit in an outbound field table. */
  function LongStrings(h: Headers): (t: FieldTable)
    ensures t.Keys == h.Keys && forall k :: k in h ==> t[k] == LongString(h[k])
  {
    map k | k in h :: LongString(h[k])
  }

  lemma LongStringsPutBack(h: Headers, k: Text)
    requires k in h
    ensures LongStrings(h - {k})[k := LongString(h[k])] == LongStrings(h)
  {
  }

  lemma LongStringsUnion(h: Headers, g: Headers)
    ensures LongStrings(h + g) == LongStrings(h) + LongStrings(g)
  {
    var whole, parts := LongStrings(h + g), LongStrings(h) + LongStrings(g);
    assert whole.Keys == h.Keys + g.Keys == parts.Keys;
    forall k | k in whole
      ensures whole[k] == parts[k]
    {
      assert k in g || k in h;
    }
  }

  datatype Refusal = ReservedNamespace | OverLimit(limit: MetadataLimit) | KeyNotShortString

  ghost predicate KeysWithin(h: Headers, max: nat) {
    forall k :: k in h ==> |k| <= max
  }

  ghost predicate ValuesWithin(h: Headers, max: nat) {
    forall k :: k in h ==> |h[k]| <= max
  }

  ghost predicate NoReservedKey(h: Headers) {
    forall k :: k in h ==> !IsReserved(k)
  }

  /** Application, protocol and security bytes together. */
  ghost function OutboundBytes(e: Envelope, security: Headers): nat {
    HeaderBytes(e.headers) + HeaderBytes(e.protocolHeaders) + HeaderBytes(security)
  }

  /**
   The verdict on an outbound envelope, a function of the maps alone: the first rule
   violated, in the fixed order the dimensions are checked.
   */
  ghost function OutboundRefusal(e: Envelope, limits: MetadataLimits, security: Headers): Option<Refusal> {
    var max := limits;
    if !NoReservedKey(e.headers) then Some(ReservedNamespace)
    else if |e.headers| + |e.protocolHeaders| + |security| > max.maxHeaders then Some(OverLimit(HeaderCount))
    else if !(KeysWithin(e.headers, max.maxKeyBytes) && KeysWithin(e.protocolHeaders, max.maxKeyBytes)
        && KeysWithin(security, max.maxKeyBytes))
    then Some(OverLimit(KeyBytes))
    else if !(ValuesWithin(e.headers, max.maxValueBytes) && ValuesWithin(e.protocolHeaders, max.maxValueBytes)
        && ValuesWithin(security, max.maxValueBytes))
    then Some(OverLimit(ValueBytes))
    else if Saturate(OutboundBytes(e, security)) > max.maxTotalBytes then Some(OverLimit(TotalBytes))
    else if !(KeysWithin(e.headers, SHORT_STRING_MAX) && KeysWithin(e.protocolHeaders, SHORT_STRING_MAX)
        && KeysWithin(security, SHORT_STRING_MAX))
    then Some(KeyNotShortString)
    else None
  }

  ghost predicate AllKeysWithin(e: Envelope, security: Headers, max: nat) {
    KeysWithin(e.headers, max) && KeysWithin(e.protocolHeaders, max) && KeysWithin(security, max)
  }

  ghost predicate AllValuesWithin(e: Envelope, security: Headers, max: nat) {
    ValuesWithin(e.headers, max) && ValuesWithin(e.protocolHeaders, max) && ValuesWithin(security, max)
  }

  /**
   Each refusal on what the maps hold: the namespace is looked at before any size, the
   number of headers before their sizes, keys before values, values before the sum.
   */
  lemma RefusalExactly(e: Envelope, limits: MetadataLimits, security: Headers)
    ensures var refusal := OutboundRefusal(e, limits, security);
            var few := |e.headers| + |e.protocolHeaders| + |security| <= limits.maxHeaders;
            var keys := AllKeysWithin(e, security, limits.maxKeyBytes);
            var values := AllValuesWithin(e, security, limits.maxValueBytes);
            var total := Saturate(OutboundBytes(e, security)) <= limits.maxTotalBytes;
            && (refusal == Some(ReservedNamespace) <==> exists k :: k in e.headers && IsReserved(k))
            && (refusal == Some(OverLimit(HeaderCount)) <==> NoReservedKey(e.headers) && !few)
            && (refusal == Some(OverLimit(KeyBytes)) <==> NoReservedKey(e.headers) && few && !keys)
            && (refusal == Some(OverLimit(ValueBytes)) <==> NoReservedKey(e.headers) && few && keys && !values)
            && (refusal == Some(OverLimit(TotalBytes))
                <==> NoReservedKey(e.headers) && few && keys && values && !total)
  {
  }

  /** Which rule an error reports. */
  function Reported(e: BusError): Option<Refusal> {
    match e
    case ReservedHeaderNamespace => Some(ReservedNamespace)
    case MetadataLimitExceeded(limit, _, _) => Some(OverLimit(limit))
    case InvalidTopology => Some(KeyNotShortString)
    case _ => None
  }

  ghost function Inserted(s: Stream): FieldTable {
    if s == [] then map[]
    else var last := s[|s| - 1]; Inserted(s[..|s| - 1])[last.0 := LongString(last.1)]
  }

  lemma {:induction false} InsertedAppend(s: Stream, t: Stream)
    ensures Inserted(s + t) == Inserted(s) + Inserted(t)
  {
    if t == [] {
      assert s + t == s;
    } else {
      assert (s + t)[..|s + t| - 1] == s + t[..|t| - 1];
      InsertedAppend(s, t[..|t| - 1]);
    }
  }

  /** With distinct keys nothing is overwritten, so the table of an enumeration is the table of its map. */
  lemma {:induction false} EnumerationInserted(s: Stream, h: Headers)
    requires Enumerates(s, h)
    ensures Inserted(s) == LongStrings(h)
    decreases |s|
  {
    if s == [] {
      assert h.Keys == {};
    } else {
      EnumerationInit(s, h);
      EnumerationInserted(s[..|s| - 1], h - {s[|s| - 1].0});
      LongStringsPutBack(h, s[|s| - 1].0);
    }
  }

  // One pass over the header stream each, as the code makes them.

  ghost predicate KeysFit(s: Stream, max: nat) {
    forall i :: 0 <= i < |s| ==> |s[i].0| <= max
  }

  ghost predicate ValuesFit(s: Stream, max: nat) {
    forall i :: 0 <= i < |s| ==> |s[i].1| <= max
  }

  method CheckKeys(s: Stream, max: nat) returns (r: Option<nat>)
    ensures r.None? <==> KeysFit(s, max)
    ensures r.Some? ==> r.value > max
  {
    for i := 0 to |s|
      invariant KeysFit(s[..i], max)
    {
      if |s[i].0| > max {
        return Some(|s[i].0|);
      }
    }
    assert s[..|s|] == s;
    return None;
  }

  method CheckValues(s: Stream, max: nat) returns (r: Option<nat>)
    ensures r.None? <==> ValuesFit(s, max)
    ensures r.Some? ==> r.value > max
  {
    for i := 0 to |s|
      invariant ValuesFit(s[..i], max)
    {
      if |s[i].1| > max {
        return Some(|s[i].1|);
      }
    }
    assert s[..|s|] == s;
    return None;
  }

  method TotalBytesOf(s: Stream) returns (total: nat)
    ensures total == Saturate(StreamBytes(s))
  {
    total := 0;
    for i := 0 to |s|
      invariant total == Saturate(StreamBytes(s[..i]))
    {
      total := Saturate(Saturate(total + |s[i].0|) + |s[i].1|);
      assert s[..i + 1][..i] == s[..i];
    }
    assert s[..|s|] == s;
  }

  method InsertAll(s: Stream) returns (r: Result<FieldTable, BusError>)
    ensures r.Ok? <==> KeysFit(s, SHORT_STRING_MAX)
    ensures r == if r.Ok? then Ok(Inserted(s)) else Err(InvalidTopology)
  {
    var fields: FieldTable := map[];
    for i := 0 to |s|
      invariant fields == Inserted(s[..i]) && KeysFit(s[..i], SHORT_STRING_MAX)
    {
      if |s[i].0| > SHORT_STRING_MAX {
        return Err(InvalidTopology);
      }
      fields := fields[s[i].0 := LongString(s[i].1)];
      assert s[..i + 1][..i] == s[..i];
    }
    assert s[..|s|] == s;
    return Ok(fields);
  }

  method AnyReservedKey(app: Stream, ghost h: Headers) returns (found: bool)
    requires Enumerates(app, h)
    ensures found <==> !NoReservedKey(h)
  {
    for i := 0 to |app|
      invariant forall j :: 0 <= j < i ==> !IsReserved(app[j].0)
    {
      if IsReserved(app[i].0) {
        return true;
      }
    }
    forall k | k in h ensures !IsReserved(k) {
      assert (k, h[k]) in app;
    }
    return false;
  }

  /** The dimension checks, stated on the stream the passes walk. */
  ghost function StreamRefusal(s: Stream, limits: MetadataLimits): Option<Refusal> {
    if |s| > limits.maxHeaders then Some(OverLimit(HeaderCount))
    else if !KeysFit(s, limits.maxKeyBytes) then Some(OverLimit(KeyBytes))
    else if !ValuesFit(s, limits.maxValueBytes) then Some(OverLimit(ValueBytes))
    else if Saturate(StreamBytes(s)) > limits.maxTotalBytes then Some(OverLimit(TotalBytes))
    else if !KeysFit(s, SHORT_STRING_MAX) then Some(KeyNotShortString)
    else None
  }

  method EncodeStream(stream: Stream, limits: MetadataLimits) returns (r: Result<FieldTable, BusError>)
    requires UsizeLimits(limits)
    ensures r.Ok? <==> StreamRefusal(stream, limits).None?
    ensures r.Err? ==> Reported(r.error) == StreamRefusal(stream, limits)
    ensures r.Err? && r.error.MetadataLimitExceeded? ==> r.error.actual > r.error.max
    ensures r.Ok? ==> r.value == Inserted(stream)
  {
    if |stream| > limits.maxHeaders {
      return Err(MetadataLimitExceeded(HeaderCount, |stream|, limits.maxHeaders));
    }
    var longKey := CheckKeys(stream, limits.maxKeyBytes);
    if longKey.Some? {
      return Err(MetadataLimitExceeded(KeyBytes, longKey.value, limits.maxKeyBytes));
    }
    var longValue := CheckValues(stream, limits.maxValueBytes);
    if longValue.Some? {
      return Err(MetadataLimitExceeded(ValueBytes, longValue.value, limits.maxValueBytes));
    }
    var total := TotalBytesOf(stream);
    if total > limits.maxTotalBytes {
      return Err(MetadataLimitExceeded(TotalBytes, total, limits.maxTotalBytes));
    }
    r := InsertAll(stream);
  }

  /**
   Validate and encode outbound metadata. Each pass walks `app + protocol + sec`, an
   arbitrary enumeration of the three maps, yet the verdict, the violated dimension and
   the table are functions of the maps. `security` is empty for an unsigned publish.
   */
  method EncodeHeaders(e: Envelope, limits: MetadataLimits, security: Headers, app: Stream, protocol: Stream,
                       sec: Stream)
    returns (r: Result<FieldTable, BusError>)
    requires UsizeLimits(limits)
    requires Enumerates(app, e.headers) && Enumerates(protocol, e.protocolHeaders) && Enumerates(sec, security)
    ensures r.Ok? <==> OutboundRefusal(e, limits, security).None?
    ensures r.Err? ==> Reported(r.error) == OutboundRefusal(e, limits, security)
    ensures r.Err? && r.error.MetadataLimitExceeded? ==> r.error.actual > r.error.max
    ensures r.Ok? ==> r.value == LongStrings(e.headers + e.protocolHeaders + security)
  {
    var reserved := AnyReservedKey(app, e.headers);
    if reserved {
      return Err(ReservedHeaderNamespace);
    }
    StreamVerdict(app, protocol, sec, e, limits, security);
    r := EncodeStream(app + protocol + sec, limits);
  }

  lemma StreamVerdict(app: Stream, protocol: Stream, sec: Stream, e: Envelope, limits: MetadataLimits,
                      security: Headers)
    requires Enumerates(app, e.headers) && Enumerates(protocol, e.protocolHeaders) && Enumerates(sec, security)
    requires NoReservedKey(e.headers)
    ensures StreamRefusal(app + protocol + sec, limits) == OutboundRefusal(e, limits, security)
    ensures Inserted(app + protocol + sec) == LongStrings(e.headers + e.protocolHeaders + security)
  {
    StreamRefusalAgrees(app, protocol, sec, e, limits, security);
    StreamTable(app, protocol, sec, e, security);
  }

  lemma StreamRefusalAgrees(app: Stream, protocol: Stream, sec: Stream, e: Envelope, limits: MetadataLimits,
                            security: Headers)
    requires Enumerates(app, e.headers) && Enumerates(protocol, e.protocolHeaders) && Enumerates(sec, security)
    requires NoReservedKey(e.headers)
    ensures StreamRefusal(app + protocol + sec, limits) == OutboundRefusal(e, limits, security)
  {
    StreamKeys(app, protocol, sec, e, security, limits.maxKeyBytes);
    StreamValues(app, protocol, sec, e, security, limits.maxValueBytes);
    StreamTotal(app, protocol, sec, e, security);
    StreamKeys(app, protocol, sec, e, security, SHORT_STRING_MAX);
  }

  lemma EnumerationKeys(s: Stream, h: Headers, max: nat)
    requires Enumerates(s, h)
    ensures KeysFit(s, max) <==> KeysWithin(h, max)
    ensures ValuesFit(s, max) <==> ValuesWithin(h, max)
  {
    forall k | k in h
      ensures exists i :: 0 <= i < |s| && s[i] == (k, h[k])
    {
      assert (k, h[k]) in s;
    }
  }

  lemma FitAppend(s: Stream, t: Stream, max: nat)
    ensures KeysFit(s + t, max) <==> KeysFit(s, max) && KeysFit(t, max)
    ensures ValuesFit(s + t, max) <==> ValuesFit(s, max) && ValuesFit(t, max)
  {
    assert forall i :: 0 <= i < |s| ==> (s + t)[i] == s[i];
    assert forall i :: 0 <= i < |t| ==> (s + t)[|s| + i] == t[i];
  }

  /** The chained stream holds exactly the keys of the three maps. */
  lemma StreamKeys(app: Stream, protocol: Stream, sec: Stream, e: Envelope, security: Headers, max: nat)
    requires Enumerates(app, e.headers) && Enumerates(protocol, e.protocolHeaders) && Enumerates(sec, security)
    ensures KeysFit(app + protocol + sec, max)
            <==> (KeysWithin(e.headers, max) && KeysWithin(e.protocolHeaders, max) && KeysWithin(security, max))
  {
    FitAppend(app + protocol, sec, max);
    FitAppend(app, protocol, max);
    EnumerationKeys(app, e.headers, max);
    EnumerationKeys(protocol, e.protocolHeaders, max);
    EnumerationKeys(sec, security, max);
  }

  lemma StreamValues(app: Stream, protocol: Stream, sec: Stream, e: Envelope, security: Headers, max: nat)
    requires Enumerates(app, e.headers) && Enumerates(protocol, e.protocolHeaders) && Enumerates(sec, security)
    ensures ValuesFit(app + protocol + sec, max)
            <==> (ValuesWithin(e.headers, max) && ValuesWithin(e.protocolHeaders, max) && ValuesWithin(security, max))
  {
    FitAppend(app + protocol, sec, max);
    FitAppend(app, protocol, max);
    EnumerationKeys(app, e.headers, max);
    EnumerationKeys(protocol, e.protocolHeaders, max);
    EnumerationKeys(sec, security, max);
  }

  lemma StreamTotal(app: Stream, protocol: Stream, sec: Stream, e: Envelope, security: Headers)
    requires Enumerates(app, e.headers) && Enumerates(protocol, e.protocolHeaders) && Enumerates(sec, security)
    ensures StreamBytes(app + protocol + sec) == OutboundBytes(e, security)
  {
    StreamBytesAppend(app + protocol, sec);
    StreamBytesAppend(app, protocol);
    EnumerationBytes(app, e.headers);
    EnumerationBytes(protocol, e.protocolHeaders);
    EnumerationBytes(sec, security);
  }

  /** A later map overrides an earlier one, in whatever order each is walked. */
  lemma StreamTable(app: Stream, protocol: Stream, sec: Stream, e: Envelope, security: Headers)
    requires Enumerates(app, e.headers) && Enumerates(protocol, e.protocolHeaders) && Enumerates(sec, security)
    ensures Inserted(app + protocol + sec) == LongStrings(e.headers + e.protocolHeaders + security)
  {
    InsertedAppend(app + protocol, sec);
    InsertedAppend(app, protocol);
    EnumerationInserted(app, e.headers);
    EnumerationInserted(protocol, e.protocolHeaders);
    EnumerationInserted(sec, security);
    LongStringsUnion(e.headers, e.protocolHeaders);
    LongStringsUnion(e.headers + e.protocolHeaders, security);
  }

  // ---- decode_headers ----

  ghost function TableWeight(t: FieldTable): nat {
    EntriesWeight(Table(t), t.Keys)
  }

  ghost predicate InboundFits(t: FieldTable, limits: MetadataLimits) {
    && |t| <= limits.maxHeaders
    && (forall k :: k in t ==> |k| <= limits.maxKeyBytes)
    && (forall k :: k in t ==> Saturate(Weight(t[k])) <= limits.maxValueBytes)
    && Saturate(TableWeight(t)) <= limits.maxTotalBytes
  }

  predicate Readable(k: Text, v: AmqpValue) {
    (IsReserved(k) ==> CanonicalReserved(k)) && (v.LongString? ==> ValidUtf8(v.bytes))
  }

  /** The string headers among `keys` on one side of the reserved boundary. */
  function StringHeadersAmong(t: FieldTable, reserved: bool, keys: set<Text>): (h: Headers)
    requires keys <= t.Keys
  {
    map k | k in keys && t[k].LongString? && IsReserved(k) == reserved :: t[k].bytes
  }

  function StringHeaders(t: FieldTable, reserved: bool): (h: Headers) {
    StringHeadersAmong(t, reserved, t.Keys)
  }

  /** Why a table may be refused with `e`: the error names a rule the table really violates. */
  ghost predicate InboundFault(t: FieldTable, limits: MetadataLimits, e: BusError) {
    match e
    case MetadataLimitExceeded(HeaderCount, actual, max) => actual == |t| > max == limits.maxHeaders
    case MetadataLimitExceeded(KeyBytes, actual, max) =>
      actual > max == limits.maxKeyBytes && |t| <= limits.maxHeaders && exists k :: k in t && |k| == actual
    case MetadataLimitExceeded(ValueBytes, actual, max) =>
      actual > max == limits.maxValueBytes && exists k :: k in t && actual <= Weight(t[k])
    case MetadataLimitExceeded(TotalBytes, actual, max) =>
      max == limits.maxTotalBytes < actual <= TableWeight(t)
    case InvalidMetadata(NonCanonicalReservedHeader) =>
      InboundFits(t, limits) && exists k :: k in t && IsReserved(k) && HasUppercase(k)
    case InvalidMetadata(NonUtf8LongString) =>
      InboundFits(t, limits) && exists k :: k in t && t[k].LongString? && !ValidUtf8(t[k].bytes)
    case _ => false
  }

  /**
   Measure and decode an inbound table, visiting its entries in any order. Acceptance is
   exact, the two maps are exactly the string entries, and a refusal names a real violation.
   */
  method DecodeHeaders(t: FieldTable, limits: MetadataLimits) returns (r: Result<(Headers, Headers), BusError>)
    requires UsizeLimits(limits)
    ensures r.Ok? <==> InboundFits(t, limits) && forall k :: k in t ==> Readable(k, t[k])
    ensures r.Ok? ==> r.value == (StringHeaders(t, false), StringHeaders(t, true))
    ensures r.Err? ==> InboundFault(t, limits, r.error)
  {
    if |t| > limits.maxHeaders {
      return Err(MetadataLimitExceeded(HeaderCount, |t|, limits.maxHeaders));
    }
    var todo := t.Keys;
    while todo != {}
      invariant todo <= t.Keys && forall k :: k in t && k !in todo ==> |k| <= limits.maxKeyBytes
    {
      var key :| key in todo;
      if |key| > limits.maxKeyBytes {
        return Err(MetadataLimitExceeded(KeyBytes, |key|, limits.maxKeyBytes));
      }
      todo := todo - {key};
    }
    var weighed := WeighEntries(t, limits);
    if weighed.Err? {
      return Err(weighed.error);
    }
    r := CopyStrings(t, limits);
  }

  method WeighEntries(t: FieldTable, limits: MetadataLimits) returns (r: Result<nat, BusError>)
    requires UsizeLimits(limits)
    ensures r.Ok? <==> (forall k :: k in t ==> Saturate(Weight(t[k])) <= limits.maxValueBytes)
                       && Saturate(TableWeight(t)) <= limits.maxTotalBytes
    ensures r.Err? ==> r.error.MetadataLimitExceeded? && (r.error.limit.ValueBytes? || r.error.limit.TotalBytes?)
                       && InboundFault(t, limits, r.error)
  {
    var todo := t.Keys;
    var total: nat := 0;
    ghost var exact: nat := 0;
    while todo != {}
      invariant todo <= t.Keys
      invariant forall k :: k in t && k !in todo ==> Saturate(Weight(t[k])) <= limits.maxValueBytes
      invariant total == Saturate(exact) <= limits.maxTotalBytes
      invariant exact + EntriesWeight(Table(t), todo) == TableWeight(t)
    {
      var key :| key in todo;
      EntriesWeightRemove(Table(t), todo, key);
      var valueBytes := MeasureValue(t[key], limits.maxValueBytes);
      if valueBytes.Err? {
        return Err(valueBytes.error);
      }
      total := Saturate(Saturate(total + |key|) + valueBytes.value);
      exact := exact + |key| + Weight(t[key]);
      if total > limits.maxTotalBytes {
        return Err(MetadataLimitExceeded(TotalBytes, total, limits.maxTotalBytes));
      }
      todo := todo - {key};
    }
    return Ok(total);
  }

  lemma CopiedWith(t: FieldTable, done: set<Text>, key: Text)
    requires done <= t.Keys && key in t && key !in done
    ensures StringHeadersAmong(t, IsReserved(key), done + {key})
         == (if t[key].LongString? then StringHeadersAmong(t, IsReserved(key), done)[key := t[key].bytes]
             else StringHeadersAmong(t, IsReserved(key), done))
    ensures StringHeadersAmong(t, !IsReserved(key), done + {key}) == StringHeadersAmong(t, !IsReserved(key), done)
  {
  }

  method CopyStrings(t: FieldTable, limits: MetadataLimits) returns (r: Result<(Headers, Headers), BusError>)
    requires InboundFits(t, limits)
    ensures r.Ok? <==> forall k :: k in t ==> Readable(k, t[k])
    ensures r.Ok? ==> r.value == (StringHeaders(t, false), StringHeaders(t, true))
    ensures r.Err? ==> InboundFault(t, limits, r.error)
  {
    var application: Headers, protocol: Headers := map[], map[];
    var todo := t.Keys;
    while todo != {}
      invariant todo <= t.Keys && forall k :: k in t && k !in todo ==> Readable(k, t[k])
      invariant application == StringHeadersAmong(t, false, t.Keys - todo)
      invariant protocol == StringHeadersAmong(t, true, t.Keys - todo)
    {
      var key :| key in todo;
      var reserved := IsReserved(key);
      if reserved && HasUppercase(key) {
        return Err(InvalidMetadata(NonCanonicalReservedHeader));
      }
      CopiedWith(t, t.Keys - todo, key);
      assert t.Keys - (todo - {key}) == (t.Keys - todo) + {key};
      if t[key].LongString? {
        var text := t[key].bytes;
        if !ValidUtf8(text) {
          return Err(InvalidMetadata(NonUtf8LongString));
        }
        if reserved {
          protocol := protocol[key := text];
        } else {
          application := application[key := text];
        }
      }
      todo := todo - {key};
    }
    assert t.Keys - todo == t.Keys;
    return Ok((application, protocol));
  }
}
