/**
 The byte representation an envelope signature is computed over
 (`hexeract-bus/src/envelope_security/canonical.rs`): the same whatever the iteration
 order, unambiguous, and unchanged by the trip through AMQP.
 */
module Canonical {
  import opened Bytes
  import opened Envelopes
  import opened Metadata
  import opened Wire

  /** The security facts a signature binds an envelope to. */
  datatype Binding = Binding(destination: Text, issuer: Text, audience: Text, keyId: Text, algorithm: Text)

  const CANONICAL_DOMAIN := Ascii("hexeract-envelope-v1")

  // ---- Byte order on headers ----

  /** Lexicographic order on bytes. */
  predicate Leq(a: ByteString, b: ByteString) {
    a == [] || (b != [] && (a[0] < b[0] || (a[0] == b[0] && Leq(a[1..], b[1..]))))
  }

  lemma {:induction false} LeqTotal(a: ByteString, b: ByteString)
    ensures Leq(a, b) || Leq(b, a)
    ensures Leq(a, b) && Leq(b, a) ==> a == b
  {
    if a != [] && b != [] {
      LeqTotal(a[1..], b[1..]);
      if a[0] == b[0] && a[1..] == b[1..] {
        assert a == [a[0]] + a[1..] == b;
      }
    }
  }

  lemma {:induction false} LeqTransitive(a: ByteString, b: ByteString, c: ByteString)
    requires Leq(a, b) && Leq(b, c)
    ensures Leq(a, c)
  {
    if a != [] && a[0] == b[0] == c[0] {
      LeqTransitive(a[1..], b[1..], c[1..]);
    }
  }

  /** Key first, then value: a total order even when both maps hold the same key. */
  predicate PairLeq(x: (Text, Text), y: (Text, Text)) {
    if x.0 == y.0 then Leq(x.1, y.1) else Leq(x.0, y.0)
  }

  lemma PairOrder(x: (Text, Text), y: (Text, Text))
    ensures PairLeq(x, y) || PairLeq(y, x)
    ensures PairLeq(x, y) && PairLeq(y, x) ==> x == y
  {
    LeqTotal(x.0, y.0);
    LeqTotal(x.1, y.1);
  }

  lemma PairTransitive(x: (Text, Text), y: (Text, Text), z: (Text, Text))
    requires PairLeq(x, y) && PairLeq(y, z)
    ensures PairLeq(x, z)
  {
    LeqTotal(x.0, y.0);
    if x.0 == y.0 == z.0 {
      LeqTransitive(x.1, y.1, z.1);
    } else {
      LeqTotal(x.0, x.0);
      if x.0 != y.0 && y.0 != z.0 {
        LeqTransitive(x.0, y.0, z.0);
      }
    }
  }

  predicate Sorted(s: Stream) {
    forall i, j :: 0 <= i < j < |s| ==> PairLeq(s[i], s[j])
  }

  function Insert(x: (Text, Text), s: Stream): Stream {
    if s == [] || PairLeq(x, s[0]) then [x] + s else [s[0]] + Insert(x, s[1..])
  }

  /** The sorted arrangement; by `SortedUnique` any correct sort computes the same one. */
  function Sort(s: Stream): Stream {
    if s == [] then [] else Insert(s[0], Sort(s[1..]))
  }

  lemma {:induction false} InsertSorts(x: (Text, Text), s: Stream)
    requires Sorted(s)
    ensures Sorted(Insert(x, s)) && multiset(Insert(x, s)) == multiset(s) + multiset{x}
  {
    if s == [] {
    } else if PairLeq(x, s[0]) {
      forall j | 0 <= j < |s| ensures PairLeq(x, s[j]) {
        if j > 0 { PairTransitive(x, s[0], s[j]); }
      }
    } else {
      InsertSorts(x, s[1..]);
      assert s == [s[0]] + s[1..];
      var rest := Insert(x, s[1..]);
      forall y | y in rest ensures PairLeq(s[0], y) {
        assert y in multiset(rest);
        if y != x {
          assert y in s[1..];
        }
        PairOrder(x, s[0]);
      }
    }
  }

  lemma {:induction false} SortSorts(s: Stream)
    ensures Sorted(Sort(s)) && multiset(Sort(s)) == multiset(s)
  {
    if s != [] {
      SortSorts(s[1..]);
      InsertSorts(s[0], Sort(s[1..]));
      assert s == [s[0]] + s[1..];
    }
  }

  lemma SameFirst(s: Stream, t: Stream)
    requires Sorted(s) && Sorted(t) && multiset(s) == multiset(t) && s != [] && t != []
    ensures s[0] == t[0]
  {
    assert s[0] in multiset(t) && t[0] in multiset(s);
    var i :| 0 <= i < |t| && t[i] == s[0];
    var j :| 0 <= j < |s| && s[j] == t[0];
    PairOrder(s[0], t[0]);
  }

  /** Two sorted arrangements of the same entries are the same sequence. */
  lemma {:induction false} SortedUnique(s: Stream, t: Stream)
    requires Sorted(s) && Sorted(t) && multiset(s) == multiset(t)
    ensures s == t
    decreases |s|
  {
    assert |s| == |multiset(s)| == |multiset(t)| == |t|;
    if s != [] {
      SameFirst(s, t);
      assert s == [s[0]] + s[1..] && t == [t[0]] + t[1..];
      assert multiset(s[1..]) == multiset(s) - multiset{s[0]};
      assert multiset(t[1..]) == multiset(t) - multiset{t[0]};
      SortedUnique(s[1..], t[1..]);
    }
  }

  // ---- The signed header entries ----

  function Signed(s: Stream): Stream {
    if s == [] then []
    else
      var rest := Signed(s[..|s| - 1]);
      if s[|s| - 1].0 in SECURITY_HEADERS then rest else rest + [s[|s| - 1]]
  }

  /** The entries of one map a signature covers. */
  function SignedEntries(h: Headers): set<(Text, Text)> {
    set k | k in h && k !in SECURITY_HEADERS :: (k, h[k])
  }

  lemma {:induction false} SignedAppend(s: Stream, t: Stream)
    ensures Signed(s + t) == Signed(s) + Signed(t)
  {
    if t == [] {
      assert s + t == s;
    } else {
      assert (s + t)[..|s + t| - 1] == s + t[..|t| - 1];
      SignedAppend(s, t[..|t| - 1]);
    }
  }

  lemma {:induction false} EnumerationSigned(s: Stream, h: Headers)
    requires Enumerates(s, h)
    ensures multiset(Signed(s)) == multiset(SignedEntries(h))
    decreases |s|
  {
    if s == [] {
      assert h.Keys == {};
      assert SignedEntries(h) == {};
    } else {
      var last := s[|s| - 1];
      EnumerationInit(s, h);
      EnumerationSigned(s[..|s| - 1], h - {last.0});
      SignedEntriesPutBack(h, last.0);
    }
  }

  lemma SignedEntriesPutBack(h: Headers, k: Text)
    requires k in h
    ensures (k, h[k]) !in SignedEntries(h - {k})
    ensures SignedEntries(h) == SignedEntries(h - {k}) + (if k in SECURITY_HEADERS then {} else {(k, h[k])})
  {
  }

  /** The header entries of both maps in the order they are signed. */
  function SignedOrder(app: Stream, protocol: Stream): Stream {
    Sort(Signed(app + protocol))
  }

  /** The signed order is a function of the covered entries of the two maps. */
  lemma SignedOrderOfMaps(app: Stream, protocol: Stream, h: Headers, g: Headers)
    requires Enumerates(app, h) && Enumerates(protocol, g)
    ensures Sorted(SignedOrder(app, protocol))
    ensures multiset(SignedOrder(app, protocol)) == multiset(SignedEntries(h)) + multiset(SignedEntries(g))
  {
    SortSorts(Signed(app + protocol));
    SignedAppend(app, protocol);
    EnumerationSigned(app, h);
    EnumerationSigned(protocol, g);
  }

  // ---- Framing ----

  function Frame(field: ByteString): ByteString {
    BigEndian(|field|, 4) + field
  }

  function Frames(fields: seq<ByteString>): ByteString {
    if fields == [] then [] else Frame(fields[0]) + Frames(fields[1..])
  }

  predicate Framable(fields: seq<ByteString>) {
    forall i :: 0 <= i < |fields| ==> |fields[i]| <= U32_MAX
  }

  /** A framed field tells where it ends, whatever follows it. */
  lemma FrameSplits(a: ByteString, x: ByteString, b: ByteString, y: ByteString)
    requires |a| <= U32_MAX && |b| <= U32_MAX && Frame(a) + x == Frame(b) + y
    ensures a == b && x == y
  {
    var s, t := Frame(a) + x, Frame(b) + y;
    assert s[..4] == BigEndian(|a|, 4) && t[..4] == BigEndian(|b|, 4);
    assert Pow256(4) == U32_MAX + 1;
    BigEndianInjective(|a|, |b|, 4);
    assert s[4..4 + |a|] == a && t[4..4 + |b|] == b;
    assert s[4 + |a|..] == x && t[4 + |b|..] == y;
  }

  lemma FirstFrame(fields: seq<ByteString>, rest: ByteString)
    requires fields != []
    ensures Frames(fields) + rest == Frame(fields[0]) + (Frames(fields[1..]) + rest)
  {
  }

  lemma {:induction false} FramesSplit(a: seq<ByteString>, x: ByteString, b: seq<ByteString>, y: ByteString)
    requires |a| == |b| && Framable(a) && Framable(b) && Frames(a) + x == Frames(b) + y
    ensures a == b && x == y
  {
    if a == [] {
      assert Frames(a) + x == x && Frames(b) + y == y;
    } else {
      FirstFrame(a, x);
      FirstFrame(b, y);
      FrameSplits(a[0], Frames(a[1..]) + x, b[0], Frames(b[1..]) + y);
      FramesSplit(a[1..], x, b[1..], y);
      assert a == [a[0]] + a[1..] && b == [b[0]] + b[1..];
    }
  }

  function OptionalFrame(field: Option<ByteString>): ByteString {
    if field.Some? then [1 as Byte] + Frame(field.value) else [0 as Byte]
  }

  lemma OptionalSplits(a: Option<ByteString>, x: ByteString, b: Option<ByteString>, y: ByteString)
    requires (a.Some? ==> |a.value| <= U32_MAX) && (b.Some? ==> |b.value| <= U32_MAX)
    requires OptionalFrame(a) + x == OptionalFrame(b) + y
    ensures a == b && x == y
  {
    OptionalTag(a, x);
    OptionalTag(b, y);
    if a.Some? && b.Some? {
      FrameSplits(a.value, x, b.value, y);
    }
  }

  lemma OptionalTag(a: Option<ByteString>, x: ByteString)
    ensures (OptionalFrame(a) + x)[0] == (if a.Some? then 1 else 0)
    ensures (OptionalFrame(a) + x)[1..] == (if a.Some? then Frame(a.value) + x else x)
  {
    if a.Some? {
      assert OptionalFrame(a) + x == [1 as Byte] + (Frame(a.value) + x);
    }
  }

  // ---- canonical_representation ----

  /** Everything the representation is built from. */
  datatype Parts = Parts(messageId: Uuid, messageType: Text, correlationId: Uuid, replyTo: Option<Text>, seconds: nat,
                         binding: Binding, pairs: Stream, digest: ByteString)

  function PartsOf(e: Envelope, binding: Binding, app: Stream, protocol: Stream, digest: ByteString): Parts {
    Parts(e.messageId, e.messageType, e.correlationId, e.replyTo, EpochSeconds(e.publishedAt), binding,
          SignedOrder(app, protocol), digest)
  }

  function Opening(p: Parts): seq<ByteString> {
    [CANONICAL_DOMAIN, p.messageId, p.messageType, p.correlationId]
  }

  function Middle(p: Parts): seq<ByteString> {
    [BigEndian(p.seconds, 8), p.binding.destination, p.binding.issuer, p.binding.audience, p.binding.keyId,
        p.binding.algorithm]
  }

  function Flattened(pairs: Stream): seq<ByteString> {
    if pairs == [] then [] else [pairs[0].0, pairs[0].1] + Flattened(pairs[1..])
  }

  /** No covered field is longer than the framing can encode. */
  predicate Encodable(p: Parts) {
    && Framable(Opening(p)) && Framable(Middle(p)) && Framable(Flattened(p.pairs)) && |p.digest| <= U32_MAX
    && (p.replyTo.Some? ==> |p.replyTo.value| <= U32_MAX) && |p.pairs| <= U32_MAX
  }

  function Assemble(p: Parts): ByteString {
    Frames(Opening(p)) + (OptionalFrame(p.replyTo) + (Frames(Middle(p))
      + (BigEndian(|p.pairs|, 4) + (Frames(Flattened(p.pairs)) + Frame(p.digest)))))
  }

  /** `seconds` is a `u64` in the code; the digest is SHA-256 of the payload. */
  function Representation(e: Envelope, binding: Binding, app: Stream, protocol: Stream,
                          digest: ByteString): Result<ByteString, SecurityFault> {
    if e.publishedAt < 0 then Err(MissingRequiredField(PublishedAtField))
    else
      var p := PartsOf(e, binding, app, protocol, digest);
      if Encodable(p) then Ok(Assemble(p)) else Err(FieldTooLarge)
  }

  lemma {:induction false} FramesAppend(fields: seq<ByteString>, last: ByteString)
    ensures Frames(fields + [last]) == Frames(fields) + Frame(last)
  {
    if fields == [] {
      assert fields + [last] == [last] && [last][1..] == [];
    } else {
      assert (fields + [last])[1..] == fields[1..] + [last];
      FramesAppend(fields[1..], last);
    }
  }

  /** `push_field`, once per field. */
  method PushFields(bytes: ByteString, fields: seq<ByteString>) returns (r: Result<ByteString, SecurityFault>)
    ensures r == if Framable(fields) then Ok(bytes + Frames(fields)) else Err(FieldTooLarge)
  {
    var out := bytes;
    for i := 0 to |fields|
      invariant out == bytes + Frames(fields[..i]) && Framable(fields[..i])
    {
      if |fields[i]| > U32_MAX {
        return Err(FieldTooLarge);
      }
      out := out + BigEndian(|fields[i]|, 4);
      out := out + fields[i];
      assert fields[..i + 1] == fields[..i] + [fields[i]];
      FramesAppend(fields[..i], fields[i]);
    }
    assert fields[..|fields|] == fields;
    return Ok(out);
  }

  /** A presence byte, then the field when there is one. */
  method PushOptionalField(bytes: ByteString, field: Option<Text>) returns (r: Result<ByteString, SecurityFault>)
    ensures r == if field.Some? && |field.value| > U32_MAX then Err(FieldTooLarge) else Ok(bytes + OptionalFrame(field))
  {
    if field.None? {
      return Ok(bytes + [0]);
    }
    r := PushFields(bytes + [1], [field.value]);
    SingleFrame(field.value);
    assert bytes + [1] + Frame(field.value) == bytes + OptionalFrame(field);
  }

  /** The representation, pushed field by field. */
  method CanonicalRepresentation(e: Envelope, binding: Binding, app: Stream, protocol: Stream, digest: ByteString)
    returns (r: Result<ByteString, SecurityFault>)
    ensures r == Representation(e, binding, app, protocol, digest)
  {
    if e.publishedAt < 0 {
      return Err(MissingRequiredField(PublishedAtField));
    }
    var p := PartsOf(e, binding, app, protocol, digest);
    r := PushFields([], Opening(p));
    if r.Err? { return; }
    assert r.value == Frames(Opening(p));
    r := PushOptionalField(r.value, e.replyTo);
    if r.Err? { return; }
    r := PushFields(r.value, Middle(p));
    if r.Err? { return; }
    if |p.pairs| > U32_MAX {
      return Err(FieldTooLarge);
    }
    r := PushFields(r.value + BigEndian(|p.pairs|, 4), Flattened(p.pairs));
    if r.Err? { return; }
    ghost var signed := r.value;
    r := PushFields(r.value, [digest]);
    SingleFrame(digest);
    assert signed == Frames(Opening(p)) + OptionalFrame(e.replyTo) + Frames(Middle(p))
                     + BigEndian(|p.pairs|, 4) + Frames(Flattened(p.pairs));
    Regroup(Frames(Opening(p)), OptionalFrame(e.replyTo), Frames(Middle(p)), BigEndian(|p.pairs|, 4),
            Frames(Flattened(p.pairs)), Frame(digest));
  }

  lemma SingleFrame(field: ByteString)
    ensures Frames([field]) == Frame(field)
    ensures Framable([field]) <==> |field| <= U32_MAX
  {
    assert [field][1..] == [];
    assert Framable([field]) ==> |[field][0]| <= U32_MAX;
  }

  lemma Regroup(a: ByteString, b: ByteString, c: ByteString, d: ByteString, e: ByteString, f: ByteString)
    ensures a + b + c + d + e + f == a + (b + (c + (d + (e + f))))
  {
  }

  lemma {:induction false} FlattenedInjective(s: Stream, t: Stream)
    requires Flattened(s) == Flattened(t)
    ensures s == t
  {
    FlattenedLength(s);
    FlattenedLength(t);
    if s != [] {
      assert Flattened(s)[0] == Flattened(t)[0] && Flattened(s)[1] == Flattened(t)[1];
      assert Flattened(s)[2..] == Flattened(s[1..]) && Flattened(t)[2..] == Flattened(t[1..]);
      FlattenedInjective(s[1..], t[1..]);
      assert s == [s[0]] + s[1..] && t == [t[0]] + t[1..];
    }
  }

  lemma {:induction false} FlattenedLength(s: Stream)
    ensures |Flattened(s)| == 2 * |s|
  {
    if s != [] {
      FlattenedLength(s[1..]);
    }
  }

  /** Unambiguous framing: equal bytes come from equal parts. */
  lemma AssembleInjective(p: Parts, q: Parts)
    requires Encodable(p) && Encodable(q) && p.seconds < Pow256(8) && q.seconds < Pow256(8)
    requires Assemble(p) == Assemble(q)
    ensures p == q
  {
    var tailP := BigEndian(|p.pairs|, 4) + (Frames(Flattened(p.pairs)) + Frame(p.digest));
    var tailQ := BigEndian(|q.pairs|, 4) + (Frames(Flattened(q.pairs)) + Frame(q.digest));
    FramesSplit(Opening(p), OptionalFrame(p.replyTo) + (Frames(Middle(p)) + tailP), Opening(q),
                OptionalFrame(q.replyTo) + (Frames(Middle(q)) + tailQ));
    OptionalSplits(p.replyTo, Frames(Middle(p)) + tailP, q.replyTo, Frames(Middle(q)) + tailQ);
    FramesSplit(Middle(p), tailP, Middle(q), tailQ);
    TailInjective(p, q);
    OpeningInjective(p, q);
    MiddleInjective(p, q);
  }

  lemma OpeningInjective(p: Parts, q: Parts)
    requires Opening(p) == Opening(q)
    ensures p.messageId == q.messageId && p.messageType == q.messageType && p.correlationId == q.correlationId
  {
    assert Opening(p)[1] == Opening(q)[1] && Opening(p)[2] == Opening(q)[2] && Opening(p)[3] == Opening(q)[3];
  }

  lemma MiddleInjective(p: Parts, q: Parts)
    requires Middle(p) == Middle(q) && p.seconds < Pow256(8) && q.seconds < Pow256(8)
    ensures p.seconds == q.seconds && p.binding == q.binding
  {
    assert forall i :: 0 <= i < 6 ==> Middle(p)[i] == Middle(q)[i];
    assert Middle(p)[0] == BigEndian(p.seconds, 8) && Middle(q)[0] == BigEndian(q.seconds, 8);
    BigEndianInjective(p.seconds, q.seconds, 8);
    assert Middle(p)[1] == Middle(q)[1] && Middle(p)[2] == Middle(q)[2] && Middle(p)[3] == Middle(q)[3]
        && Middle(p)[4] == Middle(q)[4] && Middle(p)[5] == Middle(q)[5];
  }

  lemma TailInjective(p: Parts, q: Parts)
    requires Encodable(p) && Encodable(q)
    requires BigEndian(|p.pairs|, 4) + (Frames(Flattened(p.pairs)) + Frame(p.digest))
          == BigEndian(|q.pairs|, 4) + (Frames(Flattened(q.pairs)) + Frame(q.digest))
    ensures p.pairs == q.pairs && p.digest == q.digest
  {
    var x, y := Frames(Flattened(p.pairs)) + Frame(p.digest), Frames(Flattened(q.pairs)) + Frame(q.digest);
    var s, t := BigEndian(|p.pairs|, 4) + x, BigEndian(|q.pairs|, 4) + y;
    assert s[..4] == BigEndian(|p.pairs|, 4) && t[..4] == BigEndian(|q.pairs|, 4) && s[4..] == x && t[4..] == y;
    assert Pow256(4) == U32_MAX + 1;
    BigEndianInjective(|p.pairs|, |q.pairs|, 4);
    FlattenedLength(p.pairs);
    FlattenedLength(q.pairs);
    FramesSplit(Flattened(p.pairs), Frame(p.digest), Flattened(q.pairs), Frame(q.digest));
    FlattenedInjective(p.pairs, q.pairs);
    assert Frame(p.digest) + [] == Frame(q.digest) + [];
    FrameSplits(p.digest, [], q.digest, []);
  }

  // ---- What the signature relies on ----

  /** Determinism: no iteration order of either header map changes the bytes. */
  lemma RepresentationDeterministic(e: Envelope, binding: Binding, digest: ByteString,
                                    app: Stream, protocol: Stream, app': Stream, protocol': Stream)
    requires Enumerates(app, e.headers) && Enumerates(protocol, e.protocolHeaders)
    requires Enumerates(app', e.headers) && Enumerates(protocol', e.protocolHeaders)
    ensures Representation(e, binding, app, protocol, digest) == Representation(e, binding, app', protocol', digest)
  {
    SignedOrderOfMaps(app, protocol, e.headers, e.protocolHeaders);
    SignedOrderOfMaps(app', protocol', e.headers, e.protocolHeaders);
    SortedUnique(SignedOrder(app, protocol), SignedOrder(app', protocol'));
  }

  /**
   Two envelopes with the same representation agree on every covered field, on the binding and on the
   covered headers.
   */
  lemma RepresentationInjective(e: Envelope, binding: Binding, app: Stream, protocol: Stream, digest: ByteString,
                                e': Envelope, binding': Binding, app': Stream, protocol': Stream, digest': ByteString)
    requires Enumerates(app, e.headers) && Enumerates(protocol, e.protocolHeaders)
    requires Enumerates(app', e'.headers) && Enumerates(protocol', e'.protocolHeaders)
    requires EpochSeconds(e.publishedAt) < Pow256(8) && EpochSeconds(e'.publishedAt) < Pow256(8)
    requires Representation(e, binding, app, protocol, digest).Ok?
    requires Representation(e, binding, app, protocol, digest) == Representation(e', binding', app', protocol', digest')
    ensures e.messageId == e'.messageId && e.messageType == e'.messageType && e.correlationId == e'.correlationId
            && e.replyTo == e'.replyTo
    ensures EpochSeconds(e.publishedAt) == EpochSeconds(e'.publishedAt) && binding == binding' && digest == digest'
    ensures multiset(SignedEntries(e.headers)) + multiset(SignedEntries(e.protocolHeaders))
         == multiset(SignedEntries(e'.headers)) + multiset(SignedEntries(e'.protocolHeaders))
  {
    AssembleInjective(PartsOf(e, binding, app, protocol, digest), PartsOf(e', binding', app', protocol', digest'));
    SignedOrderOfMaps(app, protocol, e.headers, e.protocolHeaders);
    SignedOrderOfMaps(app', protocol', e'.headers, e'.protocolHeaders);
  }

  lemma SecurityHeadersUnsigned(h: Headers, security: Headers)
    requires security.Keys <= SECURITY_HEADERS
    ensures SignedEntries(h + security) == SignedEntries(h)
  {
  }

  lemma WholeSeconds(t: int)
    requires t >= 0
    ensures EpochSeconds(EpochSeconds(t) * NANOS_PER_SECOND) == EpochSeconds(t)
  {
  }

  /**
   What the signer signed is what the verifier recomputes: publishing an envelope with its
   security headers and decoding it back leaves the representation unchanged.
   */
  lemma RepresentationSurvivesTheWire(e: Envelope, security: Headers, binding: Binding, digest: ByteString,
                                      app: Stream, protocol: Stream, app': Stream, protocol': Stream)
    requires security.Keys <= SECURITY_HEADERS && e.publishedAt >= 0
    requires Enumerates(app, e.headers) && Enumerates(protocol, e.protocolHeaders)
    requires Enumerates(app', OnTheWire(e, security).headers)
            && Enumerates(protocol', OnTheWire(e, security).protocolHeaders)
    ensures Representation(OnTheWire(e, security), binding, app', protocol', digest)
            == Representation(e, binding, app, protocol, digest)
  {
    SignedOrderOfMaps(app, protocol, e.headers, e.protocolHeaders);
    SignedOrderOfMaps(app', protocol', e.headers, e.protocolHeaders + security);
    SecurityHeadersUnsigned(e.protocolHeaders, security);
    SortedUnique(SignedOrder(app, protocol), SignedOrder(app', protocol'));
    WholeSeconds(e.publishedAt);
    assert PartsOf(OnTheWire(e, security), binding, app', protocol', digest)
        == PartsOf(e, binding, app, protocol, digest);
  }

  /**
   End to end: the bytes a consumer verifies, having decoded a signed publish under any policy, are
   the bytes that were signed.
   */
  lemma SignedBytesReachTheVerifier(f: UuidFormat, pl: Platform, e: Envelope, limits: Amqp.MetadataLimits,
                                    security: Headers, userId: Option<Text>,
                                    required: RequiredFields, minted: Minted, maxPayload: nat,
                                    received: Result<Envelope, BusError>, binding: Binding, digest: ByteString,
                                    app: Stream, protocol: Stream, app': Stream, protocol': Stream)
    requires f.Lawful() && pl.HasEpoch() && pl.Represents(e.publishedAt) && e.publishedAt >= 0
    requires WellTyped(e, security) && CanonicalProtocol(e.protocolHeaders)
    requires CanPublish(e, limits, security, userId) && |e.payload| <= maxPayload
    requires DecodesTo(f, pl, PropertiesOf(f, e, security, userId), e.payload, maxPayload, limits, required, minted,
                       received)
    requires Enumerates(app, e.headers) && Enumerates(protocol, e.protocolHeaders)
    requires received.Ok? ==> Enumerates(app', received.value.headers)
    requires received.Ok? ==> Enumerates(protocol', received.value.protocolHeaders)
    ensures received.Ok?
    ensures Representation(received.value, binding, app', protocol', digest)
            == Representation(e, binding, app, protocol, digest)
  {
    RoundTrip(f, pl, e, limits, security, userId, required, minted, maxPayload, received);
    RepresentationSurvivesTheWire(e, security, binding, digest, app, protocol, app', protocol');
  }
}
