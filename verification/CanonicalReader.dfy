/**
 A reader of the signed bytes (`hexeract-bus/src/envelope_security/canonical.rs`): field after
 field in the order the format lays them down, knowing nothing of how they were written.
 */
module CanonicalReader {
  import opened Bytes
  import opened Envelopes
  import opened Metadata
  import opened Wire
  import opened Canonical

  /** The number big-endian bytes stand for. */
  function Value(b: ByteString): nat {
    if b == [] then 0 else 256 * Value(b[..|b| - 1]) + b[|b| - 1] as int
  }

  lemma {:induction false} ValueReadsBack(n: nat, width: nat)
    requires n < Pow256(width)
    ensures Value(BigEndian(n, width)) == n
  {
    if width > 0 {
      var b := BigEndian(n, width);
      assert b[..width - 1] == BigEndian(n / 256, width - 1);
      ValueReadsBack(n / 256, width - 1);
    }
  }

  /** One length-prefixed field and what follows it. */
  function ReadField(b: ByteString): Option<(ByteString, ByteString)> {
    if |b| < 4 then None
    else
      var n := Value(b[..4]);
      if |b| < 4 + n then None else Some((b[4..4 + n], b[4 + n..]))
  }

  /** The next `n` fields. */
  function ReadFields(b: ByteString, n: nat): (r: Option<(seq<ByteString>, ByteString)>)
    ensures r.Some? ==> |r.value.0| == n
  {
    if n == 0 then Some(([], b))
    else
      match ReadField(b)
      case None => None
      case Some((field, rest)) =>
        match ReadFields(rest, n - 1)
        case None => None
        case Some((fields, tail)) => Some(([field] + fields, tail))
  }

  /** A presence byte, then the field when there is one. */
  function ReadOptional(b: ByteString): Option<(Option<ByteString>, ByteString)> {
    if b == [] then None
    else if b[0] == 0 then Some((None, b[1..]))
    else
      match ReadField(b[1..])
      case None => None
      case Some((field, rest)) => Some((Some(field), rest))
  }

  /** Fields two by two: a key and its value. */
  function Paired(fields: seq<ByteString>): Stream {
    if |fields| < 2 then [] else [(fields[0], fields[1])] + Paired(fields[2..])
  }

  /** The count, that many pairs, the digest, and nothing more. */
  function ReadTail(b: ByteString): Option<(Stream, ByteString)> {
    if |b| < 4 then None
    else
      match ReadFields(b[4..], 2 * Value(b[..4]))
      case None => None
      case Some((pairs, rest)) =>
        match ReadField(rest)
        case None => None
        case Some((digest, excess)) => if excess == [] then Some((Paired(pairs), digest)) else None
  }

  function Read(b: ByteString): Option<Parts> {
    match ReadFields(b, 4)
    case None => None
    case Some((opening, afterOpening)) =>
      match ReadOptional(afterOpening)
      case None => None
      case Some((replyTo, afterReplyTo)) =>
        match ReadFields(afterReplyTo, 6)
        case None => None
        case Some((middle, afterMiddle)) =>
          match ReadTail(afterMiddle)
          case None => None
          case Some((pairs, digest)) =>
            if opening[0] != CANONICAL_DOMAIN || |opening[1]| != 16 || |opening[3]| != 16 then None
            else
              var binding := Binding(destination := middle[1], issuer := middle[2], audience := middle[3],
                                     keyId := middle[4], algorithm := middle[5]);
              Some(Parts(messageId := opening[1], messageType := opening[2], correlationId := opening[3],
                         replyTo := replyTo, seconds := Value(middle[0]), binding := binding, pairs := pairs,
                         digest := digest))
  }

  // ---- Reading undoes writing ----

  lemma FieldReadsBack(field: ByteString, rest: ByteString)
    requires |field| <= U32_MAX
    ensures ReadField(Frame(field) + rest) == Some((field, rest))
  {
    var b := Frame(field) + rest;
    assert Pow256(4) == U32_MAX + 1;
    assert b[..4] == BigEndian(|field|, 4);
    ValueReadsBack(|field|, 4);
    assert b[4..4 + |field|] == field && b[4 + |field|..] == rest;
  }

  lemma {:induction false} FieldsReadBack(fields: seq<ByteString>, rest: ByteString)
    requires Framable(fields)
    ensures ReadFields(Frames(fields) + rest, |fields|) == Some((fields, rest))
  {
    if fields == [] {
      assert Frames(fields) + rest == rest;
    } else {
      var tail := Frames(fields[1..]) + rest;
      assert Frames(fields) + rest == Frame(fields[0]) + tail;
      FieldReadsBack(fields[0], tail);
      FieldsReadBack(fields[1..], rest);
      assert [fields[0]] + fields[1..] == fields;
    }
  }

  lemma OptionalReadsBack(field: Option<ByteString>, rest: ByteString)
    requires field.Some? ==> |field.value| <= U32_MAX
    ensures ReadOptional(OptionalFrame(field) + rest) == Some((field, rest))
  {
    OptionalTag(field, rest);
    if field.Some? {
      FieldReadsBack(field.value, rest);
    }
  }

  lemma {:induction false} PairsReadBack(pairs: Stream)
    ensures Paired(Flattened(pairs)) == pairs
  {
    if pairs != [] {
      assert Flattened(pairs)[2..] == Flattened(pairs[1..]);
      PairsReadBack(pairs[1..]);
    }
  }

  lemma CountReadsBack(n: nat, rest: ByteString)
    requires n <= U32_MAX
    ensures var b := BigEndian(n, 4) + rest; Value(b[..4]) == n && b[4..] == rest
  {
    assert Pow256(4) == U32_MAX + 1;
    assert (BigEndian(n, 4) + rest)[..4] == BigEndian(n, 4);
    ValueReadsBack(n, 4);
  }

  lemma TailOf(b: ByteString, n: nat, fields: seq<ByteString>, rest: ByteString, digest: ByteString)
    requires |b| >= 4 && n == 2 * Value(b[..4]) && ReadFields(b[4..], n) == Some((fields, rest))
    requires ReadField(rest) == Some((digest, []))
    ensures ReadTail(b) == Some((Paired(fields), digest))
  {
  }

  lemma DigestReadsBack(digest: ByteString)
    requires |digest| <= U32_MAX
    ensures ReadField(Frame(digest)) == Some((digest, []))
  {
    FieldReadsBack(digest, []);
    assert Frame(digest) + [] == Frame(digest);
  }

  lemma TailReadsBack(b: ByteString, pairs: Stream, digest: ByteString)
    requires |b| >= 4 && Value(b[..4]) == |pairs| && b[4..] == Frames(Flattened(pairs)) + Frame(digest)
    requires Framable(Flattened(pairs)) && |digest| <= U32_MAX
    ensures ReadTail(b) == Some((pairs, digest))
  {
    FlattenedLength(pairs);
    FieldsReadBack(Flattened(pairs), Frame(digest));
    DigestReadsBack(digest);
    TailOf(b, |Flattened(pairs)|, Flattened(pairs), Frame(digest), digest);
    PairsReadBack(pairs);
  }

  lemma PartsReadBack(p: Parts)
    requires Encodable(p) && p.seconds < Pow256(8)
    ensures Read(Assemble(p)) == Some(p)
  {
    var pairs := Frames(Flattened(p.pairs)) + Frame(p.digest);
    var tail := BigEndian(|p.pairs|, 4) + pairs;
    FieldsReadBack(Opening(p), OptionalFrame(p.replyTo) + (Frames(Middle(p)) + tail));
    OptionalReadsBack(p.replyTo, Frames(Middle(p)) + tail);
    FieldsReadBack(Middle(p), tail);
    CountReadsBack(|p.pairs|, pairs);
    TailReadsBack(tail, p.pairs, p.digest);
    ValueReadsBack(p.seconds, 8);
  }

  /**
   Whatever is signed can be read back: every covered field in its place, and the covered
   headers in their one order.
   */
  lemma SignedBytesReadBack(e: Envelope, binding: Binding, app: Stream, protocol: Stream, digest: ByteString)
    requires EpochSeconds(e.publishedAt) < Pow256(8) && Representation(e, binding, app, protocol, digest).Ok?
    ensures e.publishedAt >= 0
    ensures Read(Representation(e, binding, app, protocol, digest).value)
            == Some(Parts(messageId := e.messageId, messageType := e.messageType, correlationId := e.correlationId,
                          replyTo := e.replyTo, seconds := EpochSeconds(e.publishedAt), binding := binding,
                          pairs := SignedOrder(app, protocol), digest := digest))
  {
    PartsReadBack(PartsOf(e, binding, app, protocol, digest));
  }
}
