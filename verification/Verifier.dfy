/**
 What establishes the publisher of an inbound envelope
 (`hexeract-bus/src/envelope_security/verifier.rs`). Keys, signatures and the digest are
 abstract; the order of the checks and the bytes a signature is checked against are not.
 */
module Verifiers {
  import opened Bytes
  import opened Envelopes
  import opened Metadata
  import opened Wire
  import opened Canonical

  type Key = nat

  datatype Verifier = Verifier(
    required: bool,
    audiences: set<Text>,
    // The fault in the value of an identity header, if there is one.
    fault: (Text, Text) -> Option<SecurityFault>,
    decodeSignature: Text -> Option<ByteString>,
    keyOf: (Text, Text) -> Result<Key, SecurityFault>,
    accepts: (Key, ByteString, ByteString) -> bool,
    digest: ByteString -> ByteString)
  {
    /** A signature is good for one byte string only. */
    ghost predicate Binds() {
      forall key, signature, a, b :: accepts(key, a, signature) && accepts(key, b, signature) ==> a == b
    }
  }

  function Required(e: Envelope, header: Text): Result<Text, SecurityFault> {
    match Header(e, header)
    case Some(value) => Ok(value)
    case None => Err(MalformedSecurityHeader(header))
  }

  function Identity(v: Verifier, e: Envelope, header: Text): Result<Text, SecurityFault> {
    match Required(e, header)
    case Err(fault) => Err(fault)
    case Ok(value) => if v.fault(header, value).Some? then Err(v.fault(header, value).value) else Ok(value)
  }

  /** What the security headers claim, once the claimed destination is where the envelope arrived. */
  function Claim(v: Verifier, e: Envelope, destination: Text): Result<Binding, SecurityFault> {
    var announced := Required(e, DESTINATION_HEADER);
    var issuer := Identity(v, e, ISSUER_HEADER);
    var audience := Identity(v, e, AUDIENCE_HEADER);
    var keyId := Identity(v, e, KEY_ID_HEADER);
    var algorithm := Identity(v, e, ALGORITHM_HEADER);
    if announced.Err? then Err(announced.error)
    else if announced.value != destination then Err(DestinationMismatch)
    else if issuer.Err? then Err(issuer.error)
    else if audience.Err? then Err(audience.error)
    else if keyId.Err? then Err(keyId.error)
    else if algorithm.Err? then Err(algorithm.error)
    else Ok(Binding(destination, issuer.value, audience.value, keyId.value, algorithm.value))
  }

  lemma {:induction false} EnumerationExists(h: Headers)
    ensures exists s :: Enumerates(s, h)
    decreases |h|
  {
    if h == map[] {
      assert Enumerates([], h);
    } else {
      var k :| k in h;
      var rest := h - {k};
      RemoveKeySize(h, k);
      EnumerationExists(rest);
      var s :| Enumerates(s, rest);
      EnumerationSnoc(s, h, k);
    }
  }

  lemma EnumerationSnoc(s: Stream, h: Headers, k: Text)
    requires k in h && Enumerates(s, h - {k})
    ensures Enumerates(s + [(k, h[k])], h)
  {
    var longer := s + [(k, h[k])];
    RemoveKeySize(h, k);
    assert longer[|s|] == (k, h[k]);
    forall x | x in h
      ensures (x, h[x]) in longer
    {
      if x != k {
        assert (x, (h - {k})[x]) in s;
      }
    }
  }

  /** The bytes a signature over `e` must match, however its headers are iterated. */
  ghost function BytesToVerify(v: Verifier, e: Envelope, binding: Binding): Result<ByteString, SecurityFault> {
    EnumerationExists(e.headers);
    EnumerationExists(e.protocolHeaders);
    var app :| Enumerates(app, e.headers);
    var protocol :| Enumerates(protocol, e.protocolHeaders);
    Representation(e, binding, app, protocol, v.digest(e.payload))
  }

  lemma BytesOfAnyIteration(v: Verifier, e: Envelope, binding: Binding, app: Stream, protocol: Stream)
    requires Enumerates(app, e.headers) && Enumerates(protocol, e.protocolHeaders)
    ensures BytesToVerify(v, e, binding) == Representation(e, binding, app, protocol, v.digest(e.payload))
  {
    EnumerationExists(e.headers);
    EnumerationExists(e.protocolHeaders);
    var a: Stream, b: Stream :| Enumerates(a, e.headers) && Enumerates(b, e.protocolHeaders)
      && BytesToVerify(v, e, binding) == Representation(e, binding, a, b, v.digest(e.payload));
    RepresentationDeterministic(e, binding, v.digest(e.payload), app, protocol, a, b);
  }

  /** A claim holds when its audience is served here and its key accepts the signature over the claimed bytes. */
  function Judge(v: Verifier, binding: Binding, signature: Text, bytes: Result<ByteString, SecurityFault>)
    : Result<Option<Text>, SecurityFault>
  {
    var decoded := v.decodeSignature(signature);
    var key := v.keyOf(binding.issuer, binding.keyId);
    if binding.audience !in v.audiences then Err(AudienceMismatch)
    else if decoded.None? then Err(MalformedSecurityHeader(SIGNATURE_HEADER))
    else if key.Err? then Err(key.error)
    else if bytes.Err? then Err(bytes.error)
    else if v.accepts(key.value, bytes.value, decoded.value) then Ok(Some(binding.issuer))
    else Err(SignatureMismatch)
  }

  ghost function Verify(v: Verifier, e: Envelope, destination: Text): Result<Option<Text>, SecurityFault> {
    match Header(e, SIGNATURE_HEADER)
    case None => if v.required then Err(MissingSignature) else Ok(None)
    case Some(signature) =>
      match Claim(v, e, destination)
      case Err(fault) => Err(fault)
      case Ok(binding) => Judge(v, binding, signature, BytesToVerify(v, e, binding))
  }

  /** The header is there and the identity it holds is well formed. */
  predicate Names(v: Verifier, e: Envelope, header: Text, value: Text) {
    Header(e, header) == Some(value) && v.fault(header, value).None?
  }

  /**
   The envelope is signed for this destination and for an audience served here, and the key its
   issuer and key identifier name accepts the signature over the envelope's own bytes.
   */
  ghost predicate Vouched(v: Verifier, e: Envelope, claim: Binding, signature: Text) {
    && Header(e, SIGNATURE_HEADER) == Some(signature) && Header(e, DESTINATION_HEADER) == Some(claim.destination)
    && Names(v, e, ISSUER_HEADER, claim.issuer) && Names(v, e, AUDIENCE_HEADER, claim.audience)
    && Names(v, e, KEY_ID_HEADER, claim.keyId) && Names(v, e, ALGORITHM_HEADER, claim.algorithm)
    && claim.audience in v.audiences
    && v.decodeSignature(signature).Some? && v.keyOf(claim.issuer, claim.keyId).Ok? && BytesToVerify(v, e, claim).Ok?
    && v.accepts(v.keyOf(claim.issuer, claim.keyId).value, BytesToVerify(v, e, claim).value,
                 v.decodeSignature(signature).value)
  }

  lemma JudgeExactly(v: Verifier, claim: Binding, signature: Text, bytes: Result<ByteString, SecurityFault>)
    ensures var decoded, key := v.decodeSignature(signature), v.keyOf(claim.issuer, claim.keyId);
            Judge(v, claim, signature, bytes).Ok?
            <==> && claim.audience in v.audiences && decoded.Some? && key.Ok? && bytes.Ok?
                 && v.accepts(key.value, bytes.value, decoded.value)
    ensures Judge(v, claim, signature, bytes).Ok? ==> Judge(v, claim, signature, bytes).value == Some(claim.issuer)
  {
  }

  lemma ClaimExactly(v: Verifier, e: Envelope, destination: Text, claim: Binding)
    ensures Claim(v, e, destination) == Ok(claim)
            <==> && claim.destination == destination && Header(e, DESTINATION_HEADER) == Some(destination)
                 && Names(v, e, ISSUER_HEADER, claim.issuer) && Names(v, e, AUDIENCE_HEADER, claim.audience)
                 && Names(v, e, KEY_ID_HEADER, claim.keyId) && Names(v, e, ALGORITHM_HEADER, claim.algorithm)
  {
  }

  /**
   A publisher is established exactly when it is vouched for, as the issuer claimed, and nobody
   at all exactly when an unsigned envelope is let through.
   */
  lemma VerifyExactly(v: Verifier, e: Envelope, destination: Text, issuer: Text)
    ensures Verify(v, e, destination) == Ok(Some(issuer))
            <==> exists claim: Binding, signature: Text ::
                   claim.destination == destination && claim.issuer == issuer && Vouched(v, e, claim, signature)
    ensures Verify(v, e, destination) == Ok(None) <==> Header(e, SIGNATURE_HEADER).None? && !v.required
  {
    var signature := Header(e, SIGNATURE_HEADER);
    if signature.Some? {
      var claim := Claim(v, e, destination);
      if claim.Ok? {
        ClaimExactly(v, e, destination, claim.value);
        JudgeExactly(v, claim.value, signature.value, BytesToVerify(v, e, claim.value));
        if Verify(v, e, destination) == Ok(Some(issuer)) {
          assert Vouched(v, e, claim.value, signature.value);
        }
      }
      forall other: Binding, s: Text
        | other.destination == destination && other.issuer == issuer && Vouched(v, e, other, s)
        ensures Verify(v, e, destination) == Ok(Some(issuer))
      {
        ClaimExactly(v, e, destination, other);
        JudgeExactly(v, other, s, BytesToVerify(v, e, other));
      }
    }
  }

  // ---- What a signature still covers after a trip ----

  /** The same envelope but for its application headers. */
  predicate SameButHeaders(a: Envelope, b: Envelope) {
    b == a.(headers := b.headers)
  }

  lemma EntriesAreTheMap(h: Headers, g: Headers)
    requires h.Keys !! SECURITY_HEADERS && g.Keys !! SECURITY_HEADERS
    ensures SignedEntries(h) == SignedEntries(g) <==> h == g
  {
    if SignedEntries(h) == SignedEntries(g) {
      forall k | k in h
        ensures k in g && h[k] == g[k]
      {
        assert (k, h[k]) in SignedEntries(g);
      }
      forall k | k in g
        ensures k in h
      {
        assert (k, g[k]) in SignedEntries(h);
      }
    }
  }

  lemma SameMultisets(a: set<(Text, Text)>, b: set<(Text, Text)>, c: set<(Text, Text)>)
    ensures multiset(a) + multiset(c) == multiset(b) + multiset(c) <==> a == b
  {
    if multiset(a) + multiset(c) == multiset(b) + multiset(c) {
      assert multiset(a) == multiset(a) + multiset(c) - multiset(c) == multiset(b);
      assert forall x :: x in a <==> x in multiset(a);
      assert forall x :: x in b <==> x in multiset(b);
    }
  }

  /**
   Two envelopes that differ in application headers at most, both claimed for some destination,
   have the same bytes to verify exactly when those headers and the destinations are equal.
   */
  lemma BytesCoverHeadersAndDestination(v: Verifier, a: Envelope, b: Envelope, here: Binding, there: Binding)
    requires SameButHeaders(a, b) && there == here.(destination := there.destination)
    requires a.headers.Keys !! SECURITY_HEADERS && b.headers.Keys !! SECURITY_HEADERS
    requires EpochSeconds(a.publishedAt) < Pow256(8) && BytesToVerify(v, a, here).Ok?
    ensures BytesToVerify(v, a, here) == BytesToVerify(v, b, there) <==> a.headers == b.headers && here == there
  {
    EnumerationExists(a.headers);
    EnumerationExists(a.protocolHeaders);
    EnumerationExists(b.headers);
    var app: Stream :| Enumerates(app, a.headers);
    var other: Stream :| Enumerates(other, b.headers);
    var protocol: Stream :| Enumerates(protocol, a.protocolHeaders);
    BytesOfAnyIteration(v, a, here, app, protocol);
    BytesOfAnyIteration(v, b, there, other, protocol);
    if BytesToVerify(v, a, here) == BytesToVerify(v, b, there) {
      RepresentationInjective(a, here, app, protocol, v.digest(a.payload), b, there, other, protocol,
                              v.digest(b.payload));
      SameMultisets(SignedEntries(a.headers), SignedEntries(b.headers), SignedEntries(a.protocolHeaders));
      EntriesAreTheMap(a.headers, b.headers);
    }
  }

  lemma ClaimMoves(v: Verifier, a: Envelope, b: Envelope, here: Text, there: Text)
    requires SameButHeaders(a, b) && Claim(v, a, here).Ok?
    ensures Claim(v, b, there) == if there == here then Claim(v, a, here) else Err(DestinationMismatch)
  {
    SecurityNamesAreReserved();
  }

  lemma SecurityNamesAreReserved()
    ensures forall k :: k in SECURITY_HEADERS ==> IsReserved(k)
  {
    WireNamesAreCanonical();
  }

  lemma JudgedAgain(v: Verifier, binding: Binding, signature: Text,
                    a: Result<ByteString, SecurityFault>, b: Result<ByteString, SecurityFault>)
    requires v.Binds() && Judge(v, binding, signature, a).Ok?
    ensures Judge(v, binding, signature, b).Ok? <==> a == b
  {
  }

  lemma SameSignature(a: Envelope, b: Envelope)
    requires SameButHeaders(a, b)
    ensures Header(b, SIGNATURE_HEADER) == Header(a, SIGNATURE_HEADER)
  {
    SecurityNamesAreReserved();
  }

  /**
   A signed envelope the verifier accepted, changed in its application headers at most and met
   on some routing key, is accepted again exactly when neither has changed.
   */
  lemma AcceptedAgain(v: Verifier, a: Envelope, b: Envelope, here: Text, there: Text)
    requires v.Binds() && SameButHeaders(a, b) && Header(a, SIGNATURE_HEADER).Some? && Verify(v, a, here).Ok?
    requires a.headers.Keys !! SECURITY_HEADERS && b.headers.Keys !! SECURITY_HEADERS
    requires EpochSeconds(a.publishedAt) < Pow256(8)
    ensures Verify(v, b, there).Ok? <==> a.headers == b.headers && here == there
  {
    SameSignature(a, b);
    ClaimMoves(v, a, b, here, there);
    if here == there {
      var binding := Claim(v, a, here).value;
      BytesCoverHeadersAndDestination(v, a, b, binding, binding);
      JudgedAgain(v, binding, Header(a, SIGNATURE_HEADER).value, BytesToVerify(v, a, binding),
                  BytesToVerify(v, b, binding));
    }
  }
}
