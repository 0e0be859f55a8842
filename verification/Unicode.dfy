/** What the byte and text routines of `Bytes` accept, against independent definitions of UTF-8 and decimal text. */
module Unicode {
  import opened Bytes

  // ---- UTF-8 ----

  /** A Unicode scalar value: a code point that is not a surrogate. */
  predicate IsScalar(c: nat) {
    c < 0xD800 || 0xE000 <= c <= 0x10FFFF
  }

  function Trailing(c: nat): Byte {
    (0x80 + c % 64) as Byte
  }

  /** The bytes of one scalar value. */
  function EncodeScalar(c: nat): (b: ByteString)
    requires IsScalar(c)
    ensures 1 <= |b| <= 4
  {
    if c < 0x80 then [c as Byte]
    else if c < 0x800 then [(0xC0 + c / 64) as Byte, Trailing(c)]
    else if c < 0x10000 then [(0xE0 + c / 4096) as Byte, Trailing(c / 64), Trailing(c)]
    else [(0xF0 + c / 262144) as Byte, Trailing(c / 4096), Trailing(c / 64), Trailing(c)]
  }

  predicate AllScalars(text: seq<nat>) {
    forall i :: 0 <= i < |text| ==> IsScalar(text[i])
  }

  function Encode(text: seq<nat>): ByteString
    requires AllScalars(text)
  {
    if text == [] then [] else EncodeScalar(text[0]) + Encode(text[1..])
  }

  /** Four base-64 digits of a code point. */
  lemma Digits64(c: nat)
    ensures c == 64 * (c / 64) + c % 64
    ensures c / 4096 == c / 64 / 64 && c / 262144 == c / 4096 / 64
  {
  }

  lemma ScalarLeads(c: nat, rest: ByteString)
    requires IsScalar(c)
    ensures LeadingScalar(EncodeScalar(c) + rest) == |EncodeScalar(c)|
  {
    Digits64(c);
    Digits64(c / 64);
    Digits64(c / 4096);
    var b := EncodeScalar(c) + rest;
    assert forall i :: 0 <= i < |EncodeScalar(c)| ==> b[i] == EncodeScalar(c)[i];
  }

  function Low(b: Byte): int {
    b as int - 0x80
  }

  /** The code point a well-formed sequence stands for. */
  function DecodeLeading(b: ByteString): int
    requires b != [] && LeadingScalar(b) > 0
  {
    match LeadingScalar(b)
    case 1 => b[0] as int
    case 2 => (b[0] as int - 0xC0) * 64 + Low(b[1])
    case 3 => ((b[0] as int - 0xE0) * 64 + Low(b[1])) * 64 + Low(b[2])
    case _ => (((b[0] as int - 0xF0) * 64 + Low(b[1])) * 64 + Low(b[2])) * 64 + Low(b[3])
  }

  lemma LeadingIsScalar(b: ByteString)
    requires b != [] && LeadingScalar(b) > 0
    ensures var c := DecodeLeading(b);
            c >= 0 && IsScalar(c) && EncodeScalar(c) == b[..LeadingScalar(b)]
  {
    match LeadingScalar(b)
    case 1 =>
    case 2 => LeadsTwo(b);
    case 3 => LeadsThree(b);
    case _ => LeadsFour(b);
  }

  lemma Split64(high: int, low: int)
    requires high >= 0 && 0 <= low < 64
    ensures (high * 64 + low) / 64 == high && (high * 64 + low) % 64 == low
  {
  }

  lemma LeadsTwo(b: ByteString)
    requires b != [] && LeadingScalar(b) == 2
    ensures var c := DecodeLeading(b); 0x80 <= c < 0x800 && EncodeScalar(c) == b[..2]
  {
    Split64(b[0] as int - 0xC0, Low(b[1]));
  }

  lemma LeadsThree(b: ByteString)
    requires b != [] && LeadingScalar(b) == 3
    ensures var c := DecodeLeading(b); 0x800 <= c < 0x10000 && IsScalar(c) && EncodeScalar(c) == b[..3]
  {
    var high := b[0] as int - 0xE0;
    var c := DecodeLeading(b);
    Split64(high, Low(b[1]));
    Split64(high * 64 + Low(b[1]), Low(b[2]));
    Digits64(c);
    assert c / 64 == high * 64 + Low(b[1]) && c / 4096 == high;
  }

  lemma LeadsFour(b: ByteString)
    requires b != [] && LeadingScalar(b) == 4
    ensures var c := DecodeLeading(b); 0x10000 <= c && IsScalar(c) && EncodeScalar(c) == b[..4]
  {
    var high := b[0] as int - 0xF0;
    var middle := high * 64 + Low(b[1]);
    var c := DecodeLeading(b);
    Split64(high, Low(b[1]));
    Split64(middle, Low(b[2]));
    Split64(middle * 64 + Low(b[2]), Low(b[3]));
    Digits64(c);
    assert c / 64 == middle * 64 + Low(b[2]) && c / 4096 == middle && c / 262144 == high;
  }

  lemma {:induction false} EncodedIsValid(text: seq<nat>)
    requires AllScalars(text)
    ensures ValidUtf8(Encode(text))
  {
    if text != [] {
      EncodedIsValid(text[1..]);
      ScalarLeads(text[0], Encode(text[1..]));
      assert Encode(text)[|EncodeScalar(text[0])|..] == Encode(text[1..]);
    }
  }

  lemma {:induction false} ValidIsEncoded(b: ByteString) returns (text: seq<nat>)
    requires ValidUtf8(b)
    ensures AllScalars(text) && Encode(text) == b
    decreases |b|
  {
    if b == [] {
      return [];
    }
    var n := LeadingScalar(b);
    LeadingIsScalar(b);
    var rest := ValidIsEncoded(b[n..]);
    var c: nat := DecodeLeading(b);
    text := [c] + rest;
    assert text[1..] == rest && b == b[..n] + b[n..];
  }

  ghost predicate Spells(text: seq<nat>, b: ByteString) {
    AllScalars(text) && Encode(text) == b
  }

  /** Bytes are valid exactly when they encode some sequence of Unicode scalar values. */
  lemma Utf8Exactly(b: ByteString)
    ensures ValidUtf8(b) <==> exists text :: Spells(text, b)
  {
    if ValidUtf8(b) {
      var text := ValidIsEncoded(b);
      assert Spells(text, b);
    }
    if text :| Spells(text, b) {
      EncodedIsValid(text);
    }
  }

  // ---- Decimal text ----

  function Zeros(k: nat): ByteString {
    seq(k, _ => 0x30)
  }

  lemma {:induction false} ZerosParse(k: nat)
    requires k >= 1
    ensures ParseDigits(Zeros(k)) == Some(0)
  {
    if k > 1 {
      assert Zeros(k)[..k - 1] == Zeros(k - 1);
      ZerosParse(k - 1);
    }
  }

  lemma {:induction false} PaddedParses(k: nat, n: nat)
    ensures ParseDigits(Zeros(k) + PrintNat(n)) == Some(n)
  {
    if n >= 10 {
      PaddedParses(k, n / 10);
      OneMoreDigit(Zeros(k) + PrintNat(n / 10), n / 10, n % 10);
      assert Zeros(k) + PrintNat(n) == Zeros(k) + PrintNat(n / 10) + [(0x30 + n % 10) as Byte];
    } else if k >= 1 {
      ZerosParse(k);
      OneMoreDigit(Zeros(k), 0, n);
    } else {
      assert Zeros(k) + PrintNat(n) == PrintNat(n);
    }
  }

  lemma OneMoreDigit(most: ByteString, high: nat, digit: nat)
    requires ParseDigits(most) == Some(high) && digit < 10
    ensures ParseDigits(most + [(0x30 + digit) as Byte]) == Some(10 * high + digit)
  {
    ParseSnoc(most, (0x30 + digit) as Byte);
  }

  lemma ParseSnoc(most: ByteString, last: Byte)
    requires most != [] && IsDigit(last)
    ensures ParseDigits(most + [last])
            == match ParseDigits(most)
               case None => None
               case Some(high) => Some(10 * high + (last as int - 0x30))
  {
    var b := most + [last];
    assert b[..|b| - 1] == most && b[|b| - 1] == last;
  }

  lemma {:induction false} ParsedIsPadded(b: ByteString) returns (k: nat)
    requires ParseDigits(b).Some?
    ensures b == Zeros(k) + PrintNat(ParseDigits(b).value)
    decreases |b|
  {
    var most, last := b[..|b| - 1], b[|b| - 1];
    assert b == most + [last];
    if most == [] {
      return 0;
    }
    var before := ParsedIsPadded(most);
    if ParseDigits(most) == Some(0) {
      k := before + 1;
      assert Zeros(k) == Zeros(before) + PrintNat(0);
    } else {
      k := before;
    }
  }

  ghost predicate IsPadded(b: ByteString, n: nat) {
    exists k :: b == Zeros(k) + PrintNat(n)
  }

  /** Digits parse to a number exactly when they are its decimal text behind any number of zeros. */
  lemma DigitsExactly(b: ByteString, n: nat)
    ensures ParseDigits(b) == Some(n) <==> IsPadded(b, n)
  {
    if ParseDigits(b) == Some(n) {
      var k := ParsedIsPadded(b);
    }
    if k :| b == Zeros(k) + PrintNat(n) {
      PaddedParses(k, n);
    }
  }

  /** A sign, where the type has one, and padded digits. */
  ghost predicate Denotes(b: ByteString, lo: int, n: int) {
    || (n >= 0 && IsPadded(b, n))
    || (b != [] && b[0] == 0x2B && n >= 0 && IsPadded(b[1..], n))
    || (b != [] && b[0] == 0x2D && lo < 0 && n <= 0 && IsPadded(b[1..], -n))
  }

  function Magnitude(n: int): nat {
    if n < 0 then -n else n
  }

  lemma SignedText(b: ByteString, n: nat)
    requires b == [] || !IsDigit(b[0])
    ensures !IsPadded(b, n) && ParseDigits(b).None?
  {
    DigitsExactly(b, n);
    if b != [] {
      SignIsNoDigit(b);
    }
  }

  /** Text parses to an integer of the type exactly when it denotes one in its range. */
  lemma IntExactly(b: ByteString, lo: int, hi: int, n: int)
    requires lo <= 0 <= hi
    ensures ParseInt(b, lo, hi) == Some(n) <==> lo <= n <= hi && Denotes(b, lo, n)
  {
    if b == [] || !IsDigit(b[0]) {
      SignedText(b, Magnitude(n));
    }
    if b != [] && (b[0] == 0x2B || (b[0] == 0x2D && lo < 0)) {
      DigitsExactly(b[1..], Magnitude(n));
    } else {
      DigitsExactly(b, Magnitude(n));
    }
  }

  lemma {:induction false} SignIsNoDigit(b: ByteString)
    requires b != [] && !IsDigit(b[0])
    ensures ParseDigits(b).None?
    decreases |b|
  {
    if |b| > 1 {
      assert b[..|b| - 1][0] == b[0];
      SignIsNoDigit(b[..|b| - 1]);
    }
  }
}
