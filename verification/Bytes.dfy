/**
 Byte strings, UTF-8 text and the decimal renderings the wire formats rely on.

 A Rust `String` is its UTF-8 byte sequence: every length the code measures is a byte
 length, so text is modelled as bytes and not as characters.
 */
module Bytes {

  datatype Option<+T> = None | Some(value: T)

  datatype Result<+T, +E> = Ok(value: T) | Err(error: E)

  newtype Byte = x: int | 0 <= x < 256

  type ByteString = seq<Byte>

  /** A Rust `String`, `&str` or `ShortString`. That its bytes are UTF-8 is stated where the code depends on it. */
  type Text = ByteString

  /** The sixteen bytes of a UUID. */
  type Uuid = b: ByteString | |b| == 16 witness seq(16, _ => 0)

  const USIZE_MAX := 0xFFFF_FFFF_FFFF_FFFF
  const I64_MIN := -0x8000_0000_0000_0000
  const I64_MAX := 0x7FFF_FFFF_FFFF_FFFF
  const U32_MAX := 0xFFFF_FFFF

  /** The value a `usize` accumulator holds once every addition saturates. */
  function Saturate(n: nat): (r: nat)
    ensures r <= USIZE_MAX
  {
    if n <= USIZE_MAX then n else USIZE_MAX
  }

  // ---- UTF-8 ----

  predicate Continuation(b: Byte) {
    0x80 <= b <= 0xBF
  }

  /** Byte length of the well-formed scalar `b` opens with, 0 when it is ill formed (Unicode table 3-7). */
  function LeadingScalar(b: ByteString): (n: nat)
    requires b != []
    ensures n <= |b|
  {
    if b[0] < 0x80 then 1
    else if |b| >= 2 && 0xC2 <= b[0] <= 0xDF && Continuation(b[1]) then 2
    else if |b| >= 3 && Continuation(b[1]) && Continuation(b[2])
            && ((b[0] == 0xE0 && 0xA0 <= b[1]) || 0xE1 <= b[0] <= 0xEC || (b[0] == 0xED && b[1] <= 0x9F)
                || 0xEE <= b[0] <= 0xEF)
    then 3
    else if |b| >= 4 && Continuation(b[1]) && Continuation(b[2]) && Continuation(b[3])
            && ((b[0] == 0xF0 && 0x90 <= b[1]) || 0xF1 <= b[0] <= 0xF3 || (b[0] == 0xF4 && b[1] <= 0x8F))
    then 4
    else 0
  }

  predicate ValidUtf8(b: ByteString)
    decreases |b|
  {
    b == [] || (var n := LeadingScalar(b); n > 0 && ValidUtf8(b[n..]))
  }

  predicate AllAscii(b: ByteString) {
    forall i :: 0 <= i < |b| ==> b[i] < 0x80
  }

  lemma {:induction false} AsciiIsUtf8(b: ByteString)
    requires AllAscii(b)
    ensures ValidUtf8(b)
  {
    if b != [] {
      AsciiIsUtf8(b[1..]);
    }
  }

  predicate AsciiLiteral(s: string) {
    forall i :: 0 <= i < |s| ==> s[i] < '\U{80}'
  }

  /** The bytes of an ASCII literal. */
  function Ascii(s: string): (t: Text)
    requires AsciiLiteral(s)
    ensures |t| == |s|
    ensures forall i :: 0 <= i < |s| ==> t[i] as int == s[i] as int
  {
    seq(|s|, i requires 0 <= i < |s| => (s[i] as int) as Byte)
  }

  function Lowercase(b: Byte): Byte {
    if 0x41 <= b <= 0x5A then b + 0x20 else b
  }

  predicate HasUppercase(b: ByteString) {
    exists i :: 0 <= i < |b| && 0x41 <= b[i] <= 0x5A
  }

  // ---- Decimal text ----

  predicate IsDigit(b: Byte) {
    0x30 <= b <= 0x39
  }

  function PrintNat(n: nat): (b: ByteString)
    ensures b != [] && AllAscii(b) && forall i :: 0 <= i < |b| ==> IsDigit(b[i])
  {
    if n < 10 then [(0x30 + n) as Byte] else PrintNat(n / 10) + [(0x30 + n % 10) as Byte]
  }

  /** `Display` of an integer. */
  function PrintInt(n: int): (t: Text)
    ensures AllAscii(t)
  {
    if n < 0 then [0x2D as Byte] + PrintNat(-n) else PrintNat(n)
  }

  function ParseDigits(b: ByteString): Option<nat>
  {
    if b == [] || !IsDigit(b[|b| - 1]) then None
    else
      var digit := b[|b| - 1] as int - 0x30;
      if |b| == 1 then Some(digit)
      else
        match ParseDigits(b[..|b| - 1])
        case None => None
        case Some(high) => Some(10 * high + digit)
  }

  /** `str::parse` of an integer type whose range is `lo..=hi`: an optional sign, then decimal digits. */
  function ParseInt(b: ByteString, lo: int, hi: int): Option<int>
    requires lo <= 0 <= hi
  {
    var negative := lo < 0 && b != [] && b[0] == 0x2D;
    var digits := if b != [] && (b[0] == 0x2B || negative) then b[1..] else b;
    match ParseDigits(digits)
    case None => None
    case Some(n) =>
      var magnitude: int := n;
      var value := if negative then -magnitude else magnitude;
      if lo <= value <= hi then Some(value) else None
  }

  lemma {:induction false} DigitsRoundTrip(n: nat)
    ensures ParseDigits(PrintNat(n)) == Some(n)
  {
    if n >= 10 {
      DigitsRoundTrip(n / 10);
      var b := PrintNat(n);
      assert b[..|b| - 1] == PrintNat(n / 10);
    }
  }

  /** Every integer of the range survives being printed and parsed again. */
  lemma IntRoundTrip(n: int, lo: int, hi: int)
    requires lo <= 0 <= hi && lo <= n <= hi
    ensures ParseInt(PrintInt(n), lo, hi) == Some(n)
  {
    var magnitude: nat := if n < 0 then -n else n;
    DigitsRoundTrip(magnitude);
    if n < 0 {
      assert PrintInt(n)[1..] == PrintNat(magnitude);
    } else {
      assert IsDigit(PrintInt(n)[0]);
    }
  }

  // ---- Fixed-width integers ----

  /** Big-endian bytes. */
  function BigEndian(n: nat, width: nat): (b: ByteString)
    ensures |b| == width
  {
    if width == 0 then [] else BigEndian(n / 256, width - 1) + [(n % 256) as Byte]
  }

  ghost function Pow256(width: nat): nat {
    if width == 0 then 1 else 256 * Pow256(width - 1)
  }

  lemma {:induction false} BigEndianInjective(n: nat, m: nat, width: nat)
    requires n < Pow256(width) && m < Pow256(width) && BigEndian(n, width) == BigEndian(m, width)
    ensures n == m
  {
    if width > 0 {
      var a, b := BigEndian(n, width), BigEndian(m, width);
      assert a[..width - 1] == BigEndian(n / 256, width - 1) && b[..width - 1] == BigEndian(m / 256, width - 1);
      assert a[width - 1] == b[width - 1];
      BigEndianInjective(n / 256, m / 256, width - 1);
    }
  }
}
