/** Byte strings: the lexicographic order of `std::string::operator<`, the
    fixed-width little-endian integers of the binary codecs, and the decimal
    digits of `std::to_string`.
 */
module ByteStrings {

  type byte = b: int | 0 <= b < 256
  type bytes = seq<byte>

  const U32_LIMIT := 0x1_0000_0000
  const U64_LIMIT := 0x1_0000_0000_0000_0000
  const I64_LIMIT := 0x8000_0000_0000_0000

  type u32 = n: int | 0 <= n < 0x1_0000_0000
  type u64 = n: int | 0 <= n < 0x1_0000_0000_0000_0000
  type i64 = n: int | -0x8000_0000_0000_0000 <= n < 0x8000_0000_0000_0000

  // ------------------------------------------------------------------
  // Lexicographic order
  // ------------------------------------------------------------------

  predicate Less(a: bytes, b: bytes) {
    |b| > 0 && (|a| == 0 || a[0] < b[0] || (a[0] == b[0] && Less(a[1..], b[1..])))
  }

  predicate AtMost(a: bytes, b: bytes) {
    a == b || Less(a, b)
  }

  lemma {:induction false} LessIrreflexive(a: bytes)
    ensures !Less(a, a)
  {
    if |a| > 0 {
      LessIrreflexive(a[1..]);
    }
  }

  lemma {:induction false} LessTransitive(a: bytes, b: bytes, c: bytes)
    requires Less(a, b) && Less(b, c)
    ensures Less(a, c)
  {
    if |a| > 0 && a[0] == b[0] && b[0] == c[0] {
      LessTransitive(a[1..], b[1..], c[1..]);
    }
  }

  lemma {:induction false} LessTotal(a: bytes, b: bytes)
    ensures Less(a, b) || a == b || Less(b, a)
  {
    if |a| > 0 && |b| > 0 && a[0] == b[0] {
      LessTotal(a[1..], b[1..]);
      assert a == [a[0]] + a[1..] && b == [b[0]] + b[1..];
    }
  }

  lemma LessAsymmetric(a: bytes, b: bytes)
    requires Less(a, b)
    ensures !Less(b, a) && a != b
  {
    LessIrreflexive(a);
    if Less(b, a) {
      LessTransitive(a, b, a);
    }
  }

  // ------------------------------------------------------------------
  // Little-endian integers
  // ------------------------------------------------------------------

  function Pow256(n: nat): (p: nat)
    ensures p > 0
  {
    if n == 0 then 1 else 256 * Pow256(n - 1)
  }

  /** The low `width` bytes of `n`, least significant first. */
  function EncodeLE(n: nat, width: nat): (s: bytes)
    ensures |s| == width
  {
    if width == 0 then [] else [n % 256] + EncodeLE(n / 256, width - 1)
  }

  function DecodeLE(s: bytes): nat {
    if s == [] then 0 else s[0] + 256 * DecodeLE(s[1..])
  }

  lemma {:induction false} DecodeEncodeLE(n: nat, width: nat)
    requires n < Pow256(width)
    ensures DecodeLE(EncodeLE(n, width)) == n
  {
    if width > 0 {
      assert n / 256 < Pow256(width - 1);
      DecodeEncodeLE(n / 256, width - 1);
      assert EncodeLE(n, width)[1..] == EncodeLE(n / 256, width - 1);
    }
  }

  lemma {:induction false} DecodeLEBound(s: bytes)
    ensures DecodeLE(s) < Pow256(|s|)
  {
    if s != [] {
      DecodeLEBound(s[1..]);
    }
  }

  lemma Pow256Values()
    ensures Pow256(4) == U32_LIMIT
    ensures Pow256(8) == U64_LIMIT
  {
    assert Pow256(2) == 65536;
    assert Pow256(4) == 65536 * 65536;
    assert Pow256(6) == 65536 * 65536 * 65536;
  }

  /** `static_cast<uint32_t>` of a size, then four little-endian bytes. */
  function U32(n: nat): (s: bytes)
    ensures |s| == 4
  {
    EncodeLE(n % U32_LIMIT, 4)
  }

  function U64(n: nat): (s: bytes)
    ensures |s| == 8
  {
    EncodeLE(n % U64_LIMIT, 8)
  }

  /** Two's complement. */
  function I64(n: i64): (s: bytes)
    ensures |s| == 8
  {
    U64(if n < 0 then n + U64_LIMIT else n)
  }

  function Signed(n: u64): i64 {
    if n < I64_LIMIT then n else n - U64_LIMIT
  }

  lemma SmallMod(n: nat, m: nat)
    requires n < m
    ensures n % m == n
  {
  }

  lemma U32RoundTrip(n: u32)
    ensures DecodeLE(U32(n)) == n
  {
    Pow256Values();
    DecodeEncodeLE(n, 4);
  }

  lemma U64RoundTrip(n: u64)
    ensures DecodeLE(U64(n)) == n
  {
    SmallMod(n, U64_LIMIT);
    assert n < Pow256(8) by { Pow256Values(); }
    DecodeEncodeLE(n, 8);
  }

  lemma U64Range(s: bytes)
    requires |s| == 8
    ensures DecodeLE(s) < U64_LIMIT
  {
    Pow256Values();
    DecodeLEBound(s);
  }

  lemma U32Range(s: bytes)
    requires |s| == 4
    ensures DecodeLE(s) < U32_LIMIT
  {
    Pow256Values();
    DecodeLEBound(s);
  }

  /** A length-prefixed blob: `ByteWriter::Bytes`. */
  function Blob(s: bytes): (r: bytes)
    ensures |r| == 4 + |s|
  {
    U32(|s|) + s
  }

  /** What a reader took off the front, and what is left. */
  datatype Read<+T> = Fail | Got(value: T, rest: bytes)

  function ReadU32(s: bytes): Read<nat> {
    if |s| < 4 then Fail else Got(DecodeLE(s[..4]), s[4..])
  }

  /** `ByteReader::Bytes`. */
  function ReadBlob(s: bytes): (r: Read<bytes>)
    ensures r.Got? ==> |r.value| + |r.rest| + 4 == |s|
  {
    var n := ReadU32(s);
    if n.Fail? || |n.rest| < n.value then Fail
    else Got(n.rest[..n.value], n.rest[n.value..])
  }

  lemma ReadU32Back(n: u32, rest: bytes)
    ensures ReadU32(U32(n) + rest) == Got(n, rest)
  {
    var s := U32(n) + rest;
    assert s[..4] == U32(n) && s[4..] == rest;
    U32RoundTrip(n);
  }

  lemma ReadBlobBack(t: bytes, rest: bytes)
    requires |t| < U32_LIMIT
    ensures ReadBlob(Blob(t) + rest) == Got(t, rest)
  {
    assert Blob(t) + rest == U32(|t|) + (t + rest);
    ReadU32Back(|t|, t + rest);
  }

  // ------------------------------------------------------------------
  // Decimal digits
  // ------------------------------------------------------------------

  function Digits(n: nat): (s: bytes)
    ensures |s| > 0
    ensures forall i :: 0 <= i < |s| ==> 48 <= s[i] <= 57
  {
    if n < 10 then [48 + n] else Digits(n / 10) + [48 + n % 10]
  }

  function DigitsValue(s: bytes): int {
    if s == [] then 0 else 10 * DigitsValue(s[..|s| - 1]) + (s[|s| - 1] as int) - 48
  }

  lemma {:induction false} DigitsRoundTrip(n: nat)
    ensures DigitsValue(Digits(n)) == n
  {
    if n < 10 {
      assert Digits(n)[..0] == [];
    } else {
      DigitsRoundTrip(n / 10);
      assert Digits(n)[..|Digits(n)| - 1] == Digits(n / 10);
    }
  }
}
