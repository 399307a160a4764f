/**
 Bytes, fixed-width integers and byte images.

 Structures are stored as the C compiler lays them out on a little-endian machine.
 */
module Bytes {
  type byte = bv8

  const U64_LIMIT := 0x1_0000_0000_0000_0000
  const U64_MAX := 0xffff_ffff_ffff_ffff

  /** uint64_t and the 64-bit unsigned long. */
  type u64 = n: int | 0 <= n < U64_LIMIT

  function Min(a: int, b: int): int {
    if a <= b then a else b
  }

  function Max(a: int, b: int): int {
    if a >= b then a else b
  }

  /** The bitwise AND of two unsigned integers. */
  function BitAnd(a: nat, b: nat): nat {
    if a == 0 || b == 0 then 0
    else (if a % 2 == 1 && b % 2 == 1 then 1 else 0) + 2 * BitAnd(a / 2, b / 2)
  }

  /** Binary digit `i` of `n`. */
  predicate Digit(n: nat, i: nat) {
    if i == 0 then n % 2 == 1 else Digit(n / 2, i - 1)
  }

  function Pow2(n: nat): (r: nat)
    ensures 1 <= r
  {
    if n == 0 then 1 else 2 * Pow2(n - 1)
  }

  lemma {:induction false} DigitIsQuotient(n: nat, i: nat)
    ensures Digit(n, i) <==> n / Pow2(i) % 2 == 1
    decreases i
  {
    if i == 0 {
    } else {
      DigitIsQuotient(n / 2, i - 1);
      QuotientOfQuotient(n, Pow2(i - 1));
    }
  }

  lemma QuotientOfQuotient(n: nat, p: nat)
    requires 1 <= p
    ensures n / 2 / p == n / (2 * p)
  {
    var q, r := n / (2 * p), n % (2 * p);
    assert n == q * (2 * p) + r;
    assert q * (2 * p) == 2 * (q * p);
    assert n / 2 == q * p + r / 2 && r / 2 < p;
    QuotientIs(n / 2, p, q, r / 2);
  }

  lemma QuotientIs(n: nat, p: nat, q: nat, r: nat)
    requires n == q * p + r && r < p
    ensures n / p == q
  {
    MultiplesApart(p, q, n / p);
    MultiplesApart(p, n / p, q);
    assert n == n / p * p + n % p;
  }

  lemma MultiplesApart(p: nat, q: nat, q': nat)
    ensures q < q' ==> q * p + p <= q' * p
  {
    if q < q' {
      assert (q + 1) * p <= q' * p;
    }
  }

  /** The two numbers have a binary digit in common. */
  ghost predicate SharesDigit(a: nat, b: nat) {
    exists i: nat :: Digit(a, i) && Digit(b, i)
  }

  lemma {:induction false} HasDigit(n: nat) returns (i: nat)
    requires 0 < n
    ensures Digit(n, i)
    decreases n
  {
    if n % 2 == 1 {
      i := 0;
    } else {
      i := HasDigit(n / 2);
      i := i + 1;
    }
  }

  /** The AND is nonzero exactly when some digit is common. */
  lemma MaskHits(a: nat, b: nat)
    ensures BitAnd(a, b) != 0 <==> SharesDigit(a, b)
  {
    if BitAnd(a, b) != 0 {
      var i := HasDigit(BitAnd(a, b));
      BitAndDigits(a, b, i);
    }
    if SharesDigit(a, b) {
      var i: nat :| Digit(a, i) && Digit(b, i);
      BitAndDigits(a, b, i);
      ZeroDigits(i);
    }
  }

  /** Digit by digit, the AND has the digits that both have. */
  lemma {:induction false} BitAndDigits(a: nat, b: nat, i: nat)
    ensures Digit(BitAnd(a, b), i) <==> Digit(a, i) && Digit(b, i)
    decreases i
  {
    if a == 0 || b == 0 {
      ZeroDigits(i);
    } else if i > 0 {
      BitAndDigits(a / 2, b / 2, i - 1);
    }
  }

  lemma {:induction false} ZeroDigits(i: nat)
    ensures !Digit(0, i)
  {
    if i == 0 {
    } else {
      ZeroDigits(i - 1);
    }
  }

  // ----- Integers as bytes -----

  function Narrow(r: nat): byte
    requires r < 256
  {
    r as byte
  }

  function Octet(n: nat): byte {
    Narrow(n % 256)
  }

  function Value(b: byte): nat {
    b as int
  }

  lemma CastRoundTrip(r: nat)
    requires r < 256
    ensures (r as byte) as int == r
  {
    if r < 16 {
    } else if r < 32 {
    } else if r < 64 {
    } else if r < 128 {
    }
  }

  lemma NarrowValue(r: nat)
    requires r < 256
    ensures Value(Narrow(r)) == r
  {
    CastRoundTrip(r);
  }

  lemma OctetValue(n: nat)
    ensures Value(Octet(n)) == n % 256
  {
    hide Value, Narrow;
    NarrowValue(n % 256);
  }

  lemma ValueBound(b: byte)
    ensures Value(b) < 256
  {
  }

  function LittleEndian(n: nat, width: nat): (s: seq<byte>)
    ensures |s| == width
    decreases width
  {
    if width == 0 then [] else [Octet(n)] + LittleEndian(n / 256, width - 1)
  }

  function FromLittleEndian(s: seq<byte>): nat {
    if s == [] then 0 else Value(s[0]) + 256 * FromLittleEndian(s[1..])
  }

  function Power256(width: nat): (p: nat)
    ensures 1 <= p
  {
    if width == 0 then 1 else 256 * Power256(width - 1)
  }

  lemma {:induction false} FromLittleEndianBound(s: seq<byte>)
    ensures FromLittleEndian(s) < Power256(|s|)
  {
    hide Value;
    if s == [] {
    } else {
      ValueBound(s[0]);
      FromLittleEndianBound(s[1..]);
    }
  }

  lemma {:induction false} LittleEndianRoundTrip(n: nat, width: nat)
    requires n < Power256(width)
    ensures FromLittleEndian(LittleEndian(n, width)) == n
    decreases width
  {
    hide Octet, Value;
    if width == 0 {
    } else {
      OctetValue(n);
      LittleEndianRoundTrip(n / 256, width - 1);
      assert LittleEndian(n, width)[1..] == LittleEndian(n / 256, width - 1);
    }
  }

  /** The least significant byte comes first. */
  lemma {:induction false} LittleEndianAt(n: nat, width: nat, i: nat)
    requires i < width
    ensures Value(LittleEndian(n, width)[i]) == n / Power256(i) % 256
    decreases width
  {
    hide Octet, Value;
    if i == 0 {
      OctetValue(n);
    } else {
      LittleEndianAt(n / 256, width - 1, i - 1);
      QuotientBy256(n, Power256(i - 1));
    }
  }

  lemma QuotientBy256(n: nat, p: nat)
    requires 1 <= p
    ensures n / 256 / p == n / (256 * p)
  {
    var q, r := n / (256 * p), n % (256 * p);
    assert n == q * (256 * p) + r;
    assert q * (256 * p) == 256 * (q * p);
    assert n / 256 == q * p + r / 256 && r / 256 < p;
    QuotientIs(n / 256, p, q, r / 256);
  }

  lemma EightBytesHoldU64()
    ensures Power256(8) == U64_LIMIT
  {
  }

  function PutU64(n: u64): (s: seq<byte>)
    ensures |s| == 8
  {
    LittleEndian(n, 8)
  }

  function GetU64(s: seq<byte>): u64
    requires |s| == 8
  {
    FromLittleEndianBound(s);
    EightBytesHoldU64();
    FromLittleEndian(s)
  }

  lemma U64RoundTrip(n: u64)
    ensures GetU64(PutU64(n)) == n
  {
    EightBytesHoldU64();
    LittleEndianRoundTrip(n, 8);
  }

  function PutU32(w: bv32): (s: seq<byte>)
    ensures |s| == 4
  {
    [(w & 0xff) as byte, ((w >> 8) & 0xff) as byte, ((w >> 16) & 0xff) as byte, ((w >> 24) & 0xff) as byte]
  }

  function GetU32(s: seq<byte>): bv32
    requires |s| == 4
  {
    (s[0] as bv32) | ((s[1] as bv32) << 8) | ((s[2] as bv32) << 16) | ((s[3] as bv32) << 24)
  }

  lemma U32RoundTrip(w: bv32)
    ensures GetU32(PutU32(w)) == w
  {
  }

  /** The least significant byte comes first here too. */
  lemma GetU32Sum(s: seq<byte>)
    requires |s| == 4
    ensures GetU32(s) ==
            (s[0] as bv32) + 0x100 * (s[1] as bv32) + 0x1_0000 * (s[2] as bv32) + 0x100_0000 * (s[3] as bv32)
  {
  }

  lemma GetU32Injective(s: seq<byte>, t: seq<byte>)
    requires |s| == |t| == 4 && GetU32(s) == GetU32(t)
    ensures s == t
  {
  }

  function Repeat(b: byte, n: nat): (s: seq<byte>)
    ensures |s| == n
    ensures forall i :: 0 <= i < n ==> s[i] == b
  {
    seq(n, i => b)
  }

  const ZERO_WORD: seq<byte> := [0, 0, 0, 0]

  // ----- Byte images -----

  /** `image` with `data` laid over the bytes from `pos` on. */
  function Splice(image: seq<byte>, pos: nat, data: seq<byte>): (result: seq<byte>)
    requires pos + |data| <= |image|
    ensures |result| == |image|
  {
    image[..pos] + data + image[pos + |data|..]
  }

  lemma SpliceWithin(image: seq<byte>, pos: nat, data: seq<byte>)
    requires pos + |data| <= |image|
    ensures Splice(image, pos, data)[pos..pos + |data|] == data
  {
  }

  lemma SpliceOutside(image: seq<byte>, pos: nat, data: seq<byte>, from: nat, to: nat)
    requires pos + |data| <= |image| && from <= to <= |image|
    requires to <= pos || pos + |data| <= from
    ensures Splice(image, pos, data)[from..to] == image[from..to]
  {
  }

  lemma SpliceKeepsEnds(image: seq<byte>, pos: nat, data: seq<byte>, head: nat, tail: nat)
    requires head <= pos && pos + |data| <= tail <= |image|
    ensures Splice(image, pos, data)[..head] == image[..head]
    ensures Splice(image, pos, data)[tail..] == image[tail..]
  {
  }

  lemma SpliceAgain(image: seq<byte>, pos: nat, a: seq<byte>, b: seq<byte>)
    requires |a| == |b| && pos + |a| <= |image|
    ensures Splice(Splice(image, pos, a), pos, b) == Splice(image, pos, b)
  {
  }

  lemma SpliceSame(image: seq<byte>, pos: nat, data: seq<byte>)
    requires pos + |data| <= |image| && image[pos..pos + |data|] == data
    ensures Splice(image, pos, data) == image
  {
  }
}
