/** Bits of natural numbers, and byte strings as little-endian base-256 integers.
    Shifts and masks are defined one bit at a time; ShlIsProduct, ShrIsQuotient and
    LowIsRemainder say what they are in terms of powers of two. */
module Bits {

  function Pow2(n: nat): (r: nat)
    ensures r >= 1
  {
    if n == 0 then 1 else 2 * Pow2(n - 1)
  }

  /** v << k */
  function Shl(v: nat, k: nat): (r: nat)
    ensures r >= v
  {
    if k == 0 then v else 2 * Shl(v, k - 1)
  }

  /** v >> k */
  function Shr(v: nat, k: nat): (r: nat)
    ensures r <= v
  {
    if k == 0 then v else Shr(v / 2, k - 1)
  }

  /** The low k bits of v. */
  function Low(v: nat, k: nat): (r: nat)
    ensures r < Pow2(k)
  {
    if k == 0 then 0 else v % 2 + 2 * Low(v / 2, k - 1)
  }

  /** The w bits of n from position p on. */
  function Extract(n: nat, p: nat, w: nat): nat {
    Low(Shr(n, p), w)
  }

  function Bit(n: nat, i: nat): (b: nat)
    ensures b == 0 || b == 1
  {
    Shr(n, i) % 2
  }

  /** The bitwise operators on words, as operations on their values. */
  function Or(a: nat, b: nat): nat {
    if a == 0 then b
    else if b == 0 then a
    else 2 * Or(a / 2, b / 2) + if a % 2 == 1 || b % 2 == 1 then 1 else 0
  }

  function And(a: nat, b: nat): nat {
    if a == 0 || b == 0 then 0
    else 2 * And(a / 2, b / 2) + if a % 2 == 1 && b % 2 == 1 then 1 else 0
  }

  // ----- what shifting and masking mean -----

  lemma {:induction false} ShlIsProduct(v: nat, k: nat)
    ensures Shl(v, k) == v * Pow2(k)
  {
    if k > 0 {
      ShlIsProduct(v, k - 1);
      Double(v, Pow2(k - 1));
    }
  }

  lemma {:induction false} Double(v: int, p: int)
    ensures v * (2 * p) == 2 * (v * p)
  {
  }

  /** v splits at bit k. */
  lemma {:induction false} SplitAtBit(v: nat, k: nat)
    ensures v == Low(v, k) + Shl(Shr(v, k), k)
  {
    if k > 0 {
      SplitAtBit(v / 2, k - 1);
    }
  }

  lemma {:induction false} DivModUnique(n: int, d: int, q: int, r: int)
    requires 0 <= r < d && n == q * d + r
    ensures n / d == q && n % d == r
  {
    var q' := n / d;
    assert n == q' * d + n % d;
    if q' < q {
      AtLeastOnce(q - q', d);
      Subtract(q, q', d);
    } else if q < q' {
      AtLeastOnce(q' - q, d);
      Subtract(q', q, d);
    }
  }

  lemma {:induction false} Subtract(a: int, b: int, d: int)
    ensures (a - b) * d == a * d - b * d
  {
  }

  lemma {:induction false} AtLeastOnce(a: int, d: int)
    requires 1 <= a && 0 <= d
    ensures a * d >= d
  {
    assert (a - 1) * d >= 0;
    assert a * d == (a - 1) * d + d;
  }

  lemma {:induction false} ShrIsQuotient(v: nat, k: nat)
    ensures Shr(v, k) == v / Pow2(k)
    ensures Low(v, k) == v % Pow2(k)
  {
    SplitAtBit(v, k);
    ShlIsProduct(Shr(v, k), k);
    DivModUnique(v, Pow2(k), Shr(v, k), Low(v, k));
  }

  // ----- laws -----

  lemma {:induction false} ShrAdd(v: nat, a: nat, b: nat)
    ensures Shr(v, a + b) == Shr(Shr(v, a), b)
  {
    if a > 0 {
      ShrAdd(v / 2, a - 1, b);
    }
  }

  lemma {:induction false} ShlAdd(v: nat, a: nat, b: nat)
    ensures Shl(v, a + b) == Shl(Shl(v, a), b)
  {
    if b > 0 {
      ShlAdd(v, a, b - 1);
    }
  }

  lemma {:induction false} ShlSum(u: nat, v: nat, k: nat)
    ensures Shl(u + v, k) == Shl(u, k) + Shl(v, k)
  {
    if k > 0 {
      ShlSum(u, v, k - 1);
    }
  }

  lemma {:induction false} ShlZero(k: nat)
    ensures Shl(0, k) == 0
  {
    if k > 0 {
      ShlZero(k - 1);
    }
  }

  lemma {:induction false} ShlMonotone(u: nat, v: nat, k: nat)
    ensures u <= v <==> Shl(u, k) <= Shl(v, k)
  {
    if k > 0 {
      ShlMonotone(u, v, k - 1);
    }
  }

  lemma {:induction false} Pow2IsShl(k: nat)
    ensures Shl(1, k) == Pow2(k)
  {
    if k > 0 {
      Pow2IsShl(k - 1);
    }
  }

  /** The low a + b bits are the low a bits and, above them, the next b. */
  lemma {:induction false} LowAdd(v: nat, a: nat, b: nat)
    ensures Low(v, a + b) == Low(v, a) + Shl(Low(Shr(v, a), b), a)
  {
    if a > 0 {
      LowAdd(v / 2, a - 1, b);
    }
  }

  lemma {:induction false} LowOfSmall(v: nat, k: nat)
    ensures Low(v, k) <= v
    ensures Low(v, k) == v <==> v < Pow2(k)
  {
    if k > 0 {
      LowOfSmall(v / 2, k - 1);
    }
  }

  /** A word below 2^k followed by y: shifting by k leaves y. */
  lemma {:induction false} ShrOfShl(v: nat, y: nat, k: nat)
    requires v < Pow2(k)
    ensures Shr(v + Shl(y, k), k) == y
  {
    if k > 0 {
      assert (v + Shl(y, k)) / 2 == v / 2 + Shl(y, k - 1);
      ShrOfShl(v / 2, y, k - 1);
    }
  }

  lemma {:induction false} ShrOfSplit(v: nat, x: nat, y: nat, k: nat)
    requires v == x + Shl(y, k) && x < Pow2(k)
    ensures Shr(v, k) == y
  {
    ShrOfShl(x, y, k);
  }

  lemma {:induction false} LowIgnoresHigh(v: nat, y: nat, w: nat, q: nat)
    requires w <= q
    ensures Low(v + Shl(y, q), w) == Low(v, w)
  {
    if w > 0 {
      assert (v + Shl(y, q)) / 2 == v / 2 + Shl(y, q - 1);
      LowIgnoresHigh(v / 2, y, w - 1, q - 1);
    }
  }

  /** Bits from position q on do not show in the w bits from p on. */
  lemma {:induction false} ExtractIgnoresHigh(v: nat, y: nat, p: nat, w: nat, q: nat)
    requires p + w <= q
    ensures Extract(v + Shl(y, q), p, w) == Extract(v, p, w)
  {
    if p == 0 {
      LowIgnoresHigh(v, y, w, q);
    } else {
      assert (v + Shl(y, q)) / 2 == v / 2 + Shl(y, q - 1);
      ExtractIgnoresHigh(v / 2, y, p - 1, w, q - 1);
    }
  }

  /** Or-ing bits in above the highest set one is addition. */
  lemma {:induction false} OrDisjoint(a: nat, b: nat, k: nat)
    requires a < Pow2(k)
    ensures Or(a, Shl(b, k)) == a + Shl(b, k)
  {
    if k > 0 && a > 0 && Shl(b, k) > 0 {
      OrDisjoint(a / 2, b, k - 1);
    }
  }

  lemma {:induction false} BitOfHalf(n: nat, i: nat)
    requires 0 < i
    ensures Bit(n, i) == Bit(n / 2, i - 1)
  {
  }

  lemma {:induction false} BitOfZero(i: nat)
    ensures Bit(0, i) == 0
  {
    if i > 0 {
      BitOfZero(i - 1);
    }
  }

  lemma {:induction false} BitOfOr(a: nat, b: nat, i: nat)
    ensures Bit(Or(a, b), i) == if Bit(a, i) == 1 || Bit(b, i) == 1 then 1 else 0
  {
    BitOfZero(i);
    if i > 0 {
      OrHalf(a, b);
      BitOfOr(a / 2, b / 2, i - 1);
    }
  }

  lemma {:induction false} OrHalf(a: nat, b: nat)
    ensures Or(a, b) / 2 == Or(a / 2, b / 2)
  {
  }

  lemma {:induction false} BitOfOne(d: nat, i: nat)
    ensures Bit(Shl(1, d), i) == if i == d then 1 else 0
  {
    if i > 0 {
      if d > 0 {
        BitOfOne(d - 1, i - 1);
      } else {
        BitOfZero(i - 1);
      }
    }
  }

  lemma {:induction false} OrBound(a: nat, b: nat, k: nat)
    requires a < Pow2(k) && b < Pow2(k)
    ensures Or(a, b) < Pow2(k)
  {
    if k > 0 {
      OrBound(a / 2, b / 2, k - 1);
    }
  }

  /** Or works bit by bit, the lowest one apart. */
  lemma {:induction false} OrStep(a: nat, b: nat)
    ensures Or(a, b) == 2 * Or(a / 2, b / 2) + if a % 2 == 1 || b % 2 == 1 then 1 else 0
  {
  }

  lemma {:induction false} OrRegroups(a: nat, b: nat, c: nat)
    requires Or(Or(a / 2, b / 2), c / 2) == Or(a / 2, Or(b / 2, c / 2))
    ensures Or(Or(a, b), c) == Or(a, Or(b, c))
  {
    hide Or;
    OrStep(a, b);
    OrStep(b, c);
    OrStep(Or(a, b), c);
    OrStep(a, Or(b, c));
  }

  lemma {:induction false} OrAssociative(a: nat, b: nat, c: nat)
    ensures Or(Or(a, b), c) == Or(a, Or(b, c))
  {
    if a > 0 || b > 0 || c > 0 {
      OrAssociative(a / 2, b / 2, c / 2);
      OrRegroups(a, b, c);
    }
  }

  lemma {:induction false} AtZero(v: nat)
    ensures Shl(v, 0) == v && Or(v, 0) == v
  {
  }

  lemma {:induction false} OrOfHalves(a: nat, b: nat, c: nat, d: nat)
    ensures Or(a + 2 * b, c + 2 * d) == 2 * Or(a / 2 + b, c / 2 + d) + if a % 2 == 1 || c % 2 == 1 then 1 else 0
  {
    hide Or;
    OrStep(a + 2 * b, c + 2 * d);
    assert (a + 2 * b) / 2 == a / 2 + b && (c + 2 * d) / 2 == c / 2 + d;
  }

  /** Or of integers split at the same bit is done on either side of it. */
  lemma {:induction false} OrSplit(a: nat, b: nat, c: nat, d: nat, k: nat)
    requires a < Pow2(k) && c < Pow2(k)
    ensures Or(a + Shl(b, k), c + Shl(d, k)) == Or(a, c) + Shl(Or(b, d), k)
  {
    hide Or;
    if k == 0 {
      AtZero(0);
    } else {
      OrSplit(a / 2, b, c / 2, d, k - 1);
      OrOfHalves(a, Shl(b, k - 1), c, Shl(d, k - 1));
      OrStep(a, c);
    }
  }

  /** Masking with k ones keeps the low k bits. */
  lemma {:induction false} AndMask(v: nat, k: nat)
    ensures And(v, Pow2(k) - 1) == Low(v, k)
  {
    if k > 0 {
      AndMask(v / 2, k - 1);
      if v == 0 {
        LowOfSmall(0, k);
      }
    }
  }

  // ----- slices -----

  lemma {:induction false} SliceOfSlice<T>(s: seq<T>, a: nat, n: nat, b: nat, m: nat)
    requires a + n <= |s| && b + m <= n
    ensures s[a..a + n][b..b + m] == s[a + b..a + b + m]
  {
    var t := s[a..a + n];
    var u, v := t[b..b + m], s[a + b..a + b + m];
    forall k | 0 <= k < m ensures u[k] == v[k] {
      assert t[b + k] == s[a + b + k];
    }
  }

  lemma {:induction false} SliceWithin<T>(s: seq<T>, o: nat, region: seq<T>, at: nat, part: seq<T>)
    requires o + |region| <= |s| && s[o..o + |region|] == region
    requires at + |part| <= |region| && region[at..at + |part|] == part
    ensures s[o + at..o + at + |part|] == part
  {
    SliceOfSlice(s, o, |region|, at, |part|);
  }

  // ----- little-endian integers -----

  type byte = x: int | 0 <= x < 256

  function LeValue(s: seq<byte>): nat {
    if s == [] then 0 else s[0] + 256 * LeValue(s[1..])
  }

  lemma {:induction false} ShlByte(v: nat, k: nat)
    ensures Shl(v, k + 8) == 256 * Shl(v, k)
  {
    assert Shl(v, k + 2) == 2 * Shl(v, k + 1) == 4 * Shl(v, k);
    assert Shl(v, k + 4) == 2 * Shl(v, k + 3) == 4 * Shl(v, k + 2);
    assert Shl(v, k + 6) == 2 * Shl(v, k + 5) == 4 * Shl(v, k + 4);
    assert Shl(v, k + 8) == 2 * Shl(v, k + 7) == 4 * Shl(v, k + 6);
  }

  lemma {:induction false} Pow2Byte(k: nat)
    ensures Pow2(k + 8) == 256 * Pow2(k)
  {
    assert Pow2(k + 2) == 2 * Pow2(k + 1) == 4 * Pow2(k);
    assert Pow2(k + 4) == 2 * Pow2(k + 3) == 4 * Pow2(k + 2);
    assert Pow2(k + 6) == 2 * Pow2(k + 5) == 4 * Pow2(k + 4);
    assert Pow2(k + 8) == 2 * Pow2(k + 7) == 4 * Pow2(k + 6);
  }

  lemma {:induction false} LeConcat(a: seq<byte>, b: seq<byte>)
    ensures LeValue(a + b) == LeValue(a) + Shl(LeValue(b), 8 * |a|)
  {
    if a == [] {
      assert a + b == b;
    } else {
      assert (a + b)[1..] == a[1..] + b;
      LeConcat(a[1..], b);
      ShlByte(LeValue(b), 8 * |a[1..]|);
    }
  }

  lemma {:induction false} LeBound(s: seq<byte>)
    ensures LeValue(s) < Pow2(8 * |s|)
  {
    if s != [] {
      LeBound(s[1..]);
      Pow2Byte(8 * |s[1..]|);
    }
  }

  /** The value of s split before byte i. */
  lemma {:induction false} LeSplit(s: seq<byte>, i: nat)
    requires i <= |s|
    ensures LeValue(s) == LeValue(s[..i]) + Shl(LeValue(s[i..]), 8 * i)
    ensures LeValue(s[..i]) < Pow2(8 * i)
  {
    assert s == s[..i] + s[i..];
    LeConcat(s[..i], s[i..]);
    LeBound(s[..i]);
  }

  lemma {:induction false} LeHead(s: seq<byte>, i: nat)
    requires i < |s|
    ensures LeValue(s[i..]) == s[i] + 256 * LeValue(s[i+1..])
  {
    assert s[i..][1..] == s[i+1..];
  }

  /** Adding to one byte adds to the value. */
  lemma {:induction false} LeUpdate(s: seq<byte>, i: nat, more: nat)
    requires i < |s| && s[i] + more < 256
    ensures LeValue(s[i := s[i] + more]) == LeValue(s) + Shl(more, 8 * i)
  {
    var t := s[i := s[i] + more];
    LeSplit(s, i);
    LeSplit(t, i);
    LeHead(s, i);
    LeHead(t, i);
    assert t[..i] == s[..i] && t[i+1..] == s[i+1..];
    ShlSum(LeValue(s[i..]), more, 8 * i);
  }

  lemma {:induction false} LeShift(s: seq<byte>, i: nat)
    requires i < |s|
    ensures Shr(LeValue(s), 8 * i) == LeValue(s[i..])
  {
    LeSplit(s, i);
    ShrOfSplit(LeValue(s), LeValue(s[..i]), LeValue(s[i..]), 8 * i);
  }

  lemma {:induction false} ShrBelow(v: nat, a: nat, b: nat)
    requires v < Pow2(a + b)
    ensures Shr(v, a) < Pow2(b)
  {
    if a > 0 {
      ShrBelow(v / 2, a - 1, b);
    }
  }

  /** An integer below 2^(8i+off) has only its low off bits set in byte i. */
  lemma {:induction false} LeTopByte(s: seq<byte>, i: nat, off: nat)
    requires i < |s| && LeValue(s) < Pow2(8 * i + off)
    ensures s[i] < Pow2(off)
  {
    LeShift(s, i);
    LeHead(s, i);
    ShrBelow(LeValue(s), 8 * i, off);
  }

  /** Or-ing into one byte or's into the value. */
  lemma {:induction false} LeOr(s: seq<byte>, i: nat, more: nat)
    requires i < |s| && more < 256
    ensures Or(s[i], more) < 256
    ensures LeValue(s[i := Or(s[i], more)]) == Or(LeValue(s), Shl(more, 8 * i))
  {
    hide Or, Shl;
    ByteOr(s[i], more);
    var t := s[i := Or(s[i], more)];
    ShlByte(LeValue(s[1..]), 0);
    if i == 0 {
      AtZero(more);
      AtZero(LeValue(s[1..]));
      OrOverByte(s[0], LeValue(s[1..]), more, 0);
      assert t[1..] == s[1..];
    } else {
      LeOr(s[1..], i - 1, more);
      ShlByte(more, 8 * (i - 1));
      AtZero(s[0]);
      OrOverByte(s[0], LeValue(s[1..]), 0, Shl(more, 8 * (i - 1)));
      assert t[1..] == s[1..][i - 1 := Or(s[i], more)];
    }
  }

  lemma {:induction false} ByteOr(b: byte, more: nat)
    requires more < 256
    ensures Or(b, more) < 256
  {
    Pow2Byte(0);
    OrBound(b, more, 8);
  }

  lemma {:induction false} OrOverByte(a: byte, b: nat, c: byte, d: nat)
    ensures Or(a + 256 * b, c + 256 * d) == Or(a, c) + 256 * Or(b, d)
  {
    Pow2Byte(0);
    OrSplit(a, b, c, d, 8);
    ShlByte(b, 0);
    ShlByte(d, 0);
    ShlByte(Or(b, d), 0);
  }

  /** Bits read inside one byte are bits of the whole integer. */
  lemma {:induction false} LeExtractInByte(s: seq<byte>, i: nat, off: nat, t: nat)
    requires i < |s| && off + t <= 8
    ensures Extract(LeValue(s), 8 * i + off, t) == Extract(s[i], off, t)
  {
    LeShift(s, i);
    LeHead(s, i);
    ShrAdd(LeValue(s), 8 * i, off);
    ExtractOfByte(LeValue(s[i..]), s[i], LeValue(s[i+1..]), off, t);
  }

  lemma {:induction false} ExtractOfByte(v: nat, b: byte, high: nat, off: nat, t: nat)
    requires v == b + 256 * high && off + t <= 8
    ensures Extract(v, off, t) == Extract(b, off, t)
  {
    ShlByte(high, 0);
    ExtractIgnoresHigh(b, high, off, t, 8);
  }

  /** The low n bytes of v, lowest first. */
  function LeBytes(v: nat, n: nat): (r: seq<byte>)
    ensures |r| == n
  {
    if n == 0 then [] else [v % 256] + LeBytes(v / 256, n - 1)
  }

  /** Reading back n little-endian bytes. */
  lemma {:induction false} LeRoundTrip(v: nat, n: nat)
    requires v < Pow2(8 * n)
    ensures LeValue(LeBytes(v, n)) == v
  {
    if n > 0 {
      Pow2Byte(8 * (n - 1));
      LeRoundTrip(v / 256, n - 1);
    }
  }

  lemma {:induction false} LowestByte(b: byte, v: nat)
    ensures (b + 256 * v) % 256 == b && (b + 256 * v) / 256 == v
  {
  }

  lemma {:induction false} LeBytesStep(v: nat, n: nat)
    requires 0 < n
    ensures LeBytes(v, n) == [v % 256] + LeBytes(v / 256, n - 1)
  {
  }

  lemma {:induction false} LeBytesValue(s: seq<byte>)
    ensures LeBytes(LeValue(s), |s|) == s
  {
    if s != [] {
      LeBytesValue(s[1..]);
      LowestByte(s[0], LeValue(s[1..]));
      LeBytesStep(LeValue(s), |s|);
    }
  }

  const UINT32_RANGE := 0x1_0000_0000

  /** The cast to a 32-bit unsigned integer. */
  function ToUInt32(n: int): nat {
    n % UINT32_RANGE
  }

  predicate FitsU32(v: nat) {
    v < UINT32_RANGE
  }

  predicate FitsU64(v: nat) {
    v < 0x1_0000_0000_0000_0000
  }

  lemma {:induction false} WordSizes()
    ensures Pow2(32) == 0x1_0000_0000
    ensures Pow2(64) == 0x1_0000_0000_0000_0000
  {
    HalfWord(0);
    HalfWord(16);
    HalfWord(32);
    HalfWord(48);
  }

  lemma {:induction false} HalfWord(k: nat)
    ensures Pow2(k + 16) == 65536 * Pow2(k)
  {
    Pow2Byte(k);
    Pow2Byte(k + 8);
  }

  lemma {:induction false} U32RoundTrip(v: nat)
    requires FitsU32(v)
    ensures LeValue(LeBytes(v, 4)) == v
  {
    WordSizes();
    LeRoundTrip(v, 4);
  }

  lemma {:induction false} U64RoundTrip(v: nat)
    requires FitsU64(v)
    ensures LeValue(LeBytes(v, 8)) == v
  {
    WordSizes();
    LeRoundTrip(v, 8);
  }
}
