/** Fixed-width LSB-first bit packing. */
module BitpackCodec {
  import opened Bits

  /** Bytes needed for count values of w bits each, in the 32-bit result type. */
  function EncodedSize(count: nat, w: nat): nat {
    ToUInt32((count * w + 7) / 8)
  }

  /** The buffer has a byte for every bit position the loops come to.  Positions are
      32-bit words as well, so they never pass 2^32. */
  predicate Roomy(bytes: nat, bits: nat) {
    bits <= 8 * bytes || UINT32_RANGE <= 8 * bytes
  }

  /** The size EncodedSize asks for is enough unless it wrapped itself. */
  lemma {:induction false} EncodedSizeIsRoomy(count: nat, w: nat)
    requires count * w + 7 < 8 * UINT32_RANGE
    ensures Roomy(EncodedSize(count, w), count * w)
  {
  }

  /** Until then it is the least number of bytes that holds them. */
  lemma {:induction false} EncodedSizeIsLeast(count: nat, w: nat)
    requires count * w + 7 < 8 * UINT32_RANGE
    ensures count * w <= 8 * EncodedSize(count, w) < count * w + 8
  {
  }

  /** The packed integer: the low w bits of value i, shifted to bit i * w. */
  function PackedSum(values: seq<nat>, w: nat): nat {
    if values == [] then 0
    else
      var n := |values| - 1;
      PackedSum(values[..n], w) + Shl(Low(values[n], w), n * w)
  }

  lemma {:induction false} NextPosition(i: nat, w: nat)
    ensures i * w + w == (i + 1) * w
  {
  }

  lemma {:induction false} PositionBefore(i: nat, n: nat, w: nat)
    requires i < n
    ensures i * w + w <= n * w
    decreases n
  {
    NextPosition(n - 1, w);
    if i < n - 1 {
      PositionBefore(i, n - 1, w);
    }
  }

  /** A value below 2^p with w more bits above it stays below 2^(p + w). */
  lemma {:induction false} AppendBits(v: nat, x: nat, p: nat, w: nat)
    requires v < Pow2(p) && x < Pow2(w)
    ensures v + Shl(x, p) < Pow2(p + w)
  {
    ShlMonotone(x, Pow2(w) - 1, p);
    ShlSum(Pow2(w) - 1, 1, p);
    Pow2IsShl(p);
    Pow2IsShl(w);
    ShlAdd(1, w, p);
    Pow2IsShl(w + p);
  }

  lemma {:induction false} PackedBound(values: seq<nat>, w: nat)
    ensures PackedSum(values, w) < Pow2(|values| * w)
  {
    if values != [] {
      var n := |values| - 1;
      PackedBound(values[..n], w);
      AppendBits(PackedSum(values[..n], w), Low(values[n], w), n * w, w);
      NextPosition(n, w);
    }
  }

  /** Reading w bits at i * w of the packed integer gives value i back, reduced to
      w bits. */
  lemma {:induction false} ReadPacked(values: seq<nat>, w: nat, i: nat)
    requires i < |values|
    ensures Extract(PackedSum(values, w), i * w, w) == Low(values[i], w)
  {
    var n := |values| - 1;
    var init := values[..n];
    PackedBound(init, w);
    if i == n {
      ShrOfSplit(PackedSum(values, w), PackedSum(init, w), Low(values[n], w), n * w);
      LowOfSmall(Low(values[n], w), w);
    } else {
      ReadPacked(init, w, i);
      PositionBefore(i, n, w);
      ExtractIgnoresHigh(PackedSum(init, w), Low(values[n], w), i * w, w, n * w);
    }
  }

  // ----- what the loops compute, with bit positions modulo 2^32 -----

  /** The low w bits of value or'ed into acc from bit pos on. */
  function OrBits(acc: nat, value: nat, pos: nat, w: nat): nat {
    if w == 0 then acc else Or(OrBits(acc, value, pos, w - 1), Shl(Bit(value, w - 1), ToUInt32(pos + (w - 1))))
  }

  /** The integer the packed bytes hold, for any number of values. */
  function PackedWord(values: seq<nat>, w: nat): nat {
    if values == [] then 0
    else
      var n := |values| - 1;
      OrBits(PackedWord(values[..n], w), values[n], n * w, w)
  }

  /** The w bits of v from bit pos on. */
  function Gathered(v: nat, pos: nat, w: nat): (r: nat)
    ensures r < Pow2(w)
  {
    if w == 0 then 0
    else
      AppendBits(Gathered(v, pos, w - 1), Bit(v, ToUInt32(pos + (w - 1))), w - 1, 1);
      Gathered(v, pos, w - 1) + Shl(Bit(v, ToUInt32(pos + (w - 1))), w - 1)
  }

  lemma {:induction false} WrapAgain(pos: nat, n: nat)
    ensures ToUInt32(ToUInt32(pos) + n) == ToUInt32(pos + n)
  {
  }

  lemma {:induction false} OrBitsFrom(acc: nat, value: nat, pos: nat, w: nat)
    ensures OrBits(acc, value, ToUInt32(pos), w) == OrBits(acc, value, pos, w)
  {
    hide Or, Shl, Bit, ToUInt32;
    if w > 0 {
      WrapAgain(pos, w - 1);
      OrBitsFrom(acc, value, pos, w - 1);
    }
  }

  lemma {:induction false} GatheredFrom(v: nat, pos: nat, w: nat)
    ensures Gathered(v, ToUInt32(pos), w) == Gathered(v, pos, w)
  {
    hide Shl, Bit, ToUInt32;
    if w > 0 {
      WrapAgain(pos, w - 1);
      GatheredFrom(v, pos, w - 1);
    }
  }

  /** Bit t of value i is set and lands on bit b. */
  predicate Lands(values: seq<nat>, w: nat, i: nat, t: nat, b: nat) {
    i < |values| && t < w && ToUInt32(i * w + t) == b && Bit(values[i], t) == 1
  }

  lemma {:induction false} BitOfShl(c: nat, k: nat, b: nat)
    requires c == 0 || c == 1
    ensures Bit(Shl(c, k), b) == if c == 1 && b == k then 1 else 0
  {
    if c == 1 {
      BitOfOne(k, b);
    } else {
      ShlZero(k);
      BitOfZero(b);
    }
  }

  lemma {:induction false} BitOfOrBits(acc: nat, value: nat, pos: nat, w: nat, b: nat)
    ensures Bit(OrBits(acc, value, pos, w), b) == 1 <==>
      Bit(acc, b) == 1 || exists t :: 0 <= t < w && ToUInt32(pos + t) == b && Bit(value, t) == 1
  {
    hide Or, Shl, Bit, ToUInt32;
    if w > 0 {
      BitOfOrBits(acc, value, pos, w - 1, b);
      BitOfOr(OrBits(acc, value, pos, w - 1), Shl(Bit(value, w - 1), ToUInt32(pos + (w - 1))), b);
      BitOfShl(Bit(value, w - 1), ToUInt32(pos + (w - 1)), b);
    }
  }

  /** A packed bit is set exactly when a set bit of some value lands on it. */
  lemma {:induction false} PackedBit(values: seq<nat>, w: nat, b: nat)
    ensures Bit(PackedWord(values, w), b) == 1 <==> exists i, t :: Lands(values, w, i, t, b)
  {
    hide OrBits, Bit, ToUInt32;
    if values == [] {
      BitOfZero(b);
    } else {
      var n := |values| - 1;
      PackedBit(values[..n], w, b);
      BitOfOrBits(PackedWord(values[..n], w), values[n], n * w, w, b);
      forall i: nat, t: nat | Lands(values[..n], w, i, t, b) ensures Lands(values, w, i, t, b) {
      }
      forall t: nat | t < w && ToUInt32(n * w + t) == b && Bit(values[n], t) == 1 ensures Lands(values, w, n, t, b) {
      }
      if i: nat, t: nat :| Lands(values, w, i, t, b) {
        assert i < n ==> Lands(values[..n], w, i, t, b);
      }
    }
  }

  // ----- up to 2^32 bits that is packing -----

  lemma {:induction false} OneBit(v: nat, k: nat)
    ensures Extract(v, k, 1) == Bit(v, k)
    ensures Low(v, k + 1) == Low(v, k) + Shl(Bit(v, k), k)
  {
    LowAdd(v, k, 1);
  }

  lemma {:induction false} OrBitsAdds(acc: nat, value: nat, pos: nat, w: nat)
    requires acc < Pow2(pos) && pos + w <= UINT32_RANGE
    ensures OrBits(acc, value, pos, w) == acc + Shl(Low(value, w), pos)
  {
    hide Or, Shl, Low, Pow2, Bit;
    if w == 0 {
      NothingWritten(value, pos);
    } else {
      OrBitsAdds(acc, value, pos, w - 1);
      AppendBits(acc, Low(value, w - 1), pos, w - 1);
      OrDisjoint(acc + Shl(Low(value, w - 1), pos), Bit(value, w - 1), pos + w - 1);
      OneBit(value, w - 1);
      ShlSum(Low(value, w - 1), Shl(Bit(value, w - 1), w - 1), pos);
      ShlAdd(Bit(value, w - 1), w - 1, pos);
    }
  }

  lemma {:induction false} PackedIsSum(values: seq<nat>, w: nat)
    requires |values| * w <= UINT32_RANGE
    ensures PackedWord(values, w) == PackedSum(values, w)
  {
    hide OrBits, Shl, Low, Pow2;
    if values != [] {
      var n := |values| - 1;
      NextPosition(n, w);
      PackedIsSum(values[..n], w);
      PackedBound(values[..n], w);
      OrBitsAdds(PackedSum(values[..n], w), values[n], n * w, w);
    }
  }

  lemma {:induction false} GatheredIsExtract(v: nat, pos: nat, w: nat)
    requires pos + w <= UINT32_RANGE
    ensures Gathered(v, pos, w) == Extract(v, pos, w)
  {
    hide Shl, Bit, Extract, Gathered, Pow2;
    if w == 0 {
      NothingExtracted(v, pos);
    } else {
      GatheredIsExtract(v, pos, w - 1);
      GatheredStep(v, pos, w);
      NextBits(v, pos, w - 1, 1);
      OneBit(v, pos + w - 1);
    }
  }

  /** Decoding what was encoded gives every value back, cut to w bits. */
  ghost predicate ReadsBack(values: seq<nat>, w: nat) {
    forall i :: 0 <= i < |values| ==> Gathered(PackedWord(values, w), i * w, w) == Low(values[i], w)
  }

  lemma {:induction false} SumReadsBack(values: seq<nat>, w: nat)
    requires |values| * w <= UINT32_RANGE
    ensures ReadsBack(values, w)
  {
    hide PackedWord, PackedSum, Gathered, Extract, Low;
    PackedIsSum(values, w);
    forall i | 0 <= i < |values| ensures Gathered(PackedWord(values, w), i * w, w) == Low(values[i], w) {
      PositionBefore(i, |values|, w);
      GatheredIsExtract(PackedWord(values, w), i * w, w);
      ReadPacked(values, w, i);
    }
  }

  // ----- beyond that it is not -----

  /** All zero but for bit t of value k. */
  function Lone(n: nat, k: nat, t: nat): (r: seq<nat>)
    ensures |r| == n
  {
    seq(n, i => if i == k then Pow2(t) else 0)
  }

  /** The value and the bit of it that bit position 2^32 belongs to. */
  lemma {:induction false} WrappingBit(n: nat, w: nat) returns (k: nat, t: nat)
    requires 0 < w <= 32 && UINT32_RANGE < n * w
    ensures 0 < k < n && t < w && k * w + t == UINT32_RANGE
  {
    k, t := UINT32_RANGE / w, UINT32_RANGE % w;
    assert k * w + t == UINT32_RANGE;
    if n <= k {
      Scaled(n, k, w);
    }
  }

  lemma {:induction false} Scaled(a: nat, b: nat, w: nat)
    requires a <= b
    ensures a * w <= b * w
  {
  }

  /** One set bit at position 2^32 shows at bit 0, which belongs to value 0. */
  lemma {:induction false} LoneWraps(n: nat, w: nat) returns (values: seq<nat>)
    requires 0 < w <= 32 && UINT32_RANGE < n * w
    ensures |values| == n && AllBelow(values, UINT32_RANGE) && values[0] == 0
    ensures Bit(PackedWord(values, w), 0) == 1
  {
    var k, t := WrappingBit(n, w);
    values := Lone(n, k, t);
    Pow2Monotone(t + 1, 32);
    WordSizes();
    Pow2IsShl(t);
    BitOfOne(t, t);
    PackedBit(values, w, 0);
    assert Lands(values, w, k, t, 0);
  }

  /** Encoding is the sum of the shifted values, for every list of n words, if and only
      if their bits fit 32-bit positions. */
  lemma {:induction false} PacksExactly(n: nat, w: nat)
    requires w <= 32
    ensures (forall values: seq<nat> :: |values| == n && AllBelow(values, UINT32_RANGE) ==>
        PackedWord(values, w) == PackedSum(values, w))
      <==> n * w <= UINT32_RANGE
  {
    if n * w <= UINT32_RANGE {
      forall values: seq<nat> | |values| == n ensures PackedWord(values, w) == PackedSum(values, w) {
        PackedIsSum(values, w);
      }
    } else if w > 0 {
      var values := LoneWraps(n, w);
      ReadPacked(values, w, 0);
      FirstBitClear(PackedSum(values, w), w);
    }
  }

  lemma {:induction false} FirstBitClear(v: nat, w: nat)
    requires 0 < w && Extract(v, 0, w) == Low(0, w)
    ensures Bit(v, 0) == 0
  {
    LowOfSmall(0, w);
  }

  /** Decoding gives back every list of n words, each cut to w bits, if and only if their
      bits fit 32-bit positions. */
  lemma {:induction false} ReadsBackExactly(n: nat, w: nat)
    requires w <= 32
    ensures (forall values: seq<nat> :: |values| == n && AllBelow(values, UINT32_RANGE) ==> ReadsBack(values, w))
      <==> n * w <= UINT32_RANGE
  {
    if n * w <= UINT32_RANGE {
      forall values: seq<nat> | |values| == n ensures ReadsBack(values, w) {
        SumReadsBack(values, w);
      }
    } else if w > 0 {
      var values := LoneWraps(n, w);
      FirstBitGathered(PackedWord(values, w), w);
      LowOfSmall(0, w);
      assert Gathered(PackedWord(values, w), 0 * w, w) != Low(values[0], w);
    }
  }

  lemma {:induction false} FirstBitGathered(v: nat, w: nat)
    requires 0 < w && Bit(v, 0) == 1
    ensures Gathered(v, 0, w) > 0
  {
    if w > 1 {
      FirstBitGathered(v, w - 1);
    }
  }

  // ----- choosing a width -----

  predicate AllBelow(values: seq<nat>, bound: nat) {
    forall i :: 0 <= i < |values| ==> values[i] < bound
  }

  /** One bit when there is nothing to pack; zero, meaning "store raw", exactly when some
      value exceeds the threshold; otherwise the least positive width that holds every
      value. */
  ghost predicate MinWidth(values: seq<nat>, maxPackable: nat, bits: nat) {
    && (values == [] ==> bits == 1)
    && (values != [] ==> (bits == 0 <==> exists i :: 0 <= i < |values| && values[i] > maxPackable))
    && (bits != 0 ==> AllBelow(values, Pow2(bits)))
    && (forall w :: 1 <= w < bits ==> !AllBelow(values, Pow2(w)))
  }

  method ComputeMinBitWidth(values: seq<nat>, maxPackable: nat) returns (bits: nat)
    ensures MinWidth(values, maxPackable, bits)
  {
    if |values| == 0 {
      return 1;
    }
    var maxVal := 0;
    for i := 0 to |values|
      invariant forall j :: 0 <= j < i ==> values[j] <= maxVal
      invariant maxVal == 0 || maxVal in values[..i]
    {
      if values[i] > maxVal {
        maxVal := values[i];
      }
    }
    assert values[..|values|] == values;
    if maxVal > maxPackable {
      var i :| 0 <= i < |values| && values[i] == maxVal;
      return 0;
    }
    if maxVal == 0 {
      return 1;
    }
    bits := 0;
    var shifted := maxVal;
    while shifted != 0
      invariant shifted == Shr(maxVal, bits)
      invariant bits > 0 ==> Shr(maxVal, bits - 1) != 0
      decreases shifted
    {
      ShrAdd(maxVal, bits, 1);
      shifted := shifted / 2;
      bits := bits + 1;
    }
    ShrZero(maxVal, bits);
    forall w | 1 <= w < bits ensures !AllBelow(values, Pow2(w)) {
      ShrZero(maxVal, bits - 1);
      Pow2Monotone(w, bits - 1);
      var i :| 0 <= i < |values| && values[i] == maxVal;
    }
  }

  /** With the default threshold of 256 the width is at most eight bits, unless the
      largest value is exactly 256, which takes nine. */
  lemma {:induction false} DefaultThreshold(values: seq<nat>, bits: nat)
    requires MinWidth(values, 256, bits)
    ensures bits == 9 || bits <= 8
    ensures bits == 9 <==> 256 in values && forall i :: 0 <= i < |values| ==> values[i] <= 256
  {
    assert Pow2(8) == 256 by {
      Pow2Byte(0);
    }
    assert Pow2(9) == 512;
    if bits != 0 && values != [] {
      assert forall i :: 0 <= i < |values| ==> values[i] <= 256;
      assert AllBelow(values, Pow2(9));
      if 256 in values {
        forall w | 1 <= w <= 8 ensures !AllBelow(values, Pow2(w)) {
          Pow2Monotone(w, 8);
        }
      } else {
        assert AllBelow(values, Pow2(8));
      }
    }
  }

  lemma {:induction false} ShrZero(v: nat, k: nat)
    ensures Shr(v, k) == 0 <==> v < Pow2(k)
  {
    if k > 0 {
      ShrZero(v / 2, k - 1);
    }
  }

  lemma {:induction false} Pow2Monotone(a: nat, b: nat)
    requires a <= b
    ensures Pow2(a) <= Pow2(b)
  {
    if a < b {
      Pow2Monotone(a, b - 1);
    }
  }

  // ----- packing -----

  /** A byte with the low n bits of val or'ed in from bit off on. */
  function WithChunk(b: byte, val: nat, off: nat, n: nat): nat {
    Or(b, Shl(And(val, Pow2(n) - 1), off) % 256)
  }

  /** Writing a chunk at bit cur or's it into the whole integer. */
  lemma {:induction false} ChunkWritten(s: seq<byte>, val: nat, cur: nat, n: nat)
    requires cur / 8 < |s| && n <= 8 - cur % 8
    ensures WithChunk(s[cur / 8], val, cur % 8, n) < 256
    ensures LeValue(s[cur / 8 := WithChunk(s[cur / 8], val, cur % 8, n)]) == Or(LeValue(s), Shl(Low(val, n), cur))
  {
    hide LeValue, Or, And, Shl, Low, Pow2;
    var i, off := cur / 8, cur % 8;
    AndMask(val, n);
    ChunkFits(Low(val, n), off, n);
    LeOr(s, i, Shl(Low(val, n), off));
    ShlAdd(Low(val, n), off, 8 * i);
  }

  /** One byte-sized step: or's the low n bits of val in at bit cur. */
  method WriteChunk(packed: array<byte>, val: nat, cur: nat, n: nat)
    requires cur / 8 < packed.Length && 1 <= n <= 8 - cur % 8
    modifies packed
    ensures LeValue(packed[..]) == Or(old(LeValue(packed[..])), Shl(Low(val, n), cur))
  {
    hide LeValue, Or, Shl, Low, WithChunk;
    var byteIdx, bitOff := cur / 8, cur % 8;
    ghost var before := packed[..];
    ChunkWritten(before, val, cur, n);
    packed[byteIdx] := WithChunk(packed[byteIdx], val, bitOff, n);
    assert packed[..] == before[byteIdx := WithChunk(before[byteIdx], val, bitOff, n)];
  }

  lemma {:induction false} ChunkFits(x: nat, off: nat, n: nat)
    requires x < Pow2(n) && off + n <= 8
    ensures Shl(x, off) < 256
  {
    AppendBits(0, x, off, n);
    Pow2Monotone(off + n, 8);
    Pow2Byte(0);
  }

  lemma {:induction false} NothingWritten(value: nat, pos: nat)
    ensures Shr(value, 0) == value && Shl(Low(value, 0), pos) == 0
  {
    ShlZero(pos);
  }

  /** The inner loop: or's the low w bits of value in from bit pos on, as many bytes as it
      takes, the position wrapping at 2^32. */
  method PackValue(packed: array<byte>, value: nat, pos: nat, w: nat)
    requires FitsU32(pos) && Roomy(packed.Length, pos + w)
    modifies packed
    ensures LeValue(packed[..]) == OrBits(old(LeValue(packed[..])), value, pos, w)
  {
    hide LeValue, Or, OrBits, Shl, Shr, Low, Pow2, ToUInt32, Roomy;
    var val, bitsRemaining, cur := value, w, pos;
    ghost var done, start := 0, LeValue(packed[..]);
    NothingDone(start, value, pos);
    while bitsRemaining > 0
      invariant done + bitsRemaining == w && cur == ToUInt32(pos + done)
      invariant val == Shr(value, done)
      invariant LeValue(packed[..]) == OrBits(start, value, pos, done)
      decreases bitsRemaining
    {
      var toWrite := ChunkSize(cur, bitsRemaining);
      InBuffer(packed.Length, pos, done, w);
      WriteChunk(packed, val, cur, toWrite);
      WrapAgain(pos + done, toWrite);
      ChunkLaw(start, value, pos, done, toWrite);
      ShrAdd(value, done, toWrite);
      val := Shr(val, toWrite);
      cur := ToUInt32(cur + toWrite);
      bitsRemaining := bitsRemaining - toWrite;
      done := done + toWrite;
    }
  }

  lemma {:induction false} NothingDone(acc: nat, value: nat, pos: nat)
    requires FitsU32(pos)
    ensures ToUInt32(pos) == pos && Shr(value, 0) == value && OrBits(acc, value, pos, 0) == acc
  {
  }

  /** As many bits as are left, but no more than the byte at cur has room for. */
  function ChunkSize(cur: nat, left: nat): (n: nat)
    ensures left > 0 ==> 1 <= n <= left && n <= 8 - cur % 8
  {
    var space := 8 - cur % 8;
    if space < left then space else left
  }

  /** The byte of a bit that is still to come. */
  lemma {:induction false} InBuffer(bytes: nat, pos: nat, done: nat, w: nat)
    requires Roomy(bytes, pos + w) && done < w
    ensures ToUInt32(pos + done) / 8 < bytes
  {
  }

  /** A chunk inside one byte, wherever the position wrapped to, is the next n bits. */
  lemma {:induction false} ChunkLaw(acc: nat, value: nat, pos: nat, done: nat, n: nat)
    requires ToUInt32(pos + done) % 8 + n <= 8
    ensures Or(OrBits(acc, value, pos, done), Shl(Low(Shr(value, done), n), ToUInt32(pos + done)))
      == OrBits(acc, value, pos, done + n)
  {
    hide Or, OrBits, Shl, Shr, Low, Pow2, Bit, ToUInt32;
    var before, cur, x := OrBits(acc, value, pos, done), ToUInt32(pos + done), Shr(value, done);
    if n == 0 {
      OrNothing(before, x, cur);
    } else {
      ChunkLaw(acc, value, pos, done, n - 1);
      NextInByte(pos + done, n - 1);
      OneMoreBit(x, cur, n - 1);
      BitAbove(value, done, n - 1);
      OrAssociative(before, Shl(Low(x, n - 1), cur), Shl(Bit(x, n - 1), cur + (n - 1)));
      OrBitsStep(acc, value, pos, done + n);
    }
  }

  lemma {:induction false} OrBitsStep(acc: nat, value: nat, pos: nat, w: nat)
    requires 0 < w
    ensures OrBits(acc, value, pos, w) == Or(OrBits(acc, value, pos, w - 1), Shl(Bit(value, w - 1), ToUInt32(pos + (w - 1))))
  {
  }

  lemma {:induction false} OrNothing(acc: nat, x: nat, cur: nat)
    ensures Or(acc, Shl(Low(x, 0), cur)) == acc
  {
    ShlZero(cur);
  }

  lemma {:induction false} NextInByte(p: nat, n: nat)
    requires ToUInt32(p) % 8 + n < 8
    ensures ToUInt32(p + n) == ToUInt32(p) + n
  {
  }

  lemma {:induction false} BitAbove(value: nat, done: nat, n: nat)
    ensures Bit(Shr(value, done), n) == Bit(value, done + n)
  {
    ShrAdd(value, done, n);
  }

  lemma {:induction false} OneMoreBit(x: nat, cur: nat, n: nat)
    ensures Shl(Low(x, n + 1), cur) == Or(Shl(Low(x, n), cur), Shl(Bit(x, n), cur + n))
  {
    hide Or, Shl, Low, Pow2, Bit;
    OneBit(x, n);
    ShlSum(Low(x, n), Shl(Bit(x, n), n), cur);
    ShlAdd(Bit(x, n), n, cur);
    AppendBits(0, Low(x, n), cur, n);
    OrDisjoint(Shl(Low(x, n), cur), Bit(x, n), cur + n);
  }

  lemma {:induction false} ZeroBytes(s: seq<byte>)
    requires forall i :: 0 <= i < |s| ==> s[i] == 0
    ensures LeValue(s) == 0
  {
    if s != [] {
      ZeroBytes(s[1..]);
    }
  }

  lemma {:induction false} StartsAtZero()
    ensures ToUInt32(0) == 0
  {
  }

  lemma {:induction false} RoomFor(bytes: nat, i: nat, n: nat, w: nat)
    requires i < n && Roomy(bytes, n * w)
    ensures FitsU32(ToUInt32(i * w)) && Roomy(bytes, ToUInt32(i * w) + w)
  {
    PositionBefore(i, n, w);
  }

  /** The packed bytes hold the low w bits of every value, or'ed in at bit i * w modulo
      2^32.  The size must not have wrapped below what is written. */
  method Encode(values: seq<nat>, w: nat) returns (packed: array<byte>)
    requires Roomy(EncodedSize(|values|, w), |values| * w)
    ensures fresh(packed) && packed.Length == EncodedSize(|values|, w)
    ensures LeValue(packed[..]) == PackedWord(values, w)
  {
    hide LeValue, OrBits, ToUInt32, Roomy;
    StartsAtZero();
    packed := new byte[EncodedSize(|values|, w)](i => 0);
    ZeroBytes(packed[..]);
    var bitPos := 0;
    for i := 0 to |values|
      invariant bitPos == ToUInt32(i * w)
      invariant LeValue(packed[..]) == PackedWord(values[..i], w)
    {
      RoomFor(packed.Length, i, |values|, w);
      PackValue(packed, values[i], bitPos, w);
      OrBitsFrom(PackedWord(values[..i], w), values[i], i * w, w);
      assert values[..i+1][..i] == values[..i];
      NextPosition(i, w);
      WrapAgain(i * w, w);
      bitPos := ToUInt32(bitPos + w);
    }
    assert values[..|values|] == values;
  }

  // ----- unpacking -----

  /** The scalar reader's inner loop: w bits from bit pos on, the position wrapping at
      2^32. */
  method UnpackValue(packed: seq<byte>, pos: nat, w: nat) returns (val: nat)
    requires FitsU32(pos) && Roomy(|packed|, pos + w)
    ensures val == Gathered(LeValue(packed), pos, w)
  {
    hide LeValue, Or, And, Shl, Shr, Pow2, Gathered, ToUInt32, Roomy;
    var bitsRead, cur := 0, pos;
    val := 0;
    NothingGathered(LeValue(packed), pos);
    while bitsRead < w
      invariant 0 <= bitsRead <= w && cur == ToUInt32(pos + bitsRead)
      invariant val == Gathered(LeValue(packed), pos, bitsRead)
    {
      var toRead := ChunkSize(cur, w - bitsRead);
      InBuffer(|packed|, pos, bitsRead, w);
      var chunk := And(Shr(packed[cur / 8], cur % 8), Pow2(toRead) - 1);
      ChunkRead(packed, pos, bitsRead, toRead);
      val := Or(val, Shl(chunk, bitsRead));
      WrapAgain(pos + bitsRead, toRead);
      cur := ToUInt32(cur + toRead);
      bitsRead := bitsRead + toRead;
    }
  }

  lemma {:induction false} NothingGathered(v: nat, pos: nat)
    requires FitsU32(pos)
    ensures Gathered(v, pos, 0) == 0 && ToUInt32(pos) == pos
  {
  }

  /** Reading the next chunk extends the gathered value. */
  lemma {:induction false} ChunkRead(packed: seq<byte>, pos: nat, done: nat, n: nat)
    requires var cur := ToUInt32(pos + done); cur / 8 < |packed| && n <= 8 - cur % 8
    ensures var cur := ToUInt32(pos + done);
      Or(Gathered(LeValue(packed), pos, done), Shl(And(Shr(packed[cur / 8], cur % 8), Pow2(n) - 1), done))
        == Gathered(LeValue(packed), pos, done + n)
  {
    hide LeValue, Or, And, Shl, Shr, Pow2, Low;
    var cur := ToUInt32(pos + done);
    var b := Shr(packed[cur / 8], cur % 8);
    AndMask(b, n);
    LeExtractInByte(packed, cur / 8, cur % 8, n);
    GatherChunk(LeValue(packed), pos, done, n);
    OrDisjoint(Gathered(LeValue(packed), pos, done), Low(b, n), done);
  }

  /** A chunk inside one byte is the next n bits gathered. */
  lemma {:induction false} GatherChunk(v: nat, pos: nat, done: nat, n: nat)
    requires ToUInt32(pos + done) % 8 + n <= 8
    ensures Gathered(v, pos, done + n) == Gathered(v, pos, done) + Shl(Extract(v, ToUInt32(pos + done), n), done)
  {
    hide Shl, Bit, ToUInt32, Extract, Gathered;
    var cur := ToUInt32(pos + done);
    if n == 0 {
      NothingExtracted(v, cur);
      ShlZero(done);
    } else {
      GatherChunk(v, pos, done, n - 1);
      NextInByte(pos + done, n - 1);
      NextBits(v, cur, n - 1, 1);
      OneBit(v, cur + (n - 1));
      ShlSum(Extract(v, cur, n - 1), Shl(Bit(v, cur + (n - 1)), n - 1), done);
      ShlAdd(Bit(v, cur + (n - 1)), n - 1, done);
      GatheredStep(v, pos, done + n);
    }
  }

  lemma {:induction false} GatheredStep(v: nat, pos: nat, w: nat)
    requires 0 < w
    ensures Gathered(v, pos, w) == Gathered(v, pos, w - 1) + Shl(Bit(v, ToUInt32(pos + (w - 1))), w - 1)
  {
  }

  lemma {:induction false} NothingExtracted(v: nat, cur: nat)
    ensures Extract(v, cur, 0) == 0 && Gathered(v, cur, 0) == 0
  {
  }

  lemma {:induction false} NextBits(v: nat, pos: nat, done: nat, n: nat)
    ensures Extract(v, pos, done + n) == Extract(v, pos, done) + Shl(Extract(v, pos + done, n), done)
  {
    LowAdd(Shr(v, pos), done, n);
    ShrAdd(v, pos, done);
  }

  /** Decoding reads value i at bit i * w modulo 2^32.  Widths above 32 shift past the
      word. */
  method Decode(packed: seq<byte>, w: nat, count: nat) returns (out: seq<nat>)
    requires w <= 32 && Roomy(|packed|, count * w)
    ensures |out| == count
    ensures forall i :: 0 <= i < count ==> out[i] == Gathered(LeValue(packed), i * w, w)
  {
    hide LeValue, Gathered, And, Low, Pow2, ToUInt32, Roomy;
    StartsAtZero();
    out := [];
    var bitPos := 0;
    for i := 0 to count
      invariant bitPos == ToUInt32(i * w)
      invariant |out| == i
      invariant forall j :: 0 <= j < i ==> out[j] == Gathered(LeValue(packed), j * w, w)
    {
      RoomFor(|packed|, i, count, w);
      var val := UnpackValue(packed, bitPos, w);
      GatheredFrom(LeValue(packed), i * w, w);
      AndMask(val, w);
      LowOfSmall(val, w);
      out := out + [And(val, Pow2(w) - 1)];
      NextPosition(i, w);
      WrapAgain(i * w, w);
      bitPos := ToUInt32(bitPos + w);
    }
  }

  // ----- round trip -----

  /** Up to 2^32 bits, any decoding of the packed bytes returns every value reduced to w
      bits, and the values themselves exactly when they all fit. */
  lemma {:induction false} DecodeOfEncode(values: seq<nat>, w: nat, packed: seq<byte>, out: seq<nat>)
    requires LeValue(packed) == PackedWord(values, w)
    requires |out| == |values|
    requires forall i :: 0 <= i < |out| ==> out[i] == Gathered(LeValue(packed), i * w, w)
    ensures |values| * w <= UINT32_RANGE ==> forall i :: 0 <= i < |out| ==> out[i] == values[i] % Pow2(w)
    ensures |values| * w <= UINT32_RANGE ==> (out == values <==> AllBelow(values, Pow2(w)))
  {
    if |values| * w <= UINT32_RANGE {
      SumReadsBack(values, w);
      forall i | 0 <= i < |out|
        ensures out[i] == values[i] % Pow2(w) && (out[i] == values[i] <==> values[i] < Pow2(w))
      {
        ShrIsQuotient(values[i], w);
        LowOfSmall(values[i], w);
      }
    }
  }

  /** Packing at the width ComputeMinBitWidth chose loses nothing up to 2^32 bits; beyond
      them the values are read off the merged bits. */
  method PackUnpack(values: seq<nat>, maxPackable: nat) returns (w: nat, out: seq<nat>)
    requires AllBelow(values, UINT32_RANGE)
    requires forall v :: MinWidth(values, maxPackable, v) ==> Roomy(EncodedSize(|values|, v), |values| * v)
    ensures MinWidth(values, maxPackable, w) && |out| == |values|
    ensures w == 0 || |values| * w <= UINT32_RANGE ==> out == values
    ensures w != 0 ==> forall i :: 0 <= i < |out| ==> out[i] == Gathered(PackedWord(values, w), i * w, w)
  {
    hide MinWidth;
    w := ComputeMinBitWidth(values, maxPackable);
    if w == 0 {
      return w, values;
    }
    ChosenWidth(values, maxPackable, w);
    var packed := Encode(values, w);
    out := Decode(packed[..], w, |values|);
    DecodeOfEncode(values, w, packed[..], out);
  }

  lemma {:induction false} ChosenWidth(values: seq<nat>, maxPackable: nat, w: nat)
    requires AllBelow(values, UINT32_RANGE) && MinWidth(values, maxPackable, w) && w != 0
    ensures w <= 32 && AllBelow(values, Pow2(w))
  {
    WidthOfWords(values, w);
  }

  /** Words of 32 bits never need more than 32 bits. */
  lemma {:induction false} WidthOfWords(values: seq<nat>, w: nat)
    requires AllBelow(values, UINT32_RANGE)
    requires forall v :: 1 <= v < w ==> !AllBelow(values, Pow2(v))
    ensures w <= 32
  {
    assert Pow2(0) == 1;
    Pow2Byte(0);
    Pow2Byte(8);
    Pow2Byte(16);
    Pow2Byte(24);
    assert AllBelow(values, Pow2(32));
  }
}
