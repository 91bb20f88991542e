/** Decoding one compact payload of 64 codes into bitplane words: plane p holds bit
    p of every code, one bit per dimension. */
module Bitplanes {
  import opened Bits
  import opened PayloadLayout

  // ----- bits of words -----

  lemma {:induction false} OneBelow(d: nat, k: nat)
    requires d < k
    ensures Shl(1, d) < Pow2(k)
  {
    if d > 0 {
      OneBelow(d - 1, k - 1);
    }
  }

  /** Words below 2^k with the same low k bits are the same. */
  lemma {:induction false} SameBits(a: nat, b: nat, k: nat)
    requires a < Pow2(k) && b < Pow2(k)
    requires forall i :: 0 <= i < k ==> Bit(a, i) == Bit(b, i)
    ensures a == b
  {
    if k > 0 {
      assert Bit(a, 0) == Bit(b, 0);
      forall i | 0 <= i < k - 1 ensures Bit(a / 2, i) == Bit(b / 2, i) {
        BitOfHalf(a, i + 1);
        BitOfHalf(b, i + 1);
      }
      SameBits(a / 2, b / 2, k - 1);
    }
  }

  // ----- codes and planes -----

  const DIMS := 64

  /** Plane p of the words is made of bit p of the codes. */
  ghost predicate Planes(words: seq<nat>, codes: seq<nat>)
    requires |codes| == DIMS
  {
    && (forall p :: 0 <= p < |words| ==> words[p] < Pow2(DIMS))
    && forall p, d :: 0 <= p < |words| && 0 <= d < DIMS ==> Bit(words[p], d) == Bit(codes[d], p)
  }

  /** The codes determine the words: payloads carrying equal codes decode to equal
      words, whatever their formats. */
  lemma {:induction false} EqualCodesEqualWords(w1: seq<nat>, w2: seq<nat>, codes: seq<nat>)
    requires |codes| == DIMS && |w1| == |w2|
    requires Planes(w1, codes) && Planes(w2, codes)
    ensures w1 == w2
  {
    forall p | 0 <= p < |w1| ensures w1[p] == w2[p] {
      forall d | 0 <= d < DIMS ensures Bit(w1[p], d) == Bit(w2[p], d) {
        assert Bit(w1[p], d) == Bit(codes[d], p);
      }
      SameBits(w1[p], w2[p], DIMS);
    }
  }

  /** The words determine the codes. */
  lemma {:induction false} EqualWordsEqualCodes(words: seq<nat>, c1: seq<nat>, c2: seq<nat>)
    requires |c1| == |c2| == DIMS && Planes(words, c1) && Planes(words, c2)
    requires forall d :: 0 <= d < DIMS ==> c1[d] < Pow2(|words|) && c2[d] < Pow2(|words|)
    ensures c1 == c2
  {
    forall d | 0 <= d < DIMS ensures c1[d] == c2[d] {
      forall p | 0 <= p < |words| ensures Bit(c1[d], p) == Bit(c2[d], p) {
        assert Bit(words[p], d) == Bit(c1[d], p);
      }
      SameBits(c1[d], c2[d], |words|);
    }
  }

  // ----- setting bits -----

  /** words[plane] |= 1 << dim when the value has that bit. */
  function Marked(word: nat, value: nat, plane: nat, dim: nat): nat {
    if And(Shr(value, plane), 1) != 0 then Or(word, Shl(1, dim)) else word
  }

  lemma {:induction false} AndOne(v: nat)
    ensures And(v, 1) == v % 2
  {
    AndMask(v, 1);
  }

  lemma {:induction false} MarkedBit(word: nat, value: nat, plane: nat, dim: nat, d: nat)
    ensures Bit(Marked(word, value, plane, dim), d) ==
      if d == dim && Bit(value, plane) == 1 then 1 else Bit(word, d)
  {
    AndOne(Shr(value, plane));
    BitOfOr(word, Shl(1, dim), d);
    BitOfOne(dim, d);
  }

  lemma {:induction false} MarkedBound(word: nat, value: nat, plane: nat, dim: nat)
    requires word < Pow2(DIMS) && dim < DIMS
    ensures Marked(word, value, plane, dim) < Pow2(DIMS)
  {
    OneBelow(dim, DIMS);
    OrBound(word, Shl(1, dim), DIMS);
  }

  /** The bits of the dimensions in done are in place; all others are still zero. */
  ghost predicate Marks(words: seq<nat>, codes: seq<nat>, done: set<nat>)
    requires |codes| == DIMS
  {
    && (forall p :: 0 <= p < |words| ==> words[p] < Pow2(DIMS))
    && forall p, d :: 0 <= p < |words| && 0 <= d < DIMS ==>
      Bit(words[p], d) == if d in done then Bit(codes[d], p) else 0
  }

  lemma {:induction false} MarkStart(words: seq<nat>, codes: seq<nat>)
    requires |codes| == DIMS && forall p :: 0 <= p < |words| ==> words[p] == 0
    ensures Marks(words, codes, {})
  {
    forall p, d | 0 <= p < |words| && 0 <= d < DIMS ensures Bit(words[p], d) == 0 {
      BitOfZero(d);
    }
  }

  /** Marking a dimension not marked yet, in every plane. */
  predicate MarkedAll(before: seq<nat>, after: seq<nat>, value: nat, dim: nat) {
    |before| == |after| && forall p :: 0 <= p < |before| ==> after[p] == Marked(before[p], value, p, dim)
  }

  lemma {:induction false} MarkStep(before: seq<nat>, after: seq<nat>, codes: seq<nat>, done: set<nat>, dim: nat)
    requires |codes| == DIMS && dim < DIMS && dim !in done
    requires Marks(before, codes, done) && MarkedAll(before, after, codes[dim], dim)
    ensures Marks(after, codes, done + {dim})
  {
    forall p | 0 <= p < |after| ensures after[p] < Pow2(DIMS) {
      MarkedBound(before[p], codes[dim], p, dim);
    }
    forall p, d | 0 <= p < |after| && 0 <= d < DIMS
      ensures Bit(after[p], d) == if d in done + {dim} then Bit(codes[d], p) else 0
    {
      assert Bit(before[p], d) == if d in done then Bit(codes[d], p) else 0;
      MarkedBit(before[p], codes[dim], p, dim, d);
    }
  }

  lemma {:induction false} MarkDone(words: seq<nat>, codes: seq<nat>, done: set<nat>)
    requires |codes| == DIMS && Marks(words, codes, done)
    requires forall d :: 0 <= d < DIMS ==> d in done
    ensures Planes(words, codes)
  {
  }

  // ----- direct planes -----

  function BitplaneWordsFromDirect(compact: seq<byte>, exBits: nat): (words: seq<nat>)
    requires |compact| >= exBits * 8
    ensures |words| == exBits
  {
    seq(exBits, plane requires 0 <= plane < exBits => LeValue(compact[plane * 8..plane * 8 + 8]))
  }

  /** Plane p is the p-th run of eight bytes, dimension d the d-th bit of it, lowest
      first. */
  lemma {:induction false} DirectBit(compact: seq<byte>, exBits: nat, p: nat, d: nat)
    requires |compact| >= exBits * 8 && p < exBits && d < DIMS
    ensures Bit(BitplaneWordsFromDirect(compact, exBits)[p], d) == Bit(compact[8 * p + d / 8], d % 8)
  {
    var word := compact[p * 8..p * 8 + 8];
    LeExtractInByte(word, d / 8, d % 8, 1);
    ExtractOne(LeValue(word), d);
    ExtractOne(word[d / 8], d % 8);
  }

  lemma {:induction false} ExtractOne(v: nat, k: nat)
    ensures Extract(v, k, 1) == Bit(v, k)
  {
  }

  /** The code of dimension d: bit p comes from word p. */
  function Gather(words: seq<nat>, d: nat): nat {
    if words == [] then 0 else Bit(words[0], d) + 2 * Gather(words[1..], d)
  }

  lemma {:induction false} GatherBit(words: seq<nat>, d: nat, p: nat)
    requires p < |words|
    ensures Bit(Gather(words, d), p) == Bit(words[p], d)
  {
    if p > 0 {
      GatherBit(words[1..], d, p - 1);
    }
  }

  lemma {:induction false} GatherBound(words: seq<nat>, d: nat)
    ensures Gather(words, d) < Pow2(|words|)
  {
    if words != [] {
      GatherBound(words[1..], d);
    }
  }

  function GatherAll(words: seq<nat>): (codes: seq<nat>)
    ensures |codes| == DIMS
  {
    seq(DIMS, d requires 0 <= d < DIMS => Gather(words, d))
  }

  lemma {:induction false} DirectPlanes(compact: seq<byte>, exBits: nat)
    requires |compact| >= exBits * 8
    ensures var words := BitplaneWordsFromDirect(compact, exBits); Planes(words, GatherAll(words))
  {
    var words := BitplaneWordsFromDirect(compact, exBits);
    forall p | 0 <= p < |words| ensures words[p] < Pow2(DIMS) {
      LeBound(compact[p * 8..p * 8 + 8]);
    }
    forall p, d | 0 <= p < |words| && 0 <= d < DIMS ensures Bit(words[p], d) == Bit(GatherAll(words)[d], p) {
      GatherBit(words, d, p);
    }
  }

  /** Gathering the bits of a dimension back from the planes gives the stored code. */
  lemma {:induction false} GatherOfPlanes(words: seq<nat>, codes: seq<nat>, d: nat)
    requires |codes| == DIMS && Planes(words, codes) && d < DIMS && codes[d] < Pow2(|words|)
    ensures Gather(words, d) == codes[d]
  {
    GatherBound(words, d);
    forall p | 0 <= p < |words| ensures Bit(Gather(words, d), p) == Bit(codes[d], p) {
      GatherBit(words, d, p);
    }
    SameBits(Gather(words, d), codes[d], |words|);
  }

  // ----- stored codes -----

  /** Four bits a dimension: byte group * 8 + j holds dimensions group * 16 + j (low
      half) and group * 16 + 8 + j (high half). */
  function Nibble4Codes(compact: seq<byte>): (codes: seq<nat>)
    requires |compact| >= 32
    ensures |codes| == DIMS && forall d :: 0 <= d < DIMS ==> codes[d] < Pow2(4)
  {
    seq(DIMS, d requires 0 <= d < DIMS => Extract(compact[d / 16 * 8 + d % 8], d % 16 / 8 * 4, 4))
  }

  /** Two bits a dimension: field sub of byte j holds dimension j + sub * 16. */
  function TwoBitCodes(compact: seq<byte>): (codes: seq<nat>)
    requires |compact| >= 16
    ensures |codes| == DIMS && forall d :: 0 <= d < DIMS ==> codes[d] < Pow2(2)
  {
    seq(DIMS, d requires 0 <= d < DIMS => Extract(compact[d % 16], d / 16 * 2, 2))
  }

  // ----- four bits a dimension -----

  /** The dimensions written before byte j of a group. */
  predicate NibbleDone(d: nat, group: nat, j: nat) {
    d / 16 < group || (d / 16 == group && d % 8 < j)
  }

  lemma {:induction false} NibbleNext(d: nat, group: nat, j: nat)
    requires j < 8
    ensures NibbleDone(d, group, j + 1) <==> NibbleDone(d, group, j) || d == group * 16 + j || d == group * 16 + 8 + j
  {
    var half := d % 16;
    assert d == 16 * (d / 16) + half;
    assert half % 8 == d % 8 && (half == d % 8 || half == d % 8 + 8);
  }

  /** The two codes of a byte. */
  lemma {:induction false} NibbleFields(b: byte)
    ensures And(b, 0x0F) == Extract(b, 0, 4) && And(Shr(b, 4), 0x0F) == Extract(b, 4, 4)
  {
    assert Pow2(4) == 16;
    AndMask(b, 4);
    AndMask(Shr(b, 4), 4);
  }

  lemma {:induction false} NibbleCodes(compact: seq<byte>, group: nat, j: nat)
    requires |compact| >= 32 && group < 4 && j < 8
    ensures var b := compact[group * 8 + j]; var codes := Nibble4Codes(compact);
      && codes[group * 16 + j] == Extract(b, 0, 4)
      && codes[group * 16 + 8 + j] == Extract(b, 4, 4)
  {
    hide Extract;
    var lo, hi := group * 16 + j, group * 16 + 8 + j;
    assert lo / 16 == group && lo % 16 == j && lo % 8 == j;
    assert hi / 16 == group && hi % 16 == 8 + j && hi % 8 == j;
  }

  /** The planes after one byte: both its codes or-ed in. */
  predicate BothMarked(before: seq<nat>, after: seq<nat>, lo: nat, hi: nat, dimLo: nat, dimHi: nat) {
    |before| == |after| &&
    forall p :: 0 <= p < |before| ==> after[p] == Marked(Marked(before[p], lo, p, dimLo), hi, p, dimHi)
  }

  method MarkNibbles(words: seq<nat>, lo: nat, hi: nat, dimLo: nat, dimHi: nat) returns (r: seq<nat>)
    requires |words| == 4
    ensures BothMarked(words, r, lo, hi, dimLo, dimHi)
  {
    r := words;
    for plane := 0 to 4
      invariant |r| == 4
      invariant forall p :: 0 <= p < plane ==> r[p] == Marked(Marked(words[p], lo, p, dimLo), hi, p, dimHi)
      invariant forall p :: plane <= p < 4 ==> r[p] == words[p]
    {
      if And(Shr(lo, plane), 1) != 0 {
        r := r[plane := Or(r[plane], Shl(1, dimLo))];
      }
      if And(Shr(hi, plane), 1) != 0 {
        r := r[plane := Or(r[plane], Shl(1, dimHi))];
      }
    }
  }

  method BitplaneWordsFromNibble4(compact: seq<byte>) returns (words: seq<nat>)
    requires |compact| >= 32
    ensures |words| == 4 && Planes(words, Nibble4Codes(compact))
  {
    words := [0, 0, 0, 0];
    ghost var codes := Nibble4Codes(compact);
    ghost var done: set<nat> := {};
    MarkStart(words, codes);
    for group := 0 to 4
      invariant |words| == 4 && Marks(words, codes, done)
      invariant forall d :: 0 <= d < DIMS ==> (d in done <==> NibbleDone(d, group, 0))
    {
      for j := 0 to 8
        invariant |words| == 4 && Marks(words, codes, done)
        invariant forall d :: 0 <= d < DIMS ==> (d in done <==> NibbleDone(d, group, j))
      {
        var b := compact[group * 8 + j];
        ghost var before := words;
        words := MarkNibbles(words, And(b, 0x0F), And(Shr(b, 4), 0x0F), group * 16 + j, group * 16 + 8 + j);
        done := NibbleStep(before, words, compact, done, group, j);
      }
    }
    MarkDone(words, codes, done);
  }

  lemma {:induction false} MarkBoth(before: seq<nat>, after: seq<nat>, codes: seq<nat>, done: set<nat>, dimLo: nat, dimHi: nat)
    requires |codes| == DIMS && dimLo < DIMS && dimHi < DIMS && dimLo != dimHi && dimLo !in done && dimHi !in done
    requires Marks(before, codes, done) && BothMarked(before, after, codes[dimLo], codes[dimHi], dimLo, dimHi)
    ensures Marks(after, codes, done + {dimLo} + {dimHi})
  {
    var mid := seq(|before|, p requires 0 <= p < |before| => Marked(before[p], codes[dimLo], p, dimLo));
    MarkStep(before, mid, codes, done, dimLo);
    MarkStep(mid, after, codes, done + {dimLo}, dimHi);
  }

  lemma {:induction false} NibbleStep(before: seq<nat>, after: seq<nat>, compact: seq<byte>, done: set<nat>, group: nat, j: nat)
      returns (done': set<nat>)
    requires |compact| >= 32 && group < 4 && j < 8
    requires Marks(before, Nibble4Codes(compact), done)
    requires forall d :: 0 <= d < DIMS ==> (d in done <==> NibbleDone(d, group, j))
    requires var b := compact[group * 8 + j];
      BothMarked(before, after, And(b, 0x0F), And(Shr(b, 4), 0x0F), group * 16 + j, group * 16 + 8 + j)
    ensures Marks(after, Nibble4Codes(compact), done')
    ensures forall d :: 0 <= d < DIMS ==> (d in done' <==> NibbleDone(d, group, j + 1))
  {
    var dimLo, dimHi := group * 16 + j, group * 16 + 8 + j;
    done' := done + {dimLo} + {dimHi};
    NibblesDone(done, done', group, j);
    NibbleFields(compact[group * 8 + j]);
    NibbleCodes(compact, group, j);
    MarkBoth(before, after, Nibble4Codes(compact), done, dimLo, dimHi);
  }

  lemma {:induction false} NibblesDone(done: set<nat>, done': set<nat>, group: nat, j: nat)
    requires group < 4 && j < 8
    requires done' == done + {group * 16 + j} + {group * 16 + 8 + j}
    requires forall d :: 0 <= d < DIMS ==> (d in done <==> NibbleDone(d, group, j))
    ensures group * 16 + j !in done && group * 16 + 8 + j !in done
    ensures forall d :: 0 <= d < DIMS ==> (d in done' <==> NibbleDone(d, group, j + 1))
  {
    assert !NibbleDone(group * 16 + j, group, j) && !NibbleDone(group * 16 + 8 + j, group, j);
    forall d | 0 <= d < DIMS ensures d in done' <==> NibbleDone(d, group, j + 1) {
      NibbleNext(d, group, j);
    }
  }

  // ----- two bits a dimension -----

  predicate TwoBitDone(d: nat, j: nat, sub: nat) {
    d % 16 < j || (d % 16 == j && d / 16 < sub)
  }

  lemma {:induction false} TwoBitNext(d: nat, j: nat, sub: nat)
    requires j < 16
    ensures TwoBitDone(d, j, sub + 1) <==> TwoBitDone(d, j, sub) || d == j + sub * 16
  {
    assert d == 16 * (d / 16) + d % 16;
  }

  lemma {:induction false} TwoBitField(b: byte, sub: nat)
    ensures And(Shr(b, sub * 2), 0x03) == Extract(b, sub * 2, 2)
  {
    assert Pow2(2) == 4;
    AndMask(Shr(b, sub * 2), 2);
  }

  lemma {:induction false} TwoBitCode(compact: seq<byte>, j: nat, sub: nat)
    requires |compact| >= 16 && j < 16 && sub < 4
    ensures TwoBitCodes(compact)[j + sub * 16] == Extract(compact[j], sub * 2, 2)
  {
    var d := j + sub * 16;
    assert d / 16 == sub && d % 16 == j;
  }

  method MarkPair(words: seq<nat>, value: nat, dim: nat) returns (r: seq<nat>)
    requires |words| == 2
    ensures MarkedAll(words, r, value, dim)
  {
    r := words;
    for plane := 0 to 2
      invariant |r| == 2
      invariant forall p :: 0 <= p < plane ==> r[p] == Marked(words[p], value, p, dim)
      invariant forall p :: plane <= p < 2 ==> r[p] == words[p]
    {
      if And(Shr(value, plane), 1) != 0 {
        r := r[plane := Or(r[plane], Shl(1, dim))];
      }
    }
  }

  method BitplaneWordsFrom2Bit(compact: seq<byte>) returns (words: seq<nat>)
    requires |compact| >= 16
    ensures |words| == 2 && Planes(words, TwoBitCodes(compact))
  {
    words := [0, 0];
    ghost var codes := TwoBitCodes(compact);
    ghost var done: set<nat> := {};
    MarkStart(words, codes);
    for j := 0 to 16
      invariant |words| == 2 && Marks(words, codes, done)
      invariant forall d :: 0 <= d < DIMS ==> (d in done <==> TwoBitDone(d, j, 0))
    {
      var b := compact[j];
      for sub := 0 to 4
        invariant |words| == 2 && Marks(words, codes, done)
        invariant forall d :: 0 <= d < DIMS ==> (d in done <==> TwoBitDone(d, j, sub))
      {
        ghost var before := words;
        words := MarkPair(words, And(Shr(b, sub * 2), 0x03), j + sub * 16);
        done := TwoBitStep(before, words, compact, done, j, sub);
      }
    }
    MarkDone(words, codes, done);
  }

  lemma {:induction false} TwoBitStep(before: seq<nat>, after: seq<nat>, compact: seq<byte>, done: set<nat>, j: nat, sub: nat)
      returns (done': set<nat>)
    requires |compact| >= 16 && j < 16 && sub < 4
    requires Marks(before, TwoBitCodes(compact), done)
    requires forall d :: 0 <= d < DIMS ==> (d in done <==> TwoBitDone(d, j, sub))
    requires MarkedAll(before, after, And(Shr(compact[j], sub * 2), 0x03), j + sub * 16)
    ensures Marks(after, TwoBitCodes(compact), done')
    ensures forall d :: 0 <= d < DIMS ==> (d in done' <==> TwoBitDone(d, j, sub + 1))
  {
    var dim := j + sub * 16;
    TwoBitField(compact[j], sub);
    TwoBitCode(compact, j, sub);
    assert !TwoBitDone(dim, j, sub);
    MarkStep(before, after, TwoBitCodes(compact), done, dim);
    done' := done + {dim};
    forall d | 0 <= d < DIMS ensures d in done' <==> TwoBitDone(d, j, sub + 1) {
      TwoBitNext(d, j, sub);
    }
  }

  // ----- any layout -----

  predicate WidthFits(layout: nat, exBits: nat) {
    && (layout == LAYOUT_VECTOR_NIBBLE4 ==> exBits == 4)
    && (layout == LAYOUT_VECTOR_2BIT ==> exBits == 2)
  }

  /** The codes a compact payload stores, in the layout's own format. */
  function StoredCodes(layout: nat, compact: seq<byte>, exBits: nat): (codes: seq<nat>)
    requires WidthFits(layout, exBits) && |compact| >= exBits * 8
    ensures |codes| == DIMS && forall d :: 0 <= d < DIMS ==> codes[d] < Pow2(exBits)
  {
    if layout == LAYOUT_VECTOR_NIBBLE4 then Nibble4Codes(compact)
    else if layout == LAYOUT_VECTOR_2BIT then TwoBitCodes(compact)
    else
      var words := BitplaneWordsFromDirect(compact, exBits);
      var codes := GatherAll(words);
      assert forall d :: 0 <= d < DIMS ==> codes[d] < Pow2(exBits) by {
        forall d | 0 <= d < DIMS ensures Gather(words, d) < Pow2(exBits) {
          GatherBound(words, d);
        }
      }
      codes
  }

  /** Where the bits of a stored code are: for direct planes bit d of the p-th eight
      bytes, for the packed formats bit p of the dimension's own four or two bits. */
  lemma {:induction false} StoredBit(layout: nat, compact: seq<byte>, exBits: nat, d: nat, p: nat)
    requires WidthFits(layout, exBits) && |compact| >= exBits * 8 && d < DIMS && p < exBits
    ensures Bit(StoredCodes(layout, compact, exBits)[d], p) ==
      if layout == 10 then Bit(compact[d / 16 * 8 + d % 8], d % 16 / 8 * 4 + p)
      else if layout == 11 then Bit(compact[d % 16], d / 16 * 2 + p)
      else Bit(compact[8 * p + d / 8], d % 8)
  {
    if layout == LAYOUT_VECTOR_NIBBLE4 {
      BitOfExtract(compact[d / 16 * 8 + d % 8], d % 16 / 8 * 4, 4, p);
    } else if layout == LAYOUT_VECTOR_2BIT {
      BitOfExtract(compact[d % 16], d / 16 * 2, 2, p);
    } else {
      GatherBit(BitplaneWordsFromDirect(compact, exBits), d, p);
      DirectBit(compact, exBits, p, d);
    }
  }

  lemma {:induction false} BitOfExtract(v: nat, p: nat, w: nat, i: nat)
    requires i < w
    ensures Bit(Extract(v, p, w), i) == Bit(v, p + i)
  {
    BitOfLow(Shr(v, p), w, i);
    ShrAdd(v, p, i);
  }

  lemma {:induction false} BitOfLow(v: nat, w: nat, i: nat)
    requires i < w
    ensures Bit(Low(v, w), i) == Bit(v, i)
  {
    if i > 0 {
      BitOfLow(v / 2, w - 1, i - 1);
    }
  }

  /** Fails exactly when the layout fixes another width; otherwise plane p is made of
      bit p of the stored codes. */
  method BitplaneWords(layout: nat, compact: seq<byte>, exBits: nat) returns (ok: bool, words: seq<nat>)
    requires |compact| >= exBits * 8
    ensures ok <==> WidthFits(layout, exBits)
    ensures ok ==> |words| == exBits && Planes(words, StoredCodes(layout, compact, exBits))
  {
    ok, words := true, [];
    if layout == LAYOUT_VECTOR_NIBBLE4 {
      if exBits != 4 {
        return false, [];
      }
      words := BitplaneWordsFromNibble4(compact);
    } else if layout == LAYOUT_VECTOR_2BIT {
      if exBits != 2 {
        return false, [];
      }
      words := BitplaneWordsFrom2Bit(compact);
    } else {
      words := BitplaneWordsFromDirect(compact, exBits);
      DirectPlanes(compact, exBits);
    }
  }

  /** v |= ((word >> bit) & 1) << plane, over the planes. */
  method Reassemble(words: seq<nat>, bit: nat) returns (v: nat)
    ensures v == Gather(words, bit)
  {
    v := 0;
    for plane := 0 to |words|
      invariant v == Gather(words[..plane], bit) && v < Pow2(plane)
    {
      var b := And(Shr(words[plane], bit), 1);
      AndOne(Shr(words[plane], bit));
      OrDisjoint(v, b, plane);
      GatherMore(words, bit, plane);
      v := Or(v, Shl(b, plane));
      GatherBound(words[..plane + 1], bit);
    }
    assert words[..|words|] == words;
  }

  lemma {:induction false} GatherMore(words: seq<nat>, d: nat, n: nat)
    requires n < |words|
    ensures Gather(words[..n + 1], d) == Gather(words[..n], d) + Shl(Bit(words[n], d), n)
  {
    if n > 0 {
      GatherMore(words[1..], d, n - 1);
      assert words[..n + 1][1..] == words[1..][..n] && words[..n][1..] == words[1..][..n - 1];
      ShlTwice(Bit(words[n], d), n);
    }
  }

  lemma {:induction false} ShlTwice(v: nat, n: nat)
    requires 0 < n
    ensures Shl(v, n) == 2 * Shl(v, n - 1)
  {
  }

  lemma {:induction false} CountMore(hist: multiset<nat>, codes: seq<nat>, n: nat)
    requires n < |codes|
    ensures hist + multiset(codes[..n + 1]) == hist + multiset(codes[..n]) + multiset{codes[n]}
  {
    assert codes[..n + 1] == codes[..n] + [codes[n]];
  }

  /** The histogram of one compact payload counts the stored codes, each once. */
  method CountCodes(words: seq<nat>, hist: multiset<nat>, ghost codes: seq<nat>) returns (r: multiset<nat>)
    requires |codes| == DIMS && Planes(words, codes)
    requires forall d :: 0 <= d < DIMS ==> codes[d] < Pow2(|words|)
    ensures r == hist + multiset(codes)
  {
    r := hist;
    for bit := 0 to DIMS
      invariant r == hist + multiset(codes[..bit])
    {
      var v := Reassemble(words, bit);
      GatherOfPlanes(words, codes, bit);
      CountMore(hist, codes, bit);
      r := r + multiset{v};
    }
    assert codes[..DIMS] == codes;
  }
}
