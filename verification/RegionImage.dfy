/** Building an ExData region, byte by byte, from compact cells, and what the analysis
    finds in it. */
module RegionImage {
  import opened Bits
  import opened OrderStats
  import opened WordArray
  import opened BlockTrailer
  import opened PayloadLayout
  import opened Bitplanes
  import opened PayloadCells
  import opened ExDataRegion

  /** A batch of lanes: its compact cells in slot order, eight bytes for every plane, and
      two 4-byte factors a lane. */
  datatype Batch = Batch(valid: nat, cells: seq<seq<byte>>, factors: seq<byte>)

  predicate Whole(g: Geometry, b: Batch) {
    && b.valid <= 8
    && |b.cells| == b.valid * g.numDimBlocks && (forall i :: 0 <= i < |b.cells| ==> |b.cells[i]| == 8 * g.exBits)
    && |b.factors| == 8 * b.valid
    && (b.cells != [] ==> g.Decodes())
  }

  predicate AllWhole(g: Geometry, batches: seq<Batch>) {
    forall i :: 0 <= i < |batches| ==> Whole(g, batches[i])
  }

  /** The first k parts, joined. */
  function Flat(parts: seq<seq<byte>>, k: nat): (r: seq<byte>)
    requires k <= |parts|
  {
    if k == 0 then [] else Flat(parts, k - 1) + parts[k - 1]
  }

  function PayloadOf(b: Batch): seq<byte> {
    Flat(b.cells, |b.cells|)
  }

  function Image(b: Batch): seq<byte> {
    LeBytes(b.valid, 4) + PayloadOf(b) + b.factors
  }

  function Images(batches: seq<Batch>): (r: seq<seq<byte>>)
    ensures |r| == |batches|
  {
    seq(|batches|, i requires 0 <= i < |batches| => Image(batches[i]))
  }

  /** Where batch i begins: behind the magic, the count, and one more offset than there are
      batches. */
  function Begin(batches: seq<Batch>, i: nat): nat
    requires i <= |batches|
  {
    8 + 4 * (|batches| + 1) + |Flat(Images(batches), i)|
  }

  function HeaderWords(batches: seq<Batch>): (r: seq<nat>)
    ensures |r| == |batches| + 3
  {
    [0x315A5845, |batches|] + seq(|batches| + 1, i requires 0 <= i <= |batches| => Begin(batches, i))
  }

  function Region(batches: seq<Batch>): seq<byte> {
    WordBytes(HeaderWords(batches)) + Flat(Images(batches), |batches|)
  }

  // ----- finding the parts again -----

  lemma {:induction false} WordBefore(ws: seq<nat>, tail: seq<byte>, i: nat)
    requires i < |ws| && FitsU32(ws[i])
    ensures Word(WordBytes(ws) + tail, 4 * i) == ws[i]
  {
    WordsAt([], ws, i);
    assert [] + WordBytes(ws) == WordBytes(ws);
    assert (WordBytes(ws) + tail)[4 * i..4 * i + 4] == WordBytes(ws)[4 * i..4 * i + 4];
  }

  /** Part b of the joined parts. */
  lemma {:induction false} FlatPart(parts: seq<seq<byte>>, n: nat, b: nat)
    requires b < n <= |parts|
    ensures var at := |Flat(parts, b)|;
      at + |parts[b]| <= |Flat(parts, n)| && Flat(parts, n)[at..at + |parts[b]|] == parts[b]
    ensures |Flat(parts, b + 1)| == |Flat(parts, b)| + |parts[b]|
  {
    var at := |Flat(parts, b)|;
    assert Flat(parts, n) == Flat(parts, n - 1) + parts[n - 1];
    if b < n - 1 {
      FlatPart(parts, n - 1, b);
      assert Flat(parts, n)[at..at + |parts[b]|] == Flat(parts, n - 1)[at..at + |parts[b]|];
    }
  }

  lemma {:induction false} HeaderFound(batches: seq<Batch>)
    requires FitsU32(|Region(batches)|)
    ensures var region := Region(batches);
      && GoodHeader(region) && StoredBlocks(region) == |batches|
      && forall i :: 0 <= i <= |batches| ==> OffsetAt(region, i) == Begin(batches, i)
  {
    hide LeValue, WordBytes;
    var ws, body := HeaderWords(batches), Flat(Images(batches), |batches|);
    WordBefore(ws, body, 0);
    WordBefore(ws, body, 1);
    forall i | 0 <= i <= |batches| ensures OffsetAt(Region(batches), i) == Begin(batches, i) {
      BeginBefore(batches, i, |batches|);
      WordBefore(ws, body, 2 + i);
    }
    assert Begin(batches, 0) == 8 + 4 * (|batches| + 1) && Begin(batches, |batches|) == |Region(batches)|;
  }

  lemma {:induction false} BeginBefore(batches: seq<Batch>, i: nat, n: nat)
    requires i <= n <= |batches|
    ensures Begin(batches, i) <= Begin(batches, n)
    decreases n - i
  {
    if i < n {
      BeginBefore(batches, i, n - 1);
      FlatPart(Images(batches), n, n - 1);
    }
  }

  /** Batch b lies between its offset and the next. */
  lemma {:induction false} ImageFound(batches: seq<Batch>, b: nat)
    requires b < |batches|
    ensures Begin(batches, b) + |Image(batches[b])| == Begin(batches, b + 1) <= |Region(batches)|
    ensures Region(batches)[Begin(batches, b)..Begin(batches, b + 1)] == Image(batches[b])
  {
    hide Flat, Image;
    FlatPart(Images(batches), |batches|, b);
    BeginBefore(batches, b + 1, |batches|);
    var head, body := WordBytes(HeaderWords(batches)), Flat(Images(batches), |batches|);
    var at := |Flat(Images(batches), b)|;
    assert (head + body)[|head| + at..|head| + at + |Image(batches[b])|] == body[at..at + |Image(batches[b])|];
  }

  lemma {:induction false} FlatSize(parts: seq<seq<byte>>, n: nat, size: nat)
    requires n <= |parts| && forall i :: 0 <= i < n ==> |parts[i]| == size
    ensures |Flat(parts, n)| == n * size
  {
    if n > 0 {
      FlatSize(parts, n - 1, size);
      Distribute(n - 1, 1, size);
    }
  }

  lemma {:induction false} ImageParts(g: Geometry, b: Batch)
    requires Whole(g, b)
    ensures |PayloadOf(b)| == g.PayloadSize(b.valid) && |Image(b)| == BlockSize(g, b.valid)
    ensures LeValue(Image(b)[..4]) == b.valid && Image(b)[4..4 + |PayloadOf(b)|] == PayloadOf(b)
  {
    FlatSize(b.cells, |b.cells|, 8 * g.exBits);
    U32RoundTrip(b.valid);
    assert Image(b)[..4] == LeBytes(b.valid, 4);
  }

  lemma {:induction false} BatchFound(g: Geometry, batches: seq<Batch>, b: nat)
    requires b < |batches| && AllWhole(g, batches) && FitsU32(|Region(batches)|)
    ensures var region := Region(batches);
      && GoodBlock(g, region, b) && ValidAt(region, b) == batches[b].valid && PayloadAt(g, region, b) == PayloadOf(batches[b])
  {
    hide LeValue, GoodHeader, Image, PayloadOf, Region, Begin, StoredBlocks, OffsetAt;
    HeaderFound(batches);
    ImageFound(batches, b);
    ImageParts(g, batches[b]);
    var region, image, at := Region(batches), Image(batches[b]), Begin(batches, b);
    SliceWithin(region, at, image, 0, image[..4]);
    SliceWithin(region, at, image, 4, PayloadOf(batches[b]));
  }

  // ----- what is counted -----

  /** The codes of the first k cells. */
  function CodesOf(g: Geometry, cells: seq<seq<byte>>, k: nat): multiset<nat>
    requires k <= |cells| && g.Decodes() && forall i :: 0 <= i < |cells| ==> |cells[i]| == 8 * g.exBits
  {
    if k == 0 then multiset{} else CodesOf(g, cells, k - 1) + multiset(StoredCodes(g.layout, cells[k - 1], g.exBits))
  }

  lemma {:induction false} CodesFound(g: Geometry, cells: seq<seq<byte>>, k: nat)
    requires k <= |cells| && g.Decodes() && forall i :: 0 <= i < |cells| ==> |cells[i]| == 8 * g.exBits
    ensures SumCodes(SlotCodes(g, Flat(cells, |cells|)), Iota(k)) == CodesOf(g, cells, k)
  {
    hide StoredCodes, SlotCodes;
    if k > 0 {
      CodesFound(g, cells, k - 1);
      assert Iota(k)[..k - 1] == Iota(k - 1);
      CellCounted(g, cells, k - 1);
    }
  }

  lemma {:induction false} CellCounted(g: Geometry, cells: seq<seq<byte>>, slot: nat)
    requires slot < |cells| && g.Decodes() && forall i :: 0 <= i < |cells| ==> |cells[i]| == 8 * g.exBits
    ensures SlotCodes(g, Flat(cells, |cells|))(slot) == multiset(StoredCodes(g.layout, cells[slot], g.exBits))
  {
    hide StoredCodes, Flat, SlotBytes;
    CellFound(g, cells, slot);
  }

  lemma {:induction false} CellFound(g: Geometry, cells: seq<seq<byte>>, slot: nat)
    requires slot < |cells| && forall i :: 0 <= i < |cells| ==> |cells[i]| == 8 * g.exBits
    ensures SlotBytes(g, Flat(cells, |cells|), slot) == cells[slot]
  {
    FlatSize(cells, slot, 8 * g.exBits);
    FlatPart(cells, |cells|, slot);
  }

  /** What a batch adds: its lanes, itself, its cells, its count word and factors, and the
      codes of its cells. */
  function With(g: Geometry, b: Batch, t: Totals): Totals
    requires Whole(g, b)
  {
    Totals(t.records + b.valid, t.blocks + 1, t.payloadBytes + |PayloadOf(b)|, t.factorBytes + 4 + |b.factors|,
           t.hist + if b.cells == [] then multiset{} else CodesOf(g, b.cells, |b.cells|))
  }

  function WithAll(g: Geometry, batches: seq<Batch>, k: nat, t: Totals): Totals
    requires k <= |batches| && AllWhole(g, batches)
  {
    if k == 0 then t else With(g, batches[k - 1], WithAll(g, batches, k - 1, t))
  }

  lemma {:induction false} BatchCounted(g: Geometry, batches: seq<Batch>, b: nat, t: Totals)
    requires b < |batches| && AllWhole(g, batches) && FitsU32(|Region(batches)|)
    ensures AfterBlock(g, Region(batches), b, t) == With(g, batches[b], t)
  {
    hide GoodBlock, SumCodes, SlotCodes, CodesOf, Region;
    BatchFound(g, batches, b);
    ImageParts(g, batches[b]);
    if batches[b].cells == [] {
      NoCodes(SlotCodes(g, PayloadOf(batches[b])));
    } else {
      CodesFound(g, batches[b].cells, |batches[b].cells|);
    }
  }

  lemma {:induction false} NoCodes(codes: nat -> multiset<nat>)
    ensures SumCodes(codes, Iota(0)) == multiset{}
  {
  }

  /** Every region built from whole batches is accepted, and its totals are those of the
      batches: lanes, batches, cell bytes, count words and factors, and the codes of every
      cell. */
  lemma {:induction false} BuiltRegion(g: Geometry, batches: seq<Batch>, t: Totals)
    requires AllWhole(g, batches) && FitsU32(|Region(batches)|)
    ensures var region := Region(batches);
      && Accepts(g, region) && StoredBlocks(region) == |batches|
      && AfterBlocks(g, region, StoredBlocks(region), t) == WithAll(g, batches, |batches|, t)
  {
    hide GoodBlock, GoodHeader, Region, With;
    HeaderFound(batches);
    forall b | 0 <= b < |batches| ensures GoodBlock(g, Region(batches), b) {
      BatchFound(g, batches, b);
    }
    BatchesCounted(g, batches, |batches|, t);
  }

  lemma {:induction false} BatchesCounted(g: Geometry, batches: seq<Batch>, k: nat, t: Totals)
    requires k <= |batches| && AllWhole(g, batches) && FitsU32(|Region(batches)|)
    ensures AfterBlocks(g, Region(batches), k, t) == WithAll(g, batches, k, t)
  {
    hide With, AfterBlock, Region;
    if k > 0 {
      BatchesCounted(g, batches, k - 1, t);
      BatchCounted(g, batches, k - 1, WithAll(g, batches, k - 1, t));
    }
  }

  // ----- a whole file -----

  /** The header's numbers: the first version with such regions, one to four planes and no
      elided ones, as many 64-dimension blocks as the dimensions need, and 32 records'
      sign bits with their norms in a fast-scan block. */
  lemma {:induction false} HeaderMeans(h: FileHeader)
    ensures h.Supported() <==> 15 <= h.version && h.exBits in {1, 2, 3, 4} && h.layout != 7
    ensures var n := h.Shape().numDimBlocks; 64 * n < h.dim + 64 && h.dim <= 64 * n
    ensures h.Shape().layout == h.layout && h.Shape().exBits == h.exBits
    ensures h.Shape().BytesPerLane() * 8 == 64 * h.exBits
    ensures var signs := h.FastscanBlockSize() - 32 * 4; signs % 32 == 0 && h.dim <= signs / 32 * 8 < h.dim + 8
  {
  }

  /** The entry's block has a trailer with its count, and its region is built from the
      batches; or the entry has no records, and no batches either. */
  predicate Holds(h: FileHeader, data: seq<byte>, e: Entry, batches: seq<Batch>) {
    if e.numRecords == 0 then batches == []
    else
      var block := BlockOf(data, e);
      && HasTrailer(block) && TrailerField(block, 3) == e.numRecords
      && AllWhole(h.Shape(), batches) && FitsU32(|Region(batches)|) && RegionOf(h, data, e) == Region(batches)
  }

  function JoinBatches(parts: seq<seq<Batch>>, k: nat): seq<Batch>
    requires k <= |parts|
  {
    if k == 0 then [] else JoinBatches(parts, k - 1) + parts[k - 1]
  }

  lemma {:induction false} WithMore(g: Geometry, a: seq<Batch>, b: seq<Batch>, k: nat, t: Totals)
    requires k <= |b| && AllWhole(g, a) && AllWhole(g, b)
    ensures AllWhole(g, a + b)
    ensures WithAll(g, a + b, |a| + k, t) == WithAll(g, b, k, WithAll(g, a, |a|, t))
  {
    hide With, Whole;
    if k == 0 {
      WithPrefix(g, a, b, |a|, t);
    } else {
      WithMore(g, a, b, k - 1, t);
    }
  }

  lemma {:induction false} WithPrefix(g: Geometry, a: seq<Batch>, b: seq<Batch>, k: nat, t: Totals)
    requires k <= |a| && AllWhole(g, a) && AllWhole(g, b)
    ensures AllWhole(g, a + b) && WithAll(g, a + b, k, t) == WithAll(g, a, k, t)
  {
    hide With, Whole;
    if k > 0 {
      WithPrefix(g, a, b, k - 1, t);
    }
  }

  /** The analysis of a file whose blocks hold built regions succeeds on every entry, and
      its totals are those of all the batches of the file, from nothing. */
  lemma {:induction false} BuiltFile(h: FileHeader, data: seq<byte>, entries: seq<Entry>, parts: seq<seq<Batch>>, k: nat)
    requires k <= |entries| == |parts| && forall i :: 0 <= i < |entries| ==> Holds(h, data, entries[i], parts[i])
    ensures AllGood(h, data, entries, k) && AllWhole(h.Shape(), JoinBatches(parts, k))
    ensures AfterEntries(h, data, entries, k) ==
      WithAll(h.Shape(), JoinBatches(parts, k), |JoinBatches(parts, k)|, Totals(0, 0, 0, 0, multiset{}))
  {
    hide Holds, GoodEntry, AfterEntry, Whole, With;
    if k > 0 {
      BuiltFile(h, data, entries, parts, k - 1);
      EntryHolds(h, data, entries[k - 1], parts[k - 1], AfterEntries(h, data, entries, k - 1));
      WithMore(h.Shape(), JoinBatches(parts, k - 1), parts[k - 1], |parts[k - 1]|, Totals(0, 0, 0, 0, multiset{}));
    }
  }

  lemma {:induction false} EntryHolds(h: FileHeader, data: seq<byte>, e: Entry, batches: seq<Batch>, t: Totals)
    requires Holds(h, data, e, batches)
    ensures e.numRecords != 0 ==> GoodEntry(h, data, e)
    ensures AllWhole(h.Shape(), batches) && AfterEntry(h, data, e, t) == WithAll(h.Shape(), batches, |batches|, t)
  {
    hide HasTrailer, Accepts, Region, Whole, AfterBlocks;
    if e.numRecords != 0 {
      BuiltRegion(h.Shape(), batches, t);
    }
  }
}
