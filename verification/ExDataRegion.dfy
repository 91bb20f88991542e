/** The variable ExData region of a cluster block: a header with an offset table,
    then batch blocks of codes and factors. */
module ExDataRegion {
  import opened OrderStats
  import opened Bits
  import opened BlockTrailer
  import opened PayloadLayout
  import opened Bitplanes
  import opened PayloadCells

  const VARIABLE_EX_MAGIC := 0x315A5845
  const BATCH := 8

  // ----- walking a region -----

  function StoredBlocks(region: seq<byte>): nat {
    Word(region, 4)
  }

  function OffsetAt(region: seq<byte>, i: nat): nat {
    Word(region, 8 + 4 * i)
  }

  /** Magic, block count and offset table. */
  function TableEnd(region: seq<byte>): nat {
    8 + (StoredBlocks(region) + 1) * 4
  }

  function ValidAt(region: seq<byte>, b: nat): nat {
    Word(region, OffsetAt(region, b))
  }

  function PayloadAt(g: Geometry, region: seq<byte>, b: nat): seq<byte> {
    Slice(region, OffsetAt(region, b) + 4, OffsetAt(region, b) + 4 + g.PayloadSize(ValidAt(region, b)))
  }

  predicate GoodHeader(region: seq<byte>) {
    && 8 <= |region| && Word(region, 0) == VARIABLE_EX_MAGIC && TableEnd(region) <= |region|
    && OffsetAt(region, 0) == TableEnd(region) && OffsetAt(region, StoredBlocks(region)) == |region|
  }

  /** A batch block: valid count, payload, two 4-byte factors a lane. */
  function BlockSize(g: Geometry, valid: nat): nat {
    4 + g.PayloadSize(valid) + valid * 2 * 4
  }

  /** A count word in the region, at most BATCH lanes, ending where the next begins. */
  predicate BlockFits(g: Geometry, region: seq<byte>, b: nat) {
    && OffsetAt(region, b) + 4 <= |region|
    && ValidAt(region, b) <= BATCH
    && OffsetAt(region, b) + BlockSize(g, ValidAt(region, b)) == OffsetAt(region, b + 1)
  }

  predicate GoodBlock(g: Geometry, region: seq<byte>, b: nat) {
    BlockFits(g, region, b) && CanDecode(g, PayloadAt(g, region, b), ValidAt(region, b))
  }

  predicate GoodBlocks(g: Geometry, region: seq<byte>, k: nat) {
    forall b :: 0 <= b < k ==> GoodBlock(g, region, b)
  }

  predicate Accepts(g: Geometry, region: seq<byte>) {
    GoodHeader(region) && GoodBlocks(g, region, StoredBlocks(region))
  }

  /** Running totals: lanes, blocks, payload bytes, factor and count-word bytes, and
      how often each code occurs. */
  datatype Totals = Totals(records: nat, blocks: nat, payloadBytes: nat, factorBytes: nat, hist: multiset<nat>)

  function BlockCodes(g: Geometry, region: seq<byte>, b: nat): multiset<nat> {
    SumCodes(SlotCodes(g, PayloadAt(g, region, b)), Iota(ValidAt(region, b) * g.numDimBlocks))
  }

  function AfterBlock(g: Geometry, region: seq<byte>, b: nat, t: Totals): Totals {
    var valid := ValidAt(region, b);
    Totals(t.records + valid, t.blocks + 1, t.payloadBytes + g.PayloadSize(valid),
           t.factorBytes + (valid * 2 * 4 + 4), t.hist + BlockCodes(g, region, b))
  }

  function AfterBlocks(g: Geometry, region: seq<byte>, k: nat, t: Totals): Totals {
    if k == 0 then t else AfterBlock(g, region, k - 1, AfterBlocks(g, region, k - 1, t))
  }

  method ReadBlock(g: Geometry, region: seq<byte>, b: nat) returns (ok: bool, valid: nat, payload: seq<byte>)
    ensures ok <==> BlockFits(g, region, b)
    ensures ok ==> valid == ValidAt(region, b) && payload == PayloadAt(g, region, b)
  {
    ok, valid, payload := false, 0, [];
    var begin, end := OffsetAt(region, b), OffsetAt(region, b + 1);
    if |region| < begin + 4 {
      return;
    }
    valid := LeValue(region[begin..begin + 4]);
    if valid > BATCH {
      return;
    }
    var cur := begin + 4;
    var expectedPayload := g.PayloadSize(valid);
    payload := Slice(region, cur, cur + expectedPayload);
    cur := cur + expectedPayload;
    ok := cur + valid * 2 * 4 == end;
  }

  method WalkBlock(g: Geometry, region: seq<byte>, b: nat, t: Totals) returns (ok: bool, r: Totals)
    ensures ok <==> GoodBlock(g, region, b)
    ensures ok ==> r == AfterBlock(g, region, b, t)
  {
    r := t;
    var valid, payload;
    ok, valid, payload := ReadBlock(g, region, b);
    if !ok {
      return;
    }
    var hist;
    ok, hist := CountBlock(g, payload, valid, t.hist);
    r := Totals(t.records + valid, t.blocks + 1, t.payloadBytes + g.PayloadSize(valid),
                t.factorBytes + (valid * 2 * 4 + 4), hist);
  }

  method WalkRegion(g: Geometry, region: seq<byte>, t: Totals) returns (ok: bool, r: Totals)
    ensures ok <==> Accepts(g, region)
    ensures ok ==> r == AfterBlocks(g, region, StoredBlocks(region), t)
  {
    hide CanDecode, BlockCodes, LeValue;
    ok, r := false, t;
    if |region| < 8 || Word(region, 0) != VARIABLE_EX_MAGIC {
      return;
    }
    var stored := Word(region, 4);
    if |region| < 8 + (stored + 1) * 4 {
      return;
    }
    if OffsetAt(region, 0) != 8 + (stored + 1) * 4 || OffsetAt(region, stored) != |region| {
      return;
    }
    for b := 0 to stored
      invariant GoodBlocks(g, region, b) && r == AfterBlocks(g, region, b, t)
    {
      ok, r := WalkBlock(g, region, b, r);
      if !ok {
        return;
      }
    }
    ok := true;
  }

  // ----- an accepted region is tiled by its blocks -----

  /** Offsets only grow, and all blocks end inside the region. */
  lemma {:induction false} OffsetsGrow(g: Geometry, region: seq<byte>, a: nat, b: nat)
    requires GoodBlocks(g, region, b) && a <= b
    ensures OffsetAt(region, a) + 4 * (b - a) <= OffsetAt(region, b)
    decreases b - a
  {
    if a < b {
      assert GoodBlock(g, region, b - 1);
      OffsetsGrow(g, region, a, b - 1);
    }
  }

  function BlockBytes(region: seq<byte>, b: nat): seq<byte> {
    Slice(region, OffsetAt(region, b), OffsetAt(region, b + 1))
  }

  function JoinBlocks(region: seq<byte>, k: nat): seq<byte> {
    if k == 0 then [] else JoinBlocks(region, k - 1) + BlockBytes(region, k - 1)
  }

  lemma {:induction false} JoinedBlocks(g: Geometry, region: seq<byte>, k: nat)
    requires Accepts(g, region) && k <= StoredBlocks(region)
    ensures TableEnd(region) <= OffsetAt(region, k) <= |region|
    ensures JoinBlocks(region, k) == region[TableEnd(region)..OffsetAt(region, k)]
  {
    hide CanDecode, Word;
    OffsetsGrow(g, region, k, StoredBlocks(region));
    if k > 0 {
      JoinedBlocks(g, region, k - 1);
      assert GoodBlock(g, region, k - 1);
      Adjoin(region, TableEnd(region), OffsetAt(region, k - 1), OffsetAt(region, k));
    }
  }

  lemma {:induction false} Adjoin<T>(s: seq<T>, a: nat, b: nat, c: nat)
    requires a <= b <= c <= |s|
    ensures s[a..b] + s[b..c] == s[a..c]
  {
  }

  /** The header and the batch blocks, in order, are the whole region. */
  lemma {:induction false} RegionIsTiled(g: Geometry, region: seq<byte>)
    requires Accepts(g, region)
    ensures region == region[..TableEnd(region)] + JoinBlocks(region, StoredBlocks(region))
  {
    JoinedBlocks(g, region, StoredBlocks(region));
  }

  /** The last eight bytes a lane of a batch block. */
  function FactorsAt(region: seq<byte>, b: nat): seq<byte> {
    Slice(region, OffsetAt(region, b + 1) - Min(OffsetAt(region, b + 1), ValidAt(region, b) * 8), OffsetAt(region, b + 1))
  }

  /** A batch block is its count word, its payload at full size, and its factors. */
  lemma {:induction false} BlockIsTiled(g: Geometry, region: seq<byte>, b: nat)
    requires Accepts(g, region) && b < StoredBlocks(region)
    ensures var valid := ValidAt(region, b);
      && |PayloadAt(g, region, b)| == g.PayloadSize(valid)
      && |FactorsAt(region, b)| == valid * 8
      && BlockBytes(region, b) == LeBytes(valid, 4) + PayloadAt(g, region, b) + FactorsAt(region, b)
  {
    var valid := ValidAt(region, b);
    var begin := OffsetAt(region, b);
    assert GoodBlock(g, region, b);
    JoinedBlocks(g, region, b + 1);
    var mid := begin + 4 + g.PayloadSize(valid);
    var end := OffsetAt(region, b + 1);
    LeBytesValue(region[begin..begin + 4]);
    Adjoin(region, begin, begin + 4, mid);
    Adjoin(region, begin, mid, end);
    assert FactorsAt(region, b) == region[mid..end];
  }

  // ----- conservation -----

  /** Every byte after the offset table is payload, factor or count word. */
  lemma {:induction false} BlockBytesConserved(g: Geometry, region: seq<byte>, k: nat, t: Totals)
    requires Accepts(g, region) && k <= StoredBlocks(region)
    ensures var r := AfterBlocks(g, region, k, t);
      (r.payloadBytes + r.factorBytes) - (t.payloadBytes + t.factorBytes) == OffsetAt(region, k) - TableEnd(region)
  {
    hide BlockCodes, CanDecode, Word;
    if k > 0 {
      BlockBytesConserved(g, region, k - 1, t);
      assert GoodBlock(g, region, k - 1);
    }
  }

  /** The lanes of the first k batch blocks. */
  function Lanes(region: seq<byte>, k: nat): nat {
    if k == 0 then 0 else Lanes(region, k - 1) + ValidAt(region, k - 1)
  }

  /** Each total by itself: a record a lane, a block each, a payload slot for every lane and
      dimension block, a count word a block and two factors a lane. */
  lemma {:induction false} TotalsOfBlocks(g: Geometry, region: seq<byte>, k: nat, t: Totals)
    ensures var r, lanes := AfterBlocks(g, region, k, t), Lanes(region, k);
      && r.records == t.records + lanes
      && r.blocks == t.blocks + k
      && r.payloadBytes == t.payloadBytes + lanes * g.numDimBlocks * (8 * g.exBits)
      && r.factorBytes == t.factorBytes + 4 * k + 8 * lanes
  {
    hide BlockCodes, Word;
    if k > 0 {
      TotalsOfBlocks(g, region, k - 1, t);
      MoreLanes(Lanes(region, k - 1), ValidAt(region, k - 1), g.numDimBlocks, 8 * g.exBits);
    }
  }

  lemma {:induction false} MoreLanes(a: int, b: int, n: int, w: int)
    ensures (a + b) * n * w == a * n * w + b * n * w
  {
    Distribute(a, b, n);
    Distribute(a * n, b * n, w);
  }

  lemma {:induction false} RegionBytesConserved(g: Geometry, region: seq<byte>, t: Totals)
    requires Accepts(g, region)
    ensures var r := AfterBlocks(g, region, StoredBlocks(region), t);
      (r.payloadBytes + r.factorBytes) - (t.payloadBytes + t.factorBytes) == |region| - TableEnd(region)
  {
    BlockBytesConserved(g, region, StoredBlocks(region), t);
  }

  /** The histogram holds 64 codes for every lane and dimension block. */
  lemma {:induction false} HistSize(g: Geometry, region: seq<byte>, k: nat, t: Totals)
    requires GoodBlocks(g, region, k)
    ensures var r := AfterBlocks(g, region, k, t);
      |r.hist| - |t.hist| == (r.records - t.records) * g.numDimBlocks * DIMS
  {
    hide BlockCodes, CanDecode, Word;
    if k > 0 {
      HistSize(g, region, k - 1, t);
      var before := AfterBlocks(g, region, k - 1, t);
      BlockCodesSize(g, region, k - 1);
      MoreCodes(before.records - t.records, ValidAt(region, k - 1), g.numDimBlocks);
    }
  }

  lemma {:induction false} BlockCodesSize(g: Geometry, region: seq<byte>, b: nat)
    requires GoodBlock(g, region, b)
    ensures |BlockCodes(g, region, b)| == DIMS * (ValidAt(region, b) * g.numDimBlocks)
  {
    SlotsCounted(g, PayloadAt(g, region, b), ValidAt(region, b), ValidAt(region, b) * g.numDimBlocks);
  }

  lemma {:induction false} MoreCodes(records: int, valid: int, n: int)
    ensures (records + valid) * n * DIMS == records * n * DIMS + DIMS * (valid * n)
  {
    Distribute(records, valid, n);
  }

  // ----- a whole file -----

  const FIRST_VERSION := 15

  /** The header fields the analysis looks at. */
  datatype FileHeader = FileHeader(version: nat, dim: nat, exBits: nat, layout: nat)
  {
    predicate Supported() {
      FIRST_VERSION <= version && 1 <= exBits <= 4 && layout != LAYOUT_SPLIT3_ZERO_ELIDE
    }

    function Shape(): Geometry {
      Geometry(layout, exBits, (dim + DIMS - 1) / DIMS)
    }

    /** Sign bits of 32 records, then a 4-byte norm for each. */
    function FastscanBlockSize(): nat {
      (dim + 7) / 8 * 32 + 32 * 4
    }
  }

  /** The fields of a cluster's lookup entry that the analysis looks at. */
  datatype Entry = Entry(numRecords: nat, blockOffset: nat, blockSize: nat, numFastscanBlocks: nat)

  function BlockOf(data: seq<byte>, e: Entry): seq<byte> {
    Slice(data, e.blockOffset, e.blockOffset + e.blockSize)
  }

  /** From the end of the fast-scan blocks to the address payload. */
  function RegionOf(h: FileHeader, data: seq<byte>, e: Entry): seq<byte> {
    var block := BlockOf(data, e);
    Slice(block, e.numFastscanBlocks * h.FastscanBlockSize(), TrailerField(block, 4))
  }

  predicate GoodEntry(h: FileHeader, data: seq<byte>, e: Entry) {
    var block := BlockOf(data, e);
    HasTrailer(block) && TrailerField(block, 3) == e.numRecords && Accepts(h.Shape(), RegionOf(h, data, e))
  }

  /** What the store wrote between the fast-scan blocks and the address table is what
      the analysis takes for the ExData region, except past 4 GiB, where only an empty
      region is: the entry is then good exactly if that region is. */
  lemma {:induction false} EntryOfClosedBlock(h: FileHeader, before: seq<byte>, fastscan: seq<byte>, region: seq<byte>,
                           table: seq<byte>, pageSize: nat, after: seq<byte>, e: Entry)
    requires |table| % ADDRESS_ENTRY_SIZE == 0 && e.numRecords == ToUInt32(|table| / ADDRESS_ENTRY_SIZE)
    requires |fastscan| == e.numFastscanBlocks * h.FastscanBlockSize()
    requires e.blockOffset == |before| && e.blockSize == |ClosedBlock(fastscan + region, table, pageSize)|
    ensures var data := before + ClosedBlock(fastscan + region, table, pageSize) + after;
      && (RegionOf(h, data, e) == region <==> FitsU32(|fastscan| + |region|) || region == [])
      && (RegionOf(h, data, e) == region ==> (GoodEntry(h, data, e) <==> Accepts(h.Shape(), region)))
  {
    hide HasTrailer, Accepts, TrailerField, ToUInt32, Slice, FitsU32;
    var block := ClosedBlock(fastscan + region, table, pageSize);
    BlockCut(before, block, after);
    TrailerReadsBack(fastscan + region, table, pageSize);
    RegionCut(fastscan, region, block);
  }

  lemma {:induction false} BlockCut(before: seq<byte>, block: seq<byte>, after: seq<byte>)
    ensures Slice(before + block + after, |before|, |before| + |block|) == block
  {
  }

  lemma {:induction false} RegionCut(fastscan: seq<byte>, region: seq<byte>, block: seq<byte>)
    requires fastscan + region <= block
    ensures Slice(block, |fastscan|, ToUInt32(|fastscan + region|)) == region
      <==> FitsU32(|fastscan| + |region|) || region == []
  {
    var to := ToUInt32(|fastscan + region|);
    assert block[|fastscan|..|fastscan + region|] == region;
    assert to == |fastscan + region| || (to < |fastscan + region| && !FitsU32(|fastscan| + |region|));
  }

  /** Entries without records are not looked at. */
  predicate AllGood(h: FileHeader, data: seq<byte>, entries: seq<Entry>, k: nat)
    requires k <= |entries|
  {
    forall i :: 0 <= i < k && entries[i].numRecords != 0 ==> GoodEntry(h, data, entries[i])
  }

  function AfterEntry(h: FileHeader, data: seq<byte>, e: Entry, t: Totals): Totals {
    var region := RegionOf(h, data, e);
    if e.numRecords == 0 then t else AfterBlocks(h.Shape(), region, StoredBlocks(region), t)
  }

  /** The totals over the first k entries. */
  function AfterEntries(h: FileHeader, data: seq<byte>, entries: seq<Entry>, k: nat): Totals
    requires k <= |entries|
  {
    if k == 0 then Totals(0, 0, 0, 0, multiset{})
    else AfterEntry(h, data, entries[k - 1], AfterEntries(h, data, entries, k - 1))
  }

  /** Bytes of the regions looked at, their headers and offset tables aside. */
  function BodyBytes(h: FileHeader, data: seq<byte>, entries: seq<Entry>, k: nat): int
    requires k <= |entries|
  {
    if k == 0 then 0
    else
      var region := RegionOf(h, data, entries[k - 1]);
      BodyBytes(h, data, entries, k - 1) + if entries[k - 1].numRecords == 0 then 0 else |region| - TableEnd(region)
  }

  /** Succeeds exactly on a supported header and good entries, and with four planes only
      if there is payload, whose size the last ratio divides by.  Payload bytes and
      factor bytes together are then every byte outside the region headers, and the
      histogram holds 64 codes for every lane and dimension block. */
  method Analyze(data: seq<byte>, h: FileHeader, entries: seq<Entry>) returns (ok: bool, r: Totals)
    ensures ok <==>
      && h.Supported() && AllGood(h, data, entries, |entries|)
      && (h.exBits == 4 ==> AfterEntries(h, data, entries, |entries|).payloadBytes != 0)
    ensures ok ==> r == AfterEntries(h, data, entries, |entries|)
    ensures ok ==> r.payloadBytes + r.factorBytes == BodyBytes(h, data, entries, |entries|)
    ensures ok ==> FullHist(h.Shape(), r)
  {
    hide AfterEntry, GoodEntry;
    ok, r := h.Supported(), Totals(0, 0, 0, 0, multiset{});
    if !ok {
      return;
    }
    for i := 0 to |entries|
      invariant ok && AllGood(h, data, entries, i) && r == AfterEntries(h, data, entries, i)
      invariant r.payloadBytes + r.factorBytes == BodyBytes(h, data, entries, i) && FullHist(h.Shape(), r)
    {
      ok, r := AnalyzeEntry(h, data, entries[i], r);
      if !ok {
        return;
      }
    }
    ok := h.exBits != 4 || r.payloadBytes != 0;
  }

  method AnalyzeEntry(h: FileHeader, data: seq<byte>, e: Entry, t: Totals) returns (ok: bool, r: Totals)
    requires FullHist(h.Shape(), t)
    ensures ok <==> e.numRecords == 0 || GoodEntry(h, data, e)
    ensures ok ==> r == AfterEntry(h, data, e, t) && FullHist(h.Shape(), r)
    ensures ok ==> var region := RegionOf(h, data, e);
      (r.payloadBytes + r.factorBytes) - (t.payloadBytes + t.factorBytes) ==
        if e.numRecords == 0 then 0 else |region| - TableEnd(region)
  {
    hide AfterBlocks, Accepts, HasTrailer, FullHist;
    ok, r := true, t;
    if e.numRecords == 0 {
      return;
    }
    var block := Slice(data, e.blockOffset, e.blockOffset + e.blockSize);
    var payloadOff, numEntries;
    ok, payloadOff, numEntries := ParseAddressTrailer(block);
    if !ok || numEntries != e.numRecords {
      return false, t;
    }
    var region := Slice(block, e.numFastscanBlocks * h.FastscanBlockSize(), payloadOff);
    ok, r := AnalyzeRegion(h.Shape(), region, t);
  }

  predicate FullHist(g: Geometry, t: Totals) {
    |t.hist| == t.records * g.numDimBlocks * DIMS
  }

  method AnalyzeRegion(g: Geometry, region: seq<byte>, t: Totals) returns (ok: bool, r: Totals)
    requires FullHist(g, t)
    ensures ok <==> Accepts(g, region)
    ensures ok ==> r == AfterBlocks(g, region, StoredBlocks(region), t) && FullHist(g, r)
    ensures ok ==> (r.payloadBytes + r.factorBytes) - (t.payloadBytes + t.factorBytes) == |region| - TableEnd(region)
  {
    hide AfterBlocks, GoodBlock;
    ok, r := WalkRegion(g, region, t);
    if ok {
      RegionBytesConserved(g, region, t);
      HistSize(g, region, StoredBlocks(region), t);
      HistKept(g, t, r);
    }
  }

  lemma {:induction false} HistKept(g: Geometry, t: Totals, r: Totals)
    requires FullHist(g, t) && |r.hist| - |t.hist| == (r.records - t.records) * g.numDimBlocks * DIMS
    ensures FullHist(g, r)
  {
    Distribute(r.records - t.records, t.records, g.numDimBlocks);
  }
}
