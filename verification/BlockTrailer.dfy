/** The address trailer that closes a cluster block: written by the cluster store,
    read by the ExData analysis. */
module BlockTrailer {
  import opened Bits
  import opened WordArray

  const BLOCK_MAGIC := 0x424C4356
  const ADDRESS_FORMAT_V2 := 2
  const ADDRESS_ENTRY_SIZE := 8

  // ----- reading -----

  /** The little-endian word at an offset. */
  function Word(bytes: seq<byte>, off: nat): nat {
    if off + 4 <= |bytes| then LeValue(bytes[off..off + 4]) else 0
  }

  /** Where unpacking at an offset reads: a negative one counts from the end. */
  function UnpackAt(len: nat, off: int): nat {
    if off >= 0 then off else if off + len >= 0 then off + len else len
  }

  predicate CanUnpack(len: nat, off: int, size: nat) {
    if off >= 0 then off + size <= len else off + size <= 0 && off + len >= 0
  }

  /** The last eight bytes of a block are the trailer size and the magic; the trailer
      starts that many bytes before the end. */
  function TrailerOffset(block: seq<byte>): int {
    |block| - Word(block, UnpackAt(|block|, |block| - 8))
  }

  function TrailerField(block: seq<byte>, i: nat): nat {
    Word(block, UnpackAt(|block|, TrailerOffset(block)) + 4 * i)
  }

  predicate HasTrailer(block: seq<byte>) {
    && 8 <= |block| && Word(block, |block| - 4) == BLOCK_MAGIC
    && CanUnpack(|block|, TrailerOffset(block), 24)
    && TrailerField(block, 2) != 0
  }

  /** Reads the payload offset and the entry count; a zero entry size is refused. */
  method ParseAddressTrailer(block: seq<byte>) returns (ok: bool, payloadOff: nat, numEntries: nat)
    ensures ok <==> HasTrailer(block)
    ensures ok ==> payloadOff == TrailerField(block, 4) && numEntries == TrailerField(block, 3)
  {
    ok, payloadOff, numEntries := false, 0, 0;
    if |block| < 8 {
      return;
    }
    var size, magic := Word(block, |block| - 8), Word(block, |block| - 4);
    if magic != BLOCK_MAGIC || !CanUnpack(|block|, |block| - size, 24) {
      return;
    }
    var at := UnpackAt(|block|, |block| - size);
    var entrySize := LeValue(block[at + 8..at + 12]);
    numEntries := LeValue(block[at + 12..at + 16]);
    payloadOff := LeValue(block[at + 16..at + 20]);
    ok := entrySize != 0;
  }

  /** Where a trailer of the given size begins, if 24 bytes can be read there, or -1:
      counted back from the end of the block, and once more from the end if it is longer
      than the block. */
  function TrailerPlace(len: nat, size: nat): (at: int)
    ensures at == -1 || 0 <= at <= len - 24
  {
    if 24 <= size <= len then len - size
    else if len + 24 <= size <= 2 * len then 2 * len - size
    else -1
  }

  /** Which blocks are accepted, and where their fields are. */
  lemma {:induction false} TrailerReach(block: seq<byte>)
    ensures HasTrailer(block) <==>
      && 8 <= |block| && LeValue(block[|block| - 4..]) == 0x424C4356
      && var at := TrailerPlace(|block|, LeValue(block[|block| - 8..|block| - 4]));
        at != -1 && LeValue(block[at + 8..at + 12]) != 0
    ensures HasTrailer(block) ==>
      var at := TrailerPlace(|block|, LeValue(block[|block| - 8..|block| - 4]));
      at != -1 && forall i :: 0 <= i < 6 ==> TrailerField(block, i) == LeValue(block[at + 4 * i..at + 4 * i + 4])
  {
    hide LeValue;
    if 8 <= |block| {
      var len, size := |block|, LeValue(block[|block| - 8..|block| - 4]);
      assert block[len - 4..] == block[len - 4..len - 4 + 4];
      assert TrailerOffset(block) == len - size;
      assert CanUnpack(len, len - size, 24) <==> TrailerPlace(len, size) == UnpackAt(len, len - size);
    }
  }

  // ----- writing -----

  /** The trailer after `end` bytes of block, the last of them the address table:
      format, page size, entry size, entry count, where the table starts, its size,
      then the trailer's own size and the magic. */
  function TrailerWords(numEntries: nat, pageSize: nat, end: nat): (r: seq<nat>)
    ensures |r| == 8
  {
    var count := ToUInt32(numEntries);
    var tableBytes := ToUInt32(count * ADDRESS_ENTRY_SIZE);
    [ADDRESS_FORMAT_V2, ToUInt32(pageSize), ADDRESS_ENTRY_SIZE, count, ToUInt32(end - tableBytes), tableBytes, 32, BLOCK_MAGIC]
  }

  /** A block closed by EndCluster: its regions, the address table, the trailer. */
  function ClosedBlock(regions: seq<byte>, table: seq<byte>, pageSize: nat): seq<byte> {
    regions + table + WordBytes(TrailerWords(|table| / ADDRESS_ENTRY_SIZE, pageSize, |regions| + |table|))
  }

  // ----- what was written is read back -----

  lemma {:induction false} WordsAt(front: seq<byte>, ws: seq<nat>, i: nat)
    requires i < |ws| && FitsU32(ws[i])
    ensures Word(front + WordBytes(ws), |front| + 4 * i) == ws[i]
    decreases i
  {
    hide LeValue, LeBytes;
    var all := front + WordBytes(ws);
    if i == 0 {
      U32RoundTrip(ws[0]);
      assert all[|front|..|front| + 4] == LeBytes(ws[0], 4);
    } else {
      WordsAt(front + LeBytes(ws[0], 4), ws[1..], i - 1);
      assert all == front + LeBytes(ws[0], 4) + WordBytes(ws[1..]);
    }
  }

  /** A trailer is found behind anything, and its first six words are its fields. */
  lemma {:induction false} TrailerFound(front: seq<byte>, ws: seq<nat>, i: nat)
    requires |ws| == 8 && ws[6] == 32 && ws[7] == BLOCK_MAGIC && ws[2] == ADDRESS_ENTRY_SIZE
    requires i < 6 && FitsU32(ws[i])
    ensures HasTrailer(front + WordBytes(ws)) && TrailerField(front + WordBytes(ws), i) == ws[i]
  {
    hide LeValue, LeBytes, Word, WordBytes;
    WordsAt(front, ws, 2);
    WordsAt(front, ws, 6);
    WordsAt(front, ws, 7);
    WordsAt(front, ws, i);
  }

  /** However long the block, the analysis finds the trailer EndCluster wrote.  The
      count and the table's start come back as their 32-bit casts: the start of the
      table is right even where its size wrapped. */
  lemma {:induction false} TrailerReadsBack(regions: seq<byte>, table: seq<byte>, pageSize: nat)
    requires |table| % ADDRESS_ENTRY_SIZE == 0
    ensures var block := ClosedBlock(regions, table, pageSize);
      && HasTrailer(block)
      && TrailerField(block, 0) == 2 && TrailerField(block, 1) == ToUInt32(pageSize) && TrailerField(block, 2) == 8
      && TrailerField(block, 3) == ToUInt32(|table| / 8)
      && TrailerField(block, 4) == ToUInt32(|regions|)
      && TrailerField(block, 5) == ToUInt32(|table|)
      && |block| == |regions| + |table| + 32
  {
    hide HasTrailer, TrailerField, WordBytes;
    var n := |table| / ADDRESS_ENTRY_SIZE;
    var ws := TrailerWords(n, pageSize, |regions| + |table|);
    TrailerFound(regions + table, ws, 0);
    TrailerFound(regions + table, ws, 1);
    TrailerFound(regions + table, ws, 2);
    TrailerFound(regions + table, ws, 3);
    TrailerFound(regions + table, ws, 4);
    TrailerFound(regions + table, ws, 5);
    WrapsCancel(|regions|, n);
  }

  lemma {:induction false} WrapsCancel(start: nat, n: nat)
    ensures ToUInt32(start + n * 8 - ToUInt32(ToUInt32(n) * 8)) == ToUInt32(start)
    ensures ToUInt32(ToUInt32(n) * 8) == ToUInt32(n * 8)
  {
  }
}
