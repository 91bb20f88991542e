/** Columns as values: what a chunk writer holds, the serialised image of a store,
    and reading a cell back from it by its locator. */
module ColumnFormat {
  import opened Bits
  import opened Status

  datatype DType =
    | INT8 | INT16 | INT32 | INT64 | UINT8 | UINT16 | UINT32 | UINT64
    | FLOAT16 | FLOAT32 | FLOAT64
    | STRING | BYTES
    | VECTOR_FLOAT32 | VECTOR_FLOAT16 | VECTOR_INT8 | VECTOR_UINT8
    | BOOL | TIMESTAMP

  /** Byte size of fixed-width types, 0 for variable-length and vector types. */
  function DTypeSize(t: DType): (n: nat)
    ensures n <= 8
  {
    match t
    case INT8 | UINT8 | BOOL => 1
    case INT16 | UINT16 | FLOAT16 => 2
    case INT32 | UINT32 | FLOAT32 => 4
    case INT64 | UINT64 | FLOAT64 | TIMESTAMP => 8
    case _ => 0
  }

  predicate IsFixedWidth(t: DType) {
    DTypeSize(t) > 0
  }

  /** The eight bytes of the fixed-width union. */
  type Fixed = s: seq<byte> | |s| == 8 witness [0, 0, 0, 0, 0, 0, 0, 0]

  datatype Datum = Datum(dtype: DType, fixed: Fixed, varData: seq<byte>)

  /** The bytes a datum is stored as. */
  function Payload(d: Datum): seq<byte> {
    if IsFixedWidth(d.dtype) then d.fixed[..DTypeSize(d.dtype)] else d.varData
  }

  function Zeros(n: nat): (r: seq<byte>)
    ensures |r| == n && forall i :: 0 <= i < n ==> r[i] == 0
  {
    seq(n, i => 0)
  }

  /** A datum built the way the constructors build it: nothing outside its payload. */
  predicate Canonical(d: Datum) {
    if IsFixedWidth(d.dtype) then d.varData == [] && d.fixed[DTypeSize(d.dtype)..] == Zeros(8 - DTypeSize(d.dtype))
    else d.fixed == Zeros(8)
  }

  datatype ColumnSchema = ColumnSchema(id: nat, dtype: DType)

  datatype ColumnLocator = ColumnLocator(chunkId: nat, dataOffset: nat, dataLength: nat, offsetTablePos: nat)

  // ----- one column's writer -----

  datatype WriterState = WriterState(schema: ColumnSchema, chunkId: nat, base: nat,
                                     data: seq<byte>, offsets: seq<nat>, numRecords: nat)

  function NewWriter(schema: ColumnSchema, chunkId: nat, base: nat): WriterState {
    WriterState(schema, chunkId, base, [], if IsFixedWidth(schema.dtype) then [] else [0], 0)
  }

  /** Fixed-width columns hold whole records; variable-length ones have an offset
      table that runs without gaps from 0 to the end of the data. */
  ghost predicate WellFormed(w: WriterState) {
    if IsFixedWidth(w.schema.dtype) then
      w.offsets == [] && |w.data| == w.numRecords * DTypeSize(w.schema.dtype)
    else
      && |w.offsets| == w.numRecords + 1
      && w.offsets[0] == 0
      && w.offsets[w.numRecords] == |w.data|
      && forall i, j :: 0 <= i <= j < |w.offsets| ==> w.offsets[i] <= w.offsets[j]
  }

  predicate Accepts(w: WriterState, bytes: seq<byte>) {
    IsFixedWidth(w.schema.dtype) ==> |bytes| == DTypeSize(w.schema.dtype)
  }

  /** The writer after accepting a value. */
  function Appended(w: WriterState, bytes: seq<byte>): WriterState {
    w.(data := w.data + bytes,
       offsets := if IsFixedWidth(w.schema.dtype) then w.offsets else w.offsets + [|w.data| + |bytes|],
       numRecords := w.numRecords + 1)
  }

  /** The locator handed out for a value. */
  function LocatorFor(w: WriterState, bytes: seq<byte>): ColumnLocator {
    ColumnLocator(w.chunkId, w.base + |w.data|, ToUInt32(|bytes|),
                  if IsFixedWidth(w.schema.dtype) then 0 else ToUInt32(w.numRecords))
  }

  lemma {:induction false} AppendKeepsWellFormed(w: WriterState, bytes: seq<byte>)
    requires WellFormed(w) && Accepts(w, bytes)
    ensures WellFormed(Appended(w, bytes))
  {
    var w' := Appended(w, bytes);
    if IsFixedWidth(w.schema.dtype) {
      assert w'.numRecords * |bytes| == w.numRecords * |bytes| + |bytes|;
    }
  }

  /** A locator agrees with the offset table, now and after any later appends: its value
      starts at the table entry of its record.  The length it records is the step to the
      next entry, and its slot is the record, if and only if each fits 32 bits. */
  lemma {:induction false} LocatorMatchesTable(w: WriterState, bytes: seq<byte>, later: WriterState)
    requires WellFormed(w) && Accepts(w, bytes) && !IsFixedWidth(w.schema.dtype)
    requires Appended(w, bytes).offsets <= later.offsets
    ensures var loc := LocatorFor(w, bytes); var s := w.numRecords;
      && s + 1 < |later.offsets|
      && loc.chunkId == w.chunkId && loc.dataOffset == w.base + later.offsets[s]
      && (loc.dataLength == later.offsets[s + 1] - later.offsets[s] <==> FitsU32(|bytes|))
      && (loc.offsetTablePos == s <==> FitsU32(s))
  {
    var offsets := Appended(w, bytes).offsets;
    assert later.offsets[w.numRecords] == offsets[w.numRecords] == |w.data|;
    assert later.offsets[w.numRecords + 1] == offsets[w.numRecords + 1];
  }

  /** A fixed-width locator points at its record: records lie one width apart from the
      base on, and have no table slot. */
  lemma {:induction false} LocatorOfFixed(w: WriterState, bytes: seq<byte>)
    requires WellFormed(w) && Accepts(w, bytes) && IsFixedWidth(w.schema.dtype)
    ensures LocatorFor(w, bytes) == ColumnLocator(w.chunkId, w.base + w.numRecords * |bytes|, |bytes|, 0)
  {
  }

  /** The offset table as it is stored: eight little-endian bytes per entry. */
  function Table(offsets: seq<nat>): (r: seq<byte>)
    ensures |r| == 8 * |offsets|
  {
    if offsets == [] then [] else Table(offsets[..|offsets|-1]) + LeBytes(offsets[|offsets|-1], 8)
  }

  function Region(w: WriterState): (r: seq<byte>)
    ensures |r| == |w.data| + 8 * |w.offsets|
  {
    w.data + Table(w.offsets)
  }

  lemma {:induction false} TableEntry(offsets: seq<nat>, s: nat)
    requires s < |offsets|
    ensures Table(offsets)[8 * s..8 * s + 8] == LeBytes(offsets[s], 8)
  {
    var n := |offsets| - 1;
    if s < n {
      TableEntry(offsets[..n], s);
      assert Table(offsets)[8 * s..8 * s + 8] == Table(offsets[..n])[8 * s..8 * s + 8];
    }
  }

  // ----- all columns -----

  /** The column regions one after the other. */
  function Body(ws: seq<WriterState>): seq<byte> {
    if ws == [] then [] else Body(ws[..|ws|-1]) + Region(ws[|ws|-1])
  }

  /** Where column i's region starts within the body. */
  function RegionOffset(ws: seq<WriterState>, i: nat): nat
    requires i <= |ws|
  {
    |Body(ws[..i])|
  }

  /** The offset header: eight little-endian bytes per column. */
  function OffsetHeader(ws: seq<WriterState>, n: nat): (r: seq<byte>)
    requires n <= |ws|
    ensures |r| == 8 * n
  {
    if n == 0 then [] else OffsetHeader(ws, n - 1) + LeBytes(RegionOffset(ws, n - 1), 8)
  }

  function Header(ws: seq<WriterState>): (r: seq<byte>)
    ensures |r| == 4 + 8 * |ws|
  {
    LeBytes(|ws|, 4) + OffsetHeader(ws, |ws|)
  }

  function Image(ws: seq<WriterState>): seq<byte> {
    Header(ws) + Body(ws)
  }

  /** Regions tile the body: each starts where the previous one ends, the first at
      0, the last ending at the end. */
  lemma {:induction false} RegionsTile(ws: seq<WriterState>)
    ensures RegionOffset(ws, 0) == 0
    ensures forall i :: 0 <= i < |ws| ==> RegionOffset(ws, i + 1) == RegionOffset(ws, i) + |Region(ws[i])|
    ensures RegionOffset(ws, |ws|) == |Body(ws)|
  {
    assert ws[..|ws|] == ws;
    forall i | 0 <= i < |ws| ensures RegionOffset(ws, i + 1) == RegionOffset(ws, i) + |Region(ws[i])| {
      assert ws[..i+1][..i] == ws[..i];
    }
  }

  lemma {:induction false} BodyPrefix(ws: seq<WriterState>, i: nat)
    requires i <= |ws|
    ensures Body(ws[..i]) <= Body(ws)
  {
    if i == |ws| {
      assert ws[..i] == ws;
    } else {
      var init := ws[..|ws|-1];
      assert init[..i] == ws[..i];
      BodyPrefix(init, i);
    }
  }

  lemma {:induction false} RegionInBody(ws: seq<WriterState>, i: nat)
    requires i < |ws|
    ensures var o := RegionOffset(ws, i);
      o + |Region(ws[i])| <= |Body(ws)| && Body(ws)[o..o + |Region(ws[i])|] == Region(ws[i])
  {
    BodyPrefix(ws, i + 1);
    BodyStep(ws, i);
    TailOfPrefix(Body(ws), Body(ws[..i]), Region(ws[i]));
  }

  lemma {:induction false} BodyStep(ws: seq<WriterState>, i: nat)
    requires i < |ws|
    ensures Body(ws[..i+1]) == Body(ws[..i]) + Region(ws[i])
  {
    assert ws[..i+1][..i] == ws[..i];
  }

  lemma {:induction false} TailOfPrefix<T>(s: seq<T>, a: seq<T>, b: seq<T>)
    requires a + b <= s
    ensures s[|a|..|a| + |b|] == b
  {
    assert forall k :: 0 <= k < |b| ==> s[|a| + k] == (a + b)[|a| + k] == b[k];
  }

  /** What lies at a place in a region lies there in the body. */
  lemma {:induction false} BytesInBody(ws: seq<WriterState>, i: nat, at: nat, bytes: seq<byte>)
    requires i < |ws| && at + |bytes| <= |Region(ws[i])|
    requires Region(ws[i])[at..at + |bytes|] == bytes
    ensures RegionOffset(ws, i) + at + |bytes| <= |Body(ws)|
    ensures Body(ws)[RegionOffset(ws, i) + at..RegionOffset(ws, i) + at + |bytes|] == bytes
  {
    RegionInBody(ws, i);
    SliceWithin(Body(ws), RegionOffset(ws, i), Region(ws[i]), at, bytes);
  }

  /** Cell bytes sit at region offset plus data offset. */
  lemma {:induction false} CellInBody(ws: seq<WriterState>, i: nat, at: nat, bytes: seq<byte>)
    requires i < |ws| && at + |bytes| <= |ws[i].data|
    requires ws[i].data[at..at + |bytes|] == bytes
    ensures RegionOffset(ws, i) + at + |bytes| <= |Body(ws)|
    ensures Body(ws)[RegionOffset(ws, i) + at..RegionOffset(ws, i) + at + |bytes|] == bytes
  {
    assert Region(ws[i])[at..at + |bytes|] == ws[i].data[at..at + |bytes|];
    BytesInBody(ws, i, at, bytes);
  }

  /** Where entry s of column i's stored offset table lies. */
  function TablePlace(ws: seq<WriterState>, i: nat, s: nat): nat
    requires i < |ws|
  {
    RegionOffset(ws, i) + (|ws[i].data| + 8 * s)
  }

  /** A little-endian 64-bit word in a buffer. */
  function U64At(buf: seq<byte>, at: nat): nat
    requires at + 8 <= |buf|
  {
    LeValue(buf[at..at + 8])
  }

  lemma {:induction false} U64Stored(buf: seq<byte>, at: nat, v: nat)
    requires at + 8 <= |buf| && FitsU64(v)
    requires buf[at..at + 8] == LeBytes(v, 8)
    ensures U64At(buf, at) == v
  {
    U64RoundTrip(v);
  }

  /** The stored offset table of a variable-length column reads back entry by entry. */
  lemma {:induction false} TableInBody(ws: seq<WriterState>, i: nat, s: nat)
    requires i < |ws| && s < |ws[i].offsets| && FitsU64(ws[i].offsets[s])
    ensures TablePlace(ws, i, s) + 8 <= |Body(ws)|
    ensures U64At(Body(ws), TablePlace(ws, i, s)) == ws[i].offsets[s]
  {
    var entry := LeBytes(ws[i].offsets[s], 8);
    assert TablePlace(ws, i, s) + 8 <= |Body(ws)| && Body(ws)[TablePlace(ws, i, s)..TablePlace(ws, i, s) + 8] == entry by {
      TableInRegion(ws[i], s);
      BytesInBody(ws, i, |ws[i].data| + 8 * s, entry);
    }
    U64Stored(Body(ws), TablePlace(ws, i, s), ws[i].offsets[s]);
  }

  lemma {:induction false} TableInRegion(w: WriterState, s: nat)
    requires s < |w.offsets|
    ensures var at := |w.data| + 8 * s;
      at + 8 <= |Region(w)| && Region(w)[at..at + 8] == LeBytes(w.offsets[s], 8)
  {
    TableEntry(w.offsets, s);
    var at := |w.data| + 8 * s;
    assert Region(w)[at..at + 8] == Table(w.offsets)[8 * s..8 * s + 8];
  }

  // ----- ingesting rows -----

  type Row = map<nat, Datum>

  /** Columns i, i+1, ... of one row, in schema order, stopping at the first column
      that is missing or refused; earlier columns keep what they were given. */
  function IngestFrom(ws: seq<WriterState>, row: Row, i: nat): (r: (seq<WriterState>, Result<seq<ColumnLocator>>))
    requires i <= |ws|
    ensures |r.0| == |ws|
    decreases |ws| - i
  {
    if i == |ws| then (ws, Ok([]))
    else if ws[i].schema.id !in row then (ws, Err(InvalidArgument))
    else
      var bytes := Payload(row[ws[i].schema.id]);
      if !Accepts(ws[i], bytes) then (ws, Err(InvalidArgument))
      else
        var (ws', rest) := IngestFrom(ws[i := Appended(ws[i], bytes)], row, i + 1);
        (ws', if rest.Ok? then Ok([LocatorFor(ws[i], bytes)] + rest.value) else rest)
  }

  predicate Takes(w: WriterState, row: Row) {
    w.schema.id in row && Accepts(w, Payload(row[w.schema.id]))
  }

  function WithRow(w: WriterState, row: Row): WriterState
    requires Takes(w, row)
  {
    Appended(w, Payload(row[w.schema.id]))
  }

  /** The first column from i on that refuses the row, or the column count. */
  function FirstRefused(ws: seq<WriterState>, row: Row, i: nat): (m: nat)
    requires i <= |ws|
    ensures i <= m <= |ws| && (m < |ws| ==> !Takes(ws[m], row))
    ensures forall k :: i <= k < m ==> Takes(ws[k], row)
    decreases |ws| - i
  {
    if i == |ws| || !Takes(ws[i], row) then i else FirstRefused(ws, row, i + 1)
  }

  /** An ingest succeeds exactly when no column refuses; either way the columns before
      the first refusal are one record ahead and all others are as they were. */
  lemma {:induction false} PartialIngest(ws: seq<WriterState>, row: Row, i: nat)
    requires i <= |ws|
    ensures IngestFrom(ws, row, i).1.Ok? <==> FirstRefused(ws, row, i) == |ws|
    ensures forall k :: 0 <= k < |ws| ==>
              IngestFrom(ws, row, i).0[k] == (if i <= k < FirstRefused(ws, row, i) then WithRow(ws[k], row) else ws[k])
    decreases |ws| - i
  {
    hide Appended, Payload, Accepts;
    if i < |ws| && Takes(ws[i], row) {
      var next := ws[i := Appended(ws[i], Payload(row[ws[i].schema.id]))];
      PartialIngest(next, row, i + 1);
      SameRefusal(ws, next, row, i + 1);
    }
  }

  lemma {:induction false} SameRefusal(ws: seq<WriterState>, ws': seq<WriterState>, row: Row, i: nat)
    requires |ws| == |ws'| && i <= |ws| && forall k :: i <= k < |ws| ==> ws[k] == ws'[k]
    ensures FirstRefused(ws, row, i) == FirstRefused(ws', row, i)
    decreases |ws| - i
  {
    if i < |ws| {
      SameRefusal(ws, ws', row, i + 1);
    }
  }

  /** The writers after a history of ingests, whether they succeeded or not. */
  function AfterHistory(ws: seq<WriterState>, history: seq<Row>): (r: seq<WriterState>)
    ensures |r| == |ws|
    decreases |history|
  {
    if history == [] then ws else AfterHistory(IngestFrom(ws, history[0], 0).0, history[1..])
  }

  /** Later states only add to earlier ones. */
  ghost predicate Extends(a: WriterState, b: WriterState) {
    a.schema == b.schema && a.chunkId == b.chunkId && a.base == b.base
      && a.data <= b.data && a.offsets <= b.offsets && a.numRecords <= b.numRecords
  }

  ghost predicate AllExtend(ws: seq<WriterState>, ws': seq<WriterState>) {
    |ws| == |ws'| && forall i :: 0 <= i < |ws| ==> Extends(ws[i], ws'[i])
  }

  ghost predicate AllWellFormed(ws: seq<WriterState>) {
    forall i :: 0 <= i < |ws| ==> WellFormed(ws[i])
  }

  lemma {:induction false} IngestExtends(ws: seq<WriterState>, row: Row, i: nat)
    requires i <= |ws|
    ensures AllExtend(ws, IngestFrom(ws, row, i).0)
    ensures IngestFrom(ws, row, i).0[..i] == ws[..i]
    decreases |ws| - i
  {
    hide Payload, Accepts;
    if i < |ws| && ws[i].schema.id in row && Accepts(ws[i], Payload(row[ws[i].schema.id])) {
      var next := ws[i := Appended(ws[i], Payload(row[ws[i].schema.id]))];
      IngestExtends(next, row, i + 1);
      assert AllExtend(ws, next);
      assert next[..i+1][..i] == ws[..i];
    }
  }

  lemma {:induction false} IngestKeepsWellFormed(ws: seq<WriterState>, row: Row, i: nat)
    requires i <= |ws| && AllWellFormed(ws)
    ensures AllWellFormed(IngestFrom(ws, row, i).0)
    decreases |ws| - i
  {
    if i < |ws| && ws[i].schema.id in row && Accepts(ws[i], Payload(row[ws[i].schema.id])) {
      AppendKeepsWellFormed(ws[i], Payload(row[ws[i].schema.id]));
      IngestKeepsWellFormed(ws[i := Appended(ws[i], Payload(row[ws[i].schema.id]))], row, i + 1);
    }
  }

  lemma {:induction false} HistoryExtends(ws: seq<WriterState>, history: seq<Row>)
    ensures AllExtend(ws, AfterHistory(ws, history))
    ensures AllWellFormed(ws) ==> AllWellFormed(AfterHistory(ws, history))
    decreases |history|
  {
    if history != [] {
      IngestExtends(ws, history[0], 0);
      if AllWellFormed(ws) {
        IngestKeepsWellFormed(ws, history[0], 0);
      }
      HistoryExtends(IngestFrom(ws, history[0], 0).0, history[1..]);
    }
  }

  /** The row has a value that fits for every column up to k. */
  predicate Reaching(schemas: seq<ColumnSchema>, row: Row, k: nat)
    requires k < |schemas|
  {
    forall j :: 0 <= j <= k ==>
      schemas[j].id in row && (IsFixedWidth(schemas[j].dtype) ==> |Payload(row[schemas[j].id])| == DTypeSize(schemas[j].dtype))
  }

  /** The values that the rows of a history leave in a column: those of the rows that
      reach it, whether or not their ingest then succeeded. */
  function Reached(schemas: seq<ColumnSchema>, history: seq<Row>, k: nat): seq<seq<byte>>
    requires k < |schemas|
  {
    if history == [] then []
    else
      (if Reaching(schemas, history[0], k) then [Payload(history[0][schemas[k].id])] else []) + Reached(schemas, history[1..], k)
  }

  function JoinBytes(parts: seq<seq<byte>>): seq<byte> {
    if parts == [] then [] else parts[0] + JoinBytes(parts[1..])
  }

  /** What a history leaves in a column is what was there and those values, in order. */
  lemma {:induction false} HistoryStores(ws: seq<WriterState>, schemas: seq<ColumnSchema>, history: seq<Row>, k: nat)
    requires |ws| == |schemas| && (forall j :: 0 <= j < |ws| ==> ws[j].schema == schemas[j]) && k < |ws|
    ensures var w := AfterHistory(ws, history)[k];
      && w.data == ws[k].data + JoinBytes(Reached(schemas, history, k))
      && w.numRecords == ws[k].numRecords + |Reached(schemas, history, k)|
    decreases |history|
  {
    hide IngestFrom, Payload, JoinBytes;
    JoinFirst(ws[k].data, [], []);
    if history != [] {
      var next := IngestFrom(ws, history[0], 0).0;
      IngestExtends(ws, history[0], 0);
      assert forall j :: 0 <= j < |ws| ==> Extends(ws[j], next[j]);
      RowStores(ws, schemas, history[0], k);
      HistoryStores(next, schemas, history[1..], k);
      var first := if Reaching(schemas, history[0], k) then [Payload(history[0][schemas[k].id])] else [];
      JoinFirst(ws[k].data, first, Reached(schemas, history[1..], k));
    }
  }

  lemma {:induction false} JoinFirst(data: seq<byte>, first: seq<seq<byte>>, rest: seq<seq<byte>>)
    requires |first| <= 1
    ensures data + JoinBytes(first + rest) == (if first == [] then data else data + first[0]) + JoinBytes(rest)
    ensures JoinBytes([]) == [] && data + [] == data
  {
    if first == [] {
      assert first + rest == rest;
    } else {
      assert (first + rest)[1..] == rest;
    }
  }

  lemma {:induction false} RowStores(ws: seq<WriterState>, schemas: seq<ColumnSchema>, row: Row, k: nat)
    requires |ws| == |schemas| && (forall j :: 0 <= j < |ws| ==> ws[j].schema == schemas[j]) && k < |ws|
    ensures var w := IngestFrom(ws, row, 0).0[k];
      if Reaching(schemas, row, k) then
        w.data == ws[k].data + Payload(row[schemas[k].id]) && w.numRecords == ws[k].numRecords + 1
      else w == ws[k]
  {
    hide Payload, IngestFrom, FirstRefused;
    PartialIngest(ws, row, 0);
    var m := FirstRefused(ws, row, 0);
    if k < m {
      assert forall j :: 0 <= j <= k ==> Takes(ws[j], row);
    } else {
      assert !Takes(ws[m], row);
    }
  }

  /** The bytes a row stores in a column. */
  function CellBytes(w: WriterState, row: Row): seq<byte>
    requires w.schema.id in row
  {
    Payload(row[w.schema.id])
  }

  /** One column of a successful ingest. */
  lemma {:induction false} IngestStep(ws: seq<WriterState>, row: Row, i: nat) returns (next: seq<WriterState>)
    requires i < |ws| && IngestFrom(ws, row, i).1.Ok?
    ensures ws[i].schema.id in row && Accepts(ws[i], CellBytes(ws[i], row))
    ensures next == ws[i := Appended(ws[i], CellBytes(ws[i], row))]
    ensures IngestFrom(next, row, i + 1).1.Ok?
    ensures IngestFrom(ws, row, i).0 == IngestFrom(next, row, i + 1).0
    ensures IngestFrom(ws, row, i).1.value ==
      [LocatorFor(ws[i], CellBytes(ws[i], row))] + IngestFrom(next, row, i + 1).1.value
  {
    next := ws[i := Appended(ws[i], CellBytes(ws[i], row))];
  }

  /** A successful ingest hands out one locator per column. */
  lemma {:induction false} LocatorCount(ws: seq<WriterState>, row: Row, i: nat)
    requires i <= |ws| && IngestFrom(ws, row, i).1.Ok?
    ensures |IngestFrom(ws, row, i).1.value| == |ws| - i
    decreases |ws| - i
  {
    hide Appended, Payload, Accepts, LocatorFor;
    if i < |ws| {
      var next := IngestStep(ws, row, i);
      LocatorCount(next, row, i + 1);
    }
  }

  /** The locator was handed out by the column's writer for the row's bytes, and
      the writer has only grown since. */
  ghost predicate Addressed(w: WriterState, row: Row, loc: ColumnLocator, w': WriterState) {
    && w.schema.id in row
    && Accepts(w, CellBytes(w, row))
    && loc == LocatorFor(w, CellBytes(w, row))
    && Extends(Appended(w, CellBytes(w, row)), w')
  }

  lemma {:induction false} LocatorsAddress(ws: seq<WriterState>, row: Row, i: nat, k: nat, locs: seq<ColumnLocator>)
    requires i <= k < |ws| && IngestFrom(ws, row, i).1 == Ok(locs)
    requires |locs| == |ws| - i
    ensures Addressed(ws[k], row, locs[k - i], IngestFrom(ws, row, i).0[k])
    decreases |ws| - i
  {
    hide Addressed, Appended, Payload, Accepts, LocatorFor;
    if k == i {
      FirstAddressed(ws, row, i);
    } else {
      var next := IngestStep(ws, row, i);
      assert locs[1..] == IngestFrom(next, row, i + 1).1.value;
      LocatorsAddress(next, row, i + 1, k, locs[1..]);
    }
  }

  lemma {:induction false} FirstAddressed(ws: seq<WriterState>, row: Row, i: nat)
    requires i < |ws| && IngestFrom(ws, row, i).1.Ok?
    ensures var r := IngestFrom(ws, row, i);
      r.1.value != [] && Addressed(ws[i], row, r.1.value[0], r.0[i])
  {
    hide AllExtend, Appended, Payload, Accepts;
    var next := IngestStep(ws, row, i);
    IngestExtends(next, row, i + 1);
  }

  // ----- reading -----

  datatype ColumnChunkReader = ColumnChunkReader(mem: seq<byte>, schema: ColumnSchema, base: nat) {
    function ReadBytes(offset: nat, len: nat): Result<seq<byte>>
      requires base <= offset
    {
      var local := offset - base;
      if local + len > |mem| then Err(IOError) else Ok(mem[local..local + len])
    }

    /** The raw bytes of a cell; an empty value is returned without looking. */
    function ReadAt(loc: ColumnLocator): Result<seq<byte>>
      requires base <= loc.dataOffset
    {
      if loc.dataLength == 0 then Ok([]) else ReadBytes(loc.dataOffset, loc.dataLength)
    }

    /** The cell as a datum of the column's type. */
    function ReadDatum(loc: ColumnLocator): Result<Datum>
      requires base <= loc.dataOffset
    {
      if IsFixedWidth(schema.dtype) then
        if loc.dataLength > 8 then Err(Internal)
        else
          var bytes := ReadBytes(loc.dataOffset, loc.dataLength);
          if bytes.Err? then Err(bytes.error)
          else Ok(Datum(schema.dtype, (bytes.value + Zeros(8))[..8], []))
      else
        var bytes := ReadAt(loc);
        if bytes.Err? then Err(bytes.error) else Ok(Datum(schema.dtype, Zeros(8), bytes.value))
    }
  }

  /** The store hands every reader the body from its start. */
  type BodyReader = r: ColumnChunkReader | r.base == 0 witness ColumnChunkReader([], ColumnSchema(0, INT8), 0)

  /** What a read looks at: whether the store was opened for reading, and what an open
      leaves behind. */
  datatype ReadState = ReadState(forReading: bool, readers: seq<BodyReader>, regionOffsets: seq<nat>, idToIdx: map<nat, nat>) {
    /** Looking this column up finds no reader or one that exists. */
    predicate Serves(id: nat) {
      forReading && id in idToIdx ==> idToIdx[id] < |readers|
    }

    ghost predicate Valid() {
      forReading && forall id :: id in idToIdx ==> idToIdx[id] < |readers|
    }
  }

  /** A column and where its cell is. */
  type CellRef = (nat, ColumnLocator)

  /** The last column with an id wins. */
  function IdMap(schemas: seq<ColumnSchema>): map<nat, nat> {
    if schemas == [] then map[]
    else IdMap(schemas[..|schemas|-1])[schemas[|schemas|-1].id := |schemas| - 1]
  }

  lemma {:induction false} IdMapHas(schemas: seq<ColumnSchema>, id: nat)
    ensures id in IdMap(schemas) <==> exists i :: 0 <= i < |schemas| && schemas[i].id == id
  {
    if schemas != [] {
      var n := |schemas| - 1;
      IdMapHas(schemas[..n], id);
      assert forall i :: 0 <= i < n ==> schemas[..n][i] == schemas[i];
    }
  }

  lemma {:induction false} IdMapInRange(schemas: seq<ColumnSchema>)
    ensures forall id :: id in IdMap(schemas) ==> IdMap(schemas)[id] < |schemas| && schemas[IdMap(schemas)[id]].id == id
  {
    if schemas != [] {
      IdMapInRange(schemas[..|schemas|-1]);
    }
  }

  function ReadU64s(buf: seq<byte>, at: nat, n: nat): (r: seq<nat>)
    requires at + 8 * n <= |buf|
    ensures |r| == n
  {
    if n == 0 then [] else ReadU64s(buf, at, n - 1) + [U64At(buf, at + 8 * (n - 1))]
  }

  function OpenImage(buf: seq<byte>, schemas: seq<ColumnSchema>): (r: Result<ReadState>)
    ensures r.Ok? ==> r.value.Valid()
  {
    var headerSize := 4 + 8 * |schemas|;
    if |buf| < headerSize then Err(InvalidArgument)
    else if LeValue(buf[..4]) != |schemas| then Err(InvalidArgument)
    else
      IdMapInRange(schemas);
      Ok(ReadState(
        true,
        seq(|schemas|, i requires 0 <= i < |schemas| => ColumnChunkReader(buf[headerSize..], schemas[i], 0)),
        ReadU64s(buf, 4, |schemas|),
        IdMap(schemas)))
  }

  /** Adjusts the locator by its column's region offset and reads it. */
  function ReadCell(st: ReadState, id: nat, loc: ColumnLocator): Result<Datum>
    requires st.Serves(id)
  {
    if !st.forReading then Err(InvalidArgument)
    else if id !in st.idToIdx then Err(NotFound)
    else
      var idx := st.idToIdx[id];
      var adjusted :=
        if idx < |st.regionOffsets| then
          loc.(dataOffset := loc.dataOffset + st.regionOffsets[idx],
               offsetTablePos := ToUInt32(loc.offsetTablePos + st.regionOffsets[idx]))
        else loc;
      st.readers[idx].ReadDatum(adjusted)
  }

  /** A store not opened for reading refuses, and a column it does not have is not found,
      whatever the locator; no other cell is answered so. */
  lemma {:induction false} CellRefusals(st: ReadState, id: nat, loc: ColumnLocator)
    requires st.Serves(id)
    ensures ReadCell(st, id, loc) == Err(InvalidArgument) <==> !st.forReading
    ensures ReadCell(st, id, loc) == Err(NotFound) <==> st.forReading && id !in st.idToIdx
  {
  }

  /** Opens an image afresh and reads one cell of it. */
  function ReadBack(image: seq<byte>, schemas: seq<ColumnSchema>, id: nat, loc: ColumnLocator): Result<Datum> {
    var st := OpenImage(image, schemas);
    if st.Err? then Err(st.error) else ReadCell(st.value, id, loc)
  }

  // ----- the round trip -----

  function NewWriters(schemas: seq<ColumnSchema>): (r: seq<WriterState>)
    ensures |r| == |schemas|
  {
    seq(|schemas|, i requires 0 <= i < |schemas| => NewWriter(schemas[i], 0, 0))
  }

  predicate DistinctIds(schemas: seq<ColumnSchema>) {
    forall i, j :: 0 <= i < j < |schemas| ==> schemas[i].id != schemas[j].id
  }

  /** The header's 32- and 64-bit fields hold the column count and the offsets. */
  predicate Storable(ws: seq<WriterState>) {
    FitsU32(|ws|) && FitsU64(|Body(ws)|)
  }

  lemma {:induction false} IdMapFinds(schemas: seq<ColumnSchema>, i: nat)
    requires DistinctIds(schemas) && i < |schemas|
    ensures schemas[i].id in IdMap(schemas) && IdMap(schemas)[schemas[i].id] == i
  {
    if i < |schemas| - 1 {
      IdMapFinds(schemas[..|schemas|-1], i);
    }
  }

  lemma {:induction false} HeaderEntry(ws: seq<WriterState>, n: nat, i: nat)
    requires i < n <= |ws|
    ensures OffsetHeader(ws, n)[8 * i..8 * i + 8] == LeBytes(RegionOffset(ws, i), 8)
  {
    if i < n - 1 {
      HeaderEntry(ws, n - 1, i);
      assert OffsetHeader(ws, n)[8 * i..8 * i + 8] == OffsetHeader(ws, n - 1)[8 * i..8 * i + 8];
    }
  }

  lemma {:induction false} ReadU64sAt(buf: seq<byte>, at: nat, n: nat, i: nat)
    requires at + 8 * n <= |buf| && i < n
    ensures ReadU64s(buf, at, n)[i] == U64At(buf, at + 8 * i)
  {
    if i < n - 1 {
      ReadU64sAt(buf, at, n - 1, i);
    }
  }

  lemma {:induction false} OffsetReadsBack(ws: seq<WriterState>, i: nat)
    requires i < |ws| && Storable(ws)
    ensures |Image(ws)| >= 4 + 8 * |ws|
    ensures U64At(Image(ws), 4 + 8 * i) == RegionOffset(ws, i)
  {
    HeaderEntry(ws, |ws|, i);
    SliceWithin(Image(ws), 4, OffsetHeader(ws, |ws|), 8 * i, LeBytes(RegionOffset(ws, i), 8));
    BodyPrefix(ws, i);
    U64Stored(Image(ws), 4 + 8 * i, RegionOffset(ws, i));
  }

  /** Opening what SerialiseAll wrote succeeds, finds every region, and gives every
      reader the whole body. */
  lemma {:induction false} OpenOfImage(ws: seq<WriterState>, schemas: seq<ColumnSchema>)
    requires |schemas| == |ws| && Storable(ws)
    ensures OpenImage(Image(ws), schemas).Ok?
    ensures var st := OpenImage(Image(ws), schemas).value;
      && st.idToIdx == IdMap(schemas)
      && |st.readers| == |st.regionOffsets| == |ws|
      && forall i :: 0 <= i < |ws| ==>
        st.readers[i] == ColumnChunkReader(Body(ws), schemas[i], 0) && st.regionOffsets[i] == RegionOffset(ws, i)
  {
    assert Image(ws)[..4] == LeBytes(|ws|, 4);
    U32RoundTrip(|ws|);
    assert Image(ws)[4 + 8 * |ws|..] == Body(ws);
    forall i | 0 <= i < |ws| ensures ReadU64s(Image(ws), 4, |ws|)[i] == RegionOffset(ws, i) {
      ReadU64sAt(Image(ws), 4, |ws|, i);
      OffsetReadsBack(ws, i);
    }
  }

  /** An image opens with as many schemas as it has columns, and with no other number. */
  lemma {:induction false} OpensExactly(ws: seq<WriterState>, schemas: seq<ColumnSchema>)
    requires Storable(ws)
    ensures OpenImage(Image(ws), schemas).Ok? <==> |schemas| == |ws|
    ensures |schemas| != |ws| ==> OpenImage(Image(ws), schemas) == Err(InvalidArgument)
  {
    if |schemas| == |ws| {
      OpenOfImage(ws, schemas);
    } else {
      assert Image(ws)[..4] == LeBytes(|ws|, 4);
      U32RoundTrip(|ws|);
    }
  }

  /** The datum a column of this type gives for these bytes. */
  function Stored(t: DType, bytes: seq<byte>): Datum {
    if IsFixedWidth(t) then Datum(t, (bytes + Zeros(8))[..8], []) else Datum(t, Zeros(8), bytes)
  }

  /** A reader over memory that begins at a base and holds these bytes where the locator
      points. */
  lemma {:induction false} ReaderFinds(r: ColumnChunkReader, bytes: seq<byte>, loc: ColumnLocator)
    requires r.base <= loc.dataOffset && loc.dataLength == |bytes|
    requires IsFixedWidth(r.schema.dtype) ==> |bytes| == DTypeSize(r.schema.dtype)
    requires var at := loc.dataOffset - r.base; at + |bytes| <= |r.mem| && r.mem[at..at + |bytes|] == bytes
    ensures r.ReadDatum(loc) == Ok(Stored(r.schema.dtype, bytes))
  {
  }

  /** Which reads fail, and how: a fixed-width cell of more than eight bytes, and any cell
      that ends behind the memory, except an empty one of a varying type. */
  lemma {:induction false} ReaderRefuses(r: ColumnChunkReader, loc: ColumnLocator)
    requires r.base <= loc.dataOffset
    ensures var past := r.base + |r.mem| < loc.dataOffset + loc.dataLength; var d := r.ReadDatum(loc);
      if IsFixedWidth(r.schema.dtype) then
        && (d == Err(Internal) <==> 8 < loc.dataLength)
        && (d == Err(IOError) <==> loc.dataLength <= 8 && past)
        && (d.Err? ==> d.error in {Internal, IOError})
      else
        && (d.Err? <==> 0 < loc.dataLength && past)
        && (d.Err? ==> d.error == IOError)
        && (loc.dataLength == 0 ==> d == Ok(Datum(r.schema.dtype, Zeros(8), [])))
  {
  }

  /** Reading the cell a writer addressed, from the image of any later state. */
  lemma {:induction false} ReadOfImage(ws: seq<WriterState>, schemas: seq<ColumnSchema>, k: nat, bytes: seq<byte>, loc: ColumnLocator)
    requires |schemas| == |ws| && Storable(ws) && DistinctIds(schemas) && k < |ws|
    requires IsFixedWidth(schemas[k].dtype) ==> |bytes| == DTypeSize(schemas[k].dtype)
    requires loc.dataLength == |bytes| && loc.dataOffset + |bytes| <= |ws[k].data|
    requires ws[k].data[loc.dataOffset..loc.dataOffset + |bytes|] == bytes
    ensures ReadBack(Image(ws), schemas, schemas[k].id, loc) == Ok(Stored(schemas[k].dtype, bytes))
  {
    OpenOfImage(ws, schemas);
    IdMapFinds(schemas, k);
    CellOfState(OpenImage(Image(ws), schemas).value, ws, schemas[k], k, bytes, loc);
  }

  lemma {:induction false} CellOfState(st: ReadState, ws: seq<WriterState>, schema: ColumnSchema, k: nat, bytes: seq<byte>, loc: ColumnLocator)
    requires st.Valid() && k < |ws| && k < |st.readers| && k < |st.regionOffsets|
    requires schema.id in st.idToIdx && st.idToIdx[schema.id] == k
    requires st.readers[k] == ColumnChunkReader(Body(ws), schema, 0)
    requires st.regionOffsets[k] == RegionOffset(ws, k)
    requires IsFixedWidth(schema.dtype) ==> |bytes| == DTypeSize(schema.dtype)
    requires loc.dataLength == |bytes| && loc.dataOffset + |bytes| <= |ws[k].data|
    requires ws[k].data[loc.dataOffset..loc.dataOffset + |bytes|] == bytes
    ensures ReadCell(st, schema.id, loc) == Ok(Stored(schema.dtype, bytes))
  {
    var adjusted := loc.(dataOffset := loc.dataOffset + RegionOffset(ws, k),
                         offsetTablePos := ToUInt32(loc.offsetTablePos + RegionOffset(ws, k)));
    assert st.readers[k].ReadDatum(adjusted) == Ok(Stored(schema.dtype, bytes)) by {
      CellInBody(ws, k, loc.dataOffset, bytes);
      ReaderFinds(st.readers[k], bytes, adjusted);
    }
  }

  /** The writers after the whole history around one row. */
  function FinalWriters(schemas: seq<ColumnSchema>, before: seq<Row>, row: Row, after: seq<Row>): seq<WriterState> {
    AfterHistory(IngestFrom(AfterHistory(NewWriters(schemas), before), row, 0).0, after)
  }

  /** The outcome of ingesting the row after an earlier history. */
  function IngestOutcome(schemas: seq<ColumnSchema>, before: seq<Row>, row: Row): Result<seq<ColumnLocator>> {
    IngestFrom(AfterHistory(NewWriters(schemas), before), row, 0).1
  }

  /** Whatever was ingested before or after, and whichever of those ingests failed
      part-way, a locator from a successful ingest reads back the bytes stored
      with it, cut to the 32-bit length the locator records. */
  lemma {:induction false} LocatorsSurviveHistory(schemas: seq<ColumnSchema>, before: seq<Row>, row: Row, after: seq<Row>,
                               locs: seq<ColumnLocator>, k: nat)
    requires DistinctIds(schemas) && k < |schemas|
    requires IngestOutcome(schemas, before, row) == Ok(locs)
    requires Storable(FinalWriters(schemas, before, row, after))
    ensures |locs| == |schemas| && schemas[k].id in row
    ensures IsFixedWidth(schemas[k].dtype) ==> |Payload(row[schemas[k].id])| == DTypeSize(schemas[k].dtype)
    ensures ReadBack(Image(FinalWriters(schemas, before, row, after)), schemas, schemas[k].id, locs[k])
      == Ok(Stored(schemas[k].dtype, KeptBytes(row[schemas[k].id])))
  {
    hide ReadBack, Image, Storable, Stored, KeptBytes, Payload, Accepts, IngestFrom, AfterHistory, DistinctIds;
    var ws := AfterHistory(NewWriters(schemas), before);
    var mid := IngestFrom(ws, row, 0).0;
    HistoryExtends(NewWriters(schemas), before);
    HistoryExtends(mid, after);
    LocatorCount(ws, row, 0);
    LocatorsAddress(ws, row, 0, k, locs);
    var end := AfterHistory(mid, after);
    assert Extends(NewWriters(schemas)[k], ws[k]) && Extends(mid[k], end[k]);
    AddressedReadsBack(schemas, ws[k], row, locs[k], mid[k], end, k);
  }

  /** The locator of a column, from the history before its ingest: how many bytes earlier
      rows left in the column, failed ones included, and, for varying types, how many
      values. */
  lemma {:induction false} LocatorsOfHistory(schemas: seq<ColumnSchema>, before: seq<Row>, row: Row, locs: seq<ColumnLocator>, k: nat)
    requires k < |schemas| && IngestOutcome(schemas, before, row) == Ok(locs)
    ensures |locs| == |schemas| && schemas[k].id in row
    ensures var stored := Reached(schemas, before, k);
      locs[k] == ColumnLocator(0, |JoinBytes(stored)|, ToUInt32(|Payload(row[schemas[k].id])|),
                               if IsFixedWidth(schemas[k].dtype) then 0 else ToUInt32(|stored|))
  {
    hide IngestFrom, AfterHistory, Payload, Reached, JoinBytes, WellFormed;
    var ws := AfterHistory(NewWriters(schemas), before);
    HistoryStores(NewWriters(schemas), schemas, before, k);
    HistoryExtends(NewWriters(schemas), before);
    LocatorCount(ws, row, 0);
    LocatorsAddress(ws, row, 0, k, locs);
    assert Extends(NewWriters(schemas)[k], ws[k]);
  }

  /** The part of a datum's bytes that its locator's 32-bit length covers. */
  function KeptBytes(d: Datum): seq<byte> {
    Payload(d)[..ToUInt32(|Payload(d)|)]
  }

  lemma {:induction false} AddressedReadsBack(schemas: seq<ColumnSchema>, w: WriterState, row: Row, loc: ColumnLocator,
                           mid: WriterState, end: seq<WriterState>, k: nat)
    requires k < |schemas| == |end| && DistinctIds(schemas) && Storable(end)
    requires w.schema == schemas[k] && w.base == 0
    requires Addressed(w, row, loc, mid) && Extends(mid, end[k])
    ensures IsFixedWidth(schemas[k].dtype) ==> |Payload(row[schemas[k].id])| == DTypeSize(schemas[k].dtype)
    ensures ReadBack(Image(end), schemas, schemas[k].id, loc)
      == Ok(Stored(schemas[k].dtype, KeptBytes(row[schemas[k].id])))
  {
    var bytes := CellBytes(w, row);
    CellStays(w.data, bytes, mid.data, end[k].data, ToUInt32(|bytes|));
    ReadOfImage(end, schemas, k, KeptBytes(row[schemas[k].id]), loc);
  }

  lemma {:induction false} CellStays(data: seq<byte>, bytes: seq<byte>, mid: seq<byte>, end: seq<byte>, n: nat)
    requires data + bytes <= mid <= end && n <= |bytes|
    ensures |data| + n <= |end| && end[|data|..|data| + n] == bytes[..n]
  {
    assert forall i :: 0 <= i < n ==> end[|data| + i] == (data + bytes)[|data| + i] == bytes[i];
  }

  /** Eight bytes cut to n and padded again are the same if and only if the rest was
      zero. */
  lemma {:induction false} FixedBack(fixed: seq<byte>, n: nat)
    requires |fixed| == 8 && n <= 8
    ensures (fixed[..n] + Zeros(8))[..8] == fixed <==> fixed[n..] == Zeros(8 - n)
  {
    var back := (fixed[..n] + Zeros(8))[..8];
    assert back[n..] == Zeros(8 - n) && back[..n] == fixed[..n];
    assert back == back[..n] + back[n..] && fixed == fixed[..n] + fixed[n..];
  }

  /** A datum its column can hold without change. */
  predicate Exact(t: DType, d: Datum) {
    d.dtype == t && Canonical(d) && FitsU32(|Payload(d)|)
  }

  /** The exact datum comes back if and only if it has the column's type, carries
      nothing outside its payload, and its length fits the locator. */
  lemma {:induction false} ExactDatumBack(t: DType, d: Datum)
    requires IsFixedWidth(t) ==> |Payload(d)| == DTypeSize(t)
    ensures Stored(t, KeptBytes(d)) == d <==> Exact(t, d)
  {
    var bytes := Payload(d);
    if d.dtype == t {
      if IsFixedWidth(t) {
        FixedBack(d.fixed, DTypeSize(t));
        assert bytes[..|bytes|] == bytes;
      } else {
        assert FitsU32(|bytes|) ==> bytes[..ToUInt32(|bytes|)] == bytes;
      }
    }
  }

  // ----- whole rows -----

  /** Every cell up to the first failure finds a reader, if it looks for one. */
  predicate Reaches(st: ReadState, locs: seq<CellRef>): (r: bool)
    ensures st.Valid() ==> r
    decreases |locs|, 0
  {
    locs == [] || (
      && Reaches(st, locs[..|locs|-1])
      && (ReadRow(st, locs[..|locs|-1]).Ok? ==> st.Serves(locs[|locs|-1].0)))
  }

  /** Reads the listed cells in order, stopping at the first failure; a column
      listed twice keeps its first cell. */
  function ReadRow(st: ReadState, locs: seq<CellRef>): Result<Row>
    requires Reaches(st, locs)
    decreases |locs|, 1
  {
    if locs == [] then Ok(map[])
    else
      var before, (id, loc) := ReadRow(st, locs[..|locs|-1]), locs[|locs|-1];
      if before.Err? then before
      else
        var d := ReadCell(st, id, loc);
        if d.Err? then Err(d.error)
        else Ok(if id in before.value then before.value else before.value[id := d.value])
  }

  /** The first place a column is listed at. */
  predicate FirstListed(locs: seq<CellRef>, i: nat) {
    i < |locs| && forall j :: 0 <= j < i ==> locs[j].0 != locs[i].0
  }

  /** The place where reading the list stops. */
  predicate StopsFirst(st: ReadState, locs: seq<CellRef>, i: nat) {
    && i < |locs| && st.Serves(locs[i].0) && ReadCell(st, locs[i].0, locs[i].1).Err?
    && forall j :: 0 <= j < i ==> st.Serves(locs[j].0) && ReadCell(st, locs[j].0, locs[j].1).Ok?
  }

  predicate ReadsAll(st: ReadState, locs: seq<CellRef>) {
    forall i :: 0 <= i < |locs| ==> st.Serves(locs[i].0) && ReadCell(st, locs[i].0, locs[i].1).Ok?
  }

  /** A list of cells reads as a row exactly when every cell reads. */
  lemma {:induction false} RowReads(st: ReadState, locs: seq<CellRef>)
    requires Reaches(st, locs)
    ensures ReadRow(st, locs).Ok? <==> ReadsAll(st, locs)
  {
    hide ReadCell;
    if locs != [] {
      var n := |locs| - 1;
      RowReads(st, locs[..n]);
      assert forall j :: 0 <= j < n ==> locs[..n][j] == locs[j];
      assert ReadsAll(st, locs) ==> ReadsAll(st, locs[..n]);
    }
  }

  /** The row then has the listed columns and no others. */
  lemma {:induction false} RowColumns(st: ReadState, locs: seq<CellRef>, id: nat)
    requires Reaches(st, locs) && ReadRow(st, locs).Ok?
    ensures id in ReadRow(st, locs).value <==> exists i :: 0 <= i < |locs| && locs[i].0 == id
  {
    hide ReadCell;
    if locs != [] {
      var n := |locs| - 1;
      RowColumns(st, locs[..n], id);
      assert forall j :: 0 <= j < n ==> locs[..n][j] == locs[j];
    }
  }

  /** Each has the cell it is first listed with. */
  lemma {:induction false} RowCells(st: ReadState, locs: seq<CellRef>, i: nat)
    requires Reaches(st, locs) && ReadRow(st, locs).Ok? && FirstListed(locs, i)
    ensures st.Serves(locs[i].0) && locs[i].0 in ReadRow(st, locs).value
    ensures ReadCell(st, locs[i].0, locs[i].1) == Ok(ReadRow(st, locs).value[locs[i].0])
  {
    hide ReadCell;
    var n := |locs| - 1;
    RowColumns(st, locs[..n], locs[i].0);
    if i < n {
      RowCells(st, locs[..n], i);
    }
  }

  /** Otherwise the answer is the error of the first cell that fails. */
  lemma {:induction false} RowStops(st: ReadState, locs: seq<CellRef>) returns (i: nat)
    requires Reaches(st, locs) && ReadRow(st, locs).Err?
    ensures StopsFirst(st, locs, i) && ReadCell(st, locs[i].0, locs[i].1) == Err(ReadRow(st, locs).error)
  {
    hide ReadCell;
    var n := |locs| - 1;
    if ReadRow(st, locs[..n]).Err? {
      i := RowStops(st, locs[..n]);
      assert forall j :: 0 <= j < n ==> locs[..n][j] == locs[j];
    } else {
      i := n;
      RowReads(st, locs[..n]);
      assert forall j :: 0 <= j < n ==> locs[j] == locs[..n][j];
    }
  }

  /** The references an ingest returns: one per schema, with that schema's id. */
  function Refs(schemas: seq<ColumnSchema>, locs: seq<ColumnLocator>): (r: seq<CellRef>)
    requires |locs| == |schemas|
    ensures |r| == |schemas|
  {
    seq(|schemas|, i requires 0 <= i < |schemas| => (schemas[i].id, locs[i]))
  }

  /** The row holding these cells. */
  function RowOf(schemas: seq<ColumnSchema>, cells: seq<Datum>): Row
    requires |schemas| == |cells|
  {
    if schemas == [] then map[]
    else
      var n := |schemas| - 1;
      RowOf(schemas[..n], cells[..n])[schemas[n].id := cells[n]]
  }

  lemma {:induction false} RowOfIds(schemas: seq<ColumnSchema>, cells: seq<Datum>)
    requires |schemas| == |cells|
    ensures forall id :: id in RowOf(schemas, cells) <==> exists k :: 0 <= k < |schemas| && schemas[k].id == id
  {
    if schemas != [] {
      var n := |schemas| - 1;
      RowOfIds(schemas[..n], cells[..n]);
    }
  }

  lemma {:induction false} RowOfCell(schemas: seq<ColumnSchema>, cells: seq<Datum>, k: nat)
    requires |schemas| == |cells| && DistinctIds(schemas) && k < |schemas|
    ensures schemas[k].id in RowOf(schemas, cells) && RowOf(schemas, cells)[schemas[k].id] == cells[k]
  {
    var n := |schemas| - 1;
    if k < n {
      RowOfCell(schemas[..n], cells[..n], k);
    }
  }

  /** When every cell reads and the ids are distinct, the row is exactly the cells. */
  lemma {:induction false} ReadRowOfCells(st: ReadState, schemas: seq<ColumnSchema>, locs: seq<ColumnLocator>, cells: seq<Datum>)
    requires st.Valid() && |locs| == |schemas| == |cells| && DistinctIds(schemas)
    requires forall k :: 0 <= k < |schemas| ==> ReadCell(st, schemas[k].id, locs[k]) == Ok(cells[k])
    ensures ReadRow(st, Refs(schemas, locs)) == Ok(RowOf(schemas, cells))
  {
    if schemas != [] {
      var n := |schemas| - 1;
      assert Refs(schemas, locs)[..n] == Refs(schemas[..n], locs[..n]);
      ReadRowOfCells(st, schemas[..n], locs[..n], cells[..n]);
      RowOfIds(schemas[..n], cells[..n]);
      assert ReadCell(st, schemas[n].id, locs[n]) == Ok(cells[n]);
    }
  }

  /** The cells the image of the final state gives for one row. */
  function ExpectedCells(schemas: seq<ColumnSchema>, row: Row): (r: seq<Datum>)
    requires forall k :: 0 <= k < |schemas| ==> schemas[k].id in row
    ensures |r| == |schemas|
  {
    seq(|schemas|, k requires 0 <= k < |schemas| => Stored(schemas[k].dtype, KeptBytes(row[schemas[k].id])))
  }

  /** Opens an image afresh and reads one row of it. */
  function ReadRowBack(image: seq<byte>, schemas: seq<ColumnSchema>, locs: seq<CellRef>): Result<Row> {
    var st := OpenImage(image, schemas);
    if st.Err? then Err(st.error) else ReadRow(st.value, locs)
  }

  /** Reading all locators of a successful ingest gives the whole row back, column
      by column, after any history around it. */
  lemma {:induction false} RowsSurviveHistory(schemas: seq<ColumnSchema>, before: seq<Row>, row: Row, after: seq<Row>, locs: seq<ColumnLocator>)
    requires DistinctIds(schemas)
    requires IngestOutcome(schemas, before, row) == Ok(locs)
    requires Storable(FinalWriters(schemas, before, row, after))
    ensures |locs| == |schemas| && forall k :: 0 <= k < |schemas| ==> schemas[k].id in row
    ensures ReadRowBack(Image(FinalWriters(schemas, before, row, after)), schemas, Refs(schemas, locs))
      == Ok(RowOf(schemas, ExpectedCells(schemas, row)))
  {
    var final := FinalWriters(schemas, before, row, after);
    OpenOfImage(final, schemas);
    LocatorCount(AfterHistory(NewWriters(schemas), before), row, 0);
    forall k | 0 <= k < |schemas| ensures schemas[k].id in row {
      LocatorsSurviveHistory(schemas, before, row, after, locs, k);
    }
    var cells := ExpectedCells(schemas, row);
    var st := OpenImage(Image(final), schemas).value;
    forall k | 0 <= k < |schemas| ensures ReadCell(st, schemas[k].id, locs[k]) == Ok(cells[k]) {
      LocatorsSurviveHistory(schemas, before, row, after, locs, k);
    }
    ReadRowOfCells(st, schemas, locs, cells);
  }

  /** The row read back has every column, and a column's datum is the ingested one if
      and only if the column can hold it without change. */
  lemma {:induction false} ExactRowBack(schemas: seq<ColumnSchema>, before: seq<Row>, row: Row, after: seq<Row>,
                                        locs: seq<ColumnLocator>, k: nat)
    requires DistinctIds(schemas) && k < |schemas|
    requires IngestOutcome(schemas, before, row) == Ok(locs)
    requires Storable(FinalWriters(schemas, before, row, after))
    ensures |locs| == |schemas| && schemas[k].id in row
    ensures var back := ReadRowBack(Image(FinalWriters(schemas, before, row, after)), schemas, Refs(schemas, locs));
      && back.Ok? && schemas[k].id in back.value
      && (back.value[schemas[k].id] == row[schemas[k].id] <==> Exact(schemas[k].dtype, row[schemas[k].id]))
  {
    hide Image, FinalWriters, IngestOutcome, ReadRowBack, Storable, Canonical, Payload, KeptBytes, Stored, RowOf;
    RowsSurviveHistory(schemas, before, row, after, locs);
    LocatorsSurviveHistory(schemas, before, row, after, locs, k);
    RowOfCell(schemas, ExpectedCells(schemas, row), k);
    ExactDatumBack(schemas[k].dtype, row[schemas[k].id]);
  }

  // ----- values of the column types -----

  /** The bytes of a value at its type's own width; any number of them, up to what a
      locator can record, for the varying types. */
  predicate Native(t: DType, value: seq<byte>) {
    || (t in {INT8, UINT8, BOOL} && |value| == 1)
    || (t in {INT16, UINT16, FLOAT16} && |value| == 2)
    || (t in {INT32, UINT32, FLOAT32} && |value| == 4)
    || (t in {INT64, UINT64, FLOAT64, TIMESTAMP} && |value| == 8)
    || (Varying(t) && FitsU32(|value|))
  }

  predicate Varying(t: DType) {
    t in {STRING, BYTES, VECTOR_FLOAT32, VECTOR_FLOAT16, VECTOR_INT8, VECTOR_UINT8}
  }

  /** The datum that holds a value. */
  function Holding(t: DType, value: seq<byte>): Datum
    requires Native(t, value)
  {
    if Varying(t) then Datum(t, Zeros(8), value) else Datum(t, value + Zeros(8 - |value|), [])
  }

  /** Every value of every type is stored as its own bytes and comes back. */
  lemma {:induction false} NativeValueBack(t: DType, value: seq<byte>)
    requires Native(t, value)
    ensures Payload(Holding(t, value)) == value && Stored(t, KeptBytes(Holding(t, value))) == Holding(t, value)
    ensures IsFixedWidth(t) <==> !Varying(t)
  {
    assert value[..|value|] == value;
  }

  /** Every value of every type comes back from the image after any history around it, and
      takes just its own bytes: a fixed-width column is as many values of that width as it
      has records. */
  lemma {:induction false} NativeValuesSurvive(schemas: seq<ColumnSchema>, before: seq<Row>, row: Row, after: seq<Row>,
                           locs: seq<ColumnLocator>, k: nat, value: seq<byte>)
    requires DistinctIds(schemas) && k < |schemas|
    requires IngestOutcome(schemas, before, row) == Ok(locs)
    requires Storable(FinalWriters(schemas, before, row, after))
    requires Native(schemas[k].dtype, value) && schemas[k].id in row && row[schemas[k].id] == Holding(schemas[k].dtype, value)
    ensures |locs| == |schemas|
    ensures var final := FinalWriters(schemas, before, row, after);
      && ReadBack(Image(final), schemas, schemas[k].id, locs[k]) == Ok(Holding(schemas[k].dtype, value))
      && k < |final| && (!Varying(schemas[k].dtype) ==> |final[k].data| == final[k].numRecords * |value|)
  {
    hide ReadBack, Image, Storable, Stored, KeptBytes, Holding;
    LocatorsSurviveHistory(schemas, before, row, after, locs, k);
    NativeValueBack(schemas[k].dtype, value);
    FinalWellFormed(schemas, before, row, after, k);
  }

  lemma {:induction false} NewAreWellFormed(schemas: seq<ColumnSchema>)
    ensures AllWellFormed(NewWriters(schemas))
  {
  }

  lemma {:induction false} FinalWellFormed(schemas: seq<ColumnSchema>, before: seq<Row>, row: Row, after: seq<Row>, k: nat)
    requires k < |schemas|
    ensures var final := FinalWriters(schemas, before, row, after);
      |final| == |schemas| && final[k].schema == schemas[k] && WellFormed(final[k])
  {
    hide WellFormed, IngestFrom, AfterHistory;
    var ws := AfterHistory(NewWriters(schemas), before);
    NewAreWellFormed(schemas);
    HistoryExtends(NewWriters(schemas), before);
    var mid := IngestFrom(ws, row, 0).0;
    IngestExtends(ws, row, 0);
    IngestKeepsWellFormed(ws, row, 0);
    HistoryExtends(mid, after);
  }
}
