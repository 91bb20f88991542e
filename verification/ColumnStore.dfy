/** The column store's stateful half: chunk writers, row ingestion, serialisation
    through a moving write pointer, opening a buffer, and reading by locator. */
module ColumnStore {
  import opened Bits
  import opened Status
  import opened ColumnFormat

  class ColumnChunkWriter {
    const schema: ColumnSchema
    const chunkId: nat
    const baseOffset: nat
    var dataBuf: seq<byte>
    var offsets: seq<nat>
    var numRecords: nat

    ghost function View(): WriterState
      reads this
    {
      WriterState(schema, chunkId, baseOffset, dataBuf, offsets, numRecords)
    }

    constructor (schema: ColumnSchema, chunkId: nat, baseOffset: nat)
      ensures View() == NewWriter(schema, chunkId, baseOffset)
    {
      this.schema, this.chunkId, this.baseOffset := schema, chunkId, baseOffset;
      dataBuf, numRecords := [], 0;
      offsets := if IsFixedWidth(schema.dtype) then [] else [0];
    }

    /** Appends raw bytes; a fixed-width column refuses any other length and is
        left as it was. */
    method AppendBytes(bytes: seq<byte>) returns (r: Result<ColumnLocator>)
      modifies this
      ensures Accepts(old(View()), bytes) ==>
        r == Ok(LocatorFor(old(View()), bytes)) && View() == Appended(old(View()), bytes)
      ensures !Accepts(old(View()), bytes) ==> r == Err(InvalidArgument) && View() == old(View())
    {
      if IsFixedWidth(schema.dtype) {
        if |bytes| != DTypeSize(schema.dtype) {
          return Err(InvalidArgument);
        }
        var fileOffset := baseOffset + |dataBuf|;
        dataBuf := dataBuf + bytes;
        numRecords := numRecords + 1;
        return Ok(ColumnLocator(chunkId, fileOffset, ToUInt32(|bytes|), 0));
      }
      var fileOffset := baseOffset + |dataBuf|;
      if |bytes| > 0 {
        dataBuf := dataBuf + bytes;
      }
      var slot := ToUInt32(numRecords);
      offsets := offsets + [|dataBuf|];
      numRecords := numRecords + 1;
      return Ok(ColumnLocator(chunkId, fileOffset, ToUInt32(|bytes|), slot));
    }

    method Append(d: Datum) returns (r: Result<ColumnLocator>)
      modifies this
      ensures Accepts(old(View()), Payload(d)) ==>
        r == Ok(LocatorFor(old(View()), Payload(d))) && View() == Appended(old(View()), Payload(d))
      ensures !Accepts(old(View()), Payload(d)) ==> r == Err(InvalidArgument) && View() == old(View())
    {
      if IsFixedWidth(d.dtype) {
        r := AppendBytes(d.fixed[..DTypeSize(d.dtype)]);
      } else {
        r := AppendBytes(d.varData);
      }
    }

    /** Data region followed by the offset table. */
    method Serialise() returns (out: array<byte>)
      ensures fresh(out) && out[..] == Region(View())
    {
      out := new byte[|dataBuf| + 8 * |offsets|](i => 0);
      var ptr := CopyInto(out, 0, dataBuf);
      ptr := CopyInto(out, ptr, Table(offsets));
    }
  }

  /** memcpy at a moving write pointer. */
  method CopyInto(buf: array<byte>, ptr: nat, bytes: seq<byte>) returns (next: nat)
    requires ptr + |bytes| <= buf.Length
    modifies buf
    ensures next == ptr + |bytes|
    ensures buf[..next] == old(buf[..ptr]) + bytes
  {
    forall i | 0 <= i < |bytes| {
      buf[ptr + i] := bytes[i];
    }
    next := ptr + |bytes|;
  }

  ghost function ViewsOf(ws: seq<ColumnChunkWriter>): (r: seq<WriterState>)
    reads ws
    ensures |r| == |ws| && forall i :: 0 <= i < |r| ==> r[i] == ws[i].View()
  {
    seq(|ws|, i requires 0 <= i < |ws| reads ws => ws[i].View())
  }

  /** A writer looked up under another id. */
  function Labelled(w: WriterState, id: nat): WriterState {
    w.(schema := ColumnSchema(id, w.schema.dtype))
  }

  class ColumnStore {
    var schemas: seq<ColumnSchema>
    var writers: seq<ColumnChunkWriter>
    var numRows: nat
    var openedForWrite: bool
    var readBuf: seq<byte>
    var readers: seq<BodyReader>
    var openedForRead: bool
    var regionOffsets: seq<nat>
    var idToIdx: map<nat, nat>
    ghost var viewing: bool  // the readers are sure to view readBuf as it is now

    constructor ()
      ensures Valid() && !openedForWrite && !openedForRead && numRows == 0
    {
      schemas, writers, readers, regionOffsets := [], [], [], [];
      numRows, openedForWrite, openedForRead := 0, false, false;
      readBuf, idToIdx := [], map[];
      viewing := false;
    }

    /** The store owns each writer once. */
    ghost predicate Valid()
      reads this
    {
      forall i, j :: 0 <= i < j < |writers| ==> writers[i] != writers[j]
    }

    /** One writer per schema: as Open leaves it, until another list is opened for
        reading. */
    ghost predicate WritersMatch()
      reads this
    {
      |writers| == |schemas| && forall i :: 0 <= i < |writers| ==> writers[i].schema == schemas[i]
    }

    ghost function Views(): (r: seq<WriterState>)
      reads this, writers
      ensures |r| == |writers| && forall i :: 0 <= i < |r| ==> r[i] == writers[i].View()
    {
      ViewsOf(writers)
    }

    /** The writers a row goes to, one per schema, each under the id the schema list
        looks it up by. */
    ghost function Columns(): (r: seq<WriterState>)
      requires |schemas| <= |writers|
      reads this, writers
      ensures |r| == |schemas|
      ensures WritersMatch() ==> r == Views()
    {
      seq(|schemas|, i requires 0 <= i < |schemas| <= |writers| reads this, writers => Labelled(writers[i].View(), schemas[i].id))
    }

    ghost function Reading(): ReadState
      reads this
    {
      ReadState(openedForRead, readers, regionOffsets, idToIdx)
    }

    /** Reading this column touches no reader, or one that exists and is sure to
        view the buffer. */
    ghost predicate CanRead(id: nat)
      reads this
    {
      openedForRead && id in idToIdx ==> viewing && idToIdx[id] < |readers|
    }

    /** Every cell up to the first failure can be read. */
    ghost predicate CanReadRow(locs: seq<CellRef>)
      reads this
      ensures CanReadRow(locs) ==> Reaches(Reading(), locs)
      decreases |locs|
    {
      locs == [] || (
        && CanReadRow(locs[..|locs|-1])
        && (ReadRow(Reading(), locs[..|locs|-1]).Ok? ==> CanRead(locs[|locs|-1].0)))
    }

    /** Every cell listed for this column can be read. */
    ghost predicate CanProject(locs: seq<CellRef>, id: nat)
      reads this
      ensures CanProject(locs, id) ==> ServesColumn(Reading(), locs, id)
    {
      (exists i :: 0 <= i < |locs| && locs[i].0 == id) ==> CanRead(id)
    }

    /** Every requested column up to the first failure can be read. */
    ghost predicate CanProjectAll(locs: seq<CellRef>, columnIds: seq<nat>)
      reads this
    {
      forall id :: id in columnIds && SmallerRead(Reading(), locs, columnIds, id) ==> CanProject(locs, id)
    }

    /** Opens for writing.  The id map is replaced; what was opened for reading stays. */
    method Open(schemas: seq<ColumnSchema>) returns (r: Result<()>)
      modifies this`schemas, this`idToIdx, this`numRows, this`openedForWrite, this`writers
      ensures schemas == [] ==> r == Err(InvalidArgument)
      ensures schemas == [] ==> this.schemas == old(this.schemas) && idToIdx == old(idToIdx) && numRows == old(numRows)
      ensures schemas == [] ==> openedForWrite == old(openedForWrite) && writers == old(writers)
      ensures schemas != [] ==> r == Ok(()) && openedForWrite && numRows == 0
      ensures schemas != [] ==> this.schemas == schemas && idToIdx == IdMap(schemas)
      ensures schemas != [] ==> Valid() && WritersMatch() && fresh(set w | w in writers)
      ensures schemas != [] ==> Views() == NewWriters(schemas)
    {
      if schemas == [] {
        return Err(InvalidArgument);
      }
      this.schemas := schemas;
      idToIdx := IdMap(schemas);
      numRows := 0;
      openedForWrite := true;
      writers := [];
      for i := 0 to |schemas|
        invariant this.schemas == schemas && idToIdx == IdMap(schemas) && openedForWrite && numRows == 0
        invariant |writers| == i
        invariant forall j :: 0 <= j < i ==> fresh(writers[j]) && writers[j].View() == NewWriter(schemas[j], 0, 0)
        invariant forall j, k :: 0 <= j < k < i ==> writers[j] != writers[k]
      {
        var w := new ColumnChunkWriter(schemas[i], 0, 0);
        writers := writers + [w];
      }
      return Ok(());
    }

    /** What is still to do for columns i.. of the writers as they are now decides the
        outcome, with the locators collected so far in front. */
    static ghost predicate Pending(start: seq<WriterState>, now: seq<WriterState>, columns: Row, i: nat, locs: seq<CellRef>)
      requires i <= |now|
    {
      var whole, rest := IngestFrom(start, columns, 0), IngestFrom(now, columns, i);
      && whole.0 == rest.0
      && (whole.1.Ok? <==> rest.1.Ok?)
      && (whole.1.Err? ==> whole.1 == rest.1)
      && (whole.1.Ok? ==> whole.1.value == Locators(locs) + rest.1.value)
    }

    static function Locators(locs: seq<CellRef>): (r: seq<ColumnLocator>)
      ensures |r| == |locs|
    {
      seq(|locs|, i requires 0 <= i < |locs| => locs[i].1)
    }

    /** Appends one cell per column in schema order.  A missing or refused column
        stops the row; the columns before it keep their new cell.  Writers beyond the
        schema list are left alone. */
    method Ingest(columns: Row) returns (r: Result<seq<CellRef>>)
      requires openedForWrite ==> Valid() && |schemas| <= |writers|
      modifies this`numRows, writers
      ensures !openedForWrite ==> r == Err(InvalidArgument) && Views() == old(Views()) && numRows == old(numRows)
      ensures openedForWrite ==> Columns() == IngestFrom(old(Columns()), columns, 0).0
      ensures openedForWrite ==> Views()[|schemas|..] == old(Views())[|schemas|..]
      ensures openedForWrite ==> (r.Ok? <==> IngestFrom(old(Columns()), columns, 0).1.Ok?)
      ensures r.Ok? ==>
        && |r.value| == |schemas|
        && Ok(Locators(r.value)) == IngestFrom(old(Columns()), columns, 0).1
        && forall i :: 0 <= i < |schemas| ==> r.value[i].0 == schemas[i].id
      ensures r.Err? ==> r.error == InvalidArgument
      ensures numRows == old(numRows) + if r.Ok? then 1 else 0
    {
      if !openedForWrite {
        return Err(InvalidArgument);
      }
      r := IngestColumns(columns);
      if r.Ok? {
        numRows := numRows + 1;
      }
    }

    method IngestColumns(columns: Row) returns (r: Result<seq<CellRef>>)
      requires Valid() && |schemas| <= |writers|
      modifies writers
      ensures Columns() == IngestFrom(old(Columns()), columns, 0).0
      ensures Views()[|schemas|..] == old(Views())[|schemas|..]
      ensures r.Err? ==> IngestFrom(old(Columns()), columns, 0).1 == Err(InvalidArgument) && r.error == InvalidArgument
      ensures r.Ok? ==> IngestFrom(old(Columns()), columns, 0).1 == Ok(Locators(r.value))
      ensures r.Ok? ==> |r.value| == |schemas| && forall i :: 0 <= i < |schemas| ==> r.value[i].0 == schemas[i].id
    {
      hide Pending, IngestFrom, Takes, WithRow, LocatorFor, Locators, Accepts, Payload, Appended;
      ghost var start := Columns();
      NothingLocated(start, columns);
      var locs: seq<CellRef> := [];
      for i := 0 to |schemas|
        invariant |locs| == i
        invariant forall j :: 0 <= j < i ==> locs[j].0 == schemas[j].id
        invariant Views()[|schemas|..] == old(Views())[|schemas|..]
        invariant Pending(start, Columns(), columns, i, locs)
      {
        ghost var now := Columns();
        var loc := IngestColumn(columns, i);
        if loc.Err? {
          PendingStops(start, now, columns, i, locs);
          return Err(InvalidArgument);
        }
        PendingMore(start, now, columns, i, locs);
        locs := locs + [(schemas[i].id, loc.value)];
      }
      NonePending(start, Columns(), columns, locs);
      return Ok(locs);
    }

    static lemma {:induction false} NothingLocated(start: seq<WriterState>, columns: Row)
      ensures Pending(start, start, columns, 0, [])
    {
      var first := IngestFrom(start, columns, 0).1;
      assert first.Ok? ==> Locators([]) + first.value == first.value;
    }

    static lemma {:induction false} NonePending(start: seq<WriterState>, now: seq<WriterState>, columns: Row, locs: seq<CellRef>)
      requires Pending(start, now, columns, |now|, locs)
      ensures IngestFrom(start, columns, 0) == (now, Ok(Locators(locs)))
    {
      assert Locators(locs) + [] == Locators(locs);
    }

    static lemma {:induction false} PendingMore(start: seq<WriterState>, now: seq<WriterState>, columns: Row, i: nat, locs: seq<CellRef>)
      requires i < |now| && Pending(start, now, columns, i, locs) && Takes(now[i], columns)
      ensures var loc := LocatorFor(now[i], Payload(columns[now[i].schema.id]));
        Pending(start, now[i := WithRow(now[i], columns)], columns, i + 1, locs + [(now[i].schema.id, loc)])
    {
      var loc := LocatorFor(now[i], Payload(columns[now[i].schema.id]));
      LocatorsMore(locs, now[i].schema.id, loc, IngestFrom(now[i := WithRow(now[i], columns)], columns, i + 1).1);
    }

    static lemma {:induction false} PendingStops(start: seq<WriterState>, now: seq<WriterState>, columns: Row, i: nat, locs: seq<CellRef>)
      requires i < |now| && Pending(start, now, columns, i, locs) && !Takes(now[i], columns)
      ensures IngestFrom(start, columns, 0) == (now, Err(InvalidArgument))
    {
    }

    /** One column of a row: its writer takes the cell, or nothing changes. */
    method IngestColumn(columns: Row, i: nat) returns (loc: Result<ColumnLocator>)
      requires Valid() && i < |schemas| <= |writers|
      modifies writers
      ensures Views()[|schemas|..] == old(Views())[|schemas|..]
      ensures loc.Ok? <==> Takes(old(Columns())[i], columns)
      ensures loc.Err? ==> loc == Err(InvalidArgument) && Columns() == old(Columns())
      ensures loc.Ok? ==> loc.value == LocatorFor(old(Columns())[i], Payload(columns[schemas[i].id]))
      ensures loc.Ok? ==> Columns() == old(Columns())[i := WithRow(old(Columns())[i], columns)]
    {
      if schemas[i].id !in columns {
        return Err(InvalidArgument);
      }
      loc := writers[i].Append(columns[schemas[i].id]);
    }

    static lemma {:induction false} LocatorsMore(locs: seq<CellRef>, id: nat, loc: ColumnLocator, rest: Result<seq<ColumnLocator>>)
      ensures rest.Ok? ==> Locators(locs) + ([loc] + rest.value) == Locators(locs + [(id, loc)]) + rest.value
    {
      assert Locators(locs + [(id, loc)]) == Locators(locs) + [loc];
    }

    /** Serialises all columns: header, then every region, through one pointer. */
    method SerialiseAll() returns (r: Result<array<byte>>)
      ensures !openedForWrite ==> r == Err(InvalidArgument)
      ensures openedForWrite ==> r.Ok? && fresh(r.value) && r.value[..] == Image(Views())
    {
      if !openedForWrite {
        return Err(InvalidArgument);
      }
      hide Region, Body, RegionOffset;
      ghost var ws := Views();
      var offsets, total := LayOut();
      var buf := new byte[4 + 8 * |writers| + total](i => 0);
      var ptr := WriteHeader(buf, offsets, ws);
      WriteBody(buf, ptr);
      return Ok(buf);
    }

    /** Region offsets and total body size. */
    method LayOut() returns (offsets: seq<nat>, cursor: nat)
      ensures |offsets| == |writers| && cursor == |Body(Views())|
      ensures forall j :: 0 <= j < |offsets| ==> offsets[j] == RegionOffset(Views(), j)
    {
      ghost var ws := Views();
      offsets, cursor := [], 0;
      for i := 0 to |writers|
        invariant |offsets| == i
        invariant forall j :: 0 <= j < i ==> offsets[j] == RegionOffset(ws, j)
        invariant cursor == RegionOffset(ws, i)
      {
        BodyStep(ws, i);
        offsets := offsets + [cursor];
        cursor := cursor + |writers[i].dataBuf|;
        cursor := cursor + 8 * |writers[i].offsets|;
      }
      assert ws[..|ws|] == ws;
    }

    /** Copies every region after the header. */
    method WriteBody(buf: array<byte>, start: nat)
      requires start <= buf.Length && buf.Length == start + |Body(Views())|
      modifies buf
      ensures buf[..] == old(buf[..start]) + Body(Views())
    {
      hide Region;
      ghost var ws, header := Views(), buf[..start];
      var ptr := start;
      for i := 0 to |writers|
        invariant ptr == start + RegionOffset(ws, i)
        invariant ptr <= buf.Length
        invariant buf[..ptr] == header + Body(ws[..i])
      {
        RegionInBody(ws, i);
        ptr := WriteRegion(buf, ptr, writers[i]);
        AppendRegion(header, ws, i);
      }
      assert ws[..|ws|] == ws;
      assert buf[..ptr] == buf[..];
    }

    static lemma {:induction false} AppendRegion(header: seq<byte>, ws: seq<WriterState>, i: nat)
      requires i < |ws|
      ensures header + Body(ws[..i]) + Region(ws[i]) == header + Body(ws[..i+1])
      ensures RegionOffset(ws, i + 1) == RegionOffset(ws, i) + |Region(ws[i])|
    {
      BodyStep(ws, i);
    }

    static method WriteRegion(buf: array<byte>, ptr: nat, w: ColumnChunkWriter) returns (next: nat)
      requires ptr + |Region(w.View())| <= buf.Length
      modifies buf
      ensures next == ptr + |Region(w.View())|
      ensures buf[..next] == old(buf[..ptr]) + Region(w.View())
    {
      next := CopyInto(buf, ptr, w.dataBuf);
      next := CopyInto(buf, next, Table(w.offsets));
      assert old(buf[..ptr]) + w.dataBuf + Table(w.offsets) == old(buf[..ptr]) + Region(w.View());
    }

    static method WriteHeader(buf: array<byte>, offsets: seq<nat>, ghost ws: seq<WriterState>) returns (ptr: nat)
      requires |offsets| == |ws| && 4 + 8 * |ws| <= buf.Length
      requires forall i :: 0 <= i < |ws| ==> offsets[i] == RegionOffset(ws, i)
      modifies buf
      ensures ptr == 4 + 8 * |ws|
      ensures buf[..ptr] == Header(ws)
    {
      ptr := CopyInto(buf, 0, LeBytes(|offsets|, 4));
      for i := 0 to |offsets|
        invariant ptr == 4 + 8 * i
        invariant buf[..ptr] == LeBytes(|ws|, 4) + OffsetHeader(ws, i)
      {
        ptr := CopyInto(buf, ptr, LeBytes(offsets[i], 8));
      }
    }

    /** Opens a serialised buffer.  The schema list, id map, buffer and flag are replaced
        even when the header is then refused; the readers are not, and cannot be relied on
        to view the buffer.  Every column can be read after a successful open, and after a
        refused one only those the new list does not have can be relied on (they are not
        found). */
    method OpenForRead(data: seq<byte>, schemas: seq<ColumnSchema>) returns (r: Result<()>)
      modifies this`schemas, this`idToIdx, this`openedForRead, this`readBuf, this`readers, this`regionOffsets, this`viewing
      ensures this.schemas == schemas && idToIdx == IdMap(schemas) && openedForRead && readBuf == data
      ensures r.Ok? <==> OpenImage(data, schemas).Ok?
      ensures r.Ok? ==> Reading() == OpenImage(data, schemas).value && forall id :: CanRead(id)
      ensures r.Err? ==> r.error == InvalidArgument && readers == old(readers) && regionOffsets == old(regionOffsets)
      ensures r.Err? ==> forall id :: CanRead(id) <==> !exists i :: 0 <= i < |schemas| && schemas[i].id == id
    {
      hide IdMap, LeValue;
      this.schemas := schemas;
      idToIdx := IdMap(schemas);
      openedForRead := true;
      readBuf := data;
      viewing := false;
      forall id ensures id in idToIdx <==> exists i :: 0 <= i < |schemas| && schemas[i].id == id {
        IdMapHas(schemas, id);
      }
      var headerSize := 4 + 8 * |schemas|;
      if |data| < headerSize {
        return Err(InvalidArgument);
      }
      if LeValue(readBuf[..4]) != |schemas| {
        return Err(InvalidArgument);
      }
      ghost var st := OpenImage(data, schemas).value;
      regionOffsets := [];
      for i := 0 to |schemas|
        invariant regionOffsets == ReadU64s(data, 4, i)
        modifies this`regionOffsets
      {
        regionOffsets := regionOffsets + [U64At(readBuf, 4 + 8 * i)];
      }
      readers := [];
      for i := 0 to |schemas|
        invariant |readers| == i
        invariant forall j :: 0 <= j < i ==> readers[j] == st.readers[j]
        modifies this`readers
      {
        readers := readers + [ColumnChunkReader(readBuf[headerSize..], schemas[i], 0)];
      }
      assert readers == st.readers;
      viewing := true;
      return Ok(());
    }

    method ReadColumn(id: nat, loc: ColumnLocator) returns (r: Result<Datum>)
      requires CanRead(id)
      ensures r == ReadCell(Reading(), id, loc)
    {
      if !openedForRead {
        return Err(InvalidArgument);
      }
      if id !in idToIdx {
        return Err(NotFound);
      }
      var idx := idToIdx[id];
      var adjusted := loc;
      if idx < |regionOffsets| {
        adjusted := adjusted.(dataOffset := adjusted.dataOffset + regionOffsets[idx]);
        adjusted := adjusted.(offsetTablePos := ToUInt32(adjusted.offsetTablePos + regionOffsets[idx]));
      }
      return readers[idx].ReadDatum(adjusted);
    }

    method Read(locs: seq<CellRef>) returns (r: Result<Row>)
      requires CanReadRow(locs)
      ensures r == ReadRow(Reading(), locs)
    {
      var row: Row := map[];
      for i := 0 to |locs|
        invariant Reaches(Reading(), locs[..i]) && ReadRow(Reading(), locs[..i]) == Ok(row)
      {
        CanReadPrefix(locs, i + 1);
        assert locs[..i+1][..i] == locs[..i];
        var datum := ReadColumn(locs[i].0, locs[i].1);
        if datum.Err? {
          StopsAt(Reading(), locs, i + 1);
          return Err(datum.error);
        }
        if locs[i].0 !in row {
          row := row[locs[i].0 := datum.value];
        }
      }
      assert locs[..|locs|] == locs;
      return Ok(row);
    }

    lemma {:induction false} CanReadPrefix(locs: seq<CellRef>, i: nat)
      requires CanReadRow(locs) && i <= |locs|
      ensures CanReadRow(locs[..i])
    {
      if i == |locs| {
        assert locs[..i] == locs;
      } else {
        assert locs[..|locs|-1][..i] == locs[..i];
        CanReadPrefix(locs[..|locs|-1], i);
      }
    }

    static lemma {:induction false} StopsAt(st: ReadState, locs: seq<CellRef>, i: nat)
      requires Reaches(st, locs) && i <= |locs| && Reaches(st, locs[..i]) && ReadRow(st, locs[..i]).Err?
      ensures ReadRow(st, locs) == ReadRow(st, locs[..i])
    {
      if i == |locs| {
        assert locs[..i] == locs;
      } else {
        assert locs[..|locs|-1][..i] == locs[..i];
        StopsAt(st, locs[..|locs|-1], i);
      }
    }

    /** Projection: the locator of each requested column (the last one listed for
        it) is read in ascending column order, stopping at the first failure. */
    method ReadColumns(locs: seq<CellRef>, columnIds: seq<nat>) returns (r: Result<Row>)
      requires CanProjectAll(locs, columnIds)
      ensures r.Ok? ==> Projection(Reading(), locs, (set id | id in columnIds), r.value)
      ensures r.Err? ==> exists id :: FirstFailure(Reading(), locs, columnIds, id, r.error)
    {
      var row: Row := map[];
      var wanted := set id | id in columnIds;
      ghost var all := wanted;
      while wanted != {}
        invariant wanted <= all && Projection(Reading(), locs, all - wanted, row)
        invariant forall id, other :: id in wanted && other in all - wanted ==> other < id
        decreases wanted
      {
        var id := Least(wanted);
        assert SmallerRead(Reading(), locs, columnIds, id);
        var cell := ReadRequested(locs, id);
        if cell.Err? {
          assert FirstFailure(Reading(), locs, columnIds, id, cell.error);
          return Err(cell.error);
        }
        ProjectMore(Reading(), locs, all - wanted, row, id, cell.value);
        row := row[id := cell.value];
        assert all - wanted + {id} == all - (wanted - {id});
        wanted := wanted - {id};
      }
      assert all - wanted == all;
      return Ok(row);
    }

    method ReadRequested(locs: seq<CellRef>, id: nat) returns (cell: Result<Datum>)
      requires CanProject(locs, id)
      ensures cell == Requested(Reading(), locs, id)
    {
      var i := |locs|;
      assert locs[..i] == locs;
      while 0 < i && locs[i-1].0 != id
        invariant 0 <= i <= |locs|
        invariant Requested(Reading(), locs, id) == Requested(Reading(), locs[..i], id)
      {
        assert locs[..i][..i-1] == locs[..i-1];
        i := i - 1;
      }
      if i == 0 {
        return Err(NotFound);
      }
      cell := ReadColumn(id, locs[i-1].1);
    }
  }

  /** The row holds exactly these columns, each as its locator reads. */
  ghost predicate Projection(st: ReadState, locs: seq<CellRef>, ids: set<nat>, row: Row)
  {
    row.Keys == ids && forall id :: id in ids ==> ServesColumn(st, locs, id) && Requested(st, locs, id) == Ok(row[id])
  }

  lemma {:induction false} ProjectMore(st: ReadState, locs: seq<CellRef>, ids: set<nat>, row: Row, id: nat, d: Datum)
    requires Projection(st, locs, ids, row) && ServesColumn(st, locs, id) && Requested(st, locs, id) == Ok(d)
    ensures Projection(st, locs, ids + {id}, row[id := d])
  {
  }

  /** Every smaller requested column reads. */
  ghost predicate SmallerRead(st: ReadState, locs: seq<CellRef>, columnIds: seq<nat>, id: nat) {
    forall x :: x in columnIds && x < id ==> ServesColumn(st, locs, x) && Requested(st, locs, x).Ok?
  }

  /** A requested column fails with this error and every smaller one reads. */
  ghost predicate FirstFailure(st: ReadState, locs: seq<CellRef>, columnIds: seq<nat>, id: nat, error: Error) {
    && id in columnIds && SmallerRead(st, locs, columnIds, id)
    && ServesColumn(st, locs, id) && Requested(st, locs, id) == Err(error)
  }

  /** Reading the column's cells, if any are listed, finds a reader. */
  predicate ServesColumn(st: ReadState, locs: seq<CellRef>, id: nat) {
    (exists i :: 0 <= i < |locs| && locs[i].0 == id) ==> st.Serves(id)
  }

  /** What projecting one column gives: its last listed locator, read. */
  function Requested(st: ReadState, locs: seq<CellRef>, id: nat): Result<Datum>
    requires ServesColumn(st, locs, id)
  {
    if locs == [] then Err(NotFound)
    else if locs[|locs|-1].0 == id then ReadCell(st, id, locs[|locs|-1].1)
    else
      assert forall i :: 0 <= i < |locs| - 1 ==> locs[..|locs|-1][i].0 == locs[i].0;
      Requested(st, locs[..|locs|-1], id)
  }

  /** A column that is not listed is not found. */
  lemma {:induction false} RequestedMissing(st: ReadState, locs: seq<CellRef>, id: nat)
    requires ServesColumn(st, locs, id) && forall i :: 0 <= i < |locs| ==> locs[i].0 != id
    ensures Requested(st, locs, id) == Err(NotFound)
  {
    if locs != [] {
      RequestedMissing(st, locs[..|locs|-1], id);
    }
  }

  /** One that is reads as its last listed locator does. */
  lemma {:induction false} RequestedLast(st: ReadState, locs: seq<CellRef>, id: nat, i: nat)
    requires ServesColumn(st, locs, id) && i < |locs| && locs[i].0 == id && forall j :: i < j < |locs| ==> locs[j].0 != id
    ensures st.Serves(id) && Requested(st, locs, id) == ReadCell(st, id, locs[i].1)
  {
    hide ReadCell;
    var n := |locs| - 1;
    if i < n {
      assert locs[..n][i] == locs[i];
      RequestedLast(st, locs[..n], id, i);
    }
  }

  method Least(s: set<nat>) returns (m: nat)
    requires s != {}
    ensures m in s && forall x :: x in s ==> m <= x
  {
    m :| m in s;
    var rest := s - {m};
    while rest != {}
      invariant m in s && rest <= s
      invariant forall x :: x in s && x !in rest ==> m <= x
      decreases rest
    {
      var x :| x in rest;
      if x < m {
        m := x;
      }
      rest := rest - {x};
    }
  }
}
