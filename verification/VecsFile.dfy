/** The .fvecs and .ivecs formats: each record is its dimension and that many 4-byte
    words. */
module VecsFile {
  import opened Bits
  import opened Status
  import opened WordArray

  const INT32_RANGE := 0x8000_0000

  /** n blocks of the given size, added up; TimesIsProduct says it is n * size. */
  function Times(n: nat, size: nat): (r: nat) {
    if n == 0 then 0 else Times(n - 1, size) + size
  }

  lemma {:induction false} TimesIsProduct(n: nat, size: nat)
    ensures Times(n, size) == n * size
  {
    if n > 0 {
      TimesIsProduct(n - 1, size);
      assert n * size == (n - 1) * size + size;
    }
  }

  lemma {:induction false} TimesGrows(a: nat, b: nat, size: nat)
    requires a <= b
    ensures Times(a, size) <= Times(b, size)
    ensures a < b ==> Times(a, size) + size <= Times(b, size)
    decreases b
  {
    if a < b {
      TimesGrows(a, b - 1, size);
    }
  }

  // ----- writing -----

  /** Row r of a row-major matrix. */
  function Row(data: seq<nat>, r: nat, dim: nat): (row: seq<nat>)
    requires Times(r, dim) + dim <= |data|
    ensures |row| == dim
  {
    data[Times(r, dim)..Times(r, dim) + dim]
  }

  function RecordSize(dim: nat): (r: nat)
    ensures r >= 4
  {
    4 + dim * 4
  }

  function Record(row: seq<nat>): (b: seq<byte>)
    ensures |b| == RecordSize(|row|)
  {
    LeBytes(|row|, 4) + WordBytes(row)
  }

  /** The first rows records of a matrix. */
  function Written(data: seq<nat>, rows: nat, dim: nat): (b: seq<byte>)
    requires Times(rows, dim) <= |data|
    ensures |b| == Times(rows, RecordSize(dim))
    decreases rows
  {
    if rows == 0 then [] else Written(data, rows - 1, dim) + Record(Row(data, rows - 1, dim))
  }

  method WriteFvecs(data: seq<nat>, rows: nat, dim: nat) returns (file: seq<byte>)
    requires |data| == Times(rows, dim)
    ensures file == Written(data, rows, dim)
  {
    file := [];
    for i := 0 to rows
      invariant Times(i, dim) <= |data| && file == Written(data, i, dim)
    {
      TimesGrows(i, rows, dim);
      TimesIsProduct(i, dim);
      file := WriteRecord(file, dim, data[i * dim..i * dim + dim]);
    }
  }

  method WriteRecord(before: seq<byte>, dim: nat, row: seq<nat>) returns (file: seq<byte>)
    requires |row| == dim
    ensures file == before + Record(row)
  {
    file := before + LeBytes(dim, 4);
    file := file + WordBytes(row);
  }

  /** One-dimensional records: what the assignment export writes. */
  method WriteIvecs(assignments: seq<nat>) returns (file: seq<byte>)
    ensures Times(|assignments|, 1) == |assignments| && file == Written(assignments, |assignments|, 1)
  {
    hide Record;
    TimesIsProduct(|assignments|, 1);
    file := [];
    for i := 0 to |assignments|
      invariant Times(i, 1) == i && file == Written(assignments, i, 1)
    {
      assert Row(assignments, i, 1) == [assignments[i]];
      file := WriteRecord(file, 1, [assignments[i]]);
    }
  }

  // ----- loading -----

  datatype VecsArray = VecsArray(rows: nat, cols: nat, data: seq<nat>)

  /** The words of the first n records, all of which must have the same dimension. */
  function ReadRows(file: seq<byte>, dim: nat, n: nat): Result<seq<nat>>
    requires Times(n, RecordSize(dim)) <= |file|
    decreases n
  {
    if n == 0 then Ok([])
    else
      match ReadRows(file, dim, n - 1)
      case Err(e) => Err(e)
      case Ok(data) =>
        var pos := Times(n - 1, RecordSize(dim));
        if LeValue(file[pos..pos + 4]) != dim then Err(Corruption)
        else Ok(data + Words(file[pos + 4..], dim))
  }

  function LoadedVecs(file: seq<byte>): Result<VecsArray> {
    if |file| < 4 then Err(Corruption)
    else
      var dim := LeValue(file[..4]);
      if dim == 0 || dim >= INT32_RANGE then Err(Corruption)
      else if |file| % RecordSize(dim) != 0 then Err(Corruption)
      else
        var rows := |file| / RecordSize(dim) % UINT32_RANGE;
        RowsFit(|file|, RecordSize(dim));
        match ReadRows(file, dim, rows)
        case Err(e) => Err(e)
        case Ok(data) => Ok(VecsArray(rows, dim, data))
  }

  lemma {:induction false} RowsFit(size: nat, record: nat)
    requires 0 < record && size % record == 0
    ensures Times(size / record, record) == size
    ensures Times(size / record % UINT32_RANGE, record) <= size
  {
    TimesIsProduct(size / record, record);
    TimesGrows(size / record % UINT32_RANGE, size / record, record);
  }

  /** Used for both formats: the loaders differ only in what the words mean. */
  method LoadVecs(file: seq<byte>) returns (r: Result<VecsArray>)
    ensures r == LoadedVecs(file)
  {
    if |file| < 4 {
      return Err(Corruption);
    }
    var dim := LeValue(file[..4]);
    if dim == 0 || dim >= INT32_RANGE {
      return Err(Corruption);
    }
    var recordSize := RecordSize(dim);
    if |file| % recordSize != 0 {
      return Err(Corruption);
    }
    var rows := |file| / recordSize % UINT32_RANGE;
    RowsFit(|file|, recordSize);
    var data := LoadRows(file, dim, rows);
    if data.Err? {
      return Err(data.error);
    }
    return Ok(VecsArray(rows, dim, data.value));
  }

  method LoadRows(file: seq<byte>, dim: nat, rows: nat) returns (r: Result<seq<nat>>)
    requires Times(rows, RecordSize(dim)) <= |file|
    ensures r == ReadRows(file, dim, rows)
  {
    hide Words;
    var data: seq<nat> := [];
    var pos := 0;
    for i := 0 to rows
      invariant pos == Times(i, RecordSize(dim)) && pos <= |file|
      invariant ReadRows(file, dim, i) == Ok(data)
    {
      TimesGrows(i, rows, RecordSize(dim));
      var recDim := LeValue(file[pos..pos + 4]);
      if recDim != dim {
        RowsFail(file, dim, i + 1, rows);
        return Err(Corruption);
      }
      data := data + Words(file[pos + 4..], dim);
      pos := pos + RecordSize(dim);
    }
    return Ok(data);
  }

  lemma {:induction false} RowsFail(file: seq<byte>, dim: nat, n: nat, rows: nat)
    requires n <= rows && Times(n, RecordSize(dim)) <= |file| && Times(rows, RecordSize(dim)) <= |file|
    requires ReadRows(file, dim, n) == Err(Corruption)
    ensures ReadRows(file, dim, rows) == Err(Corruption)
    decreases rows - n
  {
    if n < rows {
      TimesGrows(n + 1, rows, RecordSize(dim));
      RowsFail(file, dim, n + 1, rows);
    }
  }

  /** Every record of the first n begins with this dimension. */
  predicate SameHeads(file: seq<byte>, dim: nat, n: nat) {
    forall i :: 0 <= i < n ==> HeadAt(file, Times(i, RecordSize(dim))) == dim
  }

  function HeadAt(file: seq<byte>, pos: nat): nat {
    if pos + 4 <= |file| then LeValue(file[pos..pos + 4]) else 0
  }

  lemma {:induction false} RowsRead(file: seq<byte>, dim: nat, n: nat)
    requires Times(n, RecordSize(dim)) <= |file|
    ensures ReadRows(file, dim, n).Ok? <==> SameHeads(file, dim, n)
    ensures ReadRows(file, dim, n).Err? ==> ReadRows(file, dim, n).error == Corruption
    decreases n
  {
    hide LeValue, Words;
    if n > 0 {
      RowsRead(file, dim, n - 1);
      assert SameHeads(file, dim, n) <==> SameHeads(file, dim, n - 1) && HeadAt(file, Times(n - 1, RecordSize(dim))) == dim;
    }
  }

  /** Which files are refused, always as corrupt: shorter than a dimension, a first dimension
      that is no positive signed 32-bit number, a size that is no whole number of records of
      a dimension word and that many words, or a record that gives another dimension. */
  lemma {:induction false} VecsRefusals(file: seq<byte>)
    ensures LoadedVecs(file).Err? ==> LoadedVecs(file) == Err(Corruption)
    ensures LoadedVecs(file).Ok? <==>
      && 4 <= |file|
      && var dim := LeValue(file[..4]);
        && 0 < dim < 0x8000_0000 && |file| % (4 + 4 * dim) == 0
        && SameHeads(file, dim, |file| / (4 + 4 * dim) % 0x1_0000_0000)
  {
    hide LeValue, ReadRows, SameHeads;
    if 4 <= |file| {
      var dim := LeValue(file[..4]);
      if 0 < dim < INT32_RANGE && |file| % RecordSize(dim) == 0 {
        RowsFit(|file|, RecordSize(dim));
        RowsRead(file, dim, |file| / RecordSize(dim) % UINT32_RANGE);
      }
    }
  }

  // ----- what was written loads -----

  /** The n-th record of a written file. */
  lemma {:induction false} RecordOfWritten(data: seq<nat>, rows: nat, dim: nat, n: nat)
    requires Times(rows, dim) <= |data| && n < rows
    ensures Times(n, dim) + dim <= |data|
    ensures var pos := Times(n, RecordSize(dim));
      && pos + RecordSize(dim) <= |Written(data, rows, dim)|
      && Written(data, rows, dim)[pos..pos + RecordSize(dim)] == Record(Row(data, n, dim))
    decreases rows
  {
    hide Record, RecordSize;
    TimesGrows(n, rows, dim);
    if n < rows - 1 {
      RecordOfWritten(data, rows - 1, dim, n);
    }
  }

  /** A record read back. */
  lemma {:induction false} RecordRead(file: seq<byte>, pos: nat, row: seq<nat>)
    requires AllWords(row) && FitsU32(|row|) && pos + RecordSize(|row|) <= |file|
    requires file[pos..pos + RecordSize(|row|)] == Record(row)
    ensures LeValue(file[pos..pos + 4]) == |row| && Words(file[pos + 4..], |row|) == row
  {
    var rec := file[pos..pos + RecordSize(|row|)];
    U32RoundTrip(|row|);
    assert file[pos..pos + 4] == rec[..4] == LeBytes(|row|, 4);
    WordsOfBytes(row, |row|);
    assert rec[4..] == WordBytes(row);
    WordsPrefix(file[pos + 4..], rec[4..], |row|);
  }

  lemma {:induction false} WordsPrefix(b: seq<byte>, c: seq<byte>, n: nat)
    requires 4 * n == |c| <= |b| && b[..4 * n] == c
    ensures Words(b, n) == Words(c, n)
  {
    if n > 0 {
      assert b[..4] == b[..4 * n][..4] == c[..4];
      assert b[4..][..4 * (n - 1)] == b[..4 * n][4..] == c[4..];
      WordsPrefix(b[4..], c[4..], n - 1);
    }
  }

  /** The first n records of the file hold data. */
  ghost predicate Reads(file: seq<byte>, dim: nat, n: nat, data: seq<nat>) {
    Times(n, RecordSize(dim)) <= |file| && ReadRows(file, dim, n) == Ok(data)
  }

  lemma {:induction false} RowsOfWritten(data: seq<nat>, rows: nat, dim: nat, n: nat)
    requires Times(rows, dim) <= |data| && AllWords(data) && FitsU32(dim) && n <= rows
    ensures Times(n, dim) <= |data| && Reads(Written(data, rows, dim), dim, n, data[..Times(n, dim)])
    decreases n
  {
    hide RecordSize, Written, Words;
    TimesGrows(n, rows, dim);
    if n > 0 {
      hide Reads;
      RowsOfWritten(data, rows, dim, n - 1);
      NextRow(Written(data, rows, dim), data, rows, dim, n - 1, Times(n - 1, dim));
    }
  }

  lemma {:induction false} NextRow(file: seq<byte>, data: seq<nat>, rows: nat, dim: nat, n: nat, first: nat)
    requires Times(rows, dim) <= |data| && file == Written(data, rows, dim) && AllWords(data) && FitsU32(dim)
    requires n < rows && first == Times(n, dim) && first + dim <= |data| && Reads(file, dim, n, data[..first])
    ensures Reads(file, dim, n + 1, data[..first + dim])
  {
    hide Record, Written, Words, RecordSize;
    RecordOfWritten(data, rows, dim, n);
    RecordRead(file, Times(n, RecordSize(dim)), Row(data, n, dim));
    assert data[..first] + data[first..first + dim] == data[..first + dim];
  }

  /** Loading what was written gives the matrix back, if and only if it has a row, fewer
      rows than the 32-bit row count wraps at, and a dimension the signed field of the
      loader holds. */
  lemma {:induction false} LoadOfWritten(data: seq<nat>, rows: nat, dim: nat)
    requires |data| == Times(rows, dim) && AllWords(data) && FitsU32(dim)
    ensures LoadedVecs(Written(data, rows, dim)) == Ok(VecsArray(rows, dim, data))
      <==> 0 < rows < UINT32_RANGE && 0 < dim < INT32_RANGE
  {
    hide Record, Written, Words, ReadRows, RecordSize;
    if rows == 0 {
      NothingWritten(data, dim);
    } else if 0 < dim < INT32_RANGE {
      if rows < UINT32_RANGE {
        LoadOfRows(data, rows, dim);
      }
    } else {
      FirstWordOfWritten(data, rows, dim);
    }
  }

  lemma {:induction false} NothingWritten(data: seq<nat>, dim: nat)
    requires Times(0, dim) <= |data|
    ensures Written(data, 0, dim) == []
  {
  }

  lemma {:induction false} LoadOfRows(data: seq<nat>, rows: nat, dim: nat)
    requires |data| == Times(rows, dim) && AllWords(data) && 0 < rows < UINT32_RANGE && 0 < dim < INT32_RANGE
    ensures LoadedVecs(Written(data, rows, dim)) == Ok(VecsArray(rows, dim, data))
  {
    hide Record, Written, Words, ReadRows, RecordSize;
    var file := Written(data, rows, dim);
    FirstWordOfWritten(data, rows, dim);
    ExactRows(rows, RecordSize(dim));
    assert |file| % RecordSize(dim) == 0 && |file| / RecordSize(dim) == rows;
    RowsOfWritten(data, rows, dim, rows);
    assert data[..Times(rows, dim)] == data;
  }

  lemma {:induction false} FirstWordOfWritten(data: seq<nat>, rows: nat, dim: nat)
    requires Times(rows, dim) <= |data| && AllWords(data) && 0 < rows && FitsU32(dim)
    ensures var file := Written(data, rows, dim); |file| >= 4 && LeValue(file[..4]) == dim
  {
    hide Record, Written, Words, RecordSize;
    RecordOfWritten(data, rows, dim, 0);
    RecordRead(Written(data, rows, dim), 0, Row(data, 0, dim));
  }

  lemma {:induction false} ExactRows(rows: nat, record: nat)
    requires 0 < record
    ensures Times(rows, record) % record == 0 && Times(rows, record) / record == rows
  {
    TimesIsProduct(rows, record);
    DivModUnique(Times(rows, record), record, rows, 0);
  }

  /** The exported assignments load back, if and only if there is at least one row and
      their number fits 32 bits. */
  lemma {:induction false} AssignmentsLoadBack(assignments: seq<nat>)
    requires AllWords(assignments)
    ensures Times(|assignments|, 1) == |assignments|
    ensures LoadedVecs(Written(assignments, |assignments|, 1)) == Ok(VecsArray(|assignments|, 1, assignments))
      <==> 0 < |assignments| < UINT32_RANGE
  {
    TimesIsProduct(|assignments|, 1);
    LoadOfWritten(assignments, |assignments|, 1);
  }

  // ----- what loads was written -----

  /** data is the first n records of the file. */
  ghost predicate Holds(file: seq<byte>, dim: nat, n: nat, data: seq<nat>) {
    && Times(n, RecordSize(dim)) <= |file| && |data| == Times(n, dim) && AllWords(data)
    && Written(data, n, dim) == file[..Times(n, RecordSize(dim))]
  }

  lemma {:induction false} RowsAreWritten(file: seq<byte>, dim: nat, n: nat)
    requires Times(n, RecordSize(dim)) <= |file| && ReadRows(file, dim, n).Ok?
    ensures Holds(file, dim, n, ReadRows(file, dim, n).value)
    decreases n
  {
    hide Written, Words;
    if n == 0 {
      NoRows(file, dim);
    } else {
      RowsAreWritten(file, dim, n - 1);
      var pos := Times(n - 1, RecordSize(dim));
      AppendedRow(file, dim, n - 1, pos, ReadRows(file, dim, n - 1).value, Words(file[pos + 4..], dim));
    }
  }

  lemma {:induction false} NoRows(file: seq<byte>, dim: nat)
    ensures Holds(file, dim, 0, [])
  {
  }

  lemma {:induction false} AppendedRow(file: seq<byte>, dim: nat, n: nat, pos: nat, before: seq<nat>, row: seq<nat>)
    requires Holds(file, dim, n, before) && pos == Times(n, RecordSize(dim)) && pos + RecordSize(dim) <= |file|
    requires LeValue(file[pos..pos + 4]) == dim && row == Words(file[pos + 4..], dim)
    ensures Holds(file, dim, n + 1, before + row)
  {
    hide Record, Words;
    BytesOfWords(file[pos + 4..], dim);
    WrittenPrefix(before, row, n, dim);
    assert Row(before + row, n, dim) == row;
    RecordOfBytes(file, pos, row);
  }

  /** Written rows do not depend on the rows after them. */
  lemma {:induction false} WrittenPrefix(data: seq<nat>, more: seq<nat>, rows: nat, dim: nat)
    requires Times(rows, dim) <= |data|
    ensures Written(data + more, rows, dim) == Written(data, rows, dim)
    decreases rows
  {
    hide Record, RecordSize;
    if rows > 0 {
      WrittenPrefix(data, more, rows - 1, dim);
      assert Row(data + more, rows - 1, dim) == Row(data, rows - 1, dim);
    }
  }

  lemma {:induction false} RecordOfBytes(file: seq<byte>, pos: nat, row: seq<nat>)
    requires pos + RecordSize(|row|) <= |file| && row == Words(file[pos + 4..], |row|)
    requires LeValue(file[pos..pos + 4]) == |row|
    ensures file[..pos] + Record(row) == file[..pos + RecordSize(|row|)]
  {
    LeBytesValue(file[pos..pos + 4]);
    BytesOfWords(file[pos + 4..], |row|);
    assert file[pos + 4..][..4 * |row|] == file[pos + 4..pos + RecordSize(|row|)];
  }

  /** A file that loads is the written form of its array, with nothing ignored, if and
      only if it has fewer than 2^32 records. */
  lemma {:induction false} LoadedIsWritten(file: seq<byte>)
    requires LoadedVecs(file).Ok?
    ensures var a := LoadedVecs(file).value;
      |file| / RecordSize(LeValue(file[..4])) < UINT32_RANGE <==>
        |a.data| == Times(a.rows, a.cols) && file == Written(a.data, a.rows, a.cols)
  {
    hide ReadRows, Written, RecordSize;
    var record := RecordSize(LeValue(file[..4]));
    var records := |file| / record;
    RowsFit(|file|, record);
    RowsAreWritten(file, LeValue(file[..4]), records % UINT32_RANGE);
    if UINT32_RANGE <= records {
      TimesGrows(records % UINT32_RANGE, records, record);
    }
  }
}
