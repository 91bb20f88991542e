/** Saving a float vector as an .npy file and loading it back.  Files are byte
    sequences; a float is its 32-bit pattern. */
module NpyFile {
  import opened Bits
  import opened Status
  import opened NpyHeader
  import opened WordArray

  const NPY_MAGIC: seq<byte> := [0x93, 78, 85, 77, 80, 89]

  predicate AllBytes(s: string) {
    forall i :: 0 <= i < |s| ==> s[i] as int < 256
  }

  function Bytes(s: string): (r: seq<byte>)
    requires AllBytes(s)
    ensures |r| == |s|
  {
    seq(|s|, i requires 0 <= i < |s| => s[i] as int)
  }

  function Chars(b: seq<byte>): (r: string)
    ensures |r| == |b|
  {
    seq(|b|, i requires 0 <= i < |b| => b[i] as char)
  }

  lemma {:induction false} CharsOfBytes(s: string)
    requires AllBytes(s)
    ensures Chars(Bytes(s)) == s
  {
  }

  // ----- saving -----

  function SavedFile(values: seq<nat>): Result<seq<byte>>
  {
    var header := Padded(DictText(|values|));
    if |header| > 65535 then Err(InvalidArgument)
    else
      HeaderIsBytes(|values|);
      Ok(NPY_MAGIC + [1, 0] + LeBytes(|header|, 2) + Bytes(header) + WordBytes(values))
  }

  lemma {:induction false} HeaderIsBytes(count: nat)
    ensures AllBytes(Padded(DictText(count)))
  {
    FieldsAreBytes();
    assert AllBytes(ShapeText(count));
    assert AllBytes(DESCR_FIELD + ORDER_FIELD + SHAPE_FIELD + ShapeText(count));
    PaddedIsBytes(DictText(count));
  }

  lemma {:induction false} FieldsAreBytes()
    ensures AllBytes(DESCR_FIELD) && AllBytes(ORDER_FIELD) && AllBytes(SHAPE_FIELD)
  {
  }

  lemma {:induction false} PaddedIsBytes(header: string)
    requires AllBytes(header)
    ensures AllBytes(Padded(header))
  {
  }

  method SaveNpyFloat32Vector(values: seq<nat>) returns (r: Result<seq<byte>>)
    ensures r == SavedFile(values)
  {
    var file := NPY_MAGIC;
    file := file + [1, 0];
    var header := DictText(|values|);
    var headerLen := |header| + 1;
    var totalMod := (|NPY_MAGIC| + 2 + 2 + headerLen) % 16;
    if totalMod != 0 {
      header := header + Spaces(16 - totalMod);
    }
    header := header + "\n";
    if |header| > 65535 {
      return Err(InvalidArgument);
    }
    HeaderIsBytes(|values|);
    file := file + LeBytes(|header|, 2);
    file := file + Bytes(header);
    ghost var head := file;
    if |values| != 0 {
      file := file + WordBytes(values);
    }
    assert file == head + WordBytes(values);
    return Ok(file);
  }

  // ----- loading -----

  datatype NpyHeaderInfo = NpyHeaderInfo(descr: string, fortranOrder: bool, shape: seq<nat>, dataOffset: nat)

  datatype NpyArrayFloat = NpyArrayFloat(rows: nat, cols: nat, data: seq<nat>)

  /** Width of the header length field, by major version. */
  function LengthBytes(major: nat): nat {
    if major == 1 then 2 else 4
  }

  function ParsedHeader(file: seq<byte>): Result<NpyHeaderInfo> {
    if |file| < 6 || file[..6] != NPY_MAGIC then Err(Corruption)
    else if |file| < 8 then Err(IOError)
    else if file[6] != 1 && file[6] != 2 then Err(InvalidArgument)
    else
      var start := 8 + LengthBytes(file[6]);
      if |file| < start then Err(IOError)
      else
        var dataOffset := start + LeValue(file[8..start]);
        if |file| < dataOffset then Err(IOError)
        else
          var header := Chars(file[start..dataOffset]);
          Ok(NpyHeaderInfo(StripQuotes(ValueText(header, "descr")), ValueText(header, "fortran_order") == "True",
                           Numbers(ValueText(header, "shape"), 0), dataOffset))
  }

  method ParseNpyHeader(file: seq<byte>) returns (r: Result<NpyHeaderInfo>)
    ensures r == ParsedHeader(file)
  {
    if |file| < 6 || file[..6] != NPY_MAGIC {
      return Err(Corruption);
    }
    if |file| < 8 {
      return Err(IOError);
    }
    var major := file[6];
    if major != 1 && major != 2 {
      return Err(InvalidArgument);
    }
    var start := 8 + LengthBytes(major);
    if |file| < start {
      return Err(IOError);
    }
    var headerLen := LeValue(file[8..start]);
    if |file| < start + headerLen {
      return Err(IOError);
    }
    var header := Chars(file[start..start + headerLen]);
    var descr := ExtractValue(header, "descr");
    var fortran := ExtractValue(header, "fortran_order");
    var shapeText := ExtractValue(header, "shape");
    var shape := ParseShape(shapeText);
    return Ok(NpyHeaderInfo(StripQuotes(descr), fortran == "True", shape, start + headerLen));
  }

  /** Elements of an array of this shape: rows times columns, one column if there is a
      single dimension. */
  function Columns(shape: seq<nat>): nat {
    if |shape| >= 2 then shape[1] else 1
  }

  function Total(rows: nat, cols: nat): nat {
    rows * cols
  }

  function LoadedData(file: seq<byte>, h: NpyHeaderInfo): Result<NpyArrayFloat> {
    if h.descr != "<f4" && h.descr != "=f4" then Err(InvalidArgument)
    else if h.fortranOrder || h.shape == [] then Err(InvalidArgument)
    else
      var cols := Columns(h.shape);
      var total := Total(h.shape[0], cols);
      if |file| < h.dataOffset + 4 * total then Err(IOError)
      else Ok(NpyArrayFloat(h.shape[0], cols, Words(file[h.dataOffset..], total)))
  }

  function LoadedFile(file: seq<byte>): Result<NpyArrayFloat> {
    match ParsedHeader(file)
    case Err(e) => Err(e)
    case Ok(h) => LoadedData(file, h)
  }

  method LoadNpyFloat32(file: seq<byte>) returns (r: Result<NpyArrayFloat>)
    ensures r == LoadedFile(file)
  {
    hide ParsedHeader;
    var parsed := ParseNpyHeader(file);
    if parsed.Err? {
      return Err(parsed.error);
    }
    var h := parsed.value;
    if h.descr != "<f4" && h.descr != "=f4" {
      return Err(InvalidArgument);
    }
    if h.fortranOrder {
      return Err(InvalidArgument);
    }
    if h.shape == [] {
      return Err(InvalidArgument);
    }
    var rows := h.shape[0];
    var cols := if |h.shape| >= 2 then h.shape[1] else 1;
    var total := Total(rows, cols);
    if |file| < h.dataOffset + 4 * total {
      return Err(IOError);
    }
    return Ok(NpyArrayFloat(rows, cols, Words(file[h.dataOffset..], total)));
  }

  // ----- round trip -----

  const SIZE_RANGE := 0x1_0000_0000_0000_0000

  /** Saving never fails: a 64-bit length leaves the header far below 65535 bytes. */
  lemma {:induction false} SaveSucceeds(values: seq<nat>)
    requires |values| < SIZE_RANGE
    ensures SavedFile(values).Ok? && |Padded(DictText(|values|))| <= 92
  {
    TwentyDigits(|values|);
  }

  lemma {:induction false} TwentyDigits(n: nat)
    requires n < SIZE_RANGE
    ensures |Decimal(n)| <= 20
  {
    assert TenTo(5) == 100000;
    assert TenTo(10) == 100000 * TenTo(5) by {
      TenToMore(5);
    }
    TenToMore(10);
    TenToMore(15);
    DecimalLength(n, 20, TenTo(20));
  }

  lemma {:induction false} TenToMore(k: nat)
    ensures TenTo(k + 5) == 100000 * TenTo(k)
  {
    assert TenTo(k + 2) == 10 * TenTo(k + 1) == 100 * TenTo(k);
    assert TenTo(k + 4) == 10 * TenTo(k + 3) == 100 * TenTo(k + 2);
  }

  /** The parts of a saved file. */
  lemma {:induction false} SavedParts(values: seq<nat>)
    requires |values| < SIZE_RANGE
    ensures SavedFile(values).Ok? && AllBytes(Padded(DictText(|values|)))
    ensures var file := SavedFile(values).value; var header := Padded(DictText(|values|));
      && |file| == 10 + |header| + 4 * |values|
      && file[..8] == [0x93, 'N' as int, 'U' as int, 'M' as int, 'P' as int, 'Y' as int, 1, 0]
      && file[..6] == NPY_MAGIC && file[6] == 1 && file[8..10] == LeBytes(|header|, 2)
      && file[10..10 + |header|] == Bytes(header) && file[10 + |header|..] == WordBytes(values)
  {
    SaveSucceeds(values);
    HeaderIsBytes(|values|);
  }

  /** Parsing what was saved: float32, C order, one dimension (reduced to 32 bits),
      data on a 16-byte boundary. */
  lemma {:induction false} ParseOfSaved(values: seq<nat>)
    requires |values| < SIZE_RANGE
    ensures SavedFile(values).Ok?
    ensures var h := ParsedHeader(SavedFile(values).value);
      && h.Ok? && h.value.descr == "<f4" && !h.value.fortranOrder
      && h.value.shape == [|values| % UINT32_RANGE]
      && h.value.dataOffset % 16 == 0 && h.value.dataOffset == 10 + |Padded(DictText(|values|))|
  {
    hide ValueText, Numbers, StripQuotes, SavedFile, DictText, LeValue, LeBytes;
    var header := Padded(DictText(|values|));
    SavedParts(values);
    SaveSucceeds(values);
    assert Pow2(16) == 65536 by {
      Pow2Byte(0);
      Pow2Byte(8);
    }
    LeRoundTrip(|header|, 2);
    CharsOfBytes(header);
    HeaderRead(|values|);
  }

  /** Loading what was saved gives the first length mod 2^32 values. */
  lemma {:induction false} LoadOfSaved(values: seq<nat>)
    requires |values| < SIZE_RANGE && AllWords(values)
    ensures SavedFile(values).Ok?
    ensures var n := |values| % UINT32_RANGE;
      LoadedFile(SavedFile(values).value) == Ok(NpyArrayFloat(n, 1, values[..n]))
  {
    hide ParsedHeader, SavedFile;
    ParseOfSaved(values);
    SavedParts(values);
    DataOfSaved(SavedFile(values).value, ParsedHeader(SavedFile(values).value).value, values);
  }

  lemma {:induction false} DataOfSaved(file: seq<byte>, h: NpyHeaderInfo, values: seq<nat>)
    requires AllWords(values) && h.descr == "<f4" && !h.fortranOrder && h.shape == [|values| % UINT32_RANGE]
    requires h.dataOffset <= |file| && file[h.dataOffset..] == WordBytes(values)
    ensures var n := |values| % UINT32_RANGE; LoadedData(file, h) == Ok(NpyArrayFloat(n, 1, values[..n]))
  {
    WordsOfBytes(values, |values| % UINT32_RANGE);
  }

  /** The file begins with the six magic bytes. */
  predicate IsNpy(file: seq<byte>) {
    6 <= |file| && file[..6] == [0x93, 'N' as int, 'U' as int, 'M' as int, 'P' as int, 'Y' as int]
  }

  /** The file holds the header it announces: two length bytes in version 1, four in
      version 2. */
  predicate HoldsHeader(file: seq<byte>) {
    && 8 <= |file|
    && (file[6] == 1 ==> 10 <= |file| && 10 + LeValue(file[8..10]) <= |file|)
    && (file[6] == 2 ==> 12 <= |file| && 12 + LeValue(file[8..12]) <= |file|)
  }

  /** Which files are refused, and how. */
  lemma {:induction false} HeaderRefusals(file: seq<byte>)
    ensures ParsedHeader(file) == Err(Corruption) <==> !IsNpy(file)
    ensures ParsedHeader(file) == Err(InvalidArgument) <==> IsNpy(file) && 8 <= |file| && file[6] !in {1, 2}
    ensures ParsedHeader(file) == Err(IOError) <==> IsNpy(file) && !HoldsHeader(file)
    ensures ParsedHeader(file).Ok? <==> IsNpy(file) && HoldsHeader(file) && file[6] in {1, 2}
  {
    hide LeValue, ValueText, Numbers, StripQuotes;
  }

  /** Any header text, in either version, is parsed from where it stands, and the data
      begins right behind it. */
  lemma {:induction false} AnyHeaderParses(file: seq<byte>, header: string, rest: seq<byte>, minor: byte)
    requires AllBytes(header)
    requires
      || (|header| < 0x1_0000 && file == [0x93, 78, 85, 77, 80, 89, 1, minor] + LeBytes(|header|, 2) + Bytes(header) + rest)
      || (FitsU32(|header|) && file == [0x93, 78, 85, 77, 80, 89, 2, minor] + LeBytes(|header|, 4) + Bytes(header) + rest)
    ensures var h := ParsedHeader(file);
      && h.Ok? && h.value.dataOffset + |rest| == |file| && file[h.value.dataOffset..] == rest
      && h.value.descr == StripQuotes(ValueText(header, "descr"))
      && (h.value.fortranOrder <==> ValueText(header, "fortran_order") == "True")
      && h.value.shape == Numbers(ValueText(header, "shape"), 0)
  {
    hide LeValue, LeBytes, ValueText, Numbers, StripQuotes;
    assert Pow2(16) == 65536 by {
      Pow2Byte(0);
      Pow2Byte(8);
    }
    CharsOfBytes(header);
    var width := if file[6] == 1 then 2 else 4;
    if width == 2 {
      LeRoundTrip(|header|, 2);
    } else {
      U32RoundTrip(|header|);
    }
    assert file[8..8 + width] == LeBytes(|header|, width);
    assert file[8 + width..8 + width + |header|] == Bytes(header);
  }

  /** Which arrays are refused, and how: other types than little-endian or native floats,
      Fortran order and scalars; then data that ends early. */
  lemma {:induction false} DataRefusals(file: seq<byte>, h: NpyHeaderInfo)
    requires h.dataOffset <= |file|
    ensures LoadedData(file, h) == Err(InvalidArgument) <==> h.descr !in {"<f4", "=f4"} || h.fortranOrder || |h.shape| == 0
    ensures h.descr in {"<f4", "=f4"} && !h.fortranOrder && h.shape != [] ==>
      (LoadedData(file, h) == Err(IOError) <==>
        |file| - h.dataOffset < 4 * (h.shape[0] * if |h.shape| >= 2 then h.shape[1] else 1))
    ensures LoadedData(file, h).Err? ==> LoadedData(file, h).error in {InvalidArgument, IOError}
    ensures LoadedData(file, h).Ok? ==>
      |LoadedData(file, h).value.data| == LoadedData(file, h).value.rows * LoadedData(file, h).value.cols
  {
  }

  /** A float matrix of any size behind its header loads as that matrix: rows by columns for
      two or more dimensions (any more are not looked at), one column for one dimension. */
  lemma {:induction false} MatrixLoads(file: seq<byte>, h: NpyHeaderInfo, rows: nat, cols: nat, more: seq<nat>, data: seq<nat>)
    requires h.descr in {"<f4", "=f4"} && !h.fortranOrder
    requires h.shape == [rows, cols] + more || (h.shape == [rows] && cols == 1)
    requires |data| == rows * cols && AllWords(data)
    requires h.dataOffset <= |file| && WordBytes(data) <= file[h.dataOffset..]
    ensures LoadedData(file, h) == Ok(NpyArrayFloat(rows, cols, data))
  {
    assert h.shape[0] == rows && Columns(h.shape) == cols;
    WordsOfBytes(data, |data|);
    assert data[..|data|] == data;
    WordsOfPrefix(WordBytes(data), file[h.dataOffset..], |data|);
  }

  lemma {:induction false} WordsOfPrefix(a: seq<byte>, b: seq<byte>, n: nat)
    requires a <= b && 4 * n <= |a|
    ensures Words(b, n) == Words(a, n)
  {
    if n > 0 {
      assert b[..4] == a[..4];
      WordsOfPrefix(a[4..], b[4..], n - 1);
    }
  }

  /** The round trip is exact if and only if the length fits 32 bits. */
  lemma {:induction false} RoundTripExact(values: seq<nat>)
    requires |values| < SIZE_RANGE && AllWords(values)
    ensures SavedFile(values).Ok?
    ensures LoadedFile(SavedFile(values).value) == Ok(NpyArrayFloat(|values|, 1, values)) <==> |values| < UINT32_RANGE
  {
    hide LoadedFile, SavedFile;
    LoadOfSaved(values);
    if |values| < UINT32_RANGE {
      assert values[..|values|] == values;
    }
  }
}
