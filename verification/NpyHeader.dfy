/** The text header of an .npy file: the hand-written scanner for the Python dict, and
    the dict the writer prints. */
module NpyHeader {
  import opened Bits

  // ----- the scanner -----

  predicate Match(s: string, pat: string, i: nat) {
    i + |pat| <= |s| && s[i..i + |pat|] == pat
  }

  /** Where pat first occurs in s at or after from, or -1. */
  function Find(s: string, pat: string, from: nat): (p: int)
    ensures p == -1 || (from <= p && Match(s, pat, p))
    decreases |s| - from
  {
    if from + |pat| > |s| then -1
    else if Match(s, pat, from) then from
    else Find(s, pat, from + 1)
  }

  function SkipSpaces(s: string, i: nat): (r: nat)
    requires i <= |s|
    ensures i <= r <= |s| && (forall j :: i <= j < r ==> s[j] == ' ') && (r < |s| ==> s[r] != ' ')
    decreases |s| - i
  {
    if i < |s| && s[i] == ' ' then SkipSpaces(s, i + 1) else i
  }

  /** The end of a value: a comma or closing brace outside parentheses, or a closing
      parenthesis that was not opened. */
  function ValueEnd(s: string, i: nat, depth: nat): (r: nat)
    requires i <= |s|
    ensures i <= r <= |s|
    decreases |s| - i
  {
    if i == |s| then i
    else
      var c := s[i];
      if c == '(' || c == '[' then ValueEnd(s, i + 1, depth + 1)
      else if c == ')' || c == ']' then (if depth > 0 then ValueEnd(s, i + 1, depth - 1) else i)
      else if (c == ',' || c == '}') && depth == 0 then i
      else ValueEnd(s, i + 1, depth)
  }

  function TrimEnd(s: string, start: nat, end: nat): (r: nat)
    requires start <= end <= |s|
    ensures start <= r <= end && (forall j :: r <= j < end ==> s[j] == ' ') && (start < r ==> s[r - 1] != ' ')
  {
    if end > start && s[end - 1] == ' ' then TrimEnd(s, start, end - 1) else end
  }

  function KeyPosition(header: string, key: string): int {
    var pos := Find(header, "'" + key + "'", 0);
    if pos >= 0 then pos else Find(header, "\"" + key + "\"", 0)
  }

  /** The text of a key's value; empty when there is no such key. */
  function ValueText(header: string, key: string): string {
    var pos := KeyPosition(header, key);
    if pos < 0 then ""
    else
      var colon := Find(header, ":", pos);
      if colon < 0 then ""
      else
        var start := SkipSpaces(header, colon + 1);
        header[start..TrimEnd(header, start, ValueEnd(header, start, 0))]
  }

  method ExtractValue(header: string, key: string) returns (r: string)
    ensures r == ValueText(header, key)
  {
    var pos := Find(header, "'" + key + "'", 0);
    if pos < 0 {
      pos := Find(header, "\"" + key + "\"", 0);
    }
    if pos < 0 {
      return "";
    }
    var colon := Find(header, ":", pos);
    if colon < 0 {
      return "";
    }
    var start := SkipBlanks(header, colon + 1);
    var end := ScanValue(header, start);
    end := TrimBlanks(header, start, end);
    r := header[start..end];
  }

  method SkipBlanks(header: string, from: nat) returns (start: nat)
    requires from <= |header|
    ensures start == SkipSpaces(header, from)
  {
    start := from;
    while start < |header| && header[start] == ' '
      invariant start <= |header| && SkipSpaces(header, start) == SkipSpaces(header, from)
    {
      start := start + 1;
    }
  }

  method TrimBlanks(header: string, start: nat, from: nat) returns (end: nat)
    requires start <= from <= |header|
    ensures end == TrimEnd(header, start, from)
  {
    end := from;
    while end > start && header[end - 1] == ' '
      invariant start <= end <= |header| && TrimEnd(header, start, end) == TrimEnd(header, start, from)
    {
      end := end - 1;
    }
  }

  method ScanValue(header: string, start: nat) returns (end: nat)
    requires start <= |header|
    ensures end == ValueEnd(header, start, 0)
  {
    end := start;
    var parenDepth := 0;
    while end < |header|
      invariant start <= end <= |header| && 0 <= parenDepth
      invariant ValueEnd(header, end, parenDepth) == ValueEnd(header, start, 0)
    {
      var c := header[end];
      if c == '(' || c == '[' {
        parenDepth := parenDepth + 1;
      } else if c == ')' || c == ']' {
        if parenDepth > 0 {
          parenDepth := parenDepth - 1;
        } else {
          break;
        }
      } else if c == ',' && parenDepth == 0 {
        break;
      } else if c == '}' && parenDepth == 0 {
        break;
      }
      end := end + 1;
    }
  }

  function StripQuotes(s: string): string {
    if |s| >= 2 && (s[0] == '\'' || s[0] == '"') then s[1..|s| - 1] else s
  }

  // ----- numbers -----

  predicate IsDigit(c: char) {
    '0' <= c <= '9'
  }

  function DigitOf(c: char): nat
    requires IsDigit(c)
  {
    (c - '0') as nat
  }

  /** The decimal number starting at i, in 32-bit arithmetic. */
  function NumberValue(s: string, i: nat, acc: nat): nat
    requires i <= |s|
    decreases |s| - i
  {
    if i < |s| && IsDigit(s[i]) then NumberValue(s, i + 1, (acc * 10 + DigitOf(s[i])) % UINT32_RANGE) else acc
  }

  function NumberEnd(s: string, i: nat): (r: nat)
    requires i <= |s|
    ensures i <= r <= |s|
    ensures i < |s| && IsDigit(s[i]) ==> i < r
    decreases |s| - i
  {
    if i < |s| && IsDigit(s[i]) then NumberEnd(s, i + 1) else i
  }

  /** Every maximal run of digits from i on. */
  function Numbers(s: string, i: nat): seq<nat>
    requires i <= |s|
    decreases |s| - i
  {
    if i == |s| then []
    else if IsDigit(s[i]) then [NumberValue(s, i, 0)] + Numbers(s, NumberEnd(s, i))
    else Numbers(s, i + 1)
  }

  method ParseShape(text: string) returns (shape: seq<nat>)
    ensures shape == Numbers(text, 0)
  {
    shape := [];
    var i := 0;
    while i < |text| && !IsDigit(text[i])
      invariant i <= |text| && Numbers(text, i) == Numbers(text, 0)
    {
      i := i + 1;
    }
    while i < |text|
      invariant i <= |text| && shape + Numbers(text, i) == Numbers(text, 0)
    {
      if IsDigit(text[i]) {
        var val: nat := 0;
        ghost var first := i;
        while i < |text| && IsDigit(text[i])
          invariant first <= i <= |text| && (i == first ==> IsDigit(text[i]))
          invariant NumberValue(text, i, val) == NumberValue(text, first, 0)
          invariant NumberEnd(text, i) == NumberEnd(text, first)
        {
          val := (val * 10 + DigitOf(text[i])) % UINT32_RANGE;
          i := i + 1;
        }
        assert shape + ([val] + Numbers(text, i)) == (shape + [val]) + Numbers(text, i);
        shape := shape + [val];
      } else {
        i := i + 1;
      }
    }
  }

  // ----- the printer -----

  function Decimal(n: nat): (s: string)
    ensures |s| > 0 && forall i :: 0 <= i < |s| ==> IsDigit(s[i])
  {
    var last := [('0' as int + n % 10) as char];
    if n < 10 then last else Decimal(n / 10) + last
  }

  function Spaces(n: nat): (s: string)
    ensures |s| == n && forall i :: 0 <= i < n ==> s[i] == ' '
  {
    seq(n, i => ' ')
  }

  const DESCR_FIELD := "{'descr': '<f4', "
  const ORDER_FIELD := "'fortran_order': False, "
  const SHAPE_FIELD := "'shape': "

  function ShapeText(count: nat): string {
    "(" + Decimal(count) + ",)"
  }

  /** The dict for a one-dimensional float array, before padding. */
  function DictText(count: nat): string {
    DESCR_FIELD + ORDER_FIELD + SHAPE_FIELD + ShapeText(count) + ", }"
  }

  const PREFIX_BYTES := 10

  /** Spaces and a newline bring the data to a multiple of 16. */
  function Padded(header: string): (s: string)
    ensures (PREFIX_BYTES + |s|) % 16 == 0
    ensures |header| < |s| <= |header| + 16
  {
    var totalMod := (PREFIX_BYTES + (|header| + 1)) % 16;
    (if totalMod != 0 then header + Spaces(16 - totalMod) else header) + "\n"
  }

  // ----- scanning a printed field -----

  /** It is the first match: there is none before it, and none at all for -1. */
  lemma {:induction false} FindFirst(s: string, pat: string, from: nat, i: nat)
    requires from <= i && (Find(s, pat, from) == -1 || i < Find(s, pat, from))
    ensures !Match(s, pat, i)
    decreases i - from
  {
    if from < i && from + |pat| <= |s| {
      FindFirst(s, pat, from + 1, i);
    }
  }

  lemma {:induction false} FindSkips(s: string, pat: string, from: nat, q: nat)
    requires from <= q && Match(s, pat, q)
    requires forall i :: from <= i < q ==> !Match(s, pat, i)
    ensures Find(s, pat, from) == q
    decreases q - from
  {
    if from < q {
      FindSkips(s, pat, from + 1, q);
    }
  }

  /** Values whose scan runs through to their end. */
  predicate Scans(v: string, depth: nat) {
    if v == "" then depth == 0
    else
      var c := v[0];
      if c == '(' || c == '[' then Scans(v[1..], depth + 1)
      else if c == ')' || c == ']' then depth > 0 && Scans(v[1..], depth - 1)
      else if c == ',' || c == '}' then depth > 0 && Scans(v[1..], depth)
      else Scans(v[1..], depth)
  }

  lemma {:induction false} ScanThrough(s: string, i: nat, v: string, depth: nat)
    requires i + |v| < |s| && s[i..i + |v|] == v && s[i + |v|] == ',' && Scans(v, depth)
    ensures ValueEnd(s, i, depth) == i + |v|
    decreases |v|
  {
    if v != "" {
      var c := v[0];
      assert s[i] == s[i..i + |v|][0] == c;
      assert s[i + 1..i + 1 + |v[1..]|] == v[1..];
      var depth' := if c == '(' || c == '[' then depth + 1 else if c == ')' || c == ']' then depth - 1 else depth;
      ScanThrough(s, i + 1, v[1..], depth');
    }
  }

  /** Where the scan of a value stops: at the end, a comma or a closing bracket. */
  predicate StopAt(s: string, stop: nat) {
    stop == |s| || (stop < |s| && s[stop] in {',', '}', ')', ']'})
  }

  lemma {:induction false} ScanTo(s: string, i: nat, v: string, depth: nat)
    requires i + |v| <= |s| && s[i..i + |v|] == v && StopAt(s, i + |v|) && Scans(v, depth)
    ensures ValueEnd(s, i, depth) == i + |v|
    decreases |v|
  {
    if v != "" {
      var c := v[0];
      assert s[i] == s[i..i + |v|][0] == c;
      assert s[i + 1..i + 1 + |v[1..]|] == v[1..];
      var depth' := if c == '(' || c == '[' then depth + 1 else if c == ')' || c == ']' then depth - 1 else depth;
      ScanTo(s, i + 1, v[1..], depth');
    }
  }

  lemma {:induction false} ScansPadded(v: string, pad: string, depth: nat)
    requires Scans(v, depth) && forall j :: 0 <= j < |pad| ==> pad[j] == ' '
    ensures Scans(v + pad, depth)
    decreases |v| + |pad|
  {
    if v == "" {
      assert v + pad == pad;
      if pad != "" {
        ScansPadded("", pad[1..], depth);
        assert "" + pad[1..] == pad[1..];
      }
    } else {
      var c := v[0];
      assert (v + pad)[1..] == v[1..] + pad;
      var depth' := if c == '(' || c == '[' then depth + 1 else if c == ')' || c == ']' then depth - 1 else depth;
      ScansPadded(v[1..], pad, depth');
    }
  }

  /** A value is read as it stands, whichever quotes the key is in, however many blanks are
      around it, and whatever ends it. */
  lemma {:induction false} ValueBetween(s: string, key: string, value: string, colon: nat, start: nat, stop: nat)
    requires KeyPosition(s, key) >= 0 && Find(s, ":", KeyPosition(s, key)) == colon
    requires colon < start && start + |value| <= stop <= |s| && StopAt(s, stop)
    requires s[start..start + |value|] == value
    requires forall j :: colon < j < start || start + |value| <= j < stop ==> s[j] == ' '
    requires value != "" && value[0] != ' ' && value[|value| - 1] != ' ' && Scans(value, 0)
    ensures ValueText(s, key) == value
  {
    hide Find, KeyPosition, SkipSpaces, ValueEnd, TrimEnd, Scans;
    var pad := s[start + |value|..stop];
    assert s[start] == value[0] && s[start + |value| - 1] == value[|value| - 1];
    assert s[start..stop] == value + pad;
    ScansPadded(value, pad, 0);
    ScanTo(s, start, value + pad, 0);
  }

  /** The key is looked for in single quotes first, then in double ones; without it, or
      without a colon behind it, there is no value. */
  lemma {:induction false} KeyFound(s: string, key: string)
    ensures var single, double := Find(s, "'" + key + "'", 0), Find(s, "\"" + key + "\"", 0);
      KeyPosition(s, key) == if single != -1 then single else double
    ensures KeyPosition(s, key) < 0 ==> ValueText(s, key) == ""
    ensures KeyPosition(s, key) >= 0 && Find(s, ":", KeyPosition(s, key)) == -1 ==> ValueText(s, key) == ""
  {
  }

  /** One pair of quotes comes off, of either kind; anything else stays. */
  lemma {:induction false} QuotesOff(t: string, q: char)
    requires q == '\'' || q == '"'
    ensures StripQuotes([q] + t + [q]) == t
    ensures StripQuotes([q]) == [q] && StripQuotes("") == ""
    ensures t != "" && t[0] != '\'' && t[0] != '"' ==> StripQuotes(t) == t
  {
  }

  /** A field printed at p: 'key': value, */
  predicate FieldAt(s: string, p: nat, key: string, value: string) {
    var start := p + |key| + 4;
    && start + |value| < |s|
    && s[p..p + (|key| + 2)] == "'" + key + "'"
    && s[start - 2] == ':' && s[start - 1] == ' '
    && s[start..start + |value|] == value && s[start + |value|] == ','
  }

  lemma {:induction false} ColonAfterKey(s: string, p: nat, key: string, value: string)
    requires FieldAt(s, p, key, value) && ':' !in key
    ensures Find(s, ":", p) == p + |key| + 2
  {
    forall i | p <= i < p + |key| + 2 ensures !Match(s, ":", i) {
      assert s[i] == s[p..p + (|key| + 2)][i - p] == ("'" + key + "'")[i - p];
      assert s[i..i + 1][0] == s[i];
    }
    FindSkips(s, ":", p, p + |key| + 2);
  }

  /** The scanner reads back the value of the first field with its key. */
  lemma {:induction false} FieldRead(s: string, p: nat, key: string, value: string)
    requires FieldAt(s, p, key, value) && ':' !in key
    requires Find(s, "'" + key + "'", 0) == p
    requires value != "" && value[0] != ' ' && value[|value| - 1] != ' ' && Scans(value, 0)
    ensures ValueText(s, key) == value
  {
    hide SkipSpaces, TrimEnd, ValueEnd, Scans, Find, FieldAt;
    var start := p + |key| + 4;
    assert Find(s, ":", p) == start - 2 by {
      ColonAfterKey(s, p, key, value);
    }
    FieldParts(s, p, key, value);
    ValueBounds(s, start, value);
  }

  lemma {:induction false} FieldParts(s: string, p: nat, key: string, value: string)
    requires FieldAt(s, p, key, value)
    ensures var start := p + |key| + 4;
      && start + |value| < |s| && s[start - 1] == ' '
      && s[start..start + |value|] == value && s[start + |value|] == ','
  {
  }

  lemma {:induction false} ValueBounds(s: string, start: nat, value: string)
    requires 0 < start && start + |value| < |s| && s[start..start + |value|] == value && s[start + |value|] == ','
    requires value != "" && value[0] != ' ' && value[|value| - 1] != ' ' && Scans(value, 0) && s[start - 1] == ' '
    ensures SkipSpaces(s, start - 1) == start
    ensures TrimEnd(s, start, ValueEnd(s, start, 0)) == start + |value|
  {
    assert s[start] == value[0] && s[start + |value| - 1] == value[|value| - 1];
    ScanThrough(s, start, value, 0);
  }

  // ----- the printed dict -----

  lemma {:induction false} MatchHead(s: string, pat: string, i: nat)
    requires Match(s, pat, i) && 2 <= |pat|
    ensures s[i] == pat[0] && s[i + 1] == pat[1]
  {
    assert s[i] == s[i..i + |pat|][0] && s[i + 1] == s[i..i + |pat|][1];
  }

  /** A key starting 'c is not found before p when no quote is followed by c. */
  lemma {:induction false} FirstKey(s: string, pat: string, p: nat)
    requires Match(s, pat, p) && 2 <= |pat| && pat[0] == '\''
    requires forall i :: 0 <= i < p ==> s[i] != '\'' || s[i + 1] != pat[1]
    ensures Find(s, pat, 0) == p
  {
    forall i | 0 <= i < p ensures !Match(s, pat, i) {
      if Match(s, pat, i) {
        MatchHead(s, pat, i);
      }
    }
    FindSkips(s, pat, 0, p);
  }

  lemma {:induction false} DescrKey()
    ensures "'" + "descr" + "'" == "'descr'"
  {
  }

  lemma {:induction false} DescrRead(rest: string)
    requires |rest| > 0
    ensures ValueText(DESCR_FIELD + rest, "descr") == "'<f4'"
  {
    var s := DESCR_FIELD + rest;
    DescrKey();
    assert s[1..8] == "'descr'";
    assert s[10..15] == "'<f4'";
    assert FieldAt(s, 1, "descr", "'<f4'");
    FirstKey(s, "'descr'", 1);
    QuotedScans();
    FieldRead(s, 1, "descr", "'<f4'");
  }

  lemma {:induction false} QuotedScans()
    ensures Scans("'<f4'", 0)
  {
    assert "'<f4'"[1..] == "<f4'" && "<f4'"[1..] == "f4'" && "f4'"[1..] == "4'" && "4'"[1..] == "'" && "'"[1..] == "";
    assert Scans("", 0);
    assert Scans("'", 0);
    assert Scans("4'", 0);
    assert Scans("f4'", 0);
    assert Scans("<f4'", 0);
  }

  /** Quotes in the first field are followed by d, colon, < or comma. */
  lemma {:induction false} DescrQuotes(s: string, c: char)
    requires |s| > 17 && s[..17] == DESCR_FIELD && c != 'd' && c != ':' && c != '<' && c != ','
    ensures forall i :: 0 <= i < 17 ==> s[i] != '\'' || s[i + 1] != c
  {
    forall i | 0 <= i < 17 ensures s[i] != '\'' || s[i + 1] != c {
      assert s[i] == DESCR_FIELD[i];
      if i < 16 {
        assert s[i + 1] == DESCR_FIELD[i + 1];
      }
    }
  }

  lemma {:induction false} OrderField(s: string, rest: string)
    requires s == DESCR_FIELD + (ORDER_FIELD + rest)
    ensures s[..17] == DESCR_FIELD && |s| >= 41 && s[17..32] == "'fortran_order'"
    ensures s[32] == ':' && s[33] == ' ' && s[34..39] == "False" && s[39] == ','
  {
    assert s[17..41] == ORDER_FIELD;
    assert s[17..32] == s[17..41][0..15];
    assert s[34..39] == s[17..41][17..22];
    assert s[32] == s[17..41][15] && s[33] == s[17..41][16] && s[39] == s[17..41][22];
  }

  lemma {:induction false} OrderKey()
    ensures "'" + "fortran_order" + "'" == "'fortran_order'"
    ensures ':' !in "fortran_order"
  {
  }

  lemma {:induction false} OrderRead(rest: string)
    ensures ValueText(DESCR_FIELD + (ORDER_FIELD + rest), "fortran_order") == "False"
  {
    var s := DESCR_FIELD + (ORDER_FIELD + rest);
    OrderField(s, rest);
    OrderKey();
    DescrQuotes(s, 'f');
    FirstKey(s, "'fortran_order'", 17);
    FalseScans();
    FieldRead(s, 17, "fortran_order", "False");
  }

  lemma {:induction false} FalseScans()
    ensures Scans("False", 0)
  {
    assert "False"[1..] == "alse" && "alse"[1..] == "lse" && "lse"[1..] == "se" && "se"[1..] == "e" && "e"[1..] == "";
    assert Scans("", 0);
    assert Scans("e", 0);
    assert Scans("se", 0);
    assert Scans("lse", 0);
    assert Scans("alse", 0);
  }

  lemma {:induction false} ShapeScans(digits: string)
    requires forall i :: 0 <= i < |digits| ==> IsDigit(digits[i])
    ensures Scans(digits + ",)", 1)
    decreases |digits|
  {
    if digits == "" {
      assert ",)"[1..] == ")" && ")"[1..] == "";
      assert Scans("", 0);
      assert Scans(")", 1);
      assert digits + ",)" == ",)";
    } else {
      ShapeScans(digits[1..]);
      assert (digits + ",)")[1..] == digits[1..] + ",)";
    }
  }

  lemma {:induction false} ShapeField(s: string, count: nat, rest: string)
    requires s == DESCR_FIELD + (ORDER_FIELD + (SHAPE_FIELD + (ShapeText(count) + ("," + rest))))
    ensures s[..17] == DESCR_FIELD && s[17..41] == ORDER_FIELD && FieldAt(s, 41, "shape", ShapeText(count))
    ensures Match(s, "'shape'", 41) && "'" + "shape" + "'" == "'shape'" && ':' !in "shape"
  {
    assert s[41..50] == SHAPE_FIELD;
    assert s[41..48] == s[41..50][0..7];
    assert s[48] == s[41..50][7] && s[49] == s[41..50][8];
    assert s[50..50 + |ShapeText(count)|] == ShapeText(count);
  }

  /** Quotes in the second field are followed by f or colon. */
  lemma {:induction false} OrderQuotes(s: string, c: char)
    requires |s| > 41 && s[17..41] == ORDER_FIELD && c != 'f' && c != ':'
    ensures forall i :: 17 <= i < 41 ==> s[i] != '\'' || s[i + 1] != c
  {
    forall i | 17 <= i < 41 ensures s[i] != '\'' || s[i + 1] != c {
      assert s[i] == ORDER_FIELD[i - 17];
      if i < 40 {
        assert s[i + 1] == ORDER_FIELD[i - 16];
      }
    }
  }

  lemma {:induction false} ShapeRead(count: nat, rest: string)
    ensures var s := DESCR_FIELD + (ORDER_FIELD + (SHAPE_FIELD + (ShapeText(count) + ("," + rest))));
      ValueText(s, "shape") == ShapeText(count)
  {
    var s := DESCR_FIELD + (ORDER_FIELD + (SHAPE_FIELD + (ShapeText(count) + ("," + rest))));
    ShapeField(s, count, rest);
    DescrQuotes(s, 's');
    OrderQuotes(s, 's');
    FirstKey(s, "'shape'", 41);
    assert Scans(ShapeText(count), 0) by {
      ShapeScans(Decimal(count));
      assert ShapeText(count)[1..] == Decimal(count) + ",)";
    }
    FieldRead(s, 41, "shape", ShapeText(count));
  }

  // ----- printed numbers -----

  /** The 32-bit value of a digit string. */
  function DigitsValue(digits: string): nat
    requires forall i :: 0 <= i < |digits| ==> IsDigit(digits[i])
  {
    if digits == "" then 0
    else (DigitsValue(digits[..|digits| - 1]) * 10 + DigitOf(digits[|digits| - 1])) % UINT32_RANGE
  }

  lemma {:induction false} WrapStep(n: nat, d: nat)
    ensures (n % UINT32_RANGE * 10 + d) % UINT32_RANGE == (n * 10 + d) % UINT32_RANGE
  {
    var q, r := n / UINT32_RANGE, n % UINT32_RANGE;
    WrapMultiple(r * 10 + d, 10 * q);
  }

  lemma {:induction false} WrapMultiple(a: nat, k: nat)
    ensures (a + k * UINT32_RANGE) % UINT32_RANGE == a % UINT32_RANGE
  {
  }

  /** Decimal digits read back in 32-bit arithmetic. */
  lemma {:induction false} DecimalValue(n: nat)
    ensures DigitsValue(Decimal(n)) == n % UINT32_RANGE
  {
    var s := Decimal(n);
    var last := [('0' as int + n % 10) as char];
    if n < 10 {
      assert s == last && s[..0] == "";
    } else {
      DecimalValue(n / 10);
      assert s[..|s| - 1] == Decimal(n / 10);
      WrapStep(n / 10, n % 10);
    }
  }

  /** Scanning a maximal run of digits from its k-th on. */
  lemma {:induction false} NumberScan(s: string, i: nat, digits: string, k: nat)
    requires i + |digits| < |s| && s[i..i + |digits|] == digits && !IsDigit(s[i + |digits|]) && k <= |digits|
    requires forall j :: 0 <= j < |digits| ==> IsDigit(digits[j])
    ensures NumberValue(s, i + k, DigitsValue(digits[..k])) == DigitsValue(digits)
    ensures NumberEnd(s, i + k) == i + |digits|
    decreases |digits| - k
  {
    if k < |digits| {
      assert s[i + k] == s[i..i + |digits|][k] == digits[k];
      assert digits[..k + 1][..k] == digits[..k];
      NumberScan(s, i, digits, k + 1);
    } else {
      assert digits[..k] == digits;
    }
  }

  /** A printed shape parses to its one dimension, reduced to 32 bits. */
  lemma {:induction false} ShapeParsed(count: nat)
    ensures Numbers(ShapeText(count), 0) == [count % UINT32_RANGE]
  {
    var s := ShapeText(count);
    var digits := Decimal(count);
    assert s[1..1 + |digits|] == digits;
    assert s[0] == '(' && s[1] == digits[0] && s[1 + |digits|] == ',' && s[2 + |digits|] == ')';
    NumberScan(s, 1, digits, 0);
    DecimalValue(count);
    assert digits[..0] == "";
    assert Numbers(s, 0) == Numbers(s, 1);
    NoNumbers(s, 1 + |digits|);
  }

  lemma {:induction false} NoNumbers(s: string, i: nat)
    requires i <= |s| && forall j :: i <= j < |s| ==> !IsDigit(s[j])
    ensures Numbers(s, i) == []
    decreases |s| - i
  {
    if i < |s| {
      NoNumbers(s, i + 1);
    }
  }

  // ----- the printed header read back -----

  /** Everything the parser takes from a printed header. */
  lemma {:induction false} HeaderRead(count: nat)
    ensures var h := Padded(DictText(count));
      && StripQuotes(ValueText(h, "descr")) == "<f4"
      && ValueText(h, "fortran_order") == "False"
      && Numbers(ValueText(h, "shape"), 0) == [count % UINT32_RANGE]
  {
    hide ValueText, Numbers, Decimal;
    var h := Padded(DictText(count));
    var pad := h[|DictText(count)|..];
    PaddedKeeps(DictText(count));
    var r3 := "," + (" }" + pad);
    var r2 := SHAPE_FIELD + (ShapeText(count) + r3);
    var r1 := ORDER_FIELD + r2;
    Associate(count, pad);
    DescrRead(r1);
    OrderRead(r2);
    ShapeRead(count, " }" + pad);
    ShapeParsed(count);
    assert StripQuotes("'<f4'") == "<f4";
  }

  lemma {:induction false} PaddedKeeps(header: string)
    ensures |header| <= |Padded(header)| && Padded(header) == header + Padded(header)[|header|..]
  {
  }

  lemma {:induction false} Associate(count: nat, pad: string)
    ensures DictText(count) + pad ==
      DESCR_FIELD + (ORDER_FIELD + (SHAPE_FIELD + (ShapeText(count) + ("," + (" }" + pad)))))
  {
    assert ", }" == "," + " }";
  }

  /** A 64-bit count prints in at most twenty digits, so a header always fits the
      16-bit length field. */
  lemma {:induction false} DecimalLength(n: nat, k: nat, bound: nat)
    requires 1 <= k && n < bound && bound == TenTo(k)
    ensures |Decimal(n)| <= k
    decreases k
  {
    if n >= 10 {
      DecimalLength(n / 10, k - 1, TenTo(k - 1));
    }
  }

  function TenTo(k: nat): (r: nat)
    ensures r >= 1
  {
    if k == 0 then 1 else 10 * TenTo(k - 1)
  }
}
