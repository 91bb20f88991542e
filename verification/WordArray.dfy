/** Arrays of 32-bit words (floats by their bit pattern, or integers) as little-endian
    bytes. */
module WordArray {
  import opened Bits

  predicate AllWords(values: seq<nat>) {
    forall i :: 0 <= i < |values| ==> FitsU32(values[i])
  }

  function WordBytes(values: seq<nat>): (r: seq<byte>)
    ensures |r| == 4 * |values|
  {
    if values == [] then [] else LeBytes(values[0], 4) + WordBytes(values[1..])
  }

  /** The first n 4-byte words of a byte string. */
  function Words(b: seq<byte>, n: nat): (r: seq<nat>)
    requires 4 * n <= |b|
    ensures |r| == n
  {
    if n == 0 then [] else [LeValue(b[..4])] + Words(b[4..], n - 1)
  }

  lemma {:induction false} WordsOfBytes(values: seq<nat>, n: nat)
    requires AllWords(values) && n <= |values|
    ensures Words(WordBytes(values), n) == values[..n]
  {
    if n > 0 {
      U32RoundTrip(values[0]);
      assert WordBytes(values)[..4] == LeBytes(values[0], 4);
      assert WordBytes(values)[4..] == WordBytes(values[1..]);
      WordsOfBytes(values[1..], n - 1);
      assert values[..n] == [values[0]] + values[1..][..n - 1];
    }
  }

  lemma {:induction false} BytesOfWords(b: seq<byte>, n: nat)
    requires 4 * n <= |b|
    ensures WordBytes(Words(b, n)) == b[..4 * n]
    ensures AllWords(Words(b, n))
  {
    if n > 0 {
      BytesOfWords(b[4..], n - 1);
      FirstWord(b);
      assert b[..4 * n] == b[..4] + b[4..][..4 * (n - 1)];
    }
  }

  lemma {:induction false} FirstWord(b: seq<byte>)
    requires 4 <= |b|
    ensures LeBytes(LeValue(b[..4]), 4) == b[..4] && FitsU32(LeValue(b[..4]))
  {
    LeBytesValue(b[..4]);
    LeBound(b[..4]);
    WordSizes();
  }
}
