/** Dictionary encoding of string columns, and its composition with bit packing. */
module DictCodec {
  import opened Bits
  import opened BitpackCodec

  /** A dictionary for values: no duplicates, and index j names value j. */
  ghost predicate Encodes(dict: seq<string>, indices: seq<nat>, values: seq<string>) {
    && (forall a, b :: 0 <= a < b < |dict| ==> dict[a] != dict[b])
    && |indices| == |values|
    && (forall j :: 0 <= j < |indices| ==> indices[j] < |dict| && dict[indices[j]] == values[j])
  }

  /** Index k is first used at place j, after only smaller ones. */
  predicate FirstAt(indices: seq<nat>, k: nat, j: nat) {
    j < |indices| && indices[j] == k && forall i :: 0 <= i < j ==> indices[i] < k
  }

  ghost predicate HasFirst(indices: seq<nat>, k: nat) {
    exists j :: FirstAt(indices, k, j)
  }

  /** Indices are handed out in order of first occurrence. */
  ghost predicate FirstOccurrenceOrder(indices: seq<nat>, n: nat) {
    forall k :: 0 <= k < n ==> HasFirst(indices, k)
  }

  method BuildDict(values: seq<string>) returns (dict: seq<string>, indices: seq<nat>)
    ensures Encodes(dict, indices, values)
    ensures FirstOccurrenceOrder(indices, |dict|)
    ensures forall j, k :: 0 <= j < |values| && 0 <= k < |dict| ==> (indices[j] == k <==> values[j] == dict[k])
  {
    var indexMap: map<string, nat> := map[];
    dict, indices := [], [];
    for i := 0 to |values|
      invariant Encodes(dict, indices, values[..i])
      invariant FirstOccurrenceOrder(indices, |dict|)
      invariant forall k :: 0 <= k < |dict| ==> dict[k] in indexMap && indexMap[dict[k]] == k
      invariant forall s :: s in indexMap ==> indexMap[s] < |dict| && dict[indexMap[s]] == s
    {
      var val := values[i];
      ghost var before := indices;
      if val !in indexMap {
        indexMap := indexMap[val := |dict|];
        indices := indices + [|dict|];
        dict := dict + [val];
        FirstSeen(before, |dict| - 1);
      } else {
        indices := indices + [indexMap[val]];
        SeenAgain(before, indexMap[val], |dict|);
      }
    }
    assert values[..|values|] == values;
  }

  lemma {:induction false} FirstSeen(indices: seq<nat>, n: nat)
    requires FirstOccurrenceOrder(indices, n)
    requires forall j :: 0 <= j < |indices| ==> indices[j] < n
    ensures FirstOccurrenceOrder(indices + [n], n + 1)
  {
    SeenAgain(indices, n, n);
    assert FirstAt(indices + [n], n, |indices|);
  }

  lemma {:induction false} SeenAgain(indices: seq<nat>, idx: nat, n: nat)
    requires FirstOccurrenceOrder(indices, n)
    ensures FirstOccurrenceOrder(indices + [idx], n)
  {
    forall k | 0 <= k < n ensures HasFirst(indices + [idx], k) {
      assert HasFirst(indices, k);
      var j :| FirstAt(indices, k, j);
      assert FirstAt(indices + [idx], k, j);
    }
  }

  /** Out-of-range indices decode to the empty string. */
  method Decode(indices: seq<nat>, dict: seq<string>) returns (out: seq<string>)
    ensures |out| == |indices|
    ensures forall j :: 0 <= j < |indices| ==> out[j] == if indices[j] < |dict| then dict[indices[j]] else ""
  {
    out := [];
    for j := 0 to |indices|
      invariant |out| == j
      invariant forall i :: 0 <= i < j ==> out[i] == if indices[i] < |dict| then dict[indices[i]] else ""
    {
      out := out + [if indices[j] < |dict| then dict[indices[j]] else ""];
    }
  }

  /** Whatever width the indices take, the packer's buffer size does not wrap below what
      it writes. */
  ghost predicate CanPack(values: seq<string>, maxPackable: nat) {
    forall dict, indices, w ::
      Encodes(dict, indices, values) && FirstOccurrenceOrder(indices, |dict|) && MinWidth(indices, maxPackable, w)
      ==> Roomy(EncodedSize(|values|, w), |values| * w)
  }

  /** A column through the dictionary, the bit packer and back is unchanged, as long as
      its indices take up to 2^32 bits; when they are too large to pack they are kept
      raw. */
  method StoreAndLoad(values: seq<string>, maxPackable: nat) returns (w: nat, out: seq<string>)
    requires FitsU32(|values|) && CanPack(values, maxPackable)
    ensures w == 0 || |values| * w <= UINT32_RANGE ==> out == values
    ensures |values| <= 0x800_0000 ==> out == values
    ensures w <= 32 && (w > 1 ==> |values| > Pow2(w - 1))
  {
    hide MinWidth;
    var dict, indices := BuildDict(values);
    DictNoLarger(dict, indices, values);
    var loaded;
    w, loaded := PackUnpack(indices, maxPackable);
    IndexWidth(indices, maxPackable, w);
    if |values| <= 0x800_0000 {
      Scaled(|values|, 0x800_0000, w);
    }
    out := Decode(loaded, dict);
  }

  /** An index width above one bit means that many values. */
  lemma {:induction false} IndexWidth(indices: seq<nat>, maxPackable: nat, w: nat)
    requires FitsU32(|indices|) && MinWidth(indices, maxPackable, w)
    requires forall j :: 0 <= j < |indices| ==> indices[j] < |indices|
    ensures w <= 32 && (w > 1 ==> |indices| > Pow2(w - 1))
  {
    if w != 0 {
      ChosenWidth(indices, maxPackable, w);
    }
    if w > 1 {
      assert !AllBelow(indices, Pow2(w - 1));
    }
  }

  /** Indices stay below the number of values, so they fit the 32-bit index type. */
  lemma {:induction false} DictNoLarger(dict: seq<string>, indices: seq<nat>, values: seq<string>)
    requires Encodes(dict, indices, values) && FirstOccurrenceOrder(indices, |dict|)
    ensures |dict| <= |values|
    ensures forall j :: 0 <= j < |indices| ==> indices[j] < |values|
  {
    if |dict| > 0 {
      var j := FirstAtLeast(indices, |dict| - 1, |dict|);
    }
  }

  lemma {:induction false} FirstAtLeast(indices: seq<nat>, k: nat, n: nat) returns (j: nat)
    requires FirstOccurrenceOrder(indices, n) && k < n
    ensures k <= j && FirstAt(indices, k, j)
  {
    assert HasFirst(indices, k);
    j :| FirstAt(indices, k, j);
    if k > 0 {
      var before := FirstAtLeast(indices, k - 1, n);
    }
  }
}
