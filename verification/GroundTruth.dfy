/** Blocked exact top-k by inner product: base rows are scanned block by block, each
    block's best rows are merged into a carried list that starts as padding. */
module GroundTruth {
  import opened OrderStats
  import opened CoarseSelect
  import opened Pigeonhole

  /** A score, or the -infinity that pads the carried list. */
  datatype Score = NegInf | Fin(v: real)

  predicate Le(a: Score, b: Score) {
    a.NegInf? || (b.Fin? && a.v <= b.v)
  }

  /** k distinct places holding the largest scores: what argpartition on the negated
      scores guarantees of its first k places. */
  ghost predicate TopPlaces(places: seq<nat>, scores: seq<Score>) {
    && (forall i :: 0 <= i < |places| ==> places[i] < |scores|)
    && (forall i, j :: 0 <= i < j < |places| ==> places[i] != places[j])
    && (forall i, p :: 0 <= i < |places| && 0 <= p < |scores| && p !in places ==> Le(scores[p], scores[places[i]]))
  }

  /** The place of the largest score not taken yet. */
  method BestFree(scores: seq<Score>, taken: seq<nat>) returns (best: nat)
    requires exists p :: 0 <= p < |scores| && p !in taken
    ensures best < |scores| && best !in taken
    ensures forall p :: 0 <= p < |scores| && p !in taken ==> Le(scores[p], scores[best])
  {
    var found := false;
    best := 0;
    for p := 0 to |scores|
      invariant found <==> exists q :: 0 <= q < p && q !in taken
      invariant found ==> best < p && best !in taken
      invariant found ==> forall q :: 0 <= q < p && q !in taken ==> Le(scores[q], scores[best])
    {
      if p !in taken && (!found || !Le(scores[p], scores[best])) {
        best, found := p, true;
      }
    }
  }

  predicate Descending(places: seq<nat>, scores: seq<Score>) {
    (forall i :: 0 <= i < |places| ==> places[i] < |scores|) &&
    forall i, j :: 0 <= i < j < |places| ==> Le(scores[places[j]], scores[places[i]])
  }

  /** The k largest places, one after the other. */
  method PickLargest(scores: seq<Score>, k: nat) returns (places: seq<nat>)
    requires k <= |scores|
    ensures |places| == k && TopPlaces(places, scores) && Descending(places, scores)
  {
    places := [];
    for i := 0 to k
      invariant |places| == i && TopPlaces(places, scores) && Descending(places, scores)
    {
      SomeFree(places, |scores|);
      var best := BestFree(scores, places);
      places := places + [best];
    }
  }

  /** argpartition: callers rely on TopPlaces only. */
  method ArgPartition(scores: seq<Score>, k: nat) returns (places: seq<nat>)
    requires k <= |scores|
    ensures |places| == k && TopPlaces(places, scores)
  {
    places := PickLargest(scores, k);
  }

  /** Two k-element sets of places: an element of one outside the other leaves an
      element of the other outside the one. */
  lemma {:induction false} Exchange(places: seq<nat>, group: set<int>, e: nat) returns (g: int)
    requires forall i, j :: 0 <= i < j < |places| ==> places[i] != places[j]
    requires |group| == |places| && e in places && e !in group
    ensures g in group && g !in places
  {
    DistinctSize(places);
    if forall g :: g in group ==> g in places {
      SubsetSize(group, Elements(places) - {e});
      assert false;
    }
    g :| g in group && g !in places;
  }

  /** If k places score at least x, so does every one of the k largest. */
  lemma {:induction false} TopAtLeast(places: seq<nat>, scores: seq<Score>, group: set<int>, x: Score, i: nat)
    requires TopPlaces(places, scores) && |group| == |places| && i < |places|
    requires forall g :: g in group ==> 0 <= g < |scores| && Le(x, scores[g])
    ensures Le(x, scores[places[i]])
  {
    if places[i] !in group {
      var g := Exchange(places, group, places[i]);
      assert Le(scores[g], scores[places[i]]);
    }
  }

  // ----- the carried list -----

  /** An entry is padding, or a row seen so far with its own score. */
  predicate Genuine(score: Score, id: int, all: seq<real>, seen: nat)
    requires seen <= |all|
  {
    if id == -1 then score == NegInf else 0 <= id < seen && score == Fin(all[id])
  }

  predicate NoRowTwice(ids: seq<int>) {
    forall i, j :: 0 <= i < j < |ids| && ids[i] != -1 ==> ids[i] != ids[j]
  }

  /** No row seen and left out scores above an entry; in particular nothing is left
      out while there is padding. */
  ghost predicate NoneBetter(scores: seq<Score>, ids: seq<int>, all: seq<real>, seen: nat)
    requires seen <= |all|
  {
    forall i, row :: 0 <= i < |scores| && 0 <= row < seen && row !in ids ==> Le(Fin(all[row]), scores[i])
  }

  /** The carried list is the top k of the rows seen so far, padded. */
  ghost predicate TopSoFar(scores: seq<Score>, ids: seq<int>, all: seq<real>, seen: nat, k: nat) {
    && seen <= |all|
    && |scores| == |ids| == k
    && (forall i :: 0 <= i < k ==> Genuine(scores[i], ids[i], all, seen))
    && NoRowTwice(ids)
    && NoneBetter(scores, ids, all, seen)
  }

  function Take<T>(s: seq<T>, places: seq<nat>): (r: seq<T>)
    requires forall i :: 0 <= i < |places| ==> places[i] < |s|
    ensures |r| == |places| && forall i :: 0 <= i < |r| ==> r[i] == s[places[i]]
  {
    seq(|places|, i requires 0 <= i < |places| => s[places[i]])
  }

  function BlockScores(all: seq<real>, from: nat, to: nat): (r: seq<Score>)
    requires from <= to <= |all|
    ensures |r| == to - from && forall j :: 0 <= j < |r| ==> r[j] == Fin(all[from + j])
  {
    seq(to - from, j requires 0 <= j < to - from => Fin(all[from + j]))
  }

  function Shift(places: seq<nat>, start: nat): (r: seq<int>)
    ensures |r| == |places| && forall i :: 0 <= i < |r| ==> r[i] == places[i] + start
  {
    seq(|places|, i requires 0 <= i < |places| => places[i] + start)
  }

  /** Carried and local entries side by side: all genuine, no row twice. */
  lemma {:induction false} MergedGenuine(scores: seq<Score>, ids: seq<int>, localScores: seq<Score>, localIds: seq<int>,
                                         all: seq<real>, from: nat, to: nat, k: nat)
    requires TopSoFar(scores, ids, all, from, k) && from <= to <= |all|
    requires |localScores| == |localIds|
    requires forall j :: 0 <= j < |localIds| ==> from <= localIds[j] < to && localScores[j] == Fin(all[localIds[j]])
    requires forall i, j :: 0 <= i < j < |localIds| ==> localIds[i] != localIds[j]
    ensures forall i :: 0 <= i < k + |localIds| ==> Genuine((scores + localScores)[i], (ids + localIds)[i], all, to)
    ensures NoRowTwice(ids + localIds)
  {
  }

  /** Rows left out of a block's local list score no more than each local entry. */
  ghost predicate LocalTop(localScores: seq<Score>, localIds: seq<int>, all: seq<real>, from: nat, to: nat)
    requires from <= to <= |all|
  {
    forall j, row :: 0 <= j < |localScores| && from <= row < to && row !in localIds ==> Le(Fin(all[row]), localScores[j])
  }

  /** Keeping the k best of carried and local entries keeps the k best of all rows
      seen: a row left out earlier is beaten by all k carried entries, one left out
      of the block by all k local ones. */
  lemma {:induction false} MergeKeepsTop(scores: seq<Score>, ids: seq<int>, localScores: seq<Score>, localIds: seq<int>,
                                         places: seq<nat>, all: seq<real>, from: nat, to: nat, k: nat)
    requires TopSoFar(scores, ids, all, from, k) && from <= to <= |all| && 1 <= k
    requires |localScores| == |localIds| == Min(k, to - from)
    requires forall j :: 0 <= j < |localIds| ==> from <= localIds[j] < to && localScores[j] == Fin(all[localIds[j]])
    requires forall i, j :: 0 <= i < j < |localIds| ==> localIds[i] != localIds[j]
    requires LocalTop(localScores, localIds, all, from, to)
    requires |places| == k && TopPlaces(places, scores + localScores)
    ensures TopSoFar(Take(scores + localScores, places), Take(ids + localIds, places), all, to, k)
  {
    var ms, mi := scores + localScores, ids + localIds;
    MergedGenuine(scores, ids, localScores, localIds, all, from, to, k);
    var kept := Take(mi, places);
    forall i, row | 0 <= i < k && 0 <= row < to && row !in kept ensures Le(Fin(all[row]), ms[places[i]]) {
      LeftOut(scores, ids, localScores, localIds, places, all, from, to, k, i, row);
    }
  }

  lemma {:induction false} LeftOut(scores: seq<Score>, ids: seq<int>, localScores: seq<Score>, localIds: seq<int>,
                                   places: seq<nat>, all: seq<real>, from: nat, to: nat, k: nat, i: nat, row: nat)
    requires TopSoFar(scores, ids, all, from, k) && from <= to <= |all|
    requires |localScores| == |localIds| == Min(k, to - from)
    requires forall j :: 0 <= j < |localIds| ==> from <= localIds[j] < to && localScores[j] == Fin(all[localIds[j]])
    requires forall i, j :: 0 <= i < j < |localIds| ==> localIds[i] != localIds[j]
    requires LocalTop(localScores, localIds, all, from, to)
    requires |places| == k && TopPlaces(places, scores + localScores)
    requires i < k && row < to && row !in Take(ids + localIds, places)
    ensures Le(Fin(all[row]), (scores + localScores)[places[i]])
  {
    if row in ids + localIds {
      LeftOutEntry(scores, ids, localScores, localIds, places, all, from, to, k, i, row);
    } else if row < from {
      RangeSize(0, k);
      assert row !in ids;
      forall g | g in Range(0, k) ensures Le(Fin(all[row]), (scores + localScores)[g]) {
        assert (scores + localScores)[g] == scores[g];
      }
      TopAtLeast(places, scores + localScores, Range(0, k), Fin(all[row]), i);
    } else {
      LeftOutOfBlock(scores, localScores, localIds, places, all, from, to, k, i, row);
    }
  }

  lemma {:induction false} LeftOutOfBlock(scores: seq<Score>, localScores: seq<Score>, localIds: seq<int>,
                                          places: seq<nat>, all: seq<real>, from: nat, to: nat, k: nat, i: nat, row: nat)
    requires |scores| == k && from <= to <= |all|
    requires |localScores| == |localIds| == Min(k, to - from)
    requires forall j :: 0 <= j < |localIds| ==> from <= localIds[j] < to
    requires forall i, j :: 0 <= i < j < |localIds| ==> localIds[i] != localIds[j]
    requires LocalTop(localScores, localIds, all, from, to)
    requires |places| == k && TopPlaces(places, scores + localScores)
    requires i < k && from <= row < to && row !in localIds
    ensures Le(Fin(all[row]), (scores + localScores)[places[i]])
  {
    if to - from <= k {
      AllLocal(localIds, from, to, row);
    }
    RangeSize(k, 2 * k);
    forall g | g in Range(k, 2 * k) ensures Le(Fin(all[row]), (scores + localScores)[g]) {
      assert (scores + localScores)[g] == localScores[g - k];
    }
    TopAtLeast(places, scores + localScores, Range(k, 2 * k), Fin(all[row]), i);
  }

  lemma {:induction false} LeftOutEntry(scores: seq<Score>, ids: seq<int>, localScores: seq<Score>, localIds: seq<int>,
                                        places: seq<nat>, all: seq<real>, from: nat, to: nat, k: nat, i: nat, row: nat)
    requires TopSoFar(scores, ids, all, from, k) && from <= to <= |all|
    requires |localScores| == |localIds|
    requires forall j :: 0 <= j < |localIds| ==> from <= localIds[j] < to && localScores[j] == Fin(all[localIds[j]])
    requires |places| == k && TopPlaces(places, scores + localScores)
    requires i < k && row < to && row in ids + localIds && row !in Take(ids + localIds, places)
    ensures Le(Fin(all[row]), (scores + localScores)[places[i]])
  {
    var mi := ids + localIds;
    var p :| 0 <= p < |mi| && mi[p] == row;
    NotTaken(mi, places, p);
    EntryScore(scores, ids, localScores, localIds, all, from, p);
  }

  lemma {:induction false} EntryScore(scores: seq<Score>, ids: seq<int>, localScores: seq<Score>, localIds: seq<int>,
                                      all: seq<real>, from: nat, p: nat)
    requires from <= |all| && |scores| == |ids| && |localScores| == |localIds| && p < |ids + localIds|
    requires forall i :: 0 <= i < |ids| ==> Genuine(scores[i], ids[i], all, from)
    requires forall j :: 0 <= j < |localIds| ==> 0 <= localIds[j] < |all| && localScores[j] == Fin(all[localIds[j]])
    requires (ids + localIds)[p] >= 0
    ensures (ids + localIds)[p] < |all| && (scores + localScores)[p] == Fin(all[(ids + localIds)[p]])
  {
  }

  /** What is not among the taken elements lies at a place that was not taken. */
  lemma {:induction false} NotTaken<T>(s: seq<T>, places: seq<nat>, p: nat)
    requires p < |s| && forall i :: 0 <= i < |places| ==> places[i] < |s|
    requires s[p] !in Take(s, places)
    ensures p !in places
  {
    forall q | 0 <= q < |places| ensures places[q] != p {
      assert Take(s, places)[q] in Take(s, places);
    }
  }

  /** A local list as long as the block holds the whole block. */
  lemma {:induction false} AllLocal(localIds: seq<int>, from: nat, to: nat, row: nat)
    requires forall j :: 0 <= j < |localIds| ==> from <= localIds[j] < to
    requires forall i, j :: 0 <= i < j < |localIds| ==> localIds[i] != localIds[j]
    requires |localIds| == to - from && from <= row < to
    ensures row in localIds
  {
    if row !in localIds {
      DistinctSize(localIds);
      RangeSize(from, to);
      SubsetSize(Elements(localIds), Range(from, to) - {row});
    }
  }

  /** One base block. */
  method MergeBlock(scores: seq<Score>, ids: seq<int>, all: seq<real>, from: nat, to: nat, k: nat)
    returns (scores': seq<Score>, ids': seq<int>)
    requires 1 <= k && from < to <= |all| && TopSoFar(scores, ids, all, from, k)
    ensures TopSoFar(scores', ids', all, to, k)
  {
    var block := BlockScores(all, from, to);
    var localK := Min(k, |block|);
    var localPlaces := ArgPartition(block, localK);
    var localScores, localIds := Take(block, localPlaces), Shift(localPlaces, from);
    forall j, row | 0 <= j < localK && from <= row < to && row !in localIds ensures Le(Fin(all[row]), localScores[j]) {
      forall q | 0 <= q < localK ensures localPlaces[q] != row - from {
        assert localIds[q] in localIds;
      }
      assert Le(block[row - from], block[localPlaces[j]]);
    }
    var keep := ArgPartition(scores + localScores, k);
    MergeKeepsTop(scores, ids, localScores, localIds, keep, all, from, to, k);
    scores', ids' := Take(scores + localScores, keep), Take(ids + localIds, keep);
  }

  function Negated(s: seq<real>): (r: seq<real>)
    ensures |r| == |s| && forall i :: 0 <= i < |s| ==> r[i] == -s[i]
  {
    seq(|s|, i requires 0 <= i < |s| => -s[i])
  }

  /** With k rows seen there is no padding left. */
  lemma {:induction false} NoPadding(scores: seq<Score>, ids: seq<int>, all: seq<real>, k: nat, i: nat)
    requires TopSoFar(scores, ids, all, |all|, k) && k <= |all| && i < k
    ensures ids[i] != -1
  {
    if ids[i] == -1 {
      forall row | 0 <= row < |all| ensures row in ids {
        assert scores[i] == NegInf;
      }
      RangeSize(0, |all|);
      ListCovers(ids);
      SubsetSize(Range(0, |all|) + {-1}, Elements(ids));
    }
  }

  /** argsort on the negated scores: places in descending score order. */
  method ArgSortDescending(scores: seq<Score>) returns (order: seq<nat>)
    ensures |order| == |scores| && TopPlaces(order, scores) && Descending(order, scores)
  {
    order := PickLargest(scores, |scores|);
  }

  /** One query against all base rows in blocks: the ids and scores of the row are
      the global top k in descending order, whatever the block size. */
  method BlockedTopK(all: seq<real>, topk: nat, baseBlock: nat) returns (ids: seq<nat>, scores: seq<real>)
    requires 1 <= topk && 1 <= baseBlock
    ensures |ids| == |scores| == Min(topk, |all|)
    ensures Selected(ids, Negated(all))
    ensures forall i :: 0 <= i < |ids| ==> ids[i] < |all| && scores[i] == all[ids[i]]
    ensures Negated(scores) == Smallest(Negated(all), topk)
  {
    hide Sort;
    var k := Min(topk, |all|);
    var blockScores, blockIds: seq<int> := seq(k, i => NegInf), seq(k, i => -1);
    var start := 0;
    while start < |all|
      invariant 0 <= start <= |all|
      invariant TopSoFar(blockScores, blockIds, all, start, k)
      decreases |all| - start
    {
      var end := Min(|all|, start + baseBlock);
      blockScores, blockIds := MergeBlock(blockScores, blockIds, all, start, end, k);
      start := end;
    }
    var order := ArgSortDescending(blockScores);
    ids, scores := Finish(blockScores, blockIds, order, all, k);
    SelectedScores(ids, Negated(all));
    assert Negated(scores) == Keys(ids, ScoreOf(Negated(all)));
  }

  /** Reorders the carried list; every entry is a genuine row by now. */
  method Finish(blockScores: seq<Score>, blockIds: seq<int>, order: seq<nat>, all: seq<real>, k: nat)
    returns (ids: seq<nat>, scores: seq<real>)
    requires TopSoFar(blockScores, blockIds, all, |all|, k) && k <= |all|
    requires |order| == k && TopPlaces(order, blockScores)
    requires Descending(order, blockScores)
    ensures |ids| == |scores| == k && Selected(ids, Negated(all))
    ensures forall i :: 0 <= i < k ==> ids[i] < |all| && scores[i] == all[ids[i]]
  {
    forall i | 0 <= i < k ensures blockIds[i] != -1 {
      NoPadding(blockScores, blockIds, all, k, i);
    }
    ids := seq(k, i requires 0 <= i < k => blockIds[order[i]]);
    scores := seq(k, i requires 0 <= i < k => blockScores[order[i]].v);
    ReorderedIsSelected(blockScores, blockIds, order, ids, all, k);
  }

  lemma {:induction false} ReorderedIsSelected(blockScores: seq<Score>, blockIds: seq<int>, order: seq<nat>, ids: seq<nat>,
                                               all: seq<real>, k: nat)
    requires TopSoFar(blockScores, blockIds, all, |all|, k)
    requires |order| == |ids| == k && TopPlaces(order, blockScores)
    requires forall i, j :: 0 <= i < j < k ==> Le(blockScores[order[j]], blockScores[order[i]])
    requires forall i :: 0 <= i < k ==> ids[i] == blockIds[order[i]]
    ensures Selected(ids, Negated(all))
  {
    forall i, row | 0 <= i < k && 0 <= row < |all| && row !in ids ensures all[row] <= all[ids[i]] {
      NotCarried(blockIds, order, ids, k, row);
      assert Le(Fin(all[row]), blockScores[order[i]]);
    }
  }

  /** Reordering the carried list loses nothing. */
  lemma {:induction false} NotCarried(blockIds: seq<int>, order: seq<nat>, ids: seq<nat>, k: nat, row: nat)
    requires |blockIds| == |order| == |ids| == k
    requires forall i :: 0 <= i < k ==> order[i] < k && ids[i] == blockIds[order[i]]
    requires forall i, j :: 0 <= i < j < k ==> order[i] != order[j]
    requires row !in ids
    ensures row !in blockIds
  {
    forall p | 0 <= p < k ensures blockIds[p] != row {
      OrderCovers(order, k, p);
      var q :| 0 <= q < k && order[q] == p;
      assert ids[q] in ids;
    }
  }

  lemma {:induction false} OrderCovers(order: seq<nat>, k: nat, p: nat)
    requires |order| == k && p < k
    requires forall i :: 0 <= i < k ==> order[i] < k
    requires forall i, j :: 0 <= i < j < k ==> order[i] != order[j]
    ensures p in order
  {
    if p !in order {
      DistinctSize(order);
      RangeSize(0, k);
      SubsetSize(Elements(order), Range(0, k) - {p});
    }
  }
}
