/** Selecting the nprobe best-scoring clusters: the generic nth_element version and
    the specialised in-place heap version. */
module CoarseSelect {
  import opened OrderStats
  import opened BinaryHeap
  import opened TopKHeap

  /** Cluster ids are ranked by their scores. */
  function ScoreOf(scores: seq<real>): nat -> real {
    (id: nat) => if id < |scores| then scores[id] else 0.0
  }

  /** What a selection promises: distinct cluster ids, scores ascending, and no
      omitted id scoring less than a chosen one. */
  ghost predicate Selected(order: seq<nat>, scores: seq<real>) {
    && (forall i :: 0 <= i < |order| ==> order[i] < |scores|)
    && (forall i, j :: 0 <= i < j < |order| ==> order[i] != order[j])
    && (forall i, j :: 0 <= i < j < |order| ==> ScoreOf(scores)(order[i]) <= ScoreOf(scores)(order[j]))
    && (forall i, id :: 0 <= i < |order| && 0 <= id < |scores| && id !in order ==>
          ScoreOf(scores)(order[i]) <= scores[id])
  }

  /** Ids kept from 0..n-1 are in range and distinct, and an omitted one was dropped. */
  lemma {:induction false} KeptIds(order: seq<nat>, dropped: seq<nat>, n: nat)
    requires multiset(order) + multiset(dropped) == multiset(Iota(n))
    ensures forall i :: 0 <= i < |order| ==> order[i] < n
    ensures forall i, j :: 0 <= i < j < |order| ==> order[i] != order[j]
    ensures forall id :: 0 <= id < n && id !in order ==> id in dropped
  {
    forall i | 0 <= i < |order| ensures order[i] < n {
      IotaCount(n, order[i]);
      assert order[i] in multiset(order);
    }
    forall i, j | 0 <= i < j < |order| ensures order[i] != order[j] {
      IotaCount(n, order[i]);
      if order[i] == order[j] {
        CountedTwice(order, i, j);
      }
    }
    forall id | 0 <= id < n && id !in order ensures id in dropped {
      IotaCount(n, id);
      assert id in multiset(dropped);
    }
  }

  lemma {:induction false} KeptScores(order: seq<nat>, dropped: seq<nat>, scores: seq<real>, m: nat)
    requires KeepsSmallest(order, dropped, Iota(|scores|), m, ScoreOf(scores))
    requires Sorted(Keys(order, ScoreOf(scores)))
    ensures Keys(order, ScoreOf(scores)) == Smallest(scores, m)
  {
    KeptKeys(order, dropped, Iota(|scores|), m, ScoreOf(scores));
    SortOfSorted(Keys(order, ScoreOf(scores)));
    assert Keys(Iota(|scores|), ScoreOf(scores)) == scores;
  }

  /** Keeping the m smallest of the ids 0..n-1 is a selection, and its scores are
      the m smallest scores whatever happened to ties. */
  lemma {:induction false} KeptIsSelected(order: seq<nat>, dropped: seq<nat>, scores: seq<real>, m: nat)
    requires KeepsSmallest(order, dropped, Iota(|scores|), m, ScoreOf(scores))
    requires Sorted(Keys(order, ScoreOf(scores)))
    ensures Selected(order, scores)
    ensures Keys(order, ScoreOf(scores)) == Smallest(scores, m)
  {
    KeptScores(order, dropped, scores, m);
    KeptIds(order, dropped, |scores|);
    var key := ScoreOf(scores);
    forall i, id | 0 <= i < |order| && 0 <= id < |scores| && id !in order ensures key(order[i]) <= scores[id] {
      var j :| 0 <= j < |dropped| && dropped[j] == id;
    }
    forall i, j | 0 <= i < j < |order| ensures key(order[i]) <= key(order[j]) {
      assert Keys(order, key)[i] <= Keys(order, key)[j];
    }
  }

  /** Ids below n that a list leaves out, ascending. */
  function Omitted(order: seq<nat>, n: nat): (r: seq<nat>)
    ensures forall i :: 0 <= i < |r| ==> r[i] < n && r[i] !in order
    ensures forall i, j :: 0 <= i < j < |r| ==> r[i] != r[j]
  {
    if n == 0 then []
    else
      var r := Omitted(order, n - 1);
      if n - 1 in order then r else r + [n - 1]
  }

  lemma {:induction false} OmittedHas(order: seq<nat>, n: nat, id: nat)
    requires id < n && id !in order
    ensures id in Omitted(order, n)
  {
    if id < n - 1 {
      OmittedHas(order, n - 1, id);
    }
  }

  /** A duplicate-free list of ids below n, with the ones it omits, is 0..n-1. */
  lemma {:induction false} IdsPartition(order: seq<nat>, n: nat)
    requires forall i :: 0 <= i < |order| ==> order[i] < n
    requires forall i, j :: 0 <= i < j < |order| ==> order[i] != order[j]
    ensures multiset(order) + multiset(Omitted(order, n)) == multiset(Iota(n))
  {
    var rest := Omitted(order, n);
    var a: multiset<nat>, b: multiset<nat>, c: multiset<nat> := multiset(order), multiset(rest), multiset(Iota(n));
    forall id: nat ensures (a + b)[id] == c[id] {
      DistinctCount(order, id);
      DistinctCount(rest, id);
      IotaCount(n, id);
      if id < n && id !in order {
        OmittedHas(order, n, id);
      }
    }
  }

  /** The scores of a selection do not depend on how ties were broken: they are the
      |order| smallest scores in ascending order. */
  lemma {:induction false} SelectedScores(order: seq<nat>, scores: seq<real>)
    requires Selected(order, scores)
    ensures Keys(order, ScoreOf(scores)) == Smallest(scores, |order|)
  {
    var key, rest := ScoreOf(scores), Omitted(order, |scores|);
    IdsPartition(order, |scores|);
    BagSize(order + rest, Iota(|scores|));
    KeptScores(order, rest, scores, |order|);
  }

  /** Any two selections of the same size agree on their score sequence. */
  lemma {:induction false} SelectionsAgree(a: seq<nat>, b: seq<nat>, scores: seq<real>)
    requires Selected(a, scores) && Selected(b, scores) && |a| == |b|
    ensures Keys(a, ScoreOf(scores)) == Keys(b, ScoreOf(scores))
  {
    SelectedScores(a, scores);
    SelectedScores(b, scores);
  }

  method FillIota(order: array<nat>, n: nat)
    requires n <= order.Length
    modifies order
    ensures order[..n] == Iota(n)
    ensures forall j :: n <= j < order.Length ==> order[j] == old(order[j])
  {
    for i := 0 to n
      invariant forall j :: 0 <= j < i ==> order[j] == j
      invariant forall j :: n <= j < order.Length ==> order[j] == old(order[j])
    {
      order[i] := i;
    }
  }

  /** std::sort on the first n cells. */
  method SortPrefix(order: array<nat>, n: nat, key: nat -> real)
    requires n <= order.Length
    modifies order
    ensures Sorted(Keys(order[..n], key))
    ensures Rearranged(old(order[..]), order[..], n)
  {
    MakeHeap(order, n, key);
    SortHeap(order, n, key);
  }

  /** std::nth_element on the first n cells; callers rely on its guarantee only:
      nothing before the pivot place exceeds anything from it on. */
  method NthElement(order: array<nat>, nth: nat, n: nat, key: nat -> real)
    requires nth <= n <= order.Length
    modifies order
    ensures Rearranged(old(order[..]), order[..], n)
    ensures forall i, j :: 0 <= i < nth <= j < n ==> key(order[i]) <= key(order[j])
  {
    SortPrefix(order, n, key);
    forall i, j | 0 <= i < nth <= j < n ensures key(order[i]) <= key(order[j]) {
      assert Keys(order[..n], key)[i] <= Keys(order[..n], key)[j];
    }
  }

  lemma {:induction false} SplitAt(ids: seq<nat>, m: nat, offered: seq<nat>, key: nat -> real)
    requires m <= |ids| && multiset(ids) == multiset(offered)
    requires forall i, j :: 0 <= i < m <= j < |ids| ==> key(ids[i]) <= key(ids[j])
    ensures KeepsSmallest(ids[..m], ids[m..], offered, m, key)
  {
    SplitBag(ids, m);
    BagSize(ids, offered);
  }

  /** The generic version: partition around the nprobe-th, then sort the front. */
  method SelectTopNProbeSmall(scores: seq<real>, nprobe: nat, order: array<nat>)
    requires |scores| <= order.Length
    modifies order
    ensures var n := Min(nprobe, |scores|);
      Selected(order[..n], scores) && Keys(order[..n], ScoreOf(scores)) == Smallest(scores, nprobe)
  {
    var nlist, key := |scores|, ScoreOf(scores);
    FillIota(order, nlist);
    var m := Min(nprobe, nlist);
    ghost var before := order[..];
    assert before[..nlist] == Iota(nlist);
    if m < nlist {
      NthElement(order, m, nlist, key);
    }
    RearrangedPrefix(before, order[..], nlist);
    assert order[..][..nlist] == order[..nlist];
    ghost var ids := order[..nlist];
    SplitAt(ids, m, Iota(nlist), key);
    ghost var mid := order[..];
    assert mid[..m] == ids[..m];
    SortPrefix(order, m, key);
    RearrangedPrefix(mid, order[..], m);
    assert order[..][..m] == order[..m];
    KeepRearranged(ids[..m], order[..m], ids[m..], Iota(nlist), m, key);
    KeptIsSelected(order[..m], ids[m..], scores, m);
  }

  /** One more id against a full heap of m: skipped when it scores no better than
      the root, otherwise it takes the root's place. */
  method ConsiderId(scores: seq<real>, order: array<nat>, m: nat, i: nat, ghost dropped: seq<nat>)
    returns (ghost dropped': seq<nat>)
    requires 1 <= m <= i < |scores| && m <= order.Length
    requires IsHeap(order[..m], ScoreOf(scores))
    requires KeepsSmallest(order[..m], dropped, Iota(i), m, ScoreOf(scores))
    requires order[0] < |scores|
    modifies order
    ensures IsHeap(order[..m], ScoreOf(scores))
    ensures KeepsSmallest(order[..m], dropped', Iota(i + 1), m, ScoreOf(scores))
  {
    hide KeepsSmallest, IsHeap;
    ghost var key, kept := ScoreOf(scores), order[..m];
    assert Iota(i + 1) == Iota(i) + [i];
    if scores[i] >= scores[order[0]] {
      LargestFirst(kept, kept, key);
      KeepNot(kept, dropped, Iota(i), m, key, i);
      dropped' := dropped + [i];
      return;
    }
    PopBack(order, m, ScoreOf(scores));
    ghost var front, root := order[..m-1], order[m-1];
    PushBack(order, m - 1, i, ScoreOf(scores));
    RootReplaced(kept, front, root, order[..m], dropped, Iota(i), m, key, i);
    dropped' := dropped + [root];
  }

  lemma {:induction false} KeptIdInRange(order: seq<nat>, dropped: seq<nat>, i: nat, m: nat, key: nat -> real)
    requires KeepsSmallest(order, dropped, Iota(i), m, key) && order != []
    ensures order[0] < i
  {
    IotaCount(i, order[0]);
    assert order[0] in multiset(order);
  }

  /** The specialised version: a max-heap of nprobe ids, then sort_heap.  Fills
      exactly the cells the generic version would, with the same scores. */
  method SelectTopNProbeSmallSpecialized(scores: seq<real>, nprobe: nat, order: array<nat>)
    requires Min(nprobe, |scores|) <= order.Length
    modifies order
    ensures var n := Min(nprobe, |scores|);
      Selected(order[..n], scores) && Keys(order[..n], ScoreOf(scores)) == Smallest(scores, nprobe)
    ensures nprobe == 0 ==> order[..] == old(order[..])
  {
    var nlist := |scores|;
    var m := Min(nprobe, nlist);
    if m == 0 {
      assert order[..0] == [];
      return;
    }
    FillIota(order, m);
    ghost var dropped := [];
    ghost var before := order[..];
    assert before[..m] == Iota(m);
    if m >= nlist {
      SortPrefix(order, nlist, ScoreOf(scores));
    } else {
      MakeHeap(order, m, ScoreOf(scores));
      RearrangedPrefix(before, order[..], m);
      assert order[..][..m] == order[..m];
      dropped := HeapSelect(scores, order, m);
      before := order[..];
      SortHeap(order, m, ScoreOf(scores));
    }
    RearrangedPrefix(before, order[..], m);
    assert order[..][..m] == order[..m];
    KeepRearranged(before[..m], order[..m], dropped, Iota(nlist), m, ScoreOf(scores));
    KeptIsSelected(order[..m], dropped, scores, m);
  }

  /** Runs every id from m on past a heap of the first m. */
  method HeapSelect(scores: seq<real>, order: array<nat>, m: nat) returns (ghost dropped: seq<nat>)
    requires 1 <= m < |scores| && m <= order.Length
    requires IsHeap(order[..m], ScoreOf(scores)) && multiset(order[..m]) == multiset(Iota(m))
    modifies order
    ensures IsHeap(order[..m], ScoreOf(scores))
    ensures KeepsSmallest(order[..m], dropped, Iota(|scores|), m, ScoreOf(scores))
  {
    dropped := [];
    for i := m to |scores|
      invariant IsHeap(order[..m], ScoreOf(scores))
      invariant KeepsSmallest(order[..m], dropped, Iota(i), m, ScoreOf(scores))
    {
      KeptIdInRange(order[..m], dropped, i, m, ScoreOf(scores));
      dropped := ConsiderId(scores, order, m, i, dropped);
    }
  }
}
