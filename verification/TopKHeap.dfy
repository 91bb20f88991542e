/** The keep-the-k-smallest max-heap that both the probe frontier and the result
    collector are built on: at capacity, a newcomer replaces the root exactly
    when its key is strictly smaller. */
module TopKHeap {
  import opened OrderStats
  import opened BinaryHeap

  /** kept holds min(k, offered) of the offered records and no record left out
      has a smaller key than a kept one. */
  ghost predicate KeepsSmallest<T>(kept: seq<T>, dropped: seq<T>, offered: seq<T>, k: nat, key: T -> real) {
    && multiset(kept) + multiset(dropped) == multiset(offered)
    && |kept| == Min(k, |offered|)
    && forall i, j :: 0 <= i < |kept| && 0 <= j < |dropped| ==> key(kept[i]) <= key(dropped[j])
  }

  /** What is kept does not depend on the arrangement of the heap or on how ties
      were broken: its keys are the k smallest keys offered. */
  lemma {:induction false} KeptKeys<T>(kept: seq<T>, dropped: seq<T>, offered: seq<T>, k: nat, key: T -> real)
    requires KeepsSmallest(kept, dropped, offered, k, key)
    ensures Sort(Keys(kept, key)) == Smallest(Keys(offered, key), k)
  {
    KeysConcat(kept, dropped, key);
    KeysPermutation(kept + dropped, offered, key);
    SmallestOfPartition(Keys(kept, key), Keys(dropped, key), Keys(offered, key), k);
  }

  /** A heap's root carries the largest of the keys. */
  lemma {:induction false} RootKey<T>(kept: seq<T>, key: T -> real)
    requires kept != [] && IsHeap(kept, key)
    ensures key(kept[0]) == Sort(Keys(kept, key))[|kept|-1]
  {
    var keys := Keys(kept, key);
    var s := Sort(keys);
    SortBag(keys);
    assert keys[0] in multiset(s);
    var p :| 0 <= p < |s| && s[p] == keys[0];
    assert s[|s|-1] in multiset(keys);
    var q :| 0 <= q < |keys| && keys[q] == s[|s|-1];
    RootIsLargest(kept, key, q);
  }

  lemma {:induction false} KeepMore<T>(kept: seq<T>, dropped: seq<T>, offered: seq<T>, k: nat, key: T -> real, x: T)
    requires KeepsSmallest(kept, dropped, offered, k, key) && |kept| < k
    ensures KeepsSmallest(kept + [x], dropped, offered + [x], k, key)
  {
    BagSize(kept + dropped, offered);
    assert dropped == [];
  }

  lemma {:induction false} KeepNot<T>(kept: seq<T>, dropped: seq<T>, offered: seq<T>, k: nat, key: T -> real, x: T)
    requires KeepsSmallest(kept, dropped, offered, k, key) && |kept| == k
    requires forall i :: 0 <= i < |kept| ==> key(kept[i]) <= key(x)
    ensures KeepsSmallest(kept, dropped + [x], offered + [x], k, key)
  {
    BagAssociative(multiset(kept), multiset(dropped), multiset{x});
  }

  lemma {:induction false} KeepInstead<T>(kept: seq<T>, dropped: seq<T>, offered: seq<T>, k: nat, key: T -> real, x: T)
    requires KeepsSmallest(kept, dropped, offered, k, key) && |kept| == k >= 1
    requires forall i :: 0 <= i < k ==> key(kept[i]) <= key(kept[k-1])
    requires key(x) < key(kept[k-1])
    ensures KeepsSmallest(kept[..k-1] + [x], dropped + [kept[k-1]], offered + [x], k, key)
  {
    var front, last := kept[..k-1], kept[k-1];
    assert kept == front + [last];
    BagExchange(multiset(front), multiset{last}, multiset(dropped), multiset{x});
    assert multiset(front + [x]) == multiset(front) + multiset{x};
    assert multiset(dropped + [last]) == multiset(dropped) + multiset{last};
    assert multiset(offered + [x]) == multiset(offered) + multiset{x};
  }

  lemma {:induction false} BagExchange<T>(a: multiset<T>, l: multiset<T>, d: multiset<T>, x: multiset<T>)
    ensures (a + x) + (d + l) == ((a + l) + d) + x
  {
  }

  lemma {:induction false} KeepRearranged<T>(kept: seq<T>, kept': seq<T>, dropped: seq<T>, offered: seq<T>, k: nat, key: T -> real)
    requires KeepsSmallest(kept, dropped, offered, k, key)
    requires multiset(kept) == multiset(kept')
    ensures KeepsSmallest(kept', dropped, offered, k, key)
  {
    BagSize(kept, kept');
    forall i, j | 0 <= i < |kept'| && 0 <= j < |dropped| ensures key(kept'[i]) <= key(dropped[j]) {
      assert kept'[i] in multiset(kept);
      var p :| 0 <= p < |kept| && kept[p] == kept'[i];
    }
  }

  /** The largest kept record, moved behind the others, gives way to x. */
  lemma {:induction false} RootReplaced<T>(kept: seq<T>, front: seq<T>, root: T, after: seq<T>, dropped: seq<T>, offered: seq<T>,
                           k: nat, key: T -> real, x: T)
    requires KeepsSmallest(kept, dropped, offered, k, key) && |kept| == k == |front| + 1
    requires multiset(front + [root]) == multiset(kept) && multiset(after) == multiset(front + [x])
    requires key(x) < key(root) && forall y :: y in front ==> key(y) <= key(root)
    ensures KeepsSmallest(after, dropped + [root], offered + [x], k, key)
  {
    hide KeepsSmallest;
    var popped := front + [root];
    KeepRearranged(kept, popped, dropped, offered, k, key);
    KeepInstead(popped, dropped, offered, k, key, x);
    assert popped[..k-1] == front;
    KeepRearranged(front + [x], after, dropped + [root], offered + [x], k, key);
  }

  /** The root of a full heap carries the k-th smallest key offered. */
  lemma {:induction false} RootOfFull<T>(kept: seq<T>, dropped: seq<T>, offered: seq<T>, k: nat, key: T -> real)
    requires KeepsSmallest(kept, dropped, offered, k, key) && IsHeap(kept, key) && |kept| == k >= 1
    ensures |offered| >= k
    ensures key(kept[0]) == Sort(Keys(offered, key))[k-1]
  {
    KeptKeys(kept, dropped, offered, k, key);
    RootKey(kept, key);
  }

  class TopKHeap<T(0)> {
    const k: nat
    const key: T -> real
    var data: array<T>
    var len: nat
    ghost var offered: seq<T>  // every record offered so far, in order
    ghost var dropped: seq<T>  // those refused or displaced

    ghost predicate Valid()
      reads this, data
    {
      && data.Length == k
      && len <= k
      && IsHeap(data[..len], key)
      && KeepsSmallest(data[..len], dropped, offered, k, key)
    }

    constructor (k: nat, key: T -> real)
      ensures Valid() && fresh(data)
      ensures this.k == k && this.key == key && offered == []
    {
      this.k, this.key := k, key;
      data := new T[k];
      len := 0;
      offered, dropped := [], [];
    }

    /** Offers one record; tells whether it entered the heap. */
    method Offer(x: T) returns (entered: bool)
      requires Valid() && 1 <= k
      modifies this, data
      ensures Valid() && data == old(data)
      ensures offered == old(offered) + [x]
      ensures entered <==> (|old(offered)| < k || key(x) < Sort(Keys(old(offered), key))[k-1])
      ensures !entered ==> len == old(len) && data[..] == old(data[..])
    {
      if len == k {
        RootOfFull(data[..len], dropped, offered, k, key);
      }
      if len < k {
        Append(x);
        entered := true;
      } else if key(x) < key(data[0]) {
        ReplaceRoot(x);
        entered := true;
      } else {
        forall i | 0 <= i < len ensures key(data[..len][i]) <= key(x) {
          RootIsLargest(data[..len], key, i);
        }
        KeepNot(data[..len], dropped, offered, k, key, x);
        dropped := dropped + [x];
        offered := offered + [x];
        entered := false;
      }
    }

    method Append(x: T)
      requires Valid() && len < k
      modifies this, data
      ensures Valid() && data == old(data)
      ensures offered == old(offered) + [x]
    {
      ghost var kept := data[..len];
      KeepMore(kept, dropped, offered, k, key, x);
      PushBack(data, len, x, key);
      len := len + 1;
      offered := offered + [x];
      KeepRearranged(kept + [x], data[..len], dropped, offered, k, key);
    }

    method ReplaceRoot(x: T)
      requires Valid() && len == k >= 1 && key(x) < key(data[0])
      modifies this, data
      ensures Valid() && data == old(data)
      ensures offered == old(offered) + [x]
    {
      hide KeepsSmallest, IsHeap;
      ghost var kept := data[..len];
      PopBack(data, len, key);
      ghost var front, root := data[..len-1], data[len-1];
      PushBack(data, len - 1, x, key);
      RootReplaced(kept, front, root, data[..len], dropped, offered, k, key, x);
      dropped := dropped + [root];
      offered := offered + [x];
    }

    /** Empties the heap: pops the largest until none is left, then reverses. */
    method Drain() returns (out: seq<T>)
      requires Valid()
      modifies this, data
      ensures Valid() && data == old(data) && offered == [] && len == 0
      ensures Keys(out, key) == Smallest(Keys(old(offered), key), k)
      ensures multiset(out) <= multiset(old(offered))
    {
      ghost var kept := data[..len];
      var popped := PopAll(data, len, key);
      out := Reversed(popped);
      DrainedAll(popped, kept, dropped, offered, k, key);
      len := 0;
      offered, dropped := [], [];
    }
  }

  /** Pops a heap of n elements until none is left. */
  method PopAll<T>(a: array<T>, n: nat, key: T -> real) returns (popped: seq<T>)
    requires n <= a.Length && IsHeap(a[..n], key)
    modifies a
    ensures Drained([], popped, old(a[..n]), key)
  {
    var m := n;
    ghost var kept := a[..n];
    popped := [];
    while 0 < m
      invariant 0 <= m <= n
      invariant IsHeap(a[..m], key)
      invariant Drained(a[..m], popped, kept, key)
    {
      popped := PopOne(a, m, popped, kept, key);
      m := m - 1;
    }
    assert a[..m] == [];
  }

  /** Moves the largest element of the heap to the end of what was popped. */
  method PopOne<T>(a: array<T>, m: nat, popped: seq<T>, ghost kept: seq<T>, key: T -> real) returns (popped': seq<T>)
    requires 1 <= m <= a.Length && IsHeap(a[..m], key)
    requires Drained(a[..m], popped, kept, key)
    modifies a
    ensures IsHeap(a[..m-1], key)
    ensures Drained(a[..m-1], popped', kept, key)
  {
    ghost var heap := a[..m];
    PopBack(a, m, key);
    DrainStep(heap, a[..m-1], a[m-1], popped, kept, key);
    popped' := popped + [a[m-1]];
  }

  function Reversed<T>(s: seq<T>): (r: seq<T>)
    ensures |r| == |s| && forall i :: 0 <= i < |s| ==> r[i] == s[|s|-1-i]
  {
    seq(|s|, i requires 0 <= i < |s| => s[|s|-1-i])
  }

  /** Midway through a drain: popped is descending, nothing left in the heap is
      larger, and together they are what was kept. */
  ghost predicate Drained<T>(heap: seq<T>, popped: seq<T>, kept: seq<T>, key: T -> real) {
    && multiset(heap) + multiset(popped) == multiset(kept)
    && (forall i, j :: 0 <= i < |heap| && 0 <= j < |popped| ==> key(heap[i]) <= key(popped[j]))
    && (forall i, j :: 0 <= i < j < |popped| ==> key(popped[j]) <= key(popped[i]))
  }

  lemma {:induction false} DrainStep<T>(heap: seq<T>, heap': seq<T>, largest: T, popped: seq<T>, kept: seq<T>, key: T -> real)
    requires Drained(heap, popped, kept, key)
    requires multiset(heap' + [largest]) == multiset(heap)
    requires forall x :: x in heap' ==> key(x) <= key(largest)
    ensures Drained(heap', popped + [largest], kept, key)
  {
    BagAssociative(multiset(heap'), multiset{largest}, multiset(popped));
    assert multiset(popped + [largest]) == multiset{largest} + multiset(popped);
    forall x, j | x in heap' + [largest] && 0 <= j < |popped| ensures key(x) <= key(popped[j]) {
      assert x in multiset(heap);
      var i :| 0 <= i < |heap| && heap[i] == x;
    }
    assert forall i :: 0 <= i < |heap'| ==> heap'[i] in heap' + [largest];
    assert largest in heap' + [largest];
  }

  /** Reversing what was popped lists the k smallest records offered in
      ascending key order. */
  lemma {:induction false} DrainedAll<T>(popped: seq<T>, kept: seq<T>, dropped: seq<T>, offered: seq<T>, k: nat, key: T -> real)
    requires Drained([], popped, kept, key)
    requires KeepsSmallest(kept, dropped, offered, k, key)
    ensures Keys(Reversed(popped), key) == Smallest(Keys(offered, key), k)
    ensures multiset(Reversed(popped)) <= multiset(offered)
  {
    var out := Reversed(popped);
    ReversedBag(popped);
    assert multiset(popped) == multiset(kept);
    KeepRearranged(kept, out, dropped, offered, k, key);
    KeptKeys(out, dropped, offered, k, key);
    SortOfSorted(Keys(out, key));
  }

  lemma {:induction false} ReversedBag<T>(s: seq<T>)
    ensures multiset(Reversed(s)) == multiset(s)
  {
    if s != [] {
      ReversedBag(s[1..]);
      HeadBag(s);
      assert Reversed(s) == Reversed(s[1..]) + [s[0]];
    }
  }
}
