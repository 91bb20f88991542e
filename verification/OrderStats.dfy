/** Order statistics over finite sequences of reals: sorting, the k smallest
    values, and counting how many values lie below a threshold.  Every
    selection in the engine (result collector, probe frontier, coarse
    selection, ground truth, calibration) is specified against this module. */
module OrderStats {

  function Min(a: int, b: int): int {
    if a <= b then a else b
  }

  predicate Sorted(s: seq<real>) {
    forall i, j :: 0 <= i < j < |s| ==> s[i] <= s[j]
  }

  /** The place of x in an ascending sequence, before its equals. */
  function Rank(x: real, s: seq<real>): (p: nat)
    requires Sorted(s)
    ensures p <= |s|
    ensures forall i :: 0 <= i < p ==> s[i] < x
    ensures forall i :: p <= i < |s| ==> x <= s[i]
  {
    if s == [] || x <= s[|s|-1] then
      if s == [] then 0 else Rank(x, s[..|s|-1])
    else |s|
  }

  /** Places x in an ascending sequence. */
  function Insert(x: real, s: seq<real>): (r: seq<real>)
    requires Sorted(s)
    ensures Sorted(r)
  {
    var p := Rank(x, s);
    s[..p] + [x] + s[p..]
  }

  lemma {:induction false} InsertBag(x: real, s: seq<real>)
    requires Sorted(s)
    ensures multiset(Insert(x, s)) == multiset{x} + multiset(s)
  {
    var p := Rank(x, s);
    SplitBag(s, p);
    BagAssociative(multiset(s[..p]), multiset{x}, multiset(s[p..]));
    assert multiset(s[..p] + [x]) == multiset{x} + multiset(s[..p]);
  }

  /** The ascending rearrangement of s. */
  function Sort(s: seq<real>): (r: seq<real>)
    ensures Sorted(r)
    ensures |r| == |s|
  {
    if s == [] then [] else Insert(s[0], Sort(s[1..]))
  }

  lemma {:induction false} HeadBag<T>(s: seq<T>)
    requires s != []
    ensures multiset(s) == multiset{s[0]} + multiset(s[1..])
  {
    assert s == [s[0]] + s[1..];
  }

  lemma {:induction false} SplitBag<T>(s: seq<T>, k: nat)
    requires k <= |s|
    ensures multiset(s) == multiset(s[..k]) + multiset(s[k..])
  {
    assert s == s[..k] + s[k..];
  }

  lemma {:induction false} BagAssociative<T>(a: multiset<T>, b: multiset<T>, c: multiset<T>)
    ensures (a + b) + c == a + (b + c) == b + (a + c)
  {
  }

  lemma {:induction false} BagSize<T>(s: seq<T>, t: seq<T>)
    requires multiset(s) == multiset(t)
    ensures |s| == |t|
  {
    assert |s| == |multiset(s)| == |multiset(t)| == |t|;
  }

  lemma {:induction false} SortBag(s: seq<real>)
    ensures multiset(Sort(s)) == multiset(s)
  {
    if s != [] {
      SortBag(s[1..]);
      InsertBag(s[0], Sort(s[1..]));
      HeadBag(s);
    }
  }

  /** The k smallest values of s in ascending order; all of s when it is shorter. */
  function Smallest(s: seq<real>, k: nat): (r: seq<real>)
    ensures |r| == Min(k, |s|)
  {
    Sort(s)[..Min(k, |s|)]
  }

  lemma {:induction false} SortedUnique(a: seq<real>, b: seq<real>)
    requires Sorted(a) && Sorted(b) && multiset(a) == multiset(b)
    ensures a == b
  {
    BagSize(a, b);
    if a != [] {
      assert a[0] in multiset(b) && b[0] in multiset(a);
      assert a[0] in b && b[0] in a;
      assert a[0] == b[0];
      HeadBag(a);
      HeadBag(b);
      TailBags(multiset{a[0]}, multiset(a[1..]), multiset(b[1..]));
      SortedUnique(a[1..], b[1..]);
    }
  }

  lemma {:induction false} TailBags<T>(h: multiset<T>, a: multiset<T>, b: multiset<T>)
    requires h + a == h + b
    ensures a == b
  {
    assert (h + a) - h == a && (h + b) - h == b;
  }

  lemma {:induction false} HeadBags<T>(a: multiset<T>, b: multiset<T>, h: multiset<T>)
    requires a + h == b + h
    ensures a == b
  {
    assert (a + h) - h == a && (b + h) - h == b;
  }

  lemma {:induction false} SortOfSorted(s: seq<real>)
    requires Sorted(s)
    ensures Sort(s) == s
  {
    SortBag(s);
    SortedUnique(Sort(s), s);
  }

  lemma {:induction false} SortPermutation(a: seq<real>, b: seq<real>)
    requires multiset(a) == multiset(b)
    ensures Sort(a) == Sort(b) && |a| == |b|
  {
    SortBag(a);
    SortBag(b);
    SortedUnique(Sort(a), Sort(b));
    BagSize(a, b);
  }

  lemma {:induction false} ConcatSorted(a: seq<real>, b: seq<real>)
    requires Sorted(a) && Sorted(b)
    requires forall i, j :: 0 <= i < |a| && 0 <= j < |b| ==> a[i] <= b[j]
    ensures Sorted(a + b)
  {
  }

  /** A part that holds min(k, all) elements, none above an element outside
      it, is the k smallest. */
  lemma {:induction false} SmallestOfPartition(kept: seq<real>, rest: seq<real>, all: seq<real>, k: nat)
    requires multiset(kept) + multiset(rest) == multiset(all)
    requires |kept| == Min(k, |all|)
    requires forall x, y :: x in kept && y in rest ==> x <= y
    ensures Sort(kept) == Smallest(all, k)
  {
    var a, b := Sort(kept), Sort(rest);
    SortBag(kept);
    SortBag(rest);
    SortBag(all);
    forall i, j | 0 <= i < |a| && 0 <= j < |b| ensures a[i] <= b[j] {
      assert a[i] in multiset(kept) && b[j] in multiset(rest);
      assert a[i] in kept && b[j] in rest;
    }
    ConcatSorted(a, b);
    SortedUnique(a + b, Sort(all));
    assert a == (a + b)[..|a|];
  }

  /** How many elements of s are strictly below x. */
  function CountBelow(s: seq<real>, x: real): (n: nat)
    ensures n <= |s|
  {
    if s == [] then 0 else (if s[0] < x then 1 else 0) + CountBelow(s[1..], x)
  }

  lemma {:induction false} CountBelowConcat(a: seq<real>, b: seq<real>, x: real)
    ensures CountBelow(a + b, x) == CountBelow(a, x) + CountBelow(b, x)
  {
    if a == [] {
      assert a + b == b;
    } else {
      assert (a + b)[1..] == a[1..] + b;
      CountBelowConcat(a[1..], b, x);
    }
  }

  lemma {:induction false} CountBelowInsert(y: real, s: seq<real>, x: real)
    requires Sorted(s)
    ensures CountBelow(Insert(y, s), x) == (if y < x then 1 else 0) + CountBelow(s, x)
  {
    var p := Rank(y, s);
    assert s == s[..p] + s[p..];
    assert Insert(y, s) == s[..p] + ([y] + s[p..]);
    assert ([y] + s[p..])[1..] == s[p..];
    CountBelowConcat(s[..p], s[p..], x);
    CountBelowConcat(s[..p], [y] + s[p..], x);
  }

  lemma {:induction false} CountBelowSort(s: seq<real>, x: real)
    ensures CountBelow(Sort(s), x) == CountBelow(s, x)
  {
    if s != [] {
      CountBelowSort(s[1..], x);
      CountBelowInsert(s[0], Sort(s[1..]), x);
    }
  }

  /** In an ascending sequence, at least k elements lie below x exactly when the
      k-th does. */
  lemma {:induction false} CountBelowSorted(s: seq<real>, x: real, k: nat)
    requires Sorted(s) && 1 <= k
    ensures CountBelow(s, x) >= k <==> (k <= |s| && s[k-1] < x)
  {
    if s != [] {
      if s[0] < x {
        if k > 1 {
          CountBelowSorted(s[1..], x, k - 1);
        }
      } else {
        CountBelowNone(s, x);
      }
    }
  }

  lemma {:induction false} CountBelowNone(s: seq<real>, x: real)
    requires forall i :: 0 <= i < |s| ==> x <= s[i]
    ensures CountBelow(s, x) == 0
  {
    if s != [] {
      CountBelowNone(s[1..], x);
    }
  }

  /** The order-statistic reading of the k-th smallest value. */
  lemma {:induction false} KthSmallestBelow(s: seq<real>, k: nat, x: real)
    requires 1 <= k
    ensures CountBelow(s, x) >= k <==> (k <= |s| && Sort(s)[k-1] < x)
  {
    CountBelowSort(s, x);
    CountBelowSorted(Sort(s), x, k);
  }

  /** Dropping elements that already have k strictly smaller kept ones does not
      change the k smallest values. */
  lemma {:induction false} DroppingBeatenElements(kept: seq<real>, dropped: seq<real>, all: seq<real>, k: nat)
    requires 1 <= k
    requires multiset(kept) + multiset(dropped) == multiset(all)
    requires forall y :: y in dropped ==> CountBelow(kept, y) >= k
    ensures Smallest(kept, k) == Smallest(all, k)
  {
    if dropped == [] {
      SortPermutation(kept, all);
    } else {
      var s := Sort(kept);
      SortBag(kept);
      KthSmallestBelow(kept, k, dropped[0]);
      forall y | y in dropped ensures s[k-1] < y {
        KthSmallestBelow(kept, k, y);
      }
      SplitSmallest(s, dropped, all, k);
    }
  }

  /** An ascending sequence cut after k, with everything else after the cut. */
  lemma {:induction false} SplitSmallest(s: seq<real>, more: seq<real>, all: seq<real>, k: nat)
    requires Sorted(s) && 1 <= k <= |s|
    requires multiset(s) + multiset(more) == multiset(all)
    requires forall y :: y in more ==> s[k-1] <= y
    ensures s[..k] == Smallest(all, k)
  {
    var top, rest := s[..k], s[k..] + more;
    SplitBag(s, k);
    BagAssociative(multiset(top), multiset(s[k..]), multiset(more));
    assert multiset(top) + multiset(rest) == multiset(all);
    assert |top| + |rest| == |all| by {
      BagSize(top + rest, all);
    }
    forall x, y | x in top && y in rest ensures x <= y {
      assert x <= s[k-1] <= y;
    }
    SmallestOfPartition(top, rest, all, k);
    SortOfSorted(top);
  }

  /** The sort keys of a sequence of records. */
  function Keys<T>(s: seq<T>, key: T -> real): (r: seq<real>)
    ensures |r| == |s| && forall i :: 0 <= i < |s| ==> r[i] == key(s[i])
  {
    seq(|s|, i requires 0 <= i < |s| => key(s[i]))
  }

  lemma {:induction false} KeysConcat<T>(a: seq<T>, b: seq<T>, key: T -> real)
    ensures Keys(a + b, key) == Keys(a, key) + Keys(b, key)
  {
  }

  /** Removing one occurrence of x. */
  lemma {:induction false} RemoveAt<T>(s: seq<T>, i: nat)
    requires i < |s|
    ensures multiset(s) == multiset{s[i]} + multiset(s[..i] + s[i+1..])
  {
    assert s == s[..i] + [s[i]] + s[i+1..];
  }

  /** Permuting the records permutes their keys. */
  lemma {:induction false} KeysPermutation<T>(s: seq<T>, t: seq<T>, key: T -> real)
    requires multiset(s) == multiset(t)
    ensures multiset(Keys(s, key)) == multiset(Keys(t, key))
  {
    BagSize(s, t);
    if s == [] {
      assert Keys(s, key) == Keys(t, key);
    } else {
      assert s[0] in multiset(t);
      var i :| 0 <= i < |t| && t[i] == s[0];
      var t' := t[..i] + t[i+1..];
      RemoveAt(t, i);
      HeadBag(s);
      TailBags(multiset{s[0]}, multiset(s[1..]), multiset(t'));
      KeysPermutation(s[1..], t', key);
      RemoveAt(Keys(t, key), i);
      HeadBag(Keys(s, key));
      assert Keys(s, key)[1..] == Keys(s[1..], key);
      assert Keys(t, key)[..i] + Keys(t, key)[i+1..] == Keys(t', key);
    }
  }

  /** How many elements satisfy p. */
  function CountIf<T>(s: seq<T>, p: T -> bool): (n: nat)
    ensures n <= |s|
  {
    if s == [] then 0
    else CountIf(s[..|s|-1], p) + if p(s[|s|-1]) then 1 else 0
  }

  lemma {:induction false} NoneCounted<T>(s: seq<T>, p: T -> bool)
    requires forall i :: 0 <= i < |s| ==> !p(s[i])
    ensures CountIf(s, p) == 0
  {
    if s != [] {
      NoneCounted(s[..|s|-1], p);
    }
  }

  // ----- lists of ids -----

  function Iota(n: nat): (r: seq<nat>)
    ensures |r| == n && forall i :: 0 <= i < n ==> r[i] == i
  {
    seq(n, i => i)
  }

  lemma {:induction false} IotaCount(n: nat, id: nat)
    ensures multiset(Iota(n))[id] == if id < n then 1 else 0
  {
    if n > 0 {
      assert Iota(n) == Iota(n - 1) + [n - 1];
      IotaCount(n - 1, id);
    }
  }

  lemma {:induction false} CountedTwice<T>(s: seq<T>, i: nat, j: nat)
    requires i < j < |s| && s[i] == s[j]
    ensures multiset(s)[s[i]] >= 2
  {
    RemoveAt(s, i);
    assert (s[..i] + s[i+1..])[j-1] == s[j];
    assert s[i] in s[..i] + s[i+1..];
  }

  lemma {:induction false} DistinctCount(s: seq<nat>, id: nat)
    requires forall i, j :: 0 <= i < j < |s| ==> s[i] != s[j]
    ensures multiset(s)[id] == if id in s then 1 else 0
  {
    if s != [] {
      HeadBag(s);
      DistinctCount(s[1..], id);
    }
  }
}
