/** The standard library's binary-heap algorithms on a prefix of an array,
    ordered by a real key with the largest key at the root. */
module BinaryHeap {
  import opened OrderStats

  function Parent(i: int): int
    requires 1 <= i
  {
    (i - 1) / 2
  }

  /** Every element whose parent is at or after lo is no larger than it. */
  ghost predicate HeapFrom<T>(s: seq<T>, lo: int, key: T -> real) {
    forall i :: 1 <= i < |s| && lo <= Parent(i) ==> key(s[i]) <= key(s[Parent(i)])
  }

  ghost predicate IsHeap<T>(s: seq<T>, key: T -> real) {
    HeapFrom(s, 0, key)
  }

  lemma {:induction false} RootIsLargest<T>(s: seq<T>, key: T -> real, i: nat)
    requires IsHeap(s, key) && i < |s|
    ensures key(s[i]) <= key(s[0])
    decreases i
  {
    if i > 0 {
      RootIsLargest(s, key, Parent(i));
    }
  }

  /** The array was only rearranged, and only among its first n elements. */
  ghost predicate Rearranged<T>(before: seq<T>, after: seq<T>, n: int) {
    && |before| == |after|
    && multiset(before) == multiset(after)
    && forall i :: 0 <= n <= i < |before| ==> before[i] == after[i]
  }

  lemma {:induction false} RearrangedPrefix<T>(s: seq<T>, t: seq<T>, n: nat)
    requires Rearranged(s, t, n) && n <= |s|
    ensures multiset(s[..n]) == multiset(t[..n]) && s[n..] == t[n..]
  {
    SplitBag(s, n);
    SplitBag(t, n);
    assert s[n..] == t[n..];
    HeadBags(multiset(s[..n]), multiset(t[..n]), multiset(s[n..]));
  }

  /** Exchanges two elements. */
  method Swap<T>(a: array<T>, i: nat, j: nat)
    requires i < a.Length && j < a.Length
    modifies a
    ensures a[..] == old(a[..])[i := old(a[j])][j := old(a[i])]
    ensures Rearranged(old(a[..]), a[..], 1 + if i <= j then j else i)
  {
    a[i], a[j] := a[j], a[i];
    assert a[..] == old(a[..])[i := old(a[j])][j := old(a[i])];
  }

  /** Heap order everywhere except that position i may exceed its parent. */
  ghost predicate HeapExceptUp<T>(s: seq<T>, i: int, key: T -> real) {
    && (forall j :: 1 <= j < |s| && j != i ==> key(s[j]) <= key(s[Parent(j)]))
    && (1 <= i ==> forall j :: 1 <= j < |s| && Parent(j) == i ==> key(s[j]) <= key(s[Parent(i)]))
  }

  lemma {:induction false} StepUp<T>(s: seq<T>, i: nat, key: T -> real)
    requires 1 <= i < |s| && HeapExceptUp(s, i, key)
    requires key(s[Parent(i)]) < key(s[i])
    ensures HeapExceptUp(s[Parent(i) := s[i]][i := s[Parent(i)]], Parent(i), key)
  {
    var p := Parent(i);
    var t := s[p := s[i]][i := s[p]];
    forall j | 1 <= j < |s| && j != p ensures key(t[j]) <= key(t[Parent(j)]) {
      if j == i {
      } else if Parent(j) == i {
      } else if Parent(j) == p {
        assert key(s[j]) <= key(s[p]);
      }
    }
    if 1 <= p {
      forall j | 1 <= j < |s| && Parent(j) == p ensures key(t[j]) <= key(t[Parent(p)]) {
        assert key(s[p]) <= key(s[Parent(p)]);
        assert j != i ==> key(s[j]) <= key(s[p]);
      }
    }
  }

  lemma {:induction false} StartUp<T>(s: seq<T>, key: T -> real)
    requires s != [] && IsHeap(s[..|s|-1], key)
    ensures HeapExceptUp(s, |s| - 1, key)
  {
    var t := s[..|s|-1];
    forall j | 1 <= j < |t| ensures key(s[j]) <= key(s[Parent(j)]) {
      assert key(t[j]) <= key(t[Parent(j)]);
    }
  }

  lemma {:induction false} FinishUp<T>(s: seq<T>, i: nat, key: T -> real)
    requires i < |s| && HeapExceptUp(s, i, key)
    requires i == 0 || key(s[i]) <= key(s[Parent(i)])
    ensures IsHeap(s, key)
  {
  }

  /** Exchanges position i with its smaller parent. */
  method Lift<T>(a: array<T>, n: nat, i: nat, key: T -> real)
    requires 1 <= i < n <= a.Length
    requires HeapExceptUp(a[..n], i, key) && key(a[Parent(i)]) < key(a[i])
    modifies a
    ensures HeapExceptUp(a[..n], Parent(i), key)
    ensures Rearranged(old(a[..]), a[..], n)
  {
    ghost var before := a[..n];
    StepUp(before, i, key);
    Swap(a, Parent(i), i);
    assert a[..n] == before[Parent(i) := before[i]][i := before[Parent(i)]];
  }

  /** push_heap: the first n - 1 elements form a heap and the last one joins it. */
  method PushHeap<T>(a: array<T>, n: nat, key: T -> real)
    requires 1 <= n <= a.Length
    requires IsHeap(a[..n-1], key)
    modifies a
    ensures IsHeap(a[..n], key)
    ensures Rearranged(old(a[..]), a[..], n)
  {
    var i := n - 1;
    assert a[..n-1] == a[..n][..n-1];
    StartUp(a[..n], key);
    while 0 < i && key(a[Parent(i)]) < key(a[i])
      invariant 0 <= i < n
      invariant HeapExceptUp(a[..n], i, key)
      invariant Rearranged(old(a[..]), a[..], n)
    {
      Lift(a, n, i, key);
      i := Parent(i);
    }
    FinishUp(a[..n], i, key);
  }

  /** Heap order from lo on, except that position i may be below its children. */
  ghost predicate HeapExceptDown<T>(s: seq<T>, lo: int, i: int, key: T -> real) {
    && (forall j :: 1 <= j < |s| && lo <= Parent(j) && Parent(j) != i ==> key(s[j]) <= key(s[Parent(j)]))
    && (1 <= i && lo <= Parent(i) ==>
          forall j :: 1 <= j < |s| && Parent(j) == i ==> key(s[j]) <= key(s[Parent(i)]))
  }

  lemma {:induction false} StepDown<T>(s: seq<T>, lo: nat, i: nat, c: nat, key: T -> real)
    requires lo <= i && 1 <= c < |s| && Parent(c) == i && HeapExceptDown(s, lo, i, key)
    requires forall j :: 1 <= j < |s| && Parent(j) == i ==> key(s[j]) <= key(s[c])
    requires key(s[i]) < key(s[c])
    ensures HeapExceptDown(s[i := s[c]][c := s[i]], lo, c, key)
  {
    var t := s[i := s[c]][c := s[i]];
    forall j | 1 <= j < |s| && lo <= Parent(j) && Parent(j) != c ensures key(t[j]) <= key(t[Parent(j)]) {
      if j == i {
        assert key(s[c]) <= key(s[Parent(i)]);
      } else if Parent(j) == i {
      } else {
        assert key(s[j]) <= key(s[Parent(j)]);
      }
    }
    forall j | 1 <= j < |s| && Parent(j) == c ensures key(t[j]) <= key(t[i]) {
      assert key(s[j]) <= key(s[Parent(j)]);
    }
  }

  lemma {:induction false} Settled<T>(s: seq<T>, lo: nat, i: nat, key: T -> real)
    requires HeapExceptDown(s, lo, i, key)
    requires i < |s|
    requires forall j :: 1 <= j < |s| && Parent(j) == i ==> key(s[j]) <= key(s[i])
    ensures HeapFrom(s, lo, key)
  {
  }

  lemma {:induction false} Children(n: nat, i: nat, j: nat)
    requires 1 <= j < n && Parent(j) == i
    ensures j == 2 * i + 1 || j == 2 * i + 2
  {
  }

  /** A child of i with the largest key. */
  method LargerChild<T>(a: array<T>, n: nat, i: nat, key: T -> real) returns (child: nat)
    requires n <= a.Length && 2 * i + 1 < n
    ensures 1 <= child < n && Parent(child) == i
    ensures forall j :: 1 <= j < n && Parent(j) == i ==> key(a[..n][j]) <= key(a[..n][child])
  {
    child := 2 * i + 1;
    if child + 1 < n && key(a[child]) < key(a[child + 1]) {
      child := child + 1;
    }
    forall j | 1 <= j < n && Parent(j) == i ensures key(a[..n][j]) <= key(a[child]) {
      Children(n, i, j);
    }
  }

  /** Exchanges position i with its larger child. */
  method Lower<T>(a: array<T>, n: nat, root: nat, i: nat, child: nat, key: T -> real)
    requires root <= i && 1 <= child < n <= a.Length && Parent(child) == i
    requires HeapExceptDown(a[..n], root, i, key) && key(a[i]) < key(a[child])
    requires forall j :: 1 <= j < n && Parent(j) == i ==> key(a[..n][j]) <= key(a[..n][child])
    modifies a
    ensures HeapExceptDown(a[..n], root, child, key)
    ensures Rearranged(old(a[..]), a[..], n)
  {
    ghost var before := a[..n];
    StepDown(before, root, i, child, key);
    Swap(a, i, child);
    assert a[..n] == before[i := before[child]][child := before[i]];
  }

  /** Restores the heap order below root when only root may be too small. */
  method SiftDown<T>(a: array<T>, n: nat, root: nat, key: T -> real)
    requires root < n <= a.Length
    requires HeapFrom(a[..n], root + 1, key)
    modifies a
    ensures HeapFrom(a[..n], root, key)
    ensures Rearranged(old(a[..]), a[..], n)
  {
    var i := root;
    while 2 * i + 1 < n
      invariant root <= i < n
      invariant HeapExceptDown(a[..n], root, i, key)
      invariant Rearranged(old(a[..]), a[..], n)
      decreases n - i
    {
      var child := LargerChild(a, n, i, key);
      if key(a[child]) <= key(a[i]) {
        break;
      }
      Lower(a, n, root, i, child, key);
      i := child;
    }
    Settled(a[..n], root, i, key);
  }

  /** pop_heap: moves the root to the last place and keeps a heap before it. */
  method PopHeap<T>(a: array<T>, n: nat, key: T -> real)
    requires 1 <= n <= a.Length
    requires IsHeap(a[..n], key)
    modifies a
    ensures a[n-1] == old(a[0])
    ensures IsHeap(a[..n-1], key)
    ensures Rearranged(old(a[..]), a[..], n)
  {
    ghost var before := a[..n];
    Swap(a, 0, n - 1);
    if 1 < n {
      StillHeapBelowRoot(before, a[..n-1], key);
      SiftDown(a, n - 1, 0, key);
    }
  }

  lemma {:induction false} StillHeapBelowRoot<T>(s: seq<T>, t: seq<T>, key: T -> real)
    requires IsHeap(s, key) && |t| == |s| - 1
    requires forall i :: 1 <= i < |t| ==> t[i] == s[i]
    ensures HeapFrom(t, 1, key)
  {
  }

  /** make_heap: sifts down every inner node, last first. */
  method MakeHeap<T>(a: array<T>, n: nat, key: T -> real)
    requires n <= a.Length
    modifies a
    ensures IsHeap(a[..n], key)
    ensures Rearranged(old(a[..]), a[..], n)
  {
    var i := n / 2;
    while 0 < i
      invariant 0 <= i <= n / 2
      invariant HeapFrom(a[..n], i, key)
      invariant Rearranged(old(a[..]), a[..], n)
    {
      i := i - 1;
      SiftDown(a, n, i, key);
    }
  }

  /** Everything before m is at most everything from m on, which is ascending. */
  ghost predicate TailSorted<T>(s: seq<T>, m: int, key: T -> real) {
    forall i, j :: 0 <= i < j < |s| && m <= j ==> key(s[i]) <= key(s[j])
  }

  /** When the heap part is rearranged with its root last, the boundary moves
      down by one. */
  lemma {:induction false} TailGrows<T>(s: seq<T>, t: seq<T>, m: nat, key: T -> real)
    requires 1 <= m <= |s| && TailSorted(s, m, key)
    requires Rearranged(s, t, m)
    requires t[m-1] == s[0] && IsHeap(s[..m], key)
    ensures TailSorted(t, m - 1, key)
  {
    RearrangedPrefix(s, t, m);
    LargestFirst(s[..m], t[..m], key);
    forall i, j | 0 <= i < j < |t| && m - 1 <= j ensures key(t[i]) <= key(t[j]) {
      if i < m {
        assert t[..m][i] == t[i];
      }
    }
  }

  /** sort_heap: pops the largest to the end until the first n are ascending. */
  method SortHeap<T>(a: array<T>, n: nat, key: T -> real)
    requires n <= a.Length
    requires IsHeap(a[..n], key)
    modifies a
    ensures Sorted(Keys(a[..n], key))
    ensures Rearranged(old(a[..]), a[..], n)
  {
    var m := n;
    while 1 < m
      invariant 0 <= m <= n
      invariant IsHeap(a[..m], key)
      invariant TailSorted(a[..n], m, key)
      invariant Rearranged(old(a[..]), a[..], n)
    {
      PopToTail(a, m, n, key);
      m := m - 1;
    }
  }

  /** One round of sort_heap. */
  method PopToTail<T>(a: array<T>, m: nat, n: nat, key: T -> real)
    requires 1 <= m <= n <= a.Length
    requires IsHeap(a[..m], key) && TailSorted(a[..n], m, key)
    modifies a
    ensures IsHeap(a[..m-1], key) && TailSorted(a[..n], m - 1, key)
    ensures Rearranged(old(a[..]), a[..], n)
  {
    ghost var before := a[..];
    PopHeap(a, m, key);
    RearrangedWithin(before, a[..], m, n);
    assert before[..n][..m] == before[..m];
    TailGrows(before[..n], a[..n], m, key);
  }

  lemma {:induction false} RearrangedWithin<T>(s: seq<T>, t: seq<T>, m: nat, n: nat)
    requires Rearranged(s, t, m) && m <= n <= |s|
    ensures Rearranged(s[..n], t[..n], m)
  {
    assert Rearranged(s, t, n);
    RearrangedPrefix(s, t, n);
  }

  /** Appends x after the first n elements and lets it join their heap. */
  method PushBack<T>(a: array<T>, n: nat, x: T, key: T -> real)
    requires n < a.Length
    requires IsHeap(a[..n], key)
    modifies a
    ensures IsHeap(a[..n+1], key)
    ensures multiset(a[..n+1]) == multiset(old(a[..n]) + [x])
  {
    ghost var heap := a[..n];
    a[n] := x;
    ghost var before := a[..];
    assert a[..n] == heap && before[..n+1] == heap + [x];
    PushHeap(a, n + 1, key);
    RearrangedPrefix(before, a[..], n + 1);
    assert a[..][..n+1] == a[..n+1];
  }

  /** pop_heap seen from the heap alone: the largest element goes last. */
  method PopBack<T>(a: array<T>, n: nat, key: T -> real)
    requires 1 <= n <= a.Length
    requires IsHeap(a[..n], key)
    modifies a
    ensures IsHeap(a[..n-1], key)
    ensures a[n-1] == old(a[0])
    ensures multiset(a[..n-1] + [a[n-1]]) == multiset(old(a[..n]))
    ensures forall x :: x in a[..n-1] ==> key(x) <= key(a[n-1])
  {
    ghost var before := a[..];
    ghost var heap := a[..n];
    assert before[..n] == heap;
    PopHeap(a, n, key);
    RearrangedPrefix(before, a[..], n);
    assert a[..][..n] == a[..n] == a[..n-1] + [a[n-1]];
    LargestFirst(heap, a[..n], key);
  }

  lemma {:induction false} LargestFirst<T>(heap: seq<T>, t: seq<T>, key: T -> real)
    requires IsHeap(heap, key) && multiset(heap) == multiset(t)
    ensures forall i :: 0 <= i < |t| ==> heap != [] && key(t[i]) <= key(heap[0])
  {
    forall i | 0 <= i < |t| ensures heap != [] && key(t[i]) <= key(heap[0]) {
      assert t[i] in multiset(heap);
      var p :| 0 <= p < |heap| && heap[p] == t[i];
      RootIsLargest(heap, key, p);
    }
  }
}
