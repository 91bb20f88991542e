/** Counting distinct elements: lists without duplicates against finite sets. */
module Pigeonhole {

  /** The integers from a up to b. */
  function Range(a: int, b: int): (r: set<int>)
    ensures forall x :: x in r <==> a <= x < b
    decreases b - a
  {
    if a >= b then {} else Range(a, b - 1) + {b - 1}
  }

  lemma {:induction false} RangeSize(a: int, b: int)
    requires a <= b
    ensures |Range(a, b)| == b - a
    decreases b - a
  {
    if a < b {
      RangeSize(a, b - 1);
    }
  }

  function Elements<T>(s: seq<T>): set<T> {
    set x | x in s
  }

  lemma {:induction false} SomeFree(taken: seq<nat>, n: nat)
    requires |taken| < n
    ensures exists p :: 0 <= p < n && p !in taken
  {
    var ints: set<int> := set x: int | x in taken;
    if Range(0, n) <= ints {
      RangeSize(0, n);
      ListCovers(taken);
      assert ints == Elements(taken);
      SubsetSize(Range(0, n), ints);
    } else {
      var p :| p in Range(0, n) && p !in ints;
      assert p !in taken;
    }
  }

  lemma {:induction false} ListCovers<T>(s: seq<T>)
    ensures |Elements(s)| <= |s|
  {
    if s != [] {
      ListCovers(s[1..]);
      assert Elements(s) == Elements(s[1..]) + {s[0]};
    }
  }

  lemma {:induction false} SubsetSize<T>(a: set<T>, b: set<T>)
    requires a <= b
    ensures |a| <= |b|
  {
    assert b == a + (b - a);
  }

  lemma {:induction false} DistinctSize<T>(s: seq<T>)
    requires forall i, j :: 0 <= i < j < |s| ==> s[i] != s[j]
    ensures |Elements(s)| == |s|
  {
    if s != [] {
      DistinctSize(s[1..]);
      assert Elements(s) == Elements(s[1..]) + {s[0]};
      assert s[0] !in s[1..];
    }
  }

  ghost predicate Distinct<T>(s: seq<T>) {
    forall i, j :: 0 <= i < j < |s| ==> s[i] != s[j]
  }

  /** Equal-sized sets, one inside the other, are the same. */
  lemma {:induction false} FullSubset<T>(a: set<T>, b: set<T>)
    requires a <= b && |b| <= |a|
    ensures a == b
  {
    SubsetSize(a, b);
    if a != b {
      var x :| x in b && x !in a;
      SubsetSize(a + {x}, b);
    }
  }

  lemma {:induction false} DuplicateShrinks<T>(s: seq<T>, i: nat, j: nat)
    requires i < j < |s| && s[i] == s[j]
    ensures |Elements(s)| < |s|
  {
    ListCovers(s[..j] + s[j + 1..]);
    assert Elements(s) <= Elements(s[..j] + s[j + 1..]) by {
      forall x | x in s ensures x in s[..j] + s[j + 1..] {
        var k :| 0 <= k < |s| && s[k] == x;
        assert x == (s[..j] + s[j + 1..])[if k < j then k else if k == j then i else k - 1];
      }
    }
    SubsetSize(Elements(s), Elements(s[..j] + s[j + 1..]));
  }

  /** As many distinct values as the list is long, all taken from it: the list has no
      duplicates and both hold the same values. */
  lemma {:induction false} DistinctFill<T>(s: seq<T>, t: seq<T>)
    requires Distinct(s) && |s| == |t| && forall x :: x in s ==> x in t
    ensures Distinct(t) && Elements(s) == Elements(t)
  {
    DistinctSize(s);
    ListCovers(t);
    FullSubset(Elements(s), Elements(t));
    forall i, j | 0 <= i < j < |t| ensures t[i] != t[j] {
      if t[i] == t[j] {
        DuplicateShrinks(t, i, j);
      }
    }
  }
}
