/**
 * Python's `sorted(xs, key=...)`: a stable sort. It is modelled as an
 * insertion sort on an integer key; `SortBy` is proved to return a sorted
 * permutation that keeps the input order of elements with equal keys.
 */
module Sorting {

  predicate SortedBy<T>(s: seq<T>, key: T -> int)
  {
    forall i, j :: 0 <= i < j < |s| ==> key(s[i]) <= key(s[j])
  }

  predicate StrictlySortedBy<T>(s: seq<T>, key: T -> int)
  {
    forall i, j :: 0 <= i < j < |s| ==> key(s[i]) < key(s[j])
  }

  /** Inserts `x` into `t` after every trailing element whose key exceeds x's. */
  function Insert<T>(t: seq<T>, x: T, key: T -> int): (r: seq<T>)
    ensures multiset(r) == multiset(t) + multiset{x}
    decreases |t|
  {
    if t == [] || key(t[|t| - 1]) <= key(x) then t + [x]
    else
      SplitLast(t);
      Insert(t[..|t| - 1], x, key) + [t[|t| - 1]]
  }

  /** A non-empty sequence is its front followed by its last element. */
  lemma SplitLast<T>(s: seq<T>)
    requires s != []
    ensures s == s[..|s| - 1] + [s[|s| - 1]]
  {
  }

  /** The prefix one longer is the prefix followed by the next element. */
  lemma TakeSnoc<T>(s: seq<T>, i: nat)
    requires i < |s|
    ensures s[..i + 1] == s[..i] + [s[i]]
  {
  }

  /** The suffix from `j` is the element at `j` followed by the suffix after it. */
  lemma DropCons<T>(s: seq<T>, j: nat)
    requires j < |s|
    ensures s[j..] == [s[j]] + s[j + 1..]
  {
  }

  /** A sequence is its prefix up to `k` followed by the rest. */
  lemma TakeDrop<T>(s: seq<T>, k: nat)
    requires k <= |s|
    ensures s[..k] + s[k..] == s
  {
  }

  /** Concatenation is associative. */
  lemma ConcatAssoc<T>(a: seq<T>, b: seq<T>, c: seq<T>)
    ensures a + (b + c) == a + b + c
  {
  }

  /** A prefix of a sorted sequence is sorted. */
  lemma SortedPrefix<T>(s: seq<T>, n: nat, key: T -> int)
    requires SortedBy(s, key) && n <= |s|
    ensures SortedBy(s[..n], key)
  {
    var p := s[..n];
    forall i, j | 0 <= i < j < |p| ensures key(p[i]) <= key(p[j]) {
      assert p[i] == s[i] && p[j] == s[j];
    }
  }

  /** In a sorted sequence, every element before the last has a key no larger than the last one's. */
  lemma SortedBeforeLast<T>(s: seq<T>, x: T, key: T -> int)
    requires SortedBy(s, key) && s != [] && x in multiset(s[..|s| - 1])
    ensures key(x) <= key(s[|s| - 1])
  {
    var p :| 0 <= p < |s| - 1 && s[..|s| - 1][p] == x;
    assert s[p] == x;
  }

  /** An element with a key no smaller than the last one's is inserted at the end. */
  lemma InsertAtEnd<T>(t: seq<T>, x: T, key: T -> int)
    requires t == [] || key(t[|t| - 1]) <= key(x)
    ensures Insert(t, x, key) == t + [x]
  {
  }

  lemma {:induction false} InsertSorted<T>(t: seq<T>, x: T, key: T -> int)
    requires SortedBy(t, key)
    ensures SortedBy(Insert(t, x, key), key)
    decreases |t|
  {
    if t != [] && key(t[|t| - 1]) > key(x) {
      var front, last := t[..|t| - 1], t[|t| - 1];
      InsertSorted(front, x, key);
      var r := Insert(front, x, key);
      forall y | y in r ensures key(y) <= key(last) {
        assert y in multiset(r);
        if y != x {
          assert y in multiset(front);
          var i :| 0 <= i < |front| && front[i] == y;
          assert t[i] == y;
        }
      }
      SortedConcat(r, [last], key);
    }
  }

  /** Two sorted runs, every key of the first at most every key of the second, form a sorted run. */
  lemma SortedConcat<T>(a: seq<T>, b: seq<T>, key: T -> int)
    requires SortedBy(a, key) && SortedBy(b, key)
    requires forall x, y :: x in a && y in b ==> key(x) <= key(y)
    ensures SortedBy(a + b, key)
  {
    var ab := a + b;
    forall i, j | 0 <= i < j < |ab| ensures key(ab[i]) <= key(ab[j]) {
      if j < |a| {
        assert ab[i] == a[i] && ab[j] == a[j];
      } else if i >= |a| {
        assert ab[i] == b[i - |a|] && ab[j] == b[j - |a|];
      } else {
        assert ab[i] in a && ab[j] in b;
      }
    }
  }

  /** The stable sort of `s` by `key`. */
  function SortBy<T>(s: seq<T>, key: T -> int): (r: seq<T>)
    ensures multiset(r) == multiset(s)
    ensures SortedBy(r, key)
  {
    if s == [] then []
    else
      SplitLast(s);
      var sorted := SortBy(s[..|s| - 1], key);
      InsertSorted(sorted, s[|s| - 1], key);
      Insert(sorted, s[|s| - 1], key)
  }

  /** The elements of `s` whose key is `k`, in their order in `s`. */
  function KeyClass<T>(s: seq<T>, key: T -> int, k: int): seq<T>
  {
    if s == [] then []
    else KeyClass(s[..|s| - 1], key, k) + (if key(s[|s| - 1]) == k then [s[|s| - 1]] else [])
  }

  lemma {:induction false} KeyClassAppend<T>(a: seq<T>, b: seq<T>, key: T -> int, k: int)
    ensures KeyClass(a + b, key, k) == KeyClass(a, key, k) + KeyClass(b, key, k)
    decreases |b|
  {
    if b != [] {
      var b' := b[..|b| - 1];
      assert (a + b)[..|a + b| - 1] == a + b';
      KeyClassAppend(a, b', key, k);
    } else {
      assert a + b == a;
    }
  }

  lemma {:induction false} InsertStable<T>(t: seq<T>, x: T, key: T -> int, k: int)
    ensures KeyClass(Insert(t, x, key), key, k) == KeyClass(t, key, k) + (if key(x) == k then [x] else [])
    decreases |t|
  {
    if t == [] || key(t[|t| - 1]) <= key(x) {
      assert (t + [x])[..|t|] == t;
    } else {
      var front, last := t[..|t| - 1], t[|t| - 1];
      InsertStable(front, x, key, k);
      var r := Insert(front, x, key);
      assert (r + [last])[..|r|] == r;
    }
  }

  /** Stability: sorting keeps the relative order of the elements sharing any one key. */
  lemma {:induction false} SortByStable<T>(s: seq<T>, key: T -> int, k: int)
    ensures KeyClass(SortBy(s, key), key, k) == KeyClass(s, key, k)
  {
    if s != [] {
      var front, last := s[..|s| - 1], s[|s| - 1];
      SortByStable(front, key, k);
      InsertStable(SortBy(front, key), last, key, k);
    }
  }

  /** Sorting an already sorted sequence changes nothing. */
  lemma {:induction false} SortBySortedIsIdentity<T>(s: seq<T>, key: T -> int)
    requires SortedBy(s, key)
    ensures SortBy(s, key) == s
  {
    if s != [] {
      var front, last := s[..|s| - 1], s[|s| - 1];
      assert SortedBy(front, key) by {
        forall i, j | 0 <= i < j < |front| ensures key(front[i]) <= key(front[j]) {
          assert front[i] == s[i] && front[j] == s[j];
        }
      }
      SortBySortedIsIdentity(front, key);
      if front != [] {
        assert key(front[|front| - 1]) <= key(last) by {
          assert front[|front| - 1] == s[|s| - 2];
        }
      }
      InsertAtEnd(front, last, key);
      SplitLast(s);
    }
  }

  /** In strictly sorted sequences with the same elements, the last elements agree. */
  lemma SameLast<T>(a: seq<T>, b: seq<T>, key: T -> int)
    requires StrictlySortedBy(a, key) && StrictlySortedBy(b, key)
    requires |a| == |b| > 0 && multiset(a) == multiset(b)
    ensures a[|a| - 1] == b[|b| - 1]
  {
    var n := |a|;
    assert a[n - 1] in multiset(b) && b[n - 1] in multiset(a);
    var i :| 0 <= i < n && b[i] == a[n - 1];
    var j :| 0 <= j < n && a[j] == b[n - 1];
  }

  /** Equal multisets with equal last elements stay equal without them. */
  lemma DropLastSameMultiset<T>(a: seq<T>, b: seq<T>)
    requires |a| == |b| > 0 && a[|a| - 1] == b[|b| - 1]
    requires multiset(a) == multiset(b)
    ensures multiset(a[..|a| - 1]) == multiset(b[..|b| - 1])
  {
    var x := a[|a| - 1];
    assert a == a[..|a| - 1] + [x] && b == b[..|b| - 1] + [x];
    assert multiset(a[..|a| - 1]) == multiset(a) - multiset{x};
    assert multiset(b[..|b| - 1]) == multiset(b) - multiset{x};
  }

  /** Two strictly sorted sequences holding the same elements are equal. */
  lemma {:induction false} StrictlySortedUnique<T>(a: seq<T>, b: seq<T>, key: T -> int)
    requires StrictlySortedBy(a, key) && StrictlySortedBy(b, key)
    requires multiset(a) == multiset(b)
    ensures a == b
    decreases |a|
  {
    assert |a| == |multiset(a)| == |multiset(b)| == |b|;
    if a != [] {
      var n := |a|;
      SameLast(a, b, key);
      DropLastSameMultiset(a, b);
      StrictlySortedUnique(a[..n - 1], b[..n - 1], key);
      assert a == a[..n - 1] + [a[n - 1]] && b == b[..n - 1] + [b[n - 1]];
    }
  }

  /** The elements of `s` in the opposite order. */
  function Reverse<T>(s: seq<T>): (r: seq<T>)
    ensures |r| == |s|
    ensures forall i :: 0 <= i < |s| ==> r[i] == s[|s| - 1 - i]
    ensures multiset(r) == multiset(s)
  {
    if s == [] then []
    else
      SplitLast(s);
      [s[|s| - 1]] + Reverse(s[..|s| - 1])
  }

  /** A value at two positions of `xs` occurs at least twice in its multiset. */
  lemma {:induction false} RepeatedValueCountsTwice<T>(xs: seq<T>, i: nat, j: nat)
    requires i < j < |xs| && xs[i] == xs[j]
    ensures multiset(xs)[xs[i]] >= 2
  {
    assert xs == xs[..j] + [xs[j]] + xs[j + 1..];
    assert xs[i] in multiset(xs[..j]) by {
      assert xs[..j][i] == xs[i];
    }
  }

  /** A value occurring twice in the multiset of `xs` sits at two positions. */
  lemma {:induction false} CountTwiceHasTwoPositions<T>(xs: seq<T>, x: T)
    requires multiset(xs)[x] >= 2
    ensures exists i, j :: 0 <= i < j < |xs| && xs[i] == x && xs[j] == x
  {
    assert xs == [xs[0]] + xs[1..];
    if xs[0] == x {
      assert x in multiset(xs[1..]);
      var k :| 0 <= k < |xs[1..]| && xs[1..][k] == x;
      assert xs[k + 1] == x;
    } else {
      CountTwiceHasTwoPositions(xs[1..], x);
      var i, j :| 0 <= i < j < |xs[1..]| && xs[1..][i] == x && xs[1..][j] == x;
      assert xs[i + 1] == x && xs[j + 1] == x;
    }
  }
}
