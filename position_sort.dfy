/**
  `SortPositionsByDirection` of the physics system: an in-place insertion sort
  of the candidate coordinates, highest score first, that stops shifting as
  soon as an earlier element scores at least as high as the key.
 */
module PositionSort {

  /** Inserts `x` into `s` scanning from the right, stopping before the first element scoring at least as high. */
  function InsertR<T>(s: seq<T>, x: T, score: T -> real): seq<T>
  {
    if s == [] || score(s[|s| - 1]) >= score(x) then s + [x]
    else InsertR(s[..|s| - 1], x, score) + [s[|s| - 1]]
  }

  /** Insertion sort: each element in turn is inserted into the sorted prefix before it. */
  function InsertionSorted<T>(s: seq<T>, score: T -> real): seq<T>
  {
    if s == [] then [] else InsertR(InsertionSorted(s[..|s| - 1], score), s[|s| - 1], score)
  }

  predicate NonIncreasing<T>(s: seq<T>, score: T -> real)
  {
    forall i, j | 0 <= i < j < |s| :: score(s[i]) >= score(s[j])
  }

  predicate AllAtLeast<T>(s: seq<T>, b: real, score: T -> real)
  {
    forall i | 0 <= i < |s| :: score(s[i]) >= b
  }

  /** The elements of `s` scoring exactly `v`, in their order in `s`. */
  function WithScore<T>(s: seq<T>, v: real, score: T -> real): seq<T>
  {
    if s == [] then []
    else WithScore(s[..|s| - 1], v, score) + (if score(s[|s| - 1]) == v then [s[|s| - 1]] else [])
  }

  /** `InsertR` places `x` after the element at `k - 1` when all elements from `k` on score lower. */
  lemma {:induction false} InsertRAt<T>(s: seq<T>, x: T, k: nat, score: T -> real)
    requires k <= |s|
    requires k == 0 || score(s[k - 1]) >= score(x)
    requires forall m | k <= m < |s| :: score(s[m]) < score(x)
    ensures InsertR(s, x, score) == s[..k] + [x] + s[k..]
    decreases |s|
  {
    if |s| == k {
      assert s[..k] == s && s[k..] == [];
    } else {
      var front := s[..|s| - 1];
      InsertRAt(front, x, k, score);
      assert front[..k] == s[..k];
      assert s[k..] == front[k..] + [s[|s| - 1]];
    }
  }

  lemma {:induction false} InsertRPermutes<T>(s: seq<T>, x: T, score: T -> real)
    ensures multiset(InsertR(s, x, score)) == multiset(s) + multiset{x}
    decreases |s|
  {
    if s == [] || score(s[|s| - 1]) >= score(x) {
    } else {
      var front := s[..|s| - 1];
      InsertRPermutes(front, x, score);
      assert s == front + [s[|s| - 1]];
    }
  }

  /** The sort returns a permutation of its input. */
  lemma {:induction false} InsertionSortedPermutes<T>(s: seq<T>, score: T -> real)
    ensures multiset(InsertionSorted(s, score)) == multiset(s)
    ensures |InsertionSorted(s, score)| == |s|
    decreases |s|
  {
    if s != [] {
      var front := s[..|s| - 1];
      InsertionSortedPermutes(front, score);
      InsertRPermutes(InsertionSorted(front, score), s[|s| - 1], score);
      assert s == front + [s[|s| - 1]];
    }
  }

  lemma {:induction false} InsertRAtLeast<T>(s: seq<T>, x: T, b: real, score: T -> real)
    requires AllAtLeast(s, b, score) && score(x) >= b
    ensures AllAtLeast(InsertR(s, x, score), b, score)
    decreases |s|
  {
    if s == [] || score(s[|s| - 1]) >= score(x) {
    } else {
      InsertRAtLeast(s[..|s| - 1], x, b, score);
    }
  }

  lemma {:induction false} InsertRKeepsOrder<T>(s: seq<T>, x: T, score: T -> real)
    requires NonIncreasing(s, score)
    ensures NonIncreasing(InsertR(s, x, score), score)
    decreases |s|
  {
    if s == [] || score(s[|s| - 1]) >= score(x) {
    } else {
      var front := s[..|s| - 1];
      var last := s[|s| - 1];
      InsertRKeepsOrder(front, x, score);
      InsertRAtLeast(front, x, score(last), score);
    }
  }

  /** The sort returns its input ordered from the highest score to the lowest. */
  lemma {:induction false} InsertionSortedIsOrdered<T>(s: seq<T>, score: T -> real)
    ensures NonIncreasing(InsertionSorted(s, score), score)
    decreases |s|
  {
    if s != [] {
      InsertionSortedIsOrdered(s[..|s| - 1], score);
      InsertRKeepsOrder(InsertionSorted(s[..|s| - 1], score), s[|s| - 1], score);
    }
  }

  lemma {:induction false} WithScoreAppend<T>(a: seq<T>, b: seq<T>, v: real, score: T -> real)
    ensures WithScore(a + b, v, score) == WithScore(a, v, score) + WithScore(b, v, score)
    decreases |b|
  {
    if b == [] {
      assert a + b == a;
    } else {
      WithScoreAppend(a, b[..|b| - 1], v, score);
      assert (a + b)[..|a + b| - 1] == a + b[..|b| - 1];
    }
  }

  lemma {:induction false} InsertRWithScore<T>(s: seq<T>, x: T, v: real, score: T -> real)
    ensures WithScore(InsertR(s, x, score), v, score)
         == WithScore(s, v, score) + (if score(x) == v then [x] else [])
    decreases |s|
  {
    if s == [] || score(s[|s| - 1]) >= score(x) {
      WithScoreAppend(s, [x], v, score);
    } else {
      var front := s[..|s| - 1];
      var last := s[|s| - 1];
      InsertRWithScore(front, x, v, score);
      WithScoreAppend(InsertR(front, x, score), [last], v, score);
      assert WithScore([last], v, score) == if score(last) == v then [last] else [] by {
        assert [last][..0] == [];
      }
    }
  }

  /**
    Stability: for every score value, the elements with that score keep their
    relative order, because an element is never shifted past one scoring the same.
   */
  lemma {:induction false} InsertionSortedIsStable<T>(s: seq<T>, v: real, score: T -> real)
    ensures WithScore(InsertionSorted(s, score), v, score) == WithScore(s, v, score)
    decreases |s|
  {
    if s != [] {
      var front := s[..|s| - 1];
      InsertionSortedIsStable(front, v, score);
      InsertRWithScore(InsertionSorted(front, score), s[|s| - 1], v, score);
    }
  }

  /** A sequence that agrees with `prefix` before `k`, holds `key` at `k`, and `prefix` shifted by one after it. */
  lemma ShiftedIsInsert<T>(prefix: seq<T>, r: seq<T>, key: T, k: nat)
    requires k <= |prefix| && |r| == |prefix| + 1
    requires forall m | 0 <= m < k :: r[m] == prefix[m]
    requires r[k] == key
    requires forall m | k + 1 <= m <= |prefix| :: r[m] == prefix[m - 1]
    ensures r == prefix[..k] + [key] + prefix[k..]
  {
    var expected := prefix[..k] + [key] + prefix[k..];
    forall m | 0 <= m < |r| ensures r[m] == expected[m] {
      if m > k {
        assert expected[m] == prefix[k..][m - k - 1];
      }
    }
  }

  /**
    One pass of the outer loop: the key at `i` is moved left past every element
    of the sorted prefix scoring lower than it.
   */
  method InsertKey<T>(a: array<T>, i: nat, score: T -> real)
    requires 1 <= i < a.Length
    modifies a
    ensures a[..i + 1] == InsertR(old(a[..i]), old(a[i]), score)
    ensures a[i + 1..] == old(a[i + 1..])
  {
    var key := a[i];
    var keyDot := score(key);
    ghost var prefix := a[..i];
    var j := i - 1;
    while j >= 0
      invariant -1 <= j <= i - 1
      invariant forall m | 0 <= m <= j :: a[m] == prefix[m]
      invariant forall m | j + 2 <= m <= i :: a[m] == prefix[m - 1]
      invariant forall m | i + 1 <= m < a.Length :: a[m] == old(a[m])
      invariant forall m | j + 1 <= m < i :: score(prefix[m]) < keyDot
      decreases j
    {
      var currentDot := score(a[j]);
      if currentDot >= keyDot {
        break;
      }
      a[j + 1] := a[j];
      j := j - 1;
    }
    a[j + 1] := key;
    InsertRAt(prefix, key, j + 1, score);
    ShiftedIsInsert(prefix, a[..i + 1], key, j + 1);
    assert a[i + 1..] == old(a[i + 1..]);
  }

  /** Sorts `a` in place by `score`, highest first; the shift loop breaks on `>=`. */
  method SortPositionsByDirection<T>(a: array<T>, score: T -> real)
    modifies a
    ensures a[..] == InsertionSorted(old(a[..]), score)
  {
    ghost var original := a[..];
    if a.Length == 0 {
      assert a[..] == [] && original == [];
      return;
    }
    assert InsertionSorted(original[..1], score) == original[..1];
    var i := 1;
    while i < a.Length
      invariant 1 <= i <= a.Length
      invariant a[..i] == InsertionSorted(original[..i], score)
      invariant a[i..] == original[i..]
    {
      InsertKey(a, i, score);
      assert original[..i + 1][..i] == original[..i];
      i := i + 1;
    }
    assert a[..] == a[..a.Length];
    assert original[..a.Length] == original;
  }
}
