/**
 * `Array.prototype.sort(comparefn)` as the self-sorting table uses it.
 *
 * The language leaves the algorithm to the engine and requires it to be
 * stable. The model fixes one stable algorithm, insertion from the right:
 * `SortBy` specifies it as a function and `SortInPlace` runs it on an array. The comparator is any
 * function to {-1, 0, 1}; a negative answer puts its first argument first.
 */
module ArraySort {

  /**
   * Insert `x` into `sorted` from the right: it moves left past every element
   * the comparator puts strictly after it, and stops at the first one that
   * it does not.
   */
  function Insert<T>(sorted: seq<T>, x: T, cmp: (T, T) -> int): seq<T>
    decreases |sorted|
  {
    if sorted == [] || cmp(sorted[|sorted| - 1], x) <= 0 then sorted + [x]
    else Insert(sorted[..|sorted| - 1], x, cmp) + [sorted[|sorted| - 1]]
  }

  /** `[...s].sort(cmp)`: each element in turn is inserted into the sorted elements before it. */
  function SortBy<T>(s: seq<T>, cmp: (T, T) -> int): seq<T>
    decreases |s|
  {
    if s == [] then [] else Insert(SortBy(s[..|s| - 1], cmp), s[|s| - 1], cmp)
  }

  lemma {:induction false} InsertPermutes<T>(sorted: seq<T>, x: T, cmp: (T, T) -> int)
    ensures multiset(Insert(sorted, x, cmp)) == multiset(sorted) + multiset{x}
    decreases |sorted|
  {
    if sorted != [] && cmp(sorted[|sorted| - 1], x) > 0 {
      var init, last := sorted[..|sorted| - 1], sorted[|sorted| - 1];
      InsertPermutes(init, x, cmp);
      assert sorted == init + [last];
    }
  }

  /** The result is a permutation of the input. */
  lemma {:induction false} SortPermutes<T>(s: seq<T>, cmp: (T, T) -> int)
    ensures multiset(SortBy(s, cmp)) == multiset(s)
    ensures |SortBy(s, cmp)| == |s|
    decreases |s|
  {
    if s != [] {
      var init, last := s[..|s| - 1], s[|s| - 1];
      SortPermutes(init, cmp);
      InsertPermutes(SortBy(init, cmp), last, cmp);
      assert s == init + [last];
    }
  }

  // ---------------------------------------------------------------------------
  // Stability
  // ---------------------------------------------------------------------------

  /** The elements of `s` whose key is `v`, in the order of `s`. */
  ghost function WithKey<T, K>(s: seq<T>, key: T -> K, v: K): seq<T>
    decreases |s|
  {
    if s == [] then []
    else WithKey(s[..|s| - 1], key, v) + (if key(s[|s| - 1]) == v then [s[|s| - 1]] else [])
  }

  lemma {:induction false} WithKeyAppend<T, K>(s: seq<T>, x: T, key: T -> K, v: K)
    ensures WithKey(s + [x], key, v) == WithKey(s, key, v) + (if key(x) == v then [x] else [])
  {
    assert (s + [x])[..|s|] == s;
  }

  /** The comparator answers 0 for any two elements with equal keys. */
  ghost predicate TiesOnEqualKeys<T(!new), K>(cmp: (T, T) -> int, key: T -> K)
  {
    forall a, b :: key(a) == key(b) ==> cmp(a, b) == 0
  }

  lemma {:induction false} InsertKeepsKeyOrder<T(!new), K>(sorted: seq<T>, x: T, cmp: (T, T) -> int, key: T -> K, v: K)
    requires TiesOnEqualKeys(cmp, key)
    ensures WithKey(Insert(sorted, x, cmp), key, v) == WithKey(sorted, key, v) + (if key(x) == v then [x] else [])
    decreases |sorted|
  {
    if sorted == [] || cmp(sorted[|sorted| - 1], x) <= 0 {
      WithKeyAppend(sorted, x, key, v);
    } else {
      var init, last := sorted[..|sorted| - 1], sorted[|sorted| - 1];
      assert key(last) != key(x);
      InsertKeepsKeyOrder(init, x, cmp, key, v);
      WithKeyAppend(Insert(init, x, cmp), last, key, v);
      WithKeyAppend(init, last, key, v);
      assert sorted == init + [last];
    }
  }

  /**
   * Stability: when elements with equal keys always tie, the elements with
   * any one key come out in their input order.
   */
  lemma {:induction false} SortIsStable<T(!new), K>(s: seq<T>, cmp: (T, T) -> int, key: T -> K, v: K)
    requires TiesOnEqualKeys(cmp, key)
    ensures WithKey(SortBy(s, cmp), key, v) == WithKey(s, key, v)
    decreases |s|
  {
    if s != [] {
      var init, last := s[..|s| - 1], s[|s| - 1];
      SortIsStable(init, cmp, key, v);
      InsertKeepsKeyOrder(SortBy(init, cmp), last, cmp, key, v);
      WithKeyAppend(init, last, key, v);
      assert s == init + [last];
    }
  }

  /** When every pair of elements ties, the elements come out in input order. */
  lemma {:induction false} SortKeepsTiedElements<T>(s: seq<T>, cmp: (T, T) -> int)
    requires forall i, j | 0 <= i < |s| && 0 <= j < |s| :: cmp(s[i], s[j]) == 0
    ensures SortBy(s, cmp) == s
    decreases |s|
  {
    if s != [] {
      var init, last := s[..|s| - 1], s[|s| - 1];
      SortKeepsTiedElements(init, cmp);
      assert s == init + [last];
      if init != [] {
        assert cmp(init[|init| - 1], last) == 0;
      }
    }
  }

  // ---------------------------------------------------------------------------
  // Order of the result for a consistent comparator
  // ---------------------------------------------------------------------------

  /** The comparator never puts a later element strictly before an earlier one. */
  predicate Sorted<T>(s: seq<T>, cmp: (T, T) -> int)
  {
    forall i, j | 0 <= i < j < |s| :: cmp(s[i], s[j]) <= 0
  }

  /** On the elements of `s`, "no later than" (`cmp <= 0`) is a total preorder. */
  ghost predicate TotalPreorderOn<T>(s: seq<T>, cmp: (T, T) -> int)
  {
    (forall x, y {:trigger cmp(x, y)} | x in s && y in s :: cmp(x, y) > 0 ==> cmp(y, x) <= 0) &&
    (forall x, y, z {:trigger cmp(x, y), cmp(y, z)} | x in s && y in s && z in s ::
       cmp(x, y) <= 0 && cmp(y, z) <= 0 ==> cmp(x, z) <= 0)
  }

  lemma TotalPreorderOnSubset<T>(s: seq<T>, t: seq<T>, cmp: (T, T) -> int)
    requires TotalPreorderOn(s, cmp)
    requires forall x | x in t :: x in s
    ensures TotalPreorderOn(t, cmp)
  {
  }

  /** Appending an element that no earlier element is put after keeps the sequence sorted. */
  lemma AppendSorted<T>(sorted: seq<T>, x: T, cmp: (T, T) -> int)
    requires Sorted(sorted, cmp)
    requires TotalPreorderOn(sorted + [x], cmp)
    requires sorted == [] || cmp(sorted[|sorted| - 1], x) <= 0
    ensures Sorted(sorted + [x], cmp)
  {
    var s := sorted + [x];
    forall i, j | 0 <= i < j < |s| ensures cmp(s[i], s[j]) <= 0 {
      if j == |sorted| && i < |sorted| - 1 {
        var last := sorted[|sorted| - 1];
        assert s[i] in s && last in s && x in s;
        assert cmp(s[i], last) <= 0;
      }
    }
  }

  /** Every element of `r` is `x` or an element of `init`, so none is put after `last`. */
  lemma NoneAfter<T>(init: seq<T>, last: T, x: T, r: seq<T>, cmp: (T, T) -> int)
    requires multiset(r) == multiset(init) + multiset{x}
    requires forall m | 0 <= m < |init| :: cmp(init[m], last) <= 0
    requires cmp(x, last) <= 0
    ensures forall k | 0 <= k < |r| :: cmp(r[k], last) <= 0
  {
    forall k | 0 <= k < |r| ensures cmp(r[k], last) <= 0 {
      assert r[k] in multiset(r);
      if r[k] != x {
        assert r[k] in multiset(init);
        var m :| 0 <= m < |init| && init[m] == r[k];
      }
    }
  }

  /** Appending an element that every element is put no later than keeps the sequence sorted. */
  lemma AppendAfterAll<T>(r: seq<T>, last: T, cmp: (T, T) -> int)
    requires Sorted(r, cmp)
    requires forall k | 0 <= k < |r| :: cmp(r[k], last) <= 0
    ensures Sorted(r + [last], cmp)
  {
    var s := r + [last];
    forall i, j | 0 <= i < j < |s| ensures cmp(s[i], s[j]) <= 0 {
      assert s[i] == r[i];
      if j < |r| {
        assert s[j] == r[j];
      }
    }
  }

  lemma {:induction false} InsertSorted<T>(sorted: seq<T>, x: T, cmp: (T, T) -> int)
    requires Sorted(sorted, cmp)
    requires TotalPreorderOn(sorted + [x], cmp)
    ensures Sorted(Insert(sorted, x, cmp), cmp)
    decreases |sorted|
  {
    if sorted == [] || cmp(sorted[|sorted| - 1], x) <= 0 {
      AppendSorted(sorted, x, cmp);
    } else {
      var init, last := sorted[..|sorted| - 1], sorted[|sorted| - 1];
      assert sorted == init + [last];
      assert cmp(x, last) <= 0 by {
        assert last in sorted + [x] && x in sorted + [x];
      }
      assert forall m | 0 <= m < |init| :: cmp(init[m], last) <= 0 by {
        forall m | 0 <= m < |init| ensures cmp(init[m], last) <= 0 {
          assert init[m] == sorted[m];
        }
      }
      TotalPreorderOnSubset(sorted + [x], init + [x], cmp);
      InsertSorted(init, x, cmp);
      InsertPermutes(init, x, cmp);
      NoneAfter(init, last, x, Insert(init, x, cmp), cmp);
      AppendAfterAll(Insert(init, x, cmp), last, cmp);
    }
  }

  /** With a comparator that is a total preorder on the input, the result is sorted. */
  lemma {:induction false} SortSorts<T>(s: seq<T>, cmp: (T, T) -> int)
    requires TotalPreorderOn(s, cmp)
    ensures Sorted(SortBy(s, cmp), cmp)
    decreases |s|
  {
    if s != [] {
      var init, last := s[..|s| - 1], s[|s| - 1];
      assert s == init + [last];
      TotalPreorderOnSubset(s, init, cmp);
      SortSorts(init, cmp);
      var r := SortBy(init, cmp);
      SortPermutes(init, cmp);
      assert forall x | x in r + [last] :: x in s by {
        forall x | x in r + [last] ensures x in s {
          if x != last {
            assert x in multiset(r);
          }
        }
      }
      TotalPreorderOnSubset(s, r + [last], cmp);
      InsertSorted(r, last, cmp);
    }
  }

  // ---------------------------------------------------------------------------
  // The sort, run in place
  // ---------------------------------------------------------------------------

  /**
   * Where `Insert` puts `x`: after the first `j` elements, when every element
   * from position `j` on is put strictly after `x` and the one before is not.
   */
  lemma {:induction false} InsertAt<T>(sorted: seq<T>, x: T, j: nat, cmp: (T, T) -> int)
    requires j <= |sorted|
    requires forall k | j <= k < |sorted| :: cmp(sorted[k], x) > 0
    requires j == 0 || cmp(sorted[j - 1], x) <= 0
    ensures Insert(sorted, x, cmp) == sorted[..j] + [x] + sorted[j..]
    decreases |sorted|
  {
    if j < |sorted| {
      var init := sorted[..|sorted| - 1];
      assert init[..j] == sorted[..j];
      assert j > 0 ==> init[j - 1] == sorted[j - 1];
      InsertAt(init, x, j, cmp);
      assert sorted[j..] == init[j..] + [sorted[|sorted| - 1]];
    } else {
      assert sorted[..j] == sorted && sorted[j..] == [];
    }
  }

  lemma SortByPrefix<T>(s: seq<T>, i: nat, cmp: (T, T) -> int)
    requires i < |s|
    ensures SortBy(s[..i + 1], cmp) == Insert(SortBy(s[..i], cmp), s[i], cmp)
  {
    assert s[..i + 1][..i] == s[..i];
  }

  /**
   * One step of the sort: `a[i]` moves left into the sorted elements
   * `a[..i]`; each element the comparator puts strictly after it shifts one
   * place right.
   */
  method InsertInPlace<T>(a: array<T>, i: nat, cmp: (T, T) -> int)
    requires i < a.Length
    modifies a
    ensures a[..i + 1] == Insert(old(a[..i]), old(a[i]), cmp)
    ensures a[i + 1..] == old(a[i + 1..])
  {
    var x := a[i];
    ghost var sorted := a[..i];
    var j := i;
    while j > 0 && cmp(a[j - 1], x) > 0
      invariant 0 <= j <= i
      invariant forall k | 0 <= k < j :: a[k] == sorted[k]
      invariant forall k | j < k <= i :: a[k] == sorted[k - 1]
      invariant forall k | j <= k < i :: cmp(sorted[k], x) > 0
      invariant forall k | i < k < a.Length :: a[k] == old(a[k])
    {
      a[j] := a[j - 1];
      j := j - 1;
    }
    a[j] := x;
    InsertAt(sorted, x, j, cmp);
    assert a[..i + 1] == sorted[..j] + [x] + sorted[j..];
    assert a[i + 1..] == old(a[i + 1..]);
  }

  /** Sorts `a` in place; the result is the one `SortBy` specifies. */
  method SortInPlace<T>(a: array<T>, cmp: (T, T) -> int)
    modifies a
    ensures a[..] == SortBy(old(a[..]), cmp)
  {
    ghost var input := a[..];
    var i := 0;
    while i < a.Length
      invariant 0 <= i <= a.Length
      invariant a[..i] == SortBy(input[..i], cmp)
      invariant a[i..] == input[i..]
    {
      assert a[i] == input[i];
      InsertInPlace(a, i, cmp);
      SortByPrefix(input, i, cmp);
      i := i + 1;
    }
    assert a[..] == a[..a.Length] && input == input[..a.Length];
  }
}
