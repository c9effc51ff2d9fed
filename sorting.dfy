/**
 * `Array.prototype.sort` with a comparator, as the badge code uses it.
 *
 * A comparator returns a number: negative when its first argument goes
 * first, positive when its second does, zero when their order is kept.
 * JavaScript's sort is stable, so for a consistent comparator its result is
 * exactly that of a stable insertion sort, which is what `SortBy` computes:
 * each element is inserted after every element already placed that the
 * comparator does not put after it.
 */
module Sorting {
  import opened Seqs

  /** Inserts `x` into `s`, after every trailing element the comparator does not put after `x`. */
  function Insert<T>(s: seq<T>, x: T, cmp: (T, T) -> int): (r: seq<T>)
    ensures |r| == |s| + 1
  {
    if s == [] then [x]
    else if cmp(s[|s| - 1], x) <= 0 then s + [x]
    else Insert(s[..|s| - 1], x, cmp) + [s[|s| - 1]]
  }

  /** Inserting adds exactly the inserted element. */
  lemma {:induction false} InsertPermutes<T>(s: seq<T>, x: T, cmp: (T, T) -> int)
    ensures multiset(Insert(s, x, cmp)) == multiset(s) + multiset{x}
    decreases |s|
  {
    if s != [] && cmp(s[|s| - 1], x) > 0 {
      var init := s[..|s| - 1];
      assert s == init + [s[|s| - 1]];
      InsertPermutes(init, x, cmp);
    }
  }

  /** The stable sort of `s` by `cmp`; a permutation of `s`. */
  function SortBy<T>(s: seq<T>, cmp: (T, T) -> int): (r: seq<T>)
    ensures |r| == |s|
    ensures multiset(r) == multiset(s)
  {
    if s == [] then []
    else
      var init := s[..|s| - 1];
      assert s == init + [s[|s| - 1]];
      InsertPermutes(SortBy(init, cmp), s[|s| - 1], cmp);
      Insert(SortBy(init, cmp), s[|s| - 1], cmp)
  }

  /** No element is put after a later one. */
  ghost predicate Sorted<T>(s: seq<T>, cmp: (T, T) -> int) {
    forall i, j :: 0 <= i < j < |s| ==> cmp(s[i], s[j]) <= 0
  }

  /**
   * The comparator is consistent on the elements of `s`: of any two, one
   * may go first, and "may go first" is transitive.
   */
  ghost predicate PreorderOn<T>(cmp: (T, T) -> int, s: seq<T>) {
    && (forall a, b :: a in s && b in s ==> cmp(a, b) <= 0 || cmp(b, a) <= 0)
    && (forall a, b, c :: a in s && b in s && c in s && cmp(a, b) <= 0 && cmp(b, c) <= 0 ==> cmp(a, c) <= 0)
  }

  lemma PreorderOnSubset<T>(cmp: (T, T) -> int, s: seq<T>, t: seq<T>)
    requires PreorderOn(cmp, s)
    requires forall a :: a in t ==> a in s
    ensures PreorderOn(cmp, t)
  {
  }

  /** Appending an element that no earlier element is put after keeps a sequence sorted. */
  lemma AppendKeepsSorted<T>(s: seq<T>, x: T, cmp: (T, T) -> int)
    requires Sorted(s, cmp)
    requires forall k :: 0 <= k < |s| ==> cmp(s[k], x) <= 0
    ensures Sorted(s + [x], cmp)
  {
    var r := s + [x];
    forall i, j | 0 <= i < j < |r| ensures cmp(r[i], r[j]) <= 0 {
      if j < |s| {
        assert r[i] == s[i] && r[j] == s[j];
      }
    }
  }

  /** Every element of `Insert(s, x)` is one of `s` or `x`, so a bound on those bounds it. */
  lemma InsertBelow<T>(s: seq<T>, x: T, y: T, cmp: (T, T) -> int)
    requires forall k :: 0 <= k < |s| ==> cmp(s[k], y) <= 0
    requires cmp(x, y) <= 0
    ensures forall k :: 0 <= k < |Insert(s, x, cmp)| ==> cmp(Insert(s, x, cmp)[k], y) <= 0
  {
    var q := Insert(s, x, cmp);
    InsertPermutes(s, x, cmp);
    forall k | 0 <= k < |q| ensures cmp(q[k], y) <= 0 {
      assert q[k] in multiset(q);
      if q[k] != x {
        assert q[k] in multiset(s);
        var m :| 0 <= m < |s| && s[m] == q[k];
      }
    }
  }

  /** When `x` goes after the last element, `Insert` appends it and the result stays sorted. */
  lemma AppendAfterLast<T>(s: seq<T>, x: T, cmp: (T, T) -> int)
    requires Sorted(s, cmp) && s != []
    requires PreorderOn(cmp, s + [x])
    requires cmp(s[|s| - 1], x) <= 0
    ensures Sorted(s + [x], cmp)
  {
    var n := |s|;
    var t := s + [x];
    forall k | 0 <= k < n ensures cmp(s[k], x) <= 0 {
      if k < n - 1 {
        assert t[k] == s[k] && t[n - 1] == s[n - 1] && t[n] == x;
        assert cmp(s[k], s[n - 1]) <= 0;
      }
    }
    AppendKeepsSorted(s, x, cmp);
  }

  lemma {:induction false} InsertKeepsSorted<T>(s: seq<T>, x: T, cmp: (T, T) -> int)
    requires Sorted(s, cmp)
    requires PreorderOn(cmp, s + [x])
    ensures Sorted(Insert(s, x, cmp), cmp)
    decreases |s|
  {
    if s != [] {
      var n := |s|;
      var last := s[n - 1];
      if cmp(last, x) <= 0 {
        AppendAfterLast(s, x, cmp);
      } else {
        var t := s + [x];
        var init := s[..n - 1];
        assert t[n - 1] == last && t[n] == x;
        assert cmp(x, last) <= 0;
        assert forall a :: a in init + [x] ==> a in t;
        PreorderOnSubset(cmp, t, init + [x]);
        InsertKeepsSorted(init, x, cmp);
        InsertBelow(init, x, last, cmp);
        AppendKeepsSorted(Insert(init, x, cmp), last, cmp);
      }
    }
  }

  /** Under a consistent comparator the sort's result is sorted. */
  lemma {:induction false} SortBySorted<T>(s: seq<T>, cmp: (T, T) -> int)
    requires PreorderOn(cmp, s)
    ensures Sorted(SortBy(s, cmp), cmp)
    decreases |s|
  {
    if s != [] {
      var init := s[..|s| - 1];
      var last := s[|s| - 1];
      assert s == init + [last];
      PreorderOnSubset(cmp, s, init);
      SortBySorted(init, cmp);
      var q := SortBy(init, cmp);
      forall a | a in q + [last] ensures a in s {
        if a != last {
          assert a in multiset(q);
          assert a in multiset(init);
        }
      }
      PreorderOnSubset(cmp, s, q + [last]);
      InsertKeepsSorted(q, last, cmp);
    }
  }

  /** A sequence the comparator already accepts is left as it is: the sort is stable. */
  lemma {:induction false} SortByOfSorted<T>(s: seq<T>, cmp: (T, T) -> int)
    requires Sorted(s, cmp)
    ensures SortBy(s, cmp) == s
    decreases |s|
  {
    if s != [] {
      var init := s[..|s| - 1];
      var last := s[|s| - 1];
      assert Sorted(init, cmp) by {
        forall i, j | 0 <= i < j < |init| ensures cmp(init[i], init[j]) <= 0 {
          assert init[i] == s[i] && init[j] == s[j];
        }
      }
      SortByOfSorted(init, cmp);
      assert SortBy(s, cmp) == Insert(init, last, cmp);
      if init != [] {
        assert cmp(init[|init| - 1], last) <= 0;
      }
      assert s == init + [last];
    }
  }

  /** The elements the comparator ties with `x`: neither goes before the other. */
  function Ties<T>(cmp: (T, T) -> int, x: T): T -> bool {
    (y: T) => cmp(y, x) <= 0 && cmp(x, y) <= 0
  }

  /**
   * Inserting `e` keeps the order among the elements passing `p`: it lands
   * after every one of them, provided none of them is put after `e` when
   * `e` passes too.
   */
  lemma {:induction false} InsertKeepsTies<T>(t: seq<T>, e: T, cmp: (T, T) -> int, p: T -> bool)
    requires forall a :: a in t && p(a) && p(e) ==> cmp(a, e) <= 0
    ensures Filter(Insert(t, e, cmp), p) == Filter(t, p) + (if p(e) then [e] else [])
    decreases |t|
  {
    var tail: seq<T> := if p(e) then [e] else [];
    FilterSingle(e, p);
    if t == [] {
      assert Filter([e], p) == tail;
    } else {
      var init, last := t[..|t| - 1], t[|t| - 1];
      assert t == init + [last];
      FilterAppend(init, [last], p);
      FilterSingle(last, p);
      var front, mid := Filter(init, p), Filter([last], p);
      if cmp(last, e) <= 0 {
        FilterAppend(t, [e], p);
      } else {
        assert Insert(t, e, cmp) == Insert(init, e, cmp) + [last];
        InsertKeepsTies(init, e, cmp, p);
        FilterAppend(Insert(init, e, cmp), [last], p);
        assert mid == [] || tail == [];
        SwapAroundEmpty(front, tail, mid);
      }
    }
  }

  /** Two sequences, one of them empty, can be appended in either order. */
  lemma SwapAroundEmpty<T>(front: seq<T>, x: seq<T>, y: seq<T>)
    requires x == [] || y == []
    ensures front + x + y == front + y + x
  {
    if x == [] {
      assert front + x == front && front + y + x == front + y;
    } else {
      assert front + y == front && front + x + y == front + x;
    }
  }

  /**
   * The sort is stable: the elements tied with any `x` come out in the
   * order they went in.
   */
  lemma {:induction false} SortByStable<T>(s: seq<T>, cmp: (T, T) -> int, x: T)
    requires PreorderOn(cmp, s + [x])
    ensures Filter(SortBy(s, cmp), Ties(cmp, x)) == Filter(s, Ties(cmp, x))
    decreases |s|
  {
    if s != [] {
      var init, last := s[..|s| - 1], s[|s| - 1];
      assert s == init + [last];
      PreorderOnSubset(cmp, s + [x], init + [x]);
      SortByStable(init, cmp, x);
      var sorted := SortBy(init, cmp);
      forall a | a in sorted && Ties(cmp, x)(a) && Ties(cmp, x)(last) ensures cmp(a, last) <= 0 {
        assert a in multiset(init);
        assert a in s + [x] && x in s + [x] && last in s + [x];
      }
      InsertKeepsTies(sorted, last, cmp, Ties(cmp, x));
      FilterAppend(init, [last], Ties(cmp, x));
      assert Filter([last], Ties(cmp, x)) == (if Ties(cmp, x)(last) then [last] else []);
    }
  }

  /** Sorting twice with a consistent comparator is sorting once. */
  lemma SortByIdempotent<T>(s: seq<T>, cmp: (T, T) -> int)
    requires PreorderOn(cmp, s)
    ensures SortBy(SortBy(s, cmp), cmp) == SortBy(s, cmp)
  {
    SortBySorted(s, cmp);
    SortByOfSorted(SortBy(s, cmp), cmp);
  }

  /** A comparator that answers 0 everywhere leaves every sequence unchanged. */
  lemma SortByZeroComparator<T>(s: seq<T>, cmp: (T, T) -> int)
    requires forall a, b :: cmp(a, b) == 0
    ensures SortBy(s, cmp) == s
  {
    SortByOfSorted(s, cmp);
  }

  /** One step of the insertion loop: `x` moves left past an element put after it. */
  lemma InsertShiftStep<T>(p: seq<T>, j: nat, x: T, cmp: (T, T) -> int)
    requires 0 < j <= |p| && cmp(p[j - 1], x) > 0
    ensures Insert(p[..j], x, cmp) + p[j..] == Insert(p[..j - 1], x, cmp) + p[j - 1..]
  {
    assert p[..j][..j - 1] == p[..j - 1];
    assert p[j - 1..] == [p[j - 1]] + p[j..];
  }

  /** Inserting `x` behind a run of elements all put after it is inserting it into what precedes the run. */
  lemma {:induction false} InsertBeforeRun<T>(p: seq<T>, m: nat, x: T, cmp: (T, T) -> int)
    requires m <= |p|
    requires forall k :: m <= k < |p| ==> cmp(p[k], x) > 0
    ensures Insert(p, x, cmp) == Insert(p[..m], x, cmp) + p[m..]
    decreases |p| - m
  {
    if m == |p| {
      assert p[..m] == p && p[m..] == [];
    } else {
      InsertBeforeRun(p, m + 1, x, cmp);
      InsertShiftStep(p, m + 1, x, cmp);
    }
  }

  /** Where the insertion loop stops, `x` goes in: after everything not put after it. */
  lemma InsertBehind<T>(p: seq<T>, j: nat, x: T, cmp: (T, T) -> int)
    requires j <= |p| && (j == 0 || cmp(p[j - 1], x) <= 0)
    requires forall k :: j <= k < |p| ==> cmp(p[k], x) > 0
    ensures Insert(p, x, cmp) == p[..j] + [x] + p[j..]
  {
    InsertBeforeRun(p, j, x, cmp);
    InsertStopStep(p, j, x, cmp);
  }

  /** The insertion loop stops in front of an element not put after `x`, or at the start. */
  lemma InsertStopStep<T>(p: seq<T>, j: nat, x: T, cmp: (T, T) -> int)
    requires j <= |p| && (j == 0 || cmp(p[j - 1], x) <= 0)
    ensures Insert(p[..j], x, cmp) + p[j..] == p[..j] + [x] + p[j..]
  {
    if j > 0 {
      assert p[..j][..j - 1] == p[..j - 1];
    }
  }

  lemma SortByPrefixStep<T>(s: seq<T>, i: nat, cmp: (T, T) -> int)
    requires i < |s|
    ensures SortBy(s[..i + 1], cmp) == Insert(SortBy(s[..i], cmp), s[i], cmp)
  {
    assert s[..i + 1][..i] == s[..i];
  }

  /** A sequence that agrees with `p` before `j`, holds `x` at `j` and `p` shifted after it is `p` with `x` spliced in. */
  lemma SplicedAt<T>(b: seq<T>, p: seq<T>, j: nat, x: T)
    requires j <= |p| && |b| == |p| + 1
    requires forall k :: 0 <= k < j ==> b[k] == p[k]
    requires b[j] == x
    requires forall k :: j < k < |b| ==> b[k] == p[k - 1]
    ensures b == p[..j] + [x] + p[j..]
  {
    var q := p[..j] + [x] + p[j..];
    forall k | 0 <= k < |b| ensures b[k] == q[k] {
      if k < j {
        assert q[k] == p[k];
      } else if j < k {
        assert q[k] == p[k - 1];
      }
    }
  }

  /** One pass of the in-place sort: moves `a[i]` left into the sorted prefix `a[..i]`. */
  method InsertInPlace<T>(a: array<T>, i: nat, cmp: (T, T) -> int)
    requires i < a.Length
    modifies a
    ensures a[..i + 1] == Insert(old(a[..i]), old(a[i]), cmp)
    ensures forall k :: i < k < a.Length ==> a[k] == old(a[k])
  {
    var x := a[i];
    ghost var p := a[..i];
    var j := i;
    while j > 0 && cmp(a[j - 1], x) > 0
      invariant 0 <= j <= i
      invariant forall k :: 0 <= k < j ==> a[k] == p[k]
      invariant forall k :: j < k <= i ==> a[k] == p[k - 1]
      invariant forall k :: i < k < a.Length ==> a[k] == old(a[k])
      invariant forall k :: j <= k < i ==> cmp(p[k], x) > 0
    {
      a[j] := a[j - 1];
      j := j - 1;
    }
    InsertBehind(p, j, x, cmp);
    a[j] := x;
    SplicedAt(a[..i + 1], p, j, x);
  }

  /** `a.sort(cmp)`: sorts the array in place, as the stable sort of its old contents. */
  method SortInPlace<T>(a: array<T>, cmp: (T, T) -> int)
    modifies a
    ensures a[..] == SortBy(old(a[..]), cmp)
  {
    ghost var s := a[..];
    var i := 0;
    while i < a.Length
      invariant 0 <= i <= a.Length
      invariant a[..i] == SortBy(s[..i], cmp)
      invariant forall k :: i <= k < a.Length ==> a[k] == s[k]
    {
      InsertInPlace(a, i, cmp);
      SortByPrefixStep(s, i, cmp);
      i := i + 1;
    }
    assert a[..] == a[..a.Length];
    assert s[..a.Length] == s;
  }
}
