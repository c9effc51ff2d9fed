/** `Array.prototype.filter` and `findIndex` over sequences. */
module Seqs {
  import opened Wrappers

  /** The elements of `s` that satisfy `p`, in their original order. */
  function Filter<T>(s: seq<T>, p: T -> bool): (r: seq<T>)
    ensures |r| <= |s|
    ensures forall i :: 0 <= i < |r| ==> r[i] in s && p(r[i])
    ensures forall i :: 0 <= i < |s| && p(s[i]) ==> s[i] in r
  {
    if s == [] then []
    else
      var rest := Filter(s[1..], p);
      assert forall i :: 0 < i < |s| ==> s[i] == s[1..][i - 1];
      if p(s[0]) then [s[0]] + rest else rest
  }

  /** Filtering keeps order: it distributes over concatenation. */
  lemma {:induction false} FilterAppend<T>(s: seq<T>, t: seq<T>, p: T -> bool)
    ensures Filter(s + t, p) == Filter(s, p) + Filter(t, p)
    decreases |s|
  {
    if s == [] {
      assert s + t == t;
    } else {
      var st := s + t;
      assert st[0] == s[0];
      assert st[1..] == s[1..] + t;
      FilterAppend(s[1..], t, p);
    }
  }

  /** Filtering one element keeps it exactly when it passes. */
  lemma FilterSingle<T>(x: T, p: T -> bool)
    ensures Filter([x], p) == if p(x) then [x] else []
  {
    assert [x][1..] == [];
  }

  /** A filter keeps all of a sequence exactly when every element passes. */
  lemma {:induction false} FilterAll<T>(s: seq<T>, p: T -> bool)
    requires forall i :: 0 <= i < |s| ==> p(s[i])
    ensures Filter(s, p) == s
    decreases |s|
  {
    if s != [] {
      FilterAll(s[1..], p);
    }
  }

  /** Filtering never adds copies: each element keeps at most its multiplicity. */
  lemma {:induction false} FilterMultiset<T>(s: seq<T>, p: T -> bool)
    ensures multiset(Filter(s, p)) <= multiset(s)
    decreases |s|
  {
    if s != [] {
      FilterMultiset(s[1..], p);
      assert s == [s[0]] + s[1..];
    }
  }

  /** The value of an option as a sequence of zero or one elements. */
  function OptionSeq<T>(o: Option<T>): (r: seq<T>)
    ensures |r| <= 1 && (r == [] <==> o.None?)
  {
    if o.Some? then [o.value] else []
  }

  /** The defined results of `f` on the elements of `s`, in their original order. */
  function FilterMap<T, U>(s: seq<T>, f: T -> Option<U>): (r: seq<U>)
    ensures |r| <= |s|
  {
    if s == [] then [] else OptionSeq(f(s[0])) + FilterMap(s[1..], f)
  }

  /** Mapping keeps order: it distributes over concatenation. */
  lemma {:induction false} FilterMapAppend<T, U>(s: seq<T>, t: seq<T>, f: T -> Option<U>)
    ensures FilterMap(s + t, f) == FilterMap(s, f) + FilterMap(t, f)
    decreases |s|
  {
    if s == [] {
      assert s + t == t;
    } else {
      var st := s + t;
      assert st[0] == s[0];
      assert st[1..] == s[1..] + t;
      FilterMapAppend(s[1..], t, f);
      var head := OptionSeq(f(s[0]));
      var rest1, rest2 := FilterMap(s[1..], f), FilterMap(t, f);
      assert head + (rest1 + rest2) == (head + rest1) + rest2;
    }
  }

  /** Every result is the defined result of `f` on some element. */
  lemma {:induction false} FilterMapFrom<T, U>(s: seq<T>, f: T -> Option<U>)
    ensures forall k :: 0 <= k < |FilterMap(s, f)| ==> exists i :: 0 <= i < |s| && f(s[i]) == Some(FilterMap(s, f)[k])
    decreases |s|
  {
    if s != [] {
      var tail := s[1..];
      FilterMapFrom(tail, f);
      var r := FilterMap(s, f);
      var front := OptionSeq(f(s[0]));
      var rest := FilterMap(tail, f);
      assert r == front + rest;
      forall k | 0 <= k < |r|
        ensures exists i :: 0 <= i < |s| && f(s[i]) == Some(r[k])
      {
        if k < |front| {
          assert f(s[0]) == Some(r[k]);
        } else {
          var j := k - |front|;
          assert r[k] == rest[j] && 0 <= j < |FilterMap(tail, f)|;
          assert exists i :: 0 <= i < |tail| && f(tail[i]) == Some(FilterMap(tail, f)[j]);
          var i :| 0 <= i < |tail| && f(tail[i]) == Some(rest[j]);
          assert f(s[i + 1]) == Some(r[k]);
        }
      }
    } else {
      assert FilterMap(s, f) == [];
    }
  }

  /** `s.findIndex(p)`: the first position satisfying `p`, or `None` for `-1`. */
  function FindIndex<T>(s: seq<T>, p: T -> bool): (r: Option<nat>)
    ensures r.Some? ==> r.value < |s| && p(s[r.value])
    ensures r.Some? ==> forall j :: 0 <= j < r.value ==> !p(s[j])
    ensures r.None? <==> forall j :: 0 <= j < |s| ==> !p(s[j])
  {
    if s == [] then None
    else if p(s[0]) then Some(0)
    else
      match FindIndex(s[1..], p)
      case None => None
      case Some(k) => Some(k + 1)
  }

  /** `findIndex` only looks at what the predicate says of each position. */
  lemma {:induction false} FindIndexSameAnswers<T, U>(s: seq<T>, p: T -> bool, t: seq<U>, q: U -> bool)
    requires |s| == |t|
    requires forall k :: 0 <= k < |s| ==> p(s[k]) == q(t[k])
    ensures FindIndex(s, p) == FindIndex(t, q)
    decreases |s|
  {
    if s != [] && !p(s[0]) {
      FindIndexSameAnswers(s[1..], p, t[1..], q);
    }
  }
}
