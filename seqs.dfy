/**
 * The iterator adaptors the connection layer uses over result sets:
 * `filter`, `find` (the first match), `any`, and the notion of an
 * order-preserving subsequence used to state what a filter or a join keeps.
 */
module Seqs {
  import opened Wrappers

  /** `a` is `b` with some elements left out and the rest in their original order. */
  ghost predicate IsSubsequence<T>(a: seq<T>, b: seq<T>)
    decreases |b|
  {
    a == []
    || (b != [] && ((a[|a| - 1] == b[|b| - 1] && IsSubsequence(a[..|a| - 1], b[..|b| - 1]))
                    || IsSubsequence(a, b[..|b| - 1])))
  }

  /** `Iterator::filter` followed by `collect`: the elements satisfying `p`, in order. */
  function Filter<T(!new)>(s: seq<T>, p: T -> bool): (r: seq<T>)
    ensures |r| <= |s|
    ensures forall x :: x in r <==> x in s && p(x)
    ensures IsSubsequence(r, s)
  {
    if s == [] then []
    else
      var init, last := s[..|s| - 1], s[|s| - 1];
      assert s == init + [last];
      var kept := Filter(init, p);
      if p(last) then
        assert (kept + [last])[..|kept|] == kept;
        kept + [last]
      else
        kept
  }

  /** A filter that keeps every element is the identity. */
  lemma {:induction false} FilterAll<T(!new)>(s: seq<T>, p: T -> bool)
    requires forall x :: x in s ==> p(x)
    ensures Filter(s, p) == s
  {
    if s != [] {
      FilterAll(s[..|s| - 1], p);
      assert s == s[..|s| - 1] + [s[|s| - 1]];
    }
  }

  /** A filter that keeps no element is empty. */
  lemma {:induction false} FilterNone<T(!new)>(s: seq<T>, p: T -> bool)
    requires forall i :: 0 <= i < |s| ==> !p(s[i])
    ensures Filter(s, p) == []
  {
    if s != [] {
      FilterNone(s[..|s| - 1], p);
    }
  }

  /** Counting splits along any second predicate. */
  lemma {:induction false} FilterSplit<T(!new)>(s: seq<T>, p: T -> bool, q: T -> bool, pq: T -> bool, pNotQ: T -> bool)
    requires forall x :: pq(x) == (p(x) && q(x))
    requires forall x :: pNotQ(x) == (p(x) && !q(x))
    ensures |Filter(s, p)| == |Filter(s, pq)| + |Filter(s, pNotQ)|
  {
    if s != [] {
      FilterSplit(s[..|s| - 1], p, q, pq, pNotQ);
    }
  }

  /** Filtering twice is filtering once by both predicates. */
  lemma {:induction false} FilterFilter<T(!new)>(s: seq<T>, p: T -> bool, q: T -> bool, pq: T -> bool)
    requires forall x :: pq(x) == (p(x) && q(x))
    ensures Filter(Filter(s, p), q) == Filter(s, pq)
  {
    if s != [] {
      var init, last := s[..|s| - 1], s[|s| - 1];
      FilterFilter(init, p, q, pq);
      var kept := Filter(init, p);
      if p(last) {
        assert Filter(s, p) == kept + [last];
        assert (kept + [last])[..|kept|] == kept;
      }
    }
  }

  /** The index of the first element satisfying `p` (`Iterator::position`). */
  function FindIndex<T>(s: seq<T>, p: T -> bool): (r: Option<nat>)
    ensures r.Some? ==> r.value < |s| && p(s[r.value])
    ensures r.Some? ==> forall j :: 0 <= j < r.value ==> !p(s[j])
    ensures r.None? <==> forall j :: 0 <= j < |s| ==> !p(s[j])
  {
    if s == [] then None
    else if p(s[0]) then Some(0)
    else match FindIndex(s[1..], p)
      case None => None
      case Some(k) => Some(k + 1)
  }

  /** `Iterator::find`: the first element satisfying `p`, if any. */
  function First<T(!new)>(s: seq<T>, p: T -> bool): (r: Option<T>)
    ensures r.Some? ==> r.value in s && p(r.value)
    ensures r.None? <==> forall x :: x in s ==> !p(x)
  {
    match FindIndex(s, p)
    case None => None
    case Some(k) => Some(s[k])
  }

  /** `First` returns the element at the first matching position. */
  lemma FirstIsAtFindIndex<T(!new)>(s: seq<T>, p: T -> bool)
    ensures First(s, p).Some? ==> FindIndex(s, p).Some? && First(s, p).value == s[FindIndex(s, p).value]
  {
  }

  /** `x` is the first element of `s` satisfying `p`. */
  ghost predicate FirstWith<T>(s: seq<T>, x: T, p: T -> bool) {
    exists k :: 0 <= k < |s| && s[k] == x && p(x) && forall j :: 0 <= j < k ==> !p(s[j])
  }

  /** `First` finds exactly the first satisfying element. */
  lemma FirstSpec<T(!new)>(s: seq<T>, p: T -> bool, x: T)
    ensures First(s, p) == Some(x) <==> FirstWith(s, x, p)
  {
    if First(s, p) == Some(x) {
      var k := FindIndex(s, p).value;
      assert s[k] == x;
    }
    if FirstWith(s, x, p) {
      var k :| 0 <= k < |s| && s[k] == x && p(x) && forall j :: 0 <= j < k ==> !p(s[j]);
      var m := FindIndex(s, p).value;
      assert m == k;
    }
  }

  /** The head of a filter is the first satisfying element. */
  lemma {:induction false} FilterHeadIsFirst<T(!new)>(s: seq<T>, p: T -> bool)
    ensures Filter(s, p) != [] ==> First(s, p) == Some(Filter(s, p)[0])
  {
    if s != [] {
      var init, last := s[..|s| - 1], s[|s| - 1];
      assert s == init + [last];
      FilterHeadIsFirst(init, p);
      var kept := Filter(init, p);
      if kept != [] {
        assert Filter(s, p)[0] == kept[0] by {
          if p(last) {
            assert Filter(s, p) == kept + [last];
          }
        }
        FirstOfExtension(init, last, p, kept[0]);
      } else if p(last) {
        assert Filter(s, p) == [last];
        FirstIsLast(init, last, p);
      }
    }
  }

  /** Appending an element keeps the first match of a prefix. */
  lemma FirstOfExtension<T(!new)>(init: seq<T>, last: T, p: T -> bool, x: T)
    requires First(init, p) == Some(x)
    ensures First(init + [last], p) == Some(x)
  {
    FirstSpec(init, p, x);
    var k :| 0 <= k < |init| && init[k] == x && p(x) && forall j :: 0 <= j < k ==> !p(init[j]);
    var s := init + [last];
    assert s[k] == x;
    assert forall j :: 0 <= j < k ==> s[j] == init[j];
    assert FirstWith(s, x, p);
    FirstSpec(s, p, x);
  }

  /** When no element of a prefix matches, the appended match is the first. */
  lemma FirstIsLast<T(!new)>(init: seq<T>, last: T, p: T -> bool)
    requires Filter(init, p) == [] && p(last)
    ensures First(init + [last], p) == Some(last)
  {
    var s := init + [last];
    forall j | 0 <= j < |init| ensures !p(s[j]) {
      assert s[j] == init[j];
      assert init[j] in init;
    }
    assert s[|init|] == last;
    assert FirstWith(s, last, p);
    FirstSpec(s, p, last);
  }

  /** `Iterator::any`. */
  function Any<T>(s: seq<T>, p: T -> bool): (r: bool)
    ensures r <==> exists i :: 0 <= i < |s| && p(s[i])
  {
    if s == [] then false
    else p(s[0]) || (assert forall i :: 0 <= i < |s| - 1 ==> s[1..][i] == s[i + 1]; Any(s[1..], p))
  }

  /** No two elements share a key. */
  predicate DistinctBy<T, K(==)>(s: seq<T>, key: T -> K) {
    forall i, j :: 0 <= i < j < |s| ==> key(s[i]) != key(s[j])
  }

  /** Filtering keeps keys distinct. */
  lemma {:induction false} FilterKeepsDistinct<T(!new), K>(s: seq<T>, p: T -> bool, key: T -> K)
    requires DistinctBy(s, key)
    ensures DistinctBy(Filter(s, p), key)
  {
    if s != [] {
      var init, last := s[..|s| - 1], s[|s| - 1];
      FilterKeepsDistinct(init, p, key);
      var kept := Filter(init, p);
      forall x | x in kept ensures key(x) != key(last) {
        var i :| 0 <= i < |init| && init[i] == x;
        assert s[i] == x;
      }
    }
  }

  /** Among elements with distinct keys, at most one carries a given key. */
  lemma AtMostOneWithKey<T, K>(s: seq<T>, key: T -> K, k: K)
    requires DistinctBy(s, key)
    requires forall i :: 0 <= i < |s| ==> key(s[i]) == k
    ensures |s| <= 1
  {
    if |s| >= 2 {
      FirstTwoKeysDiffer(s, key);
    }
  }

  lemma FirstTwoKeysDiffer<T, K>(s: seq<T>, key: T -> K)
    requires DistinctBy(s, key) && |s| >= 2
    ensures key(s[0]) != key(s[1])
  {
  }

  /** Filters by predicates that agree everywhere agree. */
  lemma {:induction false} FilterExt<T(!new)>(s: seq<T>, p: T -> bool, q: T -> bool)
    requires forall x :: p(x) == q(x)
    ensures Filter(s, p) == Filter(s, q)
  {
    if s != [] {
      FilterExt(s[..|s| - 1], p, q);
    }
  }
}
