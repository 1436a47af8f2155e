/** Array.prototype.filter and the order-preserving subsequence relation it produces. */
module Seqs {

  /** `a` can be obtained from `b` by deleting elements, without reordering. */
  predicate IsSubsequence<T(==)>(a: seq<T>, b: seq<T>)
    decreases |b|
  {
    if a == [] then true
    else if b == [] then false
    else if a[0] == b[0] then IsSubsequence(a[1..], b[1..])
    else IsSubsequence(a, b[1..])
  }

  /** `s.filter(p)`: the elements of `s` satisfying `p`, in their original order. */
  function Filter<T(==)>(p: T -> bool, s: seq<T>): (r: seq<T>)
    ensures |r| <= |s|
    ensures forall k :: 0 <= k < |r| ==> r[k] in s && p(r[k])
    ensures forall k :: 0 <= k < |s| && p(s[k]) ==> s[k] in r
    ensures IsSubsequence(r, s)
    decreases |s|
  {
    if s == [] then []
    else if p(s[0]) then [s[0]] + Filter(p, s[1..])
    else Filter(p, s[1..])
  }

  /**
   * Filtering keeps every copy of an element that satisfies `p` and no copy of
   * one that does not: repeated elements are not merged.
   */
  lemma {:induction false} FilterCounts<T>(p: T -> bool, s: seq<T>)
    ensures forall x :: multiset(Filter(p, s))[x] == if p(x) then multiset(s)[x] else 0
    decreases |s|
  {
    if s != [] {
      var t := s[1..];
      FilterCounts(p, t);
      assert s == [s[0]] + t;
      assert multiset(s) == multiset([s[0]]) + multiset(t);
      if p(s[0]) {
        assert multiset(Filter(p, s)) == multiset([s[0]]) + multiset(Filter(p, t));
      }
    }
  }

  /** When the first `n` elements satisfy `p` and the rest do not, filtering keeps exactly the first `n`. */
  lemma {:induction false} FilterPrefix<T>(p: T -> bool, s: seq<T>, n: nat)
    requires n <= |s|
    requires forall k :: 0 <= k < n ==> p(s[k])
    requires forall k :: n <= k < |s| ==> !p(s[k])
    ensures Filter(p, s) == s[..n]
    decreases n
  {
    if n == 0 {
      FilterKeepsNone(p, s);
    } else {
      var t := s[1..];
      assert forall k :: 0 <= k < n - 1 ==> p(t[k]) by {
        forall k | 0 <= k < n - 1 ensures p(t[k]) { assert t[k] == s[k + 1]; }
      }
      assert forall k :: n - 1 <= k < |t| ==> !p(t[k]) by {
        forall k | n - 1 <= k < |t| ensures !p(t[k]) { assert t[k] == s[k + 1]; }
      }
      FilterPrefix(p, t, n - 1);
      assert p(s[0]) && Filter(p, s) == [s[0]] + Filter(p, t);
      assert s[..n] == [s[0]] + t[..n - 1];
    }
  }

  lemma {:induction false} SubsequenceRefl<T>(s: seq<T>)
    ensures IsSubsequence(s, s)
    decreases |s|
  {
    if s != [] { SubsequenceRefl(s[1..]); }
  }

  /** Dropping elements from the end of a subsequence keeps it a subsequence. */
  lemma {:induction false} SubsequencePrefix<T>(a: seq<T>, b: seq<T>, n: nat)
    requires IsSubsequence(a, b)
    requires n <= |a|
    ensures IsSubsequence(a[..n], b)
    decreases |b|
  {
    if n == 0 || a == [] {
    } else if a[0] == b[0] {
      SubsequencePrefix(a[1..], b[1..], n - 1);
      assert a[..n][1..] == a[1..][..n - 1];
    } else {
      SubsequencePrefix(a, b[1..], n);
      assert a[..n][0] == a[0];
    }
  }

  /** Filtering with a predicate that every element satisfies changes nothing. */
  lemma {:induction false} FilterKeepsAll<T>(p: T -> bool, s: seq<T>)
    requires forall k :: 0 <= k < |s| ==> p(s[k])
    ensures Filter(p, s) == s
    decreases |s|
  {
    if s != [] { FilterKeepsAll(p, s[1..]); }
  }

  /** Filtering with a predicate that no element satisfies gives the empty list. */
  lemma {:induction false} FilterKeepsNone<T>(p: T -> bool, s: seq<T>)
    requires forall k :: 0 <= k < |s| ==> !p(s[k])
    ensures Filter(p, s) == []
    decreases |s|
  {
    if s != [] { FilterKeepsNone(p, s[1..]); }
  }

  /** The elements kept by `p` and by its negation together account for every element. */
  lemma {:induction false} FilterComplementLength<T>(p: T -> bool, q: T -> bool, s: seq<T>)
    requires forall k :: 0 <= k < |s| ==> q(s[k]) == !p(s[k])
    ensures |Filter(p, s)| + |Filter(q, s)| == |s|
    decreases |s|
  {
    if s != [] { FilterComplementLength(p, q, s[1..]); }
  }

  /** No two elements of `xs` share a key. */
  predicate DistinctBy<T>(key: T -> string, xs: seq<T>) {
    forall i, j :: 0 <= i < j < |xs| ==> key(xs[i]) != key(xs[j])
  }

  /** Filtering keeps keys distinct. */
  lemma {:induction false} FilterDistinct<T>(key: T -> string, p: T -> bool, xs: seq<T>)
    requires DistinctBy(key, xs)
    ensures DistinctBy(key, Filter(p, xs))
    decreases |xs|
  {
    if xs != [] {
      var t := xs[1..];
      assert DistinctBy(key, t) by {
        forall i, j | 0 <= i < j < |t| ensures key(t[i]) != key(t[j]) {
          assert t[i] == xs[i + 1] && t[j] == xs[j + 1];
        }
      }
      FilterDistinct(key, p, t);
      var f := Filter(p, t);
      if p(xs[0]) {
        forall j | 0 <= j < |f| ensures key(xs[0]) != key(f[j]) {
          var m :| 0 <= m < |t| && t[m] == f[j];
          assert xs[m + 1] == f[j];
        }
        DistinctCons(key, xs[0], f);
        assert Filter(p, xs) == [xs[0]] + f;
      } else {
        assert Filter(p, xs) == f;
      }
    }
  }

  /** Putting an element with a new key in front of a list with distinct keys keeps them distinct. */
  lemma DistinctCons<T>(key: T -> string, x: T, f: seq<T>)
    requires DistinctBy(key, f)
    requires forall j :: 0 <= j < |f| ==> key(x) != key(f[j])
    ensures DistinctBy(key, [x] + f)
  {
    var r := [x] + f;
    forall i, j | 0 <= i < j < |r| ensures key(r[i]) != key(r[j]) {
      assert r[j] == f[j - 1];
      if i > 0 { assert r[i] == f[i - 1]; }
    }
  }
}
