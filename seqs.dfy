/** The array operations the handlers are written with, `filter` and `map`,
    over immutable sequences. */
module Seqs {

  /** The elements of `s` that satisfy `p`, in their original order. */
  function Filter<T(!new)>(s: seq<T>, p: T -> bool): (r: seq<T>)
    ensures |r| <= |s|
    ensures forall x :: x in r <==> x in s && p(x)
  {
    if s == [] then []
    else if p(s[0]) then [s[0]] + Filter(s[1..], p)
    else Filter(s[1..], p)
  }

  /** Filtering keeps every passing element as often as it occurs: a
      duplicate that passes is not merged, one that fails is dropped. */
  lemma {:induction false} FilterMultiplicity<T(!new)>(s: seq<T>, p: T -> bool)
    ensures forall x :: multiset(Filter(s, p))[x] == if p(x) then multiset(s)[x] else 0
  {
    if s != [] {
      assert s == [s[0]] + s[1..];
      FilterMultiplicity(s[1..], p);
    }
  }

  /** `f` applied to every element, in order. */
  function Map<T, U>(s: seq<T>, f: T -> U): (r: seq<U>)
    ensures |r| == |s|
    ensures forall i :: 0 <= i < |s| ==> r[i] == f(s[i])
  {
    if s == [] then [] else [f(s[0])] + Map(s[1..], f)
  }

  lemma {:induction false} FilterConcat<T(!new)>(a: seq<T>, b: seq<T>, p: T -> bool)
    ensures Filter(a + b, p) == Filter(a, p) + Filter(b, p)
  {
    if a == [] {
      assert a + b == b;
    } else {
      assert (a + b)[1..] == a[1..] + b;
      FilterConcat(a[1..], b, p);
    }
  }

  /** Filtering keeps a sequence whose elements all pass. */
  lemma {:induction false} FilterAll<T(!new)>(s: seq<T>, p: T -> bool)
    requires forall x :: x in s ==> p(x)
    ensures Filter(s, p) == s
  {
    if s != [] {
      FilterAll(s[1..], p);
    }
  }

  /** Filtering by a stronger predicate after a weaker one is filtering by the
      stronger one alone; with q == p this is idempotence. */
  lemma {:induction false} FilterFilter<T(!new)>(s: seq<T>, p: T -> bool, q: T -> bool)
    requires forall x :: x in s && q(x) ==> p(x)
    ensures Filter(Filter(s, p), q) == Filter(s, q)
  {
    if s != [] {
      FilterFilter(s[1..], p, q);
      if p(s[0]) {
        assert Filter(s, p) == [s[0]] + Filter(s[1..], p);
        FilterConcat([s[0]], Filter(s[1..], p), q);
      }
    }
  }

  /** A map that fixes every element passing `p` and never lets another
      element pass leaves the `p`-part of the sequence as it was. */
  lemma {:induction false} FilterMap<T(!new)>(s: seq<T>, f: T -> T, p: T -> bool)
    requires forall x :: x in s && p(x) ==> f(x) == x
    requires forall x :: x in s && !p(x) ==> !p(f(x))
    ensures Filter(Map(s, f), p) == Filter(s, p)
  {
    if s != [] {
      FilterMap(s[1..], f, p);
      assert Map(s, f) == [f(s[0])] + Map(s[1..], f);
      FilterConcat([f(s[0])], Map(s[1..], f), p);
    }
  }

  /** A map that fixes every element is the identity. */
  lemma MapIdentity<T>(s: seq<T>, f: T -> T)
    requires forall x :: x in s ==> f(x) == x
    ensures Map(s, f) == s
  {
    assert forall i :: 0 <= i < |s| ==> Map(s, f)[i] == s[i];
  }

  /** Filtering drops a sequence none of whose elements pass. */
  lemma {:induction false} FilterNone<T(!new)>(s: seq<T>, p: T -> bool)
    requires forall x :: x in s ==> !p(x)
    ensures Filter(s, p) == []
  {
    if s != [] {
      FilterNone(s[1..], p);
    }
  }

  /** No two positions of `s` share a key. */
  ghost predicate DistinctKeys<T, K>(s: seq<T>, key: T -> K) {
    forall i, j :: 0 <= i < j < |s| ==> key(s[i]) != key(s[j])
  }

  lemma {:induction false} FilterDistinct<T(!new), K>(s: seq<T>, p: T -> bool, key: T -> K)
    requires DistinctKeys(s, key)
    ensures DistinctKeys(Filter(s, p), key)
  {
    if s != [] {
      var t := Filter(s[1..], p);
      FilterDistinct(s[1..], p, key);
      if p(s[0]) {
        var r := Filter(s, p);
        assert r == [s[0]] + t;
        forall i, j | 0 <= i < j < |r|
          ensures key(r[i]) != key(r[j])
        {
          if i == 0 {
            assert r[j] == t[j - 1] && r[j] in s[1..];
            var k :| 1 <= k < |s| && s[k] == r[j];
          } else {
            assert r[i] == t[i - 1] && r[j] == t[j - 1];
          }
        }
      }
    }
  }

  lemma ConcatDistinct<T, K>(a: seq<T>, b: seq<T>, key: T -> K)
    requires DistinctKeys(a, key) && DistinctKeys(b, key)
    requires forall i, j :: 0 <= i < |a| && 0 <= j < |b| ==> key(a[i]) != key(b[j])
    ensures DistinctKeys(a + b, key)
  {
    var c := a + b;
    forall i, j | 0 <= i < j < |c|
      ensures key(c[i]) != key(c[j])
    {
      if j < |a| {
      } else if i >= |a| {
        assert c[i] == b[i - |a|] && c[j] == b[j - |a|];
      } else {
        assert c[j] == b[j - |a|];
      }
    }
  }

  lemma MapDistinct<T, K>(s: seq<T>, f: T -> T, key: T -> K)
    requires DistinctKeys(s, key)
    requires forall x :: x in s ==> key(f(x)) == key(x)
    ensures DistinctKeys(Map(s, f), key)
  {
    var r := Map(s, f);
    forall i, j | 0 <= i < j < |r|
      ensures key(r[i]) != key(r[j])
    {
      assert r[i] == f(s[i]) && r[j] == f(s[j]);
    }
  }
}
