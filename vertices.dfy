/**
 * Sequences of vertex numbers: range, distinctness and the pigeonhole bound; and the
 * range of the 32-bit C `int` that holds vertex counts and counters.
 */
module Vertices {

  const INT_MIN: int := -0x8000_0000
  const INT_MAX: int := 0x7fff_ffff

  ghost predicate InRange(s: seq<int>, n: int)
  {
    forall k :: 0 <= k < |s| ==> 0 <= s[k] < n
  }

  ghost predicate Distinct(s: seq<int>)
  {
    forall k, l :: 0 <= k < l < |s| ==> s[k] != s[l]
  }

  /** Pigeonhole: a sequence of distinct vertices below n has at most n entries. */
  lemma DistinctFitsRange(s: seq<int>, n: int)
    requires 0 <= n && Distinct(s) && InRange(s, n)
    ensures |s| <= n
  {
    var elems := set k | k in s;
    var range := Below(n);
    DistinctSetCard(s);
    assert elems <= range;
    assert range == elems + (range - elems) && elems * (range - elems) == {};
  }

  lemma {:induction false} DistinctSetCard(s: seq<int>)
    requires Distinct(s)
    ensures |set k | k in s| == |s|
  {
    if s != [] {
      var init := s[..|s| - 1];
      var last := s[|s| - 1];
      assert Distinct(init);
      DistinctSetCard(init);
      assert (set k | k in s) == (set k | k in init) + {last};
      assert last !in (set k | k in init);
    }
  }

  /** The vertices 0..n-1 as a set. */
  function Below(n: int): (r: set<int>)
    ensures forall k :: k in r <==> 0 <= k < n
    ensures |r| == if n < 0 then 0 else n
    decreases n
  {
    if n <= 0 then {} else Below(n - 1) + {n - 1}
  }

  /** A value at two positions occurs at least twice. */
  lemma RepeatedEntry(r: seq<int>, k: int, l: int)
    requires 0 <= k < l < |r| && r[k] == r[l]
    ensures multiset(r)[r[k]] >= 2
  {
    assert r == r[..l] + r[l..];
    assert r[k] in multiset(r[..l]) by { assert r[..l][k] == r[k]; }
    assert r[l] in multiset(r[l..]) by { assert r[l..][0] == r[l]; }
  }

  /** In a sequence with distinct entries every value occurs at most once. */
  lemma {:induction false} MultiplicityOfDistinct(s: seq<int>, x: int)
    requires Distinct(s)
    ensures multiset(s)[x] <= 1
    decreases |s|
  {
    if s != [] {
      assert s == [s[0]] + s[1..];
      MultiplicityOfDistinct(s[1..], x);
      if s[0] == x {
        assert x !in s[1..];
      }
    }
  }

  /** Rearranging a sequence keeps its entries distinct and in range. */
  lemma SameEntries(p: seq<int>, s: seq<int>, n: int)
    requires multiset(p) == multiset(s)
    ensures Distinct(s) ==> Distinct(p)
    ensures InRange(s, n) ==> InRange(p, n)
  {
    if Distinct(s) {
      forall k, l | 0 <= k < l < |p| ensures p[k] != p[l] {
        if p[k] == p[l] {
          RepeatedEntry(p, k, l);
          MultiplicityOfDistinct(s, p[k]);
          assert false;
        }
      }
    }
    if InRange(s, n) {
      forall k | 0 <= k < |p| ensures 0 <= p[k] < n {
        assert p[k] in multiset(s);
      }
    }
  }
}
