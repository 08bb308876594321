/**
 * The orderings visited by the swap-and-undo recursion of permutacao (Grafos.c), and
 * what they cover: every rearrangement of the array, each once, (n - start)! in all.
 * The same enumeration stands in for next_permutation in Grafo.cpp.
 */
module Orderings {
  import opened Vertices
  /** `s` with its entries at i and j exchanged. */
  function Swap(s: seq<int>, i: int, j: int): (r: seq<int>)
    requires 0 <= i < |s| && 0 <= j < |s|
    ensures |r| == |s| && r[i] == s[j] && r[j] == s[i]
    ensures forall k :: 0 <= k < |s| && k != i && k != j ==> r[k] == s[k]
  {
    s[i := s[j]][j := s[i]]
  }

  lemma SwapMultiset(s: seq<int>, i: int, j: int)
    requires 0 <= i < |s| && 0 <= j < |s|
    ensures multiset(Swap(s, i, j)) == multiset(s)
  {
  }

  /** k!, with the product written as repeated addition (see FactStep). */
  function Fact(k: nat): (r: nat)
    ensures r >= 1
  {
    if k == 0 then 1 else Times(k, Fact(k - 1))
  }

  /** m copies of f added up. */
  function Times(m: nat, f: nat): (r: nat)
    ensures m >= 1 && f >= 1 ==> r >= 1
  {
    if m == 0 then 0 else f + Times(m - 1, f)
  }

  /**
   * The arrangements permutacao(…, start, …) passes to verificaCiclo, in order, when
   * the array holds `s`: for i from start, swap positions start and i and arrange
   * the rest; at start == |s| the array itself.
   */
  function Leaves(s: seq<int>, start: nat): seq<seq<int>>
    requires start <= |s|
    decreases |s| - start, 1, 0
  {
    if start == |s| then [s] else LeavesFrom(s, start, start)
  }

  /** The arrangements produced by the iterations i, i + 1, …, |s| - 1 of the loop. */
  function LeavesFrom(s: seq<int>, start: nat, i: nat): seq<seq<int>>
    requires start < |s| && start <= i <= |s|
    decreases |s| - start, 0, |s| - i
  {
    if i == |s| then [] else Leaves(Swap(s, start, i), start + 1) + LeavesFrom(s, start, i + 1)
  }

  /** 0, 1, …, n - 1. */
  function Identity(n: nat): (r: seq<int>)
    ensures |r| == n && forall k :: 0 <= k < n ==> r[k] == k
  {
    seq(n, k => k)
  }

  // ---------------------------------------------------------------------------
  // What the enumeration covers
  // ---------------------------------------------------------------------------

  /** There are (|s| - start)! arrangements. */
  lemma {:induction false} LeavesCount(s: seq<int>, start: nat)
    requires start <= |s|
    ensures |Leaves(s, start)| == Fact(|s| - start)
    decreases |s| - start, 1, 0
  {
    if start < |s| {
      LeavesFromCount(s, start, start);
    }
  }

  lemma {:induction false} LeavesFromCount(s: seq<int>, start: nat, i: nat)
    requires start < |s| && start <= i <= |s|
    ensures |LeavesFrom(s, start, i)| == Times(|s| - i, Fact(|s| - start - 1))
    decreases |s| - start, 0, |s| - i
  {
    if i < |s| {
      var t := Swap(s, start, i);
      var f := Fact(|s| - start - 1);
      LeavesCount(t, start + 1);
      LeavesFromCount(s, start, i + 1);
      assert |LeavesFrom(s, start, i)| == f + Times(|s| - (i + 1), f);
    }
  }

  /** Fact is the factorial: k! == k * (k - 1)!. */
  lemma FactStep(k: nat)
    requires k >= 1
    ensures Fact(k) == k * Fact(k - 1)
  {
    TimesIsMul(k, Fact(k - 1));
  }

  lemma {:induction false} TimesIsMul(m: nat, f: nat)
    ensures Times(m, f) == m * f
  {
    if m > 0 {
      TimesIsMul(m - 1, f);
      MulSucc(m - 1, f);
    }
  }

  lemma MulSucc(m: int, f: int)
    ensures (m + 1) * f == f + m * f
  {
  }

  /** An arrangement of `s` that keeps its first `start` entries. */
  ghost predicate Rearranges(p: seq<int>, s: seq<int>, start: nat)
    requires start <= |s|
  {
    |p| == |s| && p[..start] == s[..start] && multiset(p) == multiset(s)
  }

  /** Every arrangement produced is a rearrangement of `s` that keeps its first `start` entries. */
  lemma {:induction false} LeavesRearrange(s: seq<int>, start: nat)
    requires start <= |s|
    ensures forall p :: p in Leaves(s, start) ==> Rearranges(p, s, start)
    decreases |s| - start, 1, 0
  {
    if start < |s| {
      LeavesFromRearrange(s, start, start);
    }
  }

  lemma {:induction false} LeavesFromRearrange(s: seq<int>, start: nat, i: nat)
    requires start < |s| && start <= i <= |s|
    ensures forall p :: p in LeavesFrom(s, start, i) ==>
      Rearranges(p, s, start) && exists j :: i <= j < |s| && p[start] == s[j]
    decreases |s| - start, 0, |s| - i
  {
    if i < |s| {
      var t := Swap(s, start, i);
      SwapMultiset(s, start, i);
      LeavesRearrange(t, start + 1);
      LeavesFromRearrange(s, start, i + 1);
      forall p | p in Leaves(t, start + 1)
        ensures Rearranges(p, s, start) && p[start] == s[i]
      {
        assert p[..start + 1] == t[..start + 1];
        assert p[..start] == p[..start + 1][..start];
        assert t[..start] == s[..start];
        assert p[start] == p[..start + 1][start];
      }
    }
  }

  /**
   * Every rearrangement of `s` that keeps its first `start` entries is produced:
   * the enumeration is complete.
   */
  lemma {:induction false} LeavesComplete(s: seq<int>, start: nat, p: seq<int>)
    requires start <= |s| && Rearranges(p, s, start)
    ensures p in Leaves(s, start)
    decreases |s| - start, 1, 0
  {
    if start == |s| {
      assert p == p[..start] && s == s[..start];
    } else {
      var x := p[start];
      assert p == p[..start] + p[start..] && s == s[..start] + s[start..];
      assert multiset(p)[x] == multiset(p[..start])[x] + multiset(p[start..])[x];
      assert multiset(s)[x] == multiset(s[..start])[x] + multiset(s[start..])[x];
      assert x in multiset(p[start..]) by {
        assert x == p[start..][0];
      }
      assert x in multiset(s[start..]);
      var j' :| 0 <= j' < |s| - start && s[start..][j'] == x;
      var j := start + j';
      LeavesFromComplete(s, start, start, j, p);
    }
  }

  lemma {:induction false} LeavesFromComplete(s: seq<int>, start: nat, i: nat, j: nat, p: seq<int>)
    requires start < |s| && start <= i <= j < |s|
    requires Rearranges(p, s, start) && p[start] == s[j]
    ensures p in LeavesFrom(s, start, i)
    decreases |s| - start, 0, |s| - i
  {
    if i < j {
      LeavesFromComplete(s, start, i + 1, j, p);
    } else {
      var t := Swap(s, start, j);
      SwapMultiset(s, start, j);
      assert Rearranges(p, t, start + 1) by {
        assert p[..start + 1] == p[..start] + [p[start]];
        assert t[..start + 1] == t[..start] + [t[start]];
        assert t[..start] == s[..start];
      }
      LeavesComplete(t, start + 1, p);
    }
  }

  ghost predicate NoDuplicates(ps: seq<seq<int>>)
  {
    forall a, b :: 0 <= a < b < |ps| ==> ps[a] != ps[b]
  }

  lemma SwapDistinct(s: seq<int>, i: int, j: int)
    requires 0 <= i < |s| && 0 <= j < |s| && Distinct(s)
    ensures Distinct(Swap(s, i, j))
  {
    var t := Swap(s, i, j);
    forall k, l | 0 <= k < l < |t| ensures t[k] != t[l] {
      var k' := if k == i then j else if k == j then i else k;
      var l' := if l == i then j else if l == j then i else l;
      assert t[k] == s[k'] && t[l] == s[l'] && k' != l';
    }
  }

  /** When the entries of `s` are distinct, no arrangement is produced twice. */
  lemma {:induction false} LeavesNoDuplicates(s: seq<int>, start: nat)
    requires start <= |s| && Distinct(s)
    ensures NoDuplicates(Leaves(s, start))
    decreases |s| - start, 1, 0
  {
    if start < |s| {
      LeavesFromNoDuplicates(s, start, start);
    }
  }

  lemma {:induction false} LeavesFromNoDuplicates(s: seq<int>, start: nat, i: nat)
    requires start < |s| && start <= i <= |s| && Distinct(s)
    ensures NoDuplicates(LeavesFrom(s, start, i))
    decreases |s| - start, 0, |s| - i
  {
    if i < |s| {
      var t := Swap(s, start, i);
      var first := Leaves(t, start + 1);
      var rest := LeavesFrom(s, start, i + 1);
      SwapDistinct(s, start, i);
      LeavesNoDuplicates(t, start + 1);
      LeavesFromNoDuplicates(s, start, i + 1);
      LeavesRearrange(t, start + 1);
      LeavesFromRearrange(s, start, i + 1);
      var all := first + rest;
      forall a, b | 0 <= a < b < |all| ensures all[a] != all[b] {
        if b < |first| {
          assert all[a] == first[a] && all[b] == first[b];
        } else if a >= |first| {
          assert all[a] == rest[a - |first|] && all[b] == rest[b - |first|];
        } else {
          var p, q := first[a], rest[b - |first|];
          assert all[a] == p && all[b] == q;
          assert p in first && q in rest;
          assert p[..start + 1] == t[..start + 1];
          assert p[start] == p[..start + 1][start] == t[start] == s[i];
          var j :| i + 1 <= j < |s| && q[start] == s[j];
        }
      }
    }
  }

  /**
   * What contarCiclosPorPermutacao enumerates: every ordering of 0..n-1, each exactly
   * once, n! in all.
   */
  lemma AllOrderingsOnce(n: nat)
    ensures |Leaves(Identity(n), 0)| == Fact(n)
    ensures NoDuplicates(Leaves(Identity(n), 0))
    ensures forall p :: p in Leaves(Identity(n), 0) <==> Rearranges(p, Identity(n), 0)
  {
    LeavesCount(Identity(n), 0);
    LeavesNoDuplicates(Identity(n), 0);
    LeavesRearrange(Identity(n), 0);
    forall p | Rearranges(p, Identity(n), 0) ensures p in Leaves(Identity(n), 0) {
      LeavesComplete(Identity(n), 0, p);
    }
  }

  /** The entries of `s` that do not occur in `c`, in their order in `s`. */
  function Without(s: seq<int>, c: seq<int>): (r: seq<int>)
    ensures forall x :: multiset(r)[x] == if x in c then 0 else multiset(s)[x]
  {
    if s == [] then []
    else
      assert s == [s[0]] + s[1..];
      (if s[0] in c then [] else [s[0]]) + Without(s[1..], c)
  }

  /** Every vertex occurs once in the identity arrangement, and nothing else does. */
  lemma IdentityCount(n: nat, x: int)
    ensures multiset(Identity(n))[x] == if 0 <= x < n then 1 else 0
  {
    MultiplicityOfDistinct(Identity(n), x);
    if 0 <= x < n {
      assert Identity(n)[x] == x;
    }
  }

  /**
   * Distinct vertices below n, put in front of the remaining vertices in ascending
   * order, give an ordering of all of them that begins with `c`.
   */
  lemma ExtendToOrdering(n: nat, c: seq<int>) returns (p: seq<int>)
    requires InRange(c, n) && Distinct(c)
    ensures Rearranges(p, Identity(n), 0) && |c| <= |p| && p[..|c|] == c
  {
    p := c + Without(Identity(n), c);
    forall x ensures multiset(p)[x] == multiset(Identity(n))[x] {
      IdentityCount(n, x);
      MultiplicityOfDistinct(c, x);
      if x in c {
        assert multiset(c)[x] >= 1;
      }
    }
    assert multiset(p) == multiset(Identity(n));
    assert |p| == |Identity(n)| by {
      assert |multiset(p)| == |p| && |multiset(Identity(n))| == |Identity(n)|;
    }
    assert p[..|c|] == c;
  }

  /** Every ordering enumerated from the identity is a list of the n distinct vertices. */
  lemma OrderingsOfVertices(n: nat)
    ensures forall p :: p in Leaves(Identity(n), 0) ==> |p| == n && InRange(p, n) && Distinct(p)
  {
    LeavesRearrange(Identity(n), 0);
    forall p | p in Leaves(Identity(n), 0) ensures |p| == n && InRange(p, n) && Distinct(p) {
      SameEntries(p, Identity(n), n);
    }
  }
}
