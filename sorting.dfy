/**
 * The canonical form Grafo.cpp gives a cycle before storing it: the vector of its
 * vertices sorted ascending (std::sort). Two cycles get the same key exactly when
 * they visit the same vertices, whatever the rotation or direction they were found in.
 */
module Sorting {
  import opened Vertices

  ghost predicate Sorted(s: seq<int>)
  {
    forall k, l :: 0 <= k < l < |s| ==> s[k] <= s[l]
  }

  /** `x` placed before the first entry of `s` that is not below it. */
  function Insert(x: int, s: seq<int>): seq<int>
  {
    if s == [] || x <= s[0] then [x] + s else [s[0]] + Insert(x, s[1..])
  }

  /** Insertion sort: each entry, from the last to the first, inserted into the sorted rest. */
  function Sort(s: seq<int>): seq<int>
  {
    if s == [] then [] else Insert(s[|s| - 1], Sort(s[..|s| - 1]))
  }

  /** Inserting into a sorted sequence keeps it sorted and adds exactly x. */
  lemma {:induction false} InsertSpec(x: int, s: seq<int>)
    requires Sorted(s)
    ensures Sorted(Insert(x, s)) && multiset(Insert(x, s)) == multiset(s) + multiset{x}
    decreases |s|
  {
    if s == [] || x <= s[0] {
      LeastFirst(x, s);
    } else {
      DropHead(s);
      var rest := Insert(x, s[1..]);
      InsertSpec(x, s[1..]);
      LowerBound(s[0], rest, s[1..], x);
      LeastFirst(s[0], rest);
      assert multiset([s[0]] + rest) == multiset{s[0]} + multiset(rest);
    }
  }

  /** std::sort's promise: the result is in ascending order and has the same entries. */
  lemma {:induction false} SortSpec(s: seq<int>)
    ensures Sorted(Sort(s)) && multiset(Sort(s)) == multiset(s) && |Sort(s)| == |s|
    decreases |s|
  {
    if s != [] {
      var init := s[..|s| - 1];
      SortSpec(init);
      InsertSpec(s[|s| - 1], Sort(init));
      assert s == init + [s[|s| - 1]];
      assert |multiset(Sort(s))| == |Sort(s)|;
    }
  }

  /** A bound on `y` and on every entry of `u` bounds every entry of a rearrangement of u + [y]. */
  lemma LowerBound(lo: int, t: seq<int>, u: seq<int>, y: int)
    requires multiset(t) == multiset(u) + multiset{y} && lo <= y
    requires forall k :: 0 <= k < |u| ==> lo <= u[k]
    ensures forall k :: 0 <= k < |t| ==> lo <= t[k]
  {
    forall k | 0 <= k < |t| ensures lo <= t[k] {
      assert t[k] in multiset(t);
      if t[k] != y {
        assert t[k] in multiset(u);
      }
    }
  }

  /** A sorted sequence stays sorted behind an entry no larger than all of its own. */
  lemma LeastFirst(x: int, s: seq<int>)
    requires Sorted(s) && forall k :: 0 <= k < |s| ==> x <= s[k]
    ensures Sorted([x] + s)
  {
  }

  /** A sorted sequence is determined by its entries. */
  lemma {:induction false} SortedUnique(a: seq<int>, b: seq<int>)
    requires Sorted(a) && Sorted(b) && multiset(a) == multiset(b)
    ensures a == b
    decreases |a|
  {
    if a == [] {
      assert |multiset(b)| == 0;
    } else {
      SameHead(a, b);
      DropHead(a);
      DropHead(b);
      assert multiset(a[1..]) == multiset(a) - multiset{a[0]};
      SortedUnique(a[1..], b[1..]);
      SameTail(a, b);
    }
  }

  /** Sorted sequences with the same entries start with the same, least, entry. */
  lemma SameHead(a: seq<int>, b: seq<int>)
    requires Sorted(a) && Sorted(b) && multiset(a) == multiset(b) && a != []
    ensures b != [] && a[0] == b[0]
  {
    assert a[0] in multiset(b);
    HeadIsLeast(a, b[0]);
    HeadIsLeast(b, a[0]);
  }

  lemma SameTail(a: seq<int>, b: seq<int>)
    requires a != [] && b != [] && a[0] == b[0] && a[1..] == b[1..]
    ensures a == b
  {
    assert a == [a[0]] + a[1..] && b == [b[0]] + b[1..];
  }

  /** The first entry of a sorted sequence is its least. */
  lemma HeadIsLeast(a: seq<int>, x: int)
    requires Sorted(a) && x in multiset(a)
    ensures a[0] <= x
  {
    var k :| 0 <= k < |a| && a[k] == x;
  }

  /** Dropping the first entry of a sorted sequence leaves a sorted sequence of the others. */
  lemma DropHead(a: seq<int>)
    requires Sorted(a) && a != []
    ensures Sorted(a[1..]) && multiset(a) == multiset{a[0]} + multiset(a[1..])
    ensures forall k :: 0 <= k < |a| - 1 ==> a[0] <= a[1..][k]
  {
    assert a == [a[0]] + a[1..];
  }

  /** Cycles over the same vertices, in any order, get the same key. */
  lemma SameEntriesSameKey(a: seq<int>, b: seq<int>)
    requires multiset(a) == multiset(b)
    ensures Sort(a) == Sort(b)
  {
    SortSpec(a);
    SortSpec(b);
    SortedUnique(Sort(a), Sort(b));
  }

  /** Sorting keeps the entries distinct and strictly increasing when they were distinct. */
  lemma SortDistinct(s: seq<int>)
    requires Distinct(s)
    ensures forall k, l :: 0 <= k < l < |Sort(s)| ==> Sort(s)[k] < Sort(s)[l]
  {
    var r := Sort(s);
    SortSpec(s);
    forall k, l | 0 <= k < l < |r| ensures r[k] < r[l] {
      if r[k] == r[l] {
        RepeatedEntry(r, k, l);
        MultiplicityOfDistinct(s, r[k]);
        assert false;
      }
    }
  }
}
