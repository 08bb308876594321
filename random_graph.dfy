/**
 * generateRandomGraph of Grafo.cpp: draws vertex pairs until the edge set has E
 * members, skipping self loops and pairs already drawn in either orientation, and adds
 * each new pair to the graph. The random generator is an oracle: the sequence of pairs
 * it would produce is a parameter.
 */
module RandomGraph {
  import opened Vertices
  import opened GrafoCpp

  const SIZE_T_MODULUS: int := 0x1_0000_0000_0000_0000

  /**
   * The value the int E takes in `edges.size() < E`: the comparison converts it to the
   * 64-bit unsigned size_t, so a negative E becomes E + 2^64.
   */
  function AsSizeT(E: int): (r: nat)
    requires INT_MIN <= E <= INT_MAX
    ensures r < SIZE_T_MODULUS && (r - E) % SIZE_T_MODULUS == 0
    ensures 0 <= E ==> r == E
  {
    if E < 0 then E + SIZE_T_MODULUS else E
  }

  /** The number of unordered pairs of distinct vertices among n: 0 + 1 + ... + (n - 1). */
  function Pairs(n: int): (r: nat)
    decreases n
  {
    if n <= 0 then 0 else Pairs(n - 1) + (n - 1)
  }

  lemma {:induction false} PairsClosedForm(n: nat)
    ensures 2 * Pairs(n) == n * (n - 1)
  {
    if n > 0 {
      PairsClosedForm(n - 1);
      assert (n - 1) * (n - 2) + 2 * (n - 1) == n * (n - 1);
    }
  }

  /** The pairs (a, b) with 0 <= a < k, all with second vertex b. */
  ghost function Column(b: int, k: int): (r: set<(int, int)>)
    ensures forall x, y :: (x, y) in r <==> 0 <= x < k && y == b
    ensures |r| == if k < 0 then 0 else k
    decreases k
  {
    if k <= 0 then {} else Column(b, k - 1) + {(k - 1, b)}
  }

  /** The pairs (a, b) with 0 <= a < b < n, one per unordered pair of distinct vertices. */
  ghost function UpperPairs(n: int): (r: set<(int, int)>)
    ensures forall x, y :: (x, y) in r <==> 0 <= x < y < n
    ensures |r| == Pairs(n)
    decreases n
  {
    if n <= 0 then {}
    else
      var c := Column(n - 1, n - 1);
      assert UpperPairs(n - 1) * c == {} by {
        forall e | e in c ensures e !in UpperPairs(n - 1) {
          assert e == (e.0, e.1);
        }
      }
      UpperPairs(n - 1) + c
  }

  /** A pair with its vertices in ascending order. */
  function Ordered(u: int, v: int): (r: (int, int))
    ensures {r.0, r.1} == {u, v} && r.0 <= r.1
  {
    if u < v then (u, v) else (v, u)
  }

  lemma SubsetCard<T>(a: set<T>, b: set<T>)
    requires a <= b
    ensures |a| <= |b|
  {
    assert b == a + (b - a) && a * (b - a) == {};
  }

  /**
   * The graph holds the pairs of `edges`: every pair joins two distinct vertices and
   * only one of its orientations is present, each list holds exactly the neighbours
   * the pairs give, once each.
   */
  ghost predicate Holds(adj: seq<seq<int>>, V: int, edges: set<(int, int)>)
  {
    |adj| == V &&
    (forall u, v :: (u, v) in edges ==> 0 <= u < V && 0 <= v < V && u != v && (v, u) !in edges) &&
    (forall u, v :: 0 <= u < V ==> (v in adj[u] <==> (u, v) in edges || (v, u) in edges)) &&
    (forall u :: 0 <= u < V ==> Distinct(adj[u]))
  }

  /**
   * Pairs of distinct vertices below V, none present in both orientations, number at
   * most V(V-1)/2: putting each in ascending order loses none of them.
   */
  lemma {:induction false} EdgesBound(V: int, edges: set<(int, int)>) returns (pairs: set<(int, int)>)
    requires forall u, v :: (u, v) in edges ==> 0 <= u < V && 0 <= v < V && u != v && (v, u) !in edges
    ensures pairs <= UpperPairs(V) && |pairs| == |edges| && |edges| <= Pairs(V)
    ensures forall x, y :: (x, y) in pairs ==> (x, y) in edges || (y, x) in edges
    decreases |edges|
  {
    if edges == {} {
      pairs := {};
    } else {
      var e :| e in edges;
      var rest := edges - {e};
      var pairs0 := EdgesBound(V, rest);
      var o := Ordered(e.0, e.1);
      assert e == (e.0, e.1);
      assert o !in pairs0 by {
        assert o == (e.0, e.1) || o == (e.1, e.0);
      }
      assert o in UpperPairs(V);
      pairs := pairs0 + {o};
      SubsetCard(pairs, UpperPairs(V));
    }
  }

  /** A graph holding `edges` has at most V(V-1)/2 of them. */
  lemma HoldsBound(adj: seq<seq<int>>, V: int, edges: set<(int, int)>)
    requires Holds(adj, V, edges) && V >= 0
    ensures |edges| <= Pairs(V) && 2 * |edges| <= V * (V - 1)
  {
    var pairs := EdgesBound(V, edges);
    PairsClosedForm(V);
  }

  /** Adding a new pair with both list appends keeps the graph in step with the pairs. */
  lemma AddKeepsHolds(adj: seq<seq<int>>, adj': seq<seq<int>>, V: int, edges: set<(int, int)>, u: int, v: int)
    requires Holds(adj, V, edges)
    requires 0 <= u < V && 0 <= v < V && u != v && (u, v) !in edges && (v, u) !in edges
    requires adj' == adj[u := adj[u] + [v]][v := adj[v] + [u]]
    ensures Holds(adj', V, edges + {(u, v)})
  {
    forall w | 0 <= w < V ensures Distinct(adj'[w]) {
      if w == u {
        assert v !in adj[u];
      } else if w == v {
        assert u !in adj[v];
      }
    }
  }

  /**
   * The pairs the loop keeps from the first k drawn pairs of `s`, in order: a pair
   * joins when it is not a self loop and neither orientation was kept before.
   */
  function Accepted(s: seq<(int, int)>, k: nat): set<(int, int)>
    requires k <= |s|
  {
    if k == 0 then {}
    else
      var a := Accepted(s, k - 1);
      var u, v := s[k - 1].0, s[k - 1].1;
      if u != v && (u, v) !in a && (v, u) !in a then a + {(u, v)} else a
  }

  /** Every pair kept was drawn, is not a self loop, and is kept in one orientation only. */
  lemma {:induction false} AcceptedShape(s: seq<(int, int)>, k: nat)
    requires k <= |s|
    ensures forall e :: e in Accepted(s, k) ==> e in s[..k]
    ensures forall u, v :: (u, v) in Accepted(s, k) ==> u != v && (v, u) !in Accepted(s, k)
  {
    if k > 0 {
      AcceptedShape(s, k - 1);
      assert s[..k] == s[..k - 1] + [s[k - 1]];
      assert s[k - 1] == (s[k - 1].0, s[k - 1].1);
    }
  }

  /** Every drawn pair that is not a self loop is kept in one orientation or the other. */
  lemma {:induction false} AcceptedCovers(s: seq<(int, int)>, k: nat)
    requires k <= |s|
    ensures forall i :: 0 <= i < k && s[i].0 != s[i].1 ==>
      s[i] in Accepted(s, k) || (s[i].1, s[i].0) in Accepted(s, k)
  {
    if k > 0 {
      AcceptedCovers(s, k - 1);
      assert Accepted(s, k - 1) <= Accepted(s, k);
      assert s[k - 1] == (s[k - 1].0, s[k - 1].1);
    }
  }

  /** Every drawn pair joins two vertices below V. */
  predicate PairsIn(s: seq<(int, int)>, V: int)
  {
    forall k :: 0 <= k < |s| ==> 0 <= s[k].0 < V && 0 <= s[k].1 < V
  }

  /**
   * The adjacency lists after the first k drawn pairs: each pair `Accepted` keeps is
   * appended to the first vertex's list and then the first vertex to the second's.
   */
  function Lists(V: nat, s: seq<(int, int)>, k: nat): (r: seq<seq<int>>)
    requires k <= |s| && PairsIn(s, V)
    ensures |r| == V
  {
    if k == 0 then seq(V, _ => [])
    else
      var a := Lists(V, s, k - 1);
      var e := Accepted(s, k - 1);
      var u, v := s[k - 1].0, s[k - 1].1;
      if u != v && (u, v) !in e && (v, u) !in e then
        var a' := a[u := a[u] + [v]];
        a'[v := a'[v] + [u]]
      else a
  }

  /** The lists built from the first k drawn pairs hold exactly the pairs kept from them. */
  lemma {:induction false} ListsHold(V: nat, s: seq<(int, int)>, k: nat)
    requires k <= |s| && PairsIn(s, V)
    ensures Holds(Lists(V, s, k), V, Accepted(s, k))
  {
    if k > 0 {
      ListsHold(V, s, k - 1);
      var e := Accepted(s, k - 1);
      var u, v := s[k - 1].0, s[k - 1].1;
      if u != v && (u, v) !in e && (v, u) !in e {
        AddKeepsHolds(Lists(V, s, k - 1), Lists(V, s, k), V, e, u, v);
      }
    }
  }

  /**
   * One turn of generateRandomGraph's loop: the next drawn pair is added to the graph
   * and to `edges` when it is not a self loop and neither orientation is present.
   */
  method Draw(g: Graph, edges: set<(int, int)>, samples: seq<(int, int)>, used: nat)
      returns (edges': set<(int, int)>)
    requires g.Valid() && used < |samples| && PairsIn(samples, g.V)
    requires g.adj == Lists(g.V, samples, used) && edges == Accepted(samples, used)
    modifies g
    ensures g.Valid() && g.V == old(g.V) && g.foundCycles == old(g.foundCycles)
    ensures g.adj == Lists(g.V, samples, used + 1) && edges' == Accepted(samples, used + 1)
  {
    var u, v := samples[used].0, samples[used].1;
    edges' := edges;
    if u != v && (u, v) !in edges && (v, u) !in edges {
      g.AddEdge(u, v);
      edges' := edges + {(u, v)};
    }
  }

  /**
   * The loop of generateRandomGraph: draws pairs from `samples` while there are fewer
   * than `bound` edges and samples remain. The edge set is what `Accepted` keeps from
   * the consumed pairs, and the loop stops at the first pair that brings it to `bound`.
   */
  method DrawEdges(g: Graph, bound: nat, samples: seq<(int, int)>) returns (edges: set<(int, int)>, used: nat)
    requires g.Valid() && PairsIn(samples, g.V) && forall u :: 0 <= u < g.V ==> g.adj[u] == []
    modifies g
    ensures g.Valid() && g.V == old(g.V) && g.foundCycles == old(g.foundCycles)
    ensures used <= |samples| && g.adj == Lists(g.V, samples, used) && edges == Accepted(samples, used)
    ensures used > 0 ==> |Accepted(samples, used - 1)| < bound
    ensures |edges| <= bound && (|edges| < bound ==> used == |samples|)
  {
    edges := {};
    used := 0;
    assert g.adj == Lists(g.V, samples, 0);
    while |edges| < bound && used < |samples|
      invariant g.Valid() && g.V == old(g.V) && g.foundCycles == old(g.foundCycles)
      invariant used <= |samples| && |edges| <= bound
      invariant g.adj == Lists(g.V, samples, used) && edges == Accepted(samples, used)
      invariant used > 0 ==> |Accepted(samples, used - 1)| < bound
      decreases |samples| - used
    {
      assert |Accepted(samples, used)| < bound;
      edges := Draw(g, edges, samples, used);
      used := used + 1;
    }
  }

  /**
   * generateRandomGraph: `samples` is the sequence of pairs dist(gen) would draw and
   * `used` how many of them the loop consumes. The edge set is what `Accepted` keeps
   * from the consumed pairs, and the loop stops at the first pair that brings it to E
   * edges (E read as a size_t) or when the samples run out; since there are at most
   * V(V-1)/2 edges, a larger E can only end by running out.
   */
  method GenerateRandomGraph(V: int, E: int, samples: seq<(int, int)>)
    returns (g: Graph, edges: set<(int, int)>, used: nat)
    requires 1 <= V && INT_MIN <= E <= INT_MAX
    requires forall k :: 0 <= k < |samples| ==> 0 <= samples[k].0 < V && 0 <= samples[k].1 < V
    ensures fresh(g) && g.Valid() && g.V == V && g.foundCycles == {}
    ensures used <= |samples| && edges == Accepted(samples, used)
    ensures used > 0 ==> |Accepted(samples, used - 1)| < AsSizeT(E)
    ensures |edges| <= AsSizeT(E) && (|edges| < AsSizeT(E) ==> used == |samples|)
    ensures 2 * |edges| <= V * (V - 1)
    ensures AsSizeT(E) > Pairs(V) ==> used == |samples|
    ensures Holds(g.adj, V, edges)
  {
    g := new Graph(V);
    edges, used := DrawEdges(g, AsSizeT(E), samples);
    ListsHold(V, samples, used);
    HoldsBound(g.adj, V, edges);
  }
}
