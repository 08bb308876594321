/**
 * The adjacency-matrix graph shared by the two C programs (Grafos.c with a heap
 * matrix, grafo.c with a fixed 10x10 matrix). Both read only the top-left
 * numVertices x numVertices block of `adj`; an entry 1 is an edge.
 *
 * This module holds the value-level vocabulary (edges, simple cycles, closed walks)
 * and the two routines whose text is the same in both programs:
 * adicionarArestasAleatorias and verificaCiclo.
 */
module AdjMatrix {
  import opened Vertices

  /** `n` vertices fit in the matrix. */
  predicate Fits(adj: array2<int>, n: int)
  {
    0 <= n <= adj.Length0 && n <= adj.Length1
  }

  /** The block of an undirected simple graph: entries 0/1, symmetric, no self-loops. */
  ghost predicate Undirected(adj: array2<int>, n: int)
    reads adj
  {
    Fits(adj, n) &&
    (forall u, v :: 0 <= u < n && 0 <= v < n ==> adj[u, v] == adj[v, u]) &&
    (forall u, v :: 0 <= u < n && 0 <= v < n ==> adj[u, v] == 0 || adj[u, v] == 1) &&
    (forall u :: 0 <= u < n ==> adj[u, u] == 0)
  }

  /** Every entry of the block is 0. */
  ghost predicate ZeroBlock(adj: array2<int>, n: int)
    reads adj
  {
    Fits(adj, n) && forall u, v :: 0 <= u < n && 0 <= v < n ==> adj[u, v] == 0
  }

  /**
   * A simple cycle of the graph: at least 3 distinct vertices, each adjacent (entry 1,
   * the test DFS uses) to the next, and the last one adjacent to the first.
   */
  ghost predicate IsSimpleCycle(adj: array2<int>, n: int, c: seq<int>)
    reads adj
  {
    Fits(adj, n) && |c| >= 3 && InRange(c, n) && Distinct(c) &&
    (forall k :: 0 <= k < |c| - 1 ==> adj[c[k], c[k + 1]] == 1) &&
    adj[c[|c| - 1], c[0]] == 1
  }

  ghost predicate HasCycle(adj: array2<int>, n: int)
    reads adj
  {
    exists c :: IsSimpleCycle(adj, n, c)
  }

  /**
   * The test of verificaCiclo: consecutive entries of `p` are joined by a non-zero
   * entry, and so are its last and its first entry.
   */
  ghost predicate ClosedWalk(adj: array2<int>, p: seq<int>)
    reads adj
    requires |p| >= 1 && InRange(p, adj.Length0) && InRange(p, adj.Length1)
  {
    (forall k :: 0 <= k < |p| - 1 ==> adj[p[k], p[k + 1]] != 0) &&
    adj[p[|p| - 1], p[0]] != 0
  }

  /** A graph on fewer than 3 vertices has no simple cycle. */
  lemma SmallGraphNoCycle(adj: array2<int>, n: int)
    requires n < 3
    ensures !HasCycle(adj, n)
  {
    if HasCycle(adj, n) {
      var c :| IsSimpleCycle(adj, n, c);
      DistinctFitsRange(c, n);
    }
  }

  /** The coin flipped for the unordered pair {u, v}: flips[min][max]. */
  ghost predicate Coin(flips: seq<seq<bool>>, n: int, u: int, v: int)
    requires |flips| == n && forall i :: 0 <= i < n ==> |flips[i]| == n
  {
    0 <= u < n && 0 <= v < n &&
    if u < v then flips[u][v] else v < u && flips[v][u]
  }

  /**
   * adicionarArestasAleatorias: for every pair i < j of the block, when the coin
   * for that pair comes up, writes 1 at [i][j] and at [j][i]. The random draw
   * `rand() / RAND_MAX < 0.4` is replaced by the caller-supplied `flips[i][j]`.
   */
  method AdicionarArestasAleatorias(adj: array2<int>, n: int, flips: seq<seq<bool>>)
    requires Fits(adj, n)
    requires |flips| == n && forall i :: 0 <= i < n ==> |flips[i]| == n
    modifies adj
    ensures forall u, v :: 0 <= u < adj.Length0 && 0 <= v < adj.Length1 ==>
      adj[u, v] == if Coin(flips, n, u, v) then 1 else old(adj[u, v])
    ensures old(Undirected(adj, n)) ==> Undirected(adj, n)
    ensures old(ZeroBlock(adj, n)) ==> Undirected(adj, n)
  {
    var i := 0;
    while i < n
      invariant 0 <= i <= n
      invariant forall u, v :: 0 <= u < adj.Length0 && 0 <= v < adj.Length1 ==>
        adj[u, v] == if Coin(flips, n, u, v) && (u < i || v < i) then 1 else old(adj[u, v])
    {
      var j := i + 1;
      while j < n
        invariant i + 1 <= j <= n
        invariant forall u, v :: 0 <= u < adj.Length0 && 0 <= v < adj.Length1 ==>
          adj[u, v] == if Coin(flips, n, u, v) &&
                          (u < i || v < i || (u == i && i < v < j) || (v == i && i < u < j))
                       then 1 else old(adj[u, v])
      {
        if flips[i][j] {
          adj[i, j] := 1;
          adj[j, i] := 1;
        }
        j := j + 1;
      }
      i := i + 1;
    }
  }

  /**
   * verificaCiclo: 1 when the first n entries of the permutation array form a closed
   * walk, 0 otherwise. It reads index n - 1, so it needs n >= 1.
   */
  method VerificaCiclo(adj: array2<int>, numVertices: int, perm: array<int>, n: int) returns (r: int)
    requires Fits(adj, numVertices)
    requires 1 <= n <= perm.Length
    requires forall k :: 0 <= k < n ==> 0 <= perm[k] < numVertices
    ensures r == 1 <==> ClosedWalk(adj, perm[..n])
    ensures r == 0 || r == 1
  {
    var i := 0;
    while i < n - 1
      invariant 0 <= i <= n - 1
      invariant forall k :: 0 <= k < i ==> adj[perm[k], perm[k + 1]] != 0
    {
      if adj[perm[i], perm[i + 1]] == 0 {
        return 0;
      }
      i := i + 1;
    }
    if adj[perm[n - 1], perm[0]] == 0 {
      return 0;
    }
    return 1;
  }
}
