/**
 * Grafos.c: the heap-allocated adjacency matrix, the brute-force count over all
 * orderings of the vertices, and the DFS count.
 *
 * The `Grafo` struct (a row-pointer matrix and its size) is passed as the pair
 * (adj, numVertices); `adj` is an array2 whose top-left numVertices block is the graph.
 */
module Grafos {
  import opened AdjMatrix
  import DfsMatrix
  import opened Vertices
  import opened Orderings

  /**
   * inicializarGrafo: a numVertices x numVertices matrix of zeros (calloc'ed rows).
   */
  method InicializarGrafo(vertices: nat) returns (adj: array2<int>)
    ensures fresh(adj)
    ensures adj.Length0 == vertices && adj.Length1 == vertices
    ensures ZeroBlock(adj, vertices)
  {
    adj := new int[vertices, vertices]((i, j) => 0);
  }

  /** verificaCiclo's verdict on a whole arrangement. */
  ghost predicate Accepts(adj: array2<int>, p: seq<int>)
    reads adj
  {
    |p| >= 1 && InRange(p, adj.Length0) && InRange(p, adj.Length1) && ClosedWalk(adj, p)
  }

  /** How many arrangements of `ps` verificaCiclo accepts. */
  ghost function CountClosed(adj: array2<int>, ps: seq<seq<int>>): (r: nat)
    reads adj
    ensures r <= |ps|
  {
    if ps == [] then 0 else (if Accepts(adj, ps[0]) then 1 else 0) + CountClosed(adj, ps[1..])
  }

  lemma {:induction false} CountClosedAppend(adj: array2<int>, a: seq<seq<int>>, b: seq<seq<int>>)
    ensures CountClosed(adj, a + b) == CountClosed(adj, a) + CountClosed(adj, b)
    decreases |a|
  {
    if a == [] {
      assert a + b == b;
    } else {
      assert (a + b)[1..] == a[1..] + b;
      CountClosedAppend(adj, a[1..], b);
    }
  }

  /** CountClosed counts exactly the accepted entries: 0 when none is accepted, |ps| when all are. */
  lemma {:induction false} CountClosedBounds(adj: array2<int>, ps: seq<seq<int>>)
    ensures CountClosed(adj, ps) == 0 <==> forall k :: 0 <= k < |ps| ==> !Accepts(adj, ps[k])
    ensures CountClosed(adj, ps) == |ps| <==> forall k :: 0 <= k < |ps| ==> Accepts(adj, ps[k])
    decreases |ps|
  {
    if ps != [] {
      CountClosedBounds(adj, ps[1..]);
      assert forall k :: 1 <= k < |ps| ==> ps[k] == ps[1..][k - 1];
    }
  }

  // ---------------------------------------------------------------------------
  // permutacao and contarCiclosPorPermutacao
  // ---------------------------------------------------------------------------

  /**
   * permutacao: swap-and-recurse over positions start..n-1, undoing each swap. It adds
   * to the counter one for every arrangement verificaCiclo accepts and leaves the
   * array as it found it.
   */
  method Permutacao(adj: array2<int>, numVertices: int, vetorPermutacao: array<int>,
                    start: int, n: int, ciclos: int) returns (ciclos': int)
    requires Fits(adj, numVertices)
    requires n == vetorPermutacao.Length && 1 <= n && 0 <= start <= n
    requires InRange(vetorPermutacao[..], numVertices)
    modifies vetorPermutacao
    decreases n - start
    ensures vetorPermutacao[..] == old(vetorPermutacao[..])
    ensures ciclos' == ciclos + CountClosed(adj, Leaves(old(vetorPermutacao[..]), start))
  {
    ghost var s := vetorPermutacao[..];
    if start == n {
      var r := VerificaCiclo(adj, numVertices, vetorPermutacao, n);
      assert vetorPermutacao[..n] == s;
      assert [s][1..] == [];
      ciclos' := if r != 0 then ciclos + 1 else ciclos;
      return;
    }
    ciclos' := ciclos;
    var i := start;
    while i < n
      invariant start <= i <= n
      invariant vetorPermutacao[..] == s
      invariant ciclos' + CountClosed(adj, LeavesFrom(s, start, i)) ==
                ciclos + CountClosed(adj, LeavesFrom(s, start, start))
    {
      Exchange(vetorPermutacao, start, i);
      SwapInRange(s, start, i, numVertices);

      ciclos' := Permutacao(adj, numVertices, vetorPermutacao, start + 1, n, ciclos');

      Exchange(vetorPermutacao, start, i);
      SwapTwice(s, start, i);
      CountClosedStep(adj, s, start, i);
      i := i + 1;
    }
  }

  /** The three-assignment exchange through `temp` that permutacao performs before and after recursing. */
  method Exchange(a: array<int>, i: int, j: int)
    requires 0 <= i < a.Length && 0 <= j < a.Length
    modifies a
    ensures a[..] == Swap(old(a[..]), i, j)
  {
    var temp := a[i];
    a[i] := a[j];
    a[j] := temp;
  }

  /** Exchanging the same two positions again restores the arrangement. */
  lemma SwapTwice(s: seq<int>, i: int, j: int)
    requires 0 <= i < |s| && 0 <= j < |s|
    ensures Swap(Swap(s, i, j), i, j) == s
  {
    var t := Swap(Swap(s, i, j), i, j);
    assert forall k :: 0 <= k < |s| ==> t[k] == s[k];
  }

  /** One iteration of permutacao's loop: the arrangements of iteration i, then the rest. */
  lemma CountClosedStep(adj: array2<int>, s: seq<int>, start: nat, i: nat)
    requires start <= i < |s|
    ensures CountClosed(adj, LeavesFrom(s, start, i)) ==
            CountClosed(adj, Leaves(Swap(s, start, i), start + 1)) + CountClosed(adj, LeavesFrom(s, start, i + 1))
  {
    CountClosedAppend(adj, Leaves(Swap(s, start, i), start + 1), LeavesFrom(s, start, i + 1));
  }

  lemma SwapInRange(s: seq<int>, i: int, j: int, n: int)
    requires 0 <= i < |s| && 0 <= j < |s| && InRange(s, n)
    ensures InRange(Swap(s, i, j), n)
  {
  }

  /**
   * contarCiclosPorPermutacao: starts from the identity arrangement and counts the
   * arrangements verificaCiclo accepts; at most n! of them. The source reads index
   * n - 1 of the array, so a graph without vertices is outside its domain.
   */
  method ContarCiclosPorPermutacao(adj: array2<int>, numVertices: int) returns (ciclos: int)
    requires Fits(adj, numVertices) && numVertices >= 1
    ensures ciclos == CountClosed(adj, Leaves(Identity(numVertices), 0))
    ensures 0 <= ciclos <= Fact(numVertices)
  {
    var vetorPermutacao := new int[numVertices];
    for i := 0 to numVertices
      invariant forall k :: 0 <= k < i ==> vetorPermutacao[k] == k
    {
      vetorPermutacao[i] := i;
    }
    assert vetorPermutacao[..] == Identity(numVertices);
    ciclos := Permutacao(adj, numVertices, vetorPermutacao, 0, numVertices, 0);
    LeavesCount(Identity(numVertices), 0);
  }

  /** 12! is 479001600 and 13! is 6227020800, computed one factor at a time. */
  lemma FactTwelveThirteen()
    ensures Fact(12) == 479001600 && Fact(13) == 6227020800
  {
    FactStep(1); FactStep(2); FactStep(3); FactStep(4); FactStep(5); FactStep(6); FactStep(7);
    FactStep(8); FactStep(9); FactStep(10); FactStep(11); FactStep(12); FactStep(13);
  }

  /** The factorial never decreases: n! <= m! for n <= m. */
  lemma {:induction false} FactMonotone(n: nat, m: nat)
    requires n <= m
    ensures Fact(n) <= Fact(m)
    decreases m - n
  {
    if n < m {
      FactMonotone(n + 1, m);
      assert Fact(n + 1) == Fact(n) + Times(n, Fact(n));
    }
  }

  /** INT_MAX lies between 12! and 13!. */
  lemma FactIntBoundary()
    ensures Fact(12) <= INT_MAX < Fact(13)
  {
    FactTwelveThirteen();
  }

  /** `ciclos` is a C int: the count, at most n!, fits for up to 12 vertices. */
  lemma FactFitsInt(n: nat)
    requires n <= 12
    ensures Fact(n) <= INT_MAX
  {
    FactMonotone(n, 12);
    FactIntBoundary();
  }

  /** From 13 vertices on, n! is beyond INT_MAX. */
  lemma FactOverflowsInt(n: nat)
    requires 13 <= n
    ensures INT_MAX < Fact(n)
  {
    FactMonotone(13, n);
    FactIntBoundary();
  }

  // ---------------------------------------------------------------------------
  // contarCiclosPorDFS
  // ---------------------------------------------------------------------------

  /**
   * contarCiclosPorDFS: every `pai` entry starts at -1; a DFS is started from each
   * vertex still unvisited, and the roots whose DFS reports a cycle are counted.
   * On an undirected simple graph the count is 0
   * exactly when the graph has no cycle.
   */
  method ContarCiclosPorDfs(adj: array2<int>, numVertices: int) returns (ciclos: int)
    requires Fits(adj, numVertices)
    ensures 0 <= ciclos <= numVertices
    ensures Undirected(adj, numVertices) ==> (ciclos == 0 <==> !HasCycle(adj, numVertices))
  {
    var n := numVertices;
    var visitado := new bool[n](_ => false);
    var pai := new int[n];
    for i := 0 to n
      modifies pai
      invariant forall k :: 0 <= k < i ==> pai[k] == -1
    {
      pai[i] := -1;
    }
    ciclos := 0;
    ghost var undirected := Undirected(adj, n);
    ghost var depth: seq<int> := seq(n, _ => 0);
    ghost var firstCycle: seq<int> := [];
    assert forall x :: 0 <= x < n ==> !visitado[..n][x];
    for i := 0 to n
      invariant 0 <= ciclos <= i
      invariant |depth| == n
      invariant forall k :: 0 <= k < i ==> visitado[..n][k]
      invariant forall k :: 0 <= k < n && !visitado[..n][k] ==> pai[..n][k] == -1
      invariant DfsMatrix.ParentsVisited(n, visitado[..n], pai[..n])
      invariant undirected && ciclos == 0 ==> DfsMatrix.Clean(adj, n, visitado[..n], pai[..n], depth, [])
      invariant undirected && ciclos > 0 ==> IsSimpleCycle(adj, n, firstCycle)
    {
      if !visitado[i] {
        assert !visitado[..n][i] && pai[..n][i] == pai[i];
        var found, depth', cycle := DfsMatrix.Dfs(adj, n, i, visitado, pai, [], depth, undirected && ciclos == 0);
        if found {
          if ciclos == 0 {
            firstCycle := cycle;
          }
          ciclos := ciclos + 1;
        }
        depth := depth';
      }
    }
    if undirected && ciclos == 0 {
      DfsMatrix.CleanEndHasNoCycle(adj, n, visitado[..n], pai[..n], depth);
    }
  }

  /**
   * The count is of Hamiltonian orderings, not of cycles: on two vertices joined by
   * one edge, which has no cycle, both orderings pass verificaCiclo.
   */
  lemma TwoVerticesOneEdge(adj: array2<int>)
    requires adj.Length0 >= 2 && adj.Length1 >= 2
    requires adj[0, 1] == 1 && adj[1, 0] == 1
    ensures CountClosed(adj, Leaves(Identity(2), 0)) == 2
    ensures !HasCycle(adj, 2)
  {
    var s := Identity(2);
    assert s == [0, 1];
    assert Swap(s, 0, 0) == [0, 1] && Swap(s, 0, 1) == [1, 0];
    assert Swap([0, 1], 1, 1) == [0, 1] && Swap([1, 0], 1, 1) == [1, 0];
    assert Leaves([0, 1], 1) == [[0, 1]] by {
      assert LeavesFrom([0, 1], 1, 1) == Leaves([0, 1], 2) + LeavesFrom([0, 1], 1, 2);
    }
    assert Leaves([1, 0], 1) == [[1, 0]] by {
      assert LeavesFrom([1, 0], 1, 1) == Leaves([1, 0], 2) + LeavesFrom([1, 0], 1, 2);
    }
    assert LeavesFrom(s, 0, 1) == [[1, 0]] by {
      assert LeavesFrom(s, 0, 1) == Leaves([1, 0], 1) + LeavesFrom(s, 0, 2);
    }
    assert Leaves(s, 0) == [[0, 1], [1, 0]] by {
      assert LeavesFrom(s, 0, 0) == Leaves([0, 1], 1) + LeavesFrom(s, 0, 1);
    }
    assert Accepts(adj, [0, 1]) && Accepts(adj, [1, 0]);
    assert [[0, 1], [1, 0]][1..] == [[1, 0]];
    assert [[1, 0]][1..] == [];
    SmallGraphNoCycle(adj, 2);
  }
}
