/**
 * grafo.c: the same matrix algorithms as Grafos.c over a fixed MAX_VERTICES x
 * MAX_VERTICES matrix held inside the `Grafo` struct, modelled as a 10 x 10 array2
 * of which the first numVertices rows and columns are the graph.
 * adicionarArestasAleatorias and verificaCiclo are the shared AdjMatrix routines.
 */
module GrafoFixo {
  import opened AdjMatrix
  import DfsMatrix

  const MAX_VERTICES: int := 10

  /** The matrix field of the struct. */
  predicate IsFixedMatrix(adj: array2<int>)
  {
    adj.Length0 == MAX_VERTICES && adj.Length1 == MAX_VERTICES
  }

  /**
   * inicializarGrafo: zeroes the vertices x vertices block and nothing else; a larger
   * vertex count would write outside the struct's matrix.
   */
  method InicializarGrafo(adj: array2<int>, vertices: int)
    requires IsFixedMatrix(adj) && vertices <= MAX_VERTICES
    modifies adj
    ensures forall u, v :: 0 <= u < MAX_VERTICES && 0 <= v < MAX_VERTICES ==>
      adj[u, v] == if u < vertices && v < vertices then 0 else old(adj[u, v])
    ensures 0 <= vertices ==> ZeroBlock(adj, vertices)
  {
    var i := 0;
    while i < vertices
      invariant 0 <= i && (0 <= vertices ==> i <= vertices)
      invariant forall u, v :: 0 <= u < MAX_VERTICES && 0 <= v < MAX_VERTICES ==>
        adj[u, v] == if u < i && v < vertices then 0 else old(adj[u, v])
    {
      var j := 0;
      while j < vertices
        invariant 0 <= j <= vertices
        invariant forall u, v :: 0 <= u < MAX_VERTICES && 0 <= v < MAX_VERTICES ==>
          adj[u, v] == if (u < i || (u == i && v < j)) && v < vertices then 0 else old(adj[u, v])
      {
        adj[i, j] := 0;
        j := j + 1;
      }
      i := i + 1;
    }
  }

  /**
   * The local `int pai[MAX_VERTICES] = {-1}`: the brace initialiser sets only the
   * first entry; the remaining ones are 0.
   */
  function PaiInicial(k: int): int
  {
    if k == 0 then -1 else 0
  }

  /** The graph with edges 0-1, 1-2, 2-0 and 0-3. */
  function TriangleWithTail(u: int, w: int): int
  {
    if (u == 0 && 1 <= w <= 3) || (w == 0 && 1 <= u <= 3) || (u == 1 && w == 2) || (u == 2 && w == 1) then 1 else 0
  }

  /**
   * On the graph 0-1, 1-2, 2-0, 0-3, the DFS from root 0 visits 0, 1 and 2, sets
   * pai[1] = 0 and pai[2] = 1, and returns at the edge 2-0. The next unvisited root is 3,
   * and its DFS reports the edge 3-0 exactly when pai[3] is not 0.
   */
  method TailRoot(adj: array2<int>, visitado: array<bool>, pai: array<int>) returns (found: bool)
    requires Fits(adj, 4) && forall u, w :: 0 <= u < 4 && 0 <= w < 4 ==> adj[u, w] == TriangleWithTail(u, w)
    requires visitado.Length == 4 && visitado[..] == [true, true, true, false]
    requires pai.Length == 4 && pai[0] == -1 && pai[1] == 0 && pai[2] == 1 && (pai[3] == 0 || pai[3] == -1)
    modifies visitado, pai
    ensures found <==> old(pai[3]) == -1
  {
    ghost var vis0 := visitado[..4];
    ghost var depth, cycle;
    found, depth, cycle := DfsMatrix.Dfs(adj, 4, 3, visitado, pai, [], seq(4, _ => 0), false);
    if old(pai[3]) == 0 {
      NoReportFromStaleRoot(adj, vis0, visitado[..4], pai[..4]);
    } else {
      ReportFromResetRoot(adj, visitado[..4], pai[..4]);
    }
  }

  /**
   * The stale pai[3] = 0 of grafo.c hides the edge 3-0 (`stale` is false); the
   * pai[3] = -1 that Grafos.c gives every vertex reports it (`reset` is true).
   */
  method StaleParentHidesEdge() returns (stale: bool, reset: bool)
    ensures !stale && reset
  {
    var adj := new int[4, 4]((u, w) => TriangleWithTail(u, w));
    var visitado := new bool[4](k => k < 3);
    var pai := new int[4];
    pai[0], pai[1], pai[2], pai[3] := -1, 0, 1, PaiInicial(3);
    assert visitado[..] == [true, true, true, false];
    stale := TailRoot(adj, visitado, pai);
    visitado := new bool[4](k => k < 3);
    pai := new int[4];
    pai[0], pai[1], pai[2], pai[3] := -1, 0, 1, -1;
    assert visitado[..] == [true, true, true, false];
    reset := TailRoot(adj, visitado, pai);
  }

  /** From the root 3 with parent 0, no edge can be reported: 3 has no neighbour but 0. */
  lemma NoReportFromStaleRoot(adj: array2<int>, vis0: seq<bool>, vis: seq<bool>, pai: seq<int>)
    requires Fits(adj, 4) && forall u, w :: 0 <= u < 4 && 0 <= w < 4 ==> adj[u, w] == TriangleWithTail(u, w)
    requires vis0 == [true, true, true, false] && |vis| == 4 && |pai| == 4 && pai[3] == 0
    ensures !DfsMatrix.ReportedSince(adj, 4, vis0, vis, pai, 3)
  {
    if w, j :| DfsMatrix.BackEdge(adj, 4, vis, pai, w, j) && (w == 3 || !vis0[w]) {
      assert false;
    }
  }

  /** From the root 3 with parent -1, the visited 0 of parent -1 is neither its parent nor its child. */
  lemma ReportFromResetRoot(adj: array2<int>, vis: seq<bool>, pai: seq<int>)
    requires Fits(adj, 4) && forall u, w :: 0 <= u < 4 && 0 <= w < 4 ==> adj[u, w] == TriangleWithTail(u, w)
    requires |vis| == 4 && |pai| == 4 && pai[3] == -1 && pai[0] == -1
    ensures !DfsMatrix.ParentOrChild(adj, 4, vis, pai, 3, 4)
  {
    assert adj[3, 0] == 1;
  }

  /**
   * contarCiclosPorDFS: the roots whose DFS reports a cycle are counted. Vertex k > 0
   * starts with parent 0, not -1. While no cycle has been reported, a later root has
   * no visited neighbour, so its stale parent changes nothing. After a DFS has returned
   * early, a root left unvisited may be adjacent to vertex 0, and its stale parent then
   * hides that edge: this can change the count, but not whether it is 0, so the count
   * is 0 exactly when the undirected simple graph has no cycle.
   */
  method ContarCiclosPorDfs(adj: array2<int>, numVertices: int) returns (ciclos: int)
    requires IsFixedMatrix(adj) && 0 <= numVertices <= MAX_VERTICES
    ensures 0 <= ciclos <= numVertices
    ensures Undirected(adj, numVertices) ==> (ciclos == 0 <==> !HasCycle(adj, numVertices))
  {
    var n := numVertices;
    var visitado := new bool[MAX_VERTICES](_ => false);
    var pai := new int[MAX_VERTICES](PaiInicial);
    ciclos := 0;
    ghost var undirected := Undirected(adj, n);
    ghost var depth: seq<int> := seq(n, _ => 0);
    ghost var firstCycle: seq<int> := [];
    assert forall x :: 0 <= x < n ==> !visitado[..n][x];
    for i := 0 to n
      invariant 0 <= ciclos <= i
      invariant |depth| == n
      invariant forall k :: 0 <= k < i ==> visitado[..n][k]
      invariant forall k :: 0 <= k < n && !visitado[..n][k] ==> pai[..n][k] == PaiInicial(k)
      invariant DfsMatrix.ParentsVisited(n, visitado[..n], pai[..n])
      invariant undirected && ciclos == 0 ==> DfsMatrix.Clean(adj, n, visitado[..n], pai[..n], depth, [])
      invariant undirected && ciclos > 0 ==> IsSimpleCycle(adj, n, firstCycle)
    {
      if !visitado[i] {
        assert !visitado[..n][i] && pai[..n][i] == pai[i];
        var found, depth', cycle := DfsMatrix.Dfs(adj, n, i, visitado, pai, [], depth, undirected && ciclos == 0);
        if found {
          if ciclos == 0 {
            firstCycle := cycle;
          }
          ciclos := ciclos + 1;
        }
        depth := depth';
      }
    }
    if undirected && ciclos == 0 {
      DfsMatrix.CleanEndHasNoCycle(adj, n, visitado[..n], pai[..n], depth);
    }
  }
}
