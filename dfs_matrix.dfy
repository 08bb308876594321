/**
 * The parent-tracking DFS of the two C programs (Grafos.c:96-116 and, with the same
 * text, grafo.c:89-109), and the facts about it that make "the number of roots whose
 * DFS reports a back edge is 0 exactly when the graph has no cycle" provable.
 *
 * The proof keeps two pieces of ghost state beside the program's own arrays: the
 * stack `st` of vertices whose DFS calls are still running (root first), and a depth
 * for every visited vertex (its position on that stack when it was discovered). While
 * no DFS has yet reported a cycle the state is `Clean`: every vertex whose call has
 * returned ("finished") has only visited neighbours, and every edge leaving it joins a
 * vertex to its `pai` entry, the parent sitting one level higher.
 */
module DfsMatrix {
  import opened Vertices
  import opened AdjMatrix

  /** Edge x-j is a tree edge: one end is the recorded parent of the other, one level up. */
  ghost predicate TreeEdge(pai: seq<int>, depth: seq<int>, x: int, j: int)
    requires 0 <= x < |pai| && 0 <= j < |pai| && |depth| == |pai|
  {
    (pai[x] == j && depth[j] < depth[x]) || (pai[j] == x && depth[x] < depth[j])
  }

  /** The vertices not yet visited. */
  ghost function Unvisited(vis: seq<bool>, n: int): set<int>
    requires 0 <= n <= |vis|
  {
    set k | 0 <= k < n && !vis[k]
  }

  /** `st` is a path of distinct vertices, each visited, at the depth of its position. */
  ghost predicate StackPath(adj: array2<int>, n: int, vis: seq<bool>, pai: seq<int>, depth: seq<int>, st: seq<int>)
    reads adj
    requires Fits(adj, n) && |vis| == n && |pai| == n && |depth| == n
  {
    InRange(st, n) && Distinct(st) &&
    (forall k :: 0 <= k < |st| - 1 ==> adj[st[k], st[k + 1]] == 1) &&
    (forall k :: 0 <= k < |st| ==> vis[st[k]] && depth[st[k]] == k) &&
    (forall k :: 1 <= k < |st| ==> pai[st[k]] == st[k - 1])
  }

  /**
   * No cycle reported so far: with `st` the running calls, every finished vertex has
   * only visited neighbours, joined to it by tree edges.
   */
  ghost predicate Clean(adj: array2<int>, n: int, vis: seq<bool>, pai: seq<int>, depth: seq<int>, st: seq<int>)
    reads adj
  {
    Undirected(adj, n) && |vis| == n && |pai| == n && |depth| == n &&
    StackPath(adj, n, vis, pai, depth, st) &&
    forall x, j :: 0 <= x < n && 0 <= j < n && vis[x] && x !in st && adj[x, j] == 1 ==>
      vis[j] && TreeEdge(pai, depth, x, j)
  }

  /** What a DFS call on `v` under the running calls `st` may assume in a clean state. */
  ghost predicate CleanEntry(adj: array2<int>, n: int, vis: seq<bool>, pai: seq<int>, depth: seq<int>,
                             st: seq<int>, v: int)
    reads adj
  {
    Clean(adj, n, vis, pai, depth, st) && 0 <= v < n && !vis[v] &&
    (st != [] ==> pai[v] == st[|st| - 1] && adj[st[|st| - 1], v] == 1) &&
    !(0 <= pai[v] < n && !vis[pai[v]])
  }

  /** Index of a vertex of `c` of greatest depth. */
  ghost function DeepestIndex(c: seq<int>, depth: seq<int>): (m: nat)
    requires |c| > 0 && forall k :: 0 <= k < |c| ==> 0 <= c[k] < |depth|
    ensures m < |c| && forall k :: 0 <= k < |c| ==> depth[c[k]] <= depth[c[m]]
  {
    if |c| == 1 then 0
    else
      var m := DeepestIndex(c[1..], depth);
      assert forall k :: 1 <= k < |c| ==> c[k] == c[1..][k - 1];
      if depth[c[0]] >= depth[c[m + 1]] then 0 else m + 1
  }

  /**
   * When every edge is a tree edge the graph has no simple cycle: the deepest vertex of
   * a cycle would have both of its cycle neighbours as its parent.
   */
  lemma {:induction false} TreeEdgesHaveNoCycle(adj: array2<int>, n: int, pai: seq<int>, depth: seq<int>)
    requires Fits(adj, n) && |pai| == n && |depth| == n
    requires forall x, j :: 0 <= x < n && 0 <= j < n && adj[x, j] == 1 ==> TreeEdge(pai, depth, x, j)
    ensures !HasCycle(adj, n)
  {
    if c :| IsSimpleCycle(adj, n, c) {
      var m := DeepestIndex(c, depth);
      var next := if m == |c| - 1 then 0 else m + 1;
      var prev := if m == 0 then |c| - 1 else m - 1;
      DeepestHangsFromNeighbour(adj, n, pai, depth, c, m, next);
      DeepestHangsFromNeighbour(adj, n, pai, depth, c, m, prev);
      assert false;
    }
  }

  /** A cycle vertex of greatest depth has each cycle neighbour as its parent. */
  lemma DeepestHangsFromNeighbour(adj: array2<int>, n: int, pai: seq<int>, depth: seq<int>,
                                  c: seq<int>, m: int, j: int)
    requires Fits(adj, n) && |pai| == n && |depth| == n
    requires forall x, j :: 0 <= x < n && 0 <= j < n && adj[x, j] == 1 ==> TreeEdge(pai, depth, x, j)
    requires IsSimpleCycle(adj, n, c) && 0 <= m < |c| && 0 <= j < |c|
    requires forall k :: 0 <= k < |c| ==> depth[c[k]] <= depth[c[m]]
    requires j == (if m == |c| - 1 then 0 else m + 1) || j == (if m == 0 then |c| - 1 else m - 1)
    ensures pai[c[m]] == c[j]
  {
    if j == (if m == |c| - 1 then 0 else m + 1) {
      assert adj[c[m], c[j]] == 1;
      assert TreeEdge(pai, depth, c[m], c[j]);
    } else {
      assert adj[c[j], c[m]] == 1;
      assert TreeEdge(pai, depth, c[j], c[m]);
    }
  }

  /** The running calls from `s[k]` up to the top, closed by the edge top-s[k], form a simple cycle. */
  lemma StackCycle(adj: array2<int>, n: int, vis: seq<bool>, pai: seq<int>, depth: seq<int>,
                   s: seq<int>, k: int)
    requires Fits(adj, n) && |vis| == n && |pai| == n && |depth| == n
    requires StackPath(adj, n, vis, pai, depth, s)
    requires 0 <= k < |s| - 2 && adj[s[|s| - 1], s[k]] == 1
    ensures IsSimpleCycle(adj, n, s[k..])
  {
    var c := s[k..];
    assert forall l :: 0 <= l < |c| ==> c[l] == s[k + l];
  }

  /**
   * How a DFS step anchored at `v` may change the visited flags, `pai` and the ghost
   * depths: flags are only ever set; `pai` and depth stay fixed for vertices visited
   * before; `pai` changes only for vertices the step visits, and each of those other
   * than `v` gets a visited parent that is `v` or was visited by the step too.
   */
  ghost predicate Grows(n: int, vis0: seq<bool>, vis1: seq<bool>, pai0: seq<int>, pai1: seq<int>,
                        depth0: seq<int>, depth1: seq<int>, v: int)
  {
    |vis0| == n && |vis1| == n && |pai0| == n && |pai1| == n && |depth0| == n && |depth1| == n &&
    (forall k :: 0 <= k < n && vis0[k] ==> vis1[k] && depth1[k] == depth0[k]) &&
    (forall k :: 0 <= k < n && (vis0[k] || !vis1[k]) ==> pai1[k] == pai0[k]) &&
    (forall k :: 0 <= k < n && !vis0[k] && vis1[k] && k != v ==>
      0 <= pai1[k] < n && vis1[pai1[k]] && (pai1[k] == v || !vis0[pai1[k]]))
  }

  lemma GrowsTrans(n: int, vis0: seq<bool>, vis1: seq<bool>, vis2: seq<bool>,
                   pai0: seq<int>, pai1: seq<int>, pai2: seq<int>,
                   depth0: seq<int>, depth1: seq<int>, depth2: seq<int>, v: int)
    requires Grows(n, vis0, vis1, pai0, pai1, depth0, depth1, v)
    requires Grows(n, vis1, vis2, pai1, pai2, depth1, depth2, v)
    ensures Grows(n, vis0, vis2, pai0, pai2, depth0, depth2, v)
  {
  }

  /** The step that sets pai[i] := v and runs DFS on the unvisited `i` is a step anchored at `v`. */
  lemma GrowsThroughChild(n: int, vis0: seq<bool>, vis1: seq<bool>, pai0: seq<int>, pai1: seq<int>,
                          depth0: seq<int>, depth1: seq<int>, v: int, i: int)
    requires 0 <= v < n && 0 <= i < n && |pai0| == n && |vis0| == n && |vis1| == n && !vis0[i] && vis1[i]
    requires Grows(n, vis0, vis1, pai0[i := v], pai1, depth0, depth1, i) && pai1[i] == v
    requires vis0[v]
    ensures Grows(n, vis0, vis1, pai0, pai1, depth0, depth1, v)
  {
  }

  /**
   * The loop of a clean DFS call on `v`, the top of the running calls `s`, has scanned
   * the indices below `i`: the state is clean, every finished vertex adjacent to `v` is a
   * neighbour already scanned, and every scanned neighbour is visited and joined to `v`
   * by a tree edge.
   */
  ghost predicate Scanned(adj: array2<int>, n: int, vis: seq<bool>, pai: seq<int>, depth: seq<int>,
                          s: seq<int>, i: int)
    reads adj
  {
    Clean(adj, n, vis, pai, depth, s) && |s| >= 1 && 0 <= i <= n &&
    var v := s[|s| - 1];
    !(0 <= pai[v] < n && !vis[pai[v]]) &&
    (forall x :: 0 <= x < n && vis[x] && x !in s && adj[x, v] == 1 ==> x < i) &&
    (forall j :: 0 <= j < i && adj[v, j] == 1 ==> vis[j] && TreeEdge(pai, depth, v, j))
  }

  /**
   * Every neighbour of `v` below `i` is visited and is either the parent of `v` or has
   * `v` as its parent: what a scan of those indices that reported nothing leaves behind.
   */
  ghost predicate ParentOrChild(adj: array2<int>, n: int, vis: seq<bool>, pai: seq<int>, v: int, i: int)
    reads adj
    requires Fits(adj, n) && |vis| == n && |pai| == n && 0 <= v < n && i <= n
  {
    forall j :: 0 <= j < i && adj[v, j] == 1 ==> vis[j] && (j == pai[v] || pai[j] == v)
  }

  /** Every visited vertex whose `pai` entry names a vertex has a visited parent. */
  ghost predicate ParentsVisited(n: int, vis: seq<bool>, pai: seq<int>)
    requires |vis| == n && |pai| == n
  {
    forall k :: 0 <= k < n && vis[k] && 0 <= pai[k] < n ==> vis[pai[k]]
  }

  /** The visited vertices that have `v` as their parent all lie below index `i`. */
  ghost predicate ChildrenBelow(n: int, vis: seq<bool>, pai: seq<int>, v: int, i: int)
    requires |vis| == n && |pai| == n
  {
    forall k :: 0 <= k < n && vis[k] && pai[k] == v ==> k < i
  }

  /**
   * The edge w-j is one DFS reports: both ends visited, and j is neither the parent of
   * `w` nor a vertex whose parent is `w`.
   */
  ghost predicate BackEdge(adj: array2<int>, n: int, vis: seq<bool>, pai: seq<int>, w: int, j: int)
    reads adj
    requires Fits(adj, n) && |vis| == n && |pai| == n
  {
    0 <= w < n && 0 <= j < n && vis[w] && adj[w, j] == 1 && vis[j] && j != pai[w] && pai[j] != w
  }

  /** Some vertex that is `v` or was unvisited in `vis0` has a reported edge in the state `vis`, `pai`. */
  ghost predicate ReportedSince(adj: array2<int>, n: int, vis0: seq<bool>, vis: seq<bool>, pai: seq<int>, v: int)
    reads adj
    requires Fits(adj, n) && |vis0| == n && |vis| == n && |pai| == n
  {
    exists w, j :: BackEdge(adj, n, vis, pai, w, j) && (w == v || !vis0[w])
  }

  /** A report found since a later state, starting from `u`, is one since an earlier state, starting from `v`. */
  lemma ReportedEarlier(adj: array2<int>, n: int, vis0: seq<bool>, vis1: seq<bool>, vis: seq<bool>, pai: seq<int>,
                        u: int, v: int)
    requires Fits(adj, n) && |vis0| == n && |vis1| == n && |vis| == n && |pai| == n
    requires forall k :: 0 <= k < n && vis0[k] ==> vis1[k]
    requires u == v || (0 <= u < n && !vis0[u])
    requires ReportedSince(adj, n, vis1, vis, pai, u)
    ensures ReportedSince(adj, n, vis0, vis, pai, v)
  {
    var w, j :| BackEdge(adj, n, vis, pai, w, j) && (w == u || !vis1[w]);
    assert w == v || !vis0[w];
  }

  /** Marking the unvisited `v`, whose parent (if any) is visited, keeps parents visited and gives `v` no child. */
  lemma StartFacts(n: int, vis: seq<bool>, pai: seq<int>, v: int)
    requires |vis| == n && |pai| == n && 0 <= v < n && !vis[v]
    requires ParentsVisited(n, vis, pai) && (0 <= pai[v] < n ==> vis[pai[v]])
    ensures ParentsVisited(n, vis[v := true], pai) && ChildrenBelow(n, vis[v := true], pai, v, 0)
  {
  }

  /**
   * After pai[i] := v and the call on the unvisited `i`, only `i` among the newly visited
   * vertices has parent `v`, and parents stay visited.
   */
  lemma ChildFacts(n: int, vis0: seq<bool>, vis1: seq<bool>, pai0: seq<int>, pai1: seq<int>,
                   depth0: seq<int>, depth1: seq<int>, v: int, i: int)
    requires 0 <= v < n && 0 <= i < n && |vis0| == n && |pai0| == n && vis0[v] && !vis0[i]
    requires ChildrenBelow(n, vis0, pai0, v, i)
    requires Grows(n, vis0, vis1, pai0[i := v], pai1, depth0, depth1, i)
    ensures ChildrenBelow(n, vis1, pai1, v, i + 1)
  {
  }

  /** A scan of index `i` that reported nothing extends `ParentOrChild` to `i + 1`. */
  lemma ParentOrChildNext(adj: array2<int>, n: int, vis0: seq<bool>, vis1: seq<bool>, pai0: seq<int>, pai1: seq<int>,
                          depth0: seq<int>, depth1: seq<int>, v: int, i: int)
    requires Fits(adj, n) && 0 <= v < n && 0 <= i < n
    requires Grows(n, vis0, vis1, pai0, pai1, depth0, depth1, v) && vis0[v]
    requires ParentOrChild(adj, n, vis0, pai0, v, i)
    requires adj[v, i] == 1 && vis0[i] ==> i == pai0[v] && pai1 == pai0
    requires adj[v, i] == 1 && !vis0[i] ==> vis1[i] && pai1[i] == v
    ensures ParentOrChild(adj, n, vis1, pai1, v, i + 1)
  {
  }

  /**
   * Every vertex other than `v` that was unvisited in `vis0` and is visited in `vis` has
   * as parent one of its neighbours.
   */
  ghost predicate NewParentsAdjacent(adj: array2<int>, n: int, vis0: seq<bool>, vis: seq<bool>, pai: seq<int>, v: int)
    reads adj
    requires Fits(adj, n) && |vis0| == n && |vis| == n && |pai| == n
  {
    forall k :: 0 <= k < n && !vis0[k] && vis[k] && k != v ==> 0 <= pai[k] < n && adj[pai[k], k] == 1
  }

  /** Two steps anchored at `v` whose new vertices hang from neighbours make one such step. */
  lemma NewParentsTrans(adj: array2<int>, n: int, vis0: seq<bool>, vis1: seq<bool>, vis2: seq<bool>,
                        pai1: seq<int>, pai2: seq<int>, depth1: seq<int>, depth2: seq<int>, v: int)
    requires Fits(adj, n) && |vis0| == n && |pai1| == n
    requires Grows(n, vis1, vis2, pai1, pai2, depth1, depth2, v)
    requires NewParentsAdjacent(adj, n, vis0, vis1, pai1, v) && NewParentsAdjacent(adj, n, vis1, vis2, pai2, v)
    ensures NewParentsAdjacent(adj, n, vis0, vis2, pai2, v)
  {
  }

  /** The call on the child `i` of `v`, entered along the edge v-i, is a step anchored at `v` of that kind. */
  lemma ChildParentsAdjacent(adj: array2<int>, n: int, vis0: seq<bool>, vis1: seq<bool>, pai1: seq<int>, v: int, i: int)
    requires Fits(adj, n) && |vis0| == n && |vis1| == n && |pai1| == n && 0 <= v < n && 0 <= i < n
    requires adj[v, i] == 1 && pai1[i] == v && NewParentsAdjacent(adj, n, vis0, vis1, pai1, i)
    ensures NewParentsAdjacent(adj, n, vis0, vis1, pai1, v)
  {
  }

  /**
   * The state of DFS's loop on `v` once the indices below `i` are scanned, from the
   * state `vis0`, `pai0`, `depth0` on entry to the call.
   */
  ghost predicate Scanning(adj: array2<int>, n: int, vis0: seq<bool>, pai0: seq<int>, depth0: seq<int>,
                           vis: seq<bool>, pai: seq<int>, depth: seq<int>, st: seq<int>, v: int, clean: bool, i: int)
    reads adj
    requires Fits(adj, n) && 0 <= v < n
  {
    0 <= i <= n && Grows(n, vis0, vis, pai0, pai, depth0, depth, v) &&
    NewParentsAdjacent(adj, n, vis0, vis, pai, v) && vis[v] && depth[v] == |st| && pai[v] == pai0[v] &&
    (clean ==> Scanned(adj, n, vis, pai, depth, st + [v], i)) &&
    ParentOrChild(adj, n, vis, pai, v, i) && ParentsVisited(n, vis, pai) && ChildrenBelow(n, vis, pai, v, i)
  }

  /** How DFS's call on `v` ends when it reports a cycle, from the state on entry. */
  ghost predicate Reported(adj: array2<int>, n: int, vis0: seq<bool>, pai0: seq<int>, depth0: seq<int>,
                           vis: seq<bool>, pai: seq<int>, depth: seq<int>, st: seq<int>, v: int)
    reads adj
    requires Fits(adj, n) && 0 <= v < n
  {
    Grows(n, vis0, vis, pai0, pai, depth0, depth, v) && NewParentsAdjacent(adj, n, vis0, vis, pai, v) &&
    vis[v] && depth[v] == |st| && pai[v] == pai0[v] && ParentsVisited(n, vis, pai) && ReportedSince(adj, n, vis0, vis, pai, v)
  }

  /** Marking `v` visited starts the loop. */
  lemma ScanningStart(adj: array2<int>, n: int, vis0: seq<bool>, pai0: seq<int>, depth0: seq<int>,
                      st: seq<int>, v: int, clean: bool)
    requires Fits(adj, n) && 0 <= v < n && |vis0| == n && |pai0| == n && |depth0| == n && !vis0[v]
    requires ParentsVisited(n, vis0, pai0) && (0 <= pai0[v] < n ==> vis0[pai0[v]])
    requires clean ==> CleanEntry(adj, n, vis0, pai0, depth0, st, v)
    ensures Scanning(adj, n, vis0, pai0, depth0, vis0[v := true], pai0, depth0[v := |st|], st, v, clean, 0)
  {
    StartFacts(n, vis0, pai0, v);
    if clean {
      ScanStart(adj, n, vis0, vis0[v := true], pai0, depth0, depth0[v := |st|], st, v);
    }
  }

  /** A scan of index `i` that reported nothing moves the loop to `i + 1`. */
  lemma ScanningNext(adj: array2<int>, n: int, vis0: seq<bool>, pai0: seq<int>, depth0: seq<int>,
                     vis1: seq<bool>, pai1: seq<int>, depth1: seq<int>,
                     vis2: seq<bool>, pai2: seq<int>, depth2: seq<int>, st: seq<int>, v: int, clean: bool, i: int)
    requires Fits(adj, n) && 0 <= v < n
    requires Scanning(adj, n, vis0, pai0, depth0, vis1, pai1, depth1, st, v, clean, i) && i < n
    requires Grows(n, vis1, vis2, pai1, pai2, depth1, depth2, v)
    requires NewParentsAdjacent(adj, n, vis1, vis2, pai2, v)
    requires adj[v, i] == 1 && vis1[i] ==> i == pai1[v] && pai2 == pai1
    requires adj[v, i] == 1 && !vis1[i] ==> vis2[i] && pai2[i] == v
    requires ParentsVisited(n, vis2, pai2) && ChildrenBelow(n, vis2, pai2, v, i + 1)
    requires clean ==> Scanned(adj, n, vis2, pai2, depth2, st + [v], i + 1)
    ensures Scanning(adj, n, vis0, pai0, depth0, vis2, pai2, depth2, st, v, clean, i + 1)
  {
    GrowsTrans(n, vis0, vis1, vis2, pai0, pai1, pai2, depth0, depth1, depth2, v);
    NewParentsTrans(adj, n, vis0, vis1, vis2, pai1, pai2, depth1, depth2, v);
    ParentOrChildNext(adj, n, vis1, vis2, pai1, pai2, depth1, depth2, v, i);
  }

  /** A scan of index `i` that reported a cycle ends the call with the report. */
  lemma ScanningFound(adj: array2<int>, n: int, vis0: seq<bool>, pai0: seq<int>, depth0: seq<int>,
                      vis1: seq<bool>, pai1: seq<int>, depth1: seq<int>,
                      vis2: seq<bool>, pai2: seq<int>, depth2: seq<int>, st: seq<int>, v: int, clean: bool, i: int)
    requires Fits(adj, n) && 0 <= v < n
    requires Scanning(adj, n, vis0, pai0, depth0, vis1, pai1, depth1, st, v, clean, i)
    requires Grows(n, vis1, vis2, pai1, pai2, depth1, depth2, v)
    requires NewParentsAdjacent(adj, n, vis1, vis2, pai2, v)
    requires ReportedSince(adj, n, vis1, vis2, pai2, v)
    ensures Reported(adj, n, vis0, pai0, depth0, vis2, pai2, depth2, st, v)
  {
    GrowsTrans(n, vis0, vis1, vis2, pai0, pai1, pai2, depth0, depth1, depth2, v);
    NewParentsTrans(adj, n, vis0, vis1, vis2, pai1, pai2, depth1, depth2, v);
    ReportedEarlier(adj, n, vis0, vis1, vis2, pai2, v, v);
  }

  /**
   * DFS: marks `v` visited and scans its neighbours in index order (`ScanNeighbour`);
   * the call returns true as soon as one scan does.
   *
   * Whatever the state, the call keeps to `Grows`, leaves `v` visited, gives every other
   * vertex it visits a neighbour as parent, and keeps the parents of visited vertices
   * visited. A true result comes with the edge it reports:
   * `v` or a vertex the call visited has a visited neighbour that is neither its parent
   * nor its child. A false result leaves every neighbour of `v` its parent or its child.
   * From a clean state, a true result comes with a simple cycle `cycle`, and a false
   * result leaves the state clean.
   */
  method Dfs(adj: array2<int>, n: int, v: int, visitado: array<bool>, pai: array<int>,
             ghost st: seq<int>, ghost depth: seq<int>, ghost clean: bool)
      returns (found: bool, ghost depth': seq<int>, ghost cycle: seq<int>)
    requires Fits(adj, n) && n <= visitado.Length && n <= pai.Length && |depth| == n
    requires 0 <= v < n && !visitado[v]
    requires ParentsVisited(n, visitado[..n], pai[..n]) && (0 <= pai[v] < n ==> visitado[pai[v]])
    requires clean ==> CleanEntry(adj, n, visitado[..n], pai[..n], depth, st, v)
    modifies visitado, pai
    decreases |Unvisited(visitado[..], n)|, 0
    ensures Grows(n, old(visitado[..n]), visitado[..n], old(pai[..n]), pai[..n], depth, depth', v)
    ensures visitado[v] && depth'[v] == |st| && pai[v] == old(pai[v])
    ensures NewParentsAdjacent(adj, n, old(visitado[..n]), visitado[..n], pai[..n], v)
    ensures ParentsVisited(n, visitado[..n], pai[..n])
    ensures found ==> ReportedSince(adj, n, old(visitado[..n]), visitado[..n], pai[..n], v)
    ensures !found ==> ParentOrChild(adj, n, visitado[..n], pai[..n], v, n)
    ensures clean && found ==> IsSimpleCycle(adj, n, cycle)
    ensures clean && !found ==> Clean(adj, n, visitado[..n], pai[..n], depth', st)
  {
    ghost var vis0 := visitado[..n];
    ghost var pai0 := pai[..n];
    visitado[v] := true;
    depth' := depth[v := |st|];
    cycle := [];
    ScanningStart(adj, n, vis0, pai0, depth, st, v, clean);

    var i := 0;
    while i < n
      invariant Scanning(adj, n, vis0, pai0, depth, visitado[..n], pai[..n], depth', st, v, clean, i)
    {
      assert v in Unvisited(old(visitado[..]), n) && v !in Unvisited(visitado[..], n);
      assert Unvisited(visitado[..], n) <= Unvisited(old(visitado[..]), n);
      ProperSubsetSmaller(Unvisited(visitado[..], n), Unvisited(old(visitado[..]), n), v);
      found, depth', cycle := ScanNeighbour(adj, n, v, i, visitado, pai, st, vis0, pai0, depth, depth', clean);
      if found {
        return;
      }
      i := i + 1;
    }
    if clean {
      ScanEnd(adj, n, visitado[..n], pai[..n], depth', st, v);
    }
    found := false;
  }

  /**
   * One iteration of DFS's loop over the neighbours of `v`: when adj[v][i] is 1, an
   * unvisited `i` gets pai[i] = v and is explored, and a visited `i` other than pai[v]
   * is a back edge. True means a cycle was reported. The scan moves the state of the
   * loop (`Scanning`) from `i` to `i + 1`, or ends the call with a report (`Reported`).
   */
  method ScanNeighbour(adj: array2<int>, n: int, v: int, i: int, visitado: array<bool>, pai: array<int>,
                       ghost st: seq<int>, ghost vis0: seq<bool>, ghost pai0: seq<int>, ghost depth0: seq<int>,
                       ghost depth: seq<int>, ghost clean: bool)
      returns (found: bool, ghost depth': seq<int>, ghost cycle: seq<int>)
    requires Fits(adj, n) && n <= visitado.Length && n <= pai.Length && 0 <= v < n && 0 <= i < n
    requires Scanning(adj, n, vis0, pai0, depth0, visitado[..n], pai[..n], depth, st, v, clean, i)
    modifies visitado, pai
    decreases |Unvisited(visitado[..], n)|, 2
    ensures Grows(n, old(visitado[..n]), visitado[..n], old(pai[..n]), pai[..n], depth, depth', v)
    ensures adj[v, i] != 1 ==> !found && visitado[..n] == old(visitado[..n]) && pai[..n] == old(pai[..n])
    ensures adj[v, i] == 1 && old(visitado[i]) ==>
      (found <==> i != old(pai[v])) && visitado[..n] == old(visitado[..n]) && pai[..n] == old(pai[..n])
    ensures adj[v, i] == 1 && !old(visitado[i]) ==> visitado[i] && pai[i] == v
    ensures !found ==> Scanning(adj, n, vis0, pai0, depth0, visitado[..n], pai[..n], depth', st, v, clean, i + 1)
    ensures found ==> Reported(adj, n, vis0, pai0, depth0, visitado[..n], pai[..n], depth', st, v)
    ensures clean && found ==> IsSimpleCycle(adj, n, cycle)
  {
    ghost var s := st + [v];
    ghost var visBefore := visitado[..n];
    ghost var paiBefore := pai[..n];
    found, depth', cycle := false, depth, [];
    if adj[v, i] == 1 {
      if !visitado[i] {
        found, depth', cycle := ScanChild(adj, n, v, i, visitado, pai, st, vis0, pai0, depth0, depth, clean);
      } else if i != pai[v] {
        if clean {
          cycle := ScanBackEdge(adj, n, visitado[..n], pai[..n], depth, s, i);
        }
        assert BackEdge(adj, n, visitado[..n], pai[..n], v, i);
        ScanningFound(adj, n, vis0, pai0, depth0, visBefore, paiBefore, depth,
                      visitado[..n], pai[..n], depth', st, v, clean, i);
        found := true;
      } else {
        if clean {
          ScanParentEdge(adj, n, visitado[..n], pai[..n], depth, s, i);
        }
        ScanningNext(adj, n, vis0, pai0, depth0, visBefore, paiBefore, depth,
                     visitado[..n], pai[..n], depth', st, v, clean, i);
        found := false;
      }
    } else {
      ScanningNext(adj, n, vis0, pai0, depth0, visBefore, paiBefore, depth,
                   visitado[..n], pai[..n], depth', st, v, clean, i);
      found := false;
    }
  }

  /**
   * The branch of DFS's loop for an unvisited neighbour `i`: pai[i] = v and the DFS of
   * `i`, whose report is the caller's.
   */
  method ScanChild(adj: array2<int>, n: int, v: int, i: int, visitado: array<bool>, pai: array<int>,
                   ghost st: seq<int>, ghost vis0: seq<bool>, ghost pai0: seq<int>, ghost depth0: seq<int>,
                   ghost depth: seq<int>, ghost clean: bool)
      returns (found: bool, ghost depth': seq<int>, ghost cycle: seq<int>)
    requires Fits(adj, n) && n <= visitado.Length && n <= pai.Length && 0 <= v < n && 0 <= i < n
    requires Scanning(adj, n, vis0, pai0, depth0, visitado[..n], pai[..n], depth, st, v, clean, i)
    requires adj[v, i] == 1 && !visitado[i]
    modifies visitado, pai
    decreases |Unvisited(visitado[..], n)|, 1
    ensures Grows(n, old(visitado[..n]), visitado[..n], old(pai[..n]), pai[..n], depth, depth', v)
    ensures visitado[i] && pai[i] == v
    ensures !found ==> Scanning(adj, n, vis0, pai0, depth0, visitado[..n], pai[..n], depth', st, v, clean, i + 1)
    ensures found ==> Reported(adj, n, vis0, pai0, depth0, visitado[..n], pai[..n], depth', st, v)
    ensures clean && found ==> IsSimpleCycle(adj, n, cycle)
  {
    ghost var s := st + [v];
    ghost var visBefore := visitado[..n];
    ghost var paiBefore := pai[..n];
    pai[i] := v;
    assert pai[..n] == paiBefore[i := v];
    if clean {
      ScanChildEntry(adj, n, visBefore, paiBefore, pai[..n], depth, s, i);
    }
    found, depth', cycle := Dfs(adj, n, i, visitado, pai, s, depth, clean);
    GrowsThroughChild(n, visBefore, visitado[..n], paiBefore, pai[..n], depth, depth', v, i);
    ChildFacts(n, visBefore, visitado[..n], paiBefore, pai[..n], depth, depth', v, i);
    ChildParentsAdjacent(adj, n, visBefore, visitado[..n], pai[..n], v, i);
    if found {
      ReportedEarlier(adj, n, visBefore, visBefore, visitado[..n], pai[..n], i, v);
      ScanningFound(adj, n, vis0, pai0, depth0, visBefore, paiBefore, depth,
                    visitado[..n], pai[..n], depth', st, v, clean, i);
    } else {
      if clean {
        ScanChildExit(adj, n, visBefore, visitado[..n], paiBefore, pai[..n], depth, depth', s, i);
      }
      ScanningNext(adj, n, vis0, pai0, depth0, visBefore, paiBefore, depth,
                   visitado[..n], pai[..n], depth', st, v, clean, i);
    }
  }

  // ---- lemmas for the steps of Dfs ----

  lemma ProperSubsetSmaller(a: set<int>, b: set<int>, x: int)
    requires a <= b && x in b && x !in a
    ensures |a| < |b|
  {
    var c := b - {x};
    assert c == a + (c - a) && a * (c - a) == {};
    assert |c| == |b| - 1;
  }

  /** Pushing `v` onto the running calls keeps the stack a path. */
  lemma StackPush(adj: array2<int>, n: int, vis0: seq<bool>, vis1: seq<bool>, pai: seq<int>,
                  depth0: seq<int>, depth1: seq<int>, st: seq<int>, v: int)
    requires CleanEntry(adj, n, vis0, pai, depth0, st, v)
    requires vis1 == vis0[v := true] && depth1 == depth0[v := |st|]
    ensures StackPath(adj, n, vis1, pai, depth1, st + [v])
  {
    var s := st + [v];
    assert forall k :: 0 <= k < |st| ==> s[k] == st[k];
    forall k | 0 <= k < |st| ensures st[k] != v && vis1[st[k]] && depth1[st[k]] == k {
      assert vis0[st[k]] && depth0[st[k]] == k;
    }
    assert Distinct(s);
    forall k | 0 <= k < |s| - 1 ensures adj[s[k], s[k + 1]] == 1 && pai[s[k + 1]] == s[k] {
      if k + 1 == |st| {
        assert s[k] == st[|st| - 1] && s[k + 1] == v;
      } else {
        assert s[k] == st[k] && s[k + 1] == st[k + 1];
      }
    }
  }

  lemma ScanStart(adj: array2<int>, n: int, vis0: seq<bool>, vis1: seq<bool>, pai: seq<int>,
                  depth0: seq<int>, depth1: seq<int>, st: seq<int>, v: int)
    requires CleanEntry(adj, n, vis0, pai, depth0, st, v)
    requires vis1 == vis0[v := true] && depth1 == depth0[v := |st|]
    ensures Scanned(adj, n, vis1, pai, depth1, st + [v], 0)
  {
    StackPush(adj, n, vis0, vis1, pai, depth0, depth1, st, v);
    var s := st + [v];
    forall x, j | 0 <= x < n && 0 <= j < n && vis1[x] && x !in s && adj[x, j] == 1
      ensures vis1[j] && TreeEdge(pai, depth1, x, j)
    {
      assert x != v && x !in st && vis0[x];
      assert vis0[j] && TreeEdge(pai, depth0, x, j);
    }
  }

  lemma ScanChildEntry(adj: array2<int>, n: int, vis: seq<bool>, pai0: seq<int>, pai1: seq<int>,
                       depth: seq<int>, s: seq<int>, i: int)
    requires Scanned(adj, n, vis, pai0, depth, s, i)
    requires i < n && adj[s[|s| - 1], i] == 1 && !vis[i] && pai1 == pai0[i := s[|s| - 1]]
    ensures CleanEntry(adj, n, vis, pai1, depth, s, i)
    ensures Scanned(adj, n, vis, pai1, depth, s, i)
  {
  }

  lemma ScanBackEdge(adj: array2<int>, n: int, vis: seq<bool>, pai: seq<int>, depth: seq<int>,
                     s: seq<int>, i: int) returns (cycle: seq<int>)
    requires Scanned(adj, n, vis, pai, depth, s, i)
    requires i < n && adj[s[|s| - 1], i] == 1 && vis[i] && i != pai[s[|s| - 1]]
    ensures IsSimpleCycle(adj, n, cycle)
  {
    var v := s[|s| - 1];
    assert i in s;
    var k :| 0 <= k < |s| && s[k] == i;
    assert k != |s| - 1;
    assert k != |s| - 2;
    StackCycle(adj, n, vis, pai, depth, s, k);
    cycle := s[k..];
  }

  lemma ScanParentEdge(adj: array2<int>, n: int, vis: seq<bool>, pai: seq<int>, depth: seq<int>,
                       s: seq<int>, i: int)
    requires Scanned(adj, n, vis, pai, depth, s, i)
    requires i < n && adj[s[|s| - 1], i] == 1 && vis[i] && i == pai[s[|s| - 1]]
    ensures Scanned(adj, n, vis, pai, depth, s, i + 1)
  {
    var v := s[|s| - 1];
    assert i in s;
    var k :| 0 <= k < |s| && s[k] == i;
    assert k != |s| - 1;
    assert TreeEdge(pai, depth, v, i);
  }

  /** Every finished vertex adjacent to `v` after the call on child `i` is `i` or was scanned before. */
  lemma ChildClosesAtParent(adj: array2<int>, n: int, vis0: seq<bool>, vis1: seq<bool>, pai0: seq<int>, pai1: seq<int>,
                            depth0: seq<int>, depth1: seq<int>, s: seq<int>, i: int)
    requires Scanned(adj, n, vis0, pai0, depth0, s, i)
    requires i < n && !vis0[i]
    requires Grows(n, vis0, vis1, pai0[i := s[|s| - 1]], pai1, depth0, depth1, i) && vis1[i]
    requires pai1[i] == s[|s| - 1]
    requires Clean(adj, n, vis1, pai1, depth1, s)
    ensures forall x :: 0 <= x < n && vis1[x] && x !in s && adj[x, s[|s| - 1]] == 1 ==> x < i + 1
  {
    var v := s[|s| - 1];
    forall x | 0 <= x < n && vis1[x] && x !in s && adj[x, v] == 1
      ensures x < i + 1
    {
      if !vis0[x] {
        assert TreeEdge(pai1, depth1, x, v);
      }
    }
  }

  lemma ScanChildExit(adj: array2<int>, n: int, vis0: seq<bool>, vis1: seq<bool>, pai0: seq<int>, pai1: seq<int>,
                      depth0: seq<int>, depth1: seq<int>, s: seq<int>, i: int)
    requires Scanned(adj, n, vis0, pai0, depth0, s, i)
    requires i < n && adj[s[|s| - 1], i] == 1 && !vis0[i]
    requires Grows(n, vis0, vis1, pai0[i := s[|s| - 1]], pai1, depth0, depth1, i) && vis1[i]
    requires pai1[i] == s[|s| - 1] && depth1[i] == |s|
    requires Clean(adj, n, vis1, pai1, depth1, s)
    ensures Scanned(adj, n, vis1, pai1, depth1, s, i + 1)
  {
    var v := s[|s| - 1];
    ChildClosesAtParent(adj, n, vis0, vis1, pai0, pai1, depth0, depth1, s, i);
    forall j | 0 <= j < i + 1 && adj[v, j] == 1
      ensures vis1[j] && TreeEdge(pai1, depth1, v, j)
    {
      if j < i {
        assert TreeEdge(pai0, depth0, v, j);
      }
    }
  }

  lemma ScanEnd(adj: array2<int>, n: int, vis: seq<bool>, pai: seq<int>, depth: seq<int>, st: seq<int>, v: int)
    requires Scanned(adj, n, vis, pai, depth, st + [v], n)
    ensures Clean(adj, n, vis, pai, depth, st)
  {
    var s := st + [v];
    assert forall k :: 0 <= k < |st| ==> s[k] == st[k];
    assert forall x :: x in s <==> x in st || x == v;
  }

  /**
   * After the outer loop of contarCiclosPorDFS, with no cycle reported and every vertex
   * visited, every edge is a tree edge, so the graph has no cycle.
   */
  lemma CleanEndHasNoCycle(adj: array2<int>, n: int, vis: seq<bool>, pai: seq<int>, depth: seq<int>)
    requires Clean(adj, n, vis, pai, depth, [])
    requires forall k :: 0 <= k < n ==> vis[k]
    ensures !HasCycle(adj, n)
  {
    TreeEdgesHaveNoCycle(adj, n, pai, depth);
  }
}
