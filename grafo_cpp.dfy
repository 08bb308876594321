/**
 * Grafo.cpp: a `Graph` with one adjacency list per vertex and a `foundCycles` set of
 * sorted vertex vectors, filled either by extending runs of adjacent vertices over
 * every ordering of the vertices (method 1) or by a path-based DFS from every vertex
 * (method 2). Both fill `foundCycles` with the keys of exactly the simple cycles.
 *
 * An edge u -> v is "v occurs in adj[u]", the test isEdge makes; the lists need not
 * be symmetric for the results below.
 */
module GrafoCpp {
  import opened Vertices
  import opened Sorting
  import opened Orderings

  // ---------------------------------------------------------------------------
  // Cycles and their keys
  // ---------------------------------------------------------------------------

  /** Each entry of `c` lists the next one in its adjacency list. */
  ghost predicate Chain(adj: seq<seq<int>>, c: seq<int>)
  {
    forall k :: 0 <= k < |c| - 1 ==> 0 <= c[k] < |adj| && c[k + 1] in adj[c[k]]
  }

  /**
   * A simple cycle: at least 3 distinct vertices, each listing the next, the last
   * listing the first.
   */
  ghost predicate IsCycle(adj: seq<seq<int>>, V: int, c: seq<int>)
  {
    |adj| == V && |c| >= 3 && InRange(c, V) && Distinct(c) && Chain(adj, c) &&
    c[0] in adj[c[|c| - 1]]
  }

  /** The key recorded for a cycle: its vertices in ascending order. */
  ghost predicate IsCycleKey(adj: seq<seq<int>>, V: int, key: seq<int>)
  {
    exists c :: IsCycle(adj, V, c) && key == Sort(c)
  }

  /** The key of a cycle through vertex s that starts at s. */
  ghost predicate IsCycleKeyFrom(adj: seq<seq<int>>, V: int, s: int, key: seq<int>)
  {
    exists c :: IsCycle(adj, V, c) && c[0] == s && key == Sort(c)
  }

  /** A path of distinct vertices, each listing the next. */
  ghost predicate SimplePath(adj: seq<seq<int>>, V: int, q: seq<int>)
  {
    |adj| == V && |q| >= 1 && InRange(q, V) && Distinct(q) && Chain(adj, q)
  }

  /** `c` begins with the vertices of `q`. */
  ghost predicate Begins(c: seq<int>, q: seq<int>)
  {
    |q| <= |c| && c[..|q|] == q
  }

  /** The key of a cycle that begins with the path `q`. */
  ghost predicate ExtendsTo(adj: seq<seq<int>>, V: int, q: seq<int>, key: seq<int>)
  {
    exists c :: IsCycle(adj, V, c) && Begins(c, q) && key == Sort(c)
  }

  /**
   * The step of `c` after the prefix `q` goes to a vertex of `N`: to its next vertex,
   * or back to its first one when `c` is `q` itself.
   */
  ghost predicate NextIn(c: seq<int>, q: seq<int>, N: seq<int>)
  {
    (|c| == |q| && |c| > 0 && c[0] in N) || (|c| > |q| && c[|q|] in N)
  }

  /** The key of a cycle that begins with `q` and steps from there into `N`. */
  ghost predicate ExtendsVia(adj: seq<seq<int>>, V: int, q: seq<int>, N: seq<int>, key: seq<int>)
  {
    exists c :: IsCycle(adj, V, c) && Begins(c, q) && NextIn(c, q, N) && key == Sort(c)
  }

  /** The last vertex of a path of distinct vertices is not among the ones before it. */
  lemma LastIsNew(path: seq<int>, v: int)
    requires Distinct(path + [v])
    ensures v !in path
  {
    forall k | 0 <= k < |path| ensures path[k] != v {
      assert (path + [v])[k] == path[k] && (path + [v])[|path|] == v;
    }
  }

  /** The run `c` has more than 2 vertices and its last vertex lists its first. */
  ghost predicate Closes(adj: seq<seq<int>>, c: seq<int>)
  {
    |c| > 2 && 0 <= c[|c| - 1] < |adj| && c[0] in adj[c[|c| - 1]]
  }

  /** `F` holds the keys in `Old` and those of the cycles that begin with `q` and step into `N`. */
  ghost predicate RecordsVia(adj: seq<seq<int>>, V: int, F: set<seq<int>>, Old: set<seq<int>>, q: seq<int>, N: seq<int>)
  {
    forall key :: key in F <==> key in Old || ExtendsVia(adj, V, q, N, key)
  }

  /** Every key is a strictly increasing vector of at least 3 vertices. */
  lemma CycleKeyShape(adj: seq<seq<int>>, V: int, key: seq<int>)
    requires IsCycleKey(adj, V, key)
    ensures |key| >= 3 && InRange(key, V)
    ensures forall k, l :: 0 <= k < l < |key| ==> key[k] < key[l]
  {
    var c :| IsCycle(adj, V, c) && key == Sort(c);
    SortSpec(c);
    SortDistinct(c);
    SameEntries(key, c, V);
  }

  /** With fewer than 3 vertices there is no cycle, so no key. */
  lemma SmallGraphNoKey(adj: seq<seq<int>>, V: int, key: seq<int>)
    requires V < 3
    ensures !IsCycleKey(adj, V, key)
  {
    if IsCycleKey(adj, V, key) {
      var c :| IsCycle(adj, V, c) && key == Sort(c);
      DistinctFitsRange(c, V);
    }
  }

  // ---------------------------------------------------------------------------
  // The graph
  // ---------------------------------------------------------------------------

  class Graph {
    var V: int
    var adj: seq<seq<int>>
    var foundCycles: set<seq<int>>

    /** One list per vertex, holding vertices. */
    ghost predicate Valid()
      reads this`V, this`adj
    {
      V >= 0 && |adj| == V && forall u :: 0 <= u < V ==> InRange(adj[u], V)
    }

    /** Graph(V): V empty lists and no cycles recorded. */
    constructor (V: int)
      requires V >= 0
      ensures Valid() && this.V == V && foundCycles == {}
      ensures forall u :: 0 <= u < V ==> adj[u] == []
    {
      this.V := V;
      adj := seq(V, _ => []);
      foundCycles := {};
    }

    /**
     * addEdge: appends v to u's list and u to v's list, even when they are there
     * already; no other list changes.
     */
    method AddEdge(u: int, v: int)
      requires Valid() && 0 <= u < V && 0 <= v < V
      modifies this
      ensures Valid() && V == old(V) && foundCycles == old(foundCycles)
      ensures var a := old(adj)[u := old(adj)[u] + [v]]; adj == a[v := a[v] + [u]]
      ensures v in adj[u] && u in adj[v]
      ensures forall w :: 0 <= w < V && w != u && w != v ==> adj[w] == old(adj[w])
    {
      adj := adj[u := adj[u] + [v]];
      adj := adj[v := adj[v] + [u]];
    }

    /** isEdge: a linear search of u's list for v. */
    method IsEdge(u: int, v: int) returns (r: bool)
      requires Valid() && 0 <= u < V
      ensures r <==> v in adj[u]
    {
      var list := adj[u];
      var k := 0;
      while k < |list| && list[k] != v
        invariant 0 <= k <= |list|
        invariant v !in list[..k]
      {
        k := k + 1;
      }
      r := k < |list|;
    }

    /**
     * dfs: extends the path by `current`, records the key of the path when `current`
     * lists `start` and the path has more than 2 vertices, and recurses into every
     * listed vertex not on the path; on return the path and the flags are as on
     * entry. It records the keys of exactly the cycles that begin with the path.
     */
    method Dfs(start: int, current: int, path: seq<int>, visited: array<bool>) returns (path': seq<int>)
      requires Valid() && visited.Length == V
      requires 0 <= current < V && SimplePath(adj, V, path + [current]) && (path + [current])[0] == start
      requires forall x :: 0 <= x < V ==> (visited[x] <==> x in path)
      modifies this`foundCycles, visited
      decreases V - |path|, 1
      ensures path' == path
      ensures forall x :: 0 <= x < V ==> visited[x] == old(visited[x])
      ensures forall key :: key in foundCycles <==> key in old(foundCycles) || ExtendsTo(adj, V, path + [current], key)
    {
      visited[current] := true;
      var p := path + [current];
      DistinctFitsRange(p, V);
      var neighbours := adj[current];
      var t := 0;
      while t < |neighbours|
        invariant 0 <= t <= |neighbours|
        invariant p == path + [current]
        invariant forall x :: 0 <= x < V ==> (visited[x] <==> x in p)
        invariant RecordsVia(adj, V, foundCycles, old(foundCycles), p, neighbours[..t])
      {
        var neighbor := neighbours[t];
        assert neighbours[..t + 1] == neighbours[..t] + [neighbor];
        Visit(start, p, neighbor, visited, neighbours[..t], old(foundCycles));
        t := t + 1;
      }
      assert neighbours[..t] == adj[current];
      StepEnd(adj, V, p, old(foundCycles), foundCycles);
      LastIsNew(path, current);
      visited[current] := false;
      path' := p[..|p| - 1];
    }

    /**
     * One pass of dfs's loop over the list of the last vertex of `p`: records the key
     * of `p` when `w` is `start` and `p` has more than 2 vertices, recurses into `w`
     * when it is not on the path, and otherwise does nothing.
     */
    method Visit(start: int, p: seq<int>, w: int, visited: array<bool>, ghost N: seq<int>, ghost Old: set<seq<int>>)
      requires Valid() && visited.Length == V
      requires SimplePath(adj, V, p) && p[0] == start && w in adj[p[|p| - 1]]
      requires forall x :: 0 <= x < V ==> (visited[x] <==> x in p)
      requires RecordsVia(adj, V, foundCycles, Old, p, N)
      modifies this`foundCycles, visited
      decreases V - |p| + 1, 0
      ensures forall x :: 0 <= x < V ==> visited[x] == old(visited[x])
      ensures RecordsVia(adj, V, foundCycles, Old, p, N + [w])
    {
      ghost var found0 := foundCycles;
      assert 0 <= w < V;
      if w == start && |p| > 2 {
        var cycle := Sort(p);
        if cycle !in foundCycles {
          foundCycles := foundCycles + {cycle};
        }
        assert foundCycles == found0 + {cycle};
        StepClosing(adj, V, p, N, w, N + [w], Old, found0, foundCycles);
      } else if !visited[w] {
        DistinctFitsRange(p, V);
        var p' := Dfs(start, w, p, visited);
        StepDeeper(adj, V, p, N, w, N + [w], Old, found0, foundCycles);
      } else {
        StepBlocked(adj, V, p, N, w, N + [w], Old, foundCycles);
      }
    }

    /**
     * findCyclesByDFS: clears the set and runs dfs from every vertex with fresh flags
     * and an empty path. Afterwards the set holds the keys of exactly the simple cycles.
     */
    method FindCyclesByDfs()
      requires Valid()
      modifies this`foundCycles
      ensures forall key :: key in foundCycles <==> IsCycleKey(adj, V, key)
    {
      foundCycles := {};
      for i := 0 to V
        invariant forall key :: key in foundCycles <==> exists s :: 0 <= s < i && IsCycleKeyFrom(adj, V, s, key)
      {
        var visited := new bool[V](_ => false);
        var path: seq<int> := [];
        assert [] + [i] == [i];
        assert SimplePath(adj, V, [i]);
        ghost var found0 := foundCycles;
        path := Dfs(i, i, path, visited);
        StepRoot(adj, V, i, found0, foundCycles);
      }
      AllRoots(adj, V, foundCycles);
    }

    /**
     * The two calls main makes on each generated graph, the timing around them left
     * out: the two methods leave the same set, the keys of the simple cycles.
     */
    method RunBothFinders() returns (byPermutation: set<seq<int>>, byDfs: set<seq<int>>)
      requires Valid()
      modifies this`foundCycles
      ensures byPermutation == byDfs == foundCycles
      ensures forall key :: key in byDfs <==> IsCycleKey(adj, V, key)
    {
      FindCyclesByPermutation();
      byPermutation := foundCycles;
      FindCyclesByDfs();
      byDfs := foundCycles;
    }

    /**
     * findCyclesByPermutation: clears the set, then for every ordering of the
     * vertices and every position i grows the run ordering[i], ordering[i+1], ... while
     * each vertex lists the next, and records the sorted run whenever it has more than
     * 2 vertices and its last vertex lists its first. Afterwards the set holds the keys
     * of exactly the simple cycles.
     */
    method FindCyclesByPermutation()
      requires Valid()
      modifies this`foundCycles
      ensures foundCycles == AllKeys(adj, Leaves(Identity(V), 0), |Leaves(Identity(V), 0)|)
      ensures forall key :: key in foundCycles <==> IsCycleKey(adj, V, key)
    {
      var vertices := seq(V, _ => 0);
      for i := 0 to V
        invariant |vertices| == V && forall k :: 0 <= k < i ==> vertices[k] == k
      {
        vertices := vertices[i := i];
      }
      assert vertices == Identity(V);
      foundCycles := {};
      var orderings := Leaves(vertices, 0);
      OrderingsOfVertices(V);
      for t := 0 to |orderings|
        invariant foundCycles == AllKeys(adj, orderings, t)
      {
        var p := orderings[t];
        assert p in orderings;
        ScanOrdering(p);
      }
      PermutationKeys(adj, V);
    }

    /**
     * The body of findCyclesByPermutation's do-while loop: the runs from every position
     * of the ordering `p` in turn.
     */
    method ScanOrdering(p: seq<int>)
      requires Valid() && |p| == V && InRange(p, V)
      modifies this`foundCycles
      ensures foundCycles == old(foundCycles) + OrderKeys(adj, p, V)
    {
      for i := 0 to V
        invariant foundCycles == old(foundCycles) + OrderKeys(adj, p, i)
      {
        ghost var before := foundCycles;
        GrowRun(p, i);
        UnionStep(foundCycles, before, old(foundCycles), OrderKeys(adj, p, i), OrderKeys(adj, p, i + 1),
                  RunKeys(adj, p, i, V));
      }
    }

    /**
     * One pass of the i loop of findCyclesByPermutation: the run from position i of the
     * ordering `p`, stopped at the first vertex not listed by its predecessor, records
     * the key of each prefix of more than 2 vertices whose last vertex lists its first.
     */
    method GrowRun(p: seq<int>, i: int)
      requires Valid() && |p| == V && InRange(p, V) && 0 <= i < V
      modifies this`foundCycles
      ensures foundCycles == old(foundCycles) + RunKeys(adj, p, i, V)
    {
      var cycle := [p[i]];
      var j := i + 1;
      assert cycle == p[i..j];
      while j < V
        invariant i + 1 <= j <= V
        invariant cycle == p[i..j]
        invariant Reaches(adj, p, i, j)
        invariant foundCycles == old(foundCycles) + RunKeys(adj, p, i, j)
      {
        var e := IsEdge(cycle[|cycle| - 1], p[j]);
        if !e {
          RunStops(adj, p, i, j, V);
          break;
        }
        cycle := cycle + [p[j]];
        assert cycle == p[i..j + 1];
        RunGrows(adj, p, i, j, cycle);
        ghost var before := foundCycles;
        RecordIfClosed(cycle);
        UnionStep(foundCycles, before, old(foundCycles), RunKeys(adj, p, i, j), RunKeys(adj, p, i, j + 1),
                  if Closes(adj, cycle) then {Sort(cycle)} else {});
        j := j + 1;
      }
    }

    /**
     * The body of the j loop after the push: when the run has more than 2 vertices and
     * its last vertex lists its first, the sorted copy is inserted unless present.
     */
    method RecordIfClosed(cycle: seq<int>)
      requires Valid() && |cycle| >= 1 && InRange(cycle, V)
      modifies this`foundCycles
      ensures foundCycles == old(foundCycles) + if Closes(adj, cycle) then {Sort(cycle)} else {}
    {
      if |cycle| > 2 {
        var closes := IsEdge(cycle[|cycle| - 1], cycle[0]);
        if closes {
          var sortedCycle := Sort(cycle);
          if sortedCycle !in foundCycles {
            foundCycles := foundCycles + {sortedCycle};
          }
        }
      }
    }
  }

  /** The loop invariant of findCyclesByDFS after the run from root i. */
  lemma StepRoot(adj: seq<seq<int>>, V: int, i: int, F0: set<seq<int>>, F1: set<seq<int>>)
    requires forall key :: key in F0 <==> exists s :: 0 <= s < i && IsCycleKeyFrom(adj, V, s, key)
    requires forall key :: key in F1 <==> key in F0 || ExtendsTo(adj, V, [] + [i], key)
    ensures forall key :: key in F1 <==> exists s :: 0 <= s < i + 1 && IsCycleKeyFrom(adj, V, s, key)
  {
    assert [] + [i] == [i];
    forall key ensures key in F1 <==> exists s :: 0 <= s < i + 1 && IsCycleKeyFrom(adj, V, s, key) {
      FromFirstVertex(adj, V, i, key);
    }
  }

  /** Runs from every vertex cover every cycle, since each cycle starts at one of them. */
  lemma AllRoots(adj: seq<seq<int>>, V: int, F: set<seq<int>>)
    requires forall key :: key in F <==> exists s :: 0 <= s < V && IsCycleKeyFrom(adj, V, s, key)
    ensures forall key :: key in F <==> IsCycleKey(adj, V, key)
  {
    forall key ensures key in F <==> IsCycleKey(adj, V, key) {
      if IsCycleKey(adj, V, key) {
        var c :| IsCycle(adj, V, c) && key == Sort(c);
        assert IsCycleKeyFrom(adj, V, c[0], key);
      }
    }
  }

  // ---------------------------------------------------------------------------
  // Steps of dfs
  // ---------------------------------------------------------------------------

  /** The key of a cycle that begins with `q` and steps from there to `w`. */
  ghost predicate Through(adj: seq<seq<int>>, V: int, q: seq<int>, w: int, key: seq<int>)
  {
    exists c :: IsCycle(adj, V, c) && Begins(c, q) && NextIn(c, q, [w]) && key == Sort(c)
  }

  lemma NextInAppend(c: seq<int>, q: seq<int>, N: seq<int>, w: int)
    ensures NextIn(c, q, N + [w]) <==> NextIn(c, q, N) || NextIn(c, q, [w])
  {
  }

  /** Stepping into N + [w] is stepping into N or to w. */
  lemma ViaStep(adj: seq<seq<int>>, V: int, q: seq<int>, N: seq<int>, w: int, key: seq<int>)
    ensures ExtendsVia(adj, V, q, N + [w], key) <==>
      ExtendsVia(adj, V, q, N, key) || Through(adj, V, q, w, key)
  {
    if ExtendsVia(adj, V, q, N + [w], key) {
      var c :| IsCycle(adj, V, c) && Begins(c, q) && NextIn(c, q, N + [w]) && key == Sort(c);
      NextInAppend(c, q, N, w);
    }
    if ExtendsVia(adj, V, q, N, key) {
      var c :| IsCycle(adj, V, c) && Begins(c, q) && NextIn(c, q, N) && key == Sort(c);
      NextInAppend(c, q, N, w);
    }
    if Through(adj, V, q, w, key) {
      var c :| IsCycle(adj, V, c) && Begins(c, q) && NextIn(c, q, [w]) && key == Sort(c);
      NextInAppend(c, q, N, w);
    }
  }

  /** A cycle that begins with the path and steps back to its start is the path itself. */
  lemma ClosingIsPath(adj: seq<seq<int>>, V: int, q: seq<int>, c: seq<int>)
    requires |q| >= 1 && IsCycle(adj, V, c) && Begins(c, q) && NextIn(c, q, [q[0]])
    ensures c == q
  {
    assert c[0] == q[0];
    assert |c| == |q|;
    assert c == c[..|q|];
  }

  /** The only cycle that begins with the path and steps back to its start is the path. */
  lemma ThroughClosing(adj: seq<seq<int>>, V: int, q: seq<int>, w: int, key: seq<int>)
    requires |q| >= 1 && w == q[0] && Through(adj, V, q, w, key)
    ensures key == Sort(q)
  {
    var c :| IsCycle(adj, V, c) && Begins(c, q) && NextIn(c, q, [w]) && key == Sort(c);
    ClosingIsPath(adj, V, q, c);
  }

  /** No cycle beginning with the path steps to a vertex of the path, except back to the start. */
  lemma BlockedStep(adj: seq<seq<int>>, V: int, q: seq<int>, w: int, c: seq<int>)
    requires SimplePath(adj, V, q) && w in q && (w != q[0] || |q| <= 2)
    requires IsCycle(adj, V, c) && Begins(c, q)
    ensures !NextIn(c, q, [w])
  {
    var j :| 0 <= j < |q| && q[j] == w;
    assert c[j] == w;
  }

  /** A vertex on the path other than a closing start leads to no cycle. */
  lemma ViaBlocked(adj: seq<seq<int>>, V: int, q: seq<int>, w: int, key: seq<int>)
    requires SimplePath(adj, V, q)
    requires w in q && (w != q[0] || |q| <= 2)
    ensures !Through(adj, V, q, w, key)
  {
    if Through(adj, V, q, w, key) {
      var c :| IsCycle(adj, V, c) && Begins(c, q) && NextIn(c, q, [w]) && key == Sort(c);
      BlockedStep(adj, V, q, w, c);
    }
  }

  /** Off the path, stepping to w after q is beginning with q + [w]. */
  lemma DeeperStep(adj: seq<seq<int>>, V: int, q: seq<int>, w: int, c: seq<int>)
    requires SimplePath(adj, V, q) && w !in q && IsCycle(adj, V, c)
    ensures Begins(c, q) && NextIn(c, q, [w]) <==> Begins(c, q + [w])
  {
    if Begins(c, q) && NextIn(c, q, [w]) {
      assert c[0] == q[0];
      assert |c| > |q|;
      assert c[..|q| + 1] == c[..|q|] + [c[|q|]];
    }
    if Begins(c, q + [w]) {
      assert c[..|q|] == c[..|q| + 1][..|q|];
      assert c[|q|] == c[..|q| + 1][|q|];
    }
  }

  /** A vertex off the path: the cycles through it are those beginning with the longer path. */
  lemma ViaDeeper(adj: seq<seq<int>>, V: int, q: seq<int>, w: int, key: seq<int>)
    requires SimplePath(adj, V, q) && w !in q
    ensures Through(adj, V, q, w, key) <==> ExtendsTo(adj, V, q + [w], key)
  {
    if Through(adj, V, q, w, key) {
      var c :| IsCycle(adj, V, c) && Begins(c, q) && NextIn(c, q, [w]) && key == Sort(c);
      DeeperStep(adj, V, q, w, c);
    }
    if ExtendsTo(adj, V, q + [w], key) {
      var c :| IsCycle(adj, V, c) && Begins(c, q + [w]) && key == Sort(c);
      DeeperStep(adj, V, q, w, c);
    }
  }

  /** Every cycle beginning with q steps into the list of q's last vertex. */
  lemma AllStep(adj: seq<seq<int>>, V: int, q: seq<int>, c: seq<int>)
    requires SimplePath(adj, V, q) && IsCycle(adj, V, c) && Begins(c, q)
    ensures NextIn(c, q, adj[q[|q| - 1]])
  {
    assert c[|q| - 1] == q[|q| - 1];
    if |c| > |q| {
      assert c[|q|] in adj[c[|q| - 1]];
    }
  }

  /** Having looked at the whole list of the last vertex, every cycle beginning with q is covered. */
  lemma ViaAll(adj: seq<seq<int>>, V: int, q: seq<int>, key: seq<int>)
    requires SimplePath(adj, V, q)
    ensures ExtendsVia(adj, V, q, adj[q[|q| - 1]], key) <==> ExtendsTo(adj, V, q, key)
  {
    if ExtendsTo(adj, V, q, key) {
      var c :| IsCycle(adj, V, c) && Begins(c, q) && key == Sort(c);
      AllStep(adj, V, q, c);
    }
  }

  /** The postcondition of dfs once the whole list of the last vertex has been looked at. */
  lemma StepEnd(adj: seq<seq<int>>, V: int, q: seq<int>, Old: set<seq<int>>, F: set<seq<int>>)
    requires SimplePath(adj, V, q)
    requires RecordsVia(adj, V, F, Old, q, adj[q[|q| - 1]])
    ensures forall key :: key in F <==> key in Old || ExtendsTo(adj, V, q, key)
  {
    forall key ensures key in F <==> key in Old || ExtendsTo(adj, V, q, key) {
      ViaAll(adj, V, q, key);
    }
  }

  /** The loop invariant of dfs after a neighbour that closes the path into a cycle. */
  lemma StepClosing(adj: seq<seq<int>>, V: int, q: seq<int>, N: seq<int>, w: int, N1: seq<int>,
                    Old: set<seq<int>>, F0: set<seq<int>>, F1: set<seq<int>>)
    requires N1 == N + [w]
    requires SimplePath(adj, V, q) && |q| > 2 && w == q[0] && w in adj[q[|q| - 1]]
    requires RecordsVia(adj, V, F0, Old, q, N)
    requires F1 == F0 + {Sort(q)}
    ensures RecordsVia(adj, V, F1, Old, q, N1)
  {
    assert IsCycle(adj, V, q) && Begins(q, q) && NextIn(q, q, [w]);
    forall key ensures key in F1 <==> key in Old || ExtendsVia(adj, V, q, N1, key) {
      ViaStep(adj, V, q, N, w, key);
      if Through(adj, V, q, w, key) {
        ThroughClosing(adj, V, q, w, key);
      }
    }
  }

  /** The loop invariant of dfs after a neighbour off the path, explored by the recursive call. */
  lemma StepDeeper(adj: seq<seq<int>>, V: int, q: seq<int>, N: seq<int>, w: int, N1: seq<int>,
                   Old: set<seq<int>>, F0: set<seq<int>>, F1: set<seq<int>>)
    requires N1 == N + [w]
    requires SimplePath(adj, V, q) && w !in q
    requires RecordsVia(adj, V, F0, Old, q, N)
    requires forall key :: key in F1 <==> key in F0 || ExtendsTo(adj, V, q + [w], key)
    ensures RecordsVia(adj, V, F1, Old, q, N1)
  {
    forall key ensures key in F1 <==> key in Old || ExtendsVia(adj, V, q, N1, key) {
      ViaStep(adj, V, q, N, w, key);
      ViaDeeper(adj, V, q, w, key);
    }
  }

  /** The loop invariant of dfs after a neighbour on the path that does not close a cycle. */
  lemma StepBlocked(adj: seq<seq<int>>, V: int, q: seq<int>, N: seq<int>, w: int, N1: seq<int>,
                    Old: set<seq<int>>, F: set<seq<int>>)
    requires N1 == N + [w]
    requires SimplePath(adj, V, q) && w in q && (w != q[0] || |q| <= 2)
    requires RecordsVia(adj, V, F, Old, q, N)
    ensures RecordsVia(adj, V, F, Old, q, N1)
  {
    forall key ensures key in F <==> key in Old || ExtendsVia(adj, V, q, N1, key) {
      ViaStep(adj, V, q, N, w, key);
      ViaBlocked(adj, V, q, w, key);
    }
  }

  /** A cycle begins with [s] exactly when it starts at s. */
  lemma FromFirstVertex(adj: seq<seq<int>>, V: int, s: int, key: seq<int>)
    ensures ExtendsTo(adj, V, [s], key) <==> IsCycleKeyFrom(adj, V, s, key)
  {
    if IsCycleKeyFrom(adj, V, s, key) {
      var c :| IsCycle(adj, V, c) && c[0] == s && key == Sort(c);
      assert Begins(c, [s]);
    }
  }

  // ---------------------------------------------------------------------------
  // What findCyclesByPermutation records
  // ---------------------------------------------------------------------------

  /**
   * The run of ordering `p` from position i reaches position m - 1: each of
   * p[i+1], ..., p[m-1] is listed by its predecessor.
   */
  ghost predicate Reaches(adj: seq<seq<int>>, p: seq<int>, i: int, m: int)
    requires 0 <= i < m <= |p|
    decreases m
  {
    m == i + 1 || (Reaches(adj, p, i, m - 1) && 0 <= p[m - 2] < |adj| && p[m - 1] in adj[p[m - 2]])
  }

  /**
   * The run from position i reaches position m - 1, has more than 2 vertices, and its
   * last vertex lists its first.
   */
  ghost predicate RunCycle(adj: seq<seq<int>>, p: seq<int>, i: int, m: int)
  {
    0 <= i && i + 3 <= m <= |p| && Reaches(adj, p, i, m) &&
    0 <= p[m - 1] < |adj| && p[i] in adj[p[m - 1]]
  }

  /** A run that reaches m - 1 is a chain of listed vertices, and the converse. */
  lemma {:induction false} ReachesChain(adj: seq<seq<int>>, p: seq<int>, i: int, m: int)
    requires 0 <= i < m <= |p|
    ensures Reaches(adj, p, i, m) <==> Chain(adj, p[i..m])
    decreases m
  {
    if m > i + 1 {
      ReachesChain(adj, p, i, m - 1);
      var c := p[i..m];
      assert p[i..m - 1] == c[..|c| - 1];
      assert c[|c| - 2] == p[m - 2] && c[|c| - 1] == p[m - 1];
    }
  }

  /** The keys recorded from position i of `p` by runs that end before position m. */
  ghost function RunKeys(adj: seq<seq<int>>, p: seq<int>, i: int, m: int): set<seq<int>>
    requires 0 <= i && m <= |p|
    decreases m
  {
    if m < i + 3 then {}
    else RunKeys(adj, p, i, m - 1) + (if RunCycle(adj, p, i, m) then {Sort(p[i..m])} else {})
  }

  /** The keys recorded from the positions before i of `p`. */
  ghost function OrderKeys(adj: seq<seq<int>>, p: seq<int>, i: int): set<seq<int>>
    requires 0 <= i <= |p|
  {
    if i == 0 then {} else OrderKeys(adj, p, i - 1) + RunKeys(adj, p, i - 1, |p|)
  }

  /** The keys recorded over the first t orderings of `ps`. */
  ghost function AllKeys(adj: seq<seq<int>>, ps: seq<seq<int>>, t: int): set<seq<int>>
    requires 0 <= t <= |ps|
  {
    if t == 0 then {} else AllKeys(adj, ps, t - 1) + OrderKeys(adj, ps[t - 1], |ps[t - 1]|)
  }

  /** Every key recorded from position i comes from a closing run. */
  lemma {:induction false} RunKeysWitness(adj: seq<seq<int>>, p: seq<int>, i: int, m: int, key: seq<int>)
    returns (e: int)
    requires 0 <= i && m <= |p| && key in RunKeys(adj, p, i, m)
    ensures e <= m && RunCycle(adj, p, i, e) && key == Sort(p[i..e])
    decreases m
  {
    if key in RunKeys(adj, p, i, m - 1) {
      e := RunKeysWitness(adj, p, i, m - 1, key);
    } else {
      e := m;
    }
  }

  /** Every key recorded from an ordering comes from one of its positions. */
  lemma {:induction false} OrderKeysWitness(adj: seq<seq<int>>, p: seq<int>, i: int, key: seq<int>)
    returns (i': int)
    requires 0 <= i <= |p| && key in OrderKeys(adj, p, i)
    ensures 0 <= i' < i && key in RunKeys(adj, p, i', |p|)
    decreases i
  {
    if key in OrderKeys(adj, p, i - 1) {
      i' := OrderKeysWitness(adj, p, i - 1, key);
    } else {
      i' := i - 1;
    }
  }

  /** Every key recorded over the orderings comes from one of them. */
  lemma {:induction false} AllKeysWitness(adj: seq<seq<int>>, ps: seq<seq<int>>, t: int, key: seq<int>)
    returns (t': int)
    requires 0 <= t <= |ps| && key in AllKeys(adj, ps, t)
    ensures 0 <= t' < t && key in OrderKeys(adj, ps[t'], |ps[t']|)
    decreases t
  {
    if key in AllKeys(adj, ps, t - 1) {
      t' := AllKeysWitness(adj, ps, t - 1, key);
    } else {
      t' := t - 1;
    }
  }

  /** A run whose vertex j is not listed by vertex j - 1 does not reach past j. */
  lemma {:induction false} ReachesStops(adj: seq<seq<int>>, p: seq<int>, i: int, j: int, m: int)
    requires 0 <= i < j < m <= |p| && 0 <= p[j - 1] < |adj| && p[j] !in adj[p[j - 1]]
    ensures !Reaches(adj, p, i, m)
    decreases m
  {
    if m > j + 1 {
      ReachesStops(adj, p, i, j, m - 1);
    }
  }

  lemma UnionStep<T>(F1: set<T>, F0: set<T>, G: set<T>, R0: set<T>, R1: set<T>, X: set<T>)
    requires F1 == F0 + X && F0 == G + R0 && R1 == R0 + X
    ensures F1 == G + R1
  {
  }

  /** A run that cannot take position j records nothing from there on. */
  lemma {:induction false} RunStops(adj: seq<seq<int>>, p: seq<int>, i: int, j: int, m: int)
    requires 0 <= i < j <= m <= |p| && j < |p| && 0 <= p[j - 1] < |adj| && p[j] !in adj[p[j - 1]]
    ensures RunKeys(adj, p, i, m) == RunKeys(adj, p, i, j)
    decreases m
  {
    if m > j {
      RunStops(adj, p, i, j, m - 1);
      ReachesStops(adj, p, i, j, m);
    }
  }

  /** Taking position j extends the run, and the run records its key exactly when it closes. */
  lemma RunGrows(adj: seq<seq<int>>, p: seq<int>, i: int, j: int, c: seq<int>)
    requires 0 <= i < j < |p| && Reaches(adj, p, i, j) && 0 <= p[j - 1] < |adj| && p[j] in adj[p[j - 1]]
    requires 0 <= p[j] < |adj| && c == p[i..j + 1]
    ensures Reaches(adj, p, i, j + 1)
    ensures RunKeys(adj, p, i, j + 1) == RunKeys(adj, p, i, j) + if Closes(adj, c) then {Sort(c)} else {}
  {
    assert |c| == j + 1 - i && c[0] == p[i] && c[|c| - 1] == p[j];
  }

  /** A closing run of an ordering of distinct vertices is a simple cycle. */
  lemma RunIsCycle(adj: seq<seq<int>>, V: int, p: seq<int>, i: int, e: int)
    requires |adj| == V && InRange(p, V) && Distinct(p) && RunCycle(adj, p, i, e)
    ensures IsCycle(adj, V, p[i..e])
  {
    var c := p[i..e];
    ReachesChain(adj, p, i, e);
    assert c[0] == p[i] && c[|c| - 1] == p[e - 1];
  }

  /** Later end positions only add keys. */
  lemma {:induction false} RunKeysGrow(adj: seq<seq<int>>, p: seq<int>, i: int, e: int, m: int, key: seq<int>)
    requires 0 <= i && e <= m <= |p| && key in RunKeys(adj, p, i, e)
    ensures key in RunKeys(adj, p, i, m)
    decreases m
  {
    if m > e {
      RunKeysGrow(adj, p, i, e, m - 1, key);
    }
  }

  /** A closing run records its key. */
  lemma RunKeysHas(adj: seq<seq<int>>, p: seq<int>, i: int, e: int, m: int)
    requires RunCycle(adj, p, i, e) && e <= m <= |p|
    ensures Sort(p[i..e]) in RunKeys(adj, p, i, m)
  {
    RunKeysGrow(adj, p, i, e, m, Sort(p[i..e]));
  }

  lemma {:induction false} OrderKeysHas(adj: seq<seq<int>>, p: seq<int>, i0: int, i: int, key: seq<int>)
    requires 0 <= i0 < i <= |p| && key in RunKeys(adj, p, i0, |p|)
    ensures key in OrderKeys(adj, p, i)
    decreases i
  {
    if i - 1 > i0 {
      OrderKeysHas(adj, p, i0, i - 1, key);
    }
  }

  lemma {:induction false} AllKeysHas(adj: seq<seq<int>>, ps: seq<seq<int>>, t0: int, t: int, key: seq<int>)
    requires 0 <= t0 < t <= |ps| && key in OrderKeys(adj, ps[t0], |ps[t0]|)
    ensures key in AllKeys(adj, ps, t)
    decreases t
  {
    if t - 1 > t0 {
      AllKeysHas(adj, ps, t0, t - 1, key);
    }
  }

  /**
   * Over all orderings of the vertices, the runs record the keys of exactly the simple
   * cycles: each closing run is a cycle, and each cycle is the closing run from position
   * 0 of an ordering that begins with it.
   */
  lemma PermutationKeys(adj: seq<seq<int>>, V: nat)
    requires |adj| == V
    ensures forall key :: key in AllKeys(adj, Leaves(Identity(V), 0), |Leaves(Identity(V), 0)|) <==>
      IsCycleKey(adj, V, key)
  {
    forall key ensures key in AllKeys(adj, Leaves(Identity(V), 0), |Leaves(Identity(V), 0)|) <==>
      IsCycleKey(adj, V, key)
    {
      if key in AllKeys(adj, Leaves(Identity(V), 0), |Leaves(Identity(V), 0)|) {
        RecordedIsCycle(adj, V, key);
      }
      if IsCycleKey(adj, V, key) {
        CycleIsRecorded(adj, V, key);
      }
    }
  }

  /** Each recorded key is the key of a simple cycle. */
  lemma RecordedIsCycle(adj: seq<seq<int>>, V: nat, key: seq<int>)
    requires |adj| == V && key in AllKeys(adj, Leaves(Identity(V), 0), |Leaves(Identity(V), 0)|)
    ensures IsCycleKey(adj, V, key)
  {
    var ps := Leaves(Identity(V), 0);
    OrderingsOfVertices(V);
    var t := AllKeysWitness(adj, ps, |ps|, key);
    var p := ps[t];
    assert p in ps;
    var i := OrderKeysWitness(adj, p, |p|, key);
    var e := RunKeysWitness(adj, p, i, |p|, key);
    RunIsCycle(adj, V, p, i, e);
  }

  /** The key of each simple cycle is recorded from the ordering that begins with it. */
  lemma CycleIsRecorded(adj: seq<seq<int>>, V: nat, key: seq<int>)
    requires |adj| == V && IsCycleKey(adj, V, key)
    ensures key in AllKeys(adj, Leaves(Identity(V), 0), |Leaves(Identity(V), 0)|)
  {
    var ps := Leaves(Identity(V), 0);
    var c :| IsCycle(adj, V, c) && key == Sort(c);
    var p := ExtendToOrdering(V, c);
    LeavesComplete(Identity(V), 0, p);
    var t :| 0 <= t < |ps| && ps[t] == p;
    assert p[0..|c|] == c;
    ReachesChain(adj, p, 0, |c|);
    assert RunCycle(adj, p, 0, |c|);
    RunKeysHas(adj, p, 0, |c|, |p|);
    OrderKeysHas(adj, p, 0, |p|, key);
    AllKeysHas(adj, ps, t, |ps|, key);
  }

}
