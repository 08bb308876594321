# Cycle search in undirected graphs

A Dafny model of three small programs that look for cycles in an undirected graph.

- **Grafos.c** keeps an adjacency matrix on the heap. It counts the orderings of all
  vertices that close into a walk, by swapping entries in place and undoing each swap.
  It also counts the DFS roots whose parent-tracking depth-first search meets a back
  edge.
- **grafo.c** has the same matrix code over a fixed 10 x 10 matrix inside the struct.
  Its permutation code is commented out. Its `pai` array starts as `{-1}`, so only
  entry 0 is -1 and the others are 0.
- **Grafo.cpp** has a `Graph` class with one adjacency list per vertex and a
  `foundCycles` set of sorted vertex vectors. The set is filled in one of two ways:
  - by growing runs of adjacent vertices over every ordering of the vertices;
  - by a path-based DFS from every vertex.

  A generator adds randomly drawn edges until E distinct ones are present.

Modules:

| module | file | contents |
|---|---|---|
| `Vertices` | `vertices.dfy` | vertex sequences: in range, distinct, pigeonhole |
| `AdjMatrix` | `adj_matrix.dfy` | the matrix vocabulary (simple cycle, closed walk, undirected); `adicionarArestasAleatorias` and `verificaCiclo`, whose text is the same in both C files |
| `DfsMatrix` | `dfs_matrix.dfy` | the C `DFS` (the same text in both C files) and the proof that a clean run sees only tree edges |
| `Grafos` | `grafos.dfy` | the rest of Grafos.c |
| `GrafoFixo` | `grafo_fixo.dfy` | the rest of grafo.c |
| `Orderings` | `orderings.dfy` | the swap-and-recurse enumeration of all orderings: n! of them, each once, every rearrangement present |
| `Sorting` | `sorting.dfy` | the key of a cycle (`std::sort`) as insertion sort, with its specification |
| `GrafoCpp` | `grafo_cpp.dfy` | the `Graph` class and the proofs that both finders record exactly the keys of the simple cycles |
| `RandomGraph` | `random_graph.dfy` | `generateRandomGraph` |

The main results:

- **Grafos.c and grafo.c.** On a symmetric 0/1 matrix with a zero diagonal,
  `contarCiclosPorDFS` returns 0 exactly when the graph has no simple cycle. This holds
  in both C files. In grafo.c every vertex other than 0 starts with parent 0. While no
  cycle has been reported, a later root has no visited neighbour, so that stale parent
  changes nothing. After an early return it can hide the edge to 0: with edges 0-1,
  1-2, 2-0 and 0-3, the DFS from 0 returns at the edge 2-0 and leaves 3 unvisited.
  The DFS from 3 then reports the edge 3-0 with Grafos.c's parent -1 and nothing with
  grafo.c's stale parent 0 (`GrafoFixo.StaleParentHidesEdge`), so Grafos.c counts 2
  and grafo.c counts 1. This changes the count but not whether it is 0.
- **Grafos.c.** `contarCiclosPorPermutacao` returns the number of orderings that
  `verificaCiclo` accepts. That number lies between 0 and n!.
- **Grafo.cpp.** Each of `findCyclesByPermutation` and `findCyclesByDFS` leaves in
  `foundCycles` the sorted vertex vectors of exactly the simple cycles of at least 3
  vertices. So the two always agree.

## Model

| member | source | states |
|---|---|---|
| `AdjMatrix.AdicionarArestasAleatorias` | Grafos.c:33-43 | for each pair i < j whose coin comes up, entries [i][j] and [j][i] become 1; every other entry keeps its value; an undirected or all-zero block comes out undirected; the same text is at grafo.c:27-37 |
| `AdjMatrix.VerificaCiclo` | Grafos.c:46-56 | result 1 exactly when consecutive entries and the last and first entries are adjacent, otherwise 0; needs n >= 1 because index n - 1 is read; the same text is at grafo.c:40-50 |
| `AdjMatrix.SmallGraphNoCycle` | Grafos.c:96-116 | a graph on fewer than 3 vertices has no simple cycle |
| `DfsMatrix.Dfs` | Grafos.c:96-116 | flags are only set and `vertice` ends visited; `pai` changes only for newly visited vertices, each other than `vertice` getting a visited parent that is one of its neighbours, so parents of visited vertices stay visited; in any state, a result of 1 comes with the reported edge (a vertex this call visited, `vertice` included, has a visited neighbour that is neither its `pai` entry nor a vertex whose `pai` is it), and a result of 0 means every neighbour ends visited and is either `pai[vertice]` or has `vertice` as its parent; from a clean state, 1 comes with a simple cycle and 0 leaves the state clean; the same text is at grafo.c:89-109 |
| `DfsMatrix.ScanNeighbour` | Grafos.c:100-113 | one neighbour index, in any state: a non-neighbour reports nothing and changes nothing; a visited neighbour reports a cycle exactly when it is not `pai[vertice]`, and changes nothing; an unvisited neighbour ends visited with `pai[i] = vertice`; the loop state moves from `i` to `i + 1`, or the call ends with the reported edge |
| `DfsMatrix.ScanChild` | Grafos.c:103-108 | `pai[i] = vertice` and the DFS of the unvisited `i`: `i` ends visited with parent `vertice`, and its report is the caller's, since only `i` among the newly visited vertices has `vertice` as parent |
| `DfsMatrix.ScanBackEdge` | Grafos.c:109-111 | in a clean state, a visited neighbour that is not the parent closes a simple cycle through the running calls |
| `DfsMatrix.StackCycle` | Grafos.c:109-111 | the running calls from a stack entry up to the top, closed by an edge back to that entry, form a simple cycle |
| `DfsMatrix.TreeEdgesHaveNoCycle` | Grafos.c:119-139 | when every edge joins a vertex to its recorded parent one level up, there is no simple cycle |
| `DfsMatrix.CleanEndHasNoCycle` | Grafos.c:128-134 | with every vertex visited and no cycle reported, the graph has no simple cycle |
| `Grafos.InicializarGrafo` | Grafos.c:14-22 | a fresh vertices x vertices matrix whose entries are all 0 |
| `Grafos.Exchange` | Grafos.c:67-70 | the three-assignment exchange leaves the array with entries start and i swapped |
| `Grafos.SwapTwice` | Grafos.c:75-78 | exchanging the same two positions again restores the arrangement |
| `Grafos.Permutacao` | Grafos.c:59-80 | the array ends as on entry; the counter grows by the number of accepted arrangements among those the swap-and-recurse produces from `start` |
| `Grafos.CountClosedBounds` | Grafos.c:60-63 | the count is 0 exactly when no arrangement is accepted, and the total exactly when all are |
| `Grafos.ContarCiclosPorPermutacao` | Grafos.c:83-93 | from the identity array, the result is the number of the n! orderings that `verificaCiclo` accepts, so 0 <= result <= n! |
| `Grafos.ContarCiclosPorDfs` | Grafos.c:119-139 | 0 <= result <= numVertices; on an undirected simple graph, result 0 exactly when there is no simple cycle |
| `Grafos.FactFitsInt` | Grafos.c:62 | for up to 12 vertices n! fits in a C int, so the count, at most n!, does too |
| `Grafos.FactOverflowsInt` | Grafos.c:62 | n! exceeds INT_MAX from 13 vertices on |
| `Grafos.TwoVerticesOneEdge` | Grafos.c:46-56 | with one edge between two vertices, both orderings pass `verificaCiclo`, yet the graph has no cycle: the count is of orderings, not of cycles |
| `GrafoFixo.InicializarGrafo` | grafo.c:15-24 | zeroes the vertices x vertices block of the 10 x 10 matrix and leaves every other entry alone; needs vertices <= 10 |
| `GrafoFixo.ContarCiclosPorDfs` | grafo.c:112-126 | 0 <= result <= numVertices; on an undirected simple graph, result 0 exactly when there is no simple cycle, despite the partial `pai` initialiser |
| `GrafoFixo.TailRoot` | grafo.c:89-109 | on edges 0-1, 1-2, 2-0, 0-3, with 0, 1, 2 visited and `pai` -1, 0, 1 as the DFS from 0 leaves them, the DFS from 3 reports exactly when `pai[3]` is -1 rather than 0 |
| `GrafoFixo.StaleParentHidesEdge` | grafo.c:114 | the initialiser's stale `pai[3] = 0` hides the edge 3-0 that Grafos.c's `pai[3] = -1` reports |
| `Orderings.Swap` | Grafos.c:68-70 | entries i and j are exchanged and every other entry is unchanged |
| `Orderings.SwapMultiset` | Grafos.c:68-70 | an exchange keeps the same entries |
| `Orderings.LeavesCount` | Grafos.c:66-79 | the recursion from `start` produces (n - start)! arrangements |
| `Orderings.LeavesRearrange` | Grafos.c:66-79 | every arrangement produced has the same entries and keeps the first `start` entries |
| `Orderings.LeavesComplete` | Grafos.c:66-79 | every such rearrangement is produced |
| `Orderings.LeavesNoDuplicates` | Grafos.c:66-79 | with distinct entries, no arrangement is produced twice |
| `Orderings.AllOrderingsOnce` | Grafo.cpp:41-62 | from the identity: n! orderings, each once, and exactly the rearrangements of 0..n-1; these are the orderings the do/next_permutation loop visits |
| `Orderings.ExtendToOrdering` | Grafo.cpp:41-62 | any list of distinct vertices is the beginning of some ordering of all vertices |
| `Orderings.OrderingsOfVertices` | Grafo.cpp:34-37 | every ordering holds each of the V vertices once |
| `Sorting.SortSpec` | Grafo.cpp:54-55 | `std::sort`: the key is ascending and has the same entries as the cycle |
| `Sorting.SortedUnique` | Grafo.cpp:54-55 | an ascending sequence is determined by its entries |
| `Sorting.SameEntriesSameKey` | Grafo.cpp:71-72 | two cycles over the same vertices, in any rotation or direction, get the same key |
| `Sorting.SortDistinct` | Grafo.cpp:71-72 | the key of a cycle of distinct vertices is strictly increasing |
| `GrafoCpp.Graph.constructor` | Grafo.cpp:18-21 | V empty lists and no recorded cycle |
| `GrafoCpp.Graph.AddEdge` | Grafo.cpp:23-26 | appends v to u's list and u to v's list, even when present already; no other list changes; afterwards each lists the other |
| `GrafoCpp.Graph.IsEdge` | Grafo.cpp:28-30 | true exactly when v occurs in u's list |
| `GrafoCpp.Graph.Dfs` | Grafo.cpp:65-84 | returns the path and the flags as on entry; adds the keys of exactly the cycles that begin with the path |
| `GrafoCpp.Graph.Visit` | Grafo.cpp:69-80 | after one more listed neighbour, the recorded keys are those of the cycles that begin with the path and step to a neighbour looked at so far |
| `GrafoCpp.LastIsNew` | Grafo.cpp:82-83 | the vertex popped from a path of distinct vertices is not in the remaining path, so clearing its flag restores the flags |
| `GrafoCpp.StepClosing` | Grafo.cpp:70-76 | a neighbour equal to `start`, on a path of more than 2 vertices, adds the key of the path itself |
| `GrafoCpp.StepDeeper` | Grafo.cpp:77-78 | recursing into an unvisited neighbour adds the keys of the cycles continuing through it |
| `GrafoCpp.StepBlocked` | Grafo.cpp:69-80 | a visited neighbour that does not close a cycle adds nothing |
| `GrafoCpp.StepEnd` | Grafo.cpp:69-80 | once the whole list has been looked at, every cycle beginning with the path is covered |
| `GrafoCpp.Graph.FindCyclesByDfs` | Grafo.cpp:87-94 | afterwards `foundCycles` holds exactly the keys of the simple cycles |
| `GrafoCpp.StepRoot` | Grafo.cpp:89-93 | after root i, the set holds the keys of the cycles starting at roots 0..i |
| `GrafoCpp.AllRoots` | Grafo.cpp:87-94 | the keys of cycles starting at some vertex are the keys of all simple cycles |
| `GrafoCpp.Graph.FindCyclesByPermutation` | Grafo.cpp:33-63 | afterwards `foundCycles` is the union of the keys recorded over all orderings, which is exactly the keys of the simple cycles |
| `GrafoCpp.Graph.ScanOrdering` | Grafo.cpp:42-61 | one ordering adds the keys of the runs from each of its positions |
| `GrafoCpp.Graph.GrowRun` | Grafo.cpp:43-60 | the run from position i, stopped at the first vertex not listed by its predecessor, adds the key of each prefix of more than 2 vertices whose last vertex lists its first |
| `GrafoCpp.Graph.RecordIfClosed` | Grafo.cpp:53-59 | inserts the sorted copy exactly when the run has more than 2 vertices and its last vertex lists its first |
| `GrafoCpp.RunStops` | Grafo.cpp:47-51 | after the break at position j, later positions record nothing |
| `GrafoCpp.RunGrows` | Grafo.cpp:46-59 | taking position j extends the run and adds the run's key exactly when it closes |
| `GrafoCpp.ReachesChain` | Grafo.cpp:46-51 | a run that reaches a position is a chain of listed vertices, and conversely |
| `GrafoCpp.RunIsCycle` | Grafo.cpp:53 | a closing run of an ordering is a simple cycle |
| `GrafoCpp.PermutationKeys` | Grafo.cpp:33-63 | the keys recorded over all orderings are exactly the keys of the simple cycles |
| `GrafoCpp.RecordedIsCycle` | Grafo.cpp:53-58 | every key recorded over the orderings is the key of a simple cycle |
| `GrafoCpp.CycleIsRecorded` | Grafo.cpp:41-62 | every simple cycle is a run of some ordering, so its key is recorded |
| `GrafoCpp.CycleKeyShape` | Grafo.cpp:53-55 | every recorded key is a strictly increasing vector of at least 3 vertices |
| `GrafoCpp.SmallGraphNoKey` | Grafo.cpp:70 | with V < 3 there is no key, so both methods leave `foundCycles` empty |
| `GrafoCpp.Graph.RunBothFinders` | Grafo.cpp:137-138 | the two methods, run in turn on the same graph, leave the same set |
| `RandomGraph.AsSizeT` | Grafo.cpp:114 | the value E takes when compared with `edges.size()`: E itself when non-negative, otherwise E + 2^64 |
| `RandomGraph.PairsClosedForm` | Grafo.cpp:114 | 0 + 1 + ... + (n - 1) = n(n - 1)/2 |
| `RandomGraph.UpperPairs` | Grafo.cpp:114 | the pairs a < b < n, V(V-1)/2 of them |
| `RandomGraph.EdgesBound` | Grafo.cpp:117-119 | pairs of distinct vertices, none present in both orientations, number at most V(V-1)/2 |
| `RandomGraph.AddKeepsHolds` | Grafo.cpp:117-120 | adding a new pair to the graph and to `edges` keeps the lists equal to the pairs, with no duplicate |
| `RandomGraph.AcceptedShape` | Grafo.cpp:117-119 | every pair `Accepted` keeps from the drawn pairs was drawn, is not a self loop, and is kept in one orientation only |
| `RandomGraph.AcceptedCovers` | Grafo.cpp:117-120 | every drawn pair that is not a self loop ends up kept in one orientation or the other |
| `RandomGraph.ListsHold` | Grafo.cpp:117-120 | the lists built by appending each kept pair to both of its vertices hold exactly the kept pairs, each once |
| `RandomGraph.Draw` | Grafo.cpp:115-120 | one loop turn: the graph's lists and `edges` advance from the first `used` drawn pairs to the first `used + 1` |
| `RandomGraph.DrawEdges` | Grafo.cpp:114-121 | the loop: the lists and `edges` are those built from the pairs consumed; it stops at the first pair that brings `edges` to the bound, or when the samples run out |
| `RandomGraph.GenerateRandomGraph` | Grafo.cpp:106-124 | the edge set is what `Accepted` keeps from the pairs consumed, and the loop stops at the first pair that brings it to E, or when the samples run out; so with enough samples there are exactly E edges; never more than V(V-1)/2 edges, so when E exceeds that every sample is used; the lists hold exactly the edges, none twice |

## Left out

- The timing and reporting code is not modelled: `medirTempo` in both C files and `measureTime` in Grafo.cpp use the clock, and `main` in all three files prints. From main only the pair of finder calls on one graph is kept (`RunBothFinders`).
- `malloc`, `calloc`, `free` and `liberarGrafo` are not modelled. Allocation is a fresh Dafny array, and freeing is memory management only.
- The random sources are parameters. For the C files, `rand() / (float)RAND_MAX < 0.4` becomes a caller-supplied matrix of booleans, one per pair; the float test itself is not modelled. For Grafo.cpp, `random_device`, `mt19937` and `uniform_int_distribution` become a caller-supplied sequence of drawn pairs.
- RandomGraph.GenerateRandomGraph: the source loop never ends when E exceeds V(V-1)/2, because the generator never stops producing pairs. A finite sample sequence cannot express that. The model stops when the samples run out and proves that this is the only way such a loop ends.
- The permutation code commented out in grafo.c (lines 53-86) is not modelled.
- Performance, factorial running time and recursion depth are not modelled.
- `std::next_permutation` is not modelled as a lexicographic successor. The model enumerates orderings by the swap-and-recurse scheme of `permutacao`, and `Orderings.AllOrderingsOnce` proves that this visits the same orderings: all V! rearrangements of 0..V-1, each once. Set insertion does not depend on the order in which orderings are visited.
- The `Grafo` struct of the C files is passed as the pair (matrix, numVertices). The heap's array of row pointers and the fixed 10 x 10 array are both an `array2<int>`, and `visitado` is an array of booleans.
- Grafo.cpp's `dfs` takes `path` by reference, and pushes and pops it. The model passes the path in and returns it unchanged, which is the observable effect. The loop bodies of `dfs` and of the two inner loops of `findCyclesByPermutation` are separate methods (`Visit`, `ScanOrdering`, `GrowRun`, `RecordIfClosed`) with the same statements. The loop of `generateRandomGraph` and its body are likewise `DrawEdges` and `Draw`. The loop body of the C `DFS` is `DfsMatrix.ScanNeighbour`, and its branch for an unvisited neighbour is `DfsMatrix.ScanChild`.
- Grafos.ContarCiclosPorDfs, GrafoFixo.ContarCiclosPorDfs: "every vertex is visited on exit" is proved as a loop invariant. It is not part of the contract, because `visitado` is local to the function.
- Grafos.Permutacao, Grafos.ContarCiclosPorPermutacao: `ciclos` is a C `int`, and the model counts in an unbounded integer. From 13 vertices on, n! exceeds INT_MAX, and on a dense graph `(*ciclos)++` overflows, which is undefined behaviour in C. `FactFitsInt` and `FactOverflowsInt` show where the boundary lies.
- Grafos.ContarCiclosPorDfs: the count is not tied to the number of components. `DFS` returns early and can leave part of a component unvisited, so one component can be counted more than once. Only "0 exactly when there is no cycle" is stated.
- `Graph(V)` and Grafos.c's `inicializarGrafo` require a non-negative vertex count. Grafos.ContarCiclosPorPermutacao requires at least one vertex: with none, `verificaCiclo` would read index -1. RandomGraph.GenerateRandomGraph requires V >= 1, because `uniform_int_distribution(0, V - 1)` has no value otherwise.
- GrafoCpp.Graph.AddEdge appends to both lists even when the edge is already present; there is no duplicate check. RandomGraph.GenerateRandomGraph never compares E with V(V-1)/2 before its loop. The model keeps both behaviours.
