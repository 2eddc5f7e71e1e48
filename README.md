# Dijkstra over a dense weight matrix — a Dafny model

This project models the `Graph` class of a small interactive C++ program that keeps an
undirected weighted graph and answers shortest-path queries between two named nodes.

- **Graph store** (`graph.dfy`, module `GraphStore`). A `Graph` object holds the node names in
  insertion order (`nodes: seq<string>`; a node's index is its position) and a dense
  `|nodes| × |nodes|` weight matrix (`matrix: seq<seq<int>>`), in which 0 means "no edge".
  `AddNode` appends a name and resizes every row, padding with zeros; `GetNodeIndex` is a
  first-match linear scan returning -1 for an unknown name; `AddEdge` writes the weight into
  both mirrored cells, or reports that a name is unknown and changes nothing. The object
  invariant `Valid()` says the matrix is square, symmetric and holds no negative weight.
- **Shortest-path engine** (`dijkstra.dfy`, module `Dijkstra`). `Search` is the body of the
  program's `find`: distances start at infinity except the source's 0; each round scans for
  the unvisited node with the smallest finite distance (`SelectMin`), marks it visited and
  relaxes every nonzero matrix entry out of it (`Relax`), stopping early when no unvisited
  node is reachable; the path is rebuilt by walking `prev` back from the destination
  (`TracePath`). Instead of printing, the query returns an `Outcome`:
  `NodeNotFound | PathNotFound | Found(path, dist)`, the path being a sequence of node indices.
  `Graph.Find` resolves the two names and hands the matrix to `Search`.
- **Walks and weights** (`paths.dfy`, module `Paths`). The specification vocabulary: a walk is
  a non-empty sequence of nodes joined by nonzero cells, `Weight` sums its edges, and
  `IsShortestPath(m, p, s, t)` says that `p` runs from `s` to `t` and no walk from `s` to `t`
  weighs less.

The main theorem is the contract of `Dijkstra.Search` (and hence of `Graph.Find`): the result
is `PathNotFound` exactly when no walk joins the two nodes; a `Found` path runs from the source
to the destination along edges of the matrix, its weight is the reported distance, and no walk
between them is lighter; a query from a node to itself yields that single node at distance 0.
Its proof rests on the loop invariant `Dijkstra.Inv` — the source's distance stays 0, every
`prev` link points to a visited node one edge back whose distance is smaller by exactly that
edge's weight, visited nodes carry final (optimal) distances, every edge leaving the visited
set is relaxed, and visited nodes are never farther than unvisited ones — together with the
count of visited nodes, which grows by one per round.

Distances are unbounded naturals with an explicit infinity (`Dist = Inf | Fin(n)`) in place of
the program's `INT32_MAX` sentinel.

## Model

| member | source | states |
|---|---|---|
| `GraphStore.IndexOf` | main.cpp:47-57 | the first index whose name equals the query, and -1 exactly when no node has that name; with duplicate names the earliest wins |
| `GraphStore.Graph.GetNodeIndex` | main.cpp:47-57 | the linear scan returns exactly `IndexOf(nodes, name)` |
| `GraphStore.Resized` | main.cpp:41-44 | resizing a row gives exactly n cells: the old cells that fit, then zeros |
| `GraphStore.WithNewNode` | main.cpp:41-44 | the matrix after one more node: N+1 rows of N+1 cells, each cell the old weight where the old matrix had one and 0 (no edge) in the new row and column |
| `GraphStore.NewNodeCells` | main.cpp:35-45 | after adding a node the matrix is (N+1)×(N+1), every earlier cell keeps its value, the new row and column are all 0, and symmetry and non-negative weights are preserved |
| `GraphStore.Graph.AddNode` | main.cpp:35-45 | the name is appended to `nodes`, the matrix becomes `WithNewNode` of the old matrix (old cells kept, new row and column zero), and the object invariant is kept |
| `GraphStore.WithEdge` | main.cpp:70-71 | the matrix after writing an edge: still square, the weight at (f,t) and at (t,f), every other cell unchanged |
| `GraphStore.EdgeCells` | main.cpp:70-71 | writing an edge sets both (f,t) and (t,f) to the weight (the diagonal for a self-loop, overwriting any earlier weight), leaves every other cell unchanged, and keeps the matrix square, symmetric and non-negative |
| `GraphStore.Graph.AddEdge` | main.cpp:60-72 | reports success exactly when both names are known; then the matrix is the old one with the edge written at the first-match indices; otherwise nothing changes; nodes never change |
| `GraphStore.Graph.constructor` | main.cpp:30-33 | a new graph has no nodes and an empty matrix, and satisfies the object invariant |
| `GraphStore.Graph.Find` | main.cpp:92-166 | `NodeNotFound` exactly when either name is unknown; otherwise `PathNotFound` exactly when the destination is unreachable, a `Found` path is a lightest walk between the first-match indices whose weight is the reported distance, and from == to gives the single node at distance 0 |
| `Dijkstra.SelectMin` | main.cpp:114-129 | returns -1 exactly when every unvisited node has infinite distance; otherwise an unvisited node with finite distance that no unvisited node undercuts, the lowest such index on ties |
| `Dijkstra.Relax` | main.cpp:134-142 | each node's distance is replaced by the distance through u, and its prev set to u, exactly when a nonzero edge from u makes it strictly shorter; no distance ever grows |
| `Dijkstra.TracePath` | main.cpp:151-163 | walking prev back from a reached destination ends at the source; the reversed trail is a walk from source to destination whose weight equals the destination's distance; when they coincide the path is that one node |
| `Dijkstra.Reversed` | main.cpp:160-163 | the trail read from its last element to its first, as the output loop prints it |
| `Dijkstra.SelectedIsOptimal` | main.cpp:113-132 | the node picked in a round already has a distance no larger than the weight of any walk from the source to it |
| `Dijkstra.StepKeepsInv` | main.cpp:113-143 | one round (mark the picked node visited, relax its edges) preserves the invariant: source at 0, prev links point to visited nodes one edge back with exactly matching distances, visited distances final, frontier edges relaxed, visited nodes no farther than unvisited ones |
| `Dijkstra.CountMark` | main.cpp:131-132 | marking a previously unvisited node raises the number of visited nodes by exactly one |
| `Dijkstra.CountFull` | main.cpp:113 | once the number of visited nodes equals N, every node is visited, so after N rounds no unvisited node remains |
| `Dijkstra.WalkStaysVisited` | main.cpp:126-149 | after the loop every node on a walk from the source is visited, so a destination left at infinity has no walk to it |
| `Dijkstra.Search` | main.cpp:102-165 | `PathNotFound` exactly when no walk joins source and destination; a `Found` path is a lightest walk between them and its weight is the reported distance; source == destination gives the single node at distance 0 |

## Left out

- `printMatrix` (main.cpp:74-90) and `printGraphviz` (main.cpp:168-181): text formatting to the console, not modelled.
- The interactive menu in `main`, its input parsing and the fixed nine-node example graph it starts with (main.cpp:185-268): console I/O and fixture data, not modelled.
- The console messages "Node not found", "Path not found", "Path: …" and "Distance: …" are replaced by the returned `found` flag of `AddEdge` and the `Outcome` of `Find`; paths are returned as node indices rather than printed names.
- `GraphStore.Graph.AddEdge`: requires the weight to be non-negative, which the program does not check. With a negative weight its `find` can loop for ever: after `addEdge("A","B",-1)` the query from A to B sets `prev` of B to A and then `prev` of A to B, and the walk back never reaches -1.
- `Dijkstra.Search`: does not model 32-bit arithmetic. The program stores distances as `int` with `INT32_MAX` as infinity, so a sum `distance[minIndex] + matrix[minIndex][j]` can overflow, and a genuine distance of exactly `INT32_MAX` would be read as "no path"; the model uses unbounded naturals and an explicit infinity.
- The `Node` objects allocated with `new` and never freed (main.cpp:39): nodes are modelled as their names only.
- That repeated queries on an unchanged graph give the same answer is not stated as a property of the methods; the contract of `Search` fixes the reported distance (it is the least weight of any walk) but not which of several equally light paths is returned.
- The local vectors `distance`, `visited` and `prev` of `find` are local sequences updated by reassignment, not arrays updated in place; nothing else aliases them.
