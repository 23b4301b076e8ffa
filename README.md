# graphs: a verified model of the graph container, the packed bit vector and BFS

This project models the core of the `graphs` repository in Dafny:

- **`Graph`** (module `Graphs`, `graphs.dfy`): the graph container of
  `include/graphs.hpp`. It stores an undirected graph over the vertex ids
  `0 .. vertices-1`, either as adjacency lists or as a `vertices × vertices`
  adjacency matrix. The class keeps the fields the original mutates: `data`,
  the per-vertex rows, and `vertices`, the vertex count. The storage layout is
  a `const mode` chosen at construction, where the original picks it with a
  template flag. Edge insertion is specified by the pure functions
  `ListInsert` and `MatrixInsert`, and the lemmas beside them state what
  insertion does to the rows.
- **`meow::boolarray`** (modules `Words` and `Meow`, `words.dfy` and
  `boolarray.dfy`): the bit vector that holds the visited set. It stores
  `size` bits in an `array<bv64>` of `maskNum` words, with bit `i` in word
  `i / 64` at offset `i % 64`. A ghost `Contents: seq<bool>` is its abstract
  value. Every method that changes the array states its effect on `Contents`
  and on the words; only `Grow` leaves the new words unspecified, as the
  uninitialised `new uint64_t[]` of the original does. The
  module `Words` proves the per-word facts: an OR-ed mask sets exactly one
  bit, an AND-NOT mask clears exactly one bit, and all-ones or zero words
  hold all-true or all-false bits.
- **`BFS`** (module `Traversal`, `bfs.dfy`): the breadth-first traversal of
  `src/01_bfs.cpp`. It uses a `boolarray` as the visited set and a FIFO
  queue. The order in which vertices leave the queue is specified by two
  functions:
  - `Expand` is one scan of a neighbour list;
  - `Bfs` is the queue loop.

  The method `BFS` (with its inner loop `ScanNeighbours`) is proved to
  produce exactly `BfsOrder`. The lemmas prove what that order is:
  - it starts at the start vertex;
  - it lists no vertex twice;
  - it lists exactly the vertices reachable from the start, so its length is
    the number of reachable vertices;
  - it lists them in non-decreasing distance from the start, where the
    distance is the number of edges of a shortest walk;
  - on the driver's six-vertex graph from vertex 0 it is `0 1 2 3 4 5`.

Vertex ids are `nat`. The original's generic `VertexType` is always
`size_t` in the traversal.

## Model

| member | source | states |
|---|---|---|
| Graphs.Graph.constructor | include/graphs.hpp:16-22 | a new graph has `vertices` rows; list mode gives empty lists, matrix mode a symmetric `vertices × vertices` grid of zeros |
| Graphs.Graph.Default | include/graphs.hpp:16 | the default vertex count is 10, with the same empty shapes |
| Graphs.Graph.Copy | include/graphs.hpp:23 | the copy has the same rows and vertex count and is a separate object |
| Graphs.Graph.Move | include/graphs.hpp:24-26 | the new graph takes over the rows and the count; the source is left with no rows and a count of 0 |
| Graphs.Graph.Assign | include/graphs.hpp:27-31 | after copy assignment the target holds the source's rows and count; self-assignment changes nothing |
| Graphs.Graph.MoveAssign | include/graphs.hpp:32-37 | move assignment takes over rows and count and empties the source, unless both are the same graph |
| Graphs.Graph.AddEdge | include/graphs.hpp:41-49 | list mode appends `v` to row `u`, then `u` to row `v`; matrix mode sets cells (u,v) and (v,u) to 1; the count and every other row are unchanged |
| Graphs.ListInsert | include/graphs.hpp:46-47 | list insertion keeps the number of rows and every row other than `u` and `v` |
| Graphs.MatrixInsert | include/graphs.hpp:43-44 | matrix insertion keeps the number and lengths of rows and every row other than `u` and `v` |
| Graphs.ListInsertAppends | include/graphs.hpp:46-47 | `v` goes at the back of row `u` and `u` at the back of row `v`; a self-loop puts `u` twice on its own row |
| Graphs.ListInsertAccumulates | include/graphs.hpp:46-47 | earlier entries keep their order, and there is no deduplication: each insertion adds one more occurrence (two for a self-loop) |
| Graphs.MatrixInsertCells | include/graphs.hpp:43-44 | both symmetric cells become 1 and no other cell changes |
| Graphs.MatrixInsertIdempotent | include/graphs.hpp:43-44 | inserting the same edge twice in matrix mode equals inserting it once |
| Graphs.MatrixInsertKeepsGrid | include/graphs.hpp:43-44 | matrix insertion keeps a 0/1 grid a 0/1 grid and a symmetric grid symmetric |
| Graphs.Graph.Row | include/graphs.hpp:75-77 | read access yields the row of vertex `index` |
| Graphs.Graph.SetRow | include/graphs.hpp:78-80 | write access replaces the row of vertex `index` and nothing else |
| Graphs.Graph.GetVertices | include/graphs.hpp:81-83 | yields the vertex count |
| Graphs.AddEdgeToCopy | include/graphs.hpp:23 | a copy is independent: an edge added to the copy leaves the original's rows and count unchanged |
| Words.WordCount | src/01_bfs.cpp:82-83 | the word count is `max(1, ceil(size / 64))`: exactly 1 for an empty array, otherwise the least count that covers `size` bits |
| Words.SameWordOffsets | src/01_bfs.cpp:52-53 | two bits in the same word share an offset only if they are the same bit |
| Words.WordOr | src/01_bfs.cpp:61 | OR-ing in the mask of bit `p` sets bit `p` and keeps every other bit of the word |
| Words.WordAndNot | src/01_bfs.cpp:62 | AND-ing with the complement of the mask of bit `p` clears bit `p` and keeps every other bit of the word |
| Words.BitAtConstant | src/01_bfs.cpp:72 | a word of all ones (`-1`) has every bit set; the zero word has none |
| Words.BitAfterOr | src/01_bfs.cpp:58-61 | after setting bit `i` in its word, bit `j` of the word sequence is set iff `j == i` or it was set before |
| Words.BitAfterAndNot | src/01_bfs.cpp:58-62 | after clearing bit `i` in its word, bit `j` is set iff `j != i` and it was set before |
| Words.RepresentsOr | src/01_bfs.cpp:57-61 | setting bit `i` in the words stores the abstract bits with bit `i` true |
| Words.RepresentsAndNot | src/01_bfs.cpp:57-62 | clearing bit `i` in the words stores the abstract bits with bit `i` false |
| Words.RepresentsConstant | src/01_bfs.cpp:69-79 | words that are all ones (all zeros) store any run of true (false) bits they have room for |
| Meow.BoolArray.constructor | src/01_bfs.cpp:12-15 | a new array has `size` bits all equal to the initial value, in `WordCount(size)` fresh words, each all ones or all zeros |
| Meow.BoolArray.Copy | src/01_bfs.cpp:16-20 | the copy has the same size, word count, bits and words, in a fresh buffer |
| Meow.BoolArray.Move | src/01_bfs.cpp:21-24 | the new array takes over the buffer; the source has size 0 and no words |
| Meow.BoolArray.Assign | src/01_bfs.cpp:25-35 | copy assignment takes size, word count, bits and words into a fresh buffer; self-assignment changes nothing |
| Meow.BoolArray.MoveAssign | src/01_bfs.cpp:36-45 | move assignment takes over the buffer and empties the source, unless both are the same array |
| Meow.BoolArray.Get | src/01_bfs.cpp:51-55 | reading bit `i` from word `i / 64` at offset `i % 64` yields abstract bit `i` |
| Meow.BoolArray.Set | src/01_bfs.cpp:57-63 | word `i / 64` becomes the old word with the mask OR-ed in (for true) or its complement AND-ed in (for false); every other word, the size and the buffer stay the same; abstract bit `i` becomes `value` and every other bit keeps its value |
| Meow.BoolArray.Fill | src/01_bfs.cpp:69-79 | every word, padding included, becomes all ones or all zeros, and every bit becomes `value` |
| Meow.BoolArray.Grow | src/01_bfs.cpp:81-92 | a fresh buffer of `WordCount(newSize)` words is allocated; size and bits are not touched |
| Meow.SetOnCopy | src/01_bfs.cpp:16-20 | a copy is deep: setting a bit of the copy leaves the original's bits and words unchanged |
| Traversal.ExpandPushesUnvisited | src/01_bfs.cpp:111-116 | one scan pushes each neighbour at most once and only unvisited ones; afterwards every neighbour is visited or pushed |
| Traversal.UnvisitedDecreases | src/01_bfs.cpp:111-116 | marking the pushed vertices shrinks the unvisited set whenever something was pushed, so the queue loop terminates |
| Traversal.BfsTurn | src/01_bfs.cpp:108-117 | one turn emits the front vertex and continues with the rest of the queue plus the pushed vertices, with the pushed vertices marked |
| Traversal.MirrorsMark | src/01_bfs.cpp:105 | setting bit `v` of the visited array matches adding `v` to the visited set |
| Traversal.BfsEmitsQueue | src/01_bfs.cpp:108-117 | every vertex in the queue is eventually emitted |
| Traversal.BfsDistinct | src/01_bfs.cpp:108-117 | from a repetition-free queue no vertex is emitted twice, and every emitted vertex was queued or unvisited |
| Traversal.BfsClosed | src/01_bfs.cpp:108-117 | the scanned vertices together with the emitted ones form a neighbour-closed set |
| Traversal.PathStaysIn | src/01_bfs.cpp:108-117 | a walk that starts in a neighbour-closed set stays in it |
| Traversal.ClosedHoldsReachable | src/01_bfs.cpp:108-117 | a neighbour-closed set containing the start holds every reachable vertex |
| Traversal.ReachableStep | src/01_bfs.cpp:111-114 | a neighbour of a reachable vertex is reachable |
| Traversal.BfsSound | src/01_bfs.cpp:108-117 | if every visited vertex is reachable, so is every emitted one |
| Traversal.BfsOrderDistinct | src/01_bfs.cpp:105-117 | the traversal starts at `start` and lists each vertex at most once |
| Traversal.BfsOrderSound | src/01_bfs.cpp:105-117 | every listed vertex is reachable from `start` |
| Traversal.BfsOrderComplete | src/01_bfs.cpp:105-117 | every vertex reachable from `start` is listed |
| Traversal.BfsOrderIsReachableSet | src/01_bfs.cpp:105-117 | the listed vertices are exactly the reachable set, and the length is its size, at most the vertex count |
| Traversal.Dist | src/01_bfs.cpp:105-117 | the distance of a reachable vertex is reached by a walk with that many edges, and by no shorter walk |
| Traversal.WithinStepsNeighbour | src/01_bfs.cpp:111-114 | a neighbour of a vertex within `k` edges is within `k + 1` edges |
| Traversal.WithinStepsPredecessor | src/01_bfs.cpp:111-114 | a vertex at distance exactly `k + 1` is the neighbour of a vertex within `k` edges |
| Traversal.LayeredShift | src/01_bfs.cpp:108-109 | when the front of the queue is one level beyond the current level, the whole queue is, and every vertex up to that level is already marked |
| Traversal.LayeredStep | src/01_bfs.cpp:108-117 | scanning a front vertex at distance `D` pushes only vertices at distance `D + 1` behind the rest of the queue, which stays ordered by level |
| Traversal.NearerFirstPrepend | src/01_bfs.cpp:109-110 | emitting a vertex at distance `D` before vertices at distance `D` or more keeps the emitted order non-decreasing in distance |
| Traversal.AtLeastPrepend | src/01_bfs.cpp:109-110 | the front vertex and what follows it are all at least as far as the current level |
| Traversal.BfsLayers | src/01_bfs.cpp:108-117 | from a queue ordered by level, the traversal emits nothing closer than the current level and emits vertices in non-decreasing distance |
| Traversal.BfsOrderByDistance | src/01_bfs.cpp:105-117 | the traversal from `start` lists reachable vertices in non-decreasing distance from `start` |
| Traversal.BreadthFirstOrder | src/01_bfs.cpp:105-117 | the traversal order starts at `start`, has no repetitions, lists exactly the reachable vertices (at most the vertex count) and is non-decreasing in distance |
| Traversal.IsolatedStart | src/01_bfs.cpp:105-117 | a start vertex without neighbours is traversed alone |
| Traversal.ScanNeighbours | src/01_bfs.cpp:111-116 | the inner loop pushes exactly `Expand(neighbours, marked)` and sets exactly their bits |
| Traversal.BFS | src/01_bfs.cpp:100-120 | the traversal yields `BfsOrder`; it starts at `start`, has no repetitions, lists exactly the reachable vertices, has one entry per reachable vertex, and lists them in non-decreasing distance from `start` |
| Traversal.ExampleGraph | src/01_bfs.cpp:124-131 | the driver's graph has six vertices and only valid neighbour ids |
| Traversal.ExampleOrder | src/01_bfs.cpp:123-135 | from vertex 0 the driver's graph is traversed as 0 1 2 3 4 5 |
| Traversal.ExampleTraversal | src/01_bfs.cpp:123-135 | building the driver's graph row by row and traversing it from 0 gives 0 1 2 3 4 5 |

## Left out

- Output: `BFS` writes the order to an `ostringstream` and then to standard
  output. The model returns the order as a sequence instead. `Graph::print`
  is output only and is not part of this model.
- The `main` drivers are not modelled as programs. The BFS driver's graph and
  its traversal are modelled by `ExampleTraversal`.
- Memory management: `new[]`/`delete[]` and the destructors are not modelled.
  A null word buffer is modelled as an empty array.
- Meow.BoolArray.Grow: the branch that copies old words into the new buffer
  is not modelled. `grow` is only called from the constructor, where the
  buffer is still null, so that branch never runs.
- Graphs.Graph.Assign and Graphs.Graph.MoveAssign: the original's assignment
  operators fall off the end without `return *this` when they do assign.
  The model has no return value, only the effect on the fields.
- Graphs.Graph.Assign and Graphs.Graph.MoveAssign: the model requires both
  graphs to have the same mode. In the original this is a type constraint,
  since the mode is a template parameter.
- BFS over a matrix-mode graph is not modelled. The traversal reads rows as
  neighbour lists, and the repository only runs it on list mode.
- Traversal.BFS requires every neighbour id to be a vertex id. The original
  performs unchecked accesses and has undefined behaviour otherwise.
- Graphs.Graph.Row and Graphs.Graph.SetRow stand for the two `operator[]`
  overloads. The model returns or replaces a whole row and does not hand
  out a reference.
- `boolarray::operator[]` is the same as `get` and is modelled by
  `Meow.BoolArray.Get`.
- The queue of the original is a `std::queue`. It is modelled as a sequence:
  values are pushed at the back and popped from the front.
- Fixed-width `size_t` arithmetic is not modelled. Vertex ids and sizes are
  unbounded naturals, so the overflow of `new_size + 63` in `grow` for sizes
  near 2^64 is not captured.
- The generic `VertexType` of `Graph` is fixed to natural numbers.
