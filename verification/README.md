# Adaptable priority queues, an adjacency-map graph and Prim's algorithm

A Dafny model of three cooperating pieces of a small Python code base, with the properties
each piece promises proved about the model.

- **Adaptable priority queues** (`src/priority_queue.py`). `Element` records are ordered by key
  alone. `HeapAPQ` is a 0-based binary min-heap whose elements record their own slot in
  `.index`. `UnsortedListAPQ` appends and finds the minimum by a linear scan. The queue state is
  `Queues.Queue`. `slots` is the Python list of element references. `objs` is the store of
  `Element` objects keyed by identity, and a `Handle` is that identity. This keeps the caller's
  handle and the list apart just as the Python objects do. A stale `.index` can be represented,
  and so can an element that is still referenced after it left the list. `Queues.Entries`
  gives the abstract contents: each live handle with its key and value. Keys are
  `Priorities.Key`, an integer or infinity, because Prim queues `math.inf` beside integer
  weights. Python integers are unbounded, so no wrap-around is modelled.
- **The graph** (`src/graph.py`). A vertex is its label. An edge equals another with the same
  label and the same endpoints in either order; weight plays no part. `Graphs.Key` is that
  equivalence as a value. The graph is a map of maps, `adj[x][y]`, plus the edge dictionary
  keyed by edge equality, holding the `(x, y)` pair of the latest `add_edge`. `Graphs.Valid` is
  the invariant that `remove_edge` always keeps, and that `add_edge` keeps when the edge joins
  two distinct vertices not already joined by an unequal edge: adjacency is symmetric, every stored edge
  joins its two distinct ends and is indexed, every index entry names an adjacent pair, and
  every indexed edge can be hashed. An edge whose label equals an endpoint's label cannot be
  hashed (`Graphs.Hashable`). `Edge.__hash__` puts both vertices and the label in one
  `frozenset`, and the label hashes like the vertex it names. The set then compares the two,
  and `Vertex.__eq__` raises `TypeError` for the string. So `add_edge`, `remove_edge` and
  `remove_vertex` raise `TypeError` on such an edge, and the model returns that error.
- **Prim's algorithm** (`prim` in `main.py`). It is written once, over the queue interface, and
  run with either queue. `Apqs.Impl` selects the implementation. `Apqs` dispatches `add`,
  `remove_min`, `update_key`, `get_key`, `length` and the direct `element.value = ...` write
  that `prim` makes. Besides the tree, `Prim.Run` returns ghost records of the run: the order
  in which vertices were taken, and for each tree edge the earlier vertex that stored it and
  the vertex it brought in.

The model follows the code where the code and its documentation disagree. Two defects
in `HeapAPQ` are kept as written and exhibited by concrete counterexamples:

- `_bubble_down` stops one slot early.
- `remove` never pops.

A third queue, `RepairedHeap`, carries the evident repairs, and Prim is also proved with it.
`remove_vertex` and a repeated `add_vertex` break the graph invariant. Both are shown on a
one-edge graph, and corrected versions are proved to keep it.

## Model

| member | source | states |
|---|---|---|
| Priorities.LessIsStrictTotalOrder | src/priority_queue.py:14-18 | key comparison (`<` on integers and infinity) is a strict total order with infinity above every integer |
| Queues.ElementComparisonIsByKey | src/priority_queue.py:14-18 | elements are equal exactly when neither is smaller; rewriting `value` or `index` never changes a comparison |
| Queues.Length | src/priority_queue.py:31-37 | the list length is the number of live entries |
| Queues.GetKey | src/priority_queue.py:39-48 | returns the key the handle's entry currently holds |
| Queues.SetValue | main.py:82 | writing `.value` through a handle changes that entry's value only; keys, slots and slot fidelity are kept |
| Queues.SwapFix | src/priority_queue.py:125-128 | a swap with index rewrites keeps the contents, exchanges the two keys, records both new slots and touches no other element |
| Queues.SetIndex | src/priority_queue.py:141 | `e.index = i` changes no slot, key or value and no other element |
| Queues.SetIndexRepairs | src/priority_queue.py:139-141 | recording the true slot of the only misplaced element makes every slot faithful |
| Queues.SetKey | src/priority_queue.py:159-160 | `element.key = k` changes exactly that entry's key, keeps slot fidelity and leaves every other element alone |
| Queues.Append | src/priority_queue.py:136-137 | appending a fresh element adds exactly one new entry under a handle no one held, faithful everywhere but the new slot |
| Queues.SlotOfHandle | src/priority_queue.py:162 | in a faithful queue a live handle's `.index` is the slot that holds it |
| Queues.EntriesSize | src/priority_queue.py:37 | distinct slots give as many entries as slots |
| Queues.DetachAt | src/priority_queue.py:213-216 | swapping slot `k` with the end, rewriting the moved index and popping removes exactly the entry at `k` and keeps slot fidelity |
| HeapOrder.SiftUpStep | src/priority_queue.py:124-129 | one upward swap below a strictly greater parent moves the heap defect to the parent |
| HeapOrder.SiftDownStep | src/priority_queue.py:113-121 | one downward swap with a smallest child moves the heap defect to that child |
| HeapOrder.RootIsMinimum | src/priority_queue.py:132-133 | in heap order the root key is no larger than any key |
| HeapOrder.AppendedKeySiftsUp | src/priority_queue.py:137-139 | appending to a heap leaves a defect only upward from the new slot |
| HeapOrder.DecreasedKeySiftsUp | src/priority_queue.py:159-162 | lowering a key in a heap leaves a defect only upward from it |
| HeapOrder.IncreasedKeySiftsDown | src/priority_queue.py:163-164 | raising a key in a heap leaves a defect only downward from it |
| HeapOrder.MovedLastKeySifts | src/priority_queue.py:170-173 | moving the last key into slot `k` and popping leaves one defect: downward if the key grew, upward if it shrank (and then sifting down stops at once) |
| HeapApq.BubbleUp | src/priority_queue.py:123-130 | keeps the contents and slot fidelity, returns the moved element's final slot, ends below a parent no larger, and repairs an upward defect into heap order |
| HeapApq.SwapUp | src/priority_queue.py:124-129 | a swap happens only where the heap is out of order, and it moves the defect up and restores fidelity |
| HeapApq.BubbleDown | src/priority_queue.py:97-121 | the sift as written keeps the contents and slot fidelity (and, see Findings, not heap order) |
| HeapApq.Min | src/priority_queue.py:132-133 | fails exactly on the empty queue, else gives the value of the entry in slot 0 |
| HeapApq.Add | src/priority_queue.py:135-143 | adds exactly one entry under a fresh handle, keeps slot fidelity, and keeps heap order |
| HeapApq.RemoveMin | src/priority_queue.py:145-156 | `IndexError` exactly on the empty queue; else removes exactly the root entry, returns its value and keeps slot fidelity |
| HeapApq.UpdateKey | src/priority_queue.py:158-164 | changes exactly one key, keeps slot fidelity, and keeps heap order when the key decreased |
| HeapApq.Remove | src/priority_queue.py:166-175 | `IndexError` exactly on the empty queue; else returns the target's key and value, while its contents and length stay unchanged |
| HeapApq.Empty | src/priority_queue.py:22-23 | a new queue is well formed and has no entries |
| HeapApq.AddsOneTwoThree | src/priority_queue.py:135-143 | adding keys 1, 2, 3 to an empty heap gives the heap-ordered list `[1, 2, 3]` |
| HeapApq.RemoveMinLosesHeapOrder | src/priority_queue.py:97-121 | `remove_min` on `[1, 2, 3]` leaves keys `[3, 2]`, out of heap order, and `min()` then returns 3 |
| HeapApq.IncreaseKeyLosesHeapOrder | src/priority_queue.py:158-164 | raising the root of `[1, 2, 3]` to 5 leaves keys `[3, 2, 5]`, out of heap order, and `min()` returns 3 |
| HeapApq.RemoveKeepsTheElement | src/priority_queue.py:166-175 | `remove` of the root of `[1, 2]` returns `(1, 1)` but the length stays 2, the element is still queued, two `.index` fields are stale and heap order is lost |
| RepairedHeap.SmallerChild | src/priority_queue.py:100-121 | the child the sift compares against is a smallest child of `i` |
| RepairedHeap.BubbleDown | src/priority_queue.py:97-121 | the repaired sift keeps the contents and fidelity, repairs a downward defect into heap order, and leaves a slot below all its children in place |
| RepairedHeap.MinIsMinimum | src/priority_queue.py:132-133 | in a heap-ordered queue `min` fails exactly when empty and otherwise returns the value of a minimum entry |
| RepairedHeap.RemoveMin | src/priority_queue.py:145-156 | removes exactly the root entry, which is a minimum entry, and keeps heap order and fidelity |
| RepairedHeap.UpdateKey | src/priority_queue.py:158-164 | changes exactly one key and keeps heap order whichever way the key moved |
| RepairedHeap.Remove | src/priority_queue.py:166-175 | removes exactly the target, returns its key and value, shortens the list by one, keeps heap order and fidelity |
| RepairedHeap.RemoveAt | src/priority_queue.py:169-173 | removing slot `k` drops exactly that entry and keeps heap order |
| RepairedHeap.SiftMoved | src/priority_queue.py:172-173 | sifting the moved element down and then up restores heap order |
| UnsortedApq.FirstMinimumUnique | src/priority_queue.py:184-189 | the scan's answer, the first slot no later slot beats under strict `<`, is unique |
| UnsortedApq.ScanMin | src/priority_queue.py:194-197 | the scan finds that first minimum |
| UnsortedApq.FirstMinimumIsMinEntry | src/priority_queue.py:184-189 | the first minimum is an entry with the smallest key |
| UnsortedApq.Add | src/priority_queue.py:179-182 | appends one fresh entry whose index is the old length, so every slot stays faithful |
| UnsortedApq.Min | src/priority_queue.py:184-189 | fails exactly on the empty queue, else returns the value of the first minimum, a minimum entry |
| UnsortedApq.RemoveMin | src/priority_queue.py:191-200 | `IndexError` exactly on the empty queue; else removes the first minimum, moves the last element into its slot, keeps fidelity and returns its value |
| UnsortedApq.UpdateKey | src/priority_queue.py:202-203 | changes exactly the target's key and reorders nothing |
| UnsortedApq.Remove | src/priority_queue.py:205-210 | `IndexError` exactly on the empty queue; else removes exactly the target, moves the last element into its slot and returns the target's key and value |
| Apqs.Empty | src/priority_queue.py:22-23 | each implementation starts empty and satisfies its invariant |
| Apqs.Length | src/priority_queue.py:31-37 | zero exactly when nothing is queued |
| Apqs.GetKey | src/priority_queue.py:39-48 | the key of a queued element |
| Apqs.Add | src/priority_queue.py:58-65 | each implementation adds exactly one entry under a fresh handle and keeps its invariant |
| Apqs.RemoveMin | src/priority_queue.py:67-73 | removes exactly one entry and returns its value; with the unsorted list or the repaired heap that entry has a smallest key |
| Apqs.UpdateKey | src/priority_queue.py:75-82 | exactly the element's key changes, and the invariant is kept |
| Apqs.SetValue | main.py:82 | exactly the element's value changes, and the invariant is kept |
| Graphs.SameEdgeIsKeyEquality | src/graph.py:40-48 | edge equality is equality of label and unordered endpoint pair: an equivalence that ignores weight |
| Graphs.Opposite | src/graph.py:50-51 | from an endpoint, `opposite` gives the other end; from a non-endpoint it gives `vertex_1` |
| Graphs.OppositeIsInvolution | src/graph.py:50-51 | on a non-loop edge `opposite` leads to the other end and back |
| Graphs.HashableByKey | src/graph.py:40-41 | whether an edge can be hashed depends only on its label and endpoint set: equal edges agree on it |
| Graphs.EmptyGraph | src/graph.py:55-57 | a new graph has no vertices or edges and is valid |
| Graphs.Vertices | src/graph.py:65-74 | lists each vertex exactly once, so `num_vertices` is the length of the vertex list |
| Graphs.EdgeKeys | src/graph.py:69-71 | lists each pairwise unequal edge exactly once |
| Graphs.NumEdgesCountsStoredEdges | src/graph.py:76-77 | in a valid graph `num_edges` is the number of pairwise unequal edges stored in the adjacency maps, whose keys are exactly the dictionary's |
| Graphs.AddVertex | src/graph.py:79-80 | the vertex is present with no neighbours, every other vertex is unchanged, and `num_vertices` grows by one exactly for a new vertex |
| Graphs.AddEdge | src/graph.py:82-85 | `KeyError` exactly when an end is missing; else `TypeError` exactly when the edge cannot be hashed; else stores the edge both ways and records `(x, y)`, and `num_edges` grows only for an edge not already present |
| Graphs.AddEdgeKeepsOthers | src/graph.py:82-85 | no other adjacency entry changes |
| Graphs.AddEdgePreservesValid | src/graph.py:82-85 | adding an edge that joins two distinct existing vertices, not already joined by an unequal edge, succeeds exactly when the edge can be hashed, and then keeps the graph valid |
| Graphs.Degree | src/graph.py:87-88 | `KeyError` exactly for a missing vertex, else the number of distinct neighbours |
| Graphs.DegreeCountsEdges | src/graph.py:87-88 | in a valid graph the degree of `x` is the number of pairwise unequal edges stored at `x`, and the number of vertices that list `x` as a neighbour |
| Graphs.KeysAtCard | src/graph.py:87-88 | neighbours holding pairwise unequal edges give as many edge keys as neighbours |
| Graphs.ListersAreNeighbours | src/graph.py:87-88 | with symmetric adjacency the vertices listing `x` are exactly `x`'s neighbours |
| Graphs.GetEdge | src/graph.py:90-94 | `KeyError` for a missing `x`, `DoesNotExistError` exactly when `y` is not a neighbour, else the stored edge |
| Graphs.GetEdgeSymmetric | src/graph.py:90-94 | in a valid graph `get_edge(x, y)` and `get_edge(y, x)` agree and return an edge joining them |
| Graphs.GetEdges | src/graph.py:96-97 | `KeyError` exactly for a missing vertex, else one stored edge per neighbour |
| Graphs.RemoveEdge | src/graph.py:99-104 | `TypeError` exactly when the edge cannot be hashed; else `DoesNotExistError` exactly for an edge not in the dictionary; else exactly that key leaves the dictionary and `num_edges` drops by one |
| Graphs.RemoveEdgeUnlinks | src/graph.py:99-104 | on success both adjacency entries between the ends are gone and every other entry is kept |
| Graphs.RemoveEdgePreservesValid | src/graph.py:99-104 | on a valid graph `remove_edge` fails exactly for an absent edge and otherwise keeps the graph valid |
| Graphs.IndexedEdgeIsAdjacent | src/graph.py:99-104 | in a valid graph an indexed edge's two ends are distinct, adjacent both ways, and hold an equal edge |
| Graphs.RemoveVertex | src/graph.py:106-111 | `DoesNotExistError` exactly for a missing vertex; `TypeError` when an edge stored at `x` cannot be hashed; `KeyError` when a key of an edge stored at `x` is already gone (either error when both hold, by dictionary order); else those keys and `x` are removed and nothing else changes |
| Graphs.ValidIsDeletable | src/graph.py:106-111 | on a valid graph every edge stored at a present vertex can be hashed and has its own key, so `remove_vertex` does not fail |
| Graphs.RemoveVertexBreaksSymmetry | src/graph.py:106-111 | removing `a` from the one-edge graph `a`-`b` leaves `b` listing `a`, so the graph is not valid |
| Graphs.AddEdgeRelabelOvercounts | src/graph.py:82-85 | adding a differently labelled edge between the two ends of the one-edge graph `a`-`b` leaves `a` with one neighbour but `num_edges` at two, so the graph is not valid |
| Graphs.AddEdgeSelfLoopIsInvalid | src/graph.py:82-85 | `add_edge(a, a, e)` succeeds and stores a self-loop, so the graph is not valid |
| Graphs.AddVertexAgainBreaksSymmetry | src/graph.py:79-80 | re-adding `a` to the one-edge graph empties `a`'s neighbours while `b` keeps `a` and the edge stays counted |
| Graphs.RemoveVertexDetached | src/graph.py:106-111 | the corrected removal fails exactly when the original does, removes the same keys and `x`, and deletes `x` from every neighbour's map |
| Graphs.RemoveVertexDetachedIsValid | src/graph.py:106-111 | the corrected removal keeps a valid graph valid and fails only for a missing vertex |
| Graphs.AddVertexIfAbsent | src/graph.py:79-80 | the corrected `add_vertex` leaves a present vertex untouched |
| Graphs.AddVertexIfAbsentIsValid | src/graph.py:79-80 | the corrected `add_vertex` keeps a valid graph valid |
| Prim.Init | main.py:64-67 | one entry per vertex, key infinity, value `(v, None)`, with `locs` mapping each vertex to its handle |
| Prim.RelaxEdge | main.py:78-83 | only a still-queued far end whose key exceeds the weight is changed, to that weight and that edge; no key ever rises |
| Prim.Relax | main.py:77-83 | afterwards every edge at `v` leads to a taken vertex or to a key no larger than its weight; each changed entry was strictly lowered by an edge stored at `v` |
| Prim.RelaxOne | main.py:80-83 | one lowering keeps every other entry and every earlier settled edge settled |
| Prim.TakeEntry | main.py:71-73 | the removed entry names a queued vertex, so `del locs[v]` succeeds, and any edge it carries is stored at an earlier taken vertex and leads to it |
| Prim.LabelledStep | main.py:71-83 | after a step every queued entry is still untouched or carries an edge from a taken vertex at its weight |
| Prim.BoundedStep | main.py:77-83 | after a step every edge at a taken vertex still bounds its queued far end's key |
| Prim.GrownStep | main.py:74-75 | appending the carried edge attaches the newly taken vertex to an earlier one |
| Prim.AllTaken | main.py:70 | when the queue is empty every vertex has been taken exactly once |
| Prim.MinHasEdge | main.py:70-75 | in a valid connected graph, once a vertex is taken, a smallest entry carries an edge |
| Prim.CutEdge | main.py:77-83 | in a valid connected graph some edge stored at a taken vertex leads to a queued one |
| Prim.Run | main.py:63-84 | takes every vertex exactly once; each tree edge is stored at an earlier taken vertex and attaches the vertex taken when it was appended; fewer edges than vertices; exactly one fewer on a valid connected graph when `remove_min` returns a minimum |
| Prim.PrimHeap | main.py:87-89 | with the heap as written: every vertex taken once, edges attach new vertices, fewer edges than vertices |
| Prim.PrimUnsortedList | main.py:92-94 | with the unsorted list: additionally exactly `|V| - 1` edges on a valid connected graph |
| Prim.PrimCorrectedHeap | main.py:63-84 | with the repaired heap: exactly `|V| - 1` edges on a valid connected graph |

## Left out

- `create_graph`, `time_functions` and `main` in `main.py`: random generation, timing, argument parsing, file output and plotting.
- `dict_zip.py`, and the superseded `priority_queue.py` and `graph.py` at the top level: `prim` uses the versions under `src/`.
- `__str__` and `__repr__` of every class: formatting only.
- The Python 3.10 `slots` switch and the abstract-class checks: object-model details with no bearing on behaviour.
- Floating point: `math.inf` is the only non-integer key, and `Priorities.Key` has an `Inf` case for it.
- Stale or foreign handles: every operation that takes an element requires it to be live in the queue, because the code does not define what happens otherwise.
- HeapApq.Remove: requires the handle to be live when the queue is non-empty, so only the empty-queue `IndexError` is modelled as an error.
- HeapApq.BubbleUp: at slot 0 the source reads `queue[-1]` before testing `i != 0`; the model tests `i > 0` first, which gives the same result.
- Dictionary iteration order: `Graphs.Vertices`, `Graphs.EdgeKeys`, `Graphs.GetEdges` and `Graphs.RemoveVertex` visit keys in an arbitrary order, so Prim is proved for every order, not only insertion order.
- Graphs.EdgeKeys: returns each edge's key (label and endpoint set) rather than the `Edge` object the dictionary keeps, since the dictionary keys on equality.
- Comparisons that a caller makes between a vertex or edge and an object of another type, which raise `TypeError`: the model's arguments are typed. The comparison inside `Edge.__hash__` is modelled (`Graphs.Hashable`).
- String hash collisions: a label whose hash merely collides with an endpoint label's hash would also make `Edge.__hash__` raise. Python randomises string hashes per process, so the model treats only equal labels as colliding.
- Graphs.AddEdge: when `x` exists but `y` does not, Python has already stored `e` in `x`'s map before the `KeyError`. When `e` cannot be hashed, Python has already stored it both ways before the `TypeError`. The model returns the error without those partial changes.
- Graphs.AddEdgePreservesValid: `add_edge` keeps the invariant only for an edge joining two distinct vertices that are not already joined by an unequal edge. Python accepts the other calls too, and `Graphs.AddEdge` computes their results as Python does, but nothing is proved about those graphs beyond two counterexamples. A self-loop is stored once in the vertex's own map (`Graphs.AddEdgeSelfLoopIsInvalid`). An unequal edge between adjacent vertices replaces the stored edge but leaves the old edge's key in the dictionary, so `num_edges` counts both (`Graphs.AddEdgeRelabelOvercounts`). The graph generator in `main.py` (lines 30-58) only joins distinct vertices not yet joined, so it stays within the invariant.
- Graphs.RemoveEdge: when an adjacency entry is missing, Python has already deleted the dictionary key before the `KeyError`; the model returns the error without that partial change.
- Graphs.RemoveVertex: the keys deleted before a `KeyError` or `TypeError` stay deleted in Python; the model returns the error without that partial change.
- Queue operations change `Element` objects in place in Python; the model returns the new queue state, and `objs` keyed by identity plays the part of the shared objects.
- `min` is not dispatched through `Apqs`, because `prim` never calls it; both implementations model it (`HeapApq.Min`, `UnsortedApq.Min`).
- Prim.PrimHeap: no spanning guarantee, because the heap as written can return an entry that is not a minimum (see Findings). Traced by hand, not executed: vertices 0 to 3 are queued in that order, with edges 1-0 (weight 1), 2-0 (weight 5) and 3-2 (weight 7). After 0 and 1 are taken the heap holds `[3: inf, 2: 5]`. `remove_min` then takes 3 with no edge, so the tree has two edges, not three.
- Prim.Run: the tree's total weight is not proved minimal, and acyclicity is stated in structural form only: each edge attaches a vertex taken later than the vertex that stored it, and no vertex is brought in twice.

## Findings

| source | as written | input that shows it | evidently intended | confidence | as-written member | corrected member |
|---|---|---|---|---|---|---|
| src/priority_queue.py:98-108 | `_bubble_down` sets `n = length - 1` and stops on `l >= n`, so a lone left child in the last slot is never compared | add 1, 2, 3 then `remove_min`: keys `[3, 2]`, and `min()` returns 3 | `n = length`, comparing with the left child when it is the only one | not executed; high | HeapApq.RemoveMinLosesHeapOrder | RepairedHeap.RemoveMin |
| src/priority_queue.py:103-108 | when the right child is in the last slot, `_bubble_down` compares with it only, so `update_key` with a larger key can swap with the larger child | add 1, 2, 3 then `update_key` of key 1 to 5: keys `[3, 2, 5]`, and `min()` returns 3 | swap with the smaller child | not executed; high | HeapApq.IncreaseKeyLosesHeapOrder | RepairedHeap.UpdateKey |
| src/priority_queue.py:166-175 | `remove` swaps the target with the last slot but neither pops it nor updates either `.index` | add 1, 2 then `remove` of the first element: returns `(1, 1)` but `length()` stays 2 | record the moved slot, pop the target, then sift | not executed; high | HeapApq.RemoveKeepsTheElement | RepairedHeap.Remove |
| src/graph.py:106-111 | `remove_vertex` deletes the vertex and its edges' keys but leaves it in every neighbour's map | graph with edge `a`-`b`, `remove_vertex(a)`: `b` still lists `a` | also delete `x` from each neighbour's map | not executed; medium | Graphs.RemoveVertexBreaksSymmetry | Graphs.RemoveVertexDetachedIsValid |
| src/graph.py:79-80 | `add_vertex` of an existing vertex resets its neighbours while they keep it and the edge stays indexed | graph with edge `a`-`b`, `add_vertex(a)`: `a` has no neighbours, `b` still lists `a`, `num_edges()` is 1 | leave an existing vertex as it is | not executed; medium | Graphs.AddVertexAgainBreaksSymmetry | Graphs.AddVertexIfAbsentIsValid |
