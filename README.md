# Route planner core in Dafny

A model of the core of a Java route planner for road graphs. The planner reads a graph
file, finds the node next to a clicked coordinate, and computes shortest paths from that
node. The repository holds two generations of the code:

- the earlier one, under `src/routeplanner/...`;
- the newer one, under `src/main/routeplanner/...`.

Both generations are modelled side by side, one Dafny module per source file:

| module | file | source |
|---|---|---|
| `HeapOrder` | `heap_order.dfy` | shared heap-order theory (parent/child order with one hole, sift steps) |
| `IntHeap` | `int_heap.dfy` | `src/main/.../model/IntHeap.java`: a min-heap of `(key, id)` pairs packed in one `int[]`, slot 0 the size |
| `BinaryHeap` | `binary_heap.dfy` | `src/main/.../model/BinaryHeap.java`: the same heap as an object |
| `IndexedHeap` | `indexed_heap.dfy` | `src/.../model/BinaryHeap.java`: the heap with an `_indices` back-index per id (decrease-key by id) |
| `EntryQueue` | `entry_queue.dfy` | `src/.../model/Queue.java`: the heap of `Entry` objects that know their own index |
| `IntStack` | `int_stack.dfy` | `src/main/.../model/IntStack.java`: a stack packed in one `int[]` |
| `Graphs`, `DijkstraInvariant`, `Dijkstra` | `graphs.dfy`, `dijkstra_invariant.dfy`, `dijkstra.dfy` | `src/main/.../app/Dijkstra.java`: lazy Dijkstra over packed `int[]` rows, nodes queued again on every improvement |
| `DecreaseKeyInvariant`, `DecreaseKeyDijkstra` | `decrease_key_invariant.dfy`, `decrease_key_dijkstra.dfy` | `src/.../app/Dijkstra.java`: Dijkstra with one queue entry per node and decrease-key |
| `KdTree`, `NextNode`, `LegacyNextNode` | `kd_tree.dfy`, `next_node.dfy`, `legacy_next_node.dfy` | both `NextNode.java`: merge duplicate positions, build a k-d tree by median selection, search it, or scan linearly |
| `Decimal`, `FileScanner` | `decimal.dfy`, `file_scanner.dfy` | `src/.../app/FileScanner.java`: the hand-written graph-file parser |
| `GraphNode`, `DijkstraNodes` | `graph_node.dfy`, `dijkstra_node.dfy` | `src/.../model/Node.java` and `DijkstraNode.java` |
| `ParseUtilities`, `LegacyParseUtilities` | `parse_utilities.dfy`, `legacy_parse_utilities.dfy` | the two `ParseUtilities.intToString` |
| `JavaTypes` | `java_types.dfy` | `int` as `Int32`, `null` or an exception as `Option` |

How the source is modelled:

- **Arrays stay arrays.** The heaps, the stack, the Dijkstra rows and the k-d data are
  `array`s updated in place.
- **Objects stay classes.** Each class has its fields, `modifies` frames and a `Valid()`
  invariant.
- **Java's recursive methods stay recursive.** This covers the sift-up and sift-down
  helpers, `getPosition`, `createTree` and `findNext`.
- **Each method is proved against a ghost view of its state.** The view is an entry
  sequence, an element sequence or a graph-file record list. The properties the source
  relies on are proved about that view:
  - a heap's root key is minimal;
  - a poll removes exactly the root;
  - Dijkstra's distances are shortest-path lengths;
  - the tree search finds every nearest location;
  - `read` accepts exactly the well-formed files and builds the graph they describe.

Java `double` values are `real`s. The Euclidean distance of `NextNode` is a function
parameter, constrained by the two laws the pruning needs. `Double.parseDouble` is a
parameter too.

Some behaviour of the scanner that the model reproduces as written:

- `1.5.3` scans as the float `1.5` followed by the text `.3`, because `skipFloat` needs
  no blank before the next field. In the last field of a line (elevation, speed) the
  trailing `.3` makes the line fail. In an inner field the text splits into two fields:
  the node line `0 0 1.5.3 7` is accepted with latitude `1.5`, longitude `.3` and
  elevation `7`. A count line fails on any text after its digits.
- A lone `.` is accepted as the elevation and as the speed, because the code only checks
  that the scan moved.
- Latitude, longitude and cost must hold a digit, or `Double.parseDouble` throws.

## Model

| member | source | states |
|---|---|---|
| HeapOrder.RootBelowAll | src/main/routeplanner/backend/model/IntHeap.java:97-99 | in a heap-ordered sequence (each parent's key at most its children's) the key at index 0 is at most every element's key |
| HeapOrder.RootIsMin | src/main/routeplanner/backend/model/IntHeap.java:97-99 | in a heap-ordered sequence the root's key is at most the key at any index (by induction along parents) |
| HeapOrder.SiftUpDone | src/main/routeplanner/backend/model/IntHeap.java:28-30 | once the sifted element is at the root or not below its parent, the whole sequence is heap-ordered |
| HeapOrder.SiftDownDone | src/main/routeplanner/backend/model/IntHeap.java:69-71 | once the sifted element is at most its children, the whole sequence is heap-ordered |
| HeapOrder.SiftUpStep | src/main/routeplanner/backend/model/IntHeap.java:24-38 | swapping an out-of-order element with its parent moves the only order violation one level up |
| HeapOrder.SiftDownStep | src/main/routeplanner/backend/model/IntHeap.java:65-78 | swapping an element with its smaller child moves the only order violation one level down |
| HeapOrder.LastToRoot | src/main/routeplanner/backend/model/IntHeap.java:84-94 | moving the last element to the root leaves a heap broken only below the root, holding the old elements minus the root |
| IntHeap.Create | src/main/routeplanner/backend/model/IntHeap.java:9-13 | the new array has `2 * capacity + 1` slots and is an empty heap |
| IntHeap.IntLeTotal | src/main/routeplanner/backend/model/IntHeap.java:28 | the comparison of `int` keys is a total preorder |
| IntHeap.Insert | src/main/routeplanner/backend/model/IntHeap.java:16-21 | when there is room, the heap stays ordered and its entries grow by exactly `(id, key)` |
| IntHeap.DecreaseKey | src/main/routeplanner/backend/model/IntHeap.java:24-38 | sifting a lowered entry up yields an ordered heap with the same multiset of entries; the size slot is untouched |
| IntHeap.SmallerChild | src/main/routeplanner/backend/model/IntHeap.java:67 | picks the child with the smaller key, the left one on a tie |
| IntHeap.IncreaseKey | src/main/routeplanner/backend/model/IntHeap.java:41-81 | sifting a raised entry down yields an ordered heap with the same multiset of entries |
| IntHeap.Poll | src/main/routeplanner/backend/model/IntHeap.java:84-94 | returns the id of an entry with minimal key and removes exactly that entry; the heap stays ordered |
| IntHeap.Peek | src/main/routeplanner/backend/model/IntHeap.java:97-99 | on a non-empty heap, the id of the root entry |
| IntHeap.PeekIsMinimal | src/main/routeplanner/backend/model/IntHeap.java:97-99 | the peeked id belongs to an entry of the heap whose key is at most every key |
| IntHeap.Clear | src/main/routeplanner/backend/model/IntHeap.java:102-104 | the heap becomes empty; the slots past the size are kept |
| IntHeap.Capacity | src/main/routeplanner/backend/model/IntHeap.java:107-109 | the number of entries that fit the array |
| IntHeap.CreatedCapacity | src/main/routeplanner/backend/model/IntHeap.java:107-109 | a created heap has the capacity it was created with |
| IntHeap.IsEmpty | src/main/routeplanner/backend/model/IntHeap.java:112-114 | true exactly when the heap has no entries |
| IntHeap.SetSize | src/main/routeplanner/backend/model/IntHeap.java:122-124 | only the size slot changes |
| IntHeap.ChangeSize | src/main/routeplanner/backend/model/IntHeap.java:127-129 | only the size slot changes, by `count` |
| IntHeap.Set | src/main/routeplanner/backend/model/IntHeap.java:142-145 | entry slot `index` becomes `(id, key)` in the entry view, and nothing else changes, size slot included |
| IntHeap.SlotsUpdate | src/main/routeplanner/backend/model/IntHeap.java:142-145 | setting slot `k` replaces exactly entry `k` of the entry view |
| BinaryHeap.BinaryHeap.constructor | src/main/routeplanner/backend/model/BinaryHeap.java:9-13 | an empty heap with the requested capacity |
| BinaryHeap.BinaryHeap.Insert | src/main/routeplanner/backend/model/BinaryHeap.java:16-21 | when there is room, the heap stays ordered and its entries grow by exactly `(id, key)` |
| BinaryHeap.BinaryHeap.DecreaseKey | src/main/routeplanner/backend/model/BinaryHeap.java:24-38 | sifting up yields an ordered heap with the same multiset of entries |
| BinaryHeap.BinaryHeap.SmallerChild | src/main/routeplanner/backend/model/BinaryHeap.java:41-81 | the child with the smaller key, the left one on a tie |
| BinaryHeap.BinaryHeap.IncreaseKey | src/main/routeplanner/backend/model/BinaryHeap.java:41-81 | sifting down yields an ordered heap with the same multiset of entries |
| BinaryHeap.BinaryHeap.Peek | src/main/routeplanner/backend/model/BinaryHeap.java:84-87 | the id of the root entry |
| BinaryHeap.BinaryHeap.PeekIsMinimal | src/main/routeplanner/backend/model/BinaryHeap.java:84-87 | the peeked id belongs to an entry with minimal key |
| BinaryHeap.BinaryHeap.Poll | src/main/routeplanner/backend/model/BinaryHeap.java:90-100 | returns the id of a minimal entry, removes exactly it, keeps the heap ordered |
| BinaryHeap.BinaryHeap.IsEmpty | src/main/routeplanner/backend/model/BinaryHeap.java:103-105 | true exactly when there are no entries |
| BinaryHeap.BinaryHeap.Size | src/main/routeplanner/backend/model/BinaryHeap.java:108-110 | the number of entries |
| BinaryHeap.BinaryHeap.Capacity | src/main/routeplanner/backend/model/BinaryHeap.java:9-13 | the number of `(key, id)` pairs the array holds |
| BinaryHeap.BinaryHeap.Set | src/main/routeplanner/backend/model/BinaryHeap.java:131-136 | pair slot `index` becomes `(id, key)`, nothing else changes |
| IndexedHeap.BinaryHeap.constructor | src/routeplanner/backend/model/BinaryHeap.java:12-20 | an empty heap of the given capacity that contains no id |
| IndexedHeap.BinaryHeap.Contains | src/routeplanner/backend/model/BinaryHeap.java:146-149 | true exactly when some entry carries the id (the back-index is consistent with the entries) |
| IndexedHeap.BinaryHeap.Insert | src/routeplanner/backend/model/BinaryHeap.java:23-28 | for an id not yet contained, the entries grow by exactly `(id, key)`; order and back-index kept |
| IndexedHeap.BinaryHeap.DecreaseKeyOf | src/routeplanner/backend/model/BinaryHeap.java:32-47 | the contained id's key is lowered: the entries are the old ones with that entry's key replaced, order and back-index kept |
| IndexedHeap.BinaryHeap.DecreaseKey | src/routeplanner/backend/model/BinaryHeap.java:50-64 | the recursive sift-up settles a hole to an ordered, back-indexed heap with the intended entries |
| IndexedHeap.BinaryHeap.IncreaseKeyOf | src/routeplanner/backend/model/BinaryHeap.java:67-70 | the contained id's key is raised, with the same guarantees as `DecreaseKeyOf` |
| IndexedHeap.BinaryHeap.SmallerChild | src/routeplanner/backend/model/BinaryHeap.java:73-113 | the child with the smaller key, the left one on a tie |
| IndexedHeap.BinaryHeap.IncreaseKey | src/routeplanner/backend/model/BinaryHeap.java:73-113 | the recursive sift-down settles a hole to an ordered, back-indexed heap |
| IndexedHeap.BinaryHeap.Peek | src/routeplanner/backend/model/BinaryHeap.java:116-119 | the id of the root entry |
| IndexedHeap.BinaryHeap.PeekIsMinimal | src/routeplanner/backend/model/BinaryHeap.java:116-119 | the peeked id belongs to an entry of minimal key |
| IndexedHeap.BinaryHeap.Poll | src/routeplanner/backend/model/BinaryHeap.java:122-134 | returns a minimal id, removes exactly its entry, and that id is no longer contained |
| IndexedHeap.BinaryHeap.IsEmpty | src/routeplanner/backend/model/BinaryHeap.java:137-139 | true exactly when there are no entries |
| IndexedHeap.BinaryHeap.Size | src/routeplanner/backend/model/BinaryHeap.java:142-144 | the number of entries |
| IndexedHeap.BinaryHeap.Capacity | src/routeplanner/backend/model/BinaryHeap.java:12-20 | the number of `(key, id)` pairs the array holds |
| IndexedHeap.BinaryHeap.SetKey | src/routeplanner/backend/model/BinaryHeap.java:156-158 | only the key slot `index` changes |
| IndexedHeap.BinaryHeap.Set | src/routeplanner/backend/model/BinaryHeap.java:171-177 | pair slot `index` becomes `(id, key)` and the back-index of `id` becomes `index`, nothing else changes |
| EntryQueue.KeyLeTotal | src/routeplanner/backend/model/Queue.java:88 | the order on keys with +infinity is a total preorder, which the heap lemmas need |
| EntryQueue.Queue.constructor | src/routeplanner/backend/model/Queue.java:38-46 | an empty queue of the given capacity, no entry queued |
| EntryQueue.Queue.EntryIndex | src/routeplanner/backend/model/Queue.java:16-18 | a queued entry's index is the position where the queue holds it with its key |
| EntryQueue.Queue.QueuedIsLive | src/routeplanner/backend/model/Queue.java:16-18 | an entry is queued exactly when some position below the size holds it |
| EntryQueue.Queue.Insert | src/routeplanner/backend/model/Queue.java:59-70 | the next unused entry is appended with key +infinity and the value; it was not queued before and is now |
| EntryQueue.Queue.InsertWithKey | src/routeplanner/backend/model/Queue.java:49-56 | the new entry is queued with the given key and value; the entries grow by exactly it |
| EntryQueue.Queue.DecreaseKey | src/routeplanner/backend/model/Queue.java:73-76 | a queued entry's key becomes `k`: the entries are the old ones with that entry's key replaced, heap order kept |
| EntryQueue.Queue.DecreaseKeyAt | src/routeplanner/backend/model/Queue.java:79-95 | the recursive sift-up settles the hole to an ordered heap |
| EntryQueue.Queue.SmallerChild | src/routeplanner/backend/model/Queue.java:126-128 | the child with the smaller key, the right one on a tie |
| EntryQueue.Queue.IncreaseKey | src/routeplanner/backend/model/Queue.java:98-101 | a queued entry's key becomes `k`: the entries are the old ones with that key replaced, heap order kept |
| EntryQueue.Queue.IncreaseKeyAt | src/routeplanner/backend/model/Queue.java:104-140 | the recursive sift-down settles the hole to an ordered heap |
| EntryQueue.Queue.SiftDownTo | src/routeplanner/backend/model/Queue.java:126-138 | moving the smaller child up and continuing below settles the hole |
| EntryQueue.Queue.Peek | src/routeplanner/backend/model/Queue.java:143-146 | the entry in the root slot, defined on an empty queue too; when the queue is non-empty it is the root of the entry view |
| EntryQueue.Queue.PeekIsMinimal | src/routeplanner/backend/model/Queue.java:143-146 | the peeked entry is queued and its key is at most every queued key |
| EntryQueue.Queue.Poll | src/routeplanner/backend/model/Queue.java:149-162 | returns the value of a minimal entry and removes exactly it; that entry is parked past the end and no longer queued |
| EntryQueue.Queue.Detach | src/routeplanner/backend/model/Queue.java:151-157 | the root entry is parked at the old last slot and the last entry moves to the root as a hole |
| EntryQueue.Queue.Resettle | src/routeplanner/backend/model/Queue.java:159 | sifting the moved entry down leaves a valid queue holding the old entries minus the root |
| EntryQueue.Queue.SetEntry | src/routeplanner/backend/model/Queue.java:164-171 | the entry's index and the slot change together |
| EntryQueue.Queue.SetEntryKey | src/routeplanner/backend/model/Queue.java:173-178 | as `SetEntry`, and the entry's key becomes `k` |
| EntryQueue.Queue.IsEmpty | src/routeplanner/backend/model/Queue.java:181-183 | true exactly when nothing is queued |
| EntryQueue.Queue.Size | src/routeplanner/backend/model/Queue.java:186-188 | the number of queued entries |
| IntStack.Create | src/main/routeplanner/backend/model/IntStack.java:9-13 | an empty stack over a zero-filled array of `capacity + 1` slots |
| IntStack.Capacity | src/main/routeplanner/backend/model/IntStack.java:64-66 | the corrected capacity `stack.length - 1`, the number of elements that fit; it is the corrected half of the first Findings row, and IntStack.CapacityAsWritten is Java's value |
| IntStack.CreatedCapacity | src/main/routeplanner/backend/model/IntStack.java:9-13 | a created stack holds `capacity` elements, while Java's `capacity` reports one more |
| IntStack.CapacityAsWritten | src/main/routeplanner/backend/model/IntStack.java:64-66 | Java's `capacity`: the array length |
| IntStack.CapacityOverstated | src/main/routeplanner/backend/model/IntStack.java:64-66 | a full stack's size is still below the reported capacity |
| IntStack.Size | src/main/routeplanner/backend/model/IntStack.java:69-71 | the number of elements, never above the capacity |
| IntStack.Push | src/main/routeplanner/backend/model/IntStack.java:16-21 | with room left, the elements grow by `value` on top |
| IntStack.Pop | src/main/routeplanner/backend/model/IntStack.java:24-31 | on a non-empty stack, returns the top element and removes exactly it |
| IntStack.Get | src/main/routeplanner/backend/model/IntStack.java:34-37 | element `index` from the bottom |
| IntStack.Remove | src/main/routeplanner/backend/model/IntStack.java:40-43 | the top `count` elements are dropped |
| IntStack.DropBelowTop | src/main/routeplanner/backend/model/IntStack.java:45-56 | dropping `count` elements under the top `offset` keeps the elements below them and the top `offset`, in order |
| IntStack.RemoveBelowTop | src/main/routeplanner/backend/model/IntStack.java:47-56 | the shifting loop leaves exactly `DropBelowTop` of the old elements |
| IntStack.DropBelowEmptyTop | src/main/routeplanner/backend/model/IntStack.java:40-56 | with no top elements kept, the three-argument `remove` equals the two-argument one |
| IntStack.Clear | src/main/routeplanner/backend/model/IntStack.java:59-61 | the stack becomes empty; the element slots are kept |
| IntStack.SetSize | src/main/routeplanner/backend/model/IntStack.java:74-76 | only the size slot changes |
| IntStack.ChangeSize | src/main/routeplanner/backend/model/IntStack.java:79-81 | only the size slot changes, by `count` |
| Graphs.ShortestUnique | src/main/routeplanner/backend/app/Dijkstra.java:10-11 | a shortest distance from `s` to `t` is unique |
| Graphs.Stay | src/main/routeplanner/backend/app/Dijkstra.java:14 | the empty walk from the start reaches it at cost 0 |
| Graphs.DropCost | src/main/routeplanner/backend/app/Dijkstra.java:36-40 | a walk's cost is that of the walk without its last edge plus that edge's cost |
| Graphs.NodeSetSize | src/main/routeplanner/backend/app/Dijkstra.java:17-29 | a set of node ids below `n` has at most `n` members, which bounds the number of finished nodes |
| Graphs.CostNonNegative | src/main/routeplanner/backend/app/Dijkstra.java:36 | with non-negative edge costs every walk costs at least 0 |
| Graphs.ExtendWalk | src/main/routeplanner/backend/app/Dijkstra.java:35-36 | a walk to `u` followed by edge `j` of `u` is a walk to its target, costing that edge more |
| DijkstraInvariant.Init | src/main/routeplanner/backend/app/Dijkstra.java:14-15 | after reset, with the start at distance 0 and queued, the loop invariant holds |
| DijkstraInvariant.Skip | src/main/routeplanner/backend/app/Dijkstra.java:24-26 | polling an already finished node (a stale entry) and skipping it keeps the invariant |
| DijkstraInvariant.FinishStale | src/main/routeplanner/backend/app/Dijkstra.java:25-29 | polling an entry of a node already finished at distance 0 (where `-0 == 0` defeats the skip test) and finishing it again keeps the invariant |
| DijkstraInvariant.Finish | src/main/routeplanner/backend/app/Dijkstra.java:28-29 | the minimal queued node's distance is final: marking it finished (negating it) keeps the invariant |
| DijkstraInvariant.Frontier | src/main/routeplanner/backend/app/Dijkstra.java:17-29 | any walk from the start to an unfinished node passes a queued node no farther than the walk's cost |
| DijkstraInvariant.SumFits | src/main/routeplanner/backend/app/Dijkstra.java:36 | `edgeCost + currentDistance` stays below `Integer.MAX_VALUE` (no wrap-around) |
| DijkstraInvariant.Improve | src/main/routeplanner/backend/app/Dijkstra.java:38-44 | lowering a neighbour's distance, setting its predecessor and queueing it keeps the invariant |
| DijkstraInvariant.NoImprove | src/main/routeplanner/backend/app/Dijkstra.java:38 | an edge that does not improve its target keeps the invariant |
| DijkstraInvariant.RelaxOneInv | src/main/routeplanner/backend/app/Dijkstra.java:35-44 | relaxing one edge keeps the invariant and does not raise the termination measure |
| DijkstraInvariant.Relaxed_All | src/main/routeplanner/backend/app/Dijkstra.java:32-45 | once every edge of the finished node is relaxed, the between-polls invariant holds |
| DijkstraInvariant.PotUpdate | src/main/routeplanner/backend/app/Dijkstra.java:38-40 | lowering an unfinished node's distance lowers the potential part of the measure by exactly the decrease |
| DijkstraInvariant.PotFinish | src/main/routeplanner/backend/app/Dijkstra.java:28-29 | finishing a node does not raise the potential part of the measure |
| DijkstraInvariant.RelaxAllInv | src/main/routeplanner/backend/app/Dijkstra.java:32-45 | relaxing all edges of the finished node restores the between-polls invariant |
| DijkstraInvariant.PollInv | src/main/routeplanner/backend/app/Dijkstra.java:17-46 | one round of the main loop keeps the invariant and strictly lowers a termination measure |
| DijkstraInvariant.Done | src/main/routeplanner/backend/app/Dijkstra.java:17 | once the queue is empty, every reachable node holds its shortest distance (negated) and a predecessor one edge short; unreachable nodes keep `MAX_VALUE` and `-1` |
| Dijkstra.Reported | src/main/routeplanner/backend/app/Dijkstra.java:54-60 | the distance `getResult` reports: `-1` for a node never finished, the distance otherwise |
| Dijkstra.ReportedMeaning | src/main/routeplanner/backend/app/Dijkstra.java:50-67 | on a solved engine, `-1` is reported exactly for unreachable nodes, otherwise the shortest distance, and the reported predecessor is reached and one edge short |
| Dijkstra.Engine.constructor | src/main/routeplanner/backend/app/Dijkstra.java:130-134 | no graph and an empty queue |
| Dijkstra.Engine.EdgeCount | src/main/routeplanner/backend/app/Dijkstra.java:100-102 | the packed row of `u` holds exactly its edges |
| Dijkstra.Engine.EdgeTarget | src/main/routeplanner/backend/app/Dijkstra.java:104-106 | the target of edge `i` of `u` in the graph |
| Dijkstra.Engine.EdgeCost | src/main/routeplanner/backend/app/Dijkstra.java:108-110 | the cost of edge `i` of `u` in the graph |
| Dijkstra.Engine.Distance | src/main/routeplanner/backend/app/Dijkstra.java:112-114 | slot 0 of a row is the node's stored distance |
| Dijkstra.Engine.Previous | src/main/routeplanner/backend/app/Dijkstra.java:120-122 | slot 1 of a row is the node's predecessor |
| Dijkstra.Engine.SetDistance | src/main/routeplanner/backend/app/Dijkstra.java:116-118 | only the node's distance changes |
| Dijkstra.Engine.SetPrevious | src/main/routeplanner/backend/app/Dijkstra.java:124-127 | only the node's distance and predecessor change |
| Dijkstra.Engine.Enqueue | src/main/routeplanner/backend/app/Dijkstra.java:43 | the queue gains exactly `(id, key)` |
| Dijkstra.Engine.Dequeue | src/main/routeplanner/backend/app/Dijkstra.java:20 | removes and returns a minimal queue entry |
| Dijkstra.Engine.Reset | src/main/routeplanner/backend/app/Dijkstra.java:94-98 | every node gets distance `MAX_VALUE` and predecessor `-1` |
| Dijkstra.Engine.Calculate | src/main/routeplanner/backend/app/Dijkstra.java:11-47 | unless the queue overflows, afterwards every node holds its shortest distance from `start` (negated) or `MAX_VALUE` when unreachable, with a predecessor one edge short, and the queue is empty |
| Dijkstra.Engine.Start | src/main/routeplanner/backend/app/Dijkstra.java:14-15 | the start gets distance 0 and is queued; the invariant holds |
| Dijkstra.Engine.Step | src/main/routeplanner/backend/app/Dijkstra.java:20-45 | one loop round polls a minimal entry and performs exactly the round `Polled` describes |
| Dijkstra.Engine.Settle | src/main/routeplanner/backend/app/Dijkstra.java:24-45 | skip a finished node, or finish it and relax its edges, as `Polled` describes |
| Dijkstra.Engine.Relax | src/main/routeplanner/backend/app/Dijkstra.java:32-45 | the edge loop performs exactly `RelaxUpTo` over all edges |
| Dijkstra.Engine.RelaxEdge | src/main/routeplanner/backend/app/Dijkstra.java:35-44 | one edge: exactly `RelaxOne`; overflow exactly when an improvement finds the queue full |
| Dijkstra.Engine.GetResult | src/main/routeplanner/backend/app/Dijkstra.java:50-67 | writes the reported distance and the predecessor of every node |
| Dijkstra.Engine.Prepare | src/main/routeplanner/backend/app/Dijkstra.java:70-91 | the rows pack the given graph, the engine is reset and the queue is empty with one slot per node |
| Dijkstra.Engine.PackRows | src/main/routeplanner/backend/app/Dijkstra.java:74-89 | one fresh, distinct row per node holding each edge's cost and target in slots `2j+2` and `2j+3` |
| Dijkstra.Engine.PackRow | src/main/routeplanner/backend/app/Dijkstra.java:80-86 | a fresh row of length `2 * edges + 2` holding each edge's cost and target |
| DecreaseKeyInvariant.InitialHolds | src/routeplanner/backend/app/Dijkstra.java:22-24 | with the start at distance 0 as the only queue entry, the invariant holds |
| DecreaseKeyInvariant.Init | src/routeplanner/backend/app/Dijkstra.java:22-24 | the start at distance 0 with a witness walk of cost 0, every other node at `MAX_VALUE`, satisfies the loop invariant |
| DecreaseKeyInvariant.Room | src/routeplanner/backend/app/Dijkstra.java:34-35 | while the queue is non-empty, fewer than all nodes are finished, so `finishedNodes` has room |
| DecreaseKeyInvariant.Finish | src/routeplanner/backend/app/Dijkstra.java:31-35 | the polled minimal node is unfinished and its distance final; appending it to the finished list keeps the invariant |
| DecreaseKeyInvariant.FinishOrdered | src/routeplanner/backend/app/Dijkstra.java:31-35 | the finished list stays in order of distance |
| DecreaseKeyInvariant.SumFits | src/routeplanner/backend/app/Dijkstra.java:42 | `current.distance() + edge.cost()` does not wrap around |
| DecreaseKeyInvariant.Improve | src/routeplanner/backend/app/Dijkstra.java:44-56 | lowering a neighbour, setting its predecessor and inserting or decreasing its entry keeps the invariant |
| DecreaseKeyInvariant.QueueTracked | src/routeplanner/backend/app/Dijkstra.java:49-51 | a node without entry gets exactly one new entry with its new distance |
| DecreaseKeyInvariant.RekeyTracked | src/routeplanner/backend/app/Dijkstra.java:53-55 | a node with an entry keeps exactly one entry, now keyed by its new distance |
| DecreaseKeyInvariant.NoImprove | src/routeplanner/backend/app/Dijkstra.java:44 | an edge that does not improve its target keeps the invariant |
| DecreaseKeyInvariant.RelaxAllInv | src/routeplanner/backend/app/Dijkstra.java:37-58 | relaxing every edge of the node just finished restores the between-polls invariant and keeps the finished list |
| DecreaseKeyInvariant.PollInv | src/routeplanner/backend/app/Dijkstra.java:28-58 | one round of the main loop keeps the invariant and appends the polled node to the finished list |
| DecreaseKeyInvariant.Done | src/routeplanner/backend/app/Dijkstra.java:28-63 | once the queue is empty: the finished list holds each reachable node once, the start first, by distance; each holds its shortest distance and a finished predecessor one edge short; unreachable nodes keep `MAX_VALUE` |
| DecreaseKeyDijkstra.Calculate | src/routeplanner/backend/app/Dijkstra.java:13-64 | the returned list holds the finished nodes in order of distance, followed by `null`s, and every node's distance and predecessor are shortest-path ones |
| DecreaseKeyDijkstra.Begin | src/routeplanner/backend/app/Dijkstra.java:22-24 | the arrays and the queue hold the initial state |
| DecreaseKeyDijkstra.Round | src/routeplanner/backend/app/Dijkstra.java:28-58 | one loop round keeps the loop state and finishes one more node |
| DecreaseKeyDijkstra.Step | src/routeplanner/backend/app/Dijkstra.java:31-58 | one round after the poll: the finished list grows by the polled node and the arrays and queue mirror the state the relaxation yields |
| DecreaseKeyDijkstra.Take | src/routeplanner/backend/app/Dijkstra.java:31-32 | polls the minimal entry; its node no longer has an entry |
| DecreaseKeyDijkstra.Record | src/routeplanner/backend/app/Dijkstra.java:34-35 | the finished list grows by the polled node, nothing else in it changes |
| DecreaseKeyDijkstra.Relax | src/routeplanner/backend/app/Dijkstra.java:37-58 | the edge loop performs exactly the relaxation the ghost state sequence describes |
| DecreaseKeyDijkstra.RelaxEdge | src/routeplanner/backend/app/Dijkstra.java:40-57 | one edge: exactly `RelaxOne` on the arrays and the queue |
| DecreaseKeyDijkstra.Lower | src/routeplanner/backend/app/Dijkstra.java:49-56 | insert when the node has no entry, decrease-key otherwise; the queue afterwards holds `Lowered` |
| DecreaseKeyDijkstra.QueuedIffOpen | src/routeplanner/backend/app/Dijkstra.java:49 | `entry() == null` exactly when the node is not open |
| KdTree.AxisBound | src/main/routeplanner/backend/app/NextNode.java:94-113 | the distance to a location is at least the distance along one axis, which justifies skipping the other subtree |
| KdTree.FindNext | src/main/routeplanner/backend/app/NextNode.java:78-137 | pushes distinct leaves of the subtree, all at the returned distance, on top of the old stack; when the subtree obeys the split rule, they are every leaf at the least distance |
| KdTree.FindNextBoth | src/main/routeplanner/backend/app/NextNode.java:93-136 | a node with two children: the near subtree first, the far one only when it can hold something at least as near |
| KdTree.FindNextOther | src/main/routeplanner/backend/app/NextNode.java:113-135 | merging the far subtree's results: equal distance keeps both, nearer replaces, farther discards |
| KdTree.SearchedAll | src/main/routeplanner/backend/app/NextNode.java:70-75 | a search of a split-rule tree over all indices finds the least distance and exactly the locations at it |
| KdTree.TiesExactly | src/main/routeplanner/backend/app/NextNode.java:46-67 | the scan's result list holds exactly the indices at distance `m`, increasing |
| KdTree.ScanNearest | src/main/routeplanner/backend/app/NextNode.java:46-67 | the linear scan returns the least distance, or +infinity for no data, and leaves exactly the indices at it, increasing |
| KdTree.SearchMatchesScan | src/main/routeplanner/backend/app/NextNode.java:46-75 | the tree search and the scan agree: same distance, same set of indices, same number |
| KdTree.CollectNodes | src/main/routeplanner/backend/app/NextNode.java:26-37 | the nodes of the locations on the stack, location by location, bottom first |
| KdTree.ExpandMembers | src/main/routeplanner/backend/app/NextNode.java:26-37 | a node is in the result exactly when it carries an id of a location on the stack |
| KdTree.RunEnd | src/main/routeplanner/backend/app/NextNode.java:165-167 | the end of the run of nodes at the same position: every node before it shares the position, the one at it does not |
| KdTree.NextLocation | src/main/routeplanner/backend/app/NextNode.java:163-174 | one location holding the position and the ids of the run |
| KdTree.MergeRoundTrip | src/main/routeplanner/backend/app/NextNode.java:160-189 | merging loses nothing: expanding the locations gives back exactly the sorted nodes, in order |
| KdTree.MergePlaces | src/main/routeplanner/backend/app/NextNode.java:160-189 | every merged location holds at least one id, and every id has the location's position |
| KdTree.MergeIncreasing | src/main/routeplanner/backend/app/NextNode.java:160-189 | on sorted nodes the merged locations are strictly increasing, so no position appears twice |
| KdTree.MergeLocations | src/routeplanner/backend/app/NextNode.java:150-176 | `_data` after the older merge loop and the shrink: exactly `Merge` of the sorted nodes |
| KdTree.IdsOf | src/main/routeplanner/backend/app/NextNode.java:173-174 | the ids of the run, in order |
| KdTree.Swap | src/main/routeplanner/backend/app/NextNode.java:268-273 | exchanges two entries and nothing else |
| KdTree.PlacedRanked | src/main/routeplanner/backend/app/NextNode.java:231-232 | an entry with no larger entry before it and no smaller after it holds the coordinate ranked `pos` in sorted order |
| KdTree.CountReordered | src/main/routeplanner/backend/app/NextNode.java:231-232 | how many entries lie below a value does not depend on their order |
| NextNode.Partition | src/main/routeplanner/backend/app/NextNode.java:249-265 | Lomuto partition: a permutation of the range with the pivot at the returned index, smaller coordinates before it, not smaller ones after |
| NextNode.GetPosition | src/main/routeplanner/backend/app/NextNode.java:232-246 | a permutation of the range whose entry at `left + pos` has no larger entry before it and no smaller after it; the coordinate there is returned |
| NextNode.PositionRanked | src/main/routeplanner/backend/app/NextNode.java:231-246 | the returned coordinate is the `pos`-th smallest of the original range (quickselect is correct) |
| NextNode.CreateTree | src/main/routeplanner/backend/app/NextNode.java:203-229 | a permutation of the range and a tree whose leaves are exactly its indices, obeying the split rule on alternating coordinates |
| NextNode.Box | src/main/routeplanner/backend/app/NextNode.java:156-183 | the box the merge loop builds is the minimum bounding box, the empty box for no locations |
| NextNode.BoxStep | src/main/routeplanner/backend/app/NextNode.java:176-183 | each further location widens the box by the four tests |
| NextNode.BoxesUnique | src/main/routeplanner/backend/app/NextNode.java:39-43 | a sequence of locations has only one minimum bounding box |
| NextNode.NewBox | src/main/routeplanner/backend/app/NextNode.java:156 | the empty box `{+inf, +inf, -inf, -inf}` |
| NextNode.WidenBounds | src/main/routeplanner/backend/app/NextNode.java:176-183 | the four comparisons on the box array |
| NextNode.MergeWithBounds | src/main/routeplanner/backend/app/NextNode.java:156-192 | `_data` is exactly `Merge` of the sorted nodes and `_bounds` their bounding box |
| NextNode.MergeNext | src/main/routeplanner/backend/app/NextNode.java:161-189 | one pass of the merge loop: the next location is appended and widens the box |
| NextNode.Build | src/main/routeplanner/backend/app/NextNode.java:140-200 | the merged locations (rearranged), a split-rule tree over all of them, their box and an empty stack with one slot per location |
| NextNode.SearchTree | src/main/routeplanner/backend/app/NextNode.java:70-75 | the stack ends up with exactly the locations at the least distance, each once, and that distance is returned |
| NextNode.NextNode.constructor | src/main/routeplanner/backend/app/NextNode.java:285-295 | an object as if prepared over no locations: empty data, an empty stack; Java's fields stay null until `prepare` (see Left out) |
| NextNode.NextNode.Prepare | src/main/routeplanner/backend/app/NextNode.java:140-200 | given the nodes sorted by the comparator, the object holds their merged locations, their box and a split-rule tree |
| NextNode.NextNode.MinimumBoundingBox | src/main/routeplanner/backend/app/NextNode.java:40-43 | the minimum bounding box of the locations |
| NextNode.NextNode.FindNextIterative | src/main/routeplanner/backend/app/NextNode.java:46-67 | the least distance (+infinity without data) and exactly its locations, increasing |
| NextNode.NextNode.FindNext | src/main/routeplanner/backend/app/NextNode.java:70-75 | the least distance and exactly the locations at it, each once |
| NextNode.NextNode.GetResult | src/main/routeplanner/backend/app/NextNode.java:26-37 | exactly the nodes carrying an id of a location on the stack |
| LegacyNextNode.ScanUp | src/routeplanner/backend/app/NextNode.java:239 | the first index from `i` whose coordinate is not below the pivot |
| LegacyNextNode.ScanDown | src/routeplanner/backend/app/NextNode.java:241 | the last index up to `j` whose coordinate is not above the pivot |
| LegacyNextNode.PartitionFrom | src/routeplanner/backend/app/NextNode.java:235-247 | the Hoare loop's result: rearranged entries and an index inside the range |
| LegacyNextNode.Partition | src/routeplanner/backend/app/NextNode.java:233-248 | a permutation of the range, as `PartitionFrom` says, with entries before the index at most the pivot and from it on at least the pivot |
| LegacyNextNode.GetPosition | src/routeplanner/backend/app/NextNode.java:216-230 | the recursion `Position` describes, a permutation of the range, returning the coordinate it leaves at `left + pos` |
| LegacyNextNode.ContinueAt | src/routeplanner/backend/app/NextNode.java:221-229 | the recursion on the side of the partition index that holds `pos`, as `Continue` describes, permuting the range |
| LegacyNextNode.MedianMissed | src/routeplanner/backend/app/NextNode.java:216-230 | on longitudes 3, 1, 2 the older `getPosition` at position 1 returns 3, which is not the median and breaks the split rule |
| LegacyNextNode.CreateTree | src/routeplanner/backend/app/NextNode.java:187-213 | a permutation of the range and a tree whose leaves are exactly its indices |
| LegacyNextNode.Build | src/routeplanner/backend/app/NextNode.java:134-184 | the merged locations (rearranged), a tree over all of them and an empty stack |
| LegacyNextNode.SearchTree | src/routeplanner/backend/app/NextNode.java:64-69 | distinct locations, all at the returned distance |
| LegacyNextNode.NextNode.constructor | src/routeplanner/backend/app/NextNode.java:268-275 | an object as if prepared over no locations: empty data, an empty stack; Java's fields stay null until `prepare` (see Left out) |
| LegacyNextNode.NextNode.Prepare | src/routeplanner/backend/app/NextNode.java:134-184 | the object holds the merged locations of the sorted nodes and a tree over them |
| LegacyNextNode.NextNode.FindNextIterative | src/routeplanner/backend/app/NextNode.java:40-61 | the least distance (+infinity without data) and exactly its locations, increasing |
| LegacyNextNode.NextNode.FindNext | src/routeplanner/backend/app/NextNode.java:64-69 | at least one location, distinct, all at the returned distance |
| LegacyNextNode.NextNode.GetResult | src/routeplanner/backend/app/NextNode.java:26-37 | the nodes of the locations on the stack, bottom first |
| Decimal.Digits | src/routeplanner/backend/app/ParseUtilities.java:14 | the decimal digits of `n`, without leading zeros |
| Decimal.DigitChar | src/routeplanner/backend/app/ParseUtilities.java:14 | the character of a decimal digit is an ASCII digit of that value |
| Decimal.TextShape | src/routeplanner/backend/app/ParseUtilities.java:14 | the text of an `int` is non-empty and consists of digits with an optional leading minus sign |
| Decimal.ValueOfDigits | src/routeplanner/backend/app/ParseUtilities.java:14 | the digits of `n` denote `n` |
| Decimal.ParseText | src/routeplanner/backend/app/ParseUtilities.java:14 | `Integer.parseInt` of `"" + v` gives back `v` for every `int` |
| Decimal.TextInjective | src/routeplanner/backend/app/ParseUtilities.java:14 | different `int`s are written differently |
| ParseUtilities.IntToString | src/routeplanner/backend/app/ParseUtilities.java:9-15 | non-empty text, the infinity sign exactly for `MAX_VALUE` |
| ParseUtilities.IntToStringDecimal | src/routeplanner/backend/app/ParseUtilities.java:14 | every other value is written as its decimal text, which reads back as the value |
| ParseUtilities.IntToStringInjective | src/routeplanner/backend/app/ParseUtilities.java:9-15 | different values are written differently |
| LegacyParseUtilities.IntToStringParses | Programmierprojekt-master/src/routeplanner/backend/app/ParseUtilities.java:9-15 | the text reads back as the value, except `MAX_VALUE`, which reads back as -1 |
| LegacyParseUtilities.IntToString | Programmierprojekt-master/src/routeplanner/backend/app/ParseUtilities.java:9-15 | the earlier `intToString` prints `MAX_VALUE` as "-1"; the text is never empty |
| LegacyParseUtilities.SentinelLooksLikeMinusOne | Programmierprojekt-master/src/routeplanner/backend/app/ParseUtilities.java:11-14 | the unreachable marker `MAX_VALUE` and the value -1 print the same |
| LegacyParseUtilities.MinusOneFromTwo | Programmierprojekt-master/src/routeplanner/backend/app/ParseUtilities.java:11-14 | "-1" is written for exactly two values, `MAX_VALUE` and -1 |
| LegacyParseUtilities.IntToStringInjectiveOtherwise | Programmierprojekt-master/src/routeplanner/backend/app/ParseUtilities.java:14 | apart from that pair, different values are written differently |
| GraphNode.Node.constructor | src/routeplanner/backend/model/Node.java:14-23 | the fields as given, distance reset to `MAX_VALUE` |
| GraphNode.Node.WithoutEdges | src/routeplanner/backend/model/Node.java:8-12 | as the main constructor, without edges (`null`) |
| GraphNode.Node.Reset | src/routeplanner/backend/model/Node.java:26-29 | the distance becomes `MAX_VALUE`, the edges are kept |
| GraphNode.ResetAll | src/routeplanner/backend/model/Node.java:32-36 | every node of the array is reset, edges kept |
| GraphNode.Node.SetEdges | src/routeplanner/backend/model/Node.java:54-56 | only the edges change |
| GraphNode.Node.SetDistance | src/routeplanner/backend/model/Node.java:62-64 | only the distance changes |
| DijkstraNodes.DijkstraNode.constructor | src/routeplanner/backend/model/DijkstraNode.java:10-17 | the node and edges as given, no predecessor, distance +infinity, no entry |
| DijkstraNodes.DijkstraNode.WithoutEdges | src/routeplanner/backend/model/DijkstraNode.java:5-8 | as the main constructor, without edges |
| DijkstraNodes.DijkstraNode.SetPrevious | src/routeplanner/backend/model/DijkstraNode.java:31-33 | only the predecessor changes |
| DijkstraNodes.DijkstraNode.SetDistance | src/routeplanner/backend/model/DijkstraNode.java:39-41 | only the distance changes |
| DijkstraNodes.DijkstraNode.SetEntry | src/routeplanner/backend/model/DijkstraNode.java:47-49 | only the queue entry changes |
| DijkstraNodes.CreateTree | src/routeplanner/backend/model/DijkstraNode.java:52-78 | one fresh, distinct working node per node, unreached, each with copies of its node's edges between the working nodes |
| DijkstraNodes.CreateNodes | src/routeplanner/backend/model/DijkstraNode.java:54-59 | the first loop: a fresh, unreached working node per node, no edges yet |
| DijkstraNodes.LinkEdges | src/routeplanner/backend/model/DijkstraNode.java:61-75 | the second loop: every working node gets its copied edges, nothing else changes |
| DijkstraNodes.CopyEdges | src/routeplanner/backend/model/DijkstraNode.java:63-72 | edge `j` is copied as an edge from working node `i` to the working node of its target's id, same cost |
| FileScanner.WhitespaceEnd | src/routeplanner/backend/app/FileScanner.java:18-24 | a position from `k` on, inside the line |
| FileScanner.WhitespaceEndSpec | src/routeplanner/backend/app/FileScanner.java:18-24 | everything skipped is whitespace and the stop is the end of the line or a non-blank character |
| FileScanner.SkipWhitespace | src/routeplanner/backend/app/FileScanner.java:18-24 | the loop stops where `WhitespaceEnd` says |
| FileScanner.IntegerEndSpec | src/routeplanner/backend/app/FileScanner.java:26-32 | everything skipped is a digit and the stop is the end of the line or a non-digit |
| FileScanner.SkipInteger | src/routeplanner/backend/app/FileScanner.java:26-32 | the loop stops where `IntegerEnd` says |
| FileScanner.IntegerEndDigits | src/routeplanner/backend/app/FileScanner.java:26-32 | what `skipInteger` passes over is all digits |
| FileScanner.FloatEndText | src/routeplanner/backend/app/FileScanner.java:34-43 | what `skipFloat` passes over is digits, optionally a dot and more digits |
| FileScanner.SkipFloat | src/routeplanner/backend/app/FileScanner.java:34-43 | the scan stops where `FloatEnd` says |
| FileScanner.ParseUnsignedInt | src/routeplanner/backend/app/FileScanner.java:69 | `Integer.parseUnsignedInt` of digits: defined exactly for non-empty digit strings below 2^32, giving the value modulo 2^32 as an `int` |
| FileScanner.ParseUnsignedDigits | src/routeplanner/backend/app/FileScanner.java:98 | the digit text of an `int` id parses back to the id |
| FileScanner.NextRelevant | src/routeplanner/backend/app/FileScanner.java:45-59 | the first line from `n` on that is relevant (has a non-blank character that is not `#`), or the end |
| FileScanner.NextRelevantSkips | src/routeplanner/backend/app/FileScanner.java:48-56 | every line skipped is blank or a comment |
| FileScanner.NextLineSpec | src/routeplanner/backend/app/FileScanner.java:45-59 | no line is found exactly when every remaining line is irrelevant; otherwise the first relevant one, its first non-blank index and the next line |
| FileScanner.LineReader.ReadLine | src/routeplanner/backend/app/FileScanner.java:48 | returns the next line and moves on, or `null` at the end |
| FileScanner.StringPosition.constructor | src/routeplanner/backend/app/FileScanner.java:13-16 | no line, index -1 |
| FileScanner.GetNextRelevantLine | src/routeplanner/backend/app/FileScanner.java:45-59 | `pos` holds the line and index `NextLine` describes, or `null` and -1 |
| FileScanner.CountLineShape | src/routeplanner/backend/app/FileScanner.java:68-74 | a count line that is accepted is a run of digits followed only by whitespace |
| FileScanner.CountLineFormat | src/routeplanner/backend/app/FileScanner.java:68-74 | a count written as digits, padded by whitespace, is read back, and any other trailing text is rejected |
| FileScanner.ReadCount | src/routeplanner/backend/app/FileScanner.java:63-74 | reads one count line as `RecordAt` says, or fails |
| FileScanner.ReadHeader | src/routeplanner/backend/app/FileScanner.java:61-88 | reads the node and edge counts as the first two records, or fails |
| FileScanner.NodeFields | src/routeplanner/backend/app/FileScanner.java:97-129 | a line with the five node fields at the given positions parses to the node record, exactly when nothing follows |
| FileScanner.NodeLineFormat | src/routeplanner/backend/app/FileScanner.java:97-129 | a node line written as id, osm id, latitude, longitude and elevation separated by whitespace parses back to that node, exactly when no other text trails |
| FileScanner.ScanNode | src/routeplanner/backend/app/FileScanner.java:97-129 | the field scans give exactly `ParseNode` of the line |
| FileScanner.ReadNode | src/routeplanner/backend/app/FileScanner.java:90-130 | the next relevant line parsed as a node, as `RecordAt` says |
| FileScanner.EdgeFields | src/routeplanner/backend/app/FileScanner.java:139-171 | a line with the five edge fields at the given positions parses to the edge record, exactly when nothing follows |
| FileScanner.EdgeLineFormat | src/routeplanner/backend/app/FileScanner.java:139-171 | an edge line written as source, target, cost, type and speed parses back to that edge, exactly when no other text trails |
| FileScanner.ScanEdge | src/routeplanner/backend/app/FileScanner.java:139-171 | the field scans give exactly `ParseEdge` of the line |
| FileScanner.ReadEdge | src/routeplanner/backend/app/FileScanner.java:132-172 | the next relevant line parsed as an edge, as `RecordAt` says |
| FileScanner.RecordsFrom | src/routeplanner/backend/app/FileScanner.java:192-222 | `count` records read one after another, or failure |
| FileScanner.NextRecord | src/routeplanner/backend/app/FileScanner.java:192-222 | reading one more record extends the records read so far, and a failing record makes the whole list fail |
| FileScanner.FilledSlots | src/routeplanner/backend/app/FileScanner.java:196-204 | `count` pairwise different ids in `[0, count)` take every value, so every slot of `nodes` is filled |
| FileScanner.IdsCount | src/routeplanner/backend/app/FileScanner.java:196-204 | `m` records with pairwise different ids carry `m` different ids |
| FileScanner.NodesValidSnoc | src/routeplanner/backend/app/FileScanner.java:196-204 | a record with an id in range and not seen before keeps the ids valid |
| FileScanner.NodeRejected | src/routeplanner/backend/app/FileScanner.java:196-202 | an id out of range or seen before makes the whole node list invalid |
| FileScanner.ReadNodes | src/routeplanner/backend/app/FileScanner.java:192-206 | succeeds exactly when `count` node records follow with valid ids; then node `x` sits at index `x`, fresh, without edges, and every relation list is empty |
| FileScanner.NodeLoop | src/routeplanner/backend/app/FileScanner.java:192-206 | the loop reads exactly the node records and stores each at its id |
| FileScanner.NodeRound | src/routeplanner/backend/app/FileScanner.java:194-205 | one round: one more record read and stored, or failure exactly when the list is invalid |
| FileScanner.AddNode | src/routeplanner/backend/app/FileScanner.java:196-204 | the two id checks and the store |
| FileScanner.Store | src/routeplanner/backend/app/FileScanner.java:204 | a fresh node at index `id`, other slots unchanged |
| FileScanner.NoEdges | src/routeplanner/backend/app/FileScanner.java:190-205 | one relation list per node |
| FileScanner.AdjacencyMembers | src/routeplanner/backend/app/FileScanner.java:219-221 | an edge is in node `v`'s list exactly when it comes from a record with source `v` |
| FileScanner.AdjacencyOnce | src/routeplanner/backend/app/FileScanner.java:221 | each edge record lands in its source's list and in no other |
| FileScanner.AdjacencySnoc | src/routeplanner/backend/app/FileScanner.java:214-221 | one more valid edge extends exactly its source's list |
| FileScanner.EdgeRejected | src/routeplanner/backend/app/FileScanner.java:214-217 | an endpoint out of range makes the whole edge list invalid |
| FileScanner.ReadEdges | src/routeplanner/backend/app/FileScanner.java:210-222 | succeeds exactly when `count` edge records follow with valid endpoints; then each node's list is its adjacency |
| FileScanner.AddEdge | src/routeplanner/backend/app/FileScanner.java:212-221 | one round of the edge loop |
| FileScanner.Attach | src/routeplanner/backend/app/FileScanner.java:226-232 | every node gets its relation list as its edges |
| FileScanner.Assembled | src/routeplanner/backend/app/FileScanner.java:226-238 | the nodes with their lists are the graph the records describe |
| FileScanner.ReadGraph | src/routeplanner/backend/app/FileScanner.java:187-238 | after the header: a graph exactly when the node and edge parts are valid, and then the graph they describe |
| FileScanner.Read | src/routeplanner/backend/app/FileScanner.java:174-239 | returns a graph exactly when the file is well formed (two counts, then valid node and edge records); node `x` is at index `x` with its coordinates, a reset distance and its outgoing edges in input order |

## Left out

- Floating point: doubles are `real`s. No rounding, no NaN, no `-0.0`. Keys and distances
  of the earlier code use +infinity as an extended real.
- The Euclidean distance of `NextNode`:
  - `Math.sqrt` is not modelled;
  - the distance is a function parameter;
  - `Euclidean` states the two laws the tree search needs: a coordinate difference
    bounds the distance, and swapping the coordinates of both points keeps it.
- `Arrays.sort` of `prepare` is not modelled. `NextNode.Prepare` and
  `LegacyNextNode.Prepare` are given the sorted nodes, as a permutation that is sorted
  by the comparator.
- KdTree.FindNext requires a non-empty tree. Java's public `findNext` on an empty graph
  dereferences a `null` root.
- KdTree.FindNext and SearchTree state the result as a set of distinct indices, not
  their order. The stack holds them in visiting order.
- The k-d `TreeNode` objects are the `Tree` datatype: leaves carry the index, inner
  nodes the split value. Java stores a leaf's index as a `double`.
- Getters are not modelled separately (`id()`, `edges()`, `key()`, `node()`,
  `Entry.key()`, …). They return a field, which the models read directly.
- System.out output, `Logger` calls and `reader.close()` are left out. They are I/O
  with no effect on the results.
- Opening the file is left out. `FileScanner.Read` starts from the lines
  `BufferedReader.readLine` would return. An `IOException` from the reader is not
  modelled.
- `Double.parseDouble` is the parameter `toDouble`. Only its rejection of texts without
  a digit is modelled, not which real it returns.
- FileScanner.ParseUnsignedInt, FileScanner.ReadCount, FileScanner.ReadHeader,
  FileScanner.ReadNode, FileScanner.ReadEdge and FileScanner.Read treat only the ASCII
  digits as digits. Java's `Character.isDigit` and `Integer.parseUnsignedInt` accept
  every Unicode decimal digit: the id `١` (ARABIC-INDIC DIGIT ONE) reads as 1. The
  osm-id, type, elevation and speed fields are only skipped. So the model rejects files
  with non-ASCII digits that Java accepts. Only in latitude, longitude and cost does
  `Double.parseDouble` throw on such digits in Java too.
- `Character.isWhitespace` is modelled as its current definition. Whether U+180E counts
  depends on the Java version; here it does not.
- FileScanner.ScanNode and ScanEdge do not state where `pos.index` is left. No caller
  reads it before the next line is fetched.
- The `edges` array of `read` is not kept. Java fills it and never reads it.
- The relation lists of `read` are created after the node loop, as `NoEdges(count)`.
  Java adds one per node inside the loop; the result is the same list of empty lists.
- The two id checks of the node loop (range, then duplicate) are one branch. Both throw
  the same way.
- Node and edge arrays (`Edge[]`, `DijkstraEdge[]`) are sequences. No code writes into
  them after creation, so aliasing is not modelled.
- NextNode.NextNode.MinimumBoundingBox returns a copy of the bounds. Java returns the
  `_bounds` array itself, so a caller that writes into it changes the tree's box; that
  aliasing is not modelled.
- Integer overflow:
  - the Dijkstra models take a ghost bound `m` on edge costs with `|nodes| * m` below
    `Integer.MAX_VALUE`;
  - this excludes the wrap-around of distance sums, which Java does not guard against.
- IntHeap.Insert, BinaryHeap.BinaryHeap.Insert and IndexedHeap.BinaryHeap.Insert require
  room in the array. Java overruns the array otherwise.
- EntryQueue.Queue.Insert and EntryQueue.Queue.InsertWithKey require room. On a full
  queue Java reads `_entries[_size]` past the end and throws.
- IntHeap.Poll, BinaryHeap.BinaryHeap.Poll, IndexedHeap.BinaryHeap.Poll and
  EntryQueue.Queue.Poll require a non-empty heap. On an empty heap Java sets the size
  to -1 and then reads a key at slot -1 (the heaps) or `_entries[-1]` (the queue), which
  throws.
- IndexedHeap.BinaryHeap.Insert requires an id that is not contained. For a contained
  id Java adds a second entry with that id and points the back-index at the new one.
- IndexedHeap.BinaryHeap.DecreaseKeyOf and IndexedHeap.BinaryHeap.IncreaseKeyOf
  require a contained id and a key moving in the method's direction:
  - for an id not contained, Java's index is -1 and it reads `_data[-2]`, which throws;
  - a key moving the other way leaves the heap out of order in Java.
- EntryQueue.Queue.DecreaseKey and EntryQueue.Queue.IncreaseKey require a queued entry
  and a key moving in the method's direction. Java otherwise sifts from the entry's
  stale index, or leaves the queue out of order.
- IntStack.Push requires room. On a full stack Java raises the size and then writes past
  the end, which throws.
- IntStack.Pop requires a non-empty stack. On an empty stack Java returns slot 0 (the
  size, 0) and leaves the size at -1.
- IntStack.Get requires an index below the size. Java reads whatever slot `index + 1`
  is.
- IntStack.Remove and IntStack.RemoveBelowTop require non-negative counts within the
  size. Java then leaves a size that does not match the stored elements (negative, or
  past them). The three-argument form can also write into the size slot or before the
  array.
- DijkstraNodes.CreateTree requires every node to have an edge array whose target ids
  index the node array:
  - on a `null` edge array Java throws a NullPointerException;
  - on an out-of-range target id it throws an ArrayIndexOutOfBoundsException.
- GraphNode.ResetAll takes an array of non-null nodes. Java throws a
  NullPointerException at a `null` entry.
- NextNode.NextNode.constructor and LegacyNextNode.NextNode.constructor model the
  object as prepared over no locations. Java's implicit constructor leaves `_root`,
  `_data`, `_stack` (and `_bounds`) null until `prepare`. So before `prepare`,
  `findNextIterative`, `findNext` and `getResult` throw a NullPointerException, and
  `minimumBoundingBox` returns null; in the model they answer for no locations. Every
  caller prepares first.
- Dijkstra.Engine.Calculate returns an `overflow` flag. In the newer code `calculate`
  can queue a node again every time its distance improves, so the heap (one slot per
  node) can overflow. Java then throws, after the target's distance was lowered. All
  results are claimed only when the flag is false.
- The single-child branch of `increaseKey` is collapsed into the general one-child step
  (IntHeap, both BinaryHeaps, Queue): with only a left child, that child is the smaller
  one and the recursive call at a leaf just stores. Java's writes are the same.
- The earlier `Dijkstra.calculate` has a different model. As written it does not
  compile against the classes beside it. It calls API that nothing offers:
  - `new Queue()` without a size (`Queue` only has `Queue(int size)`);
  - `poll().node()` (`poll` returns the `Node` itself, and `Node` has no `node()`);
  - `setEntry`/`entry` and `setPrevious` on `Node`, which has neither an entry nor a
    predecessor field.

  Its algorithm is modelled as written with these substitutions:
  - node fields are arrays indexed by id;
  - the queue is the back-indexed `IndexedHeap` (an entry exists exactly when the id is
    contained);
  - costs are `int`s. The earlier `Edge.cost()` is a `double`, so the `int` sum at
    `src/routeplanner/backend/app/Dijkstra.java:42` does not compile as written.
- `Queue` entries are `int` handles into the queue's arrays, not objects. `DijkstraNode`
  stores such a handle, as `Option<int>`, for its entry.
- The `int` distances of the earlier `Node` are `Int32`. The `double` distances of
  `DijkstraNode` are extended reals.
- The graph loaded by the `main` applications and the web server is not part of this
  model.

## Findings

In each row the as-written member models the code as it stands. The corrected member
holds the intended property, and the rest of the model uses it. For the second row the
corrected member is the newer source tree's version of the same function.

| source | as written | input that shows it | evidently intended | confidence | as-written member | corrected member |
|---|---|---|---|---|---|---|
| src/main/routeplanner/backend/model/IntStack.java:64-66 | `capacity` returns `stack.length`, one more than the number of elements a created stack can hold | `create(2)` gives an array of length 3; `capacity` reports 3, but a push onto 2 elements writes index 3, past the end | `stack.length - 1` | not executed | IntStack.CapacityOverstated | IntStack.CreatedCapacity |
| src/routeplanner/backend/app/NextNode.java:216-248 | `getPosition` recurses on the index where Hoare partitioning stops, which need not hold the pivot, and returns the coordinate there | longitudes 3, 1, 2 with `pos` 1: it returns 3, not the median 2, and an entry after the split lies below it | the coordinate ranked `pos` in sorted order, which the newer Lomuto version returns | not executed | LegacyNextNode.MedianMissed | NextNode.PositionRanked |
