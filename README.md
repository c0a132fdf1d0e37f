# Wire-net engine of the schematic editor, in Dafny

This project models the wire engine of the llm-viz schematic editor
(`src/cpu/Wire.tsx`). A wire is a bundle of straight segments whose ends
may be bound to component terminals. The engine keeps a graph form of each
wire, with one node per distinct position and one edge per piece of segment
between neighbouring points. It uses that graph to normalise, merge, split,
drag and move wires.

The modules follow the parts of the engine:

- `geometry.dfy` (`Geometry`): points, segments and wires, and the
  attachment tests `segAttachedTo`, `segAttachedToInner` and
  `segsTouching`.
- `graph.dfy` (`WireGraphs`): the graph form, an arena of nodes whose ids
  are their positions in the list, with the invariants every built graph
  keeps.
- `builder_spec.dfy` (`BuilderSpec`): what `wireToGraph` promises. This
  covers the order in which node positions are first requested, the
  first-writer-wins rule for references, and the invariants the builder
  keeps.
- `builder.dfy` (`Builder`): `wireToGraph` itself, loop by loop.
- `serializer.dfy` (`Serializer`): `graphToWire`, which draws one segment
  per edge from the end with the lower id.
- `islands.dfy` (`Islands`): `splitIntoIslands` (connected parts by a
  stack walk) and `repackGraphIds`.
- `normalizer.dfy` (`Normalizer`): `fixWire` and `filterImm`.
- `reconciler.dfy` (`Reconciler`): `createNodePosMap`, `fixWires` and
  `applyWires`. Together they merge the wires that touch the edited one,
  bind nodes to terminals, split into islands and number the new wires.
- `mutators.dfy` (`Mutators`): `findNodesForSegment`, `dragSegment` and
  `moveWiresWithComp`.

Every interactive edit snaps positions to the integer grid, so points have
integer coordinates. The editor's epsilon tests become exact tests:

- attached means on the closed segment;
- inner-attached means strictly between the ends;
- the drag's "dot product of unit directions within epsilon of ±1" becomes
  "non-zero and cross product zero".

The loops of the source are methods with `for`/`while` loops, proved
against specification functions (`BuildNodes`, `Serialized`, `Walk`,
`Scan`, `Repacked`, `SweepFixed`, `PosMap`, `Moved`, `Shifted`, `Renamed`)
or specification predicates (`BuiltFrom`, `IslandsOf`, `Reached`,
`Reconciled`). Lemmas then prove what those specifications promise: for
instance that the edges of `BuildNodes` are exactly the neighbouring points
along each segment, and that the walks of `Scan` are the connected parts of
the graph.

Where the code and a plain reading of the editor's behaviour part ways,
the model follows the code. Dragging one segment of a straight run moves
every node reachable along parallel edges, not only the dragged segment's
ends. In the run (0,0)-(5,0)-(10,0) with a branch (5,0)-(5,5), dragging
(0,0)-(5,0) also moves (10,0), and the bend (5,5) stays
(`Mutators.DragCarriesStraightRun`).

## Model

| member | source | states |
|---|---|---|
| Geometry.AttachedInnerIff | src/cpu/Wire.tsx:369-375 | a point is inner-attached exactly when it is attached and differs from both endpoints |
| Geometry.AttachedHorizontal | src/cpu/Wire.tsx:364-367 | on a horizontal segment, attachment is "same row, x between the two ends" |
| Geometry.AttachedVertical | src/cpu/Wire.tsx:364-367 | on a vertical segment, attachment is "same column, y between the two ends" |
| Geometry.EndsAttached | src/cpu/Wire.tsx:364-367 | every segment holds both of its endpoints |
| WireGraphs.LinkKeepsInvariants | src/cpu/Wire.tsx:267-270 | pushing an edge into both endpoints' lists keeps edges in range, loop-free and symmetric (equal counts at both ends) |
| BuilderSpec.FirstsDistinct | src/cpu/Wire.tsx:231-236 | get-or-create never lists one position twice, so no two nodes share a position |
| BuilderSpec.FirstsAreOffered | src/cpu/Wire.tsx:231-236 | a position has a node exactly when it was requested |
| BuilderSpec.FirstRefFirstWins | src/cpu/Wire.tsx:234 | a node's reference is the first non-empty reference offered for its position; it has none only when no offer carried one |
| BuilderSpec.SortByKey | src/cpu/Wire.tsx:262 | the points on a segment come out in ascending projection order and as a permutation of the input |
| BuilderSpec.BuiltIsGraphOf | src/cpu/Wire.tsx:228-278 | the builder's final state gives a well-formed graph: one node per endpoint position, in first-request order, with first-wins references; every edge joins two points of one segment; a segment with nothing inside it is one edge |
| BuilderSpec.ListedIds | src/cpu/Wire.tsx:239-260 | the list the scan of segment `i` collects is exactly its entries: both ends, then every endpoint of another segment strictly inside it (start before end, in segment order), each with its projection and its node's id |
| BuilderSpec.BuildStep | src/cpu/Wire.tsx:230-271 | one pass of the loop over segment `i` (collect, sort, link) turns the nodes for segments `0..i-1` into exactly those for `0..i` |
| BuilderSpec.OffersFirstsMono | src/cpu/Wire.tsx:231-236 | looking at more segments never removes a node: the node count only grows |
| BuilderSpec.BuildEdges | src/cpu/Wire.tsx:262-271 | after any prefix of the segments, `y` is in the adjacency list of `x` exactly when `x` and `y` are different neighbouring points, in projection order, along one of those segments |
| BuilderSpec.WireEdgesAreNeighbours | src/cpu/Wire.tsx:228-278 | in the graph of a wire, `y` is a neighbour of `x` exactly when some segment has `x` and `y` as consecutive, different points in its sorted list, so a segment with points inside it is split into one edge per stretch between them |
| Builder.GetNode | src/cpu/Wire.tsx:231-236 | a known position returns its node and keeps a non-empty reference, else takes the offered one; a new position gets the next id and no edges |
| Builder.TakeIfInner | src/cpu/Wire.tsx:252-258 | an endpoint of another segment is requested and recorded with its projection exactly when it lies strictly inside the segment |
| Builder.PointsOnLine | src/cpu/Wire.tsx:239-260 | a segment's two ends are requested with their references, then every inner point of the other segments, in segment order; the list it returns is exactly those points with their projections and node ids (`Listed`) |
| Builder.LinkChain | src/cpu/Wire.tsx:264-271 | the result is exactly `Linked`: each node's adjacency list gains, in pair order, the other end of every neighbouring pair of the sorted list that names it and a different node; nothing else changes |
| Builder.AddSegment | src/cpu/Wire.tsx:230-271 | one pass of the loop turns `BuildNodes(segs, i)` into `BuildNodes(segs, i + 1)` and keeps the builder's invariants |
| Builder.WireToGraph | src/cpu/Wire.tsx:228-278 | the result satisfies `BuiltFrom`: the wire's id and exactly the nodes `BuildNodes` gives, whose edges are the neighbouring pairs of `WireEdgesAreNeighbours`, and whose shape is `GraphOf` (well formed, nodes exactly at endpoint positions with first-wins references, plain segments as edges) |
| Serializer.GraphToWire | src/cpu/Wire.tsx:297-314 | the wire is `Serialized(g)`: the graph's id and one segment per adjacency entry leading to a higher id, node by node |
| Serializer.EmitNode | src/cpu/Wire.tsx:302-307 | one node's entries add exactly the segments for its higher-id neighbours, in adjacency order |
| Serializer.SegmentsAreEdges | src/cpu/Wire.tsx:301-308 | every drawn segment is an edge from the lower-id node to the higher-id node, with both nodes' positions and references |
| Serializer.OneSegmentPerEdge | src/cpu/Wire.tsx:301-308 | in a well-formed graph each undirected edge is drawn once per copy, as (lower, higher) and never reversed |
| Islands.RepackGraphIds | src/cpu/Wire.tsx:212-226 | the result is `Repacked(g)`: node k gets id k, keeps position and reference, and every edge is rewritten through the old-id map |
| Islands.AssignIds | src/cpu/Wire.tsx:214-221 | the first pass builds the id map (a later node wins on a repeated id) and gives node k the id k |
| Islands.RenumberAll | src/cpu/Wire.tsx:222-224 | the second pass rewrites every adjacency list through the id map and changes nothing else |
| Islands.IdMap | src/cpu/Wire.tsx:215-219 | the map's keys are exactly the old ids, and each maps to a position holding that id |
| Islands.RepackedShape | src/cpu/Wire.tsx:212-226 | a repacked graph has ids equal to indices and edges in range, and keeps every position and reference |
| Islands.RepackedWellFormed | src/cpu/Wire.tsx:212-226 | repacking a list with distinct ids, closed edges, no self-edge, symmetric counts and distinct positions gives a well-formed graph |
| Islands.Explore | src/cpu/Wire.tsx:186-200 | the stack walk from an unseen node takes exactly a connected part with no edge leaving it, starting at that node, disjoint from what was seen; the island, in visiting order, and the new seen set are those of `Walk`, which pops the last node and pushes its neighbours in adjacency order |
| Islands.ScanTake | src/cpu/Wire.tsx:182-203 | an unseen node appends the island its walk collects, and the seen set becomes the walk's |
| Islands.ScanNode | src/cpu/Wire.tsx:182-203 | one turn of the outer loop keeps the found islands valid and equal to `Scan` of one more node |
| Islands.FindIslands | src/cpu/Wire.tsx:179-203 | the islands are connected, pairwise disjoint, closed, each starting at its smallest id, ordered by first node, and together cover every node; they are exactly `Scan`, the walks in the order and node order the stack loop produces |
| Islands.IslandRepack | src/cpu/Wire.tsx:209 | an island's edges stay inside it; repacked it keeps the graph invariants, and is well formed when the graph was |
| Islands.SplitIntoIslands | src/cpu/Wire.tsx:177-210 | the islands are exactly those of `Scan`; exactly one island returns the graph itself; otherwise every island is repacked in order; all parts keep the graph's id and invariants |
| Normalizer.LongerThanEpsilonIff | src/cpu/Wire.tsx:353-356 | on the integer grid, "squared length above EPSILON" holds exactly when the two ends differ |
| Normalizer.FilterImm | src/cpu/Wire.tsx:359-362 | the result keeps exactly the elements that pass and is no longer than the input |
| Normalizer.FilterImmAllPass | src/cpu/Wire.tsx:361 | when every element passes, the array itself comes back |
| Normalizer.FilterImmAppend | src/cpu/Wire.tsx:359-362 | filtering keeps the order: filtering a concatenation is concatenating the filtered parts |
| Normalizer.SweepSegments | src/cpu/Wire.tsx:320-346 | the two nested loops compute `SweepFixed`: contained segments marked for removal, overlapping starts trimmed to seg0's ends |
| Normalizer.SweepFixedNonEmpty | src/cpu/Wire.tsx:324-348 | with the correction, a non-empty wire keeps at least one segment through the sweep |
| Normalizer.SweepFixedKeepsFarEnds | src/cpu/Wire.tsx:324-346 | the sweep only moves segment starts: every far end and every terminal reference is kept |
| Normalizer.KeepUnremoved | src/cpu/Wire.tsx:348 | the kept segments are the swept ones whose index is not marked, in order |
| Normalizer.FixWire | src/cpu/Wire.tsx:318-357 | the result is exactly: the swept segments (with the correction below) that are not marked, built into their graph (`BuiltFrom`), drawn back and filtered by length; no segment of it has zero length |
| Normalizer.AsWrittenDropsBothCopies | src/cpu/Wire.tsx:324-348 | as written, a wire of two copies of one segment marks both for removal and keeps nothing |
| Normalizer.FixedKeepsOneCopy | src/cpu/Wire.tsx:324-348 | with the correction, the second copy is removed and the first kept |
| Normalizer.AsWrittenTrimsByRemoved | src/cpu/Wire.tsx:324-346 | as written, with `a` from (x,y) to (x+2,y) and `b` from (x+1,y) to (x,y), `b` is marked but still moves the start of `a` to (x+1,y); what is kept loses the stretch from (x,y) to (x+1,y) |
| Normalizer.FixedKeepsContainer | src/cpu/Wire.tsx:324-348 | with the correction, in the same wire `b` is removed and `a` is kept whole |
| Reconciler.CreateNodePosMap | src/cpu/Wire.tsx:83-99 | the map is `PosMap` of all terminals, component by component, at component position plus terminal offset |
| Reconciler.AddTerminals | src/cpu/Wire.tsx:86-95 | one component's terminals are set in turn, a component with no terminal list adding none |
| Reconciler.PosMapKeys | src/cpu/Wire.tsx:83-99 | a position is a key exactly when some terminal sits there |
| Reconciler.PosMapLastWins | src/cpu/Wire.tsx:94 | a position maps to the reference of the last terminal placed there |
| Reconciler.TouchesEdit | src/cpu/Wire.tsx:118-131 | the search reports a merge exactly when some segment of the wire touches some segment of the edited wire |
| Reconciler.WiresToMerge | src/cpu/Wire.tsx:109-132 | the merge set is exactly the other wires touching the edited one |
| Reconciler.GatherSegments | src/cpu/Wire.tsx:140-145 | the merged wire's segments are the edited wire's followed by those of each merged wire, in index order |
| Reconciler.WithoutAt | src/cpu/Wire.tsx:147-150 | after filtering out the merged wires, a kept wire moves down by the number of merged wires before it |
| Reconciler.MergeTouching | src/cpu/Wire.tsx:106-153 | the merge set is exactly the touching wires; with none the list is unchanged; otherwise the merged wires are dropped and the edited wire's shifted slot holds exactly `fixWire` of the edited wire's segments followed by the merged ones |
| Reconciler.BindTerminals | src/cpu/Wire.tsx:157-164 | every node at a terminal position takes that terminal's reference; all others are unchanged |
| Reconciler.BoundKeepsWellFormed | src/cpu/Wire.tsx:157-164 | binding references keeps a well-formed graph well formed |
| Reconciler.PartsToWires | src/cpu/Wire.tsx:169 | each island graph is drawn as a wire, in order |
| Reconciler.NoIslandsIffEmpty | src/cpu/Wire.tsx:166-171 | a wire has no island exactly when it has no segment |
| Reconciler.IslandsOfWire | src/cpu/Wire.tsx:155-166 | the wire's exact graph (`BuiltFrom`), bound to the terminals, is split into exactly the islands of the stack walk (`Scan`); there are none exactly when the wire is empty; all keep the wire's id |
| Reconciler.SplitEdited | src/cpu/Wire.tsx:155-172 | the split is that of `IslandsOfWire`; the first island's wire replaces the slot and the rest become new wires, in island order, with the same id; with no island the slot is removed |
| Reconciler.FixWires | src/cpu/Wire.tsx:105-175 | the result is fixed by `Reconciled`: the exact merge of `MergeTouching`, the exact graph and islands of `IslandsOfWire`, and the splice of `SplitEdited`; the list shrinks by the merged wires and by one more only when the merge is empty of segments |
| Reconciler.DecimalValue | src/cpu/Wire.tsx:72 | the decimal text of a counter reads back as that counter |
| Reconciler.RenamedIds | src/cpu/Wire.tsx:71-73 | the k-th new wire keeps its segments and gets id `next + k`, so new ids are pairwise distinct |
| Reconciler.NumberWires | src/cpu/Wire.tsx:70-73 | the numbering loop gives consecutive ids from the counter and advances it by the number of new wires |
| Reconciler.ApplyWires | src/cpu/Wire.tsx:67-81 | the edited and new wires are exactly those of `FixWires` (`Reconciled`); the layout's wires are the edited wires then the new wires numbered from the counter; components are kept; the counter moves past the new ids |
| Mutators.FindNodesForSegment | src/cpu/Wire.tsx:280-295 | the first node at the start with a neighbour at the end, in node-then-edge order, gives both ids; no result exactly when no such pair exists |
| Mutators.PushParallel | src/cpu/Wire.tsx:49-56 | the stack grows by exactly the neighbours in a parallel or anti-parallel direction, in adjacency order |
| Mutators.FloodParallel | src/cpu/Wire.tsx:37-57 | the set is exactly what is reachable from the two nodes along parallel edges: the least set holding both and closed under such steps |
| Mutators.MoveNodes | src/cpu/Wire.tsx:59-62 | the nodes of the set move by the delta and all others stay |
| Mutators.DragSegment | src/cpu/Wire.tsx:23-65 | the graph is exactly the wire's (`BuiltFrom`); the error exactly when the segment is no edge of it; otherwise the first matching edge's ends, their exact parallel reach (`Reached`) moved by the delta, and the graph drawn again |
| Mutators.DragMovesReachedEnds | src/cpu/Wire.tsx:59-64 | after a drag the wire has the same segments in order with the same references; an end moves by the delta exactly when its node was reached |
| Mutators.DragCarriesStraightRun | src/cpu/Wire.tsx:37-57 | dragging (0,0)-(5,0) in the run to (10,0) with a bend to (5,5) reaches exactly {(0,0), (5,0), (10,0)} |
| Mutators.MovedSegments | src/cpu/Wire.tsx:16 | drawing two graphs that differ only in positions gives the same segments, in order, with the new positions |
| Mutators.ShiftNodes | src/cpu/Wire.tsx:11-15 | exactly the nodes bound to a terminal of the component move by the delta |
| Mutators.ShiftMovesBoundEnds | src/cpu/Wire.tsx:10-17 | the rebuilt wire has the segments of the wire's graph, in order, with ends bound to the component moved and all other ends in place |
| Mutators.MoveWire | src/cpu/Wire.tsx:10-17 | the wire keeps its id and becomes its exact graph (`BuiltFrom`) drawn again, segment by segment, with every end bound to the component moved by the delta |
| Mutators.MoveWiresWithComp | src/cpu/Wire.tsx:5-21 | every wire of the layout, in order, is exactly what `MoveWire` gives for it: rebuilt through its exact graph with the ends bound to the component moved by the delta |

## Left out

- FixWire: follows the corrected sweep (`SweepFixed`), in which a segment already marked for removal neither removes nor trims others; the code as written is `SweepAsWritten` (see Findings). FixWires and ApplyWires, which call it, use the corrected sweep too.
- Floating-point positions and the epsilon tolerances are not modelled. Points are integers, `snapToGrid` is the identity, and the `toFixed(5)` position key of `getNode` is the exact point.
- `segmentNearestT`: the parameter t along a segment is replaced by the integer projection `Proj`, which orders the points of a segment the same way.
- Object identity (`seg0 === seg1`, `nodeA.node !== nodeB.node`) is modelled by index and node id. Two equal segments at different indices are different, as two distinct objects are in the source.
- In-place updates of graph nodes and of wire arrays are modelled on values. This model does not capture that `fixWires` writes into the caller's `wires` array (`wires[editIdx] = newWire`, `splice`), or that `applyWires` sets `id` on the new wire objects.
- Iterating a JavaScript `Set` follows insertion order. The indices to merge are inserted in increasing order, so the model visits them in increasing order.
- `dragSegment` keeps two sets, `seenIds` by node id and `nodesToMove` by index. Ids are indices in a built graph, so the model keeps one set.
- The error thrown by `findNodesForSegment` is `None`. Its message text is not modelled.
- NumberWires: ids are always plain decimal digits; JavaScript's exponent notation for counters of 10^21 and above is not modelled.
- MoveWiresWithComp: requires `compIdx` to name a component. With an index out of range the source throws once it meets a node bound to any component terminal, and otherwise returns the rebuilt wires. That path is not modelled.
- DragSegment: requires `segId` to name a segment. With any other index the source fails reading the segment's ends.
- FixWires: requires `editIdx` to name a wire. With any other index the source fails reading the edited wire.
- GraphToWire: requires every adjacency entry to name a node. With any other entry the source fails reading its id. Every graph the engine builds satisfies this.
- RepackGraphIds: requires every adjacency entry to be an id of the list. With any other entry the source writes `undefined` into the adjacency list.
- SplitIntoIslands: requires the graph's ids to be its indices, its edges in range and its edges listed at both ends. `Builder.WireToGraph` proves this for every built graph, and binding terminals keeps it. Other graphs are not modelled.
- `ICpuLayoutBase`, `IWire` and the other model types come from `src/cpu/CpuModel.ts`, which is not part of this model. Only the fields the engine reads are modelled.
- `assignImm` and `getOrAddToMap` from `src/utils/data` and the vector helpers from `src/utils/vector` are not part of this model. Their effect is written out directly.

## Findings

| source | as written | input that shows it | evidently intended | confidence | as-written member | corrected member |
|---|---|---|---|---|---|---|
| src/cpu/Wire.tsx:324-348 | a segment already marked for removal still takes its turn as `seg0` and removes the others it contains | a wire of two copies of one segment S: each copy marks the other, and the wire loses S entirely | a removed segment no longer removes others, so one copy of S stays | high; not executed | Normalizer.AsWrittenDropsBothCopies | Normalizer.FixedKeepsOneCopy |
| src/cpu/Wire.tsx:324-346 | a segment already marked for removal still takes its turn as `seg0` and moves the starts of the others it overlaps | `a` from (0,0) to (2,0) and `b` from (1,0) to (0,0): `a` marks `b`, then `b` moves the start of `a` to (1,0), and the stretch from (0,0) to (1,0) is lost | a removed segment trims nothing, so `a` stays whole | high; not executed | Normalizer.AsWrittenTrimsByRemoved | Normalizer.FixedKeepsContainer |
