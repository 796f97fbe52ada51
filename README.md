# rustroke core, modelled in Dafny

rustroke is a line-drawing and fill editor. The user draws lines and frames, and the editor keeps three stacks: the lines, the polygon fills, and an undo history of commands. After every change it rebuilds two derived structures from the lines:

- **The closed-component tracker** (`GraphStore`, `src/graph.rs`). Line endpoints are snapped to grid keys and become nodes. Each line becomes an edge that raises its endpoints' degrees and joins their components in a union-find. At every representative, the union-find counts the odd-degree nodes of its component, so a component is closed when that count is zero.
- **The cut-segment fill graph** (`src/lib.rs`, `build_fill_graph`). Nodes are line endpoints and interior crossings, deduplicated by a quantized key. Each line is cut at its nodes, in parameter order, into segments. Each segment gets two half-edges, and each node gets a list of outgoing half-edges and a list of incident segments. Leaf stripping then marks which nodes may take part in a fill.

Around these structures the model also covers:

- the overhang trimming (`cleanup_overhangs`, a 2-core peel of the segment graph that rebuilds the line list from the kept segments);
- the connected-lines search (`find_connected_lines`);
- colour parsing (`parse_hex_color`);
- the debug integrity checks of `src/debug_checks.rs`, which appear here as predicates that the store and the build are proved to establish.

## Module layout

| file | module | what it holds |
|---|---|---|
| `option.dfy` | `Maybe` | `Option` |
| `shapes.dfy` | `Shapes` | lines, points, segments, half-edges, the fill graph, polygons |
| `color.dfy` | `HexColor` | `parse_hex_color` and a hex renderer used as its inverse |
| `union_find.dfy` | `UnionFind` | the `DSU` class over `seq` fields, with ghost representatives and depths, and the class-sum algebra behind sizes and odd counts |
| `graph_store.dfy` | `GraphModel`, `Graph` | the store's value-level invariants and transition lemmas, and the `GraphStore` class |
| `debug_checks.dfy` | `DebugChecks` | the integrity checks as predicates |
| `registry.dfy` | `Registry` | `IntersectionRegistry` |
| `fill_spec.dfy` | `FillSpec` | the value-level steps of the build: sort, compaction, chaining, incidence and outgoing lists, flag counts |
| `fill_build.dfy` | `FillBuild` | the build loops as methods proved against `FillSpec`, and leaf stripping |
| `peel.dfy` | `Peel` | the 2-core peel of `cleanup_overhangs` |
| `connect.dfy` | `Connect` | `find_connected_lines` |
| `editor.dfy` | `Editing` | the `Editor` class, its history rules as functions on a `Doc` value, and the undo round trips |

## Mapping the source into the model

**Floats and oracles.**
- Coordinates and break parameters are exact `real`s. They are carried and compared but never rounded.
- Three float computations are functions handed to the editor when it is created: the snap key (`SnapKey::from_point`), the quantized key (`IntersectionRegistry::quantize`) and the line-crossing test (`line_intersection_params`). The endpoint test of `find_connected_lines` is likewise a parameter `connects`.
- Ids are unbounded naturals.
- Colours are `u32`, a newtype over the integers below 2^32. The shift `colour << 8` is a multiplication by 0x100 that wraps at 2^32. The `| 0xFF` that follows is an addition, because the shift leaves the low byte zero (`HexColor.ShiftedBytes`).

**State.**
- Growing `Vec`s are `seq` fields that the methods reassign.
- In the store, `clear` assigns a new `DSU`. The model resets the existing union-find object in place instead (`Dsu.Reset`), which gives the same resulting state.
- The store's invariant includes `GraphModel.ClassesExact`: two nodes share a union-find class exactly when the edge list connects them (`GraphModel.Connected`). Each `add_segment` merges exactly the classes of its two endpoints (`GraphModel.MergedExactly`), and this is what keeps the invariant.

**Derived state.**
- The editor's invariant `Valid()` states the derived state. With no lines, the fill graph is empty. Otherwise the store holds one edge per line, and the fill graph, degrees and flags are what `build_fill_graph` makes of the lines (`FillBuild.GraphOf`).
- When the line list is empty, `build_fill_graph` returns right after emptying the fill graph (`src/lib.rs:786-788`). It does so before `graph_store.clear()` and before the degree and flag lists are reset, so those keep the contents of the previous build. The model follows this: `Editor.BuildFillGraph` states that the store and the lists are unchanged in that case.
- A consequence concerns `undo` after the line list becomes empty (undoing the only line, for example). The fill graph goes back to the empty one, but `graph_store` still holds the edges of the last non-empty build. So once undo empties the line list, `graph_store` is not the store of the empty document, which has no edges. The model follows the code.

**Leaf stripping and the peel, stated without the loops.**
- Leaf stripping (`src/lib.rs:1006-1054`) is specified by `FillBuild.StripOutcome`. Each node's effective degree is its degree less the half-edges that reach it from disallowed nodes. A node is allowed exactly when that is at least two. Every *sturdy* set of nodes stays allowed: a set each of whose members keeps at least two after the half-edges from outside the set are taken off. The allowed nodes are therefore the largest sturdy set, and the outcome is unique (`FillBuild.StripUnique`).
- The 2-core peel of `cleanup_overhangs` (`src/lib.rs:2045-2096`) is specified by `Peel.Peeled`. No node keeps exactly one surviving segment, and every other deletion vector with that property deletes at least as much. The survivors are therefore the largest leaf-free segment set, and the outcome is unique (`Peel.PeeledUnique`).

**Node order.** `FillBuild.Registration` replays `get_or_insert` on a list of points: a point whose quantized key some node already has leaves the list alone, any other point is appended. The build registers `FillBuild.RegisteredPoints`: the start and end of every line, line by line, then the crossing points in the order the pair loops accept them. `FillBuild.GraphOf` states that the graph's node list is exactly the registration of that sequence. So every node sits at the coordinates of the first registered point with its key, and the kept lines of `cleanup_overhangs` run between such points (`Editing.TrimmedPoints`).

**Crossings.** Each line's breaks after the crossing pass are stated against `FillBuild.LineHits`. This function lists, in the order that the pair loops visit them, the crossings the crossing test `cross` finds strictly inside both lines of a pair. Each entry is at its parameter on the line and comes from the crossing point.

## Model

| member | source | states |
|---|---|---|
| UnionFind.Dsu.constructor | src/graph.rs:55-61 | an empty union-find that satisfies its invariant |
| UnionFind.Dsu.Reset | src/graph.rs:147 | the union-find is empty again and satisfies its invariant (what `dsu = DSU::new()` leaves) |
| UnionFind.Dsu.MakeSet | src/graph.rs:63-69 | the new id is the old length; it is its own parent and representative, with size 1 and odd count 0; nothing else changes; the invariant is kept |
| UnionFind.Dsu.Find | src/graph.rs:71-85 | an out-of-range x is returned unchanged with nothing modified; an in-range x yields its representative, which is in range and its own parent; path compression changes no representative, size or odd count, and only repoints nodes at that representative |
| UnionFind.Dsu.GetOddCount | src/graph.rs:106-109 | the result is the odd count stored at x's representative; nothing else changes |
| UnionFind.Dsu.IncrementOddCount | src/graph.rs:111-114 | exactly one more at x's representative; all other counts unchanged |
| UnionFind.Dsu.DecrementOddCount | src/graph.rs:116-121 | one less at x's representative, but never below zero; all other counts unchanged |
| UnionFind.Dsu.Union | src/graph.rs:87-103 | afterwards x and y share a representative; with one representative already shared, nothing changes; otherwise the root of strictly smaller size (y's on a tie) is linked below the other, whose size and odd count become the sums of both, and exactly those two classes merge |
| UnionFind.Dsu.Link | src/graph.rs:94-102 | one parent pointer changes; the class of `small` is relabelled to `large`; sizes and odd counts are added at `large`; the invariant is kept |
| UnionFind.CompressForest | src/graph.rs:79-83 | repointing a node straight at its representative keeps the forest shape and every representative |
| UnionFind.LinkForest | src/graph.rs:100 | hanging one root below another keeps the forest shape and merges exactly those two classes |
| UnionFind.UpdateTracks | src/graph.rs:174-186 | changing one node's parity weight moves its class total by the difference, and the old total is at least the node's old weight, so a decrement never has to clamp |
| UnionFind.RelabelTracks | src/graph.rs:101-102 | merging two classes keeps the tracked totals exact when the totals are added |
| UnionFind.ClassSumCount | src/graph.rs:293-300 | with 0/1 weights, a class sum is the number of class members of weight 1 (the count that `check_component_parity` builds) |
| UnionFind.SizesGiveIntegrity | src/graph.rs:256-283 | the size invariant gives the DSU check: every node's root is in range, is its own parent and has a positive size |
| GraphModel.NewNodeInv | src/graph.rs:157-166 | a new degree-0 node in a new singleton class keeps the key map, the odd counts and the edge invariant |
| GraphModel.BumpInv | src/graph.rs:174-186 | one more degree at v changes the odd count of v's class by the parity change, and keeps every count exact |
| GraphModel.AddEdgeInv | src/graph.rs:188-201 | after both endpoint degrees rise and their classes are joined, appending the edge keeps degree equal to incidence count and every edge inside one class |
| GraphModel.ClosedIdsSpec | src/graph.rs:217-225 | the closed-edge list holds exactly the ids below n whose first endpoint's component has no odd-degree node, in strictly ascending order |
| Graph.GraphStore.constructor | src/graph.rs:134-141 | an empty store with a new union-find that satisfies the store invariant |
| Graph.GraphStore.Clear | src/graph.rs:143-148 | no nodes, no keys, no edges and an empty union-find; the invariant holds |
| Graph.GraphStore.GetOrCreateNode | src/graph.rs:150-167 | a known key returns its id and changes nothing; a new key returns the old node count and appends a degree-0 node at the given coordinates, a map entry and exactly one union-find singleton (`WithNode`, `WithKey`), so the node count and the union-find length stay equal |
| Graph.GraphStore.BumpDegree | src/graph.rs:173-186 | node v's degree rises by one and nothing else in the node list changes; the odd counts stay exact |
| Graph.GraphStore.Join | src/graph.rs:188-190 | the classes of a and b are merged and no other class changes (`MergedExactly`: two nodes share a class afterwards exactly when they did before or both were with a or b); the odd counts stay exact |
| Graph.GraphStore.AddSegment | src/graph.rs:169-204 | the node list is the old one after `get_or_create_node` of each endpoint (`WithNode`), with each endpoint's degree raised once; the key map follows `WithKey`; the appended edge joins the two nodes and carries the coordinates and line index; the returned id is the old edge count; the classes of the two endpoints are merged, new nodes counting as classes of their own, and no other class changes (`MergedExactly`); the store invariant (degree = incident edge ends, odd counts exact, classes = connected components of the edges) is kept |
| Graph.GraphStore.Attach | src/graph.rs:173-204 | each endpoint gains one degree (a node at both ends gains two), the edge is appended with the next id, and exactly the classes of the two endpoints are merged (`MergedExactly`) |
| Graph.GraphStore.IsEdgeClosed | src/graph.rs:207-214 | false for an out-of-range id; otherwise true exactly when no node of the first endpoint's component has odd degree, a component being the nodes `Connected` to it by the edges |
| GraphModel.ConnectedRefl | src/graph.rs:157-166 | every node is connected to itself, so a new node forms its own component |
| GraphModel.ConnectedEdge | src/graph.rs:188-190 | the two ends of every edge are connected |
| GraphModel.ConnectedLeast | src/graph.rs:188-190 | connection is the finest grouping keeping every edge inside a group: any labelling equal on both ends of every edge is equal on connected nodes |
| GraphModel.ConnectedFresh | src/graph.rs:157-166 | a node no edge touches is connected to itself only |
| GraphModel.UnchangedMerges | src/graph.rs:85-90 | a union whose ends already share a root changes no class |
| GraphModel.RelabelMerges | src/graph.rs:92-100 | pointing one of the two roots at the other merges exactly the two classes |
| GraphModel.GrownMerges | src/graph.rs:169-190 | nodes created just before the union count as classes of their own in the exact-merge statement |
| GraphModel.ClassOfExact | src/graph.rs:150-190 | with classes equal to components, two nodes (new ones included) share a class id exactly when they are connected |
| GraphModel.ExactGrow | src/graph.rs:157-166 | a new singleton keeps the classes equal to the connected components |
| GraphModel.ExactStep | src/graph.rs:188-201 | merging exactly the classes of an edge's ends, then appending the edge, keeps the classes equal to the connected components |
| GraphModel.EvenConnected | src/graph.rs:207-214 | with classes equal to components, an even component is one all of whose connected nodes have even degree |
| Graph.GraphStore.ClosedEdges | src/graph.rs:217-225 | exactly the closed edge ids, ascending (through `ClosedIdsSpec`) |
| Graph.GraphStore.ValidPassesChecks | src/graph.rs:256-331 | the store invariant makes `check_dsu_integrity` and `check_component_parity` pass: at every root, the tracked odd count is the size of the set of odd-degree nodes of its component |
| Graph.GraphStore.CheckDsuIntegrity | src/graph.rs:256-283 | `check_dsu_integrity`: every node's root is in range and is its own parent, and every root has a positive size (established by `ValidPassesChecks`) |
| Graph.GraphStore.CheckComponentParity | src/graph.rs:287-331 | `check_component_parity`: at every root, the tracked odd count is the number of odd-degree nodes of its component (established by `ValidPassesChecks`) |
| DebugChecks.GraphIntegrity | src/debug_checks.rs:9-46 | `check_graph_integrity` without the finiteness check: edge endpoints in range, plus the two store checks (established by `StoreIntegrity`) |
| DebugChecks.FillGraphIntegrity | src/debug_checks.rs:50-126 | `check_fill_graph_integrity` without the finiteness check: segments join distinct existing nodes, half-edges name existing nodes and segments, outgoing lists name existing half-edges (established by `EmptyGraphIntegrity` and by `FillBuild.BuildGraph` through `GraphOf`) |
| DebugChecks.StoreIntegrity | src/debug_checks.rs:9-46 | a store that keeps its invariant passes `check_graph_integrity`: edge endpoints in range, DSU roots sound, odd counts exact |
| DebugChecks.EmptyGraphIntegrity | src/debug_checks.rs:64-124 | the empty fill graph of an editor with no lines passes `check_fill_graph_integrity` |
| HexColor.ParseHexColor | src/lib.rs:123-129 | the alpha byte of the result is always 0xFF |
| HexColor.Pack | src/lib.rs:128 | `(colour << 8) \| 0xFF` on u32: the low (alpha) byte is 0xFF, and the upper three bytes hold the low 24 bits of the colour (the top byte is shifted out) |
| HexColor.ShiftedBytes | src/lib.rs:128 | a u32 shift by 8 keeps the low 24 bits of the value, moved up by one byte, and zeroes the low byte |
| HexColor.ColorBytes | src/lib.rs:124-128 | a string that parses (after an optional '#') is packed from its parsed value, so by `Pack` its low 24 bits are the colour bytes and alpha is 0xFF; any other string gives 0x747474FF |
| HexColor.NonAsciiFallsBack | src/lib.rs:124 | a byte string holding a byte of 0x80 or more (every non-UTF-8 string does) gives 0x747474FF, the same as the UTF-8 fallback |
| HexColor.RenderRoundTrip | src/lib.rs:123-129 | "#RRGGBB" rendered from a 24-bit colour parses back to that colour with alpha 0xFF |
| Registry.Lookup | src/lib.rs:183-189 | None exactly when no entry has the key; otherwise the id of the first entry with it |
| Registry.DenseLookup | src/lib.rs:181-194 | in a registry that alone fills the node list, a stored key finds its own node |
| Registry.IntersectionRegistry.constructor | src/lib.rs:171-173 | no entries |
| Registry.IntersectionRegistry.Find | src/lib.rs:183-189 | the scan returns the id of the first entry with the key, or None |
| Registry.IntersectionRegistry.GetOrInsert | src/lib.rs:181-194 | a present key returns its stored id and changes nothing; a new key returns the old node count and appends exactly one node and one entry; stored ids stay below the node count; no key is stored twice |
| FillBuild.Register | src/lib.rs:806-807 | the node list becomes `Insert` of the point: unchanged when a node already has the point's quantized key, the point appended otherwise; the node returned has the point's key; the registry still indexes the list |
| FillBuild.RegisteredDistinct | src/lib.rs:181-194 | no two nodes of the registered list share a quantized key |
| FillBuild.RegistrationAppend | src/lib.rs:181-194 | registering one list of points and then another is registering the two lists joined |
| FillBuild.RegistrationCovers | src/lib.rs:181-194 | after registering a list of points, each of them has a node with its quantized key |
| FillBuild.RegistrationGrows | src/lib.rs:181-194 | registering keeps the nodes already there, and every node it adds is a registered point that no earlier node or point shares a key with |
| FillBuild.RegistrationDistinct | src/lib.rs:181-194 | registering keeps the nodes' quantized keys pairwise distinct |
| FillBuild.EndPointsSpec | src/lib.rs:800-810 | the endpoint sequence holds two points per line, the start at 2i and the end at 2i+1 |
| FillBuild.EndPointsIn | src/lib.rs:800-810 | a point is in the endpoint sequence exactly when it is the start or the end of some line |
| FillBuild.EndpointsNext | src/lib.rs:801-808 | one more line registers its start and then its end |
| FillBuild.RegisterLine | src/lib.rs:801-809 | the start and then the end of one line are registered; the returned nodes have their keys |
| FillBuild.EndpointsStep | src/lib.rs:801-809 | one round of the endpoint loop gives the next line its start and end breaks and keeps the node list the registration of the endpoints so far |
| FillBuild.Endpoints | src/lib.rs:800-810 | both ends of every line are nodes, registered at parameters 0 and 1 of that line; the node list is exactly the registration of the endpoints, start then end, line by line |
| FillBuild.AddCrossing | src/lib.rs:822-825 | the node list becomes `Insert` of the crossing point; the node returned has the point's key; a break at it is appended to each of the two lines, at interior parameters |
| FillBuild.RowPointsSpec | src/lib.rs:815-825 | a point is among those row i registers up to j exactly when it is the accepted crossing of i with some line below j |
| FillBuild.PointsBeforeSpec | src/lib.rs:814-825 | a point is among those the rows below i register exactly when it is the accepted crossing of a pair whose first line is below i |
| FillBuild.CrossPointsSpec | src/lib.rs:813-841 | the crossing points registered are exactly the points of the crossings `cross` finds strictly inside both lines of a pair i < j |
| FillBuild.RegisteredPointsIn | src/lib.rs:800-841 | a point is registered by the build exactly when it is a line's start or end or an accepted crossing point |
| FillBuild.NodesAccepted | src/lib.rs:822-823 | an accepted crossing registers its point next, in loop order |
| FillBuild.NodesRejected | src/lib.rs:818-822 | a pair with no accepted crossing registers nothing |
| FillBuild.NodesRowStart | src/lib.rs:814-815 | a row starts with the points of the rows before it registered |
| FillBuild.NodesRowEnd | src/lib.rs:814-840 | a finished row has registered the points of the rows up to it |
| FillBuild.PairDone | src/lib.rs:815-839 | the facts after one pair are the state the next pair starts from |
| FillBuild.BuiltNodes | src/lib.rs:800-841 | the endpoint pass followed by the crossing pass registers the endpoints and then the crossing points as one sequence |
| FillBuild.AcceptedLine | src/lib.rs:822-825 | an accepted crossing of lines i and j appends to line k exactly the break due to it from that pair: at its parameter on line i or j, none on any other line |
| FillBuild.AcceptedDue | src/lib.rs:818-825 | after an accepted crossing of lines i and j, every line holds exactly the breaks due from the pairs up to and including (i, j) |
| FillBuild.RejectedDue | src/lib.rs:818-822 | a pair with no crossing, or one on or outside an end of either line, is due no break |
| FillBuild.CrossingPair | src/lib.rs:815-839 | one pair of lines: the registry still indexes the grown node list, breaks only grow by interior breaks naming nodes, every line holds exactly the breaks due up to this pair, and the node list is the registration of the crossing points up to this pair |
| FillBuild.RowStart | src/lib.rs:814-815 | a row of pairs starts with exactly the breaks due from the rows before it |
| FillBuild.RowEnd | src/lib.rs:814-840 | a finished row leaves every line with exactly the breaks due from the rows up to it |
| FillBuild.CrossingRow | src/lib.rs:815-840 | the inner loop over j > i keeps the pass state and adds exactly the breaks and the crossing points due from row i |
| FillBuild.Crossings | src/lib.rs:813-841 | the break lists only grow, only by interior breaks, and every break names a node; each line's new breaks are exactly `LineHits`: one per crossing strictly inside both lines, in loop order, at the parameter on that line and at a node with the crossing point's key; the node list is the old one with the crossing points registered in loop order |
| FillBuild.CrossedStep | src/lib.rs:823-824 | appending the breaks due next keeps a line matched to its due breaks, also over a grown node list |
| FillBuild.GrownCuts | src/lib.rs:804-841 | after the crossings, each line's breaks are its two endpoint nodes at 0 and 1, then exactly the line's due crossing breaks, all interior |
| FillSpec.SortByT | src/lib.rs:849-853 | the sorted breaks are ordered by parameter and are a permutation of the input |
| FillSpec.InsertSorted | src/lib.rs:849-853 | inserting into an ordered list keeps it ordered |
| FillSpec.DedupSpec | src/lib.rs:855-861 | no two consecutive kept breaks share a node; every kept break comes from the input; every input node is kept; the first break and the last node are kept |
| FillBuild.Compact | src/lib.rs:855-861 | the compaction loop computes `Dedup` and leaves no adjacent duplicate |
| FillSpec.ChainOfCompact | src/lib.rs:863-873 | on a compacted list, the segments are exactly the consecutive pairs, one fewer than the breaks |
| FillSpec.ChainBelow | src/lib.rs:867-873 | every emitted segment joins nodes of the chain, and none is degenerate |
| FillBuild.Emit | src/lib.rs:867-873 | the emission loop computes `Chain` |
| FillSpec.LineSegsValid | src/lib.rs:844-873 | every segment of a line joins two distinct existing nodes |
| FillBuild.LineSegments | src/lib.rs:844-873 | one line's segments: nothing for fewer than two breaks or compacted nodes, otherwise sort, compact and emit |
| FillBuild.BuildSegments | src/lib.rs:843-874 | the segments of all lines, line by line; each joins two distinct existing nodes |
| FillSpec.HalfEdgePairs | src/lib.rs:894-907 | half-edge i lies on segment i/2 and is tagged with it; its partner (last bit flipped) runs the other way |
| FillBuild.BuildHalfEdges | src/lib.rs:894-907 | half-edges 2k and 2k+1 are segment k from a to b and from b to a, both tagged k |
| FillBuild.IncidentNext | src/lib.rs:914-920 | listing one more segment appends its index at each of its ends and nowhere else |
| FillSpec.IncidentSpec | src/lib.rs:914-921 | a node's incidence list holds exactly the segments touching it, ascending and in range |
| FillBuild.BuildNodeSectors | src/lib.rs:909-921 | each node's incidence list, for every node |
| FillSpec.OutOfSpec | src/lib.rs:929-931 | a node's outgoing list holds exactly the half-edges leaving it, each once, ascending and in range |
| FillBuild.BuildOutgoing | src/lib.rs:923-931 | each node's outgoing list, for every node |
| FillBuild.HalfEdgesBelow | src/debug_checks.rs:89-111 | on valid segments, every half-edge's from and to are nodes and its segment exists |
| FillBuild.OutgoingBelow | src/debug_checks.rs:113-124 | every outgoing list holds half-edge indices only |
| FillBuild.InitStrip | src/lib.rs:1007-1028 | degree and effective degree are incidence-list lengths; every node is allowed; exactly the nodes with degree at most one are queued |
| FillBuild.InflowMono | src/lib.rs:1040-1053 | leaving fewer nodes out never raises the number of half-edges arriving from outside |
| FillBuild.InflowClear | src/lib.rs:1040-1053 | disallowing one more node u adds exactly the half-edges that u's outgoing list sends to v |
| FillBuild.InflowNone | src/lib.rs:1014-1020 | with every node allowed, no half-edge arrives from outside |
| FillBuild.StripSturdy | src/lib.rs:1030-1054 | the allowed nodes of a strip outcome form a sturdy set |
| FillBuild.StripUnique | src/lib.rs:1006-1054 | two strip outcomes on the same graph have the same flags and effective degrees |
| FillBuild.QueuedNotSturdy | src/lib.rs:1030-1038 | a node whose effective degree is at most one is in no sturdy set within the allowed nodes, so disallowing it never loses a sturdy node |
| FillBuild.Relax | src/lib.rs:1040-1053 | each node's effective degree falls by exactly the number of the listed half-edges that arrive at it, stopping at zero; a node falling to one or less is queued; the strip invariant is kept |
| FillBuild.Disallow | src/lib.rs:1030-1053 | disallowing a queued node and relaxing its neighbours keeps the strip invariant and the sturdy sets allowed, and removes exactly one node from the allowed ones |
| FillBuild.StripLeaves | src/lib.rs:1030-1054 | the loop ends in the strip outcome: each effective degree is the degree less the half-edges from disallowed nodes; a node is allowed exactly when that is at least two; every sturdy set stays allowed, so the allowed nodes are the largest sturdy set; effective degree never exceeds degree |
| FillBuild.LeafStrip | src/lib.rs:1006-1054 | degrees are incidence-list lengths; the flags and effective degrees are the strip outcome; a node with at most one incident segment is never allowed |
| FillBuild.BuildGraph | src/lib.rs:776-1060 | the graph passes the fill-graph integrity check; node keys are distinct; its segments are the lines cut at their endpoints and at exactly the crossings `cross` finds strictly inside both lines; its lists are the half-edge pairs, incidence and outgoing lists of those segments; its degrees, effective degrees and flags are the strip outcome; its node list is the registration of the line endpoints, line by line, and then the crossing points in loop order |
| FillBuild.GraphNodes | src/lib.rs:181-194 | every node of a built graph is a registered point, the first with its quantized key, and every registered point has a node with its key |
| Peel.AliveDegreeDelete | src/lib.rs:2082-2094 | deleting a surviving segment lowers each node's surviving degree by exactly that segment's ends at the node |
| Peel.AliveDegreeNone | src/lib.rs:2061-2076 | a node with no surviving segment has surviving degree zero, so a degree-one node always finds its segment |
| Peel.AliveDegreeAtLeast | src/lib.rs:2082-2094 | a surviving segment's ends at a node are all counted in that node's surviving degree |
| Peel.AliveDegreeMono | src/lib.rs:2082-2094 | keeping fewer segments never raises a surviving degree |
| Peel.LeafSegmentOut | src/lib.rs:2061-2094 | the segment of a node with surviving degree one is deleted by every leaf-free deletion within the current one, so deleting it loses nothing the peel must keep |
| Peel.PeeledUnique | src/lib.rs:2045-2096 | the peel outcome is unique |
| Peel.PeeledNothing | src/lib.rs:2045-2110 | the peel deletes nothing exactly when no node starts with exactly one segment |
| Peel.TriangleWithTail | src/lib.rs:2045-2096 | on a triangle with one dangling segment, the peel deletes exactly the dangling segment |
| Peel.InitDegrees | src/lib.rs:2022-2035 | each node's degree is the number of segment ends at it |
| Peel.InitQueue | src/lib.rs:2037-2043 | the queue holds exactly the nodes of degree at most one, in ascending order |
| Peel.FindAlive | src/lib.rs:2061-2074 | the first surviving segment with an end at the node, or None when there is none |
| Peel.RemoveLeaf | src/lib.rs:2076-2095 | one more segment is deleted; every degree still equals the node's surviving degree; every degree-one node is still queued; every leaf-free deletion vector still deletes at least as much |
| Peel.PeelSegments | src/lib.rs:2045-2096 | the peel ends; the deletion count is the number of deleted segments; the outcome is `Peeled`: no node has exactly one surviving segment, and every deletion vector with that property deletes at least these segments |
| Peel.KeptCount | src/lib.rs:2098 | the kept lines number the segments minus the deleted ones |
| Peel.CollectKept | src/lib.rs:2113-2142 | one line per surviving segment whose ends are nodes, from node to node, in segment order |
| Peel.KeptFromSegs | src/lib.rs:2113-2142 | every kept line is the line of a surviving segment, from its first node to its second |
| Editing.TrimmedPoints | src/lib.rs:2113-2142 | after a trim, both ends of every kept line are points the build registered, each the first with its quantized key: a start or end of an old line, or a crossing point |
| Editing.Trim | src/lib.rs:2015-2142 | None exactly when there are no segments or no node starts with exactly one segment; otherwise the lines of the segments surviving the peel (`Peeled`), fewer than the segments |
| Connect.FreshSpec | src/lib.rs:375-390 | the lines newly reached from u are exactly the unvisited lines that u connects to, without repeats |
| Connect.Expand | src/lib.rs:375-390 | the neighbour scan marks exactly those lines visited, pushes them in index order, and records a chain from the start line for each |
| Connect.Visit | src/lib.rs:370-391 | one round lists one more line and keeps the search invariant |
| Connect.FindConnected | src/lib.rs:355-395 | empty for an empty list or an out-of-range start; otherwise the start comes first, and each listed line is distinct and reachable from the start; every line connecting to a listed line is listed, so the result is exactly the start line's connected component |
| Editing.AddLineRoundTrip | src/lib.rs:1950-1966 | a line with squared length below one changes nothing; any other line adds one line, and undo restores the document |
| Editing.AddFrameRoundTrip | src/lib.rs:1968-1981 | a frame adds four lines and one command, and one undo removes all four |
| Editing.ClearRoundTrip | src/lib.rs:1983-1999 | clear empties lines and fills, and undo restores both |
| Editing.CleanupRoundTrip | src/lib.rs:2003-2020 | with no trim nothing changes; otherwise the lines become the kept lines, and undo restores the previous lines |
| Shapes.IsClosed | src/lib.rs:229-231 | `Polygon::is_closed`: more than two points (every fill `AddFillDoc` adds is closed, by `AddFillRoundTrip`) |
| Editing.AddFillRoundTrip | src/lib.rs:1840-1857 | fewer than three points change nothing; otherwise exactly one fill and one `AddFill` are added, and the fill has the given colour, starts with the points, ends where it starts and is closed (`Polygon::is_closed`); undo removes it |
| Editing.UndoHistory | src/lib.rs:2155-2177 | undo on an empty history changes nothing; otherwise exactly the last command is removed |
| Editing.Editor.constructor | src/lib.rs:743-774 | no lines, fills or history; an empty fill graph; the default colour 0x747474FF; the invariant holds |
| Editing.Editor.RebuildStore | src/lib.rs:792-795 | the store is cleared and holds one edge per line, in order, made from that line and tagged with its index; two nodes share a union-find class exactly when those edges connect them |
| Editing.Editor.BuildFillGraph | src/lib.rs:776-1060 | with no lines, the fill graph is emptied and the store, its union-find and the degree and flag lists are left as they were; otherwise all of them are rebuilt from the lines |
| Editing.Editor.AddLine | src/lib.rs:1950-1966 | the document follows `AddLineDoc`; a too-short line leaves the whole editor unchanged; the invariant is kept |
| Editing.Editor.AddFrame | src/lib.rs:1968-1981 | the document follows `AddFrameDoc`; the invariant is kept |
| Editing.Editor.Clear | src/lib.rs:1983-1999 | the document follows `ClearDoc`; the invariant is kept |
| Editing.Editor.Undo | src/lib.rs:2155-2185 | the document follows `UndoDoc`; the invariant is kept |
| Editing.Editor.CreatePolygonFromSelected | src/lib.rs:1840-1857 | the document follows `AddFillDoc` with the current fill colour; the graph, degrees, flags and colour are unchanged and the editor invariant is kept |
| Editing.Editor.CleanupOverhangs | src/lib.rs:2003-2154 | the document follows `CleanupDoc` of the trim outcome; with no lines the whole editor is unchanged; otherwise the trim runs on the graph built from the old lines (`GraphOf`), and its outcome is `TrimOutcome` on that graph; the invariant is kept |

## Left out

- **Float geometry.** `line_intersection_params`, `IntersectionRegistry::quantize`, `SnapKey::from_point`, `key_from_point`, distance, angle, area and point-in-polygon helpers are not modelled. Their results are parameters.
- **Angle sort.** The outgoing lists are left in index order. What is proved about them (which half-edges they hold, each once) does not depend on order. The angle sort at `src/lib.rs:933-957` uses float angle proxies.
- **Export and debug buffers.** Intersection export, node audit, graph debug, fill candidates and walk debug, `debug_buf`, `refresh_export*` and `recompute_intersections` are not modelled. They flatten state into f32 arrays and state no behaviour of the core.
- **Fill tracing.** `trace_face_side`, `fill_debug_at`, `editor_fill`, `find_nearest_line` and `trace_polygon` are not modelled. They rest on float turn angles, areas and tolerances.
- **Runtime glue.** The allocator, the panic handler, the global editor cell and every `extern "C"` wrapper are not modelled; this includes the one that sets the fill colour. `fillColor` is a field that only `CreatePolygonFromSelected` reads.
- **Finiteness checks.** The checks in `src/debug_checks.rs` and `check_line_coordinates` are not stated: coordinates are exact reals here. `check_editor_integrity` is not modelled either.
- **Integer widths.** The u32 and usize casts of ids and counts are not modelled, because ids and counts are unbounded naturals. No count in the modelled code can exceed the number of nodes or segments.
- **UTF-8 decoding.** The UTF-8 decode of `parse_hex_color` is not a separate branch. `HexColor.NonAsciiFallsBack` shows it leads to the same fallback.
- **Overhang trimming idempotence.** A second trim on a trimmed document is not stated. Whether the rebuilt graph repeats the kept segments depends on the float crossing test, which is a parameter here.
- **Uniqueness of the rebuilt graph.** `FillBuild.GraphOf` states what the graph consists of, not, as a lemma, that it is the only graph for the lines. So "undo restores an identical fill graph" is not stated beyond the document round trips.
- UnionFind.Dsu.GetOddCount, UnionFind.Dsu.IncrementOddCount, UnionFind.Dsu.DecrementOddCount: require x in range. For an out-of-range x, `find` returns x itself, and the source then indexes `odd_count` out of range and panics. The store passes only ids of nodes it has created.
- UnionFind.Dsu.Union: requires both ids in range unless they are equal. With one out-of-range id and distinct roots, the source indexes `size` out of range and panics.
- Editing.UndoHistory: its body is empty, because Dafny proves it from the definition of `UndoDoc`.
