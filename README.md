# PrjOSM map model in Dafny

This project models the in-memory map of PrjOSM, a Java OpenStreetMap viewer and
router. It covers these parts:

- **The entities.** A tag store (`Element`), `Node`, `Way` and `Relation`.
- **The registries.** `NodeManager`, `WayManager` and `RelationManager`, each keyed by id.
- **`MapData`.** It holds the three registries and the map bounds. Its `finalizeData`
  runs the two build passes:
  - the shared-node pass, `WayManager.computeSharedNodes`, which builds the node-id-to-ways
    index, sets the shared flags and fills the drivable ways' shared-node lists;
  - the neighbour pass, `WayManager.setNeighboringNodes`, which links consecutive nodes
    of every way to each other.
- **`NodeHeap`.** The array-backed binary min-heap of nodes keyed by distance.

Modules follow the Java files:

| Module | Java file | File |
|---|---|---|
| `Tags` | `Element` | `tags.dfy` |
| `Nodes` | `Node` | `nodes.dfy` |
| `Ways` | `Way` | `ways.dfy` |
| `Relations` | `Relation` | `relations.dfy` |
| `NodeRegistry` | `NodeManager` | `node_registry.dfy` |
| `WayRegistry` | `WayManager` | `way_registry.dfy` |
| `RelationRegistry` | `RelationManager` | `relation_registry.dfy` |
| `MapModel` | `MapData` | `map_data.dfy` |
| `Heap` | `NodeHeap` | `heap.dfy` |

Three support modules complete the project:

- `GraphBuild` (`graph_build.dfy`) describes the two build passes as pure functions of the
  ways' node sequences, together with the lemmas about them.
- `Strings` (`strings.dfy`) holds `String.compareTo` order over UTF-16 code units, the sorting that stands in for
  `Collections.sort`, and `String.split(",")`.
- `Wrappers` (`wrappers.dfy`) holds `Option` (Java `null`) and `Result` (a thrown exception).

Objects the Java code updates in place are classes with `modifies` frames. The build passes
are methods with loops. Each is proved to leave the objects exactly as the `GraphBuild`
functions say, and the properties of the passes are proved about those functions.

How Java is modelled:
- `Element` inheritance becomes composition: every entity owns a `const element: Tags.Element`.
- `null` results become `Option`. `NullPointerException` and `IndexOutOfBoundsException`
  become `Failure(...)` values, or `thrown` out-parameters for `void` methods.
- Iteration over a `HashMap` or `HashSet` visits the entries in an order Java leaves open.
  The model picks each next entry with `:|`, so every contract holds whatever the order.
- Objects compare by reference wherever Java's `equals(Object)` is the inherited one.
  `Node`, `Way` and `Relation` only declare `equals(String)`, so `contains` and
  `connectedBy` compare by reference.

Where the design description and the code disagree, the model follows the code:
- **Which ways the index lists.** The index lists every way that holds the node, drivable or
  not. The description, and the field comment at `src/elements/WayManager.java:48-49`, say
  drivable ways only. A way tagged `building` is therefore indexed as well.
- **What a repeat sighting appends.** It appends the node id to every drivable way of the
  node's list, once per entry that way has in the list. That includes the current way, and
  repeats. The description speaks of "the subset of this way's nodes that also belong to
  another drivable way".
- **The first `getSegmentsNum` on a way.** On a way nothing was computed for, it returns the
  number of nodes, not the number of segments.
- **Empty ways.** Nothing enforces a node sequence of at least one node.
  `computeDistance` reads node 0, so the length accessors fail on an empty way.

## Model

| member | source | states |
|---|---|---|
| `Tags.Lookup` | src/elements/Element.java:44-47 | a tag value is returned exactly when the key is stored, and it is the stored value; a missing key gives `None` (null), not an error |
| `Tags.Element.constructor` | src/elements/Element.java:22-24 | a new element has no tags |
| `Tags.Element.AddTagValues` | src/elements/Element.java:30-34 | after the put, the key reads back the new value and every other key reads back what it had |
| `Nodes.Node.constructor` | src/elements/Node.java:41-47 | a new node has its id and coordinates, no name, no neighbours, and is not shared |
| `Nodes.Node.SetName` | src/elements/Node.java:53-56 | after `setName(n)`, `getName` answers `n` |
| `Nodes.Node.AddNeighbor` | src/elements/Node.java:59 | the neighbour is appended at the end, duplicates kept |
| `Nodes.Node.SetShared` | src/elements/Node.java:78-88 | after `setShared(b)`, `isShared` answers `b` |
| `Nodes.Node.Equals` | src/elements/Node.java:144-149 | `equals(String)` holds exactly for the node's own id |
| `Nodes.Node.DistFrom` | src/elements/Node.java:96-113 | a distance is never negative and is zero between equal positions |
| `Nodes.Node.DistFromPoint` | src/elements/Node.java:120-132 | never negative, and exactly zero at the node's own position |
| `Ways.PathLength` | src/elements/Way.java:61-69 | the accumulated length is never negative and is zero for fewer than two nodes |
| `Ways.WayLength` | src/elements/Way.java:70 | the way total (the accumulated length times 69) is never negative |
| `Ways.Way.constructor` | src/elements/Way.java:48-53 | a new way has no nodes, no shared nodes, counter 0, cached distance -1, and is drivable until asked |
| `Ways.Way.ComputeDistance` | src/elements/Way.java:59-71 | on a non-empty way, the counter grows by one per consecutive pair and the cache holds the way length; on an empty way, reading node 0 fails and nothing changes |
| `Ways.Way.AddNode` | src/elements/Way.java:77-79 | the node is appended at the end, and `containsNode` then holds for it |
| `Ways.Way.GetName` | src/elements/Way.java:86-89 | the `name` tag, or `None` when it is absent |
| `Ways.Way.GetSegmentsNum` | src/elements/Way.java:95-101 | a counter already set is returned unchanged. Otherwise, a non-empty way returns its number of nodes (one more than its pairs) and caches its length. An empty way fails with the counter at 1 |
| `Ways.Way.GetTotalDistance` | src/elements/Way.java:120-123 | the length is computed only while the cache holds -1; afterwards every call returns the same cached value; an empty way fails |
| `Ways.Way.IsDriveable` | src/elements/Way.java:128-132 | the answer is false when there is no `highway` tag or the flag was cleared before, and the flag stays cleared |
| `Ways.Way.AddSharedNode` | src/elements/Way.java:137-139 | the id is appended at the end of the shared-node list |
| `Ways.Way.GetPriority` | src/elements/Way.java:151-161 | first match wins: a `building` tag gives 2.5 whatever `highway` says, then `highway=unclassified` 2, then `highway=residential` 1.5, otherwise 0 |
| `Ways.Way.Equals` | src/elements/Way.java:169-174 | `equals(String)` holds exactly for the way's own id |
| `Relations.Relation.constructor` | src/elements/Relation.java:28-32 | a new relation has no members |
| `Relations.Relation.AddMember` | src/elements/Relation.java:41-43 | the way is appended, so members keep insertion order, and `containsWay` then holds for it |
| `Relations.Relation.GetName` | src/elements/Relation.java:58-61 | the `name` tag, or `None` when it is absent |
| `Relations.Relation.Equals` | src/elements/Relation.java:77-82 | `equals(String)` holds exactly for the relation's own id |
| `Heap.TruncDiv` | src/function/NodeHeap.java:204 | Java's integer division, truncating toward zero for negative operands too |
| `Heap.Parent` | src/function/NodeHeap.java:203-207 | every slot after the root is the left or right child of its parent; `parent(0)` is 0, which stops sift-up at the root |
| `Heap.Swapped` | src/function/NodeHeap.java:175-180 | exactly the two slots are exchanged and the entries stay the same multiset |
| `Heap.KeyOfFirst` | src/function/NodeHeap.java:101-106 | `get` reports the key of the first entry that holds the node |
| `Heap.KeyOfAbsent` | src/function/NodeHeap.java:105 | `get` reports -1 for a node no entry holds |
| `Heap.HeapRootIsMin` | src/function/NodeHeap.java:72-80 | in a heap, no key is smaller than the root's |
| `Heap.SiftUpStep` | src/function/NodeHeap.java:113-120 | one sift-up swap with a strictly heavier parent moves the only disorder up one level |
| `Heap.SiftDownStep` | src/function/NodeHeap.java:154-159 | one sift-down swap with the lightest child, made when the parent is not lighter, moves the only disorder down one level |
| `Heap.SiftDownDone` | src/function/NodeHeap.java:162-163 | a slot lighter than its children closes the order |
| `Heap.ReplaceRootByLast` | src/function/NodeHeap.java:74-77 | moving the last entry to the root and dropping the last slot removes exactly the root entry |
| `Heap.NodeHeap.constructor` | src/function/NodeHeap.java:43-46 | a new heap is empty |
| `Heap.NodeHeap.FromList` | src/function/NodeHeap.java:50-53 | the given entries are arranged into a heap, with none lost or added |
| `Heap.NodeHeap.LeftChild` | src/function/NodeHeap.java:186-190 | slot `2i+1`, or the sentinel -1 exactly when it is past the end |
| `Heap.NodeHeap.RightChild` | src/function/NodeHeap.java:196-200 | slot `2i+2`, or the sentinel -1 exactly when it is past the end |
| `Heap.NodeHeap.MinChild` | src/function/NodeHeap.java:129-150 | the sentinel exactly when there is no left child; otherwise a child no heavier than any other child, and the right one when both keys are equal |
| `Heap.NodeHeap.IsEmpty` | src/function/NodeHeap.java:83-85 | empty exactly when the size is 0 |
| `Heap.NodeHeap.Swap` | src/function/NodeHeap.java:175-180 | exchanges two slots and loses or duplicates nothing |
| `Heap.NodeHeap.UpwardReheapify` | src/function/NodeHeap.java:113-120 | from order everywhere but above the new entry, it leaves a heap with the same entries |
| `Heap.NodeHeap.DownwardReheapify` | src/function/NodeHeap.java:127-166 | from order everywhere but below the slot, it leaves order with the same entries; with all keys equal, the moved entry sinks to a slot without children |
| `Heap.NodeHeap.BuildHeap` | src/function/NodeHeap.java:56-60 | turns any list into a heap with the same entries |
| `Heap.NodeHeap.Add` | src/function/NodeHeap.java:63-66 | adds exactly one entry, with key -1, keeps a heap, and the node is then held |
| `Heap.NodeHeap.RemoveMin` | src/function/NodeHeap.java:72-80 | `None` on an empty heap, which stays empty. Otherwise it returns the root's node, whose key is the smallest, and removes exactly that one entry while keeping a heap |
| `Heap.NodeHeap.Contains` | src/function/NodeHeap.java:93-98 | true exactly when some entry holds the node (by reference) |
| `Heap.NodeHeap.Get` | src/function/NodeHeap.java:101-106 | the key of the first entry holding the node, or -1 |
| `GraphBuild.AlongIndex` | src/elements/WayManager.java:223-225 | the pass visits a way's nodes in sequence order |
| `GraphBuild.IndexContents` | src/elements/WayManager.java:219-240 | an id is in the index after the pass exactly when it was before or occurs in some way, drivable or not; its list is the old list plus one entry per occurrence, in pass order |
| `GraphBuild.IdCountMatchesWays` | src/elements/WayManager.java:227-235 | the index gets one entry per occurrence of the id |
| `GraphBuild.WaysWithIdHolds` | src/elements/WayManager.java:228-235 | a way is listed under an id exactly when it holds a node with that id |
| `GraphBuild.SharedIffRepeated` | src/elements/WayManager.java:227-233 | from an empty index, a node is marked shared exactly when its id occurs at least twice across all node sequences, a repeat inside one way included |
| `GraphBuild.SharedOnlyDrivable` | src/elements/WayManager.java:236-237 | a way that is not drivable never receives a shared-node id |
| `GraphBuild.SharedIdsAreOwn` | src/elements/WayManager.java:223-238 | from an empty index, every id added to a way's shared list names a node of that way |
| `GraphBuild.SightingAddsOwn` | src/elements/WayManager.java:232-238 | a sighting adds only its own node's id, and only to ways of the node's extended list |
| `GraphBuild.RerunFlagsEveryNode` | src/elements/WayManager.java:227-233 | over an index already holding every id, the pass marks every node shared |
| `GraphBuild.RerunSharesEveryId` | src/elements/WayManager.java:227-238 | over an index already holding every id, the pass appends each node's id to every drivable way holding that node |
| `GraphBuild.RerunDuplicatesEntries` | src/elements/WayManager.java:232-235 | rerunning the pass over the index it built appends every list to itself |
| `GraphBuild.FirstPassCoversIds` | src/elements/WayManager.java:227-235 | after one pass from an empty index, every node id met is a key |
| `GraphBuild.IndexedWayHoldsBoth` | src/elements/WayManager.java:219-240 | a way listed under two ids holds a node with each |
| `GraphBuild.FlattenHolds` | src/elements/WayManager.java:219-224 | every visit of the pass is a node of the visited way's sequence |
| `GraphBuild.LinksAlong` | src/elements/WayManager.java:256-261 | one link per consecutive pair, in order; a way of fewer than two nodes has none |
| `GraphBuild.LinkAddsSymmetric` | src/elements/WayManager.java:259-260 | one link lists each end for the other equally often |
| `GraphBuild.NeighborSymmetry` | src/elements/WayManager.java:251-263 | adjacency is symmetric with equal multiplicities: `b` is listed for `a` as often as `a` for `b` |
| `GraphBuild.NeighborsAreLinked` | src/elements/WayManager.java:256-261 | a neighbour is only ever added across a consecutive pair of some way |
| `GraphBuild.IndexAfterAppend` | src/elements/WayManager.java:219-240 | visiting two runs of occurrences in turn gives the index of visiting both at once |
| `GraphBuild.FlaggedByAppend` | src/elements/WayManager.java:227-233 | the shared flag over two runs is the flag over the first, or over the second from the index the first leaves |
| `GraphBuild.SharedAddedAppend` | src/elements/WayManager.java:232-238 | shared ids over two runs are those of the first run followed by those of the second |
| `GraphBuild.NeighborsAddedAppend` | src/elements/WayManager.java:251-263 | neighbours over two runs of links are those of the first run followed by those of the second |
| `NodeRegistry.EarliestMinimiserUnique` | src/elements/NodeManager.java:153-158 | a list has at most one earliest nearest node |
| `NodeRegistry.EarliestMinimiserExists` | src/elements/NodeManager.java:153-158 | every non-empty list has an earliest nearest node |
| `NodeRegistry.FirstZeroIsEarliestMinimiser` | src/elements/NodeManager.java:174 | the first node at distance zero is the earliest nearest node |
| `NodeRegistry.EarliestMinimiserSnoc` | src/elements/NodeManager.java:155-158 | one more node takes over exactly when it is strictly nearer |
| `NodeRegistry.NamesOfSnapshot` | src/elements/NodeManager.java:136-138 | the names taken from a snapshot of the name tags are the nodes' names |
| `NodeRegistry.NodeManager.constructor` | src/elements/NodeManager.java:45-50 | a new registry has no nodes and no names |
| `NodeRegistry.NodeManager.NewNode` | src/elements/NodeManager.java:58-63 | the new node is registered under its id, replacing any node of that id, and other ids are untouched |
| `NodeRegistry.NodeManager.GetNode` | src/elements/NodeManager.java:70-72 | the registered node, or `None` exactly for an unknown id |
| `NodeRegistry.NodeManager.RegisteredNodeHasId` | src/elements/NodeManager.java:58-72 | a node found under an id answers `equals` with true for that id |
| `NodeRegistry.NodeManager.GenImportantNodes` | src/elements/NodeManager.java:135-143 | every node with a `name` tag takes that name and is found in the name map under it; nodes without one, and names not met, keep what they had |
| `NodeRegistry.NodeManager.GetByName` | src/elements/NodeManager.java:79-82 | builds the name map only while it is empty, then answers the named node or `None`; a non-empty map is reused unchanged |
| `NodeRegistry.NodeManager.GetNodeNames` | src/elements/NodeManager.java:106-110 | the names of the name map, strictly ascending in `compareTo` (UTF-16 code unit) order, each once |
| `NodeRegistry.NodeManager.ClosestNode` | src/elements/NodeManager.java:150-161 | `None` exactly when no node is registered. Otherwise it returns a registered node that no registered node is nearer than, and the first of equally near nodes in visiting order |
| `NodeRegistry.NodeManager.ClosestNodeIn` | src/elements/NodeManager.java:169-181 | `None` exactly for an empty list; otherwise the list's earliest nearest node, which is at distance zero when any node is |
| `WayRegistry.WayManager.constructor` | src/elements/WayManager.java:59-64 | a new registry has no ways, an empty index and no name maps |
| `WayRegistry.WayManager.NewWay` | src/elements/WayManager.java:70-76 | the way is registered under its id and appended to the list of all ways |
| `WayRegistry.WayManager.GetWay` | src/elements/WayManager.java:127-134 | the registered way, or `None` exactly for an unknown id |
| `WayRegistry.WayManager.NamedIds` | src/elements/WayManager.java:151-162 | an id is mapped exactly when its way has a `name` tag |
| `WayRegistry.WayManager.IdNameMapInitialized` | src/elements/WayManager.java:151-162 | builds the id-to-name map on first use, holding exactly the named ways; later calls leave it alone |
| `WayRegistry.WayManager.WayNamesInitialized` | src/elements/WayManager.java:169-178 | builds the name set from the id-to-name map's values on first use; later calls leave it alone |
| `WayRegistry.WayManager.FindByName` | src/elements/WayManager.java:205-214 | exactly the registered ways with that name, each once |
| `WayRegistry.WayManager.NameIndexComplete` | src/elements/WayManager.java:188-194 | once every way has been filed, the name index's keys are exactly the way names |
| `WayRegistry.WayManager.NameWayMapInitialized` | src/elements/WayManager.java:184-197 | on first use, maps every way name to exactly the ways of that name, each once; later calls do not rebuild it |
| `WayRegistry.WayManager.GetByName` | src/elements/WayManager.java:142-145 | the ways of that name (all of them on the first call), or `None` for a name no way has; the index is built once and reused |
| `WayRegistry.WayManager.GetWayNames` | src/elements/WayManager.java:103-106 | the ids of exactly the named ways |
| `WayRegistry.WayManager.NamedIdsValues` | src/elements/WayManager.java:173-175 | the names collected from the id-to-name map are the way names |
| `WayRegistry.WayManager.GetAlphabeticalOrderedNames` | src/elements/WayManager.java:112-119 | the distinct way names, strictly ascending in `compareTo` (UTF-16 code unit) order, none twice |
| `WayRegistry.WayManager.AddToDrivable` | src/elements/WayManager.java:236-238 | every way of the list that answers drivable gets the id once per entry it has in the list; the answers do not change |
| `WayRegistry.WayManager.Sighting` | src/elements/WayManager.java:224-239 | one visit: the index takes one step, the node is shared exactly when its id was already indexed, and the ways' lists grow by that sighting's additions |
| `WayRegistry.WayManager.ComputeSharedNodes` | src/elements/WayManager.java:217-242 | the index, the shared flags and the shared-node lists end exactly as the pass over every way's nodes, in order, makes them |
| `WayRegistry.WayManager.LinkWay` | src/elements/WayManager.java:256-261 | the neighbour lists grow by exactly the links along one way |
| `WayRegistry.WayManager.SetNeighboringNodes` | src/elements/WayManager.java:251-263 | every node's neighbour list grows by exactly what the links of all ways, way by way, give it |
| `RelationRegistry.RelationManager.constructor` | src/elements/RelationManager.java:27-30 | a new registry has no relations and an empty name map |
| `RelationRegistry.RelationManager.NewRelation` | src/elements/RelationManager.java:36-41 | the relation is registered under its id, replacing any relation of that id; other ids are untouched |
| `RelationRegistry.RelationManager.GetRelation` | src/elements/RelationManager.java:49-51 | the relation registered under the id, which answers `equals` for it, or `None` exactly for an id never registered |
| `RelationRegistry.RelationManager.GetAllRelations` | src/elements/RelationManager.java:57-59 | exactly the relations found by the registered ids |
| `RelationRegistry.RelationManager.GetAllRelationIDs` | src/elements/RelationManager.java:65-67 | exactly the ids ever passed to `newRelation` |
| `RelationRegistry.RelationManager.GetNameableRelations` | src/elements/RelationManager.java:73-75 | always empty: the name map is never written |
| `RelationRegistry.RelationManager.GetNameableRelationNames` | src/elements/RelationManager.java:81-83 | always empty: the name map is never written |
| `Strings.SortNames` | src/elements/WayManager.java:116-117 | the names, strictly ascending in `compareTo` order, each once |
| `Strings.LexLessTotal` | src/elements/NodeManager.java:108 | two different names are ordered one way or the other; different strings have different UTF-16 code units |
| `Strings.LexLessTransitive` | src/elements/NodeManager.java:108 | the name order is transitive |
| `Strings.SurrogatesBeforeUpperBmp` | src/elements/NodeManager.java:108 | `compareTo` is not code-point order: a character above U+FFFF sorts before any character in U+E000-U+FFFF, by its high surrogate |
| `Strings.SplitJoin` | src/elements/MapData.java:91 | splitting on the separator a join of separator-free fields, the last non-empty, gives the fields back |
| `MapModel.PutAllLastWins` | src/elements/MapData.java:77-83 | of the pairs with one key, the last one decides the value |
| `MapModel.PutAllUntouched` | src/elements/MapData.java:77-83 | a key no pair names keeps its value |
| `MapModel.PutAllKeys` | src/elements/MapData.java:77-83 | the keys afterwards are the old keys and every key named by a pair |
| `MapModel.BoxRoundTrip` | src/elements/MapData.java:89-97 | a box of four comma-free fields is stored as minlat, minlon, maxlat, maxlon, in that order |
| `MapModel.FirstCommon` | src/elements/MapData.java:109-114 | the first way of the first list that the second also holds, or `None` exactly when they share none |
| `MapModel.FirstCommonAt` | src/elements/MapData.java:109-111 | the earliest shared index determines the result |
| `MapModel.ConnectedWayHoldsBoth` | src/elements/MapData.java:104-115 | over the index the build pass publishes, a way `connectedBy` finds holds a node with each id |
| `MapModel.SecondRunFlagsEveryNode` | src/elements/MapData.java:124-130 | a second `finalizeData` marks every node that occurs in a way shared |
| `MapModel.BothRunsFlagEveryNode` | src/elements/MapData.java:124-130 | two `finalizeData` runs, taken as one pass over the occurrences twice, mark every node that occurs in a way shared |
| `MapModel.SecondRunSharesEveryId` | src/elements/MapData.java:124-130 | after a second `finalizeData`, every node of a drivable way has its id in that way's shared-node list, over the second run and over both runs taken as one pass |
| `MapModel.SecondRunDuplicatesEntries` | src/elements/MapData.java:124-130 | a second `finalizeData` lists every way twice as often in the index |
| `MapModel.MapData.constructor` | src/elements/MapData.java:40-45 | three empty registries, no bounds, no index |
| `MapModel.MapData.NewNode` | src/elements/MapData.java:51-54 | delegates to the node registry and returns the node it registered |
| `MapModel.MapData.NewWay` | src/elements/MapData.java:60-63 | delegates to the way registry and returns the way it registered |
| `MapModel.MapData.NewRelation` | src/elements/MapData.java:69-72 | delegates to the relation registry and returns the relation it registered |
| `MapModel.MapData.AddBounds` | src/elements/MapData.java:77-83 | the bounds after putting every attribute pair in order |
| `MapModel.MapData.AddBoundBox` | src/elements/MapData.java:89-97 | a missing box faults before anything is stored. Otherwise the split fields 0 to 3 are stored under minlat, minlon, maxlat, maxlon, and fewer than four fields fault after the ones present are stored |
| `MapModel.MapData.ConnectedBy` | src/elements/MapData.java:104-115 | the first common way, by reference, of the two ids' lists, or `None`. It faults before `finalizeData`, for an unindexed first id, and for an unindexed second id when the first list is not empty |
| `MapModel.MapData.FinalizeData` | src/elements/MapData.java:124-130 | the published index is the one the shared-node pass leaves, unchanged by the neighbour pass |

## Left out

- Distance formulas: `Node.distFrom` and the way-level factor are floating-point code with
  `cos`, `sqrt` and `pow`. They are an abstract `Metric`, kept only as non-negative and zero
  at equal positions. The factor 69 in the way total is kept.
- Doubles: coordinates, distances and heap keys are `real`. NaN, rounding and
  `Double.compare`'s treatment of -0.0 are not modelled.
- Integer width: the segment counter and heap indices are unbounded.
  - The segment counter would overflow only on a way of more than 2^31 nodes.
  - `leftChild` and `rightChild` compute `2 * index + 1` and `2 * index + 2`, which overflow
    once an index reaches 2^30. On a heap of more than 2^30 entries `downwardReheapify` can
    then get a negative child index, which passes the `>= heap.size()` test, and `heap.get`
    throws. The model's indices never overflow, so this failure is not modelled.
- Parsing: SAX `Attributes` become parameters.
  - `newNode`, `newWay` and `newRelation` take the id, plus the coordinates for a node.
  - `addTagValues` takes the key and value.
  - `addBounds` takes its (name, value) pairs.
  - `addBoundBox` takes the `box` value, `None` when it is absent.
  - `Double.parseDouble` is not modelled.
- Hash order: iteration over `HashMap` and `HashSet` is nondeterministic choice. Which node
  `genImportantNodes` keeps under a name that several nodes share is therefore not
  determined, and neither is the visiting order of `closestNode(lon, lat)`. That order is
  returned as a ghost `order`.
- Aliasing of the index: Java's `MapData` keeps a reference to the way registry's index map.
  The model copies its value when `FinalizeData` publishes it. Nothing changes the index
  after that except another `finalizeData`, which publishes again.
- Live views: getters that hand out Java collections (`getNodeSet`, `getAllWays`,
  `getNeighbors`, `getMembers`, `getSharedNodes`) return values, so changes made through
  them are not modelled.
- Heap.NodeHeap.FromList: Java's `NodeHeap(ArrayList)` keeps the caller's list itself, and
  `buildHeap`, `add` and `removeMin` then reorder that list in place. The model copies the
  entries, so the caller's list is not shown changing.
- `Way.getName` and `Relation.getName` also store the tag in a private `name` field that
  nothing reads. They are modelled as pure reads.
- `null` arguments: the nodes passed to `connectedBy`, and `null` ways or nodes given to the
  other methods, are not modelled. References in the model are never null.
- Not modelled at all, because they are outside the map model or unused:
  - `NodeHeap.printHeap`, `toString` and the `DistNode` printing;
  - `NodeManager.organizeByLonLat` and its longitude and latitude maps;
  - `hashCode` via `Integer.parseInt`;
  - the plain getters `getID`, `getLongitude`, `getLatitude`, `getNodeManager` and the like.
- `NodeHeap` has no key update, so every key added through `add` is -1. Keys other than -1
  come only through the list constructor.
- `Relations.Relation.ContainsWay`, `GetMembers`, `Ways.Way.ContainsNode`,
  `Nodes.Node.GetName` and `IsShared` are plain reads with no contract of their own. The
  contracts of `AddMember`, `AddNode`, `SetName` and `SetShared` state what they answer.
- MapModel.MapData.FinalizeData: its contract states only the published index and the
  registries' invariants. The names, shared flags, shared-node lists and neighbour lists are
  stated by `NodeRegistry.NodeManager.GenImportantNodes`,
  `WayRegistry.WayManager.ComputeSharedNodes` and `WayRegistry.WayManager.SetNeighboringNodes`.
  `FinalizeData` calls those three in that order but does not restate their effects.
- NodeRegistry.NodeManager.ClosestNode: "first in visiting order" is stated against the
  ghost `order`, because Java's hash order is left open.
