# IFoxCAD core in Dafny

This project models four pieces of the IFoxCAD library and proves their
contracts.

- **The quadtree root controller** (`QuadTree<TEntity>`) owns the root node of a
  quadtree. To insert an entity outside the root's bound, it grows the root:
  - it builds a bound twice as wide and twice as high, extended toward the entity;
  - it lets a fresh root adopt the old root as one of its quadrants;
  - it wires the old root into its new parent's slot;
  - it moves every old node one level (or more) down.

  It then hands the entity to the root. A batch insert does the entities that
  are not points first, then the points. Query, region removal, entity removal,
  `Count` and `ForEach` delegate to the root.
- **The undirected point graph** (`Graph`, `GraphVertex`, `GraphEdge`) is kept
  as adjacency and edge tables keyed by vertex index. It provides:
  - a point-deduplicating `AddVertex`;
  - a symmetric `AddEdge`;
  - a cascading `RemoveVertex`;
  - edge lookup and the curves of a closed vertex path.

  Its **cycle enumeration** (`DepthFirst`) finds every simple cycle of the
  graph and records each one once, rotated to its smallest vertex: it skips a
  cycle whose copy or reversal is already recorded.
- **The collection helpers** (`CollectionEx`):
  - three `ForEach` overloads (plain, indexed, breakable);
  - keyword lookup by a chosen name field;
  - dictionary building;
  - the key and value projections of an id mapping.
- **The LISP dotted pair** (`LispDottedPair`): the two-value constructor and
  the `Value` getter that frames the stored values between a ListBegin marker
  and a DottedPair marker.

Files:

| file | content |
|---|---|
| `Wrappers.dfy` | `Option`, `Result`, and `Pick` for enumerating an unordered collection |
| `QuadTreeGeometry.dfy` | module `Geometry`: rectangles, entities, growth arithmetic, selection |
| `QuadTreeNode.dfy` | module `Nodes`: the node records of the tree, held in an arena, with traversal and contents |
| `QuadTreeBatch.dfy` | module `Batches`: the insertion order of a batch |
| `QuadTree.dfy` | module `QuadTrees`: the growth step and the `QuadTree` controller class |
| `Graph.dfy` | module `Graphs`: the graph state, its invariant, and the `Graph` class |
| `DepthFirst.dfy` | module `Cycles`: rotation, reversal, and the `DepthFirst` class |
| `CollectionEx.dfy` | module `CollectionEx` |
| `LispDottedPair.dfy` | module `ResultData` |

The quadtree's nodes form a sequence `nodes` addressed by handles, which
are indices into it. A ghost rank per node makes children rank lower than
their parent, so the structure is acyclic. `Order` lists a subtree's nodes
in the traversal order `ForEach` uses: the node, then its left-top,
right-top, left-bottom and right-bottom subtrees. `Contents` is the
concatenation of the buckets of those nodes. A controller is `Valid` when
its root is a tree, meaning no node is met twice in the traversal. Every
operation keeps `Valid`.

The node insertion `newRoot.Insert(oldRoot)` belongs to `QuadTreeNode`, so
its outcome is a parameter `place`. The outcome can be:
- null;
- the new root itself;
- a child with some bound, depth and link.

Because of this, every failure branch of the growth step can be reached.
`StandardPlacement` is the insertion that splits the new root once.
Under it, growth is proved never to fail.

## Model

| member | source | states |
|---|---|---|
| Geometry.Direction | src/IFoxCAD.Cad/QuadTree/QuadTree.cs:77-106 | the root grows upward iff `ent._Y >= root._Y` and rightward iff `ent._X >= root._X` |
| Geometry.GrowBound | src/IFoxCAD.Cad/QuadTree/QuadTree.cs:73-107 | the new bound is exactly twice as wide and high as the old one; it keeps the old bottom (left) edge when growing up (right) and moves the opposite edge by the old height (width), and symmetrically for the other directions |
| Geometry.GrowKeepsOldQuadrant | src/IFoxCAD.Cad/QuadTree/QuadTree.cs:73-107 | the old bound is exactly the quadrant of the new bound opposite the growth direction (up-right keeps it bottom-left, down-left keeps it top-right, …) |
| Geometry.GrowContainsOld | src/IFoxCAD.Cad/QuadTree/QuadTree.cs:73-107 | the new bound contains the old bound |
| Geometry.Excess | src/IFoxCAD.Cad/QuadTree/QuadTree.cs:63 | the distance by which the entity sticks out of the root is zero iff the root contains it |
| Geometry.GrowProgress | src/IFoxCAD.Cad/QuadTree/QuadTree.cs:63-107 | a growth step toward an entity outside a root with area yields a root with area that the entity sticks out of strictly less, so the loop ends |
| Geometry.Selected | src/IFoxCAD.Cad/QuadTree/QuadTree.cs:186-192 | a query result is never longer than what it selects from |
| Geometry.SelectedExactly | src/IFoxCAD.Cad/QuadTree/QuadTree.cs:186-192 | an entity is in the selection iff it is stored and the region selects it under the mode |
| Geometry.Unselected | src/IFoxCAD.Cad/QuadTree/QuadTree.cs:198-201 | region removal never lengthens a bucket |
| Geometry.UnselectedExactly | src/IFoxCAD.Cad/QuadTree/QuadTree.cs:198-201 | an entity is kept iff it was stored and the region does not select it |
| Geometry.SelectedAppend | src/IFoxCAD.Cad/QuadTree/QuadTree.cs:186-192 | selecting from two bucket runs back to back is selecting from each in turn |
| Geometry.UnselectedAppend | src/IFoxCAD.Cad/QuadTree/QuadTree.cs:198-201 | filtering two bucket runs back to back is filtering each in turn |
| Geometry.SelectionSplits | src/IFoxCAD.Cad/QuadTree/QuadTree.cs:186-201 | what a query selects and what region removal keeps together make up exactly the stored multiset |
| Geometry.RemoveFirst | src/IFoxCAD.Cad/QuadTree/QuadTree.cs:207-210 | removing an entity that is absent changes nothing |
| Geometry.RemoveFirstOne | src/IFoxCAD.Cad/QuadTree/QuadTree.cs:207-210 | removing a present entity takes exactly one copy of it away |
| Geometry.RemoveFirstAppend | src/IFoxCAD.Cad/QuadTree/QuadTree.cs:207-210 | on two runs of buckets, the first copy is taken from the first run that holds it |
| Nodes.Node.WithSlot | src/IFoxCAD.Cad/QuadTree/QuadTree.cs:126-133 | writing one child slot changes that slot only |
| Nodes.Order | src/IFoxCAD.Cad/QuadTree/QuadTree.cs:235-238 | a subtree's traversal starts at its root and names only nodes of the arena |
| Nodes.CountSubTree | src/IFoxCAD.Cad/QuadTree/QuadTree.cs:41 | `CountSubTree` is the number of entities the subtree stores |
| Nodes.InsertEntity | src/IFoxCAD.Cad/QuadTree/QuadTree.cs:152 | appends the entity to the bucket of the node it is given; that node keeps its bound and children, and every other node stays as it was |
| Nodes.InsertEntityAdds | src/IFoxCAD.Cad/QuadTree/QuadTree.cs:152 | storing an entity at the root keeps the tree and its traversal and adds exactly one copy of the entity to the contents |
| Nodes.Query | src/IFoxCAD.Cad/QuadTree/QuadTree.cs:189-191 | the node query appends to `results` exactly the subtree's selected entities, in traversal order |
| Nodes.RemoveSelected | src/IFoxCAD.Cad/QuadTree/QuadTree.cs:200 | region removal filters the bucket of each node of the subtree and leaves every other node as it was |
| Nodes.RemoveSelectedFilters | src/IFoxCAD.Cad/QuadTree/QuadTree.cs:200 | after region removal the subtree has the same traversal and its contents are the old contents with the selected entities filtered out |
| Nodes.RemoveEntity | src/IFoxCAD.Cad/QuadTree/QuadTree.cs:209 | entity removal keeps the arena's length and changes no node's bound, depth, parent or children |
| Nodes.BucketsRemoveFirst | src/IFoxCAD.Cad/QuadTree/QuadTree.cs:209 | taking the entity from the first bucket that holds it takes its first copy out of the concatenated buckets, provided no node repeats |
| Nodes.RemoveEntityRemoves | src/IFoxCAD.Cad/QuadTree/QuadTree.cs:209 | after entity removal the subtree keeps its traversal and stores its old contents without the first copy of the entity |
| Nodes.Visited | src/IFoxCAD.Cad/QuadTree/QuadTree.cs:142-146 | a callback can change a node's bound, depth and parent, never its children or bucket |
| Nodes.VisitAll | src/IFoxCAD.Cad/QuadTree/QuadTree.cs:235-238 | a `ForEach` pass changes no children and no bucket, and touches only the nodes of the traversal |
| Nodes.ForEach | src/IFoxCAD.Cad/QuadTree/QuadTree.cs:235-238 | the node `ForEach` loop visits the subtree in traversal order until the callback asks to stop, as `VisitAll` describes |
| Nodes.VisitKeeps | src/IFoxCAD.Cad/QuadTree/QuadTree.cs:235-238 | any callback leaves the subtree's traversal, its contents and its being a tree as they were |
| Nodes.ShiftAll | src/IFoxCAD.Cad/QuadTree/QuadTree.cs:142-146 | the callback `node.Depth += depth; return false` never stops and adds `depth` to the depth of each node of the traversal exactly once |
| Nodes.ShiftSubtree | src/IFoxCAD.Cad/QuadTree/QuadTree.cs:139-146 | moving the old tree down adds `depth` to the depth of every node of it and changes nothing else |
| Nodes.ShiftUnder | src/IFoxCAD.Cad/QuadTree/QuadTree.cs:139-149 | after the shift, the new root whose only child is the old root is a tree; it is traversed as itself followed by the old tree and stores what the old tree stored |
| Nodes.NewRootInsert | src/IFoxCAD.Cad/QuadTree/QuadTree.cs:111-115 | the fresh root and the returned node are appended to the arena; the result is null iff the node insertion rejected the old root; a returned node with a parent has the new root as its parent (the only parent the model allows; see "## Left out") |
| Nodes.NewRootRank | src/IFoxCAD.Cad/QuadTree/QuadTree.cs:111-115 | the new root ranks above the old root, so the arena stays acyclic |
| Nodes.NewRootInsertKeeps | src/IFoxCAD.Cad/QuadTree/QuadTree.cs:111-115 | creating the new records keeps the arena ranked and the old tree's traversal and contents |
| Nodes.NewArena | src/IFoxCAD.Cad/QuadTree/QuadTree.cs:50-53 | a new arena holds one depth-0 node with no parent, no children and an empty bucket, which is a tree storing nothing |
| Nodes.NewNode | src/IFoxCAD.Cad/QuadTree/QuadTree.cs:52 | `new QuadTreeNode(rect, parent, depth)` has the given bound, parent and depth, no children and an empty bucket |
| Nodes.Node.Contains | src/IFoxCAD.Cad/QuadTree/QuadTree.cs:63 | a node contains an entity exactly when the entity sticks out of its bound by nothing, so the growth loop, which runs while the root does not contain the entity, ends when `Excess` reaches 0 |
| Nodes.Node.Equals | src/IFoxCAD.Cad/QuadTree/QuadTree.cs:118 | definition: the returned node equals the old root when their bounds are equal |
| Batches.GroupKinds | src/IFoxCAD.Cad/QuadTree/QuadTree.cs:166-178 | the first pass inserts no point, and the second pass inserts only points |
| Batches.GroupsLength | src/IFoxCAD.Cad/QuadTree/QuadTree.cs:166-178 | the two passes together have as many insertions as the batch has entities |
| Batches.GroupsPermute | src/IFoxCAD.Cad/QuadTree/QuadTree.cs:166-178 | the two passes together insert, as a multiset, exactly the entities seen so far |
| Batches.BatchPermutes | src/IFoxCAD.Cad/QuadTree/QuadTree.cs:159-179 | the batch order (non-points in list order, then points in list order) is a permutation of the batch: each entity is inserted exactly once |
| Batches.GroupPrefix | src/IFoxCAD.Cad/QuadTree/QuadTree.cs:166-176 | the non-points seen so far are a prefix of all the non-points |
| Batches.NextShape | src/IFoxCAD.Cad/QuadTree/QuadTree.cs:169-175 | the `i`-th entity, when it is not a point, is the next entity of the batch order |
| Batches.NextPoint | src/IFoxCAD.Cad/QuadTree/QuadTree.cs:177-178 | the `j`-th point of the batch comes in the batch order right after all the non-points and the earlier points |
| QuadTrees.Predict | src/IFoxCAD.Cad/QuadTree/QuadTree.cs:115-141 | how the growth step ends, with its checks in the source's order. A null result throws the size error. A result whose bound is not the old root's throws the mismatch error. A returned node with no parent stops the step. One in no slot of its parent throws the slot error. One at depth 0 throws the depth error. One in slot `q` at depth `d` grows into `q` by `d` |
| QuadTrees.StandardGrowth | src/IFoxCAD.Cad/QuadTree/QuadTree.cs:111-141 | when the node insertion splits the new root once, the growth step never throws: the old root goes, one level down, into the quadrant opposite the growth direction |
| QuadTrees.StandardStepGrows | src/IFoxCAD.Cad/QuadTree/QuadTree.cs:111-141 | under the standard node insertion every growth step of a root with area grows |
| QuadTrees.Accepted | src/IFoxCAD.Cad/QuadTree/QuadTree.cs:159-179 | the entities a batch stored are at most as many as the insertions made |
| QuadTrees.AllAccepted | src/IFoxCAD.Cad/QuadTree/QuadTree.cs:159-179 | when every insertion so far stored its entity, the stored entities are the batch order so far |
| QuadTrees.WholeBatch | src/IFoxCAD.Cad/QuadTree/QuadTree.cs:159-179 | a batch whose every insertion stored its entity stores, as a multiset, exactly the entities of the batch |
| QuadTrees.Reparented | src/IFoxCAD.Cad/QuadTree/QuadTree.cs:121-122 | writing the old root's parent keeps the arena that the node insertion produced; `ReparentedKeeps` states what it changes |
| QuadTrees.Rewired | src/IFoxCAD.Cad/QuadTree/QuadTree.cs:126-133 | writing the slot keeps the arena that the node insertion produced; `RewiredKeeps` states what it changes |
| QuadTrees.SlotsOfNewRoot | src/IFoxCAD.Cad/QuadTree/QuadTree.cs:126-135 | a slot of the new root holds a node equal to the old root iff the node insertion linked the returned node there |
| QuadTrees.ReparentedKeeps | src/IFoxCAD.Cad/QuadTree/QuadTree.cs:121-124 | setting the old root's parent keeps the arena acyclic and the old tree, its traversal and its contents, and changes the old root only in its parent |
| QuadTrees.RewiredKeeps | src/IFoxCAD.Cad/QuadTree/QuadTree.cs:121-133 | after the rewiring, the old tree keeps its traversal and contents; the new root has the grown bound, depth 0, no parent and the old root as its only child; the old root's parent is the new root; no other old node changes |
| QuadTrees.GrowKeeps | src/IFoxCAD.Cad/QuadTree/QuadTree.cs:111-149 | every growth step keeps the tree and what it stores; a step that grows makes the new root the root and traverses it before the old tree; any other step leaves the root and its traversal as they were |
| QuadTrees.GrowMoves | src/IFoxCAD.Cad/QuadTree/QuadTree.cs:139-149 | a growth step changes no node of the old tree except that it adds the step's depth to every depth when it grows and makes the new root the old root's parent |
| QuadTrees.GrowResult | src/IFoxCAD.Cad/QuadTree/QuadTree.cs:111-149 | a growth step always leaves the new records in the arena; the root changes, to the new root, iff the step grows, and otherwise stays the old root |
| QuadTrees.GrowArena | src/IFoxCAD.Cad/QuadTree/QuadTree.cs:111-149 | the arena work of a growth step, with its checks in the source's order, ends as `Predict` says and leaves the arena and root that `GrowResult` gives |
| QuadTrees.QuadTree.constructor | src/IFoxCAD.Cad/QuadTree/QuadTree.cs:50-53 | a new tree is valid, its root has bound `rect`, depth 0, no parent and no children, and it stores nothing |
| QuadTrees.QuadTree.Count | src/IFoxCAD.Cad/QuadTree/QuadTree.cs:41 | `Count` is the root's `CountSubTree`, which is the number of stored entities |
| QuadTrees.QuadTree.GrowStep | src/IFoxCAD.Cad/QuadTree/QuadTree.cs:73-149 | one pass of the growth loop grows the bound toward the entity, ends as `Predict` says and leaves the arena and root that `GrowResult` gives; it issues no insert of its own |
| QuadTrees.QuadTree.Insert | src/IFoxCAD.Cad/QuadTree/QuadTree.cs:61-153 | the root only grows: the new root contains the old root and keeps its area. An insert that stores its entity has a root containing it and adds exactly one copy to what is stored. An insert that stops or throws leaves the stored entities unchanged. Under the standard node insertion the insert always stores. The trace of issued inserts grows by `ent` |
| QuadTrees.QuadTree.InsertAll | src/IFoxCAD.Cad/QuadTree/QuadTree.cs:159-179 | the batch issues its single inserts in the batch order (the non-points in list order, then the points in list order): the trace of issued inserts grows by exactly `BatchOrder(ents)[..|outcomes|]`. Only the last insertion may have thrown, and the batch stops there. The tree stores its old entities plus the accepted ones. Under the standard node insertion every entity is stored exactly once |
| QuadTrees.QuadTree.InsertNext | src/IFoxCAD.Cad/QuadTree/QuadTree.cs:175-178 | one insertion of the batch issues exactly one insert, of the next entity of the batch order, keeps the tree valid and records what it stored; only it can be the throwing one |
| QuadTrees.QuadTree.SkipPoint | src/IFoxCAD.Cad/QuadTree/QuadTree.cs:169-172 | passing over a point in the first loop records its index after those of the earlier points and inserts nothing |
| QuadTrees.QuadTree.InsertShape | src/IFoxCAD.Cad/QuadTree/QuadTree.cs:169-175 | the insertion of a non-point in the first loop issues that entity, the next one of the batch order; if it throws, the pass stops with only it having thrown, and otherwise the loop state holds for the next index |
| QuadTrees.QuadTree.InsertPoint | src/IFoxCAD.Cad/QuadTree/QuadTree.cs:177-178 | the insertion of the `j`-th point issues the entity of the batch order right after the non-points and the earlier points; unless it throws, the loop state holds for `j + 1` |
| QuadTrees.QuadTree.InsertShapes | src/IFoxCAD.Cad/QuadTree/QuadTree.cs:166-176 | the first loop issues the inserts of the non-points in list order, so the trace grows by the first `|outcomes|` entities of the batch order, and it stops at the first exception; when it does not stop, `pointEntityNum` holds the indices of the points, in order |
| QuadTrees.QuadTree.InsertPoints | src/IFoxCAD.Cad/QuadTree/QuadTree.cs:177-178 | the second loop issues the inserts of `ents[pointEntityNum[i]]` in order after the non-points, so a trace that is `trace0` plus the non-points becomes `trace0` plus the first `|outcomes|` entities of the batch order; it stops at the first exception |
| QuadTrees.QuadTree.Query | src/IFoxCAD.Cad/QuadTree/QuadTree.cs:186-192 | starting from an empty result list, the query returns exactly the stored entities that `rect` selects under `mode`, in traversal order; `mode` is `IntersectsWith` unless given |
| QuadTrees.QuadTree.RemoveRegion | src/IFoxCAD.Cad/QuadTree/QuadTree.cs:198-201 | `Remove(rect)` keeps the tree's nodes and drops exactly the stored entities that the region selects |
| QuadTrees.QuadTree.Remove | src/IFoxCAD.Cad/QuadTree/QuadTree.cs:207-210 | `Remove(ent)` keeps the tree's nodes and takes away one copy of a stored entity, or changes nothing when it is absent |
| QuadTrees.QuadTree.ForEach | src/IFoxCAD.Cad/QuadTree/QuadTree.cs:235-238 | the callback runs over the tree's nodes in traversal order; the tree keeps its root, its shape and what it stores |
| Graphs.Reversed | src/IFoxCAD.Cad/Algorithms/Graph.cs:85-86 | the reversed curve runs from the end point to the start point and differs from the original |
| Graphs.ReversedTwice | src/IFoxCAD.Cad/Algorithms/Graph.cs:85-86 | reversing twice gives back the curve |
| Graphs.VertexEquals | src/IFoxCAD.Cad/Algorithms/Graph.cs:317-320 | vertices are equal iff their indices are; equal vertices hash alike |
| Graphs.HashCode | src/IFoxCAD.Cad/Algorithms/Graph.cs:330-333 | definition: the hash of a vertex is its index; `VertexEquals` and `VertexOrderLaws` show it agrees with equality |
| Graphs.EqualsObject | src/IFoxCAD.Cad/Algorithms/Graph.cs:321-329 | `Equals(object)` is false for null and non-vertices, and holds exactly when `CompareTo(object)` returns 0 |
| Graphs.CompareTo | src/IFoxCAD.Cad/Algorithms/Graph.cs:334-343 | `CompareTo` returns -1, 0 or 1; 0 iff the indices are equal, negative iff the index is smaller |
| Graphs.VertexOrderLaws | src/IFoxCAD.Cad/Algorithms/Graph.cs:317-343 | equal vertices hash alike; `CompareTo` is antisymmetric and transitive; equality is transitive |
| Graphs.CompareToObject | src/IFoxCAD.Cad/Algorithms/Graph.cs:350-364 | `CompareTo(object)` gives 1 for null and throws for a non-vertex; for a vertex it gives 0 iff the vertices are equal |
| Graphs.EmptyGraph | src/IFoxCAD.Cad/Algorithms/Graph.cs:28-31 | the empty graph with its counter at 0 satisfies the graph invariant |
| Graphs.Find | src/IFoxCAD.Cad/Algorithms/Graph.cs:38-50 | a vertex found for `pt` holds `pt`, and finding none means no vertex holds it |
| Graphs.AddVertexLemma | src/IFoxCAD.Cad/Algorithms/Graph.cs:59-69 | `AddVertex(pt)` keeps the invariant and returns a vertex holding `pt`; when one exists nothing changes; otherwise exactly one vertex is added, under the counter's index, with empty adjacency and edge sets, and the counter goes up by one |
| Graphs.LinkLemma | src/IFoxCAD.Cad/Algorithms/Graph.cs:80-90 | linking two vertices keeps the invariant and adds `end` to `adj[start]`, `start` to `adj[end]`, an edge carrying the curve to `edges[start]` and an edge carrying the reversed curve to `edges[end]` |
| Graphs.AddEdgeLemma | src/IFoxCAD.Cad/Algorithms/Graph.cs:75-91 | after `AddEdge(c)` the invariant holds; both end points are vertices, adjacent to each other, with the edge and its reverse recorded; nothing earlier is lost |
| Graphs.RemoveVertexLemma | src/IFoxCAD.Cad/Algorithms/Graph.cs:99-125 | after `RemoveVertex(pt)` the invariant holds (no adjacency set or edge refers to the removed vertex); no vertex holds `pt`; every other vertex stays; nothing changes when `pt` is absent |
| Graphs.RemoveEdgeLemma | src/IFoxCAD.Cad/Algorithms/Graph.cs:131-135 | `RemoveEdge(c)` removes both end-point vertices entirely and keeps all others |
| Graphs.HasEdgeIsAdjacency | src/IFoxCAD.Cad/Algorithms/Graph.cs:145-159 | between vertices, having an edge is being adjacent, and it goes both ways |
| Graphs.Next | src/IFoxCAD.Cad/Algorithms/Graph.cs:224-238 | the pair after position `i` of the closed path is `i + 1`, and after the last position it is the first |
| Graphs.CollectedTake | src/IFoxCAD.Cad/Algorithms/Graph.cs:228-231 | a pair with an edge contributes that edge's curve next |
| Graphs.CollectedSkip | src/IFoxCAD.Cad/Algorithms/Graph.cs:228-231 | a pair without an edge contributes nothing |
| Graphs.IncreasingBound | src/IFoxCAD.Cad/Algorithms/Graph.cs:221-240 | the contributing pair positions, strictly increasing and below the list length, number at most that length |
| Graphs.CollectedBound | src/IFoxCAD.Cad/Algorithms/Graph.cs:221-240 | each pair contributes at most one curve, so the curves gathered from the first `bound` pairs are at most `bound` |
| Graphs.WithoutAdjacency | src/IFoxCAD.Cad/Algorithms/Graph.cs:103-109 | the adjacency table loses the vertex, and every remaining set loses it |
| Graphs.WithoutEdgesTo | src/IFoxCAD.Cad/Algorithms/Graph.cs:111-123 | the edge table loses the vertex, and every remaining edge set loses the edges leading to it |
| Graphs.Graph.constructor | src/IFoxCAD.Cad/Algorithms/Graph.cs:28-31 | a new graph is empty and its counter is 0 |
| Graphs.Graph.ContainKeyData | src/IFoxCAD.Cad/Algorithms/Graph.cs:38-50 | the scan finds a vertex iff some vertex holds `pt`, and returns that vertex |
| Graphs.Graph.AddVertex | src/IFoxCAD.Cad/Algorithms/Graph.cs:59-69 | the new state and the returned vertex are those `AddVertexLemma` describes |
| Graphs.Graph.AddEdge | src/IFoxCAD.Cad/Algorithms/Graph.cs:75-91 | the new state is the one `AddEdgeLemma` describes |
| Graphs.Graph.Connect | src/IFoxCAD.Cad/Algorithms/Graph.cs:80-90 | the four table updates of `AddEdge` link the two vertices as `LinkLemma` describes |
| Graphs.Graph.RemoveVertex | src/IFoxCAD.Cad/Algorithms/Graph.cs:99-125 | the new state is the one `RemoveVertexLemma` describes |
| Graphs.Graph.RemoveEdge | src/IFoxCAD.Cad/Algorithms/Graph.cs:131-135 | the new state is the one `RemoveEdgeLemma` describes |
| Graphs.Graph.HasEdge | src/IFoxCAD.Cad/Algorithms/Graph.cs:145-159 | throws iff either vertex is absent; otherwise true iff an edge of `source` leads to `dest` |
| Graphs.Graph.GetEdge | src/IFoxCAD.Cad/Algorithms/Graph.cs:168-182 | throws iff either vertex is absent; otherwise an edge of `source` to `dest`, or null iff there is none |
| Graphs.Graph.GetCurves | src/IFoxCAD.Cad/Algorithms/Graph.cs:221-240 | it throws for an empty list or for a vertex outside the graph. Otherwise each returned curve is the curve of an edge of one pair of consecutive vertices (the last pair closes the path), in the order of the pairs; every pair not represented has no edge; so the result is never longer than the list |
| Cycles.MinPos | src/IFoxCAD.Cad/Algorithms/Graph.cs:499 | `lst.IndexOf(lst.Min())`: the first position holding the smallest index |
| Cycles.Rotated | src/IFoxCAD.Cad/Algorithms/Graph.cs:500 | `Skip(k).Concat(Take(k))` is the rotation that moves element `(i + k) mod n` to `i`, and keeps the elements |
| Cycles.RotateToSmallest | src/IFoxCAD.Cad/Algorithms/Graph.cs:497-501 | the result is a rotation of the input, keeps its elements, and starts at a vertex whose index is smallest |
| Cycles.Reverse | src/IFoxCAD.Cad/Algorithms/Graph.cs:509-510 | element `i` of the reversal is element `n - 1 - i` of the list |
| Cycles.Invert | src/IFoxCAD.Cad/Algorithms/Graph.cs:507-512 | the inversion is as long as the list, is a rotation of its reversal, and starts at a vertex whose index is smallest |
| Cycles.RotatedCycle | src/IFoxCAD.Cad/Algorithms/Graph.cs:497-501 | a rotation keeps a cycle's vertices, their distinctness and its cyclic adjacency |
| Cycles.ReversedCycle | src/IFoxCAD.Cad/Algorithms/Graph.cs:507-512 | a reversal keeps a cycle's vertices, their distinctness and (adjacency being symmetric) its cyclic adjacency |
| Cycles.CanonicalCycle | src/IFoxCAD.Cad/Algorithms/Graph.cs:482 | rotating a closed path of three or more distinct vertices to its smallest vertex gives a well-formed cycle |
| Cycles.ClosedPath | src/IFoxCAD.Cad/Algorithms/Graph.cs:479 | a search path whose newest vertex is adjacent to its oldest is cyclically adjacent |
| Cycles.ClosedPathCycles | src/IFoxCAD.Cad/Algorithms/Graph.cs:479-483 | both `cur` and `inv` of a closed search path are well-formed cycles |
| Cycles.DistinctBound | src/IFoxCAD.Cad/Algorithms/Graph.cs:460-490 | a path of vertices with distinct indices, drawn from a set of keys, is no longer than that set |
| Cycles.ExtendPath | src/IFoxCAD.Cad/Algorithms/Graph.cs:471-476 | prepending an unvisited neighbour of the newest vertex gives a longer path, shorter than the vertex count, so the recursion ends |
| Cycles.SameCycleIsEquality | src/IFoxCAD.Cad/Algorithms/Graph.cs:519-527 | for vertex lists of one graph, the list comparison is plain equality |
| Cycles.SameCycle | src/IFoxCAD.Cad/Algorithms/Graph.cs:519-527 | definition: the first elements are the same, the lengths are equal and every later element is equal by index; `SameCycleIsEquality` reduces it to equality |
| Cycles.ListEquals | src/IFoxCAD.Cad/Algorithms/Graph.cs:519-527 | the loop returns true iff the first elements, the lengths and every later element by index are equal |
| Cycles.DepthFirst.constructor | src/IFoxCAD.Cad/Algorithms/Graph.cs:441 | a search starts with no recorded cycles |
| Cycles.DepthFirst.IsNew | src/IFoxCAD.Cad/Algorithms/Graph.cs:534-544 | true iff no recorded cycle compares equal to `path` |
| Cycles.DepthFirst.FindAll | src/IFoxCAD.Cad/Algorithms/Graph.cs:447-453 | searching from every vertex finds every simple cycle of the graph (three or more distinct, cyclically adjacent vertices): some recorded cycle is its rotation to the smallest vertex, or that rotation inverted. It only appends cycles, each well-formed: at least 3 distinct vertices of the graph, cyclically adjacent, starting at the smallest index. No two recorded cycles are equal or reversals of each other |
| Cycles.DepthFirst.Dfs | src/IFoxCAD.Cad/Algorithms/Graph.cs:460-490 | one recursive search finds every simple cycle that ends with the path `visited`; it only appends well-formed cycles and keeps the recorded cycles distinct |
| Cycles.DepthFirst.Visit | src/IFoxCAD.Cad/Algorithms/Graph.cs:466-489 | one pass of the loop over the neighbours of `visited[0]`: afterwards every simple cycle that ends with `visited` and continues back through that neighbour is found; recorded cycles stay distinct and well-formed, and earlier ones are kept |
| Cycles.DepthFirst.Record | src/IFoxCAD.Cad/Algorithms/Graph.cs:479-488 | the closing branch appends the rotated cycle iff neither it nor its inversion matches a recorded cycle, and otherwise leaves the list unchanged; either way the closed path is then found |
| Cycles.RecordKeepsDistinct | src/IFoxCAD.Cad/Algorithms/Graph.cs:484-487 | appending a cycle accepted by both `IsNew` checks keeps the recorded cycles distinct |
| Cycles.DistinctCyclesDiffer | src/IFoxCAD.Cad/Algorithms/Graph.cs:484-487 | two recorded cycles of one graph are different sequences, and neither is the inversion of the other |
| Cycles.RecordFinds | src/IFoxCAD.Cad/Algorithms/Graph.cs:482-487 | after the closing branch, the path just closed is found among the recorded cycles |
| Cycles.FoundGrows | src/IFoxCAD.Cad/Algorithms/Graph.cs:447-490 | a cycle found stays found when more cycles are recorded |
| Cycles.CoveredGrows | src/IFoxCAD.Cad/Algorithms/Graph.cs:466-489 | the neighbours already handled stay handled when more cycles are recorded |
| Cycles.CoveredDescend | src/IFoxCAD.Cad/Algorithms/Graph.cs:471-476 | searching on from an unvisited neighbour finds every cycle that continues the path through it |
| Cycles.CoveredClose | src/IFoxCAD.Cad/Algorithms/Graph.cs:479-488 | reaching the oldest vertex of a path of three or more finds the one cycle that continues the path through it: the path itself |
| Cycles.CoveredSkip | src/IFoxCAD.Cad/Algorithms/Graph.cs:468-489 | a neighbour already on the path, other than the closing vertex, continues no simple cycle, so skipping it loses none |
| Cycles.CoveredAll | src/IFoxCAD.Cad/Algorithms/Graph.cs:466-489 | once every neighbour of the newest vertex is handled, every simple cycle ending with the path is found |
| Cycles.FromVertex | src/IFoxCAD.Cad/Algorithms/Graph.cs:449-452 | the search from `item` finds every simple cycle whose last vertex is `item` |
| Cycles.FoundFromGrows | src/IFoxCAD.Cad/Algorithms/Graph.cs:449-452 | the cycles found from earlier start vertices stay found when later searches record more |
| CollectionEx.RunAppend | src/IFoxCAD.Cad.Shared/ExtensionMethod/CollectionEx.cs:87-88 | running the callback over `a + b` is running it over `a`, then over `b` |
| CollectionEx.RunRecords | src/IFoxCAD.Cad.Shared/ExtensionMethod/CollectionEx.cs:87-88 | a callback that logs its argument sees every element once, in order |
| CollectionEx.Indexed | src/IFoxCAD.Cad.Shared/ExtensionMethod/CollectionEx.cs:102-107 | each element comes paired with its position `i`, for `i` from 0 to n-1 |
| CollectionEx.ForEach | src/IFoxCAD.Cad.Shared/ExtensionMethod/CollectionEx.cs:82-89 | a null action throws `ArgumentNullException` before any call; otherwise the action runs once per element, in order |
| CollectionEx.ForEachIndexed | src/IFoxCAD.Cad.Shared/ExtensionMethod/CollectionEx.cs:97-108 | a null action throws; otherwise the action runs on `(0, x0)`, `(1, x1)`, … in order |
| CollectionEx.RunUntilStopMeaning | src/IFoxCAD.Cad.Shared/ExtensionMethod/CollectionEx.cs:116-130 | the breakable loop calls the action on the elements `0..k-1` with consecutive indices; every call but the last leaves `IsRun` true; it stops right after the first call that leaves `IsRun` false, or at the end |
| CollectionEx.ForEachBreakable | src/IFoxCAD.Cad.Shared/ExtensionMethod/CollectionEx.cs:116-130 | a null action throws; otherwise the loop runs as `RunUntilStop` describes |
| CollectionEx.ScanFor | src/IFoxCAD.Cad.Shared/ExtensionMethod/CollectionEx.cs:151-167 | one branch's scan returns true iff some keyword's chosen field equals `name` |
| CollectionEx.Contains | src/IFoxCAD.Cad.Shared/ExtensionMethod/CollectionEx.cs:148-203 | true iff some keyword's field chosen by `keywordName` (GlobalName by default) equals `name`; false for any other enumeration value |
| CollectionEx.AddAll | src/IFoxCAD.Cad.Shared/ExtensionMethod/CollectionEx.cs:213-221 | successive `Dictionary.Add` calls throw iff some key repeats; otherwise the dictionary maps exactly the keys given, each to its value |
| CollectionEx.GlobalToDisplay | src/IFoxCAD.Cad.Shared/ExtensionMethod/CollectionEx.cs:214-221 | one (GlobalName, DisplayName) pair per keyword, in order |
| CollectionEx.GetDict | src/IFoxCAD.Cad.Shared/ExtensionMethod/CollectionEx.cs:211-224 | throws iff two keywords share a GlobalName; otherwise maps each GlobalName, and nothing else, to its DisplayName |
| CollectionEx.KeysOf | src/IFoxCAD.Cad.Shared/ExtensionMethod/CollectionEx.cs:234-240 | one key per entry, in mapping order |
| CollectionEx.ValuesOf | src/IFoxCAD.Cad.Shared/ExtensionMethod/CollectionEx.cs:247-253 | one value per entry, in mapping order |
| CollectionEx.KeysValuesRebuild | src/IFoxCAD.Cad.Shared/ExtensionMethod/CollectionEx.cs:234-253 | keys and values, zipped by position, give back the mapping |
| CollectionEx.GetKeys | src/IFoxCAD.Cad.Shared/ExtensionMethod/CollectionEx.cs:234-240 | the loop returns the keys of the mapping |
| CollectionEx.GetValues | src/IFoxCAD.Cad.Shared/ExtensionMethod/CollectionEx.cs:247-253 | the loop returns the values of the mapping |
| CollectionEx.Entries | src/IFoxCAD.Cad.Shared/ExtensionMethod/CollectionEx.cs:263-264 | one (key, value) pair per entry, in order |
| CollectionEx.ToDictionary | src/IFoxCAD.Cad.Shared/ExtensionMethod/CollectionEx.cs:260-266 | throws iff some key repeats; otherwise maps exactly the keys of the mapping, each to its value |
| CollectionEx.ToList | src/IFoxCAD.Cad.Shared/ExtensionMethod/CollectionEx.cs:70-73 | the same ids, as many, in the same order |
| ResultData.InsertRange | src/IFoxCAD.Cad/ResultData/LispDottedPair.cs:48 | `InsertRange(index, items)` splices `items` in before `index` and keeps everything else in order |
| ResultData.Framed | src/IFoxCAD.Cad/ResultData/LispDottedPair.cs:43-49 | the built list has two more values than stored: ListBegin first, DottedPair last, the stored values in order in between |
| ResultData.Unframed | src/IFoxCAD.Cad/ResultData/LispDottedPair.cs:43-49 | a list can be unframed iff it has both markers at its ends |
| ResultData.UnframedFramed | src/IFoxCAD.Cad/ResultData/LispDottedPair.cs:43-49 | unframing the built list gives back exactly the stored values |
| ResultData.FramedUnframed | src/IFoxCAD.Cad/ResultData/LispDottedPair.cs:43-49 | every list with both markers is the one built from what lies between them |
| ResultData.FramedPair | src/IFoxCAD.Cad/ResultData/LispDottedPair.cs:31-48 | for a pair built from `left` and `right`, `Value` is `[ListBegin, left, right, DottedPair]` |
| ResultData.LispDottedPair.Empty | src/IFoxCAD.Cad/ResultData/LispDottedPair.cs:16-18 | the parameterless constructor holds no values |
| ResultData.LispDottedPair.constructor | src/IFoxCAD.Cad/ResultData/LispDottedPair.cs:31-35 | the two-value constructor stores exactly `[left, right]`, in that order |
| ResultData.LispDottedPair.Add | src/IFoxCAD.Cad/ResultData/LispDottedPair.cs:33-34 | `Add` appends one value |
| ResultData.LispDottedPair.Value | src/IFoxCAD.Cad/ResultData/LispDottedPair.cs:41-50 | `Value` returns a fresh list with two more values than stored: ListBegin first, then the stored values in order, then DottedPair. It unframes back to the stored values and changes nothing |

## Left out

- `QuadTreeNode.cs` and `Rect.cs` are not part of this model. The node is an
  arena record with bound, depth, parent, four child slots and a bucket.
  What `newRoot.Insert(oldRoot)` returns is the parameter `place`.
  `Contains`, `CountSubTree`, `Query`, `Remove` and `ForEach` of the node are
  given the plain meanings their names suggest.
- Nodes.Node.Equals: node equality is equality of bounds, not reference
  identity. The node class is not part of this model, and the message thrown
  when `insert.Equals(_rootNode)` fails (`QuadTree.cs:119`) speaks of the two
  nodes' sizes not matching, so equality is taken to compare bounds.
- Nodes.NewRootInsert: the node insertion `newRoot.Insert(oldRoot)`
  (`QuadTree.cs:115`) is taken to create at most the one node it returns, as a
  direct child of the new root or detached, and to give the new root no other
  children. In the source `insert.Parent` (`QuadTree.cs:121`) may be any node
  that insertion built, the slot rewired (`QuadTree.cs:126-133`) is that node's,
  and the new root may carry sibling quadrants that the later `ForEach` would
  visit. The restriction rests on `GrowKeepsOldQuadrant`: the old bound is
  exactly one quadrant of the new bound, so one level of descent reaches it.
  `RewiredKeeps` ("the old root as its only child"), `GrowKeeps` ("traverses it
  before the old tree") and `GrowMoves` ("makes the new root the old root's
  parent") hold under this restriction only.
- Nodes.InsertEntity: a contained entity goes into the root's own bucket. How
  the node descends into sub-quadrants or splits is in `QuadTreeNode.cs`, so the
  contracts speak of the stored multiset and not of the node that ends up
  holding the entity.
- Nodes.CountSubTree: counts the stored entities. The field's declaration is not
  visible, and the comment at `QuadTree.cs:39-40` calls it a node count.
- `FindNeibor` and `FindNearEntity` are not modelled. They only delegate to node
  search algorithms that are not part of this model.
- The global `QuadTreeEvn.SelectMode` that `Query` sets becomes the explicit
  `mode` parameter of queries and region removal.
- Coordinates are exact integers, so floating-point rounding of the growth
  arithmetic is not modelled.
- QuadTrees.QuadTree.Insert: requires a root with positive width and height, or
  one that already contains the entity; QuadTrees.QuadTree.InsertAll requires the
  same of every entity through `Fits`. Growth doubles each side, so a side of
  length zero stays zero. The source's loop therefore never ends when the entity
  lies outside the root along an axis of zero length. When it lies outside only
  along an axis of positive length, the loop does end: the root (0,0)-(0,1) and
  the point (0,5) grow to (0,0)-(0,8), which contains the point. The `requires`
  excludes these terminating degenerate inputs too, because the termination
  measure `Excess` (`GrowProgress`) decreases only for a root with area.
- Node references become handles into the arena. The nodes the source leaves to
  the garbage collector stay in the arena, unreachable from the root.
- A `ForEach` callback may change a node's bound, depth and parent, but not its
  children or bucket; `Visited` makes that explicit.
- Exceptions become a `Failed` outcome, or a `Failure` result, naming which
  check threw.
- QuadTrees.QuadTree.InsertAll: the sequence of outcomes it returns is a model
  addition. The source returns nothing and stops at the first exception, which is
  where the model stops too.
- `Graph.Clone`, `ToReadable`, `ContainsVertex`, `GetAdjacencyList`,
  `GetAdjacencyEdge`, `VerticesCount` and the enumerators are not modelled. They
  are plain table reads or string building.
- Graphs.Graph.HasEdge: the source compares the edge's target with `dest` by
  reference (`Graph.cs:153`); the model compares vertices by value. A caller's
  separately built vertex with an existing index and point gets `true` here
  where the source gives `false`.
- Graphs.Graph.GetEdge: the same reference comparison (`Graph.cs:176`) is
  modelled by value, so such a vertex gets an edge where the source gives null.
- Cycles.SameCycle: the first elements are compared by reference
  (`Graph.cs:521`); the model compares them by value. For vertices of one graph
  the two agree, since the graph holds one object per index.
- Graphs.Graph.AddEdge: a `GraphEdge` equals another only when its vertex and
  its curve are the same objects (`Graph.cs:402-403`), and the reversed curve is
  a fresh clone each time (`Graph.cs:85-86`). Adding the same curve twice thus
  gives the end vertex two edges in the source and one in the model, whose edge
  sets hold values.
- Graphs.Graph.AddEdge and Graphs.Graph.RemoveEdge: the `curve!!` null checks
  (`Graph.cs:75`, `Graph.cs:131`) are not modelled; curves are values and are
  never null.
- The trace `issued` of a `QuadTree` is ghost state added to state the order of
  a batch's single inserts; the source keeps no such list.
- Graphs.Graph.constructor: the counter `insertCount` is static in the source
  and shared by every graph; the model keeps one counter per graph.
- Graphs.WithoutEdgesTo: `RemoveVertex` removes edges from a `HashSet` while
  enumerating it (`Graph.cs:114-122`), which .NET versions that track
  modification during enumeration reject with an exception. The model gives the intended result: no edge leads to the removed
  vertex.
- Enumeration order of hash sets and dictionaries is unspecified. The model
  picks an arbitrary next element (`Wrappers.Pick`), and every contract holds
  for any order.
- `Point3d` equality is exact, and `Curve3d` reversal is an uninterpreted
  reversal of a curve value. AutoCAD tolerances are not modelled.
- The `ToCollection` overloads of `CollectionEx` are not modelled. They only
  construct host types.
- Callbacks of `CollectionEx.ForEach` are functions from the state of the world
  before a call to the state after it. A callback that throws is not modelled.
