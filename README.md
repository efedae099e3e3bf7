# Contour tree of a scalar field on a mesh

This project models the contour-tree pipeline of `contour_tree.js` and proves properties of it.
The pipeline takes a mesh, given as the neighbours of each vertex, and one integer value per vertex.

1. It sweeps the vertices from the highest value down, building the **join tree**. A union-find (`DisjointSet`) tracks the connected components of the vertices swept so far. A boundary map names the vertex of each component that was swept last. Each new vertex becomes a child of the boundaries of its neighbours' components.
2. It sweeps from the lowest value up in the same way, building the **split tree**.
3. It classifies the vertices of both trees as significant: roots, leaves, merges and splits.
4. It condenses each tree onto the vertices significant in either tree (`gen_sigtree`).
5. It prunes the two condensed trees into the **contour tree** (`prune_algorithm`). A queue holds the contour-tree leaves. Each leaf gets its contour arc, from its join-tree child or to its split-tree child. The leaf is then spliced out of both trees with `reduce_vert`.

Modules, one per file:

- `Wrappers`: `Option`, `Outcome` and the error kinds. Each error kind stands for one of the source's `throw`s or crashes.
- `Graphs`: a tree as a map from vertex to node. A node holds a value, a parent set and a child set. The module also defines mirrored parent/child sets, `Connect`, splicing out (`Reduced`), paths and reachability, and the descending height that shows a graph has no cycle.
- `Condense`: the specification of the condensation. `SigStep(g, sig, u, w)` holds when `w` is significant and `u` leads to it without passing another significant vertex.
- `Meshes`: connectivity of the swept part of the mesh, and the boundary of a component (`IsLastAt`).
- `Orders`: the stable sort of the vertices by value and the two sweep orders.
- `DisjointSets`: the `DisjointSet` class, with path compression and union by rank.
- `Trees`: the `Tree` class, whose methods reassign the `nodes` map.
- `Sweeps`: `sweep_algorithm`. The exact merge tree it builds is stated by `SweepTree`.
- `Prunes`: `prune_algorithm`.
- `ContourTrees`: `compute_contour_tree` and the end-to-end theorem.

The end-to-end theorem is `ComputeContourTree`'s contract:

- The contour-tree nodes are exactly the vertices significant in the join tree or in the split tree. Each is a mesh vertex carrying its own value.
- Every local maximum and every local minimum of the field is a node.
- Every arc runs from a vertex to one that sorts strictly below it. The order is by value, with ties broken by index.
- Every arc follows a descending path of the condensed join tree or an ascending path of the condensed split tree (`Prunes.Follows`). The two condensations are stated exactly by `Condense.Condensation`, from the two sweep trees stated exactly by `Sweeps.SweepTree`.

## Model

| member | source | states |
|---|---|---|
| DisjointSets.DisjointSet.constructor | contour_tree.js:3-6 | A new union-find has no labels. |
| DisjointSets.DisjointSet.MakeSet | contour_tree.js:8-12 | A fresh label becomes its own parent with rank 0. It is its own representative. Every other label keeps its representative. |
| DisjointSets.FreshLabelKeepsRoot | contour_tree.js:8-12 | Registering a new label keeps the forest ranked. It changes no other label's representative. |
| DisjointSets.DisjointSet.Find | contour_tree.js:30-43 | Returns None exactly for a label that was never registered, and changes nothing then. Otherwise it returns the label's representative, and the parent map becomes `Compress` of the old one: the path is compressed. Ranks are unchanged and every representative is kept. |
| DisjointSets.CompressRepointsPath | contour_tree.js:36-39 | Path compression keeps the labels. Every label on the path from `name` to its representative now points straight at it. Every other label keeps its old parent. |
| DisjointSets.PathSharesRoot | contour_tree.js:36-42 | Every label on a path to a representative has that same representative, so a compressed label points at its own root. |
| DisjointSets.CompressPreservesRoots | contour_tree.js:36-39 | Pointing a label straight at its root keeps the forest ranked. It keeps every label's representative. |
| DisjointSets.DisjointSet.Link | contour_tree.js:50-61 | The parent and rank maps become `LinkedParent` and `LinkedRank`. The lower-ranked root goes under the higher one. On a tie, `a` goes under `b` and `b`'s rank rises by one, also when `a == b`. Exactly the two components merge. |
| DisjointSets.LinkMergesComponents | contour_tree.js:50-61 | Linking two roots keeps every parent strictly higher in rank. Each label in either component gets the surviving root as representative. Every other label keeps its own. |
| DisjointSets.DisjointSet.Union | contour_tree.js:14-16 | Afterwards `a` and `b` share a representative, which is one of their old ones. Exactly the labels of their two components move to it. |
| Trees.Tree.constructor | contour_tree.js:75-77 | A new tree has no nodes. |
| Trees.Tree.AddNode | contour_tree.js:190-202 | Returns true and adds a parentless, childless node exactly when the vertex had none. Otherwise it returns false and the tree is unchanged. |
| Trees.Tree.ConnectNodes | contour_tree.js:204-214 | Fails, changing nothing, exactly when an endpoint has no node. Otherwise the graph becomes `Connect(old, p, c)`, and parent and child sets stay mirrored. |
| Graphs.Connect | contour_tree.js:212-213 | Adds `p` to the parents of `c` and `c` to the children of `p`. It changes nothing else and keeps a well-formed graph well-formed. |
| Graphs.ConnectEdges | contour_tree.js:212-213 | After connecting, an edge is present exactly when it was before or is the new one. |
| Graphs.ConnectIdempotent | contour_tree.js:212-213 | Connecting the same pair twice equals connecting it once, because the sets deduplicate. |
| Trees.Tree.Degree | contour_tree.js:186-188 | The number of parents. It is zero exactly when no node lists the vertex as a child. |
| Graphs.ParentsAreIncoming | contour_tree.js:186-188 | In a well-formed tree a vertex has no parent exactly when no node lists it as a child, so degree 0 means a root. |
| Trees.Tree.IsRoot | contour_tree.js:175-177 | Holds exactly when no edge enters the vertex. |
| Trees.Tree.GetChildren | contour_tree.js:216-218 | Exactly the vertices whose parent set holds the given vertex. |
| Trees.Tree.ComputeSignificants | contour_tree.js:87-113 | `sig` holds exactly the vertices that are roots, leaves, merges or splits. `roots` holds exactly the parentless vertices, and roots ⊆ sig ⊆ vertices. |
| Graphs.NotSignificantIsChainLink | contour_tree.js:92-110 | A vertex that is not significant has exactly one parent and one child. |
| Trees.Tree.ReduceVert | contour_tree.js:228-255 | Fails, changing nothing, exactly when the vertex has no node or has more than one parent. Otherwise the graph becomes `Reduced(old, v)`: the vertex is gone, and its children and parent adopt each other in its place. Nothing else changes and the graph stays well formed. |
| Trees.SwapParent | contour_tree.js:236-243 | Every child of the vertex has the vertex replaced by the vertex's parents. Every other node is unchanged. |
| Trees.SwapChild | contour_tree.js:245-251 | Every parent of the vertex has the vertex replaced by the vertex's children. Every other node is unchanged. |
| Trees.SplicedIsReduced | contour_tree.js:236-254 | The two passes, followed by removing the node, build exactly `Reduced`. |
| Graphs.ReducedWf | contour_tree.js:228-255 | Splicing out a vertex that is not its own child keeps the sets mirrored and closed, and keeps any descending height. |
| Graphs.ReducedKeepsReach | contour_tree.js:228-255 | Splicing out a vertex keeps reachability between every two other vertices, in both directions. |
| Trees.Tree.WalkToNextSig | contour_tree.js:123-138 | Returns exactly the significant vertices that `u` leads to through non-significant vertices (`NextSigs`). The walk keeps no visited set and ends because heights drop along edges. |
| Condense.ChainTailUnique | contour_tree.js:123-138 | Where every non-significant vertex has one child, the walk from a vertex meets only one significant vertex. |
| Trees.Tree.ConnectFrom | contour_tree.js:158-163 | The edges become the old ones plus `u -> w` for each reported `w`. Vertices and values are unchanged. |
| Trees.NodesOnly | contour_tree.js:141-151 | A new tree with a bare node, carrying its value, for each vertex of the set. |
| Trees.Tree.GenSigtree | contour_tree.js:115-168 | The condensed tree has exactly the vertices of `sig`, with their values. It has an edge `a -> b` exactly when `a` is reached from a root and `b` is in `NextSigs(a)`. The old tree's descending height still descends. |
| Condense.SigDone | contour_tree.js:153-165 | When the stack empties, the edges built are exactly the condensed steps out of the significant vertices reached from the roots. |
| Condense.CondensationDescends | contour_tree.js:115-168 | A condensed tree goes down every height that descends in the original, so it has no cycle. |
| Orders.Ascending | contour_tree.js:326-327 | The indices `0..k-1`, each exactly once. |
| Orders.AscendingAscends | contour_tree.js:326-327 | The sort is strictly ascending by value, with ties by ascending index, as a stable sort gives. |
| Orders.AscendingUnique | contour_tree.js:326-327 | Two strictly ascending lists of the same vertices are equal, so the sorted order is determined. |
| Orders.SweepOrder | contour_tree.js:326-331 | Lists every vertex. It ascends in `Before` for the split tree and descends for the join tree. |
| Orders.JoinReversesSplit | contour_tree.js:329-331 | The join order is the split order reversed. |
| Orders.SweepOrderEnumerates | contour_tree.js:326-331 | A sweep order lists every vertex exactly once. |
| Meshes.ComponentsCount | contour_tree.js:340-347 | Vertices that lie in pairwise distinct components give exactly as many components as there are vertices. |
| Meshes.SameLastIffConnected | contour_tree.js:319-322 | Two swept vertices have the same boundary exactly when they are connected in the swept part of the mesh. |
| Sweeps.SweepAlgorithm | contour_tree.js:316-400 | The tree holds every vertex once, with its value. The parents of the vertex swept at step `k` are exactly the boundaries, before step `k`, of its processed neighbours' components (`SweepTree`). A height descends along every edge. The degree of each vertex equals the number of distinct components of its processed neighbours. |
| Sweeps.SweepDegree | contour_tree.js:340-395 | In a merge tree of a sweep, the vertex swept at step `k` has exactly as many parents as there are distinct connected components, in the swept part of the mesh, among its processed neighbours: one edge per component merged at that step. |
| Sweeps.SweepAll | contour_tree.js:336-397 | After all steps, the union-find, boundary map and tree fit the whole sweep. |
| Sweeps.SweepStep | contour_tree.js:336-397 | One step keeps the sweep state. The union-find's components are the connected components of the swept mesh. The boundary map names each component's last swept vertex. The tree has the sweep's parents. |
| Sweeps.Arrive | contour_tree.js:337-349 | `make_set(v)`, then the set of representatives of `v`'s neighbours that the union-find knows. |
| Sweeps.FindRoot | contour_tree.js:343-347 | `find` yields the representative for a known label, or nothing for an unswept one. |
| Sweeps.Merge | contour_tree.js:351-396 | Adds `v` under the boundary of each neighbouring component. It merges those components with `v` and returns the merged root. |
| Sweeps.StepParents | contour_tree.js:359-383 | The boundaries of the gathered components are exactly the `BoundaryParent`s of the swept vertex. |
| Sweeps.StepLastMerged | contour_tree.js:372-374 | After the step, the swept vertex is the boundary of its merged component. |
| Sweeps.SweepTreeOrdered | contour_tree.js:326-364 | In a merge tree every parent was swept before its child. Join-tree edges run down in value and split-tree edges run up. |
| Sweeps.SweepRoot | contour_tree.js:351-355 | A vertex is a root of the merge tree exactly when none of its neighbours was swept before it. |
| Sweeps.SweepDone | contour_tree.js:336-400 | The final state gives the exact merge tree and a descending height, so the tree has no cycle. |
| Prunes.Leaves | contour_tree.js:419-429 | Fails exactly when a join-tree vertex has no split-tree node. Otherwise it returns exactly the contour-tree leaves: parentless in one tree with one parent in the other. No vertex is listed twice. |
| Prunes.PruneAlgorithm | contour_tree.js:402-486 | The contour tree holds every join-tree vertex with its value. Each arc joins two distinct vertices along a descending join-tree path or an ascending split-tree path. On success, each vertex spliced out of the join tree is gone from the split tree too and has its contour arc. |
| Prunes.PruneStep | contour_tree.js:431-437 | Fails with nothing changed when the leaf has no join-tree node. A leaf of join-tree degree 0 has the effect `UpperDone`, any other leaf `LowerDone`. The pruning state is kept, and either the join tree loses a vertex or nothing is queued. |
| Prunes.UpperStep | contour_tree.js:434-457 | `UpperDone`: several join-tree children fail and no child drops the leaf, both with nothing changed. Otherwise, for the only child `y`, the contour tree gains arc `leaf -> y` and both trees are spliced as `ReduceBoth` states. It fails when a splice fails or the split tree lacks `y`. On success `y` is queued exactly when it is now a contour-tree leaf. The pruning state is kept. |
| Prunes.LowerStep | contour_tree.js:458-482 | `LowerDone`: a leaf the split tree lacks fails, as do several split-tree children; no child drops the leaf. All three leave everything unchanged. Otherwise, for the only child `z`, the contour tree gains arc `z -> leaf`, failing with nothing changed when an endpoint is missing. Both trees are spliced as `ReduceBoth` states. It fails when a splice fails or the join tree lacks `z`. On success `z` is queued exactly when it is now a contour-tree leaf. |
| Prunes.ReduceBoth | contour_tree.js:450-451 | The outcome is `ReduceOutcome`: several parents in the join tree fail first; then a missing split-tree node or several split-tree parents fail. The join tree is spliced unless its own splice failed. The split tree is spliced exactly when both succeed. On success both still follow the original trees. |
| Prunes.SpliceKeeps | contour_tree.js:447-451 | Adding a leaf's arc and splicing it out of both trees keeps the pruning invariant, with the leaf now removed. |
| Prunes.ReducedWithin | contour_tree.js:450-451 | After a splice, every edge of a merge tree still follows a path of the original tree. |
| Prunes.ConnectFollows | contour_tree.js:447 | An arc along a merge-tree path keeps the contour tree following the merge trees. |
| ContourTrees.ComputeContourTree | contour_tree.js:494-511 | It returns the two sweep trees (ghost), each the exact merge tree of its sweep order, and their condensations onto the merged significant vertices. The contour-tree nodes are exactly those merged significant vertices, carrying their values, and include every local maximum and minimum. Every arc follows one of the condensations and runs from a vertex to one strictly below it. |
| ContourTrees.CondensedOrdered | contour_tree.js:503-504 | A condensed merge tree runs the same way in value as the merge tree it came from. |
| ContourTrees.FollowsOrdered | contour_tree.js:506 | Arcs that follow a descending join tree or an ascending split tree run down in value. |
| ContourTrees.ExtremaKept | contour_tree.js:497-503 | Local maxima are join-tree roots and local minima are split-tree roots, so both are significant. |

## Left out

- Mesh loading (`ObjMesh`) is not modelled. `obj_mesh.neighbors` is a parameter: a sequence of neighbour sets that must be symmetric and free of self-neighbours (`Mesh`).
- Values are `int`. The comparator `vert_func[v1] - vert_func[v2]` is modelled as exact comparison. JavaScript doubles, NaN and precision loss in that subtraction are not modelled.
- `get_dot` (Graphviz text), `ct_test` (OBJ parsing and console output), `get_node` and the rendering and UI files are not part of this model.
- JavaScript exceptions and `TypeError` crashes are modelled as `Fail` outcomes. A crash on a missing vertex is `AbsentVertex`. A crash on a leaf with several children is `MultipleChildren`.
- On a `Fail` the model stops where the source would throw. Mutations already made to the merge trees stay, as in the source.
- Prunes.Leaves: builds the initial queue in an unspecified order of the join-tree vertices, not in `Map` insertion order. The queue is then first-in first-out, as in the source.
- Trees.Tree.GenSigtree: pops roots in an unspecified order, because the spread of a `Set` has no order in the model. The result does not depend on the order.
- Trees.Tree.WalkToNextSig: returns the significant vertices as a list whose order is not stated. Only its members are stated.
- Sweeps.Merge: first adds all tree edges for the neighbouring components, then performs all the unions. The source interleaves them per component. The tree and the union-find share no state, so the result is the same.
- DisjointSets.DisjointSet.MakeSet: requires the label to be new. Re-registering a label is never done by the sweep.
- DisjointSets.DisjointSet.Union: requires both labels to be registered. The source would key `undefined` into its maps otherwise.
- Trees.Tree.GenSigtree: requires `roots ⊆ sig ⊆ vertices` and an acyclic tree (a descending height). The source loops forever on a cycle and crashes on an unknown vertex.
- Trees.Tree.ReduceVert: requires that the vertex is not its own child. A merge tree never has such a vertex.
- Prunes.PruneAlgorithm: requires acyclic merge trees (descending heights). It does not state that the pruning empties both trees or that the result is a tree. It does not state that no vertex is dequeued twice over the whole pass: only the initial queue is stated to be free of repeats. It states where each arc comes from, and that every leaf it spliced out got its arc.
- ContourTrees.ComputeContourTree: does not state that the pruning succeeds. It states the vertex set, the values, the extrema, where each arc comes from and the arc directions, which hold whether or not it fails.
