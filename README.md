# Point quadtree with strict bounding boxes

This project models the spatial index of the `quadtree` crate. There are three modules:

- `Geometry` (geometry.dfy) models the axis-aligned `BoundingBox` of
  quadtree/src/utils.rs. It covers strict containment, strict overlap, width,
  height, center and the fixed-order split into four quadrants. Coordinates
  are exact reals.
- `TreeModel` (tree_model.dfy) models a `QuadTree` node and everything
  below it as an immutable value, `Tree`. It gives the pure meaning of
  `build`, `clear_tree`, `insert`, `subdivide`, `init_tree` and
  `query_range`, and proves what they guarantee:
  - the node invariant is kept;
  - no particle is ever duplicated;
  - range queries are exact and come back in pre-order.
- `Quadtree` (quadtree.dfy) models the source's `QuadTree` struct as a class.
  Its methods update `points` and `children` in place and recurse through
  the children, as the Rust methods do through `&mut` boxes. Each node
  carries two ghost fields:
  - `model`, its value as a `Tree`;
  - `Repr`, the set of nodes it owns.

  Each method is proved to change `model` exactly as the matching
  `TreeModel` function does. So the lemmas about the functions hold of the
  objects.

`BoundingBox::build(min, max)` (quadtree/src/utils.rs:12-14) is the
`BoundingBox` datatype's constructor. `Option<[Box<QuadTree>; 4]>` is a
sequence of children that is empty for `None` and has four entries
otherwise. A `Particle` is a value with a `position` and a `velocity`; the
tree only reads the position.

The source keeps several quirks, and the model keeps them too:

- `contains` is strict on all four edges. A particle lying exactly on a
  center line of a node that subdivides is therefore in no quadrant and is
  lost.
- Once a node has subdivided, its own list is empty, and later insertions
  refill it while the children remain. A node can thus hold particles and
  children at the same time.
- `insert` offers a particle to all four children, not only to the one
  whose quadrant contains it.

`TreeModel.CenterLineExample` works through both effects on a three-particle
example.

Some facts of the code that a reader might expect otherwise:

- Children are owned boxes, `Option<[Box<QuadTree>; 4]>`
  (quadtree/src/quadtree.rs:8), not indices into an arena of nodes.
  quadtree/src/renderer.rs:88-92 walks `quadtree.nodes[...]`, `.leaves`,
  `QuadTree::ROOT_INDEX` and `STEM_LEAF_COUNT`, an arena-style tree that
  quadtree/src/quadtree.rs does not define. The model follows
  quadtree/src/quadtree.rs.
- Containment is strict on every edge (quadtree/src/utils.rs:24-26), not
  half-open.
- A node may hold particles and children at once: `insert` pushes into the
  node's own list whenever it has room (quadtree/src/quadtree.rs:30-33),
  even after `subdivide` emptied it and created children
  (quadtree/src/quadtree.rs:35-37, 86).
- A query does not return a whole overlapping node: each particle is
  filtered by `range.contains` (quadtree/src/quadtree.rs:57-61).

Recursion depth. Over exact reals, the source's `insert` and `subdivide`
can recurse without a bound, but only in narrow cases. An insertion
descends past a node only when that node is full (quadtree/src/quadtree.rs:30-37).
The descent can repeat without end only in two cases:
- a full leaf whose particles all share one position is offered one more
  particle at that same position;
- the capacity is 0: every node is full, so any particle inside the bounds
  keeps descending.

Even then the descent stops at the first node whose center lines pass
through the position. There the particle is in no quadrant and every child
returns at once (quadtree/src/quadtree.rs:26-28). `TreeModel.ZeroCapacityStops`
and `TreeModel.CoincidentLost` show this stop; the second also shows every
copy of a coincident particle being lost. Several particles at one position
do not by themselves cause a descent: `TreeModel.CoincidentRefill` shows a
second copy landing in the root's emptied list. A position that no level's
center line ever meets would make the descent endless. In the model, `TreeModel.Insert`,
`TreeModel.InitTree` and the matching methods take a `fuel` argument: the
number of levels an insertion may still descend. A full node reached with
no fuel left drops the particle. `TreeModel.SplitStores` states its result
at depth `fuel + 1`, so that the subdivision always has a level to spend.
No lemma assumes a positive capacity.

## Model

| member | source | states |
|---|---|---|
| Geometry.BoundingBox.Height | quadtree/src/utils.rs:16-18 | adding the height to the top edge gives the bottom edge; the height is positive exactly when min.y < max.y |
| Geometry.BoundingBox.Width | quadtree/src/utils.rs:20-22 | adding the width to the left edge gives the right edge; the width is positive exactly when min.x < max.x |
| Geometry.BoundingBox.Contains | quadtree/src/utils.rs:24-26 | a point on any of the four edges is not contained; a box that contains anything has positive width and height |
| Geometry.BoundingBox.Overlaps | quadtree/src/utils.rs:28-33 | boxes that only share a vertical or a horizontal edge do not overlap |
| Geometry.BoundingBox.Center | quadtree/src/utils.rs:35-37 | the center is equally far from opposite edges in x and in y |
| Geometry.BoundingBox.SplitQuadrants | quadtree/src/utils.rs:39-49 | four boxes, each with half the parent's width and height, each inside a well-formed parent |
| Geometry.OverlapsSymmetric | quadtree/src/utils.rs:28-33 | overlap does not depend on the argument order |
| Geometry.CommonPointOverlap | quadtree/src/utils.rs:24-33 | two boxes that strictly contain a common point overlap, which is why overlap pruning is safe |
| Geometry.QuadrantsDisjoint | quadtree/src/utils.rs:39-49 | no two of the four quadrants overlap |
| Geometry.QuadrantInParent | quadtree/src/utils.rs:39-49 | a point strictly inside a quadrant is strictly inside the parent |
| Geometry.QuadrantSides | quadtree/src/utils.rs:39-49 | the quadrant order: 0 is right of and above the center, 1 left and above, 2 left and below, 3 right and below (y grows downward); each as an if-and-only-if |
| Geometry.ExactlyOneQuadrant | quadtree/src/utils.rs:39-49 | a point of the parent off both center lines lies in exactly one quadrant |
| Geometry.CenterLineInNoQuadrant | quadtree/src/utils.rs:39-49 | a point on either center line lies in no quadrant |
| TreeModel.Build | quadtree/src/quadtree.rs:14-16 | a new node has no particles and no children, keeps the invariant, and has the given capacity and bounds |
| TreeModel.Clear | quadtree/src/quadtree.rs:89-92 | a cleared node has no particles and no children, keeps the invariant, and keeps capacity and bounds |
| TreeModel.Within | quadtree/src/quadtree.rs:57-61 | the per-node filter is no longer than its input; what it keeps is stated by `TreeModel.WithinInside`, `TreeModel.WithinComplete`, `TreeModel.WithinSubMultiset` and `TreeModel.WithinCount` |
| TreeModel.Insert | quadtree/src/quadtree.rs:25-44 | `insert` keeps bounds and capacity; its effect is stated by `TreeModel.InsertOutside`, `TreeModel.InsertIntoRoom`, `TreeModel.SplitStores`, `TreeModel.InsertInv` and `TreeModel.InsertElements` |
| TreeModel.Subdivide | quadtree/src/quadtree.rs:70-87 | `subdivide` empties the node's list, gives it four children and keeps bounds and capacity; the children's contents are stated by `TreeModel.SubdivideExact`, `TreeModel.SubdivideKeepsOffCenter` and `TreeModel.SubdivideInv` |
| TreeModel.EmptyQuadrants | quadtree/src/quadtree.rs:71-77 | four children, child i a fresh `TreeModel.Build` node over quadrant i |
| TreeModel.Reinsert | quadtree/src/quadtree.rs:78-84 | one result per child; what each child collects is stated by `TreeModel.ReinsertCollects` |
| TreeModel.InsertEach | quadtree/src/quadtree.rs:39-43 | one result per child; what is stored is stated by `TreeModel.InsertEachMissed`, `TreeModel.InsertEachElements` and `TreeModel.InsertEachStores` |
| TreeModel.InsertAll | quadtree/src/quadtree.rs:20-22 | inserting a sequence keeps bounds and capacity; see `TreeModel.InsertAllInv`, `TreeModel.InsertAllElements` and `TreeModel.FillLeaf` |
| TreeModel.InitTree | quadtree/src/quadtree.rs:18-23 | a rebuild keeps the invariant, the bounds and the capacity; see `TreeModel.InitTreeSound`, `TreeModel.SmallRebuildExact` and `TreeModel.RebuildIdempotent` |
| TreeModel.Query | quadtree/src/quadtree.rs:52-68 | every returned particle lies strictly inside the range; completeness and order are stated by `TreeModel.QueryExact` |
| TreeModel.QueryOf | quadtree/src/quadtree.rs:63-67 | every particle returned from the children lies strictly inside the range; see `TreeModel.QueryOfExact` |
| TreeModel.WithinInside | quadtree/src/quadtree.rs:57-61 | the per-node filter keeps only particles strictly inside the range |
| TreeModel.WithinComplete | quadtree/src/quadtree.rs:57-61 | the per-node filter keeps every particle strictly inside the range |
| TreeModel.WithinCount | quadtree/src/quadtree.rs:57-61 | the filter keeps every copy of a particle inside the range and no copy of one outside it |
| TreeModel.WithinSubMultiset | quadtree/src/quadtree.rs:57-61 | the filter never repeats a particle |
| TreeModel.InsertOutside | quadtree/src/quadtree.rs:26-28 | inserting a particle outside the node's bounds leaves the whole tree unchanged |
| TreeModel.ReinsertCollects | quadtree/src/quadtree.rs:78-84 | reinserting at most `capacity` particles into four fresh children fills none of them; each collects, in order, the particles inside its quadrant |
| TreeModel.SubdivideExact | quadtree/src/quadtree.rs:70-87 | subdividing a node holding at most `capacity` particles empties its list and gives it the four quadrant leaves |
| TreeModel.QuadrantsPartition | quadtree/src/quadtree.rs:78-84 | counted over the four quadrants, the particles of a node are exactly those off both center lines, each once |
| TreeModel.SubdivideKeepsOffCenter | quadtree/src/quadtree.rs:78-86 | after `subdivide` the node's list is empty and the subtree stores exactly the old particles that are off the new center lines |
| TreeModel.SubdivideInv | quadtree/src/quadtree.rs:70-87 | subdividing keeps the invariant and creates four children |
| TreeModel.SubdivideElements | quadtree/src/quadtree.rs:70-87 | subdividing a leaf keeps the invariant and adds no particle |
| TreeModel.InsertInv | quadtree/src/quadtree.rs:25-44 | `insert` keeps the invariant: list length at most `capacity`, particles inside their node, children absent or exactly the quadrants in order; it keeps bounds and capacity and never removes children |
| TreeModel.InsertAllInv | quadtree/src/quadtree.rs:18-23 | inserting a sequence keeps the invariant, the bounds and the capacity |
| TreeModel.ChildrenExclusive | quadtree/src/quadtree.rs:39-43 | no point lies strictly inside two children, so offering a particle to all four stores it at most once |
| TreeModel.InsertElements | quadtree/src/quadtree.rs:25-44 | `insert` adds at most the one particle it is given: the stored multiset grows by at most {p} |
| TreeModel.OfferToChildrenElements | quadtree/src/quadtree.rs:39-43 | offering a particle to all children of a valid node adds at most that particle |
| TreeModel.InsertEachMissed | quadtree/src/quadtree.rs:39-43 | offering a particle to children none of which contains it changes none of them |
| TreeModel.InsertEachElements | quadtree/src/quadtree.rs:39-43 | offering a particle to children at most one of which contains it adds at most that particle |
| TreeModel.InsertAllElements | quadtree/src/quadtree.rs:18-23 | inserting a sequence adds only particles from it: the stored multiset grows by at most the sequence's multiset |
| TreeModel.ElementsInBounds | quadtree/src/quadtree.rs:25-44 | every stored particle lies strictly inside the root's bounds |
| TreeModel.QueryExact | quadtree/src/quadtree.rs:52-68 | the search returns exactly the stored particles strictly inside the range, in pre-order (own list, then children 0 to 3) |
| TreeModel.QueryOfExact | quadtree/src/quadtree.rs:63-67 | the same for the children searched in order |
| TreeModel.QueryWholeTree | quadtree/src/quadtree.rs:46-50 | querying the root's own bounds returns every stored particle |
| TreeModel.QuerySoundComplete | quadtree/src/quadtree.rs:46-50 | a particle is returned if and only if it is stored and strictly inside the range |
| TreeModel.InitTreeSound | quadtree/src/quadtree.rs:18-23 | a rebuild keeps the invariant, the bounds and the capacity, and stores only particles it was given, none more often than given |
| TreeModel.RebuildIdempotent | quadtree/src/quadtree.rs:18-23 | rebuilding twice from the same particles gives the same tree as rebuilding once |
| TreeModel.QueryAfterInit | quadtree/src/quadtree.rs:46-50 | after a rebuild, a query returns exactly the stored particles inside the range, each one of the given particles |
| TreeModel.InsertIntoRoom | quadtree/src/quadtree.rs:30-33 | a particle inside a node with room is appended to the node's own list and nothing else changes; the stored multiset grows by exactly {p} |
| TreeModel.ElementsOfUpdate | quadtree/src/quadtree.rs:39-43 | replacing one child changes the children's stored multiset by exactly the difference between the old and the new child |
| TreeModel.InsertEachStores | quadtree/src/quadtree.rs:39-43 | when exactly one child contains the particle and has room, offering it to all children stores it exactly once |
| TreeModel.InsertFullLeaf | quadtree/src/quadtree.rs:35-43 | inserting into a full leaf subdivides it and offers the particle to the four fresh quadrant leaves |
| TreeModel.SplitLeavesStore | quadtree/src/quadtree.rs:78-86 | after subdivision, the subtree stores exactly the old particles off the center lines plus the new particle, when its quadrant has room |
| TreeModel.QuadrantLeavesOffCenter | quadtree/src/quadtree.rs:78-84 | the four reinserted leaves together store exactly the node's particles that are off both center lines |
| TreeModel.SplitStores | quadtree/src/quadtree.rs:25-44 | inserting into a full leaf whose target quadrant has room stores exactly the off-center old particles plus the new one |
| TreeModel.FillLeaf | quadtree/src/quadtree.rs:20-22 | inserting at most `capacity` particles into an empty leaf keeps exactly those inside its bounds, in order, in the leaf's own list |
| TreeModel.SmallRebuildExact | quadtree/src/quadtree.rs:18-23 | rebuilding from at most `capacity` particles gives a single leaf holding exactly the given particles inside the bounds, in order; none is lost |
| TreeModel.CenterLineExample | quadtree/src/quadtree.rs:70-87 | capacity 1 over (0,0)-(100,100), inserting (50,20), (70,30), (10,80): the first is lost on the center line at subdivision, and the root then holds the third beside its four children |
| TreeModel.ZeroCapacityStops | quadtree/src/quadtree.rs:25-44 | with capacity 0, a particle at the root's center subdivides the root once, lies in no quadrant, and is dropped: the recursion stops |
| TreeModel.CoincidentLost | quadtree/src/quadtree.rs:25-44 | with capacity 1, a second copy of a particle at (25,25) subdivides the root and then the quadrant whose center it is; both copies are lost and the tree stores nothing |
| TreeModel.SplitTwoLeaves | quadtree/src/quadtree.rs:35-43 | a full capacity-1 leaf holding `p`, offered `q` from another quadrant, subdivides into four leaves of which exactly the quadrants of `p` and `q` hold one particle each |
| TreeModel.TwoLeavesElements | quadtree/src/quadtree.rs:78-84 | those four leaves together store exactly `p` and `q` |
| TreeModel.RefillRun | quadtree/src/quadtree.rs:18-44 | inserting `p`, `q`, then `p` again into an empty capacity-1 leaf, with `p` and `q` in different quadrants, puts the second `p` in the root's own list beside the two leaves |
| TreeModel.CoincidentRefill | quadtree/src/quadtree.rs:25-44 | with capacity 1, inserting (20,20), (80,80), then (20,20) again leaves the second copy in the root's emptied list: it does not descend, and both copies are stored |
| Quadtree.QuadTree.Build | quadtree/src/quadtree.rs:14-16 | a fresh valid node whose model is `TreeModel.Build` and keeps `TreeModel.Inv` |
| Quadtree.QuadTree.ClearTree | quadtree/src/quadtree.rs:89-92 | the node stays valid, owns only itself, its model is `TreeModel.Clear` of the old one and keeps `TreeModel.Inv` |
| Quadtree.QuadTree.InitTree | quadtree/src/quadtree.rs:18-23 | after clearing, the loop inserts the particles in slice order; the result is `TreeModel.InitTree` of the old model and keeps `TreeModel.Inv` |
| Quadtree.QuadTree.Insert | quadtree/src/quadtree.rs:25-44 | the node stays valid, its model becomes `TreeModel.Insert` of the old one, and `TreeModel.Inv` is preserved |
| Quadtree.QuadTree.InsertIntoChildren | quadtree/src/quadtree.rs:39-43 | each child inserts the particle, and the node stays valid, owning what its children allocated |
| Quadtree.QuadTree.OfferToChildren | quadtree/src/quadtree.rs:39-43 | the loop over the children: each child's model becomes `TreeModel.Insert` of its old one, and children stay valid and own disjoint nodes |
| Quadtree.QuadTree.Subdivide | quadtree/src/quadtree.rs:70-87 | the node stays valid and its model becomes `TreeModel.Subdivide` of the old one |
| Quadtree.QuadTree.MakeChildren | quadtree/src/quadtree.rs:71-77 | the node gets four new empty children over its quadrants, in quadrant order |
| Quadtree.QuadTree.NewLeaves | quadtree/src/quadtree.rs:72-77 | four distinct new single nodes, empty, over the quadrants in order |
| Quadtree.QuadTree.ReinsertPoints | quadtree/src/quadtree.rs:78-84 | each old particle, in order, is offered to all children: the children become `TreeModel.Reinsert` of the old ones |
| Quadtree.QuadTree.ClearPoints | quadtree/src/quadtree.rs:86 | the node's own list is emptied and its children are kept |
| Quadtree.QuadTree.QueryRange | quadtree/src/quadtree.rs:46-50 | the output is `TreeModel.Query` of the model; for a tree that keeps the invariant, exactly the stored particles strictly inside the range, in pre-order |
| Quadtree.QuadTree.RecursiveSearch | quadtree/src/quadtree.rs:52-68 | appends this subtree's query results to `outputs` |
| Quadtree.QuadTree.PushInside | quadtree/src/quadtree.rs:57-61 | appends, in order, the particles strictly inside the range |
| Quadtree.QuadTree.SearchChildren | quadtree/src/quadtree.rs:63-67 | appends the children's results, child 0 to 3 |

## Left out

- quadtree/src/renderer.rs, quadtree/src/main.rs and quadtree/src/state.rs are left out. They hold GPU drawing, the application callbacks, random particle creation and setters, and none of them is part of the index.
- quadtree/src/barnes_hut.rs is left out because it is an empty stub with no behaviour.
- `random_vec2` (quadtree/src/utils.rs:52-54) is left out because it only produces randomness.
- f32 arithmetic: coordinates are exact reals. The rounding of `center()` and of the quadrant edges derived from it is not modelled.
- Unbounded recursion: `insert` and `subdivide` take a `fuel` depth bound instead. Over exact reals the source can descend without end only when a full leaf whose particles all share one position is offered another particle at that position, or, with capacity 0, for any particle inside the bounds. Even then it stops as soon as the position falls on a center line. The model drops the particle when the fuel runs out first. On inputs where the source terminates, it acts as the model does with enough fuel; this is not proved in general, only on the worked examples.
- Quadtree.QuadTree.Subdivide: requires a node without children, as at its only call site (quadtree/src/quadtree.rs:35-37). The case where the source would replace existing children is not modelled.
- Quadtree.QuadTree.RecursiveSearch: the `&mut Vec` output buffer is an input sequence plus a returned sequence, not a buffer updated in place. The order of the pushes is the same.
- Particle is a plain value. The `Particle` of quadtree/src/state.rs (private `pos` and `vel`) is not part of this model.
- The class does not carry `TreeModel.Inv` in its validity condition. Instead `Quadtree.QuadTree.Build`, `Quadtree.QuadTree.ClearTree` and `Quadtree.QuadTree.InitTree` establish it and `Quadtree.QuadTree.Insert` preserves it, so `Quadtree.QuadTree.QueryRange` is exact on every tree a client can build.
