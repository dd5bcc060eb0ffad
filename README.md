# simple_quadtree in Dafny

A verified model of `QuadTree`, the point quadtree of the `simple_quadtree`
Python package.

A quadtree node covers an axis-aligned bounding box `(x0, y0, x1, y1)` and
stores elements `(key, x, y)`:

- **Insert.** `insert` refuses a point outside the box. Otherwise it offers
  the point to the node's children in the order SW, SE, NE, NW, or appends it
  to the node's own `contents`.
- **Split.** A leaf whose contents grow beyond `max_items` while depth budget
  remains splits. It gets four half-size children, then pops its contents
  from the end and re-inserts them into the first child that accepts each.
- **Read operations.** The tree answers range queries (`intersect`),
  membership (`in`), iteration, `len` and lookup by key (`q[key]`).

The project has five modules:

- **`Geometry`** (`geometry.dfy`): boxes, elements, the half-open `_inside`
  test, the asymmetric `_intersects_bbox` test, `_validate_bbox`, and the
  four quadrants of a box. Coordinates are exact `real`s, so the quadrants
  partition their parent box.
- **`QuadSpec`** (`quadspec.dfy`): the quadtree as a value (`Tree`). It has
  one function per operation, following the source branch for branch. It
  also defines:
  - the abstraction `Elements`, the multiset of everything stored;
  - the shape invariant `Wf` that every tree built by `__init__` and
    `insert` has.
- **`QuadTrees`** (`quadtree.dfy`): the class `QuadTree`. Its fields are
  updated in place exactly as in the source: `contents` is appended to,
  popped from and cleared, and `children` is replaced by `_split`. Each node
  carries a ghost `Model` (its subtree as a `QuadSpec.Tree`) and a ghost
  `Repr` (the nodes of its subtree).
  - `Insert` and `Split` are methods with the source's loops, each proved to
    produce the state the matching `QuadSpec` function describes.
  - The read operations walk the child objects and are proved equal to their
    `QuadSpec` counterparts.
- **`QuadProperties`** (`properties.dfy`): what the operations promise, as
  lemmas over `QuadSpec`:
  - insertion keeps the tree well formed and stores exactly the new point;
  - when and how splitting happens;
  - the range query is exact;
  - `in`, iteration and `len` agree with the stored multiset;
  - lookup by key returns the first match in iteration order.
- **`QuadScenarios`** (`scenarios.dfy`): the depth-one run of the unit test
  `test_dont_split_if_max_depth1_is_reached`, derived from the model.

How the class is tied to the value model:

- `Insert` and `Split` ensure `Model == QuadSpec.X(old(Model), ...)`. Their
  helper methods state the intermediate models they leave, for example the
  fresh quadrant leaves of `MakeChildren`.
- The read functions return `QuadSpec.X(Model, ...)`.
- `QuadSpec.Wf(Model)` is not part of `Valid()`. It holds for every node
  built by the constructor and `Insert`, by the contract of `QuadSpec.NewTree`
  and by `QuadProperties.InsertSound`.

Through these, the `QuadProperties` lemmas that assume `Wf` apply to such
class objects.

## Model

Paths are relative to the repository root.

| member | source | states |
|---|---|---|
| `Geometry.Inside` | src/quadtree.py:180-196 | `_inside` is half-open on both axes. The bottom-left corner of a proper box is inside it. A point on its top or right edge is not. Only a box proper on both axes holds any point. |
| `Geometry.IntersectsBBox` | src/quadtree.py:127-134 | Two boxes whose common region has an interior pass the overlap test. The query's upper bounds are inclusive: a query whose right edge lies on the node's left edge passes. Its lower bounds are exclusive: a query whose left edge lies on the node's right edge fails. |
| `Geometry.BBoxAccepted` | src/quadtree.py:199-205 | `_validate_bbox` passes a box as soon as one axis is proper, and refuses it exactly when both axes are empty or inverted. |
| `Geometry.QuadrantsPartition` | src/quadtree.py:86-98 | A point lies in quadrant `i` of a box iff it lies in the box and `i` is its quadrant. So every point of the box is in exactly one quadrant, and a point on a shared edge belongs to only one of the two adjacent boxes (`_inside` is half-open, src/quadtree.py:194-196). |
| `Geometry.QuadrantsAccepted` | src/quadtree.py:87-98 | The four half boxes of a box that passes `_validate_bbox` pass it too, so `_split` never raises. |
| `Geometry.AcceptedBoxMayBeEmpty` | src/quadtree.py:199-205 | The validation quirk: a box with one empty or inverted axis is accepted, yet no point is inside it. |
| `Geometry.InhabitedBoxAccepted` | src/quadtree.py:199-205 | A box that holds some point passes validation. |
| `Geometry.OverlapWhenSharedPoint` | src/quadtree.py:127-134 | `_intersects_bbox` lets the query descend whenever some point lies in both the node's box and the query box. |
| `Geometry.OverlapNotSymmetric` | src/quadtree.py:127-134 | `_intersects_bbox` is not symmetric: a query touching a node's left edge overlaps it, but not the other way round. |
| `Geometry.Quadrants` | src/quadtree.py:87-94 | `_split` makes exactly four boxes: SW, SE, NE, NW. |
| `Geometry.QuadrantOf` | src/quadtree.py:87-94 | Names one of the four quadrants (index below 4). |
| `QuadSpec.NewTree` | src/quadtree.py:31-52 | The node `__init__` builds is well formed and stores nothing. |
| `QuadSpec.ClampDepth` | src/quadtree.py:49 | A non-negative depth budget is kept; a negative one becomes 0. |
| `QuadSpec.FirstAccepting` | src/quadtree.py:76-80 | The child loop stops at the first child whose box holds the point. It returns the child count when no child holds it. |
| `QuadSpec.Insert` | src/quadtree.py:54-84 | `insert` never changes a node's box, `max_items` or depth, and keeps depth budgets shrinking towards the leaves (the property proved: `QuadProperties.InsertSound`). |
| `QuadSpec.InsertFirst` | src/quadtree.py:76-80 | Offering a point to the children keeps every child's frame. |
| `QuadSpec.Split` | src/quadtree.py:86-104 | `_split` leaves exactly four children and keeps the node's frame. |
| `QuadSpec.QuadrantTrees` | src/quadtree.py:95-98 | `_split` creates four children. |
| `QuadSpec.Redistribute` | src/quadtree.py:100-104 | The `pop()` loop keeps every child's frame. |
| `QuadSpec.InsertAll` | src/quadtree.py:54-84 | Repeated inserts keep the root's frame. |
| `QuadSpec.FirstWithKey` | src/quadtree.py:174-177 | It is None iff no element of the list has the key. Otherwise it is an element with the key that no earlier element has. |
| `QuadSpec.Intersect` | src/quadtree.py:106-125 | On any tree, every point `intersect` returns is stored and lies inside the query box. Completeness is `QuadProperties.IntersectExact`. |
| `QuadSpec.IntersectAll` | src/quadtree.py:119-123 | The `reduce` of unions over the children returns only stored points inside the query box. |
| `QuadSpec.Contains` | src/quadtree.py:143-145 | `in` holds iff the element is in the stored multiset, on any tree. |
| `QuadSpec.ContainsAny` | src/quadtree.py:145 | The `any(...)` over the children holds iff some child's subtree stores the element. |
| `QuadSpec.Iter` | src/quadtree.py:147-151 | On any tree, iteration yields only stored elements, each at most as often as it is stored. Equality under `Wf` is `QuadProperties.IterElements`. |
| `QuadSpec.IterAll` | src/quadtree.py:151 | The chain over the children yields only elements their subtrees store. |
| `QuadSpec.Len` | src/quadtree.py:153-157 | `len` is the length of the iteration, on any tree, short cut on own contents included. |
| `QuadSpec.LenAll` | src/quadtree.py:157 | The `sum` over the children is the length of their chained iteration. |
| `QuadSpec.GetItem` | src/quadtree.py:159-177 | Whatever lookup by key returns is a stored element carrying the key. It is found by asking the children in order for an internal node, and by scanning the contents for a leaf. |
| `QuadSpec.GetAll` | src/quadtree.py:163-173 | The loop over the children returns only an element with the key stored in some child. |
| `QuadTrees.QuadTree.constructor` | src/quadtree.py:31-52 | A valid fresh leaf with no contents and no children. It keeps `max_items` and clamps the depth; the defaults are 10 and 10. |
| `QuadTrees.Create` | src/quadtree.py:47 | Fails with `InvalidBBox(bbox)` iff both axes of the box are empty or inverted (src/quadtree.py:199-205). Otherwise it returns the constructor's node. |
| `QuadTrees.QuadTree.Insert` | src/quadtree.py:54-84 | Returns true iff the point is inside the box. On false nothing changes. The new subtree is `QuadSpec.Insert` of the old one. |
| `QuadTrees.QuadTree.OfferToChildren` | src/quadtree.py:75-80 | The `for child in self.children` loop. It reports acceptance iff some child's box holds the point, and only the first such child changes. |
| `QuadTrees.QuadTree.InsertIntoChild` | src/quadtree.py:77 | Child `i` inserts the point, and this node takes the child's new subtree into its model. |
| `QuadTrees.QuadTree.Split` | src/quadtree.py:86-104 | After `_split` the node is valid, and its model is `QuadSpec.Split` of the old one. |
| `QuadTrees.QuadTree.MakeChildren` | src/quadtree.py:87-98 | Four fresh, distinct leaves on the quadrants replace the children, with the same `max_items` and one less depth. |
| `QuadTrees.QuadTree.PopIntoChild` | src/quadtree.py:100-104 | One loop round: the last element leaves `contents` and goes to the first child that accepts it. |
| `QuadTrees.QuadTree.Intersect` | src/quadtree.py:106-125 | Computes `QuadSpec.Intersect` of the model by walking the child objects. |
| `QuadTrees.QuadTree.Contains` | src/quadtree.py:143-145 | Holds iff `QuadSpec.Contains` holds of the model. |
| `QuadTrees.QuadTree.Iterate` | src/quadtree.py:147-151 | Computes `QuadSpec.Iter` of the model. |
| `QuadTrees.QuadTree.Length` | src/quadtree.py:153-157 | Computes `QuadSpec.Len` of the model. |
| `QuadTrees.QuadTree.GetItem` | src/quadtree.py:159-177 | Computes `QuadSpec.GetItem` of the model. |
| `QuadProperties.FirstAcceptingIsQuadrant` | src/quadtree.py:100-104 | Among quadrant children, the first to accept a point of the box is its quadrant. A point outside the box is accepted by none. So the "no child accepted" fallbacks are unreachable. |
| `QuadProperties.InsertSound` | src/quadtree.py:54-84 | `insert` keeps the tree well formed. A point inside the box is added to the stored multiset and nothing else changes in it. A point outside leaves the tree unchanged (src/quadtree.py:73-74). |
| `QuadProperties.InsertFirstSound` | src/quadtree.py:75-80 | The point goes to its own quadrant child. The children stay the well-formed quadrant children and gain exactly that point. |
| `QuadProperties.SplitSound` | src/quadtree.py:86-104 | After `_split` the node holds nothing itself and has the four well-formed quadrant children. Those children store exactly the node's former contents. |
| `QuadProperties.RedistributeSound` | src/quadtree.py:100-104 | The `pop()` loop loses no element and keeps the children well formed, even when a child overfills and splits in turn. |
| `QuadProperties.InsertAllSound` | src/quadtree.py:54-84 | Any run of inserts keeps the tree well formed. It stores exactly the inserted points that lie in the box. |
| `QuadProperties.SplitsExactlyWhen` | src/quadtree.py:81-83 | Inserting into a leaf splits it iff the grown contents exceed `max_items` and depth budget remains. Otherwise the point is appended at the end. |
| `QuadProperties.DepthZeroKeepsOrder` | tests/test_quadtree.py:155-161 | With depth budget 0 a leaf never splits. Its contents are the inserted points of the box, in insertion order. |
| `QuadProperties.RedistributeIntoLeaves` | src/quadtree.py:100-104 | Into children without depth budget, each child receives its quadrant's points appended in pop order, last inserted first. |
| `QuadProperties.SplitAtDepthOne` | src/quadtree.py:86-104 | A split with depth budget 1 leaves the node empty. Child `i` (SW, SE, NE, NW) is a leaf holding the node's points of quadrant `i`, last inserted first. |
| `QuadProperties.StoredInside` | src/quadtree.py:73-84 | Every stored point of a well-formed tree lies in the tree's box. |
| `QuadProperties.IntersectExact` | src/quadtree.py:106-134 | `intersect` returns exactly the stored points inside the query box. The overlap pruning never drops one. |
| `QuadProperties.IterElements` | src/quadtree.py:147-151 | Iteration enumerates the stored multiset, each element once per copy stored. |
| `QuadProperties.LenCountsElements` | src/quadtree.py:153-157 | On a well-formed tree `len` counts the stored elements. |
| `QuadProperties.FirstWithKeyConcat` | src/quadtree.py:163-177 | Looking a key up in two lists one after the other finds it in the first list when it is there, and in the second otherwise. |
| `QuadProperties.GetItemFirstInIteration` | src/quadtree.py:159-177 | Lookup by key returns the first element with that key in iteration order: children in SW, SE, NE, NW order, each leaf in storage order. |
| `QuadProperties.GetItemSound` | src/quadtree.py:159-177 | The `KeyError` case (None) happens iff no stored element has the key. Otherwise a stored element with the key is returned. |
| `QuadProperties.InsertKeepsEverything` | src/quadtree.py:75-84 | After inserting a point of the box, the point and every element stored before are members and are produced by iteration (tests/test_quadtree.py:20-28). |
| `QuadProperties.OutsideNeverContained` | src/quadtree.py:73-74 | A point outside the box is never a member of a well-formed tree (tests/test_quadtree.py:30-38). |
| `QuadScenarios.ThirdSplits` | src/quadtree.py:81-83 | A third point in a leaf with `max_items` 2 and depth budget 1 splits it. |
| `QuadScenarios.SplitOfThree` | src/quadtree.py:100-104 | Splitting `[e1, e2, e3]`, placed in SW, NE and SE, leaves `[e1]`, `[e3]`, `[e2]`, `[]` in the four children. |
| `QuadScenarios.IntoSplitNode` | src/quadtree.py:75-80 | An insert into a split node whose children have no depth budget appends the point to its quadrant's child. The node's own contents become empty. |
| `QuadScenarios.DepthOneRun` | tests/test_quadtree.py:163-176 | For any box and four points placed like the test's: after the four inserts, the root holds nothing and the children hold `[e1]`, `[e3, e4]`, `[e2]`, `[]`. |
| `QuadScenarios.DepthOneScenario` | tests/test_quadtree.py:163-176 | The test itself, on box (0, 0, 10, 10) with points (1, 2), (7, 9), (6, 3) and (8, 4). |

## Left out

- `__repr__` (src/quadtree.py:136-141) is not modelled. It only formats a string for diagnostics.
- `setup.py` is not part of this model. It is packaging only.
- The hypothesis tests (tests/test_properties.py) are not modelled as such. Their claims, that inside points are accepted and outside ones refused, are the `ensures ok == Inside(e, bbox)` of `QuadTrees.QuadTree.Insert`.
- Floating point: coordinates are exact reals. The source divides with true division (`from __future__ import division`), so the quadrant midpoints agree, up to IEEE rounding, which is not modelled. The consequence is that the fallbacks are provably dead here but kept as written:
  - appending to an internal node whose children all refuse the point (src/quadtree.py:81);
  - silently dropping an element no child accepts during `_split`.
- `int(max_depth)`: the depth budget is an integer from the start. Truncation of a fractional depth is not modelled.
- Python's dynamic typing: a box and an element are fixed datatypes rather than 4- and 3-iterables.
  - Keys need equality (`K(==)`).
  - `max_items` is an integer.
- Laziness: generators, `itertools.chain`, `functools.reduce` and `sum` become sequences, sets and integers computed eagerly.
- Exceptions:
  - `ValueError` from `_validate_bbox` is the constructor's precondition `BBoxAccepted`, and the `Failure(InvalidBBox(bbox))` result of `QuadTrees.Create`.
  - `KeyError(key)` is `None`; the key it carries is the lookup's own argument.
- `QuadTrees.QuadTree.Valid`: the geometric invariant `QuadSpec.Wf` is not part of the class invariant.
  - It holds only for trees built through `__init__` and `insert`, and is proved on the model (`QuadSpec.NewTree`, `QuadProperties.InsertAllSound`).
  - This keeps the fallback branches of the methods reachable in their proofs, so they are modelled as written.
- `QuadTrees.QuadTree.Split` is stated for a node with depth budget left, as `insert` only calls it then (src/quadtree.py:82-83).
