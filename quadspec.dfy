/**
  The quadtree as a value. A `Tree` records what one `QuadTree` node holds
  (its box, its limits, its own contents and its children); the functions
  here say what each operation of the node does to that value, branch for
  branch. The class in module QuadTrees is proved against them.

  Helpers over a list of children peel off the LAST child, so that a loop
  that has visited children[..i] has computed the helper on that prefix.
*/
module QuadSpec {
  import opened Geometry

  datatype Option<T> = None | Some(value: T)

  /** One node and, through `children`, its whole subtree. */
  datatype Tree<K> = Tree(bbox: Box, maxItems: int, maxDepth: nat,
                          contents: seq<Element<K>>, children: seq<Tree<K>>)

  /** `__init__` keeps a non-negative depth budget and clamps a negative one to 0. */
  function ClampDepth(maxDepth: int): (d: nat)
    ensures maxDepth >= 0 ==> d == maxDepth
    ensures maxDepth < 0 ==> d == 0
  {
    if maxDepth >= 0 then maxDepth else 0
  }

  /** The node `__init__` builds: a well-formed leaf that stores nothing. */
  function NewTree<K(==)>(bbox: Box, maxItems: int := 10, maxDepth: int := 10): (r: Tree<K>)
    ensures Wf(r) && Elements(r) == multiset{}
  {
    Tree(bbox, maxItems, ClampDepth(maxDepth), [], [])
  }

  /**
    Depth budgets shrink towards the leaves. This is what makes insertion
    terminate: a split hands its children a smaller budget.
  */
  ghost predicate DepthOk<K>(t: Tree<K>)
    decreases t
  {
    forall c :: c in t.children ==> c.maxDepth < t.maxDepth && DepthOk(c)
  }

  /** `t` and `u` are the same node as far as its box and limits go. */
  ghost predicate SameFrame<K>(t: Tree<K>, u: Tree<K>)
  {
    u.bbox == t.bbox && u.maxItems == t.maxItems && u.maxDepth == t.maxDepth
  }

  /** Every child keeps its frame and its depth discipline. */
  ghost predicate SameFrames<K>(kids: seq<Tree<K>>, r: seq<Tree<K>>)
  {
    |r| == |kids| && forall i :: 0 <= i < |r| ==> SameFrame(kids[i], r[i]) && DepthOk(r[i])
  }

  /**
    The `for child in self.children` loop of `insert` and `_split`: the index
    of the first child, from `from` on, whose box holds the element, or
    |kids| when there is none.
  */
  function FirstAccepting<K(==)>(kids: seq<Tree<K>>, e: Element<K>, from: nat): (k: nat)
    requires from <= |kids|
    ensures from <= k <= |kids|
    ensures k < |kids| ==> Inside(e, kids[k].bbox)
    ensures forall j :: from <= j < k ==> !Inside(e, kids[j].bbox)
    decreases |kids| - from
  {
    if from == |kids| then from
    else if Inside(e, kids[from].bbox) then from
    else FirstAccepting(kids, e, from + 1)
  }

  /**
    `insert`: refuse a point outside the box; otherwise hand it to the first
    child that accepts it and clear the node's own contents; otherwise (a leaf,
    or an internal node no child of which accepts) append it to the contents
    and split when they exceed `maxItems` and depth budget remains.
  */
  function Insert<K(==)>(t: Tree<K>, e: Element<K>): (r: Tree<K>)
    requires DepthOk(t)
    ensures SameFrame(t, r) && DepthOk(r)
    decreases t.maxDepth, 2
  {
    if !Inside(e, t.bbox) then t
    else if FirstAccepting(t.children, e, 0) < |t.children| then
      assert t.children[0] in t.children;
      t.(children := InsertFirst(t.children, e, t.maxDepth - 1), contents := [])
    else
      var grown := t.(contents := t.contents + [e]);
      if |grown.contents| > t.maxItems && t.maxDepth > 0 then Split(grown) else grown
  }

  /** Insert into the first child that accepts the element; unchanged when none does. */
  function InsertFirst<K(==)>(kids: seq<Tree<K>>, e: Element<K>, bound: nat): (r: seq<Tree<K>>)
    requires forall c :: c in kids ==> DepthOk(c) && c.maxDepth <= bound
    ensures SameFrames(kids, r)
    decreases bound, 3
  {
    var k := FirstAccepting(kids, e, 0);
    if k < |kids| then
      assert kids[k] in kids;
      kids[k := Insert(kids[k], e)]
    else kids
  }

  /**
    `_split`: four new children on the quadrants, with the same `maxItems`
    and one less depth; then the contents are handed out to them and the
    node keeps none.
  */
  function Split<K(==)>(t: Tree<K>): (r: Tree<K>)
    requires t.maxDepth > 0
    ensures SameFrame(t, r) && DepthOk(r) && |r.children| == 4
    decreases t.maxDepth, 1
  {
    var kids := QuadrantTrees(t.bbox, t.maxItems, t.maxDepth - 1);
    t.(children := Redistribute(kids, t.contents, t.maxDepth - 1), contents := [])
  }

  /** The four empty children a split creates, one per quadrant of `b`. */
  function QuadrantTrees<K(==)>(b: Box, maxItems: int, depth: nat): (kids: seq<Tree<K>>)
    ensures |kids| == 4
  {
    var q := Quadrants(b);
    [NewTree(q[0], maxItems, depth), NewTree(q[1], maxItems, depth),
     NewTree(q[2], maxItems, depth), NewTree(q[3], maxItems, depth)]
  }

  /**
    The `while self.contents: pop()` loop of `_split`: take the LAST element
    of the stack, insert it into the first child that accepts it (dropping it
    when none does), and carry on with the rest.
  */
  function Redistribute<K(==)>(kids: seq<Tree<K>>, stack: seq<Element<K>>, bound: nat): (r: seq<Tree<K>>)
    requires forall c :: c in kids ==> DepthOk(c) && c.maxDepth <= bound
    ensures SameFrames(kids, r)
    decreases bound + 1, 0, |stack|
  {
    if stack == [] then kids
    else
      var next := InsertFirst(kids, stack[|stack| - 1], bound);
      assert forall c :: c in next ==> DepthOk(c) && c.maxDepth <= bound by {
        forall c | c in next ensures DepthOk(c) && c.maxDepth <= bound {
          var i :| 0 <= i < |next| && next[i] == c;
          assert kids[i] in kids;
        }
      }
      Redistribute(next, stack[..|stack| - 1], bound)
  }

  /** Inserting a sequence of elements one after the other. */
  function InsertAll<K(==)>(t: Tree<K>, es: seq<Element<K>>): (r: Tree<K>)
    requires DepthOk(t)
    ensures SameFrame(t, r) && DepthOk(r)
    decreases |es|
  {
    if es == [] then t else InsertAll(Insert(t, es[0]), es[1..])
  }

  // ---------------------------------------------------------------------
  // Read operations

  /**
    `intersect`: nothing when the boxes do not overlap; the union over the
    children for an internal node; the contents inside the query for a leaf.
    On any tree the answer holds only stored points inside the query box.
  */
  function Intersect<K(==)>(t: Tree<K>, q: Box): (r: set<Element<K>>)
    ensures forall x :: x in r ==> x in Elements(t) && Inside(x, q)
    decreases t, 1
  {
    if !IntersectsBBox(t.bbox, q) then {}
    else if |t.children| > 0 then IntersectAll(t.children, q)
    else set e | e in t.contents && Inside(e, q)
  }

  /** The `reduce` of set unions over the children's answers. */
  function IntersectAll<K(==)>(kids: seq<Tree<K>>, q: Box): (r: set<Element<K>>)
    ensures forall x :: x in r ==> x in ElementsAll(kids) && Inside(x, q)
    decreases kids, 0
  {
    if kids == [] then {}
    else IntersectAll(kids[..|kids| - 1], q) + Intersect(kids[|kids| - 1], q)
  }

  /**
    `__contains__`: in the node's own contents, or in some child's subtree;
    that is, membership in the stored multiset, whatever the tree's shape.
  */
  predicate Contains<K(==)>(t: Tree<K>, e: Element<K>)
    ensures Contains(t, e) <==> e in Elements(t)
    decreases t, 1
  {
    e in t.contents || ContainsAny(t.children, e)
  }

  predicate ContainsAny<K(==)>(kids: seq<Tree<K>>, e: Element<K>)
    ensures ContainsAny(kids, e) <==> e in ElementsAll(kids)
    decreases kids, 0
  {
    kids != [] && (ContainsAny(kids[..|kids| - 1], e) || Contains(kids[|kids| - 1], e))
  }

  /**
    `__iter__`: the node's own contents when it has any (children are then
    not visited), otherwise the children's elements one child after another.
    On any tree it produces only stored elements, each at most as often as
    it is stored.
  */
  function Iter<K(==)>(t: Tree<K>): (r: seq<Element<K>>)
    ensures multiset(r) <= Elements(t)
    decreases t, 1
  {
    if |t.contents| > 0 then t.contents else IterAll(t.children)
  }

  function IterAll<K(==)>(kids: seq<Tree<K>>): (r: seq<Element<K>>)
    ensures multiset(r) <= ElementsAll(kids)
    decreases kids, 0
  {
    if kids == [] then [] else IterAll(kids[..|kids| - 1]) + Iter(kids[|kids| - 1])
  }

  /**
    `__len__`: with the same short cut on non-empty own contents as
    `__iter__`, so it is the length of the iteration on any tree.
  */
  function Len<K(==)>(t: Tree<K>): (n: nat)
    ensures n == |Iter(t)|
    decreases t, 1
  {
    if |t.contents| > 0 then |t.contents| else LenAll(t.children)
  }

  function LenAll<K(==)>(kids: seq<Tree<K>>): (n: nat)
    ensures n == |IterAll(kids)|
    decreases kids, 0
  {
    if kids == [] then 0 else LenAll(kids[..|kids| - 1]) + Len(kids[|kids| - 1])
  }

  /**
    The first element of `s` with the given key, as the list comprehension
    of `__getitem__` followed by `items[0]` finds it; None for `KeyError`.
  */
  function FirstWithKey<K(==)>(s: seq<Element<K>>, key: K): (r: Option<Element<K>>)
    ensures r.None? <==> forall j :: 0 <= j < |s| ==> s[j].key != key
    ensures r.Some? ==> exists i :: 0 <= i < |s| && s[i] == r.value && r.value.key == key &&
                                    forall j :: 0 <= j < i ==> s[j].key != key
  {
    if s == [] then None
    else if s[0].key == key then Some(s[0])
    else
      FirstWithKey(s[1..], key)
  }

  /**
    `__getitem__`: an internal node asks its children in order and never looks
    at its own contents; a leaf scans its contents. None stands for `KeyError`.
    Whatever it finds is a stored element with the key.
  */
  function GetItem<K(==)>(t: Tree<K>, key: K): (r: Option<Element<K>>)
    ensures r.Some? ==> r.value.key == key && r.value in Elements(t)
    decreases t, 1
  {
    if |t.children| > 0 then GetAll(t.children, key) else FirstWithKey(t.contents, key)
  }

  function GetAll<K(==)>(kids: seq<Tree<K>>, key: K): (r: Option<Element<K>>)
    ensures r.Some? ==> r.value.key == key && r.value in ElementsAll(kids)
    decreases kids, 0
  {
    if kids == [] then None
    else
      var found := GetAll(kids[..|kids| - 1], key);
      if found.Some? then found else GetItem(kids[|kids| - 1], key)
  }

  // ---------------------------------------------------------------------
  // Abstraction and invariant

  /** Every element stored anywhere in the subtree, with multiplicity. */
  ghost function Elements<K>(t: Tree<K>): multiset<Element<K>>
    decreases t, 1
  {
    multiset(t.contents) + ElementsAll(t.children)
  }

  ghost function ElementsAll<K>(kids: seq<Tree<K>>): multiset<Element<K>>
    decreases kids, 0
  {
    if kids == [] then multiset{}
    else ElementsAll(kids[..|kids| - 1]) + Elements(kids[|kids| - 1])
  }

  /**
    The shape every tree reachable from `__init__` by `insert` has: stored
    points lie in their node's box; a leaf that may still split holds at most
    `maxItems`; an internal node holds nothing itself, has depth budget left,
    and has the four quadrant children with the same `maxItems` and one less
    depth.
  */
  ghost predicate Wf<K>(t: Tree<K>)
    ensures Wf(t) ==> DepthOk(t)
    decreases t, 1
  {
    (forall e :: e in t.contents ==> Inside(e, t.bbox)) &&
    if t.children == [] then
      t.maxDepth > 0 && t.contents != [] ==> |t.contents| <= t.maxItems
    else
      t.contents == [] && t.maxDepth > 0 &&
      QuadrantKids(t.children, t.bbox, t.maxItems, t.maxDepth - 1)
  }

  /** The four well-formed children a split of a node with box `b` produces. */
  ghost predicate QuadrantKids<K>(kids: seq<Tree<K>>, b: Box, maxItems: int, depth: nat)
    ensures QuadrantKids(kids, b, maxItems, depth) ==>
              forall c :: c in kids ==> DepthOk(c) && c.maxDepth <= depth
    decreases kids, 0
  {
    |kids| == 4 &&
    forall i :: 0 <= i < 4 ==>
      kids[i].bbox == Quadrants(b)[i] && kids[i].maxItems == maxItems &&
      kids[i].maxDepth == depth && Wf(kids[i])
  }
}
