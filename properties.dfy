/**
  What the quadtree promises, proved about the QuadSpec model.

  The central invariant is `Wf`: every tree built by `__init__` and a run of
  `insert` calls is well formed (InsertSound), and on a well-formed tree the
  read operations mean what their names say: `intersect` is exactly the
  stored points inside the query box, `in` is membership of the stored
  multiset, iteration enumerates the stored multiset, `len` counts it and
  `[key]` finds the first element with that key in iteration order.
*/
module QuadProperties {
  import opened Geometry
  import opened QuadSpec

  // ---------------------------------------------------------------------
  // Children and quadrants

  /**
    Offering a point of the box to the four quadrant children in order, the
    first to accept it is the point's own quadrant; a point outside the box
    is accepted by none of them (the "no child accepted" fallbacks of
    `insert` and `_split` are never taken).
  */
  lemma {:induction false} FirstAcceptingIsQuadrant<K>(kids: seq<Tree<K>>, b: Box, e: Element<K>)
    requires |kids| == 4 && forall i :: 0 <= i < 4 ==> kids[i].bbox == Quadrants(b)[i]
    ensures Inside(e, b) ==> FirstAccepting(kids, e, 0) == QuadrantOf(e, b)
    ensures !Inside(e, b) ==> FirstAccepting(kids, e, 0) == 4
  {
    QuadrantsPartition(e, b);
    if Inside(e, b) {
      var q := QuadrantOf(e, b);
      assert Inside(e, kids[q].bbox);
      assert FirstAccepting(kids, e, 0) <= q;
    }
  }

  /**
    Replacing one child by a tree holding `m` more elements adds `m` to the
    children's multiset.
  */
  lemma {:induction false} ElementsAllUpdate<K>(kids: seq<Tree<K>>, k: nat, x: Tree<K>, m: multiset<Element<K>>)
    requires k < |kids| && Elements(x) == Elements(kids[k]) + m
    ensures ElementsAll(kids[k := x]) == ElementsAll(kids) + m
    decreases |kids|
  {
    var n := |kids| - 1;
    if k == n {
      assert kids[k := x][..n] == kids[..n];
    } else {
      ElementsAllUpdate(kids[..n], k, x, m);
      assert kids[k := x][..n] == kids[..n][k := x];
    }
  }

  /** Multiset sums regrouped: adding `one` then `rest` is adding `rest + one`. */
  lemma {:induction false} Regroup<T>(r: multiset<T>, mid: multiset<T>, base: multiset<T>, rest: multiset<T>, all: multiset<T>, one: multiset<T>)
    requires r == mid + rest && mid == base + one && all == rest + one
    ensures r == base + all
  {
  }

  lemma {:induction false} ConcatAssoc<T>(a: seq<T>, b: seq<T>, c: seq<T>)
    ensures (a + b) + c == a + (b + c)
  {
  }

  /** Splitting off the last element of a non-empty sequence. */
  lemma {:induction false} LastSplit<T>(s: seq<T>)
    requires s != []
    ensures s == s[..|s| - 1] + [s[|s| - 1]]
    ensures multiset(s) == multiset(s[..|s| - 1]) + multiset{s[|s| - 1]}
  {
    assert s == s[..|s| - 1] + [s[|s| - 1]];
  }

  /** The four children a split creates are well formed and hold nothing. */
  lemma {:induction false} QuadrantTreesEmpty<K>(b: Box, maxItems: int, depth: nat)
    ensures QuadrantKids(QuadrantTrees<K>(b, maxItems, depth), b, maxItems, depth)
    ensures ElementsAll(QuadrantTrees<K>(b, maxItems, depth)) == multiset{}
  {
    var kids := QuadrantTrees<K>(b, maxItems, depth);
    forall i | 0 <= i < 4 ensures Elements(kids[i]) == multiset{} {}
    assert kids[..1][..0] == [];
    assert ElementsAll(kids[..1]) == multiset{};
    assert kids[..2][..1] == kids[..1];
    assert ElementsAll(kids[..2]) == multiset{};
    assert kids[..3][..2] == kids[..2];
    assert ElementsAll(kids[..3]) == multiset{};
    assert kids[..3] == kids[..|kids| - 1];
  }

  // ---------------------------------------------------------------------
  // Insertion

  /**
    `insert` keeps the tree well formed and stores exactly the new element
    when it lies inside the box; a point outside leaves the tree unchanged.
  */
  lemma {:induction false} InsertSound<K>(t: Tree<K>, e: Element<K>)
    requires Wf(t)
    ensures Wf(Insert(t, e))
    ensures Inside(e, t.bbox) ==> Elements(Insert(t, e)) == Elements(t) + multiset{e}
    ensures !Inside(e, t.bbox) ==> Insert(t, e) == t
    decreases t.maxDepth, 5
  {
    if Inside(e, t.bbox) {
      if t.children != [] {
        InsertIntoQuadrants(t, e);
      } else {
        InsertIntoLeaf(t, e);
      }
    }
  }

  /** `insert` into an internal node: the point goes to its quadrant child. */
  lemma {:induction false} InsertIntoQuadrants<K>(t: Tree<K>, e: Element<K>)
    requires Wf(t) && t.children != [] && Inside(e, t.bbox)
    ensures Wf(Insert(t, e)) && Elements(Insert(t, e)) == Elements(t) + multiset{e}
    decreases t.maxDepth, 4
  {
    var kids := t.children;
    InsertFirstSound(kids, t.bbox, t.maxItems, t.maxDepth - 1, e);
    var r := t.(children := InsertFirst(kids, e, t.maxDepth - 1), contents := []);
    assert Insert(t, e) == r;
    InternalNode(t);
    InternalNode(r);
  }

  /** `insert` into a leaf: append, then split when over capacity with depth budget left. */
  lemma {:induction false} InsertIntoLeaf<K>(t: Tree<K>, e: Element<K>)
    requires Wf(t) && t.children == [] && Inside(e, t.bbox)
    ensures Wf(Insert(t, e)) && Elements(Insert(t, e)) == Elements(t) + multiset{e}
    decreases t.maxDepth, 3
  {
    var grown := t.(contents := t.contents + [e]);
    assert Elements(grown) == Elements(t) + multiset{e} by {
      assert multiset(grown.contents) == multiset(t.contents) + multiset{e};
    }
    if |grown.contents| > t.maxItems && t.maxDepth > 0 {
      SplitSound(grown);
      assert Insert(t, e) == Split(grown);
    } else {
      assert Insert(t, e) == grown;
    }
  }

  /**
    Offering a point of the parent box to the quadrant children hands it to
    its own quadrant, keeps the children well formed and adds the point to
    their multiset.
  */
  lemma {:induction false} InsertFirstSound<K>(kids: seq<Tree<K>>, b: Box, maxItems: int, depth: nat, e: Element<K>)
    requires QuadrantKids(kids, b, maxItems, depth) && Inside(e, b)
    ensures FirstAccepting(kids, e, 0) == QuadrantOf(e, b)
    ensures QuadrantKids(InsertFirst(kids, e, depth), b, maxItems, depth)
    ensures ElementsAll(InsertFirst(kids, e, depth)) == ElementsAll(kids) + multiset{e}
    decreases depth, 6
  {
    FirstAcceptingIsQuadrant(kids, b, e);
    var k := QuadrantOf(e, b);
    QuadrantsPartition(e, b);
    InsertSound(kids[k], e);
    var r := kids[k := Insert(kids[k], e)];
    assert InsertFirst(kids, e, depth) == r;
    ElementsAllUpdate(kids, k, Insert(kids[k], e), multiset{e});
  }

  /**
    `_split` of a node whose points lie in its box: four well-formed
    quadrant children with the same `maxItems` and one less depth, which
    together hold exactly the node's former contents; the node keeps none.
  */
  lemma {:induction false} SplitSound<K>(t: Tree<K>)
    requires t.maxDepth > 0 && forall x :: x in t.contents ==> Inside(x, t.bbox)
    ensures Wf(Split(t)) && Split(t).contents == []
    ensures QuadrantKids(Split(t).children, t.bbox, t.maxItems, t.maxDepth - 1)
    ensures Elements(Split(t)) == multiset(t.contents)
    decreases t.maxDepth, 1
  {
    var depth := t.maxDepth - 1;
    var kids := QuadrantTrees<K>(t.bbox, t.maxItems, depth);
    QuadrantTreesEmpty<K>(t.bbox, t.maxItems, depth);
    SplitOver(t, kids);
    SplitUnfold(t);
  }

  /** The split's result over any empty quadrant children, taken as a parameter. */
  lemma {:induction false} SplitOver<K>(t: Tree<K>, kids: seq<Tree<K>>)
    requires t.maxDepth > 0 && forall x :: x in t.contents ==> Inside(x, t.bbox)
    requires QuadrantKids(kids, t.bbox, t.maxItems, t.maxDepth - 1) && ElementsAll(kids) == multiset{}
    ensures var r := Tree(t.bbox, t.maxItems, t.maxDepth, [], Redistribute(kids, t.contents, t.maxDepth - 1));
            Wf(r) && QuadrantKids(r.children, t.bbox, t.maxItems, t.maxDepth - 1) &&
            Elements(r) == multiset(t.contents)
    decreases t.maxDepth, 0, |t.contents| + 1
  {
    var depth := t.maxDepth - 1;
    RedistributeSound(kids, t.bbox, t.maxItems, depth, t.contents);
    var r := Tree(t.bbox, t.maxItems, t.maxDepth, [], Redistribute(kids, t.contents, depth));
    InternalNode(r);
    assert multiset{} + multiset(t.contents) == multiset(t.contents);
  }

  lemma {:induction false} SplitUnfold<K>(t: Tree<K>)
    requires t.maxDepth > 0
    ensures Split(t) == t.(children := Redistribute(QuadrantTrees(t.bbox, t.maxItems, t.maxDepth - 1), t.contents, t.maxDepth - 1),
                           contents := [])
  {
  }

  /** A node holding nothing itself, over the four quadrant children, is well formed. */
  lemma {:induction false} InternalNode<K>(t: Tree<K>)
    requires t.contents == [] && t.maxDepth > 0
    requires QuadrantKids(t.children, t.bbox, t.maxItems, t.maxDepth - 1)
    ensures Wf(t) && Elements(t) == ElementsAll(t.children)
  {
    assert multiset(t.contents) == multiset{};
  }

  /** The `pop()` loop of `_split` loses nothing and keeps the children well formed. */
  lemma {:induction false} RedistributeSound<K>(kids: seq<Tree<K>>, b: Box, maxItems: int, depth: nat, stack: seq<Element<K>>)
    requires QuadrantKids(kids, b, maxItems, depth)
    requires forall x :: x in stack ==> Inside(x, b)
    ensures QuadrantKids(Redistribute(kids, stack, depth), b, maxItems, depth)
    ensures ElementsAll(Redistribute(kids, stack, depth)) == ElementsAll(kids) + multiset(stack)
    decreases depth + 1, 0, |stack|
  {
    if stack != [] {
      var n := |stack| - 1;
      var last := stack[n];
      LastSplit(stack);
      InsertFirstSound(kids, b, maxItems, depth, last);
      var next := InsertFirst(kids, last, depth);
      RedistributeUnfold(kids, stack, depth);
      RedistributeSound(next, b, maxItems, depth, stack[..n]);
      Regroup(ElementsAll(Redistribute(next, stack[..n], depth)), ElementsAll(next), ElementsAll(kids), multiset(stack[..n]), multiset(stack), multiset{last});
    }
  }

  lemma {:induction false} RedistributeUnfold<K>(kids: seq<Tree<K>>, stack: seq<Element<K>>, depth: nat)
    requires forall c :: c in kids ==> DepthOk(c) && c.maxDepth <= depth
    requires stack != []
    ensures forall c :: c in InsertFirst(kids, stack[|stack| - 1], depth) ==> DepthOk(c) && c.maxDepth <= depth
    ensures Redistribute(kids, stack, depth) ==
            Redistribute(InsertFirst(kids, stack[|stack| - 1], depth), stack[..|stack| - 1], depth)
  {
  }

  /** Every tree reached from `__init__` by a sequence of `insert` calls is well formed. */
  lemma {:induction false} InsertAllSound<K>(t: Tree<K>, es: seq<Element<K>>)
    requires Wf(t)
    ensures Wf(InsertAll(t, es))
    ensures Elements(InsertAll(t, es)) == Elements(t) + multiset(InsideOnly(es, t.bbox))
    decreases |es|
  {
    if es != [] {
      var x := es[0];
      var next := Insert(t, x);
      InsertSound(t, x);
      InsertAllSound(next, es[1..]);
      var one: multiset<Element<K>> := if Inside(x, t.bbox) then multiset{x} else multiset{};
      assert Elements(next) == Elements(t) + one by {
        if !Inside(x, t.bbox) {
          assert Elements(t) + one == Elements(t);
        }
      }
      InsideOnlyFirst(es, t.bbox);
      Regroup(Elements(InsertAll(next, es[1..])), Elements(next), Elements(t),
              multiset(InsideOnly(es[1..], t.bbox)), multiset(InsideOnly(es, t.bbox)), one);
    }
  }

  /** The elements of `es` that lie in `b`, in their order. */
  ghost function InsideOnly<K>(es: seq<Element<K>>, b: Box): seq<Element<K>>
  {
    if es == [] then []
    else (if Inside(es[0], b) then [es[0]] else []) + InsideOnly(es[1..], b)
  }

  lemma {:induction false} InsideOnlyFirst<K>(es: seq<Element<K>>, b: Box)
    requires es != []
    ensures multiset(InsideOnly(es, b)) ==
            multiset(InsideOnly(es[1..], b)) + if Inside(es[0], b) then multiset{es[0]} else multiset{}
  {
  }

  /**
    When a split happens: inserting a point of the box into a leaf splits it
    exactly when the grown contents exceed `maxItems` and depth budget
    remains; otherwise the point is appended at the end.
  */
  lemma {:induction false} SplitsExactlyWhen<K>(t: Tree<K>, e: Element<K>)
    requires DepthOk(t) && t.children == [] && Inside(e, t.bbox)
    ensures |Insert(t, e).children| == 4 <==> |t.contents| + 1 > t.maxItems && t.maxDepth > 0
    ensures |Insert(t, e).children| == 4 ==> Insert(t, e) == Split(t.(contents := t.contents + [e]))
    ensures |Insert(t, e).children| != 4 ==> Insert(t, e) == t.(contents := t.contents + [e])
  {
  }

  /**
    With no depth budget a leaf never splits: after any sequence of inserts
    its contents are the old ones followed by the points inside the box, in
    insertion order.
  */
  lemma {:induction false} DepthZeroKeepsOrder<K>(t: Tree<K>, es: seq<Element<K>>)
    requires t.children == [] && t.maxDepth == 0
    ensures InsertAll(t, es) == t.(contents := t.contents + InsideOnly(es, t.bbox))
    decreases |es|
  {
    if es != [] {
      var x, rest := es[0], InsideOnly(es[1..], t.bbox);
      var step := if Inside(x, t.bbox) then [x] else [];
      DepthZeroStep(t, x);
      DepthZeroKeepsOrder(Insert(t, x), es[1..]);
      assert InsideOnly(es, t.bbox) == step + rest;
      ConcatAssoc(t.contents, step, rest);
    }
  }

  /** One insert into a leaf without depth budget appends the point when it lies in the box. */
  lemma {:induction false} DepthZeroStep<K>(t: Tree<K>, e: Element<K>)
    requires t.children == [] && t.maxDepth == 0
    ensures Insert(t, e) == t.(contents := t.contents + if Inside(e, t.bbox) then [e] else [])
  {
    if Inside(e, t.bbox) {
      SplitsExactlyWhen(t, e);
    }
  }

  /** The points of `stack` that fall in quadrant `i` of `b`, in the order `pop()` takes them: last first. */
  ghost function PoppedInto<K>(stack: seq<Element<K>>, b: Box, i: nat): seq<Element<K>>
  {
    if stack == [] then []
    else
      var last := stack[|stack| - 1];
      (if Inside(last, b) && QuadrantOf(last, b) == i then [last] else []) +
      PoppedInto(stack[..|stack| - 1], b, i)
  }

  /**
    Redistribution into children without depth budget: each child receives
    the points of its quadrant appended in pop order, last inserted first.
  */
  lemma {:induction false} RedistributeIntoLeaves<K>(kids: seq<Tree<K>>, b: Box, maxItems: int, stack: seq<Element<K>>)
    requires QuadrantKids(kids, b, maxItems, 0)
    requires forall x :: x in stack ==> Inside(x, b)
    ensures forall i :: 0 <= i < 4 ==>
              Redistribute(kids, stack, 0)[i].contents == kids[i].contents + PoppedInto(stack, b, i)
    decreases |stack|
  {
    var r := Redistribute(kids, stack, 0);
    if stack == [] {
      forall i | 0 <= i < 4 ensures r[i].contents == kids[i].contents + PoppedInto(stack, b, i) {
        assert kids[i].contents + [] == kids[i].contents;
      }
    } else {
      var n := |stack| - 1;
      var last := stack[n];
      var k := QuadrantOf(last, b);
      InsertFirstSound(kids, b, maxItems, 0, last);
      InsertFirstIntoLeaves(kids, b, maxItems, last);
      var next := InsertFirst(kids, last, 0);
      RedistributeUnfold(kids, stack, 0);
      RedistributeIntoLeaves(next, b, maxItems, stack[..n]);
      forall i | 0 <= i < 4 ensures r[i].contents == kids[i].contents + PoppedInto(stack, b, i) {
        var step := if k == i then [last] else [];
        var rest := PoppedInto(stack[..n], b, i);
        assert next[i].contents == kids[i].contents + step;
        assert PoppedInto(stack, b, i) == step + rest;
        ConcatAssoc(kids[i].contents, step, rest);
      }
    }
  }

  /** Children without depth budget: the point is appended to its own quadrant's contents. */
  lemma {:induction false} InsertFirstIntoLeaves<K>(kids: seq<Tree<K>>, b: Box, maxItems: int, e: Element<K>)
    requires QuadrantKids(kids, b, maxItems, 0) && Inside(e, b)
    ensures forall i :: 0 <= i < 4 ==>
              InsertFirst(kids, e, 0)[i].contents == kids[i].contents + if QuadrantOf(e, b) == i then [e] else []
  {
    var k := QuadrantOf(e, b);
    FirstAcceptingIsQuadrant(kids, b, e);
    assert InsertFirst(kids, e, 0) == kids[k := Insert(kids[k], e)];
    DepthZeroStep(kids[k], e);
    QuadrantsPartition(e, b);
  }

  /**
    A split with one level of budget left: the node keeps nothing and child
    `i` (SW, SE, NE, NW) holds the node's points of quadrant `i` in pop
    order.
  */
  lemma {:induction false} SplitAtDepthOne<K>(t: Tree<K>)
    requires t.maxDepth == 1 && forall x :: x in t.contents ==> Inside(x, t.bbox)
    ensures Split(t).contents == [] && |Split(t).children| == 4
    ensures forall i :: 0 <= i < 4 ==>
              Split(t).children[i].children == [] &&
              Split(t).children[i].contents == PoppedInto(t.contents, t.bbox, i)
  {
    var kids := QuadrantTrees<K>(t.bbox, t.maxItems, 0);
    QuadrantTreesEmpty<K>(t.bbox, t.maxItems, 0);
    RedistributeIntoLeaves(kids, t.bbox, t.maxItems, t.contents);
    SplitSound(t);
  }

  // ---------------------------------------------------------------------
  // Read operations

  /** Every stored point of a well-formed tree lies in the tree's box. */
  lemma {:induction false} StoredInside<K>(t: Tree<K>)
    requires Wf(t)
    ensures forall x :: x in Elements(t) ==> Inside(x, t.bbox)
    decreases t, 1
  {
    if t.children != [] {
      StoredInsideAll(t.children, t.bbox);
    }
  }

  lemma {:induction false} StoredInsideAll<K>(kids: seq<Tree<K>>, b: Box)
    requires forall c :: c in kids ==> Wf(c) && c.bbox in Quadrants(b)
    ensures forall x :: x in ElementsAll(kids) ==> Inside(x, b)
    decreases kids, 0
  {
    if kids != [] {
      var n := |kids| - 1;
      assert kids[n] in kids;
      StoredInsideAll(kids[..n], b);
      StoredInside(kids[n]);
      forall x | x in Elements(kids[n]) ensures Inside(x, b) {
        QuadrantsPartition(x, b);
      }
    }
  }

  /**
    `intersect` on a well-formed tree is exactly the stored points inside the
    query box: the overlap pruning never drops one.
  */
  lemma {:induction false} IntersectExact<K>(t: Tree<K>, q: Box)
    requires Wf(t)
    ensures Intersect(t, q) == set x | x in Elements(t) && Inside(x, q)
    decreases t, 1
  {
    if !IntersectsBBox(t.bbox, q) {
      StoredInside(t);
      forall x | x in Elements(t) ensures !Inside(x, q) {
        OverlapWhenSharedPoint(t.bbox, q, x);
      }
    } else if |t.children| > 0 {
      IntersectAllExact(t.children, q);
    }
  }

  lemma {:induction false} IntersectAllExact<K>(kids: seq<Tree<K>>, q: Box)
    requires forall c :: c in kids ==> Wf(c)
    ensures IntersectAll(kids, q) == set x | x in ElementsAll(kids) && Inside(x, q)
    decreases kids, 0
  {
    if kids != [] {
      var n := |kids| - 1;
      assert kids[n] in kids;
      IntersectAllExact(kids[..n], q);
      IntersectExact(kids[n], q);
    }
  }

  /** Iterating a well-formed tree enumerates the stored multiset. */
  lemma {:induction false} IterElements<K>(t: Tree<K>)
    requires Wf(t)
    ensures multiset(Iter(t)) == Elements(t)
    decreases t, 1
  {
    if |t.contents| == 0 {
      IterAllElements(t.children);
    }
  }

  lemma {:induction false} IterAllElements<K>(kids: seq<Tree<K>>)
    requires forall c :: c in kids ==> Wf(c)
    ensures multiset(IterAll(kids)) == ElementsAll(kids)
    decreases kids, 0
  {
    if kids != [] {
      var n := |kids| - 1;
      assert kids[n] in kids;
      IterAllElements(kids[..n]);
      IterElements(kids[n]);
    }
  }

  /** On a well-formed tree `__len__` counts the stored elements. */
  lemma {:induction false} LenCountsElements<K>(t: Tree<K>)
    requires Wf(t)
    ensures Len(t) == |Elements(t)|
  {
    IterElements(t);
  }

  /** The first element with the key in a concatenation. */
  lemma {:induction false} FirstWithKeyConcat<K>(a: seq<Element<K>>, b: seq<Element<K>>, key: K)
    ensures FirstWithKey(a + b, key) ==
              if FirstWithKey(a, key).Some? then FirstWithKey(a, key) else FirstWithKey(b, key)
    decreases |a|
  {
    if a == [] {
      assert a + b == b;
    } else {
      assert (a + b)[1..] == a[1..] + b;
      FirstWithKeyConcat(a[1..], b, key);
    }
  }

  /**
    `__getitem__` on a well-formed tree returns the first element with the
    key in iteration order (children in SW, SE, NE, NW order, each leaf in
    storage order).
  */
  lemma {:induction false} GetItemFirstInIteration<K>(t: Tree<K>, key: K)
    requires Wf(t)
    ensures GetItem(t, key) == FirstWithKey(Iter(t), key)
    decreases t, 1
  {
    if |t.children| > 0 {
      GetAllFirstInIteration(t.children, key);
    }
  }

  lemma {:induction false} GetAllFirstInIteration<K>(kids: seq<Tree<K>>, key: K)
    requires forall c :: c in kids ==> Wf(c)
    ensures GetAll(kids, key) == FirstWithKey(IterAll(kids), key)
    decreases kids, 0
  {
    if kids != [] {
      var n := |kids| - 1;
      assert kids[n] in kids;
      GetAllFirstInIteration(kids[..n], key);
      GetItemFirstInIteration(kids[n], key);
      FirstWithKeyConcat(IterAll(kids[..n]), Iter(kids[n]), key);
    }
  }

  /**
    `__getitem__` finds a stored element with the key, and raises `KeyError`
    (None) exactly when no stored element has it.
  */
  lemma {:induction false} GetItemSound<K>(t: Tree<K>, key: K)
    requires Wf(t)
    ensures GetItem(t, key).None? <==> forall x :: x in Elements(t) ==> x.key != key
    ensures GetItem(t, key).Some? ==> GetItem(t, key).value in Elements(t) && GetItem(t, key).value.key == key
  {
    GetItemFirstInIteration(t, key);
    IterElements(t);
    var s := Iter(t);
    assert forall x :: x in Elements(t) <==> x in s;
  }

  /**
    After inserting a point of the box, the point and everything stored
    before are members and are produced by iteration.
  */
  lemma {:induction false} InsertKeepsEverything<K>(t: Tree<K>, e: Element<K>, x: Element<K>)
    requires Wf(t) && Inside(e, t.bbox)
    ensures Contains(Insert(t, e), e) && e in Iter(Insert(t, e))
    ensures Contains(t, x) ==> Contains(Insert(t, e), x) && x in Iter(Insert(t, e))
  {
    InsertSound(t, e);
    IterElements(Insert(t, e));
    assert e in multiset(Iter(Insert(t, e)));
    assert Contains(t, x) ==> x in multiset(Iter(Insert(t, e)));
  }

  /** A point outside the box is never a member of a well-formed tree. */
  lemma {:induction false} OutsideNeverContained<K>(t: Tree<K>, e: Element<K>)
    requires Wf(t) && !Inside(e, t.bbox)
    ensures !Contains(t, e)
  {
    StoredInside(t);
  }
}
