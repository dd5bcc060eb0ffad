/**
  Points, bounding boxes and the two geometric predicates that gate every
  quadtree operation: the half-open point-in-box test and the (asymmetric)
  box-overlap test used to prune range queries. Coordinates are exact reals,
  so the four quadrants of a box partition it without rounding.
*/
module Geometry {

  /** A bounding box (x0, y0, x1, y1): bottom-left and top-right corners. */
  datatype Box = Box(x0: real, y0: real, x1: real, y1: real)

  /** A stored element (key, x, y): an opaque key and the point it sits at. */
  datatype Element<K> = Element(key: K, x: real, y: real)

  /**
    `_inside`: half-open on both axes, x0 <= x < x1 and y0 <= y < y1. The
    bottom-left corner of a proper box is inside it, a point on its top or
    right edge is not, and only a box proper on both axes holds any point.
  */
  predicate Inside<K>(e: Element<K>, b: Box)
    ensures Inside(e, b) ==> b.x0 < b.x1 && b.y0 < b.y1
    ensures e.x == b.x1 || e.y == b.y1 ==> !Inside(e, b)
    ensures e.x == b.x0 && e.y == b.y0 && b.x0 < b.x1 && b.y0 < b.y1 ==> Inside(e, b)
  {
    b.x0 <= e.x < b.x1 && b.y0 <= e.y < b.y1
  }

  function Max(a: real, b: real): real { if a < b then b else a }
  function Min(a: real, b: real): real { if a < b then a else b }

  /**
    `_intersects_bbox`: the overlap test between a node's box and a query box.
    The query's lower bounds are compared with `>=` and its upper bounds with
    `<`, so the test is not symmetric in its two arguments. Two boxes whose
    common region has an interior overlap; a query whose right edge lies on
    the node's left edge still overlaps it, while one whose left edge lies on
    the node's right edge does not.
  */
  predicate IntersectsBBox(node: Box, query: Box)
    ensures (Max(node.x0, query.x0) < Min(node.x1, query.x1) &&
             Max(node.y0, query.y0) < Min(node.y1, query.y1)) ==> IntersectsBBox(node, query)
    ensures query.x1 == node.x0 && query.x0 < node.x1 && query.y0 < node.y1 && node.y0 <= query.y1 ==> IntersectsBBox(node, query)
    ensures query.x0 == node.x1 ==> !IntersectsBBox(node, query)
  {
    var vertical := !(query.y0 >= node.y1 || query.y1 < node.y0);
    var horizontal := !(query.x0 >= node.x1 || query.x1 < node.x0);
    vertical && horizontal
  }
  /**
    `_validate_bbox` refuses a box only when BOTH axes are empty or inverted:
    one proper axis is enough to pass.
  */
  predicate BBoxAccepted(b: Box)
    ensures b.x0 < b.x1 ==> BBoxAccepted(b)
    ensures b.y0 < b.y1 ==> BBoxAccepted(b)
    ensures b.x1 <= b.x0 && b.y1 <= b.y0 ==> !BBoxAccepted(b)
  {
    b.x0 < b.x1 || b.y0 < b.y1
  }

  /** The four half-size boxes of a split, in the order SW, SE, NE, NW. */
  function Quadrants(b: Box): (q: seq<Box>)
    ensures |q| == 4
  {
    var xm := (b.x1 - b.x0) / 2.0;
    var ym := (b.y1 - b.y0) / 2.0;
    [ Box(b.x0, b.y0, b.x0 + xm, b.y0 + ym),
      Box(b.x0 + xm, b.y0, b.x1, b.y0 + ym),
      Box(b.x0 + xm, b.y0 + ym, b.x1, b.y1),
      Box(b.x0, b.y0 + ym, b.x0 + xm, b.y1) ]
  }

  /** The quadrant (0 = SW, 1 = SE, 2 = NE, 3 = NW) a point of the box falls in. */
  function QuadrantOf<K>(e: Element<K>, b: Box): (i: nat)
    ensures i < 4
  {
    var xm := (b.x1 - b.x0) / 2.0;
    var ym := (b.y1 - b.y0) / 2.0;
    if e.y < b.y0 + ym then (if e.x < b.x0 + xm then 0 else 1)
    else (if e.x < b.x0 + xm then 3 else 2)
  }

  /**
    The quadrants partition the box: a point lies in quadrant i exactly when it
    lies in the box and i is its quadrant. So a point on a shared edge belongs
    to one quadrant only, and a point of the box is never in none of them.
  */
  lemma QuadrantsPartition<K>(e: Element<K>, b: Box)
    ensures forall i :: 0 <= i < 4 ==>
              (Inside(e, Quadrants(b)[i]) <==> Inside(e, b) && i == QuadrantOf(e, b))
  {
  }

  /** A box that passes validation splits into four boxes that pass it too. */
  lemma QuadrantsAccepted(b: Box)
    requires BBoxAccepted(b)
    ensures forall i :: 0 <= i < 4 ==> BBoxAccepted(Quadrants(b)[i])
  {
  }

  /**
    The validation quirk: a box with one inverted or empty axis is accepted,
    yet no point is inside it.
  */
  lemma AcceptedBoxMayBeEmpty<K>(b: Box, e: Element<K>)
    requires BBoxAccepted(b) && !(b.x0 < b.x1 && b.y0 < b.y1)
    ensures !Inside(e, b)
  {
  }

  /** A box holding some point passes validation. */
  lemma InhabitedBoxAccepted<K>(b: Box, e: Element<K>)
    requires Inside(e, b)
    ensures BBoxAccepted(b)
  {
  }

  /**
    Pruning is sound: when a point lies in both the node's box and the query
    box, the overlap test lets the query descend.
  */
  lemma OverlapWhenSharedPoint<K>(node: Box, query: Box, e: Element<K>)
    ensures Inside(e, node) && Inside(e, query) ==> IntersectsBBox(node, query)
  {
  }

  /**
    The overlap test is not symmetric: a query box whose right edge touches a
    node's left edge overlaps it, but not the other way round.
  */
  lemma OverlapNotSymmetric()
    ensures IntersectsBBox(Box(0.0, 0.0, 1.0, 1.0), Box(-1.0, 0.0, 0.0, 1.0))
    ensures !IntersectsBBox(Box(-1.0, 0.0, 0.0, 1.0), Box(0.0, 0.0, 1.0, 1.0))
  {
  }
}
