/**
  An insertion scenario from the project's own test suite, worked out on the
  QuadSpec model: a 10 x 10 tree with `maxItems` 2 and depth budget 1 takes
  el1 (1, 2), el2 (7, 9), el3 (6, 3) and el4 (8, 4). The third insert splits
  the root; the `pop()` loop hands el3, el2, el1 to the SE, NE and SW
  children; the fourth insert goes to the SE child after el3.

  The run is proved for any box and any four points placed like these
  (DepthOneRun); DepthOneScenario then only checks the placement of the
  concrete points.
*/
module QuadScenarios {
  import opened Geometry
  import opened QuadSpec
  import opened QuadProperties

  /** Inserting four elements is four inserts in a row. */
  lemma {:induction false} InsertAllFour<K>(t: Tree<K>, a: Element<K>, b: Element<K>, c: Element<K>, d: Element<K>)
    requires DepthOk(t)
    ensures InsertAll(t, [a, b, c, d]) == Insert(Insert(Insert(Insert(t, a), b), c), d)
  {
    var es := [a, b, c, d];
    var t1 := Insert(t, a);
    var t2 := Insert(t1, b);
    var t3 := Insert(t2, c);
    var t4 := Insert(t3, d);
    assert es[1..] == [b, c, d];
    assert [b, c, d][1..] == [c, d];
    assert [c, d][1..] == [d];
    assert [d][1..] == [];
    assert InsertAll(t4, []) == t4;
    assert InsertAll(t3, [d]) == t4;
    assert InsertAll(t2, [c, d]) == t4;
    assert InsertAll(t1, [b, c, d]) == t4;
  }

  /** Pop order over three elements: the last one is handed out first. */
  lemma {:induction false} PoppedIntoThree<K>(a: Element<K>, c: Element<K>, d: Element<K>, b: Box, i: nat)
    ensures PoppedInto([a, c, d], b, i) ==
            (if Inside(d, b) && QuadrantOf(d, b) == i then [d] else []) +
            ((if Inside(c, b) && QuadrantOf(c, b) == i then [c] else []) +
             (if Inside(a, b) && QuadrantOf(a, b) == i then [a] else []))
  {
    var pa := if Inside(a, b) && QuadrantOf(a, b) == i then [a] else [];
    var pc := if Inside(c, b) && QuadrantOf(c, b) == i then [c] else [];
    assert [a][..0] == [];
    assert PoppedInto([a], b, i) == pa + [];
    assert pa + [] == pa;
    assert [a, c][..1] == [a];
    assert PoppedInto([a, c], b, i) == pc + pa;
    assert [a, c, d][..2] == [a, c];
  }

  /** The first two inserts into an empty leaf with `maxItems` 2 are appended. */
  lemma {:induction false} FirstTwoAppended<K>(b: Box, e1: Element<K>, e2: Element<K>)
    requires Inside(e1, b) && Inside(e2, b)
    ensures Insert(Insert(NewTree(b, 2, 1), e1), e2) == NewTree(b, 2, 1).(contents := [e1, e2])
  {
    var t0 := NewTree<K>(b, 2, 1);
    SplitsExactlyWhen(t0, e1);
    SplitsExactlyWhen(t0.(contents := [e1]), e2);
  }

  /** A third insert into a leaf holding two points with `maxItems` 2 and depth budget splits it. */
  lemma {:induction false} ThirdSplits<K>(t: Tree<K>, e: Element<K>)
    requires t.children == [] && t.maxItems == 2 && t.maxDepth == 1 && |t.contents| == 2 && Inside(e, t.bbox)
    ensures Insert(t, e) == Split(t.(contents := t.contents + [e]))
  {
    SplitsExactlyWhen(t, e);
  }

  /** The split of [e1, e2, e3]: pop order puts e3 in SE, e2 in NE and e1 in SW. */
  lemma {:induction false} SplitOfThree<K>(b: Box, e1: Element<K>, e2: Element<K>, e3: Element<K>)
    requires Inside(e1, b) && Inside(e2, b) && Inside(e3, b)
    requires QuadrantOf(e1, b) == 0 && QuadrantOf(e2, b) == 2 && QuadrantOf(e3, b) == 1
    ensures var r := Split(NewTree(b, 2, 1).(contents := [e1, e2, e3]));
            r.contents == [] && r.bbox == b && r.maxItems == 2 && r.maxDepth == 1 &&
            QuadrantKids(r.children, b, 2, 0) &&
            r.children[0].contents == [e1] && r.children[1].contents == [e3] &&
            r.children[2].contents == [e2] && r.children[3].contents == []
  {
    var grown := NewTree<K>(b, 2, 1).(contents := [e1, e2, e3]);
    SplitAtDepthOne(grown);
    SplitSound(grown);
    PoppedIntoThree(e1, e2, e3, b, 0);
    PoppedIntoThree(e1, e2, e3, b, 1);
    PoppedIntoThree(e1, e2, e3, b, 2);
    PoppedIntoThree(e1, e2, e3, b, 3);
  }

  /** An insert into a split node with depth-0 children appends to the point's quadrant. */
  lemma {:induction false} IntoSplitNode<K>(r: Tree<K>, e: Element<K>)
    requires r.contents == [] && r.maxDepth == 1 && QuadrantKids(r.children, r.bbox, r.maxItems, 0)
    requires Inside(e, r.bbox)
    ensures Insert(r, e).contents == [] && |Insert(r, e).children| == 4
    ensures forall i :: 0 <= i < 4 ==>
              Insert(r, e).children[i].contents ==
              r.children[i].contents + if QuadrantOf(e, r.bbox) == i then [e] else []
  {
    InsertFirstSound(r.children, r.bbox, r.maxItems, 0, e);
    InsertFirstIntoLeaves(r.children, r.bbox, r.maxItems, e);
    assert Insert(r, e) == r.(children := InsertFirst(r.children, e, 0), contents := []);
  }

  /** The first three inserts leave the split of [e1, e2, e3]. */
  lemma {:induction false} ThreeInserts<K>(b: Box, e1: Element<K>, e2: Element<K>, e3: Element<K>)
    requires Inside(e1, b) && Inside(e2, b) && Inside(e3, b)
    ensures Insert(Insert(Insert(NewTree(b, 2, 1), e1), e2), e3) ==
            Split(NewTree(b, 2, 1).(contents := [e1, e2, e3]))
  {
    FirstTwoAppended(b, e1, e2);
    var t2 := NewTree<K>(b, 2, 1).(contents := [e1, e2]);
    ThirdSplits(t2, e3);
    assert t2.(contents := t2.contents + [e3]) == NewTree<K>(b, 2, 1).(contents := [e1, e2, e3]);
  }

  /** The fourth insert appends e4 to the SE child, after e3. */
  lemma {:induction false} FourthInsert<K>(b: Box, e1: Element<K>, e2: Element<K>, e3: Element<K>, e4: Element<K>)
    requires Inside(e1, b) && Inside(e2, b) && Inside(e3, b) && Inside(e4, b)
    requires QuadrantOf(e1, b) == 0 && QuadrantOf(e2, b) == 2 && QuadrantOf(e3, b) == 1 && QuadrantOf(e4, b) == 1
    ensures var t := Insert(Split(NewTree(b, 2, 1).(contents := [e1, e2, e3])), e4);
            t.contents == [] && |t.children| == 4 &&
            t.children[0].contents == [e1] && t.children[1].contents == [e3, e4] &&
            t.children[2].contents == [e2] && t.children[3].contents == []
  {
    SplitOfThree(b, e1, e2, e3);
    var r := Split(NewTree<K>(b, 2, 1).(contents := [e1, e2, e3]));
    IntoSplitNode(r, e4);
    var t := Insert(r, e4);
    assert t.children[0].contents == [e1] + [];
    assert t.children[2].contents == [e2] + [];
  }

  /** The scenario for any box and four points placed like el1 to el4. */
  lemma {:induction false} DepthOneRun<K>(b: Box, e1: Element<K>, e2: Element<K>, e3: Element<K>, e4: Element<K>)
    requires Inside(e1, b) && Inside(e2, b) && Inside(e3, b) && Inside(e4, b)
    requires QuadrantOf(e1, b) == 0 && QuadrantOf(e2, b) == 2 && QuadrantOf(e3, b) == 1 && QuadrantOf(e4, b) == 1
    ensures var t := InsertAll(NewTree(b, 2, 1), [e1, e2, e3, e4]);
            t.contents == [] && |t.children| == 4 &&
            t.children[0].contents == [e1] && t.children[1].contents == [e3, e4] &&
            t.children[2].contents == [e2] && t.children[3].contents == []
  {
    InsertAllFour(NewTree<K>(b, 2, 1), e1, e2, e3, e4);
    ThreeInserts(b, e1, e2, e3);
    FourthInsert(b, e1, e2, e3, e4);
  }

  /**
    The test of the depth limit: the root keeps nothing and the children
    hold [el1], [el3, el4], [el2] and [].
  */
  lemma {:induction false} DepthOneScenario()
    ensures var t := InsertAll(NewTree(Box(0.0, 0.0, 10.0, 10.0), 2, 1),
                               [Element("el1", 1.0, 2.0), Element("el2", 7.0, 9.0),
                                Element("el3", 6.0, 3.0), Element("el4", 8.0, 4.0)]);
            t.contents == [] && |t.children| == 4 &&
            t.children[0].contents == [Element("el1", 1.0, 2.0)] &&
            t.children[1].contents == [Element("el3", 6.0, 3.0), Element("el4", 8.0, 4.0)] &&
            t.children[2].contents == [Element("el2", 7.0, 9.0)] &&
            t.children[3].contents == []
  {
    DepthOneRun(Box(0.0, 0.0, 10.0, 10.0), Element("el1", 1.0, 2.0), Element("el2", 7.0, 9.0),
                Element("el3", 6.0, 3.0), Element("el4", 8.0, 4.0));
  }
}
