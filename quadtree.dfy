/**
  The `QuadTree` class: a node that is at the same time the whole subtree
  below it. `insert` and `_split` change the node in place (appending to and
  clearing `contents`, replacing `children`); the read operations walk the
  children. Each node keeps a ghost `Model`, the `QuadSpec.Tree` value of its
  subtree, and every method is proved against the matching QuadSpec function.
*/
module QuadTrees {
  import opened Geometry
  import QuadSpec

  /** `ValueError` of `_validate_bbox`, carrying the refused box. */
  datatype Error = InvalidBBox(bbox: Box)

  datatype Result<T> = Success(value: T) | Failure(error: Error)

  class QuadTree<K(==)> {
    const bbox: Box
    const maxItems: int
    const maxDepth: nat
    var contents: seq<Element<K>>
    var children: seq<QuadTree<K>>

    /** The value of the subtree rooted here. */
    ghost var Model: QuadSpec.Tree<K>
    /** The nodes of the subtree rooted here. */
    ghost var Repr: set<object>

    /**
      The object invariant: the fields agree with `Model`, every child is a
      valid node whose model is the matching child of `Model`, the children's
      subtrees are disjoint and do not contain this node, and the box passed
      validation.
    */
    ghost predicate Valid()
      reads this, Repr
      ensures Valid() ==> this in Repr
      decreases Repr
    {
      this in Repr &&
      Model.bbox == bbox && Model.maxItems == maxItems && Model.maxDepth == maxDepth &&
      Model.contents == contents && |Model.children| == |children| &&
      BBoxAccepted(bbox) && QuadSpec.DepthOk(Model) && (children != [] ==> maxDepth > 0) &&
      (forall i :: 0 <= i < |children| ==>
        children[i] in Repr && children[i].Repr <= Repr && this !in children[i].Repr &&
        children[i].Valid() && children[i].Model == Model.children[i]) &&
      (forall i, j :: 0 <= i < j < |children| ==> children[i].Repr !! children[j].Repr)
    }

    /**
      `__init__` for a box that passes `_validate_bbox`; a negative depth
      budget becomes 0. See `Create` for the refused case.
    */
    constructor (bbox: Box, maxItems: int := 10, maxDepth: int := 10)
      requires BBoxAccepted(bbox)
      ensures Valid() && fresh(Repr)
      ensures Model == QuadSpec.NewTree(bbox, maxItems, maxDepth)
      ensures NewLeaf()
    {
      this.bbox := bbox;
      this.maxItems := maxItems;
      this.maxDepth := if maxDepth >= 0 then maxDepth else 0;
      contents := [];
      children := [];
      Model := QuadSpec.NewTree(bbox, maxItems, maxDepth);
      Repr := {this};
    }

    /**
      After one child changed its own subtree (and only that), and this node
      took the child's new model and nodes into its own, the node is valid
      again.
    */
    twostate lemma AdoptChild(i: nat)
      requires old(Valid()) && i < |children| && children == old(children)
      requires children[i].Valid() && fresh(children[i].Repr - old(children[i].Repr))
      requires unchanged(old(Repr) - old(children[i].Repr) - {this})
      requires Repr == old(Repr) + children[i].Repr
      requires Model.children == old(Model).children[i := children[i].Model]
      requires QuadSpec.SameFrame(old(Model), Model) && Model.contents == contents
      requires QuadSpec.DepthOk(Model)
      ensures Valid()
    {
      forall k | 0 <= k < |children|
        ensures children[k] in Repr && children[k].Repr <= Repr && this !in children[k].Repr
        ensures children[k].Valid() && children[k].Model == Model.children[k]
      {
        if k != i {
          assert children[k] in old(children[k].Repr);
          assert children[k].Repr !! old(children[i].Repr);
        }
      }
      forall k, j | 0 <= k < j < |children|
        ensures children[k].Repr !! children[j].Repr
      {
        assert children[k] in old(children[k].Repr);
        assert children[j] in old(children[j].Repr);
      }
    }

    /** Replacing this node's own contents, and nothing else, keeps it valid. */
    twostate lemma ContentsReplaced()
      requires old(Valid())
      requires children == old(children) && Repr == old(Repr) && unchanged(Repr - {this})
      requires Model == old(Model).(contents := contents)
      ensures Valid()
    {
      forall k | 0 <= k < |children|
        ensures children[k].Valid() && children[k].Repr == old(children[k].Repr)
      {
        assert children[k] in old(children[k].Repr);
      }
    }

    /**
      `insert`: false and no change when the element is outside the box,
      true otherwise; the new state is the one QuadSpec.Insert describes.
    */
    method Insert(e: Element<K>) returns (ok: bool)
      requires Valid()
      modifies Repr
      ensures Valid() && fresh(Repr - old(Repr))
      ensures ok == Inside(e, bbox)
      ensures Model == QuadSpec.Insert(old(Model), e)
      ensures !ok ==> Repr == old(Repr) && unchanged(Repr)
      decreases maxDepth, 4
    {
      if !Inside(e, bbox) {
        return false;
      }
      if |children| > 0 {
        ok := OfferToChildren(e);
        if ok {
          label Accepted:
          contents := [];
          Model := Model.(contents := []);
          ContentsReplaced@Accepted();
          return;
        }
      }
      label Appending:
      contents := contents + [e];
      Model := Model.(contents := contents);
      ContentsReplaced@Appending();
      if |contents| > maxItems && maxDepth > 0 {
        Split();
      }
      ok := true;
    }

    /**
      The `for child in self.children` loop shared by `insert` and `_split`:
      the children are offered the element in order and the first that
      accepts it keeps it. The new state is the one QuadSpec.InsertFirst
      describes.
    */
    method OfferToChildren(e: Element<K>) returns (accepted: bool)
      requires Valid() && |children| > 0
      modifies Repr
      ensures Valid() && fresh(Repr - old(Repr))
      ensures children == old(children) && contents == old(contents)
      ensures accepted <==> QuadSpec.FirstAccepting(old(Model).children, e, 0) < |children|
      ensures Model == old(Model).(children := QuadSpec.InsertFirst(old(Model).children, e, maxDepth - 1))
      ensures !accepted ==> Repr == old(Repr) && unchanged(Repr)
      decreases maxDepth, 1
    {
      var i := 0;
      while i < |children|
        invariant 0 <= i <= |children|
        invariant Valid() && Repr == old(Repr) && unchanged(Repr)
        invariant forall j :: 0 <= j < i ==> !Inside(e, Model.children[j].bbox)
      {
        accepted := InsertIntoChild(i, e);
        if accepted {
          assert QuadSpec.FirstAccepting(old(Model).children, e, 0) == i;
          return;
        }
        i := i + 1;
      }
      accepted := false;
    }

    /**
      The call `child.insert(element)`, together with this node taking the
      child's new state into its model.
    */
    method InsertIntoChild(i: nat, e: Element<K>) returns (ok: bool)
      requires Valid() && i < |children|
      modifies Repr
      ensures Valid() && fresh(Repr - old(Repr))
      ensures children == old(children) && contents == old(contents)
      ensures ok == Inside(e, old(Model).children[i].bbox)
      ensures Model == old(Model).(children := old(Model).children[i := QuadSpec.Insert(old(Model).children[i], e)])
      ensures !ok ==> Repr == old(Repr) && unchanged(Repr)
      decreases maxDepth, 0
    {
      assert Model.children[i] in Model.children;
      ok := children[i].Insert(e);
      if ok {
        Model := Model.(children := Model.children[i := children[i].Model]);
        Repr := Repr + children[i].Repr;
        AdoptChild(i);
      }
    }

    /**
      `_split`: four fresh children on the quadrants of the box, then the
      contents popped from the end and each given to the first child that
      accepts it. The new state is the one QuadSpec.Split describes.
    */
    method Split()
      requires Valid() && maxDepth > 0
      modifies this
      ensures Valid() && fresh(Repr - old(Repr))
      ensures Model == QuadSpec.Split(old(Model))
      decreases maxDepth, 3
    {
      MakeChildren();
      ghost var target := QuadSpec.Redistribute(Model.children, contents, maxDepth - 1);
      while contents != []
        invariant Valid() && fresh(Repr - {this}) && |children| == 4
        invariant QuadSpec.Redistribute(Model.children, contents, maxDepth - 1) == target
        decreases |contents|
      {
        PopIntoChild();
      }
    }

    /** The first half of `_split`: the four quadrant children replace any old ones. */
    method MakeChildren()
      requires BBoxAccepted(bbox) && maxDepth > 0 && Model.contents == contents
      requires Model.bbox == bbox && Model.maxItems == maxItems && Model.maxDepth == maxDepth
      modifies this
      ensures Valid() && fresh(Repr - {this})
      ensures contents == old(contents) && |children| == 4
      ensures Model == old(Model).(children := QuadSpec.QuadrantTrees(bbox, maxItems, maxDepth - 1))
    {
      var q := Quadrants(bbox);
      QuadrantsAccepted(bbox);
      var sw := new QuadTree(q[0], maxItems, maxDepth - 1);
      var se := new QuadTree(q[1], maxItems, maxDepth - 1);
      var ne := new QuadTree(q[2], maxItems, maxDepth - 1);
      var nw := new QuadTree(q[3], maxItems, maxDepth - 1);
      children := [sw, se, ne, nw];
      Repr := {this, sw, se, ne, nw};
      Model := Model.(children := QuadSpec.QuadrantTrees(bbox, maxItems, maxDepth - 1));
      FreshChildren(sw, se, ne, nw);
    }

    /** What the constructor leaves behind: a leaf with nothing stored. */
    ghost predicate NewLeaf()
      reads this
    {
      Repr == {this} && children == [] && contents == [] && BBoxAccepted(bbox) &&
      Model == QuadSpec.NewTree(bbox, maxItems, maxDepth)
    }

    /** Four distinct new leaves of a smaller depth, installed as the children, leave a valid node. */
    twostate lemma FreshChildren(new sw: QuadTree<K>, new se: QuadTree<K>, new ne: QuadTree<K>, new nw: QuadTree<K>)
      requires fresh(sw) && fresh(se) && fresh(ne) && fresh(nw)
      requires sw != se && sw != ne && sw != nw && se != ne && se != nw && ne != nw
      requires children == [sw, se, ne, nw] && Repr == {this, sw, se, ne, nw}
      requires sw.NewLeaf() && se.NewLeaf() && ne.NewLeaf() && nw.NewLeaf()
      requires sw.maxDepth < maxDepth && se.maxDepth < maxDepth && ne.maxDepth < maxDepth && nw.maxDepth < maxDepth
      requires Model.bbox == bbox && Model.maxItems == maxItems && Model.maxDepth == maxDepth
      requires Model.contents == contents && BBoxAccepted(bbox)
      requires |Model.children| == 4 && Model.children[0] == sw.Model && Model.children[1] == se.Model
      requires Model.children[2] == ne.Model && Model.children[3] == nw.Model
      ensures Valid() && fresh(Repr - {this})
    {
      LeavesInstalled(sw, se, ne, nw);
    }

    /** The one-state half of FreshChildren: distinct leaves make a valid node. */
    lemma LeavesInstalled(sw: QuadTree<K>, se: QuadTree<K>, ne: QuadTree<K>, nw: QuadTree<K>)
      requires children == [sw, se, ne, nw] && Repr == {this, sw, se, ne, nw}
      requires this != sw && this != se && this != ne && this != nw
      requires sw != se && sw != ne && sw != nw && se != ne && se != nw && ne != nw
      requires sw.NewLeaf() && se.NewLeaf() && ne.NewLeaf() && nw.NewLeaf()
      requires sw.maxDepth < maxDepth && se.maxDepth < maxDepth && ne.maxDepth < maxDepth && nw.maxDepth < maxDepth
      requires Model.bbox == bbox && Model.maxItems == maxItems && Model.maxDepth == maxDepth
      requires Model.contents == contents && BBoxAccepted(bbox)
      requires |Model.children| == 4 && Model.children[0] == sw.Model && Model.children[1] == se.Model
      requires Model.children[2] == ne.Model && Model.children[3] == nw.Model
      ensures Valid()
    {
      sw.LeafValid();
      se.LeafValid();
      ne.LeafValid();
      nw.LeafValid();
      forall i, j | 0 <= i < j < 4
        ensures children[i].Repr !! children[j].Repr
      {
        assert children[i].Repr == {children[i]} && children[j].Repr == {children[j]};
      }
      assert QuadSpec.DepthOk(Model) by {
        forall c | c in Model.children
          ensures c.maxDepth < maxDepth && QuadSpec.DepthOk(c)
        {
        }
      }
    }

    /** A node as the constructor leaves it is valid. */
    lemma LeafValid()
      requires NewLeaf()
      ensures Valid()
    {
    }

    /**
      One round of the `_split` loop: pop the last element of the contents
      and offer it to the children.
    */
    method PopIntoChild()
      requires Valid() && |children| > 0 && contents != []
      modifies Repr
      ensures Valid() && fresh(Repr - old(Repr)) && children == old(children)
      ensures contents == old(contents)[..|old(contents)| - 1]
      ensures Model == old(Model).(contents := contents,
                children := QuadSpec.InsertFirst(old(Model).children, old(contents)[|old(contents)| - 1], maxDepth - 1))
      decreases maxDepth, 2
    {
      var element := contents[|contents| - 1];
      label Popping:
      contents := contents[..|contents| - 1];
      Model := Model.(contents := contents);
      ContentsReplaced@Popping();
      var accepted := OfferToChildren(element);
    }

    // -------------------------------------------------------------------
    // Read operations: each walks the children objects and is proved to
    // compute the matching QuadSpec function of the model.

    /** `intersect`: pruned by the overlap test, then the union over the children or the filtered contents. */
    function Intersect(q: Box): (r: set<Element<K>>)
      requires Valid()
      reads Repr
      ensures r == QuadSpec.Intersect(Model, q)
      decreases Repr, 1
    {
      if !IntersectsBBox(bbox, q) then {}
      else if |children| > 0 then IntersectChildren(q, |children|)
      else set e | e in contents && Inside(e, q)
    }

    /** The `reduce` of unions over the first `n` children. */
    function IntersectChildren(q: Box, n: nat): (r: set<Element<K>>)
      requires Valid() && n <= |children|
      reads Repr
      ensures r == QuadSpec.IntersectAll(Model.children[..n], q)
      decreases Repr, 0, n
    {
      if n == 0 then {}
      else
        assert Model.children[..n][..n - 1] == Model.children[..n - 1];
        IntersectChildren(q, n - 1) + children[n - 1].Intersect(q)
    }

    /** `__contains__`: in this node's own contents or in some child's subtree. */
    predicate Contains(e: Element<K>)
      requires Valid()
      reads Repr
      ensures Contains(e) <==> QuadSpec.Contains(Model, e)
      decreases Repr, 1
    {
      e in contents || ContainsInChildren(e, |children|)
    }

    /** The `any(...)` over the first `n` children. */
    predicate ContainsInChildren(e: Element<K>, n: nat)
      requires Valid() && n <= |children|
      reads Repr
      ensures ContainsInChildren(e, n) <==> QuadSpec.ContainsAny(Model.children[..n], e)
      decreases Repr, 0, n
    {
      n > 0 &&
      assert Model.children[..n][..n - 1] == Model.children[..n - 1];
      (ContainsInChildren(e, n - 1) || children[n - 1].Contains(e))
    }

    /** `__iter__`: this node's own contents when there are any, else the children's in order. */
    function Iterate(): (r: seq<Element<K>>)
      requires Valid()
      reads Repr
      ensures r == QuadSpec.Iter(Model)
      decreases Repr, 1
    {
      if |contents| > 0 then contents else IterateChildren(|children|)
    }

    /** The `chain.from_iterable` over the first `n` children. */
    function IterateChildren(n: nat): (r: seq<Element<K>>)
      requires Valid() && n <= |children|
      reads Repr
      ensures r == QuadSpec.IterAll(Model.children[..n])
      decreases Repr, 0, n
    {
      if n == 0 then []
      else
        assert Model.children[..n][..n - 1] == Model.children[..n - 1];
        IterateChildren(n - 1) + children[n - 1].Iterate()
    }

    /** `__len__`: with the same short cut on non-empty own contents as `__iter__`. */
    function Length(): (r: nat)
      requires Valid()
      reads Repr
      ensures r == QuadSpec.Len(Model)
      decreases Repr, 1
    {
      if |contents| > 0 then |contents| else LengthOfChildren(|children|)
    }

    /** The `sum` over the first `n` children. */
    function LengthOfChildren(n: nat): (r: nat)
      requires Valid() && n <= |children|
      reads Repr
      ensures r == QuadSpec.LenAll(Model.children[..n])
      decreases Repr, 0, n
    {
      if n == 0 then 0
      else
        assert Model.children[..n][..n - 1] == Model.children[..n - 1];
        LengthOfChildren(n - 1) + children[n - 1].Length()
    }

    /**
      `__getitem__`: an internal node asks its children in order and never
      looks at its own contents; a leaf returns the first stored element with
      the key. None stands for `KeyError`.
    */
    function GetItem(key: K): (r: QuadSpec.Option<Element<K>>)
      requires Valid()
      reads Repr
      ensures r == QuadSpec.GetItem(Model, key)
      decreases Repr, 1
    {
      if |children| > 0 then GetFromChildren(key, |children|)
      else QuadSpec.FirstWithKey(contents, key)
    }

    /** The `for child in self.children: try child[key]` loop over the first `n` children. */
    function GetFromChildren(key: K, n: nat): (r: QuadSpec.Option<Element<K>>)
      requires Valid() && n <= |children|
      reads Repr
      ensures r == QuadSpec.GetAll(Model.children[..n], key)
      decreases Repr, 0, n
    {
      if n == 0 then QuadSpec.None
      else
        assert Model.children[..n][..n - 1] == Model.children[..n - 1];
        var found := GetFromChildren(key, n - 1);
        if found.Some? then found else children[n - 1].GetItem(key)
    }
  }

  /** `__init__` with its `ValueError`: a refused box yields Failure(InvalidBBox(bbox)). */
  method Create<K(==)>(bbox: Box, maxItems: int := 10, maxDepth: int := 10) returns (r: Result<QuadTree<K>>)
    ensures r.Failure? <==> !BBoxAccepted(bbox)
    ensures r.Failure? ==> r.error == InvalidBBox(bbox)
    ensures r.Success? ==> r.value.Valid() && fresh(r.value.Repr) &&
                           r.value.Model == QuadSpec.NewTree(bbox, maxItems, maxDepth)
  {
    if !BBoxAccepted(bbox) {
      return Failure(InvalidBBox(bbox));
    }
    var t := new QuadTree(bbox, maxItems, maxDepth);
    return Success(t);
  }
}
