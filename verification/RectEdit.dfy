// Changing an R-tree: what holds between the steps of an insertion and of a removal.
module RectEdit {
  import opened Geometry
  import opened RectNodes
  import opened RectShape

  // Fan-out: no node has too many children, but the given one may have one more; and none but an empty
  // root has none.
  ghost predicate FilledBut(sh: Shape, root: RectNode, maxElem: nat, full: RectNode) {
    forall n :: n in sh ==>
      && |sh[n].children| <= (if n == full then maxElem + 1 else maxElem)
      && (sh[n].depth > 0 && sh[n].children == [] ==> n == root && sh[n].depth == 1)
  }

  ghost predicate Filled(sh: Shape, root: RectNode, maxElem: nat) {
    forall n :: n in sh ==>
      |sh[n].children| <= maxElem && (sh[n].depth > 0 && sh[n].children == [] ==> n == root && sh[n].depth == 1)
  }

  // Every node but the root and the objects has at least so many children.
  ghost predicate AtLeast(sh: Shape, root: RectNode, minElem: nat) {
    forall n :: n in sh && n != root && sh[n].depth > 0 ==> |sh[n].children| >= minElem
  }

  // The index from id to object, and the boxes of the live objects.
  ghost predicate Indexed(sh: Shape, objs: map<int, RectNode>, view: map<int, Box>) {
    && objs.Keys == view.Keys
    && (forall id :: id in objs ==>
          id > 0 && objs[id] in sh && sh[objs[id]].depth == 0 && sh[objs[id]].id == id && sh[objs[id]].box == view[id])
    && (forall e :: e in sh && sh[e].depth == 0 ==> sh[e].id in objs && objs[sh[e].id] == e)
  }

  // Everything around the box and all the children.
  ghost function Hull(sh: Shape, cs: seq<RectNode>, box: Box): Box
    requires forall c :: c in cs ==> c in sh
  {
    Extend(Union(sh, cs), box)
  }

  ghost predicate AllFit(sh: Shape, cs: seq<RectNode>) {
    forall c :: c in cs ==> c in sh && Fits32(sh[c].box)
  }

  lemma HullIsLeast(sh: Shape, cs: seq<RectNode>, box: Box, b: Box)
    requires AllFit(sh, cs) && Fits32(b)
    ensures Contain(b, Hull(sh, cs, box)) <==> Contain(b, box) && forall c :: c in cs ==> Contain(b, sh[c].box)
  {
    UnionIsLeast(sh, cs, b);
  }

  lemma HullFits(sh: Shape, cs: seq<RectNode>, box: Box)
    requires AllFit(sh, cs) && Fits32(box)
    ensures Fits32(Union(sh, cs)) && Fits32(Hull(sh, cs, box))
    ensures Contain(Hull(sh, cs, box), box) && forall c :: c in cs ==> Contain(Hull(sh, cs, box), sh[c].box)
  {
    UnionCovers(sh, cs);
    HullIsLeast(sh, cs, box, Hull(sh, cs, box));
  }

  // Hulls that cover each other's parts are equal.
  lemma HullsEqual(sh: Shape, cs: seq<RectNode>, sh': Shape, cs': seq<RectNode>, box: Box)
    requires AllFit(sh, cs) && AllFit(sh', cs') && Fits32(box)
    requires forall c :: c in cs ==> Contain(Hull(sh', cs', box), sh[c].box)
    requires forall c :: c in cs' ==> Contain(Hull(sh, cs, box), sh'[c].box)
    ensures Hull(sh, cs, box) == Hull(sh', cs', box)
  {
    HullFits(sh, cs, box);
    HullFits(sh', cs', box);
    HullIsLeast(sh, cs, box, Hull(sh', cs', box));
    HullIsLeast(sh', cs', box, Hull(sh, cs, box));
    ContainAntisymmetric(Hull(sh, cs, box), Hull(sh', cs', box));
  }

  // The node's box is right but for the box being inserted.
  ghost predicate Near(sh: Shape, n: RectNode, box: Box)
    requires n in sh && forall c :: c in sh[n].children ==> c in sh
  {
    Extend(sh[n].box, box) == Hull(sh, sh[n].children, box)
  }

  ghost predicate ChildrenIn(sh: Shape) {
    forall n, c :: n in sh && c in sh[n].children ==> c in sh
  }

  ghost predicate BoxesFit(sh: Shape) {
    forall n :: n in sh ==> Fits32(sh[n].box) && (sh[n].depth == 0 ==> Proper(sh[n].box))
  }

  // All boxes above the objects are exact, but for those of the given nodes, which are near.
  ghost predicate BoxedBut(sh: Shape, ns: seq<RectNode>, box: Box)
    requires ChildrenIn(sh)
  {
    && BoxesFit(sh)
    && (forall n {:trigger Exact(sh, n)} :: n in sh && sh[n].depth > 0 && n !in ns ==> Exact(sh, n))
    && (forall n :: n in ns ==> n in sh && sh[n].depth > 0)
    && (forall n {:trigger Near(sh, n, box)} :: n in ns ==> Near(sh, n, box))
  }

  lemma ExactIsNear(sh: Shape, n: RectNode, box: Box)
    requires n in sh && (forall c :: c in sh[n].children ==> c in sh) && Exact(sh, n)
    ensures Near(sh, n, box)
  {
  }

  // A near node that already covers the box becomes exact when extended by it.
  lemma NearBecomesExact(sh: Shape, n: RectNode, box: Box)
    requires n in sh && (forall c :: c in sh[n].children ==> c in sh) && Near(sh, n, box)
    requires Contain(Union(sh, sh[n].children), box)
    ensures Extend(sh[n].box, box) == Union(sh, sh[n].children)
  {
    ContainAntisymmetric(Union(sh, sh[n].children), Hull(sh, sh[n].children, box));
  }

  // From the root down, at most to a leaf.
  ghost predicate IsPath(sh: Shape, par: Parents, root: RectNode, path: seq<RectNode>) {
    && Tree(sh, par, root) && 1 <= |path| <= sh[root].depth && path[0] == root
    && (forall i :: 0 <= i < |path| ==> path[i] in sh && sh[path[i]].depth == sh[root].depth - i)
    && (forall i :: 0 < i < |path| ==> path[i] in sh[path[i - 1]].children)
  }

  // Changing only a node's box leaves every other node's union alone, unless it is the parent's.
  lemma {:induction false} UnionSame(sh: Shape, sh': Shape, cs: seq<RectNode>)
    requires forall c :: c in cs ==> c in sh && c in sh' && sh'[c].box == sh[c].box
    ensures Union(sh', cs) == Union(sh, cs)
  {
    if cs != [] {
      assert cs == cs[..|cs| - 1] + [cs[|cs| - 1]];
      UnionSame(sh, sh', cs[..|cs| - 1]);
    }
  }

  // When one child's box changes within the box being inserted, the parent stays near.
  lemma NearSurvives(sh: Shape, sh': Shape, n: RectNode, c: RectNode, box: Box)
    requires n in sh && n in sh' && sh'[n].children == sh[n].children && sh'[n].box == sh[n].box
    requires AllFit(sh, sh[n].children) && AllFit(sh', sh[n].children) && Fits32(box)
    requires c in sh && c in sh' && Extend(sh'[c].box, box) == Extend(sh[c].box, box)
    requires forall x :: x in sh[n].children && x != c ==> sh'[x].box == sh[x].box
    requires Near(sh, n, box)
    ensures Near(sh', n, box)
  {
    var cs := sh[n].children;
    HullFits(sh, cs, box);
    HullFits(sh', cs, box);
    forall x | x in cs ensures Contain(Hull(sh', cs, box), sh[x].box) && Contain(Hull(sh, cs, box), sh'[x].box) {
      if x == c {
        assert Contain(Hull(sh', cs, box), Extend(sh'[c].box, box));
        assert Contain(Hull(sh, cs, box), Extend(sh[c].box, box));
        ContainTransitive(Hull(sh', cs, box), Extend(sh[c].box, box), sh[c].box);
        ContainTransitive(Hull(sh, cs, box), Extend(sh'[c].box, box), sh'[c].box);
      }
    }
    HullsEqual(sh, cs, sh', cs, box);
  }

  ghost function WithBox(sh: Shape, n: RectNode, b: Box): Shape
    requires n in sh
  {
    sh[n := sh[n].(box := b)]
  }

  lemma BoxKeepsTree(sh: Shape, par: Parents, root: RectNode, n: RectNode, b: Box)
    requires Tree(sh, par, root) && n in sh
    ensures Tree(WithBox(sh, n, b), par, root)
  {
    var sh' := WithBox(sh, n, b);
    forall m | m in sh' ensures NodeOk(sh', par, m) { assert NodeOk(sh, par, m); }
  }

  lemma TreeChildrenIn(sh: Shape, par: Parents, root: RectNode)
    requires Tree(sh, par, root)
    ensures ChildrenIn(sh)
  {
    forall n, c | n in sh && c in sh[n].children ensures c in sh { assert NodeOk(sh, par, n); }
  }

  lemma PrefixOfPath(path: seq<RectNode>, d: nat, n: RectNode)
    requires d < |path|
    ensures n in path[..d + 1] <==> n in path[..d] || n == path[d]
  {
    assert path[..d + 1] == path[..d] + [path[d]];
  }

  // The state in which path[d] is about to be extended.
  ghost predicate Extending(sh: Shape, par: Parents, root: RectNode, path: seq<RectNode>, d: nat, box: Box) {
    && IsPath(sh, par, root, path) && d < |path| && ChildrenIn(sh) && Proper(box)
    && BoxedBut(sh, path[..d + 1], box) && Contain(Union(sh, sh[path[d]].children), box)
  }

  lemma OnlyParent(sh: Shape, par: Parents, root: RectNode, path: seq<RectNode>, d: nat, m: RectNode)
    requires IsPath(sh, par, root, path) && d < |path| && m in sh
    ensures path[d] in sh[m].children <==> d > 0 && m == path[d - 1]
  {
    assert NodeOk(sh, par, m) && (d > 0 ==> NodeOk(sh, par, path[d - 1]));
  }

  lemma ExtendExact(sh: Shape, par: Parents, root: RectNode, path: seq<RectNode>, d: nat, box: Box, m: RectNode)
    requires Extending(sh, par, root, path, d, box) && m in sh && sh[m].depth > 0 && m !in path[..d]
    ensures var sh' := WithBox(sh, path[d], Extend(sh[path[d]].box, box));
            (forall c :: c in sh'[m].children ==> c in sh') && Exact(sh', m)
  {
    var n := path[d];
    var sh' := WithBox(sh, n, Extend(sh[n].box, box));
    PrefixOfPath(path, d, m);
    assert n in path[..d + 1];
    OnlyParent(sh, par, root, path, d, m);
    assert d > 0 ==> path[d - 1] in path[..d];
    if m == n {
      NearBecomesExact(sh, n, box);
      UnionSame(sh, sh', sh[n].children);
    } else {
      KeepExact(sh, sh', m);
    }
  }

  lemma ExtendShape(sh: Shape, par: Parents, root: RectNode, path: seq<RectNode>, d: nat, box: Box)
    requires Extending(sh, par, root, path, d, box)
    ensures var sh' := WithBox(sh, path[d], Extend(sh[path[d]].box, box));
            IsPath(sh', par, root, path) && ChildrenIn(sh') && BoxesFit(sh')
  {
    var n := path[d];
    assert n in path[..d + 1];
    BoxKeepsTree(sh, par, root, n, Extend(sh[n].box, box));
    TreeChildrenIn(WithBox(sh, n, Extend(sh[n].box, box)), par, root);
  }

  lemma ExtendNear(sh: Shape, par: Parents, root: RectNode, path: seq<RectNode>, d: nat, box: Box, m: RectNode)
    requires Extending(sh, par, root, path, d, box) && m in path[..d]
    ensures var sh' := WithBox(sh, path[d], Extend(sh[path[d]].box, box));
            m in sh' && sh'[m].depth > 0 && (forall c :: c in sh'[m].children ==> c in sh') && Near(sh', m, box)
  {
    PrefixOfPath(path, d, m);
    NearOnPath(sh, WithBox(sh, path[d], Extend(sh[path[d]].box, box)), par, root, path, d, box, m);
  }

  // The last near node of the path is extended: it becomes exact, its parent stays near.
  lemma ExtendStep(sh: Shape, par: Parents, root: RectNode, path: seq<RectNode>, d: nat, box: Box)
    requires Extending(sh, par, root, path, d, box)
    ensures var sh' := WithBox(sh, path[d], Extend(sh[path[d]].box, box));
            && IsPath(sh', par, root, path) && ChildrenIn(sh') && BoxedBut(sh', path[..d], box)
            && (d > 0 ==> Contain(Union(sh', sh'[path[d - 1]].children), box))
  {
    var n := path[d];
    var sh' := WithBox(sh, n, Extend(sh[n].box, box));
    ExtendShape(sh, par, root, path, d, box);
    assert BoxedBut(sh', path[..d], box) by {
      forall m | m in sh' && sh'[m].depth > 0 && m !in path[..d] ensures Exact(sh', m) {
        ExtendExact(sh, par, root, path, d, box, m);
      }
      forall m | m in path[..d] ensures m in sh' && sh'[m].depth > 0 && Near(sh', m, box) {
        ExtendNear(sh, par, root, path, d, box, m);
      }
    }
    if d > 0 { ExtendCovers(sh', path[d - 1], n, box); }
  }

  lemma ExtendCovers(sh: Shape, p: RectNode, c: RectNode, box: Box)
    requires p in sh && (forall x :: x in sh[p].children ==> x in sh) && c in sh[p].children && Contain(sh[c].box, box)
    ensures Contain(Union(sh, sh[p].children), box)
  {
    UnionCovers(sh, sh[p].children);
    ContainTransitive(Union(sh, sh[p].children), sh[c].box, box);
  }

  lemma KeepExact(sh: Shape, sh': Shape, m: RectNode)
    requires m in sh && m in sh' && sh'[m] == sh[m] && Exact.requires(sh, m) && Exact(sh, m)
    requires forall c :: c in sh[m].children ==> c in sh' && sh'[c].box == sh[c].box
    ensures Exact(sh', m)
  {
    UnionSame(sh, sh', sh[m].children);
  }

  lemma NearOnPath(sh: Shape, sh': Shape, par: Parents, root: RectNode, path: seq<RectNode>, d: nat, box: Box,
                   m: RectNode)
    requires IsPath(sh, par, root, path) && 0 < d < |path| && ChildrenIn(sh) && Proper(box) && BoxesFit(sh)
    requires m in path[..d] && Near(sh, m, box) && m in sh && m != path[d]
    requires sh' == WithBox(sh, path[d], Extend(sh[path[d]].box, box))
    ensures m in sh' && Near(sh', m, box)
  {
    NearSurvives(sh, sh', m, path[d], box);
  }
}
