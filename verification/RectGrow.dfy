// One round of an insertion: what a split does to everything an insertion keeps track of.
module RectGrow {
  import opened Geometry
  import opened RectNodes
  import opened RectShape
  import opened RectEdit
  import opened RectMeasure
  import opened RectSplit

  // The node at the end of a path is split; what remains to be extended is the path above it.
  ghost predicate Upward(sh: Shape, par: Parents, root: RectNode, path: seq<RectNode>, nn: RectNode,
                         left: seq<RectNode>, right: seq<RectNode>, box: Box) {
    && |path| >= 2 && Extending(sh, par, root, path, |path| - 1, box)
    && Splitting(sh, par, root, path[|path| - 1], nn, left, right)
    && (forall c :: c in left ==> c in sh) && (forall c :: c in right ==> c in sh)
  }

  ghost function SplitShape(sh: Shape, path: seq<RectNode>, nn: RectNode, left: seq<RectNode>,
                            right: seq<RectNode>): Shape
    requires |path| >= 2 && path[|path| - 1] in sh && path[|path| - 2] in sh
    requires (forall c :: c in left ==> c in sh) && (forall c :: c in right ==> c in sh)
  {
    SplitInner(sh, path[|path| - 1], nn, left, right, Unions(sh, left, right), path[|path| - 2])
  }

  lemma PathParent(sh: Shape, par: Parents, root: RectNode, path: seq<RectNode>)
    requires |path| >= 2 && IsPath(sh, par, root, path)
    ensures var node := path[|path| - 1];
            && node in sh && node != root && node in par
            && par[node] == path[|path| - 2] && par[node] in sh && par[node] != node
  {
    assert NodeOk(sh, par, path[|path| - 2]);
  }

  lemma UpwardPath(sh: Shape, par: Parents, root: RectNode, path: seq<RectNode>, nn: RectNode, left: seq<RectNode>,
                   right: seq<RectNode>, box: Box)
    requires Upward(sh, par, root, path, nn, left, right, box)
    ensures path[|path| - 1] in sh && path[|path| - 2] in sh
    ensures var sh', par' := SplitShape(sh, path, nn, left, right), Reparented(par, nn, right, path[|path| - 2]);
            IsPath(sh', par', root, path[..|path| - 1]) && ChildrenIn(sh')
  {
    PathParent(sh, par, root, path);
    var node, p := path[|path| - 1], path[|path| - 2];
    InnerTree(sh, par, root, node, nn, left, right, Unions(sh, left, right));
    InnerKeys(sh, par, root, node, nn, left, right, Unions(sh, left, right));
    TreeChildrenIn(SplitShape(sh, path, nn, left, right), Reparented(par, nn, right, p), root);
    SplitDiffers(sh, node, nn, left, right, Unions(sh, left, right), p);
    PathKept(sh, par, root, path, SplitShape(sh, path, nn, left, right), Reparented(par, nn, right, p));
  }

  lemma SplitDiffers(sh: Shape, node: RectNode, nn: RectNode, left: seq<RectNode>, right: seq<RectNode>, bs: Boxes,
                     p: RectNode)
    requires node in sh && p in sh && node != p && nn !in sh
    ensures var sh' := SplitInner(sh, node, nn, left, right, bs, p);
            && sh'.Keys == sh.Keys + {nn}
            && (forall n :: n in sh ==> sh'[n].depth == sh[n].depth)
            && (forall n :: n in sh && n != node && n != p ==> sh'[n] == sh[n])
            && sh'[node].box == bs.left && sh'[nn].box == bs.right && sh'[nn].depth == sh[node].depth &&
               sh'[p].box == sh[p].box
  {
  }

  // What does not touch the children of a path but for the last two keeps it up to there.
  lemma PathKept(sh: Shape, par: Parents, root: RectNode, path: seq<RectNode>, sh': Shape, par': Parents)
    requires IsPath(sh, par, root, path) && |path| >= 2 && Tree(sh', par', root) && sh.Keys <= sh'.Keys
    requires forall n :: n in sh ==> sh'[n].depth == sh[n].depth
    requires forall n :: n in sh && n != path[|path| - 1] && n != path[|path| - 2] ==> sh'[n] == sh[n]
    ensures IsPath(sh', par', root, path[..|path| - 1])
  {
    var up := path[..|path| - 1];
    forall i | 0 < i < |up| ensures up[i] in sh'[up[i - 1]].children {
      assert sh[path[i - 1]].depth > sh[path[|path| - 2]].depth > sh[path[|path| - 1]].depth;
    }
  }

  lemma HalfExact(sh: Shape, par: Parents, root: RectNode, path: seq<RectNode>, nn: RectNode, left: seq<RectNode>,
                  right: seq<RectNode>, box: Box)
    requires Upward(sh, par, root, path, nn, left, right, box)
    requires path[|path| - 1] in sh && path[|path| - 2] in sh && ChildrenIn(SplitShape(sh, path, nn, left, right))
    ensures var sh' := SplitShape(sh, path, nn, left, right); Exact(sh', path[|path| - 1]) && Exact(sh', nn)
  {
    PathParent(sh, par, root, path);
    var node := path[|path| - 1];
    HalvesIn(sh, par, root, node, nn, left, right);
    NotInHalves(sh, par, root, node, nn, left, right);
    HalvesExact(sh, par, root, node, nn, left, right, SplitShape(sh, path, nn, left, right));
  }

  // A node neither on the path nor split was exact, and its children are not split.
  lemma OffPathExact(sh: Shape, par: Parents, root: RectNode, path: seq<RectNode>, box: Box, n: RectNode)
    requires |path| >= 2 && Extending(sh, par, root, path, |path| - 1, box) && n in sh && sh[n].depth > 0
    requires n !in path[..|path| - 1] && n != path[|path| - 1]
    ensures n != path[|path| - 2] && path[|path| - 1] !in sh[n].children && Exact(sh, n)
  {
    var d := |path| - 1;
    assert path[..d + 1] == path && path[d - 1] in path[..d];
    PrefixOfPath(path, d, n);
    OnlyParent(sh, par, root, path, d, n);
  }

  lemma UpwardExact(sh: Shape, par: Parents, root: RectNode, path: seq<RectNode>, nn: RectNode, left: seq<RectNode>,
                    right: seq<RectNode>, box: Box, n: RectNode)
    requires Upward(sh, par, root, path, nn, left, right, box)
    requires path[|path| - 1] in sh && path[|path| - 2] in sh
    requires var sh' := SplitShape(sh, path, nn, left, right);
             n in sh' && sh'[n].depth > 0 && n !in path[..|path| - 1] && ChildrenIn(sh')
    ensures Exact(SplitShape(sh, path, nn, left, right), n)
  {
    var node, p, sh' := path[|path| - 1], path[|path| - 2], SplitShape(sh, path, nn, left, right);
    if n == node || n == nn {
      HalfExact(sh, par, root, path, nn, left, right, box);
    } else {
      PathParent(sh, par, root, path);
      SplitDiffers(sh, node, nn, left, right, Unions(sh, left, right), p);
      OffPathExact(sh, par, root, path, box, n);
      OtherExact(sh, node, nn, p, sh', n);
    }
  }

  // A node with only children whose boxes stay.
  lemma OtherExact(sh: Shape, node: RectNode, nn: RectNode, p: RectNode, sh': Shape, n: RectNode)
    requires n in sh && n != node && n != p && ChildrenIn(sh) && node !in sh[n].children && nn !in sh && nn in sh'
    requires node in sh && p in sh && node != p && sh.Keys <= sh'.Keys && sh'[p].box == sh[p].box
    requires forall m :: m in sh && m != node && m != p ==> sh'[m] == sh[m]
    requires Exact(sh, n)
    ensures n in sh' && (forall c :: c in sh'[n].children ==> c in sh') && Exact(sh', n)
  {
    KeepExact(sh, sh', n);
  }

  // The parent of the split node is in neither half.
  lemma NotInHalves(sh: Shape, par: Parents, root: RectNode, node: RectNode, nn: RectNode, left: seq<RectNode>,
                    right: seq<RectNode>)
    requires Splitting(sh, par, root, node, nn, left, right) && node != root
    ensures node in par && par[node] != node && par[node] != nn && par[node] !in left && par[node] !in right
  {
    assert NodeOk(sh, par, par[node]) && NodeOk(sh, par, node);
  }

  lemma SplitParentNear(sh: Shape, par: Parents, root: RectNode, path: seq<RectNode>, nn: RectNode,
                        left: seq<RectNode>, right: seq<RectNode>, box: Box)
    requires Upward(sh, par, root, path, nn, left, right, box)
    requires path[|path| - 1] in sh && path[|path| - 2] in sh
    ensures var p, sh' := path[|path| - 2], SplitShape(sh, path, nn, left, right);
            && p in sh' && sh'[p].depth > 0 && (forall c :: c in sh'[p].children ==> c in sh')
            && Near(sh', p, box) && Contain(Union(sh', sh'[p].children), box)
  {
    PathParent(sh, par, root, path);
    var node, p := path[|path| - 1], path[|path| - 2];
    assert path[..|path| - 1 + 1] == path && node in path && p in path;
    ParentNear(sh, par, root, node, nn, left, right, box);
  }

  // A node on the path above the parent was near, and its children are not split.
  lemma AboveNear(sh: Shape, par: Parents, root: RectNode, path: seq<RectNode>, box: Box, n: RectNode)
    requires |path| >= 2 && Extending(sh, par, root, path, |path| - 1, box) && n in path[..|path| - 1] &&
             n != path[|path| - 2]
    ensures n in sh && n != path[|path| - 1] && path[|path| - 1] !in sh[n].children && sh[n].depth > 0 &&
            Near(sh, n, box)
  {
    var d := |path| - 1;
    assert path[..d + 1] == path && n in path;
    assert NodeOk(sh, par, path[d - 1]);
    OnlyParent(sh, par, root, path, d, n);
  }

  lemma UpwardNear(sh: Shape, par: Parents, root: RectNode, path: seq<RectNode>, nn: RectNode, left: seq<RectNode>,
                   right: seq<RectNode>, box: Box, n: RectNode)
    requires Upward(sh, par, root, path, nn, left, right, box)
    requires path[|path| - 1] in sh && path[|path| - 2] in sh
    requires n in path[..|path| - 1] && ChildrenIn(SplitShape(sh, path, nn, left, right))
    ensures var sh' := SplitShape(sh, path, nn, left, right); n in sh' && sh'[n].depth > 0 && Near(sh', n, box)
  {
    if n == path[|path| - 2] {
      SplitParentNear(sh, par, root, path, nn, left, right, box);
    } else {
      var node, p := path[|path| - 1], path[|path| - 2];
      PathParent(sh, par, root, path);
      SplitDiffers(sh, node, nn, left, right, Unions(sh, left, right), p);
      AboveNear(sh, par, root, path, box, n);
      OtherNear(sh, path, node, nn, p, SplitShape(sh, path, nn, left, right), box, n);
    }
  }

  // A node on the path that is not the parent has only children whose boxes stay.
  lemma OtherNear(sh: Shape, path: seq<RectNode>, node: RectNode, nn: RectNode, p: RectNode, sh': Shape, box: Box,
                  n: RectNode)
    requires n in sh && n != node && n != p && ChildrenIn(sh) && node !in sh[n].children && nn !in sh && nn in sh'
    requires node in sh && p in sh && node != p && sh.Keys <= sh'.Keys && sh'[p].box == sh[p].box
    requires forall m :: m in sh && m != node && m != p ==> sh'[m] == sh[m]
    requires Near(sh, n, box)
    ensures n in sh' && (forall c :: c in sh'[n].children ==> c in sh') && Near(sh', n, box)
  {
    UnionSame(sh, sh', sh[n].children);
  }

  lemma UpwardFits(sh: Shape, par: Parents, root: RectNode, path: seq<RectNode>, nn: RectNode, left: seq<RectNode>,
                   right: seq<RectNode>, box: Box)
    requires Upward(sh, par, root, path, nn, left, right, box)
    requires path[|path| - 1] in sh && path[|path| - 2] in sh
    ensures BoxesFit(SplitShape(sh, path, nn, left, right))
  {
    PathParent(sh, par, root, path);
    var node, p, bs := path[|path| - 1], path[|path| - 2], Unions(sh, left, right);
    HalvesAround(sh, par, root, node, nn, left, right, EMPTY_BOX);
    assert NodeOk(sh, par, p);
    SplitDiffers(sh, node, nn, left, right, bs, p);
    FitsKept(sh, node, nn, bs, p, SplitInner(sh, node, nn, left, right, bs, p));
  }

  lemma FitsKept(sh: Shape, node: RectNode, nn: RectNode, bs: Boxes, p: RectNode, sh': Shape)
    requires BoxesFit(sh) && node in sh && p in sh && nn in sh' && sh'.Keys == sh.Keys + {nn}
    requires Fits32(bs.left) && Fits32(bs.right) && sh[node].depth > 0 && sh[p].depth > 0
    requires forall n :: n in sh ==> sh'[n].depth == sh[n].depth
    requires forall n :: n in sh && n != node && n != p ==> sh'[n] == sh[n]
    requires sh'[node].box == bs.left && sh'[nn].box == bs.right && sh'[nn].depth == sh[node].depth &&
             sh'[p].box == sh[p].box
    ensures BoxesFit(sh')
  {
  }

  lemma SplitDone(sh: Shape, par: Parents, root: RectNode, path: seq<RectNode>, nn: RectNode, left: seq<RectNode>,
                  right: seq<RectNode>, box: Box)
    requires Upward(sh, par, root, path, nn, left, right, box)
    ensures path[|path| - 1] in sh && path[|path| - 2] in sh
    ensures Extending(SplitShape(sh, path, nn, left, right), Reparented(par, nn, right, path[|path| - 2]), root,
      path[..|path| - 1], |path| - 2, box)
  {
    UpwardPath(sh, par, root, path, nn, left, right, box);
    UpwardFits(sh, par, root, path, nn, left, right, box);
    var sh', up := SplitShape(sh, path, nn, left, right), path[..|path| - 1];
    assert up[..|path| - 2 + 1] == up && up[|path| - 2] == path[|path| - 2] && up[|path| - 2] in up;
    assert BoxedBut(sh', up, box) by {
      forall n | n in sh' && sh'[n].depth > 0 && n !in up ensures Exact(sh', n) {
        UpwardExact(sh, par, root, path, nn, left, right, box, n);
      }
      forall n | n in up ensures n in sh' && sh'[n].depth > 0 && Near(sh', n, box) {
        UpwardNear(sh, par, root, path, nn, left, right, box, n);
      }
    }
    SplitParentNear(sh, par, root, path, nn, left, right, box);
  }

  // The root is split and the tree grows by a level.
  ghost predicate Atop(sh: Shape, par: Parents, root: RectNode, nn: RectNode, nr: RectNode, left: seq<RectNode>,
                       right: seq<RectNode>, box: Box) {
    && Extending(sh, par, root, [root], 0, box) && Splitting(sh, par, root, root, nn, left, right) && nr !in sh &&
       nr != nn
    && (forall c :: c in left ==> c in sh) && (forall c :: c in right ==> c in sh)
  }

  ghost function RootBox(sh: Shape, root: RectNode, nn: RectNode, left: seq<RectNode>, right: seq<RectNode>): Box
    requires root in sh && (forall c :: c in left ==> c in sh) && (forall c :: c in right ==> c in sh)
  {
    Union(Halved(sh, root, nn, left, right, Unions(sh, left, right)), [root, nn])
  }

  ghost function RootShape(sh: Shape, root: RectNode, nn: RectNode, nr: RectNode, left: seq<RectNode>,
                           right: seq<RectNode>): Shape
    requires root in sh && (forall c :: c in left ==> c in sh) && (forall c :: c in right ==> c in sh)
  {
    SplitRoot(sh, root, nn, left, right, Unions(sh, left, right), nr, RootBox(sh, root, nn, left, right))
  }

  lemma RootDiffers(sh: Shape, root: RectNode, nn: RectNode, left: seq<RectNode>, right: seq<RectNode>, bs: Boxes,
                    nr: RectNode, b: Box)
    requires root in sh && nn !in sh && nr !in sh && nn != nr
    ensures var sh', h := SplitRoot(sh, root, nn, left, right, bs, nr, b), Halved(sh, root, nn, left, right, bs);
            && sh'.Keys == sh.Keys + {nn, nr}
            && (forall n :: n in sh ==> sh'[n].depth == sh[n].depth)
            && (forall n :: n in sh && n != root ==> sh'[n] == sh[n])
            && sh'[root] == h[root] && sh'[nn] == h[nn] && sh'[root].box == bs.left && sh'[nn].box == bs.right
            && sh'[nn].depth == sh[root].depth && sh'[nr] == Rec([root, nn], false, sh[root].depth + 1, 0, b)
  {
  }

  lemma AtopExact(sh: Shape, par: Parents, root: RectNode, nn: RectNode, nr: RectNode, left: seq<RectNode>,
                  right: seq<RectNode>, box: Box, n: RectNode)
    requires Atop(sh, par, root, nn, nr, left, right, box) && ChildrenIn(RootShape(sh, root, nn, nr, left, right))
    requires var sh' := RootShape(sh, root, nn, nr, left, right); n in sh' && sh'[n].depth > 0
    ensures Exact(RootShape(sh, root, nn, nr, left, right), n)
  {
    var sh', bs := RootShape(sh, root, nn, nr, left, right), Unions(sh, left, right);
    RootDiffers(sh, root, nn, left, right, bs, nr, RootBox(sh, root, nn, left, right));
    HalvesIn(sh, par, root, root, nn, left, right);
    if n == nr {
      UnionSame(Halved(sh, root, nn, left, right, bs), sh', [root, nn]);
    } else if n == root || n == nn {
      HalvesExact(sh, par, root, root, nn, left, right, sh');
    } else {
      assert n !in [root][..1] && [root][..1] == [root];
      OnlyParent(sh, par, root, [root], 0, n);
      KeepExact(sh, sh', n);
    }
  }

  lemma AtopFits(sh: Shape, par: Parents, root: RectNode, nn: RectNode, nr: RectNode, left: seq<RectNode>,
                 right: seq<RectNode>, box: Box)
    requires Atop(sh, par, root, nn, nr, left, right, box)
    ensures BoxesFit(RootShape(sh, root, nn, nr, left, right))
  {
    RootDiffers(sh, root, nn, left, right, Unions(sh, left, right), nr, RootBox(sh, root, nn, left, right));
    RootBoxFits(sh, par, root, nn, left, right);
  }

  lemma RootBoxFits(sh: Shape, par: Parents, root: RectNode, nn: RectNode, left: seq<RectNode>, right: seq<RectNode>)
    requires Splitting(sh, par, root, root, nn, left, right) && BoxesFit(sh)
    requires (forall c :: c in left ==> c in sh) && (forall c :: c in right ==> c in sh)
    ensures var bs := Unions(sh, left, right);
            Fits32(bs.left) && Fits32(bs.right) && Fits32(RootBox(sh, root, nn, left, right))
  {
    HalvesAround(sh, par, root, root, nn, left, right, EMPTY_BOX);
    UnionCovers(Halved(sh, root, nn, left, right, Unions(sh, left, right)), [root, nn]);
  }

  lemma RootDone(sh: Shape, par: Parents, root: RectNode, nn: RectNode, nr: RectNode, left: seq<RectNode>,
                 right: seq<RectNode>, box: Box)
    requires Atop(sh, par, root, nn, nr, left, right, box)
    ensures var sh', par' := RootShape(sh, root, nn, nr, left, right), Reparented(par, nn, right, nr)[root := nr];
            Tree(sh', par', nr) && Boxed(sh', par', nr)
  {
    var sh', par' := RootShape(sh, root, nn, nr, left, right), Reparented(par, nn, right, nr)[root := nr];
    RootTree(sh, par, root, nn, left, right, Unions(sh, left, right), nr, RootBox(sh, root, nn, left, right));
    TreeChildrenIn(sh', par', nr);
    AtopFits(sh, par, root, nn, nr, left, right, box);
    forall n | n in sh' && sh'[n].depth > 0 ensures NodeOk(sh', par', n) && Exact(sh', n) {
      AtopExact(sh, par, root, nn, nr, left, right, box, n);
    }
  }

  // Both halves within the bounds on fan-out.
  ghost predicate Measured(left: seq<RectNode>, right: seq<RectNode>, minElem: nat, maxElem: nat) {
    2 <= minElem <= |left| <= maxElem && minElem <= |right| <= maxElem
  }

  lemma SplitFilled(sh: Shape, par: Parents, root: RectNode, node: RectNode, nn: RectNode, p: RectNode,
                    left: seq<RectNode>, right: seq<RectNode>, bs: Boxes, minElem: nat, maxElem: nat)
    requires Splitting(sh, par, root, node, nn, left, right) && node != root && p in sh && p != node && sh[p].depth > 0
    requires FilledBut(sh, root, maxElem, node) && Measured(left, right, minElem, maxElem)
    ensures var sh' := SplitInner(sh, node, nn, left, right, bs, p);
            FilledBut(sh', root, maxElem, p) && (AtLeast(sh, root, minElem) ==> AtLeast(sh', root, minElem))
  {
  }

  lemma RootFilled(sh: Shape, par: Parents, root: RectNode, nn: RectNode, nr: RectNode, left: seq<RectNode>,
                   right: seq<RectNode>, bs: Boxes, b: Box, minElem: nat, maxElem: nat)
    requires Splitting(sh, par, root, root, nn, left, right) && nr !in sh && nr != nn
    requires FilledBut(sh, root, maxElem, root) && Measured(left, right, minElem, maxElem)
    ensures var sh' := SplitRoot(sh, root, nn, left, right, bs, nr, b);
            Filled(sh', nr, maxElem) && (AtLeast(sh, root, minElem) ==> AtLeast(sh', nr, minElem))
  {
  }

  // A split leaves the objects alone.
  ghost predicate SameObjects(sh: Shape, sh': Shape) {
    && (forall e :: e in sh && sh[e].depth == 0 ==> e in sh' && sh'[e] == sh[e])
    && (forall e :: e in sh' && sh'[e].depth == 0 ==> e in sh && sh[e].depth == 0)
  }

  lemma SameObjectsIndexed(sh: Shape, sh': Shape, objs: map<int, RectNode>, view: map<int, Box>)
    requires SameObjects(sh, sh') && Indexed(sh, objs, view)
    ensures Indexed(sh', objs, view)
  {
  }

  lemma SplitObjects(sh: Shape, par: Parents, root: RectNode, node: RectNode, nn: RectNode, p: RectNode,
                     left: seq<RectNode>, right: seq<RectNode>, bs: Boxes)
    requires Splitting(sh, par, root, node, nn, left, right) && p in sh && p != node && sh[p].depth > 0
    ensures SameObjects(sh, SplitInner(sh, node, nn, left, right, bs, p))
  {
  }

  lemma RootObjects(sh: Shape, par: Parents, root: RectNode, nn: RectNode, nr: RectNode, left: seq<RectNode>,
                    right: seq<RectNode>, bs: Boxes, b: Box)
    requires Splitting(sh, par, root, root, nn, left, right) && nr !in sh && nr != nn
    ensures SameObjects(sh, SplitRoot(sh, root, nn, left, right, bs, nr, b))
  {
  }

  // A new object changes neither the other objects nor any node but the leaf.
  lemma ObjectKept(sh: Shape, par: Parents, root: RectNode, path: seq<RectNode>, e: RectNode, id: int, box: Box,
                   objs: map<int, RectNode>, view: map<int, Box>, maxElem: nat, minElem: nat)
    requires IsPath(sh, par, root, path) && |path| == sh[root].depth && e !in sh && id > 0 && id !in objs
    requires Indexed(sh, objs, view) && Filled(sh, root, maxElem)
    ensures var sh' := WithObject(sh, path[|path| - 1], e, id, box);
            && Indexed(sh', objs[id := e], view[id := box]) && FilledBut(sh', root, maxElem, path[|path| - 1])
            && (AtLeast(sh, root, minElem) ==> AtLeast(sh', root, minElem))
  {
  }

  // An insertion under way: the nodes of path[..d + 1] still have to be extended, and path[d] may have one
  // child too many.
  ghost predicate Underway(sh: Shape, par: Parents, root: RectNode, objs: map<int, RectNode>, view: map<int, Box>,
                           path: seq<RectNode>, d: nat, box: Box, maxElem: nat) {
    && d < |path| && Indexed(sh, objs, view)
    && Extending(sh, par, root, path[..d + 1], d, box) && FilledBut(sh, root, maxElem, path[d])
  }

  lemma ObjectUnderway(sh: Shape, par: Parents, root: RectNode, path: seq<RectNode>, e: RectNode, id: int, box: Box,
                       objs: map<int, RectNode>, view: map<int, Box>, maxElem: nat, minElem: nat)
    requires IsPath(sh, par, root, path) && |path| == sh[root].depth && e !in sh && id > 0 && id !in objs && Proper(box)
    requires Boxed(sh, par, root) && Indexed(sh, objs, view) && Filled(sh, root, maxElem)
    ensures var sh' := WithObject(sh, path[|path| - 1], e, id, box);
            && Underway(sh', par[e := path[|path| - 1]], root, objs[id := e], view[id := box], path, |path| - 1, box,
               maxElem)
            && (AtLeast(sh, root, minElem) ==> AtLeast(sh', root, minElem)) && sh'.Keys == sh.Keys + {e}
  {
    assert path[..|path| - 1 + 1] == path;
    ObjectAdded(sh, par, root, path, e, id, box);
    ObjectKept(sh, par, root, path, e, id, box, objs, view, maxElem, minElem);
  }

  // Path[d] is divided, and path[d - 1] gets the new node.
  ghost predicate Dividing(sh: Shape, par: Parents, root: RectNode, path: seq<RectNode>, d: nat, nn: RectNode,
                           left: seq<RectNode>, right: seq<RectNode>, minElem: nat, maxElem: nat) {
    && d < |path| && Splitting(sh, par, root, path[d], nn, left, right) && Measured(left, right, minElem, maxElem)
    && (forall c :: c in left ==> c in sh) && (forall c :: c in right ==> c in sh)
  }

  lemma SplitUnderway(sh: Shape, par: Parents, root: RectNode, objs: map<int, RectNode>, view: map<int, Box>,
                      path: seq<RectNode>, d: nat, box: Box, maxElem: nat, nn: RectNode, left: seq<RectNode>,
                        right: seq<RectNode>, minElem: nat)
    requires Underway(sh, par, root, objs, view, path, d, box, maxElem) && d > 0
    requires Dividing(sh, par, root, path, d, nn, left, right, minElem, maxElem)
    ensures path[d] in sh && path[d - 1] in sh && path[d] != path[d - 1]
    ensures var sh' := SplitInner(sh, path[d], nn, left, right, Unions(sh, left, right), path[d - 1]);
            && Underway(sh', Reparented(par, nn, right, path[d - 1]), root, objs, view, path, d - 1, box, maxElem)
            && (AtLeast(sh, root, minElem) ==> AtLeast(sh', root, minElem))
  {
    var way, bs := path[..d + 1], Unions(sh, left, right);
    assert way[..d] == path[..d - 1 + 1] && way[d] == path[d] && way[d - 1] == path[d - 1];
    assert way[..d + 1] == way;
    SplitDone(sh, par, root, way, nn, left, right, box);
    PathParent(sh, par, root, way);
    SplitFilled(sh, par, root, path[d], nn, path[d - 1], left, right, bs, minElem, maxElem);
    SplitObjects(sh, par, root, path[d], nn, path[d - 1], left, right, bs);
    SameObjectsIndexed(sh, SplitInner(sh, path[d], nn, left, right, bs, path[d - 1]), objs, view);
  }

  lemma RootUnderway(sh: Shape, par: Parents, root: RectNode, objs: map<int, RectNode>, view: map<int, Box>,
                     path: seq<RectNode>, box: Box, maxElem: nat, nn: RectNode, nr: RectNode, left: seq<RectNode>,
                       right: seq<RectNode>, minElem: nat)
    requires |path| > 0 && Underway(sh, par, root, objs, view, path, 0, box, maxElem)
    requires Dividing(sh, par, root, path, 0, nn, left, right, minElem, maxElem) && nr !in sh && nr != nn
    ensures path[0] == root && root in sh
    ensures var sh', par' := RootShape(sh, root, nn, nr, left, right), Reparented(par, nn, right, nr)[root := nr];
            && Tree(sh', par', nr) && Boxed(sh', par', nr) && Filled(sh', nr, maxElem) && Indexed(sh', objs, view)
            && (AtLeast(sh, root, minElem) ==> AtLeast(sh', nr, minElem))
  {
    var bs, b := Unions(sh, left, right), RootBox(sh, root, nn, left, right);
    assert path[..0 + 1] == [path[0]] == [root];
    RootDone(sh, par, root, nn, nr, left, right, box);
    RootFilled(sh, par, root, nn, nr, left, right, bs, b, minElem, maxElem);
    RootObjects(sh, par, root, nn, nr, left, right, bs, b);
    SameObjectsIndexed(sh, SplitRoot(sh, root, nn, left, right, bs, nr, b), objs, view);
  }

  // A larger box for a node above the objects changes nothing else.
  lemma BoxKept(sh: Shape, root: RectNode, objs: map<int, RectNode>, view: map<int, Box>, n: RectNode, b: Box,
                maxElem: nat, minElem: nat)
    requires n in sh && sh[n].depth > 0 && Filled(sh, root, maxElem) && Indexed(sh, objs, view)
    ensures var sh' := WithBox(sh, n, b);
            Filled(sh', root, maxElem) && Indexed(sh', objs, view) &&
              (AtLeast(sh, root, minElem) ==> AtLeast(sh', root, minElem))
  {
    SameObjectsIndexed(sh, WithBox(sh, n, b), objs, view);
  }

  lemma ExtendedOn(sh: Shape, par: Parents, root: RectNode, way: seq<RectNode>, d: nat, box: Box)
    requires |way| == d + 1 && Extending(sh, par, root, way, d, box)
    ensures way[d] in sh && sh[way[d]].depth > 0
    ensures var sh' := WithBox(sh, way[d], Extend(sh[way[d]].box, box));
            && Tree(sh', par, root) && (d > 0 ==> Extending(sh', par, root, way[..d], d - 1, box)) &&
               (d == 0 ==> Boxed(sh', par, root))
  {
    var sh' := WithBox(sh, way[d], Extend(sh[way[d]].box, box));
    ExtendStep(sh, par, root, way, d, box);
    if d > 0 {
      assert way[..d][..d - 1 + 1] == way[..d];
      PrefixIsPath(sh', par, root, way, d);
    } else {
      assert way[..d] == [];
      NoneNear(sh', par, root, box);
    }
  }

  // No node is too full any more, and path[d] is extended by the new box.
  lemma ExtendUnderway(sh: Shape, par: Parents, root: RectNode, objs: map<int, RectNode>, view: map<int, Box>,
                       path: seq<RectNode>, d: nat, box: Box, maxElem: nat, minElem: nat)
    requires Underway(sh, par, root, objs, view, path, d, box, maxElem) && Filled(sh, root, maxElem)
    ensures path[d] in sh
    ensures var sh' := WithBox(sh, path[d], Extend(sh[path[d]].box, box));
            && Filled(sh', root, maxElem) && Indexed(sh', objs, view) && Tree(sh', par, root)
            && (d > 0 ==> Underway(sh', par, root, objs, view, path, d - 1, box, maxElem))
            && (d == 0 ==> Boxed(sh', par, root))
            && (AtLeast(sh, root, minElem) ==> AtLeast(sh', root, minElem))
  {
    var way := path[..d + 1];
    assert way[d] == path[d] && way[..d] == path[..d] && way[..d + 1] == way;
    ExtendedOn(sh, par, root, way, d, box);
    BoxKept(sh, root, objs, view, path[d], Extend(sh[path[d]].box, box), maxElem, minElem);
    if d > 0 {
      var sh' := WithBox(sh, path[d], Extend(sh[path[d]].box, box));
      StillUnderway(sh', par, root, objs, view, path, d, box, maxElem);
    }
  }

  lemma StillUnderway(sh: Shape, par: Parents, root: RectNode, objs: map<int, RectNode>, view: map<int, Box>,
                      path: seq<RectNode>, d: nat, box: Box, maxElem: nat)
    requires 0 < d < |path| && Extending(sh, par, root, path[..d], d - 1, box) && Filled(sh, root, maxElem) &&
             Indexed(sh, objs, view)
    ensures Underway(sh, par, root, objs, view, path, d - 1, box, maxElem)
  {
    assert path[..d - 1 + 1] == path[..d];
  }

  lemma PrefixIsPath(sh: Shape, par: Parents, root: RectNode, path: seq<RectNode>, k: nat)
    requires IsPath(sh, par, root, path) && 0 < k <= |path|
    ensures IsPath(sh, par, root, path[..k])
  {
  }

  lemma NoneNear(sh: Shape, par: Parents, root: RectNode, box: Box)
    requires Tree(sh, par, root) && ChildrenIn(sh) && BoxedBut(sh, [], box)
    ensures Boxed(sh, par, root)
  {
    forall n | n in sh ensures NodeOk(sh, par, n) { }
  }

  // What a split needs to know of the node it splits.
  lemma UnderwayFacts(sh: Shape, par: Parents, root: RectNode, objs: map<int, RectNode>, view: map<int, Box>,
                      path: seq<RectNode>, d: nat, box: Box, maxElem: nat)
    requires Underway(sh, par, root, objs, view, path, d, box, maxElem)
    ensures path[d] in sh && sh[path[d]].depth > 0 && AllProper(sh, sh[path[d]].children)
    ensures path[0] == root && (d > 0 ==> path[d - 1] in sh && path[d - 1] != path[d])
  {
    var way := path[..d + 1];
    assert way[d] == path[d] && way[..d + 1] == way && way[0] == path[0];
    assert d > 0 ==> way[d - 1] == path[d - 1];
    BelowPathProper(sh, par, root, way, box, maxElem);
  }
}
