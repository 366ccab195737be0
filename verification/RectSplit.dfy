// Adding an object to a leaf and splitting a node that has become too full, as changes of the shape.
module RectSplit {
  import opened Geometry
  import opened RectEdit
  import opened RectNodes
  import opened RectShape
  import opened Sequences

  ghost function WithObject(sh: Shape, leaf: RectNode, e: RectNode, id: int, box: Box): Shape
    requires leaf in sh
  {
    sh[e := Rec([], true, 0, id, box)]
      [leaf := sh[leaf].(children := sh[leaf].children + [e], box := Extend(sh[leaf].box, box))]
  }

  lemma ObjectNode(sh: Shape, par: Parents, root: RectNode, leaf: RectNode, e: RectNode, id: int, box: Box, n: RectNode)
    requires Tree(sh, par, root) && leaf in sh && sh[leaf].depth == 1 && e !in sh && (n in sh || n == e)
    ensures NodeOk(WithObject(sh, leaf, e, id, box), par[e := leaf], n)
  {
    assert NodeOk(sh, par, leaf);
    if n in sh { assert NodeOk(sh, par, n); }
  }

  lemma ObjectTree(sh: Shape, par: Parents, root: RectNode, leaf: RectNode, e: RectNode, id: int, box: Box)
    requires Tree(sh, par, root) && leaf in sh && sh[leaf].depth == 1 && e !in sh
    ensures Tree(WithObject(sh, leaf, e, id, box), par[e := leaf], root)
  {
    var sh', par' := WithObject(sh, leaf, e, id, box), par[e := leaf];
    forall n | n in sh' ensures NodeOk(sh', par', n) { ObjectNode(sh, par, root, leaf, e, id, box, n); }
    assert e in sh'[leaf].children;
  }

  // Only the leaf's children change, and only its box.
  lemma ObjectNear(sh: Shape, par: Parents, root: RectNode, leaf: RectNode, e: RectNode, id: int, box: Box, n: RectNode)
    requires Tree(sh, par, root) && Boxed(sh, par, root) && leaf in sh && sh[leaf].depth == 1 && e !in sh && Proper(box)
    requires n in sh && sh[n].depth > 0
    ensures var sh' := WithObject(sh, leaf, e, id, box);
            && (forall c :: c in sh'[n].children ==> c in sh') && Near(sh', n, box)
            && (n == leaf ==> Exact(sh', n))
            && (leaf !in sh[n].children ==> Exact(sh', n))
  {
    var sh' := WithObject(sh, leaf, e, id, box);
    assert NodeOk(sh, par, n) && NodeOk(sh, par, leaf) && Exact(sh, n);
    if n == leaf {
      var cs := sh[leaf].children;
      assert (cs + [e])[..|cs|] == cs;
      UnionSame(sh, sh', cs);
      ExactIsNear(sh', n, box);
    } else if leaf in sh[n].children {
      ExactIsNear(sh, n, box);
      NearSurvives(sh, sh', n, leaf, box);
    } else {
      UnionSame(sh, sh', sh[n].children);
      ExactIsNear(sh', n, box);
    }
  }

  lemma ObjectPath(sh: Shape, par: Parents, root: RectNode, path: seq<RectNode>, e: RectNode, id: int, box: Box)
    requires IsPath(sh, par, root, path) && |path| == sh[root].depth && e !in sh
    ensures IsPath(WithObject(sh, path[|path| - 1], e, id, box), par[e := path[|path| - 1]], root, path)
  {
    ObjectTree(sh, par, root, path[|path| - 1], e, id, box);
  }

  lemma ObjectAdded(sh: Shape, par: Parents, root: RectNode, path: seq<RectNode>, e: RectNode, id: int, box: Box)
    requires IsPath(sh, par, root, path) && |path| == sh[root].depth && Boxed(sh, par, root) && e !in sh && Proper(box)
    ensures var leaf := path[|path| - 1];
            var sh', par' := WithObject(sh, leaf, e, id, box), par[e := leaf];
            Extending(sh', par', root, path, |path| - 1, box)
  {
    var leaf := path[|path| - 1];
    var sh', par' := WithObject(sh, leaf, e, id, box), par[e := leaf];
    ObjectPath(sh, par, root, path, e, id, box);
    assert path[..|path| - 1 + 1] == path;
    ObjectBoxed(sh, par, root, path, e, id, box);
    assert e in sh'[leaf].children;
    ExtendCovers(sh', leaf, e, box);
  }

  lemma ObjectBoxed(sh: Shape, par: Parents, root: RectNode, path: seq<RectNode>, e: RectNode, id: int, box: Box)
    requires IsPath(sh, par, root, path) && |path| == sh[root].depth && Boxed(sh, par, root) && e !in sh && Proper(box)
    ensures var sh' := WithObject(sh, path[|path| - 1], e, id, box); ChildrenIn(sh') && BoxedBut(sh', path, box)
  {
    hide Exact, Near, Union;
    var leaf := path[|path| - 1];
    var sh' := WithObject(sh, leaf, e, id, box);
    ObjectTree(sh, par, root, leaf, e, id, box);
    TreeChildrenIn(sh', par[e := leaf], root);
    forall n | n in sh' && sh'[n].depth > 0 && n !in path ensures Exact(sh', n) {
      NotAboveLeaf(sh, par, root, path, n);
      ObjectNear(sh, par, root, leaf, e, id, box, n);
    }
    forall n | n in path ensures n in sh' && sh'[n].depth > 0 && Near(sh', n, box) {
      ObjectNear(sh, par, root, leaf, e, id, box, n);
    }
  }

  lemma NotAboveLeaf(sh: Shape, par: Parents, root: RectNode, path: seq<RectNode>, n: RectNode)
    requires IsPath(sh, par, root, path) && n in sh && n !in path
    ensures path[|path| - 1] !in sh[n].children
  {
    OnlyParent(sh, par, root, path, |path| - 1, n);
    if |path| > 1 { assert path[|path| - 2] in path; }
  }

  // A division of a node's children into two groups, neither of them empty.
  ghost predicate Halves(cs: seq<RectNode>, left: seq<RectNode>, right: seq<RectNode>) {
    && left != [] && right != [] && NoDup(left + right)
    && (forall c :: c in cs ==> c in left || c in right)
    && (forall c :: c in left ==> c in cs) && (forall c :: c in right ==> c in cs)
  }

  lemma HalvesDisjoint(cs: seq<RectNode>, left: seq<RectNode>, right: seq<RectNode>)
    requires Halves(cs, left, right)
    ensures NoDup(left) && NoDup(right) && forall c :: c in left ==> c !in right
  {
    var a := left + right;
    assert forall i :: 0 <= i < |left| ==> a[i] == left[i];
    assert forall i :: 0 <= i < |right| ==> a[|left| + i] == right[i];
  }

  // The new boxes a split computes.
  datatype Boxes = Boxes(left: Box, right: Box)

  // The node keeps the left half, the new node gets the right half.
  ghost function Halved(sh: Shape, node: RectNode, nn: RectNode, left: seq<RectNode>, right: seq<RectNode>,
                        bs: Boxes): Shape
    requires node in sh
  {
    sh[nn := Rec(right, sh[node].leaf, sh[node].depth, 0, bs.right)]
      [node := sh[node].(children := left, box := bs.left)]
  }

  // The parent of the new node is p.
  ghost function Reparented(par: Parents, nn: RectNode, right: seq<RectNode>, p: RectNode): Parents {
    (map c | c in par :: if c in right then nn else par[c])[nn := p]
  }

  ghost function SplitInner(sh: Shape, node: RectNode, nn: RectNode, left: seq<RectNode>, right: seq<RectNode>,
                            bs: Boxes, p: RectNode): Shape
    requires node in sh && p in sh
  {
    Halved(sh, node, nn, left, right, bs)[p := sh[p].(children := sh[p].children + [nn])]
  }

  lemma SplitKeys(sh: Shape, node: RectNode, nn: RectNode, left: seq<RectNode>, right: seq<RectNode>, bs: Boxes,
                  p: RectNode)
    requires node in sh && p in sh
    ensures SplitInner(sh, node, nn, left, right, bs, p).Keys == sh.Keys + {nn}
  {
  }

  ghost function SplitRoot(sh: Shape, root: RectNode, nn: RectNode, left: seq<RectNode>, right: seq<RectNode>,
                           bs: Boxes, nr: RectNode, b: Box): Shape
    requires root in sh
  {
    Halved(sh, root, nn, left, right, bs)[nr := Rec([root, nn], false, sh[root].depth + 1, 0, b)]
  }

  ghost predicate Splitting(sh: Shape, par: Parents, root: RectNode, node: RectNode, nn: RectNode,
                            left: seq<RectNode>, right: seq<RectNode>) {
    && Tree(sh, par, root) && node in sh && sh[node].depth >= 1 && nn !in sh
    && Halves(sh[node].children, left, right)
  }

  lemma HalvedNodes(sh: Shape, par: Parents, root: RectNode, node: RectNode, nn: RectNode, left: seq<RectNode>,
                    right: seq<RectNode>, bs: Boxes, p: RectNode)
    requires Splitting(sh, par, root, node, nn, left, right)
    ensures var h, par' := Halved(sh, node, nn, left, right, bs), Reparented(par, nn, right, p);
            NodeOk(h, par', node) && NodeOk(h, par', nn)
  {
    assert NodeOk(sh, par, node);
    HalvesDisjoint(sh[node].children, left, right);
  }

  // A node other than those of the split keeps its children and they keep it.
  lemma OtherNode(sh: Shape, par: Parents, root: RectNode, node: RectNode, nn: RectNode, left: seq<RectNode>,
                  right: seq<RectNode>, bs: Boxes, p: RectNode, n: RectNode)
    requires Splitting(sh, par, root, node, nn, left, right) && n in sh && n != node
    ensures NodeOk(Halved(sh, node, nn, left, right, bs), Reparented(par, nn, right, p), n)
    ensures forall c :: c in sh[n].children ==> c != nn && c !in right
  {
    assert NodeOk(sh, par, n) && NodeOk(sh, par, node);
  }

  lemma InnerParent(sh: Shape, par: Parents, root: RectNode, node: RectNode, nn: RectNode, left: seq<RectNode>,
                    right: seq<RectNode>, bs: Boxes)
    requires Splitting(sh, par, root, node, nn, left, right) && node != root
    ensures node in par && par[node] in sh && par[node] != node && sh[par[node]].depth == sh[node].depth + 1
    ensures var p := par[node]; NodeOk(SplitInner(sh, node, nn, left, right, bs, p), Reparented(par, nn, right, p), p)
  {
    var p := par[node];
    assert NodeOk(sh, par, p) && NodeOk(sh, par, node);
    OtherNode(sh, par, root, node, nn, left, right, bs, p, p);
  }

  lemma InnerNode(sh: Shape, par: Parents, root: RectNode, node: RectNode, nn: RectNode, left: seq<RectNode>,
                  right: seq<RectNode>, bs: Boxes, n: RectNode)
    requires Splitting(sh, par, root, node, nn, left, right) && node != root && (n in sh || n == nn)
    ensures node in par && par[node] in sh
    ensures var p := par[node]; NodeOk(SplitInner(sh, node, nn, left, right, bs, p), Reparented(par, nn, right, p), n)
  {
    InnerParent(sh, par, root, node, nn, left, right, bs);
    var p := par[node];
    HalvedNodes(sh, par, root, node, nn, left, right, bs, p);
    if n in sh && n != node { OtherNode(sh, par, root, node, nn, left, right, bs, p, n); }
  }

  // Every child is still among its parent's children.
  lemma ReparentedChild(sh: Shape, par: Parents, root: RectNode, node: RectNode, nn: RectNode, left: seq<RectNode>,
                        right: seq<RectNode>, bs: Boxes, p: RectNode, c: RectNode)
    requires Splitting(sh, par, root, node, nn, left, right) && c in par
    ensures var h, par' := Halved(sh, node, nn, left, right, bs), Reparented(par, nn, right, p);
            c != nn && c in par' && par'[c] in h && c in h[par'[c]].children
  {
    assert c in sh[par[c]].children;
    assert NodeOk(sh, par, node);
  }

  lemma InnerHangs(sh: Shape, par: Parents, root: RectNode, node: RectNode, nn: RectNode, left: seq<RectNode>,
                   right: seq<RectNode>, bs: Boxes, c: RectNode)
    requires Splitting(sh, par, root, node, nn, left, right) && node != root && node in par && par[node] in sh
    requires c in par || c == nn
    ensures var p := par[node]; var sh', par' := SplitInner(sh, node, nn, left, right, bs, p),
      Reparented(par, nn, right, p);
            c in par' && par'[c] in sh' && c in sh'[par'[c]].children
  {
    if c != nn { ReparentedChild(sh, par, root, node, nn, left, right, bs, par[node], c); }
  }

  lemma InnerKeys(sh: Shape, par: Parents, root: RectNode, node: RectNode, nn: RectNode, left: seq<RectNode>,
                  right: seq<RectNode>, bs: Boxes)
    requires Splitting(sh, par, root, node, nn, left, right) && node != root && node in par && par[node] in sh
    ensures var p := par[node]; var sh', par' := SplitInner(sh, node, nn, left, right, bs, p),
      Reparented(par, nn, right, p);
            && sh'.Keys == sh.Keys + {nn} && par'.Keys == par.Keys + {nn}
            && (forall n :: n in sh ==> sh'[n].depth == sh[n].depth) && sh'[nn].depth == sh[node].depth
  {
  }

  lemma InnerNodes(sh: Shape, par: Parents, root: RectNode, node: RectNode, nn: RectNode, left: seq<RectNode>,
                   right: seq<RectNode>, bs: Boxes, p: RectNode)
    requires Splitting(sh, par, root, node, nn, left, right) && node != root && node in par && p == par[node] && p in sh
    ensures var sh', par' := SplitInner(sh, node, nn, left, right, bs, p), Reparented(par, nn, right, p);
            && (forall n :: n in sh' ==> NodeOk(sh', par', n))
            && (forall c :: c in par' ==> par'[c] in sh' && c in sh'[par'[c]].children)
  {
    var sh', par' := SplitInner(sh, node, nn, left, right, bs, p), Reparented(par, nn, right, p);
    forall n | n in sh' ensures NodeOk(sh', par', n) { InnerNode(sh, par, root, node, nn, left, right, bs, n); }
    forall c | c in par' ensures par'[c] in sh' && c in sh'[par'[c]].children {
      InnerHangs(sh, par, root, node, nn, left, right, bs, c);
    }
  }

  lemma InnerTree(sh: Shape, par: Parents, root: RectNode, node: RectNode, nn: RectNode, left: seq<RectNode>,
                  right: seq<RectNode>, bs: Boxes)
    requires Splitting(sh, par, root, node, nn, left, right) && node != root
    ensures node in par && par[node] in sh
    ensures var p := par[node]; Tree(SplitInner(sh, node, nn, left, right, bs, p), Reparented(par, nn, right, p), root)
  {
    InnerParent(sh, par, root, node, nn, left, right, bs);
    var p := par[node];
    InnerKeys(sh, par, root, node, nn, left, right, bs);
    InnerNodes(sh, par, root, node, nn, left, right, bs, p);
    Grown(sh, par, root, SplitInner(sh, node, nn, left, right, bs, p), Reparented(par, nn, right, p), nn);
  }

  // One node more, all depths as before.
  lemma Grown(sh: Shape, par: Parents, root: RectNode, sh': Shape, par': Parents, nn: RectNode)
    requires Tree(sh, par, root) && nn !in sh && sh'.Keys == sh.Keys + {nn} && par'.Keys == par.Keys + {nn}
    requires (forall n :: n in sh ==> sh'[n].depth == sh[n].depth) && sh'[nn].depth < sh[root].depth
    requires forall n :: n in sh' ==> NodeOk(sh', par', n)
    requires forall c :: c in par' ==> par'[c] in sh' && c in sh'[par'[c]].children
    ensures Tree(sh', par', root)
  {
  }

  lemma NewRootNode(sh: Shape, par: Parents, root: RectNode, nn: RectNode, left: seq<RectNode>, right: seq<RectNode>,
                    bs: Boxes, nr: RectNode, b: Box)
    requires Splitting(sh, par, root, root, nn, left, right) && nr !in sh && nr != nn
    ensures NodeOk(SplitRoot(sh, root, nn, left, right, bs, nr, b), Reparented(par, nn, right, nr)[root := nr], nr)
  {
    assert NodeOk(sh, par, root);
  }

  lemma RootNode(sh: Shape, par: Parents, root: RectNode, nn: RectNode, left: seq<RectNode>, right: seq<RectNode>,
                 bs: Boxes, nr: RectNode, b: Box, n: RectNode)
    requires Splitting(sh, par, root, root, nn, left, right) && nr !in sh && nr != nn && (n in sh || n == nn)
    ensures NodeOk(SplitRoot(sh, root, nn, left, right, bs, nr, b), Reparented(par, nn, right, nr)[root := nr], n)
  {
    var h, par' := Halved(sh, root, nn, left, right, bs), Reparented(par, nn, right, nr);
    HalvedNodes(sh, par, root, root, nn, left, right, bs, nr);
    if n in sh && n != root { OtherNode(sh, par, root, root, nn, left, right, bs, nr, n); }
    NotRootsChild(sh, par, root, nn, left, right, bs, n);
    NodeKept(h, par', n, SplitRoot(sh, root, nn, left, right, bs, nr, b), par'[root := nr]);
  }

  lemma NotRootsChild(sh: Shape, par: Parents, root: RectNode, nn: RectNode, left: seq<RectNode>,
                      right: seq<RectNode>, bs: Boxes, n: RectNode)
    requires Splitting(sh, par, root, root, nn, left, right) && (n in sh || n == nn)
    ensures forall c :: c in Halved(sh, root, nn, left, right, bs)[n].children ==> c in sh && c != root
  {
    assert NodeOk(sh, par, if n == nn then root else n);
  }

  lemma NodeKept(sh: Shape, par: Parents, n: RectNode, sh': Shape, par': Parents)
    requires n in sh && n in sh' && sh'[n] == sh[n] && NodeOk(sh, par, n)
    requires forall c :: c in sh[n].children ==>
      c in sh' && sh'[c].depth == sh[c].depth && c in par' && par'[c] == par[c]
    ensures NodeOk(sh', par', n)
  {
  }

  lemma RootHangs(sh: Shape, par: Parents, root: RectNode, nn: RectNode, left: seq<RectNode>, right: seq<RectNode>,
                  bs: Boxes, nr: RectNode, b: Box, c: RectNode)
    requires Splitting(sh, par, root, root, nn, left, right) && nr !in sh && nr != nn &&
             (c in par || c == nn || c == root)
    ensures var sh', par' := SplitRoot(sh, root, nn, left, right, bs, nr, b),
      Reparented(par, nn, right, nr)[root := nr];
            c in par' && par'[c] in sh' && c in sh'[par'[c]].children
  {
    if c != nn && c != root { ReparentedChild(sh, par, root, root, nn, left, right, bs, nr, c); }
  }

  lemma RootKeys(sh: Shape, par: Parents, root: RectNode, nn: RectNode, left: seq<RectNode>, right: seq<RectNode>,
                 bs: Boxes, nr: RectNode, b: Box)
    requires Splitting(sh, par, root, root, nn, left, right) && nr !in sh && nr != nn
    ensures var sh', par' := SplitRoot(sh, root, nn, left, right, bs, nr, b),
      Reparented(par, nn, right, nr)[root := nr];
            sh'.Keys == sh.Keys + {nn, nr} && par'.Keys == par.Keys + {nn, root}
  {
  }

  lemma RootNodes(sh: Shape, par: Parents, root: RectNode, nn: RectNode, left: seq<RectNode>, right: seq<RectNode>,
                  bs: Boxes, nr: RectNode, b: Box)
    requires Splitting(sh, par, root, root, nn, left, right) && nr !in sh && nr != nn
    ensures var sh', par' := SplitRoot(sh, root, nn, left, right, bs, nr, b),
      Reparented(par, nn, right, nr)[root := nr];
            && (forall n {:trigger NodeOk(sh', par', n)} :: n in sh' ==> NodeOk(sh', par', n))
            && forall c {:trigger par'[c]} :: c in par' ==> par'[c] in sh' && c in sh'[par'[c]].children
  {
    RootKeys(sh, par, root, nn, left, right, bs, nr, b);
    var sh', par' := SplitRoot(sh, root, nn, left, right, bs, nr, b), Reparented(par, nn, right, nr)[root := nr];
    forall n | n in sh' ensures NodeOk(sh', par', n) {
      if n == nr {
        NewRootNode(sh, par, root, nn, left, right, bs, nr, b);
      } else {
        RootNode(sh, par, root, nn, left, right, bs, nr, b, n);
      }
    }
    forall c | c in par' ensures par'[c] in sh' && c in sh'[par'[c]].children {
      RootHangs(sh, par, root, nn, left, right, bs, nr, b, c);
    }
  }

  lemma RootTree(sh: Shape, par: Parents, root: RectNode, nn: RectNode, left: seq<RectNode>, right: seq<RectNode>,
                 bs: Boxes, nr: RectNode, b: Box)
    requires Splitting(sh, par, root, root, nn, left, right) && nr !in sh && nr != nn
    ensures Tree(SplitRoot(sh, root, nn, left, right, bs, nr, b), Reparented(par, nn, right, nr)[root := nr], nr)
  {
    RootNodes(sh, par, root, nn, left, right, bs, nr, b);
    RootKeys(sh, par, root, nn, left, right, bs, nr, b);
  }

  ghost function Unions(sh: Shape, left: seq<RectNode>, right: seq<RectNode>): Boxes
    requires (forall c :: c in left ==> c in sh) && (forall c :: c in right ==> c in sh)
  {
    Boxes(Union(sh, left), Union(sh, right))
  }

  lemma HalvesIn(sh: Shape, par: Parents, root: RectNode, node: RectNode, nn: RectNode, left: seq<RectNode>,
                 right: seq<RectNode>)
    requires Splitting(sh, par, root, node, nn, left, right)
    ensures forall c :: c in left ==>
      c in sh && c != nn && c != node && c in par && par[c] == node && sh[c].depth < sh[node].depth
    ensures forall c :: c in right ==>
      c in sh && c != nn && c != node && c in par && par[c] == node && sh[c].depth < sh[node].depth
  {
    assert NodeOk(sh, par, node);
  }

  // Both halves are exact whatever else the split changes above them.
  lemma HalvesExact(sh: Shape, par: Parents, root: RectNode, node: RectNode, nn: RectNode, left: seq<RectNode>,
                    right: seq<RectNode>, sh': Shape)
    requires Splitting(sh, par, root, node, nn, left, right)
    requires (forall c :: c in left ==> c in sh) && (forall c :: c in right ==> c in sh)
    requires var h := Halved(sh, node, nn, left, right, Unions(sh, left, right));
             && node in sh' && nn in sh' && sh'[node] == h[node] && sh'[nn] == h[nn]
             && forall c :: c in left || c in right ==> c in sh' && sh'[c].box == sh[c].box
    ensures Exact(sh', node) && Exact(sh', nn)
  {
    assert sh'[node].children == left && sh'[nn].children == right;
    UnionSame(sh, sh', left);
    UnionSame(sh, sh', right);
  }

  // Around both halves is what was around the node.
  lemma HalvesAround(sh: Shape, par: Parents, root: RectNode, node: RectNode, nn: RectNode, left: seq<RectNode>,
                     right: seq<RectNode>, b: Box)
    requires Splitting(sh, par, root, node, nn, left, right) && BoxesFit(sh) && Fits32(b)
    requires (forall c :: c in left ==> c in sh) && (forall c :: c in right ==> c in sh)
    ensures forall c :: c in sh[node].children ==> c in sh
    ensures Contain(b, Union(sh, sh[node].children)) <==> Contain(b, Union(sh, left)) && Contain(b, Union(sh, right))
    ensures Fits32(Union(sh, left)) && Fits32(Union(sh, right)) && Fits32(Union(sh, sh[node].children))
  {
    assert NodeOk(sh, par, node);
    UnionIsLeast(sh, left, b);
    UnionIsLeast(sh, right, b);
    UnionIsLeast(sh, sh[node].children, b);
    UnionCovers(sh, left);
    UnionCovers(sh, right);
    UnionCovers(sh, sh[node].children);
  }

  // The split of a near node leaves its parent near.
  lemma ParentNear(sh: Shape, par: Parents, root: RectNode, node: RectNode, nn: RectNode, left: seq<RectNode>,
                   right: seq<RectNode>, box: Box)
    requires Splitting(sh, par, root, node, nn, left, right) && node != root && BoxesFit(sh) && Fits32(box) &&
             ChildrenIn(sh)
    requires (forall c :: c in left ==> c in sh) && (forall c :: c in right ==> c in sh)
    requires node in par && par[node] in sh && par[node] != node
    requires Near(sh, node, box) && Near(sh, par[node], box)
    ensures var p := par[node]; var sh' := SplitInner(sh, node, nn, left, right, Unions(sh, left, right), p);
            && (forall c :: c in sh'[p].children ==> c in sh') && Near(sh', p, box)
            && (Contain(Union(sh, sh[node].children), box) ==> Contain(Union(sh', sh'[p].children), box))
  {
    hide Union, Contain, Extend, Tree;
    var p := par[node];
    var sh' := SplitInner(sh, node, nn, left, right, Unions(sh, left, right), p);
    var cs, cs' := sh[p].children, sh'[p].children;
    ParentFits(sh, par, root, node, nn, left, right);
    HullFits(sh, cs, box);
    HullFits(sh', cs', box);
    HullOfSplit(sh, par, root, node, nn, left, right, box, Hull(sh, cs, box));
    HullOfSplit(sh, par, root, node, nn, left, right, box, Hull(sh', cs', box));
    SwapHull(sh, cs, sh', node, nn, box);
    if Contain(Union(sh, sh[node].children), box) { CoversAfter(sh, par, root, node, nn, left, right, sh', cs', box); }
  }

  lemma ParentFits(sh: Shape, par: Parents, root: RectNode, node: RectNode, nn: RectNode, left: seq<RectNode>,
                   right: seq<RectNode>)
    requires Splitting(sh, par, root, node, nn, left, right) && node != root && BoxesFit(sh)
    requires (forall c :: c in left ==> c in sh) && (forall c :: c in right ==> c in sh)
    requires node in par && par[node] in sh && par[node] != node
    ensures var p := par[node]; var sh' := SplitInner(sh, node, nn, left, right, Unions(sh, left, right), p);
            && AllFit(sh, sh[p].children) && AllFit(sh', sh'[p].children)
            && node in sh[p].children && nn !in sh[p].children && sh'[p].children == sh[p].children + [nn]
  {
    assert NodeOk(sh, par, par[node]);
    HalvesAround(sh, par, root, node, nn, left, right, EMPTY_BOX);
  }

  lemma SwapHull(sh: Shape, cs: seq<RectNode>, sh': Shape, node: RectNode, nn: RectNode, box: Box)
    requires AllFit(sh, cs) && AllFit(sh', cs + [nn]) && Fits32(box) && node in cs && nn !in cs
    requires forall c :: c in cs && c != node ==> sh'[c].box == sh[c].box
    requires forall b :: b == Hull(sh, cs, box) || b == Hull(sh', cs + [nn], box) ==>
      (Contain(b, sh[node].box) <==> Contain(b, sh'[node].box) && Contain(b, sh'[nn].box))
    ensures Hull(sh, cs, box) == Hull(sh', cs + [nn], box)
  {
    HullFits(sh, cs, box);
    HullFits(sh', cs + [nn], box);
    forall c | c in cs ensures Contain(Hull(sh', cs + [nn], box), sh[c].box) {
      assert c in cs + [nn] && nn in cs + [nn];
    }
    forall c | c in cs + [nn] ensures Contain(Hull(sh, cs, box), sh'[c].box) { assert c in cs || c == nn; }
    HullsEqual(sh, cs, sh', cs + [nn], box);
  }

  // A box that covers the box being inserted covers the old node just if it covers both halves.
  lemma HullOfSplit(sh: Shape, par: Parents, root: RectNode, node: RectNode, nn: RectNode, left: seq<RectNode>,
                    right: seq<RectNode>, box: Box, b: Box)
    requires Splitting(sh, par, root, node, nn, left, right) && BoxesFit(sh) && ChildrenIn(sh)
    requires (forall c :: c in left ==> c in sh) && (forall c :: c in right ==> c in sh)
    requires Near(sh, node, box) && Fits32(b) && Contain(b, box)
    ensures Contain(b, sh[node].box) <==> Contain(b, Union(sh, left)) && Contain(b, Union(sh, right))
  {
    HalvesAround(sh, par, root, node, nn, left, right, b);
    assert Contain(b, Extend(sh[node].box, box)) <==> Contain(b, sh[node].box);
    assert Contain(b, Hull(sh, sh[node].children, box)) <==> Contain(b, Union(sh, sh[node].children));
  }

  lemma CoversAfter(sh: Shape, par: Parents, root: RectNode, node: RectNode, nn: RectNode, left: seq<RectNode>,
                    right: seq<RectNode>,
                    sh': Shape, cs': seq<RectNode>, box: Box)
    requires Splitting(sh, par, root, node, nn, left, right) && BoxesFit(sh) && ChildrenIn(sh)
    requires (forall c :: c in left ==> c in sh) && (forall c :: c in right ==> c in sh)
    requires AllFit(sh', cs') && node in cs' && nn in cs' && sh'[node].box == Union(sh, left) &&
             sh'[nn].box == Union(sh, right)
    requires Contain(Union(sh, sh[node].children), box)
    ensures Contain(Union(sh', cs'), box)
  {
    UnionCovers(sh', cs');
    HalvesAround(sh, par, root, node, nn, left, right, Union(sh', cs'));
    ContainTransitive(Union(sh', cs'), Union(sh, sh[node].children), box);
  }
}
