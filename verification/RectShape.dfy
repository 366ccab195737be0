// The R-tree's nodes, and the shape of the tree as a value: which node has which children, depth and box.
module RectNodes {
  import opened Geometry

  datatype Code = Success | ErrorInvalidArg

  class RectNode {
    var children: seq<RectNode>
    var leaf: bool
    var depth: int
    var id: int
    var box: Box

    constructor ()
      ensures children == [] && leaf && depth == 0 && id == 0
    {
      children, leaf, depth, id, box := [], true, 0, 0, Box(0, 0, 0, 0);
    }

    // Moves count children from index on to the end of another node's, and drops those behind them.
    method SplitChildren(index: nat, count: int, to: RectNode?) returns (r: Code)
      requires to != this
      modifies this`children, (if to == null then {} else {to})`children
      ensures r == if index >= |old(children)| || count <= 0 || to == null then ErrorInvalidArg else Success
      ensures r == ErrorInvalidArg ==> unchanged(this) && (to != null ==> unchanged(to))
      ensures r == Success ==>
        (children == old(children)[..index]
         && var end := if index + count < |old(children)| then index + count else |old(children)|;
            to.children == old(to.children) + old(children)[index..end])
    {
      if index >= |children| || count <= 0 || to == null { return ErrorInvalidArg; }
      var endIndex := if index + count < |children| then index + count else |children|;
      var i := index;
      while i < endIndex
        invariant index <= i <= endIndex && children == old(children) &&
                  to.children == old(to.children) + children[index..i]
      {
        to.children := to.children + [children[i]];
        assert children[index..i + 1] == children[index..i] + [children[i]];
        i := i + 1;
      }
      children := children[..index];
      return Success;
    }
  }

  datatype Rec = Rec(children: seq<RectNode>, leaf: bool, depth: int, id: int, box: Box)

  ghost function RecOf(n: RectNode): Rec
    reads n
  {
    Rec(n.children, n.leaf, n.depth, n.id, n.box)
  }
}

module RectShape {
  import opened Geometry
  import opened RectNodes
  import opened Sequences

  type Shape = map<RectNode, Rec>
  type Parents = map<RectNode, RectNode>

  // One node: an object has depth 0, a leaf depth 1, and a node's children are one level below it
  // and know it as their parent.
  ghost predicate NodeOk(sh: Shape, par: Parents, n: RectNode)
    requires n in sh
  {
    && sh[n].depth >= 0 && (sh[n].leaf <==> sh[n].depth <= 1) && (sh[n].depth == 0 ==> sh[n].children == [])
    && NoDup(sh[n].children)
    && forall c :: c in sh[n].children ==> c in sh && c in par && par[c] == n && sh[c].depth == sh[n].depth - 1
  }

  // A tree under root: every node but the root hangs on its parent, and all leaves are equally deep.
  ghost predicate Tree(sh: Shape, par: Parents, root: RectNode) {
    && root in sh && sh[root].depth >= 1 && root !in par && par.Keys == sh.Keys - {root}
    && (forall n {:trigger NodeOk(sh, par, n)} :: n in sh ==> NodeOk(sh, par, n))
    && (forall c {:trigger par[c]} :: c in par ==> par[c] in sh && c in sh[par[c]].children)
    && (forall n :: n in sh && n != root ==> sh[n].depth < sh[root].depth)
  }

  // The ancestor of e at depth d.
  ghost function Up(sh: Shape, par: Parents, root: RectNode, e: RectNode, d: int): (a: RectNode)
    requires Tree(sh, par, root) && e in sh && sh[e].depth <= d <= sh[root].depth
    ensures a in sh && sh[a].depth == d
    decreases d - sh[e].depth
  {
    if sh[e].depth == d then e
    else
      assert e in par;
      assert NodeOk(sh, par, par[e]);
      Up(sh, par, root, par[e], d)
  }

  // e lies in the subtree of n.
  ghost predicate Under(sh: Shape, par: Parents, root: RectNode, e: RectNode, n: RectNode)
    requires Tree(sh, par, root) && e in sh && n in sh
  {
    sh[e].depth <= sh[n].depth <= sh[root].depth && Up(sh, par, root, e, sh[n].depth) == n
  }

  lemma {:induction false} UpStep(sh: Shape, par: Parents, root: RectNode, e: RectNode, d: int)
    requires Tree(sh, par, root) && e in sh && sh[e].depth <= d < sh[root].depth
    ensures var a := Up(sh, par, root, e, d); a in par && Up(sh, par, root, e, d + 1) == par[a]
    decreases d - sh[e].depth
  {
    assert e in par;
    assert NodeOk(sh, par, par[e]);
    if sh[e].depth < d { UpStep(sh, par, root, par[e], d); }
  }

  // A node below n is below exactly one of n's children.
  lemma UnderChild(sh: Shape, par: Parents, root: RectNode, e: RectNode, n: RectNode)
    requires Tree(sh, par, root) && e in sh && n in sh && sh[e].depth < sh[n].depth
    ensures sh[n].depth <= sh[root].depth
    ensures forall c :: c in sh[n].children ==> c in sh && sh[c].depth == sh[n].depth - 1
    ensures Under(sh, par, root, e, n) <==> Up(sh, par, root, e, sh[n].depth - 1) in sh[n].children
    ensures forall c :: c in sh[n].children ==>
      (Under(sh, par, root, e, c) <==> c == Up(sh, par, root, e, sh[n].depth - 1))
  {
    assert NodeOk(sh, par, n);
    UpStep(sh, par, root, e, sh[n].depth - 1);
    var a := Up(sh, par, root, e, sh[n].depth - 1);
  }

  lemma AllUnderRoot(sh: Shape, par: Parents, root: RectNode, e: RectNode)
    requires Tree(sh, par, root) && e in sh
    ensures Under(sh, par, root, e, root)
  {
  }

  // The union of the children's boxes, built as the source builds it.
  ghost function Union(sh: Shape, cs: seq<RectNode>): (b: Box)
    requires forall c :: c in cs ==> c in sh
  {
    if cs == [] then EMPTY_BOX else Extend(Union(sh, cs[..|cs| - 1]), sh[cs[|cs| - 1]].box)
  }

  // It is the least box around all of them.
  lemma {:induction false} UnionIsLeast(sh: Shape, cs: seq<RectNode>, b: Box)
    requires forall c :: c in cs ==> c in sh
    requires Fits32(b)
    ensures Contain(b, Union(sh, cs)) <==> forall c :: c in cs ==> Contain(b, sh[c].box)
  {
    if cs != [] {
      var init, last := cs[..|cs| - 1], cs[|cs| - 1];
      UnionIsLeast(sh, init, b);
      assert cs == init + [last];
    }
  }

  lemma {:induction false} UnionCovers(sh: Shape, cs: seq<RectNode>)
    requires forall c :: c in cs ==> c in sh
    ensures forall c :: c in cs ==> Contain(Union(sh, cs), sh[c].box)
    ensures (forall c :: c in cs ==> Fits32(sh[c].box)) ==> Fits32(Union(sh, cs))
  {
    if cs != [] {
      var init, last := cs[..|cs| - 1], cs[|cs| - 1];
      UnionCovers(sh, init);
      assert cs == init + [last];
      forall c | c in init ensures Contain(Union(sh, cs), sh[c].box) {
        ContainTransitive(Union(sh, cs), Union(sh, init), sh[c].box);
      }
    }
  }

  // The box of n is the union of its children's.
  ghost predicate Exact(sh: Shape, n: RectNode)
    requires n in sh && forall c :: c in sh[n].children ==> c in sh
  {
    sh[n].box == Union(sh, sh[n].children)
  }

  // Every node above the objects is exact, and all boxes fit.
  ghost predicate Boxed(sh: Shape, par: Parents, root: RectNode)
    requires Tree(sh, par, root)
  {
    && (forall n :: n in sh ==> Fits32(sh[n].box) && (sh[n].depth == 0 ==> Proper(sh[n].box)))
    && (forall n {:trigger Exact(sh, n)} :: n in sh && sh[n].depth > 0 ==> NodeOk(sh, par, n) && Exact(sh, n))
  }

  lemma ParentContains(sh: Shape, par: Parents, root: RectNode, c: RectNode)
    requires Tree(sh, par, root) && Boxed(sh, par, root) && c in par
    ensures Contain(sh[par[c]].box, sh[c].box)
  {
    var p := par[c];
    assert NodeOk(sh, par, p) && Exact(sh, p);
    UnionCovers(sh, sh[p].children);
  }

  // A node's box contains the box of every node below it.
  lemma {:induction false} BoxContains(sh: Shape, par: Parents, root: RectNode, e: RectNode, d: int)
    requires Tree(sh, par, root) && Boxed(sh, par, root) && e in sh && sh[e].depth <= d <= sh[root].depth
    ensures Contain(sh[Up(sh, par, root, e, d)].box, sh[e].box)
    decreases d - sh[e].depth
  {
    if sh[e].depth < d {
      assert e in par && NodeOk(sh, par, par[e]);
      ParentContains(sh, par, root, e);
      BoxContains(sh, par, root, par[e], d);
      ContainTransitive(sh[Up(sh, par, root, e, d)].box, sh[par[e]].box, sh[e].box);
    }
  }
}
