// Taking a node out of an R-tree and tidying up the path above it, as changes of the shape.
module RectPrune {
  import opened Geometry
  import opened RectEdit
  import opened RectNodes
  import opened RectShape
  import opened Sequences

  // The node n is gone, and so is its place among the children of p.
  ghost function Lopped(sh: Shape, n: RectNode, p: RectNode, cs: seq<RectNode>): Shape
    requires p in sh && p != n
  {
    (sh - {n})[p := sh[p].(children := cs)]
  }

  ghost predicate Without(cs: seq<RectNode>, n: RectNode, cs': seq<RectNode>) {
    && NoDup(cs') && |cs'| == |cs| - 1
    && (forall c :: c in cs && c != n ==> c in cs') && (forall c :: c in cs' ==> c in cs && c != n)
  }

  ghost predicate Lopping(sh: Shape, par: Parents, root: RectNode, n: RectNode, p: RectNode, cs: seq<RectNode>) {
    && Tree(sh, par, root) && n in sh && n in par && p == par[n] && p in sh && p != n
    && sh[n].children == [] && Without(sh[p].children, n, cs)
  }

  lemma LoppedDiffers(sh: Shape, n: RectNode, p: RectNode, cs: seq<RectNode>)
    requires n in sh && p in sh && p != n
    ensures var sh' := Lopped(sh, n, p, cs);
            && sh'.Keys == sh.Keys - {n} && sh'[p] == sh[p].(children := cs)
            && (forall m :: m in sh && m != n && m != p ==> m in sh' && sh'[m] == sh[m])
  {
  }

  lemma LoppedNode(sh: Shape, par: Parents, root: RectNode, n: RectNode, p: RectNode, cs: seq<RectNode>, m: RectNode)
    requires Lopping(sh, par, root, n, p, cs) && m in sh && m != n
    ensures NodeOk(Lopped(sh, n, p, cs), par - {n}, m)
  {
    assert NodeOk(sh, par, m) && NodeOk(sh, par, p);
  }

  lemma LoppedTree(sh: Shape, par: Parents, root: RectNode, n: RectNode, p: RectNode, cs: seq<RectNode>)
    requires Lopping(sh, par, root, n, p, cs)
    ensures Tree(Lopped(sh, n, p, cs), par - {n}, root)
  {
    var sh', par' := Lopped(sh, n, p, cs), par - {n};
    LoppedDiffers(sh, n, p, cs);
    forall m | m in sh' ensures NodeOk(sh', par', m) { LoppedNode(sh, par, root, n, p, cs, m); }
    forall c | c in par' ensures par'[c] in sh' && c in sh'[par'[c]].children {
      assert c in sh[par[c]].children;
    }
  }

  // Tidying up under way: the nodes of path[..k] may have boxes that are too large, or no children left.
  ghost predicate Loose(sh: Shape, par: Parents, root: RectNode, path: seq<RectNode>, k: nat, maxElem: nat) {
    && Tree(sh, par, root) && BoxesFit(sh) && k <= |path| && OnPath(sh, par, root, path, k)
    && (forall n :: n in sh ==> |sh[n].children| <= maxElem) && ChildrenIn(sh)
    && (forall n :: n in sh && sh[n].depth > 0 && n !in path[..k] ==> sh[n].children != [])
    && (forall n {:trigger Exact(sh, n)} :: n in sh && sh[n].depth > 0 && n !in path[..k] ==> Exact(sh, n))
  }

  ghost predicate OnPath(sh: Shape, par: Parents, root: RectNode, path: seq<RectNode>, k: nat)
    requires k <= |path|
  {
    && root in sh && (k > 0 ==> path[0] == root)
    && (forall j :: 0 <= j < k ==> path[j] in sh && sh[path[j]].depth == sh[root].depth - j > 0)
    && (forall j :: 0 < j < k ==> path[j] in par && par[path[j]] == path[j - 1])
  }

  // The removal of an object leaves the path to its leaf loose.
  lemma ObjectLopped(sh: Shape, par: Parents, root: RectNode, path: seq<RectNode>, e: RectNode, cs: seq<RectNode>,
                     maxElem: nat)
    requires path != [] && Lopping(sh, par, root, e, path[|path| - 1], cs) && sh[e].depth == 0
    requires Boxed(sh, par, root) && Filled(sh, root, maxElem) && OnPath(sh, par, root, path, |path|)
    ensures Loose(Lopped(sh, e, path[|path| - 1], cs), par - {e}, root, path, |path|, maxElem)
  {
    hide Lopped, BoxesFit;
    var p := path[|path| - 1];
    var sh', par' := Lopped(sh, e, p, cs), par - {e};
    LoppedTree(sh, par, root, e, p, cs);
    LoppedDiffers(sh, e, p, cs);
    TreeChildrenIn(sh', par', root);
    LoppedFits(sh, par, root, e, p, cs, maxElem);
    TreeChildrenIn(sh, par, root);
    assert path[..|path|] == path && root in path;
    ObjectOffPath(sh, par, root, path, e, sh', par');
    forall n | n in sh' && sh'[n].depth > 0 && n !in path ensures Exact(sh', n) && sh'[n].children != [] {
      assert p in path && n != root && n != e && NodeOk(sh, par, n) && Exact(sh, n);
      LoppedElsewhere(sh, par, root, e, p, cs, n);
    }
  }

  lemma LoppedFits(sh: Shape, par: Parents, root: RectNode, c: RectNode, p: RectNode, cs: seq<RectNode>, maxElem: nat)
    requires Lopping(sh, par, root, c, p, cs) && BoxesFit(sh) && forall n :: n in sh ==> |sh[n].children| <= maxElem
    ensures var sh' := Lopped(sh, c, p, cs); BoxesFit(sh') && forall n :: n in sh' ==> |sh'[n].children| <= maxElem
  {
    LoppedDiffers(sh, c, p, cs);
  }

  // Other nodes are as exact as before.
  lemma LoppedElsewhere(sh: Shape, par: Parents, root: RectNode, c: RectNode, p: RectNode, cs: seq<RectNode>,
                        n: RectNode)
    requires Lopping(sh, par, root, c, p, cs) && n in sh && n != c && n != p && sh[n].depth > 0
    requires ChildrenIn(sh) && ChildrenIn(Lopped(sh, c, p, cs)) && Exact(sh, n) && sh[n].children != []
    ensures n in Lopped(sh, c, p, cs) && Exact(Lopped(sh, c, p, cs), n) && Lopped(sh, c, p, cs)[n] == sh[n]
  {
    LoppedDiffers(sh, c, p, cs);
    assert NodeOk(sh, par, n);
    LoppedExact(sh, Lopped(sh, c, p, cs), c, p, n);
  }

  lemma ObjectOffPath(sh: Shape, par: Parents, root: RectNode, path: seq<RectNode>, e: RectNode, sh': Shape,
                      par': Parents)
    requires OnPath(sh, par, root, path, |path|) && e in sh && sh[e].depth == 0 && root in sh' &&
             sh'[root].depth == sh[root].depth
    requires forall n :: n in sh && n != e ==> n in sh' && sh'[n].depth == sh[n].depth
    requires forall n :: n in par && n != e ==> n in par' && par'[n] == par[n]
    ensures OnPath(sh', par', root, path, |path|)
  {
  }

  lemma LoppedExact(sh: Shape, sh': Shape, c: RectNode, p: RectNode, n: RectNode)
    requires n in sh && n != c && n != p && Exact.requires(sh, n) && Exact(sh, n) && c !in sh[n].children
    requires p in sh && p in sh' && sh'[p].box == sh[p].box
    requires forall m :: m in sh && m != c && m != p ==> m in sh' && sh'[m] == sh[m]
    ensures n in sh' && (forall x :: x in sh'[n].children ==> x in sh') && Exact(sh', n)
  {
    KeepExact(sh, sh', n);
  }

  // An emptied node is taken out of its parent.
  lemma NodeLopped(sh: Shape, par: Parents, root: RectNode, path: seq<RectNode>, k: nat, cs: seq<RectNode>,
                   maxElem: nat)
    requires 0 < k < |path| && Loose(sh, par, root, path, k + 1, maxElem) && sh[path[k]].children == []
    requires Lopping(sh, par, root, path[k], path[k - 1], cs)
    ensures Loose(Lopped(sh, path[k], path[k - 1], cs), par - {path[k]}, root, path, k, maxElem)
  {
    hide Lopped, BoxesFit;
    var c, p := path[k], path[k - 1];
    var sh', par' := Lopped(sh, c, p, cs), par - {c};
    LoppedTree(sh, par, root, c, p, cs);
    LoppedDiffers(sh, c, p, cs);
    LoppedFits(sh, par, root, c, p, cs, maxElem);
    TreeChildrenIn(sh', par', root);
    PathStays(sh, par, root, path, k, sh', par');
    forall n | n in sh' && sh'[n].depth > 0 && n !in path[..k] ensures Exact(sh', n) && sh'[n].children != [] {
      PrefixOfPath(path, k, n);
      assert n != c && n != p && Exact(sh, n);
      LoppedElsewhere(sh, par, root, c, p, cs, n);
    }
  }

  lemma PathStays(sh: Shape, par: Parents, root: RectNode, path: seq<RectNode>, k: nat, sh': Shape, par': Parents)
    requires k < |path| && OnPath(sh, par, root, path, k + 1)
    requires root in sh && root in sh' && sh'[root].depth == sh[root].depth
    requires forall n :: n in sh && n != path[k] ==> n in sh' && sh'[n].depth == sh[n].depth
    requires forall n :: n in par && n != path[k] ==> n in par' && par'[n] == par[n]
    ensures OnPath(sh', par', root, path, k)
  {
    forall j | 0 <= j < k ensures path[j] != path[k] { assert sh[path[j]].depth > sh[path[k]].depth; }
  }

  // Only its parent on the path has path[k] among its children.
  lemma PathOnly(sh: Shape, par: Parents, root: RectNode, path: seq<RectNode>, k: nat, n: RectNode)
    requires Tree(sh, par, root) && 0 < k < |path| && OnPath(sh, par, root, path, k + 1) && n in sh && n !in path[..k]
    ensures n != path[k - 1] && path[k] !in sh[n].children
  {
    assert path[k - 1] in path[..k];
    assert NodeOk(sh, par, n);
  }

  lemma OnPathIn(sh: Shape, par: Parents, root: RectNode, path: seq<RectNode>, k: nat)
    requires k < |path| && OnPath(sh, par, root, path, k + 1)
    ensures path[k] in sh && sh[path[k]].depth > 0
  {
  }

  // A node with children gets the box around them.
  lemma NodeTidied(sh: Shape, par: Parents, root: RectNode, path: seq<RectNode>, k: nat, maxElem: nat)
    requires k < |path| && Loose(sh, par, root, path, k + 1, maxElem) && sh[path[k]].children != []
    ensures Loose(WithBox(sh, path[k], Union(sh, sh[path[k]].children)), par, root, path, k, maxElem)
  {
    hide OnPath, Union;
    OnPathIn(sh, par, root, path, k);
    var c := path[k];
    var sh' := WithBox(sh, c, Union(sh, sh[c].children));
    BoxKeepsTree(sh, par, root, c, Union(sh, sh[c].children));
    TreeChildrenIn(sh', par, root);
    UnionCovers(sh, sh[c].children);
    PathStays(sh, par, root, path, k, sh', par);
    forall n | n in sh' && sh'[n].depth > 0 && n !in path[..k] ensures Exact(sh', n) && sh'[n].children != [] {
      TidiedNode(sh, par, root, path, k, maxElem, sh', n);
    }
  }

  lemma TidiedNode(sh: Shape, par: Parents, root: RectNode, path: seq<RectNode>, k: nat, maxElem: nat, sh': Shape,
                   n: RectNode)
    requires k < |path| && Loose(sh, par, root, path, k + 1, maxElem) && sh[path[k]].children != []
    requires sh' == WithBox(sh, path[k], Union(sh, sh[path[k]].children)) && ChildrenIn(sh')
    requires n in sh && sh[n].depth > 0 && n !in path[..k]
    ensures sh'[n].children != [] && Exact(sh', n)
  {
    var c := path[k];
    PrefixOfPath(path, k, n);
    assert NodeOk(sh, par, n);
    if n == c {
      UnionSame(sh, sh', sh[c].children);
    } else {
      if k > 0 { PathOnly(sh, par, root, path, k, n); }
      assert Exact(sh, n);
      KeepExact(sh, sh', n);
    }
  }

  lemma BoxIndexed(sh: Shape, n: RectNode, b: Box, objs: map<int, RectNode>, view: map<int, Box>)
    requires n in sh && sh[n].depth > 0 && Indexed(sh, objs, view)
    ensures Indexed(WithBox(sh, n, b), objs, view) && WithBox(sh, n, b).Keys == sh.Keys
  {
  }

  lemma AllTidied(sh: Shape, par: Parents, root: RectNode, path: seq<RectNode>, maxElem: nat)
    requires Loose(sh, par, root, path, 0, maxElem)
    ensures Boxed(sh, par, root) && Filled(sh, root, maxElem)
  {
    forall n | n in sh && sh[n].depth > 0 ensures NodeOk(sh, par, n) && Exact(sh, n) { assert n !in path[..0]; }
    forall n | n in sh && sh[n].depth > 0 ensures sh[n].children != [] { assert n !in path[..0]; }
  }

  // Under a root without children there is nothing.
  lemma LoneRoot(sh: Shape, par: Parents, root: RectNode, n: RectNode)
    requires Tree(sh, par, root) && sh[root].children == [] && n in sh
    ensures n == root
  {
    if n != root {
      AllUnderRoot(sh, par, root, n);
      UnderChild(sh, par, root, n, root);
    }
  }

  // The index without a removed object, and after the removal of a node that is none.
  lemma ObjectUnindexed(sh: Shape, par: Parents, root: RectNode, e: RectNode, p: RectNode, cs: seq<RectNode>,
                        objs: map<int, RectNode>, view: map<int, Box>)
    requires Lopping(sh, par, root, e, p, cs) && sh[e].depth == 0 && Indexed(sh, objs, view)
    ensures Indexed(Lopped(sh, e, p, cs), objs - {sh[e].id}, view - {sh[e].id})
  {
    LoppedDiffers(sh, e, p, cs);
    assert NodeOk(sh, par, p);
  }

  lemma NodeUnindexed(sh: Shape, par: Parents, root: RectNode, n: RectNode, p: RectNode, cs: seq<RectNode>,
                      objs: map<int, RectNode>, view: map<int, Box>)
    requires Lopping(sh, par, root, n, p, cs) && sh[n].depth > 0 && Indexed(sh, objs, view)
    ensures Indexed(Lopped(sh, n, p, cs), objs, view)
  {
    LoppedDiffers(sh, n, p, cs);
    assert NodeOk(sh, par, p);
  }

  // An object leaves: everything at once.
  lemma ObjectLeaves(sh: Shape, par: Parents, root: RectNode, path: seq<RectNode>, e: RectNode, k: nat,
                     objs: map<int, RectNode>, view: map<int, Box>, maxElem: nat)
    requires Tree(sh, par, root) && Boxed(sh, par, root) && Filled(sh, root, maxElem) && path != [] &&
             OnPath(sh, par, root, path, |path|)
    requires path[|path| - 1] in sh && k < |sh[path[|path| - 1]].children| && sh[path[|path| - 1]].children[k] == e
    requires e in sh && sh[e].depth == 0 && sh[e].id !in objs && Indexed(sh, objs[sh[e].id := e], view)
    ensures var p := path[|path| - 1]; var cs := SwapRemoved(sh[p].children, k);
            && p != e && Loose(Lopped(sh, e, p, cs), par - {e}, root, path, |path|, maxElem)
            && Indexed(Lopped(sh, e, p, cs), objs, view - {sh[e].id}) && Lopped(sh, e, p, cs).Keys == sh.Keys - {e}
  {
    hide Boxed, Filled, OnPath, Loose, Lopped;
    var p := path[|path| - 1];
    assert NodeOk(sh, par, p) && NodeOk(sh, par, e) && e in sh[p].children;
    SwapRemovedHas(sh[p].children, k);
    assert Lopping(sh, par, root, e, p, SwapRemoved(sh[p].children, k));
    LoppedDiffers(sh, e, p, SwapRemoved(sh[p].children, k));
    ObjectLopped(sh, par, root, path, e, SwapRemoved(sh[p].children, k), maxElem);
    ObjectUnindexed(sh, par, root, e, p, SwapRemoved(sh[p].children, k), objs[sh[e].id := e], view);
    assert objs[sh[e].id := e] - {sh[e].id} == objs;
  }

  // An emptied node leaves: everything at once.
  lemma NodeLeaves(sh: Shape, par: Parents, root: RectNode, path: seq<RectNode>, k: nat, at: nat,
                   objs: map<int, RectNode>, view: map<int, Box>, maxElem: nat)
    requires 0 < k < |path| && Loose(sh, par, root, path, k + 1, maxElem) && Indexed(sh, objs, view)
    requires path[k] in sh && path[k - 1] in sh && sh[path[k]].children == []
    requires at < |sh[path[k - 1]].children| && sh[path[k - 1]].children[at] == path[k]
    ensures var p, n := path[k - 1], path[k]; var cs := SwapRemoved(sh[p].children, at);
            && p != n && Loose(Lopped(sh, n, p, cs), par - {n}, root, path, k, maxElem)
            && Indexed(Lopped(sh, n, p, cs), objs, view) && Lopped(sh, n, p, cs).Keys == sh.Keys - {n}
  {
    var p, n := path[k - 1], path[k];
    assert NodeOk(sh, par, p) && NodeOk(sh, par, n) && n in sh[p].children;
    SwapRemovedHas(sh[p].children, at);
    assert Lopping(sh, par, root, n, p, SwapRemoved(sh[p].children, at));
    NodeLopped(sh, par, root, path, k, SwapRemoved(sh[p].children, at), maxElem);
    NodeUnindexed(sh, par, root, n, p, SwapRemoved(sh[p].children, at), objs, view);
  }

  lemma LoosePath(sh: Shape, par: Parents, root: RectNode, path: seq<RectNode>, k: nat, maxElem: nat)
    requires k < |path| && Loose(sh, par, root, path, k + 1, maxElem)
    ensures path[k] in sh && sh[path[k]].depth > 0 &&
            (forall c :: c in sh[path[k]].children ==> c in sh && c != path[k])
    ensures path[0] == root &&
            (k > 0 ==> path[k - 1] in sh && path[k] in sh[path[k - 1]].children && path[k - 1] != path[k])
  {
    assert NodeOk(sh, par, path[k]);
    if k > 0 { assert NodeOk(sh, par, path[k - 1]) && par[path[k]] == path[k - 1]; }
  }

  // When the root has lost its last child there is no object left.
  lemma NothingLeft(sh: Shape, par: Parents, root: RectNode, objs: map<int, RectNode>, view: map<int, Box>)
    requires Tree(sh, par, root) && sh[root].children == [] && Indexed(sh, objs, view)
    ensures objs == map[] && view == map[]
  {
    forall id | id in objs ensures false {
      LoneRoot(sh, par, root, objs[id]);
    }
    assert objs.Keys == {};
  }
}
