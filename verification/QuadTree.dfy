// The quadtree.
module QuadTrees {
  import opened Geometry
  import opened QuadEnds
  import opened QuadQuery
  import opened QuadShape
  import opened Sequences
  import opened SpatialIndex

  class QuadNode {
    var box: Box
    var objs: seq<Obj>
    var kids: seq<QuadNode>
    ghost var tree: Quad
    ghost var repr: set<QuadNode>

    ghost predicate Valid()
      reads this, repr
      ensures Valid() ==> this in repr && tree.box == box
      decreases repr, 1
    {
      && this in repr && tree.box == box
      && (kids == [] ==> tree == Leaf(box, objs) && repr == {this})
      && (kids != [] ==> objs == [] && |kids| == 4 && tree.Inner? && |tree.kids| == 4 && KidsIn() && KidsValid())
    }

    // The four subtrees are apart from each other and from this node.
    ghost predicate KidsIn()
      reads this, repr
    {
      && |kids| == 4
      && (forall i :: 0 <= i < 4 ==> kids[i] in repr)
      && (forall i :: 0 <= i < 4 ==> kids[i].repr <= repr - {this})
      && (forall i, j :: 0 <= i < j < 4 ==> kids[i].repr !! kids[j].repr)
    }

    ghost predicate KidsValid()
      requires KidsIn() && tree.Inner? && |tree.kids| == 4
      reads this, repr
      decreases repr, 0
    {
      forall i :: 0 <= i < 4 ==> kids[i].repr < repr && kids[i].Valid() && kids[i].tree == tree.kids[i]
    }

    constructor (b: Box)
      ensures Valid() && tree == Leaf(b, []) && repr == {this} && kids == []
    {
      box, objs, kids := b, [], [];
      tree := Leaf(b, []);
      repr := {this};
    }

    predicate IsLeaf()
      reads this
    {
      kids == []
    }

    // Takes the object at position k if it meets the leaf's box.
    method TakeIf(flag: bool, all: seq<Obj>, k: nat)
      requires k < |all| && Holding(box, Selected(all[..k], box)) && flag == Intersect(box, all[k].box)
      modifies this
      ensures Holding(old(box), Selected(all[..k + 1], old(box)))
    {
      assert all[..k + 1][..k] == all[..k];
      if flag { Take(all[k]); }
    }

    // Which quadrants a box meets.
    method QuadrantFlags(b: Box) returns (flag: seq<bool>)
      ensures |flag| == 4 && forall i :: 0 <= i < 4 ==> flag[i] == Intersect(Quadrant(box, i), b)
    {
      flag := [];
      var i := 0;
      while i < 4
        invariant i <= 4 && |flag| == i && forall j :: 0 <= j < i ==> flag[j] == Intersect(Quadrant(box, j), b)
      {
        flag := flag + [Intersect(Quadrant(box, i), b)];
        i := i + 1;
      }
    }

    // A leaf with these objects.
    ghost predicate Holding(b: Box, os: seq<Obj>)
      reads this
    {
      kids == [] && box == b && objs == os && tree == Leaf(b, os) && repr == {this}
    }

    method Take(o: Obj)
      requires Holding(box, objs)
      modifies this
      ensures Holding(old(box), old(objs) + [o])
    {
      objs := objs + [o];
      tree := Leaf(box, objs);
    }

    // A leaf gets four leaves below it; each takes the objects that meet its box.
    method Split()
      requires Valid()
      modifies this
      ensures !old(IsLeaf()) ==> unchanged(this)
      ensures old(IsLeaf()) ==>
        Valid() && box == old(box) && fresh(repr - {this}) && tree == Inner(box, Divided(box, old(objs)))
    {
      if !IsLeaf() { return; }
      var ks := Share();
      Adopt(ks);
    }

    method Share() returns (ks: seq<QuadNode>)
      requires Valid()
      ensures Shared(ks, box, objs) && fresh(ks)
    {
      ks := FourLeaves(box);
      var k := 0;
      while k < |objs|
        modifies ks
        invariant k <= |objs| && Shared(ks, box, objs[..k])
      {
        Distribute(ks, objs, k);
        k := k + 1;
      }
      assert objs[..k] == objs;
    }

    method Adopt(ks: seq<QuadNode>)
      requires Valid() && IsLeaf() && Shared(ks, box, objs) && this !in ks
      modifies this
      ensures Valid() && box == old(box) && kids == ks && repr == {this} + set n | n in ks
      ensures tree == Inner(box, Divided(box, old(objs)))
    {
      ghost var all, b := objs, box;
      kids, objs := ks, [];
      repr := {this} + set n | n in ks;
      forall i | 0 <= i < 4 ensures ks[i].Holding(Quadrant(b, i), Selected(all, Quadrant(b, i))) {
        assert old(ks[i].Holding(Quadrant(b, i), Selected(all, Quadrant(b, i))));
      }
      tree := Inner(b, Divided(b, all));
      assert forall i :: 0 <= i < 4 ==> ks[i].Valid() && ks[i].repr == {ks[i]} && ks[i] in repr;
    }

    // Hands one object to the leaves whose boxes it meets.
    method Distribute(ks: seq<QuadNode>, all: seq<Obj>, k: nat)
      requires k < |all| && Shared(ks, box, all[..k]) && this !in ks
      modifies ks
      ensures Shared(ks, box, all[..k + 1])
    {
      var flag := QuadrantFlags(all[k].box);
      var i := 0;
      while i < 4
        invariant i <= 4
        invariant forall j :: 0 <= j < i ==> ks[j].Holding(Quadrant(box, j), Selected(all[..k + 1], Quadrant(box, j)))
        invariant forall j :: i <= j < 4 ==> ks[j].Holding(Quadrant(box, j), Selected(all[..k], Quadrant(box, j)))
      {
        ks[i].TakeIf(flag[i], all, k);
        i := i + 1;
      }
    }

    // Puts an object into every leaf it meets. Full leaves are split on the way.
    method AddObj(o: Obj, maxElem: nat, ghost live: Live, ghost root: Box, ghost top: bool) returns (ghost depth: nat)
      requires Valid() && Holds(tree, live, maxElem, top) && o.id !in live && (top || Intersect(box, o.box))
      requires Contain(root, box) && Sparse(live[o.id := o.box], root, maxElem) && Splittable(tree, maxElem)
      modifies repr
      ensures Valid() && box == old(box) && Added(old(tree), o, maxElem, depth) == Done(tree)
      ensures fresh(repr - old(repr)) && old(repr) <= repr
      decreases Girth(box), top, IsLeaf(), 2
    {
      if IsLeaf() {
        if |objs| < maxElem {
          objs := objs + [o];
          tree := Leaf(box, objs);
          depth := 1;
        } else {
          if !top { FullIsNotTiny(box, objs, live, o, root, maxElem); }
          SplitHolds(box, objs, live, maxElem, top);
          Split();
          depth := AddObj(o, maxElem, live, root, top);
          depth := depth + 1;
        }
      } else {
        depth := AddBelow(o, maxElem, live, root, top);
      }
    }

    method AddBelow(o: Obj, maxElem: nat, ghost live: Live, ghost root: Box, ghost top: bool) returns (ghost depth: nat)
      requires Valid() && Holds(tree, live, maxElem, top) && o.id !in live && !IsLeaf()
      requires Contain(root, box) && Sparse(live[o.id := o.box], root, maxElem)
      modifies repr
      ensures Valid() && box == old(box) && Added(old(tree), o, maxElem, depth) == Done(tree)
      ensures fresh(repr - old(repr)) && old(repr) <= repr
      decreases Girth(box), top, false, 1
    {
      var flag := QuadrantFlags(o.box);
      ghost var t0 := tree;
      depth := 0;
      var i := 0;
      while i < 4
        invariant i <= 4 && Valid() && !IsLeaf() && box == old(box)
        invariant AddedUpTo(t0, tree, o, maxElem, i, depth)
        invariant fresh(repr - old(repr)) && old(repr) <= repr
      {
        if flag[i] {
          depth := AddToKid(i, o, maxElem, live, root, top, t0, depth);
        } else {
          assert t0.kids[i := t0.kids[i]] == t0.kids;
          assert tree == Inner(box, tree.kids[i := t0.kids[i]]);
          depth := NextAdded(t0, tree, o, maxElem, i, depth, t0.kids[i], depth);
        }
        i := i + 1;
      }
      AllAdded(t0, tree, o, maxElem, depth);
      depth := depth + 1;
    }

    // What happens in one subtree leaves the others alone.
    twostate lemma OthersKept(i: nat)
      requires old(Valid()) && i < 4 && old(kids) != []
      requires forall n :: n in old(repr) && n !in old(kids[i].repr) ==> unchanged(n)
      ensures kids == old(kids) && forall j :: 0 <= j < 4 && j != i ==>
        kids[j].Valid() && kids[j].repr == old(kids[j].repr) && kids[j].tree == old(kids[j].tree)
    {
      forall j | 0 <= j < 4 && j != i
        ensures kids[j].Valid() && kids[j].repr == old(kids[j].repr) && kids[j].tree == old(kids[j].tree)
      {
        assert old(kids[j].Valid()) && old(kids[j].repr) !! old(kids[i].repr);
      }
    }

    // A subtree has changed and may have got new nodes.
    method Refit(i: nat, ghost others: set<QuadNode>)
      requires i < 4 && |kids| == 4 && objs == [] && tree.Inner? && |tree.kids| == 4 && tree.box == box
      requires this !in others && kids[i].Valid() && this !in kids[i].repr && others !! kids[i].repr
      requires forall j :: 0 <= j < 4 && j != i ==>
        kids[j].Valid() && kids[j].repr <= others && kids[j].tree == tree.kids[j]
      requires forall j, k :: 0 <= j < k < 4 && j != i && k != i ==> kids[j].repr !! kids[k].repr
      modifies this`tree, this`repr
      ensures Valid() && repr == {this} + others + kids[i].repr && tree == Inner(box, old(tree).kids[i := kids[i].tree])
    {
      repr := {this} + others + kids[i].repr;
      tree := Inner(box, tree.kids[i := kids[i].tree]);
    }

    method AddToKid(i: nat, o: Obj, maxElem: nat, ghost live: Live, ghost root: Box, ghost top: bool, ghost t0: Quad,
                    ghost d: nat)
      returns (ghost depth: nat)
      requires Valid() && !IsLeaf() && i < 4 && o.id !in live && Intersect(Quadrant(box, i), o.box)
      requires Holds(t0, live, maxElem, top) && AddedUpTo(t0, tree, o, maxElem, i, d)
      requires Contain(root, box) && Sparse(live[o.id := o.box], root, maxElem)
      modifies repr
      ensures Valid() && !IsLeaf() && box == old(box) && AddedUpTo(t0, tree, o, maxElem, i + 1, depth)
      ensures fresh(repr - old(repr)) && old(repr) <= repr
      decreases Girth(box), top, false, 0
    {
      QuadrantSmaller(box, i);
      ghost var others := repr - {this} - kids[i].repr;
      depth := kids[i].AddObj(o, maxElem, live, root, false);
      OthersKept(i);
      Refit(i, others);
      depth := NextAdded(t0, old(tree), o, maxElem, i, d, kids[i].tree, depth);
    }

    // Takes an object out of every leaf that holds it. Tells whether a leaf has become empty; its parent
    // then tries to merge.
    method RemoveObj(o: Obj, ghost maxElem: nat, ghost live: Live, ghost top: bool) returns (emptied: bool)
      requires Valid() && Holds(tree, live, maxElem, top) && AllSound(live)
      requires o.id in live && live[o.id] == o.box && (top || Intersect(box, o.box))
      modifies repr
      ensures Valid() && box == old(box) && Holds(tree, live - {o.id}, maxElem, top) && repr <= old(repr)
      ensures emptied == (old(IsLeaf()) && objs == [])
      decreases Girth(box), top, 2
    {
      if IsLeaf() {
        DropFromLeaf(o, maxElem, live, top);
        emptied := objs == [];
      } else {
        RemoveBelow(o, maxElem, live, top);
        emptied := false;
      }
    }

    method DropFromLeaf(o: Obj, ghost maxElem: nat, ghost live: Live, ghost top: bool)
      requires Valid() && IsLeaf() && LeafHolds(box, objs, live, maxElem, top) && o.id in live
      modifies this
      ensures Valid() && IsLeaf() && box == old(box) && repr == old(repr) &&
              LeafHolds(box, objs, live - {o.id}, maxElem, top)
    {
      ghost var all := objs;
      var i := 0;
      while i < |objs| && objs[i].id != o.id
        invariant i <= |objs| && forall j :: 0 <= j < i ==> objs[j].id != o.id
      {
        i := i + 1;
      }
      if i < |objs| {
        objs := SwapRemoved(objs, i);
        SwapRemovedIds(all, i);
      }
      tree := Leaf(box, objs);
      LeafLoses(box, all, objs, live, o, maxElem, top);
    }

    lemma LeafIsLeaf()
      requires Valid()
      ensures (IsLeaf() <==> tree.Leaf?) && (IsLeaf() ==> tree.objs == objs)
    {
    }

    lemma KidFacts(i: nat)
      requires Valid() && !IsLeaf() && i < 4
      ensures tree.Inner? && |tree.kids| == |kids| == 4
      ensures kids[i].Valid() && kids[i].tree == tree.kids[i] && kids[i] in repr && kids[i].repr <= repr
    {
    }

    // Four empty leaves are dropped.
    method TryMerge()
      requires Valid()
      modifies this
      ensures Valid() && box == old(box)
      ensures if !old(IsLeaf()) && AllEmpty(old(tree)) then tree == Leaf(box, []) && repr == {this} else unchanged(this)
    {
      if IsLeaf() { return; }
      var empty := NothingBelow();
      if empty {
        kids := [];
        tree, repr := Leaf(box, []), {this};
      }
    }

    // Whether all four subtrees are leaves and hold no objects between them.
    method NothingBelow() returns (empty: bool)
      requires Valid() && !IsLeaf()
      ensures empty <==> AllEmpty(tree)
    {
      var count, i := 0, 0;
      while i < 4
        invariant 0 <= i <= 4 && count >= 0
        invariant forall j :: 0 <= j < i ==> tree.kids[j].Leaf?
        invariant count == 0 <==> forall j :: 0 <= j < i ==> tree.kids[j].objs == []
      {
        kids[i].LeafIsLeaf();
        if !kids[i].IsLeaf() {
          assert tree.kids[i] in tree.kids;
          return false;
        }
        count := count + |kids[i].objs|;
        i := i + 1;
      }
      assert forall j :: 0 <= j < 4 ==> tree.kids[j] in tree.kids;
      return count == 0;
    }

    method RemoveBelow(o: Obj, ghost maxElem: nat, ghost live: Live, ghost top: bool)
      requires Valid() && Holds(tree, live, maxElem, top) && AllSound(live) && !IsLeaf()
      requires o.id in live && live[o.id] == o.box
      modifies repr
      ensures Valid() && box == old(box) && Holds(tree, live - {o.id}, maxElem, top) && repr <= old(repr)
      decreases Girth(box), top, 1
    {
      var flag := QuadrantFlags(o.box);
      ghost var after := live - {o.id};
      var i := 0;
      while i < 4
        invariant i <= 4 && Valid() && box == old(box) && Spans32(box) && (top || !Tiny(box)) &&
                  repr <= old(repr)
        invariant IsLeaf() ==> Holds(tree, after, maxElem, top) && forall j :: i <= j < 4 ==> !flag[j]
        invariant !IsLeaf() ==> Mixed(tree, live, after, maxElem, i)
      {
        if flag[i] {
          RemoveFromKid(i, o, maxElem, live, top);
        } else if !IsLeaf() {
          HoldsStill(tree.kids[i], live, after, o.id, maxElem);
        }
        i := i + 1;
      }
    }

    method RemoveFromKid(i: nat, o: Obj, ghost maxElem: nat, ghost live: Live, ghost top: bool)
      requires Valid() && !IsLeaf() && i < 4 && Spans32(box) && (top || !Tiny(box)) && AllSound(live)
      requires Mixed(tree, live, live - {o.id}, maxElem, i) && Intersect(Quadrant(box, i), o.box) && o.id in live &&
               live[o.id] == o.box
      modifies repr
      ensures Valid() && box == old(box) && repr <= old(repr)
      ensures IsLeaf() ==> Holds(tree, live - {o.id}, maxElem, top)
      ensures IsLeaf() ==> forall j :: i < j < 4 ==> !Intersect(Quadrant(box, j), o.box)
      ensures !IsLeaf() ==> Mixed(tree, live, live - {o.id}, maxElem, i + 1)
      decreases Girth(box), top, 0
    {
      hide Holds;
      QuadrantSmaller(box, i);
      ghost var others := repr - {this} - kids[i].repr;
      var emptied := kids[i].RemoveObj(o, maxElem, live, false);
      OthersKept(i);
      Refit(i, others);
      if emptied {
        if AllEmpty(tree) { MergeHolds(tree, live, o, maxElem, top, i + 1); }
        TryMerge();
      }
    }
  }

  // Four leaves that share objects of one box.
  ghost predicate Shared(ks: seq<QuadNode>, b: Box, os: seq<Obj>)
    reads ks
  {
    |ks| == 4 && NoDup(ks) && forall i :: 0 <= i < 4 ==> ks[i].Holding(Quadrant(b, i), Selected(os, Quadrant(b, i)))
  }

  method FourLeaves(b: Box) returns (ks: seq<QuadNode>)
    ensures Shared(ks, b, []) && fresh(ks)
  {
    var k0 := new QuadNode(Quadrant(b, 0));
    var k1 := new QuadNode(Quadrant(b, 1));
    var k2 := new QuadNode(Quadrant(b, 2));
    var k3 := new QuadNode(Quadrant(b, 3));
    ks := [k0, k1, k2, k3];
  }

  class QuadTree {
    var maxElem: nat
    var root: QuadNode
    var objs: map<int, Obj>
    var cache: seq<QuadNode>
    ghost var view: Live

    ghost predicate Valid()
      reads this, root, root.repr
    {
      && maxElem >= 4 && root.Valid() && Holds(root.tree, view, maxElem, true) && AllSound(view)
      && objs.Keys == view.Keys && forall id :: id in objs ==> id > 0 && objs[id] == Obj(id, view[id])
    }

    constructor (box: Box, maxElem: nat)
      requires Sound(box)
      ensures Valid() && view == map[] && cache == [] && root.box == box && fresh(root) && fresh(root.repr)
      ensures this.maxElem == if maxElem < 4 then 4 else maxElem
    {
      this.maxElem := if maxElem < 4 then 4 else maxElem;
      root := new QuadNode(box);
      objs, cache, view := map[], [], map[];
    }

    // Inserts an object; one with the same id goes first. It takes that no tiny box then meets more
    // objects than a leaf takes; and that the root box can be halved, unless there is no need to.
    method Insert(id: int, box: Box) returns (ok: bool)
      requires Valid() && Sound(box) && (id > 0 ==> Manageable(view[id := box], root.box, maxElem))
      modifies this`objs, this`view, root.repr
      ensures Valid() && ok == (id > 0) && view == if id > 0 then old(view)[id := box] else old(view)
      ensures root.box == old(root.box) && fresh(root.repr - old(root.repr))
    {
      hide Manageable, Holds;
      if id <= 0 { return false; }
      if id in objs { RemoveLive(id); }
      assert old(view)[id := box] == view[id := box];
      InsertNew(id, box);
      return true;
    }

    method InsertNew(id: int, box: Box)
      requires Valid() && Sound(box) && id > 0 && id !in objs && Manageable(view[id := box], root.box, maxElem)
      modifies this`objs, this`view, root.repr
      ensures Valid() && view == old(view)[id := box]
      ensures root.box == old(root.box) && fresh(root.repr - old(root.repr))
    {
      hide Manageable, Splittable, Sparse, Holds;
      var o := Obj(id, box);
      ghost var t0 := root.tree;
      RootSplittable(id, box);
      ghost var depth := root.AddObj(o, maxElem, view, root.box, true);
      AddedHolds(t0, view, o, maxElem, true, depth);
      objs := objs[id := o];
      view := view[id := box];
    }

    lemma RootSplittable(id: int, box: Box)
      requires Valid() && id !in view && Manageable(view[id := box], root.box, maxElem)
      ensures Splittable(root.tree, maxElem) && Sparse(view[id := box], root.box, maxElem)
    {
      ManageableIsSparse(view[id := box], root.box, maxElem);
      if !Spans32(root.box) {
        var objs := root.tree.objs;
        IdCount(objs);
        Subset(IdSet(objs), view.Keys);
        assert view[id := box].Keys == view.Keys + {id} && |view[id := box]| == |view[id := box].Keys|;
        assert |view| == |view.Keys|;
      }
    }

    // Removes the object with the id, if there is one.
    method Remove(id: int) returns (ok: bool)
      requires Valid()
      modifies this`objs, this`view, root.repr
      ensures Valid() && ok == (id > 0) && view == if id > 0 then old(view) - {id} else old(view)
      ensures root.box == old(root.box) && root.repr <= old(root.repr)
    {
      if id <= 0 { return false; }
      if id in objs { RemoveLive(id); } else { assert view - {id} == view; }
      return true;
    }

    method RemoveLive(id: int)
      requires Valid() && id in objs
      modifies this`objs, this`view, root.repr
      ensures Valid() && view == old(view) - {id} && id !in objs && root.box == old(root.box) &&
              root.repr <= old(root.repr)
    {
      var emptied := root.RemoveObj(objs[id], maxElem, view, true);
      objs := objs - {id};
      view := view - {id};
    }

    // The subtrees of some nodes, all of them in the tree.
    ghost predicate Shows(ns: seq<QuadNode>, ts: seq<Quad>)
      reads this`root, root, root.repr
    {
      |ns| == |ts| && forall i :: 0 <= i < |ns| ==>
        ns[i] in root.repr && ns[i].repr <= root.repr && ns[i].Valid() && ns[i].tree == ts[i]
    }

    // Nodes an earlier search has left on the worklist are still in the tree.
    ghost predicate CacheInTree()
      reads this, root, root.repr
    {
      forall n :: n in cache ==>
        n in root.repr && n.repr <= root.repr && n.Valid() && Holds(n.tree, view, maxElem, true)
    }

    // The live objects that meet the box and pass the test, each once. With a limit the search may stop
    // early, and then leaves its worklist behind for the next one.
    method Collide(box: Box, limit: nat, check: Check) returns (result: seq<Obj>)
      requires Valid() && Sound(box) && CacheInTree()
      modifies this`cache
      ensures Valid() && CacheInTree() && Found(view, Query(box, check, limit, root.box), result) &&
              (limit > 0 ==> |result| <= limit)
      ensures !Intersect(box, root.box) ==> result == [] && cache == old(cache)
      ensures Intersect(box, root.box) && (limit == 0 || |result| < limit) ==> cache == []
      ensures (limit == 0 || |result| < limit) && Intersect(box, root.box) ==>
        forall id :: id in view && Intersect(box, view[id]) && check(view[id]) && Intersect(root.box, view[id]) ==>
          Obj(id, view[id]) in result
    {
      hide Searching, Picked, Holds;
      result := [];
      var node := root;
      if !Intersect(box, root.box) { return; }
      ghost var q := Query(box, check, limit, root.box);
      var ids: set<int> := {};
      ghost var left := LeftOver();
      ghost var ts := left + [root.tree];
      SearchStarts(left, root.tree, view, maxElem, q);
      while true
        invariant Valid() && Shows(cache + [node], ts) && Searching(ts, view, maxElem, q, result) &&
                  ids == IdSet(result)
        invariant limit == 0 || |result| < limit
        decreases Weight(ts)
      {
        result, ids, ts := SearchNode(node, box, limit, check, result, ids, ts);
        if limit != 0 && |result| >= limit { return; }
        if cache == [] {
          SearchEnds(view, maxElem, q, result);
          return;
        }
        Unstack(ts);
        node := cache[|cache| - 1];
        cache := cache[..|cache| - 1];
      }
    }

    // The node to search next comes off the end of the worklist.
    lemma Unstack(ts: seq<Quad>)
      requires cache != [] && Shows(cache, ts)
      ensures Shows(cache[..|cache| - 1] + [cache[|cache| - 1]], ts) && cache[|cache| - 1].Valid()
    {
      assert cache[..|cache| - 1] + [cache[|cache| - 1]] == cache;
    }

    // Searches one node: its objects, and its children go on the worklist.
    method SearchNode(node: QuadNode, box: Box, limit: nat, check: Check, found: seq<Obj>, known: set<int>,
                      ghost ts: seq<Quad>)
      returns (result: seq<Obj>, ids: set<int>, ghost us: seq<Quad>)
      requires Valid() && Sound(box) && Intersect(box, root.box) && Shows(cache + [node], ts)
      requires Searching(ts, view, maxElem, Query(box, check, limit, root.box), found) && known == IdSet(found) &&
               (limit == 0 || |found| < limit)
      modifies this`cache
      ensures Valid() && Found(view, Query(box, check, limit, root.box), result) && ids == IdSet(result) &&
              (limit > 0 ==> |result| <= limit)
      ensures limit > 0 && |result| == limit ==> CacheInTree()
      ensures limit == 0 || |result| < limit ==>
        Shows(cache, us) && Searching(us, view, maxElem, Query(box, check, limit, root.box), result) &&
          Weight(us) < Weight(ts)
    {
      ghost var q := Query(box, check, limit, root.box);
      LastShown(node, ts);
      result, ids := ScanObjs(node, box, limit, check, found, known);
      us := ts;
      if limit != 0 && |result| >= limit {
        Left(ts, q, found);
        return;
      }
      Lighter(ts, box);
      TreeSearched(ts, view, maxElem, q, found, result);
      us := PushKids(node, box, ts);
    }

    lemma LeftOver() returns (ts: seq<Quad>)
      requires CacheInTree()
      ensures Shows(cache, ts) && forall i :: 0 <= i < |ts| ==> Holds(ts[i], view, maxElem, true)
    {
      ts := [];
      var i := 0;
      while i < |cache|
        invariant i <= |cache| && |ts| == i && forall j :: 0 <= j < i ==> ts[j] == cache[j].tree
      {
        assert cache[i] in cache;
        ts := ts + [cache[i].tree];
        i := i + 1;
      }
      assert forall j :: 0 <= j < |cache| ==> cache[j] in cache;
    }

    lemma Left(ts: seq<Quad>, q: Query, result: seq<Obj>)
      requires ts != [] && Shows(cache, ts[..|ts| - 1]) && Searching(ts, view, maxElem, q, result)
      ensures CacheInTree()
    {
      forall i | 0 <= i < |cache| ensures Holds(cache[i].tree, view, maxElem, true) {
        assert ts[..|ts| - 1][i] == ts[i];
      }
    }

    // Adds the matching objects of a node that are not among the results yet.
    method ScanObjs(node: QuadNode, box: Box, limit: nat, check: Check, found: seq<Obj>, known: set<int>)
      returns (result: seq<Obj>, ids: set<int>)
      requires Valid() && Found(view, Query(box, check, limit, root.box), found) && known == IdSet(found) &&
               (limit == 0 || |found| < limit)
      requires node.Valid() && Holds(node.tree, view, maxElem, true)
      ensures Found(view, Query(box, check, limit, root.box), result) && ids == IdSet(result)
      ensures (forall o :: o in found ==> o in result) && (limit > 0 ==> |result| <= limit)
      ensures limit == 0 || |result| < limit ==>
        forall o :: o in node.objs && Matches(Query(box, check, limit, root.box), o.box) ==> o in result
    {
      ghost var q := Query(box, check, limit, root.box);
      result, ids := found, known;
      node.LeafIsLeaf();
      var i := 0;
      while i < |node.objs|
        invariant i <= |node.objs| && Found(view, q, result) && ids == IdSet(result) && (limit == 0 || |result| < limit)
        invariant forall o :: o in found ==> o in result
        invariant forall o :: o in node.objs[..i] && Matches(q, o.box) ==> o in result
      {
        var o := node.objs[i];
        assert o in node.objs;
        assert node.objs[..i + 1] == node.objs[..i] + [o];
        if Intersect(o.box, box) && o.id !in ids {
          if check(o.box) {
            FoundMore(view, q, result, o);
            result := result + [o];
            ids := ids + {o.id};
            if limit != 0 && |result| >= limit { return; }
          }
        } else if o.id in ids {
          KnownFound(view, q, result, o);
        }
        i := i + 1;
      }
      assert node.objs[..i] == node.objs;
    }

    // The current node's tree is the last of the worklist's.
    lemma LastShown(node: QuadNode, ts: seq<Quad>)
      requires Shows(cache + [node], ts)
      ensures node.Valid() && node in root.repr && node.repr <= root.repr && node.tree == ts[|ts| - 1] &&
              Shows(cache, ts[..|ts| - 1])
      ensures (node.IsLeaf() <==> node.tree.Leaf?) && (node.IsLeaf() ==> node.tree.objs == node.objs)
      ensures !node.IsLeaf() ==> |node.tree.kids| == 4
    {
      assert (cache + [node])[|cache|] == node;
      assert forall i :: 0 <= i < |cache| ==> (cache + [node])[i] == cache[i];
      node.LeafIsLeaf();
      if !node.IsLeaf() { node.KidFacts(0); }
    }

    // Puts the children that meet the box on the worklist.
    method PushKids(node: QuadNode, box: Box, ghost ts: seq<Quad>) returns (ghost us: seq<Quad>)
      requires Valid() && Shows(cache + [node], ts)
      modifies this`cache
      ensures var t := ts[|ts| - 1];
              Valid() && us == ts[..|ts| - 1] + (if t.Inner? then Picked(t.kids, box) else []) && Shows(cache, us)
    {
      hide Picked;
      us := ts[..|ts| - 1];
      LastShown(node, ts);
      if node.IsLeaf() {
        assert us + [] == us;
        return;
      }
      var i := 0;
      ghost var kids := node.tree.kids;
      PickedNone(kids, box);
      assert us + [] == us;
      while i < 4
        invariant i <= 4 && Valid() && node.Valid() && !node.IsLeaf() && node.tree == ts[|ts| - 1] &&
                  node.repr <= root.repr && kids == node.tree.kids && |kids| == 4
        invariant Shows(cache, us) && us == ts[..|ts| - 1] + Picked(kids[..i], box)
      {
        PickedOn(kids, i, box);
        node.KidFacts(i);
        if Intersect(box, node.kids[i].box) {
          us := us + [kids[i]];
          cache := cache + [node.kids[i]];
        }
        i := i + 1;
      }
      assert kids[..4] == kids;
    }

    // Whether any object that meets the root box meets the box and passes the test. The worklist of a search
    // that stopped early stays behind.
    method IsCollide(box: Box, check: Check) returns (yes: bool)
      requires Valid() && Sound(box) && CacheInTree()
      modifies this`cache
      ensures Valid() && CacheInTree() && (yes ==> Intersect(box, root.box))
      ensures yes ==> exists id :: id in view && Intersect(box, view[id]) && check(view[id])
      ensures !yes && Intersect(box, root.box) ==> forall id :: id in view && Intersect(root.box, view[id]) ==>
        !(Intersect(box, view[id]) && check(view[id]))
    {
      var result := Collide(box, 1, check);
      yes := result != [];
      if yes { assert result[0] in result && result[0].id in view; }
    }

    // Starts afresh with an empty leaf.
    method Reset(box: Box, maxElem: nat)
      requires Sound(box)
      modifies this
      ensures Valid() && view == map[] && cache == [] && root.box == box && fresh(root) && fresh(root.repr)
      ensures this.maxElem == if maxElem < 4 then 4 else maxElem
    {
      this.maxElem := if maxElem < 4 then 4 else maxElem;
      root := new QuadNode(box);
      objs, cache, view := map[], [], map[];
    }

    // What an insertion takes is no more than what every tree there can be has.
    lemma OnlySparse()
      requires Valid()
      ensures Sparse(view, root.box, maxElem)
    {
      forall b | Sound(b) && Tiny(b) && Contain(root.box, b) ensures |Meeting(view, b)| <= maxElem {
        HoldsOnlySparse(root.tree, view, maxElem, true, b);
      }
    }
  }
}
