// The R-tree.
module RectTrees {
  import opened Geometry
  import opened RectEdit
  import opened RectGrow
  import opened RectMeasure
  import opened RectNodes
  import opened RectPrune
  import opened RectQuery
  import opened RectShape
  import opened RectSplit
  import opened RectWalk
  import opened Sequences
  import opened SpatialIndex

  // What is looked for: the query box, the further test, and how many answers are wanted (0 for all).
  datatype Query = Query(box: Box, check: Check, limit: nat)

  class RectTree {
    const maxElem: nat
    const minElem: nat
    var root: RectNode
    var objs: map<int, RectNode>
    ghost var shape: Shape
    ghost var par: Parents
    ghost var view: map<int, Box>

    // The ghost shape is that of the nodes.
    ghost predicate Shown()
      reads this`shape, shape.Keys
    {
      forall n :: n in shape ==> RecOf(n) == shape[n]
    }

    ghost predicate Elems() {
      maxElem >= 4 && minElem >= 2 && 2 * minElem <= maxElem
    }

    ghost predicate Valid()
      reads this, shape.Keys
    {
      && Elems()
      && Shown() && Tree(shape, par, root) && Boxed(shape, par, root) && Filled(shape, root, maxElem)
      && Indexed(shape, objs, view)
    }

    // Four tenths of the fan-out, rounded up, and at least two.
    constructor (maxElem: nat)
      ensures Valid() && view == map[] && shape.Keys == {root} && fresh(root)
      ensures this.maxElem == (if maxElem < 4 then 4 else maxElem)
      ensures minElem >= 2 && 5 * minElem >= 2 * maxElem && (minElem == 2 || 5 * (minElem - 1) < 2 * maxElem)
    {
      this.maxElem := if maxElem < 4 then 4 else maxElem;
      this.minElem := if (2 * maxElem + 4) / 5 < 2 then 2 else (2 * maxElem + 4) / 5;
      var r := new RectNode();
      r.depth := 1;
      r.box := EMPTY_BOX;
      root, objs, par, view := r, map[], map[], map[];
      shape := map[r := Rec([], true, 1, 0, EMPTY_BOX)];
    }

    // The part of Valid a search relies on.
    ghost predicate Searchable()
      reads this`shape, this`par, this`root, shape.Keys
    {
      Shown() && Tree(shape, par, root) && Boxed(shape, par, root)
    }

    // A search under way: children of the current node, the stack, and all subtrees still to search.
    ghost predicate Hunting(q: Query, ks: seq<RectNode>, stack: seq<RectNode>, w: set<RectNode>,
                            others: set<RectNode>, result: seq<RectNode>)
      reads this`shape, this`par, this`root
    {
      && Tree(shape, par, root) && Work(ks, stack, w) && w !! others
      && w + others <= shape.Keys
      && Searching(shape, par, root, q.box, q.check, w + others, result)
    }

    ghost predicate Wanting(q: Query, result: seq<RectNode>) {
      q.limit == 0 || |result| < q.limit
    }

    // Adds the objects of a leaf that pass the test; stops at the limit.
    method TakeObjects(node: RectNode, result: seq<RectNode>, q: Query, ghost stack: seq<RectNode>,
                       ghost w: set<RectNode>, ghost others: set<RectNode>)
      returns (r: seq<RectNode>, stopped: bool, ghost w': set<RectNode>)
      requires Searchable() && node in shape && shape[node].depth == 1 && Contain(q.box, shape[node].box)
      requires Hunting(q, [node], stack, w, others, result) && Wanting(q, result)
      ensures AllMatch(shape, q.box, q.check, r)
      ensures stopped ==> |r| == q.limit > 0
      ensures !stopped ==> Wanting(q, r) && Hunting(q, [], stack, w', others, r)
      ensures !stopped ==> w' <= w - {node} + set c | c in shape[node].children
    {
      OpenHunt(q, node, stack, w, others, result);
      w' := w - {node} + set c | c in shape[node].children;
      r, stopped, w' := TakeFrom(node, node.children, result, q, stack, w', others);
    }

    method TakeFrom(ghost node: RectNode, children: seq<RectNode>, result: seq<RectNode>, q: Query,
                    ghost stack: seq<RectNode>,
                    ghost w: set<RectNode>, ghost others: set<RectNode>)
      returns (r: seq<RectNode>, stopped: bool, ghost w': set<RectNode>)
      requires Searchable() && node in shape && shape[node].depth == 1 && Contain(q.box, shape[node].box)
      requires children == shape[node].children && Hunting(q, children, stack, w, others, result) && Wanting(q, result)
      ensures AllMatch(shape, q.box, q.check, r)
      ensures stopped ==> |r| == q.limit > 0
      ensures !stopped ==> Wanting(q, r) && Hunting(q, [], stack, w', others, r) && w' <= w
    {
      r, w' := result, w;
      var k := 0;
      assert children[0..] == children;
      while k < |children|
        invariant k <= |children| && Hunting(q, children[k..], stack, w', others, r) && Wanting(q, r) && w' <= w
      {
        var c := children[k];
        r := TakeObject(c, k, r, q, stack, w', others, node);
        w' := w' - {c};
        if q.limit != 0 && |r| >= q.limit { return r, true, w'; }
        k := k + 1;
      }
      assert children[k..] == [];
      return r, false, w';
    }

    method TakeObject(c: RectNode, ghost k: nat, result: seq<RectNode>, q: Query, ghost stack: seq<RectNode>,
                      ghost w: set<RectNode>, ghost others: set<RectNode>, ghost node: RectNode)
      returns (r: seq<RectNode>)
      requires Searchable() && node in shape && shape[node].depth == 1 && Contain(q.box, shape[node].box)
      requires k < |shape[node].children| && c == shape[node].children[k]
      requires Hunting(q, shape[node].children[k..], stack, w, others, result)
      ensures Hunting(q, shape[node].children[k + 1..], stack, w - {c}, others, r) && AllMatch(shape, q.box, q.check, r)
      ensures |r| <= |result| + 1
    {
      ghost var ks := shape[node].children[k..];
      assert ks[0] == c && ks[1..] == shape[node].children[k + 1..];
      ChildIsUnder(shape, par, root, node, c);
      if !q.check(c.box) {
        SkipHunt(q, ks, stack, w, others, result);
        return result;
      }
      TakeHunt(q, ks, stack, w, others, result, node);
      return result + [c];
    }

    lemma OpenHunt(q: Query, n: RectNode, stack: seq<RectNode>, w: set<RectNode>, others: set<RectNode>,
                   result: seq<RectNode>)
      requires Hunting(q, [n], stack, w, others, result) && n in shape && shape[n].depth >= 1
      ensures var cs := set c | c in shape[n].children;
              cs !! w && Hunting(q, shape[n].children, stack, w - {n} + cs, others, result)
    {
      var cs := set c | c in shape[n].children;
      assert n in [n] && n in w && NodeOk(shape, par, n);
      Open(shape, par, root, q.box, q.check, w + others, result, n);
      assert w + others - {n} + cs == (w - {n} + cs) + others;
      WorkOpen(n, shape[n].children, stack, w);
    }

    // The first child is an object that passes the test and meets the query.
    lemma TakeHunt(q: Query, ks: seq<RectNode>, stack: seq<RectNode>, w: set<RectNode>, others: set<RectNode>,
                   result: seq<RectNode>, n: RectNode)
      requires Searchable() && Hunting(q, ks, stack, w, others, result) && ks != []
      requires n in shape && Contain(q.box, shape[n].box) && ks[0] in shape && shape[ks[0]].depth == 0
      requires Under(shape, par, root, ks[0], n) && q.check(shape[ks[0]].box)
      ensures Hunting(q, ks[1..], stack, w - {ks[0]}, others, result + [ks[0]]) &&
              AllMatch(shape, q.box, q.check, result + [ks[0]])
    {
      InsideBelow(shape, par, root, q.box, n, ks[0]);
      WorkDrop(ks, stack, w);
      Accept(shape, par, root, q.box, q.check, w + others, result, ks[0]);
      assert w + others - {ks[0]} == w - {ks[0]} + others;
    }

    // The first child is an object that fails the test.
    lemma SkipHunt(q: Query, ks: seq<RectNode>, stack: seq<RectNode>, w: set<RectNode>, others: set<RectNode>,
                   result: seq<RectNode>)
      requires Hunting(q, ks, stack, w, others, result) && ks != [] && ks[0] in shape && shape[ks[0]].depth == 0
      requires !q.check(shape[ks[0]].box)
      ensures Hunting(q, ks[1..], stack, w - {ks[0]}, others, result)
    {
      ObjectAlone(shape, par, root, q.box, q.check, ks[0]);
      WorkDrop(ks, stack, w);
      Drop(shape, par, root, q.box, q.check, w + others, result, ks[0]);
      assert w + others - {ks[0]} == w - {ks[0]} + others;
    }

    // All of a node's children go on the stack.
    lemma PushHunt(q: Query, n: RectNode, stack: seq<RectNode>, w: set<RectNode>, others: set<RectNode>,
                   result: seq<RectNode>)
      requires Hunting(q, [n], stack, w, others, result) && n in shape && shape[n].depth >= 1
      ensures Hunting(q, [], stack + shape[n].children, w - {n} + (set c | c in shape[n].children), others, result)
    {
      OpenHunt(q, n, stack, w, others, result);
      WorkSwap(shape[n].children, stack, w - {n} + set c | c in shape[n].children);
    }

    // Collects what lies below a node that is wholly inside the query box: no box is compared any more.
    method CheckObjs(from: RectNode, result: seq<RectNode>, q: Query, ghost others: set<RectNode>)
      returns (r: seq<RectNode>, stopped: bool)
      requires Searchable() && from in shape && shape[from].depth >= 1 && Contain(q.box, shape[from].box)
      requires Hunting(q, [from], [], {from}, others, result) && Wanting(q, result)
      ensures AllMatch(shape, q.box, q.check, r)
      ensures stopped ==> |r| == q.limit > 0
      ensures !stopped ==> Wanting(q, r) && Hunting(q, [], [], {}, others, r)
    {
      r := result;
      var node, stack := from, [];
      ghost var w, closed := {from}, {};
      while true
        invariant Hunting(q, [node], stack, w, others, r) && Wanting(q, r)
        invariant Inside(q, [node]) && Inside(q, stack)
        invariant Closed(shape, par, root, w, closed)
        decreases |shape.Keys - closed|
      {
        r, stopped, stack, w, closed := CheckNode(node, r, q, stack, w, others, closed);
        if stopped { return; }
        if stack == [] {
          NothingPending(q, w, others, r);
          return r, false;
        }
        PopHunt(q, stack, w, others, r);
        node, stack := stack[|stack| - 1], stack[..|stack| - 1];
      }
    }

    lemma NothingPending(q: Query, w: set<RectNode>, others: set<RectNode>, result: seq<RectNode>)
      requires Hunting(q, [], [], w, others, result)
      ensures w == {}
    {
    }

    // The node to search next comes off the end of the stack.
    lemma PopHunt(q: Query, stack: seq<RectNode>, w: set<RectNode>, others: set<RectNode>, result: seq<RectNode>)
      requires Hunting(q, [], stack, w, others, result) && stack != []
      ensures Hunting(q, [stack[|stack| - 1]], stack[..|stack| - 1], w, others, result)
      ensures Inside(q, stack) ==> Inside(q, [stack[|stack| - 1]]) && Inside(q, stack[..|stack| - 1])
    {
      WorkPop(stack, w);
      assert stack == stack[..|stack| - 1] + [stack[|stack| - 1]];
    }

    method CheckNode(node: RectNode, result: seq<RectNode>, q: Query, stack: seq<RectNode>, ghost w: set<RectNode>,
                     ghost others: set<RectNode>, ghost closed: set<RectNode>)
      returns (r: seq<RectNode>, stopped: bool, stack': seq<RectNode>, ghost w': set<RectNode>,
        ghost closed': set<RectNode>)
      requires Searchable() && Hunting(q, [node], stack, w, others, result) && Wanting(q, result)
      requires Inside(q, [node]) && Inside(q, stack) && Closed(shape, par, root, w, closed)
      ensures AllMatch(shape, q.box, q.check, r)
      ensures stopped ==> |r| == q.limit > 0
      ensures !stopped ==> Wanting(q, r) && Hunting(q, [], stack', w', others, r) && Inside(q, stack')
      ensures !stopped ==> Closed(shape, par, root, w', closed') && |shape.Keys - closed'| < |shape.Keys - closed|
    {
      stack' := stack;
      assert node in [node] && node in w && NodeOk(shape, par, node);
      CloseNode(node, w, others, closed, q, stack, result);
      InsideOpened(q, node);
      ghost var below := w - {node} + set c | c in shape[node].children;
      closed' := closed + {node};
      if node.leaf {
        r, stopped, w' := TakeObjects(node, result, q, stack, w, others);
        if stopped { return; }
      } else {
        PushHunt(q, node, stack, w, others, result);
        r, stopped, w' := result, false, below;
        stack' := stack + node.children;
      }
      ClosedShrinks(shape, par, root, below, w', closed');
    }

    lemma CloseNode(node: RectNode, w: set<RectNode>, others: set<RectNode>, closed: set<RectNode>, q: Query,
                    stack: seq<RectNode>, result: seq<RectNode>)
      requires Hunting(q, [node], stack, w, others, result) && Closed(shape, par, root, w, closed)
      requires node in w && shape[node].depth >= 1
      ensures var w' := w - {node} + set c | c in shape[node].children;
              w' <= shape.Keys && Closed(shape, par, root, w', closed + {node})
      ensures |shape.Keys - (closed + {node})| < |shape.Keys - closed|
    {
      assert Antichain(shape, par, root, w);
      CloseOpened(shape, par, root, w, closed, node);
      assert shape.Keys - closed == shape.Keys - (closed + {node}) + {node};
    }

    lemma InsideOpened(q: Query, n: RectNode)
      requires Searchable() && Inside(q, [n])
      ensures shape[n].depth > 1 ==> Inside(q, shape[n].children)
    {
      assert n in [n] && NodeOk(shape, par, n) && Exact(shape, n);
      UnionCovers(shape, shape[n].children);
      forall c | c in shape[n].children ensures Contain(q.box, shape[c].box) {
        ContainTransitive(q.box, shape[n].box, shape[c].box);
      }
    }

    // Nodes above the objects, all inside the query box.
    ghost predicate Inside(q: Query, ns: seq<RectNode>)
      reads this`shape
    {
      forall x :: x in ns ==> x in shape && shape[x].depth >= 1 && Contain(q.box, shape[x].box)
    }

    // One child of the node a query has come to: skipped, taken, collected whole, or put on the stack.
    method ScanChild(c: RectNode, leaf: bool, result: seq<RectNode>, q: Query, stack: seq<RectNode>,
                     ghost k: nat, ghost node: RectNode, ghost w: set<RectNode>)
      returns (r: seq<RectNode>, stack': seq<RectNode>, ghost w': set<RectNode>)
      requires Searchable() && node in shape && shape[node].depth >= 1 && leaf == shape[node].leaf
      requires k < |shape[node].children| && c == shape[node].children[k]
      requires Hunting(q, shape[node].children[k..], stack, w, {}, result) && Wanting(q, result)
      ensures AllMatch(shape, q.box, q.check, r) && w' <= w && (q.limit > 0 ==> |r| <= q.limit)
      ensures Wanting(q, r) ==> Hunting(q, shape[node].children[k + 1..], stack', w', {}, r)
      ensures forall x :: x in stack' ==> x in stack || (x == c && !leaf)
    {
      ghost var ks := shape[node].children[k..];
      assert ks[0] == c && ks[1..] == shape[node].children[k + 1..];
      ChildIsUnder(shape, par, root, node, c);
      assert NodeOk(shape, par, node);
      if !Intersect(q.box, c.box) {
        MissHunt(q, ks, stack, w, result);
        return result, stack, w - {c};
      } else if leaf {
        r := TakeIfPassing(c, result, q, stack, ks, w);
        return r, stack, w - {c};
      } else if Contain(q.box, c.box) {
        r := CollectChild(c, result, q, ks, stack, w);
        return r, stack, w - {c};
      } else {
        WorkPush(ks, stack, w);
        return result, stack + [c], w;
      }
    }

    lemma MissHunt(q: Query, ks: seq<RectNode>, stack: seq<RectNode>, w: set<RectNode>, result: seq<RectNode>)
      requires Searchable() && Hunting(q, ks, stack, w, {}, result) && ks != [] && ks[0] in shape
      requires !Intersect(q.box, shape[ks[0]].box)
      ensures Hunting(q, ks[1..], stack, w - {ks[0]}, {}, result)
    {
      MissedBelow(shape, par, root, q.box, q.check, ks[0]);
      WorkDrop(ks, stack, w);
      assert w + {} == w && w - {ks[0]} + {} == w - {ks[0]};
      Drop(shape, par, root, q.box, q.check, w, result, ks[0]);
    }

    method TakeIfPassing(c: RectNode, result: seq<RectNode>, q: Query, ghost stack: seq<RectNode>,
                         ghost ks: seq<RectNode>, ghost w: set<RectNode>)
      returns (r: seq<RectNode>)
      requires Searchable() && Hunting(q, ks, stack, w, {}, result) && Wanting(q, result) && ks != [] && c == ks[0]
      requires c in shape && shape[c].depth == 0 && Intersect(q.box, shape[c].box)
      ensures AllMatch(shape, q.box, q.check, r) && Hunting(q, ks[1..], stack, w - {c}, {}, r) &&
              (q.limit > 0 ==> |r| <= q.limit)
    {
      if !q.check(c.box) {
        SkipHunt(q, ks, stack, w, {}, result);
        return result;
      }
      WorkDrop(ks, stack, w);
      assert w + {} == w && w - {c} + {} == w - {c};
      Accept(shape, par, root, q.box, q.check, w, result, c);
      return result + [c];
    }

    method CollectChild(c: RectNode, result: seq<RectNode>, q: Query, ghost ks: seq<RectNode>,
                        ghost stack: seq<RectNode>, ghost w: set<RectNode>)
      returns (r: seq<RectNode>)
      requires Searchable() && Hunting(q, ks, stack, w, {}, result) && Wanting(q, result) && ks != [] && c == ks[0]
      requires c in shape && shape[c].depth >= 1 && Contain(q.box, shape[c].box)
      ensures AllMatch(shape, q.box, q.check, r) && (q.limit > 0 ==> |r| <= q.limit)
      ensures Wanting(q, r) ==> Hunting(q, ks[1..], stack, w - {c}, {}, r)
    {
      WorkDrop(ks, stack, w);
      assert w + {} == w == {c} + (w - {c}) && {} + (w - {c}) == w - {c} == w - {c} + {};
      var stopped;
      r, stopped := CheckObjs(c, result, q, w - {c});
    }

    // The objects whose box meets the query box and passes the test, each once; up to the limit if there is one.
    method Collide(box: Box, limit: nat, check: Check) returns (result: seq<RectNode>)
      requires Valid()
      ensures AllMatch(shape, box, check, result) && (limit > 0 ==> |result| <= limit)
      ensures limit == 0 || |result| < limit ==> forall e :: e in shape && Match(shape, box, check, e) ==> e in result
    {
      var q := Query(box, check, limit);
      result := [];
      var node, stack := root, [];
      if !Intersect(box, root.box) {
        AllMissed(q);
        return;
      }
      ghost var w, closed := {root}, {};
      StartHunt(q);
      while true
        invariant Hunting(q, [node], stack, w, {}, result) && Wanting(q, result)
        invariant Internal([node]) && Internal(stack) && Closed(shape, par, root, w, closed)
        invariant limit > 0 ==> |result| <= limit
        decreases |shape.Keys - closed|
      {
        result, stack, w, closed := ScanNode(node, result, q, stack, w, closed);
        if limit != 0 && |result| >= limit { return; }
        if stack == [] {
          EndHunt(q, w, result);
          return;
        }
        PopHunt(q, stack, w, {}, result);
        node, stack := stack[|stack| - 1], stack[..|stack| - 1];
      }
    }

    ghost predicate Internal(ns: seq<RectNode>)
      reads this`shape
    {
      forall x :: x in ns ==> x in shape && shape[x].depth >= 1
    }

    lemma AllMissed(q: Query)
      requires Searchable() && !Intersect(q.box, root.box)
      ensures forall e :: e in shape ==> !Match(shape, q.box, q.check, e)
    {
      MissedBelow(shape, par, root, q.box, q.check, root);
      forall e | e in shape ensures !Match(shape, q.box, q.check, e) { AllUnderRoot(shape, par, root, e); }
    }

    lemma StartHunt(q: Query)
      requires Searchable()
      ensures Hunting(q, [root], [], {root}, {}, []) && Closed(shape, par, root, {root}, {}) && Internal([root])
    {
      SearchStarts(shape, par, root, q.box, q.check);
      assert {root} + {} == {root};
    }

    lemma EndHunt(q: Query, w: set<RectNode>, result: seq<RectNode>)
      requires Hunting(q, [], [], w, {}, result)
      ensures NoDup(result) && forall e :: e in result <==> e in shape && Match(shape, q.box, q.check, e)
    {
      assert w == {} && w + {} == {};
      SearchEnds(shape, par, root, q.box, q.check, result);
    }

    method ScanNode(node: RectNode, result: seq<RectNode>, q: Query, stack: seq<RectNode>, ghost w: set<RectNode>,
                    ghost closed: set<RectNode>)
      returns (r: seq<RectNode>, stack': seq<RectNode>, ghost w': set<RectNode>, ghost closed': set<RectNode>)
      requires Searchable() && Hunting(q, [node], stack, w, {}, result) && Wanting(q, result)
      requires Internal([node]) && Internal(stack) && Closed(shape, par, root, w, closed)
      ensures AllMatch(shape, q.box, q.check, r) && (q.limit > 0 ==> |r| <= q.limit)
      ensures Wanting(q, r) ==> Hunting(q, [], stack', w', {}, r) && Internal(stack')
      ensures Wanting(q, r) ==> Closed(shape, par, root, w', closed') && |shape.Keys - closed'| < |shape.Keys - closed|
    {
      assert node in [node] && node in w;
      CloseNode(node, w, {}, closed, q, stack, result);
      OpenHunt(q, node, stack, w, {}, result);
      ghost var below := w - {node} + set c | c in shape[node].children;
      closed' := closed + {node};
      r, stack', w' := ScanChildren(node, result, q, stack, below);
      if q.limit == 0 || |r| < q.limit { ClosedShrinks(shape, par, root, below, w', closed'); }
    }

    method ScanChildren(node: RectNode, result: seq<RectNode>, q: Query, stack: seq<RectNode>, ghost w: set<RectNode>)
      returns (r: seq<RectNode>, stack': seq<RectNode>, ghost w': set<RectNode>)
      requires Searchable() && Internal([node]) && Internal(stack) && Wanting(q, result)
      requires node in shape && Hunting(q, shape[node].children, stack, w, {}, result)
      ensures AllMatch(shape, q.box, q.check, r) && (q.limit > 0 ==> |r| <= q.limit)
      ensures Wanting(q, r) ==> Hunting(q, [], stack', w', {}, r) && Internal(stack') && w' <= w
    {
      r, stack', w' := result, stack, w;
      var children, leaf := node.children, node.leaf;
      assert node in [node] && NodeOk(shape, par, node);
      assert children[0..] == children;
      var k := 0;
      while k < |children|
        invariant k <= |children| && Hunting(q, children[k..], stack', w', {}, r) && Wanting(q, r) && w' <= w
        invariant Internal(stack')
      {
        r, stack', w' := ScanChild(children[k], leaf, r, q, stack', k, node, w');
        if q.limit != 0 && |r| >= q.limit { return; }
        k := k + 1;
      }
      assert children[k..] == [];
    }

    // The way down to the leaf that takes a new box.
    method ChooseSubtree(box: Box, depth: int) returns (path: seq<RectNode>)
      requires Valid() && Proper(box) && depth == root.depth - 1
      ensures IsPath(shape, par, root, path) && |path| == shape[root].depth && LeastGrowing(shape, path, box)
    {
      var node := root;
      path := [node];
      while !(node.leaf || |path| - 1 == depth)
        invariant IsPath(shape, par, root, path) && LeastGrowing(shape, path, box) && node == path[|path| - 1]
        decreases shape[root].depth - |path|
      {
        node := StepDown(path, box);
        path := path + [node];
      }
      assert NodeOk(shape, par, node);
    }

    method StepDown(path: seq<RectNode>, box: Box) returns (target: RectNode)
      requires Valid() && Proper(box) && IsPath(shape, par, root, path) && LeastGrowing(shape, path, box)
      requires shape[path[|path| - 1]].depth > 1
      ensures IsPath(shape, par, root, path + [target]) && LeastGrowing(shape, path + [target], box)
    {
      var node := path[|path| - 1];
      assert NodeOk(shape, par, node);
      BoxesProper(shape, par, root, maxElem, node);
      ghost var at, least;
      target, at, least := LeastEnlarged(node.children, box, shape);
      LongerPath(shape, par, root, path, at, least, box);
    }

    // What holds between the steps of an insertion; once d is -1 all is well again.
    ghost predicate Growing(path: seq<RectNode>, d: int, box: Box)
      reads this, shape.Keys
    {
      Elems() && if d < 0 then Valid() else Shown() && Underway(shape, par, root, objs, view, path, d, box, maxElem)
    }

    // A new object under the leaf at the end of the path.
    method AddObject(path: seq<RectNode>, leaf: RectNode, id: int, box: Box) returns (e: RectNode)
      requires Valid() && Proper(box) && IsPath(shape, par, root, path) && |path| == shape[root].depth &&
               leaf == path[|path| - 1]
      requires id > 0 && id !in objs
      modifies this`objs, this`view, this`shape, this`par, leaf
      ensures Growing(path, |path| - 1, box)
      ensures view == old(view)[id := box] && shape.Keys == old(shape.Keys) + {e} && fresh(e)
      ensures old(AtLeast(shape, root, minElem)) ==> AtLeast(shape, root, minElem)
    {
      e := AttachObject(leaf, id, box);
      ObjectUnderway(shape, par, root, path, e, id, box, objs, view, maxElem, minElem);
      Record(WithObject(shape, leaf, e, id, box), par[e := leaf], objs[id := e], view[id := box], path, |path| - 1,
        box);
    }

    method Record(ghost sh: Shape, ghost parents: Parents, index: map<int, RectNode>, ghost boxes: map<int, Box>,
                  ghost path: seq<RectNode>, ghost d: nat, ghost box: Box)
      requires Elems() && ShownAs(sh) && Underway(sh, parents, root, index, boxes, path, d, box, maxElem)
      modifies this`objs, this`view, this`shape, this`par
      ensures Growing(path, d, box) && shape == sh && par == parents && objs == index && view == boxes
    {
      shape, par, objs, view := sh, parents, index, boxes;
    }

    ghost predicate ShownAs(sh: Shape)
      reads sh.Keys
    {
      forall n :: n in sh ==> RecOf(n) == sh[n]
    }

    method AttachObject(leaf: RectNode, id: int, box: Box) returns (e: RectNode)
      requires Shown() && leaf in shape
      modifies leaf
      ensures fresh(e) && ShownAs(WithObject(shape, leaf, e, id, box))
    {
      e := new RectNode();
      e.id, e.box := id, box;
      leaf.children := leaf.children + [e];
      leaf.box := Extend(leaf.box, box);
      forall n | n in shape && n != leaf ensures RecOf(n) == shape[n] { assert old(RecOf(n) == shape[n]); }
    }

    // The node keeps the left part of its children, a new node gets the right part; both boxes are
    // computed anew. Nothing else changes yet.
    method Divide(node: RectNode) returns (nn: RectNode, ghost left: seq<RectNode>, ghost right: seq<RectNode>)
      requires Elems() && Shown() && Tree(shape, par, root) && node in shape && shape[node].depth > 0
      requires |shape[node].children| == maxElem + 1 && AllProper(shape, shape[node].children)
      modifies node`children, node`box
      ensures fresh(nn) && Divided(shape, shape[node].children, minElem, left, right)
      ensures (forall c :: c in left ==> c in shape) && (forall c :: c in right ==> c in shape)
      ensures ShownAs(Halved(shape, node, nn, left, right, Unions(shape, left, right)))
    {
      var sorted, index := ChooseDivision(node);
      left, right := sorted[..index], sorted[index..];
      nn := Separate(node, sorted, index);
    }

    method ChooseDivision(node: RectNode) returns (sorted: seq<RectNode>, index: nat)
      requires Elems() && Shown() && Tree(shape, par, root) && node in shape
      requires |shape[node].children| == maxElem + 1 && AllProper(shape, shape[node].children)
      ensures Measurable(shape, sorted) && node !in sorted && 0 < index < |sorted| &&
              Divided(shape, shape[node].children, minElem, sorted[..index], sorted[index..])
    {
      hide Tree, Measurable, Overlap, Ordered, Divided;
      ToDivide(node);
      ghost var xs, ys, least;
      sorted, xs, ys := ChooseSplitAxis(node.children, minElem, shape);
      index, least := ChooseSplitIndex(sorted, minElem, shape);
      ghost var byX := Margins(shape, xs, minElem) < Margins(shape, ys, minElem);
      DividedAt(shape, node.children, minElem, sorted, index, byX);
    }

    lemma ToDivide(node: RectNode)
      requires Shown() && Tree(shape, par, root) && node in shape && AllProper(shape, shape[node].children)
      ensures node.children == shape[node].children && NoDup(node.children) && node !in node.children
      ensures Measurable(shape, node.children) && forall c :: c in node.children ==> c in shape
    {
      assert NodeOk(shape, par, node);
    }

    method Separate(node: RectNode, sorted: seq<RectNode>, index: nat) returns (nn: RectNode)
      requires Shown() && node in shape && node !in sorted && Sized(shape, sorted) && 0 < index < |sorted|
      modifies node`children, node`box
      ensures fresh(nn) && (forall c :: c in sorted[..index] ==> c in shape) &&
              (forall c :: c in sorted[index..] ==> c in shape)
      ensures ShownAs(Halved(shape, node, nn, sorted[..index], sorted[index..],
        Unions(shape, sorted[..index], sorted[index..])))
    {
      hide Union, Tree;
      nn := CutOff(node, sorted, index);
      assert nn !in shape;
      CalcAbox(node, sorted[..index]);
      CalcAbox(nn, sorted[index..]);
      forall n | n in shape && n != node ensures RecOf(n) == shape[n] { assert old(RecOf(n) == shape[n]); }
      assert old(RecOf(node) == shape[node]);
    }

    method CutOff(node: RectNode, sorted: seq<RectNode>, index: nat) returns (nn: RectNode)
      requires 0 < index < |sorted| && node !in sorted && Sized(shape, sorted)
      modifies node`children
      ensures fresh(nn) && nn.children == sorted[index..] && nn.depth == node.depth && nn.leaf == node.leaf &&
              nn.id == 0
      ensures node.children == sorted[..index] && node !in sorted[..index] && node !in sorted[index..]
      ensures Sized(shape, sorted[..index]) && Sized(shape, sorted[index..])
    {
      node.children := sorted;
      nn := new RectNode();
      nn.depth, nn.leaf := node.depth, node.leaf;
      var r := node.SplitChildren(index, |node.children| - index, nn);
      assert sorted[index..|sorted|] == sorted[index..];
      assert forall c :: c in sorted[..index] ==> c in sorted;
      assert forall c :: c in sorted[index..] ==> c in sorted;
    }

    // The box of a node from those of its children.
    method CalcAbox(node: RectNode, ghost cs: seq<RectNode>)
      requires node.children == cs && Sized(shape, cs)
      modifies node`box
      ensures node.box == Union(shape, cs)
    {
      assert cs[0..|cs|] == cs;
      node.box := DistAbox(node.children, 0, |node.children|, shape);
    }

    // A node with one child too many is split; its parent takes the new node.
    method SplitBelow(path: seq<RectNode>, depth: nat, ghost box: Box) returns (nn: RectNode)
      requires Growing(path, depth, box) && |shape[path[depth]].children| == maxElem + 1 && depth > 0
      modifies this`objs, this`view, this`shape, this`par, shape.Keys
      ensures Growing(path, depth - 1, box) && view == old(view) && shape.Keys == old(shape.Keys) + {nn} && fresh(nn)
      ensures old(AtLeast(shape, root, minElem)) ==> AtLeast(shape, root, minElem)
    {
      ghost var left, right;
      UnderwayFacts(shape, par, root, objs, view, path, depth, box, maxElem);
      nn, left, right := Divide(path[depth]);
      DividedWell(path, depth, nn, left, right);
      HangNode(path, depth, path[depth - 1], nn, left, right, box);
    }

    // The root is split; a new root takes both parts.
    method SplitTop(path: seq<RectNode>, ghost box: Box) returns (nn: RectNode, nr: RectNode)
      requires Growing(path, 0, box) && |shape[path[0]].children| == maxElem + 1
      modifies this`shape, this`par, this`root, shape.Keys
      ensures Growing(path, -1, box) && view == old(view) && shape.Keys == old(shape.Keys) + {nn, nr} && fresh(nn) &&
              fresh(nr)
      ensures old(AtLeast(shape, root, minElem)) ==> AtLeast(shape, root, minElem)
    {
      ghost var left, right;
      UnderwayFacts(shape, par, root, objs, view, path, 0, box, maxElem);
      nn, left, right := Divide(path[0]);
      DividedWell(path, 0, nn, left, right);
      nr := GrowRoot(path, nn, left, right, box);
    }

    lemma DividedWell(path: seq<RectNode>, d: nat, nn: RectNode, left: seq<RectNode>, right: seq<RectNode>)
      requires Elems() && d < |path| && path[d] in shape && Tree(shape, par, root) && shape[path[d]].depth > 0 &&
               nn !in shape
      requires |shape[path[d]].children| == maxElem + 1 && (forall c :: c in shape[path[d]].children ==> c in shape)
      requires Divided(shape, shape[path[d]].children, minElem, left, right)
      ensures Dividing(shape, par, root, path, d, nn, left, right, minElem, maxElem)
    {
      DividedHalves(shape, shape[path[d]].children, minElem, left, right);
    }

    // The parent takes the new node.
    method HangNode(path: seq<RectNode>, d: nat, p: RectNode, nn: RectNode, ghost left: seq<RectNode>,
                    ghost right: seq<RectNode>, ghost box: Box)
      requires Elems() && 0 < d <= |path| && p == path[d - 1] &&
               Underway(shape, par, root, objs, view, path, d, box, maxElem)
      requires Dividing(shape, par, root, path, d, nn, left, right, minElem, maxElem) && path[d] in shape &&
               path[d - 1] in shape
      requires ShownAs(Halved(shape, path[d], nn, left, right, Unions(shape, left, right)))
      modifies this`objs, this`view, this`shape, this`par, p`children
      ensures Growing(path, d - 1, box) && shape.Keys == old(shape.Keys) + {nn} && view == old(view)
      ensures old(AtLeast(shape, root, minElem)) ==> AtLeast(shape, root, minElem)
    {
      hide Tree, Filled, Indexed, AtLeast, Boxed, SplitInner, Reparented;
      SplitUnderway(shape, par, root, objs, view, path, d, box, maxElem, nn, left, right, minElem);
      SplitKeys(shape, path[d], nn, left, right, Unions(shape, left, right), path[d - 1]);
      AttachNode(p, path[d], nn, left, right, Unions(shape, left, right));
      Record(SplitInner(shape, path[d], nn, left, right, Unions(shape, left, right), path[d - 1]),
        Reparented(par, nn, right, path[d - 1]),
             objs, view, path, d - 1, box);
    }

    method AttachNode(p: RectNode, ghost node: RectNode, nn: RectNode, ghost left: seq<RectNode>,
                      ghost right: seq<RectNode>, ghost bs: Boxes)
      requires node in shape && p in shape && p != node && p != nn && ShownAs(Halved(shape, node, nn, left, right, bs))
      modifies p`children
      ensures ShownAs(SplitInner(shape, node, nn, left, right, bs, p))
    {
      ghost var sh := Halved(shape, node, nn, left, right, bs);
      p.children := p.children + [nn];
      forall n | n in sh && n != p ensures RecOf(n) == sh[n] { assert old(RecOf(n) == sh[n]); }
      assert old(RecOf(p) == sh[p]);
    }

    // The root has been split: a new root takes both parts.
    method GrowRoot(path: seq<RectNode>, nn: RectNode, ghost left: seq<RectNode>, ghost right: seq<RectNode>,
                    ghost box: Box)
      returns (nr: RectNode)
      requires Elems() && |path| > 0 && Underway(shape, par, root, objs, view, path, 0, box, maxElem)
      requires Dividing(shape, par, root, path, 0, nn, left, right, minElem, maxElem) && root in shape &&
               path[0] == root
      requires ShownAs(Halved(shape, root, nn, left, right, Unions(shape, left, right)))
      modifies this`shape, this`par, this`root
      ensures Valid() && fresh(nr) && shape.Keys == old(shape.Keys) + {nn, nr} && view == old(view)
      ensures old(AtLeast(shape, root, minElem)) ==> AtLeast(shape, root, minElem)
    {
      nr := MakeRoot(nn, left, right);
      RootUnderway(shape, par, root, objs, view, path, box, maxElem, nn, nr, left, right, minElem);
      RootDiffers(shape, root, nn, left, right, Unions(shape, left, right), nr, RootBox(shape, root, nn, left, right));
      RecordRoot(RootShape(shape, root, nn, nr, left, right), Reparented(par, nn, right, nr)[root := nr], nr);
    }

    method MakeRoot(nn: RectNode, ghost left: seq<RectNode>, ghost right: seq<RectNode>) returns (nr: RectNode)
      requires root in shape && root != nn && (forall c :: c in left ==> c in shape) &&
               (forall c :: c in right ==> c in shape)
      requires ShownAs(Halved(shape, root, nn, left, right, Unions(shape, left, right)))
      ensures fresh(nr) && ShownAs(RootShape(shape, root, nn, nr, left, right))
    {
      hide Extend, RootShape;
      nr := new RectNode();
      nr.depth, nr.leaf := root.depth + 1, false;
      nr.children := [root, nn];
      ghost var sh := Halved(shape, root, nn, left, right, Unions(shape, left, right));
      assert forall c :: c in nr.children ==> c == root || c == nn;
      assert nr.children[0..2] == [root, nn];
      nr.box := DistAbox(nr.children, 0, 2, sh);
      forall n | n in sh ensures RecOf(n) == sh[n] { assert old(RecOf(n) == sh[n]); }
      RootShown(nr, nn, left, right, sh);
    }

    lemma RootShown(nr: RectNode, nn: RectNode, left: seq<RectNode>, right: seq<RectNode>, sh: Shape)
      requires root in shape && (forall c :: c in left ==> c in shape) && (forall c :: c in right ==> c in shape)
      requires sh == Halved(shape, root, nn, left, right, Unions(shape, left, right)) && ShownAs(sh)
      requires RecOf(nr) == Rec([root, nn], false, shape[root].depth + 1, 0, Union(sh, [root, nn]))
      ensures ShownAs(RootShape(shape, root, nn, nr, left, right))
    {
    }

    method RecordRoot(ghost sh: Shape, ghost parents: Parents, nr: RectNode)
      requires Elems() && ShownAs(sh) && Tree(sh, parents, nr) && Boxed(sh, parents, nr) && Filled(sh, nr, maxElem) &&
               Indexed(sh, objs, view)
      modifies this`shape, this`par, this`root
      ensures Valid() && shape == sh && par == parents && root == nr && view == old(view)
    {
      shape, par, root := sh, parents, nr;
    }

    // The last step of an insertion at one node of the path.
    method ExtendNode(path: seq<RectNode>, d: nat, node: RectNode, box: Box)
      requires d < |path| && node == path[d] && Growing(path, d, box) && Filled(shape, root, maxElem)
      modifies this`objs, this`view, this`shape, this`par, this`root, node`box
      ensures Growing(path, d - 1, box) && (d > 0 ==> Filled(shape, root, maxElem)) && view == old(view) &&
              shape.Keys == old(shape.Keys)
      ensures old(AtLeast(shape, root, minElem)) ==> AtLeast(shape, root, minElem)
    {
      hide Tree, Filled, Indexed, AtLeast;
      ExtendUnderway(shape, par, root, objs, view, path, d, box, maxElem, minElem);
      ghost var sh := WithBox(shape, path[d], Extend(shape[path[d]].box, box));
      node.box := Extend(node.box, box);
      RecordUp(sh, path, d, box);
    }

    // The tree's new shape, with the path growing from above d on, or done.
    method RecordUp(ghost sh: Shape, ghost path: seq<RectNode>, d: nat, ghost box: Box)
      requires Elems() && ShownAs(sh) && Tree(sh, par, root) && Filled(sh, root, maxElem) && Indexed(sh, objs, view)
      requires (d > 0 ==> Underway(sh, par, root, objs, view, path, d - 1, box, maxElem)) &&
               (d == 0 ==> Boxed(sh, par, root))
      modifies this`objs, this`view, this`shape, this`par, this`root
      ensures Growing(path, d - 1, box) && shape == sh && root == old(root) && view == old(view)
    {
      if d > 0 {
        Record(sh, par, objs, view, path, d - 1, box);
      } else {
        RecordRoot(sh, par, root);
      }
    }

    // Inserts an object whose id is not in use.
    method InsertNew(id: int, box: Box) returns (e: RectNode, ghost added: set<RectNode>)
      requires Valid() && Proper(box) && id > 0 && id !in objs
      modifies this, shape.Keys
      ensures Valid() && view == old(view)[id := box]
      ensures shape.Keys == old(shape.Keys) + {e} + added && fresh(added) && fresh(e)
      ensures old(AtLeast(shape, root, minElem)) ==> AtLeast(shape, root, minElem)
    {
      hide Valid, AtLeast, Growing;
      var depth := root.depth - 1;
      var path := ChooseSubtree(box, depth);
      e := AddObject(path, path[|path| - 1], id, box);
      depth, added := SplitUp(path, box);
      ExtendUp(path, depth, box);
    }

    method Split(path: seq<RectNode>, depth: nat, ghost box: Box) returns (ghost added: set<RectNode>)
      requires Growing(path, depth, box) && |shape[path[depth]].children| == maxElem + 1
      modifies this`objs, this`view, this`shape, this`par, this`root, shape.Keys
      ensures Growing(path, depth - 1, box) && view == old(view) && shape.Keys == old(shape.Keys) + added &&
              fresh(added)
      ensures old(AtLeast(shape, root, minElem)) ==> AtLeast(shape, root, minElem)
    {
      if depth > 0 {
        var nn := SplitBelow(path, depth, box);
        added := {nn};
      } else {
        var nn, nr := SplitTop(path, box);
        added := {nn, nr};
      }
    }

    // Splits the nodes of the path that have become too full, from the leaf up.
    method SplitUp(path: seq<RectNode>, ghost box: Box) returns (depth: int, ghost added: set<RectNode>)
      requires |path| > 0 && Growing(path, |path| - 1, box)
      modifies this`objs, this`view, this`shape, this`par, this`root, shape.Keys
      ensures -1 <= depth < |path| && Growing(path, depth, box) && (depth >= 0 ==> Filled(shape, root, maxElem))
      ensures view == old(view) && shape.Keys == old(shape.Keys) + added && fresh(added)
      ensures old(AtLeast(shape, root, minElem)) ==> AtLeast(shape, root, minElem)
    {
      hide Growing, AtLeast, Filled;
      depth, added := |path| - 1, {};
      ghost var packed := AtLeast(shape, root, minElem);
      while depth >= 0 && depth < |path| && |path[depth].children| > maxElem
        invariant -1 <= depth < |path| && Growing(path, depth, box)
        invariant view == old(view) && shape.Keys == old(shape.Keys) + added && fresh(added)
        invariant packed ==> AtLeast(shape, root, minElem)
        decreases depth
      {
        OneTooMany(path, depth, box);
        ghost var more := Split(path, depth, box);
        assert fresh(more);
        added := added + more;
        depth := depth - 1;
      }
      if depth >= 0 { NotFull(path, depth, box); }
    }

    lemma OneTooMany(path: seq<RectNode>, d: nat, box: Box)
      requires d < |path| && Growing(path, d, box) && |path[d].children| > maxElem
      ensures path[d] in shape && |shape[path[d]].children| == maxElem + 1
    {
    }

    lemma NotFull(path: seq<RectNode>, d: nat, box: Box)
      requires d < |path| && Growing(path, d, box) && |path[d].children| <= maxElem
      ensures Filled(shape, root, maxElem)
    {
    }

    // Extends the nodes of the path by the new box, from the given depth up.
    method ExtendUp(path: seq<RectNode>, depth: int, box: Box)
      requires -1 <= depth < |path| && Growing(path, depth, box) && (depth >= 0 ==> Filled(shape, root, maxElem))
      modifies this`objs, this`view, this`shape, this`par, this`root, shape.Keys
      ensures Valid() && view == old(view) && shape.Keys == old(shape.Keys)
      ensures old(AtLeast(shape, root, minElem)) ==> AtLeast(shape, root, minElem)
    {
      var i := depth;
      while i >= 0 && i < |path|
        invariant -1 <= i < |path| && Growing(path, i, box) && (i >= 0 ==> Filled(shape, root, maxElem))
        invariant view == old(view) && shape.Keys == old(shape.Keys)
        invariant old(AtLeast(shape, root, minElem)) ==> AtLeast(shape, root, minElem)
        decreases i
      {
        ExtendNode(path, i, path[i], box);
        i := i - 1;
      }
    }

    // An object that is in the tree but no longer in the index.
    ghost predicate Leaving(item: RectNode)
      reads this, shape.Keys
    {
      && Elems() && Searchable() && Filled(shape, root, maxElem)
      && item in shape && shape[item].depth == 0 && shape[item].id !in objs &&
         Indexed(shape, objs[shape[item].id := item], view)
    }

    // Finds the leaf of an object by walking the tree.
    method FindLeaf(item: RectNode) returns (path: seq<RectNode>, leaf: RectNode, k: nat)
      requires Leaving(item)
      ensures AtLeaf(item, path, leaf, k)
    {
      var s, found := Spot([], [], 0, root, null), false;
      k := 0;
      ghost var m, x, seen := 0, 0, {};
      WalkStart(shape, par, root, item);
      while !found && (s.node != null || s.path != [])
        invariant if found then AtLeaf(item, s.path, s.node, k) else Walk(shape, par, root, item, s, m, x, seen)
        decreases !found, |shape.Keys - seen|, |s.path|
      {
        found, k, s, m, x, seen := Visit(item, s, m, x, seen);
      }
      path, leaf := s.path, s.node;
    }

    // One round of the walk. It ends at the leaf with the object; otherwise it goes down, right, or up and right.
    method Visit(item: RectNode, s: Spot, ghost m: nat, ghost x: nat, ghost seen: set<RectNode>)
      returns (found: bool, k: nat, s': Spot, ghost m': nat, ghost x': nat, ghost seen': set<RectNode>)
      requires Leaving(item) && Shown() && Walk(shape, par, root, item, s, m, x, seen)
      ensures found ==> AtLeaf(item, s'.path, s'.node, k)
      ensures !found ==> Walk(shape, par, root, item, s', m', x', seen')
      ensures !found ==> |shape.Keys - seen'| < |shape.Keys - seen| || (seen' == seen && |s'.path| < |s.path|)
    {
      hide Walk, Leaving, Shown;
      found, k, s', m', x', seen' := false, 0, s, m, x, seen;
      if s.node == null {  // up, and then right
        GoBack(item, s, m, x, seen);
        s' := GoOn(Back(s));
        return;
      }
      NodeFacts(item, s, m, x, seen);
      if s.node.leaf {  // current
        k := FindChild(s.node, item);
        if k < |s.node.children| {
          StackIsPath(shape, par, root, item, s, m, x, seen);
          found := true;
          return;
        }
      }
      if !s.node.leaf && Contain(s.node.box, item.box) {  // down
        m', x', seen' := GoDown(item, s, m, x, seen);
        s' := GoIn(s);
      } else {  // right
        seen' := GoRight(item, s, m, x, seen);
        WalkParent(shape, par, root, item, s, m, x, seen);
        s' := GoOn(s);
      }
    }

    ghost predicate AtLeaf(item: RectNode, path: seq<RectNode>, node: RectNode?, k: nat)
      reads this`shape, this`par, this`root
    {
      && node != null && node in shape && shape[node].depth == 1
      && k < |shape[node].children| && shape[node].children[k] == item
      && OnPath(shape, par, root, path + [node], |path| + 1)
    }

    // Down: the current node goes on the stack.
    method GoIn(s: Spot) returns (s': Spot)
      requires Shown() && s.node != null && s.node in shape
      ensures s' == Down(shape, s)
    {
      var first := if s.node.children == [] then null else s.node.children[0];
      s' := Spot(s.path + [s.node], s.indexes + [s.i], 0, first, s.node);
    }

    // Right: the next child of the top of the stack.
    method GoOn(s: Spot) returns (s': Spot)
      requires Shown() && s.path != [] && s.parent == s.path[|s.path| - 1] && s.parent in shape && s.i >= 0
      ensures s' == Right(shape, s)
    {
      var i := s.i + 1;
      s' := s.(i := i, node := if i >= |s.parent.children| then null else s.parent.children[i]);
    }

    lemma GoBack(item: RectNode, s: Spot, m: nat, x: nat, seen: set<RectNode>)
      requires Leaving(item) && Walk(shape, par, root, item, s, m, x, seen) && s.node == null
      ensures |s.path| >= 2 && |s.indexes| == |s.path| && s.path[|s.path| - 2] in shape && s.indexes[|s.path| - 1] >= 0
      ensures s.path[|s.path| - 1] in shape && !shape[s.path[|s.path| - 1]].leaf
      ensures Walk(shape, par, root, item, Right(shape, Back(s)), m, x, seen)
    {
      WalkBack(shape, par, root, item, s, m, x, seen);
      assert NodeOk(shape, par, s.path[|s.path| - 1]);
    }

    lemma GoDown(item: RectNode, s: Spot, m: nat, x: nat, seen: set<RectNode>)
      returns (m': nat, x': nat, seen': set<RectNode>)
      requires Leaving(item) && Walk(shape, par, root, item, s, m, x, seen) && s.node != null && s.node in shape &&
               shape[s.node].depth > 1
      ensures Walk(shape, par, root, item, Down(shape, s), m', x', seen') && |shape.Keys - seen'| < |shape.Keys - seen|
    {
      var n: RectNode := s.node;
      m', x' := WalkDown(shape, par, root, item, s, m, x, seen);
      SeesMore(shape, seen, n);
      seen' := seen + {n};
    }

    lemma GoRight(item: RectNode, s: Spot, m: nat, x: nat, seen: set<RectNode>) returns (seen': set<RectNode>)
      requires Leaving(item) && Walk(shape, par, root, item, s, m, x, seen) && s.node != null && s.node in shape
      requires if shape[s.node].depth == 1 then item !in shape[s.node].children
        else !Contain(shape[s.node].box, shape[item].box)
      ensures s.path != [] && s.path[|s.path| - 1] in shape && s.i >= 0
      ensures Walk(shape, par, root, item, Right(shape, s), m, x, seen') && |shape.Keys - seen'| < |shape.Keys - seen|
    {
      var n: RectNode := s.node;
      TurnsAway(shape, par, root, item, s, m, x, seen);
      WalkRight(shape, par, root, item, s, m, x, seen);
      SeesMore(shape, seen, n);
      seen' := seen + {n};
    }

    // The current node is above the objects; a leaf holds the object just if it is the object's own.
    lemma NodeFacts(item: RectNode, s: Spot, m: nat, x: nat, seen: set<RectNode>)
      requires Leaving(item) && Walk(shape, par, root, item, s, m, x, seen) && s.node != null
      ensures s.node in shape && shape[s.node].depth >= 1 && (shape[s.node].leaf <==> shape[s.node].depth == 1)
      ensures RecOf(s.node) == shape[s.node] && item in shape && RecOf(item) == shape[item]
      ensures forall c :: c in shape[s.node].children ==>
        c in shape && (shape[s.node].depth == 1 ==> shape[c].depth == 0)
    {
      TrackIsLevel(shape, par, root, item, s, m, x, seen);
      assert NodeOk(shape, par, s.node);
    }

    // The first child with the object's id.
    method FindChild(node: RectNode, item: RectNode) returns (at: nat)
      requires Leaving(item) && node in shape && shape[node].depth == 1
      requires forall c :: c in shape[node].children ==> c in shape && shape[c].depth == 0
      ensures at <= |shape[node].children|
      ensures if at == |shape[node].children| then item !in shape[node].children else shape[node].children[at] == item
    {
      at := 0;
      while at < |node.children|
        invariant at <= |node.children| && item !in node.children[..at]
      {
        if node.children[at].id == item.id {
          assert node.children[at] in shape;
          return;
        }
        assert node.children[..at + 1] == node.children[..at] + [node.children[at]];
        at := at + 1;
      }
    }

    // Takes an object out of its leaf.
    method TakeOut(path: seq<RectNode>, leaf: RectNode, k: nat, item: RectNode)
      requires Leaving(item) && leaf in shape && AtLeaf(item, path, leaf, k)
      modifies this`shape, this`par, this`view, leaf`children
      ensures Loosening(path + [leaf], |path| + 1) && view == old(view) - {old(shape[item].id)} &&
              shape.Keys == old(shape.Keys) - {item}
    {
      ObjectLeaves(shape, par, root, path + [leaf], item, k, objs, view, maxElem);
      ghost var id := shape[item].id;
      ghost var cs := SwapRemoved(shape[leaf].children, k);
      DropChild(leaf, k, item);
      LoosenBy(Lopped(shape, item, leaf, cs), par - {item}, view - {id}, path + [leaf], |path| + 1);
    }

    // The state between the steps of a merge: the nodes of path[..k] are still to be tidied up.
    ghost predicate Loosening(path: seq<RectNode>, k: nat)
      reads this, shape.Keys
    {
      Elems() && Shown() && Loose(shape, par, root, path, k, maxElem) && Indexed(shape, objs, view)
    }

    method LoosenBy(ghost sh: Shape, ghost parents: Parents, ghost boxes: map<int, Box>, ghost path: seq<RectNode>,
                    ghost k: nat)
      requires Elems() && ShownAs(sh) && Loose(sh, parents, root, path, k, maxElem) && Indexed(sh, objs, boxes)
      modifies this`shape, this`par, this`view
      ensures Loosening(path, k) && shape == sh && par == parents && view == boxes
    {
      shape, par, view := sh, parents, boxes;
    }

    // The child at position k is overwritten by the last one.
    method DropChild(p: RectNode, k: nat, n: RectNode)
      requires Shown() && p in shape && k < |shape[p].children| && shape[p].children[k] == n && n != p
      modifies p`children
      ensures ShownAs(Lopped(shape, n, p, SwapRemoved(shape[p].children, k)))
    {
      var last := |p.children| - 1;
      p.children := p.children[k := p.children[last]];
      p.children := p.children[..last];
      forall m | m in shape && m != p ensures RecOf(m) == shape[m] { assert old(RecOf(m) == shape[m]); }
      assert old(RecOf(p) == shape[p]);
    }

    // Tidies up the path to a leaf that has lost an object: emptied nodes are taken out, the others get the
    // box around their children; when the root is empty, the tree starts afresh.
    method MergeNode(path: seq<RectNode>)
      requires path != [] && Loosening(path, |path|)
      modifies this, shape.Keys
      ensures Valid() && view == old(view) && (shape.Keys <= old(shape.Keys) || (shape.Keys == {root} && fresh(root)))
    {
      hide Tree, Boxed, Filled, Indexed, Loose;
      var i := |path| - 1;
      while i >= 0
        invariant -1 <= i < |path| && view == old(view) && Elems()
        invariant shape.Keys <= old(shape.Keys) || (i == -1 && shape.Keys == {root} && fresh(root))
        invariant if i >= 0 then Loosening(path, i + 1) else Valid()
        decreases i
      {
        TidyNode(path, i);
        i := i - 1;
      }
    }

    method TidyNode(path: seq<RectNode>, i: nat)
      requires i < |path| && Loosening(path, i + 1)
      modifies this, shape.Keys
      ensures if i > 0 then Loosening(path, i) else Valid()
      ensures view == old(view) && (shape.Keys <= old(shape.Keys) || (i == 0 && shape.Keys == {root} && fresh(root)))
    {
      LoosePath(shape, par, root, path, i, maxElem);
      if path[i].children == [] {
        if i > 0 {
          TakeEmpty(path, i, path[i - 1]);
        } else {
          NothingLeft(shape, par, root, objs, view);
          Clear();
        }
      } else {
        Retidy(path, i, path[i]);
        if i == 0 { AllTidied(shape, par, root, path, maxElem); }
      }
    }

    method TakeEmpty(path: seq<RectNode>, i: nat, p: RectNode)
      requires 0 < i < |path| && Loosening(path, i + 1) && p == path[i - 1] && p in shape && p != path[i]
      requires path[i] in shape && shape[path[i]].children == [] && path[i] in shape[p].children
      modifies this`shape, this`par, this`view, p`children
      ensures Loosening(path, i) && view == old(view) && shape.Keys <= old(shape.Keys)
    {
      hide Tree, Loose, Lopped, Indexed;
      var j := 0;
      while j < |p.children| && p.children[j] != path[i]
        invariant j <= |p.children| && path[i] !in p.children[..j]
      {
        assert p.children[..j + 1] == p.children[..j] + [p.children[j]];
        j := j + 1;
      }
      assert p.children[..|p.children|] == p.children;
      NodeLeaves(shape, par, root, path, i, j, objs, view, maxElem);
      ghost var cs := SwapRemoved(shape[p].children, j);
      DropChild(p, j, path[i]);
      LoosenBy(Lopped(shape, path[i], p, cs), par - {path[i]}, view, path, i);
    }

    method Retidy(path: seq<RectNode>, i: nat, n: RectNode)
      requires i < |path| && Loosening(path, i + 1) && n == path[i] && n in shape && shape[n].children != [] &&
               shape[n].depth > 0
      requires forall c :: c in shape[n].children ==> c in shape
      modifies this`shape, this`par, this`view, n`box
      ensures Loosening(path, i) && view == old(view) && shape.Keys == old(shape.Keys)
    {
      hide Tree, OnPath, Union;
      NodeTidied(shape, par, root, path, i, maxElem);
      ghost var b := Union(shape, shape[n].children);
      BoxIndexed(shape, n, b, objs, view);
      CalcAbox(n, shape[n].children);
      LoosenBy(WithBox(shape, n, b), par, view, path, i);
    }

    // Starts afresh with an empty leaf as the root.
    method Clear()
      requires Elems()
      modifies this
      ensures Valid() && view == map[] && shape.Keys == {root} && fresh(root)
    {
      var r := new RectNode();
      r.depth := 1;
      r.box := EMPTY_BOX;
      root, objs, par, view := r, map[], map[], map[];
      shape := map[r := Rec([], true, 1, 0, EMPTY_BOX)];
    }

    method RemoveNode(item: RectNode) returns (r: Code)
      requires Leaving(item)
      modifies this, shape.Keys
      ensures r == Success && Valid() && view == old(view) - {old(shape[item].id)}
      ensures shape.Keys <= old(shape.Keys) || (shape.Keys == {root} && fresh(root))
    {
      hide Loosening, Tree, Boxed, AtLeaf, Indexed;
      var path, leaf, k := FindLeaf(item);
      TakeOut(path, leaf, k, item);
      MergeNode(path + [leaf]);
      return Success;
    }

    // Removes the object with the id, if there is one.
    method Remove(id: int) returns (r: Code)
      requires Valid()
      modifies this, shape.Keys
      ensures Valid() && r == if id <= 0 then ErrorInvalidArg else Success
      ensures view == if id <= 0 then old(view) else old(view) - {id}
      ensures fresh(shape.Keys - old(shape.Keys))
    {
      if id <= 0 {
        return ErrorInvalidArg;
      }
      Evict(id);
      return Success;
    }

    // The object with the id goes, if there is one.
    method Evict(id: int)
      requires Valid()
      modifies this, shape.Keys
      ensures Valid() && id !in objs && view == old(view) - {id} && fresh(shape.Keys - old(shape.Keys))
      ensures id !in old(view) && old(AtLeast(shape, root, minElem)) ==> AtLeast(shape, root, minElem)
    {
      if id in objs {
        var item := objs[id];
        Unindex(id, item);
        var r := RemoveNode(item);
      } else {
        assert view - {id} == view;
      }
    }

    // The object's entry goes from the index.
    method Unindex(id: int, item: RectNode)
      requires Valid() && id in objs && objs[id] == item
      modifies this`objs
      ensures Leaving(item) && shape[item].id == id
    {
      assert (objs - {id})[id := item] == objs;
      objs := objs - {id};
    }

    // Inserts an object; one with the same id goes first.
    method Insert(id: int, box: Box) returns (r: Code)
      requires Valid() && Proper(box)
      modifies this, shape.Keys
      ensures Valid() && r == if id <= 0 then ErrorInvalidArg else Success
      ensures view == if id <= 0 then old(view) else old(view)[id := box]
      ensures fresh(shape.Keys - old(shape.Keys))
      ensures id !in old(view) && old(AtLeast(shape, root, minElem)) ==> AtLeast(shape, root, minElem)
    {
      if id <= 0 {
        return ErrorInvalidArg;
      }
      Replace(id, box);
      return Success;
    }

    method Replace(id: int, box: Box)
      requires Valid() && Proper(box) && id > 0
      modifies this, shape.Keys
      ensures Valid() && view == old(view)[id := box] && fresh(shape.Keys - old(shape.Keys))
      ensures id !in old(view) && old(AtLeast(shape, root, minElem)) ==> AtLeast(shape, root, minElem)
    {
      hide Valid, AtLeast;
      Evict(id);
      assert (old(view) - {id})[id := box] == old(view)[id := box];
      ghost var mid := shape.Keys;
      ghost var added;
      ghost var e;
      e, added := InsertNew(id, box);
      assert forall n :: n in shape.Keys <==> n in mid || n == e || n in added;
    }

    // All objects, each once.
    method AllObjs() returns (result: seq<RectNode>)
      requires Valid()
      ensures NoDup(result) && forall e :: e in result <==> e in shape && shape[e].depth == 0
    {
      var stopped;
      var q := Query(root.box, _ => true, 0);
      StartHunt(q);
      result, stopped := CheckObjs(root, [], q, {});
      EndHunt(q, {}, result);
      forall e | e in shape && shape[e].depth == 0 ensures Match(shape, q.box, q.check, e) {
        AllUnderRoot(shape, par, root, e);
        InsideBelow(shape, par, root, q.box, root, e);
      }
    }

    // Whether any object meets the box and passes the test.
    method IsCollide(box: Box, check: Check) returns (yes: bool)
      requires Valid()
      ensures yes <==> exists id :: id in view && Intersect(box, view[id]) && check(view[id])
    {
      var result := Collide(box, 1, check);
      yes := result != [];
      if yes {
        var id := result[0].id;
        assert result[0] in result && id in view && Intersect(box, view[id]);
      } else {
        forall id | id in view ensures !(Intersect(box, view[id]) && check(view[id])) {
          assert !Match(shape, box, check, objs[id]);
        }
      }
    }
  }
}
