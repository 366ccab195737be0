// The walk that looks for an object's leaf: down through the nodes that contain its box, right when they
// do not, back up when there is nothing more to the right. It keeps a stack of nodes and of their
// positions. The walk never goes past the object, and never comes to a node twice.
module RectWalk {
  import opened Geometry
  import opened RectNodes
  import opened RectPrune
  import opened RectShape

  // The stack: inner nodes from the root down, each at its recorded position.
  ghost predicate OnStack(sh: Shape, par: Parents, root: RectNode, path: seq<RectNode>, indexes: seq<int>) {
    && Tree(sh, par, root) && |indexes| == |path| && (path != [] ==> path[0] == root)
    && (forall j :: 0 <= j < |path| ==> path[j] in sh && sh[path[j]].depth == sh[root].depth - j > 1)
    && (forall j :: 0 < j < |path| ==>
          0 <= indexes[j] < |sh[path[j - 1]].children| && sh[path[j - 1]].children[indexes[j]] == path[j])
  }

  // The current node is at position i below the top of the stack; none if that is past the end.
  ghost predicate At(sh: Shape, root: RectNode, path: seq<RectNode>, i: int, node: RectNode?, parent: RectNode?)
    requires forall n :: n in path ==> n in sh
  {
    if path == [] then node == root && parent == null
    else
      var cs := sh[path[|path| - 1]].children;
      parent == path[|path| - 1] && 0 <= i <= |cs| && node == if i < |cs| then cs[i] else null
  }

  // The object's ancestor at a level, counted from the root.
  ghost function Level(sh: Shape, par: Parents, root: RectNode, e: RectNode, j: nat): RectNode
    requires Tree(sh, par, root) && e in sh && sh[e].depth == 0 && j <= sh[root].depth
  {
    Up(sh, par, root, e, sh[root].depth - j)
  }

  // The first m nodes of the stack are ancestors of the object; where the walk leaves them it is still
  // left of the object, whose next ancestor is at position x.
  ghost predicate Leading(sh: Shape, par: Parents, root: RectNode, e: RectNode, path: seq<RectNode>,
                          indexes: seq<int>, i: int, m: nat, x: nat)
    requires OnStack(sh, par, root, path, indexes) && e in sh && sh[e].depth == 0
  {
    && m <= |path| < sh[root].depth && (path != [] ==> m >= 1)
    && (forall j :: 0 <= j < m ==> path[j] == Level(sh, par, root, e, j))
    && (m > 0 ==>
          && x < |sh[path[m - 1]].children| && sh[path[m - 1]].children[x] == Level(sh, par, root, e, m)
          && (if m == |path| then i <= x else indexes[m] < x))
  }

  // The first position below path[j] that the walk has not come to.
  function Next(path: seq<RectNode>, indexes: seq<int>, i: int, j: nat): int
    requires |indexes| == |path|
  {
    if j + 1 < |path| then indexes[j + 1] + 1 else i
  }

  // The nodes seen: with each node its parent, and nothing to the right of the walk.
  ghost predicate Seen(sh: Shape, par: Parents, root: RectNode, path: seq<RectNode>, indexes: seq<int>, i: int,
                       seen: set<RectNode>)
    requires OnStack(sh, par, root, path, indexes)
  {
    && seen <= sh.Keys && (path == [] ==> seen == {})
    && (forall c :: c in seen && c in par ==> par[c] in seen)
    && (forall n :: n in path ==> n in seen)
    && (forall j, k :: 0 <= j < |path| && 0 <= k < |sh[path[j]].children| && Next(path, indexes, i, j) <= k ==>
          sh[path[j]].children[k] !in seen)
  }

  datatype Spot = Spot(path: seq<RectNode>, indexes: seq<int>, i: int, node: RectNode?, parent: RectNode?)

  ghost predicate Walk(sh: Shape, par: Parents, root: RectNode, e: RectNode, s: Spot, m: nat, x: nat,
                       seen: set<RectNode>) {
    && OnStack(sh, par, root, s.path, s.indexes) && At(sh, root, s.path, s.i, s.node, s.parent)
    && e in sh && sh[e].depth == 0 && Leading(sh, par, root, e, s.path, s.indexes, s.i, m, x)
    && Seen(sh, par, root, s.path, s.indexes, s.i, seen)
  }

  lemma WalkParent(sh: Shape, par: Parents, root: RectNode, e: RectNode, s: Spot, m: nat, x: nat, seen: set<RectNode>)
    requires Walk(sh, par, root, e, s, m, x, seen) && s.path != []
    ensures s.parent == s.path[|s.path| - 1]
  {
  }

  lemma LevelChild(sh: Shape, par: Parents, root: RectNode, e: RectNode, j: nat) returns (x: nat)
    requires Tree(sh, par, root) && e in sh && sh[e].depth == 0 && j < sh[root].depth
    ensures var a := Level(sh, par, root, e, j);
            a in sh && x < |sh[a].children| && sh[a].children[x] == Level(sh, par, root, e, j + 1)
  {
    UpStep(sh, par, root, e, sh[root].depth - j - 1);
    var a, c := Level(sh, par, root, e, j), Level(sh, par, root, e, j + 1);
    assert par[c] == a && c in sh[a].children;
    x :| 0 <= x < |sh[a].children| && sh[a].children[x] == c;
  }

  lemma WalkStart(sh: Shape, par: Parents, root: RectNode, e: RectNode)
    requires Tree(sh, par, root) && e in sh && sh[e].depth == 0
    ensures Walk(sh, par, root, e, Spot([], [], 0, root, null), 0, 0, {})
  {
  }

  // The walk is at an ancestor of the object.
  ghost predicate OnTrack(s: Spot, m: nat, x: nat) {
    m == |s.path| && (m > 0 ==> s.i == x)
  }

  lemma TrackIsLevel(sh: Shape, par: Parents, root: RectNode, e: RectNode, s: Spot, m: nat, x: nat, seen: set<RectNode>)
    requires Walk(sh, par, root, e, s, m, x, seen) && s.node != null
    ensures s.node in sh && sh[s.node].depth == sh[root].depth - |s.path| >= 1
    ensures OnTrack(s, m, x) <==> s.node == Level(sh, par, root, e, |s.path|)
  {
    if s.path != [] {
      var p := s.path[|s.path| - 1];
      assert NodeOk(sh, par, p);
      if !OnTrack(s, m, x) { OffTrack(sh, par, root, e, s, m, x, seen); }
    }
  }

  lemma OffTrack(sh: Shape, par: Parents, root: RectNode, e: RectNode, s: Spot, m: nat, x: nat, seen: set<RectNode>)
    requires Walk(sh, par, root, e, s, m, x, seen) && s.node != null && s.path != [] && !OnTrack(s, m, x)
    ensures s.node != Level(sh, par, root, e, |s.path|)
  {
    var k := |s.path|;
    var p := s.path[k - 1];
    assert NodeOk(sh, par, p) && par[s.node] == p;
    if s.node == Level(sh, par, root, e, k) {
      UpStep(sh, par, root, e, sh[root].depth - k);
      StackIsLevels(sh, par, root, e, s.path, s.indexes, k - 1);
    }
  }

  // A stack that ends in an ancestor consists of ancestors.
  lemma {:induction false} StackIsLevels(sh: Shape, par: Parents, root: RectNode, e: RectNode, path: seq<RectNode>,
                                         indexes: seq<int>, j: nat)
    requires OnStack(sh, par, root, path, indexes) && e in sh && sh[e].depth == 0 && j < |path| < sh[root].depth
    requires path[j] == Level(sh, par, root, e, j)
    ensures forall k :: 0 <= k <= j ==> path[k] == Level(sh, par, root, e, k)
  {
    if j > 0 {
      assert NodeOk(sh, par, path[j - 1]) && par[path[j]] == path[j - 1];
      UpStep(sh, par, root, e, sh[root].depth - j);
      StackIsLevels(sh, par, root, e, path, indexes, j - 1);
    }
  }

  // Down: the current node goes on the stack, and its first child becomes current.
  ghost function Down(sh: Shape, s: Spot): Spot
    requires s.node != null && s.node in sh
  {
    var cs := sh[s.node].children;
    Spot(s.path + [s.node], s.indexes + [s.i], 0, if cs == [] then null else cs[0], s.node)
  }

  lemma DownSeen(sh: Shape, par: Parents, root: RectNode, e: RectNode, s: Spot, m: nat, x: nat, seen: set<RectNode>)
    requires Walk(sh, par, root, e, s, m, x, seen) && s.node != null && s.node in sh && sh[s.node].depth > 1
    ensures s.node !in seen && OnStack(sh, par, root, s.path + [s.node], s.indexes + [s.i])
    ensures Seen(sh, par, root, s.path + [s.node], s.indexes + [s.i], 0, seen + {s.node})
  {
    var path, indexes := s.path + [s.node], s.indexes + [s.i];
    TrackIsLevel(sh, par, root, e, s, m, x, seen);
    DownStack(sh, par, root, e, s, m, x, seen);
    assert s.node !in seen by {
      if s.path != [] { assert Next(s.path, s.indexes, s.i, |s.path| - 1) <= s.i; }
    }
    forall c | c in seen + {s.node} && c in par ensures par[c] in seen + {s.node} {
      if c == s.node { assert s.path[|s.path| - 1] in s.path; }
    }
    forall j, k | 0 <= j < |path| && 0 <= k < |sh[path[j]].children| && Next(path, indexes, 0, j) <= k
      ensures sh[path[j]].children[k] !in seen + {s.node}
    {
      DownNext(sh, par, root, e, s, m, x, seen, j, k);
    }
  }

  lemma DownStack(sh: Shape, par: Parents, root: RectNode, e: RectNode, s: Spot, m: nat, x: nat, seen: set<RectNode>)
    requires Walk(sh, par, root, e, s, m, x, seen) && s.node != null && s.node in sh && sh[s.node].depth > 1
    ensures OnStack(sh, par, root, s.path + [s.node], s.indexes + [s.i])
    ensures s.path != [] ==> s.node in par && par[s.node] == s.path[|s.path| - 1]
  {
    TrackIsLevel(sh, par, root, e, s, m, x, seen);
    if s.path != [] { assert NodeOk(sh, par, s.path[|s.path| - 1]); }
  }

  lemma DownNext(sh: Shape, par: Parents, root: RectNode, e: RectNode, s: Spot, m: nat, x: nat, seen: set<RectNode>,
                 j: nat, k: nat)
    requires Walk(sh, par, root, e, s, m, x, seen) && s.node != null && s.node in sh && s.node !in seen
    requires j <= |s.path|
    requires var a := if j < |s.path| then s.path[j] else s.node;
             a in sh && k < |sh[a].children| &&
               (j < |s.path| ==> (if j + 1 < |s.path| then s.indexes[j + 1] else s.i) < k)
    ensures sh[if j < |s.path| then s.path[j] else s.node].children[k] !in seen + {s.node}
  {
    var a := if j < |s.path| then s.path[j] else s.node;
    var c := sh[a].children[k];
    assert NodeOk(sh, par, a) && par[c] == a;
    if j < |s.path| {
      assert Next(s.path, s.indexes, s.i, j) <= k;
      assert NodeOk(sh, par, s.path[|s.path| - 1]) && par[s.node] == s.path[|s.path| - 1];
    }
  }

  lemma WalkDown(sh: Shape, par: Parents, root: RectNode, e: RectNode, s: Spot, m: nat, x: nat, seen: set<RectNode>)
    returns (m': nat, x': nat)
    requires Walk(sh, par, root, e, s, m, x, seen) && s.node != null && s.node in sh && sh[s.node].depth > 1
    ensures Walk(sh, par, root, e, Down(sh, s), m', x', seen + {s.node}) && s.node !in seen
  {
    m', x' := m, x;
    TrackIsLevel(sh, par, root, e, s, m, x, seen);
    DownSeen(sh, par, root, e, s, m, x, seen);
    if OnTrack(s, m, x) {
      m' := m + 1;
      x' := LevelChild(sh, par, root, e, m);
    }
  }

  // Right: the next child of the top of the stack.
  ghost function Right(sh: Shape, s: Spot): Spot
    requires s.path != [] && s.path[|s.path| - 1] in sh && s.i >= -1
  {
    var cs := sh[s.path[|s.path| - 1]].children;
    s.(i := s.i + 1, node := if s.i + 1 < |cs| then cs[s.i + 1] else null)
  }

  lemma WalkRight(sh: Shape, par: Parents, root: RectNode, e: RectNode, s: Spot, m: nat, x: nat, seen: set<RectNode>)
    requires Walk(sh, par, root, e, s, m, x, seen) && s.node != null && s.node in sh && s.path != [] &&
             !OnTrack(s, m, x)
    ensures s.path[|s.path| - 1] in sh && Walk(sh, par, root, e, Right(sh, s), m, x, seen + {s.node}) && s.node !in seen
  {
    var t, p := Right(sh, s), s.path[|s.path| - 1];
    assert NodeOk(sh, par, p);
    assert Next(s.path, s.indexes, s.i, |s.path| - 1) <= s.i;
    assert Seen(sh, par, root, t.path, t.indexes, t.i, seen + {s.node}) by {
      assert p in s.path;
      forall j, k | 0 <= j < |t.path| && 0 <= k < |sh[t.path[j]].children| && Next(t.path, t.indexes, t.i, j) <= k
        ensures sh[t.path[j]].children[k] !in seen + {s.node}
      {
        DownNext(sh, par, root, e, s, m, x, seen, j, k);
      }
    }
  }

  // Back: the top of the stack comes off, and the walk goes right of it.
  function Back(s: Spot): Spot
    requires |s.path| >= 2 && |s.indexes| == |s.path|
  {
    Spot(s.path[..|s.path| - 1], s.indexes[..|s.path| - 1], s.indexes[|s.path| - 1], s.path[|s.path| - 1],
      s.path[|s.path| - 2])
  }

  lemma WalkBack(sh: Shape, par: Parents, root: RectNode, e: RectNode, s: Spot, m: nat, x: nat, seen: set<RectNode>)
    requires Walk(sh, par, root, e, s, m, x, seen) && s.node == null
    ensures |s.path| >= 2 && |s.indexes| == |s.path| && s.path[|s.path| - 2] in sh && s.indexes[|s.path| - 1] >= 0
    ensures Walk(sh, par, root, e, Right(sh, Back(s)), m, x, seen)
  {
    StackTwo(sh, par, root, e, s, m, x, seen);
    var t := Right(sh, Back(s));
    assert t.path == s.path[..|s.path| - 1];
    BackSeen(sh, par, root, e, s, m, x, seen, t);
    BackLeads(sh, par, root, e, s, m, x, seen, t);
  }

  lemma StackTwo(sh: Shape, par: Parents, root: RectNode, e: RectNode, s: Spot, m: nat, x: nat, seen: set<RectNode>)
    requires Walk(sh, par, root, e, s, m, x, seen) && s.node == null
    ensures |s.path| >= 2 && |s.indexes| == |s.path| && s.path[|s.path| - 2] in sh && s.indexes[|s.path| - 1] >= 0
    ensures m < |s.path|
  {
  }

  lemma BackSeen(sh: Shape, par: Parents, root: RectNode, e: RectNode, s: Spot, m: nat, x: nat, seen: set<RectNode>,
                 t: Spot)
    requires Walk(sh, par, root, e, s, m, x, seen) && s.node == null && |s.path| == |s.indexes| >= 2
    requires s.path[|s.path| - 2] in sh && t == Right(sh, Back(s))
    ensures OnStack(sh, par, root, t.path, t.indexes) && Seen(sh, par, root, t.path, t.indexes, t.i, seen)
  {
    hide Leading, At, Tree;
    forall j, y | 0 <= j < |t.path| && 0 <= y < |sh[t.path[j]].children| && Next(t.path, t.indexes, t.i, j) <= y
      ensures sh[t.path[j]].children[y] !in seen
    {
      assert Next(t.path, t.indexes, t.i, j) == Next(s.path, s.indexes, s.i, j);
    }
  }

  lemma BackLeads(sh: Shape, par: Parents, root: RectNode, e: RectNode, s: Spot, m: nat, x: nat, seen: set<RectNode>,
                  t: Spot)
    requires Walk(sh, par, root, e, s, m, x, seen) && s.node == null && |s.path| == |s.indexes| >= 2
    requires s.path[|s.path| - 2] in sh && t == Right(sh, Back(s)) && OnStack(sh, par, root, t.path, t.indexes)
    ensures At(sh, root, t.path, t.i, t.node, t.parent) && Leading(sh, par, root, e, t.path, t.indexes, t.i, m, x)
  {
  }

  // Every step but going back comes to a node not seen before.
  lemma SeesMore(sh: Shape, seen: set<RectNode>, n: RectNode)
    requires seen <= sh.Keys && n in sh && n !in seen
    ensures |sh.Keys - (seen + {n})| < |sh.Keys - seen|
  {
    assert sh.Keys - seen == sh.Keys - (seen + {n}) + {n};
  }

  // A node the walk turns away from, because it is a leaf without the object or its box does not contain
  // the object's, is no ancestor of the object.
  lemma TurnsAway(sh: Shape, par: Parents, root: RectNode, e: RectNode, s: Spot, m: nat, x: nat, seen: set<RectNode>)
    requires Walk(sh, par, root, e, s, m, x, seen) && s.node != null && s.node in sh && Boxed(sh, par, root)
    requires if sh[s.node].depth == 1 then e !in sh[s.node].children else !Contain(sh[s.node].box, sh[e].box)
    ensures s.path != [] && !OnTrack(s, m, x)
  {
    TrackIsLevel(sh, par, root, e, s, m, x, seen);
    if s.node == Level(sh, par, root, e, |s.path|) {
      if sh[s.node].depth == 1 {
        UpStep(sh, par, root, e, 0);
      } else {
        BoxContains(sh, par, root, e, sh[s.node].depth);
      }
    }
  }

  // The stack and the current node form a path.
  lemma StackIsPath(sh: Shape, par: Parents, root: RectNode, e: RectNode, s: Spot, m: nat, x: nat, seen: set<RectNode>)
    requires Walk(sh, par, root, e, s, m, x, seen) && s.node != null
    ensures OnPath(sh, par, root, s.path + [s.node], |s.path| + 1)
  {
    var path := s.path + [s.node];
    TrackIsLevel(sh, par, root, e, s, m, x, seen);
    forall j | 0 < j < |path| ensures path[j] in par && par[path[j]] == path[j - 1] {
      assert NodeOk(sh, par, s.path[j - 1]);
    }
  }
}
