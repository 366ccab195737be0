// What an insertion measures to choose a subtree and to divide a node: unions, margins, overlaps.
module RectMeasure {
  import opened Geometry
  import opened RectEdit
  import opened RectNodes
  import opened RectShape
  import opened Sequences

  // The nodes' boxes are those of the shape.
  ghost predicate Sized(sh: Shape, cs: seq<RectNode>)
    reads cs
  {
    forall c :: c in cs ==> c in sh && c.box == sh[c].box
  }

  // And they are proper.
  ghost predicate Measurable(sh: Shape, cs: seq<RectNode>)
    reads cs
  {
    forall c :: c in cs ==> c in sh && c.box == sh[c].box && Proper(sh[c].box)
  }

  ghost predicate AllProper(sh: Shape, cs: seq<RectNode>) {
    forall c :: c in cs ==> c in sh && Proper(sh[c].box)
  }

  lemma UnionProper(sh: Shape, cs: seq<RectNode>)
    requires AllProper(sh, cs) && cs != []
    ensures Proper(Union(sh, cs))
  {
    assert cs[0] in cs;
    UnionCovers(sh, cs);
    UnionIsLeast(sh, cs, Box(1 - COORD, 1 - COORD, COORD - 1, COORD - 1));
  }

  // Nodes outside ns are exact and have children, and those are outside ns too.
  ghost predicate SoundOff(sh: Shape, ns: seq<RectNode>) {
    && ChildrenIn(sh) && BoxesFit(sh)
    && forall n {:trigger Exact(sh, n)} :: n in sh && n !in ns && sh[n].depth != 0 ==>
         sh[n].children != [] && Exact(sh, n) && forall c :: c in sh[n].children ==>
           c !in ns && 0 <= sh[c].depth < sh[n].depth
  }

  lemma {:induction false} ProperOff(sh: Shape, ns: seq<RectNode>, n: RectNode)
    requires SoundOff(sh, ns) && n in sh && n !in ns && sh[n].depth >= 0
    ensures Proper(sh[n].box)
    decreases sh[n].depth
  {
    if sh[n].depth > 0 {
      assert Exact(sh, n);
      forall c | c in sh[n].children ensures c in sh && Proper(sh[c].box) { ProperOff(sh, ns, c); }
      UnionProper(sh, sh[n].children);
    }
  }

  // The box around some of the children.
  method DistAbox(cs: seq<RectNode>, s: nat, e: nat, ghost sh: Shape) returns (box: Box)
    requires Sized(sh, cs) && s <= e <= |cs|
    ensures box == Union(sh, cs[s..e])
  {
    box := EMPTY_BOX;
    var i := s;
    while i < e && i < |cs|
      invariant s <= i <= e && box == Union(sh, cs[s..i])
    {
      UnionSnoc(sh, cs, s, i);
      box := Extend(box, cs[i].box);
      i := i + 1;
    }
  }

  lemma UnionSnoc(sh: Shape, cs: seq<RectNode>, s: nat, i: nat)
    requires (forall c :: c in cs ==> c in sh) && s <= i < |cs|
    ensures Union(sh, cs[s..i + 1]) == Extend(Union(sh, cs[s..i]), sh[cs[i]].box)
  {
    assert cs[s..i + 1][..i - s] == cs[s..i];
  }

  // The same children in another order.
  ghost predicate Arranged(cs: seq<RectNode>, r: seq<RectNode>) {
    |r| == |cs| && NoDup(r) && (forall c :: c in cs ==> c in r) && (forall c :: c in r ==> c in cs)
  }

  function Key(b: Box, byX: bool): int {
    if byX then b.minX else b.minY
  }

  ghost predicate Ordered(sh: Shape, cs: seq<RectNode>, byX: bool)
    requires forall c :: c in cs ==> c in sh
  {
    forall i, j :: 0 <= i < j < |cs| ==> Key(sh[cs[i]].box, byX) <= Key(sh[cs[j]].box, byX)
  }

  method SortChildren(cs: seq<RectNode>, byX: bool, ghost sh: Shape) returns (r: seq<RectNode>)
    requires Measurable(sh, cs) && NoDup(cs)
    ensures Arranged(cs, r) && Measurable(sh, r) && Ordered(sh, r, byX)
  {
    r := [];
    var i := 0;
    while i < |cs|
      invariant i <= |cs| && Arranged(cs[..i], r) && Measurable(sh, r) && Ordered(sh, r, byX)
    {
      assert cs[i] !in cs[..i];
      assert cs[..i + 1] == cs[..i] + [cs[i]];
      r := Place(r, cs[i], byX, sh);
      i := i + 1;
    }
    assert cs[..i] == cs;
  }

  method Place(cs: seq<RectNode>, n: RectNode, byX: bool, ghost sh: Shape) returns (r: seq<RectNode>)
    requires Measurable(sh, cs) && Measurable(sh, [n]) && NoDup(cs) && n !in cs && Ordered(sh, cs, byX)
    ensures |r| == |cs| + 1 && NoDup(r) && (forall c :: c in r <==> c in cs || c == n)
    ensures Measurable(sh, r) && Ordered(sh, r, byX)
  {
    var j := |cs|;
    assert n in [n];
    while j > 0 && Key(n.box, byX) < Key(cs[j - 1].box, byX)
      invariant 0 <= j <= |cs| && forall k :: j <= k < |cs| ==> Key(sh[n].box, byX) < Key(sh[cs[k]].box, byX)
    {
      j := j - 1;
    }
    r := cs[..j] + [n] + cs[j..];
    Placed(cs, n, j, r);
    assert forall k :: 0 <= k < j ==> Key(sh[cs[k]].box, byX) <= Key(sh[cs[j - 1]].box, byX);
    PlacedOrdered(sh, cs, n, j, r, byX);
  }

  lemma PlacedOrdered(sh: Shape, cs: seq<RectNode>, n: RectNode, j: nat, r: seq<RectNode>, byX: bool)
    requires (forall c :: c in cs ==> c in sh) && (forall c :: c in r ==> c in sh) && n in sh && Ordered(sh, cs, byX)
    requires j <= |cs| && r == cs[..j] + [n] + cs[j..]
    requires forall k :: 0 <= k < j ==> Key(sh[cs[k]].box, byX) <= Key(sh[n].box, byX)
    requires forall k :: j <= k < |cs| ==> Key(sh[n].box, byX) <= Key(sh[cs[k]].box, byX)
    ensures Ordered(sh, r, byX)
  {
    hide Key;
    assert forall k :: 0 <= k < |r| ==> r[k] == if k < j then cs[k] else if k == j then n else cs[k - 1];
  }

  lemma Placed(cs: seq<RectNode>, n: RectNode, j: nat, r: seq<RectNode>)
    requires NoDup(cs) && n !in cs && j <= |cs| && r == cs[..j] + [n] + cs[j..]
    ensures NoDup(r) && forall c :: c in r <==> c in cs || c == n
  {
    assert forall k :: 0 <= k < |r| ==> r[k] == if k < j then cs[k] else if k == j then n else cs[k - 1];
    assert r[j] == n && forall k :: 0 <= k < |cs| ==> cs[k] == r[if k < j then k else k + 1];
  }

  // The margins of the growing left groups, of lo to hi - 1 children.
  ghost function LeftMargins(sh: Shape, cs: seq<RectNode>, lo: nat, hi: nat): int
    requires lo <= hi <= |cs| + 1 && forall c :: c in cs ==> c in sh
    decreases hi - lo
  {
    if lo == hi then 0 else LeftMargins(sh, cs, lo, hi - 1) + BoxMargin(Union(sh, cs[..hi - 1]))
  }

  // The margin sum of a distribution along an axis. The right group starts as everything but the first
  // and the last minElem children and is extended by what it holds already: its box never grows.
  ghost function Margins(sh: Shape, cs: seq<RectNode>, minElem: nat): int
    requires 2 * minElem <= |cs| && forall c :: c in cs ==> c in sh
  {
    LeftMargins(sh, cs, minElem, |cs| - minElem + 1)
    + (|cs| - 2 * minElem + 1) * BoxMargin(Union(sh, cs[minElem..|cs| - minElem]))
  }

  method DistMargin(cs: seq<RectNode>, minElem: nat, byX: bool, ghost sh: Shape) returns (r: seq<RectNode>, margin: int)
    requires Measurable(sh, cs) && NoDup(cs) && 2 * minElem <= |cs|
    ensures Arranged(cs, r) && Measurable(sh, r) && Ordered(sh, r, byX) && margin == Margins(sh, r, minElem)
  {
    r := SortChildren(cs, byX, sh);
    var left := GrowLeft(r, minElem, sh);
    var right := GrowRight(r, minElem, sh);
    margin := left + right;
  }

  method GrowLeft(cs: seq<RectNode>, minElem: nat, ghost sh: Shape) returns (margin: int)
    requires Measurable(sh, cs) && 2 * minElem <= |cs|
    ensures margin == LeftMargins(sh, cs, minElem, |cs| - minElem + 1)
  {
    var leftBox := DistAbox(cs, 0, minElem, sh);
    assert cs[0..minElem] == cs[..minElem];
    margin := BoxMargin(leftBox);
    var i := minElem;
    while i < |cs| - minElem
      invariant minElem <= i <= |cs| - minElem && leftBox == Union(sh, cs[..i]) &&
                margin == LeftMargins(sh, cs, minElem, i + 1)
    {
      UnionSnoc(sh, cs, 0, i);
      leftBox := Extend(leftBox, cs[i].box);
      margin := margin + BoxMargin(leftBox);
      i := i + 1;
    }
  }

  method GrowRight(cs: seq<RectNode>, minElem: nat, ghost sh: Shape) returns (margin: int)
    requires Measurable(sh, cs) && 2 * minElem <= |cs|
    ensures margin == (|cs| - 2 * minElem + 1) * BoxMargin(Union(sh, cs[minElem..|cs| - minElem]))
  {
    hide Extend, Union, BoxMargin;
    var count := |cs|;
    var rightBox := DistAbox(cs, minElem, count - minElem, sh);
    ghost var middle := cs[minElem..count - minElem];
    ghost var m := BoxMargin(rightBox);
    margin := BoxMargin(rightBox);
    UnionCovers(sh, middle);
    var i := count - minElem - 1;
    while i >= minElem && i < count
      invariant minElem - 1 <= i < count - minElem && rightBox == Union(sh, middle)
      invariant margin == (count - minElem - i) * m && m == BoxMargin(rightBox)
    {
      assert middle[i - minElem] == cs[i] && middle[i - minElem] in middle;
      ContainAntisymmetric(Extend(rightBox, cs[i].box), rightBox);
      rightBox := Extend(rightBox, cs[i].box);
      NextMultiple(count - minElem - i, m);
      margin := margin + BoxMargin(rightBox);
      i := i - 1;
    }
  }

  lemma NextMultiple(k: int, m: int)
    ensures (k + 1) * m == k * m + m
  {
  }

  // How much the boxes of the two groups overlap when the first i children go left.
  ghost function Overlap(sh: Shape, cs: seq<RectNode>, i: nat): int
    requires i <= |cs| && forall c :: c in cs ==> c in sh
  {
    IntersectArea(Union(sh, cs[..i]), Union(sh, cs[i..]))
  }

  ghost function Areas(sh: Shape, cs: seq<RectNode>, i: nat): int
    requires i <= |cs| && forall c :: c in cs ==> c in sh
  {
    BoxArea(Union(sh, cs[..i])) + BoxArea(Union(sh, cs[i..]))
  }

  // The index at which two groups of at least minElem children overlap least. Among those that overlap
  // equally its area is below that of all earlier ones; but a later one is preferred only when its area is
  // below the least accepted so far, whichever overlap that one had.
  method ChooseSplitIndex(cs: seq<RectNode>, minElem: nat, ghost sh: Shape) returns (index: int, ghost least: int)
    requires Measurable(sh, cs) && 1 <= minElem && 2 * minElem <= |cs|
    ensures minElem <= least <= index <= |cs| - minElem
    ensures forall i :: minElem <= i <= |cs| - minElem ==> Overlap(sh, cs, index) <= Overlap(sh, cs, i)
    ensures forall i :: minElem <= i < index && Overlap(sh, cs, i) == Overlap(sh, cs, index) ==>
      Areas(sh, cs, index) < Areas(sh, cs, i)
    ensures forall i :: index < i <= |cs| - minElem && Overlap(sh, cs, i) == Overlap(sh, cs, index) ==>
      Areas(sh, cs, least) <= Areas(sh, cs, i)
  {
    hide Overlap, Areas;
    var count := |cs|;
    index := -1;
    least := -1;
    var minOverlap, minArea := 2 * AREA - 1, 2 * AREA - 1;
    var i := minElem;
    while i <= count - minElem
      invariant minElem <= i <= count - minElem + 1
      invariant i == minElem ==> index == least == -1 && minOverlap == minArea == 2 * AREA - 1
      invariant i > minElem ==>
        minElem <= least <= index < i && minOverlap == Overlap(sh, cs, index) && minArea == Areas(sh, cs, least)
      invariant forall j :: minElem <= j < i ==>
        minOverlap <= Overlap(sh, cs, j) && (Overlap(sh, cs, j) == minOverlap ==> minArea <= Areas(sh, cs, j))
      invariant forall j :: minElem <= j < index && Overlap(sh, cs, j) == minOverlap ==>
        Areas(sh, cs, index) < Areas(sh, cs, j)
    {
      var overlap, area := MeasureSplit(cs, i, sh);
      if overlap < minOverlap {
        minOverlap := overlap;
        index := i;
        if area < minArea { least := i; }
        minArea := if area < minArea then area else minArea;
      } else if overlap == minOverlap {
        if area < minArea {
          minArea := area;
          index, least := i, i;
        }
      }
      i := i + 1;
    }
    if index < 0 { index := count - minElem; }
  }

  method MeasureSplit(cs: seq<RectNode>, i: nat, ghost sh: Shape) returns (overlap: int, area: int)
    requires Measurable(sh, cs) && 0 < i < |cs|
    ensures overlap == Overlap(sh, cs, i) && 0 <= overlap < AREA
    ensures area == Areas(sh, cs, i) && 0 <= area < 2 * AREA - 1
  {
    var box1 := DistAbox(cs, 0, i, sh);
    var box2 := DistAbox(cs, i, |cs|, sh);
    assert cs[0..i] == cs[..i] && cs[i..|cs|] == cs[i..];
    UnionProper(sh, cs[..i]);
    UnionProper(sh, cs[i..]);
    AreasFit(box1, box2);
    AreasFit(box2, box1);
    overlap := IntersectArea(box1, box2);
    area := BoxArea(box1) + BoxArea(box2);
  }

  ghost function Enlargement(sh: Shape, c: RectNode, box: Box): int
    requires c in sh
  {
    EnlargeArea(box, sh[c].box) - BoxArea(sh[c].box)
  }

  // The child at this index is the one whose box has to grow least. Ties go by area as those of a division do:
  // its area is below that of earlier ones, and no later one's is below that of the child at least.
  ghost predicate ChosenAt(sh: Shape, cs: seq<RectNode>, box: Box, at: nat, least: nat)
    requires least <= at < |cs| && AllIn(sh, cs)
  {
    && (forall c :: c in cs ==> Enlargement(sh, cs[at], box) <= Enlargement(sh, c, box))
    && (forall j :: 0 <= j < at && Enlargement(sh, cs[j], box) == Enlargement(sh, cs[at], box) ==>
          BoxArea(sh[cs[at]].box) < BoxArea(sh[cs[j]].box))
    && (forall j :: at < j < |cs| && Enlargement(sh, cs[j], box) == Enlargement(sh, cs[at], box) ==>
          BoxArea(sh[cs[least]].box) <= BoxArea(sh[cs[j]].box))
  }

  ghost predicate Chosen(sh: Shape, cs: seq<RectNode>, box: Box, c: RectNode)
  {
    exists at: nat, least: nat :: least <= at < |cs| && AllIn(sh, cs) && cs[at] == c && ChosenAt(sh, cs, box, at, least)
  }

  ghost predicate AllIn(sh: Shape, cs: seq<RectNode>) {
    forall c :: c in cs ==> c in sh
  }

  method LeastEnlarged(cs: seq<RectNode>, box: Box, ghost sh: Shape)
    returns (target: RectNode, ghost at: nat, ghost least: int)
    requires Measurable(sh, cs) && cs != [] && Proper(box)
    ensures 0 <= least <= at < |cs| && target == cs[at] && ChosenAt(sh, cs, box, at, least)
  {
    var minArea, minEnlarge := 2 * AREA - 1, 2 * AREA - 1;
    target, at, least := cs[0], 0, -1;
    var i := 0;
    while i < |cs|
      invariant i <= |cs| && (i == 0 ==> at == 0 && minEnlarge == minArea == 2 * AREA - 1)
      invariant i > 0 ==> 0 <= least <= at < i && target == cs[at] && minEnlarge == Enlargement(sh, target, box)
      invariant i > 0 ==> minArea == BoxArea(sh[cs[least]].box)
      invariant forall j :: 0 <= j < i ==>
        minEnlarge <= Enlargement(sh, cs[j], box) &&
          (Enlargement(sh, cs[j], box) == minEnlarge ==> minArea <= BoxArea(sh[cs[j]].box))
      invariant forall j :: 0 <= j < at && Enlargement(sh, cs[j], box) == minEnlarge ==>
        BoxArea(sh[target].box) < BoxArea(sh[cs[j]].box)
    {
      var c := cs[i];
      AreasFit(box, c.box);
      AreasFit(c.box, box);
      var area := BoxArea(c.box);
      var enlarge := EnlargeArea(box, c.box) - area;
      if enlarge < minEnlarge {
        minEnlarge := enlarge;
        if area < minArea { least := i; }
        minArea := if area < minArea then area else minArea;
        target, at := c, i;
      } else if enlarge == minEnlarge {
        if area < minArea {
          minArea := area;
          target, at, least := c, i, i;
        }
      }
      i := i + 1;
    }
  }

  // Orders the children along the axis with the smaller margins.
  method ChooseSplitAxis(cs: seq<RectNode>, minElem: nat, ghost sh: Shape)
    returns (r: seq<RectNode>, ghost xs: seq<RectNode>, ghost ys: seq<RectNode>)
    requires Measurable(sh, cs) && NoDup(cs) && 2 * minElem <= |cs|
    ensures Arranged(cs, xs) && Arranged(cs, ys) && Arranged(cs, r) && Measurable(sh, r) && Measurable(sh, xs) &&
            Measurable(sh, ys)
    ensures Ordered(sh, xs, true) && Ordered(sh, ys, false)
    ensures Ordered(sh, r, Margins(sh, xs, minElem) < Margins(sh, ys, minElem))
  {
    var xMargin, yMargin;
    r, xMargin := DistMargin(cs, minElem, true, sh);
    xs := r;
    r, yMargin := DistMargin(r, minElem, false, sh);
    ys := r;
    if xMargin < yMargin { r := SortChildren(r, true, sh); }
  }

  // Where a node with one child too many is divided: sorted along the axis of least margins, at the
  // index of least overlap.
  ghost predicate Divided(sh: Shape, cs: seq<RectNode>, minElem: nat, left: seq<RectNode>, right: seq<RectNode>)
    requires 2 * minElem <= |cs| && forall c :: c in cs ==> c in sh
  {
    && Arranged(cs, left + right) && minElem <= |left| && minElem <= |right|
    && (exists byX :: Ordered(sh, left + right, byX))
    && (forall i :: minElem <= i <= |cs| - minElem ==>
          Overlap(sh, left + right, |left|) <= Overlap(sh, left + right, i))
  }

  lemma DividedAt(sh: Shape, cs: seq<RectNode>, minElem: nat, r: seq<RectNode>, index: nat, byX: bool)
    requires 2 * minElem <= |cs| && (forall c :: c in cs ==> c in sh) && (forall c :: c in r ==> c in sh)
    requires Arranged(cs, r) && Ordered(sh, r, byX) && minElem <= index <= |cs| - minElem
    requires forall i :: minElem <= i <= |cs| - minElem ==> Overlap(sh, r, index) <= Overlap(sh, r, i)
    ensures Divided(sh, cs, minElem, r[..index], r[index..])
  {
    hide Overlap;
    assert r[..index] + r[index..] == r;
  }

  lemma DividedHalves(sh: Shape, cs: seq<RectNode>, minElem: nat, left: seq<RectNode>, right: seq<RectNode>)
    requires 1 <= minElem && 2 * minElem <= |cs| && (forall c :: c in cs ==> c in sh) &&
             Divided(sh, cs, minElem, left, right)
    ensures left != [] && right != [] && NoDup(left + right) && |left| + |right| == |cs|
    ensures (forall c :: c in cs ==> c in left || c in right) && (forall c :: c in left ==> c in cs) &&
            (forall c :: c in right ==> c in cs)
  {
    assert forall c :: c in left + right <==> c in left || c in right;
  }

  // A path that goes down through the children that need least enlargement.
  ghost predicate LeastGrowing(sh: Shape, path: seq<RectNode>, box: Box) {
    forall i :: 0 < i < |path| && path[i - 1] in sh ==> Chosen(sh, sh[path[i - 1]].children, box, path[i])
  }

  lemma LongerPath(sh: Shape, par: Parents, root: RectNode, path: seq<RectNode>, at: nat, least: nat, box: Box)
    requires IsPath(sh, par, root, path) && LeastGrowing(sh, path, box) && sh[path[|path| - 1]].depth > 1
    requires var cs := sh[path[|path| - 1]].children;
             least <= at < |cs| && AllIn(sh, cs) && ChosenAt(sh, cs, box, at, least)
    ensures var c := sh[path[|path| - 1]].children[at];
            IsPath(sh, par, root, path + [c]) && LeastGrowing(sh, path + [c], box)
  {
    var cs := sh[path[|path| - 1]].children;
    assert NodeOk(sh, par, path[|path| - 1]) && Chosen(sh, cs, box, cs[at]);
    assert forall i :: 0 <= i < |path| ==> (path + [cs[at]])[i] == path[i];
  }

  lemma SoundOffPath(sh: Shape, par: Parents, root: RectNode, path: seq<RectNode>, box: Box, maxElem: nat)
    requires |path| >= 1 && Extending(sh, par, root, path, |path| - 1, box) &&
             FilledBut(sh, root, maxElem, path[|path| - 1])
    ensures SoundOff(sh, path) && sh[path[|path| - 1]].children != []
  {
    assert path[..|path| - 1 + 1] == path && root in path;
    forall n | n in sh && n !in path && sh[n].depth != 0
      ensures sh[n].children != [] && Exact(sh, n) && forall c :: c in sh[n].children ==>
        c !in path && 0 <= sh[c].depth < sh[n].depth
    {
      assert NodeOk(sh, par, n);
      OffPath(sh, par, root, path, n);
    }
  }

  // The children of a node off a path are off it too.
  lemma OffPath(sh: Shape, par: Parents, root: RectNode, path: seq<RectNode>, n: RectNode)
    requires IsPath(sh, par, root, path) && n in sh && n !in path
    ensures forall c :: c in sh[n].children ==> c !in path
  {
    forall i | 0 <= i < |path| ensures path[i] !in sh[n].children {
      OnlyParent(sh, par, root, path, i, n);
      assert i > 0 ==> path[i - 1] in path;
    }
  }

  lemma BelowPathProper(sh: Shape, par: Parents, root: RectNode, path: seq<RectNode>, box: Box, maxElem: nat)
    requires |path| >= 1 && Extending(sh, par, root, path, |path| - 1, box) &&
             FilledBut(sh, root, maxElem, path[|path| - 1])
    ensures AllProper(sh, sh[path[|path| - 1]].children)
  {
    SoundOffPath(sh, par, root, path, box, maxElem);
    var n := path[|path| - 1];
    assert NodeOk(sh, par, n);
    forall c | c in sh[n].children ensures c in sh && Proper(sh[c].box) {
      forall i | 0 <= i < |path| ensures path[i] != c { assert NodeOk(sh, par, n) && sh[path[i]].depth >= sh[n].depth; }
      assert NodeOk(sh, par, c);
      ProperOff(sh, path, c);
    }
  }

  // In a whole tree every box but that of an empty root is proper.
  lemma BoxesProper(sh: Shape, par: Parents, root: RectNode, maxElem: nat, n: RectNode)
    requires Tree(sh, par, root) && Boxed(sh, par, root) && Filled(sh, root, maxElem) && n in sh
    ensures AllProper(sh, sh[n].children)
  {
    TreeChildrenIn(sh, par, root);
    forall m | m in sh && m !in [root] && sh[m].depth != 0
      ensures sh[m].children != [] && Exact(sh, m) && forall c :: c in sh[m].children ==>
        c !in [root] && 0 <= sh[c].depth < sh[m].depth
    {
      assert NodeOk(sh, par, m);
    }
    assert NodeOk(sh, par, n);
    forall c | c in sh[n].children ensures c in sh && Proper(sh[c].box) {
      assert NodeOk(sh, par, c);
      ProperOff(sh, [root], c);
    }
  }
}
