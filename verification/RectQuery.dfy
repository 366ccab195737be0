// Searching an R-tree: what a worklist of subtrees and the results so far must satisfy, and the steps
// that keep it.
module RectQuery {
  import opened Geometry
  import opened RectNodes
  import opened RectShape
  import opened Sequences
  import opened SpatialIndex

  // The linear scan's test.
  ghost predicate Match(sh: Shape, q: Box, check: Check, e: RectNode) {
    e in sh && sh[e].depth == 0 && Intersect(q, sh[e].box) && check(sh[e].box)
  }

  // The ancestor of an ancestor.
  lemma {:induction false} UpUp(sh: Shape, par: Parents, root: RectNode, e: RectNode, d: int, d': int)
    requires Tree(sh, par, root) && e in sh && sh[e].depth <= d <= d' <= sh[root].depth
    ensures Up(sh, par, root, Up(sh, par, root, e, d), d') == Up(sh, par, root, e, d')
    decreases d - sh[e].depth
  {
    if sh[e].depth < d {
      assert e in par && NodeOk(sh, par, par[e]);
      UpUp(sh, par, root, par[e], d, d');
    }
  }

  lemma UnderTransitive(sh: Shape, par: Parents, root: RectNode, a: RectNode, b: RectNode, c: RectNode)
    requires Tree(sh, par, root) && a in sh && b in sh && c in sh
    requires Under(sh, par, root, a, b) && Under(sh, par, root, b, c)
    ensures Under(sh, par, root, a, c)
  {
    UpUp(sh, par, root, a, sh[b].depth, sh[c].depth);
  }

  // Two nodes above the same one are above each other.
  lemma UnderBoth(sh: Shape, par: Parents, root: RectNode, e: RectNode, a: RectNode, b: RectNode)
    requires Tree(sh, par, root) && e in sh && a in sh && b in sh
    requires Under(sh, par, root, e, a) && Under(sh, par, root, e, b) && sh[a].depth <= sh[b].depth
    ensures Under(sh, par, root, a, b)
  {
    UpUp(sh, par, root, e, sh[a].depth, sh[b].depth);
  }

  lemma ChildIsUnder(sh: Shape, par: Parents, root: RectNode, n: RectNode, c: RectNode)
    requires Tree(sh, par, root) && n in sh && c in sh[n].children
    ensures c in sh && Under(sh, par, root, c, n) && sh[c].depth == sh[n].depth - 1
    ensures sh[n].depth <= sh[root].depth
  {
    assert NodeOk(sh, par, n);
    assert Up(sh, par, root, par[c], sh[n].depth) == n;
  }

  // No subtree of the worklist lies in another.
  ghost predicate Antichain(sh: Shape, par: Parents, root: RectNode, w: set<RectNode>)
    requires Tree(sh, par, root)
  {
    && w <= sh.Keys
    && forall a, b :: a in w && b in w && a != b ==> !Under(sh, par, root, a, b)
  }

  ghost predicate Pending(sh: Shape, par: Parents, root: RectNode, w: set<RectNode>, e: RectNode)
    requires Tree(sh, par, root) && w <= sh.Keys && e in sh
  {
    exists a :: a in w && Under(sh, par, root, e, a)
  }

  // Results so far: matching objects, none twice.
  ghost predicate AllMatch(sh: Shape, q: Box, check: Check, result: seq<RectNode>) {
    NoDup(result) && forall e :: e in result ==> Match(sh, q, check, e)
  }

  // Every matching object is either found or below the worklist, and not both.
  ghost predicate Searching(sh: Shape, par: Parents, root: RectNode, q: Box, check: Check, w: set<RectNode>,
                            result: seq<RectNode>)
    requires Tree(sh, par, root)
  {
    && Antichain(sh, par, root, w) && AllMatch(sh, q, check, result)
    && (forall e :: e in result ==> e in sh && !Pending(sh, par, root, w, e))
    && (forall e :: e in sh && Match(sh, q, check, e) && e !in result ==> Pending(sh, par, root, w, e))
  }

  lemma SearchStarts(sh: Shape, par: Parents, root: RectNode, q: Box, check: Check)
    requires Tree(sh, par, root)
    ensures Searching(sh, par, root, q, check, {root}, [])
  {
    forall e | e in sh && Match(sh, q, check, e) ensures Pending(sh, par, root, {root}, e) {
      AllUnderRoot(sh, par, root, e);
    }
  }

  lemma SearchEnds(sh: Shape, par: Parents, root: RectNode, q: Box, check: Check, result: seq<RectNode>)
    requires Tree(sh, par, root) && Searching(sh, par, root, q, check, {}, result)
    ensures NoDup(result) && forall e :: e in result <==> e in sh && Match(sh, q, check, e)
  {
  }

  // A subtree without matching objects can be dropped.
  lemma Drop(sh: Shape, par: Parents, root: RectNode, q: Box, check: Check, w: set<RectNode>, result: seq<RectNode>,
             n: RectNode)
    requires Tree(sh, par, root) && Searching(sh, par, root, q, check, w, result) && n in w
    requires forall e :: e in sh && Match(sh, q, check, e) ==> !Under(sh, par, root, e, n)
    ensures Searching(sh, par, root, q, check, w - {n}, result)
  {
    var w' := w - {n};
    forall e | e in sh && Match(sh, q, check, e) && e !in result ensures Pending(sh, par, root, w', e) {
      var a :| a in w && Under(sh, par, root, e, a);
      assert a in w';
    }
    forall e | e in result ensures !Pending(sh, par, root, w', e) {
      assert !Pending(sh, par, root, w, e);
    }
  }

  // A matching object on the worklist becomes a result.
  lemma Accept(sh: Shape, par: Parents, root: RectNode, q: Box, check: Check, w: set<RectNode>, result: seq<RectNode>,
               n: RectNode)
    requires Tree(sh, par, root) && Searching(sh, par, root, q, check, w, result) && n in w && Match(sh, q, check, n)
    ensures Searching(sh, par, root, q, check, w - {n}, result + [n])
  {
    var w', r := w - {n}, result + [n];
    assert Under(sh, par, root, n, n);
    assert Pending(sh, par, root, w, n);
    forall e | e in r ensures !Pending(sh, par, root, w', e) {
      if e in result { assert !Pending(sh, par, root, w, e); }
    }
    forall e | e in sh && Match(sh, q, check, e) && e !in r ensures Pending(sh, par, root, w', e) {
      var a :| a in w && Under(sh, par, root, e, a);
      assert a != n;
    }
  }

  // A node on the worklist is replaced by its children.
  lemma Open(sh: Shape, par: Parents, root: RectNode, q: Box, check: Check, w: set<RectNode>, result: seq<RectNode>,
             n: RectNode)
    requires Tree(sh, par, root) && Searching(sh, par, root, q, check, w, result) && n in w && sh[n].depth >= 1
    ensures var cs := set c | c in sh[n].children;
            cs !! w && Searching(sh, par, root, q, check, w - {n} + cs, result)
  {
    var cs := set c | c in sh[n].children;
    var w' := w - {n} + cs;
    OpenAntichain(sh, par, root, w, n);
    forall e | e in result ensures !Pending(sh, par, root, w', e) {
      UnderChild(sh, par, root, e, n);
      assert !Pending(sh, par, root, w, e);
    }
    forall e | e in sh && Match(sh, q, check, e) && e !in result ensures Pending(sh, par, root, w', e) {
      var a :| a in w && Under(sh, par, root, e, a);
      if a == n {
        UnderChild(sh, par, root, e, n);
        var c := Up(sh, par, root, e, sh[n].depth - 1);
        assert c in cs;
      }
    }
  }

  lemma OpenAntichain(sh: Shape, par: Parents, root: RectNode, w: set<RectNode>, n: RectNode)
    requires Tree(sh, par, root) && Antichain(sh, par, root, w) && n in w && sh[n].depth >= 1
    ensures var cs := set c | c in sh[n].children;
            cs !! w && Antichain(sh, par, root, w - {n} + cs)
  {
    var cs := set c | c in sh[n].children;
    var w' := w - {n} + cs;
    forall c | c in cs ensures c in sh && Under(sh, par, root, c, n) && c !in w {
      ChildIsUnder(sh, par, root, n, c);
    }
    forall a, b | a in w' && b in w' && a != b ensures !Under(sh, par, root, a, b) {
      if a in cs { ChildIsUnder(sh, par, root, n, a); }
      if b in cs { ChildIsUnder(sh, par, root, n, b); }
      if Under(sh, par, root, a, b) {
        if b in cs {
          UnderTransitive(sh, par, root, a, b, n);
        } else if a in cs && sh[n].depth <= sh[b].depth {
          UnderBoth(sh, par, root, a, n, b);
        }
      }
    }
  }

  // Nothing matches below a node whose box misses the query.
  lemma MissedBelow(sh: Shape, par: Parents, root: RectNode, q: Box, check: Check, n: RectNode)
    requires Tree(sh, par, root) && Boxed(sh, par, root) && n in sh && !Intersect(q, sh[n].box)
    ensures forall e :: e in sh && Match(sh, q, check, e) ==> !Under(sh, par, root, e, n)
  {
    forall e | e in sh && Match(sh, q, check, e) ensures !Under(sh, par, root, e, n) {
      if Under(sh, par, root, e, n) {
        BoxContains(sh, par, root, e, sh[n].depth);
        PruneIsSafe(q, sh[n].box, sh[e].box);
      }
    }
  }

  // Every object below a node inside the query meets it.
  lemma InsideBelow(sh: Shape, par: Parents, root: RectNode, q: Box, n: RectNode, e: RectNode)
    requires Tree(sh, par, root) && Boxed(sh, par, root) && n in sh && Contain(q, sh[n].box)
    requires e in sh && sh[e].depth == 0 && Under(sh, par, root, e, n)
    ensures Intersect(q, sh[e].box)
  {
    BoxContains(sh, par, root, e, sh[n].depth);
    PruneIsSafe(q, sh[n].box, sh[e].box);
  }

  // Below an object is only the object itself.
  lemma ObjectAlone(sh: Shape, par: Parents, root: RectNode, q: Box, check: Check, n: RectNode)
    requires Tree(sh, par, root) && n in sh && sh[n].depth == 0 && !Match(sh, q, check, n)
    ensures forall e :: e in sh && Match(sh, q, check, e) ==> !Under(sh, par, root, e, n)
  {
  }

  // Nodes opened already are in no subtree of the worklist.
  ghost predicate Closed(sh: Shape, par: Parents, root: RectNode, w: set<RectNode>, closed: set<RectNode>)
    requires Tree(sh, par, root) && w <= sh.Keys
  {
    closed <= sh.Keys && forall x :: x in closed ==> !Pending(sh, par, root, w, x)
  }

  lemma CloseOpened(sh: Shape, par: Parents, root: RectNode, w: set<RectNode>, closed: set<RectNode>, n: RectNode)
    requires Tree(sh, par, root) && Antichain(sh, par, root, w) && n in w && sh[n].depth >= 1
    requires Closed(sh, par, root, w, closed)
    ensures var cs := set c | c in sh[n].children;
            w - {n} + cs <= sh.Keys && Closed(sh, par, root, w - {n} + cs, closed + {n})
    ensures n !in closed
  {
    var cs := set c | c in sh[n].children;
    var w' := w - {n} + cs;
    OpenAntichain(sh, par, root, w, n);
    assert Under(sh, par, root, n, n) && Pending(sh, par, root, w, n);
    forall x | x in closed + {n} ensures !Pending(sh, par, root, w', x) {
      assert x == n || !Pending(sh, par, root, w, x);
      forall a | a in w' ensures !Under(sh, par, root, x, a) {
        if a in cs {
          ChildIsUnder(sh, par, root, n, a);
          if Under(sh, par, root, x, a) { UnderTransitive(sh, par, root, x, a, n); }
        }
      }
    }
  }

  lemma ClosedShrinks(sh: Shape, par: Parents, root: RectNode, w: set<RectNode>, w': set<RectNode>,
                      closed: set<RectNode>)
    requires Tree(sh, par, root) && w <= sh.Keys && w' <= w && Closed(sh, par, root, w, closed)
    ensures Closed(sh, par, root, w', closed)
  {
    forall x | x in closed ensures !Pending(sh, par, root, w', x) {
      assert !Pending(sh, par, root, w, x);
    }
  }

  // The worklist as the code holds it: children still to look at, and the stack.
  ghost predicate Work(ks: seq<RectNode>, stack: seq<RectNode>, w: set<RectNode>) {
    && NoDup(ks + stack) && (forall x :: x in w ==> x in ks || x in stack)
    && (forall x :: x in ks ==> x in w) && (forall x :: x in stack ==> x in w)
  }

  lemma WorkPush(ks: seq<RectNode>, stack: seq<RectNode>, w: set<RectNode>)
    requires Work(ks, stack, w) && ks != []
    ensures Work(ks[1..], stack + [ks[0]], w)
  {
    var a, b := ks + stack, ks[1..] + (stack + [ks[0]]);
    assert forall i :: 0 <= i < |b| ==> b[i] == if i == |b| - 1 then a[0] else a[i + 1];
    assert forall x :: x in ks <==> x == ks[0] || x in ks[1..];
  }

  lemma WorkDrop(ks: seq<RectNode>, stack: seq<RectNode>, w: set<RectNode>)
    requires Work(ks, stack, w) && ks != []
    ensures ks[0] in w && Work(ks[1..], stack, w - {ks[0]})
  {
    var a, b := ks + stack, ks[1..] + stack;
    assert forall i :: 0 <= i < |b| ==> b[i] == a[i + 1];
    assert forall i :: 0 <= i < |ks[1..]| ==> ks[1..][i] == a[i + 1] && a[i + 1] != a[0];
    assert forall i :: 0 <= i < |stack| ==> stack[i] == a[i + |ks|] && a[i + |ks|] != a[0];
    assert forall x :: x in ks <==> x == ks[0] || x in ks[1..];
  }

  lemma WorkPop(stack: seq<RectNode>, w: set<RectNode>)
    requires Work([], stack, w) && stack != []
    ensures Work([stack[|stack| - 1]], stack[..|stack| - 1], w)
  {
    var init, n := stack[..|stack| - 1], stack[|stack| - 1];
    var a, b := [] + stack, [n] + init;
    assert forall i :: 0 <= i < |b| ==> b[i] == if i == 0 then a[|a| - 1] else a[i - 1];
    assert stack == init + [n];
  }

  lemma WorkOpen(n: RectNode, cs: seq<RectNode>, stack: seq<RectNode>, w: set<RectNode>)
    requires Work([n], stack, w) && NoDup(cs) && forall c :: c in cs ==> c !in w
    ensures Work(cs, stack, w - {n} + set c | c in cs)
  {
    var a := [n] + stack;
    assert forall i :: 0 <= i < |stack| ==> stack[i] == a[i + 1] && stack[i] in stack && a[i + 1] != a[0];
    assert forall i :: 0 <= i < |cs| ==> cs[i] in cs;
  }

  lemma WorkSwap(ks: seq<RectNode>, stack: seq<RectNode>, w: set<RectNode>)
    requires Work(ks, stack, w)
    ensures Work([], stack + ks, w)
  {
    var a, b := ks + stack, [] + (stack + ks);
    assert forall i :: 0 <= i < |b| ==> b[i] == if i < |stack| then a[i + |ks|] else a[i - |stack|];
  }
}
