// The intrusive doubly linked list with a sentinel at each end, on the heap.
module NodeLists {
  import opened Sequences

  class Node {
    var pre: Node?
    var next: Node?

    constructor ()
      ensures pre == null && next == null
    {
      pre, next := null, null;
    }

    // Unlinks the node; its neighbours, if any, are joined.
    method Leave()
      requires pre != this && next != this
      modifies this, pre, next
      ensures pre == null && next == null
      ensures old(pre) != null ==> old(pre).next == old(next)
      ensures old(next) != null ==> old(next).pre == old(pre)
      ensures old(pre) != null && old(pre) != old(next) ==> old(pre).pre == old(pre.pre)
      ensures old(next) != null && old(pre) != old(next) ==> old(next).next == old(next.next)
    {
      if pre != null { pre.next := next; }
      if next != null { next.pre := pre; }
      pre, next := null, null;
    }
  }

  // From position a up to b, consecutive nodes point at each other.
  ghost predicate Linked(c: seq<Node>, a: nat, b: nat)
    requires b <= |c|
    reads c
  {
    && (forall i {:trigger c[i].next} :: a <= i < b - 1 ==> c[i].next == c[i + 1])
    && (forall i {:trigger c[i].pre} :: a < i < b ==> c[i].pre == c[i - 1])
  }

  // Three stretches of linked nodes, joined at their ends, are one.
  lemma Join(a: seq<Node>, b: seq<Node>, c: seq<Node>)
    requires a != [] && b != [] && c != [] && Linked(a, 0, |a|) && Linked(b, 0, |b|) && Linked(c, 0, |c|)
    requires a[|a| - 1].next == b[0] && b[0].pre == a[|a| - 1]
    requires b[|b| - 1].next == c[0] && c[0].pre == b[|b| - 1]
    ensures Linked(a + b + c, 0, |a + b + c|)
  {
    var r := a + b + c;
    assert forall i :: 0 <= i < |r| ==>
      r[i] == if i < |a| then a[i] else if i < |a| + |b| then b[i - |a|] else c[i - |a| - |b|];
  }

  lemma JoinDistinct(a: seq<Node>, b: seq<Node>, c: seq<Node>)
    requires NoDup(a + c) && NoDup(b) && forall x :: x in a + c ==> x !in b
    ensures NoDup(a + b + c)
  {
    var r, d := a + b + c, a + c;
    assert forall i :: 0 <= i < |a| ==> r[i] == d[i] && d[i] in d;
    assert forall i :: |a| <= i < |a| + |b| ==> r[i] == b[i - |a|] && b[i - |a|] in b;
    assert forall i :: |a| + |b| <= i < |r| ==> r[i] == d[i - |b|] && d[i - |b|] in d;
  }

  lemma MiddleOf(a: seq<Node>, b: seq<Node>, c: seq<Node>)
    requires a != [] && c != []
    ensures (a + b + c)[1..|a + b + c| - 1] == a[1..] + b + c[..|c| - 1]
  {
  }

  // Nodes that make up a whole list, its sentinels first and last.
  ghost predicate Whole(c: seq<Node>)
    reads c
  {
    |c| >= 2 && NoDup(c) && Linked(c, 0, |c|) && c[0].pre == null && c[|c| - 1].next == null
  }

  lemma Splice(a: seq<Node>, b: seq<Node>, c: seq<Node>)
    requires a != [] && b != [] && c != [] && Linked(a, 0, |a|) && Linked(b, 0, |b|) && Linked(c, 0, |c|)
    requires a[|a| - 1].next == b[0] && b[0].pre == a[|a| - 1]
    requires b[|b| - 1].next == c[0] && c[0].pre == b[|b| - 1]
    requires NoDup(a + c) && NoDup(b) && forall x :: x in a + c ==> x !in b
    requires a[0].pre == null && c[|c| - 1].next == null
    ensures var r := a + b + c; Whole(r) && r[0] == a[0] && r[|r| - 1] == c[|c| - 1]
  {
    JoinDistinct(a, b, c);
    Join(a, b, c);
  }

  // Without the node at position k, whose neighbours point at each other, the list is whole.
  lemma Closed(c: seq<Node>, k: nat)
    requires 1 <= k < |c| - 1 && NoDup(c) && Linked(c, 0, k) && Linked(c, k + 1, |c|)
    requires c[k - 1].next == c[k + 1] && c[k + 1].pre == c[k - 1] && c[0].pre == null && c[|c| - 1].next == null
    ensures var r := c[..k] + c[k + 1..]; Whole(r) && r[0] == c[0] && r[|r| - 1] == c[|c| - 1]
  {
    var r := c[..k] + c[k + 1..];
    assert forall i :: 0 <= i < |r| ==> r[i] == c[if i < k then i else i + 1];
  }

  class NodeList {
    const head: Node
    const tail: Node
    ghost var chain: seq<Node>  // the sentinels and, between them, the list

    ghost function Nodes(): seq<Node>
      requires |chain| >= 2
      reads this
    {
      chain[1..|chain| - 1]
    }

    ghost predicate Valid()
      reads this, chain
    {
      Whole(chain) && chain[0] == head && chain[|chain| - 1] == tail
    }

    constructor ()
      ensures Valid() && Nodes() == [] && fresh(head) && fresh(tail)
    {
      head := new Node();
      tail := new Node();
      chain := [head, tail];
      new;
      head.next := tail;
      tail.pre := head;
    }

    predicate Empty()
      reads this, head
    {
      head.next == tail
    }

    lemma Ends()
      requires Valid()
      ensures head == chain[0] && tail == chain[|chain| - 1]
      ensures head.next == chain[1] && tail.pre == chain[|chain| - 2]
      ensures Empty() <==> |chain| == 2
    {
      assert chain[0].next == chain[1] && chain[|chain| - 1].pre == chain[|chain| - 2];
      if |chain| > 2 { assert chain[1] != chain[|chain| - 1]; }
    }

    method GetFront() returns (node: Node?)
      requires Valid()
      ensures node == if |chain| == 2 then null else chain[1]
    {
      Ends();
      if Empty() { return null; }
      return head.next;
    }

    method GetBack() returns (node: Node?)
      requires Valid()
      ensures node == if |chain| == 2 then null else chain[|chain| - 2]
    {
      Ends();
      if Empty() { return null; }
      return tail.pre;
    }

    ghost method TakeChain(c: seq<Node>)
      requires Whole(c) && c[0] == head && c[|c| - 1] == tail
      modifies this`chain
      ensures Valid() && chain == c
    {
      chain := c;
    }

    // Unlinks the node at position k; the rest of the list closes up.
    method Take(ghost k: nat, node: Node)
      requires Valid() && 1 <= k < |chain| - 1 && chain[k] == node
      modifies this, chain
      ensures Valid() && chain == old(chain)[..k] + old(chain)[k + 1..]
      ensures node.pre == null && node.next == null
    {
      ghost var c := chain;
      assert node.pre == c[k - 1] && node.next == c[k + 1];
      node.Leave();
      Closed(c, k);
      TakeChain(c[..k] + c[k + 1..]);
    }

    method PopFront() returns (node: Node?)
      requires Valid()
      modifies this, chain
      ensures Valid() && (node == null <==> old(Nodes()) == [])
      ensures if node == null then Nodes() == [] else [node] + Nodes() == old(Nodes()) && node !in chain
    {
      node := GetFront();
      if node != null { Take(1, node); }
    }

    method PopBack() returns (node: Node?)
      requires Valid()
      modifies this, chain
      ensures Valid() && (node == null <==> old(Nodes()) == [])
      ensures if node == null then Nodes() == [] else Nodes() + [node] == old(Nodes()) && node !in chain
    {
      node := GetBack();
      if node != null { Take(|chain| - 2, node); }
    }

    method PushFront(node: Node)
      requires Valid() && node !in chain
      modifies this, chain, node
      ensures Valid() && Nodes() == [node] + old(Nodes())
    {
      Ends();
      ghost var c := chain;
      node.next := head.next;
      node.pre := head;
      head.next.pre := node;
      head.next := node;
      chain := [head] + [node] + c[1..];
      MiddleOf([head], [node], c[1..]);
      assert forall i :: 0 <= i < |chain| ==> chain[i] == if i == 0 then head else if i == 1 then node else c[i - 1];
    }

    method PushBack(node: Node)
      requires Valid() && node !in chain
      modifies this, chain, node
      ensures Valid() && Nodes() == old(Nodes()) + [node]
    {
      Ends();
      ghost var c := chain;
      node.next := tail;
      node.pre := tail.pre;
      tail.pre.next := node;
      tail.pre := node;
      chain := c[..|c| - 1] + [node, tail];
      assert forall i :: 0 <= i < |chain| ==> chain[i] == if i < |c| - 1 then c[i] else if i == |c| - 1 then node
        else tail;
    }

    // Cuts the sentinels off; the nodes keep their links to each other.
    method Clear()
      requires Valid()
      modifies this, chain
      ensures Valid() && chain == [head, tail]
      ensures Linked(old(Nodes()), 0, |old(chain)| - 2)
    {
      Ends();
      ghost var c := chain;
      head.Leave();
      if |c| > 2 { assert tail.next == null && tail.pre == c[|c| - 2]; }
      tail.Leave();
      head.next := tail;
      tail.pre := head;
      chain := [head, tail];
      assert Linked(c, 1, |c| - 1);
      ghost var ns := c[1..|c| - 1];
      assert forall i :: 0 <= i < |ns| ==> ns[i] == c[i + 1];
    }

    // Hangs a linked stretch of nodes in before the tail.
    method Append(first: Node, last: Node, ghost b: seq<Node>)
      requires Valid() && b != [] && Linked(b, 0, |b|) && NoDup(b) && first == b[0] && last == b[|b| - 1]
      requires forall x :: x in chain ==> x !in b
      modifies this, chain, b
      ensures Valid() && chain == old(chain)[..|old(chain)| - 1] + b + [tail]
    {
      ghost var c := chain;
      ghost var a := c[..|c| - 1];
      HookBack(first, last, b, a);
      assert a + [tail] == c;
      Splice(a, b, [tail]);
      TakeChain(a + b + [tail]);
    }

    method HookBack(first: Node, last: Node, ghost b: seq<Node>, ghost a: seq<Node>)
      requires Valid() && b != [] && Linked(b, 0, |b|) && NoDup(b) && first == b[0] && last == b[|b| - 1]
      requires forall x :: x in chain ==> x !in b
      requires |a| == |chain| - 1 && forall i :: 0 <= i < |a| ==> a[i] == chain[i]
      modifies chain, b
      ensures Linked(a, 0, |a|) && Linked(b, 0, |b|) && head.pre == null && tail.next == null
      ensures a[|a| - 1].next == first && first.pre == a[|a| - 1] && last.next == tail && tail.pre == last
    {
      Ends();
      assert first in b && last in b && tail.pre in chain && head in chain && tail in chain;
      if Empty() {
        head.next := first;
        head.next.pre := head;
        tail.pre := last;
        tail.pre.next := tail;
      } else {
        tail.pre.next := first;
        first.pre := tail.pre;
        tail.pre := last;
        last.next := tail;
      }
    }

    // Hangs a linked stretch of nodes in behind the head.
    method Prepend(first: Node, last: Node, ghost b: seq<Node>)
      requires Valid() && b != [] && Linked(b, 0, |b|) && NoDup(b) && first == b[0] && last == b[|b| - 1]
      requires forall x :: x in chain ==> x !in b
      modifies this, chain, b
      ensures Valid() && chain == [head] + b + old(chain)[1..]
    {
      ghost var c := chain;
      ghost var a := c[1..];
      HookFront(first, last, b, a);
      ghost var front := [head];
      assert front + a == c && a[|a| - 1] == tail;
      Splice(front, b, a);
      TakeChain(front + b + a);
    }

    method HookFront(first: Node, last: Node, ghost b: seq<Node>, ghost a: seq<Node>)
      requires Valid() && b != [] && Linked(b, 0, |b|) && NoDup(b) && first == b[0] && last == b[|b| - 1]
      requires forall x :: x in chain ==> x !in b
      requires |a| == |chain| - 1 && forall i :: 0 <= i < |a| ==> a[i] == chain[i + 1]
      modifies chain, b
      ensures Linked(a, 0, |a|) && Linked(b, 0, |b|) && head.pre == null && tail.next == null
      ensures a[0].pre == last && last.next == a[0] && head.next == first && first.pre == head
    {
      Ends();
      assert first in b && last in b && head.next in chain && head in chain && tail in chain;
      if Empty() {
        head.next := first;
        head.next.pre := head;
        tail.pre := last;
        tail.pre.next := tail;
      } else {
        head.next.pre := last;
        last.next := head.next;
        head.next := first;
        first.pre := head;
      }
    }

    lemma Apart(list: NodeList)
      requires Valid() && list.Valid()
      requires forall x :: x in chain ==> x !in list.chain
      ensures list != this && NoDup(list.Nodes())
      ensures forall x :: x in list.Nodes() ==> x in list.chain && x !in chain && x != list.head && x != list.tail
      ensures list.head !in chain && list.tail !in chain
    {
      assert head in chain && list.head in list.chain && list.tail in list.chain;
    }

    // Moves all of the other list's nodes to the end of this one.
    method PushBackList(list: NodeList)
      requires Valid() && list.Valid()
      requires forall x :: x in chain ==> x !in list.chain
      modifies this, chain, list, list.chain
      ensures Valid() && list.Valid() && list.chain == [list.head, list.tail]
      ensures chain == old(chain)[..|old(chain)| - 1] + old(list.Nodes()) + [tail]
      ensures Nodes() == old(Nodes()) + old(list.Nodes())
    {
      list.Ends();
      ghost var a, b := chain[..|chain| - 1], list.Nodes();
      assert chain == a + b + [tail] || b != [];
      MiddleOf(a, b, [tail]);
      Apart(list);
      if !list.Empty() { MoveToBack(list); }
    }

    method MoveToBack(list: NodeList)
      requires Valid() && list.Valid() && list.Nodes() != []
      requires forall x :: x in chain ==> x !in list.chain
      modifies this, chain, list, list.chain
      ensures Valid() && list.Valid() && list.chain == [list.head, list.tail]
      ensures chain == old(chain)[..|old(chain)| - 1] + old(list.Nodes()) + [tail]
    {
      list.Ends();
      Apart(list);
      ghost var b := list.Nodes();
      var first, last := list.head.next, list.tail.pre;
      list.Clear();
      assert forall i :: 0 <= i < |chain| ==> chain[i] in chain;
      Append(first, last, b);
    }

    // Moves all of the other list's nodes to the front of this one.
    method PushFrontList(list: NodeList)
      requires Valid() && list.Valid()
      requires forall x :: x in chain ==> x !in list.chain
      modifies this, chain, list, list.chain
      ensures Valid() && list.Valid() && list.chain == [list.head, list.tail]
      ensures chain == [head] + old(list.Nodes()) + old(chain)[1..]
      ensures Nodes() == old(list.Nodes()) + old(Nodes())
    {
      list.Ends();
      ghost var b, c := list.Nodes(), chain[1..];
      assert chain == [head] + b + c || b != [];
      MiddleOf([head], b, c);
      Apart(list);
      if !list.Empty() { MoveToFront(list); }
    }

    method MoveToFront(list: NodeList)
      requires Valid() && list.Valid() && list.Nodes() != []
      requires forall x :: x in chain ==> x !in list.chain
      modifies this, chain, list, list.chain
      ensures Valid() && list.Valid() && list.chain == [list.head, list.tail]
      ensures chain == [head] + old(list.Nodes()) + old(chain)[1..]
    {
      list.Ends();
      Apart(list);
      ghost var b := list.Nodes();
      var first, last := list.head.next, list.tail.pre;
      list.Clear();
      assert forall i :: 0 <= i < |chain| ==> chain[i] in chain;
      Prepend(first, last, b);
    }
  }
}
