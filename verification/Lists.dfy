/**
  Intrusive doubly linked lists with a sentinel node at each end (emu68/include/lists.h).  The abstract
  value of a list is the sequence of nodes between its sentinels.
*/
module Lists {

  class Node {
    var next: Node?
    var prev: Node?

    constructor ()
      ensures next == null && prev == null
    {
      next, prev := null, null;
    }
  }

  /** Neighbours point at each other, no node occurs twice, and the ends point nowhere. */
  ghost predicate Linked(chain: seq<Node>)
    reads set n: Node | n in chain
  {
    && |chain| >= 2
    && (forall i, j :: 0 <= i < j < |chain| ==> chain[i] != chain[j])
    && (forall i :: 0 <= i < |chain| - 1 ==> chain[i].next == chain[i + 1] && chain[i + 1].prev == chain[i])
    && chain[0].prev == null && chain[|chain| - 1].next == null
  }

  class List {
    const head: Node
    const tail: Node
    ghost var nodes: seq<Node>

    ghost function Chain(): seq<Node>
      reads this
    {
      [head] + nodes + [tail]
    }

    ghost predicate Valid()
      reads this, set n: Node | n in Chain()
    {
      Linked(Chain())
    }

    /** NEWLIST on fresh sentinels. */
    constructor ()
      ensures Valid() && nodes == [] && fresh(head) && fresh(tail)
    {
      head := new Node();
      tail := new Node();
      new;
      head.next := tail;
      head.prev := null;
      tail.prev := head;
      tail.next := null;
      nodes := [];
    }

    /** NEWLIST on a list in use empties it. */
    method NewList()
      requires head != tail
      modifies this, head, tail
      ensures Valid() && nodes == []
    {
      head.next := tail;
      head.prev := null;
      tail.prev := head;
      tail.next := null;
      nodes := [];
    }

    method AddHead(n: Node?) returns (r: Node?)
      requires Valid() && n !in Chain()
      modifies this, n, head, head.next
      ensures r == n && Valid()
      ensures nodes == if n == null then old(nodes) else [n] + old(nodes)
    {
      r := n;
      if n == null {
        return;
      }
      ghost var chain := Chain();
      var first := head.next;
      assert first == chain[1];
      n.prev := head;
      first.prev := n;
      n.next := head.next;
      head.next := n;
      nodes := [n] + nodes;
      Inserted(chain, 0, n, Chain());
    }

    method AddTail(n: Node?) returns (r: Node?)
      requires Valid() && n !in Chain()
      modifies this, n, tail, tail.prev
      ensures r == n && Valid()
      ensures nodes == if n == null then old(nodes) else old(nodes) + [n]
    {
      r := n;
      if n == null {
        return;
      }
      ghost var chain := Chain();
      var last := tail.prev;
      assert last == chain[|chain| - 2];
      n.next := tail;
      n.prev := tail.prev;
      last.next := n;
      tail.prev := n;
      nodes := nodes + [n];
      Inserted(chain, |chain| - 2, n, Chain());
    }

    /** REMOVE of the node at position i of the abstract list; the source needs neither list nor position. */
    method Remove(n: Node, ghost i: nat) returns (r: Node)
      requires Valid() && i < |nodes| && nodes[i] == n
      modifies this`nodes, n.prev, n.next
      ensures r == n && Valid()
      ensures nodes == old(nodes)[..i] + old(nodes)[i + 1..]
      ensures n.next == old(n.next) && n.prev == old(n.prev)
    {
      ghost var chain := Chain();
      assert chain[i + 1] == n && n.prev == chain[i] && n.next == chain[i + 2];
      var p, q := n.prev, n.next;
      p.next := q;
      q.prev := p;
      nodes := nodes[..i] + nodes[i + 1..];
      assert Chain() == chain[..i + 1] + chain[i + 2..];
      r := n;
    }

    method GetHead() returns (r: Node?)
      requires Valid()
      ensures r == if nodes == [] then null else nodes[0]
    {
      assert head == Chain()[0] && head.next == Chain()[1] && tail == Chain()[|Chain()| - 1];
      r := if head.next == tail then null else head.next;
    }

    method GetTail() returns (r: Node?)
      requires Valid()
      ensures r == if nodes == [] then null else nodes[|nodes| - 1]
    {
      assert tail.prev == Chain()[|Chain()| - 2] && tail == Chain()[|Chain()| - 1] && head == Chain()[0];
      r := if tail.prev == head then null else tail.prev;
    }

    method RemHead() returns (r: Node?)
      requires Valid()
      modifies this`nodes, Chain()
      ensures Valid()
      ensures if old(nodes) == [] then r == null && nodes == [] else r == old(nodes)[0] && nodes == old(nodes)[1..]
    {
      r := GetHead();
      if r != null {
        assert Chain()[1] == r && Chain()[0] == r.prev && Chain()[2] == r.next;
        var _ := Remove(r, 0);
      }
    }

    method RemTail() returns (r: Node?)
      requires Valid()
      modifies this`nodes, Chain()
      ensures Valid()
      ensures if old(nodes) == [] then r == null && nodes == []
              else r == old(nodes)[|old(nodes)| - 1] && nodes == old(nodes)[..|old(nodes)| - 1]
    {
      r := GetTail();
      if r != null {
        ghost var k := |nodes| - 1;
        assert Chain()[k + 1] == r && Chain()[k] == r.prev && Chain()[k + 2] == r.next;
        var _ := Remove(r, k);
      }
    }

    /** ForeachNode: starts at the head sentinel, and visits it and then each node once. */
    method ForeachNode() returns (visited: seq<Node>)
      requires Valid()
      ensures visited == [head] + nodes
    {
      var node := head;
      visited := [];
      assert node == Chain()[0];
      while node.next != null
        invariant |visited| < |Chain()| && visited == Chain()[..|visited|] && node == Chain()[|visited|]
        decreases |Chain()| - |visited|
      {
        assert |visited| < |Chain()| - 1;
        visited := visited + [node];
        node := node.next;
      }
      assert forall i :: 0 <= i < |Chain()| - 1 ==> Chain()[i].next == Chain()[i + 1];
      assert |visited| == |Chain()| - 1;
    }
  }

  /** A chain with a new node linked in after position k is linked. */
  lemma Inserted(chain: seq<Node>, k: nat, n: Node, chain': seq<Node>)
    requires |chain| >= 2 && k + 1 < |chain| && n !in chain
    requires forall i, j :: 0 <= i < j < |chain| ==> chain[i] != chain[j]
    requires chain' == chain[..k + 1] + [n] + chain[k + 1..]
    requires forall i :: 0 <= i < |chain| - 1 && i != k ==> chain[i].next == chain[i + 1] && chain[i + 1].prev == chain[i]
    requires chain[k].next == n && n.prev == chain[k] && n.next == chain[k + 1] && chain[k + 1].prev == n
    requires chain[0].prev == null && chain[|chain| - 1].next == null
    ensures Linked(chain')
  {
  }
}
