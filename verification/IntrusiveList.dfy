/** The intrusive doubly linked ring of intrusive_list.hpp, refined to a sequence of nodes. */
module IntrusiveList {
  class Node {
    var prev: Node
    var next: Node

    constructor ()
      ensures prev == this && next == this
    {
      prev, next := this, this;
    }
  }

  function Succ(i: nat, n: nat): nat {
    if i + 1 >= n then 0 else i + 1
  }

  predicate Distinct(r: seq<Node>) {
    forall i, j :: 0 <= i < j < |r| ==> r[i] != r[j]
  }

  /** `next` leads once around the nodes in this order, and `prev` back. */
  ghost predicate IsRing(r: seq<Node>)
    reads r
  {
    && r != [] && Distinct(r)
    && forall i :: 0 <= i < |r| ==> r[i].next == r[Succ(i, |r|)] && r[Succ(i, |r|)].prev == r[i]
  }

  ghost function Inserted(r: seq<Node>, j: nat, n: Node): seq<Node>
    requires j <= |r|
  {
    r[..j] + [n] + r[j..]
  }

  ghost function Without(r: seq<Node>, j: nat): seq<Node>
    requires j < |r|
  {
    r[..j] + r[j + 1..]
  }

  lemma InsertedAt(r: seq<Node>, j: nat, n: Node, i: nat)
    requires j <= |r| && i <= |r|
    ensures |Inserted(r, j, n)| == |r| + 1
    ensures Inserted(r, j, n)[i] == if i < j then r[i] else if i == j then n else r[i - 1]
  {
  }

  lemma InsertedDistinct(r: seq<Node>, j: nat, n: Node)
    requires Distinct(r) && n !in r && j <= |r|
    ensures Distinct(Inserted(r, j, n))
  {
  }

  lemma WithoutAt(r: seq<Node>, j: nat, i: nat)
    requires j < |r| && i < |r| - 1
    ensures |Without(r, j)| == |r| - 1
    ensures Without(r, j)[i] == if i < j then r[i] else r[i + 1]
  {
  }

  lemma WithoutDistinct(r: seq<Node>, j: nat)
    requires Distinct(r) && j < |r|
    ensures Distinct(Without(r, j))
  {
  }

  /** `insert(next, n)`, where `next` comes at position `j` of the ring; a position at the end
      of the sequence is in front of its first node. The links of `n` do not matter before. */
  method InsertBefore(next: Node, n: Node, ghost r: seq<Node>, ghost j: nat)
    requires IsRing(r) && n !in r && 0 < j <= |r| && next == (if j == |r| then r[0] else r[j])
    modifies n, next, r[j - 1]
    ensures IsRing(Inserted(r, j, n))
  {
    assert r[Succ(j - 1, |r|)].prev == r[j - 1];
    n.prev := next.prev;
    n.next := next;
    n.prev.next := n;
    n.next.prev := n;
    ghost var s := Inserted(r, j, n);
    InsertedDistinct(r, j, n);
    InsertedAt(r, j, n, 0);
    hide Inserted;
    forall i | 0 <= i < |s|
      ensures s[i].next == s[Succ(i, |s|)] && s[Succ(i, |s|)].prev == s[i]
    {
      InsertedAt(r, j, n, i);
      InsertedAt(r, j, n, Succ(i, |s|));
      if i != j && i != j - 1 {
        ghost var k := if i < j then i else i - 1;
        assert old(r[k].next) == r[Succ(k, |r|)] && old(r[Succ(k, |r|)].prev) == r[k];
        assert r[k] != r[j - 1] && r[Succ(k, |r|)] != next;
      }
    }
  }

  /** `remove` of the node at position `j`; its own links are left as they are. */
  method Unlink(n: Node, ghost r: seq<Node>, ghost j: nat)
    requires IsRing(r) && 0 < j < |r| && n == r[j]
    modifies r[j - 1], r[Succ(j, |r|)]
    ensures IsRing(Without(r, j))
    ensures n.next == old(n.next) && n.prev == old(n.prev)
  {
    assert r[Succ(j - 1, |r|)].prev == r[j - 1];
    n.next.prev := n.prev;
    n.prev.next := n.next;
    ghost var s := Without(r, j);
    WithoutDistinct(r, j);
    WithoutAt(r, j, 0);
    hide Without;
    forall i | 0 <= i < |s|
      ensures s[i].next == s[Succ(i, |s|)] && s[Succ(i, |s|)].prev == s[i]
    {
      WithoutAt(r, j, i);
      WithoutAt(r, j, Succ(i, |s|));
      if i != j - 1 {
        ghost var k := if i < j then i else i + 1;
        assert old(r[k].next) == r[Succ(k, |r|)] && old(r[Succ(k, |r|)].prev) == r[k];
        assert r[k] != r[j - 1] && Succ(k, |r|) != Succ(j, |r|);
      }
    }
  }

  /** A stretch of nodes that link to one another in order. */
  ghost predicate Linked(a: seq<Node>)
    reads a
  {
    && Distinct(a)
    && forall i, j :: 0 <= i && j == i + 1 && j < |a| ==> a[i].next == a[j] && a[j].prev == a[i]
  }

  lemma RingLinks(r: seq<Node>)
    requires IsRing(r)
    ensures Linked(r[1..])
    ensures forall i :: 1 <= i < |r| ==> r[i] != r[0]
  {
    var a := r[1..];
    forall i, j | 0 <= i && j == i + 1 && j < |a|
      ensures a[i].next == a[j] && a[j].prev == a[i]
    {
      assert r[j].next == r[Succ(j, |r|)] && r[Succ(j, |r|)].prev == r[j];
    }
  }

  /** `splice`: the nodes of another ring behind its head, `a`, come in front of position `j`
      of this one. The other head is out of the picture by then. */
  method SpliceBefore(next: Node, first: Node, last: Node, ghost r: seq<Node>, ghost a: seq<Node>, ghost j: nat)
    requires IsRing(r) && 0 < j <= |r| && next == (if j == |r| then r[0] else r[j])
    requires a != [] && first == a[0] && last == a[|a| - 1] && Linked(a)
    requires forall n :: n in a ==> n !in r
    modifies next, r[j - 1], first, last
    ensures IsRing(Spliced(r, a, j))
  {
    assert r[Succ(j - 1, |r|)].prev == r[j - 1];
    assert first in a && last in a && r[j - 1] in r && next in r;
    first.prev := next.prev;
    next.prev.next := first;
    last.next := next;
    next.prev := last;
    ghost var s := Spliced(r, a, j);
    SplicedDistinct(r, a, j);
    SplicedAt(r, a, j, 0);
    hide Spliced;
    forall i | 0 <= i < |s|
      ensures s[i].next == s[Succ(i, |s|)] && s[Succ(i, |s|)].prev == s[i]
    {
      SplicedAt(r, a, j, i);
      SplicedAt(r, a, j, Succ(i, |s|));
      if i < j - 1 || i >= j + |a| {
        ghost var k := if i < j then i else i - |a|;
        assert old(r[k].next) == r[Succ(k, |r|)] && old(r[Succ(k, |r|)].prev) == r[k];
        assert r[k] != r[j - 1] && Succ(k, |r|) != Succ(j - 1, |r|);
        assert r[k] !in a && r[Succ(k, |r|)] !in a;
      } else if j <= i < j + |a| - 1 {
        assert a[i - j] in a && a[i - j + 1] in a;
        assert old(a[i - j].next) == a[i - j + 1] && old(a[i - j + 1].prev) == a[i - j];
      }
    }
  }

  ghost function Spliced(r: seq<Node>, a: seq<Node>, j: nat): seq<Node>
    requires j <= |r|
  {
    r[..j] + a + r[j..]
  }

  lemma SplicedAt(r: seq<Node>, a: seq<Node>, j: nat, i: nat)
    requires j <= |r| && i < |r| + |a|
    ensures |Spliced(r, a, j)| == |r| + |a|
    ensures Spliced(r, a, j)[i] == if i < j then r[i] else if i < j + |a| then a[i - j] else r[i - |a|]
  {
  }

  lemma SplicedDistinct(r: seq<Node>, a: seq<Node>, j: nat)
    requires Distinct(r) && Distinct(a) && j <= |r| && forall n :: n in a ==> n !in r
    ensures Distinct(Spliced(r, a, j))
  {
    var s := Spliced(r, a, j);
    forall x, y | 0 <= x < y < |s|
      ensures s[x] != s[y]
    {
      SplicedAt(r, a, j, x);
      SplicedAt(r, a, j, y);
      hide Spliced;
      assert j <= x < j + |a| ==> a[x - j] in a;
      assert j <= y < j + |a| ==> a[y - j] in a;
    }
  }

  // ---------------------------------------------------------------- the list

  /** A ring of which `head` is not an element. `nodes` are the others, in order. */
  class List {
    const head: Node
    ghost var nodes: seq<Node>

    ghost function Ring(): seq<Node>
      reads this
    {
      [head] + nodes
    }

    ghost predicate Valid()
      reads this, head, nodes
    {
      IsRing(Ring())
    }

    constructor ()
      ensures Valid() && nodes == [] && fresh(head)
    {
      head := new Node();
      nodes := [];
      new;
    }

    method Empty() returns (b: bool)
      requires Valid()
      ensures b <==> nodes == []
    {
      b := !(head.prev != head || head.next != head);
      assert Ring()[0].next == Ring()[Succ(0, |Ring()|)];
    }

    method Begin() returns (n: Node)
      requires Valid()
      ensures n == if nodes == [] then head else nodes[0]
    {
      n := head.next;
      assert Ring()[0].next == Ring()[Succ(0, |Ring()|)];
    }

    /** The last node, or the head when there is none. */
    method Back() returns (n: Node)
      requires Valid()
      ensures n == if nodes == [] then head else nodes[|nodes| - 1]
    {
      n := head.prev;
      ghost var r := Ring();
      assert r[Succ(|r| - 1, |r|)].prev == r[|r| - 1];
    }

    /** `insert` in front of the node at position `k`, or of the end. */
    method Insert(next: Node, n: Node, ghost k: nat)
      requires Valid() && n !in Ring()
      requires k <= |nodes| && next == if k == |nodes| then head else nodes[k]
      modifies this, head, nodes, n
      ensures Valid() && nodes == old(nodes[..k] + [n] + nodes[k..])
    {
      ghost var r := Ring();
      InsertBefore(next, n, r, k + 1);
      nodes := nodes[..k] + [n] + nodes[k..];
      assert Ring() == Inserted(r, k + 1, n);
    }

    method PushBack(n: Node)
      requires Valid() && n !in Ring()
      modifies this, head, nodes, n
      ensures Valid() && nodes == old(nodes) + [n]
    {
      Insert(head, n, |nodes|);
    }

    method PushFront(n: Node)
      requires Valid() && n !in Ring()
      modifies this, head, nodes, n
      ensures Valid() && nodes == [n] + old(nodes)
    {
      var next := Begin();
      Insert(next, n, 0);
    }

    /** `erase` and `remove`; gives back what came next. */
    method Erase(n: Node, ghost k: nat) returns (next: Node)
      requires Valid() && k < |nodes| && n == nodes[k]
      modifies this, head, nodes
      ensures Valid() && nodes == old(nodes[..k] + nodes[k + 1..])
      ensures next == if k < |nodes| then nodes[k] else head
    {
      ghost var r := Ring();
      assert r[k + 1].next == r[Succ(k + 1, |r|)];
      next := n.next;
      Unlink(n, r, k + 1);
      nodes := nodes[..k] + nodes[k + 1..];
      assert Ring() == Without(r, k + 1);
    }

    /** On an empty list this unlinks the head from itself, which changes nothing. */
    method PopFront()
      requires Valid()
      modifies this, head, nodes
      ensures Valid() && nodes == if old(nodes) == [] then [] else old(nodes)[1..]
    {
      var first := Begin();
      if first != head {
        var next := Erase(first, 0);
      } else {
        RingLinks(Ring());
        assert nodes == [] by {
          assert Ring()[1..] == nodes;
        }
        assert Ring()[0].next == Ring()[Succ(0, |Ring()|)] && Ring()[Succ(0, |Ring()|)].prev == Ring()[0];
        first.next.prev := first.prev;
        first.prev.next := first.next;
      }
    }

    method PopBack()
      requires Valid()
      modifies this, head, nodes
      ensures Valid() && nodes == if old(nodes) == [] then [] else old(nodes)[..|old(nodes)| - 1]
    {
      var last := Back();
      if last != head {
        var next := Erase(last, |nodes| - 1);
      } else {
        RingLinks(Ring());
        assert nodes == [] by {
          assert Ring()[1..] == nodes;
        }
        assert Ring()[0].next == Ring()[Succ(0, |Ring()|)] && Ring()[Succ(0, |Ring()|)].prev == Ring()[0];
        last.next.prev := last.prev;
        last.prev.next := last.next;
      }
    }

    /** Forgets the nodes without touching them: they go on linking to one another. */
    method Clear()
      requires Valid()
      modifies this, head
      ensures Valid() && nodes == []
      ensures Linked(old(nodes))
    {
      RingLinks(Ring());
      ghost var a := nodes;
      assert Ring()[1..] == a;
      assert forall i :: 0 <= i < |a| ==> a[i] != head;
      head.prev := head;
      head.next := head;
      nodes := [];
    }

    /** Moves the nodes of another list in front of position `k`. A list of one node is taken
        for an empty one and left alone. */
    method Splice(next: Node, rhs: List, ghost k: nat)
      requires Valid() && rhs.Valid() && rhs != this && forall n :: n in rhs.Ring() ==> n !in Ring()
      requires k <= |nodes| && next == if k == |nodes| then head else nodes[k]
      modifies this, head, nodes, rhs, rhs.head, rhs.nodes
      ensures Valid() && rhs.Valid()
      ensures if |old(rhs.nodes)| == 1 then nodes == old(nodes) && rhs.nodes == old(rhs.nodes)
              else nodes == old(nodes[..k] + rhs.nodes + nodes[k..]) && rhs.nodes == []
    {
      hide IsRing, Distinct, Linked;
      var first, last, single := rhs.Ends();
      ghost var a := rhs.nodes;
      assert a == [] ==> nodes[..k] + a + nodes[k..] == nodes;
      if single {
        return;
      }
      assert rhs.head in rhs.Ring() && forall n :: n in a ==> n in rhs.Ring();
      assert head in Ring() && forall n :: n in nodes ==> n in Ring();
      rhs.Clear();
      MoveIn(next, first, last, a, k);
    }

    /** The ends of the ring behind the head, and whether they are the same node; they also are
        when there is no node at all. */
    method Ends() returns (first: Node, last: Node, same: bool)
      requires Valid()
      ensures same <==> |nodes| <= 1
      ensures !same ==> first == nodes[0] && last == nodes[|nodes| - 1]
      ensures !same ==> first != head && last != head
    {
      first := Begin();
      last := Back();
      same := first == last;
      ghost var r := Ring();
      assert |nodes| > 1 ==> r[0] != r[1] && r[1] != r[|nodes|] && r[|nodes|] != r[0];
    }

    /** The relinking of `splice`. */
    method MoveIn(next: Node, first: Node, last: Node, ghost a: seq<Node>, ghost k: nat)
      requires Valid() && k <= |nodes| && next == if k == |nodes| then head else nodes[k]
      requires a != [] && first == a[0] && last == a[|a| - 1] && Linked(a)
      requires forall n :: n in a ==> n !in Ring()
      modifies this, head, nodes, first, last
      ensures Valid() && nodes == old(nodes)[..k] + a + old(nodes)[k..]
    {
      ghost var r := Ring();
      SpliceBefore(next, first, last, r, a, k + 1);
      nodes := nodes[..k] + a + nodes[k..];
      assert Ring() == Spliced(r, a, k + 1);
    }

    /** The move constructor. */
    constructor Move(rhs: List)
      requires rhs.Valid()
      modifies rhs, rhs.head, rhs.nodes
      ensures Valid() && rhs.Valid()
      ensures if |old(rhs.nodes)| == 1 then nodes == [] && rhs.nodes == old(rhs.nodes)
              else nodes == old(rhs.nodes) && rhs.nodes == []
    {
      head := new Node();
      nodes := [];
      new;
      Splice(head, rhs, 0);
      assert [][..0] + old(rhs.nodes) + [][0..] == old(rhs.nodes);
    }

    /** Move assignment puts the nodes behind those that are there already. */
    method MoveAssign(rhs: List)
      requires Valid() && rhs.Valid()
      requires rhs != this ==> forall n :: n in rhs.Ring() ==> n !in Ring()
      modifies this, head, nodes, rhs, rhs.head, rhs.nodes
      ensures Valid() && rhs.Valid()
      ensures if rhs == this || |old(rhs.nodes)| == 1 then nodes == old(nodes) && rhs.nodes == old(rhs.nodes)
              else nodes == old(nodes) + old(rhs.nodes) && rhs.nodes == []
    {
      if rhs != this {
        ghost var n := nodes;
        assert n[..|n|] + rhs.nodes + n[|n|..] == n + rhs.nodes;
        Splice(head, rhs, |nodes|);
      }
    }

    /** The same loop along `prev`, which comes by the nodes in the opposite order. */
    method WalkBack() returns (s: seq<Node>)
      requires Valid()
      ensures |s| == |nodes| && forall i :: 0 <= i < |s| ==> s[i] == nodes[|nodes| - 1 - i]
    {
      s := [];
      ghost var r := Ring();
      var cur := Back();
      while cur != head
        invariant |s| <= |nodes| && forall i :: 0 <= i < |s| ==> s[i] == nodes[|nodes| - 1 - i]
        invariant cur == r[|nodes| - |s|]
        decreases |nodes| - |s|
      {
        assert r[Succ(|nodes| - |s| - 1, |r|)].prev == r[|nodes| - |s| - 1];
        s := s + [cur];
        cur := cur.prev;
      }
      RingLinks(r);
    }

    /** A range-based loop: from the first node along `next` to the head. */
    method Walk() returns (s: seq<Node>)
      requires Valid()
      ensures s == nodes
    {
      s := [];
      ghost var r := Ring();
      var cur := Begin();
      while cur != head
        invariant |s| <= |nodes| && s == nodes[..|s|]
        invariant cur == r[Succ(|s|, |r|)]
        decreases |nodes| - |s|
      {
        assert cur == r[|s| + 1];
        s := s + [cur];
        cur := cur.next;
      }
      assert Succ(|s|, |r|) == 0 by {
        assert forall i :: 0 < i < |r| ==> r[i] != r[0];
      }
    }
  }
}
