/**
 The doubly linked thread list: two bookend nodes that are never removed, and the
 threads' own nodes linked between them.
 */
module ThreadList {
  import opened Basics

  // struct threadlistnode; self is the thread that contains it, None for a bookend.
  class Node {
    var prev: Node?
    var next: Node?
    const self: Option<nat>

    // threadlistnode_init.
    constructor (self: Option<nat>)
      ensures prev == null && next == null && this.self == self
    {
      prev := null;
      next := null;
      this.self := self;
    }
  }

  // Neighbours point at each other, and the chain ends at both ends.
  ghost predicate Linked(s: seq<Node>)
    reads s
  {
    && |s| >= 2 && s[0].prev == null && s[|s| - 1].next == null
    && (forall i | 0 <= i < |s| - 1 :: s[i].next == s[i + 1])
    && (forall i | 0 < i < |s| :: s[i].prev == s[i - 1])
  }

  class ThreadList {
    const head: Node
    const tail: Node
    var count: nat
    // All nodes in order, bookends included.
    ghost var nodes: seq<Node>

    ghost predicate Valid()
      reads this, nodes
    {
      && Linked(nodes) && Distinct(nodes)
      && nodes[0] == head && nodes[|nodes| - 1] == tail
      && head.self.None? && tail.self.None? && (forall i | 0 < i < |nodes| - 1 :: nodes[i].self.Some?)
      && count == |nodes| - 2
    }

    // The threads on the list, first to last.
    ghost function Members(): seq<Node>
      requires |nodes| >= 2
      reads this
    {
      nodes[1..|nodes| - 1]
    }

    // threadlist_init.
    constructor ()
      ensures Valid() && Members() == [] && fresh(head) && fresh(tail)
    {
      var h := new Node(None);
      var t := new Node(None);
      h.next := t;
      t.prev := h;
      head := h;
      tail := t;
      count := 0;
      nodes := [h, t];
    }

    method IsEmpty() returns (b: bool)
      requires Valid()
      ensures b <==> Members() == []
    {
      b := count == 0;
    }

    /**
     threadlist_insertafternode and the count: the new node goes between the node at position i
     and its successor, and no other link changes.
     */
    method InsertAfter(onlist: Node, addee: Node, ghost i: nat)
      requires Valid() && i < |nodes| - 1 && nodes[i] == onlist
      requires addee !in nodes && addee.prev == null && addee.next == null && addee.self.Some?
      modifies this, nodes, addee
      ensures Valid() && nodes == old(nodes)[..i + 1] + [addee] + old(nodes)[i + 1..]
    {
      hide Distinct;
      assert onlist.next == nodes[i + 1];
      var after := onlist.next;
      addee.prev := onlist;
      addee.next := after;
      onlist.next := addee;
      after.prev := addee;
      count := count + 1;
      ghost var was := nodes;
      nodes := was[..i + 1] + [addee] + was[i + 1..];
      InsertDistinct(was, addee, i + 1);
      assert Linked(nodes) by {
        Apart(was, i, i + 1);
        forall k | 0 <= k < |nodes| - 1
          ensures nodes[k].next == nodes[k + 1]
        {
          if k < i {
            Apart(was, k, i);
          } else if k > i + 1 {
            Apart(was, i, k - 1);
          }
        }
        forall k | 0 < k < |nodes|
          ensures nodes[k].prev == nodes[k - 1]
        {
          if k <= i {
            Apart(was, k, i + 1);
          } else if k > i + 2 {
            Apart(was, i + 1, k - 1);
          }
        }
        if i > 0 {
          Apart(was, 0, i + 1);
        }
        if i + 1 < |was| - 1 {
          Apart(was, i, |was| - 1);
        }
      }
    }

    // threadlist_addhead.
    method AddHead(t: Node)
      requires Valid() && t !in nodes && t.prev == null && t.next == null && t.self.Some?
      modifies this, nodes, t
      ensures Valid() && Members() == [t] + old(Members())
    {
      InsertAfter(head, t, 0);
    }

    // threadlist_addtail: insertion before the tail is insertion after the node before it.
    method AddTail(t: Node)
      requires Valid() && t !in nodes && t.prev == null && t.next == null && t.self.Some?
      modifies this, nodes, t
      ensures Valid() && Members() == old(Members()) + [t]
    {
      assert tail.prev == nodes[|nodes| - 2];
      InsertAfter(tail.prev, t, |nodes| - 2);
    }

    // threadlist_removenode and the count.
    method RemoveNode(tln: Node, ghost i: nat)
      requires Valid() && 0 < i < |nodes| - 1 && nodes[i] == tln
      modifies this, nodes
      ensures Valid() && nodes == old(nodes)[..i] + old(nodes)[i + 1..]
      ensures tln.prev == null && tln.next == null && tln !in nodes
    {
      hide Distinct;
      var before, after := tln.prev, tln.next;
      assert before == nodes[i - 1] && after == nodes[i + 1];
      ghost var was := nodes;
      Apart(was, i - 1, i);
      Apart(was, i, i + 1);
      Apart(was, i - 1, i + 1);
      before.next := after;
      after.prev := before;
      tln.prev := null;
      tln.next := null;
      count := count - 1;
      nodes := was[..i] + was[i + 1..];
      RemoveDistinct(was, i);
      assert Linked(nodes) by {
        forall k | 0 <= k < |nodes| - 1
          ensures nodes[k].next == nodes[k + 1]
        {
          if k < i - 1 {
            Apart(was, k, i - 1);
            Apart(was, k, i);
          } else if k >= i {
            Apart(was, i - 1, k + 1);
            Apart(was, i, k + 1);
          }
        }
        forall k | 0 < k < |nodes|
          ensures nodes[k].prev == nodes[k - 1]
        {
          if k < i {
            Apart(was, k, i);
            Apart(was, k, i + 1);
          } else if k > i {
            Apart(was, i, k + 1);
            Apart(was, i + 1, k + 1);
          }
        }
        Apart(was, 0, i);
        Apart(was, 0, i + 1);
        Apart(was, i, |was| - 1);
        Apart(was, i - 1, |was| - 1);
      }
    }

    // threadlist_remhead: the first thread, or none when only the bookends are left.
    method RemHead() returns (r: Option<nat>)
      requires Valid()
      modifies this, nodes
      ensures Valid()
      ensures r.None? <==> old(Members()) == []
      ensures r.None? ==> Members() == []
      ensures r.Some? ==> r == old(Members())[0].self && Members() == old(Members())[1..]
    {
      var tln := head.next;
      assert tln == nodes[1] && (|nodes| > 2 ==> tln.next == nodes[2]);
      if tln.next == null {
        return None;
      }
      RemoveNode(tln, 1);
      return tln.self;
    }

    // threadlist_remtail.
    method RemTail() returns (r: Option<nat>)
      requires Valid()
      modifies this, nodes
      ensures Valid()
      ensures r.None? <==> old(Members()) == []
      ensures r.None? ==> Members() == []
      ensures r.Some? ==>
                r == old(Members())[|old(Members())| - 1].self && Members() == old(Members())[..|old(Members())| - 1]
    {
      var tln := tail.prev;
      assert tln == nodes[|nodes| - 2] && (|nodes| > 2 ==> tln.prev == nodes[|nodes| - 3]);
      if tln.prev == null {
        return None;
      }
      RemoveNode(tln, |nodes| - 2);
      return tln.self;
    }
  }

  lemma Apart(s: seq<Node>, i: nat, j: nat)
    requires Distinct(s) && i < j < |s|
    ensures s[i] != s[j]
  {}

  lemma InsertDistinct(s: seq<Node>, t: Node, i: nat)
    requires Distinct(s) && t !in s && i <= |s|
    ensures Distinct(s[..i] + [t] + s[i..])
  {}

  lemma RemoveDistinct(s: seq<Node>, i: nat)
    requires Distinct(s) && i < |s|
    ensures Distinct(s[..i] + s[i + 1..]) && s[i] !in s[..i] + s[i + 1..]
  {}
}
