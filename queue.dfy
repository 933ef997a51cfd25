/**
 * The FIFO queue of src/algorithms/utils/queue.h: a doubly linked list of
 * `struct queue` nodes behind a head node of the same type. A push links the
 * new node right after the head; a pop unlinks the node the head's `tail`
 * points at, so elements leave in the order they came. The payload is a
 * state index (the `void *` of the source).
 *
 * The ghost sequence `Nodes` lists the nodes after the head from the oldest
 * (the tail) to the newest (`head.next`), and `Contents` their payloads.
 */
module Queues {
  import opened Types

  class Queue {
    var pointer: nat
    var tail: Queue?
    var next: Queue?
    var prev: Queue?

    ghost var Contents: seq<nat>
    ghost var Nodes: seq<Queue>
    ghost var Repr: set<object>
    /** Set once a pop on the empty queue has released the head. */
    ghost var Freed: bool

    /** The head's link invariant. */
    ghost predicate Valid()
      reads this, Repr
    {
      && !Freed
      && this in Repr
      && (forall i :: 0 <= i < |Nodes| ==> Nodes[i] in Repr)
      && (forall o :: o in Repr ==> o == this || o in Nodes)
      && this !in Nodes
      && |Nodes| == |Contents|
      && (forall a, b :: 0 <= a < b < |Nodes| ==> Nodes[a] != Nodes[b])
      && (forall i :: 0 <= i < |Nodes| ==> Nodes[i].pointer == Contents[i])
      && (forall i :: 0 < i < |Nodes| ==> Nodes[i].next == Nodes[i - 1])
      && (forall i :: 0 < i < |Nodes| ==> Nodes[i - 1].prev == Nodes[i])
      && (|Nodes| == 0 ==> next == null && tail == null)
      && (|Nodes| > 0 ==>
            && next == Nodes[|Nodes| - 1]
            && tail == Nodes[0]
            && Nodes[0].next == null
            && Nodes[|Nodes| - 1].prev == this)
    }

    /** The head `calloc` returns: every link NULL. */
    constructor Empty()
      ensures Valid() && Contents == [] && fresh(Repr)
    {
      pointer, tail, next, prev := 0, null, null, null;
      Contents, Nodes, Repr, Freed := [], [], {this}, false;
    }

    /** A node of the list, as `queue_push` fills it in. */
    constructor Node(p: nat, after: Queue, before: Queue?)
      ensures pointer == p && tail == null && prev == after && next == before
      ensures Contents == [] && Nodes == [] && Repr == {this} && !Freed
    {
      pointer, tail, next, prev := p, null, before, after;
      Contents, Nodes, Repr, Freed := [], [], {this}, false;
    }

    /**
     * `queue_push(q, p)`: allocate a head when `q` is NULL, link a node for
     * `p` right after the head and return the head.
     */
    static method Push(q: Queue?, p: nat) returns (r: Queue)
      requires q != null ==> q.Valid()
      modifies if q == null then {} else q.Repr
      ensures r.Valid()
      ensures q != null ==> r == q && r.Contents == old(q.Contents) + [p]
      ensures q == null ==> r.Contents == [p] && fresh(r.Repr)
      ensures q != null ==> fresh(r.Repr - old(q.Repr))
    {
      if q == null {
        r := new Queue.Empty();
      } else {
        r := q;
      }
      r.Link(p);
    }

    /** The part of `queue_push` after the head exists: link a new node right after it. */
    method Link(p: nat)
      requires Valid()
      modifies Repr
      ensures Valid() && Contents == old(Contents) + [p] && fresh(Repr - old(Repr))
    {
      var n := new Queue.Node(p, this, next);
      assert n !in Nodes && n != this;
      next := n;
      if n.next != null {
        n.next.prev := n;
      }
      if tail == null {
        tail := n;
      }
      Nodes := Nodes + [n];
      Contents := Contents + [p];
      Repr := Repr + {n};
    }

    /**
     * `queue_pop(q)`: take the oldest element and unlink its node. On the
     * empty queue the result is NULL and the head itself is released, after
     * which the queue can no longer be used.
     */
    method Pop() returns (s: Option<nat>)
      requires Valid()
      modifies Repr
      ensures old(Contents) == [] ==> s == None && Freed
      ensures old(Contents) != [] ==>
        && s == Some(old(Contents)[0])
        && Valid()
        && Contents == old(Contents)[1..]
        && Repr <= old(Repr)
    {
      var qTail := tail;
      ghost var ns := Nodes;
      if qTail != null {
        assert |ns| > 0 && qTail == ns[0];
        assert |ns| > 1 ==> qTail.prev == ns[1];
        s := Some(qTail.pointer);
        if qTail.prev != this {
          var newTail := qTail.prev;
          tail := newTail;
          newTail.next := null;
        } else {
          tail, next := null, null;
        }
        Nodes := ns[1..];
        Contents := Contents[1..];
        Repr := Repr - {qTail};
        forall o | o in Repr ensures o == this || o in Nodes {
          if o != this {
            var i :| 0 <= i < |ns| && ns[i] == o;
            assert ns[1..][i - 1] == o;
          }
        }
      } else {
        s := None;
        Freed := true;
      }
    }

    /** Every node's `prev` is a node or the head whose `next` leads back to it. */
    lemma LinksConsistent()
      requires Valid()
      ensures forall i :: 0 <= i < |Nodes| ==> Nodes[i].prev != null && Nodes[i].prev.next == Nodes[i]
    {
      forall i | 0 <= i < |Nodes| ensures Nodes[i].prev != null && Nodes[i].prev.next == Nodes[i] {
        if i + 1 < |Nodes| {
          assert Nodes[i].prev == Nodes[i + 1];
        }
      }
    }

    /** The queue holds nothing iff its `tail` is NULL iff the head's `next` is NULL. */
    lemma EmptyLinks()
      requires Valid()
      ensures Contents == [] <==> tail == null
      ensures Contents == [] <==> next == null
    {
    }
  }

  /** Two pushes onto a fresh queue come out in the order they went in. */
  method PushPushPop(a: nat, b: nat) returns (first: Option<nat>, second: Option<nat>, third: Option<nat>)
    ensures first == Some(a) && second == Some(b) && third == None
  {
    var q := Queue.Push(null, a);
    q := Queue.Push(q, b);
    first := q.Pop();
    second := q.Pop();
    third := q.Pop();
  }
}
