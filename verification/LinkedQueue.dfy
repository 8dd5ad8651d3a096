/**
 * The singly linked queue with front, rear and size that the ring list, the FIFO list and the thread pool
 * share (common/ringList.cpp:160-213, common/fifoList.cpp:179-275).
 */
module LinkedQueue {
  import opened Common
  import opened Chain

  /** The bounded lists after Put, and its result: a full list first loses its oldest element, even when the item
      then turns out to be unusable. */
  function PutResult<T>(s: seq<T>, max: nat, x: Option<T>): (seq<T>, int) {
    if |s| == max && s == [] then (s, -1)
    else
      var rest := if |s| == max then s[1..] else s;
      match x case None => (rest, -1) case Some(v) => (rest + [v], 0)
  }

  /** The list after taking its oldest element, if there is one. */
  function PopResult<T>(s: seq<T>): (seq<T>, Option<T>) {
    if s == [] then (s, None) else (s[1..], Some(s[0]))
  }

  class Queue<T> {
    var size: nat
    var front: Node?<T>
    var rear: Node?<T>
    ghost var spine: seq<Node<T>>
    ghost var Repr: set<object>

    /** An acyclic list of `size` nodes from front to rear; both ends NULL when it is empty. */
    ghost predicate Valid()
      reads this, Repr
      ensures Valid() ==> this in Repr
    {
      && this in Repr && (forall n :: n in spine ==> n in Repr)
      && size == |spine| && Ends(front, rear, spine) && Linked(spine)
    }

    /** The payloads from front to rear. */
    ghost function Contents(): (c: seq<T>)
      requires Valid()
      reads this, Repr
    {
      Payloads(spine)
    }

    lemma SizeIsLength()
      requires Valid()
      ensures size == |Contents()|
      ensures size > 0 ==> front != null && front.data == Contents()[0]
    {
    }

    constructor ()
      ensures Valid() && Contents() == [] && fresh(Repr)
    {
      size, front, rear, spine := 0, null, null, [];
      Repr := {this};
    }

    /** Append a node at the rear. */
    method AddNode(data: T)
      requires Valid()
      modifies Repr
      ensures Valid() && Contents() == old(Contents()) + [data] && size == old(size) + 1
      ensures fresh(Repr - old(Repr))
    {
      hide Linked, Payloads;
      var pNode := new Node(data);
      ghost var s := spine;
      assert pNode !in s;
      LinkedOne(pNode);
      if size == 0 {
        front := pNode;
        rear := pNode;
      } else {
        LinkBehind(s, rear, pNode);
        rear := pNode;
      }
      size := size + 1;
      spine := s + [pNode];
      assert s == [] ==> spine == [pNode] && old(Payloads(s)) + [data] == [data];
      Repr := Repr + {pNode};
    }

    /** Remove the front node; -1 if there is none. */
    method DelNode() returns (ret: int)
      requires Valid()
      modifies Repr
      ensures Valid() && ret == if old(size) > 0 then 0 else -1
      ensures Contents() == if old(size) > 0 then old(Contents())[1..] else []
      ensures Repr == old(Repr)
    {
      ret := -1;
      if size > 0 {
        ghost var s := spine;
        TailLinked(s);
        EndsApart(front, rear, s);
        hide Linked, Payloads;
        if front == rear {
          front := null;
          rear := null;
          size := 0;
        } else {
          front := front.next;
          size := size - 1;
        }
        spine := s[1..];
        ret := 0;
      }
    }

    /** Remove the rear node, found by walking from the front; -1 if there is none. */
    method DelNodeRear() returns (ret: int)
      requires Valid()
      modifies Repr
      ensures Valid() && ret == if old(size) > 0 then 0 else -1
      ensures Contents() == if old(size) > 0 then old(Contents())[..old(size) - 1] else []
      ensures Repr == old(Repr)
    {
      hide Linked, Payloads;
      ret := -1;
      if size > 0 {
        ghost var s := spine;
        front, rear := UnlinkRear(front, rear, s);
        size := size - 1;
        spine := s[..|s| - 1];
        ret := 0;
      }
    }
  }

  /** Both ends once the last node is cut off. */
  method UnlinkRear<T>(front: Node<T>, rear: Node<T>, ghost s: seq<Node<T>>) returns (front': Node?<T>, rear': Node?<T>)
    requires Linked(s) && s != [] && Ends(front, rear, s)
    modifies s
    ensures var t := s[..|s| - 1]; Linked(t) && Ends(front', rear', t) && Payloads(t) == old(Payloads(s))[..|s| - 1]
  {
    EndsApart(front, rear, s);
    NothingLinked(s[..0]);
    if front == rear {
      return null, null;
    }
    var pNode := FindBefore(front, rear, s);
    hide Linked, Payloads;
    CutLast(s, pNode);
    return front, pNode;
  }

  /** The walk to the last node but one. */
  method FindBefore<T>(front: Node<T>, rear: Node<T>, ghost s: seq<Node<T>>) returns (pNode: Node<T>)
    requires Linked(s) && |s| >= 2 && Ends(front, rear, s)
    ensures pNode == s[|s| - 2]
  {
    pNode := front;
    ghost var i := 0;
    while pNode.next != rear
      invariant 0 <= i < |s| - 1 && pNode == s[i]
      decreases |s| - i
    {
      pNode := pNode.next;
      i := i + 1;
    }
  }

  /** Front and rear coincide only in a list of one node. */
  lemma EndsApart<T>(front: Node?<T>, rear: Node?<T>, s: seq<Node<T>>)
    requires Linked(s) && Ends(front, rear, s) && s != []
    ensures front == rear <==> |s| == 1
  {
  }

  lemma NothingLinked<T>(s: seq<Node<T>>)
    requires s == []
    ensures Linked(s) && Payloads(s) == []
  {
  }

  lemma TailLinked<T>(s: seq<Node<T>>)
    requires Linked(s) && s != []
    ensures Linked(s[1..]) && Payloads(s[1..]) == Payloads(s)[1..]
    ensures s[0].next == if |s| == 1 then null else s[1]
  {
    LinkedTail(s);
    assert Without(s, 0) == s[1..] && Without(Payloads(s), 0) == Payloads(s)[1..];
  }
}
