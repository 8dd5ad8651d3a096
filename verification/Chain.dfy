/**
 * Singly linked nodes.  The library's lists (free lists, bucket chains, queues, timers) all hang together
 * by a `next` pointer.  A snapshot of the pointers is a map, and a chain is the sequence of nodes reached
 * by following it to NULL.
 */
module Chain {
  class Node<T> {
    var data: T
    var next: Node?<T>

    constructor (data: T)
      ensures this.data == data && next == null
    {
      this.data := data;
      next := null;
    }
  }

  type Links<T> = map<Node<T>, Node?<T>>

  /** The next pointers, and the payloads, of a set of nodes as they are now. */
  ghost function Nexts<T>(nodes: set<Node<T>>): Links<T>
    reads nodes
  {
    map n | n in nodes :: n.next
  }

  ghost function Datas<T>(nodes: set<Node<T>>): map<Node<T>, T>
    reads nodes
  {
    map n | n in nodes :: n.data
  }

  /** n->next = p, and what that does to the snapshots. */
  method SetNext<T>(n: Node<T>, p: Node?<T>, ghost nodes: set<Node<T>>)
    requires n in nodes
    modifies n`next
    ensures n.next == p && Nexts(nodes) == old(Nexts(nodes))[n := p] && Datas(nodes) == old(Datas(nodes))
  {
    n.next := p;
  }

  /** Overwriting a node's payload. */
  method SetPayload<T>(n: Node<T>, x: T, ghost nodes: set<Node<T>>)
    requires n in nodes
    modifies n`data
    ensures n.data == x && Nexts(nodes) == old(Nexts(nodes)) && Datas(nodes) == old(Datas(nodes))[n := x]
  {
    n.data := x;
  }

  /** A new node, not linked to anything. */
  method NewNode<T>(x: T, ghost nodes: set<Node<T>>) returns (n: Node<T>)
    ensures fresh(n) && n.data == x && n.next == null && n !in nodes
    ensures Nexts(nodes + {n}) == old(Nexts(nodes))[n := null] && Datas(nodes + {n}) == old(Datas(nodes))[n := x]
  {
    n := new Node<T>(x);
  }

  function Successor<T>(s: seq<Node<T>>, i: nat): Node?<T> {
    if i + 1 < |s| then s[i + 1] else null
  }

  /** s is an acyclic list: each node's successor is the next element, the last one's is NULL. */
  ghost predicate Chained<T>(s: seq<Node<T>>, next: Links<T>) {
    && (forall i :: 0 <= i < |s| ==> s[i] in next && next[s[i]] == Successor(s, i))
    && (forall i, j :: 0 <= i < j < |s| ==> s[i] != s[j])
  }

  /** A chain under the pointers as they are now. */
  ghost predicate Linked<T>(s: seq<Node<T>>)
    reads s
  {
    && (forall i :: 0 <= i < |s| ==> s[i].next == Successor(s, i))
    && (forall i, j :: 0 <= i < j < |s| ==> s[i] != s[j])
  }

  /** The payloads along a list, as they are now. */
  ghost function Payloads<T>(s: seq<Node<T>>): (r: seq<T>)
    reads s
    ensures |r| == |s| && forall i :: 0 <= i < |r| ==> r[i] == s[i].data
  {
    seq(|s|, i reads s requires 0 <= i < |s| => s[i].data)
  }

  /** Linking an unlinked node behind the last one of a list. */
  method LinkBehind<T>(ghost s: seq<Node<T>>, last: Node<T>, n: Node<T>)
    requires Linked(s) && s != [] && last == s[|s| - 1] && n !in s && n.next == null
    modifies last`next
    ensures Linked(s + [n]) && Payloads(s + [n]) == old(Payloads(s)) + [n.data]
  {
    ghost var data := Payloads(s);
    last.next := n;
    LinkedLonger(s, n);
    assert Payloads(s) == data;
  }

  lemma LinkedLonger<T>(s: seq<Node<T>>, n: Node<T>)
    requires s != [] && n !in s && n.next == null && s[|s| - 1].next == n
    requires forall i :: 0 <= i < |s| - 1 ==> s[i].next == Successor(s, i)
    requires forall i, j :: 0 <= i < j < |s| ==> s[i] != s[j]
    ensures Linked(s + [n]) && Payloads(s + [n]) == Payloads(s) + [n.data]
  {
  }

  lemma LinkedFront<T>(n: Node<T>, s: seq<Node<T>>)
    requires Linked(s) && n !in s && n.next == if s == [] then null else s[0]
    ensures Linked([n] + s) && Payloads([n] + s) == [n.data] + Payloads(s)
  {
    var t := [n] + s;
    forall i | 0 <= i < |t| ensures t[i].next == Successor(t, i) {
      assert i > 0 ==> s[i - 1].next == Successor(s, i - 1);
    }
  }

  lemma LinkedOne<T>(n: Node<T>)
    requires n.next == null
    ensures Linked([n]) && Payloads([n]) == [n.data]
  {
  }

  /** Cutting off the last node. */
  method CutLast<T>(ghost s: seq<Node<T>>, n: Node<T>)
    requires Linked(s) && |s| >= 2 && n == s[|s| - 2]
    modifies n`next
    ensures Linked(s[..|s| - 1]) && Payloads(s[..|s| - 1]) == old(Payloads(s))[..|s| - 1]
  {
    ghost var t := s[..|s| - 1];
    n.next := null;
    forall i | 0 <= i < |t| - 1 ensures t[i].next == Successor(t, i) {
      assert s[i].next == Successor(s, i);
    }
  }

  lemma LinkedTail<T>(s: seq<Node<T>>)
    requires Linked(s) && s != []
    ensures Linked(Without(s, 0)) && Payloads(Without(s, 0)) == Without(Payloads(s), 0)
    ensures s[0].next == if |s| == 1 then null else Without(s, 0)[0]
  {
    assert s[0].next == Successor(s, 0);
    var t := Without(s, 0);
    forall i | 0 <= i < |t| ensures t[i].next == Successor(t, i) {
      assert s[i + 1].next == Successor(s, i + 1);
    }
  }

  /** Unlinking element k of a list in place. */
  method Unlink<T>(ghost s: seq<Node<T>>, ghost k: nat, pre: Node<T>, cur: Node<T>)
    requires Linked(s) && 0 < k < |s| && pre == s[k - 1] && cur == s[k]
    modifies pre`next
    ensures Linked(Without(s, k)) && Payloads(Without(s, k)) == Without(old(Payloads(s)), k)
  {
    assert cur.next == Successor(s, k);
    hide Successor, Payloads;
    pre.next := cur.next;
    LinkedSkipping(s, k);
    hide Linked, Without;
  }

  /** What is left once the predecessor of element k points past it. */
  lemma LinkedSkipping<T>(s: seq<Node<T>>, k: nat)
    requires 0 < k < |s| && forall i, j :: 0 <= i < j < |s| ==> s[i] != s[j]
    requires forall i :: 0 <= i < |s| && i != k - 1 ==> s[i].next == Successor(s, i)
    requires s[k - 1].next == Successor(s, k)
    ensures Linked(Without(s, k)) && Payloads(Without(s, k)) == Without(Payloads(s), k)
  {
    WithoutDistinct(s, k);
    var t := Without(s, k);
    forall i | 0 <= i < |t| ensures t[i].next == Successor(t, i) {
      SuccessorWithout(s, k, i);
    }
    hide Successor;
    PayloadsWithout(s, k);
  }

  lemma SuccessorWithout<T>(s: seq<Node<T>>, k: nat, i: nat)
    requires k < |s| && i < |s| - 1
    ensures Without(s, k)[i] == (if i < k then s[i] else s[i + 1])
    ensures Successor(Without(s, k), i) == if i < k - 1 then Successor(s, i) else Successor(s, i + 1)
  {
  }

  lemma PayloadsWithout<T>(s: seq<Node<T>>, k: nat)
    requires k < |s|
    ensures Payloads(Without(s, k)) == Without(Payloads(s), k)
  {
  }

  /** front and rear are the two ends of the chain, both NULL when it is empty. */
  predicate Ends<T>(front: Node?<T>, rear: Node?<T>, s: seq<Node<T>>) {
    if s == [] then front == null && rear == null else front == s[0] && rear == s[|s| - 1]
  }

  /** Writing the pointer of a node outside a chain does not touch it. */
  lemma ChainFrame<T>(s: seq<Node<T>>, next: Links<T>, n: Node<T>, p: Node?<T>)
    requires Chained(s, next) && n !in s
    ensures Chained(s, next[n := p])
  {
  }

  lemma ChainTail<T>(s: seq<Node<T>>, next: Links<T>)
    requires Chained(s, next) && s != []
    ensures Chained(s[1..], next) && s[0] !in s[1..] && next[s[0]] == if |s| == 1 then null else s[1]
  {
    assert next[s[0]] == Successor(s, 0);
    forall i | 0 <= i < |s[1..]| ensures next[s[1..][i]] == Successor(s[1..], i) {
      assert next[s[i + 1]] == Successor(s, i + 1);
    }
  }

  /** Linking an unlinked node behind the last one. */
  lemma ChainAppend<T>(s: seq<Node<T>>, next: Links<T>, n: Node<T>)
    requires Chained(s, next) && n !in s && n in next && next[n] == null
    ensures Chained(s + [n], if s == [] then next else next[s[|s| - 1] := n])
  {
  }

  /** A sequence with element k left out. */
  function Without<T>(s: seq<T>, k: nat): seq<T>
    requires k < |s|
  {
    s[..k] + s[k + 1..]
  }

  lemma WithoutDistinct<T>(s: seq<T>, k: nat)
    requires k < |s| && forall i, j :: 0 <= i < j < |s| ==> s[i] != s[j]
    ensures var s' := Without(s, k); s[k] !in s' && forall i, j :: 0 <= i < j < |s'| ==> s'[i] != s'[j]
  {
    var s' := Without(s, k);
    assert forall i :: 0 <= i < |s'| ==> s'[i] == s[if i < k then i else i + 1];
  }

  /** Unlinking element k: its predecessor, if any, now points past it, and the node is gone. */
  lemma ChainUnlink<T>(s: seq<Node<T>>, next: Links<T>, k: nat)
    requires Chained(s, next) && k < |s|
    ensures next[s[k]] == Successor(s, k)
    ensures Chained(Without(s, k), (if k == 0 then next else next[s[k - 1] := next[s[k]]]) - {s[k]})
    ensures s[k] !in Without(s, k)
  {
    WithoutDistinct(s, k);
    var s' := Without(s, k);
    assert next[s[k]] == Successor(s, k);
    var next' := (if k == 0 then next else next[s[k - 1] := next[s[k]]]) - {s[k]};
    forall i | 0 <= i < |s'| ensures s'[i] in next' && next'[s'[i]] == Successor(s', i) {
      SuccessorWithout(s, k, i);
      var j := if i < k then i else i + 1;
      assert s'[i] == s[j] && next[s[j]] == Successor(s, j);
    }
    hide Without, Successor;
  }

  // ---- Buckets ---------------------------------------------------------------------------------------------

  /** A head pointer and the chain it starts. */
  ghost predicate Headed<T>(head: Node?<T>, s: seq<Node<T>>, next: Links<T>) {
    head == (if s == [] then null else s[0]) && Chained(s, next)
  }

  /** The payloads along a chain. */
  ghost function Along<T>(s: seq<Node<T>>, data: map<Node<T>, T>): (r: seq<T>)
    requires forall n :: n in s ==> n in data
    ensures |r| == |s| && forall i :: 0 <= i < |s| ==> r[i] == data[s[i]]
  {
    seq(|s|, i requires 0 <= i < |s| => data[s[i]])
  }
}
