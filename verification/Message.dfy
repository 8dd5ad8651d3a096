/**
 * CMessage on the heap (common/message.cpp): bucket heads in an array, messages hanging off them through
 * `next`.  Send appends by walking to the end; Recv unlinks the first node of the id.
 */
module Message {
  import opened Chain
  import opened Common
  import opened MessageStore

  type MsgNode = Node<Msg>
  type Ref = Node?<Msg>

  /** Bucket c's chain, whose messages all hash to c. */
  ghost predicate BucketOk(head: Ref, s: seq<MsgNode>, next: Links<Msg>, data: map<MsgNode, Msg>, c: nat) {
    Headed(head, s, next) && forall n :: n in s ==> n in data && NodeIndex(data[n].id) == c
  }

  ghost predicate BucketsOk(heads: seq<Ref>, next: Links<Msg>, data: map<MsgNode, Msg>, chains: seq<seq<MsgNode>>) {
    && |heads| == |chains| == MAX_NODE && next.Keys == data.Keys
    && forall c :: 0 <= c < MAX_NODE ==> BucketOk(heads[c], chains[c], next, data, c)
  }

  ghost predicate Defined(chains: seq<seq<MsgNode>>, data: map<MsgNode, Msg>) {
    forall c, n :: 0 <= c < |chains| && n in chains[c] ==> n in data
  }

  /** What the buckets hold. */
  ghost function Contents(chains: seq<seq<MsgNode>>, data: map<MsgNode, Msg>): (b: seq<seq<Msg>>)
    requires Defined(chains, data)
    ensures |b| == |chains|
  {
    seq(|chains|, c requires 0 <= c < |chains| => Along(chains[c], data))
  }

  ghost function LinkedBehind(s: seq<MsgNode>, next: Links<Msg>, n: MsgNode): Links<Msg> {
    if s == [] then next else next[s[|s| - 1] := n]
  }

  lemma BucketAppend(head: Ref, s: seq<MsgNode>, next: Links<Msg>, data: map<MsgNode, Msg>, c: nat, n: MsgNode, m: Msg)
    requires BucketOk(head, s, next, data, c) && n !in next && next.Keys == data.Keys && NodeIndex(m.id) == c
    ensures BucketOk(if s == [] then n else head, s + [n], LinkedBehind(s, next[n := null], n), data[n := m], c)
  {
    ChainFrame(s, next, n, null);
    ChainAppend(s, next[n := null], n);
  }

  /** A bucket does not notice nodes of other buckets changing. */
  lemma BucketFrame(head: Ref, s: seq<MsgNode>, next: Links<Msg>, next': Links<Msg>, data: map<MsgNode, Msg>,
                    data': map<MsgNode, Msg>, c: nat)
    requires BucketOk(head, s, next, data, c)
    requires forall n :: n in s ==> n in next && n in next' && next'[n] == next[n] && n in data' && data'[n] == data[n]
    ensures BucketOk(head, s, next', data', c)
  {
  }

  lemma BucketsAppend(heads: seq<Ref>, next: Links<Msg>, data: map<MsgNode, Msg>, chains: seq<seq<MsgNode>>,
                      n: MsgNode, m: Msg)
    requires BucketsOk(heads, next, data, chains) && n !in data
    ensures var c := NodeIndex(m.id);
            BucketsOk(if chains[c] == [] then heads[c := n] else heads, LinkedBehind(chains[c], next[n := null], n),
                      data[n := m], chains[c := chains[c] + [n]])
  {
    hide Headed, NodeIndex;
    var c := NodeIndex(m.id);
    var next', data' := LinkedBehind(chains[c], next[n := null], n), data[n := m];
    BucketAppend(heads[c], chains[c], next, data, c, n, m);
    forall d | 0 <= d < MAX_NODE && d != c ensures BucketOk(heads[d], chains[d], next', data', d) {
      BucketInLinks(heads[d], chains[d], next, data, d);
      assert BucketOk(heads[c], chains[c], next, data, c);
      BucketFrame(heads[d], chains[d], next, next', data, data', d);
    }
  }

  lemma BucketInLinks(head: Ref, s: seq<MsgNode>, next: Links<Msg>, data: map<MsgNode, Msg>, c: nat)
    requires BucketOk(head, s, next, data, c)
    ensures forall n :: n in s ==> n in next
  {
  }

  lemma UnlinkedOnce(head: Ref, s: seq<MsgNode>, next: Links<Msg>, data: map<MsgNode, Msg>, c: nat, k: nat)
    requires BucketOk(head, s, next, data, c) && k < |s|
    ensures s[k] !in Without(s, k)
  {
    ChainUnlink(s, next, k);
  }

  lemma BucketUnlink(head: Ref, s: seq<MsgNode>, next: Links<Msg>, data: map<MsgNode, Msg>, c: nat, k: nat)
    requires BucketOk(head, s, next, data, c) && k < |s|
    ensures s[k] in next
    ensures BucketOk(if k == 0 then next[s[0]] else head, Without(s, k),
                     (if k == 0 then next else next[s[k - 1] := next[s[k]]]) - {s[k]}, data - {s[k]}, c)
  {
    ChainUnlink(s, next, k);
  }

  lemma BucketsUnlink(heads: seq<Ref>, next: Links<Msg>, data: map<MsgNode, Msg>, chains: seq<seq<MsgNode>>,
                      c: nat, k: nat)
    requires BucketsOk(heads, next, data, chains) && c < MAX_NODE && k < |chains[c]|
    ensures chains[c][k] in next
    ensures var s := chains[c];
            BucketsOk(if k == 0 then heads[c := next[s[0]]] else heads,
                      (if k == 0 then next else next[s[k - 1] := next[s[k]]]) - {s[k]},
                      data - {s[k]}, chains[c := Without(s, k)])
    ensures forall d, n :: 0 <= d < |chains| && n in Unlinked(chains, c, k)[d] ==> n != chains[c][k]
  {
    hide Headed, NodeIndex;
    UnlinkedOnce(heads[c], chains[c], next, data, c, k);
    var s := chains[c];
    BucketUnlink(heads[c], s, next, data, c, k);
    var next', data' := (if k == 0 then next else next[s[k - 1] := next[s[k]]]) - {s[k]}, data - {s[k]};
    forall d | 0 <= d < MAX_NODE && d != c ensures BucketOk(heads[d], chains[d], next', data', d) {
      BucketInLinks(heads[d], chains[d], next, data, d);
      assert BucketOk(heads[c], chains[c], next, data, c);
      BucketFrame(heads[d], chains[d], next, next', data, data', d);
    }
    BucketInLinks(heads[c], s, next, data, c);
  }

  class CMessage {
    const node: array<Ref>
    ghost var nodes: set<MsgNode>
    ghost var chains: seq<seq<MsgNode>>

    ghost predicate Valid()
      reads this, node, nodes
    {
      BucketsOk(node[..], Nexts(nodes), Datas(nodes), chains)
    }

    /** The buckets as values. */
    ghost function Buckets(): (b: seq<seq<Msg>>)
      requires Valid()
      reads this, node, nodes
      ensures |b| == MAX_NODE
    {
      Contents(chains, Datas(nodes))
    }

    /** The bodies waiting under an id, oldest first. */
    ghost function InBox(id: nat): seq<Bytes>
      requires Valid()
      reads this, node, nodes
    {
      Waiting(Buckets(), id)
    }

    constructor ()
      ensures Valid() && Buckets() == seq(MAX_NODE, _ => [])
      ensures fresh(node) && nodes == {}
    {
      node := new Ref[MAX_NODE](_ => null);
      nodes, chains := {}, seq(MAX_NODE, _ => []);
    }

    /** The last node of a chain, reached from its head. */
    method Last(head: Ref, ghost s: seq<MsgNode>) returns (pPrev: Ref)
      requires Headed(head, s, Nexts(nodes))
      ensures pPrev == if s == [] then null else s[|s| - 1]
      ensures pPrev != null ==> pPrev in nodes
    {
      assert forall n :: n in s ==> n in Nexts(nodes);
      var pNext := head;
      pPrev := null;
      ghost var i := 0;
      while pNext != null
        invariant 0 <= i <= |s|
        invariant pNext == if i < |s| then s[i] else null
        invariant pPrev == if i == 0 then null else s[i - 1]
        decreases |s| - i
      {
        pPrev := pNext;
        assert Nexts(nodes)[s[i]] == Successor(s, i);
        pNext := pNext.next;
        i := i + 1;
      }
    }

    /** The locked section of Send: link the node behind the last one of its bucket. */
    method LinkLast(pNode: MsgNode, nodeIndex: nat, ghost s: seq<MsgNode>)
      requires nodeIndex < node.Length && pNode in nodes && Headed(node[nodeIndex], s, Nexts(nodes))
      modifies node, nodes
      ensures node[..] == if s == [] then old(node[..])[nodeIndex := pNode] else old(node[..])
      ensures Nexts(nodes) == LinkedBehind(s, old(Nexts(nodes)), pNode) && Datas(nodes) == old(Datas(nodes))
    {
      if node[nodeIndex] == null {
        node[nodeIndex] := pNode;
      } else {
        var pPrev := Last(node[nodeIndex], s);
        hide Headed, Nexts, Datas;
        SetNext(pPrev, pNode, nodes);
      }
    }

    /** msgBuf is None for a NULL pointer; msgLen bytes of it are copied. */
    method Send(msgId: nat, msgBuf: Option<Bytes>, msgLen: int) returns (ret: int)
      requires Valid() && (msgBuf.Some? ==> msgLen <= |msgBuf.value|)
      modifies this, node, nodes
      ensures Valid() && fresh(nodes - old(nodes))
      ensures ret == if msgBuf.None? then 0 else msgLen
      ensures Buckets()
           == Enqueue(old(Buckets()), Msg(msgId, if msgBuf.Some? && msgLen > 0 then msgBuf.value[..msgLen] else []))
      ensures InBox(msgId) == old(InBox(msgId)) + [if msgBuf.Some? && msgLen > 0 then msgBuf.value[..msgLen] else []]
      ensures forall id :: id != msgId ==> InBox(id) == old(InBox(id))
    {
      hide BucketsOk, NodeIndex, Enqueue, Contents, Waiting;
      ret := if msgBuf.None? then 0 else msgLen;
      ghost var was := Buckets();
      forall id: nat, m: Msg
        ensures Waiting(Enqueue(was, m), id) == Waiting(was, id) + if id == m.id then [m.body] else []
      {
        EnqueueWaits(was, m, id);
      }
      Insert(Msg(msgId, if msgBuf.Some? && ret > 0 then msgBuf.value[..ret] else []));
    }

    method Insert(m: Msg)
      requires Valid()
      modifies this, node, nodes
      ensures Valid() && fresh(nodes - old(nodes)) && Buckets() == Enqueue(old(Buckets()), m)
    {
      hide BucketsOk, NodeIndex, Enqueue, LinkedBehind, Headed, Contents, Defined;
      var nodeIndex := NodeIndex(m.id);
      ghost var h, next, data, was := node[..], Nexts(nodes), Datas(nodes), chains;
      var pNode := NewNode(m, nodes);
      nodes := nodes + {pNode};
      SendEffect(h, next, data, was, pNode, m);
      hide Nexts, Datas;
      LinkLast(pNode, nodeIndex, was[nodeIndex]);
      chains := was[nodeIndex := was[nodeIndex] + [pNode]];
    }

    /** The walk of Recv: the first node of the id and its predecessor. */
    method Search(head: Ref, msgId: nat, ghost s: seq<MsgNode>) returns (pPrev: Ref, pNext: Ref, ghost k: nat)
      requires Headed(head, s, Nexts(nodes))
      ensures forall n :: n in s ==> n in Datas(nodes)
      ensures k == Oldest(Along(s, Datas(nodes)), msgId)
      ensures var j := Oldest(Along(s, Datas(nodes)), msgId);
              pNext == (if j < |s| then s[j] else null) && pPrev == (if j == 0 then null else s[j - 1])
      ensures forall n :: n in s ==> n in nodes
    {
      assert forall n :: n in s ==> n in Nexts(nodes);
      ghost var b := Along(s, Datas(nodes));
      pPrev, pNext, k := null, head, 0;
      while pNext != null && pNext.data.id != msgId
        invariant 0 <= k <= |s|
        invariant pNext == if k < |s| then s[k] else null
        invariant pPrev == if k == 0 then null else s[k - 1]
        invariant forall j :: 0 <= j < k ==> b[j].id != msgId
        decreases |s| - k
      {
        assert b[k] == s[k].data;
        pPrev := pNext;
        assert Nexts(nodes)[s[k]] == Successor(s, k);
        pNext := pNext.next;
        k := k + 1;
      }
      assert k < |s| ==> b[k] == s[k].data;
      OldestIs(b, msgId, k);
    }

    /** Unlink node k of a bucket and drop it. */
    method Unlink(nodeIndex: nat, pPrev: Ref, pNext: MsgNode, ghost s: seq<MsgNode>, ghost k: nat)
      requires nodeIndex < node.Length && k < |s| && pNext == s[k] && pPrev == if k == 0 then null else s[k - 1]
      requires forall n :: n in s ==> n in nodes
      modifies this`nodes, node, nodes
      ensures nodes == old(nodes) - {pNext} && pNext in old(Nexts(nodes))
      ensures node[..] == if k == 0 then old(node[..])[nodeIndex := old(Nexts(nodes))[pNext]] else old(node[..])
      ensures Nexts(nodes) == (if k == 0 then old(Nexts(nodes))
                               else old(Nexts(nodes))[s[k - 1] := old(Nexts(nodes))[pNext]]) - {pNext}
      ensures Datas(nodes) == old(Datas(nodes)) - {pNext}
    {
      assert pNext in Nexts(nodes);
      if pPrev == null {
        node[nodeIndex] := pNext.next;
      } else {
        SetNext(pPrev, pNext.next, nodes);
      }
      nodes := nodes - {pNext};
    }

    /** msgBuf is null when the caller wants no copy; at most msgLen bytes are copied into it. */
    method Recv(msgId: nat, msgBuf: array?<bv8>, msgLen: int) returns (ret: int)
      requires Valid() && (msgBuf != null ==> msgLen <= msgBuf.Length)
      requires msgBuf != null ==> msgBuf as object != node // their element types differ
      modifies this, node, nodes, msgBuf
      ensures Valid() && nodes <= old(nodes) && Buckets() == Dequeue(old(Buckets()), msgId).0
      ensures forall id :: id != msgId ==> InBox(id) == old(InBox(id))
      ensures InBox(msgId) == if old(InBox(msgId)) == [] then [] else old(InBox(msgId))[1..]
      ensures ret == if old(InBox(msgId)) == [] then -1
                     else if msgBuf == null then 0
                     else if msgLen <= 0 || old(InBox(msgId))[0] == [] then -1
                     else if msgLen < |old(InBox(msgId))[0]| then msgLen else |old(InBox(msgId))[0]|
      ensures msgBuf != null ==>
                msgBuf[..] == if ret > 0 then old(InBox(msgId))[0][..ret] + old(msgBuf[ret..]) else old(msgBuf[..])
    {
      hide BucketsOk, NodeIndex, Dequeue, Contents, Waiting;
      ret := -1;
      ghost var was := Buckets();
      var m := TakeOldest(msgId);
      forall id ensures var (b, r) := Dequeue(was, msgId);
                        && |b| == MAX_NODE && (id != msgId ==> Waiting(b, id) == Waiting(was, id))
      {
        DequeueWaits(was, msgId, id);
      }
      DequeueWaits(was, msgId, msgId);
      if m.Some? {
        ret := CopyOut(msgBuf, msgLen, m.value.body);
      }
    }

    method TakeOldest(msgId: nat) returns (m: Option<Msg>)
      requires Valid()
      modifies this, node, nodes
      ensures Valid() && nodes <= old(nodes) && (Buckets(), m) == Dequeue(old(Buckets()), msgId)
    {
      hide BucketsOk, NodeIndex, Dequeue, Headed, Contents, Defined, Unlinked, Oldest;
      m := None;
      var nodeIndex := NodeIndex(msgId);
      ghost var h, next, data, was := node[..], Nexts(nodes), Datas(nodes), chains;
      RecvEffect(h, next, data, was, msgId);
      ghost var s := was[nodeIndex];
      if node[nodeIndex] == null {
        return;
      }
      var pPrev, pNext, k := Search(node[nodeIndex], msgId, s);
      if pNext != null {
        m := Some(pNext.data);
        assert pNext.data == data[pNext];
        hide Nexts, Datas;
        Unlink(nodeIndex, pPrev, pNext, s, k);
        chains := Unlinked(was, nodeIndex, k);
      }
    }

    /** The copying part of Recv. */
    method CopyOut(msgBuf: array?<bv8>, msgLen: int, body: Bytes) returns (ret: int)
      requires msgBuf != null ==> msgLen <= msgBuf.Length
      modifies msgBuf
      ensures ret == if msgBuf == null then 0
                     else if msgLen <= 0 || body == [] then -1
                     else if msgLen < |body| then msgLen else |body|
      ensures msgBuf != null ==> msgBuf[..] == if ret > 0 then body[..ret] + old(msgBuf[ret..]) else old(msgBuf[..])
    {
      ret := -1;
      var len := msgLen;
      if msgBuf == null {
        len := 0;
        ret := 0;
      }
      if len > |body| {
        len := |body|;
      }
      if len > 0 {
        forall i | 0 <= i < len { msgBuf[i] := body[i]; }
        ret := len;
      }
    }
  }

  /** A message sent to an id with nothing waiting is what the next Recv of that id gets, whole if there is room. */
  method SendThenRecv(store: CMessage, msgId: nat, body: Bytes, msgBuf: array<bv8>) returns (sent: int, got: int)
    requires store.Valid() && store.InBox(msgId) == []
    requires 0 < |body| <= msgBuf.Length && msgBuf as object != store.node
    modifies store, store.node, store.nodes, msgBuf
    ensures store.Valid() && store.Buckets() == old(store.Buckets())
    ensures sent == got == |body| && msgBuf[..got] == body && msgBuf[got..] == old(msgBuf[got..])
  {
    hide BucketsOk, Enqueue, Dequeue, Contents, Waiting;
    ghost var was := store.Buckets();
    EnqueueDequeue(was, Msg(msgId, body));
    assert body[..|body|] == body;
    sent := store.Send(msgId, Some(body), |body|);
    got := store.Recv(msgId, msgBuf, msgBuf.Length);
  }

  lemma ContentsUnlink(chains: seq<seq<MsgNode>>, data: map<MsgNode, Msg>, c: nat, k: nat)
    requires c < |chains| && k < |chains[c]| && Defined(chains, data)
    requires forall d, n :: 0 <= d < |chains| && n in Unlinked(chains, c, k)[d] ==> n != chains[c][k]
    ensures var chains', data' := Unlinked(chains, c, k), data - {chains[c][k]};
            && Defined(chains', data')
            && Contents(chains', data') == Contents(chains, data)[c := Without(Contents(chains, data)[c], k)]
  {
    var chains', data' := Unlinked(chains, c, k), data - {chains[c][k]};
    forall d | 0 <= d < |chains|
      ensures (forall n :: n in chains'[d] ==> n in data')
      ensures Along(chains'[d], data') == if d == c then Without(Along(chains[c], data), k) else Along(chains[d], data)
    {
    }
  }

  ghost function Unlinked(chains: seq<seq<MsgNode>>, c: nat, k: nat): (r: seq<seq<MsgNode>>)
    requires c < |chains| && k < |chains[c]|
    ensures |r| == |chains|
  {
    chains[c := Without(chains[c], k)]
  }

  lemma ContentsAppend(chains: seq<seq<MsgNode>>, data: map<MsgNode, Msg>, c: nat, n: MsgNode, m: Msg)
    requires c < |chains| && n !in data && Defined(chains, data)
    ensures var chains', data' := chains[c := chains[c] + [n]], data[n := m];
            && Defined(chains', data')
            && Contents(chains', data') == Contents(chains, data)[c := Contents(chains, data)[c] + [m]]
  {
    var chains', data' := chains[c := chains[c] + [n]], data[n := m];
    forall d | 0 <= d < |chains|
      ensures Along(chains'[d], data') == if d == c then Along(chains[c], data) + [m] else Along(chains[d], data)
    {
    }
  }

  lemma ContentsDefined(heads: seq<Ref>, next: Links<Msg>, data: map<MsgNode, Msg>, chains: seq<seq<MsgNode>>)
    requires BucketsOk(heads, next, data, chains)
    ensures Defined(chains, data) && |chains| == MAX_NODE
  {
    forall c | 0 <= c < MAX_NODE ensures BucketOk(heads[c], chains[c], next, data, c) {}
  }

  lemma HeadedFrame(head: Ref, s: seq<MsgNode>, next: Links<Msg>, n: MsgNode)
    requires Headed(head, s, next) && n !in next
    ensures Headed(head, s, next[n := null])
  {
    ChainFrame(s, next, n, null);
  }

  lemma BucketFacts(heads: seq<Ref>, next: Links<Msg>, data: map<MsgNode, Msg>, chains: seq<seq<MsgNode>>, c: nat)
    requires BucketsOk(heads, next, data, chains) && c < MAX_NODE
    ensures |heads| == |chains| == MAX_NODE && Headed(heads[c], chains[c], next)
    ensures heads[c] == null <==> chains[c] == []
    ensures forall n :: n in chains[c] ==> n in next && n in data
  {
    assert BucketOk(heads[c], chains[c], next, data, c);
  }

  /** Linking a new node behind its bucket's chain is an enqueue. */
  lemma SendEffect(heads: seq<Ref>, next: Links<Msg>, data: map<MsgNode, Msg>, chains: seq<seq<MsgNode>>,
                   n: MsgNode, m: Msg)
    requires BucketsOk(heads, next, data, chains) && n !in data
    ensures var c := NodeIndex(m.id);
            && |heads| == |chains| == MAX_NODE && Headed(heads[c], chains[c], next[n := null])
            && (heads[c] == null <==> chains[c] == [])
            && BucketsOk(if chains[c] == [] then heads[c := n] else heads, LinkedBehind(chains[c], next[n := null], n),
                         data[n := m], chains[c := chains[c] + [n]])
    ensures var c := NodeIndex(m.id);
            && Defined(chains, data) && Defined(chains[c := chains[c] + [n]], data[n := m])
            && Contents(chains[c := chains[c] + [n]], data[n := m]) == Enqueue(Contents(chains, data), m)
  {
    var c := NodeIndex(m.id);
    assert next.Keys == data.Keys;
    hide BucketsOk, NodeIndex, Headed, LinkedBehind, Contents, Defined;
    ContentsDefined(heads, next, data, chains);
    BucketFacts(heads, next, data, chains, c);
    HeadedFrame(heads[c], chains[c], next, n);
    BucketsAppend(heads, next, data, chains, n, m);
    ContentsAppend(chains, data, c, n, m);
    ContentsAt(chains, data, c);
  }

  lemma ContentsAt(chains: seq<seq<MsgNode>>, data: map<MsgNode, Msg>, c: nat)
    requires c < |chains| && Defined(chains, data)
    ensures (forall n :: n in chains[c] ==> n in data) && Contents(chains, data)[c] == Along(chains[c], data)
  {
  }

  /** Unlinking the oldest node of an id is a dequeue; when there is none the store does not change. */
  lemma RecvEffect(heads: seq<Ref>, next: Links<Msg>, data: map<MsgNode, Msg>, chains: seq<seq<MsgNode>>, id: nat)
    requires BucketsOk(heads, next, data, chains)
    ensures var c := NodeIndex(id);
            && |heads| == |chains| == MAX_NODE && Headed(heads[c], chains[c], next)
            && (heads[c] == null <==> chains[c] == [])
            && Defined(chains, data) && forall n :: n in chains[c] ==> n in next && n in data
    ensures var c := NodeIndex(id);
            var s := chains[c];
            var k := Oldest(Along(s, data), id);
            if k == |s| then Dequeue(Contents(chains, data), id) == (Contents(chains, data), None)
            else
              && BucketsOk(if k == 0 then heads[c := next[s[0]]] else heads,
                           (if k == 0 then next else next[s[k - 1] := next[s[k]]]) - {s[k]},
                           data - {s[k]}, Unlinked(chains, c, k))
              && Defined(Unlinked(chains, c, k), data - {s[k]})
              && Dequeue(Contents(chains, data), id)
                 == (Contents(Unlinked(chains, c, k), data - {s[k]}), Some(data[s[k]]))
  {
    var c := NodeIndex(id);
    hide BucketsOk, NodeIndex, Headed, Contents, Defined, Oldest;
    ContentsDefined(heads, next, data, chains);
    BucketFacts(heads, next, data, chains, c);
    ContentsAt(chains, data, c);
    var k := Oldest(Along(chains[c], data), id);
    if k < |chains[c]| {
      BucketsUnlink(heads, next, data, chains, c, k);
      ContentsUnlink(chains, data, c, k);
    }
  }
}
