/**
 * The message store's buckets as values (common/message.cpp): many ids share a bucket, and each id is a
 * FIFO queue inside it.
 */
module MessageStore {
  import opened Common
  import opened Chain

  const MAX_NODE: nat := 20000
  const MAX_MUTEX: nat := 40

  type Bytes = seq<bv8>

  datatype Msg = Msg(id: nat, body: Bytes)

  function NodeIndex(id: nat): (i: nat)
    ensures i < MAX_NODE
  {
    id % MAX_NODE
  }

  function MutexIndex(id: nat): (i: nat)
    ensures i < MAX_MUTEX
  {
    id % MAX_MUTEX
  }

  /** Ids that share a bucket share a mutex, because 40 divides 20000. */
  lemma SameBucketSameMutex(i: nat, j: nat)
    requires NodeIndex(i) == NodeIndex(j)
    ensures MutexIndex(i) == MutexIndex(j)
  {
    var p, q, r := i / MAX_NODE, j / MAX_NODE, i % MAX_NODE;
    assert i == r + p * 500 * MAX_MUTEX && j == r + q * 500 * MAX_MUTEX;
    CyclicTurns(r, p * 500, MAX_MUTEX);
    CyclicTurns(r, q * 500, MAX_MUTEX);
  }

  /** The bodies waiting under an id, oldest first. */
  function Pending(b: seq<Msg>, id: nat): seq<Bytes> {
    if b == [] then []
    else (if b[0].id == id then [b[0].body] else []) + Pending(b[1..], id)
  }

  /** Where the oldest message of an id is; the length if there is none. */
  function Oldest(b: seq<Msg>, id: nat): (k: nat)
    ensures k <= |b| && (k < |b| ==> b[k].id == id) && forall j :: 0 <= j < k ==> b[j].id != id
  {
    if b == [] || b[0].id == id then 0 else 1 + Oldest(b[1..], id)
  }

  lemma {:induction false} OldestIs(b: seq<Msg>, id: nat, k: nat)
    requires k <= |b| && (k < |b| ==> b[k].id == id) && forall j :: 0 <= j < k ==> b[j].id != id
    ensures Oldest(b, id) == k
  {
    if k > 0 { OldestIs(b[1..], id, k - 1); }
  }

  lemma {:induction false} PendingConcat(a: seq<Msg>, b: seq<Msg>, id: nat)
    ensures Pending(a + b, id) == Pending(a, id) + Pending(b, id)
  {
    if a == [] {
      assert a + b == b;
    } else {
      assert (a + b)[0] == a[0] && (a + b)[1..] == a[1..] + b;
      PendingConcat(a[1..], b, id);
    }
  }

  lemma {:induction false} PendingNone(b: seq<Msg>, id: nat)
    requires forall j :: 0 <= j < |b| ==> b[j].id != id
    ensures Pending(b, id) == []
  {
    if b != [] { PendingNone(b[1..], id); }
  }

  /** Linking a message behind the last one is an enqueue for its id and nothing to the others. */
  lemma AppendEnqueues(b: seq<Msg>, m: Msg, id: nat)
    ensures Pending(b + [m], id) == Pending(b, id) + if id == m.id then [m.body] else []
  {
    PendingConcat(b, [m], id);
    assert [m][1..] == [];
  }

  lemma PendingAround(b: seq<Msg>, k: nat, id: nat)
    requires k < |b|
    ensures Pending(b, id)
         == Pending(b[..k], id) + ((if id == b[k].id then [b[k].body] else []) + Pending(b[k + 1..], id))
    ensures Pending(Without(b, k), id) == Pending(b[..k], id) + Pending(b[k + 1..], id)
  {
    var rest := [b[k]] + b[k + 1..];
    assert b == b[..k] + rest && rest[1..] == b[k + 1..];
    PendingConcat(b[..k], rest, id);
    PendingConcat(b[..k], b[k + 1..], id);
  }

  /** Unlinking the first message of an id is a dequeue for that id and nothing to the others. */
  lemma UnlinkDequeues(b: seq<Msg>, k: nat, id: nat)
    requires k < |b| && forall j :: 0 <= j < k ==> b[j].id != b[k].id
    ensures Pending(b, b[k].id) == [b[k].body] + Pending(Without(b, k), b[k].id)
    ensures id != b[k].id ==> Pending(Without(b, k), id) == Pending(b, id)
  {
    hide Without, Pending;
    PendingNone(b[..k], b[k].id);
    PendingAround(b, k, b[k].id);
    if id != b[k].id {
      PendingAround(b, k, id);
      assert [] + Pending(b[k + 1..], id) == Pending(b[k + 1..], id);
    }
  }

  /** The buckets after a send. */
  function Enqueue(b: seq<seq<Msg>>, m: Msg): (b': seq<seq<Msg>>)
    requires |b| == MAX_NODE
    ensures |b'| == MAX_NODE
  {
    b[NodeIndex(m.id) := b[NodeIndex(m.id)] + [m]]
  }

  /** The buckets after a receive, and what it got. */
  function Dequeue(b: seq<seq<Msg>>, id: nat): (seq<seq<Msg>>, Option<Msg>)
    requires |b| == MAX_NODE
  {
    var c := NodeIndex(id);
    var k := Oldest(b[c], id);
    if k == |b[c]| then (b, None) else (b[c := Without(b[c], k)], Some(b[c][k]))
  }

  /** No match in the whole bucket means nothing is waiting. */
  lemma NoMatchNothingPending(b: seq<Msg>, id: nat)
    ensures Oldest(b, id) == |b| <==> Pending(b, id) == []
  {
    var k := Oldest(b, id);
    if k == |b| {
      PendingNone(b, id);
    } else {
      UnlinkDequeues(b, k, id);
    }
  }

  /** The bodies waiting in the store under an id, oldest first. */
  function Waiting(b: seq<seq<Msg>>, id: nat): seq<Bytes>
    requires |b| == MAX_NODE
  {
    Pending(b[NodeIndex(id)], id)
  }

  /** An enqueue is one more body waiting under its id, behind the others. */
  lemma EnqueueWaits(b: seq<seq<Msg>>, m: Msg, id: nat)
    requires |b| == MAX_NODE
    ensures Waiting(Enqueue(b, m), id) == Waiting(b, id) + if id == m.id then [m.body] else []
  {
    hide NodeIndex, Pending;
    AppendEnqueues(b[NodeIndex(m.id)], m, id);
  }

  /** A dequeue takes the body that waited longest under its id, if there is one. */
  lemma DequeueWaits(b: seq<seq<Msg>>, id: nat, other: nat)
    requires |b| == MAX_NODE
    ensures var (b', r) := Dequeue(b, id);
            && |b'| == MAX_NODE && (other != id ==> Waiting(b', other) == Waiting(b, other))
            && if Waiting(b, id) == [] then r == None && b' == b
               else r == Some(Msg(id, Waiting(b, id)[0])) && Waiting(b', id) == Waiting(b, id)[1..]
  {
    hide NodeIndex, Pending, Oldest, Without;
    var bucket := b[NodeIndex(id)];
    var k := Oldest(bucket, id);
    NoMatchNothingPending(bucket, id);
    if k < |bucket| {
      UnlinkDequeues(bucket, k, id);
      UnlinkDequeues(bucket, k, other);
    }
  }

  /** Sending to an id with nothing waiting and receiving from it gives the message back and leaves the store as it
      was. */
  lemma EnqueueDequeue(b: seq<seq<Msg>>, m: Msg)
    requires |b| == MAX_NODE && Waiting(b, m.id) == []
    ensures Dequeue(Enqueue(b, m), m.id) == (b, Some(m))
  {
    var bucket := b[NodeIndex(m.id)];
    hide NodeIndex, Pending;
    NoMatchNothingPending(bucket, m.id);
    assert forall j :: 0 <= j < |bucket| ==> bucket[j].id != m.id;
    OldestIs(bucket + [m], m.id, |bucket|);
    assert Without(bucket + [m], |bucket|) == bucket;
    assert b[NodeIndex(m.id) := bucket + [m]][NodeIndex(m.id) := bucket] == b;
  }

  /** Which bucket and which mutex: ids below the number of buckets each have their own, then it starts again. */
  lemma IndexExact(id: nat)
    ensures id < 20000 ==> NodeIndex(id) == id
    ensures NodeIndex(id + 20000) == NodeIndex(id)
    ensures id < 40 ==> MutexIndex(id) == id
    ensures MutexIndex(id + 40) == MutexIndex(id)
  {
    CyclicTurns(id, 1, MAX_NODE);
    CyclicTurns(id, 1, MAX_MUTEX);
    if id < MAX_NODE { DivModUnique(id, MAX_NODE, 0, id); }
    if id < MAX_MUTEX { DivModUnique(id, MAX_MUTEX, 0, id); }
  }
}
