/**
 * CPcp on the heap: nodes linked through `next`, free lists with head and tail, the per-channel slots and
 * cursors, all updated in place (procon/pcp.cpp).  Each method is proved to have the effect of the pool
 * functions and of the cursor comparison that the protocol uses.
 */
module Pcp {
  import opened Common
  import opened Chain
  import opened PcpCursor
  import opened PcpPool

  /** A pool node: its header and payload are one value, as in the pool functions. */
  type PcpNode = Node<Cell>

  type Ref = Node?<Cell>

  /** Channel c's free list is the chain `s` from head to tail, all of whose nodes belong to the channel. */
  ghost predicate ListOk(head: Ref, tail: Ref, s: seq<PcpNode>, next: Links<Cell>, cells: map<PcpNode, Cell>, c: nat) {
    && Ends(head, tail, s) && Chained(s, next)
    && (forall n :: n in s ==> n in cells && cells[n].channel == c)
  }

  /** A node is on its own channel's list exactly when it has no user; nodes in use are unlinked. */
  ghost predicate NodeOk(pool: Pool<PcpNode>, n: PcpNode, next: Ref)
    requires n in pool.cells
  {
    var c := pool.cells[n];
    && c.users >= 0 && c.channel < |pool.free| && (n in pool.free[c.channel] <==> c.users == 0)
    && (c.users > 0 ==> next == null)
  }

  /** The heap invariant, over snapshots of the list ends, the links and the node contents. */
  ghost predicate PoolHeap(head: seq<Ref>, tail: seq<Ref>, next: Links<Cell>, pool: Pool<PcpNode>) {
    && |head| == |tail| == |pool.free| && next.Keys == pool.cells.Keys
    && (forall c :: 0 <= c < |head| ==> ListOk(head[c], tail[c], pool.free[c], next, pool.cells, c))
    && (forall n :: n in pool.cells ==> NodeOk(pool, n, next[n]))
  }

  /** Changing a node that is not on a list, or keeps its channel and link, leaves the list alone. */
  lemma ListFrame(head: Ref, tail: Ref, s: seq<PcpNode>, next: Links<Cell>, cells: map<PcpNode, Cell>, c: nat,
                  n: PcpNode, p: Ref, x: Cell)
    requires ListOk(head, tail, s, next, cells, c)
    requires n !in s || (n in next && next[n] == p && x.channel == c)
    ensures ListOk(head, tail, s, next[n := p], cells[n := x], c)
  {
  }

  lemma ListTake(head: Ref, tail: Ref, s: seq<PcpNode>, next: Links<Cell>, cells: map<PcpNode, Cell>, c: nat, x: Cell)
    requires ListOk(head, tail, s, next, cells, c) && head != null
    ensures s != [] && head == s[0] && s[0] in next && s[0] !in s[1..]
    ensures ListOk(next[s[0]], if next[s[0]] == null then null else tail, s[1..], next[s[0] := null],
                   cells[s[0] := x], c)
  {
    ChainTail(s, next);
    ChainFrame(s[1..], next, s[0], null);
  }

  lemma HeapTalloc(head: seq<Ref>, tail: seq<Ref>, next: Links<Cell>, pool: Pool<PcpNode>, ch: nat)
    requires PoolHeap(head, tail, next, pool) && ch < |head| && head[ch] != null
    ensures pool.free[ch] != [] && head[ch] == pool.free[ch][0] && pool.free[ch][0] in next
    ensures var n := pool.free[ch][0];
            PoolHeap(head[ch := next[n]], if next[n] == null then tail[ch := null] else tail, next[n := null],
                     PcpPool.Talloc(pool, ch).0)
  {
    hide Chained, Ends;
    var s := pool.free[ch];
    ListTake(head[ch], tail[ch], s, next, pool.cells, ch, Cell(1, ch, []));
    var n, pool' := s[0], PcpPool.Talloc(pool, ch).0;
    assert n in s;
    forall c | 0 <= c < |head| && c != ch
      ensures ListOk(head[c], tail[c], pool'.free[c], next[n := null], pool'.cells, c)
    {
      ListFrame(head[c], tail[c], pool.free[c], next, pool.cells, c, n, null, Cell(1, ch, []));
    }
    hide ListOk;
    forall m | m in pool'.cells ensures NodeOk(pool', m, next[n := null][m]) {
      assert m in pool.cells ==> NodeOk(pool, m, next[m]);
    }
  }

  lemma HeapEmpty(head: seq<Ref>, tail: seq<Ref>, next: Links<Cell>, pool: Pool<PcpNode>, ch: nat)
    requires PoolHeap(head, tail, next, pool) && ch < |head|
    ensures head[ch] == null <==> pool.free[ch] == []
  {
    assert ListOk(head[ch], tail[ch], pool.free[ch], next, pool.cells, ch);
  }

  /** Changing the users (not to or from zero) or the payload of a node. */
  lemma HeapUpdate(head: seq<Ref>, tail: seq<Ref>, next: Links<Cell>, pool: Pool<PcpNode>, n: PcpNode, x: Cell)
    requires PoolHeap(head, tail, next, pool) && n in pool.cells
    requires x.channel == pool.cells[n].channel && x.users >= 0 && (x.users > 0 <==> pool.cells[n].users > 0)
    ensures PoolHeap(head, tail, next, pool.(cells := pool.cells[n := x]))
  {
    hide ListOk, NodeOk;
    NodesUpdate(head, tail, next, pool, n, x);
    forall c | 0 <= c < |head| ensures ListOk(head[c], tail[c], pool.free[c], next, pool.cells[n := x], c) {
      ListUpdate(head[c], tail[c], pool.free[c], next, pool.cells, c, n, x);
    }
  }

  lemma ListUpdate(head: Ref, tail: Ref, s: seq<PcpNode>, next: Links<Cell>, cells: map<PcpNode, Cell>, c: nat,
                   n: PcpNode, x: Cell)
    requires ListOk(head, tail, s, next, cells, c) && n in next && n in cells && x.channel == cells[n].channel
    ensures ListOk(head, tail, s, next, cells[n := x], c)
  {
    hide Chained, Ends;
  }

  lemma NodesUpdate(head: seq<Ref>, tail: seq<Ref>, next: Links<Cell>, pool: Pool<PcpNode>, n: PcpNode, x: Cell)
    requires PoolHeap(head, tail, next, pool) && n in pool.cells
    requires x.channel == pool.cells[n].channel && x.users >= 0 && (x.users > 0 <==> pool.cells[n].users > 0)
    ensures var pool' := pool.(cells := pool.cells[n := x]);
            next.Keys == pool'.cells.Keys && forall m :: m in pool'.cells ==> NodeOk(pool', m, next[m])
  {
    hide ListOk;
    var pool' := pool.(cells := pool.cells[n := x]);
    forall m | m in pool'.cells ensures NodeOk(pool', m, next[m]) {
      assert NodeOk(pool, m, next[m]);
    }
  }

  lemma ListAppend(head: Ref, tail: Ref, s: seq<PcpNode>, next: Links<Cell>, cells: map<PcpNode, Cell>, c: nat,
                   n: PcpNode, x: Cell)
    requires ListOk(head, tail, s, next, cells, c)
    requires n !in s && n in next && next[n] == null && n in cells && x.channel == c
    ensures ListOk(if tail == null then n else head, n, s + [n], LinkedBehind(next, tail, n), cells[n := x], c)
  {
    ChainAppend(s, next, n);
  }

  ghost function LinkedBehind(next: Links<Cell>, last: Ref, n: PcpNode): Links<Cell> {
    if last == null then next else next[last := n]
  }

  lemma ListsPutBack(head: seq<Ref>, tail: seq<Ref>, next: Links<Cell>, pool: Pool<PcpNode>, n: PcpNode, c: nat)
    requires PoolHeap(head, tail, next, pool) && n in pool.cells && pool.cells[n].users > 0
    requires pool.cells[n].channel < |head| && c < |head|
    ensures var ch, x := pool.cells[n].channel, pool.cells[n].(users := 0);
            ListOk(if c == ch && tail[c] == null then n else head[c], if c == ch then n else tail[c],
                   if c == ch then pool.free[c] + [n] else pool.free[c],
                   LinkedBehind(next, tail[ch], n), pool.cells[n := x], c)
  {
    LastIsFree(head, tail, next, pool, n);
    hide Chained, Ends, NodeOk;
    var ch, x := pool.cells[n].channel, pool.cells[n].(users := 0);
    assert ListOk(head[c], tail[c], pool.free[c], next, pool.cells, c);
    hide ListOk;
    if c == ch {
      ListAppend(head[c], tail[c], pool.free[c], next, pool.cells, c, n, x);
    } else {
      OtherList(head[c], tail[c], pool.free[c], next, pool.cells, c, n, x, tail[ch]);
    }
  }

  lemma HeapPutBack(head: seq<Ref>, tail: seq<Ref>, next: Links<Cell>, pool: Pool<PcpNode>, n: PcpNode)
    requires PoolHeap(head, tail, next, pool) && n in pool.cells && pool.cells[n].users > 0
    ensures pool.cells[n].channel < |head|
    ensures tail[pool.cells[n].channel] == null || tail[pool.cells[n].channel] in next
    ensures var c, x := pool.cells[n].channel, pool.cells[n].(users := 0);
            PoolHeap(if tail[c] == null then head[c := n] else head, tail[c := n], LinkedBehind(next, tail[c], n),
                     Pool(pool.free[c := pool.free[c] + [n]], pool.cells[n := x]))
  {
    LastIsFree(head, tail, next, pool, n);
    hide ListOk, Chained, Ends, NodeOk;
    var ch, x := pool.cells[n].channel, pool.cells[n].(users := 0);
    var next' := LinkedBehind(next, tail[ch], n);
    var pool' := Pool(pool.free[ch := pool.free[ch] + [n]], pool.cells[n := x]);
    forall c | 0 <= c < |head|
      ensures ListOk(if c == ch && tail[c] == null then n else head[c], if c == ch then n else tail[c],
                     pool'.free[c], next', pool'.cells, c)
    {
      ListsPutBack(head, tail, next, pool, n, c);
    }
    NodesPutBack(head, tail, next, pool, n);
  }

  lemma NodesPutBack(head: seq<Ref>, tail: seq<Ref>, next: Links<Cell>, pool: Pool<PcpNode>, n: PcpNode)
    requires PoolHeap(head, tail, next, pool) && n in pool.cells && pool.cells[n].users > 0
    requires pool.cells[n].channel < |head|
    ensures var ch, x := pool.cells[n].channel, pool.cells[n].(users := 0);
            var next' := LinkedBehind(next, tail[ch], n);
            var pool' := Pool(pool.free[ch := pool.free[ch] + [n]], pool.cells[n := x]);
            next'.Keys == pool'.cells.Keys && forall m :: m in pool'.cells ==> NodeOk(pool', m, next'[m])
  {
    LastIsFree(head, tail, next, pool, n);
    hide ListOk;
    var ch, x := pool.cells[n].channel, pool.cells[n].(users := 0);
    var next' := LinkedBehind(next, tail[ch], n);
    var pool' := Pool(pool.free[ch := pool.free[ch] + [n]], pool.cells[n := x]);
    forall m | m in pool'.cells ensures NodeOk(pool', m, next'[m]) {
      assert NodeOk(pool, m, next[m]);
    }
  }

  /** A node in use is on no list, and the list it will return to ends in a free node. */
  lemma LastIsFree(head: seq<Ref>, tail: seq<Ref>, next: Links<Cell>, pool: Pool<PcpNode>, n: PcpNode)
    requires PoolHeap(head, tail, next, pool) && n in pool.cells && pool.cells[n].users > 0
    ensures pool.cells[n].channel < |head| && next[n] == null
    ensures forall c :: 0 <= c < |head| ==> n !in pool.free[c]
    ensures var last := tail[pool.cells[n].channel];
            last != null ==> last in next && pool.cells[last].users == 0
                             && pool.cells[last].channel == pool.cells[n].channel
    ensures forall c :: 0 <= c < |head| && c != pool.cells[n].channel ==> tail[pool.cells[n].channel] !in pool.free[c]
  {
    hide Chained;
    assert NodeOk(pool, n, next[n]);
    var ch := pool.cells[n].channel;
    forall c | 0 <= c < |head| ensures n !in pool.free[c] {
      assert ListOk(head[c], tail[c], pool.free[c], next, pool.cells, c);
    }
    assert ListOk(head[ch], tail[ch], pool.free[ch], next, pool.cells, ch);
    var last := tail[ch];
    if last != null {
      assert last in pool.free[ch];
      assert NodeOk(pool, last, next[last]);
    }
    forall c | 0 <= c < |head| && c != ch ensures last !in pool.free[c] {
      assert ListOk(head[c], tail[c], pool.free[c], next, pool.cells, c);
    }
  }

  lemma OtherList(head: Ref, tail: Ref, s: seq<PcpNode>, next: Links<Cell>, cells: map<PcpNode, Cell>, c: nat,
                  n: PcpNode, x: Cell, last: Ref)
    requires ListOk(head, tail, s, next, cells, c) && n !in s && last !in s
    ensures ListOk(head, tail, s, LinkedBehind(next, last, n), cells[n := x], c)
  {
  }

  /** An unlinked node in use comes into being: no list changes. */
  lemma HeapNew(head: seq<Ref>, tail: seq<Ref>, next: Links<Cell>, pool: Pool<PcpNode>, n: PcpNode, x: Cell)
    requires PoolHeap(head, tail, next, pool) && n !in pool.cells && x.users > 0 && x.channel < |head|
    ensures PoolHeap(head, tail, next[n := null], Pool(pool.free, pool.cells[n := x]))
  {
    hide Chained, Ends;
    var pool' := Pool(pool.free, pool.cells[n := x]);
    forall c | 0 <= c < |head| ensures ListOk(head[c], tail[c], pool.free[c], next[n := null], pool'.cells, c) {
      assert ListOk(head[c], tail[c], pool.free[c], next, pool.cells, c);
      ListFrame(head[c], tail[c], pool.free[c], next, pool.cells, c, n, null, x);
    }
    assert forall c :: 0 <= c < |head| ==> n !in pool.free[c] by {
      assert forall c :: 0 <= c < |head| ==> ListOk(head[c], tail[c], pool.free[c], next, pool.cells, c);
    }
    hide ListOk;
    forall m | m in pool'.cells ensures NodeOk(pool', m, next[n := null][m]) {
      assert m in pool.cells ==> NodeOk(pool, m, next[m]);
    }
  }

  /** A new unused node at the back of a list. */
  lemma HeapGrow(head: seq<Ref>, tail: seq<Ref>, next: Links<Cell>, pool: Pool<PcpNode>, n: PcpNode, ch: nat)
    requires PoolHeap(head, tail, next, pool) && ch < |head| && n !in pool.cells
    ensures tail[ch] == null || tail[ch] in next
    ensures PoolHeap(if tail[ch] == null then head[ch := n] else head, tail[ch := n],
                     LinkedBehind(next[n := null], tail[ch], n),
                     Pool(pool.free[ch := pool.free[ch] + [n]], pool.cells[n := Cell(0, ch, [])]))
  {
    // The same as returning a node that was in use all along.
    hide Chained, Ends, NodeOk;
    var used := Pool(pool.free, pool.cells[n := Cell(1, ch, [])]);
    assert ListOk(head[ch], tail[ch], pool.free[ch], next, pool.cells, ch);
    hide ListOk;
    TailLinked(head[ch], tail[ch], pool.free[ch], next, pool.cells, ch);
    HeapNew(head, tail, next, pool, n, Cell(1, ch, []));
    hide PoolHeap;
    HeapPutBack(head, tail, next[n := null], used, n);
    assert used.cells[n := Cell(0, ch, [])] == pool.cells[n := Cell(0, ch, [])];
  }

  lemma TailLinked(head: Ref, tail: Ref, s: seq<PcpNode>, next: Links<Cell>, cells: map<PcpNode, Cell>, c: nat)
    requires ListOk(head, tail, s, next, cells, c)
    ensures tail == null || tail in next
  {
  }

  ghost predicate AllUnused(pool: Pool<PcpNode>) {
    forall n :: n in pool.cells ==> pool.cells[n].users == 0
  }

  /** A pool all of whose nodes are unused is what FreshPool describes. */
  lemma HeapFresh(head: seq<Ref>, tail: seq<Ref>, next: Links<Cell>, pool: Pool<PcpNode>, perChannel: nat)
    requires PoolHeap(head, tail, next, pool)
    requires forall c :: 0 <= c < |head| ==> |pool.free[c]| == perChannel
    requires AllUnused(pool)
    ensures FreshPool(pool, |head|, perChannel)
  {
    hide ListOk, Chained, Ends;
    forall c | 0 <= c < |head|
      ensures NoDuplicates(pool.free[c])
      ensures forall n :: n in pool.free[c] ==> n in pool.cells && pool.cells[n].channel == c
    {
      ListFresh(head[c], tail[c], pool.free[c], next, pool.cells, c);
    }
    forall n | n in pool.cells ensures pool.cells[n].channel < |head| && n in pool.free[pool.cells[n].channel] {
      assert NodeOk(pool, n, next[n]);
    }
  }

  lemma ListFresh(head: Ref, tail: Ref, s: seq<PcpNode>, next: Links<Cell>, cells: map<PcpNode, Cell>, c: nat)
    requires ListOk(head, tail, s, next, cells, c)
    ensures NoDuplicates(s) && forall n :: n in s ==> n in cells && cells[n].channel == c
  {
  }

  lemma HeapEmptyLists(head: seq<Ref>, tail: seq<Ref>, free: seq<seq<PcpNode>>)
    requires |head| == |tail| == |free|
    requires forall c :: 0 <= c < |head| ==> head[c] == null && tail[c] == null && free[c] == []
    ensures PoolHeap(head, tail, map[], Pool(free, map[]))
  {
  }

  // ---- Payload pieces ----------------------------------------------------------------------------------------

  /** The pieces of a record, one behind the other. */
  function Flatten(pieces: seq<Bytes>): Bytes {
    if pieces == [] then [] else Flatten(pieces[..|pieces| - 1]) + pieces[|pieces| - 1]
  }

  lemma FlattenStep(pieces: seq<Bytes>, i: nat)
    requires i < |pieces|
    ensures Flatten(pieces[..i + 1]) == Flatten(pieces[..i]) + pieces[i]
  {
    assert pieces[..i + 1][..i] == pieces[..i];
  }

  function TotalLength(pieces: seq<Bytes>): nat {
    if pieces == [] then 0 else TotalLength(pieces[..|pieces| - 1]) + |pieces[|pieces| - 1]|
  }

  lemma {:induction false} FlattenLength(pieces: seq<Bytes>)
    ensures |Flatten(pieces)| == TotalLength(pieces)
  {
    if pieces != [] {
      FlattenLength(pieces[..|pieces| - 1]);
    }
  }

  /** The record is as long as its pieces together, each of which sits behind the ones before it. */
  lemma {:induction false} FlattenExact(pieces: seq<Bytes>, i: nat)
    requires i < |pieces|
    ensures |Flatten(pieces)| == TotalLength(pieces) && TotalLength([]) == 0
    ensures var at := TotalLength(pieces[..i]);
            at + |pieces[i]| <= |Flatten(pieces)| && Flatten(pieces)[at..at + |pieces[i]|] == pieces[i]
  {
    FlattenLength(pieces);
    var rest := pieces[..|pieces| - 1];
    FlattenLength(rest);
    if i < |rest| {
      FlattenExact(rest, i);
      assert rest[..i] == pieces[..i];
      var at := TotalLength(pieces[..i]);
      assert Flatten(pieces)[at..at + |pieces[i]|] == Flatten(rest)[at..at + |pieces[i]|];
    }
  }

  // ---- The class ---------------------------------------------------------------------------------------------

  const MAX_PCP_DATA_NODE: nat := 16
  const ASSUME_CONSUMER_SIZE: nat := 1

  /** A read handle: the cursors of PCP_READ_T. */
  class Reader {
    const channel: nat
    var readBegin: nat
    var readEnd: nat

    constructor (channel: nat, pos: nat)
      ensures this.channel == channel && readBegin == pos && readEnd == pos
    {
      this.channel, readBegin, readEnd := channel, pos, pos;
    }
  }

  /** What Open returns: 0, or a handle that remembers how it was opened. */
  datatype Fd = NullFd | ReadFd(reader: Reader) | WriteFd(channel: nat)
  datatype OpenFlag = OpenRdOnly | OpenWrOnly | OpenOther

  class CPcp {
    const chNum: nat
    const dataNode: nat
    const maxSize: nat
    const head: array<Ref>
    const tail: array<Ref>
    const writePos: array<nat>
    const dataPool: array2<Ref>
    ghost var nodes: set<PcpNode>
    ghost var free: seq<seq<PcpNode>>

    ghost function Abs(): Pool<PcpNode>
      reads this, nodes
    {
      Pool(free, Datas(nodes))
    }

    ghost predicate Heap()
      reads this, head, tail, nodes
    {
      && head != tail && head.Length == tail.Length == chNum
      && PoolHeap(head[..], tail[..], Nexts(nodes), Abs())
    }

    /** dataPool as a map; a NULL slot is absent. */
    ghost function Slots(): map<Slot, PcpNode>
      reads dataPool
    {
      if dataPool.Length0 == chNum && dataPool.Length1 >= dataNode then
        map c: nat, j: nat | c < chNum && j < dataNode && dataPool[c, j] != null :: (c, j) := dataPool[c, j]
      else map[]
    }

    ghost predicate Shape()
      reads writePos
    {
      && 1 <= dataNode <= MAX_PCP_DATA_NODE
      && writePos.Length == dataPool.Length0 == chNum && dataPool.Length1 == MAX_PCP_DATA_NODE
      && (forall c :: 0 <= c < chNum ==> writePos[c] < dataNode)
    }

    /** Everything is well formed and, `held` being the references callers hold, exactly counted. */
    ghost predicate Valid(held: map<nat, PcpNode>)
      reads this, head, tail, nodes, writePos, dataPool
    {
      Shape() && Heap() && RefInv(Abs(), Slots(), held)
    }

    /** Init, assuming every allocation succeeds. */
    constructor Init(chNum: nat, dataNode: nat, maxSize: nat)
      requires 1 <= dataNode <= MAX_PCP_DATA_NODE
      ensures this.chNum == chNum && this.dataNode == dataNode && this.maxSize == maxSize
      ensures Valid(map[]) && Slots() == map[] && forall c :: 0 <= c < chNum ==> writePos[c] == 0
      ensures FreshPool(Abs(), chNum, dataNode + ASSUME_CONSUMER_SIZE)
      ensures fresh(head) && fresh(tail) && fresh(writePos) && fresh(dataPool) && fresh(nodes)
    {
      this.chNum, this.dataNode, this.maxSize := chNum, dataNode, maxSize;
      head := new Ref[chNum](_ => null);
      tail := new Ref[chNum](_ => null);
      writePos := new nat[chNum](_ => 0);
      dataPool := new Ref[chNum, MAX_PCP_DATA_NODE]((_, _) => null);
      nodes, free := {}, seq(chNum, _ => []);
      new;
      hide Heap, Abs, Slots, FreshPool, RefInv, AllUnused;
      EmptyHeap();
      EmptySlots();
      AddAll(dataNode + ASSUME_CONSUMER_SIZE);
      Started(dataNode + ASSUME_CONSUMER_SIZE);
    }

    lemma EmptyHeap()
      requires head != tail && head.Length == tail.Length == |free| == chNum && nodes == {}
      requires forall c :: 0 <= c < chNum ==> head[c] == null && tail[c] == null && free[c] == []
      ensures Heap()
    {
      HeapEmptyLists(head[..], tail[..], free);
      assert Nexts(nodes) == map[] && Datas(nodes) == map[];
    }

    lemma Started(count: nat)
      requires Heap() && AllUnused(Abs()) && |free| == chNum && forall c :: 0 <= c < chNum ==> |free[c]| == count
      ensures FreshPool(Abs(), chNum, count) && RefInv(Abs(), map[], map[])
    {
      hide PoolHeap, FreshPool, RefInv, AllUnused;
      HeapFresh(head[..], tail[..], Nexts(nodes), Abs(), count);
      FreshPoolRefs(Abs(), chNum, count);
    }

    lemma EmptySlots()
      requires dataPool.Length0 == chNum && dataPool.Length1 >= dataNode
      requires forall c, j :: 0 <= c < dataPool.Length0 && 0 <= j < dataPool.Length1 ==> dataPool[c, j] == null
      ensures Slots() == map[]
    {
    }

    /** The outer loop of Init, over the channels. */
    method AddAll(count: nat)
      requires Heap() && nodes == {} && |free| == chNum && forall c :: 0 <= c < chNum ==> free[c] == []
      modifies this`free, this`nodes, head, tail
      ensures Heap() && fresh(nodes) && |free| == chNum && AllUnused(Abs())
      ensures forall c :: 0 <= c < chNum ==> |free[c]| == count
    {
      hide PoolHeap;
      assert AllUnused(Abs());
      var i := 0;
      while i < chNum
        invariant 0 <= i <= chNum && Heap() && fresh(nodes) && |free| == chNum && AllUnused(Abs())
        invariant forall c :: 0 <= c < chNum ==> |free[c]| == if c < i then count else 0
      {
        AddNodes(i, count);
        i := i + 1;
      }
    }

    /** The inner loop of Init: all the nodes of one channel. */
    method AddNodes(ch: nat, count: nat)
      requires Heap() && ch < chNum && |free| == chNum
      requires AllUnused(Abs())
      modifies this`free, this`nodes, head, tail, nodes
      ensures Heap() && fresh(nodes - old(nodes)) && |free| == chNum
      ensures AllUnused(Abs())
      ensures forall c :: 0 <= c < chNum ==> |free[c]| == |old(free)[c]| + if c == ch then count else 0
    {
      hide PoolHeap;
      var j := 0;
      while j < count
        invariant 0 <= j <= count && Heap() && fresh(nodes - old(nodes)) && |free| == chNum
        invariant AllUnused(Abs())
        invariant forall c :: 0 <= c < chNum ==> |free[c]| == |old(free)[c]| + if c == ch then j else 0
      {
        var node := AddNode(ch);
        j := j + 1;
      }
    }

    /** Link a node behind the tail of a channel's list. */
    method PutLast(ch: nat, node: PcpNode)
      requires head != tail && ch < head.Length == tail.Length
      requires node in nodes && (tail[ch] == null || tail[ch] in nodes)
      modifies head, tail, nodes
      ensures Nexts(nodes) == LinkedBehind(old(Nexts(nodes)), old(tail[ch]), node) && Datas(nodes) == old(Datas(nodes))
      ensures head[..] == if old(tail[ch]) == null then old(head[..])[ch := node] else old(head[..])
      ensures tail[..] == old(tail[..])[ch := node]
    {
      hide Nexts, Datas;
      if tail[ch] == null {
        head[ch] := node;
        tail[ch] := node;
      } else {
        SetNext(tail[ch], node, nodes);
        tail[ch] := node;
      }
    }

    /** Make a node and link it to the back of a channel's free list. */
    method AddNode(ch: nat) returns (node: PcpNode)
      requires Heap() && ch < chNum
      modifies this`free, this`nodes, head, tail, nodes
      ensures Heap() && fresh(node) && nodes == old(nodes) + {node} && |old(free)| == chNum
      ensures Abs() == Pool(old(free)[ch := old(free)[ch] + [node]], old(Abs()).cells[node := Cell(0, ch, [])])
    {
      hide ListOk, NodeOk, Chained, Ends, LinkedBehind;
      ghost var was, next, h, t := Abs(), Nexts(nodes), head[..], tail[..];
      assert |h| == |t| == chNum == |free|;
      node := NewNode(Cell(0, ch, []), nodes);
      HeapGrow(h, t, next, was, node, ch);
      assert h[ch] == head[ch] && t[ch] == tail[ch] && (t[ch] != null ==> t[ch] in nodes);
      hide PoolHeap, Nexts, Datas;
      nodes, free := nodes + {node}, free[ch := free[ch] + [node]];
      PutLast(ch, node);
    }

    /** Unlink the head of a channel's list. */
    method TakeFirst(ch: nat) returns (pres: PcpNode)
      requires head != tail && ch < head.Length == tail.Length && head[ch] != null && head[ch] in nodes
      modifies head, tail, nodes
      ensures pres == old(head[ch]) && pres in old(Nexts(nodes)) && pres.data == Cell(1, ch, [])
      ensures Nexts(nodes) == old(Nexts(nodes))[pres := null]
      ensures Datas(nodes) == old(Datas(nodes))[pres := Cell(1, ch, [])]
      ensures head[..] == old(head[..])[ch := old(Nexts(nodes))[pres]]
      ensures tail[..] == if old(Nexts(nodes))[pres] == null then old(tail[..])[ch := null] else old(tail[..])
    {
      pres := head[ch];
      assert Nexts(nodes)[pres] == pres.next;
      hide Nexts, Datas;
      head[ch] := head[ch].next;
      if head[ch] == null {
        tail[ch] := null;
      }
      SetNext(pres, null, nodes);
      SetPayload(pres, Cell(1, ch, []), nodes);
    }

    method Talloc(channel: nat) returns (pres: Ref)
      requires Heap() && channel < chNum
      modifies this`free, head, tail, nodes
      ensures Heap() && nodes == old(nodes)
      ensures Abs() == PcpPool.Talloc(old(Abs()), channel).0
      ensures PcpPool.Talloc(old(Abs()), channel).1 == if pres == null then None else Some(pres)
      ensures pres == old(head[channel]) && (pres != null ==> pres in nodes && pres.data == Cell(1, channel, []))
      ensures old(free[channel]) == (if pres == null then [] else [pres]) + free[channel]
    {
      hide ListOk, NodeOk, Chained, Ends;
      pres := null;
      ghost var was, next, h, t := Abs(), Nexts(nodes), head[..], tail[..];
      HeapEmpty(h, t, next, was, channel);
      if head[channel] != null {
        HeapTalloc(h, t, next, was, channel);
        hide PoolHeap, Nexts, Datas;
        pres := TakeFirst(channel);
        free := free[channel := free[channel][1..]];
      }
    }

    method Tcopy(node: Ref) returns (pres: Ref)
      requires Heap() && (node != null ==> node in nodes && node.data.users >= 1)
      modifies nodes
      ensures Heap() && pres == node
      ensures Abs() == if node == null then old(Abs()) else PcpPool.Tcopy(old(Abs()), node)
      ensures node != null ==> node.data == old(node.data).(users := old(node.data.users) + 1)
    {
      hide ListOk, NodeOk, Chained, Ends;
      pres := null;
      ghost var was, next := Abs(), Nexts(nodes);
      if node != null {
        assert was.cells[node] == node.data;
        HeapUpdate(head[..], tail[..], next, was, node, node.data.(users := node.data.users + 1));
        hide PoolHeap, Nexts, Datas;
        SetPayload(node, node.data.(users := node.data.users + 1), nodes);
        pres := node;
      }
    }

    method Tfree(node: Ref)
      requires Heap() && (node != null ==> node in nodes && node.data.users >= 1)
      modifies this`free, head, tail, nodes
      ensures Heap() && nodes == old(nodes)
      ensures node != null ==> old(Abs()).cells[node].channel < |old(Abs()).free|
      ensures Abs() == if node == null then old(Abs()) else PcpPool.Tfree(old(Abs()), node)
    {
      hide ListOk, NodeOk, Chained, Ends, LinkedBehind;
      ghost var was, next, h, t := Abs(), Nexts(nodes), head[..], tail[..];
      if node != null {
        var ch := node.data.channel;
        assert was.cells[node] == node.data;
        HeapPutBack(h, t, next, was, node);
        if node.data.users > 1 {
          HeapUpdate(h, t, next, was, node, node.data.(users := node.data.users - 1));
          hide PoolHeap, Nexts, Datas;
          SetPayload(node, node.data.(users := node.data.users - 1), nodes);
        } else {
          assert tail[ch] == t[ch] && (t[ch] != null ==> t[ch] in nodes);
          hide PoolHeap, Nexts, Datas;
          SetPayload(node, node.data.(users := 0), nodes);
          PutLast(ch, node);
          free := free[ch := free[ch] + [node]];
        }
      }
    }

    /** Copy the pieces one behind the other into a fresh node. */
    method Fill(node: PcpNode, pieces: seq<Bytes>)
      requires Heap() && node in nodes && node.data.data == [] && node.data.users >= 1
      modifies nodes
      ensures Heap() && Abs() == SetData(old(Abs()), node, Flatten(pieces))
      ensures node.data == old(node.data).(data := Flatten(pieces))
    {
      hide ListOk, NodeOk, Chained, Ends;
      ghost var was, next := Abs(), Nexts(nodes);
      assert was.cells[node] == node.data;
      var i := 0;
      while i < |pieces|
        invariant 0 <= i <= |pieces|
        invariant Heap() && Nexts(nodes) == next
        invariant node.data == was.cells[node].(data := Flatten(pieces[..i]))
        invariant Abs() == SetData(was, node, Flatten(pieces[..i]))
      {
        FlattenStep(pieces, i);
        HeapUpdate(head[..], tail[..], next, Abs(), node, node.data.(data := node.data.data + pieces[i]));
        hide PoolHeap, Nexts, Datas;
        SetPayload(node, node.data.(data := node.data.data + pieces[i]), nodes);
        i := i + 1;
      }
      assert pieces[..i] == pieces;
    }

    method GetWritePos(channel: nat) returns (pos: nat)
      requires Shape() && channel < chNum
      ensures pos == writePos[channel]
    {
      pos := writePos[channel];
    }

    method Open(channel: int, flag: OpenFlag) returns (fd: Fd)
      requires Shape()
      ensures !(0 <= channel < chNum) || flag == OpenOther ==> fd == NullFd
      ensures 0 <= channel < chNum && flag == OpenWrOnly ==> fd == WriteFd(channel)
      ensures 0 <= channel < chNum && flag == OpenRdOnly ==>
                fd.ReadFd? && fresh(fd.reader) && fd.reader.channel == channel
                && fd.reader.readBegin == fd.reader.readEnd == writePos[channel]
    {
      fd := NullFd;
      if 0 <= channel < chNum {
        if flag == OpenRdOnly {
          var pos := GetWritePos(channel);
          var r := new Reader(channel, pos);
          fd := ReadFd(r);
        } else if flag == OpenWrOnly {
          fd := WriteFd(channel);
        }
      }
    }

    method Read(fd: Fd, ghost held: map<nat, PcpNode>, ghost k: nat) returns (pcpNode: Ref)
      requires Valid(held) && k !in held
      requires fd.ReadFd? ==> fd.reader.channel < chNum && fd.reader.readBegin < dataNode
      modifies nodes, if fd.ReadFd? then {fd.reader} else {}
      ensures Valid(if pcpNode == null then held else held[k := pcpNode]) && Slots() == old(Slots())
      ensures !fd.ReadFd? ==> pcpNode == null && Abs() == old(Abs())
      ensures fd.ReadFd? ==>
                fd.reader.readBegin < dataNode &&
                ReadEffect(old(Abs()), Slots(), writePos[fd.reader.channel], fd.reader.channel, dataNode,
                           old(fd.reader.readBegin), old(fd.reader.readEnd), Abs(), fd.reader.readBegin,
                           fd.reader.readEnd, if pcpNode == null then None else Some(pcpNode))
      ensures fd.ReadFd? ==>
                var rb, re, wp := old(fd.reader.readBegin), old(fd.reader.readEnd), writePos[fd.reader.channel];
                match Decide(rb, re, wp)
                case Empty => pcpNode == null && fd.reader.readBegin == rb && fd.reader.readEnd == re
                case Resync => pcpNode == null && fd.reader.readBegin == fd.reader.readEnd == wp
                case Take =>
                  && pcpNode == dataPool[fd.reader.channel, rb]
                  && fd.reader.readBegin == (rb + 1) % dataNode && fd.reader.readEnd == wp
    {
      hide Heap, Abs, Slots, RefInv;
      pcpNode := null;
      if fd.ReadFd? {
        var pRead := fd.reader;
        var readBegin, readEnd, wp := pRead.readBegin, pRead.readEnd, writePos[pRead.channel];
        if readBegin == readEnd && readEnd == wp {
          return;
        }
        if (readBegin <= readEnd && readEnd <= wp) || (readEnd <= wp && wp <= readBegin)
           || (wp <= readBegin && readBegin <= readEnd)
        {
          ghost var was, slots, slot: Slot := Abs(), Slots(), (pRead.channel, readBegin);
          SlotNode(pRead.channel, readBegin, held);
          pRead.readEnd := wp;
          pcpNode := Tcopy(dataPool[pRead.channel, readBegin]);
          pRead.readBegin := (readBegin + 1) % dataNode;
          if pcpNode != null {
            RefTcopy(was, slots, held, slot, k);
          }
        } else {
          pRead.readEnd := wp;
          pRead.readBegin := wp;
        }
      }
    }

    /** A node in a slot is one of the pool's, and live. */
    lemma SlotNode(c: nat, j: nat, held: map<nat, PcpNode>)
      requires Valid(held) && c < chNum && j < dataNode
      ensures dataPool[c, j] == null <==> (c, j) !in Slots()
      ensures dataPool[c, j] != null ==>
                dataPool[c, j] in nodes && dataPool[c, j].data.users >= 1 && dataPool[c, j] in Abs().cells
      ensures (c, j) in Slots() ==> Slots()[(c, j)] == dataPool[c, j]
    {
      hide PoolHeap;
      if dataPool[c, j] != null {
        assert Slots()[(c, j)] == dataPool[c, j];
        ReferencedIsLive(Abs(), Slots(), held, dataPool[c, j]);
      }
    }

    lemma Sizes()
      requires Heap()
      ensures |Abs().free| == chNum
    {
    }

    lemma SlotsAt()
      requires dataPool.Length0 == chNum && dataPool.Length1 >= dataNode
      ensures forall k: Slot :: k in Slots() <==> k.0 < chNum && k.1 < dataNode && dataPool[k.0, k.1] != null
      ensures forall k: Slot :: k in Slots() ==> Slots()[k] == dataPool[k.0, k.1]
    {
    }

    twostate predicate OtherSlotsKept(c: nat, j: nat)
      requires dataPool.Length0 == chNum && dataPool.Length1 >= dataNode
      reads dataPool
    {
      forall a, b :: 0 <= a < chNum && 0 <= b < dataNode && (a, b) != (c, j) ==> dataPool[a, b] == old(dataPool[a, b])
    }

    /** Store a pointer in a slot. */
    method SetSlot(c: nat, j: nat, node: Ref)
      requires Shape() && c < chNum && j < dataNode
      modifies dataPool
      ensures Slots() == if node == null then old(Slots()) - {(c, j)} else old(Slots())[(c, j) := node]
      ensures dataPool[c, j] == node && OtherSlotsKept(c, j)
    {
      hide Slots;
      SlotsAt();
      dataPool[c, j] := node;
      SlotsAt();
    }

    /** What Write leaves in the slot it stood at, and where it stands now: the record and the next slot, or NULL and
        the same slot. */
    twostate predicate Written(ch: nat, data: Bytes, ret: int)
      requires old(Shape()) && ch < chNum
      reads writePos, dataPool, nodes, this
    {
      var wp, node := old(writePos[ch]), dataPool[ch, old(writePos[ch])];
      && OtherSlotsKept(ch, wp)
      && if ret == 0 then
           node != null && node in nodes && node.data == Cell(1, ch, data) && writePos[ch] == (wp + 1) % dataNode
         else ret == -1 && node == null && writePos[ch] == wp
    }

    method Write(fd: Fd, pieces: seq<Bytes>, ghost held: map<nat, PcpNode>) returns (ret: int)
      requires Valid(held) && |Flatten(pieces)| <= maxSize && (fd.WriteFd? ==> fd.channel < chNum)
      modifies this`free, head, tail, nodes, writePos, dataPool
      ensures Valid(held) && nodes == old(nodes)
      ensures fd.WriteFd? ==>
                WriteEffect(old(Abs()), old(Slots()), old(writePos[fd.channel]), fd.channel, Flatten(pieces), dataNode,
                            Abs(), Slots(), writePos[fd.channel], ret)
      ensures fd.WriteFd? ==> Written(fd.channel, Flatten(pieces), ret)
      ensures forall c :: 0 <= c < chNum && !(fd.WriteFd? && c == fd.channel) ==> writePos[c] == old(writePos[c])
      ensures !fd.WriteFd? ==> ret == -1 && Abs() == old(Abs()) && Slots() == old(Slots())
    {
      hide Heap, Abs, Slots, RefInv, WriteEffect;
      ret := -1;
      if fd.WriteFd? {
        ret := WriteLocked(fd.channel, pieces, held);
      }
    }

    /** The locked section of Write. */
    method WriteLocked(ch: nat, pieces: seq<Bytes>, ghost held: map<nat, PcpNode>) returns (ret: int)
      requires Valid(held) && ch < chNum
      modifies this`free, head, tail, nodes, writePos, dataPool
      ensures Valid(held) && nodes == old(nodes) && ch < |old(Abs()).free|
      ensures WriteEffect(old(Abs()), old(Slots()), old(writePos[ch]), ch, Flatten(pieces), dataNode,
                          Abs(), Slots(), writePos[ch], ret)
      ensures Written(ch, Flatten(pieces), ret)
      ensures forall c :: 0 <= c < chNum && c != ch ==> writePos[c] == old(writePos[c])
    {
      hide Heap, Abs, Slots, RefInv, PcpPool.Talloc, PcpPool.Tfree, SetData;
      ret := -1;
      var wp := writePos[ch];
      ghost var was, slots, slot: Slot := Abs(), Slots(), (ch, wp);
      SlotNode(ch, wp, held);
      InvReleasable(was, slots, held, slot);
      assert |was.free| == chNum by { Sizes(); }
      Tfree(dataPool[ch, wp]);
      assert Abs() == Release(was, slots, slot);
      ghost var p1 := Abs();
      assert |p1.free| == chNum by { Sizes(); }
      var node := Talloc(ch);
      ghost var p2 := Abs();
      SetSlot(ch, wp, node);
      assert PcpPool.Talloc(p1, ch) == (p2, if node == null then None else Some(node));
      if node != null {
        Fill(node, pieces);
        writePos[ch] := (wp + 1) % dataNode;
        ret := 0;
      }
      hide Release;
      WriteKeepsRefs(was, slots, held, wp, ch, Flatten(pieces), dataNode, Abs(), Slots(), writePos[ch], ret);
    }

    /** Write of the producer's own node, which it holds as k and nobody else refers to. */
    method WriteNode(fd: Fd, pExNode: Ref, ghost held: map<nat, PcpNode>, ghost k: nat) returns (ret: int)
      requires Valid(held) && (fd.WriteFd? ==> fd.channel < chNum)
      requires pExNode != null ==> k in held && held[k] == pExNode && Count(Slots(), held[k]) == 0
      modifies this`free, head, tail, nodes, writePos, dataPool
      ensures !fd.WriteFd? || pExNode == null ==>
                ret == -1 && Valid(held) && Abs() == old(Abs()) && Slots() == old(Slots())
      ensures fd.WriteFd? && pExNode != null ==>
                ret == 0 && Valid(held - {k}) &&
                NodeWriteEffect(old(Abs()), old(Slots()), old(writePos[fd.channel]), fd.channel, pExNode, dataNode,
                                Abs(), Slots(), writePos[fd.channel])
      ensures fd.WriteFd? && pExNode != null ==>
                && writePos[fd.channel] == (old(writePos[fd.channel]) + 1) % dataNode
                && dataPool[fd.channel, old(writePos[fd.channel])] == pExNode
                && OtherSlotsKept(fd.channel, old(writePos[fd.channel]))
      ensures forall c :: 0 <= c < chNum && !(fd.WriteFd? && c == fd.channel) ==> writePos[c] == old(writePos[c])
    {
      hide Heap, Abs, Slots, RefInv, PoolHeap;
      ret := -1;
      if fd.WriteFd? && pExNode != null {
        var ch, wp := fd.channel, writePos[fd.channel];
        ghost var was, slots, slot: Slot := Abs(), Slots(), (ch, wp);
        SlotNode(ch, wp, held);
        InvReleasable(was, slots, held, slot);
        Tfree(dataPool[ch, wp]);
        assert Abs() == Release(was, slots, slot);
        SetSlot(ch, wp, pExNode);
        writePos[ch] := (wp + 1) % dataNode;
        ret := 0;
        assert Slots() == slots[slot := pExNode];
        NodeWriteKeepsRefs(was, slots, held, wp, ch, k, dataNode, Abs(), Slots(), writePos[ch]);
      }
    }
  }
}
