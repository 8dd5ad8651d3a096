/** What the CPcp invariant means over whole runs. */
module PcpTheorems {
  import opened Common
  import opened PcpCursor
  import opened PcpPool
  import opened PcpProtocol
  import opened PcpInvariant

  /** The state Init builds: fresh nodes, empty rings, every thread idle. */
  ghost predicate Initial(s: State) {
    && 0 < s.ringSize
    && |s.writePos| == |s.lock| == |s.log| == |s.pool.free|
    && (forall ch :: 0 <= ch < |s.lock| ==> s.writePos[ch] == 0 && s.lock[ch].None? && s.log[ch] == [])
    && (forall t :: 0 <= t < |s.pcs| ==> s.pcs[t].Idle?)
    && s.slots == map[] && s.held == map[] && s.handles == [] && s.producing == {} && s.publishing == {}
    && FreshPool(s.pool, |s.lock|, s.ringSize + 1)
  }

  lemma InitialMembers(s: State, ch: nat)
    requires Initial(s) && ch < |s.log|
    ensures |Members(s.pool, ch)| == s.ringSize + 1
  {
    assert Members(s.pool, ch) == Elements(s.pool.free[ch]);
    DistinctCardinality(s.pool.free[ch]);
  }

  lemma InitialInv(s: State)
    requires Initial(s)
    ensures Inv(s)
  {
    assert Ring(s) == map[];
    FreshPoolRefs(s.pool, |s.lock|, s.ringSize + 1);
    hide Ring, RefInv, Members;
    forall ch | 0 <= ch < |s.log| ensures |Members(s.pool, ch)| == s.ringSize + 1 {
      InitialMembers(s, ch);
    }
    forall ch | 0 <= ch < |s.log| ensures ContentInv(s, ch) {
      assert s.log[ch] == [];
    }
  }

  // ---- Accounting ------------------------------------------------------------------------------------

  ghost function Occurrences(s: seq<NodeId>, n: NodeId): set<nat> {
    set i: nat | i < |s| && s[i] == n
  }

  /** A node is on its own channel's free list exactly once and unused, or on no free list with `users`
      equal to its slot (at most one) plus its outstanding holders. */
  ghost predicate Accounted(s: State, n: NodeId)
    requires n in s.pool.cells
  {
    var c := s.pool.cells[n];
    && c.channel < |s.pool.free|
    && c.users == Count(Ring(s), n) + Count(s.held, n) && Count(Ring(s), n) <= 1
    && (forall ch :: 0 <= ch < |s.pool.free| && ch != c.channel ==> n !in s.pool.free[ch])
    && |Occurrences(s.pool.free[c.channel], n)| == if c.users == 0 then 1 else 0
  }

  lemma InvAccounts(s: State, n: NodeId)
    requires RefInv(s.pool, Ring(s), s.held) && n in s.pool.cells
    ensures Accounted(s, n)
  {
    hide Count, Ring;
    assert Counted(s.pool, Ring(s), s.held, n);
    var free := s.pool.free[s.pool.cells[n].channel];
    if n in free {
      var i: nat :| i < |free| && free[i] == n;
      assert Occurrences(free, n) == {i};
    } else {
      assert Occurrences(free, n) == {};
    }
  }

  /** Accounting holds for every node in every state of every run. */
  lemma NodeAccounting(init: State, es: seq<Event>, n: NodeId)
    requires Initial(init) && Runs(init, es) && n in Exec(init, es).pool.cells
    ensures Accounted(Exec(init, es), n)
  {
    hide Exec, Runs, Initial, Shape, LockInv, ExclusiveInv, ContentInv, HandleInv, RefInv, Ring, Accounted;
    InitialInv(init);
    RunKeepsInv(init, es);
    InvAccounts(Exec(init, es), n);
  }

  /** No two threads are ever inside the same channel's section. */
  lemma MutualExclusion(init: State, es: seq<Event>, t: nat, u: nat)
    requires Initial(init) && Runs(init, es)
    requires t < |Exec(init, es).pcs| && u < |Exec(init, es).pcs|
    requires !Exec(init, es).pcs[t].Idle? && !Exec(init, es).pcs[u].Idle?
    requires Exec(init, es).pcs[t].ch == Exec(init, es).pcs[u].ch
    ensures t == u
  {
    InitialInv(init);
    RunKeepsInv(init, es);
  }

  // ---- Stability of what a reader holds -----------------------------------------------------------------

  /** A reference obtained from Read and not yet given back. */
  ghost predicate ReaderHolds(s: State, k: nat) {
    k in s.held && k !in s.producing && k !in s.publishing
  }

  /** The reference k still stands for the same node with the same payload. */
  ghost predicate StillHolds(s: State, s': State, k: nat)
    requires k in s.held && s.held[k] in s.pool.cells
  {
    && ReaderHolds(s', k) && s'.held[k] == s.held[k]
    && s.held[k] in s'.pool.cells && s'.pool.cells[s.held[k]].data == s.pool.cells[s.held[k]].data
  }

  ghost predicate OnNoList(p: Pool<NodeId>, n: NodeId) {
    forall ch :: 0 <= ch < |p.free| ==> n !in p.free[ch]
  }

  lemma HeldIsLive(s: State, k: nat)
    requires RefInv(s.pool, Ring(s), s.held) && k in s.held
    ensures s.held[k] in s.pool.cells && OnNoList(s.pool, s.held[k])
  {
    hide Ring, Counted;
    ReferencedIsLive(s.pool, Ring(s), s.held, s.held[k]);
  }

  lemma HeldAcrossFill(s: State, t: nat, k: nat)
    requires Inv(s) && Enabled(s, WriteFill(t)) && ReaderHolds(s, k)
    ensures s.held[k] in s.pool.cells && StillHolds(s, DoWriteFill(s, t), k)
  {
    hide ContentInv, HandleInv, LockInv, Ring, RefInv, Refs;
    WriteFillEffect(s, t);
    PrivateSlot(Ring(s), s.held, (s.pcs[t].ch, s.writePos[s.pcs[t].ch]));
  }

  lemma HeldAcrossFillNode(s: State, j: nat, data: Bytes, k: nat)
    requires Inv(s) && Enabled(s, FillNode(j, data)) && ReaderHolds(s, k)
    ensures s.held[k] in s.pool.cells && StillHolds(s, DoFillNode(s, j, data), k)
  {
    hide ContentInv, HandleInv, LockInv, Ring, RefInv, Refs;
    PrivateHold(Ring(s), s.held, j);
  }

  lemma HeldAcrossNodeWrite(s: State, t: nat, k: nat)
    requires Inv(s) && Enabled(s, NodeWriteTfree(t)) && ReaderHolds(s, k)
    ensures s.held[k] in s.pool.cells && StillHolds(s, DoNodeWriteTfree(s, t), k)
  {
    hide ContentInv, HandleInv, LockInv, Ring, RefInv, Refs;
    assert s.pcs[t].hold in s.publishing;
  }

  lemma HeldAcrossTalloc(s: State, t: nat, k: nat)
    requires Inv(s) && Enabled(s, WriteTalloc(t)) && ReaderHolds(s, k) && OnNoList(s.pool, s.held[k])
    ensures s.held[k] in s.pool.cells && StillHolds(s, DoWriteTalloc(s, t), k)
  {
    hide ContentInv, HandleInv, LockInv, ExclusiveInv, Ring, RefInv;
  }

  lemma HeldAcrossTfree(s: State, j: nat, k: nat)
    requires Inv(s) && Enabled(s, TfreeHeld(j)) && ReaderHolds(s, k) && j != k
    ensures s.held[k] in s.pool.cells && StillHolds(s, DoTfreeHeld(s, j), k)
  {
    hide ContentInv, HandleInv, LockInv, ExclusiveInv, Ring, RefInv;
  }

  lemma HeldAcrossWriteTfree(s: State, t: nat, k: nat)
    requires Inv(s) && Enabled(s, WriteTfree(t)) && ReaderHolds(s, k)
    ensures s.held[k] in s.pool.cells && StillHolds(s, DoWriteTfree(s, t), k)
  {
    hide ContentInv, HandleInv, LockInv, ExclusiveInv, Ring, RefInv;
  }

  lemma HeldAcrossRead(s: State, t: nat, j: nat, k: nat)
    requires Inv(s) && Enabled(s, EndRead(t, j)) && ReaderHolds(s, k)
    ensures s.held[k] in s.pool.cells && StillHolds(s, DoEndRead(s, t, j), k)
  {
    hide ContentInv, HandleInv, LockInv, ExclusiveInv, Ring, RefInv, ReadHandle;
    assert PcOk(s, s.pcs[t]);
  }

  lemma HeldNodeStep(s: State, e: Event, k: nat)
    requires Inv(s) && Enabled(s, e) && ReaderHolds(s, k) && e != TfreeHeld(k)
    ensures s.held[k] in s.pool.cells && OnNoList(s.pool, s.held[k]) && StillHolds(s, Step(s, e), k)
  {
    hide ContentInv, HandleInv, LockInv, ExclusiveInv, Ring, RefInv, DoWriteTfree, DoWriteTalloc, DoWriteFill,
         DoFillNode, DoNodeWriteTfree, DoEndRead, DoTfreeHeld;
    HeldIsLive(s, k);
    match e {
      case WriteTfree(t) => HeldAcrossWriteTfree(s, t, k);
      case TfreeHeld(j) => HeldAcrossTfree(s, j, k);
      case WriteTalloc(t) => HeldAcrossTalloc(s, t, k);
      case WriteFill(t) => HeldAcrossFill(s, t, k);
      case FillNode(j, data) => HeldAcrossFillNode(s, j, data, k);
      case NodeWriteTfree(t) => HeldAcrossNodeWrite(s, t, k);
      case EndRead(t, j) => HeldAcrossRead(s, t, j, k);
      case _ =>
    }
  }

  /** Whatever the other threads do, a node a reader holds is never freed, never handed out again, and its
      payload never rewritten, until that very reference is given to Tfree. */
  lemma {:induction false} HeldNodeStable(s: State, es: seq<Event>, k: nat)
    requires Inv(s) && Runs(s, es) && ReaderHolds(s, k) && TfreeHeld(k) !in es
    ensures var s', n := Exec(s, es), s.held[k];
            && ReaderHolds(s', k) && s'.held[k] == n
            && n in s'.pool.cells && s'.pool.cells[n].data == s.pool.cells[n].data
            && (forall ch :: 0 <= ch < |s'.pool.free| ==> n !in s'.pool.free[ch])
    decreases |es|
  {
    hide ContentInv, HandleInv, LockInv, Ring, RefInv, ExclusiveInv, Enabled, Step;
    HeldIsLive(s, k);
    if es != [] {
      HeldNodeStep(s, es[0], k);
      StepKeepsInv(s, es[0]);
      HeldNodeStable(Step(s, es[0]), es[1..], k);
    }
  }

  /** A delivered node carries the record the cursor really stands for, the very one the reader wants if it looks
      before another whole turn was written; and the reader goes on seeing exactly that record for as long as it
      holds the node, even if the producer overwrites the slot meanwhile. */
  lemma DeliveredRecordStable(s: State, t: nat, k: nat, es: seq<Event>)
    requires Inv(s) && Enabled(s, EndRead(t, k)) && Delivers(s, s.handles[s.pcs[t].handle])
    requires Runs(Step(s, EndRead(t, k)), es) && TfreeHeld(k) !in es
    ensures var s', hd := Exec(Step(s, EndRead(t, k)), es), s.handles[s.pcs[t].handle];
            hd.channel < |s.log| && var log, a := s.log[hd.channel], Wanted(s, hd);
            && hd.begin <= a < |log| && (|log| - hd.end < s.ringSize ==> a == hd.begin)
            && ReaderHolds(s', k) && s'.held[k] in s'.pool.cells
            && s'.pool.cells[s'.held[k]].data == log[a]
  {
    hide ContentInv, RefInv, Runs, Exec, Ring, ReadHandle, Holds, Wanted;
    var hd, s1 := s.handles[s.pcs[t].handle], Step(s, EndRead(t, k));
    var slot: Slot := (hd.channel, hd.readBegin);
    EndReadEffect(s, t, k);
    assert ContentInv(s, hd.channel) && HandleInv(s, hd);
    hide HandleInv;
    ReadAnchored(s, hd);
    ReadSlotInRing(s, slot);
    HeldData(s, slot, s.log[hd.channel][Wanted(s, hd)]);
    StepKeepsInv(s, EndRead(t, k));
    HeldNodeStable(s1, es, k);
  }

  lemma HeldData(s: State, slot: Slot, data: Bytes)
    requires Holds(s, slot, data) && slot in s.slots && slot in Ring(s) && Ring(s)[slot] == s.slots[slot]
    ensures s.slots[slot] in s.pool.cells && s.pool.cells[s.slots[slot]].data == data
  {
  }

  // ---- Delivery over whole runs ----------------------------------------------------------------------------

  lemma HandleOfRun(init: State, es: seq<Event>, h: nat)
    requires Initial(init) && Runs(init, es) && h < |Exec(init, es).handles|
    ensures var s := Exec(init, es); 0 < s.ringSize && |s.log| == |s.lock| && HandleInv(s, s.handles[h])
  {
    InitialInv(init);
    RunKeepsInv(init, es);
  }

  /** What any handle, however slow, has received so far is a strictly increasing selection of the records written
      to its channel: first in first out, nothing twice, nothing made up. */
  lemma DeliveryInOrder(init: State, es: seq<Event>, h: nat)
    requires Initial(init) && Runs(init, es) && h < |Exec(init, es).handles|
    ensures var s := Exec(init, es);
            var got := s.handles[h].got;
            s.handles[h].channel < |s.log| && var log := s.log[s.handles[h].channel];
            && (forall i :: 0 <= i < |got| ==> got[i].0 < |log| && got[i].1 == log[got[i].0])
            && (forall i, j :: 0 <= i < j < |got| ==> got[i].0 < got[j].0)
  {
    hide Exec, Runs, Initial;
    HandleOfRun(init, es, h);
  }

  /** No record is missing without a reason: from the opening of a handle up to where it reads next, every record
      was either received or is listed as lost, and none is both. */
  lemma DeliveryComplete(init: State, es: seq<Event>, h: nat, a: nat)
    requires Initial(init) && Runs(init, es) && h < |Exec(init, es).handles|
    ensures var hd := Exec(init, es).handles[h];
            && (hd.start <= a < hd.begin <==> a in Numbers(hd.got) || a in hd.lost)
            && !(a in Numbers(hd.got) && a in hd.lost)
  {
    hide Exec, Runs, Initial, Numbers;
    HandleOfRun(init, es, h);
  }

  /** The reasons: a whole turn was written since the last look; more than a turn is waiting; a failed Write had
      cleared the slot of the oldest record in the ring. */
  lemma LossExplained(s: State, t: nat, k: nat, a: nat)
    requires Inv(s) && Enabled(s, EndRead(t, k))
    requires var h := s.pcs[t].handle; a !in s.handles[h].lost && a in Step(s, EndRead(t, k)).handles[h].lost
    ensures var hd := s.handles[s.pcs[t].handle];
            hd.channel < |s.log| && var log := s.log[hd.channel];
            match Step(s, EndRead(t, k)).handles[s.pcs[t].handle].lost[a]
            case Overrun => hd.begin <= a < Wanted(s, hd) && |log| - hd.end >= s.ringSize
            case Resynced => Wanted(s, hd) <= a < |log| && |log| - Wanted(s, hd) > s.ringSize
            case Cleared => a == Wanted(s, hd) && a + s.ringSize == |log| && (hd.channel, hd.readBegin) !in s.slots
  {
    hide RefInv, ContentInv, HandleInv, LockInv, ExclusiveInv, Ring, Holds, Anchor, Decide, ReadHandle, Lose;
    var hd := s.handles[s.pcs[t].handle];
    EndReadEffect(s, t, k);
    assert ContentInv(s, hd.channel) && HandleInv(s, hd);
    HandleCursors(s, hd);
    ReadAnchored(s, hd);
    SlotHasNode(s, hd);
    LossOfRead(s, hd, Wanted(s, hd), a);
  }

  lemma HandleCursors(s: State, hd: Handle)
    requires 0 < s.ringSize && |s.log| == |s.lock| && HandleInv(s, hd)
    ensures CursorsOk(s, hd)
  {
  }

  lemma SlotHasNode(s: State, hd: Handle)
    requires Shape(s)
    ensures (hd.channel, hd.readBegin) in s.slots ==> s.slots[(hd.channel, hd.readBegin)] in s.pool.cells
  {
  }

  lemma LossOfRead(s: State, hd: Handle, w: nat, a: nat)
    requires 0 < s.ringSize && hd.channel < |s.writePos| == |s.log| && w == Wanted(s, hd)
    requires a !in hd.lost && a in ReadHandle(s, hd).lost
    requires (hd.channel, hd.readBegin) in s.slots ==> s.slots[(hd.channel, hd.readBegin)] in s.pool.cells
    ensures match ReadHandle(s, hd).lost[a]
            case Overrun => hd.begin <= a < w
            case Resynced =>
              w <= a < |s.log[hd.channel]| && Decide(hd.readBegin, hd.readEnd, s.writePos[hd.channel]).Resync?
            case Cleared => a == w && Decide(hd.readBegin, hd.readEnd, s.writePos[hd.channel]).Take?
                            && (hd.channel, hd.readBegin) !in s.slots
  {
    hide Lose, Decide, Anchor;
    var lost, written := Lose(hd.lost, hd.begin, w, Overrun), |s.log[hd.channel]|;
    LoseAdds(hd.lost, hd.begin, w, Overrun);
    LoseAdds(lost, w, written, Resynced);
    LoseAdds(lost, w, w + 1, Cleared);
  }

  /** A handle that never lost anything has received exactly the records from its opening to where it reads next. */
  lemma LosslessDelivery(init: State, es: seq<Event>, h: nat)
    requires Initial(init) && Runs(init, es) && h < |Exec(init, es).handles|
    requires Exec(init, es).handles[h].lost == map[]
    ensures var s := Exec(init, es);
            var hd := s.handles[h];
            hd.channel < |s.log| && var log := s.log[hd.channel];
            && hd.start <= hd.begin <= |log| && |hd.got| == hd.begin - hd.start
            && forall i :: 0 <= i < |hd.got| ==> hd.got[i] == (hd.start + i, log[hd.start + i])
  {
    hide Exec, Runs, Initial;
    HandleOfRun(init, es, h);
    var s := Exec(init, es);
    var hd := s.handles[h];
    var log := s.log[hd.channel];
    forall a ensures a in Numbers(hd.got) <==> hd.start <= a < hd.begin {
      assert a !in hd.lost;
    }
    ConsecutiveNumbers(hd.got, hd.start, hd.begin);
  }

  lemma {:induction false} ConsecutiveNumbers(got: seq<(nat, Bytes)>, from: nat, to: nat)
    requires from <= to && forall a: nat :: a in Numbers(got) <==> from <= a < to
    requires forall i, j :: 0 <= i < j < |got| ==> got[i].0 < got[j].0
    ensures |got| == to - from && forall i :: 0 <= i < |got| ==> got[i].0 == from + i
  {
    if got == [] {
      assert Numbers(got) == {};
      assert from < to ==> from in Numbers(got);
    } else {
      var last := |got| - 1;
      assert got[last].0 in Numbers(got) && to - 1 in Numbers(got);
      assert got[last].0 == to - 1;
      assert got == got[..last] + [got[last]];
      NumbersAppend(got[..last], got[last].0, got[last].1);
      forall a: nat | a in Numbers(got[..last]) ensures a != to - 1 {
        var i :| 0 <= i < last && got[..last][i].0 == a;
        assert got[i].0 < got[last].0;
      }
      ConsecutiveNumbers(got[..last], from, to - 1);
    }
  }

  // ---- The pool is large enough ------------------------------------------------------------------------------

  /** Nodes of the channel that its own ring refers to. */
  ghost function InOwnRing(s: State, ch: nat): set<NodeId> {
    (map j: nat | (ch, j) in Ring(s) && j < s.ringSize :: Ring(s)[(ch, j)]).Values * Members(s.pool, ch)
  }

  /** Live nodes of the channel outside its own ring. */
  ghost function Outside(s: State, ch: nat): set<NodeId>
    requires ch < |s.pool.free|
  {
    set n | n in Members(s.pool, ch) && n !in s.pool.free[ch] && n !in InOwnRing(s, ch)
  }

  lemma BudgetParts(s: State, ch: nat)
    requires FreeListsOk(s.pool) && ch < |s.pool.free|
    requires InOwnRing(s, ch) <= Members(s.pool, ch)
    requires forall n :: n in InOwnRing(s, ch) ==> n !in s.pool.free[ch]
    ensures |s.pool.free[ch]| + |InOwnRing(s, ch)| + |Outside(s, ch)| == |Members(s.pool, ch)|
  {
    hide InOwnRing;
    DistinctCardinality(s.pool.free[ch]);
    PartitionCardinality(Members(s.pool, ch), Elements(s.pool.free[ch]), InOwnRing(s, ch), Outside(s, ch));
  }

  lemma OwnRingIsLive(s: State, ch: nat)
    requires RefInv(s.pool, Ring(s), s.held) && ch < |s.pool.free|
    ensures InOwnRing(s, ch) <= Members(s.pool, ch)
    ensures forall n :: n in InOwnRing(s, ch) ==> n !in s.pool.free[ch]
  {
    hide Ring, Count, Counted;
    forall n | n in InOwnRing(s, ch) ensures n !in s.pool.free[ch] {
      var j: nat :| (ch, j) in Ring(s) && j < s.ringSize && Ring(s)[(ch, j)] == n;
      ReferencedIsLive(s.pool, Ring(s), s.held, n);
    }
  }

  /** Conservation: free, in the ring or outside, a channel always has ringSize + 1 nodes. */
  lemma NodeBudget(s: State, ch: nat)
    requires Inv(s) && ch < |s.pool.free|
    ensures |s.pool.free[ch]| + |InOwnRing(s, ch)| + |Outside(s, ch)| == s.ringSize + 1
  {
    hide LockInv, ExclusiveInv, ContentInv, HandleInv, Ring, Counted, FreeListsOk, InOwnRing, Outside, Members;
    OwnRingIsLive(s, ch);
    BudgetParts(s, ch);
  }

  /** While Write is between its Tfree and its Talloc the ring owns at most ringSize - 1 nodes. */
  lemma RingHasRoom(s: State, t: nat)
    requires Shape(s) && LockInv(s) && t < |s.pcs| && s.pcs[t].WriteFreed?
    ensures |InOwnRing(s, s.pcs[t].ch)| < s.ringSize
  {
    var ch := s.pcs[t].ch;
    var m := map j: nat | (ch, j) in Ring(s) && j < s.ringSize :: Ring(s)[(ch, j)];
    var all := UpTo(s.ringSize);
    assert Dangling(s, (ch, s.writePos[ch]));
    assert s.writePos[ch] in all && m.Keys <= all - {s.writePos[ch]};
    SubsetCardinality(m.Keys, all - {s.writePos[ch]});
    ValuesAtMostKeys(m);
    SubsetCardinality(InOwnRing(s, ch), m.Values);
  }

  /** From s1 the fill step completes the Write of `data` that stood at slot (ch, wp) in s: the cursor moves on by
      one, the record is the newest, and the slot holds it. */
  ghost predicate FillCompletes(s: State, s1: State, t: nat, ch: nat, data: Bytes)
    requires 0 < s.ringSize && ch < |s.writePos| == |s.log|
  {
    Shape(s1) && Enabled(s1, WriteFill(t)) &&
    var s2 := Step(s1, WriteFill(t));
    && s2.writePos == s.writePos[ch := (s.writePos[ch] + 1) % s.ringSize]
    && s2.log == s.log[ch := s.log[ch] + [data]]
    && Holds(s2, (ch, s.writePos[ch]), data)
  }

  /** With at most one node of the channel live outside its ring (ASSUME_CONSUMER_SIZE), Write cannot
      fail: Talloc finds a node, the cursor moves on, and the slot holds the record. */
  lemma WriteSucceeds(s: State, t: nat)
    requires Inv(s) && Enabled(s, WriteTalloc(t)) && |Outside(s, s.pcs[t].ch)| <= 1
    ensures FillCompletes(s, Step(s, WriteTalloc(t)), t, s.pcs[t].ch, s.pcs[t].data)
  {
    hide RefInv, ContentInv, HandleInv, ExclusiveInv, Holds, Outside, InOwnRing, Ring, LockInv;
    var ch := s.pcs[t].ch;
    NodeBudget(s, ch);
    RingHasRoom(s, t);
    assert s.pool.free[ch] != [];
    StepKeepsInv(s, WriteTalloc(t));
    WriteFillEffect(Step(s, WriteTalloc(t)), t);
  }

  /** The bound is tight: once the rest of the ring is full of the channel's nodes, Write fails, clearing
      the slot and leaving the cursor, exactly when two nodes are held outside. */
  lemma WriteFailsWhenTwoHeld(s: State, t: nat)
    requires Inv(s) && Enabled(s, WriteTalloc(t)) && |InOwnRing(s, s.pcs[t].ch)| == s.ringSize - 1
    ensures |Outside(s, s.pcs[t].ch)| >= 2 <==> GaveUp(s, Step(s, WriteTalloc(t)), t)
  {
    hide RefInv, ContentInv, HandleInv, ExclusiveInv, Outside, InOwnRing, Ring, LockInv;
    NodeBudget(s, s.pcs[t].ch);
  }

  /** Write returned -1: its slot is NULL, no cursor moved, nothing was recorded. */
  ghost predicate GaveUp(s: State, s1: State, t: nat)
    requires t < |s.pcs| && s.pcs[t].WriteFreed? && s.pcs[t].ch < |s.writePos|
  {
    && t < |s1.pcs| && s1.pcs[t].Idle? && s1.writePos == s.writePos && s1.log == s.log
    && s1.slots == s.slots - {(s.pcs[t].ch, s.writePos[s.pcs[t].ch])}
  }

  // ---- The protocol's steps, run without interruption, are the operations ---------------------------------------

  /** What thread t's Write of `data` to channel ch amounts to if nobody interrupts it after its Tfree. */
  ghost predicate CompletesAsWrite(s: State, s1: State, t: nat, ch: nat, data: Bytes)
    requires Shape(s) && ch < |s.lock|
  {
    Shape(s1) && Enabled(s1, WriteTalloc(t)) &&
    var s2 := Step(s1, WriteTalloc(t));
    Shape(s2) && t < |s2.pcs| && var done := s2.pcs[t].WriteAlloced?;
    var s3 := if done then Step(s2, WriteFill(t)) else s2;
    |s3.writePos| == |s.writePos| &&
    WriteEffect(s.pool, s.slots, s.writePos[ch], ch, data, s.ringSize, s3.pool, s3.slots, s3.writePos[ch],
                if done then 0 else -1)
  }

  /** Tfree, Talloc and fill in a row have the effect that Write has in the heap class. */
  lemma StepsAreWrite(s: State, t: nat)
    requires Inv(s) && Enabled(s, WriteTfree(t))
    ensures s.pcs[t].ch < |s.lock| && CompletesAsWrite(s, Step(s, WriteTfree(t)), t, s.pcs[t].ch, s.pcs[t].data)
  {
    hide RefInv, ContentInv, HandleInv, ExclusiveInv, LockInv, CompletesAsWrite;
    StepKeepsInv(s, WriteTfree(t));
    StepKeepsInv(Step(s, WriteTfree(t)), WriteTalloc(t));
    CompletesFromFreed(s, Step(s, WriteTfree(t)), t, s.pcs[t].ch, s.pcs[t].data);
  }

  lemma CompletesFromFreed(s: State, s1: State, t: nat, ch: nat, data: Bytes)
    requires Shape(s) && ch < |s.lock| && Releasable(s.pool, s.slots, (ch, s.writePos[ch]))
    requires s1 == s.(pool := Release(s.pool, s.slots, (ch, s.writePos[ch])), pcs := s1.pcs)
    requires Shape(s1) && t < |s1.pcs| && s1.pcs[t] == WriteFreed(ch, data) && Shape(Step(s1, WriteTalloc(t)))
    ensures CompletesAsWrite(s, s1, t, ch, data)
  {
    hide Release;
  }

  /** The one step of Read has the effect that Read has in the heap class. */
  lemma StepIsRead(s: State, t: nat, k: nat)
    requires Inv(s) && Enabled(s, EndRead(t, k))
    ensures var s', ReadEntered(ch, h) := Step(s, EndRead(t, k)), s.pcs[t];
            ReadEffect(s.pool, s.slots, s.writePos[ch], ch, s.ringSize, s.handles[h].readBegin, s.handles[h].readEnd,
                       s'.pool, s'.handles[h].readBegin, s'.handles[h].readEnd,
                       if k in s'.held then Some(s'.held[k]) else None)
  {
    hide RefInv, ContentInv, HandleInv, ExclusiveInv, LockInv, Lose, Anchor;
    assert PcOk(s, s.pcs[t]);
  }
}
