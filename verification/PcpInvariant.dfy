/** Every step of the CPcp protocol keeps its invariant. */
module PcpInvariant {
  import opened Common
  import opened PcpCursor
  import opened PcpPool
  import opened PcpProtocol

  // ---- Mutexes --------------------------------------------------------------------------------------

  lemma EnterLocks(s: State, t: nat, pc: PC)
    requires LockInv(s) && !pc.Idle? && CanEnter(s, t, pc.ch)
    ensures LockInv(Enter(s, t, pc))
    ensures forall c :: Owner(Enter(s, t, pc), c) == if c == pc.ch then pc else Owner(s, c)
  {
  }

  lemma MoveLocks(s: State, t: nat, pc: PC)
    requires LockInv(s) && t < |s.pcs| && !s.pcs[t].Idle? && !pc.Idle? && pc.ch == s.pcs[t].ch
    ensures Owner(s, pc.ch) == s.pcs[t]
    ensures LockInv(s.(pcs := s.pcs[t := pc]))
    ensures forall c :: Owner(s.(pcs := s.pcs[t := pc]), c) == if c == pc.ch then pc else Owner(s, c)
  {
  }

  lemma LeaveLocks(s: State, t: nat)
    requires LockInv(s) && t < |s.pcs| && !s.pcs[t].Idle?
    ensures Owner(s, s.pcs[t].ch) == s.pcs[t]
    ensures LockInv(Leave(s, t))
    ensures forall c :: Owner(Leave(s, t), c) == if c == s.pcs[t].ch then Idle else Owner(s, c)
  {
  }

  // ---- Frames ---------------------------------------------------------------------------------------

  /** The part of the state that only its history and its own channel can disturb. */
  ghost predicate SameRecords(s: State, s': State) {
    s'.ringSize == s.ringSize && s'.log == s.log && s'.writePos == s.writePos && |s'.lock| == |s.lock|
  }

  /** The slots of the last ringSize - 1 records differ from the one to be written next. */
  lemma RecentSlot(a: nat, written: nat, n: nat)
    requires a < written && written - a < n
    ensures a % n != written % n
  {
    CyclicAdd(a, written - a, n);
  }

  lemma ContentFrame(s: State, s': State, ch: nat)
    requires ch < |s.writePos| == |s.log| && 0 < s.ringSize && SameRecords(s, s') && ContentInv(s, ch)
    requires forall j :: (ch, j) in s'.slots ==>
               (ch, j) in s.slots || (j == s.writePos[ch] && Refreshing(Owner(s', ch)))
    requires Refreshing(Owner(s, ch)) ==> Refreshing(Owner(s', ch)) || (ch, s.writePos[ch]) !in s'.slots
    requires forall j: nat, data ::
               Holds(s, (ch, j), data) && (j == s.writePos[ch] ==> !Refreshing(Owner(s', ch)) && (ch, j) in s'.slots)
               ==> Holds(s', (ch, j), data)
    ensures ContentInv(s', ch)
  {
    var log, n := s.log[ch], s.ringSize;
    forall a | 0 <= a < |log| && |log| - a < n ensures Holds(s', (ch, a % n), log[a]) {
      RecentSlot(a, |log|, n);
    }
  }

  lemma AllContentsFrame(s: State, s': State)
    requires 0 < s.ringSize && |s.writePos| == |s.log| && SameRecords(s, s') && s'.slots == s.slots
    requires forall ch :: 0 <= ch < |s.log| ==> ContentInv(s, ch)
    requires forall ch :: Refreshing(Owner(s', ch)) == Refreshing(Owner(s, ch))
    requires forall slot, d :: Holds(s, slot, d) ==> Holds(s', slot, d)
    ensures forall ch :: 0 <= ch < |s'.log| ==> ContentInv(s', ch)
  {
    hide Owner, Holds, ContentInv;
    forall ch | 0 <= ch < |s'.log| ensures ContentInv(s', ch) {
      assert ContentInv(s, ch);
      ContentFrame(s, s', ch);
    }
  }

  lemma HandlesFrame(s: State, s': State)
    requires 0 < s.ringSize && |s.log| == |s.lock|
    requires forall h :: 0 <= h < |s.handles| ==> HandleInv(s, s.handles[h])
    requires |s'.log| == |s'.lock| == |s.log| && s'.ringSize == s.ringSize && s'.handles == s.handles
    requires forall ch :: 0 <= ch < |s.log| ==> s.log[ch] <= s'.log[ch]
    ensures forall h :: 0 <= h < |s'.handles| ==> HandleInv(s', s'.handles[h])
  {
    forall h | 0 <= h < |s'.handles| ensures HandleInv(s', s'.handles[h]) {
      assert HandleInv(s, s.handles[h]);
    }
  }

  lemma MembersFrame(p: Pool<NodeId>, p': Pool<NodeId>, ch: nat)
    requires forall n :: n in p.cells <==> n in p'.cells
    requires forall n :: n in p.cells ==> p'.cells[n].channel == p.cells[n].channel
    ensures Members(p', ch) == Members(p, ch)
  {
  }

  lemma AllMembersFrame(s: State, s': State)
    requires forall ch :: 0 <= ch < |s.log| ==> |Members(s.pool, ch)| == s.ringSize + 1
    requires s'.ringSize == s.ringSize && |s'.log| == |s.log|
    requires forall n :: n in s.pool.cells <==> n in s'.pool.cells
    requires forall n :: n in s.pool.cells ==> s'.pool.cells[n].channel == s.pool.cells[n].channel
    ensures forall ch :: 0 <= ch < |s'.log| ==> |Members(s'.pool, ch)| == s'.ringSize + 1
  {
    hide Members;
    forall ch | 0 <= ch < |s'.log| ensures |Members(s'.pool, ch)| == s'.ringSize + 1 {
      MembersFrame(s.pool, s'.pool, ch);
    }
  }

  /** A step that moves no pointer, counter or payload keeps everything that speaks of them. */
  lemma QuietFrame(s: State, s': State)
    requires 0 < s.ringSize && |s.writePos| == |s.log| && SameRecords(s, s')
    requires s'.pool == s.pool && s'.slots == s.slots && s'.held == s.held && Ring(s') == Ring(s)
    requires forall ch :: Refreshing(Owner(s', ch)) == Refreshing(Owner(s, ch))
    requires forall ch :: 0 <= ch < |s.log| ==> ContentInv(s, ch)
    ensures forall ch :: 0 <= ch < |s'.log| ==> ContentInv(s', ch)
  {
    hide Owner, ContentInv, Ring;
    AllContentsFrame(s, s');
  }

  lemma RingSame(s: State, s': State)
    requires s'.slots == s.slots && s'.writePos == s.writePos
    requires forall c :: Owner(s', c).WriteFreed? == Owner(s, c).WriteFreed?
    ensures Ring(s') == Ring(s)
  {
    hide Owner;
  }

  // ---- Entering and leaving without touching the pool ---------------------------------------------------

  lemma KeepBeginWrite(s: State, t: nat, ch: nat, data: Bytes)
    requires Inv(s) && Enabled(s, BeginWrite(t, ch, data))
    ensures Inv(Enter(s, t, WriteEntered(ch, data)))
  {
    hide RefInv, ContentInv, HandleInv, Members;
    var s' := Enter(s, t, WriteEntered(ch, data));
    EnterLocks(s, t, WriteEntered(ch, data));
    RingSame(s, s');
    QuietFrame(s, s');
    HandlesFrame(s, s');
  }

  lemma KeepBeginNodeWrite(s: State, t: nat, ch: nat, k: nat)
    requires Inv(s) && Enabled(s, BeginNodeWrite(t, ch, k))
    ensures Inv(DoBeginNodeWrite(s, t, ch, k))
  {
    hide RefInv, ContentInv, HandleInv, Members;
    var s' := DoBeginNodeWrite(s, t, ch, k);
    EnterLocks(s, t, NodeWriteEntered(ch, k));
    RingSame(s, s');
    QuietFrame(s, s');
    HandlesFrame(s, s');
  }

  lemma KeepOpen(s: State, ch: nat)
    requires Inv(s) && Enabled(s, Open(ch))
    ensures Inv(DoOpen(s, ch))
  {
    hide RefInv, Members;
    var s' := DoOpen(s, ch);
    assert forall c :: Owner(s', c) == Owner(s, c);
    RingSame(s, s');
    QuietFrame(s, s');
    assert ContentInv(s, ch);
    forall h | 0 <= h < |s'.handles| ensures HandleInv(s', s'.handles[h]) {
      if h < |s.handles| { assert HandleInv(s, s.handles[h]); }
    }
  }

  lemma KeepBeginRead(s: State, t: nat, h: nat)
    requires Inv(s) && Enabled(s, BeginRead(t, h))
    ensures Inv(Enter(s, t, ReadEntered(s.handles[h].channel, h)))
  {
    hide RefInv, ContentInv, HandleInv, Members;
    var s' := Enter(s, t, ReadEntered(s.handles[h].channel, h));
    EnterLocks(s, t, ReadEntered(s.handles[h].channel, h));
    RingSame(s, s');
    QuietFrame(s, s');
    HandlesFrame(s, s');
  }

  // ---- Write ------------------------------------------------------------------------------------------

  /** What a step must satisfy when it changes at most the pointer of slot `next` of channel ch and the
      payload of nodes that no slot but that one owns. */
  ghost predicate TouchesOnly(s: State, s': State, ch: nat)
    requires ch < |s.writePos|
  {
    && SameRecords(s, s')
    && (forall k :: k != (ch, s.writePos[ch]) ==> (k in s'.slots <==> k in s.slots))
    && (forall k, data :: k != (ch, s.writePos[ch]) && Holds(s, k, data) ==> Holds(s', k, data))
    && (forall c :: c != ch ==> Owner(s', c) == Owner(s, c))
    && (Refreshing(Owner(s', ch)) || (ch, s.writePos[ch]) !in s'.slots)
  }

  lemma TouchedContent(s: State, s': State, ch: nat)
    requires Shape(s) && ch < |s.log| && TouchesOnly(s, s', ch)
    requires forall c :: 0 <= c < |s.log| ==> ContentInv(s, c)
    ensures forall c :: 0 <= c < |s'.log| ==> ContentInv(s', c)
  {
    hide Holds, Owner;
    forall c | 0 <= c < |s'.log| ensures ContentInv(s', c) {
      assert ContentInv(s, c);
      if c != ch {
        ContentFrame(s, s', c);
      } else {
        ContentFrame(s, s', ch);
      }
    }
  }

  // ---- Private nodes ------------------------------------------------------------------------------------

  /** A node whose only reference is hold k is in no slot and under no other hold. */
  lemma PrivateHold(ring: map<Slot, NodeId>, held: map<nat, NodeId>, k: nat)
    requires k in held && Refs(ring, held, held[k]) == 1
    ensures Count(ring, held[k]) == 0 && Count(held, held[k]) == 1
    ensures forall s :: s in ring ==> ring[s] != held[k]
    ensures forall j :: j in held && j != k ==> held[j] != held[k]
  {
    CountPositive(ring, held[k]);
    CountPositive(held, held[k]);
    forall j | j in held && j != k ensures held[j] != held[k] {
      if held[j] == held[k] { CountUnique(held, held[k], j, k); }
    }
  }

  /** A node whose only reference is slot s is in no other slot and under no hold. */
  lemma PrivateSlot(ring: map<Slot, NodeId>, held: map<nat, NodeId>, s: Slot)
    requires s in ring && Refs(ring, held, ring[s]) == 1
    ensures Count(held, ring[s]) == 0
    ensures forall r :: r in ring && r != s ==> ring[r] != ring[s]
    ensures forall k :: k in held ==> held[k] != ring[s]
  {
    CountPositive(ring, ring[s]);
    CountPositive(held, ring[s]);
    forall r | r in ring && r != s ensures ring[r] != ring[s] {
      if ring[r] == ring[s] { CountUnique(ring, ring[s], r, s); }
    }
  }

  /** Dropping a slot's reference leaves private nodes of others private. */
  lemma ReleaseKeepsPrivate(ring: map<Slot, NodeId>, held: map<nat, NodeId>, s: Slot, n: NodeId)
    requires s in ring && Refs(ring, held, n) == 1
    requires (exists k :: k in held && held[k] == n) || (exists r :: r in ring && r != s && ring[r] == n)
    ensures Refs(ring - {s}, held, n) == 1
  {
    CountRemove(ring, s, n);
    if k :| k in held && held[k] == n {
      PrivateHold(ring, held, k);
    } else {
      var r :| r in ring && r != s && ring[r] == n;
      PrivateSlot(ring, held, r);
    }
  }

  lemma ExclusiveAfterTfree(s: State, s': State, t: nat)
    requires Shape(s) && LockInv(s) && ExclusiveInv(s) && t < |s.pcs| && s.pcs[t].WriteEntered?
    requires s'.slots == s.slots && s'.held == s.held && s'.writePos == s.writePos && s'.lock == s.lock
    requires s'.producing == s.producing && s'.publishing == s.publishing
    requires s'.pcs == s.pcs[t := WriteFreed(s.pcs[t].ch, s.pcs[t].data)]
    requires Ring(s') == Ring(s) - {(s.pcs[t].ch, s.writePos[s.pcs[t].ch])}
    ensures ExclusiveInv(s')
  {
    var slot := (s.pcs[t].ch, s.writePos[s.pcs[t].ch]);
    if slot in Ring(s) {
      forall k | k in s'.producing + s'.publishing ensures Refs(Ring(s'), s'.held, s'.held[k]) == 1 {
        ReleaseKeepsPrivate(Ring(s), s.held, slot, s.held[k]);
      }
      forall ch | 0 <= ch < |s'.lock| && Owner(s', ch).WriteAlloced? && ch < |s'.writePos|
        ensures (ch, s'.writePos[ch]) in s'.slots
        ensures Refs(Ring(s'), s'.held, s'.slots[(ch, s'.writePos[ch])]) == 1
      {
        assert (ch, s.writePos[ch]) in Ring(s);
        ReleaseKeepsPrivate(Ring(s), s.held, slot, s.slots[(ch, s.writePos[ch])]);
      }
    } else {
      assert Ring(s') == Ring(s);
    }
  }

  lemma WriteTfreeEffect(s: State, t: nat)
    requires Inv(s) && Enabled(s, WriteTfree(t))
    ensures var s', slot := DoWriteTfree(s, t), (s.pcs[t].ch, s.writePos[s.pcs[t].ch]);
            && LockInv(s') && Ring(s') == Ring(s) - {slot} && (slot in s.slots <==> slot in Ring(s))
            && TouchesOnly(s, s', slot.0)
  {
    hide RefInv, ContentInv, HandleInv, ExclusiveInv;
    var s', pc := DoWriteTfree(s, t), s.pcs[t];
    MoveLocks(s, t, WriteFreed(pc.ch, pc.data));
    FreedEffect(s, s', t);
  }

  /** The freed node's slot dangles; nothing else moves. */
  lemma FreedEffect(s: State, s': State, t: nat)
    requires |s.writePos| == |s.lock| && t < |s.pcs| && s.pcs[t].WriteEntered? && s.pcs[t].ch < |s.writePos|
    requires Owner(s, s.pcs[t].ch) == s.pcs[t]
    requires s' == s.(pool := s'.pool, pcs := s.pcs[t := WriteFreed(s.pcs[t].ch, s.pcs[t].data)])
    requires forall c :: Owner(s', c) == if c == s.pcs[t].ch then s'.pcs[t] else Owner(s, c)
    requires forall n :: n in s.pool.cells ==> n in s'.pool.cells && s'.pool.cells[n].data == s.pool.cells[n].data
    ensures var slot := (s.pcs[t].ch, s.writePos[s.pcs[t].ch]);
            Ring(s') == Ring(s) - {slot} && (slot in s.slots <==> slot in Ring(s)) && TouchesOnly(s, s', slot.0)
  {
    hide Owner;
  }

  lemma KeepWriteTfree(s: State, t: nat)
    requires Inv(s) && Enabled(s, WriteTfree(t))
    ensures Inv(DoWriteTfree(s, t))
  {
    hide RefInv, ContentInv, HandleInv, ExclusiveInv, LockInv, Ring, Owner, TouchesOnly;
    var s', pc := DoWriteTfree(s, t), s.pcs[t];
    var slot := (pc.ch, s.writePos[pc.ch]);
    WriteTfreeEffect(s, t);
    if slot in s.slots {
      assert Ring(s)[slot] == s.slots[slot] by { RingAgrees(s, slot); }
      RefTfreeRing(s.pool, Ring(s), s.held, slot);
    } else {
      assert Ring(s') == Ring(s);
    }
    ExclusiveAfterTfree(s, s', t);
    TouchedContent(s, s', pc.ch);
    AllMembersFrame(s, s');
    HandlesFrame(s, s');
  }

  lemma RingAgrees(s: State, slot: Slot)
    requires slot in Ring(s)
    ensures slot in s.slots && Ring(s)[slot] == s.slots[slot]
  {
  }

  /** A fresh node is private, and taking it makes no other node less private. */
  lemma TallocKeepsPrivate(p: Pool<NodeId>, ring: map<Slot, NodeId>, held: map<nat, NodeId>, ch: nat,
                            s: Slot, n: NodeId)
    requires RefInv(p, ring, held) && ch < |p.free| && p.free[ch] != [] && s !in ring && n in p.cells
    requires n == p.free[ch][0] || Refs(ring, held, n) == 1
    ensures Refs(ring[s := p.free[ch][0]], held, n) == 1
  {
    TallocTakes(p, ring, held, ch);
    CountAdd(ring, s, p.free[ch][0], n);
  }

  /** What installing a fresh node in a dangling or empty slot does to the records. */
  lemma InstallEffect(s: State, s': State, t: nat, n: NodeId)
    requires Shape(s) && LockInv(s) && t < |s.pcs| && s.pcs[t].WriteFreed?
    requires s'.pcs == s.pcs[t := WriteAlloced(s.pcs[t].ch, s.pcs[t].data)] && s'.lock == s.lock
    requires s'.slots == s.slots[(s.pcs[t].ch, s.writePos[s.pcs[t].ch]) := n] && SameRecords(s, s')
    requires n !in Ring(s).Values
    requires forall m :: m in s.pool.cells && m != n ==> m in s'.pool.cells && s'.pool.cells[m] == s.pool.cells[m]
    ensures var slot := (s.pcs[t].ch, s.writePos[s.pcs[t].ch]);
            LockInv(s') && slot !in Ring(s) && Ring(s') == Ring(s)[slot := n] && TouchesOnly(s, s', slot.0)
  {
    MoveLocks(s, t, WriteAlloced(s.pcs[t].ch, s.pcs[t].data));
    InstalledEffect(s, s', s.pcs[t].ch, n);
  }

  lemma InstalledEffect(s: State, s': State, ch: nat, n: NodeId)
    requires ch < |s.writePos| == |s.lock| && SameRecords(s, s') && s'.slots == s.slots[(ch, s.writePos[ch]) := n]
    requires Owner(s, ch).WriteFreed? && Owner(s', ch).WriteAlloced?
    requires forall c :: c != ch ==> Owner(s', c) == Owner(s, c)
    requires n !in Ring(s).Values
    requires forall m :: m in s.pool.cells && m != n ==> m in s'.pool.cells && s'.pool.cells[m] == s.pool.cells[m]
    ensures var slot := (ch, s.writePos[ch]);
            slot !in Ring(s) && Ring(s') == Ring(s)[slot := n] && TouchesOnly(s, s', ch)
  {
    hide Owner;
    forall k | k in Ring(s) ensures Ring(s)[k] in Ring(s).Values {}
  }

  lemma GiveUpEffect(s: State, s': State, t: nat)
    requires Shape(s) && LockInv(s) && t < |s.pcs| && s.pcs[t].WriteFreed?
    requires s' == Leave(s.(slots := s.slots - {(s.pcs[t].ch, s.writePos[s.pcs[t].ch])}), t)
    ensures LockInv(s') && Ring(s') == Ring(s) && TouchesOnly(s, s', s.pcs[t].ch)
  {
    assert |s.writePos| == |s.lock|;
    hide Shape;
    LeaveLocks(s, t);
  }

  lemma WriteTallocEffect(s: State, t: nat)
    requires Inv(s) && Enabled(s, WriteTalloc(t))
    ensures var s', ch := DoWriteTalloc(s, t), s.pcs[t].ch;
            var slot := (ch, s.writePos[ch]);
            && LockInv(s') && (s.pool.free[ch] != [] ==> slot !in Ring(s))
            && Ring(s') == (if s.pool.free[ch] == [] then Ring(s) else Ring(s)[slot := s.pool.free[ch][0]])
            && TouchesOnly(s, s', ch)
  {
    hide ContentInv, HandleInv, ExclusiveInv, RefInv, LockInv, TouchesOnly, Ring;
    var s', pc := DoWriteTalloc(s, t), s.pcs[t];
    if s.pool.free[pc.ch] == [] {
      GiveUpEffect(s, s', t);
    } else {
      TallocTakes(s.pool, Ring(s), s.held, pc.ch);
      CountPositive(Ring(s), s.pool.free[pc.ch][0]);
      InstallEffect(s, s', t, s.pool.free[pc.ch][0]);
    }
  }

  lemma ExclusiveAfterTalloc(s: State, t: nat)
    requires Inv(s) && Enabled(s, WriteTalloc(t))
    ensures ExclusiveInv(DoWriteTalloc(s, t))
  {
    hide ContentInv, HandleInv, RefInv, Refs, TouchesOnly, LockInv, Ring;
    var s', ch := DoWriteTalloc(s, t), s.pcs[t].ch;
    var slot := (ch, s.writePos[ch]);
    WriteTallocEffect(s, t);
    if s.pool.free[ch] != [] {
      forall k | k in s'.producing + s'.publishing ensures Refs(Ring(s'), s'.held, s'.held[k]) == 1 {
        TallocKeepsPrivate(s.pool, Ring(s), s.held, ch, slot, s.held[k]);
      }
      forall c | 0 <= c < |s'.lock| && Owner(s', c).WriteAlloced? && c < |s'.writePos|
        ensures (c, s'.writePos[c]) in s'.slots
        ensures Refs(Ring(s'), s'.held, s'.slots[(c, s'.writePos[c])]) == 1
      {
        TallocTakes(s.pool, Ring(s), s.held, ch);
        assert c != ch ==> Owner(s', c) == Owner(s, c) by { assert TouchesOnly(s, s', ch); OwnersOf(s, s', ch); }
        TallocKeepsPrivate(s.pool, Ring(s), s.held, ch, slot, s'.slots[(c, s'.writePos[c])]);
      }
    }
  }

  lemma OwnersOf(s: State, s': State, ch: nat)
    requires ch < |s.writePos| && TouchesOnly(s, s', ch)
    ensures forall c :: c != ch ==> Owner(s', c) == Owner(s, c)
  {
  }

  lemma ShapeAfterTalloc(s: State, t: nat)
    requires Inv(s) && Enabled(s, WriteTalloc(t))
    ensures Shape(DoWriteTalloc(s, t))
  {
    hide RefInv, ContentInv, HandleInv, ExclusiveInv, Ring, Owner;
    var s', ch := DoWriteTalloc(s, t), s.pcs[t].ch;
    forall u | 0 <= u < |s'.pcs| ensures PcOk(s', s'.pcs[u]) {
      assert PcOk(s, s.pcs[u]);
    }
  }

  lemma KeepWriteTalloc(s: State, t: nat)
    requires Inv(s) && Enabled(s, WriteTalloc(t))
    ensures Inv(DoWriteTalloc(s, t))
  {
    hide RefInv, ContentInv, HandleInv, ExclusiveInv, LockInv, Ring, Owner, TouchesOnly;
    var s', ch := DoWriteTalloc(s, t), s.pcs[t].ch;
    var slot := (ch, s.writePos[ch]);
    WriteTallocEffect(s, t);
    ShapeAfterTalloc(s, t);
    ExclusiveAfterTalloc(s, t);
    if s.pool.free[ch] != [] {
      TallocTakes(s.pool, Ring(s), s.held, ch);
      RefTallocRing(s.pool, Ring(s), s.held, ch, slot);
      assert s'.pool.cells[s.pool.free[ch][0]].channel == s.pool.cells[s.pool.free[ch][0]].channel by {
        FreeNodeChannel(s.pool, Ring(s), s.held, ch);
      }
    }
    TouchedContent(s, s', ch);
    AllMembersFrame(s, s');
    HandlesFrame(s, s');
  }

  lemma FreeNodeChannel(p: Pool<NodeId>, ring: map<Slot, NodeId>, held: map<nat, NodeId>, ch: nat)
    requires RefInv(p, ring, held) && ch < |p.free| && p.free[ch] != []
    ensures p.free[ch][0] in p.cells && p.cells[p.free[ch][0]].channel == ch
  {
    assert p.free[ch][0] in p.free[ch];
  }

  // ---- Publishing a record ------------------------------------------------------------------------------

  /** The new record sits in the slot at the old write cursor; everything else the ring holds is kept. */
  ghost predicate Published(s: State, s': State, ch: nat, data: Bytes)
    requires ch < |s.writePos| == |s.log| && 0 < s.ringSize
  {
    && s'.ringSize == s.ringSize && |s'.lock| == |s.lock|
    && s'.writePos == s.writePos[ch := (s.writePos[ch] + 1) % s.ringSize]
    && s'.log == s.log[ch := s.log[ch] + [data]]
    && Holds(s', (ch, s.writePos[ch]), data)
    && (forall k :: k != (ch, s.writePos[ch]) ==> (k in s'.slots <==> k in s.slots))
    && (forall k, d :: k != (ch, s.writePos[ch]) && Holds(s, k, d) ==> Holds(s', k, d))
    && (forall c :: c != ch ==> Owner(s', c) == Owner(s, c))
    && Owner(s', ch).Idle?
  }

  lemma PublishedHere(s: State, s': State, ch: nat, data: Bytes)
    requires ch < |s.writePos| == |s.log| && 0 < s.ringSize && Published(s, s', ch, data) && ContentInv(s, ch)
    ensures ContentInv(s', ch)
  {
    hide Holds, Owner;
    var log, n := s.log[ch], s.ringSize;
    var log', w := s'.log[ch], |log|;
    CyclicNext(w, n);
    assert s'.writePos[ch] == (w + 1) % n;
    forall a | 0 <= a < |log'| && |log'| - a < n ensures Holds(s', (ch, a % n), log'[a]) {
      if a < w { RecentSlot(a, w, n); }
    }
    if |log'| >= n && n > 1 {
      var a := w + 1 - n;
      CyclicTurns(a, 1, n);
      RecentSlot(a, w, n);
      assert Holds(s', (ch, a % n), log'[a]);
    }
    if w < n { DivModUnique(w, n, 0, w); }
  }

  lemma PublishedContent(s: State, s': State, ch: nat, data: Bytes)
    requires Shape(s) && ch < |s.log| && Published(s, s', ch, data)
    requires forall c :: 0 <= c < |s.log| ==> ContentInv(s, c)
    ensures forall c :: 0 <= c < |s'.log| ==> ContentInv(s', c)
  {
    hide Holds, Owner;
    forall c | 0 <= c < |s'.log| ensures ContentInv(s', c) {
      assert ContentInv(s, c);
      if c == ch {
        PublishedHere(s, s', ch, data);
      } else {
        PublishedElsewhere(s, s', ch, data, c);
      }
    }
  }

  lemma PublishedElsewhere(s: State, s': State, ch: nat, data: Bytes, c: nat)
    requires Shape(s) && ch < |s.log| && Published(s, s', ch, data) && c != ch && c < |s.log| && ContentInv(s, c)
    ensures ContentInv(s', c)
  {
    hide Holds, Owner;
  }

  lemma WriteFillEffect(s: State, t: nat)
    requires Inv(s) && Enabled(s, WriteFill(t))
    ensures var s', pc := DoWriteFill(s, t), s.pcs[t];
            var slot := (pc.ch, s.writePos[pc.ch]);
            && LockInv(s') && slot in Ring(s) && Ring(s)[slot] == s.slots[slot]
            && Refs(Ring(s), s.held, s.slots[slot]) == 1
            && Ring(s') == Ring(s) && Published(s, s', pc.ch, pc.data)
  {
    hide RefInv, ContentInv, HandleInv, Refs;
    var s', pc := DoWriteFill(s, t), s.pcs[t];
    var slot := (pc.ch, s.writePos[pc.ch]);
    LeaveLocks(s, t);
    assert slot in Ring(s);
    PrivateSlot(Ring(s), s.held, slot);
    FilledEffect(s, s', pc, slot);
  }

  /** A private node is filled and its slot published. */
  lemma FilledEffect(s: State, s': State, pc: PC, slot: Slot)
    requires pc.WriteAlloced? && 0 < s.ringSize && pc.ch < |s.writePos| == |s.log| == |s.lock| == |s.pool.free|
    requires slot == (pc.ch, s.writePos[pc.ch]) && slot in s.slots && s.slots[slot] in s.pool.cells
    requires Owner(s, pc.ch) == pc
    requires s' == Advance(s.(pool := SetData(s.pool, s.slots[slot], pc.data)), pc.ch, pc.data)
                     .(pcs := s'.pcs, lock := s'.lock)
    requires |s'.lock| == |s.lock| && forall c :: Owner(s', c) == if c == pc.ch then Idle else Owner(s, c)
    requires forall k :: k in Ring(s) && k != slot ==> Ring(s)[k] != s.slots[slot]
    ensures Ring(s') == Ring(s) && slot in Ring(s) && Ring(s)[slot] == s.slots[slot]
    ensures Published(s, s', pc.ch, pc.data)
  {
    hide Owner;
    assert Ring(s') == Ring(s);
    forall k, d | k != slot && Holds(s, k, d) ensures Holds(s', k, d) {}
  }

  lemma ShapeAfterWriteFill(s: State, t: nat)
    requires Inv(s) && Enabled(s, WriteFill(t))
    ensures Shape(DoWriteFill(s, t))
  {
    hide RefInv, ContentInv, HandleInv, Holds, Ring, Refs, ExclusiveInv, Members;
    var s', pc := DoWriteFill(s, t), s.pcs[t];
    LeaveLocks(s, t);
    forall u | 0 <= u < |s'.pcs| ensures PcOk(s', s'.pcs[u]) {
      assert PcOk(s, s.pcs[u]);
    }
  }

  lemma ExclusiveAfterWriteFill(s: State, t: nat)
    requires Inv(s) && Enabled(s, WriteFill(t))
    ensures ExclusiveInv(DoWriteFill(s, t))
  {
    hide RefInv, ContentInv, HandleInv, Holds, Ring, Refs;
    WriteFillEffect(s, t);
    LeaveLocks(s, t);
  }

  lemma KeepWriteFill(s: State, t: nat)
    requires Inv(s) && Enabled(s, WriteFill(t))
    ensures Inv(DoWriteFill(s, t))
  {
    hide RefInv, ContentInv, HandleInv, Holds, Ring, Refs, ExclusiveInv, LockInv, Owner;
    var s', pc := DoWriteFill(s, t), s.pcs[t];
    WriteFillEffect(s, t);
    ShapeAfterWriteFill(s, t);
    ExclusiveAfterWriteFill(s, t);
    RefSetData(s.pool, Ring(s), s.held, s.slots[(pc.ch, s.writePos[pc.ch])], pc.data);
    PublishedContent(s, s', pc.ch, pc.data);
    AllMembersFrame(s, s');
    HandlesFrame(s, s');
  }

  // ---- Steps outside every dataMutex --------------------------------------------------------------------

  /** Slots, cursors and mutexes untouched; payloads of nodes in the ring untouched. */
  ghost predicate OffRing(s: State, s': State) {
    && SameRecords(s, s') && s'.slots == s.slots && s'.lock == s.lock && s'.pcs == s.pcs
    && (forall k :: k in Ring(s) && Ring(s)[k] in s.pool.cells ==>
          Ring(s)[k] in s'.pool.cells && s'.pool.cells[Ring(s)[k]].data == s.pool.cells[Ring(s)[k]].data)
  }

  lemma OffRingFrame(s: State, s': State)
    requires Shape(s) && LockInv(s) && OffRing(s, s') && forall ch :: 0 <= ch < |s.log| ==> ContentInv(s, ch)
    ensures LockInv(s') && Ring(s') == Ring(s)
    ensures forall ch :: Owner(s', ch) == Owner(s, ch)
    ensures forall ch :: 0 <= ch < |s'.log| ==> ContentInv(s', ch)
  {
    hide RefInv, ContentInv, HandleInv, ExclusiveInv;
    assert Ring(s') == Ring(s);
    forall ch | 0 <= ch < |s'.log| ensures ContentInv(s', ch) {
      assert ContentInv(s, ch);
      OffRingContent(s, s', ch);
    }
  }

  lemma OffRingContent(s: State, s': State, ch: nat)
    requires Shape(s) && OffRing(s, s') && Ring(s') == Ring(s) && ch < |s.log| && ContentInv(s, ch)
    ensures ContentInv(s', ch)
  {
    hide Ring;
    assert Owner(s', ch) == Owner(s, ch);
    ContentFrame(s, s', ch);
  }

  lemma ShapeAfterTallocNode(s: State, k: nat, ch: nat)
    requires Inv(s) && Enabled(s, TallocNode(k, ch))
    ensures Shape(DoTallocNode(s, k, ch))
  {
    hide ContentInv, HandleInv, ExclusiveInv, LockInv, Owner, RefInv, Ring, PcOk;
    var s' := DoTallocNode(s, k, ch);
    if s.pool.free[ch] != [] {
      FreeNodeChannel(s.pool, Ring(s), s.held, ch);
      ShapeKept(s, s');
    }
  }

  lemma KeepTallocNode(s: State, k: nat, ch: nat)
    requires Inv(s) && Enabled(s, TallocNode(k, ch))
    ensures Inv(DoTallocNode(s, k, ch))
  {
    hide ContentInv, HandleInv, ExclusiveInv, LockInv, Owner, RefInv, Ring, Count;
    var s' := DoTallocNode(s, k, ch);
    ShapeAfterTallocNode(s, k, ch);
    if s.pool.free[ch] != [] {
      var n := s.pool.free[ch][0];
      TallocTakes(s.pool, Ring(s), s.held, ch);
      FreeNodeChannel(s.pool, Ring(s), s.held, ch);
      RefTallocHeld(s.pool, Ring(s), s.held, ch, k);
      NotInRing(Ring(s), n);
      OffRingFrame(s, s');
      ExclusiveAfterTallocNode(s, s', k, n);
      AllMembersFrame(s, s');
      HandlesFrame(s, s');
    }
  }

  lemma NotInRing(ring: map<Slot, NodeId>, n: NodeId)
    requires Count(ring, n) == 0
    ensures forall slot :: slot in ring ==> ring[slot] != n
  {
    CountPositive(ring, n);
  }

  lemma ExclusiveAfterTallocNode(s: State, s': State, k: nat, n: NodeId)
    requires ExclusiveInv(s) && Shape(s) && LockInv(s)
    requires s'.slots == s.slots && s'.lock == s.lock && s'.pcs == s.pcs && s'.writePos == s.writePos
    requires Ring(s') == Ring(s)
    requires k !in s.held && Count(Ring(s), n) == 0 && Count(s.held, n) == 0
    requires s'.held == s.held[k := n] && s'.producing == s.producing + {k} && s'.publishing == s.publishing
    ensures ExclusiveInv(s')
  {
    hide Ring, Count;
    forall x ensures Count(s'.held, x) == Count(s.held, x) + if x == n then 1 else 0 {
      CountAdd(s.held, k, n, x);
    }
  }

  lemma KeepFillNode(s: State, k: nat, data: Bytes)
    requires Inv(s) && Enabled(s, FillNode(k, data))
    ensures Inv(DoFillNode(s, k, data))
  {
    hide ContentInv, HandleInv, LockInv, RefInv, Refs;
    var s' := DoFillNode(s, k, data);
    PrivateHold(Ring(s), s.held, k);
    RefSetData(s.pool, Ring(s), s.held, s.held[k], data);
    OffRingFrame(s, s');
    AllMembersFrame(s, s');
    HandlesFrame(s, s');
  }

  lemma KeepTfreeHeld(s: State, k: nat)
    requires Inv(s) && Enabled(s, TfreeHeld(k))
    ensures Inv(DoTfreeHeld(s, k))
  {
    hide ContentInv, HandleInv, LockInv, RefInv, ExclusiveInv, Owner;
    var s' := DoTfreeHeld(s, k);
    RefTfreeHeld(s.pool, Ring(s), s.held, k);
    OffRingFrame(s, s');
    ExclusiveAfterTfreeHeld(s, s', k);
    ShapeAfterTfreeHeld(s, s', k);
    AllMembersFrame(s, s');
    HandlesFrame(s, s');
  }

  lemma ShapeAfterTfreeHeld(s: State, s': State, k: nat)
    requires Shape(s) && ExclusiveInv(s) && k in s.held && k !in s.publishing
    requires s' == s.(pool := Tfree(s.pool, s.held[k]), held := s.held - {k}, producing := s.producing - {k})
    ensures Shape(s')
  {
    hide Ring, Refs, Owner;
    forall t | 0 <= t < |s'.pcs| ensures PcOk(s', s'.pcs[t]) {
      assert PcOk(s, s.pcs[t]);
    }
  }

  lemma ExclusiveAfterTfreeHeld(s: State, s': State, k: nat)
    requires ExclusiveInv(s) && Shape(s) && LockInv(s) && k in s.held && k !in s.publishing
    requires s'.slots == s.slots && s'.lock == s.lock && s'.pcs == s.pcs && s'.writePos == s.writePos
    requires Ring(s') == Ring(s)
    requires s'.held == s.held - {k} && s'.producing == s.producing - {k} && s'.publishing == s.publishing
    ensures ExclusiveInv(s')
  {
    hide Refs;
    forall j | j in s'.producing + s'.publishing ensures j in s'.held && Refs(Ring(s'), s'.held, s'.held[j]) == 1 {
      PrivateHold(Ring(s), s.held, j);
      RefsAfterRemove(Ring(s), s.held, k, s.held[j]);
    }
    forall c | 0 <= c < |s'.lock| && Owner(s', c).WriteAlloced? && c < |s'.writePos|
      ensures (c, s'.writePos[c]) in s'.slots
      ensures Refs(Ring(s'), s'.held, s'.slots[(c, s'.writePos[c])]) == 1
    {
      var slot: Slot := (c, s.writePos[c]);
      assert slot in Ring(s);
      PrivateSlot(Ring(s), s.held, slot);
      RefsAfterRemove(Ring(s), s.held, k, s.slots[slot]);
    }
  }

  lemma RefsAfterRemove(ring: map<Slot, NodeId>, held: map<nat, NodeId>, k: nat, n: NodeId)
    requires k in held && held[k] != n
    ensures Refs(ring, held - {k}, n) == Refs(ring, held, n)
  {
    CountRemove(held, k, n);
  }

  // ---- Write of a producer's own node ------------------------------------------------------------------

  /** Replacing a slot's node by one under hold k does not change the references to a third node. */
  lemma RefsAfterSwap(ring: map<Slot, NodeId>, held: map<nat, NodeId>, slot: Slot, k: nat, n: NodeId)
    requires k in held && held[k] != n && (slot in ring ==> ring[slot] != n)
    ensures Refs(ring[slot := held[k]], held - {k}, n) == Refs(ring, held, n)
  {
    CountRemove(held, k, n);
    var rest := ring - {slot};
    assert ring[slot := held[k]] == rest[slot := held[k]];
    CountAdd(rest, slot, held[k], n);
    if slot in ring { CountRemove(ring, slot, n); } else { assert rest == ring; }
  }

  lemma NodeWriteEffect(s: State, t: nat)
    requires Inv(s) && Enabled(s, NodeWriteTfree(t))
    ensures var s', NodeWriteEntered(ch, k) := DoNodeWriteTfree(s, t), s.pcs[t];
            var slot := (ch, s.writePos[ch]);
            && LockInv(s') && (slot in s.slots <==> slot in Ring(s))
            && Ring(s') == Ring(s)[slot := s.held[k]]
            && Published(s, s', ch, s.pool.cells[s.held[k]].data)
  {
    hide RefInv, ContentInv, HandleInv, ExclusiveInv;
    var s', pc := DoNodeWriteTfree(s, t), s.pcs[t];
    LeaveLocks(s, t);
    SwapEffect(s, s', pc.ch, s.held[pc.hold]);
  }

  /** What replacing the next slot's pointer and moving on does to the records. */
  lemma SwapEffect(s: State, s': State, ch: nat, n: NodeId)
    requires ch < |s.writePos| == |s.log| && 0 < s.ringSize && n in s.pool.cells && !Refreshing(Owner(s, ch))
    requires s'.ringSize == s.ringSize && |s'.lock| == |s.lock| && s'.slots == s.slots[(ch, s.writePos[ch]) := n]
    requires s'.writePos == s.writePos[ch := (s.writePos[ch] + 1) % s.ringSize]
    requires s'.log == s.log[ch := s.log[ch] + [s.pool.cells[n].data]]
    requires Owner(s', ch).Idle? && forall c :: c != ch ==> Owner(s', c) == Owner(s, c)
    requires forall m :: m in s.pool.cells ==> m in s'.pool.cells && s'.pool.cells[m].data == s.pool.cells[m].data
    ensures (ch, s.writePos[ch]) in s.slots <==> (ch, s.writePos[ch]) in Ring(s)
    ensures Ring(s') == Ring(s)[(ch, s.writePos[ch]) := n]
    ensures Published(s, s', ch, s.pool.cells[n].data)
  {
    hide Owner;
    var slot := (ch, s.writePos[ch]);
    assert Ring(s') == Ring(s)[slot := n];
  }

  lemma RefsAfterNodeWrite(s: State, t: nat)
    requires Inv(s) && Enabled(s, NodeWriteTfree(t))
    ensures var s' := DoNodeWriteTfree(s, t); RefInv(s'.pool, Ring(s'), s'.held)
  {
    hide RefInv, ContentInv, HandleInv, Refs, Published, Ring, LockInv;
    var s', pc := DoNodeWriteTfree(s, t), s.pcs[t];
    var slot := (pc.ch, s.writePos[pc.ch]);
    var ring := Ring(s) - {slot};
    NodeWriteEffect(s, t);
    PrivateHold(Ring(s), s.held, pc.hold);
    if slot in Ring(s) {
      RingAgrees(s, slot);
      RefTfreeRing(s.pool, Ring(s), s.held, slot);
      CountRemove(Ring(s), slot, s.held[pc.hold]);
    } else {
      assert ring == Ring(s);
    }
    RefPublish(s'.pool, ring, s.held, slot, pc.hold);
    assert ring[slot := s.held[pc.hold]] == Ring(s');
  }

  lemma ExclusiveAfterNodeWrite(s: State, t: nat)
    requires Inv(s) && Enabled(s, NodeWriteTfree(t))
    ensures ExclusiveInv(DoNodeWriteTfree(s, t))
  {
    hide RefInv, ContentInv, HandleInv, Refs, Published, Ring;
    var s', pc := DoNodeWriteTfree(s, t), s.pcs[t];
    var slot := (pc.ch, s.writePos[pc.ch]);
    NodeWriteEffect(s, t);
    LeaveLocks(s, t);
    forall j | j in s'.producing + s'.publishing ensures j in s'.held && Refs(Ring(s'), s'.held, s'.held[j]) == 1 {
      PrivateHold(Ring(s), s.held, j);
      RefsAfterSwap(Ring(s), s.held, slot, pc.hold, s.held[j]);
    }
    forall c | 0 <= c < |s'.lock| && Owner(s', c).WriteAlloced? && c < |s'.writePos|
      ensures (c, s'.writePos[c]) in s'.slots
      ensures Refs(Ring(s'), s'.held, s'.slots[(c, s'.writePos[c])]) == 1
    {
      var other: Slot := (c, s.writePos[c]);
      AllocedInRing(s, c);
      PrivateSlot(Ring(s), s.held, other);
      RefsAfterSwap(Ring(s), s.held, slot, pc.hold, s.slots[other]);
    }
  }

  /** A slot being filled owns its node. */
  lemma AllocedInRing(s: State, c: nat)
    requires c < |s.writePos| && Owner(s, c).WriteAlloced? && (c, s.writePos[c]) in s.slots
    ensures var slot := (c, s.writePos[c]); slot in Ring(s) && Ring(s)[slot] == s.slots[slot]
  {
  }

  lemma ShapeAfterNodeWrite(s: State, t: nat)
    requires Inv(s) && Enabled(s, NodeWriteTfree(t))
    ensures Shape(DoNodeWriteTfree(s, t))
  {
    hide RefInv, ContentInv, HandleInv, Ring, Refs, Owner;
    var s' := DoNodeWriteTfree(s, t);
    forall u | 0 <= u < |s'.pcs| ensures PcOk(s', s'.pcs[u]) {
      assert PcOk(s, s.pcs[u]);
    }
  }

  lemma KeepNodeWrite(s: State, t: nat)
    requires Inv(s) && Enabled(s, NodeWriteTfree(t))
    ensures Inv(DoNodeWriteTfree(s, t))
  {
    hide RefInv, ContentInv, HandleInv, ExclusiveInv, Published, Ring, Owner;
    var s', pc := DoNodeWriteTfree(s, t), s.pcs[t];
    NodeWriteEffect(s, t);
    RefsAfterNodeWrite(s, t);
    ExclusiveAfterNodeWrite(s, t);
    ShapeAfterNodeWrite(s, t);
    PublishedContent(s, s', pc.ch, s.pool.cells[s.held[pc.hold]].data);
    AllMembersFrame(s, s');
    HandlesFrame(s, s');
  }

  // ---- Read -----------------------------------------------------------------------------------------------

  /** The slot of the oldest wanted record holds it, unless a failed Write cleared the oldest slot. */
  lemma WantedRecord(s: State, ch: nat, begin: nat)
    requires Shape(s) && ch < |s.log| && ContentInv(s, ch) && !Refreshing(Owner(s, ch))
    requires begin < |s.log[ch]| && |s.log[ch]| - begin <= s.ringSize
    ensures (ch, begin % s.ringSize) in s.slots ==> Holds(s, (ch, begin % s.ringSize), s.log[ch][begin])
    ensures (ch, begin % s.ringSize) !in s.slots ==> begin + s.ringSize == |s.log[ch]|
  {
    hide Owner;
    if |s.log[ch]| - begin == s.ringSize {
      CyclicTurns(begin, 1, s.ringSize);
    } else {
      assert Holds(s, (ch, begin % s.ringSize), s.log[ch][begin]);
      RingAgrees(s, (ch, begin % s.ringSize));
    }
  }

  /** The record a handle's cursor really stands for at this Read. */
  ghost function Wanted(s: State, hd: Handle): nat
    requires 0 < s.ringSize && hd.channel < |s.log|
  {
    Anchor(hd.begin, hd.end, |s.log[hd.channel]|, s.ringSize)
  }

  /** Every Read of every handle, however late, gets the verdict intended for that record, and on Take its slot
      holds it, unless a failed Write cleared the oldest slot. */
  lemma ReadAnchored(s: State, hd: Handle)
    requires Shape(s) && hd.channel < |s.lock| && ContentInv(s, hd.channel) && !Refreshing(Owner(s, hd.channel))
    requires CursorsOk(s, hd)
    ensures var log, slot, a := s.log[hd.channel], (hd.channel, hd.readBegin), Wanted(s, hd);
            && hd.begin <= a <= |log| && a % s.ringSize == hd.readBegin
            && (|log| - hd.end < s.ringSize <==> a == hd.begin)
            && Decide(hd.readBegin, hd.readEnd, s.writePos[hd.channel]) == Intended(a, |log|, s.ringSize)
            && (Intended(a, |log|, s.ringSize).Take? ==>
                  && a < |log|
                  && (slot in s.slots ==> Holds(s, slot, log[a]))
                  && (slot !in s.slots ==> a + s.ringSize == |log|))
  {
    hide Holds, Owner, Anchor, Decide;
    var a := Wanted(s, hd);
    CursorAtEnd(s, hd.channel);
    AnchorExact(hd.begin, hd.end, |s.log[hd.channel]|, s.ringSize);
    if Intended(a, |s.log[hd.channel]|, s.ringSize).Take? {
      WantedRecord(s, hd.channel, a);
    }
  }

  /** A handle that looks again before N more records were written gets the intended verdict, and on Take the very
      record it wants, whatever happened at earlier Reads. */
  lemma ReadExact(s: State, hd: Handle)
    requires Shape(s) && hd.channel < |s.lock| && ContentInv(s, hd.channel) && !Refreshing(Owner(s, hd.channel))
    requires HandleInv(s, hd) && |s.log[hd.channel]| - hd.end < s.ringSize
    ensures Decide(hd.readBegin, hd.readEnd, s.writePos[hd.channel])
         == Intended(hd.begin, |s.log[hd.channel]|, s.ringSize)
    ensures Decide(hd.readBegin, hd.readEnd, s.writePos[hd.channel]).Take? ==>
              var log, slot := s.log[hd.channel], (hd.channel, hd.readBegin);
              && hd.begin < |log|
              && (slot in s.slots ==> Holds(s, slot, log[hd.begin]))
              && (slot !in s.slots ==> hd.begin + s.ringSize == |log|)
  {
    hide Holds, Owner, ContentInv, Wanted, Decide, InOrder, Complete;
    ReadAnchored(s, hd);
  }

  lemma LoseAdds(lost: map<nat, Loss>, from: nat, to: nat, why: Loss)
    ensures forall a: nat :: a in Lose(lost, from, to, why) <==> a in lost || from <= a < to
    ensures forall a: nat :: a in Lose(lost, from, to, why) ==>
              Lose(lost, from, to, why)[a] == if from <= a < to then why else lost[a]
  {
  }

  lemma NumbersAppend(got: seq<(nat, Bytes)>, a: nat, data: Bytes)
    ensures Numbers(got + [(a, data)]) == Numbers(got) + {a}
  {
    var got' := got + [(a, data)];
    assert got'[|got|].0 == a && forall i :: 0 <= i < |got| ==> got'[i] == got[i];
  }

  lemma InOrderAppend(got: seq<(nat, Bytes)>, log: seq<Bytes>, begin: nat, a: nat)
    requires InOrder(got, log) && (forall x :: x in Numbers(got) ==> x < begin) && begin <= a < |log|
    ensures InOrder(got + [(a, log[a])], log)
  {
    forall i | 0 <= i < |got| ensures got[i].0 < begin {
      assert got[i].0 in Numbers(got);
    }
  }

  /** What Read does to the account of a handle: records before `a` passed unseen, `a` itself was delivered or
      lost, or everything up to `to` was lost. */
  lemma CompleteAfter(hd: Handle, hd': Handle, a: nat, data: Bytes)
    requires Complete(hd) && hd.start <= hd.begin <= a && hd'.start == hd.start
    requires || (hd'.begin == a && hd'.got == hd.got && hd'.lost == Lose(hd.lost, hd.begin, a, Overrun))
             || (hd'.begin == a + 1 && hd'.got == hd.got + [(a, data)]
                 && hd'.lost == Lose(hd.lost, hd.begin, a, Overrun))
             || (a <= hd'.begin && hd'.got == hd.got && exists why ::
                   hd'.lost == Lose(Lose(hd.lost, hd.begin, a, Overrun), a, hd'.begin, why))
    ensures Complete(hd')
  {
    hide Numbers;
    var lost := Lose(hd.lost, hd.begin, a, Overrun);
    LoseAdds(hd.lost, hd.begin, a, Overrun);
    NumbersAppend(hd.got, a, data);
    forall why ensures forall x: nat :: x in Lose(lost, a, hd'.begin, why) <==> x in lost || a <= x < hd'.begin {
      LoseAdds(lost, a, hd'.begin, why);
    }
    hide Lose;
  }

  lemma ReadKeepsCursors(s: State, hd: Handle)
    requires Shape(s) && hd.channel < |s.lock| && ContentInv(s, hd.channel) && !Refreshing(Owner(s, hd.channel))
    requires CursorsOk(s, hd)
    ensures CursorsOk(s, ReadHandle(s, hd)) && ReadHandle(s, hd).channel == hd.channel
    ensures hd.begin <= ReadHandle(s, hd).begin
  {
    hide Owner, ContentInv, Anchor, Lose, Holds;
    ReadAnchored(s, hd);
    CursorAtEnd(s, hd.channel);
    CyclicNext(Wanted(s, hd), s.ringSize);
  }

  lemma ReadKeepsOrder(s: State, hd: Handle)
    requires Shape(s) && hd.channel < |s.lock| && ContentInv(s, hd.channel) && !Refreshing(Owner(s, hd.channel))
    requires HandleInv(s, hd)
    ensures InOrder(ReadHandle(s, hd).got, s.log[hd.channel])
  {
    hide Owner, Ring, ContentInv, Anchor, Lose, Numbers;
    var a, log := Wanted(s, hd), s.log[hd.channel];
    ReadAnchored(s, hd);
    var slot: Slot := (hd.channel, hd.readBegin);
    if a < |log| && Holds(s, slot, log[a]) {
      RingAgrees(s, slot);
      InOrderAppend(hd.got, log, hd.begin, a);
    }
    hide InOrder;
  }

  lemma ReadKeepsAccount(s: State, hd: Handle)
    requires Shape(s) && hd.channel < |s.lock| && ContentInv(s, hd.channel) && !Refreshing(Owner(s, hd.channel))
    requires HandleInv(s, hd)
    ensures Complete(ReadHandle(s, hd))
  {
    hide Owner, Ring, ContentInv, Anchor, Lose, Numbers, InOrder, Complete, Holds;
    var hd', a, log := ReadHandle(s, hd), Wanted(s, hd), s.log[hd.channel];
    ReadAnchored(s, hd);
    var slot: Slot := (hd.channel, hd.readBegin);
    var data := if slot in s.slots && s.slots[slot] in s.pool.cells then s.pool.cells[s.slots[slot]].data else [];
    CompleteAfter(hd, hd', a, data);
  }

  lemma ReadKeepsHandle(s: State, hd: Handle)
    requires Shape(s) && hd.channel < |s.lock| && ContentInv(s, hd.channel) && !Refreshing(Owner(s, hd.channel))
    requires HandleInv(s, hd)
    ensures HandleInv(s, ReadHandle(s, hd))
  {
    hide Owner, Ring, ContentInv, InOrder, Complete, CursorsOk;
    ReadKeepsCursors(s, hd);
    ReadKeepsOrder(s, hd);
    ReadKeepsAccount(s, hd);
    ReadKeepsStart(s, hd);
    hide ReadHandle;
  }

  lemma ReadKeepsStart(s: State, hd: Handle)
    requires 0 < s.ringSize && hd.channel < |s.writePos| == |s.log|
    ensures ReadHandle(s, hd).start == hd.start
  {
    hide Anchor, Lose;
  }

  lemma CursorAtEnd(s: State, ch: nat)
    requires ch < |s.writePos| == |s.log| && 0 < s.ringSize && ContentInv(s, ch)
    ensures s.writePos[ch] == |s.log[ch]| % s.ringSize
  {
  }

  /** Read leaves every slot, cursor and payload alone; a delivered node only gains a user. */
  lemma EndReadEffect(s: State, t: nat, k: nat)
    requires Inv(s) && Enabled(s, EndRead(t, k))
    ensures var s', pc := DoEndRead(s, t, k), s.pcs[t];
            && LockInv(s') && SameRecords(s, s') && s'.slots == s.slots && Ring(s') == Ring(s)
            && pc.ch == s.handles[pc.handle].channel
            && !Refreshing(Owner(s, pc.ch))
            && (forall c :: Refreshing(Owner(s', c)) == Refreshing(Owner(s, c)))
            && (forall slot, d :: Holds(s, slot, d) ==> Holds(s', slot, d))
  {
    hide RefInv, ContentInv, HandleInv, ExclusiveInv, ReadHandle, Ring, Holds;
    var s', pc := DoEndRead(s, t, k), s.pcs[t];
    LeaveLocks(s, t);
    assert PcOk(s, pc);
    RingSame(s, s');
    PayloadsKept(s, s');
  }

  lemma PayloadsKept(s: State, s': State)
    requires Ring(s') == Ring(s)
    requires forall n :: n in s.pool.cells ==> n in s'.pool.cells && s'.pool.cells[n].data == s.pool.cells[n].data
    ensures forall slot, d :: Holds(s, slot, d) ==> Holds(s', slot, d)
  {
    hide Ring;
  }

  lemma RefsAfterAdd(ring: map<Slot, NodeId>, held: map<nat, NodeId>, k: nat, x: NodeId, n: NodeId)
    requires k !in held && x != n
    ensures Refs(ring, held[k := x], n) == Refs(ring, held, n)
  {
    CountAdd(held, k, x, n);
  }

  /** A node that gains a holder had other references; nodes private to a producer keep theirs. */
  lemma PrivateAfterAdd(s: State, slot: Slot, k: nat, j: nat)
    requires slot in Ring(s) && k !in s.held && j in s.held && Refs(Ring(s), s.held, s.held[j]) == 1
    ensures Refs(Ring(s), s.held[k := Ring(s)[slot]], s.held[j]) == 1
  {
    hide Ring, Refs;
    PrivateHold(Ring(s), s.held, j);
    RefsAfterAdd(Ring(s), s.held, k, Ring(s)[slot], s.held[j]);
  }

  lemma AllocedAfterAdd(s: State, slot: Slot, k: nat, c: nat)
    requires slot in Ring(s) && k !in s.held && c < |s.writePos| && Owner(s, c).WriteAlloced? && slot.0 != c
    requires (c, s.writePos[c]) in s.slots && Refs(Ring(s), s.held, s.slots[(c, s.writePos[c])]) == 1
    ensures Refs(Ring(s), s.held[k := Ring(s)[slot]], s.slots[(c, s.writePos[c])]) == 1
  {
    var other: Slot := (c, s.writePos[c]);
    AllocedInRing(s, c);
    hide Ring, Refs, Owner;
    PrivateSlot(Ring(s), s.held, other);
    RefsAfterAdd(Ring(s), s.held, k, Ring(s)[slot], s.slots[other]);
  }

  lemma ExclusiveAfterRead(s: State, t: nat, k: nat)
    requires Inv(s) && Enabled(s, EndRead(t, k))
    ensures ExclusiveInv(DoEndRead(s, t, k))
  {
    hide RefInv, ContentInv, HandleInv, Refs, ReadHandle, Holds, Ring;
    var s', pc := DoEndRead(s, t, k), s.pcs[t];
    EndReadEffect(s, t, k);
    LeaveLocks(s, t);
    var hd := s.handles[pc.handle];
    if Delivers(s, hd) {
      var slot: Slot := (hd.channel, hd.readBegin);
      ReadSlotInRing(s, slot);
      forall j | j in s'.producing + s'.publishing ensures j in s'.held && Refs(Ring(s'), s'.held, s'.held[j]) == 1 {
        PrivateAfterAdd(s, slot, k, j);
      }
      forall c | 0 <= c < |s'.lock| && Owner(s', c).WriteAlloced? && c < |s'.writePos|
        ensures (c, s'.writePos[c]) in s'.slots
        ensures Refs(Ring(s'), s'.held, s'.slots[(c, s'.writePos[c])]) == 1
      {
        AllocedAfterAdd(s, slot, k, c);
      }
    }
  }

  lemma ShapeAfterRead(s: State, t: nat, k: nat)
    requires Inv(s) && Enabled(s, EndRead(t, k))
    ensures Shape(DoEndRead(s, t, k))
  {
    hide RefInv, ContentInv, HandleInv, Ring, Refs, Owner, ExclusiveInv, LockInv;
    var s', h := DoEndRead(s, t, k), s.pcs[t].handle;
    assert PcOk(s, s.pcs[t]);
    ReadHandleChannel(s, s.handles[h]);
    hide ReadHandle;
    ShapeKept(s, s');
  }

  lemma ReadHandleChannel(s: State, hd: Handle)
    requires 0 < s.ringSize && hd.channel < |s.writePos| == |s.log|
    ensures ReadHandle(s, hd).channel == hd.channel
  {
  }

  /** Leaving a section, moving a handle's cursors, more users and more holders keep the shape. */
  lemma ShapeKept(s: State, s': State)
    requires Shape(s)
    requires s'.ringSize == s.ringSize && s'.slots == s.slots && s'.writePos == s.writePos && s'.log == s.log
    requires |s'.lock| == |s.lock| && |s'.pcs| == |s.pcs| && |s'.handles| == |s.handles|
    requires forall u :: 0 <= u < |s.pcs| ==> s'.pcs[u] == s.pcs[u] || s'.pcs[u].Idle?
    requires forall h :: 0 <= h < |s.handles| ==> s'.handles[h].channel == s.handles[h].channel
    requires |s'.pool.free| == |s.pool.free| && s'.pool.cells.Keys == s.pool.cells.Keys
    requires forall n :: n in s.pool.cells ==> s'.pool.cells[n].channel == s.pool.cells[n].channel
    requires forall j :: j in s.held ==> j in s'.held
    requires forall j :: j in s'.held ==> s'.held[j] in s.pool.cells
    ensures Shape(s')
  {
    forall u | 0 <= u < |s'.pcs| ensures PcOk(s', s'.pcs[u]) {
      assert PcOk(s, s.pcs[u]);
    }
    hide PcOk;
  }

  lemma KeepEndRead(s: State, t: nat, k: nat)
    requires Inv(s) && Enabled(s, EndRead(t, k))
    ensures Inv(DoEndRead(s, t, k))
  {
    hide RefInv, ContentInv, ExclusiveInv, Owner, HandleInv, Holds, LockInv;
    var s', pc := DoEndRead(s, t, k), s.pcs[t];
    EndReadEffect(s, t, k);
    ExclusiveAfterRead(s, t, k);
    ShapeAfterRead(s, t, k);
    var hd := s.handles[pc.handle];
    if Delivers(s, hd) {
      var slot: Slot := (hd.channel, hd.readBegin);
      assert slot in Ring(s) by { ReadSlotInRing(s, slot); }
      RefTcopy(s.pool, Ring(s), s.held, slot, k);
    }
    AllContentsFrame(s, s');
    AllMembersFrame(s, s');
    assert ContentInv(s, hd.channel) && HandleInv(s, hd);
    ReadKeepsHandle(s, hd);
    HandlesAfterRead(s, s', pc.handle);
  }

  lemma ReadSlotInRing(s: State, slot: Slot)
    requires slot in s.slots && !Refreshing(Owner(s, slot.0))
    ensures slot in Ring(s) && Ring(s)[slot] == s.slots[slot]
  {
  }

  lemma HandlesAfterRead(s: State, s': State, h: nat)
    requires 0 < s.ringSize && |s.log| == |s.lock|
    requires forall i :: 0 <= i < |s.handles| ==> HandleInv(s, s.handles[i])
    requires h < |s.handles| == |s'.handles| && SameRecords(s, s') && s'.handles == s.handles[h := s'.handles[h]]
    requires HandleInv(s, s'.handles[h])
    ensures forall i :: 0 <= i < |s'.handles| ==> HandleInv(s', s'.handles[i])
  {
    forall i | 0 <= i < |s'.handles| ensures HandleInv(s', s'.handles[i]) {
      assert i != h ==> HandleInv(s, s.handles[i]);
    }
  }

  // ---- The theorems -----------------------------------------------------------------------------------------

  /** Every step of every thread keeps the invariant. */
  lemma StepKeepsInv(s: State, e: Event)
    requires Inv(s) && Enabled(s, e)
    ensures Inv(Step(s, e))
  {
    hide Inv, Enabled;
    match e
    case BeginWrite(t, ch, data) => KeepBeginWrite(s, t, ch, data);
    case WriteTfree(t) => KeepWriteTfree(s, t);
    case WriteTalloc(t) => KeepWriteTalloc(s, t);
    case WriteFill(t) => KeepWriteFill(s, t);
    case TallocNode(k, ch) => KeepTallocNode(s, k, ch);
    case FillNode(k, data) => KeepFillNode(s, k, data);
    case BeginNodeWrite(t, ch, k) => KeepBeginNodeWrite(s, t, ch, k);
    case NodeWriteTfree(t) => KeepNodeWrite(s, t);
    case Open(ch) => KeepOpen(s, ch);
    case BeginRead(t, h) => KeepBeginRead(s, t, h);
    case EndRead(t, k) => KeepEndRead(s, t, k);
    case TfreeHeld(k) => KeepTfreeHeld(s, k);
  }

  lemma {:induction false} RunKeepsInv(s: State, es: seq<Event>)
    requires Inv(s) && Runs(s, es)
    ensures Inv(Exec(s, es))
    decreases |es|
  {
    hide Inv, Enabled, Step;
    if es != [] {
      StepKeepsInv(s, es[0]);
      RunKeepsInv(Step(s, es[0]), es[1..]);
    }
  }
}
