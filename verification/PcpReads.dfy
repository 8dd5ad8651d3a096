/**
 * What one Read does to its handle and to its caller, in record numbers, what a write means for the next Read, and a
 * record on its whole way from a producer to a reader and back to the pool.
 */
module PcpReads {
  import opened Common
  import opened PcpCursor
  import opened PcpPool
  import opened PcpProtocol
  import opened PcpInvariant
  import opened PcpTheorems

  /** The handle a reading thread works on. */
  ghost function HandleOf(s: State, t: nat): Handle
    requires Shape(s) && t < |s.pcs| && s.pcs[t].ReadEntered?
  {
    assert PcOk(s, s.pcs[t]);
    s.handles[s.pcs[t].handle]
  }

  /** The step of Read, with its handle and the caller's references taken apart. */
  lemma ReadStep(s: State, t: nat, k: nat)
    requires Inv(s) && Enabled(s, EndRead(t, k))
    ensures var s', h, hd := Step(s, EndRead(t, k)), s.pcs[t].handle, HandleOf(s, t);
            && hd.channel < |s.log| == |s.lock| == |s.writePos| && h < |s.handles|
            && ContentInv(s, hd.channel) && !Refreshing(Owner(s, hd.channel)) && CursorsOk(s, hd)
            && s'.handles == s.handles[h := ReadHandle(s, hd)] && s'.log == s.log && s'.writePos == s.writePos
            && s'.held == (if Delivers(s, hd) then s.held[k := s.slots[(hd.channel, hd.readBegin)]] else s.held)
            && forall n :: n in s.pool.cells ==> n in s'.pool.cells && s'.pool.cells[n].data == s.pool.cells[n].data
  {
    hide RefInv, ContentInv, HandleInv, ExclusiveInv, LockInv, ReadHandle, Ring, Holds, Owner, Delivers;
    EndReadEffect(s, t, k);
    var hd := HandleOf(s, t);
    assert ContentInv(s, hd.channel) && HandleInv(s, hd);
    HandleCursors(s, hd);
  }

  /** The handle after a Read that finds its record in the ring. */
  lemma HandleAfterTake(s: State, hd: Handle, data: Bytes)
    requires 0 < s.ringSize && hd.channel < |s.writePos| == |s.log|
    requires Decide(hd.readBegin, hd.readEnd, s.writePos[hd.channel]).Take?
    requires Holds(s, (hd.channel, hd.readBegin), data)
    ensures Delivers(s, hd)
    ensures var hd', w := ReadHandle(s, hd), Wanted(s, hd);
            && hd'.got == hd.got + [(w, data)] && hd'.begin == w + 1 && hd'.end == |s.log[hd.channel]|
            && hd'.readBegin == (hd.readBegin + 1) % s.ringSize && hd'.readEnd == s.writePos[hd.channel]
  {
    hide Anchor, Decide, Lose, Ring;
    RingAgrees(s, (hd.channel, hd.readBegin));
  }

  /** A record in the ring is what the caller gets, and the only thing; the cursors move to the record after it. */
  lemma ReadTakes(s: State, t: nat, k: nat)
    requires Inv(s) && Enabled(s, EndRead(t, k))
    requires var hd := HandleOf(s, t);
             hd.channel < |s.log| && var w, written := Wanted(s, hd), |s.log[hd.channel]|;
             w < written <= w + s.ringSize && (hd.channel, w % s.ringSize) in s.slots
    ensures var s', hd := Step(s, EndRead(t, k)), HandleOf(s, t);
            var hd', log, w := s'.handles[s.pcs[t].handle], s.log[hd.channel], Wanted(s, hd);
            && s'.held == s.held[k := s.slots[(hd.channel, w % s.ringSize)]]
            && s'.held[k] in s'.pool.cells && s'.pool.cells[s'.held[k]].data == log[w]
            && hd'.got == hd.got + [(w, log[w])] && hd'.begin == w + 1 && hd'.end == |log|
            && hd'.readBegin == (w + 1) % s.ringSize && hd'.readEnd == s.writePos[hd.channel]
  {
    hide Shape, LockInv, RefInv, ExclusiveInv, ContentInv, HandleInv, Members, Step, Owner, Wanted, Holds, Ring, Decide,
         ReadHandle, Delivers;
    ReadStep(s, t, k);
    var hd := HandleOf(s, t);
    var w, log, slot: Slot := Wanted(s, hd), s.log[hd.channel], (hd.channel, hd.readBegin);
    ReadAnchored(s, hd);
    HandleAfterTake(s, hd, log[w]);
    ReadSlotInRing(s, slot);
    HeldData(s, slot, log[w]);
    CyclicNext(w, s.ringSize);
  }

  /** A slot that a failed Write cleared: the caller gets nothing and only that record is passed over. */
  lemma ReadPassesCleared(s: State, t: nat, k: nat)
    requires Inv(s) && Enabled(s, EndRead(t, k))
    requires var hd := HandleOf(s, t);
             hd.channel < |s.log| && var w, written := Wanted(s, hd), |s.log[hd.channel]|;
             w < written <= w + s.ringSize && (hd.channel, w % s.ringSize) !in s.slots
    ensures var s', hd := Step(s, EndRead(t, k)), HandleOf(s, t);
            var hd', w := s'.handles[s.pcs[t].handle], Wanted(s, hd);
            && s'.held == s.held && hd'.got == hd.got && hd'.begin == w + 1 && hd'.end == |s.log[hd.channel]|
            && w in hd'.lost && hd'.lost[w].Cleared?
            && hd'.readBegin == (w + 1) % s.ringSize && hd'.readEnd == s.writePos[hd.channel]
  {
    hide Shape, LockInv, RefInv, ExclusiveInv, ContentInv, HandleInv, Members, Step, Owner, Wanted, Holds, Ring, Decide,
         ReadHandle;
    ReadStep(s, t, k);
    var hd := HandleOf(s, t);
    ReadAnchored(s, hd);
    HandleAfterCleared(s, hd);
    CyclicNext(Wanted(s, hd), s.ringSize);
  }

  lemma HandleAfterCleared(s: State, hd: Handle)
    requires 0 < s.ringSize && hd.channel < |s.writePos| == |s.log|
    requires Decide(hd.readBegin, hd.readEnd, s.writePos[hd.channel]).Take?
    requires (hd.channel, hd.readBegin) !in s.slots
    ensures var hd', w := ReadHandle(s, hd), Wanted(s, hd);
            && hd'.got == hd.got && hd'.begin == w + 1 && hd'.end == |s.log[hd.channel]|
            && w in hd'.lost && hd'.lost[w].Cleared?
            && hd'.readBegin == (hd.readBegin + 1) % s.ringSize && hd'.readEnd == s.writePos[hd.channel]
  {
    hide Anchor, Decide, Lose;
    var w := Wanted(s, hd);
    LoseAdds(Lose(hd.lost, hd.begin, w, Overrun), w, w + 1, Cleared);
  }

  lemma HandleAfterResync(s: State, hd: Handle)
    requires 0 < s.ringSize && hd.channel < |s.writePos| == |s.log|
    requires Decide(hd.readBegin, hd.readEnd, s.writePos[hd.channel]).Resync?
    ensures var hd', w, wp, written := ReadHandle(s, hd), Wanted(s, hd), s.writePos[hd.channel], |s.log[hd.channel]|;
            && hd'.got == hd.got && hd'.begin == hd'.end == written && hd'.readBegin == hd'.readEnd == wp
            && forall a :: w <= a < written ==> a in hd'.lost && hd'.lost[a].Resynced?
  {
    hide Anchor, Decide, Lose;
    var w := Wanted(s, hd);
    LoseAdds(Lose(hd.lost, hd.begin, w, Overrun), w, |s.log[hd.channel]|, Resynced);
  }

  /** A reader more than a turn behind starts afresh: both cursors go to the write position, the caller gets nothing,
      and every record that was still unread is listed as lost to this. */
  lemma ResyncExact(s: State, t: nat, k: nat)
    requires Inv(s) && Enabled(s, EndRead(t, k))
    requires var hd := HandleOf(s, t);
             hd.channel < |s.log| && |s.log[hd.channel]| - Wanted(s, hd) > s.ringSize
    ensures var s', hd := Step(s, EndRead(t, k)), HandleOf(s, t);
            var hd', log := s'.handles[s.pcs[t].handle], s.log[hd.channel];
            && hd'.begin == hd'.end == |log| && hd'.readBegin == hd'.readEnd == s'.writePos[hd.channel]
            && hd'.got == hd.got && s'.held == s.held && s'.log == s.log
            && forall a :: Wanted(s, hd) <= a < |log| ==> a in hd'.lost && hd'.lost[a].Resynced?
  {
    hide Shape, LockInv, RefInv, ExclusiveInv, ContentInv, HandleInv, Members, Step, Owner, Wanted, Holds, Ring, Decide,
         ReadHandle;
    ReadStep(s, t, k);
    ReadAnchored(s, HandleOf(s, t));
    HandleAfterResync(s, HandleOf(s, t));
  }

  // ---- A reader that is up to date ---------------------------------------------------------------------------

  /** Nothing was written since the handle was last moved up to the end. */
  ghost predicate UpToDate(s: State, h: nat) {
    h < |s.handles| && var hd := s.handles[h];
    hd.channel < |s.log| && hd.begin == hd.end == |s.log[hd.channel]|
  }

  lemma HandleAfterNothing(s: State, hd: Handle)
    requires 0 < s.ringSize && hd.channel < |s.writePos| == |s.log| && CursorsOk(s, hd)
    requires hd.begin == hd.end == |s.log[hd.channel]| && s.writePos[hd.channel] == |s.log[hd.channel]| % s.ringSize
    ensures ReadHandle(s, hd) == hd && !Delivers(s, hd)
  {
    hide Lose;
    assert Lose(hd.lost, hd.begin, hd.begin, Overrun) == hd.lost by { LoseNothing(hd.lost, hd.begin); }
  }

  lemma LoseNothing(lost: map<nat, Loss>, a: nat)
    ensures Lose(lost, a, a, Overrun) == lost
  {
  }

  lemma RingSizePositive(s: State)
    requires Shape(s)
    ensures 0 < s.ringSize
  {
  }

  /** An up-to-date reader gets nothing, and its handle stays as it is. */
  lemma UpToDateReadsNothing(s: State, t: nat, k: nat)
    requires Inv(s) && Enabled(s, EndRead(t, k)) && UpToDate(s, s.pcs[t].handle)
    ensures var s' := Step(s, EndRead(t, k)); s'.held == s.held && s'.handles == s.handles
  {
    hide Shape, LockInv, RefInv, ExclusiveInv, ContentInv, HandleInv, Members, Step, Owner, ReadHandle, Delivers,
         CursorsOk;
    ReadStep(s, t, k);
    assert 0 < s.ringSize by { RingSizePositive(s); }
    CursorAtEnd(s, HandleOf(s, t).channel);
    HandleAfterNothing(s, HandleOf(s, t));
  }

  /** A new handle is up to date at the write position, so a Read before the next write gives nothing. */
  lemma OpenExact(s: State, ch: nat)
    requires Inv(s) && Enabled(s, Open(ch))
    ensures var s', h := Step(s, Open(ch)), |s.handles|;
            && s'.handles[..h] == s.handles && |s'.handles| == h + 1 && UpToDate(s', h)
            && s'.handles[h].channel == ch && s'.handles[h].readBegin == s'.handles[h].readEnd == s.writePos[ch]
            && s'.handles[h].got == [] && s'.handles[h].lost == map[] && s'.handles[h].start == |s.log[ch]|
  {
    hide LockInv, RefInv, ExclusiveInv, ContentInv, HandleInv, Members;
  }

  /** Handles keep their channel, and logs only grow. */
  lemma StepGrows(s: State, e: Event, h: nat, ch: nat)
    requires Inv(s) && Enabled(s, e) && h < |s.handles| && ch < |s.log|
    ensures var s' := Step(s, e);
            && h < |s'.handles| && s'.handles[h].channel == s.handles[h].channel
            && ch < |s'.log| && s.log[ch] <= s'.log[ch]
  {
    hide LockInv, RefInv, ExclusiveInv, ContentInv, HandleInv, Members, ReadHandle, Delivers, Release, Ring;
    match e
    case EndRead(t, k) =>
      hide DoEndRead;
      ReadStep(s, t, k);
      ReadHandleChannel(s, HandleOf(s, t));
    case _ =>
  }

  lemma {:induction false} RunGrows(s: State, es: seq<Event>, h: nat, ch: nat)
    requires Inv(s) && Runs(s, es) && h < |s.handles| && ch < |s.log|
    ensures var s' := Exec(s, es);
            && h < |s'.handles| && s'.handles[h].channel == s.handles[h].channel
            && ch < |s'.log| && s.log[ch] <= s'.log[ch]
    decreases |es|
  {
    hide Inv, Enabled, Step;
    if es != [] {
      StepKeepsInv(s, es[0]);
      StepGrows(s, es[0], h, ch);
      RunGrows(Step(s, es[0]), es[1..], h, ch);
    }
  }

  lemma StepWhileUpToDate(s: State, e: Event, h: nat)
    requires Inv(s) && Enabled(s, e) && UpToDate(s, h)
    requires h < |Step(s, e).handles|
    requires var ch := s.handles[h].channel; ch < |Step(s, e).log| && |Step(s, e).log[ch]| == |s.log[ch]|
    ensures Step(s, e).handles[h] == s.handles[h]
  {
    hide LockInv, RefInv, ExclusiveInv, ContentInv, HandleInv, Members, ReadHandle, Delivers, Release, Ring;
    match e
    case EndRead(t, k) =>
      hide DoEndRead;
      ReadStep(s, t, k);
      if s.pcs[t].handle == h { UpToDateReadsNothing(s, t, k); }
    case _ =>
  }

  /** Whatever else happens: until a record is written to its channel, an up-to-date reader receives nothing and its
      handle does not move. */
  lemma {:induction false} NothingUntilWritten(s: State, es: seq<Event>, h: nat)
    requires Inv(s) && Runs(s, es) && UpToDate(s, h)
    ensures var s', ch := Exec(s, es), s.handles[h].channel;
            && h < |s'.handles| && ch < |s'.log| && s.log[ch] <= s'.log[ch]
            && (s'.log[ch] == s.log[ch] ==> s'.handles[h] == s.handles[h])
    decreases |es|
  {
    hide Inv, Enabled, Step;
    var ch := s.handles[h].channel;
    RunGrows(s, es, h, ch);
    if es != [] && Exec(s, es).log[ch] == s.log[ch] {
      var s1 := Step(s, es[0]);
      StepKeepsInv(s, es[0]);
      StepGrows(s, es[0], h, ch);
      RunGrows(s1, es[1..], h, ch);
      StepWhileUpToDate(s, es[0], h);
      NothingUntilWritten(s1, es[1..], h);
    }
  }

  /** The state after a resynchronising Read is up to date: until the next write every Read of that handle gives
      nothing. */
  lemma NothingAfterResync(s: State, t: nat, k: nat, es: seq<Event>)
    requires Inv(s) && Enabled(s, EndRead(t, k)) && Runs(Step(s, EndRead(t, k)), es)
    requires var hd := HandleOf(s, t);
             hd.channel < |s.log| && |s.log[hd.channel]| - Wanted(s, hd) > s.ringSize
    ensures var s', h, hd := Exec(Step(s, EndRead(t, k)), es), s.pcs[t].handle, HandleOf(s, t);
            && h < |s'.handles| && hd.channel < |s'.log|
            && (s'.log[hd.channel] == s.log[hd.channel] ==> UpToDate(s', h) && s'.handles[h].got == hd.got)
  {
    hide Shape, LockInv, RefInv, ExclusiveInv, ContentInv, HandleInv, Members, Step, Owner, Wanted, ReadHandle, Runs,
         Exec;
    ReadStep(s, t, k);
    ReadHandleChannel(s, HandleOf(s, t));
    ResyncExact(s, t, k);
    StepKeepsInv(s, EndRead(t, k));
    NothingUntilWritten(Step(s, EndRead(t, k)), es, s.pcs[t].handle);
  }

  // ---- A write and the next Read ------------------------------------------------------------------------------

  /** The step of Write(node) has the effect that it has in the heap class. */
  lemma StepIsNodeWrite(s: State, t: nat)
    requires Inv(s) && Enabled(s, NodeWriteTfree(t))
    ensures var s', NodeWriteEntered(ch, k) := Step(s, NodeWriteTfree(t)), s.pcs[t];
            PcpPool.NodeWriteEffect(s.pool, s.slots, s.writePos[ch], ch, s.held[k], s.ringSize,
                                    s'.pool, s'.slots, s'.writePos[ch])
  {
    hide RefInv, ContentInv, HandleInv, ExclusiveInv, LockInv, Members, Ring;
    assert PcOk(s, s.pcs[t]);
  }

  /** Write(node): the cursor moves on by one, the old slot holds the producer's node, its payload is the newest
      record, and the producer's reference is used up. */
  lemma NodeWriteExact(s: State, t: nat)
    requires Inv(s) && Enabled(s, NodeWriteTfree(t))
    ensures var s', NodeWriteEntered(ch, k) := Step(s, NodeWriteTfree(t)), s.pcs[t];
            var n, wp := s.held[k], s.writePos[ch];
            && s'.writePos == s.writePos[ch := (wp + 1) % s.ringSize] && s'.slots == s.slots[(ch, wp) := n]
            && s'.log == s.log[ch := s.log[ch] + [s.pool.cells[n].data]]
            && s'.held == s.held - {k} && s'.handles == s.handles
            && n in s'.pool.cells && s'.pool.cells[n].data == s.pool.cells[n].data
            && s'.pcs == s.pcs[t := Idle] && s'.lock == s.lock[ch := None] && s'.ringSize == s.ringSize
  {
    hide RefInv, ContentInv, HandleInv, ExclusiveInv, LockInv, Members, Ring;
    assert PcOk(s, s.pcs[t]);
  }

  /** Thread t's next Read through handle h hands out, as reference k, the node `n` with record number `a`. */
  ghost predicate NextReadGives(s: State, t: nat, h: nat, k: nat, n: NodeId, a: nat, data: Bytes) {
    Shape(s) && Enabled(s, BeginRead(t, h)) &&
    var s1 := Step(s, BeginRead(t, h));
    Shape(s1) && Enabled(s1, EndRead(t, k)) &&
    var s2 := Step(s1, EndRead(t, k));
    && s2.held == s.held[k := n] && n in s2.pool.cells && s2.pool.cells[n].data == data
    && h < |s2.handles| && h < |s.handles| && s2.handles[h].got == s.handles[h].got + [(a, data)]
  }

  lemma HandleAfterEmpty(s: State, hd: Handle)
    requires 0 < s.ringSize && hd.channel < |s.writePos| == |s.log|
    requires Decide(hd.readBegin, hd.readEnd, s.writePos[hd.channel]).Empty?
    ensures ReadHandle(s, hd).got == hd.got && !Delivers(s, hd)
  {
    hide Anchor, Decide, Lose;
  }

  /** When only whole turns were missed, Read gives nothing. */
  lemma ReadFindsNothing(s: State, t: nat, k: nat)
    requires Inv(s) && Enabled(s, EndRead(t, k))
    requires var hd := HandleOf(s, t); hd.channel < |s.log| && Wanted(s, hd) == |s.log[hd.channel]|
    ensures var s' := Step(s, EndRead(t, k));
            s'.held == s.held && s'.handles[s.pcs[t].handle].got == HandleOf(s, t).got
  {
    hide Shape, LockInv, RefInv, ExclusiveInv, ContentInv, HandleInv, Members, Step, Owner, Wanted, Holds, Ring, Decide,
         ReadHandle, Delivers;
    ReadStep(s, t, k);
    ReadAnchored(s, HandleOf(s, t));
    HandleAfterEmpty(s, HandleOf(s, t));
  }

  /** Everything was read before the newest record. */
  ghost predicate OneBehind(s: State, h: nat) {
    h < |s.handles| && var hd := s.handles[h];
    hd.channel < |s.log| && hd.begin == hd.end && hd.end + 1 == |s.log[hd.channel]|
  }

  lemma WantedOneBehind(s: State, hd: Handle)
    requires 0 < s.ringSize && hd.channel < |s.log| && hd.begin == hd.end && hd.end + 1 == |s.log[hd.channel]|
    ensures Wanted(s, hd) == if s.ringSize >= 2 then hd.begin else hd.begin + 1
  {
    DivModUnique(1, s.ringSize, if s.ringSize >= 2 then 0 else 1, if s.ringSize >= 2 then 1 else 0);
  }

  lemma OneBehindReads(s: State, t: nat, k: nat, n: NodeId)
    requires Inv(s) && Enabled(s, EndRead(t, k)) && OneBehind(s, s.pcs[t].handle)
    requires var hd := HandleOf(s, t); (hd.channel, hd.begin % s.ringSize) in s.slots
                                       && s.slots[(hd.channel, hd.begin % s.ringSize)] == n
    ensures var s', hd, h := Step(s, EndRead(t, k)), HandleOf(s, t), s.pcs[t].handle;
            h < |s'.handles| &&
            if s.ringSize >= 2 then
              && s'.held == s.held[k := n] && n in s'.pool.cells
              && s'.pool.cells[n].data == s.log[hd.channel][hd.begin]
              && s'.handles[h].got == hd.got + [(hd.begin, s.log[hd.channel][hd.begin])]
            else s'.handles[h].got == hd.got
  {
    hide LockInv, RefInv, ExclusiveInv, ContentInv, HandleInv, Members, Step, Wanted;
    WantedOneBehind(s, HandleOf(s, t));
    ReadStep(s, t, k);
    if s.ringSize >= 2 { ReadTakes(s, t, k); } else { ReadFindsNothing(s, t, k); }
  }

  lemma EnterToRead(s: State, t: nat, h: nat)
    requires Inv(s) && Enabled(s, BeginRead(t, h))
    ensures var s1 := Step(s, BeginRead(t, h));
            && t < |s1.pcs| && s1.pcs[t] == ReadEntered(s.handles[h].channel, h) && s1.handles == s.handles
            && s1.ringSize == s.ringSize && s1.log == s.log && s1.slots == s.slots && s1.held == s.held
  {
    hide LockInv, RefInv, ExclusiveInv, ContentInv, HandleInv, Members;
  }

  /** A reader that had read everything when one record was written takes exactly that record at its next Read, if
      and only if the ring has more than one slot: with one slot a whole turn has passed. */
  lemma NewestRecordRead(s: State, t: nat, h: nat, k: nat, n: NodeId)
    requires Inv(s) && Enabled(s, BeginRead(t, h)) && k !in s.held && OneBehind(s, h)
    requires var hd := s.handles[h]; (hd.channel, hd.begin % s.ringSize) in s.slots
                                     && s.slots[(hd.channel, hd.begin % s.ringSize)] == n
    ensures var hd := s.handles[h];
            NextReadGives(s, t, h, k, n, hd.begin, s.log[hd.channel][hd.begin]) <==> s.ringSize >= 2
  {
    hide LockInv, RefInv, ExclusiveInv, ContentInv, HandleInv, Members, Step;
    EnterToRead(s, t, h);
    StepKeepsInv(s, BeginRead(t, h));
    OneBehindReads(Step(s, BeginRead(t, h)), t, k, n);
  }

  /** An up-to-date reader takes exactly the node just published at its next Read, if and only if N is at least 2. */
  lemma NodeWriteThenRead(s: State, t: nat, h: nat, k: nat)
    requires Inv(s) && Enabled(s, NodeWriteTfree(t)) && UpToDate(s, h) && s.handles[h].channel == s.pcs[t].ch
    requires k !in s.held
    ensures var n, hd := s.held[s.pcs[t].hold], s.handles[h];
            NextReadGives(Step(s, NodeWriteTfree(t)), t, h, k, n, hd.begin, s.pool.cells[n].data)
            <==> s.ringSize >= 2
  {
    hide LockInv, RefInv, ExclusiveInv, ContentInv, HandleInv, Members, Step, NextReadGives;
    NodeWriteExact(s, t);
    WritePosition(s, s.pcs[t].ch);
    StepKeepsInv(s, NodeWriteTfree(t));
    NewestRecordRead(Step(s, NodeWriteTfree(t)), t, h, k, s.held[s.pcs[t].hold]);
  }

  lemma WritePosition(s: State, ch: nat)
    requires Inv(s) && ch < |s.log|
    ensures |s.writePos| == |s.log| && s.writePos[ch] == |s.log[ch]| % s.ringSize
  {
    hide LockInv, RefInv, ExclusiveInv, HandleInv, Members;
    assert ContentInv(s, ch);
  }

  /** The last step of Write(pieces): the fresh node carries the record, which is the newest, and the cursor moves. */
  lemma WriteExact(s: State, t: nat)
    requires Inv(s) && Enabled(s, WriteFill(t))
    ensures var s', WriteAlloced(ch, data) := Step(s, WriteFill(t)), s.pcs[t];
            var wp := s.writePos[ch];
            && (ch, wp) in s.slots && var n := s.slots[(ch, wp)];
            && s'.writePos == s.writePos[ch := (wp + 1) % s.ringSize] && s'.slots == s.slots
            && s'.log == s.log[ch := s.log[ch] + [data]] && s'.held == s.held && s'.handles == s.handles
            && n in s'.pool.cells && s'.pool.cells[n].data == data
            && s'.pcs == s.pcs[t := Idle] && s'.lock == s.lock[ch := None] && s'.ringSize == s.ringSize
  {
    hide RefInv, ContentInv, HandleInv, ExclusiveInv, LockInv, Members, Ring;
    assert PcOk(s, s.pcs[t]);
  }

  /** And so does the next Read after Write(pieces). */
  lemma WriteThenRead(s: State, t: nat, h: nat, k: nat)
    requires Inv(s) && Enabled(s, WriteFill(t)) && UpToDate(s, h) && s.handles[h].channel == s.pcs[t].ch
    requires k !in s.held
    ensures (s.pcs[t].ch, s.writePos[s.pcs[t].ch]) in s.slots
    ensures var n, hd := s.slots[(s.pcs[t].ch, s.writePos[s.pcs[t].ch])], s.handles[h];
            NextReadGives(Step(s, WriteFill(t)), t, h, k, n, hd.begin, s.pcs[t].data) <==> s.ringSize >= 2
  {
    hide LockInv, RefInv, ExclusiveInv, ContentInv, HandleInv, Members, Step, NextReadGives;
    WriteExact(s, t);
    WritePosition(s, s.pcs[t].ch);
    StepKeepsInv(s, WriteFill(t));
    NewestRecordRead(Step(s, WriteFill(t)), t, h, k, s.slots[(s.pcs[t].ch, s.writePos[s.pcs[t].ch])]);
  }

  // ---- Producers' and readers' references ------------------------------------------------------------------------

  /** Talloc hands out the front node of the list, with one user and no payload, or nothing if the list is empty. */
  lemma TallocNodeExact(s: State, k: nat, ch: nat)
    requires Inv(s) && Enabled(s, TallocNode(k, ch))
    ensures ch < |s.pool.free| && var s', free := Step(s, TallocNode(k, ch)), s.pool.free[ch];
            if free == [] then s' == s
            else
              && s'.held == s.held[k := free[0]] && s'.producing == s.producing + {k}
              && s'.pool == Pool(s.pool.free[ch := free[1..]], s.pool.cells[free[0] := Cell(1, ch, [])])
              && s'.slots == s.slots && s'.log == s.log && s'.handles == s.handles
  {
    hide RefInv, ContentInv, HandleInv, ExclusiveInv, LockInv, Members, Ring;
  }

  /** Filling a producer's node sets its payload and nothing else. */
  lemma FillNodeExact(s: State, k: nat, data: Bytes)
    requires Inv(s) && Enabled(s, FillNode(k, data))
    ensures var s', n := Step(s, FillNode(k, data)), s.held[k];
            && n in s.pool.cells && s'.pool.cells == s.pool.cells[n := s.pool.cells[n].(data := data)]
            && s'.pool.free == s.pool.free && s'.held == s.held && s'.slots == s.slots && s'.log == s.log
  {
    hide RefInv, ContentInv, HandleInv, ExclusiveInv, LockInv, Members, Ring;
  }

  /** Tfree ends the reference; the node has one user less, and goes to the back of its channel's list with the last. */
  lemma TfreeHeldExact(s: State, k: nat)
    requires Inv(s) && Enabled(s, TfreeHeld(k))
    ensures s.held[k] in s.pool.cells && var n := s.held[k];
            var s', c := Step(s, TfreeHeld(k)), s.pool.cells[n];
            && c.users >= 1 && c.channel < |s.pool.free| && s'.held == s.held - {k}
            && s'.pool.cells == s.pool.cells[n := c.(users := c.users - 1)]
            && s'.pool.free
            == (if c.users == 1 then s.pool.free[c.channel := s.pool.free[c.channel] + [n]] else s.pool.free)
            && s'.slots == s.slots && s'.log == s.log && s'.handles == s.handles
  {
    hide ContentInv, HandleInv, ExclusiveInv, LockInv, Members, Ring, Counted;
    ReferencedIsLive(s.pool, Ring(s), s.held, s.held[k]);
    hide RefInv;
  }

  // ---- A record on its way from a producer to a reader -----------------------------------------------------------

  ghost predicate Leads(s: State, es: seq<Event>, s': State) {
    Runs(s, es) && Exec(s, es) == s'
  }

  lemma LeadsFirst(s: State, e: Event, es: seq<Event>, s': State)
    requires Shape(s) && Enabled(s, e) && Leads(Step(s, e), es, s')
    ensures Leads(s, [e] + es, s')
  {
    hide Shape, Enabled, Step;
    assert ([e] + es)[1..] == es;
  }

  lemma {:induction false} LeadsOn(s: State, es: seq<Event>, s1: State, fs: seq<Event>, s2: State)
    requires Leads(s, es, s1) && Leads(s1, fs, s2)
    ensures Leads(s, es + fs, s2)
    decreases |es|
  {
    if es == [] {
      assert es + fs == fs;
    } else {
      hide Shape, Enabled, Step;
      assert (es + fs)[0] == es[0] && (es + fs)[1..] == es[1..] + fs;
      LeadsOn(Step(s, es[0]), es[1..], s1, fs, s2);
    }
  }

  lemma LeadsOnce(s: State, e: Event)
    requires Shape(s) && Enabled(s, e)
    ensures Leads(s, [e], Step(s, e))
  {
    hide Shape, Enabled, Step;
    assert [e][1..] == [];
    assert Leads(Step(s, e), [], Step(s, e));
  }

  /** What the steps of Write leave alone until the last one: handles, references, history and cursors. */
  ghost predicate StillWriting(s: State, s': State, t: nat, ch: nat) {
    && t < |s.pcs| == |s'.pcs| && s'.pcs[t := Idle] == s.pcs
    && ch < |s.lock| && s'.lock == s.lock[ch := Some(t)] && s'.ringSize == s.ringSize
    && s'.handles == s.handles && s'.held == s.held && s'.log == s.log && s'.writePos == s.writePos
    && s'.producing == s.producing && s'.publishing == s.publishing
  }

  lemma BeginWriteExact(s: State, t: nat, ch: nat, data: Bytes)
    requires Inv(s) && Enabled(s, BeginWrite(t, ch, data))
    ensures var s' := Step(s, BeginWrite(t, ch, data));
            StillWriting(s, s', t, ch) && s'.pcs[t] == WriteEntered(ch, data) && s'.pool == s.pool
  {
    hide RefInv, ContentInv, HandleInv, ExclusiveInv, LockInv, Members, Ring;
  }

  lemma WriteTfreeExact(s: State, s1: State, t: nat, ch: nat, data: Bytes)
    requires Inv(s1) && StillWriting(s, s1, t, ch) && s1.pcs[t] == WriteEntered(ch, data)
    requires ch < |s1.pool.free| && s1.pool.free[ch] != []
    ensures Enabled(s1, WriteTfree(t))
    ensures var s2 := Step(s1, WriteTfree(t));
            && StillWriting(s, s2, t, ch) && s2.pcs[t] == WriteFreed(ch, data)
            && ch < |s2.pool.free| && s2.pool.free[ch] != []
  {
    hide RefInv, ContentInv, HandleInv, ExclusiveInv, LockInv, Members, Ring;
  }

  lemma WriteTallocExact(s: State, s2: State, t: nat, ch: nat, data: Bytes)
    requires Inv(s2) && StillWriting(s, s2, t, ch) && s2.pcs[t] == WriteFreed(ch, data)
    requires ch < |s2.pool.free| && s2.pool.free[ch] != []
    ensures Enabled(s2, WriteTalloc(t))
    ensures var s3 := Step(s2, WriteTalloc(t));
            StillWriting(s, s3, t, ch) && s3.pcs[t] == WriteAlloced(ch, data) && Enabled(s3, WriteFill(t))
  {
    hide RefInv, ContentInv, HandleInv, ExclusiveInv, LockInv, Members, Ring;
  }

  ghost function WriteEvents(t: nat, ch: nat, data: Bytes): seq<Event> {
    [BeginWrite(t, ch, data)] + ([WriteTfree(t)] + [WriteTalloc(t)])
  }

  /** Up to its last step an uninterrupted Write can run if its channel has a free node. */
  lemma WriteStarts(s: State, t: nat, ch: nat, data: Bytes) returns (s3: State)
    requires Inv(s) && CanEnter(s, t, ch) && ch < |s.pool.free| && s.pool.free[ch] != []
    ensures Leads(s, WriteEvents(t, ch, data), s3) && Inv(s3)
    ensures StillWriting(s, s3, t, ch) && s3.pcs[t] == WriteAlloced(ch, data) && Enabled(s3, WriteFill(t))
  {
    hide Shape, RefInv, ContentInv, HandleInv, ExclusiveInv, LockInv, Members, Step, StillWriting, Leads;
    var s1 := Step(s, BeginWrite(t, ch, data));
    BeginWriteExact(s, t, ch, data);
    StepKeepsInv(s, BeginWrite(t, ch, data));
    WriteTfreeExact(s, s1, t, ch, data);
    var s2 := Step(s1, WriteTfree(t));
    StepKeepsInv(s1, WriteTfree(t));
    WriteTallocExact(s, s2, t, ch, data);
    s3 := Step(s2, WriteTalloc(t));
    StepKeepsInv(s2, WriteTalloc(t));
    LeadsOnce(s2, WriteTalloc(t));
    LeadsFirst(s1, WriteTfree(t), [WriteTalloc(t)], s3);
    LeadsFirst(s, BeginWrite(t, ch, data), [WriteTfree(t)] + [WriteTalloc(t)], s3);
  }

  /** Neither the last step of Write nor Read touches what producers are about to publish. */
  lemma PublishingKept(s: State, e: Event)
    requires Inv(s) && Enabled(s, e) && (e.WriteFill? || e.BeginRead? || e.EndRead?)
    ensures Step(s, e).publishing == s.publishing
  {
    hide RefInv, ContentInv, HandleInv, ExclusiveInv, LockInv, Members, Ring, ReadHandle, Delivers;
  }

  lemma NotPublishing(s: State, k: nat)
    requires ExclusiveInv(s) && k !in s.held
    ensures k !in s.publishing
  {
    hide Refs, Owner;
  }

  ghost function PassingEvents(t: nat, ch: nat, data: Bytes, h: nat, k: nat): seq<Event> {
    WriteEvents(t, ch, data) + ([WriteFill(t)] + ([BeginRead(t, h)] + ([EndRead(t, k)] + [TfreeHeld(k)])))
  }

  /** From any state in which the channel is not locked and has a free node, one record can be written, read by an
      up-to-date reader and given back: the history grows by it, so does what the reader received, and nobody holds
      more than before. */
  lemma RecordPasses(s: State, t: nat, ch: nat, data: Bytes, h: nat, k: nat) returns (s': State)
    requires Inv(s) && CanEnter(s, t, ch) && ch < |s.pool.free| && s.pool.free[ch] != []
    requires UpToDate(s, h) && s.handles[h].channel == ch && k !in s.held && s.ringSize >= 2
    ensures Leads(s, PassingEvents(t, ch, data, h, k), s') && ch < |s.log|
    ensures s'.log == s.log[ch := s.log[ch] + [data]] && s'.held == s.held && h < |s'.handles|
    ensures s'.handles[h].got == s.handles[h].got + [(|s.log[ch]|, data)]
  {
    hide Shape, RefInv, ContentInv, HandleInv, ExclusiveInv, LockInv, Members, Step, Leads, Enabled;
    var s3 := WriteStarts(s, t, ch, data);
    WriteThenRead(s3, t, h, k);
    WriteExact(s3, t);
    StepKeepsInv(s3, WriteFill(t));
    var s4 := Step(s3, WriteFill(t));
    StepKeepsInv(s4, BeginRead(t, h));
    EnterToRead(s4, t, h);
    var s5 := Step(s4, BeginRead(t, h));
    StepKeepsInv(s5, EndRead(t, k));
    ReadStep(s5, t, k);
    var s6 := Step(s5, EndRead(t, k));
    NotPublishing(s, k);
    PublishingKept(s3, WriteFill(t));
    PublishingKept(s4, BeginRead(t, h));
    PublishingKept(s5, EndRead(t, k));
    CanFree(s6, k);
    TfreeHeldExact(s6, k);
    s' := Step(s6, TfreeHeld(k));
    LeadsOnce(s6, TfreeHeld(k));
    LeadsFirst(s5, EndRead(t, k), [TfreeHeld(k)], s');
    LeadsFirst(s4, BeginRead(t, h), [EndRead(t, k)] + [TfreeHeld(k)], s');
    LeadsFirst(s3, WriteFill(t), [BeginRead(t, h)] + ([EndRead(t, k)] + [TfreeHeld(k)]), s');
    LeadsOn(s, WriteEvents(t, ch, data), s3,
            [WriteFill(t)] + ([BeginRead(t, h)] + ([EndRead(t, k)] + [TfreeHeld(k)])), s');
    assert s.held[k := s6.held[k]] - {k} == s.held;
  }

  lemma CanFree(s: State, k: nat)
    requires k in s.held && k !in s.publishing
    ensures Enabled(s, TfreeHeld(k))
  {
  }
}
