/**
 * CPcp as a concurrent protocol.  Any number of threads run Read, both forms of Write, Talloc and Tfree
 * over any number of channels.  A channel's dataMutex is held across several steps; each step contains at
 * most one critical section of the pool-wide lock, together with the code around it that only touches
 * what dataMutex protects.
 */
module PcpProtocol {
  import opened Common
  import opened PcpCursor
  import opened PcpPool

  type NodeId = nat

  /** Where a thread is.  Every place but Idle is inside the dataMutex section of channel `ch`. */
  datatype PC =
    | Idle
    | WriteEntered(ch: nat, data: Bytes)   // about to Tfree the old node of the slot
    | WriteFreed(ch: nat, data: Bytes)     // the slot still holds the old, now dangling, pointer
    | WriteAlloced(ch: nat, data: Bytes)   // the slot holds a fresh node that is being filled
    | NodeWriteEntered(ch: nat, hold: nat) // about to publish the producer's own node
    | ReadEntered(ch: nat, handle: nat)

  /** Why a record never reached a handle: a whole turn passed unseen, Read resynchronised, or a failed Write had
      cleared the slot. */
  datatype Loss = Overrun | Resynced | Cleared

  /** A reader's handle.  The rest is history, in absolute record numbers: what its cursors stand for, how many
      records there were when it was opened, what it has received, and what it has lost and why. */
  datatype Handle = Handle(channel: nat, readBegin: nat, readEnd: nat, begin: nat, end: nat, start: nat,
                           got: seq<(nat, Bytes)>, lost: map<nat, Loss>)

  /** slots is dataPool (an absent slot is NULL); held maps each outstanding reference to its node;
      producing and publishing are the references owned by producers; log is history: every record
      written to each channel. */
  datatype State = State(ringSize: nat, pool: Pool<NodeId>, slots: map<Slot, NodeId>, writePos: seq<nat>,
                         lock: seq<Option<nat>>, pcs: seq<PC>, handles: seq<Handle>,
                         held: map<nat, NodeId>, producing: set<nat>, publishing: set<nat>,
                         log: seq<seq<Bytes>>)

  datatype Event =
    | BeginWrite(t: nat, ch: nat, data: Bytes)
    | WriteTfree(t: nat)
    | WriteTalloc(t: nat)
    | WriteFill(t: nat)
    | TallocNode(k: nat, ch: nat)
    | FillNode(k: nat, data: Bytes)
    | BeginNodeWrite(t: nat, ch: nat, k: nat)
    | NodeWriteTfree(t: nat)
    | Open(ch: nat)
    | BeginRead(t: nat, h: nat)
    | EndRead(t: nat, k: nat)
    | TfreeHeld(k: nat)

  // ---- Steps ----------------------------------------------------------------------------------------

  ghost predicate PcOk(s: State, pc: PC) {
    match pc
    case Idle => true
    case WriteAlloced(ch, _) => ch < |s.lock| && ch < |s.writePos| && (ch, s.writePos[ch]) in s.slots
    case NodeWriteEntered(ch, k) => ch < |s.lock| && k in s.held
    case ReadEntered(ch, h) => ch < |s.lock| && h < |s.handles| && s.handles[h].channel == ch
    case _ => pc.ch < |s.lock|
  }

  /** Sizes and ranges: what the steps need to be well defined. */
  ghost predicate Shape(s: State) {
    && 0 < s.ringSize
    && |s.writePos| == |s.lock| == |s.log| == |s.pool.free|
    && (forall ch :: 0 <= ch < |s.writePos| ==> s.writePos[ch] < s.ringSize)
    && (forall k :: k in s.slots ==> k.0 < |s.lock| && k.1 < s.ringSize && s.slots[k] in s.pool.cells)
    && (forall k :: k in s.held ==> s.held[k] in s.pool.cells)
    && (forall n :: n in s.pool.cells ==> s.pool.cells[n].channel < |s.pool.free|)
    && (forall t :: 0 <= t < |s.pcs| ==> PcOk(s, s.pcs[t]))
    && (forall h :: 0 <= h < |s.handles| ==> s.handles[h].channel < |s.lock|)
  }

  ghost predicate CanEnter(s: State, t: nat, ch: nat) {
    t < |s.pcs| && s.pcs[t].Idle? && ch < |s.lock| && s.lock[ch].None?
  }

  ghost predicate Enabled(s: State, e: Event) {
    match e
    case BeginWrite(t, ch, _) => CanEnter(s, t, ch)
    case WriteTfree(t) => t < |s.pcs| && s.pcs[t].WriteEntered?
    case WriteTalloc(t) => t < |s.pcs| && s.pcs[t].WriteFreed?
    case WriteFill(t) => t < |s.pcs| && s.pcs[t].WriteAlloced?
    case TallocNode(k, ch) => k !in s.held && ch < |s.lock|
    case FillNode(k, _) => k in s.producing && k in s.held
    case BeginNodeWrite(t, ch, k) => CanEnter(s, t, ch) && k in s.producing && k in s.held
    case NodeWriteTfree(t) => t < |s.pcs| && s.pcs[t].NodeWriteEntered?
    case Open(ch) => ch < |s.lock|
    case BeginRead(t, h) => h < |s.handles| && CanEnter(s, t, s.handles[h].channel)
    case EndRead(t, k) => t < |s.pcs| && s.pcs[t].ReadEntered? && k !in s.held
    case TfreeHeld(k) => k in s.held && k !in s.publishing
  }

  ghost function Enter(s: State, t: nat, pc: PC): State
    requires t < |s.pcs| && !pc.Idle? && pc.ch < |s.lock|
  {
    s.(pcs := s.pcs[t := pc], lock := s.lock[pc.ch := Some(t)])
  }

  ghost function Leave(s: State, t: nat): State
    requires t < |s.pcs| && !s.pcs[t].Idle? && s.pcs[t].ch < |s.lock|
  {
    s.(pcs := s.pcs[t := Idle], lock := s.lock[s.pcs[t].ch := None])
  }

  /** The write cursor moves on and the record enters the history. */
  ghost function Advance(s: State, ch: nat, data: Bytes): State
    requires 0 < s.ringSize && ch < |s.writePos| == |s.log|
  {
    s.(writePos := s.writePos[ch := (s.writePos[ch] + 1) % s.ringSize],
       log := s.log[ch := s.log[ch] + [data]])
  }

  ghost function Lose(lost: map<nat, Loss>, from: nat, to: nat, why: Loss): map<nat, Loss> {
    lost + map a | a in UpTo(to) && from <= a :: why
  }

  ghost function ReadHandle(s: State, hd: Handle): Handle
    requires 0 < s.ringSize && hd.channel < |s.writePos| == |s.log|
  {
    var wp, written, slot := s.writePos[hd.channel], |s.log[hd.channel]|, (hd.channel, hd.readBegin);
    var a := Anchor(hd.begin, hd.end, written, s.ringSize);
    var lost := Lose(hd.lost, hd.begin, a, Overrun);
    match Decide(hd.readBegin, hd.readEnd, wp)
    case Empty => hd.(begin := a, end := written, lost := lost)
    case Resync =>
      hd.(readBegin := wp, readEnd := wp, begin := written, end := written, lost := Lose(lost, a, written, Resynced))
    case Take =>
      var hd := hd.(readBegin := (hd.readBegin + 1) % s.ringSize, readEnd := wp, begin := a + 1, end := written);
      if slot in s.slots && s.slots[slot] in s.pool.cells then
        hd.(got := hd.got + [(a, s.pool.cells[s.slots[slot]].data)], lost := lost)
      else hd.(lost := Lose(lost, a, a + 1, Cleared))
  }

  /** Does this Read hand its caller a node? */
  ghost predicate Delivers(s: State, hd: Handle)
    requires hd.channel < |s.writePos|
  {
    Decide(hd.readBegin, hd.readEnd, s.writePos[hd.channel]).Take? && (hd.channel, hd.readBegin) in s.slots
  }

  ghost function DoWriteTfree(s: State, t: nat): State
    requires Shape(s) && Enabled(s, WriteTfree(t))
  {
    var pc := s.pcs[t];
    s.(pool := Release(s.pool, s.slots, (pc.ch, s.writePos[pc.ch])), pcs := s.pcs[t := WriteFreed(pc.ch, pc.data)])
  }

  ghost function DoWriteTalloc(s: State, t: nat): State
    requires Shape(s) && Enabled(s, WriteTalloc(t))
  {
    var pc := s.pcs[t];
    var slot := (pc.ch, s.writePos[pc.ch]);
    var (pool', r) := Talloc(s.pool, pc.ch);
    if r.Some? then
      s.(pool := pool', slots := s.slots[slot := r.value], pcs := s.pcs[t := WriteAlloced(pc.ch, pc.data)])
    else
      Leave(s.(slots := s.slots - {slot}), t)
  }

  ghost function DoWriteFill(s: State, t: nat): State
    requires Shape(s) && Enabled(s, WriteFill(t))
  {
    var pc := s.pcs[t];
    var n := s.slots[(pc.ch, s.writePos[pc.ch])];
    Leave(Advance(s.(pool := SetData(s.pool, n, pc.data)), pc.ch, pc.data), t)
  }

  ghost function DoTallocNode(s: State, k: nat, ch: nat): State
    requires Shape(s) && Enabled(s, TallocNode(k, ch))
  {
    var (pool', r) := Talloc(s.pool, ch);
    if r.None? then s
    else s.(pool := pool', held := s.held[k := r.value], producing := s.producing + {k})
  }

  ghost function DoFillNode(s: State, k: nat, data: Bytes): State
    requires Shape(s) && Enabled(s, FillNode(k, data))
  {
    s.(pool := SetData(s.pool, s.held[k], data))
  }

  ghost function DoBeginNodeWrite(s: State, t: nat, ch: nat, k: nat): State
    requires Shape(s) && Enabled(s, BeginNodeWrite(t, ch, k))
  {
    Enter(s.(producing := s.producing - {k}, publishing := s.publishing + {k}), t, NodeWriteEntered(ch, k))
  }

  ghost function DoNodeWriteTfree(s: State, t: nat): State
    requires Shape(s) && Enabled(s, NodeWriteTfree(t))
  {
    assert PcOk(s, s.pcs[t]);
    var NodeWriteEntered(ch, k) := s.pcs[t];
    var slot := (ch, s.writePos[ch]);
    var s1 := s.(pool := Release(s.pool, s.slots, slot), slots := s.slots[slot := s.held[k]], held := s.held - {k},
                 publishing := s.publishing - {k});
    Leave(Advance(s1, ch, s.pool.cells[s.held[k]].data), t)
  }

  ghost function DoOpen(s: State, ch: nat): State
    requires Shape(s) && Enabled(s, Open(ch))
  {
    var wp, written := s.writePos[ch], |s.log[ch]|;
    s.(handles := s.handles + [Handle(ch, wp, wp, written, written, written, [], map[])])
  }

  ghost function DoEndRead(s: State, t: nat, k: nat): State
    requires Shape(s) && Enabled(s, EndRead(t, k))
  {
    assert PcOk(s, s.pcs[t]);
    var h := s.pcs[t].handle;
    var hd := s.handles[h];
    var s1 := s.(handles := s.handles[h := ReadHandle(s, hd)]);
    if !Delivers(s, hd) then Leave(s1, t)
    else
      var n := s.slots[(hd.channel, hd.readBegin)];
      Leave(s1.(pool := Tcopy(s.pool, n), held := s.held[k := n]), t)
  }

  ghost function DoTfreeHeld(s: State, k: nat): State
    requires Shape(s) && Enabled(s, TfreeHeld(k))
  {
    s.(pool := Tfree(s.pool, s.held[k]), held := s.held - {k}, producing := s.producing - {k})
  }

  ghost function Step(s: State, e: Event): State
    requires Shape(s) && Enabled(s, e)
  {
    match e
    case BeginWrite(t, ch, data) => Enter(s, t, WriteEntered(ch, data))
    case WriteTfree(t) => DoWriteTfree(s, t)
    case WriteTalloc(t) => DoWriteTalloc(s, t)
    case WriteFill(t) => DoWriteFill(s, t)
    case TallocNode(k, ch) => DoTallocNode(s, k, ch)
    case FillNode(k, data) => DoFillNode(s, k, data)
    case BeginNodeWrite(t, ch, k) => DoBeginNodeWrite(s, t, ch, k)
    case NodeWriteTfree(t) => DoNodeWriteTfree(s, t)
    case Open(ch) => DoOpen(s, ch)
    case BeginRead(t, h) => Enter(s, t, ReadEntered(s.handles[h].channel, h))
    case EndRead(t, k) => DoEndRead(s, t, k)
    case TfreeHeld(k) => DoTfreeHeld(s, k)
  }

  /** es is a run from s: each event is enabled when its turn comes. */
  ghost predicate Runs(s: State, es: seq<Event>)
    decreases |es|
  {
    es == [] || (Shape(s) && Enabled(s, es[0]) && Runs(Step(s, es[0]), es[1..]))
  }

  ghost function Exec(s: State, es: seq<Event>): State
    requires Runs(s, es)
    decreases |es|
  {
    if es == [] then s else Exec(Step(s, es[0]), es[1..])
  }

  // ---- The invariant ----------------------------------------------------------------------------------

  /** A channel's mutex is owned by exactly the thread inside its section. */
  ghost predicate LockInv(s: State) {
    && (forall t :: 0 <= t < |s.pcs| ==> s.pcs[t].Idle? || (s.pcs[t].ch < |s.lock| && s.lock[s.pcs[t].ch] == Some(t)))
    && (forall ch :: 0 <= ch < |s.lock| && s.lock[ch].Some? ==>
          s.lock[ch].value < |s.pcs| && !s.pcs[s.lock[ch].value].Idle? && s.pcs[s.lock[ch].value].ch == ch)
  }

  /** What the owner of the channel's mutex is doing, if anyone owns it. */
  ghost function Owner(s: State, ch: nat): PC {
    if ch < |s.lock| && s.lock[ch].Some? && s.lock[ch].value < |s.pcs| then s.pcs[s.lock[ch].value] else Idle
  }

  /** A slot whose old node has been freed but whose pointer has not been overwritten yet. */
  ghost predicate Dangling(s: State, slot: Slot) {
    Owner(s, slot.0).WriteFreed? && slot.0 < |s.writePos| && slot.1 == s.writePos[slot.0]
  }

  /** The slots that really own a reference. */
  ghost function Ring(s: State): map<Slot, NodeId> {
    map k | k in s.slots && !Dangling(s, k) :: s.slots[k]
  }

  /** Nodes still private to a producer have no other reference. */
  ghost predicate ExclusiveInv(s: State) {
    && s.producing !! s.publishing
    && (forall k :: k in s.producing + s.publishing ==> k in s.held && Refs(Ring(s), s.held, s.held[k]) == 1)
    && (forall t :: 0 <= t < |s.pcs| && s.pcs[t].NodeWriteEntered? ==> s.pcs[t].hold in s.publishing)
    && (forall t, u :: 0 <= t < u < |s.pcs| && s.pcs[t].NodeWriteEntered? && s.pcs[u].NodeWriteEntered?
          ==> s.pcs[t].hold != s.pcs[u].hold)
    && (forall ch :: 0 <= ch < |s.lock| && Owner(s, ch).WriteAlloced? && ch < |s.writePos| ==>
          (ch, s.writePos[ch]) in s.slots && Refs(Ring(s), s.held, s.slots[(ch, s.writePos[ch])]) == 1)
  }

  /** The slot owns a node whose payload is `data`. */
  ghost predicate Holds(s: State, slot: Slot, data: Bytes) {
    slot in Ring(s) && Ring(s)[slot] in s.pool.cells && s.pool.cells[Ring(s)[slot]].data == data
  }

  ghost predicate Refreshing(pc: PC) { pc.WriteFreed? || pc.WriteAlloced? }

  /** The ring holds the last ringSize records; only the oldest may have been cleared by a failed Write. */
  ghost predicate ContentInv(s: State, ch: nat)
    requires ch < |s.writePos| == |s.log| && 0 < s.ringSize
  {
    var log, n, wp := s.log[ch], s.ringSize, s.writePos[ch];
    && wp == |log| % n
    && (forall a :: 0 <= a < |log| && |log| - a < n ==> Holds(s, (ch, a % n), log[a]))
    && (|log| >= n && (ch, wp) in s.slots && !Refreshing(Owner(s, ch)) ==> Holds(s, (ch, wp), log[|log| - n]))
    && (forall j :: |log| <= j < n && (ch, j) in s.slots ==> j == wp && Refreshing(Owner(s, ch)))
  }

  /** The record numbers received. */
  ghost function Numbers(got: seq<(nat, Bytes)>): set<nat> {
    set i | 0 <= i < |got| :: got[i].0
  }

  /** What was received was written, and came in order. */
  ghost predicate InOrder(got: seq<(nat, Bytes)>, log: seq<Bytes>) {
    && (forall i :: 0 <= i < |got| ==> got[i].0 < |log| && got[i].1 == log[got[i].0])
    && (forall i, j :: 0 <= i < j < |got| ==> got[i].0 < got[j].0)
  }

  /** Every record from the opening of the handle up to its cursor was either received or lost. */
  ghost predicate Complete(hd: Handle) {
    && (forall a :: a in Numbers(hd.got) || a in hd.lost <==> hd.start <= a < hd.begin)
    && (forall a :: a in Numbers(hd.got) ==> a !in hd.lost)
  }

  /** The cursors of a handle stand for its history. */
  ghost predicate CursorsOk(s: State, hd: Handle)
    requires 0 < s.ringSize
  {
    && hd.channel < |s.log| && hd.begin <= hd.end <= |s.log[hd.channel]| && hd.end - hd.begin < s.ringSize
    && hd.readBegin == hd.begin % s.ringSize && hd.readEnd == hd.end % s.ringSize
  }

  /** The cursors stand for the history, which accounts for every record; this holds of slow readers as well. */
  ghost predicate HandleInv(s: State, hd: Handle)
    requires |s.log| == |s.lock| && 0 < s.ringSize
  {
    && hd.channel < |s.lock| && CursorsOk(s, hd) && hd.start <= hd.begin
    && InOrder(hd.got, s.log[hd.channel]) && Complete(hd)
  }

  /** The nodes a channel owns, free or live. */
  ghost function Members(p: Pool<NodeId>, ch: nat): set<NodeId> {
    set n | n in p.cells && p.cells[n].channel == ch
  }

  ghost predicate Inv(s: State) {
    && Shape(s)
    && LockInv(s)
    && RefInv(s.pool, Ring(s), s.held)
    && ExclusiveInv(s)
    && (forall ch :: 0 <= ch < |s.log| ==> ContentInv(s, ch))
    && (forall h :: 0 <= h < |s.handles| ==> HandleInv(s, s.handles[h]))
    && (forall ch :: 0 <= ch < |s.log| ==> |Members(s.pool, ch)| == s.ringSize + 1)
  }
}
