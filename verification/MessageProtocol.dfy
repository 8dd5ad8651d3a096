/**
 * The message store under concurrency (common/message.cpp:57-112, 136-192): any number of threads send and
 * receive; a bucket is walked link by link under one of 40 striped mutexes; Recv first looks at the
 * bucket without any lock.
 */
module MessageProtocol {
  import opened Common
  import opened Chain
  import opened MessageStore

  /** A walk has passed `pos` nodes of its bucket. */
  datatype PC =
    | Idle
    | SendReady(msg: Msg)            // node built, mutex not yet taken
    | SendWalk(msg: Msg, pos: nat)
    | RecvReady(id: nat)             // bucket seen non-empty, mutex not yet taken
    | RecvWalk(id: nat, pos: nat)
  {
    predicate Inside() { SendWalk? || RecvWalk? }

    function Id(): nat
      requires !Idle?
    {
      if SendReady? || SendWalk? then msg.id else id
    }
  }

  datatype State = State(buckets: seq<seq<Msg>>, mutex: seq<Option<nat>>, pcs: seq<PC>)

  datatype Event =
    | BeginSend(t: nat, msg: Msg)
    | CheckRecv(t: nat, id: nat)
    | Lock(t: nat)
    | Advance(t: nat)

  /** What an event does to the queues. */
  datatype Outcome = Silent | Sent(msg: Msg) | Received(msg: Msg) | Missed(id: nat)

  predicate Shape(s: State) {
    |s.buckets| == MAX_NODE && |s.mutex| == MAX_MUTEX
  }

  predicate Enabled(s: State, e: Event)
    requires Shape(s)
  {
    e.t < |s.pcs| &&
    match e
    case BeginSend(t, _) => s.pcs[t].Idle?
    case CheckRecv(t, _) => s.pcs[t].Idle?
    case Lock(t) => (s.pcs[t].SendReady? || s.pcs[t].RecvReady?) && s.mutex[MutexIndex(s.pcs[t].Id())].None?
    case Advance(t) => s.pcs[t].Inside()
  }

  function Bucket(s: State, id: nat): seq<Msg>
    requires Shape(s)
  {
    s.buckets[NodeIndex(id)]
  }

  function SetBucket(s: State, id: nat, b: seq<Msg>): State
    requires Shape(s)
  {
    s.(buckets := s.buckets[NodeIndex(id) := b])
  }

  function Goto(s: State, t: nat, pc: PC): State
    requires t < |s.pcs|
  {
    s.(pcs := s.pcs[t := pc])
  }

  /** Give the mutex back and return. */
  function Leave(s: State, t: nat): State
    requires Shape(s) && t < |s.pcs| && s.pcs[t].Inside()
  {
    s.(mutex := s.mutex[MutexIndex(s.pcs[t].Id()) := None], pcs := s.pcs[t := Idle])
  }

  function Step(s: State, e: Event): (State, Outcome)
    requires Shape(s) && Enabled(s, e)
  {
    match e
    case BeginSend(t, msg) => (Goto(s, t, SendReady(msg)), Silent)
    case CheckRecv(t, id) =>
      if Bucket(s, id) == [] then (s, Missed(id)) else (Goto(s, t, RecvReady(id)), Silent)
    case Lock(t) =>
      var pc := s.pcs[t];
      var s' := s.(mutex := s.mutex[MutexIndex(pc.Id()) := Some(t)]);
      (Goto(s', t, if pc.SendReady? then SendWalk(pc.msg, 0) else RecvWalk(pc.id, 0)), Silent)
    case Advance(t) =>
      match s.pcs[t] {
        case SendWalk(msg, pos) =>
          var b := Bucket(s, msg.id);
          if pos < |b| then (Goto(s, t, SendWalk(msg, pos + 1)), Silent)
          else (Leave(SetBucket(s, msg.id, b + [msg]), t), Sent(msg))
        case RecvWalk(id, pos) =>
          var b := Bucket(s, id);
          if pos >= |b| then (Leave(s, t), Missed(id))
          else if b[pos].id == id then (Leave(SetBucket(s, id, Without(b, pos)), t), Received(b[pos]))
          else (Goto(s, t, RecvWalk(id, pos + 1)), Silent)
        case _ => (s, Silent)
      }
  }

  // ---- The invariant ------------------------------------------------------------------------------------

  ghost predicate LockInv(s: State)
    requires Shape(s)
  {
    forall t :: 0 <= t < |s.pcs| && s.pcs[t].Inside() ==> s.mutex[MutexIndex(s.pcs[t].Id())] == Some(t)
  }

  /** A walk is inside its bucket, and a receiver has passed no message of its id. */
  ghost predicate WalkInv(s: State, pc: PC)
    requires Shape(s)
  {
    match pc
    case SendWalk(msg, pos) => pos <= |Bucket(s, msg.id)|
    case RecvWalk(id, pos) =>
      pos <= |Bucket(s, id)| && forall j :: 0 <= j < pos ==> Bucket(s, id)[j].id != id
    case _ => true
  }

  ghost predicate Inv(s: State) {
    Shape(s) && LockInv(s) && forall t :: 0 <= t < |s.pcs| ==> WalkInv(s, s.pcs[t])
  }

  /** Two threads never walk the same bucket: the stripes are wide enough. */
  lemma BucketExclusion(s: State, t: nat, u: nat)
    requires Shape(s) && LockInv(s) && t < |s.pcs| && u < |s.pcs| && s.pcs[t].Inside() && s.pcs[u].Inside()
    requires NodeIndex(s.pcs[t].Id()) == NodeIndex(s.pcs[u].Id())
    ensures t == u
  {
    SameBucketSameMutex(s.pcs[t].Id(), s.pcs[u].Id());
  }

  lemma StepKeepsLocks(s: State, e: Event)
    requires Shape(s) && LockInv(s) && Enabled(s, e)
    ensures Shape(Step(s, e).0) && LockInv(Step(s, e).0)
  {
    hide MutexIndex, NodeIndex;
  }

  lemma StepKeepsInv(s: State, e: Event)
    requires Inv(s) && Enabled(s, e)
    ensures Inv(Step(s, e).0)
  {
    var s', t := Step(s, e).0, e.t;
    hide MutexIndex, NodeIndex;
    StepKeepsLocks(s, e);
    forall u | 0 <= u < |s'.pcs| ensures WalkInv(s', s'.pcs[u]) {
      if u != t && s.pcs[t].Inside() && s.pcs[u].Inside() {
        if NodeIndex(s.pcs[t].Id()) == NodeIndex(s.pcs[u].Id()) { BucketExclusion(s, t, u); }
        assert WalkInv(s, s.pcs[u]);
      }
    }
    hide LockInv, WalkInv, Step;
  }

  // ---- Refinement of a map from id to FIFO queue -----------------------------------------------------------

  /** The abstract queue of an id. */
  function Queue(s: State, id: nat): seq<Bytes>
    requires Shape(s)
  {
    Pending(Bucket(s, id), id)
  }

  /** Every step is one atomic queue operation or none: a send enqueues, a receive dequeues the oldest
      message of its id, a miss finds the queue empty, and no other id's queue changes. */
  lemma StepRefinesQueue(s: State, e: Event, id: nat)
    requires Inv(s) && Enabled(s, e)
    ensures var (s', out) := Step(s, e);
            Shape(s') &&
            match out
            case Silent => Queue(s', id) == Queue(s, id)
            case Sent(m) => Queue(s', id) == Queue(s, id) + if id == m.id then [m.body] else []
            case Received(m) => Queue(s, id) == (if id == m.id then [m.body] else []) + Queue(s', id)
            case Missed(i) => Queue(s', id) == Queue(s, id) && Queue(s, i) == []
  {
    var (s', out) := Step(s, e);
    match e {
      case Advance(t) =>
        assert WalkInv(s, s.pcs[t]);
        var b := Bucket(s, s.pcs[t].Id());
        match s.pcs[t] {
          case SendWalk(msg, pos) => AppendEnqueues(b, msg, id);
          case RecvWalk(i, pos) =>
            if pos >= |b| { PendingNone(b, i); }
            else if b[pos].id == i { UnlinkDequeues(b, pos, id); }
          case _ =>
        }
      case _ =>
    }
  }

  // ---- The walks are the store's operations ------------------------------------------------------------------------

  /** The step that links a message is the enqueue that Send performs on the store. */
  lemma StepIsEnqueue(s: State, t: nat)
    requires Inv(s) && Enabled(s, Advance(t)) && s.pcs[t].SendWalk? && Step(s, Advance(t)).1.Sent?
    ensures Step(s, Advance(t)).0.buckets == Enqueue(s.buckets, s.pcs[t].msg)
  {
  }

  /** The step that ends a receiver's walk is the dequeue that Recv performs on the store: the walk stops at the
      oldest message of its id, or past the bucket if there is none. */
  lemma StepIsDequeue(s: State, t: nat)
    requires Inv(s) && Enabled(s, Advance(t)) && s.pcs[t].RecvWalk? && !Step(s, Advance(t)).1.Silent?
    ensures var (s', out) := Step(s, Advance(t));
            (s'.buckets, if out.Received? then Some(out.msg) else None) == Dequeue(s.buckets, s.pcs[t].id)
  {
    var RecvWalk(id, pos) := s.pcs[t];
    assert WalkInv(s, s.pcs[t]);
    OldestIs(Bucket(s, id), id, pos);
  }

  // ---- Whole runs ---------------------------------------------------------------------------------------------

  ghost predicate Runs(s: State, es: seq<Event>)
    decreases |es|
  {
    Shape(s) && (es == [] || (Enabled(s, es[0]) && Runs(Step(s, es[0]).0, es[1..])))
  }

  ghost function Exec(s: State, es: seq<Event>): (State, seq<Outcome>)
    requires Runs(s, es)
    decreases |es|
  {
    if es == [] then (s, [])
    else
      var (s1, out) := Step(s, es[0]);
      var (s2, outs) := Exec(s1, es[1..]);
      (s2, [out] + outs)
  }

  ghost function SentTo(outs: seq<Outcome>, id: nat): seq<Bytes> {
    if outs == [] then []
    else (if outs[0].Sent? && outs[0].msg.id == id then [outs[0].msg.body] else []) + SentTo(outs[1..], id)
  }

  ghost function ReceivedFrom(outs: seq<Outcome>, id: nat): seq<Bytes> {
    if outs == [] then []
    else (if outs[0].Received? && outs[0].msg.id == id then [outs[0].msg.body] else []) + ReceivedFrom(outs[1..], id)
  }

  lemma Telescope<T>(q0: seq<T>, q1: seq<T>, q2: seq<T>, sent: seq<T>, sents: seq<T>, got: seq<T>, gots: seq<T>)
    requires q0 + sent == got + q1 && q1 + sents == gots + q2
    ensures q0 + (sent + sents) == (got + gots) + q2
  {
    assert q0 + (sent + sents) == (q0 + sent) + sents;
    assert (got + q1) + sents == got + (q1 + sents);
    assert got + (gots + q2) == (got + gots) + q2;
  }

  /** Over any interleaving, for every id: what was waiting and what was sent, in order, is what was received,
      in order, followed by what is still waiting.  Nothing is lost, duplicated, reordered or misdelivered. */
  lemma {:induction false} FifoPerId(s: State, es: seq<Event>, id: nat)
    requires Inv(s) && Runs(s, es)
    ensures var (s', outs) := Exec(s, es);
            Inv(s') && Queue(s, id) + SentTo(outs, id) == ReceivedFrom(outs, id) + Queue(s', id)
    decreases |es|
  {
    if es != [] {
      hide Inv, Enabled, Step, Queue;
      var (s1, out) := Step(s, es[0]);
      StepKeepsInv(s, es[0]);
      StepRefinesQueue(s, es[0], id);
      FifoPerId(s1, es[1..], id);
      var (s2, outs) := Exec(s1, es[1..]);
      assert ([out] + outs)[1..] == outs;
      var sent := if out.Sent? && out.msg.id == id then [out.msg.body] else [];
      var received := if out.Received? && out.msg.id == id then [out.msg.body] else [];
      Telescope(Queue(s, id), Queue(s1, id), Queue(s2, id), sent, SentTo(outs, id), received, ReceivedFrom(outs, id));
    }
  }

  // ---- A walk that nobody interrupts ---------------------------------------------------------------------------

  function Advances(t: nat, n: nat): seq<Event> {
    if n == 0 then [] else [Advance(t)] + Advances(t, n - 1)
  }

  /** The one thing that n steps do which are otherwise silent. */
  function Lastly(n: nat, out: Outcome): seq<Outcome> {
    if n == 0 then [out] else [Silent] + Lastly(n - 1, out)
  }

  ghost predicate Leads(s: State, es: seq<Event>, s': State, outs: seq<Outcome>) {
    Runs(s, es) && Exec(s, es) == (s', outs)
  }

  lemma LeadsFirst(s: State, e: Event, es: seq<Event>, s': State, outs: seq<Outcome>)
    requires Shape(s) && Enabled(s, e) && Leads(Step(s, e).0, es, s', outs)
    ensures Leads(s, [e] + es, s', [Step(s, e).1] + outs)
  {
    assert ([e] + es)[1..] == es;
  }

  lemma LeadsOnce(s: State, t: nat)
    requires Shape(s) && Enabled(s, Advance(t)) && Shape(Step(s, Advance(t)).0)
    ensures Leads(s, Advances(t, 1), Step(s, Advance(t)).0, Lastly(0, Step(s, Advance(t)).1))
  {
    hide Step;
    var (s1, out) := Step(s, Advance(t));
    assert Leads(s1, [], s1, []);
    LeadsFirst(s, Advance(t), [], s1, []);
    assert Advances(t, 0) == [] && [Advance(t)] + [] == Advances(t, 1) && [out] + [] == Lastly(0, out);
  }

  /** A sender walks to the end of its bucket and links its message there. */
  lemma {:induction false} SendWalks(s: State, t: nat, msg: Msg, n: nat)
    requires Shape(s) && t < |s.pcs| && n <= |Bucket(s, msg.id)|
    requires s.pcs[t] == SendWalk(msg, |Bucket(s, msg.id)| - n)
    ensures Leads(s, Advances(t, n + 1),
                  State(Enqueue(s.buckets, msg), s.mutex[MutexIndex(msg.id) := None], s.pcs[t := Idle]),
                  Lastly(n, Sent(msg)))
    decreases n
  {
    hide NodeIndex, MutexIndex;
    var s1 := Step(s, Advance(t)).0;
    if n == 0 {
      assert s1 == State(Enqueue(s.buckets, msg), s.mutex[MutexIndex(msg.id) := None], s.pcs[t := Idle]);
      LeadsOnce(s, t);
    } else {
      SendWalks(s1, t, msg, n - 1);
      assert s1.pcs[t := Idle] == s.pcs[t := Idle];
      LeadsFirst(s, Advance(t), Advances(t, n), Exec(s1, Advances(t, n)).0, Lastly(n - 1, Sent(msg)));
    }
  }

  /** A receiver walks to the oldest message of its id and unlinks it, or past the end. */
  lemma {:induction false} RecvWalks(s: State, t: nat, id: nat, n: nat)
    requires Shape(s) && t < |s.pcs| && n <= Oldest(Bucket(s, id), id)
    requires s.pcs[t] == RecvWalk(id, Oldest(Bucket(s, id), id) - n)
    ensures var (b, r) := Dequeue(s.buckets, id);
            Leads(s, Advances(t, n + 1), State(b, s.mutex[MutexIndex(id) := None], s.pcs[t := Idle]),
                  Lastly(n, if r.Some? then Received(r.value) else Missed(id)))
    decreases n
  {
    hide NodeIndex, MutexIndex, Oldest, Without;
    var s1 := Step(s, Advance(t)).0;
    if n == 0 {
      assert s1 == State(Dequeue(s.buckets, id).0, s.mutex[MutexIndex(id) := None], s.pcs[t := Idle]);
      LeadsOnce(s, t);
    } else {
      RecvWalks(s1, t, id, n - 1);
      assert s1.pcs[t := Idle] == s.pcs[t := Idle];
      LeadsFirst(s, Advance(t), Advances(t, n), Exec(s1, Advances(t, n)).0, Exec(s1, Advances(t, n)).1);
    }
  }

  /** An uninterrupted Send by an idle thread can always run, and is one enqueue. */
  lemma SendAlone(s: State, t: nat, msg: Msg)
    requires Inv(s) && t < |s.pcs| && s.pcs[t].Idle? && s.mutex[MutexIndex(msg.id)].None?
    ensures var n := |Bucket(s, msg.id)|;
            Leads(s, [BeginSend(t, msg)] + ([Lock(t)] + Advances(t, n + 1)), s.(buckets := Enqueue(s.buckets, msg)),
                  [Silent] + ([Silent] + Lastly(n, Sent(msg))))
  {
    hide NodeIndex, MutexIndex, LockInv, WalkInv, Leads;
    var n := |Bucket(s, msg.id)|;
    var s1 := Step(s, BeginSend(t, msg)).0;
    var s2 := Step(s1, Lock(t)).0;
    SendWalks(s2, t, msg, n);
    assert s2.mutex[MutexIndex(msg.id) := None] == s.mutex && s2.pcs[t := Idle] == s.pcs;
    var s' := s.(buckets := Enqueue(s.buckets, msg));
    LeadsFirst(s1, Lock(t), Advances(t, n + 1), s', Lastly(n, Sent(msg)));
    LeadsFirst(s, BeginSend(t, msg), [Lock(t)] + Advances(t, n + 1), s', [Silent] + Lastly(n, Sent(msg)));
  }

  /** An uninterrupted Recv on a bucket that is not empty can always run, and is one dequeue: it gets the oldest message
      of its id, or misses. */
  lemma RecvAlone(s: State, t: nat, id: nat)
    requires Inv(s) && t < |s.pcs| && s.pcs[t].Idle? && s.mutex[MutexIndex(id)].None? && Bucket(s, id) != []
    ensures var n := Oldest(Bucket(s, id), id);
            var (b, r) := Dequeue(s.buckets, id);
            Leads(s, [CheckRecv(t, id)] + ([Lock(t)] + Advances(t, n + 1)), s.(buckets := b),
                  [Silent] + ([Silent] + Lastly(n, if r.Some? then Received(r.value) else Missed(id))))
  {
    hide NodeIndex, MutexIndex, LockInv, WalkInv, Leads, Oldest, Dequeue;
    var n := Oldest(Bucket(s, id), id);
    var (b, r) := Dequeue(s.buckets, id);
    var s1 := Step(s, CheckRecv(t, id)).0;
    var s2 := Step(s1, Lock(t)).0;
    RecvWalks(s2, t, id, n);
    assert s2.mutex[MutexIndex(id) := None] == s.mutex && s2.pcs[t := Idle] == s.pcs;
    var outs := Lastly(n, if r.Some? then Received(r.value) else Missed(id));
    LeadsFirst(s1, Lock(t), Advances(t, n + 1), s.(buckets := b), outs);
    LeadsFirst(s, CheckRecv(t, id), [Lock(t)] + Advances(t, n + 1), s.(buckets := b), [Silent] + outs);
  }
}
