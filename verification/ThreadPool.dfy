/**
 * The thread pool's work queue (common/threadPool.cpp:35-75, 106-145): Add enqueues under the mutex and
 * signals after releasing it; workers wait on the condition variable while the queue is empty.
 */
module ThreadPool {
  import opened Common
  import opened Chain
  import opened LinkedQueue

  // ---- The protocol, before shutdown -----------------------------------------------------------------------

  datatype Worker<J> =
    | Ready          // about to lock the mutex and look at the queue
    | Waiting        // inside pthread_cond_wait, not signalled
    | Woken          // signalled, about to get the mutex back and look again
    | Running(job: J)

  /** owed counts the Adds that have unlocked but not signalled yet; added and started are history. */
  datatype State<J> = State(queue: seq<J>, workers: seq<Worker<J>>, owed: nat, added: seq<J>, started: seq<J>)

  datatype Event<J> =
    | Enqueue(job: J)
    | Signal(worker: Option<nat>)
    | SpuriousWake(i: nat)
    | Look(i: nat)
    | Finish(i: nat)

  ghost predicate SomeWaiting<J>(s: State<J>) {
    exists i :: 0 <= i < |s.workers| && s.workers[i].Waiting?
  }

  /** A signal wakes a waiting worker if there is one. */
  ghost predicate Enabled<J>(s: State<J>, e: Event<J>) {
    match e
    case Enqueue(_) => true
    case Signal(Some(i)) => s.owed > 0 && i < |s.workers| && s.workers[i].Waiting?
    case Signal(None) => s.owed > 0 && !SomeWaiting(s)
    case SpuriousWake(i) => i < |s.workers| && s.workers[i].Waiting?
    case Look(i) => i < |s.workers| && (s.workers[i].Ready? || s.workers[i].Woken?)
    case Finish(i) => i < |s.workers| && s.workers[i].Running?
  }

  /** The queue after Add. */
  function Enqueued<J>(queue: seq<J>, job: J): seq<J> {
    queue + [job]
  }

  ghost function Step<J>(s: State<J>, e: Event<J>): State<J>
    requires Enabled(s, e)
  {
    match e
    case Enqueue(job) => s.(queue := Enqueued(s.queue, job), owed := s.owed + 1, added := s.added + [job])
    case Signal(Some(i)) => s.(owed := s.owed - 1, workers := s.workers[i := Woken])
    case Signal(None) => s.(owed := s.owed - 1)
    case SpuriousWake(i) => s.(workers := s.workers[i := Woken])
    case Look(i) =>
      match PopResult(s.queue) {
        case (_, None) => s.(workers := s.workers[i := Waiting])
        case (rest, Some(job)) =>
          s.(queue := rest, started := s.started + [job], workers := s.workers[i := Running(job)])
      }
    case Finish(i) => s.(workers := s.workers[i := Ready])
  }

  function WokenCount<J>(w: seq<Worker<J>>): nat {
    if w == [] then 0 else (if w[0].Woken? then 1 else 0) + WokenCount(w[1..])
  }

  lemma {:induction false} WokenUpdate<J>(w: seq<Worker<J>>, i: nat, x: Worker<J>)
    requires i < |w|
    ensures WokenCount(w[i := x])
         == WokenCount(w) + (if x.Woken? then 1 else 0) - (if w[i].Woken? then 1 else 0)
  {
    if i == 0 {
      assert w[i := x][1..] == w[1..];
    } else {
      assert w[i := x][1..] == w[1..][i - 1 := x];
      WokenUpdate(w[1..], i - 1, x);
    }
  }

  /** Jobs are started in the order they were added; and while a worker sleeps, every queued job is matched
      by a signal still to come or a worker already on its way. */
  ghost predicate Inv<J>(s: State<J>) {
    && s.started + s.queue == s.added
    && (SomeWaiting(s) ==> |s.queue| <= s.owed + WokenCount(s.workers))
  }

  lemma StepKeepsInv<J>(s: State<J>, e: Event<J>)
    requires Inv(s) && Enabled(s, e)
    ensures Inv(Step(s, e))
  {
    var s' := Step(s, e);
    match e {
      case Enqueue(job) =>
        assert SomeWaiting(s') ==> SomeWaiting(s);
      case Signal(Some(i)) =>
        WokenUpdate(s.workers, i, Woken);
      case Signal(None) =>
        assert SomeWaiting(s') ==> SomeWaiting(s);
      case SpuriousWake(i) =>
        WokenUpdate(s.workers, i, Woken);
      case Look(i) =>
        if s.queue != [] {
          WokenUpdate(s.workers, i, Running(s.queue[0]));
          assert SomeWaiting(s') ==> SomeWaiting(s);
        }
      case Finish(i) =>
        WokenUpdate(s.workers, i, Ready);
        assert SomeWaiting(s') ==> SomeWaiting(s);
    }
  }

  ghost predicate Runs<J>(s: State<J>, es: seq<Event<J>>)
    decreases |es|
  {
    es == [] || (Enabled(s, es[0]) && Runs(Step(s, es[0]), es[1..]))
  }

  ghost function Exec<J>(s: State<J>, es: seq<Event<J>>): State<J>
    requires Runs(s, es)
    decreases |es|
  {
    if es == [] then s else Exec(Step(s, es[0]), es[1..])
  }

  lemma {:induction false} RunKeepsInv<J>(s: State<J>, es: seq<Event<J>>)
    requires Inv(s) && Runs(s, es)
    ensures Inv(Exec(s, es))
    decreases |es|
  {
    if es != [] {
      StepKeepsInv(s, es[0]);
      RunKeepsInv(Step(s, es[0]), es[1..]);
    }
  }

  ghost predicate Initial<J>(s: State<J>) {
    s.queue == [] && s.owed == 0 && s.added == [] && s.started == []
    && forall i :: 0 <= i < |s.workers| ==> s.workers[i].Ready?
  }

  /** In every reachable state the jobs started so far are exactly the first ones added, each once, in
      order, and the queue holds the others. */
  lemma StartedInOrder<J>(init: State<J>, es: seq<Event<J>>)
    requires Initial(init) && Runs(init, es)
    ensures var s := Exec(init, es);
            |s.started| <= |s.added| && s.started == s.added[..|s.started|] && s.queue == s.added[|s.started|..]
  {
    RunKeepsInv(init, es);
    var s := Exec(init, es);
    assert s.added == s.started + s.queue;
  }

  /** A worker that looks starts the oldest job if there is one, and waits otherwise. */
  lemma LookExact<J>(s: State<J>, i: nat)
    requires i < |s.workers| && (s.workers[i].Ready? || s.workers[i].Woken?)
    ensures Enabled(s, Look(i)) && var s' := Step(s, Look(i));
            if s.queue == [] then s' == s.(workers := s.workers[i := Waiting])
            else
              && s'.workers == s.workers[i := Running(s.queue[0])] && s'.started == s.started + [s.queue[0]]
              && s'.queue == s.queue[1..] && s'.added == s.added && s'.owed == s.owed
  {
  }

  /** No reachable state strands a job: if every worker waits unsignalled, the queue is no longer than the
      number of Adds that still owe their signal; in particular it is empty once all have signalled. */
  lemma NoStrandedJob<J>(init: State<J>, es: seq<Event<J>>)
    requires Initial(init) && Runs(init, es)
    requires forall i :: 0 <= i < |Exec(init, es).workers| ==> Exec(init, es).workers[i].Waiting?
    requires Exec(init, es).workers != []
    ensures |Exec(init, es).queue| <= Exec(init, es).owed
  {
    RunKeepsInv(init, es);
    var s := Exec(init, es);
    assert s.workers[0].Waiting?;
    NoneWoken(s.workers);
  }

  lemma {:induction false} NoneWoken<J>(w: seq<Worker<J>>)
    requires forall i :: 0 <= i < |w| ==> w[i].Waiting?
    ensures WokenCount(w) == 0
  {
    if w != [] { NoneWoken(w[1..]); }
  }

  /** Signalling every job wakes enough workers: while any worker sleeps, the jobs waiting do not outnumber
      the workers woken for them and the signals still owed. */
  lemma NoIdleWhileWork<J>(init: State<J>, es: seq<Event<J>>, i: nat)
    requires Initial(init) && Runs(init, es)
    requires i < |Exec(init, es).workers| && Exec(init, es).workers[i].Waiting?
    ensures |Exec(init, es).queue| <= Exec(init, es).owed + WokenCount(Exec(init, es).workers)
  {
    RunKeepsInv(init, es);
  }

  // ---- The linked queue ---------------------------------------------------------------------------------------

  class ClThreadPool<J> {
    const work: Queue<J>

    ghost predicate Valid()
      reads work, work.Repr
    {
      work.Valid()
    }

    constructor ()
      ensures Valid() && work.Contents() == [] && fresh(work.Repr)
    {
      work := new Queue<J>();
    }

    /** Between locking and unlocking in Add: the new node goes behind the rear, which is NULL exactly when
        the queue is empty. */
    method Enqueue(job: J)
      requires Valid()
      modifies work.Repr
      ensures Valid() && work.Contents() == Enqueued(old(work.Contents()), job) && work.size == old(work.size) + 1
      ensures work.Contents() == old(work.Contents()) + [job]
      ensures fresh(work.Repr - old(work.Repr))
    {
      hide Linked, Payloads;
      var worker := new Node(job);
      ghost var s := work.spine;
      assert worker !in s;
      LinkedOne(worker);
      if work.rear == null {
        work.front := worker;
        work.rear := worker;
      } else {
        LinkBehind(s, work.rear, worker);
        work.rear := worker;
      }
      work.size := work.size + 1;
      work.spine := s + [worker];
      assert s == [] ==> work.spine == [worker] && old(Payloads(s)) + [job] == [job];
      work.Repr := work.Repr + {worker};
    }

    /** What a worker does with the mutex held once it has seen a non-empty queue; None when it would wait. */
    method Take() returns (job: Option<J>)
      requires Valid()
      modifies work.Repr
      ensures Valid() && work.Repr == old(work.Repr)
      ensures (work.Contents(), job) == PopResult(old(work.Contents()))
      ensures var was := old(work.Contents());
              if was == [] then job == None && work.Contents() == []
              else job == Some(was[0]) && work.Contents() == was[1..]
      ensures work.size == |work.Contents()|
    {
      work.SizeIsLength();
      if work.size == 0 {
        return None;
      }
      ghost var s, c := work.spine, work.Contents();
      TailLinked(s);
      assert PopResult(c) == (c[1..], Some(s[0].data));
      hide Linked, Payloads, PopResult;
      var worker := work.front;
      work.front := worker.next;
      work.size := work.size - 1;
      if work.size == 0 {
        work.rear := null;
      }
      work.spine := s[1..];
      job := Some(worker.data);
    }
  }
}
