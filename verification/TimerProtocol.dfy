/**
 * Runs of the timer (common/timer.cpp): the sweeping thread and any number of threads that add and delete
 * timers.  Add locks twice, once to get an id and once to insert, so other steps come in between.
 */
module TimerProtocol {
  import opened Common
  import opened Timer

  /** A timer that has its id but is not in the list yet; stamp is the number of counter increments before. */
  datatype Pending = Pending(timer: Timer<nat>, stamp: nat)

  /** list, counter and pending are the program's state.  The rest is history: every Add gets a serial number,
      which stands for its callback; issued counts the ids handed out, advances the counter's increments and
      sweeps the sweeps; born is when a timer was inserted, log the callbacks run so far. */
  datatype State = State(list: seq<Timer<nat>>, counter: Word, pending: map<nat, Pending>,
                         issued: nat, advances: nat, sweeps: nat, born: map<nat, nat>, log: seq<nat>)

  datatype Event = Sweep | GetId(thread: nat, interval: Word) | Insert(thread: nat) | Delete(id: Word)

  ghost predicate Enabled(s: State, e: Event) {
    match e
    case GetId(thread, _) => thread !in s.pending && |s.list| < TWO32
    case Insert(thread) => thread in s.pending
    case _ => true
  }

  /** How far GetTimerID moves the counter. */
  ghost function Moves(s: State): (k: nat)
    requires |s.list| < TWO32
    ensures 0 < k <= |s.list| + 1
  {
    Tries(s.list, s.counter, 0)
  }

  ghost function Step(s: State, e: Event): State
    requires Enabled(s, e)
  {
    match e
    case Sweep => s.(list := Swept(s.list), log := s.log + Callbacks(s.list), sweeps := s.sweeps + 1)
    case GetId(thread, interval) =>
      var id, stamp := After(s.counter, Moves(s)), s.advances + Moves(s);
      s.(counter := id, advances := stamp, issued := s.issued + 1,
         pending := s.pending[thread := Pending(Timer(id, interval, 0, s.issued), stamp)])
    case Insert(thread) =>
      var t := s.pending[thread].timer;
      s.(list := [t] + s.list, pending := s.pending - {thread}, born := s.born[t.cmd := s.sweeps])
    case Delete(id) => s.(list := Deleted(s.list, id))
  }

  ghost predicate Runs(s: State, es: seq<Event>)
    decreases |es|
  {
    es == [] || (Enabled(s, es[0]) && Runs(Step(s, es[0]), es[1..]))
  }

  ghost function Exec(s: State, es: seq<Event>): State
    requires Runs(s, es)
    decreases |es|
  {
    if es == [] then s else Exec(Step(s, es[0]), es[1..])
  }

  ghost predicate Initial(s: State) {
    s == State([], s.counter, map[], 0, 0, 0, map[], [])
  }

  // ---- Firing ------------------------------------------------------------------------------------------------

  function Count(log: seq<nat>, x: nat): nat {
    if log == [] then 0 else Count(log[..|log| - 1], x) + if log[|log| - 1] == x then 1 else 0
  }

  lemma {:induction false} CountConcat(a: seq<nat>, b: seq<nat>, x: nat)
    ensures Count(a + b, x) == Count(a, x) + Count(b, x)
  {
    if b == [] {
      assert a + b == a;
    } else {
      var last := |b| - 1;
      assert (a + b)[..|a + b| - 1] == a + b[..last];
      CountConcat(a, b[..last], x);
    }
  }

  ghost predicate DistinctCmds(list: seq<Timer<nat>>) {
    forall i, j :: 0 <= i < j < |list| ==> list[i].cmd != list[j].cmd
  }

  lemma {:induction false} CallbacksOthers(list: seq<Timer<nat>>, x: nat)
    requires forall i :: 0 <= i < |list| ==> list[i].cmd != x
    ensures Count(Callbacks(list), x) == 0
  {
    if list != [] {
      var last := |list| - 1;
      CallbacksOthers(list[..last], x);
      CountConcat(Callbacks(list[..last]), if Due(list[last]) then [list[last].cmd] else [], x);
    }
  }

  /** A sweep runs the callback of each timer once if it is due and not at all otherwise. */
  lemma {:induction false} CallbacksOnce(list: seq<Timer<nat>>, i: nat)
    requires DistinctCmds(list) && i < |list|
    ensures Count(Callbacks(list), list[i].cmd) == if Due(list[i]) then 1 else 0
  {
    var last := |list| - 1;
    var x := list[i].cmd;
    CountConcat(Callbacks(list[..last]), if Due(list[last]) then [list[last].cmd] else [], x);
    if i < last {
      CallbacksOnce(list[..last], i);
    } else {
      CallbacksOthers(list[..last], x);
    }
  }

  /** A listed timer that was inserted `age` sweeps ago has counted age mod its period and fired once for
      every completed period. */
  ghost predicate OnTime(t: Timer<nat>, age: nat, log: seq<nat>) {
    var p := Period(t.interval);
    t.elapse == age % p && Count(log, t.cmd) == age / p
  }

  ghost predicate Listed(s: State, t: Timer<nat>) {
    t.cmd < s.issued && t.cmd in s.born && s.born[t.cmd] <= s.sweeps && OnTime(t, s.sweeps - s.born[t.cmd], s.log)
  }

  ghost predicate Unlisted(s: State, p: Pending) {
    && p.timer.cmd < s.issued && p.timer.elapse == 0 && Count(s.log, p.timer.cmd) == 0
    && forall i :: 0 <= i < |s.list| ==> s.list[i].cmd != p.timer.cmd
  }

  ghost predicate FireInv(s: State) {
    && DistinctCmds(s.list)
    && (forall i :: 0 <= i < |s.list| ==> Listed(s, s.list[i]))
    && (forall k :: k in s.pending ==> Unlisted(s, s.pending[k]))
    && (forall j, k :: j in s.pending && k in s.pending && j != k ==> s.pending[j].timer.cmd != s.pending[k].timer.cmd)
    && (forall x :: x >= s.issued ==> Count(s.log, x) == 0)
  }

  lemma SweepKeepsFire(s: State)
    requires FireInv(s)
    ensures FireInv(Step(s, Sweep))
  {
    var s' := Step(s, Sweep);
    hide Count, Callbacks, Due;
    forall i | 0 <= i < |s.list| ensures Listed(s', s'.list[i]) {
      var t := s.list[i];
      assert Listed(s, t);
      var age := s.sweeps - s.born[t.cmd];
      TickAfter(t, age);
      CountConcat(s.log, Callbacks(s.list), t.cmd);
      CallbacksOnce(s.list, i);
      assert OnTime(Tick(t), age + 1, s'.log);
    }
    forall k | k in s.pending ensures Unlisted(s', s'.pending[k]) {
      assert Unlisted(s, s.pending[k]);
      CountConcat(s.log, Callbacks(s.list), s.pending[k].timer.cmd);
      CallbacksOthers(s.list, s.pending[k].timer.cmd);
    }
    forall x | x >= s.issued ensures Count(s'.log, x) == 0 {
      CountConcat(s.log, Callbacks(s.list), x);
      forall i | 0 <= i < |s.list| ensures s.list[i].cmd != x { assert Listed(s, s.list[i]); }
      CallbacksOthers(s.list, x);
    }
  }

  lemma GetIdKeepsFire(s: State, thread: nat, interval: Word)
    requires FireInv(s) && Enabled(s, GetId(thread, interval))
    ensures FireInv(Step(s, GetId(thread, interval)))
  {
    hide Count, OnTime, Tries, After;
    var s' := Step(s, GetId(thread, interval));
    forall i | 0 <= i < |s.list| ensures s.list[i].cmd < s.issued && Listed(s', s.list[i]) {
      assert Listed(s, s.list[i]);
    }
    forall k | k in s.pending ensures s.pending[k].timer.cmd < s.issued && Unlisted(s', s.pending[k]) {
      assert Unlisted(s, s.pending[k]);
    }
    assert Unlisted(s', s'.pending[thread]);
    hide Listed, Unlisted;
  }

  lemma DeleteKeepsFire(s: State, id: Word)
    requires FireInv(s)
    ensures FireInv(Step(s, Delete(id)))
  {
    hide Count, OnTime;
    var s' := Step(s, Delete(id));
    var k := First(s.list, id);
    hide First;
    if k < |s.list| {
      assert forall i :: 0 <= i < |s'.list| ==> s'.list[i] == s.list[if i < k then i else i + 1];
      forall i | 0 <= i < |s'.list| ensures Listed(s', s'.list[i]) {
        assert Listed(s, s'.list[i]);
      }
      forall p | p in s.pending ensures Unlisted(s', s'.pending[p]) { assert Unlisted(s, s.pending[p]); }
    }
  }

  lemma InsertKeepsFire(s: State, thread: nat)
    requires FireInv(s) && Enabled(s, Insert(thread))
    ensures FireInv(Step(s, Insert(thread)))
  {
    var s' := Step(s, Insert(thread));
    var t := s.pending[thread].timer;
    assert Unlisted(s, s.pending[thread]);
    assert OnTime(t, 0, s.log);
    hide Count, OnTime;
    forall i | 0 <= i < |s'.list| ensures Listed(s', s'.list[i]) {
      assert i > 0 ==> Listed(s, s'.list[i]) && s'.list[i].cmd != t.cmd;
    }
    forall k | k in s'.pending ensures Unlisted(s', s'.pending[k]) {
      assert Unlisted(s, s.pending[k]);
    }
  }

  lemma StepKeepsFire(s: State, e: Event)
    requires FireInv(s) && Enabled(s, e)
    ensures FireInv(Step(s, e))
  {
    hide FireInv, Step, Enabled;
    match e {
      case Sweep => SweepKeepsFire(s);
      case GetId(thread, interval) => GetIdKeepsFire(s, thread, interval);
      case Insert(thread) => InsertKeepsFire(s, thread);
      case Delete(id) => DeleteKeepsFire(s, id);
    }
  }

  /** In every reachable state, whatever else was added and deleted: a listed timer inserted n sweeps ago has
      fired floor(n / I) times and stands at n mod I, I being its interval, or one if that is zero. */
  lemma {:induction false} FiresExactly(init: State, es: seq<Event>, i: nat)
    requires Initial(init) && Runs(init, es) && i < |Exec(init, es).list|
    ensures var s := Exec(init, es);
            var t := s.list[i];
            t.cmd in s.born && s.born[t.cmd] <= s.sweeps
            && var n, I := s.sweeps - s.born[t.cmd], Period(t.interval);
               Count(s.log, t.cmd) == n / I && t.elapse == n % I
  {
    RunKeepsFire(init, es);
    var s := Exec(init, es);
    assert Listed(s, s.list[i]);
  }

  lemma {:induction false} RunKeepsFire(s: State, es: seq<Event>)
    requires FireInv(s) && Runs(s, es)
    ensures FireInv(Exec(s, es))
    decreases |es|
  {
    if es != [] {
      StepKeepsFire(s, es[0]);
      RunKeepsFire(Step(s, es[0]), es[1..]);
    }
  }

  // ---- Identifiers -------------------------------------------------------------------------------------------

  /** The ids of the listed timers and of those about to be inserted are all different. */
  ghost predicate DistinctIds(s: State) {
    && (forall i, j :: 0 <= i < j < |s.list| ==> s.list[i].id != s.list[j].id)
    && (forall j, k :: j in s.pending && k in s.pending && j != k ==> s.pending[j].timer.id != s.pending[k].timer.id)
    && (forall i, k :: 0 <= i < |s.list| && k in s.pending ==> s.list[i].id != s.pending[k].timer.id)
  }

  /** A pending timer's id is what the counter was at its stamp. */
  ghost predicate Stamped(s: State) {
    forall k :: k in s.pending ==>
      s.pending[k].stamp <= s.advances && After(s.pending[k].timer.id, s.advances - s.pending[k].stamp) == s.counter
  }

  /** The counter has not come full circle since a pending timer got its id. */
  ghost predicate NoFullCircle(s: State, e: Event)
    requires Enabled(s, e)
  {
    e.GetId? ==> forall k :: k in s.pending ==> !FullCircle(s.advances + Moves(s) - s.pending[k].stamp)
  }

  predicate FullCircle(increments: int) {
    increments % TWO32 == 0
  }

  lemma MovesToFree(s: State, thread: nat, interval: Word)
    requires Enabled(s, GetId(thread, interval))
    ensures forall i :: 0 <= i < |s.list| ==> s.list[i].id != Step(s, GetId(thread, interval)).counter
  {
    var id := After(s.counter, Moves(s));
    assert !Used(s.list, id);
  }

  /** The new id meets a pending one exactly when the counter has moved a multiple of 2^32 since. */
  lemma GetIdMeets(s: State, thread: nat, interval: Word, k: nat)
    requires Stamped(s) && Enabled(s, GetId(thread, interval)) && k in s.pending
    ensures var s' := Step(s, GetId(thread, interval));
            var p := s.pending[k];
            && p.stamp <= s'.advances && After(p.timer.id, s'.advances - p.stamp) == s'.counter
            && (s'.counter == p.timer.id <==> FullCircle(s'.advances - p.stamp))
  {
    hide Tries;
    var p := s.pending[k];
    AfterAdd(p.timer.id, s.advances - p.stamp, Moves(s));
    AfterReturns(p.timer.id, s.advances + Moves(s) - p.stamp);
  }

  lemma PendingAdded(s: State, s': State, thread: nat, p: Pending)
    requires DistinctIds(s) && thread !in s.pending && s'.list == s.list && s'.pending == s.pending[thread := p]
    requires forall i :: 0 <= i < |s.list| ==> s.list[i].id != p.timer.id
    ensures DistinctIds(s') <==> forall k :: k in s.pending ==> s.pending[k].timer.id != p.timer.id
  {
    assert s'.pending[thread] == p;
    if DistinctIds(s') {
      forall k | k in s.pending ensures s.pending[k].timer.id != p.timer.id {
        assert s'.pending[k] == s.pending[k];
      }
    }
  }

  lemma GetIdDistinct(s: State, thread: nat, interval: Word)
    requires DistinctIds(s) && Stamped(s) && Enabled(s, GetId(thread, interval))
    ensures Stamped(Step(s, GetId(thread, interval)))
    ensures DistinctIds(Step(s, GetId(thread, interval))) <==> NoFullCircle(s, GetId(thread, interval))
  {
    hide After, Tries, FullCircle;
    var e := GetId(thread, interval);
    var s' := Step(s, e);
    MovesToFree(s, thread, interval);
    AfterZero(s'.counter);
    forall k | k in s.pending
      ensures s.pending[k].stamp <= s'.advances
      ensures After(s.pending[k].timer.id, s'.advances - s.pending[k].stamp) == s'.counter
    {
      GetIdMeets(s, thread, interval, k);
    }
    forall k | k in s.pending
      ensures s.pending[k].timer.id == s'.counter <==> FullCircle(s.advances + Moves(s) - s.pending[k].stamp)
    {
      GetIdMeets(s, thread, interval, k);
    }
    var p := s'.pending[thread];
    assert p.timer.id == s'.counter && p.stamp == s'.advances;
    assert s'.pending == s.pending[thread := p] && s'.list == s.list;
    hide Moves, DistinctIds, Stamped, Step;
    PendingAdded(s, s', thread, p);
    StampedAdded(s, s', thread);
  }

  lemma StampedAdded(s: State, s': State, thread: nat)
    requires thread in s'.pending && s'.pending == s.pending[thread := s'.pending[thread]]
    requires s'.pending[thread].stamp == s'.advances && After(s'.pending[thread].timer.id, 0) == s'.counter
    requires forall k :: k in s.pending ==>
      s.pending[k].stamp <= s'.advances && After(s.pending[k].timer.id, s'.advances - s.pending[k].stamp) == s'.counter
    ensures Stamped(s')
  {
    hide After;
    assert forall k :: k in s'.pending && k != thread ==> s'.pending[k] == s.pending[k];
  }

  /** One step of any thread keeps the ids distinct exactly unless a new id is handed out after the counter has
      come full circle since some pending timer got its own. */
  lemma StepIdsExact(s: State, e: Event)
    requires DistinctIds(s) && Stamped(s) && Enabled(s, e)
    ensures Stamped(Step(s, e)) && (DistinctIds(Step(s, e)) <==> NoFullCircle(s, e))
  {
    hide After, Tries, FullCircle;
    match e {
      case Sweep => assert Step(s, e).list == Swept(s.list);
      case GetId(thread, interval) => GetIdDistinct(s, thread, interval);
      case Insert(thread) =>
      case Delete(id) => DeleteDistinct(s, id);
    }
  }

  lemma DeleteDistinct(s: State, id: Word)
    requires DistinctIds(s) && Stamped(s)
    ensures DistinctIds(Step(s, Delete(id))) && Stamped(Step(s, Delete(id)))
  {
    hide After;
    var k := First(s.list, id);
    hide First;
    var s' := Step(s, Delete(id));
    if k < |s.list| {
      assert forall i :: 0 <= i < |s'.list| ==> s'.list[i] == s.list[if i < k then i else i + 1];
    }
  }

  /** Between getting its id and being inserted, no timer sees the counter move 2^32 times or more. */
  ghost predicate Prompt(s: State, es: seq<Event>)
    requires Runs(s, es)
    decreases |es|
  {
    es != [] ==>
      && (es[0].GetId? ==> forall k :: k in s.pending ==> s.advances + Moves(s) - s.pending[k].stamp < TWO32)
      && Prompt(Step(s, es[0]), es[1..])
  }

  lemma PromptIsNoFullCircle(s: State, e: Event)
    requires Stamped(s) && Enabled(s, e)
    requires e.GetId? ==> forall k :: k in s.pending ==> s.advances + Moves(s) - s.pending[k].stamp < TWO32
    ensures NoFullCircle(s, e)
  {
    if e.GetId? {
      forall k | k in s.pending ensures !FullCircle(s.advances + Moves(s) - s.pending[k].stamp) {
        var gap := s.advances + Moves(s) - s.pending[k].stamp;
        hide Moves, After;
        DivModUnique(gap, TWO32, 0, gap);
      }
    }
  }

  lemma {:induction false} PromptRunKeepsIds(s: State, es: seq<Event>)
    requires DistinctIds(s) && Stamped(s) && Runs(s, es) && Prompt(s, es)
    ensures DistinctIds(Exec(s, es)) && Stamped(Exec(s, es))
    decreases |es|
  {
    hide DistinctIds, Stamped, Step, Enabled, NoFullCircle;
    if es != [] {
      PromptIsNoFullCircle(s, es[0]);
      StepIdsExact(s, es[0]);
      PromptRunKeepsIds(Step(s, es[0]), es[1..]);
    }
  }

  /** However Adds and Deletes interleave, listed and pending timers all have different ids, provided fewer than
      2^32 counter increments fall between any timer's two lockings. */
  lemma IdsStayDistinct(init: State, es: seq<Event>)
    requires Initial(init) && Runs(init, es) && Prompt(init, es)
    ensures DistinctIds(Exec(init, es))
  {
    PromptRunKeepsIds(init, es);
  }

  // ---- A bound a caller can see ------------------------------------------------------------------------------------

  /** At most `listed` timers are in the list whenever an id is handed out, and at most `ids` are handed out while a
      timer is between its two lockings. */
  ghost predicate Budgeted(s: State, es: seq<Event>, listed: nat, ids: nat)
    requires Runs(s, es)
    decreases |es|
  {
    es != [] ==>
      && (es[0].GetId? ==>
            |s.list| <= listed && forall k :: k in s.pending ==> s.issued - s.pending[k].timer.cmd <= ids)
      && Budgeted(Step(s, es[0]), es[1..], listed, ids)
  }

  /** Handing out an id moves the counter by no more than one for each listed timer and one. */
  ghost predicate Paced(s: State, p: Pending, listed: nat) {
    p.stamp <= s.advances && p.timer.cmd < s.issued
    && s.advances - p.stamp <= (s.issued - 1 - p.timer.cmd) * (listed + 1)
  }

  lemma PaceStep(s: State, p: Pending, listed: nat, moves: nat, ids: nat)
    requires Paced(s, p, listed) && moves <= listed + 1
    ensures s.advances + moves - p.stamp <= (s.issued - p.timer.cmd) * (listed + 1)
    ensures s.issued - p.timer.cmd <= ids ==> s.advances + moves - p.stamp <= ids * (listed + 1)
  {
    var d, c := s.issued - 1 - p.timer.cmd, listed + 1;
    assert (d + 1) * c == d * c + c;
    if d + 1 <= ids {
      var more := ids - (d + 1);
      assert ids * c == (d + 1) * c + more * c;
      if more > 0 { MulMagnitude(more, c); }
    }
  }

  lemma GetIdKeepsPace(s: State, thread: nat, interval: Word, p: Pending, listed: nat, ids: nat)
    requires Enabled(s, GetId(thread, interval)) && Paced(s, p, listed)
    requires |s.list| <= listed && s.issued - p.timer.cmd <= ids
    ensures Paced(Step(s, GetId(thread, interval)), p, listed)
    ensures s.advances + Moves(s) - p.stamp <= ids * (listed + 1)
  {
    PaceStep(s, p, listed, Moves(s), ids);
    hide After, Moves;
  }

  lemma StepKeepsPace(s: State, e: Event, listed: nat, ids: nat)
    requires Enabled(s, e) && forall k :: k in s.pending ==> Paced(s, s.pending[k], listed)
    requires e.GetId? ==> |s.list| <= listed && forall k :: k in s.pending ==> s.issued - s.pending[k].timer.cmd <= ids
    ensures forall k :: k in Step(s, e).pending ==> Paced(Step(s, e), Step(s, e).pending[k], listed)
    ensures e.GetId? ==> forall k :: k in s.pending ==> s.advances + Moves(s) - s.pending[k].stamp <= ids * (listed + 1)
  {
    hide After, Moves;
    var s' := Step(s, e);
    match e {
      case GetId(thread, interval) =>
        assert Paced(s', s'.pending[thread], listed);
        hide Paced;
        forall k | k in s.pending
          ensures s.advances + Moves(s) - s.pending[k].stamp <= ids * (listed + 1) && Paced(s', s.pending[k], listed)
        {
          GetIdKeepsPace(s, thread, interval, s.pending[k], listed, ids);
        }
      case _ =>
        forall k | k in s'.pending ensures Paced(s', s'.pending[k], listed) {
          assert Paced(s, s.pending[k], listed);
        }
    }
  }

  lemma {:induction false} BudgetedIsPrompt(s: State, es: seq<Event>, listed: nat, ids: nat)
    requires Runs(s, es) && Budgeted(s, es, listed, ids) && ids * (listed + 1) < TWO32
    requires forall k :: k in s.pending ==> Paced(s, s.pending[k], listed)
    ensures Prompt(s, es)
    decreases |es|
  {
    hide Paced, Step;
    if es != [] {
      StepKeepsPace(s, es[0], listed, ids);
      BudgetedIsPrompt(Step(s, es[0]), es[1..], listed, ids);
    }
  }

  /** With at most L timers listed whenever an id is handed out, and at most k ids handed out between any timer's
      two lockings, all ids stay distinct as long as k * (L + 1) is below 2^32. */
  lemma IdsWithinBudget(init: State, es: seq<Event>, listed: nat, ids: nat)
    requires Initial(init) && Runs(init, es) && Budgeted(init, es, listed, ids) && ids * (listed + 1) < TWO32
    ensures DistinctIds(Exec(init, es))
  {
    BudgetedIsPrompt(init, es, listed, ids);
    IdsStayDistinct(init, es);
  }

  // ---- The bound is on increments, not on ids ---------------------------------------------------------------------

  /** Adding a timer and deleting it again, over and over, from a state with one listed timer. */
  lemma {:induction false} Churn(s: State, t0: Timer<nat>, k: nat) returns (es: seq<Event>)
    requires s.list == [t0] && s.pending.Keys == {0}
    requires forall j :: 1 <= j <= k ==> After(s.counter, j) != t0.id
    ensures Runs(s, es)
    ensures var s' := Exec(s, es);
            && s'.list == s.list && s'.pending == s.pending && s'.counter == After(s.counter, k)
            && s'.issued == s.issued + k && s'.advances == s.advances + k
    decreases k
  {
    hide After, Step, Enabled;
    AfterZero(s.counter);
    if k == 0 {
      es := [];
    } else {
      var s' := Round(s, t0);
      StillFree(s.counter, t0.id, k);
      var rest := Churn(s', t0, k - 1);
      es := [GetId(1, 0), Insert(1), Delete(s'.counter)] + rest;
      ExecThree(s, GetId(1, 0), Insert(1), Delete(s'.counter), rest);
    }
  }

  lemma StillFree(c: Word, id: Word, k: nat)
    requires k >= 1 && forall j :: 1 <= j <= k ==> After(c, j) != id
    ensures forall j :: 1 <= j <= k - 1 ==> After(After(c, 1), j) != id
    ensures After(After(c, 1), k - 1) == After(c, k)
  {
    hide After;
    forall j | 0 <= j <= k - 1 ensures After(After(c, 1), j) == After(c, 1 + j) {
      AfterAdd(c, 1, j);
    }
  }

  lemma ExecThree(s: State, e0: Event, e1: Event, e2: Event, rest: seq<Event>)
    requires Enabled(s, e0) && Enabled(Step(s, e0), e1) && Enabled(Step(Step(s, e0), e1), e2)
    requires Runs(Step(Step(Step(s, e0), e1), e2), rest)
    ensures Runs(s, [e0, e1, e2] + rest)
    ensures Exec(s, [e0, e1, e2] + rest) == Exec(Step(Step(Step(s, e0), e1), e2), rest)
  {
    hide Step, Enabled;
    var s1 := Step(s, e0);
    var s2 := Step(s1, e1);
    var es := [e0, e1, e2] + rest;
    assert es[1..] == [e1, e2] + rest && ([e1, e2] + rest)[1..] == [e2] + rest && ([e2] + rest)[1..] == rest;
    var s3 := Step(s2, e2);
    assert Runs(s2, [e2] + rest) && Exec(s2, [e2] + rest) == Exec(s3, rest);
    assert Runs(s1, [e1, e2] + rest) && Exec(s1, [e1, e2] + rest) == Exec(s3, rest);
    assert Runs(s, es) && Exec(s, es) == Exec(s3, rest);
  }

  lemma Round(s: State, t0: Timer<nat>) returns (s': State)
    requires s.list == [t0] && s.pending.Keys == {0} && After(s.counter, 1) != t0.id
    ensures var e0, e1, e2 := GetId(1, 0), Insert(1), Delete(s'.counter);
            && Enabled(s, e0) && Enabled(Step(s, e0), e1) && Enabled(Step(Step(s, e0), e1), e2)
            && s' == Step(Step(Step(s, e0), e1), e2)
    ensures s'.list == s.list && s'.pending == s.pending && s'.counter == After(s.counter, 1)
    ensures s'.issued == s.issued + 1 && s'.advances == s.advances + 1
  {
    assert !Used(s.list, After(s.counter, 1));
    assert Moves(s) == 1;
    hide After, Tries, Moves;
    var s1 := Step(s, GetId(1, 0));
    var s2 := Step(s1, Insert(1));
    var id := s1.counter;
    assert s2.list == [s1.pending[1].timer] + s.list && s2.list[0].id == id;
    s' := Step(s2, Delete(id));
    assert First(s2.list, id) == 0;
    assert s'.list == s.list;
    assert s'.pending == s.pending;
  }

  lemma {:induction false} ExecAppend(s: State, es: seq<Event>, e: Event)
    requires Runs(s, es) && Enabled(Exec(s, es), e)
    ensures Runs(s, es + [e]) && Exec(s, es + [e]) == Step(Exec(s, es), e)
    decreases |es|
  {
    hide Step, Enabled;
    if es == [] {
      assert es + [e] == [e] && [e][1..] == [];
      assert Runs(Step(s, e), []);
    } else {
      ExecAppend(Step(s, es[0]), es[1..], e);
      assert (es + [e])[1..] == es[1..] + [e];
    }
  }

  /** One timer with id 1 listed, another with id 2 pending. */
  lemma OneListedOnePending(init: State) returns (es: seq<Event>)
    requires Initial(init) && init.counter == 0
    ensures Runs(init, es)
    ensures var s := Exec(init, es);
            && s.list == [Timer(1, 0, 0, 0)] && s.pending == map[0 := Pending(Timer(2, 0, 0, 1), 2)]
            && s.counter == 2 && s.issued == 2
  {
    var e0, e1, e2 := GetId(1, 0), Insert(1), GetId(0, 0);
    assert After(0, 1) == 1 && After(1, 1) == 2;
    var s1 := Step(init, e0);
    assert !Used(init.list, 1) && Moves(init) == 1;
    var s2 := Step(s1, e1);
    assert s2.list == [Timer(1, 0, 0, 0)] && s2.pending == map[];
    assert !Used(s2.list, 2) && Moves(s2) == 1;
    ExecAppend(init, [], e0);
    ExecAppend(init, [e0], e1);
    ExecAppend(init, [e0] + [e1], e2);
    es := [e0] + [e1] + [e2];
  }

  /** Fewer than 2^32 ids handed out while a timer is pending do not suffice: ids skipped because they are taken
      move the counter as well.  Here 2^32 - 1 ids are handed out, and the last one repeats the pending id. */
  lemma FewerIdsStillCollide(init: State) returns (es: seq<Event>, es': seq<Event>)
    requires Initial(init) && init.counter == 0
    ensures Runs(init, es) && DistinctIds(Exec(init, es)) && Runs(Exec(init, es), es')
    ensures var s, s' := Exec(init, es), Exec(Exec(init, es), es');
            && 0 in s.pending && 0 in s'.pending && s.pending[0] == s'.pending[0]
            && s'.issued - s.issued == TWO32 - 1 && !DistinctIds(s')
  {
    es := OneListedOnePending(init);
    var s := Exec(init, es);
    forall j | 1 <= j <= TWO32 - 2 ensures After(2, j) != 1 {
    }
    assert After(2, TWO32 - 2) == 0 && After(0, 1) == 1 && After(0, 2) == 2;
    var t0 := s.list[0];
    hide Exec, Runs;
    var churn := Churn(s, t0, TWO32 - 2);
    var s' := Exec(s, churn);
    assert Used(s'.list, 1) && !Used(s'.list, 2) && Moves(s') == 2;
    var e := GetId(1, 0);
    hide After, Tries, Moves;
    ExecAppend(s, churn, e);
    es' := churn + [e];
    assert Step(s', e).pending[1].timer.id == 2;
  }

  /** GetTimerID and the insertion in a row are Add: a timer with elapse 0 and an id that no listed timer has comes in
      front, and the counter stands at its id. */
  lemma StepsAreAdd(s: State, thread: nat, interval: Word)
    requires Enabled(s, GetId(thread, interval))
    ensures var s1 := Step(s, GetId(thread, interval));
            Enabled(s1, Insert(thread)) && var s2 := Step(s1, Insert(thread));
            && s2.list == [Timer(s2.counter, interval, 0, s.issued)] + s.list && !Used(s.list, s2.counter)
            && s2.pending == s.pending && s2.issued == s.issued + 1 && s2.log == s.log
            && s2.born == s.born[s.issued := s.sweeps]
            && s2.counter == After(s.counter, Moves(s))
            && forall j :: 1 <= j < Moves(s) ==> Used(s.list, After(s.counter, j))
  {
    hide After, Used;
    var last := Tries(s.list, s.counter, 0);
    assert s.pending[thread := Step(s, GetId(thread, interval)).pending[thread]] - {thread} == s.pending;
  }
}
