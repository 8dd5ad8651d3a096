/**
 * The bounded ring list (common/ringList.cpp): Put drops the oldest element when the list is full and signals
 * only when the size becomes one; Pop and Get wait when they find it empty, and return without looking again.
 */
module RingList {
  import opened Common
  import opened Chain
  import opened LinkedQueue

  type Bytes = seq<bv8>

  /** What Put is given: None for a NULL pointer or a length that is not positive. */
  type Item = Option<Bytes>

  class CRingList {
    const list: Queue<Bytes>
    var max: nat
    var blockFlag: bool

    ghost predicate Valid()
      reads this, list, list.Repr
    {
      this !in list.Repr && list.Valid() && list.size <= max
    }

    constructor (max: nat)
      ensures Valid() && list.Contents() == [] && this.max == max && !blockFlag
      ensures fresh(list.Repr)
    {
      list := new Queue<Bytes>();
      this.max, blockFlag := max, false;
    }

    method AddNode(x: Item) returns (ret: int)
      requires list.Valid()
      modifies list.Repr
      ensures list.Valid() && ret == if x.None? then -1 else 0
      ensures list.Contents() == if x.None? then old(list.Contents()) else old(list.Contents()) + [x.value]
      ensures fresh(list.Repr - old(list.Repr))
    {
      ret := -1;
      if x.Some? {
        list.AddNode(x.value);
        ret := 0;
      }
    }

    /** signalled: does this call signal the condition variable? */
    method Put(x: Item) returns (ret: int, signalled: bool)
      requires Valid()
      modifies list.Repr
      ensures Valid() && (list.Contents(), ret) == PutResult(old(list.Contents()), max, x)
      ensures var was := old(list.Contents());
              var rest := if |was| == max && was != [] then was[1..] else was;
              if x.None? || max == 0 then ret == -1 && list.Contents() == rest
              else ret == 0 && list.Contents() == rest + [x.value]
      ensures signalled == (blockFlag && ret == 0 && |list.Contents()| == 1)
      ensures fresh(list.Repr - old(list.Repr))
    {
      list.SizeIsLength();
      hide Queue.Valid, Queue.Contents, Linked, Ends;
      ret := 0;
      signalled := false;
      if list.size == max {
        ret := list.DelNode();
      }
      if ret == 0 {
        ret := AddNode(x);
        list.SizeIsLength();
        if blockFlag && ret == 0 && list.size == 1 {
          signalled := true;
        }
      }
    }

    /** The oldest element, left in place; waits: does the caller go to sleep first? */
    method Get() returns (ret: int, x: Item, waits: bool)
      requires Valid()
      ensures x == PopResult(list.Contents()).1
      ensures x == if list.Contents() == [] then None else Some(list.Contents()[0])
      ensures ret == (if x.Some? then 0 else -1) && waits == (x.None? && blockFlag)
    {
      ret, x, waits := -1, None, false;
      if list.size > 0 {
        x := Some(list.front.data);
        ret := 0;
      } else if blockFlag {
        waits := true;
      }
    }

    method Pop() returns (ret: int, x: Item, waits: bool)
      requires Valid()
      modifies list.Repr
      ensures Valid() && list.Repr == old(list.Repr)
      ensures (list.Contents(), x) == PopResult(old(list.Contents()))
      ensures var was := old(list.Contents());
              if was == [] then x == None && list.Contents() == [] else x == Some(was[0]) && list.Contents() == was[1..]
      ensures ret == (if x.Some? then 0 else -1) && waits == (x.None? && blockFlag)
    {
      ret, x, waits := -1, None, false;
      if list.size > 0 {
        x := Some(list.front.data);
        ret := 0;
      } else if blockFlag {
        waits := true;
      }
      if ret == 0 {
        var r := list.DelNode();
      }
    }
  }

  // ---- The signalling protocol ---------------------------------------------------------------------------------

  datatype Consumer =
    | Ready    // outside, about to call Pop or Get
    | Waiting  // asleep on the condition variable, not signalled
    | Woken    // signalled; will get the mutex back and return -1

  datatype State<T> = State(list: seq<T>, max: nat, consumers: seq<Consumer>)

  datatype Event<T> =
    | Put(x: Option<T>, wakes: Option<nat>)
    | Pop(i: nat)
    | Get(i: nat)
    | Return(i: nat)
    | SpuriousWake(i: nat)
    | Delete

  ghost predicate SomeWaiting<T>(s: State<T>) {
    exists i :: 0 <= i < |s.consumers| && s.consumers[i].Waiting?
  }

  /** Put signals when it made the size one; a signal wakes a waiting consumer if there is one. */
  ghost predicate Enabled<T>(s: State<T>, e: Event<T>) {
    match e
    case Put(x, wakes) =>
      var (list', ret) := PutResult(s.list, s.max, x);
      (wakes.Some? ==> ret == 0 && |list'| == 1 && wakes.value < |s.consumers| && s.consumers[wakes.value].Waiting?)
      && (wakes.None? ==> !(ret == 0 && |list'| == 1 && SomeWaiting(s)))
    case Pop(i) => i < |s.consumers| && s.consumers[i].Ready?
    case Get(i) => i < |s.consumers| && s.consumers[i].Ready?
    case Return(i) => i < |s.consumers| && s.consumers[i].Woken?
    case SpuriousWake(i) => i < |s.consumers| && s.consumers[i].Waiting?
    case Delete => true
  }

  ghost function Step<T>(s: State<T>, e: Event<T>): State<T>
    requires Enabled(s, e)
  {
    match e
    case Put(x, wakes) =>
      var s' := s.(list := PutResult(s.list, s.max, x).0);
      if wakes.Some? then s'.(consumers := s.consumers[wakes.value := Woken]) else s'
    case Pop(i) =>
      if s.list == [] then s.(consumers := s.consumers[i := Waiting]) else s.(list := PopResult(s.list).0)
    case Get(i) => if s.list == [] then s.(consumers := s.consumers[i := Waiting]) else s
    case Return(i) => s.(consumers := s.consumers[i := Ready])
    case SpuriousWake(i) => s.(consumers := s.consumers[i := Woken])
    case Delete => s.(list := PopResult(s.list).0)
  }

  /** While the list holds something, some consumer is awake. */
  ghost predicate Inv<T>(s: State<T>) {
    && |s.list| <= s.max
    && (s.list != [] ==> exists i :: 0 <= i < |s.consumers| && !s.consumers[i].Waiting?)
  }

  lemma StepKeepsInv<T>(s: State<T>, e: Event<T>)
    requires Inv(s) && Enabled(s, e) && s.max >= 1 && s.consumers != []
    ensures Inv(Step(s, e)) && Step(s, e).max == s.max && |Step(s, e).consumers| == |s.consumers|
  {
    var s' := Step(s, e);
    match e {
      case Put(x, wakes) =>
        if wakes.Some? {
          assert !s'.consumers[wakes.value].Waiting?;
        } else if s.list == [] {
          if s'.list != [] {
            assert !SomeWaiting(s);
            assert !s'.consumers[0].Waiting?;
          }
        } else if s.max == 1 && x.Some? {
          assert !SomeWaiting(s);
          assert !s'.consumers[0].Waiting?;
        } else {
          var i :| 0 <= i < |s.consumers| && !s.consumers[i].Waiting?;
          assert !s'.consumers[i].Waiting?;
        }
      case Return(i) =>
        assert !s'.consumers[i].Waiting?;
      case SpuriousWake(i) =>
        assert !s'.consumers[i].Waiting?;
      case _ =>
        if s.list != [] {
          var i :| 0 <= i < |s.consumers| && !s.consumers[i].Waiting?;
          assert !s'.consumers[i].Waiting?;
        }
    }
  }

  ghost predicate Runs<T>(s: State<T>, es: seq<Event<T>>)
    decreases |es|
  {
    es == [] || (Enabled(s, es[0]) && Runs(Step(s, es[0]), es[1..]))
  }

  ghost function Exec<T>(s: State<T>, es: seq<Event<T>>): State<T>
    requires Runs(s, es)
    decreases |es|
  {
    if es == [] then s else Exec(Step(s, es[0]), es[1..])
  }

  lemma {:induction false} RunKeepsInv<T>(s: State<T>, es: seq<Event<T>>)
    requires Inv(s) && Runs(s, es) && s.max >= 1 && s.consumers != []
    ensures Inv(Exec(s, es)) && Exec(s, es).max == s.max && |Exec(s, es).consumers| == |s.consumers|
    decreases |es|
  {
    if es != [] {
      StepKeepsInv(s, es[0]);
      RunKeepsInv(Step(s, es[0]), es[1..]);
    }
  }

  /** With the block flag set, for any number of consumers and any max >= 1, no run from the empty list reaches a
      state where the list holds something while every consumer sleeps unsignalled. */
  lemma NoStuckConsumers<T>(init: State<T>, es: seq<Event<T>>)
    requires init.list == [] && init.max >= 1 && init.consumers != [] && Runs(init, es)
    requires forall i :: 0 <= i < |Exec(init, es).consumers| ==> Exec(init, es).consumers[i].Waiting?
    ensures Exec(init, es).list == []
  {
    RunKeepsInv(init, es);
  }

  // ---- What signalling only at size one does not give -----------------------------------------------------------

  /** How many consumers are not asleep. */
  function Awake(consumers: seq<Consumer>): nat {
    if consumers == [] then 0 else (if consumers[0].Waiting? then 0 else 1) + Awake(consumers[1..])
  }

  /** While a consumer sleeps, the others are enough for what is in the list. */
  ghost predicate Served<T>(s: State<T>) {
    SomeWaiting(s) ==> |s.list| <= Awake(s.consumers)
  }

  lemma {:induction false} AwakePositive(consumers: seq<Consumer>)
    ensures Awake(consumers) > 0 <==> exists i :: 0 <= i < |consumers| && !consumers[i].Waiting?
  {
    if consumers != [] {
      AwakePositive(consumers[1..]);
      assert forall i :: 1 <= i < |consumers| ==> consumers[i] == consumers[1..][i - 1];
    }
  }

  /** The list is empty and every consumer is about to call. */
  function AllReady<T>(max: nat, n: nat): State<T> {
    Sleeping(max, 0, n)
  }

  /** The list is empty and the first k of n consumers sleep. */
  function Sleeping<T>(max: nat, k: nat, n: nat): State<T> {
    State([], max, seq(n, i => if i < k then Waiting else Ready))
  }

  /** Once all sleep, two Puts leave two elements to one woken consumer. */
  lemma TwoPuts<T>(max: nat, n: nat, x: T) returns (es: seq<Event<T>>)
    requires max >= 2 && n >= 2
    ensures Runs(Sleeping(max, n, n), es) && !Served(Exec(Sleeping(max, n, n), es))
  {
    var s: State<T> := Sleeping(max, n, n);
    var first, second := Put(Some(x), Some(0)), Put(Some(x), None);
    var s1 := Step(s, first);
    var s2 := Step(s1, second);
    es := [first, second];
    assert es[1..] == [second] && [second][1..] == [];
    assert Runs(s2, []) && Runs(s1, [second]) && Exec(s1, [second]) == s2;
    assert s2.list == [x, x] && s2.consumers[1] == Waiting && s2.consumers[0] == Woken;
    AwakePositive(s2.consumers[1..]);
  }

  lemma {:induction false} StarvingRun<T>(max: nat, k: nat, n: nat, x: T) returns (es: seq<Event<T>>)
    requires max >= 2 && n >= 2 && k <= n
    ensures Runs(Sleeping(max, k, n), es) && !Served(Exec(Sleeping(max, k, n), es))
    decreases n - k
  {
    if k == n {
      es := TwoPuts(max, n, x);
    } else {
      var s: State<T> := Sleeping(max, k, n);
      var rest := StarvingRun(max, k + 1, n, x);
      assert Step(s, Pop(k)) == Sleeping(max, k + 1, n);
      es := [Pop(k)] + rest;
      assert es[1..] == rest;
    }
  }

  /** With n consumers, every run keeps the sleepers unneeded if and only if the list holds one element at most or
      there is only one consumer; one signal per element would need no such condition. */
  lemma ServedExact<T(!new)>(max: nat, n: nat, x: T)
    requires max >= 1 && n >= 1
    ensures (forall es :: Runs(AllReady<T>(max, n), es) ==> Served(Exec(AllReady<T>(max, n), es)))
       <==> max == 1 || n == 1
  {
    var init: State<T> := AllReady(max, n);
    if max == 1 || n == 1 {
      forall es | Runs(init, es) ensures Served(Exec(init, es)) {
        RunKeepsInv(init, es);
        AwakePositive(Exec(init, es).consumers);
      }
    } else {
      var es := StarvingRun(max, 0, n, x);
    }
  }
}
