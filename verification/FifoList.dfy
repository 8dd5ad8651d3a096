/**
 * The bounded FIFO of owned pointers (common/fifoList.cpp): Put on a full list frees and drops the oldest
 * element first; the newest element can be taken back from the rear.
 */
module FifoList {
  import opened Common
  import opened Chain
  import opened LinkedQueue

  // ---- The list as a sequence ----------------------------------------------------------------------------------

  /** data is None for a NULL pointer; wanted is false when the caller passes NULL for the result. */
  datatype Op<T> = Put(data: Option<T>) | Pop(wanted: bool) | Get(wanted: bool) | Delete | DelNodeRear

  /** The list after an operation, its result, what the caller's pointer receives, and the element that was freed to
      make room. */
  datatype Outcome<T> = Outcome(list: seq<T>, ret: int, value: Option<T>, freed: Option<T>)

  /** A NULL Put on a full list drops one element and fails. */
  function Step<T>(s: seq<T>, max: nat, op: Op<T>): Outcome<T> {
    var front := if s == [] then None else Some(s[0]);
    match op
    case Put(x) =>
      Outcome(PutResult(s, max, x).0, PutResult(s, max, x).1, None, if |s| == max then front else None)
    case Pop(wanted) => if s != [] && wanted then Outcome(s[1..], 0, front, None) else Outcome(s, -1, None, None)
    case Get(wanted) => if s != [] && wanted then Outcome(s, 0, front, None) else Outcome(s, -1, None, None)
    case Delete => if s != [] then Outcome(s[1..], 0, None, None) else Outcome(s, -1, None, None)
    case DelNodeRear => if s != [] then Outcome(s[..|s| - 1], 0, None, None) else Outcome(s, -1, None, None)
  }

  function Exec<T>(s: seq<T>, max: nat, ops: seq<Op<T>>): seq<T>
    decreases |ops|
  {
    if ops == [] then s else Exec(Step(s, max, ops[0]).list, max, ops[1..])
  }

  /** How an element left the list at the front. */
  datatype Fate = Popped | Dropped | Deleted

  /** What an operation takes from the front, and how. */
  function Taken<T>(s: seq<T>, max: nat, op: Op<T>): seq<(T, Fate)> {
    if s == [] then []
    else match op
      case Put(_) => if |s| == max then [(s[0], Dropped)] else []
      case Pop(wanted) => if wanted then [(s[0], Popped)] else []
      case Delete => [(s[0], Deleted)]
      case _ => []
  }

  function AllTaken<T>(s: seq<T>, max: nat, ops: seq<Op<T>>): seq<(T, Fate)>
    decreases |ops|
  {
    if ops == [] then [] else Taken(s, max, ops[0]) + AllTaken(Step(s, max, ops[0]).list, max, ops[1..])
  }

  /** The elements put in so far, less those taken back from the rear. */
  function Kept<T>(s: seq<T>, max: nat, ops: seq<Op<T>>, kept: seq<T>): seq<T>
    decreases |ops|
  {
    if ops == [] then kept
    else Kept(Step(s, max, ops[0]).list, max, ops[1..], Keep(s, max, ops[0], kept))
  }

  function Keep<T>(s: seq<T>, max: nat, op: Op<T>, kept: seq<T>): seq<T> {
    if op.Put? && op.data.Some? && Step(s, max, op).ret == 0 then kept + [op.data.value]
    else if op.DelNodeRear? && s != [] && kept != [] then kept[..|kept| - 1]
    else kept
  }

  /** The elements, whatever their fate. */
  function Values<T>(t: seq<(T, Fate)>): seq<T> {
    seq(|t|, i requires 0 <= i < |t| => t[i].0)
  }

  /** One operation keeps the bound, and moves elements only from the list's front to what was taken, or off
      its rear. */
  lemma StepConserves<T>(s: seq<T>, max: nat, op: Op<T>, out: seq<T>, kept: seq<T>)
    requires |s| <= max && max >= 1 && out + s == kept
    ensures |Step(s, max, op).list| <= max
    ensures (out + Values(Taken(s, max, op))) + Step(s, max, op).list == Keep(s, max, op, kept)
  {
    assert Values(Taken(s, max, op)) == if Taken(s, max, op) == [] then [] else [s[0]];
    if s != [] {
      assert (out + [s[0]]) + s[1..] == out + s;
      assert kept[..|kept| - 1] == out + s[..|s| - 1];
    }
    if op.Put? && op.data.Some? {
      var x := op.data.value;
      assert (out + s) + [x] == out + (s + [x]);
      if s != [] {
        assert (out + [s[0]]) + (s[1..] + [x]) == (out + s) + [x];
      }
    }
  }

  /** Over any run with a fixed max >= 1 the list stays within its bound, and everything kept comes out at
      the front in the order it went in: what was taken, then what is still there. */
  lemma {:induction false} FifoRun<T>(s: seq<T>, max: nat, ops: seq<Op<T>>, out: seq<T>, kept: seq<T>)
    requires |s| <= max && max >= 1 && out + s == kept
    ensures |Exec(s, max, ops)| <= max
    ensures (out + Values(AllTaken(s, max, ops))) + Exec(s, max, ops) == Kept(s, max, ops, kept)
    decreases |ops|
  {
    hide Step, Taken, Keep;
    if ops == [] {
      assert out + Values(AllTaken(s, max, ops)) == out;
    } else {
      var op := ops[0];
      var s', taken, kept' := Step(s, max, op).list, Taken(s, max, op), Keep(s, max, op, kept);
      StepConserves(s, max, op, out, kept);
      FifoRun(s', max, ops[1..], out + Values(taken), kept');
      assert Values(taken + AllTaken(s', max, ops[1..])) == Values(taken) + Values(AllTaken(s', max, ops[1..]));
      Assoc(out, Values(taken), Values(AllTaken(s', max, ops[1..])));
    }
  }

  // What callers saw of it: the values Pop gave them, the elements Put freed, the successful Deletes.

  function Shown<T>(x: Option<T>): seq<T> {
    match x case None => [] case Some(v) => [v]
  }

  function PoppedValues<T>(s: seq<T>, max: nat, ops: seq<Op<T>>): seq<T>
    decreases |ops|
  {
    if ops == [] then []
    else
      var r := Step(s, max, ops[0]);
      (if ops[0].Pop? && r.ret == 0 then Shown(r.value) else []) + PoppedValues(r.list, max, ops[1..])
  }

  function FreedValues<T>(s: seq<T>, max: nat, ops: seq<Op<T>>): seq<T>
    decreases |ops|
  {
    if ops == [] then []
    else Shown(Step(s, max, ops[0]).freed) + FreedValues(Step(s, max, ops[0]).list, max, ops[1..])
  }

  function Deletes<T>(s: seq<T>, max: nat, ops: seq<Op<T>>): nat
    decreases |ops|
  {
    if ops == [] then 0
    else
      var r := Step(s, max, ops[0]);
      (if ops[0].Delete? && r.ret == 0 then 1 else 0) + Deletes(r.list, max, ops[1..])
  }

  /** The elements of one fate, in order. */
  function Select<T>(t: seq<(T, Fate)>, f: Fate): seq<T> {
    if t == [] then [] else (if t[0].1 == f then [t[0].0] else []) + Select(t[1..], f)
  }

  /** Taken elements add to the selections one by one. */
  lemma SelectFirst<T>(a: seq<(T, Fate)>, b: seq<(T, Fate)>, f: Fate)
    requires |a| <= 1
    ensures Select(a + b, f) == (if a != [] && a[0].1 == f then [a[0].0] else []) + Select(b, f)
  {
    if a == [] {
      assert a + b == b;
    } else {
      assert (a + b)[0] == a[0] && (a + b)[1..] == b;
    }
  }

  /** What one operation takes is what its caller saw. */
  lemma StepFate<T>(s: seq<T>, max: nat, op: Op<T>)
    requires |s| <= max && max >= 1
    ensures var r, t := Step(s, max, op), Taken(s, max, op);
            && |t| <= 1
            && (if op.Pop? && r.ret == 0 then Shown(r.value) else [])
            == (if t != [] && t[0].1.Popped? then [t[0].0] else [])
            && Shown(r.freed) == (if t != [] && t[0].1.Dropped? then [t[0].0] else [])
            && ((op.Delete? && r.ret == 0) <==> (t != [] && t[0].1.Deleted?))
  {
  }

  /** Every element that left at the front did so in exactly one of three ways: Pop gave it to its caller, Put freed it
      to make room, or Delete removed it; and nothing else was given out, freed or deleted. */
  lemma {:induction false} Fates<T>(s: seq<T>, max: nat, ops: seq<Op<T>>)
    requires |s| <= max && max >= 1
    ensures var t := AllTaken(s, max, ops);
            && Select(t, Popped) == PoppedValues(s, max, ops)
            && Select(t, Dropped) == FreedValues(s, max, ops)
            && |Select(t, Deleted)| == Deletes(s, max, ops)
            && |Select(t, Popped)| + |Select(t, Dropped)| + |Select(t, Deleted)| == |t|
    decreases |ops|
  {
    hide Step, Taken;
    if ops != [] {
      var op := ops[0];
      var s', a := Step(s, max, op).list, Taken(s, max, op);
      StepFate(s, max, op);
      StepConserves(s, max, op, [], s);
      Fates(s', max, ops[1..]);
      SelectFirst(a, AllTaken(s', max, ops[1..]), Popped);
      SelectFirst(a, AllTaken(s', max, ops[1..]), Dropped);
      SelectFirst(a, AllTaken(s', max, ops[1..]), Deleted);
    }
  }

  lemma Assoc<T>(a: seq<T>, b: seq<T>, c: seq<T>)
    ensures (a + b) + c == a + (b + c)
  {
  }

  function Puts<T>(xs: seq<T>): seq<Op<T>> {
    seq(|xs|, i requires 0 <= i < |xs| => Put(Some(xs[i])))
  }

  /** The last max elements. */
  function Newest<T>(all: seq<T>, max: nat): seq<T> {
    if |all| <= max then all else all[|all| - max..]
  }

  lemma PutKeepsNewest<T>(s: seq<T>, max: nat, x: T, xs: seq<T>)
    requires |s| <= max && max >= 1
    ensures var s' := Step(s, max, Put(Some(x))).list;
            |s'| <= max && Newest(s' + xs, max) == Newest(s + ([x] + xs), max)
  {
    var s' := Step(s, max, Put(Some(x))).list;
    assert s' == (if |s| == max then s[1..] else s) + [x];
    hide Step;
    var all := s + ([x] + xs);
    if |s| == max {
      assert s' + xs == all[1..];
      NewestTail(all, max);
    } else {
      assert s' + xs == all;
    }
  }

  lemma NewestTail<T>(all: seq<T>, max: nat)
    requires |all| > max
    ensures Newest(all[1..], max) == Newest(all, max)
  {
  }

  /** Overflow keeps the newest: after any number of Puts the list is the last max of what it held and got. */
  lemma {:induction false} OverflowKeepsNewest<T>(s: seq<T>, max: nat, xs: seq<T>)
    requires |s| <= max && max >= 1
    ensures Exec(s, max, Puts(xs)) == Newest(s + xs, max)
    decreases |xs|
  {
    if xs == [] {
      assert s + xs == s;
    } else {
      hide Step, Newest;
      PutKeepsNewest(s, max, xs[0], xs[1..]);
      assert [xs[0]] + xs[1..] == xs;
      assert Puts(xs)[0] == Put(Some(xs[0])) && Puts(xs)[1..] == Puts(xs[1..]);
      OverflowKeepsNewest(Step(s, max, Put(Some(xs[0]))).list, max, xs[1..]);
    }
  }

  // ---- The class ---------------------------------------------------------------------------------------------------

  class CFifoList<T> {
    const list: Queue<T>
    const max: nat
    const blockFlag: bool

    ghost predicate Valid()
      reads list, list.Repr
    {
      list.Valid() && list.size <= max && max >= 1
    }

    constructor (max: nat, blockFlag: bool)
      requires max >= 1
      ensures Valid() && list.Contents() == [] && this.max == max && this.blockFlag == blockFlag && fresh(list.Repr)
    {
      list := new Queue<T>();
      this.max, this.blockFlag := max, blockFlag;
    }

    /** freed: the element whose data was freed to make room. */
    method Put(data: Option<T>) returns (ret: int, size: nat, freed: Option<T>, signalled: bool)
      requires Valid()
      modifies list.Repr
      ensures Valid() && fresh(list.Repr - old(list.Repr))
      ensures Outcome(list.Contents(), ret, None, freed) == Step(old(list.Contents()), max, Op.Put(data))
      ensures freed == if |old(list.Contents())| == max then Some(old(list.Contents())[0]) else None
      ensures var rest := if freed == None then old(list.Contents()) else old(list.Contents())[1..];
              if data.None? then ret == -1 && list.Contents() == rest
              else ret == 0 && list.Contents() == rest + [data.value]
      ensures size == |list.Contents()| && signalled == (blockFlag && ret == 0)
    {
      list.SizeIsLength();
      hide Queue.Valid, Queue.Contents, Linked, Ends;
      ret, freed, signalled := 0, None, false;
      if list.size == max {
        freed := Some(list.front.data);
        ret := list.DelNode();
      }
      if ret == 0 {
        if data.Some? {
          list.AddNode(data.value);
          if blockFlag {
            signalled := true;
          }
        } else {
          ret := -1;
        }
      }
      list.SizeIsLength();
      size := list.size;
    }

    method Pop(wanted: bool) returns (ret: int, x: Option<T>, waits: bool)
      requires Valid()
      modifies list.Repr
      ensures Valid() && list.Repr == old(list.Repr)
      ensures Outcome(list.Contents(), ret, x, None) == Step(old(list.Contents()), max, Op.Pop(wanted))
      ensures var was := old(list.Contents());
              if wanted && was != [] then ret == 0 && x == Some(was[0]) && list.Contents() == was[1..] && !waits
              else ret == -1 && x == None && list.Contents() == was && waits == blockFlag
    {
      list.SizeIsLength();
      ret, x, waits := -1, None, false;
      if list.size > 0 && wanted {
        x := Some(list.front.data);
        ret := 0;
        var r := list.DelNode();
      } else if blockFlag {
        waits := true;
      }
    }

    method Get(wanted: bool) returns (ret: int, x: Option<T>, waits: bool)
      requires Valid()
      ensures Outcome(list.Contents(), ret, x, None) == Step(list.Contents(), max, Op.Get(wanted))
      ensures if wanted && list.Contents() != [] then ret == 0 && x == Some(list.Contents()[0]) && !waits
              else ret == -1 && x == None && waits == blockFlag
    {
      list.SizeIsLength();
      ret, x, waits := -1, None, false;
      if list.size > 0 && wanted {
        x := Some(list.front.data);
        ret := 0;
      } else if blockFlag {
        waits := true;
      }
    }

    method Delete() returns (ret: int)
      requires Valid()
      modifies list.Repr
      ensures Valid() && list.Repr == old(list.Repr)
      ensures Outcome(list.Contents(), ret, None, None) == Step(old(list.Contents()), max, Op.Delete)
      ensures var was := old(list.Contents());
              if was == [] then ret == -1 && list.Contents() == [] else ret == 0 && list.Contents() == was[1..]
    {
      list.SizeIsLength();
      ghost var s := list.Contents();
      assert Step(s, max, Op.Delete)
          == if s == [] then Outcome([], -1, None, None) else Outcome(s[1..], 0, None, None);
      hide *;
      ret := list.DelNode();
      list.SizeIsLength();
    }

    method DelNodeRear() returns (ret: int)
      requires Valid()
      modifies list.Repr
      ensures Valid() && list.Repr == old(list.Repr)
      ensures Outcome(list.Contents(), ret, None, None) == Step(old(list.Contents()), max, Op.DelNodeRear)
      ensures var was := old(list.Contents());
              if was == [] then ret == -1 && list.Contents() == [] else ret == 0 && list.Contents() == was[..|was| - 1]
    {
      list.SizeIsLength();
      ghost var s := list.Contents();
      assert Step(s, max, Op.DelNodeRear)
          == if s == [] then Outcome([], -1, None, None) else Outcome(s[..|s| - 1], 0, None, None);
      hide *;
      ret := list.DelNodeRear();
      list.SizeIsLength();
    }
  }
}
