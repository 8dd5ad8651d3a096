/**
 * The periodic timer list (common/timer.cpp).  One thread sweeps the list at a fixed pace; every sweep counts
 * each timer up and runs the callbacks of those that reach their interval.
 */
module Timer {
  import opened Common
  import opened Chain

  /** cmd stands for the callback together with its argument. */
  datatype Timer<C> = Timer(id: Word, interval: Word, elapse: Word, cmd: C)

  // ---- One sweep -----------------------------------------------------------------------------------------------

  function UpdateElapse(elapse: Word): Word {
    if elapse + 1 == TWO32 then 0 else elapse + 1
  }

  predicate Due<C>(t: Timer<C>) {
    UpdateElapse(t.elapse) >= t.interval
  }

  function Tick<C>(t: Timer<C>): Timer<C> {
    t.(elapse := if Due(t) then 0 else UpdateElapse(t.elapse))
  }

  function Swept<C>(list: seq<Timer<C>>): seq<Timer<C>> {
    seq(|list|, i requires 0 <= i < |list| => Tick(list[i]))
  }

  /** The callbacks a sweep runs, in order. */
  function Callbacks<C>(list: seq<Timer<C>>): seq<C> {
    if list == [] then []
    else
      var last := |list| - 1;
      Callbacks(list[..last]) + if Due(list[last]) then [list[last].cmd] else []
  }

  lemma CallbacksNone<C>(list: seq<Timer<C>>)
    ensures Callbacks(list[..0]) == []
  {
  }

  lemma CallbacksNext<C>(list: seq<Timer<C>>, i: nat)
    requires i < |list|
    ensures Callbacks(list[..i + 1]) == Callbacks(list[..i]) + if Due(list[i]) then [list[i].cmd] else []
  {
    assert list[..i + 1][..i] == list[..i];
  }

  /** The callbacks of a list in two parts: those of the first part come first. */
  lemma {:induction false} CallbacksConcat<C>(a: seq<Timer<C>>, b: seq<Timer<C>>)
    ensures Callbacks(a + b) == Callbacks(a) + Callbacks(b)
  {
    if b == [] {
      assert a + b == a;
    } else {
      var last := |b| - 1;
      assert (a + b)[..|a + b| - 1] == a + b[..last];
      CallbacksConcat(a, b[..last]);
    }
  }

  lemma CallbacksOfOne<C>(t: Timer<C>)
    ensures Callbacks([t]) == if Due(t) then [t.cmd] else []
  {
    assert [t][..0] == [];
  }

  lemma SweptIs<C>(list: seq<Timer<C>>, list': seq<Timer<C>>)
    requires |list'| == |list| && forall i :: 0 <= i < |list| ==> list'[i] == Tick(list[i])
    ensures list' == Swept(list)
  {
  }

  /** How many sweeps apart a timer fires: an interval of zero fires on every sweep. */
  function Period(interval: Word): (p: Word)
    ensures p >= 1
  {
    if interval == 0 then 1 else interval
  }

  /** n sweeps after its insertion a timer has counted n mod its period, and it is due on the next sweep
      exactly when that completes a period; the count never wraps. */
  lemma TickAfter<C>(t: Timer<C>, n: nat)
    requires var p := Period(t.interval); t.elapse == n % p
    ensures var p := Period(t.interval); Tick(t).elapse == (n + 1) % p
    ensures var p := Period(t.interval); (n + 1) / p == n / p + if Due(t) then 1 else 0
    ensures UpdateElapse(t.elapse) == t.elapse + 1
  {
    var p := Period(t.interval);
    var q, e := n / p, n % p;
    assert n == q * p + e;
    if e + 1 == p {
      assert (q + 1) * p == q * p + p;
      DivModUnique(n + 1, p, q + 1, 0);
    } else {
      DivModUnique(n + 1, p, q, e + 1);
    }
  }

  // ---- Intervals ---------------------------------------------------------------------------------------------

  /** Precision and pause between sweeps; the product is an unsigned int and wraps. */
  function GetInterval(interval: Word, precision: Word, sleepTime: Word): Word
    requires sleepTime > 0
  {
    var product := interval * precision % TWO32;
    QuotientBound(product, sleepTime);
    product / sleepTime
  }

  lemma QuotientBound(x: nat, d: nat)
    requires d > 0
    ensures 0 <= x / d <= x
  {
    var q := x / d;
    assert x == q * d + x % d;
    if q > 0 {
      MulMagnitude(q, d);
    }
  }

  /** With precision in seconds there are ten sweeps a second, and an interval is converted correctly exactly
      when its number of milliseconds fits an unsigned int. */
  lemma SecondsExact(seconds: Word)
    ensures GetInterval(seconds, 1000, 100) == 10 * seconds <==> seconds * 1000 < TWO32
  {
    var ms := seconds * 1000;
    if ms < TWO32 {
      DivModUnique(ms, TWO32, 0, ms);
      DivModUnique(ms, 100, 10 * seconds, 0);
    } else {
      assert (ms % TWO32) / 100 <= (TWO32 - 1) / 100 == 42949672;
    }
  }

  /** With precision in milliseconds a sweep comes every ten; an interval is rounded down to whole sweeps. */
  lemma MillisecondsExact(ms: Word)
    ensures var ticks := GetInterval(ms, 1, 10); 10 * ticks <= ms < 10 * ticks + 10
  {
    DivModUnique(ms, TWO32, 0, ms);
  }

  // ---- Identifiers -------------------------------------------------------------------------------------------

  predicate Used<C>(list: seq<Timer<C>>, id: Word) {
    exists i :: 0 <= i < |list| && list[i].id == id
  }

  /** The counter k increments later. */
  function After(c: Word, k: nat): Word {
    (c + k) % TWO32
  }

  lemma AfterZero(c: Word)
    ensures After(c, 0) == c
  {
    DivModUnique(c, TWO32, 0, c);
  }

  lemma AfterNext(c: Word, k: nat)
    ensures After(c, k + 1) == UpdateElapse(After(c, k))
  {
    CyclicAdd(c + k, 1, TWO32);
  }

  lemma AfterAdd(c: Word, j: nat, k: nat)
    ensures After(After(c, j), k) == After(c, j + k)
  {
    var q := (c + j) / TWO32;
    assert c + j == q * TWO32 + After(c, j);
    CyclicTurns(After(c, j) + k, q, TWO32);
  }

  /** The counter comes back to a value exactly after a multiple of 2^32 increments. */
  lemma AfterReturns(c: Word, k: nat)
    ensures After(c, k) == c <==> k % TWO32 == 0
  {
    var q, d := k / TWO32, k % TWO32;
    assert k == q * TWO32 + d;
    CyclicTurns(c + d, q, TWO32);
    CyclicAdd(c, d, TWO32);
    DivModUnique(c, TWO32, 0, c);
  }

  /** Fewer than 2^32 increments apart the counter has different values. */
  lemma AfterDistinct(c: Word, i: nat, j: nat)
    requires i < j < i + TWO32
    ensures After(c, i) != After(c, j)
  {
    AfterAdd(c, i, j - i);
    AfterReturns(After(c, i), j - i);
    DivModUnique(j - i, TWO32, 0, j - i);
  }

  /** k successive values that are all taken need k timers. */
  lemma UsedBound<C>(list: seq<Timer<C>>, c: Word, k: nat)
    requires k <= TWO32 && forall j :: 1 <= j <= k ==> Used(list, After(c, j))
    ensures k <= |list|
  {
    hide After;
    var tried := seq(k, i requires 0 <= i < k => After(c, i + 1));
    var ids := seq(|list|, i requires 0 <= i < |list| => list[i].id);
    forall i, j | 0 <= i < j < |tried| ensures tried[i] != tried[j] {
      AfterDistinct(c, i + 1, j + 1);
    }
    DistinctCardinality(tried);
    forall x | x in Elements(tried) ensures x in Elements(ids) {
      var i :| 0 <= i < |tried| && tried[i] == x;
      assert Used(list, After(c, i + 1));
      var m :| 0 <= m < |list| && list[m].id == x;
      assert ids[m] == x;
    }
    SubsetCardinality(Elements(tried), Elements(ids));
    ElementsAtMost(ids);
  }

  /** How far the counter moves to reach an id no listed timer has, the first k values being taken: the
      search ends, after at most one more step than there are timers. */
  ghost function Tries<C>(list: seq<Timer<C>>, c: Word, k: nat): (r: nat)
    requires |list| < TWO32 && k <= |list| && forall j :: 1 <= j <= k ==> Used(list, After(c, j))
    ensures k < r <= |list| + 1 && !Used(list, After(c, r))
    ensures forall j :: 1 <= j < r ==> Used(list, After(c, j))
    decreases |list| - k
  {
    if Used(list, After(c, k + 1)) then
      UsedBound(list, c, k + 1);
      Tries(list, c, k + 1)
    else k + 1
  }

  lemma TriesAt<C>(list: seq<Timer<C>>, c: Word, k: nat)
    requires |list| < TWO32 && 1 <= k <= Tries(list, c, 0)
    ensures Used(list, After(c, k)) <==> k < Tries(list, c, 0)
  {
    var last := Tries(list, c, 0);
  }

  /** The counter's next value, and whether the search stops there. */
  lemma NextTry<C>(list: seq<Timer<C>>, c: Word, k: nat)
    requires |list| < TWO32 && k < Tries(list, c, 0)
    ensures After(c, k + 1) == UpdateElapse(After(c, k))
    ensures !Used(list, After(c, k + 1)) <==> k + 1 == Tries(list, c, 0)
  {
    hide After, Used, UpdateElapse;
    AfterNext(c, k);
    TriesAt(list, c, k + 1);
  }

  // ---- Deletion ------------------------------------------------------------------------------------------------

  /** The first timer with an id; the length if there is none. */
  function First<C>(list: seq<Timer<C>>, id: Word): (k: nat)
    ensures k <= |list| && (k < |list| <==> Used(list, id)) && (k < |list| ==> list[k].id == id)
    ensures forall i :: 0 <= i < k ==> list[i].id != id
  {
    if list == [] then 0
    else if list[0].id == id then 0
    else
      var k := First(list[1..], id);
      assert forall i :: 1 <= i < |list| ==> list[i] == list[1..][i - 1];
      k + 1
  }

  function Deleted<C>(list: seq<Timer<C>>, id: Word): seq<Timer<C>> {
    var k := First(list, id);
    if k < |list| then Without(list, k) else list
  }

  ghost predicate DistinctIds<C>(list: seq<Timer<C>>) {
    forall i, j :: 0 <= i < j < |list| ==> list[i].id != list[j].id
  }

  /** Deleting an id that is listed takes out its first timer and nothing else; any other id leaves the list alone.
      With distinct ids the id is then gone and every other id is still there. */
  lemma DeleteExact<C>(list: seq<Timer<C>>, id: Word, k: nat)
    requires k <= |list| && (k < |list| ==> list[k].id == id) && forall i :: 0 <= i < k ==> list[i].id != id
    ensures Deleted(list, id) == if k < |list| then list[..k] + list[k + 1..] else list
    ensures DistinctIds(list) ==> !Used(Deleted(list, id), id)
    ensures forall other :: other != id ==> (Used(Deleted(list, id), other) <==> Used(list, other))
  {
    FirstIs(list, id, k);
    var rest := if k < |list| then list[..k] + list[k + 1..] else list;
    hide Deleted;
    forall other | other != id ensures Used(rest, other) <==> Used(list, other) {
      if i :| 0 <= i < |list| && list[i].id == other {
        assert rest[if i < k then i else i - 1].id == other;
      }
      if i :| 0 <= i < |rest| && rest[i].id == other {
        assert list[if i < k then i else i + 1].id == other;
      }
    }
  }

  // ---- Walks over the nodes ----------------------------------------------------------------------------------

  method TickNode<C>(n: Node<Timer<C>>) returns (fires: bool)
    modifies n`data
    ensures n.data == Tick(old(n.data)) && fires == Due(old(n.data)) && n.data.cmd == old(n.data).cmd
  {
    fires := false;
    n.data := n.data.(elapse := UpdateElapse(n.data.elapse));
    if n.data.elapse >= n.data.interval {
      fires := true;
      n.data := n.data.(elapse := 0);
    }
  }

  method SweepNodes<C>(head: Node?<Timer<C>>, ghost s: seq<Node<Timer<C>>>) returns (log: seq<C>)
    requires Linked(s) && head == if s == [] then null else s[0]
    modifies s
    ensures Linked(s) && Payloads(s) == Swept(old(Payloads(s))) && log == Callbacks(old(Payloads(s)))
  {
    hide Tick, Due, Callbacks, Swept;
    log := [];
    CallbacksNone(Payloads(s));
    ghost var list := Payloads(s);
    var cur := head;
    ghost var i := 0;
    while cur != null
      invariant Linked(s) && 0 <= i <= |s| && cur == if i < |s| then s[i] else null
      invariant forall j :: 0 <= j < i ==> s[j].data == Tick(list[j])
      invariant forall j :: i <= j < |s| ==> s[j].data == list[j]
      invariant log == Callbacks(list[..i])
      decreases |s| - i
    {
      CallbacksNext(list, i);
      var fires := TickNode(cur);
      log := log + if fires then [cur.data.cmd] else [];
      cur := cur.next;
      i := i + 1;
    }
    assert list[..i] == list;
    SweptIs(list, Payloads(s));
  }

  /** The scan over the list for one value of the counter. */
  method IsUsed<C>(head: Node?<Timer<C>>, ghost s: seq<Node<Timer<C>>>, id: Word) returns (found: bool)
    requires Linked(s) && head == if s == [] then null else s[0]
    ensures found == Used(Payloads(s), id)
  {
    var cur := head;
    found := false;
    ghost var i := 0;
    while cur != null
      invariant 0 <= i <= |s| && cur == if i < |s| then s[i] else null
      invariant forall j :: 0 <= j < i ==> Payloads(s)[j].id != id
      decreases |s| - i
    {
      if id == cur.data.id {
        assert Payloads(s)[i].id == id;
        return true;
      }
      cur := cur.next;
      i := i + 1;
    }
  }

  /** Having passed k timers with other ids, what the deletion comes to. */
  lemma FirstIs<C>(list: seq<Timer<C>>, id: Word, k: nat)
    requires k <= |list| && forall j :: 0 <= j < k ==> list[j].id != id
    ensures k == |list| ==> !Used(list, id) && Deleted(list, id) == list
    ensures k < |list| && list[k].id == id ==> Used(list, id) && Deleted(list, id) == Without(list, k)
  {
    if k < |list| && list[k].id == id {
      assert Used(list, id);
    }
  }

  /** Unlink the first node with this id; t is the list that remains. */
  method DeleteNode<C>(head: Node?<Timer<C>>, ghost s: seq<Node<Timer<C>>>, id: Word)
    returns (ret: int, head': Node?<Timer<C>>, ghost t: seq<Node<Timer<C>>>)
    requires Linked(s) && head == if s == [] then null else s[0]
    modifies s
    ensures Linked(t) && (head' == if t == [] then null else t[0]) && forall n :: n in t ==> n in s
    ensures Payloads(t) == Deleted(old(Payloads(s)), id)
    ensures ret == if Used(old(Payloads(s)), id) then 0 else -1
  {
    ret, head', t := -1, head, s;
    ghost var list := Payloads(s);
    if head == null {
      FirstIs(list, id, 0);
      return;
    }
    if head.data.id == id {
      FirstIs(list, id, 0);
      ret, head', t := 0, head.next, Without(s, 0);
      LinkedTail(s);
      return;
    }
    ghost var i := 1;
    var pre, cur := head, head.next;
    while cur != null
      invariant 1 <= i <= |s| && pre == s[i - 1] && cur == if i < |s| then s[i] else null
      invariant forall j :: 0 <= j < i ==> list[j].id != id
      invariant Linked(s) && Payloads(s) == list
      decreases |s| - i
    {
      if cur.data.id == id {
        FirstIs(list, id, i);
        hide *;
        Unlink(s, i, pre, cur);
        t := Without(s, i);
        ret := 0;
        return;
      }
      pre := cur;
      cur := pre.next;
      i := i + 1;
    }
    FirstIs(list, id, i);
  }

  // ---- The class ---------------------------------------------------------------------------------------------------

  class ClTimer<C> {
    var timerList: Node?<Timer<C>>
    var timerID: Word
    const precision: Word
    const sleepTime: Word
    ghost var spine: seq<Node<Timer<C>>>
    ghost var Repr: set<object>

    ghost predicate Valid()
      reads this, Repr
      ensures Valid() ==> this in Repr
    {
      && this in Repr && (forall n :: n in spine ==> n in Repr) && sleepTime > 0
      && timerList == (if spine == [] then null else spine[0]) && Linked(spine)
    }

    ghost function Contents(): (c: seq<Timer<C>>)
      requires Valid()
      reads this, Repr
    {
      Payloads(spine)
    }

    /** The id counter starts with whatever value the memory had. */
    constructor (milliseconds: bool, garbage: Word)
      ensures Valid() && Contents() == [] && timerID == garbage && fresh(Repr)
      ensures precision == (if milliseconds then 1 else 1000) && sleepTime == if milliseconds then 10 else 100
    {
      timerList, timerID := null, garbage;
      precision, sleepTime := if milliseconds then 1 else 1000, if milliseconds then 10 else 100;
      spine := [];
      Repr := {this};
    }

    /** One sweep over the list with the mutex held; log lists the callbacks it runs. */
    method ExeTimer() returns (log: seq<C>)
      requires Valid()
      modifies Repr
      ensures Valid() && Repr == old(Repr) && timerID == old(timerID)
      ensures Contents() == Swept(old(Contents())) && log == Callbacks(old(Contents()))
    {
      hide Swept, Callbacks, Payloads;
      log := SweepNodes(timerList, spine);
    }

    /** A new id: the counter moves on until no listed timer has its value. */
    method GetTimerID() returns (id: Word)
      requires Valid() && |Contents()| < TWO32
      modifies this`timerID
      ensures Valid() && Contents() == old(Contents())
      ensures id == timerID == After(old(timerID), Tries(old(Contents()), old(timerID), 0))
      ensures !Used(Contents(), id)
    {
      ghost var list, c, k, s := Contents(), timerID, 0, spine;
      ghost var last := Tries(list, c, 0);
      AfterZero(c);
      hide *;
      var exists_ := true;
      var head := timerList;
      while exists_
        invariant 0 <= k <= last && timerID == After(c, k) && (if exists_ then k < last else k == last)
        decreases last - k
      {
        NextTry(list, c, k);
        timerID := UpdateElapse(timerID);
        k := k + 1;
        exists_ := IsUsed(head, s, timerID);
      }
      id := timerID;
    }

    /** Put a new node in front. */
    method InsertTimerList(t: Timer<C>)
      requires Valid()
      modifies this
      ensures Valid() && Contents() == [t] + old(Contents()) && timerID == old(timerID)
      ensures fresh(Repr - old(Repr))
    {
      hide Linked, Payloads;
      var n := new Node(t);
      ghost var s := spine;
      n.next := timerList;
      LinkedFront(n, s);
      timerList := n;
      spine := [n] + s;
      Repr := Repr + {n};
    }

    /** GetTimerID and then, under a second locking, InsertTimerList. */
    method Add(cmd: C, interval: Word) returns (id: Word)
      requires Valid() && |Contents()| < TWO32
      modifies this
      ensures Valid() && !Used(old(Contents()), id) && fresh(Repr - old(Repr))
      ensures Contents() == [Timer(id, GetInterval(interval, precision, sleepTime), 0, cmd)] + old(Contents())
    {
      id := GetTimerID();
      InsertTimerList(Timer(id, GetInterval(interval, precision, sleepTime), 0, cmd));
    }

    /** Unlink the first timer with this id. */
    method Delete(id: Word) returns (ret: int)
      requires Valid()
      modifies Repr
      ensures Valid() && Repr == old(Repr) && timerID == old(timerID)
      ensures ret == (if Used(old(Contents()), id) then 0 else -1) && Contents() == Deleted(old(Contents()), id)
    {
      hide Linked, Payloads, Used, Deleted;
      ret, timerList, spine := DeleteNode(timerList, spine, id);
    }
  }

  lemma {:induction false} ElementsAtMost<T>(s: seq<T>)
    ensures |Elements(s)| <= |s|
  {
    if s == [] {
      assert Elements(s) == {};
    } else {
      ElementsAtMost(s[1..]);
      assert Elements(s) == Elements(s[1..]) + {s[0]};
    }
  }
}
