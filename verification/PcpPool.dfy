/**
 * The reference-counted node pool of CPcp: Talloc, Tcopy and Tfree (procon/pcp.cpp:331-398), each the
 * effect of one critical section under the pool-wide lock.  Nodes are of any type N, so the same
 * functions serve the concurrent protocol and the heap class.
 */
module PcpPool {
  import opened Common
  import opened PcpCursor

  type Bytes = seq<bv8>

  /** Header and payload of a node: users, owning channel and data[..len]. */
  datatype Cell = Cell(users: int, channel: nat, data: Bytes)

  /** Per channel free list, and the contents of every node ever made. */
  datatype Pool<N(==)> = Pool(free: seq<seq<N>>, cells: map<N, Cell>)

  function Talloc<N>(p: Pool<N>, ch: nat): (r: (Pool<N>, Option<N>))
    requires ch < |p.free|
  {
    if p.free[ch] == [] then (p, None)
    else
      var n := p.free[ch][0];
      (Pool(p.free[ch := p.free[ch][1..]], p.cells[n := Cell(1, ch, [])]), Some(n))
  }

  function Tcopy<N>(p: Pool<N>, n: N): Pool<N>
    requires n in p.cells
  {
    p.(cells := p.cells[n := p.cells[n].(users := p.cells[n].users + 1)])
  }

  function Tfree<N>(p: Pool<N>, n: N): Pool<N>
    requires n in p.cells && p.cells[n].channel < |p.free|
  {
    var c := p.cells[n];
    if c.users > 1 then p.(cells := p.cells[n := c.(users := c.users - 1)])
    else Pool(p.free[c.channel := p.free[c.channel] + [n]], p.cells[n := c.(users := 0)])
  }

  function SetData<N>(p: Pool<N>, n: N, data: Bytes): Pool<N>
    requires n in p.cells
  {
    p.(cells := p.cells[n := p.cells[n].(data := data)])
  }

  ghost function CopiedTimes<N>(p: Pool<N>, n: N, k: nat): (r: Pool<N>)
    requires n in p.cells
    ensures n in r.cells && r.free == p.free && r.cells[n].channel == p.cells[n].channel
  {
    if k == 0 then p else Tcopy(CopiedTimes(p, n, k - 1), n)
  }

  ghost function FreedTimes<N>(p: Pool<N>, n: N, k: nat): (r: Pool<N>)
    requires n in p.cells && p.cells[n].channel < |p.free|
    decreases k
  {
    if k == 0 then p else FreedTimes(Tfree(p, n), n, k - 1)
  }

  lemma TcopyTfree<N>(p: Pool<N>, n: N)
    requires n in p.cells && p.cells[n].channel < |p.free| && p.cells[n].users >= 1
    ensures Tfree(Tcopy(p, n), n) == p
  {
    assert p.cells[n := p.cells[n]] == p.cells;
  }

  lemma {:induction false} CopiesUndone<N>(p: Pool<N>, n: N, k: nat)
    requires n in p.cells && p.cells[n].channel < |p.free| && p.cells[n].users >= 1
    ensures CopiedTimes(p, n, k).cells[n].users == p.cells[n].users + k
    ensures FreedTimes(CopiedTimes(p, n, k), n, k) == p
  {
    if k > 0 {
      CopiesUndone(p, n, k - 1);
      TcopyTfree(CopiedTimes(p, n, k - 1), n);
    }
  }

  /** A node taken from the front of its list, copied k times and freed k times is as it was when taken; one more
      Tfree puts it, unused, at the back of the list. */
  lemma TakenCopiedFreed<N>(p: Pool<N>, ch: nat, k: nat)
    requires ch < |p.free| && p.free[ch] != []
    ensures var n, (p', r) := p.free[ch][0], Talloc(p, ch);
            && r == Some(n) && n in p'.cells && p'.cells[n] == Cell(1, ch, []) && p'.free[ch] == p.free[ch][1..]
            && FreedTimes(CopiedTimes(p', n, k), n, k) == p'
            && Tfree(p', n).free == p.free[ch := p.free[ch][1..] + [n]]
            && Tfree(p', n).cells == p.cells[n := Cell(0, ch, [])]
  {
    CopiesUndone(Talloc(p, ch).0, p.free[ch][0], k);
  }

  // ---- What Write and Read do, uninterrupted ----------------------------------------------------------------

  type Slot = (nat, nat)

  ghost predicate Releasable<N>(p: Pool<N>, slots: map<Slot, N>, slot: Slot) {
    slot in slots ==> slots[slot] in p.cells && p.cells[slots[slot]].channel < |p.free|
  }

  /** The pool after Tfree of whatever the slot points to. */
  ghost function Release<N>(p: Pool<N>, slots: map<Slot, N>, slot: Slot): Pool<N>
    requires Releasable(p, slots, slot)
  {
    if slot in slots then Tfree(p, slots[slot]) else p
  }

  /** Write of a record: the old node is released, a fresh one carries the record and the cursor moves on;
      when the pool has no node the slot is left NULL and the cursor stays. */
  ghost predicate WriteEffect<N>(p: Pool<N>, slots: map<Slot, N>, wp: nat, ch: nat, data: Bytes, ringSize: nat,
                                 p': Pool<N>, slots': map<Slot, N>, wp': nat, ret: int)
    requires 0 < ringSize && ch < |p.free|
  {
    Releasable(p, slots, (ch, wp)) &&
    match Talloc(Release(p, slots, (ch, wp)), ch)
    case (p2, None) => ret == -1 && p' == p2 && slots' == slots - {(ch, wp)} && wp' == wp
    case (p2, Some(n)) =>
      ret == 0 && p' == SetData(p2, n, data) && slots' == slots[(ch, wp) := n] && wp' == (wp + 1) % ringSize
  }

  lemma WriteKeepsRefs<N>(p: Pool<N>, slots: map<Slot, N>, held: map<nat, N>, wp: nat, ch: nat, data: Bytes,
                          ringSize: nat, p': Pool<N>, slots': map<Slot, N>, wp': nat, ret: int)
    requires RefInv(p, slots, held) && 0 < ringSize && ch < |p.free|
    requires WriteEffect(p, slots, wp, ch, data, ringSize, p', slots', wp', ret)
    ensures RefInv(p', slots', held)
  {
    hide RefInv;
    var slot, p1 := (ch, wp), Release(p, slots, (ch, wp));
    var rest := slots - {slot};
    if slot in slots {
      RefTfreeRing(p, slots, held, slot);
    } else {
      assert rest == slots;
    }
    if p1.free[ch] != [] {
      RefTallocRing(p1, rest, held, ch, slot);
      var n := p1.free[ch][0];
      assert rest[slot := n] == slots[slot := n];
      RefSetData(Talloc(p1, ch).0, slots[slot := n], held, n, data);
    }
  }

  /** Write of the producer's own node: it takes the old node's place. */
  ghost predicate NodeWriteEffect<N>(p: Pool<N>, slots: map<Slot, N>, wp: nat, ch: nat, n: N, ringSize: nat,
                                     p': Pool<N>, slots': map<Slot, N>, wp': nat)
    requires 0 < ringSize
  {
    && Releasable(p, slots, (ch, wp)) && p' == Release(p, slots, (ch, wp))
    && slots' == slots[(ch, wp) := n] && wp' == (wp + 1) % ringSize
  }

  lemma NodeWriteKeepsRefs<N>(p: Pool<N>, slots: map<Slot, N>, held: map<nat, N>, wp: nat, ch: nat, k: nat,
                              ringSize: nat, p': Pool<N>, slots': map<Slot, N>, wp': nat)
    requires RefInv(p, slots, held) && 0 < ringSize && k in held && Count(slots, held[k]) == 0
    requires NodeWriteEffect(p, slots, wp, ch, held[k], ringSize, p', slots', wp')
    ensures RefInv(p', slots', held - {k})
  {
    hide RefInv;
    var slot: Slot := (ch, wp);
    var rest := slots - {slot};
    if slot in slots {
      RefTfreeRing(p, slots, held, slot);
      CountRemove(slots, slot, held[k]);
    } else {
      assert rest == slots;
    }
    RefPublish(p', rest, held, slot, k);
    assert rest[slot := held[k]] == slots[slot := held[k]];
  }

  /** Read: the verdict on the cursors, and on Take one more user for the node in the slot at readBegin. */
  ghost predicate ReadEffect<N>(p: Pool<N>, slots: map<Slot, N>, wp: nat, ch: nat, ringSize: nat, rb: nat, re: nat,
                                p': Pool<N>, rb': nat, re': nat, r: Option<N>)
    requires 0 < ringSize
  {
    match Decide(rb, re, wp)
    case Empty => p' == p && rb' == rb && re' == re && r == None
    case Resync => p' == p && rb' == wp && re' == wp && r == None
    case Take =>
      && rb' == (rb + 1) % ringSize && re' == wp
      && if (ch, rb) in slots then
           r == Some(slots[(ch, rb)]) && r.value in p.cells && p' == Tcopy(p, r.value)
         else r == None && p' == p
  }

  // ---- Counting references -------------------------------------------------------------------------

  /** How many entries of m refer to n. */
  ghost function Count<K(!new), N>(m: map<K, N>, n: N): (c: nat) {
    |set k | k in m && m[k] == n|
  }

  lemma CountAdd<K(!new), N>(m: map<K, N>, k: K, n: N, x: N)
    requires k !in m
    ensures Count(m[k := n], x) == Count(m, x) + if x == n then 1 else 0
  {
    var before := set j | j in m && m[j] == x;
    var m' := m[k := n];
    var after := set j | j in m' && m'[j] == x;
    if x == n {
      assert after == before + {k};
    } else {
      assert after == before;
    }
  }

  lemma CountRemove<K(!new), N>(m: map<K, N>, k: K, x: N)
    requires k in m
    ensures Count(m - {k}, x) == Count(m, x) - if x == m[k] then 1 else 0
  {
    CountAdd(m - {k}, k, m[k], x);
    assert (m - {k})[k := m[k]] == m;
  }

  lemma CountPositive<K(!new), N>(m: map<K, N>, n: N)
    ensures Count(m, n) > 0 <==> exists k :: k in m && m[k] == n
  {
    var refs := set j | j in m && m[j] == n;
    if k :| k in m && m[k] == n {
      assert k in refs;
    }
    if Count(m, n) > 0 {
      var k :| k in refs;
    }
  }

  lemma CountUnique<K(!new), N>(m: map<K, N>, n: N, j: K, k: K)
    requires Count(m, n) <= 1 && j in m && k in m && m[j] == n && m[k] == n
    ensures j == k
  {
    var refs := set i | i in m && m[i] == n;
    assert |refs - {j}| == |refs| - 1;
    assert k !in refs - {j};
  }

  // ---- The reference-count invariant ----------------------------------------------------------------

  /** References to n: ring slots holding it and outstanding holder references. */
  ghost function Refs<N>(ring: map<Slot, N>, held: map<nat, N>, n: N): nat {
    Count(ring, n) + Count(held, n)
  }

  ghost predicate NoDuplicates<N>(s: seq<N>) {
    forall i, j :: 0 <= i < j < |s| ==> s[i] != s[j]
  }

  ghost predicate FreeListsOk<N>(p: Pool<N>) {
    forall ch :: 0 <= ch < |p.free| ==>
      NoDuplicates(p.free[ch]) && forall n :: n in p.free[ch] ==> n in p.cells && p.cells[n].channel == ch
  }

  /** The pool as Init leaves it: `perChannel` distinct unused nodes on each channel's list. */
  ghost predicate FreshPool<N>(p: Pool<N>, channels: nat, perChannel: nat) {
    && |p.free| == channels && FreeListsOk(p)
    && (forall ch :: 0 <= ch < channels ==> |p.free[ch]| == perChannel)
    && (forall n :: n in p.cells ==>
          p.cells[n].users == 0 && p.cells[n].channel < channels && n in p.free[p.cells[n].channel])
  }

  lemma FreshPoolRefs<N>(p: Pool<N>, channels: nat, perChannel: nat)
    requires FreshPool(p, channels, perChannel)
    ensures RefInv(p, map[], map[])
  {
    var ring: map<Slot, N>, held: map<nat, N> := map[], map[];
    forall n | n in p.cells ensures Counted(p, ring, held, n) && Count(ring, n) <= 1 {
      CountPositive(ring, n);
      CountPositive(held, n);
    }
  }

  ghost predicate Counted<N>(p: Pool<N>, ring: map<Slot, N>, held: map<nat, N>, n: N)
    requires n in p.cells
  {
    var c := p.cells[n];
    c.channel < |p.free| && c.users == Refs(ring, held, n) && (n in p.free[c.channel] <==> c.users == 0)
  }

  /** Every node is free exactly once with no user, or live with `users` equal to its references; no
      node fills two ring slots. */
  ghost predicate RefInv<N>(p: Pool<N>, ring: map<Slot, N>, held: map<nat, N>) {
    && FreeListsOk(p)
    && (forall k :: k in ring ==> ring[k] in p.cells)
    && (forall k :: k in held ==> held[k] in p.cells)
    && (forall n :: n in p.cells ==> Counted(p, ring, held, n))
    && (forall n :: n in p.cells ==> Count(ring, n) <= 1)
  }

  /** A node that is referred to anywhere is live. */
  lemma ReferencedIsLive<N>(p: Pool<N>, ring: map<Slot, N>, held: map<nat, N>, n: N)
    requires RefInv(p, ring, held) && n in p.cells
    requires (exists s :: s in ring && ring[s] == n) || (exists k :: k in held && held[k] == n)
    ensures p.cells[n].users >= 1 && forall ch :: 0 <= ch < |p.free| ==> n !in p.free[ch]
  {
    CountPositive(ring, n);
    CountPositive(held, n);
    assert Counted(p, ring, held, n);
  }

  lemma TallocTakes<N>(p: Pool<N>, ring: map<Slot, N>, held: map<nat, N>, ch: nat)
    requires RefInv(p, ring, held) && ch < |p.free| && p.free[ch] != []
    ensures var n := p.free[ch][0];
            var p' := Talloc(p, ch).0;
            n in p.cells && Count(ring, n) == 0 && Count(held, n) == 0 && FreeListsOk(p')
    ensures var n := p.free[ch][0];
            var p' := Talloc(p, ch).0;
            forall m, c :: 0 <= c < |p.free| ==> (m in p'.free[c] <==> m in p.free[c] && m != n)
  {
    var n := p.free[ch][0];
    assert n in p.free[ch];
    assert Counted(p, ring, held, n);
    var rest := p.free[ch][1..];
    forall m ensures m in rest <==> m in p.free[ch] && m != n {
      if m in p.free[ch] && m != n {
        var i :| 0 <= i < |p.free[ch]| && p.free[ch][i] == m;
        assert rest[i - 1] == m;
      }
    }
  }

  /** A fresh node installed in an empty slot. */
  lemma RefTallocRing<N>(p: Pool<N>, ring: map<Slot, N>, held: map<nat, N>, ch: nat, s: Slot)
    requires RefInv(p, ring, held) && ch < |p.free| && p.free[ch] != [] && s !in ring
    ensures RefInv(Talloc(p, ch).0, ring[s := p.free[ch][0]], held)
  {
    var n, p' := p.free[ch][0], Talloc(p, ch).0;
    TallocTakes(p, ring, held, ch);
    hide FreeListsOk, Count;
    forall m | m in p'.cells
      ensures Counted(p', ring[s := n], held, m) && Count(ring[s := n], m) <= 1
    {
      CountAdd(ring, s, n, m);
      assert Counted(p, ring, held, m);
    }
  }

  /** A fresh node handed to a producer. */
  lemma RefTallocHeld<N>(p: Pool<N>, ring: map<Slot, N>, held: map<nat, N>, ch: nat, k: nat)
    requires RefInv(p, ring, held) && ch < |p.free| && p.free[ch] != [] && k !in held
    ensures RefInv(Talloc(p, ch).0, ring, held[k := p.free[ch][0]])
  {
    var n, p' := p.free[ch][0], Talloc(p, ch).0;
    TallocTakes(p, ring, held, ch);
    hide Count;
    forall m | m in p'.cells ensures Counted(p', ring, held[k := n], m) && Count(ring, m) <= 1 {
      CountAdd(held, k, n, m);
      assert Counted(p, ring, held, m);
    }
  }

  /** Tcopy of the node in a slot, handed to a reader. */
  lemma RefTcopy<N>(p: Pool<N>, ring: map<Slot, N>, held: map<nat, N>, s: Slot, k: nat)
    requires RefInv(p, ring, held) && s in ring && k !in held
    ensures RefInv(Tcopy(p, ring[s]), ring, held[k := ring[s]])
  {
    var n := ring[s];
    var p' := Tcopy(p, n);
    ReferencedIsLive(p, ring, held, n);
    forall m | m in p'.cells ensures Counted(p', ring, held[k := n], m) {
      CountAdd(held, k, n, m);
      assert Counted(p, ring, held, m);
    }
  }

  /** Tfree's effect on the free lists and counters, given that one reference to n disappears. */
  lemma TfreeReleases<N>(p: Pool<N>, ring: map<Slot, N>, held: map<nat, N>, n: N,
                               ring': map<Slot, N>, held': map<nat, N>)
    requires RefInv(p, ring, held) && n in p.cells
    requires forall m :: Refs(ring', held', m) == Refs(ring, held, m) - if m == n then 1 else 0
    ensures p.cells[n].channel < |p.free|
    ensures FreeListsOk(Tfree(p, n))
    ensures forall m :: m in Tfree(p, n).cells ==> Counted(Tfree(p, n), ring', held', m)
  {
    assert Counted(p, ring, held, n);
    var p' := Tfree(p, n);
    var ch := p.cells[n].channel;
    assert Refs(ring', held', n) == Refs(ring, held, n) - 1;
    assert n !in p.free[ch];
    forall m | m in p'.cells ensures Counted(p', ring', held', m) {
      assert Counted(p, ring, held, m);
      assert Refs(ring', held', m) == Refs(ring, held, m) - if m == n then 1 else 0;
    }
  }

  /** The producer lets go of a slot's node. */
  lemma RefTfreeRing<N>(p: Pool<N>, ring: map<Slot, N>, held: map<nat, N>, s: Slot)
    requires RefInv(p, ring, held) && s in ring
    ensures p.cells[ring[s]].channel < |p.free|
    ensures RefInv(Tfree(p, ring[s]), ring - {s}, held)
  {
    forall m ensures Count(ring - {s}, m) == Count(ring, m) - if m == ring[s] then 1 else 0 {
      CountRemove(ring, s, m);
    }
    TfreeReleases(p, ring, held, ring[s], ring - {s}, held);
  }

  /** A holder lets go of its node. */
  lemma RefTfreeHeld<N>(p: Pool<N>, ring: map<Slot, N>, held: map<nat, N>, k: nat)
    requires RefInv(p, ring, held) && k in held
    ensures p.cells[held[k]].channel < |p.free|
    ensures RefInv(Tfree(p, held[k]), ring, held - {k})
  {
    forall m ensures Count(held - {k}, m) == Count(held, m) - if m == held[k] then 1 else 0 {
      CountRemove(held, k, m);
    }
    TfreeReleases(p, ring, held, held[k], ring, held - {k});
  }

  /** A producer's reference becomes the slot's: no counter changes. */
  lemma RefPublish<N>(p: Pool<N>, ring: map<Slot, N>, held: map<nat, N>, s: Slot, k: nat)
    requires RefInv(p, ring, held) && s !in ring && k in held && Count(ring, held[k]) == 0
    ensures RefInv(p, ring[s := held[k]], held - {k})
  {
    forall m | m in p.cells
      ensures Counted(p, ring[s := held[k]], held - {k}, m) && Count(ring[s := held[k]], m) <= 1
    {
      CountAdd(ring, s, held[k], m);
      CountRemove(held, k, m);
      assert Counted(p, ring, held, m);
    }
  }

  lemma RefSetData<N>(p: Pool<N>, ring: map<Slot, N>, held: map<nat, N>, n: N, data: Bytes)
    requires RefInv(p, ring, held) && n in p.cells
    ensures RefInv(SetData(p, n, data), ring, held)
  {
    forall m | m in p.cells ensures Counted(SetData(p, n, data), ring, held, m) {
      assert Counted(p, ring, held, m);
    }
  }

  lemma InvReleasable<N>(p: Pool<N>, ring: map<Slot, N>, held: map<nat, N>, slot: Slot)
    requires RefInv(p, ring, held)
    ensures Releasable(p, ring, slot)
  {
    if slot in ring {
      assert Counted(p, ring, held, ring[slot]);
    }
  }
}
