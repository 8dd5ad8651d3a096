/** The chained hash table (common/hash.cpp): strings to copied values, keyed by ElfHash. */
module Hash {
  import opened Common
  import opened Chain

  /** A C string without its terminator, and a copied value. */
  type Key = seq<bv8>
  type Bytes = seq<bv8>

  // ---- ElfHash -------------------------------------------------------------------------------------------------

  /** A char widened to unsigned int: whether char is signed depends on the platform. */
  function Widen(c: bv8, signedChar: bool): bv32 {
    if signedChar && c >= 0x80 then 0xFFFF_FF00 | (c as bv32) else c as bv32
  }

  /** One round: shift four bits in, fold the top four bits back and clear them. */
  function ElfStep(h: bv32, c: bv32): (r: bv32)
    ensures r < 0x1000_0000
  {
    var h1 := (h << 4) + c;
    var g := h1 & 0xF000_0000;
    (if g != 0 then h1 ^ (g >> 24) else h1) & !g
  }

  /** A round appends a hexadecimal digit's width: while the sum fits 28 bits it is kept as it is, and otherwise its top
      four bits are folded into bits 4 to 7. */
  lemma ElfStepExact(h: bv32, c: bv32)
    ensures var sum := (h << 4) + c;
            && (sum < 0x1000_0000 ==> ElfStep(h, c) == sum)
            && ElfStep(h, c) == (sum & 0x0FFF_FFFF) ^ ((sum >> 28) << 4)
  {
  }

  /** Sign extension: eight bits read in two's complement, or as they are. */
  lemma WidenExact(c: bv8)
    ensures Widen(c, true) == ((c as bv32) ^ 0x80) - 0x80
    ensures Widen(c, false) == c as bv32 && (c < 0x80 ==> Widen(c, true) == Widen(c, false))
  {
  }

  function ElfSum(key: Key, signedChar: bool): (h: bv32)
    ensures h < 0x1000_0000
  {
    if key == [] then 0
    else ElfStep(ElfSum(key[..|key| - 1], signedChar), Widen(key[|key| - 1], signedChar))
  }

  lemma ElfAppend(key: Key, c: bv8, longer: Key, signedChar: bool)
    requires longer == key + [c]
    ensures ElfSum(longer, signedChar) == ElfStep(ElfSum(key, signedChar), Widen(c, signedChar))
  {
    assert longer[..|longer| - 1] == key;
  }

  lemma KnownSteps()
    ensures ElfStep(0x0, 0x61) == 0x61
    ensures ElfStep(0x61, 0x62) == 0x672
    ensures ElfStep(0x672, 0x63) == 0x6783
    ensures ElfStep(0x6783, 0x64) == 0x67894
    ensures ElfStep(0x67894, 0x65) == 0x6789a5
    ensures ElfStep(0x6789a5, 0x66) == 0x6789ab6
    ensures ElfStep(0x6789ab6, 0x67) == 0x789aba7
    ensures ElfStep(0x789aba7, 0x68) == 0x89abaa8
  {
  }

  /** The sum of "abcdefgh", in which bits are folded, whatever the signedness of char. */
  lemma KnownSum(signedChar: bool)
    ensures ElfSum([0x61, 0x62, 0x63, 0x64, 0x65, 0x66, 0x67, 0x68], signedChar) == 0x89abaa8
  {
    KnownSteps();
    var key: Key := [0x61, 0x62, 0x63, 0x64, 0x65, 0x66, 0x67, 0x68];
    assert ElfSum(key[..0], signedChar) == 0;
    hide ElfStep, ElfSum;
    ElfAppend(key[..0], 0x61, key[..1], signedChar);
    ElfAppend(key[..1], 0x62, key[..2], signedChar);
    ElfAppend(key[..2], 0x63, key[..3], signedChar);
    ElfAppend(key[..3], 0x64, key[..4], signedChar);
    ElfAppend(key[..4], 0x65, key[..5], signedChar);
    ElfAppend(key[..5], 0x66, key[..6], signedChar);
    ElfAppend(key[..6], 0x67, key[..7], signedChar);
    ElfAppend(key[..7], 0x68, key, signedChar);
  }

  /** The bucket of a key. */
  function Index(key: Key, max: nat, signedChar: bool): (i: nat)
    requires max > 0
    ensures i < max
  {
    Remainder(ElfSum(key, signedChar), max)
  }

  function Remainder(h: bv32, max: nat): (i: nat)
    requires max > 0
    ensures i < max
  {
    (h as int) % max
  }

  /** A round loses none of the bits accumulated so far. */
  lemma ShiftLosesNothing(key: Key, signedChar: bool)
    ensures (ElfSum(key, signedChar) << 4) >> 4 == ElfSum(key, signedChar)
  {
    var h := ElfSum(key, signedChar);
    hide ElfSum;
    assert h < 0x1000_0000 ==> (h << 4) >> 4 == h;
  }

  method ElfHash(key: Key, max: nat, signedChar: bool) returns (index: nat)
    requires max > 0
    ensures index == Index(key, max, signedChar)
  {
    hide ElfStep, Widen, Remainder;
    var h: bv32 := 0;
    var i := 0;
    assert key[..0] == [];
    while i < |key|
      invariant 0 <= i <= |key| && h == ElfSum(key[..i], signedChar)
    {
      assert key[..i + 1][..i] == key[..i];
      h := ElfStep(h, Widen(key[i], signedChar));
      i := i + 1;
    }
    assert key[..i] == key;
    index := Remainder(h, max);
  }

  // ---- The table as a value --------------------------------------------------------------------------------------

  datatype Entry = Entry(key: Key, val: Bytes)

  /** Where a key is in a bucket; the length if it is absent. */
  function Find(b: seq<Entry>, key: Key): (k: nat)
    ensures k <= |b| && (k < |b| ==> b[k].key == key) && forall j :: 0 <= j < k ==> b[j].key != key
  {
    if b == [] || b[0].key == key then 0 else 1 + Find(b[1..], key)
  }

  predicate DistinctKeys(b: seq<Entry>) {
    forall i, j :: 0 <= i < j < |b| ==> b[i].key != b[j].key
  }

  /** A bucket holds keys of its own, each once. */
  predicate BucketOk(b: seq<Entry>, c: nat, max: nat, signedChar: bool) {
    max > 0 && DistinctKeys(b) && forall i :: 0 <= i < |b| ==> Index(b[i].key, max, signedChar) == c
  }

  predicate TableOk(t: seq<seq<Entry>>, signedChar: bool) {
    forall c :: 0 <= c < |t| ==> BucketOk(t[c], c, |t|, signedChar)
  }

  function ValueIn(b: seq<Entry>, key: Key): Option<Bytes> {
    var k := Find(b, key);
    if k < |b| then Some(b[k].val) else None
  }

  /** The value stored for a key. */
  function Lookup(t: seq<seq<Entry>>, key: Key, signedChar: bool): Option<Bytes>
    requires |t| > 0
  {
    ValueIn(t[Index(key, |t|, signedChar)], key)
  }

  /** The map a table stands for. */
  ghost predicate Represents(t: seq<seq<Entry>>, m: map<Key, Bytes>, signedChar: bool)
    requires |t| > 0
  {
    forall key :: Lookup(t, key, signedChar) == if key in m then Some(m[key]) else None
  }

  function Inserted(t: seq<seq<Entry>>, e: Entry, signedChar: bool): (t': seq<seq<Entry>>)
    requires |t| > 0
    ensures |t'| == |t|
  {
    var c := Index(e.key, |t|, signedChar);
    if Find(t[c], e.key) < |t[c]| then t else t[c := [e] + t[c]]
  }

  /** A bucket without a key. */
  function Dropped(b: seq<Entry>, key: Key): seq<Entry> {
    var k := Find(b, key);
    if k < |b| then Without(b, k) else b
  }

  function Removed(t: seq<seq<Entry>>, key: Key, signedChar: bool): (t': seq<seq<Entry>>)
    requires |t| > 0
    ensures |t'| == |t|
  {
    var c := Index(key, |t|, signedChar);
    t[c := Dropped(t[c], key)]
  }

  lemma {:induction false} FindIs(b: seq<Entry>, key: Key, k: nat)
    requires k <= |b| && (k < |b| ==> b[k].key == key) && forall j :: 0 <= j < k ==> b[j].key != key
    ensures Find(b, key) == k
  {
    if k > 0 { FindIs(b[1..], key, k - 1); }
  }

  lemma PrependOk(b: seq<Entry>, e: Entry, c: nat, max: nat, signedChar: bool)
    requires BucketOk(b, c, max, signedChar) && Find(b, e.key) == |b| && Index(e.key, max, signedChar) == c
    ensures BucketOk([e] + b, c, max, signedChar)
    ensures forall key :: ValueIn([e] + b, key) == if key == e.key then Some(e.val) else ValueIn(b, key)
  {
    hide Index, Find, ValueIn;
    forall key ensures ValueIn([e] + b, key) == if key == e.key then Some(e.val) else ValueIn(b, key) {
      PrependValue(b, e, key);
    }
  }

  lemma PrependValue(b: seq<Entry>, e: Entry, key: Key)
    ensures ValueIn([e] + b, key) == if key == e.key then Some(e.val) else ValueIn(b, key)
  {
    assert ([e] + b)[1..] == b;
  }

  lemma WithoutValue(b: seq<Entry>, k: nat, key: Key)
    requires DistinctKeys(b) && k < |b|
    ensures ValueIn(Without(b, k), key) == if key == b[k].key then None else ValueIn(b, key)
  {
    var b' := Without(b, k);
    var f := Find(b, key);
    assert forall i :: 0 <= i < |b'| ==> b'[i] == b[if i < k then i else i + 1];
    if key == b[k].key || f == |b| {
      FindIs(b', key, |b'|);
    } else {
      FindIs(b', key, if f < k then f else f - 1);
    }
  }

  lemma WithoutOk(b: seq<Entry>, k: nat, c: nat, max: nat, signedChar: bool)
    requires BucketOk(b, c, max, signedChar) && k < |b|
    ensures BucketOk(Without(b, k), c, max, signedChar)
    ensures forall key :: ValueIn(Without(b, k), key) == if key == b[k].key then None else ValueIn(b, key)
  {
    hide Index, Find, ValueIn;
    var b' := Without(b, k);
    assert forall i :: 0 <= i < |b'| ==> b'[i] == b[if i < k then i else i + 1];
    forall key ensures ValueIn(b', key) == if key == b[k].key then None else ValueIn(b, key) {
      WithoutValue(b, k, key);
    }
  }

  lemma InsertedOk(t: seq<seq<Entry>>, e: Entry, signedChar: bool)
    requires |t| > 0 && TableOk(t, signedChar)
    ensures TableOk(Inserted(t, e, signedChar), signedChar)
  {
    var c := Index(e.key, |t|, signedChar);
    assert BucketOk(t[c], c, |t|, signedChar);
    if Find(t[c], e.key) == |t[c]| { PrependOk(t[c], e, c, |t|, signedChar); }
    hide Index, BucketOk, Find;
  }

  lemma DroppedOk(b: seq<Entry>, key: Key, c: nat, max: nat, signedChar: bool)
    requires BucketOk(b, c, max, signedChar)
    ensures BucketOk(Dropped(b, key), c, max, signedChar)
    ensures forall x :: ValueIn(Dropped(b, key), x) == if x == key then None else ValueIn(b, x)
  {
    var k := Find(b, key);
    if k < |b| { WithoutOk(b, k, c, max, signedChar); }
    hide Index, BucketOk, Find, Without;
  }

  lemma RemovedOk(t: seq<seq<Entry>>, key: Key, signedChar: bool)
    requires |t| > 0 && TableOk(t, signedChar)
    ensures TableOk(Removed(t, key, signedChar), signedChar)
  {
    var c := Index(key, |t|, signedChar);
    assert BucketOk(t[c], c, |t|, signedChar);
    DroppedOk(t[c], key, c, |t|, signedChar);
    hide Index, BucketOk, Find, Dropped;
  }

  /** Insert refines insert-if-absent: a key that is present keeps its old value. */
  lemma InsertRefines(t: seq<seq<Entry>>, m: map<Key, Bytes>, e: Entry, signedChar: bool)
    requires |t| > 0 && TableOk(t, signedChar) && Represents(t, m, signedChar)
    ensures TableOk(Inserted(t, e, signedChar), signedChar)
    ensures Represents(Inserted(t, e, signedChar), if e.key in m then m else m[e.key := e.val], signedChar)
  {
    var c := Index(e.key, |t|, signedChar);
    assert Lookup(t, e.key, signedChar).Some? <==> e.key in m;
    InsertedOk(t, e, signedChar);
    if e.key !in m {
      assert BucketOk(t[c], c, |t|, signedChar);
      hide TableOk, BucketOk;
      PrependOk(t[c], e, c, |t|, signedChar);
    }
    hide Index, TableOk, BucketOk, ValueIn;
  }

  /** Remove deletes only its key. */
  lemma RemoveRefines(t: seq<seq<Entry>>, m: map<Key, Bytes>, key: Key, signedChar: bool)
    requires |t| > 0 && TableOk(t, signedChar) && Represents(t, m, signedChar)
    ensures TableOk(Removed(t, key, signedChar), signedChar)
    ensures Represents(Removed(t, key, signedChar), m - {key}, signedChar)
  {
    var c := Index(key, |t|, signedChar);
    assert BucketOk(t[c], c, |t|, signedChar);
    DroppedOk(t[c], key, c, |t|, signedChar);
    RemovedOk(t, key, signedChar);
    hide Index, BucketOk, Dropped, TableOk, ValueIn;
  }

  datatype Op = Insert(e: Entry) | Remove(key: Key)

  function Exec(t: seq<seq<Entry>>, ops: seq<Op>, signedChar: bool): (t': seq<seq<Entry>>)
    requires |t| > 0
    ensures |t'| == |t|
    decreases |ops|
  {
    if ops == [] then t
    else
      var t1 := match ops[0]
        case Insert(e) => Inserted(t, e, signedChar)
        case Remove(key) => Removed(t, key, signedChar);
      Exec(t1, ops[1..], signedChar)
  }

  /** The same operations on an insert-if-absent map. */
  function ExecMap(m: map<Key, Bytes>, ops: seq<Op>): map<Key, Bytes>
    decreases |ops|
  {
    if ops == [] then m
    else
      var m1 := match ops[0]
        case Insert(e) => if e.key in m then m else m[e.key := e.val]
        case Remove(key) => m - {key};
      ExecMap(m1, ops[1..])
  }

  /** Over any run of operations, whatever hash values the keys have, the table stays well formed and stands for
      the insert-if-absent map. */
  lemma {:induction false} RunRefines(t: seq<seq<Entry>>, m: map<Key, Bytes>, ops: seq<Op>, signedChar: bool)
    requires |t| > 0 && TableOk(t, signedChar) && Represents(t, m, signedChar)
    ensures TableOk(Exec(t, ops, signedChar), signedChar)
    ensures Represents(Exec(t, ops, signedChar), ExecMap(m, ops), signedChar)
    decreases |ops|
  {
    hide TableOk, Represents, Inserted, Removed;
    if ops != [] {
      match ops[0] {
        case Insert(e) =>
          InsertRefines(t, m, e, signedChar);
          RunRefines(Inserted(t, e, signedChar), if e.key in m then m else m[e.key := e.val], ops[1..], signedChar);
        case Remove(key) =>
          RemoveRefines(t, m, key, signedChar);
          RunRefines(Removed(t, key, signedChar), m - {key}, ops[1..], signedChar);
      }
    }
  }

  // ---- The table on the heap --------------------------------------------------------------------------------------

  type Ref = Node?<Entry>

  ghost predicate ChainAt(head: Ref, s: seq<Node<Entry>>)
    reads s
  {
    head == (if s == [] then null else s[0]) && Linked(s)
  }

  ghost predicate Within(chains: seq<seq<Node<Entry>>>, nodes: set<Node<Entry>>) {
    forall c, n :: 0 <= c < |chains| && n in chains[c] ==> n in nodes
  }

  ghost predicate ChainsOk(heads: seq<Ref>, chains: seq<seq<Node<Entry>>>, nodes: set<Node<Entry>>)
    requires Within(chains, nodes)
    reads nodes
  {
    |heads| == |chains| && forall c :: 0 <= c < |chains| ==> ChainAt(heads[c], chains[c])
  }

  /** What the buckets hold. */
  ghost function View(chains: seq<seq<Node<Entry>>>, nodes: set<Node<Entry>>): (b: seq<seq<Entry>>)
    requires Within(chains, nodes)
    reads nodes
    ensures |b| == |chains| && forall c :: 0 <= c < |b| ==> b[c] == Payloads(chains[c])
  {
    seq(|chains|, c reads nodes requires Within(chains, nodes) && 0 <= c < |chains| => Payloads(chains[c]))
  }

  /** The walk along a bucket. */
  method Search(head: Ref, ghost s: seq<Node<Entry>>, key: Key) returns (node: Ref)
    requires Linked(s) && head == if s == [] then null else s[0]
    ensures var k := Find(Payloads(s), key); node == if k < |s| then s[k] else null
  {
    node := head;
    ghost var k := 0;
    while node != null
      invariant 0 <= k <= |s| && node == if k < |s| then s[k] else null
      invariant forall j :: 0 <= j < k ==> Payloads(s)[j].key != key
      decreases |s| - k
    {
      if node.data.key == key {
        break;
      }
      node := node.next;
      k := k + 1;
    }
    FindIs(Payloads(s), key, k);
  }

  /** The unlinking part of remove, on a bucket that is not empty; t is the chain that remains. */
  method RemoveNode(head: Node<Entry>, ghost s: seq<Node<Entry>>, key: Key)
    returns (ret: int, head': Ref, ghost t: seq<Node<Entry>>)
    requires Linked(s) && s != [] && head == s[0]
    modifies s
    ensures Linked(t) && head' == (if t == [] then null else t[0]) && forall n :: n in t ==> n in s
    ensures Payloads(t) == Dropped(old(Payloads(s)), key)
    ensures ret == if ValueIn(old(Payloads(s)), key).Some? then 0 else -1
  {
    ret, head', t := -1, head, s;
    ghost var b := Payloads(s);
    if head.data.key == key {
      FindIs(b, key, 0);
      ret, head', t := 0, head.next, Without(s, 0);
      LinkedTail(s);
      return;
    }
    ghost var i := 1;
    var pre, cur := head, head.next;
    while cur != null
      invariant 1 <= i <= |s| && pre == s[i - 1] && cur == if i < |s| then s[i] else null
      invariant forall j :: 0 <= j < i ==> b[j].key != key
      invariant Linked(s) && Payloads(s) == b
      decreases |s| - i
    {
      if cur.data.key == key {
        FindIs(b, key, i);
        hide *;
        Unlink(s, i, pre, cur);
        t := Without(s, i);
        ret := 0;
        return;
      }
      pre := cur;
      cur := pre.next;
      i := i + 1;
    }
    FindIs(b, key, i);
  }

  /** The buckets other than c, whose nodes are among `rest`. */
  ghost predicate Others(heads: seq<Ref>, chains: seq<seq<Node<Entry>>>, v: seq<seq<Entry>>, c: nat,
                         rest: set<Node<Entry>>)
    requires forall d, n :: 0 <= d < |chains| && d != c && n in chains[d] ==> n in rest
    reads rest
  {
    && |heads| == |chains| == |v|
    && forall d :: 0 <= d < |chains| && d != c ==> ChainAt(heads[d], chains[d]) && Payloads(chains[d]) == v[d]
  }

  lemma IsChain(head: Ref, s: seq<Node<Entry>>)
    requires Linked(s) && head == if s == [] then null else s[0]
    ensures ChainAt(head, s)
  {
  }

  /** The unlinking seen from the whole table: the other buckets do not notice. */
  method UnlinkFrom(head: Node<Entry>, ghost heads: seq<Ref>, ghost chains: seq<seq<Node<Entry>>>,
                    ghost nodes: set<Node<Entry>>, ghost c: nat, key: Key)
    returns (ret: int, head': Ref, ghost t: seq<Node<Entry>>)
    requires Within(chains, nodes) && ChainsOk(heads, chains, nodes) && c < |chains|
    requires head == heads[c] && chains[c] != [] && Apart(chains, c)
    modifies nodes
    ensures Within(chains[c := t], nodes) && ChainsOk(heads[c := head'], chains[c := t], nodes)
    ensures var v := old(View(chains, nodes));
            && View(chains[c := t], nodes) == v[c := Dropped(v[c], key)]
            && ret == if ValueIn(v[c], key).Some? then 0 else -1
  {
    ghost var v := View(chains, nodes);
    ghost var rest := nodes - Elements(chains[c]);
    assert forall n :: n in chains[c] ==> n in nodes;
    assert ChainAt(heads[c], chains[c]);
    assert Others(heads, chains, v, c, rest);
    hide *;
    ret, head', t := RemoveNode(head, chains[c], key);
    assert ChainAt(head', t) by { IsChain(head', t); }
    BucketOnly(heads, chains, nodes, v, c, rest, head', t);
  }

  class ClHash {
    const table: array<Ref>
    const signedChar: bool
    ghost var nodes: set<Node<Entry>>
    ghost var chains: seq<seq<Node<Entry>>>

    ghost predicate Valid()
      reads this, table, nodes
    {
      && table.Length > 0 && Within(chains, nodes) && ChainsOk(table[..], chains, nodes)
      && TableOk(View(chains, nodes), signedChar)
    }

    ghost function Buckets(): (b: seq<seq<Entry>>)
      requires Valid()
      reads this, table, nodes
      ensures |b| == table.Length
    {
      View(chains, nodes)
    }

    constructor (n: nat, signedChar: bool)
      requires n > 0
      ensures Valid() && Buckets() == seq(n, _ => []) && fresh(table) && nodes == {} && this.signedChar == signedChar
      ensures Represents(Buckets(), map[], signedChar)
    {
      table := new Ref[n](_ => null);
      this.signedChar := signedChar;
      nodes, chains := {}, seq(n, _ => []);
    }

    /** pKey and pVal are None for a NULL pointer; a key that is present keeps its old value. */
    method Insert(pKey: Option<Key>, pVal: Option<Bytes>) returns (ret: int)
      requires Valid()
      modifies this, table
      ensures Valid() && fresh(nodes - old(nodes)) && |Buckets()| == |old(Buckets())|
      ensures ret == if pKey.Some? && pVal.Some? then 0 else -1
      ensures Buckets() == if ret == 0 then Inserted(old(Buckets()), Entry(pKey.value, pVal.value), signedChar)
                           else old(Buckets())
    {
      ret := -1;
      if pKey.None? || pVal.None? {
        return;
      }
      ghost var b := Buckets();
      var index := ElfHash(pKey.value, table.Length, signedChar);
      assert ChainAt(table[..][index], chains[index]);
      hide TableOk, Find, Payloads, Linked;
      var found := Search(table[index], chains[index], pKey.value);
      ret := 0;
      InsertedOk(b, Entry(pKey.value, pVal.value), signedChar);
      if found == null {
        hide View, Within, ChainsOk, Index;
        LinkFront(index, Entry(pKey.value, pVal.value));
      }
    }

    /** A new node in front of a bucket. */
    method LinkFront(index: nat, e: Entry)
      requires Within(chains, nodes) && ChainsOk(table[..], chains, nodes) && index < table.Length
      modifies this, table
      ensures nodes > old(nodes) && fresh(nodes - old(nodes))
      ensures Within(chains, nodes) && ChainsOk(table[..], chains, nodes)
      ensures View(chains, nodes) == var v := old(View(chains, nodes)); v[index := [e] + v[index]]
    {
      hide Within, ChainsOk, View;
      ghost var heads, was, v := table[..], chains, View(chains, nodes);
      var n := new Node(e);
      n.next := table[index];
      FrontOk(heads, was, nodes, index, n);
      table[index] := n;
      nodes := nodes + {n};
      chains := was[index := [n] + was[index]];
      assert table[..] == heads[index := n];
    }

    /** None for NULL: no such key, or no key given. */
    method GetVal(pKey: Option<Key>) returns (val: Option<Bytes>)
      requires Valid()
      ensures val == if pKey.None? then None else Lookup(Buckets(), pKey.value, signedChar)
    {
      val := None;
      if pKey.Some? {
        var index := ElfHash(pKey.value, table.Length, signedChar);
        assert ChainAt(table[..][index], chains[index]);
        hide TableOk, Find, Linked, Index;
        var node := Search(table[index], chains[index], pKey.value);
        if node != null {
          val := Some(node.data.val);
        }
      }
    }

    /** The bucket must not be empty: its head is dereferenced before it is tested. */
    method Remove(pKey: Option<Key>) returns (ret: int)
      requires Valid()
      requires pKey.Some? ==> Buckets()[Index(pKey.value, table.Length, signedChar)] != []
      modifies this, table, nodes
      ensures Valid() && |Buckets()| == |old(Buckets())| && nodes == old(nodes)
      ensures ret == if pKey.Some? && Lookup(old(Buckets()), pKey.value, signedChar).Some? then 0 else -1
      ensures Buckets() == if pKey.Some? then Removed(old(Buckets()), pKey.value, signedChar) else old(Buckets())
    {
      ret := -1;
      if pKey.None? {
        return;
      }
      ghost var b := Buckets();
      var index := ElfHash(pKey.value, table.Length, signedChar);
      RemovedOk(b, pKey.value, signedChar);
      BucketsApart(chains, nodes, index, signedChar);
      hide TableOk, Find, Within, ChainsOk, Dropped, ValueIn;
      ret := UnlinkKey(index, pKey.value);
    }

    method UnlinkKey(index: nat, key: Key) returns (ret: int)
      requires Within(chains, nodes) && ChainsOk(table[..], chains, nodes) && index < table.Length
      requires chains[index] != [] && Apart(chains, index)
      modifies this, table, nodes
      ensures nodes == old(nodes) && Within(chains, nodes) && ChainsOk(table[..], chains, nodes)
      ensures var v := old(View(chains, nodes));
              && View(chains, nodes) == v[index := Dropped(v[index], key)]
              && ret == if ValueIn(v[index], key).Some? then 0 else -1
    {
      ghost var heads, was, v := table[..], chains, View(chains, nodes);
      var head;
      ghost var t;
      ret, head, t := UnlinkFrom(table[index], heads, was, nodes, index, key);
      hide *;
      table[index] := head;
      chains := was[index := t];
      assert table[..] == heads[index := head];
    }
  }

  /** The table after one bucket's chain has changed. */
  lemma BucketOnly(heads: seq<Ref>, chains: seq<seq<Node<Entry>>>, nodes: set<Node<Entry>>, v: seq<seq<Entry>>,
                   index: nat, rest: set<Node<Entry>>, head: Ref, t: seq<Node<Entry>>)
    requires Within(chains, nodes) && index < |chains|
    requires forall d, n :: 0 <= d < |chains| && d != index && n in chains[d] ==> n in rest
    requires Others(heads, chains, v, index, rest)
    requires ChainAt(head, t) && forall n :: n in t ==> n in chains[index]
    ensures Within(chains[index := t], nodes) && ChainsOk(heads[index := head], chains[index := t], nodes)
    ensures View(chains[index := t], nodes) == v[index := Payloads(t)]
  {
    hide Payloads, ChainAt;
    assert forall n :: n in chains[index] ==> n in nodes;
  }

  ghost predicate Apart(chains: seq<seq<Node<Entry>>>, c: nat)
    requires c < |chains|
  {
    forall d, n :: 0 <= d < |chains| && d != c && n in chains[d] ==> n !in chains[c]
  }

  /** No node is in two buckets: its key says which one it belongs to. */
  lemma BucketsApart(chains: seq<seq<Node<Entry>>>, nodes: set<Node<Entry>>, c: nat, signedChar: bool)
    requires Within(chains, nodes) && TableOk(View(chains, nodes), signedChar) && c < |chains|
    ensures Apart(chains, c)
  {
    var v := View(chains, nodes);
    hide Index;
    forall d, n | 0 <= d < |chains| && n in chains[d] ensures Index(n.data.key, |v|, signedChar) == d {
      var i :| 0 <= i < |chains[d]| && chains[d][i] == n;
      assert BucketOk(v[d], d, |v|, signedChar);
      assert v[d][i] == n.data;
    }
  }

  lemma FrontOk(heads: seq<Ref>, chains: seq<seq<Node<Entry>>>, nodes: set<Node<Entry>>, index: nat, n: Node<Entry>)
    requires Within(chains, nodes) && ChainsOk(heads, chains, nodes) && n !in nodes
    requires index < |heads| && n.next == heads[index]
    ensures index < |chains|
    ensures var chains', nodes' := chains[index := [n] + chains[index]], nodes + {n};
            && Within(chains', nodes') && ChainsOk(heads[index := n], chains', nodes')
            && View(chains', nodes') == View(chains, nodes)[index := [n.data] + View(chains, nodes)[index]]
  {
    assert ChainAt(heads[index], chains[index]);
    LinkedFront(n, chains[index]);
    hide Linked, Payloads;
    var chains', nodes' := chains[index := [n] + chains[index]], nodes + {n};
    forall c | 0 <= c < |chains'| ensures ChainAt(heads[index := n][c], chains'[c]) {
      assert ChainAt(heads[c], chains[c]);
    }
  }
}
