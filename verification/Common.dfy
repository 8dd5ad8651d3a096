/** Small shared vocabulary: optional values and division with a variable divisor. */
module Common {
  datatype Option<+T> = None | Some(value: T)

  /** An unsigned char.  Shifts and masks of bytes are written as division and remainder. */
  type Byte = b: int | 0 <= b < 0x100

  /** The number of values of a 32-bit unsigned int, and those values. */
  const TWO32: nat := 0x1_0000_0000
  type Word = w: int | 0 <= w < 0x1_0000_0000

  lemma MulMagnitude(n: int, d: int)
    requires 0 < n
    ensures d > 0 ==> n * d >= n
    ensures d < 0 ==> n * d <= -n
  {
  }

  /** Quotient and remainder are determined by their defining equation. */
  lemma DivModUnique(x: int, n: int, q: int, r: int)
    requires 0 < n && x == q * n + r && 0 <= r < n
    ensures x / n == q && x % n == r
  {
    var d := q - x / n;
    assert x == (x / n) * n + x % n;
    assert n * d == x % n - r;
    MulMagnitude(n, d);
  }

  /** Advancing a cyclic position by less than a whole turn wraps at most once. */
  lemma CyclicAdd(x: nat, d: nat, n: nat)
    requires d < n
    ensures (x + d) % n == if x % n + d < n then x % n + d else x % n + d - n
  {
    var q := x / n;
    assert x == q * n + x % n;
    if x % n + d < n {
      DivModUnique(x + d, n, q, x % n + d);
    } else {
      assert (q + 1) * n == q * n + n;
      DivModUnique(x + d, n, q + 1, x % n + d - n);
    }
  }

  /** Whole turns do not move a cyclic position. */
  lemma CyclicTurns(x: nat, k: nat, n: nat)
    requires 0 < n
    ensures (x + k * n) % n == x % n
  {
    var q := x / n;
    assert x == q * n + x % n;
    assert (q + k) * n == q * n + k * n;
    DivModUnique(x + k * n, n, q + k, x % n);
  }

  /** Stepping a wrapped position is stepping what it stands for. */
  lemma CyclicNext(x: nat, n: nat)
    requires 0 < n
    ensures (x % n + 1) % n == (x + 1) % n
  {
    if n == 1 {
      CyclicTurns(0, x + 1, 1);
    } else {
      CyclicAdd(x, 1, n);
      DivModUnique(x % n, n, 0, x % n);
      CyclicAdd(x % n, 1, n);
    }
  }

  /** The naturals below n. */
  ghost function UpTo(n: nat): (s: set<nat>)
    ensures |s| == n
    ensures forall j: nat :: j in s <==> j < n
  {
    if n == 0 then {} else UpTo(n - 1) + {n - 1}
  }

  ghost function Elements<T>(s: seq<T>): set<T> {
    set x | x in s
  }

  lemma {:induction false} DistinctCardinality<T>(s: seq<T>)
    requires forall i, j :: 0 <= i < j < |s| ==> s[i] != s[j]
    ensures |Elements(s)| == |s|
  {
    if s != [] {
      DistinctCardinality(s[1..]);
      assert Elements(s) == Elements(s[1..]) + {s[0]};
    }
  }

  lemma {:induction false} ValuesAtMostKeys<K, V>(m: map<K, V>)
    ensures |m.Values| <= |m.Keys|
    decreases |m.Keys|
  {
    if m.Keys == {} {
      assert m.Values == {};
    } else {
      var k :| k in m.Keys;
      var rest := m - {k};
      ValuesAtMostKeys(rest);
      assert m.Keys == rest.Keys + {k};
      assert m.Values <= rest.Values + {m[k]};
      SubsetCardinality(m.Values, rest.Values + {m[k]});
    }
  }

  lemma {:induction false} SubsetCardinality<T>(a: set<T>, b: set<T>)
    requires a <= b
    ensures |a| <= |b|
  {
    assert b == a + (b - a);
    assert a !! (b - a);
  }

  lemma PartitionCardinality<T>(whole: set<T>, a: set<T>, b: set<T>, c: set<T>)
    requires whole == a + b + c && a !! b && a !! c && b !! c
    ensures |whole| == |a| + |b| + |c|
  {
    assert |a + b| == |a| + |b|;
    assert (a + b) !! c;
  }
}
