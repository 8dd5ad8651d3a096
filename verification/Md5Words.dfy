/**
 * The word macros of MD5 (common/md5.cpp:52-98): F, G, H, I and the rotation, on the bits of a 32-bit word, and what
 * they are in arithmetic.
 */
module Md5Words {
  import opened Common

  /** The 32 bits of a word. */
  function Bits(x: Word): bv32 {
    x as bv32
  }

  /** The word that 32 bits stand for. */
  function Value(b: bv32): Word {
    b as Word
  }

  function Add(x: Word, y: Word): Word {
    (x + y) % 0x1_0000_0000
  }

  function And(x: bv32, y: bv32): bv32 { x & y }

  function Or(x: bv32, y: bv32): bv32 { x | y }

  function Xor(x: bv32, y: bv32): bv32 { x ^ y }

  function Not(x: bv32): bv32 { !x }

  function F(x: Word, y: Word, z: Word): Word {
    var (x, y, z) := (Bits(x), Bits(y), Bits(z));
    Value(Or(And(x, y), And(Not(x), z)))
  }

  function G(x: Word, y: Word, z: Word): Word {
    var (x, y, z) := (Bits(x), Bits(y), Bits(z));
    Value(Or(And(x, z), And(y, Not(z))))
  }

  function H(x: Word, y: Word, z: Word): Word {
    var (x, y, z) := (Bits(x), Bits(y), Bits(z));
    Value(Xor(Xor(x, y), z))
  }

  function I(x: Word, y: Word, z: Word): Word {
    var (x, y, z) := (Bits(x), Bits(y), Bits(z));
    Value(Xor(y, Or(x, Not(z))))
  }

  function Rol(x: bv32, n: bv32): bv32
    requires 0 < n < 32
  {
    (x << n) | (x >> (32 - n))
  }

  function RotateLeft(x: Word, n: bv32): Word
    requires 0 < n < 32
  {
    Value(Rol(Bits(x), n))
  }

  // ---- Words and their bits ------------------------------------------------------------------------------------

  lemma BitsOfValue(b: bv32)
    ensures Bits(Value(b)) == b
  {
  }

  lemma Double(b: bv32)
    ensures Value(b << 1) + 0x1_0000_0000 * Value(b >> 31) == 2 * Value(b)
    ensures Value((b << 1) | (b >> 31)) == Value(b << 1) + Value(b >> 31)
  {
  }

  lemma AppendZero(b: bv32)
    requires b < 0x8000_0000
    ensures Value(b << 1) == 2 * Value(b)
  {
  }

  lemma AppendOne(b: bv32)
    requires b < 0x8000_0000
    ensures Value((b << 1) | 1) == 2 * Value(b) + 1
  {
  }

  lemma TopBitClear(b: bv32)
    ensures b < 0x8000_0000 <==> Value(b) < 0x8000_0000
  {
  }

  /** Every word is the value of some bits. */
  lemma {:induction false} BitsExist(x: Word) returns (b: bv32)
    ensures Value(b) == x
  {
    if x == 0 {
      b := 0;
      assert Value(0) == 0;
    } else {
      hide Value;
      var half := BitsExist(x / 2);
      TopBitClear(half);
      if x % 2 == 0 {
        b := half << 1;
        AppendZero(half);
      } else {
        b := (half << 1) | 1;
        AppendOne(half);
      }
    }
  }

  lemma ValueOfBits(x: Word)
    ensures Value(Bits(x)) == x
  {
    var b := BitsExist(x);
    BitsOfValue(b);
  }

  function Pow2(n: nat): nat {
    if n == 0 then 1 else 2 * Pow2(n - 1)
  }

  lemma MoveFactor(x: int, y: int)
    ensures (2 * x) * y == x * (2 * y)
  {
  }

  lemma {:induction false} Pow2Split(m: nat, n: nat)
    requires n <= m
    ensures Pow2(n) * Pow2(m - n) == Pow2(m) && Pow2(n) > 0
  {
    if n > 0 {
      Pow2Split(m, n - 1);
      assert Pow2(m - (n - 1)) == 2 * Pow2(m - n) && Pow2(n) == 2 * Pow2(n - 1);
      MoveFactor(Pow2(n - 1), Pow2(m - n));
    }
  }

  lemma Pow2Word()
    ensures Pow2(32) == 0x1_0000_0000
  {
    assert Pow2(8) == 0x100;
    assert Pow2(16) == 0x1_0000;
    assert Pow2(24) == 0x100_0000;
  }

  // ---- Shifts ----------------------------------------------------------------------------------------------------

  ghost function Low(x: bv32, n: bv32): bv32
    requires 0 < n < 32
  {
    x << n
  }

  ghost function High(x: bv32, n: bv32): bv32
    requires 0 < n < 32
  {
    x >> (32 - n)
  }

  /** lo and hi are p times x, cut at bit 32, and r is both together. */
  ghost predicate Cut(x: int, lo: int, hi: int, r: int, p: int) {
    lo + 0x1_0000_0000 * hi == p * x && r == lo + hi
  }

  /** What hi becomes when hi and lo are shifted on by one place. */
  ghost function Carry(lo: bv32, hi: bv32): bv32 {
    (hi << 1) | (lo >> 31)
  }

  lemma OnePlaceBits(x: bv32)
    ensures Low(x, 1) == x << 1 && High(x, 1) == x >> 31 && Rol(x, 1) == (x << 1) | (x >> 31)
  {
  }

  lemma OnePlace(x: bv32)
    ensures Value(Low(x, 1)) + 0x1_0000_0000 * Value(High(x, 1)) == 2 * Value(x)
    ensures Value(Rol(x, 1)) == Value(Low(x, 1)) + Value(High(x, 1))
  {
    Double(x);
    OnePlaceBits(x);
    hide Value;
  }

  lemma CarryValue(lo: bv32, hi: bv32)
    requires hi < 0x8000_0000
    ensures Value(Carry(lo, hi)) == 2 * Value(hi) + Value(High(lo, 1))
  {
  }

  ghost predicate Parts(lo: bv32, hi: bv32, r: bv32) {
    hi < 0x8000_0000 && r == Or(lo, hi)
  }

  lemma SameTop(lo: bv32, hi: bv32, r: bv32)
    requires Parts(lo, hi, r)
    ensures High(r, 1) == High(lo, 1)
  {
  }

  lemma CutInts(x: int, lo: int, hi: int, r: int, p: int, lo': int, hi': int, r': int, rLow: int, t: int)
    requires Cut(x, lo, hi, r, p)
    requires lo' + 0x1_0000_0000 * t == 2 * lo && rLow + 0x1_0000_0000 * t == 2 * r
    requires hi' == 2 * hi + t && r' == rLow + t
    ensures Cut(x, lo', hi', r', 2 * p)
  {
    assert (2 * p) * x == 2 * (p * x);
  }

  lemma CutStep(x: bv32, lo: bv32, hi: bv32, r: bv32, p: int)
    requires Cut(Value(x), Value(lo), Value(hi), Value(r), p) && Parts(lo, hi, r)
    ensures Cut(Value(x), Value(Low(lo, 1)), Value(Carry(lo, hi)), Value(Rol(r, 1)), 2 * p)
  {
    hide Cut, Value, Low, High, Rol, Carry;
    SameTop(lo, hi, r);
    OnePlace(lo);
    OnePlace(r);
    CarryValue(lo, hi);
    CutInts(Value(x), Value(lo), Value(hi), Value(r), p, Value(Low(lo, 1)), Value(Carry(lo, hi)), Value(Rol(r, 1)),
            Value(Low(r, 1)), Value(High(lo, 1)));
  }

  // Shifting by n places is shifting by m = n - 1 and then by one.

  lemma LowStep(x: bv32, m: bv32, n: bv32)
    requires 0 < m < 31 && n == m + 1
    ensures Low(Low(x, m), 1) == Low(x, n)
  {
  }

  lemma HighStep(x: bv32, m: bv32, n: bv32)
    requires 0 < m < 31 && n == m + 1
    ensures Carry(Low(x, m), High(x, m)) == High(x, n)
  {
  }

  lemma RolParts(x: bv32, m: bv32)
    requires 0 < m < 32
    ensures Rol(x, m) == Or(Low(x, m), High(x, m)) && (m < 31 ==> Parts(Low(x, m), High(x, m), Rol(x, m)))
  {
  }

  lemma RolOnePlace(lo: bv32, hi: bv32, r: bv32)
    requires Parts(lo, hi, r)
    ensures Rol(r, 1) == Or(Low(lo, 1), Carry(lo, hi))
  {
  }

  lemma RolStep(x: bv32, m: bv32, n: bv32)
    requires 0 < m < 31 && n == m + 1
    ensures Rol(Rol(x, m), 1) == Rol(x, n)
  {
    hide *;
    LowStep(x, m, n);
    HighStep(x, m, n);
    RolParts(x, m);
    RolParts(x, n);
    RolOnePlace(Low(x, m), High(x, m), Rol(x, m));
  }

  lemma CutOn(x: bv32, m: bv32, n: bv32, p: int)
    requires 0 < m < 31 && n == m + 1
    requires Cut(Value(x), Value(Low(x, m)), Value(High(x, m)), Value(Rol(x, m)), p)
    ensures Cut(Value(x), Value(Low(x, n)), Value(High(x, n)), Value(Rol(x, n)), 2 * p)
  {
    hide *;
    LowStep(x, m, n);
    HighStep(x, m, n);
    RolStep(x, m, n);
    RolParts(x, m);
    CutStep(x, Low(x, m), High(x, m), Rol(x, m), p);
  }

  lemma CutFirst(x: bv32)
    ensures Cut(Value(x), Value(Low(x, 1)), Value(High(x, 1)), Value(Rol(x, 1)), 2)
  {
    hide Value, Low, High, Rol;
    OnePlace(x);
  }

  lemma OneLess(n: bv32)
    requires 0 < n < 32
    ensures Value(n) < 32 && Value(n - 1) == Value(n) - 1 && (n == 1 ==> Value(n) == 1)
  {
  }

  lemma {:induction false} ShiftCuts(x: bv32, n: bv32, k: nat)
    requires 0 < n < 32 && k == Value(n)
    ensures Cut(Value(x), Value(Low(x, n)), Value(High(x, n)), Value(Rol(x, n)), Pow2(k))
    decreases k
  {
    hide Value, Low, High, Rol, Cut;
    OneLess(n);
    if n == 1 {
      CutFirst(x);
    } else {
      ShiftCuts(x, n - 1, k - 1);
      CutOn(x, n - 1, n, Pow2(k - 1));
    }
  }

  lemma Between(p: int, q: int, rest: int)
    requires p > 0 && 0 <= p * rest < p * q
    ensures 0 <= rest < q
  {
    MulMagnitude(p, rest);
    MulMagnitude(p, rest - q);
  }

  lemma CutExact(x: Word, lo: Word, hi: Word, r: Word, p: int, q: int)
    requires p > 0 && q > 0 && p * q == 0x1_0000_0000 && Cut(x, lo, hi, r, p)
    ensures lo == x * p % 0x1_0000_0000 && hi == x / q && r == lo + hi
  {
    DivModUnique(x * p, 0x1_0000_0000, hi, lo);
    var rest := x - q * hi;
    assert p * rest == lo by { assert p * rest == p * x - (p * q) * hi; }
    Between(p, q, rest);
    DivModUnique(x, q, hi, rest);
  }

  lemma CutAtPower(x: Word, lo: Word, hi: Word, r: Word, k: nat)
    requires k <= 32 && Cut(x, lo, hi, r, Pow2(k))
    ensures Pow2(32 - k) > 0
    ensures hi == x / Pow2(32 - k) && r == x * Pow2(k) % 0x1_0000_0000 + x / Pow2(32 - k)
  {
    Pow2Word();
    Pow2Split(32, k);
    Pow2Split(32, 32 - k);
    CutExact(x, lo, hi, r, Pow2(k), Pow2(32 - k));
  }

  /** The right shift and the rotation of some bits, in arithmetic. */
  lemma ShiftsExact(x: bv32, n: bv32, k: nat)
    requires 0 < n < 32 && k == Value(n)
    ensures k < 32 && Pow2(32 - k) > 0
    ensures Value(High(x, n)) == Value(x) / Pow2(32 - k)
    ensures Value(Rol(x, n)) == Value(x) * Pow2(k) % 0x1_0000_0000 + Value(x) / Pow2(32 - k)
  {
    hide *;
    OneLess(n);
    ShiftCuts(x, n, k);
    CutAtPower(Value(x), Value(Low(x, n)), Value(High(x, n)), Value(Rol(x, n)), k);
  }

  /** Rotation in arithmetic: what leaves at the top comes in at the bottom. */
  lemma RotateLeftExact(x: Word, n: bv32)
    requires 0 < n < 32
    ensures var k := Value(n);
            k < 32 && Pow2(32 - k) > 0 && RotateLeft(x, n) == x * Pow2(k) % 0x1_0000_0000 + x / Pow2(32 - k)
  {
    hide Value, Bits, Rol, Pow2;
    ValueOfBits(x);
    ShiftsExact(Bits(x), n, Value(n));
  }

  // ---- The macros, bit by bit --------------------------------------------------------------------------------------

  /** The digit of x at place i. */
  function Digit(x: Word, i: nat): (d: nat)
    requires Pow2(i) > 0
    ensures d < 2
  {
    x / Pow2(i) % 2
  }

  function BitAt(b: bv32, i: bv32): bv32
    requires i < 32
  {
    (b >> i) & 1
  }

  predicate On(b: bv32, i: bv32)
    requires i < 32
  {
    BitAt(b, i) == 1
  }

  lemma OffIsZero(b: bv32, i: bv32)
    requires i < 32
    ensures !On(b, i) ==> BitAt(b, i) == 0
  {
  }

  lemma LowestBit(b: bv32)
    ensures b >> 1 < 0x8000_0000 && (b & 1 == 0 || b & 1 == 1)
    ensures b == if b & 1 == 0 then (b >> 1) << 1 else ((b >> 1) << 1) | 1
  {
  }

  lemma ZeroAndOne()
    ensures Value(0) == 0 && Value(1) == 1
  {
  }

  lemma LowestDigit(b: bv32)
    ensures Value(b & 1) == Value(b) % 2
  {
    hide Value;
    LowestBit(b);
    ZeroAndOne();
    if b & 1 == 0 {
      AppendZero(b >> 1);
    } else {
      AppendOne(b >> 1);
    }
  }

  lemma FromHigh(b: bv32, i: bv32)
    requires 0 < i < 32
    ensures BitAt(b, i) == High(b, 32 - i) & 1 && Value(32 - i) == 32 - Value(i)
  {
  }

  lemma FirstBit(b: bv32)
    ensures BitAt(b, 0) == b & 1 && Value(0) == 0
  {
  }

  lemma PlaceBelow(i: bv32)
    requires i < 32
    ensures Value(i) < 32
  {
  }

  /** The bits of a word are its binary digits. */
  lemma BitIsDigit(b: bv32, i: bv32)
    requires i < 32
    ensures Pow2(Value(i)) > 0 && Value(BitAt(b, i)) == Digit(Value(b), Value(i))
  {
    hide *;
    if i == 0 {
      FirstDigit(b);
    } else {
      PlaceBelow(i);
      FromHigh(b, i);
      ShiftsExact(b, 32 - i, 32 - Value(i));
      LowestDigit(High(b, 32 - i));
      DigitOfQuotient(Value(b), Value(i));
    }
  }

  lemma FirstDigit(b: bv32)
    ensures Pow2(Value(0)) > 0 && Value(BitAt(b, 0)) == Digit(Value(b), Value(0))
  {
    hide Value, BitAt;
    FirstBit(b);
    LowestDigit(b);
  }

  lemma DigitOfQuotient(x: Word, k: nat)
    requires Pow2(k) > 0
    ensures Digit(x, k) == x / Pow2(k) % 2
  {
  }

  /** The bit of a word at place i, and its digit there. */
  lemma DigitOf(x: Word, i: bv32)
    requires i < 32
    ensures Pow2(Value(i)) > 0 && Digit(x, Value(i)) == if On(Bits(x), i) then 1 else 0
  {
    hide Value, Bits, BitAt, Digit, Pow2;
    ValueOfBits(x);
    BitIsDigit(Bits(x), i);
    ZeroAndOne();
    OffIsZero(Bits(x), i);
  }

  lemma OnAnd(x: bv32, y: bv32, i: bv32)
    requires i < 32
    ensures On(And(x, y), i) == (On(x, i) && On(y, i))
  {
  }

  lemma OnOr(x: bv32, y: bv32, i: bv32)
    requires i < 32
    ensures On(Or(x, y), i) == (On(x, i) || On(y, i))
  {
  }

  lemma OnXor(x: bv32, y: bv32, i: bv32)
    requires i < 32
    ensures On(Xor(x, y), i) == (On(x, i) != On(y, i))
  {
  }

  lemma OnNot(x: bv32, i: bv32)
    requires i < 32
    ensures On(Not(x), i) == !On(x, i)
  {
  }

  /** F takes the digits of y where x has a 1 and those of z where it has a 0. */
  lemma FExact(x: Word, y: Word, z: Word, i: bv32)
    requires i < 32
    ensures var k := Value(i);
            Pow2(k) > 0 && Digit(F(x, y, z), k) == if Digit(x, k) == 1 then Digit(y, k) else Digit(z, k)
  {
    hide Value, Bits, On, Digit, Pow2, And, Or, Not;
    var (a, b, c) := (Bits(x), Bits(y), Bits(z));
    BitsOfValue(Or(And(a, b), And(Not(a), c)));
    OnAnd(a, b, i);
    OnNot(a, i);
    OnAnd(Not(a), c, i);
    OnOr(And(a, b), And(Not(a), c), i);
    DigitOf(x, i);
    DigitOf(y, i);
    DigitOf(z, i);
    DigitOf(F(x, y, z), i);
  }

  /** G takes them from x where z has a 1 and from y where it has a 0: it is F with z as the selector. */
  lemma GExact(x: Word, y: Word, z: Word, i: bv32)
    requires i < 32
    ensures var k := Value(i);
            Pow2(k) > 0 && Digit(G(x, y, z), k) == if Digit(z, k) == 1 then Digit(x, k) else Digit(y, k)
    ensures G(x, y, z) == F(z, x, y)
  {
    AndCommutes(Bits(x), Bits(z));
    AndCommutes(Bits(y), Not(Bits(z)));
    hide Value, Bits, Digit, Pow2, And, Or, Not;
    assert G(x, y, z) == F(z, x, y);
    hide F, G;
    FExact(z, x, y, i);
  }

  lemma AndCommutes(x: bv32, y: bv32)
    ensures And(x, y) == And(y, x)
  {
  }

  /** H has a 1 where an odd number of x, y and z has one. */
  lemma HExact(x: Word, y: Word, z: Word, i: bv32)
    requires i < 32
    ensures var k := Value(i);
            Pow2(k) > 0 && Digit(H(x, y, z), k) == (Digit(x, k) + Digit(y, k) + Digit(z, k)) % 2
  {
    hide Value, Bits, On, Digit, Pow2, Xor;
    var (a, b, c) := (Bits(x), Bits(y), Bits(z));
    BitsOfValue(Xor(Xor(a, b), c));
    OnXor(a, b, i);
    OnXor(Xor(a, b), c, i);
    DigitOf(x, i);
    DigitOf(y, i);
    DigitOf(z, i);
    DigitOf(H(x, y, z), i);
  }

  /** I flips the digits of y where z has a 0, and where z has a 1 those at which x has one. */
  lemma IExact(x: Word, y: Word, z: Word, i: bv32)
    requires i < 32
    ensures var k := Value(i);
            Pow2(k) > 0 && Digit(I(x, y, z), k)
                        == if Digit(z, k) == 1 then (Digit(x, k) + Digit(y, k)) % 2 else 1 - Digit(y, k)
  {
    hide Value, Bits, On, Digit, Pow2, Xor, Or, Not;
    var (a, b, c) := (Bits(x), Bits(y), Bits(z));
    BitsOfValue(Xor(b, Or(a, Not(c))));
    OnNot(c, i);
    OnOr(a, Not(c), i);
    OnXor(b, Or(a, Not(c)), i);
    DigitOf(x, i);
    DigitOf(y, i);
    DigitOf(z, i);
    DigitOf(I(x, y, z), i);
  }
}
