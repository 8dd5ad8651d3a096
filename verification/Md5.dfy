/**
 * Streaming MD5 (common/md5.cpp): Md5Init, any number of Md5Update and Md5Final compute the one-shot
 * digest of sections 3.1 to 3.5 of RFC 1321, however the message was cut.
 */
module Md5 {
  import opened Common
  import opened Md5Transform

  // ---- The one-shot definition -------------------------------------------------------------------------

  const IV: Chain := [0x67452301, 0xefcdab89, 0x98badcfe, 0x10325476]

  type Compression = (Chain, Block) -> Chain

  /** Absorb every complete 64-byte block; a shorter rest is ignored. */
  function Absorb(f: Compression, st: Chain, s: seq<Byte>): Chain
    decreases |s|
  {
    if |s| < 64 then st else Absorb(f, f(st, s[..64]), s[64..])
  }

  /** The bytes after the last complete block. */
  function Rest(s: seq<Byte>): seq<Byte> {
    s[|s| - |s| % 64..]
  }

  function Zeros(n: nat): (r: seq<Byte>)
    ensures |r| == n
  {
    seq(n, _ => 0)
  }

  /** The length in bits of n bytes, modulo 2^64. */
  function BitLength(n: nat): nat {
    8 * n % 0x1_0000_0000_0000_0000
  }

  /** Sections 3.1 and 3.2: a 1 bit, zeros up to 56 mod 64, then the bit length modulo 2^64. */
  function Pad(m: seq<Byte>): seq<Byte> {
    m + [0x80] + Zeros((119 - |m| % 64) % 64) + LittleEndian(BitLength(|m|), 8)
  }

  function Digest(m: seq<Byte>): seq<Byte> {
    WordsToBytes(Absorb(Compress, IV, Pad(m)))
  }

  /** The padded message is whole blocks, and no shorter padding leaves room for the length. */
  lemma PadShortest(m: seq<Byte>, k: nat)
    ensures |Pad(m)| % 64 == 0 && m <= Pad(m)
    ensures (|m| + 1 + k + 8) % 64 == 0 ==> |Pad(m)| <= |m| + 1 + k + 8
  {
    hide LittleEndian, BitLength;
    var q, r, z := |m| / 64, |m| % 64, (119 - |m| % 64) % 64;
    assert |Pad(m)| == |m| + 1 + z + 8;
    assert |Pad(m)| == 64 * (if r < 56 then q + 1 else q + 2);
    assert m == Pad(m)[..|m|];
  }

  /** What is appended: one byte with a single 1 bit at the top, zeros, and eight bytes that read back, low-order byte
      first, as the length in bits modulo 2^64. */
  lemma PadExact(m: seq<Byte>)
    ensures var p, n := Pad(m), |m|;
            && n + 9 <= |p| && p[..n] == m && p[n] == 0x80
            && (forall i :: n < i < |p| - 8 ==> p[i] == 0)
            && FromBytes(p[|p| - 8..]) == 8 * n % 0x1_0000_0000_0000_0000
  {
    assert Pow256(4) == 0x1_0000_0000 && Pow256(8) == 0x1_0000_0000_0000_0000;
    FromLittleEndian(BitLength(|m|), 8);
    hide LittleEndian;
    var p := Pad(m);
    assert p[|p| - 8..] == LittleEndian(BitLength(|m|), 8);
  }

  lemma InitialWords()
    ensures LittleEndian(0x67452301, 4) == [0x01, 0x23, 0x45, 0x67]
    ensures LittleEndian(0xefcdab89, 4) == [0x89, 0xab, 0xcd, 0xef]
    ensures LittleEndian(0x98badcfe, 4) == [0xfe, 0xdc, 0xba, 0x98]
    ensures LittleEndian(0x10325476, 4) == [0x76, 0x54, 0x32, 0x10]
  {
    LittleEndianWord(0x67452301);
    LittleEndianWord(0xefcdab89);
    LittleEndianWord(0x98badcfe);
    LittleEndianWord(0x10325476);
  }

  /** The initial registers hold the bytes 01 23 45 67, 89 ab cd ef, fe dc ba 98, 76 54 32 10 (section 3.3). */
  lemma InitialBytes()
    ensures WordsToBytes(IV) == [0x01, 0x23, 0x45, 0x67, 0x89, 0xab, 0xcd, 0xef,
                                 0xfe, 0xdc, 0xba, 0x98, 0x76, 0x54, 0x32, 0x10]
  {
    hide LittleEndian;
    InitialWords();
    BytesOfFour(0x67452301, 0xefcdab89, 0x98badcfe, 0x10325476);
  }

  // ---- Absorbing in pieces -------------------------------------------------------------------------------

  /** Complete blocks followed by more. */
  lemma {:induction false} AbsorbConcat(f: Compression, st: Chain, s: seq<Byte>, t: seq<Byte>)
    requires |s| % 64 == 0
    ensures Absorb(f, st, s + t) == Absorb(f, Absorb(f, st, s), t)
    decreases |s|
  {
    if s == [] {
      assert s + t == t;
    } else {
      assert (s + t)[..64] == s[..64] && (s + t)[64..] == s[64..] + t;
      AbsorbConcat(f, f(st, s[..64]), s[64..], t);
    }
  }

  lemma AbsorbShort(f: Compression, st: Chain, s: seq<Byte>)
    requires |s| < 64
    ensures Absorb(f, st, s) == st
  {
  }

  lemma AbsorbOne(f: Compression, st: Chain, b: seq<Byte>)
    requires |b| == 64
    ensures Absorb(f, st, b) == f(st, b)
  {
    assert b[..64] == b;
  }

  lemma AbsorbNext(f: Compression, st: Chain, t: seq<Byte>, k: nat)
    requires k % 64 == 0 && k + 64 <= |t|
    ensures Absorb(f, st, t[..k + 64]) == f(Absorb(f, st, t[..k]), t[k..k + 64])
  {
    hide Absorb;
    assert t[..k + 64] == t[..k] + t[k..k + 64];
    AbsorbConcat(f, st, t[..k], t[k..k + 64]);
    AbsorbOne(f, Absorb(f, st, t[..k]), t[k..k + 64]);
  }

  /** Only the rest of what came before matters to what comes after. */
  lemma AbsorbRest(f: Compression, st: Chain, m: seq<Byte>, t: seq<Byte>)
    ensures Absorb(f, st, m + t) == Absorb(f, Absorb(f, st, m), Rest(m) + t)
  {
    hide Absorb;
    var full := m[..|m| - |m| % 64];
    assert m == full + Rest(m) && m + t == full + (Rest(m) + t);
    AbsorbConcat(f, st, full, Rest(m) + t);
    AbsorbConcat(f, st, full, Rest(m));
    AbsorbShort(f, Absorb(f, st, full), Rest(m));
  }

  lemma RestConcat(m: seq<Byte>, t: seq<Byte>)
    ensures Rest(m + t) == Rest(Rest(m) + t)
  {
    var n, r := |m| - |m| % 64, |m| % 64;
    assert |m + t| % 64 == (r + |t|) % 64;
    assert m + t == m[..n] + (Rest(m) + t);
  }

  lemma RestFrom(t: seq<Byte>, k: nat)
    requires k % 64 == 0 && k <= |t| < k + 64
    ensures Rest(t) == t[k..]
  {
  }

  /** Where an update stands when fewer than 64 bytes are left: k bytes of the old rest and the input have
      been absorbed, the others are the new rest. */
  lemma UpdateEnd(f: Compression, m: seq<Byte>, input: seq<Byte>, k: nat)
    requires k % 64 == 0 && k <= |Rest(m) + input| < k + 64
    ensures Absorb(f, IV, m + input) == Absorb(f, Absorb(f, IV, m), (Rest(m) + input)[..k])
    ensures Rest(m + input) == (Rest(m) + input)[k..]
  {
    hide Absorb, Rest;
    var t, st := Rest(m) + input, Absorb(f, IV, m);
    RestFrom(t, k);
    AbsorbRest(f, IV, m, input);
    assert t == t[..k] + t[k..];
    AbsorbConcat(f, st, t[..k], t[k..]);
    AbsorbShort(f, Absorb(f, st, t[..k]), t[k..]);
    RestConcat(m, input);
  }

  lemma RestLength(m: seq<Byte>)
    ensures |Rest(m)| == |m| % 64
  {
  }

  // ---- The bit counter -----------------------------------------------------------------------------------

  const TWO64: nat := 0x1_0000_0000_0000_0000

  /** The two-word update of Md5Update, with its compare for carry and its shift by 29. */
  function AddBits(c0: Word, c1: Word, len: Word): (Word, Word) {
    var shifted: Word := len * 8 % 0x1_0000_0000;
    var low: Word := (c0 + shifted) % 0x1_0000_0000;
    var carried: Word := if low < shifted then (c1 + 1) % 0x1_0000_0000 else c1;
    (low, (carried + len / 0x2000_0000) % 0x1_0000_0000)
  }

  /** The statements in terms of the top three and the other bits of the length. */
  lemma AddBitsParts(c0: Word, c1: Word, len: Word, q: nat, r: nat)
    requires len == q * 0x2000_0000 + r && r < 0x2000_0000
    ensures AddBits(c0, c1, len)
         == (if c0 + 8 * r < TWO32 then (c0 + 8 * r, (c1 + q) % TWO32) else (c0 + 8 * r - TWO32, (c1 + 1 + q) % TWO32))
  {
    DivModUnique(len, 0x2000_0000, q, r);
    DivModUnique(len * 8, TWO32, q, 8 * r);
    if c0 + 8 * r < TWO32 {
      DivModUnique(c0 + 8 * r, TWO32, 0, c0 + 8 * r);
    } else {
      DivModUnique(c0 + 8 * r, TWO32, 1, c0 + 8 * r - TWO32);
      CarryThenAdd(c1, q);
    }
  }

  lemma CarryThenAdd(c: Word, q: nat)
    ensures ((c + 1) % TWO32 + q) % TWO32 == (c + 1 + q) % TWO32
  {
    if c + 1 == TWO32 {
      DivModUnique(c + 1, TWO32, 1, 0);
      CyclicTurns(q, 1, TWO32);
    } else {
      DivModUnique(c + 1, TWO32, 0, c + 1);
    }
  }

  lemma JoinWords(low: nat, high: nat)
    requires low < TWO32
    ensures low + TWO32 * (high % TWO32) == (low + TWO32 * high) % TWO64
  {
    var k := high / TWO32;
    assert low + TWO32 * high == low + TWO32 * (high % TWO32) + TWO64 * k;
  }

  /** It is addition of 8 * len modulo 2^64, for every counter and every length. */
  lemma AddBitsExact(c0: Word, c1: Word, len: Word)
    ensures var (d0, d1) := AddBits(c0, c1, len);
            d0 + TWO32 * d1 == (c0 + TWO32 * c1 + 8 * len) % TWO64
  {
    hide AddBits;
    var q, r := len / 0x2000_0000, len % 0x2000_0000;
    AddBitsParts(c0, c1, len, q, r);
    if c0 + 8 * r < TWO32 {
      JoinWords(c0 + 8 * r, c1 + q);
    } else {
      JoinWords(c0 + 8 * r - TWO32, c1 + 1 + q);
    }
  }

  lemma CountMod(n: nat, c: nat, add: nat)
    requires c == BitLength(n)
    ensures c / 8 % 64 == n % 64 && (c + 8 * add) % TWO64 == BitLength(n + add)
  {
    var q := 8 * n / TWO64;
    assert 8 * n == q * TWO64 + c;
    CyclicTurns(c + 8 * add, q, TWO64);
    assert n == c / 8 + q * 0x80_0000_0000_0000 * 64;
    CyclicTurns(c / 8, q * 0x80_0000_0000_0000, 64);
  }

  lemma LowWord(c0: Word, c1: Word)
    ensures (c0 + TWO32 * c1) / 8 % 64 == c0 / 8 % 64
  {
    assert (c0 + TWO32 * c1) / 8 == c0 / 8 + c1 * 0x80_0000 * 64;
    CyclicTurns(c0 / 8, c1 * 0x80_0000, 64);
  }

  /** Counting bits this way also counts bytes modulo 64. */
  lemma CountOfMessage(c0: Word, c1: Word, n: nat, len: Word)
    requires c0 + TWO32 * c1 == BitLength(n)
    ensures c0 / 8 % 64 == n % 64
    ensures var (d0, d1) := AddBits(c0, c1, len); d0 + TWO32 * d1 == BitLength(n + len)
  {
    hide AddBits, BitLength;
    AddBitsExact(c0, c1, len);
    CountMod(n, c0 + TWO32 * c1, len);
    LowWord(c0, c1);
  }

  // ---- The context -----------------------------------------------------------------------------------------

  method Memcpy(output: array<Byte>, at: nat, input: seq<Byte>)
    requires at + |input| <= output.Length
    modifies output
    ensures output[..] == old(output[..at]) + input + old(output[at + |input|..])
    ensures output[..at + |input|] == old(output[..at]) + input
  {
    var i := 0;
    while i < |input|
      invariant 0 <= i <= |input|
      invariant forall k :: 0 <= k < at ==> output[k] == old(output[k])
      invariant forall k :: 0 <= k < i ==> output[at + k] == input[k]
      invariant forall k :: at + i <= k < output.Length ==> output[k] == old(output[k])
    {
      output[at + i] := input[i];
      i := i + 1;
    }
    Spliced(output[..], old(output[..]), at, input);
  }

  lemma Spliced(s: seq<Byte>, was: seq<Byte>, at: nat, input: seq<Byte>)
    requires at + |input| <= |s| == |was|
    requires s[..at] == was[..at] && s[at..at + |input|] == input && s[at + |input|..] == was[at + |input|..]
    ensures s == was[..at] + input + was[at + |input|..]
  {
    assert s == s[..at] + s[at..at + |input|] + s[at + |input|..];
  }

  class Md5Context {
    const state: array<Word>
    const count: array<Word>
    const buffer: array<Byte>
    /** History: everything given to Update since Init. */
    ghost var message: seq<Byte>

    ghost predicate Arrays() {
      state.Length == 4 && count.Length == 2 && buffer.Length == 64 && state != count
    }

    /** The state has absorbed the complete blocks of the message, the buffer starts with the rest, and the
        counter is the bit length. */
    ghost predicate Valid()
      reads this, state, count, buffer
    {
      && Arrays()
      && state[..] == Absorb(Compress, IV, message)
      && count[0] + TWO32 * count[1] == BitLength(|message|)
      && buffer[..|message| % 64] == Rest(message)
    }

    constructor ()
      ensures Arrays() && fresh(state) && fresh(count) && fresh(buffer)
    {
      state, count, buffer := new Word[4], new Word[2], new Byte[64];
    }

    method Init()
      requires Arrays()
      modifies this, state, count
      ensures Valid() && message == []
    {
      count[0] := 0;
      count[1] := 0;
      state[0] := 0x67452301;
      state[1] := 0xefcdab89;
      state[2] := 0x98badcfe;
      state[3] := 0x10325476;
      message := [];
      assert state[..] == IV;
    }

    method Update(input: seq<Byte>)
      requires Valid() && |input| < 0x1_0000_0000 - 63
      modifies this`message, state, count, buffer
      ensures Valid() && message == old(message) + input
    {
      hide Compress, Absorb, AddBits, BitLength;
      ghost var m := message;
      CountOfMessage(count[0], count[1], |m|, 0);
      var inputLen: Word := |input|;
      var index := count[0] / 8 % 64;
      hide Rest;
      AddCount(inputLen, |m|);
      var i;
      index, i := AbsorbBlocks(index, input, m);
      Memcpy(buffer, index, input[i..]);
      message := message + input;
    }

    /** Transform as many times as possible; the input from i on is still to be buffered at index. */
    method AbsorbBlocks(at: nat, input: seq<Byte>, ghost m: seq<Byte>) returns (index: nat, i: nat)
      requires Arrays() && at == |m| % 64
      requires state[..] == Absorb(Compress, IV, m) && buffer[..at] == Rest(m)
      modifies state, buffer
      ensures i <= |input| && index + (|input| - i) == |m + input| % 64
      ensures state[..] == Absorb(Compress, IV, m + input) && buffer[..index] + input[i..] == Rest(m + input)
    {
      hide Compress, Absorb;
      ghost var st, rest := state[..], Rest(m);
      ghost var t := rest + input;
      RestLength(m);
      RestLength(m + input);
      hide Rest;
      var partLen := 64 - at;
      index, i := at, 0;
      if |input| >= partLen {
        AbsorbBuffer(at, input[..partLen]);
        assert rest + input[..partLen] == t[..64];
        AbsorbOne(Compress, st, t[..64]);
        i := AbsorbInput(input, partLen, st, t);
        UpdateEnd(Compress, m, input, at + i);
        index := 0;
      } else {
        UpdateEnd(Compress, m, input, 0);
        AbsorbShort(Compress, st, t[..0]);
      }
    }

    /** Complete the partial block and absorb it. */
    method AbsorbBuffer(index: nat, input: seq<Byte>)
      requires Arrays() && index + |input| == 64
      modifies state, buffer
      ensures state[..] == Compress(old(state[..]), old(buffer[..index]) + input)
    {
      hide Compress;
      Memcpy(buffer, index, input);
      assert buffer[..index + |input|] == buffer[..];
      Transform(state, buffer[..]);
    }

    /** The block loop of Md5Update, started at `from`. */
    method AbsorbInput(input: seq<Byte>, from: nat, ghost st: Chain, ghost t: seq<Byte>) returns (i: nat)
      requires Arrays() && from <= |input| && |t| >= |input| && t[|t| - |input|..] == input
      requires (|t| - |input| + from) % 64 == 0
      requires state[..] == Absorb(Compress, st, t[..|t| - |input| + from])
      modifies state
      ensures i <= |input| < i + 64 && (|t| - |input| + i) % 64 == 0
      ensures state[..] == Absorb(Compress, st, t[..|t| - |input| + i])
    {
      hide Compress, Absorb;
      ghost var shift := |t| - |input|;
      i := from;
      while i + 63 < |input|
        invariant i <= |input| && (shift + i) % 64 == 0
        invariant state[..] == Absorb(Compress, st, t[..shift + i])
      {
        assert input[i..i + 64] == t[shift + i..shift + i + 64];
        Transform(state, input[i..i + 64]);
        AbsorbNext(Compress, st, t, shift + i);
        i := i + 64;
      }
    }

    /** The counter statements of Md5Update. */
    method AddCount(inputLen: Word, ghost n: nat)
      requires Arrays() && count[0] + TWO32 * count[1] == BitLength(n)
      modifies count
      ensures (count[0], count[1]) == AddBits(old(count[0]), old(count[1]), inputLen)
      ensures count[0] + TWO32 * count[1] == BitLength(n + inputLen)
    {
      CountOfMessage(count[0], count[1], n, inputLen);
      hide BitLength;
      var shifted: Word := inputLen * 8 % 0x1_0000_0000;
      count[0] := (count[0] as int + shifted) % 0x1_0000_0000;
      if count[0] < shifted {
        count[1] := (count[1] as int + 1) % 0x1_0000_0000;
      }
      count[1] := (count[1] as int + inputLen / 0x2000_0000) % 0x1_0000_0000;
    }

    /** Pad, append the length, write the digest and wipe the context. */
    method Final(digest: array<Byte>)
      requires Valid() && digest.Length == 16 && digest != buffer
      modifies this`message, state, count, buffer, digest
      ensures digest[..] == Digest(old(message))
      ensures Arrays() && (forall i :: 0 <= i < 4 ==> state[i] == 0) && count[0] == count[1] == 0
      ensures forall i :: 0 <= i < 64 ==> buffer[i] == 0
    {
      hide Compress, Absorb, LittleEndian, BitLength;
      ghost var m := message;
      var bits := new Byte[8];
      Encode(bits, count[..], 8);
      LengthBytes(count[0], count[1]);
      CountOfMessage(count[0], count[1], |m|, 0);
      var index := count[0] / 8 % 64;
      var padLen := if index < 56 then 56 - index else 120 - index;
      Update(PADDING[..padLen]);
      Update(bits[..]);
      assert bits[..8] == bits[..];
      PaddingBytes(m, padLen);
      Encode(digest, state[..], 16);
      assert digest[..16] == digest[..];
      Wipe();
    }

    /** Zeroize the whole context. */
    method Wipe()
      requires Arrays()
      modifies state, count, buffer
      ensures (forall i :: 0 <= i < 4 ==> state[i] == 0) && count[0] == count[1] == 0
      ensures forall i :: 0 <= i < 64 ==> buffer[i] == 0
    {
      forall i | 0 <= i < 4 { state[i] := 0; }
      forall i | 0 <= i < 2 { count[i] := 0; }
      forall i | 0 <= i < 64 { buffer[i] := 0; }
    }
  }

  const PADDING: seq<Byte> := [0x80] + Zeros(63)

  /** What the code pads with is what section 3.1 asks for. */
  lemma PaddingBytes(m: seq<Byte>, padLen: nat)
    requires padLen == if |m| % 64 < 56 then 56 - |m| % 64 else 120 - |m| % 64
    ensures m + PADDING[..padLen] + LittleEndian(BitLength(|m|), 8) == Pad(m)
  {
    hide LittleEndian, BitLength;
    var r, z := |m| % 64, (119 - |m| % 64) % 64;
    assert padLen == z + 1;
    assert PADDING[..padLen] == [0x80] + Zeros(z);
  }

  lemma LittleEndianStep(b: Byte, w: nat, n: nat)
    ensures LittleEndian(b + 0x100 * w, n + 1) == [b] + LittleEndian(w, n)
  {
    DivModUnique(b + 0x100 * w, 0x100, w, b);
  }

  lemma LittleEndianFour(b0: Byte, b1: Byte, b2: Byte, b3: Byte, w: nat, n: nat)
    ensures LittleEndian(b0 + 0x100 * (b1 + 0x100 * (b2 + 0x100 * (b3 + 0x100 * w))), n + 4)
         == [b0, b1, b2, b3] + LittleEndian(w, n)
  {
    hide LittleEndian;
    LittleEndianStep(b3, w, n);
    LittleEndianStep(b2, b3 + 0x100 * w, n + 1);
    LittleEndianStep(b1, b2 + 0x100 * (b3 + 0x100 * w), n + 2);
    LittleEndianStep(b0, b1 + 0x100 * (b2 + 0x100 * (b3 + 0x100 * w)), n + 3);
  }

  lemma Horner(c0: Word, q1: nat, q2: nat, c1: Word)
    requires q1 == c0 / 0x100 && q2 == q1 / 0x100
    ensures q2 / 0x100 < 0x100 && c0 == c0 % 0x100 + 0x100 * (q1 % 0x100 + 0x100 * (q2 % 0x100 + 0x100 * (q2 / 0x100)))
    ensures c0 + TWO32 * c1
         == c0 % 0x100 + 0x100 * (q1 % 0x100 + 0x100 * (q2 % 0x100 + 0x100 * (q2 / 0x100 + 0x100 * c1)))
  {
  }

  /** The two counter words, encoded, are the 64-bit length of section 3.2. */
  lemma LengthBytes(c0: Word, c1: Word)
    ensures WordsToBytes([c0, c1]) == LittleEndian(c0 + TWO32 * c1, 8)
  {
    var q1 := c0 / 0x100;
    var q2 := q1 / 0x100;
    Horner(c0, q1, q2, c1);
    var b0, b1, b2, b3 := c0 % 0x100, q1 % 0x100, q2 % 0x100, q2 / 0x100;
    hide LittleEndian;
    LittleEndianFour(b0, b1, b2, b3, 0, 0);
    LittleEndianFour(b0, b1, b2, b3, c1, 4);
    assert [c0, c1][..1] == [c0] && [c0][..0] == [];
    assert WordsToBytes([c0]) == LittleEndian(c0, 4);
  }

  /** The digest of data given in one piece; a NULL pointer for either argument changes nothing. */
  method GenerateKey(pData: Option<seq<Byte>>, pKey: array?<Byte>) returns (ret: int)
    requires pData.Some? ==> |pData.value| < 0x1_0000_0000 - 63
    requires pKey != null ==> pKey.Length == 16
    modifies pKey
    ensures ret == if pData.Some? && pKey != null then 0 else -1
    ensures pKey != null ==> pKey[..] == if pData.Some? then Digest(pData.value) else old(pKey[..])
  {
    hide Compress, Absorb, Digest;
    ret := -1;
    if pData.Some? && pKey != null {
      var mdc := new Md5Context();
      mdc.Init();
      mdc.Update(pData.value);
      assert [] + pData.value == pData.value;
      mdc.Final(pKey);
      ret := 0;
    }
  }

  function Concat(chunks: seq<seq<Byte>>): seq<Byte> {
    if chunks == [] then [] else Concat(chunks[..|chunks| - 1]) + chunks[|chunks| - 1]
  }

  /** Any sequence of updates between Init and Final: only the concatenation matters. */
  method DigestOfChunks(chunks: seq<seq<Byte>>) returns (key: seq<Byte>)
    requires forall i :: 0 <= i < |chunks| ==> |chunks[i]| < 0x1_0000_0000 - 63
    ensures key == Digest(Concat(chunks))
  {
    hide Compress, Absorb, Digest;
    var mdc := new Md5Context();
    var pKey := new Byte[16];
    mdc.Init();
    var i := 0;
    while i < |chunks|
      invariant 0 <= i <= |chunks| && mdc.Valid() && mdc.message == Concat(chunks[..i])
      invariant fresh(mdc) && fresh(mdc.state) && fresh(mdc.count) && fresh(mdc.buffer) && pKey != mdc.buffer
    {
      mdc.Update(chunks[i]);
      assert chunks[..i + 1][..i] == chunks[..i];
      i := i + 1;
    }
    assert chunks[..i] == chunks;
    mdc.Final(pKey);
    key := pKey[..];
  }
}
