/**
 * GB2312 to 3-byte UTF-8 and back (common/gb2312.cpp:2025-2190).  The two conversion tables are parameters;
 * what the source's comment says about them (common/gb2312.cpp:1082-1089) is the hypothesis TablesOk.
 */
module Gb2312 {
  import opened Common

  type Bytes = seq<Byte>

  /** A 16-bit code point. */
  type Unicode = u: int | 0 <= u < 0x1_0000

  const ERROR: Unicode := 0xFFFF

  /** forward[r][c] is the code point of position (r, c); backward lists positions by code point. */
  datatype Tables = Tables(forward: seq<seq<Unicode>>, backward: seq<(nat, nat)>)

  ghost predicate Square(t: Tables) {
    |t.forward| == 94 && forall r :: 0 <= r < 94 ==> |t.forward[r]| == 94
  }

  predicate InSquare(p: (nat, nat)) { p.0 < 94 && p.1 < 94 }

  function At(t: Tables, p: (nat, nat)): Unicode
    requires Square(t) && InSquare(p)
  {
    t.forward[p.0][p.1]
  }

  /** The backward list is strictly ascending under the forward table and holds exactly the positions that
      have a code point; no position has code point 0. */
  ghost predicate TablesOk(t: Tables) {
    && Square(t)
    && (forall k :: 0 <= k < |t.backward| ==> InSquare(t.backward[k]))
    && (forall j, k :: 0 <= j < k < |t.backward| ==> At(t, t.backward[j]) < At(t, t.backward[k]))
    && (forall p :: InSquare(p) ==> (At(t, p) != ERROR <==> p in t.backward))
    && (forall p :: InSquare(p) ==> At(t, p) != 0)
  }

  // ---- One character ---------------------------------------------------------------------------------------

  /** The row or column of a byte: (char)(b - 0xa0 - 1), read as a signed char. */
  function Position(b: Byte): int {
    var d := (b - 0xa1) % 0x100;
    if d < 0x80 then d else d - 0x100
  }

  /** 0 outside the table, ERROR where the table has no character. */
  function Gb2312ToUnicode(t: Tables, b0: Byte, b1: Byte): Unicode
    requires Square(t)
  {
    var r, c := Position(b0), Position(b1);
    if r < 0 || r >= 94 then 0 else if c < 0 || c >= 94 then 0 else t.forward[r][c]
  }

  /** A pair of bytes that stands for a character. */
  predicate Defined(t: Tables, b0: Byte, b1: Byte)
    requires Square(t)
  {
    Gb2312ToUnicode(t, b0, b1) != 0 && Gb2312ToUnicode(t, b0, b1) != ERROR
  }

  /** The byte pairs of the table are those with both bytes from 0xa1 to 0xfe: the first gives the row, the second
      the column. */
  lemma PairPosition(t: Tables, b0: Byte, b1: Byte)
    requires Square(t)
    ensures Gb2312ToUnicode(t, b0, b1)
         == if 0xa1 <= b0 <= 0xfe && 0xa1 <= b1 <= 0xfe then t.forward[b0 - 0xa1][b1 - 0xa1] else 0
  {
    PositionExact(b0);
    PositionExact(b1);
    hide Position;
  }

  lemma PositionExact(b: Byte)
    ensures 0 <= Position(b) < 94 <==> 0xa1 <= b <= 0xfe
    ensures 0xa1 <= b <= 0xfe ==> Position(b) == b - 0xa1
  {
    DivModUnique(b - 0xa1, 0x100, if b < 0xa1 then -1 else 0, if b < 0xa1 then b + 0x5f else b - 0xa1);
  }

  /** The three bytes of a code point, from its high and low byte. */
  function UnicodeToUtf8(u: Unicode): (r: Bytes)
    ensures |r| == 3
  {
    var hi, lo := u / 0x100, u % 0x100;
    [0xE0 + hi / 0x10, 0x80 + hi % 0x10 * 4 + lo / 0x40, 0x80 + lo % 0x40]
  }

  function Utf8ToUnicode(b0: Byte, b1: Byte, b2: Byte): Unicode {
    var hi := b0 % 0x10 * 0x10 + b1 / 4 % 0x10;
    var lo := b1 % 4 * 0x40 + b2 % 0x40;
    hi * 0x100 + lo
  }

  /** The layout is 1110xxxx 10xxxxxx 10xxxxxx of section 3 of RFC 3629, used for every 16-bit value. */
  lemma Utf8Layout(u: Unicode)
    ensures UnicodeToUtf8(u) == [0xE0 + u / 0x1000, 0x80 + u / 0x40 % 0x40, 0x80 + u % 0x40]
  {
    var hi, lo := u / 0x100, u % 0x100;
    assert u / 0x40 == 4 * hi + lo / 0x40 && u / 0x1000 == hi / 0x10;
    assert 4 * hi + lo / 0x40 == hi % 0x10 * 4 + lo / 0x40 + hi / 0x10 * 0x40;
    CyclicTurns(hi % 0x10 * 4 + lo / 0x40, hi / 0x10, 0x40);
  }

  lemma Utf8Inverse(u: Unicode)
    ensures var b := UnicodeToUtf8(u); Utf8ToUnicode(b[0], b[1], b[2]) == u && b[0] >= 0x80
  {
    var hi, lo := u / 0x100, u % 0x100;
    var b := UnicodeToUtf8(u);
    assert b[0] % 0x10 == hi / 0x10 && b[2] % 0x40 == lo % 0x40;
    assert b[1] == 4 * (0x20 + hi % 0x10) + lo / 0x40;
    assert b[1] / 4 % 0x10 == hi % 0x10 && b[1] % 4 == lo / 0x40;
  }

  // ---- The search ----------------------------------------------------------------------------------------------

  /** The position of a code point, if it has one. */
  ghost function Inverse(t: Tables, u: Unicode): Option<(nat, nat)>
    requires TablesOk(t)
  {
    if exists k :: 0 <= k < |t.backward| && At(t, t.backward[k]) == u then
      var k :| 0 <= k < |t.backward| && At(t, t.backward[k]) == u;
      Some(t.backward[k])
    else None
  }

  /** Looking a defined position's code point up finds that position. */
  lemma InverseOfDefined(t: Tables, p: (nat, nat))
    requires TablesOk(t) && InSquare(p)
    ensures Inverse(t, At(t, p)) == if At(t, p) == ERROR then None else Some(p)
  {
    if At(t, p) != ERROR {
      var i :| 0 <= i < |t.backward| && t.backward[i] == p;
      var k :| 0 <= k < |t.backward| && At(t, t.backward[k]) == At(t, p)
               && Inverse(t, At(t, p)) == Some(t.backward[k]);
    } else {
      forall k | 0 <= k < |t.backward| ensures At(t, t.backward[k]) != ERROR {
        assert t.backward[k] in t.backward;
      }
    }
  }

  lemma InversePosition(t: Tables, u: Unicode)
    requires TablesOk(t)
    ensures Inverse(t, u).Some? ==> InSquare(Inverse(t, u).value) && At(t, Inverse(t, u).value) == u
  {
  }

  /** The binary search is sound and complete. */
  method UnicodeToGb2312(t: Tables, unicode: Unicode) returns (found: Option<(nat, nat)>)
    requires TablesOk(t)
    ensures found == Inverse(t, unicode)
  {
    var i, j := -1, |t.backward|;
    while j - i > 1
      invariant -1 <= i < j <= |t.backward|
      invariant forall k :: 0 <= k <= i ==> At(t, t.backward[k]) < unicode
      invariant forall k :: j <= k < |t.backward| ==> At(t, t.backward[k]) > unicode
      decreases j - i
    {
      var k := (i + j) / 2;
      var uu := At(t, t.backward[k]);
      if unicode > uu {
        i := k;
      } else if unicode < uu {
        j := k;
      } else {
        InverseOfDefined(t, t.backward[k]);
        assert t.backward[k] in t.backward;
        return Some(t.backward[k]);
      }
    }
    return None;
  }

  // ---- Whole strings -----------------------------------------------------------------------------------------

  /** pText[i], zero from the terminator on. */
  function Fetch(s: Bytes, i: nat): Byte {
    if i < |s| then s[i] else 0
  }

  /** GB2312ToUTF_8 from position i. */
  function ToUtf8(t: Tables, s: Bytes, i: nat): Bytes
    requires Square(t)
    decreases |s| - i
  {
    if i >= |s| then []
    else if s[i] < 0x80 then [s[i]] + ToUtf8(t, s, i + 1)
    else UnicodeToUtf8(Gb2312ToUnicode(t, s[i], Fetch(s, i + 1))) + ToUtf8(t, s, i + 2)
  }

  /** What a failed search makes of the buffer. */
  function Leftover(buf: (Byte, Byte)): (Byte, Byte) {
    ((buf.0 + 0xa1) % 0x100, (buf.1 + 0xa1) % 0x100)
  }

  /** UnicodeToGB2312 with the two-byte buffer it is given: when the code point has no position the old
      contents stay, and are offset again. */
  ghost function ToPair(t: Tables, buf: (Byte, Byte), u: Unicode): (Byte, Byte)
    requires TablesOk(t)
  {
    match Inverse(t, u)
    case Some((r, c)) => ((r + 0xa1) % 0x100, (c + 0xa1) % 0x100)
    case None => Leftover(buf)
  }

  /** UTF_8ToGB2312 from position i, carrying the scratch buffer along. */
  ghost function FromUtf8(t: Tables, s: Bytes, i: nat, buf: (Byte, Byte)): Bytes
    requires TablesOk(t)
    decreases |s| - i
  {
    if i >= |s| then []
    else if s[i] < 0x80 then [s[i]] + FromUtf8(t, s, i + 1, buf)
    else
      var p := ToPair(t, buf, Utf8ToUnicode(s[i], Fetch(s, i + 1), Fetch(s, i + 2)));
      [p.0, p.1] + FromUtf8(t, s, i + 3, p)
  }

  /** From i on, the string consists of ASCII bytes and pairs that stand for characters. */
  ghost predicate WellFormed(t: Tables, s: Bytes, i: nat)
    requires Square(t)
    decreases |s| - i
  {
    i >= |s| ||
    if s[i] < 0x80 then WellFormed(t, s, i + 1)
    else i + 1 < |s| && Defined(t, s[i], s[i + 1]) && WellFormed(t, s, i + 2)
  }

  /** The ASCII bytes from i on, and the pairs; a lead byte at the very end counts as a pair. */
  function AsciiCount(s: Bytes, i: nat): nat
    decreases |s| - i
  {
    if i >= |s| then 0 else if s[i] < 0x80 then 1 + AsciiCount(s, i + 1) else AsciiCount(s, i + 2)
  }

  function PairCount(s: Bytes, i: nat): nat
    decreases |s| - i
  {
    if i >= |s| then 0 else if s[i] < 0x80 then PairCount(s, i + 1) else 1 + PairCount(s, i + 2)
  }

  /** The output has one byte for each ASCII byte and three for each pair. */
  lemma {:induction false} ToUtf8Length(t: Tables, s: Bytes, i: nat)
    requires Square(t)
    ensures |ToUtf8(t, s, i)| == AsciiCount(s, i) + 3 * PairCount(s, i)
    decreases |s| - i
  {
    if i < |s| { ToUtf8Length(t, s, if s[i] < 0x80 then i + 1 else i + 2); }
  }

  /** The counts account for every byte of such a string. */
  lemma {:induction false} CountsCover(t: Tables, s: Bytes, i: nat)
    requires Square(t) && i <= |s| && WellFormed(t, s, i)
    ensures AsciiCount(s, i) + 2 * PairCount(s, i) == |s| - i
    decreases |s| - i
  {
    if i < |s| { CountsCover(t, s, if s[i] < 0x80 then i + 1 else i + 2); }
  }

  /** A pair that stands for a character survives the two table look-ups, whatever the buffer held. */
  lemma PairRoundTrip(t: Tables, b0: Byte, b1: Byte, buf: (Byte, Byte))
    requires TablesOk(t) && Defined(t, b0, b1)
    ensures ToPair(t, buf, Gb2312ToUnicode(t, b0, b1)) == (b0, b1)
  {
    var p := (Position(b0), Position(b1));
    InverseOfDefined(t, p);
  }

  /** Neither 0 nor ERROR is the code point of a listed position. */
  lemma NoSuchCharacter(t: Tables, u: Unicode)
    requires TablesOk(t) && (u == 0 || u == ERROR)
    ensures Inverse(t, u) == None
  {
    forall k | 0 <= k < |t.backward| ensures At(t, t.backward[k]) != u {
      assert t.backward[k] in t.backward;
    }
  }

  /** From i on, lead bytes are followed by another byte, and each pair stands for a character or happens to be what
      a failed search leaves of the pair before it. */
  ghost predicate Returns(t: Tables, s: Bytes, i: nat, buf: (Byte, Byte))
    requires Square(t)
    decreases |s| - i
  {
    i >= |s| ||
    if s[i] < 0x80 then Returns(t, s, i + 1, buf)
    else
      && i + 1 < |s| && (Defined(t, s[i], s[i + 1]) || (s[i], s[i + 1]) == Leftover(buf))
      && Returns(t, s, i + 2, (s[i], s[i + 1]))
  }

  /** A pair comes back exactly when it stands for a character or equals the leftover. */
  lemma PairExact(t: Tables, b0: Byte, b1: Byte, buf: (Byte, Byte))
    requires TablesOk(t)
    ensures ToPair(t, buf, Gb2312ToUnicode(t, b0, b1)) == (b0, b1) <==> Defined(t, b0, b1) || (b0, b1) == Leftover(buf)
  {
    if Defined(t, b0, b1) {
      PairRoundTrip(t, b0, b1, buf);
    } else {
      NoSuchCharacter(t, Gb2312ToUnicode(t, b0, b1));
    }
  }

  /** The converters' steps on the rest of a string that starts with a pair. */
  lemma PairStep(t: Tables, s: Bytes, i: nat, u: Bytes, j: nat, buf: (Byte, Byte))
    requires TablesOk(t) && i < |s| && s[i] >= 0x80 && j <= |u| && u[j..] == ToUtf8(t, s, i)
    ensures var p := ToPair(t, buf, Gb2312ToUnicode(t, s[i], Fetch(s, i + 1)));
            && j + 3 <= |u| && u[j + 3..] == ToUtf8(t, s, i + 2)
            && FromUtf8(t, u, j, buf) == [p.0, p.1] + FromUtf8(t, u, j + 3, p)
  {
    assert Square(t);
    hide Gb2312ToUnicode, Inverse, TablesOk, Square, Utf8ToUnicode, UnicodeToUtf8, ToPair;
    var c := Gb2312ToUnicode(t, s[i], Fetch(s, i + 1));
    var b := UnicodeToUtf8(c);
    assert u[j..] == b + ToUtf8(t, s, i + 2);
    assert u[j] == b[0] && u[j + 1] == b[1] && u[j + 2] == b[2];
    assert u[j..][3..] == u[j + 3..];
    Utf8Inverse(c);
  }

  /** Wherever its conversion sits in u, the rest of s comes back exactly when Returns says so. */
  lemma {:induction false} ReturnsFrom(t: Tables, s: Bytes, i: nat, u: Bytes, j: nat, buf: (Byte, Byte))
    requires TablesOk(t) && i <= |s| && j <= |u| && u[j..] == ToUtf8(t, s, i)
    ensures FromUtf8(t, u, j, buf) == s[i..] <==> Returns(t, s, i, buf)
    decreases |s| - i
  {
    assert Square(t);
    hide Gb2312ToUnicode, Inverse, TablesOk, Square, Utf8ToUnicode, UnicodeToUtf8, ToPair, Defined, Leftover;
    if i < |s| && s[i] < 0x80 {
      assert u[j] == u[j..][0] == s[i] && u[j + 1..] == u[j..][1..] == ToUtf8(t, s, i + 1);
      ReturnsFrom(t, s, i + 1, u, j + 1, buf);
      var rest := FromUtf8(t, u, j + 1, buf);
      assert ([s[i]] + rest)[1..] == rest && s[i..][1..] == s[i + 1..] && s[i..] == [s[i]] + s[i + 1..];
    } else if i < |s| {
      PairStep(t, s, i, u, j, buf);
      var p := ToPair(t, buf, Gb2312ToUnicode(t, s[i], Fetch(s, i + 1)));
      var rest := FromUtf8(t, u, j + 3, p);
      assert FromUtf8(t, u, j, buf) == [p.0, p.1] + rest;
      hide FromUtf8, ToUtf8;
      if i + 1 < |s| {
        PairExact(t, s[i], s[i + 1], buf);
        assert s[i..] == [s[i], s[i + 1]] + s[i + 2..];
        PrefixedEqual(p, rest, (s[i], s[i + 1]), s[i + 2..]);
        if p == (s[i], s[i + 1]) { ReturnsFrom(t, s, i + 2, u, j + 3, p); }
      }
    }
  }

  lemma PrefixedEqual(p: (Byte, Byte), a: Bytes, q: (Byte, Byte), b: Bytes)
    ensures [p.0, p.1] + a == [q.0, q.1] + b <==> p == q && a == b
  {
    var x, y := [p.0, p.1] + a, [q.0, q.1] + b;
    assert x[2..] == a && y[2..] == b && x[0] == p.0 && x[1] == p.1 && y[0] == q.0 && y[1] == q.1;
  }

  /** For every string: converting it to UTF-8 and back with the cleared buffer gives it back if and only if each
      of its pairs is complete and stands for a character or equals the leftover of the one before. */
  lemma ReturnsExact(t: Tables, s: Bytes)
    requires TablesOk(t)
    ensures FromUtf8(t, ToUtf8(t, s, 0), 0, (0, 0)) == s <==> Returns(t, s, 0, (0, 0))
  {
    var u := ToUtf8(t, s, 0);
    assert u[0..] == u && s[0..] == s;
    ReturnsFrom(t, s, 0, u, 0, (0, 0));
  }

  /** In particular a pair on its own comes back exactly when it stands for a character or is what a failed search
      leaves in the cleared buffer. */
  lemma SinglePairExact(t: Tables, b0: Byte, b1: Byte)
    requires TablesOk(t) && b0 >= 0x80
    ensures FromUtf8(t, ToUtf8(t, [b0, b1], 0), 0, (0, 0)) == [b0, b1]
       <==> Defined(t, b0, b1) || (b0, b1) == (0xa1, 0xa1)
  {
    hide Defined, FromUtf8, ToUtf8;
    var s := [b0, b1];
    ReturnsExact(t, s);
    assert Returns(t, s, 2, (b0, b1));
  }

  lemma {:induction false} WellFormedReturns(t: Tables, s: Bytes, i: nat, buf: (Byte, Byte))
    requires Square(t) && WellFormed(t, s, i)
    ensures Returns(t, s, i, buf)
    decreases |s| - i
  {
    if i < |s| {
      if s[i] < 0x80 {
        WellFormedReturns(t, s, i + 1, buf);
      } else {
        WellFormedReturns(t, s, i + 2, (s[i], s[i + 1]));
      }
    }
  }

  /** Every string of ASCII bytes and pairs that stand for characters comes back, whatever the buffer held, and the
      UTF-8 text has one byte for each ASCII byte and three for each pair. */
  lemma RoundTrip(t: Tables, s: Bytes, buf: (Byte, Byte))
    requires TablesOk(t) && WellFormed(t, s, 0)
    ensures FromUtf8(t, ToUtf8(t, s, 0), 0, buf) == s
    ensures |ToUtf8(t, s, 0)| == AsciiCount(s, 0) + 3 * PairCount(s, 0) && |s| == AsciiCount(s, 0) + 2 * PairCount(s, 0)
  {
    var u := ToUtf8(t, s, 0);
    assert u[0..] == u && s[0..] == s;
    WellFormedReturns(t, s, 0, buf);
    ReturnsFrom(t, s, 0, u, 0, buf);
    ToUtf8Length(t, s, 0);
    CountsCover(t, s, 0);
  }

  /** What one character becomes, in both directions of the layout: ASCII stays, a pair of the table becomes the three
      bytes of its code point. */
  lemma CharacterExact(t: Tables, b0: Byte, b1: Byte)
    requires Square(t)
    ensures b0 < 0x80 ==> ToUtf8(t, [b0], 0) == [b0]
    ensures 0xa1 <= b0 <= 0xfe && 0xa1 <= b1 <= 0xfe ==>
              var u := t.forward[b0 - 0xa1][b1 - 0xa1];
              ToUtf8(t, [b0, b1], 0) == [0xE0 + u / 0x1000, 0x80 + u / 0x40 % 0x40, 0x80 + u % 0x40]
  {
    hide Gb2312ToUnicode, UnicodeToUtf8, Square;
    ToUtf8Step(t, [b0], 0);
    ToUtf8Step(t, [b0], 1);
    ToUtf8Step(t, [b0, b1], 0);
    ToUtf8Step(t, [b0, b1], 2);
    PairPosition(t, b0, b1);
    Utf8Layout(Gb2312ToUnicode(t, b0, b1));
  }

  lemma {:induction false} ToUtf8Behind(t: Tables, s: Bytes, rest: Bytes, k: nat)
    requires Square(t)
    ensures ToUtf8(t, s + rest, |s| + k) == ToUtf8(t, rest, k)
    decreases |rest| - k
  {
    hide Gb2312ToUnicode, UnicodeToUtf8, Square;
    if k < |rest| {
      ToUtf8Behind(t, s, rest, if rest[k] < 0x80 then k + 1 else k + 2);
    }
  }

  lemma {:induction false} ToUtf8Before(t: Tables, s: Bytes, rest: Bytes, i: nat)
    requires Square(t) && i <= |s| && WellFormed(t, s, i)
    ensures ToUtf8(t, s + rest, i) == ToUtf8(t, s, i) + ToUtf8(t, rest, 0)
    decreases |s| - i
  {
    hide Gb2312ToUnicode, UnicodeToUtf8, Square, Defined;
    if i == |s| {
      ToUtf8Behind(t, s, rest, 0);
    } else {
      ToUtf8Before(t, s, rest, if s[i] < 0x80 then i + 1 else i + 2);
    }
  }

  /** Character by character: a well-formed text and what follows it are converted independently. */
  lemma ToUtf8Concat(t: Tables, s: Bytes, rest: Bytes)
    requires Square(t) && WellFormed(t, s, 0)
    ensures ToUtf8(t, s + rest, 0) == ToUtf8(t, s, 0) + ToUtf8(t, rest, 0)
  {
    ToUtf8Before(t, s, rest, 0);
  }

  // ---- The loops -----------------------------------------------------------------------------------------------

  lemma ToUtf8Step(t: Tables, s: Bytes, i: nat)
    requires Square(t)
    ensures i >= |s| ==> ToUtf8(t, s, i) == []
    ensures i < |s| && s[i] < 0x80 ==> ToUtf8(t, s, i) == [s[i]] + ToUtf8(t, s, i + 1)
    ensures i < |s| && s[i] >= 0x80 ==>
              ToUtf8(t, s, i) == UnicodeToUtf8(Gb2312ToUnicode(t, s[i], Fetch(s, i + 1))) + ToUtf8(t, s, i + 2)
  {
  }

  lemma Regroup(a: Bytes, b: Bytes, c: Bytes)
    ensures (a + b) + c == a + (b + c)
  {
  }

  /** Besides room for the result, pOut must hold the bytes the code clears first. */
  method Gb2312ToUtf8(t: Tables, pOut: array<Byte>, pText: Bytes)
    requires Square(t) && |ToUtf8(t, pText, 0)| < pOut.Length && |pText| + |pText| / 4 + 2 <= pOut.Length
    modifies pOut
    ensures pOut[..|ToUtf8(t, pText, 0)| + 1] == ToUtf8(t, pText, 0) + [0]
  {
    hide UnicodeToUtf8, Gb2312ToUnicode, ToUtf8, Square;
    forall k | 0 <= k < |pText| + |pText| / 4 + 2 { pOut[k] := 0; }
    ghost var out := ToUtf8(t, pText, 0);
    var i, j := 0, 0;
    while i < |pText|
      invariant j <= |out| && pOut[..j] + ToUtf8(t, pText, i) == out
      decreases |pText| - i
    {
      ToUtf8Step(t, pText, i);
      if pText[i] < 0x80 {
        pOut[j] := pText[i];
        i, j := i + 1, j + 1;
      } else {
        var buf := UnicodeToUtf8(Gb2312ToUnicode(t, pText[i], Fetch(pText, i + 1)));
        ghost var before := pOut[..j];
        pOut[j] := buf[0];
        pOut[j + 1] := buf[1];
        pOut[j + 2] := buf[2];
        assert pOut[..j + 3] == before + buf;
        Regroup(before, buf, ToUtf8(t, pText, i + 2));
        i, j := i + 2, j + 3;
      }
    }
    ToUtf8Step(t, pText, i);
    pOut[j] := 0;
  }

  /** UnicodeToGB2312: the search writes into the buffer only when it finds something. */
  method Convert(t: Tables, buf: (Byte, Byte), u: Unicode) returns (r: (Byte, Byte))
    requires TablesOk(t)
    ensures r == ToPair(t, buf, u)
    ensures match Inverse(t, u)
            case Some(p) => r == (p.0 + 0xa1, p.1 + 0xa1) && At(t, p) == u
            case None => r == ((buf.0 + 0xa1) % 0x100, (buf.1 + 0xa1) % 0x100)
  {
    InversePosition(t, u);
    r := buf;
    var found := UnicodeToGb2312(t, u);
    if found.Some? {
      r := (found.value.0 % 0x100, found.value.1 % 0x100);
    }
    r := ((r.0 + 0xa1) % 0x100, (r.1 + 0xa1) % 0x100);
  }

  lemma FromUtf8Step(t: Tables, s: Bytes, i: nat, buf: (Byte, Byte))
    requires TablesOk(t)
    ensures i >= |s| ==> FromUtf8(t, s, i, buf) == []
    ensures i < |s| && s[i] < 0x80 ==> FromUtf8(t, s, i, buf) == [s[i]] + FromUtf8(t, s, i + 1, buf)
    ensures i < |s| && s[i] >= 0x80 ==>
              var p := ToPair(t, buf, Utf8ToUnicode(s[i], Fetch(s, i + 1), Fetch(s, i + 2)));
              FromUtf8(t, s, i, buf) == [p.0, p.1] + FromUtf8(t, s, i + 3, p)
  {
  }

  method Utf8ToGb2312(t: Tables, pOut: array<Byte>, pText: Bytes)
    requires TablesOk(t) && |FromUtf8(t, pText, 0, (0, 0))| < pOut.Length
    modifies pOut
    ensures pOut[..|FromUtf8(t, pText, 0, (0, 0))| + 1] == FromUtf8(t, pText, 0, (0, 0)) + [0]
  {
    hide Utf8ToUnicode, ToPair, TablesOk, Square, Inverse, Fetch, FromUtf8;
    ghost var out := FromUtf8(t, pText, 0, (0, 0));
    var i, j := 0, 0;
    var temp: (Byte, Byte) := (0, 0);
    while i < |pText|
      invariant j <= |out| && pOut[..j] + FromUtf8(t, pText, i, temp) == out
      decreases |pText| - i
    {
      FromUtf8Step(t, pText, i, temp);
      if pText[i] < 0x80 {
        pOut[j] := pText[i];
        i, j := i + 1, j + 1;
      } else {
        var u := Utf8ToUnicode(pText[i], Fetch(pText, i + 1), Fetch(pText, i + 2));
        temp := Convert(t, temp, u);
        pOut[j] := temp.0;
        pOut[j + 1] := temp.1;
        i, j := i + 3, j + 2;
      }
    }
    FromUtf8Step(t, pText, i, temp);
    pOut[j] := 0;
  }
}
