/**
 * Base64 (common/base64.cpp:137-188, 247-287).  The encoder is section 4 of RFC 4648; the decoder also
 * skips CR and LF, as section 6.8 of RFC 2045 asks, but not everywhere.
 */
module Base64 {
  type Bytes = seq<bv8>

  const EQUALS: bv8 := 61
  const CR: bv8 := 13
  const LF: bv8 := 10

  // ---- Tables ----------------------------------------------------------------------------------------

  /** codes[i]: A-Z, a-z, 0-9, +, /. */
  function Code(i: bv8): bv8
    requires i < 64
  {
    if i < 26 then i + 65 else if i < 52 then i + 71 else if i < 62 then i - 4 else if i == 62 then 43 else 47
  }

  /** DeBase64Tab[c]; the table ends at 'z'. */
  function DeTab(c: bv8): (i: bv8)
    requires c < 123
    ensures i < 64
  {
    if c == 43 then 62
    else if c == 47 then 63
    else if 48 <= c && c <= 57 then c + 4
    else if 65 <= c && c <= 90 then c - 65
    else if 97 <= c && c <= 122 then c - 71
    else 0
  }

  lemma DeTabCode(i: bv8)
    requires i < 64
    ensures Code(i) < 123 && DeTab(Code(i)) == i
    ensures Code(i) != EQUALS && Code(i) != CR && Code(i) != LF
  {
  }

  // The alphabet of table 1 of RFC 4648.

  lemma Capitals()
    ensures Code(0) == 'A' as bv8 && Code(1) == 'B' as bv8 && Code(2) == 'C' as bv8 && Code(3) == 'D' as bv8
    ensures Code(4) == 'E' as bv8 && Code(5) == 'F' as bv8 && Code(6) == 'G' as bv8 && Code(7) == 'H' as bv8
    ensures Code(8) == 'I' as bv8 && Code(9) == 'J' as bv8 && Code(10) == 'K' as bv8 && Code(11) == 'L' as bv8
    ensures Code(12) == 'M' as bv8 && Code(13) == 'N' as bv8 && Code(14) == 'O' as bv8 && Code(15) == 'P' as bv8
    ensures Code(16) == 'Q' as bv8 && Code(17) == 'R' as bv8 && Code(18) == 'S' as bv8 && Code(19) == 'T' as bv8
    ensures Code(20) == 'U' as bv8 && Code(21) == 'V' as bv8 && Code(22) == 'W' as bv8 && Code(23) == 'X' as bv8
    ensures Code(24) == 'Y' as bv8 && Code(25) == 'Z' as bv8
  {
  }

  lemma SmallLetters()
    ensures Code(26) == 'a' as bv8 && Code(27) == 'b' as bv8 && Code(28) == 'c' as bv8 && Code(29) == 'd' as bv8
    ensures Code(30) == 'e' as bv8 && Code(31) == 'f' as bv8 && Code(32) == 'g' as bv8 && Code(33) == 'h' as bv8
    ensures Code(34) == 'i' as bv8 && Code(35) == 'j' as bv8 && Code(36) == 'k' as bv8 && Code(37) == 'l' as bv8
    ensures Code(38) == 'm' as bv8 && Code(39) == 'n' as bv8 && Code(40) == 'o' as bv8 && Code(41) == 'p' as bv8
    ensures Code(42) == 'q' as bv8 && Code(43) == 'r' as bv8 && Code(44) == 's' as bv8 && Code(45) == 't' as bv8
    ensures Code(46) == 'u' as bv8 && Code(47) == 'v' as bv8 && Code(48) == 'w' as bv8 && Code(49) == 'x' as bv8
    ensures Code(50) == 'y' as bv8 && Code(51) == 'z' as bv8
  {
  }

  lemma DigitsAndSigns()
    ensures Code(52) == '0' as bv8 && Code(53) == '1' as bv8 && Code(54) == '2' as bv8 && Code(55) == '3' as bv8
    ensures Code(56) == '4' as bv8 && Code(57) == '5' as bv8 && Code(58) == '6' as bv8 && Code(59) == '7' as bv8
    ensures Code(60) == '8' as bv8 && Code(61) == '9' as bv8 && Code(62) == '+' as bv8 && Code(63) == '/' as bv8
  {
  }

  /** A character outside the alphabet decodes like the letter A. */
  lemma OutsideAlphabet(c: bv8)
    requires c < 123
    ensures if exists i: bv8 :: i < 64 && Code(i) == c then Code(DeTab(c)) == c else DeTab(c) == 0
  {
    if i: bv8 :| i < 64 && Code(i) == c {
      DeTabCode(i);
    } else {
      assert Code(DeTab(c)) != c;
    }
  }

  // ---- One group -----------------------------------------------------------------------------------------

  function S0(b0: bv8): (i: bv8)
    ensures i < 64
  {
    (b0 >> 2) & 0x3f
  }

  function S1(b0: bv8, b1: bv8): (i: bv8)
    ensures i < 64
  {
    ((b0 << 4) & 0x30) + ((b1 >> 4) & 0xf)
  }

  function S2(b1: bv8, b2: bv8): (i: bv8)
    ensures i < 64
  {
    ((b1 << 2) & 0x3c) + ((b2 >> 6) & 0x3)
  }

  function S3(b2: bv8): (i: bv8)
    ensures i < 64
  {
    b2 & 0x3f
  }

  /** The four sextets are the 24-bit group cut from the left, as the standard defines them. */
  lemma SextetsOfGroup(b0: bv8, b1: bv8, b2: bv8)
    ensures var g := (b0 as bv24 << 16) | (b1 as bv24 << 8) | b2 as bv24;
            && S0(b0) as bv24 == (g >> 18) & 0x3f && S1(b0, b1) as bv24 == (g >> 12) & 0x3f
            && S2(b1, b2) as bv24 == (g >> 6) & 0x3f && S3(b2) as bv24 == g & 0x3f
  {
  }

  function Out0(v0: bv8, v1: bv8): bv8
    requires v0 < 64 && v1 < 64
  {
    var n := (v0 as bv32 << 18) + (v1 as bv32 << 12);
    ((n & 0x00ff0000) >> 16) as bv8
  }

  function Out1(v0: bv8, v1: bv8, v2: bv8): bv8
    requires v0 < 64 && v1 < 64 && v2 < 64
  {
    var n := (v0 as bv32 << 18) + (v1 as bv32 << 12) + (v2 as bv32 << 6);
    ((n & 0x0000ff00) >> 8) as bv8
  }

  function Out2(v0: bv8, v1: bv8, v2: bv8, v3: bv8): bv8
    requires v0 < 64 && v1 < 64 && v2 < 64 && v3 < 64
  {
    var n := (v0 as bv32 << 18) + (v1 as bv32 << 12) + (v2 as bv32 << 6) + v3 as bv32;
    (n & 0x000000ff) as bv8
  }

  lemma GroupRoundTrip(b0: bv8, b1: bv8, b2: bv8)
    ensures Out0(S0(b0), S1(b0, b1)) == b0
    ensures Out1(S0(b0), S1(b0, b1), S2(b1, b2)) == b1
    ensures Out2(S0(b0), S1(b0, b1), S2(b1, b2), S3(b2)) == b2
  {
  }

  // ---- The encoder ------------------------------------------------------------------------------------------

  /** The quartet for the first (up to) three bytes. */
  function Quartet(s: Bytes): (q: Bytes)
    requires s != []
    ensures |q| == 4
  {
    if |s| == 1 then [Code(S0(s[0])), Code(S1(s[0], 0)), EQUALS, EQUALS]
    else if |s| == 2 then [Code(S0(s[0])), Code(S1(s[0], s[1])), Code(S2(s[1], 0)), EQUALS]
    else [Code(S0(s[0])), Code(S1(s[0], s[1])), Code(S2(s[1], s[2])), Code(S3(s[2]))]
  }

  /** What follows the first group. */
  function Tail(s: Bytes): Bytes {
    if |s| < 3 then [] else s[3..]
  }

  function EncodeText(s: Bytes): (t: Bytes)
    ensures |t| == 4 * ((|s| + 2) / 3)
    decreases |s|
  {
    if s == [] then [] else Quartet(s) + EncodeText(Tail(s))
  }

  lemma KnownQuartetsOfFoo()
    ensures Quartet([0x66]) == [0x5a, 0x67, 0x3d, 0x3d] // f: Zg==
    ensures Quartet([0x66, 0x6f]) == [0x5a, 0x6d, 0x38, 0x3d] // fo: Zm8=
    ensures Quartet([0x66, 0x6f, 0x6f]) == [0x5a, 0x6d, 0x39, 0x76] // foo: Zm9v
  {
  }

  lemma KnownQuartetsOfBar()
    ensures Quartet([0x62]) == [0x59, 0x67, 0x3d, 0x3d] // b: Yg==
    ensures Quartet([0x62, 0x61]) == [0x59, 0x6d, 0x45, 0x3d] // ba: YmE=
    ensures Quartet([0x62, 0x61, 0x72]) == [0x59, 0x6d, 0x46, 0x79] // bar: YmFy
  {
  }

  /** The known answers of section 10 of RFC 4648. */
  lemma KnownAnswers()
    ensures EncodeText([]) == []
    ensures EncodeText([0x66]) == [0x5a, 0x67, 0x3d, 0x3d] // f: Zg==
    ensures EncodeText([0x66, 0x6f]) == [0x5a, 0x6d, 0x38, 0x3d] // fo: Zm8=
    ensures EncodeText([0x66, 0x6f, 0x6f]) == [0x5a, 0x6d, 0x39, 0x76] // foo: Zm9v
    ensures EncodeText([0x66, 0x6f, 0x6f, 0x62]) // foob: Zm9vYg==
         == [0x5a, 0x6d, 0x39, 0x76, 0x59, 0x67, 0x3d, 0x3d]
    ensures EncodeText([0x66, 0x6f, 0x6f, 0x62, 0x61]) // fooba: Zm9vYmE=
         == [0x5a, 0x6d, 0x39, 0x76, 0x59, 0x6d, 0x45, 0x3d]
    ensures EncodeText([0x66, 0x6f, 0x6f, 0x62, 0x61, 0x72]) // foobar: Zm9vYmFy
         == [0x5a, 0x6d, 0x39, 0x76, 0x59, 0x6d, 0x46, 0x79]
  {
    NothingEncoded();
    KnownQuartetsOfFoo();
    KnownQuartetsOfBar();
    hide *;
    OneQuartet([0x66]);
    OneQuartet([0x66, 0x6f]);
    OneQuartet([0x66, 0x6f, 0x6f]);
    OneQuartet([0x62]);
    OneQuartet([0x62, 0x61]);
    OneQuartet([0x62, 0x61, 0x72]);
    FooAnd([0x62], [0x66, 0x6f, 0x6f, 0x62], [0x5a, 0x6d, 0x39, 0x76, 0x59, 0x67, 0x3d, 0x3d]);
    FooAnd([0x62, 0x61], [0x66, 0x6f, 0x6f, 0x62, 0x61], [0x5a, 0x6d, 0x39, 0x76, 0x59, 0x6d, 0x45, 0x3d]);
    FooAnd([0x62, 0x61, 0x72], [0x66, 0x6f, 0x6f, 0x62, 0x61, 0x72], [0x5a, 0x6d, 0x39, 0x76, 0x59, 0x6d, 0x46, 0x79]);
  }

  lemma FooAnd(rest: Bytes, all: Bytes, text: Bytes)
    requires |text| >= 4 && all == [0x66, 0x6f, 0x6f] + rest
    requires text[..4] == [0x5a, 0x6d, 0x39, 0x76] && text[4..] == EncodeText(rest)
    ensures EncodeText(all) == text
  {
    hide Quartet;
    KnownQuartetsOfFoo();
    FirstQuartet([0x66, 0x6f, 0x6f], rest);
    assert text == text[..4] + text[4..];
  }

  lemma NothingEncoded()
    ensures EncodeText([]) == []
  {
  }

  lemma OneQuartet(s: Bytes)
    requires 1 <= |s| <= 3
    ensures EncodeText(s) == Quartet(s)
  {
    hide Quartet;
    assert EncodeText(Tail(s)) == [];
  }

  lemma FirstQuartet(s: Bytes, rest: Bytes)
    requires |s| == 3
    ensures EncodeText(s + rest) == Quartet(s) + EncodeText(rest)
  {
    assert (s + rest)[3..] == rest;
    assert Quartet(s + rest) == Quartet(s);
    hide Quartet;
  }

  // ---- The decoder ------------------------------------------------------------------------------------------

  /** *p for a string t: past its end the code reads the terminator, and is taken to go on reading zeros. */
  function Fetch(t: Bytes, p: nat): (c: bv8)
    ensures InTable(t) ==> c < 123
  {
    if p < |t| then t[p] else 0
  }

  predicate InTable(t: Bytes) {
    forall i :: 0 <= i < |t| ==> t[i] < 123
  }

  /** What the decoder does with a group at p: its bytes, and how far the source pointer moves. */
  function Group(t: Bytes, p: nat): (r: (Bytes, nat))
    requires InTable(t)
    ensures 1 <= |r.0| <= 3 && r.1 == 1 + |r.0|
  {
    var v0, v1 := DeTab(Fetch(t, p)), DeTab(Fetch(t, p + 1));
    if Fetch(t, p + 2) == EQUALS then ([Out0(v0, v1)], 2)
    else
      var v2 := DeTab(Fetch(t, p + 2));
      if Fetch(t, p + 3) == EQUALS then ([Out0(v0, v1), Out1(v0, v1, v2)], 3)
      else ([Out0(v0, v1), Out1(v0, v1, v2), Out2(v0, v1, v2, DeTab(Fetch(t, p + 3)))], 4)
  }

  predicate IsBreak(c: bv8) { c == CR || c == LF }

  /** The loop of Base64Decode from source pointer p and count i.  The two drift apart at a padded group:
      the count grows by four, the pointer only past the characters used. */
  function DecodeFrom(t: Bytes, p: nat, i: nat): Bytes
    requires InTable(t)
    decreases |t| - i
  {
    if i >= |t| then []
    else if IsBreak(Fetch(t, p)) then DecodeFrom(t, p + 1, i + 1)
    else Group(t, p).0 + DecodeFrom(t, p + Group(t, p).1, i + 4)
  }

  function DecodeText(t: Bytes): Bytes
    requires InTable(t)
  {
    DecodeFrom(t, 0, 0)
  }

  // ---- Quartets in place ----------------------------------------------------------------------------------------

  lemma QuartetInTable(s: Bytes)
    requires s != []
    ensures InTable(Quartet(s)) && !IsBreak(Quartet(s)[0])
  {
    DeTabCode(S0(s[0]));
    DeTabCode(S1(s[0], if |s| > 1 then s[1] else 0));
    if |s| > 1 { DeTabCode(S2(s[1], if |s| > 2 then s[2] else 0)); }
    if |s| > 2 { DeTabCode(S3(s[2])); }
  }

  /** A quartet in place decodes to the bytes it encodes; the pointer stops before any padding. */
  lemma GroupOfQuartet(t: Bytes, p: nat, s: Bytes)
    requires s != [] && InTable(t) && p + 4 <= |t| && t[p..p + 4] == Quartet(s)
    ensures Group(t, p).0 == if |s| < 3 then s else s[..3]
  {
    hide DeTab, Code, S0, S1, S2, S3, Out0, Out1, Out2;
    var q, b1, b2 := Quartet(s), if |s| > 1 then s[1] else 0, if |s| > 2 then s[2] else 0;
    assert Fetch(t, p) == q[0] && Fetch(t, p + 1) == q[1] && Fetch(t, p + 2) == q[2] && Fetch(t, p + 3) == q[3] by {
      var w := t[p..p + 4];
      assert w[0] == t[p] && w[1] == t[p + 1] && w[2] == t[p + 2] && w[3] == t[p + 3];
    }
    DeTabCode(S0(s[0]));
    DeTabCode(S1(s[0], b1));
    DeTabCode(S2(b1, b2));
    DeTabCode(S3(b2));
    GroupRoundTrip(s[0], b1, b2);
    if |s| == 1 {
      assert Group(t, p).0 == [s[0]];
    } else if |s| == 2 {
      assert Group(t, p).0 == [s[0], s[1]];
    } else {
      assert Group(t, p).0 == [s[0], s[1], s[2]];
    }
  }

  lemma PaddedEnd(t: Bytes, b: nat, s: Bytes)
    requires 1 <= |s| <= 2 && InTable(t) && b + 4 <= |t| && t[b..b + 4] == Quartet(s)
    ensures |t| == b + 4 ==> DecodeFrom(t, b, b) == s
    ensures |t| > b + 4 ==> |DecodeFrom(t, b, b)| > |s|
  {
    GroupOfQuartet(t, b, s);
    QuartetInTable(s);
    hide Group;
    assert t[b] == Quartet(s)[0];
    assert DecodeFrom(t, b, b) == s + DecodeFrom(t, b + 1 + |s|, b + 4);
    assert t[b + 1 + |s|] == Quartet(s)[1 + |s|] == EQUALS;
  }

  lemma FullGroup(t: Bytes, b: nat, s: Bytes)
    requires |s| >= 3 && InTable(t) && b + 4 <= |t| && t[b..b + 4] == Quartet(s)
    ensures DecodeFrom(t, b, b) == s[..3] + DecodeFrom(t, b + 4, b + 4)
  {
    GroupOfQuartet(t, b, s);
    QuartetInTable(s);
    hide Group;
    assert t[b] == Quartet(s)[0];
  }

  // ---- Line breaks anywhere -------------------------------------------------------------------------------------

  /** A text without its line breaks. */
  function Strip(t: Bytes): Bytes {
    if t == [] then [] else (if IsBreak(t[0]) then [] else [t[0]]) + Strip(t[1..])
  }

  /** Breaks stand only before quartets, and nothing follows the padding. */
  predicate Harmless(t: Bytes) {
    t == [] ||
    if IsBreak(t[0]) then Harmless(t[1..])
    else
      && |t| >= 4 && !IsBreak(t[1]) && !IsBreak(t[2]) && !IsBreak(t[3])
      && if t[3] == EQUALS then |t| == 4 else Harmless(t[4..])
  }

  lemma {:induction false} StripSplit(t: Bytes, x: nat)
    requires x <= |t|
    ensures Strip(t) == Strip(t[..x]) + Strip(t[x..])
  {
    if x > 0 {
      StripSplit(t[1..], x - 1);
      assert t[..x][1..] == t[1..][..x - 1];
    }
  }

  lemma {:induction false} StripShrinks(t: Bytes)
    ensures |Strip(t)| <= |t| && (|Strip(t)| == |t| <==> forall i :: 0 <= i < |t| ==> !IsBreak(t[i]))
    ensures |Strip(t)| == |t| ==> Strip(t) == t
    ensures Strip(t) == [] <==> forall i :: 0 <= i < |t| ==> IsBreak(t[i])
  {
    if t != [] {
      StripShrinks(t[1..]);
      assert forall i :: 1 <= i < |t| ==> t[i] == t[1..][i - 1];
    }
  }

  /** Where a character that is no break comes to stand. */
  lemma StripAt(t: Bytes, x: nat)
    requires x < |t| && !IsBreak(t[x])
    ensures var j := |Strip(t[..x])|; j <= x && j < |Strip(t)| && Strip(t)[j] == t[x]
    ensures (exists y :: 0 <= y < x && IsBreak(t[y])) ==> |Strip(t[..x])| < x
  {
    StripSplit(t, x);
    StripShrinks(t[..x]);
    assert Strip(t[x..]) == [t[x]] + Strip(t[x..][1..]);
    if y :| 0 <= y < x && IsBreak(t[y]) { assert t[..x][y] == t[y]; }
  }

  lemma StripInTable(t: Bytes)
    requires InTable(Strip(t))
    ensures InTable(t)
    decreases |t|
  {
    if t != [] {
      assert InTable(Strip(t[1..])) by {
        var w, n := Strip(t), if IsBreak(t[0]) then 0 else 1;
        assert Strip(t[1..]) == w[n..];
      }
      StripInTable(t[1..]);
      assert IsBreak(t[0]) || Strip(t)[0] == t[0];
      assert forall i :: 1 <= i < |t| ==> t[i] == t[1..][i - 1];
    }
  }

  /** Only the padding consists of padding characters. */
  lemma {:induction false} PaddingLast(s: Bytes)
    ensures InTable(EncodeText(s))
    ensures var q := (|s| + 2) / 3; forall i :: 0 <= i < |s| + q ==> EncodeText(s)[i] != EQUALS
    decreases |s|
  {
    if s != [] {
      QuartetInTable(s);
      QuartetPadding(s);
      hide Quartet;
      PaddingLast(Tail(s));
    }
  }

  lemma QuartetPadding(s: Bytes)
    requires s != []
    ensures forall i :: 0 <= i < 4 ==> (Quartet(s)[i] == EQUALS <==> i > |s|)
  {
    DeTabCode(S0(s[0]));
    DeTabCode(S1(s[0], if |s| > 1 then s[1] else 0));
    if |s| > 1 { DeTabCode(S2(s[1], if |s| > 2 then s[2] else 0)); }
    if |s| > 2 { DeTabCode(S3(s[2])); }
  }

  /** What a group yields depends on where it finds padding. */
  lemma GroupSize(t: Bytes, p: nat)
    requires InTable(t) && p + 4 <= |t|
    ensures |Group(t, p).0| == if t[p + 2] == EQUALS then 1 else if t[p + 3] == EQUALS then 2 else 3
    ensures Group(t, p).1 == 1 + |Group(t, p).0|
    ensures !IsBreak(t[p]) ==> DecodeFrom(t, p, p) == Group(t, p).0 + DecodeFrom(t, p + Group(t, p).1, p + 4)
  {
    hide DeTab, Out0, Out1, Out2;
  }

  /** From anywhere: more than 4 * k characters, with padding only among the last two, yield more than 3 * k
      bytes, less the padding. */
  lemma {:induction false} YieldAtLeast(t: Bytes, p: nat, k: nat, pad: nat)
    requires InTable(t) && p <= |t| && pad <= 2 && |Strip(t[p..])| > 4 * k
    requires forall i :: 0 <= i < |Strip(t[p..])| - pad ==> Strip(t[p..])[i] != EQUALS
    ensures |DecodeFrom(t, p, p)| >= 3 * k + 1 - pad
    decreases |t| - p
  {
    hide Group;
    var u := t[p..];
    StripShrinks(u);
    if IsBreak(t[p]) {
      assert u[1..] == t[p + 1..] && Strip(u) == Strip(u[1..]);
      YieldAtLeast(t, p + 1, k, pad);
    } else if k > 0 {
      GroupSize(t, p);
      if |Group(t, p).0| == 3 {
        StripSplit(u, 4);
        StripShrinks(u[..4]);
        assert u[4..] == t[p + 4..];
        var m := |Strip(u[..4])|;
        assert Strip(u[4..]) == Strip(u)[m..];
        YieldAtLeast(t, p + 4, k - 1, pad);
      } else {
        StripAt(u, if t[p + 2] == EQUALS then 2 else 3);
      }
    }
  }

  /** A break inside a quartet makes the output too long. */
  lemma BreakInside(t: Bytes, p: nat, s: Bytes)
    requires InTable(t) && p <= |t| && s != [] && Strip(t[p..]) == EncodeText(s) && |t| - p >= 4 && !IsBreak(t[p])
    requires IsBreak(t[p + 1]) || IsBreak(t[p + 2]) || IsBreak(t[p + 3])
    ensures |DecodeFrom(t, p, p)| > |s|
  {
    hide Group, EncodeText;
    var u, q := t[p..], (|s| + 2) / 3;
    var pad := 3 * q - |s|;
    PaddingLast(s);
    GroupSize(t, p);
    assert u[1] == t[p + 1] && u[2] == t[p + 2] && u[3] == t[p + 3];
    StripSplit(u, 4);
    StripShrinks(u[..4]);
    StripShrinks(u);
    if |Group(t, p).0| == 3 {
      assert exists i :: 0 <= i < 4 && IsBreak(u[..4][i]) by {
        assert u[..4][1] == u[1] && u[..4][2] == u[2] && u[..4][3] == u[3];
      }
      assert u[4..] == t[p + 4..];
      var m := |Strip(u[..4])|;
      assert Strip(u[4..]) == Strip(u)[m..];
      YieldAtLeast(t, p + 4, q - 1, pad);
    } else {
      StripAt(u, if t[p + 2] == EQUALS then 2 else 3);
      if t[p + 2] == EQUALS { GroupAtEnd(t, p); }
    }
  }

  /** A group with one byte, and text left by the count, is followed by another. */
  lemma GroupAtEnd(t: Bytes, p: nat)
    requires InTable(t) && p + 4 < |t| && !IsBreak(t[p]) && t[p + 2] == EQUALS
    ensures |DecodeFrom(t, p, p)| >= 2
  {
    GroupSize(t, p);
    hide Group;
  }

  /** An unbroken start is the quartet. */
  lemma UnbrokenStart(t: Bytes, p: nat, s: Bytes)
    requires p + 4 <= |t| && s != [] && Strip(t[p..]) == EncodeText(s)
    requires forall i :: p <= i < p + 4 ==> !IsBreak(t[i])
    ensures t[p..p + 4] == Quartet(s) && Strip(t[p + 4..]) == EncodeText(Tail(s))
  {
    var u := t[p..];
    StripSplit(u, 4);
    assert u[..4] == t[p..p + 4] && u[4..] == t[p + 4..];
    StripShrinks(u[..4]);
    hide Quartet, Strip;
    SameSplit(u[..4], Strip(u[4..]), Quartet(s), EncodeText(Tail(s)));
  }

  lemma SameSplit(a: Bytes, b: Bytes, q: Bytes, e: Bytes)
    requires a + b == q + e && |a| == |q|
    ensures a == q && b == e
  {
    assert a == (a + b)[..|a|] && b == (a + b)[|a|..] && q == (q + e)[..|q|] && e == (q + e)[|q|..];
  }

  lemma ThreeAndTail(s: Bytes, x: Bytes)
    requires |s| >= 3
    ensures s[..3] + x == s <==> x == Tail(s)
  {
    assert s == s[..3] + Tail(s) && (s[..3] + x)[3..] == x;
  }

  /** An unbroken quartet, given what the rest of the text decodes to. */
  lemma UnbrokenCase(t: Bytes, p: nat, s: Bytes)
    requires InTable(t) && p + 4 <= |t| && s != [] && t[p..p + 4] == Quartet(s)
    requires Strip(t[p + 4..]) == EncodeText(Tail(s))
    requires |s| >= 3 ==> (DecodeFrom(t, p + 4, p + 4) == Tail(s) <==> Harmless(t[p + 4..]))
    ensures DecodeFrom(t, p, p) == s <==> Harmless(t[p..])
  {
    var q := t[p..p + 4];
    QuartetUnbroken(s);
    QuartetPadding(s);
    hide Group, Quartet, Strip, Harmless;
    UnbrokenQuartet(q, t[p + 4..]);
    assert t[p..] == q + t[p + 4..];
    hide EncodeText;
    if |s| < 3 {
      PaddedEnd(t, p, s);
    } else {
      FullGroup(t, p, s);
      hide DecodeFrom;
      ThreeAndTail(s, DecodeFrom(t, p + 4, p + 4));
    }
  }

  lemma HarmfulBreak(t: Bytes, p: nat)
    requires p + 4 <= |t| && !IsBreak(t[p]) && (IsBreak(t[p + 1]) || IsBreak(t[p + 2]) || IsBreak(t[p + 3]))
    ensures !Harmless(t[p..])
  {
    var u := t[p..];
    assert u[0] == t[p] && u[1] == t[p + 1] && u[2] == t[p + 2] && u[3] == t[p + 3];
  }

  lemma EncodedSize(s: Bytes)
    ensures s == [] <==> EncodeText(s) == []
    ensures s != [] ==> |EncodeText(s)| >= 4
  {
  }

  lemma QuartetAhead(t: Bytes, p: nat, s: Bytes)
    requires p < |t| && Strip(t[p..]) == EncodeText(s) && !IsBreak(t[p])
    ensures s != [] && p + 4 <= |t|
  {
    EncodedSize(s);
    StripShrinks(t[p..]);
    assert t[p..][0] == t[p];
  }

  lemma {:induction false} DecodeBroken(t: Bytes, p: nat, s: Bytes)
    requires InTable(t) && p <= |t| && Strip(t[p..]) == EncodeText(s)
    ensures DecodeFrom(t, p, p) == s <==> Harmless(t[p..])
    decreases |t| - p
  {
    hide Group, Quartet, EncodeText;
    if p == |t| {
      EncodedSize(s);
    } else if IsBreak(t[p]) {
      BrokenHead(t, p, s);
      DecodeBroken(t, p + 1, s);
    } else {
      QuartetAhead(t, p, s);
      hide Strip, Harmless, DecodeFrom;
      if IsBreak(t[p + 1]) || IsBreak(t[p + 2]) || IsBreak(t[p + 3]) {
        BreakInside(t, p, s);
        HarmfulBreak(t, p);
      } else {
        UnbrokenStart(t, p, s);
        if |s| >= 3 { DecodeBroken(t, p + 4, Tail(s)); }
        UnbrokenCase(t, p, s);
      }
    }
  }

  /** However line breaks are put into an encoded text, the decoder gives back the bytes if and only if they stand
      only before quartets and none follows the padding. */
  lemma BreaksExact(t: Bytes, s: Bytes)
    requires Strip(t) == EncodeText(s)
    ensures InTable(t) && (DecodeText(t) == s <==> Harmless(t))
  {
    PaddingLast(s);
    StripInTable(t);
    assert t[0..] == t;
    DecodeBroken(t, 0, s);
  }

  lemma UnbrokenQuartet(q: Bytes, rest: Bytes)
    requires |q| == 4 && forall i :: 0 <= i < 4 ==> !IsBreak(q[i])
    ensures Strip(q + rest) == q + Strip(rest)
    ensures Harmless(q + rest) <==> if q[3] == EQUALS then rest == [] else Harmless(rest)
  {
    var t := q + rest;
    assert t[4..] == rest && t[..4] == q && t[0] == q[0] && t[1] == q[1] && t[2] == q[2] && t[3] == q[3];
    StripSplit(t, 4);
    StripShrinks(q);
  }

  lemma {:induction false} AllBreaks(gap: Bytes)
    requires forall i :: 0 <= i < |gap| ==> IsBreak(gap[i])
    ensures Strip(gap) == [] && Harmless(gap)
  {
    if gap != [] { AllBreaks(gap[1..]); }
  }

  lemma {:induction false} TrailingHarmless(s: Bytes, gap: Bytes)
    requires forall i :: 0 <= i < |gap| ==> IsBreak(gap[i])
    ensures Strip(EncodeText(s) + gap) == EncodeText(s)
    ensures Harmless(EncodeText(s) + gap) <==> |s| % 3 == 0 || gap == []
    decreases |s|
  {
    hide Quartet, Strip, Harmless;
    if s == [] {
      AllBreaks(gap);
      assert EncodeText(s) + gap == gap;
    } else {
      var q, rest := Quartet(s), EncodeText(Tail(s)) + gap;
      assert EncodeText(s) + gap == q + rest;
      TrailingHarmless(Tail(s), gap);
      QuartetPadding(s);
      QuartetUnbroken(s);
      UnbrokenQuartet(q, rest);
    }
  }

  lemma QuartetUnbroken(s: Bytes)
    requires s != []
    ensures forall i :: 0 <= i < 4 ==> !IsBreak(Quartet(s)[i])
  {
    DeTabCode(S0(s[0]));
    DeTabCode(S1(s[0], if |s| > 1 then s[1] else 0));
    if |s| > 1 { DeTabCode(S2(s[1], if |s| > 2 then s[2] else 0)); }
    if |s| > 2 { DeTabCode(S3(s[2])); }
  }

  /** Breaks at the end of an encoded text are harmless exactly when the text ends without padding. */
  lemma TrailingExact(s: Bytes, gap: Bytes)
    requires forall i :: 0 <= i < |gap| ==> IsBreak(gap[i])
    ensures InTable(EncodeText(s) + gap)
    ensures DecodeText(EncodeText(s) + gap) == s <==> |s| % 3 == 0 || gap == []
  {
    TrailingHarmless(s, gap);
    BreaksExact(EncodeText(s) + gap, s);
  }

  /** Decoding undoes encoding, for every byte string. */
  lemma RoundTrip(s: Bytes)
    ensures InTable(EncodeText(s)) && DecodeText(EncodeText(s)) == s
  {
    TrailingExact(s, []);
    assert EncodeText(s) + [] == EncodeText(s);
  }

  lemma BrokenHead(t: Bytes, p: nat, s: Bytes)
    requires InTable(t) && p < |t| && Strip(t[p..]) == EncodeText(s) && IsBreak(t[p])
    ensures Strip(t[p + 1..]) == EncodeText(s) && t[p..][1..] == t[p + 1..]
    ensures DecodeFrom(t, p, p) == DecodeFrom(t, p + 1, p + 1)
  {
  }

  // ---- The loops ----------------------------------------------------------------------------------------------

  /** Four times *p++ = c. */
  method Put(pDst: array<bv8>, p: nat, c0: bv8, c1: bv8, c2: bv8, c3: bv8)
    requires p + 4 <= pDst.Length
    modifies pDst
    ensures pDst[..p + 4] == old(pDst[..p]) + [c0, c1, c2, c3]
    ensures forall k :: p + 4 <= k < pDst.Length ==> pDst[k] == old(pDst[k])
  {
    pDst[p] := c0;
    pDst[p + 1] := c1;
    pDst[p + 2] := c2;
    pDst[p + 3] := c3;
  }

  /** pSrc is the text before the terminator; dstSize is what the caller says pDst holds. */
  method Base64Encode(pDst: array<bv8>, pSrc: Bytes, dstSize: int) returns (ret: int)
    requires dstSize >= 4 * ((|pSrc| + 2) / 3) ==> pDst.Length > 4 * ((|pSrc| + 2) / 3)
    modifies pDst
    ensures ret == if dstSize < |EncodeText(pSrc)| then -1 else 0
    ensures ret == -1 ==> pDst[..] == old(pDst[..])
    ensures ret == 0 ==>
              var t := EncodeText(pSrc);
              |t| < pDst.Length && pDst[..] == t + [0] + old(pDst[|t| + 1..])
  {
    hide Quartet, Code, S0, S1, S2, S3, EncodeText;
    var inLen := |pSrc|;
    var times := inLen / 3;
    var len := 4 * ((inLen + 2) / 3);
    if dstSize < len {
      return -1;
    }
    ghost var t := EncodeText(pSrc);
    var p := EncodeGroups(pDst, pSrc, times);
    p := EncodeLast(pDst, p, pSrc, times);
    assert pDst[..p] == t;
    pDst[p] := 0;
    return 0;
  }

  /** The loop over the full groups. */
  method EncodeGroups(pDst: array<bv8>, pSrc: Bytes, times: nat) returns (p: nat)
    requires times == |pSrc| / 3 && 4 * times <= pDst.Length
    modifies pDst
    ensures p == 4 * times && pDst[..p] + EncodeText(pSrc[3 * times..]) == EncodeText(pSrc)
    ensures forall k :: p <= k < pDst.Length ==> pDst[k] == old(pDst[k])
  {
    hide Quartet, Code, S0, S1, S2, S3, EncodeText;
    p := 0;
    var i := 0;
    assert pSrc[0..] == pSrc;
    while i < times
      invariant 0 <= i <= times && p == 4 * i
      invariant pDst[..p] + EncodeText(pSrc[3 * i..]) == EncodeText(pSrc)
      invariant forall k :: p <= k < pDst.Length ==> pDst[k] == old(pDst[k])
    {
      ghost var rest := pSrc[3 * i..];
      var b0, b1, b2 := pSrc[3 * i], pSrc[3 * i + 1], pSrc[3 * i + 2];
      assert rest[0] == b0 && rest[1] == b1 && rest[2] == b2;
      QuartetOf(rest);
      assert Tail(rest) == pSrc[3 * (i + 1)..];
      Put(pDst, p, Code(S0(b0)), Code(S1(b0, b1)), Code(S2(b1, b2)), Code(S3(b2)));
      i, p := i + 1, p + 4;
    }
  }

  /** The one or two bytes after the last full group. */
  method EncodeLast(pDst: array<bv8>, at: nat, pSrc: Bytes, times: nat) returns (p: nat)
    requires times == |pSrc| / 3 && at + 4 * ((|pSrc| - 3 * times + 2) / 3) <= pDst.Length
    modifies pDst
    ensures p == at + |EncodeText(pSrc[3 * times..])| <= pDst.Length
    ensures pDst[..p] == old(pDst[..at]) + EncodeText(pSrc[3 * times..])
    ensures forall k :: p <= k < pDst.Length ==> pDst[k] == old(pDst[k])
  {
    hide Quartet, Code, S0, S1, S2, S3;
    p := at;
    var inLen := |pSrc|;
    ghost var rest := pSrc[3 * times..];
    if times * 3 + 1 == inLen {
      var b0 := pSrc[3 * times];
      QuartetOf(rest);
      Put(pDst, p, Code(S0(b0)), Code(S1(b0, 0)), EQUALS, EQUALS);
      p := p + 4;
    }
    if times * 3 + 2 == inLen {
      var b0, b1 := pSrc[3 * times], pSrc[3 * times + 1];
      QuartetOf(rest);
      Put(pDst, p, Code(S0(b0)), Code(S1(b0, b1)), Code(S2(b1, 0)), EQUALS);
      p := p + 4;
    }
  }

  lemma QuartetOf(s: Bytes)
    requires s != []
    ensures |s| >= 3 ==> Quartet(s) == [Code(S0(s[0])), Code(S1(s[0], s[1])), Code(S2(s[1], s[2])), Code(S3(s[2]))]
    ensures |s| == 2 ==> Quartet(s) == [Code(S0(s[0])), Code(S1(s[0], s[1])), Code(S2(s[1], 0)), EQUALS]
    ensures |s| == 1 ==> Quartet(s) == [Code(S0(s[0])), Code(S1(s[0], 0)), EQUALS, EQUALS]
    ensures EncodeText(s) == Quartet(s) + EncodeText(Tail(s))
    ensures |s| < 3 ==> EncodeText(s) == Quartet(s)
  {
  }

  /** pDst must have room for the output and its terminator; the code does not look at dstSize. */
  method Base64Decode(pDst: array<bv8>, pSrc: Bytes) returns (nDstLen: nat)
    requires InTable(pSrc) && |DecodeText(pSrc)| < pDst.Length
    modifies pDst
    ensures nDstLen == |DecodeText(pSrc)|
    ensures pDst[..] == DecodeText(pSrc) + [0] + old(pDst[nDstLen + 1..])
  {
    hide Group, Fetch;
    var nSrcLen := |pSrc|;
    var i, p := 0, 0;
    nDstLen := 0;
    ghost var out := DecodeText(pSrc);
    while i < nSrcLen
      invariant nDstLen <= |out| && pDst[..nDstLen] + DecodeFrom(pSrc, p, i) == out
      invariant forall k :: |out| < k < pDst.Length ==> pDst[k] == old(pDst[k])
      decreases nSrcLen - i
    {
      if Fetch(pSrc, p) != CR && Fetch(pSrc, p) != LF {
        p, nDstLen := DecodeGroup(pDst, nDstLen, pSrc, p, |out|);
        i := i + 4;
      } else {
        p := p + 1;
        i := i + 1;
      }
    }
    pDst[nDstLen] := 0;
  }

  /** The body of the loop for a group. */
  method DecodeGroup(pDst: array<bv8>, at: nat, pSrc: Bytes, from: nat, ghost limit: nat) returns (p: nat, n: nat)
    requires InTable(pSrc) && at + |Group(pSrc, from).0| <= limit < pDst.Length
    modifies pDst
    ensures p == from + Group(pSrc, from).1 && n == at + |Group(pSrc, from).0|
    ensures pDst[..n] == old(pDst[..at]) + Group(pSrc, from).0
    ensures forall k :: limit < k < pDst.Length ==> pDst[k] == old(pDst[k])
  {
    hide DeTab, Out0, Out1, Out2, Fetch;
    p, n := from, at;
    var v0, v1 := DeTab(Fetch(pSrc, p)), DeTab(Fetch(pSrc, p + 1));
    p := p + 2;
    pDst[n] := Out0(v0, v1);
    n := n + 1;
    if Fetch(pSrc, p) != EQUALS {
      var v2 := DeTab(Fetch(pSrc, p));
      p := p + 1;
      pDst[n] := Out1(v0, v1, v2);
      n := n + 1;
      if Fetch(pSrc, p) != EQUALS {
        var v3 := DeTab(Fetch(pSrc, p));
        p := p + 1;
        pDst[n] := Out2(v0, v1, v2, v3);
        n := n + 1;
      }
    }
  }
}
