/** UTF-8 to UTF-16: fmt's branchless decoder of one code point, against the two encodings' own definitions. */
module Transcoding {
  type Byte = b: bv32 | b <= 0xff

  type Unit = u: bv32 | u <= 0xffff

  datatype Decoded = Decoded(cp: bv32, error: bv32, length: nat)

  // The definitions: sections 3 and 4 of RFC 3629, section 2.1 of RFC 2781.

  predicate Scalar(c: bv32) {
    c <= 0x10ffff && !(0xd800 <= c <= 0xdfff)
  }

  function Utf8(c: bv32): (r: seq<Byte>)
    requires c <= 0x10ffff
    ensures 1 <= |r| <= 4
  {
    if c < 0x80 then [c]
    else if c < 0x800 then [0xc0 | (c >> 6), Tail(c)]
    else if c < 0x10000 then [0xe0 | (c >> 12), Tail(c >> 6), Tail(c)]
    else [0xf0 | (c >> 18), Tail(c >> 12), Tail(c >> 6), Tail(c)]
  }

  function Tail(c: bv32): Byte {
    0x80 | (c & 0x3f)
  }

  function Utf16(c: bv32): (r: seq<Unit>)
    requires c <= 0x10ffff
  {
    if c < 0x10000 then [c]
    else
      var u := c - 0x10000;
      [0xd800 | (u >> 10), 0xdc00 | (u & 0x3ff)]
  }

  // utf8_decode.

  const LENGTHS: seq<nat> := [1, 1, 1, 1, 1, 1, 1, 1, 1, 1, 1, 1, 1, 1, 1, 1,
                              0, 0, 0, 0, 0, 0, 0, 0, 2, 2, 2, 2, 3, 3, 4, 0]
  const MASKS: seq<bv32> := [0x00, 0x7f, 0x1f, 0x0f, 0x07]
  const MINS: seq<bv32> := [4194304, 0, 128, 2048, 65536]
  const SHIFTC: seq<bv6> := [0, 18, 12, 6, 0]
  const SHIFTE: seq<bv6> := [0, 6, 4, 2, 0]

  function Flag(b: bool): bv32 {
    if b then 1 else 0
  }

  /** The bits of all four bytes, as if they were one sequence whose first byte has the given mask. */
  function Wide(mask: bv32, s0: Byte, s1: Byte, s2: Byte, s3: Byte): bv32 {
    ((s0 & mask) << 18) | ((s1 & 0x3f) << 12) | ((s2 & 0x3f) << 6) | (s3 & 0x3f)
  }

  function ErrorBits(c: bv32, min: bv32, s1: Byte, s2: Byte, s3: Byte): bv32 {
    ((Flag(c < min) << 6) | (Flag((c >> 11) == 0x1b) << 7) | (Flag(c > 0x10ffff) << 8)
     | ((s1 & 0xc0) >> 2) | ((s2 & 0xc0) >> 4) | (s3 >> 6)) ^ 0x2a
  }

  function DecodeAs(length: nat, s0: Byte, s1: Byte, s2: Byte, s3: Byte): Decoded
    requires length <= 4
  {
    var c := Wide(MASKS[length], s0, s1, s2, s3) >> SHIFTC[length];
    Decoded(c, ErrorBits(c, MINS[length], s1, s2, s3) >> SHIFTE[length], length)
  }

  /** utf8_decode on the four bytes at hand. */
  function Decode(b: seq<Byte>): Decoded
    requires |b| == 4
  {
    assert (b[0] >> 3) <= 31;
    DecodeAs(LENGTHS[(b[0] >> 3) as nat], b[0], b[1], b[2], b[3])
  }

  /** The length table read as ranges of the first byte. */
  function LengthOf(b: Byte): nat {
    if b < 0x80 then 1
    else if b < 0xc0 then 0
    else if b < 0xe0 then 2
    else if b < 0xf0 then 3
    else if b < 0xf8 then 4
    else 0
  }

  lemma TableIsRanges(b: Byte)
    ensures (b >> 3) <= 31 && LENGTHS[(b >> 3) as nat] == LengthOf(b)
  {
    assert b < 0x80 <==> (b >> 3) < 16;
    assert b < 0xc0 <==> (b >> 3) < 24;
    assert b < 0xe0 <==> (b >> 3) < 28;
    assert b < 0xf0 <==> (b >> 3) < 30;
    assert b < 0xf8 <==> (b >> 3) < 31;
    var i := (b >> 3) as nat;
    assert (b >> 3) < 16 <==> i < 16;
    assert (b >> 3) < 24 <==> i < 24;
    assert (b >> 3) < 28 <==> i < 28;
    assert (b >> 3) < 30 <==> i < 30;
    assert (b >> 3) < 31 <==> i < 31;
  }

  // The error bits, field by field.

  predicate IsTail(s: Byte) {
    s & 0xc0 == 0x80
  }

  predicate Canonical(c: bv32, min: bv32) {
    c >= min && Scalar(c)
  }

  lemma SurrogateBits(c: bv32)
    ensures (c >> 11) == 0x1b <==> 0xd800 <= c <= 0xdfff
  {
  }

  /** The error bits from the three flags and the top two bits of each following byte. */
  function Fields(a: bv32, b: bv32, c: bv32, t1: bv32, t2: bv32, t3: bv32): bv32 {
    ((a << 6) | (b << 7) | (c << 8) | (t1 << 4) | (t2 << 2) | t3) ^ 0x2a
  }

  lemma FlagFields(a: bv32, b: bv32, c: bv32, t1: bv32, t2: bv32, t3: bv32)
    requires a <= 1 && b <= 1 && c <= 1 && t1 <= 3 && t2 <= 3 && t3 <= 3
    ensures var e := Fields(a, b, c, t1, t2, t3);
            && (e >> 6 == 0 <==> a == 0 && b == 0 && c == 0)
            && (e >> 4 == 0 <==> a == 0 && b == 0 && c == 0 && t1 == 2)
            && (e >> 2 == 0 <==> a == 0 && b == 0 && c == 0 && t1 == 2 && t2 == 2)
            && (e >> 0 == 0 <==> a == 0 && b == 0 && c == 0 && t1 == 2 && t2 == 2 && t3 == 2)
  {
  }

  lemma TopBits(s: Byte)
    ensures (s >> 6) <= 3 && ((s & 0xc0) >> 2) == (s >> 6) << 4 && ((s & 0xc0) >> 4) == (s >> 6) << 2
    ensures IsTail(s) <==> (s >> 6) == 2
  {
  }

  lemma ErrorFields(c: bv32, min: bv32, s1: Byte, s2: Byte, s3: Byte)
    ensures ErrorBits(c, min, s1, s2, s3)
            == Fields(Flag(c < min), Flag((c >> 11) == 0x1b), Flag(c > 0x10ffff), s1 >> 6, s2 >> 6, s3 >> 6)
  {
    TopBits(s1);
    TopBits(s2);
  }

  /** Each field of the error bits is zero exactly when its condition holds. */
  ghost predicate FieldsTell(e: bv32, canonical: bool, t1: bool, t2: bool, t3: bool) {
    && (e >> 6 == 0 <==> canonical)
    && (e >> 4 == 0 <==> canonical && t1)
    && (e >> 2 == 0 <==> canonical && t1 && t2)
    && (e >> 0 == 0 <==> canonical && t1 && t2 && t3)
  }

  lemma FlagsTell(a: bool, b: bool, c: bool, t1: bv32, t2: bv32, t3: bv32)
    requires t1 <= 3 && t2 <= 3 && t3 <= 3
    ensures FieldsTell(Fields(Flag(a), Flag(b), Flag(c), t1, t2, t3), !a && !b && !c, t1 == 2, t2 == 2, t3 == 2)
  {
    FlagFields(Flag(a), Flag(b), Flag(c), t1, t2, t3);
  }

  lemma Errors(c: bv32, min: bv32, s1: Byte, s2: Byte, s3: Byte)
    ensures FieldsTell(ErrorBits(c, min, s1, s2, s3), Canonical(c, min), IsTail(s1), IsTail(s2), IsTail(s3))
  {
    TopBits(s1);
    TopBits(s2);
    TopBits(s3);
    SurrogateBits(c);
    ErrorFields(c, min, s1, s2, s3);
    FlagsTell(c < min, (c >> 11) == 0x1b, c > 0x10ffff, s1 >> 6, s2 >> 6, s3 >> 6);
  }

  // The payload bits of a sequence, and the sequence from the bits.

  function Bits2(s0: Byte, s1: Byte): bv32 {
    ((s0 & 0x1f) << 6) | (s1 & 0x3f)
  }

  function Bits3(s0: Byte, s1: Byte, s2: Byte): bv32 {
    ((s0 & 0x0f) << 12) | ((s1 & 0x3f) << 6) | (s2 & 0x3f)
  }

  function Bits4(s0: Byte, s1: Byte, s2: Byte, s3: Byte): bv32 {
    ((s0 & 0x07) << 18) | ((s1 & 0x3f) << 12) | ((s2 & 0x3f) << 6) | (s3 & 0x3f)
  }

  /** Shifting out the bits that a shorter sequence does not have. */
  lemma ShiftedOut(p: bv32, a: bv32, b: bv32, c: bv32)
    requires p <= 0x7f && a <= 0x3f && b <= 0x3f && c <= 0x3f
    ensures ((p << 18) | (a << 12) | (b << 6) | c) >> 18 == p
    ensures ((p << 18) | (a << 12) | (b << 6) | c) >> 12 == (p << 6) | a
    ensures ((p << 18) | (a << 12) | (b << 6) | c) >> 6 == (p << 12) | (a << 6) | b
    ensures ((p << 18) | (a << 12) | (b << 6) | c) >> 0 == (p << 18) | (a << 12) | (b << 6) | c
  {
  }

  lemma MaskedSmall(s: Byte)
    ensures s & 0x3f <= 0x3f && s & 0x7f <= 0x7f && s & 0x1f <= 0x7f && s & 0x0f <= 0x7f && s & 0x07 <= 0x7f
  {
  }

  lemma WideBits(mask: bv32, s0: Byte, s1: Byte, s2: Byte, s3: Byte)
    requires s0 & mask <= 0x7f
    ensures var w := Wide(mask, s0, s1, s2, s3);
            && w >> 18 == s0 & mask
            && w >> 12 == ((s0 & mask) << 6) | (s1 & 0x3f)
            && w >> 6 == ((s0 & mask) << 12) | ((s1 & 0x3f) << 6) | (s2 & 0x3f)
            && w >> 0 == w
  {
    MaskedSmall(s1);
    MaskedSmall(s2);
    MaskedSmall(s3);
    ShiftedOut(s0 & mask, s1 & 0x3f, s2 & 0x3f, s3 & 0x3f);
  }

  lemma Split1(s0: Byte)
    requires s0 < 0x80
    ensures s0 & 0x7f == s0 && Canonical(s0, 0)
  {
  }

  lemma Split2(s0: Byte, s1: Byte)
    requires 0xc0 <= s0 < 0xe0 && IsTail(s1)
    ensures var c := Bits2(s0, s1); c < 0x800 && 0xc0 | (c >> 6) == s0 && Tail(c) == s1
  {
  }

  lemma Split3(s0: Byte, s1: Byte, s2: Byte)
    requires 0xe0 <= s0 < 0xf0 && IsTail(s1) && IsTail(s2)
    ensures var c := Bits3(s0, s1, s2); c < 0x10000 && 0xe0 | (c >> 12) == s0 && Tail(c >> 6) == s1 && Tail(c) == s2
  {
  }

  lemma Split4(s0: Byte, s1: Byte, s2: Byte, s3: Byte)
    requires 0xf0 <= s0 < 0xf8 && IsTail(s1) && IsTail(s2) && IsTail(s3)
    ensures var c := Bits4(s0, s1, s2, s3);
            0xf0 | (c >> 18) == s0 && Tail(c >> 12) == s1 && Tail(c >> 6) == s2 && Tail(c) == s3
  {
  }

  lemma TailIsTail(c: bv32)
    ensures IsTail(Tail(c))
  {
  }

  lemma Join2(c: bv32)
    requires c < 0x800
    ensures var s0 := 0xc0 | (c >> 6); 0xc0 <= s0 < 0xe0 && Bits2(s0, Tail(c)) == c
  {
  }

  lemma Join3(c: bv32)
    requires c < 0x10000
    ensures var s0 := 0xe0 | (c >> 12); 0xe0 <= s0 < 0xf0 && Bits3(s0, Tail(c >> 6), Tail(c)) == c
  {
  }

  lemma Join4(c: bv32)
    requires c <= 0x10ffff
    ensures var s0 := 0xf0 | (c >> 18); 0xf0 <= s0 < 0xf8 && Bits4(s0, Tail(c >> 12), Tail(c >> 6), Tail(c)) == c
  {
  }

  // What utf8_decode computes for each length.

  lemma OnePayload(s0: Byte, s1: Byte, s2: Byte, s3: Byte)
    ensures DecodeAs(1, s0, s1, s2, s3).cp == s0 & 0x7f
  {
    MaskedSmall(s0);
    WideBits(0x7f, s0, s1, s2, s3);
  }

  lemma DecodedOne(s0: Byte, s1: Byte, s2: Byte, s3: Byte)
    ensures var d := DecodeAs(1, s0, s1, s2, s3); d.cp == s0 & 0x7f && (d.error == 0 <==> Canonical(d.cp, 0))
  {
    OnePayload(s0, s1, s2, s3);
    Errors(s0 & 0x7f, 0, s1, s2, s3);
  }

  lemma DecodedTwo(s0: Byte, s1: Byte, s2: Byte, s3: Byte)
    ensures var d := DecodeAs(2, s0, s1, s2, s3);
            d.cp == Bits2(s0, s1) && (d.error == 0 <==> Canonical(d.cp, 128) && IsTail(s1))
  {
    MaskedSmall(s0);
    WideBits(0x1f, s0, s1, s2, s3);
    Errors(Bits2(s0, s1), 128, s1, s2, s3);
  }

  lemma DecodedThree(s0: Byte, s1: Byte, s2: Byte, s3: Byte)
    ensures var d := DecodeAs(3, s0, s1, s2, s3);
            d.cp == Bits3(s0, s1, s2) && (d.error == 0 <==> Canonical(d.cp, 2048) && IsTail(s1) && IsTail(s2))
  {
    MaskedSmall(s0);
    WideBits(0x0f, s0, s1, s2, s3);
    Errors(Bits3(s0, s1, s2), 2048, s1, s2, s3);
  }

  lemma DecodedFour(s0: Byte, s1: Byte, s2: Byte, s3: Byte)
    ensures var d := DecodeAs(4, s0, s1, s2, s3);
            && d.cp == Bits4(s0, s1, s2, s3)
            && (d.error == 0 <==> Canonical(d.cp, 65536) && IsTail(s1) && IsTail(s2) && IsTail(s3))
  {
    MaskedSmall(s0);
    WideBits(0x07, s0, s1, s2, s3);
    Errors(Bits4(s0, s1, s2, s3), 65536, s1, s2, s3);
  }

  /** The table's length zero always ends in an error: the minimum for it is out of reach. */
  lemma NoLength(c: bv32, s1: Byte, s2: Byte, s3: Byte)
    ensures ErrorBits(c, 4194304, s1, s2, s3) >> 0 != 0
  {
    Errors(c, 4194304, s1, s2, s3);
  }

  // Both directions, for each length.

  /** d stands for the encoding u, and the bytes after the first are tails. */
  predicate Encodes(d: Decoded, u: seq<Byte>) {
    Scalar(d.cp) && Utf8(d.cp) == u && forall i :: 0 < i < |u| ==> IsTail(u[i])
  }

  lemma AcceptedOne(s0: Byte, s1: Byte, s2: Byte, s3: Byte)
    requires s0 < 0x80
    ensures var d := DecodeAs(1, s0, s1, s2, s3); d.error == 0 && Encodes(d, [s0])
  {
    DecodedOne(s0, s1, s2, s3);
    Split1(s0);
  }

  lemma AcceptedTwo(s0: Byte, s1: Byte, s2: Byte, s3: Byte)
    requires 0xc0 <= s0 < 0xe0
    ensures var d := DecodeAs(2, s0, s1, s2, s3); d.error == 0 ==> Encodes(d, [s0, s1])
  {
    DecodedTwo(s0, s1, s2, s3);
    if IsTail(s1) {
      Split2(s0, s1);
    }
  }

  lemma AcceptedThree(s0: Byte, s1: Byte, s2: Byte, s3: Byte)
    requires 0xe0 <= s0 < 0xf0
    ensures var d := DecodeAs(3, s0, s1, s2, s3); d.error == 0 ==> Encodes(d, [s0, s1, s2])
  {
    DecodedThree(s0, s1, s2, s3);
    if IsTail(s1) && IsTail(s2) {
      Split3(s0, s1, s2);
    }
  }

  lemma AcceptedFour(s0: Byte, s1: Byte, s2: Byte, s3: Byte)
    requires 0xf0 <= s0 < 0xf8
    ensures var d := DecodeAs(4, s0, s1, s2, s3); d.error == 0 ==> Encodes(d, [s0, s1, s2, s3])
  {
    DecodedFour(s0, s1, s2, s3);
    EncodesFour(DecodeAs(4, s0, s1, s2, s3), s0, s1, s2, s3);
  }

  lemma EncodesFour(d: Decoded, s0: Byte, s1: Byte, s2: Byte, s3: Byte)
    requires 0xf0 <= s0 < 0xf8 && d.cp == Bits4(s0, s1, s2, s3)
    requires d.error == 0 ==> Canonical(d.cp, 65536) && IsTail(s1) && IsTail(s2) && IsTail(s3)
    ensures d.error == 0 ==> Encodes(d, [s0, s1, s2, s3])
  {
    if d.error == 0 {
      Split4(s0, s1, s2, s3);
      FourBytes(d.cp, s0, s1, s2, s3);
    }
  }

  lemma FourBytes(c: bv32, s0: Byte, s1: Byte, s2: Byte, s3: Byte)
    requires Canonical(c, 65536)
    requires 0xf0 | (c >> 18) == s0 && Tail(c >> 12) == s1 && Tail(c >> 6) == s2 && Tail(c) == s3
    ensures Utf8(c) == [s0, s1, s2, s3]
  {
  }

  lemma AcceptedAs(d: Decoded, n: nat, s0: Byte, s1: Byte, s2: Byte, s3: Byte, u: seq<Byte>)
    requires n == LengthOf(s0) && d == DecodeAs(n, s0, s1, s2, s3) && d.error == 0
    requires |u| == n && (forall i :: 0 <= i < n ==> u[i] == [s0, s1, s2, s3][i])
    ensures n > 0 && Encodes(d, u)
  {
    if n == 0 {
      NoLength(Wide(0, s0, s1, s2, s3), s1, s2, s3);
    } else if n == 1 {
      AcceptedOne(s0, s1, s2, s3);
      assert u == [s0];
    } else if n == 2 {
      AcceptedTwo(s0, s1, s2, s3);
      assert u == [s0, s1];
    } else if n == 3 {
      AcceptedThree(s0, s1, s2, s3);
      assert u == [s0, s1, s2];
    } else {
      AcceptedFour(s0, s1, s2, s3);
      assert u == [s0, s1, s2, s3];
    }
  }

  lemma DecodeIs(b: seq<Byte>)
    requires |b| == 4
    ensures Decode(b) == DecodeAs(LengthOf(b[0]), b[0], b[1], b[2], b[3]) && Decode(b).length == LengthOf(b[0])
  {
    TableIsRanges(b[0]);
  }

  /** No error means the bytes begin with the encoding of the scalar value returned. */
  lemma AcceptedIsEncoded(b: seq<Byte>)
    requires |b| == 4 && Decode(b).error == 0
    ensures 1 <= Decode(b).length <= 4 && Encodes(Decode(b), b[..Decode(b).length])
  {
    DecodeIs(b);
    AcceptedAs(Decode(b), LengthOf(b[0]), b[0], b[1], b[2], b[3], b[..LengthOf(b[0])]);
  }

  lemma EncodedTwo(c: bv32, s0: Byte, s1: Byte, s2: Byte, s3: Byte)
    requires 0x80 <= c < 0x800 && Utf8(c) == [s0, s1]
    ensures LengthOf(s0) == 2 && DecodeAs(2, s0, s1, s2, s3) == Decoded(c, 0, 2)
  {
    assert [s0, s1][0] == s0 && [s0, s1][1] == s1;
    DecodedTwo(s0, s1, s2, s3);
    TailIsTail(c);
    Join2(c);
  }

  lemma EncodedThree(c: bv32, s0: Byte, s1: Byte, s2: Byte, s3: Byte)
    requires 0x800 <= c < 0x10000 && Scalar(c) && Utf8(c) == [s0, s1, s2]
    ensures LengthOf(s0) == 3 && DecodeAs(3, s0, s1, s2, s3) == Decoded(c, 0, 3)
  {
    assert [s0, s1, s2][0] == s0 && [s0, s1, s2][1] == s1 && [s0, s1, s2][2] == s2;
    DecodedThree(s0, s1, s2, s3);
    TailIsTail(c);
    TailIsTail(c >> 6);
    Join3(c);
  }

  lemma EncodedFour(c: bv32, s0: Byte, s1: Byte, s2: Byte, s3: Byte)
    requires 0x10000 <= c <= 0x10ffff && Utf8(c) == [s0, s1, s2, s3]
    ensures LengthOf(s0) == 4 && DecodeAs(4, s0, s1, s2, s3) == Decoded(c, 0, 4)
  {
    var u := [s0, s1, s2, s3];
    assert u[0] == s0 && u[1] == s1 && u[2] == s2 && u[3] == s3;
    DecodedFour(s0, s1, s2, s3);
    TailIsTail(c);
    TailIsTail(c >> 6);
    TailIsTail(c >> 12);
    Join4(c);
  }

  /** The encoding of every scalar value is accepted and gives it back, whatever follows. */
  lemma EncodedIsAccepted(c: bv32, b: seq<Byte>)
    requires Scalar(c) && |b| == 4 && Utf8(c) == b[..|Utf8(c)|]
    ensures Decode(b) == Decoded(c, 0, |Utf8(c)|)
  {
    TableIsRanges(b[0]);
    if c < 0x80 {
      assert b[..1][0] == c;
      AcceptedOne(b[0], b[1], b[2], b[3]);
      DecodedOne(b[0], b[1], b[2], b[3]);
      Split1(c);
    } else if c < 0x800 {
      assert b[..2] == [b[0], b[1]];
      EncodedTwo(c, b[0], b[1], b[2], b[3]);
    } else if c < 0x10000 {
      assert b[..3] == [b[0], b[1], b[2]];
      EncodedThree(c, b[0], b[1], b[2], b[3]);
    } else {
      assert b[..4] == [b[0], b[1], b[2], b[3]];
      EncodedFour(c, b[0], b[1], b[2], b[3]);
    }
  }
}
