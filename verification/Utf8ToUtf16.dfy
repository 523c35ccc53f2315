/** utf8_to_utf16: whole strings, read in blocks of four bytes with a zero-padded tail. */
module Utf8ToUtf16 {
  import opened Transcoding

  predicate AllScalar(cs: seq<bv32>) {
    forall i :: 0 <= i < |cs| ==> Scalar(cs[i])
  }

  function Utf8All(cs: seq<bv32>): seq<Byte>
    requires AllScalar(cs)
  {
    if cs == [] then [] else Utf8(cs[0]) + Utf8All(cs[1..])
  }

  function Utf16All(cs: seq<bv32>): seq<Unit>
    requires AllScalar(cs)
  {
    if cs == [] then [] else Utf16(cs[0]) + Utf16All(cs[1..])
  }

  predicate EncodedBy(s: seq<Byte>, cs: seq<bv32>) {
    AllScalar(cs) && s == Utf8All(cs)
  }

  ghost predicate WellFormed(s: seq<Byte>) {
    exists cs :: EncodedBy(s, cs)
  }

  lemma {:induction false} Utf8Snoc(cs: seq<bv32>, c: bv32)
    requires AllScalar(cs) && Scalar(c) && AllScalar(cs + [c])
    ensures Utf8All(cs + [c]) == Utf8All(cs) + Utf8(c)
  {
    if cs == [] {
      assert [c][1..] == [] && cs + [c] == [c];
    } else {
      Utf8Snoc(cs[1..], c);
      assert (cs + [c])[1..] == cs[1..] + [c];
    }
  }

  lemma {:induction false} Utf16Snoc(cs: seq<bv32>, c: bv32)
    requires AllScalar(cs) && Scalar(c) && AllScalar(cs + [c])
    ensures Utf16All(cs + [c]) == Utf16All(cs) + Utf16(c)
  {
    if cs == [] {
      assert [c][1..] == [] && cs + [c] == [c];
    } else {
      Utf16Snoc(cs[1..], c);
      assert (cs + [c])[1..] == cs[1..] + [c];
      Associate(Utf16(cs[0]), Utf16All(cs[1..]), Utf16(c));
    }
  }

  lemma Associate(x: seq<Unit>, y: seq<Unit>, z: seq<Unit>)
    ensures x + (y + z) == (x + y) + z
  {
  }

  lemma Snoc(cs: seq<bv32>, c: bv32)
    requires AllScalar(cs) && Scalar(c)
    ensures AllScalar(cs + [c])
    ensures Utf8All(cs + [c]) == Utf8All(cs) + Utf8(c) && Utf16All(cs + [c]) == Utf16All(cs) + Utf16(c)
  {
    Utf8Snoc(cs, c);
    Utf16Snoc(cs, c);
  }

  /** The four bytes the decoder sees: what is left of the string, then zeros. */
  function Block(rest: seq<Byte>): (b: seq<Byte>)
    ensures |b| == 4
    ensures forall i :: 0 <= i < 4 ==> b[i] == if i < |rest| then rest[i] else 0
  {
    if |rest| >= 4 then rest[..4] else rest + seq(4 - |rest|, _ => 0)
  }

  lemma ZeroIsNoTail()
    ensures !IsTail(0)
  {
  }

  /** A padding zero is never taken for part of a sequence. */
  lemma AcceptedFits(rest: seq<Byte>)
    requires rest != [] && Decode(Block(rest)).error == 0
    ensures var d := Decode(Block(rest)); 1 <= d.length <= |rest| && Scalar(d.cp) && Utf8(d.cp) == rest[..d.length]
  {
    var b := Block(rest);
    AcceptedIsEncoded(b);
    var d := Decode(b);
    forall i | 0 < i < d.length ensures b[i] != 0 {
      ZeroIsNoTail();
      assert IsTail(b[..d.length][i]);
    }
    assert |rest| < 4 ==> b[|rest|] == 0;
    assert b[..d.length] == rest[..d.length];
  }

  predicate StartsWith(s: seq<Byte>, u: seq<Byte>) {
    |u| <= |s| && s[..|u|] == u
  }

  lemma StartsAccepted(c: bv32, rest: seq<Byte>)
    requires Scalar(c) && StartsWith(rest, Utf8(c))
    ensures Decode(Block(rest)) == Decoded(c, 0, |Utf8(c)|)
  {
    var n := |Utf8(c)|;
    assert Block(rest)[..n] == rest[..n];
    EncodedIsAccepted(c, Block(rest));
  }

  lemma StartsLonger(s: seq<Byte>, p: nat, u: seq<Byte>)
    requires p <= |s| && StartsWith(s[..p], u)
    ensures StartsWith(s, u) && |u| <= p
  {
    assert s[..p][..|u|] == s[..|u|];
  }

  lemma SameFirst(c: bv32, d: bv32, s: seq<Byte>)
    requires Scalar(c) && Scalar(d) && StartsWith(s, Utf8(c)) && StartsWith(s, Utf8(d))
    ensures c == d
  {
    StartsAccepted(c, s);
    StartsAccepted(d, s);
  }

  /** The first code point and the rest. */
  lemma Peel(s: seq<Byte>, cs: seq<bv32>)
    requires EncodedBy(s, cs)
    ensures cs == [] <==> s == []
    ensures cs != [] ==> var u := Utf8(cs[0]); StartsWith(s, u) && EncodedBy(s[|u|..], cs[1..])
  {
    if cs != [] {
      var u := Utf8(cs[0]);
      assert s == u + Utf8All(cs[1..]);
      assert s[|u|..] == Utf8All(cs[1..]);
      assert s[..|u|] == u;
    }
  }

  /** UTF-8 is a prefix code: two readings of a string agree as far as the shorter one goes. */
  lemma {:induction false} Follows(s: seq<Byte>, p: nat, cs: seq<bv32>, ds: seq<bv32>)
    requires p <= |s| && EncodedBy(s[..p], cs) && EncodedBy(s, ds)
    ensures |cs| <= |ds| && cs == ds[..|cs|] && EncodedBy(s[p..], ds[|cs|..])
    decreases |s|, 1
  {
    Peel(s[..p], cs);
    Peel(s, ds);
    if cs != [] {
      StartsLonger(s, p, Utf8(cs[0]));
      SameFirst(cs[0], ds[0], s);
      FollowsRest(s, p, |Utf8(cs[0])|, cs, ds);
    } else {
      assert s[0..] == s && ds[0..] == ds;
    }
  }

  lemma {:induction false} FollowsRest(s: seq<Byte>, p: nat, n: nat, cs: seq<bv32>, ds: seq<bv32>)
    requires 0 < n <= p <= |s| && cs != [] && ds != [] && cs[0] == ds[0]
    requires EncodedBy(s[..p][n..], cs[1..]) && EncodedBy(s[n..], ds[1..])
    ensures |cs| <= |ds| && cs == ds[..|cs|] && EncodedBy(s[p..], ds[|cs|..])
    decreases |s|, 0
  {
    var rest := s[n..];
    assert rest[..p - n] == s[..p][n..];
    Follows(rest, p - n, cs[1..], ds[1..]);
    assert rest[p - n..] == s[p..] && ds[1..][|cs| - 1..] == ds[|cs|..];
    assert cs == [cs[0]] + cs[1..] && ds[..|cs|] == [ds[0]] + ds[1..][..|cs| - 1];
  }

  /** An error anywhere means the whole string is not well formed. */
  lemma ErrorMeansIllFormed(s: seq<Byte>, p: nat, cs: seq<bv32>)
    requires p < |s| && EncodedBy(s[..p], cs) && Decode(Block(s[p..])).error != 0
    ensures !WellFormed(s)
  {
    forall ds ensures !EncodedBy(s, ds) {
      if EncodedBy(s, ds) {
        Follows(s, p, cs, ds);
        var rest := ds[|cs|..];
        assert rest != [];
        StartsAccepted(rest[0], s[p..]);
      }
    }
  }

  datatype Transcoded = Text(units: seq<Unit>) | InvalidUtf8

  lemma Surrogates(u: bv32)
    requires u <= 0xfffff
    ensures 0xd800 + (u >> 10) == 0xd800 | (u >> 10) && 0xdc00 + (u & 0x3ff) == 0xdc00 | (u & 0x3ff)
    ensures 0xd800 + (u >> 10) <= 0xffff && 0xdc00 + (u & 0x3ff) <= 0xffff
  {
  }

  lemma TwoUnits(c: bv32, high: Unit, low: Unit)
    requires 0x10000 <= c <= 0x10ffff
    requires high == 0xd800 + ((c - 0x10000) >> 10) && low == 0xdc00 + ((c - 0x10000) & 0x3ff)
    ensures Utf16(c) == [high, low]
  {
    Surrogates(c - 0x10000);
  }

  lemma Offset(c: bv32)
    requires 0x10000 <= c <= 0x10ffff
    ensures c - 0x10000 <= 0xfffff
  {
  }

  function High(cp: bv32): Unit
    requires 0x10000 <= cp <= 0x10ffff
  {
    Offset(cp);
    Surrogates(cp - 0x10000);
    0xd800 + ((cp - 0x10000) >> 10)
  }

  function Low(cp: bv32): Unit
    requires 0x10000 <= cp <= 0x10ffff
  {
    Offset(cp);
    Surrogates(cp - 0x10000);
    0xdc00 + ((cp - 0x10000) & 0x3ff)
  }

  /** The units pushed for one code point. */
  method PushCodePoint(buffer: seq<Unit>, cp: bv32) returns (r: seq<Unit>)
    requires cp <= 0x10ffff
    ensures r == buffer + Utf16(cp)
  {
    if cp <= 0xffff {
      r := buffer + [cp];
    } else {
      var high, low := High(cp), Low(cp);
      TwoUnits(cp, high, low);
      r := buffer + [high];
      r := r + [low];
    }
  }

  /** What holds between code points: the bytes up to p are read and their units are in the buffer. */
  ghost predicate Done(s: seq<Byte>, p: nat, buffer: seq<Unit>, cs: seq<bv32>) {
    p <= |s| && EncodedBy(s[..p], cs) && buffer == Utf16All(cs)
  }

  lemma DoneNext(s: seq<Byte>, p: nat, buffer: seq<Unit>, cs: seq<bv32>)
    requires p < |s| && Done(s, p, buffer, cs) && Decode(Block(s[p..])).error == 0
    ensures var d := Decode(Block(s[p..]));
            d.length > 0 && Scalar(d.cp) && Done(s, p + d.length, buffer + Utf16(d.cp), cs + [d.cp])
  {
    AcceptedFits(s[p..]);
    var d := Decode(Block(s[p..]));
    Snoc(cs, d.cp);
    assert s[..p + d.length] == s[..p] + s[p..][..d.length];
  }

  /** The first loop: whole blocks of four bytes, while there are any. */
  method TranscodeBlocks(s: seq<Byte>) returns (ok: bool, p: nat, buffer: seq<Unit>, ghost cs: seq<bv32>)
    ensures ok ==> Done(s, p, buffer, cs) && |s| - p <= 3
    ensures !ok ==> !WellFormed(s)
  {
    buffer, p, cs := [], 0, [];
    assert s[..0] == [];
    while p + 3 < |s|
      invariant Done(s, p, buffer, cs)
      decreases |s| - p
    {
      var d := Decode(s[p..p + 4]);
      assert s[p..p + 4] == Block(s[p..]);
      if d.error != 0 {
        ErrorMeansIllFormed(s, p, cs);
        return false, p, buffer, cs;
      }
      DoneNext(s, p, buffer, cs);
      buffer := PushCodePoint(buffer, d.cp);
      p, cs := p + d.length, cs + [d.cp];
    }
    ok := true;
  }

  /** The seven-byte buffer of the tail. */
  function Padded(rest: seq<Byte>): (b: seq<Byte>)
    requires |rest| <= 3
    ensures |b| == 7
    ensures forall i :: 0 <= i < 7 ==> b[i] == if i < |rest| then rest[i] else 0
  {
    rest + seq(7 - |rest|, _ => 0)
  }

  lemma PaddedBlock(s: seq<Byte>, p: nat, q: nat, buf: seq<Byte>)
    requires p <= |s| <= p + 3 && q < |s| - p && buf == Padded(s[p..])
    ensures buf[q..q + 4] == Block(s[p + q..])
  {
  }

  /** The second loop: what is left, copied in front of zeros. */
  method TranscodeTail(s: seq<Byte>, p: nat, units: seq<Unit>, ghost read: seq<bv32>)
    returns (ok: bool, buffer: seq<Unit>, ghost cs: seq<bv32>)
    requires Done(s, p, units, read) && 0 < |s| - p <= 3
    ensures ok ==> Done(s, |s|, buffer, cs)
    ensures !ok ==> !WellFormed(s)
  {
    var left := |s| - p;
    var buf := Padded(s[p..]);
    var q := 0;
    buffer, cs := units, read;
    ghost var at := p;
    while q < left
      invariant at == p + q && Done(s, at, buffer, cs)
      decreases left - q
    {
      var d := Decode(buf[q..q + 4]);
      PaddedBlock(s, p, q, buf);
      if d.error != 0 {
        ErrorMeansIllFormed(s, at, cs);
        return false, buffer, cs;
      }
      DoneNext(s, at, buffer, cs);
      buffer := PushCodePoint(buffer, d.cp);
      q, at, cs := q + d.length, at + d.length, cs + [d.cp];
    }
    ok := true;
  }

  /**
   The string constructor: fails exactly on ill-formed UTF-8, and otherwise gives the UTF-16 encoding of the same
   code points with a terminating zero.
   */
  method Transcode(s: seq<Byte>) returns (r: Transcoded)
    ensures r.InvalidUtf8? <==> !WellFormed(s)
    ensures r.Text? ==> exists cs :: EncodedBy(s, cs) && r.units == Utf16All(cs) + [0]
  {
    var ok, p, buffer, cs := TranscodeBlocks(s);
    if ok && p < |s| {
      ok, buffer, cs := TranscodeTail(s, p, buffer, cs);
    }
    if !ok {
      return InvalidUtf8;
    }
    assert s[..|s|] == s;
    assert EncodedBy(s, cs);
    return Text(buffer + [0]);
  }

  /** The code points of a string are unique, so the result is too. */
  lemma OneReading(s: seq<Byte>, cs: seq<bv32>, ds: seq<bv32>)
    requires EncodedBy(s, cs) && EncodedBy(s, ds)
    ensures cs == ds
  {
    assert s[..|s|] == s;
    Follows(s, |s|, cs, ds);
    Follows(s, |s|, ds, cs);
  }

  // Reading the units back: section 2.2 of RFC 2781.

  predicate HighSurrogate(w: Unit) {
    0xd800 <= w <= 0xdbff
  }

  predicate LowSurrogate(w: Unit) {
    0xdc00 <= w <= 0xdfff
  }

  /** Ten bits from each of a pair of surrogates. */
  function FromPair(high: bv32, low: bv32): bv32 {
    0x10000 + ((high & 0x3ff) * 0x400 + (low & 0x3ff))
  }

  predicate StartsPair(units: seq<Unit>) {
    |units| > 1 && HighSurrogate(units[0]) && LowSurrogate(units[1])
  }

  /** A pair of surrogates is one code point, and any other unit stands for itself. */
  function Read16(units: seq<Unit>): seq<bv32> {
    if units == [] then []
    else if StartsPair(units) then [FromPair(units[0], units[1])] + Read16(units[2..])
    else [units[0]] + Read16(units[1..])
  }

  lemma PairBits(c: bv32, u: bv32)
    requires 0x10000 <= c <= 0x10ffff && u == c - 0x10000
    ensures FromPair(0xd800 | (u >> 10), 0xdc00 | (u & 0x3ff)) == c
    ensures 0xd800 <= 0xd800 | (u >> 10) <= 0xdbff && 0xdc00 <= 0xdc00 | (u & 0x3ff) <= 0xdfff
  {
  }

  lemma PairReads(c: bv32)
    requires 0x10000 <= c <= 0x10ffff
    ensures |Utf16(c)| == 2 && StartsPair(Utf16(c)) && FromPair(Utf16(c)[0], Utf16(c)[1]) == c
  {
    PairBits(c, c - 0x10000);
  }

  lemma PairFirst(high: Unit, low: Unit, rest: seq<Unit>)
    requires HighSurrogate(high) && LowSurrogate(low)
    ensures Read16([high, low] + rest) == [FromPair(high, low)] + Read16(rest)
  {
    var units := [high, low] + rest;
    assert units[0] == high && units[1] == low && units[2..] == rest;
  }

  lemma UnitFirst(unit: Unit, rest: seq<Unit>)
    requires !HighSurrogate(unit)
    ensures Read16([unit] + rest) == [unit] + Read16(rest)
  {
    assert ([unit] + rest)[1..] == rest;
  }

  /** A code point is one unit that is no surrogate, or a high and a low surrogate. */
  lemma UnitsRead(c: bv32, rest: seq<Unit>)
    requires Scalar(c)
    ensures Read16(Utf16(c) + rest) == [c] + Read16(rest)
  {
    if c < 0x10000 {
      UnitFirst(c, rest);
    } else {
      PairReads(c);
      assert Utf16(c) == [Utf16(c)[0], Utf16(c)[1]];
      PairFirst(Utf16(c)[0], Utf16(c)[1], rest);
    }
  }

  /** The units made for any code points read back as those code points. */
  lemma {:induction false} UnitsReadBack(cs: seq<bv32>)
    requires AllScalar(cs)
    ensures Read16(Utf16All(cs)) == cs
  {
    if cs != [] {
      UnitsRead(cs[0], Utf16All(cs[1..]));
      UnitsReadBack(cs[1..]);
    }
  }
}
