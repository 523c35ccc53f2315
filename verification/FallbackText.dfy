/** The text fallback_format leaves, read as a decimal with the exponent it returns. */
module FallbackText {
  import DecimalText
  import opened Powers
  import opened DigitLoop
  import opened Fallback
  import opened FallbackTheorems

  /**
   x * 10^p lies in the rounding interval of f * 2^e, all multiplied out to whole numbers: down by half the last place
   of f, or by a quarter of it when the predecessor is closer, and up by half of it.
   */
  ghost predicate RoundsTo(x: nat, p: int, f: nat, e: int, closer: bool, closed: bool) {
    Between(x * TextUnit(p, e - Shift(closer)), f * Pow(2, Shift(closer)), if closer then 2 else 1,
            ValueUnit(p, e - Shift(closer)), closed)
  }

  /** v lies from one unit below the significand to up units above it. */
  ghost predicate Between(v: int, significand: int, up: int, unit: int, closed: bool) {
    var lo, hi := (significand - 1) * unit, (significand + up) * unit;
    if closed then lo <= v <= hi else lo < v < hi
  }

  /** What a unit of x and a unit of the significand are multiplied out to. */
  function TextUnit(p: int, q: int): nat {
    Pow(10, Positive(p)) * Pow(2, Positive(-q))
  }

  function ValueUnit(p: int, q: int): nat {
    Pow(10, Positive(-p)) * Pow(2, Positive(q))
  }

  /**
   The text fallback_format leaves reads back to the value, a decimal in the rounding interval of f * 2^e with the
   exponent returned, exactly when the set-up does not double it.
   */
  lemma TextReadsBackIff(f: nat, e: int, closer: bool, exp10: int, buf: seq<char>, newExp10: int)
    requires f > 0 && (e >= 0 ==> exp10 >= 0)
    requires Shows(buf, Digits(f, e, closer, exp10)) && newExp10 == exp10 - (|buf| - 1)
    ensures DecimalText.Number(buf) >= 0
    ensures RoundsTo(DecimalText.Number(buf), newExp10, f, e, closer, f % 2 == 0) <==> !(e >= 0 && closer)
  {
    ShownIsDecimal(buf, Digits(f, e, closer, exp10));
    if e >= 0 && closer {
      SetupDoubles(f, e, exp10);
      ReadsBackAs(f, e, closer, exp10, e + 1);
      NotTwice(DecimalText.Number(buf), newExp10, f, e, f % 2 == 0);
    } else {
      SetupRepresents(f, e, closer, exp10);
      ReadsBackAs(f, e, closer, exp10, e);
    }
  }

  /** The characters are digits exactly when the number set up fits, which it does unless it was doubled. */
  lemma TextIsDigitsIff(f: nat, e: int, closer: bool, exp10: int, buf: seq<char>)
    requires f > 0 && (e >= 0 ==> exp10 >= 0) && Shows(buf, Digits(f, e, closer, exp10))
    ensures var s := Setup(f, e, closer, exp10);
            DecimalText.AllDigits(buf) <==> Fits(s.n, s.d, s.l, s.u, f % 2 == 0, MissesTie(e, exp10))
    ensures Estimated(f, e, closer, exp10) && !(e >= 0 && closer) ==> DecimalText.AllDigits(buf)
  {
    var s, ds := Setup(f, e, closer, exp10), Digits(f, e, closer, exp10);
    DigitsFitIff(s.n, s.d, s.l, s.u, f % 2 == 0, MissesTie(e, exp10));
    assert (forall i :: 0 <= i < |ds| ==> ds[i] <= 9) <==> DecimalText.AllDigits(buf) by {
      assert forall i :: 0 <= i < |ds| ==> (ds[i] <= 9 <==> '0' <= buf[i] <= '9');
    }
  }

  /** 2^81: the text printed is not in its rounding interval, but in that of 2^82. */
  lemma DoubledExample(f: nat, e: int, exp10: int, buf: seq<char>, newExp10: int)
    requires f == 0x10_0000_0000_0000 && e == 29 && exp10 == 24
    requires Shows(buf, Digits(f, e, true, exp10)) && newExp10 == exp10 - (|buf| - 1)
    ensures Estimated(f, e, true, exp10) && DecimalText.AllDigits(buf) && DecimalText.Number(buf) >= 0
    ensures !RoundsTo(DecimalText.Number(buf), newExp10, f, e, true, f % 2 == 0)
    ensures RoundsTo(DecimalText.Number(buf), newExp10, f, e + 1, true, f % 2 == 0)
  {
    DoubledSetup(f, e, exp10);
    TextIsDigitsIff(f, e, true, exp10, buf);
    TextReadsBackIff(f, e, true, exp10, buf, newExp10);
    ShownIsDecimal(buf, Digits(f, e, true, exp10));
    SetupDoubles(f, e, exp10);
    ReadsBackAs(f, e, true, exp10, e + 1);
  }

  lemma DoubledSetup(f: nat, e: int, exp10: int)
    requires f == 0x10_0000_0000_0000 && e == 29 && exp10 == 24
    ensures Setup(f, e, true, exp10)
            == Scaled(9671406556917033397649408, 2000000000000000000000000, 536870912, 1073741824)
  {
    PowAdd(2, 10, 10);
    PowAdd(2, 20, 9);
    PowAdd(10, 6, 6);
    PowAdd(10, 12, 12);
    assert Pow(2, 10) == 1024 && Pow(2, 9) == 512 && Pow(2, 2) == 4;
    assert Pow(10, 6) == 1000000;
  }

  /** 2^807: the first character printed is no digit. */
  lemma NoDigitExample(f: nat, e: int, exp10: int, buf: seq<char>)
    requires f == 0x10_0000_0000_0000 && e == 755 && exp10 == 242 && Shows(buf, Digits(f, e, true, exp10))
    ensures Estimated(f, e, true, exp10) && !DecimalText.AllDigits(buf)
  {
    FivesBelow();
    FivesAbove();
    NoDigitBetween(f, 242, 510, buf);
  }

  /** 2^(k+n+57) in units of 10^k: from 20 up, and below 40 with its gap. */
  lemma NoDigitBetween(f: nat, k: nat, n: nat, buf: seq<char>)
    requires f == 0x10_0000_0000_0000 && Shows(buf, Digits(f, k + n + 3, true, k))
    requires Pow(5, k + 1) <= Pow(2, n) * 0x80_0000_0000_0000
    requires Pow(2, n) * 0x40_0000_0000_0002 < Pow(5, k + 1)
    ensures Estimated(f, k + n + 3, true, k) && !DecimalText.AllDigits(buf)
  {
    var p, t := Pow(2, k + n + 3), Pow(10, k);
    assert Pow(2, 2) == 4;
    TwiceTooLarge(k, n, p, t);
    TextIsDigitsIff(f, k + n + 3, true, k, buf);
  }

  lemma TwiceTooLarge(k: nat, n: nat, p: nat, t: nat)
    requires p == Pow(2, k + n + 3) && t == Pow(10, k)
    requires Pow(5, k + 1) <= Pow(2, n) * 0x80_0000_0000_0000
    requires Pow(2, n) * 0x40_0000_0000_0002 < Pow(5, k + 1)
    ensures 20 * t <= p * 0x40_0000_0000_0000
    ensures p * 0x40_0000_0000_0000 + 2 * p < 40 * t
  {
    PowProduct(2, 5, k);
    PowAdd(2, k, n + 3);
    assert k + n + 3 == k + (n + 3);
    assert Pow(2, n + 3) == 8 * Pow(2, n) by {
      assert Pow(2, n + 3) == 2 * Pow(2, n + 2) == 4 * Pow(2, n + 1);
    }
    InUnits(Pow(2, k), Pow(5, k), Pow(2, n), Pow(2, n + 3), p, t);
  }

  lemma InUnits(v: nat, w: nat, x: nat, y: nat, p: nat, t: nat)
    requires v > 0 && t == v * w && p == v * y && y == 8 * x
    requires 5 * w <= x * 0x80_0000_0000_0000 && x * 0x40_0000_0000_0002 < 5 * w
    ensures 20 * t <= p * 0x40_0000_0000_0000
    ensures p * 0x40_0000_0000_0000 + 2 * p < 40 * t
  {
    MulMonotone(5 * w, x * 0x80_0000_0000_0000, v);
    MulStrict(x * 0x40_0000_0000_0002, 5 * w, v);
    MulAssoc(5, w, v);
    MulAssoc(0x80_0000_0000_0000, x, v);
    MulAssoc(0x40_0000_0000_0002, x, v);
    MulSwap(v, 8, x);
  }

  lemma AtMost(a: nat, b: nat, c: nat, d: nat)
    requires Pow(5, a) <= Pow(2, b) && Pow(5, c) <= Pow(2, d)
    ensures Pow(5, a + c) <= Pow(2, b + d)
  {
    PowAdd(5, a, c);
    PowAdd(2, b, d);
    MulMonotone(Pow(5, a), Pow(2, b), Pow(5, c));
    MulMonotone(Pow(5, c), Pow(2, d), Pow(2, b));
  }

  lemma AtLeast(a: nat, b: nat, c: nat, d: nat)
    requires Pow(2, b) <= Pow(5, a) && Pow(2, d) <= Pow(5, c)
    ensures Pow(2, b + d) <= Pow(5, a + c)
  {
    PowAdd(5, a, c);
    PowAdd(2, b, d);
    MulMonotone(Pow(2, b), Pow(5, a), Pow(2, d));
    MulMonotone(Pow(2, d), Pow(5, c), Pow(5, a));
  }

  lemma FivePowers()
    ensures Pow(5, 7) == 78125 && Pow(5, 19) == 19073486328125 && Pow(5, 28) == 37252902984619140625
    ensures Pow(5, 59) == 173472347597680709441192448139190673828125
  {
    assert Pow(5, 3) == 125 && Pow(5, 5) == 3125;
    assert Pow(5, 7) == 78125;
    PowAdd(5, 7, 7);
    PowAdd(5, 14, 5);
    PowAdd(5, 14, 14);
    PowAdd(5, 28, 28);
    PowAdd(5, 56, 3);
  }

  lemma TwoPowers()
    ensures Pow(2, 10) == 1024 && Pow(2, 17) == 131072 && Pow(2, 55) == 0x80_0000_0000_0000
    ensures Pow(2, 65) == 36893488147419103232 && Pow(2, 137) == 174224571863520493293247799005065324265472
  {
    assert Pow(2, 8) == 256 && Pow(2, 7) == 128 && Pow(2, 10) == 1024;
    PowAdd(2, 7, 10);
    PowAdd(2, 8, 8);
    PowAdd(2, 16, 16);
    PowAdd(2, 32, 16);
    PowAdd(2, 48, 7);
    PowAdd(2, 55, 10);
    PowAdd(2, 65, 65);
    PowAdd(2, 130, 7);
  }

  /** 5^243 is at most 2^565. */
  lemma FivesBelow()
    ensures Pow(5, 243) <= Pow(2, 510) * 0x80_0000_0000_0000
  {
    FivePowers();
    TwoPowers();
    AtMost(59, 137, 59, 137);
    AtMost(118, 274, 118, 274);
    AtMost(236, 548, 7, 17);
    PowAdd(2, 510, 55);
  }

  /** And above 2^564, by more than the gap. */
  lemma FivesAbove()
    ensures Pow(2, 510) * 0x40_0000_0000_0002 < Pow(5, 243)
  {
    FivePowers();
    TwoPowers();
    AtLeast(28, 65, 28, 65);
    AtLeast(56, 130, 56, 130);
    AtLeast(112, 260, 112, 260);
    PowAdd(5, 224, 19);
    PowAdd(2, 510, 10);
    MulMonotone(Pow(2, 520), Pow(5, 224), Pow(5, 19));
  }

  /** What is printed reads back to whatever number f * 2^e2 the set-up stands for. */
  lemma ReadsBackAs(f: nat, e: int, closer: bool, exp10: int, e2: int)
    requires f > 0 && (e >= 0 ==> exp10 >= 0) && Represents(Setup(f, e, closer, exp10), f, e2, closer, exp10)
    ensures var ds := Digits(f, e, closer, exp10);
            RoundsTo(Decimal(ds), exp10 - (|ds| - 1), f, e2, closer, f % 2 == 0)
  {
    var s, ds := Setup(f, e, closer, exp10), Digits(f, e, closer, exp10);
    var k := |ds| - 1;
    var p, q := exp10 - k, e2 - Shift(closer);
    PrintedReadsBack(f, e, closer, exp10);
    SignificandAtLeast(f, closer);
    UnitIs(s, f, e2, closer, exp10, k);
    WithinMeans(Decimal(ds), k, s, f * Pow(2, Shift(closer)), if closer then 2 else 1, f % 2 == 0,
                TextUnit(p, q), ValueUnit(p, q));
  }

  /** The rounding intervals of a number and of its double have no decimal in common. */
  lemma NotTwice(x: nat, p: int, f: nat, e: int, closed: bool)
    requires f > 0 && closed == (f % 2 == 0) && RoundsTo(x, p, f, e + 1, true, closed)
    ensures !RoundsTo(x, p, f, e, true, closed)
  {
    assert Pow(2, 2) == 4;
    NextUnit(p, e - 2);
    Apart(x, TextUnit(p, e - 1), ValueUnit(p, e - 1), TextUnit(p, e - 2), ValueUnit(p, e - 2), f, closed);
  }

  /** One binary place up, the unit of the significand doubles, or that of the text halves. */
  lemma NextUnit(p: int, q: int)
    ensures ValueUnit(p, q) > 0
    ensures (TextUnit(p, q + 1) == TextUnit(p, q) && ValueUnit(p, q + 1) == 2 * ValueUnit(p, q))
            || (TextUnit(p, q) == 2 * TextUnit(p, q + 1) && ValueUnit(p, q + 1) == ValueUnit(p, q))
  {
    MulMonotone(1, Pow(10, Positive(-p)), Pow(2, Positive(q)));
    if q >= 0 {
      MulSwap(Pow(10, Positive(-p)), 2, Pow(2, q));
    } else {
      MulSwap(Pow(10, Positive(p)), 2, Pow(2, -q - 1));
    }
  }

  lemma Apart(x: nat, up: nat, wide: nat, text: nat, unit: nat, f: nat, closed: bool)
    requires f > 0 && unit > 0 && closed == (f % 2 == 0) && Between(x * up, f * 4, 2, wide, closed)
    requires (up == text && wide == 2 * unit) || (text == 2 * up && wide == unit)
    ensures !Between(x * text, f * 4, 2, unit, closed)
  {
    MulSwap(x, 2, up);
    MulSwap(4 * f - 1, 2, unit);
    MulAssoc(2, 4 * f - 1, unit);
    MulMonotone(4 * f + 2, 2 * (4 * f - 1), unit);
    if closed {
      MulStrict(4 * f + 2, 2 * (4 * f - 1), unit);
    }
  }

  /** The interval of the scaled numbers, in units of the significand. */
  lemma WithinMeans(x: nat, k: nat, s: Scaled, significand: nat, up: nat, closed: bool, r: nat, q: nat)
    requires s.d > 0 && r > 0 && significand > 0 && s.n == s.l * significand && s.u == up * s.l
    requires (Pow(10, k) * s.l) * r == q * s.d
    requires Within(x, k, s.n, s.d, s.l, s.u, closed)
    ensures Between(x * r, significand, up, q, closed)
  {
    Distribute(significand, -1, s.l);
    Distribute(significand, up, s.l);
    EndIs(significand - 1, x, Pow(10, k), s, r, q);
    EndIs(significand + up, x, Pow(10, k), s, r, q);
  }

  /** An end of the interval, g units of the significand, as the scaled numbers see it. */
  lemma EndIs(g: nat, x: nat, p: nat, s: Scaled, r: nat, q: nat)
    requires s.d > 0 && r > 0 && (p * s.l) * r == q * s.d
    ensures p * (g * s.l) <= x * s.d <==> g * q <= x * r
    ensures p * (g * s.l) >= x * s.d <==> g * q >= x * r
  {
    MulSwap(p, g, s.l);
    MulAssoc(g, p * s.l, r);
    MulAssoc(g, q, s.d);
    MulAssoc(x, s.d, r);
    MulSwap(x, s.d, r);
    MulSwap(s.d, x, r);
    SameOrder(p * (g * s.l), x * s.d, r, g * q, x * r, s.d);
  }

  lemma SameOrder(a: int, b: int, r: nat, c: int, e: int, d: nat)
    requires r > 0 && d > 0 && a * r == c * d && b * r == e * d
    ensures a <= b <==> c <= e
    ensures a >= b <==> c >= e
  {
    if a < b {
      MulStrict(a, b, r);
    } else if a > b {
      MulStrict(b, a, r);
    }
    if c < e {
      MulStrict(c, e, d);
    } else if c > e {
      MulStrict(e, c, d);
    }
  }

  lemma {:induction false} ShownIsDecimal(buf: seq<char>, ds: seq<nat>)
    requires Shows(buf, ds)
    ensures DecimalText.Number(buf) == Decimal(ds)
  {
    if buf != [] {
      ShownIsDecimal(buf[1..], ds[1..]);
      DecimalText.NumberJoin([buf[0]], buf[1..]);
      assert buf == [buf[0]] + buf[1..];
      DecimalText.NumberAppend([], buf[0]);
      assert [buf[0]] == [] + [buf[0]];
    }
  }

  /** In the scaled numbers, l at place k is one unit of the significand: the gap down to the lower end. */
  lemma UnitIs(s: Scaled, f: nat, e: int, closer: bool, exp10: int, k: nat)
    requires f > 0 && s.d > 0 && Represents(s, f, e, closer, exp10)
    ensures (Pow(10, k) * s.l) * TextUnit(exp10 - k, e - Shift(closer))
            == ValueUnit(exp10 - k, e - Shift(closer)) * s.d
  {
    var h := Shift(closer);
    var g10, g2 := Pow(10, Common(k, exp10)), Pow(2, Common(h, e));
    SplitPower(10, k, exp10);
    SplitPower(2, h, e);
    CancelUnit(s.n, s.d, s.l, f, Pow(2, h), Pow(10, k), Pow(10, Positive(exp10)), Pow(2, Positive(-e)),
               Pow(2, Positive(e)), Pow(10, Positive(-exp10)));
    CancelCommon(Pow(10, k), s.l, s.d, g10, g2, Pow(10, Positive(exp10 - k)), Pow(2, Positive(h - e)),
                 Pow(10, Positive(k - exp10)), Pow(2, Positive(e - h)));
  }

  /** The factors that b^m * b^-e and b^e have in common when multiplied out. */
  function Common(m: nat, e: int): nat {
    if e <= 0 then 0 else if e <= m then e else m
  }

  lemma SplitPower(b: nat, m: nat, e: int)
    ensures Pow(b, m) * Pow(b, Positive(-e)) == Pow(b, Common(m, e)) * Pow(b, Positive(m - e))
    ensures Pow(b, Positive(e)) == Pow(b, Common(m, e)) * Pow(b, Positive(e - m))
  {
    if e <= 0 {
      PowAdd(b, m, -e);
    } else if e <= m {
      PowAdd(b, e, m - e);
    } else {
      PowAdd(b, m, e - m);
    }
  }

  /** Both parts of the invariant together, without f. */
  lemma CancelUnit(n: nat, d: nat, l: nat, f: nat, h: nat, p: nat, t1: nat, w2: nat, w1: nat, t2: nat)
    requires f > 0 && n * t1 * w2 == f * w1 * t2 * d && n == l * (f * h)
    ensures (p * l) * (t1 * (h * w2)) == (w1 * (p * t2)) * d
  {
    calc {
      f * (l * (t1 * (h * w2)));
      { MulSwap(t1, h, w2); MulSwap(l, h, t1 * w2); MulAssoc(l, t1, w2); MulAssoc(f, h, l * (t1 * w2));
        MulSwap(f * h, l, t1 * w2); MulAssoc(l, f * h, t1 * w2); MulAssoc(n, t1, w2); }
      n * t1 * w2;
      f * w1 * t2 * d;
      { MulAssoc(f * w1, t2, d); MulAssoc(f, w1, t2 * d); }
      f * (w1 * (t2 * d));
    }
    MulCancel(l * (t1 * (h * w2)), w1 * (t2 * d), f);
    MulAssoc(p, l, t1 * (h * w2));
    MulSwap(w1, p, t2);
    MulAssoc(p, w1 * t2, d);
    MulAssoc(w1, t2, d);
  }

  lemma CancelCommon(p: nat, l: nat, d: nat, g10: nat, g2: nat, t1: nat, w2: nat, t2: nat, w1: nat)
    requires g10 > 0 && g2 > 0
    requires (p * l) * ((g10 * t1) * (g2 * w2)) == ((g2 * w1) * (g10 * t2)) * d
    ensures (p * l) * (t1 * w2) == (t2 * w1) * d
  {
    var g := g10 * g2;
    Regroup(g10, t1, g2, w2);
    Regroup(g10, t2, g2, w1);
    MulSwap(p * l, g, t1 * w2);
    MulAssoc(g, t2 * w1, d);
    MulMonotone(1, g10, g2);
    MulCancel((p * l) * (t1 * w2), (t2 * w1) * d, g);
  }

  lemma Regroup(a: nat, x: nat, b: nat, y: nat)
    ensures (a * x) * (b * y) == (a * b) * (x * y)
  {
    MulAssoc(a, x, b * y);
    MulSwap(x, b, y);
    MulAssoc(a, b, x * y);
  }
}
