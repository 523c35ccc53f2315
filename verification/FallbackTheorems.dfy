/** What fallback_format promises about its output, and exactly where it falls short. */
module FallbackTheorems {
  import opened Powers
  import opened DigitLoop
  import opened Fallback

  /** The set-up stands for the value exactly when the first branch is not taken with the predecessor closer. */
  lemma SetupRepresents(f: nat, e: int, closer: bool, exp10: int)
    requires f > 0 && (e >= 0 ==> exp10 >= 0)
    ensures Represents(Setup(f, e, closer, exp10), f, e, closer, exp10) <==> !(e >= 0 && closer)
  {
    var significand := f * Pow(2, Shift(closer));
    if e >= 0 {
      LargeRepresents(f, closer, Pow(2, e), Pow(10, exp10));
    } else if exp10 < 0 {
      PowAdd(2, Shift(closer), -e);
      SmallRepresents(f, Pow(2, Shift(closer)), Pow(2, -e), Pow(10, -exp10));
    } else {
      PowAdd(2, Shift(closer), -e);
      MiddleRepresents(f, Pow(2, Shift(closer)), Pow(2, -e), Pow(10, exp10));
    }
  }

  lemma LargeRepresents(f: nat, closer: bool, p: nat, t: nat)
    requires f > 0 && p > 0 && t > 0
    ensures (p * (f * Pow(2, Shift(closer)))) * t * 1 == f * p * 1 * (2 * t) <==> !closer
  {
    var s := if closer then 4 else 2;
    assert Pow(2, 1) == 2 && Pow(2, 2) == 4;
    var v := f * p;
    calc {
      (p * (f * s)) * t;
      { MulSwap(p, f, s); MulAssoc(f, p, s); }
      (v * s) * t;
      { MulAssoc(v, s, t); MulSwap(v, s, t); }
      s * (v * t);
    }
    MulSwap(v, 2, t);
    PositiveNat(f, p);
    PositiveNat(v, t);
  }

  /** With a nonnegative exponent and a closer predecessor the set-up stands for twice the value. */
  lemma SetupDoubles(f: nat, e: nat, exp10: nat)
    requires f > 0
    ensures Represents(Setup(f, e, true, exp10), f, e + 1, true, exp10)
  {
    var p, t := Pow(2, e), Pow(10, exp10);
    assert Pow(2, 2) == 4 && Pow(2, e + 1) == 2 * p;
    calc {
      (p * (f * 4)) * t;
      { MulSwap(p, f, 4); MulAssoc(f, p * 4, t); MulAssoc(p, 4, t); }
      f * (p * (4 * t));
      { MulSwap(p, 2, 2 * t); MulAssoc(2, p, 2 * t); MulAssoc(f, 2 * p, 2 * t); }
      (f * (2 * p)) * (2 * t);
    }
  }

  lemma PositiveNat(x: nat, y: nat)
    requires x > 0 && y > 0
    ensures x * y > 0
  {
    MulMonotone(1, x, y);
  }

  lemma SmallRepresents(f: nat, s: nat, p: nat, t: nat)
    ensures ((f * s) * t) * 1 * p == f * 1 * t * (s * p)
  {
    calc {
      ((f * s) * t) * p;
      { MulAssoc(f, s, t); MulAssoc(f, s * t, p); MulSwap(s, t, p); MulAssoc(s, t, p); }
      f * (t * (s * p));
      { MulAssoc(f, t, s * p); }
      (f * t) * (s * p);
    }
  }

  lemma MiddleRepresents(f: nat, s: nat, p: nat, t: nat)
    ensures (f * s) * t * p == f * 1 * 1 * ((s * p) * t)
  {
    MulAssoc(f, s, t);
    MulAssoc(f, s * t, p);
    MulAssoc(s, t, p);
    MulAssoc(s, p, t);
  }

  /** The digits read back to the value: they lie in its rounding interval, ends included only if it is even. */
  lemma PrintedReadsBack(f: nat, e: int, closer: bool, exp10: int)
    requires f > 0 && (e >= 0 ==> exp10 >= 0)
    ensures var s, ds := Setup(f, e, closer, exp10), Digits(f, e, closer, exp10);
            Within(Decimal(ds), |ds| - 1, s.n, s.d, s.l, s.u, f % 2 == 0)
  {
    var s := Setup(f, e, closer, exp10);
    GeneratedWithin(s.n, s.d, s.l, s.u, f % 2 == 0, MissesTie(e, exp10), false);
  }

  /** x units of the (j+1)-th digit lie in the rounding interval, and the output has more digits than that. */
  ghost predicate ShorterAt(x: int, j: nat, f: nat, e: int, closer: bool, exp10: int)
    requires f > 0 && (e >= 0 ==> exp10 >= 0)
  {
    var s := Setup(f, e, closer, exp10);
    j < |Digits(f, e, closer, exp10)| - 1 && Within(x, j, s.n, s.d, s.l, s.u, f % 2 == 0)
  }

  /** Some decimal with fewer digits than the output reads back to the value. */
  ghost predicate HasShorter(f: nat, e: int, closer: bool, exp10: int)
    requires f > 0 && (e >= 0 ==> exp10 >= 0)
  {
    exists j: nat, x: int :: ShorterAt(x, j, f, e, closer, exp10)
  }

  /** x units of the (j+1)-th digit are exactly the lower end of the rounding interval. */
  ghost predicate LowerEndAt(x: int, j: nat, s: Scaled) {
    x * s.d == Pow(10, j) * (s.n - s.l)
  }

  /** x units of the (j+1)-th digit are the lower end, and no other decimal at that place is in the closed interval. */
  ghost predicate OnlyLowerEndAt(x: int, j: nat, s: Scaled) {
    LowerEndAt(x, j, s) && forall y: int :: Within(y, j, s.n, s.d, s.l, s.u, true) ==> y == x
  }

  /** At some place the lower end is the one decimal of the interval. */
  ghost predicate LowerEndStandsAlone(s: Scaled) {
    exists j: nat, x: int :: OnlyLowerEndAt(x, j, s)
  }

  /**
   The output is the shortest there is unless three things meet: an even significand, a lower with more whole
   bigits than the denominator, and a place at which the lower end is the only decimal of the interval.
   */
  lemma ShortestIff(f: nat, e: int, closer: bool, exp10: int)
    requires f > 0 && (e >= 0 ==> exp10 >= 0)
    ensures HasShorter(f, e, closer, exp10)
            <==> f % 2 == 0 && MissesTie(e, exp10)
                 && LowerEndStandsAlone(Setup(f, e, closer, exp10))
  {
    if HasShorter(f, e, closer, exp10) {
      var j: nat, x: int :| ShorterAt(x, j, f, e, closer, exp10);
      ShorterIsTie(x, j, f, e, closer, exp10);
    }
    if f % 2 == 0 && MissesTie(e, exp10) && LowerEndStandsAlone(Setup(f, e, closer, exp10)) {
      var j: nat, x: int :| OnlyLowerEndAt(x, j, Setup(f, e, closer, exp10));
      AloneIsShorter(x, j, f, e, closer, exp10);
      TieIsShorter(x, j, f, e, closer, exp10);
    }
  }

  lemma ShorterIsTie(x: int, j: nat, f: nat, e: int, closer: bool, exp10: int)
    requires f > 0 && (e >= 0 ==> exp10 >= 0) && ShorterAt(x, j, f, e, closer, exp10)
    ensures f % 2 == 0 && MissesTie(e, exp10) && OnlyLowerEndAt(x, j, Setup(f, e, closer, exp10))
  {
    var s := Setup(f, e, closer, exp10);
    NoneCoarser(s.n, s.d, s.l, s.u, f % 2 == 0, MissesTie(e, exp10), false, x, j);
    forall y: int | Within(y, j, s.n, s.d, s.l, s.u, true)
      ensures y == x
    {
      NoneCoarser(s.n, s.d, s.l, s.u, true, MissesTie(e, exp10), false, y, j);
      MulCancel(x, y, s.d);
    }
  }

  lemma LowerBelow(f: nat, e: int, closer: bool, exp10: int)
    requires f > 0 && (e >= 0 ==> exp10 >= 0)
    ensures var s := Setup(f, e, closer, exp10); s.l < s.n
  {
    var significand := f * Pow(2, Shift(closer));
    SignificandAtLeast(f, closer);
    MulMonotone(2, significand, Pow(2, if e >= 0 then e else 0));
    MulMonotone(2, significand, Pow(10, if exp10 < 0 then -exp10 else 0));
  }

  /** The output with zeros to fill place j. */
  function Filled(f: nat, e: int, closer: bool, exp10: int, j: nat): nat
    requires f > 0 && (e >= 0 ==> exp10 >= 0) && |Digits(f, e, closer, exp10)| - 1 <= j
  {
    Decimal(Digits(f, e, closer, exp10)) * Pow(10, j - (|Digits(f, e, closer, exp10)| - 1))
  }

  /** With ties missed, the output is in the interval and not its lower end, at whatever finer place it is read. */
  lemma FilledIsInside(f: nat, e: int, closer: bool, exp10: int, j: nat)
    requires f > 0 && f % 2 == 0 && (e >= 0 ==> exp10 >= 0) && MissesTie(e, exp10)
    requires |Digits(f, e, closer, exp10)| - 1 <= j
    ensures var s, y := Setup(f, e, closer, exp10), Filled(f, e, closer, exp10, j);
            Within(y, j, s.n, s.d, s.l, s.u, true) && !LowerEndAt(y, j, s)
  {
    var s, ds := Setup(f, e, closer, exp10), Digits(f, e, closer, exp10);
    var k := |ds| - 1;
    PrintedReadsBack(f, e, closer, exp10);
    LowerBelow(f, e, closer, exp10);
    NeverLowerEnd(s.n, s.d, s.l, s.u, true, false);
    MagnifiedWithin(Decimal(ds), k, j - k, s.n, s.d, s.l, s.u);
  }

  /** So it has more digits than any place at which the lower end is alone. */
  lemma AloneIsShorter(x: int, j: nat, f: nat, e: int, closer: bool, exp10: int)
    requires f > 0 && f % 2 == 0 && (e >= 0 ==> exp10 >= 0) && MissesTie(e, exp10)
    requires OnlyLowerEndAt(x, j, Setup(f, e, closer, exp10))
    ensures j < |Digits(f, e, closer, exp10)| - 1
  {
    if |Digits(f, e, closer, exp10)| - 1 <= j {
      FilledIsInside(f, e, closer, exp10, j);
    }
  }

  lemma TieIsShorter(x: int, j: nat, f: nat, e: int, closer: bool, exp10: int)
    requires f > 0 && f % 2 == 0 && (e >= 0 ==> exp10 >= 0)
    requires j < |Digits(f, e, closer, exp10)| - 1 && LowerEndAt(x, j, Setup(f, e, closer, exp10))
    ensures ShorterAt(x, j, f, e, closer, exp10)
  {
    var s := Setup(f, e, closer, exp10);
    EndIsWithin(x, j, s);
  }

  lemma EndIsWithin(x: int, j: nat, s: Scaled)
    requires LowerEndAt(x, j, s)
    ensures Within(x, j, s.n, s.d, s.l, s.u, true)
  {
    MulMonotone(s.n - s.l, s.n + s.u, Pow(10, j));
  }

  /** Some decimal of the output's length reads back to the value and is strictly nearer to it than the output. */
  ghost predicate HasNearer(f: nat, e: int, closer: bool, exp10: int)
    requires f > 0 && (e >= 0 ==> exp10 >= 0)
  {
    exists y: int :: NearerAt(y, f, e, closer, exp10)
  }

  ghost predicate NearerAt(y: int, f: nat, e: int, closer: bool, exp10: int)
    requires f > 0 && (e >= 0 ==> exp10 >= 0)
  {
    var s, ds := Setup(f, e, closer, exp10), Digits(f, e, closer, exp10);
    Within(y, |ds| - 1, s.n, s.d, s.l, s.u, f % 2 == 0) && Nearer(y, Decimal(ds), |ds| - 1, s.n, s.d)
  }

  /** The lower end is y units of the (k+1)-th digit, nearer than y + 1, which is in the interval and not shorter. */
  ghost predicate NearLowerEndAt(y: int, k: nat, s: Scaled) {
    && CloseLowerEnd(y, k, s.n, s.d, s.l)
    && Within(y + 1, k, s.n, s.d, s.l, s.u, true)
    && (k == 0 || (y + 1) % 10 != 0)
  }

  ghost predicate LowerEndIsNearest(s: Scaled) {
    exists k: nat, y: int :: NearLowerEndAt(y, k, s)
  }

  /** For any significand, only a lower end missed as a tie can be nearer than the output. */
  lemma NearestIff(f: nat, e: int, closer: bool, exp10: int)
    requires f > 0 && (e >= 0 ==> exp10 >= 0)
    ensures HasNearer(f, e, closer, exp10)
            <==> f % 2 == 0 && MissesTie(e, exp10) && LowerEndIsNearest(Setup(f, e, closer, exp10))
  {
    var s := Setup(f, e, closer, exp10);
    if HasNearer(f, e, closer, exp10) {
      var y: int :| NearerAt(y, f, e, closer, exp10);
      NearerIsTie(y, f, e, closer, exp10);
    }
    if f % 2 == 0 && MissesTie(e, exp10) && LowerEndIsNearest(s) {
      var k: nat, y: int :| NearLowerEndAt(y, k, s);
      TieIsNearer(y, k, f, e, closer, exp10);
    }
  }

  /** Next to a lower end less than half a unit away, the interval holds one other decimal of that length at most. */
  lemma OneAbove(x: int, y: int, k: nat, s: Scaled)
    requires s.d > 0 && s.u <= 2 * s.l && CloseLowerEnd(y, k, s.n, s.d, s.l)
    requires Within(x, k, s.n, s.d, s.l, s.u, true) && !LowerEndAt(x, k, s)
    ensures x == y + 1
  {
    var p := Pow(10, k);
    MulMonotone(s.u, 2 * s.l, p);
    MulSwap(p, 2, s.l);
    Distribute(s.n - s.l, s.l + s.u, p);
    Distribute(s.l, s.u, p);
    if x < y {
      MulStrict(x, y, s.d);
    } else if x > y + 1 {
      MulMonotone(y + 2, x, s.d);
      Distribute(y, 2, s.d);
    }
  }

  lemma NearerIsTie(y: int, f: nat, e: int, closer: bool, exp10: int)
    requires f > 0 && (e >= 0 ==> exp10 >= 0) && NearerAt(y, f, e, closer, exp10)
    ensures f % 2 == 0 && MissesTie(e, exp10)
    ensures NearLowerEndAt(y, |Digits(f, e, closer, exp10)| - 1, Setup(f, e, closer, exp10))
  {
    var s, ds := Setup(f, e, closer, exp10), Digits(f, e, closer, exp10);
    var k := |ds| - 1;
    GeneratedNearestInside(s.n, s.d, s.l, s.u, f % 2 == 0, MissesTie(e, exp10), false, y);
    PrintedReadsBack(f, e, closer, exp10);
    LowerBelow(f, e, closer, exp10);
    NeverLowerEnd(s.n, s.d, s.l, s.u, true, false);
    OneAbove(Decimal(ds), y, k, s);
    if k > 0 && (y + 1) % 10 == 0 {
      NotTenfold((y + 1) / 10, f, e, closer, exp10);
    }
  }

  /** The output, not the lower end, does not end in a zero. */
  lemma NotTenfold(z: int, f: nat, e: int, closer: bool, exp10: int)
    requires f > 0 && f % 2 == 0 && (e >= 0 ==> exp10 >= 0) && MissesTie(e, exp10)
    requires |Digits(f, e, closer, exp10)| > 1
    ensures Decimal(Digits(f, e, closer, exp10)) != 10 * z
  {
    var s, ds := Setup(f, e, closer, exp10), Digits(f, e, closer, exp10);
    var k := |ds| - 1;
    PrintedReadsBack(f, e, closer, exp10);
    LowerBelow(f, e, closer, exp10);
    NeverLowerEnd(s.n, s.d, s.l, s.u, true, false);
    TenfoldWithin(z, k - 1, s.n, s.d, s.l, s.u);
    NoneCoarser(s.n, s.d, s.l, s.u, true, true, false, z, k - 1);
  }

  lemma TieIsNearer(y: int, k: nat, f: nat, e: int, closer: bool, exp10: int)
    requires f > 0 && f % 2 == 0 && (e >= 0 ==> exp10 >= 0) && MissesTie(e, exp10)
    requires NearLowerEndAt(y, k, Setup(f, e, closer, exp10))
    ensures NearerAt(y, f, e, closer, exp10)
  {
    var s := Setup(f, e, closer, exp10);
    LengthIs(y, k, f, e, closer, exp10);
    LowerBelow(f, e, closer, exp10);
    LowerEndNearer(s.n, s.d, s.l, s.u, false, y);
    EndIsWithin(y, k, s);
  }

  /** The output ends at the place of such a lower end. */
  lemma LengthIs(y: int, k: nat, f: nat, e: int, closer: bool, exp10: int)
    requires f > 0 && f % 2 == 0 && (e >= 0 ==> exp10 >= 0) && MissesTie(e, exp10)
    requires NearLowerEndAt(y, k, Setup(f, e, closer, exp10))
    ensures |Digits(f, e, closer, exp10)| - 1 == k
  {
    var s, ds := Setup(f, e, closer, exp10), Digits(f, e, closer, exp10);
    if k < |ds| - 1 {
      NoneCoarser(s.n, s.d, s.l, s.u, true, true, false, y + 1, k);
      MulCancel(y, y + 1, s.d);
    } else if |ds| - 1 < k {
      FilledIsInside(f, e, closer, exp10, k);
      OneAbove(Filled(f, e, closer, exp10, k), y, k, s);
      TenDivides(Decimal(ds), Pow(10, k - (|ds| - 1)), Pow(10, k - |ds|));
    }
  }

  lemma TenDivides(x: nat, m: nat, p: nat)
    requires m == 10 * p
    ensures (x * m) % 10 == 0
  {
    MulSwap(x, 10, p);
  }

  /**
   For both gaps no decimal of the output's length that reads back to the value is nearer to it than the output. The
   predecessor is closer only below a power of two, where every bit of the fraction is zero.
   */
  lemma PrintedIsNearest(f: nat, e: int, closer: bool, exp10: int)
    requires f > 0 && (e >= 0 ==> exp10 >= 0) && (closer ==> f == 0x10_0000_0000_0000)
    ensures !HasNearer(f, e, closer, exp10)
  {
    NearestIff(f, e, closer, exp10);
    if HasNearer(f, e, closer, exp10) {
      var s := Setup(f, e, closer, exp10);
      var k: nat, y: int :| NearLowerEndAt(y, k, s);
      if closer {
        assert Pow(2, 2) == 4;
        NoLowerEnd(e, exp10, k, y);
      } else {
        OtherEnd(y, k, s);
      }
    }
  }

  /** With equal gaps the other end is as near as the lower end, less than half a unit away: too near for y + 1. */
  lemma OtherEnd(y: int, k: nat, s: Scaled)
    requires s.u == s.l && CloseLowerEnd(y, k, s.n, s.d, s.l)
    ensures !Within(y + 1, k, s.n, s.d, s.l, s.u, true)
  {
    Distribute(y, 1, s.d);
    Distribute(s.n - s.l, 2 * s.l, Pow(10, k));
    MulSwap(Pow(10, k), 2, s.l);
  }

  /** Below a power of two the lower end is no decimal of any place that it is nearer at: five does not divide it. */
  lemma NoLowerEnd(e: nat, exp10: nat, k: nat, y: int)
    ensures var l, d := Pow(2, e), 2 * Pow(10, exp10);
            !CloseLowerEnd(y, k, l * 0x40_0000_0000_0000, d, l)
  {
    var l, p, t := Pow(2, e), Pow(10, k), Pow(10, exp10);
    if k >= exp10 {
      PowMonotone(10, exp10, k);
      AtLeastAsFar(p, t, l);
    } else {
      PowAdd(10, k, exp10 - k);
      PowerOfTwoModFive(e);
      NotAtPlace(y, p, Pow(10, exp10 - k), Pow(10, exp10 - k - 1), t, l);
    }
  }

  lemma AtLeastAsFar(p: nat, t: nat, l: nat)
    requires t <= p && l > 0
    ensures 2 * (p * l) >= 2 * t
  {
    MulMonotone(1, l, p);
  }

  lemma NotAtPlace(y: int, p: nat, q: nat, r: nat, t: nat, l: nat)
    requires p > 0 && t == p * q && q == 10 * r && l % 5 != 0
    ensures y * (2 * t) != p * (l * 0x40_0000_0000_0000 - l)
  {
    if y * (2 * t) == p * (l * 0x40_0000_0000_0000 - l) {
      LowerEndWhole(y, p, q, l);
      NotWhole(y, q, r, l);
    }
  }

  lemma NotWhole(y: int, q: nat, r: nat, l: nat)
    requires q == 10 * r && l % 5 != 0
    ensures 2 * (y * q) != l * 0x3f_ffff_ffff_ffff
  {
    MulSwap(y, 10, r);
    NoMultipleOfFive(y * r, l);
  }

  lemma NoMultipleOfFive(z: int, l: nat)
    requires l % 5 != 0
    ensures 20 * z != l * 0x3f_ffff_ffff_ffff
  {
  }

  /** The powers of ten cancelled: the lower end in units of a higher place. */
  lemma LowerEndWhole(y: int, p: nat, q: nat, l: nat)
    requires p > 0 && y * (2 * (p * q)) == p * (l * 0x40_0000_0000_0000 - l)
    ensures 2 * (y * q) == l * 0x3f_ffff_ffff_ffff
  {
    MulSwap(y, 2, p * q);
    MulSwap(y, p, q);
    MulSwap(2, p, y * q);
    MulCancel(2 * (y * q), l * 0x3f_ffff_ffff_ffff, p);
  }

  /** With equal gaps on both sides the printed decimal is also within half a unit of its last place. */
  lemma WithinHalfUnit(f: nat, e: int, exp10: int)
    requires f > 0 && (e >= 0 ==> exp10 >= 0)
    ensures var s, ds := Setup(f, e, false, exp10), Digits(f, e, false, exp10);
            0 <= Error(Decimal(ds), |ds| - 1, s.n, s.d) + s.d <= 2 * s.d
  {
    var s := Setup(f, e, false, exp10);
    GeneratedNearest(s.n, s.d, s.l, f % 2 == 0, MissesTie(e, exp10), false);
  }

  /**
   Half to even: when another decimal of the output's length reads back to the value and is as near to it as the
   output, the output is the even one.
   */
  lemma PrintedTieIsEven(f: nat, e: int, closer: bool, exp10: int, y: int)
    requires f > 0 && (e >= 0 ==> exp10 >= 0)
    requires var s, ds := Setup(f, e, closer, exp10), Digits(f, e, closer, exp10);
             Within(y, |ds| - 1, s.n, s.d, s.l, s.u, f % 2 == 0) && Tied(y, Decimal(ds), |ds| - 1, s.n, s.d)
    ensures Decimal(Digits(f, e, closer, exp10)) % 2 == 0
  {
    var s, ds := Setup(f, e, closer, exp10), Digits(f, e, closer, exp10);
    GeneratedTieIsEven(s.n, s.d, s.l, s.u, f % 2 == 0, MissesTie(e, exp10), false, y);
    if Decimal(ds) % 2 != 0 {
      NotHalfUnit(e, exp10, |ds| - 1);
    }
  }

  /** A positive power of two is no positive power of ten: the lower end is not half a unit away at any place. */
  lemma NotHalfUnit(e: nat, exp10: nat, k: nat)
    requires e > 0
    ensures 2 * (Pow(10, k) * Pow(2, e)) != 2 * Pow(10, exp10)
  {
    PowerOfTwoModFive(e);
    if k >= exp10 {
      PowMonotone(10, exp10, k);
      MulMonotone(2, Pow(2, e), Pow(10, k));
    } else {
      PowAdd(10, k, exp10 - k);
      NotTenTimes(Pow(2, e), Pow(10, exp10 - k), Pow(10, exp10 - k - 1), Pow(10, k));
    }
  }

  lemma NotTenTimes(l: nat, q: nat, r: nat, p: nat)
    requires p > 0 && q == 10 * r && l % 5 != 0
    ensures p * l != p * q
  {
    if p * l == p * q {
      MulCancel(l, q, p);
    }
  }

  /**
   22.121658325195312, the double 1449765 / 2^16: at its seventeenth digit the rest is exactly half a unit, both
   neighbours read back to it, and the even one is printed.
   */
  lemma HalfToEvenExample(f: nat, e: int, exp10: int)
    requires f == 6226693261885440 && e == -48 && exp10 == 1
    ensures var s, ds := Setup(f, e, false, exp10), Digits(f, e, false, exp10);
            && |ds| == 17 && Decimal(ds) == 22121658325195312
            && Within(22121658325195313, 16, s.n, s.d, s.l, s.u, f % 2 == 0)
            && Tied(22121658325195313, Decimal(ds), 16, s.n, s.d)
  {
    var d := 5629499534213120;
    TieSetup(f, e, exp10);
    TieLastDigits(d);
    TieFirstDigits(d);
  }

  lemma TieSetup(f: nat, e: int, exp10: int)
    requires f == 6226693261885440 && e == -48 && exp10 == 1
    ensures Setup(f, e, false, exp10) == Scaled(12453386523770880, 5629499534213120, 1, 1)
    ensures !MissesTie(e, exp10) && Pow(10, 16) == 10000000000000000
  {
    TiePowers();
    assert Pow(2, 1) == 2 && Pow(10, 1) == 10;
  }

  lemma TiePowers()
    ensures Pow(2, 49) == 562949953421312 && Pow(10, 16) == 10000000000000000
  {
    ExamplePowers();
    PowAdd(2, 40, 9);
    PowAdd(10, 14, 2);
    assert Pow(2, 9) == 512 && Pow(10, 2) == 100;
  }

  /** One more digit in front of k others, given its quotient and remainder. */
  lemma TieDigit(n: nat, d: nat, l: nat, started: bool, q: nat, r: nat, k: nat, p: nat, x: nat)
    requires d > 0 && l > 0 && r < d && n == q * d + r && l < r && r + l < d && q > 0
    requires var rest := Generate(10 * r, d, 10 * l, 10 * l, true, false, true);
             |rest| == k && Decimal(rest) == x && Pow(10, k) == p
    ensures var ds := Generate(n, d, l, l, true, false, started);
            |ds| == k + 1 && Decimal(ds) == q * p + x && Pow(10, k + 1) == 10 * p
  {
    var rest := Generate(10 * r, d, 10 * l, 10 * l, true, false, true);
    DivModUnique(n, d, q, r);
    assert Generate(n, d, l, l, true, false, started) == [q] + rest;
    assert ([q] + rest)[1..] == rest;
  }

  lemma TieLastDigits(d: nat)
    requires d == 5629499534213120
    ensures var ds := Generate(14183699998310400, d, 1000000000, 1000000000, true, false, true);
            |ds| == 8 && Decimal(ds) == 25195312 && Pow(10, 8) == 100000000
  {
    var last := Generate(14073748835532800, d, 10000000000000000, 10000000000000000, true, false, true);
    DivModUnique(14073748835532800, d, 2, 2814749767106560);
    assert last == [2];
    One(2);
    TieDigit(7036874417766400, d, 1000000000000000, true, 1, 1407374883553280, 1, 10, 2);
    TieDigit(17592186044416000, d, 100000000000000, true, 3, 703687441776640, 2, 100, 12);
    TieDigit(29906716275507200, d, 10000000000000, true, 5, 1759218604441600, 3, 1000, 312);
    TieDigit(53656167435468800, d, 1000000000000, true, 9, 2990671627550720, 4, 10000, 5312);
    TieDigit(10995116277760000, d, 100000000000, true, 1, 5365616743546880, 5, 100000, 95312);
    TieDigit(29247009298841600, d, 10000000000, true, 5, 1099511627776000, 6, 1000000, 195312);
    TieDigit(14183699998310400, d, 1000000000, true, 2, 2924700929884160, 7, 10000000, 5195312);
  }

  lemma TieFirstDigits(d: nat)
    requires d == 5629499534213120
    requires var ds := Generate(14183699998310400, d, 1000000000, 1000000000, true, false, true);
             |ds| == 8 && Decimal(ds) == 25195312 && Pow(10, 8) == 100000000
    ensures var ds := Generate(12453386523770880, d, 1, 1, true, false, false);
            |ds| == 17 && Decimal(ds) == 22121658325195312
  {
    TieDigit(18306868602470400, d, 100000000, true, 3, 1418369999831040, 8, 100000000, 25195312);
    TieDigit(46866683133952000, d, 10000000, true, 8, 1830686860247040, 9, 1000000000, 325195312);
    TieDigit(32834165984460800, d, 1000000, true, 5, 4686668313395200, 10, 10000000000, 8325195312);
    TieDigit(37060413803724800, d, 100000, true, 6, 3283416598446080, 11, 100000000000, 58325195312);
    TieDigit(9335540914585600, d, 10000, true, 1, 3706041380372480, 12, 1000000000000, 658325195312);
    TieDigit(12192553159884800, d, 1000, true, 2, 933554091458560, 13, 10000000000000, 1658325195312);
    TieDigit(6848754850201600, d, 100, true, 1, 1219255315988480, 14, 100000000000000, 21658325195312);
    TieDigit(11943874553446400, d, 10, true, 2, 684875485020160, 15, 1000000000000000, 121658325195312);
    TieDigit(12453386523770880, d, 1, false, 2, 1194387455344640, 16, 10000000000000000, 2121658325195312);
  }

  /**
   4503600463867188 * 2^40, about 4.95e27: its lower boundary is 495176107687936 * 10^13, fifteen digits that
   read back to it. Sixteen are printed.
   */
  lemma MissedTieExample(f: nat, e: int, exp10: int)
    requires f == 4503600463867188 && e == 40 && exp10 == 27
    ensures Estimated(f, e, false, exp10) && HasShorter(f, e, false, exp10)
  {
    var s := Scaled(9903522153758721099511627776, 2000000000000000000000000000, 1099511627776, 1099511627776);
    ExampleSetup(f, e, exp10);
    MissedTieDigits();
    assert LowerEndAt(495176107687936, 14, s) by { ExamplePowers(); }
    TieIsShorter(495176107687936, 14, f, e, false, exp10);
  }

  lemma ExamplePowers()
    ensures Pow(2, 40) == 1099511627776 && Pow(10, 14) == 100000000000000
    ensures Pow(10, 27) == 1000000000000000000000000000
  {
    PowAdd(2, 10, 10);
    PowAdd(2, 20, 20);
    PowAdd(10, 3, 3);
    PowAdd(10, 6, 1);
    PowAdd(10, 7, 7);
    PowAdd(10, 13, 1);
    PowAdd(10, 13, 14);
    assert Pow(2, 10) == 1024;
    assert Pow(10, 3) == 1000 && Pow(10, 1) == 10;
  }

  lemma ExampleSetup(f: nat, e: int, exp10: int)
    requires f == 4503600463867188 && e == 40 && exp10 == 27
    ensures Setup(f, e, false, exp10)
            == Scaled(9903522153758721099511627776, 2000000000000000000000000000, 1099511627776, 1099511627776)
  {
    ExamplePowers();
    assert Pow(2, 1) == 2;
  }

  /** One digit of the example, given its quotient and remainder. */
  lemma Digit(n: nat, d: nat, l: nat, started: bool, q: nat, r: nat)
    requires d > 0 && l > 0 && r < d && n == q * d + r
    requires l <= r && r + l < d && (r == l ==> started || q > 0)
    ensures Generate(n, d, l, l, true, true, started)
            == [q] + Generate(10 * r, d, 10 * l, 10 * l, true, true, started || q > 0)
  {
    DivModUnique(n, d, q, r);
  }

  lemma MissedTieDigits()
    ensures |Generate(9903522153758721099511627776, 2000000000000000000000000000, 1099511627776, 1099511627776,
                      true, true, false)| > 15
  {
    var d := 2000000000000000000000000000;
    Digit(9903522153758721099511627776, d, 1099511627776, false, 4, 1903522153758721099511627776);
    Digit(19035221537587210995116277760, d, 10995116277760, true, 9, 1035221537587210995116277760);
    Digit(10352215375872109951162777600, d, 109951162777600, true, 5, 352215375872109951162777600);
    Digit(3522153758721099511627776000, d, 1099511627776000, true, 1, 1522153758721099511627776000);
    Digit(15221537587210995116277760000, d, 10995116277760000, true, 7, 1221537587210995116277760000);
    Digit(12215375872109951162777600000, d, 109951162777600000, true, 6, 215375872109951162777600000);
    Digit(2153758721099511627776000000, d, 1099511627776000000, true, 1, 153758721099511627776000000);
    MissedTieMoreDigits(d);
  }

  lemma MissedTieMoreDigits(d: nat)
    requires d == 2000000000000000000000000000
    ensures var l := 10995116277760000000;
            |Generate(1537587210995116277760000000, d, l, l, true, true, true)| > 8
  {
    Digit(1537587210995116277760000000, d, 10995116277760000000, true, 0, 1537587210995116277760000000);
    Digit(15375872109951162777600000000, d, 109951162777600000000, true, 7, 1375872109951162777600000000);
    Digit(13758721099511627776000000000, d, 1099511627776000000000, true, 6, 1758721099511627776000000000);
    Digit(17587210995116277760000000000, d, 10995116277760000000000, true, 8, 1587210995116277760000000000);
    Digit(15872109951162777600000000000, d, 109951162777600000000000, true, 7, 1872109951162777600000000000);
    Digit(18721099511627776000000000000, d, 1099511627776000000000000, true, 9, 721099511627776000000000000);
    Digit(7210995116277760000000000000, d, 10995116277760000000000000, true, 3, 1210995116277760000000000000);
    Digit(12109951162777600000000000000, d, 109951162777600000000000000, true, 6, 109951162777600000000000000);
  }
}
