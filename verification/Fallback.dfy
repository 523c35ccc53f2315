/** fallback_format: exact shortest printing of a double through bigints. */
module Fallback {
  import opened Limbs
  import opened LimbOrder
  import opened Powers
  import opened BigintClass
  import opened DigitLoop

  /** The four numbers the set-up computes: numerator, denominator, lower and upper. */
  datatype Scaled = Scaled(n: nat, d: nat, l: nat, u: nat)

  function Shift(closer: bool): nat {
    if closer then 2 else 1
  }

  /** The set-up for the value f * 2^e, branch by branch; the first branch scales the denominator by 2 only. */
  function Setup(f: nat, e: int, closer: bool, exp10: int): (s: Scaled)
    requires f > 0 && (e >= 0 ==> exp10 >= 0)
    ensures s.n > 0 && s.d > 0 && s.l > 0 && s.n == s.l * (f * Pow(2, Shift(closer)))
    ensures s.u == if closer then 2 * s.l else s.l
  {
    var significand := f * Pow(2, Shift(closer));
    PositiveProduct(f, Pow(2, Shift(closer)));
    var (n, l, d) :=
      if e >= 0 then
        (Pow(2, e) * significand, Pow(2, e), 2 * Pow(10, exp10))
      else if exp10 < 0 then
        (significand * Pow(10, -exp10), Pow(10, -exp10), Pow(2, Shift(closer) - e))
      else
        (significand, 1, Pow(2, Shift(closer) - e) * Pow(10, exp10));
    PositiveProduct(significand, Pow(2, if e >= 0 then e else 0));
    PositiveProduct(significand, Pow(10, if exp10 < 0 then -exp10 else 0));
    PositiveProduct(Pow(2, if e < 0 then Shift(closer) - e else 0), Pow(10, if exp10 >= 0 then exp10 else 0));
    Scaled(n, d, l, if closer then 2 * l else l)
  }

  function Positive(x: int): nat {
    if x > 0 then x else 0
  }

  /** n/d * 10^exp10 == f * 2^e, and l is half the gap to the predecessor: a quarter unit of f if that is closer. */
  ghost predicate Represents(s: Scaled, f: nat, e: int, closer: bool, exp10: int) {
    && s.n * Pow(10, Positive(exp10)) * Pow(2, Positive(-e))
       == f * Pow(2, Positive(e)) * Pow(10, Positive(-exp10)) * s.d
    && s.n == s.l * (f * Pow(2, Shift(closer)))
  }

  /** Bool as the source adds and subtracts it. */
  function Int(b: bool): int {
    if b then 1 else 0
  }

  /** One digit: divide, then test both ends of the interval. */
  method NextDigit(numerator: Bigint, denominator: Bigint, lower: Bigint, upper: Bigint, even: bool,
                   ghost started: bool)
    returns (digit: nat, low: bool, high: bool)
    requires numerator !in {denominator, lower, upper}
    requires numerator.Valid() && denominator.Valid() && lower.Valid() && upper.Valid()
    requires numerator.Value() > 0 && denominator.Value() > 0 && lower.Value() > 0 && upper.Value() > 0
    requires numerator.Value() < 20 * denominator.Value()
    requires numerator.exp == if started then Min(lower.exp, denominator.exp) else lower.exp
    requires !started && lower.exp > denominator.exp ==> numerator.Value() != denominator.Value()
    modifies numerator
    ensures numerator.Valid()
    ensures var n, d := old(numerator.Value()), denominator.Value();
            && digit == Quotient(n, d) && numerator.Value() == Remainder(n, d)
            && low == NearLower(Remainder(n, d), lower.Value(), even,
                          lower.exp > denominator.exp && (started || digit > 0))
            && high == NearUpper(Remainder(n, d), d, upper.Value(), even)
    ensures numerator.exp == if started || digit > 0 then Min(lower.exp, denominator.exp) else lower.exp
  {
    DivisionFits(numerator.bigits, numerator.exp, denominator.bigits, denominator.exp);
    NumBound(lower.bigits, lower.exp);
    NumBound(upper.bigits, upper.exp);
    if Padded(denominator.bigits, denominator.exp, numerator.bigits, numerator.exp) {
      PaddedSame(denominator.bigits, denominator.exp, numerator.bigits, numerator.exp);
    }
    digit := numerator.DivmodAssign(denominator);
    DivModUnique(old(numerator.Value()), denominator.Value(), digit, numerator.Value());
    var c := Compare(numerator, lower);
    LowTest(numerator.bigits, numerator.exp, lower.bigits, lower.exp, even, c);
    low := c - Int(even) < 0;
    NumBound(numerator.bigits, numerator.exp);
    var r := AddCompare(numerator, upper, denominator);
    HighTest(numerator.bigits, numerator.exp, upper.bigits, upper.exp, denominator.bigits, denominator.exp, r);
    high := r + Int(even) > 0;
  }

  /** A dividend below twenty divisors has at most one bigit position more. */
  lemma DivisionFits(a: seq<Bigit>, ea: nat, b: seq<Bigit>, eb: nat)
    requires Normal(a) && Normal(b) && 0 < Num(a, ea) < 20 * Num(b, eb)
    ensures a != [0] && b != [0]
    ensures |a| + ea <= |b| + eb + 1
  {
    NumBound(a, ea);
    NumBound(b, eb);
    BaseStrict(|a| - 1 + ea, |b| + eb + 1);
  }

  /** The final increment: up at the upper end, to the nearer digit when both ends are near. */
  method FinalDigit(numerator: Bigint, denominator: Bigint, digit: nat, low: bool, high: bool) returns (last: nat)
    requires numerator != denominator && numerator.Valid() && denominator.Valid() && denominator.Value() > 0
    requires numerator.Value() == 0 ==> numerator.exp <= denominator.exp
    ensures last == LastDigit(digit, numerator.Value(), denominator.Value(), low, high)
  {
    last := digit;
    if !low {
      last := last + 1;
    } else if high {
      NumBound(numerator.bigits, numerator.exp);
      NumBound(denominator.bigits, denominator.exp);
      var result := AddCompare(numerator, numerator, denominator);
      HighTest(numerator.bigits, numerator.exp, numerator.bigits, numerator.exp,
               denominator.bigits, denominator.exp, result);
      if result > 0 || (result == 0 && digit % 2 != 0) {
        last := last + 1;
      }
    }
  }

  /** n times some power of ten. */
  ghost predicate Reaches(n: nat, m: nat) {
    exists j: nat :: Pow(10, j) * n == m
  }

  /** Four bigints that hold the set-up; upper is lower itself unless the predecessor is closer. */
  ghost predicate Ready(numerator: Bigint, denominator: Bigint, lower: Bigint, upper: Bigint, s: Scaled)
    reads numerator, denominator, lower, upper
  {
    && numerator !in {denominator, lower, upper} && denominator !in {lower, upper}
    && numerator.Valid() && denominator.Valid() && lower.Valid() && upper.Valid()
    && numerator.Value() == s.n && denominator.Value() == s.d && lower.Value() == s.l && upper.Value() == s.u
  }

  /** What one turn of the loop makes of the four values. */
  function Magnified(s: Scaled): Scaled
    requires s.d > 0
  {
    Scaled(10 * Remainder(s.n, s.d), s.d, 10 * s.l, 10 * s.u)
  }

  function GenerateFrom(s: Scaled, even: bool, miss: bool, started: bool): seq<nat>
    requires s.d > 0 && s.l > 0
  {
    Generate(s.n, s.d, s.l, s.u, even, miss, started)
  }

  /**
   The bigints at the start of a turn of the loop that began with numerator first, and the digits still to print.
   */
  ghost predicate Turning(numerator: Bigint, denominator: Bigint, lower: Bigint, upper: Bigint, even: bool, first: nat,
                          s: Scaled, started: bool, todo: seq<nat>)
    reads numerator, denominator, lower, upper
  {
    && Ready(numerator, denominator, lower, upper, s)
    && 0 < s.n < 20 * s.d && s.d > 0 && s.l > 0 && s.u > 0
    && numerator.exp == (if started then Min(lower.exp, denominator.exp) else lower.exp)
    && (!started ==> Reaches(first, s.n)) && (lower.exp > denominator.exp ==> !Reaches(first, s.d))
    && todo == GenerateFrom(s, even, lower.exp > denominator.exp, started)
  }

  /** How many turns there may still be. */
  function Turns(s: Scaled): nat {
    if s.l > s.d then 0 else s.d + 1 - s.l
  }

  /** One turn of the digit loop: the last digit, or a digit and the values for the next turn. */
  method OneDigit(numerator: Bigint, denominator: Bigint, lower: Bigint, upper: Bigint, even: bool,
                  ghost first: nat, ghost s: Scaled, ghost started: bool, ghost todo: seq<nat>)
    returns (digit: nat, done: bool, ghost begun: bool, ghost rest: seq<nat>)
    requires Turning(numerator, denominator, lower, upper, even, first, s, started, todo)
    modifies numerator, lower, upper
    ensures todo == [digit] + rest
    ensures if done then rest == []
            else Turning(numerator, denominator, lower, upper, even, first, Magnified(s), begun, rest)
                 && Turns(Magnified(s)) < Turns(s)
  {
    FirstDigits(first, s.d, s.n);
    var q, low, high := NextDigit(numerator, denominator, lower, upper, even, started);
    digit, begun, done, rest := q, started || q > 0, low || high, [];
    if done {
      digit := FinalDigit(numerator, denominator, q, low, high);
    } else {
      Magnify(numerator, lower, upper);
      rest := GenerateFrom(Magnified(s), even, lower.exp > denominator.exp, begun);
    }
  }

  /** The digit loop on bigints computes Generate of the values it starts from. */
  method GenerateDigits(numerator: Bigint, denominator: Bigint, lower: Bigint, upper: Bigint, even: bool,
                        ghost s: Scaled, ghost all: seq<nat>)
    returns (digits: seq<nat>)
    requires Turning(numerator, denominator, lower, upper, even, s.n, s, false, all)
    modifies numerator, lower, upper
    ensures digits == all
  {
    ghost var now, rest, started := s, all, false;
    digits := [];
    while true
      invariant Turning(numerator, denominator, lower, upper, even, s.n, now, started, rest)
      invariant all == digits + rest
      decreases Turns(now)
    {
      var digit, done, begun, left := OneDigit(numerator, denominator, lower, upper, even, s.n, now, started, rest);
      digits := digits + [digit];
      if done {
        return;
      }
      started, now, rest := begun, Magnified(now), left;
    }
  }

  /** The tenfold step; upper may be the same object as lower. */
  method Magnify(numerator: Bigint, lower: Bigint, upper: Bigint)
    requires numerator !in {lower, upper} && numerator.Valid() && lower.Valid() && upper.Valid()
    modifies numerator, lower, upper
    ensures numerator.Valid() && lower.Valid() && upper.Valid()
    ensures numerator.Value() == 10 * old(numerator.Value()) && numerator.exp == old(numerator.exp)
    ensures lower.Value() == 10 * old(lower.Value()) && lower.exp == old(lower.exp)
    ensures upper.Value() == 10 * old(upper.Value()) && upper.exp == old(upper.exp)
  {
    numerator.Multiply32(10);
    lower.Multiply32(10);
    if upper != lower {
      upper.Multiply32(10);
    }
  }

  lemma ReachesItself(n: nat)
    ensures Reaches(n, n)
  {
    assert Pow(10, 0) * n == n;
  }

  /** As long as only zeros are taken off, the numerator grows tenfold a step. */
  lemma FirstDigits(n: nat, d: nat, m: nat)
    requires d > 0
    ensures Reaches(n, m) && Quotient(m, d) == 0 ==> Reaches(n, 10 * Remainder(m, d))
  {
    if Reaches(n, m) && Quotient(m, d) == 0 {
      var j: nat :| Pow(10, j) * n == m;
      MulAssoc(10, Pow(10, j), n);
      assert Pow(10, j + 1) * n == 10 * m;
    }
  }

  /** Where the representation loses a tie with the lower end: lower has more whole bigits than the denominator. */
  predicate MissesTie(e: int, exp10: int) {
    e >= 0 && exp10 >= 0 && e / 32 > exp10 / 32
  }

  /** The set-up for a nonnegative binary exponent. */
  method SetUpLarge(f: nat, e: int, closer: bool, exp10: int)
    returns (numerator: Bigint, denominator: Bigint, lower: Bigint, upper: Bigint)
    requires 0 < f < 0x20_0000_0000_0000 && e >= 0 && 0 <= exp10 < 0x4000_0000
    ensures Ready(numerator, denominator, lower, upper, Setup(f, e, closer, exp10))
    ensures fresh({numerator, denominator, lower, upper})
    ensures numerator.exp == lower.exp == e / 32 && denominator.exp == exp10 / 32
  {
    SignificandFits(f, closer);
    var significand: Word := f * Pow(2, Shift(closer));
    numerator := new Bigint(significand);
    numerator.ShiftLeft(e);
    lower := new Bigint(1);
    lower.ShiftLeft(e);
    upper := lower;
    if closer {
      upper := new Bigint(1);
      upper.ShiftLeft(e + 1);
    }
    denominator := new Bigint(0);
    denominator.AssignPow10(exp10);
    denominator.ShiftLeft(1);
  }

  /** The set-up for a fraction with a negative decimal exponent. */
  method SetUpSmall(f: nat, e: int, closer: bool, exp10: int)
    returns (numerator: Bigint, denominator: Bigint, lower: Bigint, upper: Bigint)
    requires 0 < f < 0x20_0000_0000_0000 && e < 0 && -0x4000_0000 < exp10 < 0
    ensures Ready(numerator, denominator, lower, upper, Setup(f, e, closer, exp10))
    ensures fresh({numerator, denominator, lower, upper})
    ensures numerator.exp == lower.exp == -exp10 / 32 && denominator.exp == (Shift(closer) - e) / 32
  {
    SignificandFits(f, closer);
    var significand: Word := f * Pow(2, Shift(closer));
    numerator := new Bigint(0);
    numerator.AssignPow10(-exp10);
    lower := new Bigint(0);
    lower.AssignFrom(numerator);
    upper := lower;
    if closer {
      upper := new Bigint(0);
      upper.AssignFrom(numerator);
      upper.ShiftLeft(1);
    }
    numerator.Multiply64(significand);
    denominator := new Bigint(1);
    denominator.ShiftLeft(Shift(closer) - e);
  }

  /** The set-up for a fraction with a nonnegative decimal exponent. */
  method SetUpMiddle(f: nat, e: int, closer: bool, exp10: int)
    returns (numerator: Bigint, denominator: Bigint, lower: Bigint, upper: Bigint)
    requires 0 < f < 0x20_0000_0000_0000 && e < 0 && 0 <= exp10 < 0x4000_0000
    ensures Ready(numerator, denominator, lower, upper, Setup(f, e, closer, exp10))
    ensures fresh({numerator, denominator, lower, upper})
    ensures numerator.exp == lower.exp == 0
  {
    SignificandFits(f, closer);
    var significand: Word := f * Pow(2, Shift(closer));
    numerator := new Bigint(significand);
    denominator := new Bigint(0);
    denominator.AssignPow10(exp10);
    denominator.ShiftLeft(Shift(closer) - e);
    lower := new Bigint(1);
    upper := lower;
    if closer {
      upper := new Bigint(2);
    }
  }

  lemma SignificandFits(f: nat, closer: bool)
    requires 0 < f < 0x20_0000_0000_0000
    ensures 0 < f * Pow(2, Shift(closer)) < 0x1_0000_0000_0000_0000
  {
    assert Pow(2, 1) == 2 && Pow(2, 2) == 4;
  }

  /**
   What the caller has to estimate: a decimal exponent that bounds the value and its upper boundary. With a nonnegative
   exponent and a closer predecessor the set-up stands for twice the value.
   */
  predicate Estimated(f: nat, e: int, closer: bool, exp10: int)
    requires f > 0 && (e >= 0 ==> exp10 >= 0)
  {
    var s := Setup(f, e, closer, exp10);
    Below(s.n, if e >= 0 && closer then 2 * s.d else s.d, s.u, f % 2 == 0)
  }

  function Digits(f: nat, e: int, closer: bool, exp10: int): seq<nat>
    requires f > 0 && (e >= 0 ==> exp10 >= 0)
  {
    var s := Setup(f, e, closer, exp10);
    Generate(s.n, s.d, s.l, s.u, f % 2 == 0, MissesTie(e, exp10), false)
  }

  /** The characters at the distance of each digit from '0': past nine they are no digits. */
  predicate Shows(buf: seq<char>, ds: seq<nat>) {
    |buf| == |ds| && forall i :: 0 <= i < |ds| ==> buf[i] as int == '0' as int + ds[i]
  }

  /** fallback_format for the value f * 2^e; closer is what fp.assign reports about the predecessor. */
  method FallbackFormat(f: nat, e: int, closer: bool, exp10: int) returns (buf: seq<char>, newExp10: int)
    requires 0 < f < 0x20_0000_0000_0000 && (e >= 0 ==> exp10 >= 0) && -0x4000_0000 < exp10 < 0x4000_0000
    requires Estimated(f, e, closer, exp10)
    ensures Shows(buf, Digits(f, e, closer, exp10)) && newExp10 == exp10 - (|buf| - 1)
  {
    var numerator, denominator, lower, upper;
    if e >= 0 {
      numerator, denominator, lower, upper := SetUpLarge(f, e, closer, exp10);
      NeverEqual(f, e, closer, exp10);
    } else if exp10 < 0 {
      numerator, denominator, lower, upper := SetUpSmall(f, e, closer, exp10);
      SmallLower(f, e, closer, exp10);
    } else {
      numerator, denominator, lower, upper := SetUpMiddle(f, e, closer, exp10);
    }
    var s := Setup(f, e, closer, exp10);
    DigitsBounded(s.n, s.d, s.l, s.u, f % 2 == 0, MissesTie(e, exp10));
    ReachesItself(s.n);
    var digits := GenerateDigits(numerator, denominator, lower, upper, f % 2 == 0, s, Digits(f, e, closer, exp10));
    buf := Characters(digits);
    newExp10 := exp10 - (|digits| - 1);
  }

  /** What the digits are written as. */
  method Characters(digits: seq<nat>) returns (buf: seq<char>)
    requires Bounded(digits)
    ensures Shows(buf, digits)
  {
    buf := [];
    for i := 0 to |digits|
      invariant |buf| == i
      invariant forall k :: 0 <= k < i ==> buf[k] as int == '0' as int + digits[k]
    {
      buf := buf + [('0' as int + digits[i]) as char];
    }
  }

  lemma {:induction false} Pow5Odd(n: nat)
    ensures Pow(5, n) % 2 == 1
  {
    if n > 0 {
      Pow5Odd(n - 1);
      OddProduct(Pow(5, n - 1));
    }
  }

  lemma OddProduct(x: nat)
    requires x % 2 == 1
    ensures (5 * x) % 2 == 1
  {
  }

  /** A number with a larger whole-bigit exponent never becomes the denominator: five to a power is odd. */
  lemma NeverEqual(f: nat, e: int, closer: bool, exp10: int)
    requires f > 0 && e >= 0 && exp10 >= 0
    ensures e / 32 > exp10 / 32 ==> var s := Setup(f, e, closer, exp10); !Reaches(s.n, s.d)
  {
    if e / 32 > exp10 / 32 {
      forall j: nat ensures Pow(10, j) * Setup(f, e, closer, exp10).n != Setup(f, e, closer, exp10).d {
        DiffersAt(f, e, closer, exp10, Pow(10, j));
      }
    }
  }

  lemma DiffersAt(f: nat, e: nat, closer: bool, exp10: nat, x: nat)
    requires e > exp10
    ensures x * (Pow(2, e) * (f * Pow(2, Shift(closer)))) != 2 * Pow(10, exp10)
  {
    PowAdd(2, exp10 + 1, e - exp10 - 1);
    PowProduct(2, 5, exp10);
    Pow5Odd(exp10);
    var p, rest := Pow(2, exp10), Pow(2, e - exp10 - 1);
    assert Pow(2, exp10 + 1) == 2 * p;
    var g := f * Pow(2, Shift(closer) - 1);
    assert f * Pow(2, Shift(closer)) == 2 * g;
    EvenFactor(x, p, rest, g, Pow(5, exp10));
  }

  /** x * (2p * rest) * 2g == 2 * (p * odd) cannot be. */
  lemma EvenFactor(x: nat, p: nat, rest: nat, g: nat, odd: nat)
    requires p > 0 && odd % 2 == 1
    ensures x * (((2 * p) * rest) * (2 * g)) != 2 * (p * odd)
  {
    var y := x * (rest * (2 * g));
    calc {
      x * (((2 * p) * rest) * (2 * g));
      { MulAssoc(2 * p, rest, 2 * g); MulSwap(x, 2 * p, rest * (2 * g)); MulAssoc(2, p, y); }
      2 * (p * y);
    }
    calc {
      y;
      { MulSwap(rest, 2, g); MulSwap(x, 2, rest * g); }
      2 * (x * (rest * g));
    }
    if p * y == p * odd {
      MulCancel(y, odd, p);
    }
  }

  lemma {:induction false} Pow8Below(k: nat)
    ensures Pow(2, 3 * k) <= Pow(10, k)
  {
    if k > 0 {
      Pow8Below(k - 1);
      assert Pow(2, 3 * k) == 2 * Pow(2, 3 * k - 1) == 4 * Pow(2, 3 * k - 2) == 8 * Pow(2, 3 * k - 3);
    }
  }

  /** With a good estimate the power of ten in lower is shorter than the power of two in the denominator. */
  lemma SmallLower(f: nat, e: int, closer: bool, exp10: int)
    requires f > 0 && e < 0 && exp10 < 0 && Estimated(f, e, closer, exp10)
    ensures -exp10 / 32 <= (Shift(closer) - e) / 32
  {
    var k, m := -exp10, Shift(closer) - e;
    Pow8Below(k - 1);
    assert Pow(10, k) == 10 * Pow(10, k - 1);
    SignificandAtLeast(f, closer);
    MulMonotone(2, f * Pow(2, Shift(closer)), Pow(10, k));
    assert Pow(2, 3 * (k - 1) + 1) == 2 * Pow(2, 3 * (k - 1));
    if m < 3 * (k - 1) + 1 {
      PowMonotone(2, m, 3 * (k - 1) + 1);
      assert false;
    }
  }

  lemma SignificandAtLeast(f: nat, closer: bool)
    requires f > 0
    ensures f * Pow(2, Shift(closer)) >= 2
  {
    assert Pow(2, 1) == 2 && Pow(2, 2) == 4;
  }
}
