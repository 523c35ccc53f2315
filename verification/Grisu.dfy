/** Fixed-precision Grisu: grisu_gen_digits with fixed_handler, in 64-bit arithmetic. */
module Grisu {
  import opened Powers
  import opened DecimalText

  type Word = x: int | 0 <= x < 0x1_0000_0000_0000_0000

  datatype RoundDirection = Unknown | Up | Down

  datatype GenResult = More | Done | Error

  /** get_round_direction; every intermediate value is a 64-bit word. */
  function GetRoundDirection(divisor: Word, remainder: Word, error: Word): RoundDirection
    requires remainder < divisor && error < divisor && error < divisor - error
  {
    var twice: Word := error * 2;
    if remainder <= divisor - remainder && twice <= divisor - remainder * 2 then Down
    else if remainder >= error && remainder - error >= divisor - (remainder - error) then Up
    else Unknown
  }

  /** x lies within the error of a number. */
  ghost predicate Near(x: real, center: int, error: int) {
    center as real - error as real <= x <= center as real + error as real
  }

  /** A direction is given exactly when every value within the error rounds that way. */
  lemma RoundDirectionIff(divisor: Word, remainder: Word, error: Word)
    requires remainder < divisor && error < divisor && error < divisor - error
    ensures GetRoundDirection(divisor, remainder, error) == Down
            <==> forall x: real :: Near(x, remainder, error) ==> 2.0 * x <= divisor as real
    ensures GetRoundDirection(divisor, remainder, error) == Up
            <==> (forall x: real :: Near(x, remainder, error) ==> 2.0 * x >= divisor as real)
                 && GetRoundDirection(divisor, remainder, error) != Down
  {
    assert Near(remainder as real + error as real, remainder, error);
    assert Near(remainder as real - error as real, remainder, error);
    assert (2 * (remainder + error)) as real == 2.0 * (remainder as real + error as real);
    assert (2 * (remainder - error)) as real == 2.0 * (remainder as real - error as real);
  }

  /** out is p or p + 1, whichever every value within k of the remainder rest of u rounds to. */
  ghost predicate RoundedTo(u: int, rest: int, k: int, p: int, out: int) {
    (out == p && 2 * (rest + k) <= u) || (out == p + 1 && 2 * (rest - k) >= u)
  }

  /** Values within k of the remainder rest of u span less than u and all round the same way. */
  predicate Settled(u: int, rest: int, k: int) {
    2 * k < u && (2 * (rest + k) <= u || 2 * (rest - k) >= u)
  }

  /** count digits were asked for; rounding up to a power of ten takes one more. */
  predicate Filled(size: int, count: nat, number: int) {
    size == if number == Pow(10, count) then count + 1 else count
  }

  class FixedHandler {
    const buf: array<char>
    var size: nat
    var precision: int
    const exp10: int
    const fixed: bool

    ghost predicate Valid()
      reads this, buf
    {
      size <= buf.Length && AllDigits(buf[..size])
    }

    ghost function Printed(): int
      reads this, buf
      requires size <= buf.Length
    {
      Number(buf[..size])
    }

    constructor (buffer: array<char>, precision: int, exp10: int, fixed: bool)
      ensures buf == buffer && size == 0 && this.precision == precision && this.exp10 == exp10 && this.fixed == fixed
      ensures Valid()
    {
      buf, size, this.precision, this.exp10, this.fixed := buffer, 0, precision, exp10, fixed;
    }

    /** on_start: fixed formats turn the precision into a digit count, which may be met without any digit. */
    method OnStart(divisor: Word, remainder: Word, error: Word, exp: int) returns (result: GenResult)
      requires Valid() && size == 0 && buf.Length > 0
      requires remainder < divisor && error < divisor && error < divisor - error
      modifies this, buf
      ensures Valid()
      ensures precision == old(precision) + if fixed then exp + exp10 else 0
      ensures result == More <==> !fixed || precision > 0
      ensures result == Error <==> fixed && precision == 0 && !Settled(divisor, remainder, error)
      ensures size == if result == Done && precision == 0 then 1 else 0
      ensures result == Done && precision == 0 ==> RoundedTo(divisor, remainder, error, 0, Printed())
    {
      if !fixed {
        return More;
      }
      precision := precision + exp + exp10;
      if precision > 0 {
        return More;
      }
      if precision < 0 {
        return Done;
      }
      var dir := GetRoundDirection(divisor, remainder, error);
      if dir == Unknown {
        return Error;
      }
      buf[size] := if dir == Up then '1' else '0';
      size := size + 1;
      assert buf[..0] == [];
      NumberAppend([], buf[0]);
      assert buf[..1] == [] + [buf[0]];
      return Done;
    }

    /** on_digit: append a digit; at the last one round, with the carry rippling up. */
    method OnDigit(digit: char, divisor: Word, remainder: Word, error: Word, integral: bool) returns (result: GenResult)
      requires Valid() && size + 1 < buf.Length && '0' <= digit <= '9'
      requires remainder < divisor && (integral ==> error == 1 && divisor > 2)
      modifies this`size, buf
      ensures Valid()
      ensures var p := 10 * old(Printed()) + (digit as int - '0' as int);
              && (result == More <==> old(size) + 1 < precision)
              && (result == More ==> size == old(size) + 1 && Printed() == p)
              && (result == Done ==>
                    && Settled(divisor, remainder, error)
                    && Filled(size, old(size) + 1, Printed())
                    && RoundedTo(divisor, remainder, error, p, Printed()))
              && (result == Error ==> !Settled(divisor, remainder, error))
    {
      assert buf[..size] == old(buf[..size]);
      buf[size] := digit;
      size := size + 1;
      assert buf[..size] == old(buf[..size]) + [digit];
      NumberAppend(old(buf[..size]), digit);
      if size < precision {
        return More;
      }
      if !integral {
        if error >= divisor || error >= divisor - error {
          return Error;
        }
      }
      var dir := GetRoundDirection(divisor, remainder, error);
      if dir != Up {
        NumberBounds(buf[..size]);
        return if dir == Down then Done else Error;
      }
      Increment();
      return Done;
    }

    /** The carry ripple: exactly one unit in the last place, and one more digit if every digit was 9. */
    method Increment()
      requires Valid() && 0 < size < buf.Length
      modifies this`size, buf
      ensures Valid() && Printed() == old(Printed()) + 1
      ensures Filled(size, old(size), Printed())
    {
      ghost var before := buf[..size];
      NumberUpdate(before, size - 1, (buf[size - 1] as int + 1) as char);
      buf[size - 1] := (buf[size - 1] as int + 1) as char;
      assert buf[..size] == before[size - 1 := buf[size - 1]];
      var i := size - 1;
      while i > 0 && buf[i] > '9'
        invariant size == old(size) && 0 <= i < size && Rippling(buf[..size], i)
        invariant Number(buf[..size]) == Number(before) + 1
      {
        ghost var s := buf[..size];
        RippleStep(s, i);
        buf[i] := '0';
        buf[i - 1] := (buf[i - 1] as int + 1) as char;
        assert buf[..size] == s[i := '0'][i - 1 := (s[i - 1] as int + 1) as char];
        i := i - 1;
      }
      if buf[0] > '9' {
        ghost var s := buf[..size];
        CarryOut(s);
        buf[0] := '1';
        buf[size] := '0';
        size := size + 1;
        assert buf[..size] == s[0 := '1'] + ['0'];
      } else {
        NumberBounds(buf[..size]);
      }
    }
  }

  /** The number of decimal digits of an unsigned 32-bit number. */
  function GrisuCountDigits(n: nat): (count: int)
    requires 0 < n < 0x1_0000_0000
    ensures 1 <= count <= 10
    ensures Pow(10, count - 1) <= n < Pow(10, count)
  {
    PowersOfTen();
    if n < 10 then 1
    else if n < 100 then 2
    else if n < 1000 then 3
    else if n < 10000 then 4
    else if n < 100000 then 5
    else if n < 1000000 then 6
    else if n < 10000000 then 7
    else if n < 100000000 then 8
    else if n < 1000000000 then 9
    else 10
  }

  lemma PowersOfTen()
    ensures Pow(10, 0) == 1 && Pow(10, 1) == 10 && Pow(10, 2) == 100 && Pow(10, 3) == 1000
    ensures Pow(10, 4) == 10000 && Pow(10, 5) == 100000 && Pow(10, 6) == 1000000 && Pow(10, 7) == 10000000
    ensures Pow(10, 8) == 100000000 && Pow(10, 9) == 1000000000 && Pow(10, 10) == 10000000000
  {
    assert Pow(10, 4) == 10 * Pow(10, 3);
    assert Pow(10, 7) == 10 * Pow(10, 6);
  }

  /** The last place: 10^exp in units of 2^-s, and the factor that keeps it whole after the decimal point. */
  function Unit(exp: int, s: nat): nat {
    if exp >= 0 then Pow(10, exp) * Pow(2, s) else Pow(2, s)
  }

  function Magnification(exp: int): nat {
    if exp >= 0 then 1 else Pow(10, -exp)
  }

  /** The digits p printed so far, the last at place exp, and what is still to print make up f. */
  ghost predicate Generated(f: nat, s: nat, p: int, exp: int, rest: int) {
    f * Magnification(exp) == p * Unit(exp, s) + rest
  }

  ghost predicate HalfUnit(y: real, shown: real, unit: real) {
    -unit <= 2.0 * (y - shown) <= unit
  }

  /** out units of u are at most half a unit from k * x, for every x within one of f. */
  ghost predicate RoundsAll(out: int, u: nat, k: nat, f: nat) {
    forall x: real :: Near(x, f, 1) ==> HalfUnit(x * k as real, (out * u) as real, u as real)
  }

  /** out, its last digit at place exp, is a correct rounding of every real within one unit of f. */
  ghost predicate CorrectlyRounded(out: int, exp: int, s: nat, f: nat) {
    RoundsAll(out, Unit(exp, s), Magnification(exp), f)
  }

  lemma {:induction false} ProductAsReal(a: nat, b: nat)
    ensures (a * b) as real == a as real * b as real
  {
    if a > 0 {
      ProductAsReal(a - 1, b);
      Distribute(a - 1, 1, b);
      DistributeReal((a - 1) as real, 1.0, b as real);
    }
  }

  lemma DistributeReal(x: real, y: real, p: real)
    ensures (x + y) * p == x * p + y * p
  {
  }

  lemma RealMonotone(x: real, y: real, k: real)
    requires k >= 0.0 && x <= y
    ensures x * k <= y * k
  {
    NonnegativeProduct(y - x, k);
  }

  lemma NonnegativeProduct(x: real, k: real)
    requires x >= 0.0 && k >= 0.0
    ensures x * k >= 0.0
  {
  }

  lemma ScaleNear(x: real, f: real, k: real, y: real, center: real)
    requires k >= 0.0 && f - 1.0 <= x <= f + 1.0 && y == x * k && center == f * k
    ensures center - k <= y <= center + k
  {
    ScaledAtMost(x, f + 1.0, k, y, center + k);
    ScaledAtMost(f - 1.0, x, k, center - k, y);
  }

  lemma ScaledAtMost(x: real, z: real, k: real, xk: real, zk: real)
    requires k >= 0.0 && x <= z && xk == x * k && zk == z * k
    ensures xk <= zk
  {
    RealMonotone(x, z, k);
  }

  /** Rounding on y within k of p * u + rest, as the direction found allows. */
  lemma RoundedReal(y: real, p: nat, u: nat, rest: nat, k: nat, out: int)
    requires rest < u && 2 * k <= u && RoundedTo(u, rest, k, p, out)
    requires Near(y, p * u + rest, k)
    ensures HalfUnit(y, (out * u) as real, u as real)
  {
    Distribute(p, 1, u);
    RoundedInDirection(y, p * u, u, rest, k, out == p);
  }

  lemma RoundedInDirection(y: real, shown: int, u: nat, rest: nat, k: nat, down: bool)
    requires rest < u && 2 * k <= u && (if down then 2 * (rest + k) <= u else 2 * (rest - k) >= u)
    requires Near(y, shown + rest, k)
    ensures HalfUnit(y, (if down then shown else shown + u) as real, u as real)
  {
  }

  /** When the handler reports a rounding, it is right for every real within one unit of f. */
  lemma RoundingIsCorrect(f: nat, p: nat, u: nat, rest: nat, k: nat, out: int)
    requires f * k == p * u + rest
    requires rest < u && 2 * k <= u && RoundedTo(u, rest, k, p, out)
    ensures RoundsAll(out, u, k, f)
  {
    forall x: real | Near(x, f, 1)
      ensures HalfUnit(x * k as real, (out * u) as real, u as real)
    {
      NearScaled(x, f, k, p * u + rest);
      RoundedReal(x * k as real, p, u, rest, k, out);
    }
  }

  /** The handler's answer: digits p with remainder rest make up f, and out is p rounded as the error allows. */
  ghost predicate RoundedFrom(f: nat, s: nat, exp: int, p: nat, rest: nat, out: int) {
    && Generated(f, s, p, exp, rest)
    && rest < Unit(exp, s) && 2 * Magnification(exp) <= Unit(exp, s)
    && RoundedTo(Unit(exp, s), rest, Magnification(exp), p, out)
  }

  lemma RoundedDigitsAreCorrect(f: nat, s: nat, exp: int, p: nat, rest: nat, out: int)
    requires RoundedFrom(f, s, exp, p, rest, out)
    ensures CorrectlyRounded(out, exp, s, f)
    ensures Roundable(exp, s, f)
  {
    RoundingIsCorrect(f, p, Unit(exp, s), rest, Magnification(exp), out);
    assert CorrectlyRounded(out, exp, s, f);
  }

  /** Some number with its last digit at place exp is a correct rounding of every real within one unit of f. */
  ghost predicate Roundable(exp: int, s: nat, f: nat) {
    exists out: int :: CorrectlyRounded(out, exp, s, f)
  }

  lemma UnsettledMisses(f: nat, p: nat, u: nat, rest: nat, k: nat, out: int)
    requires f * k == p * u + rest && rest < u && 2 * k != u && !Settled(u, rest, k)
    ensures !RoundsAll(out, u, k, f)
  {
    if RoundsAll(out, u, k, f) {
      EndsRounded(f, u, k, p * u + rest, out);
      MissesEnd(p - out, u, rest, k);
      Distribute(p - out, out, u);
    }
  }

  /** The two ends of the interval around f * k are rounded to out as well. */
  lemma EndsRounded(f: nat, u: nat, k: nat, n: nat, out: int)
    requires f * k == n && RoundsAll(out, u, k, f)
    ensures 2 * (n + k - out * u) <= u && 2 * (n - k - out * u) + u >= 0
  {
    EndRounded(f, u, k, n, out, 1);
    EndRounded(f, u, k, n, out, -1);
  }

  lemma EndRounded(f: nat, u: nat, k: nat, n: nat, out: int, side: int)
    requires f * k == n && RoundsAll(out, u, k, f) && -1 <= side <= 1
    ensures HalfUnit((n + side * k) as real, (out * u) as real, u as real)
  {
    var x := f as real + side as real;
    assert Near(x, f, 1);
    assert HalfUnit(x * k as real, (out * u) as real, u as real);
    EndAsReal(f, k, n, side);
  }

  lemma EndAsReal(f: nat, k: nat, n: nat, side: int)
    requires f * k == n && -1 <= side <= 1
    ensures (f as real + side as real) * k as real == (n + side * k) as real
  {
    ProductAsReal(f, k);
    DistributeReal(f as real, side as real, k as real);
  }

  lemma MissesEnd(d: int, u: nat, rest: nat, k: nat)
    requires 2 * k != u && rest < u && !Settled(u, rest, k)
    ensures 2 * (d * u + rest + k) > u || 2 * (d * u + rest - k) + u < 0
  {
    if d >= 0 {
      MulMonotone(0, d, u);
    } else {
      MulMonotone(d, -1, u);
    }
  }

  /** Twice the error is never exactly one unit: a power of ten is divisible by five, a power of two is not. */
  lemma SpanIsNotUnit(exp: int, s: nat)
    requires s > 1
    ensures 2 * Magnification(exp) != Unit(exp, s)
  {
    PowMonotone(2, 2, s);
    assert Pow(2, 2) == 4;
    if exp >= 0 {
      PowMonotone(10, 0, exp);
      MulMonotone(1, Pow(10, exp), Pow(2, s));
    } else {
      PowerOfTwoModFive(s);
      assert Pow(10, -exp) == 10 * Pow(10, -exp - 1);
    }
  }

  /** When the direction is not settled, no number with its last digit at that place would have been right. */
  lemma UnsettledIsUnroundable(f: nat, s: nat, exp: int, p: nat, rest: nat)
    requires s > 1 && Generated(f, s, p, exp, rest) && rest < Unit(exp, s)
    requires !Settled(Unit(exp, s), rest, Magnification(exp))
    ensures !Roundable(exp, s, f)
  {
    SpanIsNotUnit(exp, s);
    forall out: int
      ensures !CorrectlyRounded(out, exp, s, f)
    {
      UnsettledMisses(f, p, Unit(exp, s), rest, Magnification(exp), out);
    }
  }

  /** The handler is done exactly when the place can be rounded, and then prints a correct rounding. */
  lemma AnswerIsRight(f: nat, s: nat, exp: int, p: nat, rest: nat, result: GenResult, out: int)
    requires s > 1 && Generated(f, s, p, exp, rest) && rest < Unit(exp, s)
    requires result == Done ==> Settled(Unit(exp, s), rest, Magnification(exp))
    requires result == Done ==> RoundedTo(Unit(exp, s), rest, Magnification(exp), p, out)
    requires result == Error ==> !Settled(Unit(exp, s), rest, Magnification(exp))
    ensures result == Done ==> CorrectlyRounded(out, exp, s, f) && Roundable(exp, s, f)
    ensures result == Error ==> !Roundable(exp, s, f)
  {
    if result == Done {
      RoundedDigitsAreCorrect(f, s, exp, p, rest, out);
    } else if result == Error {
      UnsettledIsUnroundable(f, s, exp, p, rest);
    }
  }

  lemma NearScaled(x: real, f: nat, k: nat, n: nat)
    requires f * k == n && Near(x, f, 1)
    ensures Near(x * k as real, n, k)
  {
    ProductIs(f, k, n);
    ScaleNear(x, f as real, k as real, x * k as real, n as real);
  }

  lemma ProductIs(a: nat, b: nat, n: nat)
    requires a * b == n
    ensures a as real * b as real == n as real
  {
    ProductAsReal(a, b);
  }

  lemma IntegralStep(f: Word, s: nat, p: int, exp: nat, integral: nat, fractional: nat, q: int, r: int, rest: int)
    requires Generated(f, s, p, exp + 1, integral * Pow(2, s) + fractional)
    requires integral < Pow(10, exp + 1) && fractional < Pow(2, s)
    requires q == integral / Pow(10, exp) && r == integral % Pow(10, exp) && rest == r * Pow(2, s) + fractional
    ensures 0 <= q < 10 && 0 <= r < Pow(10, exp)
    ensures Generated(f, s, 10 * p + q, exp, rest) && 0 <= rest < Unit(exp, s)
  {
    var t := Pow(10, exp);
    QuotientDigit(integral, t);
    NonnegativeSum(r, Pow(2, s), fractional);
    DigitOff(p, integral, q, r, t, Pow(2, s), fractional);
  }

  lemma NonnegativeSum(r: nat, w: nat, fractional: nat)
    ensures 0 <= r * w + fractional
  {
  }

  lemma DigitOff(p: int, integral: int, q: int, r: int, t: nat, w: nat, fractional: nat)
    requires integral == q * t + r && r < t && fractional < w
    ensures p * ((10 * t) * w) + (integral * w + fractional) == (10 * p + q) * (t * w) + (r * w + fractional)
    ensures r * w + fractional < t * w
  {
    MulAssoc(10, t, w);
    MulSwap(p, 10, t * w);
    MulAssoc(10, p, t * w);
    MulAssoc(q, t, w);
    Distribute(q * t, r, w);
    Distribute(10 * p, q, t * w);
    Distribute(r, 1, w);
    MulMonotone(r + 1, t, w);
  }

  lemma QuotientDigit(n: nat, t: nat)
    requires t > 0 && n < 10 * t
    ensures 0 <= n / t < 10
    ensures n == (n / t) * t + n % t && 0 <= n % t < t
  {
    assert n == (n / t) * t + n % t && 0 <= n % t < t;
    if n / t >= 10 {
      MulMonotone(10, n / t, t);
    }
  }

  lemma FractionStep(f: Word, s: nat, p: int, exp: int, fractional: nat)
    requires exp <= 0 && Generated(f, s, p, exp, fractional) && fractional < Pow(2, s)
    ensures var q, r := 10 * fractional / Pow(2, s), 10 * fractional % Pow(2, s);
            0 <= q < 10 && r < Pow(2, s) && Generated(f, s, 10 * p + q, exp - 1, r)
  {
    var w, k := Pow(2, s), Pow(10, -exp);
    QuotientDigit(10 * fractional, w);
    assert f * k == p * w + fractional;
    assert Pow(10, 1 - exp) == 10 * k;
    FractionOff(f, k, p, fractional, 10 * fractional / w, 10 * fractional % w, w);
  }

  lemma FractionOff(f: int, k: int, p: int, fractional: int, q: int, r: int, w: int)
    requires f * k == p * w + fractional && 10 * fractional == q * w + r
    ensures f * (10 * k) == (10 * p + q) * w + r
  {
    MulSwap(f, 10, k);
    MulAssoc(10, p, w);
    Distribute(10 * p, q, w);
  }

  /** The carried-over state of the digit loops: what is printed, what is left, and how many digits there are. */
  ghost predicate Generating(handler: FixedHandler, f: Word, s: nat, exp: int, rest: int, digits: int)
    reads handler, handler.buf
  {
    && handler.Valid() && handler.buf.Length >= 21
    && handler.size == digits - exp && handler.precision <= 19
    && (handler.size > 0 ==> handler.size < handler.precision)
    && handler.Printed() >= 0 && rest >= 0
    && Generated(f, s, handler.Printed(), exp, rest)
  }

  /** A handler stops after its precision, but never before the first digit. */
  function DigitCount(precision: int): nat {
    if precision < 1 then 1 else precision
  }

  /** The handler's answer to the digit at place exp, in either loop. */
  method GiveDigit(f: Word, s: nat, exp: int, digit: nat, divisor: Word, remainder: Word, error: Word, digits: int,
                   handler: FixedHandler)
    returns (result: GenResult)
    requires s > 1 && digit < 10 && remainder < divisor == Unit(exp, s) && error == Magnification(exp)
    requires handler.Valid() && handler.buf.Length >= 21 && handler.Printed() >= 0
    requires handler.size == digits - exp - 1 && handler.precision <= 19
    requires handler.size > 0 ==> handler.size < handler.precision
    requires Generated(f, s, 10 * handler.Printed() + digit, exp, remainder) && (exp >= 0 ==> divisor > 2)
    modifies handler`size, handler.buf
    ensures result == More ==> handler.size > 0 && Generating(handler, f, s, exp, remainder, digits)
    ensures result == Done ==> handler.Valid() && CorrectlyRounded(handler.Printed(), exp, s, f)
    ensures result == Done ==> Filled(handler.size, digits - exp, handler.Printed())
    ensures result != More ==> (result == Done <==> Roundable(exp, s, f))
    ensures result != More ==> digits - exp == DigitCount(handler.precision)
  {
    ghost var p := 10 * handler.Printed() + digit;
    result := handler.OnDigit(DigitChar(digit), divisor, remainder, error, exp >= 0);
    if result != More {
      AnswerIsRight(f, s, exp, p, remainder, result, handler.Printed());
    }
  }

  /** The digits of the integral part, at most ten. */
  method IntegralDigits(f: Word, s: nat, first: nat, digits: int, fractional: nat, handler: FixedHandler)
    returns (result: GenResult, exp: int)
    requires 32 <= s <= 60 && 1 <= digits <= 10 && Pow(10, digits - 1) <= first < Pow(10, digits)
    requires fractional < Pow(2, s) && f == first * Pow(2, s) + fractional
    requires handler.size == 0 && Generating(handler, f, s, digits, f, digits)
    modifies handler, handler.buf
    ensures handler.precision == old(handler.precision)
    ensures result == Done ==> handler.Valid() && CorrectlyRounded(handler.Printed(), exp, s, f)
    ensures result != More ==> (result == Done <==> Roundable(exp, s, f))
    ensures result != More ==> digits - exp == DigitCount(handler.precision)
    ensures result == Done ==> Filled(handler.size, digits - exp, handler.Printed())
    ensures result == More ==> exp == 0 && Generating(handler, f, s, 0, fractional, digits)
  {
    exp := digits;
    var integral := first;
    result := More;
    var one := Pow(2, s);
    while exp > 0
      invariant result == More && 0 <= exp <= digits && 0 <= integral < Pow(10, exp)
      invariant handler.precision == old(handler.precision)
      invariant Generating(handler, f, s, exp, integral * one + fractional, digits)
    {
      exp := exp - 1;
      DivisorFits(f, s, first, digits, exp);
      var divisor := Pow(10, exp);
      var digit, rest := integral / divisor, integral % divisor;
      var remainder, unit: Word := rest * one + fractional, Unit(exp, s);
      IntegralStep(f, s, handler.Printed(), exp, integral, fractional, digit, rest, remainder);
      integral := rest;
      result := GiveDigit(f, s, exp, digit, unit, remainder, 1, digits, handler);
      if result != More {
        return;
      }
    }
  }

  lemma DivisorFits(f: Word, s: nat, first: nat, digits: int, exp: nat)
    requires s >= 32 && 0 <= exp < digits && Pow(10, digits - 1) <= first && first * Pow(2, s) <= f
    ensures 2 < Unit(exp, s) <= f
  {
    PowMonotone(10, exp, digits - 1);
    PowMonotone(2, 2, s);
    assert Pow(2, 2) == 4;
    MulMonotone(Pow(10, exp), first, Pow(2, s));
    MulMonotone(1, Pow(10, exp), Pow(2, s));
  }

  lemma WordsFit(s: nat, m: nat)
    requires 32 <= s <= 60 && m <= 18
    ensures 0x1_0000_0000 <= Pow(2, s) <= 0x1000_0000_0000_0000
    ensures Pow(10, m) <= 1000000000000000000
  {
    PowMonotone(2, s, 60);
    PowMonotone(2, 32, s);
    PowMonotone(10, m, 18);
    LargePowers();
  }

  lemma LargePowers()
    ensures Pow(2, 32) == 0x1_0000_0000 && Pow(2, 60) == 0x1000_0000_0000_0000 && Pow(10, 18) == 1000000000000000000
  {
    PowAdd(2, 8, 8);
    PowAdd(2, 16, 16);
    PowAdd(2, 8, 4);
    PowAdd(2, 16, 12);
    PowAdd(2, 32, 28);
    PowAdd(10, 9, 9);
    PowersOfTen();
    assert Pow(2, 8) == 256 && Pow(2, 4) == 16;
  }

  /** The digits after the decimal point, with the error growing tenfold a digit. */
  method FractionalDigits(f: Word, s: nat, digits: int, start: nat, handler: FixedHandler)
    returns (result: GenResult, exp: int)
    requires 32 <= s <= 60 && 1 <= digits && start < Pow(2, s)
    requires handler.size > 0 && Generating(handler, f, s, 0, start, digits)
    modifies handler, handler.buf
    ensures result != More && handler.precision == old(handler.precision)
    ensures result == Done ==> handler.Valid() && CorrectlyRounded(handler.Printed(), exp, s, f)
    ensures result != More ==> (result == Done <==> Roundable(exp, s, f))
    ensures digits - exp == DigitCount(handler.precision)
    ensures result == Done ==> Filled(handler.size, digits - exp, handler.Printed())
  {
    exp := 0;
    var fractional, error: Word := start, 1;
    while true
      invariant exp <= 0 && 0 <= fractional < Pow(2, s) && error == Pow(10, -exp)
      invariant handler.precision == old(handler.precision)
      invariant handler.size > 0 && Generating(handler, f, s, exp, fractional, digits)
      decreases handler.precision - handler.size
    {
      WordsFit(s, 1 - exp);
      FractionStep(f, s, handler.Printed(), exp, fractional);
      var scaled: Word := fractional * 10;
      error := error * 10;
      var digit := scaled / Pow(2, s);
      fractional := scaled % Pow(2, s);
      exp := exp - 1;
      result := GiveDigit(f, s, exp, digit, Pow(2, s), fractional, error, digits, handler);
      if result != More {
        return;
      }
    }
  }

  /** The digit count a handler works to: a fixed format counts its precision from the decimal point. */
  function Wanted(precision: int, fixed: bool, digits: int, exp10: int): int {
    precision + if fixed then digits + exp10 else 0
  }

  /**
   grisu_gen_digits for the value f * 2^-s with an error of one unit. With digits to print it is done exactly when
   some number with its last digit at place exp is a correct rounding of every real within that error, and then the
   buffer holds one. In a fixed format that place is precision places after the decimal point of the value times
   10^exp10. A fixed precision that leading zeros already meet gives no digits, or one digit at place exp if the value
   scaled down by ten settles it; it does not only within 110 units of the tie.
   */
  method GrisuGenDigits(f: Word, s: nat, handler: FixedHandler) returns (result: GenResult, exp: int)
    requires 32 <= s <= 60 && f >= Pow(2, s)
    requires handler.Valid() && handler.size == 0 && handler.buf.Length >= 21
    requires handler.fixed ==> Wanted(handler.precision, true, GrisuCountDigits(Integral(f, s)), handler.exp10) <= 19
    requires !handler.fixed ==> handler.precision <= 17
    modifies handler, handler.buf
    ensures result != More && (result == Done ==> handler.Valid())
    ensures var digits := GrisuCountDigits(Integral(f, s));
            var wanted := Wanted(old(handler.precision), handler.fixed, digits, handler.exp10);
            if handler.fixed && wanted <= 0 then
              && exp == digits && (wanted == 0 ==> exp + handler.exp10 == -old(handler.precision))
              && (wanted < 0 ==> result == Done && handler.size == 0 && CorrectlyRounded(0, exp + 1, s, f))
              && (wanted == 0 && result == Done ==> handler.size == 1 && CorrectlyRounded(handler.Printed(), exp, s, f))
              && (wanted == 0 ==> (result == Done <==> Settled(Unit(digits - 1, s), f / 10, 10)))
              && (wanted == 0 && result == Error ==> -220 < 2 * f - Unit(exp, s) < 220)
            else
              && exp == digits - DigitCount(wanted)
              && (handler.fixed ==> exp + handler.exp10 == -old(handler.precision))
              && (result == Done <==> Roundable(exp, s, f))
              && (result == Done ==> Filled(handler.size, DigitCount(wanted), handler.Printed()))
              && (result == Done ==> CorrectlyRounded(handler.Printed(), exp, s, f))
  {
    IntegralIs(f, s);
    var integral := Integral(f, s);
    var fractional := f % Pow(2, s);
    var digits := GrisuCountDigits(integral);
    exp := digits;
    StartFits(f, s, integral, digits);
    result := handler.OnStart(Unit(digits - 1, s), f / 10, 10, digits);
    if result == Done {
      StartRounded(f, s, digits, handler.precision, if handler.size == 0 then 0 else handler.Printed());
    } else if result == Error {
      StartUnsettled(f, s, digits);
    }
    if result != More {
      return;
    }
    assert handler.Printed() == 0 by { assert handler.buf[..0] == []; }
    result, exp := IntegralDigits(f, s, integral, digits, fractional, handler);
    if result != More {
      return;
    }
    result, exp := FractionalDigits(f, s, digits, fractional, handler);
  }

  function Integral(f: Word, s: nat): (integral: nat)
    requires 32 <= s <= 60 && f >= Pow(2, s)
    ensures 0 < integral < 0x1_0000_0000
  {
    IntegralIs(f, s);
    f / Pow(2, s)
  }

  lemma IntegralIs(f: Word, s: nat)
    requires 32 <= s <= 60 && f >= Pow(2, s)
    ensures 0 < f / Pow(2, s) < 0x1_0000_0000
    ensures f == (f / Pow(2, s)) * Pow(2, s) + f % Pow(2, s) && 0 <= f % Pow(2, s) < Pow(2, s)
  {
    WordsFit(s, 0);
    MulMonotone(0x1_0000_0000, Pow(2, s), 0x1_0000_0000);
    QuotientRange(f, Pow(2, s), 0x1_0000_0000);
  }

  lemma QuotientRange(n: nat, w: nat, bound: nat)
    requires 0 < w <= n < bound * w
    ensures 0 < n / w < bound
    ensures n == (n / w) * w + n % w && 0 <= n % w < w
  {
    QuotientSum(n, w);
    if n / w <= 0 {
      MulMonotone(n / w, 0, w);
    } else if n / w >= bound {
      MulMonotone(bound, n / w, w);
    }
  }

  lemma QuotientSum(n: nat, w: nat)
    requires w > 0
    ensures n == (n / w) * w + n % w && 0 <= n % w < w
  {
  }

  /** on_start's arguments fit, scaled down by ten to prevent overflow. */
  lemma StartFits(f: Word, s: nat, integral: nat, digits: nat)
    requires 32 <= s <= 60 && 1 <= digits && Pow(10, digits - 1) <= integral < Pow(10, digits)
    requires f == integral * Pow(2, s) + f % Pow(2, s) && 0 <= f % Pow(2, s) < Pow(2, s)
    ensures 20 < Unit(digits - 1, s) <= f < 10 * Unit(digits - 1, s)
  {
    var t, w := Pow(10, digits - 1), Pow(2, s);
    WordsFit(s, 0);
    MulMonotone(t, integral, w);
    MulMonotone(integral + 1, 10 * t, w);
    Distribute(integral, 1, w);
    MulAssoc(10, t, w);
    MulMonotone(1, t, w);
  }

  /** A fixed precision met before the first digit: rounding one place up, or to nothing two places up. */
  lemma StartRounded(f: Word, s: nat, digits: nat, precision: int, out: int)
    requires 1 <= digits && 20 < Unit(digits - 1, s) <= f < 10 * Unit(digits - 1, s)
    requires precision <= 0
    requires if precision == 0 then RoundedTo(Unit(digits - 1, s), f / 10, 10, 0, out) else out == 0
    ensures CorrectlyRounded(out, if precision == 0 then digits else digits + 1, s, f)
  {
    var u, w := Unit(digits - 1, s), Pow(2, s);
    var place := if precision == 0 then digits else digits + 1;
    MulAssoc(10, Pow(10, digits - 1), w);
    MulAssoc(10, Pow(10, digits), w);
    assert Pow(10, digits + 1) == 10 * Pow(10, digits);
    assert Unit(digits, s) == 10 * u;
    assert Unit(digits + 1, s) == 100 * u;
    RoundedDigitsAreCorrect(f, s, place, 0, f, out);
  }

  lemma StartUnsettled(f: Word, s: nat, digits: nat)
    requires 1 <= digits && 20 < Unit(digits - 1, s)
    requires !Settled(Unit(digits - 1, s), f / 10, 10)
    ensures -220 < 2 * f - Unit(digits, s) < 220
  {
    MulAssoc(10, Pow(10, digits - 1), Pow(2, s));
    assert Unit(digits, s) == 10 * Unit(digits - 1, s);
  }
}
