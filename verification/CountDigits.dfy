/** The number of decimal digits, in fmt's three ways of counting them. */
module CountDigits {
  import opened Powers
  import opened DecimalText

  /** c is the number of decimal digits of n; zero has one. */
  predicate HasDigits(n: nat, c: nat) {
    c >= 1 && n < Pow(10, c) && (c > 1 ==> Pow(10, c - 1) <= n)
  }

  /** Only one number is, and it is how many digits are written. */
  lemma DigitsCounted(n: nat, c: nat)
    requires HasDigits(n, c)
    ensures c == |Digits(n)|
  {
    DigitsLength(n);
    var k := |Digits(n)|;
    if c < k {
      PowMonotone(10, c, k - 1);
    } else if k < c {
      PowMonotone(10, k, c - 1);
    }
  }

  lemma DivideByTenThousand(n: nat, c: nat)
    requires n >= 10000 && HasDigits(n / 10000, c)
    ensures HasDigits(n, c + 4)
  {
    assert Pow(10, 4) == 10000;
    PowAdd(10, 4, c);
    if c > 1 {
      PowAdd(10, 4, c - 1);
    }
    Scale(n, Pow(10, c), if c > 1 then Pow(10, c - 1) else 1);
  }

  lemma Scale(n: nat, above: nat, below: nat)
    requires below <= n / 10000 < above
    ensures 10000 * below <= n < 10000 * above
  {
  }

  /** The portable loop: four digits at a time. */
  method CountByLoop(value: nat) returns (count: nat)
    ensures HasDigits(value, count)
  {
    var n := value;
    count := 1;
    assert Pow(10, 1) == 10 && Pow(10, 2) == 100 && Pow(10, 3) == 1000 && Pow(10, 4) == 10000;
    while true
      invariant forall c :: HasDigits(n, c) ==> HasDigits(value, count - 1 + c)
      invariant count >= 1
      decreases n
    {
      if n < 10 { assert HasDigits(n, 1); return; }
      if n < 100 { assert HasDigits(n, 2); return count + 1; }
      if n < 1000 { assert HasDigits(n, 3); return count + 2; }
      if n < 10000 { assert HasDigits(n, 4); return count + 3; }
      forall c | HasDigits(n / 10000, c) ensures HasDigits(value, count + 4 - 1 + c) {
        DivideByTenThousand(n, c);
      }
      n, count := n / 10000, count + 4;
    }
  }

  // The form with a count of leading zeros.

  /** The number of binary digits: 64 minus the leading zeros of a nonzero 64-bit number. */
  function BitLength(n: nat): nat {
    if n == 0 then 0 else 1 + BitLength(n / 2)
  }

  lemma {:induction false} BitLengthBounds(n: nat)
    requires n > 0
    ensures BitLength(n) >= 1 && Pow(2, BitLength(n) - 1) <= n < Pow(2, BitLength(n))
  {
    if n > 1 {
      BitLengthBounds(n / 2);
    } else {
      assert BitLength(1) == 1 && Pow(2, 0) == 1 && Pow(2, 1) == 2;
    }
  }

  const ZERO_OR_POWERS_OF_10: seq<nat> := [
    0, 10, 100, 1000, 10000, 100000, 1000000, 10000000, 100000000, 1000000000, 10000000000, 100000000000, 1000000000000,
    10000000000000, 100000000000000, 1000000000000000, 10000000000000000, 100000000000000000, 1000000000000000000,
    10000000000000000000]

  function SetLowBit(n: nat): nat {
    if n % 2 == 0 then n + 1 else n
  }

  /** About log10 of two times the bit length: 1233 / 4096. */
  function Estimate(bits: nat): nat {
    bits * 1233 / 4096
  }

  /** count_digits with clz, for 64-bit values; a 32-bit value meets only the first ten entries of the table. */
  function CountByClz(n: nat): (c: int)
    requires n < 0x1_0000_0000_0000_0000
  {
    var t := Estimate(BitLength(SetLowBit(n)));
    ShortEnough(SetLowBit(n));
    t - (if n < ZERO_OR_POWERS_OF_10[t] then 1 else 0) + 1
  }

  lemma Pow2Of64()
    ensures Pow(2, 64) == 0x1_0000_0000_0000_0000
  {
    assert Pow(2, 4) == 16;
    PowAdd(2, 4, 4);
    PowAdd(2, 8, 8);
    PowAdd(2, 16, 16);
    PowAdd(2, 32, 32);
  }

  lemma ShortEnough(n: nat)
    requires 0 < n < 0x1_0000_0000_0000_0000
    ensures BitLength(n) <= 64 && Estimate(BitLength(n)) < |ZERO_OR_POWERS_OF_10|
  {
    BitLengthBounds(n);
    Pow2Of64();
    if BitLength(n) > 64 {
      PowMonotone(2, 64, BitLength(n) - 1);
    }
  }

  /** The estimate for a bit length is right or one too many, and the table entry decides. */
  predicate Good(bits: nat)
    requires bits > 0
  {
    var t := Estimate(bits);
    && Pow(2, bits) <= Pow(10, t + 1)
    && (t >= 1 ==>
          && t < |ZERO_OR_POWERS_OF_10| && ZERO_OR_POWERS_OF_10[t] == Pow(10, t)
          && Pow(10, t - 1) <= Pow(2, bits - 1))
  }

  /** The longest bit length with estimate t, and two to that power. */
  function High(t: nat): nat {
    (4096 * (t + 1) - 1) / 1233
  }

  const TWO_TO_HIGH: seq<nat> := [
    8, 64, 512, 8192, 65536, 524288, 8388608, 67108864, 536870912, 8589934592, 68719476736, 549755813888,
    8796093022208, 70368744177664, 562949953421312, 9007199254740992, 72057594037927936, 576460752303423488,
    9223372036854775808, 73786976294838206464]

  lemma HighStep(t: nat)
    requires 0 < t
    ensures High(t) == High(t - 1) + 3 || High(t) == High(t - 1) + 4
  {
  }

  lemma TwoStepLow(t: nat)
    requires 0 < t < 10
    ensures TWO_TO_HIGH[t] == (if High(t) == High(t - 1) + 3 then 8 else 16) * TWO_TO_HIGH[t - 1]
  {
    match t
    case 1 => case 2 => case 3 => case 4 => case 5 => case 6 => case 7 => case 8 => case 9 =>
  }

  lemma TwoStepHigh(t: nat)
    requires 10 <= t < 20
    ensures TWO_TO_HIGH[t] == (if High(t) == High(t - 1) + 3 then 8 else 16) * TWO_TO_HIGH[t - 1]
  {
    match t
    case 10 => case 11 => case 12 => case 13 => case 14 => case 15 => case 16 => case 17 => case 18 => case 19 =>
  }

  lemma TenStep(t: nat)
    requires 1 < t < 20
    ensures ZERO_OR_POWERS_OF_10[t] == 10 * ZERO_OR_POWERS_OF_10[t - 1]
  {
    match t
    case 2 => case 3 => case 4 => case 5 => case 6 => case 7 => case 8 => case 9 => case 10 => case 11 =>
    case 12 => case 13 => case 14 => case 15 => case 16 => case 17 => case 18 => case 19 =>
  }

  lemma TablesCompare(t: nat)
    requires t < 20
    ensures TWO_TO_HIGH[t] <= (if t == 0 then 10 else 10 * ZERO_OR_POWERS_OF_10[t])
    ensures ZERO_OR_POWERS_OF_10[t] <= TWO_TO_HIGH[t]
  {
    match t
    case 0 => case 1 => case 2 => case 3 => case 4 => case 5 => case 6 => case 7 => case 8 => case 9 =>
    case 10 => case 11 => case 12 => case 13 => case 14 => case 15 => case 16 => case 17 => case 18 =>
    case 19 =>
  }

  lemma {:induction false} TwosRight(t: nat)
    requires t < 20
    ensures Pow(2, High(t)) == TWO_TO_HIGH[t]
  {
    assert Pow(2, 3) == 8;
    if t > 0 {
      TwosRight(t - 1);
      if t < 10 {
        TwoStepLow(t);
      } else {
        TwoStepHigh(t);
      }
      TwoPowerStep(High(t - 1), High(t));
      HighStep(t);
    }
  }

  lemma TwoPowerStep(m: nat, n: nat)
    ensures n == m + 3 ==> Pow(2, n) == 8 * Pow(2, m)
    ensures n == m + 4 ==> Pow(2, n) == 16 * Pow(2, m)
  {
    assert Pow(2, m + 4) == 2 * Pow(2, m + 3) == 4 * Pow(2, m + 2) == 8 * Pow(2, m + 1) == 16 * Pow(2, m);
  }

  lemma {:induction false} TensRight(t: nat)
    requires 0 < t < 20
    ensures ZERO_OR_POWERS_OF_10[t] == Pow(10, t)
  {
    assert Pow(10, 1) == 10;
    if t > 1 {
      TensRight(t - 1);
      TenStep(t);
    }
  }

  lemma TablesRight(t: nat)
    requires t < 20
    ensures Pow(2, High(t)) == TWO_TO_HIGH[t]
    ensures t > 0 ==> ZERO_OR_POWERS_OF_10[t] == Pow(10, t)
  {
    TwosRight(t);
    if t > 0 {
      TensRight(t);
    }
  }

  lemma EstimateRange(bits: nat, t: nat)
    requires t == Estimate(bits)
    ensures bits <= High(t) && (t > 0 ==> High(t - 1) <= bits - 1)
  {
  }

  lemma NotTooShort(bits: nat, t: nat)
    requires t == Estimate(bits) && t < 20
    ensures Pow(2, bits) <= Pow(10, t + 1)
  {
    EstimateRange(bits, t);
    TablesRight(t);
    TablesCompare(t);
    PowMonotone(2, bits, High(t));
    assert Pow(10, t + 1) == 10 * Pow(10, t) && Pow(10, 0) == 1;
  }

  lemma NotTooLong(bits: nat, t: nat)
    requires t == Estimate(bits) && 0 < t < 20 && bits > 0
    ensures Pow(10, t - 1) <= Pow(2, bits - 1)
  {
    EstimateRange(bits, t);
    TablesRight(t - 1);
    TablesCompare(t - 1);
    PowMonotone(2, High(t - 1), bits - 1);
    assert Pow(10, 0) == 1;
  }

  lemma AllGood(bits: nat)
    requires 0 < bits <= 64
    ensures Good(bits)
  {
    var t := Estimate(bits);
    NotTooShort(bits, t);
    if t > 0 {
      NotTooLong(bits, t);
      TablesRight(t);
    }
  }

  /** Setting the low bit does not change the bounds a bit length gives. */
  lemma LowBitBounds(n: nat, half: nat, bits: nat)
    requires bits == BitLength(SetLowBit(n)) && half == Pow(2, bits - 1) && bits > 1
    ensures half <= n < 2 * half
  {
    BitLengthBounds(SetLowBit(n));
    assert Pow(2, bits) == 2 * half;
    assert half == 2 * Pow(2, bits - 2);
  }

  lemma TableDecides(n: nat, half: nat, bits: nat, t: nat)
    requires bits > 1 && half == Pow(2, bits - 1) && half <= n < 2 * half && Good(bits) && t == Estimate(bits)
    requires t < |ZERO_OR_POWERS_OF_10|
    ensures var c := t - (if n < ZERO_OR_POWERS_OF_10[t] then 1 else 0) + 1; c >= 1 && HasDigits(n, c)
  {
    assert Pow(2, bits) == 2 * half;
    assert Pow(10, 1) == 10 && Pow(10, 0) == 1;
  }

  /** The clz form counts the digits of every 64-bit value. */
  lemma ClzCounts(n: nat)
    requires n < 0x1_0000_0000_0000_0000
    ensures CountByClz(n) >= 1 && HasDigits(n, CountByClz(n))
  {
    var m := SetLowBit(n);
    var bits := BitLength(m);
    BitLengthBounds(m);
    ShortEnough(m);
    AllGood(bits);
    if bits > 1 {
      LowBitBounds(n, Pow(2, bits - 1), bits);
      TableDecides(n, Pow(2, bits - 1), bits, Estimate(bits));
    } else {
      assert Pow(2, 1) == 2 && Pow(10, 1) == 10;
    }
  }
}
