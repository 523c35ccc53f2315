/** The multi-precision integer of fmt: an array of 32-bit bigits with a word exponent. */
module BigintClass {
  import opened Limbs
  import opened LimbArithmetic
  import opened LimbOrder
  import opened Convolution
  import opened Subtraction
  import opened Powers

  /** The portable 128-bit accumulator: two words, the lower one wrapping around. */
  class Accumulator {
    var lower: Word
    var upper: Word

    function Sum(): nat
      reads this
    {
      lower + 0x1_0000_0000_0000_0000 * upper
    }

    constructor ()
      ensures Sum() == 0
    {
      lower, upper := 0, 0;
    }

    function LowBigit(): (b: Bigit)
      reads this
      ensures b == Sum() % 0x1_0000_0000
    {
      lower % 0x1_0000_0000
    }

    method Add(n: Word)
      requires Sum() + n < 0x1_0000_0000_0000_0000_0000_0000_0000_0000
      modifies this
      ensures Sum() == old(Sum()) + n
    {
      lower := (lower + n) % 0x1_0000_0000_0000_0000;
      if lower < n {
        upper := upper + 1;
      }
    }

    method ShiftRight32()
      modifies this
      ensures Sum() == old(Sum()) / 0x1_0000_0000
    {
      lower := (upper * 0x1_0000_0000) % 0x1_0000_0000_0000_0000 + lower / 0x1_0000_0000;
      upper := upper / 0x1_0000_0000;
    }
  }

  class Bigint {
    var bigits: seq<Bigit>
    var exp: nat

    ghost predicate Valid()
      reads this
    {
      Normal(bigits)
    }

    ghost function Value(): nat
      reads this
    {
      Val(bigits) * Base(exp)
    }

    function NumBigits(): nat
      reads this
    {
      |bigits| + exp
    }

    constructor (n: Word)
      ensures Valid() && Value() == n && exp == 0
    {
      bigits, exp := [], 0;
      new;
      Assign(n);
    }

    method Assign(n: Word)
      modifies this
      ensures Valid() && Value() == n && exp == 0
    {
      bigits, exp := [], 0;
      var rest := n;
      var more := true;
      while more
        invariant exp == 0
        invariant Val(bigits) + rest * Base(|bigits|) == n
        invariant more ==> (bigits != [] ==> rest > 0)
        invariant !more ==> rest == 0 && Normal(bigits)
        decreases more, rest
      {
        var digit := rest % 0x1_0000_0000;
        ValSnoc(bigits, digit);
        assert rest == digit + 0x1_0000_0000 * (rest / 0x1_0000_0000);
        CarryStep(1, n - rest * Base(|bigits|), Val(bigits), rest, 0, digit, rest / 0x1_0000_0000, Base(|bigits|));
        bigits := bigits + [digit];
        rest := rest / 0x1_0000_0000;
        more := rest != 0;
      }
    }

    method AssignFrom(other: Bigint)
      requires other.Valid()
      modifies this
      ensures Valid() && bigits == old(other.bigits) && exp == old(other.exp)
    {
      bigits, exp := other.bigits, other.exp;
    }

    /** multiply(uint32_t): each double_bigit stays below 2^64. */
    method Multiply32(value: Bigit)
      requires Valid() && value > 0
      modifies this
      ensures Valid() && Value() == value * old(Value()) && exp == old(exp)
    {
      ghost var was := bigits;
      var carry: Bigit := 0;
      ScaledStart(was, value);
      for i := 0 to |bigits|
        invariant exp == old(exp) && Scaled(was, bigits, i, value, carry)
      {
        ScaledCurrent(was, bigits, i, value, carry);
        ProductFits(bigits[i], value, carry);
        var result: Word := bigits[i] * value + carry;
        ScaledStep(was, bigits, i, value, carry, result % 0x1_0000_0000, result / 0x1_0000_0000);
        bigits := bigits[i := result % 0x1_0000_0000];
        carry := result / 0x1_0000_0000;
      }
      ScaledResult(was, bigits, value, carry);
      MulAssoc(value, Val(was), Base(exp));
      if carry != 0 {
        bigits := bigits + [carry];
      }
    }

    /** multiply(uint64_t): the two halves of value are multiplied in one pass. */
    method Multiply64(value: Word)
      requires Valid() && value > 0
      modifies this
      ensures Valid() && Value() == value * old(Value()) && exp == old(exp)
    {
      ghost var was := bigits;
      var lower: Bigit, upper: Bigit := value % 0x1_0000_0000, value / 0x1_0000_0000;
      var carry: Word := 0;
      ScaledStart(was, value);
      for i := 0 to |bigits|
        invariant exp == old(exp) && Scaled(was, bigits, i, value, carry)
      {
        ScaledCurrent(was, bigits, i, value, carry);
        ProductFits(bigits[i], lower, carry % 0x1_0000_0000);
        var result: Word := bigits[i] * lower + carry % 0x1_0000_0000;
        WideProductFits(bigits[i], upper, result / 0x1_0000_0000, carry / 0x1_0000_0000);
        var newCarry: Word := bigits[i] * upper + result / 0x1_0000_0000 + carry / 0x1_0000_0000;
        WideStep(bigits[i], value, carry, result, newCarry);
        ScaledStep(was, bigits, i, value, carry, result % 0x1_0000_0000, newCarry);
        bigits := bigits[i := result % 0x1_0000_0000];
        carry := newCarry;
      }
      ScaledEnd(was, bigits, value, carry);
      MulAssoc(value, Val(was), Base(exp));
      while carry != 0
        invariant exp == old(exp)
        invariant Val(bigits) + carry * Base(|bigits|) == value * Val(was)
        invariant carry == 0 ==> Normal(bigits)
      {
        PushBigit(bigits, carry);
        bigits := bigits + [carry % 0x1_0000_0000];
        carry := carry / 0x1_0000_0000;
      }
    }

    /** operator<<=: whole bigits go to the exponent, the rest is a carry pass. */
    method ShiftLeft(shift: nat)
      requires Valid()
      modifies this
      ensures Valid() && Value() == Pow(2, shift) * old(Value()) && exp == old(exp) + shift / 32
    {
      ghost var was := bigits;
      var part := shift % 32;
      exp := exp + shift / 32;
      if part == 0 {
        ShiftedValue(Val(was), old(exp), shift);
        return;
      }
      var carry: Bigit := 0;
      ScaledStart(was, Pow(2, part));
      for i := 0 to |bigits|
        invariant exp == old(exp) + shift / 32 && carry < Pow(2, part)
        invariant Scaled(was, bigits, i, Pow(2, part), carry)
      {
        ScaledCurrent(was, bigits, i, Pow(2, part), carry);
        ShiftBigit(bigits[i], part, carry);
        var c: Bigit := ShiftRight(bigits[i], 32 - part);
        var low: Bigit := ShiftLeftBigit(bigits[i], part) + carry;
        ScaledStep(was, bigits, i, Pow(2, part), carry, low, c);
        bigits := bigits[i := low];
        carry := c;
      }
      ShiftedResult(was, bigits, old(exp), shift, carry);
      if carry != 0 {
        bigits := bigits + [carry];
      }
    }

    method RemoveLeadingZeros()
      requires |bigits| > 0
      modifies this`bigits
      ensures Valid() && Val(bigits) == old(Val(bigits)) && |bigits| <= old(|bigits|)
    {
      ghost var was := bigits;
      var top := |bigits| - 1;
      assert bigits[..top + 1] == bigits;
      while top > 0 && bigits[top] == 0
        invariant 0 <= top < |bigits| && bigits == was
        invariant Val(bigits[..top + 1]) == Val(was)
      {
        ValPrefix(bigits, top);
        assert bigits[..top - 1 + 1] == bigits[..top];
        top := top - 1;
      }
      bigits := bigits[..top + 1];
    }

    /** square: both halves of the result column by column; the int column index bounds the length. */
    method Square()
      requires Valid() && |bigits| < 0x4000_0000
      modifies this
      ensures Valid() && Value() == old(Value()) * old(Value()) && exp == 2 * old(exp)
    {
      var n := bigits;
      var count := |n|;
      bigits := bigits + Zeros(count);
      var sum := new Accumulator();
      assert bigits[..0] == [];
      for k := 0 to count
        invariant exp == old(exp) && Squared(n, bigits, k, sum.Sum())
      {
        SquaredStep(n, bigits, k, sum.Sum());
        AddLowColumn(n, k, sum);
        bigits := bigits[k := sum.LowBigit()];
        sum.ShiftRight32();
      }
      for k := count to 2 * count
        invariant exp == old(exp) && Squared(n, bigits, k, sum.Sum())
      {
        SquaredStep(n, bigits, k, sum.Sum());
        AddHighColumn(n, k, sum);
        bigits := bigits[k := sum.LowBigit()];
        sum.ShiftRight32();
      }
      SquaredEnd(n, bigits, sum.Sum());
      SquareValue(Val(n), exp);
      RemoveLeadingZeros();
      exp := 2 * exp;
    }

    /** One bigit of a subtraction in wrapping 64-bit arithmetic; the sign bit is the borrow. */
    method SubtractBigits(index: nat, other: Bigit, borrow: Bigit) returns (next: Bigit)
      requires index < |bigits| && borrow <= 1
      modifies this`bigits
      ensures bigits == old(bigits)[index := Wrapped(old(bigits)[index] - other - borrow)]
      ensures next == if old(bigits)[index] < other + borrow then 1 else 0
    {
      var result: Word := (bigits[index] - other - borrow) % 0x1_0000_0000_0000_0000;
      bigits := bigits[index := result % 0x1_0000_0000];
      next := result / 0x8000_0000_0000_0000;
    }

    /** subtract_aligned: exact unless the borrow is due at a zero bigit, where the last loop stays on one index. */
    method SubtractAligned(other: Bigint)
      requires this != other && Valid() && other.Valid() && other.bigits != [0]
      requires exp <= other.exp && Value() >= other.Value()
      modifies this`bigits
      ensures Valid() && |bigits| <= old(|bigits|)
      ensures Value() == old(Value()) - other.Value() <==> !BorrowStuck(old(bigits), exp, other.bigits, other.exp)
    {
      CountCovers(bigits, exp, other.bigits, other.exp);
      var borrow := TakeBigits(other);
      SubtractEnd(old(bigits), bigits, exp, other.bigits, other.exp, borrow);
      SettleBorrow(other.exp - exp + |other.bigits|, borrow);
      RemoveLeadingZeros();
    }

    /** The loop of subtract_aligned over the bigits of other. */
    method TakeBigits(other: Bigint) returns (borrow: Bigit)
      requires this != other && exp <= other.exp && other.NumBigits() <= NumBigits()
      modifies this`bigits
      ensures Taken(old(bigits), bigits, other.exp - exp, other.bigits, |other.bigits|, borrow)
    {
      TakenStart(bigits, other.exp - exp, other.bigits);
      borrow := 0;
      var i := other.exp - exp;
      for j := 0 to |other.bigits|
        invariant i == other.exp - exp + j && Taken(old(bigits), bigits, other.exp - exp, other.bigits, j, borrow)
      {
        TakenStep(old(bigits), bigits, other.exp - exp, other.bigits, j, borrow);
        borrow := SubtractBigits(i, other.bigits[j], borrow);
        i := i + 1;
      }
    }

    /** The last loop of subtract_aligned, on the fixed index i. */
    method SettleBorrow(i: nat, due: Bigit)
      requires due <= 1 && (due == 1 ==> i < |bigits|)
      modifies this`bigits
      ensures bigits == Settled(old(bigits), i, due)
    {
      var borrow := due;
      while borrow > 0
        invariant BorrowLoop(old(bigits), bigits, i, due, borrow)
        decreases if borrow == 0 then 0 else if bigits == old(bigits) then 2 else 1
      {
        borrow := SubtractBigits(i, 0, borrow);
      }
    }

    /** The alignment step of divmod_assign: move the bigits up, bring in low zeros, lower the exponent. */
    method Align(difference: nat)
      requires Valid() && bigits != [0] && difference <= exp
      modifies this
      ensures bigits == Zeros(difference) + old(bigits) && exp == old(exp) - difference
      ensures Valid() && bigits != [0] && Value() == old(Value())
    {
      MoveUp(difference);
      bigits := Zeros(difference) + bigits[difference..];
      exp := exp - difference;
      PadValue(old(bigits), old(exp), difference);
    }

    /** Every bigit moved up, from the last one down. */
    method MoveUp(difference: nat)
      modifies `bigits
      ensures |bigits| == |old(bigits)| + difference && bigits[difference..] == old(bigits)
    {
      ghost var was := bigits;
      var count := |bigits|;
      bigits := bigits + Zeros(difference);
      var i, j: int := count - 1, count - 1 + difference;
      while i >= 0
        invariant -1 <= i < count && j == i + difference && |bigits| == count + difference
        invariant forall k :: 0 <= k <= i ==> bigits[k] == was[k]
        invariant forall k :: j < k < |bigits| ==> bigits[k] == was[k - difference]
      {
        bigits := bigits[j := bigits[i]];
        i, j := i - 1, j - 1;
      }
    }

    /** divmod_assign: repeated subtraction; the remainder is proper unless the divisor is this number padded. */
    method DivmodAssign(divisor: Bigint) returns (quotient: nat)
      requires this != divisor && Valid() && divisor.Valid() && divisor.bigits != [0]
      requires bigits == [0] ==> NumBigits() <= divisor.NumBigits()
      requires NumBigits() <= divisor.NumBigits() + 1
      modifies this
      ensures Valid()
      ensures quotient * divisor.Value() + Value() == old(Value())
      ensures Value() < divisor.Value() <==> !Padded(divisor.bigits, divisor.exp, old(bigits), old(exp))
      ensures quotient == 0 ==> bigits == old(bigits) && exp == old(exp)
      ensures quotient > 0 ==> exp == Min(old(exp), divisor.exp)
    {
      var c := Compare(this, divisor);
      CompareDecides(bigits, exp, divisor.bigits, divisor.exp, c);
      if Padded(divisor.bigits, divisor.exp, bigits, exp) {
        PaddedSame(divisor.bigits, divisor.exp, bigits, exp);
      }
      if c < 0 {
        return 0;
      }
      NumBound(divisor.bigits, divisor.exp);
      NumBound(bigits, exp);
      if exp > divisor.exp {
        Align(exp - divisor.exp);
      }
      quotient := SubtractRepeatedly(divisor);
    }

    /** The loop of divmod_assign, on an aligned number not below the divisor. */
    method SubtractRepeatedly(divisor: Bigint) returns (quotient: nat)
      requires this != divisor && Valid() && divisor.Valid() && divisor.bigits != [0]
      requires exp <= divisor.exp && Value() >= divisor.Value() && NumBigits() <= divisor.NumBigits() + 1
      modifies this`bigits
      ensures Valid() && quotient > 0
      ensures quotient * divisor.Value() + Value() == old(Value()) && Value() < divisor.Value()
    {
      quotient := 0;
      var again := true;
      while again
        invariant Valid() && NumBigits() <= divisor.NumBigits() + 1
        invariant again <==> Value() >= divisor.Value()
        invariant quotient * divisor.Value() + Value() == old(Value())
        invariant again || quotient > 0
        decreases again, Value()
      {
        NumBound(divisor.bigits, divisor.exp);
        NeverStuck(bigits, exp, divisor.bigits, divisor.exp);
        Distribute(quotient, 1, divisor.Value());
        SubtractAligned(divisor);
        quotient := quotient + 1;
        var c := Compare(this, divisor);
        CompareDecides(bigits, exp, divisor.bigits, divisor.exp, c);
        again := c >= 0;
      }
    }

    /** assign_pow10: 5^n by squaring along the bits of n, then a shift by n. The int bit mask needs n < 2^30. */
    method AssignPow10(n: nat)
      requires n < 0x4000_0000
      modifies this
      ensures Valid() && Value() == Pow(10, n) && exp == n / 32
    {
      if n == 0 {
        Assign(1);
        return;
      }
      var bitmask := TopBit(n);
      AssignPow5(n, bitmask);
      ShiftLeft(n);
      PowProduct(2, 5, n);
    }

    method AssignPow5(n: nat, topBit: nat)
      requires 0 < n < 0x4000_0000 && PowerOfTwo(topBit) && topBit <= n < 2 * topBit
      modifies this
      ensures Valid() && Value() == Pow(5, n) && exp == 0
    {
      Assign(5);
      var bitmask: nat := topBit / 2;
      ghost var m: nat := 1;
      assert n / topBit == 1 by { QuotientIs(n, topBit, 1, n - topBit); }
      while bitmask != 0
        invariant Valid() && exp == 0 && Value() == Pow(5, m)
        invariant m <= n && (bitmask == 0 ==> m == n)
        invariant bitmask != 0 ==> PowerOfTwo(bitmask) && m == n / (2 * bitmask)
      {
        HalveMask(n, bitmask);
        assert Base(0) == 1;
        PowerLength(bigits, m);
        PowAdd(5, m, m);
        Square();
        m := 2 * m;
        if HasBit(n, bitmask) {
          Multiply32(5);
          m := m + 1;
        }
        QuotientAtMost(n, bitmask);
        bitmask := bitmask / 2;
      }
    }
  }

  /** The top set bit of a positive n; the mask passes it once and stays below 2^31. */
  method TopBit(n: nat) returns (bitmask: nat)
    requires 0 < n < 0x4000_0000
    ensures PowerOfTwo(bitmask) && bitmask <= n < 2 * bitmask
  {
    bitmask := 1;
    while n >= bitmask
      invariant PowerOfTwo(bitmask) && bitmask <= 2 * n
      decreases 2 * n - bitmask
    {
      bitmask := bitmask * 2;
    }
    bitmask := bitmask / 2;
  }

  /** The inner loop of square for a column in the lower half. */
  method AddLowColumn(n: seq<Bigit>, k: nat, sum: Accumulator)
    requires k < |n| && sum.Sum() + Column(n, n, k) < 0x1_0000_0000_0000_0000_0000_0000_0000_0000
    modifies sum
    ensures sum.Sum() == old(sum.Sum()) + Column(n, n, k)
  {
    assert n[0..] == n;
    var i, j: int := 0, k;
    while j >= 0
      invariant 0 <= i <= |n| && i + j == k && -1 <= j
      invariant sum.Sum() + Column(n[i..], n, j) == old(sum.Sum()) + Column(n, n, k)
    {
      TakeTerm(n, n, i, j);
      ColumnBounds(n[i + 1..], n, j - 1);
      ProductFits(n[i], n[j], 0);
      var x: int, y: int := n[i], n[j];
      sum.Add(x * y);
      i, j := i + 1, j - 1;
    }
    ColumnBelowZero(n[i..], n, j);
  }

  /** The inner loop of square for a column in the upper half. */
  method AddHighColumn(n: seq<Bigit>, k: nat, sum: Accumulator)
    requires |n| <= k < 2 * |n| && sum.Sum() + Column(n, n, k) < 0x1_0000_0000_0000_0000_0000_0000_0000_0000
    modifies sum
    ensures sum.Sum() == old(sum.Sum()) + Column(n, n, k)
  {
    var j: int := |n| - 1;
    var i := k - j;
    SkipTerms(n, n, k, i);
    while i < |n|
      invariant 0 <= i <= |n| && i + j == k && j < |n|
      invariant sum.Sum() + Column(n[i..], n, j) == old(sum.Sum()) + Column(n, n, k)
    {
      TakeTerm(n, n, i, j);
      ColumnBounds(n[i + 1..], n, j - 1);
      ProductFits(n[i], n[j], 0);
      var x: int, y: int := n[i], n[j];
      sum.Add(x * y);
      i, j := i + 1, j - 1;
    }
  }

  /** compare: the exact sign exactly on Comparable operands. */
  method Compare(lhs: Bigint, rhs: Bigint) returns (c: int)
    requires lhs.Valid() && rhs.Valid()
    ensures CompareSpec(lhs.bigits, lhs.exp, rhs.bigits, rhs.exp, c)
  {
    if lhs.NumBigits() != rhs.NumBigits() {
      UnequalCounts(lhs.bigits, lhs.exp, rhs.bigits, rhs.exp, if lhs.NumBigits() > rhs.NumBigits() then 1 else -1);
      return if lhs.NumBigits() > rhs.NumBigits() then 1 else -1;
    }
    c := CompareAligned(lhs.bigits, lhs.exp, rhs.bigits, rhs.exp);
  }

  /** compare on operands that end at the same position. */
  method CompareAligned(a: seq<Bigit>, ghost ea: nat, b: seq<Bigit>, ghost eb: nat) returns (c: int)
    requires Normal(a) && Normal(b) && |a| + ea == |b| + eb
    ensures CompareSpec(a, ea, b, eb, c)
  {
    var i, j := TopDifference(a, b);
    if i >= 0 && j >= 0 {
      FirstDifference(a, ea, i, b, eb, j, if a[i] > b[j] then 1 else -1);
      return if a[i] > b[j] then 1 else -1;
    }
    MatchAll(a, ea, i, b, eb, j, if i != j then if i > j then 1 else -1 else 0);
    return if i != j then if i > j then 1 else -1 else 0;
  }

  /** The loop of compare: the topmost positions that differ, or where the shorter operand runs out. */
  method TopDifference(a: seq<Bigit>, b: seq<Bigit>) returns (i: int, j: int)
    ensures SameAbove(a, i, b, j) && i - j == |a| - |b|
    ensures i < 0 || j < 0 || a[i] != b[j]
  {
    i, j := |a| - 1, |b| - 1;
    var end := if i - j < 0 then 0 else i - j;
    while i >= end
      invariant end - 1 <= i && SameAbove(a, i, b, j)
    {
      if a[i] != b[j] {
        return;
      }
      i, j := i - 1, j - 1;
    }
  }

  /** add_compare(lhs1, lhs2, rhs): the exact sign of lhs1 + lhs2 - rhs exactly on SumComparable operands. */
  method AddCompare(lhs1: Bigint, lhs2: Bigint, rhs: Bigint) returns (r: int)
    requires lhs1.Valid() && lhs2.Valid() && rhs.Valid()
    ensures SumSpec(lhs1.bigits, lhs1.exp, lhs2.bigits, lhs2.exp, rhs.bigits, rhs.exp, r)
  {
    ghost var a, ea, b, eb, c, ec := lhs1.bigits, lhs1.exp, lhs2.bigits, lhs2.exp, rhs.bigits, rhs.exp;
    var most, count := Max(lhs1.NumBigits(), lhs2.NumBigits()), rhs.NumBigits();
    if most + 1 < count {
      SumTooShort(a, ea, b, eb, c, ec);
      return -1;
    }
    if most > count {
      SumTooLong(a, ea, b, eb, c, ec);
      return 1;
    }
    var minExp := Min(Min(lhs1.exp, lhs2.exp), rhs.exp);
    var borrow: Word := 0;
    ghost var d: nat := 0;
    var i: int := count - 1;
    while i >= minExp
      invariant minExp - 1 <= i < count && 0 <= d <= 1 && borrow == 0x1_0000_0000 * d
      invariant High(c, ec, i + 1) == High(a, ea, i + 1) + High(b, eb, i + 1) + d
    {
      var sum: Word := BigitAt(lhs1.bigits, lhs1.exp, i) + BigitAt(lhs2.bigits, lhs2.exp, i);
      var bigit := BigitAt(rhs.bigits, rhs.exp, i);
      SettledAt(a, ea, b, eb, c, ec, i);
      if sum > bigit + borrow {
        return 1;
      }
      borrow := bigit + borrow - sum;
      if borrow > 1 {
        return -1;
      }
      d := borrow;
      borrow := 0x1_0000_0000 * borrow;
      i := i - 1;
    }
    SettledAtEnd(a, ea, b, eb, c, ec, minExp, d);
    return if borrow != 0 then -1 else 0;
  }
}
