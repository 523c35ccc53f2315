/** When bigit-by-bigit comparison from the most significant end decides the order of two numbers. */
module LimbOrder {
  import opened Limbs
  import opened Powers

  function Num(s: seq<Bigit>, e: nat): nat {
    Val(s) * Base(e)
  }

  lemma BaseProduct(i: nat, e: nat, x: int)
    ensures (Base(i) * x) * Base(e) == x * Base(i + e)
  {
    BaseAdd(i, e);
    MulAssoc(x, Base(i), Base(e));
  }

  /** Position i cuts a number into the part above, in units of 2^(32*(i+e)), and a smaller rest. */
  lemma Cut(s: seq<Bigit>, e: nat, i: nat)
    requires i <= |s|
    ensures Num(s, e) == Num(s[..i], e) + Num(s[i..], i + e)
    ensures Num(s[..i], e) < Base(i + e)
  {
    CutSum(s, e, i);
    ValBound(s[..i]);
    MulStrict(Val(s[..i]), Base(i), Base(e));
    BaseAdd(i, e);
  }

  lemma CutSum(s: seq<Bigit>, e: nat, i: nat)
    requires i <= |s|
    ensures Num(s, e) == Num(s[..i], e) + Num(s[i..], i + e)
  {
    ValSplit(s, i);
    Distribute(Val(s[..i]), Base(i) * Val(s[i..]), Base(e));
    BaseProduct(i, e, Val(s[i..]));
  }

  lemma UnitsApart(x: int, y: int, p: nat)
    requires x < y
    ensures x * p + p <= y * p
  {
    MulMonotone(x + 1, y, p);
    Distribute(x, 1, p);
  }

  lemma NumBound(s: seq<Bigit>, e: nat)
    requires Normal(s)
    ensures Num(s, e) < Base(|s| + e)
    ensures s != [0] ==> Base(|s| - 1 + e) <= Num(s, e)
    ensures Num(s, e) == 0 <==> s == [0]
  {
    NormalBounds(s);
    BaseAdd(|s|, e);
    MulStrict(Val(s), Base(|s|), Base(e));
    if s != [0] {
      BaseAdd(|s| - 1, e);
      MulMonotone(Base(|s| - 1), Val(s), Base(e));
    }
  }

  lemma MoreBigitsIsLarger(a: seq<Bigit>, ea: nat, b: seq<Bigit>, eb: nat)
    requires Normal(a) && Normal(b) && b != [0] && |a| + ea < |b| + eb
    ensures Num(a, ea) < Num(b, eb)
  {
    NumBound(a, ea);
    NumBound(b, eb);
    BaseMonotone(|a| + ea, |b| - 1 + eb);
  }

  lemma TopDiffers(a: seq<Bigit>, ea: nat, i: nat, b: seq<Bigit>, eb: nat, j: nat)
    requires i < |a| && j < |b| && i + ea == j + eb
    requires a[i + 1..] == b[j + 1..] && a[i] > b[j]
    ensures Num(a, ea) > Num(b, eb)
  {
    Cut(a, ea, i);
    Cut(b, eb, j);
    assert a[i..][1..] == a[i + 1..] && b[j..][1..] == b[j + 1..];
    UnitsApart(Val(b[j..]), Val(a[i..]), Base(i + ea));
  }

  lemma CommonTop(a: seq<Bigit>, ea: nat, b: seq<Bigit>, eb: nat)
    requires |a| >= |b| && |a| + ea == |b| + eb && a[|a| - |b|..] == b
    ensures Num(a, ea) >= Num(b, eb)
    ensures Num(a, ea) == Num(b, eb) <==> a == Zeros(|a| - |b|) + b
  {
    var k := |a| - |b|;
    Cut(a, ea, k);
    ValZero(a[..k]);
    assert a == a[..k] + b;
    assert a == Zeros(k) + b <==> a[..k] == Zeros(k) by {
      if a == Zeros(k) + b {
        assert a[..k] == Zeros(k);
      }
    }
    PositiveProduct(Val(a[..k]), Base(ea));
  }

  lemma PositiveProduct(x: nat, p: nat)
    requires p > 0
    ensures x * p >= 0
    ensures x * p == 0 <==> x == 0
  {
    if x > 0 {
      MulMonotone(1, x, p);
    }
  }

  predicate AllZero(s: seq<Bigit>) {
    forall k :: 0 <= k < |s| ==> s[k] == 0
  }

  /** a carries explicit low zeros that b has in its exponent: the same number, written longer. */
  predicate Padded(a: seq<Bigit>, ea: nat, b: seq<Bigit>, eb: nat) {
    |a| > |b| && |a| + ea == |b| + eb && a[|a| - |b|..] == b && AllZero(a[..|a| - |b|])
  }

  /** The operands on which compare gives the exact sign. */
  predicate Comparable(a: seq<Bigit>, ea: nat, b: seq<Bigit>, eb: nat) {
    if a == [0] && b == [0] then ea == eb
    else if a == [0] then 1 + ea <= |b| + eb
    else if b == [0] then 1 + eb <= |a| + ea
    else !Padded(a, ea, b, eb) && !Padded(b, eb, a, ea)
  }

  /** c is the exact sign exactly on Comparable operands. */
  ghost predicate CompareSpec(a: seq<Bigit>, ea: nat, b: seq<Bigit>, eb: nat, c: int) {
    && -1 <= c <= 1
    && (c == Sign(Num(a, ea) - Num(b, eb)) <==> Comparable(a, ea, b, eb))
    && (Padded(a, ea, b, eb) ==> c == 1)
    && (Padded(b, eb, a, ea) ==> c == -1)
  }

  /** Against a nonzero right operand a negative answer means less, or the right operand written longer. */
  lemma CompareDecides(a: seq<Bigit>, ea: nat, b: seq<Bigit>, eb: nat, c: int)
    requires Normal(a) && Normal(b) && b != [0] && (a == [0] ==> 1 + ea <= |b| + eb)
    requires CompareSpec(a, ea, b, eb, c)
    ensures c < 0 <==> Num(a, ea) < Num(b, eb) || Padded(b, eb, a, ea)
  {
    if Padded(a, ea, b, eb) {
      PaddedSame(a, ea, b, eb);
    }
    if Padded(b, eb, a, ea) {
      PaddedSame(b, eb, a, ea);
    }
  }

  lemma PaddedSame(a: seq<Bigit>, ea: nat, b: seq<Bigit>, eb: nat)
    requires Normal(a) && Normal(b) && Padded(a, ea, b, eb)
    ensures Num(a, ea) == Num(b, eb)
    ensures a != [0] && b != [0]
  {
    assert a[|a| - |b|..] == b;
    CommonTop(a, ea, b, eb);
    assert a[|a| - 1] == b[|b| - 1];
  }

  lemma UnequalCounts(a: seq<Bigit>, ea: nat, b: seq<Bigit>, eb: nat, c: int)
    requires Normal(a) && Normal(b) && |a| + ea != |b| + eb
    requires c == if |a| + ea > |b| + eb then 1 else -1
    ensures CompareSpec(a, ea, b, eb, c)
  {
    NumBound(a, ea);
    NumBound(b, eb);
    if |a| + ea < |b| + eb && b != [0] {
      MoreBigitsIsLarger(a, ea, b, eb);
    }
    if |a| + ea > |b| + eb && a != [0] {
      MoreBigitsIsLarger(b, eb, a, ea);
    }
  }

  /** The operands agree above positions i and j. */
  predicate SameAbove(a: seq<Bigit>, i: int, b: seq<Bigit>, j: int) {
    && -1 <= i < |a| && -1 <= j < |b| && |a| - i == |b| - j
    && forall k :: i < k < |a| ==> a[k] == b[k - i + j]
  }

  lemma FirstDifference(a: seq<Bigit>, ea: nat, i: nat, b: seq<Bigit>, eb: nat, j: nat, c: int)
    requires Normal(a) && Normal(b) && i < |a| && j < |b| && i + ea == j + eb && |a| + ea == |b| + eb
    requires SameAbove(a, i, b, j) && a[i] != b[j]
    requires c == if a[i] > b[j] then 1 else -1
    ensures CompareSpec(a, ea, b, eb, c)
  {
    assert a[i + 1..] == b[j + 1..];
    if a[i] > b[j] {
      TopDiffers(a, ea, i, b, eb, j);
    } else {
      TopDiffers(b, eb, j, a, ea, i);
    }
    if Padded(a, ea, b, eb) { PaddedSame(a, ea, b, eb); }
    if Padded(b, eb, a, ea) { PaddedSame(b, eb, a, ea); }
    NumBound(a, ea);
    NumBound(b, eb);
  }

  lemma AllMatch(a: seq<Bigit>, ea: nat, b: seq<Bigit>, eb: nat, c: int)
    requires Normal(a) && Normal(b) && |a| + ea == |b| + eb && c == Sign(|a| - |b|)
    requires if |a| >= |b| then a[|a| - |b|..] == b else b[|b| - |a|..] == a
    ensures CompareSpec(a, ea, b, eb, c)
  {
    if |a| >= |b| {
      CommonTop(a, ea, b, eb);
    } else {
      CommonTop(b, eb, a, ea);
    }
    assert a[|a| - 1] == b[|b| - 1];
  }

  /** One operand is used up and all bigits matched. */
  lemma MatchAll(a: seq<Bigit>, ea: nat, i: int, b: seq<Bigit>, eb: nat, j: int, c: int)
    requires Normal(a) && Normal(b) && SameAbove(a, i, b, j) && (i < 0 || j < 0)
    requires i - j == |a| - |b| == eb - ea && c == Sign(i - j)
    ensures CompareSpec(a, ea, b, eb, c)
  {
    if i >= j {
      WholeMatches(a, i, b);
    } else {
      WholeMatches(b, j, a);
    }
    AllMatch(a, ea, b, eb, c);
  }

  lemma WholeMatches(a: seq<Bigit>, i: int, b: seq<Bigit>)
    requires SameAbove(a, i, b, -1) || SameAbove(b, -1, a, i)
    ensures |a| >= |b| && a[|a| - |b|..] == b
  {
    forall k | 0 <= k < |b| ensures a[|a| - |b|..][k] == b[k] {
      assert a[k + i + 1] == b[k];
    }
  }

  /** 5 * 2^32 written with and without its low zero bigit: equal numbers, and compare says more. */
  lemma PaddedExample(c: int)
    requires CompareSpec([0, 5], 0, [5], 1, c)
    ensures Num([0, 5], 0) == Num([5], 1) && c == 1
  {
    assert [0, 5][1..] == [5] && [5][1..] == [] && [0, 5][..1] == [0];
    assert Base(1) == 0x1_0000_0000 * Base(0);
    assert Padded([0, 5], 0, [5], 1);
  }

  // add_compare: the sign of a sum against a third number, without forming the sum.

  /** The bigit at absolute position i, as add_compare's get_bigit reads it. */
  function BigitAt(s: seq<Bigit>, e: nat, i: nat): Bigit {
    if e <= i < |s| + e then s[i - e] else 0
  }

  /** The number with everything below position i dropped. */
  ghost function High(s: seq<Bigit>, e: nat, i: nat): nat
    decreases |s| + e - i
  {
    if i >= |s| + e then 0 else BigitAt(s, e, i) + 0x1_0000_0000 * High(s, e, i + 1)
  }

  lemma {:induction false} HighIsVal(s: seq<Bigit>, e: nat, i: nat)
    requires e <= i <= |s| + e
    ensures High(s, e, i) == Val(s[i - e..])
    decreases |s| + e - i
  {
    if i < |s| + e {
      HighIsVal(s, e, i + 1);
      assert s[i - e..][1..] == s[i + 1 - e..];
    }
  }

  lemma {:induction false} HighBelowExponent(s: seq<Bigit>, e: nat, i: nat)
    requires s != [] && i <= e
    ensures High(s, e, i) * Base(i) == Num(s, e)
    decreases e - i
  {
    if i == e {
      HighIsVal(s, e, i);
      assert s[0..] == s;
    } else {
      HighBelowExponent(s, e, i + 1);
      MulAssoc(High(s, e, i + 1), 0x1_0000_0000, Base(i));
    }
  }

  lemma HighBounds(s: seq<Bigit>, e: nat, i: nat)
    requires Normal(s)
    ensures High(s, e, i) * Base(i) <= Num(s, e)
    ensures Num(s, e) < (High(s, e, i) + 1) * Base(i)
  {
    Distribute(High(s, e, i), 1, Base(i));
    if i <= e {
      HighBelowExponent(s, e, i);
    } else if i <= |s| + e {
      HighIsVal(s, e, i);
      Cut(s, e, i - e);
    } else {
      NumBound(s, e);
      BaseMonotone(|s| + e, i);
    }
  }

  function Max(x: nat, y: nat): nat {
    if x < y then y else x
  }

  function Min(x: nat, y: nat): nat {
    if x < y then x else y
  }

  /** The topmost bigits that differ are at position i, and there a's is larger. */
  predicate LargerAt(a: seq<Bigit>, ea: nat, b: seq<Bigit>, eb: nat, i: nat) {
    BigitAt(a, ea, i) > BigitAt(b, eb, i) && SameFrom(a, ea, b, eb, i + 1)
  }

  predicate SameFrom(a: seq<Bigit>, ea: nat, b: seq<Bigit>, eb: nat, i: nat) {
    forall j :: i <= j < Max(|a| + ea, |b| + eb) ==> BigitAt(a, ea, j) == BigitAt(b, eb, j)
  }

  predicate Larger(a: seq<Bigit>, ea: nat, b: seq<Bigit>, eb: nat) {
    exists i :: 0 <= i < |a| + ea && LargerAt(a, ea, b, eb, i)
  }

  lemma {:induction false} SameHigh(a: seq<Bigit>, ea: nat, b: seq<Bigit>, eb: nat, i: nat)
    ensures High(a, ea, i) == High(b, eb, i) <==> SameFrom(a, ea, b, eb, i)
    decreases |a| + ea + |b| + eb - i
  {
    if i < Max(|a| + ea, |b| + eb) {
      SameHigh(a, ea, b, eb, i + 1);
      HighStep(a, ea, i);
      HighStep(b, eb, i);
      if SameFrom(a, ea, b, eb, i + 1) && BigitAt(a, ea, i) == BigitAt(b, eb, i) {
        forall j | i <= j < Max(|a| + ea, |b| + eb) ensures BigitAt(a, ea, j) == BigitAt(b, eb, j) {
        }
      }
    }
  }

  lemma HighStep(s: seq<Bigit>, e: nat, i: nat)
    ensures High(s, e, i) == BigitAt(s, e, i) + 0x1_0000_0000 * High(s, e, i + 1)
  {
  }

  lemma {:induction false} FindLarger(a: seq<Bigit>, ea: nat, b: seq<Bigit>, eb: nat, i: nat)
    requires High(a, ea, i) > High(b, eb, i)
    ensures Larger(a, ea, b, eb)
    decreases |a| + ea - i
  {
    HighStep(a, ea, i);
    HighStep(b, eb, i);
    if High(a, ea, i + 1) > High(b, eb, i + 1) {
      FindLarger(a, ea, b, eb, i + 1);
    } else {
      assert High(a, ea, i + 1) == High(b, eb, i + 1);
      SameHigh(a, ea, b, eb, i + 1);
      assert LargerAt(a, ea, b, eb, i);
    }
  }

  /** The order of two numbers is that of their topmost bigits that differ. */
  lemma LargerIff(a: seq<Bigit>, ea: nat, b: seq<Bigit>, eb: nat)
    requires Normal(a) && Normal(b)
    ensures Num(a, ea) > Num(b, eb) <==> Larger(a, ea, b, eb)
  {
    HighBelowExponent(a, ea, 0);
    HighBelowExponent(b, eb, 0);
    if Num(a, ea) > Num(b, eb) {
      FindLarger(a, ea, b, eb, 0);
    }
    if Larger(a, ea, b, eb) {
      var i :| 0 <= i < |a| + ea && LargerAt(a, ea, b, eb, i);
      SameHigh(a, ea, b, eb, i + 1);
      HighStep(a, ea, i);
      HighStep(b, eb, i);
      HighBounds(a, ea, i);
      HighBounds(b, eb, i);
      MulMonotone(High(b, eb, i) + 1, High(a, ea, i), Base(i));
    }
  }

  /**
   The operands on which add_compare is exact. Only a zero with a large exponent can mislead its two shortcuts, and the
   second of them misleads no more when the other operand alone is larger than the right one.
   */
  ghost predicate SumComparable(a: seq<Bigit>, ea: nat, b: seq<Bigit>, eb: nat, c: seq<Bigit>, ec: nat) {
    var most := Max(|a| + ea, |b| + eb);
    && (most + 1 < |c| + ec ==> c != [0])
    && (most > |c| + ec ==>
          || (a != [0] && |a| + ea > |c| + ec)
          || (b != [0] && |b| + eb > |c| + ec)
          || (a == [0] && Larger(b, eb, c, ec))
          || (b == [0] && Larger(a, ea, c, ec)))
  }

  ghost function SumSign(a: seq<Bigit>, ea: nat, b: seq<Bigit>, eb: nat, c: seq<Bigit>, ec: nat): int {
    Sign(Num(a, ea) + Num(b, eb) - Num(c, ec))
  }

  /** r is the exact sign exactly on SumComparable operands. */
  ghost predicate SumSpec(a: seq<Bigit>, ea: nat, b: seq<Bigit>, eb: nat, c: seq<Bigit>, ec: nat, r: int) {
    && -1 <= r <= 1
    && (r == SumSign(a, ea, b, eb, c, ec) <==> SumComparable(a, ea, b, eb, c, ec))
  }

  lemma SumTooShort(a: seq<Bigit>, ea: nat, b: seq<Bigit>, eb: nat, c: seq<Bigit>, ec: nat)
    requires Normal(a) && Normal(b) && Normal(c) && Max(|a| + ea, |b| + eb) + 1 < |c| + ec
    ensures SumSpec(a, ea, b, eb, c, ec, -1)
  {
    if c != [0] {
      SumIsLess(a, ea, b, eb, c, ec);
    } else {
      NumBound(c, ec);
    }
  }

  lemma SumIsLess(a: seq<Bigit>, ea: nat, b: seq<Bigit>, eb: nat, c: seq<Bigit>, ec: nat)
    requires Normal(a) && Normal(b) && Normal(c) && c != [0] && Max(|a| + ea, |b| + eb) + 1 < |c| + ec
    ensures Num(a, ea) + Num(b, eb) < Num(c, ec)
  {
    NumBound(c, ec);
    SumBelow(a, ea, b, eb, Max(|a| + ea, |b| + eb));
    BaseMonotone(Max(|a| + ea, |b| + eb) + 1, |c| - 1 + ec);
  }

  lemma SumBelow(a: seq<Bigit>, ea: nat, b: seq<Bigit>, eb: nat, most: nat)
    requires Normal(a) && Normal(b) && |a| + ea <= most && |b| + eb <= most
    ensures Num(a, ea) + Num(b, eb) < Base(most + 1)
  {
    NumBound(a, ea);
    NumBound(b, eb);
    BaseMonotone(|a| + ea, most);
    BaseMonotone(|b| + eb, most);
    assert Base(most + 1) == 0x1_0000_0000 * Base(most);
  }

  lemma SumTooLong(a: seq<Bigit>, ea: nat, b: seq<Bigit>, eb: nat, c: seq<Bigit>, ec: nat)
    requires Normal(a) && Normal(b) && Normal(c) && Max(|a| + ea, |b| + eb) > |c| + ec
    ensures SumSpec(a, ea, b, eb, c, ec, 1)
  {
    if a != [0] && |a| + ea > |c| + ec {
      MoreBigitsIsLarger(c, ec, a, ea);
    }
    if b != [0] && |b| + eb > |c| + ec {
      MoreBigitsIsLarger(c, ec, b, eb);
    }
    LargerIff(a, ea, c, ec);
    LargerIff(b, eb, c, ec);
    NumBound(a, ea);
    NumBound(b, eb);
  }

  lemma HighSum(a: seq<Bigit>, ea: nat, b: seq<Bigit>, eb: nat, i: nat)
    requires Normal(a) && Normal(b)
    ensures (High(a, ea, i) + High(b, eb, i)) * Base(i) <= Num(a, ea) + Num(b, eb)
    ensures Num(a, ea) + Num(b, eb) < (High(a, ea, i) + High(b, eb, i) + 2) * Base(i)
  {
    var x, y := High(a, ea, i), High(b, eb, i);
    HighBounds(a, ea, i);
    HighBounds(b, eb, i);
    Distribute(x, y, Base(i));
    Distribute(x + 1, y + 1, Base(i));
  }

  /** One high difference of -1 or less, or 2 or more, settles the sign whatever the lower bigits are. */
  lemma SettledAt(a: seq<Bigit>, ea: nat, b: seq<Bigit>, eb: nat, c: seq<Bigit>, ec: nat, i: nat)
    requires Normal(a) && Normal(b) && Normal(c)
    ensures High(a, ea, i) + High(b, eb, i) > High(c, ec, i) ==> SumSign(a, ea, b, eb, c, ec) == 1
    ensures High(a, ea, i) + High(b, eb, i) + 1 < High(c, ec, i) ==> SumSign(a, ea, b, eb, c, ec) == -1
  {
    HighSum(a, ea, b, eb, i);
    HighBounds(c, ec, i);
    OrderFromUnits(High(a, ea, i) + High(b, eb, i), High(c, ec, i), Num(a, ea) + Num(b, eb), Num(c, ec), Base(i));
  }

  lemma OrderFromUnits(sum: nat, z: nat, x: nat, y: nat, p: nat)
    requires sum * p <= x < (sum + 2) * p && z * p <= y < (z + 1) * p
    ensures sum > z ==> x > y
    ensures sum + 1 < z ==> x < y
  {
    if sum > z {
      MulMonotone(z + 1, sum, p);
    } else if sum + 1 < z {
      MulMonotone(sum + 2, z, p);
    }
  }

  lemma SettledAtEnd(a: seq<Bigit>, ea: nat, b: seq<Bigit>, eb: nat, c: seq<Bigit>, ec: nat, i: nat, d: nat)
    requires a != [] && b != [] && c != [] && i <= ea && i <= eb && i <= ec
    requires High(c, ec, i) == High(a, ea, i) + High(b, eb, i) + d
    ensures SumSign(a, ea, b, eb, c, ec) == if d == 0 then 0 else -1
  {
    HighBelowExponent(a, ea, i);
    HighBelowExponent(b, eb, i);
    HighBelowExponent(c, ec, i);
    Distribute(High(a, ea, i), High(b, eb, i), Base(i));
    Distribute(High(a, ea, i) + High(b, eb, i), d, Base(i));
    PositiveProduct(d, Base(i));
  }

  // The two tests of fallback_format, in terms of the comparisons they use.

  lemma BaseStrict(m: nat, n: nat)
    requires Base(m) < Base(n)
    ensures m < n
  {
    if m >= n {
      BaseMonotone(n, m);
    }
  }

  /** Equal nonzero numbers with different exponents: the one with the smaller exponent is padded. */
  lemma EqualIsPadded(a: seq<Bigit>, ea: nat, b: seq<Bigit>, eb: nat)
    requires Normal(a) && Normal(b) && a != [0] && b != [0] && ea < eb && Num(a, ea) == Num(b, eb)
    ensures Padded(a, ea, b, eb)
  {
    var off := eb - ea;
    var long := Zeros(off) + b;
    NumBound(a, ea);
    NumBound(b, eb);
    BaseStrict(|a| - 1 + ea, |b| + eb);
    BaseStrict(|b| - 1 + eb, |a| + ea);
    assert |long| == |a|;
    ValAppend(Zeros(off), b);
    ValZeros(off);
    BaseProduct(off, ea, Val(b));
    assert Num(long, ea) == Num(b, eb);
    MulCancel(Val(long), Val(a), Base(ea));
    ValInjective(long, a);
  }

  /** compare(numerator, lower) - even < 0: an exact tie counts for an even significand unless the exponents differ. */
  lemma LowTest(a: seq<Bigit>, ea: nat, b: seq<Bigit>, eb: nat, even: bool, c: int)
    requires Normal(a) && Normal(b) && b != [0] && ea <= eb && CompareSpec(a, ea, b, eb, c)
    ensures c - (if even then 1 else 0) < 0
            <==> Num(a, ea) < Num(b, eb) || (Num(a, ea) == Num(b, eb) && even && ea == eb)
  {
    NumBound(a, ea);
    NumBound(b, eb);
    if Padded(a, ea, b, eb) {
      PaddedSame(a, ea, b, eb);
    } else if Num(a, ea) == Num(b, eb) && ea < eb {
      EqualIsPadded(a, ea, b, eb);
    }
  }

  /** add_compare(numerator, upper, denominator) is exact here. */
  lemma HighTest(a: seq<Bigit>, ea: nat, b: seq<Bigit>, eb: nat, c: seq<Bigit>, ec: nat, r: int)
    requires Normal(a) && Normal(b) && Normal(c) && c != [0] && (a == [0] ==> ea <= ec) && (b == [0] ==> eb <= ec)
    requires SumSpec(a, ea, b, eb, c, ec, r)
    ensures r == SumSign(a, ea, b, eb, c, ec)
  {
  }
}
