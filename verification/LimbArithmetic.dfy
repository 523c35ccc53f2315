/** The arithmetic behind the in-place carry and borrow passes. */
module LimbArithmetic {
  import opened Limbs
  import opened Powers

  /** One column of a multiplication by v: bigit b at weight p is replaced by lo, and hi is carried on. */
  lemma CarryStep(v: int, was: int, now: int, b: int, c: int, lo: int, hi: int, p: int)
    requires now + c * p == v * was
    requires lo + 0x1_0000_0000 * hi == b * v + c
    ensures (now + lo * p) + hi * (0x1_0000_0000 * p) == v * (was + b * p)
  {
    calc {
      (now + lo * p) + hi * (0x1_0000_0000 * p);
      { MulAssoc(0x1_0000_0000, hi, p); MulAssoc(hi, 0x1_0000_0000, p); }
      now + (lo + 0x1_0000_0000 * hi) * p;
      now + (b * v + c) * p;
      { Distribute(b * v, c, p); MulAssoc(v, b, p); }
      v * was + v * (b * p);
    }
  }

  lemma ProductFits(x: Bigit, y: Bigit, c: Bigit)
    ensures 0 <= x * y + c < 0x1_0000_0000_0000_0000
    ensures (x * y + c) / 0x1_0000_0000 < 0x1_0000_0000
  {
    MulMonotone(0, x, y);
    MulMonotone(x, 0xffff_ffff, y);
  }

  /** Writing position i extends the finished prefix by that bigit and leaves the rest alone. */
  lemma WriteBigit(s: seq<Bigit>, i: nat, x: Bigit)
    requires i < |s|
    ensures Val(s[i := x][..i + 1]) == Val(s[..i]) + x * Base(i)
    ensures s[i := x][i + 1..] == s[i + 1..]
  {
    ValPrefix(s[i := x], i);
    assert s[i := x][..i] == s[..i];
  }

  /** A multiple of a normal number that fits in as many bigits is normal. */
  lemma MultipleNormal(was: seq<Bigit>, now: seq<Bigit>, v: int)
    requires Normal(was) && |now| == |was| && v > 0 && Val(now) == v * Val(was)
    ensures Normal(now)
  {
    var n := |now| - 1;
    if n > 0 && now[n] == 0 {
      ValPrefix(now, n);
      assert now[..n + 1] == now;
      ValBound(now[..n]);
      NormalBounds(was);
      MulMonotone(1, v, Val(was));
      assert false;
    }
  }

  lemma WideProductFits(x: Bigit, y: Bigit, c: Bigit, d: Bigit)
    ensures 0 <= x * y + c + d < 0x1_0000_0000_0000_0000
  {
    MulMonotone(0, x, y);
    MulMonotone(x, 0xffff_ffff, y);
  }

  /** The low half of a 64-bit column and its new carry together make the exact column sum. */
  lemma WideStep(b: Bigit, value: Word, carry: Word, result: Word, newCarry: Word)
    requires result == b * (value % 0x1_0000_0000) + carry % 0x1_0000_0000
    requires newCarry == b * (value / 0x1_0000_0000) + result / 0x1_0000_0000 + carry / 0x1_0000_0000
    ensures result % 0x1_0000_0000 + 0x1_0000_0000 * newCarry == b * value + carry
  {
    var hi := value / 0x1_0000_0000;
    Distribute(value % 0x1_0000_0000, 0x1_0000_0000 * hi, b);
    MulSwap(b, 0x1_0000_0000, hi);
  }

  /** A left shift by less than a bigit splits a bigit into what stays and what is carried. */
  lemma ShiftSplit(b: Bigit, shift: nat)
    requires 0 < shift < 32
    ensures 0 <= b / Pow(2, 32 - shift) < Pow(2, shift) <= 0x1_0000_0000
    ensures b * Pow(2, shift) == (b * Pow(2, shift)) % 0x1_0000_0000 + 0x1_0000_0000 * (b / Pow(2, 32 - shift))
    ensures (b * Pow(2, shift)) % 0x1_0000_0000 + Pow(2, shift) <= 0x1_0000_0000
  {
    PowAdd(2, shift, 32 - shift);
    Pow2Of32();
    SplitAt(b, Pow(2, shift), Pow(2, 32 - shift));
  }

  /** b >> shift. */
  function ShiftRight(b: Bigit, shift: nat): nat {
    b / Pow(2, shift)
  }

  /** b << shift in 32 bits: the high bits are lost. */
  function ShiftLeftBigit(b: Bigit, shift: nat): Bigit {
    (b * Pow(2, shift)) % 0x1_0000_0000
  }

  lemma ShiftBigit(b: Bigit, shift: nat, carry: nat)
    requires 0 < shift < 32 && carry < Pow(2, shift)
    ensures 0 <= ShiftRight(b, 32 - shift) < Pow(2, shift) <= 0x1_0000_0000
    ensures var low := ShiftLeftBigit(b, shift) + carry;
            low < 0x1_0000_0000 &&
            low + 0x1_0000_0000 * ShiftRight(b, 32 - shift) == b * Pow(2, shift) + carry
  {
    ShiftSplit(b, shift);
  }

  lemma SplitAt(b: Bigit, p: nat, q: nat)
    requires p > 0 && q > 0 && p * q == 0x1_0000_0000
    ensures 0 <= b / q < p <= 0x1_0000_0000
    ensures b * p == (b * p) % 0x1_0000_0000 + 0x1_0000_0000 * (b / q)
    ensures (b * p) % 0x1_0000_0000 + p <= 0x1_0000_0000
  {
    var c, r := b / q, b % q;
    QuotientBelow(b, p, q);
    SplitProduct(p, q, c, r);
    RemainderBelow(p, q, r);
    ModOf(b * p, c, r * p);
  }

  lemma QuotientBelow(b: nat, p: nat, q: nat)
    requires q > 0 && b < p * q
    ensures b / q < p
  {
    var c := b / q;
    assert b == c * q + b % q;
    if c >= p {
      MulMonotone(p, c, q);
      assert false;
    }
  }

  lemma SplitProduct(p: nat, q: nat, c: nat, r: nat)
    requires p * q == 0x1_0000_0000
    ensures (q * c + r) * p == c * 0x1_0000_0000 + r * p
  {
    Distribute(c * q, r, p);
    MulAssoc(c, q, p);
  }

  lemma RemainderBelow(p: nat, q: nat, r: nat)
    requires p > 0 && r < q && p * q == 0x1_0000_0000
    ensures 0 <= r * p && r * p + p <= 0x1_0000_0000
    ensures p <= 0x1_0000_0000
  {
    MulMonotone(r + 1, q, p);
    MulMonotone(0, r, p);
    Distribute(r, 1, p);
    MulMonotone(1, q, p);
  }

  lemma ModOf(x: int, c: int, r: int)
    requires x == c * 0x1_0000_0000 + r && 0 <= r < 0x1_0000_0000
    ensures x % 0x1_0000_0000 == r
  {
  }

  lemma ShiftedValue(v: nat, e: nat, shift: nat)
    ensures (Pow(2, shift % 32) * v) * Base(e + shift / 32) == Pow(2, shift) * (v * Base(e))
    ensures shift % 32 == 0 ==> v * Base(e + shift / 32) == Pow(2, shift) * (v * Base(e))
  {
    var p, q := Pow(2, shift % 32), Base(shift / 32);
    BaseAdd(e, shift / 32);
    BaseIsPow2(shift / 32);
    PowAdd(2, shift % 32, 32 * (shift / 32));
    assert Pow(2, shift) == p * q;
    calc {
      (p * v) * (Base(e) * q);
      { MulAssoc(p, v, Base(e) * q); MulAssoc(v, Base(e), q); }
      p * ((v * Base(e)) * q);
      { MulAssoc(p, q, v * Base(e)); }
      (p * q) * (v * Base(e));
    }
  }

  /** A multiplication by v in place has finished the first i bigits of was and carries c. */
  ghost predicate Scaled(was: seq<Bigit>, now: seq<Bigit>, i: nat, v: int, c: int) {
    && |now| == |was| && i <= |was|
    && now[i..] == was[i..]
    && Val(now[..i]) + c * Base(i) == v * Val(was[..i])
  }

  lemma ScaledStart(was: seq<Bigit>, v: int)
    ensures Scaled(was, was, 0, v, 0)
  {
    assert was[..0] == [];
  }

  lemma ScaledStep(was: seq<Bigit>, now: seq<Bigit>, i: nat, v: int, c: int, lo: Bigit, hi: int)
    requires i < |was| && Scaled(was, now, i, v, c)
    requires lo + 0x1_0000_0000 * hi == was[i] * v + c
    ensures Scaled(was, now[i := lo], i + 1, v, hi)
  {
    ValPrefix(was, i);
    WriteBigit(now, i, lo);
    CarryStep(v, Val(was[..i]), Val(now[..i]), was[i], c, lo, hi, Base(i));
    assert was[i..][1..] == was[i + 1..];
    assert now[i..][1..] == now[i + 1..];
  }

  lemma ScaledCurrent(was: seq<Bigit>, now: seq<Bigit>, i: nat, v: int, c: int)
    requires i < |was| && Scaled(was, now, i, v, c)
    ensures now[i] == was[i]
  {
    assert now[i] == now[i..][0];
    assert was[i] == was[i..][0];
  }

  /** When the pass is over, what is left of the carry completes the product. */
  lemma ScaledEnd(was: seq<Bigit>, now: seq<Bigit>, v: int, c: nat)
    requires Normal(was) && v > 0 && Scaled(was, now, |was|, v, c)
    ensures Val(now) + c * Base(|now|) == v * Val(was)
    ensures c == 0 ==> Normal(now)
  {
    assert now[..|was|] == now && was[..|was|] == was;
    if c == 0 {
      NothingCarried(Base(|now|));
      MultipleNormal(was, now, v);
    }
  }

  lemma NothingCarried(p: nat)
    ensures 0 * p == 0
  {
  }

  /** Moving the lowest bigit of the carry onto the end. */
  lemma PushBigit(s: seq<Bigit>, c: nat)
    ensures Val(s + [c % 0x1_0000_0000]) + (c / 0x1_0000_0000) * Base(|s| + 1) == Val(s) + c * Base(|s|)
  {
    ValSnoc(s, c % 0x1_0000_0000);
    CarryStep(1, Val(s) + c * Base(|s|) - c * Base(|s|), Val(s), c, 0,
              c % 0x1_0000_0000, c / 0x1_0000_0000, Base(|s|));
  }

  /** The source's ending: push the carry if there is one. */
  function WithCarry(s: seq<Bigit>, c: Bigit): seq<Bigit> {
    if c != 0 then s + [c] else s
  }

  lemma ScaledResult(was: seq<Bigit>, now: seq<Bigit>, v: int, c: Bigit)
    requires Normal(was) && v > 0 && Scaled(was, now, |was|, v, c)
    ensures Normal(WithCarry(now, c)) && Val(WithCarry(now, c)) == v * Val(was)
  {
    ScaledEnd(was, now, v, c);
    if c != 0 {
      ValSnoc(now, c);
    }
  }

  lemma ShiftedResult(was: seq<Bigit>, now: seq<Bigit>, e: nat, shift: nat, c: Bigit)
    requires Normal(was) && Scaled(was, now, |was|, Pow(2, shift % 32), c)
    ensures Normal(WithCarry(now, c))
    ensures Val(WithCarry(now, c)) * Base(e + shift / 32) == Pow(2, shift) * (Val(was) * Base(e))
  {
    ScaledResult(was, now, Pow(2, shift % 32), c);
    ShiftedValue(Val(was), e, shift);
  }

  /** Low zeros taken out of the exponent leave the number as it was. */
  lemma PadValue(s: seq<Bigit>, e: nat, k: nat)
    requires k <= e
    ensures Val(Zeros(k) + s) * Base(e - k) == Val(s) * Base(e)
  {
    ValAppend(Zeros(k), s);
    ValZeros(k);
    ScaleUp(Val(s), e - k, k);
  }

  lemma ScaleUp(v: nat, e: nat, k: nat)
    ensures (Base(k) * v) * Base(e) == v * Base(e + k)
  {
    BaseAdd(k, e);
    MulAssoc(v, Base(k), Base(e));
  }

  predicate PowerOfTwo(x: nat) {
    x == 1 || (x > 1 && x % 2 == 0 && PowerOfTwo(x / 2))
  }

  /** n & mask != 0, for a mask of one bit. */
  predicate HasBit(n: nat, mask: nat)
    requires PowerOfTwo(mask)
  {
    (n / mask) % 2 == 1
  }

  lemma QuotientAtMost(n: nat, d: nat)
    requires d > 0
    ensures n / d <= n
    ensures d == 1 ==> n / d == n
  {
    MulMonotone(1, d, n / d);
  }

  /** The next lower bit of n. */
  lemma HalveMask(n: nat, mask: nat)
    requires mask > 0
    ensures n / mask == 2 * (n / (2 * mask)) + (n / mask) % 2
  {
    HalveParts(n, mask, n / (2 * mask), n % (2 * mask));
  }

  lemma HalveParts(n: nat, mask: nat, q: nat, r: nat)
    requires r < 2 * mask && n == (2 * mask) * q + r
    ensures n / mask == 2 * q + (if r < mask then 0 else 1)
  {
    MulSwap(2, mask, q);
    MulAssoc(2, mask, q);
    if r < mask {
      QuotientIs(n, mask, 2 * q, r);
    } else {
      OneMore(n, mask, 2 * q, r);
      QuotientIs(n, mask, 2 * q + 1, r - mask);
    }
  }

  lemma OneMore(n: nat, d: nat, q: nat, r: nat)
    requires n == d * q + r
    ensures n == d * (q + 1) + (r - d)
  {
  }

  lemma {:induction false} Pow5Below(m: nat)
    ensures Pow(5, m) <= Pow(2, 3 * m)
  {
    if m > 0 {
      Pow5Below(m - 1);
      assert Pow(2, 3 * m) == 2 * Pow(2, 3 * m - 1) == 4 * Pow(2, 3 * m - 2) == 8 * Pow(2, 3 * m - 3);
    }
  }

  /** A power of five below 2^30 stays short enough for the int column index of square. */
  lemma PowerLength(s: seq<Bigit>, m: nat)
    requires Normal(s) && Val(s) == Pow(5, m) && m < 0x4000_0000
    ensures |s| < 0x4000_0000
  {
    NormalBounds(s);
    if |s| >= 0x4000_0000 {
      BaseIsPow2(|s| - 1);
      Pow5Below(m);
      Pow2Strict(3 * m, 32 * (|s| - 1));
      assert false;
    }
  }

  lemma Pow2Strict(m: nat, n: nat)
    requires m < n
    ensures Pow(2, m) < Pow(2, n)
  {
    PowMonotone(2, m + 1, n);
    assert Pow(2, m + 1) == 2 * Pow(2, m);
  }
}
