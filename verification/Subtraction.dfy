/** Aligned subtraction with a borrow, and where its last loop goes wrong. */
module Subtraction {
  import opened Limbs
  import opened LimbOrder
  import opened Powers

  lemma {:induction false} ReplaceBigit(s: seq<Bigit>, i: nat, x: Bigit)
    requires i < |s|
    ensures Val(s[i := x]) == Val(s) + (x - s[i]) * Base(i)
  {
    if i > 0 {
      ReplaceBigit(s[1..], i - 1, x);
      assert s[i := x][1..] == s[1..][i - 1 := x];
      MulSwap(x - s[i], 0x1_0000_0000, Base(i - 1));
    } else {
      assert s[0 := x][1..] == s[1..];
    }
  }

  /** What a borrow of 0 or 1 owes at weight p. */
  function Due(borrow: int, p: nat): nat {
    if borrow == 1 then p else 0
  }

  /** v at bigit offset off. */
  function Shifted(v: nat, off: nat): nat {
    if off == 0 then v else 0x1_0000_0000 * Shifted(v, off - 1)
  }

  lemma {:induction false} ShiftedIs(v: nat, off: nat)
    ensures Shifted(v, off) == Base(off) * v
  {
    if off > 0 {
      ShiftedIs(v, off - 1);
      MulAssoc(0x1_0000_0000, Base(off - 1), v);
    }
  }

  /** The first j bigits of b have been taken off was at offset off, and a borrow is due at the next place. */
  ghost predicate Taken(was: seq<Bigit>, now: seq<Bigit>, off: nat, b: seq<Bigit>, j: nat, borrow: int) {
    && |now| == |was| && j <= |b| && off + j <= |was| && 0 <= borrow <= 1
    && now[off + j..] == was[off + j..]
    && Val(now) - Due(borrow, Base(off + j)) == Val(was) - Shifted(Val(b[..j]), off)
  }

  lemma TakenStart(was: seq<Bigit>, off: nat, b: seq<Bigit>)
    requires off <= |was|
    ensures Taken(was, was, off, b, 0, 0)
  {
    assert b[..0] == [];
    ShiftedIs(0, off);
  }

  /** The low 32 bits of a difference that may be negative. */
  function Wrapped(x: int): Bigit {
    x % 0x1_0000_0000
  }

  lemma TakenStep(was: seq<Bigit>, now: seq<Bigit>, off: nat, b: seq<Bigit>, j: nat, borrow: int)
    requires j < |b| && off + j < |was| && Taken(was, now, off, b, j, borrow)
    ensures var i := off + j;
            Taken(was, now[i := Wrapped(now[i] - b[j] - borrow)], off, b, j + 1,
                  if now[i] < b[j] + borrow then 1 else 0)
  {
    var i := off + j;
    var x := Wrapped(now[i] - b[j] - borrow);
    var next := if now[i] < b[j] + borrow then 1 else 0;
    ReplaceBigit(now, i, x);
    ValPrefix(b, j);
    ShiftedIs(Val(b[..j]), off);
    ShiftedIs(Val(b[..j + 1]), off);
    BaseAdd(off, j);
    var before: int := now[i];
    TakeDigit(Val(now), Val(was), Base(off), Val(b[..j]), b[j], Base(j), x - before, next, borrow);
    assert now[i := x][i + 1..] == now[i..][1..] == was[i + 1..];
  }

  lemma TakeDigit(now: int, was: int, p: nat, low: int, digit: int, w: nat, change: int, next: int, borrow: int)
    requires 0 <= borrow <= 1 && 0 <= next <= 1
    requires now - Due(borrow, p * w) == was - p * low
    requires change - 0x1_0000_0000 * next == -digit - borrow
    ensures now + change * (p * w) - Due(next, 0x1_0000_0000 * (p * w)) == was - p * (low + digit * w)
  {
    var q := p * w;
    Distribute(0x1_0000_0000 * next - digit, -borrow, q);
    Distribute(0x1_0000_0000 * next, -digit, q);
    MulSwap(p, digit, w);
    Distribute(low, digit * w, p);
  }

  /** Where the fixed index of the last loop bites: a borrow is due at a bigit that is zero. */
  predicate BorrowStuck(a: seq<Bigit>, ea: nat, b: seq<Bigit>, eb: nat)
    requires eb >= ea
  {
    var k := eb - ea + |b|;
    k < |a| && a[k] == 0 && Num(a[..k], ea) < Num(b, eb)
  }

  lemma AlignedNum(v: int, off: nat, e: nat)
    ensures v * Base(off + e) == (Base(off) * v) * Base(e)
  {
    BaseAdd(off, e);
    MulAssoc(v, Base(off), Base(e));
  }

  /** After all of b is taken, a borrow is due exactly when the low part of was is smaller than b. */
  lemma BorrowMeaning(was: seq<Bigit>, now: seq<Bigit>, ea: nat, b: seq<Bigit>, eb: nat, borrow: int)
    requires eb >= ea && Taken(was, now, eb - ea, b, |b|, borrow)
    ensures borrow == 1 <==> Num(was[..eb - ea + |b|], ea) < Num(b, eb)
  {
    var off := eb - ea;
    var k := off + |b|;
    TakenLow(was, now, off, b, borrow);
    ShiftedIs(Val(b), off);
    AlignedNum(Val(b), off, ea);
    var low, taken := Val(was[..k]), Base(off) * Val(b);
    if low < taken {
      MulStrict(low, taken, Base(ea));
    } else {
      MulMonotone(taken, low, Base(ea));
    }
  }

  lemma TakenLow(was: seq<Bigit>, now: seq<Bigit>, off: nat, b: seq<Bigit>, borrow: int)
    requires Taken(was, now, off, b, |b|, borrow)
    ensures borrow == 1 <==> Val(was[..off + |b|]) < Shifted(Val(b), off)
  {
    assert b[..|b|] == b;
    LowIsBelow(was, now, off + |b|, Shifted(Val(b), off), borrow);
  }

  lemma LowIsBelow(was: seq<Bigit>, now: seq<Bigit>, k: nat, taken: int, borrow: int)
    requires k <= |was| == |now| && 0 <= borrow <= 1 && now[k..] == was[k..]
    requires Val(now) - Due(borrow, Base(k)) == Val(was) - taken
    ensures borrow == 1 <==> Val(was[..k]) < taken
  {
    TopUnchanged(now, was, k);
    ValBound(now[..k]);
    LowDecides(Val(now[..k]), Val(was[..k]), taken, Base(k), borrow);
  }

  lemma LowDecides(now: int, was: int, taken: int, p: nat, borrow: int)
    requires 0 <= borrow <= 1 && 0 <= now < p && now - Due(borrow, p) == was - taken
    ensures borrow == 1 <==> was < taken
  {
  }

  lemma TopUnchanged(s: seq<Bigit>, t: seq<Bigit>, k: nat)
    requires |s| == |t| && k <= |s| && s[k..] == t[k..]
    ensures Val(s) - Val(t) == Val(s[..k]) - Val(t[..k])
  {
    ValSplit(s, k);
    ValSplit(t, k);
  }

  lemma BorrowFits(was: seq<Bigit>, ea: nat, b: seq<Bigit>, eb: nat)
    requires eb >= ea && eb - ea + |b| == |was| && Num(was, ea) >= Num(b, eb)
    ensures !(Num(was[..|was|], ea) < Num(b, eb))
  {
    assert was[..|was|] == was;
  }

  lemma Expand(x: int, y: int, z: int, p: int)
    ensures (x - y + z) * p == x * p - y * p + z * p
  {
    Distribute(x - y, z, p);
    Distribute(x, -y, p);
  }

  lemma Difference(was: seq<Bigit>, now: seq<Bigit>, ea: nat, b: seq<Bigit>, eb: nat, extra: int)
    requires eb >= ea && Val(now) == Val(was) - Base(eb - ea) * Val(b) + extra
    ensures Num(now, ea) == Num(was, ea) - Num(b, eb) + extra * Base(ea)
  {
    AlignedNum(Val(b), eb - ea, ea);
    Expand(Val(was), Base(eb - ea) * Val(b), extra, Base(ea));
  }

  /** At most one bigit more than the subtrahend: the top bigit takes the borrow. */
  lemma NeverStuck(a: seq<Bigit>, ea: nat, b: seq<Bigit>, eb: nat)
    requires Normal(a) && b != [] && eb >= ea && |a| + ea <= |b| + eb + 1
    ensures !BorrowStuck(a, ea, b, eb)
  {
  }

  lemma CountCovers(a: seq<Bigit>, ea: nat, b: seq<Bigit>, eb: nat)
    requires Normal(a) && Normal(b) && b != [0] && Num(a, ea) >= Num(b, eb)
    ensures |a| + ea >= |b| + eb
  {
    if |a| + ea < |b| + eb {
      MoreBigitsIsLarger(a, ea, b, eb);
    }
  }

  /** No borrow left: the difference is in place. */
  lemma SubtractDone(was: seq<Bigit>, now: seq<Bigit>, ea: nat, b: seq<Bigit>, eb: nat)
    requires eb >= ea && Taken(was, now, eb - ea, b, |b|, 0)
    ensures Num(now, ea) == Num(was, ea) - Num(b, eb)
    ensures !BorrowStuck(was, ea, b, eb)
  {
    assert b[..|b|] == b;
    ShiftedIs(Val(b), eb - ea);
    BorrowMeaning(was, now, ea, b, eb, 0);
    Difference(was, now, ea, b, eb, 0);
  }

  /** What the source's last loop leaves at the fixed index k: a zero there is decremented twice. */
  function LastBigit(x: Bigit): Bigit {
    if x > 0 then x - 1 else 0xffff_fffe
  }

  /** What the whole subtraction leaves when a borrow of due is left after the last bigit of the subtrahend. */
  function Settled(now: seq<Bigit>, k: nat, due: int): seq<Bigit>
    requires due == 1 ==> k < |now|
  {
    if due == 1 then now[k := LastBigit(now[k])] else now
  }

  /** The states of the last loop, which keeps subtracting the borrow from the same bigit. */
  ghost predicate BorrowLoop(now: seq<Bigit>, cur: seq<Bigit>, k: nat, due: int, borrow: int) {
    && 0 <= borrow <= due <= 1
    && (due == 1 ==> k < |now|)
    && (borrow == 0 ==> cur == Settled(now, k, due))
    && (borrow == 1 ==> cur == now || (now[k] == 0 && cur == now[k := 0xffff_ffff]))
  }

  /** What decrementing bigit k leaves: the difference, and extra units of that place. */
  lemma LastBorrow(was: seq<Bigit>, now: seq<Bigit>, ea: nat, b: seq<Bigit>, eb: nat, x: Bigit)
    requires eb >= ea && Taken(was, now, eb - ea, b, |b|, 1) && eb - ea + |b| < |was|
    ensures var k := eb - ea + |b|; var before: int := was[k];
            now[k] == was[k]
            && Num(now[k := x], ea) == Num(was, ea) - Num(b, eb) + ((x - before + 1) * Base(k)) * Base(ea)
  {
    var k := eb - ea + |b|;
    assert b[..|b|] == b;
    assert now[k] == now[k..][0] == was[k..][0] == was[k];
    ShiftedIs(Val(b), eb - ea);
    ReplaceBigit(now, k, x);
    var before: int := now[k];
    Distribute(x - before, 1, Base(k));
    Difference(was, now[k := x], ea, b, eb, (x - before + 1) * Base(k));
  }

  /** The last borrow out of bigit k is right exactly when that bigit is not zero. */
  lemma SubtractBorrow(was: seq<Bigit>, now: seq<Bigit>, ea: nat, b: seq<Bigit>, eb: nat)
    requires eb >= ea && Taken(was, now, eb - ea, b, |b|, 1)
    requires eb - ea + |b| < |was|
    ensures var k := eb - ea + |b|;
            Num(now[k := LastBigit(now[k])], ea) == Num(was, ea) - Num(b, eb) <==> !BorrowStuck(was, ea, b, eb)
  {
    var k := eb - ea + |b|;
    BorrowMeaning(was, now, ea, b, eb, 1);
    LastBorrow(was, now, ea, b, eb, LastBigit(now[k]));
    PositiveProduct(0xffff_ffff, Base(k));
    PositiveProduct(0xffff_ffff * Base(k), Base(ea));
    assert 0 * Base(k) == 0 && 0 * Base(ea) == 0;
  }

  /** While a borrow is due there is a bigit to take it from. */
  lemma BorrowHasPlace(was: seq<Bigit>, now: seq<Bigit>, ea: nat, b: seq<Bigit>, eb: nat, borrow: int)
    requires eb >= ea && Taken(was, now, eb - ea, b, |b|, borrow) && Num(was, ea) >= Num(b, eb)
    ensures borrow == 1 ==> eb - ea + |b| < |was|
  {
    if eb - ea + |b| == |was| {
      BorrowMeaning(was, now, ea, b, eb, borrow);
      BorrowFits(was, ea, b, eb);
    }
  }

  lemma SubtractEnd(was: seq<Bigit>, now: seq<Bigit>, ea: nat, b: seq<Bigit>, eb: nat, due: int)
    requires eb >= ea && Taken(was, now, eb - ea, b, |b|, due) && Num(was, ea) >= Num(b, eb)
    ensures due == 1 ==> eb - ea + |b| < |now|
    ensures Num(Settled(now, eb - ea + |b|, due), ea) == Num(was, ea) - Num(b, eb) <==> !BorrowStuck(was, ea, b, eb)
  {
    BorrowHasPlace(was, now, ea, b, eb, due);
    if due == 0 {
      SubtractDone(was, now, ea, b, eb);
    } else {
      SubtractBorrow(was, now, ea, b, eb);
    }
  }

  /** Taking 1 from 2^64: the borrow meets a zero bigit and the result is wrong. */
  lemma StuckExample(now: seq<Bigit>, due: int)
    requires Taken([0, 0, 1], now, 0, [1], 1, due)
    ensures BorrowStuck([0, 0, 1], 0, [1], 0) && Num([0, 0, 1], 0) >= Num([1], 0)
    ensures Num(Settled(now, 1, due), 0) != Num([0, 0, 1], 0) - Num([1], 0)
  {
    assert [0, 0, 1][..1] == [0] && [0][1..] == [] && [1][1..] == [];
    assert [0, 0, 1][1..] == [0, 1] && [0, 1][1..] == [1];
    assert Base(0) == 1 && Val([1]) == 1 && Val([0]) == 0;
    SubtractEnd([0, 0, 1], now, 0, [1], 0, due);
  }
}
