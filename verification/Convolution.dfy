/** The product of two numbers as a sum of cross products i + j == k, column by column. */
module Convolution {
  import opened Limbs
  import opened Powers

  function At(s: seq<Bigit>, i: int): Bigit {
    if 0 <= i < |s| then s[i] else 0
  }

  /** Column k: the sum of a[i] * b[j] over i + j == k. */
  ghost function Column(a: seq<Bigit>, b: seq<Bigit>, k: int): int {
    if a == [] then 0 else a[0] * At(b, k) + Column(a[1..], b, k - 1)
  }

  /** The first n columns at their weights. */
  ghost function Columns(a: seq<Bigit>, b: seq<Bigit>, n: nat): int {
    if n == 0 then 0 else Columns(a, b, n - 1) + Column(a, b, n - 1) * Base(n - 1)
  }

  lemma {:induction false} ColumnBelowZero(a: seq<Bigit>, b: seq<Bigit>, k: int)
    requires k < 0
    ensures Column(a, b, k) == 0
  {
    if a != [] {
      ColumnBelowZero(a[1..], b, k - 1);
    }
  }

  lemma {:induction false} ColumnBounds(a: seq<Bigit>, b: seq<Bigit>, k: int)
    ensures 0 <= Column(a, b, k) <= |a| * 0xffff_fffe_0000_0001
  {
    if a != [] {
      ColumnBounds(a[1..], b, k - 1);
      MulMonotone(0, a[0], At(b, k));
      MulMonotone(a[0], 0xffff_ffff, At(b, k));
    }
  }

  /** Terms whose partner lies past the end of b contribute nothing. */
  lemma {:induction false} SkipTerms(a: seq<Bigit>, b: seq<Bigit>, k: int, i: nat)
    requires i <= |a| && k - i >= |b| - 1
    ensures Column(a, b, k) == Column(a[i..], b, k - i)
  {
    if i == 0 {
      assert a[0..] == a;
    } else {
      SkipTerms(a[1..], b, k - 1, i - 1);
      assert a[1..][i - 1..] == a[i..];
    }
  }

  /** One cross product leaves the rest of the column. */
  lemma TakeTerm(a: seq<Bigit>, b: seq<Bigit>, i: nat, j: int)
    requires i < |a|
    ensures Column(a[i..], b, j) == a[i] * At(b, j) + Column(a[i + 1..], b, j - 1)
  {
    assert a[i..][1..] == a[i + 1..];
  }

  lemma {:induction false} ColumnsOfEmpty(b: seq<Bigit>, n: nat)
    ensures Columns([], b, n) == 0
  {
    if n > 0 {
      ColumnsOfEmpty(b, n - 1);
    }
  }

  /** b cut or padded to n places. */
  ghost function Places(b: seq<Bigit>, n: nat): int {
    if n == 0 then 0 else Places(b, n - 1) + At(b, n - 1) * Base(n - 1)
  }

  lemma {:induction false} PlacesIsVal(b: seq<Bigit>, n: nat)
    ensures n <= |b| ==> Places(b, n) == Val(b[..n])
    ensures n >= |b| ==> Places(b, n) == Val(b)
  {
    if n == 0 {
      assert b[..0] == [];
    } else {
      PlacesIsVal(b, n - 1);
      if n <= |b| {
        ValPrefix(b, n - 1);
      }
      if n == |b| {
        assert b[..n] == b;
      }
    }
  }

  lemma {:induction false} PeelFirst(a: seq<Bigit>, b: seq<Bigit>, n: nat)
    requires a != [] && n > 0
    ensures Columns(a, b, n) == a[0] * Places(b, n) + 0x1_0000_0000 * Columns(a[1..], b, n - 1)
  {
    var w := Base(n - 1);
    var rest := Column(a[1..], b, n - 2);
    Distribute(a[0] * At(b, n - 1), rest, w);
    MulAssoc(a[0], At(b, n - 1), w);
    if n == 1 {
      ColumnBelowZero(a[1..], b, -1);
    } else {
      PeelFirst(a, b, n - 1);
      MulSwap(rest, 0x1_0000_0000, Base(n - 2));
      DistributeLeft(a[0], Places(b, n - 1), At(b, n - 1) * w);
    }
  }

  lemma DistributeLeft(x: int, y: int, z: int)
    ensures x * (y + z) == x * y + x * z
  {
  }

  /** With enough columns the sum is the product. */
  lemma {:induction false} ColumnsAreProduct(a: seq<Bigit>, b: seq<Bigit>, n: nat)
    requires n >= |a| + |b|
    ensures Columns(a, b, n) == Val(a) * Val(b)
  {
    if a == [] {
      ColumnsOfEmpty(b, n);
    } else {
      PeelFirst(a, b, n);
      PlacesIsVal(b, n);
      ColumnsAreProduct(a[1..], b, n - 1);
      Distribute(a[0], 0x1_0000_0000 * Val(a[1..]), Val(b));
      MulAssoc(0x1_0000_0000, Val(a[1..]), Val(b));
    }
  }

  /** A running sum with this bound never outgrows 128 bits, and the carry keeps the bound. */
  lemma CarryBound(n: nat, sum: nat, column: nat)
    requires n < 0x4000_0000
    requires sum <= n * 0x1_0000_0000 && column <= n * 0xffff_fffe_0000_0001
    ensures sum + column < 0x1_0000_0000_0000_0000_0000_0000_0000_0000
    ensures (sum + column) / 0x1_0000_0000 <= n * 0x1_0000_0000
  {
  }

  /** Emitting the low bigit of the column sum and carrying the rest keeps the total. */
  lemma EmitBigit(done: int, carry: nat, column: nat, w: nat)
    ensures var sum := carry + column;
            done + (sum % 0x1_0000_0000) * w + (sum / 0x1_0000_0000) * (0x1_0000_0000 * w)
            == done + carry * w + column * w
  {
    var sum := carry + column;
    var lo, hi := sum % 0x1_0000_0000, sum / 0x1_0000_0000;
    MulAssoc(hi, 0x1_0000_0000, w);
    Distribute(lo, hi * 0x1_0000_0000, w);
    Distribute(carry, column, w);
  }

  lemma SquareValue(v: int, e: nat)
    ensures (v * v) * Base(2 * e) == (v * Base(e)) * (v * Base(e))
  {
    var p := Base(e);
    BaseAdd(e, e);
    MulAssoc(v, v, p * p);
    MulSwap(v, p, p);
    MulAssoc(v, p, v * p);
    MulSwap(p, v, p);
  }

  lemma FullProduct(v: nat, s: seq<Bigit>, carry: nat, n: nat)
    requires |s| == 2 * n && Val(s) + carry * Base(2 * n) == v * v && v < Base(n)
    ensures carry == 0
  {
    BaseAdd(n, n);
    NoCarry(Val(s), carry, v, Base(n));
  }

  lemma NoCarry(low: nat, carry: nat, v: nat, b: nat)
    requires low + carry * (b * b) == v * v && v < b
    ensures carry == 0
  {
    MulMonotone(v, b, v);
    MulStrict(v, b, b);
    if carry > 0 {
      MulMonotone(1, carry, b * b);
    }
  }

  /** The columns below k are written and the carry stands for the rest of their sum. */
  ghost predicate Squared(n: seq<Bigit>, out: seq<Bigit>, k: nat, carry: int) {
    && |out| == 2 * |n| && k <= |out|
    && 0 <= carry <= |n| * 0x1_0000_0000
    && Val(out[..k]) + carry * Base(k) == Columns(n, n, k)
  }

  lemma SquaredStep(n: seq<Bigit>, out: seq<Bigit>, k: nat, carry: nat)
    requires |n| < 0x4000_0000 && k < |out| && Squared(n, out, k, carry)
    ensures 0 <= carry + Column(n, n, k) < 0x1_0000_0000_0000_0000_0000_0000_0000_0000
    ensures var sum := carry + Column(n, n, k);
            Squared(n, out[k := sum % 0x1_0000_0000], k + 1, sum / 0x1_0000_0000)
  {
    ColumnBounds(n, n, k);
    CarryBound(|n|, carry, Column(n, n, k));
    EmitBigit(Val(out[..k]), carry, Column(n, n, k), Base(k));
    var next := out[k := (carry + Column(n, n, k)) % 0x1_0000_0000];
    ValPrefix(next, k);
    assert next[..k] == out[..k];
  }

  lemma SquaredEnd(n: seq<Bigit>, out: seq<Bigit>, carry: int)
    requires Squared(n, out, 2 * |n|, carry)
    ensures Val(out) == Val(n) * Val(n)
  {
    assert out[..2 * |n|] == out;
    ColumnsAreProduct(n, n, 2 * |n|);
    ValBound(n);
    FullProduct(Val(n), out, carry, |n|);
  }
}
