/** Little-endian numbers in base 2^32: the value of a sequence of bigits, and powers of the base. */
module Limbs {
  import opened Powers

  type Bigit = x: int | 0 <= x < 0x1_0000_0000
  type Word = x: int | 0 <= x < 0x1_0000_0000_0000_0000

  /** 2^(32*n). */
  function Base(n: nat): (r: nat)
    ensures r >= 1
  {
    if n == 0 then 1 else 0x1_0000_0000 * Base(n - 1)
  }

  /** The number a sequence of bigits stands for, least significant bigit first. */
  function Val(s: seq<Bigit>): nat {
    if s == [] then 0 else s[0] + 0x1_0000_0000 * Val(s[1..])
  }

  function Zeros(n: nat): (s: seq<Bigit>)
    ensures |s| == n
    ensures forall k :: 0 <= k < n ==> s[k] == 0
  {
    seq(n, _ => 0)
  }

  /** Normal form: at least one bigit, and no leading zero unless it is the only bigit. */
  predicate Normal(s: seq<Bigit>) {
    |s| > 0 && (|s| > 1 ==> s[|s| - 1] != 0)
  }

  function Sign(x: int): int {
    if x > 0 then 1 else if x < 0 then -1 else 0
  }

  lemma {:induction false} BaseAdd(m: nat, n: nat)
    ensures Base(m + n) == Base(m) * Base(n)
  {
    if m > 0 {
      BaseAdd(m - 1, n);
      assert Base(m + n) == 0x1_0000_0000 * Base(m - 1 + n);
      MulAssoc(0x1_0000_0000, Base(m - 1), Base(n));
    }
  }

  /** The base is 2^32, so 32 binary places make one bigit. */
  lemma {:induction false} BaseIsPow2(n: nat)
    ensures Base(n) == Pow(2, 32 * n)
  {
    if n > 0 {
      BaseIsPow2(n - 1);
      PowAdd(2, 32, 32 * (n - 1));
      Pow2Of32();
    }
  }

  lemma Pow2Of32()
    ensures Pow(2, 32) == 0x1_0000_0000
  {
    PowAdd(2, 8, 8);
    PowAdd(2, 16, 16);
    assert Pow(2, 8) == 256;
  }

  lemma {:induction false} BaseMonotone(m: nat, n: nat)
    requires m <= n
    ensures Base(m) <= Base(n)
  {
    if m < n {
      BaseMonotone(m, n - 1);
    }
  }

  lemma {:induction false} ValAppend(s: seq<Bigit>, t: seq<Bigit>)
    ensures Val(s + t) == Val(s) + Base(|s|) * Val(t)
  {
    if s == [] {
      assert s + t == t;
    } else {
      assert (s + t)[1..] == s[1..] + t;
      ValAppend(s[1..], t);
      MulAssoc(0x1_0000_0000, Base(|s| - 1), Val(t));
    }
  }

  lemma ValSingle(x: Bigit)
    ensures Val([x]) == x
  {
    assert [x][1..] == [];
  }

  lemma ValSnoc(s: seq<Bigit>, x: Bigit)
    ensures Val(s + [x]) == Val(s) + x * Base(|s|)
  {
    ValAppend(s, [x]);
    ValSingle(x);
  }

  lemma ValSplit(s: seq<Bigit>, i: nat)
    requires i <= |s|
    ensures Val(s) == Val(s[..i]) + Base(i) * Val(s[i..])
  {
    assert s == s[..i] + s[i..];
    ValAppend(s[..i], s[i..]);
  }

  /** Writing bigit i and moving the boundary past it. */
  lemma ValPrefix(s: seq<Bigit>, i: nat)
    requires i < |s|
    ensures Val(s[..i + 1]) == Val(s[..i]) + s[i] * Base(i)
  {
    assert s[..i + 1] == s[..i] + [s[i]];
    ValSnoc(s[..i], s[i]);
  }

  lemma {:induction false} ValBound(s: seq<Bigit>)
    ensures Val(s) < Base(|s|)
  {
    if s != [] {
      ValBound(s[1..]);
    }
  }

  lemma ValLower(s: seq<Bigit>)
    requires |s| > 0 && s[|s| - 1] != 0
    ensures Val(s) >= Base(|s| - 1)
  {
    var n := |s| - 1;
    assert s[..n] + [s[n]] == s;
    ValSnoc(s[..n], s[n]);
    MulMonotone(1, s[n], Base(n));
  }

  lemma {:induction false} ValZeros(n: nat)
    ensures Val(Zeros(n)) == 0
  {
    if n > 0 {
      assert Zeros(n)[1..] == Zeros(n - 1);
      ValZeros(n - 1);
    }
  }

  /** A number is zero exactly when all its bigits are. */
  lemma {:induction false} ValZero(s: seq<Bigit>)
    ensures Val(s) == 0 <==> s == Zeros(|s|)
  {
    if s != [] {
      ValZero(s[1..]);
      assert s == [s[0]] + s[1..];
      assert Zeros(|s|) == [0] + Zeros(|s| - 1);
      if s == Zeros(|s|) {
        assert s[1..] == Zeros(|s| - 1);
      }
    } else {
      assert s == Zeros(0);
    }
  }

  /** In normal form a number of n bigits is at least 2^(32*(n-1)), unless it is the single bigit 0. */
  lemma NormalBounds(s: seq<Bigit>)
    requires Normal(s)
    ensures Val(s) == 0 <==> s == [0]
    ensures s != [0] ==> Base(|s| - 1) <= Val(s)
    ensures Val(s) < Base(|s|)
  {
    ValBound(s);
    if s == [0] {
      assert s[1..] == [];
    } else {
      if |s| == 1 {
        assert s == [s[0]];
        assert s[0] != 0;
      }
      ValLower(s);
    }
  }

  /** Bigit-wise equal length: equal values have equal bigits. */
  lemma {:induction false} ValInjective(s: seq<Bigit>, t: seq<Bigit>)
    requires |s| == |t| && Val(s) == Val(t)
    ensures s == t
  {
    if s != [] {
      assert s[0] == Val(s) % 0x1_0000_0000 == t[0];
      ValInjective(s[1..], t[1..]);
      assert s == [s[0]] + s[1..];
      assert t == [t[0]] + t[1..];
    }
  }
}
