/** Decimal digits in a character buffer. */
module DecimalText {
  import opened Powers

  /** The number in a run of characters, each counted by its distance from '0'. */
  function Number(s: seq<char>): int {
    if s == [] then 0 else 10 * Number(s[..|s| - 1]) + (s[|s| - 1] as int - '0' as int)
  }

  predicate AllDigits(s: seq<char>) {
    forall i :: 0 <= i < |s| ==> '0' <= s[i] <= '9'
  }

  lemma NumberAppend(s: seq<char>, c: char)
    ensures Number(s + [c]) == 10 * Number(s) + (c as int - '0' as int)
  {
    assert (s + [c])[..|s|] == s;
  }

  /** Changing one character changes the number by that much at its weight. */
  lemma {:induction false} NumberUpdate(s: seq<char>, i: nat, c: char)
    requires i < |s|
    ensures Number(s[i := c]) == Number(s) + (c as int - s[i] as int) * Pow(10, |s| - 1 - i)
  {
    var n := |s| - 1;
    if i == n {
      assert s[i := c][..n] == s[..n];
    } else {
      NumberUpdate(s[..n], i, c);
      assert s[i := c][..n] == s[..n][i := c];
      MulSwap(10, c as int - s[i] as int, Pow(10, n - 1 - i));
    }
  }

  lemma {:induction false} NumberBounds(s: seq<char>)
    requires AllDigits(s)
    ensures 0 <= Number(s) < Pow(10, |s|)
  {
    if s != [] {
      NumberBounds(s[..|s| - 1]);
    }
  }

  /** Digits with at most a ten at position i and zeros after it: a carry on its way up. */
  ghost predicate Rippling(s: seq<char>, i: nat) {
    && i < |s|
    && (forall k :: 0 <= k < |s| && k != i ==> '0' <= s[k] <= '9')
    && '0' <= s[i] && s[i] as int <= '9' as int + 1
    && (s[i] > '9' ==> forall k :: i < k < |s| ==> s[k] == '0')
  }

  /** Moving the carry one place up keeps the number. */
  lemma RippleStep(s: seq<char>, i: nat)
    requires 0 < i && Rippling(s, i) && s[i] > '9'
    ensures s[i - 1] as int + 1 <= '9' as int + 1
    ensures var next := s[i := '0'][i - 1 := (s[i - 1] as int + 1) as char];
            Rippling(next, i - 1) && Number(next) == Number(s)
  {
    var one := s[i := '0'];
    var p := Pow(10, |s| - 1 - i);
    NumberUpdate(s, i, '0');
    NumberUpdate(one, i - 1, (s[i - 1] as int + 1) as char);
    assert Pow(10, |s| - 1 - (i - 1)) == 10 * p;
  }

  lemma {:induction false} NumberOfZeros(s: seq<char>)
    requires forall k :: 0 <= k < |s| ==> s[k] == '0'
    ensures Number(s) == 0
  {
    if s != [] {
      NumberOfZeros(s[..|s| - 1]);
    }
  }

  lemma {:induction false} NumberJoin(s: seq<char>, t: seq<char>)
    ensures Number(s + t) == Number(s) * Pow(10, |t|) + Number(t)
  {
    if t == [] {
      assert s + t == s;
    } else {
      var n := |t| - 1;
      assert (s + t)[..|s + t| - 1] == s + t[..n];
      NumberJoin(s, t[..n]);
      MulSwap(10, Number(s), Pow(10, n));
    }
  }

  /** A carry out of the first digit: all the others are zero, and the number is the next power of ten. */
  lemma CarryOut(s: seq<char>)
    requires Rippling(s, 0) && s[0] > '9'
    ensures var next := s[0 := '1'] + ['0']; AllDigits(next) && Number(next) == Number(s) == Pow(10, |s|)
  {
    var rest := s[1..];
    NumberOfZeros(rest);
    NumberJoin([s[0]], rest);
    assert s == [s[0]] + rest;
    assert s[0 := '1'] == ['1'] + rest;
    NumberJoin(['1'], rest);
    assert Number(['1']) == 1 && Number([s[0]]) == 10;
    NumberAppend(s[0 := '1'], '0');
  }

  function DigitChar(d: nat): char
    requires d < 10
  {
    ('0' as int + d) as char
  }

  /** The decimal digits of n, most significant first. */
  function Digits(n: nat): (s: string)
    ensures s != []
  {
    if n < 10 then [DigitChar(n)] else Digits(n / 10) + [DigitChar(n % 10)]
  }

  lemma {:induction false} DigitsAreNumber(n: nat)
    ensures AllDigits(Digits(n)) && Number(Digits(n)) == n
  {
    if n >= 10 {
      DigitsAreNumber(n / 10);
      NumberAppend(Digits(n / 10), DigitChar(n % 10));
    } else {
      assert Digits(n)[..0] == [];
    }
  }

  /** No leading zero: the number of digits is fixed by the powers of ten around n. */
  lemma {:induction false} DigitsLength(n: nat)
    ensures n < Pow(10, |Digits(n)|)
    ensures n >= 10 ==> |Digits(n)| >= 2 && Pow(10, |Digits(n)| - 1) <= n
    ensures n < 10 ==> |Digits(n)| == 1
  {
    if n >= 10 {
      DigitsLength(n / 10);
      if n / 10 < 10 {
        assert Pow(10, 1) == 10 * Pow(10, 0) == 10;
      }
    } else {
      assert Pow(10, 1) == 10 * Pow(10, 0) == 10;
    }
  }

  lemma DigitsDiffer(m: nat, n: nat)
    requires m != n
    ensures Digits(m) != Digits(n)
  {
    DigitsAreNumber(m);
    DigitsAreNumber(n);
  }
}
