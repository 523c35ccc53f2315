/**
 The digit loop of fallback_format over natural numbers: the free-format printing algorithm of Steele & White.
 The number is n/d in units of the first digit; l/d and u/d are the distances to the ends of its rounding interval.
 */
module DigitLoop {
  import opened Powers

  /** The final digit: up when only the upper end is near, else to the nearer one, ties to an even digit. */
  function LastDigit(q: nat, r: nat, d: nat, low: bool, high: bool): nat {
    if !low then q + 1
    else if high && (2 * r > d || (2 * r == d && q % 2 != 0)) then q + 1
    else q
  }

  predicate NearLower(r: nat, l: nat, even: bool, missed: bool) {
    r < l || (r == l && even && !missed)
  }

  predicate NearUpper(r: nat, d: nat, u: nat, even: bool) {
    r + u > d || (r + u == d && even)
  }

  /**
   The digits generated. missTie says that the representation hides an exact tie with the lower end
   from the comparison once a nonzero digit has been taken off (started).
   */
  function Generate(n: nat, d: nat, l: nat, u: nat, even: bool, missTie: bool, started: bool): (ds: seq<nat>)
    requires d > 0 && l > 0
    ensures |ds| > 0
    decreases if l > d then 0 else d + 1 - l
  {
    var q, r := Quotient(n, d), Remainder(n, d);
    var begun := started || q > 0;
    var low := NearLower(r, l, even, missTie && begun);
    var high := NearUpper(r, d, u, even);
    if low || high then [LastDigit(q, r, d, low, high)]
    else [q] + Generate(10 * r, d, 10 * l, 10 * u, even, missTie, begun)
  }

  /** The number a sequence of decimal digits stands for, most significant first. */
  function Decimal(ds: seq<nat>): nat {
    if ds == [] then 0 else ds[0] * Pow(10, |ds| - 1) + Decimal(ds[1..])
  }

  /** x units of the (k+1)-th digit lie in the rounding interval; its ends belong to it only if closed. */
  ghost predicate Within(x: int, k: nat, n: int, d: int, l: int, u: int, closed: bool) {
    var p := Pow(10, k);
    if closed then p * (n - l) <= x * d <= p * (n + u) else p * (n - l) < x * d < p * (n + u)
  }

  /** The value and the upper end stay below ten units: one decimal digit at a time is enough. */
  predicate Below(n: nat, d: nat, u: nat, even: bool) {
    n + u < 10 * d || (n + u == 10 * d && !even)
  }

  lemma DigitBelowTen(n: nat, d: nat)
    requires d > 0 && n < 10 * d
    ensures Quotient(n, d) < 10
  {
    DivMod(n, d);
    if Quotient(n, d) >= 10 {
      MulMonotone(10, Quotient(n, d), d);
    }
  }

  /** Every character stays a digit, even after the final increment. */
  lemma {:induction false} DigitsInRange(n: nat, d: nat, l: nat, u: nat, even: bool, missTie: bool, started: bool)
    requires d > 0 && l > 0 && u > 0 && Below(n, d, u, even)
    ensures forall i :: 0 <= i < |Generate(n, d, l, u, even, missTie, started)|
                        ==> Generate(n, d, l, u, even, missTie, started)[i] <= 9
    decreases if l > d then 0 else d + 1 - l
  {
    var q, r := Quotient(n, d), Remainder(n, d);
    DigitBelowTen(n, d);
    DivMod(n, d);
    var begun := started || q > 0;
    if !NearLower(r, l, even, missTie && begun) && !NearUpper(r, d, u, even) {
      DigitsInRange(10 * r, d, 10 * l, 10 * u, even, missTie, begun);
    } else if q == 9 {
      assert n == 9 * d + r;
    }
  }

  /** When every digit printed is one: the value fits, and a nine at the upper end is not rounded up. */
  predicate Fits(n: nat, d: nat, l: nat, u: nat, even: bool, missTie: bool) {
    || Below(n, d, u, even) || n < 9 * d
    || (n < 10 * d && NearLower(n - 9 * d, l, even, missTie) && 2 * (n - 9 * d) < d)
  }

  /** The digits stop being digits exactly when the first of them does. */
  lemma DigitsFitIff(n: nat, d: nat, l: nat, u: nat, even: bool, missTie: bool)
    requires d > 0 && l > 0 && u > 0
    ensures var ds := Generate(n, d, l, u, even, missTie, false);
            (forall i :: 0 <= i < |ds| ==> ds[i] <= 9) <==> Fits(n, d, l, u, even, missTie)
  {
    var q, r := Quotient(n, d), Remainder(n, d);
    var low, high := NearLower(r, l, even, missTie && q > 0), NearUpper(r, d, u, even);
    DivMod(n, d);
    QuotientSize(n, d, q, r);
    if low || high {
      var ds := Generate(n, d, l, u, even, missTie, false);
      assert ds == [LastDigit(q, r, d, low, high)] && ds[0] == LastDigit(q, r, d, low, high);
      OneDigitFits(q, r, n, d, l, u, even, missTie, low, high);
    } else {
      var rest := Generate(10 * r, d, 10 * l, 10 * u, even, missTie, q > 0);
      var ds := Generate(n, d, l, u, even, missTie, false);
      DigitsInRange(10 * r, d, 10 * l, 10 * u, even, missTie, q > 0);
      assert ds == [q] + rest;
      assert ds[0] == q && forall i :: 1 <= i < |ds| ==> ds[i] == rest[i - 1];
    }
  }

  lemma OneDigitFits(q: nat, r: nat, n: nat, d: nat, l: nat, u: nat, even: bool, missTie: bool, low: bool, high: bool)
    requires n == q * d + r && r < d && l > 0 && u > 0 && (low || high)
    requires low == NearLower(r, l, even, missTie && q > 0) && high == NearUpper(r, d, u, even)
    ensures LastDigit(q, r, d, low, high) <= 9 <==> Fits(n, d, l, u, even, missTie)
  {
    QuotientSize(n, d, q, r);
  }

  lemma QuotientSize(n: nat, d: nat, q: nat, r: nat)
    requires r < d && n == q * d + r
    ensures n < 9 * d <==> q < 9
    ensures n < 10 * d <==> q < 10
  {
    if q < 9 {
      MulMonotone(q, 8, d);
    } else if q > 9 {
      MulMonotone(10, q, d);
    }
  }

  predicate Bounded(ds: seq<nat>) {
    forall i :: 0 <= i < |ds| ==> ds[i] <= 20
  }

  /** Below twenty units no digit passes twenty. */
  lemma DigitsBounded(n: nat, d: nat, l: nat, u: nat, even: bool, missTie: bool)
    requires d > 0 && l > 0 && u > 0 && n < 20 * d
    ensures Bounded(Generate(n, d, l, u, even, missTie, false))
  {
    var q, r := Quotient(n, d), Remainder(n, d);
    DivMod(n, d);
    if q >= 20 {
      MulMonotone(20, q, d);
    }
    if !NearLower(r, l, even, missTie && q > 0) && !NearUpper(r, d, u, even) {
      DigitsInRange(10 * r, d, 10 * l, 10 * u, even, missTie, q > 0);
    }
  }

  lemma MoveUnits(x: int, y: int, q: int, p: int, d: int)
    ensures (q * p + x) * d == p * (q * d) + x * d
    ensures p * (q * d + y) == p * (q * d) + p * y
  {
    Distribute(q * p, x, d);
    MulAssoc(q, p, d);
    MulSwap(q, p, d);
    Distribute(q * d, y, p);
  }

  lemma TenTimes(p: int, y: int)
    ensures (10 * p) * y == p * (10 * y)
  {
    MulAssoc(10, p, y);
    MulSwap(10, p, y);
  }

  /** The distance from an end of the interval, b/d away from the value. */
  lemma EndStep(q: int, r: int, x: int, k: nat, n: int, d: int, b: int)
    requires n == q * d + r && k > 0
    ensures (q * Pow(10, k) + x) * d - Pow(10, k) * (n + b) == x * d - Pow(10, k - 1) * (10 * r + 10 * b)
  {
    MoveUnits(x, r + b, q, Pow(10, k), d);
    TenTimes(Pow(10, k - 1), r + b);
  }

  /** Taking off a digit q moves the interval by q units of that digit and magnifies it tenfold. */
  lemma WithinStep(q: int, r: int, x: int, k: nat, n: int, d: int, l: int, u: int, closed: bool)
    requires n == q * d + r && k > 0
    ensures Within(q * Pow(10, k) + x, k, n, d, l, u, closed)
            <==> Within(x, k - 1, 10 * r, d, 10 * l, 10 * u, closed)
  {
    EndStep(q, r, x, k, n, d, -l);
    EndStep(q, r, x, k, n, d, u);
  }

  lemma LastWithin(q: nat, r: nat, n: nat, d: nat, l: nat, u: nat, even: bool, low: bool, high: bool)
    requires n == q * d + r && 0 <= r < d && l > 0 && u > 0
    requires low ==> NearLower(r, l, even, false)
    requires high == NearUpper(r, d, u, even) && (low || high)
    ensures Within(LastDigit(q, r, d, low, high), 0, n, d, l, u, even)
  {
    Distribute(q, 1, d);
  }

  lemma One(x: nat)
    ensures Decimal([x]) == x
  {
    assert [x][1..] == [];
  }

  /** What is printed reads back: it lies in the rounding interval, on its ends only for an even significand. */
  lemma {:induction false} GeneratedWithin(n: nat, d: nat, l: nat, u: nat, even: bool, missTie: bool, started: bool)
    requires d > 0 && l > 0 && u > 0
    ensures var ds := Generate(n, d, l, u, even, missTie, started);
            Within(Decimal(ds), |ds| - 1, n, d, l, u, even)
    decreases if l > d then 0 else d + 1 - l
  {
    var q, r := Quotient(n, d), Remainder(n, d);
    var begun := started || q > 0;
    var low, high := NearLower(r, l, even, missTie && begun), NearUpper(r, d, u, even);
    DivMod(n, d);
    if low || high {
      LastWithin(q, r, n, d, l, u, even, low, high);
      One(LastDigit(q, r, d, low, high));
    } else {
      var rest := Generate(10 * r, d, 10 * l, 10 * u, even, missTie, begun);
      GeneratedWithin(10 * r, d, 10 * l, 10 * u, even, missTie, begun);
      assert Generate(n, d, l, u, even, missTie, started) == [q] + rest;
      assert ([q] + rest)[1..] == rest;
      assert Decimal([q] + rest) == q * Pow(10, |rest|) + Decimal(rest);
      WithinStep(q, r, Decimal(rest), |rest|, n, d, l, u, even);
    }
  }

  lemma TieStep(q: int, r: int, x: int, k: nat, n: int, d: int, l: int)
    requires n == q * d + r && k > 0
    ensures (q * Pow(10, k) + x) * d == Pow(10, k) * (n - l) <==> x * d == Pow(10, k - 1) * (10 * r - 10 * l)
  {
    MoveUnits(x, r - l, q, Pow(10, k), d);
    TenTimes(Pow(10, k - 1), r - l);
  }

  /** No shorter decimal lies in the interval, but for one that is exactly its lower end when ties there are missed. */
  lemma {:induction false} NoneCoarser(n: nat, d: nat, l: nat, u: nat, even: bool, missTie: bool, started: bool,
                                       x: int, j: nat)
    requires d > 0 && l > 0 && u > 0
    requires j < |Generate(n, d, l, u, even, missTie, started)| - 1
    ensures Within(x, j, n, d, l, u, even) ==> even && missTie && x * d == Pow(10, j) * (n - l)
    decreases j
  {
    var q, r := Quotient(n, d), Remainder(n, d);
    var begun := started || q > 0;
    DivMod(n, d);
    if j == 0 {
      Distribute(q, 1, d);
      if x < q {
        MulStrict(x, q, d);
      } else if x > q {
        MulMonotone(q + 1, x, d);
      }
    } else {
      var rest := x - q * Pow(10, j);
      NoneCoarser(10 * r, d, 10 * l, 10 * u, even, missTie, begun, rest, j - 1);
      WithinStep(q, r, rest, j, n, d, l, u, even);
      TieStep(q, r, rest, j, n, d, l);
    }
  }

  lemma LastNotLowerEnd(q: nat, r: nat, n: nat, d: nat, l: nat, u: nat, even: bool, low: bool, high: bool, begun: bool)
    requires n == q * d + r && 0 <= r < d && l > 0 && u > 0 && (begun || n > l) && (q > 0 ==> begun)
    requires low == NearLower(r, l, even, begun)
    requires high == NearUpper(r, d, u, even) && (low || high)
    ensures LastDigit(q, r, d, low, high) * d != n - l
  {
    Distribute(q, 1, d);
  }

  /** With ties there missed, the digits are never exactly the lower end. */
  lemma {:induction false} NeverLowerEnd(n: nat, d: nat, l: nat, u: nat, even: bool, started: bool)
    requires d > 0 && l > 0 && u > 0 && (started || n > l)
    ensures var ds := Generate(n, d, l, u, even, true, started);
            Decimal(ds) * d != Pow(10, |ds| - 1) * (n - l)
    decreases if l > d then 0 else d + 1 - l
  {
    var q, r := Quotient(n, d), Remainder(n, d);
    var begun := started || q > 0;
    var low, high := NearLower(r, l, even, begun), NearUpper(r, d, u, even);
    DivMod(n, d);
    if low || high {
      LastNotLowerEnd(q, r, n, d, l, u, even, low, high, begun);
      One(LastDigit(q, r, d, low, high));
    } else {
      var rest := Generate(10 * r, d, 10 * l, 10 * u, even, true, begun);
      NeverLowerEnd(10 * r, d, 10 * l, 10 * u, even, begun);
      assert ([q] + rest)[1..] == rest;
      TieStep(q, r, Decimal(rest), |rest|, n, d, l);
    }
  }

  lemma TenfoldWithin(x: int, k: nat, n: int, d: int, l: int, u: int)
    ensures Within(10 * x, k + 1, n, d, l, u, true) <==> Within(x, k, n, d, l, u, true)
    ensures (10 * x) * d == Pow(10, k + 1) * (n - l) <==> x * d == Pow(10, k) * (n - l)
  {
    MulAssoc(10, x, d);
    MulAssoc(10, Pow(10, k), n - l);
    MulAssoc(10, Pow(10, k), n + u);
  }

  /** Writing m zeros after a decimal changes neither its place in the interval nor whether it is the lower end. */
  lemma {:induction false} MagnifiedWithin(x: int, k: nat, m: nat, n: int, d: int, l: int, u: int)
    ensures Within(x * Pow(10, m), k + m, n, d, l, u, true) <==> Within(x, k, n, d, l, u, true)
    ensures (x * Pow(10, m)) * d == Pow(10, k + m) * (n - l) <==> x * d == Pow(10, k) * (n - l)
  {
    if m > 0 {
      MagnifiedWithin(x, k, m - 1, n, d, l, u);
      TenfoldWithin(x * Pow(10, m - 1), k + m - 1, n, d, l, u);
      MulSwap(x, 10, Pow(10, m - 1));
    }
  }

  /** Twice the distance of x units of digit k from the value, in units of that digit over d. */
  ghost function Error(x: int, k: nat, n: int, d: int): int {
    2 * (x * d - Pow(10, k) * n)
  }

  lemma ErrorStep(q: int, r: int, x: int, k: nat, n: int, d: int)
    requires n == q * d + r && k > 0
    ensures Error(q * Pow(10, k) + x, k, n, d) == Error(x, k - 1, 10 * r, d)
  {
    MoveUnits(x, r, q, Pow(10, k), d);
    TenTimes(Pow(10, k - 1), r);
  }

  function Abs(x: int): nat {
    if x < 0 then -x else x
  }

  /** y units of the (k+1)-th digit are strictly nearer to the value than x units. */
  ghost predicate Nearer(y: int, x: int, k: nat, n: int, d: int) {
    Abs(Error(y, k, n, d)) < Abs(Error(x, k, n, d))
  }

  /** A decimal of the same length in the interval, nearer than the digits. */
  ghost predicate BeatsDigits(y: int, ds: seq<nat>, n: int, d: int, l: int, u: int, even: bool)
    requires ds != []
  {
    Within(y, |ds| - 1, n, d, l, u, even) && Nearer(y, Decimal(ds), |ds| - 1, n, d)
  }

  /** y units of the (k+1)-th digit are the lower end, less than half a unit below the value. */
  ghost predicate CloseLowerEnd(y: int, k: nat, n: int, d: int, l: int) {
    y * d == Pow(10, k) * (n - l) && 2 * (Pow(10, k) * l) < d
  }

  /** Taking off a digit keeps which of two decimals is nearer, and whether one is such a lower end. */
  lemma NearerStep(q: int, r: int, y: int, x: int, k: nat, n: int, d: int, l: int)
    requires n == q * d + r && k > 0
    ensures Nearer(q * Pow(10, k) + y, q * Pow(10, k) + x, k, n, d) <==> Nearer(y, x, k - 1, 10 * r, d)
    ensures CloseLowerEnd(q * Pow(10, k) + y, k, n, d, l) <==> CloseLowerEnd(y, k - 1, 10 * r, d, 10 * l)
  {
    ErrorStep(q, r, y, k, n, d);
    ErrorStep(q, r, x, k, n, d);
    TieStep(q, r, y, k, n, d, l);
    TenTimes(Pow(10, k - 1), l);
  }

  lemma LastNearestInside(q: nat, r: nat, n: nat, d: nat, l: nat, u: nat, even: bool, low: bool, high: bool,
                          missed: bool, y: int)
    requires n == q * d + r && 0 <= r < d && l > 0 && u > 0
    requires low == NearLower(r, l, even, missed)
    requires high == NearUpper(r, d, u, even) && (low || high)
    requires Within(y, 0, n, d, l, u, even) && Nearer(y, LastDigit(q, r, d, low, high), 0, n, d)
    ensures even && missed && CloseLowerEnd(y, 0, n, d, l)
  {
    var m := y - q;
    Distribute(q, 1, d);
    Distribute(q, m, d);
    if m < 0 {
      MulMonotone(m, -1, d);
    } else if m > 1 {
      MulMonotone(2, m, d);
    }
  }

  /** No decimal of the same length in the interval is nearer than the digits, but for a lower end missed as a tie. */
  lemma {:induction false} GeneratedNearestInside(n: nat, d: nat, l: nat, u: nat, even: bool, missTie: bool,
                                                  started: bool, y: int)
    requires d > 0 && l > 0 && u > 0
    requires BeatsDigits(y, Generate(n, d, l, u, even, missTie, started), n, d, l, u, even)
    ensures even && missTie && CloseLowerEnd(y, |Generate(n, d, l, u, even, missTie, started)| - 1, n, d, l)
    decreases if l > d then 0 else d + 1 - l
  {
    var q, r := Quotient(n, d), Remainder(n, d);
    var begun := started || q > 0;
    var low, high := NearLower(r, l, even, missTie && begun), NearUpper(r, d, u, even);
    DivMod(n, d);
    if low || high {
      One(LastDigit(q, r, d, low, high));
      LastNearestInside(q, r, n, d, l, u, even, low, high, missTie && begun, y);
    } else {
      var rest := Generate(10 * r, d, 10 * l, 10 * u, even, missTie, begun);
      var z := y - q * Pow(10, |rest|);
      assert Generate(n, d, l, u, even, missTie, started) == [q] + rest;
      assert ([q] + rest)[1..] == rest;
      assert Decimal([q] + rest) == q * Pow(10, |rest|) + Decimal(rest);
      WithinStep(q, r, z, |rest|, n, d, l, u, even);
      NearerStep(q, r, z, Decimal(rest), |rest|, n, d, l);
      GeneratedNearestInside(10 * r, d, 10 * l, 10 * u, even, missTie, begun, z);
    }
  }

  lemma LastLowerEndNearer(q: nat, r: nat, n: nat, d: nat, l: nat, u: nat, low: bool, high: bool, begun: bool, y: int)
    requires n == q * d + r && 0 <= r < d && l > 0 && u > 0 && (begun || n > l) && (q > 0 ==> begun)
    requires low == NearLower(r, l, true, begun)
    requires high == NearUpper(r, d, u, true) && (low || high)
    requires CloseLowerEnd(y, 0, n, d, l)
    ensures Nearer(y, LastDigit(q, r, d, low, high), 0, n, d)
  {
    var m := y - q;
    Distribute(q, 1, d);
    Distribute(q, m, d);
    if m < 0 {
      MulMonotone(m, -1, d);
    } else if m > 0 {
      MulMonotone(1, m, d);
    }
  }

  /** And such a lower end is nearer than what is printed. */
  lemma {:induction false} LowerEndNearer(n: nat, d: nat, l: nat, u: nat, started: bool, y: int)
    requires d > 0 && l > 0 && u > 0 && (started || n > l)
    requires CloseLowerEnd(y, |Generate(n, d, l, u, true, true, started)| - 1, n, d, l)
    ensures var ds := Generate(n, d, l, u, true, true, started);
            Nearer(y, Decimal(ds), |ds| - 1, n, d)
    decreases if l > d then 0 else d + 1 - l
  {
    var q, r := Quotient(n, d), Remainder(n, d);
    var begun := started || q > 0;
    var low, high := NearLower(r, l, true, begun), NearUpper(r, d, u, true);
    DivMod(n, d);
    if low || high {
      One(LastDigit(q, r, d, low, high));
      LastLowerEndNearer(q, r, n, d, l, u, low, high, begun, y);
    } else {
      var rest := Generate(10 * r, d, 10 * l, 10 * u, true, true, begun);
      var z := y - q * Pow(10, |rest|);
      assert ([q] + rest)[1..] == rest;
      NearerStep(q, r, z, Decimal(rest), |rest|, n, d, l);
      LowerEndNearer(10 * r, d, 10 * l, 10 * u, begun, z);
    }
  }

  /** Two decimals of the (k+1)-th digit, equally far from the value. */
  ghost predicate Tied(y: int, x: int, k: nat, n: int, d: int) {
    y != x && Abs(Error(y, k, n, d)) == Abs(Error(x, k, n, d))
  }

  /** y units of the (k+1)-th digit are the lower end, half a unit below the value. */
  ghost predicate HalfwayLowerEnd(y: int, k: nat, n: int, d: int, l: int) {
    y * d == Pow(10, k) * (n - l) && 2 * (Pow(10, k) * l) == d
  }

  lemma TiedStep(q: int, r: int, y: int, x: int, k: nat, n: int, d: int, l: int)
    requires n == q * d + r && k > 0
    ensures Tied(q * Pow(10, k) + y, q * Pow(10, k) + x, k, n, d) <==> Tied(y, x, k - 1, 10 * r, d)
    ensures HalfwayLowerEnd(q * Pow(10, k) + y, k, n, d, l) <==> HalfwayLowerEnd(y, k - 1, 10 * r, d, 10 * l)
  {
    ErrorStep(q, r, y, k, n, d);
    ErrorStep(q, r, x, k, n, d);
    TieStep(q, r, y, k, n, d, l);
    TenTimes(Pow(10, k - 1), l);
  }

  lemma LastTie(q: nat, r: nat, n: nat, d: nat, l: nat, u: nat, even: bool, low: bool, high: bool, missed: bool, y: int)
    requires n == q * d + r && 0 <= r < d && l > 0 && u > 0
    requires low == NearLower(r, l, even, missed)
    requires high == NearUpper(r, d, u, even) && (low || high)
    requires Within(y, 0, n, d, l, u, even) && Tied(y, LastDigit(q, r, d, low, high), 0, n, d)
    ensures LastDigit(q, r, d, low, high) % 2 == 0 || (even && missed && HalfwayLowerEnd(y, 0, n, d, l))
  {
    var m := y - q;
    Distribute(q, 1, d);
    Distribute(q, m, d);
    if m < 0 {
      MulMonotone(m, -1, d);
    } else if m > 1 {
      MulMonotone(2, m, d);
    }
  }

  /** The digits in front of the last one do not change the parity. */
  lemma ParityStep(q: int, x: int, k: nat)
    requires k > 0
    ensures (q * Pow(10, k) + x) % 2 == x % 2
  {
    MulSwap(q, 10, Pow(10, k - 1));
    TensAreEven(q * Pow(10, k - 1), x);
  }

  lemma TensAreEven(y: int, x: int)
    ensures (10 * y + x) % 2 == x % 2
  {
  }

  /**
   Half to even: when another decimal of the same length in the interval is as near as the digits, they are even, but
   for a lower end missed as a tie.
   */
  lemma {:induction false} GeneratedTieIsEven(n: nat, d: nat, l: nat, u: nat, even: bool, missTie: bool,
                                              started: bool, y: int)
    requires d > 0 && l > 0 && u > 0
    requires var ds := Generate(n, d, l, u, even, missTie, started);
             Within(y, |ds| - 1, n, d, l, u, even) && Tied(y, Decimal(ds), |ds| - 1, n, d)
    ensures var ds := Generate(n, d, l, u, even, missTie, started);
            Decimal(ds) % 2 == 0 || (even && missTie && HalfwayLowerEnd(y, |ds| - 1, n, d, l))
    decreases if l > d then 0 else d + 1 - l
  {
    var q, r := Quotient(n, d), Remainder(n, d);
    var begun := started || q > 0;
    var low, high := NearLower(r, l, even, missTie && begun), NearUpper(r, d, u, even);
    DivMod(n, d);
    if low || high {
      One(LastDigit(q, r, d, low, high));
      LastTie(q, r, n, d, l, u, even, low, high, missTie && begun, y);
    } else {
      var rest := Generate(10 * r, d, 10 * l, 10 * u, even, missTie, begun);
      var z := y - q * Pow(10, |rest|);
      assert Generate(n, d, l, u, even, missTie, started) == [q] + rest;
      assert ([q] + rest)[1..] == rest;
      assert Decimal([q] + rest) == q * Pow(10, |rest|) + Decimal(rest);
      WithinStep(q, r, z, |rest|, n, d, l, u, even);
      TiedStep(q, r, z, Decimal(rest), |rest|, n, d, l);
      ParityStep(q, Decimal(rest), |rest|);
      GeneratedTieIsEven(10 * r, d, 10 * l, 10 * u, even, missTie, begun, z);
    }
  }

  lemma LastNearest(q: nat, r: nat, n: nat, d: nat, l: nat, even: bool, low: bool, high: bool, missed: bool)
    requires n == q * d + r && 0 <= r < d && l > 0
    requires low == NearLower(r, l, even, missed)
    requires high == NearUpper(r, d, l, even) && (low || high)
    ensures 0 <= Error(LastDigit(q, r, d, low, high), 0, n, d) + d <= 2 * d
  {
    Distribute(q, 1, d);
  }

  /** With equal distances to both ends the digits are also the nearest ones at their last place. */
  lemma {:induction false} GeneratedNearest(n: nat, d: nat, l: nat, even: bool, missTie: bool, started: bool)
    requires d > 0 && l > 0
    ensures var ds := Generate(n, d, l, l, even, missTie, started);
            0 <= Error(Decimal(ds), |ds| - 1, n, d) + d <= 2 * d
    decreases if l > d then 0 else d + 1 - l
  {
    var q, r := Quotient(n, d), Remainder(n, d);
    var begun := started || q > 0;
    var low, high := NearLower(r, l, even, missTie && begun), NearUpper(r, d, l, even);
    DivMod(n, d);
    if low || high {
      LastNearest(q, r, n, d, l, even, low, high, missTie && begun);
      One(LastDigit(q, r, d, low, high));
    } else {
      var rest := Generate(10 * r, d, 10 * l, 10 * l, even, missTie, begun);
      GeneratedNearest(10 * r, d, 10 * l, even, missTie, begun);
      assert ([q] + rest)[1..] == rest;
      ErrorStep(q, r, Decimal(rest), |rest|, n, d);
    }
  }
}
