/** Locale digit grouping: the size predicted for a number and the characters written for it. */
module DigitGrouping {
  import opened DecimalText
  import opened Powers
  import opened CountDigits

  /** A char that ends grouping: not positive, or the largest. */
  predicate Stops(g: int) {
    g <= 0 || g == 127
  }

  function Following(groups: seq<int>): seq<int>
    requires groups != []
  {
    if |groups| == 1 then groups else groups[1..]
  }

  /** A separator goes to the left of the last n digits: the group sizes add up to n, the last one repeating. */
  predicate Boundary(groups: seq<int>, n: int)
    requires groups != []
    decreases n
  {
    var g := groups[0];
    if Stops(g) || n < g then false else n == g || Boundary(Following(groups), n - g)
  }

  /** Separators among count digits. */
  function Separators(groups: seq<int>, count: nat): nat
    requires groups != []
  {
    if count <= 1 then 0 else Separators(groups, count - 1) + (if Boundary(groups, count - 1) then 1 else 0)
  }

  /** Digits with the separators in; n digits are already to their right. */
  function Grouped(digits: string, groups: seq<int>, n: nat, sep: char): string
    requires groups != []
  {
    if |digits| <= 1 then digits else
      var m := |digits| - 1;
      Grouped(digits[..m], groups, n + 1, sep) + (if Boundary(groups, n + 1) then [sep] else []) + [digits[m]]
  }

  lemma {:induction false} GroupedLength(digits: string, groups: seq<int>, n: nat, sep: char)
    requires groups != [] && digits != []
    ensures |Grouped(digits, groups, n, sep)| == |digits| + Separators(groups, n + |digits|) - Separators(groups, n + 1)
  {
    if |digits| > 1 {
      GroupedLength(digits[..|digits| - 1], groups, n + 1, sep);
    }
  }

  /** Removing the separators leaves the digits. */
  function Without(s: string, sep: char): string {
    if s == [] then [] else
      var m := |s| - 1;
      if s[m] == sep then Without(s[..m], sep) else Without(s[..m], sep) + [s[m]]
  }

  lemma WithoutSnoc(s: string, c: char, sep: char)
    ensures Without(s + [c], sep) == if c == sep then Without(s, sep) else Without(s, sep) + [c]
  {
    assert (s + [c])[..|s|] == s;
  }

  lemma {:induction false} SeparatorsRemoved(digits: string, groups: seq<int>, n: nat, sep: char)
    requires groups != [] && sep !in digits
    ensures Without(Grouped(digits, groups, n, sep), sep) == digits
  {
    if |digits| > 1 {
      var m := |digits| - 1;
      var rest := Grouped(digits[..m], groups, n + 1, sep);
      SeparatorsRemoved(digits[..m], groups, n + 1, sep);
      if Boundary(groups, n + 1) {
        WithoutSnoc(rest, sep, sep);
        WithoutSnoc(rest + [sep], digits[m], sep);
      } else {
        WithoutSnoc(rest, digits[m], sep);
        assert rest + [] == rest;
      }
    } else if |digits| == 1 {
      WithoutSnoc([], digits[0], sep);
      assert [] + [digits[0]] == digits;
    }
  }

  // The prediction in on_num.

  lemma {:induction false} NoSeparators(groups: seq<int>, count: nat)
    requires groups != [] && (Stops(groups[0]) || count <= groups[0])
    ensures Separators(groups, count) == 0
  {
    if count > 1 {
      NoSeparators(groups, count - 1);
    }
  }

  lemma {:induction false} OneMore(groups: seq<int>, count: nat)
    requires groups != [] && !Stops(groups[0]) && count > groups[0]
    ensures Separators(groups, count) == 1 + Separators(Following(groups), count - groups[0])
  {
    if count == groups[0] + 1 {
      NoSeparators(groups, groups[0]);
    } else {
      OneMore(groups, count - 1);
    }
  }

  /** With one size left, a separator every g digits. */
  lemma {:induction false} Repeating(g: int, count: nat)
    requires !Stops(g) && count >= 1
    ensures var q := Separators([g], count); g * q <= count - 1 < g * q + g
  {
    if count <= g {
      NoSeparators([g], count);
    } else {
      OneMore([g], count);
      Repeating(g, count - g);
      AddOne(g, Separators([g], count - g));
    }
  }

  lemma AddOne(g: int, q: int)
    ensures g * (1 + q) == g * q + g
  {
  }

  lemma RepeatingIsQuotient(g: int, count: nat)
    requires !Stops(g) && count >= 1
    ensures Separators([g], count) == (count - 1) / g
  {
    Repeating(g, count);
    var q := Separators([g], count);
    QuotientIs(count - 1, g, q, count - 1 - g * q);
  }

  /** The group in use at position i; past the end the last one repeats. */
  function Rest(groups: seq<int>, i: nat): (r: seq<int>)
    requires groups != [] && i <= |groups|
    ensures r != []
  {
    if i < |groups| then groups[i..] else [groups[|groups| - 1]]
  }

  /** The size on_num computes is the digits plus the separators. */
  method PredictSize(digits: nat, groups: seq<int>) returns (size: nat)
    requires digits >= 1 && groups != []
    ensures size == digits + Separators(groups, digits)
  {
    size := digits;
    var left: int, group := digits, 0;
    assert groups[0..] == groups;
    while group < |groups| && left > groups[group] && groups[group] > 0 && groups[group] != 127
      invariant 0 <= group <= |groups| && left >= 1
      invariant size + Separators(Rest(groups, group), left) == digits + Separators(groups, digits)
      invariant group == |groups| ==> !Stops(groups[group - 1])
    {
      OneMore(Rest(groups, group), left);
      assert Following(Rest(groups, group)) == Rest(groups, group + 1);
      size := size + 1;
      left := left - groups[group];
      group := group + 1;
    }
    if group == |groups| {
      RepeatingIsQuotient(groups[group - 1], left);
      size := size + (left - 1) / groups[group - 1];
    } else {
      NoSeparators(Rest(groups, group), left);
    }
  }

  // The writer.

  /** The boundaries past n digits are those of the groups gs past k digits. */
  ghost predicate SameFrom(groups: seq<int>, n: nat, gs: seq<int>, k: int)
    requires groups != [] && gs != []
  {
    forall p :: p > n ==> Boundary(groups, p) == Boundary(gs, p - n + k)
  }

  /** num_writer: the state its callback keeps while format_decimal fills the buffer from its end. */
  class NumWriter {
    const groups: seq<int>
    const sep: char
    const buffer: array<char>
    var pos: nat
    var group: nat
    var digitIndex: nat
    ghost var calls: nat

    constructor (groups: seq<int>, sep: char, buffer: array<char>)
      requires groups != []
      ensures this.groups == groups && this.sep == sep && this.buffer == buffer && pos == buffer.Length && calls == 0
      ensures Valid()
    {
      this.groups, this.sep, this.buffer := groups, sep, buffer;
      pos, group, digitIndex, calls := buffer.Length, 0, 0, 0;
      new;
      assert groups[0..] == groups;
    }

    ghost predicate Valid()
      reads this
    {
      && pos <= buffer.Length && group < |groups|
      && SameFrom(groups, calls, groups[group..], Progress())
    }

    /** Digits since the last boundary. */
    ghost function Progress(): int
      reads this
      requires group < |groups|
    {
      if Stops(groups[group]) then 0 else Remainder(digitIndex, groups[group])
    }

    /** One character in front of what is written. */
    method Put(c: char)
      requires Valid() && pos > 0
      modifies `pos, buffer
      ensures Valid() && pos == old(pos) - 1 && buffer[pos..] == [c] + old(buffer[pos..])
    {
      pos := pos - 1;
      buffer[pos] := c;
    }

    /** Whether a separator is due after one more digit. */
    method Due() returns (due: bool)
      requires Valid()
      modifies `group, `digitIndex, `calls
      ensures Valid() && calls == old(calls) + 1 && due == Boundary(groups, calls)
    {
      var g := groups[group];
      ghost var gs, k, n := groups[group..], Progress(), calls;
      assert Boundary(groups, n + 1) == Boundary(gs, 1 + k);
      calls := calls + 1;
      if g <= 0 {
        return false;
      }
      digitIndex := digitIndex + 1;
      NextMod(digitIndex - 1, g);
      var r := TakeRemainder(digitIndex, g);
      if r != 0 || g == 127 {
        return false;
      }
      Passed(groups, n, gs, k);
      if group + 1 != |groups| {
        digitIndex, group := 0, group + 1;
        assert Following(gs) == groups[group..];
      }
      return true;
    }

    /** What is still to write, in front of what is written, is the whole text. */
    ghost predicate Writes(text: string, todo: string)
      reads this, buffer
    {
      Valid() && |todo| == pos && text == todo + buffer[pos..]
    }

    /** One digit that is not the first of the number, and a separator in front of it if one is due. */
    method PutDigit(c: char, ghost text: string, ghost todo: string, ghost next: string)
      requires Writes(text, todo) && todo == next + (if Boundary(groups, calls + 1) then [sep] else []) + [c]
      modifies `pos, `group, `digitIndex, `calls, buffer
      ensures Writes(text, next) && calls == old(calls) + 1
    {
      ghost var written := buffer[pos..];
      Put(c);
      var due := Due();
      if due {
        Put(sep);
      }
      MoveOver(next, if due then [sep] else [], [c], written);
    }

    /** The last digit of what is still to write. */
    method PutLast(c: char, v: nat, ghost text: string)
      requires Valid() && v >= 10 && c == DigitChar(v % 10)
      requires Writes(text, Grouped(Digits(v), groups, calls, sep))
      modifies `pos, `group, `digitIndex, `calls, buffer
      ensures Valid() && Writes(text, Grouped(Digits(v / 10), groups, calls, sep))
    {
      GroupedStep(v, groups, calls, sep);
      PutDigit(c, text, Grouped(Digits(v), groups, calls, sep), Grouped(Digits(v / 10), groups, calls + 1, sep));
    }

    /** The last two digits, taken off together. */
    method PutPair(v: nat, ghost text: string)
      requires Valid() && v >= 100 && Writes(text, Grouped(Digits(v), groups, calls, sep))
      modifies `pos, `group, `digitIndex, `calls, buffer
      ensures Valid() && Writes(text, Grouped(Digits(v / 100), groups, calls, sep))
    {
      var two := v % 100;
      TwoDigits(v);
      PutLast(DigitChar(two % 10), v, text);
      PutLast(DigitChar(two / 10), v / 10, text);
    }

    /** format_decimal with the grouping callback: two digits at a time from the end of the buffer. */
    method FormatDecimal(value: nat)
      requires Valid() && pos == buffer.Length == |Grouped(Digits(value), groups, 0, sep)| && calls == 0
      modifies this, buffer
      ensures pos == 0 && buffer[..] == Grouped(Digits(value), groups, 0, sep)
    {
      ghost var text := Grouped(Digits(value), groups, 0, sep);
      var v := value;
      assert buffer[pos..] == [];
      while v >= 100
        invariant Writes(text, Grouped(Digits(v), groups, calls, sep))
      {
        PutPair(v, text);
        v := v / 100;
      }
      if v >= 10 {
        PutLast(DigitChar(v % 10), v, text);
        v := v / 10;
      }
      assert Grouped(Digits(v), groups, calls, sep) == [DigitChar(v)];
      Put(DigitChar(v));
      assert buffer[pos..] == buffer[..];
    }
  }

  lemma MoveOver(next: string, between: string, last: string, written: string)
    ensures (next + between + last) + written == next + (between + (last + written))
    ensures [] + (last + written) == last + written
  {
  }

  lemma TwoDigits(v: nat)
    ensures (v % 100) % 10 == v % 10 && (v % 100) / 10 == (v / 10) % 10 && v / 10 / 10 == v / 100
  {
  }

  lemma GroupedStep(v: nat, groups: seq<int>, n: nat, sep: char)
    requires v >= 10 && groups != []
    ensures Grouped(Digits(v), groups, n, sep)
            == Grouped(Digits(v / 10), groups, n + 1, sep) + (if Boundary(groups, n + 1) then [sep] else [])
               + [DigitChar(v % 10)]
  {
    assert Digits(v)[..|Digits(v)| - 1] == Digits(v / 10);
  }

  /** on_num: the digits of value as the locale groups them; the buffer is exactly filled. */
  method OnNum(value: nat, groups: seq<int>, sep: char) returns (text: string)
    ensures text == if groups == [] || sep == '\0' then Digits(value) else Grouped(Digits(value), groups, 0, sep)
  {
    if groups == [] || sep == '\0' {
      return Digits(value);
    }
    var count := CountByLoop(value);
    DigitsCounted(value, count);
    var size := PredictSize(count, groups);
    GroupedLength(Digits(value), groups, 0, sep);
    var buffer := new char[size];
    var writer := new NumWriter(groups, sep, buffer);
    writer.FormatDecimal(value);
    return buffer[..];
  }

  /** Whatever the locale, removing its separators leaves the number, unless they are digits themselves. */
  lemma GroupedIsNumber(value: nat, groups: seq<int>, sep: char)
    requires groups != [] && !('0' <= sep <= '9')
    ensures Number(Without(Grouped(Digits(value), groups, 0, sep), sep)) == value
  {
    DigitsAreNumber(value);
    SeparatorsRemoved(Digits(value), groups, 0, sep);
  }

  lemma {:induction false} NextMod(i: nat, g: nat)
    requires g > 0
    ensures Remainder(i + 1, g) == if Remainder(i, g) + 1 == g then 0 else Remainder(i, g) + 1
  {
    if i >= g {
      NextMod(i - g, g);
    }
  }

  lemma {:induction false} ModIs(i: nat, g: nat)
    requires g > 0
    ensures Remainder(i, g) == i % g
  {
    if i >= g {
      ModIs(i - g, g);
      OneLess(i, g);
    } else {
      QuotientIs(i, g, 0, i);
    }
  }

  lemma OneLess(x: nat, g: nat)
    requires 0 < g <= x
    ensures x % g == (x - g) % g
  {
    var q, r := (x - g) / g, (x - g) % g;
    assert x == g * q + r + g;
    Distribute(q, 1, g);
    QuotientIs(x, g, q + 1, r);
  }

  method TakeRemainder(i: nat, g: nat) returns (r: nat)
    requires g > 0
    ensures r == Remainder(i, g)
  {
    ModIs(i, g);
    r := i % g;
  }

  /** At a boundary the following groups take over from nothing. */
  lemma Passed(groups: seq<int>, n: nat, gs: seq<int>, k: int)
    requires groups != [] && gs != [] && SameFrom(groups, n, gs, k) && !Stops(gs[0]) && k + 1 == gs[0]
    ensures SameFrom(groups, n + 1, Following(gs), 0)
  {
    forall p | p > n + 1 ensures Boundary(groups, p) == Boundary(Following(gs), p - (n + 1)) {
      assert Boundary(groups, p) == Boundary(gs, p - n + k);
    }
  }
}
