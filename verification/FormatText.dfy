/** What the parsers of format strings read: numbers, argument ids and literal text, each with its inverse. */
module FormatText {
  import opened DecimalText
  import opened FormatSpecs
  import opened FormatString

  const INT_MAX: nat := 0x7fff_ffff

  // Numbers.

  function DigitsEnd(s: string, b: nat): (e: nat)
    requires b <= |s|
    ensures b <= e <= |s|
    ensures forall i :: b <= i < e ==> IsDigit(s[i])
    ensures e < |s| ==> !IsDigit(s[e])
    decreases |s| - b
  {
    if b == |s| || !IsDigit(s[b]) then b else DigitsEnd(s, b + 1)
  }

  /** Digits read one by one after a value. */
  function ReadOn(value: int, s: string): int
    decreases |s|
  {
    if s == "" then value else ReadOn(value * 10 + (s[0] as int - '0' as int), s[1..])
  }

  lemma {:induction false} ReadOnSnoc(value: int, s: string, c: char)
    ensures ReadOn(value, s + [c]) == 10 * ReadOn(value, s) + (c as int - '0' as int)
    decreases |s|
  {
    if s == "" {
      assert ReadOn(value, [c]) == ReadOn(value * 10 + (c as int - '0' as int), [c][1..]);
      assert s + [c] == [c];
    } else {
      ReadOnSnoc(value * 10 + (s[0] as int - '0' as int), s[1..], c);
      assert (s + [c])[1..] == s[1..] + [c];
    }
  }

  lemma {:induction false} ReadOnIsNumber(s: string)
    ensures ReadOn(0, s) == Number(s)
  {
    if s != "" {
      var m := |s| - 1;
      ReadOnIsNumber(s[..m]);
      ReadOnSnoc(0, s[..m], s[m]);
      assert s[..m] + [s[m]] == s;
    }
  }

  lemma {:induction false} ReadOnGrows(value: nat, s: string)
    requires AllDigits(s)
    ensures ReadOn(value, s) >= value
    decreases |s|
  {
    if s != "" {
      ReadOnGrows(value * 10 + (s[0] as int - '0' as int), s[1..]);
    }
  }

  lemma {:induction false} ReadFrom(s: string, b: nat, value: nat)
    requires b <= |s|
    ensures var e := DigitsEnd(s, b);
            var v := ReadOn(value, s[b..e]);
            && v >= 0
            && if v <= INT_MAX then ParseDigits(s, b, value) == Ok((v as nat, e)) else ParseDigits(s, b, value).Err?
    decreases |s| - b
  {
    var e := DigitsEnd(s, b);
    if b < e {
      var next := value * 10 + (s[b] as int - '0' as int);
      assert s[b..e][1..] == s[b + 1..e];
      ReadFrom(s, b + 1, next);
      ReadOnGrows(next, s[b + 1..e]);
    }
  }

  /** The digits are read up to the first other character, and refused exactly when their number does not fit an int. */
  lemma DigitsParsed(s: string, b: nat)
    requires b <= |s|
    ensures var e := DigitsEnd(s, b);
            var v := Number(s[b..e]);
            v >= 0 && if v <= INT_MAX then ParseDigits(s, b, 0) == Ok((v as nat, e)) else ParseDigits(s, b, 0).Err?
  {
    ReadFrom(s, b, 0);
    ReadOnIsNumber(s[b..DigitsEnd(s, b)]);
  }

  // Argument ids.

  /** Digits without a leading zero are the digits of their number. */
  lemma {:induction false} DigitsOfNumber(s: string)
    requires AllDigits(s) && s != [] && (s[0] != '0' || |s| == 1)
    ensures Number(s) >= 0 && Digits(Number(s)) == s
    ensures |s| > 1 ==> Number(s) >= 10
  {
    var m := |s| - 1;
    NumberBounds(s);
    if m > 0 {
      var init, d := s[..m], s[m] as int - '0' as int;
      if m > 1 {
        DigitsOfNumber(init);
      } else {
        assert init[..0] == [] && Number(init) == s[0] as int - '0' as int;
      }
      NumberBounds(init);
      assert Number(init) >= 1;
      LastDigitOf(Number(init), d);
      DigitsOfNumber(init);
      assert s == init + [s[m]];
    } else {
      assert s[..0] == [];
    }
  }

  lemma LastDigitOf(n: nat, d: nat)
    requires d < 10
    ensures (10 * n + d) / 10 == n && (10 * n + d) % 10 == d
  {
  }

  predicate IsNameChar(c: char) {
    IsNameStart(c) || IsDigit(c)
  }

  /** An argument id as it is written. */
  function Written(id: ArgId): string {
    match id
    case Auto => ""
    case Index(index) => DecimalText.Digits(index)
    case Name(name) => name
  }

  /** Ids that can be written. */
  predicate Writable(id: ArgId) {
    match id
    case Auto => true
    case Index(index) => index <= INT_MAX
    case Name(name) => name != "" && IsNameStart(name[0]) && forall i :: 0 <= i < |name| ==> IsNameChar(name[i])
  }

  /** What may follow an id. */
  predicate Ends(s: string, p: nat, id: ArgId) {
    if id.Name? then p >= |s| || !IsNameChar(s[p]) else p < |s| && (s[p] == '}' || s[p] == ':')
  }

  /** The id is written in the string from b to p, and ends there. */
  predicate WrittenAt(s: string, b: nat, id: ArgId, p: nat) {
    b <= p <= |s| && Writable(id) && s[b..p] == Written(id) && Ends(s, p, id)
  }

  lemma {:induction false} NameParsed(s: string, b: nat)
    requires b <= |s|
    ensures var e := NameEnd(s, b);
            (forall i :: b <= i < e ==> IsNameChar(s[i])) && (e < |s| ==> !IsNameChar(s[e]))
    decreases |s| - b
  {
    if b < |s| && IsNameChar(s[b]) {
      NameParsed(s, b + 1);
    }
  }

  lemma ArgIdIsWritten(s: string, b: nat)
    requires b < |s| && ParseArgId(s, b).Ok?
    ensures var r := ParseArgId(s, b).value; WrittenAt(s, b, r.0, r.1)
  {
    if IsDigit(s[b]) {
      if s[b] == '0' {
        assert s[b..b + 1] == ['0'] == Written(Index(0));
      } else {
        IndexIsWritten(s, b);
      }
    } else if IsNameStart(s[b]) {
      NameParsed(s, b + 1);
    }
  }

  lemma IndexIsWritten(s: string, b: nat)
    requires b < |s| && IsDigit(s[b]) && s[b] != '0' && ParseDigits(s, b, 0).Ok?
    ensures var (index, p) := ParseDigits(s, b, 0).value;
            b < p <= |s| && index <= INT_MAX && s[b..p] == Written(Index(index))
  {
    var (index, p) := ParseDigits(s, b, 0).value;
    DigitsParsed(s, b);
    assert AllDigits(s[b..p]);
    DigitsOfNumber(s[b..p]);
  }

  /** At most one id is written at a place. */
  lemma OneWritten(s: string, b: nat, id: ArgId, p: nat, id2: ArgId, p2: nat)
    requires b < |s| && WrittenAt(s, b, id, p) && WrittenAt(s, b, id2, p2)
    ensures id == id2 && p == p2
  {
    FirstChar(s, b, id, p);
    FirstChar(s, b, id2, p2);
    if p < p2 {
      LaterChar(s, b, id2, p2, p);
    } else if p2 < p {
      LaterChar(s, b, id, p, p2);
    }
    if id.Index? && id2.Index? && id != id2 {
      DigitsDiffer(id.index, id2.index);
    }
  }

  lemma FirstChar(s: string, b: nat, id: ArgId, p: nat)
    requires b < |s| && WrittenAt(s, b, id, p)
    ensures match id
            case Auto => p == b && (s[b] == '}' || s[b] == ':')
            case Index(_) => p > b && IsDigit(s[b])
            case Name(_) => p > b && IsNameStart(s[b])
  {
    if id.Index? {
      DigitsAreNumber(id.index);
      assert IsDigit(s[b..p][0]);
    } else if id.Name? {
      assert s[b..p][0] == s[b];
    }
  }

  /** Characters of an id cannot follow a shorter one. */
  lemma LaterChar(s: string, b: nat, id: ArgId, p: nat, i: nat)
    requires b < i < p && WrittenAt(s, b, id, p)
    ensures IsNameChar(s[i]) && (id.Index? ==> IsDigit(s[i]))
  {
    assert s[i] == s[b..p][i - b];
    if id.Index? {
      DigitsAreNumber(id.index);
    }
  }

  lemma {:induction false} NumberEnds(s: string, b: nat, p: nat)
    requires b <= p < |s| && !IsDigit(s[p]) && forall i :: b <= i < p ==> IsDigit(s[i])
    ensures DigitsEnd(s, b) == p
    decreases p - b
  {
    if b < p {
      NumberEnds(s, b + 1, p);
    }
  }

  lemma IndexIsParsed(s: string, b: nat, index: nat, p: nat)
    requires b < |s| && WrittenAt(s, b, Index(index), p)
    ensures ParseArgId(s, b).Ok?
  {
    FirstChar(s, b, Index(index), p);
    DigitsAreNumber(index);
    DigitsLength(index);
    assert forall i :: b <= i < p ==> s[i] == s[b..p][i - b];
    if s[b] == '0' {
      LeadingZero(index);
      assert s[b..p][0] == '0';
    } else {
      NumberEnds(s, b, p);
      DigitsParsed(s, b);
    }
  }

  /** Every id written is parsed. */
  lemma WrittenIsParsed(s: string, b: nat, id: ArgId, p: nat)
    requires b < |s| && WrittenAt(s, b, id, p)
    ensures ParseArgId(s, b).Ok?
  {
    FirstChar(s, b, id, p);
    if id.Index? {
      IndexIsParsed(s, b, id.index, p);
    }
  }

  /** Only zero is written with a zero in front. */
  lemma {:induction false} LeadingZero(n: nat)
    ensures DecimalText.Digits(n)[0] == '0' <==> n == 0
  {
    if n >= 10 {
      LeadingZero(n / 10);
    }
  }

  /** parse_arg_id reads exactly the ids that are written: the inverse of writing one. */
  lemma ArgIdParsedIff(s: string, b: nat, id: ArgId, p: nat)
    requires b < |s|
    ensures ParseArgId(s, b) == Ok((id, p)) <==> WrittenAt(s, b, id, p)
  {
    if ParseArgId(s, b).Ok? {
      ArgIdIsWritten(s, b);
      if WrittenAt(s, b, id, p) {
        OneWritten(s, b, id, p, ParseArgId(s, b).value.0, ParseArgId(s, b).value.1);
      }
    } else if WrittenAt(s, b, id, p) {
      WrittenIsParsed(s, b, id, p);
    }
  }

  // Literal text.

  /** Literal text with its doubled closing braces made single; a closing brace alone is an error. */
  function Undoubled(t: string): Result<string> {
    if t == "" then Ok("")
    else if t[0] != '}' then var rest :- Undoubled(t[1..]); Ok([t[0]] + rest)
    else if |t| == 1 || t[1] != '}' then Err("unmatched '}' in format string")
    else var rest :- Undoubled(t[2..]); Ok("}" + rest)
  }

  lemma UndoubledFront(c: char, t: string)
    requires c != '}'
    ensures Undoubled([c] + t) == if Undoubled(t).Ok? then Ok([c] + Undoubled(t).value) else Undoubled(t)
  {
    assert ([c] + t)[1..] == t;
  }

  /** Text without a closing brace in front stands for itself. */
  lemma {:induction false} UndoubledPlain(u: string, t: string)
    requires '}' !in u
    ensures Undoubled(u + t) == if Undoubled(t).Ok? then Ok(u + Undoubled(t).value) else Undoubled(t)
  {
    if u == "" {
      assert u + t == t;
      assert Undoubled(t).Ok? ==> u + Undoubled(t).value == Undoubled(t).value;
    } else {
      UndoubledPlain(u[1..], t);
      UndoubledFront(u[0], u[1..] + t);
      assert u + t == [u[0]] + (u[1..] + t);
      if Undoubled(t).Ok? {
        assert [u[0]] + (u[1..] + Undoubled(t).value) == u + Undoubled(t).value;
      }
    }
  }

  lemma {:induction false} FoundFirst(s: string, b: nat, e: nat, c: char)
    requires b <= e <= |s|
    ensures c !in s[b..Find(s, b, e, c)]
    decreases e - b
  {
    if b < e && s[b] != c {
      FoundFirst(s, b + 1, e, c);
      assert s[b..Find(s, b, e, c)] == [s[b]] + s[b + 1..Find(s, b, e, c)];
    }
  }

  lemma PlainStretch(t: string)
    requires '}' !in t
    ensures Undoubled(t) == Ok(t)
  {
    UndoubledPlain(t, "");
    assert t + "" == t;
  }

  /** Text up to a closing brace, and what follows it. */
  lemma BraceStretch(s: string, b: nat, p: nat, e: nat)
    requires b <= p < e <= |s| && '}' !in s[b..p] && s[p] == '}'
    ensures if p + 1 < e && s[p + 1] == '}' then
              var rest := Undoubled(s[p + 2..e]);
              Undoubled(s[b..e]) == if rest.Ok? then Ok(s[b..p + 1] + rest.value) else rest
            else Undoubled(s[b..e]).Err?
  {
    var t := s[p..e];
    assert s[b..e] == s[b..p] + t;
    UndoubledPlain(s[b..p], t);
    if p + 1 < e && s[p + 1] == '}' {
      assert t[1] == s[p + 1] && t[2..] == s[p + 2..e];
      assert s[b..p + 1] == s[b..p] + "}";
      var rest := Undoubled(s[p + 2..e]);
      assert rest.Ok? ==> s[b..p] + ("}" + rest.value) == s[b..p + 1] + rest.value;
    } else {
      assert p + 1 < e ==> t[1] == s[p + 1];
    }
  }

  lemma OutTwice(h: StringHandler, u: string, v: string)
    requires h.Formatting?
    ensures OnText(h, u) == h.(out := h.out + u)
    ensures h.(out := (h.out + u) + v) == h.(out := h.out + (u + v))
  {
    assert (h.out + u) + v == h.out + (u + v);
  }

  /** Direct formatting writes a stretch of literal text with its doubled closing braces made single, or refuses it. */
  lemma {:induction false} TextWritten(s: string, b: nat, e: nat, h: StringHandler)
    requires b <= e <= |s| && h.Formatting?
    ensures var t, r := Undoubled(s[b..e]), WriteText(s, b, e, h);
            if t.Ok? then r == Ok(h.(out := h.out + t.value)) else r.Err?
    decreases e - b
  {
    if b == e {
      assert s[b..e] == "" && h.out + "" == h.out;
    } else {
      var p := Find(s, b, e, '}');
      FoundFirst(s, b, e, '}');
      if p == e {
        PlainStretch(s[b..e]);
      } else {
        BraceStretch(s, b, p, e);
        if p + 1 < e && s[p + 1] == '}' {
          TextWritten(s, p + 2, e, OnText(h, s[b..p + 1]));
          var rest := Undoubled(s[p + 2..e]);
          if rest.Ok? {
            OutTwice(h, s[b..p + 1], rest.value);
          }
        }
      }
    }
  }

  function Doubled(c: char): (r: string)
    ensures r != "" && r[0] == c
  {
    if c == '{' || c == '}' then [c, c] else [c]
  }

  /** Both braces doubled. */
  function Escaped(t: string): string {
    if t == "" then "" else Doubled(t[0]) + Escaped(t[1..])
  }

  lemma EscapedFront(c: char, t: string)
    ensures Escaped([c] + t) == Doubled(c) + Escaped(t)
  {
    assert ([c] + t)[1..] == t;
  }

  lemma Regroup(x: string, y: string, z: string)
    ensures x + (y + z) == (x + y) + z
  {
  }

  lemma {:induction false} EscapedJoin(t: string, u: string)
    ensures Escaped(t + u) == Escaped(t) + Escaped(u)
  {
    if t == "" {
      assert t + u == u;
    } else {
      EscapedJoin(t[1..], u);
      EscapedFront(t[0], t[1..] + u);
      assert t + u == [t[0]] + (t[1..] + u);
      Regroup(Doubled(t[0]), Escaped(t[1..]), Escaped(u));
    }
  }

  lemma {:induction false} EscapedUndoubled(t: string)
    requires '{' !in t
    ensures '{' !in Escaped(t) && Undoubled(Escaped(t)) == Ok(t)
  {
    if t != "" {
      EscapedUndoubled(t[1..]);
      var head := Doubled(t[0]);
      assert Escaped(t) == head + Escaped(t[1..]);
      assert Escaped(t)[|head|..] == Escaped(t[1..]) && t == [t[0]] + t[1..];
    }
  }

  lemma {:induction false} FindPast(s: string, b: nat, p: nat, c: char)
    requires b <= p <= |s| && c !in s[b..p] && (p < |s| ==> s[p] == c)
    ensures Find(s, b, |s|, c) == p
    decreases p - b
  {
    if b < p {
      assert s[b] == s[b..p][0];
      assert s[b + 1..p] == s[b..p][1..];
      FindPast(s, b + 1, p, c);
    }
  }

  /** A text with its braces doubled and what follows it: up to its first opening brace, and from it on. */
  lemma EscapedSplit(s: string, b: nat, u: string, rest: string, after: string)
    requires b <= |s| && s[b..] == Escaped(u + rest) + after && (rest == "" || rest[0] == '{')
    ensures var p := b + |Escaped(u)|;
            && p <= |s| && s[b..p] == Escaped(u)
            && if rest == "" then s[p..] == after
               else p + 1 < |s| && s[p] == '{' && s[p + 1] == '{' && s[p + 2..] == Escaped(rest[1..]) + after
  {
    EscapedParts(s, b, u, rest, after);
    if rest != "" {
      BraceFront(s, b + |Escaped(u)|, rest, after);
    }
  }

  lemma EscapedParts(s: string, b: nat, u: string, rest: string, after: string)
    requires b <= |s| && s[b..] == Escaped(u + rest) + after
    ensures var p := b + |Escaped(u)|; p <= |s| && s[b..p] == Escaped(u) && s[p..] == Escaped(rest) + after
  {
    EscapedJoin(u, rest);
    Regroup(Escaped(u), Escaped(rest), after);
    Parts(s, b, b + |Escaped(u)|, Escaped(u), Escaped(rest) + after);
  }

  lemma BraceFront(s: string, p: nat, rest: string, after: string)
    requires p <= |s| && rest != "" && rest[0] == '{' && s[p..] == Escaped(rest) + after
    ensures p + 1 < |s| && s[p] == '{' && s[p + 1] == '{' && s[p + 2..] == Escaped(rest[1..]) + after
  {
    var tail := s[p..];
    Regroup(['{', '{'], Escaped(rest[1..]), after);
    assert tail == ['{', '{'] + (Escaped(rest[1..]) + after);
    assert s[p] == tail[0] && s[p + 1] == tail[1] && s[p + 2..] == tail[2..];
  }

  lemma Parts(s: string, b: nat, p: nat, x: string, y: string)
    requires b <= |s| && s[b..] == x + y && p == b + |x|
    ensures p <= |s| && s[b..p] == x && s[p..] == y
  {
    var tail := s[b..];
    assert s[b..p] == tail[..|x|] && s[p..] == tail[|x|..];
  }

  /** The output of a run, whatever its error. */
  function Outcome(r: Result<StringHandler>): Result<string> {
    if r.Ok? && r.value.Formatting? then Ok(r.value.out) else Err("")
  }

  /** The output of parsing from b on. */
  function Prints(s: string, b: nat, h: StringHandler): Result<string>
    requires b <= |s|
  {
    Outcome(ParseFormatString(s, b, h))
  }

  /** The output from an opening brace at p, or at the end. */
  function PrintsRest(s: string, p: nat, h: StringHandler): Result<string>
    requires p <= |s|
  {
    if p == |s| then Outcome(Ok(h)) else Outcome(ParseFromBrace(s, p, h))
  }

  lemma OutJoin(out: string, u: string, v: string)
    ensures ((out + u) + "{") + v == out + (u + ("{" + v))
  {
  }

  /** Over a text with both braces doubled, up to the end or a field, direct formatting adds just that text. */
  lemma {:induction false} EscapedAdds(s: string, b: nat, p: nat, t: string, after: string, h: StringHandler)
    requires b <= |s| && s[b..] == Escaped(t) + after && h.Formatting? && (after == "" || after[0] == '{')
    requires p == b + |Escaped(t)|
    ensures p <= |s| && s[p..] == after && Prints(s, b, h) == PrintsRest(s, p, h.(out := h.out + t))
    decreases |t|, 2
  {
    if b == |s| {
      EmptyEscaped(t);
      assert h.out + "" == h.out;
    } else {
      var n := Find(t, 0, |t|, '{');
      FirstBrace(t, n);
      if n == |t| {
        EndAdds(s, b, p, t, after, h);
      } else {
        FromTextAdds(s, b, b + |Escaped(t[..n])|, p, t[..n], t[n..], t, after, h);
      }
    }
  }

  /** Text without an opening brace. */
  lemma EndAdds(s: string, b: nat, p: nat, t: string, after: string, h: StringHandler)
    requires b < |s| && s[b..] == Escaped(t) + after && h.Formatting? && (after == "" || after[0] == '{')
    requires p == b + |Escaped(t)| && '{' !in t
    ensures p <= |s| && s[p..] == after && Prints(s, b, h) == PrintsRest(s, p, h.(out := h.out + t))
  {
    Parts(s, b, p, Escaped(t), after);
    EscapedUndoubled(t);
    FrontOf(s, p, after);
    StepToBrace(s, b, p, t, h);
  }

  /** Text up to its first opening brace, and what is left of it from there. */
  lemma {:induction false} FromTextAdds(s: string, b: nat, p: nat, q: nat, u: string, rest: string, t: string,
                                        after: string, h: StringHandler)
    requires b < |s| && s[b..] == Escaped(t) + after && h.Formatting? && (after == "" || after[0] == '{')
    requires p == b + |Escaped(u)| && q == b + |Escaped(t)| && '{' !in u
    requires rest != "" && rest[0] == '{' && t == u + rest == u + ("{" + rest[1..])
    ensures q <= |s| && s[q..] == after && Prints(s, b, h) == PrintsRest(s, q, h.(out := h.out + t))
    decreases |t|, 1
  {
    EscapedSplit(s, b, u, rest, after);
    EscapedUndoubled(u);
    EscapedJoin(u, rest);
    StepToBrace(s, b, p, u, h);
    var c := p + 2;
    FromBraceAdds(s, p, c, q, u, rest[1..], after, h);
  }

  lemma FrontOf(s: string, p: nat, after: string)
    requires p <= |s| && s[p..] == after
    ensures if after == "" then p == |s| else p < |s| && s[p] == after[0]
  {
    if after != "" {
      assert s[p] == s[p..][0];
    }
  }

  /** A text cut at its first opening brace. */
  lemma FirstBrace(t: string, n: nat)
    requires n == Find(t, 0, |t|, '{')
    ensures t == t[..n] + t[n..] && '{' !in t[..n]
    ensures if n == |t| then t[..n] == t && t[n..] == "" else t[n] == '{' && t == t[..n] + ("{" + t[n..][1..])
  {
    FoundFirst(t, 0, |t|, '{');
    assert t[0..n] == t[..n];
    CutBefore(t, n);
  }

  lemma CutBefore(t: string, n: nat)
    requires n <= |t|
    ensures t == t[..n] + t[n..]
    ensures n < |t| ==> t == t[..n] + ([t[n]] + t[n..][1..])
  {
    if n < |t| {
      assert t[n..] == [t[n]] + t[n..][1..];
    }
  }

  lemma {:induction false} FromBraceAdds(s: string, p: nat, c: nat, q: nat, u: string, v: string, after: string,
                                         h: StringHandler)
    requires c == p + 2 && c <= |s| && s[p] == '{' && s[p + 1] == '{' && s[c..] == Escaped(v) + after && h.Formatting?
    requires q == c + |Escaped(v)| && (after == "" || after[0] == '{')
    ensures q <= |s| && s[q..] == after
    ensures PrintsRest(s, p, h.(out := h.out + u)) == PrintsRest(s, q, h.(out := h.out + (u + ("{" + v))))
    decreases |v|, 3
  {
    OverBrace(s, p, c, h.(out := h.out + u));
    EscapedAdds(s, c, q, v, after, h.(out := (h.out + u) + "{"));
    OutJoin(h.out, u, v);
  }

  lemma OverBrace(s: string, p: nat, c: nat, h: StringHandler)
    requires c == p + 2 && c <= |s| && s[p] == '{' && s[p + 1] == '{' && h.Formatting?
    ensures PrintsRest(s, p, h) == Prints(s, c, h.(out := h.out + "{"))
  {
    assert s[p + 1..p + 2] == "{";
  }

  lemma EmptyEscaped(t: string)
    requires Escaped(t) == ""
    ensures t == ""
  {
  }

  /** Text up to the next opening brace or the end. */
  lemma StepToBrace(s: string, b: nat, p: nat, u: string, h: StringHandler)
    requires b < |s| && b <= p <= |s| && h.Formatting? && '{' !in s[b..p] && (p < |s| ==> s[p] == '{')
    requires Undoubled(s[b..p]) == Ok(u)
    ensures Prints(s, b, h) == PrintsRest(s, p, h.(out := h.out + u))
  {
    FindPast(s, b, p, '{');
    TextWritten(s, b, p, h);
  }

  /** Any text with its braces doubled, formatted with any arguments, is printed as it is. */
  lemma EscapedPrintsItself(t: string, args: Args, write: Writer)
    ensures Format(Escaped(t), args, write) == Ok(t)
  {
    var s := Escaped(t);
    assert s[0..] == s + "" && "" + t == t;
    EscapedAdds(s, 0, |s|, t, "", Formatting("", 0, NO_ARG, args, write));
  }
}
