/** Whatever parse_format_specs accepts is written specifications: its inverse. */
module SpecsInverse {
  import opened DecimalText
  import opened FormatSpecs
  import opened FormatText
  import opened SpecsText

  lemma Join(s: string, b: nat, q: nat, p: nat, x: string, y: string)
    requires b <= q && StandsAt(s, q, y, p) && s[b..q] == x
    ensures StandsAt(s, b, x + y, p)
  {
    assert s[b..p] == s[b..q] + s[q..p];
  }

  lemma LiteralIsWritten(s: string, b: nat, q: nat)
    requires b < |s| && IsDigit(s[b]) && ParseDigits(s, b, 0).Ok? && q == ParseDigits(s, b, 0).value.1 < |s|
    ensures b < q && !IsDigit(s[q]) && s[b..q] != "" && AllDigits(s[b..q])
    ensures Number(s[b..q]) == ParseDigits(s, b, 0).value.0 <= INT_MAX
  {
    DigitsParsed(s, b);
  }

  lemma DynamicIsWritten(s: string, b: nat, id: ArgId, q: nat)
    requires b + 1 < |s| && s[b] == '{' && ParseArgId(s, b + 1) == Ok((id, q)) && q < |s| && s[q] == '}'
    ensures b < q && s[b..q + 1] == CountText(Dynamic(id)) && Writable(id)
  {
    ArgIdParsedIff(s, b + 1, id, q);
    var u := s[b + 1..q];
    assert s[b..q + 1] == "{" + (u + "}");
  }

  /** A precision read, up to q. */
  lemma PrecisionIsWritten(s: string, b: nat, h: Handler) returns (c: Count)
    requires b < |s| && s[b] == '.' && ParsePrecision(s, b, h).Ok? && ParsePrecision(s, b, h).value.0 < |s|
    ensures var q := ParsePrecision(s, b, h).value.0;
            && b + 1 < q && !c.Absent? && s[b + 1..q] == CountText(c)
            && CountReads(c, [s[q]])
  {
    var q := ParsePrecision(s, b, h).value.0;
    if IsDigit(s[b + 1]) {
      LiteralIsWritten(s, b + 1, q);
      c := Literal(s[b + 1..q]);
    } else {
      var (id, e) := ParseArgId(s, b + 2).value;
      DynamicIsWritten(s, b + 1, id, e);
      c := Dynamic(id);
    }
  }

  const NOTHING := SpecsText("", NoAlign, NoSign, false, false, Absent, Absent, "")

  /** Where the type starts: after the precision, if there is one. */
  function TypeStart(s: string, b: nat, h: Handler): nat
    requires b < |s| && ParsePrecisionAndType(s, b, h).Ok?
  {
    if s[b] == '.' then ParsePrecision(s, b, h).value.0 else b
  }

  lemma TypeIsWritten(s: string, b: nat, h: Handler, p: nat)
    requires b < |s| && ParsePrecisionAndType(s, b, h).Ok? && ParsePrecisionAndType(s, b, h).value.0 == p < |s|
    requires s[p] == '}'
    ensures var q := TypeStart(s, b, h);
            b <= q <= p && (if s[q] == '}' then q == p else q + 1 == p) && StandsAt(s, q, s[q..p], p)
  {
  }

  lemma PrecisionFromText(s: string, b: nat, q: nat, p: nat, t: SpecsText)
    requires b + 1 < q && StandsAt(s, q, t.typ, p) && s[b] == '.' && s[b + 1..q] == CountText(t.precision)
    requires CountReads(t.precision, [s[q]]) && !t.precision.Absent? && |t.typ| <= 1 && t.typ != "}"
    ensures PrecisionReads(t) && StandsAt(s, b, FromPrecision(t), p)
  {
    Head(s, q, t.typ, p);
    Join(s, b + 1, q, p, CountText(t.precision), t.typ);
    assert s[b..b + 1] == ".";
    Join(s, b, b + 1, p, ".", CountText(t.precision) + t.typ);
    assert FromPrecision(t) == "." + (CountText(t.precision) + t.typ);
  }

  lemma FromPrecisionIsWritten(s: string, b: nat, h: Handler, p: nat) returns (t: SpecsText)
    requires b < |s| && ParsePrecisionAndType(s, b, h).Ok? && ParsePrecisionAndType(s, b, h).value.0 == p < |s|
    requires s[p] == '}'
    ensures PrecisionReads(t) && StandsAt(s, b, FromPrecision(t), p)
  {
    TypeIsWritten(s, b, h, p);
    var q := TypeStart(s, b, h);
    t := NOTHING.(typ := s[q..p]);
    if s[b] == '.' {
      var c := PrecisionIsWritten(s, b, h);
      t := t.(precision := c);
      PrecisionFromText(s, b, q, p, t);
    } else {
      assert FromPrecision(t) == t.typ;
    }
  }

  /** A width read, up to q. */
  lemma WidthIsWritten(s: string, b: nat, h: Handler) returns (c: Count)
    requires b < |s| && ParseWidth(s, b, h).Ok? && ParseWidth(s, b, h).value.0 < |s|
    ensures var q := ParseWidth(s, b, h).value.0;
            && b <= q && s[b..q] == CountText(c) && CountReads(c, [s[q]])
            && (c.Absent? ==> !IsDigit(s[q]) && s[q] != '{')
  {
    var q := ParseWidth(s, b, h).value.0;
    if IsDigit(s[b]) {
      LiteralIsWritten(s, b, q);
      c := Literal(s[b..q]);
    } else if s[b] == '{' {
      var (id, e) := ParseArgId(s, b + 1).value;
      DynamicIsWritten(s, b, id, e);
      c := Dynamic(id);
    } else {
      c := Absent;
    }
  }

  lemma WidthStart(s: string, b: nat, h: Handler, p: nat)
    requires b < |s| && ParseFromWidth(s, b, h).Ok? && ParseFromWidth(s, b, h).value.0 == p < |s|
    ensures ParseWidth(s, b, h).Ok?
    ensures var (q, h') := ParseWidth(s, b, h).value;
            q < |s| && ParsePrecisionAndType(s, q, h') == ParseFromWidth(s, b, h)
  {
  }

  lemma WidthFromText(s: string, b: nat, q: nat, p: nat, t: SpecsText, c: Count)
    requires b <= q && StandsAt(s, q, FromPrecision(t), p) && PrecisionReads(t) && s[b..q] == CountText(c)
    requires CountReads(c, [s[q]]) && (c.Absent? ==> !IsDigit(s[q]) && s[q] != '{')
    ensures WidthReads(t.(width := c)) && StandsAt(s, b, FromWidth(t.(width := c)), p)
  {
    var t' := t.(width := c);
    assert FromPrecision(t') == FromPrecision(t) && CountReads(t'.precision, t'.typ);
    Head(s, q, FromPrecision(t), p);
    Join(s, b, q, p, CountText(c), FromPrecision(t));
  }

  lemma FromWidthIsWritten(s: string, b: nat, h: Handler, p: nat) returns (t: SpecsText)
    requires b < |s| && ParseFromWidth(s, b, h).Ok? && ParseFromWidth(s, b, h).value.0 == p < |s| && s[p] == '}'
    ensures WidthReads(t) && StandsAt(s, b, FromWidth(t), p)
  {
    WidthStart(s, b, h, p);
    var (q, h') := ParseWidth(s, b, h).value;
    var c := WidthIsWritten(s, b, h);
    t := FromPrecisionIsWritten(s, q, h', p);
    WidthFromText(s, b, q, p, t, c);
    t := t.(width := c);
  }

  lemma ZeroFromText(s: string, b: nat, q: nat, p: nat, t: SpecsText)
    requires b < |s| && q == (if s[b] == '0' then b + 1 else b) && StandsAt(s, q, FromWidth(t), p) && WidthReads(t)
    ensures ZeroReads(t.(zero := s[b] == '0')) && StandsAt(s, b, FromZero(t.(zero := s[b] == '0')), p)
  {
    var t' := t.(zero := s[b] == '0');
    assert FromWidth(t') == FromWidth(t) && WidthReads(t') by {
      assert FromPrecision(t') == FromPrecision(t);
    }
    Head(s, q, FromWidth(t), p);
    Join(s, b, q, p, if t'.zero then "0" else "", FromWidth(t));
  }

  lemma FromZeroIsWritten(s: string, b: nat, h: Handler, p: nat) returns (t: SpecsText)
    requires b < |s| && ParseFromZero(s, b, h).Ok? && ParseFromZero(s, b, h).value.0 == p < |s| && s[p] == '}'
    ensures ZeroReads(t) && StandsAt(s, b, FromZero(t), p)
  {
    var (q, h') := ParseZero(s, b, h).value;
    t := FromWidthIsWritten(s, q, h', p);
    ZeroFromText(s, b, q, p, t);
    t := t.(zero := s[b] == '0');
  }

  lemma HashFromText(s: string, b: nat, q: nat, p: nat, t: SpecsText)
    requires b < |s| && q == (if s[b] == '#' then b + 1 else b) && StandsAt(s, q, FromZero(t), p) && ZeroReads(t)
    ensures HashReads(t.(alt := s[b] == '#')) && StandsAt(s, b, FromHash(t.(alt := s[b] == '#')), p)
  {
    var t' := t.(alt := s[b] == '#');
    assert FromZero(t') == FromZero(t) && ZeroReads(t') by {
      assert FromPrecision(t') == FromPrecision(t) && FromWidth(t') == FromWidth(t);
    }
    Head(s, q, FromZero(t), p);
    Join(s, b, q, p, if t'.alt then "#" else "", FromZero(t));
  }

  lemma FromHashIsWritten(s: string, b: nat, h: Handler, p: nat) returns (t: SpecsText)
    requires b < |s| && ParseFromHash(s, b, h).Ok? && ParseFromHash(s, b, h).value.0 == p < |s| && s[p] == '}'
    ensures HashReads(t) && StandsAt(s, b, FromHash(t), p)
  {
    var (q, h') := ParseHash(s, b, h).value;
    t := FromZeroIsWritten(s, q, h', p);
    HashFromText(s, b, q, p, t);
    t := t.(alt := s[b] == '#');
  }

  function SignOf(c: char): SignMode {
    match c
    case '+' => Plus
    case '-' => Minus
    case ' ' => Space
    case _ => NoSign
  }

  lemma SignFromText(s: string, b: nat, q: nat, p: nat, t: SpecsText)
    requires b < |s| && q == (if SignOf(s[b]) == NoSign then b else b + 1)
    requires StandsAt(s, q, FromHash(t), p) && HashReads(t)
    ensures SignReads(t.(sign := SignOf(s[b]))) && StandsAt(s, b, FromSign(t.(sign := SignOf(s[b]))), p)
  {
    var t' := t.(sign := SignOf(s[b]));
    assert FromHash(t') == FromHash(t) && HashReads(t') by {
      assert FromPrecision(t') == FromPrecision(t) && FromWidth(t') == FromWidth(t) && FromZero(t') == FromZero(t);
    }
    Head(s, q, FromHash(t), p);
    Join(s, b, q, p, SignText(t'.sign), FromHash(t));
  }

  lemma SignStart(s: string, b: nat, h: Handler, p: nat)
    requires b < |s| && ParseFromSign(s, b, h).Ok? && ParseFromSign(s, b, h).value.0 == p < |s|
    ensures ParseSign(s, b, h).Ok?
    ensures var (q, h') := ParseSign(s, b, h).value;
            && q == (if SignOf(s[b]) == NoSign then b else b + 1)
            && q < |s| && ParseFromHash(s, q, h') == ParseFromSign(s, b, h)
  {
  }

  lemma FromSignIsWritten(s: string, b: nat, h: Handler, p: nat) returns (t: SpecsText)
    requires b < |s| && ParseFromSign(s, b, h).Ok? && ParseFromSign(s, b, h).value.0 == p < |s| && s[p] == '}'
    ensures SignReads(t) && StandsAt(s, b, FromSign(t), p)
  {
    SignStart(s, b, h, p);
    var (q, h') := ParseSign(s, b, h).value;
    t := FromHashIsWritten(s, q, h', p);
    SignFromText(s, b, q, p, t);
    t := t.(sign := SignOf(s[b]));
  }

  lemma AlignmentOf(c: char)
    ensures if c in ALIGNMENTS then AlignOf(c) != NoAlign && AlignText(AlignOf(c)) == [c] && (c as int) < 0x80
            else AlignOf(c) == NoAlign
  {
    if c !in ALIGNMENTS {
      NoAlignment(c);
    }
  }

  lemma {:induction false} ContinuationOnly(s: string, b: nat)
    requires b <= |s|
    ensures forall i :: b <= i < ContinuationEnd(s, b) ==> Continuation(s[i])
    decreases |s| - b
  {
    if b < |s| && Continuation(s[b]) {
      ContinuationOnly(s, b + 1);
    }
  }

  lemma CodePointIs(s: string, b: nat)
    requires b < |s|
    ensures OneCodePoint(s[b..NextCodePoint(s, b)])
  {
    ContinuationOnly(s, b + 1);
    var e := NextCodePoint(s, b);
    assert forall i :: 0 <= i < e - b ==> s[b..e][i] == s[b + i];
  }

  /** What is read in front of the sign. */
  function FillRead(s: string, b: nat): string
    requires b < |s|
  {
    var next := NextCodePoint(s, b);
    if next < |s| && s[next] in ALIGNMENTS then s[b..next] else ""
  }

  function AlignRead(s: string, b: nat): Align
    requires b < |s|
  {
    var next := NextCodePoint(s, b);
    if next < |s| && s[next] in ALIGNMENTS then AlignOf(s[next]) else AlignOf(s[b])
  }

  lemma AlignStart(s: string, b: nat, h: Handler, p: nat)
    requires b < |s| && s[b] != '}' && ParseSpecs(s, b, h).Ok? && ParseSpecs(s, b, h).value.0 == p < |s|
    ensures ParseAlign(s, b, h).Ok? && |FillRead(s, b)| <= 4 && (FillRead(s, b) != "" ==> s[b] != '{')
    ensures var (q, h') := ParseAlign(s, b, h).value;
            && q == b + |FillRead(s, b)| + |AlignText(AlignRead(s, b))|
            && q < |s| && ParseFromSign(s, q, h') == ParseSpecs(s, b, h)
  {
    var next := NextCodePoint(s, b);
    AlignmentOf(s[b]);
    if next < |s| {
      AlignmentOf(s[next]);
    }
  }

  lemma FillFromText(s: string, b: nat, q: nat, p: nat, t: SpecsText)
    requires b < |s| && s[b] !in "{}" && FillRead(s, b) != "" && |FillRead(s, b)| <= 4
    requires q == b + |FillRead(s, b)| + 1 && StandsAt(s, q, FromSign(t), p) && SignReads(t)
    ensures SpecsAt(s, b, t.(fill := FillRead(s, b), align := AlignRead(s, b)), p)
  {
    var next := NextCodePoint(s, b);
    var t' := t.(fill := FillRead(s, b), align := AlignRead(s, b));
    SameFromSign(t, t');
    AlignmentOf(s[next]);
    CodePointIs(s, b);
    assert t'.fill[0] == s[b];
    assert s[next..q] == AlignText(t'.align);
    Join(s, next, q, p, AlignText(t'.align), FromSign(t));
    Join(s, b, next, p, t'.fill, FromAlign(t'));
  }

  lemma SameFromSign(t: SpecsText, t': SpecsText)
    requires t' == t.(fill := t'.fill, align := t'.align)
    ensures FromSign(t') == FromSign(t) && SignReads(t') == SignReads(t)
  {
    assert FromPrecision(t') == FromPrecision(t) && FromWidth(t') == FromWidth(t);
    assert FromZero(t') == FromZero(t) && FromHash(t') == FromHash(t);
  }

  lemma AlignTextAt(s: string, b: nat, q: nat)
    requires b < |s| && q == b + |AlignText(AlignOf(s[b]))|
    ensures q <= b + 1 && s[b..q] == AlignText(AlignOf(s[b]))
  {
    AlignmentOf(s[b]);
    if q != b {
      assert s[b..q] == [s[b]];
    }
  }

  /** Without a fill, no second character is an alignment. */
  lemma NoFillReads(s: string, b: nat, q: nat, p: nat, t: SpecsText)
    requires b < |s| && FillRead(s, b) == "" && q == b + |AlignText(AlignRead(s, b))|
    requires StandsAt(s, q, FromSign(t), p) && SignReads(t) && t.fill == "" && t.align == AlignRead(s, b)
    ensures FillReads(t)
  {
    AlignmentOf(s[b]);
    PlainFromSign(t);
    Head(s, q, FromSign(t), p);
    if |FromSign(t)| > 1 {
      assert s[q + 1] == s[q..p][1];
    }
  }

  lemma AlignFromText(s: string, b: nat, q: nat, p: nat, t: SpecsText)
    requires b < |s| && FillRead(s, b) == "" && q == b + |AlignText(AlignRead(s, b))|
    requires StandsAt(s, q, FromSign(t), p) && SignReads(t)
    ensures SpecsAt(s, b, t.(fill := "", align := AlignRead(s, b)), p)
  {
    var t' := t.(fill := "", align := AlignRead(s, b));
    SameFromSign(t, t');
    NoFillReads(s, b, q, p, t');
    AlignTextAt(s, b, q);
    Join(s, b, q, p, AlignText(t'.align), FromSign(t'));
    assert Text(t') == AlignText(t'.align) + FromSign(t');
  }

  /** Whatever is accepted in front of a closing brace is written specifications. */
  lemma ParsedSpecsWritten(s: string, b: nat, h: Handler, p: nat) returns (t: SpecsText)
    requires b <= |s| && ParseSpecs(s, b, h).Ok? && ParseSpecs(s, b, h).value.0 == p < |s| && s[p] == '}'
    ensures SpecsAt(s, b, t, p)
  {
    if s[b] == '}' {
      t := NOTHING;
      assert s[b..p] == "" == Text(t);
    } else {
      AlignStart(s, b, h, p);
      var (q, h') := ParseAlign(s, b, h).value;
      t := FromSignIsWritten(s, q, h', p);
      if FillRead(s, b) != "" {
        FillFromText(s, b, q, p, t);
      } else {
        AlignFromText(s, b, q, p, t);
      }
      t := t.(fill := FillRead(s, b), align := AlignRead(s, b));
    }
  }

  /** The specifications are written in front of the closing brace at p, and make the handler h into h'. */
  ghost predicate WrittenFor(s: string, b: nat, p: nat, h: Handler, h': Handler) {
    exists t: SpecsText :: SpecsAt(s, b, t, p) && Taken(t, h) == Ok(h')
  }

  /** parse_format_specs reads exactly the specifications that are written: the inverse of writing them. */
  lemma SpecsParsedIff(s: string, b: nat, p: nat, h: Handler, h': Handler)
    requires b <= |s| && p < |s| && s[p] == '}'
    ensures ParseSpecs(s, b, h) == Ok((p, h')) <==> WrittenFor(s, b, p, h, h')
  {
    if ParseSpecs(s, b, h) == Ok((p, h')) {
      var t := ParsedSpecsWritten(s, b, h, p);
      WrittenSpecsParsed(s, b, t, p, h);
    }
    if WrittenFor(s, b, p, h, h') {
      var t: SpecsText :| SpecsAt(s, b, t, p) && Taken(t, h) == Ok(h');
      WrittenSpecsParsed(s, b, t, p, h);
    }
  }
}
