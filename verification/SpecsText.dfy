/** Format specifications as they are written, and parse_format_specs as the inverse of writing them. */
module SpecsText {
  import opened DecimalText
  import opened FormatSpecs
  import opened FormatText

  /** A width or a precision: none, a number, or an argument id in braces. */
  datatype Count = Absent | Literal(digits: string) | Dynamic(id: ArgId)

  /** Specifications part by part, as written; an absent fill or type is the empty string. */
  datatype SpecsText = SpecsText(fill: string, align: Align, sign: SignMode, alt: bool, zero: bool, width: Count,
                                 precision: Count, typ: string)

  function AlignText(align: Align): string {
    match align
    case NoAlign => ""
    case Left => "<"
    case Right => ">"
    case Center => "^"
    case Numeric => "="
  }

  function SignText(sign: SignMode): string {
    match sign
    case NoSign => ""
    case Plus => "+"
    case Minus => "-"
    case Space => " "
  }

  function CountText(count: Count): string {
    match count
    case Absent => ""
    case Literal(digits) => digits
    case Dynamic(id) => "{" + (Written(id) + "}")
  }

  // The text from each part on.

  function FromPrecision(t: SpecsText): string {
    (if t.precision.Absent? then "" else "." + CountText(t.precision)) + t.typ
  }

  function FromWidth(t: SpecsText): string {
    CountText(t.width) + FromPrecision(t)
  }

  function FromZero(t: SpecsText): string {
    (if t.zero then "0" else "") + FromWidth(t)
  }

  function FromHash(t: SpecsText): string {
    (if t.alt then "#" else "") + FromZero(t)
  }

  function FromSign(t: SpecsText): string {
    SignText(t.sign) + FromHash(t)
  }

  function FromAlign(t: SpecsText): string {
    AlignText(t.align) + FromSign(t)
  }

  function Text(t: SpecsText): string {
    t.fill + FromAlign(t)
  }

  // What can be read back: no part left out is mistaken for the start of what follows it.

  predicate Starts(u: string, chars: string) {
    u != "" && u[0] in chars
  }

  predicate StartsDigit(u: string) {
    u != "" && '0' <= u[0] <= '9'
  }

  const ALIGNMENTS := "<>=^"

  predicate Continuation(c: char) {
    0x80 <= c as int < 0xc0
  }

  /** One character, or a UTF-8 sequence. */
  predicate OneCodePoint(u: string) {
    u != "" && if u[0] as int < 0x80 then |u| == 1 else forall i :: 1 <= i < |u| ==> Continuation(u[i])
  }

  predicate FillReads(t: SpecsText) {
    if t.fill != "" then t.align != NoAlign && OneCodePoint(t.fill) && |t.fill| <= 4 && t.fill[0] !in "{}"
    else !Starts(FromSign(t), ALIGNMENTS) && (t.align == NoAlign && |FromSign(t)| > 1 ==> FromSign(t)[1] !in ALIGNMENTS)
  }

  predicate CountReads(count: Count, rest: string) {
    match count
    case Absent => true
    case Literal(digits) => digits != "" && AllDigits(digits) && Number(digits) <= INT_MAX && !StartsDigit(rest)
    case Dynamic(id) => Writable(id)
  }

  predicate PrecisionReads(t: SpecsText) {
    && CountReads(t.precision, t.typ) && (t.precision.Absent? ==> t.typ != ".")
    && |t.typ| <= 1 && t.typ != "}"
  }

  predicate WidthReads(t: SpecsText) {
    && PrecisionReads(t) && CountReads(t.width, FromPrecision(t))
    && (t.width.Absent? ==> !StartsDigit(FromPrecision(t)) && !Starts(FromPrecision(t), "{"))
  }

  predicate ZeroReads(t: SpecsText) {
    WidthReads(t) && (!t.zero ==> !Starts(FromWidth(t), "0"))
  }

  predicate HashReads(t: SpecsText) {
    ZeroReads(t) && (!t.alt ==> !Starts(FromZero(t), "#"))
  }

  predicate SignReads(t: SpecsText) {
    HashReads(t) && (t.sign == NoSign ==> !Starts(FromHash(t), "+- "))
  }

  predicate Reads(t: SpecsText) {
    SignReads(t) && FillReads(t)
  }

  /** u stands in the string from b to p, in front of a closing brace. */
  predicate StandsAt(s: string, b: nat, u: string, p: nat) {
    b <= p < |s| && s[p] == '}' && s[b..p] == u
  }

  /** The specifications are written in the string from b to p, and read back as they are. */
  predicate SpecsAt(s: string, b: nat, t: SpecsText, p: nat) {
    Reads(t) && StandsAt(s, b, Text(t), p)
  }

  // What the parts come to for a handler.

  /** A width or precision, and the indexing state after it. */
  function Counted(count: Count, absent: int, args: Args, next: int): Result<(int, int)> {
    match count
    case Absent => Ok((absent, next))
    case Literal(digits) => Ok((Number(digits), next))
    case Dynamic(id) =>
      var (ref, next') :- ResolveId(id, next);
      var arg :- Lookup(args, ref);
      var value :- DynamicSpec(arg);
      Ok((value, next'))
  }

  /** A width or precision recorded: its number and its reference. */
  function Recorded(count: Count, absent: int, ref: ArgRef, next: int): Result<(int, ArgRef, int)> {
    match count
    case Absent => Ok((absent, ref, next))
    case Literal(digits) => Ok((Number(digits), ref, next))
    case Dynamic(id) => var (ref', next') :- ResolveId(id, next); Ok((absent, ref', next'))
  }

  /** The flags an argument's type allows. */
  predicate FlagsPermitted(t: SpecsText, typ: ArgType) {
    && (t.align == Numeric || t.sign != NoSign || t.alt || t.zero ==> IsArithmetic(typ))
    && (t.sign != NoSign && IsIntegral(typ) ==> typ in {IntType, LongLongType, CharType})
  }

  /** The parts it allows. */
  predicate Permitted(t: SpecsText, typ: ArgType) {
    FlagsPermitted(t, typ) && (!t.precision.Absent? ==> !IsIntegral(typ) && typ != PointerType)
  }

  /** The fields set, where the width and the precision come to w and p. */
  function Fields(t: SpecsText, specs: Specs, w: int, p: int): Specs {
    var fill := if t.fill == "" then specs.fill else t.fill;
    Specs(w, p, if t.typ == "" then specs.typ else t.typ[0],
          if t.zero then Numeric else if t.align == NoAlign then specs.align else t.align,
          if t.sign == NoSign then specs.sign else t.sign, t.alt || specs.alt,
          if t.zero && fill != "" then "0" + fill[1..] else fill)
  }

  /** What a handler becomes: checked against the type at once, or recorded. */
  function Taken(t: SpecsText, h: Handler): Result<Handler> {
    match h
    case Checking(specs, next, typ, args) =>
      var (w, next1) :- Counted(t.width, specs.width, args, next);
      var (p, next2) :- Counted(t.precision, specs.precision, args, next1);
      if Permitted(t, typ) then Ok(Checking(Fields(t, specs, w, p), next2, typ, args))
      else Err("format specifier not allowed for this argument type")
    case Recording(specs, next, width, precision) =>
      var (w, width', next1) :- Recorded(t.width, specs.width, width, next);
      var (p, precision', next2) :- Recorded(t.precision, specs.precision, precision, next1);
      Ok(Recording(Fields(t, specs, w, p), next2, width', precision'))
  }

  lemma Cut(s: string, b: nat, q: nat, x: string, y: string, p: nat)
    requires StandsAt(s, b, x + y, p) && q == b + |x|
    ensures q <= p && s[b..q] == x && StandsAt(s, q, y, p)
  {
    var u := s[b..p];
    assert s[b..q] == u[..|x|] && s[q..p] == u[|x|..];
  }

  /** The character a part starts with, or the closing brace. */
  lemma Head(s: string, b: nat, u: string, p: nat)
    requires StandsAt(s, b, u, p)
    ensures s[b] == if u == "" then '}' else u[0]
    ensures u == "" <==> b == p
  {
    if u != "" {
      assert s[b] == s[b..p][0];
    }
  }

  // Writing to reading, from the last part to the first.

  lemma LiteralParsed(s: string, b: nat, q: nat, digits: string, rest: string, p: nat)
    requires StandsAt(s, b, digits + rest, p) && CountReads(Literal(digits), rest) && q == b + |digits|
    ensures b < q && IsDigit(s[b]) && Number(digits) >= 0
    ensures ParseDigits(s, b, 0) == Ok((Number(digits) as nat, q))
  {
    Cut(s, b, q, digits, rest, p);
    Head(s, b, digits + rest, p);
    Head(s, q, rest, p);
    NumberBounds(digits);
    assert forall i :: b <= i < q ==> s[i] == s[b..q][i - b];
    NumberEnds(s, b, q);
    DigitsParsed(s, b);
  }

  /** An id in braces, the opening one at b and the closing one at q. */
  lemma DynamicParsed(s: string, b: nat, q: nat, id: ArgId, rest: string, p: nat)
    requires StandsAt(s, b, CountText(Dynamic(id)) + rest, p) && Writable(id) && q == b + 1 + |Written(id)|
    ensures s[b] == '{' && b + 1 <= q < p && s[q] == '}' && ParseArgId(s, b + 1) == Ok((id, q))
  {
    assert CountText(Dynamic(id)) + rest == "{" + (Written(id) + ("}" + rest));
    Head(s, b, CountText(Dynamic(id)) + rest, p);
    Cut(s, b, b + 1, "{", Written(id) + ("}" + rest), p);
    Cut(s, b + 1, q, Written(id), "}" + rest, p);
    Head(s, q, "}" + rest, p);
    ArgIdParsedIff(s, b + 1, id, q);
  }

  // The notifications the handler gets, from each part on.

  function TakeWidth(count: Count, h: Handler): Result<Handler> {
    match count
    case Absent => Ok(h)
    case Literal(digits) => Ok(OnWidth(h, Number(digits)))
    case Dynamic(id) => OnDynamicWidth(h, id)
  }

  function TakePrecision(count: Count, h: Handler): Result<Handler> {
    match count
    case Absent => Ok(h)
    case Literal(digits) => EndPrecision(OnPrecision(h, Number(digits)))
    case Dynamic(id) => var h' :- OnDynamicPrecision(h, id); EndPrecision(h')
  }

  function TakeType(typ: string, h: Handler): Handler {
    if typ == "" then h else OnType(h, typ[0])
  }

  function FromPrecisionTaken(t: SpecsText, h: Handler): Result<Handler> {
    var h' :- TakePrecision(t.precision, h);
    Ok(TakeType(t.typ, h'))
  }

  function FromWidthTaken(t: SpecsText, h: Handler): Result<Handler> {
    var h' :- TakeWidth(t.width, h);
    FromPrecisionTaken(t, h')
  }

  function FromZeroTaken(t: SpecsText, h: Handler): Result<Handler> {
    var h' :- if t.zero then OnZero(h) else Ok(h);
    FromWidthTaken(t, h')
  }

  function FromHashTaken(t: SpecsText, h: Handler): Result<Handler> {
    var h' :- if t.alt then OnHash(h) else Ok(h);
    FromZeroTaken(t, h')
  }

  function FromSignTaken(t: SpecsText, h: Handler): Result<Handler> {
    var h' :- if t.sign == NoSign then Ok(h) else OnSign(h, t.sign);
    FromHashTaken(t, h')
  }

  function TakeAlign(t: SpecsText, h: Handler): Result<Handler> {
    var h' :- if t.fill == "" then Ok(h) else OnFill(h, t.fill);
    if t.align == NoAlign then Ok(h') else OnAlign(h', t.align)
  }

  function Notified(t: SpecsText, h: Handler): Result<Handler> {
    var h' :- TakeAlign(t, h);
    FromSignTaken(t, h')
  }

  /** What a parser that ends at p returns when the handler becomes h. */
  function At(h: Result<Handler>, p: nat): Result<(nat, Handler)> {
    var h' :- h;
    Ok((p, h'))
  }

  lemma DynamicPrecision(s: string, b: nat, id: ArgId, e: nat, q: nat, h: Handler)
    requires b + 2 <= e < |s| && q == e + 1 && s[b + 1] == '{' && s[e] == '}' && ParseArgId(s, b + 2) == Ok((id, e))
    ensures ParsePrecision(s, b, h) == At(TakePrecision(Dynamic(id), h), q)
  {
    var h' := OnDynamicPrecision(h, id);
    assert TakePrecision(Dynamic(id), h) == if h'.Ok? then EndPrecision(h'.value) else h';
  }

  lemma DynamicWidth(s: string, b: nat, id: ArgId, e: nat, q: nat, h: Handler)
    requires b + 1 <= e < |s| && q == e + 1 && s[b] == '{' && s[e] == '}' && ParseArgId(s, b + 1) == Ok((id, e))
    ensures ParseWidth(s, b, h) == At(TakeWidth(Dynamic(id), h), q)
  {
  }

  lemma LiteralPrecision(s: string, b: nat, digits: string, q: nat, h: Handler)
    requires b + 1 < q < |s| && IsDigit(s[b + 1]) && Number(digits) >= 0
    requires ParseDigits(s, b + 1, 0) == Ok((Number(digits) as nat, q))
    ensures ParsePrecision(s, b, h) == At(TakePrecision(Literal(digits), h), q)
  {
  }

  lemma PrecisionAt(s: string, b: nat, q: nat, t: SpecsText, p: nat)
    requires StandsAt(s, b, FromPrecision(t), p) && PrecisionReads(t) && !t.precision.Absent?
    requires q == b + 1 + |CountText(t.precision)|
    ensures s[b] == '.' && StandsAt(s, b + 1, CountText(t.precision) + t.typ, p)
    ensures StandsAt(s, q, t.typ, p)
  {
    var u := CountText(t.precision);
    assert FromPrecision(t) == "." + (u + t.typ);
    Head(s, b, "." + (u + t.typ), p);
    Cut(s, b, b + 1, ".", u + t.typ, p);
    Cut(s, b + 1, q, u, t.typ, p);
  }

  lemma LiteralPrecisionParsed(s: string, b: nat, q: nat, digits: string, typ: string, p: nat, h: Handler)
    requires b + 1 < |s| && StandsAt(s, b + 1, digits + typ, p) && CountReads(Literal(digits), typ)
    requires q == b + 1 + |digits|
    ensures ParsePrecision(s, b, h) == At(TakePrecision(Literal(digits), h), q)
  {
    LiteralParsed(s, b + 1, q, digits, typ, p);
    LiteralPrecision(s, b, digits, q, h);
  }

  lemma DynamicPrecisionParsed(s: string, b: nat, q: nat, id: ArgId, typ: string, p: nat, h: Handler)
    requires b + 1 < |s| && StandsAt(s, b + 1, CountText(Dynamic(id)) + typ, p) && Writable(id)
    requires q == b + 3 + |Written(id)|
    ensures ParsePrecision(s, b, h) == At(TakePrecision(Dynamic(id), h), q)
  {
    var e := q - 1;
    DynamicParsed(s, b + 1, e, id, typ, p);
    DynamicPrecision(s, b, id, e, q, h);
  }

  lemma PrecisionParsed(s: string, b: nat, q: nat, t: SpecsText, p: nat, h: Handler)
    requires StandsAt(s, b, FromPrecision(t), p) && PrecisionReads(t) && !t.precision.Absent?
    requires q == b + 1 + |CountText(t.precision)|
    ensures s[b] == '.' && StandsAt(s, q, t.typ, p)
    ensures ParsePrecision(s, b, h) == At(TakePrecision(t.precision, h), q)
  {
    PrecisionAt(s, b, q, t, p);
    if t.precision.Literal? {
      LiteralPrecisionParsed(s, b, q, t.precision.digits, t.typ, p, h);
    } else {
      DynamicPrecisionParsed(s, b, q, t.precision.id, t.typ, p, h);
    }
  }

  /** The last part, after what is left of the precision. */
  lemma TypeParsed(s: string, b: nat, q: nat, p: nat, typ: string, h: Handler, taken: Result<Handler>)
    requires b <= q < |s| && StandsAt(s, q, typ, p) && |typ| <= 1 && typ != "}"
    requires if s[b] == '.' then ParsePrecision(s, b, h) == At(taken, q) else taken == Ok(h) && b == q
    ensures ParsePrecisionAndType(s, b, h) == var h' :- taken; Ok((p, TakeType(typ, h')))
  {
    Head(s, q, typ, p);
    assert |typ| == p - q;
  }

  lemma FromPrecisionParsed(s: string, b: nat, t: SpecsText, p: nat, h: Handler)
    requires StandsAt(s, b, FromPrecision(t), p) && PrecisionReads(t)
    ensures ParsePrecisionAndType(s, b, h) == At(FromPrecisionTaken(t, h), p)
  {
    var q := if t.precision.Absent? then b else b + 1 + |CountText(t.precision)|;
    if t.precision.Absent? {
      assert FromPrecision(t) == t.typ;
      Head(s, b, t.typ, p);
    } else {
      PrecisionParsed(s, b, q, t, p, h);
    }
    TypeParsed(s, b, q, p, t.typ, h, TakePrecision(t.precision, h));
  }

  lemma DynamicWidthParsed(s: string, b: nat, q: nat, id: ArgId, rest: string, p: nat, h: Handler)
    requires StandsAt(s, b, CountText(Dynamic(id)) + rest, p) && Writable(id) && q == b + 2 + |Written(id)|
    ensures ParseWidth(s, b, h) == At(TakeWidth(Dynamic(id), h), q)
  {
    var e := q - 1;
    DynamicParsed(s, b, e, id, rest, p);
    DynamicWidth(s, b, id, e, q, h);
  }

  lemma LiteralWidthParsed(s: string, b: nat, q: nat, digits: string, rest: string, p: nat, h: Handler)
    requires StandsAt(s, b, digits + rest, p) && CountReads(Literal(digits), rest) && q == b + |digits|
    ensures ParseWidth(s, b, h) == At(TakeWidth(Literal(digits), h), q)
  {
    LiteralParsed(s, b, q, digits, rest, p);
  }

  lemma WidthParsed(s: string, b: nat, q: nat, t: SpecsText, p: nat, h: Handler)
    requires StandsAt(s, b, FromWidth(t), p) && WidthReads(t) && q == b + |CountText(t.width)|
    ensures StandsAt(s, q, FromPrecision(t), p) && ParseWidth(s, b, h) == At(TakeWidth(t.width, h), q)
  {
    var rest := FromPrecision(t);
    Cut(s, b, q, CountText(t.width), rest, p);
    match t.width {
      case Absent => NoWidth(s, b, rest, p, h);
      case Literal(digits) => LiteralWidthParsed(s, b, q, digits, rest, p, h);
      case Dynamic(id) => DynamicWidthParsed(s, b, q, id, rest, p, h);
    }
  }

  lemma NoWidth(s: string, b: nat, rest: string, p: nat, h: Handler)
    requires StandsAt(s, b, rest, p) && !StartsDigit(rest) && !Starts(rest, "{")
    ensures ParseWidth(s, b, h) == Ok((b, h))
  {
    Head(s, b, rest, p);
  }

  lemma AfterWidth(s: string, b: nat, q: nat, h: Handler, taken: Result<Handler>)
    requires b < |s| && q < |s| && ParseWidth(s, b, h) == At(taken, q)
    ensures ParseFromWidth(s, b, h) == var h' :- taken; ParsePrecisionAndType(s, q, h')
  {
  }

  lemma FromWidthParsed(s: string, b: nat, t: SpecsText, p: nat, h: Handler)
    requires StandsAt(s, b, FromWidth(t), p) && WidthReads(t)
    ensures ParseFromWidth(s, b, h) == At(FromWidthTaken(t, h), p)
  {
    var q, taken := b + |CountText(t.width)|, TakeWidth(t.width, h);
    WidthParsed(s, b, q, t, p, h);
    AfterWidth(s, b, q, h, taken);
    if taken.Ok? {
      FromPrecisionParsed(s, q, t, p, taken.value);
    }
  }

  lemma FromZeroParsed(s: string, b: nat, t: SpecsText, p: nat, h: Handler)
    requires StandsAt(s, b, FromZero(t), p) && ZeroReads(t)
    ensures ParseFromZero(s, b, h) == At(FromZeroTaken(t, h), p)
  {
    var q, h' := if t.zero then b + 1 else b, if t.zero then OnZero(h) else Ok(h);
    Cut(s, b, q, if t.zero then "0" else "", FromWidth(t), p);
    Head(s, b, FromZero(t), p);
    if h'.Ok? {
      FromWidthParsed(s, q, t, p, h'.value);
    }
  }

  lemma FromHashParsed(s: string, b: nat, t: SpecsText, p: nat, h: Handler)
    requires StandsAt(s, b, FromHash(t), p) && HashReads(t)
    ensures ParseFromHash(s, b, h) == At(FromHashTaken(t, h), p)
  {
    var q, h' := if t.alt then b + 1 else b, if t.alt then OnHash(h) else Ok(h);
    Cut(s, b, q, if t.alt then "#" else "", FromZero(t), p);
    Head(s, b, FromHash(t), p);
    if h'.Ok? {
      FromZeroParsed(s, q, t, p, h'.value);
    }
  }

  lemma SignParsed(s: string, b: nat, q: nat, t: SpecsText, p: nat, h: Handler)
    requires StandsAt(s, b, FromSign(t), p) && SignReads(t) && q == b + |SignText(t.sign)|
    ensures StandsAt(s, q, FromHash(t), p)
    ensures ParseSign(s, b, h) == At(if t.sign == NoSign then Ok(h) else OnSign(h, t.sign), q)
  {
    Cut(s, b, q, SignText(t.sign), FromHash(t), p);
    Head(s, b, FromSign(t), p);
    Head(s, q, FromHash(t), p);
  }

  lemma AfterSign(s: string, b: nat, q: nat, h: Handler, taken: Result<Handler>)
    requires b < |s| && q < |s| && ParseSign(s, b, h) == At(taken, q)
    ensures ParseFromSign(s, b, h) == var h' :- taken; ParseFromHash(s, q, h')
  {
  }

  lemma FromSignParsed(s: string, b: nat, t: SpecsText, p: nat, h: Handler)
    requires StandsAt(s, b, FromSign(t), p) && SignReads(t)
    ensures ParseFromSign(s, b, h) == At(FromSignTaken(t, h), p)
  {
    var q, taken := b + |SignText(t.sign)|, if t.sign == NoSign then Ok(h) else OnSign(h, t.sign);
    SignParsed(s, b, q, t, p, h);
    AfterSign(s, b, q, h, taken);
    if taken.Ok? {
      FromHashParsed(s, q, t, p, taken.value);
    }
  }

  lemma {:induction false} ContinuationIs(s: string, b: nat, q: nat)
    requires b <= q <= |s| && (forall i :: b <= i < q ==> Continuation(s[i])) && (q < |s| ==> !Continuation(s[q]))
    ensures ContinuationEnd(s, b) == q
    decreases q - b
  {
    if b < q {
      ContinuationIs(s, b + 1, q);
    }
  }

  /** A fill character, whole, in front of an alignment. */
  lemma FillIs(s: string, b: nat, fill: string, q: nat)
    requires b <= q < |s| && s[b..q] == fill && OneCodePoint(fill) && !Continuation(s[q])
    ensures b < q && s[b] == fill[0] && NextCodePoint(s, b) == q
  {
    assert forall i :: b <= i < q ==> s[i] == s[b..q][i - b];
    if s[b] as int >= 0x80 {
      ContinuationIs(s, b + 1, q);
    }
  }

  lemma AlignmentChar(align: Align)
    requires align != NoAlign
    ensures var u := AlignText(align); |u| == 1 && u[0] in ALIGNMENTS && (u[0] as int) < 0x80 && AlignOf(u[0]) == align
  {
    assert ALIGNMENTS == ['<', '>', '=', '^'];
  }

  lemma NoAlignment(c: char)
    requires c !in ALIGNMENTS
    ensures AlignOf(c) == NoAlign
  {
    assert ALIGNMENTS[0] == '<' && ALIGNMENTS[1] == '>' && ALIGNMENTS[2] == '=' && ALIGNMENTS[3] == '^';
  }

  lemma FillParsed(s: string, b: nat, t: SpecsText, q: nat, c: nat, h: Handler)
    requires b <= q < |s| && t.fill != "" && FillReads(t) && s[b..q] == t.fill && s[q] == AlignText(t.align)[0]
    requires c == q + 1
    ensures ParseAlign(s, b, h) == At(TakeAlign(t, h), c)
  {
    AlignmentChar(t.align);
    FillIs(s, b, t.fill, q);
  }

  lemma AlignParsed(s: string, b: nat, t: SpecsText, p: nat, h: Handler)
    requires StandsAt(s, b, Text(t), p) && t.fill == "" && t.align != NoAlign && FillReads(t)
    ensures ParseAlign(s, b, h) == At(TakeAlign(t, h), b + 1) && StandsAt(s, b + 1, FromSign(t), p) && s[b] != '}'
  {
    AlignmentChar(t.align);
    assert Text(t) == AlignText(t.align) + FromSign(t);
    Head(s, b, Text(t), p);
    Cut(s, b, b + 1, AlignText(t.align), FromSign(t), p);
    Head(s, b + 1, FromSign(t), p);
    NoAlignment(s[b + 1]);
  }

  /** Nothing before the sign. */
  lemma NoneParsed(s: string, b: nat, t: SpecsText, p: nat, h: Handler)
    requires StandsAt(s, b, FromSign(t), p) && FromSign(t) != "" && t.fill == "" && t.align == NoAlign && FillReads(t)
    requires FromSign(t)[0] as int < 0x80 || |FromSign(t)| == 1
    ensures ParseAlign(s, b, h) == Ok((b, h))
  {
    var u := FromSign(t);
    Head(s, b, u, p);
    NoAlignment(s[b]);
    var next := s[b + 1];
    assert next == if |u| == 1 then '}' else u[1] by {
      assert |u| > 1 ==> s[b..p][1] == s[b + 1];
    }
    NoAlignment(next);
    if s[b] as int >= 0x80 {
      ContinuationIs(s, b + 1, b + 1);
    }
  }

  /** No closing brace in front, and a character that is not ASCII stands alone. */
  predicate Plain(u: string) {
    u != "" ==> u[0] != '}' && (u[0] as int < 0x80 || |u| == 1)
  }

  lemma PlainFromWidth(t: SpecsText)
    requires WidthReads(t)
    ensures Plain(FromPrecision(t)) && Plain(FromWidth(t))
  {
    match t.width {
      case Absent => assert FromWidth(t) == FromPrecision(t);
      case Literal(digits) => assert FromWidth(t)[0] == digits[0];
      case Dynamic(id) => assert FromWidth(t)[0] == '{';
    }
  }

  lemma PlainFromSign(t: SpecsText)
    requires SignReads(t)
    ensures Plain(FromSign(t))
  {
    PlainFromWidth(t);
    PlainAfter(if t.zero then "0" else "", FromWidth(t));
    PlainAfter(if t.alt then "#" else "", FromZero(t));
    PlainAfter(SignText(t.sign), FromHash(t));
  }

  lemma PlainAfter(x: string, u: string)
    requires Plain(u) && (x == "" || (x[0] != '}' && (x[0] as int) < 0x80))
    ensures Plain(x + u)
  {
    if x == "" {
      assert x + u == u;
    }
  }

  lemma AfterAlign(s: string, b: nat, q: nat, h: Handler, taken: Result<Handler>)
    requires b < |s| && q < |s| && s[b] != '}' && ParseAlign(s, b, h) == At(taken, q)
    ensures ParseSpecs(s, b, h) == var h' :- taken; ParseFromSign(s, q, h')
  {
  }

  lemma FillThere(s: string, b: nat, q: nat, c: nat, t: SpecsText, p: nat)
    requires SpecsAt(s, b, t, p) && t.fill != "" && q == b + |t.fill| && c == q + 1
    ensures b < q < p && s[b..q] == t.fill && s[q] == AlignText(t.align)[0] && s[b] != '}'
    ensures StandsAt(s, c, FromSign(t), p)
  {
    Cut(s, b, q, t.fill, FromAlign(t), p);
    Head(s, q, FromAlign(t), p);
    AlignmentChar(t.align);
    Cut(s, q, c, AlignText(t.align), FromSign(t), p);
    assert s[b] == s[b..q][0];
  }

  lemma FromFillParsed(s: string, b: nat, t: SpecsText, p: nat, h: Handler)
    requires SpecsAt(s, b, t, p) && t.fill != ""
    ensures ParseSpecs(s, b, h) == At(Notified(t, h), p)
  {
    var q := b + |t.fill|;
    var c, taken := q + 1, TakeAlign(t, h);
    FillThere(s, b, q, c, t, p);
    FillParsed(s, b, t, q, c, h);
    AfterAlign(s, b, c, h, taken);
    if taken.Ok? {
      FromSignParsed(s, c, t, p, taken.value);
    }
  }

  lemma FromAlignParsed(s: string, b: nat, t: SpecsText, p: nat, h: Handler)
    requires SpecsAt(s, b, t, p) && t.fill == "" && t.align != NoAlign
    ensures ParseSpecs(s, b, h) == At(Notified(t, h), p)
  {
    var taken := TakeAlign(t, h);
    AlignParsed(s, b, t, p, h);
    AfterAlign(s, b, b + 1, h, taken);
    if taken.Ok? {
      FromSignParsed(s, b + 1, t, p, taken.value);
    }
  }

  lemma FromNothingParsed(s: string, b: nat, t: SpecsText, p: nat, h: Handler)
    requires SpecsAt(s, b, t, p) && t.fill == "" && t.align == NoAlign
    ensures ParseSpecs(s, b, h) == At(Notified(t, h), p)
  {
    assert Text(t) == FromSign(t);
    Head(s, b, FromSign(t), p);
    PlainFromSign(t);
    FromSignParsed(s, b, t, p, h);
    if FromSign(t) != "" {
      NoneParsed(s, b, t, p, h);
    }
  }

  lemma SpecsNotified(s: string, b: nat, t: SpecsText, p: nat, h: Handler)
    requires SpecsAt(s, b, t, p)
    ensures ParseSpecs(s, b, h) == At(Notified(t, h), p)
  {
    if t.fill != "" {
      FromFillParsed(s, b, t, p, h);
    } else if t.align != NoAlign {
      FromAlignParsed(s, b, t, p, h);
    } else {
      FromNothingParsed(s, b, t, p, h);
    }
  }

  // The notifications come to the fields written.

  /** Both succeed with the same handler, or both fail. */
  predicate Same(x: Result<Handler>, y: Result<Handler>) {
    if y.Ok? then x == y else x.Err?
  }

  /** The type of the specifications, unless none is written. */
  function TypeOf(t: SpecsText, specs: Specs): char {
    if t.typ == "" then specs.typ else t.typ[0]
  }

  lemma CheckedWidth(t: SpecsText, specs: Specs, next: int, typ: ArgType, args: Args)
    ensures TakeWidth(t.width, Checking(specs, next, typ, args))
            == var (w, next') :- Counted(t.width, specs.width, args, next);
               Ok(Checking(specs.(width := w), next', typ, args))
  {
  }

  lemma CheckedPrecision(t: SpecsText, specs: Specs, next: int, typ: ArgType, args: Args)
    ensures Same(FromPrecisionTaken(t, Checking(specs, next, typ, args)),
                 var (p, next') :- Counted(t.precision, specs.precision, args, next);
                 if t.precision.Absent? || PrecisionAllowed(typ)
                 then Ok(Checking(specs.(precision := p, typ := TypeOf(t, specs)), next', typ, args)) else Err(""))
  {
  }

  function CheckedRest(t: SpecsText, specs: Specs, next: int, typ: ArgType, args: Args): Result<Handler> {
    var (w, next1) :- Counted(t.width, specs.width, args, next);
    var (p, next2) :- Counted(t.precision, specs.precision, args, next1);
    if t.precision.Absent? || PrecisionAllowed(typ)
    then Ok(Checking(specs.(width := w, precision := p, typ := TypeOf(t, specs)), next2, typ, args)) else Err("")
  }

  lemma CheckedFromWidth(t: SpecsText, specs: Specs, next: int, typ: ArgType, args: Args)
    ensures Same(FromWidthTaken(t, Checking(specs, next, typ, args)), CheckedRest(t, specs, next, typ, args))
  {
    CheckedWidth(t, specs, next, typ, args);
    var w := Counted(t.width, specs.width, args, next);
    if w.Ok? {
      CheckedPrecision(t, specs.(width := w.value.0), w.value.1, typ, args);
    }
  }

  /** The fields in front of the width. */
  function Front(t: SpecsText, specs: Specs): Specs {
    Fields(t, specs, specs.width, specs.precision).(typ := specs.typ)
  }

  // The parts from each flag on.

  function ZeroOn(t: SpecsText): SpecsText {
    HashOn(t).(alt := false)
  }

  function HashOn(t: SpecsText): SpecsText {
    SignOn(t).(sign := NoSign)
  }

  function SignOn(t: SpecsText): SpecsText {
    t.(fill := "", align := NoAlign)
  }

  /** The flags in front of the width come to their fields, if the type allows them. */
  predicate FlagsSet(taken: Result<Handler>, t: SpecsText, specs: Specs, next: int, typ: ArgType, args: Args) {
    Same(taken, if FlagsPermitted(t, typ) then CheckedRest(t, Front(t, specs), next, typ, args) else Err(""))
  }

  lemma CheckedFromZero(t: SpecsText, specs: Specs, next: int, typ: ArgType, args: Args)
    ensures FlagsSet(FromZeroTaken(t, Checking(specs, next, typ, args)), ZeroOn(t), specs, next, typ, args)
  {
    if t.zero && specs.fill != "" {
      assert specs.fill[0 := '0'] == "0" + specs.fill[1..];
    }
    CheckedFromWidth(t, Front(ZeroOn(t), specs), next, typ, args);
  }

  lemma CheckedFromHash(t: SpecsText, specs: Specs, next: int, typ: ArgType, args: Args)
    ensures FlagsSet(FromHashTaken(t, Checking(specs, next, typ, args)), HashOn(t), specs, next, typ, args)
  {
    CheckedFromZero(t, if t.alt then specs.(alt := true) else specs, next, typ, args);
  }

  lemma CheckedFromSign(t: SpecsText, specs: Specs, next: int, typ: ArgType, args: Args)
    ensures FlagsSet(FromSignTaken(t, Checking(specs, next, typ, args)), SignOn(t), specs, next, typ, args)
  {
    CheckedFromHash(t, if t.sign == NoSign then specs else specs.(sign := t.sign), next, typ, args);
  }

  lemma CheckedFromAlign(t: SpecsText, specs: Specs, next: int, typ: ArgType, args: Args)
    requires |t.fill| <= 4
    ensures FlagsSet(Notified(t, Checking(specs, next, typ, args)), t, specs, next, typ, args)
  {
    var filled := if t.fill == "" then specs else specs.(fill := t.fill);
    var aligned := if t.align == NoAlign then filled else filled.(align := t.align);
    CheckedFromSign(t, aligned, next, typ, args);
    assert Front(SignOn(t), aligned) == Front(t, specs);
    RestIs(SignOn(t), t, Front(t, specs), next, typ, args);
  }

  /** The last parts are all that counts after the flags. */
  lemma RestIs(t: SpecsText, u: SpecsText, specs: Specs, next: int, typ: ArgType, args: Args)
    requires t.width == u.width && t.precision == u.precision && t.typ == u.typ
    ensures CheckedRest(t, specs, next, typ, args) == CheckedRest(u, specs, next, typ, args)
  {
  }

  lemma TakenIs(t: SpecsText, specs: Specs, next: int, typ: ArgType, args: Args)
    ensures Same(if FlagsPermitted(t, typ) then CheckedRest(t, Front(t, specs), next, typ, args) else Err(""),
                 Taken(t, Checking(specs, next, typ, args)))
  {
  }

  lemma CheckedAll(t: SpecsText, specs: Specs, next: int, typ: ArgType, args: Args)
    requires |t.fill| <= 4
    ensures Same(Notified(t, Checking(specs, next, typ, args)), Taken(t, Checking(specs, next, typ, args)))
  {
    CheckedFromAlign(t, specs, next, typ, args);
    TakenIs(t, specs, next, typ, args);
  }

  function RecordedRest(t: SpecsText, specs: Specs, next: int, width: ArgRef, precision: ArgRef): Result<Handler> {
    var (w, width', next1) :- Recorded(t.width, specs.width, width, next);
    var (p, precision', next2) :- Recorded(t.precision, specs.precision, precision, next1);
    Ok(Recording(specs.(width := w, precision := p, typ := TypeOf(t, specs)), next2, width', precision'))
  }

  lemma RecordedWidth(t: SpecsText, specs: Specs, next: int, width: ArgRef, precision: ArgRef)
    ensures TakeWidth(t.width, Recording(specs, next, width, precision))
            == var (w, width', next') :- Recorded(t.width, specs.width, width, next);
               Ok(Recording(specs.(width := w), next', width', precision))
  {
  }

  lemma RecordedPrecision(t: SpecsText, specs: Specs, next: int, width: ArgRef, precision: ArgRef)
    ensures FromPrecisionTaken(t, Recording(specs, next, width, precision))
            == var (p, precision', next') :- Recorded(t.precision, specs.precision, precision, next);
               Ok(Recording(specs.(precision := p, typ := TypeOf(t, specs)), next', width, precision'))
  {
  }

  lemma RecordedFromWidth(t: SpecsText, specs: Specs, next: int, width: ArgRef, precision: ArgRef)
    ensures FromWidthTaken(t, Recording(specs, next, width, precision))
            == RecordedRest(t, specs, next, width, precision)
  {
    RecordedWidth(t, specs, next, width, precision);
    var w := Recorded(t.width, specs.width, width, next);
    if w.Ok? {
      RecordedPrecision(t, specs.(width := w.value.0), w.value.2, w.value.1, precision);
    }
  }

  lemma RecordedFromSign(t: SpecsText, specs: Specs, next: int, width: ArgRef, precision: ArgRef)
    ensures FromSignTaken(t, Recording(specs, next, width, precision))
            == RecordedRest(t, Front(SignOn(t), specs), next, width, precision)
  {
    if t.zero && specs.fill != "" {
      assert specs.fill[0 := '0'] == "0" + specs.fill[1..];
    }
    RecordedFromWidth(t, Front(SignOn(t), specs), next, width, precision);
  }

  lemma RecordedAll(t: SpecsText, specs: Specs, next: int, width: ArgRef, precision: ArgRef)
    requires |t.fill| <= 4
    ensures Notified(t, Recording(specs, next, width, precision)) == Taken(t, Recording(specs, next, width, precision))
  {
    var filled := if t.fill == "" then specs else specs.(fill := t.fill);
    var aligned := if t.align == NoAlign then filled else filled.(align := t.align);
    RecordedFromSign(t, aligned, next, width, precision);
    assert Front(SignOn(t), aligned) == Front(t, specs);
  }

  /** Specifications written are read part by part: exactly the fields written, or an error exactly when one is due. */
  lemma WrittenSpecsParsed(s: string, b: nat, t: SpecsText, p: nat, h: Handler)
    requires SpecsAt(s, b, t, p)
    ensures if Taken(t, h).Ok? then ParseSpecs(s, b, h) == Ok((p, Taken(t, h).value)) else ParseSpecs(s, b, h).Err?
  {
    SpecsNotified(s, b, t, p, h);
    match h
    case Checking(specs, next, typ, args) => CheckedAll(t, specs, next, typ, args);
    case Recording(specs, next, width, precision) => RecordedAll(t, specs, next, width, precision);
  }
}
