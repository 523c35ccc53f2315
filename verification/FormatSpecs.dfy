/** Format specifications of fmt: the parser, and its two handlers, one checking at once and one recording for later. */
module FormatSpecs {
  datatype Result<T> = Ok(value: T) | Err(message: string) {
    predicate IsFailure() {
      Err?
    }

    function PropagateFailure<U>(): Result<U>
      requires Err?
    {
      Err(message)
    }

    function Extract(): T
      requires Ok?
    {
      value
    }
  }

  datatype Align = NoAlign | Left | Right | Center | Numeric

  datatype SignMode = NoSign | Minus | Plus | Space

  datatype Specs = Specs(width: int, precision: int, typ: char, align: Align, sign: SignMode, alt: bool, fill: string)

  const DEFAULT_SPECS := Specs(0, -1, '\0', NoAlign, NoSign, false, " ")

  /** A reference to an argument as written: next automatic, by index or by name. */
  datatype ArgId = Auto | Index(index: nat) | Name(name: string)

  /** A reference recorded for formatting time. */
  datatype ArgRef = NoRef | IndexRef(index: int) | NameRef(name: string)

  datatype ArgType = NoneType | IntType | UintType | LongLongType | UlongLongType | Int128Type | Uint128Type
                   | BoolType | CharType | FloatType | DoubleType | LongDoubleType | CstringType | StringType
                   | PointerType

  /** An argument: its type, its number if it is an integer, and whatever else its formatting needs. */
  datatype Arg = Arg(typ: ArgType, number: int, text: string)

  const NO_ARG := Arg(NoneType, 0, "")

  datatype Args = Args(items: seq<Arg>, named: map<string, Arg>)

  predicate IsIntegral(t: ArgType) {
    t in {IntType, UintType, LongLongType, UlongLongType, Int128Type, Uint128Type, BoolType, CharType}
  }

  predicate IsArithmetic(t: ArgType) {
    IsIntegral(t) || t in {FloatType, DoubleType, LongDoubleType}
  }

  /** The integer types a width or precision may have: not bool, not char. */
  predicate IsInteger(t: ArgType) {
    IsIntegral(t) && t !in {BoolType, CharType}
  }

  /** ctx.arg(id): an argument of no type if there is none. */
  function ArgAt(args: Args, index: int): Arg {
    if 0 <= index < |args.items| then args.items[index] else NO_ARG
  }

  function ArgNamed(args: Args, name: string): Result<Arg> {
    if name in args.named && args.named[name].typ != NoneType then Ok(args.named[name]) else Err("argument not found")
  }

  /** internal::get_arg: an index out of range is an error. */
  function GetArg(args: Args, index: int): Result<Arg> {
    if ArgAt(args, index).typ == NoneType then Err("argument index out of range") else Ok(ArgAt(args, index))
  }

  /** get_dynamic_spec with width_checker or precision_checker. */
  function DynamicSpec(arg: Arg): Result<int> {
    if !IsInteger(arg.typ) then Err("width or precision is not integer")
    else if arg.number < 0 then Err("negative width or precision")
    else if arg.number % 0x1_0000_0000_0000_0000 > 0x7fff_ffff then Err("number is too big")
    else Ok(arg.number % 0x1_0000_0000_0000_0000)
  }

  // basic_format_parse_context: automatic and manual argument indexing.

  function NextArgId(next: int): Result<(int, int)> {
    if next >= 0 then Ok((next, next + 1))
    else Err("cannot switch from manual to automatic argument indexing")
  }

  function CheckArgId(next: int): Result<int> {
    if next > 0 then Err("cannot switch from automatic to manual argument indexing") else Ok(-1)
  }

  /** The index or name an argument id stands for, and the indexing state after it. */
  function ResolveId(id: ArgId, next: int): Result<(ArgRef, int)> {
    match id
    case Auto => var (index, next') :- NextArgId(next); Ok((IndexRef(index), next'))
    case Index(index) => var next' :- CheckArgId(next); Ok((IndexRef(index), next'))
    case Name(name) => Ok((NameRef(name), next))
  }

  function Lookup(args: Args, ref: ArgRef): Result<Arg> {
    match ref
    case NoRef => Ok(NO_ARG)
    case IndexRef(index) => GetArg(args, index)
    case NameRef(name) => ArgNamed(args, name)
  }

  // numeric_specs_checker.

  predicate SignAllowed(t: ArgType) {
    IsArithmetic(t) && (IsIntegral(t) ==> t in {IntType, LongLongType, CharType})
  }

  predicate PrecisionAllowed(t: ArgType) {
    !IsIntegral(t) && t != PointerType
  }

  /**
   The handler of parse_format_specs: either specs_checker over specs_handler, which looks arguments up and checks
   against the argument's type at once, or dynamic_specs_handler, which only records.
   */
  datatype Handler =
    | Checking(specs: Specs, next: int, typ: ArgType, args: Args)
    | Recording(specs: Specs, next: int, width: ArgRef, precision: ArgRef)

  function Guard(h: Handler, ok: bool, specs: Specs): Result<Handler> {
    if h.Checking? && !ok then Err("format specifier not allowed for this argument type")
    else Ok(h.(specs := specs))
  }

  function OnAlign(h: Handler, align: Align): Result<Handler> {
    Guard(h, align == Numeric ==> h.Checking? && IsArithmetic(h.typ), h.specs.(align := align))
  }

  function OnFill(h: Handler, fill: string): Result<Handler> {
    if |fill| > 4 then Err("invalid fill") else Ok(h.(specs := h.specs.(fill := fill)))
  }

  function OnSign(h: Handler, sign: SignMode): Result<Handler> {
    Guard(h, h.Checking? && SignAllowed(h.typ), h.specs.(sign := sign))
  }

  function OnHash(h: Handler): Result<Handler> {
    Guard(h, h.Checking? && IsArithmetic(h.typ), h.specs.(alt := true))
  }

  function OnZero(h: Handler): Result<Handler> {
    Guard(h, h.Checking? && IsArithmetic(h.typ),
          h.specs.(align := Numeric, fill := if h.specs.fill == "" then "" else h.specs.fill[0 := '0']))
  }

  function OnWidth(h: Handler, width: int): Handler {
    h.(specs := h.specs.(width := width))
  }

  function OnPrecision(h: Handler, precision: int): Handler {
    h.(specs := h.specs.(precision := precision))
  }

  function EndPrecision(h: Handler): Result<Handler> {
    Guard(h, h.Checking? && PrecisionAllowed(h.typ), h.specs)
  }

  function OnType(h: Handler, typ: char): Handler {
    h.(specs := h.specs.(typ := typ))
  }

  /** on_dynamic_width: look the width up now, or record where it is. */
  function OnDynamicWidth(h: Handler, id: ArgId): Result<Handler> {
    var (ref, next) :- ResolveId(id, h.next);
    match h
    case Checking(specs, _, typ, args) =>
      var arg :- Lookup(args, ref);
      var width :- DynamicSpec(arg);
      Ok(Checking(specs.(width := width), next, typ, args))
    case Recording(specs, _, _, precision) => Ok(Recording(specs, next, ref, precision))
  }

  function OnDynamicPrecision(h: Handler, id: ArgId): Result<Handler> {
    var (ref, next) :- ResolveId(id, h.next);
    match h
    case Checking(specs, _, typ, args) =>
      var arg :- Lookup(args, ref);
      var precision :- DynamicSpec(arg);
      Ok(Checking(specs.(precision := precision), next, typ, args))
    case Recording(specs, _, width, _) => Ok(Recording(specs, next, width, ref))
  }

  // The parsers. A position is an index into the format string; the end is its length.

  predicate IsDigit(c: char) {
    '0' <= c <= '9'
  }

  predicate IsNameStart(c: char) {
    'a' <= c <= 'z' || 'A' <= c <= 'Z' || c == '_'
  }

  /** The loop of parse_nonnegative_int with its overflow check. */
  function ParseDigits(s: string, b: nat, value: nat): Result<(nat, nat)>
    requires b <= |s|
    ensures ParseDigits(s, b, value).Ok? ==> b <= ParseDigits(s, b, value).value.1 <= |s|
    decreases |s| - b
  {
    if b == |s| || !IsDigit(s[b]) then
      if value > 0x7fff_ffff then Err("number is too big") else Ok((value, b))
    else if value > 0x7fff_ffff / 10 then Err("number is too big")
    else ParseDigits(s, b + 1, value * 10 + (s[b] as nat - '0' as nat))
  }

  function NameEnd(s: string, b: nat): (e: nat)
    requires b <= |s|
    ensures b <= e <= |s|
    decreases |s| - b
  {
    if b < |s| && (IsNameStart(s[b]) || IsDigit(s[b])) then NameEnd(s, b + 1) else b
  }

  /** parse_arg_id: an id and the position after it. */
  function ParseArgId(s: string, b: nat): (r: Result<(ArgId, nat)>)
    requires b < |s|
    ensures r.Ok? ==> b <= r.value.1 <= |s|
  {
    var c := s[b];
    if c == '}' || c == ':' then Ok((Auto, b))
    else if IsDigit(c) then
      var (index, p) :- if c != '0' then ParseDigits(s, b, 0) else Ok((0, b + 1));
      if p == |s| || (s[p] != '}' && s[p] != ':') then Err("invalid format string") else Ok((Index(index), p))
    else if !IsNameStart(c) then Err("invalid format string")
    else Ok((Name(s[b..NameEnd(s, b + 1)]), NameEnd(s, b + 1)))
  }

  function ContinuationEnd(s: string, b: nat): (e: nat)
    requires b <= |s|
    ensures b <= e <= |s|
    decreases |s| - b
  {
    if b < |s| && 0x80 <= s[b] as int < 0xc0 then ContinuationEnd(s, b + 1) else b
  }

  /** The position after the UTF-8 sequence that starts at b. */
  function NextCodePoint(s: string, b: nat): (e: nat)
    requires b < |s|
    ensures b < e <= |s|
  {
    if (s[b] as int) < 0x80 then b + 1 else ContinuationEnd(s, b + 1)
  }

  function AlignOf(c: char): Align {
    match c
    case '<' => Left
    case '>' => Right
    case '=' => Numeric
    case '^' => Center
    case _ => NoAlign
  }

  /** parse_align: an alignment after a fill character, or alone. */
  function ParseAlign(s: string, b: nat, h: Handler): (r: Result<(nat, Handler)>)
    requires b < |s|
    ensures r.Ok? ==> b <= r.value.0 <= |s| && r.value.1.Checking? == h.Checking?
  {
    var next := NextCodePoint(s, b);
    var p := if next == |s| then b else next;
    if p != b && AlignOf(s[p]) != NoAlign then
      if s[b] == '{' then Err("invalid fill character '{'") else
        var h' :- OnFill(h, s[b..p]);
        var h'' :- OnAlign(h', AlignOf(s[p]));
        Ok((p + 1, h''))
    else if AlignOf(s[b]) != NoAlign then
      var h' :- OnAlign(h, AlignOf(s[b]));
      Ok((b + 1, h'))
    else Ok((b, h))
  }

  function ParseSign(s: string, b: nat, h: Handler): (r: Result<(nat, Handler)>)
    requires b < |s|
    ensures r.Ok? ==> b <= r.value.0 <= |s| && r.value.1.Checking? == h.Checking?
  {
    match s[b]
    case '+' => var h' :- OnSign(h, Plus); Ok((b + 1, h'))
    case '-' => var h' :- OnSign(h, Minus); Ok((b + 1, h'))
    case ' ' => var h' :- OnSign(h, Space); Ok((b + 1, h'))
    case _ => Ok((b, h))
  }

  function ParseHash(s: string, b: nat, h: Handler): (r: Result<(nat, Handler)>)
    requires b < |s|
    ensures r.Ok? ==> b <= r.value.0 <= |s| && r.value.1.Checking? == h.Checking?
  {
    if s[b] == '#' then var h' :- OnHash(h); Ok((b + 1, h')) else Ok((b, h))
  }

  function ParseZero(s: string, b: nat, h: Handler): (r: Result<(nat, Handler)>)
    requires b < |s|
    ensures r.Ok? ==> b <= r.value.0 <= |s| && r.value.1.Checking? == h.Checking?
  {
    if s[b] == '0' then var h' :- OnZero(h); Ok((b + 1, h')) else Ok((b, h))
  }

  /** parse_width: a number, or an argument id in braces. */
  function ParseWidth(s: string, b: nat, h: Handler): (r: Result<(nat, Handler)>)
    requires b < |s|
    ensures r.Ok? ==> b <= r.value.0 <= |s| && r.value.1.Checking? == h.Checking?
  {
    if IsDigit(s[b]) then
      var (width, p) :- ParseDigits(s, b, 0);
      Ok((p, OnWidth(h, width)))
    else if s[b] == '{' then
      if b + 1 == |s| then Err("invalid format string") else
        var (id, p) :- ParseArgId(s, b + 1);
        var h' :- OnDynamicWidth(h, id);
        if p == |s| || s[p] != '}' then Err("invalid format string") else Ok((p + 1, h'))
    else Ok((b, h))
  }

  /** parse_precision: after the dot, a number or an argument id in braces. */
  function ParsePrecision(s: string, b: nat, h: Handler): (r: Result<(nat, Handler)>)
    requires b < |s|
    ensures r.Ok? ==> b <= r.value.0 <= |s| && r.value.1.Checking? == h.Checking?
  {
    var c := if b + 1 != |s| then s[b + 1] else '\0';
    if IsDigit(c) then
      var (precision, p) :- ParseDigits(s, b + 1, 0);
      var h' :- EndPrecision(OnPrecision(h, precision));
      Ok((p, h'))
    else if c == '{' then
      if b + 2 == |s| then Err("invalid format string") else
        var (id, p) :- ParseArgId(s, b + 2);
        var h' :- OnDynamicPrecision(h, id);
        if p == |s| || s[p] != '}' then Err("invalid format string") else
          var h'' :- EndPrecision(h');
          Ok((p + 1, h''))
    else Err("missing precision specifier")
  }

  /** The tail of parse_format_specs: precision and type. */
  function ParsePrecisionAndType(s: string, b: nat, h: Handler): (r: Result<(nat, Handler)>)
    requires b < |s|
    ensures r.Ok? ==> b <= r.value.0 <= |s| && r.value.1.Checking? == h.Checking?
  {
    var (p, h') :- if s[b] == '.' then ParsePrecision(s, b, h) else Ok((b, h));
    if p != |s| && s[p] != '}' then Ok((p + 1, OnType(h', s[p]))) else Ok((p, h'))
  }

  // parse_format_specs takes each part in turn and stops where the string ends.

  function ParseFromWidth(s: string, b: nat, h: Handler): (r: Result<(nat, Handler)>)
    requires b <= |s|
    ensures r.Ok? ==> b <= r.value.0 <= |s| && r.value.1.Checking? == h.Checking?
  {
    if b == |s| then Ok((b, h)) else
      var (p, h') :- ParseWidth(s, b, h);
      if p == |s| then Ok((p, h')) else ParsePrecisionAndType(s, p, h')
  }

  function ParseFromZero(s: string, b: nat, h: Handler): (r: Result<(nat, Handler)>)
    requires b <= |s|
    ensures r.Ok? ==> b <= r.value.0 <= |s| && r.value.1.Checking? == h.Checking?
  {
    if b == |s| then Ok((b, h)) else
      var (p, h') :- ParseZero(s, b, h);
      ParseFromWidth(s, p, h')
  }

  function ParseFromHash(s: string, b: nat, h: Handler): (r: Result<(nat, Handler)>)
    requires b <= |s|
    ensures r.Ok? ==> b <= r.value.0 <= |s| && r.value.1.Checking? == h.Checking?
  {
    if b == |s| then Ok((b, h)) else
      var (p, h') :- ParseHash(s, b, h);
      ParseFromZero(s, p, h')
  }

  function ParseFromSign(s: string, b: nat, h: Handler): (r: Result<(nat, Handler)>)
    requires b <= |s|
    ensures r.Ok? ==> b <= r.value.0 <= |s| && r.value.1.Checking? == h.Checking?
  {
    if b == |s| then Ok((b, h)) else
      var (p, h') :- ParseSign(s, b, h);
      ParseFromHash(s, p, h')
  }

  /** parse_format_specs. */
  function ParseSpecs(s: string, b: nat, h: Handler): (r: Result<(nat, Handler)>)
    requires b <= |s|
    ensures r.Ok? ==> b <= r.value.0 <= |s| && r.value.1.Checking? == h.Checking?
  {
    if b == |s| || s[b] == '}' then Ok((b, h)) else
      var (p, h') :- ParseAlign(s, b, h);
      ParseFromSign(s, p, h')
  }
}
