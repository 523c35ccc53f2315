/** Format strings of fmt: direct formatting, compilation into parts, and interpretation of the parts. */
module FormatString {
  import opened FormatSpecs

  datatype MaybeSpecs = NoSpecs | With(specs: Specs)

  /** How one argument is written under given specifications, or with none. */
  type Writer = (Arg, MaybeSpecs) -> Result<string>

  /** Part of a compiled format string. */
  datatype Part =
    | TextPart(text: string)
    | ArgPart(ref: ArgRef)
    | ReplacementPart(ref: ArgRef, specs: Specs, width: ArgRef, precision: ArgRef)

  /**
   visit_format_arg over arg_formatter. An argument of no type is refused by an assertion only: where assertions are
   compiled out, nothing is written for it.
   */
  function WriteArg(write: Writer, arg: Arg, specs: MaybeSpecs): Result<string> {
    if arg.typ == NoneType then Ok("") else write(arg, specs)
  }

  /**
   The handler of parse_format_string: format_handler, which formats as it goes, or format_string_compiler,
   which collects parts. Both keep the argument named last.
   */
  datatype StringHandler =
    | Formatting(out: string, next: int, arg: Arg, args: Args, write: Writer)
    | Compiling(parts: seq<Part>, next: int, ref: ArgRef)

  function OnText(h: StringHandler, text: string): (r: StringHandler)
    ensures r.Formatting? == h.Formatting?
  {
    match h
    case Formatting(out, next, arg, args, write) => Formatting(out + text, next, arg, args, write)
    case Compiling(parts, next, ref) => if text == "" then h else Compiling(parts + [TextPart(text)], next, ref)
  }

  function OnArgId(h: StringHandler, id: ArgId): (r: Result<StringHandler>)
    ensures r.Ok? ==> r.value.Formatting? == h.Formatting?
  {
    var (ref, next) :- ResolveId(id, h.next);
    match h
    case Formatting(out, _, _, args, write) => var arg :- Lookup(args, ref); Ok(Formatting(out, next, arg, args, write))
    case Compiling(parts, _, _) => Ok(Compiling(parts, next, ref))
  }

  function OnReplacementField(h: StringHandler): (r: Result<StringHandler>)
    ensures r.Ok? ==> r.value.Formatting? == h.Formatting?
  {
    match h
    case Formatting(out, next, arg, args, write) =>
      var text :- WriteArg(write, arg, NoSpecs);
      Ok(Formatting(out + text, next, arg, args, write))
    case Compiling(parts, next, ref) => Ok(Compiling(parts + [ArgPart(ref)], next, ref))
  }

  /** on_format_specs of either handler: parse, then format or record. */
  function OnFormatSpecs(h: StringHandler, s: string, b: nat): (r: Result<(nat, StringHandler)>)
    requires b <= |s|
    ensures r.Ok? ==> b <= r.value.0 < |s| && r.value.1.Formatting? == h.Formatting?
  {
    match h
    case Formatting(out, next, arg, args, write) =>
      var (p, specs) :- ParseSpecs(s, b, Checking(DEFAULT_SPECS, next, arg.typ, args));
      if p == |s| || s[p] != '}' then Err("missing '}' in format string") else
        var text :- WriteArg(write, arg, With(specs.specs));
        Ok((p, Formatting(out + text, specs.next, arg, args, write)))
    case Compiling(parts, next, ref) =>
      var (p, specs) :- ParseSpecs(s, b, Recording(DEFAULT_SPECS, next, NoRef, NoRef));
      if p == |s| || s[p] != '}' then Err("missing '}' in format string") else
        Ok((p, Compiling(parts + [ReplacementPart(ref, specs.specs, specs.width, specs.precision)], specs.next, ref)))
  }

  function Find(s: string, b: nat, e: nat, c: char): (p: nat)
    requires b <= e <= |s|
    ensures b <= p <= e
    ensures p < e ==> s[p] == c
    decreases e - b
  {
    if b == e || s[b] == c then b else Find(s, b + 1, e, c)
  }

  /** pfs_writer: literal text up to e, where a closing brace must be doubled. */
  function WriteText(s: string, b: nat, e: nat, h: StringHandler): (r: Result<StringHandler>)
    requires b <= e <= |s|
    ensures r.Ok? ==> r.value.Formatting? == h.Formatting?
    decreases e - b
  {
    if b == e then Ok(h) else
      var p := Find(s, b, e, '}');
      if p == e then Ok(OnText(h, s[b..e]))
      else if p + 1 == e || s[p + 1] != '}' then Err("unmatched '}' in format string")
      else WriteText(s, p + 2, e, OnText(h, s[b..p + 1]))
  }

  /** After an argument id: the end of the field, or specifications. */
  function FinishField(s: string, p: nat, h: StringHandler): (r: Result<(nat, StringHandler)>)
    requires p <= |s|
    ensures r.Ok? ==> p <= r.value.0 < |s| && r.value.1.Formatting? == h.Formatting?
  {
    if p == |s| then Err("missing '}' in format string")
    else if s[p] == '}' then var h' :- OnReplacementField(h); Ok((p, h'))
    else if s[p] == ':' then OnFormatSpecs(h, s, p + 1)
    else Err("missing '}' in format string")
  }

  /** One replacement field or escaped brace, from the position after its opening brace; returns its last position. */
  function ParseField(s: string, b: nat, h: StringHandler): (r: Result<(nat, StringHandler)>)
    requires b <= |s|
    ensures r.Ok? ==> b <= r.value.0 < |s| && r.value.1.Formatting? == h.Formatting?
  {
    if b == |s| then Err("invalid format string")
    else if s[b] == '}' then var h' :- OnArgId(h, Auto); FinishField(s, b, h')
    else if s[b] == '{' then Ok((b, OnText(h, s[b..b + 1])))
    else
      var (id, p) :- ParseArgId(s, b);
      var h' :- OnArgId(h, id);
      FinishField(s, p, h')
  }

  /** parse_format_string from position b. */
  function ParseFormatString(s: string, b: nat, h: StringHandler): (r: Result<StringHandler>)
    requires b <= |s|
    ensures r.Ok? ==> r.value.Formatting? == h.Formatting?
    decreases |s| - b, 1
  {
    if b == |s| then Ok(h) else
      var p := Find(s, b, |s|, '{');
      var h' :- WriteText(s, b, p, h);
      if p == |s| then Ok(h') else ParseFromBrace(s, p, h')
  }

  /** The rest of its loop, from an opening brace at p. */
  function ParseFromBrace(s: string, p: nat, h: StringHandler): (r: Result<StringHandler>)
    requires p < |s|
    ensures r.Ok? ==> r.value.Formatting? == h.Formatting?
    decreases |s| - p, 0
  {
    var (q, h') :- ParseField(s, p + 1, h);
    ParseFormatString(s, q + 1, h')
  }

  /** vformat_to of format.h. */
  function Format(s: string, args: Args, write: Writer): Result<string> {
    var h :- ParseFormatString(s, 0, Formatting("", 0, NO_ARG, args, write));
    Ok(h.out)
  }

  /** compile_format_string. */
  function Compile(s: string): Result<seq<Part>> {
    var h :- ParseFormatString(s, 0, Compiling([], 0, IndexRef(0)));
    Ok(h.parts)
  }

  /** handle_dynamic_spec: a reference overrides the recorded number. */
  function HandleDynamicSpec(value: int, ref: ArgRef, args: Args): Result<int> {
    match ref
    case NoRef => Ok(value)
    case IndexRef(index) => DynamicSpec(ArgAt(args, index))
    case NameRef(name) => var arg :- ArgNamed(args, name); DynamicSpec(arg)
  }

  /** The argument of a part: an index out of range gives an argument of no type. */
  function PartArg(args: Args, ref: ArgRef): Result<Arg> {
    match ref
    case NoRef => Ok(NO_ARG)
    case IndexRef(index) => Ok(ArgAt(args, index))
    case NameRef(name) => ArgNamed(args, name)
  }

  /** The checks the compiled path makes on recorded specifications, at formatting time. */
  function CheckSpecs(specs: Specs, typ: ArgType): Result<Specs> {
    if specs.align == Numeric && !IsArithmetic(typ) then Err("format specifier requires numeric argument")
    else if specs.sign != NoSign && !SignAllowed(typ) then Err("format specifier requires signed argument")
    else if specs.alt && !IsArithmetic(typ) then Err("format specifier requires numeric argument")
    else if specs.precision >= 0 && !PrecisionAllowed(typ) then Err("precision not allowed for this argument type")
    else Ok(specs)
  }

  /** What one part adds to the output. */
  function PartText(part: Part, args: Args, write: Writer): Result<string> {
    match part
    case TextPart(text) => Ok(text)
    case ArgPart(ref) => var arg :- PartArg(args, ref); WriteArg(write, arg, NoSpecs)
    case ReplacementPart(ref, specs, width, precision) =>
      var arg :- PartArg(args, ref);
      var w :- HandleDynamicSpec(specs.width, width, args);
      var p :- HandleDynamicSpec(specs.precision, precision, args);
      var checked :- CheckSpecs(specs.(width := w, precision := p), arg.typ);
      WriteArg(write, arg, With(checked))
  }

  /** The output of parts in order, or the first error. */
  function Interpret(parts: seq<Part>, args: Args, write: Writer): Result<string> {
    if parts == [] then Ok("") else
      var before :- Interpret(parts[..|parts| - 1], args, write);
      var text :- PartText(parts[|parts| - 1], args, write);
      Ok(before + text)
  }

  /** cf::vformat_to: the loop over the compiled parts. */
  method VformatTo(parts: seq<Part>, args: Args, write: Writer) returns (r: Result<string>)
    ensures r.Ok? <==> Interpret(parts, args, write).Ok?
    ensures r.Ok? ==> r == Interpret(parts, args, write)
  {
    var out := "";
    for i := 0 to |parts|
      invariant Interpret(parts[..i], args, write) == Ok(out)
    {
      assert parts[..i + 1][..i] == parts[..i];
      var text := PartText(parts[i], args, write);
      if text.Err? {
        PrefixFails(parts[..i + 1], parts[i + 1..], args, write);
        assert parts[..i + 1] + parts[i + 1..] == parts;
        return text;
      }
      out := out + text.value;
    }
    assert parts[..|parts|] == parts;
    return Ok(out);
  }

  lemma {:induction false} PrefixFails(p: seq<Part>, q: seq<Part>, args: Args, write: Writer)
    requires Interpret(p, args, write).Err?
    ensures Interpret(p + q, args, write).Err?
  {
    if q == [] {
      assert p + q == p;
    } else {
      assert (p + q)[..|p + q| - 1] == p + q[..|q| - 1];
      PrefixFails(p, q[..|q| - 1], args, write);
    }
  }
}
