/** Compiling a format string and interpreting the parts gives what direct formatting gives. */
module FormatEquivalence {
  import opened FormatSpecs
  import opened FormatString

  /** What recorded specifications come to for an argument of type typ among args. */
  function Resolved(specs: Specs, width: ArgRef, precision: ArgRef, typ: ArgType, args: Args): Result<Specs> {
    var w :- HandleDynamicSpec(specs.width, width, args);
    var p :- HandleDynamicSpec(specs.precision, precision, args);
    CheckSpecs(specs.(width := w, precision := p), typ)
  }

  function ResolvedHandler(h: Handler, typ: ArgType, args: Args): Result<Specs>
    requires h.Recording?
  {
    Resolved(h.specs, h.width, h.precision, typ, args)
  }

  /** A checking handler and the recording handler that stands for the same specifications. */
  ghost predicate Agree(c: Handler, r: Handler) {
    && c.Checking? && r.Recording? && c.next == r.next
    && ResolvedHandler(r, c.typ, c.args) == Ok(c.specs)
  }

  /** A recording handler that no longer resolves: the checking one has failed. */
  ghost predicate Doomed(r: Handler, typ: ArgType, args: Args) {
    r.Recording? && ResolvedHandler(r, typ, args).Err?
  }

  /** The outcomes agree: both succeed alike, or checking fails and recording fails or is doomed. */
  ghost predicate SameOutcome(c: Result<(nat, Handler)>, r: Result<(nat, Handler)>, typ: ArgType, args: Args) {
    if c.Ok? then
      r.Ok? && r.value.0 == c.value.0 && Agree(c.value.1, r.value.1) && c.value.1.typ == typ && c.value.1.args == args
    else r.Err? || Doomed(r.value.1, typ, args)
  }

  ghost predicate SameStep(c: Result<Handler>, r: Result<Handler>, typ: ArgType, args: Args) {
    if c.Ok? then r.Ok? && Agree(c.value, r.value) && c.value.typ == typ && c.value.args == args
    else r.Err? || Doomed(r.value, typ, args)
  }

  // What is still untouched when the parser reaches a part.

  ghost predicate BeforePrecision(r: Handler) {
    r.Recording? && r.precision == NoRef && r.specs.precision == -1
  }

  ghost predicate BeforeWidth(r: Handler) {
    BeforePrecision(r) && r.width == NoRef
  }

  ghost predicate BeforeSign(r: Handler) {
    BeforeWidth(r) && r.specs.sign == NoSign
  }

  // Each part: agreement is kept, and a doomed handler stays doomed.

  lemma AlignAgrees(s: string, b: nat, c: Handler, r: Handler)
    requires b < |s| && Agree(c, r) && BeforeSign(r)
    ensures SameOutcome(ParseAlign(s, b, c), ParseAlign(s, b, r), c.typ, c.args)
    ensures var o := ParseAlign(s, b, r); o.Ok? ==> BeforeSign(o.value.1)
  {
  }

  lemma OnSignAgrees(c: Handler, r: Handler, sign: SignMode)
    requires Agree(c, r) && sign != NoSign
    ensures SameStep(OnSign(c, sign), OnSign(r, sign), c.typ, c.args)
  {
  }

  lemma SignAgrees(s: string, b: nat, c: Handler, r: Handler)
    requires b < |s| && Agree(c, r)
    ensures SameOutcome(ParseSign(s, b, c), ParseSign(s, b, r), c.typ, c.args)
  {
    match s[b] {
      case '+' => OnSignAgrees(c, r, Plus);
      case '-' => OnSignAgrees(c, r, Minus);
      case ' ' => OnSignAgrees(c, r, Space);
      case _ =>
    }
  }

  lemma SignDoomed(s: string, b: nat, r: Handler, typ: ArgType, args: Args)
    requires b < |s| && Doomed(r, typ, args) && BeforeSign(r)
    ensures var o := ParseSign(s, b, r); o.Ok? ==> Doomed(o.value.1, typ, args)
  {
  }

  lemma SignStage(s: string, b: nat, r: Handler)
    requires b < |s| && BeforeSign(r)
    ensures var o := ParseSign(s, b, r); o.Ok? ==> BeforeWidth(o.value.1)
  {
  }

  lemma HashAgrees(s: string, b: nat, c: Handler, r: Handler)
    requires b < |s| && Agree(c, r) && BeforeWidth(r)
    ensures SameOutcome(ParseHash(s, b, c), ParseHash(s, b, r), c.typ, c.args)
  {
  }

  lemma HashDoomed(s: string, b: nat, r: Handler, typ: ArgType, args: Args)
    requires b < |s| && Doomed(r, typ, args)
    ensures var o := ParseHash(s, b, r); o.Ok? ==> Doomed(o.value.1, typ, args)
  {
  }

  lemma ZeroAgrees(s: string, b: nat, c: Handler, r: Handler)
    requires b < |s| && Agree(c, r) && BeforeWidth(r)
    ensures SameOutcome(ParseZero(s, b, c), ParseZero(s, b, r), c.typ, c.args)
  {
  }

  lemma ZeroDoomed(s: string, b: nat, r: Handler, typ: ArgType, args: Args)
    requires b < |s| && Doomed(r, typ, args)
    ensures var o := ParseZero(s, b, r); o.Ok? ==> Doomed(o.value.1, typ, args)
  {
  }

  /** Looking an argument up now and taking its number is resolving the recorded reference later. */
  lemma LookupLater(args: Args, ref: ArgRef, value: int)
    requires ref != NoRef
    ensures var now := Lookup(args, ref); var later := HandleDynamicSpec(value, ref, args);
            if now.Ok? then later == DynamicSpec(now.value) else later.Err?
    ensures DynamicSpec(NO_ARG).Err?
  {
  }

  lemma DynamicWidthAgrees(c: Handler, r: Handler, id: ArgId)
    requires Agree(c, r) && BeforeWidth(r)
    ensures SameStep(OnDynamicWidth(c, id), OnDynamicWidth(r, id), c.typ, c.args)
  {
    var resolved := ResolveId(id, c.next);
    if resolved.Ok? {
      LookupLater(c.args, resolved.value.0, r.specs.width);
    }
  }

  /** Recorded specifications with a precision to look up, against the same without one. */
  lemma PrecisionResolves(specs: Specs, width: ArgRef, ref: ArgRef, typ: ArgType, args: Args, was: Specs)
    requires specs.precision == -1 && ref != NoRef && Resolved(specs, width, NoRef, typ, args) == Ok(was)
    ensures var arg := Lookup(args, ref); var later := Resolved(specs, width, ref, typ, args);
            if arg.Ok? && DynamicSpec(arg.value).Ok? && PrecisionAllowed(typ)
            then later == Ok(was.(precision := DynamicSpec(arg.value).value))
            else later.Err?
  {
    LookupLater(args, ref, specs.precision);
    var w := HandleDynamicSpec(specs.width, width, args);
    assert was == specs.(width := w.value);
    var p := HandleDynamicSpec(specs.precision, ref, args);
    if p.Ok? {
      CheckedPrecision(was, p.value, typ);
    }
  }

  lemma CheckedPrecision(specs: Specs, precision: int, typ: ArgType)
    requires specs.precision == -1 && precision >= 0 && CheckSpecs(specs, typ).Ok?
    ensures var r := CheckSpecs(specs.(precision := precision), typ);
            if PrecisionAllowed(typ) then r == Ok(specs.(precision := precision)) else r.Err?
  {
  }

  lemma DynamicPrecisionAgrees(c: Handler, r: Handler, id: ArgId)
    requires Agree(c, r) && BeforePrecision(r)
    ensures var oc, or := OnDynamicPrecision(c, id), OnDynamicPrecision(r, id);
            && (oc.Ok? ==> or.Ok?)
            && (or.Ok? ==>
                  SameStep(if oc.Ok? then EndPrecision(oc.value) else oc, EndPrecision(or.value), c.typ, c.args))
  {
    var resolved := ResolveId(id, c.next);
    if resolved.Ok? {
      PrecisionResolves(r.specs, r.width, resolved.value.0, c.typ, c.args, c.specs);
    }
  }

  lemma WidthAgrees(s: string, b: nat, c: Handler, r: Handler)
    requires b < |s| && Agree(c, r) && BeforeWidth(r)
    ensures SameOutcome(ParseWidth(s, b, c), ParseWidth(s, b, r), c.typ, c.args)
  {
    if s[b] == '{' && b + 1 < |s| {
      var id := ParseArgId(s, b + 1);
      if id.Ok? {
        DynamicWidthAgrees(c, r, id.value.0);
      }
    }
  }

  lemma DynamicWidthDoomed(r: Handler, id: ArgId, typ: ArgType, args: Args)
    requires Doomed(r, typ, args) && BeforeWidth(r)
    ensures var o := OnDynamicWidth(r, id); o.Ok? ==> Doomed(o.value, typ, args)
  {
  }

  lemma WidthDoomed(s: string, b: nat, r: Handler, typ: ArgType, args: Args)
    requires b < |s| && Doomed(r, typ, args) && BeforeWidth(r)
    ensures var o := ParseWidth(s, b, r); o.Ok? ==> Doomed(o.value.1, typ, args)
  {
    if s[b] == '{' && b + 1 < |s| {
      var id := ParseArgId(s, b + 1);
      if id.Ok? {
        DynamicWidthDoomed(r, id.value.0, typ, args);
      }
    }
  }

  lemma WidthStage(s: string, b: nat, r: Handler)
    requires b < |s| && BeforeWidth(r)
    ensures var o := ParseWidth(s, b, r); o.Ok? ==> BeforePrecision(o.value.1)
  {
  }

  lemma PrecisionAgrees(s: string, b: nat, c: Handler, r: Handler)
    requires b < |s| && Agree(c, r) && BeforePrecision(r)
    ensures SameOutcome(ParsePrecision(s, b, c), ParsePrecision(s, b, r), c.typ, c.args)
  {
    if b + 2 < |s| && s[b + 1] == '{' {
      var id := ParseArgId(s, b + 2);
      if id.Ok? {
        DynamicPrecisionAgrees(c, r, id.value.0);
      }
    }
  }

  lemma PrecisionDoomed(s: string, b: nat, r: Handler, typ: ArgType, args: Args)
    requires b < |s| && Doomed(r, typ, args) && BeforePrecision(r)
    ensures var o := ParsePrecision(s, b, r); o.Ok? ==> Doomed(o.value.1, typ, args)
  {
  }

  // The tails of the parser, last part first.

  function ThenType(s: string, p: nat, h: Handler): Result<(nat, Handler)>
    requires p <= |s|
  {
    if p != |s| && s[p] != '}' then Ok((p + 1, OnType(h, s[p]))) else Ok((p, h))
  }

  lemma ThenTypeAgrees(s: string, p: nat, c: Handler, r: Handler)
    requires p <= |s| && Agree(c, r)
    ensures SameOutcome(ThenType(s, p, c), ThenType(s, p, r), c.typ, c.args)
  {
  }

  lemma ThenTypeDoomed(s: string, p: nat, r: Handler, typ: ArgType, args: Args)
    requires p <= |s| && Doomed(r, typ, args)
    ensures var o := ThenType(s, p, r); o.Ok? && Doomed(o.value.1, typ, args)
  {
  }

  lemma TypeAgrees(s: string, b: nat, c: Handler, r: Handler)
    requires b < |s| && Agree(c, r) && BeforePrecision(r)
    ensures SameOutcome(ParsePrecisionAndType(s, b, c), ParsePrecisionAndType(s, b, r), c.typ, c.args)
  {
    if s[b] == '.' {
      PrecisionAgrees(s, b, c, r);
      var oc, or := ParsePrecision(s, b, c), ParsePrecision(s, b, r);
      if oc.Ok? {
        ThenTypeAgrees(s, oc.value.0, oc.value.1, or.value.1);
      } else if or.Ok? {
        ThenTypeDoomed(s, or.value.0, or.value.1, c.typ, c.args);
      }
    } else {
      ThenTypeAgrees(s, b, c, r);
    }
  }

  lemma TypeDoomed(s: string, b: nat, r: Handler, typ: ArgType, args: Args)
    requires b < |s| && Doomed(r, typ, args) && BeforePrecision(r)
    ensures var o := ParsePrecisionAndType(s, b, r); o.Ok? ==> Doomed(o.value.1, typ, args)
  {
    if s[b] == '.' {
      PrecisionDoomed(s, b, r, typ, args);
      var o := ParsePrecision(s, b, r);
      if o.Ok? {
        ThenTypeDoomed(s, o.value.0, o.value.1, typ, args);
      }
    } else {
      ThenTypeDoomed(s, b, r, typ, args);
    }
  }

  lemma FromWidthAgrees(s: string, b: nat, c: Handler, r: Handler)
    requires b <= |s| && Agree(c, r) && BeforeWidth(r)
    ensures SameOutcome(ParseFromWidth(s, b, c), ParseFromWidth(s, b, r), c.typ, c.args)
  {
    if b < |s| {
      WidthAgrees(s, b, c, r);
      WidthStage(s, b, r);
      var oc, or := ParseWidth(s, b, c), ParseWidth(s, b, r);
      if or.Ok? && or.value.0 < |s| {
        if oc.Ok? {
          TypeAgrees(s, oc.value.0, oc.value.1, or.value.1);
        } else {
          TypeDoomed(s, or.value.0, or.value.1, c.typ, c.args);
        }
      }
    }
  }

  lemma FromWidthDoomed(s: string, b: nat, r: Handler, typ: ArgType, args: Args)
    requires b <= |s| && Doomed(r, typ, args) && BeforeWidth(r)
    ensures var o := ParseFromWidth(s, b, r); o.Ok? ==> Doomed(o.value.1, typ, args)
  {
    if b < |s| {
      WidthDoomed(s, b, r, typ, args);
      WidthStage(s, b, r);
      var o := ParseWidth(s, b, r);
      if o.Ok? && o.value.0 < |s| {
        TypeDoomed(s, o.value.0, o.value.1, typ, args);
      }
    }
  }

  lemma FromZeroAgrees(s: string, b: nat, c: Handler, r: Handler)
    requires b <= |s| && Agree(c, r) && BeforeWidth(r)
    ensures SameOutcome(ParseFromZero(s, b, c), ParseFromZero(s, b, r), c.typ, c.args)
  {
    if b < |s| {
      ZeroAgrees(s, b, c, r);
      var oc, or := ParseZero(s, b, c), ParseZero(s, b, r);
      if oc.Ok? {
        FromWidthAgrees(s, oc.value.0, oc.value.1, or.value.1);
      } else if or.Ok? {
        FromWidthDoomed(s, or.value.0, or.value.1, c.typ, c.args);
      }
    }
  }

  lemma FromZeroDoomed(s: string, b: nat, r: Handler, typ: ArgType, args: Args)
    requires b <= |s| && Doomed(r, typ, args) && BeforeWidth(r)
    ensures var o := ParseFromZero(s, b, r); o.Ok? ==> Doomed(o.value.1, typ, args)
  {
    if b < |s| {
      ZeroDoomed(s, b, r, typ, args);
      var o := ParseZero(s, b, r);
      if o.Ok? {
        FromWidthDoomed(s, o.value.0, o.value.1, typ, args);
      }
    }
  }

  lemma FromHashAgrees(s: string, b: nat, c: Handler, r: Handler)
    requires b <= |s| && Agree(c, r) && BeforeWidth(r)
    ensures SameOutcome(ParseFromHash(s, b, c), ParseFromHash(s, b, r), c.typ, c.args)
  {
    if b < |s| {
      HashAgrees(s, b, c, r);
      var oc, or := ParseHash(s, b, c), ParseHash(s, b, r);
      if oc.Ok? {
        FromZeroAgrees(s, oc.value.0, oc.value.1, or.value.1);
      } else if or.Ok? {
        FromZeroDoomed(s, or.value.0, or.value.1, c.typ, c.args);
      }
    }
  }

  lemma FromHashDoomed(s: string, b: nat, r: Handler, typ: ArgType, args: Args)
    requires b <= |s| && Doomed(r, typ, args) && BeforeWidth(r)
    ensures var o := ParseFromHash(s, b, r); o.Ok? ==> Doomed(o.value.1, typ, args)
  {
    if b < |s| {
      HashDoomed(s, b, r, typ, args);
      var o := ParseHash(s, b, r);
      if o.Ok? {
        FromZeroDoomed(s, o.value.0, o.value.1, typ, args);
      }
    }
  }

  lemma FromSignAgrees(s: string, b: nat, c: Handler, r: Handler)
    requires b <= |s| && Agree(c, r) && BeforeSign(r)
    ensures SameOutcome(ParseFromSign(s, b, c), ParseFromSign(s, b, r), c.typ, c.args)
  {
    if b < |s| {
      SignAgrees(s, b, c, r);
      SignStage(s, b, r);
      var oc, or := ParseSign(s, b, c), ParseSign(s, b, r);
      if oc.Ok? {
        FromHashAgrees(s, oc.value.0, oc.value.1, or.value.1);
      } else if or.Ok? {
        FromHashDoomed(s, or.value.0, or.value.1, c.typ, c.args);
      }
    }
  }

  lemma FromSignDoomed(s: string, b: nat, r: Handler, typ: ArgType, args: Args)
    requires b <= |s| && Doomed(r, typ, args) && BeforeSign(r)
    ensures var o := ParseFromSign(s, b, r); o.Ok? ==> Doomed(o.value.1, typ, args)
  {
    if b < |s| {
      SignDoomed(s, b, r, typ, args);
      SignStage(s, b, r);
      var o := ParseSign(s, b, r);
      if o.Ok? {
        FromHashDoomed(s, o.value.0, o.value.1, typ, args);
      }
    }
  }

  /** Specifications checked while parsing are the specifications recorded and resolved later, errors included. */
  lemma SpecsAgree(s: string, b: nat, next: int, typ: ArgType, args: Args)
    requires b <= |s|
    ensures SameOutcome(ParseSpecs(s, b, Checking(DEFAULT_SPECS, next, typ, args)),
                        ParseSpecs(s, b, Recording(DEFAULT_SPECS, next, NoRef, NoRef)), typ, args)
  {
    var c, r := Checking(DEFAULT_SPECS, next, typ, args), Recording(DEFAULT_SPECS, next, NoRef, NoRef);
    if b < |s| && s[b] != '}' {
      AlignAgrees(s, b, c, r);
      var oc, or := ParseAlign(s, b, c), ParseAlign(s, b, r);
      if oc.Ok? {
        FromSignAgrees(s, oc.value.0, oc.value.1, or.value.1);
      } else if or.Ok? {
        FromSignDoomed(s, or.value.0, or.value.1, typ, args);
      }
    }
  }

  // Interpretation that insists on arguments, as direct formatting does.

  /** The part writes no argument, or one that there is. */
  predicate Found(part: Part, args: Args) {
    part.TextPart? || (PartArg(args, part.ref).Ok? && PartArg(args, part.ref).value.typ != NoneType)
  }

  /** Every argument the parts write is there. */
  predicate AllFound(parts: seq<Part>, args: Args) {
    forall i :: 0 <= i < |parts| ==> Found(parts[i], args)
  }

  function FoundText(part: Part, args: Args, write: Writer): Result<string> {
    if Found(part, args) then PartText(part, args, write) else Err("argument index out of range")
  }

  function InterpretFound(parts: seq<Part>, args: Args, write: Writer): Result<string> {
    if parts == [] then Ok("") else
      var before :- InterpretFound(parts[..|parts| - 1], args, write);
      var text :- FoundText(parts[|parts| - 1], args, write);
      Ok(before + text)
  }

  /** It succeeds exactly when plain interpretation does and every argument is there, with the same output. */
  lemma {:induction false} FoundIff(parts: seq<Part>, args: Args, write: Writer)
    ensures var found, plain := InterpretFound(parts, args, write), Interpret(parts, args, write);
            && (found.Ok? <==> plain.Ok? && AllFound(parts, args))
            && (found.Ok? ==> found == plain)
  {
    if parts != [] {
      var n := |parts| - 1;
      FoundIff(parts[..n], args, write);
      assert AllFound(parts, args) <==> AllFound(parts[..n], args) && Found(parts[n], args) by {
        AllFoundSnoc(parts[..n], parts[n], args);
        assert parts[..n] + [parts[n]] == parts;
      }
    }
  }

  lemma AllFoundSnoc(parts: seq<Part>, part: Part, args: Args)
    ensures AllFound(parts + [part], args) <==> AllFound(parts, args) && Found(part, args)
  {
    if AllFound(parts + [part], args) {
      forall i | 0 <= i < |parts| ensures Found(parts[i], args) {
        assert (parts + [part])[i] == parts[i];
      }
      assert (parts + [part])[|parts|] == part;
    }
  }

  lemma {:induction false} FoundPrefixFails(p: seq<Part>, q: seq<Part>, args: Args, write: Writer)
    requires InterpretFound(p, args, write).Err?
    ensures InterpretFound(p + q, args, write).Err?
  {
    if q == [] {
      assert p + q == p;
    } else {
      assert (p + q)[..|p + q| - 1] == p + q[..|q| - 1];
      FoundPrefixFails(p, q[..|q| - 1], args, write);
    }
  }

  // The format string.

  /** What the parts collected so far print is what direct formatting has printed. */
  ghost predicate InStep(f: StringHandler, k: StringHandler) {
    && f.Formatting? && k.Compiling? && f.next == k.next
    && InterpretFound(k.parts, f.args, f.write) == Ok(f.out)
  }

  /** Both go on in step, or direct formatting fails and compilation fails or will fail when interpreted. */
  ghost predicate SameResult(f: Result<StringHandler>, k: Result<StringHandler>, args: Args, write: Writer) {
    if f.Ok? then k.Ok? && InStep(f.value, k.value) && f.value.args == args && f.value.write == write
    else k.Err? || (k.value.Compiling? && InterpretFound(k.value.parts, args, write).Err?)
  }

  ghost predicate SameField(f: Result<(nat, StringHandler)>, k: Result<(nat, StringHandler)>, args: Args,
                            write: Writer) {
    if f.Ok? then
      k.Ok? && k.value.0 == f.value.0 && InStep(f.value.1, k.value.1)
      && f.value.1.args == args && f.value.1.write == write
    else k.Err? || (k.value.1.Compiling? && InterpretFound(k.value.1.parts, args, write).Err?)
  }

  lemma InterpretSnoc(parts: seq<Part>, part: Part, args: Args, write: Writer)
    ensures var before, text := InterpretFound(parts, args, write), FoundText(part, args, write);
            InterpretFound(parts + [part], args, write)
            == if before.Err? then before else if text.Err? then text else Ok(before.value + text.value)
  {
    assert (parts + [part])[..|parts|] == parts;
  }

  lemma TextInStep(f: StringHandler, k: StringHandler, text: string)
    requires InStep(f, k)
    ensures InStep(OnText(f, text), OnText(k, text))
  {
    InterpretSnoc(k.parts, TextPart(text), f.args, f.write);
    assert text == "" ==> f.out + text == f.out;
  }

  lemma {:induction false} WriteInStep(s: string, b: nat, e: nat, f: StringHandler, k: StringHandler)
    requires b <= e <= |s| && InStep(f, k)
    ensures SameResult(WriteText(s, b, e, f), WriteText(s, b, e, k), f.args, f.write)
    decreases e - b
  {
    if b < e {
      var p := Find(s, b, e, '}');
      if p == e {
        TextInStep(f, k, s[b..e]);
      } else if p + 1 < e && s[p + 1] == '}' {
        TextInStep(f, k, s[b..p + 1]);
        WriteInStep(s, p + 2, e, OnText(f, s[b..p + 1]), OnText(k, s[b..p + 1]));
      }
    }
  }

  /** An argument found now is the argument a part finds later; one not found now fails the part later. */
  lemma ArgumentLater(args: Args, ref: ArgRef)
    requires ref != NoRef
    ensures var now, later := Lookup(args, ref), PartArg(args, ref);
            if now.Ok? then later == now && now.value.typ != NoneType
            else later.Err? || later.value.typ == NoneType
  {
  }

  /** In step, and the argument at hand is the one the recorded reference finds. */
  ghost predicate AtArgument(f: StringHandler, k: StringHandler) {
    InStep(f, k) && PartArg(f.args, k.ref) == Ok(f.arg) && f.arg.typ != NoneType
  }

  /** The recorded reference finds no argument. */
  ghost predicate Missing(k: StringHandler, args: Args) {
    k.Compiling? && (PartArg(args, k.ref).Err? || PartArg(args, k.ref).value.typ == NoneType)
  }

  lemma ArgIdInStep(f: StringHandler, k: StringHandler, id: ArgId)
    requires InStep(f, k)
    ensures var fa, ka := OnArgId(f, id), OnArgId(k, id);
            if fa.Ok? then
              ka.Ok? && AtArgument(fa.value, ka.value) && fa.value.args == f.args && fa.value.write == f.write
            else ka.Ok? ==> Missing(ka.value, f.args)
  {
    var resolved := ResolveId(id, f.next);
    if resolved.Ok? {
      ArgumentLater(f.args, resolved.value.0);
    }
  }

  lemma SpecsInStep(f: StringHandler, k: StringHandler, s: string, b: nat)
    requires b <= |s| && AtArgument(f, k)
    ensures SameField(OnFormatSpecs(f, s, b), OnFormatSpecs(k, s, b), f.args, f.write)
  {
    SpecsAgree(s, b, f.next, f.arg.typ, f.args);
    var r := ParseSpecs(s, b, Recording(DEFAULT_SPECS, k.next, NoRef, NoRef));
    if r.Ok? {
      var part := ReplacementPart(k.ref, r.value.1.specs, r.value.1.width, r.value.1.precision);
      InterpretSnoc(k.parts, part, f.args, f.write);
      ReplacementResolves(part, f.arg, f.args, f.write);
    }
  }

  /** Interpreting a replacement is resolving its specifications for its argument. */
  lemma ReplacementResolves(part: Part, arg: Arg, args: Args, write: Writer)
    requires part.ReplacementPart? && PartArg(args, part.ref) == Ok(arg)
    ensures var specs := Resolved(part.specs, part.width, part.precision, arg.typ, args);
            if specs.Ok? then PartText(part, args, write) == WriteArg(write, arg, With(specs.value))
            else PartText(part, args, write).Err?
  {
  }

  lemma FinishInStep(s: string, p: nat, f: StringHandler, k: StringHandler)
    requires p <= |s| && AtArgument(f, k)
    ensures SameField(FinishField(s, p, f), FinishField(s, p, k), f.args, f.write)
  {
    if p < |s| && s[p] == '}' {
      InterpretSnoc(k.parts, ArgPart(k.ref), f.args, f.write);
    } else if p < |s| && s[p] == ':' {
      SpecsInStep(f, k, s, p + 1);
    }
  }

  lemma FinishMissing(s: string, p: nat, k: StringHandler, args: Args, write: Writer)
    requires p <= |s| && Missing(k, args)
    ensures var o := FinishField(s, p, k);
            o.Ok? ==> o.value.1.Compiling? && InterpretFound(o.value.1.parts, args, write).Err?
  {
    var o := FinishField(s, p, k);
    if o.Ok? {
      var n := |o.value.1.parts| - 1;
      var part := o.value.1.parts[n];
      assert o.value.1.parts == k.parts + [part];
      InterpretSnoc(k.parts, part, args, write);
      assert FoundText(part, args, write).Err?;
    }
  }

  lemma FieldInStep(s: string, b: nat, f: StringHandler, k: StringHandler)
    requires b <= |s| && InStep(f, k)
    ensures SameField(ParseField(s, b, f), ParseField(s, b, k), f.args, f.write)
  {
    if b == |s| {
    } else if s[b] == '}' {
      IdFieldInStep(s, b, f, k, Auto);
    } else if s[b] == '{' {
      TextInStep(f, k, s[b..b + 1]);
    } else {
      var id := ParseArgId(s, b);
      if id.Ok? {
        IdFieldInStep(s, id.value.1, f, k, id.value.0);
      }
    }
  }

  function IdField(s: string, p: nat, h: StringHandler, id: ArgId): Result<(nat, StringHandler)>
    requires p <= |s|
  {
    var h' :- OnArgId(h, id);
    FinishField(s, p, h')
  }

  lemma IdFieldInStep(s: string, p: nat, f: StringHandler, k: StringHandler, id: ArgId)
    requires p <= |s| && InStep(f, k)
    ensures SameField(IdField(s, p, f, id), IdField(s, p, k, id), f.args, f.write)
  {
    ArgIdInStep(f, k, id);
    var fa, ka := OnArgId(f, id), OnArgId(k, id);
    if fa.Ok? {
      FinishInStep(s, p, fa.value, ka.value);
    } else if ka.Ok? {
      FinishMissing(s, p, ka.value, f.args, f.write);
    }
  }

  // Compilation only ever appends parts.

  lemma {:induction false} WriteExtends(s: string, b: nat, e: nat, k: StringHandler)
    requires b <= e <= |s| && k.Compiling?
    ensures var o := WriteText(s, b, e, k); o.Ok? ==> o.value.Compiling? && k.parts <= o.value.parts
    decreases e - b
  {
    if b < e {
      var p := Find(s, b, e, '}');
      if p + 1 < e && s[p + 1] == '}' {
        WriteExtends(s, p + 2, e, OnText(k, s[b..p + 1]));
      }
    }
  }

  lemma FieldExtends(s: string, b: nat, k: StringHandler)
    requires b <= |s| && k.Compiling?
    ensures var o := ParseField(s, b, k); o.Ok? ==> o.value.1.Compiling? && k.parts <= o.value.1.parts
  {
  }

  lemma {:induction false} ParseExtends(s: string, b: nat, k: StringHandler)
    requires b <= |s| && k.Compiling?
    ensures var o := ParseFormatString(s, b, k); o.Ok? ==> o.value.Compiling? && k.parts <= o.value.parts
    decreases |s| - b, 1
  {
    if b < |s| {
      var p := Find(s, b, |s|, '{');
      WriteExtends(s, b, p, k);
      var written := WriteText(s, b, p, k);
      if p < |s| && written.Ok? {
        BraceExtends(s, p, written.value);
      }
    }
  }

  lemma {:induction false} BraceExtends(s: string, p: nat, k: StringHandler)
    requires p < |s| && k.Compiling?
    ensures var o := ParseFromBrace(s, p, k); o.Ok? ==> o.value.Compiling? && k.parts <= o.value.parts
    decreases |s| - p, 0
  {
    FieldExtends(s, p + 1, k);
    var field := ParseField(s, p + 1, k);
    if field.Ok? {
      ParseExtends(s, field.value.0 + 1, field.value.1);
    }
  }

  lemma ExtendedFails(p: seq<Part>, q: seq<Part>, args: Args, write: Writer)
    requires p <= q && InterpretFound(p, args, write).Err?
    ensures InterpretFound(q, args, write).Err?
  {
    assert q == p + q[|p|..];
    FoundPrefixFails(p, q[|p|..], args, write);
  }

  /** Once the parts fail to interpret, so does everything compiled from there. */
  lemma ParseDoomed(s: string, b: nat, k: StringHandler, args: Args, write: Writer)
    requires b <= |s| && k.Compiling? && InterpretFound(k.parts, args, write).Err?
    ensures var o := ParseFormatString(s, b, k);
            o.Ok? ==> o.value.Compiling? && InterpretFound(o.value.parts, args, write).Err?
  {
    ParseExtends(s, b, k);
    var o := ParseFormatString(s, b, k);
    if o.Ok? {
      ExtendedFails(k.parts, o.value.parts, args, write);
    }
  }

  lemma BraceDoomed(s: string, p: nat, k: StringHandler, args: Args, write: Writer)
    requires p < |s| && k.Compiling? && InterpretFound(k.parts, args, write).Err?
    ensures var o := ParseFromBrace(s, p, k);
            o.Ok? ==> o.value.Compiling? && InterpretFound(o.value.parts, args, write).Err?
  {
    BraceExtends(s, p, k);
    var o := ParseFromBrace(s, p, k);
    if o.Ok? {
      ExtendedFails(k.parts, o.value.parts, args, write);
    }
  }

  lemma BraceThenRest(s: string, p: nat, h: StringHandler)
    requires p < |s|
    ensures var field, whole := ParseField(s, p + 1, h), ParseFromBrace(s, p, h);
            (field.Ok? ==> field.value.0 < |s|) && whole == Rest(s, field)
  {
  }

  lemma {:induction false} ParseInStep(s: string, b: nat, f: StringHandler, k: StringHandler)
    requires b <= |s| && InStep(f, k)
    ensures SameResult(ParseFormatString(s, b, f), ParseFormatString(s, b, k), f.args, f.write)
    decreases |s| - b, 1
  {
    if b < |s| {
      var p := Find(s, b, |s|, '{');
      WriteInStep(s, b, p, f, k);
      var fw, kw := WriteText(s, b, p, f), WriteText(s, b, p, k);
      if p < |s| && kw.Ok? {
        if fw.Ok? {
          BraceInStep(s, p, fw.value, kw.value);
        } else {
          BraceDoomed(s, p, kw.value, f.args, f.write);
        }
      }
    }
  }

  lemma {:induction false} BraceInStep(s: string, p: nat, f: StringHandler, k: StringHandler)
    requires p < |s| && InStep(f, k)
    ensures SameResult(ParseFromBrace(s, p, f), ParseFromBrace(s, p, k), f.args, f.write)
    decreases |s| - p, 0
  {
    FieldInStep(s, p + 1, f, k);
    BraceThenRest(s, p, f);
    BraceThenRest(s, p, k);
    RestInStep(s, p, ParseField(s, p + 1, f), ParseField(s, p + 1, k), f.args, f.write);
  }

  function Rest(s: string, field: Result<(nat, StringHandler)>): Result<StringHandler>
    requires field.Ok? ==> field.value.0 < |s|
  {
    var (q, h) :- field;
    ParseFormatString(s, q + 1, h)
  }

  lemma {:induction false} RestInStep(s: string, p: nat, ff: Result<(nat, StringHandler)>,
                                      kf: Result<(nat, StringHandler)>, args: Args, write: Writer)
    requires ff.Ok? ==> p < ff.value.0 < |s|
    requires kf.Ok? ==> kf.value.0 < |s|
    requires SameField(ff, kf, args, write)
    ensures SameResult(Rest(s, ff), Rest(s, kf), args, write)
    decreases |s| - p, 0, 0
  {
    if ff.Ok? {
      ParseInStep(s, ff.value.0 + 1, ff.value.1, kf.value.1);
    } else if kf.Ok? {
      ParseDoomed(s, kf.value.0 + 1, kf.value.1, args, write);
    }
  }

  /**
   For every format string, argument list and way of writing one argument: direct formatting succeeds exactly when
   compiling succeeds, interpreting the parts succeeds and every argument they write is there; then the outputs are
   the same.
   */
  lemma CompiledIsDirect(s: string, args: Args, write: Writer)
    ensures var direct, parts := Format(s, args, write), Compile(s);
            && (direct.Ok? <==> parts.Ok? && Interpret(parts.value, args, write).Ok? && AllFound(parts.value, args))
            && (direct.Ok? ==> Interpret(parts.value, args, write) == direct)
  {
    ParseInStep(s, 0, Formatting("", 0, NO_ARG, args, write), Compiling([], 0, IndexRef(0)));
    if Compile(s).Ok? {
      FoundIff(Compile(s).value, args, write);
    }
  }

  /** A reference past the arguments: direct formatting refuses it, the compiled parts print nothing for it. */
  lemma MissingExample(arg: Arg, write: Writer)
    ensures var s, args := "{1}", Args([arg], map[]);
            && Compile(s) == Ok([ArgPart(IndexRef(1))]) && Interpret([ArgPart(IndexRef(1))], args, write) == Ok("")
            && Format(s, args, write).Err?
  {
    var s, args := "{1}", Args([arg], map[]);
    var parts := [ArgPart(IndexRef(1))];
    ParsesToPart(s);
    assert PartText(parts[0], args, write) == Ok("");
    assert parts[..0] == [] && "" + "" == "";
    assert Interpret(parts[..0], args, write) == Ok("");
    assert !Found(parts[0], args);
    CompiledIsDirect(s, args, write);
  }

  lemma ParsesToPart(s: string)
    requires s == "{1}"
    ensures Compile(s) == Ok([ArgPart(IndexRef(1))])
  {
    var k := Compiling([], 0, IndexRef(0));
    assert Find(s, 0, 3, '{') == 0;
    assert ParseDigits(s, 2, 1) == Ok((1, 2));
    assert ParseDigits(s, 1, 0) == ParseDigits(s, 2, 1);
    assert ParseArgId(s, 1) == Ok((Index(1), 2));
    var h, done := Compiling([], -1, IndexRef(1)), Compiling([ArgPart(IndexRef(1))], -1, IndexRef(1));
    assert OnArgId(k, Index(1)) == Ok(h);
    assert [] + [ArgPart(IndexRef(1))] == [ArgPart(IndexRef(1))];
    assert FinishField(s, 2, h) == Ok((2, done));
    assert ParseField(s, 1, k) == Ok((2, done));
    assert WriteText(s, 0, 0, k) == Ok(k);
    assert ParseFormatString(s, 3, done) == Ok(done);
    assert ParseFromBrace(s, 0, k) == Ok(done);
  }
}
