/** What a format string prints: literal text and fields in order, each field its argument under the fields written. */
module FormatMeaning {
  import opened FormatSpecs
  import opened FormatString
  import opened FormatText
  import opened SpecsText

  /** A replacement field: an argument id, and specifications after a colon unless there are none. */
  datatype Field = Plainly(id: ArgId) | Specified(id: ArgId, specs: SpecsText)

  /** Literal text up to the end, or up to a field and what follows it. */
  datatype Pattern = End(text: string) | Then(text: string, field: Field, rest: Pattern)

  /** A field from the end of its id on. */
  function FieldTail(field: Field): string {
    match field
    case Plainly(_) => "}"
    case Specified(_, specs) => ":" + (Text(specs) + "}")
  }

  function FieldText(field: Field): string {
    "{" + (Written(field.id) + FieldTail(field))
  }

  /** The format string: both braces doubled in literal text. */
  function PatternText(pattern: Pattern): string {
    match pattern
    case End(text) => Escaped(text)
    case Then(text, field, rest) => Escaped(text) + (FieldText(field) + PatternText(rest))
  }

  predicate FieldReads(field: Field) {
    Writable(field.id) && (field.Specified? ==> Reads(field.specs))
  }

  predicate PatternReads(pattern: Pattern) {
    pattern.Then? ==> FieldReads(pattern.field) && PatternReads(pattern.rest)
  }

  /** The argument of a field, and the indexing state after its id. */
  function FieldArg(field: Field, args: Args, next: int): Result<(Arg, int)> {
    var (ref, next') :- ResolveId(field.id, next);
    var arg :- Lookup(args, ref);
    Ok((arg, next'))
  }

  /** What an argument prints under the specifications of its field: width and precision in this order. */
  function ArgSays(field: Field, arg: Arg, args: Args, write: Writer, next: int): Result<(string, int)> {
    match field
    case Plainly(_) => var text :- WriteArg(write, arg, NoSpecs); Ok((text, next))
    case Specified(_, t) =>
      var (w, next1) :- Counted(t.width, 0, args, next);
      var (p, next2) :- Counted(t.precision, -1, args, next1);
      if !Permitted(t, arg.typ) then Err("format specifier not allowed for this argument type") else
        var text :- WriteArg(write, arg, With(Fields(t, DEFAULT_SPECS, w, p)));
        Ok((text, next2))
  }

  function FieldSays(field: Field, args: Args, write: Writer, next: int): Result<(string, int)> {
    var (arg, next') :- FieldArg(field, args, next);
    ArgSays(field, arg, args, write, next')
  }

  function Says(pattern: Pattern, args: Args, write: Writer, next: int): Result<string> {
    match pattern
    case End(text) => Ok(text)
    case Then(text, field, rest) =>
      var (said, next') :- FieldSays(field, args, write, next);
      var after :- Says(rest, args, write, next');
      Ok(text + (said + after))
  }

  lemma FieldStart(field: Field, rest: Pattern)
    ensures var after := FieldText(field) + PatternText(rest); after != "" && after[0] == '{'
  {
  }

  /** The id of a field parsed, from its opening brace at b up to what ends it. */
  lemma IdParsed(s: string, b: nat, id: ArgId, p: nat, h: StringHandler)
    requires b < p < |s| && Writable(id) && s[b + 1..p] == Written(id) && (s[p] == '}' || s[p] == ':')
    ensures ParseField(s, b + 1, h) == var h' :- OnArgId(h, id); FinishField(s, p, h')
  {
    assert WrittenAt(s, b + 1, id, p);
    FirstChar(s, b + 1, id, p);
    ArgIdParsedIff(s, b + 1, id, p);
  }

  /** A field in the string: its opening brace at b, its id up to p, and the rest of it from there to q. */
  lemma FieldAt(s: string, b: nat, p: nat, q: nat, id: string, tail: string, rest: string)
    requires b <= |s| && p == b + 1 + |id| && q == p + |tail| && s[b..] == ("{" + (id + tail)) + rest
    ensures q <= |s| && s[b + 1..p] == id && s[p..q] == tail && s[q..] == rest
  {
    Regroup("{", id + tail, rest);
    Regroup(id, tail, rest);
    Parts(s, b, b + 1, "{", id + (tail + rest));
    Parts(s, b + 1, p, id, tail + rest);
    Parts(s, p, q, tail, rest);
  }

  lemma TailIs(s: string, p: nat, q: nat, u: string)
    requires p <= q < |s| && s[p..q + 1] == ":" + (u + "}")
    ensures p < q && s[p] == ':' && s[p + 1..q] == u && s[q] == '}'
  {
    var v := s[p..q + 1];
    assert |v| == |u| + 2;
    assert forall i :: 0 <= i < |v| ==> s[p + i] == v[i];
    assert forall i :: 0 <= i < |u| ==> s[p + 1..q][i] == v[1 + i] == u[i];
    assert s[p] == v[0] && s[p + (|u| + 1)] == v[|u| + 1] == '}';
  }

  lemma TailAt(s: string, p: nat, q: nat, field: Field)
    requires p <= q < |s| && s[p..q + 1] == FieldTail(field)
    ensures s[q] == '}'
    ensures if field.Plainly? then p == q else s[p] == ':' && StandsAt(s, p + 1, Text(field.specs), q)
  {
    if field.Plainly? {
      assert s[p] == s[p..q + 1][0];
    } else {
      TailIs(s, p, q, Text(field.specs));
    }
  }

  /** The handler once the argument of a field is written. */
  function ArgAfter(field: Field, h: StringHandler): (r: Result<StringHandler>)
    requires h.Formatting?
    ensures r.Ok? ==> r.value.Formatting?
  {
    var said :- ArgSays(field, h.arg, h.args, h.write, h.next);
    Ok(Formatting(h.out + said.0, said.1, h.arg, h.args, h.write))
  }

  /** The handler after a field: more output, and the argument kept. */
  function After(field: Field, h: StringHandler): (r: Result<StringHandler>)
    requires h.Formatting?
    ensures r.Ok? ==> r.value.Formatting?
  {
    var (arg, next) :- FieldArg(field, h.args, h.next);
    ArgAfter(field, Formatting(h.out, next, arg, h.args, h.write))
  }

  /** The result for a field, whatever its error. */
  function Reached(r: Result<(nat, StringHandler)>): Result<(nat, StringHandler)> {
    if r.Ok? then r else Err("")
  }

  /** The result for a field with its closing brace at q. */
  function Closed(h: Result<StringHandler>, q: nat): Result<(nat, StringHandler)> {
    if h.Ok? then Ok((q, h.value)) else Err("")
  }

  /** The handler once an argument is written under the specifications taken. */
  function SpecsAfter(h: StringHandler, taken: Result<Handler>): Result<StringHandler>
    requires h.Formatting?
  {
    var specs :- taken;
    var text :- WriteArg(h.write, h.arg, With(specs.specs));
    Ok(Formatting(h.out + text, specs.next, h.arg, h.args, h.write))
  }

  lemma SpecsFinished(s: string, c: nat, q: nat, h: StringHandler, taken: Result<Handler>)
    requires c <= q < |s| && s[q] == '}' && h.Formatting?
    requires var specs := ParseSpecs(s, c, Checking(DEFAULT_SPECS, h.next, h.arg.typ, h.args));
             if taken.Ok? then specs == Ok((q, taken.value)) else specs.Err?
    ensures Reached(OnFormatSpecs(h, s, c)) == Closed(SpecsAfter(h, taken), q)
  {
  }

  lemma AfterColon(s: string, p: nat, c: nat, h: StringHandler)
    requires c == p + 1 && c <= |s| && s[p] == ':'
    ensures FinishField(s, p, h) == OnFormatSpecs(h, s, c)
  {
  }

  lemma TakenSays(id: ArgId, t: SpecsText, h: StringHandler, q: nat)
    requires h.Formatting?
    ensures Closed(SpecsAfter(h, Taken(t, Checking(DEFAULT_SPECS, h.next, h.arg.typ, h.args))), q)
            == Closed(ArgAfter(Specified(id, t), h), q)
  {
  }

  lemma FieldFinished(s: string, p: nat, c: nat, q: nat, field: Field, h: StringHandler)
    requires p <= q < |s| && s[q] == '}' && h.Formatting? && FieldReads(field) && c == p + 1
    requires if field.Plainly? then p == q else s[p] == ':' && StandsAt(s, c, Text(field.specs), q)
    ensures Reached(FinishField(s, p, h)) == Closed(ArgAfter(field, h), q)
  {
    if field.Specified? {
      var specs := Checking(DEFAULT_SPECS, h.next, h.arg.typ, h.args);
      WrittenSpecsParsed(s, c, field.specs, q, specs);
      SpecsFinished(s, c, q, h, Taken(field.specs, specs));
      AfterColon(s, p, c, h);
      TakenSays(field.id, field.specs, h, q);
    }
  }

  lemma ArgFound(field: Field, h: StringHandler)
    requires h.Formatting?
    ensures var arg := FieldArg(field, h.args, h.next);
            if arg.Ok? then OnArgId(h, field.id) == Ok(Formatting(h.out, arg.value.1, arg.value.0, h.args, h.write))
            else OnArgId(h, field.id).Err?
  {
  }

  lemma FieldParsed(s: string, b: nat, field: Field, p: nat, q: nat, h: StringHandler)
    requires b < p <= q < |s| && h.Formatting? && FieldReads(field)
    requires s[b + 1..p] == Written(field.id) && s[p..q + 1] == FieldTail(field)
    ensures Reached(ParseField(s, b + 1, h)) == Closed(After(field, h), q)
  {
    TailAt(s, p, q, field);
    IdParsed(s, b, field.id, p, h);
    ArgFound(field, h);
    var arg := FieldArg(field, h.args, h.next);
    if arg.Ok? {
      FieldFinished(s, p, p + 1, q, field, Formatting(h.out, arg.value.1, arg.value.0, h.args, h.write));
    }
  }

  /** The output before a pattern and what the pattern says. */
  function Expected(pattern: Pattern, h: StringHandler): Result<string>
    requires h.Formatting?
  {
    var said := Says(pattern, h.args, h.write, h.next);
    if said.Ok? then Ok(h.out + said.value) else Err("")
  }

  lemma ThenExpected(text: string, field: Field, rest: Pattern, h: StringHandler)
    requires h.Formatting?
    ensures Expected(Then(text, field, rest), h) == ExpectedAfter(rest, After(field, h.(out := h.out + text)))
  {
    var said := FieldSays(field, h.args, h.write, h.next);
    if said.Ok? {
      var after := Says(rest, h.args, h.write, said.value.1);
      if after.Ok? {
        JoinOut(h.out, text, said.value.0, after.value);
      }
    }
  }

  lemma JoinOut(out: string, text: string, said: string, after: string)
    ensures ((out + text) + said) + after == out + (text + (said + after))
  {
  }

  function ExpectedAfter(rest: Pattern, h: Result<StringHandler>): Result<string> {
    if h.Ok? && h.value.Formatting? then Expected(rest, h.value) else Err("")
  }

  /** The output once parsing goes on from q, unless it has failed. */
  function Onward(s: string, q: nat, h: Result<StringHandler>): Result<string>
    requires q <= |s|
  {
    if h.Ok? then Prints(s, q, h.value) else Err("")
  }

  /** The output once a field is parsed up to its closing brace, and the rest. */
  function FieldPrints(s: string, r: Result<(nat, StringHandler)>): Result<string>
    requires r.Ok? ==> r.value.0 < |s|
  {
    if r.Ok? then Prints(s, r.value.0 + 1, r.value.1) else Err("")
  }

  lemma BraceStep(s: string, b: nat, h: StringHandler)
    requires b < |s|
    ensures PrintsRest(s, b, h) == FieldPrints(s, ParseField(s, b + 1, h))
  {
  }

  lemma FieldEnds(s: string, e: nat, q: nat, r: Result<(nat, StringHandler)>, after: Result<StringHandler>)
    requires q == e + 1 && e < |s| && Reached(r) == Closed(after, e)
    ensures FieldPrints(s, r) == Onward(s, q, after)
  {
  }

  lemma FieldStep(s: string, b: nat, p: nat, e: nat, q: nat, field: Field, h: StringHandler)
    requires h.Formatting? && FieldReads(field) && q == e + 1
    requires b < p <= e < |s| && s[b + 1..p] == Written(field.id) && s[p..q] == FieldTail(field)
    ensures PrintsRest(s, b, h) == Onward(s, q, After(field, h))
  {
    FieldParsed(s, b, field, p, e, h);
    FieldEnds(s, e, q, ParseField(s, b + 1, h), After(field, h));
    BraceStep(s, b, h);
  }

  /** Where a field stands: its opening brace at b, its id up to p, its closing brace at e and the rest from q on. */
  datatype Place = Place(b: nat, p: nat, e: nat, q: nat)

  function PlaceOf(b: nat, text: string, field: Field): Place {
    var b := b + |Escaped(text)|;
    var p := b + 1 + |Written(field.id)|;
    var e := p + |FieldTail(field)| - 1;
    Place(b, p, e, e + 1)
  }

  ghost predicate FieldIn(s: string, at: Place, field: Field, rest: Pattern) {
    && at.q == at.e + 1 && at.b < at.p <= at.e < |s|
    && s[at.b + 1..at.p] == Written(field.id) && s[at.p..at.q] == FieldTail(field) && s[at.q..] == PatternText(rest)
  }

  lemma FieldThere(s: string, b: nat, text: string, field: Field, rest: Pattern)
    requires b <= |s| && s[b..] == PatternText(Then(text, field, rest))
    ensures FieldIn(s, PlaceOf(b, text, field), field, rest)
  {
    var at := PlaceOf(b, text, field);
    Parts(s, b, at.b, Escaped(text), FieldText(field) + PatternText(rest));
    FieldAt(s, at.b, at.p, at.q, Written(field.id), FieldTail(field), PatternText(rest));
  }

  lemma ThenText(s: string, b: nat, p: nat, text: string, field: Field, rest: Pattern, h: StringHandler)
    requires b <= |s| && s[b..] == PatternText(Then(text, field, rest)) && p == b + |Escaped(text)| && h.Formatting?
    ensures p <= |s| && Prints(s, b, h) == PrintsRest(s, p, h.(out := h.out + text))
  {
    FieldStart(field, rest);
    EscapedAdds(s, b, p, text, FieldText(field) + PatternText(rest), h);
  }

  /** Over text and a field. */
  lemma ThenStep(s: string, b: nat, text: string, field: Field, rest: Pattern, h: StringHandler, h0: StringHandler,
                 at: Place)
    requires b <= |s| && s[b..] == PatternText(Then(text, field, rest)) && FieldReads(field) && h.Formatting?
    requires at == PlaceOf(b, text, field) && h0 == h.(out := h.out + text) && FieldIn(s, at, field, rest)
    ensures Prints(s, b, h) == Onward(s, at.q, After(field, h0))
  {
    ThenText(s, b, at.b, text, field, rest, h);
    FieldStep(s, at.b, at.p, at.e, at.q, field, h0);
  }

  lemma {:induction false} PatternParsed(s: string, b: nat, pattern: Pattern, h: StringHandler)
    requires b <= |s| && s[b..] == PatternText(pattern) && PatternReads(pattern) && h.Formatting?
    ensures Prints(s, b, h) == Expected(pattern, h)
    decreases pattern, 1
  {
    match pattern
    case End(text) =>
      assert s[b..] == Escaped(text) + "";
      EscapedAdds(s, b, |s|, text, "", h);
    case Then(text, field, rest) =>
      var at, h0 := PlaceOf(b, text, field), h.(out := h.out + text);
      var after := After(field, h0);
      FieldThere(s, b, text, field, rest);
      ThenStep(s, b, text, field, rest, h, h0, at);
      RestParsed(s, at.q, rest, after);
      ThenExpected(text, field, rest, h);
  }

  lemma {:induction false} RestParsed(s: string, q: nat, rest: Pattern, after: Result<StringHandler>)
    requires q <= |s| && s[q..] == PatternText(rest) && PatternReads(rest) && (after.Ok? ==> after.value.Formatting?)
    ensures Onward(s, q, after) == ExpectedAfter(rest, after)
    decreases rest, 2
  {
    if after.Ok? {
      PatternParsed(s, q, rest, after.value);
    }
  }

  /**
   Direct formatting of a format string written from a pattern prints its text and fields in order, and fails exactly
   when a field has no argument, breaks the indexing rules, is not allowed for its type, or cannot be written.
   */
  lemma FormatSays(pattern: Pattern, args: Args, write: Writer)
    requires PatternReads(pattern)
    ensures var said := Says(pattern, args, write, 0);
            if said.Ok? then Format(PatternText(pattern), args, write) == said
            else Format(PatternText(pattern), args, write).Err?
  {
    var s := PatternText(pattern);
    assert s[0..] == s;
    var h := Formatting("", 0, NO_ARG, args, write);
    PatternParsed(s, 0, pattern, h);
    assert forall u: string :: "" + u == u;
  }

  // Which argument an id stands for: counted over all ids of the format string, widths and precisions included.

  function Autos(ids: seq<ArgId>): nat {
    if ids == [] then 0 else Autos(ids[..|ids| - 1]) + if ids[|ids| - 1].Auto? then 1 else 0
  }

  predicate HasIndex(ids: seq<ArgId>) {
    exists i :: 0 <= i < |ids| && ids[i].Index?
  }

  /** Automatic ids and indices side by side. */
  predicate Mixed(ids: seq<ArgId>) {
    Autos(ids) > 0 && HasIndex(ids)
  }

  predicate IsThere(index: nat, args: Args) {
    index < |args.items| && args.items[index].typ != NoneType
  }

  /** There is an argument for the i-th id. */
  predicate Present(ids: seq<ArgId>, i: nat, args: Args)
    requires i < |ids|
  {
    match ids[i]
    case Auto => IsThere(Autos(ids[..i]), args)
    case Index(index) => IsThere(index, args)
    case Name(name) => name in args.named && args.named[name].typ != NoneType
  }

  /** That argument: the next one for an automatic id, and the one of that index or name for the others. */
  function Meant(ids: seq<ArgId>, i: nat, args: Args): Arg
    requires i < |ids| && Present(ids, i, args)
  {
    match ids[i]
    case Auto => args.items[Autos(ids[..i])]
    case Index(index) => args.items[index]
    case Name(name) => args.named[name]
  }

  /** The arguments looked up for ids in order, and the indexing state after them. */
  function ArgsFor(ids: seq<ArgId>, args: Args, next: int): Result<(seq<Arg>, int)> {
    if ids == [] then Ok(([], next)) else
      var n := |ids| - 1;
      var (found, next') :- ArgsFor(ids[..n], args, next);
      var (ref, next'') :- ResolveId(ids[n], next');
      var arg :- Lookup(args, ref);
      Ok((found + [arg], next''))
  }

  /** Without indices the state counts the automatic ids, and with one it is -1. */
  function StateAfter(ids: seq<ArgId>): int {
    if HasIndex(ids) then -1 else Autos(ids)
  }

  lemma LastId(ids: seq<ArgId>, args: Args)
    requires ids != [] && !Mixed(ids[..|ids| - 1])
    ensures var n := |ids| - 1;
            var r := ResolveId(ids[n], StateAfter(ids[..n]));
            && (r.Ok? <==> !Mixed(ids))
            && (r.Ok? ==> r.value.1 == StateAfter(ids)
                          && (Lookup(args, r.value.0).Ok? <==> Present(ids, n, args))
                          && (Present(ids, n, args) ==> Lookup(args, r.value.0) == Ok(Meant(ids, n, args))))
  {
    var n := |ids| - 1;
    assert forall i :: 0 <= i < n ==> ids[..n][i] == ids[i];
    assert HasIndex(ids) <==> HasIndex(ids[..n]) || ids[n].Index?;
  }

  /**
   Arguments are found for ids in order exactly when no automatic id and index are mixed and every argument is there;
   the automatic ids take the arguments in order, the others those they name.
   */
  lemma {:induction false} ArgsInOrder(ids: seq<ArgId>, args: Args)
    ensures var r := ArgsFor(ids, args, 0);
            && (r.Ok? <==> !Mixed(ids) && forall i :: 0 <= i < |ids| ==> Present(ids, i, args))
            && (r.Ok? ==> r.value.1 == StateAfter(ids) && |r.value.0| == |ids|
                          && forall i :: 0 <= i < |ids| ==> r.value.0[i] == Meant(ids, i, args))
  {
    if ids != [] {
      var n := |ids| - 1;
      ArgsInOrder(ids[..n], args);
      SamePrefix(ids, args);
      if !Mixed(ids[..n]) {
        LastId(ids, args);
      }
    }
  }

  lemma SamePrefix(ids: seq<ArgId>, args: Args)
    requires ids != []
    ensures var n := |ids| - 1;
            && (Mixed(ids[..n]) ==> Mixed(ids))
            && forall i :: 0 <= i < n ==>
                 && Present(ids[..n], i, args) == Present(ids, i, args)
                 && (Present(ids, i, args) ==> Meant(ids[..n], i, args) == Meant(ids, i, args))
  {
    var n := |ids| - 1;
    assert forall i :: 0 <= i < n ==> ids[..n][i] == ids[i] && ids[..n][..i] == ids[..i];
  }

  function CountIds(count: Count): seq<ArgId> {
    if count.Dynamic? then [count.id] else []
  }

  /** The ids of a field, in the order they are looked up. */
  function FieldIds(field: Field): seq<ArgId> {
    [field.id] + if field.Plainly? then [] else CountIds(field.specs.width) + CountIds(field.specs.precision)
  }

  function PatternIds(pattern: Pattern): seq<ArgId> {
    if pattern.End? then [] else FieldIds(pattern.field) + PatternIds(pattern.rest)
  }

  /** One more id looked up. */
  lemma FindOne(ids: seq<ArgId>, id: ArgId, args: Args, next: int)
    requires ArgsFor(ids, args, 0).Ok? && ArgsFor(ids, args, 0).value.1 == next
    requires ResolveId(id, next).Ok? && Lookup(args, ResolveId(id, next).value.0).Ok?
    ensures ArgsFor(ids + [id], args, 0).Ok? && ArgsFor(ids + [id], args, 0).value.1 == ResolveId(id, next).value.1
  {
    assert (ids + [id])[..|ids|] == ids;
  }

  lemma FindCount(ids: seq<ArgId>, count: Count, absent: int, args: Args, next: int)
    requires ArgsFor(ids, args, 0).Ok? && ArgsFor(ids, args, 0).value.1 == next
    requires Counted(count, absent, args, next).Ok?
    ensures var r := ArgsFor(ids + CountIds(count), args, 0);
            r.Ok? && r.value.1 == Counted(count, absent, args, next).value.1
  {
    if count.Dynamic? {
      FindOne(ids, count.id, args, next);
    } else {
      assert ids + [] == ids;
    }
  }

  lemma FindField(ids: seq<ArgId>, field: Field, args: Args, write: Writer, next: int)
    requires ArgsFor(ids, args, 0).Ok? && ArgsFor(ids, args, 0).value.1 == next
    requires FieldSays(field, args, write, next).Ok?
    ensures var r := ArgsFor(ids + FieldIds(field), args, 0);
            r.Ok? && r.value.1 == FieldSays(field, args, write, next).value.1
  {
    FindOne(ids, field.id, args, next);
    if field.Specified? {
      FindCounts(ids + [field.id], field.specs, args, FieldArg(field, args, next).value.1);
      JoinIds(ids, [field.id], CountIds(field.specs.width) + CountIds(field.specs.precision));
    } else {
      assert ids + FieldIds(field) == ids + [field.id];
    }
  }

  lemma FindCounts(ids: seq<ArgId>, t: SpecsText, args: Args, next: int)
    requires ArgsFor(ids, args, 0).Ok? && ArgsFor(ids, args, 0).value.1 == next
    requires Counted(t.width, 0, args, next).Ok?
    requires Counted(t.precision, -1, args, Counted(t.width, 0, args, next).value.1).Ok?
    ensures var r := ArgsFor(ids + (CountIds(t.width) + CountIds(t.precision)), args, 0);
            r.Ok? && r.value.1 == Counted(t.precision, -1, args, Counted(t.width, 0, args, next).value.1).value.1
  {
    FindCount(ids, t.width, 0, args, next);
    FindCount(ids + CountIds(t.width), t.precision, -1, args, Counted(t.width, 0, args, next).value.1);
    JoinIds(ids, CountIds(t.width), CountIds(t.precision));
  }

  lemma JoinIds(ids: seq<ArgId>, more: seq<ArgId>, rest: seq<ArgId>)
    ensures (ids + more) + rest == ids + (more + rest)
  {
  }

  lemma {:induction false} FindAll(ids: seq<ArgId>, pattern: Pattern, args: Args, write: Writer, next: int)
    requires ArgsFor(ids, args, 0).Ok? && ArgsFor(ids, args, 0).value.1 == next
    requires Says(pattern, args, write, next).Ok?
    ensures ArgsFor(ids + PatternIds(pattern), args, 0).Ok?
    decreases pattern
  {
    match pattern
    case End(_) => assert ids + [] == ids;
    case Then(_, field, rest) =>
      FindField(ids, field, args, write, next);
      FindAll(ids + FieldIds(field), rest, args, write, FieldSays(field, args, write, next).value.1);
      JoinIds(ids, FieldIds(field), PatternIds(rest));
  }

  /** A format string is never printed with automatic ids and indices mixed, or with an argument missing. */
  lemma PrintedHasArgs(pattern: Pattern, args: Args, write: Writer)
    requires PatternReads(pattern) && Format(PatternText(pattern), args, write).Ok?
    ensures var ids := PatternIds(pattern);
            !Mixed(ids) && forall i :: 0 <= i < |ids| ==> Present(ids, i, args)
  {
    FormatSays(pattern, args, write);
    assert ArgsFor([], args, 0) == Ok(([], 0));
    FindAll([], pattern, args, write, 0);
    assert [] + PatternIds(pattern) == PatternIds(pattern);
    ArgsInOrder(PatternIds(pattern), args);
  }

  /**
   An argument gives a width or precision of its own number exactly when it is of an integer type and fits an int, and
   some other number exactly when it has more than 64 bits and what is left of them fits.
   */
  lemma DynamicSpecIff(arg: Arg)
    ensures DynamicSpec(arg) == Ok(arg.number) <==> IsInteger(arg.typ) && 0 <= arg.number <= INT_MAX
    ensures DynamicSpec(arg).Ok? && DynamicSpec(arg).value != arg.number
            <==> IsInteger(arg.typ) && arg.number >= 0x1_0000_0000_0000_0000
                 && arg.number % 0x1_0000_0000_0000_0000 <= INT_MAX
  {
  }

  /** A 128-bit width just above 2^64 is taken for five. */
  lemma WideWidthExample(arg: Arg)
    requires arg.typ == Int128Type && arg.number == 0x1_0000_0000_0000_0005
    ensures DynamicSpec(arg) == Ok(5)
  {
  }
}
