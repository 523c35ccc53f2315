/** GENERIC_SDRAM: its command decoder over open rows refines a memory of cells. */
module Sdram {
  import opened Powers
  import opened SdramAddress

  /** The pins as sampled at a clock event; cs, ras, cas and we are active low, so true means high. */
  datatype Pins = Pins(cs: bool, ras: bool, cas: bool, we: bool, a: nat, ba: nat, dq: nat, dm: nat)

  datatype Command = Nop | Activate | Read | Write | Precharge | PrechargeAll | Refresh | LoadMemReg | Unknown

  function Level(high: bool, weight: nat): nat {
    if high then weight else 0
  }

  /** sdram_handler: the pins and address bit 10 as one number. */
  function Aggregate(p: Pins): nat {
    if p.cs then 0x10
    else Level(p.ras, 8) + Level(p.cas, 4) + Level(p.we, 2) + Level((p.a / 1024) % 2 == 1, 1)
  }

  /** The cases of handle_cmd; a number with no case does nothing. */
  function CommandOf(agg: nat): Command {
    match agg
    case 16 => Nop
    case 14 => Nop
    case 6 => Activate
    case 10 => Read
    case 8 => Write
    case 4 => Precharge
    case 5 => PrechargeAll
    case 2 => Refresh
    case 0 => LoadMemReg
    case _ => Unknown
  }

  function Decode(p: Pins): Command {
    CommandOf(Aggregate(p))
  }

  /** The truth table of the commands; with address bit 10 high only the precharge of all banks has a case. */
  lemma CommandTable(p: Pins)
    ensures Decode(p) ==
            if p.cs then Nop
            else if (p.a / 1024) % 2 == 1 then (if !p.ras && p.cas && !p.we then PrechargeAll else Unknown)
            else if p.ras then (if p.cas then (if p.we then Nop else Unknown) else if p.we then Read else Write)
            else if p.cas then (if p.we then Activate else Precharge)
            else if p.we then Refresh else LoadMemReg
  {
  }

  /** What a write stores: only bit 0 of dm masks, and it masks the low byte. */
  function Masked(data: nat, prev: nat, dm: nat): nat {
    if dm % 2 == 1 then data - data % 256 + prev % 256 else data
  }

  /** Byte lane k of a word. */
  function Lane(w: nat, k: nat): nat {
    (w / Pow(256, k)) % 256
  }

  /** Bit k of the mask. */
  predicate MaskBit(dm: nat, k: nat) {
    (dm / Pow(2, k)) % 2 == 1
  }

  /** The bit that the loop of the write tests for lane k: it shifts the mask the wrong way. */
  predicate TestedBit(dm: nat, k: nat) {
    (dm * Pow(2, k)) % 2 == 1
  }

  lemma LanePowers()
    ensures Pow(256, 0) == 1 && Pow(256, 1) == 256 && Pow(256, 2) == 0x1_0000 && Pow(256, 3) == 0x100_0000
    ensures Pow(2, 0) == 1 && Pow(2, 1) == 2 && Pow(2, 2) == 4 && Pow(2, 3) == 8
  {
  }

  lemma TestedIs(dm: nat, k: nat)
    ensures TestedBit(dm, k) <==> k == 0 && MaskBit(dm, 0)
  {
    if k > 0 {
      MulSwap(dm, 2, Pow(2, k - 1));
    }
  }

  lemma OtherLanes(data: nat, low: nat)
    requires low < 256
    ensures var w := data - data % 256 + low;
            w / 256 == data / 256 && w / 0x1_0000 == data / 0x1_0000 && w / 0x100_0000 == data / 0x100_0000
  {
    var w, q := data - data % 256 + low, data / 256;
    assert w == 256 * q + low;
    assert w / 256 == q;
    assert w / 0x1_0000 == q / 256 && data / 0x1_0000 == q / 256;
    assert w / 0x100_0000 == q / 0x1_0000 && data / 0x100_0000 == q / 0x1_0000;
  }

  /** What a write stores, lane by lane, as the loop tests the mask. */
  lemma MaskedByLanes(data: nat, prev: nat, dm: nat, k: nat)
    requires k < 4
    ensures Lane(Masked(data, prev, dm), k) == if TestedBit(dm, k) then Lane(prev, k) else Lane(data, k)
  {
    LanePowers();
    TestedIs(dm, k);
    OtherLanes(data, prev % 256);
  }

  /** Every lane follows its own mask bit, whatever the words are. */
  ghost predicate FollowsMask(dm: nat) {
    forall data: nat, prev: nat, k: nat :: k < 4 ==> LaneFollows(data, prev, dm, k)
  }

  predicate LaneFollows(data: nat, prev: nat, dm: nat, k: nat) {
    Lane(Masked(data, prev, dm), k) == if MaskBit(dm, k) then Lane(prev, k) else Lane(data, k)
  }

  /** The lanes follow the mask exactly when its bits 1 to 3 are zero. */
  lemma FollowsMaskIff(dm: nat)
    ensures FollowsMask(dm) <==> !MaskBit(dm, 1) && !MaskBit(dm, 2) && !MaskBit(dm, 3)
  {
    forall data: nat, prev: nat, k: nat | k < 4 && (k > 0 ==> !MaskBit(dm, k))
      ensures LaneFollows(data, prev, dm, k)
    {
      MaskedByLanes(data, prev, dm, k);
      TestedIs(dm, k);
    }
    forall k: nat | 1 <= k < 4 && MaskBit(dm, k)
      ensures !LaneFollows(0, 0xffff_ffff, dm, k)
    {
      MaskedByLanes(0, 0xffff_ffff, dm, k);
      TestedIs(dm, k);
      LanePowers();
    }
  }

  /** A mask that should keep the second byte: a write of zero clears it. */
  lemma MaskExample()
    ensures MaskBit(2, 1) && Masked(0, 0xffff_ffff, 2) == 0
  {
    LanePowers();
  }

  // The memory of cells, with the rows left open and the reads under way.

  datatype State = State(words: map<Cell, nat>, open: seq<nat>, pending: seq<nat>, dq: nat)

  function Value(words: map<Cell, nat>, c: Cell): nat {
    if c in words then words[c] else 0
  }

  function Target(open: seq<nat>, p: Pins): Cell
    requires p.ba < |open|
  {
    Cell(open[p.ba], p.ba, p.a)
  }

  function Step(s: State, p: Pins): (r: State)
    requires p.ba < |s.open|
    ensures |r.open| == |s.open|
  {
    match Decode(p)
    case Nop =>
      if s.pending == [] then s else s.(dq := s.pending[|s.pending| - 1], pending := s.pending[..|s.pending| - 1])
    case Activate => s.(open := s.open[p.ba := p.a])
    case Read => s.(pending := s.pending + [Value(s.words, Target(s.open, p))])
    case Write => var c := Target(s.open, p); s.(words := s.words[c := Masked(p.dq, Value(s.words, c), p.dm)])
    case Precharge => s.(open := s.open[p.ba := 0])
    case PrechargeAll => s.(open := seq(|s.open|, _ => 0))
    case _ => s
  }

  /** Rows, banks and columns that the geometry has. */
  predicate Allowed(g: Geometry, banks: nat, p: Pins) {
    && p.ba < banks
    && (Decode(p) == Activate ==> p.a < Pow(2, g.rowBits))
    && (Decode(p) == Read || Decode(p) == Write ==> p.a < Pow(2, g.colBits) && p.ba < Pow(2, g.bankBits))
  }

  function Lookup(mem: map<nat, nat>, address: nat): nat {
    if address in mem then mem[address] else 0
  }

  /** The word-addressed memory holds the cells. */
  ghost predicate Stores(g: Geometry, mem: map<nat, nat>, words: map<Cell, nat>) {
    forall c :: InRange(c, g) ==> Lookup(mem, ToWordAddress(g, c)) == Value(words, c)
  }

  lemma StoreOne(g: Geometry, mem: map<nat, nat>, words: map<Cell, nat>, c: Cell, v: nat)
    requires Narrow(g) && InRange(c, g) && Stores(g, mem, words)
    ensures Stores(g, mem[ToWordAddress(g, c) := v], words[c := v])
  {
    forall d | InRange(d, g)
      ensures Lookup(mem[ToWordAddress(g, c) := v], ToWordAddress(g, d)) == Value(words[c := v], d)
    {
      if ToWordAddress(g, d) == ToWordAddress(g, c) {
        CellsDiffer(g, c, d);
      }
    }
  }

  /** Naming an absent word in a log line stores a zero there, which reads the same. */
  lemma StoreZero(g: Geometry, mem: map<nat, nat>, words: map<Cell, nat>, address: nat)
    requires Stores(g, mem, words) && address !in mem
    ensures Stores(g, mem[address := 0], words)
  {
    forall d | InRange(d, g) ensures Lookup(mem[address := 0], ToWordAddress(g, d)) == Value(words, d) {
      assert Lookup(mem, ToWordAddress(g, d)) == Value(words, d);
    }
  }

  class GenericSdram {
    const geometry: Geometry
    var mem: map<nat, nat>
    var readBuf: seq<nat>
    var bankAddr: nat
    var colAddr: nat
    const rowAddr: array<nat>
    var dq: nat
    ghost var words: map<Cell, nat>

    constructor (geometry: Geometry, banks: nat)
      requires Narrow(geometry) && Pow(2, geometry.bankBits) <= banks
      ensures Valid() && fresh(rowAddr) && this.geometry == geometry && rowAddr.Length == banks
      ensures words == map[] && readBuf == []
    {
      this.geometry := geometry;
      mem, readBuf, bankAddr, colAddr, dq, words := map[], [], 0, 0, 0, map[];
      rowAddr := new nat[banks](_ => 0);
    }

    ghost predicate Valid()
      reads this, rowAddr
    {
      && Narrow(geometry) && Pow(2, geometry.bankBits) <= rowAddr.Length
      && (forall i :: 0 <= i < rowAddr.Length ==> rowAddr[i] < Pow(2, geometry.rowBits))
      && Stores(geometry, mem, words)
    }

    ghost function Abs(): State
      reads this, rowAddr
    {
      State(words, rowAddr[..], readBuf, dq)
    }

    /** update_address: the word address of the open row, the bank and the column. */
    function UpdateAddress(): nat
      reads this, rowAddr
      requires bankAddr < rowAddr.Length
    {
      ToWordAddress(geometry, Cell(rowAddr[bankAddr], bankAddr, colAddr))
    }

    method ReadCommand(p: Pins)
      requires Valid() && Allowed(geometry, rowAddr.Length, p) && Decode(p) == Read
      modifies `mem, `readBuf, `bankAddr, `colAddr
      ensures Valid() && Abs() == Step(old(Abs()), p)
    {
      bankAddr, colAddr := p.ba, p.a;
      var address := UpdateAddress();
      ghost var c := Target(rowAddr[..], p);
      assert InRange(c, geometry);
      readBuf := readBuf + [if address in mem then mem[address] else 0];
      if address !in mem {
        StoreZero(geometry, mem, words, address);
        mem := mem[address := 0];
      }
    }

    method WriteCommand(p: Pins)
      requires Valid() && Allowed(geometry, rowAddr.Length, p) && Decode(p) == Write
      modifies `mem, `bankAddr, `colAddr, `words
      ensures Valid() && Abs() == Step(old(Abs()), p)
    {
      bankAddr, colAddr := p.ba, p.a;
      var address := UpdateAddress();
      ghost var c := Target(rowAddr[..], p);
      assert InRange(c, geometry);
      var prev := if address in mem then mem[address] else 0;
      var v := Masked(p.dq, prev, p.dm);
      StoreOne(geometry, mem, words, c, v);
      mem := mem[address := v];
      words := words[c := v];
    }

    method CloseAll()
      requires Valid()
      modifies rowAddr
      ensures Valid() && forall i :: 0 <= i < rowAddr.Length ==> rowAddr[i] == 0
    {
      for i := 0 to rowAddr.Length
        invariant forall k :: 0 <= k < i ==> rowAddr[k] == 0
        invariant forall k :: 0 <= k < rowAddr.Length ==> rowAddr[k] < Pow(2, geometry.rowBits)
      {
        rowAddr[i] := 0;
      }
    }

    /** sdram_handler and handle_cmd, at an event with the clock and its enable high. */
    method HandleCmd(p: Pins)
      requires Valid() && Allowed(geometry, rowAddr.Length, p)
      modifies this, rowAddr
      ensures Valid() && Abs() == Step(old(Abs()), p)
    {
      match Decode(p) {
        case Nop =>
          if readBuf != [] {
            dq, readBuf := readBuf[|readBuf| - 1], readBuf[..|readBuf| - 1];
          }
        case Activate =>
          bankAddr := p.ba;
          rowAddr[bankAddr] := p.a;
        case Read => ReadCommand(p);
        case Write => WriteCommand(p);
        case Precharge =>
          bankAddr := p.ba;
          rowAddr[bankAddr] := 0;
        case PrechargeAll =>
          CloseAll();
          assert rowAddr[..] == seq(rowAddr.Length, _ => 0);
        case _ =>
      }
    }
  }

  // Whole runs.

  predicate IsRun(banks: nat, ps: seq<Pins>) {
    forall i :: 0 <= i < |ps| ==> ps[i].ba < banks
  }

  function Run(s: State, ps: seq<Pins>): State
    requires IsRun(|s.open|, ps)
    decreases |ps|
  {
    if ps == [] then s else Run(Step(s, ps[0]), ps[1..])
  }

  /** The words driven onto the bus. */
  function Driven(s: State, ps: seq<Pins>): seq<nat>
    requires IsRun(|s.open|, ps)
    decreases |ps|
  {
    if ps == [] then [] else
      (if Decode(ps[0]) == Nop && s.pending != [] then [s.pending[|s.pending| - 1]] else [])
      + Driven(Step(s, ps[0]), ps[1..])
  }

  /** The words a flat memory would return, each at its read command. */
  function Returned(s: State, ps: seq<Pins>): seq<nat>
    requires IsRun(|s.open|, ps)
    decreases |ps|
  {
    if ps == [] then [] else
      (if Decode(ps[0]) == Read then [Value(s.words, Target(s.open, ps[0]))] else [])
      + Returned(Step(s, ps[0]), ps[1..])
  }

  /** No read comes while another is waiting for its NOP, and none waits at the end. */
  predicate Spaced(waiting: bool, ps: seq<Pins>)
    decreases |ps|
  {
    if ps == [] then !waiting
    else match Decode(ps[0])
      case Read => !waiting && Spaced(true, ps[1..])
      case Nop => Spaced(false, ps[1..])
      case _ => Spaced(waiting, ps[1..])
  }

  /** One pin event of a run: what it drives, what it returns, and the rest. */
  lemma RunStep(s: State, ps: seq<Pins>)
    requires IsRun(|s.open|, ps) && ps != []
    ensures var t, rest := Step(s, ps[0]), ps[1..];
            && Driven(s, ps) == (if Decode(ps[0]) == Nop && s.pending != [] then [s.pending[|s.pending| - 1]] else [])
                                + Driven(t, rest)
            && Returned(s, ps) == (if Decode(ps[0]) == Read then [Value(s.words, Target(s.open, ps[0]))] else [])
                                  + Returned(t, rest)
            && Run(s, ps) == Run(t, rest)
  {
  }

  /** The reads waiting after it. */
  lemma PendingStep(s: State, p: Pins)
    requires p.ba < |s.open|
    ensures Step(s, p).pending
            == match Decode(p)
               case Read => s.pending + [Value(s.words, Target(s.open, p))]
               case Nop => if s.pending == [] then [] else s.pending[..|s.pending| - 1]
               case _ => s.pending
  {
  }

  /** On a spaced run, whatever banks it interleaves, the bus carries what a flat memory returns, in order. */
  lemma {:induction false} SpacedIsFlat(s: State, ps: seq<Pins>)
    requires IsRun(|s.open|, ps) && |s.pending| <= 1 && Spaced(s.pending != [], ps)
    ensures Driven(s, ps) == s.pending + Returned(s, ps) && Run(s, ps).pending == []
    decreases |ps|
  {
    if ps != [] {
      var t, rest := Step(s, ps[0]), ps[1..];
      RunStep(s, ps);
      PendingStep(s, ps[0]);
      SpacedIsFlat(t, rest);
      var answer := if Decode(ps[0]) == Nop && s.pending != [] then [s.pending[|s.pending| - 1]] else [];
      var read := if Decode(ps[0]) == Read then [Value(s.words, Target(s.open, ps[0]))] else [];
      Carried(s.pending, t.pending, answer, read, Driven(t, rest), Returned(t, rest));
    }
  }

  /** What is driven and waits afterwards is what waited before and is returned. */
  lemma Carried(waiting: seq<nat>, next: seq<nat>, answer: seq<nat>, read: seq<nat>, driven: seq<nat>,
                returned: seq<nat>)
    requires driven == next + returned && waiting + read == answer + next
    ensures answer + driven == waiting + (read + returned)
  {
    assert answer + (next + returned) == (answer + next) + returned;
    assert waiting + (read + returned) == (waiting + read) + returned;
  }

  // The order of the answers, whatever the words are.

  /** What NOPs bring out when reads return these things, the last of those waiting first. */
  function Answers<T>(waiting: seq<T>, returned: seq<T>, ps: seq<Pins>): seq<T>
    decreases |ps|
  {
    if ps == [] then []
    else match Decode(ps[0])
      case Read => if returned == [] then [] else Answers(waiting + [returned[0]], returned[1..], ps[1..])
      case Nop =>
        if waiting == [] then Answers(waiting, returned, ps[1..])
        else [waiting[|waiting| - 1]] + Answers(waiting[..|waiting| - 1], returned, ps[1..])
      case _ => Answers(waiting, returned, ps[1..])
  }

  lemma {:induction false} DrivenIsAnswers(s: State, ps: seq<Pins>)
    requires IsRun(|s.open|, ps)
    ensures Driven(s, ps) == Answers(s.pending, Returned(s, ps), ps)
    decreases |ps|
  {
    if ps != [] {
      var t, rest := Step(s, ps[0]), ps[1..];
      DrivenIsAnswers(t, rest);
      assert [] + Driven(t, rest) == Driven(t, rest) && [] + Returned(t, rest) == Returned(t, rest);
      if Decode(ps[0]) == Read {
        var r := Returned(s, ps);
        assert r[1..] == Returned(t, rest) && s.pending + [r[0]] == t.pending;
      }
    }
  }

  /** The reads of a run, numbered from m on. */
  function Numbers(m: nat, ps: seq<Pins>): seq<nat>
    decreases |ps|
  {
    if ps == [] then []
    else if Decode(ps[0]) == Read then [m] + Numbers(m + 1, ps[1..])
    else Numbers(m, ps[1..])
  }

  /** The words are those of a list with the numbers given. */
  predicate At(words: seq<nat>, numbers: seq<nat>, all: seq<nat>) {
    |words| == |numbers| && forall k :: 0 <= k < |numbers| ==> numbers[k] < |all| && words[k] == all[numbers[k]]
  }

  lemma AtStep(w: nat, words: seq<nat>, i: nat, numbers: seq<nat>, all: seq<nat>)
    requires At(words, numbers, all) && i < |all| && w == all[i]
    ensures At([w] + words, [i] + numbers, all) && At(words + [w], numbers + [i], all)
  {
  }

  /** Words go the way of their numbers. */
  lemma {:induction false} AnswersByNumber(waiting: seq<nat>, returned: seq<nat>, stack: seq<nat>, numbers: seq<nat>,
                                           all: seq<nat>, ps: seq<Pins>)
    requires At(waiting, stack, all) && At(returned, numbers, all)
    ensures At(Answers(waiting, returned, ps), Answers(stack, numbers, ps), all)
    decreases |ps|
  {
    if ps != [] {
      var n := |stack| - 1;
      if Decode(ps[0]) == Read && returned != [] {
        AtStep(returned[0], waiting, numbers[0], stack, all);
        AnswersByNumber(waiting + [returned[0]], returned[1..], stack + [numbers[0]], numbers[1..], all, ps[1..]);
      } else if Decode(ps[0]) == Nop && n >= 0 {
        AnswersByNumber(waiting[..n], returned, stack[..n], numbers, all, ps[1..]);
        AtStep(waiting[n], Answers(waiting[..n], returned, ps[1..]), stack[n], Answers(stack[..n], numbers, ps[1..]),
               all);
      } else {
        AnswersByNumber(waiting, returned, stack, numbers, all, ps[1..]);
      }
    }
  }

  /** The bus carries the words a flat memory returns, in the order in which the reads are answered. */
  lemma DrivenByNumber(s: State, ps: seq<Pins>)
    requires IsRun(|s.open|, ps) && s.pending == []
    ensures At(Driven(s, ps), Answers([], Numbers(0, ps), ps), Returned(s, ps))
  {
    DrivenIsAnswers(s, ps);
    NumbersAre(0, ps);
    OneWordARead(s, 0, ps);
    AnswersByNumber([], Returned(s, ps), [], Numbers(0, ps), Returned(s, ps), ps);
  }

  lemma {:induction false} NumbersAre(m: nat, ps: seq<Pins>)
    ensures forall k :: 0 <= k < |Numbers(m, ps)| ==> Numbers(m, ps)[k] == m + k
    decreases |ps|
  {
    if ps != [] {
      NumbersAre(if Decode(ps[0]) == Read then m + 1 else m, ps[1..]);
    }
  }

  lemma {:induction false} OneWordARead(s: State, m: nat, ps: seq<Pins>)
    requires IsRun(|s.open|, ps)
    ensures |Returned(s, ps)| == |Numbers(m, ps)|
    decreases |ps|
  {
    if ps != [] {
      OneWordARead(Step(s, ps[0]), if Decode(ps[0]) == Read then m + 1 else m, ps[1..]);
    }
  }

  /** With two reads waiting, the first of them cannot be the next answer. */
  lemma {:induction false} FirstIsBuried(stack: seq<nat>, next: nat, ps: seq<Pins>)
    requires |stack| >= 2 && forall i :: 1 <= i < |stack| ==> stack[0] < stack[i]
    requires stack[0] < next
    ensures var order := Answers(stack, Numbers(next, ps), ps); order != [] ==> order[0] != stack[0]
    decreases |ps|
  {
    if ps != [] {
      if Decode(ps[0]) == Read {
        assert Numbers(next, ps)[1..] == Numbers(next + 1, ps[1..]);
        FirstIsBuried(stack + [next], next + 1, ps[1..]);
      } else if Decode(ps[0]) != Nop {
        FirstIsBuried(stack, next, ps[1..]);
      }
    }
  }

  /** Every read is answered, and in the order of the reads, exactly when the run is spaced. */
  lemma {:induction false} OrderedIff(stack: seq<nat>, next: nat, ps: seq<Pins>)
    requires stack == [] || (next > 0 && stack == [next - 1])
    ensures Answers(stack, Numbers(next, ps), ps) == stack + Numbers(next, ps) <==> Spaced(stack != [], ps)
    decreases |ps|
  {
    if ps != [] {
      match Decode(ps[0]) {
        case Read =>
          assert Numbers(next, ps)[1..] == Numbers(next + 1, ps[1..]);
          if stack == [] {
            OrderedIff([next], next + 1, ps[1..]);
            assert stack + [next] == [next] && stack + Numbers(next, ps) == [next] + Numbers(next + 1, ps[1..]);
          } else {
            FirstIsBuried(stack + [next], next + 1, ps[1..]);
          }
        case Nop =>
          OrderedIff([], next, ps[1..]);
          assert stack != [] ==> (stack + Numbers(next, ps))[1..] == Numbers(next, ps[1..]);
        case _ => OrderedIff(stack, next, ps[1..]);
      }
    }
  }

  lemma OneReturned(s: State, p: Pins, ps: seq<Pins>)
    requires p.ba < |s.open| && IsRun(|s.open|, ps)
    ensures IsRun(|s.open|, [p] + ps)
    ensures Returned(s, [p] + ps)
            == (if Decode(p) == Read then [Value(s.words, Target(s.open, p))] else []) + Returned(Step(s, p), ps)
  {
    assert ([p] + ps)[1..] == ps;
  }

  lemma NothingReturned(s: State, n: Pins)
    requires n.ba < |s.open| && Decode(n) == Nop
    ensures IsRun(|s.open|, [n, n]) && Returned(s, [n, n]) == []
  {
    OneReturned(Step(s, n), n, []);
    OneReturned(s, n, [n]);
    assert [n, n] == [n] + [n] && [n] == [n] + [];
  }

  lemma SameMemory(s: State, p: Pins)
    requires p.ba < |s.open| && Decode(p) == Read
    ensures Step(s, p).words == s.words && Step(s, p).open == s.open
  {
  }

  lemma TwoReturned(s: State, p: Pins, q: Pins, n: Pins)
    requires p.ba < |s.open| && q.ba < |s.open| && n.ba < |s.open|
    requires Decode(p) == Read && Decode(q) == Read && Decode(n) == Nop
    ensures IsRun(|s.open|, [p, q, n, n])
    ensures Returned(s, [p, q, n, n]) == [Value(s.words, Target(s.open, p)), Value(s.words, Target(s.open, q))]
  {
    var t := Step(s, p);
    SameMemory(s, p);
    NothingReturned(Step(t, q), n);
    OneReturned(t, q, [n, n]);
    OneReturned(s, p, [q] + [n, n]);
    assert [p, q, n, n] == [p] + ([q] + [n, n]);
  }

  lemma SwappedAnswers<T>(v: T, w: T, p: Pins, q: Pins, n: Pins)
    requires Decode(p) == Read && Decode(q) == Read && Decode(n) == Nop
    ensures Answers([], [v, w], [p, q, n, n]) == [w, v]
  {
    assert [p, q, n, n][1..] == [q, n, n] && [q, n, n][1..] == [n, n] && [n, n][1..] == [n] && [n][1..] == [];
    assert [v, w][1..] == [w] && [w][1..] == [] && [] + [v] == [v] && [v] + [w] == [v, w];
    assert [v, w][..1] == [v] && [v][..0] == [];
    assert Answers([v], [], [n]) == [v] + Answers([], [], []);
    assert Answers([v, w], [], [n, n]) == [w] + Answers([v], [], [n]);
    assert Answers([v], [w], [q, n, n]) == Answers([v, w], [], [n, n]);
  }

  /** Two reads before their NOPs come back swapped: the buffer is a stack. */
  lemma UnpacedReadsSwap(s: State, p: Pins, q: Pins, n: Pins)
    requires p.ba < |s.open| && q.ba < |s.open| && n.ba < |s.open| && s.pending == []
    requires Decode(p) == Read && Decode(q) == Read && Decode(n) == Nop
    ensures var ps, v, w := [p, q, n, n], Value(s.words, Target(s.open, p)), Value(s.words, Target(s.open, q));
            IsRun(|s.open|, ps) && Driven(s, ps) == [w, v] && Returned(s, ps) == [v, w]
  {
    TwoReturned(s, p, q, n);
    DrivenIsAnswers(s, [p, q, n, n]);
    SwappedAnswers(Value(s.words, Target(s.open, p)), Value(s.words, Target(s.open, q)), p, q, n);
  }

  /** Whether a run writes cell c. */
  predicate Writes(s: State, ps: seq<Pins>, c: Cell)
    requires IsRun(|s.open|, ps)
    decreases |ps|
  {
    ps != [] && ((Decode(ps[0]) == Write && Target(s.open, ps[0]) == c) || Writes(Step(s, ps[0]), ps[1..], c))
  }

  /** A cell keeps its value through every run that does not write it, whatever rows are opened and closed. */
  lemma {:induction false} Untouched(s: State, ps: seq<Pins>, c: Cell)
    requires IsRun(|s.open|, ps) && !Writes(s, ps, c)
    ensures Value(Run(s, ps).words, c) == Value(s.words, c)
    decreases |ps|
  {
    if ps != [] {
      Untouched(Step(s, ps[0]), ps[1..], c);
    }
  }

  // What a read returns, from the commands before it alone.

  /** The row open in a bank: the one activated there last, or row 0 after a precharge. */
  function OpenRow(ps: seq<Pins>, bank: nat, start: nat): nat {
    if ps == [] then start else
      var n := |ps| - 1;
      match Decode(ps[n])
      case Activate => if ps[n].ba == bank then ps[n].a else OpenRow(ps[..n], bank, start)
      case Precharge => if ps[n].ba == bank then 0 else OpenRow(ps[..n], bank, start)
      case PrechargeAll => 0
      case _ => OpenRow(ps[..n], bank, start)
  }

  /** The cell that a read or write after ps addresses. */
  function Addressed(ps: seq<Pins>, start: seq<nat>, p: Pins): Cell
    requires p.ba < |start|
  {
    Cell(OpenRow(ps, p.ba, start[p.ba]), p.ba, p.a)
  }

  /** Lane k of a cell: that of the last word written to it whose mask let the lane through, or of the word before. */
  function LaneLeft(ps: seq<Pins>, start: seq<nat>, word: nat, c: Cell, k: nat): nat
    requires IsRun(|start|, ps)
  {
    if ps == [] then Lane(word, k) else
      var n := |ps| - 1;
      if Decode(ps[n]) == Write && Addressed(ps[..n], start, ps[n]) == c && !TestedBit(ps[n].dm, k)
      then Lane(ps[n].dq, k)
      else LaneLeft(ps[..n], start, word, c, k)
  }

  lemma {:induction false} RunSnoc(s: State, ps: seq<Pins>, p: Pins)
    requires IsRun(|s.open|, ps) && p.ba < |s.open|
    ensures IsRun(|s.open|, ps + [p]) && |Run(s, ps).open| == |s.open|
    ensures Run(s, ps + [p]) == Step(Run(s, ps), p)
    decreases |ps|
  {
    if ps == [] {
      assert [p][1..] == [] && [] + [p] == [p];
    } else {
      RunSnoc(Step(s, ps[0]), ps[1..], p);
      assert (ps + [p])[1..] == ps[1..] + [p];
    }
  }

  lemma RowStep(s: State, p: Pins, bank: nat)
    requires p.ba < |s.open| && bank < |s.open|
    ensures Step(s, p).open[bank]
            == match Decode(p)
               case Activate => if p.ba == bank then p.a else s.open[bank]
               case Precharge => if p.ba == bank then 0 else s.open[bank]
               case PrechargeAll => 0
               case _ => s.open[bank]
  {
  }

  lemma {:induction false} RowsAre(s: State, ps: seq<Pins>, bank: nat)
    requires IsRun(|s.open|, ps) && bank < |s.open|
    ensures |Run(s, ps).open| == |s.open| && Run(s, ps).open[bank] == OpenRow(ps, bank, s.open[bank])
    decreases |ps|
  {
    if ps != [] {
      var n := |ps| - 1;
      RowsAre(s, ps[..n], bank);
      RunSnoc(s, ps[..n], ps[n]);
      RowStep(Run(s, ps[..n]), ps[n], bank);
      assert ps == ps[..n] + [ps[n]];
    }
  }

  lemma LaneStep(s: State, p: Pins, c: Cell, k: nat)
    requires p.ba < |s.open| && k < 4
    ensures Lane(Value(Step(s, p).words, c), k)
            == if Decode(p) == Write && Target(s.open, p) == c && !TestedBit(p.dm, k) then Lane(p.dq, k)
               else Lane(Value(s.words, c), k)
  {
    if Decode(p) == Write {
      MaskedByLanes(p.dq, Value(s.words, c), p.dm, k);
    }
  }

  /** After any commands a cell holds, lane by lane, what was last written to it. */
  lemma {:induction false} LanesAre(s: State, ps: seq<Pins>, c: Cell, k: nat)
    requires IsRun(|s.open|, ps) && k < 4
    ensures Lane(Value(Run(s, ps).words, c), k) == LaneLeft(ps, s.open, Value(s.words, c), c, k)
    decreases |ps|
  {
    if ps != [] {
      var n := |ps| - 1;
      var p, t := ps[n], Run(s, ps[..n]);
      LanesAre(s, ps[..n], c, k);
      RunSnoc(s, ps[..n], p);
      RowsAre(s, ps[..n], p.ba);
      LaneStep(t, p, c, k);
      assert ps == ps[..n] + [p];
    }
  }

  function ReadCount(ps: seq<Pins>): nat {
    if ps == [] then 0 else (if Decode(ps[0]) == Read then 1 else 0) + ReadCount(ps[1..])
  }

  lemma {:induction false} ReturnedAt(s: State, ps: seq<Pins>, i: nat)
    requires IsRun(|s.open|, ps) && i < |ps| && Decode(ps[i]) == Read
    ensures IsRun(|s.open|, ps[..i]) && |Run(s, ps[..i]).open| == |s.open|
    ensures var m, t := ReadCount(ps[..i]), Run(s, ps[..i]);
            m < |Returned(s, ps)| && Returned(s, ps)[m] == Value(t.words, Target(t.open, ps[i]))
    decreases |ps|
  {
    if i > 0 {
      var t, rest := Step(s, ps[0]), ps[1..];
      ReturnedAt(t, rest, i - 1);
      assert rest[..i - 1] == ps[..i][1..];
      RunStep(s, ps);
      Behind(if Decode(ps[0]) == Read then [Value(s.words, Target(s.open, ps[0]))] else [], Returned(t, rest),
             ReadCount(rest[..i - 1]));
    }
  }

  lemma Behind(front: seq<nat>, back: seq<nat>, m: nat)
    requires m < |back|
    ensures (front + back)[|front| + m] == back[m]
  {
  }

  /**
   The word a read returns is, lane by lane, what the last write to its bank, column and open row let through, or what
   the memory held before, whatever other commands came between.
   */
  lemma ReadReturnsWritten(s: State, ps: seq<Pins>, i: nat, k: nat)
    requires IsRun(|s.open|, ps) && i < |ps| && Decode(ps[i]) == Read && k < 4
    ensures IsRun(|s.open|, ps[..i])
    ensures var m, c := ReadCount(ps[..i]), Addressed(ps[..i], s.open, ps[i]);
            && m < |Returned(s, ps)|
            && Lane(Returned(s, ps)[m], k) == LaneLeft(ps[..i], s.open, Value(s.words, c), c, k)
  {
    ReturnedAt(s, ps, i);
    RowsAre(s, ps[..i], ps[i].ba);
    LanesAre(s, ps[..i], Addressed(ps[..i], s.open, ps[i]), k);
  }

  /** On a spaced run that word is what the bus carries for the read. */
  lemma SpacedReadIsDriven(s: State, ps: seq<Pins>, i: nat, k: nat)
    requires IsRun(|s.open|, ps) && s.pending == [] && Spaced(false, ps)
    requires i < |ps| && Decode(ps[i]) == Read && k < 4
    ensures IsRun(|s.open|, ps[..i])
    ensures var m, c := ReadCount(ps[..i]), Addressed(ps[..i], s.open, ps[i]);
            && m < |Driven(s, ps)|
            && Lane(Driven(s, ps)[m], k) == LaneLeft(ps[..i], s.open, Value(s.words, c), c, k)
  {
    SpacedIsFlat(s, ps);
    ReadReturnsWritten(s, ps, i, k);
  }
}
