/** N25QX: the quad-SPI flash, from a loaded image to the nibbles a read command brings out. */
module Flash {
  import opened Powers

  type Byte = x: int | 0 <= x < 256

  type Nibble = x: int | 0 <= x < 16

  datatype Phase = IdlePhase | CmdPhase | AddrPhase | DummyPhase | RespPhase

  const CMD_QUAD_READ: nat := 0xeb

  /** What the flash keeps between clock edges, and the data lines it drives. */
  datatype State = State(phase: Phase, cmd: nat, cnt: nat, addr: nat, word: Nibble, dq: Nibble)

  /** The pins at a rising edge: whether chip select is high, and the four data lines. */
  datatype Input = Input(csHigh: bool, dq: Nibble)

  /** conf_memory[i]; an address never loaded reads as zero. */
  function At(memory: map<nat, Nibble>, i: nat): Nibble {
    if i in memory then memory[i] else 0
  }

  function Next32(n: nat): nat {
    (n + 1) % 0x1_0000_0000
  }

  /** flash_handler at a rising edge. */
  function Rise(s: State, memory: map<nat, Nibble>, dummyCycles: nat, p: Input): State {
    match s.phase
    case IdlePhase => if p.csHigh then s else s.(phase := CmdPhase, cnt := 1, cmd := p.dq % 2)
    case CmdPhase =>
      if s.cnt < 8 then s.(cnt := Next32(s.cnt), cmd := (s.cmd * 2 + p.dq % 2) % 256)
      else if s.cmd == CMD_QUAD_READ then s.(phase := AddrPhase, cnt := 1, addr := p.dq)
      else s.(cnt := Next32(s.cnt))
    case AddrPhase =>
      if s.cnt < 6 then s.(cnt := Next32(s.cnt), addr := (s.addr * 16 + p.dq) % 0x1_0000_0000)
      else s.(phase := DummyPhase, cnt := 2, dq := 0)
    case DummyPhase =>
      if Next32(s.cnt) >= dummyCycles then s.(phase := RespPhase, cnt := 0, word := 0, dq := 0)
      else s.(cnt := Next32(s.cnt), dq := 0)
    case RespPhase =>
      if p.csHigh then s.(phase := IdlePhase)
      else
        var word := At(memory, (s.addr * 2 + s.cnt) % 0x1_0000_0000);
        s.(word := word, cnt := Next32(s.cnt), dq := word)
  }

  /** flash_handler at a falling edge: the last word again. */
  function Fall(s: State): State {
    if s.phase == RespPhase then s.(dq := s.word) else s
  }

  /** The half-byte address of byte a, as a 32-bit number. */
  function Half(a: nat): nat {
    2 * (a % 0x8000_0000)
  }

  lemma HalfStep(a: nat)
    ensures Half(a) == (2 * a) % 0x1_0000_0000
    ensures Next32(Half(a)) == Half(a) + 1 && Next32(Half(a) + 1) == Half(a + 1)
  {
    var q := a / 0x8000_0000;
    assert 2 * a == 0x1_0000_0000 * q + Half(a);
  }

  /** The nibbles of a byte go in order, the upper one first. */
  function Loaded(memory: map<nat, Nibble>, image: seq<Byte>, address: nat): map<nat, Nibble> {
    if image == [] then memory else
      var m := |image| - 1;
      Loaded(memory, image[..m], address)[Half(address + m) := image[m] / 16][Half(address + m) + 1 := image[m] % 16]
  }

  class N25QX {
    const dummyCycles: nat
    var phase: Phase
    var cmd: nat
    var cnt: nat
    var addr: nat
    var word: Nibble
    var dq: Nibble
    var confMemory: map<nat, Nibble>

    constructor (dummyCycles: nat)
      ensures this.dummyCycles == dummyCycles && phase == IdlePhase && confMemory == map[]
    {
      this.dummyCycles := dummyCycles;
      phase, cmd, cnt, addr, word, dq := IdlePhase, 0, 0, 0, 0, 0;
      confMemory := map[];
    }

    function Abs(): State
      reads this
    {
      State(phase, cmd, cnt, addr, word, dq)
    }

    /** configure_region with the bytes of the file; the 32-bit address may wrap around. */
    method ConfigureRegion(image: seq<Byte>, confAddr: nat)
      modifies `confMemory
      ensures confMemory == Loaded(old(confMemory), image, confAddr)
    {
      var address := (2 * confAddr) % 0x1_0000_0000;
      HalfStep(confAddr);
      for i := 0 to |image|
        invariant address == Half(confAddr + i)
        invariant confMemory == Loaded(old(confMemory), image[..i], confAddr)
      {
        assert image[..i + 1][..i] == image[..i];
        HalfStep(confAddr + i);
        confMemory := confMemory[address := image[i] / 16];
        address := Next32(address);
        confMemory := confMemory[address := image[i] % 16];
        address := Next32(address);
      }
      assert image[..|image|] == image;
    }

    /** flash_handler: either edge of the clock. Reading an address never loaded stores the zero it reads. */
    method FlashHandler(rising: bool, p: Input)
      modifies this
      ensures Abs() == if rising then Rise(old(Abs()), old(confMemory), dummyCycles, p) else Fall(old(Abs()))
      ensures SameNibbles(confMemory, old(confMemory))
    {
      if rising {
        match phase {
          case IdlePhase =>
            if !p.csHigh {
              cnt, phase := 1, CmdPhase;
              cmd := p.dq % 2;
            }
          case CmdPhase =>
            var before := cnt;
            cnt := Next32(cnt);
            if before < 8 {
              cmd := (cmd * 2 + p.dq % 2) % 256;
            } else if cmd == CMD_QUAD_READ {
              phase, cnt := AddrPhase, 1;
              addr := p.dq;
            }
          case AddrPhase =>
            var before := cnt;
            cnt := Next32(cnt);
            if before < 6 {
              addr := (addr * 16 + p.dq) % 0x1_0000_0000;
            } else {
              cnt, dq, phase := 2, 0, DummyPhase;
            }
          case DummyPhase =>
            dq := 0;
            cnt := Next32(cnt);
            if cnt >= dummyCycles {
              phase, cnt, word := RespPhase, 0, 0;
            }
          case RespPhase =>
            if !p.csHigh {
              ReadNibble();
            } else {
              phase := IdlePhase;
            }
        }
      } else if phase == RespPhase {
        dq := word;
      }
    }

    /** One nibble of the answer. */
    method ReadNibble()
      modifies `confMemory, `word, `cnt, `dq
      ensures word == dq == At(old(confMemory), (addr * 2 + old(cnt)) % 0x1_0000_0000) && cnt == Next32(old(cnt))
      ensures SameNibbles(confMemory, old(confMemory))
    {
      var idx := (addr * 2 + cnt) % 0x1_0000_0000;
      if idx !in confMemory {
        confMemory := confMemory[idx := 0];
      }
      word := confMemory[idx];
      cnt := Next32(cnt);
      dq := word;
    }
  }

  /** The memories read the same everywhere. */
  ghost predicate SameNibbles(m: map<nat, Nibble>, n: map<nat, Nibble>) {
    forall i: nat :: At(m, i) == At(n, i)
  }

  // Whole transfers.

  function Run(s: State, memory: map<nat, Nibble>, dummyCycles: nat, ps: seq<Input>): State {
    if ps == [] then s else Rise(Run(s, memory, dummyCycles, ps[..|ps| - 1]), memory, dummyCycles, ps[|ps| - 1])
  }

  lemma {:induction false} RunAppend(s: State, memory: map<nat, Nibble>, dummyCycles: nat, ps: seq<Input>,
                                     qs: seq<Input>)
    ensures Run(s, memory, dummyCycles, ps + qs) == Run(Run(s, memory, dummyCycles, ps), memory, dummyCycles, qs)
  {
    if qs == [] {
      assert ps + qs == ps;
    } else {
      var m := |qs| - 1;
      assert (ps + qs)[..|ps + qs| - 1] == ps + qs[..m];
      RunAppend(s, memory, dummyCycles, ps, qs[..m]);
    }
  }

  /** Low data bits, first one most significant. */
  function BitsValue(ps: seq<Input>): nat {
    if ps == [] then 0 else 2 * BitsValue(ps[..|ps| - 1]) + ps[|ps| - 1].dq % 2
  }

  /** Whole nibbles, first one most significant. */
  function NibblesValue(ps: seq<Input>): nat {
    if ps == [] then 0 else 16 * NibblesValue(ps[..|ps| - 1]) + ps[|ps| - 1].dq
  }

  predicate Selected(ps: seq<Input>) {
    forall i :: 0 <= i < |ps| ==> !ps[i].csHigh
  }

  lemma {:induction false} BitsSmall(ps: seq<Input>)
    ensures BitsValue(ps) < Pow(2, |ps|)
  {
    if ps != [] {
      BitsSmall(ps[..|ps| - 1]);
    }
  }

  lemma EightBits()
    ensures Pow(2, 8) == 256
  {
    assert Pow(2, 4) == 16;
    PowAdd(2, 4, 4);
  }

  lemma SixNibbles()
    ensures Pow(16, 6) == 0x100_0000
  {
    assert Pow(16, 3) == 0x1000;
    PowAdd(16, 3, 3);
  }

  lemma BitsFit(ps: seq<Input>)
    requires |ps| <= 8
    ensures BitsValue(ps) < 256
  {
    BitsSmall(ps);
    PowMonotone(2, |ps|, 8);
    EightBits();
  }

  lemma BitTaken(s: State, memory: map<nat, Nibble>, dummyCycles: nat, p: Input)
    requires s.phase == CmdPhase && s.cnt < 8
    ensures Rise(s, memory, dummyCycles, p) == s.(cnt := s.cnt + 1, cmd := (s.cmd * 2 + p.dq % 2) % 256)
  {
  }

  /** Nothing happens before chip select falls. */
  lemma {:induction false} IdleUntilSelected(s: State, memory: map<nat, Nibble>, dummyCycles: nat, ps: seq<Input>,
                                             qs: seq<Input>)
    requires s.phase == IdlePhase && forall i :: 0 <= i < |ps| ==> ps[i].csHigh
    ensures Run(s, memory, dummyCycles, ps) == s
    ensures Run(s, memory, dummyCycles, ps + qs) == Run(s, memory, dummyCycles, qs)
  {
    RunAppend(s, memory, dummyCycles, ps, qs);
    if ps != [] {
      IdleUntilSelected(s, memory, dummyCycles, ps[..|ps| - 1], []);
    }
  }

  /** The first eight edges take the command in, bit by bit, whatever chip select does after the first of them. */
  lemma {:induction false} CommandTaken(s: State, memory: map<nat, Nibble>, dummyCycles: nat, ps: seq<Input>)
    requires s.phase == IdlePhase && 1 <= |ps| <= 8 && !ps[0].csHigh
    ensures var r := Run(s, memory, dummyCycles, ps); r.phase == CmdPhase && r.cnt == |ps| && r.cmd == BitsValue(ps)
  {
    var m := |ps| - 1;
    BitsFit(ps);
    if m > 0 {
      CommandTaken(s, memory, dummyCycles, ps[..m]);
      BitTaken(Run(s, memory, dummyCycles, ps[..m]), memory, dummyCycles, ps[m]);
    } else {
      assert ps[..0] == [] && Run(s, memory, dummyCycles, ps[..0]) == s && BitsValue(ps[..0]) == 0;
    }
  }

  lemma {:induction false} NibblesSmall(ps: seq<Input>)
    ensures NibblesValue(ps) < Pow(16, |ps|)
  {
    if ps != [] {
      NibblesSmall(ps[..|ps| - 1]);
    }
  }

  lemma NibblesFit(ps: seq<Input>)
    requires |ps| <= 6
    ensures NibblesValue(ps) < 0x100_0000
  {
    NibblesSmall(ps);
    PowMonotone(16, |ps|, 6);
    SixNibbles();
  }

  lemma NibbleTaken(s: State, memory: map<nat, Nibble>, dummyCycles: nat, p: Input)
    requires s.phase == AddrPhase && s.cnt < 6 && s.addr * 16 + p.dq < 0x1_0000_0000
    ensures Rise(s, memory, dummyCycles, p) == s.(cnt := s.cnt + 1, addr := s.addr * 16 + p.dq)
  {
  }

  /** Then six edges take the address in. */
  lemma {:induction false} AddressTaken(s: State, memory: map<nat, Nibble>, dummyCycles: nat, ps: seq<Input>)
    requires s.phase == CmdPhase && s.cnt == 8 && s.cmd == CMD_QUAD_READ && 1 <= |ps| <= 6
    ensures var r := Run(s, memory, dummyCycles, ps);
            r.phase == AddrPhase && r.cnt == |ps| && r.addr == NibblesValue(ps)
  {
    var m := |ps| - 1;
    NibblesFit(ps);
    if m > 0 {
      AddressTaken(s, memory, dummyCycles, ps[..m]);
      NibbleTaken(Run(s, memory, dummyCycles, ps[..m]), memory, dummyCycles, ps[m]);
    } else {
      assert ps[..0] == [] && Run(s, memory, dummyCycles, ps[..0]) == s && NibblesValue(ps[..0]) == 0;
    }
  }

  /** The edges between the address and the first nibble of the answer: the turn-around, then at least one more. */
  function Wait(dummyCycles: nat): nat {
    if dummyCycles <= 3 then 2 else dummyCycles - 1
  }

  lemma {:induction false} DummyPassed(s: State, memory: map<nat, Nibble>, dummyCycles: nat, ps: seq<Input>)
    requires s.phase == AddrPhase && s.cnt == 6 && dummyCycles < 0x1_0000_0000 && 1 <= |ps| <= Wait(dummyCycles)
    ensures var r := Run(s, memory, dummyCycles, ps);
            && r.addr == s.addr && r.dq == 0
            && if |ps| < Wait(dummyCycles) then r.phase == DummyPhase && r.cnt == |ps| + 1
               else r.phase == RespPhase && r.cnt == 0
  {
    var m := |ps| - 1;
    if m > 0 {
      DummyPassed(s, memory, dummyCycles, ps[..m]);
    } else {
      assert ps[..0] == [] && Run(s, memory, dummyCycles, ps[..0]) == s;
    }
  }

  /** From then on each edge brings out the next nibble, until chip select rises. */
  lemma {:induction false} NibblesOut(s: State, memory: map<nat, Nibble>, dummyCycles: nat, ps: seq<Input>)
    requires s.phase == RespPhase && s.cnt == 0 && s.addr < 0x100_0000 && |ps| < 0x8000_0000 && Selected(ps)
    ensures var r := Run(s, memory, dummyCycles, ps);
            && r.phase == RespPhase && r.cnt == |ps| && r.addr == s.addr
            && (ps != [] ==> r.dq == At(memory, 2 * s.addr + |ps| - 1) && Fall(r).dq == r.dq)
    ensures Rise(Run(s, memory, dummyCycles, ps), memory, dummyCycles, Input(true, 0)).phase == IdlePhase
  {
    if ps != [] {
      var m := |ps| - 1;
      NibblesOut(s, memory, dummyCycles, ps[..m]);
      OneNibble(Run(s, memory, dummyCycles, ps[..m]), memory, dummyCycles, ps[m], s.addr, m);
    }
  }

  lemma OneNibble(r: State, memory: map<nat, Nibble>, dummyCycles: nat, p: Input, addr: nat, m: nat)
    requires r.phase == RespPhase && r.cnt == m && r.addr == addr < 0x100_0000 && m < 0x7fff_ffff && !p.csHigh
    ensures var q := Rise(r, memory, dummyCycles, p);
            q.phase == RespPhase && q.cnt == m + 1 && q.addr == addr && q.dq == q.word == At(memory, 2 * addr + m)
  {
  }

  /** The data lines after edge i of the answer. */
  function Answer(s: State, memory: map<nat, Nibble>, dummyCycles: nat, before: seq<Input>, ps: seq<Input>, i: nat)
    : Nibble
    requires i < |ps|
  {
    Run(s, memory, dummyCycles, before + ps[..i + 1]).dq
  }

  /** A read command: chip select low at first, eight command bits, six address nibbles, the waiting edges. */
  predicate ReadCommand(before: seq<Input>, address: nat, dummyCycles: nat) {
    && |before| == 14 + Wait(dummyCycles) && !before[0].csHigh
    && BitsValue(before[..8]) == CMD_QUAD_READ && NibblesValue(before[8..14]) == address
  }

  /** A read command leaves the flash answering from its address. */
  lemma CommandLeadsToAnswer(s: State, memory: map<nat, Nibble>, dummyCycles: nat, before: seq<Input>, address: nat)
    requires s.phase == IdlePhase && dummyCycles < 0x1_0000_0000 && ReadCommand(before, address, dummyCycles)
    ensures var r := Run(s, memory, dummyCycles, before);
            r.phase == RespPhase && r.cnt == 0 && r.addr == address < 0x100_0000
  {
    var c, a, d := before[..8], before[8..14], before[14..];
    assert before == c + a + d;
    RunAppend(s, memory, dummyCycles, c + a, d);
    RunAppend(s, memory, dummyCycles, c, a);
    CommandTaken(s, memory, dummyCycles, c);
    var s1 := Run(s, memory, dummyCycles, c);
    AddressTaken(s1, memory, dummyCycles, a);
    NibblesFit(a);
    DummyPassed(Run(s1, memory, dummyCycles, a), memory, dummyCycles, d);
  }

  lemma AnswerIsMemory(s: State, memory: map<nat, Nibble>, dummyCycles: nat, before: seq<Input>, ps: seq<Input>,
                       address: nat, i: nat)
    requires s.phase == IdlePhase && dummyCycles < 0x1_0000_0000 && ReadCommand(before, address, dummyCycles)
    requires i < |ps| < 0x8000_0000 && Selected(ps)
    ensures Answer(s, memory, dummyCycles, before, ps, i) == At(memory, 2 * address + i)
  {
    CommandLeadsToAnswer(s, memory, dummyCycles, before, address);
    RunAppend(s, memory, dummyCycles, before, ps[..i + 1]);
    NibblesOut(Run(s, memory, dummyCycles, before), memory, dummyCycles, ps[..i + 1]);
  }

  // A clock with both edges, and a memory that stores the zeros it reads.

  /** The flash after both edges of each clock, with the memory as it is at each of them. */
  function Clocked(s: State, memories: seq<map<nat, Nibble>>, dummyCycles: nat, ps: seq<Input>): State
    requires |memories| == |ps|
  {
    if ps == [] then s else
      var m := |ps| - 1;
      Fall(Rise(Clocked(s, memories[..m], dummyCycles, ps[..m]), memories[m], dummyCycles, ps[m]))
  }

  /** While answering, the data lines show the last word. */
  predicate Steady(s: State) {
    s.phase == RespPhase ==> s.dq == s.word
  }

  lemma RiseSame(s: State, m: map<nat, Nibble>, n: map<nat, Nibble>, dummyCycles: nat, p: Input)
    requires Steady(s) && SameNibbles(m, n)
    ensures Rise(s, m, dummyCycles, p) == Rise(s, n, dummyCycles, p) && Steady(Rise(s, m, dummyCycles, p))
  {
    assert At(m, (s.addr * 2 + s.cnt) % 0x1_0000_0000) == At(n, (s.addr * 2 + s.cnt) % 0x1_0000_0000);
  }

  /** Falling edges and the zeros stored by reads change nothing: a run of the clock is a run of its rising edges. */
  lemma {:induction false} ClockedIsRun(s: State, memories: seq<map<nat, Nibble>>, memory: map<nat, Nibble>,
                                        dummyCycles: nat, ps: seq<Input>)
    requires Steady(s) && |memories| == |ps|
    requires forall i :: 0 <= i < |ps| ==> SameNibbles(memories[i], memory)
    ensures Clocked(s, memories, dummyCycles, ps) == Run(s, memory, dummyCycles, ps)
    ensures Steady(Run(s, memory, dummyCycles, ps))
  {
    if ps != [] {
      var m := |ps| - 1;
      ClockedIsRun(s, memories[..m], memory, dummyCycles, ps[..m]);
      RiseSame(Run(s, memory, dummyCycles, ps[..m]), memories[m], memory, dummyCycles, ps[m]);
    }
  }

  /** Half-byte address i belongs to byte j of what is loaded at an address. */
  predicate Covers(address: nat, j: nat, i: nat) {
    Half(address + j) <= i <= Half(address + j) + 1
  }

  ghost predicate Outside(address: nat, n: nat, i: nat) {
    forall j :: 0 <= j < n ==> !Covers(address, j, i)
  }

  /** Loading puts each byte's nibbles at twice its address, and nothing elsewhere. */
  lemma {:induction false} LoadedBytes(memory: map<nat, Nibble>, image: seq<Byte>, address: nat)
    requires |image| <= 0x8000_0000
    ensures forall j :: 0 <= j < |image| ==> HoldsByte(Loaded(memory, image, address), address + j, image[j])
    ensures forall i: nat :: Outside(address, |image|, i) ==> At(Loaded(memory, image, address), i) == At(memory, i)
  {
    if image != [] {
      var m := |image| - 1;
      LoadedBytes(memory, image[..m], address);
      var before, r := Loaded(memory, image[..m], address), Loaded(memory, image, address);
      forall j | 0 <= j < |image| ensures HoldsByte(r, address + j, image[j]) {
        if j < m {
          assert HoldsByte(before, address + j, image[..m][j]);
          PlacesDiffer(address, j, m);
        }
      }
      forall i: nat | Outside(address, |image|, i) ensures At(r, i) == At(memory, i) {
        assert !Covers(address, m, i);
        assert Outside(address, m, i);
      }
    }
  }

  predicate HoldsByte(memory: map<nat, Nibble>, a: nat, b: Byte) {
    At(memory, Half(a)) == b / 16 && At(memory, Half(a) + 1) == b % 16
  }

  lemma PlacesDiffer(address: nat, i: nat, j: nat)
    requires i < j < 0x8000_0000
    ensures Half(address + i) + 1 < Half(address + j) || Half(address + j) + 1 < Half(address + i)
  {
  }

  /**
   End to end: after loading an image, a read command from any address in it brings out two nibbles for each byte, and
   they make up exactly the bytes of the image from there.
   */
  lemma ReadGivesImage(s: State, memory: map<nat, Nibble>, image: seq<Byte>, confAddr: nat, dummyCycles: nat,
                       before: seq<Input>, ps: seq<Input>, address: nat, j: nat, k: nat)
    requires s.phase == IdlePhase && dummyCycles < 0x1_0000_0000 && ReadCommand(before, address, dummyCycles)
    requires 2 * j + 1 < |ps| < 0x8000_0000 && Selected(ps) && |image| <= 0x8000_0000
    requires k < |image| && address + j == (confAddr + k) % 0x8000_0000
    ensures var loaded := Loaded(memory, image, confAddr);
            16 * Answer(s, loaded, dummyCycles, before, ps, 2 * j)
            + Answer(s, loaded, dummyCycles, before, ps, 2 * j + 1)
            == image[k]
  {
    var loaded := Loaded(memory, image, confAddr);
    LoadedBytes(memory, image, confAddr);
    AnswerIsMemory(s, loaded, dummyCycles, before, ps, address, 2 * j);
    AnswerIsMemory(s, loaded, dummyCycles, before, ps, address, 2 * j + 1);
    assert HoldsByte(loaded, confAddr + k, image[k]);
  }

  /**
   A command byte other than the quad read is left only through the wrap-around of the 32-bit edge counter: until then
   the flash stays in its command phase, whatever chip select does, and then it takes eight new bits for a command.
   */
  lemma {:induction false} OtherCommandsHang(s: State, memory: map<nat, Nibble>, dummyCycles: nat, ps: seq<Input>)
    requires s.phase == CmdPhase && 8 <= s.cnt < 0x1_0000_0000 && s.cmd != CMD_QUAD_READ
    requires s.cnt + |ps| <= 0x1_0000_0000
    ensures var r := Run(s, memory, dummyCycles, ps);
            && r.phase == CmdPhase && r.cmd == s.cmd
            && r.cnt == if s.cnt + |ps| == 0x1_0000_0000 then 0 else s.cnt + |ps|
  {
    if ps != [] {
      var m := |ps| - 1;
      OtherCommandsHang(s, memory, dummyCycles, ps[..m]);
      OneMoreEdge(Run(s, memory, dummyCycles, ps[..m]), memory, dummyCycles, ps[m]);
    }
  }

  lemma OneMoreEdge(s: State, memory: map<nat, Nibble>, dummyCycles: nat, p: Input)
    requires s.phase == CmdPhase && 8 <= s.cnt < 0x1_0000_0000 && s.cmd != CMD_QUAD_READ
    ensures Rise(s, memory, dummyCycles, p) == s.(cnt := if s.cnt == 0xffff_ffff then 0 else s.cnt + 1)
  {
  }

  lemma {:induction false} BitsTakenAnew(s: State, memory: map<nat, Nibble>, dummyCycles: nat, ps: seq<Input>)
    requires s.phase == CmdPhase && s.cnt == 0 && s.cmd < 256 && |ps| <= 8
    ensures var r := Run(s, memory, dummyCycles, ps);
            r.phase == CmdPhase && r.cnt == |ps| && r.cmd == (s.cmd * Pow(2, |ps|) + BitsValue(ps)) % 256
  {
    if ps != [] {
      var m := |ps| - 1;
      BitsTakenAnew(s, memory, dummyCycles, ps[..m]);
      BitTaken(Run(s, memory, dummyCycles, ps[..m]), memory, dummyCycles, ps[m]);
      NextBit(s.cmd, Pow(2, m), BitsValue(ps[..m]), ps[m].dq % 2);
    }
  }

  lemma NextBit(x: nat, r: nat, v: nat, b: nat)
    ensures (((x * r + v) % 256) * 2 + b) % 256 == (x * (2 * r) + (2 * v + b)) % 256
  {
    Twice(x, r);
    ModTwice(x * r + v, b);
  }

  lemma Twice(x: nat, r: nat)
    ensures x * (2 * r) == 2 * (x * r)
  {
  }

  lemma ModTwice(y: nat, b: nat)
    ensures ((y % 256) * 2 + b) % 256 == (2 * y + b) % 256
  {
  }

  /** The first edge at which such a flash can go on, and the bits after the wrap-around that make it. */
  lemma HangEndsIff(s: State, memory: map<nat, Nibble>, dummyCycles: nat, ps: seq<Input>)
    requires s.phase == CmdPhase && 8 <= s.cnt < 0x1_0000_0000 && s.cmd != CMD_QUAD_READ && s.cmd < 256
    requires |ps| == 0x1_0000_0000 - s.cnt + 9
    ensures var n := 0x1_0000_0000 - s.cnt;
            && Run(s, memory, dummyCycles, ps[..n + 8]).phase == CmdPhase
            && (Run(s, memory, dummyCycles, ps).phase == AddrPhase <==> BitsValue(ps[n..n + 8]) == CMD_QUAD_READ)
  {
    var n := 0x1_0000_0000 - s.cnt;
    OtherCommandsHang(s, memory, dummyCycles, ps[..n]);
    NewCommandTaken(Run(s, memory, dummyCycles, ps[..n]), memory, dummyCycles, ps[n..n + 8]);
    RunAppend(s, memory, dummyCycles, ps[..n], ps[n..n + 8]);
    assert ps[..n] + ps[n..n + 8] == ps[..n + 8];
    assert |ps| - 1 == n + 8;
  }

  lemma NewCommandTaken(s: State, memory: map<nat, Nibble>, dummyCycles: nat, ps: seq<Input>)
    requires s.phase == CmdPhase && s.cnt == 0 && s.cmd < 256 && |ps| == 8
    ensures var r := Run(s, memory, dummyCycles, ps); r.phase == CmdPhase && r.cnt == 8 && r.cmd == BitsValue(ps)
  {
    BitsTakenAnew(s, memory, dummyCycles, ps);
    BitsFit(ps);
    EightBits();
    LowByte(s.cmd, BitsValue(ps));
  }

  lemma LowByte(x: nat, v: nat)
    requires v < 256
    ensures (x * 256 + v) % 256 == v
  {
  }
}
