/** The Wishbone side: the signals, the RAM and the bridge, each advanced by one clock edge at a time. */
module Wishbone {
  type Byte = x: int | 0 <= x < 256

  /** A 32-bit word by byte lane, least significant lane first. */
  type Word = w: seq<Byte> | |w| == 4 witness [0, 0, 0, 0]

  type Lanes = l: seq<bool> | |l| == 4 witness [false, false, false, false]

  const ALL_LANES: Lanes := [true, true, true, true]
  const NO_LANES: Lanes := [false, false, false, false]

  /** The signals the bridge drives, and those the RAM drives. */
  datatype Master = Master(stb: bool, cyc: bool, we: bool, adr: nat, dat: Word, sel: Lanes)
  datatype Slave = Slave(ack: bool, dat: Word)

  /** The word with the selected lanes taken from value. */
  function Merge(w: Word, value: Word, sel: Lanes): Word {
    [if sel[0] then value[0] else w[0], if sel[1] then value[1] else w[1],
     if sel[2] then value[2] else w[2], if sel[3] then value[3] else w[3]]
  }

  /** The word at an address; a word never written reads as blank. */
  function Stored(memory: map<nat, Word>, blank: Word, address: nat): Word {
    if address in memory then memory[address] else blank
  }

  /** WBRAM. */
  class Wbram {
    const memSize: nat
    const blank: Word
    var memory: map<nat, Word>
    var nTran: bool
    var out: Slave
    var word: Word
    var wrOps: nat
    var rdOps: nat
    var fatal: bool      // an access out of bounds was reported, which ends the simulation

    constructor (memSize: nat, blank: Word)
      ensures this.memSize == memSize && this.blank == blank && memory == map[] && !nTran && !out.ack && !fatal
      ensures wrOps == rdOps == 0
    {
      this.memSize, this.blank := memSize, blank;
      memory, nTran, out, fatal, wrOps, rdOps := map[], false, Slave(false, [0, 0, 0, 0]), false, 0, 0;
      word := [0, 0, 0, 0];
    }

    /** retrieve_word; an address past mem_size is fatal. */
    method RetrieveWord(address: nat) returns (w: Word)
      modifies `fatal
      ensures w == Stored(memory, blank, address)
      ensures fatal == (old(fatal) || address > memSize)
    {
      if address > memSize {
        fatal := true;
      }
      w := if address in memory then memory[address] else blank;
    }

    /** set_word: lane by lane. */
    method SetWord(address: nat, value: Word, sel: Lanes) returns (w: Word)
      modifies `fatal
      ensures w == Merge(Stored(memory, blank, address), value, sel)
      ensures fatal == (old(fatal) || address > memSize)
    {
      if address > memSize {
        fatal := true;
      }
      w := RetrieveWord(address);
      ghost var before := w;
      for i := 0 to 4
        invariant forall k :: 0 <= k < 4 ==> w[k] == if k < i && sel[k] then value[k] else before[k]
      {
        if sel[i] {
          w := w[i := value[i]];
        }
      }
      assert w == Merge(before, value, sel);
    }

    /** handleop: one clock edge, seeing the master's signals as they were before it. */
    method HandleOp(m: Master)
      modifies this
      ensures var busy, starts := m.cyc && m.stb, m.cyc && m.stb && !old(nTran);
              && nTran == (if busy then !old(nTran) else old(nTran))
              && out.ack == starts
              && (starts && m.we ==>
                    && word == Merge(Stored(old(memory), blank, m.adr), m.dat, m.sel)
                    && memory == old(memory)[m.adr := word])
              && (starts && !m.we ==> word == Stored(old(memory), blank, m.adr))
              && (starts ==> out.dat == word)
              && (!starts ==> out.dat == old(out.dat) && word == old(word))
              && (!(starts && m.we) ==> memory == old(memory))
              && wrOps == old(wrOps) + (if starts && m.we then 1 else 0)
              && rdOps == old(rdOps) + (if starts && !m.we then 1 else 0)
              && fatal == (old(fatal) || (starts && m.adr > memSize))
    {
      out := out.(ack := false);
      if m.cyc && m.stb {
        if !nTran {
          if m.we {
            word := SetWord(m.adr, m.dat, m.sel);
            wrOps := wrOps + 1;
            memory := memory[m.adr := word];
          } else {
            word := RetrieveWord(m.adr);
            rdOps := rdOps + 1;
          }
          nTran := true;
          out := Slave(true, word);
        } else {
          nTran := false;
        }
      }
    }
  }

  datatype BridgeState = Idle | ExecutingWrite | ExecutingRead | WaitingForAck

  /** The byte enables of a transfer: none given, or one byte each. */
  datatype Enables = AllEnabled | PerByte(bytes: seq<Byte>)

  predicate EnablesCover(e: Enables, n: nat) {
    e.PerByte? ==> n <= |e.bytes|
  }

  /** Byte k of a beat travels on lane 3 - k. */
  function OnLanes(bytes: seq<Byte>): Word
    requires |bytes| == 4
  {
    [bytes[3], bytes[2], bytes[1], bytes[0]]
  }

  function FromLanes(w: Word): seq<Byte> {
    [w[3], w[2], w[1], w[0]]
  }

  function EnabledLanes(e: Enables, at: nat): Lanes
    requires EnablesCover(e, at + 4)
  {
    match e
    case AllEnabled => ALL_LANES
    case PerByte(b) => [b[at + 3] == 0xff, b[at + 2] == 0xff, b[at + 1] == 0xff, b[at] == 0xff]
  }

  /** data with four bytes at position at replaced. */
  function Replaced(data: seq<Byte>, at: nat, bytes: seq<Byte>): (r: seq<Byte>)
    requires at + 4 <= |data| && |bytes| == 4
    ensures |r| == |data|
  {
    data[..at] + bytes + data[at + 4..]
  }

  /** TLM2WB. The pointers into the payload are one offset, since they move together. */
  class Bridge {
    var state: BridgeState
    var wnr: bool
    var adr: nat
    var data: array<Byte>
    var at: nat
    var enables: Enables
    var elapsed: nat
    var timeout: nat
    var out: Master
    var acked: bool      // ack_event was notified at the last edge
    var expired: bool    // a missing acknowledge was reported, which ends the simulation

    constructor (timeout: nat, data: array<Byte>)
      ensures state == Idle && !out.stb && !out.cyc && !acked && !expired
      ensures this.timeout == timeout && this.data == data
    {
      state, wnr, adr, at, enables, elapsed := Idle, false, 0, 0, AllEnabled, 0;
      this.timeout, this.data := timeout, data;
      out, acked, expired := Master(false, false, false, 0, [0, 0, 0, 0], NO_LANES), false, false;
    }

    /** What a beat in hand needs of the payload; only a write looks at the byte enables. */
    predicate BeatFits(write: bool)
      reads this
    {
      at + 4 <= data.Length && (write ==> EnablesCover(enables, at + 4))
    }

    /** The payload does not change during a beat. */
    twostate predicate SamePayload()
      reads this
    {
      && adr == old(adr) && data == old(data) && at == old(at) && enables == old(enables)
      && timeout == old(timeout)
    }

    /** The outgoing word, lane by lane. */
    method Lanes() returns (w: Word, sel: Lanes)
      requires BeatFits(true)
      ensures w == OnLanes(data[at..at + 4]) && sel == EnabledLanes(enables, at)
    {
      w, sel := [0, 0, 0, 0], NO_LANES;
      for i := 0 to 4
        invariant forall k :: 0 <= k < i ==> w[k] == data[at + 3 - k]
        invariant forall k :: 0 <= k < i ==> sel[k] == (enables.PerByte? ==> enables.bytes[at + 3 - k] == 0xff)
      {
        w := w[i := data[at + 3 - i]];
        sel := sel[i := enables.AllEnabled? || enables.bytes[at + 3 - i] == 0xff];
      }
      assert w == OnLanes(data[at..at + 4]);
    }

    /** The incoming word into the payload, lane by lane. */
    method TakeLanes(w: Word)
      requires BeatFits(false)
      modifies data
      ensures data[..] == Replaced(old(data[..]), at, FromLanes(w))
    {
      for i := 0 to 4
        invariant forall k :: 0 <= k < data.Length ==>
                    data[k] == if at + 4 - i <= k < at + 4 then w[at + 3 - k] else old(data[k])
      {
        data[at + 3 - i] := w[i];
      }
      assert data[..] == Replaced(old(data[..]), at, FromLanes(w));
    }

    /** wishbone_handler: one clock edge, seeing the slave's signals as they were before it. */
    method Handler(s: Slave)
      requires state != Idle ==> BeatFits(state == ExecutingWrite)
      modifies this, data
      ensures SamePayload()
      ensures match old(state)
              case Idle => state == Idle && out == old(out) && elapsed == old(elapsed)
              case ExecutingWrite =>
                && state == WaitingForAck && wnr && elapsed == 0
                && out == Master(true, true, true, adr % 0x1_0000_0000,
                                 OnLanes(old(data[at..at + 4])), EnabledLanes(enables, at))
              case ExecutingRead =>
                && state == WaitingForAck && !wnr && elapsed == 0
                && out == Master(true, true, false, adr % 0x1_0000_0000, old(out.dat), NO_LANES)
              case WaitingForAck =>
                && state == (if s.ack then Idle else WaitingForAck)
                && elapsed == old(elapsed) + 1 && wnr == old(wnr)
                && out == (if s.ack then old(out).(stb := false, cyc := false, we := false, sel := NO_LANES)
                           else old(out))
      ensures acked == (old(state) == WaitingForAck && s.ack)
      ensures expired == (old(expired) || (old(state) == WaitingForAck && elapsed >= timeout))
      ensures data[..] == if acked && !wnr then Replaced(old(data[..]), at, FromLanes(s.dat)) else old(data[..])
    {
      acked := false;
      match state {
        case Idle =>
        case ExecutingWrite =>
          var w, sel := Lanes();
          out := Master(true, true, true, adr % 0x1_0000_0000, w, sel);
          wnr, state, elapsed := true, WaitingForAck, 0;
        case ExecutingRead =>
          out := Master(true, true, false, adr % 0x1_0000_0000, out.dat, NO_LANES);
          wnr, state, elapsed := false, WaitingForAck, 0;
        case WaitingForAck =>
          if s.ack {
            out := out.(stb := false, cyc := false, we := false, sel := NO_LANES);
            if !wnr {
              TakeLanes(s.dat);
            }
            state, acked := Idle, true;
          }
          elapsed := elapsed + 1;
          if elapsed >= timeout {
            expired := true;
          }
      }
    }
  }
}
