/** The bridge and the RAM on one clock: transfers refine atomic word accesses. */
module WishboneTransfer {
  import opened Wishbone

  // Atomic accesses: what one beat, and a run of beats, do to the words stored.

  function WriteWord(memory: map<nat, Word>, blank: Word, address: nat, bytes: seq<Byte>, sel: Lanes): map<nat, Word>
    requires |bytes| == 4
  {
    memory[address := Merge(Stored(memory, blank, address), OnLanes(bytes), sel)]
  }

  /** Where beat i begins in the payload. */
  function At(len: nat, i: nat): nat {
    if i == 0 then 0 else At(len, i - 1) + len
  }

  lemma {:induction false} AtIsProduct(len: nat, i: nat)
    ensures At(len, i) == len * i
  {
    if i > 0 {
      AtIsProduct(len, i - 1);
    }
  }

  /** The word address of beat i: the bridge steps a word address by the number of bytes in a beat. */
  function BeatAddress(adr: nat, len: nat, i: nat): nat {
    (adr + At(len, i)) % 0x1_0000_0000
  }

  /** What transfers act on: the words stored, the payload, and how often the RAM was asked. */
  datatype Store = Store(memory: map<nat, Word>, data: seq<Byte>, wrOps: nat, rdOps: nat)

  /** The payload bytes and, for a write, the byte enables that a beat at position at needs. */
  predicate BeatFits(size: nat, write: bool, enables: Enables, at: nat) {
    at + 4 <= size && (write ==> EnablesCover(enables, at + 4))
  }

  predicate BeatFitsAt(size: nat, write: bool, enables: Enables, len: nat, i: nat) {
    BeatFits(size, write, enables, At(len, i))
  }

  predicate BeatsFit(size: nat, write: bool, enables: Enables, len: nat, n: nat) {
    forall i :: 0 <= i < n ==> BeatFitsAt(size, write, enables, len, i)
  }

  /** One beat as one atomic access to the word at address. */
  function OneBeat(s: Store, write: bool, blank: Word, address: nat, at: nat, enables: Enables): (r: Store)
    requires BeatFits(|s.data|, write, enables, at)
    ensures |r.data| == |s.data|
  {
    if write then
      s.(memory := WriteWord(s.memory, blank, address, s.data[at..at + 4], EnabledLanes(enables, at)),
         wrOps := s.wrOps + 1)
    else
      s.(data := Replaced(s.data, at, FromLanes(Stored(s.memory, blank, address))), rdOps := s.rdOps + 1)
  }

  function AllBeats(s: Store, write: bool, blank: Word, adr: nat, len: nat, enables: Enables, n: nat): (r: Store)
    requires BeatsFit(|s.data|, write, enables, len, n)
    ensures |r.data| == |s.data|
  {
    if n == 0 then s else
      assert BeatFitsAt(|s.data|, write, enables, len, n - 1);
      OneBeat(AllBeats(s, write, blank, adr, len, enables, n - 1), write, blank,
              BeatAddress(adr, len, n - 1), At(len, n - 1), enables)
  }

  /** How far a beat has come. */
  datatype Phase = Quiet | Requested | Presented | Served

  function Next(p: Phase): Phase {
    match p
    case Quiet => Quiet
    case Requested => Presented
    case Presented => Served
    case Served => Quiet
  }

  /** A bridge at a beat of a transfer. */
  datatype Place = Place(state: BridgeState, adr: nat, at: nat, enables: Enables, timeout: nat, data: array<Byte>,
                         requested: bool)

  class Bench {
    const bridge: Bridge
    const ram: Wbram

    constructor (bridge: Bridge, ram: Wbram)
      ensures this.bridge == bridge && this.ram == ram
    {
      this.bridge, this.ram := bridge, ram;
    }

    /** The request signals of the beat in hand. */
    predicate Requests()
      reads bridge, bridge.data
    {
      && bridge.BeatFits(bridge.wnr)
      && bridge.out.stb && bridge.out.cyc && bridge.out.we == bridge.wnr
      && bridge.out.adr == bridge.adr % 0x1_0000_0000
      && (bridge.wnr ==> bridge.out.dat == OnLanes(bridge.data[bridge.at..bridge.at + 4])
                         && bridge.out.sel == EnabledLanes(bridge.enables, bridge.at))
    }

    predicate IsQuiet()
      reads bridge, ram
    {
      bridge.state == Idle && !bridge.out.stb && !bridge.out.cyc && !ram.out.ack && !ram.nTran
    }

    predicate IsRequested()
      reads bridge, ram
    {
      && (bridge.state == ExecutingWrite || bridge.state == ExecutingRead)
      && bridge.BeatFits(bridge.state == ExecutingWrite)
      && !bridge.out.stb && !bridge.out.cyc && !ram.out.ack && !ram.nTran
    }

    predicate IsPresented()
      reads bridge, bridge.data, ram
    {
      bridge.state == WaitingForAck && Requests() && bridge.elapsed == 0 && !ram.out.ack && !ram.nTran
    }

    predicate IsServed()
      reads bridge, bridge.data, ram
    {
      && bridge.state == WaitingForAck && Requests() && bridge.elapsed == 1 && ram.out.ack && ram.nTran
      && (!bridge.wnr ==> ram.out.dat == Stored(ram.memory, ram.blank, bridge.out.adr))
    }

    predicate InPhase(p: Phase)
      reads bridge, bridge.data, ram
    {
      match p
      case Quiet => IsQuiet()
      case Requested => IsRequested()
      case Presented => IsPresented()
      case Served => IsServed()
    }

    /** One rising edge: both sides see the signals of before it. */
    method Edge(ghost p: Phase)
      requires InPhase(p)
      modifies bridge, ram, bridge.data
      ensures bridge.SamePayload() && InPhase(Next(p)) && bridge.acked == (p == Served)
      ensures p == Requested ==> bridge.wnr == (old(bridge.state) == ExecutingWrite)
      ensures p == Presented || p == Served ==> bridge.wnr == old(bridge.wnr)
      ensures ram.memory == if p == Presented && bridge.wnr then
                              WriteWord(old(ram.memory), ram.blank, bridge.adr % 0x1_0000_0000,
                                        old(bridge.data[bridge.at..bridge.at + 4]),
                                        EnabledLanes(bridge.enables, bridge.at))
                            else old(ram.memory)
      ensures ram.wrOps == old(ram.wrOps) + (if p == Presented && bridge.wnr then 1 else 0)
      ensures ram.rdOps == old(ram.rdOps) + (if p == Presented && !bridge.wnr then 1 else 0)
      ensures bridge.data[..] == if p == Served && !bridge.wnr then
                                   Replaced(old(bridge.data[..]), bridge.at,
                                            FromLanes(Stored(ram.memory, ram.blank, bridge.adr % 0x1_0000_0000)))
                                 else old(bridge.data[..])
      ensures ram.fatal == (old(ram.fatal) || (p == Presented && bridge.adr % 0x1_0000_0000 > ram.memSize))
      ensures bridge.expired == (old(bridge.expired) || (p == Presented && bridge.timeout <= 1)
                                 || (p == Served && bridge.timeout <= 2))
    {
      var m, s := bridge.out, ram.out;
      bridge.Handler(s);
      ram.HandleOp(m);
    }

    ghost function Held(): Store
      reads bridge, bridge.data, ram
    {
      Store(ram.memory, bridge.data[..], ram.wrOps, ram.rdOps)
    }

    /** No report has ended the simulation. */
    predicate Running()
      reads bridge, ram
    {
      !ram.fatal && !bridge.expired
    }

    /** wait(ack_event): clock edges until the acknowledge, which comes at the third, or until a report ends it all. */
    method Beat() returns (done: bool)
      requires IsRequested() && Running()
      modifies bridge, ram, bridge.data
      ensures bridge.SamePayload() && Running() == done
      ensures done <==> bridge.timeout >= 3 && bridge.adr % 0x1_0000_0000 <= ram.memSize
      ensures done ==> IsQuiet() && bridge.acked
      ensures done ==> Held() == OneBeat(old(Held()), old(bridge.state) == ExecutingWrite, ram.blank,
                                         bridge.adr % 0x1_0000_0000, bridge.at, bridge.enables)
    {
      Edge(Requested);
      Edge(Presented);
      if !Running() {
        return false;
      }
      Edge(Served);
      return Running();
    }

    /** The request of the next beat. */
    method NextRequest(request: BridgeState, len: nat)
      requires IsQuiet() && Running() && (request == ExecutingWrite || request == ExecutingRead)
      requires BeatFits(bridge.data.Length, request == ExecutingWrite, bridge.enables, bridge.at + len)
      modifies bridge`state, bridge`adr, bridge`at
      ensures IsRequested() && Running() && Held() == old(Held())
      ensures bridge.state == request && bridge.adr == old(bridge.adr) + len && bridge.at == old(bridge.at) + len
    {
      bridge.state, bridge.adr, bridge.at := request, bridge.adr + len, bridge.at + len;
    }

    /** What the request of a beat says, and whether it is about to be made. */
    ghost function Where(): Place
      reads bridge, ram
    {
      Place(bridge.state, bridge.adr, bridge.at, bridge.enables, bridge.timeout, bridge.data,
            IsRequested() && Running())
    }

    /** One turn of the loop of b_transport: a beat, and the request of the next one unless it was the last. */
    method Turn(request: BridgeState, len: nat, left: nat) returns (done: bool, after: int)
      requires Where().requested && bridge.state == request
      requires left != len ==> BeatFits(bridge.data.Length, request == ExecutingWrite, bridge.enables, bridge.at + len)
      modifies bridge, ram, bridge.data
      ensures bridge.data == old(bridge.data) && bridge.timeout == old(bridge.timeout)
      ensures done <==> bridge.timeout >= 3 && old(bridge.adr) % 0x1_0000_0000 <= ram.memSize
      ensures done ==>
                && after == left - len
                && Held() == OneBeat(old(Held()), request == ExecutingWrite, ram.blank,
                                     old(bridge.adr) % 0x1_0000_0000, old(bridge.at), old(bridge.enables))
                && if after == 0 then IsQuiet() && Running()
                   else Where() == old(Where()).(adr := old(bridge.adr) + len, at := old(bridge.at) + len)
    {
      done := Beat();
      after := left - len;
      if done && after != 0 {
        NextRequest(request, len);
      }
    }

    /** Beat i of n is requested, left bytes of the width are to go, and the beats before it are done. */
    ghost predicate BeforeBeat(start: Place, all: Store, len: nat, n: nat, i: nat, left: nat)
      reads bridge, bridge.data, ram
    {
      && i < n && left == At(len, n - i) && (len == 0 ==> n == 1)
      && BeatsFit(|all.data|, start.state == ExecutingWrite, start.enables, len, n)
      && start.requested && |all.data| == start.data.Length
      && Where() == start.(adr := start.adr + At(len, i), at := At(len, i))
      && BeatsDone(start, all, len, n, i)
    }

    /** The first i beats are done. */
    ghost predicate BeatsDone(start: Place, all: Store, len: nat, n: nat, i: nat)
      requires i <= n && BeatsFit(|all.data|, start.state == ExecutingWrite, start.enables, len, n)
      reads bridge, bridge.data, ram
    {
      && AllInRange(start.adr, len, i, ram.memSize)
      && Held() == AllBeats(all, start.state == ExecutingWrite, ram.blank, start.adr, len, start.enables, i)
    }

    /** The turn of beat i. */
    method TurnAt(request: BridgeState, len: nat, left: nat, ghost start: Place, ghost all: Store, ghost n: nat,
                  ghost i: nat) returns (done: bool, after: int)
      requires BeforeBeat(start, all, len, n, i, left) && start.state == request
      modifies bridge, ram, bridge.data
      ensures bridge.data == old(bridge.data) && bridge.timeout == old(bridge.timeout)
      ensures done <==> bridge.timeout >= 3 && BeatAddress(start.adr, len, i) <= ram.memSize
      ensures done ==> after >= 0 && BeatsDone(start, all, len, n, i + 1)
      ensures done ==> if after == 0 then i + 1 == n && IsQuiet() && Running()
                       else BeforeBeat(start, all, len, n, i + 1, after)
    {
      OneBeatLess(len, n - i - 1);
      NextBeatFits(bridge.data.Length, request == ExecutingWrite, start.enables, len, n, i);
      done, after := Turn(request, len, left);
      if done {
        InRangeStep(start.adr, len, i, ram.memSize);
      }
    }

    /** The loop of b_transport, from the request of the first beat: n beats of len bytes, or as many as go well. */
    method RunBeats(request: BridgeState, len: nat, width: nat, ghost n: nat) returns (done: bool, ghost i: nat)
      requires Where().requested && bridge.state == request && bridge.at == 0
      requires n > 0 && width == At(len, n) && (len == 0 ==> n == 1)
      requires BeatsFit(bridge.data.Length, request == ExecutingWrite, bridge.enables, len, n)
      modifies bridge, ram, bridge.data
      ensures bridge.data == old(bridge.data) && bridge.timeout == old(bridge.timeout)
      ensures if done then i == n
              else i < n && (bridge.timeout < 3 || BeatAddress(old(bridge.adr), len, i) > ram.memSize)
      ensures AllInRange(old(bridge.adr), len, i, ram.memSize)
      ensures done ==> IsQuiet() && Running() && bridge.timeout >= 3
      ensures done ==> Held() == AllBeats(old(Held()), request == ExecutingWrite, ram.blank, old(bridge.adr), len,
                                          old(bridge.enables), n)
    {
      var left: nat := width;
      ghost var start, all := Where(), Held();
      i := 0;
      while true
        invariant BeforeBeat(start, all, len, n, i, left)
        decreases n - i
      {
        var after;
        done, after := TurnAt(request, len, left, start, all, n, i);
        if !done {
          return;
        }
        i, left := i + 1, after;
        if left == 0 {
          return;
        }
      }
    }

    /** b_transport: beats of len bytes until the streaming width is used up, each one atomic access of the RAM. */
    method Transport(command: Command, address: nat, data: array<Byte>, len: nat, enables: Enables, width: nat)
      returns (r: Outcome)
      requires IsQuiet() && Running() && Ends(len, width)
      requires BeatsFit(data.Length, command == Write, enables, len, Beats(len, width))
      modifies bridge, ram, data
      ensures bridge.timeout == old(bridge.timeout)
      ensures r == Rejected <==> command == Ignore
      ensures r == Done <==> command != Ignore && bridge.timeout >= 3
                             && AllInRange(address / 4, len, Beats(len, width), ram.memSize)
      ensures r != Aborted ==> IsQuiet() && Running()
      ensures var before := Store(old(ram.memory), old(data[..]), old(ram.wrOps), old(ram.rdOps));
              var after := Store(ram.memory, data[..], ram.wrOps, ram.rdOps);
              && (r == Done ==> after == AllBeats(before, command == Write, ram.blank, address / 4, len, enables,
                                                  Beats(len, width)))
              && (r == Rejected ==> after == before)
    {
      if command == Ignore {
        return Rejected;
      }
      var request := if command == Write then ExecutingWrite else ExecutingRead;
      WidthIsBeats(len, width);
      assert BeatFitsAt(data.Length, command == Write, enables, len, 0);
      bridge.state, bridge.adr, bridge.data, bridge.at, bridge.enables := request, address / 4, data, 0, enables;
      ghost var n := Beats(len, width);
      var done, i := RunBeats(request, len, if width == 0 then len else width, n);
      if !done && bridge.timeout >= 3 {
        InRangeBefore(address / 4, len, i, n, ram.memSize);
      }
      return if done then Done else Aborted;
    }
  }

  datatype Command = Write | Read | Ignore

  datatype Outcome = Done | Rejected | Aborted

  /** The transfers that come to an end inside the payload: a width of zero stands for one beat. */
  predicate Ends(len: nat, width: nat) {
    width == 0 || (len > 0 && width % len == 0)
  }

  function Beats(len: nat, width: nat): nat
    requires Ends(len, width)
  {
    if width == 0 then 1 else width / len
  }

  predicate AllInRange(adr: nat, len: nat, n: nat, memSize: nat) {
    forall i :: 0 <= i < n ==> BeatAddress(adr, len, i) <= memSize
  }

  lemma WidthIsBeats(len: nat, width: nat)
    requires Ends(len, width)
    ensures (if width == 0 then len else width) == At(len, Beats(len, width)) && Beats(len, width) > 0
  {
    AtIsProduct(len, Beats(len, width));
    if width > 0 {
      assert width == len * (width / len);
    }
  }

  lemma InRangeStep(adr: nat, len: nat, i: nat, memSize: nat)
    requires AllInRange(adr, len, i, memSize) && BeatAddress(adr, len, i) <= memSize
    ensures AllInRange(adr, len, i + 1, memSize)
  {
  }

  lemma InRangeBefore(adr: nat, len: nat, i: nat, n: nat, memSize: nat)
    requires i < n && BeatAddress(adr, len, i) > memSize
    ensures !AllInRange(adr, len, n, memSize)
  {
  }

  lemma NextBeatFits(size: nat, write: bool, enables: Enables, len: nat, n: nat, i: nat)
    requires i < n && BeatsFit(size, write, enables, len, n)
    ensures At(len, i + 1) == At(len, i) + len && BeatFitsAt(size, write, enables, len, i)
    ensures i + 1 < n ==> BeatFits(size, write, enables, At(len, i) + len)
  {
    NextAt(len, i);
    assert i + 1 < n ==> BeatFitsAt(size, write, enables, len, i + 1);
  }

  lemma NextAt(len: nat, i: nat)
    ensures At(len, i + 1) == At(len, i) + len
  {
  }

  lemma OneBeatLess(len: nat, left: nat)
    ensures At(len, left + 1) - len == At(len, left)
    ensures len > 0 ==> (At(len, left) == 0 <==> left == 0)
  {
  }
}
