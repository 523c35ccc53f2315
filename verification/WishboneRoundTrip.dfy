/** What a run of beats leaves in the RAM, and that reading it back gives the bytes written. */
module WishboneRoundTrip {
  import opened Wishbone
  import opened WishboneTransfer

  /** Beats no longer together than a 32-bit streaming width, and one beat only if it is empty: addresses stay apart. */
  predicate Apart(len: nat, n: nat) {
    (len > 0 || n <= 1) && At(len, n) <= 0x1_0000_0000
  }

  lemma {:induction false} AtIncreases(len: nat, i: nat, j: nat)
    requires i < j && len > 0
    ensures At(len, i) + len <= At(len, j)
  {
    if i + 1 < j {
      AtIncreases(len, i, j - 1);
    }
    NextAt(len, j - 1);
  }

  lemma AddressesDiffer(adr: nat, len: nat, n: nat, i: nat, j: nat)
    requires Apart(len, n) && i < j < n
    ensures BeatAddress(adr, len, i) != BeatAddress(adr, len, j)
  {
    AtIncreases(len, i, j);
    AtIncreases(len, j, n);
  }

  predicate Reached(a: nat, adr: nat, len: nat, n: nat) {
    exists i :: 0 <= i < n && BeatAddress(adr, len, i) == a
  }

  /** Word i of a write holds the payload's beat i on its enabled lanes and is unchanged on the others. */
  predicate HoldsBeat(memory: map<nat, Word>, before: Store, blank: Word, adr: nat, len: nat, enables: Enables, i: nat)
    requires BeatFitsAt(|before.data|, true, enables, len, i)
  {
    var a, at := BeatAddress(adr, len, i), At(len, i);
    a in memory
    && memory[a] == Merge(Stored(before.memory, blank, a), OnLanes(before.data[at..at + 4]), EnabledLanes(enables, at))
  }

  /** Addresses that none of n beats reaches are as before. */
  ghost predicate OthersKept(memory: map<nat, Word>, was: map<nat, Word>, adr: nat, len: nat, n: nat) {
    forall a :: !Reached(a, adr, len, n) ==> SameAt(memory, was, a)
  }

  predicate SameAt(memory: map<nat, Word>, was: map<nat, Word>, a: nat) {
    if a in was then a in memory && memory[a] == was[a] else a !in memory
  }

  ghost predicate AllHeld(memory: map<nat, Word>, s: Store, blank: Word, adr: nat, len: nat, enables: Enables, n: nat)
    requires BeatsFit(|s.data|, true, enables, len, n)
  {
    forall i :: 0 <= i < n ==> HoldsBeat(memory, s, blank, adr, len, enables, i)
  }

  /** A write stores each of its beats, one RAM operation each, and touches nothing else. */
  lemma {:induction false} WriteStores(s: Store, blank: Word, adr: nat, len: nat, enables: Enables, n: nat)
    requires Apart(len, n) && BeatsFit(|s.data|, true, enables, len, n)
    ensures var r := AllBeats(s, true, blank, adr, len, enables, n);
            && r.data == s.data && r.wrOps == s.wrOps + n && r.rdOps == s.rdOps
            && AllHeld(r.memory, s, blank, adr, len, enables, n)
            && OthersKept(r.memory, s.memory, adr, len, n)
  {
    if n > 0 {
      NextAt(len, n - 1);
      WriteStores(s, blank, adr, len, enables, n - 1);
      assert BeatFitsAt(|s.data|, true, enables, len, n - 1);
      LastStored(AllBeats(s, true, blank, adr, len, enables, n - 1), s, blank, adr, len, enables, n);
    }
  }

  lemma LastStored(q: Store, s: Store, blank: Word, adr: nat, len: nat, enables: Enables, n: nat)
    requires n > 0 && Apart(len, n) && BeatsFit(|s.data|, true, enables, len, n) && q.data == s.data
    requires AllHeld(q.memory, s, blank, adr, len, enables, n - 1) && OthersKept(q.memory, s.memory, adr, len, n - 1)
    requires BeatFitsAt(|s.data|, true, enables, len, n - 1)
    ensures var r := OneBeat(q, true, blank, BeatAddress(adr, len, n - 1), At(len, n - 1), enables);
            && r.data == s.data && r.wrOps == q.wrOps + 1 && r.rdOps == q.rdOps
            && AllHeld(r.memory, s, blank, adr, len, enables, n)
            && OthersKept(r.memory, s.memory, adr, len, n)
  {
    LastIsNew(adr, len, n);
    WriteHolds(q, s, blank, adr, len, enables, n);
    WriteKeeps(q, s, blank, adr, len, enables, n);
  }

  lemma LastIsNew(adr: nat, len: nat, n: nat)
    requires Apart(len, n) && n > 0
    ensures !Reached(BeatAddress(adr, len, n - 1), adr, len, n - 1)
  {
    forall i | 0 <= i < n - 1 ensures BeatAddress(adr, len, i) != BeatAddress(adr, len, n - 1) {
      AddressesDiffer(adr, len, n, i, n - 1);
    }
  }

  lemma WriteHolds(q: Store, s: Store, blank: Word, adr: nat, len: nat, enables: Enables, n: nat)
    requires n > 0 && BeatsFit(|s.data|, true, enables, len, n) && q.data == s.data
    requires !Reached(BeatAddress(adr, len, n - 1), adr, len, n - 1)
    requires AllHeld(q.memory, s, blank, adr, len, enables, n - 1) && OthersKept(q.memory, s.memory, adr, len, n - 1)
    requires BeatFitsAt(|s.data|, true, enables, len, n - 1)
    ensures AllHeld(OneBeat(q, true, blank, BeatAddress(adr, len, n - 1), At(len, n - 1), enables).memory,
                    s, blank, adr, len, enables, n)
  {
    var last := BeatAddress(adr, len, n - 1);
    var r := OneBeat(q, true, blank, last, At(len, n - 1), enables);
    assert SameAt(q.memory, s.memory, last);
    forall i | 0 <= i < n ensures HoldsBeat(r.memory, s, blank, adr, len, enables, i) {
      if i < n - 1 {
        assert HoldsBeat(q.memory, s, blank, adr, len, enables, i);
        assert BeatAddress(adr, len, i) != last;
      }
    }
  }

  lemma WriteKeeps(q: Store, s: Store, blank: Word, adr: nat, len: nat, enables: Enables, n: nat)
    requires n > 0 && BeatFitsAt(|q.data|, true, enables, len, n - 1)
    requires OthersKept(q.memory, s.memory, adr, len, n - 1)
    ensures OthersKept(OneBeat(q, true, blank, BeatAddress(adr, len, n - 1), At(len, n - 1), enables).memory,
                       s.memory, adr, len, n)
  {
    var last := BeatAddress(adr, len, n - 1);
    var r := OneBeat(q, true, blank, last, At(len, n - 1), enables);
    forall a | !Reached(a, adr, len, n) ensures SameAt(r.memory, s.memory, a) {
      assert a != last;
      assert !Reached(a, adr, len, n - 1);
      assert SameAt(q.memory, s.memory, a);
    }
  }

  /** Every byte that a beat carries. */
  predicate SameBeats(p: seq<Byte>, q: seq<Byte>, len: nat, n: nat) {
    forall i :: 0 <= i < n ==> SameBeat(p, q, len, i)
  }

  predicate SameBeat(p: seq<Byte>, q: seq<Byte>, len: nat, i: nat) {
    BeatBytes(p, At(len, i)) == BeatBytes(q, At(len, i))
  }

  function BeatBytes(p: seq<Byte>, at: nat): seq<Byte> {
    if at + 4 <= |p| then p[at..at + 4] else []
  }

  predicate StoresBeat(memory: map<nat, Word>, data: seq<Byte>, blank: Word, adr: nat, len: nat, i: nat) {
    Stored(memory, blank, BeatAddress(adr, len, i)) == LanesOf(data, At(len, i))
  }

  /** The payload after n beats of a read. */
  function ReadData(memory: map<nat, Word>, blank: Word, adr: nat, len: nat, data: seq<Byte>, n: nat): (r: seq<Byte>)
    requires BeatsFit(|data|, false, AllEnabled, len, n)
    ensures |r| == |data|
  {
    if n == 0 then data else
      assert BeatFitsAt(|data|, false, AllEnabled, len, n - 1);
      Replaced(ReadData(memory, blank, adr, len, data, n - 1), At(len, n - 1),
               FromLanes(Stored(memory, blank, BeatAddress(adr, len, n - 1))))
  }

  lemma {:induction false} ReadsAre(s: Store, blank: Word, adr: nat, len: nat, n: nat)
    requires BeatsFit(|s.data|, false, AllEnabled, len, n)
    ensures AllBeats(s, false, blank, adr, len, AllEnabled, n)
            == s.(data := ReadData(s.memory, blank, adr, len, s.data, n), rdOps := s.rdOps + n)
  {
    if n > 0 {
      ReadsAre(s, blank, adr, len, n - 1);
    }
  }

  predicate AllStored(memory: map<nat, Word>, data: seq<Byte>, blank: Word, adr: nat, len: nat, n: nat) {
    forall i :: 0 <= i < n ==> StoresBeat(memory, data, blank, adr, len, i)
  }

  /** Reading words that hold the beats of a payload gives that payload back, whatever was in the buffer. */
  lemma {:induction false} ReadGives(memory: map<nat, Word>, buffer: seq<Byte>, data: seq<Byte>, blank: Word,
                                     adr: nat, len: nat, n: nat)
    requires |data| == |buffer| && BeatsFit(|buffer|, false, AllEnabled, len, n)
    requires AllStored(memory, data, blank, adr, len, n)
    ensures SameBeats(ReadData(memory, blank, adr, len, buffer, n), data, len, n)
  {
    if n > 0 {
      OneLess(memory, |buffer|, data, blank, adr, len, n);
      ReadGives(memory, buffer, data, blank, adr, len, n - 1);
      var q := ReadData(memory, blank, adr, len, buffer, n - 1);
      LastRead(memory, q, |q|, data, blank, adr, len, n);
    }
  }

  lemma OneLess(memory: map<nat, Word>, size: nat, data: seq<Byte>, blank: Word, adr: nat, len: nat, n: nat)
    requires n > 0 && BeatsFit(size, false, AllEnabled, len, n) && AllStored(memory, data, blank, adr, len, n)
    ensures BeatsFit(size, false, AllEnabled, len, n - 1) && At(len, n - 1) + 4 <= size
    ensures AllStored(memory, data, blank, adr, len, n - 1) && StoresBeat(memory, data, blank, adr, len, n - 1)
  {
    assert BeatFitsAt(size, false, AllEnabled, len, n - 1);
  }

  lemma LastRead(memory: map<nat, Word>, q: seq<Byte>, size: nat, data: seq<Byte>, blank: Word, adr: nat, len: nat,
                 n: nat)
    requires n > 0 && |data| == |q| == size && BeatsFit(size, false, AllEnabled, len, n)
    requires SameBeats(q, data, len, n - 1)
    requires At(len, n - 1) + 4 <= size && StoresBeat(memory, data, blank, adr, len, n - 1)
    ensures SameBeats(Replaced(q, At(len, n - 1), FromLanes(Stored(memory, blank, BeatAddress(adr, len, n - 1)))),
                      data, len, n)
  {
    var at := At(len, n - 1);
    LanesThereAndBack(data[at..at + 4]);
    ReadStep(q, data, len, n);
  }

  lemma ReadStep(q: seq<Byte>, data: seq<Byte>, len: nat, n: nat)
    requires n > 0 && |data| == |q| && BeatsFit(|q|, false, AllEnabled, len, n) && SameBeats(q, data, len, n - 1)
    requires At(len, n - 1) + 4 <= |q|
    ensures SameBeats(Replaced(q, At(len, n - 1), data[At(len, n - 1)..At(len, n - 1) + 4]), data, len, n)
  {
    var at := At(len, n - 1);
    var r := Replaced(q, at, data[at..at + 4]);
    forall i | 0 <= i < n ensures SameBeat(r, data, len, i) {
      assert BeatFitsAt(|q|, false, AllEnabled, len, i);
      if i < n - 1 {
        assert SameBeat(q, data, len, i);
        ReplacedKeeps(q, at, data, At(len, i));
      }
    }
  }

  function LanesOf(data: seq<Byte>, at: nat): Word {
    if at + 4 <= |data| then OnLanes(data[at..at + 4]) else [0, 0, 0, 0]
  }

  /** Putting in bytes of data leaves right what was right, overlapping or not. */
  lemma ReplacedKeeps(q: seq<Byte>, at: nat, data: seq<Byte>, p: nat)
    requires |q| == |data| && at + 4 <= |data| && p + 4 <= |data| && q[p..p + 4] == data[p..p + 4]
    ensures Replaced(q, at, data[at..at + 4])[p..p + 4] == data[p..p + 4]
  {
    var r := Replaced(q, at, data[at..at + 4]);
    forall k | p <= k < p + 4 ensures r[k] == data[k] {
      assert q[k] == q[p..p + 4][k - p] == data[p..p + 4][k - p];
      if at <= k < at + 4 {
        assert data[at..at + 4][k - at] == data[k];
      }
    }
  }

  lemma LanesThereAndBack(bytes: seq<Byte>)
    requires |bytes| == 4
    ensures FromLanes(OnLanes(bytes)) == bytes
  {
  }

  // Byte by byte.

  /** Byte k of a beat is on lane 3 - k when its own enable says so, and otherwise the lane is what it was. */
  predicate ByteOnLane(word: Word, was: Word, data: seq<Byte>, enables: Enables, at: nat, k: nat)
    requires k < 4 && at + 4 <= |data| && EnablesCover(enables, at + 4)
  {
    word[3 - k] == if enables.AllEnabled? || enables.bytes[at + k] == 0xff then data[at + k] else was[3 - k]
  }

  /** A write stores each byte of each beat on its own lane exactly when its own enable is 0xff, or none are given. */
  lemma WriteStoresBytes(s: Store, blank: Word, adr: nat, len: nat, enables: Enables, n: nat, i: nat, k: nat)
    requires Apart(len, n) && BeatsFit(|s.data|, true, enables, len, n) && i < n && k < 4
    ensures BeatFitsAt(|s.data|, true, enables, len, i)
    ensures var a, r := BeatAddress(adr, len, i), AllBeats(s, true, blank, adr, len, enables, n);
            ByteOnLane(Stored(r.memory, blank, a), Stored(s.memory, blank, a), s.data, enables, At(len, i), k)
  {
    WriteStores(s, blank, adr, len, enables, n);
    assert BeatFitsAt(|s.data|, true, enables, len, i);
    var a, memory := BeatAddress(adr, len, i), AllBeats(s, true, blank, adr, len, enables, n).memory;
    assert HoldsBeat(memory, s, blank, adr, len, enables, i);
    MergedByte(Stored(memory, blank, a), Stored(s.memory, blank, a), s.data, enables, At(len, i), k);
  }

  lemma MergedByte(word: Word, was: Word, data: seq<Byte>, enables: Enables, at: nat, k: nat)
    requires k < 4 && at + 4 <= |data| && EnablesCover(enables, at + 4)
    requires word == Merge(was, OnLanes(data[at..at + 4]), EnabledLanes(enables, at))
    ensures ByteOnLane(word, was, data, enables, at, k)
  {
    assert data[at..at + 4][k] == data[at + k];
  }

  /** No beat from the i-th on puts anything into byte x of the payload. */
  predicate Uncovered(len: nat, n: nat, i: nat, x: nat) {
    forall j :: i <= j < n ==> !(At(len, j) <= x < At(len, j) + 4)
  }

  lemma {:induction false} UncoveredKept(s: Store, blank: Word, adr: nat, len: nat, n: nat, i: nat, x: nat)
    requires BeatsFit(|s.data|, false, AllEnabled, len, n) && i <= n && x < |s.data| && Uncovered(len, n, i, x)
    ensures BeatsFit(|s.data|, false, AllEnabled, len, i)
    ensures ReadData(s.memory, blank, adr, len, s.data, n)[x] == ReadData(s.memory, blank, adr, len, s.data, i)[x]
    decreases n
  {
    if i < n {
      assert BeatFitsAt(|s.data|, false, AllEnabled, len, n - 1);
      assert !(At(len, n - 1) <= x < At(len, n - 1) + 4);
      UncoveredKept(s, blank, adr, len, n - 1, i, x);
    }
  }

  /** A read puts lane 3 - k of the word of a beat into byte k of that beat, unless a later beat covers the byte. */
  lemma ReadGivesBytes(s: Store, blank: Word, adr: nat, len: nat, n: nat, i: nat, k: nat, x: nat)
    requires BeatsFit(|s.data|, false, AllEnabled, len, n) && i < n && k < 4
    requires x == At(len, i) + k && Uncovered(len, n, i + 1, x)
    ensures x < |s.data|
    ensures AllBeats(s, false, blank, adr, len, AllEnabled, n).data[x]
            == Stored(s.memory, blank, BeatAddress(adr, len, i))[3 - k]
  {
    assert BeatFitsAt(|s.data|, false, AllEnabled, len, i);
    ReadsAre(s, blank, adr, len, n);
    UncoveredKept(s, blank, adr, len, n, i + 1, x);
    LastReplaced(s, blank, adr, len, i, k, x);
  }

  /** And it leaves the RAM and the bytes no beat covers. */
  lemma ReadKeepsBytes(s: Store, blank: Word, adr: nat, len: nat, n: nat, x: nat)
    requires BeatsFit(|s.data|, false, AllEnabled, len, n) && x < |s.data| && Uncovered(len, n, 0, x)
    ensures var r := AllBeats(s, false, blank, adr, len, AllEnabled, n);
            r.memory == s.memory && r.data[x] == s.data[x]
  {
    ReadsAre(s, blank, adr, len, n);
    UncoveredKept(s, blank, adr, len, n, 0, x);
  }

  lemma LastReplaced(s: Store, blank: Word, adr: nat, len: nat, i: nat, k: nat, x: nat)
    requires BeatsFit(|s.data|, false, AllEnabled, len, i + 1) && BeatsFit(|s.data|, false, AllEnabled, len, i) && k < 4
    requires At(len, i) + 4 <= |s.data| && x == At(len, i) + k
    ensures ReadData(s.memory, blank, adr, len, s.data, i + 1)[x]
            == Stored(s.memory, blank, BeatAddress(adr, len, i))[3 - k]
  {
  }

  /** The same for a whole write through b_transport. */
  method WriteBytes(bench: Bench, address: nat, data: array<Byte>, len: nat, enables: Enables, width: nat)
    returns (ok: bool)
    requires bench.IsQuiet() && bench.Running() && Ends(len, width) && Apart(len, Beats(len, width))
    requires BeatsFit(data.Length, true, enables, len, Beats(len, width))
    modifies bench.bridge, bench.ram, data
    ensures ok <==> bench.bridge.timeout >= 3
                    && AllInRange(address / 4, len, Beats(len, width), bench.ram.memSize)
    ensures ok ==>
      forall i, k :: 0 <= i < Beats(len, width) && 0 <= k < 4 ==>
        && BeatFitsAt(data.Length, true, enables, len, i)
        && var a := BeatAddress(address / 4, len, i);
           ByteOnLane(Stored(bench.ram.memory, bench.ram.blank, a), Stored(old(bench.ram.memory), bench.ram.blank, a),
                      old(data[..]), enables, At(len, i), k)
  {
    ghost var n := Beats(len, width);
    ghost var before := Store(bench.ram.memory, data[..], bench.ram.wrOps, bench.ram.rdOps);
    var outcome := bench.Transport(Write, address, data, len, enables, width);
    if outcome == Done {
      forall i, k | 0 <= i < n && 0 <= k < 4
        ensures BeatFitsAt(data.Length, true, enables, len, i)
        ensures var a := BeatAddress(address / 4, len, i);
                ByteOnLane(Stored(bench.ram.memory, bench.ram.blank, a), Stored(before.memory, bench.ram.blank, a),
                           before.data, enables, At(len, i), k)
      {
        WriteStoresBytes(before, bench.ram.blank, address / 4, len, enables, n, i, k);
      }
    }
    return outcome == Done;
  }

  /** A write with all bytes enabled, then a read of the same address and shape: the buffer holds what was written. */
  lemma RoundTrip(s: Store, buffer: seq<Byte>, blank: Word, adr: nat, len: nat, n: nat)
    requires Apart(len, n) && BeatsFit(|s.data|, true, AllEnabled, len, n) && |buffer| == |s.data|
    ensures BeatsFit(|s.data|, false, AllEnabled, len, n)
    ensures var w := AllBeats(s, true, blank, adr, len, AllEnabled, n);
            var r := AllBeats(w.(data := buffer), false, blank, adr, len, AllEnabled, n);
            && SameBeats(r.data, s.data, len, n) && r.memory == w.memory
            && r.wrOps == s.wrOps + n && r.rdOps == s.rdOps + n
  {
    assert BeatsFit(|s.data|, false, AllEnabled, len, n) by {
      forall i | 0 <= i < n ensures BeatFitsAt(|s.data|, false, AllEnabled, len, i) {
        assert BeatFitsAt(|s.data|, true, AllEnabled, len, i);
      }
    }
    WriteStores(s, blank, adr, len, AllEnabled, n);
    var w := AllBeats(s, true, blank, adr, len, AllEnabled, n);
    forall i | 0 <= i < n ensures StoresBeat(w.memory, s.data, blank, adr, len, i) {
      assert BeatFitsAt(|s.data|, true, AllEnabled, len, i);
      assert HoldsBeat(w.memory, s, blank, adr, len, AllEnabled, i);
    }
    ReadsAre(w.(data := buffer), blank, adr, len, n);
    ReadGives(w.memory, buffer, s.data, blank, adr, len, n);
  }

  /** Beats of four bytes leave no gaps: the whole block comes back. */
  lemma BlockRoundTrip(s: Store, buffer: seq<Byte>, blank: Word, adr: nat, n: nat)
    requires Apart(4, n) && |buffer| == |s.data| == 4 * n
    ensures BeatsFit(|s.data|, true, AllEnabled, 4, n) && BeatsFit(|s.data|, false, AllEnabled, 4, n)
    ensures var w := AllBeats(s, true, blank, adr, 4, AllEnabled, n);
            AllBeats(w.(data := buffer), false, blank, adr, 4, AllEnabled, n).data == s.data
  {
    forall write, i | 0 <= i < n ensures BeatFitsAt(|s.data|, write, AllEnabled, 4, i) {
      AtIsProduct(4, i);
    }
    RoundTrip(s, buffer, blank, adr, 4, n);
    var w := AllBeats(s, true, blank, adr, 4, AllEnabled, n);
    SameBlock(AllBeats(w.(data := buffer), false, blank, adr, 4, AllEnabled, n).data, s.data, n);
  }

  /** The same on the bridge: a write and a read of the same address and shape through b_transport. */
  method WriteThenRead(bench: Bench, address: nat, data: array<Byte>, buffer: array<Byte>, len: nat, width: nat)
    returns (ok: bool)
    requires bench.IsQuiet() && bench.Running() && Ends(len, width) && Apart(len, Beats(len, width))
    requires data != buffer && data.Length == buffer.Length
    requires BeatsFit(data.Length, true, AllEnabled, len, Beats(len, width))
    modifies bench.bridge, bench.ram, data, buffer
    ensures ok <==> bench.bridge.timeout >= 3
                    && AllInRange(address / 4, len, Beats(len, width), bench.ram.memSize)
    ensures ok ==> data[..] == old(data[..]) && SameBeats(buffer[..], data[..], len, Beats(len, width))
    ensures ok && len == 4 && width == data.Length > 0 ==> buffer[..] == data[..]
  {
    ghost var n := Beats(len, width);
    ghost var before := Store(bench.ram.memory, data[..], bench.ram.wrOps, bench.ram.rdOps);
    var outcome := bench.Transport(Write, address, data, len, AllEnabled, width);
    if outcome != Done {
      return false;
    }
    RoundTrip(before, buffer[..], bench.ram.blank, address / 4, len, n);
    WriteStores(before, bench.ram.blank, address / 4, len, AllEnabled, n);
    outcome := bench.Transport(Read, address, buffer, len, AllEnabled, width);
    if len == 4 && width == data.Length && outcome == Done {
      SameBlock(buffer[..], data[..], n);
    }
    return outcome == Done;
  }

  lemma SameBlock(p: seq<Byte>, q: seq<Byte>, n: nat)
    requires |p| == |q| == 4 * n && SameBeats(p, q, 4, n)
    ensures p == q
  {
    forall k | 0 <= k < 4 * n ensures p[k] == q[k] {
      var i := k / 4;
      AtIsProduct(4, i);
      assert SameBeat(p, q, 4, i);
      assert p[k] == p[4 * i..4 * i + 4][k % 4] && q[k] == q[4 * i..4 * i + 4][k % 4];
    }
  }

  /** Beat i lands on the i-th word after the first exactly when stepping by bytes and by words wrap around together. */
  lemma BeatLandsIff(adr: nat, len: nat, i: nat)
    ensures BeatAddress(adr, len, i) == (adr + i) % 0x1_0000_0000 <==> (At(len, i) - i) % 0x1_0000_0000 == 0
  {
    SameResidue(adr + At(len, i), adr + i);
  }

  lemma SameResidue(x: int, y: int)
    ensures x % 0x1_0000_0000 == y % 0x1_0000_0000 <==> (x - y) % 0x1_0000_0000 == 0
  {
  }

  /** So with beats of four bytes only the first word of a block shorter than four gigabytes is where it belongs. */
  lemma FourByteBeats(adr: nat, i: nat)
    requires i < 0x4000_0000
    ensures BeatAddress(adr, 4, i) == (adr + i) % 0x1_0000_0000 <==> i == 0
  {
    BeatLandsIff(adr, 4, i);
    AtIsProduct(4, i);
  }

  /** A write of two beats leaves the word four bytes on as it was: a read there finds it, and not the second beat. */
  lemma SecondBeatElsewhere(s: Store, buffer: seq<Byte>, blank: Word, adr: nat)
    requires |s.data| == 8 && |buffer| == 4 && adr + 4 < 0x1_0000_0000
    ensures BeatsFit(8, true, AllEnabled, 4, 2) && BeatsFit(4, false, AllEnabled, 4, 1)
    ensures var w := AllBeats(s, true, blank, adr, 4, AllEnabled, 2).(data := buffer);
            && AllBeats(w, false, blank, adr + 1, 4, AllEnabled, 1).data
               == FromLanes(Stored(s.memory, blank, adr + 1))
            && AllBeats(w, false, blank, adr + 4, 4, AllEnabled, 1).data == s.data[4..]
  {
    assert At(4, 1) == 4 && At(4, 2) == 8;
    assert BeatFitsAt(8, true, AllEnabled, 4, 0) && BeatFitsAt(8, true, AllEnabled, 4, 1);
    assert BeatFitsAt(4, false, AllEnabled, 4, 0);
    var w := AllBeats(s, true, blank, adr, 4, AllEnabled, 2).(data := buffer);
    TwoBeats(s, blank, adr);
    OneRead(w, blank, adr + 1);
    OneRead(w, blank, adr + 4);
    LanesThereAndBack(s.data[4..]);
  }

  lemma TwoBeats(s: Store, blank: Word, adr: nat)
    requires |s.data| == 8 && adr + 4 < 0x1_0000_0000 && BeatsFit(8, true, AllEnabled, 4, 2)
    ensures var w := AllBeats(s, true, blank, adr, 4, AllEnabled, 2).memory;
            Stored(w, blank, adr + 1) == Stored(s.memory, blank, adr + 1)
            && Stored(w, blank, adr + 4) == OnLanes(s.data[4..8])
  {
    WriteStores(s, blank, adr, 4, AllEnabled, 2);
    var w := AllBeats(s, true, blank, adr, 4, AllEnabled, 2).memory;
    assert At(4, 1) == 4;
    assert BeatFitsAt(8, true, AllEnabled, 4, 1) && HoldsBeat(w, s, blank, adr, 4, AllEnabled, 1);
    assert !Reached(adr + 1, adr, 4, 2);
    assert SameAt(w, s.memory, adr + 1);
  }

  lemma OneRead(w: Store, blank: Word, a: nat)
    requires |w.data| == 4 && a < 0x1_0000_0000 && BeatsFit(4, false, AllEnabled, 4, 1)
    ensures AllBeats(w, false, blank, a, 4, AllEnabled, 1).data == FromLanes(Stored(w.memory, blank, a))
  {
    ReadsAre(w, blank, a, 4, 1);
    OneBeatData(w.memory, blank, a, w.data);
  }

  lemma OneBeatData(memory: map<nat, Word>, blank: Word, a: nat, data: seq<Byte>)
    requires |data| == 4 && a < 0x1_0000_0000 && BeatsFit(4, false, AllEnabled, 4, 1)
    ensures ReadData(memory, blank, a, 4, data, 1) == FromLanes(Stored(memory, blank, a))
  {
    assert ReadData(memory, blank, a, 4, data, 0) == data;
    WholeReplaced(data, FromLanes(Stored(memory, blank, a)));
  }

  lemma WholeReplaced(data: seq<Byte>, word: seq<Byte>)
    requires |data| == |word| == 4
    ensures Replaced(data, 0, word) == word
  {
  }
}
