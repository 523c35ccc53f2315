/** rotating_file_sink over a directory of files. */
module RotatingSink {
  import opened LogFiles

  /** Whether the attempt to rename file index - 1 to index succeeds, first time and second time. */
  type Renames = (nat, nat) -> bool

  predicate Works(renames: Renames, i: nat) {
    renames(i, 0) || renames(i, 1)
  }

  predicate AllWork(renames: Renames, max: nat) {
    forall i :: 0 < i <= max ==> Works(renames, i)
  }

  predicate SameEntry(now: map<string, string>, was: map<string, string>, name: string) {
    if name in was then name in now && now[name] == was[name] else name !in now
  }

  /** Files of other names are left alone. */
  ghost predicate OthersSame(names: seq<string>, now: map<string, string>, was: map<string, string>) {
    forall name :: name !in names ==> SameEntry(now, was, name)
  }

  lemma OthersTrans(names: seq<string>, a: map<string, string>, b: map<string, string>, c: map<string, string>)
    requires OthersSame(names, a, b) && OthersSame(names, b, c)
    ensures OthersSame(names, a, c)
  {
    forall name | name !in names ensures SameEntry(a, c, name) {
      assert SameEntry(a, b, name) && SameEntry(b, c, name);
    }
  }

  predicate Holds(files: map<string, string>, name: string, slot: Slot) {
    match slot
    case Missing => name !in files
    case File(ms) => name in files && files[name] == Flatten(ms)
  }

  /** The files of these names hold these messages. */
  ghost predicate Tracks(names: seq<string>, files: map<string, string>, slots: seq<Slot>) {
    |slots| == |names| && forall k :: 0 <= k < |names| ==> Holds(files, names[k], slots[k])
  }

  /** Within the limit, or a single message. */
  predicate Fits(slot: Slot, maxSize: nat) {
    |Flatten(In(slot))| <= maxSize || |In(slot)| <= 1
  }

  ghost predicate Sized(slots: seq<Slot>, maxSize: nat) {
    forall k :: 0 <= k < |slots| ==> Fits(slots[k], maxSize)
  }

  /** Where the messages are when the files from the oldest down to i have been moved up. */
  ghost predicate MovedUp(now: seq<Slot>, was: seq<Slot>, i: nat) {
    && |now| == |was| && i < |was| && now[..i] == was[..i]
    && now[i] == (if i < |was| - 1 then Missing else was[i])
    && forall k :: i < k < |was| ==> now[k] == FromBelow(was, k)
  }

  function MovedFrom(slots: seq<Slot>, i: nat): seq<Slot>
    requires 0 < i < |slots|
  {
    slots[i := slots[i - 1]][i - 1 := Missing]
  }

  lemma MovedOne(now: seq<Slot>, was: seq<Slot>, i: nat)
    requires 0 < i && MovedUp(now, was, i)
    ensures now[i - 1].File? ==> MovedUp(MovedFrom(now, i), was, i - 1)
    ensures now[i - 1].Missing? ==> MovedUp(now, was, i - 1)
  {
    assert now[i - 1] == now[..i][i - 1] == was[..i][i - 1] == was[i - 1];
    assert now[..i][..i - 1] == now[..i - 1] && was[..i][..i - 1] == was[..i - 1];
    if now[i - 1].File? {
      assert MovedFrom(now, i)[..i - 1] == now[..i - 1];
    }
  }

  lemma RotationKeeps(now: seq<Slot>, was: seq<Slot>, history: seq<string>)
    requires Rotated(now, was) && IsSuffix(Newest(was), history)
    ensures IsSuffix(Newest(now), history)
  {
    RotatedSuffix(now, was);
    SuffixTrans(Newest(now), Newest(was), history);
  }

  /** A rotation, then one message in the empty file 0. */
  ghost predicate RotatedWith(now: seq<Slot>, was: seq<Slot>, msg: string) {
    now != [] && now[0] == File([msg]) && Rotated(now[0 := File([])], was)
  }

  lemma RotatedThen(rotated: seq<Slot>, was: seq<Slot>, msg: string)
    requires Rotated(rotated, was)
    ensures RotatedWith(rotated[0 := File(rotated[0].messages + [msg])], was, msg)
  {
    assert rotated[0 := File(rotated[0].messages + [msg])][0 := File([])] == rotated;
  }

  /** The names calc_filename gives, all different. */
  ghost predicate NamesOf(names: seq<string>, name: string, maxFiles: nat) {
    && |names| == maxFiles + 1
    && (forall k {:trigger CalcFilename(name, k)} :: 0 <= k <= maxFiles ==> names[k] == CalcFilename(name, k))
    && (forall i, j :: 0 <= i < j <= maxFiles ==> names[i] != names[j])
  }

  class RotatingFileSink {
    const baseFilename: string
    const maxSize: nat
    const maxFiles: nat
    var files: map<string, string>
    var currentSize: nat
    ghost const names: seq<string>    // the names of the files, file 0 first
    ghost var slots: seq<Slot>        // the messages in each file
    ghost var history: seq<string>    // every message since the log began, and what was there before

    ghost predicate Named() {
      NamesOf(names, baseFilename, maxFiles)
    }

    ghost predicate Valid()
      reads this
    {
      && Named() && Tracks(names, files, slots) && Sized(slots, maxSize) && slots[0].File?
      && |Flatten(slots[0].messages)| <= currentSize
      && IsSuffix(Newest(slots), history)
    }

    /** Opening: file 0 is created unless it is there, and its size is taken. */
    constructor (baseFilename: string, maxSize: nat, maxFiles: nat, files: map<string, string>)
      ensures this.baseFilename == baseFilename && this.maxSize == maxSize && this.maxFiles == maxFiles
      ensures this.files == if baseFilename in files then files else files[baseFilename := ""]
      ensures Valid() && currentSize == |this.files[baseFilename]|
      ensures history == Newest(slots)
    {
      this.baseFilename, this.maxSize, this.maxFiles := baseFilename, maxSize, maxFiles;
      names := AllNames(baseFilename, maxFiles + 1);
      var dir := if baseFilename in files then files else files[baseFilename := ""];
      this.files := dir;
      currentSize := |dir[baseFilename]|;
      slots := FoundAll(AllNames(baseFilename, maxFiles + 1), dir);
      history := Newest(FoundAll(AllNames(baseFilename, maxFiles + 1), dir));
      new;
      OpenedIsValid(baseFilename, maxFiles, dir, maxSize);
    }

    /** os::remove of file i; its outcome is ignored. */
    method Remove(i: nat)
      requires i <= maxFiles && Named() && Tracks(names, files, slots)
      modifies `files, `slots
      ensures Tracks(names, files, slots) && OthersSame(names, files, old(files)) && slots == old(slots)[i := Missing]
    {
      files := files - {CalcFilename(baseFilename, i)};
      slots := slots[i := Missing];
    }

    /** os::rename of file i - 1 to the free name i. */
    method Move(i: nat)
      requires 0 < i <= maxFiles && Named() && Tracks(names, files, slots) && slots[i - 1].File? && slots[i].Missing?
      modifies `files, `slots
      ensures Tracks(names, files, slots) && OthersSame(names, files, old(files)) && slots == MovedFrom(old(slots), i)
    {
      var src, target := CalcFilename(baseFilename, i - 1), CalcFilename(baseFilename, i);
      files := (files - {src})[target := files[src]];
      slots := MovedFrom(slots, i);
    }

    /** rename_file_: the target is deleted first, whether or not the renaming then works. */
    method RenameFile(i: nat, works: bool) returns (ok: bool)
      requires 0 < i <= maxFiles && Named() && Tracks(names, files, slots) && slots[i - 1].File?
      modifies `files, `slots
      ensures Tracks(names, files, slots) && ok == works && OthersSame(names, files, old(files))
      ensures slots == if works then MovedFrom(old(slots), i) else old(slots)[i := Missing]
    {
      Remove(i);
      if works {
        Move(i);
        assert slots == MovedFrom(old(slots), i);
      }
      return works;
    }

    /** Two attempts at one file. */
    method RenameTwice(i: nat, renames: Renames) returns (ok: bool)
      requires 0 < i <= maxFiles && Named() && Tracks(names, files, slots) && slots[i - 1].File?
      modifies `files, `slots
      ensures Tracks(names, files, slots) && ok == Works(renames, i) && OthersSame(names, files, old(files))
      ensures slots == if ok then MovedFrom(old(slots), i) else old(slots)[i := Missing]
    {
      ok := RenameFile(i, renames(i, 0));
      if !ok {
        ghost var dir := files;
        ok := RenameFile(i, renames(i, 1));
        OthersTrans(names, files, dir, old(files));
        assert slots == if ok then MovedFrom(old(slots), i) else old(slots)[i := Missing];
      }
    }

    /** One turn of the loop of rotate_: a file that exists moves up. */
    method MoveOneUp(i: nat, renames: Renames) returns (ok: bool)
      requires 0 < i <= maxFiles && Named() && Tracks(names, files, slots) && Sized(slots, maxSize)
      modifies `files, `slots
      ensures Tracks(names, files, slots) && Sized(slots, maxSize) && OthersSame(names, files, old(files))
      ensures ok ==> slots == if old(slots[i - 1]).File? then MovedFrom(old(slots), i) else old(slots)
      ensures Works(renames, i) ==> ok
    {
      ok := true;
      if CalcFilename(baseFilename, i - 1) in files {
        ok := RenameTwice(i, renames);
      } else {
        assert forall name :: SameEntry(files, old(files), name);
      }
    }

    /** The loop of rotate_: from the oldest file down, each existing file is renamed one up, until that fails. */
    method MoveUp(renames: Renames) returns (ok: bool)
      requires Named() && Tracks(names, files, slots) && Sized(slots, maxSize)
      modifies `files, `slots
      ensures Tracks(names, files, slots) && Sized(slots, maxSize) && OthersSame(names, files, old(files))
      ensures ok ==> MovedUp(slots, old(slots), 0)
      ensures AllWork(renames, maxFiles) ==> ok
    {
      var i := maxFiles;
      while i > 0
        invariant 0 <= i <= maxFiles
        invariant Tracks(names, files, slots) && Sized(slots, maxSize) && OthersSame(names, files, old(files))
        invariant MovedUp(slots, old(slots), i)
      {
        MovedOne(slots, old(slots), i);
        ghost var dir := files;
        ok := MoveOneUp(i, renames);
        OthersTrans(names, files, dir, old(files));
        if !ok {
          return;
        }
        i := i - 1;
      }
      ok := true;
    }

    /** Truncating file 0, as reopen(true) does. */
    method Truncate()
      requires Named() && Tracks(names, files, slots)
      modifies `files, `slots
      ensures Tracks(names, files, slots) && OthersSame(names, files, old(files)) && slots == old(slots)[0 := File([])]
    {
      files := files[CalcFilename(baseFilename, 0) := ""];
      slots := slots[0 := File([])];
    }

    /**
     rotate_: every file one up and file 0 empty. If a renaming fails twice file 0 is emptied all the same and the call
     fails; the log then goes on from what is left.
     */
    method Rotate(renames: Renames) returns (ok: bool)
      requires Valid()
      modifies `files, `slots, `currentSize, `history
      ensures Valid() && slots[0] == File([]) && OthersSame(names, files, old(files))
      ensures ok ==> Rotated(slots, old(slots)) && history == old(history) && currentSize == old(currentSize)
      ensures !ok ==> currentSize == 0 && history == Newest(slots)
      ensures AllWork(renames, maxFiles) ==> ok
    {
      ok := MoveUp(renames);
      ghost var dir := files;
      Truncate();
      OthersTrans(names, files, dir, old(files));
      if ok {
        RotationKeeps(slots, old(slots), history);
      } else {
        currentSize := 0;
        history := Newest(slots);
      }
    }

    /** file_helper::write, to file 0. */
    method Write(msg: string)
      requires Named() && Tracks(names, files, slots) && slots[0].File?
      modifies `files, `slots
      ensures Tracks(names, files, slots) && OthersSame(names, files, old(files))
      ensures slots == old(slots)[0 := File(old(slots[0].messages) + [msg])]
      ensures Flatten(slots[0].messages) == old(Flatten(slots[0].messages)) + msg
    {
      var name := CalcFilename(baseFilename, 0);
      ghost var ms := slots[0].messages;
      assert (ms + [msg])[..|ms|] == ms;
      files := files[name := files[name] + msg];
      slots := slots[0 := File(ms + [msg])];
    }

    /** The second half of the constructor: rotate_on_open, which leaves current_size_ as it was. */
    method RotateOnOpen(renames: Renames) returns (ok: bool)
      requires Valid()
      modifies `files, `slots, `currentSize, `history
      ensures Valid() && OthersSame(names, files, old(files))
      ensures ok ==> history == old(history)
      ensures ok ==> if old(currentSize) > 0 then Rotated(slots, old(slots)) else slots == old(slots)
      ensures AllWork(renames, maxFiles) ==> ok
    {
      ok := true;
      if currentSize > 0 {
        ok := Rotate(renames);
      } else {
        assert forall name :: SameEntry(files, old(files), name);
      }
    }

    /** The end of sink_it_: the message goes to file 0, whose size counts it already. */
    method Append(msg: string)
      requires Named() && Tracks(names, files, slots) && Sized(slots, maxSize) && slots[0].File?
      requires |Flatten(slots[0].messages)| + |msg| <= currentSize
      requires currentSize <= maxSize || slots[0].messages == []
      requires IsSuffix(Newest(slots), history)
      modifies `files, `slots, `history
      ensures Valid() && OthersSame(names, files, old(files)) && history == old(history) + [msg]
      ensures slots == old(slots)[0 := File(old(slots[0].messages) + [msg])]
    {
      NewestAppend(slots, msg, maxFiles);
      assert slots[..maxFiles + 1] == slots;
      SuffixAppend(Newest(slots), history, msg);
      Write(msg);
      assert slots[..maxFiles + 1] == slots;
      history := history + [msg];
    }

    /**
     sink_it_ with the formatted message: it is the log's last, and the files change by nothing but one rotation when
     the limit would be passed.
     */
    method SinkIt(msg: string, renames: Renames) returns (ok: bool)
      requires Valid()
      modifies `files, `slots, `currentSize, `history
      ensures Valid() && OthersSame(names, files, old(files))
      ensures ok ==> history == old(history) + [msg]
      ensures ok ==> currentSize == if old(currentSize) + |msg| <= maxSize then old(currentSize) + |msg| else |msg|
      ensures ok && old(currentSize) + |msg| <= maxSize ==>
                slots == old(slots)[0 := File(old(slots[0].messages) + [msg])]
      ensures ok && old(currentSize) + |msg| > maxSize ==> RotatedWith(slots, old(slots), msg)
      ensures !ok ==> slots[0] == File([]) && currentSize == 0 && history == Newest(slots)
      ensures AllWork(renames, maxFiles) ==> ok
    {
      currentSize := currentSize + |msg|;
      ghost var dir := files;
      if currentSize > maxSize {
        ok := Rotate(renames);
        if !ok {
          return;
        }
        currentSize := |msg|;
        dir := files;
        RotatedThen(slots, old(slots), msg);
      }
      ok := true;
      Append(msg);
      OthersTrans(names, files, dir, old(files));
    }
  }

  // Finding what is there, and reading all of it.

  function AllNames(name: string, n: nat): (r: seq<string>)
    ensures |r| == n
    ensures forall k :: 0 <= k < n ==> r[k] == CalcFilename(name, k)
  {
    seq(n, k requires 0 <= k => CalcFilename(name, k))
  }

  lemma NamesAreDistinct(name: string, n: nat)
    ensures forall i, j :: 0 <= i < j < n ==> AllNames(name, n)[i] != AllNames(name, n)[j]
  {
    forall i, j | 0 <= i < j < n ensures AllNames(name, n)[i] != AllNames(name, n)[j] {
      NamesDiffer(name, i, j);
    }
  }

  /** A file found at the start counts as one message. */
  function Found(name: string, files: map<string, string>): Slot {
    if name in files then File([files[name]]) else Missing
  }

  function FoundAll(names: seq<string>, files: map<string, string>): (r: seq<Slot>)
    ensures |r| == |names|
    ensures forall k :: 0 <= k < |r| ==> r[k] == Found(names[k], files)
  {
    seq(|names|, k requires 0 <= k < |names| => Found(names[k], files))
  }

  lemma FoundTracks(names: seq<string>, files: map<string, string>, maxSize: nat)
    ensures Tracks(names, files, FoundAll(names, files)) && Sized(FoundAll(names, files), maxSize)
    ensures forall k :: 0 <= k < |names| && names[k] in files ==>
              Flatten(FoundAll(names, files)[k].messages) == files[names[k]]
  {
    forall k | 0 <= k < |names| && names[k] in files
      ensures Flatten(FoundAll(names, files)[k].messages) == files[names[k]]
    {
      assert [files[names[k]]][..0] == [];
    }
  }

  /** The files as found at the start, the log's own file among them. */
  lemma OpenedIsValid(name: string, maxFiles: nat, files: map<string, string>, maxSize: nat)
    requires name in files
    ensures var names := AllNames(name, maxFiles + 1);
            var slots := FoundAll(names, files);
            && NamesOf(names, name, maxFiles) && Tracks(names, files, slots) && Sized(slots, maxSize)
            && slots[0].File? && |Flatten(slots[0].messages)| == |files[name]|
            && IsSuffix(Newest(slots), Newest(slots))
  {
    var names := AllNames(name, maxFiles + 1);
    NamesAreDistinct(name, maxFiles + 1);
    FoundTracks(names, files, maxSize);
    assert names[0] == CalcFilename(name, 0) == name;
  }

  /** The bytes of the files of these names, the last name first. */
  function OnDisk(names: seq<string>, files: map<string, string>): string {
    if names == [] then "" else
      var n := |names| - 1;
      (if names[n] in files then files[names[n]] else "") + OnDisk(names[..n], files)
  }

  lemma {:induction false} OnDiskIsNewest(names: seq<string>, files: map<string, string>, slots: seq<Slot>)
    requires Tracks(names, files, slots)
    ensures OnDisk(names, files) == Flatten(Newest(slots))
  {
    if names != [] {
      var n := |names| - 1;
      OnDiskIsNewest(names[..n], files, slots[..n]);
      assert Holds(files, names[n], slots[n]);
      FlattenAppend(In(slots[n]), Newest(slots[..n]));
    }
  }

  /** The files, oldest first, hold the last messages of the log, whole. */
  lemma LogIsSuffix(names: seq<string>, files: map<string, string>, slots: seq<Slot>, history: seq<string>)
    requires Tracks(names, files, slots) && IsSuffix(Newest(slots), history)
    ensures exists d :: 0 <= d <= |history| && OnDisk(names, files) == Flatten(history[d..])
  {
    OnDiskIsNewest(names, files, slots);
    var d := |history| - |Newest(slots)|;
    assert Newest(slots) == history[d..];
  }
}
