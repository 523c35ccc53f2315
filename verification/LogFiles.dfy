/** Names and contents of rotated log files. */
module LogFiles {
  import opened DecimalText

  const FOLDER_SEP := '/'

  /** The last position of c in s, or -1. */
  function RFind(s: string, c: char): (p: int)
    ensures -1 <= p < |s|
    ensures p >= 0 ==> s[p] == c
    ensures forall k :: p < k < |s| ==> s[k] != c
  {
    if s == [] then -1 else if s[|s| - 1] == c then |s| - 1 else RFind(s[..|s| - 1], c)
  }

  /** split_by_extension. */
  function SplitByExtension(name: string): (string, string) {
    var ext := RFind(name, '.');
    if ext == -1 || ext == 0 || ext == |name| - 1 then (name, "") else
      var folder := RFind(name, FOLDER_SEP);
      if folder != -1 && folder >= ext - 1 then (name, "") else (name[..ext], name[ext..])
  }

  /** A dot at p that starts an extension: inside the last path component, neither its first nor its last character. */
  predicate StartsExtension(name: string, p: int) {
    && 0 < p < |name| - 1 && name[p] == '.' && name[p - 1] != FOLDER_SEP
    && forall k :: p < k < |name| ==> name[k] != '.' && name[k] != FOLDER_SEP
  }

  /** The split is at the dot that starts the extension, and there is no extension exactly if there is no such dot. */
  lemma SplitMeaning(name: string)
    ensures var (stem, ext) := SplitByExtension(name);
            && stem + ext == name
            && (ext != "" ==> StartsExtension(name, |stem|))
            && (ext == "" ==> forall p :: !StartsExtension(name, p))
  {
    var ext, folder := RFind(name, '.'), RFind(name, FOLDER_SEP);
    forall p | StartsExtension(name, p) ensures p == ext {
      assert ext >= p;
    }
  }

  /** calc_filename. */
  function CalcFilename(name: string, index: nat): string {
    if index == 0 then name else
      var (stem, ext) := SplitByExtension(name);
      stem + "." + Digits(index) + ext
  }

  /** Names for distinct indices are distinct. */
  lemma NamesDiffer(name: string, i: nat, j: nat)
    requires i < j
    ensures CalcFilename(name, i) != CalcFilename(name, j)
  {
    SplitMeaning(name);
    var (stem, ext) := SplitByExtension(name);
    var a, b := CalcFilename(name, i), CalcFilename(name, j);
    if i == 0 {
      assert |b| > |name|;
    } else if a == b {
      var n := |stem| + 1;
      assert a == (stem + ".") + Digits(i) + ext && b == (stem + ".") + Digits(j) + ext;
      assert a[n..|a| - |ext|] == Digits(i);
      assert b[n..|b| - |ext|] == Digits(j);
      DigitsDiffer(i, j);
    }
  }

  /** The index goes in front of the extension, or at the end of a name without one, after a dot of its own. */
  lemma IndexBeforeExtension(name: string, index: nat, p: nat)
    requires index > 0
    ensures StartsExtension(name, p) ==> CalcFilename(name, index) == name[..p] + "." + Digits(index) + name[p..]
    ensures (forall q :: !StartsExtension(name, q)) ==> CalcFilename(name, index) == name + "." + Digits(index)
  {
    SplitMeaning(name);
    var (stem, ext) := SplitByExtension(name);
    if StartsExtension(name, p) {
      assert ext != "" && StartsExtension(name, |stem|);
      SameDot(name, p, |stem|);
      assert stem == name[..p] && ext == name[p..];
    }
  }

  lemma SameDot(name: string, p: nat, q: nat)
    requires StartsExtension(name, p) && StartsExtension(name, q)
    ensures p == q
  {
  }

  // The messages in the files, file by file.

  function Flatten(ms: seq<string>): string {
    if ms == [] then "" else Flatten(ms[..|ms| - 1]) + ms[|ms| - 1]
  }

  lemma {:induction false} FlattenAppend(p: seq<string>, q: seq<string>)
    ensures Flatten(p + q) == Flatten(p) + Flatten(q)
  {
    if q == [] {
      assert p + q == p;
    } else {
      assert (p + q)[..|p + q| - 1] == p + q[..|q| - 1];
      FlattenAppend(p, q[..|q| - 1]);
    }
  }

  /** A place for a log file: no file, or one holding these messages. */
  datatype Slot = Missing | File(messages: seq<string>)

  function In(slot: Slot): seq<string> {
    if slot.File? then slot.messages else []
  }

  /** The messages of the files, the last one first: oldest first. */
  function Newest(slots: seq<Slot>): seq<string> {
    if slots == [] then [] else In(slots[|slots| - 1]) + Newest(slots[..|slots| - 1])
  }

  lemma NewestStep(slots: seq<Slot>, n: nat)
    requires n < |slots|
    ensures Newest(slots[..n + 1]) == In(slots[n]) + Newest(slots[..n])
  {
    assert slots[..n + 1][..n] == slots[..n];
  }

  predicate IsSuffix(s: seq<string>, all: seq<string>) {
    |s| <= |all| && s == all[|all| - |s|..]
  }

  /** What a rotation leaves at place k > 0: the file below moves up; the oldest stays if nothing takes its place. */
  function FromBelow(was: seq<Slot>, k: nat): Slot
    requires 0 < k < |was|
  {
    if was[k - 1].File? then was[k - 1] else if k == |was| - 1 then was[k] else Missing
  }

  /** The files after a rotation: each one up and file 0 empty. */
  ghost predicate Rotated(now: seq<Slot>, was: seq<Slot>) {
    && |now| == |was| > 0 && now[0] == File([])
    && forall k :: 0 < k < |now| ==> now[k] == FromBelow(was, k)
  }

  lemma {:induction false} RotatedBelow(now: seq<Slot>, was: seq<Slot>, n: nat)
    requires Rotated(now, was) && n < |was| - 1
    ensures Newest(now[..n + 1]) == Newest(was[..n])
  {
    NewestStep(now, n);
    if n > 0 {
      RotatedBelow(now, was, n - 1);
      NewestStep(was, n - 1);
      assert now[n] == FromBelow(was, n);
    }
  }

  /** A rotation only takes messages off the old end. */
  lemma RotatedSuffix(now: seq<Slot>, was: seq<Slot>)
    requires Rotated(now, was)
    ensures IsSuffix(Newest(now), Newest(was))
  {
    var max := |was| - 1;
    assert now[..max + 1] == now && was[..max + 1] == was;
    NewestStep(now, max);
    NewestStep(was, max);
    if max > 0 {
      RotatedBelow(now, was, max - 1);
      NewestStep(was, max - 1);
      assert now[max] == FromBelow(was, max);
      SuffixOf(In(was[max]), In(was[max - 1]), Newest(was[..max - 1]));
    } else {
      SuffixOf(In(was[0]), [], []);
    }
  }

  /** It takes exactly the messages of the oldest file, and those only when another file takes its place. */
  lemma RotationLoses(now: seq<Slot>, was: seq<Slot>)
    requires Rotated(now, was)
    ensures var max := |was| - 1;
            Newest(was) == (if max == 0 || was[max - 1].File? then In(was[max]) else []) + Newest(now)
  {
    var max := |was| - 1;
    assert now[..max + 1] == now && was[..max + 1] == was;
    NewestStep(now, max);
    NewestStep(was, max);
    if max > 0 {
      RotatedBelow(now, was, max - 1);
      NewestStep(was, max - 1);
      assert now[max] == FromBelow(was, max);
    }
  }

  lemma SuffixOf(p: seq<string>, q: seq<string>, s: seq<string>)
    ensures IsSuffix(q + s, p + (q + s))
    ensures q == [] ==> IsSuffix(p + s, p + (q + s))
  {
    assert q == [] ==> q + s == s;
  }

  lemma SuffixTrans(a: seq<string>, b: seq<string>, c: seq<string>)
    requires IsSuffix(a, b) && IsSuffix(b, c)
    ensures IsSuffix(a, c)
  {
  }

  /** Adding a message to file 0 adds it at the end. */
  lemma {:induction false} NewestAppend(slots: seq<Slot>, m: string, n: nat)
    requires n < |slots| && slots[0].File?
    ensures Newest(slots[0 := File(slots[0].messages + [m])][..n + 1]) == Newest(slots[..n + 1]) + [m]
  {
    var now := slots[0 := File(slots[0].messages + [m])];
    NewestStep(now, n);
    NewestStep(slots, n);
    if n > 0 {
      NewestAppend(slots, m, n - 1);
      assert In(slots[n]) + (Newest(slots[..n]) + [m]) == (In(slots[n]) + Newest(slots[..n])) + [m];
    }
  }

  lemma SuffixAppend(s: seq<string>, all: seq<string>, m: string)
    requires IsSuffix(s, all)
    ensures IsSuffix(s + [m], all + [m])
  {
  }
}
