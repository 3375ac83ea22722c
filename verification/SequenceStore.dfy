/**
 The durable advertisement sequence: a decimal number in one file, replaced by writing and syncing a temporary file,
 renaming it over the old one and syncing the directory. Each step can fail, and the machine can stop between any two.
 */
module SequenceStore {
  import opened Unicode
  import opened Numerals

  const MAX_SEQUENCE_FILE_BYTES := 32
  const NEWLINE: Code := 0x0A

  // Loading

  /** Parsing an unsigned 64-bit number: an optional plus sign, digits, no overflow. Leading zeros are let through. */
  function ParseU64(t: Text): (r: Option<nat>)
    ensures r.Some? ==> r.value <= U64_MAX
  {
    var body := if t != [] && t[0] == 0x2B then t[1..] else t;
    if body == [] || !AllDigits(body) || Value(body) > U64_MAX then None else Some(Value(body))
  }

  function Line(n: nat): (t: Text) {
    Decimal(n) + [NEWLINE]
  }

  /** What the bytes of the file mean, or None where loading refuses them as unsafe. */
  function LoadBytes(bytes: Text): (r: Option<nat>) {
    if |bytes| == 0 || |bytes| > MAX_SEQUENCE_FILE_BYTES || bytes[|bytes| - 1] != NEWLINE then None
    else
      match ParseU64(bytes[..|bytes| - 1])
      case None => None
      case Some(value) => if value == 0 || Line(value) != bytes then None else Some(value)
  }

  /** Loading accepts exactly the canonical spelling of each positive number, and inverts it. */
  lemma LoadIsInverse(bytes: Text, n: nat)
    ensures LoadBytes(bytes) == Some(n) <==> 1 <= n <= U64_MAX && bytes == Line(n)
  {
    if 1 <= n <= U64_MAX && bytes == Line(n) {
      DecimalReadsBack(n);
      U64HasTwentyDigits();
      DecimalLength(n, 20);
      assert bytes[..|bytes| - 1] == Decimal(n);
    }
  }

  // The disk

  /** A file: what a reader sees now, and whether a machine stop would preserve it. */
  datatype Inode = Inode(content: Text, synced: bool)

  /** The files, and what the path has named since the directory was last synced, the present entry last. None means no
      file. A temporary file has a name of its own that is never read, so it is simply a file the path does not name. */
  datatype Disk = Disk(inodes: seq<Inode>, versions: seq<Option<nat>>)

  predicate Names(d: Disk, v: Option<nat>) {
    v.Some? ==> v.value < |d.inodes|
  }

  predicate WellFormed(d: Disk) {
    d.versions != [] && forall i :: 0 <= i < |d.versions| ==> Names(d, d.versions[i])
  }

  function Content(d: Disk, v: Option<nat>): (c: Option<Text>)
    requires Names(d, v)
  {
    if v.None? then None else Some(d.inodes[v.value].content)
  }

  function Visible(d: Disk): (c: Option<Text>)
    requires WellFormed(d)
  {
    Content(d, d.versions[|d.versions| - 1])
  }

  /** The number the path stands for: zero for no file, None where loading refuses it. */
  function Number(c: Option<Text>): (r: Option<nat>) {
    match c
    case None => Some(0)
    case Some(bytes) => LoadBytes(bytes)
  }

  // The steps

  function Create(d: Disk): (r: Disk) {
    d.(inodes := d.inodes + [Inode([], false)])
  }

  function Write(d: Disk, file: nat, bytes: Text): (r: Disk)
    requires file < |d.inodes|
  {
    d.(inodes := d.inodes[file := Inode(bytes, false)])
  }

  function Sync(d: Disk, file: nat): (r: Disk)
    requires file < |d.inodes|
  {
    d.(inodes := d.inodes[file := d.inodes[file].(synced := true)])
  }

  /** The new entry is visible at once; the old ones may still come back. */
  function Rename(d: Disk, file: nat): (r: Disk) {
    d.(versions := d.versions + [Some(file)])
  }

  function SyncDirectory(d: Disk): (r: Disk)
    requires d.versions != []
  {
    d.(versions := [d.versions[|d.versions| - 1]])
  }

  /** The machine stops: the path names any one of its versions, and a file that was not synced holds anything. */
  function Restart(d: Disk, version: nat, left: nat -> Text): (r: Disk)
    requires d.versions != []
  {
    Disk(seq(|d.inodes|, i requires 0 <= i < |d.inodes| =>
               if d.inodes[i].synced then d.inodes[i] else Inode(left(i), true)),
         [d.versions[if version < |d.versions| then version else |d.versions| - 1]])
  }

  // One call

  /** The step at which a call is cut short, by an error or because the machine is about to stop. A write may have got
      any part of the bytes into the file. */
  datatype Stop = Nowhere | AtLoad | AtCreate | AtWrite(written: nat) | AtSync | AtRename | AtInspection | AtDirectory

  function Part(bytes: Text, written: nat): (t: Text) {
    bytes[..if written < |bytes| then written else |bytes|]
  }

  /** What a write of the file that gets as far as `stop` leaves behind. */
  function AfterWrite(d: Disk, bytes: Text, stop: Stop): (r: Disk) {
    var file := |d.inodes|;
    var written := Write(Create(d), file, bytes);
    match stop
    case AtLoad => d
    case AtCreate => d
    case AtWrite(n) => Write(Create(d), file, Part(bytes, n))
    case AtSync => written
    case AtRename => Sync(written, file)
    case AtInspection => Rename(Sync(written, file), file)
    case AtDirectory => Rename(Sync(written, file), file)
    case Nowhere => Rename(Sync(written, file), file)
  }

  function AfterPersist(d: Disk, sequence: nat, stop: Stop): (r: Disk)
    requires d.versions != []
  {
    var written := AfterWrite(d, Line(sequence), stop);
    if stop.Nowhere? then SyncDirectory(written) else written
  }

  /** The number a call is about to hand out, if the path can be read and is not exhausted. */
  function Successor(d: Disk): (r: Option<nat>)
    requires WellFormed(d)
  {
    var previous := Number(Visible(d));
    if previous.None? || previous.value + 1 > U64_MAX then None else Some(previous.value + 1)
  }

  function Returned(d: Disk, stop: Stop): (r: Option<nat>)
    requires WellFormed(d)
  {
    if stop.Nowhere? then Successor(d) else None
  }

  function AfterNext(d: Disk, stop: Stop): (r: Disk)
    requires WellFormed(d)
  {
    if Successor(d).None? then d else AfterPersist(d, Successor(d).value, stop)
  }

  /** A disk that holds nothing but the file, as some earlier run left it. */
  function Start(content: Option<Text>): (d: Disk)
    ensures WellFormed(d)
  {
    if content.None? then Disk([], [None]) else Disk([Inode(content.value, true)], [Some(0)])
  }

  class SequenceFile {
    var inodes: seq<Inode>
    var versions: seq<Option<nat>>

    constructor (content: Option<Text>)
      ensures Now() == Start(content)
    {
      inodes := if content.None? then [] else [Inode(content.value, true)];
      versions := if content.None? then [None] else [Some(0)];
    }

    function Now(): (d: Disk)
      reads this
    {
      Disk(inodes, versions)
    }

    method Load(stop: Stop) returns (r: Option<nat>)
      requires WellFormed(Now())
      ensures r == if stop.AtLoad? then None else Number(Visible(Now()))
    {
      if stop.AtLoad? {
        return None;
      }
      var entry := versions[|versions| - 1];
      r := if entry.None? then Some(0) else LoadBytes(inodes[entry.value].content);
    }

    /** Create, write, sync, rename, inspect; each step may be the last. */
    method WriteSequence(bytes: Text, stop: Stop) returns (ok: bool)
      modifies this
      ensures ok <==> stop.Nowhere? || stop.AtDirectory?
      ensures Now() == AfterWrite(old(Now()), bytes, stop)
    {
      if stop.AtLoad? || stop.AtCreate? {
        return false;
      }
      var temporary := |inodes|;
      inodes := inodes + [Inode([], false)];
      if stop.AtWrite? {
        inodes := inodes[temporary := Inode(Part(bytes, stop.written), false)];
        return false;
      }
      inodes := inodes[temporary := Inode(bytes, false)];
      if stop.AtSync? {
        return false;
      }
      inodes := inodes[temporary := inodes[temporary].(synced := true)];
      if stop.AtRename? {
        return false;
      }
      versions := versions + [Some(temporary)];
      return !stop.AtInspection?;
    }

    /** Reports success only after the directory is synced. */
    method Persist(sequence: nat, stop: Stop) returns (ok: bool)
      requires versions != []
      modifies this
      ensures ok <==> stop.Nowhere?
      ensures Now() == AfterPersist(old(Now()), sequence, stop)
    {
      ok := WriteSequence(Line(sequence), stop);
      if !ok || stop.AtDirectory? {
        return false;
      }
      versions := [versions[|versions| - 1]];
    }

    method Next(stop: Stop) returns (r: Option<nat>)
      requires WellFormed(Now())
      modifies this
      ensures r == Returned(old(Now()), stop)
      ensures Now() == AfterNext(old(Now()), stop)
    {
      var previous := Load(stop);
      if previous.None? || previous.value + 1 > U64_MAX {
        return None;
      }
      var ok := Persist(previous.value + 1, stop);
      return if ok then Some(previous.value + 1) else None;
    }
  }

  // Runs

  datatype Event = Next(stop: Stop) | MachineStops(version: nat, left: nat -> Text)

  function After(d: Disk, e: Event): (r: Disk)
    requires WellFormed(d)
    ensures WellFormed(r)
  {
    match e
    case Next(stop) => AfterNext(d, stop)
    case MachineStops(version, left) => Restart(d, version, left)
  }

  /** The numbers returned by the successful calls of a run, in order. */
  function Numbers(d: Disk, events: seq<Event>): (ns: seq<nat>)
    requires WellFormed(d)
    decreases |events|
  {
    if events == [] then []
    else
      var rest := Numbers(After(d, events[0]), events[1..]);
      if events[0].Next? && Returned(d, events[0].stop).Some? then [Returned(d, events[0].stop).value] + rest else rest
  }

  /** Every file the path may name was synced, so no machine stop changes what it holds. */
  ghost predicate Durable(d: Disk)
    requires WellFormed(d)
  {
    forall i :: 0 <= i < |d.versions| && d.versions[i].Some? ==> d.inodes[d.versions[i].value].synced
  }

  /** Nothing the path may name stands for a number below `floor`. */
  ghost predicate NoneBelow(d: Disk, floor: nat)
    requires WellFormed(d)
  {
    forall i :: 0 <= i < |d.versions| && Number(Content(d, d.versions[i])).Some? ==>
      Number(Content(d, d.versions[i])).value >= floor
  }

  /** What every step keeps. */
  ghost predicate Safe(d: Disk, floor: nat) {
    WellFormed(d) && Durable(d) && NoneBelow(d, floor)
  }

  ghost predicate Unnamed(d: Disk, file: nat) {
    forall i :: 0 <= i < |d.versions| ==> d.versions[i] != Some(file)
  }

  lemma CreateKeepsSafe(d: Disk, floor: nat)
    requires Safe(d, floor)
    ensures Safe(Create(d), floor) && Unnamed(Create(d), |d.inodes|)
  {
    forall i | 0 <= i < |d.versions|
      ensures Names(Create(d), d.versions[i]) && Content(Create(d), d.versions[i]) == Content(d, d.versions[i])
    {
      assert Names(d, d.versions[i]);
    }
  }

  lemma WriteKeepsSafe(d: Disk, file: nat, bytes: Text, floor: nat)
    requires Safe(d, floor) && file < |d.inodes| && Unnamed(d, file)
    ensures Safe(Write(d, file, bytes), floor) && Unnamed(Write(d, file, bytes), file)
  {
    forall i | 0 <= i < |d.versions|
      ensures Names(Write(d, file, bytes), d.versions[i])
      ensures Content(Write(d, file, bytes), d.versions[i]) == Content(d, d.versions[i])
    {
      assert Names(d, d.versions[i]);
    }
  }

  lemma SyncKeepsSafe(d: Disk, file: nat, floor: nat)
    requires Safe(d, floor) && file < |d.inodes|
    ensures Safe(Sync(d, file), floor)
  {
    forall i | 0 <= i < |d.versions|
      ensures Names(Sync(d, file), d.versions[i]) && Content(Sync(d, file), d.versions[i]) == Content(d, d.versions[i])
    {
      assert Names(d, d.versions[i]);
    }
  }

  lemma RenameKeepsSafe(d: Disk, file: nat, floor: nat)
    requires Safe(d, floor) && file < |d.inodes| && d.inodes[file].synced
    requires LoadBytes(d.inodes[file].content).Some? ==> LoadBytes(d.inodes[file].content).value >= floor
    ensures Safe(Rename(d, file), floor)
  {
    var r := Rename(d, file);
    forall i | 0 <= i < |r.versions|
      ensures Names(r, r.versions[i])
      ensures r.versions[i] == Some(file) || (i < |d.versions| && r.versions[i] == d.versions[i])
    {
      assert i < |d.versions| ==> Names(d, d.versions[i]);
    }
  }

  lemma SyncDirectoryKeepsSafe(d: Disk, floor: nat)
    requires Safe(d, floor)
    ensures Safe(SyncDirectory(d), floor)
    ensures Number(Visible(d)).Some? && Number(Visible(d)).value >= floor ==>
              NoneBelow(SyncDirectory(d), Number(Visible(d)).value)
  {
    assert Names(d, d.versions[|d.versions| - 1]);
  }

  /** At every step the path names only files that were synced first. */
  lemma PersistIsSafe(d: Disk, sequence: nat, stop: Stop, floor: nat)
    requires Safe(d, floor) && floor <= sequence && 1 <= sequence <= U64_MAX
    ensures Safe(AfterPersist(d, sequence, stop), floor)
    ensures stop.Nowhere? ==> NoneBelow(AfterPersist(d, sequence, stop), sequence)
  {
    if stop.AtLoad? || stop.AtCreate? {
    } else {
      var file, line := |d.inodes|, Line(sequence);
      var bytes := if stop.AtWrite? then Part(line, stop.written) else line;
      CreateKeepsSafe(d, floor);
      WriteKeepsSafe(Create(d), file, bytes, floor);
      if stop.AtWrite? || stop.AtSync? {
      } else {
        var written := Write(Create(d), file, line);
        SyncKeepsSafe(written, file, floor);
        LoadIsInverse(line, sequence);
        RenameKeepsSafe(Sync(written, file), file, floor);
        SyncDirectoryKeepsSafe(Rename(Sync(written, file), file), floor);
      }
    }
  }

  lemma RestartIsSafe(d: Disk, version: nat, left: nat -> Text, floor: nat)
    requires Safe(d, floor)
    ensures Safe(Restart(d, version, left), floor)
  {
    var r := Restart(d, version, left);
    var v := if version < |d.versions| then version else |d.versions| - 1;
    assert Names(d, d.versions[v]) && Content(r, r.versions[0]) == Content(d, d.versions[v]);
  }

  lemma EventKeepsFloor(d: Disk, e: Event, floor: nat)
    requires Safe(d, floor)
    ensures Safe(After(d, e), floor)
    ensures e.Next? && Returned(d, e.stop).Some? ==>
              floor < Returned(d, e.stop).value <= U64_MAX && NoneBelow(After(d, e), Returned(d, e.stop).value)
  {
    match e
    case Next(stop) =>
      if Successor(d).Some? {
        assert Number(Content(d, d.versions[|d.versions| - 1])).value >= floor;
        PersistIsSafe(d, Successor(d).value, stop, floor);
      }
    case MachineStops(version, left) => RestartIsSafe(d, version, left, floor);
  }

  predicate Increasing(ns: seq<nat>, floor: nat) {
    && (forall i :: 0 <= i < |ns| ==> floor < ns[i] <= U64_MAX)
    && (forall i, j :: 0 <= i < j < |ns| ==> ns[i] < ns[j])
  }

  lemma {:induction false} RunStaysAbove(d: Disk, events: seq<Event>, floor: nat)
    requires Safe(d, floor)
    ensures Increasing(Numbers(d, events), floor)
    decreases |events|
  {
    if events == [] {
    } else {
      var e, next := events[0], After(d, events[0]);
      EventKeepsFloor(d, e, floor);
      if e.Next? && Returned(d, e.stop).Some? {
        RunStaysAbove(next, events[1..], Returned(d, e.stop).value);
      } else {
        RunStaysAbove(next, events[1..], floor);
      }
    }
  }

  /** Durable monotonicity: from any file content, over errors at any step, machine stops between any two and restarts,
      the numbers handed out strictly increase, start above what the file stood for, and never wrap. */
  lemma NumbersIncrease(content: Option<Text>, events: seq<Event>)
    ensures Increasing(Numbers(Start(content), events), if Number(content).Some? then Number(content).value else 0)
  {
    RunStaysAbove(Start(content), events, if Number(content).Some? then Number(content).value else 0);
  }

  /** What a call hands out: one over no file, the next number over a number, and nothing else. */
  lemma NextIsExact(d: Disk, stop: Stop, n: nat)
    requires WellFormed(d) && n > 0
    ensures Returned(d, stop) == Some(n)
       <==> stop.Nowhere? && n <= U64_MAX && Visible(d) == if n == 1 then None else Some(Line(n - 1))
  {
    if Visible(d).Some? {
      LoadIsInverse(Visible(d).value, n - 1);
      if Number(Visible(d)).Some? {
        LoadIsInverse(Visible(d).value, Number(Visible(d)).value);
      }
    }
  }

  /** What a call leaves behind when it is cut short or not: the file it was writing, as far as it got, and the path,
      which names that file from the rename on and nothing else once the directory is synced. */
  lemma StopIsExact(d: Disk, stop: Stop)
    requires WellFormed(d) && Successor(d).Some?
    ensures var r, line := AfterNext(d, stop), Line(Successor(d).value);
      && d.inodes <= r.inodes
      && r.inodes[|d.inodes|..] == (match stop
           case AtLoad => []
           case AtCreate => []
           case AtWrite(n) => [Inode(line[..Min(n, |line|)], false)]
           case AtSync => [Inode(line, false)]
           case _ => [Inode(line, true)])
      && r.versions == (match stop
           case AtInspection => d.versions + [Some(|d.inodes|)]
           case AtDirectory => d.versions + [Some(|d.inodes|)]
           case Nowhere => [Some(|d.inodes|)]
           case _ => d.versions)
  {}

  ghost predicate StandsFor(d: Disk, n: nat) {
    WellFormed(d) && Number(Visible(d)) == Some(n)
  }

  lemma NextCounts(d: Disk, n: nat)
    requires StandsFor(d, n) && n < U64_MAX
    ensures Returned(d, Nowhere) == Some(n + 1) && StandsFor(After(d, Next(Nowhere)), n + 1)
  {
    var r := AfterNext(d, Nowhere);
    StopIsExact(d, Nowhere);
    assert r.inodes[|d.inodes|] == r.inodes[|d.inodes|..][0];
    LoadIsInverse(Line(n + 1), n + 1);
  }

  /** A new store after `k` calls that nothing cut short. */
  function Undisturbed(k: nat): (d: Disk)
    ensures WellFormed(d)
  {
    if k == 0 then Start(None) else After(Undisturbed(k - 1), Next(Nowhere))
  }

  lemma {:induction false} UndisturbedStandsFor(k: nat)
    requires k <= U64_MAX
    ensures StandsFor(Undisturbed(k), k)
  {
    if k == 0 {
    } else {
      UndisturbedStandsFor(k - 1);
      NextCounts(Undisturbed(k - 1), k - 1);
    }
  }

  /** Left in peace, a new store hands out 1, 2, 3 and so on up to the last 64-bit number, and then nothing. */
  lemma NewStoreCounts(k: nat)
    requires k <= U64_MAX
    ensures Returned(Undisturbed(k), Nowhere) == if k < U64_MAX then Some(k + 1) else None
  {
    UndisturbedStandsFor(k);
  }

  /** A refused file stays refused: nothing is handed out over content that loading does not accept. */
  lemma {:induction false} UnsafeFileHandsOutNothing(content: Option<Text>, events: seq<Event>)
    requires Number(content).None?
    ensures Numbers(Start(content), events) == []
    decreases |events|
  {
    if events == [] {
    } else {
      assert After(Start(content), events[0]) == Start(content);
      UnsafeFileHandsOutNothing(content, events[1..]);
    }
  }

  // Why each sync is there

  /** Renaming a file that was not synced is not enough: after a machine stop the path may stand for any number, so one
      that was handed out can be handed out again. */
  lemma UnsyncedFileRepeats(d: Disk, sequence: nat) returns (e: Event)
    requires WellFormed(d) && 1 < sequence <= U64_MAX
    ensures var file := |d.inodes|;
      var hasty := SyncDirectory(Rename(Write(Create(d), file, Line(sequence)), file));
      && WellFormed(hasty) && Number(Visible(hasty)) == Some(sequence)
      && Returned(After(hasty, e), Nowhere) == Some(sequence)
  {
    e := MachineStops(0, _ => Line(sequence - 1));
    LoadIsInverse(Line(sequence), sequence);
    LoadIsInverse(Line(sequence - 1), sequence - 1);
  }

  /** What comes back when the machine stops with the present entry not yet durable: the one before. */
  lemma OldEntryComesBack(d: Disk, hasty: Disk, e: Event)
    requires WellFormed(d) && WellFormed(hasty) && Durable(d) && d.inodes <= hasty.inodes
    requires |d.versions| < |hasty.versions| && hasty.versions[|d.versions| - 1] == d.versions[|d.versions| - 1]
    requires e.MachineStops? && e.version == |d.versions| - 1
    ensures Visible(After(hasty, e)) == Visible(d)
  {
    var entry := d.versions[|d.versions| - 1];
    assert Names(d, entry);
    if entry.Some? {
      assert hasty.inodes[entry.value] == d.inodes[entry.value];
    }
  }

  lemma HastyIsWellFormed(d: Disk)
    requires WellFormed(d) && Successor(d).Some?
    ensures var hasty := AfterNext(d, AtDirectory);
      WellFormed(hasty) && Visible(hasty) == Some(Line(Successor(d).value))
  {
    var hasty := AfterNext(d, AtDirectory);
    forall i | 0 <= i < |hasty.versions| ensures Names(hasty, hasty.versions[i]) {
      assert i < |d.versions| ==> Names(d, d.versions[i]);
    }
  }

  /** Nor is it enough to leave out the directory sync: the old entry may come back. */
  lemma UnsyncedDirectoryRepeats(d: Disk) returns (e: Event)
    requires WellFormed(d) && Successor(d).Some?
    ensures var hasty := AfterNext(d, AtDirectory);
      && WellFormed(hasty) && Number(Visible(hasty)) == Successor(d)
      && (Durable(d) ==> Returned(After(hasty, e), Nowhere) == Successor(d))
  {
    var n := Successor(d).value;
    e := MachineStops(|d.versions| - 1, _ => []);
    HastyIsWellFormed(d);
    LoadIsInverse(Line(n), n);
    StopIsExact(d, AtDirectory);
    if Durable(d) {
      OldEntryComesBack(d, AfterNext(d, AtDirectory), e);
    }
  }
}
