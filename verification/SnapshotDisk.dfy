/** The crash-safe rewrite of the snapshot file as a machine of disk steps. */
module SnapshotDisk {
  import opened Entries
  import opened FileRecords

  /** `synced` says the bytes are known to be on the medium. */
  datatype File = File(bytes: string, synced: bool, mode: nat)

  /** The canonical path and the temp path beside it. */
  datatype Disk = Disk(canonical: Option<File>, temp: Option<File>)

  const MODE := 384 // 0600

  datatype Phase = Idle | Writing | Synced | Closed | Renamed

  /** One save in progress. `committed` is what is in place: put there by the last rename, or brought back since.
      `behind` are the disks that a loss of power may bring back: a rename is durable only once the directory is. */
  datatype Machine = Machine(disk: Disk, behind: seq<Disk>, phase: Phase, pending: string, committed: Option<string>)

  // ---------------------------------------------------------------- the steps of a save

  function Truncated(m: Machine, bytes: string, createMode: nat): Machine {
    var mode := if m.disk.temp.Some? then m.disk.temp.value.mode else createMode;
    m.(disk := m.disk.(temp := Some(File("", false, mode))), phase := Writing, pending := bytes)
  }

  predicate TruncateStep(m: Machine, m': Machine) {
    m.phase == Idle && m'.disk.temp.Some? && m' == Truncated(m, m'.pending, m'.disk.temp.value.mode)
  }

  /** Any further part of the bytes reaches the temp file. */
  predicate WriteStep(m: Machine, m': Machine) {
    && m.phase == Writing && m.disk.temp.Some? && m'.disk.temp.Some?
    && var f, f' := m.disk.temp.value, m'.disk.temp.value;
    && f.bytes <= f'.bytes <= m.pending
    && m' == m.(disk := m.disk.(temp := Some(f.(bytes := f'.bytes, synced := false))))
  }

  predicate SyncStep(m: Machine, m': Machine) {
    && m.phase == Writing && m.disk.temp.Some? && m.disk.temp.value.bytes == m.pending
    && m' == m.(disk := m.disk.(temp := Some(m.disk.temp.value.(synced := true))), phase := Synced)
  }

  predicate CloseStep(m: Machine, m': Machine) {
    m.phase == Synced && m' == m.(phase := Closed)
  }

  /** The directory entry changes at once, and not yet durably. */
  predicate RenameStep(m: Machine, m': Machine) {
    && m.phase == Closed
    && m' == Machine(Disk(m.disk.temp, None), m.behind + [m.disk], Renamed, m.pending, Some(m.pending))
  }

  predicate ChmodStep(m: Machine, m': Machine) {
    && m.phase == Renamed && m.disk.canonical.Some?
    && m' == m.(disk := m.disk.(canonical := Some(m.disk.canonical.value.(mode := MODE))), phase := Idle)
  }

  /** A panic or a killed process: the disk stays as it is. */
  predicate StopStep(m: Machine, m': Machine) {
    m' == m.(phase := Idle)
  }

  /** The oldest rename that is not durable becomes so: by a sync of the directory, of which the program has none, or
      in the system's own time. */
  predicate FlushStep(m: Machine, m': Machine) {
    m.behind != [] && m' == m.(behind := m.behind[1..])
  }

  /** What a file may hold after power is lost: anything, unless it was synced. */
  predicate FileSurvives(f: File, f': File) {
    f'.mode == f.mode && f'.synced && (f.synced ==> f'.bytes == f.bytes)
  }

  predicate Survives(d: Disk, d': Disk) {
    && (d.canonical.Some? <==> d'.canonical.Some?)
    && (d.canonical.Some? ==> FileSurvives(d.canonical.value, d'.canonical.value))
    && (d'.temp.Some? ==> d.temp.Some? && FileSurvives(d.temp.value, d'.temp.value))
  }

  function Content(f: Option<File>): Option<string> {
    if f.None? then None else Some(f.value.bytes)
  }

  /** The disks a loss of power may leave: as it is, or from before renames that are not durable. */
  function Disks(m: Machine): seq<Disk> {
    m.behind + [m.disk]
  }

  ghost predicate PowerLossStep(m: Machine, m': Machine) {
    && (exists d :: d in Disks(m) && Survives(d, m'.disk))
    && m' == Machine(m'.disk, [], Idle, m.pending, Content(m'.disk.canonical))
  }

  /** A step that neither renames nor loses power. */
  predicate QuietStep(m: Machine, m': Machine) {
    || TruncateStep(m, m') || WriteStep(m, m') || SyncStep(m, m') || CloseStep(m, m')
    || ChmodStep(m, m') || StopStep(m, m') || FlushStep(m, m')
  }

  ghost predicate Next(m: Machine, m': Machine) {
    QuietStep(m, m') || RenameStep(m, m') || PowerLossStep(m, m')
  }

  /** A run: saves one after another, each finished or cut short anywhere. */
  ghost predicate IsRun(ms: seq<Machine>) {
    ms != [] && forall i :: 0 <= i < |ms| - 1 ==> Next(ms[i], ms[i + 1])
  }

  lemma RunSnoc(ms: seq<Machine>, m: Machine)
    requires IsRun(ms) && Next(ms[|ms| - 1], m)
    ensures IsRun(ms + [m])
  {
  }

  // ---------------------------------------------------------------- what every step keeps

  predicate Durable(d: Disk) {
    d.canonical.Some? ==> d.canonical.value.synced
  }

  predicate AllDurable(ds: seq<Disk>) {
    forall i :: 0 <= i < |ds| ==> Durable(ds[i])
  }

  predicate Inv(m: Machine) {
    && Content(m.disk.canonical) == m.committed
    && Durable(m.disk) && AllDurable(m.behind)
    && (m.phase == Writing ==> m.disk.temp.Some? && m.disk.temp.value.bytes <= m.pending)
    && (m.phase in {Synced, Closed} ==>
          m.disk.temp.Some? && m.disk.temp.value.bytes == m.pending && m.disk.temp.value.synced)
    && (m.phase == Renamed ==> m.committed == Some(m.pending) && m.disk.temp.None?)
  }

  /** What a machine may start from: any durable files, and any stale temp file. */
  predicate Start(m: Machine) {
    m.phase == Idle && Content(m.disk.canonical) == m.committed && Durable(m.disk) && AllDurable(m.behind)
  }

  /** A loss of power leaves one of the disks with its canonical file whole. */
  lemma PowerLossKeeps(m: Machine, m': Machine) returns (d: Disk)
    requires Inv(m) && PowerLossStep(m, m')
    ensures Inv(m') && d in Disks(m) && Content(m'.disk.canonical) == Content(d.canonical)
  {
    d :| d in Disks(m) && Survives(d, m'.disk);
    assert Durable(d);
  }

  lemma StepKeepsInv(m: Machine, m': Machine)
    requires Inv(m) && Next(m, m')
    ensures Inv(m')
  {
    if PowerLossStep(m, m') {
      var d := PowerLossKeeps(m, m');
    }
  }

  /** In every run from any start the canonical file is whole, and so is every one that may come back. */
  lemma {:induction false} RunKeepsInv(ms: seq<Machine>, i: nat)
    requires IsRun(ms) && Start(ms[0]) && i < |ms|
    ensures Inv(ms[i])
    decreases i
  {
    if i > 0 {
      RunKeepsInv(ms, i - 1);
      assert Next(ms[i - 1], ms[i]);
      StepKeepsInv(ms[i - 1], ms[i]);
    }
  }

  // ---------------------------------------------------------------- atomicity

  /** `c` is what the canonical file holds, or may hold again after a loss of power. */
  ghost predicate MayHold(m: Machine, c: Option<string>) {
    exists d :: d in Disks(m) && Content(d.canonical) == c
  }

  lemma StepMayHold(m: Machine, m': Machine, c: Option<string>)
    requires Inv(m) && Next(m, m') && MayHold(m', c)
    ensures MayHold(m, c) || (RenameStep(m, m') && c == Some(m.pending))
  {
    var d :| d in Disks(m') && Content(d.canonical) == c;
    if PowerLossStep(m, m') {
      var e := PowerLossKeeps(m, m');
      assert d == m'.disk;
    } else if d in m'.behind {
      assert d in Disks(m);
    } else {
      assert m.disk in Disks(m);
    }
  }

  /** Within one save, complete or not, restarted or not, the canonical file holds what it may have held at the start
      or all the new bytes, and so it does whatever comes back. */
  lemma {:induction false} SaveIsAtomic(ms: seq<Machine>, bytes: string, i: nat, c: Option<string>)
    requires IsRun(ms) && Start(ms[0]) && i < |ms| && MayHold(ms[i], c)
    requires forall j :: 0 < j < |ms| ==> ms[j].pending == bytes
    ensures MayHold(ms[0], c) || c == Some(bytes)
    decreases i
  {
    if i > 0 {
      RunKeepsInv(ms, i - 1);
      assert Next(ms[i - 1], ms[i]);
      StepMayHold(ms[i - 1], ms[i], c);
      if MayHold(ms[i - 1], c) { SaveIsAtomic(ms, bytes, i - 1, c); }
      if RenameStep(ms[i - 1], ms[i]) { SaveStarted(ms, i - 1); }
    }
  }

  /** A save that renames has truncated first. */
  lemma SaveStarted(ms: seq<Machine>, i: nat)
    requires IsRun(ms) && Start(ms[0]) && i < |ms| && ms[i].phase == Closed
    ensures i > 0
  {
  }

  /** Stopping after any step of a save, even by losing power, leaves a file that parses to the new snapshot or to one
      that was in place, or could have come back, before. */
  lemma CrashLeavesOldOrNew(c: Codec, ms: seq<Machine>, new': seq<Record>, i: nat, after: Machine)
    requires IsRun(ms) && Start(ms[0]) && i < |ms|
    requires forall j :: 0 < j < |ms| ==> ms[j].pending == Serialize(c, new')
    requires Frames(c) && AllStorable(c, new')
    requires StopStep(ms[i], after) || PowerLossStep(ms[i], after)
    ensures var p := ParseFile(c, Content(after.disk.canonical));
      p == Parsed(new') || exists d :: d in Disks(ms[0]) && p == ParseFile(c, Content(d.canonical))
    ensures ms[0].behind == [] ==>
      ParseFile(c, Content(after.disk.canonical)) in {ParseFile(c, Content(ms[0].disk.canonical)), Parsed(new')}
  {
    var now := Content(after.disk.canonical);
    RunKeepsInv(ms, i);
    if StopStep(ms[i], after) {
      assert ms[i].disk in Disks(ms[i]);
    } else {
      var d := PowerLossKeeps(ms[i], after);
    }
    assert MayHold(ms[i], now);
    SaveIsAtomic(ms, Serialize(c, new'), i, now);
    SnapshotRoundTrip(c, new', 0);
  }

  /** Whatever the temp file held before, only bytes written by this save are ever renamed into place. */
  lemma {:induction false} StaleTempIsNeverPromoted(ms: seq<Machine>, i: nat)
    requires IsRun(ms) && Start(ms[0]) && i + 1 < |ms| && RenameStep(ms[i], ms[i + 1])
    ensures Content(ms[i + 1].disk.canonical) == Some(ms[i].pending)
    ensures exists j :: 0 <= j < i && TruncateStep(ms[j], ms[j + 1]) && ms[j + 1].pending == ms[i].pending
  {
    RunKeepsInv(ms, i);
    var j := LastTruncate(ms, i);
  }

  /** A save past its first step began with a truncation of the same bytes. */
  lemma {:induction false} LastTruncate(ms: seq<Machine>, i: nat) returns (j: nat)
    requires IsRun(ms) && Start(ms[0]) && i < |ms| && ms[i].phase != Idle
    ensures j < i && TruncateStep(ms[j], ms[j + 1]) && ms[j + 1].pending == ms[i].pending
    decreases i
  {
    assert i > 0 && Next(ms[i - 1], ms[i]);
    if TruncateStep(ms[i - 1], ms[i]) {
      j := i - 1;
    } else {
      j := LastTruncate(ms, i - 1);
    }
  }

  lemma {:induction false} DeletedIsAbsent(rs: seq<Record>, id: string)
    ensures forall r :: r in DeleteRecord(rs, id) ==> r.id != id && r in rs
    decreases |rs|
  {
    if rs != [] { DeletedIsAbsent(rs[1..], id); }
  }

  lemma DeletedReadsBack(c: Codec, rs: seq<Record>, id: string)
    requires Frames(c) && AllStorable(c, rs)
    ensures ParseFile(c, Some(Serialize(c, DeleteRecord(rs, id)))) == Parsed(DeleteRecord(rs, id))
    ensures forall r :: r in DeleteRecord(rs, id) ==> r.id != id
  {
    DeletedIsAbsent(rs, id);
    var kept := DeleteRecord(rs, id);
    forall k | 0 <= k < |kept| ensures Storable(c, kept[k]) { assert kept[k] in rs; }
    SnapshotRoundTrip(c, kept, 0);
  }

  /** After a completed delete no record with the id is in either file. */
  lemma CompletedDeleteErases(c: Codec, ms: seq<Machine>, i: nat, rs: seq<Record>, id: string)
    requires IsRun(ms) && Start(ms[0]) && i + 1 < |ms| && ChmodStep(ms[i], ms[i + 1])
    requires ms[i].pending == Serialize(c, DeleteRecord(rs, id)) && Frames(c) && AllStorable(c, rs)
    ensures ms[i + 1].disk.temp.None?
    ensures ParseFile(c, Content(ms[i + 1].disk.canonical)) == Parsed(DeleteRecord(rs, id))
    ensures forall r :: r in DeleteRecord(rs, id) ==> r.id != id
  {
    RunKeepsInv(ms, i);
    DeletedReadsBack(c, rs, id);
  }

  // ---------------------------------------------------------------- whether a delete stays done

  /** The file loads, and holds no record with the id. */
  ghost predicate Gone(c: Codec, f: Option<File>, id: string) {
    var p := ParseFile(c, Content(f));
    p.Parsed? && forall r :: r in p.records ==> r.id != id
  }

  /** No loss of power brings the record back. */
  ghost predicate GoneForGood(c: Codec, m: Machine, id: string) {
    forall m' :: PowerLossStep(m, m') ==> Gone(c, m'.disk.canonical, id)
  }

  /** A disk whose canonical file is durable may be left just as it is. */
  lemma MayComeBack(m: Machine, d: Disk) returns (m': Machine)
    requires d in Disks(m) && Durable(d)
    ensures PowerLossStep(m, m') && m'.disk.canonical == d.canonical
  {
    m' := Machine(Disk(d.canonical, None), [], Idle, m.pending, Content(d.canonical));
    assert Survives(d, m'.disk);
  }

  /** Losing power right after a rename may have the old bytes back. */
  lemma RenameMayBeUndone(m: Machine, m': Machine) returns (lost: Machine)
    requires Inv(m) && RenameStep(m, m')
    ensures PowerLossStep(m', lost) && lost.disk.canonical == m.disk.canonical
  {
    lost := MayComeBack(m', m.disk);
  }

  /** With nothing behind nothing comes back. */
  lemma NothingComesBack(m: Machine, lost: Machine)
    requires Inv(m) && m.behind == [] && PowerLossStep(m, lost)
    ensures Content(lost.disk.canonical) == Content(m.disk.canonical)
  {
    var d := PowerLossKeeps(m, lost);
  }

  /** Neither a rename nor a loss of power. */
  predicate QuietAt(ms: seq<Machine>, k: int) {
    0 <= k < |ms| - 1 && QuietStep(ms[k], ms[k + 1])
  }

  /** The last rename becomes durable. */
  predicate FlushAt(ms: seq<Machine>, k: int) {
    0 <= k < |ms| - 1 && FlushStep(ms[k], ms[k + 1]) && ms[k + 1].behind == []
  }

  ghost predicate FlushedBetween(ms: seq<Machine>, i: nat, j: nat)
    requires j < |ms|
  {
    exists k :: i <= k < j && FlushAt(ms, k)
  }

  lemma FlushedSnoc(ms: seq<Machine>, i: nat, j: nat)
    requires i <= j < j + 1 < |ms|
    ensures FlushedBetween(ms, i, j + 1) <==> FlushedBetween(ms, i, j) || FlushAt(ms, j)
  {
  }

  /** What holds of the disks behind once `replaced` was renamed over: it is the last of them until a flush. */
  predicate BehindSince(m: Machine, replaced: Disk, flushed: bool) {
    if flushed then m.behind == [] else EndsWith(m.behind, replaced)
  }

  lemma QuietKeepsBehind(m: Machine, m': Machine, replaced: Disk, flushed: bool)
    requires QuietStep(m, m') && BehindSince(m, replaced, flushed)
    ensures BehindSince(m', replaced, flushed || (FlushStep(m, m') && m'.behind == []))
  {
  }

  /** Between a rename and the next, only a flush takes the disk from before it away. */
  lemma {:induction false} BehindUntilFlushed(ms: seq<Machine>, i: nat, j: nat)
    requires i < j < |ms| && RenameStep(ms[i], ms[i + 1])
    requires forall k :: i < k < j ==> QuietAt(ms, k)
    ensures ms[j].committed == ms[i + 1].committed
    ensures BehindSince(ms[j], ms[i].disk, FlushedBetween(ms, i + 1, j))
    decreases j
  {
    if j == i + 1 {
      RenameLeavesBehind(ms[i], ms[j]);
    } else {
      BehindUntilFlushed(ms, i, j - 1);
      assert QuietAt(ms, j - 1);
      QuietKeepsBehind(ms[j - 1], ms[j], ms[i].disk, FlushedBetween(ms, i + 1, j - 1));
      FlushedSnoc(ms, i + 1, j - 1);
      QuietKeepsCommitted(ms[j - 1], ms[j]);
    }
  }

  lemma RenameLeavesBehind(m: Machine, m': Machine)
    requires RenameStep(m, m')
    ensures BehindSince(m', m.disk, false)
  {
  }

  predicate EndsWith(ds: seq<Disk>, d: Disk) {
    ds != [] && ds[|ds| - 1] == d
  }

  lemma QuietKeepsCommitted(m: Machine, m': Machine)
    requires QuietStep(m, m')
    ensures m'.committed == m.committed
  {
  }

  /** A delete of a present id, once renamed into place, survives every loss of power exactly when the rename has
      become durable since. */
  lemma DeleteStaysDoneIff(c: Codec, ms: seq<Machine>, i: nat, j: nat, rs: seq<Record>, id: string)
    requires IsRun(ms) && Start(ms[0]) && i < j < |ms| && RenameStep(ms[i], ms[i + 1])
    requires forall k :: i < k < j ==> QuietAt(ms, k)
    requires Frames(c) && AllStorable(c, rs) && exists r :: r in rs && r.id == id
    requires ParseFile(c, Content(ms[i].disk.canonical)) == Parsed(rs)
    requires ms[i].pending == Serialize(c, DeleteRecord(rs, id))
    ensures GoneForGood(c, ms[j], id) <==> FlushedBetween(ms, i + 1, j)
  {
    RunKeepsInv(ms, i);
    RunKeepsInv(ms, j);
    BehindUntilFlushed(ms, i, j);
    if FlushedBetween(ms, i + 1, j) {
      DeletedReadsBack(c, rs, id);
      forall m' | PowerLossStep(ms[j], m') ensures Gone(c, m'.disk.canonical, id) {
        NothingComesBack(ms[j], m');
      }
    } else {
      assert ms[i].disk in Disks(ms[j]);
      var lost := MayComeBack(ms[j], ms[i].disk);
      assert !Gone(c, lost.disk.canonical, id);
    }
  }
}
