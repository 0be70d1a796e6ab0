/** The file-backed store: every verb reads through to disk, every mutation rewrites the snapshot. */
module FileStores {
  import opened Entries
  import opened Stores
  import opened FileRecords
  import opened SnapshotDisk
  import RS = ResidueScan

  /** The disk that every handle over one path shares. */
  class Drive {
    var disk: Disk
    /** Disks that a loss of power may still bring back. */
    var behind: seq<Disk>

    constructor ()
      ensures disk == Disk(None, None) && behind == []
    {
      disk, behind := Disk(None, None), [];
    }
  }

  /** One more disk is behind: one with the canonical file that was in place before. */
  predicate Replaced(behind: seq<Disk>, before: Disk, behind': seq<Disk>) {
    |behind'| == |behind| + 1 && behind <= behind' && behind'[|behind|].canonical == before.canonical
  }

  class FileStore {
    const drive: Drive
    const codec: Codec
    const createMode: nat

    /** What is in place, or may come back, is durable. */
    predicate Valid()
      reads drive
    {
      Durable(drive.disk) && AllDurable(drive.behind)
    }

    /** The records a load reads, or why it fails. */
    function Loaded(): Parsed
      reads drive
    {
      ParseFile(codec, Content(drive.disk.canonical))
    }

    constructor (drive: Drive, codec: Codec, createMode: nat)
      ensures this.drive == drive && this.codec == codec && this.createMode == createMode
    {
      this.drive, this.codec, this.createMode := drive, codec, createMode;
    }

    method Load() returns (p: Parsed)
      ensures p == Loaded()
    {
      p := ParseStoreFile(codec, Content(drive.disk.canonical));
    }

    /** Truncate the temp file, write it in chunks of any size, sync, close, rename, chmod. */
    method Save(records: seq<Record>) returns (ghost trace: seq<Machine>)
      requires Valid()
      modifies drive
      ensures Valid()
      ensures drive.disk == Disk(Some(File(Serialize(codec, records), true, 384)), None) // mode 0600
      ensures Replaced(old(drive.behind), old(drive.disk), drive.behind)
      ensures IsRun(trace) && Start(trace[0])
      ensures trace[0].disk == old(drive.disk) && trace[0].behind == old(drive.behind)
      ensures trace[|trace| - 1].disk == drive.disk && trace[|trace| - 1].behind == drive.behind
      ensures trace[|trace| - 1].committed == Some(Serialize(codec, records))
      ensures forall i :: 0 < i < |trace| ==> trace[i].pending == Serialize(codec, records)
    {
      var buf := EncodeAll(codec, records);
      ghost var m := Machine(drive.disk, drive.behind, Idle, "", Content(drive.disk.canonical));
      trace := [m];

      var mode := if drive.disk.temp.Some? then drive.disk.temp.value.mode else createMode;
      drive.disk := drive.disk.(temp := Some(File("", false, mode)));
      m := Machine(drive.disk, drive.behind, Writing, buf, m.committed);
      RunSnoc(trace, m);
      trace := trace + [m];

      var written := 0;
      while written < |buf|
        invariant 0 <= written <= |buf|
        invariant drive.disk == Disk(old(drive.disk).canonical, Some(File(buf[..written], false, mode)))
        invariant drive.behind == old(drive.behind)
        invariant m == Machine(drive.disk, drive.behind, Writing, buf, Content(old(drive.disk).canonical))
        invariant IsRun(trace) && |trace| > 1 && trace[|trace| - 1] == m
        invariant trace[0] == Machine(old(drive.disk), drive.behind, Idle, "", Content(old(drive.disk).canonical))
        invariant forall i :: 0 < i < |trace| ==> trace[i].pending == buf
      {
        var n :| written < n <= |buf|;
        assert buf[..written] <= buf[..n];
        written := n;
        drive.disk := drive.disk.(temp := Some(File(buf[..written], false, mode)));
        assert WriteStep(m, m.(disk := drive.disk));
        m := m.(disk := drive.disk);
        RunSnoc(trace, m);
        trace := trace + [m];
      }
      assert buf[..written] == buf;

      drive.disk := drive.disk.(temp := Some(File(buf, true, mode)));
      m := m.(disk := drive.disk, phase := Synced);
      RunSnoc(trace, m);
      trace := trace + [m];

      m := m.(phase := Closed);
      RunSnoc(trace, m);
      trace := trace + [m];

      drive.disk, drive.behind := Disk(drive.disk.temp, None), drive.behind + [drive.disk];
      m := m.(disk := drive.disk, behind := drive.behind, phase := Renamed, committed := Some(buf));
      RunSnoc(trace, m);
      trace := trace + [m];

      drive.disk := drive.disk.(canonical := Some(drive.disk.canonical.value.(mode := MODE)));
      m := m.(disk := drive.disk, phase := Idle);
      RunSnoc(trace, m);
      trace := trace + [m];
    }

    /** Panics, here `ok == false`, exactly when the file does not load. */
    method Put(id: string, e: Entry) returns (ok: bool)
      requires Valid()
      modifies drive
      ensures Valid() && ok == old(Loaded()).Parsed?
      ensures !ok ==> drive.disk == old(drive.disk) && drive.behind == old(drive.behind)
      ensures ok ==> Content(drive.disk.canonical) == Some(Serialize(codec, PutRecord(old(Loaded()).records, id, e)))
                     && drive.disk.temp.None?
      ensures ok ==> Replaced(old(drive.behind), old(drive.disk), drive.behind)
      ensures ok && Frames(codec) && AllReadable(codec, old(Loaded()).records) ==>
        (Loaded().Parsed? <==> Readable(codec, RecordFrom(id, e)))
    {
      var p := Load();
      if p.ParseError? { return false; }
      var records := PutInto(p.records, id, e);
      ghost var trace := Save(records);
      if Frames(codec) && AllReadable(codec, p.records) { PutThenLoad(codec, p.records, id, e); }
      return true;
    }

    method Get(id: string) returns (ok: bool, r: Option<Entry>)
      ensures ok == Loaded().Parsed?
      ensures ok ==> r == FindRecord(Loaded().records, id)
    {
      var p := Load();
      if p.ParseError? { return false, None; }
      r := GetFrom(p.records, id);
      ok := true;
    }

    /** An absent id is no reason to rewrite the file. */
    method Delete(id: string) returns (ok: bool)
      requires Valid()
      modifies drive
      ensures Valid() && ok == old(Loaded()).Parsed?
      ensures !ok ==> drive.disk == old(drive.disk) && drive.behind == old(drive.behind)
      ensures ok && old(FindRecord(Loaded().records, id)).None? ==>
        drive.disk == old(drive.disk) && drive.behind == old(drive.behind)
      ensures ok && old(FindRecord(Loaded().records, id)).Some? ==>
        Content(drive.disk.canonical) == Some(Serialize(codec, DeleteRecord(old(Loaded()).records, id)))
        && drive.disk.temp.None? && Replaced(old(drive.behind), old(drive.disk), drive.behind)
    {
      var p := Load();
      if p.ParseError? { return false; }
      var kept, found := DeleteFrom(p.records, id);
      FindIsLookup(p.records, id);
      TableHas(p.records, id);
      if !found { return true; }
      ghost var trace := Save(kept);
      return true;
    }

    method Scan(query: string) returns (ok: bool, hits: seq<Entry>)
      ensures ok == Loaded().Parsed?
      ensures ok ==> hits == SelectRecords(Loaded().records, query, None)
    {
      var p := Load();
      if p.ParseError? { return false, []; }
      hits := SelectFrom(p.records, query, None);
      ok := true;
    }

    method ScanScoped(query: string, visibleKeys: seq<string>) returns (ok: bool, hits: seq<Entry>)
      ensures ok == Loaded().Parsed?
      ensures ok ==> hits == SelectRecords(Loaded().records, query, Some(visibleKeys))
    {
      var p := Load();
      if p.ParseError? { return false, []; }
      hits := SelectFrom(p.records, query, Some(visibleKeys));
      ok := true;
    }

    method All() returns (ok: bool, out: seq<Entry>)
      ensures ok == Loaded().Parsed?
      ensures ok ==> out == EntriesIn(Loaded().records)
    {
      var p := Load();
      if p.ParseError? { return false, []; }
      out := [];
      for i := 0 to |p.records|
        invariant out == EntriesIn(p.records[..i])
      {
        assert p.records[..i + 1][..i] == p.records[..i];
        out := out + [ToEntry(p.records[i])];
      }
      assert p.records[..|p.records|] == p.records;
      ok := true;
    }

    /** The one snapshot as one named index. */
    method AllByIndex() returns (ok: bool, indexes: RS.Indexes)
      ensures ok == Loaded().Parsed?
      ensures ok ==> indexes == map[PRIMARY := EntriesIn(Loaded().records)]
    {
      var out;
      ok, out := All();
      indexes := map[PRIMARY := out];
    }
  }

  /** Construction refuses a file that does not parse, and never touches the disk. */
  method NewFileStore(drive: Drive, codec: Codec, createMode: nat) returns (store: Option<FileStore>)
    ensures store.Some? <==> ParseFile(codec, Content(drive.disk.canonical)).Parsed?
    ensures drive.disk.canonical == None ==> store.Some?
    ensures store.Some? ==> fresh(store.value) && store.value.drive == drive && store.value.codec == codec
  {
    var p := ParseStoreFile(codec, Content(drive.disk.canonical));
    if p.ParseError? { return None; }
    var s := new FileStore(drive, codec, createMode);
    return Some(s);
  }

  function EntriesIn(rs: seq<Record>): (es: seq<Entry>)
    ensures |es| == |rs| && forall i :: 0 <= i < |rs| ==> es[i] == ToEntry(rs[i])
  {
    seq(|rs|, i requires 0 <= i < |rs| => ToEntry(rs[i]))
  }
}
