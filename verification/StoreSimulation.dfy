/** The three stores in lockstep: same verbs, same answers. */
module StoreSimulation {
  import opened Text
  import opened Entries
  import opened Stores
  import opened FileRecords
  import opened SnapshotDisk
  import opened FileStores
  import N = Normalize
  import RS = ResidueScan

  datatype Verb = PutVerb(id: string, entry: Entry) | DeleteVerb(id: string)

  function ApplyVerb(t: Table, v: Verb): Table {
    match v
    case PutVerb(id, e) => t[id := e]
    case DeleteVerb(id) => t - {id}
  }

  function ApplyAll(verbs: seq<Verb>): Table {
    if verbs == [] then map[] else ApplyVerb(ApplyAll(verbs[..|verbs| - 1]), verbs[|verbs| - 1])
  }

  function EditRecords(rs: seq<Record>, v: Verb): seq<Record> {
    match v
    case PutVerb(id, e) => PutRecord(rs, id, e)
    case DeleteVerb(id) => DeleteRecord(rs, id)
  }

  function EditAll(verbs: seq<Verb>): seq<Record> {
    if verbs == [] then [] else EditRecords(EditAll(verbs[..|verbs| - 1]), verbs[|verbs| - 1])
  }

  /** What is put has an id, fits a line and is what its line decodes to. */
  predicate Writable(c: Codec, v: Verb) {
    v.PutVerb? ==> Storable(c, RecordFrom(v.id, v.entry))
  }

  // ---------------------------------------------------------------- the record list follows the table

  lemma {:induction false} PutStaysStorable(c: Codec, rs: seq<Record>, id: string, e: Entry)
    requires AllStorable(c, rs) && Storable(c, RecordFrom(id, e))
    ensures AllStorable(c, PutRecord(rs, id, e))
    decreases |rs|
  {
    if rs != [] && rs[0].id != id {
      PutStaysStorable(c, rs[1..], id, e);
    }
  }

  lemma DeleteStaysStorable(c: Codec, rs: seq<Record>, id: string)
    requires AllStorable(c, rs)
    ensures AllStorable(c, DeleteRecord(rs, id))
  {
    DeletedIsAbsent(rs, id);
    var kept := DeleteRecord(rs, id);
    forall k | 0 <= k < |kept| ensures Storable(c, kept[k]) { assert kept[k] in rs; }
  }

  lemma EditFollows(c: Codec, rs: seq<Record>, v: Verb)
    requires UniqueIds(rs) && AllStorable(c, rs) && Writable(c, v)
    ensures TableOf(EditRecords(rs, v)) == ApplyVerb(TableOf(rs), v)
    ensures UniqueIds(EditRecords(rs, v)) && AllStorable(c, EditRecords(rs, v))
  {
    match v
    case PutVerb(id, e) =>
      PutIsUpdate(rs, id, e);
      PutKeepsUnique(rs, id, e);
      PutStaysStorable(c, rs, id, e);
    case DeleteVerb(id) =>
      DeleteIsRemoval(rs, id);
      DeleteKeepsUnique(rs, id);
      DeleteStaysStorable(c, rs, id);
  }

  /** After any verbs the record list has unique ids, is the table, and survives a write and a read. */
  lemma {:induction false} RecordsFollowTable(c: Codec, verbs: seq<Verb>)
    requires Frames(c) && forall i :: 0 <= i < |verbs| ==> Writable(c, verbs[i])
    ensures var rs := EditAll(verbs);
      && UniqueIds(rs) && TableOf(rs) == ApplyAll(verbs)
      && ParseFile(c, Some(Serialize(c, rs))) == Parsed(rs)
    ensures AllStorable(c, EditAll(verbs))
    decreases |verbs|
  {
    if verbs != [] {
      var before := verbs[..|verbs| - 1];
      RecordsFollowTable(c, before);
      EditFollows(c, EditAll(before), verbs[|verbs| - 1]);
    }
    SnapshotRoundTrip(c, EditAll(verbs), 0);
  }

  lemma {:induction false} EntriesAreSelected(rs: seq<Record>)
    ensures EntriesIn(rs) == SelectRecords(rs, "", None)
    decreases |rs|
  {
    if rs != [] {
      EntriesAreSelected(rs[1..]);
      assert At(ToEntry(rs[0]).content, 0, "");
      assert EntriesIn(rs) == [ToEntry(rs[0])] + EntriesIn(rs[1..]);
    }
  }

  lemma EntriesAreBag(rs: seq<Record>)
    requires UniqueIds(rs)
    ensures multiset(EntriesIn(rs)) == Bag(TableOf(rs))
  {
    EntriesAreSelected(rs);
    SelectIsBag(rs, "", None);
    SelectAll(TableOf(rs));
  }

  // ---------------------------------------------------------------- lockstep

  /** All three stores hold the table `t`. */
  ghost predicate InStep(mem: InMemoryStore, two: TwoIndexStore, file: FileStore, t: Table)
    reads mem, two, file.drive
  {
    && Frames(file.codec)
    && mem.entries == t
    && two.Valid() && two.primary == t
    && file.Valid() && file.Loaded().Parsed?
    && UniqueIds(file.Loaded().records) && AllStorable(file.codec, file.Loaded().records)
    && TableOf(file.Loaded().records) == t
  }

  method Apply(v: Verb, mem: InMemoryStore, two: TwoIndexStore, file: FileStore, ghost t: Table)
    requires InStep(mem, two, file, t) && Writable(file.codec, v)
    modifies mem, two, file.drive
    ensures InStep(mem, two, file, ApplyVerb(t, v))
  {
    ghost var rs := file.Loaded().records;
    EditFollows(file.codec, rs, v);
    SnapshotRoundTrip(file.codec, EditRecords(rs, v), 0);
    match v {
      case PutVerb(id, e) =>
        mem.Put(id, e);
        two.Put(id, e);
        var ok := file.Put(id, e);
      case DeleteVerb(id) =>
        FindIsLookup(rs, id);
        mem.Delete(id);
        two.Delete(id);
        var ok := file.Delete(id);
    }
  }

  /** New stores, the file-backed one over a path with no file, are in step, and empty. */
  method NewStores(codec: Codec, createMode: nat) returns (mem: InMemoryStore, two: TwoIndexStore, file: FileStore)
    requires Frames(codec)
    ensures fresh(mem) && fresh(two) && fresh(file.drive) && file.codec == codec
    ensures InStep(mem, two, file, map[])
  {
    mem := new InMemoryStore();
    two := new TwoIndexStore();
    var drive := new Drive();
    var made := NewFileStore(drive, codec, createMode);
    file := made.value;
  }

  /** Any verbs, on new stores. */
  method SimulateNew(verbs: seq<Verb>, codec: Codec, createMode: nat)
    returns (mem: InMemoryStore, two: TwoIndexStore, file: FileStore)
    requires Frames(codec) && forall i :: 0 <= i < |verbs| ==> Writable(codec, verbs[i])
    ensures InStep(mem, two, file, ApplyAll(verbs))
  {
    mem, two, file := NewStores(codec, createMode);
    Simulate(verbs, mem, two, file);
  }

  /** Any verbs, from empty stores. */
  method Simulate(verbs: seq<Verb>, mem: InMemoryStore, two: TwoIndexStore, file: FileStore)
    requires InStep(mem, two, file, map[])
    requires forall i :: 0 <= i < |verbs| ==> Writable(file.codec, verbs[i])
    modifies mem, two, file.drive
    ensures InStep(mem, two, file, ApplyAll(verbs))
  {
    for i := 0 to |verbs|
      invariant InStep(mem, two, file, ApplyAll(verbs[..i]))
    {
      assert verbs[..i + 1][..i] == verbs[..i];
      Apply(verbs[i], mem, two, file, ApplyAll(verbs[..i]));
    }
    assert verbs[..|verbs|] == verbs;
  }

  /** Stores in step answer alike: Get exactly, the scans as multisets, the residue scan exactly. */
  method AnswersAgree(mem: InMemoryStore, two: TwoIndexStore, file: FileStore, ghost t: Table,
                      id: string, query: string, keys: seq<string>, deleted: string, fx: N.FloatExpand)
    returns (get: seq<Option<Entry>>, scans: seq<seq<Entry>>, scoped: seq<seq<Entry>>, alls: seq<seq<Entry>>,
             residues: seq<Option<RS.Summary>>)
    requires InStep(mem, two, file, t)
    ensures |get| == |scans| == |scoped| == |alls| == |residues| == 3
    ensures get[0] == get[1] == get[2] == Find(t, id)
    ensures multiset(scans[0]) == multiset(scans[1]) == multiset(scans[2]) == Bag(Selected(t, query, None))
    ensures multiset(scoped[0]) == multiset(scoped[1]) == multiset(scoped[2]) == Bag(Selected(t, query, Some(keys)))
    ensures multiset(alls[0]) == multiset(alls[1]) == multiset(alls[2]) == Bag(t)
    ensures residues[0] == residues[1] == residues[2]
    ensures residues[0].Some? ==> residues[0].value.index == PRIMARY
  {
    ghost var rs := file.Loaded().records;
    FindIsLookup(rs, id);
    SelectIsBag(rs, query, None);
    SelectIsBag(rs, query, Some(keys));
    EntriesAreBag(rs);
    var g0 := mem.Get(id);
    var g1 := two.Get(id);
    var ok, g2 := file.Get(id);
    get := [g0, g1, g2];
    var s0, s1, s2, s3, s4, s5;
    s0 := mem.Scan(query);
    s1 := two.Scan(query);
    ok, s2 := file.Scan(query);
    scans := [s0, s1, s2];
    s3 := mem.ScanScoped(query, keys);
    s4 := two.ScanScoped(query, keys);
    ok, s5 := file.ScanScoped(query, keys);
    scoped := [s3, s4, s5];
    var a0, a1, a2;
    a0 := mem.All();
    a1 := two.All();
    ok, a2 := file.All();
    alls := [a0, a1, a2];
    residues := ResiduesAgree(mem, two, file, t, deleted, fx);
  }

  lemma ThreeScansAgree(t: Table, i0: RS.Indexes, i1: RS.Indexes, i2: RS.Indexes, deleted: string, fx: N.FloatExpand,
                        r0: Option<RS.Summary>, r1: Option<RS.Summary>, r2: Option<RS.Summary>)
    requires IsSingle(i0, t) && IsDouble(i1, t) && IsSingle(i2, t)
    requires RS.IsScan(deleted, fx, i0, r0) && RS.IsScan(deleted, fx, i1, r1) && RS.IsScan(deleted, fx, i2, r2)
    ensures r0 == r1 == r2 && (r0.Some? ==> r0.value.index == PRIMARY)
  {
    ScansAgree(t, i0, i1, deleted, fx, r0, r1);
    ScansAgree(t, i2, i1, deleted, fx, r2, r1);
  }

  method FileIndexes(file: FileStore, ghost t: Table) returns (indexes: RS.Indexes)
    requires file.Loaded().Parsed? && UniqueIds(file.Loaded().records) && TableOf(file.Loaded().records) == t
    ensures IsSingle(indexes, t)
  {
    EntriesAreBag(file.Loaded().records);
    var ok;
    ok, indexes := file.AllByIndex();
  }

  method ResiduesAgree(mem: InMemoryStore, two: TwoIndexStore, file: FileStore, ghost t: Table,
                       deleted: string, fx: N.FloatExpand)
    returns (residues: seq<Option<RS.Summary>>)
    requires InStep(mem, two, file, t)
    ensures |residues| == 3 && residues[0] == residues[1] == residues[2]
    ensures residues[0].Some? ==> residues[0].value.index == PRIMARY
  {
    var i0 := mem.AllByIndex();
    var i1 := two.AllByIndex();
    var i2 := FileIndexes(file, t);
    var r0 := RS.ResidueScanIndexes(deleted, i0, fx);
    var r1 := RS.ResidueScanIndexes(deleted, i1, fx);
    var r2 := RS.ResidueScanIndexes(deleted, i2, fx);
    ThreeScansAgree(t, i0, i1, i2, deleted, fx, r0, r1, r2);
    residues := [r0, r1, r2];
  }
}
