/** The storage engine as an object.  Every write to the disk is recorded in the
    ghost field `history`, so a contract can speak about a crash at any step. */
module Engines {
  import opened Common
  import opened SortedSlots
  import opened SkipLists
  import opened Tables
  import opened Merging
  import opened Levels
  import opened Disks
  import Sessions

  const L0_COMPACTION_THRESHOLD := 4
  const L1_COMPACTION_THRESHOLD := 4
  const MEMTABLE_THRESHOLD := 4 * 1024 * 1024

  /** An opened SSTable: its contents stay readable after the file is deleted. */
  datatype Reader = Reader(name: FileName, table: Table)

  function Names(rs: seq<Reader>): seq<FileName> {
    if rs == [] then [] else [rs[0].name] + Names(rs[1..])
  }

  function TableList(rs: seq<Reader>): seq<Table> {
    if rs == [] then [] else [rs[0].table] + TableList(rs[1..])
  }

  lemma {:induction false} ListsAt(rs: seq<Reader>)
    ensures |Names(rs)| == |rs| == |TableList(rs)|
    ensures forall i :: 0 <= i < |rs| ==> Names(rs)[i] == rs[i].name
    ensures forall i :: 0 <= i < |rs| ==> TableList(rs)[i] == rs[i].table
  {
    if rs != [] { ListsAt(rs[1..]); }
  }

  lemma ListsExtend(rs: seq<Reader>, r: Reader)
    ensures Names(rs + [r]) == Names(rs) + [r.name] && TableList(rs + [r]) == TableList(rs) + [r.table]
    ensures Names([r] + rs) == [r.name] + Names(rs) && TableList([r] + rs) == [r.table] + TableList(rs)
  {
    ListsAt(rs);
    ListsAt(rs + [r]);
    assert ([r] + rs)[1..] == rs;
  }

  /** The readers hold the contents of the files they name. */
  ghost predicate Reads(rs: seq<Reader>, files: map<FileName, Table>) {
    forall r :: r in rs ==> r.name in files && files[r.name] == r.table
  }

  /** The readers are those of the listed files, in whatever order. */
  ghost predicate Covers(rs: seq<Reader>, names: seq<FileName>) {
    && NoDuplicates(Names(rs))
    && (forall n :: n in names ==> n in Names(rs))
    && (forall n :: n in Names(rs) ==> n in names)
  }

  lemma {:induction false} InOrder(rs: seq<Reader>, files: map<FileName, Table>)
    requires Reads(rs, files)
    ensures TableList(rs) == TablesOf(files, Names(rs))
  {
    if rs != [] {
      assert rs[0] in rs;
      InOrder(rs[1..], files);
    }
  }

  lemma ReadersAscend(rs: seq<Reader>, files: map<FileName, Table>, names: seq<FileName>)
    requires Reads(rs, files) && Covers(rs, names) && Stored(files, names)
    ensures AllAscending(TableList(rs))
  {
    ListsAt(rs);
    forall i | 0 <= i < |rs| ensures Ascending(TableList(rs)[i]) {
      assert rs[i] in rs && Names(rs)[i] in Names(rs);
    }
  }

  /** Covering readers find a key exactly when the listed files do. */
  lemma CoversHits(rs: seq<Reader>, files: map<FileName, Table>, names: seq<FileName>, k: Key)
    requires Reads(rs, files) && Covers(rs, names) && Stored(files, names)
    ensures FirstHit(TableList(rs), k).Some? <==> FirstHit(TablesOf(files, names), k).Some?
  {
    var ts, us := TableList(rs), TablesOf(files, names);
    ListsAt(rs);
    TablesOfLength(files, names);
    if FirstHit(ts, k).Some? && FirstHit(us, k) == None {
      var i := FirstHitFrom(ts, k);
      assert rs[i] in rs && Names(rs)[i] in Names(rs);
      var j :| 0 <= j < |names| && names[j] == rs[i].name;
      TablesOfAt(files, names, j);
      FirstHitAt(us, k, j);
    }
    if FirstHit(us, k).Some? && FirstHit(ts, k) == None {
      var j := FirstHitFrom(us, k);
      assert names[j] in names;
      TablesOfAt(files, names, j);
      var i :| 0 <= i < |rs| && Names(rs)[i] == names[j];
      assert rs[i] in rs;
      FirstHitAt(ts, k, i);
    }
  }

  /** The engine's books against the disk: what holds between public calls. */
  ghost predicate Coherent(d: Disk, seqNo: nat, l0: seq<Reader>, l1: seq<Reader>, l2: seq<Reader>, next: nat) {
    && WellFormed(d)
    && d.manifest.checkpointSeq <= seqNo && (forall r :: r in d.wal ==> r.seqNo <= seqNo)
    && Names(l0) == d.manifest.l0 && Covers(l1, d.manifest.l1) && Covers(l2, d.manifest.l2)
    && Reads(l0, d.files) && Reads(l1, d.files) && Reads(l2, d.files)
    && next <= d.manifest.nextSstId
    && (forall n :: n in d.manifest.l1 || n in d.manifest.l2 ==> n.id < next)
  }

  /** flushAndCompact up to the compaction, on values: write, save, truncate. */
  lemma FlushDisks(d: Disk, seqNo: nat, l0: seq<Reader>, l1: seq<Reader>, l2: seq<Reader>, next: nat)
    requires Coherent(d, seqNo, l0, l1, l2, next)
    ensures var n, t := Sst(d.manifest.nextSstId), FlushEntries(DiskState(d).mem);
            var written := WriteFile(d, n, t);
            var saved := SaveFlush(written, n, seqNo);
            !Live(d.manifest, n) && WellFormed(written) && WellFormed(saved) && WellFormed(Truncate(saved)) &&
            DiskState(written) == DiskState(d) && DiskState(saved) == Flushed(DiskState(d)) &&
            DiskState(Truncate(saved)) == DiskState(saved)
  {
    var n, t := Sst(d.manifest.nextSstId), FlushEntries(DiskState(d).mem);
    var written := WriteFile(d, n, t);
    assert !Live(d.manifest, n);
    OrphanInvisible(d, n, t);
    SaveFlushState(written, n, seqNo);
    TruncateCovered(SaveFlush(written, n, seqNo));
  }

  lemma FlushCoherent(d: Disk, seqNo: nat, l0: seq<Reader>, l1: seq<Reader>, l2: seq<Reader>, next: nat)
    requires Coherent(d, seqNo, l0, l1, l2, next)
    ensures var n, t := Sst(d.manifest.nextSstId), FlushEntries(DiskState(d).mem);
            Coherent(Truncate(SaveFlush(WriteFile(d, n, t), n, seqNo)), seqNo, [Reader(n, t)] + l0, l1, l2, next)
  {
    var n, t := Sst(d.manifest.nextSstId), FlushEntries(DiskState(d).mem);
    var files := d.files[n := t];
    FlushDisks(d, seqNo, l0, l1, l2, next);
    ListsExtend(l0, Reader(n, t));
    ReadsKept(l0, d.manifest.l0, d.files, files);
    ReadsKept(l1, d.manifest.l1, d.files, files);
    ReadsKept(l2, d.manifest.l2, d.files, files);
    assert Reads([Reader(n, t)] + l0, files);
  }

  /** A crash at any step of write, save, truncate keeps every recovered read. */
  lemma FlushCrash(d: Disk, seqNo: nat, l0: seq<Reader>, l1: seq<Reader>, l2: seq<Reader>, next: nat)
    requires Coherent(d, seqNo, l0, l1, l2, next)
    ensures var n, t := Sst(d.manifest.nextSstId), FlushEntries(DiskState(d).mem);
            var written := WriteFile(d, n, t);
            var saved := SaveFlush(written, n, seqNo);
            AllWellFormed([written, saved, Truncate(saved)]) &&
            Recovers([written, saved, Truncate(saved)], DiskState(d))
  {
    FlushDisks(d, seqNo, l0, l1, l2, next);
    FlushedSameReads(d);
    hide WellFormed, DiskState, Truncate, SaveFlush, WriteFile, Coherent, Flushed, FlushEntries, Get;
    var n, t := Sst(d.manifest.nextSstId), FlushEntries(DiskState(d).mem);
    var written := WriteFile(d, n, t);
    var saved := SaveFlush(written, n, seqNo);
    ThreeDisks([written, saved, Truncate(saved)], DiskState(d));
  }

  lemma FlushedSameReads(d: Disk)
    ensures SameReads(Flushed(DiskState(d)), DiskState(d))
  {
    ReplayShape(d.wal, d.manifest.checkpointSeq);
    FlushKeepsReads(DiskState(d));
  }

  /** Manifest::compactL0ToL1 drops each merged name from the list it was in. */
  function EraseFirst(names: seq<FileName>, n: FileName): seq<FileName> {
    if names == [] then [] else if names[0] == n then names[1..] else [names[0]] + EraseFirst(names[1..], n)
  }

  function EraseAll(names: seq<FileName>, olds: seq<FileName>): seq<FileName>
    decreases olds
  {
    if olds == [] then names else EraseAll(EraseFirst(names, olds[0]), olds[1..])
  }

  lemma {:induction false} EraseFirstMembers(names: seq<FileName>, n: FileName)
    requires NoDuplicates(names)
    ensures NoDuplicates(EraseFirst(names, n))
    ensures forall m :: m in EraseFirst(names, n) <==> m in names && m != n
  {
    if names != [] {
      if names[0] == n {
        forall m | m in names[1..] ensures m != n {
          var i :| 0 <= i < |names[1..]| && names[1..][i] == m;
          assert names[i + 1] == m;
        }
      } else {
        EraseFirstMembers(names[1..], n);
        var rest := EraseFirst(names[1..], n);
        assert forall i :: 0 <= i < |names[1..]| ==> names[1..][i] == names[i + 1] != names[0];
        assert names[0] !in rest;
        PrependFresh(rest, names[0]);
      }
    }
  }

  lemma HasMember(names: seq<FileName>)
    ensures names == [] || exists n :: n in names
  {
    if names != [] { assert names[0] in names; }
  }

  lemma {:induction false} EraseAllCovered(names: seq<FileName>, olds: seq<FileName>)
    requires NoDuplicates(names) && forall n :: n in names ==> n in olds
    ensures EraseAll(names, olds) == []
    decreases olds
  {
    if olds == [] {
      HasMember(names);
    } else {
      EraseFirstMembers(names, olds[0]);
      EraseAllCovered(EraseFirst(names, olds[0]), olds[1..]);
    }
  }

  /** The disks passed through while files are deleted one by one. */
  function DeleteTrace(d: Disk, names: seq<FileName>): seq<Disk>
    decreases names
  {
    if names == [] then [] else [DeleteFile(d, names[0])] + DeleteTrace(DeleteFile(d, names[0]), names[1..])
  }

  function DeleteAll(d: Disk, names: seq<FileName>): Disk
    decreases names
  {
    if names == [] then d else DeleteAll(DeleteFile(d, names[0]), names[1..])
  }

  lemma {:induction false} DeleteTraceInvisible(d: Disk, names: seq<FileName>)
    requires WellFormed(d) && forall n :: n in names ==> !Live(d.manifest, n)
    ensures forall e :: e in DeleteTrace(d, names) ==> WellFormed(e) && DiskState(e) == DiskState(d)
    ensures WellFormed(DeleteAll(d, names)) && DiskState(DeleteAll(d, names)) == DiskState(d)
    ensures DeleteAll(d, names).manifest == d.manifest && DeleteAll(d, names).wal == d.wal
    ensures forall n :: n in d.files && n !in names ==>
              n in DeleteAll(d, names).files && DeleteAll(d, names).files[n] == d.files[n]
    decreases names
  {
    if names != [] {
      OrphanInvisible(d, names[0], []);
      DeleteTraceInvisible(DeleteFile(d, names[0]), names[1..]);
    }
  }

  lemma CoversAppend(rs: seq<Reader>, names: seq<FileName>, r: Reader)
    requires Covers(rs, names) && r.name !in names
    ensures Covers(rs + [r], [r.name] + names)
  {
    var ns, ns' := Names(rs), Names(rs + [r]);
    ListsExtend(rs, r);
    forall i, j | 0 <= i < j < |ns'| ensures ns'[i] != ns'[j] {
      if j == |ns| { assert ns[i] in ns; }
    }
  }

  /** compactLevel(0) on values: write the merge, save, delete the sources. */
  lemma Compact0Disks(d: Disk, seqNo: nat, l0: seq<Reader>, l1: seq<Reader>, l2: seq<Reader>, next: nat)
    requires Coherent(d, seqNo, l0, l1, l2, next) && |l0| >= 2
    ensures var out, t := L1File(next), Compacted(TableList(l0));
            var written := WriteFile(d, out, t);
            var saved := SaveCompact0(written, out, next + 1);
            !Live(d.manifest, out) && WellFormed(written) && WellFormed(saved) &&
            DiskState(written) == DiskState(d) && DiskState(saved) == Compact0(DiskState(d), Front) &&
            (forall n :: n in Names(l0) ==> !Live(saved.manifest, n))
  {
    var out, t := L1File(next), Compacted(TableList(l0));
    var written := WriteFile(d, out, t);
    assert !Live(d.manifest, out);
    OrphanInvisible(d, out, t);
    InOrder(l0, d.files);
    TablesOfFrame(d.files, written.files, d.manifest.l0);
    Sources0Dropped(d, seqNo, l0, l1, l2, next, SaveCompact0(written, out, next + 1).manifest);
    hide Compacted, Replay, Live;
    SaveCompact0State(written, out, next + 1);
  }

  /** The merged files of L0 are in no list of the saved manifest. */
  lemma Sources0Dropped(d: Disk, seqNo: nat, l0: seq<Reader>, l1: seq<Reader>, l2: seq<Reader>, next: nat,
                        m: ManifestData)
    requires Coherent(d, seqNo, l0, l1, l2, next)
    requires m.l0 == [] && m.l1 == [L1File(next)] + d.manifest.l1 && m.l2 == d.manifest.l2
    ensures forall n :: n in Names(l0) ==> !Live(m, n)
  {
  }

  /** Deleting files that are not live keeps the books coherent. */
  lemma CoherentAfterDelete(d: Disk, seqNo: nat, l0: seq<Reader>, l1: seq<Reader>, l2: seq<Reader>, next: nat,
                            names: seq<FileName>)
    requires Coherent(d, seqNo, l0, l1, l2, next) && forall n :: n in names ==> !Live(d.manifest, n)
    ensures Coherent(DeleteAll(d, names), seqNo, l0, l1, l2, next)
  {
    DeleteTraceInvisible(d, names);
    var files := DeleteAll(d, names).files;
    ReadsKept(l0, d.manifest.l0, d.files, files);
    ReadsKept(l1, d.manifest.l1, d.files, files);
    ReadsKept(l2, d.manifest.l2, d.files, files);
  }

  lemma Compact0Coherent(d: Disk, seqNo: nat, l0: seq<Reader>, l1: seq<Reader>, l2: seq<Reader>, next: nat)
    requires Coherent(d, seqNo, l0, l1, l2, next) && |l0| >= 2
    ensures var out, t := L1File(next), Compacted(TableList(l0));
            var saved := SaveCompact0(WriteFile(d, out, t), out, next + 1);
            Coherent(saved, seqNo, [], l1 + [Reader(out, t)], l2, next + 1)
  {
    var out, t := L1File(next), Compacted(TableList(l0));
    Compact0Disks(d, seqNo, l0, l1, l2, next);
    hide Compacted, Replay, TablesOf, DiskState, Compact0, WellFormed, Covers, Reads;
    CoversAppend(l1, d.manifest.l1, Reader(out, t));
    NewFileRead(l1, d.files, Reader(out, t));
    NewFileRead(l2, d.files, Reader(out, t));
    NotAmong(l1, d.manifest.l1, out);
    NotAmong(l2, d.manifest.l2, out);
    NoReaders(d.files[out := t]);
  }

  lemma NotAmong(rs: seq<Reader>, names: seq<FileName>, n: FileName)
    requires Covers(rs, names) && n !in names
    ensures n !in Names(rs)
  {
  }

  lemma NoReaders(files: map<FileName, Table>)
    ensures Names([]) == [] && Reads([], files)
  {
  }

  /** Readers go on reading their files when another file is written. */
  lemma NewFileRead(rs: seq<Reader>, files: map<FileName, Table>, r: Reader)
    ensures Reads(rs, files) && r.name !in Names(rs) ==>
              Reads(rs, files[r.name := r.table]) && Reads(rs + [r], files[r.name := r.table])
  {
    ListsAt(rs);
    forall x | x in rs && r.name !in Names(rs) ensures x.name != r.name {
      var i :| 0 <= i < |rs| && rs[i] == x;
      assert Names(rs)[i] in Names(rs);
    }
  }

  lemma ReadsKept(rs: seq<Reader>, names: seq<FileName>, files: map<FileName, Table>, files': map<FileName, Table>)
    requires Reads(rs, files) && (forall n :: n in Names(rs) ==> n in names)
    requires forall n :: n in names ==> n in files && n in files' && files'[n] == files[n]
    ensures Reads(rs, files')
  {
    ListsAt(rs);
    forall r | r in rs ensures r.name in files' && files'[r.name] == r.table {
      var i :| 0 <= i < |rs| && rs[i] == r;
      assert Names(rs)[i] in Names(rs);
    }
  }

  /** compactLevel(1) on values, as the cascade runs it: L0 is empty. */
  lemma Compact1Disks(d: Disk, seqNo: nat, l1: seq<Reader>, l2: seq<Reader>, next: nat)
    requires Coherent(d, seqNo, [], l1, l2, next)
    ensures var out, t := L2File(next), Compacted(TableList(l1));
            var written := WriteFile(d, out, t);
            var saved := SaveCompact1(written, out, next + 1);
            !Live(d.manifest, out) && WellFormed(written) && WellFormed(saved) &&
            DiskState(written) == DiskState(d) &&
            DiskState(saved) == DiskState(d).(l1 := [], l2 := [t] + DiskState(d).l2) &&
            (forall n :: n in Names(l1) ==> !Live(saved.manifest, n))
  {
    var out, t := L2File(next), Compacted(TableList(l1));
    assert !Live(d.manifest, out);
    OrphanInvisible(d, out, t);
    ReadersAscend(l1, d.files, d.manifest.l1);
    SaveCompact1State(WriteFile(d, out, t), out, next + 1, TableList(l1));
  }

  lemma Compact1Coherent(d: Disk, seqNo: nat, l1: seq<Reader>, l2: seq<Reader>, next: nat)
    requires Coherent(d, seqNo, [], l1, l2, next)
    ensures var out, t := L2File(next), Compacted(TableList(l1));
            var saved := SaveCompact1(WriteFile(d, out, t), out, next + 1);
            Coherent(saved, seqNo, [], [], l2 + [Reader(out, t)], next + 1)
  {
    var out, t := L2File(next), Compacted(TableList(l1));
    var written := WriteFile(d, out, t);
    Compact1Disks(d, seqNo, l1, l2, next);
    CoversAppend(l2, d.manifest.l2, Reader(out, t));
    ReadsKept(l2, d.manifest.l2, d.files, written.files);
    assert Reads(l2 + [Reader(out, t)], written.files);
  }

  /** All disks of a compaction, in order. */
  function MergeTrace(written: Disk, saved: Disk, names: seq<FileName>): seq<Disk> {
    [written] + [saved] + DeleteTrace(saved, names)
  }

  ghost predicate Recovers(trace: seq<Disk>, s: State) {
    forall e :: e in trace ==> SameReads(DiskState(e), s)
  }

  ghost predicate AllWellFormed(trace: seq<Disk>) {
    forall e :: e in trace ==> WellFormed(e)
  }

  lemma MergeTraceCrash(d: Disk, written: Disk, saved: Disk, names: seq<FileName>)
    requires WellFormed(written) && WellFormed(saved) && DiskState(written) == DiskState(d)
    requires forall n :: n in names ==> !Live(saved.manifest, n)
    ensures AllWellFormed(MergeTrace(written, saved, names))
    ensures Recovers(MergeTrace(written, saved, names), DiskState(d)) <==> SameReads(DiskState(saved), DiskState(d))
  {
    DeleteTraceInvisible(saved, names);
    assert saved in MergeTrace(written, saved, names);
    forall e | e in MergeTrace(written, saved, names)
      ensures WellFormed(e) && (DiskState(e) == DiskState(d) || DiskState(e) == DiskState(saved))
    {
    }
  }

  /** A crash anywhere in compactLevel(0) keeps every recovered read. */
  lemma Compact0Crash(d: Disk, seqNo: nat, l0: seq<Reader>, l1: seq<Reader>, l2: seq<Reader>, next: nat)
    requires Coherent(d, seqNo, l0, l1, l2, next) && |l0| >= 2
    ensures var out, t := L1File(next), Compacted(TableList(l0));
            var written := WriteFile(d, out, t);
            var saved := SaveCompact0(written, out, next + 1);
            AllWellFormed(MergeTrace(written, saved, Names(l0))) &&
            (NoEmptyValues(DiskState(d)) ==> Recovers(MergeTrace(written, saved, Names(l0)), DiskState(d)))
  {
    var out, t := L1File(next), Compacted(TableList(l0));
    var written := WriteFile(d, out, t);
    var saved := SaveCompact0(written, out, next + 1);
    Compact0Disks(d, seqNo, l0, l1, l2, next);
    MergeTraceCrash(d, written, saved, Names(l0));
    if NoEmptyValues(DiskState(d)) {
      DiskStateSorted(d);
      FrontIsGuarded(DiskState(d));
      Compact0Exact(DiskState(d), Front);
    }
  }

  /** A crash anywhere in the cascade keeps them exactly if the merge order answers like
      the saved order. */
  lemma Compact1Crash(d: Disk, seqNo: nat, l1: seq<Reader>, l2: seq<Reader>, next: nat)
    requires Coherent(d, seqNo, [], l1, l2, next)
    ensures var out, t := L2File(next), Compacted(TableList(l1));
            var written := WriteFile(d, out, t);
            var saved := SaveCompact1(written, out, next + 1);
            AllWellFormed(MergeTrace(written, saved, Names(l1))) &&
            (NoEmptyValues(DiskState(d)) ==>
               (Recovers(MergeTrace(written, saved, Names(l1)), DiskState(d)) <==>
                SameHits(DiskState(d).mem, TableList(l1), DiskState(d).l1)))
  {
    var out, t := L2File(next), Compacted(TableList(l1));
    var written := WriteFile(d, out, t);
    var saved := SaveCompact1(written, out, next + 1);
    Compact1Disks(d, seqNo, l1, l2, next);
    MergeTraceCrash(d, written, saved, Names(l1));
    if NoEmptyValues(DiskState(d)) {
      ReadersAscend(l1, d.files, d.manifest.l1);
      NoEmptyReaders(l1, d.files, d.manifest.l1);
      forall k { CoversHits(l1, d.files, d.manifest.l1, k); }
      MergedOrderExact(DiskState(d), TableList(l1));
    }
  }

  /** Four tables in L1, each rewriting key 1: the manifest lists the newest first, the
      running engine holds them as they were appended, the oldest first. */
  function FourTables(): Disk {
    Disk(map[L1File(0) := [Entry(1, [5])], L1File(1) := [Entry(1, [6])], L1File(2) := [Entry(1, [7])],
             L1File(3) := [Entry(1, [8])]],
         ManifestData(0, 4, [], [L1File(3), L1File(2), L1File(1), L1File(0)], []), [])
  }

  function Appended(): seq<Reader> {
    [Reader(L1File(0), [Entry(1, [5])]), Reader(L1File(1), [Entry(1, [6])]), Reader(L1File(2), [Entry(1, [7])]),
     Reader(L1File(3), [Entry(1, [8])])]
  }

  lemma FourTablesWellFormed()
    ensures WellFormed(FourTables())
  {
    var m := FourTables().manifest;
    assert m.l1[0] != m.l1[1] && m.l1[2] != m.l1[3];
  }

  lemma FourTablesCovered()
    ensures Covers(Appended(), FourTables().manifest.l1) && Reads(Appended(), FourTables().files)
  {
    hide WellFormed;
    var rs, ns := Appended(), [L1File(0), L1File(1), L1File(2), L1File(3)];
    assert Names(rs) == ns by { ListsAt(rs); }
    assert FourTables().manifest.l1 == [ns[3], ns[2], ns[1], ns[0]];
  }

  lemma FourTablesCoherent()
    ensures Coherent(FourTables(), 0, [], Appended(), [], 4) && |Appended()| == L1_COMPACTION_THRESHOLD
  {
    FourTablesWellFormed();
    FourTablesCovered();
    hide WellFormed, Covers, Reads;
    ListsAt([]);
    NoReaders(FourTables().files);
    assert Covers([], []) by { NothingCovered(); }
  }

  lemma NothingCovered()
    ensures Covers([], [])
  {
  }

  lemma FourTablesStates()
    ensures DiskState(FourTables()) ==
            State([], [], [[Entry(1, [8])], [Entry(1, [7])], [Entry(1, [6])], [Entry(1, [5])]], [])
    ensures TableList(Appended()) == [[Entry(1, [5])], [Entry(1, [6])], [Entry(1, [7])], [Entry(1, [8])]]
  {
    var d := FourTables();
    TablesOfLength(d.files, d.manifest.l1);
    forall i | 0 <= i < 4 { TablesOfAt(d.files, d.manifest.l1, i); }
    ListsAt(Appended());
  }

  /** Compacting these four tables writes the oldest value to L2 and removes the newer
      ones: what the disk recovered before is lost for good. */
  lemma CascadePersistsStaleValue()
    ensures var d, l1 := FourTables(), Appended();
            var written := WriteFile(d, L2File(4), Compacted(TableList(l1)));
            var saved := SaveCompact1(written, L2File(4), 5);
            && Coherent(d, 0, [], l1, [], 4) && |l1| == L1_COMPACTION_THRESHOLD && NoEmptyValues(DiskState(d))
            && Get(DiskState(d), 1) == Some([8]) && Get(DiskState(saved), 1) == Some([5])
            && !Recovers(MergeTrace(written, saved, Names(l1)), DiskState(d))
  {
    FourTablesCoherent();
    FourTablesStates();
    var d, l1 := FourTables(), Appended();
    Compact1Disks(d, 0, l1, [], 4);
    hide Coherent, Compacted, DiskState, Get, WellFormed, NoEmptyValues, FourTables, Appended, WriteFile, SaveCompact1;
    MergedFour(DiskState(d), TableList(l1));
    MergeTraceCrash(d, WriteFile(d, L2File(4), Compacted(TableList(l1))),
                    SaveCompact1(WriteFile(d, L2File(4), Compacted(TableList(l1))), L2File(4), 5), Names(l1));
  }

  lemma MergedFour(s: State, ts: seq<Table>)
    requires s == State([], [], [[Entry(1, [8])], [Entry(1, [7])], [Entry(1, [6])], [Entry(1, [5])]], [])
    requires ts == [[Entry(1, [5])], [Entry(1, [6])], [Entry(1, [7])], [Entry(1, [8])]]
    ensures NoEmptyValues(s) && Get(s, 1) == Some([8])
    ensures Get(s.(l1 := [], l2 := [Compacted(ts)] + s.l2), 1) == Some([5])
  {
    CompactedLookup(ts, 1);
    hide Compacted;
    var t := s.(l1 := [], l2 := [Compacted(ts)] + s.l2);
    forall v { OneEntry(v); }
    assert FirstHit(ts, 1) == Some([5]) by { assert ts[0] == [Entry(1, [5])]; }
    assert SearchedTables(t) == [Compacted(ts)] && SearchedTables(s)[0] == [Entry(1, [8])];
    assert FirstHit([Compacted(ts)], 1) == Some([5]);
  }

  lemma OneEntry(v: Bytes)
    ensures forall k :: Lookup([Entry(1, v)], k) == if k == 1 then Some(v) else None
  {
  }

  lemma NoEmptyReaders(rs: seq<Reader>, files: map<FileName, Table>, names: seq<FileName>)
    requires Reads(rs, files) && Covers(rs, names) && Stored(files, names)
    requires NoEmptyHits(TablesOf(files, names))
    ensures NoEmptyHits(TableList(rs))
  {
    ListsAt(rs);
    forall k, i | 0 <= i < |rs| ensures Lookup(TableList(rs)[i], k) != Some([]) {
      assert rs[i] in rs && Names(rs)[i] in Names(rs);
      var j :| 0 <= j < |names| && names[j] == rs[i].name;
      TablesOfAt(files, names, j);
    }
  }

  /** What flushAndCompact and compactLevel make of the state reads see. */
  function Cascaded(s: State): State {
    if |s.l1| >= L1_COMPACTION_THRESHOLD then Compact1(s, Back) else s
  }

  function CompactedRun(s: State): State {
    if |s.l0| < 2 then s else Cascaded(Compact0(s, Back))
  }

  function FlushedRun(s: State): State {
    var f := Flushed(s);
    if |f.l0| >= L0_COMPACTION_THRESHOLD then CompactedRun(f) else f
  }

  /** A flush empties the memtable.  The fourth table in L0 is merged with the three others into
      one of L1, and the fourth in L1 with its three others into one of L2. */
  lemma LevelsStayShort(s: State)
    ensures var t := FlushedRun(s);
            && t.mem == [] && |t.l0| == (if |s.l0| >= 3 then 0 else |s.l0| + 1)
            && (|s.l0| < 3 ==> t.l1 == s.l1 && t.l2 == s.l2)
            && (|s.l0| >= 3 ==> |t.l1| == (if |s.l1| >= 3 then 0 else |s.l1| + 1))
            && (|s.l0| >= 3 ==> |t.l2| == |s.l2| + if |s.l1| >= 3 then 1 else 0)
  {
    hide Compacted, FlushEntries;
  }

  /** A compaction merges two tables or more of L0 into one, and leaves fewer alone. */
  lemma CompactsFromTwo(s: State)
    ensures |s.l0| < 2 ==> CompactedRun(s) == s
    ensures |s.l0| >= 2 ==> CompactedRun(s).l0 == [] && CompactedRun(s).mem == s.mem
  {
  }

  /** What they make of the state the disk recovers. */
  function CascadedSaved(run: State, saved: State): State {
    if |run.l1| >= L1_COMPACTION_THRESHOLD then saved.(l1 := [], l2 := [Compacted(run.l1)] + saved.l2) else saved
  }

  function CompactedSaved(run: State, saved: State): State {
    if |run.l0| < 2 then saved else CascadedSaved(Compact0(run, Back), Compact0(saved, Front))
  }

  function FlushedSaved(run: State, saved: State): State {
    var f := Flushed(run);
    if |f.l0| >= L0_COMPACTION_THRESHOLD then CompactedSaved(f, Flushed(saved)) else Flushed(saved)
  }

  /** The events a compaction and a flush with its compactions amount to. */
  function CompactEvents(run: State): seq<Sessions.Event> {
    if |run.l0| < 2 then []
    else [Sessions.CompactL0] + if |Compact0(run, Back).l1| >= L1_COMPACTION_THRESHOLD then [Sessions.Cascade] else []
  }

  function FlushEvents(run: State): seq<Sessions.Event> {
    var f := Flushed(run);
    [Sessions.Flush] + if |f.l0| >= L0_COMPACTION_THRESHOLD then CompactEvents(f) else []
  }

  lemma CompactionIsEvents(q: Sessions.Pair)
    ensures Sessions.Played(q, CompactEvents(q.run), Back) ==
            Sessions.Pair(CompactedRun(q.run), CompactedSaved(q.run, q.saved))
  {
    hide Compacted;
    var events := CompactEvents(q.run);
    if events != [] {
      var c := Sessions.After(q, events[0], Back);
      assert events[1..] == [] || events[1..] == [Sessions.Cascade];
      assert events[1..] == [Sessions.Cascade] ==>
        Sessions.Played(c, events[1..], Back) == Sessions.After(c, Sessions.Cascade, Back);
    }
  }

  /** So whole lives of the engine are sessions: what a flush with its compactions does to
      reads and to the disk is a sequence of their events, chosen by the size triggers. */
  lemma FlushIsEvents(q: Sessions.Pair)
    requires q.run.mem != [] && q.saved.mem != []
    ensures Sessions.Played(q, FlushEvents(q.run), Back) ==
            Sessions.Pair(FlushedRun(q.run), FlushedSaved(q.run, q.saved))
  {
    hide FlushEntries, Compacted;
    var events := FlushEvents(q.run);
    var f := Sessions.Pair(Flushed(q.run), Flushed(q.saved));
    assert Sessions.After(q, events[0], Back) == f;
    CompactionIsEvents(f);
    assert events[1..] == [] || events[1..] == CompactEvents(f.run);
  }

  /** The one thing that spoils recovery: a cascade, run because L1 has come to four
      tables, that merges them in an order answering differently from the saved one. */
  ghost predicate CascadeAgrees(run: State, saved: State) {
    var r, d := Compact0(run, Back), Compact0(saved, Front);
    |run.l0| >= 2 && |r.l1| >= L1_COMPACTION_THRESHOLD ==> SameHits(saved.mem, r.l1, d.l1)
  }

  /** The same for a flush, which compacts L0 once it has come to four tables. */
  ghost predicate FlushAgrees(run: State, saved: State) {
    |Flushed(run).l0| >= L0_COMPACTION_THRESHOLD ==> CascadeAgrees(Flushed(run), Flushed(saved))
  }

  /** Open the files a manifest lists, in its order. */
  method OpenReaders(files: map<FileName, Table>, names: seq<FileName>) returns (rs: seq<Reader>)
    requires Stored(files, names)
    ensures Names(rs) == names && Reads(rs, files)
  {
    rs := [];
    var i := 0;
    while i < |names|
      invariant 0 <= i <= |names|
      invariant Names(rs) == names[..i] && Reads(rs, files)
    {
      assert names[i] in names;
      ListsExtend(rs, Reader(names[i], files[names[i]]));
      rs := rs + [Reader(names[i], files[names[i]])];
      i := i + 1;
    }
  }

  /** WAL replay into a fresh memtable; the log also tells the highest number. */
  method ReplayWal(wal: seq<WalRecord>, minSeq: nat) returns (mem: SkipList, maxSeq: nat)
    ensures mem.Valid() && fresh(mem.Repr)
    ensures mem.Slots == Replay(wal, minSeq) && maxSeq == MaxSeq(wal)
  {
    mem := new SkipList();
    maxSeq := 0;
    var i := 0;
    while i < |wal|
      invariant 0 <= i <= |wal|
      invariant mem.Valid() && fresh(mem.Repr)
      invariant mem.Slots == Replay(wal[..i], minSeq) && maxSeq == MaxSeq(wal[..i])
    {
      assert wal[..i + 1][..i] == wal[..i];
      var r := wal[i];
      if r.seqNo > maxSeq {
        maxSeq := r.seqNo;
      }
      if r.seqNo > minSeq {
        var level: nat :| level <= MAX_LEVEL;
        mem.Put(r.key, r.value, level);
      }
      i := i + 1;
    }
    assert wal[..|wal|] == wal;
  }

  /** Crash points before and after a state with the same reads. */
  lemma CompactionCrashes(run: State, saved: State, first: seq<Disk>, more: seq<Disk>)
    requires Sorted(saved) && |saved.l0| >= 2
    ensures AllWellFormed(first) && AllWellFormed(more) ==> AllWellFormed(first + more)
    ensures NoEmptyValues(saved) && Recovers(first, saved) ==>
              (Recovers(first + more, saved) <==> Recovers(more, Compact0(saved, Front)))
    ensures NoEmptyValues(saved) ==> NoEmptyValues(Compact0(saved, Front))
  {
    if NoEmptyValues(saved) {
      StepKeepsShape(saved, Op.CompactL0, Front);
      FrontIsGuarded(saved);
      Compact0Exact(saved, Front);
      TracesJoin(first, more, saved);
      SameReadsRecover(more, saved, Compact0(saved, Front));
    }
  }

  lemma SameReadsRecover(trace: seq<Disk>, s: State, t: State)
    requires SameReads(s, t)
    ensures Recovers(trace, s) <==> Recovers(trace, t)
  {
  }

  lemma FlushCrashes(saved: State, first: seq<Disk>, more: seq<Disk>)
    requires Sorted(saved)
    ensures AllWellFormed(first) && AllWellFormed(more) ==> AllWellFormed(first + more)
    ensures NoEmptyValues(saved) && Recovers(first, saved) ==>
            (Recovers(first + more, saved) <==> Recovers(more, Flushed(saved)))
    ensures NoEmptyValues(saved) ==> NoEmptyValues(Flushed(saved))
  {
    if NoEmptyValues(saved) {
      FlushKeepsReads(saved);
      FlushKeepsShape(saved);
      TracesJoin(first, more, saved);
      SameReadsRecover(more, saved, Flushed(saved));
    }
  }

  lemma LoggedTrace(d: Disk, saved: State)
    requires WellFormed(d) && DiskState(d) == saved
    ensures AllWellFormed([d]) && Recovers([d], saved)
  {
  }

  /** What compactLevel(0) does, up to the cascade: the merged table goes last in
      memory and first in the manifest, and the old files go. */
  ghost predicate Merged0(d: Disk, h: seq<Disk>, l0: seq<Reader>, l1: seq<Reader>, id: nat,
                          d': Disk, h': seq<Disk>, l1': seq<Reader>, m: ManifestData)
  {
    var out, t := L1File(id), Compacted(TableList(l0));
    var written := WriteFile(d, out, t);
    var saved := SaveCompact0(written, out, id + 1);
    l1' == l1 + [Reader(out, t)] && m == saved.manifest && d' == DeleteAll(saved, Names(l0)) &&
    h' == h + MergeTrace(written, saved, Names(l0))
  }

  ghost predicate Merged1(d: Disk, h: seq<Disk>, l1: seq<Reader>, l2: seq<Reader>, id: nat,
                          d': Disk, h': seq<Disk>, l2': seq<Reader>, m: ManifestData)
  {
    var out, t := L2File(id), Compacted(TableList(l1));
    var written := WriteFile(d, out, t);
    var saved := SaveCompact1(written, out, id + 1);
    l2' == l2 + [Reader(out, t)] && m == saved.manifest && d' == DeleteAll(saved, Names(l1)) &&
    h' == h + MergeTrace(written, saved, Names(l1))
  }

  lemma MergeHistory(h: seq<Disk>, written: Disk, saved: Disk, names: seq<FileName>)
    ensures h + [written] + [saved] + DeleteTrace(saved, names) == h + MergeTrace(written, saved, names)
  {
    hide DeleteTrace;
  }

  lemma NoTrace()
    ensures AllWellFormed([]) && forall s :: Recovers([], s)
  {
  }

  lemma TracesJoin(a: seq<Disk>, b: seq<Disk>, s: State)
    ensures AllWellFormed(a) && AllWellFormed(b) ==> AllWellFormed(a + b)
    ensures Recovers(a + b, s) <==> Recovers(a, s) && Recovers(b, s)
  {
    assert forall e :: e in a + b <==> e in a || e in b;
  }

  lemma FlushKeepsShape(s: State)
    requires Sorted(s) && NoEmptyValues(s)
    ensures NoEmptyValues(Flushed(s))
  {
    forall k ensures Lookup(FlushEntries(s.mem), k) != Some([]) { FlushEntriesLookup(s.mem, k); }
  }

  /** Appending one record to the log adds one put to the recovered state. */
  lemma LogPut(d: Disk, seqNo: nat, l0: seq<Reader>, l1: seq<Reader>, l2: seq<Reader>, next: nat, key: Key,
               value: Bytes)
    requires Coherent(d, seqNo, l0, l1, l2, next)
    ensures var d' := d.(wal := d.wal + [WalRecord(seqNo + 1, key, value)]);
            Coherent(d', seqNo + 1, l0, l1, l2, next) && WellFormed(d') &&
            DiskState(d') == Step(DiskState(d), Op.Put(key, value), Back)
  {
    ReplayAppend(d.wal, WalRecord(seqNo + 1, key, value), d.manifest.checkpointSeq);
  }

  /** flushLocked's crash points: it truncates the log before it saves the manifest,
      so a crash in between recovers all reads exactly if the tables already did. */
  lemma FlushLockedCrash(d: Disk, seqNo: nat, l0: seq<Reader>, l1: seq<Reader>, l2: seq<Reader>, next: nat)
    requires Coherent(d, seqNo, l0, l1, l2, next)
    ensures var n, t := Sst(d.manifest.nextSstId), FlushEntries(DiskState(d).mem);
            var written := WriteFile(d, n, t);
            var trace := [written, Truncate(written), Truncate(SaveFlush(written, n, seqNo))];
            AllWellFormed(trace) && (Recovers(trace, DiskState(d)) <==> TablesAnswerMem(DiskState(d)))
  {
    var n, t := Sst(d.manifest.nextSstId), FlushEntries(DiskState(d).mem);
    var written := WriteFile(d, n, t);
    var trace := [written, Truncate(written), Truncate(SaveFlush(written, n, seqNo))];
    FlushDisks(d, seqNo, l0, l1, l2, next);
    ReplayShape(d.wal, d.manifest.checkpointSeq);
    FlushKeepsReads(DiskState(d));
    TruncateFirstExact(written);
    hide WellFormed, SameReads, DiskState, Truncate, SaveFlush, WriteFile, TablesAnswerMem, Coherent, Flushed;
    ThreeDisks(trace, DiskState(d));
  }

  lemma ThreeDisks(trace: seq<Disk>, s: State)
    requires |trace| == 3
    ensures AllWellFormed(trace) <==> WellFormed(trace[0]) && WellFormed(trace[1]) && WellFormed(trace[2])
    ensures Recovers(trace, s) <==>
            SameReads(DiskState(trace[0]), s) && SameReads(DiskState(trace[1]), s) && SameReads(DiskState(trace[2]), s)
  {
    hide WellFormed, SameReads, DiskState;
    assert forall e :: e in trace <==> e == trace[0] || e == trace[1] || e == trace[2];
  }

  ghost predicate TablesAnswerMem(s: State) {
    forall k :: MemGet(s.mem, k).Some? ==> Visible(MemGet(s.mem, k)) == View(SearchedTables(s), k)
  }

  /** forEachLive, first pass: note for every key of a table whether it is empty. */
  method NoteTable(state: map<Key, bool>, t: Table) returns (state': map<Key, bool>)
    requires Tables.Ascending(t)
    ensures forall k :: k in state' <==> k in state || Lookup(t, k).Some?
    ensures forall k :: k in state' ==> state'[k] == if Lookup(t, k).Some? then Lookup(t, k) == Some([]) else state[k]
  {
    state' := state;
    var i := 0;
    while i < |t|
      invariant 0 <= i <= |t|
      invariant forall k :: k in state' <==> k in state || Lookup(t[..i], k).Some?
      invariant forall k :: k in state' ==>
                  state'[k] == if Lookup(t[..i], k).Some? then Lookup(t[..i], k) == Some([]) else state[k]
    {
      assert t[..i + 1] == t[..i] + [t[i]];
      forall k { LookupAppend(t[..i], t[i], k); }
      LookupNone(t[..i], t[i].key);
      state' := state'[t[i].key := t[i].value == []];
      i := i + 1;
    }
    assert t[..|t|] == t;
  }

  ghost function NoteOf(ts: seq<Table>, state: map<Key, bool>, k: Key): bool
    requires k in state || FirstHit(ts, k).Some?
  {
    if FirstHit(ts, k).Some? then FirstHit(ts, k) == Some([]) else state[k]
  }

  /** The tables of one level, oldest first, so that the newest note stays. */
  method NoteLevel(state: map<Key, bool>, rs: seq<Reader>) returns (state': map<Key, bool>)
    requires AllAscending(TableList(rs))
    ensures forall k :: k in state' <==> k in state || FirstHit(TableList(rs), k).Some?
    ensures forall k :: k in state' ==> state'[k] == NoteOf(TableList(rs), state, k)
  {
    state' := state;
    var i := |rs|;
    while i > 0
      invariant 0 <= i <= |rs|
      invariant forall k :: k in state' <==> k in state || FirstHit(TableList(rs[i..]), k).Some?
      invariant forall k :: k in state' ==> state'[k] == NoteOf(TableList(rs[i..]), state, k)
    {
      i := i - 1;
      ListsAt(rs);
      assert rs[i..][1..] == rs[i + 1..];
      state' := NoteTable(state', rs[i].table);
    }
  }

  method NoteMem(state: map<Key, bool>, slots: seq<Slot>) returns (state': map<Key, bool>)
    requires SlotsAscend(slots)
    ensures forall k :: k in state' <==> k in state || Find(slots, k).Some?
    ensures forall k :: k in state' ==>
              state'[k] == if Find(slots, k).Some? then Find(slots, k).value.isTombstone else state[k]
  {
    state' := state;
    var i := |slots|;
    while i > 0
      invariant 0 <= i <= |slots|
      invariant forall k :: k in state' <==> k in state || Find(slots[i..], k).Some?
      invariant forall k :: k in state' ==>
                  state'[k] == if Find(slots[i..], k).Some? then Find(slots[i..], k).value.isTombstone else state[k]
    {
      i := i - 1;
      assert slots[i..][1..] == slots[i + 1..];
      state' := state'[slots[i].key := slots[i].isTombstone];
    }
  }

  class LSMEngine {
    var active: SkipList
    var l0: seq<Reader>
    var l1: seq<Reader>
    var l2: seq<Reader>
    var nextSstId: nat
    var manifest: ManifestData
    var sequenceNumber: nat
    var disk: Disk
    ghost var history: seq<Disk>

    ghost predicate Valid()
      reads this, active, active.Repr
    {
      && active.Valid() && this !in active.Repr
      && active.Slots == DiskState(disk).mem
      && manifest == disk.manifest
      && Coherent(disk, sequenceNumber, l0, l1, l2, nextSstId)
    }

    /** Opening a directory: tables in manifest order, log records above the checkpoint. */
    constructor (d: Disk)
      requires WellFormed(d)
      ensures Valid() && fresh(active) && fresh(active.Repr)
      ensures RunState() == DiskState(d) && disk == d && history == [d]
      ensures sequenceNumber ==
              if d.manifest.checkpointSeq >= MaxSeq(d.wal) then d.manifest.checkpointSeq else MaxSeq(d.wal)
    {
      disk := d;
      manifest := d.manifest;
      history := [d];
      nextSstId := d.manifest.nextSstId;
      var r0 := OpenReaders(d.files, d.manifest.l0);
      var r1 := OpenReaders(d.files, d.manifest.l1);
      var r2 := OpenReaders(d.files, d.manifest.l2);
      var mem, maxSeq := ReplayWal(d.wal, d.manifest.checkpointSeq);
      l0, l1, l2, active := r0, r1, r2, mem;
      sequenceNumber := if d.manifest.checkpointSeq >= maxSeq then d.manifest.checkpointSeq else maxSeq;
      new;
      MaxSeqIsMaximum(d.wal);
      InOrder(l0, d.files);
      InOrder(l1, d.files);
      InOrder(l2, d.files);
    }

    /** The state the reads of the running engine see. */
    ghost function RunState(): State
      reads this, active
    {
      State(active.Slots, TableList(l0), TableList(l1), TableList(l2))
    }

    /** One atomic change of the disk. */
    method Commit(d: Disk)
      modifies this`disk, this`history
      ensures disk == d && history == old(history) + [d]
    {
      disk := d;
      history := history + [d];
    }

    /** get(): memtable first, then L0, L1, L2 in list order. */
    method Get(key: Key) returns (r: Option<Bytes>)
      requires Valid()
      ensures r == Levels.Get(RunState(), key)
    {
      ReplayShape(disk.wal, manifest.checkpointSeq);
      r := active.Get(key);
      if r.Some? {
        return Visible(r);
      }
      SearchedHit(key);
      r := Search(l0, key);
      if r.None? { r := Search(l1, key); }
      if r.None? { r := Search(l2, key); }
      return Visible(r);
    }

    method Search(rs: seq<Reader>, key: Key) returns (r: Option<Bytes>)
      ensures r == FirstHit(TableList(rs), key)
    {
      var i := 0;
      while i < |rs|
        invariant 0 <= i <= |rs|
        invariant FirstHit(TableList(rs), key) == FirstHit(TableList(rs[i..]), key)
      {
        assert rs[i..][1..] == rs[i + 1..];
        r := Lookup(rs[i].table, key);
        if r.Some? { return; }
        i := i + 1;
      }
      return None;
    }

    /** flushMemTable: write the memtable out as the newest L0 table. */
    method FlushMemTable()
      requires Valid()
      modifies `l0, `manifest, `disk, `history
      ensures var n, t := Sst(old(manifest).nextSstId), FlushEntries(active.Slots);
              l0 == [Reader(n, t)] + old(l0) &&
              manifest == old(manifest).(nextSstId := n.id + 1, l0 := [n] + old(manifest).l0) &&
              disk == WriteFile(old(disk), n, t) && history == old(history) + [disk]
    {
      var id := manifest.nextSstId;
      manifest := manifest.(nextSstId := id + 1);
      var slots := active.Entries();
      var t := FlushEntries(slots);
      Commit(WriteFile(disk, Sst(id), t));
      l0 := [Reader(Sst(id), t)] + l0;
      manifest := manifest.(l0 := [Sst(id)] + manifest.l0);
    }

    /** flushAndCompact up to the compaction: write, save, truncate. */
    method FlushSaveTruncate()
      requires Valid()
      modifies `active, `l0, `manifest, `disk, `history
      ensures fresh(active) && fresh(active.Repr) && active.Valid() && active.Slots == []
      ensures manifest == disk.manifest
      ensures var n, t := Sst(old(manifest).nextSstId), FlushEntries(old(active.Slots));
              var written := WriteFile(old(disk), n, t);
              var saved := SaveFlush(written, n, sequenceNumber);
              l0 == [Reader(n, t)] + old(l0) && disk == Truncate(saved) &&
              history == old(history) + [written, saved, Truncate(saved)]
    {
      FlushMemTable();
      manifest := manifest.(checkpointSeq := sequenceNumber);
      Commit(disk.(manifest := manifest));
      Commit(Truncate(disk));
      active := new SkipList();
    }

    /** Remove the files of merged tables, one by one. */
    method DeleteFiles(names: seq<FileName>)
      modifies `disk, `history
      ensures disk == DeleteAll(old(disk), names)
      ensures history == old(history) + DeleteTrace(old(disk), names)
    {
      ghost var d := disk;
      var i := 0;
      while i < |names|
        invariant 0 <= i <= |names|
        invariant DeleteAll(disk, names[i..]) == DeleteAll(d, names)
        invariant history + DeleteTrace(disk, names[i..]) == old(history) + DeleteTrace(d, names)
      {
        assert names[i..][1..] == names[i + 1..];
        Commit(DeleteFile(disk, names[i]));
        i := i + 1;
      }
    }

    /** The merge of `rs`, written to a new file. */
    method WriteMerge(rs: seq<Reader>, out: FileName) returns (t: Table)
      requires AllAscending(TableList(rs))
      modifies `disk, `history
      ensures t == Compacted(TableList(rs))
      ensures disk == WriteFile(old(disk), out, t) && history == old(history) + [disk]
    {
      var r := MergeTables(TableList(rs));
      t := r.value;
      Commit(WriteFile(disk, out, t));
    }

    /** Manifest::save, then the removal of the merged files. */
    method SaveAndDelete(names: seq<FileName>)
      modifies `disk, `history
      ensures var saved := old(disk).(manifest := manifest);
              disk == DeleteAll(saved, names) && history == old(history) + [saved] + DeleteTrace(saved, names)
    {
      Commit(disk.(manifest := manifest));
      DeleteFiles(names);
    }

    /** compactLevel(0) without the cascade. */
    method MergeL0()
      requires Valid() && |l0| >= 2
      modifies `l0, `l1, `nextSstId, `manifest, `disk, `history
      ensures nextSstId == old(nextSstId) + 1 && l0 == []
      ensures Merged0(old(disk), old(history), old(l0), old(l1), old(nextSstId), disk, history, l1, manifest)
    {
      hide Coherent, WellFormed, Compacted, DeleteAll, DeleteTrace, EraseAll, SkipList.Valid, MergeTrace, Names,
           TableList, AllAscending, Sorted, DiskState, Replay;
      TablesAscend();
      SourcesErased();
      var id, olds := nextSstId, Names(l0);
      ghost var written := WriteFile(disk, L1File(id), Compacted(TableList(l0)));
      MergeHistory(history, written, SaveCompact0(written, L1File(id), id + 1), olds);
      nextSstId := nextSstId + 1;
      var t := WriteMerge(l0, L1File(id));
      manifest :=
        manifest.(nextSstId := nextSstId, l0 := EraseAll(manifest.l0, olds), l1 := [L1File(id)] + manifest.l1);
      l0 := [];
      SaveAndDelete(olds);
      l1 := l1 + [Reader(L1File(id), t)];
    }

    lemma SourcesErased()
      requires Valid()
      ensures EraseAll(manifest.l0, Names(l0)) == [] && EraseAll(manifest.l1, Names(l1)) == []
      ensures disk.manifest == manifest
    {
      EraseAllCovered(manifest.l0, Names(l0));
      EraseAllCovered(manifest.l1, Names(l1));
    }

    lemma TablesAscend()
      requires Valid()
      ensures AllAscending(TableList(l0)) && AllAscending(TableList(l1)) && AllAscending(TableList(l2))
      ensures TableList(l0) == DiskState(disk).l0 && Sorted(DiskState(disk)) && Sorted(RunState())
    {
      DiskStateSorted(disk);
      InOrder(l0, disk.files);
      ReadersAscend(l1, disk.files, disk.manifest.l1);
      ReadersAscend(l2, disk.files, disk.manifest.l2);
    }

    /** The running engine and its disk are a pair as sessions know them. */
    lemma PairHasShape()
      requires Valid() && NoEmptyValues(DiskState(disk))
      ensures Sessions.Shape(Sessions.Pair(RunState(), DiskState(disk)))
    {
      TablesAscend();
      ReplayShape(disk.wal, disk.manifest.checkpointSeq);
      NoEmptyReaders(l1, disk.files, disk.manifest.l1);
      NoEmptyReaders(l2, disk.files, disk.manifest.l2);
      forall k { CoversHits(l1, disk.files, disk.manifest.l1, k); }
    }

    /** compactLevel(1), reached only as a cascade with L0 just emptied. */
    method MergeL1()
      requires Valid() && l0 == []
      modifies `l1, `l2, `nextSstId, `manifest, `disk, `history
      ensures nextSstId == old(nextSstId) + 1 && l1 == []
      ensures Merged1(old(disk), old(history), old(l1), old(l2), old(nextSstId), disk, history, l2, manifest)
    {
      hide Coherent, WellFormed, Compacted, DeleteAll, DeleteTrace, EraseAll, SkipList.Valid, MergeTrace, Names,
           TableList, AllAscending, Sorted, DiskState, Replay;
      TablesAscend();
      SourcesErased();
      var id, olds := nextSstId, Names(l1);
      ghost var written := WriteFile(disk, L2File(id), Compacted(TableList(l1)));
      MergeHistory(history, written, SaveCompact1(written, L2File(id), id + 1), olds);
      nextSstId := nextSstId + 1;
      var t := WriteMerge(l1, L2File(id));
      manifest :=
        manifest.(nextSstId := nextSstId, l1 := EraseAll(manifest.l1, olds), l2 := [L2File(id)] + manifest.l2);
      l1 := [];
      SaveAndDelete(olds);
      l2 := l2 + [Reader(L2File(id), t)];
    }

    /** compactLevel(1): what it does to reads, and to the disk at every step. */
    method CompactL1() returns (ghost trace: seq<Disk>)
      requires Valid() && l0 == [] && |l1| >= 2
      modifies `l1, `l2, `nextSstId, `manifest, `disk, `history
      ensures Valid() && RunState() == Compact1(old(RunState()), Back)
      ensures DiskState(disk) ==
              old(DiskState(disk)).(l1 := [], l2 := [Compacted(TableList(old(l1)))] + old(DiskState(disk)).l2)
      ensures history == old(history) + trace && AllWellFormed(trace)
      ensures NoEmptyValues(old(DiskState(disk))) ==>
                (Recovers(trace, old(DiskState(disk))) <==>
                 SameHits(active.Slots, TableList(old(l1)), old(DiskState(disk)).l1))
    {
      hide Coherent, AllWellFormed, Recovers, WellFormed, MergeTrace, DeleteTrace, DeleteAll, Compacted, SkipList.Valid,
           Names, TableList, Replay, TablesOf;
      ghost var d, readers := disk, l1;
      ghost var out, t := L2File(nextSstId), Compacted(TableList(l1));
      ghost var written := WriteFile(d, out, t);
      ghost var saved := SaveCompact1(written, out, nextSstId + 1);
      Compact1Disks(d, sequenceNumber, l1, l2, nextSstId);
      Compact1Coherent(d, sequenceNumber, l1, l2, nextSstId);
      CoherentAfterDelete(saved, sequenceNumber, [], [], l2 + [Reader(out, t)], nextSstId + 1, Names(l1));
      Compact1Crash(d, sequenceNumber, l1, l2, nextSstId);
      DeleteTraceInvisible(saved, Names(l1));
      ListsAt(l1);
      ListsAt([]);
      ListsExtend(l2, Reader(out, t));
      MergeL1();
      trace := MergeTrace(written, saved, Names(readers));
    }

    /** compactLevel(0) without the cascade: reads and crash points. */
    method CompactL0Only() returns (ghost trace: seq<Disk>)
      requires Valid() && |l0| >= 2
      modifies `l0, `l1, `nextSstId, `manifest, `disk, `history
      ensures Valid() && l0 == [] && RunState() == Compact0(old(RunState()), Back)
      ensures DiskState(disk) == Compact0(old(DiskState(disk)), Front)
      ensures history == old(history) + trace && AllWellFormed(trace)
      ensures NoEmptyValues(old(DiskState(disk))) ==> Recovers(trace, old(DiskState(disk)))
    {
      hide Coherent, AllWellFormed, Recovers, WellFormed, MergeTrace, DeleteTrace, DeleteAll, Compacted, SkipList.Valid,
           Names, TableList, Replay, TablesOf;
      ghost var d, readers := disk, l0;
      ghost var out, t := L1File(nextSstId), Compacted(TableList(l0));
      ghost var written := WriteFile(d, out, t);
      ghost var saved := SaveCompact0(written, out, nextSstId + 1);
      Compact0Disks(d, sequenceNumber, l0, l1, l2, nextSstId);
      Compact0Coherent(d, sequenceNumber, l0, l1, l2, nextSstId);
      CoherentAfterDelete(saved, sequenceNumber, [], l1 + [Reader(out, t)], l2, nextSstId + 1, Names(l0));
      Compact0Crash(d, sequenceNumber, l0, l1, l2, nextSstId);
      DeleteTraceInvisible(saved, Names(l0));
      ListsAt(l0);
      ListsAt([]);
      ListsExtend(l1, Reader(out, t));
      MergeL0();
      trace := MergeTrace(written, saved, Names(readers));
    }

    /** The cascade of compactLevel(0): L1 goes to L2 once it has four tables. */
    method Cascade() returns (ghost trace: seq<Disk>)
      requires Valid() && l0 == []
      modifies `l1, `l2, `nextSstId, `manifest, `disk, `history
      ensures Valid() && RunState() == Cascaded(old(RunState()))
      ensures DiskState(disk) == CascadedSaved(old(RunState()), old(DiskState(disk)))
      ensures history == old(history) + trace && AllWellFormed(trace)
      ensures NoEmptyValues(old(DiskState(disk))) ==>
                (Recovers(trace, old(DiskState(disk))) <==>
                 (|old(l1)| >= L1_COMPACTION_THRESHOLD ==>
                  SameHits(active.Slots, TableList(old(l1)), old(DiskState(disk)).l1)))
    {
      ListsAt(l1);
      trace := [];
      if |l1| >= L1_COMPACTION_THRESHOLD {
        hide Coherent, WellFormed, AllWellFormed, Recovers, SameHits, NoEmptyValues, SkipList.Valid, Names, TableList,
             Compacted;
        trace := CompactL1();
      }
    }

    /** compactLevel(0) with its cascade into L2. */
    method CompactL0() returns (ghost trace: seq<Disk>)
      requires Valid()
      modifies `l0, `l1, `l2, `nextSstId, `manifest, `disk, `history
      ensures Valid() && RunState() == CompactedRun(old(RunState()))
      ensures DiskState(disk) == CompactedSaved(old(RunState()), old(DiskState(disk)))
      ensures history == old(history) + trace && AllWellFormed(trace)
      ensures NoEmptyValues(old(DiskState(disk))) ==>
                (Recovers(trace, old(DiskState(disk))) <==> CascadeAgrees(old(RunState()), old(DiskState(disk))))
    {
      hide Coherent, WellFormed, Sorted, AllWellFormed, Recovers, SameHits, NoEmptyValues, SkipList.Valid,
           Names, TableList, Compacted, Replay, TablesOf, Cascaded, CascadedSaved, DiskState;
      ListsAt(l0);
      NoTrace();
      if |l0| < 2 {
        trace := [];
      } else {
        TablesAscend();
        ghost var run, saved, before := RunState(), DiskState(disk), history;
        ghost var first := CompactL0Only();
        ListsAt(l1);
        ghost var more := Cascade();
        trace := first + more;
        ConcatAssociates(before, first, more);
        CompactionCrashes(run, saved, first, more);
      }
    }

    /** flushAndCompact. */
    method FlushAndCompact() returns (ghost trace: seq<Disk>)
      requires Valid()
      modifies this
      ensures Valid() && fresh(active) && fresh(active.Repr)
      ensures RunState() == FlushedRun(old(RunState()))
      ensures DiskState(disk) == FlushedSaved(old(RunState()), old(DiskState(disk)))
      ensures history == old(history) + trace && AllWellFormed(trace)
      ensures NoEmptyValues(old(DiskState(disk))) ==>
                (Recovers(trace, old(DiskState(disk))) <==> FlushAgrees(old(RunState()), old(DiskState(disk))))
    {
      hide Coherent, WellFormed, Sorted, AllWellFormed, Recovers, SameHits, NoEmptyValues, SkipList.Valid,
           Names, TableList, Compacted, Replay, TablesOf, CompactedRun, CompactedSaved, CascadeAgrees, DiskState,
           FlushEntries;
      ghost var d, readers, before := disk, l0, history;
      ghost var n, t := Sst(d.manifest.nextSstId), FlushEntries(DiskState(d).mem);
      ghost var written := WriteFile(d, n, t);
      ghost var saved := SaveFlush(written, n, sequenceNumber);
      TablesAscend();
      FlushDisks(d, sequenceNumber, l0, l1, l2, nextSstId);
      FlushCoherent(d, sequenceNumber, l0, l1, l2, nextSstId);
      FlushCrash(d, sequenceNumber, l0, l1, l2, nextSstId);
      ListsExtend(l0, Reader(n, t));
      FlushSaveTruncate();
      ghost var first := [written, saved, Truncate(saved)];
      trace := first;
      ListsAt(l0);
      if |l0| >= L0_COMPACTION_THRESHOLD {
        ghost var more := CompactL0();
        trace := first + more;
        ConcatAssociates(before, first, more);
        FlushCrashes(DiskState(d), first, more);
      }
    }

    /** putRaw up to the size check: log first, then the memtable. */
    method LogAndInsert(key: Key, value: Bytes) returns (ghost level: nat)
      requires Valid()
      modifies `sequenceNumber, `disk, `history, active.Repr
      ensures active.Valid() && this !in active.Repr && fresh(active.Repr - old(active.Repr))
      ensures active.Slots == PutSlot(old(active.Slots), key, value) && level <= MAX_LEVEL
      ensures active.approximateMemoryUsage ==
              UsageAfterPut(old(active.approximateMemoryUsage), old(active.Slots), key, value, level)
      ensures sequenceNumber == old(sequenceNumber) + 1
      ensures disk == old(disk).(wal := old(disk).wal + [WalRecord(sequenceNumber, key, value)])
      ensures history == old(history) + [disk]
    {
      sequenceNumber := sequenceNumber + 1;
      Commit(disk.(wal := disk.wal + [WalRecord(sequenceNumber, key, value)]));
      var drawn: nat :| drawn <= MAX_LEVEL;
      active.Put(key, value, drawn);
      level := drawn;
    }

    /** putRaw.  Reads see the put, and perhaps a flush and compactions; from the
        moment the record is logged, a crash anywhere recovers it. */
    method PutRaw(key: Key, value: Bytes) returns (ghost trace: seq<Disk>, ghost flushed: bool, ghost level: nat)
      requires Valid()
      modifies this, active.Repr
      ensures Valid() && fresh(active.Repr - old(active.Repr))
      ensures flushed <==> active != old(active)
      ensures var usage := UsageAfterPut(old(active.approximateMemoryUsage), old(active.Slots), key, value, level);
              flushed <==> usage >= 4 * 1024 * 1024
      ensures active.approximateMemoryUsage < 4 * 1024 * 1024
      ensures level <= MAX_LEVEL
      ensures var s := Step(old(RunState()), Op.Put(key, value), Back);
              RunState() == if flushed then FlushedRun(s) else s
      ensures var run, saved :=
                Step(old(RunState()), Op.Put(key, value), Back), Step(old(DiskState(disk)), Op.Put(key, value), Back);
              DiskState(disk) == if flushed then FlushedSaved(run, saved) else saved
      ensures history == old(history) + trace && trace != [] && AllWellFormed(trace)
      ensures var run, saved :=
                Step(old(RunState()), Op.Put(key, value), Back), Step(old(DiskState(disk)), Op.Put(key, value), Back);
              NoEmptyValues(saved) ==> (Recovers(trace, saved) <==> (flushed ==> FlushAgrees(run, saved)))
    {
      ghost var before, saved := history, Step(DiskState(disk), Op.Put(key, value), Back);
      LogPut(disk, sequenceNumber, l0, l1, l2, nextSstId, key, value);
      hide Coherent, WellFormed, NoEmptyValues, SkipList.Valid, Names, TableList, Replay, TablesOf, CascadeAgrees,
           FlushedRun, FlushedSaved, PutSlot, Recovers, AllWellFormed, Flushed, DiskState;
      level := LogAndInsert(key, value);
      ghost var first := [disk];
      LoggedTrace(disk, saved);
      trace := first;
      flushed := active.approximateMemoryUsage >= MEMTABLE_THRESHOLD;
      if active.approximateMemoryUsage >= MEMTABLE_THRESHOLD {
        ghost var more := FlushAndCompact();
        trace := first + more;
        ConcatAssociates(before, first, more);
        TracesJoin(first, more, saved);
        LevelsStayShort(Step(old(RunState()), Op.Put(key, value), Back));
        active.EmptyUsesNothing();
      }
    }

    /** flushLocked: write, truncate, save. */
    method FlushLocked() returns (ghost trace: seq<Disk>)
      requires Valid()
      modifies this
      ensures Valid() && (fresh(active) || active == old(active)) && fresh(active.Repr - old(active.Repr))
      ensures history == old(history) + trace && AllWellFormed(trace)
      ensures old(active.Slots) == [] ==> RunState() == old(RunState()) && disk == old(disk) && trace == []
      ensures old(active.Slots) != [] ==>
              RunState() == Flushed(old(RunState())) && DiskState(disk) == Flushed(old(DiskState(disk)))
      ensures old(active.Slots) != [] ==>
              (Recovers(trace, old(DiskState(disk))) <==> TablesAnswerMem(old(DiskState(disk))))
    {
      hide Coherent, WellFormed, Recovers, TablesAnswerMem, Names, TableList, Replay, TablesOf, FlushEntries;
      trace := [];
      if active.size != 0 {
        trace := FlushNonEmpty();
      }
    }

    method FlushNonEmpty() returns (ghost trace: seq<Disk>)
      requires Valid() && active.Slots != []
      modifies `active, `l0, `manifest, `disk, `history
      ensures Valid() && fresh(active) && fresh(active.Repr)
      ensures history == old(history) + trace && AllWellFormed(trace)
      ensures RunState() == Flushed(old(RunState())) && DiskState(disk) == Flushed(old(DiskState(disk)))
      ensures Recovers(trace, old(DiskState(disk))) <==> TablesAnswerMem(old(DiskState(disk)))
    {
      ghost var d := disk;
      ghost var n, t := Sst(d.manifest.nextSstId), FlushEntries(DiskState(d).mem);
      ghost var written := WriteFile(d, n, t);
      FlushCoherent(d, sequenceNumber, l0, l1, l2, nextSstId);
      FlushLockedCrash(d, sequenceNumber, l0, l1, l2, nextSstId);
      FlushDisks(d, sequenceNumber, l0, l1, l2, nextSstId);
      ListsExtend(l0, Reader(n, t));
      hide Coherent, WellFormed, AllWellFormed, Recovers, TablesAnswerMem, Names, TableList, Replay, TablesOf,
           SkipList.Valid, FlushEntries;
      FlushTruncateSave();
      trace := [written, Truncate(written), Truncate(SaveFlush(written, n, sequenceNumber))];
    }

    method FlushTruncateSave()
      requires Valid()
      modifies `active, `l0, `manifest, `disk, `history
      ensures fresh(active) && fresh(active.Repr) && active.Valid() && active.Slots == []
      ensures manifest == disk.manifest
      ensures var n, t := Sst(old(manifest).nextSstId), FlushEntries(old(active.Slots));
              var written := WriteFile(old(disk), n, t);
              var saved := Truncate(SaveFlush(written, n, sequenceNumber));
              l0 == [Reader(n, t)] + old(l0) && disk == saved &&
              history == old(history) + [written, Truncate(written), saved]
    {
      FlushMemTable();
      Commit(Truncate(disk));
      manifest := manifest.(checkpointSeq := sequenceNumber);
      Commit(disk.(manifest := manifest));
      active := new SkipList();
    }

    /** First pass: for every key of the engine, whether its newest source deletes it. */
    method LiveKeys() returns (state: map<Key, bool>)
      requires Valid()
      ensures forall k :: k in state && !state[k] && Find(active.Slots, k).Some? ==>
              !Find(active.Slots, k).value.isTombstone
      ensures forall k :: k !in state || state[k] ==> LiveAt(RunState(), k) == None
    {
      TablesAscend();
      state := NoteLevel(map[], l2);
      state := NoteLevel(state, l1);
      state := NoteLevel(state, l0);
      var slots := active.Entries();
      state := NoteMem(state, slots);
      forall k | k !in state || state[k] ensures LiveAt(RunState(), k) == None {
        SearchedHit(k);
      }
    }

    /** Visit every live entry once; the order of the visits is the hash map's. */
    method ForEachLive() returns (visited: seq<Entry>)
      requires Valid()
      ensures forall i, j :: 0 <= i < j < |visited| ==> visited[i].key != visited[j].key
      ensures forall k, v :: Entry(k, v) in visited <==> LiveAt(RunState(), k) == Some(v)
    {
      hide LiveAt, Coherent, WellFormed, SkipList.Valid, Names, TableList, TablesOf, Replay, DiskState;
      var state := LiveKeys();
      visited := [];
      var pending := state.Keys;
      while pending != {}
        invariant pending <= state.Keys
        invariant forall i :: 0 <= i < |visited| ==> visited[i].key in state && visited[i].key !in pending
        invariant forall i, j :: 0 <= i < j < |visited| ==> visited[i].key != visited[j].key
        invariant forall k, v :: Entry(k, v) in visited <==>
                  k in state && k !in pending && LiveAt(RunState(), k) == Some(v)
        decreases |pending|
      {
        var k :| k in pending;
        pending := pending - {k};
        if !state[k] {
          var r := Fetch(k);
          if r.Some? {
            visited := visited + [Entry(k, r.value)];
          }
        }
      }
    }

    /** Second pass: non-empty memtable value first, then the first table that has the key. */
    method Fetch(key: Key) returns (r: Option<Bytes>)
      requires Valid()
      requires Find(active.Slots, key).Some? ==> !Find(active.Slots, key).value.isTombstone
      ensures r == LiveAt(RunState(), key)
    {
      r := active.Get(key);
      if r.Some? && r.value != [] {
        return;
      }
      SearchedHit(key);
      r := Search(l0, key);
      if r.None? { r := Search(l1, key); }
      if r.None? { r := Search(l2, key); }
      return Visible(r);
    }

    lemma SearchedHit(key: Key)
      ensures var h0, h1, h2 :=
                FirstHit(TableList(l0), key), FirstHit(TableList(l1), key), FirstHit(TableList(l2), key);
              FirstHit(SearchedTables(RunState()), key) == if h0.Some? then h0 else if h1.Some? then h1 else h2
    {
      FirstHitConcat(TableList(l0) + TableList(l1), TableList(l2), key);
      FirstHitConcat(TableList(l0), TableList(l1), key);
    }

    /** The recovery flush that ends opening.  It truncates the log before it saves, and
        may compact: what a crash on the way recovers, and what reads see afterwards. */
    method FinishOpen() returns (ghost trace: seq<Disk>)
      requires Valid()
      modifies this
      ensures Valid() && fresh(active.Repr - old(active.Repr))
      ensures RunState() == if old(active.Slots) == [] then old(RunState()) else FlushedRun(old(RunState()))
      ensures old(active.Slots) != [] ==> DiskState(disk) == FlushedSaved(old(RunState()), old(DiskState(disk)))
      ensures history == old(history) + trace && AllWellFormed(trace)
      ensures old(active.Slots) == [] ==> trace == [] && disk == old(disk)
      ensures old(active.Slots) != [] && NoEmptyValues(old(DiskState(disk))) ==>
                (Recovers(trace, old(DiskState(disk))) <==>
                 TablesAnswerMem(old(DiskState(disk))) && FlushAgrees(old(RunState()), old(DiskState(disk))))
    {
      hide Coherent, WellFormed, Sorted, AllWellFormed, Recovers, SameHits, NoEmptyValues, TablesAnswerMem,
           Names, TableList, Compacted, Replay, TablesOf, CompactedRun, CompactedSaved, CascadeAgrees, DiskState,
           FlushEntries;
      trace := [];
      NoTrace();
      if active.size != 0 {
        TablesAscend();
        ghost var saved, before := DiskState(disk), history;
        ghost var first := FlushLocked();
        trace := first;
        ListsAt(l0);
        if |l0| >= L0_COMPACTION_THRESHOLD {
          ghost var more := CompactL0();
          trace := first + more;
          ConcatAssociates(before, first, more);
          FlushCrashes(saved, first, more);
          TracesJoin(first, more, saved);
        }
      }
    }
  }
}
