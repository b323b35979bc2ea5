/** What survives a crash: SSTable files, the saved manifest and the log.  A
    reopened engine reads exactly `DiskState`. */
module Disks {
  import opened Common
  import opened SortedSlots
  import opened Tables
  import opened Merging
  import opened Levels

  datatype FileName = Sst(id: nat) | L1File(id: nat) | L2File(id: nat)

  datatype ManifestData = ManifestData(checkpointSeq: nat, nextSstId: nat,
                                       l0: seq<FileName>, l1: seq<FileName>, l2: seq<FileName>)

  datatype WalRecord = WalRecord(seqNo: nat, key: Key, value: Bytes)

  datatype Disk = Disk(files: map<FileName, Table>, manifest: ManifestData, wal: seq<WalRecord>)

  /** The memtable that replaying the records above `minSeq` builds. */
  function Replay(wal: seq<WalRecord>, minSeq: nat): seq<Slot> {
    if wal == [] then []
    else
      var last := wal[|wal| - 1];
      var mem := Replay(wal[..|wal| - 1], minSeq);
      if last.seqNo > minSeq then PutSlot(mem, last.key, last.value) else mem
  }

  /** The highest sequence number in the log, filtered records included. */
  function MaxSeq(wal: seq<WalRecord>): nat {
    if wal == [] then 0
    else
      var last, rest := wal[|wal| - 1].seqNo, MaxSeq(wal[..|wal| - 1]);
      if last > rest then last else rest
  }

  /** It is the number of a record, unless there is none with a number. */
  lemma {:induction false} MaxSeqIsMaximum(wal: seq<WalRecord>)
    ensures forall r :: r in wal ==> r.seqNo <= MaxSeq(wal)
    ensures MaxSeq(wal) == 0 || exists r :: r in wal && r.seqNo == MaxSeq(wal)
  {
    if wal != [] { MaxSeqIsMaximum(wal[..|wal| - 1]); }
  }

  function TablesOf(files: map<FileName, Table>, names: seq<FileName>): seq<Table> {
    if names == [] then []
    else [if names[0] in files then files[names[0]] else []] + TablesOf(files, names[1..])
  }

  function DiskState(d: Disk): State {
    State(Replay(d.wal, d.manifest.checkpointSeq), TablesOf(d.files, d.manifest.l0),
          TablesOf(d.files, d.manifest.l1), TablesOf(d.files, d.manifest.l2))
  }

  ghost predicate SameReads(s: State, t: State) {
    forall k :: Get(s, k) == Get(t, k)
  }

  ghost predicate NoDuplicates<T>(s: seq<T>) {
    forall i, j :: 0 <= i < j < |s| ==> s[i] != s[j]
  }

  ghost predicate Stored(files: map<FileName, Table>, names: seq<FileName>) {
    forall n :: n in names ==> n in files && Ascending(files[n])
  }

  /** File names of one manifest are distinct, present, and below its counter. */
  ghost predicate WellFormed(d: Disk) {
    var m := d.manifest;
    && Stored(d.files, m.l0) && Stored(d.files, m.l1) && Stored(d.files, m.l2)
    && NoDuplicates(m.l0) && NoDuplicates(m.l1) && NoDuplicates(m.l2)
    && (forall n :: n in m.l0 ==> n.Sst? && n.id < m.nextSstId)
    && (forall n :: n in m.l1 ==> n.L1File? && n.id < m.nextSstId)
    && (forall n :: n in m.l2 ==> n.L2File? && n.id < m.nextSstId)
  }

  predicate Live(m: ManifestData, n: FileName) {
    n in m.l0 || n in m.l1 || n in m.l2
  }

  /** Live names are pairwise distinct across all levels. */
  lemma LiveNamesDistinct(d: Disk, i: nat, j: nat)
    requires WellFormed(d)
    requires var names := d.manifest.l0 + d.manifest.l1 + d.manifest.l2; i < j < |names|
    ensures var names := d.manifest.l0 + d.manifest.l1 + d.manifest.l2; names[i] != names[j]
  {
    var m := d.manifest;
    var a, b := |m.l0|, |m.l0| + |m.l1|;
    var names := m.l0 + m.l1 + m.l2;
    assert forall k :: 0 <= k < |names| ==>
      names[k] == if k < a then m.l0[k] else if k < b then m.l1[k - a] else m.l2[k - b];
    assert names[i] == if i < a then m.l0[i] else if i < b then m.l1[i - a] else m.l2[i - b];
    assert names[j] == if j < a then m.l0[j] else if j < b then m.l1[j - a] else m.l2[j - b];
  }

  lemma {:induction false} TablesOfFrame(files: map<FileName, Table>, files': map<FileName, Table>,
                                         names: seq<FileName>)
    requires forall n :: n in names ==> n in files && n in files' && files[n] == files'[n]
    ensures TablesOf(files, names) == TablesOf(files', names)
  {
    if names != [] { TablesOfFrame(files, files', names[1..]); }
  }

  lemma {:induction false} TablesOfAt(files: map<FileName, Table>, names: seq<FileName>, i: nat)
    requires i < |names| && names[i] in files
    ensures |TablesOf(files, names)| == |names| && TablesOf(files, names)[i] == files[names[i]]
  {
    if i > 0 {
      TablesOfAt(files, names[1..], i - 1);
    } else {
      TablesOfLength(files, names);
    }
  }

  lemma {:induction false} TablesOfLength(files: map<FileName, Table>, names: seq<FileName>)
    ensures |TablesOf(files, names)| == |names|
  {
    if names != [] { TablesOfLength(files, names[1..]); }
  }

  lemma StoredTablesAscend(files: map<FileName, Table>, names: seq<FileName>)
    requires Stored(files, names)
    ensures AllAscending(TablesOf(files, names))
  {
    TablesOfLength(files, names);
    forall i | 0 <= i < |names| ensures Ascending(TablesOf(files, names)[i]) {
      assert names[i] in names;
      TablesOfAt(files, names, i);
    }
  }

  lemma {:induction false} ReplayShape(wal: seq<WalRecord>, minSeq: nat)
    ensures SlotsAscend(Replay(wal, minSeq))
    ensures forall k :: Find(Replay(wal, minSeq), k).Some? ==> !Find(Replay(wal, minSeq), k).value.isTombstone
  {
    if wal != [] {
      var last, mem := wal[|wal| - 1], Replay(wal[..|wal| - 1], minSeq);
      ReplayShape(wal[..|wal| - 1], minSeq);
      PutSlotIsUpdate(mem, last.key, last.value, last.key);
      forall k { PutSlotIsUpdate(mem, last.key, last.value, k); }
    }
  }

  /** Records at or below the checkpoint replay to nothing. */
  lemma {:induction false} ReplayCovered(wal: seq<WalRecord>, minSeq: nat)
    requires forall r :: r in wal ==> r.seqNo <= minSeq
    ensures Replay(wal, minSeq) == []
  {
    if wal != [] { ReplayCovered(wal[..|wal| - 1], minSeq); }
  }

  lemma ReplayAppend(wal: seq<WalRecord>, r: WalRecord, minSeq: nat)
    requires r.seqNo > minSeq
    ensures Replay(wal + [r], minSeq) == PutSlot(Replay(wal, minSeq), r.key, r.value)
  {
    assert (wal + [r])[..|wal|] == wal;
  }

  lemma DiskStateSorted(d: Disk)
    requires WellFormed(d)
    ensures Sorted(DiskState(d))
  {
    ReplayShape(d.wal, d.manifest.checkpointSeq);
    StoredTablesAscend(d.files, d.manifest.l0);
    StoredTablesAscend(d.files, d.manifest.l1);
    StoredTablesAscend(d.files, d.manifest.l2);
  }

  // ---- The single disk steps, and what each does to the recovered state ----

  function WriteFile(d: Disk, n: FileName, t: Table): Disk {
    d.(files := d.files[n := t])
  }

  function DeleteFile(d: Disk, n: FileName): Disk {
    d.(files := d.files - {n})
  }

  /** Writing or deleting a file that is not live changes nothing that is recovered. */
  lemma OrphanInvisible(d: Disk, n: FileName, t: Table)
    requires WellFormed(d) && !Live(d.manifest, n)
    ensures DiskState(WriteFile(d, n, t)) == DiskState(d) && WellFormed(WriteFile(d, n, t))
    ensures DiskState(DeleteFile(d, n)) == DiskState(d) && WellFormed(DeleteFile(d, n))
  {
    var m := d.manifest;
    TablesOfFrame(d.files, d.files[n := t], m.l0);
    TablesOfFrame(d.files, d.files[n := t], m.l1);
    TablesOfFrame(d.files, d.files[n := t], m.l2);
    TablesOfFrame(d.files, d.files - {n}, m.l0);
    TablesOfFrame(d.files, d.files - {n}, m.l1);
    TablesOfFrame(d.files, d.files - {n}, m.l2);
  }

  /** Saving the manifest after a flush: the recovered state is the flushed state. */
  function SaveFlush(d: Disk, n: FileName, seqNo: nat): Disk {
    d.(manifest :=
       d.manifest.(checkpointSeq := seqNo, nextSstId := d.manifest.nextSstId + 1, l0 := [n] + d.manifest.l0))
  }

  lemma SaveFlushState(d: Disk, n: FileName, seqNo: nat)
    requires WellFormed(d) && n == Sst(d.manifest.nextSstId)
    requires n in d.files && d.files[n] == FlushEntries(Replay(d.wal, d.manifest.checkpointSeq))
    requires forall r :: r in d.wal ==> r.seqNo <= seqNo
    ensures DiskState(SaveFlush(d, n, seqNo)) == Flushed(DiskState(d))
    ensures WellFormed(SaveFlush(d, n, seqNo))
  {
    ReplayCovered(d.wal, seqNo);
    ReplayShape(d.wal, d.manifest.checkpointSeq);
    FlushEntriesAscend(Replay(d.wal, d.manifest.checkpointSeq));
    assert ([n] + d.manifest.l0)[1..] == d.manifest.l0;
    var m := SaveFlush(d, n, seqNo).manifest;
    assert forall i, j :: 0 <= i < j < |m.l0| ==> m.l0[i] != m.l0[j] by {
      forall i, j | 0 <= i < j < |m.l0| ensures m.l0[i] != m.l0[j] {
        assert m.l0[j] == d.manifest.l0[j - 1] && m.l0[j] in d.manifest.l0;
        assert i > 0 ==> m.l0[i] == d.manifest.l0[i - 1];
      }
    }
  }

  function Truncate(d: Disk): Disk {
    d.(wal := [])
  }

  /** Truncating after the save is harmless ... */
  lemma TruncateCovered(d: Disk)
    requires forall r :: r in d.wal ==> r.seqNo <= d.manifest.checkpointSeq
    ensures DiskState(Truncate(d)) == DiskState(d)
  {
    ReplayCovered(d.wal, d.manifest.checkpointSeq);
  }

  /** ... truncating before it, as flushLocked and the recovery flush do, survives
      a crash in between exactly if the tables already answer every unsaved key. */
  lemma TruncateFirstExact(d: Disk)
    ensures SameReads(DiskState(Truncate(d)), DiskState(d)) <==>
            (forall k :: MemGet(DiskState(d).mem, k).Some? ==>
               Visible(MemGet(DiskState(d).mem, k)) == View(SearchedTables(DiskState(d)), k))
  {
    var s, t := DiskState(d), DiskState(Truncate(d));
    assert t == s.(mem := []);
    forall k ensures Get(t, k) == Get(s, k) <==>
        (MemGet(s.mem, k).Some? ==> Visible(MemGet(s.mem, k)) == View(SearchedTables(s), k))
    {
    }
  }

  /** A put that was acknowledged is gone after such a crash. */
  lemma TruncateFirstLosesPut(key: Key, value: Bytes)
    requires value != []
    ensures var d := Disk(map[], ManifestData(0, 0, [], [], []), [WalRecord(1, key, value)]);
            WellFormed(d) && Get(DiskState(d), key) == Some(value) && Get(DiskState(Truncate(d)), key) == None
  {
    var r := WalRecord(1, key, value);
    ReplayAppend([], r, 0);
    assert [] + [r] == [r];
  }

  /** Saving the manifest after compaction: source names go, the output comes first. */
  function SaveCompact0(d: Disk, out: FileName, next: nat): Disk {
    d.(manifest := d.manifest.(nextSstId := next, l0 := [], l1 := [out] + d.manifest.l1))
  }

  function SaveCompact1(d: Disk, out: FileName, next: nat): Disk {
    d.(manifest := d.manifest.(nextSstId := next, l1 := [], l2 := [out] + d.manifest.l2))
  }

  lemma PrependFresh(names: seq<FileName>, out: FileName)
    requires NoDuplicates(names) && out !in names
    ensures NoDuplicates([out] + names)
  {
    var r := [out] + names;
    forall i, j | 0 <= i < j < |r| ensures r[i] != r[j] {
      assert r[j] == names[j - 1] && r[j] in names;
      assert i > 0 ==> r[i] == names[i - 1];
    }
  }

  lemma SaveCompact0State(d: Disk, out: FileName, next: nat)
    requires WellFormed(d) && |d.manifest.l0| >= 2
    requires out.L1File? && out.id + 1 == next && out !in d.manifest.l1
    requires forall n :: n in d.manifest.l1 + d.manifest.l2 ==> n.id < next
    requires out in d.files && d.files[out] == Compacted(TablesOf(d.files, d.manifest.l0))
    ensures DiskState(SaveCompact0(d, out, next)) == Compact0(DiskState(d), Front)
    ensures WellFormed(SaveCompact0(d, out, next))
  {
    TablesOfLength(d.files, d.manifest.l0);
    assert ([out] + d.manifest.l1)[1..] == d.manifest.l1;
    StoredTablesAscend(d.files, d.manifest.l0);
    CompactedLookup(TablesOf(d.files, d.manifest.l0), 0);
    PrependFresh(d.manifest.l1, out);
  }

  /** The same for L1; `tables` is the order in which the engine merged them. */
  lemma SaveCompact1State(d: Disk, out: FileName, next: nat, tables: seq<Table>)
    requires WellFormed(d) && d.manifest.l0 == []
    requires out.L2File? && out.id + 1 == next && out !in d.manifest.l2
    requires forall n :: n in d.manifest.l1 + d.manifest.l2 ==> n.id < next
    requires AllAscending(tables) && out in d.files && d.files[out] == Compacted(tables)
    ensures WellFormed(SaveCompact1(d, out, next))
    ensures DiskState(SaveCompact1(d, out, next)) ==
            DiskState(d).(l1 := [], l2 := [Compacted(tables)] + DiskState(d).l2)
  {
    assert ([out] + d.manifest.l2)[1..] == d.manifest.l2;
    CompactedLookup(tables, 0);
    PrependFresh(d.manifest.l2, out);
  }

  /** Two table lists answer alike for every key the memtable does not decide. */
  ghost predicate SameHits(mem: seq<Slot>, ts: seq<Table>, us: seq<Table>) {
    forall k :: MemGet(mem, k) == None ==> FirstHit(ts, k) == FirstHit(us, k)
  }

  /** Replacing L1 by its merge keeps every recovered read exactly if the order in
      which the engine merged the tables answers like the saved order. */
  lemma MergedOrderExact(s: State, tables: seq<Table>)
    requires s.l0 == [] && AllAscending(tables)
    requires NoEmptyHits(s.l1) && NoEmptyHits(tables)
    requires forall k :: FirstHit(tables, k).Some? <==> FirstHit(s.l1, k).Some?
    ensures SameReads(s.(l1 := [], l2 := [Compacted(tables)] + s.l2), s) <==> SameHits(s.mem, tables, s.l1)
  {
    var out := Compacted(tables);
    var t := s.(l1 := [], l2 := [out] + s.l2);
    assert SearchedTables(t) == [out] + s.l2 && SearchedTables(s) == s.l1 + s.l2;
    forall k
      ensures Get(t, k) == Get(s, k) <==> (MemGet(s.mem, k) == None ==> FirstHit(tables, k) == FirstHit(s.l1, k))
    {
      CompactedLookup(tables, k);
      FirstHitConcat([out], s.l2, k);
      assert FirstHit([out], k) == Lookup(out, k);
      FirstHitConcat(s.l1, s.l2, k);
      NoEmptyHitsFirst(tables, k);
      NoEmptyHitsFirst(s.l1, k);
    }
  }
}
