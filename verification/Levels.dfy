/** The LSM tree as a value: a memtable over three levels of tables.  Reads,
    flushes and compactions as functions, and when they agree with one map. */
module Levels {
  import opened Common
  import opened SortedSlots
  import opened Tables
  import opened Merging

  /** Where compaction puts its output among the tables of the next level. */
  datatype Placement = Front | Back

  datatype State = State(mem: seq<Slot>, l0: seq<Table>, l1: seq<Table>, l2: seq<Table>)

  ghost predicate Sorted(s: State) {
    SlotsAscend(s.mem) && AllAscending(s.l0) && AllAscending(s.l1) && AllAscending(s.l2)
  }

  /** MemTable::getRaw: a tombstoned node reads as absent. */
  function MemGet(mem: seq<Slot>, key: Key): Option<Bytes> {
    match Find(mem, key)
    case Some(slot) => if slot.isTombstone then None else Some(slot.value)
    case None => None
  }

  function View(ts: seq<Table>, key: Key): Option<Bytes> {
    Visible(FirstHit(ts, key))
  }

  function SearchedTables(s: State): seq<Table> {
    s.l0 + s.l1 + s.l2
  }

  /** LSMEngine::get. */
  function Get(s: State, key: Key): Option<Bytes> {
    if MemGet(s.mem, key).Some? then Visible(MemGet(s.mem, key)) else View(SearchedTables(s), key)
  }

  /** The entries flushMemTable writes: tombstones become empty values. */
  function FlushEntries(mem: seq<Slot>): Table {
    if mem == [] then []
    else [Entry(mem[0].key, if mem[0].isTombstone then [] else mem[0].value)] + FlushEntries(mem[1..])
  }

  lemma {:induction false} FlushEntriesAt(mem: seq<Slot>, i: nat)
    requires i < |mem|
    ensures |FlushEntries(mem)| == |mem|
    ensures FlushEntries(mem)[i] == Entry(mem[i].key, if mem[i].isTombstone then [] else mem[i].value)
  {
    if i > 0 {
      FlushEntriesAt(mem[1..], i - 1);
    } else if |mem| > 1 {
      FlushEntriesAt(mem[1..], 0);
    }
  }

  lemma FlushEntriesAscend(mem: seq<Slot>)
    requires SlotsAscend(mem)
    ensures Ascending(FlushEntries(mem))
  {
    forall i, j | 0 <= i < j < |FlushEntries(mem)| ensures FlushEntries(mem)[i].key < FlushEntries(mem)[j].key {
      if mem != [] { FlushEntriesAt(mem, 0); }
      FlushEntriesAt(mem, i);
      FlushEntriesAt(mem, j);
    }
  }

  lemma {:induction false} FlushEntriesLookup(mem: seq<Slot>, key: Key)
    ensures Lookup(FlushEntries(mem), key) ==
            match Find(mem, key)
            case Some(slot) => Some(if slot.isTombstone then [] else slot.value)
            case None => None
  {
    if mem != [] {
      assert FlushEntries(mem)[1..] == FlushEntries(mem[1..]);
      FlushEntriesLookup(mem[1..], key);
    }
  }

  function Flushed(s: State): State {
    State([], [FlushEntries(s.mem)] + s.l0, s.l1, s.l2)
  }

  /** A flush keeps every read exactly if no deleted key has an older version:
      a tombstone in the memtable is transparent to reads, on disk it is not. */
  lemma FlushKeepsReads(s: State)
    ensures (forall k :: Get(Flushed(s), k) == Get(s, k)) <==>
            (forall k :: Find(s.mem, k).Some? && Find(s.mem, k).value.isTombstone ==>
               View(SearchedTables(s), k) == None)
  {
    forall k ensures Get(Flushed(s), k) == Get(s, k) <==>
        (Find(s.mem, k).Some? && Find(s.mem, k).value.isTombstone ==> View(SearchedTables(s), k) == None)
    {
      FlushEntriesLookup(s.mem, k);
      var t := [FlushEntries(s.mem)];
      assert SearchedTables(Flushed(s)) == t + SearchedTables(s);
      FirstHitConcat(t, SearchedTables(s), k);
      assert FirstHit(t, k) == Lookup(t[0], k);
    }
  }

  function Place(tables: seq<Table>, out: Table, p: Placement): seq<Table> {
    if p.Front? then [out] + tables else tables + [out]
  }

  /** May the tables `source` be merged onto `dest` as far as `key` is concerned?
      An empty winner needs nothing older behind it; a proper winner appended
      behind `dest` must not meet a different version there. */
  ghost predicate SafeAt(source: seq<Table>, dest: seq<Table>, lower: seq<Table>, key: Key, p: Placement) {
    match FirstHit(source, key)
    case None => true
    case Some(v) =>
      if v == [] then View(dest + lower, key) == None
      else p.Front? || FirstHit(dest, key) == None || FirstHit(dest, key) == Some(v)
  }

  lemma CompactionAtKey(source: seq<Table>, dest: seq<Table>, lower: seq<Table>, key: Key, p: Placement)
    requires AllAscending(source)
    ensures View(Place(dest, Compacted(source), p) + lower, key) == View(source + dest + lower, key)
            <==> SafeAt(source, dest, lower, key, p)
  {
    var out := Compacted(source);
    CompactedLookup(source, key);
    FirstHitConcat(source + dest, lower, key);
    FirstHitConcat(source, dest, key);
    FirstHitConcat(dest, lower, key);
    FirstHitConcat(Place(dest, out, p), lower, key);
    assert FirstHit([out], key) == Lookup(out, key);
    FirstHitConcat([out], dest, key);
    FirstHitConcat(dest, [out], key);
  }

  /** compactLevel(0) and compactLevel(1); a level with one table is left alone. */
  function Compact0(s: State, p: Placement): State {
    if |s.l0| < 2 then s else State(s.mem, [], Place(s.l1, Compacted(s.l0), p), s.l2)
  }

  function Compact1(s: State, p: Placement): State {
    if |s.l1| < 2 then s else State(s.mem, s.l0, [], Place(s.l2, Compacted(s.l1), p))
  }

  ghost predicate Guard0(s: State, p: Placement) {
    |s.l0| >= 2 ==> forall k :: MemGet(s.mem, k) == None ==> SafeAt(s.l0, s.l1, s.l2, k, p)
  }

  ghost predicate Guard1(s: State, p: Placement) {
    |s.l1| >= 2 ==> forall k :: MemGet(s.mem, k) == None && FirstHit(s.l0, k) == None ==> SafeAt(s.l1, s.l2, [], k, p)
  }

  /** The exact condition under which a compaction changes no read. */
  lemma Compact0Exact(s: State, p: Placement)
    requires Sorted(s)
    ensures (forall k :: Get(Compact0(s, p), k) == Get(s, k)) <==> Guard0(s, p)
  {
    if |s.l0| >= 2 {
      var after := Compact0(s, p);
      forall k ensures Get(after, k) == Get(s, k) <==> (MemGet(s.mem, k) == None ==> SafeAt(s.l0, s.l1, s.l2, k, p)) {
        CompactionAtKey(s.l0, s.l1, s.l2, k, p);
        assert SearchedTables(after) == Place(s.l1, Compacted(s.l0), p) + s.l2;
      }
    }
  }

  lemma Compact1Exact(s: State, p: Placement)
    requires Sorted(s)
    ensures (forall k :: Get(Compact1(s, p), k) == Get(s, k)) <==> Guard1(s, p)
  {
    if |s.l1| >= 2 {
      var after := Compact1(s, p);
      forall k ensures Get(after, k) == Get(s, k) <==>
          (MemGet(s.mem, k) == None && FirstHit(s.l0, k) == None ==> SafeAt(s.l1, s.l2, [], k, p))
      {
        CompactionAtKey(s.l1, s.l2, [], k, p);
        var low, low' := s.l1 + s.l2, Place(s.l2, Compacted(s.l1), p);
        assert low + [] == low && low' + [] == low';
        assert SearchedTables(s) == s.l0 + low && SearchedTables(after) == s.l0 + low';
        FirstHitConcat(s.l0, low, k);
        FirstHitConcat(s.l0, low', k);
      }
    }
  }

  /** Appending the output, as the code does, loses an update: key 1 was rewritten
      after its first version had been compacted into L1. */
  lemma AppendingServesStaleReads()
    ensures var s := State([], [[Entry(1, [8])], [Entry(2, [7])]], [[Entry(1, [5])]], []);
            Get(s, 1) == Some([8]) && Get(Compact0(s, Back), 1) == Some([5]) && !Guard0(s, Back)
  {
    var s := State([], [[Entry(1, [8])], [Entry(2, [7])]], [[Entry(1, [5])]], []);
    var after := Compact0(s, Back);
    assert SearchedTables(s)[0] == [Entry(1, [8])];
    assert SearchedTables(after)[0] == [Entry(1, [5])];
    Compact0Exact(s, Back);
  }

  ghost predicate NoEmptyValues(s: State) {
    && (forall k :: Find(s.mem, k).Some? ==> !Find(s.mem, k).value.isTombstone && Find(s.mem, k).value.value != [])
    && NoEmptyHits(s.l0) && NoEmptyHits(s.l1) && NoEmptyHits(s.l2)
  }

  ghost predicate NoEmptyHits(ts: seq<Table>) {
    forall k, i :: 0 <= i < |ts| ==> Lookup(ts[i], k) != Some([])
  }

  /** One operation of a run. */
  datatype Op = Put(key: Key, value: Bytes) | Flush | CompactL0 | CompactL1

  function Step(s: State, op: Op, p: Placement): State {
    match op
    case Put(key, value) => s.(mem := PutSlot(s.mem, key, value))
    case Flush => if s.mem == [] then s else Flushed(s)
    case CompactL0 => Compact0(s, p)
    case CompactL1 => Compact1(s, p)
  }

  function Run(ops: seq<Op>, p: Placement): State {
    if ops == [] then State([], [], [], []) else Step(Run(ops[..|ops| - 1], p), ops[|ops| - 1], p)
  }

  /** The map the engine is meant to be. */
  function LastPut(ops: seq<Op>, key: Key): Option<Bytes> {
    if ops == [] then None
    else
      var last := ops[|ops| - 1];
      if last.Put? && last.key == key then Some(last.value) else LastPut(ops[..|ops| - 1], key)
  }

  ghost predicate NonEmptyPuts(ops: seq<Op>) {
    forall op :: op in ops && op.Put? ==> op.value != []
  }

  ghost predicate GuardOf(s: State, op: Op, p: Placement) {
    (op.CompactL0? ==> Guard0(s, p)) && (op.CompactL1? ==> Guard1(s, p))
  }

  lemma NoEmptyHitsFirst(ts: seq<Table>, k: Key)
    requires NoEmptyHits(ts)
    ensures FirstHit(ts, k) != Some([])
  {
    if FirstHit(ts, k).Some? { var i := FirstHitFrom(ts, k); }
  }

  lemma CompactedNoEmpty(ts: seq<Table>)
    requires AllAscending(ts)
    ensures Ascending(Compacted(ts)) && forall k :: Lookup(Compacted(ts), k) != Some([])
  {
    CompactedLookup(ts, 0);
    forall k ensures Lookup(Compacted(ts), k) != Some([]) { CompactedLookup(ts, k); }
  }

  /** Every operation keeps the tables sorted and free of empty values. */
  lemma StepKeepsShape(s: State, op: Op, p: Placement)
    requires Sorted(s) && NoEmptyValues(s) && (op.Put? ==> op.value != [])
    ensures Sorted(Step(s, op, p)) && NoEmptyValues(Step(s, op, p))
  {
    match op
    case Put(key, value) =>
      PutSlotIsUpdate(s.mem, key, value, key);
      forall k { PutSlotIsUpdate(s.mem, key, value, k); }
    case Flush =>
      FlushEntriesAscend(s.mem);
      forall k ensures Lookup(FlushEntries(s.mem), k) != Some([]) { FlushEntriesLookup(s.mem, k); }
    case CompactL0 => CompactedNoEmpty(s.l0);
    case CompactL1 => CompactedNoEmpty(s.l1);
  }

  /** One operation does to all reads what it does to the map, exactly if its guard holds. */
  lemma StepExact(s: State, op: Op, p: Placement)
    requires Sorted(s) && NoEmptyValues(s) && (op.Put? ==> op.value != [])
    ensures (forall k :: Get(Step(s, op, p), k) ==
                         if op.Put? && op.key == k then Some(op.value) else Get(s, k))
            <==> GuardOf(s, op, p)
  {
    match op
    case Put(key, value) =>
      forall k ensures Get(Step(s, op, p), k) == if key == k then Some(value) else Get(s, k) {
        PutSlotIsUpdate(s.mem, key, value, k);
      }
    case Flush => FlushKeepsReads(s);
    case CompactL0 => Compact0Exact(s, p);
    case CompactL1 => Compact1Exact(s, p);
  }

  lemma {:induction false} RunKeepsShape(ops: seq<Op>, p: Placement)
    requires NonEmptyPuts(ops)
    ensures Sorted(Run(ops, p)) && NoEmptyValues(Run(ops, p))
  {
    if ops != [] {
      RunKeepsShape(ops[..|ops| - 1], p);
      StepKeepsShape(Run(ops[..|ops| - 1], p), ops[|ops| - 1], p);
    }
  }

  ghost predicate ReadsLastPut(ops: seq<Op>, p: Placement) {
    forall k :: Get(Run(ops, p), k) == LastPut(ops, k)
  }

  ghost predicate AllReadsRight(ops: seq<Op>, p: Placement) {
    forall n :: 0 <= n <= |ops| ==> ReadsLastPut(ops[..n], p)
  }

  ghost predicate AllGuarded(ops: seq<Op>, p: Placement) {
    forall n :: 0 <= n < |ops| ==> GuardOf(Run(ops[..n], p), ops[n], p)
  }

  lemma SplitLast(ops: seq<Op>, p: Placement)
    requires ops != []
    ensures var before, last := ops[..|ops| - 1], ops[|ops| - 1];
            (AllReadsRight(ops, p) <==> AllReadsRight(before, p) && ReadsLastPut(ops, p)) &&
            (AllGuarded(ops, p) <==> AllGuarded(before, p) && GuardOf(Run(before, p), last, p))
  {
    var m := |ops| - 1;
    var before := ops[..m];
    assert forall n :: 0 <= n <= m ==> before[..n] == ops[..n];
    assert ops[..m + 1] == ops;
    if AllReadsRight(ops, p) {
      assert ReadsLastPut(ops[..m + 1], p);
    }
    if AllReadsRight(before, p) && ReadsLastPut(ops, p) {
      forall n | 0 <= n <= |ops| ensures ReadsLastPut(ops[..n], p) {
        if n <= m { assert ReadsLastPut(before[..n], p); }
      }
    }
    if AllGuarded(before, p) && GuardOf(Run(before, p), ops[m], p) {
      forall n | 0 <= n < |ops| ensures GuardOf(Run(ops[..n], p), ops[n], p) {
        if n < m { assert GuardOf(Run(before[..n], p), before[n], p); }
      }
    }
  }

  /** The engine reads back the last put throughout a run exactly if every
      compaction of the run met its guard. */
  lemma {:induction false} RunExact(ops: seq<Op>, p: Placement)
    requires NonEmptyPuts(ops)
    ensures AllReadsRight(ops, p) <==> AllGuarded(ops, p)
  {
    if ops == [] {
      assert ReadsLastPut([], p);
    } else {
      var before, last := ops[..|ops| - 1], ops[|ops| - 1];
      SplitLast(ops, p);
      RunExact(before, p);
      RunKeepsShape(before, p);
      StepExact(Run(before, p), last, p);
      if AllReadsRight(before, p) {
        assert before[..|before|] == before;
        LastStepExact(ops, p);
      }
    }
  }

  lemma LastStepExact(ops: seq<Op>, p: Placement)
    requires ops != [] && NonEmptyPuts(ops) && ReadsLastPut(ops[..|ops| - 1], p)
    ensures ReadsLastPut(ops, p) <==> GuardOf(Run(ops[..|ops| - 1], p), ops[|ops| - 1], p)
  {
    var before, last := ops[..|ops| - 1], ops[|ops| - 1];
    RunKeepsShape(before, p);
    StepExact(Run(before, p), last, p);
    forall k
      ensures LastPut(ops, k) == if last.Put? && last.key == k then Some(last.value) else Get(Run(before, p), k)
    {
      assert Get(Run(before, p), k) == LastPut(before, k);
    }
  }

  /** With the output in front, as the manifest records it, every run is right. */
  lemma FrontRunsAreRight(ops: seq<Op>)
    requires NonEmptyPuts(ops)
    ensures ReadsLastPut(ops, Front)
  {
    forall n | 0 <= n < |ops| ensures GuardOf(Run(ops[..n], Front), ops[n], Front) {
      RunKeepsShape(ops[..n], Front);
      FrontIsGuarded(Run(ops[..n], Front));
    }
    RunExact(ops, Front);
    assert ops[..|ops|] == ops;
  }

  lemma FrontIsGuarded(s: State)
    requires NoEmptyValues(s)
    ensures Guard0(s, Front) && Guard1(s, Front)
  {
    forall k ensures SafeAt(s.l0, s.l1, s.l2, k, Front) && SafeAt(s.l1, s.l2, [], k, Front) {
      NoEmptyHitsFirst(s.l0, k);
      NoEmptyHitsFirst(s.l1, k);
    }
  }

  /** LSMEngine::remove acts on the memtable only.  The key reads as absent
      afterwards exactly if no table holds a version of it. */
  lemma RemoveHidesExactly(s: State, key: Key)
    requires SlotsAscend(s.mem)
    ensures Get(s.(mem := RemoveSlot(s.mem, key)), key) == None <==> View(SearchedTables(s), key) == None
  {
    RemoveSlotIsUpdate(s.mem, key, key);
  }

  /** What forEachLive visits for a key: the newest source decides whether it is
      live; the value comes from the first non-empty memtable cell, else the tables. */
  function LiveAt(s: State, key: Key): Option<Bytes> {
    match Find(s.mem, key)
    case Some(slot) =>
      if slot.isTombstone then None
      else if slot.value != [] then Some(slot.value)
      else View(SearchedTables(s), key)
    case None => View(SearchedTables(s), key)
  }

  /** forEachLive and get agree exactly if no deleted or emptied key of the memtable
      has an older version on disk. */
  lemma LiveAgreesWithGet(s: State)
    ensures (forall k :: LiveAt(s, k) == Get(s, k)) <==>
            (forall k ::
               Find(s.mem, k).Some? && (Find(s.mem, k).value.isTombstone || Find(s.mem, k).value.value == []) ==>
               View(SearchedTables(s), k) == None)
  {
    forall k ensures LiveAt(s, k) == Get(s, k) <==>
        (Find(s.mem, k).Some? && (Find(s.mem, k).value.isTombstone || Find(s.mem, k).value.value == []) ==>
           View(SearchedTables(s), k) == None)
    {
    }
  }

  /** In the same runs forEachLive, too, shows the last put of every key. */
  lemma FrontScansAreRight(ops: seq<Op>)
    requires NonEmptyPuts(ops)
    ensures forall k :: LiveAt(Run(ops, Front), k) == LastPut(ops, k)
  {
    RunKeepsShape(ops, Front);
    FrontRunsAreRight(ops);
    LiveAgreesWithGet(Run(ops, Front));
  }

  // ---- The same tables in another order ----

  /** Reopening brings the tables of L1 and L2 back in the manifest's order. */
  ghost predicate Reordering(s: State, t: State) {
    t.mem == s.mem && t.l0 == s.l0 && multiset(t.l1) == multiset(s.l1) && multiset(t.l2) == multiset(s.l2)
  }

  /** All tables that have the key give it the same value. */
  ghost predicate Unanimous(ts: seq<Table>, k: Key) {
    forall i, j :: 0 <= i < |ts| && 0 <= j < |ts| && Lookup(ts[i], k).Some? && Lookup(ts[j], k).Some? ==>
      Lookup(ts[i], k) == Lookup(ts[j], k)
  }

  /** For every key that memtable and L0 leave open, the first level that has it has one value of it. */
  ghost predicate LevelsUnanimous(s: State) {
    forall k :: MemGet(s.mem, k) == None && FirstHit(s.l0, k) == None ==>
      Unanimous(s.l1, k) && (FirstHit(s.l1, k) == None ==> Unanimous(s.l2, k))
  }

  lemma UnanimousFirst(ts: seq<Table>, us: seq<Table>, k: Key)
    requires Unanimous(ts, k) && multiset(ts) == multiset(us)
    ensures FirstHit(us, k) == FirstHit(ts, k)
  {
    if FirstHit(us, k).Some? {
      var j := FirstHitFrom(us, k);
      assert us[j] in multiset(us);
      var i :| 0 <= i < |ts| && ts[i] == us[j];
      if FirstHit(ts, k) == None { FirstHitAt(ts, k, i); }
      var n := FirstHitFrom(ts, k);
    } else if FirstHit(ts, k).Some? {
      var i := FirstHitFrom(ts, k);
      assert ts[i] in multiset(ts);
      var j :| 0 <= j < |us| && us[j] == ts[i];
      FirstHitAt(us, k, j);
    }
  }

  lemma {:induction false} FirstHitAt(ts: seq<Table>, k: Key, i: nat)
    requires i < |ts| && Lookup(ts[i], k).Some?
    ensures FirstHit(ts, k).Some?
  {
    if Lookup(ts[0], k) == None { FirstHitAt(ts[1..], k, i - 1); }
  }

  function Foremost(ts: seq<Table>, i: nat): seq<Table>
    requires i < |ts|
  {
    [ts[i]] + (ts[..i] + ts[i + 1..])
  }

  lemma ForemostReorders(ts: seq<Table>, i: nat, k: Key)
    requires i < |ts|
    ensures multiset(Foremost(ts, i)) == multiset(ts)
    ensures Lookup(ts[i], k).Some? ==> FirstHit(Foremost(ts, i), k) == Lookup(ts[i], k)
  {
    assert ts == ts[..i] + ([ts[i]] + ts[i + 1..]);
  }

  /** With any of the tables in front, the level's first hit is that table's value. */
  lemma Disunited(ts: seq<Table>, k: Key) returns (us: seq<Table>, vs: seq<Table>)
    requires NoEmptyHits(ts) && !Unanimous(ts, k)
    ensures multiset(us) == multiset(ts) == multiset(vs)
    ensures FirstHit(us, k).Some? && FirstHit(vs, k).Some?
    ensures FirstHit(us, k) != FirstHit(vs, k) && FirstHit(us, k) != Some([]) && FirstHit(vs, k) != Some([])
  {
    var i, j :| 0 <= i < |ts| && 0 <= j < |ts| && Lookup(ts[i], k).Some? && Lookup(ts[j], k).Some? &&
      Lookup(ts[i], k) != Lookup(ts[j], k);
    us, vs := Foremost(ts, i), Foremost(ts, j);
    ForemostReorders(ts, i, k);
    ForemostReorders(ts, j, k);
  }

  lemma OpenRead(s: State, k: Key)
    requires MemGet(s.mem, k) == None && FirstHit(s.l0, k) == None
    ensures Get(s, k) == Visible(if FirstHit(s.l1, k).Some? then FirstHit(s.l1, k) else FirstHit(s.l2, k))
  {
    FirstHitConcat(s.l0 + s.l1, s.l2, k);
    FirstHitConcat(s.l0, s.l1, k);
  }

  ghost predicate SameGets(s: State, t: State) {
    forall k :: Get(s, k) == Get(t, k)
  }

  /** The order of the tables in L1 and L2 matters to no read exactly if, for every key
      that memtable and L0 leave open, the level that answers holds one value of it. */
  lemma ReorderedReadsExactly(s: State)
    requires NoEmptyValues(s)
    ensures (forall t :: Reordering(s, t) ==> SameGets(s, t)) <==> LevelsUnanimous(s)
  {
    if LevelsUnanimous(s) {
      forall t | Reordering(s, t) ensures SameGets(s, t) { UnanimousReads(s, t); }
    } else {
      var k :| MemGet(s.mem, k) == None && FirstHit(s.l0, k) == None &&
        !(Unanimous(s.l1, k) && (FirstHit(s.l1, k) == None ==> Unanimous(s.l2, k)));
      var t, u := SplitReads(s, k);
      assert Reordering(s, t) && Reordering(s, u);
      assert Get(t, k) != Get(u, k);
    }
  }

  lemma UnanimousReads(s: State, t: State)
    requires LevelsUnanimous(s) && Reordering(s, t)
    ensures SameGets(s, t)
  {
    forall k ensures Get(s, k) == Get(t, k) {
      if MemGet(s.mem, k) == None {
        if FirstHit(s.l0, k) == None {
          OpenRead(s, k);
          OpenRead(t, k);
          UnanimousFirst(s.l1, t.l1, k);
          if FirstHit(s.l1, k) == None { UnanimousFirst(s.l2, t.l2, k); }
        } else {
          FirstHitConcat(s.l0, s.l1 + s.l2, k);
          FirstHitConcat(t.l0, t.l1 + t.l2, k);
          assert SearchedTables(s) == s.l0 + (s.l1 + s.l2) && SearchedTables(t) == t.l0 + (t.l1 + t.l2);
        }
      }
    }
  }

  lemma SplitReads(s: State, k: Key) returns (t: State, u: State)
    requires NoEmptyValues(s) && MemGet(s.mem, k) == None && FirstHit(s.l0, k) == None
    requires !Unanimous(s.l1, k) || (FirstHit(s.l1, k) == None && !Unanimous(s.l2, k))
    ensures Reordering(s, t) && Reordering(s, u) && Get(t, k) != Get(u, k)
  {
    if !Unanimous(s.l1, k) {
      var us, vs := Disunited(s.l1, k);
      t, u := s.(l1 := us), s.(l1 := vs);
    } else {
      var us, vs := Disunited(s.l2, k);
      t, u := s.(l2 := us), s.(l2 := vs);
    }
    OpenRead(t, k);
    OpenRead(u, k);
  }
}
