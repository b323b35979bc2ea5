/** Whole lives of an engine: puts, flushes, compactions, crashes and reopenings, as what
    happens to the state reads see and to the state the disk would recover. */
module Sessions {
  import opened Common
  import opened SortedSlots
  import opened Tables
  import opened Merging
  import opened Levels
  import opened Disks

  datatype Pair = Pair(run: State, saved: State)

  datatype Event =
    | Put(key: Key, value: Bytes)  // logged, then inserted
    | Flush
    | CompactL0
    | Cascade                      // L1 into L2, with L0 just emptied
    | Reopen                       // from the disk, after a crash or not
    | TruncatedCrash               // a crash in a flush that truncates first, and the reopening after it

  /** The engine's placement of compaction outputs is a parameter; the manifest's is Front. */
  function After(q: Pair, e: Event, p: Placement): Pair {
    match e
    case Put(k, v) => Pair(Step(q.run, Op.Put(k, v), p), Step(q.saved, Op.Put(k, v), p))
    case Flush => Pair(Step(q.run, Op.Flush, p), Step(q.saved, Op.Flush, p))
    case CompactL0 => Pair(Compact0(q.run, p), Compact0(q.saved, Front))
    case Cascade =>
      if |q.run.l1| < 2 || q.run.l0 != [] then q
      else Pair(Compact1(q.run, p), q.saved.(l1 := [], l2 := [Compacted(q.run.l1)] + q.saved.l2))
    case Reopen => Pair(q.saved, q.saved)
    case TruncatedCrash => Pair(q.saved.(mem := []), q.saved.(mem := []))
  }

  function Live(events: seq<Event>, p: Placement): Pair {
    if events == [] then Pair(State([], [], [], []), State([], [], [], []))
    else After(Live(events[..|events| - 1], p), events[|events| - 1], p)
  }

  /** The events as they follow a given pair. */
  function Played(q: Pair, events: seq<Event>, p: Placement): Pair
    decreases |events|
  {
    if events == [] then q else Played(After(q, events[0], p), events[1..], p)
  }

  lemma {:induction false} LivePlayed(events: seq<Event>, more: seq<Event>, p: Placement)
    ensures Live(events + more, p) == Played(Live(events, p), more, p)
    decreases |more|
  {
    if more == [] {
      assert events + more == events;
    } else {
      assert (events + [more[0]])[..|events|] == events;
      assert events + more == events + [more[0]] + more[1..];
      LivePlayed(events + [more[0]], more[1..], p);
    }
  }

  /** The map the engine is meant to be: the last value logged for the key. */
  function LastLogged(events: seq<Event>, k: Key): Option<Bytes> {
    if events == [] then None
    else
      var last := events[|events| - 1];
      if last.Put? && last.key == k then Some(last.value) else LastLogged(events[..|events| - 1], k)
  }

  predicate NonEmpty(e: Event) {
    e.Put? ==> e.value != []
  }

  // ---- What every event keeps ----

  /** The tables of both lists hold the same keys. */
  ghost predicate HitAlike(ts: seq<Table>, us: seq<Table>) {
    forall k :: FirstHit(ts, k).Some? <==> FirstHit(us, k).Some?
  }

  ghost predicate Shape(q: Pair) {
    && Sorted(q.run) && Sorted(q.saved) && NoEmptyValues(q.run) && NoEmptyValues(q.saved)
    && q.run.mem == q.saved.mem && q.run.l0 == q.saved.l0 && HitAlike(q.run.l1, q.saved.l1)
  }

  lemma HitAlikeMore(ts: seq<Table>, us: seq<Table>, out: Table, p: Placement)
    requires HitAlike(ts, us)
    ensures HitAlike(Place(ts, out, p), Place(us, out, Front))
  {
    forall k ensures FirstHit(Place(ts, out, p), k).Some? <==> FirstHit(Place(us, out, Front), k).Some? {
      FirstHitConcat(ts, [out], k);
      FirstHitConcat([out], ts, k);
      FirstHitConcat([out], us, k);
    }
  }

  lemma CascadeKeepsSaved(s: State, tables: seq<Table>)
    requires Sorted(s) && NoEmptyValues(s) && AllAscending(tables)
    ensures Sorted(s.(l1 := [], l2 := [Compacted(tables)] + s.l2)) &&
            NoEmptyValues(s.(l1 := [], l2 := [Compacted(tables)] + s.l2))
  {
    CompactedNoEmpty(tables);
  }

  lemma ShapeKept(q: Pair, e: Event, p: Placement)
    requires Shape(q) && NonEmpty(e)
    ensures Shape(After(q, e, p))
  {
    match e
    case Put(k, v) =>
      StepKeepsShape(q.run, Op.Put(k, v), p);
      StepKeepsShape(q.saved, Op.Put(k, v), p);
    case Flush =>
      StepKeepsShape(q.run, Op.Flush, p);
      StepKeepsShape(q.saved, Op.Flush, p);
    case CompactL0 =>
      StepKeepsShape(q.run, Op.CompactL0, p);
      StepKeepsShape(q.saved, Op.CompactL0, Front);
      HitAlikeMore(q.run.l1, q.saved.l1, Compacted(q.run.l0), p);
    case Cascade =>
      StepKeepsShape(q.run, Op.CompactL1, p);
      CascadeKeepsSaved(q.saved, q.run.l1);
    case Reopen =>
    case TruncatedCrash =>
  }

  lemma {:induction false} LiveShape(events: seq<Event>, p: Placement)
    requires forall e :: e in events ==> NonEmpty(e)
    ensures Shape(Live(events, p))
  {
    if events != [] {
      LiveShape(events[..|events| - 1], p);
      ShapeKept(Live(events[..|events| - 1], p), events[|events| - 1], p);
    }
  }

  // ---- One event, at one key ----

  ghost predicate RightAt(q: Pair, m: Option<Bytes>, k: Key) {
    Get(q.run, k) == m && Get(q.saved, k) == m
  }

  /** What the event must find for this key: known before it happens. */
  ghost predicate GuardAt(q: Pair, e: Event, p: Placement, k: Key) {
    match e
    case CompactL0 => |q.run.l0| >= 2 && MemGet(q.run.mem, k) == None ==> SafeAt(q.run.l0, q.run.l1, q.run.l2, k, p)
    case Cascade =>
      |q.run.l1| >= 2 && q.run.l0 == [] && MemGet(q.run.mem, k) == None ==>
        SafeAt(q.run.l1, q.run.l2, [], k, p) && FirstHit(q.run.l1, k) == FirstHit(q.saved.l1, k)
    case TruncatedCrash =>
      MemGet(q.saved.mem, k).Some? ==> Visible(MemGet(q.saved.mem, k)) == View(SearchedTables(q.saved), k)
    case _ => true
  }

  lemma FlushAtKey(s: State, k: Key)
    requires Sorted(s) && NoEmptyValues(s)
    ensures Get(Step(s, Op.Flush, Front), k) == Get(s, k)
  {
    FlushKeepsReads(s);
  }

  lemma Compact0AtKey(s: State, p: Placement, k: Key)
    requires Sorted(s)
    ensures Get(Compact0(s, p), k) == Get(s, k) <==>
            (|s.l0| >= 2 && MemGet(s.mem, k) == None ==> SafeAt(s.l0, s.l1, s.l2, k, p))
  {
    if |s.l0| >= 2 {
      CompactionAtKey(s.l0, s.l1, s.l2, k, p);
      assert SearchedTables(Compact0(s, p)) == Place(s.l1, Compacted(s.l0), p) + s.l2;
    }
  }

  lemma CascadeRunAtKey(s: State, p: Placement, k: Key)
    requires Sorted(s) && s.l0 == [] && |s.l1| >= 2
    ensures Get(Compact1(s, p), k) == Get(s, k) <==> (MemGet(s.mem, k) == None ==> SafeAt(s.l1, s.l2, [], k, p))
  {
    CompactionAtKey(s.l1, s.l2, [], k, p);
    assert s.l1 + s.l2 + [] == SearchedTables(s);
    assert Place(s.l2, Compacted(s.l1), p) + [] == SearchedTables(Compact1(s, p));
  }

  lemma CascadeSavedAtKey(s: State, tables: seq<Table>, k: Key)
    requires s.l0 == [] && AllAscending(tables) && NoEmptyHits(s.l1) && NoEmptyHits(tables) && HitAlike(tables, s.l1)
    ensures Get(s.(l1 := [], l2 := [Compacted(tables)] + s.l2), k) == Get(s, k) <==>
            (MemGet(s.mem, k) == None ==> FirstHit(tables, k) == FirstHit(s.l1, k))
  {
    var out := Compacted(tables);
    var t := s.(l1 := [], l2 := [out] + s.l2);
    assert SearchedTables(t) == [out] + s.l2 && SearchedTables(s) == s.l1 + s.l2;
    CompactedLookup(tables, k);
    FirstHitConcat([out], s.l2, k);
    assert FirstHit([out], k) == Lookup(out, k);
    FirstHitConcat(s.l1, s.l2, k);
    NoEmptyHitsFirst(tables, k);
    NoEmptyHitsFirst(s.l1, k);
  }

  lemma PutAtKey(s: State, key: Key, v: Bytes, p: Placement, k: Key)
    requires Sorted(s)
    ensures Get(Step(s, Op.Put(key, v), p), k) == if key == k then Visible(Some(v)) else Get(s, k)
  {
    PutSlotIsUpdate(s.mem, key, v, k);
  }

  lemma EventAtKey(q: Pair, m: Option<Bytes>, e: Event, p: Placement, k: Key)
    requires Shape(q) && NonEmpty(e) && RightAt(q, m, k)
    ensures RightAt(After(q, e, p), if e.Put? && e.key == k then Some(e.value) else m, k) <==> GuardAt(q, e, p, k)
  {
    match e
    case Put(key, v) =>
      PutAtKey(q.run, key, v, p, k);
      PutAtKey(q.saved, key, v, p, k);
    case Flush =>
      FlushAtKey(q.run, k);
      FlushAtKey(q.saved, k);
    case CompactL0 =>
      Compact0AtKey(q.run, p, k);
      Compact0AtKey(q.saved, Front, k);
      FrontIsGuarded(q.saved);
    case Cascade =>
      if |q.run.l1| >= 2 && q.run.l0 == [] {
        CascadeRunAtKey(q.run, p, k);
        CascadeSavedAtKey(q.saved, q.run.l1, k);
      }
    case Reopen =>
    case TruncatedCrash =>
  }

  // ---- A whole session, at one key ----

  /** At every moment both what reads see and what a crash would recover is the last value logged. */
  ghost predicate AllRightAt(events: seq<Event>, p: Placement, k: Key) {
    && (events == [] || AllRightAt(events[..|events| - 1], p, k))
    && RightAt(Live(events, p), LastLogged(events, k), k)
  }

  ghost predicate AllGuardedAt(events: seq<Event>, p: Placement, k: Key) {
    events == [] ||
    (AllGuardedAt(events[..|events| - 1], p, k) && GuardAt(Live(events[..|events| - 1], p), events[|events| - 1], p, k))
  }

  /** Key by key, a session of non-empty puts, flushes, compactions, crashes and reopenings
      goes right throughout if and only if every event in it met its guard. */
  lemma {:induction false} SessionExactly(events: seq<Event>, p: Placement, k: Key)
    requires forall e :: e in events ==> NonEmpty(e)
    ensures AllRightAt(events, p, k) <==> AllGuardedAt(events, p, k)
  {
    if events != [] {
      var front, last := events[..|events| - 1], events[|events| - 1];
      SessionExactly(front, p, k);
      LiveShape(front, p);
      if AllRightAt(front, p, k) {
        AllRightNow(front, p, k);
        EventAtKey(Live(front, p), LastLogged(front, k), last, p, k);
      }
    }
  }

  lemma AllRightNow(events: seq<Event>, p: Placement, k: Key)
    requires AllRightAt(events, p, k)
    ensures RightAt(Live(events, p), LastLogged(events, k), k)
  {
  }

  lemma {:induction false} GuardedBefore(events: seq<Event>, p: Placement, k: Key, n: nat)
    requires AllGuardedAt(events, p, k) && n <= |events|
    ensures AllGuardedAt(events[..n], p, k)
    decreases |events|
  {
    if n == |events| {
      assert events[..n] == events;
    } else {
      GuardedBefore(events[..|events| - 1], p, k, n);
      assert events[..|events| - 1][..n] == events[..n];
    }
  }

  // ---- With the output in front ----

  lemma {:induction false} FrontIsSaved(events: seq<Event>)
    requires forall e :: e in events ==> NonEmpty(e)
    ensures Live(events, Front).run == Live(events, Front).saved
  {
    if events != [] { FrontIsSaved(events[..|events| - 1]); }
  }

  /** Every crash behind a log truncated too early met its guard. */
  ghost predicate CrashesGuarded(events: seq<Event>, k: Key) {
    forall n :: 0 <= n < |events| && events[n] == TruncatedCrash ==>
      GuardAt(Live(events[..n], Front), TruncatedCrash, Front, k)
  }

  /** The only guard a newest-first engine has to meet is that of the truncating crash. */
  lemma FrontSessionsExactly(events: seq<Event>, k: Key)
    requires forall e :: e in events ==> NonEmpty(e)
    ensures AllRightAt(events, Front, k) <==> CrashesGuarded(events, k)
  {
    SessionExactly(events, Front, k);
    FrontGuards(events, k);
  }

  lemma FrontGuarded(events: seq<Event>, e: Event, k: Key)
    requires e != TruncatedCrash && forall e :: e in events ==> NonEmpty(e)
    ensures GuardAt(Live(events, Front), e, Front, k)
  {
    LiveShape(events, Front);
    FrontIsSaved(events);
    FrontIsGuarded(Live(events, Front).run);
  }

  lemma {:induction false} FrontGuards(events: seq<Event>, k: Key)
    requires forall e :: e in events ==> NonEmpty(e)
    ensures AllGuardedAt(events, Front, k) <==> CrashesGuarded(events, k)
  {
    if events != [] {
      var front, last := events[..|events| - 1], events[|events| - 1];
      FrontGuards(front, k);
      if last != TruncatedCrash { FrontGuarded(front, last, k); }
      hide GuardAt, Live, CrashesGuarded;
      LastCrash(events, k);
    }
  }

  lemma LastCrash(events: seq<Event>, k: Key)
    requires events != []
    ensures var front, last := events[..|events| - 1], events[|events| - 1];
            CrashesGuarded(events, k) <==>
            CrashesGuarded(front, k) && (last == TruncatedCrash ==> GuardAt(Live(front, Front), last, Front, k))
  {
    hide GuardAt, Live;
    var front := events[..|events| - 1];
    assert forall n :: 0 <= n < |front| ==> front[..n] == events[..n];
    assert CrashesGuarded(events, k) ==> CrashesGuarded(front, k) by {
      assert forall n :: 0 <= n < |front| ==> front[n] == events[n];
    }
  }
}
