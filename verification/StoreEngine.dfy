/** The store of memory records on the real engine, which flushes and compacts as it goes and
    may crash: what each call does to an id, and under which guards the store's promises hold. */
module EngineStores {
  import opened Common
  import opened SortedSlots
  import opened Tables
  import opened Merging
  import opened Levels
  import opened Sessions
  import M = MemoryStores

  // ---- The engine as a map ----

  function KeysOf(s: State): set<Key> {
    (set x | x in s.mem :: x.key) + (set t, e | t in SearchedTables(s) && e in t :: e.key)
  }

  /** Everything the engine answers. */
  function Answers(s: State): map<Key, Bytes> {
    map k | k in KeysOf(s) && Get(s, k).Some? :: Get(s, k).value
  }

  function At(m: map<Key, Bytes>, k: Key): Option<Bytes> {
    if k in m then Some(m[k]) else None
  }

  lemma {:induction false} FoundInSlots(mem: seq<Slot>, k: Key)
    requires Find(mem, k).Some?
    ensures exists x :: x in mem && x.key == k
  {
    if mem[0].key == k {
      assert mem[0] in mem;
    } else {
      FoundInSlots(mem[1..], k);
      var x :| x in mem[1..] && x.key == k;
      assert x in mem;
    }
  }

  lemma AnswersAt(s: State, k: Key)
    ensures At(Answers(s), k) == Get(s, k)
  {
    if MemGet(s.mem, k).Some? {
      FoundInSlots(s.mem, k);
    } else if FirstHit(SearchedTables(s), k).Some? {
      var i := FirstHitFrom(SearchedTables(s), k);
      var j := LookupSome(SearchedTables(s)[i], k);
      assert SearchedTables(s)[i] in SearchedTables(s) && SearchedTables(s)[i][j] in SearchedTables(s)[i];
    }
  }

  /** After a life of non-empty puts, what the warm-up's scan visits is what get answers. */
  lemma ScanShowsAnswers(events: seq<Event>, p: Placement, k: Key)
    requires forall e :: e in events ==> NonEmpty(e)
    ensures LiveAt(Live(events, p).run, k) == At(Answers(Live(events, p).run), k)
  {
    LiveShape(events, p);
    LiveAgreesWithGet(Live(events, p).run);
    AnswersAt(Live(events, p).run, k);
  }

  // ---- Calls of the store over the engine ----

  /** Cache and dirty set, and all that has happened to the engine. */
  datatype Moment = Moment(cache: map<Key, M.Record>, dirty: set<Key>, events: seq<Event>)

  /** The store as its reads see it: the engine answers from its tables as they are. */
  function Seen(t: Moment, p: Placement): M.Store {
    M.Store(t.cache, t.dirty, Answers(Live(t.events, p).run))
  }

  predicate Crash(e: Event) {
    e.Reopen? || e.TruncatedCrash?
  }

  /** The events log what turns one map into the other, and log encoded records only. */
  ghost predicate Logs(o: M.Outside, events: seq<Event>, before: map<Key, Bytes>, after: map<Key, Bytes>) {
    && (forall e :: e in events && e.Put? ==> exists r :: e.value == o.encode(r))
    && (forall k :: At(after, k) == if LastLogged(events, k).Some? then LastLogged(events, k) else At(before, k))
  }

  /** One call.  It reads the engine as it is, and logs what it would write to a map; flushes
      and compactions may come at any point.  Opening warms the cache from what it finds. */
  ghost predicate Turn(o: M.Outside, maxCache: nat, p: Placement, t: Moment, op: M.Op, t': Moment) {
    && t.events <= t'.events
    && var more := t'.events[|t.events|..];
    if op.Reopen? then
      && (forall e :: e in more ==> !e.Put?)
      && t'.dirty == {} && t'.cache == M.Warmed(o, Seen(t', p).lsm).cache
    else
      && (forall e :: e in more ==> !Crash(e))
      && exists s :: Called(o, maxCache, p, t, op, t', more, s)
  }

  ghost predicate Called(o: M.Outside, maxCache: nat, p: Placement, t: Moment, op: M.Op, t': Moment,
                         more: seq<Event>, s: M.Store)
  {
    && M.Next(o, maxCache, Seen(t, p), op, s)
    && t'.cache == s.cache && t'.dirty == s.dirty && Logs(o, more, Seen(t, p).lsm, s.lsm)
  }

  /** A life of the store, from an empty directory on. */
  ghost predicate Life(o: M.Outside, maxCache: nat, p: Placement, ts: seq<Moment>, ops: seq<M.Op>) {
    && |ts| == |ops| + 1 && ts[0] == Moment(map[], {}, [])
    && forall i :: 0 <= i < |ops| ==> Turn(o, maxCache, p, ts[i], ops[i], ts[i + 1])
  }

  // ---- Every call can be carried out ----

  lemma {:induction false} PutAll(keys: set<Key>, m: map<Key, Bytes>) returns (events: seq<Event>)
    requires keys <= m.Keys
    ensures forall e :: e in events ==> e.Put? && e.key in m && e.value == m[e.key] && e.key in keys
    ensures forall k :: LastLogged(events, k) == if k in keys then Some(m[k]) else None
    decreases |keys|
  {
    if keys == {} {
      events := [];
    } else {
      var k :| k in keys;
      var rest := PutAll(keys - {k}, m);
      events := rest + [Event.Put(k, m[k])];
      assert events[..|rest|] == rest;
    }
  }

  /** A call takes nothing away from the engine, and writes encoded records only. */
  ghost predicate Writes(o: M.Outside, before: map<Key, Bytes>, after: map<Key, Bytes>) {
    && before.Keys <= after.Keys
    && forall k :: k in after && At(before, k) != Some(after[k]) ==> exists r :: after[k] == o.encode(r)
  }

  lemma FlushWrites(o: M.Outside, s: M.Store)
    ensures Writes(o, s.lsm, M.Flushed(o, s).lsm)
  {
  }

  lemma EvictionWrites(o: M.Outside, maxCache: nat, s: M.Store, x: Key, r: M.Record, s': M.Store)
    requires M.Evicted(o, M.WriteThrough(o, s, x, r), s', maxCache)
    ensures Writes(o, s.lsm, s'.lsm)
  {
    hide M.FlushedIds, M.Lowest;
    FlushWrites(o, M.WriteThrough(o, s, x, r));
  }

  lemma CallsWrite(o: M.Outside, maxCache: nat, s: M.Store, op: M.Op, s': M.Store)
    requires M.Next(o, maxCache, s, op, s')
    ensures Writes(o, s.lsm, s'.lsm)
  {
    hide M.Evicted, M.FlushedIds, M.Stamped, M.NewVersion, M.IsAlive, M.Below, M.DecayedBut;
    match op
    case FastStore(r, freshId, now) =>
      EvictionWrites(o, maxCache, s, M.Stamped(r, freshId, now).id, M.Stamped(r, freshId, now), s');
    case Flush => FlushWrites(o, s);
    case _ =>
  }

  /** What a call makes of the store over a map, it can make of it over the engine. */
  lemma EveryCallTurns(o: M.Outside, maxCache: nat, p: Placement, t: Moment, op: M.Op, s: M.Store)
    returns (t': Moment)
    requires !op.Reopen? && M.Next(o, maxCache, Seen(t, p), op, s)
    ensures Turn(o, maxCache, p, t, op, t') && t'.cache == s.cache && t'.dirty == s.dirty
  {
    hide M.Next, Answers, Live, Writes, Logs;
    CallsWrite(o, maxCache, Seen(t, p), op, s);
    var more := LogWrites(o, Seen(t, p).lsm, s.lsm);
    t' := Moment(s.cache, s.dirty, t.events + more);
    assert t'.events[|t.events|..] == more;
    assert Called(o, maxCache, p, t, op, t', more, s);
  }

  lemma LogWrites(o: M.Outside, before: map<Key, Bytes>, after: map<Key, Bytes>) returns (more: seq<Event>)
    requires Writes(o, before, after)
    ensures Logs(o, more, before, after) && forall e :: e in more ==> !Crash(e)
  {
    var keys := set k | k in after && At(before, k) != Some(after[k]);
    more := PutAll(keys, after);
  }

  // ---- One call, at one id ----

  /** The two stores cannot be told apart at this id. */
  predicate AgreeAt(s: M.Store, t: M.Store, id: Key) {
    && (id in s.cache <==> id in t.cache) && (id in s.cache ==> s.cache[id] == t.cache[id])
    && (id in s.dirty <==> id in t.dirty) && At(s.lsm, id) == At(t.lsm, id)
  }

  lemma AgreeingStores(o: M.Outside, s: M.Store, t: M.Store, id: Key)
    requires AgreeAt(s, t, id)
    ensures M.Fetched(o, s, id) == M.Fetched(o, t, id) && M.CoherentAt(o, s, id) == M.CoherentAt(o, t, id)
    ensures M.Buried(o, s, id) == M.Buried(o, t, id) && M.Alive(o, s, id) == M.Alive(o, t, id)
    ensures M.KeyedAt(o, s, id) == M.KeyedAt(o, t, id)
  {
    assert id in s.lsm <==> At(s.lsm, id).Some?;
    assert id in t.lsm <==> At(t.lsm, id).Some?;
  }

  lemma {:induction false} LastLoggedConcat(a: seq<Event>, b: seq<Event>, k: Key)
    ensures LastLogged(a + b, k) == if LastLogged(b, k).Some? then LastLogged(b, k) else LastLogged(a, k)
    decreases |b|
  {
    if b == [] {
      assert a + b == a;
    } else {
      assert (a + b)[..|a + b| - 1] == a + b[..|b| - 1];
      LastLoggedConcat(a, b[..|b| - 1], k);
    }
  }

  lemma {:induction false} NeverLogged(events: seq<Event>, k: Key)
    requires forall e :: e in events ==> !(e.Put? && e.key == k)
    ensures LastLogged(events, k) == None
  {
    if events != [] { NeverLogged(events[..|events| - 1], k); }
  }

  /** Where every event met its guard the engine answers the last value logged. */
  lemma GuardedAnswer(events: seq<Event>, p: Placement, id: Key)
    requires (forall e :: e in events ==> NonEmpty(e)) && AllGuardedAt(events, p, id)
    ensures At(Answers(Live(events, p).run), id) == LastLogged(events, id)
  {
    SessionExactly(events, p, id);
    AllRightNow(events, p, id);
    AnswersAt(Live(events, p).run, id);
  }

  lemma TurnKeepsNonEmpty(o: M.Outside, maxCache: nat, p: Placement, t: Moment, op: M.Op, t': Moment)
    requires M.Lawful(o) && Turn(o, maxCache, p, t, op, t') && forall e :: e in t.events ==> NonEmpty(e)
    ensures forall e :: e in t'.events ==> NonEmpty(e)
  {
    var more := t'.events[|t.events|..];
    assert t'.events == t.events + more;
    if !op.Reopen? {
      var s :| Called(o, maxCache, p, t, op, t', more, s);
      forall e | e in more ensures NonEmpty(e) {
        if e.Put? {
          var r :| e.value == o.encode(r);
        }
      }
    }
  }

  /** Where every event so far met its guard for the id, a call does to the id what it would
      do over a map. */
  lemma TurnAt(o: M.Outside, maxCache: nat, p: Placement, t: Moment, op: M.Op, t': Moment, id: Key)
    returns (s: M.Store)
    requires M.Lawful(o) && Turn(o, maxCache, p, t, op, t') && forall e :: e in t'.events ==> NonEmpty(e)
    requires AllGuardedAt(t'.events, p, id)
    ensures M.Next(o, maxCache, Seen(t, p), op, s) && AgreeAt(s, Seen(t', p), id)
  {
    hide M.Next, Answers, AllGuardedAt, Live;
    var more := t'.events[|t.events|..];
    assert t'.events == t.events + more && t'.events[..|t.events|] == t.events;
    GuardedBefore(t'.events, p, id, |t.events|);
    GuardedAnswer(t'.events, p, id);
    GuardedAnswer(t.events, p, id);
    LastLoggedConcat(t.events, more, id);
    if op.Reopen? {
      s := M.Warmed(o, Seen(t, p).lsm);
      NeverLogged(more, id);
      ReopenNext(o, maxCache, Seen(t, p), s);
    } else {
      s :| Called(o, maxCache, p, t, op, t', more, s);
    }
  }

  lemma ReopenNext(o: M.Outside, maxCache: nat, s: M.Store, s': M.Store)
    ensures M.Next(o, maxCache, s, M.Op.Reopen, s') <==> s' == M.Warmed(o, s.lsm)
  {
  }

  // ---- The store's promises ----

  /** A flush, whatever compactions it brings, changes no answer. */
  lemma FlushIsInvisible(o: M.Outside, maxCache: nat, p: Placement, t: Moment, t': Moment, id: Key)
    requires M.Lawful(o) && Turn(o, maxCache, p, t, M.Op.Flush, t') && forall e :: e in t'.events ==> NonEmpty(e)
    requires AllGuardedAt(t'.events, p, id)
    ensures M.Fetched(o, Seen(t', p), id) == M.Fetched(o, Seen(t, p), id)
  {
    hide Turn, Answers, AllGuardedAt, Live, AgreeAt;
    var s := TurnAt(o, maxCache, p, t, M.Op.Flush, t', id);
    AgreeingStores(o, s, Seen(t', p), id);
    M.FlushIsInvisible(o, Seen(t, p), id);
  }

  /** A store that evicts changes no other answer beyond what storing does to a record. */
  lemma EvictionIsInvisible(o: M.Outside, maxCache: nat, p: Placement, t: Moment, op: M.Op, t': Moment, id: Key)
    requires M.Lawful(o) && Turn(o, maxCache, p, t, op, t') && forall e :: e in t'.events ==> NonEmpty(e)
    requires op.FastStore? && id != M.Stamped(op.record, op.freshId, op.now).id
    requires AllGuardedAt(t'.events, p, id) && M.CoherentAt(o, Seen(t, p), id)
    ensures M.SameAnswer(o, M.Fetched(o, Seen(t, p), id), M.Fetched(o, Seen(t', p), id))
  {
    var s := TurnAt(o, maxCache, p, t, op, t', id);
    AgreeingStores(o, s, Seen(t', p), id);
    var r := M.Stamped(op.record, op.freshId, op.now);
    M.EvictionIsInvisible(o, M.WriteThrough(o, Seen(t, p), r.id, r), s, maxCache, id);
  }

  /** A crash loses nothing of an id that was not dirty. */
  lemma CrashLosesOnlyDirty(o: M.Outside, maxCache: nat, p: Placement, t: Moment, t': Moment, id: Key)
    requires M.Lawful(o) && Turn(o, maxCache, p, t, M.Op.Reopen, t') && forall e :: e in t'.events ==> NonEmpty(e)
    requires AllGuardedAt(t'.events, p, id) && M.CoherentAt(o, Seen(t, p), id) && id !in t.dirty
    ensures M.SameAnswer(o, M.Fetched(o, Seen(t, p), id), M.Fetched(o, Seen(t', p), id))
  {
    hide M.Next, M.Warmed, Turn, Answers, AllGuardedAt, Live, AgreeAt;
    var s := TurnAt(o, maxCache, p, t, M.Op.Reopen, t', id);
    ReopenNext(o, maxCache, Seen(t, p), s);
    AgreeingStores(o, s, Seen(t', p), id);
    M.CrashLosesOnlyDirty(o, Seen(t, p), id);
  }

  lemma {:induction false} EarlierInLife(o: M.Outside, maxCache: nat, p: Placement, ts: seq<Moment>, ops: seq<M.Op>,
                                         i: nat, j: nat)
    requires M.Lawful(o) && Life(o, maxCache, p, ts, ops) && i <= j < |ts|
    ensures ts[i].events <= ts[j].events && forall e :: e in ts[j].events ==> NonEmpty(e)
    decreases j
  {
    if j > 0 {
      assert Turn(o, maxCache, p, ts[j - 1], ops[j - 1], ts[j]);
      EarlierInLife(o, maxCache, p, ts, ops, if i < j then i else j - 1, j - 1);
      TurnKeepsNonEmpty(o, maxCache, p, ts[j - 1], ops[j - 1], ts[j]);
    }
  }

  /** At every moment of a life an id is dirty or agrees with the engine, if it is cached. */
  lemma {:induction false} AlwaysCoherent(o: M.Outside, maxCache: nat, p: Placement, ts: seq<Moment>, ops: seq<M.Op>,
                                          j: nat, id: Key)
    requires M.Lawful(o) && Life(o, maxCache, p, ts, ops) && j < |ts| && AllGuardedAt(ts[j].events, p, id)
    ensures M.CoherentAt(o, Seen(ts[j], p), id)
    decreases j
  {
    if j > 0 {
      EarlierInLife(o, maxCache, p, ts, ops, j - 1, j);
      GuardedPrefix(ts[j].events, ts[j - 1].events, p, id);
      AlwaysCoherent(o, maxCache, p, ts, ops, j - 1, id);
      assert Turn(o, maxCache, p, ts[j - 1], ops[j - 1], ts[j]);
      var s := TurnAt(o, maxCache, p, ts[j - 1], ops[j - 1], ts[j], id);
      M.StepKeepsCoherent(o, maxCache, Seen(ts[j - 1], p), ops[j - 1], s, id);
      AgreeingStores(o, s, Seen(ts[j], p), id);
    }
  }

  /** At every moment of a life the record that an id answers is a record of that id. */
  lemma {:induction false} AlwaysKeyed(o: M.Outside, maxCache: nat, p: Placement, ts: seq<Moment>, ops: seq<M.Op>,
                                       j: nat, id: Key)
    requires M.Lawful(o) && Life(o, maxCache, p, ts, ops) && j < |ts| && AllGuardedAt(ts[j].events, p, id)
    ensures M.KeyedAt(o, Seen(ts[j], p), id)
    ensures M.Fetched(o, Seen(ts[j], p), id).Ok? ==> M.Fetched(o, Seen(ts[j], p), id).value.id == id
    decreases j
  {
    hide M.Next, AllGuardedAt, Live;
    if j > 0 {
      EarlierInLife(o, maxCache, p, ts, ops, j - 1, j);
      GuardedPrefix(ts[j].events, ts[j - 1].events, p, id);
      AlwaysKeyed(o, maxCache, p, ts, ops, j - 1, id);
      assert Turn(o, maxCache, p, ts[j - 1], ops[j - 1], ts[j]);
      var s := TurnAt(o, maxCache, p, ts[j - 1], ops[j - 1], ts[j], id);
      M.StepKeepsKeyed(o, maxCache, Seen(ts[j - 1], p), ops[j - 1], s, id);
      AgreeingStores(o, s, Seen(ts[j], p), id);
    } else {
      AnswersAt(Live([], p).run, id);
      NothingLive(p, id);
    }
  }

  lemma NothingLive(p: Placement, id: Key)
    ensures Get(Live([], p).run, id) == None
  {
  }

  lemma GuardedPrefix(events: seq<Event>, front: seq<Event>, p: Placement, id: Key)
    requires front <= events && AllGuardedAt(events, p, id)
    ensures AllGuardedAt(front, p, id)
  {
    assert events[..|front|] == front;
    GuardedBefore(events, p, id, |front|);
  }

  /** Once removed, an id is alive at no later moment of a life, crashes included, in which no
      call gives it out again and every event met its guard for it. */
  lemma {:induction false} RemovedStaysDead(o: M.Outside, maxCache: nat, p: Placement, ts: seq<Moment>, ops: seq<M.Op>,
                                            i: nat, j: nat, id: Key)
    requires M.Lawful(o) && Life(o, maxCache, p, ts, ops) && i < j < |ts|
    requires ops[i] == M.Op.Remove(id) && M.Fetched(o, Seen(ts[i], p), id).Ok?
    requires forall n :: i < n < j ==> !M.Reuses(o, Seen(ts[n], p), ops[n], id)
    requires AllGuardedAt(ts[j].events, p, id)
    ensures M.Buried(o, Seen(ts[j], p), id) && !M.Alive(o, Seen(ts[j], p), id)
    decreases j
  {
    var k := j - 1;
    EarlierInLife(o, maxCache, p, ts, ops, k, j);
    GuardedPrefix(ts[j].events, ts[k].events, p, id);
    assert Turn(o, maxCache, p, ts[k], ops[k], ts[j]);
    var s := TurnAt(o, maxCache, p, ts[k], ops[k], ts[j], id);
    if i == k {
      M.RemoveBuries(o, maxCache, Seen(ts[i], p), id, s);
    } else {
      RemovedStaysDead(o, maxCache, p, ts, ops, i, k, id);
      M.StepKeepsBuried(o, maxCache, Seen(ts[k], p), ops[k], s, id);
    }
    AgreeingStores(o, s, Seen(ts[j], p), id);
  }

  /** A call that gives a removed id out again brings it back exactly if the record it stores is alive. */
  lemma ReuseRevivesExactly(o: M.Outside, maxCache: nat, p: Placement, t: Moment, op: M.Op, t': Moment, id: Key)
    requires M.Lawful(o) && Turn(o, maxCache, p, t, op, t') && forall e :: e in t'.events ==> NonEmpty(e)
    requires AllGuardedAt(t'.events, p, id) && M.Buried(o, Seen(t, p), id)
    ensures M.Alive(o, Seen(t', p), id) <==>
            M.Reuses(o, Seen(t, p), op, id) && (op.FastStore? ==> M.IsAlive(M.Stamped(op.record, op.freshId, op.now)))
  {
    hide M.Next, Turn, Answers, AllGuardedAt, Live, AgreeAt, M.Stamped;
    var s := TurnAt(o, maxCache, p, t, op, t', id);
    AgreeingStores(o, s, Seen(t', p), id);
    M.ReuseRevivesExactly(o, maxCache, Seen(t, p), op, s, id);
  }

  /** What fastStore was given, stamped, is what the id answers, even if it is evicted at once. */
  lemma StoredIsFetched(o: M.Outside, maxCache: nat, p: Placement, t: Moment, r: M.Record, freshId: Key, now: nat,
                        t': Moment)
    requires M.Lawful(o) && Turn(o, maxCache, p, t, M.Op.FastStore(r, freshId, now), t')
    requires forall e :: e in t'.events ==> NonEmpty(e)
    requires AllGuardedAt(t'.events, p, if r.id == 0 then freshId else r.id)
    ensures var r' := M.Record(if r.id == 0 then freshId else r.id, r.parent, r.version, r.phase,
                               r.flags + (if r.embedding != [] then {M.EmbeddingFlag} else {}), r.scores, r.accessCount,
                               if r.createdAt == 0 then now else r.createdAt,
                               if r.createdAt == 0 then now else r.lastAccessed, r.embedding, r.content);
            M.SameAnswer(o, Ok(r'), M.Fetched(o, Seen(t', p), r'.id))
  {
    hide M.Next, Turn, Answers, AllGuardedAt, Live, AgreeAt, M.Stamped;
    var id := if r.id == 0 then freshId else r.id;
    var s := TurnAt(o, maxCache, p, t, M.Op.FastStore(r, freshId, now), t', id);
    AgreeingStores(o, s, Seen(t', p), id);
    M.StoredIsFetched(o, maxCache, Seen(t, p), r, freshId, now, s);
  }

  /** An update leaves the new content under the fresh id, as an active version of its own that
      names the old one as its parent, and the old record versioned. */
  lemma UpdateAnswers(o: M.Outside, maxCache: nat, p: Placement, t: Moment, id: Key, content: Bytes, embedding: Bytes,
                      freshId: Key, now: nat, t': Moment)
    requires M.Lawful(o) && Turn(o, maxCache, p, t, M.Op.Update(id, content, embedding, freshId, now), t')
    requires forall e :: e in t'.events ==> NonEmpty(e)
    requires AllGuardedAt(t'.events, p, id) && AllGuardedAt(t'.events, p, freshId)
    requires M.Fetched(o, Seen(t, p), id).Ok? && freshId != id
    ensures var r := M.Fetched(o, Seen(t, p), id).value;
            && M.Fetched(o, Seen(t', p), freshId) ==
               Ok(M.Record(freshId, r.id, (r.version + 1) % 0x1_0000_0000, M.Active, {M.AliveFlag}, r.scores, 0, now,
                           now, if embedding != [] then embedding else r.embedding, content))
            && M.Fetched(o, Seen(t', p), id) ==
               Ok(M.Record(r.id, r.parent, r.version, M.Versioned, r.flags - {M.AliveFlag} + {M.VersionedFlag},
                           r.scores, r.accessCount, r.createdAt, r.lastAccessed, r.embedding, r.content))
  {
    hide M.Next, Turn, Answers, AllGuardedAt, Live, AgreeAt, M.Fetched;
    var op := M.Op.Update(id, content, embedding, freshId, now);
    var s := TurnAt(o, maxCache, p, t, op, t', freshId);
    AgreeingStores(o, s, Seen(t', p), freshId);
    M.UpdateAnswers(o, maxCache, Seen(t, p), id, content, embedding, freshId, now, s);
    s := TurnAt(o, maxCache, p, t, op, t', id);
    AgreeingStores(o, s, Seen(t', p), id);
    M.UpdateAnswers(o, maxCache, Seen(t, p), id, content, embedding, freshId, now, s);
  }

  /** A call changes the answer of no id that it does not name, whatever the engine does under it. */
  lemma OthersAnswerAsBefore(o: M.Outside, maxCache: nat, p: Placement, t: Moment, op: M.Op, t': Moment, id: Key)
    requires M.Lawful(o) && Turn(o, maxCache, p, t, op, t') && forall e :: e in t'.events ==> NonEmpty(e)
    requires AllGuardedAt(t'.events, p, id) && M.CoherentAt(o, Seen(t, p), id)
    requires !M.Names(op, id) && (op.Reopen? ==> id !in t.dirty)
    ensures M.SameAnswer(o, M.Fetched(o, Seen(t, p), id), M.Fetched(o, Seen(t', p), id))
  {
    hide M.Next, Turn, Answers, AllGuardedAt, Live, AgreeAt, M.Fetched, M.Names;
    var s := TurnAt(o, maxCache, p, t, op, t', id);
    AgreeingStores(o, s, Seen(t', p), id);
    M.OthersAnswerAsBefore(o, maxCache, Seen(t, p), op, s, id);
  }

  /** With outputs in front, the only guards are those of crashes behind a log truncated too early. */
  lemma FrontRemovedStaysDead(o: M.Outside, maxCache: nat, ts: seq<Moment>, ops: seq<M.Op>, i: nat, j: nat, id: Key)
    requires M.Lawful(o) && Life(o, maxCache, Front, ts, ops) && i < j < |ts|
    requires ops[i] == M.Op.Remove(id) && M.Fetched(o, Seen(ts[i], Front), id).Ok?
    requires forall n :: i < n < j ==> !M.Reuses(o, Seen(ts[n], Front), ops[n], id)
    requires CrashesGuarded(ts[j].events, id)
    ensures M.Buried(o, Seen(ts[j], Front), id) && !M.Alive(o, Seen(ts[j], Front), id)
  {
    EarlierInLife(o, maxCache, Front, ts, ops, j, j);
    FrontGuards(ts[j].events, id);
    RemovedStaysDead(o, maxCache, Front, ts, ops, i, j, id);
  }

  // ---- Where a guard fails ----

  /** A crash behind a log that was truncated before the save: the id answers as before
      exactly if the tables already answered for the memtable. */
  lemma TruncationForgetsExactly(events: seq<Event>, p: Placement, id: Key)
    requires (forall e :: e in events ==> NonEmpty(e)) && AllGuardedAt(events, p, id)
    ensures var s, s' := Live(events, p), Live(events + [TruncatedCrash], p);
            At(Answers(s'.run), id) == At(Answers(s.run), id) <==>
            (MemGet(s.saved.mem, id).Some? ==> Visible(MemGet(s.saved.mem, id)) == View(SearchedTables(s.saved), id))
  {
    var more := events + [TruncatedCrash];
    assert more[..|events|] == events;
    LiveShape(events, p);
    GuardedAnswer(events, p, id);
    SessionExactly(events, p, id);
    AllRightNow(events, p, id);
    EventAtKey(Live(events, p), LastLogged(events, id), TruncatedCrash, p, id);
    AnswersAt(Live(more, p).run, id);
  }

  /** What the store makes of the engine once the cache has forgotten the id. */
  function Uncached(s: State): M.Store {
    M.Store(map[], {}, Answers(s))
  }

  /** A removed record is the newest version in L0.  Compacting L0 behind L1 brings it back
      exactly if L1 still holds an older version that is alive. */
  lemma RemovedReturnsExactly(o: M.Outside, s: State, r: M.Record)
    requires M.Lawful(o) && Sorted(s) && NoEmptyValues(s) && |s.l0| >= 2
    requires MemGet(s.mem, r.id) == None && FirstHit(s.l0, r.id) == Some(o.encode(M.MarkTombstone(r)))
    ensures !M.Alive(o, Uncached(s), r.id)
    ensures M.Alive(o, Uncached(Compact0(s, Back)), r.id) <==>
            FirstHit(s.l1, r.id).Some? && o.decode(FirstHit(s.l1, r.id).value).Ok? &&
            M.IsAlive(o.decode(FirstHit(s.l1, r.id).value).value)
  {
    hide Compact0, Sorted, NoEmptyValues, Answers;
    var dead := M.MarkTombstone(r);
    OutputBehind(s, r.id);
    assert M.SameHeader(o.decode(o.encode(dead)).value, dead);
    AnswersAt(s, r.id);
    AnswersAt(Compact0(s, Back), r.id);
    PeekUncached(o, s, r.id);
    PeekUncached(o, Compact0(s, Back), r.id);
  }

  lemma PeekUncached(o: M.Outside, s: State, id: Key)
    ensures M.Fetched(o, Uncached(s), id) ==
            match At(Answers(s), id) { case Some(b) => o.decode(b) case None => Err(M.NotFound) }
  {
  }

  /** L0 is compacted behind L1: an older version there now comes first. */
  lemma OutputBehind(s: State, k: Key)
    requires Sorted(s) && NoEmptyValues(s) && |s.l0| >= 2 && MemGet(s.mem, k) == None && FirstHit(s.l0, k).Some?
    ensures Get(s, k) == FirstHit(s.l0, k)
    ensures Get(Compact0(s, Back), k) == if FirstHit(s.l1, k).Some? then FirstHit(s.l1, k) else FirstHit(s.l0, k)
  {
    var out := Compacted(s.l0);
    CompactedLookup(s.l0, k);
    assert SearchedTables(Compact0(s, Back)) == s.l1 + [out] + s.l2;
    FirstHitConcat(s.l0 + s.l1, s.l2, k);
    FirstHitConcat(s.l0, s.l1, k);
    FirstHitConcat(s.l1 + [out], s.l2, k);
    FirstHitConcat(s.l1, [out], k);
    assert FirstHit([out], k) == Lookup(out, k);
    NoEmptyHitsFirst(s.l0, k);
    NoEmptyHitsFirst(s.l1, k);
  }

  // ---- A removed record that returns ----

  /** A record is stored and compacted into L1, removed, and L0 is compacted once more. */
  function Stored(o: M.Outside, r: M.Record, x: M.Record): seq<Event> {
    [Event.Put(r.id, o.encode(r)), Event.Flush] + [Event.Put(x.id, o.encode(x)), Event.Flush] + [Event.CompactL0]
  }

  function Removed(o: M.Outside, r: M.Record, x: M.Record): seq<Event> {
    Stored(o, r, x) + [Event.Put(r.id, o.encode(M.MarkTombstone(r))), Event.Flush] +
    [Event.Put(x.id, o.encode(x)), Event.Flush]
  }

  lemma OneSlot(x: Slot)
    requires !x.isTombstone
    ensures FlushEntries([x]) == [Entry(x.key, x.value)]
  {
    assert [x][1..] == [];
  }

  lemma PutAndFlush(events: seq<Event>, k: Key, v: Bytes)
    requires Live(events, Back).run.mem == []
    ensures var s := Live(events, Back).run;
            Live(events + [Event.Put(k, v), Event.Flush], Back).run == s.(l0 := [[Entry(k, v)]] + s.l0)
  {
    var q, more := Live(events, Back), [Event.Put(k, v), Event.Flush];
    LivePlayed(events, more, Back);
    var q' := After(q, more[0], Back);
    assert more[1..] == [Event.Flush];
    assert Played(q', more[1..], Back) == After(q', Event.Flush, Back);
    OneSlot(Slot(k, v, false));
    assert q'.run == q.run.(mem := [Slot(k, v, false)]);
  }

  lemma Compacts(events: seq<Event>)
    ensures Live(events + [Event.CompactL0], Back).run == Compact0(Live(events, Back).run, Back)
  {
    assert (events + [Event.CompactL0])[..|events|] == events;
  }

  lemma StoredState(o: M.Outside, r: M.Record, x: M.Record)
    ensures Live(Stored(o, r, x), Back).run ==
            State([], [], [Compacted([[Entry(x.id, o.encode(x))], [Entry(r.id, o.encode(r))]])], [])
  {
    hide Compacted;
    var first, second := [Event.Put(r.id, o.encode(r)), Event.Flush], [Event.Put(x.id, o.encode(x)), Event.Flush];
    var ts := [[Entry(x.id, o.encode(x))], [Entry(r.id, o.encode(r))]];
    assert Live([], Back).run == State([], [], [], []);
    PutAndFlush([], r.id, o.encode(r));
    assert [] + first == first && [[Entry(r.id, o.encode(r))]] + [] == [[Entry(r.id, o.encode(r))]];
    PutAndFlush(first, x.id, o.encode(x));
    assert [[Entry(x.id, o.encode(x))]] + [[Entry(r.id, o.encode(r))]] == ts;
    assert Live(first + second, Back).run == State([], ts, [], []);
    Compacts(first + second);
    assert Place([], Compacted(ts), Back) == [Compacted(ts)];
  }

  lemma RemovedState(o: M.Outside, r: M.Record, x: M.Record)
    ensures Live(Removed(o, r, x), Back).run ==
            State([], [[Entry(x.id, o.encode(x))], [Entry(r.id, o.encode(M.MarkTombstone(r)))]],
                  [Compacted([[Entry(x.id, o.encode(x))], [Entry(r.id, o.encode(r))]])], [])
  {
    hide Compacted, Stored;
    StoredState(o, r, x);
    var tomb := [Event.Put(r.id, o.encode(M.MarkTombstone(r))), Event.Flush];
    PutAndFlush(Stored(o, r, x), r.id, o.encode(M.MarkTombstone(r)));
    PutAndFlush(Stored(o, r, x) + tomb, x.id, o.encode(x));
  }

  lemma OneEntry(j: Key, w: Bytes, k: Key)
    ensures Lookup([Entry(j, w)], k) == if j == k then Some(w) else None
  {
  }

  lemma TwoEntries(k: Key, v: Bytes, j: Key, w: Bytes)
    requires k != j && v != []
    ensures FirstHit([[Entry(j, w)], [Entry(k, v)]], k) == Some(v)
    ensures FirstHit([Compacted([[Entry(j, w)], [Entry(k, v)]])], k) == Some(v)
  {
    var ts := [[Entry(j, w)], [Entry(k, v)]];
    assert ts[0] == [Entry(j, w)] && ts[1..] == [[Entry(k, v)]];
    CompactedLookup(ts, k);
    hide Compacted;
    OneEntry(j, w, k);
    OneEntry(k, v, k);
    assert FirstHit(ts[1..], k) == Lookup([Entry(k, v)], k);
    assert FirstHit([Compacted(ts)], k) == Lookup(Compacted(ts), k);
  }

  /** The last thing logged for the id is its removal, and yet it is alive. */
  lemma RemovedReturns(o: M.Outside, r: M.Record, x: M.Record)
    requires M.Lawful(o) && M.IsAlive(r) && x.id != r.id
    ensures var events := Removed(o, r, x) + [Event.CompactL0];
            LastLogged(events, r.id) == Some(o.encode(M.MarkTombstone(r))) &&
            !M.Alive(o, Uncached(Live(Removed(o, r, x), Back).run), r.id) &&
            M.Alive(o, Uncached(Live(events, Back).run), r.id)
  {
    var tomb := [Event.Put(r.id, o.encode(M.MarkTombstone(r))), Event.Flush];
    var rest := [Event.Put(x.id, o.encode(x)), Event.Flush] + [Event.CompactL0];
    RemovedState(o, r, x);
    Compacts(Removed(o, r, x));
    assert Removed(o, r, x) + [Event.CompactL0] == Stored(o, r, x) + tomb + rest;
    RemovalLogged(Stored(o, r, x), o, r, x);
    LiveShape(Removed(o, r, x), Back);
    TwoEntries(r.id, o.encode(r), x.id, o.encode(x));
    TwoEntries(r.id, o.encode(M.MarkTombstone(r)), x.id, o.encode(x));
    assert M.SameHeader(o.decode(o.encode(r)).value, r);
    hide M.Lawful, Live, Compacted, Removed, Stored, M.Alive;
    RemovedReturnsExactly(o, Live(Removed(o, r, x), Back).run, r);
  }

  lemma RemovalLogged(events: seq<Event>, o: M.Outside, r: M.Record, x: M.Record)
    requires x.id != r.id
    ensures LastLogged(events + [Event.Put(r.id, o.encode(M.MarkTombstone(r))), Event.Flush] +
                       ([Event.Put(x.id, o.encode(x)), Event.Flush] + [Event.CompactL0]), r.id) ==
            Some(o.encode(M.MarkTombstone(r)))
  {
    var tomb := [Event.Put(r.id, o.encode(M.MarkTombstone(r)))];
    var rest := [Event.Flush] + ([Event.Put(x.id, o.encode(x)), Event.Flush] + [Event.CompactL0]);
    NeverLogged(rest, r.id);
    LastLoggedConcat(events + tomb, rest, r.id);
    LastLoggedConcat(events, tomb, r.id);
    assert tomb[..0] == [] && events + tomb + rest ==
      events + [Event.Put(r.id, o.encode(M.MarkTombstone(r))), Event.Flush] +
      ([Event.Put(x.id, o.encode(x)), Event.Flush] + [Event.CompactL0]);
  }
}
