/** The write-back cache of memory records above the storage engine. */
module MemoryStores {
  import opened Common

  type Id = Key

  datatype Error = NotFound | Corrupted

  datatype Phase = Active | Versioned | Archived | Tombstone | Invalidated

  datatype Flag = AliveFlag | TombstoneFlag | VersionedFlag | ArchivedFlag | EmbeddingFlag | OrphanFlag

  /** Importance, tier and confidence: moved by heuristics that are parameters here. */
  datatype Scores = Scores(importance: int, tier: nat, confidence: nat)

  datatype Record = Record(
    id: Id, parent: Id, version: nat, phase: Phase, flags: set<Flag>, scores: Scores,
    accessCount: nat, createdAt: nat, lastAccessed: nat, embedding: Bytes, content: Bytes)

  // ---- Phase transitions ----

  predicate IsAlive(r: Record) {
    TombstoneFlag !in r.flags && r.phase != Tombstone && r.phase != Invalidated
  }

  predicate IsActive(r: Record) {
    r.phase == Active && AliveFlag in r.flags
  }

  function MarkVersioned(r: Record): Record {
    r.(phase := Versioned, flags := r.flags - {AliveFlag} + {VersionedFlag})
  }

  function MarkTombstone(r: Record): Record {
    r.(phase := Tombstone, flags := r.flags - {AliveFlag} + {TombstoneFlag})
  }

  function CreateNewVersion(r: Record, newId: Id, now: nat): Record {
    r.(id := newId, parent := r.id, version := (r.version + 1) % 0x1_0000_0000, phase := Active, flags := {AliveFlag},
       createdAt := now, lastAccessed := now, accessCount := 0)
  }

  function Touch(r: Record, now: nat): Record {
    r.(accessCount := (r.accessCount + 1) % 0x1_0000_0000, lastAccessed := now)
  }

  function WithEmbedding(r: Record, embedding: Bytes): Record {
    r.(embedding := embedding, flags := r.flags + {EmbeddingFlag})
  }

  // ---- The codec and the heuristics ----

  /** Everything the store takes from code that is not part of this model. */
  datatype Outside = Outside(
    encode: Record -> Bytes,
    decode: Bytes -> Result<Record, Error>,
    promote: Record -> Scores,
    decay: (Record, nat) -> Scores)

  /** The fixed-size fields of the record header. */
  predicate SameHeader(a: Record, b: Record) {
    && a.id == b.id && a.parent == b.parent && a.version == b.version && a.phase == b.phase && a.flags == b.flags
    && a.scores == b.scores && a.accessCount == b.accessCount
    && a.createdAt == b.createdAt && a.lastAccessed == b.lastAccessed
  }

  /** A stored record is never empty and reads back with its header; long content and
      long embeddings are cut, so the rest may differ. */
  ghost predicate Lawful(o: Outside) {
    forall r :: o.encode(r) != [] && o.decode(o.encode(r)).Ok? && SameHeader(o.decode(o.encode(r)).value, r)
  }

  // ---- The store as a value ----

  datatype Store = Store(cache: map<Id, Record>, dirty: set<Id>, lsm: map<Id, Bytes>)

  /** What peek answers. */
  function Fetched(o: Outside, s: Store, id: Id): Result<Record, Error> {
    if id in s.cache then Ok(s.cache[id]) else Below(o, s, id)
  }

  function Below(o: Outside, s: Store, id: Id): Result<Record, Error> {
    if id in s.lsm then o.decode(s.lsm[id]) else Err(NotFound)
  }

  predicate Alive(o: Outside, s: Store, id: Id) {
    Fetched(o, s, id).Ok? && IsAlive(Fetched(o, s, id).value)
  }

  /** The stored copy is the cached record, or what became of it when it was stored. */
  predicate Persisted(o: Outside, s: Store, id: Id)
    requires id in s.cache
  {
    id in s.lsm && (s.lsm[id] == o.encode(s.cache[id]) || o.decode(s.lsm[id]) == Ok(s.cache[id]))
  }

  /** The id is not cached, or dirty, or its cached record agrees with the engine. */
  predicate CoherentAt(o: Outside, s: Store, id: Id) {
    id in s.cache ==> id in s.dirty || Persisted(o, s, id)
  }

  function WriteThrough(o: Outside, s: Store, id: Id, r: Record): Store {
    s.(cache := s.cache[id := r], lsm := s.lsm[id := o.encode(r)])
  }

  function WriteDown(o: Outside, s: Store, id: Id, r: Record): Store {
    s.(lsm := s.lsm[id := o.encode(r)])
  }

  function WriteBack(s: Store, id: Id, r: Record): Store {
    s.(cache := s.cache[id := r], dirty := s.dirty + {id})
  }

  function FlushedIds(o: Outside, s: Store, ids: set<Id>): map<Id, Bytes> {
    map id | id in s.lsm.Keys + ids * s.cache.Keys ::
      if id in ids && id in s.cache then o.encode(s.cache[id]) else s.lsm[id]
  }

  function Flushed(o: Outside, s: Store): Store {
    Store(s.cache, {}, FlushedIds(o, s, s.dirty))
  }

  lemma NoneFlushed(o: Outside, s: Store)
    ensures FlushedIds(o, s, {}) == s.lsm
  {
  }

  lemma FlushOne(o: Outside, s: Store, ids: set<Id>, x: Id)
    ensures FlushedIds(o, s, ids + {x}) ==
            if x in s.cache then FlushedIds(o, s, ids)[x := o.encode(s.cache[x])] else FlushedIds(o, s, ids)
  {
  }

  /** Order of eviction: tombstones first, then the least used, then the smaller id. */
  function Uses(r: Record): nat {
    if r.phase == Tombstone then 0 else r.accessCount
  }

  predicate Before(cache: map<Id, Record>, a: Id, b: Id)
    requires a in cache && b in cache
  {
    Uses(cache[a]) < Uses(cache[b]) || (Uses(cache[a]) == Uses(cache[b]) && a < b)
  }

  ghost predicate Lowest(cache: map<Id, Record>, out: set<Id>, n: nat) {
    && out <= cache.Keys && |out| == n
    && (forall a, b :: a in out && b in cache.Keys - out ==> Before(cache, a, b))
  }

  ghost predicate Evicted(o: Outside, s: Store, s': Store, maxCache: nat) {
    if |s.cache| <= maxCache then s' == s
    else exists out :: Lowest(s.cache, out, |s.cache| / 5) && s' == Flushed(o, s).(cache := s.cache - out)
  }

  function Warmed(o: Outside, lsm: map<Id, Bytes>): Store {
    Store(map id | id in lsm && o.decode(lsm[id]).Ok? && IsAlive(o.decode(lsm[id]).value) :: o.decode(lsm[id]).value,
          {}, lsm)
  }

  // ---- The calls ----

  datatype Op =
    | FastStore(record: Record, freshId: Id, now: nat)
    | Get(id: Id, now: nat)
    | Update(id: Id, content: Bytes, embedding: Bytes, freshId: Id, now: nat)
    | Remove(id: Id)
    | Archive(id: Id)
    | SetEmbedding(id: Id, embedding: Bytes)
    | Boost(id: Id, scores: Scores)
    | UpdateInPlace(id: Id, content: Bytes)
    | ApplyDecay(now: nat)
    | Flush
    | Reopen

  function Stamped(r: Record, freshId: Id, now: nat): Record {
    var r1 := if r.id == 0 then r.(id := freshId) else r;
    var r2 := if r1.createdAt == 0 then r1.(createdAt := now, lastAccessed := now) else r1;
    if r2.embedding != [] then r2.(flags := r2.flags + {EmbeddingFlag}) else r2
  }

  function Accessed(o: Outside, r: Record, now: nat): Record {
    var t := Touch(r, now);
    t.(scores := o.promote(t))
  }

  function NewVersion(r: Record, content: Bytes, embedding: Bytes, freshId: Id, now: nat): Record {
    var v := CreateNewVersion(r, freshId, now).(content := content);
    if embedding != [] then v.(embedding := embedding) else v
  }

  /** The cache when all but the pending records have been decayed. */
  function DecayedBut(o: Outside, cache: map<Id, Record>, now: nat, pending: set<Id>): map<Id, Record> {
    map id | id in cache ::
      if id !in pending && IsActive(cache[id]) then cache[id].(scores := o.decay(cache[id], now)) else cache[id]
  }

  function ActiveBut(cache: map<Id, Record>, pending: set<Id>): set<Id> {
    set id | id in cache && id !in pending && IsActive(cache[id])
  }

  function Decayed(o: Outside, s: Store, now: nat): Store {
    Store(DecayedBut(o, s.cache, now, {}), s.dirty + ActiveBut(s.cache, {}), s.lsm)
  }

  lemma UnionAssociates(a: set<Id>, b: set<Id>, c: set<Id>)
    ensures a + b + c == a + (b + c)
  {
  }

  lemma NoneDecayed(o: Outside, cache: map<Id, Record>, now: nat)
    ensures DecayedBut(o, cache, now, cache.Keys) == cache && ActiveBut(cache, cache.Keys) == {}
  {
  }

  lemma DecayOne(o: Outside, cache: map<Id, Record>, now: nat, pending: set<Id>, x: Id)
    requires x in cache && x in pending
    ensures x in DecayedBut(o, cache, now, pending) && DecayedBut(o, cache, now, pending)[x] == cache[x]
    ensures DecayedBut(o, cache, now, pending - {x})
         == var was := DecayedBut(o, cache, now, pending);
            if IsActive(cache[x]) then was[x := cache[x].(scores := o.decay(cache[x], now))] else was
    ensures ActiveBut(cache, pending - {x}) == ActiveBut(cache, pending) + if IsActive(cache[x]) then {x} else {}
  {
  }

  ghost predicate Next(o: Outside, maxCache: nat, s: Store, op: Op, s': Store) {
    match op
    case FastStore(r, freshId, now) =>
      var r' := Stamped(r, freshId, now);
      Evicted(o, WriteThrough(o, s, r'.id, r'), s', maxCache)
    case Get(id, now) =>
      s' == if Fetched(o, s, id).Ok? then WriteBack(s, id, Accessed(o, Fetched(o, s, id).value, now)) else s
    case Update(id, content, embedding, freshId, now) =>
      s' == if Fetched(o, s, id).Ok? then
        var r := Fetched(o, s, id).value;
        WriteThrough(o, WriteThrough(o, s, id, MarkVersioned(r)), freshId,
                     NewVersion(r, content, embedding, freshId, now))
      else s
    case Remove(id) =>
      s' == if Fetched(o, s, id).Ok? then
        var s1 := WriteDown(o, s, id, MarkTombstone(Fetched(o, s, id).value));
        s1.(cache := s1.cache - {id})
      else s
    case Archive(id) =>
      s' == if Fetched(o, s, id).Ok? then
        var r := Fetched(o, s, id).value.(phase := Archived);
        if id in s.cache then WriteThrough(o, s, id, r) else WriteDown(o, s, id, r)
      else s
    case SetEmbedding(id, embedding) =>
      s' == if Fetched(o, s, id).Ok? then WriteThrough(o, s, id, WithEmbedding(Fetched(o, s, id).value, embedding))
      else s
    case Boost(id, scores) =>
      s' == if Alive(o, s, id) then WriteThrough(o, s, id, Fetched(o, s, id).value.(scores := scores)) else s
    case UpdateInPlace(id, content) =>
      s' == if id in s.cache then WriteThrough(o, s, id, s.cache[id].(content := content)) else s
    case ApplyDecay(now) => s' == Decayed(o, s, now)
    case Flush => s' == Flushed(o, s)
    case Reopen => s' == Warmed(o, s.lsm)
  }

  // ---- The store in memory ----

  class MemoryStore {
    const outside: Outside
    const maxCache: nat
    var cache: map<Id, Record>
    var dirty: set<Id>
    var lsm: map<Id, Bytes>

    function View(): Store
      reads this
    {
      Store(cache, dirty, lsm)
    }

    /** init: warm the cache with every live record. */
    constructor (outside: Outside, maxCache: nat, lsm: map<Id, Bytes>)
      ensures this.outside == outside && this.maxCache == maxCache && View() == Warmed(outside, lsm)
    {
      this.outside, this.maxCache, this.lsm, dirty := outside, maxCache, lsm, {};
      var warm: map<Id, Record>, pending := map[], lsm.Keys;
      while pending != {}
        invariant pending <= lsm.Keys
        invariant warm ==
                  map id | id in lsm && id !in pending && id in Warmed(outside, lsm).cache ::
                    outside.decode(lsm[id]).value
        decreases |pending|
      {
        var id :| id in pending;
        pending := pending - {id};
        var r := outside.decode(lsm[id]);
        if r.Ok? && IsAlive(r.value) { warm := warm[id := r.value]; }
      }
      cache := warm;
    }

    /** peek, and the read-under-lock of the other calls. */
    method Peek(id: Id) returns (r: Result<Record, Error>)
      ensures r == Fetched(outside, View(), id)
    {
      if id in cache { return Ok(cache[id]); }
      if id !in lsm { return Err(NotFound); }
      r := outside.decode(lsm[id]);
    }

    method FastStore(record: Record, freshId: Id, now: nat) returns (id: Id)
      modifies this
      ensures id == if record.id == 0 then freshId else record.id
      ensures Next(outside, maxCache, old(View()), Op.FastStore(record, freshId, now), View())
    {
      var r := record;
      if r.id == 0 { r := r.(id := freshId); }
      if r.createdAt == 0 { r := r.(createdAt := now, lastAccessed := now); }
      id := r.id;
      if r.embedding != [] { r := r.(flags := r.flags + {EmbeddingFlag}); }
      lsm := lsm[id := outside.encode(r)];
      cache := cache[id := r];
      EvictIfNeeded();
    }

    method Get(id: Id, now: nat) returns (r: Result<Record, Error>)
      modifies this
      ensures Next(outside, maxCache, old(View()), Op.Get(id, now), View())
      ensures r.Ok? <==> old(Fetched(outside, View(), id)).Ok?
      ensures r.Ok? ==> r == Fetched(outside, View(), id)
    {
      r := Peek(id);
      if r.Ok? {
        var t := Touch(r.value, now);
        t := t.(scores := outside.promote(t));
        cache, dirty := cache[id := t], dirty + {id};
        r := Ok(t);
      }
    }

    method Update(id: Id, content: Bytes, embedding: Bytes, freshId: Id, now: nat) returns (r: Result<Id, Error>)
      modifies this
      ensures Next(outside, maxCache, old(View()), Op.Update(id, content, embedding, freshId, now), View())
      ensures r == match old(Fetched(outside, View(), id)) { case Ok(_) => Ok(freshId) case Err(e) => Err(e) }
    {
      var found := Peek(id);
      if found.Err? { return Err(found.error); }
      var version := CreateNewVersion(found.value, freshId, now).(content := content);
      if embedding != [] { version := version.(embedding := embedding); }
      var stale := MarkVersioned(found.value);
      lsm, cache := lsm[id := outside.encode(stale)], cache[id := stale];
      lsm, cache := lsm[freshId := outside.encode(version)], cache[freshId := version];
      r := Ok(freshId);
    }

    method Remove(id: Id) returns (r: Result<(), Error>)
      modifies this
      ensures Next(outside, maxCache, old(View()), Op.Remove(id), View())
      ensures r.Ok? <==> old(Fetched(outside, View(), id)).Ok?
    {
      if id in cache {
        lsm := lsm[id := outside.encode(MarkTombstone(cache[id]))];
        cache := cache - {id};
        return Ok(());
      }
      var found := Peek(id);
      if found.Err? { return Err(found.error); }
      lsm := lsm[id := outside.encode(MarkTombstone(found.value))];
      assert cache - {id} == cache;
      r := Ok(());
    }

    method Archive(id: Id) returns (r: Result<(), Error>)
      modifies this
      ensures Next(outside, maxCache, old(View()), Op.Archive(id), View())
      ensures r.Ok? <==> old(Fetched(outside, View(), id)).Ok?
    {
      if id in cache {
        cache := cache[id := cache[id].(phase := Archived)];
        lsm := lsm[id := outside.encode(cache[id])];
        return Ok(());
      }
      var found := Peek(id);
      if found.Err? { return Err(found.error); }
      lsm := lsm[id := outside.encode(found.value.(phase := Archived))];
      r := Ok(());
    }

    method SetEmbedding(id: Id, embedding: Bytes)
      modifies this
      ensures Next(outside, maxCache, old(View()), Op.SetEmbedding(id, embedding), View())
    {
      var found := Peek(id);
      if found.Ok? {
        var r := found.value.(embedding := embedding, flags := found.value.flags + {EmbeddingFlag});
        lsm, cache := lsm[id := outside.encode(r)], cache[id := r];
      }
    }

    method BoostImportance(id: Id, scores: Scores)
      modifies this
      ensures Next(outside, maxCache, old(View()), Boost(id, scores), View())
    {
      var found := Peek(id);
      if found.Ok? && IsAlive(found.value) {
        var r := found.value.(scores := scores);
        lsm, cache := lsm[id := outside.encode(r)], cache[id := r];
      }
    }

    /** Nothing happens to a record that is not cached. */
    method UpdateInPlace(id: Id, content: Bytes)
      modifies this
      ensures Next(outside, maxCache, old(View()), Op.UpdateInPlace(id, content), View())
    {
      if id in cache {
        cache := cache[id := cache[id].(content := content)];
        lsm := lsm[id := outside.encode(cache[id])];
      }
    }

    method ApplyDecay(now: nat)
      modifies `cache, `dirty
      ensures View() == Decayed(outside, old(View()), now)
    {
      hide DecayedBut, ActiveBut, IsActive, FlushedIds, Lowest, Before;
      ghost var was, marked := cache, dirty;
      var pending := cache.Keys;
      NoneDecayed(outside, was, now);
      while pending != {}
        invariant pending <= was.Keys
        invariant cache == DecayedBut(outside, was, now, pending)
        invariant dirty == marked + ActiveBut(was, pending)
        decreases |pending|
      {
        var id :| id in pending;
        DecayOne(outside, was, now, pending, id);
        DecayRecord(id, now);
        UnionAssociates(marked, ActiveBut(was, pending), if IsActive(was[id]) then {id} else {});
        pending := pending - {id};
      }
    }

    method DecayRecord(id: Id, now: nat)
      requires id in cache
      modifies `cache, `dirty
      ensures var was, r := old(cache), old(cache[id]);
              cache == if IsActive(r) then was[id := r.(scores := outside.decay(r, now))] else was
      ensures dirty == old(dirty) + if IsActive(old(cache[id])) then {id} else {}
    {
      var r := cache[id];
      if IsActive(r) {
        cache := cache[id := r.(scores := outside.decay(r, now))];
        dirty := dirty + {id};
      }
    }

    method FlushDirtyRecords()
      modifies `dirty, `lsm
      ensures View() == Flushed(outside, old(View()))
    {
      hide FlushedIds;
      ghost var s, done := View(), {};
      NoneFlushed(outside, s);
      while dirty != {}
        invariant dirty + done == s.dirty
        invariant lsm == FlushedIds(outside, s, done)
        decreases |dirty|
      {
        var id :| id in dirty;
        FlushOne(outside, s, done, id);
        if id in cache { lsm := lsm[id := outside.encode(cache[id])]; }
        dirty := dirty - {id};
        done := done + {id};
      }
      assert done == s.dirty;
    }

    method EvictIfNeeded()
      modifies this
      ensures Evicted(outside, old(View()), View(), maxCache)
    {
      if |cache| <= maxCache { return; }
      ghost var s := View();
      FlushDirtyRecords();
      ghost var full := cache;
      var count: nat := |cache| / 5;
      ghost var out := {};
      while count > 0
        invariant out <= full.Keys && |out| + count == |full| / 5 && cache == full - out
        invariant Lowest(full, out, |out|)
        invariant dirty == {} && lsm == Flushed(outside, old(View())).lsm
        decreases count
      {
        assert |cache.Keys| == |full.Keys| - |out|;
        var least := Least(cache);
        cache := cache - {least};
        out := out + {least};
        count := count - 1;
      }
      assert Lowest(s.cache, out, |s.cache| / 5) && View() == Flushed(outside, s).(cache := s.cache - out);
    }

    /** The next candidate of the partial sort. */
    method Least(from: map<Id, Record>) returns (least: Id)
      requires from != map[]
      ensures least in from && forall b :: b in from.Keys - {least} ==> Before(from, least, b)
    {
      least :| least in from;
      var pending := from.Keys - {least};
      while pending != {}
        invariant pending <= from.Keys && least in from && least !in pending
        invariant forall b :: b in from.Keys - pending - {least} ==> Before(from, least, b)
        decreases |pending|
      {
        var b :| b in pending;
        pending := pending - {b};
        if Before(from, b, least) {
          assert forall c :: c in from && Before(from, least, c) ==> Before(from, b, c);
          least := b;
        }
      }
    }
  }

  // ---- The cache agrees with the engine ----

  /** Every call keeps the cache coherent at every id, and so does reopening after a crash. */
  lemma StepKeepsCoherent(o: Outside, maxCache: nat, s: Store, op: Op, s': Store, id: Id)
    requires CoherentAt(o, s, id) && Next(o, maxCache, s, op, s')
    ensures CoherentAt(o, s', id)
  {
  }

  /** A flush changes the answer for no id. */
  lemma FlushIsInvisible(o: Outside, s: Store, id: Id)
    ensures Fetched(o, Flushed(o, s), id) == Fetched(o, s, id)
  {
  }

  /** The answer of b is that of a, or that of a once stored and read back. */
  predicate SameAnswer(o: Outside, a: Result<Record, Error>, b: Result<Record, Error>) {
    b == a || (a.Ok? && b == o.decode(o.encode(a.value)))
  }

  lemma SameAnswerSameHeader(o: Outside, a: Result<Record, Error>, b: Result<Record, Error>)
    requires Lawful(o) && SameAnswer(o, a, b)
    ensures a.Ok? <==> b.Ok?
    ensures a.Ok? ==> SameHeader(b.value, a.value) && (IsAlive(a.value) <==> IsAlive(b.value))
  {
    if a.Ok? { assert SameHeader(o.decode(o.encode(a.value)).value, a.value); }
  }

  /** Eviction changes no answer beyond what storing a record does to it. */
  lemma EvictionIsInvisible(o: Outside, s: Store, s': Store, maxCache: nat, id: Id)
    requires CoherentAt(o, s, id) && Evicted(o, s, s', maxCache)
    ensures SameAnswer(o, Fetched(o, s, id), Fetched(o, s', id))
  {
  }

  /** A crash loses nothing of an id that is not dirty. */
  lemma CrashLosesOnlyDirty(o: Outside, s: Store, id: Id)
    requires CoherentAt(o, s, id) && id !in s.dirty
    ensures SameAnswer(o, Fetched(o, s, id), Fetched(o, Warmed(o, s.lsm), id))
  {
  }

  // ---- What each call leaves under its id ----

  /** What fastStore was given, with an id and times if it had none, and the embedding flag if it has
      an embedding, is what the id answers, even if it is evicted at once. */
  lemma StoredIsFetched(o: Outside, maxCache: nat, s: Store, r: Record, freshId: Id, now: nat, s': Store)
    requires Next(o, maxCache, s, FastStore(r, freshId, now), s')
    ensures var r' := Record(if r.id == 0 then freshId else r.id, r.parent, r.version, r.phase,
                            r.flags + (if r.embedding != [] then {EmbeddingFlag} else {}), r.scores, r.accessCount,
                            if r.createdAt == 0 then now else r.createdAt,
                            if r.createdAt == 0 then now else r.lastAccessed, r.embedding, r.content);
            SameAnswer(o, Ok(r'), Fetched(o, s', r'.id))
  {
    hide Next, Stamped, Fetched, SameAnswer;
    StampedIs(r, freshId, now);
    StoredAsStamped(o, maxCache, s, r, freshId, now, s');
  }

  lemma StoredAsStamped(o: Outside, maxCache: nat, s: Store, r: Record, freshId: Id, now: nat, s': Store)
    requires Next(o, maxCache, s, FastStore(r, freshId, now), s')
    ensures SameAnswer(o, Ok(Stamped(r, freshId, now)), Fetched(o, s', Stamped(r, freshId, now).id))
  {
    hide Stamped;
  }

  lemma StampedIs(r: Record, freshId: Id, now: nat)
    ensures Stamped(r, freshId, now) ==
            Record(if r.id == 0 then freshId else r.id, r.parent, r.version, r.phase,
                   r.flags + (if r.embedding != [] then {EmbeddingFlag} else {}), r.scores, r.accessCount,
                   if r.createdAt == 0 then now else r.createdAt,
                   if r.createdAt == 0 then now else r.lastAccessed, r.embedding, r.content)
  {
  }

  /** A read counts itself, notes its time, and lets the promotion rule set the scores. */
  lemma GetAnswers(o: Outside, maxCache: nat, s: Store, id: Id, now: nat, s': Store)
    requires Next(o, maxCache, s, Op.Get(id, now), s') && Fetched(o, s, id).Ok?
    ensures var r := Fetched(o, s, id).value;
            var t := Record(r.id, r.parent, r.version, r.phase, r.flags, r.scores, (r.accessCount + 1) % 0x1_0000_0000,
                            r.createdAt, now, r.embedding, r.content);
            Fetched(o, s', id) == Ok(t.(scores := o.promote(t))) && id in s'.dirty
  {
  }

  /** An update leaves the new content under the fresh id, as an active version of its own
      that names the old one as its parent, and the old record versioned. */
  lemma UpdateAnswers(o: Outside, maxCache: nat, s: Store, id: Id, content: Bytes, embedding: Bytes, freshId: Id,
                      now: nat, s': Store)
    requires Next(o, maxCache, s, Update(id, content, embedding, freshId, now), s')
    requires Fetched(o, s, id).Ok? && freshId != id
    ensures var r := Fetched(o, s, id).value;
            && Fetched(o, s', freshId) ==
               Ok(Record(freshId, r.id, (r.version + 1) % 0x1_0000_0000, Active, {AliveFlag}, r.scores, 0, now, now,
                         if embedding != [] then embedding else r.embedding, content))
            && Fetched(o, s', id) ==
               Ok(Record(r.id, r.parent, r.version, Versioned, r.flags - {AliveFlag} + {VersionedFlag}, r.scores,
                         r.accessCount, r.createdAt, r.lastAccessed, r.embedding, r.content))
  {
  }

  /** A removal leaves the record in the engine, flagged and not alive, and nothing in the cache. */
  lemma RemoveAnswers(o: Outside, maxCache: nat, s: Store, id: Id, s': Store)
    requires Next(o, maxCache, s, Remove(id), s') && Fetched(o, s, id).Ok?
    ensures var r := Fetched(o, s, id).value;
            id !in s'.cache && id in s'.lsm &&
            s'.lsm[id] == o.encode(Record(r.id, r.parent, r.version, Tombstone, r.flags - {AliveFlag} + {TombstoneFlag},
                                          r.scores, r.accessCount, r.createdAt, r.lastAccessed, r.embedding, r.content))
  {
  }

  lemma ArchiveAnswers(o: Outside, maxCache: nat, s: Store, id: Id, s': Store)
    requires Next(o, maxCache, s, Archive(id), s') && Fetched(o, s, id).Ok?
    ensures var r := Fetched(o, s, id).value;
            SameAnswer(o, Ok(Record(r.id, r.parent, r.version, Archived, r.flags, r.scores, r.accessCount, r.createdAt,
                                    r.lastAccessed, r.embedding, r.content)), Fetched(o, s', id))
  {
  }

  lemma SetEmbeddingAnswers(o: Outside, maxCache: nat, s: Store, id: Id, embedding: Bytes, s': Store)
    requires Next(o, maxCache, s, SetEmbedding(id, embedding), s') && Fetched(o, s, id).Ok?
    ensures var r := Fetched(o, s, id).value;
            Fetched(o, s', id) ==
            Ok(Record(r.id, r.parent, r.version, r.phase, r.flags + {EmbeddingFlag}, r.scores, r.accessCount,
                      r.createdAt, r.lastAccessed, embedding, r.content))
  {
  }

  /** Only a record that is alive is boosted, and only a cached one changes its content in place. */
  lemma ChangeAnswers(o: Outside, maxCache: nat, s: Store, id: Id, scores: Scores, content: Bytes, boosted: Store,
                      changed: Store)
    requires Next(o, maxCache, s, Boost(id, scores), boosted) && Fetched(o, s, id).Ok?
    requires Next(o, maxCache, s, UpdateInPlace(id, content), changed)
    ensures var r := Fetched(o, s, id).value;
            && Fetched(o, boosted, id) ==
               Ok(if TombstoneFlag !in r.flags && r.phase != Tombstone && r.phase != Invalidated
                  then Record(r.id, r.parent, r.version, r.phase, r.flags, scores, r.accessCount, r.createdAt,
                              r.lastAccessed, r.embedding, r.content)
                  else r)
            && Fetched(o, changed, id) ==
               Ok(if id in s.cache
                  then Record(r.id, r.parent, r.version, r.phase, r.flags, r.scores, r.accessCount, r.createdAt,
                              r.lastAccessed, r.embedding, content)
                  else r)
  {
  }

  /** Decay sets the scores of the active cached records, and marks exactly those dirty. */
  lemma DecayAnswers(o: Outside, maxCache: nat, s: Store, now: nat, s': Store, id: Id)
    requires Next(o, maxCache, s, ApplyDecay(now), s')
    ensures var active := id in s.cache && s.cache[id].phase == Active && AliveFlag in s.cache[id].flags;
            && (active ==> Fetched(o, s', id) == Ok(s.cache[id].(scores := o.decay(s.cache[id], now))))
            && (!active ==> Fetched(o, s', id) == Fetched(o, s, id))
            && (id in s'.dirty <==> id in s.dirty || active)
  {
  }

  /** Opening caches exactly the records that are alive. */
  lemma WarmsExactly(o: Outside, lsm: map<Id, Bytes>, id: Id)
    ensures var r := if id in lsm then o.decode(lsm[id]) else Err(NotFound);
            && (id in Warmed(o, lsm).cache <==>
                  r.Ok? && TombstoneFlag !in r.value.flags && r.value.phase != Tombstone &&
                  r.value.phase != Invalidated)
            && Fetched(o, Warmed(o, lsm), id) == r && Warmed(o, lsm).dirty == {} && Warmed(o, lsm).lsm == lsm
  {
  }

  /** A cache within its size is left alone. */
  lemma EvictsOnlyIfOver(o: Outside, maxCache: nat, s: Store, r: Record, freshId: Id, now: nat, s': Store)
    requires Next(o, maxCache, s, FastStore(r, freshId, now), s')
    requires |s.cache.Keys + {if r.id == 0 then freshId else r.id}| <= maxCache
    ensures s'.cache.Keys == s.cache.Keys + {if r.id == 0 then freshId else r.id} && s'.dirty == s.dirty
  {
    var r' := Stamped(r, freshId, now);
    assert s.cache[r'.id := r'].Keys == s.cache.Keys + {r'.id};
  }

  /** Eviction drops a fifth of the cache, leaves the rest as it was and nothing dirty, and never
      drops a record that has been used more than one it keeps; flagged records go first. */
  lemma EvictsLeastUsed(o: Outside, s: Store, s': Store, maxCache: nat, a: Id, b: Id)
    requires Evicted(o, s, s', maxCache) && |s.cache| > maxCache
    requires a in s.cache && a !in s'.cache && b in s'.cache
    ensures |s'.cache| == |s.cache| - |s.cache| / 5 && s'.dirty == {}
    ensures b in s.cache && s'.cache[b] == s.cache[b]
    ensures s.cache[b].phase == Tombstone ==> s.cache[a].phase == Tombstone || s.cache[a].accessCount == 0
    ensures s.cache[b].phase != Tombstone && s.cache[a].phase != Tombstone ==>
              s.cache[a].accessCount < s.cache[b].accessCount ||
              (s.cache[a].accessCount == s.cache[b].accessCount && a < b)
  {
    var out :| Lowest(s.cache, out, |s.cache| / 5) && s' == Flushed(o, s).(cache := s.cache - out);
    assert s'.cache.Keys == s.cache.Keys - out;
    assert |s.cache.Keys - out| == |s.cache.Keys| - |out|;
    assert Before(s.cache, a, b);
  }

  // ---- What a call leaves alone ----

  /** The id is one that the call stores under; decay is about every id. */
  predicate Names(op: Op, id: Id) {
    match op
    case FastStore(r, freshId, _) => id == if r.id == 0 then freshId else r.id
    case Get(x, _) => x == id
    case Update(x, _, _, freshId, _) => x == id || freshId == id
    case Remove(x) => x == id
    case Archive(x) => x == id
    case SetEmbedding(x, _) => x == id
    case Boost(x, _) => x == id
    case UpdateInPlace(x, _) => x == id
    case ApplyDecay(_) => true
    case Flush => false
    case Reopen => false
  }

  /** A call changes the answer of no id that it does not name, beyond what storing a record does
      to it; a reopening loses the changes to dirty ids. */
  lemma OthersAnswerAsBefore(o: Outside, maxCache: nat, s: Store, op: Op, s': Store, id: Id)
    requires Next(o, maxCache, s, op, s') && !Names(op, id) && CoherentAt(o, s, id)
    requires op.Reopen? ==> id !in s.dirty
    ensures SameAnswer(o, Fetched(o, s, id), Fetched(o, s', id))
    ensures !op.FastStore? && !op.Reopen? ==> Fetched(o, s', id) == Fetched(o, s, id)
  {
    if op.FastStore? {
      var r := Stamped(op.record, op.freshId, op.now);
      EvictionIsInvisible(o, WriteThrough(o, s, r.id, r), s', maxCache, id);
    }
  }

  // ---- Records know their id ----

  /** What is cached or stored under an id is a record of that id. */
  predicate KeyedAt(o: Outside, s: Store, id: Id) {
    && (id in s.cache ==> s.cache[id].id == id)
    && (id in s.lsm && o.decode(s.lsm[id]).Ok? ==> o.decode(s.lsm[id]).value.id == id)
  }

  lemma WriteKeepsKeyed(o: Outside, s: Store, x: Id, r: Record, id: Id)
    requires Lawful(o) && KeyedAt(o, s, id) && (x == id ==> r.id == id)
    ensures KeyedAt(o, WriteThrough(o, s, x, r), id) && KeyedAt(o, WriteDown(o, s, x, r), id)
    ensures KeyedAt(o, WriteBack(s, x, r), id) && KeyedAt(o, WriteDown(o, s, x, r).(cache := s.cache - {x}), id)
  {
    assert SameHeader(o.decode(o.encode(r)).value, r);
  }

  lemma FlushKeepsKeyed(o: Outside, s: Store, id: Id, kept: map<Id, Record>)
    requires Lawful(o) && KeyedAt(o, s, id) && forall x :: x in kept ==> x in s.cache && kept[x] == s.cache[x]
    ensures KeyedAt(o, Flushed(o, s).(cache := kept), id)
  {
    if id in s.cache { assert SameHeader(o.decode(o.encode(s.cache[id])).value, s.cache[id]); }
  }

  lemma EvictKeepsKeyed(o: Outside, s: Store, s': Store, maxCache: nat, id: Id)
    requires Lawful(o) && KeyedAt(o, s, id) && Evicted(o, s, s', maxCache)
    ensures KeyedAt(o, s', id)
  {
    if |s.cache| > maxCache {
      var out :| Lowest(s.cache, out, |s.cache| / 5) && s' == Flushed(o, s).(cache := s.cache - out);
      FlushKeepsKeyed(o, s, id, s.cache - out);
    }
  }

  lemma StepKeepsKeyed(o: Outside, maxCache: nat, s: Store, op: Op, s': Store, id: Id)
    requires Lawful(o) && KeyedAt(o, s, id) && Next(o, maxCache, s, op, s')
    ensures KeyedAt(o, s', id)
  {
    hide Lawful, Evicted, FlushedIds;
    match op
    case FastStore(r, freshId, now) =>
      var r' := Stamped(r, freshId, now);
      WriteKeepsKeyed(o, s, r'.id, r', id);
      EvictKeepsKeyed(o, WriteThrough(o, s, r'.id, r'), s', maxCache, id);
    case Update(x, content, embedding, freshId, now) =>
      if Fetched(o, s, x).Ok? {
        var r := Fetched(o, s, x).value;
        WriteKeepsKeyed(o, s, x, MarkVersioned(r), id);
        WriteKeepsKeyed(o, WriteThrough(o, s, x, MarkVersioned(r)), freshId,
                        NewVersion(r, content, embedding, freshId, now), id);
      }
    case Get(x, now) =>
      if Fetched(o, s, x).Ok? { WriteKeepsKeyed(o, s, x, Accessed(o, Fetched(o, s, x).value, now), id); }
    case Remove(x) =>
      if Fetched(o, s, x).Ok? { WriteKeepsKeyed(o, s, x, MarkTombstone(Fetched(o, s, x).value), id); }
    case Archive(x) =>
      if Fetched(o, s, x).Ok? { WriteKeepsKeyed(o, s, x, Fetched(o, s, x).value.(phase := Archived), id); }
    case SetEmbedding(x, embedding) =>
      if Fetched(o, s, x).Ok? { WriteKeepsKeyed(o, s, x, WithEmbedding(Fetched(o, s, x).value, embedding), id); }
    case Boost(x, scores) =>
      if Alive(o, s, x) { WriteKeepsKeyed(o, s, x, Fetched(o, s, x).value.(scores := scores), id); }
    case UpdateInPlace(x, content) =>
      if x in s.cache { WriteKeepsKeyed(o, s, x, s.cache[x].(content := content), id); }
    case ApplyDecay(now) =>
    case Flush => FlushKeepsKeyed(o, s, id, s.cache);
    case Reopen =>
  }

  // ---- A removed id stays dead ----

  predicate HasTombstone(r: Result<Record, Error>) {
    r.Ok? ==> TombstoneFlag in r.value.flags
  }

  /** The id is marked deleted in the engine, and in the cache if it is there. */
  predicate Buried(o: Outside, s: Store, id: Id) {
    && id in s.lsm && HasTombstone(o.decode(s.lsm[id]))
    && HasTombstone(Fetched(o, s, id))
  }

  /** The call hands out this id for a record that is not the one removed. */
  predicate Reuses(o: Outside, s: Store, op: Op, id: Id) {
    match op
    case FastStore(r, freshId, now) =>
      Stamped(r, freshId, now).id == id && TombstoneFlag !in Stamped(r, freshId, now).flags
    case Update(x, _, _, freshId, _) => freshId == id && Fetched(o, s, x).Ok?
    case _ => false
  }

  lemma RemoveBuries(o: Outside, maxCache: nat, s: Store, id: Id, s': Store)
    requires Lawful(o) && Fetched(o, s, id).Ok? && Next(o, maxCache, s, Remove(id), s')
    ensures Buried(o, s', id)
  {
    var r := MarkTombstone(Fetched(o, s, id).value);
    assert SameHeader(o.decode(o.encode(r)).value, r);
  }

  lemma WriteKeepsBuried(o: Outside, s: Store, x: Id, r: Record, id: Id)
    requires Lawful(o) && Buried(o, s, id) && (x == id ==> TombstoneFlag in r.flags)
    ensures Buried(o, WriteThrough(o, s, x, r), id) && Buried(o, WriteDown(o, s, x, r), id) &&
            Buried(o, WriteBack(s, x, r), id)
    ensures Buried(o, WriteDown(o, s, x, r).(cache := s.cache - {x}), id)
  {
    assert SameHeader(o.decode(o.encode(r)).value, r);
  }

  lemma FlushKeepsBuried(o: Outside, s: Store, id: Id, kept: map<Id, Record>)
    requires Lawful(o) && Buried(o, s, id)
    requires kept.Keys <= s.cache.Keys && forall x :: x in kept ==> kept[x] == s.cache[x]
    ensures Buried(o, Flushed(o, s).(cache := kept), id)
  {
    if id in s.cache { assert SameHeader(o.decode(o.encode(s.cache[id])).value, s.cache[id]); }
  }

  lemma EvictKeepsBuried(o: Outside, s: Store, s': Store, maxCache: nat, id: Id)
    requires Lawful(o) && Buried(o, s, id) && Evicted(o, s, s', maxCache)
    ensures Buried(o, s', id)
  {
    if |s.cache| > maxCache {
      var out :| Lowest(s.cache, out, |s.cache| / 5) && s' == Flushed(o, s).(cache := s.cache - out);
      FlushKeepsBuried(o, s, id, s.cache - out);
    }
  }

  lemma StepKeepsBuried(o: Outside, maxCache: nat, s: Store, op: Op, s': Store, id: Id)
    requires Lawful(o) && Buried(o, s, id) && Next(o, maxCache, s, op, s') && !Reuses(o, s, op, id)
    ensures Buried(o, s', id)
  {
    match op
    case FastStore(r, freshId, now) =>
      var r' := Stamped(r, freshId, now);
      WriteKeepsBuried(o, s, r'.id, r', id);
      EvictKeepsBuried(o, WriteThrough(o, s, r'.id, r'), s', maxCache, id);
    case Get(x, now) =>
      if Fetched(o, s, x).Ok? { WriteKeepsBuried(o, s, x, Accessed(o, Fetched(o, s, x).value, now), id); }
    case Update(x, content, embedding, freshId, now) =>
      if Fetched(o, s, x).Ok? {
        var r := Fetched(o, s, x).value;
        WriteKeepsBuried(o, s, x, MarkVersioned(r), id);
        WriteKeepsBuried(o, WriteThrough(o, s, x, MarkVersioned(r)), freshId,
                         NewVersion(r, content, embedding, freshId, now), id);
      }
    case Remove(x) => if Fetched(o, s, x).Ok? { WriteKeepsBuried(o, s, x, MarkTombstone(Fetched(o, s, x).value), id); }
    case Archive(x) =>
      if Fetched(o, s, x).Ok? { WriteKeepsBuried(o, s, x, Fetched(o, s, x).value.(phase := Archived), id); }
    case SetEmbedding(x, embedding) =>
      if Fetched(o, s, x).Ok? { WriteKeepsBuried(o, s, x, WithEmbedding(Fetched(o, s, x).value, embedding), id); }
    case Boost(x, scores) =>
      if Alive(o, s, x) { WriteKeepsBuried(o, s, x, Fetched(o, s, x).value.(scores := scores), id); }
    case UpdateInPlace(x, content) =>
      if x in s.cache { WriteKeepsBuried(o, s, x, s.cache[x].(content := content), id); }
    case ApplyDecay(now) =>
    case Flush => FlushKeepsBuried(o, s, id, s.cache);
    case Reopen =>
  }

  /** A call that gives the id out again brings it back exactly if the record it stores is alive. */
  lemma ReuseRevivesExactly(o: Outside, maxCache: nat, s: Store, op: Op, s': Store, id: Id)
    requires Lawful(o) && Buried(o, s, id) && Next(o, maxCache, s, op, s')
    ensures Alive(o, s', id) <==>
            Reuses(o, s, op, id) && (op.FastStore? ==> IsAlive(Stamped(op.record, op.freshId, op.now)))
  {
    hide Stamped, Evicted, FlushedIds, Lawful;
    if !Reuses(o, s, op, id) {
      StepKeepsBuried(o, maxCache, s, op, s', id);
    } else if op.FastStore? {
      var r' := Stamped(op.record, op.freshId, op.now);
      StoredAsStamped(o, maxCache, s, op.record, op.freshId, op.now, s');
      SameAnswerSameHeader(o, Ok(r'), Fetched(o, s', id));
    }
  }

  /** Archiving sets the phase whatever it was: an invalidated record is alive again. */
  lemma ArchiveRevivesExactly(o: Outside, maxCache: nat, s: Store, id: Id, s': Store)
    requires Lawful(o) && Fetched(o, s, id).Ok? && Next(o, maxCache, s, Archive(id), s')
    ensures Alive(o, s', id) <==> TombstoneFlag !in Fetched(o, s, id).value.flags
  {
  }
}
