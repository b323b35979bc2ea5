/** The in-memory ring of memory events, and the position indexes kept beside it. */
module EventLogs {
  import opened Common

  datatype Event = Event(eventId: nat, timestamp: nat, memoryId: nat, traceId: nat, kind: nat, status: nat,
                         agent: string)

  datatype Filter = Filter(
    memoryId: Option<nat>, traceId: Option<nat>, kind: Option<nat>, status: Option<nat>,
    agentPrefix: string, since: nat, until: nat, limit: nat)

  type Positions = map<nat, seq<nat>>

  predicate Matches(f: Filter, e: Event) {
    && (f.memoryId.Some? ==> e.memoryId == f.memoryId.value)
    && (f.traceId.Some? ==> e.traceId == f.traceId.value)
    && (f.kind.Some? ==> e.kind == f.kind.value)
    && (f.status.Some? ==> e.status == f.status.value)
    && f.agentPrefix <= e.agent
    && (f.since > 0 ==> e.timestamp >= f.since)
    && (f.until > 0 ==> e.timestamp <= f.until)
  }

  // ---- The reference: a scan from the newest event back ----

  function Hits(ring: seq<Event>, f: Filter): seq<Event> {
    if ring == [] then []
    else (if Matches(f, ring[|ring| - 1]) then [ring[|ring| - 1]] else []) + Hits(ring[..|ring| - 1], f)
  }

  /** The limit is tested after a hit is added, so a limit of zero still returns one. */
  function Limited(hits: seq<Event>, limit: nat): seq<Event> {
    var n := if limit == 0 then 1 else limit;
    if |hits| <= n then hits else hits[..n]
  }

  // ---- The indexes ----

  function At(x: Positions, key: nat): seq<nat> {
    if key in x then x[key] else []
  }

  function Added(x: Positions, key: nat, pos: nat): Positions {
    x[key := At(x, key) + [pos]]
  }

  /** The positions of a key are exactly those of the events that bear it, once each. */
  ghost predicate Lists(positions: seq<nat>, keys: seq<nat>, key: nat, zeroToo: bool) {
    && (forall pos: nat :: pos in positions <==> (key != 0 || zeroToo) && pos < |keys| && keys[pos] == key)
    && Distinct(positions)
  }

  ghost predicate Describes(x: Positions, keys: seq<nat>, zeroToo: bool) {
    forall key: nat :: Lists(At(x, key), keys, key, zeroToo)
  }

  ghost predicate Distinct(s: seq<nat>) {
    forall i, j :: 0 <= i < j < |s| ==> s[i] != s[j]
  }

  function MemoryIds(ring: seq<Event>): seq<nat> {
    seq(|ring|, i requires 0 <= i < |ring| => ring[i].memoryId)
  }

  function TraceIds(ring: seq<Event>): seq<nat> {
    seq(|ring|, i requires 0 <= i < |ring| => ring[i].traceId)
  }

  function Kinds(ring: seq<Event>): seq<nat> {
    seq(|ring|, i requires 0 <= i < |ring| => ring[i].kind)
  }

  lemma DescribesNext(x: Positions, keys: seq<nat>, key: nat, zeroToo: bool)
    requires Describes(x, keys, zeroToo)
    ensures Describes(if key != 0 || zeroToo then Added(x, key, |keys|) else x, keys + [key], zeroToo)
  {
    var y := if key != 0 || zeroToo then Added(x, key, |keys|) else x;
    forall k: nat ensures Lists(At(y, k), keys + [key], k, zeroToo) {
      assert Lists(At(x, k), keys, k, zeroToo);
      ListsNext(At(x, k), keys, key, k, zeroToo);
    }
  }

  lemma ListsNext(positions: seq<nat>, keys: seq<nat>, key: nat, k: nat, zeroToo: bool)
    requires Lists(positions, keys, k, zeroToo)
    ensures Lists(if k == key && (key != 0 || zeroToo) then positions + [|keys|] else positions,
                  keys + [key], k, zeroToo)
  {
    assert |keys| !in positions;
    forall pos: nat
      ensures pos < |keys + [key]| && (keys + [key])[pos] == k <==>
              (pos < |keys| && keys[pos] == k) || (pos == |keys| && k == key)
    {
    }
  }

  lemma NothingDescribed(zeroToo: bool)
    ensures Describes(map[], [], zeroToo)
  {
  }

  class MemoryEventLog {
    const capacity: nat
    var recent: seq<Event>
    var byMemoryId: Positions
    var byTraceId: Positions
    var byKind: Positions

    /** The indexes describe the ring exactly. */
    ghost predicate Valid()
      reads this
    {
      && |recent| <= capacity
      && Indexed(recent)
    }

    ghost predicate Indexed(ring: seq<Event>)
      reads this
    {
      Describes(byMemoryId, MemoryIds(ring), false) && Describes(byTraceId, TraceIds(ring), false) &&
      Describes(byKind, Kinds(ring), true)
    }

    constructor (capacity: nat)
      ensures Valid() && recent == [] && this.capacity == capacity
    {
      this.capacity, recent, byMemoryId, byTraceId, byKind := capacity, [], map[], map[], map[];
      NothingDescribed(false);
      NothingDescribed(true);
    }

    method AddToIndexes(pos: nat, e: Event)
      requires pos < |recent| && recent[pos] == e && Indexed(recent[..pos])
      modifies `byMemoryId, `byTraceId, `byKind
      ensures Indexed(recent[..pos + 1])
    {
      hide Describes;
      var ring := recent[..pos];
      DescribesNext(byMemoryId, MemoryIds(ring), e.memoryId, false);
      DescribesNext(byTraceId, TraceIds(ring), e.traceId, false);
      DescribesNext(byKind, Kinds(ring), e.kind, true);
      assert recent[..pos + 1] == ring + [e];
      assert MemoryIds(ring + [e]) == MemoryIds(ring) + [e.memoryId];
      assert TraceIds(ring + [e]) == TraceIds(ring) + [e.traceId];
      assert Kinds(ring + [e]) == Kinds(ring) + [e.kind];
      if e.memoryId != 0 { byMemoryId := Added(byMemoryId, e.memoryId, pos); }
      if e.traceId != 0 { byTraceId := Added(byTraceId, e.traceId, pos); }
      byKind := Added(byKind, e.kind, pos);
    }

    method RebuildIndexes()
      modifies `byMemoryId, `byTraceId, `byKind
      ensures Indexed(recent)
    {
      hide Describes;
      byMemoryId, byTraceId, byKind := map[], map[], map[];
      NothingDescribed(false);
      NothingDescribed(true);
      var i := 0;
      assert MemoryIds(recent[..i]) == [] && TraceIds(recent[..i]) == [] && Kinds(recent[..i]) == [];
      while i < |recent|
        invariant 0 <= i <= |recent| && Indexed(recent[..i])
      {
        AddToIndexes(i, recent[i]);
        i := i + 1;
      }
      assert recent[..i] == recent;
    }

    /** append: the oldest event makes room, and then every position has shifted. */
    method Append(e: Event)
      requires Valid()
      modifies this
      ensures Valid()
      ensures recent == if |old(recent)| < capacity then old(recent) + [e] else (old(recent) + [e])[1..]
    {
      hide Describes;
      recent := recent + [e];
      if |recent| > capacity {
        recent := recent[1..];
        RebuildIndexes();
      } else {
        assert recent[..|recent| - 1] == old(recent);
        AddToIndexes(|recent| - 1, e);
        assert recent[..|recent|] == recent;
      }
    }

    /** query: by memory id, else by trace id, else over the whole ring. */
    method Query(f: Filter) returns (out: seq<Event>)
      requires Valid()
      ensures out == if Blind(f) then [] else Limited(Hits(recent, f), f.limit)
    {
      if f.memoryId.Some? {
        assert Lists(At(byMemoryId, f.memoryId.value), MemoryIds(recent), f.memoryId.value, false);
        out := CollectFrom(At(byMemoryId, f.memoryId.value), f, MemoryIds(recent), f.memoryId.value);
      } else if f.traceId.Some? {
        assert Lists(At(byTraceId, f.traceId.value), TraceIds(recent), f.traceId.value, false);
        out := CollectFrom(At(byTraceId, f.traceId.value), f, TraceIds(recent), f.traceId.value);
      } else {
        out := ScanBack(f);
      }
    }

    method ScanBack(f: Filter) returns (out: seq<Event>)
      ensures out == Limited(Hits(recent, f), f.limit)
    {
      hide Hits, Matches;
      out := [];
      var i := |recent|;
      NoHits(f);
      assert recent[..i] == recent;
      while i > 0
        invariant 0 <= i <= |recent| && Hits(recent, f) == out + Hits(recent[..i], f)
        invariant |out| < (if f.limit == 0 then 1 else f.limit)
      {
        HitsNext(recent, i - 1, f);
        i := i - 1;
        if Matches(f, recent[i]) {
          ConcatAssociates(out, [recent[i]], Hits(recent[..i], f));
          out := out + [recent[i]];
          LimitReached(out, Hits(recent[..i], f), f.limit);
          if |out| >= f.limit { return; }
        }
        assert [] + Hits(recent[..i], f) == Hits(recent[..i], f);
      }
      AllTaken(out, f.limit);
    }

    method CollectFrom(positions: seq<nat>, f: Filter, ghost keys: seq<nat>, ghost key: nat) returns (out: seq<Event>)
      requires |keys| == |recent| && Lists(positions, keys, key, false)
      requires forall pos: nat :: pos < |recent| && Matches(f, recent[pos]) ==> keys[pos] == key
      ensures out == if key == 0 then [] else Limited(Hits(recent, f), f.limit)
    {
      hide Hits, Matches;
      out := [];
      var sorted := SortedDown(positions);
      SortedDownIs(positions);
      var i := 0;
      assert recent[..|recent|] == recent;
      while i < |sorted|
        invariant 0 <= i <= |sorted| && Bound(sorted, i, |recent|) <= |recent|
        invariant key != 0 ==> Hits(recent, f) == out + Hits(recent[..Bound(sorted, i, |recent|)], f)
        invariant key == 0 ==> out == []
        invariant key != 0 ==> |out| < (if f.limit == 0 then 1 else f.limit)
      {
        var pos := sorted[i];
        assert pos in positions && key != 0;
        forall n | pos < n < Bound(sorted, i, |recent|) ensures !Matches(f, recent[n]) {
          Skipped(sorted, i, |recent|, n);
        }
        HitsSkip(recent, pos + 1, Bound(sorted, i, |recent|), f);
        HitsNext(recent, pos, f);
        i := i + 1;
        if Matches(f, recent[pos]) {
          ConcatAssociates(out, [recent[pos]], Hits(recent[..pos], f));
          out := out + [recent[pos]];
          LimitReached(out, Hits(recent[..pos], f), f.limit);
          if |out| >= f.limit { return; }
        }
        assert [] + Hits(recent[..pos], f) == Hits(recent[..pos], f);
      }
      if key != 0 {
        forall n | 0 <= n < Bound(sorted, i, |recent|) ensures !Matches(f, recent[n]) {
          Skipped(sorted, i, |recent|, n);
        }
        HitsSkip(recent, 0, Bound(sorted, i, |recent|), f);
        NoHits(f);
        assert recent[..0] == [];
        AllTaken(out, f.limit);
      }
    }
  }

  /** An id of zero is not indexed, so a filter that leads with it finds nothing. */
  predicate Blind(f: Filter) {
    f.memoryId == Some(0) || (f.memoryId == None && f.traceId == Some(0))
  }

  /** The index answers as the scan does exactly if the leading id is not zero, or no
      event matches at all. */
  lemma QueryIsScanExactly(ring: seq<Event>, f: Filter)
    ensures (if Blind(f) then [] else Limited(Hits(ring, f), f.limit)) == Limited(Hits(ring, f), f.limit)
       <==> !Blind(f) || forall i :: 0 <= i < |ring| ==> !Matches(f, ring[i])
  {
    NoHitsExactly(ring, f);
  }

  lemma {:induction false} NoHitsExactly(ring: seq<Event>, f: Filter)
    ensures Hits(ring, f) == [] <==> forall i :: 0 <= i < |ring| ==> !Matches(f, ring[i])
  {
    if ring != [] { NoHitsExactly(ring[..|ring| - 1], f); }
  }

  /** What the scan finds are the events of the ring that pass every field of the filter. */
  lemma {:induction false} HitsExactly(ring: seq<Event>, f: Filter, e: Event)
    ensures e in Hits(ring, f) <==>
            && e in ring && (f.memoryId == None || f.memoryId == Some(e.memoryId))
            && (f.traceId == None || f.traceId == Some(e.traceId)) && (f.kind == None || f.kind == Some(e.kind))
            && (f.status == None || f.status == Some(e.status))
            && |f.agentPrefix| <= |e.agent| && e.agent[..|f.agentPrefix|] == f.agentPrefix
            && (f.since == 0 || f.since <= e.timestamp) && (f.until == 0 || e.timestamp <= f.until)
  {
    if ring != [] {
      var front, last := ring[..|ring| - 1], ring[|ring| - 1];
      assert ring == front + [last];
      HitsExactly(front, f, e);
      assert f.agentPrefix <= last.agent <==>
             |f.agentPrefix| <= |last.agent| && last.agent[..|f.agentPrefix|] == f.agentPrefix;
    }
  }

  /** Where in the ring they stand. */
  function Places(ring: seq<Event>, f: Filter): seq<nat> {
    if ring == [] then []
    else (if Matches(f, ring[|ring| - 1]) then [|ring| - 1] else []) + Places(ring[..|ring| - 1], f)
  }

  /** They come newest first, each as often as it stands in the ring. */
  lemma {:induction false} HitsNewestFirst(ring: seq<Event>, f: Filter)
    ensures |Places(ring, f)| == |Hits(ring, f)| && Descends(Places(ring, f))
    ensures forall i :: 0 <= i < |Places(ring, f)| ==>
              Places(ring, f)[i] < |ring| && Hits(ring, f)[i] == ring[Places(ring, f)[i]]
  {
    hide Matches;
    if ring != [] { HitsNewestFirst(ring[..|ring| - 1], f); }
  }

  lemma {:induction false} PlacesExactly(ring: seq<Event>, f: Filter, pos: nat)
    ensures pos in Places(ring, f) <==> pos < |ring| && Matches(f, ring[pos])
  {
    hide Matches;
    if ring != [] { PlacesExactly(ring[..|ring| - 1], f, pos); }
  }

  /** The answer is as much of them as the limit allows, and one at least. */
  lemma LimitedExactly(hits: seq<Event>, limit: nat)
    ensures Limited(hits, limit) <= hits
    ensures |Limited(hits, limit)| == |hits| || |Limited(hits, limit)| == (if limit >= 1 then limit else 1) < |hits|
  {
  }

  lemma LimitReached(out: seq<Event>, rest: seq<Event>, limit: nat)
    ensures |out| == (if limit == 0 then 1 else limit) ==> Limited(out + rest, limit) == out
  {
  }

  lemma AllTaken(out: seq<Event>, limit: nat)
    ensures |out| <= (if limit == 0 then 1 else limit) ==> Limited(out + [], limit) == out
  {
    assert out + [] == out;
  }

  lemma NoHits(f: Filter)
    ensures Hits([], f) == []
  {
  }

  lemma HitsNext(ring: seq<Event>, i: nat, f: Filter)
    requires i < |ring|
    ensures Hits(ring[..i + 1], f) == (if Matches(f, ring[i]) then [ring[i]] else []) + Hits(ring[..i], f)
  {
    assert ring[..i + 1][..i] == ring[..i];
  }

  lemma {:induction false} HitsSkip(ring: seq<Event>, i: nat, j: nat, f: Filter)
    requires i <= j <= |ring| && forall n :: i <= n < j ==> !Matches(f, ring[n])
    ensures Hits(ring[..j], f) == Hits(ring[..i], f)
  {
    if i < j {
      HitsNext(ring, j - 1, f);
      HitsSkip(ring, i, j - 1, f);
    }
  }

  /** The ring below the positions already visited. */
  function Bound(sorted: seq<nat>, i: nat, size: nat): nat
    requires i <= |sorted|
  {
    if i == 0 then size else sorted[i - 1]
  }

  ghost predicate Descends(s: seq<nat>) {
    forall i, j :: 0 <= i < j < |s| ==> s[i] > s[j]
  }

  lemma Skipped(sorted: seq<nat>, i: nat, size: nat, n: nat)
    requires Descends(sorted) && i <= |sorted| && n < Bound(sorted, i, size)
    requires i < |sorted| ==> sorted[i] < n
    ensures n !in sorted
  {
  }

  /** Positions, the largest first. */
  function SortedDown(s: seq<nat>): seq<nat> {
    if s == [] then [] else Insert(SortedDown(s[1..]), s[0])
  }

  function Insert(s: seq<nat>, x: nat): seq<nat> {
    if s == [] || x >= s[0] then [x] + s else [s[0]] + Insert(s[1..], x)
  }

  lemma {:induction false} InsertIs(s: seq<nat>, x: nat)
    ensures forall y :: y in Insert(s, x) <==> y in s || y == x
    ensures Descends(s) && x !in s ==> Descends(Insert(s, x))
  {
    if s != [] && x < s[0] {
      InsertIs(s[1..], x);
      assert s == [s[0]] + s[1..];
      if Descends(s) && x !in s {
        var t := Insert(s[1..], x);
        forall j | 0 <= j < |t| ensures s[0] > t[j] { assert t[j] in t; }
      }
    }
  }

  lemma {:induction false} SortedDownIs(s: seq<nat>)
    ensures forall y :: y in SortedDown(s) <==> y in s
    ensures Distinct(s) ==> Descends(SortedDown(s))
  {
    if s != [] {
      SortedDownIs(s[1..]);
      InsertIs(SortedDown(s[1..]), s[0]);
      assert s == [s[0]] + s[1..];
    }
  }
}
