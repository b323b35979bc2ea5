/** Streaming k-way merge of SSTables with a min-heap of cursors, as compactLevel
    runs it: lower table indices win ties, winning empty values are dropped. */
module Merging {
  import opened Common
  import opened Tables

  datatype HeapEntry = HeapEntry(key: Key, table: nat)

  /** The heap's order: by key, then by table index. */
  predicate Before(a: HeapEntry, b: HeapEntry) {
    a.key < b.key || (a.key == b.key && a.table <= b.table)
  }

  datatype WriteError = OutOfOrder

  /** SSTableWriter::add's order check: keys must strictly ascend. */
  function WriterAdd(out: Table, key: Key, value: Bytes): Result<Table, WriteError> {
    if out != [] && key <= out[|out| - 1].key then Err(OutOfOrder) else Ok(out + [Entry(key, value)])
  }

  /** The reference result: overlay the tables two by two, newest in front, then
      drop the empty values. */
  function Overlay(a: Table, b: Table): Table
    decreases |a| + |b|
  {
    if a == [] then b
    else if b == [] then a
    else if a[0].key < b[0].key then [a[0]] + Overlay(a[1..], b)
    else if a[0].key == b[0].key then [a[0]] + Overlay(a[1..], b[1..])
    else [b[0]] + Overlay(a, b[1..])
  }

  function OverlayAll(ts: seq<Table>): Table {
    if ts == [] then [] else Overlay(ts[0], OverlayAll(ts[1..]))
  }

  function DropEmpty(t: Table): Table {
    if t == [] then []
    else if t[0].value == [] then DropEmpty(t[1..])
    else [t[0]] + DropEmpty(t[1..])
  }

  function Compacted(ts: seq<Table>): Table {
    DropEmpty(OverlayAll(ts))
  }

  ghost predicate AllAscending(ts: seq<Table>) {
    forall i :: 0 <= i < |ts| ==> Ascending(ts[i])
  }

  lemma AscendingCons(e: Entry, t: Table)
    requires Ascending(t) && forall i :: 0 <= i < |t| ==> e.key < t[i].key
    ensures Ascending([e] + t)
  {
  }

  lemma {:induction false} OverlayAscends(a: Table, b: Table, low: int)
    requires Ascending(a) && Ascending(b)
    requires forall i :: 0 <= i < |a| ==> low < a[i].key
    requires forall i :: 0 <= i < |b| ==> low < b[i].key
    ensures Ascending(Overlay(a, b))
    ensures forall i :: 0 <= i < |Overlay(a, b)| ==> low < Overlay(a, b)[i].key
    decreases |a| + |b|
  {
    if a != [] && b != [] {
      if a[0].key < b[0].key {
        OverlayAscends(a[1..], b, a[0].key);
        AscendingCons(a[0], Overlay(a[1..], b));
      } else if a[0].key == b[0].key {
        OverlayAscends(a[1..], b[1..], a[0].key);
        AscendingCons(a[0], Overlay(a[1..], b[1..]));
      } else {
        OverlayAscends(a, b[1..], b[0].key);
        AscendingCons(b[0], Overlay(a, b[1..]));
      }
    }
  }

  lemma {:induction false} OverlayLookup(a: Table, b: Table, k: Key)
    requires Ascending(a) && Ascending(b)
    ensures Lookup(Overlay(a, b), k) == if Lookup(a, k).Some? then Lookup(a, k) else Lookup(b, k)
    decreases |a| + |b|
  {
    if a != [] && b != [] {
      if a[0].key < b[0].key {
        OverlayLookup(a[1..], b, k);
      } else if a[0].key == b[0].key {
        OverlayLookup(a[1..], b[1..], k);
      } else {
        OverlayLookup(a, b[1..], k);
        if k == b[0].key {
          LookupNone(a, k);
        }
      }
    }
  }

  lemma {:induction false} OverlayAllLookup(ts: seq<Table>, k: Key)
    requires AllAscending(ts)
    ensures Ascending(OverlayAll(ts))
    ensures Lookup(OverlayAll(ts), k) == FirstHit(ts, k)
  {
    if ts != [] {
      OverlayAllLookup(ts[1..], k);
      OverlayAscends(ts[0], OverlayAll(ts[1..]), -1);
      OverlayLookup(ts[0], OverlayAll(ts[1..]), k);
    }
  }

  lemma {:induction false} DropEmptyLookup(t: Table, k: Key)
    requires Ascending(t)
    ensures Ascending(DropEmpty(t))
    ensures forall i :: 0 <= i < |DropEmpty(t)| ==> DropEmpty(t)[i] in t
    ensures Lookup(DropEmpty(t), k) == Visible(Lookup(t, k))
  {
    if t != [] {
      DropEmptyLookup(t[1..], k);
      forall i | 0 <= i < |DropEmpty(t[1..])| ensures t[0].key < DropEmpty(t[1..])[i].key {
        assert DropEmpty(t[1..])[i] in t[1..];
      }
      AscendingCons(t[0], DropEmpty(t[1..]));
      if t[0].key == k {
        LookupNone(t[1..], k);
      }
    }
  }

  /** The reference result is an ascending table with the lowest-index-wins answers. */
  lemma CompactedLookup(ts: seq<Table>, k: Key)
    requires AllAscending(ts)
    ensures Ascending(Compacted(ts))
    ensures Lookup(Compacted(ts), k) == Merged(ts, k)
  {
    OverlayAllLookup(ts, k);
    DropEmptyLookup(OverlayAll(ts), k);
  }

  /** What the merge must answer for a key: the lowest table's value, unless empty. */
  function Merged(ts: seq<Table>, key: Key): Option<Bytes> {
    Visible(FirstHit(ts, key))
  }

  /** The heap holds exactly the current entry of every cursor that is not at its end. */
  ghost predicate HeapOf(heap: set<HeapEntry>, ts: seq<Table>, pos: seq<nat>)
    requires |pos| == |ts|
    requires forall i :: 0 <= i < |ts| ==> pos[i] <= |ts[i]|
  {
    && (forall i :: 0 <= i < |ts| && pos[i] < |ts[i]| ==> HeapEntry(ts[i][pos[i]].key, i) in heap)
    && (forall e :: e in heap ==>
        e.table < |ts| && pos[e.table] < |ts[e.table]| && e.key == ts[e.table][pos[e.table]].key)
  }

  /** Entries not yet consumed. */
  ghost function Remaining(ts: seq<Table>, pos: seq<nat>): nat
    requires |pos| == |ts|
    requires forall i :: 0 <= i < |ts| ==> pos[i] <= |ts[i]|
  {
    if ts == [] then 0 else |ts[0]| - pos[0] + Remaining(ts[1..], pos[1..])
  }

  lemma {:induction false} RemainingStep(ts: seq<Table>, pos: seq<nat>, i: nat)
    requires |pos| == |ts| && i < |ts|
    requires forall j :: 0 <= j < |ts| ==> pos[j] <= |ts[j]|
    requires pos[i] < |ts[i]|
    ensures Remaining(ts, pos[i := pos[i] + 1]) == Remaining(ts, pos) - 1
  {
    var next := pos[i := pos[i] + 1];
    if i == 0 {
      assert next[1..] == pos[1..];
    } else {
      assert next[1..] == pos[1..][i - 1 := pos[i] + 1];
      RemainingStep(ts[1..], pos[1..], i - 1);
    }
  }

  /** priority_queue::top. */
  method Top(heap: set<HeapEntry>) returns (top: HeapEntry)
    requires heap != {}
    ensures top in heap && forall e :: e in heap ==> Before(top, e)
  {
    top :| top in heap;
    var rest := heap - {top};
    while rest != {}
      invariant top in heap && rest <= heap
      invariant forall e :: e in heap && e !in rest ==> Before(top, e)
      decreases |rest|
    {
      var e :| e in rest;
      if !Before(top, e) {
        top := e;
      }
      rest := rest - {e};
    }
  }

  /** Everything consumed is below the frontier and answered; nothing above it is. */
  ghost predicate Answered(ts: seq<Table>, pos: seq<nat>, out: Table, frontier: int)
    requires |pos| == |ts|
    requires forall i :: 0 <= i < |ts| ==> pos[i] <= |ts[i]|
  {
    && (forall i, j :: 0 <= i < |ts| && 0 <= j < pos[i] ==> ts[i][j].key <= frontier)
    && (forall i, j :: 0 <= i < |ts| && pos[i] <= j < |ts[i]| ==> ts[i][j].key >= frontier)
    && Ascending(out)
    && (forall i :: 0 <= i < |out| ==> out[i].key <= frontier)
    && (forall k: Key :: k <= frontier ==> Lookup(out, k) == Merged(ts, k))
  }

  /** The heap's top comes before every entry not yet consumed. */
  lemma TopIsLeast(ts: seq<Table>, pos: seq<nat>, heap: set<HeapEntry>, top: HeapEntry, i: nat, j: nat)
    requires |pos| == |ts| && (forall i :: 0 <= i < |ts| ==> pos[i] <= |ts[i]| && Ascending(ts[i]))
    requires HeapOf(heap, ts, pos) && (forall e :: e in heap ==> Before(top, e))
    requires i < |ts| && pos[i] <= j < |ts[i]|
    ensures Before(top, HeapEntry(ts[i][j].key, i))
  {
    assert HeapEntry(ts[i][pos[i]].key, i) in heap;
    assert j > pos[i] ==> ts[i][pos[i]].key < ts[i][j].key;
  }

  lemma NotBelowHeap(ts: seq<Table>, pos: seq<nat>, heap: set<HeapEntry>, frontier: int, top: HeapEntry, i: nat, k: Key)
    requires |pos| == |ts| && (forall i :: 0 <= i < |ts| ==> pos[i] <= |ts[i]| && Ascending(ts[i]))
    requires HeapOf(heap, ts, pos) && (forall e :: e in heap ==> Before(top, e))
    requires forall i, j :: 0 <= i < |ts| && 0 <= j < pos[i] ==> ts[i][j].key <= frontier
    requires i < |ts| && frontier < k && (k < top.key || (k == top.key && i < top.table))
    ensures Lookup(ts[i], k) == None
  {
    forall j | 0 <= j < |ts[i]| ensures ts[i][j].key != k {
      if pos[i] <= j { TopIsLeast(ts, pos, heap, top, i, j); }
    }
    LookupNone(ts[i], k);
  }

  /** Popping a fresh key: its winner is the popped table, all keys skipped are absent. */
  lemma FreshTop(ts: seq<Table>, pos: seq<nat>, heap: set<HeapEntry>, frontier: int, top: HeapEntry, k: Key)
    requires |pos| == |ts| && (forall i :: 0 <= i < |ts| ==> pos[i] <= |ts[i]| && Ascending(ts[i]))
    requires HeapOf(heap, ts, pos) && top in heap && (forall e :: e in heap ==> Before(top, e))
    requires forall i, j :: 0 <= i < |ts| && 0 <= j < pos[i] ==> ts[i][j].key <= frontier
    requires frontier < k <= top.key
    ensures FirstHit(ts, k) == if k == top.key then Some(ts[top.table][pos[top.table]].value) else None
  {
    if k == top.key {
      LookupAt(ts[top.table], pos[top.table]);
      forall i | 0 <= i < top.table ensures Lookup(ts[i], k) == None {
        NotBelowHeap(ts, pos, heap, frontier, top, i, k);
      }
      FirstHitIs(ts, k, top.table);
    } else {
      forall i | 0 <= i < |ts| ensures Lookup(ts[i], k) == None {
        NotBelowHeap(ts, pos, heap, frontier, top, i, k);
      }
      FirstHitNone(ts, k);
    }
  }

  lemma {:induction false} LookupAppend(t: Table, e: Entry, k: Key)
    ensures Lookup(t + [e], k) ==
            if Lookup(t, k).Some? then Lookup(t, k) else if e.key == k then Some(e.value) else None
  {
    if t == [] {
      assert t + [e] == [e];
    } else {
      assert (t + [e])[1..] == t[1..] + [e];
      LookupAppend(t[1..], e, k);
    }
  }

  ghost function Frontier(first: bool, prevKey: Key): int {
    if first then -1 else prevKey
  }

  /** One pass of the loop body on values: write a fresh winner, skip a duplicate. */
  lemma FrontierMoves(ts: seq<Table>, pos: seq<nat>, heap: set<HeapEntry>, out: Table, frontier: int,
                      top: HeapEntry, out': Table)
    requires |pos| == |ts| && (forall i :: 0 <= i < |ts| ==> pos[i] <= |ts[i]| && Ascending(ts[i]))
    requires HeapOf(heap, ts, pos) && top in heap && (forall e :: e in heap ==> Before(top, e))
    requires Answered(ts, pos, out, frontier) && frontier < top.key
    requires var v := ts[top.table][pos[top.table]].value;
             out' == if v == [] then out else out + [Entry(top.key, v)]
    ensures Ascending(out') && (forall i :: 0 <= i < |out'| ==> out'[i].key <= top.key)
    ensures forall k: Key :: k <= top.key ==> Lookup(out', k) == Merged(ts, k)
  {
    var v := ts[top.table][pos[top.table]].value;
    forall k: Key | k <= top.key ensures Lookup(out', k) == Merged(ts, k) {
      LookupAppend(out, Entry(top.key, v), k);
      if k > frontier {
        FreshTop(ts, pos, heap, frontier, top, k);
        LookupNone(out, k);
      }
    }
  }

  /** All cursors at their first entry; empty tables give no heap entry. */
  method OpenCursors(ts: seq<Table>, pos: seq<nat>) returns (heap: set<HeapEntry>)
    requires |pos| == |ts| && forall i :: 0 <= i < |ts| ==> pos[i] == 0
    ensures HeapOf(heap, ts, pos)
  {
    heap := {};
    var n := 0;
    while n < |ts|
      invariant 0 <= n <= |ts|
      invariant forall i :: 0 <= i < n && ts[i] != [] ==> HeapEntry(ts[i][0].key, i) in heap
      invariant forall e :: e in heap ==> e.table < n && ts[e.table] != [] && e.key == ts[e.table][0].key
    {
      if ts[n] != [] {
        heap := heap + {HeapEntry(ts[n][0].key, n)};
      }
      n := n + 1;
    }
  }

  /** Move the popped cursor on and push it back unless it is at its end. */
  method Advance(ts: seq<Table>, pos: seq<nat>, heap: set<HeapEntry>, top: HeapEntry)
    returns (pos': seq<nat>, heap': set<HeapEntry>)
    requires |pos| == |ts| && forall i :: 0 <= i < |ts| ==> pos[i] <= |ts[i]|
    requires HeapOf(heap, ts, pos) && top in heap
    ensures pos' == pos[top.table := pos[top.table] + 1]
    ensures forall i :: 0 <= i < |ts| ==> pos'[i] <= |ts[i]|
    ensures HeapOf(heap', ts, pos')
  {
    var i := top.table;
    pos' := pos[i := pos[i] + 1];
    heap' := heap - {top};
    if pos'[i] < |ts[i]| {
      heap' := heap' + {HeapEntry(ts[i][pos'[i]].key, i)};
    }
  }

  /** The merge loop.  It ends, the writer never rejects a key, and the output is
      the reference result. */
  method MergeTables(ts: seq<Table>) returns (r: Result<Table, WriteError>)
    requires AllAscending(ts)
    ensures r == Ok(Compacted(ts))
  {
    var pos: seq<nat> := seq(|ts|, i => 0);
    var heap := OpenCursors(ts, pos);
    var out: Table := [];
    var prevKey, first := 0, true;
    while heap != {}
      invariant |pos| == |ts| && forall i :: 0 <= i < |ts| ==> pos[i] <= |ts[i]|
      invariant HeapOf(heap, ts, pos)
      invariant Answered(ts, pos, out, Frontier(first, prevKey))
      decreases Remaining(ts, pos)
    {
      ghost var frontier := Frontier(first, prevKey);
      var top := Top(heap);
      var i := top.table;
      var duplicate := !first && top.key == prevKey;
      if !duplicate {
        var v := ts[i][pos[i]].value;
        FrontierMoves(ts, pos, heap, out, frontier, top, if v == [] then out else out + [Entry(top.key, v)]);
        if v != [] {
          match WriterAdd(out, top.key, v)
          case Ok(longer) => out := longer;
          case Err(e) => return Err(e);
        }
      }
      prevKey, first := top.key, false;
      RemainingStep(ts, pos, i);
      CursorMoves(ts, pos, heap, frontier, top);
      pos, heap := Advance(ts, pos, heap, top);
    }
    forall k: Key ensures Lookup(out, k) == Lookup(Compacted(ts), k) {
      Exhausted(ts, pos, out, Frontier(first, prevKey), k);
      CompactedLookup(ts, k);
    }
    CompactedLookup(ts, 0);
    LookupsDetermineTable(out, Compacted(ts));
    r := Ok(out);
  }

  /** Advancing the popped cursor keeps consumed keys below the new frontier. */
  lemma CursorMoves(ts: seq<Table>, pos: seq<nat>, heap: set<HeapEntry>, frontier: int, top: HeapEntry)
    requires |pos| == |ts| && (forall i :: 0 <= i < |ts| ==> pos[i] <= |ts[i]| && Ascending(ts[i]))
    requires HeapOf(heap, ts, pos) && top in heap && (forall e :: e in heap ==> Before(top, e))
    requires forall i, j :: 0 <= i < |ts| && 0 <= j < pos[i] ==> ts[i][j].key <= frontier
    requires frontier <= top.key
    ensures var next := pos[top.table := pos[top.table] + 1];
            (forall i, j :: 0 <= i < |ts| && 0 <= j < next[i] ==> ts[i][j].key <= top.key) &&
            (forall i, j :: 0 <= i < |ts| && next[i] <= j < |ts[i]| ==> ts[i][j].key >= top.key)
  {
    forall i, j | 0 <= i < |ts| && pos[i] <= j < |ts[i]| ensures ts[i][j].key >= top.key {
      TopIsLeast(ts, pos, heap, top, i, j);
    }
  }

  lemma Exhausted(ts: seq<Table>, pos: seq<nat>, out: Table, frontier: int, k: Key)
    requires |pos| == |ts| && (forall i :: 0 <= i < |ts| ==> pos[i] <= |ts[i]|)
    requires HeapOf({}, ts, pos) && Answered(ts, pos, out, frontier)
    ensures Lookup(out, k) == Merged(ts, k)
  {
    if k > frontier {
      forall i | 0 <= i < |ts| ensures Lookup(ts[i], k) == None {
        assert pos[i] == |ts[i]|;
        LookupNone(ts[i], k);
      }
      FirstHitNone(ts, k);
      LookupNone(out, k);
    }
  }
}
