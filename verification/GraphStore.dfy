/** The knowledge graph: adjacency and reverse adjacency changed in place, and its
    recovery from a snapshot and a log. */
module GraphStores {
  import opened Common

  type Id = Key

  datatype Edge = Edge(from: Id, to: Id, kind: nat, weight: nat, at: nat)

  datatype Op = AddEdge(edge: Edge) | RemoveEdge(id: Id)

  type Adjacency = map<Id, seq<Edge>>
  type Reverse = map<Id, seq<Id>>

  /** Related, SameSession, Temporal and Entity edges are kept in both directions. */
  predicate Undirected(kind: nat) {
    kind == 0 || kind == 5 || kind == 8 || kind == 9
  }

  function Flip(e: Edge): Edge {
    e.(from := e.to, to := e.from)
  }

  predicate SameKey(a: Edge, b: Edge) {
    a.from == b.from && a.to == b.to && a.kind == b.kind
  }

  // ---- The graph as a set of edges ----

  ghost function Put1(s: set<Edge>, e: Edge): set<Edge> {
    (set x | x in s && !SameKey(x, e)) + {e}
  }

  ghost function Put(s: set<Edge>, e: Edge): set<Edge> {
    if Undirected(e.kind) then Put1(Put1(s, e), Flip(e)) else Put1(s, e)
  }

  ghost function Drop(s: set<Edge>, id: Id): set<Edge> {
    set x | x in s && x.from != id && x.to != id
  }

  ghost function Step(s: set<Edge>, op: Op): set<Edge> {
    match op
    case AddEdge(e) => Put(s, e)
    case RemoveEdge(id) => Drop(s, id)
  }

  ghost function Run(s: set<Edge>, log: seq<Op>): set<Edge>
    decreases |log|
  {
    if log == [] then s else Step(Run(s, log[..|log| - 1]), log[|log| - 1])
  }

  /** Adding an edge sets weight and time of its source, target and type, of the kinds 0, 5, 8 and 9
      in both directions, and leaves every other edge alone. */
  lemma PutExactly(s: set<Edge>, e: Edge, x: Edge)
    ensures x in Put(s, e) <==>
            || x == e
            || (e.kind in {0, 5, 8, 9} && x == Edge(e.to, e.from, e.kind, e.weight, e.at))
            || (x in s && !(x.from == e.from && x.to == e.to && x.kind == e.kind) &&
                !(e.kind in {0, 5, 8, 9} && x.from == e.to && x.to == e.from && x.kind == e.kind))
  {
  }

  lemma DropExactly(s: set<Edge>, id: Id, x: Edge)
    ensures x in Drop(s, id) <==> x in s && x.from != id && x.to != id
  {
  }

  function Adds(edges: seq<Edge>): seq<Op> {
    seq(|edges|, i requires 0 <= i < |edges| => AddEdge(edges[i]))
  }

  /** What opening the store on this snapshot and log yields. */
  ghost function Recovered(snapshot: seq<Edge>, log: seq<Op>): set<Edge> {
    Run(Run({}, Adds(snapshot)), log)
  }

  ghost predicate Unique(s: set<Edge>) {
    forall x, y :: x in s && y in s && SameKey(x, y) ==> x == y
  }

  ghost predicate Symmetric(s: set<Edge>) {
    forall x :: x in s && Undirected(x.kind) ==> Flip(x) in s
  }

  // ---- Replaying a log ----

  /** Whether the operation settles this edge's key, whatever was there before. */
  predicate Touches(op: Op, x: Edge) {
    match op
    case AddEdge(e) => SameKey(e, x) || (Undirected(e.kind) && SameKey(Flip(e), x))
    case RemoveEdge(id) => x.from == id || x.to == id
  }

  ghost predicate Settled(log: seq<Op>, x: Edge) {
    exists op :: op in log && Touches(op, x)
  }

  /** A log decides the keys it names, and leaves the others as they were. */
  lemma {:induction false} RunAt(s: set<Edge>, log: seq<Op>, x: Edge)
    ensures x in Run(s, log) <==> if Settled(log, x) then x in Run({}, log) else x in s
    decreases |log|
  {
    if log != [] {
      var front, op := log[..|log| - 1], log[|log| - 1];
      assert log == front + [op];
      RunAt(s, front, x);
      if !Touches(op, x) {
        assert Settled(log, x) <==> Settled(front, x);
      }
    }
  }

  /** Replaying a log over a state that already holds its effects changes nothing. */
  lemma ReplayTwice(s: set<Edge>, log: seq<Op>)
    ensures Run(Run(s, log), log) == Run(s, log)
  {
    forall x ensures x in Run(Run(s, log), log) <==> x in Run(s, log) {
      RunAt(Run(s, log), log, x);
      RunAt(s, log, x);
    }
  }

  // ---- Logging outside the lock ----

  lemma RunOne(s: set<Edge>, op: Op)
    ensures Run(s, [op]) == Step(s, op)
  {
    assert [op][..0] == [];
    assert Run(s, []) == s;
  }

  lemma RunTwo(s: set<Edge>, a: Op, b: Op)
    ensures Run(s, [a, b]) == Step(Step(s, a), b)
  {
    assert [a, b][..1] == [a];
    RunOne(s, a);
  }

  /** The operation finds nothing to do. */
  ghost predicate Idle(s: set<Edge>, op: Op) {
    match op
    case AddEdge(e) => e in s
    case RemoveEdge(id) => forall x :: x in s ==> x.from != id && x.to != id
  }

  /** An operation is logged before the store is locked to apply it.  A checkpoint that comes
      in between snapshots the graph without it and truncates the log that holds it: the disk
      recovers the graph exactly if the operation had nothing to do. */
  lemma CheckpointBetweenExactly(s: set<Edge>, op: Op, snapshot: seq<Edge>)
    requires Unique(s) && Symmetric(s) && (forall x :: x in snapshot <==> x in s)
    ensures Recovered(snapshot, []) == Run(s, [op]) <==> Idle(s, op)
  {
    SnapshotReloads(s, snapshot);
    RunOne(s, op);
    match op
    case AddEdge(e) =>
      if e in s { PutInto(s, s, e); }
      assert Undirected(e.kind) && SameKey(e, Flip(e)) ==> e == Flip(e);
      assert e in Put(s, e);
    case RemoveEdge(id) =>
      assert Drop(s, id) <= s;
  }

  /** The operations do not undo each other: edges that share a key agree on it, and an edge
      is not one that the other operation removes. */
  predicate Independent(a: Op, b: Op) {
    match a
    case AddEdge(x) =>
      (match b
       case AddEdge(y) => (SameKey(x, y) ==> x == y) && (Undirected(x.kind) && SameKey(Flip(x), y) ==> Flip(x) == y)
       case RemoveEdge(id) => x.from != id && x.to != id)
    case RemoveEdge(id) => b.AddEdge? ==> b.edge.from != id && b.edge.to != id
  }

  /** One operation, at one edge. */
  lemma StepAt(s: set<Edge>, op: Op, x: Edge)
    ensures x in Step(s, op) <==>
            if Touches(op, x) then op.AddEdge? && (x == op.edge || (Undirected(op.edge.kind) && x == Flip(op.edge)))
            else x in s
  {
  }

  /** Two operations logged in one order and applied in the other: the log describes the
      graph, whatever it was, exactly if they are independent. */
  lemma SwappedExactly(a: Op, b: Op)
    ensures (forall s :: Run(s, [a, b]) == Run(s, [b, a])) <==> Independent(a, b)
  {
    hide Step, Run;
    forall s {:trigger Run(s, [a, b])} ensures Independent(a, b) ==> Run(s, [a, b]) == Run(s, [b, a]) {
      RunTwo(s, a, b);
      RunTwo(s, b, a);
      forall x ensures Independent(a, b) ==> (x in Step(Step(s, a), b) <==> x in Step(Step(s, b), a)) {
        StepAt(Step(s, a), b, x);
        StepAt(s, a, x);
        StepAt(Step(s, b), a, x);
        StepAt(s, b, x);
      }
    }
    if !Independent(a, b) { DependentDiffer(a, b); }
  }

  lemma DependentDiffer(a: Op, b: Op)
    requires !Independent(a, b)
    ensures Run({}, [a, b]) != Run({}, [b, a])
  {
    hide Step, Run;
    RunTwo({}, a, b);
    RunTwo({}, b, a);
    var e := if a.AddEdge? then a.edge else b.edge;
    StepAt(Step({}, a), b, e);
    StepAt({}, a, e);
    StepAt(Step({}, b), a, e);
    StepAt({}, b, e);
  }

  // ---- Reloading a snapshot ----

  lemma PutInto(s: set<Edge>, t: set<Edge>, e: Edge)
    requires Unique(s) && Symmetric(s) && t <= s && e in s
    ensures t + {e} <= Put(t, e) <= s
  {
    assert Undirected(e.kind) ==> Flip(e) in s;
    forall x | x in t ensures x in Put(t, e) {
      assert SameKey(x, e) ==> x == e;
      assert Undirected(e.kind) && SameKey(x, Flip(e)) ==> x == Flip(e);
    }
  }

  lemma {:induction false} ReloadPrefix(s: set<Edge>, edges: seq<Edge>)
    requires Unique(s) && Symmetric(s) && (forall e :: e in edges ==> e in s)
    ensures (set e | e in edges) <= Run({}, Adds(edges)) <= s
  {
    if edges != [] {
      var front, e := edges[..|edges| - 1], edges[|edges| - 1];
      assert edges == front + [e] && Adds(edges)[..|edges| - 1] == Adds(front);
      ReloadPrefix(s, front);
      PutInto(s, Run({}, Adds(front)), e);
    }
  }

  /** A snapshot that lists the edges in any order reloads as exactly those edges. */
  lemma SnapshotReloads(s: set<Edge>, edges: seq<Edge>)
    requires Unique(s) && Symmetric(s) && (forall e :: e in edges <==> e in s)
    ensures Run({}, Adds(edges)) == s
  {
    ReloadPrefix(s, edges);
  }

  // ---- The adjacency lists ----

  function EdgesOf(adj: Adjacency, n: Id): seq<Edge> {
    if n in adj then adj[n] else []
  }

  function Times(rev: Reverse, t: Id, s: Id): nat {
    if t in rev then multiset(rev[t])[s] else 0
  }

  function CountTo(es: seq<Edge>, t: Id): nat {
    if es == [] then 0 else CountTo(es[..|es| - 1], t) + if es[|es| - 1].to == t then 1 else 0
  }

  function PlacesTo(es: seq<Edge>, t: Id): set<nat> {
    set i: nat | i < |es| && es[i].to == t
  }

  /** How many of the listed edges lead to this target. */
  lemma {:induction false} CountToExactly(es: seq<Edge>, t: Id)
    ensures CountTo(es, t) == |PlacesTo(es, t)|
  {
    if es != [] {
      var m := |es| - 1;
      CountToExactly(es[..m], t);
      assert PlacesTo(es, t) == PlacesTo(es[..m], t) + if es[m].to == t then {m} else {};
    }
  }

  function DropTo(es: seq<Edge>, t: Id): seq<Edge> {
    if es == [] then [] else
      DropTo(es[..|es| - 1], t) + if es[|es| - 1].to == t then [] else [es[|es| - 1]]
  }

  function KeepTo(es: seq<Edge>, t: Id): seq<Edge> {
    if es == [] then [] else
      KeepTo(es[..|es| - 1], t) + if es[|es| - 1].to == t then [es[|es| - 1]] else []
  }

  function DropId(ids: seq<Id>, id: Id): seq<Id> {
    if ids == [] then [] else
      DropId(ids[..|ids| - 1], id) + if ids[|ids| - 1] == id then [] else [ids[|ids| - 1]]
  }

  ghost function Edges(adj: Adjacency): set<Edge> {
    set n, e | n in adj && e in adj[n] :: e
  }

  /** A list holds its own node's edges, one for each target and type. */
  ghost predicate ListOf(es: seq<Edge>, n: Id) {
    && (forall i :: 0 <= i < |es| ==> es[i].from == n)
    && (forall i, j :: 0 <= i < j < |es| ==> es[i].to != es[j].to || es[i].kind != es[j].kind)
  }

  ghost predicate WellFormed(adj: Adjacency) {
    forall n :: n in adj ==> ListOf(adj[n], n)
  }

  /** reverse[t] names s exactly as often as s has edges to t. */
  ghost predicate Mirror(adj: Adjacency, rev: Reverse) {
    forall s, t :: Times(rev, t, s) == CountTo(EdgesOf(adj, s), t)
  }

  lemma InEdges(adj: Adjacency, e: Edge)
    requires WellFormed(adj)
    ensures e in Edges(adj) <==> e in EdgesOf(adj, e.from)
  {
    if e in Edges(adj) {
      var n :| n in adj && e in adj[n];
      assert ListOf(adj[n], n);
    }
  }

  lemma EdgesAreUnique(adj: Adjacency)
    requires WellFormed(adj)
    ensures Unique(Edges(adj))
  {
    forall x, y | x in Edges(adj) && y in Edges(adj) && SameKey(x, y) ensures x == y {
      InEdges(adj, x);
      InEdges(adj, y);
      assert ListOf(adj[x.from], x.from);
    }
  }

  lemma {:induction false} CountNone(es: seq<Edge>, t: Id)
    ensures CountTo(es, t) == 0 <==> forall i :: 0 <= i < |es| ==> es[i].to != t
  {
    if es != [] { CountNone(es[..|es| - 1], t); }
  }

  lemma {:induction false} CountUpdate(es: seq<Edge>, i: nat, e: Edge, t: Id)
    requires i < |es| && es[i].to == e.to
    ensures CountTo(es[i := e], t) == CountTo(es, t)
  {
    if i < |es| - 1 {
      CountUpdate(es[..|es| - 1], i, e, t);
      assert es[i := e][..|es| - 1] == es[..|es| - 1][i := e];
    } else {
      assert es[i := e][..|es| - 1] == es[..|es| - 1];
    }
  }

  lemma DropToNext(es: seq<Edge>, e: Edge, m: Id)
    ensures DropTo(es + [e], m) == DropTo(es, m) + if e.to == m then [] else [e]
  {
    assert (es + [e])[..|es|] == es;
  }

  lemma CountNext(es: seq<Edge>, e: Edge, t: Id)
    ensures CountTo(es + [e], t) == CountTo(es, t) + if e.to == t then 1 else 0
  {
    assert (es + [e])[..|es|] == es;
  }

  lemma {:induction false} DropToIs(es: seq<Edge>, n: Id, m: Id)
    requires ListOf(es, n)
    ensures ListOf(DropTo(es, m), n)
    ensures forall e :: e in DropTo(es, m) <==> e in es && e.to != m
    ensures forall t :: CountTo(DropTo(es, m), t) == if t == m then 0 else CountTo(es, t)
    ensures CountTo(es, m) == 0 ==> DropTo(es, m) == es
  {
    DropToMembers(es, m);
    forall t ensures CountTo(DropTo(es, m), t) == if t == m then 0 else CountTo(es, t) { DropToCounts(es, m, t); }
    if CountTo(es, m) == 0 { DropNothing(es, m); }
    DropToList(es, n, m);
  }

  lemma {:induction false} DropToMembers(es: seq<Edge>, m: Id)
    ensures forall e :: e in DropTo(es, m) <==> e in es && e.to != m
  {
    if es != [] {
      assert es == es[..|es| - 1] + [es[|es| - 1]];
      DropToMembers(es[..|es| - 1], m);
    }
  }

  lemma {:induction false} DropToCounts(es: seq<Edge>, m: Id, t: Id)
    ensures CountTo(DropTo(es, m), t) == if t == m then 0 else CountTo(es, t)
  {
    if es != [] {
      DropToCounts(es[..|es| - 1], m, t);
      CountNext(DropTo(es[..|es| - 1], m), es[|es| - 1], t);
      assert DropTo(es[..|es| - 1], m) + [] == DropTo(es[..|es| - 1], m);
    }
  }

  lemma {:induction false} DropNothing(es: seq<Edge>, m: Id)
    requires CountTo(es, m) == 0
    ensures DropTo(es, m) == es
  {
    if es != [] { DropNothing(es[..|es| - 1], m); }
  }

  lemma {:induction false} DropToList(es: seq<Edge>, n: Id, m: Id)
    requires ListOf(es, n)
    ensures ListOf(DropTo(es, m), n)
  {
    if es != [] {
      var front, last := es[..|es| - 1], es[|es| - 1];
      DropToList(front, n, m);
      DropToMembers(front, m);
      var kept := DropTo(front, m);
      forall i | 0 <= i < |kept| ensures kept[i].to != last.to || kept[i].kind != last.kind {
        var j :| 0 <= j < |front| && front[j] == kept[i];
        assert es[j] == front[j];
      }
    }
  }

  lemma {:induction false} KeepToTimes(es: seq<Edge>, n: Id, m: Id, e: Edge)
    requires ListOf(es, n)
    ensures multiset(KeepTo(es, m))[e] == if e in es && e.to == m then 1 else 0
  {
    if es != [] {
      var front, last := es[..|es| - 1], es[|es| - 1];
      assert es == front + [last];
      KeepToTimes(front, n, m, e);
    }
  }

  lemma {:induction false} DropIdTimes(ids: seq<Id>, id: Id, s: Id)
    ensures multiset(DropId(ids, id))[s] == if s == id then 0 else multiset(ids)[s]
  {
    if ids != [] {
      assert ids == ids[..|ids| - 1] + [ids[|ids| - 1]];
      DropIdTimes(ids[..|ids| - 1], id, s);
    }
  }

  // ---- One direction of an edge ----

  predicate SameSlot(x: Edge, e: Edge) {
    x.to == e.to && x.kind == e.kind
  }

  function Pushed(rev: Reverse, t: Id, s: Id): Reverse {
    rev[t := (if t in rev then rev[t] else []) + [s]]
  }

  ghost predicate Rewritten(adj: Adjacency, rev: Reverse, adj': Adjacency, rev': Reverse, e: Edge, i: nat) {
    var es := EdgesOf(adj, e.from);
    i < |es| && SameSlot(es[i], e) && adj' == adj[e.from := es[i := e]] && rev' == rev
  }

  ghost predicate Appended(adj: Adjacency, rev: Reverse, adj': Adjacency, rev': Reverse, e: Edge) {
    var es := EdgesOf(adj, e.from);
    && (forall i :: 0 <= i < |es| ==> !SameSlot(es[i], e))
    && adj' == adj[e.from := es + [e]] && rev' == Pushed(rev, e.to, e.from)
  }

  lemma RewrittenKeeps(adj: Adjacency, rev: Reverse, adj': Adjacency, rev': Reverse, e: Edge, i: nat)
    requires WellFormed(adj) && Mirror(adj, rev) && Rewritten(adj, rev, adj', rev', e, i)
    ensures WellFormed(adj') && Mirror(adj', rev') && Edges(adj') == Put1(Edges(adj), e)
  {
    var es := EdgesOf(adj, e.from);
    assert ListOf(es, e.from);
    assert WellFormed(adj') by {
      assert ListOf(es[i := e], e.from);
    }
    forall s, t ensures Times(rev', t, s) == CountTo(EdgesOf(adj', s), t) {
      assert Times(rev, t, s) == CountTo(EdgesOf(adj, s), t);
      if s == e.from { CountUpdate(es, i, e, t); }
    }
    forall x ensures x in Edges(adj') <==> x in Put1(Edges(adj), e) {
      InEdges(adj, x);
      InEdges(adj', x);
      assert es[i := e][i] == e;
      if x.from == e.from && !SameKey(x, e) {
        if x in es {
          var j :| 0 <= j < |es| && es[j] == x;
          assert es[i := e][j] == x;
        }
      }
    }
  }

  lemma AppendedKeeps(adj: Adjacency, rev: Reverse, adj': Adjacency, rev': Reverse, e: Edge)
    requires WellFormed(adj) && Mirror(adj, rev) && Appended(adj, rev, adj', rev', e)
    ensures WellFormed(adj') && Mirror(adj', rev') && Edges(adj') == Put1(Edges(adj), e)
  {
    AppendedMirrors(adj, rev, adj', rev', e);
    AppendedLists(adj, rev, adj', rev', e);
    var es := EdgesOf(adj, e.from);
    forall x ensures x in Edges(adj') <==> x in Put1(Edges(adj), e) {
      InEdges(adj, x);
      InEdges(adj', x);
      assert SameKey(x, e) ==> forall i :: 0 <= i < |es| ==> es[i] != x || SameSlot(es[i], e);
    }
  }

  lemma AppendedLists(adj: Adjacency, rev: Reverse, adj': Adjacency, rev': Reverse, e: Edge)
    requires WellFormed(adj) && Appended(adj, rev, adj', rev', e)
    ensures WellFormed(adj')
  {
    var es := EdgesOf(adj, e.from);
    assert ListOf(es, e.from) && ListOf(es + [e], e.from);
  }

  lemma AppendedMirrors(adj: Adjacency, rev: Reverse, adj': Adjacency, rev': Reverse, e: Edge)
    requires Mirror(adj, rev) && Appended(adj, rev, adj', rev', e)
    ensures Mirror(adj', rev')
  {
    forall s, t ensures Times(rev', t, s) == CountTo(EdgesOf(adj', s), t) {
      assert Times(rev, t, s) == CountTo(EdgesOf(adj, s), t);
      CountNext(EdgesOf(adj, e.from), e, t);
    }
  }

  lemma PutKeepsSymmetric(s: set<Edge>, e: Edge)
    requires Symmetric(s)
    ensures Symmetric(Put(s, e))
  {
    forall x | x in Put(s, e) && Undirected(x.kind) ensures Flip(x) in Put(s, e) {
      if x in s { assert Flip(x) in s && Flip(Flip(x)) == x; }
    }
  }

  // ---- Removing a node ----

  /** Every list without the node's own list and without the edges that point to it. */
  ghost predicate Detached(adj: Adjacency, adj': Adjacency, id: Id) {
    && adj'.Keys == adj.Keys - {id}
    && (forall n :: n in adj' ==> adj'[n] == DropTo(adj[n], id))
  }

  ghost predicate Unnamed(rev: Reverse, rev': Reverse, id: Id) {
    && rev'.Keys == rev.Keys - {id}
    && (forall t :: t in rev' ==> rev'[t] == DropId(rev[t], id))
  }

  lemma DetachedKeeps(adj: Adjacency, rev: Reverse, adj': Adjacency, rev': Reverse, id: Id)
    requires WellFormed(adj) && Mirror(adj, rev) && Detached(adj, adj', id) && Unnamed(rev, rev', id)
    ensures WellFormed(adj') && Mirror(adj', rev') && Edges(adj') == Drop(Edges(adj), id)
  {
    forall n | n in adj' ensures ListOf(adj'[n], n) { DropToIs(adj[n], n, id); }
    forall s, t ensures Times(rev', t, s) == CountTo(EdgesOf(adj', s), t) {
      assert Times(rev, t, s) == CountTo(EdgesOf(adj, s), t);
      if s in adj' { DropToIs(adj[s], s, id); }
      if t in rev' { DropIdTimes(rev[t], id, s); }
    }
    forall x ensures x in Edges(adj') <==> x in Drop(Edges(adj), id) {
      InEdges(adj, x);
      InEdges(adj', x);
      if x.from in adj' { DropToIs(adj[x.from], x.from, id); }
    }
  }

  /** A removed node occurs nowhere: not as a node, not as a target, not as a source. */
  lemma DetachedEverywhere(adj: Adjacency, rev: Reverse, adj': Adjacency, rev': Reverse, id: Id)
    requires WellFormed(adj) && Detached(adj, adj', id) && Unnamed(rev, rev', id)
    ensures id !in adj' && id !in rev'
    ensures forall n, e :: n in adj' && e in adj'[n] ==> e.from != id && e.to != id
    ensures forall t :: t in rev' ==> id !in rev'[t]
  {
    forall n, e | n in adj' && e in adj'[n] ensures e.from != id && e.to != id { DropToIs(adj[n], n, id); }
    forall t | t in rev' ensures id !in rev'[t] { DropIdTimes(rev[t], id, id); }
  }

  // ---- The store ----

  /** What is on disk: the last snapshot and the log written since. */
  datatype Disk = Disk(snapshot: seq<Edge>, log: seq<Op>)

  class GraphStore {
    var adjacency: Adjacency
    var reverse: Reverse
    var snapshot: seq<Edge>
    var log: seq<Op>

    ghost predicate Indexed()
      reads this
    {
      WellFormed(adjacency) && Mirror(adjacency, reverse) && Symmetric(Edges(adjacency))
    }

    /** The disk would recover the graph in memory. */
    ghost predicate Valid()
      reads this
    {
      Indexed() && Recovered(snapshot, log) == Edges(adjacency)
    }

    /** recover: whatever the disk holds, it is loaded edge by edge and replayed. */
    constructor (snapshot: seq<Edge>, log: seq<Op>)
      ensures Valid() && Edges(adjacency) == Recovered(snapshot, log)
      ensures this.snapshot == snapshot && this.log == log
    {
      adjacency, reverse, this.snapshot, this.log := map[], map[], snapshot, log;
      new;
      assert Edges(adjacency) == {};
      var i := 0;
      while i < |snapshot|
        invariant 0 <= i <= |snapshot| && Indexed()
        invariant this.snapshot == snapshot && this.log == log
        invariant Edges(adjacency) == Run({}, Adds(snapshot[..i]))
      {
        AddEdgeInternal(snapshot[i]);
        i := i + 1;
        assert Adds(snapshot[..i])[..i - 1] == Adds(snapshot[..i - 1]);
      }
      assert snapshot[..|snapshot|] == snapshot;
      i := 0;
      while i < |log|
        invariant 0 <= i <= |log| && Indexed()
        invariant this.snapshot == snapshot && this.log == log
        invariant Edges(adjacency) == Run(Run({}, Adds(snapshot)), log[..i])
      {
        match log[i] {
          case AddEdge(e) => AddEdgeInternal(e);
          case RemoveEdge(id) => Detach(id);
        }
        i := i + 1;
        assert log[..i][..i - 1] == log[..i - 1];
      }
      assert log[..|log|] == log;
    }

    /** Write one direction: update the edge of this target and type, or append one. */
    method WriteEdge(e: Edge)
      requires WellFormed(adjacency) && Mirror(adjacency, reverse)
      modifies `adjacency, `reverse
      ensures WellFormed(adjacency) && Mirror(adjacency, reverse)
      ensures Edges(adjacency) == Put1(old(Edges(adjacency)), e)
    {
      hide WellFormed, Mirror, Edges, Put1;
      ghost var adj, rev := adjacency, reverse;
      var es := EdgesOf(adjacency, e.from);
      var i := 0;
      while i < |es| && !(es[i].to == e.to && es[i].kind == e.kind)
        invariant 0 <= i <= |es| && forall j :: 0 <= j < i ==> !SameSlot(es[j], e)
      {
        i := i + 1;
      }
      if i < |es| {
        adjacency := adjacency[e.from := es[i := e]];
        RewrittenKeeps(adj, rev, adjacency, reverse, e, i);
      } else {
        adjacency := adjacency[e.from := es + [e]];
        reverse := reverse[e.to := (if e.to in reverse then reverse[e.to] else []) + [e.from]];
        AppendedKeeps(adj, rev, adjacency, reverse, e);
      }
    }

    method AddEdgeInternal(e: Edge)
      requires Indexed()
      modifies `adjacency, `reverse
      ensures Indexed() && Edges(adjacency) == Put(old(Edges(adjacency)), e)
    {
      PutKeepsSymmetric(Edges(adjacency), e);
      WriteEdge(e);
      if Undirected(e.kind) {
        WriteEdge(Flip(e));
      }
    }

    /** The log record is written first. */
    method AddEdge(e: Edge) returns (ghost between: Disk)
      requires Valid()
      modifies this
      ensures Valid() && Edges(adjacency) == Put(old(Edges(adjacency)), e)
      ensures snapshot == old(snapshot) && log == old(log) + [Op.AddEdge(e)]
      ensures between == Disk(snapshot, log)
    {
      log := log + [Op.AddEdge(e)];
      between := Disk(snapshot, log);
      assert log[..|log| - 1] == old(log);
      AddEdgeInternal(e);
    }

    method RemoveNode(id: Id) returns (ghost between: Disk)
      requires Valid()
      modifies this
      ensures Valid() && Edges(adjacency) == Drop(old(Edges(adjacency)), id)
      ensures snapshot == old(snapshot) && log == old(log) + [RemoveEdge(id)]
      ensures between == Disk(snapshot, log)
      ensures Detached(old(adjacency), adjacency, id) && Unnamed(old(reverse), reverse, id)
    {
      hide WellFormed, Mirror, Edges, Drop, Symmetric, Detached, Unnamed;
      log := log + [RemoveEdge(id)];
      between := Disk(snapshot, log);
      assert log[..|log| - 1] == old(log);
      Detach(id);
    }

    /** checkpoint: install a snapshot of every list, then truncate the log. A crash
        between the two leaves a log that is already part of the snapshot. */
    method Checkpoint() returns (ghost between: Disk)
      requires Valid()
      modifies `snapshot, `log
      ensures Valid() && log == []
      ensures between == Disk(snapshot, old(log)) && Recovered(between.snapshot, between.log) == Edges(adjacency)
    {
      var edges, pending := [], adjacency.Keys;
      while pending != {}
        invariant pending <= adjacency.Keys
        invariant forall e :: e in edges <==> exists n :: n in adjacency && n !in pending && e in adjacency[n]
        decreases |pending|
      {
        var n :| n in pending;
        pending := pending - {n};
        edges := edges + adjacency[n];
      }
      EdgesAreUnique(adjacency);
      SnapshotReloads(Edges(adjacency), edges);
      ReplayAfterSnapshot(snapshot, log, edges);
      snapshot := edges;
      between := Disk(snapshot, log);
      log := [];
    }

    /** getIncomingEdges: an edge is listed as often as its source has parallel edges here. */
    method GetIncomingEdges(id: Id) returns (result: seq<Edge>)
      requires Indexed()
      ensures forall e :: e in result <==> e in Edges(adjacency) && e.to == id
      ensures forall e :: e in Edges(adjacency) && e.to == id ==>
              multiset(result)[e] == CountTo(EdgesOf(adjacency, e.from), id)
    {
      result := [];
      if id in reverse {
        var sources, i := reverse[id], 0;
        while i < |sources|
          invariant 0 <= i <= |sources|
          invariant forall e :: multiset(result)[e] == Listed(adjacency, sources[..i], id, e)
        {
          if sources[i] in adjacency {
            result := result + KeepTo(adjacency[sources[i]], id);
          }
          ListedNext(adjacency, sources, i, id);
          i := i + 1;
        }
        assert sources[..|sources|] == sources;
      }
      forall e
        ensures multiset(result)[e] ==
                if e in EdgesOf(adjacency, e.from) && e.to == id then CountTo(EdgesOf(adjacency, e.from), id) else 0
      {
        assert Times(reverse, id, e.from) == CountTo(EdgesOf(adjacency, e.from), id);
      }
      forall e ensures e in result <==> e in Edges(adjacency) && e.to == id {
        InEdges(adjacency, e);
        CountNone(EdgesOf(adjacency, e.from), id);
      }
      forall e { InEdges(adjacency, e); }
    }

    method Detach(id: Id)
      requires Indexed()
      modifies `adjacency, `reverse
      ensures Indexed() && Edges(adjacency) == Drop(old(Edges(adjacency)), id)
      ensures Detached(old(adjacency), adjacency, id) && Unnamed(old(reverse), reverse, id)
    {
      hide WellFormed, Mirror, Edges, Drop, Symmetric;
      ghost var adj, rev := adjacency, reverse;
      adjacency := adjacency - {id};
      if id in reverse {
        DropPointers(id, reverse[id]);
        reverse := reverse - {id};
      }
      NotNamed(adj, rev, adjacency, id);
      DropSources(id);
      DetachedKeeps(adj, rev, adjacency, reverse, id);
      DropKeepsSymmetric(Edges(adj), id);
    }

    method DropPointers(id: Id, sources: seq<Id>)
      modifies `adjacency
      ensures adjacency.Keys == old(adjacency).Keys
      ensures forall n :: n in adjacency ==>
        adjacency[n] == if n in sources then DropTo(old(adjacency)[n], id) else old(adjacency)[n]
    {
      var i := 0;
      while i < |sources|
        invariant 0 <= i <= |sources| && adjacency.Keys == old(adjacency).Keys
        invariant forall n :: n in adjacency ==>
          adjacency[n] == if n in sources[..i] then DropTo(old(adjacency)[n], id) else old(adjacency)[n]
      {
        var src := sources[i];
        if src in adjacency {
          if src in sources[..i] { DropTwice(old(adjacency)[src], id); }
          adjacency := adjacency[src := DropTo(adjacency[src], id)];
        }
        i := i + 1;
        assert sources[..i] == sources[..i - 1] + [src];
      }
      assert sources[..|sources|] == sources;
    }

    method DropSources(id: Id)
      modifies `reverse
      ensures reverse.Keys == old(reverse).Keys
      ensures forall t :: t in reverse ==> reverse[t] == DropId(old(reverse)[t], id)
    {
      var pending := reverse.Keys;
      while pending != {}
        invariant pending <= reverse.Keys == old(reverse).Keys
        invariant forall t :: t in reverse ==>
          reverse[t] == if t in pending then old(reverse)[t] else DropId(old(reverse)[t], id)
        decreases |pending|
      {
        var t :| t in pending;
        reverse := reverse[t := DropId(reverse[t], id)];
        pending := pending - {t};
      }
    }
  }

  ghost function Listed(adj: Adjacency, sources: seq<Id>, id: Id, e: Edge): nat {
    if e in EdgesOf(adj, e.from) && e.to == id then multiset(sources)[e.from] else 0
  }

  lemma ListedNext(adj: Adjacency, sources: seq<Id>, i: nat, id: Id)
    requires WellFormed(adj) && i < |sources|
    ensures forall e :: Listed(adj, sources[..i + 1], id, e)
                     == Listed(adj, sources[..i], id, e) + multiset(KeepTo(EdgesOf(adj, sources[i]), id))[e]
  {
    var s := sources[i];
    assert sources[..i + 1] == sources[..i] + [s];
    assert ListOf(EdgesOf(adj, s), s);
    forall e ensures multiset(KeepTo(EdgesOf(adj, s), id))[e] == if e in EdgesOf(adj, s) && e.to == id then 1 else 0 {
      KeepToTimes(EdgesOf(adj, s), s, id, e);
    }
  }

  /** Replaying the whole log over a snapshot that already contains it is harmless. */
  lemma ReplayAfterSnapshot(snapshot: seq<Edge>, log: seq<Op>, edges: seq<Edge>)
    requires Run({}, Adds(edges)) == Recovered(snapshot, log)
    ensures Recovered(edges, log) == Recovered(snapshot, log)
  {
    ReplayTwice(Run({}, Adds(snapshot)), log);
  }

  lemma {:induction false} DropTwice(es: seq<Edge>, m: Id)
    ensures DropTo(DropTo(es, m), m) == DropTo(es, m)
  {
    if es != [] {
      var kept := DropTo(es[..|es| - 1], m);
      DropTwice(es[..|es| - 1], m);
      DropToNext(kept, es[|es| - 1], m);
      assert kept + [] == kept;
    }
  }

  lemma DropKeepsSymmetric(s: set<Edge>, id: Id)
    requires Symmetric(s)
    ensures Symmetric(Drop(s, id))
  {
  }

  /** A list that the mirror does not name holds no edge to the node. */
  lemma NotNamed(adj: Adjacency, rev: Reverse, adj': Adjacency, id: Id)
    requires WellFormed(adj) && Mirror(adj, rev)
    requires adj'.Keys == adj.Keys - {id}
    requires forall n :: n in adj' ==>
      adj'[n] == if id in rev && n in rev[id] then DropTo(adj[n], id) else adj[n]
    ensures Detached(adj, adj', id)
  {
    forall n | n in adj' ensures adj'[n] == DropTo(adj[n], id) {
      assert Times(rev, id, n) == CountTo(EdgesOf(adj, n), id);
      DropToIs(adj[n], n, id);
    }
  }
}
