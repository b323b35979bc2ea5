/** The lineage index and the breadth-first invalidation that runs over it when a
    memory is deleted. */
module Lineage {
  import opened Common

  type Id = Key

  datatype Record = Record(parents: seq<Id>, op: nat, createdAt: nat)

  datatype Verdict = Verdict(id: Id, invalidated: bool)

  /** A node pushed on the queue, with its distance from the deleted node. */
  datatype Found = Found(id: Id, depth: nat)

  /** The index as a value. */
  datatype Index = Index(records: map<Id, Record>, children: map<Id, set<Id>>, removed: set<Id>)

  function ChildrenOf(x: Index, p: Id): set<Id> {
    if p in x.children then x.children[p] else {}
  }

  function ParentsOf(x: Index, c: Id): seq<Id> {
    if c in x.records then x.records[c].parents else []
  }

  predicate HasParentOutside(x: Index, c: Id, dead: set<Id>) {
    exists q :: q in ParentsOf(x, c) && q !in dead
  }

  ghost function AllChildren(x: Index): set<Id> {
    set p, c | p in x.children && c in x.children[p] :: c
  }

  function Invalidated(results: seq<Verdict>): set<Id> {
    set r | r in results && r.invalidated :: r.id
  }

  function Ids(found: seq<Found>): set<Id> {
    set f | f in found :: f.id
  }

  // ---- What a run of propagate leaves behind, as a property of its results ----

  /** Node i hangs below the root, or below a node judged dead before it. */
  ghost predicate Hangs(x: Index, root: Id, bound: nat, results: seq<Verdict>, found: seq<Found>, i: nat)
    requires i < |found|
  {
    || (found[i].id in ChildrenOf(x, root) && found[i].depth == 1)
    || (exists j :: 0 <= j < i && j < |results| && results[j].invalidated && found[j].depth < bound &&
          found[i].id in ChildrenOf(x, found[j].id) && found[i].depth == found[j].depth + 1)
  }

  /** A node is judged dead exactly if every recorded parent is removed, the root,
      or judged dead before it. */
  ghost predicate JudgedFairly(x: Index, root: Id, results: seq<Verdict>, i: nat)
    requires i < |results|
  {
    results[i].invalidated <==> !HasParentOutside(x, results[i].id, x.removed + {root} + Invalidated(results[..i]))
  }

  ghost predicate FoundBy(found: seq<Found>, c: Id, depth: nat) {
    exists k :: 0 <= k < |found| && found[k].id == c && found[k].depth <= depth
  }

  /** The children of the root and of every dead node above the bound were found. */
  ghost predicate Complete(x: Index, root: Id, bound: nat, results: seq<Verdict>, found: seq<Found>)
    requires |results| <= |found|
  {
    && (forall c :: c in ChildrenOf(x, root) ==> FoundBy(found, c, 1))
    && (forall i :: 0 <= i < |results| && results[i].invalidated && found[i].depth < bound ==>
          forall c :: c in ChildrenOf(x, found[i].id) ==> FoundBy(found, c, found[i].depth + 1))
  }

  ghost predicate Queued(found: seq<Found>) {
    && (forall i, j :: 0 <= i < j < |found| ==> found[i].id != found[j].id)
    && (forall i, j :: 0 <= i <= j < |found| ==> found[i].depth <= found[j].depth)
  }

  ghost predicate Matches(results: seq<Verdict>, found: seq<Found>) {
    |results| <= |found| && forall i :: 0 <= i < |results| ==> results[i].id == found[i].id
  }

  /** Node k could have been queued by the node judged at j, or by the root if j is -1. */
  ghost predicate Queues(x: Index, root: Id, bound: nat, results: seq<Verdict>, found: seq<Found>, k: nat, j: int)
    requires k < |found|
  {
    || (j == -1 && found[k].id in ChildrenOf(x, root))
    || (0 <= j < |results| && j < |found| && results[j].invalidated && found[j].depth < bound &&
        found[k].id in ChildrenOf(x, found[j].id))
  }

  /** First in, first out: what an earlier node could queue comes no later in the queue. */
  ghost predicate Fifo(x: Index, root: Id, bound: nat, results: seq<Verdict>, found: seq<Found>) {
    forall i, k, j :: 0 <= i < k < |found| && Queues(x, root, bound, results, found, k, j) ==>
      QueuedBy(x, root, bound, results, found, i, j)
  }

  ghost predicate QueuedBy(x: Index, root: Id, bound: nat, results: seq<Verdict>, found: seq<Found>, i: nat, j: int)
    requires i < |found|
  {
    exists h :: h <= j && Queues(x, root, bound, results, found, i, h)
  }

  /** A breadth-first search that expands exactly the nodes judged dead above the bound. */
  ghost predicate Searched(x: Index, root: Id, bound: nat, results: seq<Verdict>, found: seq<Found>) {
    && Matches(results, found) && Queued(found)
    && (forall i :: 0 <= i < |found| ==> Hangs(x, root, bound, results, found, i))
    && Complete(x, root, bound, results, found)
    && Fifo(x, root, bound, results, found)
  }

  ghost predicate TraceOf(x: Index, root: Id, bound: nat, results: seq<Verdict>, found: seq<Found>) {
    && Searched(x, root, bound, results, found)
    && (forall i :: 0 <= i < |results| ==> JudgedFairly(x, root, results, i))
  }

  // ---- One step of the search ----

  /** The queue holds at most two depths at a time. */
  ghost predicate Narrow(found: seq<Found>, n: nat) {
    forall k :: n <= k < |found| ==> found[k].depth <= found[n].depth + 1
  }

  /** Each unseen id is queued once, at this depth. */
  ghost predicate Adds(unseen: set<Id>, depth: nat, pushed: seq<Found>) {
    && (forall i :: 0 <= i < |pushed| ==> pushed[i].depth == depth && pushed[i].id in unseen)
    && (forall i, j :: 0 <= i < j < |pushed| ==> pushed[i].id != pushed[j].id)
    && (forall c :: c in unseen ==> Found(c, depth) in pushed)
  }

  /** What judging one node adds to the queue: its children not seen before, if it is expanded. */
  ghost predicate StepAdds(x: Index, bound: nat, v: Verdict, depth: nat, found: seq<Found>, pushed: seq<Found>) {
    if v.invalidated && depth < bound then Adds(ChildrenOf(x, v.id) - Ids(found), depth + 1, pushed) else pushed == []
  }

  lemma StepKeepsQueue(x: Index, bound: nat, n: nat, v: Verdict, found: seq<Found>, pushed: seq<Found>)
    requires Queued(found) && n < |found| && Narrow(found, n)
    requires StepAdds(x, bound, v, found[n].depth, found, pushed)
    ensures Queued(found + pushed) && Narrow(found + pushed, n + 1)
  {
    forall i, j | 0 <= i < j < |found + pushed| ensures (found + pushed)[i].id != (found + pushed)[j].id {
      if i < |found| <= j { assert found[i].id in Ids(found); }
    }
  }

  lemma StepKeepsHangs(x: Index, root: Id, bound: nat, results: seq<Verdict>, found: seq<Found>, v: Verdict,
                       pushed: seq<Found>, i: nat)
    requires Matches(results, found) && |results| < |found| && v.id == found[|results|].id
    requires StepAdds(x, bound, v, found[|results|].depth, found, pushed)
    requires i < |found + pushed| && (i < |found| ==> Hangs(x, root, bound, results, found, i))
    ensures Hangs(x, root, bound, results + [v], found + pushed, i)
  {
    if i < |found| {
      if !(found[i].id in ChildrenOf(x, root) && found[i].depth == 1) {
        var j :| 0 <= j < i && j < |results| && results[j].invalidated && found[j].depth < bound &&
          found[i].id in ChildrenOf(x, found[j].id) && found[i].depth == found[j].depth + 1;
        assert (results + [v])[j] == results[j];
      }
    } else {
      assert (results + [v])[|results|] == v && (found + pushed)[|results|] == found[|results|];
    }
  }

  lemma FoundStays(found: seq<Found>, pushed: seq<Found>, c: Id, depth: nat)
    requires FoundBy(found, c, depth)
    ensures FoundBy(found + pushed, c, depth)
  {
    var k :| 0 <= k < |found| && found[k].id == c && found[k].depth <= depth;
    assert (found + pushed)[k] == found[k];
  }

  lemma StepKeepsComplete(x: Index, root: Id, bound: nat, results: seq<Verdict>, found: seq<Found>, v: Verdict,
                          pushed: seq<Found>)
    requires Matches(results, found) && |results| < |found| && v.id == found[|results|].id
    requires Complete(x, root, bound, results, found) && Narrow(found, |results|) && Queued(found)
    requires StepAdds(x, bound, v, found[|results|].depth, found, pushed)
    ensures Complete(x, root, bound, results + [v], found + pushed)
  {
    forall c | c in ChildrenOf(x, root) ensures FoundBy(found + pushed, c, 1) { FoundStays(found, pushed, c, 1); }
    forall i, c | 0 <= i <= |results| && (results + [v])[i].invalidated && found[i].depth < bound &&
           c in ChildrenOf(x, found[i].id)
      ensures FoundBy(found + pushed, c, found[i].depth + 1)
    {
      if i < |results| {
        assert (results + [v])[i] == results[i];
        FoundStays(found, pushed, c, found[i].depth + 1);
      } else if c in Ids(found) {
        var f :| f in found && f.id == c;
        var k :| 0 <= k < |found| && found[k] == f;
        assert (found + pushed)[k] == f && (k < i ==> found[k].depth <= found[i].depth);
      } else {
        var k :| 0 <= k < |pushed| && pushed[k] == Found(c, found[i].depth + 1);
        assert (found + pushed)[|found| + k] == pushed[k];
      }
    }
  }

  lemma QueuedByHangs(x: Index, root: Id, bound: nat, results: seq<Verdict>, found: seq<Found>, i: nat)
    requires Matches(results, found) && i < |found| && Hangs(x, root, bound, results, found, i)
    ensures QueuedBy(x, root, bound, results, found, i, |results| - 1)
  {
    if found[i].id in ChildrenOf(x, root) && found[i].depth == 1 {
      assert Queues(x, root, bound, results, found, i, -1);
    } else {
      var j :| 0 <= j < i && j < |results| && results[j].invalidated && found[j].depth < bound &&
        found[i].id in ChildrenOf(x, found[j].id) && found[i].depth == found[j].depth + 1;
      assert Queues(x, root, bound, results, found, i, j);
    }
  }

  lemma QueuesStays(x: Index, root: Id, bound: nat, results: seq<Verdict>, found: seq<Found>, v: Verdict,
                    pushed: seq<Found>, k: nat, j: int)
    requires |results| < |found| && v.id == found[|results|].id && k < |found| && j < |results|
    ensures Queues(x, root, bound, results + [v], found + pushed, k, j) <==>
            Queues(x, root, bound, results, found, k, j)
  {
  }

  /** Nothing judged before could have queued what is queued only now. */
  lemma QueuesNew(x: Index, root: Id, bound: nat, results: seq<Verdict>, found: seq<Found>, v: Verdict,
                  pushed: seq<Found>, k: nat, j: int)
    requires Matches(results, found) && Complete(x, root, bound, results, found) && |results| < |found| &&
             v.id == found[|results|].id
    requires StepAdds(x, bound, v, found[|results|].depth, found, pushed)
    requires |found| <= k < |found + pushed| && Queues(x, root, bound, results + [v], found + pushed, k, j)
    ensures j == |results|
  {
    var c := (found + pushed)[k].id;
    assert c !in Ids(found) by { assert c == pushed[k - |found|].id; }
    if j < |results| { ExpandedIsFound(x, root, bound, results, found, c, j); }
  }

  lemma ExpandedIsFound(x: Index, root: Id, bound: nat, results: seq<Verdict>, found: seq<Found>, c: Id, j: int)
    requires |results| <= |found| && Complete(x, root, bound, results, found)
    requires (j == -1 && c in ChildrenOf(x, root)) ||
             (0 <= j < |results| && results[j].invalidated && found[j].depth < bound && c in ChildrenOf(x, found[j].id))
    ensures c in Ids(found)
  {
    var d := if j == -1 then 1 else found[j].depth + 1;
    assert FoundBy(found, c, d);
    var i :| 0 <= i < |found| && found[i].id == c && found[i].depth <= d;
    assert found[i] in found;
  }

  lemma StepKeepsFifo(x: Index, root: Id, bound: nat, results: seq<Verdict>, found: seq<Found>, v: Verdict,
                      pushed: seq<Found>)
    requires Searched(x, root, bound, results, found) && |results| < |found| && v.id == found[|results|].id
    requires StepAdds(x, bound, v, found[|results|].depth, found, pushed)
    ensures Fifo(x, root, bound, results + [v], found + pushed)
  {
    var n, results', found' := |results|, results + [v], found + pushed;
    forall i, k, j | 0 <= i < k < |found'| && Queues(x, root, bound, results', found', k, j)
      ensures QueuedBy(x, root, bound, results', found', i, j)
    {
      if k >= |found| { QueuesNew(x, root, bound, results, found, v, pushed, k, j); }
      if i >= |found| {
        assert found'[i] == pushed[i - |found|] && results'[n] == v && found'[n] == found[n];
        assert Queues(x, root, bound, results', found', i, n);
      } else {
        if k < |found| && j < n {
          QueuesStays(x, root, bound, results, found, v, pushed, k, j);
          assert QueuedBy(x, root, bound, results, found, i, j);
        } else {
          assert j == n;
          QueuedByHangs(x, root, bound, results, found, i);
        }
        var m := if k < |found| && j < n then j else n - 1;
        var h :| h <= m && Queues(x, root, bound, results, found, i, h);
        QueuesStays(x, root, bound, results, found, v, pushed, i, h);
      }
    }
  }

  lemma StepKeeps(x: Index, root: Id, bound: nat, results: seq<Verdict>, found: seq<Found>, v: Verdict,
                  pushed: seq<Found>)
    requires Searched(x, root, bound, results, found) && |results| < |found| && v.id == found[|results|].id
    requires Narrow(found, |results|)
    requires StepAdds(x, bound, v, found[|results|].depth, found, pushed)
    ensures Searched(x, root, bound, results + [v], found + pushed) && Narrow(found + pushed, |results| + 1)
  {
    StepKeepsQueue(x, bound, |results|, v, found, pushed);
    forall i | 0 <= i < |found + pushed| ensures Hangs(x, root, bound, results + [v], found + pushed, i) {
      StepKeepsHangs(x, root, bound, results, found, v, pushed, i);
    }
    StepKeepsComplete(x, root, bound, results, found, v, pushed);
    StepKeepsFifo(x, root, bound, results, found, v, pushed);
  }

  lemma Seeded(x: Index, root: Id, bound: nat, found: seq<Found>)
    requires Adds(ChildrenOf(x, root), 1, found)
    ensures Searched(x, root, bound, [], found) && Narrow(found, 0)
  {
    forall c | c in ChildrenOf(x, root) ensures FoundBy(found, c, 1) { assert Found(c, 1) in found; }
    forall i, j | 0 <= i < |found| && -1 <= j ensures QueuedBy(x, root, bound, [], found, i, j) {
      assert Queues(x, root, bound, [], found, i, -1);
    }
  }

  lemma JudgedOnce(x: Index, root: Id, results: seq<Verdict>, v: Verdict, i: nat)
    requires i <= |results|
    requires if i < |results| then JudgedFairly(x, root, results, i)
             else v.invalidated <==> !HasParentOutside(x, v.id, x.removed + {root} + Invalidated(results))
    ensures JudgedFairly(x, root, results + [v], i)
  {
    assert (results + [v])[..i] == results[..i] && results[..|results|] == results;
  }

  lemma JudgedAll(x: Index, root: Id, results: seq<Verdict>, v: Verdict)
    requires forall i :: 0 <= i < |results| ==> JudgedFairly(x, root, results, i)
    requires v.invalidated <==> !HasParentOutside(x, v.id, x.removed + {root} + Invalidated(results))
    ensures forall i :: 0 <= i <= |results| ==> JudgedFairly(x, root, results + [v], i)
  {
    forall i | 0 <= i <= |results| ensures JudgedFairly(x, root, results + [v], i) {
      JudgedOnce(x, root, results, v, i);
    }
  }

  lemma HangsDeep(x: Index, root: Id, bound: nat, results: seq<Verdict>, found: seq<Found>, i: nat)
    requires Searched(x, root, bound, results, found) && i < |found|
    ensures found[i].depth >= 1
  {
    assert Hangs(x, root, bound, results, found, i);
  }

  lemma ChildrenAmongAll(x: Index, p: Id)
    ensures ChildrenOf(x, p) <= AllChildren(x)
  {
  }

  lemma AddedIds(unseen: set<Id>, depth: nat, pushed: seq<Found>)
    requires Adds(unseen, depth, pushed)
    ensures Ids(pushed) == unseen && (pushed == [] <==> unseen == {})
  {
    if pushed != [] { assert pushed[0].id in unseen; }
  }

  lemma Shrinks(all: set<Id>, todo: set<Id>, visited: set<Id>)
    requires todo <= all
    ensures if todo - visited == {} then all - (visited + todo) == all - visited
            else all - (visited + todo) < all - visited
  {
    if todo - visited == {} {
      forall c | c in todo ensures c in visited {
        assert c in visited || c in todo - visited;
      }
      assert visited + todo == visited;
    } else {
      var c :| c in todo - visited;
      assert c in all - visited && c !in all - (visited + todo);
    }
  }

  lemma NothingYet()
    ensures Invalidated([]) == {} && Ids([]) == {}
  {
  }

  lemma InvalidatedMore(results: seq<Verdict>, v: Verdict)
    ensures Invalidated(results + [v]) == Invalidated(results) + if v.invalidated then {v.id} else {}
  {
    assert forall r :: r in results + [v] <==> r in results || r == v;
  }

  lemma IdsMore(found: seq<Found>, pushed: seq<Found>)
    ensures Ids(found + pushed) == Ids(found) + Ids(pushed)
  {
    assert forall f :: f in found + pushed <==> f in found || f in pushed;
  }

  /** Queue every child not seen before. */
  method PushChildren(todo: set<Id>, depth: nat, visited: set<Id>) returns (visited': set<Id>, pushed: seq<Found>)
    ensures visited' == visited + todo
    ensures Adds(todo - visited, depth, pushed)
  {
    visited', pushed := visited, [];
    var pending := todo;
    while pending != {}
      invariant pending <= todo && visited' == visited + (todo - pending)
      invariant Adds(todo - pending - visited, depth, pushed)
      decreases |pending|
    {
      var c :| c in pending;
      pending := pending - {c};
      if c !in visited' {
        pushed := pushed + [Found(c, depth)];
      }
      visited' := visited' + {c};
    }
  }

  /** The ids reachable over child links in one to n steps. */
  ghost function Reach(x: Index, root: Id, n: nat): set<Id> {
    if n == 0 then {}
    else
      ChildrenOf(x, root) + Reach(x, root, n - 1) +
      (set b, c | b in Reach(x, root, n - 1) && c in ChildrenOf(x, b) :: c)
  }

  /** The index without the links into the root: the search never reports its own start. */
  function Pruned(x: Index, root: Id): Index {
    x.(children := map p | p in x.children :: x.children[p] - {root})
  }

  lemma PrunedChildren(x: Index, root: Id, p: Id)
    ensures ChildrenOf(Pruned(x, root), p) == ChildrenOf(x, p) - {root}
  {
  }

  lemma ReachStep(x: Index, root: Id, n: nat, c: Id)
    requires n > 0
    ensures c in Reach(x, root, n) <==>
            c in ChildrenOf(x, root) || c in Reach(x, root, n - 1) ||
            exists b :: b in Reach(x, root, n - 1) && c in ChildrenOf(x, b)
  {
  }

  lemma {:induction false} PrunedReach(x: Index, root: Id, n: nat)
    ensures Reach(Pruned(x, root), root, n) == Reach(x, root, n) - {root}
  {
    hide Reach, ChildrenOf, Pruned;
    var y := Pruned(x, root);
    if n == 0 {
      NothingReached(x, root);
      NothingReached(y, root);
    } else {
      PrunedReach(x, root, n - 1);
      forall c ensures c in Reach(y, root, n) <==> c in Reach(x, root, n) - {root} {
        ReachStep(x, root, n, c);
        ReachStep(y, root, n, c);
        forall p { PrunedChildren(x, root, p); }
        if b :| b in Reach(x, root, n - 1) && c in ChildrenOf(x, b) {
          assert b == root || b in Reach(y, root, n - 1);
        }
      }
    }
  }

  lemma NothingReached(x: Index, root: Id)
    ensures Reach(x, root, 0) == {}
  {
  }

  lemma {:induction false} ReachGrows(x: Index, root: Id, n: nat, m: nat)
    requires n <= m
    ensures Reach(x, root, n) <= Reach(x, root, m)
  {
    if n < m { ReachGrows(x, root, n, m - 1); }
  }

  lemma {:induction false} FoundIsReached(x: Index, root: Id, bound: nat, results: seq<Verdict>, found: seq<Found>,
                                          i: nat)
    requires Searched(x, root, bound, results, found) && i < |found| && bound >= 1
    ensures found[i].depth <= bound && found[i].id in Reach(x, root, found[i].depth)
  {
    hide Searched, Reach;
    var top, j := HangsWhere(x, root, bound, results, found, i);
    if !top { FoundIsReached(x, root, bound, results, found, j); }
    ReachStep(x, root, found[i].depth, found[i].id);
  }

  lemma {:induction false} ReachedIsFound(x: Index, root: Id, bound: nat, results: seq<Verdict>, found: seq<Found>,
                                          n: nat, c: Id)
    requires Searched(x, root, bound, results, found) && |results| == |found| && n <= bound
    requires forall i :: 0 <= i < |results| ==> results[i].invalidated
    requires c in Reach(x, root, n)
    ensures exists k :: 0 <= k < |found| && found[k].id == c && found[k].depth <= n
  {
    hide Searched, Reach;
    if n == 0 { NothingReached(x, root); }
    ReachStep(x, root, n, c);
    if c in ChildrenOf(x, root) {
      var k := FoundUnder(x, root, bound, results, found, true, 0, c);
    } else if c in Reach(x, root, n - 1) {
      ReachedIsFound(x, root, bound, results, found, n - 1, c);
    } else {
      var b :| b in Reach(x, root, n - 1) && c in ChildrenOf(x, b);
      ReachedIsFound(x, root, bound, results, found, n - 1, b);
      var j :| 0 <= j < |found| && found[j].id == b && found[j].depth <= n - 1;
      var k := FoundUnder(x, root, bound, results, found, false, j, c);
    }
  }

  /** A search that expands every node finds exactly what is reachable. */
  lemma SearchReaches(x: Index, root: Id, bound: nat, results: seq<Verdict>, found: seq<Found>)
    requires Searched(x, root, bound, results, found) && |results| == |found| && bound >= 1
    requires forall i :: 0 <= i < |results| ==> results[i].invalidated
    ensures Ids(found) == Reach(x, root, bound)
  {
    forall c | c in Ids(found) ensures c in Reach(x, root, bound) {
      var i :| 0 <= i < |found| && found[i].id == c;
      FoundIsReached(x, root, bound, results, found, i);
      ReachGrows(x, root, found[i].depth, bound);
    }
    forall c | c in Reach(x, root, bound) ensures c in Ids(found) {
      ReachedIsFound(x, root, bound, results, found, bound, c);
    }
  }

  // ---- Reachability is by paths ----

  ghost predicate Path(x: Index, path: seq<Id>) {
    forall i :: 0 <= i < |path| - 1 ==> path[i + 1] in ChildrenOf(x, path[i])
  }

  lemma {:induction false} ReachedByPath(x: Index, root: Id, n: nat, v: Id) returns (path: seq<Id>)
    requires v in Reach(x, root, n)
    ensures 2 <= |path| <= n + 1 && path[0] == root && path[|path| - 1] == v && Path(x, path)
  {
    if v in ChildrenOf(x, root) {
      path := [root, v];
    } else if v in Reach(x, root, n - 1) {
      path := ReachedByPath(x, root, n - 1, v);
    } else {
      var b :| b in Reach(x, root, n - 1) && v in ChildrenOf(x, b);
      path := ReachedByPath(x, root, n - 1, b);
      path := path + [v];
    }
  }

  lemma {:induction false} PathReaches(x: Index, root: Id, n: nat, path: seq<Id>)
    requires 2 <= |path| <= n + 1 && path[0] == root && Path(x, path)
    ensures path[|path| - 1] in Reach(x, root, n)
    decreases n
  {
    var m := |path| - 1;
    assert path[m - 1 + 1] in ChildrenOf(x, path[m - 1]);
    if m > 1 { PathReaches(x, root, n - 1, path[..m]); }
  }

  ghost predicate HasPath(x: Index, root: Id, n: nat, v: Id) {
    exists path :: 2 <= |path| <= n + 1 && path[0] == root && path[|path| - 1] == v && Path(x, path)
  }

  /** An id is reachable within n exactly if a path of at most n links leads to it. */
  lemma ReachIsByPath(x: Index, root: Id, n: nat, v: Id)
    ensures v in Reach(x, root, n) <==> HasPath(x, root, n, v)
  {
    if v in Reach(x, root, n) { var path := ReachedByPath(x, root, n, v); }
    if HasPath(x, root, n, v) {
      var path :| 2 <= |path| <= n + 1 && path[0] == root && path[|path| - 1] == v && Path(x, path);
      PathReaches(x, root, n, path);
    }
  }

  function IdList(found: seq<Found>): seq<Id> {
    seq(|found|, i requires 0 <= i < |found| => found[i].id)
  }

  lemma ListedOnce(x: Index, root: Id, bound: nat, results: seq<Verdict>, found: seq<Found>)
    requires Searched(x, root, bound, results, found)
    ensures forall i, j :: 0 <= i < j < |found| ==> IdList(found)[i] != IdList(found)[j]
    ensures forall v :: v in IdList(found) <==> v in Ids(found)
  {
    forall v | v in Ids(found) ensures v in IdList(found) {
      var i :| 0 <= i < |found| && found[i].id == v;
      assert IdList(found)[i] == v;
    }
  }

  // ---- The two sides of the index ----

  function Linked(children: map<Id, set<Id>>, child: Id, parents: seq<Id>): map<Id, set<Id>>
    decreases |parents|
  {
    if parents == [] then children
    else
      var done, p := Linked(children, child, parents[..|parents| - 1]), parents[|parents| - 1];
      done[p := (if p in done then done[p] else {}) + {child}]
  }

  function Recorded(x: Index, child: Id, parents: seq<Id>, op: nat, now: nat): Index {
    x.(records := x.records[child := Record(parents, op, now)], children := Linked(x.children, child, parents))
  }

  function ChildrenLeft(x: Index, id: Id, p: Id): set<Id> {
    if p == id then {} else ChildrenOf(x, p) - if p in ParentsOf(x, id) then {id} else {}
  }

  /** Every link is backed by the child's own record. */
  ghost predicate Backed(x: Index) {
    forall p, c :: c in ChildrenOf(x, p) ==> p in ParentsOf(x, c)
  }

  lemma {:induction false} LinkedChildren(x: Index, child: Id, parents: seq<Id>, p: Id)
    ensures ChildrenOf(x.(children := Linked(x.children, child, parents)), p)
         == ChildrenOf(x, p) + if p in parents then {child} else {}
    decreases |parents|
  {
    if parents != [] {
      var front, q := parents[..|parents| - 1], parents[|parents| - 1];
      assert parents == front + [q];
      LinkedChildren(x, child, front, p);
    }
  }

  /** Recording replaces the record of the child, adds a link from each parent it names, and
      changes no other record and no other link. */
  lemma RecordedExactly(x: Index, child: Id, parents: seq<Id>, op: nat, now: nat, c: Id, p: Id)
    ensures var y := Recorded(x, child, parents, op, now);
            && RecordAt(y, c) == (if c == child then Some(Record(parents, op, now)) else RecordAt(x, c))
            && (c in ChildrenOf(y, p) <==> c in ChildrenOf(x, p) || (c == child && p in parents))
            && y.removed == x.removed
  {
    LinkedChildren(x, child, parents, p);
  }

  /** Every link is backed by a record, and every record is linked. */
  ghost predicate Exact(x: Index) {
    forall p, c :: c in ChildrenOf(x, p) <==> p in ParentsOf(x, c)
  }

  lemma NothingLinked(gone: set<Id>)
    ensures Exact(Index(map[], map[], gone))
  {
  }

  lemma RecordKeepsExact(x: Index, child: Id, parents: seq<Id>, op: nat, now: nat)
    requires Exact(x) && child !in x.records
    ensures Exact(Recorded(x, child, parents, op, now))
  {
    var y := Recorded(x, child, parents, op, now);
    forall p, c ensures c in ChildrenOf(y, p) <==> p in ParentsOf(y, c) {
      LinkedChildren(x, child, parents, p);
      assert c in ChildrenOf(x, p) <==> p in ParentsOf(x, c);
      assert ParentsOf(y, c) == if c == child then parents else ParentsOf(x, c);
    }
  }

  /** A checkpoint keeps records and removed ids but no links.  Reloading it gives the
      same index exactly if the links were exact. */
  lemma ReloadKeepsLinksExactly(x: Index, y: Index)
    requires Exact(y) && y.records == x.records
    ensures (forall p :: ChildrenOf(y, p) == ChildrenOf(x, p)) <==> Exact(x)
  {
    assert forall c :: ParentsOf(y, c) == ParentsOf(x, c);
    if Exact(x) {
      forall p ensures ChildrenOf(y, p) == ChildrenOf(x, p) {
        forall c ensures c in ChildrenOf(y, p) <==> c in ChildrenOf(x, p) {
          assert c in ChildrenOf(y, p) <==> p in ParentsOf(y, c);
          assert c in ChildrenOf(x, p) <==> p in ParentsOf(x, c);
        }
      }
    }
    if forall p :: ChildrenOf(y, p) == ChildrenOf(x, p) {
      forall p, c ensures c in ChildrenOf(x, p) <==> p in ParentsOf(x, c) {
        assert c in ChildrenOf(y, p) <==> p in ParentsOf(y, c);
      }
    }
  }

  /** Removing a node drops its links but leaves it in its children's records, so the
      links stay exact exactly if it had no children. */
  lemma RemoveKeepsExactExactly(x: Index, id: Id, y: Index)
    requires Exact(x) && y.records == x.records - {id}
    requires forall p :: ChildrenOf(y, p) == ChildrenLeft(x, id, p)
    ensures Exact(y) <==> forall c :: c in ChildrenOf(x, id) ==> c == id
  {
    forall c ensures ParentsOf(y, c) == if c == id then [] else ParentsOf(x, c) { }
    if forall c :: c in ChildrenOf(x, id) ==> c == id {
      forall p, c ensures c in ChildrenOf(y, p) <==> p in ParentsOf(y, c) {
        assert c in ChildrenOf(x, p) <==> p in ParentsOf(x, c);
        assert id in ChildrenOf(x, p) <==> p in ParentsOf(x, id);
      }
    } else {
      var c :| c in ChildrenOf(x, id) && c != id;
      assert id in ParentsOf(x, c) && c !in ChildrenOf(y, id);
      assert !(c in ChildrenOf(y, id) <==> id in ParentsOf(y, c));
    }
  }

  /** Recording lineage keeps every link backed exactly if no parent of an older record
      for the same child is dropped. */
  lemma RecordKeepsBackedExactly(x: Index, child: Id, parents: seq<Id>, op: nat, now: nat)
    requires Backed(x)
    ensures Backed(Recorded(x, child, parents, op, now)) <==>
            (forall p :: p in x.children && child in x.children[p] ==> p in parents)
  {
    var y := Recorded(x, child, parents, op, now);
    forall p ensures ChildrenOf(y, p) == ChildrenOf(x, p) + if p in parents then {child} else {} {
      LinkedChildren(x, child, parents, p);
    }
    if Backed(y) {
      forall p | p in x.children && child in x.children[p] ensures p in parents {
        assert child in ChildrenOf(y, p) && p in ParentsOf(y, child);
      }
    }
    if forall p :: p in x.children && child in x.children[p] ==> p in parents {
      forall p, c | c in ChildrenOf(y, p) ensures p in ParentsOf(y, c) {
        if c == child {
          assert p in parents || child in ChildrenOf(x, p);
        } else {
          assert c in ChildrenOf(x, p) && p in ParentsOf(x, c) && ParentsOf(y, c) == ParentsOf(x, c);
        }
      }
    }
  }

  /** Removing a node keeps every link backed, and the node is left in no link. */
  lemma RemoveKeepsBacked(x: Index, id: Id, y: Index)
    requires Backed(x)
    requires y.records == x.records - {id} && y.removed == x.removed + {id}
    requires forall p :: ChildrenOf(y, p) == ChildrenLeft(x, id, p)
    ensures Backed(y) && ChildrenOf(y, id) == {} && forall p :: id !in ChildrenOf(y, p)
  {
    forall p ensures id !in ChildrenOf(y, p) { assert id in ChildrenOf(x, p) ==> p in ParentsOf(x, id); }
    forall p, c | c in ChildrenOf(y, p) ensures p in ParentsOf(y, c) {
      assert c != id && c in ChildrenOf(x, p);
      assert p in ParentsOf(x, c) && c in y.records && y.records[c] == x.records[c];
    }
  }

  // ---- The log of the index ----

  datatype LogOp = RecordOp(child: Id, parents: seq<Id>, op: nat, at: nat) | RemoveOp(id: Id) | MarkOp(id: Id)

  /** What a logged operation does to the index. */
  function Replayed(x: Index, o: LogOp): Index {
    match o
    case RecordOp(child, parents, op, at) => Recorded(x, child, parents, op, at)
    case RemoveOp(id) =>
      Index(x.records - {id}, map p | p in x.children && p != id :: ChildrenLeft(x, id, p), x.removed + {id})
    case MarkOp(id) => x.(removed := x.removed + {id})
  }

  function ReplayedAll(x: Index, log: seq<LogOp>): Index
    decreases |log|
  {
    if log == [] then x else Replayed(ReplayedAll(x, log[..|log| - 1]), log[|log| - 1])
  }

  function RecordAt(x: Index, c: Id): Option<Record> {
    if c in x.records then Some(x.records[c]) else None
  }

  predicate Names(o: LogOp, c: Id) {
    (o.RecordOp? && o.child == c) || (o.RemoveOp? && o.id == c)
  }

  ghost predicate NamedIn(log: seq<LogOp>, c: Id) {
    exists o :: o in log && Names(o, c)
  }

  ghost predicate GoneIn(log: seq<LogOp>, c: Id) {
    exists o :: o in log && !o.RecordOp? && o.id == c
  }

  /** A log decides the records it names, whatever was there, and adds the ids it removes. */
  lemma {:induction false} ReplayedAt(x: Index, y: Index, log: seq<LogOp>, c: Id)
    ensures RecordAt(ReplayedAll(x, log), c) ==
            if NamedIn(log, c) then RecordAt(ReplayedAll(y, log), c) else RecordAt(x, c)
    ensures c in ReplayedAll(x, log).removed <==> c in x.removed || GoneIn(log, c)
    decreases |log|
  {
    if log != [] {
      var front, last := log[..|log| - 1], log[|log| - 1];
      assert log == front + [last];
      ReplayedAt(x, y, front, c);
      assert NamedIn(log, c) <==> NamedIn(front, c) || Names(last, c);
      assert GoneIn(log, c) <==> GoneIn(front, c) || (!last.RecordOp? && last.id == c);
    }
  }

  lemma RemovedLinks(x: Index, id: Id)
    ensures forall p :: ChildrenOf(Replayed(x, RemoveOp(id)), p) == ChildrenLeft(x, id, p)
  {
  }

  /** Indexes that differ only in parents listed without children go on alike. */
  lemma SameLinksStep(x: Index, y: Index, o: LogOp)
    requires x.records == y.records && x.removed == y.removed && forall p :: ChildrenOf(x, p) == ChildrenOf(y, p)
    ensures Replayed(x, o).records == Replayed(y, o).records && Replayed(x, o).removed == Replayed(y, o).removed
    ensures forall p :: ChildrenOf(Replayed(x, o), p) == ChildrenOf(Replayed(y, o), p)
    ensures o.RemoveOp? ==> forall p :: ChildrenOf(Replayed(x, o), p) == ChildrenLeft(x, o.id, p)
  {
    if o.RecordOp? {
      forall p ensures ChildrenOf(Replayed(x, o), p) == ChildrenOf(Replayed(y, o), p) {
        LinkedChildren(x, o.child, o.parents, p);
        LinkedChildren(y, o.child, o.parents, p);
      }
    } else if o.RemoveOp? {
      RemovedLinks(x, o.id);
      RemovedLinks(y, o.id);
      forall p ensures ChildrenOf(Replayed(x, o), p) == ChildrenOf(Replayed(y, o), p) {
        assert ParentsOf(x, o.id) == ParentsOf(y, o.id);
      }
    } else {
      forall p ensures ChildrenOf(Replayed(x, o), p) == ChildrenOf(Replayed(y, o), p) {
        assert ChildrenOf(x, p) == ChildrenOf(y, p);
      }
    }
  }

  lemma ReplayedNext(x: Index, log: seq<LogOp>, i: nat)
    requires i < |log|
    ensures ReplayedAll(x, log[..i + 1]) == Replayed(ReplayedAll(x, log[..i]), log[i])
  {
    assert log[..i + 1][..i] == log[..i];
  }

  /** The log records this parent for the child, or removes the parent. */
  predicate Settles(o: LogOp, p: Id, c: Id) {
    (o.RecordOp? && o.child == c && p in o.parents) || (o.RemoveOp? && o.id == p)
  }

  ghost predicate SettledIn(log: seq<LogOp>, p: Id, c: Id) {
    exists o :: o in log && Settles(o, p, c)
  }

  /** One operation, at one link. */
  lemma LinkStep(x: Index, o: LogOp, p: Id, c: Id)
    ensures c in ChildrenOf(Replayed(x, o), p) <==>
            if Settles(o, p, c) then o.RecordOp?
            else c in ChildrenOf(x, p) && !(o.RemoveOp? && o.id == c && p in ParentsOf(x, c))
  {
    if o.RecordOp? { LinkedChildren(x, o.child, o.parents, p); }
  }

  lemma InAll(log: seq<LogOp>, p: Id, c: Id)
    requires log != []
    ensures var front, last := log[..|log| - 1], log[|log| - 1];
            (SettledIn(log, p, c) <==> SettledIn(front, p, c) || Settles(last, p, c)) &&
            (NamedIn(log, c) <==> NamedIn(front, c) || Names(last, c))
  {
    assert log == log[..|log| - 1] + [log[|log| - 1]];
  }

  /** A log decides the links it settles, whatever was there. */
  lemma {:induction false} SettledLink(x: Index, y: Index, log: seq<LogOp>, p: Id, c: Id)
    requires SettledIn(log, p, c)
    ensures c in ChildrenOf(ReplayedAll(x, log), p) <==> c in ChildrenOf(ReplayedAll(y, log), p)
    ensures !NamedIn(log, c) ==> c !in ChildrenOf(ReplayedAll(x, log), p)
    decreases |log|
  {
    var front, last := log[..|log| - 1], log[|log| - 1];
    InAll(log, p, c);
    LinkStep(ReplayedAll(x, front), last, p, c);
    LinkStep(ReplayedAll(y, front), last, p, c);
    if !Settles(last, p, c) {
      SettledLink(x, y, front, p, c);
      ReplayedAt(x, y, front, c);
    }
  }

  /** The links it does not settle it at most drops, and only those of children it names. */
  lemma {:induction false} UnsettledLink(x: Index, log: seq<LogOp>, p: Id, c: Id)
    requires !SettledIn(log, p, c)
    ensures c in ChildrenOf(ReplayedAll(x, log), p) ==> c in ChildrenOf(x, p)
    ensures NamedIn(log, c) ==> p !in ParentsOf(ReplayedAll(x, log), c)
    ensures !NamedIn(log, c) ==> (c in ChildrenOf(ReplayedAll(x, log), p) <==> c in ChildrenOf(x, p))
    decreases |log|
  {
    if log != [] {
      var front, last := log[..|log| - 1], log[|log| - 1];
      InAll(log, p, c);
      UnsettledLink(x, front, p, c);
      LinkStep(ReplayedAll(x, front), last, p, c);
    }
  }

  /** A snapshot keeps no links.  Loading it and replaying the log it already covers gives
      every link the log settles as it was, and any other link exactly if a record backs it. */
  lemma LinksReplayTwice(x: Index, log: seq<LogOp>, loaded: Index, p: Id, c: Id)
    requires Exact(loaded) && loaded.records == ReplayedAll(x, log).records
    ensures c in ChildrenOf(ReplayedAll(loaded, log), p) <==>
            if SettledIn(log, p, c) then c in ChildrenOf(ReplayedAll(x, log), p)
            else p in ParentsOf(ReplayedAll(x, log), c)
  {
    if SettledIn(log, p, c) {
      SettledLink(loaded, x, log, p, c);
    } else {
      UnsettledLink(loaded, log, p, c);
      UnsettledLink(x, log, p, c);
      assert c in ChildrenOf(loaded, p) <==> p in ParentsOf(loaded, c);
    }
  }

  ghost predicate SameLink(x: Index, y: Index, p: Id, c: Id) {
    c in ChildrenOf(x, p) <==> c in ChildrenOf(y, p)
  }

  /** The log settles the link, or it is there exactly if the child's record names the parent. */
  ghost predicate Recoverable(log: seq<LogOp>, x: Index, p: Id, c: Id) {
    SettledIn(log, p, c) || (c in ChildrenOf(x, p) <==> p in ParentsOf(x, c))
  }

  /** So such a crash is harmless to the links exactly if those the log leaves unsettled
      matched the records. */
  lemma LinksReplayTwiceExactly(x: Index, log: seq<LogOp>, loaded: Index, y: Index, z: Index)
    requires y == ReplayedAll(x, log) && z == ReplayedAll(loaded, log)
    requires Exact(loaded) && loaded.records == y.records
    ensures (forall p, c :: SameLink(y, z, p, c)) <==> (forall p, c :: Recoverable(log, y, p, c))
  {
    hide Exact, SettledIn, ReplayedAll;
    forall p, c ensures SameLink(y, z, p, c) <==> Recoverable(log, y, p, c) {
      LinksReplayTwice(x, log, loaded, p, c);
    }
  }

  /** A crash between installing a snapshot and truncating the log is harmless to the
      records and the removed ids: replaying the log over them once more changes nothing. */
  lemma IndexReplayTwice(x: Index, log: seq<LogOp>)
    ensures ReplayedAll(ReplayedAll(x, log), log).records == ReplayedAll(x, log).records
    ensures ReplayedAll(ReplayedAll(x, log), log).removed == ReplayedAll(x, log).removed
  {
    var y := ReplayedAll(x, log);
    forall c
      ensures RecordAt(ReplayedAll(y, log), c) == RecordAt(y, c) &&
              (c in ReplayedAll(y, log).removed <==> c in y.removed)
    {
      ReplayedAt(y, x, log, c);
      ReplayedAt(x, x, log, c);
    }
    forall c ensures c in ReplayedAll(y, log).records <==> c in y.records {
      assert RecordAt(ReplayedAll(y, log), c) == RecordAt(y, c);
    }
    forall c | c in y.records ensures ReplayedAll(y, log).records[c] == y.records[c] {
      assert RecordAt(ReplayedAll(y, log), c) == RecordAt(y, c);
    }
  }

  class LineageIndex {
    var records: map<Id, Record>
    var children: map<Id, set<Id>>
    var removed: set<Id>

    constructor ()
      ensures View() == Index(map[], map[], {})
    {
      records, children, removed := map[], map[], {};
    }

    /** Loading a snapshot: the links are rebuilt from the records alone. */
    constructor FromSnapshot(snapshot: map<Id, Record>, gone: set<Id>)
      ensures records == snapshot && removed == gone && Exact(View())
    {
      records, children, removed := map[], map[], gone;
      new;
      hide Exact;
      var pending := snapshot.Keys;
      NothingLinked(gone);
      while pending != {}
        invariant pending <= snapshot.Keys && removed == gone && Exact(View())
        invariant records.Keys == snapshot.Keys - pending && forall c :: c in records ==> records[c] == snapshot[c]
        decreases |pending|
      {
        var c :| c in pending;
        pending := pending - {c};
        RecordKeepsExact(View(), c, snapshot[c].parents, snapshot[c].op, snapshot[c].createdAt);
        RecordLineage(c, snapshot[c].parents, snapshot[c].op, snapshot[c].createdAt);
      }
    }

    function View(): Index
      reads this
    {
      Index(records, children, removed)
    }

    /** A second record for a child replaces the first, but the first one's links stay. */
    method RecordLineage(child: Id, parents: seq<Id>, op: nat, now: nat)
      modifies `records, `children
      ensures View() == Recorded(old(View()), child, parents, op, now)
    {
      records := records[child := Record(parents, op, now)];
      ghost var was := children;
      var i := 0;
      while i < |parents|
        invariant 0 <= i <= |parents|
        invariant records == old(records)[child := Record(parents, op, now)]
        invariant children == Linked(was, child, parents[..i])
      {
        children := children[parents[i] := (if parents[i] in children then children[parents[i]] else {}) + {child}];
        i := i + 1;
        assert parents[..i][..i - 1] == parents[..i - 1];
      }
      assert parents[..|parents|] == parents;
    }

    method RemoveNode(id: Id)
      modifies this
      ensures removed == old(removed) + {id} && records == old(records) - {id}
      ensures forall p :: ChildrenOf(View(), p) == ChildrenLeft(old(View()), id, p)
    {
      removed := removed + {id};
      ghost var was := View();
      if id in records {
        var parents, i := records[id].parents, 0;
        while i < |parents|
          invariant 0 <= i <= |parents| && records == was.records && removed == was.removed
          invariant forall p :: ChildrenOf(View(), p) == ChildrenOf(was, p) - if p in parents[..i] then {id} else {}
        {
          var p := parents[i];
          if p in children {
            children := if children[p] == {id} then children - {p} else children[p := children[p] - {id}];
          }
          i := i + 1;
          assert parents[..i] == parents[..i - 1] + [p];
        }
        assert parents[..|parents|] == parents;
        records := records - {id};
      }
      children := children - {id};
    }

    /** Replaying the log on top of a loaded snapshot. */
    method ReplayLog(log: seq<LogOp>)
      modifies this
      ensures records == ReplayedAll(old(View()), log).records && removed == ReplayedAll(old(View()), log).removed
      ensures forall p :: ChildrenOf(View(), p) == ChildrenOf(ReplayedAll(old(View()), log), p)
    {
      ghost var was := View();
      var i := 0;
      while i < |log|
        invariant 0 <= i <= |log|
        invariant records == ReplayedAll(was, log[..i]).records && removed == ReplayedAll(was, log[..i]).removed
        invariant forall p :: ChildrenOf(View(), p) == ChildrenOf(ReplayedAll(was, log[..i]), p)
      {
        ReplayedNext(was, log, i);
        SameLinksStep(View(), ReplayedAll(was, log[..i]), log[i]);
        match log[i] {
          case RecordOp(child, parents, op, at) => RecordLineage(child, parents, op, at);
          case RemoveOp(id) => RemoveNode(id);
          case MarkOp(id) => MarkRemoved(id);
        }
        i := i + 1;
      }
      assert log[..i] == log;
    }

    method MarkRemoved(id: Id)
      modifies `removed
      ensures removed == old(removed) + {id}
    {
      removed := removed + {id};
    }

    method HasLiveParents(child: Id) returns (r: bool)
      ensures r <==> HasParentOutside(View(), child, removed)
    {
      var parents := ParentsOf(View(), child);
      var i := 0;
      while i < |parents|
        invariant 0 <= i <= |parents|
        invariant forall j :: 0 <= j < i ==> parents[j] in removed
      {
        if parents[i] !in removed {
          assert parents[i] in parents;
          return true;
        }
        i := i + 1;
      }
      return false;
    }

    /** Depth-limited descendants, the start excluded. */
    method GetTransitiveDescendants(root: Id, maxDepth: int) returns (result: seq<Id>)
      ensures forall i, j :: 0 <= i < j < |result| ==> result[i] != result[j]
      ensures forall v :: v in result <==> v != root && maxDepth > 0 && v in Reach(View(), root, maxDepth)
    {
      hide Searched, Adds, Ids, Narrow, AllChildren, Reach;
      ghost var x, found, results := Pruned(View(), root), [], [];
      result := [];
      if maxDepth <= 0 { return; }
      var frontier, visited := [], {root};
      visited, frontier := PushChildren(ChildrenOf(View(), root), 1, visited);
      result := IdList(frontier);
      found := frontier;
      PrunedChildren(View(), root, root);
      assert ChildrenOf(View(), root) - {root} == ChildrenOf(x, root);
      AddedIds(ChildrenOf(x, root), 1, found);
      Seeded(x, root, maxDepth, found);
      while frontier != []
        invariant Searched(x, root, maxDepth, results, found) && Narrow(found, |results|) && |results| <= |found|
        invariant frontier == found[|results|..] && result == IdList(found)
        invariant visited == Ids(found) + {root}
        invariant forall i :: 0 <= i < |results| ==> results[i].invalidated
        decreases AllChildren(View()) - visited, |frontier|
      {
        var current := frontier[0];
        ghost var v := Verdict(current.id, true);
        frontier := frontier[1..];
        var pushed := [];
        if current.depth < maxDepth {
          PrunedChildren(View(), root, current.id);
          ChildrenAmongAll(View(), current.id);
          Shrinks(AllChildren(View()), ChildrenOf(View(), current.id), visited);
          visited, pushed := PushChildren(ChildrenOf(View(), current.id), current.depth + 1, visited);
          assert ChildrenOf(View(), current.id) - (Ids(found) + {root}) == ChildrenOf(x, current.id) - Ids(found);
          AddedIds(ChildrenOf(x, current.id) - Ids(found), current.depth + 1, pushed);
        }
        NothingYet();
        IdsMore(found, pushed);
        StepKeeps(x, root, maxDepth, results, found, v, pushed);
        frontier, result := frontier + pushed, result + IdList(pushed);
        results, found := results + [v], found + pushed;
      }
      SearchReaches(x, root, maxDepth, results, found);
      PrunedReach(View(), root, maxDepth);
      ListedOnce(x, root, maxDepth, results, found);
    }
  }

  // ---- Soundness ----

  /** Closed under the rule: whatever hangs below it and has only dead parents is in it. */
  ghost predicate Closed(x: Index, root: Id, dead: set<Id>) {
    forall c :: HangsBelow(x, root, dead, c) && !HasParentOutside(x, c, x.removed + {root} + dead) ==> c in dead
  }

  ghost predicate HangsBelow(x: Index, root: Id, dead: set<Id>, c: Id) {
    c in ChildrenOf(x, root) || exists b :: b in dead && c in ChildrenOf(x, b)
  }

  /** propagate never invalidates more than it must: its result lies in every closed set. */
  lemma {:induction false} NeverTooMuch(x: Index, root: Id, bound: nat, results: seq<Verdict>, found: seq<Found>,
                                        dead: set<Id>, n: nat)
    requires TraceOf(x, root, bound, results, found) && Closed(x, root, dead) && n <= |results|
    ensures Invalidated(results[..n]) <= dead
  {
    if n > 0 {
      NeverTooMuch(x, root, bound, results, found, dead, n - 1);
      var r := results[n - 1];
      assert results[..n] == results[..n - 1] + [r];
      if r.invalidated {
        assert JudgedFairly(x, root, results, n - 1);
        assert Hangs(x, root, bound, results, found, n - 1);
        assert forall j :: 0 <= j < n - 1 && results[j].invalidated ==>
               results[j] in results[..n - 1] && results[j].id in Invalidated(results[..n - 1]);
      }
    }
  }

  lemma InvalidatedAt(results: seq<Verdict>, found: seq<Found>, i: nat)
    requires Matches(results, found) && Queued(found) && i < |results|
    ensures results[i].invalidated <==> results[i].id in Invalidated(results)
  {
    if results[i].id in Invalidated(results) {
      var r :| r in results && r.invalidated && r.id == results[i].id;
      var j :| 0 <= j < |results| && results[j] == r;
      assert found[j].id == found[i].id;
    }
  }

  // ---- Exactness ----

  lemma InvalidatedIndex(results: seq<Verdict>, n: nat, c: Id) returns (i: nat)
    requires n <= |results| && c in Invalidated(results[..n])
    ensures i < n && results[i].id == c && results[i].invalidated
  {
    var r :| r in results[..n] && r.invalidated && r.id == c;
    i :| 0 <= i < n && results[i] == r;
  }

  lemma HangsWhere(x: Index, root: Id, bound: nat, results: seq<Verdict>, found: seq<Found>, i: nat)
    returns (top: bool, j: nat)
    requires Searched(x, root, bound, results, found) && i < |found|
    ensures if top then found[i].id in ChildrenOf(x, root) && found[i].depth == 1
            else j < i && j < |results| && results[j].invalidated && results[j].id == found[j].id &&
                 found[j].depth < bound &&
                 found[i].id in ChildrenOf(x, found[j].id) && found[i].depth == found[j].depth + 1
    ensures i < |results| ==> results[i].id == found[i].id
  {
    assert Hangs(x, root, bound, results, found, i);
    top, j := found[i].id in ChildrenOf(x, root) && found[i].depth == 1, 0;
    if !top {
      j :| 0 <= j < i && j < |results| && results[j].invalidated && found[j].depth < bound &&
        found[i].id in ChildrenOf(x, found[j].id) && found[i].depth == found[j].depth + 1;
    }
  }

  lemma FoundUnder(x: Index, root: Id, bound: nat, results: seq<Verdict>, found: seq<Found>, top: bool, j: nat, c: Id)
    returns (k: nat)
    requires Searched(x, root, bound, results, found)
    requires if top then c in ChildrenOf(x, root)
             else j < |results| && results[j].invalidated && found[j].depth < bound && c in ChildrenOf(x, found[j].id)
    ensures k < |found| && found[k].id == c && found[k].depth <= if top then 1 else found[j].depth + 1
  {
    var d := if top then 1 else found[j].depth + 1;
    assert FoundBy(found, c, d);
    k :| 0 <= k < |found| && found[k].id == c && found[k].depth <= d;
  }

  lemma ShallowIsEarlier(x: Index, root: Id, bound: nat, results: seq<Verdict>, found: seq<Found>, i: nat, k: nat)
    requires Searched(x, root, bound, results, found) && i < |found| && k < |found| && found[i].depth < found[k].depth
    ensures i < k
  {
  }

  lemma JudgedAt(x: Index, root: Id, bound: nat, results: seq<Verdict>, found: seq<Found>, i: nat)
    requires TraceOf(x, root, bound, results, found) && i < |results|
    ensures results[i].id == found[i].id
    ensures results[i].invalidated <==>
            forall q :: q in ParentsOf(x, found[i].id) ==> q in x.removed + {root} + Invalidated(results[..i])
  {
    assert JudgedFairly(x, root, results, i);
  }

  lemma DeadNow(results: seq<Verdict>, i: nat, n: nat)
    requires i < n <= |results| && results[i].invalidated
    ensures results[i].id in Invalidated(results[..n])
  {
    assert results[..n][i] == results[i];
  }

  ghost predicate OneParentEach(x: Index, root: Id, bound: nat) {
    forall p, c, q :: c in Reach(x, root, bound) && c in ChildrenOf(x, p) && q in ParentsOf(x, c) ==> q == p
  }

  /** Where no descendant within the bound names a second parent, as derived facts do, a run invalidates every
      descendant within the bound: what GetTransitiveDescendants lists, plus the deleted
      node itself should it be its own descendant. */
  lemma SingleParentIsDescendants(x: Index, root: Id, bound: nat, results: seq<Verdict>, found: seq<Found>)
    requires TraceOf(x, root, bound, results, found) && |results| == |found| && bound >= 1
    requires OneParentEach(x, root, bound)
    ensures Invalidated(results) == Reach(x, root, bound)
  {
    forall i | 0 <= i < |results| ensures results[i].invalidated {
      FoundIsReached(x, root, bound, results, found, i);
      ReachGrows(x, root, found[i].depth, bound);
      assert Hangs(x, root, bound, results, found, i) && JudgedFairly(x, root, results, i);
      if !(found[i].id in ChildrenOf(x, root) && found[i].depth == 1) {
        var j :| 0 <= j < i && j < |results| && results[j].invalidated && found[j].depth < bound &&
          found[i].id in ChildrenOf(x, found[j].id) && found[i].depth == found[j].depth + 1;
        assert results[j] in results[..i];
      }
    }
    SearchReaches(x, root, bound, results, found);
    assert forall c :: c in Ids(found) <==> c in Invalidated(results) by {
      forall i | 0 <= i < |found| ensures found[i].id in Invalidated(results) { assert results[i] in results; }
      forall c | c in Invalidated(results) ensures c in Ids(found) {
        assert results[..|results|] == results;
        var i := InvalidatedIndex(results, |results|, c);
        assert found[i] in found;
      }
    }
  }

  /** Without a grading a node judged live can lose its last parent later in the same
      run and is not looked at again: 1 leads to 2 and 3, 2 to 4, and 4 is the other
      parent of 3. */
  lemma JudgedTooEarly() returns (x: Index, results: seq<Verdict>, found: seq<Found>)
    ensures TraceOf(x, 1, 10, results, found) && |results| == |found|
    ensures !Closed(x, 1, Invalidated(results))
  {
    x := Index(map[2 := Record([1], 0, 0), 3 := Record([1, 4], 0, 0), 4 := Record([2], 0, 0)],
               map[1 := {2, 3}, 2 := {4}, 4 := {3}], {});
    results := [Verdict(2, true), Verdict(3, false), Verdict(4, true)];
    found := [Found(2, 1), Found(3, 1), Found(4, 2)];
    EarlySearch(x, results, found);
    EarlyVerdicts(x, results);
    hide Searched, JudgedFairly;
    InvalidatedOfThree(results);
    EarlyChildren(x);
    assert HangsBelow(x, 1, Invalidated(results), 3);
  }

  lemma EarlyVerdicts(x: Index, results: seq<Verdict>)
    requires x.records == map[2 := Record([1], 0, 0), 3 := Record([1, 4], 0, 0), 4 := Record([2], 0, 0)] &&
             x.removed == {}
    requires results == [Verdict(2, true), Verdict(3, false), Verdict(4, true)]
    ensures forall i :: 0 <= i < 3 ==> JudgedFairly(x, 1, results, i)
  {
    InvalidatedOfThree(results);
    assert results[..0] == [] && results[..1] == [results[0]] && results[..2] == [results[0], results[1]];
    assert ParentsOf(x, 2) == [1] && ParentsOf(x, 3) == [1, 4] && ParentsOf(x, 4) == [2];
    hide Invalidated;
    assert HasParentOutside(x, 3, {} + {1} + {2}) by { assert 4 in ParentsOf(x, 3); }
    assert x.removed + {1} + {2} == {} + {1} + {2};
  }

  lemma EarlyChildren(x: Index)
    requires x.children == map[1 := {2, 3}, 2 := {4}, 4 := {3}]
    ensures ChildrenOf(x, 1) == {2, 3} && ChildrenOf(x, 2) == {4} && ChildrenOf(x, 4) == {3} && ChildrenOf(x, 3) == {}
  {
  }

  lemma EarlySearch(x: Index, results: seq<Verdict>, found: seq<Found>)
    requires results == [Verdict(2, true), Verdict(3, false), Verdict(4, true)]
    requires found == [Found(2, 1), Found(3, 1), Found(4, 2)]
    requires x.children == map[1 := {2, 3}, 2 := {4}, 4 := {3}]
    ensures Searched(x, 1, 10, results, found)
  {
    EarlyChildren(x);
    forall i | 0 <= i < 3 ensures Hangs(x, 1, 10, results, found, i) {
      assert i == 0 || i == 1 || i == 2;
      assert results[0].invalidated;
    }
    assert found[0].id == 2 && found[1].id == 3 && found[2].id == 4;
    assert FoundBy(found, 2, 1) && FoundBy(found, 3, 1) && FoundBy(found, 4, 2) && FoundBy(found, 3, 3);
    assert Complete(x, 1, 10, results, found);
    assert Queues(x, 1, 10, results, found, 0, -1) && Queues(x, 1, 10, results, found, 1, -1);
  }

  lemma InvalidatedOfThree(results: seq<Verdict>)
    requires |results| == 3 && results[0].invalidated && !results[1].invalidated && results[2].invalidated
    ensures Invalidated(results) == {results[0].id, results[2].id}
    ensures Invalidated([results[0]]) == {results[0].id} && Invalidated([results[0], results[1]]) == {results[0].id}
    ensures Invalidated([]) == {}
  {
    assert results == [results[0], results[1]] + [results[2]];
    assert [results[0], results[1]] == [results[0]] + [results[1]] && [results[0]] == [] + [results[0]];
    InvalidatedMore([results[0], results[1]], results[2]);
    InvalidatedMore([results[0]], results[1]);
    InvalidatedMore([], results[0]);
  }

  /** LineagePropagator::propagate.  Direct children are judged whatever the depth limit. */
  method Propagate(index: LineageIndex, root: Id, maxDepth: int)
    returns (results: seq<Verdict>, ghost found: seq<Found>)
    modifies index`removed
    ensures |results| == |found|
    ensures maxDepth >= 1 ==> TraceOf(old(index.View()), root, maxDepth, results, found)
    ensures maxDepth < 1 ==> TraceOf(old(index.View()), root, 1, results, found)
    ensures index.removed == old(index.removed) + {root} + Invalidated(results)
    ensures maxDepth >= 1 && OneParentEach(old(index.View()), root, maxDepth) ==>
              index.removed == old(index.removed) + {root} + Reach(old(index.View()), root, maxDepth)
  {
    hide Searched, JudgedFairly, Hangs, Adds, Invalidated, Ids, Narrow, AllChildren, OneParentEach, Reach;
    ghost var x, bound: nat := index.View(), if maxDepth >= 1 then maxDepth else 1;
    index.MarkRemoved(root);
    var visited, frontier := {}, [];
    visited, frontier := PushChildren(ChildrenOf(index.View(), root), 1, visited);
    results, found := [], frontier;
    assert visited == Ids(found) by { AddedIds(ChildrenOf(x, root) - {}, 1, found); }
    assert ChildrenOf(x, root) - {} == ChildrenOf(x, root);
    NothingYet();
    Seeded(x, root, bound, found);
    while frontier != []
      invariant |results| <= |found| && frontier == found[|results|..]
      invariant index.records == x.records && index.children == x.children
      invariant index.removed == x.removed + {root} + Invalidated(results)
      invariant TraceOf(x, root, bound, results, found) && Narrow(found, |results|)
      invariant visited == Ids(found)
      decreases AllChildren(x) - visited, |frontier|
    {
      var current := frontier[0];
      ChildrenAmongAll(x, current.id);
      HangsDeep(x, root, bound, results, found, |results|);
      frontier := frontier[1..];
      var hasLive := index.HasLiveParents(current.id);
      var v, pushed := Verdict(current.id, !hasLive), [];
      JudgedAll(x, root, results, v);
      InvalidatedMore(results, v);
      if !hasLive {
        index.MarkRemoved(current.id);
        if current.depth < maxDepth {
          visited, pushed := PushChildren(ChildrenOf(index.View(), current.id), current.depth + 1, visited);
          Shrinks(AllChildren(x), ChildrenOf(x, current.id), Ids(found));
          AddedIds(ChildrenOf(x, current.id) - Ids(found), current.depth + 1, pushed);
        }
      }
      assert StepAdds(x, bound, v, current.depth, found, pushed);
      IdsMore(found, pushed);
      StepKeeps(x, root, bound, results, found, v, pushed);
      frontier, found, results := frontier + pushed, found + pushed, results + [v];
    }
    if OneParentEach(x, root, bound) { SingleParentIsDescendants(x, root, bound, results, found); }
  }
}
