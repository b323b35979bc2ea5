/** Which ids propagate ought to invalidate, and exactly when every run of it does. */
module Orphans {
  import opened Common
  import opened Lineage

  /** Every recorded parent is removed, the root, or dead. */
  predicate Orphaned(x: Index, root: Id, dead: set<Id>, c: Id) {
    !HasParentOutside(x, c, x.removed + {root} + dead)
  }

  /** The ids found within n steps from the root when the search goes on through dead nodes. */
  ghost function Near(x: Index, root: Id, dead: set<Id>, n: nat): set<Id> {
    if n == 0 then {}
    else
      var before := Near(x, root, dead, n - 1);
      before + ChildrenOf(x, root) +
      (set c | c in AllChildren(x) && exists b :: b in before && b in dead && c in ChildrenOf(x, b))
  }

  /** Whatever is found within the bound and has lost every parent is dead. */
  ghost predicate BoundedClosed(x: Index, root: Id, bound: nat, dead: set<Id>) {
    forall c :: c in Near(x, root, dead, bound) && Orphaned(x, root, dead, c) ==> c in dead
  }

  /** The depth-bounded least fixpoint: the ids that lie in every closed set. */
  ghost function Doomed(x: Index, root: Id, bound: nat): set<Id> {
    set c | c in AllChildren(x) && forall dead: set<Id> :: BoundedClosed(x, root, bound, dead) ==> c in dead
  }

  // ---- The fixpoint ----

  lemma NearStep(x: Index, root: Id, dead: set<Id>, n: nat, c: Id)
    requires n > 0
    ensures c in Near(x, root, dead, n) <==>
            c in Near(x, root, dead, n - 1) || c in ChildrenOf(x, root) ||
            exists b :: b in Near(x, root, dead, n - 1) && b in dead && c in ChildrenOf(x, b)
  {
    forall b { ChildrenAmongAll(x, b); }
  }

  lemma NoneNear(x: Index, root: Id, dead: set<Id>)
    ensures Near(x, root, dead, 0) == {}
  {
  }

  lemma {:induction false} NearGrows(x: Index, root: Id, dead: set<Id>, more: set<Id>, n: nat, m: nat, c: Id)
    requires dead <= more && n <= m && c in Near(x, root, dead, n)
    ensures c in Near(x, root, more, m)
    decreases m, n
  {
    hide Near;
    if n == 0 { NoneNear(x, root, dead); }
    if n < m {
      NearGrows(x, root, dead, more, n, m - 1, c);
      NearStep(x, root, more, m, c);
    } else {
      NearStep(x, root, dead, n, c);
      NearStep(x, root, more, m, c);
      if c in Near(x, root, dead, n - 1) {
        NearGrows(x, root, dead, more, n - 1, m - 1, c);
      } else if c !in ChildrenOf(x, root) {
        var b :| b in Near(x, root, dead, n - 1) && b in dead && c in ChildrenOf(x, b);
        NearGrows(x, root, dead, more, n - 1, m - 1, b);
      }
    }
  }

  lemma {:induction false} NearAmongAll(x: Index, root: Id, dead: set<Id>, n: nat, c: Id)
    requires c in Near(x, root, dead, n)
    ensures c in AllChildren(x)
  {
    ChildrenAmongAll(x, root);
    if n > 0 && c in Near(x, root, dead, n - 1) { NearAmongAll(x, root, dead, n - 1, c); }
  }

  lemma OrphanedMore(x: Index, root: Id, dead: set<Id>, more: set<Id>, c: Id)
    requires dead <= more && Orphaned(x, root, dead, c)
    ensures Orphaned(x, root, more, c)
  {
  }

  lemma DoomedIsClosed(x: Index, root: Id, bound: nat)
    ensures BoundedClosed(x, root, bound, Doomed(x, root, bound))
  {
    hide Near, Orphaned;
    var doomed := Doomed(x, root, bound);
    forall c | c in Near(x, root, doomed, bound) && Orphaned(x, root, doomed, c) ensures c in doomed {
      NearAmongAll(x, root, doomed, bound, c);
      forall dead: set<Id> | BoundedClosed(x, root, bound, dead) ensures c in dead {
        assert doomed <= dead;
        NearGrows(x, root, doomed, dead, bound, bound, c);
        OrphanedMore(x, root, doomed, dead, c);
      }
    }
  }

  /** Doomed is the least closed set, and every doomed id is found and orphaned through it. */
  lemma DoomedIsLeast(x: Index, root: Id, bound: nat)
    ensures BoundedClosed(x, root, bound, Doomed(x, root, bound))
    ensures forall dead: set<Id> :: BoundedClosed(x, root, bound, dead) ==> Doomed(x, root, bound) <= dead
    ensures forall c :: c in Doomed(x, root, bound) ==>
              c in Near(x, root, Doomed(x, root, bound), bound) && Orphaned(x, root, Doomed(x, root, bound), c)
  {
    hide Near, Orphaned;
    DoomedIsClosed(x, root, bound);
    var doomed := Doomed(x, root, bound);
    var kept := set c | c in doomed && c in Near(x, root, doomed, bound) && Orphaned(x, root, doomed, c);
    assert BoundedClosed(x, root, bound, kept) by {
      forall c | c in Near(x, root, kept, bound) && Orphaned(x, root, kept, c) ensures c in kept {
        NearGrows(x, root, kept, doomed, bound, bound, c);
        OrphanedMore(x, root, kept, doomed, c);
      }
    }
    assert doomed <= kept;
  }

  // ---- What every run keeps to ----

  /** A complete run: every node found was judged. */
  ghost predicate RunOf(x: Index, root: Id, bound: nat, results: seq<Verdict>, found: seq<Found>) {
    TraceOf(x, root, bound, results, found) && |results| == |found|
  }

  lemma {:induction false} FoundIsNear(x: Index, root: Id, bound: nat, results: seq<Verdict>, found: seq<Found>, i: nat)
    requires TraceOf(x, root, bound, results, found) && bound >= 1 && i < |found|
    ensures 1 <= found[i].depth <= bound && found[i].id in Near(x, root, Doomed(x, root, bound), found[i].depth)
    decreases i, 0
  {
    hide Searched, JudgedFairly, Near, Doomed;
    var doomed := Doomed(x, root, bound);
    var top, j := HangsWhere(x, root, bound, results, found, i);
    if !top {
      FoundIsNear(x, root, bound, results, found, j);
      DeadIsDoomed(x, root, bound, results, found, j);
    }
    NearStep(x, root, doomed, found[i].depth, found[i].id);
  }

  lemma {:induction false} DeadIsDoomed(x: Index, root: Id, bound: nat, results: seq<Verdict>, found: seq<Found>,
                                        i: nat)
    requires TraceOf(x, root, bound, results, found) && bound >= 1 && i < |results| && i < |found| &&
             results[i].invalidated
    ensures results[i].id == found[i].id && found[i].id in Doomed(x, root, bound)
    decreases i, 1
  {
    hide Searched, JudgedFairly, Near, Doomed, Invalidated;
    var doomed, c := Doomed(x, root, bound), found[i].id;
    JudgedAt(x, root, bound, results, found, i);
    forall q | q in ParentsOf(x, c) ensures q in x.removed + {root} + doomed {
      if q in Invalidated(results[..i]) {
        var j := InvalidatedIndex(results, i, q);
        DeadIsDoomed(x, root, bound, results, found, j);
      }
    }
    FoundIsNear(x, root, bound, results, found, i);
    NearGrows(x, root, doomed, doomed, found[i].depth, bound, c);
    DoomedIsClosed(x, root, bound);
  }

  /** No run, complete or not, invalidates more than the fixpoint. */
  lemma NeverBeyondDoomed(x: Index, root: Id, bound: nat, results: seq<Verdict>, found: seq<Found>)
    requires TraceOf(x, root, bound, results, found) && bound >= 1
    ensures Invalidated(results) <= Doomed(x, root, bound)
  {
    forall c | c in Invalidated(results) ensures c in Doomed(x, root, bound) {
      assert results[..|results|] == results;
      var i := InvalidatedIndex(results, |results|, c);
      DeadIsDoomed(x, root, bound, results, found, i);
    }
  }

  /** As far as the doomed nodes found were judged dead, everything near was found. */
  lemma {:induction false} NearIsFound(x: Index, root: Id, bound: nat, results: seq<Verdict>, found: seq<Found>, n: nat,
                                       c: Id)
    requires Searched(x, root, bound, results, found) && n <= bound && c in Near(x, root, Doomed(x, root, bound), n)
    requires forall j :: 0 <= j < |found| && found[j].depth < n && found[j].id in Doomed(x, root, bound) ==>
               j < |results| && results[j].invalidated
    ensures exists k :: 0 <= k < |found| && found[k].id == c && found[k].depth <= n
  {
    hide Searched, Near, Doomed;
    var doomed := Doomed(x, root, bound);
    if n == 0 { NoneNear(x, root, doomed); }
    NearStep(x, root, doomed, n, c);
    if c in Near(x, root, doomed, n - 1) {
      NearIsFound(x, root, bound, results, found, n - 1, c);
    } else if c in ChildrenOf(x, root) {
      var k := FoundUnder(x, root, bound, results, found, true, 0, c);
    } else {
      var b :| b in Near(x, root, doomed, n - 1) && b in doomed && c in ChildrenOf(x, b);
      NearIsFound(x, root, bound, results, found, n - 1, b);
      var j :| 0 <= j < |found| && found[j].id == b && found[j].depth <= n - 1;
      var k := FoundUnder(x, root, bound, results, found, false, j, c);
    }
  }

  // ---- When every run is exact ----

  /** Whoever is doomed finds its doomed parents a step nearer to the root than itself. */
  ghost predicate Timely(x: Index, root: Id, bound: nat) {
    forall c, q, n ::
      1 <= n <= bound && c in Near(x, root, Doomed(x, root, bound), n) && DoomedParent(x, root, bound, c, q) ==>
      q in Near(x, root, Doomed(x, root, bound), n - 1)
  }

  ghost predicate DoomedParent(x: Index, root: Id, bound: nat, c: Id, q: Id) {
    && c in Doomed(x, root, bound) && q in ParentsOf(x, c)
    && q in Doomed(x, root, bound) && q !in x.removed && q != root
  }

  ghost predicate EveryRunExact(x: Index, root: Id, bound: nat) {
    forall results, found :: RunOf(x, root, bound, results, found) ==> Invalidated(results) == Doomed(x, root, bound)
  }

  lemma {:induction false} TimelyDead(x: Index, root: Id, bound: nat, results: seq<Verdict>, found: seq<Found>, k: nat)
    requires RunOf(x, root, bound, results, found) && Timely(x, root, bound) && bound >= 1
    requires k < |found| && found[k].id in Doomed(x, root, bound)
    ensures results[k].invalidated
    decreases k
  {
    hide Searched, JudgedFairly, Near, Doomed, Invalidated;
    DoomedIsLeast(x, root, bound);
    var c, d, doomed := found[k].id, found[k].depth, Doomed(x, root, bound);
    FoundIsNear(x, root, bound, results, found, k);
    JudgedAt(x, root, bound, results, found, k);
    forall j | 0 <= j < |found| && found[j].depth < d && found[j].id in doomed ensures results[j].invalidated {
      ShallowIsEarlier(x, root, bound, results, found, j, k);
      TimelyDead(x, root, bound, results, found, j);
    }
    forall q | q in ParentsOf(x, c) ensures q in x.removed + {root} + Invalidated(results[..k]) {
      assert q in x.removed + {root} + doomed;
      if q !in x.removed && q != root {
        assert DoomedParent(x, root, bound, c, q);
        NearIsFound(x, root, bound, results, found, d - 1, q);
        var i :| 0 <= i < |found| && found[i].id == q && found[i].depth <= d - 1;
        ShallowIsEarlier(x, root, bound, results, found, i, k);
        JudgedAt(x, root, bound, results, found, i);
        DeadNow(results, i, k);
      }
    }
  }

  lemma TimelyIsExact(x: Index, root: Id, bound: nat, results: seq<Verdict>, found: seq<Found>)
    requires RunOf(x, root, bound, results, found) && Timely(x, root, bound) && bound >= 1
    ensures Invalidated(results) == Doomed(x, root, bound)
  {
    hide Searched, JudgedFairly, Near, Doomed, Invalidated, Timely;
    NeverBeyondDoomed(x, root, bound, results, found);
    DoomedIsLeast(x, root, bound);
    forall j | 0 <= j < |found| && found[j].id in Doomed(x, root, bound) ensures results[j].invalidated {
      TimelyDead(x, root, bound, results, found, j);
    }
    forall c | c in Doomed(x, root, bound) ensures c in Invalidated(results) {
      NearIsFound(x, root, bound, results, found, bound, c);
      var k :| 0 <= k < |found| && found[k].id == c && found[k].depth <= bound;
      JudgedAt(x, root, bound, results, found, k);
      DeadNow(results, k, |results|);
      assert results[..|results|] == results;
    }
  }

  /** Where a doomed node is found strictly before a doomed parent, no run is exact. */
  lemma LateParentNeverExact(x: Index, root: Id, bound: nat, c: Id, q: Id, n: nat, results: seq<Verdict>,
                             found: seq<Found>)
    requires RunOf(x, root, bound, results, found) && 1 <= n <= bound && DoomedParent(x, root, bound, c, q)
    requires c in Near(x, root, Doomed(x, root, bound), n) && q !in Near(x, root, Doomed(x, root, bound), n)
    ensures Invalidated(results) != Doomed(x, root, bound)
  {
    hide Searched, JudgedFairly, Near, Doomed, Invalidated;
    var doomed := Doomed(x, root, bound);
    if Invalidated(results) == doomed {
      assert results[..|results|] == results;
      forall j | 0 <= j < |found| && found[j].id in doomed ensures results[j].invalidated {
        VerdictOf(x, root, bound, results, found, j);
      }
      NearIsFound(x, root, bound, results, found, n, c);
      var k :| 0 <= k < |found| && found[k].id == c && found[k].depth <= n;
      JudgedAt(x, root, bound, results, found, k);
      var i := InvalidatedIndex(results, k, q);
      FoundIsNear(x, root, bound, results, found, i);
      JudgedAt(x, root, bound, results, found, i);
      DepthsAscend(x, root, bound, results, found, i, k);
      NearGrows(x, root, doomed, doomed, found[i].depth, n, q);
    }
  }

  lemma VerdictOf(x: Index, root: Id, bound: nat, results: seq<Verdict>, found: seq<Found>, i: nat)
    requires TraceOf(x, root, bound, results, found) && i < |results|
    ensures results[i].id == found[i].id && (results[i].invalidated <==> found[i].id in Invalidated(results))
  {
    InvalidatedAt(results, found, i);
  }

  lemma DepthsAscend(x: Index, root: Id, bound: nat, results: seq<Verdict>, found: seq<Found>, i: nat, k: nat)
    requires Searched(x, root, bound, results, found) && i <= k < |found|
    ensures found[i].depth <= found[k].depth
  {
  }

  // ---- A run that goes wrong ----

  lemma AnyOrder(s: set<Id>, depth: nat) returns (pushed: seq<Found>)
    ensures Adds(s, depth, pushed)
  {
    if s == {} {
      pushed := [];
    } else {
      var c :| c in s;
      var rest := AnyOrder(s - {c}, depth);
      pushed := [Found(c, depth)] + rest;
    }
  }

  lemma FirstOrder(s: set<Id>, depth: nat, first: Id) returns (pushed: seq<Found>)
    ensures Adds(s, depth, pushed) && (first in s ==> pushed != [] && pushed[0] == Found(first, depth))
  {
    if first in s {
      var rest := AnyOrder(s - {first}, depth);
      pushed := [Found(first, depth)] + rest;
    } else {
      pushed := AnyOrder(s, depth);
    }
  }

  /** A run under way. */
  ghost predicate UnderWay(x: Index, root: Id, bound: nat, results: seq<Verdict>, found: seq<Found>) {
    TraceOf(x, root, bound, results, found) && Narrow(found, |results|)
  }

  /** The next turn of the loop, with one id put in front of those it queues. */
  lemma Turn(x: Index, root: Id, bound: nat, results: seq<Verdict>, found: seq<Found>, first: Id)
    returns (v: Verdict, pushed: seq<Found>)
    requires UnderWay(x, root, bound, results, found) && |results| < |found|
    ensures UnderWay(x, root, bound, results + [v], found + pushed) && v.id == found[|results|].id
    ensures StepAdds(x, bound, v, found[|results|].depth, found, pushed)
    ensures v.invalidated <==> Orphaned(x, root, Invalidated(results), v.id)
    ensures v.invalidated && found[|results|].depth < bound && first in ChildrenOf(x, v.id) - Ids(found) ==>
              pushed != [] && pushed[0] == Found(first, found[|results|].depth + 1)
  {
    var n := |results|;
    v := Verdict(found[n].id, Orphaned(x, root, Invalidated(results), found[n].id));
    pushed := [];
    if v.invalidated && found[n].depth < bound {
      pushed := FirstOrder(ChildrenOf(x, v.id) - Ids(found), found[n].depth + 1, first);
    }
    hide Searched, JudgedFairly, Narrow, Adds, Invalidated, Ids;
    JudgedAll(x, root, results, v);
    StepKeeps(x, root, bound, results, found, v, pushed);
  }

  /** Judge every node up to a depth. */
  lemma GoOn(x: Index, root: Id, bound: nat, results: seq<Verdict>, found: seq<Found>, d: nat)
    returns (results': seq<Verdict>, found': seq<Found>)
    requires UnderWay(x, root, bound, results, found)
    ensures UnderWay(x, root, bound, results', found') && results <= results' && found <= found'
    ensures |results'| < |found'| ==> found'[|results'|].depth > d
    ensures forall k :: |results| <= k < |results'| ==> k < |found'| && found'[k].depth <= d
    decreases AllChildren(x) - Ids(found), |found| - |results|
  {
    hide Searched, JudgedFairly, Narrow, Adds, Invalidated, Ids, AllChildren;
    BothCount(x, root, bound, results, found);
    if |results| == |found| || found[|results|].depth > d {
      results', found' := results, found;
    } else {
      var v, pushed := Turn(x, root, bound, results, found, root);
      QueueShrinks(x, bound, v, found[|results|].depth, found, pushed);
      if pushed == [] { assert found + pushed == found; }
      results', found' := GoOn(x, root, bound, results + [v], found + pushed, d);
      BothCount(x, root, bound, results', found');
      assert found'[|results|] == (found + pushed)[|results|] == found[|results|];
      forall k | |results| <= k < |results'| ensures k < |found'| && found'[k].depth <= d {
        if k > |results| { assert |results + [v]| <= k; }
      }
    }
  }

  lemma BothCount(x: Index, root: Id, bound: nat, results: seq<Verdict>, found: seq<Found>)
    requires TraceOf(x, root, bound, results, found)
    ensures |results| <= |found|
  {
  }

  lemma QueueShrinks(x: Index, bound: nat, v: Verdict, depth: nat, found: seq<Found>, pushed: seq<Found>)
    requires StepAdds(x, bound, v, depth, found, pushed)
    ensures pushed == [] || AllChildren(x) - Ids(found + pushed) < AllChildren(x) - Ids(found)
  {
    if pushed != [] {
      var todo := ChildrenOf(x, v.id);
      AddedIds(todo - Ids(found), depth + 1, pushed);
      IdsMore(found, pushed);
      ChildrenAmongAll(x, v.id);
      Shrinks(AllChildren(x), todo, Ids(found));
      assert Ids(found) + todo == Ids(found) + (todo - Ids(found));
    }
  }

  /** A doomed node was judged live. */
  ghost predicate Spoiled(x: Index, root: Id, bound: nat, results: seq<Verdict>) {
    exists i :: 0 <= i < |results| && !results[i].invalidated && results[i].id in Doomed(x, root, bound)
  }

  lemma SpoiledStays(x: Index, root: Id, bound: nat, results: seq<Verdict>, more: seq<Verdict>)
    requires Spoiled(x, root, bound, results) && results <= more
    ensures Spoiled(x, root, bound, more)
  {
    var i :| 0 <= i < |results| && !results[i].invalidated && results[i].id in Doomed(x, root, bound);
    assert more[i] == results[i];
  }

  /** The node is next in the queue, and the first of its depth. */
  ghost predicate AtHead(results: seq<Verdict>, found: seq<Found>, c: Id, n: nat) {
    |results| < |found| && found[|results|] == Found(c, n) && forall j :: 0 <= j < |results| ==> found[j].depth < n
  }

  lemma DepthsAtHead(x: Index, root: Id, bound: nat, results: seq<Verdict>, found: seq<Found>, c: Id, n: nat, k: nat)
    requires Searched(x, root, bound, results, found) && AtHead(results, found, c, n) && n >= 1 && k < |found|
    ensures found[k].depth <= n
  {
    hide Searched;
    var top, j := HangsWhere(x, root, bound, results, found, k);
  }

  /** A run under way that has gone wrong, or is about to judge this node first of its depth. */
  lemma {:induction false} Lead(x: Index, root: Id, bound: nat, c: Id, n: nat)
    returns (results: seq<Verdict>, found: seq<Found>)
    requires 1 <= n <= bound
    requires c in Near(x, root, Doomed(x, root, bound), n) && c !in Near(x, root, Doomed(x, root, bound), n - 1)
    ensures UnderWay(x, root, bound, results, found)
    ensures Spoiled(x, root, bound, results) || AtHead(results, found, c, n)
    decreases n
  {
    hide Searched, JudgedFairly, Narrow, Adds, Invalidated, Ids, Near, Doomed, StepAdds;
    var doomed := Doomed(x, root, bound);
    NearStep(x, root, doomed, n, c);
    if c in ChildrenOf(x, root) {
      if n > 1 { NearStep(x, root, doomed, n - 1, c); }
      found := FirstOrder(ChildrenOf(x, root), 1, c);
      results := [];
      Seeded(x, root, bound, found);
    } else {
      var b :| b in Near(x, root, doomed, n - 1) && b in doomed && c in ChildrenOf(x, b);
      if n == 1 { NoneNear(x, root, doomed); }
      NearStep(x, root, doomed, n - 1, c);
      results, found := Lead(x, root, bound, b, n - 1);
      if !Spoiled(x, root, bound, results) {
        results, found := LeadOn(x, root, bound, b, c, n, results, found);
      }
    }
  }

  /** From a run about to judge a doomed node to one about to judge its child. */
  lemma LeadOn(x: Index, root: Id, bound: nat, b: Id, c: Id, n: nat, results: seq<Verdict>, found: seq<Found>)
    returns (results': seq<Verdict>, found': seq<Found>)
    requires 2 <= n <= bound && b in Doomed(x, root, bound) && c in ChildrenOf(x, b)
    requires c !in Near(x, root, Doomed(x, root, bound), n - 1)
    requires UnderWay(x, root, bound, results, found) && AtHead(results, found, b, n - 1)
    ensures UnderWay(x, root, bound, results', found')
    ensures Spoiled(x, root, bound, results') || AtHead(results', found', c, n)
  {
    hide Searched, JudgedFairly, Narrow, Adds, Invalidated, Near, Doomed, StepAdds;
    var v, pushed := Turn(x, root, bound, results, found, c);
    forall k | 0 <= k < |found| ensures found[k].depth <= n - 1 && found[k].id != c {
      DepthsAtHead(x, root, bound, results, found, b, n - 1, k);
      FoundIsNear(x, root, bound, results, found, k);
      if found[k].id == c {
        NearGrows(x, root, Doomed(x, root, bound), Doomed(x, root, bound), found[k].depth, n - 1, c);
      }
    }
    if !v.invalidated {
      results', found' := results + [v], found + pushed;
      assert results'[|results|] == v;
    } else {
      assert c in ChildrenOf(x, v.id) - Ids(found);
      assert (found + pushed)[|found|] == Found(c, n);
      results', found' := GoOn(x, root, bound, results + [v], found + pushed, n - 1);
      HeadIs(x, root, bound, results', found', |found|, c, n, found, pushed);
    }
  }

  lemma HeadIs(x: Index, root: Id, bound: nat, results: seq<Verdict>, found: seq<Found>, at: nat, c: Id, n: nat,
               front: seq<Found>, pushed: seq<Found>)
    requires Searched(x, root, bound, results, found) && n >= 1
    requires front + pushed <= found && at == |front| < |found| && found[at] == Found(c, n)
    requires forall k :: 0 <= k < |front| ==> front[k].depth <= n - 1
    requires |results| < |found| ==> found[|results|].depth > n - 1
    requires forall k :: 0 <= k < |results| ==> k < |found| && (k < |front| || found[k].depth <= n - 1)
    ensures AtHead(results, found, c, n)
  {
    assert forall k :: 0 <= k < |front| ==> found[k] == front[k];
  }

  /** Where a doomed parent is found no sooner than its doomed child, some run is not exact. */
  lemma InexactRun(x: Index, root: Id, bound: nat, c: Id, q: Id, n: nat)
    returns (results: seq<Verdict>, found: seq<Found>)
    requires 1 <= n <= bound && DoomedParent(x, root, bound, c, q)
    requires c in Near(x, root, Doomed(x, root, bound), n) && q !in Near(x, root, Doomed(x, root, bound), n - 1)
    ensures RunOf(x, root, bound, results, found) && Invalidated(results) != Doomed(x, root, bound)
    decreases n
  {
    hide Searched, JudgedFairly, Narrow, Adds, Invalidated, Ids, Near, Doomed, StepAdds;
    var doomed := Doomed(x, root, bound);
    if c in Near(x, root, doomed, n - 1) {
      if n == 1 { NoneNear(x, root, doomed); }
      if q in Near(x, root, doomed, n - 2) { NearGrows(x, root, doomed, doomed, n - 2, n - 1, q); }
      results, found := InexactRun(x, root, bound, c, q, n - 1);
    } else {
      results, found := Lead(x, root, bound, c, n);
      if !Spoiled(x, root, bound, results) {
        var v, pushed := Turn(x, root, bound, results, found, root);
        if q in Invalidated(results) {
          assert results[..|results|] == results;
          var j := InvalidatedIndex(results, |results|, q);
          FoundIsNear(x, root, bound, results, found, j);
          VerdictOf(x, root, bound, results, found, j);
          NearGrows(x, root, doomed, doomed, found[j].depth, n - 1, q);
        }
        assert HasParentOutside(x, c, x.removed + {root} + Invalidated(results));
        assert (results + [v])[|results|] == v;
        results, found := results + [v], found + pushed;
      }
      var before := results;
      results, found := GoOn(x, root, bound, results, found, bound);
      SpoiledStays(x, root, bound, before, results);
      SpoiledIsInexact(x, root, bound, results, found);
    }
  }

  lemma SpoiledIsInexact(x: Index, root: Id, bound: nat, results: seq<Verdict>, found: seq<Found>)
    requires TraceOf(x, root, bound, results, found) && bound >= 1 && Spoiled(x, root, bound, results)
    requires |results| < |found| ==> found[|results|].depth > bound
    ensures |results| == |found| && Invalidated(results) != Doomed(x, root, bound)
  {
    hide Searched, JudgedFairly, Invalidated, Doomed, Near;
    BothCount(x, root, bound, results, found);
    if |results| < |found| { FoundIsNear(x, root, bound, results, found, |results|); }
    var i :| 0 <= i < |results| && !results[i].invalidated && results[i].id in Doomed(x, root, bound);
    VerdictOf(x, root, bound, results, found, i);
  }

  /** Every run of propagate, whatever the order in which it walks the children,
      invalidates exactly the depth-bounded least fixpoint, if and only if whoever is
      doomed finds its doomed parents a step nearer to the root. */
  lemma EveryRunExactly(x: Index, root: Id, bound: nat)
    requires bound >= 1
    ensures EveryRunExact(x, root, bound) <==> Timely(x, root, bound)
  {
    hide Searched, JudgedFairly, Near, Doomed, Invalidated, DoomedParent;
    if Timely(x, root, bound) {
      forall results, found | RunOf(x, root, bound, results, found)
        ensures Invalidated(results) == Doomed(x, root, bound)
      {
        TimelyIsExact(x, root, bound, results, found);
      }
    } else {
      var c, q, n :| 1 <= n <= bound && c in Near(x, root, Doomed(x, root, bound), n) &&
        DoomedParent(x, root, bound, c, q) &&
        q !in Near(x, root, Doomed(x, root, bound), n - 1);
      var results, found := InexactRun(x, root, bound, c, q, n);
      assert RunOf(x, root, bound, results, found);
    }
  }

  // ---- Rounds, and graded lineage ----

  /** Round by round, the nodes that hang below a dead node and have lost every parent. */
  ghost function Rounds(x: Index, root: Id, n: nat): set<Id> {
    if n == 0 then {}
    else
      var dead := Rounds(x, root, n - 1);
      dead + (set c | c in AllChildren(x) && HangsBelow(x, root, dead, c) && Orphaned(x, root, dead, c))
  }

  lemma {:induction false} RoundsAreDoomed(x: Index, root: Id, bound: nat, n: nat, c: Id)
    requires n <= bound && c in Rounds(x, root, n)
    ensures c in Doomed(x, root, bound) && c in Near(x, root, Doomed(x, root, bound), n)
  {
    hide Doomed, Near;
    var doomed, dead := Doomed(x, root, bound), Rounds(x, root, n - 1);
    forall b | b in dead ensures b in doomed && b in Near(x, root, doomed, n - 1) {
      RoundsAreDoomed(x, root, bound, n - 1, b);
    }
    NearStep(x, root, doomed, n, c);
    if c !in dead {
      OrphanedMore(x, root, dead, doomed, c);
      NearGrows(x, root, doomed, doomed, n, bound, c);
      DoomedIsClosed(x, root, bound);
    }
  }

  lemma {:induction false} DoomedInRound(x: Index, root: Id, bound: nat, n: nat, c: Id)
    requires Timely(x, root, bound) && n <= bound
    requires c in Doomed(x, root, bound) && c in Near(x, root, Doomed(x, root, bound), n)
    ensures c in Rounds(x, root, n)
    decreases n
  {
    hide Doomed, Near, Rounds;
    var doomed := Doomed(x, root, bound);
    if n == 0 { NoneNear(x, root, doomed); }
    NearStep(x, root, doomed, n, c);
    DoomedIsLeast(x, root, bound);
    forall q | q in ParentsOf(x, c) ensures q in x.removed + {root} + Rounds(x, root, n - 1) {
      assert q in x.removed + {root} + doomed;
      if q !in x.removed && q != root {
        assert DoomedParent(x, root, bound, c, q);
        DoomedInRound(x, root, bound, n - 1, q);
      }
    }
    if c in Near(x, root, doomed, n - 1) {
      DoomedInRound(x, root, bound, n - 1, c);
    } else if c !in ChildrenOf(x, root) {
      var b :| b in Near(x, root, doomed, n - 1) && b in doomed && c in ChildrenOf(x, b);
      DoomedInRound(x, root, bound, n - 1, b);
    }
    NearAmongAll(x, root, doomed, n, c);
    InRound(x, root, n, c);
  }

  lemma InRound(x: Index, root: Id, n: nat, c: Id)
    requires n > 0 && c in AllChildren(x)
    requires c in Rounds(x, root, n - 1) || HangsBelow(x, root, Rounds(x, root, n - 1), c)
    requires forall q :: q in ParentsOf(x, c) ==> q in x.removed + {root} + Rounds(x, root, n - 1)
    ensures c in Rounds(x, root, n)
  {
  }

  /** Under the same condition the fixpoint is what the rounds up to the bound kill. */
  lemma TimelyIsRounds(x: Index, root: Id, bound: nat)
    requires Timely(x, root, bound)
    ensures Doomed(x, root, bound) == Rounds(x, root, bound)
  {
    hide Doomed, Near, Rounds, Timely;
    DoomedIsLeast(x, root, bound);
    forall c | c in Doomed(x, root, bound) ensures c in Rounds(x, root, bound) {
      DoomedInRound(x, root, bound, bound, c);
    }
    forall c | c in Rounds(x, root, bound) ensures c in Doomed(x, root, bound) {
      RoundsAreDoomed(x, root, bound, bound, c);
    }
  }

  /** Every link goes one step down, and every parent lies above its child. */
  ghost predicate Graded(x: Index, rank: Id -> int) {
    && (forall p, c :: c in ChildrenOf(x, p) ==> rank(c) == rank(p) + 1)
    && (forall c, q :: q in ParentsOf(x, c) ==> rank(q) < rank(c))
  }

  lemma {:induction false} NearRank(x: Index, root: Id, dead: set<Id>, rank: Id -> int, n: nat, c: Id)
    requires Graded(x, rank) && c in Near(x, root, dead, n)
    ensures 1 <= rank(c) - rank(root) <= n && c in Near(x, root, dead, rank(c) - rank(root))
  {
    hide Near;
    if n == 0 { NoneNear(x, root, dead); }
    NearStep(x, root, dead, n, c);
    if c in Near(x, root, dead, n - 1) {
      NearRank(x, root, dead, rank, n - 1, c);
    } else if c in ChildrenOf(x, root) {
      NearStep(x, root, dead, 1, c);
    } else {
      var b :| b in Near(x, root, dead, n - 1) && b in dead && c in ChildrenOf(x, b);
      NearRank(x, root, dead, rank, n - 1, b);
      NearStep(x, root, dead, rank(c) - rank(root), c);
    }
  }

  /** Graded lineage is one case: a run invalidates exactly what the rounds kill. */
  lemma GradedIsExact(x: Index, root: Id, bound: nat, rank: Id -> int, results: seq<Verdict>, found: seq<Found>)
    requires RunOf(x, root, bound, results, found) && Graded(x, rank) && bound >= 1
    ensures Invalidated(results) == Doomed(x, root, bound) == Rounds(x, root, bound)
  {
    hide Near, Doomed;
    var doomed := Doomed(x, root, bound);
    DoomedIsLeast(x, root, bound);
    forall c, q, n | 1 <= n <= bound && c in Near(x, root, doomed, n) && DoomedParent(x, root, bound, c, q)
      ensures q in Near(x, root, doomed, n - 1)
    {
      NearRank(x, root, doomed, rank, n, c);
      NearRank(x, root, doomed, rank, bound, q);
      NearGrows(x, root, doomed, doomed, rank(q) - rank(root), n - 1, q);
    }
    TimelyIsExact(x, root, bound, results, found);
    TimelyIsRounds(x, root, bound);
  }
}
