/** The MemTable's skip list: linked nodes carrying one forward pointer per
    level.  Three layers are kept apart.  The pointers thread the nodes; ghost
    `levels` and `Slots` list the nodes' levels and contents in key order; and
    the sorted list `Slots` stands for a finite map (module SortedSlots). */
module SortedSlots {
  import opened Common

  /** What the iterator yields at one position. */
  datatype Slot = Slot(key: Key, value: Bytes, isTombstone: bool)

  ghost predicate SlotsAscend(s: seq<Slot>) {
    forall i, j :: 0 <= i < j < |s| ==> s[i].key < s[j].key
  }

  function Find(s: seq<Slot>, key: Key): Option<Slot> {
    if s == [] then None else if s[0].key == key then Some(s[0]) else Find(s[1..], key)
  }

  /** Insert or replace: the new value is live whatever the slot was before. */
  function PutSlot(s: seq<Slot>, key: Key, value: Bytes): seq<Slot> {
    if s == [] || key < s[0].key then [Slot(key, value, false)] + s
    else if s[0].key == key then [Slot(key, value, false)] + s[1..]
    else [s[0]] + PutSlot(s[1..], key, value)
  }

  /** Deletion only flags the slot; an absent key leaves no trace. */
  function RemoveSlot(s: seq<Slot>, key: Key): seq<Slot> {
    if s == [] then []
    else if s[0].key == key then [s[0].(isTombstone := true)] + s[1..]
    else [s[0]] + RemoveSlot(s[1..], key)
  }

  lemma {:induction false} FindAt(s: seq<Slot>, key: Key, i: nat)
    requires SlotsAscend(s) && i < |s| && s[i].key == key
    ensures Find(s, key) == Some(s[i])
  {
    if i > 0 {
      assert s[0].key < s[i].key;
      FindAt(s[1..], key, i - 1);
    }
  }

  lemma {:induction false} FindNone(s: seq<Slot>, key: Key)
    requires forall i :: 0 <= i < |s| ==> s[i].key != key
    ensures Find(s, key) == None
  {
    if s != [] { FindNone(s[1..], key); }
  }

  /** PutSlot is a map update: it keeps the order and changes one key. */
  lemma {:induction false} PutSlotIsUpdate(s: seq<Slot>, key: Key, value: Bytes, other: Key)
    requires SlotsAscend(s)
    ensures SlotsAscend(PutSlot(s, key, value))
    ensures Find(PutSlot(s, key, value), other) ==
            if other == key then Some(Slot(key, value, false)) else Find(s, other)
    ensures forall x :: x in PutSlot(s, key, value) ==> x in s || x.key == key
  {
    if s != [] && s[0].key < key {
      PutSlotIsUpdate(s[1..], key, value, other);
      assert PutSlot(s, key, value)[1..] == PutSlot(s[1..], key, value);
    } else if s != [] && s[0].key == key {
      assert PutSlot(s, key, value)[1..] == s[1..];
    } else {
      assert PutSlot(s, key, value)[1..] == s;
    }
  }

  /** RemoveSlot keeps the order and flags one key, if it is there. */
  lemma {:induction false} RemoveSlotIsUpdate(s: seq<Slot>, key: Key, other: Key)
    requires SlotsAscend(s)
    ensures SlotsAscend(RemoveSlot(s, key)) && |RemoveSlot(s, key)| == |s|
    ensures forall i :: 0 <= i < |s| ==> RemoveSlot(s, key)[i].key == s[i].key
    ensures Find(RemoveSlot(s, key), other) ==
            if other == key && Find(s, key).Some? then Some(Find(s, key).value.(isTombstone := true))
            else Find(s, other)
  {
    if s != [] && s[0].key != key {
      RemoveSlotIsUpdate(s[1..], key, other);
      assert RemoveSlot(s, key)[1..] == RemoveSlot(s[1..], key);
    } else if s != [] {
      assert RemoveSlot(s, key)[1..] == s[1..];
      FindNone(s[1..], key);
    }
  }

  /** `at` is where `key` is, or would have to be inserted. */
  ghost predicate Splits(s: seq<Slot>, at: nat, key: Key) {
    && at <= |s|
    && (forall i :: 0 <= i < at ==> s[i].key < key)
    && (forall i :: at < i < |s| ==> key < s[i].key)
    && (at < |s| ==> key <= s[at].key)
  }

  lemma {:induction false} PutSlotReplaces(s: seq<Slot>, at: nat, key: Key, value: Bytes)
    requires Splits(s, at, key) && at < |s| && s[at].key == key
    ensures PutSlot(s, key, value) == s[at := Slot(key, value, false)]
  {
    if at > 0 {
      PutSlotReplaces(s[1..], at - 1, key, value);
      assert s[at := Slot(key, value, false)] == [s[0]] + s[1..][at - 1 := Slot(key, value, false)];
    }
  }

  lemma {:induction false} PutSlotInserts(s: seq<Slot>, at: nat, key: Key, value: Bytes)
    requires Splits(s, at, key) && (at < |s| ==> s[at].key != key)
    ensures PutSlot(s, key, value) == s[..at] + [Slot(key, value, false)] + s[at..]
  {
    if at > 0 {
      var rest, x := s[1..], Slot(key, value, false);
      PutSlotInserts(rest, at - 1, key, value);
      assert PutSlot(s, key, value) == [s[0]] + (rest[..at - 1] + [x] + rest[at - 1..]);
      assert s[..at] == [s[0]] + rest[..at - 1];
      assert s[at..] == rest[at - 1..];
    }
  }

  /** What a put finds and does at the place the descent leads to. */
  lemma PutSlotAt(s: seq<Slot>, at: nat, key: Key, value: Bytes)
    requires SlotsAscend(s) && Splits(s, at, key)
    ensures at < |s| && s[at].key == key ==>
              Find(s, key) == Some(s[at]) && PutSlot(s, key, value) == s[at := Slot(key, value, false)]
    ensures !(at < |s| && s[at].key == key) ==>
              Find(s, key) == None && PutSlot(s, key, value) == s[..at] + [Slot(key, value, false)] + s[at..]
  {
    if at < |s| && s[at].key == key {
      FindAt(s, key, at);
      PutSlotReplaces(s, at, key, value);
    } else {
      FindNone(s, key);
      PutSlotInserts(s, at, key, value);
    }
  }

  lemma {:induction false} RemoveSlotAt(s: seq<Slot>, at: nat, key: Key)
    requires Splits(s, at, key)
    ensures RemoveSlot(s, key) ==
            if at < |s| && s[at].key == key then s[at := s[at].(isTombstone := true)] else s
  {
    if at > 0 {
      RemoveSlotAt(s[1..], at - 1, key);
    } else if s != [] && s[0].key != key {
      RemoveSlotAbsent(s, key);
    }
  }

  lemma {:induction false} RemoveSlotAbsent(s: seq<Slot>, key: Key)
    requires forall i :: 0 <= i < |s| ==> s[i].key != key
    ensures RemoveSlot(s, key) == s
  {
    if s != [] { RemoveSlotAbsent(s[1..], key); }
  }

  lemma SplitsFind(s: seq<Slot>, at: nat, key: Key)
    requires SlotsAscend(s) && Splits(s, at, key)
    ensures Find(s, key) == if at < |s| && s[at].key == key then Some(s[at]) else None
  {
    if at < |s| && s[at].key == key { FindAt(s, key, at); } else { FindNone(s, key); }
  }

  lemma SplitsFromNeighbours(s: seq<Slot>, at: nat, key: Key)
    requires SlotsAscend(s) && at <= |s|
    requires at > 0 ==> s[at - 1].key < key
    requires at < |s| ==> key <= s[at].key
    ensures Splits(s, at, key)
  {
    forall i | 0 <= i < at ensures s[i].key < key {
      assert i < at - 1 ==> s[i].key < s[at - 1].key;
    }
    forall i | at < i < |s| ensures key < s[i].key {
      assert s[at].key < s[i].key;
    }
  }
}

module SkipLists {
  import opened Common
  import opened SortedSlots

  const MAX_LEVEL: nat := 16

  /** sizeof(Node) and sizeof(Node*) on a 64-bit target. */
  const NODE_SIZE: nat := 64
  const POINTER_SIZE: nat := 8

  /** The position of the first node after `p` that reaches level `i`. */
  ghost function NextIndex(levels: seq<nat>, p: nat, i: nat): (r: nat)
    requires p < |levels|
    ensures p < r <= |levels|
    ensures r < |levels| ==> levels[r] >= i
    ensures forall q :: p < q < r ==> levels[q] < i
    decreases |levels| - p
  {
    if p + 1 == |levels| || levels[p + 1] >= i then p + 1 else NextIndex(levels, p + 1, i)
  }

  /** NextIndex is determined by its three defining properties. */
  lemma NextIndexIs(levels: seq<nat>, p: nat, i: nat, r: nat)
    requires p < r <= |levels|
    requires r < |levels| ==> levels[r] >= i
    requires forall q :: p < q < r ==> levels[q] < i
    ensures NextIndex(levels, p, i) == r
  {
    var n := NextIndex(levels, p, i);
    assert !(n < r) && !(r < n);
  }

  /** The positions that reach level `i`, in order: the list threaded by forward[i]. */
  ghost function LevelList(levels: seq<nat>, i: nat, from: nat): seq<nat>
    requires from <= |levels|
    decreases |levels| - from
  {
    if from == |levels| then []
    else if levels[from] >= i then [from] + LevelList(levels, i, from + 1)
    else LevelList(levels, i, from + 1)
  }

  ghost predicate Subsequence<T>(s: seq<T>, t: seq<T>) {
    s == [] || (t != [] && ((s[0] == t[0] && Subsequence(s[1..], t[1..])) || Subsequence(s, t[1..])))
  }

  /** Each level is a subsequence of the level below it ... */
  lemma {:induction false} LevelsAreNested(levels: seq<nat>, i: nat, from: nat)
    requires from <= |levels|
    ensures Subsequence(LevelList(levels, i + 1, from), LevelList(levels, i, from))
    decreases |levels| - from
  {
    if from < |levels| {
      LevelsAreNested(levels, i, from + 1);
      var upper, lower := LevelList(levels, i + 1, from + 1), LevelList(levels, i, from + 1);
      assert ([from] + upper)[1..] == upper && ([from] + lower)[1..] == lower;
    }
  }

  lemma {:induction false} LevelListBounds(levels: seq<nat>, i: nat, from: nat, a: nat)
    requires from <= |levels| && a < |LevelList(levels, i, from)|
    ensures from <= LevelList(levels, i, from)[a] < |levels|
    decreases |levels| - from
  {
    if levels[from] < i {
      LevelListBounds(levels, i, from + 1, a);
    } else if a > 0 {
      LevelListBounds(levels, i, from + 1, a - 1);
    }
  }

  /** ... and ascends, so with ascending keys each level is sorted. */
  lemma {:induction false} LevelAscends(levels: seq<nat>, i: nat, from: nat, a: nat, b: nat)
    requires from <= |levels| && a < b < |LevelList(levels, i, from)|
    ensures LevelList(levels, i, from)[a] < LevelList(levels, i, from)[b]
    decreases |levels| - from
  {
    if levels[from] < i {
      LevelAscends(levels, i, from + 1, a, b);
    } else if a > 0 {
      LevelAscends(levels, i, from + 1, a - 1, b - 1);
    } else {
      LevelListBounds(levels, i, from + 1, b - 1);
    }
  }

  /** Following NextIndex from a position walks exactly the rest of its level. */
  lemma {:induction false} NextIndexWalksLevel(levels: seq<nat>, p: nat, i: nat)
    requires p < |levels|
    ensures LevelList(levels, i, p + 1) ==
            (var r := NextIndex(levels, p, i);
             if r == |levels| then [] else [r] + LevelList(levels, i, r + 1))
    decreases |levels| - p
  {
    if p + 1 < |levels| && levels[p + 1] < i {
      NextIndexWalksLevel(levels, p + 1, i);
    }
  }

  lemma InsertKeepsOrder(s: seq<Slot>, at: nat, x: Slot)
    requires SlotsAscend(s) && Splits(s, at, x.key) && (at < |s| ==> s[at].key != x.key)
    ensures SlotsAscend(Inserted(s, at, x))
  {
    var r := Inserted(s, at, x);
    forall i, j | 0 <= i < j < |r| ensures r[i].key < r[j].key {
      assert i > at ==> r[i] == s[i - 1];
      assert j > at ==> r[j] == s[j - 1];
    }
  }

  ghost function Inserted<T>(s: seq<T>, at: nat, x: T): (r: seq<T>)
    requires at <= |s|
    ensures |r| == |s| + 1 && r[at] == x
    ensures forall q :: 0 <= q < at ==> r[q] == s[q]
    ensures forall q :: at < q <= |s| ==> r[q] == s[q - 1]
  {
    s[..at] + [x] + s[at..]
  }

  /** Inserting a node redirects or keeps the level links of the nodes before it ... */
  lemma NextIndexBeforeInsert(levels: seq<nat>, at: nat, level: nat, p: nat, i: nat)
    requires p < at <= |levels|
    ensures NextIndex(Inserted(levels, at, level), p, i) ==
            (var r := NextIndex(levels, p, i); if r < at then r else if i <= level then at else r + 1)
  {
    var after := Inserted(levels, at, level);
    var r := NextIndex(levels, p, i);
    var r' := if r < at then r else if i <= level then at else r + 1;
    forall q | p < q < r' ensures after[q] < i {
      if q > at { assert after[q] == levels[q - 1]; }
    }
    NextIndexIs(after, p, i, r');
  }

  /** ... shifts those of the nodes behind it ... */
  lemma NextIndexAfterInsert(levels: seq<nat>, at: nat, level: nat, p: nat, i: nat)
    requires at <= p < |levels|
    ensures NextIndex(Inserted(levels, at, level), p + 1, i) == NextIndex(levels, p, i) + 1
  {
    var after := Inserted(levels, at, level);
    forall q | p + 1 < q < NextIndex(levels, p, i) + 1 ensures after[q] < i {
      assert after[q] == levels[q - 1];
    }
    NextIndexIs(after, p + 1, i, NextIndex(levels, p, i) + 1);
  }

  /** ... and gives the new node the link its predecessor had. */
  lemma NextIndexOfInserted(levels: seq<nat>, at: nat, level: nat, p: nat, i: nat)
    requires p < at <= |levels|
    requires NextIndex(levels, p, i) >= at
    ensures NextIndex(Inserted(levels, at, level), at, i) == NextIndex(levels, p, i) + 1
  {
    var after := Inserted(levels, at, level);
    forall q | at < q < NextIndex(levels, p, i) + 1 ensures after[q] < i {
      assert after[q] == levels[q - 1];
    }
    NextIndexIs(after, at, i, NextIndex(levels, p, i) + 1);
  }

  function EstimateNodeSize(level: nat, value: Bytes): nat {
    NODE_SIZE + (level + 1) * POINTER_SIZE + |value|
  }

  /** The memory estimate after a put: an overwrite counts the change of the value, an
      insert a node of the height drawn. */
  function UsageAfterPut(usage: int, slots: seq<Slot>, key: Key, value: Bytes, level: nat): int {
    match Find(slots, key)
    case Some(slot) => usage - |slot.value| + |value|
    case None => usage + EstimateNodeSize(level, value)
  }

  /** The sum of the estimates of all entries; `levels` omits the head here. */
  ghost function Usage(levels: seq<nat>, slots: seq<Slot>): nat
    requires |levels| == |slots|
  {
    if slots == [] then 0 else EstimateNodeSize(levels[0], slots[0].value) + Usage(levels[1..], slots[1..])
  }

  function TotalLevels(levels: seq<nat>): nat {
    if levels == [] then 0 else levels[0] + TotalLevels(levels[1..])
  }

  function TotalBytes(slots: seq<Slot>): nat {
    if slots == [] then 0 else |slots[0].value| + TotalBytes(slots[1..])
  }

  /** The whole estimate: 64 bytes a node, 8 a forward pointer, and the bytes of the values. */
  lemma {:induction false} UsageExactly(levels: seq<nat>, slots: seq<Slot>)
    requires |levels| == |slots|
    ensures Usage(levels, slots) == 64 * |slots| + 8 * (TotalLevels(levels) + |slots|) + TotalBytes(slots)
  {
    if slots != [] { UsageExactly(levels[1..], slots[1..]); }
  }

  lemma {:induction false} UsageInsert(levels: seq<nat>, slots: seq<Slot>, at: nat, level: nat, slot: Slot)
    requires |levels| == |slots| && at <= |slots|
    ensures Usage(Inserted(levels, at, level), Inserted(slots, at, slot)) ==
            Usage(levels, slots) + EstimateNodeSize(level, slot.value)
  {
    var ls, ss := Inserted(levels, at, level), Inserted(slots, at, slot);
    if at == 0 {
      assert ls[1..] == levels && ss[1..] == slots;
    } else {
      UsageInsert(levels[1..], slots[1..], at - 1, level, slot);
      assert ls[1..] == Inserted(levels[1..], at - 1, level) && ss[1..] == Inserted(slots[1..], at - 1, slot);
    }
  }

  lemma {:induction false} UsageUpdate(levels: seq<nat>, slots: seq<Slot>, at: nat, slot: Slot)
    requires |levels| == |slots| && at < |slots|
    ensures Usage(levels, slots[at := slot]) == Usage(levels, slots) - |slots[at].value| + |slot.value|
  {
    if at == 0 {
      assert slots[at := slot][1..] == slots[1..];
    } else {
      UsageUpdate(levels[1..], slots[1..], at - 1, slot);
      assert slots[at := slot][1..] == slots[1..][at - 1 := slot];
    }
  }

  class Node {
    const key: Key
    const level: nat
    var value: Bytes
    var isTombstone: bool
    var forward: seq<Node?>

    constructor (key: Key, value: Bytes, level: nat)
      ensures this.key == key && this.level == level
      ensures this.value == value && !isTombstone
      ensures |forward| == level + 1
      ensures forall i :: 0 <= i <= level ==> forward[i] == null
    {
      this.key := key;
      this.level := level;
      this.value := value;
      isTombstone := false;
      forward := seq(level + 1, i => null);
    }
  }

  ghost function NodeAt(nodes: seq<Node>, p: nat): Node? {
    if p < |nodes| then nodes[p] else null
  }

  /** The three lemmas above, read as link targets: a splice at `at` redirects the
      level-j link of position `pred` only. */
  lemma LinkBeforeInsert(nodes: seq<Node>, levels: seq<nat>, at: nat, n: Node, p: nat, j: nat)
    requires |nodes| == |levels| && p < at <= |nodes|
    ensures NodeAt(Inserted(nodes, at, n), NextIndex(Inserted(levels, at, n.level), p, j)) ==
            if j <= n.level && NextIndex(levels, p, j) >= at then n else NodeAt(nodes, NextIndex(levels, p, j))
  {
    NextIndexBeforeInsert(levels, at, n.level, p, j);
  }

  lemma LinkAfterInsert(nodes: seq<Node>, levels: seq<nat>, at: nat, n: Node, p: nat, j: nat)
    requires |nodes| == |levels| && at <= p < |nodes|
    ensures NodeAt(Inserted(nodes, at, n), NextIndex(Inserted(levels, at, n.level), p + 1, j)) ==
            NodeAt(nodes, NextIndex(levels, p, j))
  {
    NextIndexAfterInsert(levels, at, n.level, p, j);
  }

  lemma LinkOfInserted(nodes: seq<Node>, levels: seq<nat>, at: nat, n: Node, p: nat, j: nat)
    requires |nodes| == |levels| && p < at <= |nodes| && NextIndex(levels, p, j) >= at
    ensures NodeAt(Inserted(nodes, at, n), NextIndex(Inserted(levels, at, n.level), at, j)) ==
            NodeAt(nodes, NextIndex(levels, p, j))
  {
    NextIndexOfInserted(levels, at, n.level, p, j);
  }

  ghost predicate LinkedIn(nodes: seq<Node>, levels: seq<nat>, p: nat)
    requires p < |nodes| == |levels|
    reads nodes`forward
  {
    && |nodes[p].forward| == levels[p] + 1
    && forall i :: 0 <= i <= levels[p] ==> nodes[p].forward[i] == NodeAt(nodes, NextIndex(levels, p, i))
  }

  ghost predicate CarriedIn(head: Node, nodes: seq<Node>, slots: seq<Slot>, p: nat)
    requires 1 <= p < |nodes| == |slots| + 1
    reads nodes`value, nodes`isTombstone
  {
    && nodes[p] != head
    && slots[p - 1] == Slot(nodes[p].key, nodes[p].value, nodes[p].isTombstone)
  }

  lemma CarriedAfterInsert(head: Node, nodes: seq<Node>, slots: seq<Slot>, at: nat, n: Node,
                           nodes': seq<Node>, slots': seq<Slot>)
    requires |nodes| == |slots| + 1 && at < |nodes| && n != head
    requires forall p :: 1 <= p < |nodes| ==> CarriedIn(head, nodes, slots, p)
    requires nodes' == Inserted(nodes, at + 1, n)
    requires slots' == Inserted(slots, at, Slot(n.key, n.value, n.isTombstone))
    ensures forall p :: 1 <= p < |nodes'| ==> CarriedIn(head, nodes', slots', p)
  {
    forall p | 1 <= p < |nodes'| ensures CarriedIn(head, nodes', slots', p) {
      if p <= at {
        assert CarriedIn(head, nodes, slots, p);
      } else if p > at + 1 {
        assert CarriedIn(head, nodes, slots, p - 1);
      }
    }
  }

  lemma CarriedAfterRewrite(head: Node, nodes: seq<Node>, slots: seq<Slot>, at: nat, slots': seq<Slot>)
    requires |nodes| == |slots| + 1 && at < |slots|
    requires forall p :: 1 <= p < |nodes| && p != at + 1 ==> CarriedIn(head, nodes, slots, p)
    requires nodes[at + 1] != head
    requires slots' == slots[at := Slot(nodes[at + 1].key, nodes[at + 1].value, nodes[at + 1].isTombstone)]
    ensures forall p :: 1 <= p < |nodes| ==> CarriedIn(head, nodes, slots', p)
  {
    forall p | 1 <= p < |nodes| ensures CarriedIn(head, nodes, slots', p) {
      assert p != at + 1 ==> CarriedIn(head, nodes, slots, p);
    }
  }

  class SkipList {
    const head: Node
    var currentLevel: nat
    var size: nat
    var approximateMemoryUsage: int
    ghost var nodes: seq<Node>     // the head, then the entries in key order
    ghost var levels: seq<nat>     // their levels
    ghost var Slots: seq<Slot>     // the entries' contents
    ghost var Repr: set<object>

    ghost predicate Valid()
      reads this, Repr
      ensures Valid() ==> this in Repr
    {
      && this in Repr
      && |nodes| == |levels| == |Slots| + 1 && nodes[0] == head
      && (forall p :: 0 <= p < |nodes| ==> nodes[p] in Repr && nodes[p].level == levels[p])
      && (forall p :: 1 <= p < |nodes| ==> Carries(p))
      && (forall p :: 0 <= p < |nodes| ==> Linked(p))
      && SlotsAscend(Slots)
      && levels[0] == MAX_LEVEL && currentLevel <= MAX_LEVEL
      && (forall p :: 1 <= p < |levels| ==> levels[p] <= currentLevel)
      && size == |Slots|
      && approximateMemoryUsage == Usage(levels[1..], Slots)
    }

    ghost predicate Carries(p: nat)
      requires 1 <= p < |nodes| == |Slots| + 1
      reads `nodes, `Slots, nodes`value, nodes`isTombstone
    {
      CarriedIn(head, nodes, Slots, p)
    }

    /** Every forward pointer of the node leads to the next node of that level. */
    ghost predicate Linked(p: nat)
      requires p < |nodes| == |levels|
      reads `nodes, `levels, nodes`forward
    {
      LinkedIn(nodes, levels, p)
    }

    constructor ()
      ensures Valid() && fresh(Repr)
      ensures Slots == []
    {
      var h := new Node(0, [], MAX_LEVEL);
      head := h;
      currentLevel := 0;
      size := 0;
      approximateMemoryUsage := 0;
      nodes := [h];
      levels := [MAX_LEVEL];
      Slots := [];
      Repr := {this, h};
    }

    /** `p` is the last node of level `i` that is the head or has a smaller key. */
    ghost predicate IsPredecessor(p: nat, i: nat, key: Key)
      requires |levels| == |Slots| + 1
      reads this
    {
      && p < |levels| && levels[p] >= i
      && (p >= 1 ==> Slots[p - 1].key < key)
      && (var r := NextIndex(levels, p, i); r < |levels| ==> key <= Slots[r - 1].key)
    }

    ghost predicate Predecessors(update: seq<Node>, pos: seq<nat>, key: Key)
      requires |nodes| == |levels| == |Slots| + 1
      reads this
    {
      && |update| == |pos|
      && forall i :: 0 <= i < |pos| ==> IsPredecessor(pos[i], i, key) && update[i] == nodes[pos[i]]
    }

    /** Move right on one level while the next key is smaller. */
    method Walk(start: Node, ghost from: nat, i: nat, key: Key) returns (current: Node, ghost p: nat)
      requires Valid()
      requires from < |nodes| && start == nodes[from] && levels[from] >= i
      requires from >= 1 ==> Slots[from - 1].key < key
      ensures IsPredecessor(p, i, key) && current == nodes[p]
    {
      current, p := start, from;
      assert Linked(p);
      while current.forward[i] != null && current.forward[i].key < key
        invariant p < |nodes| && nodes[p] == current && (p >= 1 ==> Slots[p - 1].key < key)
        invariant levels[p] >= i && Linked(p)
        decreases |nodes| - p
      {
        p := NextIndex(levels, p, i);
        current := current.forward[i];
        assert Carries(p) && Linked(p);
      }
      assert var r := NextIndex(levels, p, i); r < |nodes| ==> Carries(r);
    }

    /** The descent every operation starts with: from the top level down, walk
        each level and remember where the walk turned down. */
    method Descend(key: Key) returns (update: seq<Node>, ghost pos: seq<nat>)
      requires Valid()
      ensures |pos| == currentLevel + 1 && Predecessors(update, pos, key)
      ensures |update[0].forward| > 0 && update[0].forward[0] == NodeAt(nodes, pos[0] + 1)
      ensures Splits(Slots, pos[0], key)
    {
      var current, i := head, currentLevel + 1;
      ghost var p: nat := 0;
      update := seq(currentLevel + 1, j => head);
      pos := seq(currentLevel + 1, j => 0);
      while i > 0
        invariant 0 <= i <= currentLevel + 1 == |update| == |pos|
        invariant p < |nodes| && nodes[p] == current && (p >= 1 ==> Slots[p - 1].key < key)
        invariant i > 0 ==> levels[p] >= i - 1
        invariant forall j :: i <= j <= currentLevel ==> IsPredecessor(pos[j], j, key) && update[j] == nodes[pos[j]]
      {
        i := i - 1;
        current, p := Walk(current, p, i, key);
        update, pos := update[i := current], pos[i := p];
      }
      assert IsPredecessor(pos[0], 0, key) && Linked(pos[0]);
      NextIndexIs(levels, pos[0], 0, pos[0] + 1);
      SplitsFromNeighbours(Slots, pos[0], key);
    }

    /** Look up a key; a tombstoned node reads as absent. */
    method Get(key: Key) returns (r: Option<Bytes>)
      requires Valid()
      ensures r == match Find(Slots, key)
                   case Some(s) => (if s.isTombstone then None else Some(s.value))
                   case None => None
    {
      var update, pos := Descend(key);
      SplitsFind(Slots, pos[0], key);
      var current := update[0].forward[0];
      assert current != null ==> Carries(pos[0] + 1);
      if current != null && current.key == key && !current.isTombstone {
        return Some(current.value);
      }
      return None;
    }

    method Contains(key: Key) returns (r: bool)
      requires Valid()
      ensures r <==> Find(Slots, key).Some? && !Find(Slots, key).value.isTombstone
    {
      var update, pos := Descend(key);
      SplitsFind(Slots, pos[0], key);
      var current := update[0].forward[0];
      assert current != null ==> Carries(pos[0] + 1);
      return current != null && current.key == key && !current.isTombstone;
    }

    /** An iterator position: the first node whose key is not below `key`, or null. */
    method LowerBound(key: Key) returns (n: Node?, ghost at: nat)
      requires Valid()
      ensures Splits(Slots, at, key)
      ensures n == NodeAt(nodes, at + 1) && (n != null ==> n.key == Slots[at].key)
      ensures n == null <==> forall i :: 0 <= i < |Slots| ==> Slots[i].key < key
      ensures n != null ==>
                n.key >= key && forall i :: 0 <= i < |Slots| && Slots[i].key >= key ==> n.key <= Slots[i].key
    {
      var update, pos := Descend(key);
      n, at := update[0].forward[0], pos[0];
      assert n != null ==> Carries(at + 1);
      assert n == null ==> at == |Slots|;
    }

    /** Mark a key as deleted; the node and its value stay. */
    method Remove(key: Key) returns (found: bool)
      requires Valid()
      modifies Repr
      ensures Valid() && Repr == old(Repr)
      ensures found == Find(old(Slots), key).Some?
      ensures Slots == RemoveSlot(old(Slots), key)
    {
      var update, pos := Descend(key);
      ghost var at := pos[0];
      SplitsFind(Slots, at, key);
      RemoveSlotAt(Slots, at, key);
      var current := update[0].forward[0];
      assert current != null ==> Carries(at + 1);
      found := current != null && current.key == key;
      if found {
        RewriteSlot(at, current, current.value, true);
      }
    }

    lemma EmptyUsesNothing()
      requires Valid() && Slots == []
      ensures approximateMemoryUsage == 0
    {
    }

    /** Overwrite value and flag of one node: all links stay. */
    method RewriteSlot(ghost at: nat, n: Node, value: Bytes, isTombstone: bool)
      requires Valid()
      requires at < |Slots| && n == nodes[at + 1]
      modifies this, n
      ensures Valid() && Repr == old(Repr)
      ensures Slots == old(Slots)[at := Slot(old(Slots)[at].key, value, isTombstone)]
      ensures approximateMemoryUsage == old(approximateMemoryUsage) - |old(Slots)[at].value| + |value|
    {
      hide LinkedIn, Usage, NextIndex;
      assert Carries(at + 1);
      DistinctNodes();
      UsageUpdate(levels[1..], Slots, at, Slot(Slots[at].key, value, isTombstone));
      approximateMemoryUsage := approximateMemoryUsage - |n.value| + |value|;
      n.value := value;
      n.isTombstone := isTombstone;
      forall p | 1 <= p < |nodes| && p != at + 1 ensures CarriedIn(head, nodes, Slots, p) {
        assert old(Carries(p));
      }
      ghost var slots' := Slots[at := Slot(n.key, value, isTombstone)];
      CarriedAfterRewrite(head, nodes, Slots, at, slots');
      Slots := slots';
      forall p | 0 <= p < |nodes| ensures Linked(p) && (p >= 1 ==> Carries(p)) {
        assert old(Linked(p)) && (p >= 1 ==> CarriedIn(head, nodes, Slots, p));
      }
    }

    /** Splice a new node into the levels 0..level, behind the remembered nodes. */
    method LinkIn(n: Node, update: seq<Node>, ghost pos: seq<nat>, ghost chain: set<Node>)
      requires Valid() && n !in Repr && |n.forward| == n.level + 1 <= |update| == |pos|
      requires forall p :: 0 <= p < |nodes| ==> nodes[p] in chain
      requires forall i :: 0 <= i < |pos| ==> pos[i] < |nodes| && levels[pos[i]] >= i && update[i] == nodes[pos[i]]
      modifies chain`forward, n`forward
      ensures |n.forward| == n.level + 1
      ensures forall j :: 0 <= j <= n.level ==> n.forward[j] == NodeAt(nodes, NextIndex(levels, pos[j], j))
      ensures forall p :: 0 <= p < |nodes| ==> Redirected(p, n, pos, |n.forward|)
    {
      var i := 0;
      DistinctNodes();
      forall p | 0 <= p < |nodes| ensures Redirected(p, n, pos, 0) {
        assert Linked(p);
      }
      while i <= n.level
        invariant 0 <= i <= n.level + 1 == |n.forward|
        invariant forall j :: 0 <= j < i ==> n.forward[j] == NodeAt(nodes, NextIndex(levels, pos[j], j))
        invariant forall p :: 0 <= p < |nodes| ==> Redirected(p, n, pos, i)
      {
        SpliceAt(n, update[i], pos, i, i + 1, chain);
        i := i + 1;
      }
    }

    method SpliceAt(n: Node, previous: Node, ghost pos: seq<nat>, i: nat, ghost next: nat,
                    ghost chain: set<Node>)
      requires next == i + 1
      requires |nodes| == |levels| && (forall p :: 0 <= p < |nodes| ==> nodes[p] in chain)
      requires (forall p, q :: 0 <= p < q < |nodes| ==> nodes[p] != nodes[q]) && n !in nodes
      requires i < |pos| && pos[i] < |nodes| && levels[pos[i]] >= i && previous == nodes[pos[i]]
      requires i < |n.forward|
      requires forall p :: 0 <= p < |nodes| ==> Redirected(p, n, pos, i)
      modifies chain`forward, n`forward
      ensures n.forward == old(n.forward)[i := NodeAt(nodes, NextIndex(levels, pos[i], i))]
      ensures forall p :: 0 <= p < |nodes| ==> Redirected(p, n, pos, next)
    {
      assert Redirected(pos[i], n, pos, i);
      n.forward := n.forward[i := previous.forward[i]];
      previous.forward := previous.forward[i := n];
      forall p | 0 <= p < |nodes| ensures Redirected(p, n, pos, next) {
        assert old(Redirected(p, n, pos, i));
      }
    }

    /** The links of node `p` after the first `upto` levels of a splice. */
    ghost predicate Redirected(p: nat, n: Node, pos: seq<nat>, upto: nat)
      requires p < |nodes| == |levels| && upto <= |pos|
      reads this, nodes
    {
      && |nodes[p].forward| == levels[p] + 1
      && forall j :: 0 <= j <= levels[p] ==>
           nodes[p].forward[j] == if j < upto && pos[j] == p then n else NodeAt(nodes, NextIndex(levels, p, j))
    }

    lemma DistinctNodes()
      requires Valid()
      ensures forall p, q :: 0 <= p < q < |nodes| ==> nodes[p] != nodes[q]
    {
      forall p, q | 0 <= p < q < |nodes| ensures nodes[p] != nodes[q] {
        assert Carries(q) && (p > 0 ==> Carries(p));
      }
    }

    /** The predecessor of a level is the only node linked across the insertion point. */
    lemma PredecessorsAround(pos: seq<nat>, i: nat, key: Key, at: nat, p: nat)
      requires |levels| == |Slots| + 1 && Splits(Slots, at, key)
      requires i < |pos| && IsPredecessor(pos[i], i, key)
      ensures pos[i] <= at < NextIndex(levels, pos[i], i)
      ensures p <= at && levels[p] >= i && NextIndex(levels, p, i) > at ==> p == pos[i]
    {
      var q := pos[i];
      assert q >= 1 ==> q - 1 < at;
      if p <= at && levels[p] >= i && NextIndex(levels, p, i) > at {
        if p < q {
          assert false;
        } else if q < p {
          assert false;
        }
      }
    }

    /** Insert or update.  `newLevel` stands for the coin flips of randomLevel. */
    method Put(key: Key, value: Bytes, newLevel: nat)
      requires Valid() && newLevel <= MAX_LEVEL
      modifies Repr
      ensures Valid() && fresh(Repr - old(Repr))
      ensures Slots == PutSlot(old(Slots), key, value)
      ensures approximateMemoryUsage == UsageAfterPut(old(approximateMemoryUsage), old(Slots), key, value, newLevel)
    {
      hide PutSlot, Find, Usage, SlotsAscend;
      var update, pos := Descend(key);
      ghost var at := pos[0];
      var current := update[0].forward[0];
      assert current != null ==> Carries(at + 1);
      PutSlotAt(Slots, at, key, value);
      if current != null && current.key == key {
        RewriteSlot(at, current, value, false);
      } else {
        update, pos := RaiseLevel(key, newLevel, update, pos);
        InsertNew(key, value, newLevel, update, pos, at);
      }
    }

    /** A node taller than the list makes the head its predecessor up there. */
    method RaiseLevel(key: Key, newLevel: nat, update: seq<Node>, ghost pos: seq<nat>)
      returns (update': seq<Node>, ghost pos': seq<nat>)
      requires Valid() && newLevel <= MAX_LEVEL
      requires |pos| == currentLevel + 1 && Predecessors(update, pos, key)
      modifies this`currentLevel
      ensures Valid()
      ensures newLevel <= currentLevel && pos <= pos'
      ensures |pos'| == currentLevel + 1 && Predecessors(update', pos', key)
    {
      update', pos' := update, pos;
      if newLevel > currentLevel {
        var i := currentLevel + 1;
        while i <= newLevel
          invariant currentLevel < i <= newLevel + 1 && |pos'| == i && pos <= pos'
          invariant Predecessors(update', pos', key)
        {
          NextIndexIs(levels, 0, i, |levels|);
          update', pos' := update' + [head], pos' + [0];
          i := i + 1;
        }
        currentLevel := newLevel;
      }
    }

    method InsertNew(key: Key, value: Bytes, newLevel: nat, update: seq<Node>, ghost pos: seq<nat>, ghost at: nat)
      requires Valid() && newLevel <= currentLevel
      requires |pos| == currentLevel + 1 && Predecessors(update, pos, key)
      requires Splits(Slots, at, key) && (at < |Slots| ==> Slots[at].key != key)
      modifies Repr
      ensures Valid() && fresh(Repr - old(Repr))
      ensures Slots == Inserted(old(Slots), at, Slot(key, value, false))
      ensures approximateMemoryUsage == old(approximateMemoryUsage) + EstimateNodeSize(newLevel, value)
    {
      var n := new Node(key, value, newLevel);
      LinkIn(n, update, pos, set m | m in nodes);
      ghost var nodes', levels' := Inserted(nodes, at + 1, n), Inserted(levels, at + 1, newLevel);
      SplicedLinks(n, pos, at, nodes', levels');
      Adopt(n, at, nodes', levels');
    }

    /** The heap after LinkIn has spliced `n` in behind position `at`. */
    ghost predicate Spliced(n: Node, pos: seq<nat>, at: nat)
      requires |nodes| == |levels| == |Slots| + 1
      reads this, nodes, n
    {
      && |pos| > n.level && Splits(Slots, at, n.key)
      && (forall i :: 0 <= i <= n.level ==> IsPredecessor(pos[i], i, n.key))
      && |n.forward| == n.level + 1
      && (forall j :: 0 <= j <= n.level ==> n.forward[j] == NodeAt(nodes, NextIndex(levels, pos[j], j)))
      && (forall p :: 0 <= p < |nodes| ==> Redirected(p, n, pos, |n.forward|))
    }

    /** The pointers of a spliced list are those of the longer node sequence:
        before the new node, at it, and behind it. */
    lemma SplicedBefore(n: Node, pos: seq<nat>, at: nat, p: nat)
      requires |nodes| == |levels| == |Slots| + 1 && Spliced(n, pos, at)
      requires p <= at
      ensures LinkedIn(Inserted(nodes, at + 1, n), Inserted(levels, at + 1, n.level), p)
    {
      assert Redirected(p, n, pos, |n.forward|);
      forall j: nat | j <= levels[p] {
        SplicedBeforeAt(n, pos, at, p, j);
      }
    }

    lemma SplicedBeforeAt(n: Node, pos: seq<nat>, at: nat, p: nat, j: nat)
      requires |nodes| == |levels| == |Slots| + 1 && Spliced(n, pos, at)
      requires p <= at && j <= levels[p]
      requires Redirected(p, n, pos, |n.forward|)
      ensures nodes[p].forward[j] ==
              NodeAt(Inserted(nodes, at + 1, n), NextIndex(Inserted(levels, at + 1, n.level), p, j))
    {
      LinkBeforeInsert(nodes, levels, at + 1, n, p, j);
      if j <= n.level {
        PredecessorsAround(pos, j, n.key, at, p);
      }
    }

    lemma SplicedAt(n: Node, pos: seq<nat>, at: nat)
      requires |nodes| == |levels| == |Slots| + 1 && Spliced(n, pos, at)
      ensures LinkedIn(Inserted(nodes, at + 1, n), Inserted(levels, at + 1, n.level), at + 1)
    {
      forall j: nat | j <= n.level
        ensures n.forward[j] ==
                NodeAt(Inserted(nodes, at + 1, n), NextIndex(Inserted(levels, at + 1, n.level), at + 1, j))
      {
        SplicedAtLevel(n, pos, at, j);
      }
    }

    lemma SplicedAtLevel(n: Node, pos: seq<nat>, at: nat, j: nat)
      requires |nodes| == |levels| == |Slots| + 1 && Spliced(n, pos, at) && j <= n.level
      ensures |n.forward| == n.level + 1
      ensures n.forward[j] ==
              NodeAt(Inserted(nodes, at + 1, n), NextIndex(Inserted(levels, at + 1, n.level), at + 1, j))
    {
      hide NextIndex;
      PredecessorsAround(pos, j, n.key, at, 0);
      LinkOfInserted(nodes, levels, at + 1, n, pos[j], j);
    }

    lemma SplicedAfter(n: Node, pos: seq<nat>, at: nat, p: nat)
      requires |nodes| == |levels| == |Slots| + 1 && Spliced(n, pos, at)
      requires at < p < |nodes|
      ensures LinkedIn(Inserted(nodes, at + 1, n), Inserted(levels, at + 1, n.level), p + 1)
    {
      assert Redirected(p, n, pos, |n.forward|);
      forall j: nat | j <= levels[p]
        ensures nodes[p].forward[j] ==
                NodeAt(Inserted(nodes, at + 1, n), NextIndex(Inserted(levels, at + 1, n.level), p + 1, j))
      {
        LinkAfterInsert(nodes, levels, at + 1, n, p, j);
        if j <= n.level {
          PredecessorsAround(pos, j, n.key, at, p);
        }
      }
    }

    lemma SplicedLinks(n: Node, pos: seq<nat>, at: nat, nodes': seq<Node>, levels': seq<nat>)
      requires |nodes| == |levels| == |Slots| + 1 && Spliced(n, pos, at)
      requires nodes' == Inserted(nodes, at + 1, n) && levels' == Inserted(levels, at + 1, n.level)
      ensures forall p :: 0 <= p < |nodes'| ==> LinkedIn(nodes', levels', p)
    {
      forall p | 0 <= p < |nodes'| ensures LinkedIn(nodes', levels', p) {
        if p <= at {
          SplicedBefore(n, pos, at, p);
        } else if p == at + 1 {
          SplicedAt(n, pos, at);
        } else {
          SplicedAfter(n, pos, at, p - 1);
        }
      }
    }

    /** Book the spliced node: ghost lists, count and memory estimate. */
    method Adopt(n: Node, ghost at: nat, ghost nodes': seq<Node>, ghost levels': seq<nat>)
      requires |nodes| == |levels| == |Slots| + 1
      requires Splits(Slots, at, n.key) && (at < |Slots| ==> Slots[at].key != n.key)
      requires nodes' == Inserted(nodes, at + 1, n) && levels' == Inserted(levels, at + 1, n.level)
      requires forall p :: 0 <= p < |nodes'| ==> LinkedIn(nodes', levels', p)
      requires n !in Repr && this in Repr && nodes[0] == head && SlotsAscend(Slots)
      requires forall p :: 0 <= p < |nodes| ==> nodes[p] in Repr && nodes[p].level == levels[p]
      requires forall p :: 1 <= p < |nodes| ==> Carries(p)
      requires levels[0] == MAX_LEVEL && n.level <= currentLevel <= MAX_LEVEL
      requires forall p :: 1 <= p < |levels| ==> levels[p] <= currentLevel
      requires size == |Slots| && approximateMemoryUsage == Usage(levels[1..], Slots)
      modifies this
      ensures Valid() && Repr == old(Repr) + {n}
      ensures Slots == Inserted(old(Slots), at, Slot(n.key, n.value, n.isTombstone))
      ensures approximateMemoryUsage == old(approximateMemoryUsage) + EstimateNodeSize(n.level, n.value)
    {
      hide LinkedIn, CarriedIn, Usage, SlotsAscend;
      ghost var slot := Slot(n.key, n.value, n.isTombstone);
      ghost var slots' := Inserted(Slots, at, slot);
      UsageInsert(levels[1..], Slots, at, n.level, slot);
      assert levels'[1..] == Inserted(levels[1..], at, n.level);
      InsertKeepsOrder(Slots, at, slot);
      assert forall p :: 1 <= p < |nodes| ==> CarriedIn(head, nodes, Slots, p) by {
        forall p | 1 <= p < |nodes| ensures CarriedIn(head, nodes, Slots, p) { assert Carries(p); }
      }
      CarriedAfterInsert(head, nodes, Slots, at, n, nodes', slots');
      size := size + 1;
      approximateMemoryUsage := approximateMemoryUsage + EstimateNodeSize(n.level, n.value);
      nodes, levels, Slots := nodes', levels', slots';
      Repr := Repr + {n};
    }

    /** The forward pointers of level i chain up exactly the nodes of that level. */
    lemma LevelIsThreaded(p: nat, i: nat)
      requires Valid() && p < |nodes| && i <= levels[p]
      ensures i < |nodes[p].forward|
      ensures var rest := LevelList(levels, i, p + 1);
              if rest == [] then nodes[p].forward[i] == null
              else rest[0] < |nodes| && nodes[p].forward[i] == nodes[rest[0]] &&
                   rest[1..] == LevelList(levels, i, rest[0] + 1)
    {
      assert Linked(p);
      NextIndexWalksLevel(levels, p, i);
    }

    /** Iteration from begin(): every entry once, in key order. */
    method Entries() returns (s: seq<Slot>)
      requires Valid()
      ensures s == Slots
    {
      s := [];
      assert Linked(0);
      NextIndexIs(levels, 0, 0, 1);
      var current := head.forward[0];
      while current != null
        invariant |s| <= |Slots| && s == Slots[..|s|]
        invariant current == NodeAt(nodes, |s| + 1)
        decreases |Slots| - |s|
      {
        ghost var p := |s| + 1;
        assert Carries(p) && Linked(p);
        NextIndexIs(levels, p, 0, p + 1);
        s := s + [Slot(current.key, current.value, current.isTombstone)];
        current := current.forward[0];
      }
    }
  }
}
