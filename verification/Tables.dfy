/** Sorted tables as the engine sees them: the entry list of one SSTable, and a
    newest-first list of tables searched in order. */
module Tables {
  import opened Common

  datatype Entry = Entry(key: Key, value: Bytes)

  type Table = seq<Entry>

  ghost predicate Ascending(t: Table) {
    forall i, j :: 0 <= i < j < |t| ==> t[i].key < t[j].key
  }

  function Lookup(t: Table, key: Key): Option<Bytes> {
    if t == [] then None else if t[0].key == key then Some(t[0].value) else Lookup(t[1..], key)
  }

  /** The answer of the first table that has the key. */
  function FirstHit(ts: seq<Table>, key: Key): Option<Bytes> {
    if ts == [] then None
    else if Lookup(ts[0], key).Some? then Lookup(ts[0], key)
    else FirstHit(ts[1..], key)
  }

  /** An empty value is a tombstone: a reader reports it as absent. */
  function Visible(r: Option<Bytes>): Option<Bytes> {
    if r == Some([]) then None else r
  }

  lemma {:induction false} LookupAt(t: Table, i: nat)
    requires Ascending(t) && i < |t|
    ensures Lookup(t, t[i].key) == Some(t[i].value)
  {
    if i > 0 {
      assert t[0].key < t[i].key;
      LookupAt(t[1..], i - 1);
    }
  }

  lemma {:induction false} LookupNone(t: Table, key: Key)
    requires forall i :: 0 <= i < |t| ==> t[i].key != key
    ensures Lookup(t, key) == None
  {
    if t != [] { LookupNone(t[1..], key); }
  }

  lemma {:induction false} LookupSome(t: Table, key: Key) returns (i: nat)
    requires Lookup(t, key).Some?
    ensures i < |t| && t[i].key == key && Lookup(t, key) == Some(t[i].value)
  {
    if t[0].key == key { i := 0; } else { i := LookupSome(t[1..], key); i := i + 1; }
  }

  lemma LeastKey(s: Table, t: Table)
    requires Ascending(s) && t != [] && Ascending(t)
    requires forall k :: Lookup(s, k) == Lookup(t, k)
    ensures s != [] && s[0].key <= t[0].key
  {
    LookupAt(t, 0);
    var i := LookupSome(s, t[0].key);
  }

  /** An ascending table is determined by its lookups. */
  lemma {:induction false} LookupsDetermineTable(s: Table, t: Table)
    requires Ascending(s) && Ascending(t)
    requires forall k :: Lookup(s, k) == Lookup(t, k)
    ensures s == t
  {
    if t != [] { LeastKey(s, t); }
    if s != [] { LeastKey(t, s); }
    if s != [] && t != [] {
      var key := s[0].key;
      LookupAt(s, 0);
      LookupAt(t, 0);
      assert Lookup(s, key) == Lookup(t, key);
      forall k ensures Lookup(s[1..], k) == Lookup(t[1..], k) {
        assert Lookup(s, k) == Lookup(t, k);
        if k == key {
          LookupNone(s[1..], k);
          LookupNone(t[1..], k);
        }
      }
      LookupsDetermineTable(s[1..], t[1..]);
    }
  }

  lemma {:induction false} FirstHitConcat(a: seq<Table>, b: seq<Table>, key: Key)
    ensures FirstHit(a + b, key) == if FirstHit(a, key).Some? then FirstHit(a, key) else FirstHit(b, key)
  {
    if a == [] {
      assert a + b == b;
    } else {
      assert (a + b)[1..] == a[1..] + b;
      FirstHitConcat(a[1..], b, key);
    }
  }

  lemma {:induction false} FirstHitIs(ts: seq<Table>, key: Key, i: nat)
    requires i < |ts| && Lookup(ts[i], key).Some?
    requires forall j :: 0 <= j < i ==> Lookup(ts[j], key) == None
    ensures FirstHit(ts, key) == Lookup(ts[i], key)
  {
    if i > 0 { FirstHitIs(ts[1..], key, i - 1); }
  }

  lemma {:induction false} FirstHitNone(ts: seq<Table>, key: Key)
    requires forall j :: 0 <= j < |ts| ==> Lookup(ts[j], key) == None
    ensures FirstHit(ts, key) == None
  {
    if ts != [] { FirstHitNone(ts[1..], key); }
  }

  lemma {:induction false} FirstHitFrom(ts: seq<Table>, key: Key) returns (i: nat)
    requires FirstHit(ts, key).Some?
    ensures i < |ts| && FirstHit(ts, key) == Lookup(ts[i], key)
    ensures forall j :: 0 <= j < i ==> Lookup(ts[j], key) == None
  {
    if Lookup(ts[0], key).Some? { i := 0; } else { i := FirstHitFrom(ts[1..], key); i := i + 1; }
  }
}
