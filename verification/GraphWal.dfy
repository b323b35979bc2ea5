/** The knowledge graph's log: fixed records of 30 bytes, each sealed by its CRC-32. */
module GraphWals {
  import opened Common
  import opened Wire
  import Crc32
  import GraphStores

  const RECORD_SIZE: nat := 30
  const BODY_SIZE: nat := 26

  datatype Record = Record(op: byte, from: nat, to: nat, kind: byte, weight: nat, timestamp: nat)

  predicate Fields(r: Record) {
    && r.from < 0x1_0000_0000_0000_0000 && r.to < 0x1_0000_0000_0000_0000
    && r.weight < 0x1_0000_0000 && r.timestamp < 0x1_0000_0000
  }

  function Body(r: Record): (b: Bytes)
    ensures |b| == BODY_SIZE
  {
    [r.op] + Le(r.from, 8) + Le(r.to, 8) + [r.kind] + Le(r.weight, 4) + Le(r.timestamp, 4)
  }

  function Encode(r: Record): (b: Bytes)
    ensures |b| == RECORD_SIZE
  {
    Body(r) + Crc32.Stored(Crc32.CrcOf(Body(r)))
  }

  function Decode(b: Bytes): Record
    requires |b| >= BODY_SIZE
  {
    Record(b[0], FromLe(b[1..9]), FromLe(b[9..17]), b[17], FromLe(b[18..22]), FromLe(b[22..26]))
  }

  /** One turn of the replay loop: a short or broken record ends it. */
  function Parse(b: Bytes): Frame<Record> {
    if |b| < RECORD_SIZE || !Crc32.Sealed(b[..RECORD_SIZE]) then Stop
    else Item(Decode(b), RECORD_SIZE)
  }

  lemma DecodeEncoded(r: Record, rest: Bytes)
    requires Fields(r)
    ensures Decode(Body(r) + rest) == r
  {
    hide Le, FromLe, Pow256;
    var b := Body(r) + rest;
    Widths();
    LeRoundTrip(r.from, 8);
    LeRoundTrip(r.to, 8);
    LeRoundTrip(r.weight, 4);
    LeRoundTrip(r.timestamp, 4);
    assert b[1..9] == Le(r.from, 8) && b[9..17] == Le(r.to, 8) && b[18..22] == Le(r.weight, 4) &&
           b[22..26] == Le(r.timestamp, 4);
  }

  /** Where each field of a record stands. */
  lemma Layout(r: Record)
    requires Fields(r)
    ensures var e := Encode(r);
            && |e| == 30 && e[0] == r.op && FromLe(e[1..9]) == r.from && FromLe(e[9..17]) == r.to && e[17] == r.kind
            && FromLe(e[18..22]) == r.weight && FromLe(e[22..26]) == r.timestamp
            && e[26..30] == Crc32.Stored(Crc32.CrcOf(e[..26]))
  {
    hide Le, FromLe, Pow256, Crc32.CrcOf, Crc32.Stored;
    var e := Encode(r);
    Widths();
    LeRoundTrip(r.from, 8);
    LeRoundTrip(r.to, 8);
    LeRoundTrip(r.weight, 4);
    LeRoundTrip(r.timestamp, 4);
    assert e[..26] == Body(r);
    assert e[1..9] == Le(r.from, 8) && e[9..17] == Le(r.to, 8) && e[18..22] == Le(r.weight, 4) &&
           e[22..26] == Le(r.timestamp, 4);
  }

  lemma ParseEncoded(r: Record, rest: Bytes)
    requires Fields(r)
    ensures Parse(Encode(r) + rest) == Item(r, RECORD_SIZE)
  {
    hide Crc32.Sealed, Crc32.Stored, Crc32.CrcOf, Body, Decode;
    Crc32.SealedRecord(Body(r));
    assert (Encode(r) + rest)[..RECORD_SIZE] == Encode(r);
    assert Encode(r) + rest == Body(r) + (Crc32.Stored(Crc32.CrcOf(Body(r))) + rest);
    DecodeEncoded(r, Crc32.Stored(Crc32.CrcOf(Body(r))) + rest);
  }

  lemma EveryRecordIsFaithful(r: Record)
    requires Fields(r)
    ensures Faithful(Parse, Encode, r)
  {
    hide Encode;
    forall rest ensures Parse(Encode(r) + rest) == Item(r, RECORD_SIZE) { ParseEncoded(r, rest); }
  }

  /** Replaying any byte prefix of the log yields exactly the records wholly written. */
  lemma PrefixReplays(rs: seq<Record>, n: nat)
    requires forall r :: r in rs ==> Fields(r)
    requires n <= |Log(Encode, rs)|
    ensures Whole(Encode, rs, n) <= |rs| && ReadAll(Parse, Log(Encode, rs)[..n]) == rs[..Whole(Encode, rs, n)]
  {
    forall r | r in rs ensures Faithful(Parse, Encode, r) { EveryRecordIsFaithful(r); }
    PrefixReadsWhole(Parse, Encode, rs, n);
  }

  lemma ReadsUpTo(rs: seq<Record>, tail: Bytes)
    requires forall r :: r in rs ==> Fields(r)
    requires Parse(tail) == Stop
    ensures ReadAll(Parse, Log(Encode, rs) + tail) == rs
  {
    hide Parse;
    forall r | r in rs ensures Faithful(Parse, Encode, r) { EveryRecordIsFaithful(r); }
    ReadsPast(Parse, Encode, rs, tail);
    assert ReadAll(Parse, tail) == [];
    assert rs + [] == rs;
  }

  /** Replay stops exactly at a record that was damaged within four consecutive bytes,
      whatever follows it. */
  lemma StopsAtDamage(rs: seq<Record>, r: Record, before: Bytes, v: Bytes, w: Bytes, after: Bytes, rest: Bytes)
    requires forall x :: x in rs ==> Fields(x)
    requires Encode(r) == before + v + after && |v| == |w| <= 4 && v != w
    ensures ReadAll(Parse, Log(Encode, rs) + ((before + w + after) + rest)) == rs
  {
    hide Crc32.Sealed, Crc32.Stored, Crc32.CrcOf, Body, Decode;
    Crc32.SealedRecord(Body(r));
    Crc32.DamageBreaksSeal(before, v, w, after);
    var broken := before + w + after;
    assert |broken| == RECORD_SIZE && (broken + rest)[..RECORD_SIZE] == broken;
    ReadsUpTo(rs, broken + rest);
  }

  /** A log reopened with a torn record at its end is appended to behind the torn bytes:
      nothing written from then on is replayed, exactly as long as the record they
      begin does not happen to carry its own CRC. */
  lemma TornTailHidesAppendsExactly(rs: seq<Record>, torn: Bytes, more: Bytes)
    requires forall r :: r in rs ==> Fields(r)
    requires torn != []
    ensures ReadAll(Parse, Log(Encode, rs) + (torn + more)) == rs <==>
            |torn + more| < RECORD_SIZE || !Crc32.Sealed((torn + more)[..RECORD_SIZE])
  {
    var tail := torn + more;
    if Parse(tail) == Stop {
      ReadsUpTo(rs, tail);
    } else {
      hide Crc32.Sealed;
      forall r | r in rs ensures Faithful(Parse, Encode, r) { EveryRecordIsFaithful(r); }
      ReadsPast(Parse, Encode, rs, tail);
      assert ReadAll(Parse, tail) != [];
    }
  }

  /** A record torn off before its last byte hides whatever is appended next, provided
      that byte is not the kind of the record appended: with two kinds of record to
      append, at least one of them is lost. */
  lemma TornByOneByte(rs: seq<Record>, r: Record, next: Record, rest: Bytes)
    requires (forall x :: x in rs ==> Fields(x)) && Fields(r) && Fields(next)
    requires next.op != Encode(r)[RECORD_SIZE - 1]
    ensures ReadAll(Parse, Log(Encode, rs) + (Encode(r)[..RECORD_SIZE - 1] + (Encode(next) + rest))) == rs
  {
    hide Encode, Parse;
    var e, f := Encode(r), Encode(next);
    var torn, last, after := e[..RECORD_SIZE - 1], [e[RECORD_SIZE - 1]], f[1..] + rest;
    FirstByte(next);
    assert e == torn + last + [];
    assert f == [next.op] + f[1..];
    ConcatAssociates([next.op], f[1..], rest);
    ConcatAssociates(torn, [next.op], after);
    assert torn + [next.op] + [] == torn + [next.op];
    StopsAtDamage(rs, r, torn, last, [next.op], [], after);
  }

  lemma FirstByte(r: Record)
    ensures Encode(r)[0] == r.op
  {
  }

  // ---- From the file to the graph ----

  const ADD: byte := 1
  const REMOVE: byte := 2

  function ToRecord(op: GraphStores.Op): Record {
    match op
    case AddEdge(e) => Record(ADD, e.from, e.to, e.kind % 256, e.weight, e.at)
    case RemoveEdge(id) => Record(REMOVE, id, 0, 0, 0, 0)
  }

  /** The kind byte and the fields of a logged operation. */
  lemma LoggedBytes(op: GraphStores.Op)
    requires Storable(op)
    ensures var e := Encode(ToRecord(op));
            match op
            case AddEdge(x) =>
              && e[0] == 1 && FromLe(e[1..9]) == x.from && FromLe(e[9..17]) == x.to && e[17] == x.kind
              && FromLe(e[18..22]) == x.weight && FromLe(e[22..26]) == x.at
            case RemoveEdge(id) => e[0] == 2 && FromLe(e[1..9]) == id
  {
    hide Encode, FromLe, Crc32.Stored, Crc32.CrcOf, Pow256;
    Layout(ToRecord(op));
  }

  predicate Storable(op: GraphStores.Op) {
    && Fields(ToRecord(op))
    && (op.AddEdge? ==> op.edge.kind < 256)
  }

  /** Records of any other kind are replayed as nothing. */
  function ToOps(rs: seq<Record>): seq<GraphStores.Op> {
    if rs == [] then []
    else
      var r := rs[0];
      (if r.op == ADD then [GraphStores.AddEdge(GraphStores.Edge(r.from, r.to, r.kind, r.weight, r.timestamp))]
       else if r.op == REMOVE then [GraphStores.RemoveEdge(r.from)] else []) + ToOps(rs[1..])
  }

  /** A record is an addition or a removal by its kind byte, and nothing if that is neither. */
  lemma OneRecord(r: Record, rest: seq<Record>)
    ensures ToOps([r] + rest) ==
            (if r.op == 1 then [GraphStores.AddEdge(GraphStores.Edge(r.from, r.to, r.kind, r.weight, r.timestamp))]
             else if r.op == 2 then [GraphStores.RemoveEdge(r.from)]
             else []) + ToOps(rest)
  {
    assert ([r] + rest)[1..] == rest;
  }

  function ToRecords(ops: seq<GraphStores.Op>): seq<Record> {
    seq(|ops|, i requires 0 <= i < |ops| => ToRecord(ops[i]))
  }

  lemma {:induction false} OpsBack(ops: seq<GraphStores.Op>)
    requires forall op :: op in ops ==> Storable(op)
    ensures ToOps(ToRecords(ops)) == ops
  {
    if ops != [] {
      assert Storable(ops[0]);
      OpsBack(ops[1..]);
      assert ToRecords(ops)[1..] == ToRecords(ops[1..]);
      assert ops == [ops[0]] + ops[1..];
    }
  }

  lemma StorableFields(ops: seq<GraphStores.Op>)
    requires forall op :: op in ops ==> Storable(op)
    ensures forall r :: r in ToRecords(ops) ==> Fields(r)
  {
    forall r | r in ToRecords(ops) ensures Fields(r) {
      var i :| 0 <= i < |ops| && ToRecords(ops)[i] == r;
      assert Storable(ops[i]);
    }
  }

  /** A store reopened on a log cut off at any byte recovers the operations wholly logged. */
  lemma TornLogRecovers(snapshot: seq<GraphStores.Edge>, ops: seq<GraphStores.Op>, n: nat)
    requires forall op :: op in ops ==> Storable(op)
    requires n <= |Log(Encode, ToRecords(ops))|
    ensures var k := Whole(Encode, ToRecords(ops), n);
            k <= |ops| && GraphStores.Recovered(snapshot, ToOps(ReadAll(Parse, Log(Encode, ToRecords(ops))[..n])))
                       == GraphStores.Recovered(snapshot, ops[..k])
  {
    hide Parse, Encode, ToOps, GraphStores.Recovered;
    var rs := ToRecords(ops);
    StorableFields(ops);
    PrefixReplays(rs, n);
    var k := Whole(Encode, rs, n);
    assert rs[..k] == ToRecords(ops[..k]);
    OpsBack(ops[..k]);
  }

  lemma NothingFollows(rs: seq<Record>)
    requires forall r :: r in rs ==> Fields(r)
    ensures ReadAll(Parse, [] + Log(Encode, rs)) == rs
  {
    assert [] + Log(Encode, rs) == Log(Encode, rs) + [];
    ReadsUpTo(rs, []);
  }

  // ---- The file ----

  class GraphWAL {
    const table: array<bv32>
    var file: Bytes
    ghost var found: Bytes           // what the file held when it was opened
    ghost var appended: seq<Record>  // what was logged since

    ghost predicate Valid()
      reads this, table
    {
      Crc32.IsTable(table[..]) && file == found + Log(Encode, appended)
    }

    /** The file is opened for appending, whatever it holds. */
    constructor (bytes: Bytes)
      ensures Valid() && fresh(table) && file == found == bytes && appended == []
    {
      var t := Crc32.BuildTable();
      table, file, found, appended := t, bytes, bytes, [];
    }

    method AppendAdd(from: nat, to: nat, kind: byte, weight: nat, timestamp: nat)
      requires Valid()
      modifies this
      ensures Valid() && found == old(found) &&
              appended == old(appended) + [Record(ADD, from, to, kind, weight, timestamp)]
    {
      Append(Record(ADD, from, to, kind, weight, timestamp));
    }

    method AppendRemove(id: nat)
      requires Valid()
      modifies this
      ensures Valid() && found == old(found) && appended == old(appended) + [Record(REMOVE, id, 0, 0, 0, 0)]
    {
      Append(Record(REMOVE, id, 0, 0, 0, 0));
    }

    method Append(r: Record)
      requires Valid()
      modifies this
      ensures Valid() && found == old(found) && appended == old(appended) + [r]
    {
      hide Encode, Log, Crc32.IsTable;
      LogAppend(Encode, appended, r);
      ConcatAssociates(found, Log(Encode, appended), Encode(r));
      WriteBytes(r);
      appended := appended + [r];
    }

    method WriteBytes(r: Record)
      requires Crc32.IsTable(table[..])
      modifies `file
      ensures file == old(file) + Encode(r)
    {
      hide Body, Crc32.IsTable, Crc32.Stored, Crc32.CrcOf;
      var crc := Crc32.Crc(table, Body(r));
      file := file + (Body(r) + Crc32.Stored(crc));
    }

    method Truncate()
      requires Valid()
      modifies this
      ensures Valid() && file == found == [] && appended == []
    {
      file, found, appended := [], [], [];
    }

    /** On a log begun by this object, exactly what was appended. */
    method Replay() returns (rs: seq<Record>)
      requires Valid()
      ensures rs == ReadAll(Parse, file)
      ensures found == [] && (forall r :: r in appended ==> Fields(r)) ==> rs == appended
    {
      hide Encode, Parse, ReadAll, Log, Fields, Crc32.IsTable;
      rs := ReadFile();
      if found == [] && forall r :: r in appended ==> Fields(r) {
        NothingFollows(appended);
      }
    }

    method ReadFile() returns (rs: seq<Record>)
      requires Crc32.IsTable(table[..])
      ensures rs == ReadAll(Parse, file)
    {
      hide Parse, ReadAll, Decode, Crc32.IsTable;
      rs := [];
      var b := file;
      while b != []
        invariant ReadAll(Parse, file) == rs + ReadAll(Parse, b)
        decreases |b|
      {
        ReadOne(Parse, b);
        assert rs + [] == rs;
        if |b| < RECORD_SIZE {
          ShortStops(b);
          return;
        }
        var crc := Crc32.Crc(table, b[..BODY_SIZE]);
        CheckedSeal(b, crc);
        if crc != Crc32.Pack(b[BODY_SIZE..RECORD_SIZE]) { return; }
        ConcatAssociates(rs, [Decode(b)], ReadAll(Parse, b[RECORD_SIZE..]));
        rs := rs + [Decode(b)];
        b := b[RECORD_SIZE..];
      }
      ReadOne(Parse, b);
      assert rs + [] == rs;
    }
  }

  lemma ShortStops(b: Bytes)
    requires |b| < RECORD_SIZE
    ensures Parse(b) == Stop
  {
  }

  lemma CheckedSeal(b: Bytes, crc: bv32)
    requires |b| >= RECORD_SIZE && crc == Crc32.CrcOf(b[..BODY_SIZE])
    ensures Parse(b) == if crc == Crc32.Pack(b[BODY_SIZE..RECORD_SIZE]) then Item(Decode(b), RECORD_SIZE) else Stop
  {
    hide Crc32.CrcOf, Crc32.Pack, Decode;
    var front := b[..RECORD_SIZE];
    assert front[..BODY_SIZE] == b[..BODY_SIZE] && front[BODY_SIZE..] == b[BODY_SIZE..RECORD_SIZE];
  }
}
