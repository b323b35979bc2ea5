/** From the bytes of the log to the state an engine recovers. */
module Recoveries {
  import opened Common
  import opened Wire
  import LsmWals
  import Disks
  import SortedSlots

  /** The bytes of one logged put. */
  function ToBytes(r: Disks.WalRecord): LsmWals.WalRecord {
    LsmWals.WalRecord(LsmWals.PUT, r.seqNo, r.key, r.value)
  }

  function ToFile(rs: seq<Disks.WalRecord>): seq<LsmWals.WalRecord> {
    seq(|rs|, i requires 0 <= i < |rs| => ToBytes(rs[i]))
  }

  function FromFile(rs: seq<LsmWals.WalRecord>): seq<Disks.WalRecord> {
    seq(|rs|, i requires 0 <= i < |rs| => Disks.WalRecord(rs[i].seqNo, rs[i].key, rs[i].data))
  }

  predicate Loggable(r: Disks.WalRecord) {
    LsmWals.Fields(ToBytes(r)) && |r.value| <= LsmWals.MAX_DATA
  }

  /** A log file cut off at any byte recovers the state of the puts wholly written. */
  lemma TornLogRecovers(crc: Crc, d: Disks.Disk, n: nat)
    requires forall r :: r in d.wal ==> Loggable(r)
    requires n <= |Log(LsmWals.Encoder(crc), ToFile(d.wal))|
    ensures var k := Whole(LsmWals.Encoder(crc), ToFile(d.wal), n);
            var found := ReadAll(LsmWals.Parser(crc), Log(LsmWals.Encoder(crc), ToFile(d.wal))[..n]);
            k <= |d.wal| && FromFile(found) == d.wal[..k] &&
            Disks.DiskState(d.(wal := FromFile(found))) == Disks.DiskState(d.(wal := d.wal[..k]))
  {
    hide LsmWals.Parse, LsmWals.Encode, Disks.DiskState;
    var rs := ToFile(d.wal);
    forall r | r in rs ensures LsmWals.Writable(r) && |r.data| <= LsmWals.MAX_DATA {
      var i :| 0 <= i < |rs| && rs[i] == r;
      assert Loggable(d.wal[i]);
    }
    LsmWals.PrefixReplays(crc, rs, n);
    var k := Whole(LsmWals.Encoder(crc), rs, n);
    assert FromFile(rs[..k]) == d.wal[..k];
  }

  lemma FromFileNext(rs: seq<LsmWals.WalRecord>, r: LsmWals.WalRecord)
    ensures FromFile(rs + [r]) == FromFile(rs) + [Disks.WalRecord(r.seqNo, r.key, r.data)]
  {
  }

  lemma ReplayNext(rs: seq<LsmWals.WalRecord>, r: LsmWals.WalRecord, minSeq: nat)
    ensures var mem := Disks.Replay(FromFile(rs), minSeq);
            Disks.Replay(FromFile(rs + [r]), minSeq) ==
            if r.seqNo > minSeq then SortedSlots.PutSlot(mem, r.key, r.data) else mem
    ensures var top := Disks.MaxSeq(FromFile(rs));
            Disks.MaxSeq(FromFile(rs + [r])) == if r.seqNo > top then r.seqNo else top
  {
    hide SortedSlots.PutSlot;
    FromFileNext(rs, r);
    var all := FromFile(rs) + [Disks.WalRecord(r.seqNo, r.key, r.data)];
    assert all[..|all| - 1] == FromFile(rs);
  }

  /** What the engine filters out by the checkpoint is what the log's reader skips. */
  lemma {:induction false} CheckpointFilters(rs: seq<LsmWals.WalRecord>, minSeq: nat)
    ensures Disks.Replay(FromFile(LsmWals.Newer(rs, minSeq)), 0) == Disks.Replay(FromFile(rs), minSeq)
    ensures LsmWals.MaxSeq(rs) == Disks.MaxSeq(FromFile(rs))
  {
    if rs != [] {
      hide Disks.Replay, Disks.MaxSeq, SortedSlots.PutSlot, FromFile;
      var front, last := rs[..|rs| - 1], rs[|rs| - 1];
      assert rs == front + [last];
      CheckpointFilters(front, minSeq);
      ReplayNext(front, last, minSeq);
      ReplayNext(LsmWals.Newer(front, minSeq), last, 0);
      assert LsmWals.Newer(front, minSeq) + [] == LsmWals.Newer(front, minSeq);
    }
  }

  // ---- A log reopened behind torn bytes ----

  /** The file of a log after opening it with this checkpoint: cut off only if replay
      delivered something, which is then flushed; otherwise it is appended to as it is.
      With it, the checkpoint from then on. */
  function Reopened(crc: Crc, file: Bytes, checkpoint: nat): (Bytes, nat) {
    var found := ReadAll(LsmWals.Parser(crc), file);
    if LsmWals.Newer(found, checkpoint) == [] then (file, checkpoint)
    else ([], if LsmWals.MaxSeq(found) > checkpoint then LsmWals.MaxSeq(found) else checkpoint)
  }

  /** What the next opening delivers of the records appended after this one. */
  function DeliveredNext(crc: Crc, file: Bytes, checkpoint: nat, more: seq<LsmWals.WalRecord>): seq<LsmWals.WalRecord> {
    var kept := Reopened(crc, file, checkpoint);
    LsmWals.Newer(ReadAll(LsmWals.Parser(crc), kept.0 + Log(LsmWals.Encoder(crc), more)), kept.1)
  }

  /** Opening cuts the file off exactly when the engine's recovery finds a memtable to flush. */
  lemma {:induction false} CutOffExactly(rs: seq<LsmWals.WalRecord>, checkpoint: nat)
    ensures LsmWals.Newer(rs, checkpoint) == [] <==> Disks.Replay(FromFile(rs), checkpoint) == []
  {
    if rs != [] {
      var front, last := rs[..|rs| - 1], rs[|rs| - 1];
      assert rs == front + [last];
      CutOffExactly(front, checkpoint);
      ReplayNext(front, last, checkpoint);
    }
  }

  predicate Written(r: LsmWals.WalRecord) {
    LsmWals.Writable(r) && |r.data| <= LsmWals.MAX_DATA
  }

  /** A proper part of a record that was being written, or nothing. */
  ghost predicate Torn(crc: Crc, torn: Bytes) {
    exists t, n :: Written(t) && 0 <= n < |LsmWals.Encode(crc, t)| && torn == LsmWals.Encode(crc, t)[..n]
  }

  /** What stands where the torn record began carries valid checksums by accident. */
  predicate Accident(crc: Crc, b: Bytes) {
    LsmWals.Acceptable(crc, b)
  }

  lemma AllFaithful(crc: Crc, rs: seq<LsmWals.WalRecord>)
    requires forall r :: r in rs ==> Written(r)
    ensures forall r :: r in rs ==> Faithful(LsmWals.Parser(crc), LsmWals.Encoder(crc), r)
  {
    forall r | r in rs ensures Faithful(LsmWals.Parser(crc), LsmWals.Encoder(crc), r) {
      LsmWals.FaithfulOrLost(crc, r);
    }
  }

  lemma {:induction false} NewerConcat(a: seq<LsmWals.WalRecord>, b: seq<LsmWals.WalRecord>, minSeq: nat)
    ensures LsmWals.Newer(a + b, minSeq) == LsmWals.Newer(a, minSeq) + LsmWals.Newer(b, minSeq)
    decreases |b|
  {
    if b == [] {
      assert a + b == a;
    } else {
      var front, last := b[..|b| - 1], b[|b| - 1];
      assert a + b == (a + front) + [last] && b == front + [last];
      NewerConcat(a, front, minSeq);
      LsmWals.LastRecord(a + front, last, minSeq);
      LsmWals.LastRecord(front, last, minSeq);
    }
  }

  lemma {:induction false} NewerAll(rs: seq<LsmWals.WalRecord>, minSeq: nat)
    requires forall r :: r in rs ==> r.seqNo > minSeq
    ensures LsmWals.Newer(rs, minSeq) == rs
  {
    if rs != [] {
      var front, last := rs[..|rs| - 1], rs[|rs| - 1];
      assert rs == front + [last];
      NewerAll(front, minSeq);
    }
  }

  // ---- Reading cannot make up for lost bytes ----

  function Size(crc: Crc, r: LsmWals.WalRecord): nat {
    |LsmWals.Encode(crc, r)|
  }

  function Sizes(crc: Crc, rs: seq<LsmWals.WalRecord>): nat {
    if rs == [] then 0 else Sizes(crc, rs[..|rs| - 1]) + Size(crc, rs[|rs| - 1])
  }

  lemma {:induction false} SizesConcat(crc: Crc, a: seq<LsmWals.WalRecord>, b: seq<LsmWals.WalRecord>)
    ensures Sizes(crc, a + b) == Sizes(crc, a) + Sizes(crc, b)
    decreases |b|
  {
    hide Size;
    if b == [] {
      assert a + b == a;
    } else {
      assert (a + b)[..|a + b| - 1] == a + b[..|b| - 1];
      SizesConcat(crc, a, b[..|b| - 1]);
    }
  }

  lemma {:induction false} LogLength(crc: Crc, rs: seq<LsmWals.WalRecord>)
    ensures |Log(LsmWals.Encoder(crc), rs)| == Sizes(crc, rs)
  {
    if rs != [] {
      assert rs == [rs[0]] + rs[1..];
      SizesConcat(crc, [rs[0]], rs[1..]);
      OneSize(crc, rs[0]);
      LogLength(crc, rs[1..]);
    }
  }

  lemma OneSize(crc: Crc, r: LsmWals.WalRecord)
    ensures Sizes(crc, [r]) == Size(crc, r)
  {
    assert [r][..0] == [];
  }

  lemma {:induction false} NewerIsShorter(crc: Crc, rs: seq<LsmWals.WalRecord>, minSeq: nat)
    ensures Sizes(crc, LsmWals.Newer(rs, minSeq)) <= Sizes(crc, rs)
  {
    hide Size;
    if rs != [] {
      var front, last := rs[..|rs| - 1], rs[|rs| - 1];
      NewerIsShorter(crc, front, minSeq);
      OneSize(crc, last);
      SizesConcat(crc, LsmWals.Newer(front, minSeq), [last]);
      assert LsmWals.Newer(front, minSeq) + [] == LsmWals.Newer(front, minSeq);
    }
  }

  /** A record read takes as many bytes as writing it would. */
  lemma ItemSize(crc: Crc, b: Bytes)
    requires LsmWals.Parse(crc, b).Item?
    ensures LsmWals.Parse(crc, b).size == Size(crc, LsmWals.Parse(crc, b).record) <= |b|
  {
  }

  lemma {:induction false} ReadFits(crc: Crc, b: Bytes)
    ensures Sizes(crc, ReadAll(LsmWals.Parser(crc), b)) <= |b|
    decreases |b|
  {
    hide LsmWals.Parse, Size, ReadAll;
    ReadOne(LsmWals.Parser(crc), b);
    if b != [] {
      var step := LsmWals.Parse(crc, b);
      if !step.Stop? && 0 < step.size <= |b| { ReadFits(crc, b[step.size..]); }
      if step.Item? {
        ItemSize(crc, b);
        OneSize(crc, step.record);
        var rest := if 0 < step.size <= |b| then ReadAll(LsmWals.Parser(crc), b[step.size..]) else [];
        SizesConcat(crc, [step.record], rest);
      }
    }
  }

  lemma TornReadsNothing(crc: Crc, torn: Bytes)
    requires Torn(crc, torn)
    ensures ReadAll(LsmWals.Parser(crc), torn) == []
  {
    var t, n :| Written(t) && 0 <= n < |LsmWals.Encode(crc, t)| && torn == LsmWals.Encode(crc, t)[..n];
    LsmWals.ParsePart(crc, t, n);
  }

  /** A reader that skips at torn bytes skips more than them. */
  lemma TornSkipsFurther(crc: Crc, torn: Bytes, rest: Bytes)
    requires Torn(crc, torn) && torn != [] && LsmWals.Parse(crc, torn + rest).Skip?
    ensures LsmWals.Parse(crc, torn + rest).size > |torn|
  {
    var t, n :| Written(t) && 0 <= n < |LsmWals.Encode(crc, t)| && torn == LsmWals.Encode(crc, t)[..n];
    if |torn| >= LsmWals.HEADER_SIZE { TornHeader(crc, t, n, rest); }
  }

  /** With the whole header written, only the data can fail its checksum. */
  lemma TornHeader(crc: Crc, t: LsmWals.WalRecord, n: nat, rest: Bytes)
    requires Written(t) && LsmWals.HEADER_SIZE <= n < |LsmWals.Encode(crc, t)|
    ensures var b := LsmWals.Encode(crc, t)[..n] + rest;
            LsmWals.Parse(crc, b).Skip? ==> LsmWals.Parse(crc, b).size == |LsmWals.Encode(crc, t)|
  {
    hide LsmWals.HeaderBody, Le, FromLe;
    var len := |t.data|;
    var body := LsmWals.HeaderBody(t.kind, t.seqNo, t.key, len);
    var tail := Le(crc(body), 4) + (if len > 0 then t.data[..len] + Le(crc(t.data[..len]), 4) else []);
    var b := LsmWals.Encode(crc, t)[..n] + rest;
    assert LsmWals.Encode(crc, t) == body + tail;
    var after := tail[4..n - 28] + rest;
    assert b == body + (Le(crc(body), 4) + after);
    LsmWals.HeaderFields(body, Le(crc(body), 4) + after, t.kind, t.seqNo, t.key, len);
    assert b == body + Le(crc(body), 4) + after;
    LsmWals.CrcField(body, crc(body), after);
  }

  // ---- The theorem ----

  lemma TornHidesAppends(crc: Crc, torn: Bytes, more: seq<LsmWals.WalRecord>, minSeq: nat)
    requires Torn(crc, torn) && torn != [] && more != []
    requires !Accident(crc, torn + Log(LsmWals.Encoder(crc), more))
    ensures LsmWals.Newer(ReadAll(LsmWals.Parser(crc), torn + Log(LsmWals.Encoder(crc), more)), minSeq) != more
  {
    hide LsmWals.Parse, ReadAll, Log, Size, LsmWals.Newer, Torn, LsmWals.Acceptable;
    LsmWals.ItemExactly(crc, torn + Log(LsmWals.Encoder(crc), more));
    var b := torn + Log(LsmWals.Encoder(crc), more);
    ReadOne(LsmWals.Parser(crc), b);
    LogLength(crc, more);
    var step, found := LsmWals.Parse(crc, b), ReadAll(LsmWals.Parser(crc), b);
    NewerIsShorter(crc, found, minSeq);
    SizesPositive(crc, more);
    NoSizes(crc);
    if step.Skip? {
      TornSkipsFurther(crc, torn, Log(LsmWals.Encoder(crc), more));
      if step.size <= |b| { ReadFits(crc, b[step.size..]); }
    }
  }

  lemma NoSizes(crc: Crc)
    ensures Sizes(crc, []) == 0
  {
  }

  lemma SizesPositive(crc: Crc, rs: seq<LsmWals.WalRecord>)
    requires rs != []
    ensures Sizes(crc, rs) > 0
  {
    assert Size(crc, rs[|rs| - 1]) >= LsmWals.HEADER_SIZE;
  }

  /** A log that ends in torn bytes is opened, appended to, and opened again.  Up to
      torn bytes that carry valid checksums by accident, the second opening delivers
      what was appended if and only if nothing was torn, or the first opening found a
      whole record above the checkpoint and so cut the log off. */
  lemma ReopenedLogExactly(crc: Crc, rs: seq<LsmWals.WalRecord>, torn: Bytes, checkpoint: nat,
                           more: seq<LsmWals.WalRecord>)
    requires (forall r :: r in rs ==> Written(r)) && (forall r :: r in more ==> Written(r)) && more != []
    requires Torn(crc, torn)
    requires forall r :: r in more ==> r.seqNo > Reopened(crc, Log(LsmWals.Encoder(crc), rs) + torn, checkpoint).1
    requires torn != [] ==> !Accident(crc, torn + Log(LsmWals.Encoder(crc), more))
    ensures DeliveredNext(crc, Log(LsmWals.Encoder(crc), rs) + torn, checkpoint, more) == more <==>
            torn == [] || LsmWals.Newer(rs, checkpoint) != []
  {
    hide LsmWals.Parse, ReadAll, Log, LsmWals.Newer, Torn, Accident;
    var parse, encode := LsmWals.Parser(crc), LsmWals.Encoder(crc);
    var file, added := Log(encode, rs) + torn, Log(encode, more);
    AllFaithful(crc, rs);
    AllFaithful(crc, more);
    TornReadsNothing(crc, torn);
    ReadsPast(parse, encode, rs, torn);
    assert rs + [] == rs;
    if LsmWals.Newer(rs, checkpoint) != [] {
      ReadsPast(parse, encode, more, []);
      ReadOne(parse, []);
      assert added + [] == added && more + [] == more && [] + added == added;
      NewerAll(more, Reopened(crc, file, checkpoint).1);
    } else {
      ConcatAssociates(Log(encode, rs), torn, added);
      ReadsPast(parse, encode, rs, torn + added);
      NewerConcat(rs, ReadAll(parse, torn + added), checkpoint);
      var delivered := LsmWals.Newer(ReadAll(parse, torn + added), checkpoint);
      assert [] + delivered == delivered;
      if torn == [] {
        ReadsPast(parse, encode, more, []);
        ReadOne(parse, []);
        assert added + [] == added && more + [] == more && [] + added == added;
        NewerAll(more, checkpoint);
      } else {
        TornHidesAppends(crc, torn, more, checkpoint);
      }
    }
  }

  /** The shortest case: one byte of a record that was being logged stays behind, and
      the put logged after it is not replayed, whatever the checksums. */
  lemma OneTornByteLosesPut(crc: Crc)
    ensures var r := LsmWals.WalRecord(LsmWals.PUT, 1, 9, [4]);
            Torn(crc, [0x4C]) && Reopened(crc, [0x4C], 0) == ([0x4C], 0) && DeliveredNext(crc, [0x4C], 0, [r]) == []
  {
    hide LsmWals.Parse, LsmWals.Encode, ReadAll, Torn;
    var r := LsmWals.WalRecord(LsmWals.PUT, 1, 9, [4]);
    var e := LsmWals.Encode(crc, r);
    FirstByte(crc, r);
    TornOne(crc, r);
    OneByteStops(crc, e[1..]);
    OneRecord(crc, r);
    assert [0x4C] + e == [0x4C, 0x4C] + e[1..];
  }

  lemma TornOne(crc: Crc, r: LsmWals.WalRecord)
    requires Written(r)
    ensures Torn(crc, [0x4C])
  {
    FirstByte(crc, r);
    hide LsmWals.Encode;
    assert LsmWals.Encode(crc, r)[..1] == [0x4C];
  }

  lemma OneRecord(crc: Crc, r: LsmWals.WalRecord)
    ensures Log(LsmWals.Encoder(crc), [r]) == LsmWals.Encode(crc, r)
  {
    hide LsmWals.Encode;
    assert [r][1..] == [] && LsmWals.Encode(crc, r) + [] == LsmWals.Encode(crc, r);
  }

  lemma FirstByte(crc: Crc, r: LsmWals.WalRecord)
    ensures |LsmWals.Encode(crc, r)| >= 32 && LsmWals.Encode(crc, r)[0] == 0x4C
  {
    assert Le(LsmWals.MAGIC, 2)[0] == 0x4C;
  }

  lemma OneByteStops(crc: Crc, rest: Bytes)
    ensures ReadAll(LsmWals.Parser(crc), [0x4C, 0x4C] + rest) == [] && ReadAll(LsmWals.Parser(crc), [0x4C]) == []
  {
    var b := [0x4C, 0x4C] + rest;
    assert b[0..2] == [0x4C, 0x4C] && [0x4C, 0x4C][1..] == [0x4C];
    assert FromLe([0x4C]) == 0x4C + 256 * FromLe([]);
  }
}
