/** The storage engine's write-ahead log, one segment, byte for byte. */
module LsmWals {
  import opened Common
  import opened Wire

  const MAGIC: nat := 0x574C
  const VERSION: nat := 1
  const HEADER_SIZE: nat := 32
  const MAX_DATA: nat := 64 * 1024 * 1024
  const PUT: nat := 0
  const DELETE: nat := 1

  datatype WalRecord = WalRecord(kind: byte, seqNo: nat, key: nat, data: Bytes)

  predicate Fields(r: WalRecord) {
    r.seqNo < 0x1_0000_0000_0000_0000 && r.key < 0x1_0000_0000_0000_0000
  }

  function HeaderBody(kind: byte, seqNo: nat, key: nat, len: nat): (b: Bytes)
    ensures |b| == 28
  {
    Le(MAGIC, 2) + Le(VERSION, 2) + [kind] + [0, 0, 0] + Le(seqNo, 8) + Le(key, 8) + Le(len, 4)
  }

  /** The length is cast to 32 bits and that many bytes are written. */
  function DataLen(data: Bytes): nat {
    |data| % 0x1_0000_0000
  }

  function Encode(crc: Crc, r: WalRecord): Bytes {
    var len := DataLen(r.data);
    var body := HeaderBody(r.kind, r.seqNo, r.key, len);
    body + Le(crc(body), 4) + if len > 0 then r.data[..len] + Le(crc(r.data[..len]), 4) else []
  }

  function Encoder(crc: Crc): WalRecord -> Bytes {
    r => Encode(crc, r)
  }

  /** One turn of the replay loop. */
  function Parse(crc: Crc, b: Bytes): Frame<WalRecord> {
    if |b| < HEADER_SIZE || Int(b, 0, 2) != MAGIC || Int(b, 2, 2) != VERSION then Stop
    else
      var len := Int(b, 24, 4);
      var size := if len > 0 then HEADER_SIZE + len + 4 else HEADER_SIZE;
      if crc(b[..28]) != Int(b, 28, 4) then Skip(size)
      else if len > MAX_DATA || |b| < size then Stop
      else
        var data := b[32..32 + len];
        if len > 0 && crc(data) != Int(b, 32 + len, 4) then Skip(size)
        else if b[4] == DELETE && len > 0 then Stop
        else Item(WalRecord(b[4], Int(b, 8, 8), Int(b, 16, 8), data), size)
  }

  function Parser(crc: Crc): Bytes -> Frame<WalRecord> {
    b => Parse(crc, b)
  }

  /** The newest sequence number replayed, whether or not it was delivered. */
  function MaxSeq(rs: seq<WalRecord>): nat {
    if rs == [] then 0
    else if rs[|rs| - 1].seqNo > MaxSeq(rs[..|rs| - 1]) then rs[|rs| - 1].seqNo else MaxSeq(rs[..|rs| - 1])
  }

  function Newer(rs: seq<WalRecord>, minSeq: nat): seq<WalRecord> {
    if rs == [] then []
    else Newer(rs[..|rs| - 1], minSeq) + if rs[|rs| - 1].seqNo > minSeq then [rs[|rs| - 1]] else []
  }

  // ---- One record ----

  lemma HeaderFields(body: Bytes, tail: Bytes, kind: byte, seqNo: nat, key: nat, len: nat)
    requires body == HeaderBody(kind, seqNo, key, len) && seqNo < 0x1_0000_0000_0000_0000 &&
             key < 0x1_0000_0000_0000_0000
    requires len < 0x1_0000_0000
    ensures |body| == 28 && (body + tail)[..28] == body && (body + tail)[4] == kind
    ensures Int(body + tail, 0, 2) == MAGIC && Int(body + tail, 2, 2) == VERSION
    ensures Int(body + tail, 8, 8) == seqNo && Int(body + tail, 16, 8) == key && Int(body + tail, 24, 4) == len
  {
    hide Le, FromLe, Pow256;
    var b := body + tail;
    Widths();
    LeRoundTrip(MAGIC, 2);
    LeRoundTrip(VERSION, 2);
    LeRoundTrip(seqNo, 8);
    LeRoundTrip(key, 8);
    LeRoundTrip(len, 4);
    assert b[0..2] == Le(MAGIC, 2) && b[2..4] == Le(VERSION, 2);
    assert b[8..16] == Le(seqNo, 8) && b[16..24] == Le(key, 8) && b[24..28] == Le(len, 4);
  }

  lemma CrcField(head: Bytes, c: U32, tail: Bytes)
    ensures Int(head + Le(c, 4) + tail, |head|, 4) == c
  {
    Widths();
    LeRoundTrip(c, 4);
    assert (head + Le(c, 4) + tail)[|head|..|head| + 4] == Le(c, 4);
  }

  function Expected(crc: Crc, r: WalRecord): Frame<WalRecord> {
    var len := DataLen(r.data);
    if len > MAX_DATA || (r.kind == DELETE && len > 0) then Stop else Item(r.(data := r.data[..len]), |Encode(crc, r)|)
  }

  /** Reading the front of a written record, whatever follows. */
  lemma ParseEncoded(crc: Crc, r: WalRecord, rest: Bytes)
    requires Fields(r)
    ensures Parse(crc, Encode(crc, r) + rest) == Expected(crc, r)
  {
    hide HeaderBody, Le, FromLe;
    var len := DataLen(r.data);
    var body, data := HeaderBody(r.kind, r.seqNo, r.key, len), r.data[..len];
    var b := Encode(crc, r) + rest;
    var tail := if len > 0 then data + Le(crc(data), 4) else [];
    assert b == body + (Le(crc(body), 4) + tail + rest);
    HeaderFields(body, Le(crc(body), 4) + tail + rest, r.kind, r.seqNo, r.key, len);
    assert b == body + Le(crc(body), 4) + (tail + rest);
    CrcField(body, crc(body), tail + rest);
    var head := body + Le(crc(body), 4);
    if len > 0 {
      assert b == (head + data) + Le(crc(data), 4) + rest;
      CrcField(head + data, crc(data), rest);
      assert b[32..32 + len] == data;
    } else {
      assert b[32..32] == data;
    }
  }

  lemma ParsePart(crc: Crc, r: WalRecord, n: nat)
    requires Fields(r) && |r.data| <= MAX_DATA && n < |Encode(crc, r)|
    ensures Parse(crc, Encode(crc, r)[..n]) == Stop
  {
    hide HeaderBody, Le, FromLe;
    var len := |r.data|;
    if n >= HEADER_SIZE {
      var body := HeaderBody(r.kind, r.seqNo, r.key, len);
      var tail := Le(crc(body), 4) + (if len > 0 then r.data[..len] + Le(crc(r.data[..len]), 4) else []);
      assert Encode(crc, r) == body + tail;
      assert Encode(crc, r)[..n] == body + tail[..n - 28];
      HeaderFields(body, tail[..n - 28], r.kind, r.seqNo, r.key, len);
      assert tail[..n - 28] == Le(crc(body), 4) + tail[4..n - 28];
      assert body + tail[..n - 28] == body + Le(crc(body), 4) + tail[4..n - 28];
      CrcField(body, crc(body), tail[4..n - 28]);
    }
  }

  /** What the writer is ever given: a delete carries no data. */
  predicate Writable(r: WalRecord) {
    Fields(r) && (r.kind == PUT || (r.kind == DELETE && r.data == []))
  }

  lemma FaithfulOrLost(crc: Crc, r: WalRecord)
    requires Writable(r)
    ensures if |r.data| <= MAX_DATA then Faithful(Parser(crc), Encoder(crc), r) else Lost(Parser(crc), Encoder(crc), r)
  {
    hide Parse;
    forall rest ensures Parser(crc)(Encoder(crc)(r) + rest) == Expected(crc, r) { ParseEncoded(crc, r, rest); }
    assert |Encode(crc, r)| >= HEADER_SIZE;
    hide Encode;
    if |r.data| <= MAX_DATA {
      assert r.data[..|r.data|] == r.data;
      forall n | 0 < n < |Encode(crc, r)| ensures Parser(crc)(Encoder(crc)(r)[..n]) == Stop { ParsePart(crc, r, n); }
    } else {
      assert DataLen(r.data) <= MAX_DATA ==> r.data[..DataLen(r.data)] != r.data;
    }
  }

  /** Replaying any byte prefix delivers exactly the records wholly written. */
  lemma PrefixReplays(crc: Crc, rs: seq<WalRecord>, n: nat)
    requires forall r :: r in rs ==> Writable(r) && |r.data| <= MAX_DATA
    requires n <= |Log(Encoder(crc), rs)|
    ensures Whole(Encoder(crc), rs, n) <= |rs|
    ensures ReadAll(Parser(crc), Log(Encoder(crc), rs)[..n]) == rs[..Whole(Encoder(crc), rs, n)]
  {
    forall r | r in rs ensures Faithful(Parser(crc), Encoder(crc), r) { FaithfulOrLost(crc, r); }
    PrefixReadsWhole(Parser(crc), Encoder(crc), rs, n);
  }

  /** A log replays as what was appended exactly if no record is longer than 64 MiB. */
  lemma ReplaysExactly(crc: Crc, rs: seq<WalRecord>)
    requires forall r :: r in rs ==> Writable(r)
    ensures ReadAll(Parser(crc), Log(Encoder(crc), rs)) == rs <==> forall r :: r in rs ==> |r.data| <= MAX_DATA
  {
    forall r | r in rs
      ensures Faithful(Parser(crc), Encoder(crc), r) || Lost(Parser(crc), Encoder(crc), r)
      ensures |r.data| <= MAX_DATA <==> Faithful(Parser(crc), Encoder(crc), r)
    {
      FaithfulOrLost(crc, r);
      if Lost(Parser(crc), Encoder(crc), r) { assert Parser(crc)(Encode(crc, r) + []) != Item(r, |Encode(crc, r)|); }
    }
    LogReadsBackExactly(Parser(crc), Encoder(crc), rs);
  }

  // ---- What the reader refuses ----

  /** Both checksums are right: that of the 28 header bytes, and that of the data if there is any. */
  predicate Intact(crc: Crc, b: Bytes) {
    && |b| >= 32 && crc(b[..28]) == FromLe(b[28..32])
    && var len := FromLe(b[24..28]);
       len > 0 ==> |b| >= 36 + len && crc(b[32..32 + len]) == FromLe(b[32 + len..36 + len])
  }

  /** An intact record of this format, of at most 64 MiB, with no data if it deletes. */
  predicate Acceptable(crc: Crc, b: Bytes) {
    && Intact(crc, b) && FromLe(b[0..2]) == 0x574C && FromLe(b[2..4]) == 1
    && FromLe(b[24..28]) <= 0x400_0000 && (b[4] == 1 ==> FromLe(b[24..28]) == 0)
  }

  /** The reader takes a record exactly if it is acceptable, and takes what stands in its bytes. */
  lemma ItemExactly(crc: Crc, b: Bytes)
    ensures Parse(crc, b).Item? <==> Acceptable(crc, b)
    ensures Parse(crc, b).Item? ==>
              var len, r := FromLe(b[24..28]), Parse(crc, b).record;
              r.kind == b[4] && r.seqNo == FromLe(b[8..16]) && r.key == FromLe(b[16..24]) &&
              r.data == b[32..32 + len] &&
              Parse(crc, b).size == if len > 0 then 36 + len else 32
  {
    hide FromLe;
  }

  /** Bytes that take the place of a record, but leave its magic, version and length alone. */
  predicate Replaces(crc: Crc, r: WalRecord, e: Bytes) {
    && |e| == |Encode(crc, r)| && e[..4] == Encode(crc, r)[..4] && e[24..28] == Encode(crc, r)[24..28]
    && (e[4] == 1 ==> r.data == [])
  }

  lemma ReplacedHeader(crc: Crc, r: WalRecord, e: Bytes)
    requires Fields(r) && |r.data| <= MAX_DATA && Replaces(crc, r, e)
    ensures |e| == if r.data == [] then 32 else 36 + |r.data|
    ensures FromLe(e[0..2]) == 0x574C && FromLe(e[2..4]) == 1 && FromLe(e[24..28]) == |r.data|
  {
    hide HeaderBody, Le, FromLe;
    var body := HeaderBody(r.kind, r.seqNo, r.key, |r.data|);
    var tail := Le(crc(body), 4) + (if |r.data| > 0 then r.data[..|r.data|] + Le(crc(r.data[..|r.data|]), 4) else []);
    assert Encode(crc, r) == body + tail;
    HeaderFields(body, tail, r.kind, r.seqNo, r.key, |r.data|);
    assert e[0..2] == e[..4][0..2] && e[2..4] == e[..4][2..4];
    assert Encode(crc, r)[0..2] == Encode(crc, r)[..4][0..2] && Encode(crc, r)[2..4] == Encode(crc, r)[..4][2..4];
  }

  lemma ReplacedParse(crc: Crc, r: WalRecord, e: Bytes, rest: Bytes)
    requires Fields(r) && |r.data| <= MAX_DATA && Replaces(crc, r, e)
    ensures if Intact(crc, e) then Parse(crc, e + rest).Item? && Parse(crc, e + rest).size == |e|
            else Parse(crc, e + rest) == Skip(|e|)
  {
    hide Encode, FromLe;
    ReplacedHeader(crc, r, e);
    var b, len := e + rest, |r.data|;
    assert b[0..2] == e[0..2] && b[2..4] == e[2..4] && b[24..28] == e[24..28] && b[..28] == e[..28] &&
           b[28..32] == e[28..32];
    if len > 0 {
      assert b[32..32 + len] == e[32..32 + len] && b[32 + len..36 + len] == e[32 + len..36 + len];
    }
  }

  /** What stands in the place of one record of a log, with its magic, version and length, is
      skipped, and the records before and behind it delivered, exactly if a checksum fails. */
  lemma DamageIsSkippedExactly(crc: Crc, rs: seq<WalRecord>, r: WalRecord, e: Bytes, more: seq<WalRecord>)
    requires forall x :: x in rs + [r] + more ==> Writable(x) && |x.data| <= MAX_DATA
    requires Replaces(crc, r, e)
    ensures ReadAll(Parser(crc), Log(Encoder(crc), rs) + (e + Log(Encoder(crc), more))) == rs + more <==>
            !Intact(crc, e)
  {
    hide Parse, Encode, ReadAll, Log, Intact, Replaces, Writable;
    assert r in rs + [r] + more;
    forall x | x in rs || x in more ensures Faithful(Parser(crc), Encoder(crc), x) {
      assert x in rs + [r] + more;
      FaithfulOrLost(crc, x);
    }
    var tail := e + Log(Encoder(crc), more);
    ReadsPast(Parser(crc), Encoder(crc), rs, tail);
    ReadsPast(Parser(crc), Encoder(crc), more, []);
    ReadOne(Parser(crc), []);
    assert Log(Encoder(crc), more) + [] == Log(Encoder(crc), more) && more + [] == more;
    ReplacedRecord(crc, r, e);
    ReplacedParse(crc, r, e, Log(Encoder(crc), more));
    ReadOne(Parser(crc), tail);
    assert tail[|e|..] == Log(Encoder(crc), more);
    if Intact(crc, e) { assert |rs + ([Parse(crc, tail).record] + more)| != |rs + more|; }
  }

  lemma ReplacedRecord(crc: Crc, r: WalRecord, e: Bytes)
    requires Writable(r) && |r.data| <= MAX_DATA && Replaces(crc, r, e)
    ensures Fields(r) && |e| >= 32
  {
    ReplacedHeader(crc, r, e);
  }

  /** Other data of the same length in a record, with another checksum, is never delivered. */
  lemma DamagedDataIsSkipped(crc: Crc, rs: seq<WalRecord>, r: WalRecord, data: Bytes, more: seq<WalRecord>)
    requires forall x :: x in rs + [r] + more ==> Writable(x) && |x.data| <= MAX_DATA
    requires |data| == |r.data| > 0 && crc(data) != crc(r.data)
    ensures var e := Encode(crc, r);
            ReadAll(Parser(crc),
                    Log(Encoder(crc), rs) + (e[..32] + data + e[32 + |data|..] + Log(Encoder(crc), more))) ==
            rs + more
  {
    assert r in rs + [r] + more;
    var e := Encode(crc, r);
    DataPlaces(crc, r);
    var e' := e[..32] + data + e[32 + |data|..];
    hide Encode, FromLe, ReadAll, Log, Parse;
    assert e'[24..28] == e[24..28] && e'[..4] == e[..4] && e'[4] == e[4];
    assert e'[32..32 + |data|] == data && e'[32 + |data|..36 + |data|] == e[32 + |data|..36 + |data|];
    DamageIsSkippedExactly(crc, rs, r, e', more);
  }

  lemma DataPlaces(crc: Crc, r: WalRecord)
    requires Writable(r) && 0 < |r.data| <= MAX_DATA
    ensures var e, len := Encode(crc, r), |r.data|;
            |e| == 36 + len && e[4] == 0 && FromLe(e[24..28]) == len && FromLe(e[32 + len..36 + len]) == crc(r.data)
  {
    hide HeaderBody, Le, FromLe;
    var e, data := Encode(crc, r), r.data;
    assert data[..|data|] == data;
    var body := HeaderBody(r.kind, r.seqNo, r.key, |data|);
    var head := body + Le(crc(body), 4) + data;
    assert e == head + Le(crc(data), 4) + [];
    CrcField(head, crc(data), []);
    HeaderFields(body, Le(crc(body), 4) + (data + Le(crc(data), 4)), r.kind, r.seqNo, r.key, |data|);
    assert e == body + (Le(crc(body), 4) + (data + Le(crc(data), 4)));
    ReplacedHeader(crc, r, e);
  }

  lemma NothingSeen(minSeq: nat)
    ensures MaxSeq([]) == 0 && Newer([], minSeq) == []
  {
  }

  lemma LastRecord(rs: seq<WalRecord>, r: WalRecord, minSeq: nat)
    ensures MaxSeq(rs + [r]) == if r.seqNo > MaxSeq(rs) then r.seqNo else MaxSeq(rs)
    ensures Newer(rs + [r], minSeq) == Newer(rs, minSeq) + if r.seqNo > minSeq then [r] else []
  {
    assert (rs + [r])[..|rs|] == rs;
  }

  // ---- The file ----

  /** The header buffer, filled at its offsets. */
  method BuildHeader(crc: Crc, kind: byte, seqNo: nat, key: nat, len: nat) returns (b: Bytes)
    ensures b == HeaderBody(kind, seqNo, key, len) + Le(crc(HeaderBody(kind, seqNo, key, len)), 4)
  {
    hide Le;
    var header := new byte[HEADER_SIZE](_ => 0);
    PutLe(header, 0, MAGIC, 2);
    PutLe(header, 2, VERSION, 2);
    header[4] := kind;
    ghost var front := Le(MAGIC, 2) + Le(VERSION, 2) + [kind] + [0, 0, 0];
    assert header[..8] == front;
    PutLe(header, 8, seqNo, 8);
    assert header[..16] == front + Le(seqNo, 8);
    PutLe(header, 16, key, 8);
    assert header[..24] == front + Le(seqNo, 8) + Le(key, 8);
    PutLe(header, 24, len, 4);
    assert header[..28] == HeaderBody(kind, seqNo, key, len);
    PutLe(header, 28, crc(header[..28]), 4);
    b := header[..];
    assert b == header[..28] + header[28..];
  }

  class LsmWriteAheadLog {
    const crc: Crc
    var file: Bytes
    ghost var found: Bytes              // what the file held when it was opened
    ghost var appended: seq<WalRecord>  // what was logged since

    ghost predicate Valid()
      reads this
    {
      file == found + Log(Encoder(crc), appended)
    }

    /** The file is opened for appending, whatever it holds. */
    constructor (crc: Crc, bytes: Bytes)
      ensures Valid() && this.crc == crc && file == found == bytes && appended == []
    {
      this.crc, file, found, appended := crc, bytes, bytes, [];
    }

    method AppendPut(seqNo: nat, key: nat, data: Bytes)
      requires Valid()
      modifies this
      ensures Valid() && found == old(found) && appended == old(appended) + [WalRecord(PUT, seqNo, key, data)]
    {
      WriteRecord(PUT, seqNo, key, data);
    }

    method AppendDelete(seqNo: nat, key: nat)
      requires Valid()
      modifies this
      ensures Valid() && found == old(found) && appended == old(appended) + [WalRecord(DELETE, seqNo, key, [])]
    {
      WriteRecord(DELETE, seqNo, key, []);
    }

    method WriteRecord(kind: byte, seqNo: nat, key: nat, data: Bytes)
      requires Valid()
      modifies this
      ensures Valid() && found == old(found) && appended == old(appended) + [WalRecord(kind, seqNo, key, data)]
    {
      ghost var r := WalRecord(kind, seqNo, key, data);
      LogAppend(Encoder(crc), appended, r);
      ConcatAssociates(found, Log(Encoder(crc), appended), Encode(crc, r));
      WriteBytes(kind, seqNo, key, data);
      appended := appended + [r];
    }

    method WriteBytes(kind: byte, seqNo: nat, key: nat, data: Bytes)
      modifies `file
      ensures file == old(file) + Encode(crc, WalRecord(kind, seqNo, key, data))
    {
      hide HeaderBody, Le;
      var len := |data| % 0x1_0000_0000;
      var header := BuildHeader(crc, kind, seqNo, key, len);
      file := file + header;
      if len > 0 {
        var payload := data[..len];
        ConcatAssociates(old(file), header, payload);
        ConcatAssociates(old(file), header + payload, Le(crc(payload), 4));
        ConcatAssociates(header, payload, Le(crc(payload), 4));
        file := file + payload;
        file := file + Le(crc(payload), 4);
      }
    }

    method Truncate()
      requires Valid()
      modifies this
      ensures Valid() && file == found == [] && appended == []
    {
      file, found, appended := [], [], [];
    }

    /** replay of this segment: what is visited, and the newest sequence number seen.  On a
        log begun by this object, all that was appended if none is longer than 64 MiB. */
    method Replay(minSeq: nat) returns (visited: seq<WalRecord>, maxSeq: nat)
      requires Valid()
      ensures visited == Newer(ReadAll(Parser(crc), file), minSeq)
      ensures maxSeq == MaxSeq(ReadAll(Parser(crc), file))
      ensures found == [] && (forall r :: r in appended ==> Writable(r) && |r.data| <= MAX_DATA) ==>
                visited == Newer(appended, minSeq) && maxSeq == MaxSeq(appended)
    {
      visited, maxSeq := ReadFile(minSeq);
      if found == [] && forall r :: r in appended ==> Writable(r) && |r.data| <= MAX_DATA {
        assert file == Log(Encoder(crc), appended);
        ReplaysExactly(crc, appended);
      }
    }

    method ReadFile(minSeq: nat) returns (visited: seq<WalRecord>, maxSeq: nat)
      ensures visited == Newer(ReadAll(Parser(crc), file), minSeq)
      ensures maxSeq == MaxSeq(ReadAll(Parser(crc), file))
    {
      visited, maxSeq := [], 0;
      hide Parse, ReadAll, MaxSeq, Newer;
      ghost var seen := [];
      var b := file;
      NothingSeen(minSeq);
      ReadOne(Parser(crc), b);
      while b != []
        invariant ReadAll(Parser(crc), file) == seen + ReadAll(Parser(crc), b)
        invariant visited == Newer(seen, minSeq) && maxSeq == MaxSeq(seen)
        decreases |b|
      {
        var step := Parse(crc, b);
        ReadOne(Parser(crc), b);
        assert seen + [] == seen;
        if step.Stop? { return; }
        ghost var more := if 0 < step.size <= |b| then ReadAll(Parser(crc), b[step.size..]) else [];
        if step.Item? {
          LastRecord(seen, step.record, minSeq);
          ConcatAssociates(seen, [step.record], more);
          seen := seen + [step.record];
          assert seen + [] == seen;
          if step.record.seqNo > maxSeq { maxSeq := step.record.seqNo; }
          if step.record.seqNo > minSeq { visited := visited + [step.record]; }
        }
        if step.size == 0 || step.size > |b| { return; }
        b := b[step.size..];
        assert ReadAll(Parser(crc), b) == more;
      }
      ReadOne(Parser(crc), b);
      assert seen + [] == seen;
    }
  }
}
