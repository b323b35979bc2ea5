/** The lineage log: a 16-byte header, the parent ids, and a CRC-32 over both. */
module LineageWals {
  import opened Common
  import opened Wire
  import Crc32

  const HEADER_SIZE: nat := 16

  datatype Record = Record(op: byte, node: nat, lineageOp: byte, parents: seq<nat>, timestamp: nat)

  predicate Fields(r: Record) {
    && r.node < 0x1_0000_0000_0000_0000 && r.timestamp < 0x1_0000_0000
    && (forall i :: 0 <= i < |r.parents| ==> r.parents[i] < 0x1_0000_0000_0000_0000)
  }

  function Ids(parents: seq<nat>): (b: Bytes)
    ensures |b| == 8 * |parents|
  {
    if parents == [] then [] else Le(parents[0], 8) + Ids(parents[1..])
  }

  function ReadIds(b: Bytes, n: nat): (ids: seq<nat>)
    requires 8 * n <= |b|
    ensures |ids| == n
  {
    if n == 0 then [] else [FromLe(b[..8])] + ReadIds(b[8..], n - 1)
  }

  /** The number of parents is cast to 16 bits; all of them are written. */
  function Header(r: Record): (b: Bytes)
    ensures |b| == HEADER_SIZE
  {
    [r.op] + Le(r.node, 8) + [r.lineageOp] + Le(|r.parents| % 0x1_0000, 2) + Le(r.timestamp, 4)
  }

  function Body(r: Record): (b: Bytes)
    ensures |b| == HEADER_SIZE + 8 * |r.parents|
  {
    Header(r) + Ids(r.parents)
  }

  function Encode(r: Record): (b: Bytes)
    ensures |b| == HEADER_SIZE + 8 * |r.parents| + 4
  {
    Body(r) + Crc32.Stored(Crc32.CrcOf(Body(r)))
  }

  function Count(b: Bytes): nat
    requires |b| >= HEADER_SIZE
  {
    FromLe(b[10..12])
  }

  function Decode(b: Bytes): Record
    requires |b| >= HEADER_SIZE && |b| >= HEADER_SIZE + 8 * Count(b)
  {
    Record(b[0], FromLe(b[1..9]), b[9], ReadIds(b[16..], Count(b)), FromLe(b[12..16]))
  }

  /** One turn of the replay loop. */
  function Parse(b: Bytes): Frame<Record> {
    if |b| < HEADER_SIZE then Stop
    else
      var size := HEADER_SIZE + 8 * Count(b) + 4;
      if |b| < size || !Crc32.Sealed(b[..size]) then Stop else Item(Decode(b), size)
  }

  lemma {:induction false} IdsBack(parents: seq<nat>, rest: Bytes)
    requires forall i :: 0 <= i < |parents| ==> parents[i] < 0x1_0000_0000_0000_0000
    ensures ReadIds(Ids(parents) + rest, |parents|) == parents
  {
    hide Le, FromLe, Pow256;
    if parents != [] {
      Widths();
      LeRoundTrip(parents[0], 8);
      var b := Ids(parents) + rest;
      assert b[..8] == Le(parents[0], 8) && b[8..] == Ids(parents[1..]) + rest;
      IdsBack(parents[1..], rest);
      assert parents == [parents[0]] + parents[1..];
    }
  }

  lemma HeaderBack(r: Record, rest: Bytes)
    requires Fields(r)
    ensures var b := Header(r) + rest; b[0] == r.op && FromLe(b[1..9]) == r.node && b[9] == r.lineageOp &&
                                       Count(b) == |r.parents| % 0x1_0000 && FromLe(b[12..16]) == r.timestamp
  {
    hide Le, FromLe, Pow256;
    var b := Header(r) + rest;
    Widths();
    LeRoundTrip(r.node, 8);
    LeRoundTrip(|r.parents| % 0x1_0000, 2);
    LeRoundTrip(r.timestamp, 4);
    assert b[1..9] == Le(r.node, 8) && b[10..12] == Le(|r.parents| % 0x1_0000, 2) && b[12..16] == Le(r.timestamp, 4);
  }

  lemma {:induction false} IdAt(parents: seq<nat>, i: nat)
    requires i < |parents| && parents[i] < 0x1_0000_0000_0000_0000
    ensures FromLe(Ids(parents)[8 * i..8 * i + 8]) == parents[i]
  {
    hide Le, FromLe, Pow256;
    if i == 0 {
      Widths();
      LeRoundTrip(parents[0], 8);
      assert Ids(parents)[0..8] == Le(parents[0], 8);
    } else {
      IdAt(parents[1..], i - 1);
      assert Ids(parents)[8 * i..8 * i + 8] == Ids(parents[1..])[8 * (i - 1)..8 * (i - 1) + 8];
    }
  }

  /** Where each field of a record stands. */
  lemma Layout(r: Record)
    requires Fields(r)
    ensures var e, n := Encode(r), |r.parents|;
            && |e| == 20 + 8 * n && e[0] == r.op && FromLe(e[1..9]) == r.node && e[9] == r.lineageOp
            && FromLe(e[10..12]) == n % 0x1_0000 && FromLe(e[12..16]) == r.timestamp
            && (forall i :: 0 <= i < n ==> FromLe(e[16 + 8 * i..24 + 8 * i]) == r.parents[i])
            && e[16 + 8 * n..] == Crc32.Stored(Crc32.CrcOf(e[..16 + 8 * n]))
  {
    hide Header, Ids, FromLe, Crc32.Sealed, Crc32.Stored, Crc32.CrcOf;
    var e, n, seal := Encode(r), |r.parents|, Crc32.Stored(Crc32.CrcOf(Body(r)));
    assert e == Header(r) + (Ids(r.parents) + seal) && e[..16 + 8 * n] == Body(r);
    HeaderBack(r, Ids(r.parents) + seal);
    forall i | 0 <= i < n ensures FromLe(e[16 + 8 * i..24 + 8 * i]) == r.parents[i] {
      IdAt(r.parents, i);
      assert e[16 + 8 * i..24 + 8 * i] == Ids(r.parents)[8 * i..8 * i + 8];
    }
  }

  /** Replay stops exactly at a record damaged within four consecutive bytes, its count of
      parents left alone, whatever follows. */
  lemma StopsAtDamage(rs: seq<Record>, r: Record, before: Bytes, v: Bytes, w: Bytes, after: Bytes, rest: Bytes)
    requires forall x :: x in rs + [r] ==> Fields(x) && |x.parents| < 0x1_0000
    requires Encode(r) == before + v + after && |v| == |w| <= 4 && v != w
    requires |before| + |v| <= 10 || |before| >= 12
    ensures ReadAll(Parse, Log(Encode, rs) + ((before + w + after) + rest)) == rs
  {
    assert r in rs + [r];
    forall x | x in rs ensures Faithful(Parse, Encode, x) {
      assert x in rs + [r];
      FaithfulOrLost(x);
    }
    var broken := before + w + after;
    DamageStops(r, before, v, w, after, rest);
    hide Parse, Encode, Log, ReadAll;
    ReadsPast(Parse, Encode, rs, broken + rest);
    ReadOne(Parse, broken + rest);
    assert rs + [] == rs;
  }

  lemma DamageStops(r: Record, before: Bytes, v: Bytes, w: Bytes, after: Bytes, rest: Bytes)
    requires Fields(r) && |r.parents| < 0x1_0000
    requires Encode(r) == before + v + after && |v| == |w| <= 4 && v != w
    requires |before| + |v| <= 10 || |before| >= 12
    ensures Parse(before + w + after + rest) == Stop && before + w + after != []
  {
    hide Encode, Body, Parse, Crc32.Sealed;
    EncodedIsSealed(r);
    Crc32.DamageBreaksSeal(before, v, w, after);
    var e, broken := Encode(r), before + w + after;
    assert (broken + rest)[10..12] == e[10..12] && (broken + rest)[..|e|] == broken;
    ParseBySize(r, broken + rest);
  }

  lemma EncodedIsSealed(r: Record)
    ensures Crc32.Sealed(Encode(r)) && |Encode(r)| == 20 + 8 * |r.parents|
  {
    Crc32.SealedRecord(Body(r));
  }

  /** Bytes with the count of a written record are read as a record of its size. */
  lemma ParseBySize(r: Record, b: Bytes)
    requires Fields(r) && |r.parents| < 0x1_0000 && |b| >= |Encode(r)| && b[10..12] == Encode(r)[10..12]
    ensures Parse(b).Item? <==> Crc32.Sealed(b[..|Encode(r)|])
    ensures !Parse(b).Item? ==> Parse(b) == Stop
  {
    hide Encode, Decode, FromLe, Crc32.Sealed;
    CountOf(r);
    EncodedIsSealed(r);
    assert FromLe(b[10..12]) == |r.parents|;
  }

  lemma CountOf(r: Record)
    requires Fields(r) && |r.parents| < 0x1_0000
    ensures |Encode(r)| >= 12 && FromLe(Encode(r)[10..12]) == |r.parents|
  {
    hide Header, Ids, FromLe, Crc32.Stored, Crc32.CrcOf;
    var rest := Ids(r.parents) + Crc32.Stored(Crc32.CrcOf(Body(r)));
    assert Encode(r) == Header(r) + rest;
    HeaderBack(r, rest);
  }

  lemma ParseEncoded(r: Record, rest: Bytes)
    requires Fields(r) && |r.parents| < 0x1_0000
    ensures Parse(Encode(r) + rest) == Item(r, |Encode(r)|)
  {
    hide Header, Ids, ReadIds, FromLe, Crc32.Sealed, Crc32.Stored, Crc32.CrcOf;
    var seal := Crc32.Stored(Crc32.CrcOf(Body(r)));
    var b := Encode(r) + rest;
    assert b == Header(r) + (Ids(r.parents) + seal + rest);
    HeaderBack(r, Ids(r.parents) + seal + rest);
    assert b[16..] == Ids(r.parents) + (seal + rest);
    IdsBack(r.parents, seal + rest);
    assert b[..|Encode(r)|] == Encode(r);
    Crc32.SealedRecord(Body(r));
  }

  lemma ParsePart(r: Record, n: nat)
    requires Fields(r) && |r.parents| < 0x1_0000 && n < |Encode(r)|
    ensures Parse(Encode(r)[..n]) == Stop
  {
    hide Header, Ids, ReadIds, FromLe, Crc32.Sealed, Crc32.Stored, Crc32.CrcOf;
    var tail := Ids(r.parents) + Crc32.Stored(Crc32.CrcOf(Body(r)));
    if n >= HEADER_SIZE {
      assert Encode(r) == Header(r) + tail;
      assert Encode(r)[..n] == Header(r) + tail[..n - HEADER_SIZE];
      HeaderBack(r, tail[..n - HEADER_SIZE]);
    }
  }

  /** With more than 65535 parents the record never reads back as written. */
  lemma ParseTooMany(r: Record, rest: Bytes)
    requires Fields(r) && |r.parents| >= 0x1_0000
    ensures Parse(Encode(r) + rest).Stop? || (Parse(Encode(r) + rest).Item? && Parse(Encode(r) + rest).record != r)
  {
    hide Header, Ids, FromLe, Crc32.Sealed, Crc32.Stored, Crc32.CrcOf;
    var seal := Crc32.Stored(Crc32.CrcOf(Body(r)));
    assert Encode(r) + rest == Header(r) + (Ids(r.parents) + seal + rest);
    HeaderBack(r, Ids(r.parents) + seal + rest);
  }

  lemma FaithfulOrLost(r: Record)
    requires Fields(r)
    ensures if |r.parents| < 0x1_0000 then Faithful(Parse, Encode, r) else Lost(Parse, Encode, r)
  {
    hide Parse;
    assert |Encode(r)| > 0;
    hide Encode;
    if |r.parents| < 0x1_0000 {
      forall rest ensures Parse(Encode(r) + rest) == Item(r, |Encode(r)|) { ParseEncoded(r, rest); }
      forall n | 0 < n < |Encode(r)| ensures Parse(Encode(r)[..n]) == Stop { ParsePart(r, n); }
    } else {
      forall rest
        ensures Parse(Encode(r) + rest).Stop? || (Parse(Encode(r) + rest).Item? && Parse(Encode(r) + rest).record != r)
      {
        ParseTooMany(r, rest);
      }
    }
  }

  /** Replaying any byte prefix delivers exactly the records wholly written. */
  lemma PrefixReplays(rs: seq<Record>, n: nat)
    requires forall r :: r in rs ==> Fields(r) && |r.parents| < 0x1_0000
    requires n <= |Log(Encode, rs)|
    ensures Whole(Encode, rs, n) <= |rs| && ReadAll(Parse, Log(Encode, rs)[..n]) == rs[..Whole(Encode, rs, n)]
  {
    forall r | r in rs ensures Faithful(Parse, Encode, r) { FaithfulOrLost(r); }
    PrefixReadsWhole(Parse, Encode, rs, n);
  }

  /** A log replays as what was appended exactly if no record names more than 65535 parents. */
  lemma ReplaysExactly(rs: seq<Record>)
    requires forall r :: r in rs ==> Fields(r)
    ensures ReadAll(Parse, Log(Encode, rs)) == rs <==> forall r :: r in rs ==> |r.parents| < 0x1_0000
  {
    hide Parse, Encode;
    forall r | r in rs
      ensures Faithful(Parse, Encode, r) || Lost(Parse, Encode, r)
      ensures |r.parents| < 0x1_0000 <==> Faithful(Parse, Encode, r)
    {
      FaithfulOrLost(r);
      if Lost(Parse, Encode, r) { assert Parse(Encode(r) + []) != Item(r, |Encode(r)|); }
    }
    LogReadsBackExactly(Parse, Encode, rs);
  }

  // ---- The file ----

  class LineageWAL {
    const table: array<bv32>
    var file: Bytes
    ghost var found: Bytes           // what the file held when it was opened
    ghost var appended: seq<Record>  // what was logged since

    ghost predicate Valid()
      reads this, table
    {
      Crc32.IsTable(table[..]) && file == found + Log(Encode, appended)
    }

    /** The file is opened for appending, whatever it holds. */
    constructor (bytes: Bytes)
      ensures Valid() && fresh(table) && file == found == bytes && appended == []
    {
      var t := Crc32.BuildTable();
      table, file, found, appended := t, bytes, bytes, [];
    }

    /** appendRecordLineage; the two other kinds of record pass no parents. */
    method Append(r: Record)
      requires Valid()
      modifies this
      ensures Valid() && found == old(found) && appended == old(appended) + [r]
    {
      hide Encode, Crc32.IsTable;
      LogAppend(Encode, appended, r);
      ConcatAssociates(found, Log(Encode, appended), Encode(r));
      WriteBytes(r);
      appended := appended + [r];
    }

    method WriteBytes(r: Record)
      requires Crc32.IsTable(table[..])
      modifies `file
      ensures file == old(file) + Encode(r)
    {
      var buf := Header(r);
      var i := 0;
      assert r.parents[0..] == r.parents;
      while i < |r.parents|
        invariant 0 <= i <= |r.parents| && buf + Ids(r.parents[i..]) == Body(r) && file == old(file)
      {
        assert r.parents[i..][1..] == r.parents[i + 1..];
        ConcatAssociates(buf, Le(r.parents[i], 8), Ids(r.parents[i + 1..]));
        buf := buf + Le(r.parents[i], 8);
        i := i + 1;
      }
      assert buf + [] == buf;
      var crc := Crc32.Crc(table, buf);
      ConcatAssociates(old(file), buf, Crc32.Stored(crc));
      file := file + buf;
      file := file + Crc32.Stored(crc);
    }

    method Truncate()
      requires Valid()
      modifies this
      ensures Valid() && file == found == [] && appended == []
    {
      file, found, appended := [], [], [];
    }

    /** On a log begun by this object, what was appended exactly if no record names more
        than 65535 parents. */
    method Replay() returns (rs: seq<Record>)
      requires Valid()
      ensures rs == ReadAll(Parse, file)
      ensures found == [] && (forall r :: r in appended ==> Fields(r)) ==>
                (rs == appended <==> forall r :: r in appended ==> |r.parents| < 0x1_0000)
    {
      rs := ReadFile();
      if found == [] && forall r :: r in appended ==> Fields(r) {
        assert file == Log(Encode, appended);
        ReplaysExactly(appended);
      }
    }

    method ReadFile() returns (rs: seq<Record>)
      requires Crc32.IsTable(table[..])
      ensures rs == ReadAll(Parse, file)
    {
      hide Parse, ReadAll, Decode, Count, Crc32.IsTable;
      rs := [];
      var b := file;
      while b != []
        invariant ReadAll(Parse, file) == rs + ReadAll(Parse, b)
        decreases |b|
      {
        ReadOne(Parse, b);
        assert rs + [] == rs;
        ShortStops(b);
        if |b| < HEADER_SIZE { return; }
        var size := HEADER_SIZE + 8 * Count(b) + 4;
        if |b| < size { return; }
        var crc := Crc32.Crc(table, b[..size - 4]);
        CheckedSeal(b, crc);
        if crc != Crc32.Pack(b[size - 4..size]) { return; }
        ConcatAssociates(rs, [Decode(b)], ReadAll(Parse, b[size..]));
        rs := rs + [Decode(b)];
        b := b[size..];
      }
      ReadOne(Parse, b);
      assert rs + [] == rs;
    }
  }

  lemma ShortStops(b: Bytes)
    ensures |b| < HEADER_SIZE || |b| < HEADER_SIZE + 8 * Count(b) + 4 ==> Parse(b) == Stop
  {
  }

  lemma CheckedSeal(b: Bytes, crc: bv32)
    requires |b| >= HEADER_SIZE && |b| >= HEADER_SIZE + 8 * Count(b) + 4
    requires crc == Crc32.CrcOf(b[..HEADER_SIZE + 8 * Count(b)])
    ensures var n := HEADER_SIZE + 8 * Count(b);
            Parse(b) == if crc == Crc32.Pack(b[n..n + 4]) then Item(Decode(b), n + 4) else Stop
  {
    hide Crc32.CrcOf, Crc32.Pack, Decode, Count;
    var n := HEADER_SIZE + 8 * Count(b);
    var front := b[..n + 4];
    assert front[..n] == b[..n] && front[n..] == b[n..n + 4];
  }
}
