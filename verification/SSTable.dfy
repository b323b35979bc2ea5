/** Table files: the writer that cuts entries into blocks, and the reader. */
module SSTables {
  import opened Common
  import opened Wire
  import opened Tables
  import opened Blocks
  import opened Blooms

  const MAGIC: nat := 0x436C_6177_4D69_6E64
  const VERSION: nat := 1
  const BLOCK_TARGET: nat := 4096
  const BLOOM_BITS_PER_KEY: nat := 10
  const FOOTER_SIZE: nat := 40
  const INDEX_SIZE: nat := 20

  datatype FileError =
    | FileTooSmall | BadFooter | IndexOutOfFile | BloomOutOfFile | BlockOutOfFile
    | BadBlock(cause: Blocks.Error)
                     | Finished | OutOfOrder

  datatype IndexEntry = IndexEntry(firstKey: Key, offset: nat, size: nat)

  // ---- A list of blocks ----

  function Flat(bs: seq<seq<Entry>>): Table {
    if bs == [] then [] else Flat(bs[..|bs| - 1]) + bs[|bs| - 1]
  }

  function Start(bs: seq<seq<Entry>>, i: nat): nat
    requires i <= |bs|
  {
    |Flat(bs[..i])|
  }

  ghost predicate Proper(bs: seq<seq<Entry>>) {
    Ascending(Flat(bs)) && forall i :: 0 <= i < |bs| ==> bs[i] != []
  }

  lemma FlatNext(bs: seq<seq<Entry>>, b: seq<Entry>)
    ensures Flat(bs + [b]) == Flat(bs) + b
  {
    assert (bs + [b])[..|bs|] == bs;
  }

  lemma {:induction false} StartGrows(bs: seq<seq<Entry>>, i: nat, j: nat)
    requires i <= j <= |bs|
    ensures Start(bs, i) <= Start(bs, j) && (i < j ==> Start(bs, i) + |bs[i]| <= Start(bs, j))
  {
    if i < j {
      assert bs[..j] == bs[..j - 1] + [bs[j - 1]];
      FlatNext(bs[..j - 1], bs[j - 1]);
      StartGrows(bs, i, j - 1);
    }
  }

  /** The i-th block lies at its start. */
  lemma {:induction false} BlockAt(bs: seq<seq<Entry>>, i: nat)
    requires i < |bs|
    ensures Start(bs, i) + |bs[i]| <= |Flat(bs)| && Flat(bs)[Start(bs, i)..Start(bs, i) + |bs[i]|] == bs[i]
  {
    var front, last := bs[..|bs| - 1], bs[|bs| - 1];
    if i < |bs| - 1 {
      BlockAt(front, i);
      assert front[..i] == bs[..i];
    }
  }

  lemma FirstKeysAscend(bs: seq<seq<Entry>>, i: nat, j: nat)
    requires Proper(bs) && i < j < |bs|
    ensures bs[i][0].key < bs[j][0].key
  {
    BlockAt(bs, i);
    BlockAt(bs, j);
    StartGrows(bs, i, j);
    assert Flat(bs)[Start(bs, i)] == bs[i][0] && Flat(bs)[Start(bs, j)] == bs[j][0];
  }

  lemma BlockAscends(bs: seq<seq<Entry>>, i: nat)
    requires Proper(bs) && i < |bs|
    ensures Ascending(bs[i])
  {
    BlockAt(bs, i);
    forall a, b | 0 <= a < b < |bs[i]| ensures bs[i][a].key < bs[i][b].key {
      assert Flat(bs)[Start(bs, i) + a] == bs[i][a] && Flat(bs)[Start(bs, i) + b] == bs[i][b];
    }
  }

  /** A key can only be in the last block that begins at or before it. */
  lemma LookupInBlock(bs: seq<seq<Entry>>, i: int, key: Key)
    requires Proper(bs) && -1 <= i < |bs|
    requires i >= 0 ==> bs[i][0].key <= key
    requires i + 1 < |bs| ==> key < bs[i + 1][0].key
    ensures Lookup(Flat(bs), key) == if i < 0 then None else Lookup(bs[i], key)
  {
    hide Flat;
    var t := Flat(bs);
    if i + 1 < |bs| { BlockAt(bs, i + 1); assert t[Start(bs, i + 1)] == bs[i + 1][0]; }
    if i >= 0 {
      BlockAt(bs, i);
      StartGrows(bs, i, i + 1);
      StartNext(bs, i);
      var s := Start(bs, i);
      assert t[s] == bs[i][0];
      LookupInside(t, s, bs[i], key);
    } else {
      NoStart(bs);
      LookupNone(t, key);
    }
  }

  lemma NoStart(bs: seq<seq<Entry>>)
    ensures Start(bs, 0) == 0 && (bs == [] ==> Flat(bs) == [])
  {
  }

  /** Only the part of a table around the key matters for its lookup. */
  lemma LookupInside(t: Table, s: nat, b: seq<Entry>, key: Key)
    requires Ascending(t) && b != [] && s + |b| <= |t| && t[s..s + |b|] == b
    requires b[0].key <= key && (s + |b| < |t| ==> key < t[s + |b|].key)
    ensures Lookup(t, key) == Lookup(b, key)
  {
    assert Ascending(b) by {
      forall i, j | 0 <= i < j < |b| ensures b[i].key < b[j].key { assert t[s + i] == b[i] && t[s + j] == b[j]; }
    }
    if Lookup(b, key).Some? {
      var j := LookupSome(b, key);
      assert t[s + j] == b[j];
      LookupAt(t, s + j);
    } else {
      assert t[s] == b[0];
      forall n | 0 <= n < |t| ensures t[n].key != key {
        if s <= n < s + |b| {
          assert t[n] == b[n - s];
          LookupAt(b, n - s);
        }
      }
      LookupNone(t, key);
    }
  }

  lemma StartNext(bs: seq<seq<Entry>>, i: nat)
    requires i < |bs|
    ensures Start(bs, i + 1) == Start(bs, i) + |bs[i]|
    ensures i + 1 == |bs| ==> Start(bs, i + 1) == |Flat(bs)|
  {
    assert bs[..i + 1] == bs[..i] + [bs[i]];
    FlatNext(bs[..i], bs[i]);
    if i + 1 == |bs| { assert bs[..i + 1] == bs; }
  }

  // ---- The file ----

  function DataBytes(z: Lz4, bs: seq<seq<Entry>>): Bytes {
    if bs == [] then [] else DataBytes(z, bs[..|bs| - 1]) + BlockBytes(z, bs[|bs| - 1])
  }

  function IndexOf(z: Lz4, bs: seq<seq<Entry>>): seq<IndexEntry> {
    seq(|bs|, i requires 0 <= i < |bs| =>
      IndexEntry(if bs[i] == [] then 0 else bs[i][0].key,
                 |DataBytes(z, bs[..i])|, |BlockBytes(z, bs[i])| % 0x1_0000_0000))
  }

  function IndexBytes(x: IndexEntry): (b: Bytes)
    ensures |b| == INDEX_SIZE
  {
    Le(x.firstKey, 8) + Le(x.offset, 8) + Le(x.size, 4)
  }

  function AllIndexBytes(xs: seq<IndexEntry>): (b: Bytes)
    ensures |b| == INDEX_SIZE * |xs|
  {
    if xs == [] then [] else IndexBytes(xs[0]) + AllIndexBytes(xs[1..])
  }

  function FooterBytes(indexOffset: nat, indexSize: nat, bloomOffset: nat, bloomSize: nat, count: nat): (b: Bytes)
    ensures |b| == FOOTER_SIZE
  {
    Le(indexOffset, 8) + Le(indexSize % 0x1_0000_0000, 4) + Le(bloomOffset, 8) + Le(bloomSize % 0x1_0000_0000, 4)
    + Le(count % 0x1_0000_0000, 4) + Le(VERSION, 2) + [0, 0] + Le(MAGIC, 8)
  }

  /** The file for these blocks and this serialized filter. */
  function FileBytes(z: Lz4, bs: seq<seq<Entry>>, filter: Bytes): Bytes {
    var data, index := DataBytes(z, bs), AllIndexBytes(IndexOf(z, bs));
    data + index + filter + FooterBytes(|data|, |index|, |data| + |index|, |filter|, |Flat(bs)|)
  }

  // ---- The reader ----

  datatype SSTable = SSTable(file: Bytes, index: seq<IndexEntry>, numHashes: nat, bits: Bytes)

  function ReadIndex(b: Bytes, n: nat): (xs: seq<IndexEntry>)
    requires INDEX_SIZE * n <= |b|
    ensures |xs| == n
  {
    if n == 0 then [] else [IndexEntry(FromLe(b[..8]), FromLe(b[8..16]), FromLe(b[16..20]))] + ReadIndex(b[20..], n - 1)
  }

  function OpenTable(file: Bytes): Result<SSTable, FileError> {
    if |file| < FOOTER_SIZE then Err(FileTooSmall)
    else
      var body, footer := file[..|file| - FOOTER_SIZE], file[|file| - FOOTER_SIZE..];
      var indexOffset, indexSize, bloomOffset, bloomSize :=
        FromLe(footer[..8]), FromLe(footer[8..12]), FromLe(footer[12..20]), FromLe(footer[20..24]);
      if FromLe(footer[32..40]) != MAGIC || FromLe(footer[28..30]) != VERSION then Err(BadFooter)
      else if indexOffset + indexSize > |body| then Err(IndexOutOfFile)
      else if bloomOffset + bloomSize > |body| then Err(BloomOutOfFile)
      else
        var index := ReadIndex(file[indexOffset..], indexSize / INDEX_SIZE);
        match Deserialize(file[bloomOffset..bloomOffset + bloomSize])
        case None => Err(BloomOutOfFile)
        case Some(f) => Ok(SSTable(file, index, f.0, f.1))
  }

  function ReadBlock(z: Lz4, t: SSTable, i: nat): Result<Block, FileError>
    requires i < |t.index|
  {
    var x := t.index[i];
    if x.offset + x.size > |t.file| then Err(BlockOutOfFile)
    else
      match OpenBlock(z, t.file[x.offset..x.offset + x.size])
      case Ok(b) => Ok(b)
      case Err(e) => Err(BadBlock(e))
  }

  /** The i-th block of the open table is this one. */
  ghost predicate Stands(z: Lz4, t: SSTable, i: nat, b: seq<Entry>)
    requires i < |t.index|
  {
    b != [] && t.index[i].firstKey == b[0].key && ReadBlock(z, t, i).Ok? && Holds(ReadBlock(z, t, i).value, b)
  }

  /** The filter turns no key of the table away. */
  ghost predicate Admits(h: Hash, bits: Bytes, k: nat, t: Table)
    requires |bits| > 0
  {
    forall i :: 0 <= i < |t| ==> MayHold(h, bits, k, t[i].key)
  }

  /** The open table stands for these blocks. */
  ghost predicate Contains(z: Lz4, h: Hash, t: SSTable, bs: seq<seq<Entry>>) {
    && |t.index| == |bs| && Proper(bs) && |t.bits| > 0
    && (forall i :: 0 <= i < |bs| ==> Stands(z, t, i, bs[i]))
    && Admits(h, t.bits, t.numHashes, Flat(bs))
  }

  /** The last block that begins at or before the key, or -1. */
  method FindBlockIndex(index: seq<IndexEntry>, key: Key) returns (r: int)
    requires forall i, j :: 0 <= i < j < |index| ==> index[i].firstKey < index[j].firstKey
    ensures -1 <= r < |index|
    ensures r >= 0 ==> index[r].firstKey <= key
    ensures forall i :: r < i < |index| ==> key < index[i].firstKey
  {
    var low, high := 0, |index| - 1;
    r := -1;
    while low <= high
      invariant 0 <= low && high < |index| && low <= high + 1 && r == low - 1
      invariant r >= 0 ==> index[r].firstKey <= key
      invariant forall i :: high < i < |index| ==> key < index[i].firstKey
      decreases high - low + 1
    {
      var mid := low + (high - low) / 2;
      if index[mid].firstKey <= key {
        r := mid;
        low := mid + 1;
      } else {
        high := mid - 1;
      }
    }
  }

  method Get(z: Lz4, h: Hash, t: SSTable, key: Key, ghost bs: seq<seq<Entry>>) returns (r: Option<Bytes>)
    requires Contains(z, h, t, bs)
    ensures r == Lookup(Flat(bs), key)
  {
    if !MayHold(h, t.bits, t.numHashes, key) {
      LookupNone(Flat(bs), key);
      return None;
    }
    IndexFacts(z, h, t, bs);
    var i := FindBlockIndex(t.index, key);
    LookupInBlock(bs, i, key);
    if i < 0 { return None; }
    assert Stands(z, t, i, bs[i]);
    var b := ReadBlock(z, t, i).value;
    BlockAscends(bs, i);
    var n := FindKey(b, key, bs[i]);
    if n < 0 {
      LookupNone(bs[i], key);
      return None;
    }
    LookupAt(bs[i], n);
    assert EntryAt(b, n) == bs[i][n];
    r := Some(EntryAt(b, n).value);
  }

  function InRange(t: Table, lo: Key, hi: Key): Table {
    if t == [] then []
    else InRange(t[..|t| - 1], lo, hi) + if lo <= t[|t| - 1].key <= hi then [t[|t| - 1]] else []
  }

  /** The entries of one block, in order. */
  method BlockEntries(b: Block, ghost es: seq<Entry>) returns (visited: seq<Entry>)
    requires Holds(b, es)
    ensures visited == es
  {
    visited := [];
    var n := 0;
    while n < b.count
      invariant 0 <= n <= |es| && visited == es[..n]
    {
      assert EntryAt(b, n) == es[n] && es[..n + 1] == es[..n] + [es[n]];
      visited := visited + [EntryAt(b, n)];
      n := n + 1;
    }
  }

  method ForEach(z: Lz4, h: Hash, t: SSTable, ghost bs: seq<seq<Entry>>) returns (visited: Table)
    requires Contains(z, h, t, bs)
    ensures visited == Flat(bs)
  {
    hide ReadBlock, MayHold, Ascending, Holds;
    visited := [];
    var i := 0;
    while i < |t.index|
      invariant 0 <= i <= |bs| && visited == Flat(bs[..i])
    {
      assert Stands(z, t, i, bs[i]);
      var entries := BlockEntries(ReadBlock(z, t, i).value, bs[i]);
      visited := visited + entries;
      assert bs[..i + 1] == bs[..i] + [bs[i]];
      FlatNext(bs[..i], bs[i]);
      i := i + 1;
    }
    assert bs[..i] == bs;
  }

  lemma {:induction false} InRangeBelow(t: Table, lo: Key, hi: Key)
    requires forall i :: 0 <= i < |t| ==> t[i].key < lo
    ensures InRange(t, lo, hi) == []
  {
    if t != [] { InRangeBelow(t[..|t| - 1], lo, hi); }
  }

  lemma {:induction false} InRangeAbove(t: Table, m: nat, lo: Key, hi: Key)
    requires m <= |t| && forall i :: m <= i < |t| ==> t[i].key > hi
    ensures InRange(t, lo, hi) == InRange(t[..m], lo, hi)
  {
    if m < |t| {
      InRangeAbove(t[..|t| - 1], m, lo, hi);
      assert t[..|t| - 1][..m] == t[..m];
    } else {
      assert t[..m] == t;
    }
  }

  lemma InRangeNext(t: Table, m: nat, lo: Key, hi: Key)
    requires m < |t|
    ensures InRange(t[..m + 1], lo, hi) == InRange(t[..m], lo, hi) + if lo <= t[m].key <= hi then [t[m]] else []
  {
    assert t[..m + 1][..m] == t[..m];
  }

  /** InRange keeps exactly the entries between the bounds, in order. */
  lemma {:induction false} InRangeIs(t: Table, lo: Key, hi: Key)
    requires Ascending(t)
    ensures Ascending(InRange(t, lo, hi))
    ensures forall e :: e in InRange(t, lo, hi) <==> e in t && lo <= e.key <= hi
  {
    if t != [] {
      var front, last := t[..|t| - 1], t[|t| - 1];
      assert t == front + [last];
      InRangeIs(front, lo, hi);
      forall i | 0 <= i < |InRange(front, lo, hi)| ensures InRange(front, lo, hi)[i].key < last.key {
        var e := InRange(front, lo, hi)[i];
        assert e in front;
      }
    }
  }

  method ScanRange(z: Lz4, h: Hash, t: SSTable, lo: Key, hi: Key, ghost bs: seq<seq<Entry>>) returns (visited: Table)
    requires Contains(z, h, t, bs)
    ensures visited == InRange(Flat(bs), lo, hi)
  {
    hide Contains, ReadBlock, Holds, InRange, Flat, Proper, Ascending;
    IndexFacts(z, h, t, bs);
    visited := [];
    if t.index == [] {
      NoBlocks(bs);
      return;
    }
    if lo > hi {
      NoRange(Flat(bs), lo, hi);
      return;
    }
    var i := FindBlockIndex(t.index, lo);
    if i < 0 { i := 0; }
    NothingBefore(bs, i, lo, hi);
    while i < |t.index|
      invariant 0 <= i <= |bs| == |t.index| && visited == InRange(Flat(bs[..i]), lo, hi)
    {
      if t.index[i].firstKey > hi {
        NothingAfter(bs, i, lo, hi);
        return;
      }
      BlockFacts(z, h, t, bs, i);
      var entries, done := ScanBlock(ReadBlock(z, t, i).value, lo, hi, bs[i]);
      visited := visited + entries;
      ScanStep(bs, i, lo, hi);
      i := i + 1;
      if done {
        NothingAfter(bs, i, lo, hi);
        return;
      }
    }
    assert bs[..i] == bs;
  }

  ghost predicate Reaches(b: seq<Entry>, hi: Key) {
    exists j :: 0 <= j < |b| && b[j].key > hi
  }

  /** One block of a scan; done once a key lies beyond the range. */
  method ScanBlock(b: Block, lo: Key, hi: Key, ghost es: seq<Entry>) returns (visited: Table, done: bool)
    requires Holds(b, es) && Ascending(es)
    ensures visited == InRange(es, lo, hi)
    ensures done <==> Reaches(es, hi)
  {
    visited, done := [], false;
    var n := 0;
    while n < b.count
      invariant 0 <= n <= |es| && visited == InRange(es[..n], lo, hi)
      invariant forall i :: 0 <= i < n ==> es[i].key <= hi
    {
      var e := EntryAt(b, n);
      assert e == es[n];
      if e.key > hi {
        InRangeAbove(es, n, lo, hi);
        return visited, true;
      }
      InRangeNext(es, n, lo, hi);
      if e.key >= lo { visited := visited + [e]; }
      n := n + 1;
    }
    assert es[..n] == es;
  }

  lemma BlockFacts(z: Lz4, h: Hash, t: SSTable, bs: seq<seq<Entry>>, i: nat)
    requires Contains(z, h, t, bs) && i < |bs|
    ensures i < |t.index| && bs[i] != [] && t.index[i].firstKey == bs[i][0].key
    ensures ReadBlock(z, t, i).Ok? && Holds(ReadBlock(z, t, i).value, bs[i]) && Ascending(bs[i]) && Ascending(Flat(bs))
    ensures Start(bs, i) + |bs[i]| <= |Flat(bs)| && Flat(bs)[Start(bs, i)..Start(bs, i) + |bs[i]|] == bs[i]
  {
    assert Stands(z, t, i, bs[i]);
    BlockAt(bs, i);
    BlockAscends(bs, i);
  }

  lemma IndexFacts(z: Lz4, h: Hash, t: SSTable, bs: seq<seq<Entry>>)
    requires Contains(z, h, t, bs)
    ensures |t.index| == |bs| && Proper(bs)
    ensures forall i :: 0 <= i < |bs| ==> bs[i] != [] && t.index[i].firstKey == bs[i][0].key
    ensures forall i, j :: 0 <= i < j < |t.index| ==> t.index[i].firstKey < t.index[j].firstKey
  {
    assert forall i :: 0 <= i < |bs| ==> Stands(z, t, i, bs[i]);
    forall i, j | 0 <= i < j < |t.index| ensures t.index[i].firstKey < t.index[j].firstKey {
      FirstKeysAscend(bs, i, j);
    }
  }

  lemma NoBlocks(bs: seq<seq<Entry>>)
    ensures bs == [] ==> forall lo, hi :: InRange(Flat(bs), lo, hi) == []
  {
  }

  lemma ScanStep(bs: seq<seq<Entry>>, i: nat, lo: Key, hi: Key)
    requires i < |bs|
    ensures InRange(Flat(bs[..i + 1]), lo, hi) == InRange(Flat(bs[..i]), lo, hi) + InRange(bs[i], lo, hi)
  {
    assert bs[..i + 1] == bs[..i] + [bs[i]];
    FlatNext(bs[..i], bs[i]);
    InRangeConcat(Flat(bs[..i]), bs[i], lo, hi);
  }

  lemma {:induction false} FlatPrefix(bs: seq<seq<Entry>>, i: nat)
    requires i <= |bs|
    ensures Start(bs, i) <= |Flat(bs)| && Flat(bs)[..Start(bs, i)] == Flat(bs[..i])
  {
    if i < |bs| {
      FlatPrefix(bs[..|bs| - 1], i);
      assert bs[..|bs| - 1][..i] == bs[..i];
    } else {
      assert bs[..i] == bs;
    }
  }

  /** Once a block begins, or the block before holds a key, beyond the range, no more follows. */
  lemma NothingAfter(bs: seq<seq<Entry>>, i: nat, lo: Key, hi: Key)
    requires Proper(bs) && i <= |bs|
    requires (i < |bs| && bs[i][0].key > hi) || (i > 0 && Reaches(bs[i - 1], hi))
    ensures InRange(Flat(bs), lo, hi) == InRange(Flat(bs[..i]), lo, hi)
  {
    hide Flat, InRange;
    var t := Flat(bs);
    FlatPrefix(bs, i);
    if i < |bs| && bs[i][0].key > hi {
      BlockAt(bs, i);
      assert t[Start(bs, i)] == bs[i][0];
    } else {
      var b := bs[i - 1];
      var j :| 0 <= j < |b| && b[j].key > hi;
      BlockAt(bs, i - 1);
      StartNext(bs, i - 1);
      assert t[Start(bs, i - 1) + j] == bs[i - 1][j];
    }
    InRangeAbove(t, Start(bs, i), lo, hi);
  }

  lemma NothingBefore(bs: seq<seq<Entry>>, i: nat, lo: Key, hi: Key)
    requires Proper(bs) && i < |bs| && (i > 0 ==> bs[i][0].key <= lo)
    ensures InRange(Flat(bs[..i]), lo, hi) == []
  {
    hide Flat, InRange;
    var t := Flat(bs);
    FlatPrefix(bs, i);
    BlockAt(bs, i);
    assert t[Start(bs, i)] == bs[i][0];
    if i == 0 { NoStart(bs); }
    assert forall n :: 0 <= n < Start(bs, i) ==> t[..Start(bs, i)][n] == t[n];
    InRangeBelow(Flat(bs[..i]), lo, hi);
  }

  lemma {:induction false} InRangeConcat(a: Table, b: Table, lo: Key, hi: Key)
    ensures InRange(a + b, lo, hi) == InRange(a, lo, hi) + InRange(b, lo, hi)
    decreases |b|
  {
    if b == [] {
      assert a + b == a;
    } else {
      assert (a + b)[..|a + b| - 1] == a + b[..|b| - 1];
      InRangeConcat(a, b[..|b| - 1], lo, hi);
    }
  }

  lemma {:induction false} NoRange(t: Table, lo: Key, hi: Key)
    requires lo > hi
    ensures InRange(t, lo, hi) == []
  {
    if t != [] { NoRange(t[..|t| - 1], lo, hi); }
  }

  // ---- The cursor ----

  class SSTableCursor {
    const z: Lz4
    const t: SSTable
    var blockIdx: nat
    var entryIdx: nat
    var block: Option<Block>
    var valid: bool
    var current: Entry

    /** The cursor stands at this position of the entry list. */
    ghost predicate At(h: Hash, bs: seq<seq<Entry>>, pos: nat)
      reads this
    {
      && Contains(z, h, t, bs) && pos <= |Flat(bs)| && (valid <==> pos < |Flat(bs)|)
      && (valid ==> blockIdx < |bs| && entryIdx < |bs[blockIdx]| && pos == Start(bs, blockIdx) + entryIdx &&
                    current == Flat(bs)[pos] && block == Some(ReadBlock(z, t, blockIdx).value))
    }

    constructor (z: Lz4, t: SSTable, ghost h: Hash, ghost bs: seq<seq<Entry>>)
      requires Contains(z, h, t, bs)
      ensures this.z == z && this.t == t && At(h, bs, 0)
    {
      this.z, this.t := z, t;
      blockIdx, entryIdx, block, valid, current := 0, 0, None, false, Entry(0, []);
      new;
      assert Start(bs, 0) == 0;
      LoadCurrentEntry(h, bs);
    }

    method LoadCurrentEntry(ghost h: Hash, ghost bs: seq<seq<Entry>>)
      requires Contains(z, h, t, bs) && blockIdx <= |bs| && entryIdx == 0
      modifies this
      ensures At(h, bs, Start(bs, old(blockIdx)))
    {
      if blockIdx >= |t.index| {
        assert bs[..blockIdx] == bs;
        valid := false;
        return;
      }
      assert Stands(z, t, blockIdx, bs[blockIdx]);
      BlockAt(bs, blockIdx);
      assert Flat(bs)[Start(bs, blockIdx)] == bs[blockIdx][0];
      var b := ReadBlock(z, t, blockIdx).value;
      block := Some(b);
      valid := entryIdx < b.count;
      if valid {
        assert EntryAt(b, entryIdx) == bs[blockIdx][entryIdx];
        current := EntryAt(b, entryIdx);
      }
    }

    method Next(ghost h: Hash, ghost bs: seq<seq<Entry>>, ghost pos: nat)
      requires At(h, bs, pos)
      modifies this
      ensures At(h, bs, if pos < |Flat(bs)| then pos + 1 else pos)
    {
      hide ReadBlock, MayHold, Ascending, Flat;
      if !valid { return; }
      assert Stands(z, t, blockIdx, bs[blockIdx]);
      BlockAt(bs, blockIdx);
      StartNext(bs, blockIdx);
      entryIdx := entryIdx + 1;
      if entryIdx < block.value.count {
        assert EntryAt(block.value, entryIdx) == bs[blockIdx][entryIdx] == Flat(bs)[pos + 1];
        current := EntryAt(block.value, entryIdx);
        return;
      }
      blockIdx, entryIdx, block := blockIdx + 1, 0, None;
      LoadCurrentEntry(h, bs);
    }
  }

  /** Draining a cursor yields the whole entry list. */
  method Drain(z: Lz4, t: SSTable, ghost h: Hash, ghost bs: seq<seq<Entry>>) returns (entries: Table)
    requires Contains(z, h, t, bs)
    ensures entries == Flat(bs)
  {
    hide Contains, ReadBlock, Flat;
    var c := new SSTableCursor(z, t, h, bs);
    entries := [];
    while c.valid
      invariant c.t == t && c.At(h, bs, |entries|) && entries == Flat(bs)[..|entries|]
      decreases |Flat(bs)| - |entries|
    {
      entries := entries + [c.current];
      c.Next(h, bs, |entries| - 1);
    }
  }

  // ---- The writer ----

  /** Keys, in order. */
  function Keys(t: Table): set<Key> {
    set e | e in t :: e.key
  }

  /** A block is cut as soon as its layout reaches the target. */
  ghost predicate Full(b: seq<Entry>) {
    b != [] && |Raw(b)| >= 4096 && |Raw(b[..|b| - 1])| < 4096
  }

  ghost predicate Compressible(bs: seq<seq<Entry>>) {
    forall i :: 0 <= i < |bs| ==> bs[i] != [] && |Raw(bs[i])| <= LZ4_MAX_INPUT
  }

  ghost predicate AllFull(bs: seq<seq<Entry>>) {
    forall i :: 0 <= i < |bs| ==> Full(bs[i])
  }

  /** Only the last block may be short. */
  ghost predicate AllButLastFull(bs: seq<seq<Entry>>) {
    bs != [] ==> AllFull(bs[..|bs| - 1]) && (Full(bs[|bs| - 1]) || |Raw(bs[|bs| - 1])| < 4096)
  }

  lemma OneMore(bs: seq<seq<Entry>>, more: seq<seq<Entry>>)
    requires more == bs || (|more| == |bs| + 1 && more[..|bs|] == bs)
    ensures AllFull(bs) && (more == bs || |Raw(more[|bs|])| < BLOCK_TARGET) ==> AllButLastFull(more)
  {
  }

  class SSTableWriter {
    const z: Lz4
    const builder: BlockBuilder
    const bloom: BloomFilter
    ghost const expected: nat
    var file: Bytes
    var index: seq<IndexEntry>
    var entryCount: nat
    var lastKey: Key
    var finished: bool
    ghost var blocks: seq<seq<Entry>>

    ghost function All(): Table
      reads this, builder
    {
      Flat(blocks) + builder.entries
    }

    ghost predicate Valid()
      reads this, builder, bloom, bloom.bits
    {
      && builder.Valid() && builder.targetSize == BLOCK_TARGET
      && bloom.numHashes == 7 && 8 * bloom.bits.Length == NumBits(expected, BLOOM_BITS_PER_KEY)
      && bloom.bits.Length > 0 && Marks(bloom.hash, bloom.bits[..], bloom.numHashes, Keys(All()))
      && Ascending(All()) && entryCount == |All()| && (All() != [] ==> lastKey == All()[|All()| - 1].key)
      && (!finished ==> file == DataBytes(z, blocks)) && index == IndexOf(z, blocks)
      && Compressible(blocks)
    }

    /** Every block was cut when it reached the target, and the open one has not. */
    ghost predicate WellCut()
      reads this, builder
    {
      AllFull(blocks) && |Raw(builder.entries)| < BLOCK_TARGET
    }

    constructor (z: Lz4, hash: Hash, expected: nat)
      ensures Valid() && WellCut() && !finished && All() == [] && this.z == z && bloom.hash == hash &&
              this.expected == expected
      ensures fresh(builder) && fresh(bloom) && fresh(bloom.bits)
    {
      this.z, this.expected := z, expected;
      builder := new BlockBuilder(BLOCK_TARGET);
      bloom := new BloomFilter(hash, expected, BLOOM_BITS_PER_KEY);
      file, index, entryCount, lastKey, finished, blocks := [], [], 0, 0, false, [];
      new;
      assert Keys([]) == {};
      assert |Raw([])| == 4;
    }

    /** add.  An error leaves the table as it was, except that an entry too large to
        compress stays in the open block. */
    method Add(key: Key, value: Bytes) returns (r: Result<(), FileError>)
      requires Valid()
      modifies this, builder, bloom.bits
      ensures Valid() && finished == old(finished)
      ensures r == Err(Finished) <==> old(finished)
      ensures r == Err(OutOfOrder) <==> !old(finished) && old(All()) != [] && key <= old(All())[|old(All())| - 1].key
      ensures r.Ok? || r == Err(Finished) || r == Err(OutOfOrder) || r == Err(BadBlock(TooLarge))
      ensures All() ==
              if r == Err(Finished) || r == Err(OutOfOrder) then old(All()) else old(All()) + [Entry(key, value)]
      ensures r == Err(BadBlock(TooLarge)) ==> |Raw(old(builder.entries) + [Entry(key, value)])| > LZ4_MAX_INPUT
      ensures old(WellCut()) && r.Ok? ==> WellCut()
    {
      hide Marks, Raw, DataBytes, IndexOf, Flat, Keys, Ascending;
      if finished { return Err(Finished); }
      if entryCount > 0 && key <= lastKey { return Err(OutOfOrder); }
      Insert(key, value);
      assert builder.entries[..|builder.entries| - 1] == old(builder.entries);
      EmptyLayout();
      if builder.IsFull() {
        r := FlushDataBlock();
      } else {
        r := Ok(());
      }
    }

    method Insert(key: Key, value: Bytes)
      requires Valid() && !finished && (All() != [] ==> All()[|All()| - 1].key < key)
      modifies `entryCount, `lastKey, builder, bloom.bits
      ensures Valid() && All() == old(All()) + [Entry(key, value)] &&
              builder.entries == old(builder.entries) + [Entry(key, value)]
    {
      hide Marks, Raw, DataBytes, IndexOf, Flat, Keys, Ascending;
      ghost var all := All();
      AscendingGrows(all, Entry(key, value));
      KeysNext(all, Entry(key, value));
      ConcatAssociates(Flat(blocks), builder.entries, [Entry(key, value)]);
      bloom.Add(key, Keys(all));
      builder.Add(key, value);
      entryCount, lastKey := entryCount + 1, key;
    }

    method FlushDataBlock() returns (r: Result<(), FileError>)
      requires Valid() && !finished && builder.entries != []
      modifies `file, `index, `blocks, builder
      ensures Valid() && All() == old(All())
      ensures r == if |Raw(old(builder.entries))| > LZ4_MAX_INPUT then Err(BadBlock(TooLarge)) else Ok(())
      ensures r.Ok? ==> blocks == old(blocks) + [old(builder.entries)] && builder.entries == []
      ensures r.Err? ==> blocks == old(blocks) && builder.entries == old(builder.entries)
    {
      hide Marks, Raw, DataBytes, IndexOf, Flat, Keys, Ascending, BlockBytes;
      ghost var es := builder.entries;
      var offset, firstKey := |file|, builder.firstKey;
      var compressed := builder.Finish(z);
      if compressed.Err? { return Err(BadBlock(compressed.error)); }
      index := index + [IndexEntry(firstKey, offset, |compressed.value| % 0x1_0000_0000)];
      file := file + compressed.value;
      FlatNext(blocks, es);
      DataNext(z, blocks, es);
      IndexNext(z, blocks, es);
      blocks := blocks + [es];
      assert Flat(blocks) + [] == Flat(blocks);
      r := Ok(());
    }

    /** finish: the last block, the index, the filter and the footer. */
    method Finish() returns (r: Result<(), FileError>)
      requires Valid()
      modifies this, builder
      ensures Valid() && finished && All() == old(All())
      ensures r == Err(Finished) <==> old(finished)
      ensures r.Ok? || r == Err(Finished) ||
              (r == Err(BadBlock(TooLarge)) && |Raw(old(builder.entries))| > LZ4_MAX_INPUT)
      ensures r.Ok? ==> Flat(blocks) == old(All()) && file == FileBytes(z, blocks, bloom.Serialize())
      ensures old(WellCut()) && r.Ok? ==> AllButLastFull(blocks)
    {
      hide Marks, Raw, DataBytes, IndexOf, Flat, Keys, Ascending, FooterBytes, AllIndexBytes, AllFull, AllButLastFull,
           Compressible, BlockBytes;
      if finished { return Err(Finished); }
      if builder.entries != [] {
        r := FlushDataBlock();
        if r.Err? {
          finished := true;
          return;
        }
      }
      OneMore(old(blocks), blocks);
      assert Flat(blocks) + [] == Flat(blocks);
      finished := true;
      var indexOffset := |file|;
      var indexData := AllIndexBytes(index);
      file := file + indexData;
      var bloomOffset := |file|;
      var bloomData := bloom.Serialize();
      file := file + bloomData;
      file := file + FooterBytes(indexOffset, |indexData|, bloomOffset, |bloomData|, entryCount);
      r := Ok(());
    }
  }

  lemma EmptyLayout()
    ensures |Raw([])| == 4
  {
  }

  lemma AscendingGrows(t: Table, e: Entry)
    ensures Ascending(t) && (t != [] ==> t[|t| - 1].key < e.key) ==> Ascending(t + [e])
  {
  }

  lemma KeysNext(t: Table, e: Entry)
    ensures Keys(t + [e]) == Keys(t) + {e.key}
  {
    assert forall x :: x in t + [e] <==> x in t || x == e;
  }

  lemma DataNext(z: Lz4, bs: seq<seq<Entry>>, b: seq<Entry>)
    ensures DataBytes(z, bs + [b]) == DataBytes(z, bs) + BlockBytes(z, b)
  {
    assert (bs + [b])[..|bs|] == bs;
  }

  lemma IndexNext(z: Lz4, bs: seq<seq<Entry>>, b: seq<Entry>)
    requires b != []
    ensures IndexOf(z, bs + [b]) ==
            IndexOf(z, bs) + [IndexEntry(b[0].key, |DataBytes(z, bs)|, |BlockBytes(z, b)| % 0x1_0000_0000)]
  {
    assert (bs + [b])[..|bs|] == bs;
    forall i | 0 <= i < |bs| ensures (bs + [b])[..i] == bs[..i] { }
  }

  // ---- Reading back what was written ----

  /** Keys are 64-bit, and so is the length of a file. */
  ghost predicate Typed(z: Lz4, bs: seq<seq<Entry>>, filter: Bytes) {
    && Fits(|FileBytes(z, bs, filter)|, 8)
    && (forall i, j :: 0 <= i < |bs| && 0 <= j < |bs[i]| ==> Fits(bs[i][j].key, 8))
  }

  /** The casts inside the blocks lose nothing. */
  ghost predicate SizesFit(z: Lz4, bs: seq<seq<Entry>>, filter: Bytes) {
    && Fits(|FileBytes(z, bs, filter)|, 8)
    && (forall i :: 0 <= i < |bs| ==> Fits(|BlockBytes(z, bs[i])|, 4) && AllFit(bs[i]))
  }

  /** The index and the filter are not too long for the 32 bits the footer keeps of their sizes. */
  predicate CountsFit(bs: seq<seq<Entry>>, filter: Bytes) {
    Fits(INDEX_SIZE * |bs|, 4) && Fits(|filter|, 4)
  }

  lemma TypedFits(z: Lz4, bs: seq<seq<Entry>>, filter: Bytes)
    requires Invertible(z) && Typed(z, bs, filter) && Compressible(bs)
    ensures SizesFit(z, bs, filter)
  {
    forall i | 0 <= i < |bs| ensures Fits(|BlockBytes(z, bs[i])|, 4) && AllFit(bs[i]) {
      BlockTyped(z, bs[i]);
    }
  }

  lemma BlockTyped(z: Lz4, b: seq<Entry>)
    requires Invertible(z) && |Raw(b)| <= LZ4_MAX_INPUT && forall j :: 0 <= j < |b| ==> Fits(b[j].key, 8)
    ensures Fits(|BlockBytes(z, b)|, 4) && AllFit(b)
  {
    CompressibleFits(b);
    BlockIsShort(z, b);
    hide BlockBytes, Raw, Pow256;
    Widths();
  }

  lemma {:induction false} ReadIndexBack(xs: seq<IndexEntry>, rest: Bytes)
    requires forall i :: 0 <= i < |xs| ==> Fits(xs[i].firstKey, 8) && Fits(xs[i].offset, 8) && Fits(xs[i].size, 4)
    ensures ReadIndex(AllIndexBytes(xs) + rest, |xs|) == xs
  {
    hide Le, FromLe, Fits;
    if xs != [] {
      var x, b := xs[0], AllIndexBytes(xs) + rest;
      LeRoundTrip(x.firstKey, 8);
      LeRoundTrip(x.offset, 8);
      LeRoundTrip(x.size, 4);
      assert b[..8] == Le(x.firstKey, 8) && b[8..16] == Le(x.offset, 8) && b[16..20] == Le(x.size, 4);
      assert b[20..] == AllIndexBytes(xs[1..]) + rest;
      ReadIndexBack(xs[1..], rest);
      assert xs == [x] + xs[1..];
    }
  }

  /** Where each field of the i-th index entry stands. */
  lemma {:induction false} IndexLayout(xs: seq<IndexEntry>, i: nat)
    requires i < |xs| && Fits(xs[i].firstKey, 8) && Fits(xs[i].offset, 8) && Fits(xs[i].size, 4)
    ensures var b := AllIndexBytes(xs);
            && FromLe(b[20 * i..20 * i + 8]) == xs[i].firstKey && FromLe(b[20 * i + 8..20 * i + 16]) == xs[i].offset
            && FromLe(b[20 * i + 16..20 * i + 20]) == xs[i].size
  {
    hide Le, FromLe, Fits;
    var x, b := xs[i], AllIndexBytes(xs);
    if i == 0 {
      LeRoundTrip(x.firstKey, 8);
      LeRoundTrip(x.offset, 8);
      LeRoundTrip(x.size, 4);
      assert b[0..8] == Le(x.firstKey, 8) && b[8..16] == Le(x.offset, 8) && b[16..20] == Le(x.size, 4);
    } else {
      var c := AllIndexBytes(xs[1..]);
      IndexLayout(xs[1..], i - 1);
      assert b[20..] == c;
      Behind(b, 20 * (i - 1), 20 * (i - 1) + 8);
      Behind(b, 20 * (i - 1) + 8, 20 * (i - 1) + 16);
      Behind(b, 20 * (i - 1) + 16, 20 * (i - 1) + 20);
    }
  }

  /** A file opens only with its magic and version, and with index and filter inside it; what is
      opened is what stands there. */
  lemma OpenedIsChecked(file: Bytes)
    requires OpenTable(file).Ok?
    ensures |file| >= 40
    ensures var n, f, t := |file| - 40, file[|file| - 40..], OpenTable(file).value;
            var index, indexSize, filter, filterSize :=
              FromLe(f[..8]), FromLe(f[8..12]), FromLe(f[12..20]), FromLe(f[20..24]);
            && FromLe(f[32..40]) == 0x436C_6177_4D69_6E64 && FromLe(f[28..30]) == 1
            && index + indexSize <= n && filter + filterSize <= n && filterSize >= 4
            && t.file == file && |t.index| == indexSize / 20
            && t.numHashes == FromLe(file[filter..filter + 4]) && t.bits == file[filter + 4..filter + filterSize]
            && (forall i :: 0 <= i < |t.index| ==>
                  var x := index + 20 * i;
                  t.index[i] ==
                  IndexEntry(FromLe(file[x..x + 8]), FromLe(file[x + 8..x + 16]), FromLe(file[x + 16..x + 20])))
  {
    hide FromLe;
    var f := file[|file| - 40..];
    var index, indexSize, filter, filterSize := FromLe(f[..8]), FromLe(f[8..12]), FromLe(f[12..20]), FromLe(f[20..24]);
    var b, g := file[index..], file[filter..filter + filterSize];
    assert g[..4] == file[filter..filter + 4] && g[4..] == file[filter + 4..filter + filterSize];
    forall i | 0 <= i < indexSize / 20
      ensures var x := index + 20 * i;
              ReadIndex(b, indexSize / 20)[i] ==
              IndexEntry(FromLe(file[x..x + 8]), FromLe(file[x + 8..x + 16]), FromLe(file[x + 16..x + 20]))
    {
      ReadIndexAt(b, indexSize / 20, i);
      var x := index + 20 * i;
      assert b[20 * i..20 * i + 8] == file[x..x + 8] && b[20 * i + 8..20 * i + 16] == file[x + 8..x + 16];
      assert b[20 * i + 16..20 * i + 20] == file[x + 16..x + 20];
    }
  }

  lemma {:induction false} ReadIndexAt(b: Bytes, n: nat, i: nat)
    requires 20 * n <= |b| && i < n
    ensures ReadIndex(b, n)[i] ==
            IndexEntry(FromLe(b[20 * i..20 * i + 8]), FromLe(b[20 * i + 8..20 * i + 16]),
                       FromLe(b[20 * i + 16..20 * i + 20]))
    decreases n
  {
    hide FromLe;
    if i == 0 {
      assert b[0..8] == b[..8];
    } else {
      var c := b[20..];
      ReadIndexAt(c, n - 1, i - 1);
      Behind(b, 20 * (i - 1), 20 * (i - 1) + 8);
      Behind(b, 20 * (i - 1) + 8, 20 * (i - 1) + 16);
      Behind(b, 20 * (i - 1) + 16, 20 * (i - 1) + 20);
    }
  }

  lemma Behind(b: Bytes, i: nat, j: nat)
    requires i <= j && 20 + j <= |b|
    ensures b[20..][i..j] == b[20 + i..20 + j]
  {
  }

  lemma FooterBack(indexOffset: nat, indexSize: nat, bloomOffset: nat, bloomSize: nat, count: nat)
    requires Fits(indexOffset, 8) && Fits(bloomOffset, 8)
    ensures var f := FooterBytes(indexOffset, indexSize, bloomOffset, bloomSize, count);
            FromLe(f[..8]) == indexOffset && FromLe(f[8..12]) == indexSize % 0x1_0000_0000 &&
            FromLe(f[12..20]) == bloomOffset &&
            FromLe(f[20..24]) == bloomSize % 0x1_0000_0000 && FromLe(f[28..30]) == 1 &&
            FromLe(f[32..40]) == 0x436C_6177_4D69_6E64 && FromLe(f[24..28]) == count % 0x1_0000_0000
  {
    Widths();
    hide Le, FromLe, Pow256;
    var f := FooterBytes(indexOffset, indexSize, bloomOffset, bloomSize, count);
    LeRoundTrip(indexOffset, 8);
    LeRoundTrip(indexSize % 0x1_0000_0000, 4);
    LeRoundTrip(bloomOffset, 8);
    LeRoundTrip(bloomSize % 0x1_0000_0000, 4);
    LeRoundTrip(VERSION, 2);
    LeRoundTrip(MAGIC, 8);
    LeRoundTrip(count % 0x1_0000_0000, 4);
    assert f[24..28] == Le(count % 0x1_0000_0000, 4);
    assert f[..8] == Le(indexOffset, 8) && f[8..12] == Le(indexSize % 0x1_0000_0000, 4) &&
           f[12..20] == Le(bloomOffset, 8);
    assert f[20..24] == Le(bloomSize % 0x1_0000_0000, 4) && f[28..30] == Le(VERSION, 2) && f[32..40] == Le(MAGIC, 8);
  }

  lemma {:induction false} DataAt(z: Lz4, bs: seq<seq<Entry>>, i: nat)
    requires i < |bs|
    ensures var off, n := |DataBytes(z, bs[..i])|, |BlockBytes(z, bs[i])|;
            off + n <= |DataBytes(z, bs)| && DataBytes(z, bs)[off..off + n] == BlockBytes(z, bs[i])
  {
    hide BlockBytes;
    var front := bs[..|bs| - 1];
    if i < |bs| - 1 {
      DataAt(z, front, i);
      assert front[..i] == bs[..i];
    }
  }

  /** The parts of a written file, read off by position. */
  lemma FileParts(data: Bytes, index: Bytes, filter: Bytes, footer: Bytes)
    requires |footer| == FOOTER_SIZE
    ensures var file := data + index + filter + footer;
            && file[|file| - FOOTER_SIZE..] == footer && file[|data|..] == index + (filter + footer)
            && file[|data| + |index|..|data| + |index| + |filter|] == filter
            && |file[..|file| - FOOTER_SIZE]| == |data| + |index| + |filter|
  {
  }

  lemma IndexFits(z: Lz4, bs: seq<seq<Entry>>, filter: Bytes, i: nat)
    requires SizesFit(z, bs, filter) && i < |bs| && bs[i] != []
    ensures var x := IndexOf(z, bs)[i]; Fits(x.firstKey, 8) && Fits(x.offset, 8) && Fits(x.size, 4)
    ensures IndexOf(z, bs)[i] == IndexEntry(bs[i][0].key, |DataBytes(z, bs[..i])|, |BlockBytes(z, bs[i])|)
  {
    DataShorter(z, bs, filter);
    FirstFits(z, bs, filter, i);
    BlockFits(z, bs, filter, i);
    hide DataBytes, BlockBytes, FileBytes, SizesFit, Fits, Pow256;
    SizeFits(z, bs, filter);
    DataAt(z, bs, i);
    FitsLess(|FileBytes(z, bs, filter)|, |DataBytes(z, bs[..i])|, 8);
  }

  lemma BlockFits(z: Lz4, bs: seq<seq<Entry>>, filter: Bytes, i: nat)
    requires SizesFit(z, bs, filter) && i < |bs|
    ensures Fits(|BlockBytes(z, bs[i])|, 4) && |BlockBytes(z, bs[i])| % 0x1_0000_0000 == |BlockBytes(z, bs[i])|
  {
    hide BlockBytes, FileBytes;
    Widths();
  }

  lemma SizeFits(z: Lz4, bs: seq<seq<Entry>>, filter: Bytes)
    requires SizesFit(z, bs, filter)
    ensures Fits(|FileBytes(z, bs, filter)|, 8)
  {
  }

  lemma DataShorter(z: Lz4, bs: seq<seq<Entry>>, filter: Bytes)
    ensures |DataBytes(z, bs)| <= |FileBytes(z, bs, filter)|
  {
    hide DataBytes, AllIndexBytes, IndexOf, FooterBytes, Flat;
  }

  lemma FirstFits(z: Lz4, bs: seq<seq<Entry>>, filter: Bytes, i: nat)
    requires SizesFit(z, bs, filter) && i < |bs| && bs[i] != []
    ensures Fits(bs[i][0].key, 8)
  {
    assert AllFit(bs[i]);
  }

  /** A written file opens with the index and the filter it was written with exactly if
      the footer can hold their sizes. */
  lemma WrittenOpens(z: Lz4, bs: seq<seq<Entry>>, k: nat, bits: Bytes)
    requires Invertible(z) && Compressible(bs) && Typed(z, bs, Le(k, 4) + bits) && k < 0x1_0000_0000
    ensures OpenTable(FileBytes(z, bs, Le(k, 4) + bits)) ==
            Ok(SSTable(FileBytes(z, bs, Le(k, 4) + bits), IndexOf(z, bs), k, bits)) <==>
            CountsFit(bs, Le(k, 4) + bits)
  {
    hide Raw, FileBytes, BlockBytes, AllFit;
    TypedFits(z, bs, Le(k, 4) + bits);
    OpenedSizes(z, bs, k, bits);
    if CountsFit(bs, Le(k, 4) + bits) {
      OpensWhole(z, bs, k, bits);
    } else {
      Widths();
      IndexLength(z, bs);
    }
  }

  /** What the reader takes the sizes of index and filter to be. */
  lemma OpenedSizes(z: Lz4, bs: seq<seq<Entry>>, k: nat, bits: Bytes)
    requires SizesFit(z, bs, Le(k, 4) + bits)
    ensures var t := OpenTable(FileBytes(z, bs, Le(k, 4) + bits)); t.Ok? ==>
              |t.value.index| == INDEX_SIZE * |bs| % 0x1_0000_0000 / INDEX_SIZE &&
              |t.value.bits| + 4 == (4 + |bits|) % 0x1_0000_0000
  {
    hide DataBytes, BlockBytes, IndexOf, FooterBytes, Le, FromLe, Flat, Pow256;
    var filter := Le(k, 4) + bits;
    var data, xs := DataBytes(z, bs), IndexOf(z, bs);
    var index := AllIndexBytes(xs);
    var footer := FooterBytes(|data|, |index|, |data| + |index|, |filter|, |Flat(bs)|);
    var file := FileBytes(z, bs, filter);
    IndexLength(z, bs);
    FileParts(data, index, filter, footer);
    FitsLess(|file|, |data|, 8);
    FitsLess(|file|, |data| + |index|, 8);
    FooterBack(|data|, |index|, |data| + |index|, |filter|, |Flat(bs)|);
  }

  lemma FileIs(z: Lz4, bs: seq<seq<Entry>>, filter: Bytes)
    ensures var data, index := DataBytes(z, bs), AllIndexBytes(IndexOf(z, bs));
            FileBytes(z, bs, filter) ==
            data + index + filter + FooterBytes(|data|, |index|, |data| + |index|, |filter|, |Flat(bs)|)
  {
    hide DataBytes, AllIndexBytes, IndexOf, FooterBytes, Flat;
  }

  lemma OpensWhole(z: Lz4, bs: seq<seq<Entry>>, k: nat, bits: Bytes)
    requires SizesFit(z, bs, Le(k, 4) + bits) && CountsFit(bs, Le(k, 4) + bits) && k < 0x1_0000_0000
    requires forall i :: 0 <= i < |bs| ==> bs[i] != []
    ensures OpenTable(FileBytes(z, bs, Le(k, 4) + bits)) ==
            Ok(SSTable(FileBytes(z, bs, Le(k, 4) + bits), IndexOf(z, bs), k, bits))
  {
    Widths();
    hide DataBytes, BlockBytes, IndexOf, FooterBytes, Le, FromLe, ReadIndex, Flat, Pow256;
    hide FileBytes, SizesFit;
    SizeFits(z, bs, Le(k, 4) + bits);
    var filter := Le(k, 4) + bits;
    var data, xs := DataBytes(z, bs), IndexOf(z, bs);
    var index := AllIndexBytes(xs);
    var footer := FooterBytes(|data|, |index|, |data| + |index|, |filter|, |Flat(bs)|);
    var file := FileBytes(z, bs, filter);
    assert file == data + index + filter + footer by { FileIs(z, bs, filter); }
    IndexLength(z, bs);
    FileParts(data, index, filter, footer);
    FitsLess(|file|, |data|, 8);
    FitsLess(|file|, |data| + |index|, 8);
    FooterBack(|data|, |index|, |data| + |index|, |filter|, |Flat(bs)|);
    forall i | 0 <= i < |xs| ensures Fits(xs[i].firstKey, 8) && Fits(xs[i].offset, 8) && Fits(xs[i].size, 4) {
      IndexFits(z, bs, filter, i);
    }
    ReadIndexBack(xs, filter + footer);
    SerializedBack(k, bits);
    assert |index| / INDEX_SIZE == |xs|;
  }

  lemma IndexLength(z: Lz4, bs: seq<seq<Entry>>)
    ensures |IndexOf(z, bs)| == |bs|
  {
  }

  lemma FitsLess(m: nat, n: nat, w: nat)
    requires Fits(m, w) && n <= m
    ensures Fits(n, w)
  {
  }

  lemma BlockSlice(z: Lz4, bs: seq<seq<Entry>>, filter: Bytes, i: nat)
    requires SizesFit(z, bs, filter) && i < |bs| && bs[i] != []
    ensures var file, x := FileBytes(z, bs, filter), IndexOf(z, bs)[i];
            x.offset + x.size <= |file| && file[x.offset..x.offset + x.size] == BlockBytes(z, bs[i]) &&
            x.firstKey == bs[i][0].key
  {
    hide DataBytes, BlockBytes, FileBytes, AllFit, Fits, SizesFit, IndexOf, Raw;
    IndexFits(z, bs, filter, i);
    DataAt(z, bs, i);
    var off := |DataBytes(z, bs[..i])|;
    DataIsPrefix(z, bs, filter, off, off + |BlockBytes(z, bs[i])|);
  }

  lemma DataIsPrefix(z: Lz4, bs: seq<seq<Entry>>, filter: Bytes, i: nat, j: nat)
    requires i <= j <= |DataBytes(z, bs)|
    ensures j <= |FileBytes(z, bs, filter)| && FileBytes(z, bs, filter)[i..j] == DataBytes(z, bs)[i..j]
  {
    hide DataBytes, Flat, FooterBytes, AllIndexBytes, IndexOf;
  }

  lemma BlocksFit(z: Lz4, bs: seq<seq<Entry>>, filter: Bytes, i: nat)
    requires SizesFit(z, bs, filter) && i < |bs|
    ensures AllFit(bs[i])
  {
  }

  /** A block of a written file can be read exactly if its layout is at most 64 MiB. */
  lemma WrittenBlockReads(z: Lz4, bs: seq<seq<Entry>>, k: nat, bits: Bytes, i: nat)
    requires Invertible(z) && Compressible(bs) && Typed(z, bs, Le(k, 4) + bits) && i < |bs|
    ensures var t := SSTable(FileBytes(z, bs, Le(k, 4) + bits), IndexOf(z, bs), k, bits);
            && (ReadBlock(z, t, i).Ok? <==> |Raw(bs[i])| <= MAX_BLOCK)
            && (|Raw(bs[i])| <= MAX_BLOCK ==> Holds(ReadBlock(z, t, i).value, bs[i]))
  {
    hide Raw, Holds, OpenBlock, AllFit, Le, FileBytes, SizesFit, BlockBytes, Invertible, Typed;
    TypedFits(z, bs, Le(k, 4) + bits);
    BlocksFit(z, bs, Le(k, 4) + bits, i);
    BlockSlice(z, bs, Le(k, 4) + bits, i);
    BlockRoundTripExactly(z, bs[i]);
  }

  /** A written file whose blocks can be read stands for exactly the entries added. */
  lemma WrittenContains(z: Lz4, h: Hash, bs: seq<seq<Entry>>, k: nat, bits: Bytes)
    requires Invertible(z) && Proper(bs) && Typed(z, bs, Le(k, 4) + bits) && CountsFit(bs, Le(k, 4) + bits) &&
             k < 0x1_0000_0000
    requires Marks(h, bits, k, Keys(Flat(bs)))
    requires forall i :: 0 <= i < |bs| ==> |Raw(bs[i])| <= MAX_BLOCK
    ensures OpenTable(FileBytes(z, bs, Le(k, 4) + bits)).Ok?
    ensures Contains(z, h, OpenTable(FileBytes(z, bs, Le(k, 4) + bits)).value, bs)
  {
    hide Raw, Typed, CountsFit, FileBytes, OpenTable, Contains, Marks, Le, IndexOf, Invertible;
    WrittenOpens(z, bs, k, bits);
    WrittenTable(z, h, bs, k, bits, SSTable(FileBytes(z, bs, Le(k, 4) + bits), IndexOf(z, bs), k, bits));
  }

  /** With a filter of ordinary size, it does so exactly if the footer holds the size of the
      index and no block is longer than the reader takes. */
  lemma WrittenContainsExactly(z: Lz4, h: Hash, bs: seq<seq<Entry>>, k: nat, bits: Bytes)
    requires Invertible(z) && Proper(bs) && Compressible(bs) && Typed(z, bs, Le(k, 4) + bits) && k < 0x1_0000_0000
    requires Marks(h, bits, k, Keys(Flat(bs))) && Fits(|Le(k, 4) + bits|, 4)
    ensures var r := OpenTable(FileBytes(z, bs, Le(k, 4) + bits));
            r.Ok? && Contains(z, h, r.value, bs) <==>
            Fits(INDEX_SIZE * |bs|, 4) && forall i :: 0 <= i < |bs| ==> |Raw(bs[i])| <= MAX_BLOCK
  {
    hide Raw, Typed, FileBytes, OpenTable, Marks, Le, IndexOf, Invertible, Flat, ReadBlock, Admits, Keys, Ascending,
         Fits, SizesFit, Pow256;
    var r := OpenTable(FileBytes(z, bs, Le(k, 4) + bits));
    WrittenOpens(z, bs, k, bits);
    if r.Ok? && Contains(z, h, r.value, bs) {
      TypedFits(z, bs, Le(k, 4) + bits);
      OpenedSizes(z, bs, k, bits);
      CountSurvives(|bs|);
      forall i | 0 <= i < |bs| ensures |Raw(bs[i])| <= MAX_BLOCK {
        assert Stands(z, r.value, i, bs[i]);
        WrittenBlockReads(z, bs, k, bits, i);
      }
    } else if CountsFit(bs, Le(k, 4) + bits) && forall i :: 0 <= i < |bs| ==> |Raw(bs[i])| <= MAX_BLOCK {
      WrittenContains(z, h, bs, k, bits);
    }
  }

  lemma CountSurvives(n: nat)
    ensures n == INDEX_SIZE * n % 0x1_0000_0000 / INDEX_SIZE <==> Fits(INDEX_SIZE * n, 4)
  {
    Widths();
  }

  lemma WrittenTable(z: Lz4, h: Hash, bs: seq<seq<Entry>>, k: nat, bits: Bytes, t: SSTable)
    requires Invertible(z) && Proper(bs) && Typed(z, bs, Le(k, 4) + bits)
    requires Marks(h, bits, k, Keys(Flat(bs)))
    requires forall i :: 0 <= i < |bs| ==> |Raw(bs[i])| <= MAX_BLOCK
    requires t == SSTable(FileBytes(z, bs, Le(k, 4) + bits), IndexOf(z, bs), k, bits)
    ensures Contains(z, h, t, bs)
  {
    AllMayHold(h, bits, k, Flat(bs));
    IndexLength(z, bs);
    ReadableIsCompressible(bs);
    hide Compressible;
    hide Raw, Stands, Typed, FileBytes, Admits, Marks, Le, IndexOf, Invertible, Flat, Ascending, Keys;
    forall i | 0 <= i < |bs| ensures Stands(z, t, i, bs[i]) { WrittenStands(z, bs, k, bits, t, i); }
  }

  lemma ReadableIsCompressible(bs: seq<seq<Entry>>)
    requires forall i :: 0 <= i < |bs| ==> bs[i] != [] && |Raw(bs[i])| <= MAX_BLOCK
    ensures Compressible(bs)
  {
  }

  lemma WrittenStands(z: Lz4, bs: seq<seq<Entry>>, k: nat, bits: Bytes, t: SSTable, i: nat)
    requires Invertible(z) && Compressible(bs) && Typed(z, bs, Le(k, 4) + bits)
    requires i < |bs| == |t.index| && |Raw(bs[i])| <= MAX_BLOCK
    requires t == SSTable(FileBytes(z, bs, Le(k, 4) + bits), IndexOf(z, bs), k, bits)
    ensures Stands(z, t, i, bs[i])
  {
    hide Raw, Holds, SizesFit, Typed, FileBytes, ReadBlock, Le, IndexOf, Invertible;
    TypedFits(z, bs, Le(k, 4) + bits);
    WrittenBlockReads(z, bs, k, bits, i);
    BlockSlice(z, bs, Le(k, 4) + bits, i);
  }

  lemma AllMayHold(h: Hash, bits: Bytes, k: nat, t: Table)
    requires Marks(h, bits, k, Keys(t))
    ensures |bits| > 0 && Admits(h, bits, k, t)
  {
    forall i | 0 <= i < |t| ensures MayHold(h, bits, k, t[i].key) {
      assert t[i] in t;
      AnswersExactly(h, bits, k, Keys(t), t[i].key);
    }
  }

  /** Values short enough that no block can outgrow what a reader accepts. */
  lemma SmallValuesAreReadable(b: seq<Entry>)
    requires Full(b) && |b[|b| - 1].value| <= MAX_BLOCK - BLOCK_TARGET - 12
    ensures |Raw(b)| <= MAX_BLOCK
  {
    hide AllBytes, Le;
    var front, last := b[..|b| - 1], b[|b| - 1];
    assert b == front + [last];
    RawLength(front);
    RawLength(b);
    AllBytesNext(front, last);
  }

  lemma RawLength(es: seq<Entry>)
    ensures |Raw(es)| == 4 + |AllBytes(es)|
  {
  }

  lemma NextIsLarger(es: Table, i: nat)
    requires Ascending(es) && i < |es|
    ensures i > 0 ==> es[..i][i - 1].key < es[i].key
  {
  }

  lemma WrittenIsProper(bs: seq<seq<Entry>>, es: Table)
    ensures Compressible(bs) && Flat(bs) == es && Ascending(es) ==> Proper(bs)
  {
  }

  lemma RawNext(es: seq<Entry>, e: Entry)
    ensures |Raw(es + [e])| == |Raw(es)| + 12 + |e.value|
  {
    hide AllBytes;
    RawLength(es);
    RawLength(es + [e]);
    AllBytesNext(es, e);
  }

  function After(done: Result<(), FileError>, file: Bytes): Result<Bytes, FileError> {
    match done
    case Ok(_) => Ok(file)
    case Err(e) => Err(e)
  }

  /** Short enough to fit any block beside what it held before it was full. */
  predicate ShortValues(es: Table) {
    forall i :: 0 <= i < |es| ==> |es[i].value| <= MAX_BLOCK - BLOCK_TARGET - 12
  }

  /** Write a sorted table to a file, entry by entry.  The order check never fires. */
  method WriteTable(z: Lz4, h: Hash, es: Table)
    returns (r: Result<Bytes, FileError>, ghost bs: seq<seq<Entry>>, ghost w: SSTableWriter)
    requires Ascending(es)
    ensures fresh(w) && w.bloom.hash == h && w.blocks == bs
    ensures r.Ok? ==> Flat(bs) == es && Proper(bs) && r.value == FileBytes(z, bs, w.bloom.Serialize())
    ensures r.Ok? ==> Marks(h, w.bloom.bits[..], w.bloom.numHashes, Keys(es))
    ensures r.Ok? ==> w.bloom.numHashes == 7 && 8 * w.bloom.bits.Length == NumBits(|es|, 10)
    ensures r.Ok? ==> AllButLastFull(bs) && Compressible(bs)
    ensures r.Err? ==> r == Err(BadBlock(TooLarge))
    ensures ShortValues(es) ==> r.Ok?
  {
    hide Raw, Marks, Flat, Keys, AllFull, AllButLastFull, Compressible, FileBytes, DataBytes, IndexOf, Ascending;
    var writer := new SSTableWriter(z, h, |es|);
    w := writer;
    var i := 0;
    while i < |es|
      invariant 0 <= i <= |es| && writer.Valid() && writer.WellCut() && !writer.finished && writer.All() == es[..i]
      invariant fresh(writer) && fresh(writer.builder) && fresh(writer.bloom) && fresh(writer.bloom.bits)
    {
      NextIsLarger(es, i);
      RawNext(writer.builder.entries, Entry(es[i].key, es[i].value));
      var added := writer.Add(es[i].key, es[i].value);
      if added.Err? { return Err(added.error), writer.blocks, writer; }
      assert es[..i + 1] == es[..i] + [es[i]];
      i := i + 1;
    }
    assert es[..i] == es;
    var finished := writer.Finish();
    bs := writer.blocks;
    WrittenIsProper(bs, es);
    r := After(finished, writer.file);
  }

  // ---- Sizes ----

  lemma {:induction false} FewerBlocks(bs: seq<seq<Entry>>)
    requires forall i :: 0 <= i < |bs| ==> bs[i] != []
    ensures |bs| <= |Flat(bs)|
  {
    if bs != [] { FewerBlocks(bs[..|bs| - 1]); }
  }

  lemma {:induction false} DataLength(z: Lz4, bs: seq<seq<Entry>>)
    requires Invertible(z) && forall i :: 0 <= i < |bs| ==> |Raw(bs[i])| <= MAX_BLOCK
    ensures |DataBytes(z, bs)| <= 0x500_0000 * |bs|
  {
    if bs != [] {
      hide BlockBytes, Raw;
      DataLength(z, bs[..|bs| - 1]);
      BlockIsShort(z, bs[|bs| - 1]);
    }
  }

  lemma EntriesInside(bs: seq<seq<Entry>>, i: nat, j: nat)
    requires i < |bs| && j < |bs[i]|
    ensures Start(bs, i) + j < |Flat(bs)| && Flat(bs)[Start(bs, i) + j] == bs[i][j]
  {
    BlockAt(bs, i);
  }

  lemma BlocksReadable(bs: seq<seq<Entry>>)
    requires AllButLastFull(bs) && ShortValues(Flat(bs)) && forall i :: 0 <= i < |bs| ==> bs[i] != []
    ensures forall i :: 0 <= i < |bs| ==> |Raw(bs[i])| <= MAX_BLOCK
  {
    forall i | 0 <= i < |bs| ensures |Raw(bs[i])| <= MAX_BLOCK { BlockReadable(bs, i); }
  }

  lemma BlockReadable(bs: seq<seq<Entry>>, i: nat)
    requires AllButLastFull(bs) && ShortValues(Flat(bs)) && i < |bs| && bs[i] != []
    ensures |Raw(bs[i])| <= MAX_BLOCK
  {
    hide Raw, Flat;
    EntriesInside(bs, i, |bs[i]| - 1);
    assert i < |bs| - 1 ==> bs[..|bs| - 1][i] == bs[i];
    assert Full(bs[i]) || |Raw(bs[i])| < BLOCK_TARGET;
    if Full(bs[i]) { SmallValuesAreReadable(bs[i]); }
  }

  /** What the format can hold: 64-bit keys, 200 million entries, values up to 64 MiB less a block. */
  predicate Holdable(es: Table) {
    |es| <= 200_000_000 && ShortValues(es) && forall i :: 0 <= i < |es| ==> Fits(es[i].key, 8)
  }

  lemma HoldableFits(z: Lz4, bs: seq<seq<Entry>>, filter: Bytes)
    requires Invertible(z) && Holdable(Flat(bs)) && |filter| <= 0x2000_0000
    requires forall i :: 0 <= i < |bs| ==> bs[i] != [] && |Raw(bs[i])| <= MAX_BLOCK
    ensures Typed(z, bs, filter) && CountsFit(bs, filter)
  {
    hide Raw, Flat, DataBytes, IndexOf, FooterBytes, Pow256;
    FewerBlocks(bs);
    DataLength(z, bs);
    IndexLength(z, bs);
    Widths();
    assert |FileBytes(z, bs, filter)| == |DataBytes(z, bs)| + INDEX_SIZE * |bs| + |filter| + FOOTER_SIZE;
    forall i, j | 0 <= i < |bs| && 0 <= j < |bs[i]| ensures Fits(bs[i][j].key, 8) { EntriesInside(bs, i, j); }
  }

  /** Whatever the table, what was written is what is read: by key, by range, and in full. */
  method WriteAndRead(z: Lz4, h: Hash, es: Table, key: Key, lo: Key, hi: Key)
    returns (got: Option<Bytes>, range: Table, all: Table)
    requires Invertible(z) && Ascending(es) && Holdable(es)
    ensures got == Lookup(es, key) && range == InRange(es, lo, hi) && all == es
  {
    hide Raw, Marks, Flat, Keys, AllFull, AllButLastFull, FileBytes, DataBytes, IndexOf, Ascending, OpenTable, Contains,
         Le, CountsFit, Typed, Invertible, Proper, InRange;
    var file, bs, w := WriteTable(z, h, es);
    ReadyToRead(z, h, bs, es, w.bloom.numHashes, w.bloom.bits[..]);
    var t := OpenTable(file.value).value;
    got := Get(z, h, t, key, bs);
    range := ScanRange(z, h, t, lo, hi, bs);
    all := Drain(z, t, h, bs);
  }

  lemma ReadyToRead(z: Lz4, h: Hash, bs: seq<seq<Entry>>, es: Table, k: nat, bits: Bytes)
    requires Invertible(z) && Holdable(es) && Flat(bs) == es && Proper(bs) && AllButLastFull(bs)
    requires Marks(h, bits, k, Keys(es)) && k <= 30 && 8 * |bits| == NumBits(|es|, BLOOM_BITS_PER_KEY)
    ensures OpenTable(FileBytes(z, bs, Le(k, 4) + bits)).Ok?
    ensures Contains(z, h, OpenTable(FileBytes(z, bs, Le(k, 4) + bits)).value, bs)
  {
    hide Raw, Marks, Flat, Keys, AllButLastFull, FileBytes, OpenTable, Contains, CountsFit, Typed, Invertible,
         Ascending;
    BlocksReadable(bs);
    HoldableFits(z, bs, Le(k, 4) + bits);
    WrittenContains(z, h, bs, k, bits);
  }
}
