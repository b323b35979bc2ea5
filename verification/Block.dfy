/** Data blocks of a table file: entries laid out as bytes, compressed, and read back. */
module Blocks {
  import opened Common
  import opened Wire
  import opened Tables

  /** Compression is a library; all that is used of it is that it can be undone, and the
      bound it documents for its output. */
  datatype Lz4 = Lz4(compress: Bytes -> Bytes, decompress: (Bytes, nat) -> Option<Bytes>)

  const LZ4_MAX_INPUT: nat := 0x7E00_0000
  const MAX_BLOCK: nat := 64 * 1024 * 1024

  ghost predicate Invertible(z: Lz4) {
    forall raw: Bytes :: 0 < |raw| <= LZ4_MAX_INPUT ==>
      z.decompress(z.compress(raw), |raw|) == Some(raw) && |z.compress(raw)| <= |raw| + |raw| / 255 + 16
  }

  datatype Error = TooSmall | BadSize | BadData | Truncated | TooLarge

  // ---- Layout ----

  function EntryBytes(e: Entry): (b: Bytes)
    ensures |b| == 12 + |e.value|
  {
    Le(e.key, 8) + Le(|e.value| % 0x1_0000_0000, 4) + e.value
  }

  function AllBytes(es: seq<Entry>): Bytes {
    if es == [] then [] else AllBytes(es[..|es| - 1]) + EntryBytes(es[|es| - 1])
  }

  function Raw(es: seq<Entry>): Bytes {
    Le(|es| % 0x1_0000_0000, 4) + AllBytes(es)
  }

  /** A finished block. */
  function BlockBytes(z: Lz4, es: seq<Entry>): Bytes {
    Le(|Raw(es)| % 0x1_0000_0000, 4) + z.compress(Raw(es))
  }

  class BlockBuilder {
    const targetSize: nat
    var entries: seq<Entry>
    var uncompressedSize: nat
    var firstKey: Key

    /** The running size is the exact length of the layout. */
    ghost predicate Valid()
      reads this
    {
      uncompressedSize == |Raw(entries)| && firstKey == (if entries == [] then 0 else entries[0].key)
    }

    constructor (targetSize: nat)
      ensures Valid() && entries == [] && this.targetSize == targetSize
    {
      this.targetSize, entries, uncompressedSize, firstKey := targetSize, [], 4, 0;
    }

    method Add(key: Key, value: Bytes)
      requires Valid()
      modifies this
      ensures Valid() && entries == old(entries) + [Entry(key, value)]
    {
      if entries == [] { firstKey := key; }
      AllBytesNext(entries, Entry(key, value));
      entries := entries + [Entry(key, value)];
      uncompressedSize := uncompressedSize + 8 + 4 + |value|;
    }

    predicate IsFull()
      reads this
    {
      uncompressedSize >= targetSize
    }

    /** Lay the entries out, compress them, and start again. */
    method Finish(z: Lz4) returns (r: Result<Bytes, Error>)
      requires Valid()
      modifies this
      ensures Valid()
      ensures |Raw(old(entries))| > 0x7E00_0000 ==> r == Err(TooLarge) && entries == old(entries)
      ensures |Raw(old(entries))| <= 0x7E00_0000 ==> r == Ok(BlockBytes(z, old(entries))) && entries == []
    {
      hide AllBytes, EntryBytes, Le;
      var es := entries;
      var raw := Le(|es| % 0x1_0000_0000, 4);
      var i := 0;
      NoBytes();
      while i < |es|
        invariant entries == es && uncompressedSize == old(uncompressedSize) && firstKey == old(firstKey)
        invariant 0 <= i <= |es| && raw == Le(|es| % 0x1_0000_0000, 4) + AllBytes(es[..i])
      {
        AllBytesNext(es[..i], es[i]);
        assert es[..i + 1] == es[..i] + [es[i]];
        OneEntry(raw, es[i]);
        ConcatAssociates(Le(|es| % 0x1_0000_0000, 4), AllBytes(es[..i]), EntryBytes(es[i]));
        raw := raw + Le(es[i].key, 8) + Le(|es[i].value| % 0x1_0000_0000, 4) + es[i].value;
        i := i + 1;
      }
      assert es[..i] == es;
      if |raw| > LZ4_MAX_INPUT { return Err(TooLarge); }
      r := Ok(Le(|raw| % 0x1_0000_0000, 4) + z.compress(raw));
      entries, uncompressedSize, firstKey := [], 4, 0;
    }
  }

  lemma NoBytes()
    ensures AllBytes([]) == []
  {
  }

  lemma OneEntry(raw: Bytes, e: Entry)
    ensures raw + Le(e.key, 8) + Le(|e.value| % 0x1_0000_0000, 4) + e.value == raw + EntryBytes(e)
  {
  }

  lemma AllBytesNext(es: seq<Entry>, e: Entry)
    ensures AllBytes(es + [e]) == AllBytes(es) + EntryBytes(e)
  {
    assert (es + [e])[..|es|] == es;
  }

  // ---- Reading ----

  datatype Block = Block(data: Bytes, count: nat, offsets: seq<nat>)

  function KeyAt(data: Bytes, off: nat): Key
    requires off + 8 <= |data|
  {
    FromLe(data[off..off + 8])
  }

  function LenAt(data: Bytes, off: nat): nat
    requires off + 12 <= |data|
  {
    FromLe(data[off + 8..off + 12])
  }

  predicate Readable(b: Block, i: nat) {
    i < |b.offsets| && b.offsets[i] + 12 <= |b.data| && b.offsets[i] + 12 + LenAt(b.data, b.offsets[i]) <= |b.data|
  }

  function EntryAt(b: Block, i: nat): Entry
    requires Readable(b, i)
  {
    var off := b.offsets[i];
    Entry(KeyAt(b.data, off), b.data[off + 12..off + 12 + LenAt(b.data, off)])
  }

  /** The block reads as this entry list. */
  ghost predicate Holds(b: Block, es: seq<Entry>) {
    && b.count == |b.offsets| == |es|
    && forall i :: 0 <= i < |es| ==> Readable(b, i) && EntryAt(b, i) == es[i]
  }

  /** The offsets of the next n entries, unless the data ends in an entry header. */
  function Scan(data: Bytes, n: nat, off: nat): Option<seq<nat>> {
    if n == 0 then Some([])
    else if off + 12 > |data| then None
    else Prepend([off], Scan(data, n - 1, off + 12 + LenAt(data, off)))
  }

  function Prepend(front: seq<nat>, rest: Option<seq<nat>>): Option<seq<nat>> {
    if rest.Some? then Some(front + rest.value) else None
  }

  function ParseEntries(data: Bytes): Result<Block, Error> {
    if |data| < 4 then Err(Truncated)
    else
      var offsets := Scan(data, FromLe(data[..4]), 4);
      if offsets.Some? then Ok(Block(data, FromLe(data[..4]), offsets.value)) else Err(Truncated)
  }

  function OpenBlock(z: Lz4, bytes: Bytes): Result<Block, Error> {
    if |bytes| < 4 then Err(TooSmall)
    else
      var size := FromLe(bytes[..4]);
      if size == 0 || size > MAX_BLOCK then Err(BadSize)
      else
        var data := z.decompress(bytes[4..], size);
        if data.None? || |data.value| != size then Err(BadData) else ParseEntries(data.value)
  }

  /** BlockReader's constructor: check the size, decompress, find the entries. */
  method Open(z: Lz4, bytes: Bytes) returns (r: Result<Block, Error>)
    ensures r == OpenBlock(z, bytes)
  {
    if |bytes| < 4 { return Err(TooSmall); }
    var size := FromLe(bytes[..4]);
    if size == 0 || size > MAX_BLOCK { return Err(BadSize); }
    var data := z.decompress(bytes[4..], size);
    if data == None || |data.value| != size { return Err(BadData); }
    r := Parse(data.value);
  }

  method Parse(data: Bytes) returns (r: Result<Block, Error>)
    ensures r == ParseEntries(data)
  {
    hide LenAt, FromLe;
    if |data| < 4 { return Err(Truncated); }
    var count: nat, off: nat, offsets: seq<nat> := FromLe(data[..4]), 4, [];
    PrependNone(Scan(data, count, off));
    while |offsets| < count
      invariant |offsets| <= count
      invariant Scan(data, count, 4) == Prepend(offsets, Scan(data, count - |offsets|, off))
    {
      if off + 12 > |data| { return Err(Truncated); }
      PrependTwice(offsets, off, Scan(data, count - |offsets| - 1, off + 12 + LenAt(data, off)));
      offsets := offsets + [off];
      off := off + 12 + LenAt(data, off);
    }
    assert offsets + [] == offsets;
    r := Ok(Block(data, count, offsets));
  }

  lemma PrependNone(rest: Option<seq<nat>>)
    ensures Prepend([], rest) == rest
  {
    if rest.Some? { assert [] + rest.value == rest.value; }
  }

  lemma PrependTwice(front: seq<nat>, off: nat, rest: Option<seq<nat>>)
    ensures Prepend(front, Prepend([off], rest)) == Prepend(front + [off], rest)
  {
    if rest.Some? { ConcatAssociates(front, [off], rest.value); }
  }

  /** Keys and value lengths survive the casts of the layout. */
  predicate AllFit(es: seq<Entry>) {
    Fits(|es|, 4) && forall i :: 0 <= i < |es| ==> Fits(es[i].key, 8) && Fits(|es[i].value|, 4)
  }

  lemma {:induction false} PartsFit(es: seq<Entry>)
    ensures 12 * |es| <= |AllBytes(es)| && forall i :: 0 <= i < |es| ==> |es[i].value| <= |AllBytes(es)|
  {
    if es != [] { PartsFit(es[..|es| - 1]); }
  }

  /** With 64-bit keys, whatever the compressor takes survives the casts of the layout. */
  lemma CompressibleFits(es: seq<Entry>)
    requires |Raw(es)| <= LZ4_MAX_INPUT && forall i :: 0 <= i < |es| ==> Fits(es[i].key, 8)
    ensures AllFit(es)
  {
    hide AllBytes, Pow256;
    PartsFit(es);
    Widths();
  }

  lemma BlockIsShort(z: Lz4, es: seq<Entry>)
    requires Invertible(z) && |Raw(es)| <= LZ4_MAX_INPUT
    ensures |BlockBytes(z, es)| <= 4 + |Raw(es)| + |Raw(es)| / 255 + 16
  {
    hide AllBytes, Le;
    assert |Raw(es)| >= 4;
  }

  function OffsetsFrom(es: seq<Entry>, i: nat): seq<nat>
    requires i <= |es|
  {
    seq(|es| - i, j requires 0 <= j < |es| - i => 4 + |AllBytes(es[..i + j])|)
  }

  lemma {:induction false} ScanRaw(es: seq<Entry>, i: nat)
    requires AllFit(es) && i <= |es|
    ensures Scan(Raw(es), |es| - i, 4 + |AllBytes(es[..i])|) == Some(OffsetsFrom(es, i))
    decreases |es| - i
  {
    hide LenAt, KeyAt, Raw, AllFit, AllBytes;
    if i == |es| {
      assert OffsetsFrom(es, i) == [];
    } else {
      EntryIsAt(es, i);
      ScanRaw(es, i + 1);
      var off := 4 + |AllBytes(es[..i])|;
      assert OffsetsFrom(es, i) == [off] + OffsetsFrom(es, i + 1);
    }
  }

  lemma RawHolds(es: seq<Entry>)
    requires AllFit(es)
    ensures ParseEntries(Raw(es)).Ok? && Holds(ParseEntries(Raw(es)).value, es)
  {
    CountAt(es);
    ScanRaw(es, 0);
    assert es[..0] == [];
    hide Raw, LenAt, KeyAt, AllBytes, Scan, AllFit, FromLe;
    var b := Block(Raw(es), |es|, OffsetsFrom(es, 0));
    assert ParseEntries(Raw(es)) == Ok(b);
    hide ParseEntries;
    forall i | 0 <= i < |es| ensures Readable(b, i) && EntryAt(b, i) == es[i] {
      EntryIsAt(es, i);
      assert b.offsets[i] == 4 + |AllBytes(es[..i])|;
    }
  }

  lemma CountAt(es: seq<Entry>)
    requires Fits(|es|, 4)
    ensures |Raw(es)| == 4 + |AllBytes(es)| && FromLe(Raw(es)[..4]) == |es| && |AllBytes([])| == 0
  {
    hide FromLe, Le, Pow256;
    Widths();
    LeRoundTrip(|es|, 4);
    assert Raw(es)[..4] == Le(|es|, 4);
  }

  lemma {:induction false} AllBytesSplit(es: seq<Entry>, i: nat)
    requires i < |es|
    ensures exists rest :: AllBytes(es) == AllBytes(es[..i]) + EntryBytes(es[i]) + rest
  {
    hide EntryBytes;
    var front, last := es[..|es| - 1], EntryBytes(es[|es| - 1]);
    if i == |es| - 1 {
      assert AllBytes(es) + [] == AllBytes(es);
    } else {
      AllBytesSplit(front, i);
      assert front[..i] == es[..i];
      var rest :| AllBytes(front) == AllBytes(es[..i]) + EntryBytes(es[i]) + rest;
      ConcatAssociates(AllBytes(es[..i]) + EntryBytes(es[i]), rest, last);
      assert AllBytes(es) == AllBytes(es[..i]) + EntryBytes(es[i]) + (rest + last);
    }
  }

  /** Where the i-th entry begins, and what is read there. */
  lemma EntryIsAt(es: seq<Entry>, i: nat)
    requires AllFit(es) && i < |es|
    ensures var data, off := Raw(es), 4 + |AllBytes(es[..i])|;
            && off + 12 <= |data| && LenAt(data, off) == |es[i].value| && off + 12 + |es[i].value| <= |data|
            && KeyAt(data, off) == es[i].key && data[off + 12..off + 12 + |es[i].value|] == es[i].value
            && off + 12 + |es[i].value| == 4 + |AllBytes(es[..i + 1])|
  {
    hide Le, FromLe, Fits, AllBytes, EntryBytes, LenAt, KeyAt;
    var data, before := Raw(es), Le(|es| % 0x1_0000_0000, 4) + AllBytes(es[..i]);
    AllBytesSplit(es, i);
    var rest :| AllBytes(es) == AllBytes(es[..i]) + EntryBytes(es[i]) + rest;
    assert data == before + EntryBytes(es[i]) + rest;
    Placed(before, es[i], rest);
    assert es[..i + 1] == es[..i] + [es[i]];
    AllBytesNext(es[..i], es[i]);
  }

  /** Where each field of the i-th entry stands in the layout. */
  lemma Layout(es: seq<Entry>, i: nat)
    requires AllFit(es) && i < |es|
    ensures var data, off := Raw(es), |Raw(es[..i])|;
            && FromLe(data[..4]) == |es| && off + 12 + |es[i].value| == |Raw(es[..i + 1])| <= |data|
            && FromLe(data[off..off + 8]) == es[i].key && FromLe(data[off + 8..off + 12]) == |es[i].value|
            && data[off + 12..off + 12 + |es[i].value|] == es[i].value
  {
    hide Le, FromLe, AllBytes;
    EntryIsAt(es, i);
    CountAt(es);
  }

  /** A block opens only if its size field is positive and at most 64 MiB and is the size of what it
      decompresses to; its entries then follow one another from offset 4 on. */
  lemma OpenedIsChecked(z: Lz4, bytes: Bytes)
    requires OpenBlock(z, bytes).Ok?
    ensures |bytes| >= 4 && 0 < FromLe(bytes[..4]) <= 0x400_0000
    ensures var b := OpenBlock(z, bytes).value;
            && z.decompress(bytes[4..], FromLe(bytes[..4])) == Some(b.data) && |b.data| == FromLe(bytes[..4])
            && |b.data| >= 4 && b.count == |b.offsets| == FromLe(b.data[..4])
            && (b.count > 0 ==> b.offsets[0] == 4) && (forall i :: 0 <= i < b.count ==> b.offsets[i] + 12 <= |b.data|)
            && (forall i :: 0 < i < b.count ==>
                  b.offsets[i] == b.offsets[i - 1] + 12 + FromLe(b.data[b.offsets[i - 1] + 8..b.offsets[i - 1] + 12]))
  {
    hide FromLe;
    var data := OpenBlock(z, bytes).value.data;
    ScanIs(data, FromLe(data[..4]), 4);
  }

  lemma {:induction false} ScanIs(data: Bytes, n: nat, off: nat)
    requires Scan(data, n, off).Some?
    ensures var s := Scan(data, n, off).value;
            && |s| == n && (n > 0 ==> s[0] == off) && (forall i :: 0 <= i < n ==> s[i] + 12 <= |data|)
            && (forall i :: 0 < i < n ==> s[i] == s[i - 1] + 12 + FromLe(data[s[i - 1] + 8..s[i - 1] + 12]))
    decreases n
  {
    hide FromLe;
    if n > 0 {
      ScanIs(data, n - 1, off + 12 + LenAt(data, off));
      var s, t := Scan(data, n, off).value, Scan(data, n - 1, off + 12 + LenAt(data, off)).value;
      assert s == [off] + t;
      forall i | 0 < i < n ensures s[i] == s[i - 1] + 12 + FromLe(data[s[i - 1] + 8..s[i - 1] + 12]) {
        assert s[i] == t[i - 1] && (i > 1 ==> s[i - 1] == t[i - 2]);
      }
    }
  }

  lemma Placed(before: Bytes, e: Entry, rest: Bytes)
    requires Fits(e.key, 8) && Fits(|e.value|, 4)
    ensures var data, off := before + EntryBytes(e) + rest, |before|;
            && off + 12 + |e.value| <= |data| && LenAt(data, off) == |e.value| && KeyAt(data, off) == e.key
            && data[off + 12..off + 12 + |e.value|] == e.value
  {
    hide Le, FromLe, Pow256;
    Widths();
    LeRoundTrip(e.key, 8);
    LeRoundTrip(|e.value|, 4);
    var off := |before|;
    FourParts(before, Le(e.key, 8), Le(|e.value|, 4), e.value, rest);
    assert before + EntryBytes(e) + rest == before + (Le(e.key, 8) + Le(|e.value|, 4) + e.value) + rest;
  }

  lemma FourParts(before: Bytes, a: Bytes, b: Bytes, c: Bytes, rest: Bytes)
    requires |a| == 8 && |b| == 4
    ensures var data, off := before + (a + b + c) + rest, |before|;
            data[off..off + 8] == a && data[off + 8..off + 12] == b && data[off + 12..off + 12 + |c|] == c
  {
  }

  /** Binary search: an index of the key, or -1. */
  method FindKey(b: Block, key: Key, ghost es: seq<Entry>) returns (r: int)
    requires Holds(b, es) && Ascending(es)
    ensures -1 <= r < |es|
    ensures r >= 0 ==> es[r].key == key
    ensures r < 0 ==> forall i :: 0 <= i < |es| ==> es[i].key != key
  {
    var low, high := 0, b.count - 1;
    while low <= high
      invariant 0 <= low && high < b.count && low <= high + 1
      invariant forall i :: 0 <= i < low ==> es[i].key < key
      invariant forall i :: high < i < |es| ==> es[i].key > key
      decreases high - low + 1
    {
      var mid := low + (high - low) / 2;
      assert EntryAt(b, mid) == es[mid];
      var midKey := KeyAt(b.data, b.offsets[mid]);
      if midKey == key {
        return mid;
      } else if midKey < key {
        low := mid + 1;
      } else {
        high := mid - 1;
      }
    }
    return -1;
  }

  /** A finished block opens as exactly the entries added if and only if their layout is
      at most 64 MiB; a larger block is refused. */
  lemma BlockRoundTripExactly(z: Lz4, es: seq<Entry>)
    requires Invertible(z) && AllFit(es) && |Raw(es)| <= LZ4_MAX_INPUT
    ensures OpenBlock(z, BlockBytes(z, es)).Ok? <==> |Raw(es)| <= 0x400_0000
    ensures |Raw(es)| > 0x400_0000 ==> OpenBlock(z, BlockBytes(z, es)) == Err(BadSize)
    ensures |Raw(es)| <= 0x400_0000 ==> Holds(OpenBlock(z, BlockBytes(z, es)).value, es)
  {
    hide Raw, FromLe, Le, ParseEntries, Holds, BlockBytes, AllBytes;
    SizeField(z, es);
    CountAt(es);
    RawHolds(es);
  }

  lemma SizeField(z: Lz4, es: seq<Entry>)
    requires |Raw(es)| <= LZ4_MAX_INPUT
    ensures var bytes := BlockBytes(z, es);
            |bytes| >= 4 && FromLe(bytes[..4]) == |Raw(es)| && bytes[4..] == z.compress(Raw(es))
  {
    hide Raw, FromLe, Le, Pow256;
    Widths();
    LeRoundTrip(|Raw(es)|, 4);
    var bytes := BlockBytes(z, es);
    assert bytes[..4] == Le(|Raw(es)|, 4) && bytes[4..] == z.compress(Raw(es));
  }
}
