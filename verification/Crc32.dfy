/** CRC-32 as defined by section 8 of RFC 1952, computed from a table. */
module Crc32 {
  import opened Common
  import opened Bitwise

  type Word = bv32

  // ---- Words ----

  function Xor(a: Word, b: Word): Word { a ^ b }

  function Or(a: Word, b: Word): Word { a | b }

  predicate Odd(c: Word) { c & 1 == 1 }

  function Half(c: Word): Word { c >> 1 }

  function Low(c: Word): Word { c & 0xFF }

  function High(c: Word): Word { c >> 8 }

  /** A low byte in front of the bytes above it. */
  function Join(b: Word, y: Word): Word { b | (y << 8) }

  predicate IsByte(b: Word) { b & 0xFFFF_FF00 == 0 }

  // ---- Bytes as words: the bits of a number, lowest first ----

  function Bit(b: bool, w: Word): Word {
    if b then w else 0
  }

  function WordOf(o: Bits): Word
    requires |o| == 8
  {
    Gather(o[0], o[1], o[2], o[3], o[4], o[5], o[6], o[7])
  }

  function Gather(b0: bool, b1: bool, b2: bool, b3: bool, b4: bool, b5: bool, b6: bool, b7: bool): Word {
    Or(Or(Or(Or(Or(Or(Or(Bit(b0, 1), Bit(b1, 2)), Bit(b2, 4)), Bit(b3, 8)),
                Bit(b4, 16)), Bit(b5, 32)), Bit(b6, 64)), Bit(b7, 128))
  }

  function BitsIn(w: Word): (o: Bits)
    ensures |o| == 8
  {
    [w & 1 != 0, w & 2 != 0, w & 4 != 0, w & 8 != 0, w & 16 != 0, w & 32 != 0, w & 64 != 0, w & 128 != 0]
  }

  function ToWord(b: byte): Word {
    WordOf(BitsOf(b, 8))
  }

  /** The number in the low byte of a word. */
  function LowByte(w: Word): byte {
    EightBits();
    IntOf(BitsIn(w))
  }

  lemma WordBack(o: Bits)
    requires |o| == 8
    ensures BitsIn(WordOf(o)) == o
  {
    hide BitsIn, Gather;
    GatherBack(o[0], o[1], o[2], o[3], o[4], o[5], o[6], o[7]);
  }

  lemma GatherBack(b0: bool, b1: bool, b2: bool, b3: bool, b4: bool, b5: bool, b6: bool, b7: bool)
    ensures BitsIn(Gather(b0, b1, b2, b3, b4, b5, b6, b7)) == [b0, b1, b2, b3, b4, b5, b6, b7]
  {
  }

  lemma LowBack(w: Word)
    ensures WordOf(BitsIn(w)) == Low(w)
  {
  }

  lemma LowIsByte(w: Word)
    ensures IsByte(Low(w))
  {
  }

  lemma ToWordIsByte(b: byte)
    ensures IsByte(ToWord(b))
  {
    hide BitsIn, WordOf, Low, IsByte;
    var o := BitsOf(b, 8);
    WordBack(o);
    LowBack(WordOf(o));
    LowIsByte(WordOf(o));
  }

  lemma BytesDiffer(a: byte, b: byte)
    requires ToWord(a) == ToWord(b)
    ensures a == b
  {
    hide BitsIn, WordOf, BitsOf, IntOf;
    WordBack(BitsOf(a, 8));
    WordBack(BitsOf(b, 8));
    EightBits();
    IntBack(a, 8);
    IntBack(b, 8);
  }

  lemma LowByteBack(c: Word)
    ensures ToWord(LowByte(c)) == Low(c)
  {
    hide BitsIn, WordOf, BitsOf, IntOf, Low;
    BitsBack(BitsIn(c));
    LowBack(c);
  }

  lemma XorZero(a: Word)
    ensures Xor(a, 0) == a
  {
  }

  lemma XorBoth(a: Word, b: Word, p: Word)
    ensures Xor(Xor(a, p), Xor(b, p)) == Xor(a, b)
  {
    hide Xor;
    XorRight(Xor(a, p), b, p);
    XorLeft(a, b, p);
    XorTwice(Xor(a, b), p);
  }

  lemma XorTwice(a: Word, p: Word)
    ensures Xor(Xor(a, p), p) == a
  {
  }

  lemma XorLeft(a: Word, b: Word, p: Word)
    ensures Xor(Xor(a, p), b) == Xor(Xor(a, b), p)
  {
    hide Xor;
    XorRight(a, p, b);
    XorCommutes(p, b);
    XorRight(a, b, p);
  }

  lemma XorCommutes(a: Word, b: Word)
    ensures Xor(a, b) == Xor(b, a)
  {
  }

  lemma XorRight(a: Word, b: Word, p: Word)
    ensures Xor(a, Xor(b, p)) == Xor(Xor(a, b), p)
  {
  }

  lemma XorCancels(c: Word, x: Word, y: Word)
    requires Xor(c, x) == Xor(c, y) || Xor(x, c) == Xor(y, c)
    ensures x == y
  {
  }

  lemma HalfXor(a: Word, b: Word)
    ensures Half(Xor(a, b)) == Xor(Half(a), Half(b)) && (Odd(Xor(a, b)) <==> Odd(a) != Odd(b))
  {
  }

  // ---- Bit steps ----

  function BitStep(c: Word): Word {
    if Odd(c) then Xor(Half(c), 0xEDB8_8320) else Half(c)
  }

  function Steps(c: Word, n: nat): Word {
    if n == 0 then c else BitStep(Steps(c, n - 1))
  }

  /** The register after eight bit steps for each byte. */
  function Advance(c: Word, data: Bytes): Word
    decreases |data|
  {
    if data == [] then c else Advance(Steps(Xor(c, ToWord(data[0])), 8), data[1..])
  }

  function CrcOf(data: Bytes): Word {
    Xor(Advance(0xFFFF_FFFF, data), 0xFFFF_FFFF)
  }

  lemma BitStepLinear(a: Word, b: Word)
    ensures BitStep(Xor(a, b)) == Xor(BitStep(a), BitStep(b))
  {
    hide Xor, Odd, Half;
    HalfXor(a, b);
    XorBoth(Half(a), Half(b), 0xEDB8_8320);
    XorLeft(Half(a), Half(b), 0xEDB8_8320);
    XorRight(Half(a), Half(b), 0xEDB8_8320);
  }

  lemma {:induction false} StepsLinear(a: Word, b: Word, n: nat)
    ensures Steps(Xor(a, b), n) == Xor(Steps(a, n), Steps(b, n))
  {
    hide Xor, BitStep;
    if n > 0 {
      StepsLinear(a, b, n - 1);
      BitStepLinear(Steps(a, n - 1), Steps(b, n - 1));
    }
  }

  /** The polynomial's top bit is set, so a bit step forgets nothing. */
  lemma BitStepInjective(a: Word, b: Word)
    requires BitStep(a) == BitStep(b)
    ensures a == b
  {
  }

  lemma {:induction false} StepsInjective(a: Word, b: Word, n: nat)
    requires Steps(a, n) == Steps(b, n)
    ensures a == b
  {
    hide BitStep;
    if n > 0 {
      BitStepInjective(Steps(a, n - 1), Steps(b, n - 1));
      StepsInjective(a, b, n - 1);
    }
  }

  lemma {:induction false} StepsAdd(c: Word, m: nat, n: nat)
    ensures Steps(Steps(c, m), n) == Steps(c, m + n)
  {
    hide BitStep;
    if n > 0 { StepsAdd(c, m, n - 1); }
  }

  function Halves(c: Word, n: nat): Word {
    if n == 0 then c else Half(Halves(c, n - 1))
  }

  lemma EightHalves(y: Word)
    requires Low(y) == 0
    ensures Halves(y, 8) == High(y)
    ensures forall i :: 0 <= i < 8 ==> !Odd(Halves(y, i))
  {
    assert Halves(y, 1) == y >> 1;
    assert Halves(y, 2) == y >> 2;
    assert Halves(y, 3) == y >> 3;
    assert Halves(y, 4) == y >> 4;
    assert Halves(y, 5) == y >> 5;
    assert Halves(y, 6) == y >> 6;
    assert Halves(y, 7) == y >> 7;
  }

  lemma {:induction false} EvenSteps(y: Word, n: nat)
    requires forall i :: 0 <= i < n ==> !Odd(Halves(y, i))
    ensures Steps(y, n) == Halves(y, n)
  {
    hide Odd, Half, Xor;
    if n > 0 { EvenSteps(y, n - 1); }
  }

  /** A word whose low byte is clear is only shifted. */
  lemma StepsShift(y: Word)
    requires Low(y) == 0
    ensures Steps(y, 8) == High(y)
  {
    EightHalves(y);
    EvenSteps(y, 8);
  }

  lemma SplitLow(x: Word)
    ensures Xor(Low(x), x & 0xFFFF_FF00) == x && Low(x & 0xFFFF_FF00) == 0 && High(x & 0xFFFF_FF00) == High(x)
  {
  }

  lemma HighOfByte(c: Word, b: Word)
    requires IsByte(b)
    ensures High(Xor(c, b)) == High(c)
  {
  }

  /** One table lookup does the work of eight bit steps. */
  lemma TableStep(c: Word, b: byte)
    ensures Xor(Steps(Low(Xor(c, ToWord(b))), 8), High(c)) == Steps(Xor(c, ToWord(b)), 8)
  {
    hide Xor, Low, High, Steps, IsByte, ToWord;
    var x := Xor(c, ToWord(b));
    SplitLow(x);
    StepsLinear(Low(x), x & 0xFFFF_FF00, 8);
    StepsShift(x & 0xFFFF_FF00);
    ToWordIsByte(b);
    HighOfByte(c, ToWord(b));
  }

  // ---- The table and the loops ----

  ghost predicate IsTable(t: seq<Word>) {
    |t| == 256 && forall i: Word :: i < 256 ==> t[LowByte(i)] == Steps(i, 8)
  }

  lemma LowBelow(x: Word)
    ensures Low(x) < 256
  {
  }

  lemma IndexInjective(i: Word, j: Word)
    requires i < 256 && j < 256 && LowByte(i) == LowByte(j)
    ensures i == j
  {
    hide ToWord, LowByte, Low;
    LowByteBack(i);
    LowByteBack(j);
    LowOfLow(i);
    LowOfLow(j);
  }

  lemma LowOfLow(i: Word)
    requires i < 256
    ensures Low(i) == i
  {
  }

  method TableEntry(i: Word) returns (c: Word)
    ensures c == Steps(i, 8)
  {
    c := i;
    var j := 0;
    while j < 8
      invariant 0 <= j <= 8 && c == Steps(i, j)
    {
      if c & 1 == 1 { c := (c >> 1) ^ 0xEDB8_8320; } else { c := c >> 1; }
      j := j + 1;
    }
  }

  /** getCRC32Table. */
  method BuildTable() returns (t: array<Word>)
    ensures fresh(t) && t.Length == 256 && IsTable(t[..])
  {
    hide LowByte, Steps;
    t := new Word[256];
    var i: Word := 0;
    while i < 256
      invariant i <= 256
      invariant forall k: Word :: k < i && k < 256 ==> t[LowByte(k)] == Steps(k, 8)
      decreases 256 - i
    {
      var c := TableEntry(i);
      forall k: Word | k < 256 && LowByte(k) == LowByte(i) ensures k == i { IndexInjective(k, i); }
      t[LowByte(i)] := c;
      i := i + 1;
    }
  }

  method Lookup(t: array<Word>, c: Word, b: byte) returns (r: Word)
    requires IsTable(t[..])
    ensures r == Steps(Xor(c, ToWord(b)), 8)
  {
    hide Xor, High, Low, ToWord, Steps, LowByte;
    var low := Low(Xor(c, ToWord(b)));
    LowBelow(Xor(c, ToWord(b)));
    TableStep(c, b);
    assert t[..][LowByte(low)] == Steps(low, 8);
    r := Xor(t[LowByte(low)], High(c));
  }

  /** The byte loop shared by the one-shot and the streaming form. */
  method Feed(t: array<Word>, start: Word, data: Bytes) returns (c: Word)
    requires IsTable(t[..])
    ensures c == Advance(start, data)
  {
    hide Xor, ToWord, Steps, IsTable;
    c := start;
    var i := 0;
    assert data[0..] == data;
    while i < |data|
      invariant 0 <= i <= |data| && Advance(start, data) == Advance(c, data[i..])
    {
      assert data[i..][1..] == data[i + 1..];
      c := Lookup(t, c, data[i]);
      i := i + 1;
    }
  }

  method Crc(t: array<Word>, data: Bytes) returns (c: Word)
    requires IsTable(t[..])
    ensures c == CrcOf(data)
  {
    c := Feed(t, 0xFFFF_FFFF, data);
    c := c ^ 0xFFFF_FFFF;
  }

  class CRC32Builder {
    const table: array<Word>
    var crc: Word

    constructor ()
      ensures crc == 0xFFFF_FFFF && fresh(table) && IsTable(table[..])
    {
      var t := BuildTable();
      table := t;
      crc := 0xFFFF_FFFF;
    }

    method Update(data: Bytes)
      requires IsTable(table[..])
      modifies this
      ensures crc == Advance(old(crc), data)
    {
      crc := Feed(table, crc, data);
    }

    function Finalize(): Word
      reads this
    {
      Xor(crc, 0xFFFF_FFFF)
    }
  }

  // ---- Streaming ----

  lemma {:induction false} AdvanceConcat(c: Word, a: Bytes, b: Bytes)
    ensures Advance(c, a + b) == Advance(Advance(c, a), b)
    decreases |a|
  {
    hide Xor, ToWord, Steps;
    if a == [] {
      assert a + b == b;
    } else {
      assert (a + b)[1..] == a[1..] + b;
      AdvanceConcat(Steps(Xor(c, ToWord(a[0])), 8), a[1..], b);
    }
  }

  function Flatten(pieces: seq<Bytes>): Bytes {
    if pieces == [] then [] else pieces[0] + Flatten(pieces[1..])
  }

  /** Feeding pieces one by one gives the CRC of their concatenation. */
  method Stream(pieces: seq<Bytes>) returns (c: Word)
    ensures c == CrcOf(Flatten(pieces))
  {
    hide Xor, Advance, IsTable;
    var builder := new CRC32Builder();
    var i := 0;
    assert pieces[0..] == pieces;
    while i < |pieces|
      invariant 0 <= i <= |pieces| && IsTable(builder.table[..])
      invariant Advance(builder.crc, Flatten(pieces[i..])) == Advance(0xFFFF_FFFF, Flatten(pieces))
    {
      AdvanceConcat(builder.crc, pieces[i], Flatten(pieces[i + 1..]));
      assert pieces[i..][1..] == pieces[i + 1..];
      builder.Update(pieces[i]);
      i := i + 1;
    }
    assert pieces[i..] == [];
    FedAll(builder.crc);
    c := builder.Finalize();
  }

  lemma FedAll(c: Word)
    ensures Advance(c, []) == c
  {
  }

  // ---- Bursts ----

  /** Up to four bytes as a little-endian word. */
  function Pack(w: Bytes): Word {
    if w == [] then 0 else Join(ToWord(w[0]), Pack(w[1..]))
  }

  function Mask(n: nat): Word {
    if n == 0 then 0xFFFF_FFFF else if n == 1 then 0xFFFF_FF00 else if n == 2 then 0xFFFF_0000
    else if n == 3 then 0xFF00_0000 else 0
  }

  /** No bit of the mask is used. */
  predicate Avoids(w: Word, mask: Word) { w & mask == 0 }

  /** Only the n low bytes are used. */
  predicate Within(w: Word, n: nat) {
    Avoids(w, Mask(n))
  }

  lemma JoinAvoids(b: Word, y: Word, m: Word)
    requires IsByte(b) && Avoids(y, m) && m & 0xFF00_0000 == 0xFF00_0000
    ensures Avoids(Join(b, y), m << 8)
  {
  }

  lemma JoinWithin(b: Word, rest: Word, n: nat)
    requires 1 <= n && IsByte(b) && Within(rest, n - 1)
    ensures Within(Join(b, rest), n)
  {
    hide IsByte, Join, Avoids;
    if n <= 4 { JoinAvoids(b, rest, Mask(n - 1)); } else { AvoidsNothing(Join(b, rest)); }
  }

  lemma AvoidsNothing(w: Word)
    ensures Avoids(w, 0)
  {
  }

  lemma AvoidsLess(w: Word, m: Word)
    requires Avoids(w, m) && m & 0xFF00_0000 == 0xFF00_0000
    ensures Avoids(w, 0xFF00_0000)
  {
  }

  lemma {:induction false} PackWithin(w: Bytes)
    ensures Within(Pack(w), |w|)
  {
    hide Within, Join, IsByte, ToWord;
    if w == [] {
      ZeroWithin();
    } else {
      PackWithin(w[1..]);
      ToWordIsByte(w[0]);
      JoinWithin(ToWord(w[0]), Pack(w[1..]), |w|);
    }
  }

  lemma ZeroWithin()
    ensures Within(0, 0)
  {
  }

  lemma WithinThree(y: Word, n: nat)
    requires n <= 3 && Within(y, n)
    ensures Within(y, 3)
  {
    hide Avoids;
    AvoidsLess(y, Mask(n));
  }

  lemma JoinIsXor(x: Word, b: Word, y: Word)
    requires IsByte(b) && Avoids(y, 0xFF00_0000)
    ensures Xor(x, Join(b, y)) == Xor(Xor(x, b), y << 8)
  {
    hide Xor, Join;
    DisjointBits(b, y);
    XorRight(x, b, y << 8);
  }

  lemma DisjointBits(b: Word, y: Word)
    requires IsByte(b) && Avoids(y, 0xFF00_0000)
    ensures Join(b, y) == Xor(b, y << 8)
  {
  }

  lemma ShiftBack(y: Word)
    requires Avoids(y, 0xFF00_0000)
    ensures Low(y << 8) == 0 && High(y << 8) == y
  {
  }

  lemma OnlyThree(y: Word)
    requires Within(y, 3)
    ensures Avoids(y, 0xFF00_0000)
  {
  }

  lemma ShiftIn(x: Word, b: Word, y: Word)
    requires IsByte(b) && Within(y, 3)
    ensures Xor(Steps(Xor(x, b), 8), y) == Steps(Xor(x, Join(b, y)), 8)
  {
    hide Xor, Join, Steps, Low, High, IsByte, Within, Avoids;
    assert Avoids(y, 0xFF00_0000) by { OnlyThree(y); }
    JoinIsXor(x, b, y);
    ShiftBack(y);
    StepsLinear(Xor(x, b), y << 8, 8);
    StepsShift(y << 8);
  }

  /** Up to four bytes act on the register like one word. */
  lemma {:induction false} AdvanceIsSteps(c: Word, w: Bytes)
    requires |w| <= 4
    ensures Advance(c, w) == Steps(Xor(c, Pack(w)), 8 * |w|)
    decreases |w|
  {
    hide Xor, Join, Within, IsByte, ToWord, BitStep;
    if w == [] {
      XorZero(c);
    } else {
      var b, y := ToWord(w[0]), Pack(w[1..]);
      AdvanceIsSteps(Steps(Xor(c, b), 8), w[1..]);
      PackWithin(w[1..]);
      WithinThree(y, |w[1..]|);
      ToWordIsByte(w[0]);
      ShiftIn(c, b, y);
      StepsAdd(Xor(c, Pack(w)), 8, 8 * |w[1..]|);
    }
  }

  lemma JoinInjective(b: Word, y: Word, d: Word, z: Word)
    requires IsByte(b) && IsByte(d) && Within(y, 3) && Within(z, 3) && Join(b, y) == Join(d, z)
    ensures b == d && y == z
  {
  }

  lemma {:induction false} PackInjective(v: Bytes, w: Bytes)
    requires |v| == |w| <= 4 && Pack(v) == Pack(w)
    ensures v == w
  {
    hide Join, Within, IsByte, ToWord;
    if v != [] {
      PackWithin(v[1..]);
      PackWithin(w[1..]);
      WithinThree(Pack(v[1..]), |v[1..]|);
      WithinThree(Pack(w[1..]), |w[1..]|);
      ToWordIsByte(v[0]);
      ToWordIsByte(w[0]);
      JoinInjective(ToWord(v[0]), Pack(v[1..]), ToWord(w[0]), Pack(w[1..]));
      BytesDiffer(v[0], w[0]);
      PackInjective(v[1..], w[1..]);
      assert v == [v[0]] + v[1..] && w == [w[0]] + w[1..];
    }
  }

  lemma {:induction false} AdvanceInjective(c: Word, d: Word, data: Bytes)
    requires Advance(c, data) == Advance(d, data)
    ensures c == d
    decreases |data|
  {
    hide Xor, ToWord, Steps;
    if data != [] {
      var b := ToWord(data[0]);
      AdvanceInjective(Steps(Xor(c, b), 8), Steps(Xor(d, b), 8), data[1..]);
      StepsInjective(Xor(c, b), Xor(d, b), 8);
      XorCancels(b, c, d);
    }
  }

  /** A change confined to four consecutive bytes always shows in the register. */
  lemma BurstShows(c: Word, before: Bytes, v: Bytes, w: Bytes, after: Bytes)
    requires |v| == |w| <= 4 && v != w
    ensures Advance(c, before + v + after) != Advance(c, before + w + after)
  {
    hide Xor, Steps, Advance, Pack;
    AdvanceConcat(c, before + v, after);
    AdvanceConcat(c, before + w, after);
    AdvanceConcat(c, before, v);
    AdvanceConcat(c, before, w);
    var d := Advance(c, before);
    if Advance(c, before + v + after) == Advance(c, before + w + after) {
      AdvanceInjective(Advance(d, v), Advance(d, w), after);
      AdvanceIsSteps(d, v);
      AdvanceIsSteps(d, w);
      StepsInjective(Xor(d, Pack(v)), Xor(d, Pack(w)), 8 * |v|);
      XorCancels(d, Pack(v), Pack(w));
      PackInjective(v, w);
    }
  }

  // ---- Records that end in their CRC ----

  /** The four bytes that a CRC is stored in. */
  function Stored(c: Word): (b: Bytes)
    ensures |b| == 4
  {
    [LowByte(c), LowByte(High(c)), LowByte(High(High(c))), LowByte(High(High(High(c))))]
  }

  lemma Assemble(c: Word)
    ensures Join(Low(c), High(c)) == c && High(High(High(High(c)))) == 0
  {
  }

  lemma PackStored(c: Word)
    ensures Pack(Stored(c)) == c
  {
    hide Join, Low, High, ToWord, LowByte;
    var s := Stored(c);
    forall x: Word { LowByteBack(x); }
    Assemble(c);
    Assemble(High(c));
    Assemble(High(High(c)));
    Assemble(High(High(High(c))));
    assert Pack(s[1..][1..][1..][1..]) == 0;
    assert Pack(s[1..][1..][1..]) == High(High(High(c)));
    assert Pack(s[1..][1..]) == High(High(c));
    assert Pack(s[1..]) == High(c);
  }

  /** The last four bytes are the CRC of those before them. */
  predicate Sealed(b: Bytes) {
    |b| >= 4 && CrcOf(b[..|b| - 4]) == Pack(b[|b| - 4..])
  }

  lemma Complement(c: Word, p: Word)
    ensures Xor(c, 0xFFFF_FFFF) == p <==> Xor(c, p) == 0xFFFF_FFFF
  {
    hide Xor;
    var ones: Word := 0xFFFF_FFFF;
    if Xor(c, ones) == p { Undo(c, ones); }
    if Xor(c, p) == ones { Undo(c, p); }
  }

  lemma Undo(a: Word, b: Word)
    ensures Xor(a, Xor(a, b)) == b
  {
  }

  lemma SealedIsResidue(b: Bytes)
    requires |b| >= 4
    ensures Sealed(b) <==> Advance(0xFFFF_FFFF, b) == Steps(0xFFFF_FFFF, 32)
  {
    hide Xor, Steps, Advance, Pack;
    var head, tail := b[..|b| - 4], b[|b| - 4..];
    assert b == head + tail;
    AdvanceConcat(0xFFFF_FFFF, head, tail);
    var c := Advance(0xFFFF_FFFF, head);
    AdvanceIsSteps(c, tail);
    Complement(c, Pack(tail));
    if Advance(0xFFFF_FFFF, b) == Steps(0xFFFF_FFFF, 32) { StepsInjective(Xor(c, Pack(tail)), 0xFFFF_FFFF, 32); }
  }

  lemma SealedRecord(body: Bytes)
    ensures Sealed(body + Stored(CrcOf(body)))
  {
    hide CrcOf, Pack, Stored;
    var b := body + Stored(CrcOf(body));
    assert b[..|b| - 4] == body && b[|b| - 4..] == Stored(CrcOf(body));
    PackStored(CrcOf(body));
  }

  /** Damage to a sealed record within four consecutive bytes, the CRC's own included, breaks the seal. */
  lemma DamageBreaksSeal(before: Bytes, v: Bytes, w: Bytes, after: Bytes)
    requires Sealed(before + v + after) && |v| == |w| <= 4 && v != w
    ensures !Sealed(before + w + after)
  {
    hide Sealed, Steps, Advance;
    SealedLength(before + v + after);
    SealedIsResidue(before + v + after);
    SealedIsResidue(before + w + after);
    BurstShows(0xFFFF_FFFF, before, v, w, after);
  }

  lemma SealedLength(b: Bytes)
    requires Sealed(b)
    ensures |b| >= 4
  {
  }
}
