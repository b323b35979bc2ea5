/** Little-endian integers and the log files built from them. */
module Wire {
  import opened Common
  import Bitwise

  function Pow256(w: nat): (n: nat)
    ensures n > 0
  {
    if w == 0 then 1 else 256 * Pow256(w - 1)
  }

  predicate Fits(n: nat, w: nat) {
    n < Pow256(w)
  }

  function Le(n: nat, w: nat): (b: Bytes)
    ensures |b| == w
  {
    if w == 0 then [] else [n % 256] + Le(n / 256, w - 1)
  }

  function FromLe(b: Bytes): nat {
    if b == [] then 0 else b[0] + 256 * FromLe(b[1..])
  }

  lemma {:induction false} LeRoundTrip(n: nat, w: nat)
    requires Fits(n, w)
    ensures FromLe(Le(n, w)) == n
  {
    if w > 0 {
      LeRoundTrip(n / 256, w - 1);
      assert Le(n, w)[1..] == Le(n / 256, w - 1);
    }
  }

  /** The byte at place i is the digit of weight 256 to the i: the lowest comes first. */
  lemma {:induction false} LeDigits(n: nat, w: nat, i: nat)
    requires i < w
    ensures Le(n, w)[i] == n / Pow256(i) % 256
  {
    if i > 0 {
      LeDigits(n / 256, w - 1, i - 1);
      Bitwise.DividedTwice(n, 256, Pow256(i - 1));
    }
  }

  lemma Widths()
    ensures Pow256(1) == 0x100 && Pow256(2) == 0x1_0000 && Pow256(4) == 0x1_0000_0000 &&
            Pow256(8) == 0x1_0000_0000_0000_0000
  {
    assert Pow256(3) == 256 * Pow256(2) && Pow256(5) == 256 * Pow256(4) && Pow256(6) == 256 * Pow256(5) &&
           Pow256(7) == 256 * Pow256(6);
  }

  type U32 = n: nat | n < 0x1_0000_0000
  type U64 = n: nat | n < 0x1_0000_0000_0000_0000

  /** Where the checksum of a byte string is a parameter. */
  type Crc = Bytes -> U32

  /** The integer of w bytes at an offset. */
  function Int(b: Bytes, off: nat, w: nat): nat
    requires off + w <= |b|
  {
    FromLe(b[off..off + w])
  }

  /** Copy the w low bytes of n into the buffer. */
  method PutLe(a: array<byte>, off: nat, n: nat, w: nat)
    requires off + w <= a.Length
    modifies a
    ensures a[..] == old(a[..off]) + Le(n, w) + old(a[off + w..])
  {
    var i, m := 0, n;
    while i < w
      invariant 0 <= i <= w && Le(n, w) == a[off..off + i] + Le(m, w - i)
      invariant a[..off] == old(a[..off]) && a[off + i..] == old(a[off + i..])
    {
      a[off + i] := m % 256;
      i, m := i + 1, m / 256;
    }
  }

  // ---- Logs of framed records ----

  /** What a reader makes of the bytes in front of it. */
  datatype Frame<R> = Stop | Skip(size: nat) | Item(record: R, size: nat)

  function ReadAll<R>(parse: Bytes -> Frame<R>, b: Bytes): seq<R>
    decreases |b|
  {
    if b == [] then [] else
      match parse(b)
      case Stop => []
      case Skip(n) => if 0 < n <= |b| then ReadAll(parse, b[n..]) else []
      case Item(r, n) => [r] + if 0 < n <= |b| then ReadAll(parse, b[n..]) else []
  }

  /** One turn of a replay loop. */
  lemma ReadOne<R>(parse: Bytes -> Frame<R>, b: Bytes)
    ensures ReadAll(parse, []) == []
    ensures b != [] && parse(b).Stop? ==> ReadAll(parse, b) == []
    ensures b != [] && parse(b).Skip? ==>
            ReadAll(parse, b) == if 0 < parse(b).size <= |b| then ReadAll(parse, b[parse(b).size..]) else []
    ensures b != [] && parse(b).Item? ==>
      ReadAll(parse, b) ==
      [parse(b).record] + if 0 < parse(b).size <= |b| then ReadAll(parse, b[parse(b).size..]) else []
  {
  }

  function Log<R>(encode: R -> Bytes, rs: seq<R>): Bytes {
    if rs == [] then [] else encode(rs[0]) + Log(encode, rs[1..])
  }

  /** How many records lie wholly within the first n bytes. */
  function Whole<R>(encode: R -> Bytes, rs: seq<R>, n: nat): nat {
    if rs == [] || |encode(rs[0])| > n then 0 else 1 + Whole(encode, rs[1..], n - |encode(rs[0])|)
  }

  /** A written record is read back whatever follows, and a part of one stops the reader. */
  ghost predicate Faithful<R(!new)>(parse: Bytes -> Frame<R>, encode: R -> Bytes, r: R) {
    && encode(r) != []
    && (forall rest :: parse(encode(r) + rest) == Item(r, |encode(r)|))
    && (forall n :: 0 < n < |encode(r)| ==> parse(encode(r)[..n]) == Stop)
  }

  /** A written record that is never read back as itself. */
  ghost predicate Lost<R(!new)>(parse: Bytes -> Frame<R>, encode: R -> Bytes, r: R) {
    && encode(r) != []
    && (forall rest :: parse(encode(r) + rest).Stop? ||
                       (parse(encode(r) + rest).Item? && parse(encode(r) + rest).record != r))
  }

  lemma {:induction false} WholeBound<R>(encode: R -> Bytes, rs: seq<R>, n: nat)
    ensures Whole(encode, rs, n) <= |rs|
    ensures n >= |Log(encode, rs)| ==> Whole(encode, rs, n) == |rs|
  {
    if rs != [] && |encode(rs[0])| <= n { WholeBound(encode, rs[1..], n - |encode(rs[0])|); }
  }

  /** Reading any byte prefix of a log yields exactly the records wholly written in it. */
  lemma {:induction false} PrefixReadsWhole<R(!new)>(parse: Bytes -> Frame<R>, encode: R -> Bytes, rs: seq<R>, n: nat)
    requires forall r :: r in rs ==> Faithful(parse, encode, r)
    requires n <= |Log(encode, rs)|
    ensures Whole(encode, rs, n) <= |rs| && ReadAll(parse, Log(encode, rs)[..n]) == rs[..Whole(encode, rs, n)]
  {
    WholeBound(encode, rs, n);
    if rs != [] {
      var first, rest := encode(rs[0]), Log(encode, rs[1..]);
      assert Faithful(parse, encode, rs[0]);
      var b := Log(encode, rs)[..n];
      if |first| <= n {
        assert b == first + rest[..n - |first|];
        assert b[|first|..] == rest[..n - |first|];
        PrefixReadsWhole(parse, encode, rs[1..], n - |first|);
      } else if n > 0 {
        assert b == first[..n];
      }
    }
  }

  /** A whole log reads back exactly if every record in it is faithful. */
  lemma {:induction false} LogReadsBackExactly<R(!new)>(parse: Bytes -> Frame<R>, encode: R -> Bytes, rs: seq<R>)
    requires forall r :: r in rs ==> Faithful(parse, encode, r) || Lost(parse, encode, r)
    ensures ReadAll(parse, Log(encode, rs)) == rs <==> forall r :: r in rs ==> Faithful(parse, encode, r)
  {
    if rs != [] {
      var first, rest := encode(rs[0]), Log(encode, rs[1..]);
      assert (first + rest)[|first|..] == rest;
      assert rs[0] in rs;
      LogReadsBackExactly(parse, encode, rs[1..]);
      assert rs == [rs[0]] + rs[1..];
      if Faithful(parse, encode, rs[0]) {
        assert ReadAll(parse, first + rest) == [rs[0]] + ReadAll(parse, rest);
      } else {
        assert Lost(parse, encode, rs[0]);
      }
    }
  }

  /** Whole records are read before whatever follows them. */
  lemma {:induction false} ReadsPast<R(!new)>(parse: Bytes -> Frame<R>, encode: R -> Bytes, rs: seq<R>, tail: Bytes)
    requires forall r :: r in rs ==> Faithful(parse, encode, r)
    ensures ReadAll(parse, Log(encode, rs) + tail) == rs + ReadAll(parse, tail)
  {
    hide ReadAll;
    if rs == [] {
      assert Log(encode, rs) + tail == tail;
    } else {
      assert Faithful(parse, encode, rs[0]);
      var first, rest := encode(rs[0]), Log(encode, rs[1..]) + tail;
      ConcatAssociates(first, Log(encode, rs[1..]), tail);
      assert (first + rest)[|first|..] == rest;
      ReadOne(parse, first + rest);
      ReadsPast(parse, encode, rs[1..], tail);
      ConcatAssociates([rs[0]], rs[1..], ReadAll(parse, tail));
      assert rs == [rs[0]] + rs[1..];
    }
  }

  /** Appending a record extends the log by its encoding. */
  lemma {:induction false} LogAppend<R>(encode: R -> Bytes, rs: seq<R>, r: R)
    ensures Log(encode, rs + [r]) == Log(encode, rs) + encode(r)
  {
    if rs == [] {
      assert [r][1..] == [];
    } else {
      assert (rs + [r])[1..] == rs[1..] + [r];
      LogAppend(encode, rs[1..], r);
    }
  }
}
