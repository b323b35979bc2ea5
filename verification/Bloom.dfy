/** The Bloom filter of a table file: bits set in place by double hashing. */
module Blooms {
  import opened Common
  import opened Bitwise
  import opened Wire

  /** The two 64-bit hashes of a key come from a library. */
  datatype Hash = Hash(first: Key -> U64, second: Key -> U64)

  function Position(h: Hash, key: Key, i: nat, numBits: nat): nat
    requires numBits > 0
  {
    (h.first(key) + i * h.second(key)) % 0x1_0000_0000_0000_0000 % numBits
  }

  predicate BitAt(bits: seq<byte>, x: nat)
    requires x < 8 * |bits|
  {
    BitsOf(bits[x / 8], 8)[x % 8]
  }

  predicate MayHold(h: Hash, bits: seq<byte>, k: nat, key: Key)
    requires |bits| > 0
  {
    forall i :: 0 <= i < k ==> BitAt(bits, Position(h, key, i, 8 * |bits|))
  }

  function NumBits(expected: nat, bitsPerKey: nat): nat {
    var n := if expected * bitsPerKey < 64 then 64 else expected * bitsPerKey;
    (n + 7) / 8 * 8
  }

  function NumHashes(bitsPerKey: nat): (k: nat)
    ensures 1 <= k <= 30
  {
    var k := (bitsPerKey as real * 0.6931471805599453 + 0.5).Floor;
    if k < 1 then 1 else if k > 30 then 30 else k
  }

  /** The bits of a filter are the fewest whole bytes that give every key its share, and 64 at least. */
  lemma NumBitsIsLeast(expected: nat, bitsPerKey: nat)
    ensures var n := NumBits(expected, bitsPerKey); n % 8 == 0 && n >= 64 && n >= expected * bitsPerKey
    ensures forall m: nat :: m % 8 == 0 && m >= 64 && m >= expected * bitsPerKey ==> NumBits(expected, bitsPerKey) <= m
  {
    RoundedUp(if expected * bitsPerKey < 64 then 64 else expected * bitsPerKey);
  }

  lemma RoundedUp(n: nat)
    ensures var r := (n + 7) / 8 * 8; r % 8 == 0 && n <= r < n + 8
    ensures forall m: nat :: m % 8 == 0 && m >= n ==> (n + 7) / 8 * 8 <= m
  {
  }

  /** The number of hashes is the nearest to ln 2 times the bits per key, between 1 and 30: seven for ten. */
  lemma NumHashesIsNearest(bitsPerKey: nat)
    ensures 2 <= bitsPerKey <= 42 ==>
            -0.5 < NumHashes(bitsPerKey) as real - bitsPerKey as real * 0.6931471805599453 <= 0.5
    ensures NumHashes(10) == 7
  {
  }

  /** The positions of a key as a walk: from the first hash by steps of the second, in 64 bits. */
  function Walk(h: Hash, key: Key, i: nat): U64 {
    if i == 0 then h.first(key) else (Walk(h, key, i - 1) + h.second(key)) % 0x1_0000_0000_0000_0000
  }

  lemma PositionIsWalk(h: Hash, key: Key, i: nat, numBits: nat)
    requires numBits > 0
    ensures Position(h, key, i, numBits) == Walk(h, key, i) % numBits
  {
    WalkIs(h, key, i);
  }

  lemma {:induction false} WalkIs(h: Hash, key: Key, i: nat)
    ensures Walk(h, key, i) == (h.first(key) + i * h.second(key)) % 0x1_0000_0000_0000_0000
  {
    if i > 0 {
      WalkIs(h, key, i - 1);
      var a, d := h.first(key) + (i - 1) * h.second(key), h.second(key);
      OneMoreStep(i, d);
      WrappedSum(a, d);
    }
  }

  lemma OneMoreStep(i: nat, d: nat)
    requires i > 0
    ensures i * d == (i - 1) * d + d
  {
  }

  lemma WrappedSum(a: nat, d: nat)
    ensures (a % 0x1_0000_0000_0000_0000 + d) % 0x1_0000_0000_0000_0000 == (a + d) % 0x1_0000_0000_0000_0000
  {
  }

  /** The bits set are exactly the positions of these keys. */
  ghost predicate Marks(h: Hash, bits: seq<byte>, k: nat, keys: set<Key>) {
    |bits| > 0 && forall x: nat :: x < 8 * |bits| ==> (BitAt(bits, x) <==> Marked(h, k, keys, x, 8 * |bits|))
  }

  ghost predicate Marked(h: Hash, k: nat, keys: set<Key>, x: nat, numBits: nat)
    requires numBits > 0
  {
    exists key, i :: key in keys && 0 <= i < k && x == Position(h, key, i, numBits)
  }

  /** A filter answers yes exactly if every position of the key is one of some key
      added: always for a key that was added. */
  lemma AnswersExactly(h: Hash, bits: seq<byte>, k: nat, keys: set<Key>, key: Key)
    requires Marks(h, bits, k, keys)
    ensures MayHold(h, bits, k, key) <==>
            forall i :: 0 <= i < k ==> Marked(h, k, keys, Position(h, key, i, 8 * |bits|), 8 * |bits|)
    ensures key in keys ==> MayHold(h, bits, k, key)
  {
    forall i | 0 <= i < k
      ensures BitAt(bits, Position(h, key, i, 8 * |bits|)) <==>
              Marked(h, k, keys, Position(h, key, i, 8 * |bits|), 8 * |bits|)
    {
      assert Position(h, key, i, 8 * |bits|) < 8 * |bits|;
    }
  }

  lemma SetBitInByte(b: byte, j: nat, j': nat)
    requires j < 8 && j' < 8
    ensures BitsOf(SetBit(b, j), 8)[j'] <==> j' == j || BitsOf(b, 8)[j']
  {
    BitsBack(BitsOf(b, 8)[j := true]);
  }

  /** The byte with one more bit set. */
  function SetBit(b: byte, j: nat): byte
    requires j < 8
  {
    EightBits();
    IntOf(BitsOf(b, 8)[j := true])
  }

  lemma SetBitInBits(bits: seq<byte>, x: nat, y: nat)
    requires x < 8 * |bits| && y < 8 * |bits|
    ensures BitAt(bits[x / 8 := SetBit(bits[x / 8], x % 8)], y) <==> y == x || BitAt(bits, y)
  {
    SetBitInByte(bits[x / 8], x % 8, y % 8);
    if x / 8 == y / 8 { assert x % 8 == y % 8 <==> x == y; }
  }

  class BloomFilter {
    const hash: Hash
    var bits: array<byte>
    var numHashes: nat

    constructor (hash: Hash, expected: nat, bitsPerKey: nat)
      ensures this.hash == hash && fresh(bits) && 8 * bits.Length == NumBits(expected, bitsPerKey) >= 64
      ensures numHashes == NumHashes(bitsPerKey) && Marks(hash, bits[..], numHashes, {})
    {
      this.hash := hash;
      bits := new byte[NumBits(expected, bitsPerKey) / 8](_ => 0);
      numHashes := NumHashes(bitsPerKey);
      new;
      forall x: nat | x < 8 * bits.Length ensures !BitAt(bits[..], x) { ZeroBits(x % 8, 8); }
    }

    method Add(key: Key, ghost keys: set<Key>)
      requires bits.Length > 0 && Marks(hash, bits[..], numHashes, keys)
      modifies bits
      ensures Marks(hash, bits[..], numHashes, keys + {key})
    {
      ghost var was := bits[..];
      var numBits := 8 * bits.Length;
      var i := 0;
      while i < numHashes
        invariant 0 <= i <= numHashes
        invariant forall x: nat :: x < numBits ==>
                  (BitAt(bits[..], x) <==> BitAt(was, x) || HitBefore(hash, key, i, x, numBits))
      {
        var x := Position(hash, key, i, numBits);
        ghost var now := bits[..];
        bits[x / 8] := SetBit(bits[x / 8], x % 8);
        assert bits[..] == now[x / 8 := SetBit(now[x / 8], x % 8)];
        forall y: nat | y < numBits ensures BitAt(bits[..], y) <==> y == x || BitAt(now, y) { SetBitInBits(now, x, y); }
        i := i + 1;
      }
      forall x: nat | x < numBits ensures BitAt(bits[..], x) <==> Marked(hash, numHashes, keys + {key}, x, numBits) {
        MarkedMore(hash, numHashes, keys, key, x, numBits);
      }
    }

    method MayContain(key: Key) returns (r: bool)
      requires bits.Length > 0
      ensures r <==> MayHold(hash, bits[..], numHashes, key)
    {
      var i := 0;
      while i < numHashes
        invariant 0 <= i <= numHashes
        invariant forall j :: 0 <= j < i ==> BitAt(bits[..], Position(hash, key, j, 8 * bits.Length))
      {
        if !BitAt(bits[..], Position(hash, key, i, 8 * bits.Length)) { return false; }
        i := i + 1;
      }
      return true;
    }

    function Serialize(): Bytes
      reads this, bits
    {
      Le(numHashes, 4) + bits[..]
    }
  }

  ghost predicate HitBefore(h: Hash, key: Key, n: nat, x: nat, numBits: nat)
    requires numBits > 0
  {
    exists i :: 0 <= i < n && x == Position(h, key, i, numBits)
  }

  lemma MarkedMore(h: Hash, k: nat, keys: set<Key>, key: Key, x: nat, numBits: nat)
    requires numBits > 0
    ensures Marked(h, k, keys + {key}, x, numBits) <==>
            Marked(h, k, keys, x, numBits) || HitBefore(h, key, k, x, numBits)
  {
    if HitBefore(h, key, k, x, numBits) {
      var i :| 0 <= i < k && x == Position(h, key, i, numBits);
      assert key in keys + {key};
    }
    if Marked(h, k, keys, x, numBits) {
      var y, i :| y in keys && 0 <= i < k && x == Position(h, y, i, numBits);
      assert y in keys + {key};
    }
  }

  lemma {:induction false} ZeroBits(j: nat, k: nat)
    requires j < k
    ensures !BitsOf(0, k)[j]
  {
    if j > 0 { ZeroBits(j - 1, k - 1); }
  }

  /** deserialize: the hash count, then the bits. */
  function Deserialize(data: Bytes): Option<(nat, Bytes)> {
    if |data| < 4 then None else Some((FromLe(data[..4]), data[4..]))
  }

  lemma SerializedBack(k: nat, bits: Bytes)
    requires k < 0x1_0000_0000
    ensures Deserialize(Le(k, 4) + bits) == Some((k, bits))
  {
    Widths();
    LeRoundTrip(k, 4);
    var b := Le(k, 4) + bits;
    assert b[..4] == Le(k, 4) && b[4..] == bits;
  }
}
