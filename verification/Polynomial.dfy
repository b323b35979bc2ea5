/** What CRC-32 is, apart from how it is computed: section 8 of RFC 1952 takes it from ISO 3309,
    as the complement of a remainder of polynomials over the field of two elements. */
module Polynomials {
  import opened Common
  import opened Bitwise
  import opened Crc32

  /** The exponents whose coefficient is one. */
  type Poly = set<nat>

  function Plus(p: Poly, q: Poly): Poly { (p - q) + (q - p) }

  function Raised(p: Poly, n: nat): Poly { set e | e in p :: e + n }

  function Generator(): Poly { {32, 26, 23, 22, 16, 12, 11, 10, 8, 7, 5, 4, 2, 1, 0} }

  /** The generator times the polynomial with these coefficients, the highest first. */
  function Multiple(q: seq<bool>): Poly {
    if q == [] then {}
    else Plus(Raised(Multiple(q[..|q| - 1]), 1), if q[|q| - 1] then Generator() else {})
  }

  /** The n lowest exponents. */
  function Ones(n: nat): Poly { if n == 0 then {} else Ones(n - 1) + {n - 1} }

  lemma {:induction false} OnesAre(n: nat, e: nat)
    ensures e in Ones(n) <==> e < n
  {
    if n > 0 { OnesAre(n - 1, e); }
  }

  /** The message, each byte with its lowest bit first, and the first bit with the highest exponent. */
  function Message(data: Bytes): Poly {
    set i: nat | i < 8 * |data| && MessageBit(data, i) :: 8 * |data| - 1 - i
  }

  predicate MessageBit(data: Bytes, i: nat)
    requires i < 8 * |data|
  {
    data[i / 8] / Pow2(i % 8) % 2 == 1
  }

  /** A register as a remainder: its lowest bit has the highest exponent. */
  function Remainder(c: Word): Poly { set e: nat | e < 32 && Coefficient(c, e) :: e }

  predicate Coefficient(c: Word, e: nat)
    requires e < 32
  {
    Odd(Halves(c, 31 - e))
  }

  /** The complement of c is what the generator leaves of the message, moved up by 32 places and
      with its first 32 bits inverted. */
  ghost predicate IsCrc(data: Bytes, c: Word) {
    exists q: Bits :: |q| == 8 * |data| &&
      Plus(Multiple(q), Plus(Remainder(c), Ones(32))) ==
      Plus(Raised(Message(data), 32), Raised(Ones(32), 8 * |data|))
  }

  // ---- Registers and remainders ----

  lemma {:induction false} HalvesNext(c: Word, i: nat)
    ensures Halves(Half(c), i) == Halves(c, i + 1)
  {
    hide Half;
    if i > 0 { HalvesNext(c, i - 1); }
  }

  lemma {:induction false} HalvesXor(a: Word, b: Word, i: nat)
    ensures Halves(Xor(a, b), i) == Xor(Halves(a, i), Halves(b, i))
  {
    hide Half, Xor;
    if i > 0 {
      HalvesXor(a, b, i - 1);
      HalfXor(Halves(a, i - 1), Halves(b, i - 1));
    }
  }

  lemma SevenPlaces(c: Word)
    ensures Halves(c, 1) == c >> 1 && Halves(c, 2) == c >> 2 && Halves(c, 3) == c >> 3
    ensures Halves(c, 4) == c >> 4 && Halves(c, 5) == c >> 5 && Halves(c, 6) == c >> 6 && Halves(c, 7) == c >> 7
  {
    assert Halves(c, 1) == c >> 1;
    assert Halves(c, 2) == c >> 2;
    assert Halves(c, 3) == c >> 3;
    assert Halves(c, 4) == c >> 4;
    assert Halves(c, 5) == c >> 5;
    assert Halves(c, 6) == c >> 6;
  }

  lemma EightPlaces(c: Word)
    ensures Halves(c, 8) == High(c)
  {
    SevenPlaces(c);
  }

  lemma {:induction false} HalvesAdd(c: Word, m: nat, n: nat)
    ensures Halves(Halves(c, m), n) == Halves(c, m + n)
  {
    hide Half;
    if n > 0 { HalvesAdd(c, m, n - 1); }
  }

  lemma NothingLeft(c: Word)
    ensures Halves(c, 32) == 0
  {
    hide Halves, High;
    EightPlaces(c);
    EightPlaces(High(c));
    EightPlaces(High(High(c)));
    EightPlaces(High(High(High(c))));
    HalvesAdd(c, 8, 8);
    HalvesAdd(c, 16, 8);
    HalvesAdd(c, 24, 8);
    Assemble(c);
  }

  lemma GeneratorHalves(i: nat)
    requires i < 32
    ensures Odd(Halves(0xEDB8_8320, i)) <==> 31 - i in Generator()
  {
    if i < 16 { LowHalves(i); } else { HighHalves(i); }
  }

  lemma LowHalves(i: nat)
    requires i < 16
    ensures Odd(Halves(0xEDB8_8320, i)) <==> 31 - i in Generator()
  {
    assert Halves(0xEDB8_8320, 0) == 0xEDB8_8320 && Halves(0xEDB8_8320, 1) == 0x76DC_4190;
    assert Halves(0xEDB8_8320, 2) == 0x3B6E_20C8 && Halves(0xEDB8_8320, 3) == 0x1DB7_1064;
    assert Halves(0xEDB8_8320, 4) == 0xEDB_8832 && Halves(0xEDB8_8320, 5) == 0x76D_C419;
    assert Halves(0xEDB8_8320, 6) == 0x3B6_E20C && Halves(0xEDB8_8320, 7) == 0x1DB_7106;
    assert Halves(0xEDB8_8320, 8) == 0xED_B883 && Halves(0xEDB8_8320, 9) == 0x76_DC41;
    assert Halves(0xEDB8_8320, 10) == 0x3B_6E20 && Halves(0xEDB8_8320, 11) == 0x1D_B710;
    assert Halves(0xEDB8_8320, 12) == 0xE_DB88 && Halves(0xEDB8_8320, 13) == 0x7_6DC4;
    assert Halves(0xEDB8_8320, 14) == 0x3_B6E2 && Halves(0xEDB8_8320, 15) == 0x1_DB71;
  }

  lemma HighHalves(i: nat)
    requires 16 <= i < 32
    ensures Odd(Halves(0xEDB8_8320, i)) <==> 31 - i in Generator()
  {
    SixteenHalves();
    assert Halves(0xEDB8_8320, 16) == 0xEDB8 && Halves(0xEDB8_8320, 17) == 0x76DC;
    assert Halves(0xEDB8_8320, 18) == 0x3B6E && Halves(0xEDB8_8320, 19) == 0x1DB7;
    assert Halves(0xEDB8_8320, 20) == 0xEDB && Halves(0xEDB8_8320, 21) == 0x76D;
    assert Halves(0xEDB8_8320, 22) == 0x3B6 && Halves(0xEDB8_8320, 23) == 0x1DB;
    assert Halves(0xEDB8_8320, 24) == 0xED && Halves(0xEDB8_8320, 25) == 0x76;
    assert Halves(0xEDB8_8320, 26) == 0x3B && Halves(0xEDB8_8320, 27) == 0x1D;
    assert Halves(0xEDB8_8320, 28) == 0xE && Halves(0xEDB8_8320, 29) == 0x7;
    assert Halves(0xEDB8_8320, 30) == 0x3 && Halves(0xEDB8_8320, 31) == 0x1;
  }

  lemma SixteenHalves()
    ensures Halves(0xEDB8_8320, 16) == 0xEDB8
  {
    EightPlaces(0xEDB8_8320);
    EightPlaces(0xED_B883);
    HalvesAdd(0xEDB8_8320, 8, 8);
  }

  lemma OnesHalves(i: nat)
    requires i < 32
    ensures Odd(Halves(0xFFFF_FFFF, i))
  {
    assert Halves(0xFFFF_FFFF, 0) == 0xFFFF_FFFF && Halves(0xFFFF_FFFF, 1) == 0x7FFF_FFFF;
    assert Halves(0xFFFF_FFFF, 2) == 0x3FFF_FFFF && Halves(0xFFFF_FFFF, 3) == 0x1FFF_FFFF;
    assert Halves(0xFFFF_FFFF, 4) == 0xFFF_FFFF && Halves(0xFFFF_FFFF, 5) == 0x7FF_FFFF;
    assert Halves(0xFFFF_FFFF, 6) == 0x3FF_FFFF && Halves(0xFFFF_FFFF, 7) == 0x1FF_FFFF;
    assert Halves(0xFFFF_FFFF, 8) == 0xFF_FFFF && Halves(0xFFFF_FFFF, 9) == 0x7F_FFFF;
    assert Halves(0xFFFF_FFFF, 10) == 0x3F_FFFF && Halves(0xFFFF_FFFF, 11) == 0x1F_FFFF;
    assert Halves(0xFFFF_FFFF, 12) == 0xF_FFFF && Halves(0xFFFF_FFFF, 13) == 0x7_FFFF;
    assert Halves(0xFFFF_FFFF, 14) == 0x3_FFFF && Halves(0xFFFF_FFFF, 15) == 0x1_FFFF;
    assert Halves(0xFFFF_FFFF, 16) == 0xFFFF && Halves(0xFFFF_FFFF, 17) == 0x7FFF;
    assert Halves(0xFFFF_FFFF, 18) == 0x3FFF && Halves(0xFFFF_FFFF, 19) == 0x1FFF;
    assert Halves(0xFFFF_FFFF, 20) == 0xFFF && Halves(0xFFFF_FFFF, 21) == 0x7FF;
    assert Halves(0xFFFF_FFFF, 22) == 0x3FF && Halves(0xFFFF_FFFF, 23) == 0x1FF;
    assert Halves(0xFFFF_FFFF, 24) == 0xFF && Halves(0xFFFF_FFFF, 25) == 0x7F;
    assert Halves(0xFFFF_FFFF, 26) == 0x3F && Halves(0xFFFF_FFFF, 27) == 0x1F;
    assert Halves(0xFFFF_FFFF, 28) == 0xF && Halves(0xFFFF_FFFF, 29) == 0x7;
    assert Halves(0xFFFF_FFFF, 30) == 0x3 && Halves(0xFFFF_FFFF, 31) == 0x1;
  }

  lemma {:induction false} ZeroHalves(i: nat)
    ensures Halves(0, i) == 0
  {
    if i > 0 { ZeroHalves(i - 1); }
  }

  lemma OneHalves(i: nat)
    ensures Odd(Halves(1, i)) <==> i == 0
  {
    if i > 0 {
      HalvesNext(1, i - 1);
      ZeroHalves(i - 1);
    }
  }

  /** Registers with the same remainder are the same. */
  lemma SameRemainder(a: Word, b: Word)
    requires Remainder(a) == Remainder(b)
    ensures a == b
  {
    hide Xor, Half, Odd, Halves;
    var d := Xor(a, b);
    XorRemainder(a, b);
    forall i | 0 <= i < 32 ensures !Odd(Halves(d, i)) {
      assert !Coefficient(d, 31 - i) by { assert 31 - i !in Remainder(d); }
    }
    NothingLeft(d);
    EvenIsZero(d, 32);
    XorIsZero(a, b);
  }

  lemma XorIsZero(a: Word, b: Word)
    requires Xor(a, b) == 0
    ensures a == b
  {
  }

  lemma {:induction false} EvenIsZero(d: Word, n: nat)
    requires Halves(d, n) == 0 && forall i :: 0 <= i < n ==> !Odd(Halves(d, i))
    ensures d == 0
  {
    hide Half, Odd;
    if n > 0 {
      NoneLost(Halves(d, n - 1));
      EvenIsZero(d, n - 1);
    }
  }

  lemma NoneLost(c: Word)
    requires !Odd(c) && Half(c) == 0
    ensures c == 0
  {
  }

  lemma XorRemainder(a: Word, b: Word)
    ensures Remainder(Xor(a, b)) == Plus(Remainder(a), Remainder(b))
  {
    hide Xor, Odd, Halves;
    forall e: nat | e < 32 ensures Coefficient(Xor(a, b), e) <==> Coefficient(a, e) != Coefficient(b, e) {
      HalvesXor(a, b, 31 - e);
      HalfXor(Halves(a, 31 - e), Halves(b, 31 - e));
    }
  }

  lemma HalfRemainder(c: Word)
    ensures Remainder(Half(c)) == Raised(Remainder(c), 1) - {32}
    ensures 31 in Remainder(c) <==> Odd(c)
  {
    hide Half, Odd;
    assert Coefficient(c, 31) <==> Odd(c);
    forall e: nat ensures e in Remainder(Half(c)) <==> e in Raised(Remainder(c), 1) - {32} {
      RaisedAt(Remainder(c), 1, e);
      if e < 32 { HalfCoefficient(c, e); }
    }
  }

  lemma HalfCoefficient(c: Word, e: nat)
    requires e < 32
    ensures Coefficient(Half(c), e) <==> e > 0 && Coefficient(c, e - 1)
  {
    hide Half, Odd;
    NothingLeft(c);
    EvenZero();
    HalvesNext(c, 31 - e);
  }

  lemma RaisedAt(p: Poly, n: nat, e: nat)
    ensures e in Raised(p, n) <==> e >= n && e - n in p
  {
    if e >= n && e - n in p { assert e == (e - n) + n; }
  }

  lemma EvenZero()
    ensures !Odd(0)
  {
  }

  lemma ConstantRemainders()
    ensures Remainder(0xEDB8_8320) == Generator() - {32} && Remainder(0xFFFF_FFFF) == Ones(32)
    ensures Remainder(0) == {} && Remainder(1) == {31}
  {
    hide Halves, Odd, Generator;
    GeneratorExponents();
    forall e: nat
      ensures e in Remainder(0xEDB8_8320) <==> e in Generator() - {32}
      ensures e in Remainder(0xFFFF_FFFF) <==> e in Ones(32)
      ensures e !in Remainder(0) && (e in Remainder(1) <==> e == 31)
    {
      OnesAre(32, e);
      if e < 32 {
        GeneratorCoefficient(0xEDB8_8320, e);
        OtherCoefficients(0xFFFF_FFFF, 0, 1, e);
      }
    }
  }

  lemma GeneratorCoefficient(c: Word, e: nat)
    requires c == 0xEDB8_8320 && e < 32
    ensures Coefficient(c, e) <==> e in Generator()
  {
    GeneratorHalves(31 - e);
  }

  lemma OtherCoefficients(ones: Word, zero: Word, one: Word, e: nat)
    requires ones == 0xFFFF_FFFF && zero == 0 && one == 1 && e < 32
    ensures Coefficient(ones, e) && !Coefficient(zero, e) && (Coefficient(one, e) <==> e == 31)
  {
    OnesHalves(31 - e);
    ZeroHalves(31 - e);
    OneHalves(31 - e);
    EvenZero();
  }

  lemma GeneratorExponents()
    ensures 32 in Generator() && forall e :: e in Generator() ==> e <= 32
  {
  }

  /** A bit step multiplies by x and takes the generator off what that moves past the top. */
  lemma StepRemainder(c: Word)
    ensures Remainder(BitStep(c)) == Plus(Raised(Remainder(c), 1), if 31 in Remainder(c) then Generator() else {})
  {
    hide Xor, Half, Odd, Halves, Generator, Remainder;
    HalfRemainder(c);
    ConstantRemainders();
    GeneratorExponents();
    RemainderBelow(c);
    if Odd(c) { XorRemainder(Half(c), 0xEDB8_8320); }
  }

  lemma RemainderBelow(c: Word)
    ensures forall e :: e in Remainder(c) ==> e < 32
  {
  }

  // ---- Byte by byte is bit by bit ----

  function Serial(c: Word, bits: Bits): Word {
    if bits == [] then c
    else BitStep(Xor(Serial(c, bits[..|bits| - 1]), Bit(bits[|bits| - 1], 1)))
  }

  lemma {:induction false} SerialConcat(c: Word, a: Bits, b: Bits)
    ensures Serial(c, a + b) == Serial(Serial(c, a), b)
    decreases |b|
  {
    hide BitStep, Xor, Bit;
    if b == [] {
      assert a + b == a;
    } else {
      assert (a + b)[..|a + b| - 1] == a + b[..|b| - 1];
      SerialConcat(c, a, b[..|b| - 1]);
    }
  }

  /** The word with one bit set. */
  function Single(i: nat): Word {
    if i == 0 then 1 else Single(i - 1) << 1
  }

  lemma SingleSteps(i: nat)
    requires i < 8
    ensures Steps(Single(i), i) == 1
  {
    if i > 0 {
      Singles();
      assert BitStep(Single(i)) == Single(i - 1);
      StepsAdd(Single(i), 1, i - 1);
      assert Steps(Single(i), 1) == BitStep(Steps(Single(i), 0));
      SingleSteps(i - 1);
    }
  }

  lemma {:induction false} ZeroSteps(n: nat)
    ensures Steps(0, n) == 0
  {
    if n > 0 { ZeroSteps(n - 1); }
  }

  function PartWord(o: Bits): Word {
    if o == [] then 0 else Xor(PartWord(o[..|o| - 1]), Bit(o[|o| - 1], Single(|o| - 1)))
  }

  lemma {:induction false} PartSteps(c: Word, o: Bits)
    requires |o| <= 8
    ensures Steps(Xor(c, PartWord(o)), |o|) == Serial(c, o)
  {
    hide Xor, BitStep, Single;
    if o == [] {
      XorZero(c);
    } else {
      var n, f, w := |o| - 1, o[..|o| - 1], Bit(o[|o| - 1], Single(|o| - 1));
      XorRight(c, PartWord(f), w);
      StepsLinear(Xor(c, PartWord(f)), w, n);
      PartSteps(c, f);
      SingleSteps(n);
      ZeroSteps(n);
    }
  }

  lemma PartNext(o: Bits, i: nat)
    requires i < |o|
    ensures PartWord(o[..i + 1]) == Xor(PartWord(o[..i]), Bit(o[i], Single(i)))
  {
    assert o[..i + 1][..i] == o[..i];
  }

  lemma WholeWord(o: Bits)
    requires |o| == 8
    ensures PartWord(o) == WordOf(o)
  {
    hide Xor, Bit, PartWord, WordOf;
    assert o[..8] == o && o[..0] == [];
    forall i | 0 <= i < 8 ensures PartWord(o[..i + 1]) == Xor(PartWord(o[..i]), Bit(o[i], Single(i))) {
      PartNext(o, i);
    }
    NothingYet();
    Singles();
    hide Single;
    XorCommutes(0, Bit(o[0], 1));
    XorZero(Bit(o[0], 1));
    var two := Xor(Bit(o[0], 1), Bit(o[1], 2));
    assert PartWord(o[..1]) == Bit(o[0], 1) && PartWord(o[..2]) == two;
    assert PartWord(o[..3]) == Xor(two, Bit(o[2], 4));
    var four := Xor(Xor(two, Bit(o[2], 4)), Bit(o[3], 8));
    assert PartWord(o[..4]) == four && PartWord(o[..5]) == Xor(four, Bit(o[4], 16));
    var six := Xor(Xor(four, Bit(o[4], 16)), Bit(o[5], 32));
    assert PartWord(o[..6]) == six && PartWord(o[..7]) == Xor(six, Bit(o[6], 64));
    WordAsXor(o);
  }

  lemma WordAsXor(o: Bits)
    requires |o| == 8
    ensures WordOf(o) == XorAll(o[0], o[1], o[2], o[3], o[4], o[5], o[6], o[7])
  {
    NoCarry(o[0], o[1], o[2], o[3], o[4], o[5], o[6], o[7]);
  }

  function XorAll(b0: bool, b1: bool, b2: bool, b3: bool, b4: bool, b5: bool, b6: bool, b7: bool): Word {
    Xor(Xor(Xor(Xor(Xor(Xor(Xor(Bit(b0, 1), Bit(b1, 2)), Bit(b2, 4)), Bit(b3, 8)),
                    Bit(b4, 16)), Bit(b5, 32)), Bit(b6, 64)), Bit(b7, 128))
  }

  lemma NothingYet()
    ensures PartWord([]) == 0
  {
  }

  lemma Singles()
    ensures Single(0) == 1 && Single(1) == 2 && Single(2) == 4 && Single(3) == 8
    ensures Single(4) == 16 && Single(5) == 32 && Single(6) == 64 && Single(7) == 128
  {
  }

  lemma NoCarry(b0: bool, b1: bool, b2: bool, b3: bool, b4: bool, b5: bool, b6: bool, b7: bool)
    ensures Gather(b0, b1, b2, b3, b4, b5, b6, b7) == XorAll(b0, b1, b2, b3, b4, b5, b6, b7)
  {
    hide Xor, Or, Bit, FourLow;
    LowBits(b0, b1, b2, b3);
    HighBits(Or(Or(Or(Bit(b0, 1), Bit(b1, 2)), Bit(b2, 4)), Bit(b3, 8)), b4, b5, b6, b7);
  }

  /** Only the four lowest bits are used. */
  predicate FourLow(w: Word) { w & 0xFFFF_FFF0 == 0 }

  lemma LowBits(b0: bool, b1: bool, b2: bool, b3: bool)
    ensures Or(Or(Or(Bit(b0, 1), Bit(b1, 2)), Bit(b2, 4)), Bit(b3, 8)) ==
            Xor(Xor(Xor(Bit(b0, 1), Bit(b1, 2)), Bit(b2, 4)), Bit(b3, 8))
    ensures FourLow(Or(Or(Or(Bit(b0, 1), Bit(b1, 2)), Bit(b2, 4)), Bit(b3, 8)))
  {
  }

  lemma HighBits(low: Word, b4: bool, b5: bool, b6: bool, b7: bool)
    requires FourLow(low)
    ensures Or(Or(Or(Or(low, Bit(b4, 16)), Bit(b5, 32)), Bit(b6, 64)), Bit(b7, 128)) ==
            Xor(Xor(Xor(Xor(low, Bit(b4, 16)), Bit(b5, 32)), Bit(b6, 64)), Bit(b7, 128))
  {
  }

  function MessageBits(data: Bytes): Bits {
    seq(8 * |data|, i requires 0 <= i < 8 * |data| => MessageBit(data, i))
  }

  lemma FirstByte(b: byte, rest: Bytes)
    ensures MessageBits([b] + rest) == BitsOf(b, 8) + MessageBits(rest)
  {
    var data := [b] + rest;
    forall i | 0 <= i < 8 * |data| ensures MessageBits(data)[i] == (BitsOf(b, 8) + MessageBits(rest))[i] {
      if i < 8 {
        BitsOfAt(b, 8, i);
      } else {
        assert data[i / 8] == rest[(i - 8) / 8] && i % 8 == (i - 8) % 8;
      }
    }
  }

  lemma {:induction false} AdvanceIsSerial(c: Word, data: Bytes)
    ensures Advance(c, data) == Serial(c, MessageBits(data))
    decreases |data|
  {
    hide Xor, Steps, WordOf, BitsOf, PartWord;
    if data == [] {
      assert MessageBits(data) == [];
    } else {
      var b, rest := data[0], data[1..];
      assert data == [b] + rest;
      FirstByte(b, rest);
      PartSteps(c, BitsOf(b, 8));
      WholeWord(BitsOf(b, 8));
      SerialConcat(c, BitsOf(b, 8), MessageBits(rest));
      AdvanceIsSerial(Steps(Xor(c, ToWord(b)), 8), rest);
    }
  }

  // ---- Division ----

  /** The message of these bits, moved up by 32 places. */
  function Moved(bits: Bits): Poly {
    set i: nat | i < |bits| && bits[i] :: |bits| + 31 - i
  }

  lemma MovedAt(bits: Bits, e: nat)
    ensures e in Moved(bits) <==> 32 <= e < |bits| + 32 && bits[|bits| + 31 - e]
  {
    if 32 <= e < |bits| + 32 && bits[|bits| + 31 - e] {
      var i: nat := |bits| + 31 - e;
      assert i < |bits| && bits[i] && e == |bits| + 31 - i;
    }
  }

  lemma MovedNext(bits: Bits, b: bool)
    ensures Moved(bits + [b]) == Plus(Raised(Moved(bits), 1), if b then {32} else {})
  {
    forall e: nat ensures e in Moved(bits + [b]) <==> e in Plus(Raised(Moved(bits), 1), if b then {32} else {}) {
      MovedAt(bits + [b], e);
      RaisedAt(Moved(bits), 1, e);
      if e > 0 { MovedAt(bits, e - 1); }
    }
  }

  lemma MessageIsMoved(data: Bytes)
    ensures Raised(Message(data), 32) == Moved(MessageBits(data))
  {
    forall e: nat ensures e in Raised(Message(data), 32) <==> e in Moved(MessageBits(data)) {
      RaisedAt(Message(data), 32, e);
      MovedAt(MessageBits(data), e);
      if e >= 32 { MessageAt(data, e - 32); }
    }
  }

  lemma MessageAt(data: Bytes, e: nat)
    ensures e in Message(data) <==> e < 8 * |data| && MessageBit(data, 8 * |data| - 1 - e)
  {
    if e < 8 * |data| && MessageBit(data, 8 * |data| - 1 - e) {
      var i: nat := 8 * |data| - 1 - e;
      assert i < 8 * |data| && MessageBit(data, i) && e == 8 * |data| - 1 - i;
    }
  }

  /** What holds of the register after n bits: it is the remainder of those bits behind the start value. */
  ghost predicate Divided(c: Word, bits: Bits, q: Bits) {
    Plus(Multiple(q), Remainder(Serial(c, bits))) == Plus(Moved(bits), Raised(Remainder(c), |bits|))
  }

  lemma {:induction false} DivideSerially(c: Word, bits: Bits) returns (q: Bits)
    ensures |q| == |bits| && Divided(c, bits, q)
  {
    if bits == [] {
      q := [];
      forall e: nat { RaisedAt(Remainder(c), 0, e); }
    } else {
      var front, b := bits[..|bits| - 1], bits[|bits| - 1];
      assert bits == front + [b];
      var q' := DivideSerially(c, front);
      var d := Xor(Serial(c, front), Bit(b, 1));
      q := q' + [31 in Remainder(d)];
      DivideStep(c, front, b, q', q);
    }
  }

  lemma DivideStep(c: Word, front: Bits, b: bool, q': Bits, q: Bits)
    requires Divided(c, front, q') && q == q' + [31 in Remainder(Xor(Serial(c, front), Bit(b, 1)))]
    ensures Divided(c, front + [b], q)
  {
    hide Xor, BitStep, Remainder, Generator, Multiple, Moved, Raised, Plus, Bit;
    var s := Serial(c, front);
    var d := Xor(s, Bit(b, 1));
    var g := if 31 in Remainder(d) then Generator() else {};
    MultipleNext(q', 31 in Remainder(d));
    assert (front + [b])[..|front|] == front;
    XorRemainder(s, Bit(b, 1));
    BitRemainder(b);
    StepRemainder(d);
    MovedNext(front, b);
    RaisedTwice(Remainder(c), |front|);
    Cancel(Multiple(q'), Remainder(s), Remainder(d), Moved(front), Raised(Remainder(c), |front|), g, b);
  }

  lemma MultipleNext(q: Bits, b: bool)
    ensures Multiple(q + [b]) == Plus(Raised(Multiple(q), 1), if b then Generator() else {})
  {
    assert (q + [b])[..|q|] == q;
  }

  lemma BitRemainder(b: bool)
    ensures Remainder(Bit(b, 1)) == if b then {31} else {}
  {
    ConstantRemainders();
  }

  lemma RaisedTwice(p: Poly, n: nat)
    ensures Raised(Raised(p, n), 1) == Raised(p, n + 1)
  {
    forall e: nat ensures e in Raised(Raised(p, n), 1) <==> e in Raised(p, n + 1) {
      RaisedAt(Raised(p, n), 1, e);
      RaisedAt(p, n + 1, e);
      if e > 0 { RaisedAt(p, n, e - 1); }
    }
  }

  lemma Cancel(m: Poly, r: Poly, d: Poly, v: Poly, start: Poly, g: Poly, b: bool)
    requires Plus(m, r) == Plus(v, start) && d == Plus(r, if b then {31} else {})
    ensures Plus(Plus(Raised(m, 1), g), Plus(Raised(d, 1), g)) ==
            Plus(Plus(Raised(v, 1), if b then {32} else {}), Raised(start, 1))
  {
    forall e: nat
      ensures e in Plus(Plus(Raised(m, 1), g), Plus(Raised(d, 1), g)) <==>
              e in Plus(Plus(Raised(v, 1), if b then {32} else {}), Raised(start, 1))
    {
      RaisedAt(m, 1, e);
      RaisedAt(d, 1, e);
      RaisedAt(v, 1, e);
      RaisedAt(start, 1, e);
      if e > 0 { assert e - 1 in Plus(m, r) <==> e - 1 in Plus(v, start); }
    }
  }

  // ---- One remainder only ----

  lemma {:induction false} MultipleSum(p: Bits, q: Bits) returns (d: Bits)
    requires |p| == |q|
    ensures |d| == |p| && Multiple(d) == Plus(Multiple(p), Multiple(q))
  {
    if p == [] {
      d := [];
    } else {
      var n := |p| - 1;
      var front := MultipleSum(p[..n], q[..n]);
      d := front + [p[n] != q[n]];
      assert p == p[..n] + [p[n]] && q == q[..n] + [q[n]];
      MultipleNext(front, p[n] != q[n]);
      MultipleNext(p[..n], p[n]);
      MultipleNext(q[..n], q[n]);
      hide Generator, Multiple, Raised, Plus;
      GeneratorTwice();
      Cancelled(Multiple(p[..n]), Multiple(q[..n]), if p[n] then Generator() else {}, if q[n] then Generator() else {});
    }
  }

  lemma GeneratorTwice()
    ensures Plus(Generator(), Generator()) == {} && Plus(Generator(), {}) == Generator() == Plus({}, Generator())
    ensures Plus({}, {}) == {}
  {
  }

  lemma Cancelled(a: Poly, b: Poly, g: Poly, h: Poly)
    ensures Plus(Raised(Plus(a, b), 1), Plus(g, h)) == Plus(Plus(Raised(a, 1), g), Plus(Raised(b, 1), h))
  {
    forall e: nat
      ensures e in Plus(Raised(Plus(a, b), 1), Plus(g, h)) <==> e in Plus(Plus(Raised(a, 1), g), Plus(Raised(b, 1), h))
    {
      RaisedAt(Plus(a, b), 1, e);
      RaisedAt(a, 1, e);
      RaisedAt(b, 1, e);
    }
  }

  /** A multiple of the generator is nothing or reaches its degree. */
  lemma {:induction false} MultipleIsHigh(q: Bits)
    ensures Multiple(q) == {} || exists e :: e in Multiple(q) && e >= 32
  {
    if q != [] {
      hide Generator;
      var front := q[..|q| - 1];
      MultipleIsHigh(front);
      GeneratorExponents();
      if Multiple(front) == {} {
        assert Raised(Multiple(front), 1) == {};
      } else {
        var e :| e in Multiple(front) && e >= 32;
        RaisedAt(Multiple(front), 1, e + 1);
        assert e + 1 in Multiple(q);
      }
    }
  }

  lemma OneRemainder(p: Bits, q: Bits, a: Poly, b: Poly)
    requires |p| == |q| && Plus(Multiple(p), a) == Plus(Multiple(q), b)
    requires forall e :: e in a || e in b ==> e < 32
    ensures a == b
  {
    var d := MultipleSum(p, q);
    MultipleIsHigh(d);
    assert forall e :: e in Plus(Multiple(p), a) <==> e in Plus(Multiple(q), b);
    assert forall e :: e in Multiple(d) ==> e in a || e in b;
  }

  // ---- The theorem ----

  /** The table-driven checksum is the one word that the definition admits. */
  lemma CrcExactly(data: Bytes, c: Word)
    ensures IsCrc(data, c) <==> c == CrcOf(data)
  {
    hide Xor, Advance, Multiple, Remainder, Moved, Generator;
    var start: Word := 0xFFFF_FFFF;
    var bits, r := MessageBits(data), Advance(start, data);
    AdvanceIsSerial(start, data);
    var q := DivideSerially(start, bits);
    MessageIsMoved(data);
    ConstantRemainders();
    XorRemainder(r, start);
    Inverted(Remainder(r), Ones(32));
    assert IsCrc(data, CrcOf(data)) by { assert |q| == 8 * |data|; }
    if IsCrc(data, c) {
      var p: Bits :| |p| == 8 * |data| &&
        Plus(Multiple(p), Plus(Remainder(c), Ones(32))) ==
        Plus(Raised(Message(data), 32), Raised(Ones(32), 8 * |data|));
      RemainderBelow(c);
      RemainderBelow(r);
      forall e: nat { OnesAre(32, e); }
      OneRemainder(p, q, Plus(Remainder(c), Ones(32)), Remainder(r));
      Inverted(Remainder(c), Ones(32));
      SameRemainder(c, CrcOf(data));
    }
  }

  lemma Inverted(p: Poly, o: Poly)
    ensures Plus(Plus(p, o), o) == p
  {
  }

  // ---- The stored form ----

  lemma LowBitAt(c: Word, j: nat)
    requires j < 8
    ensures BitsIn(c)[j] <==> Odd(Halves(c, j))
  {
    hide BitsIn, Odd, Halves;
    SevenPlaces(c);
    LowBitsShifted(c);
    NoHalves(c);
  }

  lemma LowBitsShifted(c: Word)
    ensures BitsIn(c) ==
            [Odd(c), Odd(c >> 1), Odd(c >> 2), Odd(c >> 3), Odd(c >> 4), Odd(c >> 5), Odd(c >> 6), Odd(c >> 7)]
  {
  }

  lemma LowByteAt(c: Word, j: nat)
    requires j < 8
    ensures LowByte(c) / Pow2(j) % 2 == 1 <==> Odd(Halves(c, j))
  {
    hide BitsIn, Odd, Halves;
    BitsBack(BitsIn(c));
    EightBits();
    BitsOfAt(LowByte(c), 8, j);
    LowBitAt(c, j);
  }

  /** A stored CRC has its lowest byte first. */
  lemma StoredLowestFirst(c: Word, i: nat)
    requires i < 32
    ensures Stored(c)[i / 8] / Pow2(i % 8) % 2 == 1 <==> Coefficient(c, 31 - i)
  {
    hide LowByte, Odd, Halves, High;
    EightPlaces(c);
    EightPlaces(High(c));
    EightPlaces(High(High(c)));
    HalvesAdd(c, 8, 8);
    HalvesAdd(c, 16, 8);
    var m := i / 8;
    var w := if m == 0 then c else if m == 1 then High(c) else if m == 2 then High(High(c)) else High(High(High(c)));
    assert Stored(c)[m] == LowByte(w);
    LowByteAt(w, i % 8);
    assert w == Halves(c, 8 * m) by { NoHalves(c); }
    HalvesAdd(c, 8 * m, i % 8);
  }

  lemma NoHalves(c: Word)
    ensures Halves(c, 0) == c
  {
  }
}
