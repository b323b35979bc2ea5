/** Bytes as bits, lowest first. */
module Bitwise {
  import opened Common

  type Bits = seq<bool>

  function Pow2(k: nat): (n: nat)
    ensures n > 0
  {
    if k == 0 then 1 else 2 * Pow2(k - 1)
  }

  function BitsOf(n: nat, k: nat): (o: Bits)
    ensures |o| == k
  {
    if k == 0 then [] else [n % 2 == 1] + BitsOf(n / 2, k - 1)
  }

  function IntOf(o: Bits): (n: nat)
    ensures n < Pow2(|o|)
  {
    if o == [] then 0 else (if o[0] then 1 else 0) + 2 * IntOf(o[1..])
  }

  lemma EightBits()
    ensures Pow2(8) == 256
  {
    assert Pow2(4) == 16;
  }

  /** Bit j of a number is its digit of weight two to the j. */
  lemma {:induction false} BitsOfAt(n: nat, k: nat, j: nat)
    requires j < k
    ensures BitsOf(n, k)[j] <==> n / Pow2(j) % 2 == 1
  {
    if j > 0 {
      BitsOfAt(n / 2, k - 1, j - 1);
      DividedTwice(n, 2, Pow2(j - 1));
    }
  }

  lemma DividedTwice(n: nat, a: nat, d: nat)
    requires a > 0 && d > 0 && a * d > 0
    ensures n / a / d == n / (a * d)
  {
    var x, y := n / a, n / a / d;
    var r, t := n % a, x % d;
    assert n == a * x + r && x == d * y + t;
    TimesMore(a, t, d);
    assert a * (d * y + t) == (a * d) * y + a * t;
    Quotient(a * d, y, a * t + r);
  }

  lemma Quotient(d: nat, q: nat, r: nat)
    requires r < d
    ensures (d * q + r) / d == q
  {
    var x, p := d * q + r, (d * q + r) / d;
    assert x == d * p + x % d;
    if p > q { TimesMore(d, q, p); }
    if p < q { TimesMore(d, p, q); }
  }

  lemma {:induction false} TimesMore(d: nat, p: nat, q: nat)
    requires p < q
    ensures d * p + d <= d * q
    decreases q
  {
    assert d * q == d * (q - 1) + d;
    if p < q - 1 { TimesMore(d, p, q - 1); }
  }

  lemma {:induction false} IntBack(n: nat, k: nat)
    requires n < Pow2(k)
    ensures IntOf(BitsOf(n, k)) == n
  {
    if k > 0 {
      IntBack(n / 2, k - 1);
      assert BitsOf(n, k)[1..] == BitsOf(n / 2, k - 1);
    }
  }

  lemma {:induction false} BitsBack(o: Bits)
    ensures BitsOf(IntOf(o), |o|) == o
  {
    if o != [] { BitsBack(o[1..]); }
  }
}
