/** The names of table files as strings. */
module FileNames {
  import opened Disks

  function Digit(d: nat): char
    requires d < 10
  {
    ['0', '1', '2', '3', '4', '5', '6', '7', '8', '9'][d]
  }

  function DigitValue(c: char): nat {
    if '0' <= c <= '9' then (c - '0') as nat else 0
  }

  function Decimal(n: nat): (s: string)
    ensures s != ""
  {
    if n < 10 then [Digit(n)] else Decimal(n / 10) + [Digit(n % 10)]
  }

  /** As printed by %06llu. */
  function Padded(n: nat): string {
    Pad(Decimal(n))
  }

  function Pad(s: string): string
    decreases 6 - |s|
  {
    if |s| >= 6 then s else Pad("0" + s)
  }

  function Value(s: string): nat {
    if s == "" then 0 else 10 * Value(s[..|s| - 1]) + DigitValue(s[|s| - 1])
  }

  function Text(f: FileName): string {
    match f
    case Sst(id) => "sst_" + Padded(id) + ".sst"
    case L1File(id) => "L1_" + Decimal(id) + ".sst"
    case L2File(id) => "L2_" + Decimal(id) + ".sst"
  }

  lemma {:induction false} DecimalBack(n: nat)
    ensures Value(Decimal(n)) == n
  {
    if n >= 10 {
      DecimalBack(n / 10);
      assert Decimal(n)[..|Decimal(n)| - 1] == Decimal(n / 10);
    } else {
      assert Decimal(n)[..0] == "";
    }
  }

  lemma {:induction false} LeadingZero(s: string)
    ensures Value("0" + s) == Value(s)
  {
    if s == "" {
      assert ("0" + s)[..0] == "";
    } else {
      assert ("0" + s)[..|s|] == "0" + s[..|s| - 1];
      LeadingZero(s[..|s| - 1]);
    }
  }

  lemma {:induction false} PadBack(s: string)
    ensures Value(Pad(s)) == Value(s)
    decreases 6 - |s|
  {
    if |s| < 6 {
      LeadingZero(s);
      PadBack("0" + s);
    }
  }

  lemma Middle(a: string, s: string, b: string)
    ensures (a + s + b)[|a|..|a + s + b| - |b|] == s
  {
  }

  /** Two table files never share a name, whatever their kind and number. */
  lemma TextInjective(f: FileName, g: FileName)
    requires Text(f) == Text(g)
    ensures f == g
  {
    Middle("sst_", Padded(f.id), ".sst");
    Middle("sst_", Padded(g.id), ".sst");
    Middle("L1_", Decimal(f.id), ".sst");
    Middle("L1_", Decimal(g.id), ".sst");
    Middle("L2_", Decimal(f.id), ".sst");
    Middle("L2_", Decimal(g.id), ".sst");
    PadBack(Decimal(f.id));
    PadBack(Decimal(g.id));
    DecimalBack(f.id);
    DecimalBack(g.id);
    assert Text(f)[0] == Text(g)[0] && Text(f)[1] == Text(g)[1];
  }

  /** A number is written in digits, without leading zeros. */
  lemma {:induction false} DecimalIsPlain(n: nat)
    ensures forall i :: 0 <= i < |Decimal(n)| ==> '0' <= Decimal(n)[i] <= '9'
    ensures n > 0 ==> Decimal(n)[0] != '0'
    ensures n == 0 ==> Decimal(n) == "0"
  {
    if n >= 10 { DecimalIsPlain(n / 10); }
  }

  /** Padding puts zeros in front, up to six places. */
  lemma {:induction false} PadIsZeros(s: string)
    ensures |Pad(s)| == (if |s| < 6 then 6 else |s|) && Pad(s)[|Pad(s)| - |s|..] == s
    ensures forall i :: 0 <= i < |Pad(s)| - |s| ==> Pad(s)[i] == '0'
    decreases 6 - |s|
  {
    if |s| < 6 {
      PadIsZeros("0" + s);
      var t := Pad("0" + s);
      assert t[6 - |s|..] == t[6 - |"0" + s|..][1..];
      assert t[6 - |s| - 1] == t[6 - |"0" + s|..][0];
    }
  }

  /** Names as they stand in a directory. */
  lemma NamesInDirectory()
    ensures Text(Sst(7)) == "sst_000007.sst" && Text(L1File(0)) == "L1_0.sst" && Text(L2File(5)) == "L2_5.sst"
  {
    PadIsZeros("7");
    assert Pad("7") == "000007";
  }
}
