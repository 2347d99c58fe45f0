/** Decimal and hexadecimal text of integers and bytes, as both ends of the wire print and read it. */
module Text {
  import opened Bytes

  predicate IsBase(base: nat) {
    base == 10 || base == 16
  }

  function DigitChar(d: nat): char
    requires d < 16
  {
    if d < 10 then ('0' as int + d) as char else ('a' as int + d - 10) as char
  }

  predicate IsDigit(c: char, base: nat) {
    '0' <= c <= '9' || (base == 16 && 'a' <= c <= 'f')
  }

  function DigitValue(c: char): (d: nat)
    requires IsDigit(c, 16)
    ensures d < 16
  {
    if c <= '9' then c as int - '0' as int else c as int - 'a' as int + 10
  }

  predicate AllDigits(s: string, base: nat) {
    forall i :: 0 <= i < |s| ==> IsDigit(s[i], base)
  }

  predicate IsNumeral(s: string, base: nat) {
    s != [] && AllDigits(s, base)
  }

  /** The shortest numeral: no leading zero unless it is the only digit. */
  function Numeral(n: nat, base: nat): (s: string)
    requires IsBase(base)
    ensures s != []
  {
    if n < base then [DigitChar(n)] else Numeral(n / base, base) + [DigitChar(n % base)]
  }

  function NumeralValue(s: string, base: nat): nat
    requires IsBase(base) && AllDigits(s, base)
  {
    if s == [] then 0
    else
      assert IsDigit(s[|s| - 1], base);
      base * NumeralValue(s[..|s| - 1], base) + DigitValue(s[|s| - 1])
  }

  lemma {:induction false} NumeralRoundTrip(n: nat, base: nat)
    requires IsBase(base)
    ensures IsNumeral(Numeral(n, base), base)
    ensures NumeralValue(Numeral(n, base), base) == n
  {
    if n >= base {
      NumeralRoundTrip(n / base, base);
      var s := Numeral(n, base);
      assert s[..|s| - 1] == Numeral(n / base, base);
    } else {
      assert Numeral(n, base)[..0] == [];
    }
  }

  /** Python's `str(int)` and JavaScript's `toString`: a minus sign before the numeral of the magnitude. */
  function Decimal(v: int): string {
    if v < 0 then "-" + Numeral(-v, 10) else Numeral(v, 10)
  }

  /** The pattern `-?\d+`. */
  predicate IsDecimal(s: string) {
    IsNumeral(if s != [] && s[0] == '-' then s[1..] else s, 10)
  }

  /** `BigInt(s)` on such text; leading zeros and "-0" are read like any other digits. */
  function DecimalValue(s: string): int
    requires IsDecimal(s)
  {
    if s[0] == '-' then 0 - NumeralValue(s[1..], 10) else NumeralValue(s, 10)
  }

  lemma DecimalRoundTrip(v: int)
    ensures IsDecimal(Decimal(v)) && DecimalValue(Decimal(v)) == v
    ensures IsNumeral(Decimal(v), 10) <==> v >= 0
  {
    NumeralRoundTrip(if v < 0 then -v else v, 10);
    if v < 0 {
      assert Decimal(v)[0] == '-' && Decimal(v)[1..] == Numeral(-v, 10);
      assert !IsDigit(Decimal(v)[0], 10);
    } else {
      assert IsDigit(Decimal(v)[0], 10);
    }
  }

  /** The digits themselves: the last one stands for the remainder, and letters continue the figures. */
  lemma LastDigit(n: nat, base: nat)
    requires IsBase(base)
    ensures var s := Numeral(n, base);
            && s[|s| - 1] == "0123456789abcdef"[n % base]
            && s[..|s| - 1] == if n < base then "" else Numeral(n / base, base)
  {
    DigitIsFigure(n % base);
  }

  lemma DigitIsFigure(d: nat)
    requires d < 16
    ensures DigitChar(d) == "0123456789abcdef"[d]
  {
  }

  lemma SignOfDecimal(n: nat)
    requires n > 0
    ensures Decimal(n) == Numeral(n, 10) && Decimal(0 - n) == "-" + Decimal(n)
  {
  }

  // ---------- Bytes as hexadecimal ----------

  function HighDigit(b: Byte): char {
    DigitChar(b / 16)
  }

  function LowDigit(b: Byte): char {
    DigitChar(b % 16)
  }

  /** Python's `bytes.hex()`: two digits a byte. */
  function Hex(bs: seq<Byte>): (s: string)
    ensures |s| == 2 * |bs|
  {
    seq(2 * |bs|, i requires 0 <= i < 2 * |bs| => if i % 2 == 0 then HighDigit(bs[i / 2]) else LowDigit(bs[i / 2]))
  }

  /** The high half of a byte comes first. */
  lemma HexDigitsOf(bs: seq<Byte>, j: nat)
    requires j < |bs|
    ensures Hex(bs)[2 * j] == "0123456789abcdef"[bs[j] / 16]
    ensures Hex(bs)[2 * j + 1] == "0123456789abcdef"[bs[j] % 16]
  {
  }

  predicate IsLowerHex(s: string) {
    AllDigits(s, 16)
  }

  function PairValue(hi: char, lo: char): Byte
    requires IsDigit(hi, 16) && IsDigit(lo, 16)
  {
    16 * DigitValue(hi) + DigitValue(lo)
  }

  function HexBytes(s: string): (bs: seq<Byte>)
    requires IsLowerHex(s) && |s| % 2 == 0
    ensures |bs| == |s| / 2
  {
    seq(|s| / 2, j requires 0 <= j < |s| / 2 => PairValue(s[2 * j], s[2 * j + 1]))
  }

  lemma PairRoundTrip(b: Byte)
    ensures IsDigit(HighDigit(b), 16) && IsDigit(LowDigit(b), 16)
    ensures PairValue(HighDigit(b), LowDigit(b)) == b
  {
  }

  lemma HexRoundTrip(bs: seq<Byte>)
    ensures IsLowerHex(Hex(bs)) && HexBytes(Hex(bs)) == bs
  {
    hide HighDigit, LowDigit, PairValue, IsDigit;
    var s := Hex(bs);
    forall i | 0 <= i < |s|
      ensures IsDigit(s[i], 16)
    {
      PairRoundTrip(bs[i / 2]);
    }
    forall j | 0 <= j < |bs|
      ensures HexBytes(s)[j] == bs[j]
    {
      PairRoundTrip(bs[j]);
      assert s[2 * j] == HighDigit(bs[j]) && s[2 * j + 1] == LowDigit(bs[j]);
    }
  }
}
