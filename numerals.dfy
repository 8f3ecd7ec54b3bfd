/** `Integer.toString` for the non-negative lengths that go into a header. */
module Numerals {
  import opened Bytes

  function DigitChar(d: nat): (c: char)
    requires d < 10
    ensures '0' <= c <= '9' && c as int - '0' as int == d
  {
    ('0' as int + d) as char
  }

  /** Decimal notation of `n`, most significant digit first, without leading zeros. */
  function Decimal(n: nat): (s: string)
    ensures |s| >= 1
    ensures forall i :: 0 <= i < |s| ==> '0' <= s[i] <= '9'
    ensures s[0] == '0' ==> n == 0
    ensures n == 0 ==> s == "0"
  {
    if n < 10 then [DigitChar(n)] else Decimal(n / 10) + [DigitChar(n % 10)]
  }

  lemma DecimalIsAscii(n: nat)
    ensures IsAscii(Decimal(n)) && AllDigits(Ascii(Decimal(n)))
  {
  }

  /** Reading back the printed digits gives the number printed. */
  lemma {:induction false} DecimalValue(n: nat)
    ensures IsAscii(Decimal(n)) && AllDigits(Ascii(Decimal(n)))
    ensures DigitsValue(Ascii(Decimal(n))) == n
  {
    DecimalIsAscii(n);
    if n >= 10 {
      var d := Decimal(n / 10);
      var c := [DigitChar(n % 10)];
      DecimalIsAscii(n / 10);
      AsciiAppend(d, c);
      var bs := Ascii(Decimal(n));
      assert bs == Ascii(d) + Ascii(c);
      assert bs[..|bs| - 1] == Ascii(d);
      DecimalValue(n / 10);
    }
  }
}
