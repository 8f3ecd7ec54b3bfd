/** Bytes, the ASCII subset of UTF-8, and decimal digits read back from bytes. */
module Bytes {

  type byte = b: int | 0 <= b < 256

  predicate IsAscii(s: string) {
    forall i :: 0 <= i < |s| ==> s[i] as int < 128
  }

  /** `s.getBytes(UTF_8)` for text that is pure ASCII: one byte per character. */
  function Ascii(s: string): (r: seq<byte>)
    requires IsAscii(s)
    ensures |r| == |s|
    ensures forall i :: 0 <= i < |s| ==> r[i] == s[i] as int
  {
    seq(|s|, i requires 0 <= i < |s| => s[i] as int as byte)
  }

  lemma IsAsciiAppend(a: string, b: string)
    requires IsAscii(a) && IsAscii(b)
    ensures IsAscii(a + b)
  {
    forall i | 0 <= i < |a + b| ensures (a + b)[i] as int < 128 {
      if i < |a| { assert (a + b)[i] == a[i]; } else { assert (a + b)[i] == b[i - |a|]; }
    }
  }

  lemma AsciiAppend(a: string, b: string)
    requires IsAscii(a) && IsAscii(b)
    ensures IsAscii(a + b) && Ascii(a + b) == Ascii(a) + Ascii(b)
  {
    IsAsciiAppend(a, b);
  }

  /** The bytes '0' to '9'. */
  predicate IsDigit(b: byte) {
    48 <= b <= 57
  }

  predicate AllDigits(bs: seq<byte>) {
    forall i :: 0 <= i < |bs| ==> IsDigit(bs[i])
  }

  /** Length of the run of digit bytes that starts `bs`. */
  function DigitRun(bs: seq<byte>): (k: nat)
    ensures k <= |bs|
    ensures AllDigits(bs[..k])
    ensures k < |bs| ==> !IsDigit(bs[k])
  {
    if bs == [] || !IsDigit(bs[0]) then 0
    else
      var k := 1 + DigitRun(bs[1..]);
      assert bs[..k] == [bs[0]] + bs[1..][..k - 1];
      k
  }

  /** The number a run of decimal digits denotes, most significant digit first. */
  function DigitsValue(ds: seq<byte>): nat
    requires AllDigits(ds)
  {
    if ds == [] then 0 else DigitsValue(ds[..|ds| - 1]) * 10 + (ds[|ds| - 1] - 48)
  }

  /** A digit run followed by a non-digit ends exactly where the digits end. */
  lemma {:induction false} DigitRunStops(ds: seq<byte>, rest: seq<byte>)
    requires AllDigits(ds)
    requires rest != [] && !IsDigit(rest[0])
    ensures DigitRun(ds + rest) == |ds|
    decreases |ds|
  {
    if ds == [] {
      assert ds + rest == rest;
    } else {
      assert (ds + rest)[1..] == ds[1..] + rest;
      DigitRunStops(ds[1..], rest);
    }
  }
}
