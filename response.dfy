/**
 * The Response Builder: `craftHeader` and `concat` of RequestAgent, and a
 * reader for the header layout they produce, used to state that the framing
 * is exact.
 */
module Response {
  import opened Wrappers
  import opened Text
  import opened Bytes
  import opened Numerals

  /** Status text of the three branches. The not-found and not-implemented
      ones deliberately repeat the success text, so that browsers show the
      fallback page. */
  const HeaderOk: string := "HTTP/1.0 200 OK\n "
  const Header401: string := "HTTP/1.0 200 OK\n "
  const Header501: string := "HTTP/1.0 200 OK\n "

  /** All three status texts are the same ASCII text. */
  lemma StatusTexts()
    ensures Header401 == HeaderOk && Header501 == HeaderOk && IsAscii(HeaderOk)
  {
  }

  /** The one content type the server ever announces. */
  const HeaderHtml: string := "text/html; charset=utf-8\n"

  const LengthField: string := " \n Content-length: "
  const HeaderEnd: string := " \n\n"

  /** The fixed header text between the status text and the declared length. */
  const Middle: string := HeaderHtml + LengthField

  lemma FixedTextIsAscii()
    ensures IsAscii(Middle) && IsAscii(HeaderEnd)
  {
  }

  /**
   * `craftHeader(code, type, length)`: the status text, the fixed content
   * type, the declared length in decimal, and a blank line. The `contentType`
   * argument is ignored.
   */
  function CraftHeader(code: string, contentType: string, length: nat): (r: string)
    ensures StartsWith(r, code + Middle)
    ensures EndsWith(r, "\n\n")
    ensures IsAscii(code) ==> IsAscii(r)
  {
    var r := code + Middle + Decimal(length) + HeaderEnd;
    assert r[..|code + Middle|] == code + Middle;
    assert IsAscii(code) ==> IsAscii(r) by {
      if IsAscii(code) {
        FixedTextIsAscii();
        DecimalIsAscii(length);
        IsAsciiAppend(code, Middle);
        IsAsciiAppend(code + Middle, Decimal(length));
        IsAsciiAppend(code + Middle + Decimal(length), HeaderEnd);
      }
    }
    r
  }

  /** The header does not depend on the content type it is given. */
  lemma CraftHeaderIgnoresType(code: string, t1: string, t2: string, length: nat)
    ensures CraftHeader(code, t1, length) == CraftHeader(code, t2, length)
  {
  }

  /** `concat(a, b)`: `a` followed by `b`, with nothing between. */
  function Concat(a: seq<byte>, b: seq<byte>): (r: seq<byte>)
    ensures |r| == |a| + |b|
    ensures r[..|a|] == a && r[|a|..] == b
  {
    a + b
  }

  /** The bytes one branch writes: the UTF-8 header for `body`'s length, then `body`. */
  function Frame(code: string, body: seq<byte>): seq<byte>
    requires IsAscii(code)
  {
    Concat(Ascii(CraftHeader(code, HeaderHtml, |body|)), body)
  }

  /** What a reader of a framed response learns: the declared length and the body after the header. */
  datatype Framed = Framed(declared: nat, body: seq<byte>)

  /**
   * Reads a response laid out as `CraftHeader` lays it out: the status text
   * `code` and the fixed text, one or more digits, then the end of the
   * header; everything after that is the body.
   */
  function ParseFrame(code: string, w: seq<byte>): Option<Framed>
    requires IsAscii(code)
  {
    FixedTextIsAscii();
    IsAsciiAppend(code, Middle);
    ParseAfter(Ascii(code + Middle), Ascii(HeaderEnd), w)
  }

  /** Reads `lead`, a decimal number, `end`, and returns the number and the remaining bytes. */
  function ParseAfter(lead: seq<byte>, end: seq<byte>, w: seq<byte>): Option<Framed> {
    if |w| < |lead| || w[..|lead|] != lead then None
    else
      var rest := w[|lead|..];
      var k := DigitRun(rest);
      var tail := rest[k..];
      if k == 0 || |tail| < |end| || tail[..|end|] != end then None
      else Some(Framed(DigitsValue(rest[..k]), tail[|end|..]))
  }

  lemma ParseAfterDigits(lead: seq<byte>, digits: seq<byte>, end: seq<byte>, body: seq<byte>)
    requires digits != [] && AllDigits(digits)
    requires end != [] && !IsDigit(end[0])
    ensures ParseAfter(lead, end, lead + digits + end + body) == Some(Framed(DigitsValue(digits), body))
  {
    var w := lead + digits + end + body;
    assert w[..|lead|] == lead;
    var rest := w[|lead|..];
    assert rest == digits + (end + body);
    DigitRunStops(digits, end + body);
    assert rest[..|digits|] == digits;
    assert rest[|digits|..] == end + body;
  }

  lemma FrameLayout(code: string, body: seq<byte>)
    requires IsAscii(code)
    ensures IsAscii(code + Middle) && IsAscii(Decimal(|body|)) && IsAscii(HeaderEnd)
    ensures Frame(code, body) == Ascii(code + Middle) + Ascii(Decimal(|body|)) + Ascii(HeaderEnd) + body
  {
    var n := |body|;
    FixedTextIsAscii();
    DecimalIsAscii(n);
    AsciiAppend(code, Middle);
    AsciiAppend(code + Middle, Decimal(n));
    AsciiAppend(code + Middle + Decimal(n), HeaderEnd);
  }

  /**
   * Framing is exact: reading back what `Frame` writes yields a declared
   * length equal to the number of body bytes, and exactly those bytes.
   */
  lemma {:induction false} FrameRoundTrip(code: string, body: seq<byte>)
    requires IsAscii(code)
    ensures ParseFrame(code, Frame(code, body)) == Some(Framed(|body|, body))
  {
    FrameLayout(code, body);
    DecimalValue(|body|);
    assert Ascii(HeaderEnd)[0] == 32;
    ParseAfterDigits(Ascii(code + Middle), Ascii(Decimal(|body|)), Ascii(HeaderEnd), body);
  }
}
