/** Hexadecimal rendering of digests, as Python's `hexdigest()` produces
    it: two lowercase digits per byte, most significant nibble first. */
module Hex {
  import opened Text

  predicate IsLowerHexDigit(c: char) {
    '0' <= c <= '9' || 'a' <= c <= 'f'
  }

  predicate IsUpperHexDigit(c: char) {
    '0' <= c <= '9' || 'A' <= c <= 'F'
  }

  function Digit(v: int, upper: bool): (c: char)
    requires 0 <= v < 16
    ensures upper ==> IsUpperHexDigit(c)
    ensures !upper ==> IsLowerHexDigit(c)
  {
    if v < 10 then ('0' as int + v) as char
    else if upper then ('A' as int + v - 10) as char
    else ('a' as int + v - 10) as char
  }

  /** Two digits per byte, the high nibble first. */
  function Render(b: seq<byte>, upper: bool): (s: string)
    ensures |s| == 2 * |b|
    ensures forall i :: 0 <= i < |s| ==> if upper then IsUpperHexDigit(s[i]) else IsLowerHexDigit(s[i])
    ensures forall i :: 0 <= i < |b| ==>
      s[2 * i] == Digit(b[i] / 16, upper) && s[2 * i + 1] == Digit(b[i] % 16, upper)
  {
    seq(2 * |b|, k requires 0 <= k < 2 * |b| =>
      if k % 2 == 0 then Digit(b[k / 2] / 16, upper) else Digit(b[k / 2] % 16, upper))
  }

  /** `bytes.hex()` / `hexdigest()`: lowercase digits. */
  function Lower(b: seq<byte>): (s: string)
    ensures |s| == 2 * |b|
    ensures forall i :: 0 <= i < |s| ==> IsLowerHexDigit(s[i])
  {
    Render(b, false)
  }

  /** The same digits in uppercase, the form of the cookie tag. */
  function Upper(b: seq<byte>): (s: string)
    ensures |s| == 2 * |b|
    ensures forall i :: 0 <= i < |s| ==> IsUpperHexDigit(s[i])
  {
    Render(b, true)
  }

  /** Upper-casing one lowercase digit gives the uppercase digit. */
  lemma UpperDigit(v: int)
    requires 0 <= v < 16
    ensures UpperAscii([Digit(v, false)]) == [Digit(v, true)]
  {
  }

  /** `.upper()` on a lowercase hex digest gives the uppercase rendering. */
  lemma UpperOfLower(b: seq<byte>)
    ensures UpperAscii(Lower(b)) == Upper(b)
  {
    var l := Lower(b);
    var u := Upper(b);
    forall i | 0 <= i < |l|
      ensures UpperAscii(l)[i] == u[i]
    {
      var v := if i % 2 == 0 then b[i / 2] / 16 else b[i / 2] % 16;
      assert l[i] == Digit(v, false) && u[i] == Digit(v, true);
      UpperDigit(v);
      assert UpperAscii([l[i]])[0] == UpperAscii(l)[i];
    }
  }

  /** `.lower()` leaves a lowercase hex digest unchanged. */
  lemma LowerOfLower(b: seq<byte>)
    ensures LowerAscii(Lower(b)) == Lower(b)
  {
  }

  /** No hex digit is a dot. */
  lemma NoDot(b: seq<byte>, upper: bool)
    ensures '.' !in Render(b, upper)
  {
  }

  /** Hex renderings are ASCII. */
  lemma Ascii(b: seq<byte>, upper: bool)
    ensures IsAscii(Render(b, upper))
  {
  }
}
