/** UTF-8 as Python's `str.encode()` and strict `bytes.decode()` use it
    (section 3 of RFC 3629): every Unicode scalar value becomes one to four
    bytes, and decoding accepts exactly the well-formed byte sequences. */
module Utf8 {
  import opened Wrappers
  import opened Text

  predicate IsCont(b: byte) {
    0x80 <= b < 0xC0
  }

  /** The encoding of one scalar value: its bits in 6-bit groups, the
      leading byte marking the length. */
  function EncodeChar(c: char): (r: seq<byte>)
    ensures 1 <= |r| <= 4
    ensures |r| == 1 <==> c as int < 0x80
    ensures |r| == 1 ==> r[0] == c as int
  {
    var n := c as int;
    if n < 0x80 then [n]
    else if n < 0x800 then [0xC0 + n / 0x40, 0x80 + n % 0x40]
    else if n < 0x1_0000 then [0xE0 + n / 0x40 / 0x40, 0x80 + n / 0x40 % 0x40, 0x80 + n % 0x40]
    else [0xF0 + n / 0x40 / 0x40 / 0x40, 0x80 + n / 0x40 / 0x40 % 0x40, 0x80 + n / 0x40 % 0x40, 0x80 + n % 0x40]
  }

  function Encode(s: string): (r: seq<byte>)
    ensures |r| >= |s|
  {
    if |s| == 0 then [] else EncodeChar(s[0]) + Encode(s[1..])
  }

  /** The scalar value at the head of `b` and the number of bytes it takes,
      or None when the head is not a well-formed UTF-8 sequence. */
  function DecodeChar(b: seq<byte>): (r: Option<(char, nat)>)
    requires |b| > 0
    ensures r.Some? ==> 1 <= r.value.1 <= |b| && r.value.1 <= 4
  {
    var b0: int := b[0];
    if b0 < 0x80 then Some((b0 as char, 1))
    else if 0xC2 <= b0 < 0xE0 then
      if |b| >= 2 && IsCont(b[1]) then
        Some((((b0 - 0xC0) * 0x40 + (b[1] as int - 0x80)) as char, 2))
      else None
    else if 0xE0 <= b0 < 0xF0 then
      if |b| >= 3 && IsCont(b[1]) && IsCont(b[2]) then
        var n := ((b0 - 0xE0) * 0x40 + (b[1] as int - 0x80)) * 0x40 + (b[2] as int - 0x80);
        if 0x800 <= n && !(0xD800 <= n < 0xE000) then Some((n as char, 3)) else None
      else None
    else if 0xF0 <= b0 < 0xF5 then
      if |b| >= 4 && IsCont(b[1]) && IsCont(b[2]) && IsCont(b[3]) then
        var n := (((b0 - 0xF0) * 0x40 + (b[1] as int - 0x80)) * 0x40 + (b[2] as int - 0x80)) * 0x40 + (b[3] as int - 0x80);
        if 0x1_0000 <= n < 0x11_0000 then Some((n as char, 4)) else None
      else None
    else None
  }

  /** Strict decoding: None is the `UnicodeDecodeError` Python raises. */
  function Decode(b: seq<byte>): Option<string>
    decreases |b|
  {
    if |b| == 0 then Some([])
    else match DecodeChar(b)
      case None => None
      case Some((c, k)) =>
        match Decode(b[k..])
        case None => None
        case Some(rest) => Some([c] + rest)
  }

  /** One 6-bit digit split off the bottom of a number. */
  lemma SplitDigit(x: int, y: int)
    requires 0 <= y < 0x40
    ensures (x * 0x40 + y) / 0x40 == x && (x * 0x40 + y) % 0x40 == y
  {
  }

  lemma DecodeEncodeChar(c: char, rest: seq<byte>)
    ensures DecodeChar(EncodeChar(c) + rest) == Some((c, |EncodeChar(c)|))
  {
    var n := c as int;
    if n >= 0x80 {
      SplitDigit(n / 0x40, n % 0x40);
      SplitDigit(n / 0x40 / 0x40, n / 0x40 % 0x40);
      SplitDigit(n / 0x40 / 0x40 / 0x40, n / 0x40 / 0x40 % 0x40);
    }
  }

  lemma EncodeDecodeChar(b: seq<byte>)
    requires |b| > 0 && DecodeChar(b).Some?
    ensures EncodeChar(DecodeChar(b).value.0) == b[..DecodeChar(b).value.1]
  {
    var b0: int := b[0];
    if 0x80 <= b0 < 0xE0 {
      SplitDigit(b0 - 0xC0, b[1] as int - 0x80);
    } else if 0xE0 <= b0 < 0xF0 {
      var hi := (b0 - 0xE0) * 0x40 + (b[1] as int - 0x80);
      SplitDigit(hi, b[2] as int - 0x80);
      SplitDigit(b0 - 0xE0, b[1] as int - 0x80);
    } else if 0xF0 <= b0 {
      var top := (b0 - 0xF0) * 0x40 + (b[1] as int - 0x80);
      var hi := top * 0x40 + (b[2] as int - 0x80);
      SplitDigit(hi, b[3] as int - 0x80);
      SplitDigit(top, b[2] as int - 0x80);
      SplitDigit(b0 - 0xF0, b[1] as int - 0x80);
    }
  }

  /** Decoding undoes encoding. */
  lemma {:induction false} DecodeEncode(s: string)
    ensures Decode(Encode(s)) == Some(s)
  {
    if |s| > 0 {
      var e := EncodeChar(s[0]);
      DecodeEncodeChar(s[0], Encode(s[1..]));
      assert (e + Encode(s[1..]))[|e|..] == Encode(s[1..]);
      DecodeEncode(s[1..]);
      assert [s[0]] + s[1..] == s;
    }
  }

  /** Strict decoding accepts only canonical encodings: whatever it returns
      re-encodes to exactly the bytes it was given. */
  lemma {:induction false} EncodeDecode(b: seq<byte>)
    requires Decode(b).Some?
    ensures Encode(Decode(b).value) == b
    decreases |b|
  {
    if |b| > 0 {
      var c := DecodeChar(b).value.0;
      var k := DecodeChar(b).value.1;
      EncodeDecodeChar(b);
      EncodeDecode(b[k..]);
      var s := Decode(b).value;
      assert s[0] == c && s[1..] == Decode(b[k..]).value;
      assert b == b[..k] + b[k..];
    }
  }

  /** Decoding succeeds with `s` exactly on the encoding of `s`. */
  lemma DecodeIff(b: seq<byte>, s: string)
    ensures Decode(b) == Some(s) <==> Encode(s) == b
  {
    if Decode(b) == Some(s) {
      EncodeDecode(b);
    }
    if Encode(s) == b {
      DecodeEncode(s);
    }
  }

  /** An ASCII string encodes to its code points, one byte per character. */
  lemma {:induction false} EncodeAscii(s: string)
    requires IsAscii(s)
    ensures |Encode(s)| == |s|
    ensures forall i :: 0 <= i < |s| ==> Encode(s)[i] == s[i] as int
  {
    if |s| > 0 {
      EncodeAscii(s[1..]);
    }
  }

  /** Conformance on small inputs: a two-byte character, and the
      ill-formed sequences strict decoding refuses (section 3 of RFC 3629):
      a truncated sequence, an overlong form and an encoded surrogate. */
  lemma Conformance()
    ensures Encode("\U{e9}") == [0xC3, 0xA9]
    ensures Decode([0xC3, 0xA9]) == Some("\U{e9}")
    ensures Decode([0xC3]) == None
    ensures Decode([0xC0, 0x80]) == None
    ensures Decode([0xED, 0xA0, 0x80]) == None
  {
    var b: seq<byte> := [0xC3, 0xA9];
    assert DecodeChar(b) == Some(('\U{e9}', 2));
    assert b[2..] == [];
    assert Decode(b[2..]) == Some([]);
    assert ['\U{e9}'] + [] == "\U{e9}";
  }
}
