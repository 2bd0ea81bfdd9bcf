/** Base64 with the standard alphabet and '=' padding (section 4 of
    RFC 4648) as Python's `base64.b64encode` produces it, and the lenient
    decoder behind `base64.b64decode(s)` with its default `validate=False`:
    CPython 3.11+ `binascii.a2b_base64` in non-strict mode, which skips every
    byte outside the alphabet, stops at a completing pad sequence, and fails
    when the data characters leave an incomplete group. */
module Base64 {
  import opened Wrappers
  import opened Text

  const Pad: char := '='

  /** Characters `Encode` can produce. */
  predicate IsEncodingChar(c: char) {
    'A' <= c <= 'Z' || 'a' <= c <= 'z' || '0' <= c <= '9' || c == '+' || c == '/' || c == Pad
  }

  /** The alphabet character for a 6-bit value. */
  function EncodeSextet(v: int): (c: char)
    requires 0 <= v < 64
    ensures IsEncodingChar(c) && c != Pad
  {
    if v < 26 then ('A' as int + v) as char
    else if v < 52 then ('a' as int + v - 26) as char
    else if v < 62 then ('0' as int + v - 52) as char
    else if v == 62 then '+'
    else '/'
  }

  /** The 6-bit value of an input byte, or 64 for a byte outside the
      alphabet (the decoding table's "invalid" entries). */
  function DecodeSextet(b: byte): (v: int)
    ensures 0 <= v <= 64
  {
    if 'A' as int <= b <= 'Z' as int then b - 'A' as int
    else if 'a' as int <= b <= 'z' as int then b - 'a' as int + 26
    else if '0' as int <= b <= '9' as int then b - '0' as int + 52
    else if b == '+' as int then 62
    else if b == '/' as int then 63
    else 64
  }

  /** The four characters of a complete group of three bytes. */
  function EncodeGroup(b0: byte, b1: byte, b2: byte): (s: string)
    ensures |s| == 4 && forall i :: 0 <= i < 4 ==> IsEncodingChar(s[i]) && s[i] != Pad
  {
    [EncodeSextet(b0 / 4), EncodeSextet(b0 % 4 * 16 + b1 / 16),
     EncodeSextet(b1 % 16 * 4 + b2 / 64), EncodeSextet(b2 % 64)]
  }

  function Encode(b: seq<byte>): (s: string)
    ensures |s| == 4 * ((|b| + 2) / 3)
    ensures forall i :: 0 <= i < |s| ==> IsEncodingChar(s[i])
  {
    if |b| == 0 then ""
    else if |b| == 1 then
      [EncodeSextet(b[0] / 4), EncodeSextet(b[0] % 4 * 16), Pad, Pad]
    else if |b| == 2 then
      [EncodeSextet(b[0] / 4), EncodeSextet(b[0] % 4 * 16 + b[1] / 16), EncodeSextet(b[1] % 16 * 4), Pad]
    else
      assert (|b| + 2) / 3 == (|b[3..]| + 2) / 3 + 1;
      EncodeGroup(b[0], b[1], b[2]) + Encode(b[3..])
  }

  /** The decoder's state between input bytes: the position inside the
      current group of four, the bits carried over from the previous
      character, and the pad characters seen since the last data character. */
  datatype State = State(quadPos: int, left: int, pads: int)

  predicate ValidState(st: State) {
    && 0 <= st.quadPos < 4
    && 0 <= st.pads
    && (st.quadPos == 0 ==> st.left == 0)
    && (st.quadPos == 1 ==> st.left < 64)
    && (st.quadPos == 2 ==> st.left < 16)
    && (st.quadPos == 3 ==> st.left < 4)
    && 0 <= st.left
  }

  const Start := State(0, 0, 0)

  /** The loop of the lenient decoder; None is the `binascii.Error` it
      raises for an incomplete final group. */
  function Run(s: seq<byte>, st: State, acc: seq<byte>): Option<seq<byte>>
    requires ValidState(st)
    decreases |s|
  {
    if |s| == 0 then
      if st.quadPos == 0 then Some(acc) else None
    else if s[0] == Pad as int then
      if st.quadPos >= 2 && st.quadPos + st.pads + 1 >= 4 then Some(acc)
      else Run(s[1..], st.(pads := if st.quadPos >= 2 then st.pads + 1 else st.pads), acc)
    else
      var v := DecodeSextet(s[0]);
      if v == 64 then Run(s[1..], st, acc)
      else Run(s[1..], Next(st, v), acc + Emit(st, v))
  }

  /** The state after the data character with value `v`. */
  function Next(st: State, v: int): (st': State)
    requires ValidState(st) && 0 <= v < 64
    ensures ValidState(st')
  {
    if st.quadPos == 0 then State(1, v, 0)
    else if st.quadPos == 1 then State(2, v % 16, 0)
    else if st.quadPos == 2 then State(3, v % 4, 0)
    else State(0, 0, 0)
  }

  /** The byte completed by the data character with value `v`, if any. */
  function Emit(st: State, v: int): (out: seq<byte>)
    requires ValidState(st) && 0 <= v < 64
    ensures |out| == if st.quadPos == 0 then 0 else 1
  {
    if st.quadPos == 0 then []
    else if st.quadPos == 1 then [st.left * 4 + v / 16]
    else if st.quadPos == 2 then [st.left * 16 + v / 4]
    else [st.left * 64 + v]
  }

  function Decode(s: seq<byte>): Option<seq<byte>> {
    Run(s, Start, [])
  }

  /** The bytes of an ASCII string, as its UTF-8 encoding gives them. */
  function Codes(s: string): (b: seq<byte>)
    requires IsAscii(s)
    ensures |b| == |s|
    ensures forall i :: 0 <= i < |s| ==> b[i] == s[i] as int
  {
    seq(|s|, i requires 0 <= i < |s| => s[i] as int)
  }

  lemma SextetRoundTrip(v: int)
    requires 0 <= v < 64
    ensures DecodeSextet(EncodeSextet(v) as int) == v
  {
  }

  /** Every character of an encoding is ASCII and none is a dot. */
  lemma EncodeIsAscii(b: seq<byte>)
    ensures IsAscii(Encode(b))
    ensures '.' !in Encode(b)
  {
    var s := Encode(b);
    assert forall i :: 0 <= i < |s| ==> IsEncodingChar(s[i]);
  }

  /** The bit arithmetic of one group: the decoder's shifts and masks undo
      the encoder's. */
  lemma GroupArith(b0: byte, b1: byte, b2: byte)
    ensures b0 / 4 * 4 + (b0 % 4 * 16 + b1 / 16) / 16 == b0
    ensures (b0 % 4 * 16 + b1 / 16) % 16 == b1 / 16
    ensures b1 / 16 * 16 + (b1 % 16 * 4 + b2 / 64) / 4 == b1
    ensures (b1 % 16 * 4 + b2 / 64) % 4 == b2 / 64
    ensures b2 / 64 * 64 + b2 % 64 == b2
  {
  }

  /** One step of the decoder over an alphabet character. */
  lemma RunData(s: seq<byte>, st: State, acc: seq<byte>, v: int)
    requires ValidState(st) && 0 <= v < 64
    requires |s| > 0 && s[0] == EncodeSextet(v) as int
    ensures Run(s, st, acc) == Run(s[1..], Next(st, v), acc + Emit(st, v))
  {
    SextetRoundTrip(v);
  }

  /** The decoder's states and outputs across the four characters of a
      complete group. */
  lemma GroupSteps(b0: byte, b1: byte, b2: byte)
    ensures
      var v0, v1, v2, v3 := b0 / 4, b0 % 4 * 16 + b1 / 16, b1 % 16 * 4 + b2 / 64, b2 % 64;
      var st1 := Next(Start, v0);
      var st2 := Next(st1, v1);
      var st3 := Next(st2, v2);
      && Emit(Start, v0) == [] && Emit(st1, v1) == [b0] && Emit(st2, v2) == [b1] && Emit(st3, v3) == [b2]
      && Next(st3, v3) == Start
  {
    GroupArith(b0, b1, b2);
  }

  /** Decoding a complete encoded group appends its three bytes. */
  lemma RunGroup(b0: byte, b1: byte, b2: byte, rest: seq<byte>, acc: seq<byte>)
    ensures IsAscii(EncodeGroup(b0, b1, b2))
    ensures Run(Codes(EncodeGroup(b0, b1, b2)) + rest, Start, acc) == Run(rest, Start, acc + [b0, b1, b2])
  {
    var v0, v1, v2, v3 := b0 / 4, b0 % 4 * 16 + b1 / 16, b1 % 16 * 4 + b2 / 64, b2 % 64;
    var g := EncodeGroup(b0, b1, b2);
    var s0 := Codes(g) + rest;
    var s1, s2, s3 := s0[1..], s0[2..], s0[3..];
    assert s1[1..] == s2 && s2[1..] == s3 && s3[1..] == rest;
    assert s0[0] == EncodeSextet(v0) as int && s1[0] == EncodeSextet(v1) as int;
    assert s2[0] == EncodeSextet(v2) as int && s3[0] == EncodeSextet(v3) as int;
    GroupSteps(b0, b1, b2);
    var st1 := Next(Start, v0);
    var st2 := Next(st1, v1);
    var st3 := Next(st2, v2);
    RunData(s0, Start, acc, v0);
    assert acc + [] == acc;
    RunData(s1, st1, acc, v1);
    RunData(s2, st2, acc + [b0], v2);
    RunData(s3, st3, acc + [b0] + [b1], v3);
    assert acc + [b0] + [b1] + [b2] == acc + [b0, b1, b2];
  }

  /** A final group holding one byte ends at its second pad character. */
  lemma RunTail1(b: seq<byte>, acc: seq<byte>)
    requires |b| == 1
    ensures IsAscii(Encode(b))
    ensures Run(Codes(Encode(b)), Start, acc) == Some(acc + b)
  {
    EncodeIsAscii(b);
    var v0, v1 := b[0] / 4, b[0] % 4 * 16;
    GroupArith(b[0], 0, 0);
    var s0 := Codes(Encode(b));
    var s1, s2, s3 := s0[1..], s0[2..], s0[3..];
    assert s1[1..] == s2 && s2[1..] == s3;
    assert s0[0] == EncodeSextet(v0) as int && s1[0] == EncodeSextet(v1) as int;
    assert s2[0] == Pad as int && s3[0] == Pad as int;
    var st1 := Next(Start, v0);
    var st2 := Next(st1, v1);
    assert Emit(Start, v0) == [] && acc + [] == acc;
    assert Emit(st1, v1) == b;
    RunData(s0, Start, acc, v0);
    RunData(s1, st1, acc, v1);
    assert Run(s2, st2, acc + b) == Run(s3, st2.(pads := 1), acc + b);
  }

  /** A final group holding two bytes ends at its pad character. */
  lemma RunTail2(b: seq<byte>, acc: seq<byte>)
    requires |b| == 2
    ensures IsAscii(Encode(b))
    ensures Run(Codes(Encode(b)), Start, acc) == Some(acc + b)
  {
    EncodeIsAscii(b);
    var v0, v1, v2 := b[0] / 4, b[0] % 4 * 16 + b[1] / 16, b[1] % 16 * 4;
    GroupArith(b[0], b[1], 0);
    var s0 := Codes(Encode(b));
    var s1, s2, s3 := s0[1..], s0[2..], s0[3..];
    assert s1[1..] == s2 && s2[1..] == s3;
    assert s0[0] == EncodeSextet(v0) as int && s1[0] == EncodeSextet(v1) as int;
    assert s2[0] == EncodeSextet(v2) as int && s3[0] == Pad as int;
    var st1 := Next(Start, v0);
    var st2 := Next(st1, v1);
    var st3 := Next(st2, v2);
    assert Emit(Start, v0) == [] && acc + [] == acc;
    assert Emit(st1, v1) == [b[0]];
    assert Emit(st2, v2) == [b[1]];
    RunData(s0, Start, acc, v0);
    RunData(s1, st1, acc, v1);
    RunData(s2, st2, acc + [b[0]], v2);
    assert acc + [b[0]] + [b[1]] == acc + b;
  }

  /** `Codes` distributes over concatenation. */
  lemma CodesAppend(a: string, b: string)
    requires IsAscii(a) && IsAscii(b)
    ensures IsAscii(a + b) && Codes(a + b) == Codes(a) + Codes(b)
  {
  }

  /** One group of the induction: what the rest of the input decodes to
      after the first group, the whole input decodes to from the start. */
  lemma RunEncodeStep(b: seq<byte>, acc: seq<byte>)
    requires |b| >= 3
    requires IsAscii(Encode(b[3..]))
    requires Run(Codes(Encode(b[3..])), Start, acc + [b[0], b[1], b[2]]) == Some(acc + [b[0], b[1], b[2]] + b[3..])
    ensures IsAscii(Encode(b))
    ensures Run(Codes(Encode(b)), Start, acc) == Some(acc + b)
  {
    var g := EncodeGroup(b[0], b[1], b[2]);
    var tail := Encode(b[3..]);
    var head := [b[0], b[1], b[2]];
    assert Encode(b) == g + tail;
    RunGroup(b[0], b[1], b[2], Codes(tail), acc);
    CodesAppend(g, tail);
    assert Codes(Encode(b)) == Codes(g) + Codes(tail);
    assert b == head + b[3..];
    assert acc + head + b[3..] == acc + b;
  }

  /** Decoding the encoding of `b` after `acc` appends `b`. */
  lemma {:induction false} RunEncode(b: seq<byte>, acc: seq<byte>)
    ensures IsAscii(Encode(b))
    ensures Run(Codes(Encode(b)), Start, acc) == Some(acc + b)
    decreases |b|
  {
    if |b| == 0 {
      assert acc + b == acc;
    } else if |b| == 1 {
      RunTail1(b, acc);
    } else if |b| == 2 {
      RunTail2(b, acc);
    } else {
      RunEncode(b[3..], acc + [b[0], b[1], b[2]]);
      RunEncodeStep(b, acc);
    }
  }

  /** Decoding undoes encoding. */
  lemma DecodeEncode(b: seq<byte>)
    ensures IsAscii(Encode(b))
    ensures Decode(Codes(Encode(b))) == Some(b)
  {
    RunEncode(b, []);
    assert [] + b == b;
  }

  /** What makes the decoder lenient, on small inputs: bytes outside the
      alphabet are skipped ("Q\nQ=="), a completing pad sequence ends the
      input ("QQ==QUFB" is "A"), and an incomplete group raises ("QQ" and
      "A"). */
  lemma DecodeLenient()
    ensures Decode([81, 81, 61, 61]) == Some([65])
    ensures Decode([81, 10, 81, 61, 61]) == Some([65])
    ensures Decode([81, 81, 61, 61, 81, 85, 70, 66]) == Some([65])
    ensures Decode([81, 81]) == None
    ensures Decode([65]) == None
  {
    var q1 := State(1, 16, 0);
    var q2 := State(2, 0, 0);
    assert DecodeSextet(81) == 16 && DecodeSextet(10) == 64 && DecodeSextet(65) == 0;
    assert Emit(Start, 16) == [] && Next(Start, 16) == q1;
    assert Emit(q1, 16) == [65] && Next(q1, 16) == q2;
    var tail: seq<byte> := [61, 61];
    assert Run(tail, q2, [65]) == Some([65]) by {
      assert tail[1..] == [61];
    }
    var s1: seq<byte> := [81, 81, 61, 61];
    assert s1[1..] == [81] + tail && ([81] + tail)[1..] == tail;
    var t1: seq<byte> := [81] + tail;
    assert t1[0] == 81 && t1[1..] == tail;
    assert Run(t1, q1, []) == Run(tail, q2, [] + [65]);
    assert [] + [65] == [65];
    assert s1[0] == 81 && s1[1..] == t1;
    var none: seq<byte> := [];
    assert none + [] == none;
    assert Run(s1, Start, none) == Run(t1, q1, none + []);
    assert Decode(s1) == Some([65]);
    var s2: seq<byte> := [81, 10, 81, 61, 61];
    assert s2[1..] == [10, 81] + tail && ([10, 81] + tail)[1..] == [81] + tail;
    var s3: seq<byte> := [81, 81, 61, 61, 81, 85, 70, 66];
    assert s3[1..][1..] == [61, 61, 81, 85, 70, 66];
    assert Run([61, 61, 81, 85, 70, 66], q2, [65]) == Some([65]) by {
      assert [61, 61, 81, 85, 70, 66][1..] == [61, 81, 85, 70, 66];
    }
    var s4: seq<byte> := [81, 81];
    assert s4[1..] == [81] && s4[1..][1..] == [];
    var s5: seq<byte> := [65];
    assert s5[1..] == [];
  }
}
