/** UTF-8 as the standard library decodes it: every well-formed sequence, and only those. */
module Utf8 {
  import opened Bytes

  predicate IsScalar(v: int) { 0 <= v < 0xD800 || 0xE000 <= v < 0x11_0000 }

  type Scalar = v: int | 0 <= v < 0xD800 || 0xE000 <= v < 0x11_0000

  /** Everything above the low six bits, and the low six bits. */
  function SixBits(v: nat): (r: (nat, nat))
    ensures v == r.0 * 0x40 + r.1 && r.1 < 0x40
  {
    (v / 0x40, v % 0x40)
  }

  lemma SixBitsUnique(h: nat, l: nat)
    requires l < 0x40
    ensures SixBits(h * 0x40 + l) == (h, l)
  {}

  function EncodeScalar(v: Scalar): (b: seq<Byte>)
    ensures 1 <= |b| <= 4
  {
    var (h1, l1) := SixBits(v);
    var (h2, l2) := SixBits(h1);
    var (h3, l3) := SixBits(h2);
    if v < 0x80 then [v]
    else if v < 0x800 then [0xC0 + h1, 0x80 + l1]
    else if v < 0x1_0000 then [0xE0 + h2, 0x80 + l2, 0x80 + l1]
    else [0xF0 + h3, 0x80 + l3, 0x80 + l2, 0x80 + l1]
  }

  function EncodeChar(c: char): seq<Byte> { EncodeScalar(c as int) }

  function Encode(s: string): seq<Byte> {
    if s == "" then [] else EncodeChar(s[0]) + Encode(s[1..])
  }

  /** Number of bytes of the encoded text. */
  function Length(s: string): nat { |Encode(s)| }

  predicate Continues(b: Byte) { 0x80 <= b < 0xC0 }

  /** `high` shifted left by the six payload bits of a continuation byte. */
  function Push(high: int, b: Byte): int { high * 0x40 + (b as int - 0x80) }

  /** The scalar at the front of `b` and its length; overlong forms, surrogates and values past U+10FFFF are refused. */
  function DecodeScalar(b: seq<Byte>): (r: Option<(Scalar, nat)>)
    ensures r.Some? ==> 1 <= r.value.1 <= |b|
  {
    if b == [] then None
    else if b[0] < 0x80 then Some((b[0], 1))
    else if 0xC2 <= b[0] < 0xE0 && |b| >= 2 && Continues(b[1]) then
      Some((Push(b[0] as int - 0xC0, b[1]), 2))
    else if 0xE0 <= b[0] < 0xF0 && |b| >= 3 && Continues(b[1]) && Continues(b[2]) then
      var v := Push(Push(b[0] as int - 0xE0, b[1]), b[2]);
      if v >= 0x800 && IsScalar(v) then Some((v, 3)) else None
    else if 0xF0 <= b[0] < 0xF5 && |b| >= 4 && Continues(b[1]) && Continues(b[2]) && Continues(b[3]) then
      var v := Push(Push(Push(b[0] as int - 0xF0, b[1]), b[2]), b[3]);
      if v >= 0x1_0000 && IsScalar(v) then Some((v, 4)) else None
    else None
  }

  function DecodeChar(b: seq<Byte>): (r: Option<(char, nat)>)
    ensures r.Some? ==> 1 <= r.value.1 <= |b|
  {
    var v := DecodeScalar(b);
    if v == None then None else Some((v.value.0 as char, v.value.1))
  }

  function Decode(b: seq<Byte>): Option<string> {
    if b == [] then Some("")
    else
      var c := DecodeChar(b);
      if c == None then None
      else
        var rest := Decode(b[c.value.1..]);
        if rest == None then None else Some([c.value.0] + rest.value)
  }

  lemma DecodeEncodedScalar(v: Scalar, rest: seq<Byte>)
    ensures DecodeScalar(EncodeScalar(v) + rest) == Some((v, |EncodeScalar(v)|))
  {}

  lemma EncodeDecodedScalar(b: seq<Byte>)
    requires DecodeScalar(b).Some?
    ensures EncodeScalar(DecodeScalar(b).value.0) == b[..DecodeScalar(b).value.1]
  {
    var (v, n) := DecodeScalar(b).value;
    if n == 2 {
      EncodePair(v, b[0], b[1]);
      assert b[..2] == [b[0], b[1]];
    } else if n == 3 {
      EncodeTriple(v, b[0], b[1], b[2]);
      assert b[..3] == [b[0], b[1], b[2]];
    } else if n == 4 {
      EncodeQuad(v, b[0], b[1], b[2], b[3]);
      assert b[..4] == [b[0], b[1], b[2], b[3]];
    }
  }

  lemma EncodePair(v: Scalar, b0: Byte, b1: Byte)
    requires Continues(b1) && v == Push(b0 - 0xC0, b1) && 0x80 <= v < 0x800
    ensures EncodeScalar(v) == [b0, b1]
  {
    SixBitsUnique(b0 - 0xC0, b1 - 0x80);
  }

  lemma EncodeTriple(v: Scalar, b0: Byte, b1: Byte, b2: Byte)
    requires b0 >= 0xE0 && Continues(b1) && Continues(b2) && v == Push(Push(b0 - 0xE0, b1), b2) && 0x800 <= v < 0x1_0000
    ensures EncodeScalar(v) == [b0, b1, b2]
  {
    SixBitsUnique(Push(b0 - 0xE0, b1), b2 - 0x80);
    SixBitsUnique(b0 - 0xE0, b1 - 0x80);
  }

  lemma EncodeQuad(v: Scalar, b0: Byte, b1: Byte, b2: Byte, b3: Byte)
    requires b0 >= 0xF0 && Continues(b1) && Continues(b2) && Continues(b3)
    requires v == Push(Push(Push(b0 - 0xF0, b1), b2), b3) && v >= 0x1_0000
    ensures EncodeScalar(v) == [b0, b1, b2, b3]
  {
    SixBitsUnique(Push(Push(b0 - 0xF0, b1), b2), b3 - 0x80);
    SixBitsUnique(Push(b0 - 0xF0, b1), b2 - 0x80);
    SixBitsUnique(b0 - 0xF0, b1 - 0x80);
  }

  /** Decoding undoes encoding. */
  lemma {:induction false} DecodeEncode(s: string)
    ensures Decode(Encode(s)) == Some(s)
  {
    if s != "" {
      DecodeEncodedScalar(s[0] as int, Encode(s[1..]));
      DecodeEncode(s[1..]);
      assert Encode(s)[|EncodeChar(s[0])|..] == Encode(s[1..]);
      assert [s[0]] + s[1..] == s;
    }
  }

  lemma EncodeDecodedChar(b: seq<Byte>)
    requires DecodeChar(b).Some?
    ensures EncodeChar(DecodeChar(b).value.0) == b[..DecodeChar(b).value.1]
  {
    EncodeDecodedScalar(b);
  }

  lemma EncodeFront(c: char, s: string)
    ensures Encode([c] + s) == EncodeChar(c) + Encode(s)
  {
    assert ([c] + s)[1..] == s;
  }

  lemma EncodeDecodeStep(b: seq<Byte>, c: char, n: nat, rest: string)
    requires DecodeChar(b) == Some((c, n)) && Encode(rest) == b[n..]
    ensures Encode([c] + rest) == b
  {
    EncodeDecodedChar(b);
    EncodeFront(c, rest);
    assert b[..n] + b[n..] == b;
  }

  /** Encoding undoes decoding, so distinct byte strings never decode to the same text. */
  lemma {:induction false} EncodeDecode(b: seq<Byte>, s: string)
    requires Decode(b) == Some(s)
    ensures Encode(s) == b
  {
    if b != [] {
      var (c, n) := DecodeChar(b).value;
      var rest := Decode(b[n..]).value;
      EncodeDecode(b[n..], rest);
      EncodeDecodeStep(b, c, n, rest);
    }
  }
}
