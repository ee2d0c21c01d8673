/** What UTF-8 text is: the concatenated encodings of Unicode scalar values. */
module Text {
  import opened Base

  /** A Unicode scalar value: a code point that is no surrogate. */
  type Scalar = c: int | 0 <= c < 0xD800 || 0xE000 <= c < 0x11_0000

  /** The encoding of section 3 of RFC 3629. */
  function EncodedChar(c: Scalar): (b: Bytes)
    ensures 1 <= |b| <= 4
  {
    if c < 0x80 then [c]
    else if c < 0x800 then [0xC0 + c / 64, 0x80 + c % 64]
    else if c < 0x1_0000 then [0xE0 + c / 64 / 64, 0x80 + c / 64 % 64, 0x80 + c % 64]
    else [0xF0 + c / 64 / 64 / 64, 0x80 + c / 64 / 64 % 64, 0x80 + c / 64 % 64, 0x80 + c % 64]
  }

  function Encoded(cs: seq<Scalar>): Bytes {
    if cs == [] then [] else EncodedChar(cs[0]) + Encoded(cs[1..])
  }

  /** An encoded character is recognised, whatever follows it. */
  lemma EncodedIsRecognised(c: Scalar, rest: Bytes)
    ensures CharLen(EncodedChar(c) + rest) == |EncodedChar(c)|
  {
    var b := EncodedChar(c) + rest;
    assert b[0] == EncodedChar(c)[0];
    if c < 0x80 {
    } else if c < 0x800 {
      assert b[1] == 0x80 + c % 64;
    } else if c < 0x1_0000 {
      assert b[1] == 0x80 + c / 64 % 64 && b[2] == 0x80 + c % 64;
    } else {
      assert b[1] == 0x80 + c / 64 / 64 % 64 && b[2] == 0x80 + c / 64 % 64 && b[3] == 0x80 + c % 64;
    }
  }

  /** The character at the front of `b`. */
  lemma RecognisedIsEncoded(b: Bytes) returns (c: Scalar)
    requires b != [] && CharLen(b) > 0
    ensures b[..CharLen(b)] == EncodedChar(c)
  {
    var n := CharLen(b);
    if n == 1 {
      c := b[0];
    } else if n == 2 {
      c := Shifted(b[0] as int - 0xC0, b[1]);
    } else if n == 3 {
      var high := Shifted(b[0] as int - 0xE0, b[1]);
      c := Shifted(high, b[2]);
    } else {
      var high := Shifted(b[0] as int - 0xF0, b[1]);
      var middle := Shifted(high, b[2]);
      c := Shifted(middle, b[3]);
    }
  }

  /** Six more bits, from a continuation byte. */
  lemma Shifted(high: nat, low: byte) returns (c: nat)
    requires 0x80 <= low < 0xC0
    ensures c == 64 * high + (low as int - 0x80) && c / 64 == high && 0x80 + c % 64 == low
  {
    c := 64 * high + (low as int - 0x80);
  }

  lemma {:induction false} EncodedIsUtf8(cs: seq<Scalar>)
    ensures Utf8(Encoded(cs))
  {
    hide CharLen, EncodedChar;
    if cs != [] {
      EncodedIsRecognised(cs[0], Encoded(cs[1..]));
      EncodedIsUtf8(cs[1..]);
    }
  }

  lemma {:induction false} Utf8IsDecoded(b: Bytes) returns (cs: seq<Scalar>)
    requires Utf8(b)
    ensures b == Encoded(cs)
  {
    hide CharLen, EncodedChar;
    cs := [];
    if b != [] {
      var c := RecognisedIsEncoded(b);
      var rest := Utf8IsDecoded(b[CharLen(b)..]);
      cs := [c] + rest;
      assert cs[1..] == rest;
    }
  }

  /** Bytes are text exactly when they encode scalar values: no stray or
      missing byte, no overlong form, no surrogate, nothing past U+10FFFF. */
  lemma Utf8IsEncodedScalars(b: Bytes)
    ensures Utf8(b) <==> exists cs: seq<Scalar> :: b == Encoded(cs)
  {
    hide Utf8, Encoded;
    if Utf8(b) {
      var cs := Utf8IsDecoded(b);
    }
    forall cs: seq<Scalar> | b == Encoded(cs)
      ensures Utf8(b)
    {
      EncodedIsUtf8(cs);
    }
  }
}
