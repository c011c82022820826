/**
 * UTF-8 as defined by RFC 3629: `Encode` writes the bytes of a string, and
 * `Decode` is the validation `String::from_utf8` performs, accepting exactly
 * the well-formed byte sequences of RFC 3629 section 4 (no overlong forms, no
 * surrogates, nothing above U+10FFFF) and refusing everything else.
 * A Dafny `char` is a Unicode scalar value, as a Rust `char` is.
 */
module Utf8 {
  import opened Prelude

  predicate IsContinuation(b: byte) {
    0x80 <= b <= 0xBF
  }

  // ---------------------------------------------------------------------------
  // Encoding

  /** The one to four bytes that spell `c`. */
  function EncodeChar(c: char): (bs: seq<byte>)
    ensures 1 <= |bs| <= 4
  {
    var v := c as int;
    if v < 0x80 then [v]
    else if v < 0x800 then [0xC0 + v / 64, 0x80 + v % 64]
    else if v < 0x10000 then [0xE0 + v / 4096, 0x80 + (v / 64) % 64, 0x80 + v % 64]
    else [0xF0 + v / 262144, 0x80 + (v / 4096) % 64, 0x80 + (v / 64) % 64, 0x80 + v % 64]
  }

  /** The UTF-8 bytes of `s` (`str::as_bytes`). */
  function Encode(s: string): (bs: seq<byte>)
    ensures |bs| >= |s|
    decreases |s|
  {
    if |s| == 0 then [] else EncodeChar(s[0]) + Encode(s[1..])
  }

  // ---------------------------------------------------------------------------
  // Decoding

  /** The second byte a three-byte lead `b0` admits: it rules out overlong forms and surrogates. */
  predicate SecondOfThree(b0: byte, b1: byte) {
    if b0 == 0xE0 then 0xA0 <= b1 <= 0xBF
    else if b0 == 0xED then 0x80 <= b1 <= 0x9F
    else IsContinuation(b1)
  }

  /** The second byte a four-byte lead `b0` admits: it rules out overlong forms and values above U+10FFFF. */
  predicate SecondOfFour(b0: byte, b1: byte) {
    if b0 == 0xF0 then 0x90 <= b1 <= 0xBF
    else if b0 == 0xF4 then 0x80 <= b1 <= 0x8F
    else IsContinuation(b1)
  }

  function Char2(b0: byte, b1: byte): (c: char)
    requires 0xC2 <= b0 <= 0xDF && IsContinuation(b1)
  {
    ((b0 - 0xC0) * 64 + (b1 - 0x80)) as char
  }

  function Char3(b0: byte, b1: byte, b2: byte): (c: char)
    requires 0xE0 <= b0 <= 0xEF && SecondOfThree(b0, b1) && IsContinuation(b2)
  {
    ((b0 - 0xE0) * 4096 + (b1 - 0x80) * 64 + (b2 - 0x80)) as char
  }

  function Char4(b0: byte, b1: byte, b2: byte, b3: byte): (c: char)
    requires 0xF0 <= b0 <= 0xF4 && SecondOfFour(b0, b1) && IsContinuation(b2) && IsContinuation(b3)
  {
    ((b0 - 0xF0) * 262144 + (b1 - 0x80) * 4096 + (b2 - 0x80) * 64 + (b3 - 0x80)) as char
  }

  /** The first character of `bs` and how many bytes it takes, or `None` when they are ill-formed. */
  function DecodeFirst(bs: seq<byte>): (r: Option<(char, nat)>)
    requires |bs| > 0
    ensures r.Some? ==> 1 <= r.value.1 <= |bs| && r.value.1 <= 4
  {
    var b0 := bs[0];
    if b0 < 0x80 then Some((b0 as char, 1))
    else if 0xC2 <= b0 <= 0xDF then
      if |bs| >= 2 && IsContinuation(bs[1]) then Some((Char2(b0, bs[1]), 2)) else None
    else if 0xE0 <= b0 <= 0xEF then
      if |bs| >= 3 && SecondOfThree(b0, bs[1]) && IsContinuation(bs[2])
      then Some((Char3(b0, bs[1], bs[2]), 3)) else None
    else if 0xF0 <= b0 <= 0xF4 then
      if |bs| >= 4 && SecondOfFour(b0, bs[1]) && IsContinuation(bs[2]) && IsContinuation(bs[3])
      then Some((Char4(b0, bs[1], bs[2], bs[3]), 4)) else None
    else None
  }

  /** `String::from_utf8`: the text `bs` spells, or `None` when it is not well-formed UTF-8. */
  function Decode(bs: seq<byte>): (r: Option<string>)
    ensures r.Some? ==> |r.value| <= |bs|
    decreases |bs|
  {
    if |bs| == 0 then Some([])
    else
      match DecodeFirst(bs)
      case None => None
      case Some((c, n)) =>
        match Decode(bs[n..])
        case None => None
        case Some(rest) => Some([c] + rest)
  }

  // ---------------------------------------------------------------------------
  // One character at a time

  lemma Digits3(v: int)
    requires 0 <= v < 0x10000
    ensures v == (v / 4096) * 4096 + ((v / 64) % 64) * 64 + v % 64
  {
    var q := v / 64;
    assert v == 64 * q + v % 64;
    assert q == 64 * (q / 64) + q % 64;
    assert q / 64 == v / 4096;
  }

  lemma Digits4(v: int)
    requires 0 <= v < 0x110000
    ensures v == (v / 262144) * 262144 + ((v / 4096) % 64) * 4096 + ((v / 64) % 64) * 64 + v % 64
  {
    var q := v / 64;
    var p := q / 64;
    assert v == 64 * q + v % 64;
    assert q == 64 * p + q % 64;
    assert p == v / 4096;
    assert p == 64 * (p / 64) + p % 64;
    assert p / 64 == v / 262144;
  }

  lemma FirstOfEncoded2(c: char, rest: seq<byte>)
    requires 0x80 <= c as int < 0x800
    ensures DecodeFirst(EncodeChar(c) + rest) == Some((c, 2))
  {
    var v := c as int;
    var bs := EncodeChar(c) + rest;
    assert bs[0] == 0xC0 + v / 64 && bs[1] == 0x80 + v % 64;
  }

  lemma FirstOfEncoded3(c: char, rest: seq<byte>)
    requires 0x800 <= c as int < 0x10000
    ensures DecodeFirst(EncodeChar(c) + rest) == Some((c, 3))
  {
    var v := c as int;
    var bs := EncodeChar(c) + rest;
    Digits3(v);
    assert bs[0] == 0xE0 + v / 4096 && bs[1] == 0x80 + (v / 64) % 64 && bs[2] == 0x80 + v % 64;
  }

  lemma FirstOfEncoded4(c: char, rest: seq<byte>)
    requires 0x10000 <= c as int
    ensures DecodeFirst(EncodeChar(c) + rest) == Some((c, 4))
  {
    var v := c as int;
    var bs := EncodeChar(c) + rest;
    Digits4(v);
    assert bs[0] == 0xF0 + v / 262144 && bs[1] == 0x80 + (v / 4096) % 64;
    assert bs[2] == 0x80 + (v / 64) % 64 && bs[3] == 0x80 + v % 64;
  }

  /** The decoder reads an encoded character back, whatever follows it. */
  lemma FirstOfEncoded(c: char, rest: seq<byte>)
    ensures DecodeFirst(EncodeChar(c) + rest) == Some((c, |EncodeChar(c)|))
  {
    var v := c as int;
    if v < 0x80 {
    } else if v < 0x800 {
      FirstOfEncoded2(c, rest);
    } else if v < 0x10000 {
      FirstOfEncoded3(c, rest);
    } else {
      FirstOfEncoded4(c, rest);
    }
  }

  lemma EncodedOfFirst2(b0: byte, b1: byte)
    requires 0xC2 <= b0 <= 0xDF && IsContinuation(b1)
    ensures EncodeChar(Char2(b0, b1)) == [b0, b1]
  {
    var v: int := (b0 - 0xC0) * 64 + (b1 - 0x80);
    assert v / 64 == b0 - 0xC0 && v % 64 == b1 - 0x80;
  }

  lemma EncodedOfFirst3(b0: byte, b1: byte, b2: byte)
    requires 0xE0 <= b0 <= 0xEF && SecondOfThree(b0, b1) && IsContinuation(b2)
    ensures EncodeChar(Char3(b0, b1, b2)) == [b0, b1, b2]
  {
    var v: int := (b0 - 0xE0) * 4096 + (b1 - 0x80) * 64 + (b2 - 0x80);
    assert v / 64 == (b0 - 0xE0) * 64 + (b1 - 0x80);
    assert v / 4096 == b0 - 0xE0 && (v / 64) % 64 == b1 - 0x80 && v % 64 == b2 - 0x80;
  }

  lemma EncodedOfFirst4(b0: byte, b1: byte, b2: byte, b3: byte)
    requires 0xF0 <= b0 <= 0xF4 && SecondOfFour(b0, b1) && IsContinuation(b2) && IsContinuation(b3)
    ensures EncodeChar(Char4(b0, b1, b2, b3)) == [b0, b1, b2, b3]
  {
    var v: int := (b0 - 0xF0) * 262144 + (b1 - 0x80) * 4096 + (b2 - 0x80) * 64 + (b3 - 0x80);
    assert v / 64 == (b0 - 0xF0) * 4096 + (b1 - 0x80) * 64 + (b2 - 0x80);
    assert v / 4096 == (b0 - 0xF0) * 64 + (b1 - 0x80);
    assert v / 262144 == b0 - 0xF0 && (v / 4096) % 64 == b1 - 0x80;
    assert (v / 64) % 64 == b2 - 0x80 && v % 64 == b3 - 0x80;
  }

  /** A character the decoder reads is spelled the only way the encoder spells it. */
  lemma EncodedOfFirst(bs: seq<byte>)
    requires |bs| > 0 && DecodeFirst(bs).Some?
    ensures EncodeChar(DecodeFirst(bs).value.0) == bs[..DecodeFirst(bs).value.1]
  {
    var b0 := bs[0];
    if b0 < 0x80 {
    } else if 0xC2 <= b0 <= 0xDF {
      EncodedOfFirst2(b0, bs[1]);
    } else if 0xE0 <= b0 <= 0xEF {
      EncodedOfFirst3(b0, bs[1], bs[2]);
    } else {
      EncodedOfFirst4(b0, bs[1], bs[2], bs[3]);
    }
  }

  // ---------------------------------------------------------------------------
  // Whole strings

  lemma DecodeStep(bs: seq<byte>, c: char, n: nat, rest: string)
    requires |bs| > 0 && DecodeFirst(bs) == Some((c, n)) && Decode(bs[n..]) == Some(rest)
    ensures Decode(bs) == Some([c] + rest)
  {
  }

  /** Validating the bytes of a string gives that string back. */
  lemma {:induction false} DecodeEncode(s: string)
    ensures Decode(Encode(s)) == Some(s)
    decreases |s|
  {
    if |s| > 0 {
      var head := EncodeChar(s[0]);
      var bs := Encode(s);
      assert bs == head + Encode(s[1..]);
      FirstOfEncoded(s[0], Encode(s[1..]));
      assert bs[|head|..] == Encode(s[1..]);
      DecodeEncode(s[1..]);
      DecodeStep(bs, s[0], |head|, s[1..]);
      assert [s[0]] + s[1..] == s;
    }
  }

  /** Bytes that validate are exactly the encoding of the text they spell. */
  lemma {:induction false} EncodeDecode(bs: seq<byte>)
    requires Decode(bs).Some?
    ensures Encode(Decode(bs).value) == bs
    decreases |bs|
  {
    if |bs| > 0 {
      var first := DecodeFirst(bs).value;
      var c, n := first.0, first.1;
      var rest := Decode(bs[n..]).value;
      assert Decode(bs).value == [c] + rest;
      EncodedOfFirst(bs);
      EncodeDecode(bs[n..]);
      EncodeCons(c, rest, bs, n);
    }
  }

  lemma EncodeCons(c: char, rest: string, bs: seq<byte>, n: nat)
    requires n <= |bs| && EncodeChar(c) == bs[..n] && Encode(rest) == bs[n..]
    ensures Encode([c] + rest) == bs
  {
    assert ([c] + rest)[1..] == rest;
    assert bs == bs[..n] + bs[n..];
  }

  /** Validation is exactly the inverse of encoding, in both directions. */
  lemma DecodeIsInverse(bs: seq<byte>, s: string)
    ensures Decode(bs) == Some(s) <==> bs == Encode(s)
  {
    if Decode(bs) == Some(s) {
      EncodeDecode(bs);
    }
    if bs == Encode(s) {
      DecodeEncode(s);
    }
  }

  /** Different strings have different encodings. */
  lemma EncodeInjective(s: string, t: string)
    requires Encode(s) == Encode(t)
    ensures s == t
  {
    DecodeEncode(s);
    DecodeEncode(t);
  }

  /** An ASCII string is encoded one byte per character, each byte its code. */
  lemma {:induction false} EncodeAscii(s: string)
    requires forall i :: 0 <= i < |s| ==> s[i] as int < 0x80
    ensures |Encode(s)| == |s|
    ensures forall i :: 0 <= i < |s| ==> Encode(s)[i] == s[i] as int
    decreases |s|
  {
    if |s| > 0 {
      EncodeAscii(s[1..]);
      assert Encode(s) == [s[0] as int] + Encode(s[1..]);
    }
  }

  /** Encoding distributes over concatenation, one character at a time. */
  lemma {:induction false} EncodeAppend(s: string, t: string)
    ensures Encode(s + t) == Encode(s) + Encode(t)
    decreases |s|
  {
    if |s| > 0 {
      EncodeAppend(s[1..], t);
      assert (s + t)[0] == s[0] && (s + t)[1..] == s[1..] + t;
    } else {
      assert s + t == t;
    }
  }
}
