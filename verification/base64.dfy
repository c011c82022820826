/**
 * The base64 encoding of section 4 of RFC 4648 with the standard alphabet
 * (Table 1) and `=` padding, no line breaks. Decoding is strict, as the
 * `STANDARD` engine of the base64 crate is: the text must consist of whole
 * 4-symbol quanta, padding may only close the last one, and the bits a
 * padded quantum leaves over must be zero (section 3.5 of RFC 4648). Under
 * those rules every byte string has exactly one encoding, which is what
 * `DecodeIsInverse` states.
 *
 * Both sides work on octets: the encoder's output is ASCII, and the decoder
 * is handed the raw bytes of whatever the peer sent.
 */
module Base64 {
  import opened Prelude

  /** The value of one base64 symbol. */
  type sextet = x: int | 0 <= x < 64

  /** The padding symbol `=`. */
  const Pad: byte := '=' as int

  /** The ASCII code of the symbol for `v` in the standard alphabet. */
  function Symbol(v: sextet): (c: byte)
    ensures c < 128 && c != Pad
  {
    if v < 26 then 'A' as int + v
    else if v < 52 then 'a' as int + (v - 26)
    else if v < 62 then '0' as int + (v - 52)
    else if v == 62 then '+' as int
    else '/' as int
  }

  /** The value of the symbol `c`, or `None` when `c` is not in the alphabet. */
  function Value(c: byte): (r: Option<sextet>)
    ensures r.Some? ==> Symbol(r.value) == c
  {
    if 'A' as int <= c <= 'Z' as int then Some(c - 'A' as int)
    else if 'a' as int <= c <= 'z' as int then Some(c - 'a' as int + 26)
    else if '0' as int <= c <= '9' as int then Some(c - '0' as int + 52)
    else if c == '+' as int then Some(62)
    else if c == '/' as int then Some(63)
    else None
  }

  /** Every symbol reads back as the value it was written for. */
  lemma ValueSymbol(v: sextet)
    ensures Value(Symbol(v)) == Some(v)
  {
  }

  /** A byte the encoder may emit: an alphabet symbol or the pad. */
  predicate IsEncodedByte(c: byte) {
    Value(c).Some? || c == Pad
  }

  /** Three octets as four symbols. */
  function EncodeQuantum(a: byte, b: byte, c: byte): seq<byte> {
    [Symbol(a / 4), Symbol((a % 4) * 16 + b / 16), Symbol((b % 16) * 4 + c / 64), Symbol(c % 64)]
  }

  /** The final two octets: three symbols and one pad. */
  function EncodeTwo(a: byte, b: byte): seq<byte> {
    [Symbol(a / 4), Symbol((a % 4) * 16 + b / 16), Symbol((b % 16) * 4), Pad]
  }

  /** The final single octet: two symbols and two pads. */
  function EncodeOne(a: byte): seq<byte> {
    [Symbol(a / 4), Symbol((a % 4) * 16), Pad, Pad]
  }

  /** The padded base64 text of `data`, as ASCII octets. */
  function Encode(data: seq<byte>): (text: seq<byte>)
    ensures |text| == 4 * ((|data| + 2) / 3)
    decreases |data|
  {
    if |data| == 0 then []
    else if |data| == 1 then EncodeOne(data[0])
    else if |data| == 2 then EncodeTwo(data[0], data[1])
    else EncodeQuantum(data[0], data[1], data[2]) + Encode(data[3..])
  }

  /** The three octets whose bits four symbol values spell, most significant first. */
  function Octets(v0: sextet, v1: sextet, v2: sextet, v3: sextet): (r: seq<byte>)
    ensures |r| == 3
  {
    var x0: int, x1: int, x2: int, x3: int := v0, v1, v2, v3;
    [x0 * 4 + x1 / 16, (x1 % 16) * 16 + x2 / 4, (x2 % 4) * 64 + x3]
  }

  /** Four symbols without padding as three octets. */
  function DecodeQuantum(c0: byte, c1: byte, c2: byte, c3: byte): (r: Option<seq<byte>>)
    ensures r.Some? ==> |r.value| == 3
  {
    match (Value(c0), Value(c1), Value(c2), Value(c3))
    case (Some(v0), Some(v1), Some(v2), Some(v3)) =>
      Some(Octets(v0, v1, v2, v3))
    case _ => None
  }

  /** The last quantum of a text, which may be padded. */
  function DecodeFinal(c0: byte, c1: byte, c2: byte, c3: byte): (r: Option<seq<byte>>)
    ensures r.Some? ==> 1 <= |r.value| <= 3
  {
    if c3 != Pad then DecodeQuantum(c0, c1, c2, c3)
    else if c2 != Pad then
      match (Value(c0), Value(c1), Value(c2))
      case (Some(v0), Some(v1), Some(v2)) =>
        if v2 % 4 == 0 then Some(Octets(v0, v1, v2, 0)[..2]) else None
      case _ => None
    else
      match (Value(c0), Value(c1))
      case (Some(v0), Some(v1)) =>
        if v1 % 16 == 0 then Some(Octets(v0, v1, 0, 0)[..1]) else None
      case _ => None
  }

  /** The octets `text` encodes, or `None` when it is not canonical padded base64. */
  function Decode(text: seq<byte>): (r: Option<seq<byte>>)
    ensures r.Some? && |text| > 0 ==> |r.value| > 0
    decreases |text|
  {
    if |text| == 0 then Some([])
    else if |text| < 4 then None
    else if |text| == 4 then DecodeFinal(text[0], text[1], text[2], text[3])
    else
      match DecodeQuantum(text[0], text[1], text[2], text[3])
      case None => None
      case Some(head) =>
        match Decode(text[4..])
        case None => None
        case Some(tail) => Some(head + tail)
  }

  /** `encode_string`: the encoding as text; every symbol is ASCII. */
  function EncodeString(data: seq<byte>): (s: string)
    ensures |s| == |Encode(data)|
    ensures forall i :: 0 <= i < |s| ==> s[i] as int == Encode(data)[i]
  {
    var text := Encode(data);
    seq(|text|, i requires 0 <= i < |text| => text[i] as char)
  }

  // ---------------------------------------------------------------------------
  // One quantum at a time

  lemma QuantumRoundTrip(a: byte, b: byte, c: byte)
    ensures var q := EncodeQuantum(a, b, c); DecodeQuantum(q[0], q[1], q[2], q[3]) == Some([a, b, c])
  {
    var v0: sextet, v1: sextet, v2: sextet, v3: sextet := a / 4, (a % 4) * 16 + b / 16, (b % 16) * 4 + c / 64, c % 64;
    ValueSymbol(v0); ValueSymbol(v1); ValueSymbol(v2); ValueSymbol(v3);
    assert v1 / 16 == a % 4 && v1 % 16 == b / 16;
    assert v2 / 4 == b % 16 && v2 % 4 == c / 64;
    assert Octets(v0, v1, v2, v3) == [a, b, c];
  }

  lemma TwoRoundTrip(a: byte, b: byte)
    ensures var q := EncodeTwo(a, b); DecodeFinal(q[0], q[1], q[2], q[3]) == Some([a, b])
  {
    var v0: sextet, v1: sextet, v2: sextet := a / 4, (a % 4) * 16 + b / 16, (b % 16) * 4;
    ValueSymbol(v0); ValueSymbol(v1); ValueSymbol(v2);
    assert v1 / 16 == a % 4 && v1 % 16 == b / 16;
    assert v2 / 4 == b % 16 && v2 % 4 == 0;
    assert Octets(v0, v1, v2, 0)[..2] == [a, b];
  }

  lemma OneRoundTrip(a: byte)
    ensures var q := EncodeOne(a); DecodeFinal(q[0], q[1], q[2], q[3]) == Some([a])
  {
    var v0: sextet, v1: sextet := a / 4, (a % 4) * 16;
    ValueSymbol(v0); ValueSymbol(v1);
    assert v1 / 16 == a % 4 && v1 % 16 == 0;
    assert Octets(v0, v1, 0, 0)[..1] == [a];
  }

  /** A quantum that decodes is spelled the only way the encoder spells its octets. */
  lemma QuantumCanonical(c0: byte, c1: byte, c2: byte, c3: byte)
    requires DecodeQuantum(c0, c1, c2, c3).Some?
    ensures var d := DecodeQuantum(c0, c1, c2, c3).value; EncodeQuantum(d[0], d[1], d[2]) == [c0, c1, c2, c3]
  {
    var v0, v1, v2, v3 := Value(c0).value, Value(c1).value, Value(c2).value, Value(c3).value;
    var d := Octets(v0, v1, v2, v3);
    assert d[0] / 4 == v0 && d[0] % 4 == v1 / 16;
    assert d[1] / 16 == v1 % 16 && d[1] % 16 == v2 / 4;
    assert d[2] / 64 == v2 % 4 && d[2] % 64 == v3;
  }

  /** Likewise for a final, possibly padded, quantum. */
  lemma FinalCanonical(c0: byte, c1: byte, c2: byte, c3: byte)
    requires DecodeFinal(c0, c1, c2, c3).Some?
    ensures Encode(DecodeFinal(c0, c1, c2, c3).value) == [c0, c1, c2, c3]
  {
    var d := DecodeFinal(c0, c1, c2, c3).value;
    if c3 != Pad {
      QuantumCanonical(c0, c1, c2, c3);
      assert Encode(d) == EncodeQuantum(d[0], d[1], d[2]) + Encode(d[3..]);
    } else if c2 != Pad {
      var v0, v1, v2 := Value(c0).value, Value(c1).value, Value(c2).value;
      assert d == Octets(v0, v1, v2, 0)[..2];
      assert d[0] / 4 == v0 && d[0] % 4 == v1 / 16;
      assert d[1] / 16 == v1 % 16 && (d[1] % 16) * 4 == v2;
      assert Encode(d) == EncodeTwo(d[0], d[1]);
    } else {
      var v0, v1 := Value(c0).value, Value(c1).value;
      assert d == Octets(v0, v1, 0, 0)[..1];
      assert d[0] / 4 == v0 && (d[0] % 4) * 16 == v1;
      assert Encode(d) == EncodeOne(d[0]);
    }
  }

  // ---------------------------------------------------------------------------
  // How Encode and Decode treat a leading quantum

  lemma EncodeCons(a: byte, b: byte, c: byte, rest: seq<byte>)
    ensures Encode([a, b, c] + rest) == EncodeQuantum(a, b, c) + Encode(rest)
  {
    var d := [a, b, c] + rest;
    assert d[0] == a && d[1] == b && d[2] == c && d[3..] == rest;
  }

  lemma DecodeCons(q: seq<byte>, rest: seq<byte>, head: seq<byte>, tail: seq<byte>)
    requires |q| == 4 && |rest| > 0
    requires DecodeQuantum(q[0], q[1], q[2], q[3]) == Some(head)
    requires Decode(rest) == Some(tail)
    ensures Decode(q + rest) == Some(head + tail)
  {
    var text := q + rest;
    assert text[0] == q[0] && text[1] == q[1] && text[2] == q[2] && text[3] == q[3];
    assert text[4..] == rest;
  }

  lemma DecodeLong(text: seq<byte>)
    requires |text| > 4 && Decode(text).Some?
    ensures DecodeQuantum(text[0], text[1], text[2], text[3]).Some?
    ensures Decode(text[4..]).Some?
    ensures Decode(text).value
            == DecodeQuantum(text[0], text[1], text[2], text[3]).value + Decode(text[4..]).value
  {
  }

  // ---------------------------------------------------------------------------
  // Decoding undoes encoding

  lemma DecodeEncodeOne(data: seq<byte>)
    requires |data| == 1
    ensures Decode(Encode(data)) == Some(data)
  {
    Spell1(data);
    OneRoundTrip(data[0]);
  }

  lemma DecodeEncodeTwo(data: seq<byte>)
    requires |data| == 2
    ensures Decode(Encode(data)) == Some(data)
  {
    Spell2(data);
    TwoRoundTrip(data[0], data[1]);
  }

  lemma DecodeEncodeQuantum(a: byte, b: byte, c: byte)
    ensures Decode(Encode([a, b, c])) == Some([a, b, c])
  {
    var q := EncodeQuantum(a, b, c);
    QuantumRoundTrip(a, b, c);
    EncodeCons(a, b, c, []);
    assert [a, b, c] + [] == [a, b, c];
    assert Decode(q) == DecodeFinal(q[0], q[1], q[2], q[3]);
  }

  /** Decoding the encoding of any octets gives those octets back. */
  lemma {:induction false} DecodeEncode(data: seq<byte>)
    ensures Decode(Encode(data)) == Some(data)
    decreases |data|
  {
    if |data| == 0 {
    } else if |data| == 1 {
      DecodeEncodeOne(data);
    } else if |data| == 2 {
      DecodeEncodeTwo(data);
    } else if |data| == 3 {
      DecodeEncodeThree(data);
    } else {
      DecodeEncode(data[3..]);
      DecodeEncodeLong(data);
    }
  }

  lemma DecodeEncodeThree(data: seq<byte>)
    requires |data| == 3
    ensures Decode(Encode(data)) == Some(data)
  {
    var a, b, c := data[0], data[1], data[2];
    Spell3(data);
    DecodeEncodeQuantum(a, b, c);
  }

  lemma DecodeEncodeLong(data: seq<byte>)
    requires |data| > 3 && Decode(Encode(data[3..])) == Some(data[3..])
    ensures Decode(Encode(data)) == Some(data)
  {
    var a, b, c, tail := data[0], data[1], data[2], data[3..];
    assert Encode(data) == EncodeQuantum(a, b, c) + Encode(tail);
    QuantumRoundTrip(a, b, c);
    DecodeCons(EncodeQuantum(a, b, c), Encode(tail), [a, b, c], tail);
    HeadTail(data);
  }

  lemma HeadTail(data: seq<byte>)
    requires |data| >= 3
    ensures [data[0], data[1], data[2]] + data[3..] == data
  {
  }

  // ---------------------------------------------------------------------------
  // Encoding undoes decoding

  lemma EncodeDecodeFinal(text: seq<byte>)
    requires |text| == 4 && Decode(text).Some?
    ensures Encode(Decode(text).value) == text
  {
    var c0, c1, c2, c3 := text[0], text[1], text[2], text[3];
    assert Decode(text) == DecodeFinal(c0, c1, c2, c3);
    Spell4(text);
    FinalCanonical(c0, c1, c2, c3);
  }

  lemma EncodeDecodeStep(q: seq<byte>, rest: seq<byte>, head: seq<byte>, tail: seq<byte>)
    requires |head| == 3 && EncodeQuantum(head[0], head[1], head[2]) == q
    requires Encode(tail) == rest
    ensures Encode(head + tail) == q + rest
  {
    assert head + tail == [head[0], head[1], head[2]] + tail;
    EncodeCons(head[0], head[1], head[2], tail);
  }

  lemma EncodeDecodeLong(text: seq<byte>)
    requires |text| > 4 && DecodeQuantum(text[0], text[1], text[2], text[3]).Some?
    requires Decode(text[4..]).Some? && Encode(Decode(text[4..]).value) == text[4..]
    ensures Encode(DecodeQuantum(text[0], text[1], text[2], text[3]).value + Decode(text[4..]).value) == text
  {
    QuantumCanonical(text[0], text[1], text[2], text[3]);
    EncodeDecodeStep(text[..4], text[4..], DecodeQuantum(text[0], text[1], text[2], text[3]).value, Decode(text[4..]).value);
    Split(text, 4);
  }

  /** A text that decodes is the encoding of what it decodes to: no other spelling is accepted. */
  lemma {:induction false} EncodeDecode(text: seq<byte>)
    requires Decode(text).Some?
    ensures Encode(Decode(text).value) == text
    decreases |text|
  {
    if |text| == 0 {
    } else if |text| < 4 {
    } else if |text| == 4 {
      EncodeDecodeFinal(text);
    } else {
      DecodeLong(text);
      EncodeDecode(text[4..]);
      EncodeDecodeLong(text);
    }
  }

  /** Decoding is exactly the inverse of encoding, in both directions. */
  lemma DecodeIsInverse(text: seq<byte>, data: seq<byte>)
    ensures Decode(text) == Some(data) <==> text == Encode(data)
  {
    if Decode(text) == Some(data) {
      EncodeDecode(text);
    }
    if text == Encode(data) {
      DecodeEncode(data);
    }
  }

  /** Every byte of `text` is an alphabet symbol or padding, and ASCII. */
  predicate IsEncodedText(text: seq<byte>) {
    forall i :: 0 <= i < |text| ==> IsEncodedByte(text[i]) && text[i] < 128
  }

  lemma AppendEncodedText(q: seq<byte>, rest: seq<byte>)
    requires IsEncodedText(q) && IsEncodedText(rest)
    ensures IsEncodedText(q + rest)
  {
    forall i | 0 <= i < |q + rest|
      ensures IsEncodedByte((q + rest)[i]) && (q + rest)[i] < 128
    {
      if i >= |q| {
        assert (q + rest)[i] == rest[i - |q|];
      }
    }
  }

  lemma QuantumAlphabet(a: byte, b: byte, c: byte)
    ensures IsEncodedText(EncodeQuantum(a, b, c))
  {
    ValueSymbol(a / 4); ValueSymbol((a % 4) * 16 + b / 16); ValueSymbol((b % 16) * 4 + c / 64); ValueSymbol(c % 64);
  }

  lemma OneAlphabet(a: byte)
    ensures IsEncodedText(EncodeOne(a))
  {
    ValueSymbol(a / 4); ValueSymbol((a % 4) * 16);
  }

  lemma TwoAlphabet(a: byte, b: byte)
    ensures IsEncodedText(EncodeTwo(a, b))
  {
    ValueSymbol(a / 4); ValueSymbol((a % 4) * 16 + b / 16); ValueSymbol((b % 16) * 4);
  }

  lemma LongAlphabet(a: byte, b: byte, c: byte, tail: seq<byte>)
    requires IsEncodedText(Encode(tail))
    ensures IsEncodedText(Encode([a, b, c] + tail))
  {
    EncodeCons(a, b, c, tail);
    QuantumAlphabet(a, b, c);
    AppendEncodedText(EncodeQuantum(a, b, c), Encode(tail));
  }

  /** The encoder emits only alphabet symbols and padding, all of them ASCII. */
  lemma {:induction false} EncodeAlphabet(data: seq<byte>)
    ensures IsEncodedText(Encode(data))
    decreases |data|
  {
    if |data| == 0 {
    } else if |data| == 1 {
      OneAlphabet(data[0]);
    } else if |data| == 2 {
      TwoAlphabet(data[0], data[1]);
    } else {
      EncodeAlphabet(data[3..]);
      LongAlphabet(data[0], data[1], data[2], data[3..]);
      HeadTail(data);
    }
  }

  // ---------------------------------------------------------------------------
  // Known answers: the test vectors of section 10 of RFC 4648

  /** One leading quantum of a longer input, with every part named by the caller. */
  lemma EncodeStep(data: seq<byte>, a: byte, b: byte, c: byte, rest: seq<byte>, q: seq<byte>, r: seq<byte>)
    requires data == [a, b, c] + rest
    requires EncodeQuantum(a, b, c) == q && Encode(rest) == r
    ensures Encode(data) == q + r
  {
    EncodeCons(a, b, c, rest);
  }

  /** "f", "fo", "foo" encode as "Zg==", "Zm8=", "Zm9v". */
  lemma ShortVectors()
    ensures Encode([]) == []
    ensures Encode([102]) == [90, 103, 61, 61]
    ensures Encode([102, 111]) == [90, 109, 56, 61]
    ensures Encode([102, 111, 111]) == [90, 109, 57, 118]
  {
  }

  /** "foob", "fooba", "foobar" encode as "Zm9vYg==", "Zm9vYmE=", "Zm9vYmFy". */
  lemma LongVectors(foob: seq<byte>, fooba: seq<byte>, foobar: seq<byte>)
    requires foob == [102, 111, 111, 98]
    requires fooba == [102, 111, 111, 98, 97]
    requires foobar == [102, 111, 111, 98, 97, 114]
    ensures Encode(foob) == [90, 109, 57, 118, 89, 103, 61, 61]
    ensures Encode(fooba) == [90, 109, 57, 118, 89, 109, 69, 61]
    ensures Encode(foobar) == [90, 109, 57, 118, 89, 109, 70, 121]
  {
    ShortVectors();
    EncodeStep(foob, 102, 111, 111, [98], [90, 109, 57, 118], [89, 103, 61, 61]);
    EncodeStep(fooba, 102, 111, 111, [98, 97], [90, 109, 57, 118], [89, 109, 69, 61]);
    EncodeStep(foobar, 102, 111, 111, [98, 97, 114], [90, 109, 57, 118], [89, 109, 70, 121]);
  }
}
