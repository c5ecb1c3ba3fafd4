/** The padded base64url encoding of section 5 of RFC 4648, as Go's
    `base64.URLEncoding.EncodeToString` produces it, and a strict decoder
    that is its inverse in both directions.

    Every 3 input bytes become 4 symbols of the URL- and filename-safe
    alphabet `A-Z a-z 0-9 - _`; a final group of 1 or 2 bytes becomes
    2 or 3 symbols followed by `==` or `=`. */
module Base64 {
  import opened Types

  /** The padding character. */
  const Pad: char := '='

  /** The 64 symbols of the URL- and filename-safe alphabet. */
  predicate IsSymbol(c: char) {
    ('A' <= c <= 'Z') || ('a' <= c <= 'z') || ('0' <= c <= '9') || c == '-' || c == '_'
  }

  /** Position of a symbol in the alphabet (Table 2 of RFC 4648). */
  function SymbolValue(c: char): (v: int)
    requires IsSymbol(c)
    ensures 0 <= v < 64
  {
    if 'A' <= c <= 'Z' then c as int - 'A' as int
    else if 'a' <= c <= 'z' then c as int - 'a' as int + 26
    else if '0' <= c <= '9' then c as int - '0' as int + 52
    else if c == '-' then 62
    else 63
  }

  /** The symbol for a 6-bit value; inverse of SymbolValue. */
  function Symbol(v: int): (c: char)
    requires 0 <= v < 64
    ensures IsSymbol(c) && SymbolValue(c) == v
  {
    if v < 26 then ('A' as int + v) as char
    else if v < 52 then ('a' as int + (v - 26)) as char
    else if v < 62 then ('0' as int + (v - 52)) as char
    else if v == 62 then '-'
    else '_'
  }

  /** Three bytes, 24 bits, as four 6-bit symbols, most significant first. */
  function EncodeQuantum(a: byte, b: byte, c: byte): string {
    [ Symbol(a as int / 4),
      Symbol((a as int % 4) * 16 + b as int / 16),
      Symbol((b as int % 16) * 4 + c as int / 64),
      Symbol(c as int % 64) ]
  }

  /** A final group of two bytes: three symbols (the last one zero-filled) and one pad. */
  function EncodeFinalPair(a: byte, b: byte): string {
    [ Symbol(a as int / 4),
      Symbol((a as int % 4) * 16 + b as int / 16),
      Symbol((b as int % 16) * 4),
      Pad ]
  }

  /** A final group of one byte: two symbols (the last one zero-filled) and two pads. */
  function EncodeFinalByte(a: byte): string {
    [ Symbol(a as int / 4), Symbol((a as int % 4) * 16), Pad, Pad ]
  }

  /** `base64.URLEncoding.EncodeToString(data)`. The output is padded to a
      multiple of four characters, uses only the URL-safe alphabet, and
      carries padding only in its last two positions. */
  function Encode(data: Bytes): (s: string)
    ensures |s| == 4 * ((|data| + 2) / 3)
    ensures forall i :: 0 <= i < |s| ==> IsSymbol(s[i]) || (s[i] == Pad && |s| - 2 <= i)
    decreases |data|
  {
    if |data| == 0 then ""
    else if |data| == 1 then EncodeFinalByte(data[0])
    else if |data| == 2 then EncodeFinalPair(data[0], data[1])
    else EncodeQuantum(data[0], data[1], data[2]) + Encode(data[3..])
  }

  /** Four symbols without padding back to three bytes. */
  function DecodeQuantum(s: string): Option<Bytes>
    requires |s| == 4
  {
    if IsSymbol(s[0]) && IsSymbol(s[1]) && IsSymbol(s[2]) && IsSymbol(s[3]) then
      var v0, v1, v2, v3 := SymbolValue(s[0]), SymbolValue(s[1]), SymbolValue(s[2]), SymbolValue(s[3]);
      Some([(v0 * 4 + v1 / 16) as byte, ((v1 % 16) * 16 + v2 / 4) as byte, ((v2 % 4) * 64 + v3) as byte])
    else None
  }

  /** The last four characters, which may end in one or two pads. Following
      section 3.5 of RFC 4648, this decoder rejects text whose bits beyond
      the final byte are not zero. */
  function DecodeFinal(s: string): Option<Bytes>
    requires |s| == 4
  {
    if s[2] == Pad && s[3] == Pad then
      if IsSymbol(s[0]) && IsSymbol(s[1]) && SymbolValue(s[1]) % 16 == 0 then
        Some([(SymbolValue(s[0]) * 4 + SymbolValue(s[1]) / 16) as byte])
      else None
    else if s[3] == Pad then
      if IsSymbol(s[0]) && IsSymbol(s[1]) && IsSymbol(s[2]) && SymbolValue(s[2]) % 4 == 0 then
        var v0, v1, v2 := SymbolValue(s[0]), SymbolValue(s[1]), SymbolValue(s[2]);
        Some([(v0 * 4 + v1 / 16) as byte, ((v1 % 16) * 16 + v2 / 4) as byte])
      else None
    else DecodeQuantum(s)
  }

  /** Decoder for padded base64url text; None for text that is not a
      sequence of 4-character groups over the alphabet with padding only at
      the end and zero bits after the final byte. */
  function Decode(s: string): Option<Bytes>
    decreases |s|
  {
    if |s| == 0 then Some([])
    else if |s| < 4 then None
    else if |s| == 4 then DecodeFinal(s)
    else match (DecodeQuantum(s[..4]), Decode(s[4..]))
      case (Some(head), Some(tail)) => Some(head + tail)
      case _ => None
  }

  /** The bit arithmetic behind the round trip: the first byte is rebuilt
      from the first symbol and the top two bits of the second. */
  lemma FirstByteRebuilt(a: int, b: int)
    requires 0 <= a < 256 && 0 <= b < 256
    ensures (a / 4) * 4 + ((a % 4) * 16 + b / 16) / 16 == a
  {
  }

  lemma SecondByteRebuilt(a: int, b: int, c: int)
    requires 0 <= a < 256 && 0 <= b < 256 && 0 <= c < 256
    ensures (((a % 4) * 16 + b / 16) % 16) * 16 + ((b % 16) * 4 + c / 64) / 4 == b
  {
  }

  lemma ThirdByteRebuilt(b: int, c: int)
    requires 0 <= b < 256 && 0 <= c < 256
    ensures (((b % 16) * 4 + c / 64) % 4) * 64 + c % 64 == c
  {
  }

  lemma QuantumRoundTrip(a: byte, b: byte, c: byte)
    ensures DecodeQuantum(EncodeQuantum(a, b, c)) == Some([a, b, c])
    ensures DecodeFinal(EncodeQuantum(a, b, c)) == Some([a, b, c])
  {
    var s := EncodeQuantum(a, b, c);
    assert SymbolValue(s[0]) == a as int / 4;
    assert SymbolValue(s[1]) == (a as int % 4) * 16 + b as int / 16;
    assert SymbolValue(s[2]) == (b as int % 16) * 4 + c as int / 64;
    assert SymbolValue(s[3]) == c as int % 64;
    FirstByteRebuilt(a as int, b as int);
    SecondByteRebuilt(a as int, b as int, c as int);
    ThirdByteRebuilt(b as int, c as int);
  }

  lemma FinalPairRoundTrip(a: byte, b: byte)
    ensures DecodeFinal(EncodeFinalPair(a, b)) == Some([a, b])
  {
  }

  lemma FinalByteRoundTrip(a: byte)
    ensures DecodeFinal(EncodeFinalByte(a)) == Some([a])
  {
  }

  /** Decoding undoes encoding: no two byte strings share an encoding. */
  lemma {:induction false} DecodeEncode(data: Bytes)
    ensures Decode(Encode(data)) == Some(data)
    decreases |data|
  {
    if |data| == 0 {
    } else if |data| == 1 {
      FinalByteRoundTrip(data[0]);
      assert [data[0]] == data;
    } else if |data| == 2 {
      FinalPairRoundTrip(data[0], data[1]);
      assert [data[0], data[1]] == data;
    } else {
      var head, rest := EncodeQuantum(data[0], data[1], data[2]), data[3..];
      QuantumRoundTrip(data[0], data[1], data[2]);
      assert data == [data[0], data[1], data[2]] + rest;
      if |rest| == 0 {
        assert Encode(rest) == "";
        assert Encode(data) == head + "" == head;
        assert data == [data[0], data[1], data[2]];
      } else {
        var s := Encode(data);
        assert s == head + Encode(rest);
        assert s[..4] == head && s[4..] == Encode(rest);
        DecodeEncode(rest);
      }
    }
  }

  /** Each symbol is the symbol of its own value. */
  lemma SymbolOfValue(c: char)
    requires IsSymbol(c)
    ensures Symbol(SymbolValue(c)) == c
  {
  }

  /** The bit arithmetic behind the reverse round trip: the 6-bit groups of
      the bytes rebuilt from four symbol values are those values again, and
      a zero-filled last symbol is rebuilt from the final byte alone. */
  lemma SextetsRebuilt(v0: int, v1: int, v2: int, v3: int, a: int, b: int, c: int)
    requires 0 <= v0 < 64 && 0 <= v1 < 64 && 0 <= v2 < 64 && 0 <= v3 < 64
    requires a == v0 * 4 + v1 / 16 && b == (v1 % 16) * 16 + v2 / 4 && c == (v2 % 4) * 64 + v3
    ensures a / 4 == v0
    ensures (a % 4) * 16 + b / 16 == v1
    ensures (b % 16) * 4 + c / 64 == v2
    ensures c % 64 == v3
    ensures v1 % 16 == 0 ==> (a % 4) * 16 == v1
    ensures v2 % 4 == 0 ==> (b % 16) * 4 == v2
  {
  }

  /** A group of four symbols is the encoding of the three bytes it decodes to. */
  lemma QuantumEncodeDecode(s: string)
    requires |s| == 4 && DecodeQuantum(s).Some?
    ensures |DecodeQuantum(s).value| == 3
    ensures EncodeQuantum(DecodeQuantum(s).value[0], DecodeQuantum(s).value[1], DecodeQuantum(s).value[2]) == s
  {
    var v0, v1, v2, v3 := SymbolValue(s[0]), SymbolValue(s[1]), SymbolValue(s[2]), SymbolValue(s[3]);
    var d := DecodeQuantum(s).value;
    SextetsRebuilt(v0, v1, v2, v3, d[0] as int, d[1] as int, d[2] as int);
    var e := EncodeQuantum(d[0], d[1], d[2]);
    assert e[0] == s[0] by { SymbolOfValue(s[0]); }
    assert e[1] == s[1] by { SymbolOfValue(s[1]); }
    assert e[2] == s[2] by { SymbolOfValue(s[2]); }
    assert e[3] == s[3] by { SymbolOfValue(s[3]); }
  }

  /** A final group of one byte is the encoding of the byte it decodes to. */
  lemma FinalByteEncodeDecode(s: string)
    requires |s| == 4 && s[2] == Pad && s[3] == Pad && DecodeFinal(s).Some?
    ensures |DecodeFinal(s).value| == 1
    ensures EncodeFinalByte(DecodeFinal(s).value[0]) == s
  {
    var v0, v1 := SymbolValue(s[0]), SymbolValue(s[1]);
    var d := DecodeFinal(s).value;
    SextetsRebuilt(v0, v1, 0, 0, d[0] as int, (v1 % 16) * 16, 0);
    var e := EncodeFinalByte(d[0]);
    assert e[0] == s[0] by { SymbolOfValue(s[0]); }
    assert e[1] == s[1] by { SymbolOfValue(s[1]); }
  }

  /** A final group of two bytes is the encoding of the bytes it decodes to. */
  lemma FinalPairEncodeDecode(s: string)
    requires |s| == 4 && s[2] != Pad && s[3] == Pad && DecodeFinal(s).Some?
    ensures |DecodeFinal(s).value| == 2
    ensures EncodeFinalPair(DecodeFinal(s).value[0], DecodeFinal(s).value[1]) == s
  {
    var v0, v1, v2 := SymbolValue(s[0]), SymbolValue(s[1]), SymbolValue(s[2]);
    var d := DecodeFinal(s).value;
    SextetsRebuilt(v0, v1, v2, 0, d[0] as int, d[1] as int, (v2 % 4) * 64);
    var e := EncodeFinalPair(d[0], d[1]);
    assert e[0] == s[0] by { SymbolOfValue(s[0]); }
    assert e[1] == s[1] by { SymbolOfValue(s[1]); }
    assert e[2] == s[2] by { SymbolOfValue(s[2]); }
  }

  /** A final group is the encoding of the one, two or three bytes it decodes to. */
  lemma FinalEncodeDecode(s: string)
    requires |s| == 4 && DecodeFinal(s).Some?
    ensures Encode(DecodeFinal(s).value) == s
  {
    var d := DecodeFinal(s).value;
    if s[2] == Pad && s[3] == Pad {
      FinalByteEncodeDecode(s);
    } else if s[3] == Pad {
      FinalPairEncodeDecode(s);
    } else {
      QuantumEncodeDecode(s);
      assert Encode(d[3..]) == "";
      assert Encode(d) == EncodeQuantum(d[0], d[1], d[2]) + "";
    }
  }

  /** Encoding undoes decoding: the only text that decodes to some bytes is
      their encoding. */
  lemma {:induction false} EncodeDecode(s: string)
    requires Decode(s).Some?
    ensures Encode(Decode(s).value) == s
    decreases |s|
  {
    if |s| == 0 {
    } else if |s| == 4 {
      FinalEncodeDecode(s);
    } else {
      var head, tail := DecodeQuantum(s[..4]).value, Decode(s[4..]).value;
      QuantumEncodeDecode(s[..4]);
      EncodeDecode(s[4..]);
      var d := head + tail;
      assert d[..3] == head && d[3..] == tail;
      assert Encode(d) == EncodeQuantum(d[0], d[1], d[2]) + Encode(d[3..]);
      assert s == s[..4] + s[4..];
    }
  }

  /** Distinct byte strings have distinct encodings. */
  lemma EncodeInjective(x: Bytes, y: Bytes)
    ensures Encode(x) == Encode(y) ==> x == y
  {
    DecodeEncode(x);
    DecodeEncode(y);
  }
}
