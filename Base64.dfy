/**
 * The base64 encoding of section 4 of RFC 4648: 24-bit groups of input are
 * written as four characters of a 64-character alphabet, and a final group
 * of one or two bytes is completed with '=' padding.
 *
 * The decoder is strict: it accepts exactly the strings the encoder
 * produces (length a multiple of four, alphabet characters only, padding
 * only at the end, zero pad bits), so the two are inverse bijections.
 */
module Base64 {
  import opened Wrappers

  /** An octet of binary data. */
  type Byte = b: int | 0 <= b < 256

  /** The value of one base64 character: six bits. */
  type Sextet = v: int | 0 <= v < 64

  /** The character that stands for `v` in the alphabet of Table 1 of RFC 4648. */
  function Symbol(v: Sextet): (c: char)
    ensures c != '='
  {
    if v < 26 then ('A' as int + v) as char
    else if v < 52 then ('a' as int + (v - 26)) as char
    else if v < 62 then ('0' as int + (v - 52)) as char
    else if v == 62 then '+'
    else '/'
  }

  /** The value of `c` in the alphabet, or None for any other character (including '='). */
  function ValueOf(c: char): (r: Option<Sextet>)
    ensures r.Some? ==> Symbol(r.value) == c
    ensures c == '=' ==> r.None?
  {
    if 'A' <= c <= 'Z' then Some(c as int - 'A' as int)
    else if 'a' <= c <= 'z' then Some(c as int - 'a' as int + 26)
    else if '0' <= c <= '9' then Some(c as int - '0' as int + 52)
    else if c == '+' then Some(62)
    else if c == '/' then Some(63)
    else None
  }

  lemma ValueOfSymbol(v: Sextet)
    ensures ValueOf(Symbol(v)) == Some(v)
  {
  }

  /** Four characters for a complete group of three bytes (most significant bits first). */
  function EncodeTriple(b0: Byte, b1: Byte, b2: Byte): string
  {
    [Symbol(b0 / 4), Symbol((b0 % 4) * 16 + b1 / 16), Symbol((b1 % 16) * 4 + b2 / 64), Symbol(b2 % 64)]
  }

  /** Encoding of a byte sequence, final quantum padded as in section 4 of RFC 4648. */
  function Encode(b: seq<Byte>): (s: string)
    ensures |s| == 4 * ((|b| + 2) / 3)
    decreases |b|
  {
    if |b| == 0 then []
    else if |b| == 1 then [Symbol(b[0] / 4), Symbol((b[0] % 4) * 16), '=', '=']
    else if |b| == 2 then [Symbol(b[0] / 4), Symbol((b[0] % 4) * 16 + b[1] / 16), Symbol((b[1] % 16) * 4), '=']
    else EncodeTriple(b[0], b[1], b[2]) + Encode(b[3..])
  }

  /**
   * Decodes one group of four characters. Padding is accepted only when
   * the group is the `last` one, and the bits it leaves over must be zero.
   */
  function DecodeQuad(q: string, last: bool): (r: Option<seq<Byte>>)
    requires |q| == 4
    ensures r.Some? ==> 1 <= |r.value| <= 3 && (!last ==> |r.value| == 3)
  {
    var v0, v1, v2, v3 := ValueOf(q[0]), ValueOf(q[1]), ValueOf(q[2]), ValueOf(q[3]);
    if v0.None? || v1.None? then None
    else if v2.Some? && v3.Some? then
      Some([v0.value * 4 + v1.value / 16, (v1.value % 16) * 16 + v2.value / 4, (v2.value % 4) * 64 + v3.value])
    else if last && v2.Some? && q[3] == '=' && v2.value % 4 == 0 then
      Some([v0.value * 4 + v1.value / 16, (v1.value % 16) * 16 + v2.value / 4])
    else if last && q[2] == '=' && q[3] == '=' && v1.value % 16 == 0 then
      Some([v0.value * 4 + v1.value / 16])
    else None
  }

  /** Strict decoding: None for every string that is not the encoding of some bytes. */
  function Decode(s: string): (r: Option<seq<Byte>>)
    ensures r.Some? ==> |s| % 4 == 0 && (|s| == 0 <==> |r.value| == 0)
    decreases |s|
  {
    if |s| == 0 then Some([])
    else if |s| < 4 then None
    else
      var head := DecodeQuad(s[..4], |s| == 4);
      if head.None? then None
      else
        match Decode(s[4..])
        case None => None
        case Some(tail) => Some(head.value + tail)
  }

  /** The bit arithmetic of the decoder inverts that of the encoder for one, two and three bytes. */
  lemma UnpackPacked(b0: Byte, b1: Byte, b2: Byte)
    ensures var c0, c1 := b0 / 4, (b0 % 4) * 16 + b1 / 16;
      c0 * 4 + c1 / 16 == b0
    ensures var c1, c2 := (b0 % 4) * 16 + b1 / 16, (b1 % 16) * 4 + b2 / 64;
      (c1 % 16) * 16 + c2 / 4 == b1 && (c2 % 4) * 64 + b2 % 64 == b2
    ensures ((b0 % 4) * 16) % 16 == 0 && ((b1 % 16) * 4) % 4 == 0
    ensures var c1, c2 := (b0 % 4) * 16 + b1 / 16, (b1 % 16) * 4;
      (c1 % 16) * 16 + c2 / 4 == b1
  {
  }

  /** The bit arithmetic of the encoder inverts that of the decoder. */
  lemma PackUnpacked(v0: Sextet, v1: Sextet, v2: Sextet, v3: Sextet)
    ensures var d0, d1 := v0 * 4 + v1 / 16, (v1 % 16) * 16 + v2 / 4;
      d0 / 4 == v0 && (d0 % 4) * 16 + d1 / 16 == v1
    ensures var d1, d2 := (v1 % 16) * 16 + v2 / 4, (v2 % 4) * 64 + v3;
      (d1 % 16) * 4 + d2 / 64 == v2 && d2 % 64 == v3
    ensures v2 % 4 == 0 ==> ((v1 % 16) * 16 + v2 / 4) % 16 * 4 == v2
    ensures v1 % 16 == 0 ==> ((v0 * 4 + v1 / 16) % 4) * 16 == v1
  {
  }

  lemma DecodeEncodeTriple(b0: Byte, b1: Byte, b2: Byte, last: bool)
    ensures DecodeQuad(EncodeTriple(b0, b1, b2), last) == Some([b0, b1, b2])
  {
    UnpackPacked(b0, b1, b2);
    ValueOfSymbol(b0 / 4);
    ValueOfSymbol((b0 % 4) * 16 + b1 / 16);
    ValueOfSymbol((b1 % 16) * 4 + b2 / 64);
    ValueOfSymbol(b2 % 64);
  }

  /** Decode reads a string group by group: the first group's bytes followed by the rest's. */
  lemma DecodeGroups(s: string, head: seq<Byte>, tail: seq<Byte>)
    requires |s| >= 4
    requires DecodeQuad(s[..4], |s| == 4) == Some(head) && Decode(s[4..]) == Some(tail)
    ensures Decode(s) == Some(head + tail)
  {
  }

  lemma DecodeEncodeSingle(b0: Byte)
    ensures Decode(Encode([b0])) == Some([b0])
  {
    var s := Encode([b0]);
    UnpackPacked(b0, 0, 0);
    ValueOfSymbol(b0 / 4);
    ValueOfSymbol((b0 % 4) * 16);
    assert s[..4] == s && s[4..] == [];
    assert ValueOf(s[0]) == Some(b0 / 4) && ValueOf(s[1]) == Some((b0 % 4) * 16);
    assert ValueOf(s[2]).None? && s[2] == '=' && s[3] == '=';
    assert DecodeQuad(s, true) == Some([b0]);
    assert Decode(s[4..]) == Some([]);
    assert [b0] + [] == [b0];
  }

  lemma DecodeEncodePair(b0: Byte, b1: Byte)
    ensures Decode(Encode([b0, b1])) == Some([b0, b1])
  {
    var s := Encode([b0, b1]);
    UnpackPacked(b0, b1, 0);
    ValueOfSymbol(b0 / 4);
    ValueOfSymbol((b0 % 4) * 16 + b1 / 16);
    ValueOfSymbol((b1 % 16) * 4);
    assert s[..4] == s && s[4..] == [];
    assert ValueOf(s[2]) == Some((b1 % 16) * 4) && ValueOf(s[3]).None? && s[3] == '=';
    assert DecodeQuad(s, true) == Some([b0, b1]);
    assert Decode(s[4..]) == Some([]);
    assert [b0, b1] + [] == [b0, b1];
  }

  /** Decoding undoes encoding: every byte sequence survives the round trip. */
  lemma {:induction false} DecodeEncode(b: seq<Byte>)
    ensures Decode(Encode(b)) == Some(b)
    decreases |b|
  {
    var s := Encode(b);
    if |b| == 1 {
      DecodeEncodeSingle(b[0]);
      assert b == [b[0]];
    } else if |b| == 2 {
      DecodeEncodePair(b[0], b[1]);
      assert b == [b[0], b[1]];
    } else if |b| >= 3 {
      var head, rest := b[..3], b[3..];
      assert s == EncodeTriple(b[0], b[1], b[2]) + Encode(rest);
      assert s[..4] == EncodeTriple(b[0], b[1], b[2]) && s[4..] == Encode(rest);
      DecodeEncodeTriple(b[0], b[1], b[2], |s| == 4);
      assert [b[0], b[1], b[2]] == head;
      DecodeEncode(rest);
      DecodeGroups(s, head, rest);
      assert head + rest == b;
    }
  }

  /** The encoder of a decoded group gives the group back. */
  lemma EncodeDecodeQuad(q: string, last: bool)
    requires |q| == 4 && DecodeQuad(q, last).Some?
    ensures Encode(DecodeQuad(q, last).value) == q
  {
    var d := DecodeQuad(q, last).value;
    var v0, v1 := ValueOf(q[0]).value, ValueOf(q[1]).value;
    var v2 := ValueOf(q[2]).GetOr(0);
    var v3 := ValueOf(q[3]).GetOr(0);
    PackUnpacked(v0, v1, v2, v3);
    if |d| == 3 {
      assert Encode(d) == EncodeTriple(d[0], d[1], d[2]) + Encode([]);
    }
  }

  /** Encoding undoes decoding: a string the decoder accepts is exactly the encoding of what it yields. */
  lemma {:induction false} EncodeDecode(s: string)
    requires Decode(s).Some?
    ensures Encode(Decode(s).value) == s
    decreases |s|
  {
    if |s| > 0 {
      var head := DecodeQuad(s[..4], |s| == 4).value;
      EncodeDecodeQuad(s[..4], |s| == 4);
      if |s| == 4 {
        assert Decode(s).value == head;
        assert s[..4] == s;
      } else {
        var tail := Decode(s[4..]).value;
        EncodeDecode(s[4..]);
        var b := head + tail;
        assert Decode(s).value == b;
        assert b[..3] == head && b[3..] == tail;
        assert Encode(b) == EncodeTriple(b[0], b[1], b[2]) + Encode(b[3..]);
        assert Encode(head) == EncodeTriple(head[0], head[1], head[2]) + Encode([]);
        assert s == s[..4] + s[4..];
      }
    }
  }

  /** The strict decoder accepts `s` exactly when `s` is the encoding of some bytes, and then yields those bytes. */
  lemma DecodeIffEncoded(s: string, b: seq<Byte>)
    ensures Decode(s) == Some(b) <==> Encode(b) == s
  {
    if Decode(s) == Some(b) {
      EncodeDecode(s);
    }
    if Encode(b) == s {
      DecodeEncode(b);
    }
  }

  /** The test vectors of section 10 of RFC 4648 ("", "f", "fo", "foo", "foob", "fooba", "foobar"). */
  lemma Rfc4648Vectors()
    ensures Encode([]) == ""
    ensures Encode([102]) == "Zg=="
    ensures Encode([102, 111]) == "Zm8="
    ensures Encode([102, 111, 111]) == "Zm9v"
    ensures Encode([102, 111, 111, 98]) == "Zm9vYg=="
    ensures Encode([102, 111, 111, 98, 97]) == "Zm9vYmE="
    ensures Encode([102, 111, 111, 98, 97, 114]) == "Zm9vYmFy"
  {
  }
}
