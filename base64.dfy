/** Base 64 encoding of bytes (RFC 4648, section 4): the standard alphabet,
    '=' padding to a multiple of four characters. This is what
    `Buffer.prototype.toString('base64')` produces; `Decode` is its strict
    inverse, accepting exactly the canonical encodings. */
module Base64 {
  import opened Wrappers
  import opened Utf8

  /** The character for a 6-bit value: A-Z, a-z, 0-9, '+', '/' (Table 1 of RFC 4648). */
  function SextetChar(v: nat): (c: char)
    requires v < 64
    ensures IsAlphabetChar(c) && SextetValue(c) == v
  {
    if v < 26 then ('A' as int + v) as char
    else if v < 52 then ('a' as int + v - 26) as char
    else if v < 62 then ('0' as int + v - 52) as char
    else if v == 62 then '+'
    else '/'
  }

  /** The 6-bit value of an alphabet character; 64 for any other character. */
  function SextetValue(c: char): (v: nat)
    ensures v <= 64
  {
    if 'A' <= c <= 'Z' then c as int - 'A' as int
    else if 'a' <= c <= 'z' then c as int - 'a' as int + 26
    else if '0' <= c <= '9' then c as int - '0' as int + 52
    else if c == '+' then 62
    else if c == '/' then 63
    else 64
  }

  predicate IsAlphabetChar(c: char) {
    SextetValue(c) < 64
  }

  /** Three bytes become four characters. */
  function EncodeGroup(b0: Byte, b1: Byte, b2: Byte): (q: string)
    ensures |q| == 4 && forall i :: 0 <= i < 4 ==> IsAlphabetChar(q[i])
  {
    [SextetChar(b0 / 4), SextetChar((b0 % 4) * 16 + b1 / 16),
     SextetChar((b1 % 16) * 4 + b2 / 64), SextetChar(b2 % 64)]
  }

  /** The final one or two bytes, padded with '=' to four characters. */
  function EncodeTail(bs: seq<Byte>): (q: string)
    requires 1 <= |bs| <= 2
    ensures |q| == 4 && q[3] == '=' && IsAlphabetChar(q[0]) && IsAlphabetChar(q[1])
    ensures |bs| == 1 <==> q[2] == '='
    ensures q[2] != '=' ==> IsAlphabetChar(q[2])
  {
    if |bs| == 1 then [SextetChar(bs[0] / 4), SextetChar((bs[0] % 4) * 16), '=', '=']
    else [SextetChar(bs[0] / 4), SextetChar((bs[0] % 4) * 16 + bs[1] / 16), SextetChar((bs[1] % 16) * 4), '=']
  }

  predicate IsEncodingChar(c: char) {
    IsAlphabetChar(c) || c == '='
  }

  function Encode(bs: seq<Byte>): (s: string)
    ensures |s| == 4 * ((|bs| + 2) / 3)
    ensures forall i :: 0 <= i < |s| ==> IsEncodingChar(s[i])
    decreases |bs|
  {
    if |bs| == 0 then ""
    else if |bs| <= 2 then EncodeTail(bs)
    else
      var g := EncodeGroup(bs[0], bs[1], bs[2]);
      var rest := Encode(bs[3..]);
      assert forall i :: 0 <= i < |g + rest| ==> (g + rest)[i] == if i < 4 then g[i] else rest[i - 4];
      g + rest
  }

  /** Four alphabet characters become three bytes. */
  function DecodeGroup(q: string): (r: Option<seq<Byte>>)
    requires |q| == 4
    ensures r.Some? ==> |r.value| == 3
  {
    var v0, v1, v2, v3 := SextetValue(q[0]), SextetValue(q[1]), SextetValue(q[2]), SextetValue(q[3]);
    if v0 == 64 || v1 == 64 || v2 == 64 || v3 == 64 then None
    else Some([v0 * 4 + v1 / 16, (v1 % 16) * 16 + v2 / 4, (v2 % 4) * 64 + v3])
  }

  /** The last four characters, which may end in one or two '='; the bits that
      padding leaves unused must be zero. */
  function DecodeLast(q: string): (r: Option<seq<Byte>>)
    requires |q| == 4
    ensures r.Some? ==> 1 <= |r.value| <= 3
  {
    var v0, v1, v2 := SextetValue(q[0]), SextetValue(q[1]), SextetValue(q[2]);
    if q[2] == '=' && q[3] == '=' then
      if v0 == 64 || v1 == 64 || v1 % 16 != 0 then None else Some([v0 * 4 + v1 / 16])
    else if q[3] == '=' then
      if v0 == 64 || v1 == 64 || v2 == 64 || v2 % 4 != 0 then None
      else Some([v0 * 4 + v1 / 16, (v1 % 16) * 16 + v2 / 4])
    else DecodeGroup(q)
  }

  /** Strict decoding: `None` unless `s` is a canonical encoding. */
  function Decode(s: string): (r: Option<seq<Byte>>)
    decreases |s|
  {
    if |s| == 0 then Some([])
    else if |s| < 4 then None
    else if |s| == 4 then DecodeLast(s)
    else
      match DecodeGroup(s[..4])
      case None => None
      case Some(g) =>
        match Decode(s[4..])
        case None => None
        case Some(rest) => Some(g + rest)
  }

  lemma DecodeEncodeGroup(b0: Byte, b1: Byte, b2: Byte)
    ensures DecodeGroup(EncodeGroup(b0, b1, b2)) == Some([b0, b1, b2])
  {
    var v1 := (b0 % 4) * 16 + b1 / 16;
    var v2 := (b1 % 16) * 4 + b2 / 64;
    assert v1 / 16 == b0 % 4 && v1 % 16 == b1 / 16;
    assert v2 / 4 == b1 % 16 && v2 % 4 == b2 / 64;
  }

  lemma DecodeEncodeTail(bs: seq<Byte>)
    requires 1 <= |bs| <= 2
    ensures DecodeLast(EncodeTail(bs)) == Some(bs)
  {
    var b0: int := bs[0];
    if |bs| == 1 {
      var v1 := (b0 % 4) * 16;
      assert v1 / 16 == b0 % 4 && v1 % 16 == 0;
      assert [b0 / 4 * 4 + b0 % 4] == bs;
    } else {
      var b1: int := bs[1];
      var v1 := (b0 % 4) * 16 + b1 / 16;
      var v2 := (b1 % 16) * 4;
      assert v1 / 16 == b0 % 4 && v1 % 16 == b1 / 16;
      assert v2 / 4 == b1 % 16 && v2 % 4 == 0;
      assert [b0 / 4 * 4 + b0 % 4, (b1 / 16) * 16 + b1 % 16] == bs;
    }
  }

  /** Base 64 round trip. */
  lemma {:induction false} DecodeEncode(bs: seq<Byte>)
    ensures Decode(Encode(bs)) == Some(bs)
    decreases |bs|
  {
    if |bs| == 0 {
    } else if |bs| <= 2 {
      DecodeEncodeTail(bs);
    } else {
      var g := EncodeGroup(bs[0], bs[1], bs[2]);
      var rest := Encode(bs[3..]);
      assert Encode(bs) == g + rest;
      DecodeEncodeGroup(bs[0], bs[1], bs[2]);
      DecodeEncode(bs[3..]);
      assert [bs[0], bs[1], bs[2]] + bs[3..] == bs;
      if rest == [] {
        assert bs[3..] == [];
        assert g + rest == g;
        assert IsAlphabetChar(g[2]) && IsAlphabetChar(g[3]);
        assert Decode(g) == DecodeGroup(g);
        assert bs == [bs[0], bs[1], bs[2]];
        assert Decode(Encode(bs)) == Some([bs[0], bs[1], bs[2]]);
      } else {
        assert (g + rest)[..4] == g && (g + rest)[4..] == rest;
      }
    }
  }

  /** Each alphabet character is the character of its own value. */
  lemma SextetCharOfValue(c: char)
    requires IsAlphabetChar(c)
    ensures SextetChar(SextetValue(c)) == c
  {
  }

  lemma EncodeDecodeGroup(q: string)
    requires |q| == 4 && DecodeGroup(q).Some?
    ensures var g := DecodeGroup(q).value; EncodeGroup(g[0], g[1], g[2]) == q
  {
    RegroupSextets(SextetValue(q[0]), SextetValue(q[1]), SextetValue(q[2]), SextetValue(q[3]));
    SextetCharOfValue(q[0]);
    SextetCharOfValue(q[1]);
    SextetCharOfValue(q[2]);
    SextetCharOfValue(q[3]);
    assert q == [q[0], q[1], q[2], q[3]];
  }

  /** Four sextets packed into three bytes and split again give the same
      four sextets. */
  lemma RegroupSextets(v0: nat, v1: nat, v2: nat, v3: nat)
    requires v0 < 64 && v1 < 64 && v2 < 64 && v3 < 64
    ensures var b0, b1, b2 := v0 * 4 + v1 / 16, (v1 % 16) * 16 + v2 / 4, (v2 % 4) * 64 + v3;
      && b0 / 4 == v0 && (b0 % 4) * 16 + b1 / 16 == v1
      && (b1 % 16) * 4 + b2 / 64 == v2 && b2 % 64 == v3
  {
    var b0, b1, b2 := v0 * 4 + v1 / 16, (v1 % 16) * 16 + v2 / 4, (v2 % 4) * 64 + v3;
    assert b0 / 4 == v0 && b0 % 4 == v1 / 16;
    assert b1 / 16 == v1 % 16 && b1 % 16 == v2 / 4;
    assert b2 / 64 == v2 % 4 && b2 % 64 == v3;
  }

  lemma EncodeDecodeLast(q: string)
    requires |q| == 4 && DecodeLast(q).Some?
    ensures var bs := DecodeLast(q).value;
      && (|bs| == 3 ==> EncodeGroup(bs[0], bs[1], bs[2]) == q)
      && (|bs| < 3 ==> EncodeTail(bs) == q)
  {
    if q[2] == '=' && q[3] == '=' {
      EncodeDecodeOnePadded(q);
    } else if q[3] == '=' {
      EncodeDecodeTwoPadded(q);
    } else {
      EncodeDecodeGroup(q);
    }
  }

  lemma EncodeDecodeOnePadded(q: string)
    requires |q| == 4 && q[2] == '=' && q[3] == '=' && DecodeLast(q).Some?
    ensures |DecodeLast(q).value| == 1 && EncodeTail(DecodeLast(q).value) == q
  {
    var v0, v1 := SextetValue(q[0]), SextetValue(q[1]);
    SextetCharOfValue(q[0]);
    SextetCharOfValue(q[1]);
    var b0 := v0 * 4 + v1 / 16;
    assert b0 / 4 == v0 && (b0 % 4) * 16 == v1;
    assert q == [q[0], q[1], q[2], q[3]];
  }

  lemma EncodeDecodeTwoPadded(q: string)
    requires |q| == 4 && q[2] != '=' && q[3] == '=' && DecodeLast(q).Some?
    ensures |DecodeLast(q).value| == 2 && EncodeTail(DecodeLast(q).value) == q
  {
    RegroupSextets(SextetValue(q[0]), SextetValue(q[1]), SextetValue(q[2]), 0);
    SextetCharOfValue(q[0]);
    SextetCharOfValue(q[1]);
    SextetCharOfValue(q[2]);
    assert q == [q[0], q[1], q[2], q[3]];
  }

  /** Whatever decodes is non-empty unless the text is. */
  lemma DecodeNonEmpty(s: string)
    requires Decode(s).Some? && s != []
    ensures |Decode(s).value| > 0
  {
  }

  /** Strict decoding is injective: a text that decodes is exactly the
      encoding of the bytes it decodes to. */
  lemma {:induction false} EncodeDecode(s: string)
    requires Decode(s).Some?
    ensures Encode(Decode(s).value) == s
    decreases |s|
  {
    if |s| == 4 {
      EncodeDecodeLast(s);
      var bs := Decode(s).value;
      if |bs| == 3 {
        assert bs[3..] == [];
        assert Encode(bs) == EncodeGroup(bs[0], bs[1], bs[2]) + "";
      }
    } else if |s| > 4 {
      var g := DecodeGroup(s[..4]).value;
      var rest := Decode(s[4..]).value;
      EncodeDecodeGroup(s[..4]);
      EncodeDecode(s[4..]);
      DecodeNonEmpty(s[4..]);
      var bs := g + rest;
      assert Decode(s).value == bs;
      assert bs[0] == g[0] && bs[1] == g[1] && bs[2] == g[2] && bs[3..] == rest;
      assert Encode(bs) == EncodeGroup(g[0], g[1], g[2]) + Encode(rest);
      assert s[..4] + s[4..] == s;
    }
  }
}
