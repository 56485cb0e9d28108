/** `encodeURI` and `decodeURI` (ECMA-262 6th edition, sections 18.2.6.4 and
    18.2.6.2, through the Encode and Decode operations of section 18.2.6.1):
    every character outside a fixed set is written as the '%XX' escapes of its
    UTF-8 bytes (percent-encoding as in section 2.1 of RFC 3986).
    A Dafny `char` is a Unicode scalar value, so the URIError that `encodeURI`
    raises for a lone surrogate cannot arise here. */
module UriCodec {
  import opened Wrappers
  import Utf8
  import JsNumbers

  /** uriUnescaped: uriAlpha, DecimalDigit and uriMark. */
  predicate IsUriUnescaped(c: char) {
    ('a' <= c <= 'z') || ('A' <= c <= 'Z') || ('0' <= c <= '9') || c in "-_.!~*'()"
  }

  /** uriReserved. */
  predicate IsUriReserved(c: char) {
    c in ";/?:@&=+$,"
  }

  /** The unescaped set of encodeURI: uriReserved, uriUnescaped and '#'. */
  predicate KeptByEncodeUri(c: char) {
    IsUriReserved(c) || IsUriUnescaped(c) || c == '#'
  }

  /** The reserved set of decodeURI: uriReserved and '#'. An escape that decodes
      to one of these is left as it was written. */
  predicate InDecodeUriReservedSet(c: char) {
    IsUriReserved(c) || c == '#'
  }

  /** An upper-case hex digit. */
  function HexUpper(d: nat): (c: char)
    requires d < 16
    ensures JsNumbers.DigitValue(c) == d
    ensures '0' <= c <= '9' || 'A' <= c <= 'F'
  {
    if d < 10 then ('0' as int + d) as char else ('A' as int + d - 10) as char
  }

  /** "%XX" for each byte, upper-case hex. */
  function PercentEncode(bs: seq<Utf8.Byte>): (s: string)
    ensures |s| == 3 * |bs|
  {
    if bs == [] then [] else ['%', HexUpper(bs[0] / 16), HexUpper(bs[0] % 16)] + PercentEncode(bs[1..])
  }

  function EncodeUriChar(c: char): string {
    if KeptByEncodeUri(c) then [c] else PercentEncode(Utf8.EncodeChar(c))
  }

  function EncodeUri(s: string): string {
    if s == [] then [] else EncodeUriChar(s[0]) + EncodeUri(s[1..])
  }

  /** `s` starts with '%' and two hex digits. */
  predicate StartsWithEscape(s: string) {
    |s| >= 3 && s[0] == '%' && JsNumbers.IsRadixDigit(s[1], 16) && JsNumbers.IsRadixDigit(s[2], 16)
  }

  function EscapeByte(s: string): (b: Utf8.Byte)
    requires StartsWithEscape(s)
  {
    JsNumbers.DigitValue(s[1]) * 16 + JsNumbers.DigitValue(s[2])
  }

  /** The bytes of a run of escapes; `None` when some three characters are not one. */
  function ReadEscapes(s: string): (r: Option<seq<Utf8.Byte>>)
    requires |s| % 3 == 0
    ensures r.Some? ==> 3 * |r.value| == |s|
    decreases |s|
  {
    if s == [] then Some([])
    else if !StartsWithEscape(s) then None
    else match ReadEscapes(s[3..])
      case None => None
      case Some(rest) => Some([EscapeByte(s)] + rest)
  }

  function Prepend(piece: string, r: Option<string>): Option<string> {
    match r
    case None => None
    case Some(t) => Some(piece + t)
  }

  /** decodeURI; `None` is the URIError it throws on a malformed escape or
      on escapes that are not the UTF-8 encoding of one scalar value. */
  function DecodeUri(s: string): (r: Option<string>)
    decreases |s|
  {
    if s == [] then Some([])
    else if s[0] != '%' then Prepend([s[0]], DecodeUri(s[1..]))
    else if !StartsWithEscape(s) then None
    else
      var b := EscapeByte(s);
      if b < 0x80 then
        var c := b as char;
        Prepend(if InDecodeUriReservedSet(c) then s[..3] else [c], DecodeUri(s[3..]))
      else
        var n := Utf8.SequenceLength(b);
        if n < 2 || |s| < 3 * n then None
        else match ReadEscapes(s[..3 * n])
          case None => None
          case Some(octets) =>
            match Utf8.DecodeScalar(octets)
            case None => None
            case Some(c) => Prepend([c], DecodeUri(s[3 * n..]))
  }

  lemma EscapeByteOfEncoded(b: Utf8.Byte, t: string)
    ensures StartsWithEscape(['%', HexUpper(b / 16), HexUpper(b % 16)] + t)
    ensures EscapeByte(['%', HexUpper(b / 16), HexUpper(b % 16)] + t) == b
  {
  }

  lemma {:induction false} ReadEscapesOfEncoded(bs: seq<Utf8.Byte>)
    ensures ReadEscapes(PercentEncode(bs)) == Some(bs)
  {
    if bs != [] {
      var e := PercentEncode(bs);
      EscapeByteOfEncoded(bs[0], PercentEncode(bs[1..]));
      assert e[3..] == PercentEncode(bs[1..]);
      ReadEscapesOfEncoded(bs[1..]);
      assert [bs[0]] + bs[1..] == bs;
    }
  }

  /** Decoding one encoded character, followed by anything. */
  lemma DecodeUriChar(c: char, t: string)
    ensures DecodeUri(EncodeUriChar(c) + t) == Prepend([c], DecodeUri(t))
  {
    if KeptByEncodeUri(c) {
      var s := EncodeUriChar(c) + t;
      assert s[0] == c && s[1..] == t;
    } else if (c as int) < 0x80 {
      DecodeEscapedAscii(c, t);
    } else {
      DecodeEscapedMultiByte(c, t);
    }
  }

  lemma DecodeEscapedAscii(c: char, t: string)
    requires !KeptByEncodeUri(c) && (c as int) < 0x80
    ensures DecodeUri(EncodeUriChar(c) + t) == Prepend([c], DecodeUri(t))
  {
    var b: Utf8.Byte := c as int;
    assert Utf8.EncodeChar(c) == [b];
    var e := ['%', HexUpper(b / 16), HexUpper(b % 16)];
    assert PercentEncode([b]) == e + [];
    var s := e + t;
    assert EncodeUriChar(c) + t == s;
    EscapeByteOfEncoded(b, t);
    assert (b as char) == c;
    assert s[3..] == t;
  }

  lemma DecodeEscapedMultiByte(c: char, t: string)
    requires (c as int) >= 0x80
    ensures DecodeUri(EncodeUriChar(c) + t) == Prepend([c], DecodeUri(t))
  {
    var bs := Utf8.EncodeChar(c);
    var n := |bs|;
    var e := PercentEncode(bs);
    assert !KeptByEncodeUri(c);
    var s := e + t;
    assert EncodeUriChar(c) + t == s;
    assert e == ['%', HexUpper(bs[0] / 16), HexUpper(bs[0] % 16)] + PercentEncode(bs[1..]);
    EscapeByteOfEncoded(bs[0], PercentEncode(bs[1..]) + t);
    assert s == ['%', HexUpper(bs[0] / 16), HexUpper(bs[0] % 16)] + (PercentEncode(bs[1..]) + t);
    assert s[..3 * n] == e && s[3 * n..] == t;
    ReadEscapesOfEncoded(bs);
    Utf8.DecodeEncodeChar(c);
  }

  /** decodeURI undoes encodeURI on every string. */
  lemma {:induction false} DecodeEncodeUri(s: string)
    ensures DecodeUri(EncodeUri(s)) == Some(s)
  {
    if s != [] {
      DecodeUriChar(s[0], EncodeUri(s[1..]));
      DecodeEncodeUri(s[1..]);
      assert [s[0]] + s[1..] == s;
    }
  }

  /** encodeURI leaves the characters of its unescaped set in place, so a
      string made only of them is its own encoding. */
  lemma {:induction false} EncodeUriKeeps(s: string)
    requires forall i :: 0 <= i < |s| ==> KeptByEncodeUri(s[i])
    ensures EncodeUri(s) == s
  {
    if s != [] {
      EncodeUriKeeps(s[1..]);
      assert [s[0]] + s[1..] == s;
    }
  }

  /** Every other character becomes exactly the escapes of its UTF-8 bytes. */
  lemma EncodeUriEscapes(c: char)
    requires !KeptByEncodeUri(c)
    ensures EncodeUri([c]) == PercentEncode(Utf8.EncodeChar(c))
  {
    assert [c][1..] == [];
    assert EncodeUri([c]) == EncodeUriChar(c) + [];
  }

  /** decodeURI leaves a string without '%' as it is. */
  lemma {:induction false} DecodeUriWithoutEscapes(s: string)
    ensures '%' !in s ==> DecodeUri(s) == Some(s)
  {
    if s != [] && '%' !in s {
      assert '%' !in s[1..] by { assert forall c :: c in s[1..] ==> c in s; }
      DecodeUriWithoutEscapes(s[1..]);
      assert [s[0]] + s[1..] == s;
    }
  }
}
