/** The column value transformers of src/models/ValueTransformers.ts: the
    `to` side runs when an entity is written, the `from` side when a row is
    read. `None` from UriEncodeFrom is the URIError decodeURI throws; `None`
    from Base64From is input the strict decoder refuses, where `Buffer` would
    not throw but decode leniently. Case mapping is ASCII-only. */
module ValueTransformers {
  import opened Wrappers
  import Utf8
  import Base64
  import UriCodec

  /** URIEncode.from: decodeURI. */
  function UriEncodeFrom(databaseValue: string): (r: Option<string>)
    ensures '%' !in databaseValue ==> r == Some(databaseValue)
  {
    UriCodec.DecodeUriWithoutEscapes(databaseValue);
    UriCodec.DecodeUri(databaseValue)
  }

  /** URIEncode.to: encodeURI. What it writes reads back as the original. */
  function UriEncodeTo(entityValue: string): (r: string)
    ensures UriEncodeFrom(r) == Some(entityValue)
  {
    UriCodec.DecodeEncodeUri(entityValue);
    UriCodec.EncodeUri(entityValue)
  }

  /** base6Encode.from: the base 64 text decoded to bytes, the bytes read as
      UTF-8. Only canonical text decodes: the base 64 of the UTF-8 of what it
      decodes to. */
  function Base64From(databaseValue: string): (r: Option<string>)
    ensures r.Some? ==> Base64.Encode(Utf8.Encode(r.value)) == databaseValue
  {
    match Base64.Decode(databaseValue)
    case None => None
    case Some(bytes) =>
      match Utf8.Decode(bytes)
      case None => None
      case Some(text) =>
        Utf8.EncodeDecode(bytes);
        Base64.EncodeDecode(databaseValue);
        Some(text)
  }

  /** base6Encode.to: the UTF-8 bytes in base 64, four characters from the
      alphabet or '=' for every three bytes begun, and read back as the
      original by base6Encode.from. */
  function Base64To(entityValue: string): (r: string)
    ensures |r| == 4 * ((|Utf8.Encode(entityValue)| + 2) / 3)
    ensures forall i :: 0 <= i < |r| ==> Base64.IsEncodingChar(r[i])
    ensures Base64From(r) == Some(entityValue)
  {
    var bytes := Utf8.Encode(entityValue);
    Base64.DecodeEncode(bytes);
    Utf8.DecodeEncode(entityValue);
    Base64.Encode(bytes)
  }

  /** The two sides of base6Encode are inverse bijections between texts and
      canonical base 64. */
  lemma Base64Bijection(text: string, stored: string)
    ensures Base64From(stored) == Some(text) <==> Base64To(text) == stored
  {
  }

  predicate IsAsciiUpper(c: char) {
    'A' <= c <= 'Z'
  }

  /** The lower-case letter for an ASCII capital; every other character
      stays. */
  function LowerChar(c: char): (d: char)
    ensures IsAsciiUpper(c) ==> d as int == c as int + 32
    ensures !IsAsciiUpper(c) ==> d == c
    ensures !IsAsciiUpper(d)
  {
    if IsAsciiUpper(c) then (c as int + 32) as char else c
  }

  /** lowercase.to: every ASCII capital becomes its small letter and nothing
      else changes; no capital is left. */
  function LowercaseTo(entityValue: string): (r: string)
    ensures |r| == |entityValue|
    ensures forall i :: 0 <= i < |r| ==> r[i] == LowerChar(entityValue[i])
    ensures forall i :: 0 <= i < |r| ==> !IsAsciiUpper(r[i])
  {
    if entityValue == [] then []
    else [LowerChar(entityValue[0])] + LowercaseTo(entityValue[1..])
  }

  /** lowercase.from: the stored value as it is. */
  function LowercaseFrom(databaseValue: string): (r: string)
    ensures r == databaseValue
  {
    databaseValue
  }

  /** Lowering twice is lowering once. */
  lemma LowercaseIdempotent(s: string)
    ensures LowercaseTo(LowercaseTo(s)) == LowercaseTo(s)
  {
  }

  /** A string without ASCII capitals is stored as it is. */
  lemma LowercaseKeepsLower(s: string)
    requires forall i :: 0 <= i < |s| ==> !IsAsciiUpper(s[i])
    ensures LowercaseTo(s) == s
  {
  }

  /** The lowercase column forgets ASCII letter case and nothing else: two
      values read back equal exactly when they have the same length and agree
      once each character is lowered. */
  lemma {:induction false} LowercaseCaseInsensitive(s: string, t: string)
    ensures LowercaseFrom(LowercaseTo(s)) == LowercaseFrom(LowercaseTo(t)) <==>
      |s| == |t| && forall i :: 0 <= i < |s| ==> LowerChar(s[i]) == LowerChar(t[i])
  {
    var ls, lt := LowercaseTo(s), LowercaseTo(t);
    if |s| == |t| && forall i :: 0 <= i < |s| ==> LowerChar(s[i]) == LowerChar(t[i]) {
      assert forall i :: 0 <= i < |ls| ==> ls[i] == lt[i];
    }
    if ls == lt {
      assert forall i :: 0 <= i < |s| ==> LowerChar(s[i]) == ls[i] == lt[i] == LowerChar(t[i]);
    }
  }
}
