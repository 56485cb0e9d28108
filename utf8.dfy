/** UTF-8 (RFC 3629, section 3) between Unicode scalar values and bytes: what
    `Buffer.from(string)` writes and what `encodeURI` percent-encodes, and the
    strict inverse that `Buffer.prototype.toString()` and `decodeURI` apply to
    well-formed input. */
module Utf8 {
  import opened Wrappers

  type Byte = b: int | 0 <= b < 256

  predicate IsContinuation(b: Byte) {
    0x80 <= b < 0xC0
  }

  /** How many bytes a sequence that starts with `b` has: the number of leading
      1 bits of `b`, or 1 for an ASCII byte; 0 when `b` cannot start one
      (a continuation byte, or five or more leading 1 bits). */
  function SequenceLength(b: Byte): (n: nat)
    ensures n <= 4
  {
    if b < 0x80 then 1
    else if b < 0xC0 then 0
    else if b < 0xE0 then 2
    else if b < 0xF0 then 3
    else if b < 0xF8 then 4
    else 0
  }

  /** The bytes of one scalar value, shortest form. */
  function EncodeChar(c: char): (bs: seq<Byte>)
    ensures 1 <= |bs| <= 4 && SequenceLength(bs[0]) == |bs|
    ensures forall i :: 1 <= i < |bs| ==> IsContinuation(bs[i])
    ensures |bs| == 1 <==> (c as int) < 0x80
    ensures |bs| == 1 ==> bs[0] == c as int
  {
    var cp := c as int;
    if cp < 0x80 then [cp]
    else if cp < 0x800 then [0xC0 + cp / 64, 0x80 + cp % 64]
    else if cp < 0x10000 then [0xE0 + cp / 4096, 0x80 + (cp / 64) % 64, 0x80 + cp % 64]
    else [0xF0 + cp / 262144, 0x80 + (cp / 4096) % 64, 0x80 + (cp / 64) % 64, 0x80 + cp % 64]
  }

  function Encode(s: string): (bs: seq<Byte>)
    ensures |bs| >= |s|
  {
    if s == [] then [] else EncodeChar(s[0]) + Encode(s[1..])
  }

  /** The six low bits a continuation byte carries. */
  function Payload(b: Byte): int {
    b as int - 0x80
  }

  /** The code point carried by a sequence of the length its first byte announces. */
  function ScalarValue(bs: seq<Byte>): int
    requires 1 <= |bs| <= 4
  {
    var b0: int := bs[0];
    if |bs| == 1 then b0
    else if |bs| == 2 then (b0 - 0xC0) * 64 + Payload(bs[1])
    else if |bs| == 3 then (b0 - 0xE0) * 4096 + Payload(bs[1]) * 64 + Payload(bs[2])
    else (b0 - 0xF0) * 262144 + Payload(bs[1]) * 4096 + Payload(bs[2]) * 64 + Payload(bs[3])
  }

  /** The smallest code point that needs `n` bytes: anything below is an overlong form. */
  function MinScalar(n: nat): int {
    if n <= 1 then 0 else if n == 2 then 0x80 else if n == 3 then 0x800 else 0x10000
  }

  predicate AllContinuations(bs: seq<Byte>) {
    forall i :: 1 <= i < |bs| ==> IsContinuation(bs[i])
  }

  /** The one scalar value `bs` encodes, or `None` when `bs` is not exactly the
      shortest encoding of a scalar value (no surrogate, at most U+10FFFF). */
  function DecodeScalar(bs: seq<Byte>): (r: Option<char>)
    ensures r.Some? ==> 1 <= |bs| <= 4 && SequenceLength(bs[0]) == |bs| && AllContinuations(bs)
  {
    if |bs| == 0 || SequenceLength(bs[0]) != |bs| || !AllContinuations(bs) then None
    else
      var cp := ScalarValue(bs);
      if cp < MinScalar(|bs|) || 0xD800 <= cp < 0xE000 || cp > 0x10FFFF then None
      else Some(cp as char)
  }

  /** Strict decoding of a whole byte string; `None` on any malformed sequence. */
  function Decode(bs: seq<Byte>): (r: Option<string>)
    decreases |bs|
  {
    if bs == [] then Some([])
    else
      var n := SequenceLength(bs[0]);
      if n == 0 || n > |bs| then None
      else match DecodeScalar(bs[..n])
        case None => None
        case Some(c) =>
          match Decode(bs[n..])
          case None => None
          case Some(rest) => Some([c] + rest)
  }

  /** Each scalar value's encoding decodes back to it. */
  lemma DecodeEncodeChar(c: char)
    ensures DecodeScalar(EncodeChar(c)) == Some(c)
  {
    var cp := c as int;
    var bs := EncodeChar(c);
    assert ScalarValue(bs) == cp by {
      if cp < 0x80 {
      } else if cp < 0x800 {
        TwoByteValue(cp);
      } else if cp < 0x10000 {
        ThreeByteValue(cp);
      } else {
        FourByteValue(cp);
      }
    }
  }

  lemma TwoByteValue(cp: int)
    requires 0x80 <= cp < 0x800
    ensures (cp / 64) * 64 + cp % 64 == cp
  {
  }

  lemma ThreeByteValue(cp: int)
    requires 0x800 <= cp < 0x10000
    ensures (cp / 4096) * 4096 + ((cp / 64) % 64) * 64 + cp % 64 == cp
  {
    var q := cp / 64;
    assert q * 64 + cp % 64 == cp;
    assert (q / 64) * 64 + q % 64 == q;
    assert cp / 4096 == q / 64;
  }

  lemma FourByteValue(cp: int)
    requires 0x10000 <= cp < 0x110000
    ensures (cp / 262144) * 262144 + ((cp / 4096) % 64) * 4096 + ((cp / 64) % 64) * 64 + cp % 64 == cp
  {
    var q := cp / 64;
    var q2 := q / 64;
    assert q * 64 + cp % 64 == cp;
    assert q2 * 64 + q % 64 == q;
    assert (q2 / 64) * 64 + q2 % 64 == q2;
    assert cp / 4096 == q2;
    assert cp / 262144 == q2 / 64;
  }

  /** UTF-8 round trip: strict decoding undoes encoding. */
  lemma {:induction false} DecodeEncode(s: string)
    ensures Decode(Encode(s)) == Some(s)
  {
    if s != [] {
      var e := EncodeChar(s[0]);
      var bs := Encode(s);
      assert bs == e + Encode(s[1..]);
      assert bs[..|e|] == e && bs[|e|..] == Encode(s[1..]);
      DecodeEncodeChar(s[0]);
      DecodeEncode(s[1..]);
      assert [s[0]] + s[1..] == s;
    }
  }

  /** A byte string that decodes is the encoding of what it decodes to:
      strict decoding accepts only shortest forms. */
  lemma EncodeDecodeScalar(bs: seq<Byte>)
    requires DecodeScalar(bs).Some?
    ensures EncodeChar(DecodeScalar(bs).value) == bs
  {
    if |bs| == 2 {
      EncodeDecodeTwo(bs);
    } else if |bs| == 3 {
      EncodeDecodeThree(bs);
    } else if |bs| == 4 {
      EncodeDecodeFour(bs);
    }
  }

  lemma EncodeDecodeTwo(bs: seq<Byte>)
    requires |bs| == 2 && DecodeScalar(bs).Some?
    ensures EncodeChar(DecodeScalar(bs).value) == bs
  {
    var b0: int := bs[0];
    SplitTwo(b0 - 0xC0, Payload(bs[1]));
    assert bs == [bs[0], bs[1]];
  }

  lemma EncodeDecodeThree(bs: seq<Byte>)
    requires |bs| == 3 && DecodeScalar(bs).Some?
    ensures EncodeChar(DecodeScalar(bs).value) == bs
  {
    var b0: int := bs[0];
    SplitThree(b0 - 0xE0, Payload(bs[1]), Payload(bs[2]));
    assert bs == [bs[0], bs[1], bs[2]];
  }

  lemma EncodeDecodeFour(bs: seq<Byte>)
    requires |bs| == 4 && DecodeScalar(bs).Some?
    ensures EncodeChar(DecodeScalar(bs).value) == bs
  {
    var b0: int := bs[0];
    SplitFour(b0 - 0xF0, Payload(bs[1]), Payload(bs[2]), Payload(bs[3]));
    assert bs == [bs[0], bs[1], bs[2], bs[3]];
  }

  lemma SplitTwo(x: int, y: int)
    requires 0 <= x && 0 <= y < 64
    ensures (x * 64 + y) / 64 == x && (x * 64 + y) % 64 == y
  {
  }

  lemma SplitThree(x: int, y: int, z: int)
    requires 0 <= x && 0 <= y < 64 && 0 <= z < 64
    ensures var cp := x * 4096 + y * 64 + z;
      cp / 4096 == x && (cp / 64) % 64 == y && cp % 64 == z
  {
    var cp := x * 4096 + y * 64 + z;
    SplitTwo(x * 64 + y, z);
    assert cp == (x * 64 + y) * 64 + z;
    SplitTwo(x, y);
    assert cp / 4096 == (cp / 64) / 64;
  }

  lemma SplitFour(w: int, x: int, y: int, z: int)
    requires 0 <= w && 0 <= x < 64 && 0 <= y < 64 && 0 <= z < 64
    ensures var cp := w * 262144 + x * 4096 + y * 64 + z;
      cp / 262144 == w && (cp / 4096) % 64 == x && (cp / 64) % 64 == y && cp % 64 == z
  {
    var cp := w * 262144 + x * 4096 + y * 64 + z;
    var hi := w * 64 + x;
    assert cp == hi * 4096 + y * 64 + z;
    SplitThree(hi, y, z);
    SplitTwo(w, x);
    assert cp / 262144 == (cp / 4096) / 64;
  }

  /** Strict decoding is injective: a byte string that decodes is exactly the
      encoding of the text it decodes to. */
  lemma {:induction false} EncodeDecode(bs: seq<Byte>)
    requires Decode(bs).Some?
    ensures Encode(Decode(bs).value) == bs
    decreases |bs|
  {
    if bs != [] {
      var n := SequenceLength(bs[0]);
      var c := DecodeScalar(bs[..n]).value;
      var t := Decode(bs[n..]).value;
      EncodeDecodeScalar(bs[..n]);
      EncodeDecode(bs[n..]);
      var s := [c] + t;
      assert Decode(bs).value == s;
      assert s[0] == c && s[1..] == t;
      assert Encode(s) == EncodeChar(c) + Encode(t);
      assert bs[..n] + bs[n..] == bs;
    }
  }
}
