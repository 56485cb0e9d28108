/** The two JavaScript number conversions the core relies on: the global
    `parseInt(string, radix)` (ECMA-262 6th edition, section 18.2.5) and
    `Number.prototype.toString(radix)` on integral numbers (section 20.1.3.6).
    Numbers are unbounded integers here: the loss of precision of IEEE doubles
    above 2^53 is not modelled, and NaN is `None`. */
module JsNumbers {
  import opened Wrappers

  /** StrWhiteSpaceChar (section 7.1.3.1): the WhiteSpace and LineTerminator
      code points, with the space separators of the Zs category spelt out. */
  predicate IsStrWhiteSpace(c: char) {
    c == '\t' || c == '\n' || c == '\U{B}' || c == '\U{C}' || c == '\r' || c == ' '
    || c == '\U{A0}' || c == '\U{1680}' || ('\U{2000}' <= c <= '\U{200A}')
    || c == '\U{2028}' || c == '\U{2029}' || c == '\U{202F}' || c == '\U{205F}'
    || c == '\U{3000}' || c == '\U{FEFF}'
  }

  /** TrimString(string, "start"): drops the leading white space. */
  function TrimStart(s: string): (r: string)
    ensures |r| <= |s| && r == s[|s| - |r|..]
    ensures forall i :: 0 <= i < |s| - |r| ==> IsStrWhiteSpace(s[i])
    ensures r == [] || !IsStrWhiteSpace(r[0])
  {
    if |s| > 0 && IsStrWhiteSpace(s[0]) then TrimStart(s[1..]) else s
  }

  /** The value of a digit in radices up to 36 ('0'-'9', then 'a'-'z' or
      'A'-'Z' for 10-35); 36 for every other character. */
  function DigitValue(c: char): (d: nat)
    ensures d <= 36
  {
    if '0' <= c <= '9' then c as int - '0' as int
    else if 'a' <= c <= 'z' then c as int - 'a' as int + 10
    else if 'A' <= c <= 'Z' then c as int - 'A' as int + 10
    else 36
  }

  predicate IsRadixDigit(c: char, radix: nat) {
    DigitValue(c) < radix
  }

  predicate AllRadixDigits(s: string, radix: nat) {
    forall i :: 0 <= i < |s| ==> IsRadixDigit(s[i], radix)
  }

  /** The longest prefix made of radix-R digits (step 11 of parseInt). */
  function DigitPrefix(s: string, radix: nat): (z: string)
    ensures z <= s
    ensures AllRadixDigits(z, radix)
    ensures |z| < |s| ==> !IsRadixDigit(s[|z|], radix)
  {
    if |s| > 0 && IsRadixDigit(s[0], radix) then [s[0]] + DigitPrefix(s[1..], radix) else []
  }

  /** The mathematical value of a digit string, most significant digit first. */
  function DigitsValue(ds: string, radix: nat): nat {
    if ds == [] then 0 else DigitsValue(ds[..|ds| - 1], radix) * radix + DigitValue(ds[|ds| - 1])
  }

  predicate HasHexPrefix(s: string) {
    |s| >= 2 && s[0] == '0' && (s[1] == 'x' || s[1] == 'X')
  }

  /** Steps 4-5 of parseInt: the sign is -1 when the trimmed string starts with '-'. */
  predicate IsNegative(trimmed: string) {
    |trimmed| > 0 && trimmed[0] == '-'
  }

  /** The signed value of a digit run. */
  function Signed(negative: bool, v: nat): int {
    if negative then -(v as int) else v
  }

  /** What parseInt reads its digits from (steps 1-10): white space, then one
      sign character, then (for radix 16 only) a "0x"/"0X" prefix removed. */
  function Body(s: string, radix: nat): string {
    var t := TrimStart(s);
    var u := if |t| > 0 && (t[0] == '-' || t[0] == '+') then t[1..] else t;
    if radix == 16 && HasHexPrefix(u) then u[2..] else u
  }

  /** parseInt(s, radix) for an explicit radix between 2 and 36; `None` is NaN. */
  function ParseInt(s: string, radix: nat): (r: Option<int>)
    requires 2 <= radix <= 36
    ensures r.None? <==> Body(s, radix) == [] || !IsRadixDigit(Body(s, radix)[0], radix)
    ensures r.Some? && r.value < 0 ==> TrimStart(s)[0] == '-'
  {
    var z := DigitPrefix(Body(s, radix), radix);
    if z == [] then None else Some(Signed(IsNegative(TrimStart(s)), DigitsValue(z, radix)))
  }

  /** The lower-case digit for a value below 36. */
  function DigitChar(d: nat): (c: char)
    requires d < 36
    ensures DigitValue(c) == d
    ensures !('A' <= c <= 'Z')
  {
    if d < 10 then ('0' as int + d) as char else ('a' as int + d - 10) as char
  }

  /** The digits of a natural number in the given radix: lower case, no
      leading zero, "0" for zero. */
  function NatToDigits(n: nat, radix: nat): (ds: string)
    requires 2 <= radix <= 36
    ensures |ds| > 0 && AllRadixDigits(ds, radix)
    ensures forall i :: 0 <= i < |ds| ==> !('A' <= ds[i] <= 'Z')
    ensures |ds| > 1 ==> ds[0] != '0'
    ensures DigitsValue(ds, radix) == n
    decreases n
  {
    if n < radix then
      var ds := [DigitChar(n)];
      assert ds[..0] == [];
      ds
    else
      QuotientBounds(n, radix);
      var hi := NatToDigits(n / radix, radix);
      var d := DigitChar(n % radix);
      var ds := hi + [d];
      assert AllRadixDigits(ds, radix) && forall i :: 0 <= i < |ds| ==> !('A' <= ds[i] <= 'Z') by {
        assert forall i :: 0 <= i < |ds| ==> ds[i] == if i < |hi| then hi[i] else d;
      }
      assert DigitsValue(ds, radix) == n by {
        DigitsValueSnoc(hi, d, radix);
        DivMod(n, radix);
      }
      assert ds[0] != '0' by {
        if |hi| == 1 {
          assert hi == [] + [hi[0]];
          DigitsValueSnoc([], hi[0], radix);
        }
      }
      ds
  }

  lemma DivMod(n: nat, radix: nat)
    requires radix > 0
    ensures (n / radix) * radix + n % radix == n
  {
  }

  lemma QuotientBounds(n: nat, radix: nat)
    requires 2 <= radix <= n
    ensures 1 <= n / radix < n
  {
    DivMod(n, radix);
    var q := n / radix;
    MulMonotone(q, 2, radix);
  }

  lemma MulMonotone(q: nat, a: nat, b: nat)
    requires a <= b
    ensures q * a <= q * b
  {
  }

  lemma DigitsValueSnoc(ds: string, c: char, radix: nat)
    ensures DigitsValue(ds + [c], radix) == DigitsValue(ds, radix) * radix + DigitValue(c)
  {
    assert (ds + [c])[..|ds|] == ds;
  }

  /** No radix digit is white space and none is a sign. */
  lemma DigitNotSpace(c: char, radix: nat)
    requires radix <= 36 && IsRadixDigit(c, radix)
    ensures !IsStrWhiteSpace(c) && c != '-' && c != '+'
  {
  }

  /** `s` is an optional '-' (present exactly when `negative`) followed by
      lower-case radix digits. */
  predicate IsRendering(s: string, negative: bool, radix: nat) {
    && |s| > 0 && (s[0] == '-' <==> negative)
    && var ds := if negative then s[1..] else s;
    && ds != [] && AllRadixDigits(ds, radix)
    && forall k :: 0 <= k < |ds| ==> !('A' <= ds[k] <= 'Z')
  }

  /** Number.prototype.toString(radix) of an integral number: '-' before the
      digits of a negative number. */
  function ToStringRadix(i: int, radix: nat): (s: string)
    requires 2 <= radix <= 36
    ensures IsRendering(s, i < 0, radix)
  {
    if i < 0 then "-" + NatToDigits(-i, radix) else NatToDigits(i, radix)
  }

  /** A string of `k` zero digits. */
  function Zeros(k: nat): (z: string)
    ensures |z| == k && forall i :: 0 <= i < k ==> z[i] == '0'
  {
    if k == 0 then [] else ['0'] + Zeros(k - 1)
  }

  lemma {:induction false} DigitPrefixAppend(ds: string, t: string, radix: nat)
    requires AllRadixDigits(ds, radix)
    ensures DigitPrefix(ds + t, radix) == ds + DigitPrefix(t, radix)
  {
    if ds != [] {
      assert (ds + t)[0] == ds[0] && (ds + t)[1..] == ds[1..] + t;
      assert IsRadixDigit(ds[0], radix);
      assert AllRadixDigits(ds[1..], radix) by {
        forall i | 0 <= i < |ds| - 1 ensures IsRadixDigit(ds[1..][i], radix) {
          assert ds[1..][i] == ds[i + 1];
        }
      }
      DigitPrefixAppend(ds[1..], t, radix);
      calc {
        DigitPrefix(ds + t, radix);
        [ds[0]] + DigitPrefix(ds[1..] + t, radix);
        [ds[0]] + (ds[1..] + DigitPrefix(t, radix));
        ([ds[0]] + ds[1..]) + DigitPrefix(t, radix);
        { assert [ds[0]] + ds[1..] == ds; }
        ds + DigitPrefix(t, radix);
      }
    } else {
      assert ds + t == t;
    }
  }

  lemma DigitPrefixWhole(ds: string, radix: nat)
    requires AllRadixDigits(ds, radix)
    ensures DigitPrefix(ds, radix) == ds
  {
    DigitPrefixAppend(ds, [], radix);
    assert ds + [] == ds;
  }

  /** A leading zero digit adds nothing to the value. */
  lemma {:induction false} LeadingZeroValue(ds: string, radix: nat)
    ensures DigitsValue(['0'] + ds, radix) == DigitsValue(ds, radix)
    decreases |ds|
  {
    if ds == [] {
      DigitsValueSnoc([], '0', radix);
      assert ['0'] + ds == [] + ['0'];
    } else {
      var init, last := ds[..|ds| - 1], ds[|ds| - 1];
      LeadingZeroValue(init, radix);
      var a, b := DigitsValue(['0'] + init, radix), DigitsValue(init, radix);
      assert a * radix == b * radix;
      calc {
        DigitsValue(['0'] + ds, radix);
        { assert ['0'] + ds == (['0'] + init) + [last]; }
        DigitsValue((['0'] + init) + [last], radix);
        { DigitsValueSnoc(['0'] + init, last, radix); }
        a * radix + DigitValue(last);
        b * radix + DigitValue(last);
        { DigitsValueSnoc(init, last, radix); }
        DigitsValue(init + [last], radix);
        { assert ds == init + [last]; }
        DigitsValue(ds, radix);
      }
    }
  }

  lemma {:induction false} LeadingZerosValue(k: nat, ds: string, radix: nat)
    ensures DigitsValue(Zeros(k) + ds, radix) == DigitsValue(ds, radix)
  {
    if k > 0 {
      assert Zeros(k) == ['0'] + Zeros(k - 1);
      assert Zeros(k) + ds == ['0'] + (Zeros(k - 1) + ds);
      LeadingZeroValue(Zeros(k - 1) + ds, radix);
      LeadingZerosValue(k - 1, ds, radix);
    } else {
      assert Zeros(k) + ds == ds;
    }
  }

  lemma TrimStartClean(s: string)
    requires |s| > 0 && !IsStrWhiteSpace(s[0])
    ensures TrimStart(s) == s
  {
  }

  /** parseInt once its digit run `z` is known. */
  lemma {:induction false} ParseIntOfDigits(s: string, radix: nat, z: string, rest: string)
    requires 2 <= radix <= 36
    requires Body(s, radix) == z + rest && z != [] && AllRadixDigits(z, radix)
    requires rest == [] || !IsRadixDigit(rest[0], radix)
    ensures ParseInt(s, radix) == Some(Signed(IsNegative(TrimStart(s)), DigitsValue(z, radix)))
  {
    DigitPrefixAppend(z, rest, radix);
    assert DigitPrefix(rest, radix) == [];
    assert z + [] == z;
  }

  /** toString(radix) and parseInt(·, radix) are inverse on integers. */
  lemma ParseIntToStringRadix(i: int, radix: nat)
    requires 2 <= radix <= 36
    ensures ParseInt(ToStringRadix(i, radix), radix) == Some(i)
  {
    if i < 0 {
      ParseIntToStringNegative(i, radix);
    } else {
      ParseIntToStringNonNegative(i, radix);
    }
  }

  lemma ParseIntToStringNegative(i: int, radix: nat)
    requires 2 <= radix <= 36 && i < 0
    ensures ParseInt(ToStringRadix(i, radix), radix) == Some(i)
  {
    var ds := NatToDigits(-i, radix);
    DigitNotSpace(ds[0], radix);
    var s := ToStringRadix(i, radix);
    assert s == "-" + ds;
    TrimStartClean(s);
    assert Body(s, radix) == ds + [] by { assert s[1..] == ds; }
    ParseIntOfDigits(s, radix, ds, []);
  }

  lemma ParseIntToStringNonNegative(i: int, radix: nat)
    requires 2 <= radix <= 36 && i >= 0
    ensures ParseInt(ToStringRadix(i, radix), radix) == Some(i)
  {
    var ds := NatToDigits(i, radix);
    DigitNotSpace(ds[0], radix);
    var s := ToStringRadix(i, radix);
    assert s == ds;
    TrimStartClean(s);
    assert Body(s, radix) == ds + [];
    ParseIntOfDigits(s, radix, ds, []);
  }

  /** "0x" (or "0X") followed by the lower-case hex digits of n decodes to n. */
  lemma HexWithPrefix(n: nat, x: char)
    requires x == 'x' || x == 'X'
    ensures ParseInt(['0', x] + NatToDigits(n, 16), 16) == Some(n)
  {
    var ds := NatToDigits(n, 16);
    var s := ['0', x] + ds;
    TrimStartClean(s);
    assert Body(s, 16) == ds + [] by { assert s[2..] == ds; }
    ParseIntOfDigits(s, 16, ds, []);
  }

  /** After "0x", parseInt(·, 16) reads the rest of the string. */
  lemma BodyAfterHexPrefix(v: string)
    ensures TrimStart("0x" + v) == "0x" + v && !IsNegative("0x" + v)
    ensures Body("0x" + v, 16) == v
  {
    TrimStartClean("0x" + v);
    assert ("0x" + v)[2..] == v;
  }

  /** Zero digits after the prefix do not change the decoded value:
      "0x00ff" and "0xff" both decode to 255. */
  lemma HexLeadingZeros(k: nat, w: string)
    requires |w| > 0 && IsRadixDigit(w[0], 16)
    ensures ParseInt("0x" + Zeros(k) + w, 16) == ParseInt("0x" + w, 16)
    ensures ParseInt("0x" + Zeros(k) + w, 16).Some?
  {
    var z := DigitPrefix(w, 16);
    var rest := w[|z|..];
    assert w == z + rest;
    assert "0x" + Zeros(k) + w == "0x" + ((Zeros(k) + z) + rest);
    BodyAfterHexPrefix((Zeros(k) + z) + rest);
    BodyAfterHexPrefix(w);
    assert AllRadixDigits(Zeros(k) + z, 16);
    ParseIntOfDigits("0x" + Zeros(k) + w, 16, Zeros(k) + z, rest);
    ParseIntOfDigits("0x" + w, 16, z, rest);
    LeadingZerosValue(k, z, 16);
  }

  /** Decoding stops at the first character that is not a hex digit; with no
      digit before it the result is NaN. */
  lemma HexStopsAtNonDigit(ds: string, c: char, t: string)
    requires AllRadixDigits(ds, 16) && !IsRadixDigit(c, 16)
    ensures ParseInt("0x" + ds + [c] + t, 16) == ParseInt("0x" + ds, 16)
    ensures ds == [] ==> ParseInt("0x" + ds + [c] + t, 16).None?
  {
    assert "0x" + ds + [c] + t == "0x" + (ds + ([c] + t));
    BodyAfterHexPrefix(ds + ([c] + t));
    BodyAfterHexPrefix(ds);
    if ds != [] {
      ParseIntOfDigits("0x" + ds + [c] + t, 16, ds, [c] + t);
      assert ds + [] == ds;
      ParseIntOfDigits("0x" + ds, 16, ds, []);
    }
  }
}
