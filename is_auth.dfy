/** getTokenFromHeader (src/api/middlewares/isAuth.ts): the JWT carried in an
    `Authorization: <scheme> <token>` header, with three ordered rejections. */
module IsAuth {
  import opened Wrappers

  /** How many times `c` occurs in `s`. */
  function Occurrences(s: string, c: char): (n: nat)
    ensures n <= |s|
    ensures n == 0 <==> c !in s
  {
    if s == [] then 0 else (if s[0] == c then 1 else 0) + Occurrences(s[1..], c)
  }

  /** The parts glued back together with the separator between them. */
  function Join(parts: seq<string>, sep: char): string
    requires |parts| > 0
  {
    if |parts| == 1 then parts[0] else parts[0] + [sep] + Join(parts[1..], sep)
  }

  /** `s.split(sep)` for a one-character separator: the maximal runs between
      separators, empty ones included, so a string with k separators has
      k + 1 parts. */
  function Split(s: string, sep: char): (parts: seq<string>)
    ensures |parts| == Occurrences(s, sep) + 1
    ensures forall i :: 0 <= i < |parts| ==> sep !in parts[i]
    ensures Join(parts, sep) == s
  {
    if s == [] then [[]]
    else
      var rest := Split(s[1..], sep);
      if s[0] == sep then
        JoinEmptyFirst([[]] + rest, sep);
        [[]] + rest
      else
        var parts := [[s[0]] + rest[0]] + rest[1..];
        JoinFirstChar(parts, sep);
        assert [parts[0][1..]] + parts[1..] == rest;
        parts
  }

  /** Splitting undoes joining parts that hold no separator, so the parts of
      a string are the only ones that glue back into it. */
  lemma {:induction false} SplitJoin(parts: seq<string>, sep: char)
    requires |parts| > 0 && forall i :: 0 <= i < |parts| ==> sep !in parts[i]
    ensures Split(Join(parts, sep), sep) == parts
    decreases |parts|, |parts[0]|
  {
    var p := parts[0];
    if p != [] {
      var rest := [p[1..]] + parts[1..];
      assert sep !in p[1..] by { assert forall c :: c in p[1..] ==> c in p; }
      assert forall i :: 1 <= i < |rest| ==> rest[i] == parts[i];
      SplitJoin(rest, sep);
      JoinFirstChar(parts, sep);
      SplitCons(p[0], Join(rest, sep), sep);
      assert [p[0]] + p[1..] == p;
      assert [p] + parts[1..] == parts;
    } else if |parts| > 1 {
      SplitJoin(parts[1..], sep);
      JoinEmptyFirst(parts, sep);
      SplitSep(Join(parts[1..], sep), sep);
      assert [[]] + parts[1..] == parts;
    }
  }

  /** Joining parts whose first part is non-empty starts with that part's
      first character, followed by the join of the remainder. */
  lemma JoinFirstChar(parts: seq<string>, sep: char)
    requires |parts| > 0 && parts[0] != []
    ensures Join(parts, sep) == [parts[0][0]] + Join([parts[0][1..]] + parts[1..], sep)
  {
    var p := parts[0];
    var rest := [p[1..]] + parts[1..];
    assert p == [p[0]] + p[1..];
    if |parts| > 1 {
      assert rest[1..] == parts[1..];
    }
  }

  /** An empty first part contributes only the separator after it. */
  lemma JoinEmptyFirst(parts: seq<string>, sep: char)
    requires |parts| > 1 && parts[0] == []
    ensures Join(parts, sep) == [sep] + Join(parts[1..], sep)
  {
  }

  lemma SplitCons(c: char, t: string, sep: char)
    requires c != sep
    ensures Split([c] + t, sep) == [[c] + Split(t, sep)[0]] + Split(t, sep)[1..]
  {
    assert ([c] + t)[1..] == t;
  }

  lemma SplitSep(t: string, sep: char)
    ensures Split([sep] + t, sep) == [[]] + Split(t, sep)
  {
    assert ([sep] + t)[1..] == t;
  }

  /** The three Errors getTokenFromHeader throws, in the order it checks. */
  datatype AuthError = HeaderMissing | HeaderMalformed | SchemeNotSupported

  function Message(e: AuthError): string {
    match e
    case HeaderMissing => "Authorization header is missing"
    case HeaderMalformed => "Authorization header is malformed"
    case SchemeNotSupported => "Authorization header scheme is not supported"
  }

  /** The two accepted schemes, compared case-sensitively. */
  predicate IsSupportedScheme(scheme: string) {
    scheme == "Token" || scheme == "Bearer"
  }

  /** getTokenFromHeader on the `authorization` header (`None` when the
      request has none). An empty header counts as missing; a header must
      hold exactly one space; the part before it must be a supported scheme;
      the part after it, possibly empty, is the token. */
  function GetTokenFromHeader(header: Option<string>): (r: Result<string, AuthError>)
    ensures r == Failure(HeaderMissing) <==> header.None? || header.value == ""
    ensures r == Failure(HeaderMalformed) <==>
      header.Some? && header.value != "" && Occurrences(header.value, ' ') != 1
    ensures r.Success? ==>
      && ' ' !in r.value
      && exists scheme :: IsSupportedScheme(scheme) && header.value == scheme + " " + r.value
  {
    if header.None? || header.value == "" then Failure(HeaderMissing)
    else
      var parts := Split(header.value, ' ');
      if |parts| != 2 then Failure(HeaderMalformed)
      else if !IsSupportedScheme(parts[0]) then Failure(SchemeNotSupported)
      else
        assert header.value == parts[0] + " " + parts[1] by {
          assert parts[1..] == [parts[1]];
          assert Join(parts[1..], ' ') == parts[1];
          assert header.value == parts[0] + [' '] + Join(parts[1..], ' ');
        }
        Success(parts[1])
  }

  /** `scheme + " " + token` with a supported scheme and a token free of
      spaces yields the token. */
  lemma TokenRoundTrip(scheme: string, token: string)
    requires IsSupportedScheme(scheme) && ' ' !in token
    ensures GetTokenFromHeader(Some(scheme + " " + token)) == Success(token)
  {
    SchemeWithToken(scheme, token);
  }

  /** Any other scheme without spaces is rejected, whatever the token. */
  lemma SchemeRejected(scheme: string, token: string)
    requires !IsSupportedScheme(scheme) && ' ' !in scheme && ' ' !in token
    ensures GetTokenFromHeader(Some(scheme + " " + token)) == Failure(SchemeNotSupported)
  {
    SchemeWithToken(scheme, token);
  }

  lemma SchemeWithToken(scheme: string, token: string)
    requires ' ' !in scheme && ' ' !in token
    ensures scheme + " " + token != ""
    ensures Split(scheme + " " + token, ' ') == [scheme, token]
  {
    var parts := [scheme, token];
    assert Join(parts, ' ') == scheme + " " + token by {
      assert parts[1..] == [token];
    }
    SplitJoin(parts, ' ');
  }

  /** The checks run in order: two spaces between scheme and token make the
      header malformed, whatever the scheme. */
  lemma DoubleSpaceIsMalformed(scheme: string, token: string)
    requires ' ' !in scheme && ' ' !in token
    ensures GetTokenFromHeader(Some(scheme + "  " + token)) == Failure(HeaderMalformed)
  {
    assert scheme + "  " + token == scheme + (" " + (" " + token));
    OccurrencesAppend(scheme, " " + (" " + token), ' ');
    OccurrencesSpace(" " + token);
    OccurrencesSpace(token);
  }

  /** A header with no space is malformed. */
  lemma NoSpaceIsMalformed(h: string)
    requires h != "" && ' ' !in h
    ensures GetTokenFromHeader(Some(h)) == Failure(HeaderMalformed)
  {
  }

  /** Scheme names are case-sensitive. */
  lemma LowerCaseSchemeRejected()
    ensures GetTokenFromHeader(Some("bearer tok")) == Failure(SchemeNotSupported)
  {
    assert "bearer" + " " + "tok" == "bearer tok";
    SchemeRejected("bearer", "tok");
  }

  /** "Bearer " splits into two parts and yields the empty token. */
  lemma TrailingSpaceGivesEmptyToken()
    ensures GetTokenFromHeader(Some("Bearer ")) == Success("")
  {
    assert "Bearer" + " " + "" == "Bearer ";
    TokenRoundTrip("Bearer", "");
  }

  lemma OccurrencesSpace(t: string)
    ensures Occurrences(" " + t, ' ') == 1 + Occurrences(t, ' ')
  {
    assert (" " + t)[1..] == t;
  }

  lemma OccurrencesAppend(a: string, b: string, c: char)
    requires c !in a
    ensures Occurrences(a + b, c) == Occurrences(b, c)
  {
    if a != [] {
      assert (a + b)[1..] == a[1..] + b;
      assert c !in a[1..] by { assert forall x :: x in a[1..] ==> x in a; }
      OccurrencesAppend(a[1..], b, c);
    } else {
      assert a + b == b;
    }
  }
}
