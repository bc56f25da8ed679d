/** What order, percent-encoding and white space mean to a whole `otpauth://` URI. */
module OtpAuthUris {
  import opened Wrappers
  import opened Radix
  import opened Sequences
  import opened Ascii
  import opened UriText
  import opened OtpAuth
  import Base32
  import BitCodec

  function KindText(kind: Kind): bytes {
    if kind == Totp then TOTP else HOTP
  }

  /** What stands before the query. */
  function Head(kind: Kind, title: bytes): bytes {
    SCHEME + KindText(kind) + [SLASH] + title
  }

  function UriOf(kind: Kind, title: bytes, pairs: seq<bytes>): bytes
    requires |pairs| > 0
  {
    Head(kind, title) + [QUESTION] + Join(pairs, AMPERSAND)
  }

  /** Text that can stand in a URI of this form. */
  ghost predicate Wellformed(title: bytes, pairs: seq<bytes>) {
    && QUESTION !in title && |pairs| > 0
    && forall i | 0 <= i < |pairs| :: AMPERSAND !in pairs[i]
  }

  lemma {:induction false} JoinSplitsLast(pairs: seq<bytes>, c: byte)
    requires |pairs| > 1
    ensures Join(pairs, c) == Join(pairs[..|pairs| - 1], c) + [c] + pairs[|pairs| - 1]
  {
    if |pairs| > 2 {
      JoinSplitsLast(pairs[1..], c);
      assert pairs[1..][..|pairs| - 2] == pairs[..|pairs| - 1][1..];
    }
  }

  function TrimLast(pairs: seq<bytes>): (r: seq<bytes>)
    requires |pairs| > 0
    ensures |r| == |pairs|
  {
    pairs[|pairs| - 1 := TrimEnd(pairs[|pairs| - 1])]
  }

  /** Trimming the end of a query trims its last pair, and only that. */
  lemma TrimOfQuery(head: bytes, pairs: seq<bytes>)
    requires |pairs| > 0
    ensures TrimEnd(head + [QUESTION] + Join(pairs, AMPERSAND))
         == head + [QUESTION] + Join(TrimLast(pairs), AMPERSAND)
  {
    if |pairs| == 1 {
      JoinsOne(pairs, AMPERSAND);
      JoinsOne(TrimLast(pairs), AMPERSAND);
      TrimEndStopsAt(head, QUESTION, pairs[0]);
    } else {
      TrimOfMany(head, pairs);
    }
  }

  lemma TrimOfMany(head: bytes, pairs: seq<bytes>)
    requires |pairs| > 1
    ensures TrimEnd(head + [QUESTION] + Join(pairs, AMPERSAND))
         == head + [QUESTION] + Join(TrimLast(pairs), AMPERSAND)
  {
    var n := |pairs|;
    JoinSplitsLast(pairs, AMPERSAND);
    JoinSplitsLast(TrimLast(pairs), AMPERSAND);
    assert TrimLast(pairs)[..n - 1] == pairs[..n - 1];
    TrimAfter(head, Join(pairs[..n - 1], AMPERSAND), pairs[n - 1]);
  }

  lemma JoinsOne(pairs: seq<bytes>, c: byte)
    requires |pairs| == 1
    ensures Join(pairs, c) == pairs[0]
  {
  }

  lemma TrimAfter(head: bytes, front: bytes, last: bytes)
    ensures TrimEnd(head + [QUESTION] + (front + [AMPERSAND] + last))
         == head + [QUESTION] + (front + [AMPERSAND] + TrimEnd(last))
  {
    AroundLast(head, QUESTION, front, AMPERSAND, last);
    AroundLast(head, QUESTION, front, AMPERSAND, TrimEnd(last));
    TrimEndStopsAt(head + [QUESTION] + front, AMPERSAND, last);
  }

  lemma AroundLast(a: bytes, x: byte, b: bytes, y: byte, c: bytes)
    ensures a + [x] + (b + [y] + c) == a + [x] + b + [y] + c
  {
    Associate(a + [x], b + [y], c);
    Associate(a + [x], b, [y]);
  }

  lemma StartsClean(s: bytes)
    requires |s| > 0 && NeverSpace(s[0])
    ensures TrimStart(s) == s
  {
    forall n: nat
      ensures n > 0 ==> !StartsWithSpace(s, n)
    {
      if n > 0 && StartsWithSpace(s, n) {
        NeverInSpace(s[..n], 0);
      }
    }
  }

  lemma TrimOfUri(kind: Kind, title: bytes, pairs: seq<bytes>)
    requires |pairs| > 0
    ensures Trim(UriOf(kind, title, pairs)) == UriOf(kind, title, TrimLast(pairs))
  {
    assert Head(kind, title)[0] == SCHEME[0];
    StartsClean(UriOf(kind, title, pairs));
    TrimOfQuery(Head(kind, title), pairs);
  }

  lemma SplitsUri(kind: Kind, title: bytes, query: bytes)
    requires QUESTION !in title
    ensures var uri := Head(kind, title) + [QUESTION] + query;
            && SCHEME <= uri
            && SplitOnce(uri[|SCHEME|..], SLASH) == Some((KindText(kind), title + [QUESTION] + query))
            && KindOf(KindText(kind)) == Some(kind)
            && SplitOnce(title + [QUESTION] + query, QUESTION) == Some((title, query))
  {
    var rest := title + [QUESTION] + query;
    var uri := Head(kind, title) + [QUESTION] + query;
    assert uri == SCHEME + (KindText(kind) + [SLASH] + rest);
    SplitOnceJoined(KindText(kind), SLASH, rest);
    SplitOnceJoined(title, QUESTION, query);
  }

  /** Parsing a URI parses its label and its pairs, the last one without trailing white space. */
  lemma ParseOfUri(utf8: Utf8, kind: Kind, title: bytes, pairs: seq<bytes>)
    requires Wellformed(title, pairs)
    ensures Parse(utf8, UriOf(kind, title, pairs)) == ParseParts(utf8, kind, title, TrimLast(pairs))
  {
    TrimEndIsPrefix(pairs[|pairs| - 1]);
    TrimOfUri(kind, title, pairs);
    SplitsUri(kind, title, Join(TrimLast(pairs), AMPERSAND));
    SplitJoined(TrimLast(pairs), AMPERSAND);
  }

  // --- Order -------------------------------------------------------------------

  /** Trimming the URI cannot touch this pair, wherever it stands. */
  predicate Unpadded(pair: bytes) {
    TrimEnd(pair) == pair
  }

  lemma ParseOfUnpadded(utf8: Utf8, kind: Kind, title: bytes, pairs: seq<bytes>)
    requires Wellformed(title, pairs) && Unpadded(pairs[|pairs| - 1])
    ensures Parse(utf8, UriOf(kind, title, pairs)) == ParseParts(utf8, kind, title, pairs)
  {
    ParseOfUri(utf8, kind, title, pairs);
    assert TrimLast(pairs) == pairs;
  }

  // --- Percent-encoding ----------------------------------------------------------

  /** Two texts that write the same octets, literally or as triplets in either case, or are the same text. */
  ghost predicate Reencodes(raw: bytes, raw': bytes) {
    || raw == raw'
    || exists octets: bytes :: Encodes(raw, octets) && Encodes(raw', octets)
  }

  lemma SameText(utf8: Utf8, raw: bytes, raw': bytes)
    requires Reencodes(raw, raw')
    ensures PercentDecode(utf8, raw) == PercentDecode(utf8, raw')
  {
    if raw != raw' {
      var octets: bytes :| Encodes(raw, octets) && Encodes(raw', octets);
      UnescapeIffEncodes(raw, octets);
      UnescapeIffEncodes(raw', octets);
    }
  }

  /** The same name and the same value, encoded differently. */
  ghost predicate SamePair(pair: bytes, pair': bytes) {
    || pair == pair'
    || (&& |pair| > 0 && |pair'| > 0
        && Reencodes(NameValue(pair).0, NameValue(pair').0) && Reencodes(NameValue(pair).1, NameValue(pair').1))
  }

  lemma SameStep(utf8: Utf8, p: Params, pair: bytes, pair': bytes)
    requires SamePair(pair, pair')
    ensures Step(utf8, p, pair) == Step(utf8, p, pair')
  {
    if pair != pair' {
      SameText(utf8, NameValue(pair).0, NameValue(pair').0);
      SameText(utf8, NameValue(pair).1, NameValue(pair').1);
    }
  }

  ghost predicate SamePairs(ps: seq<bytes>, qs: seq<bytes>) {
    |ps| == |qs| && forall i | 0 <= i < |ps| :: SamePair(ps[i], qs[i])
  }

  lemma {:induction false} SameQuery(utf8: Utf8, p: Params, ps: seq<bytes>, qs: seq<bytes>)
    requires SamePairs(ps, qs)
    ensures Query(utf8, p, ps) == Query(utf8, p, qs)
    decreases |ps|
  {
    if |ps| > 0 {
      SameStep(utf8, p, ps[0], qs[0]);
      if Step(utf8, p, ps[0]).Success? {
        assert SamePairs(ps[1..], qs[1..]);
        SameQuery(utf8, Step(utf8, p, ps[0]).value, ps[1..], qs[1..]);
      }
    }
  }

  lemma SameParts(utf8: Utf8, kind: Kind, title: bytes, title': bytes, ps: seq<bytes>, qs: seq<bytes>)
    requires Reencodes(title, title') && SamePairs(ps, qs)
    ensures ParseParts(utf8, kind, title, ps) == ParseParts(utf8, kind, title', qs)
  {
    SameText(utf8, title, title');
    SameQuery(utf8, NO_PARAMS, ps, qs);
  }

  /**
   Percent-encoding octets of the label, of names or of values changes nothing,
   not even the error, as long as the pairs write the same once the end of the
   URI has been trimmed.
   */
  lemma UriIgnoresEncoding(utf8: Utf8, kind: Kind, title: bytes, title': bytes, ps: seq<bytes>, qs: seq<bytes>)
    requires Wellformed(title, ps) && Wellformed(title', qs)
    requires Reencodes(title, title') && SamePairs(TrimLast(ps), TrimLast(qs))
    ensures Parse(utf8, UriOf(kind, title, ps)) == Parse(utf8, UriOf(kind, title', qs))
  {
    ParseOfUri(utf8, kind, title, ps);
    ParseOfUri(utf8, kind, title', qs);
    SameParts(utf8, kind, title, title', TrimLast(ps), TrimLast(qs));
  }

  // --- White space -----------------------------------------------------------------

  const MY: bytes := [0x4d, 0x59]
  const B: bytes := [0x42]
  const B_SPACE: bytes := [0x42, 0x20]
  const SECRET_MY: bytes := SECRET + [EQUALS] + MY
  const ISSUER_B: bytes := ISSUER + [EQUALS] + B
  const ISSUER_B_SPACE: bytes := ISSUER + [EQUALS] + B_SPACE

  predicate AnyText(s: bytes) {
    true
  }

  lemma {:induction false} Literal(s: bytes)
    requires PERCENT !in s
    ensures Unescape(s) == Some(s)
  {
    if |s| > 0 {
      Literal(s[1..]);
      assert s == [s[0]] + s[1..];
    }
  }

  lemma LiteralStep(p: Params, name: bytes, param: Param, value: bytes)
    requires EQUALS !in name && PERCENT !in name && PERCENT !in value && ParamOf(name) == Some(param)
    requires !Seen(p, param)
    ensures Step(AnyText, p, name + [EQUALS] + value) == Put(p, param, value)
  {
    SplitOnceJoined(name, EQUALS, value);
    Literal(name);
    Literal(value);
  }

  lemma MyIsASecret()
    ensures Base32.Decoded(MY).Some? && |Base32.Decoded(MY).value| > 0
  {
    MyDigits();
    calc {
      Base32.Encode([0x66]);
      Base32.Letters(BitCodec.Encode([0x66], 5));
      Base32.Letters([12, 24]);
      MY;
      Base32.Clean(MY);
    }
  }

  lemma MyDigits()
    ensures BitCodec.Encode([0x66], 5) == [12, 24]
  {
    assert BitCodec.Padded([0x66], 2) == 408;
    assert Digits(408, 32, 2) == [12, 24];
  }

  lemma Trims()
    ensures TrimEnd(ISSUER_B_SPACE) == ISSUER_B && TrimEnd(SECRET_MY) == SECRET_MY
  {
    assert ISSUER_B_SPACE == ISSUER + [EQUALS] + [0x42] + [0x20];
    TrimEndStopsAt(ISSUER + [EQUALS], 0x42, [0x20]);
    assert SECRET_MY == SECRET + [EQUALS, 0x4d] + [0x59] + [];
    TrimEndStopsAt(SECRET + [EQUALS, 0x4d], 0x59, []);
  }

  lemma QueryOfTwo(utf8: Utf8, p: Params, x: bytes, y: bytes)
    requires Step(utf8, p, x).Success?
    ensures Query(utf8, p, [x, y]) == Step(utf8, Step(utf8, p, x).value, y)
  {
    assert [x, y][1..] == [y];
    match Step(utf8, Step(utf8, p, x).value, y)
    case Failure(_) =>
    case Success(p') => assert Query(utf8, p', [y][1..]) == Success(p');
  }

  lemma PartsOfQuery(pairs: seq<bytes>, p: Params)
    requires Query(AnyText, NO_PARAMS, pairs) == Success(p) && p.secret.Some? && |p.secret.value| > 0
    ensures ParseParts(AnyText, Totp, [0x61], pairs) == Finish(Totp, None, [0x61], p)
  {
    Literal([0x61]);
    NotSplit([0x61], COLON);
  }

  lemma SecretAndIssuer(value: bytes)
    requires PERCENT !in value
    ensures var secretFirst := ParseParts(AnyText, Totp, [0x61], [SECRET_MY, ISSUER + [EQUALS] + value]);
            secretFirst.Success? && secretFirst.value.issuer == Some(value)
  {
    var p := SecretFirst();
    LiteralStep(p, ISSUER, IssuerParam, value);
    IssuerSecond(p, ISSUER + [EQUALS] + value, value);
  }

  /** The secret as the first pair. */
  lemma SecretFirst() returns (p: Params)
    ensures Step(AnyText, NO_PARAMS, SECRET_MY) == Success(p)
    ensures p.issuer.None? && p.secret.Some? && |p.secret.value| > 0
  {
    MyIsASecret();
    p := Put(NO_PARAMS, SecretParam, MY).value;
    LiteralStep(NO_PARAMS, SECRET, SecretParam, MY);
  }

  /** An issuer as the second. */
  lemma IssuerSecond(p: Params, pair: bytes, issuer: bytes)
    requires Step(AnyText, NO_PARAMS, SECRET_MY) == Success(p) && p.secret.Some? && |p.secret.value| > 0
    requires Step(AnyText, p, pair) == Success(p.(issuer := Some(issuer)))
    ensures var r := ParseParts(AnyText, Totp, [0x61], [SECRET_MY, pair]);
            r.Success? && r.value.issuer == Some(issuer)
  {
    QueryOfTwo(AnyText, NO_PARAMS, SECRET_MY, pair);
    PartsOfQuery([SECRET_MY, pair], p.(issuer := Some(issuer)));
  }

  lemma ParseOfTwo(x: bytes, y: bytes)
    requires AMPERSAND !in x && AMPERSAND !in y
    ensures Parse(AnyText, UriOf(Totp, [0x61], [x, y])) == ParseParts(AnyText, Totp, [0x61], [x, TrimEnd(y)])
  {
    ParseOfUri(AnyText, Totp, [0x61], [x, y]);
    assert TrimLast([x, y]) == [x, TrimEnd(y)];
  }

  lemma PaddedPairTrimmed()
    ensures var last := Parse(AnyText, UriOf(Totp, [0x61], [SECRET_MY, ISSUER_B_SPACE]));
            last.Success? && last.value.issuer == Some(B)
  {
    Trims();
    ParseOfTwo(SECRET_MY, ISSUER_B_SPACE);
    SecretAndIssuer(B);
  }

  lemma PaddedPairKept()
    ensures var inner := Parse(AnyText, UriOf(Totp, [0x61], [ISSUER_B_SPACE, SECRET_MY]));
            inner.Success? && inner.value.issuer == Some(B_SPACE)
  {
    Trims();
    ParseOfTwo(ISSUER_B_SPACE, SECRET_MY);
    SecretAndIssuer(B_SPACE);
    assert multiset([SECRET_MY, ISSUER_B_SPACE]) == multiset([ISSUER_B_SPACE, SECRET_MY]);
    PartsIgnoreOrder(AnyText, Totp, [0x61], [SECRET_MY, ISSUER_B_SPACE], [ISSUER_B_SPACE, SECRET_MY]);
  }

  /** Trimming makes order matter: `issuer=B ` names `B` as the last pair and `B ` before another. */
  lemma PaddedPairsDependOnOrder()
    ensures multiset([SECRET_MY, ISSUER_B_SPACE]) == multiset([ISSUER_B_SPACE, SECRET_MY])
    ensures Parse(AnyText, UriOf(Totp, [0x61], [SECRET_MY, ISSUER_B_SPACE])).ToOption()
         != Parse(AnyText, UriOf(Totp, [0x61], [ISSUER_B_SPACE, SECRET_MY])).ToOption()
  {
    PaddedPairTrimmed();
    PaddedPairKept();
  }
}
