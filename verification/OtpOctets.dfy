/** OATH in octets: what URIs and display names look like, and how each rule of a URI fails. */
module OtpOctets {
  import opened Wrappers
  import opened Radix
  import opened Sequences
  import opened Ascii
  import opened UriText
  import opened OtpAuth
  import Base32
  import OathName

  // --- Trimming ------------------------------------------------------------------------

  /** White space characters, one after the other. */
  ghost predicate IsSpaces(s: bytes)
    decreases |s|
  {
    s == [] || exists n :: 0 < n <= |s| && IsSpace(s[..n]) && IsSpaces(s[n..])
  }

  lemma SpacesCons(c: bytes, spaces: bytes)
    requires IsSpace(c) && |c| > 0 && IsSpaces(spaces)
    ensures IsSpaces(c + spaces)
  {
    TakeDrop(c, spaces);
  }

  lemma FirstSpace(spaces: bytes) returns (c: bytes, more: bytes)
    requires IsSpaces(spaces) && spaces != []
    ensures spaces == c + more && |c| > 0 && IsSpace(c) && IsSpaces(more)
  {
    var n :| 0 < n <= |spaces| && IsSpace(spaces[..n]) && IsSpaces(spaces[n..]);
    c, more := spaces[..n], spaces[n..];
    SplitAt(spaces, n);
  }

  lemma {:induction false} StartTrims(s: bytes) returns (spaces: bytes)
    ensures s == spaces + TrimStart(s) && IsSpaces(spaces) && SpaceAtStart(TrimStart(s)) == 0
    decreases |s|
  {
    var n := SpaceAtStart(s);
    if n == 0 {
      spaces := [];
    } else {
      var more := StartTrims(s[n..]);
      spaces := s[..n] + more;
      SpacesCons(s[..n], more);
      Associate(s[..n], more, TrimStart(s[n..]));
      SplitAt(s, n);
    }
  }

  lemma {:induction false} SpacesSnoc(spaces: bytes, c: bytes)
    requires IsSpaces(spaces) && IsSpace(c) && |c| > 0
    ensures IsSpaces(spaces + c)
    decreases |spaces|
  {
    Empty(c);
    if spaces == [] {
      SpacesCons(c, []);
    } else {
      var first, more := FirstSpace(spaces);
      SpacesSnoc(more, c);
      SpacesCons(first, more + c);
      Associate(first, more, c);
    }
  }

  lemma EndStep(s: bytes)
    requires SpaceAtEnd(s) > 0
    ensures var n := SpaceAtEnd(s);
            TrimEnd(s) == TrimEnd(s[..|s| - n]) && IsSpace(s[|s| - n..]) && s == s[..|s| - n] + s[|s| - n..]
  {
    SplitAt(s, |s| - SpaceAtEnd(s));
  }

  lemma {:induction false} EndTrims(s: bytes) returns (spaces: bytes)
    ensures s == TrimEnd(s) + spaces && IsSpaces(spaces) && SpaceAtEnd(TrimEnd(s)) == 0
    decreases |s|
  {
    var n := SpaceAtEnd(s);
    if n == 0 {
      spaces := [];
      Empty(s);
    } else {
      var front, last := s[..|s| - n], s[|s| - n..];
      EndStep(s);
      var more := EndTrims(front);
      spaces := more + last;
      SpacesSnoc(more, last);
      Associate(TrimEnd(front), more, last);
    }
  }

  /** Trimming drops white space at both ends, all of it and nothing else. */
  lemma TrimIsExact(s: bytes) returns (before: bytes, after: bytes)
    ensures s == before + Trim(s) + after && IsSpaces(before) && IsSpaces(after)
    ensures forall n: nat | n <= |Trim(s)| :: !IsSpace(Trim(s)[..n]) && !IsSpace(Trim(s)[|Trim(s)| - n..])
  {
    before := StartTrims(s);
    after := EndTrims(TrimStart(s));
    Associate(before, Trim(s), after);
    NoSpaceAtEnds(TrimStart(s), Trim(s), after);
  }

  lemma NoSpaceAtEnds(s: bytes, front: bytes, after: bytes)
    requires SpaceAtStart(s) == 0 && s == front + after && SpaceAtEnd(front) == 0
    ensures forall n: nat | n <= |front| :: !IsSpace(front[..n]) && !IsSpace(front[|front| - n..])
  {
    forall n: nat | n <= |front|
      ensures !IsSpace(front[..n]) && !IsSpace(front[|front| - n..])
    {
      assert front[..n] == s[..n];
      if IsSpace(front[..n]) {
        assert StartsWithSpace(s, n);
      }
      if IsSpace(front[|front| - n..]) {
        assert EndsInSpace(front, n);
      }
    }
  }

  // --- Names and values ------------------------------------------------------------------

  /** The parameters, spelled exactly so. */
  lemma ParameterNames(key: bytes)
    ensures ParamOf(key) == Some(SecretParam) <==> key == OfString("secret")
    ensures ParamOf(key) == Some(IssuerParam) <==> key == OfString("issuer")
    ensures ParamOf(key) == Some(AlgorithmParam) <==> key == OfString("algorithm")
    ensures ParamOf(key) == Some(DigitsParam) <==> key == OfString("digits")
    ensures ParamOf(key) == Some(PeriodParam) <==> key == OfString("period")
    ensures ParamOf(key) == Some(CounterParam) <==> key == OfString("counter")
  {
    NamesSpelled();
  }

  lemma NamesSpelled()
    ensures OfString("secret") == SECRET && OfString("issuer") == ISSUER && OfString("algorithm") == ALGORITHM
    ensures OfString("digits") == DIGITS && OfString("period") == PERIOD && OfString("counter") == COUNTER
  {
  }

  /** The kinds, spelled exactly so, and the algorithms, in any case. */
  lemma KindsAndAlgorithms(text: bytes)
    ensures KindOf(text) == Some(Totp) <==> text == OfString("totp")
    ensures KindOf(text) == Some(Hotp) <==> text == OfString("hotp")
    ensures ParseAlgorithm(text) == Some(Sha1) <==> Uppercase(text) == OfString("SHA1")
    ensures ParseAlgorithm(text) == Some(Sha256) <==> Uppercase(text) == OfString("SHA256")
    ensures ParseAlgorithm(text) == Some(Sha512) <==> Uppercase(text) == OfString("SHA512")
  {
    assert OfString("totp") == TOTP && OfString("hotp") == HOTP;
    assert OfString("SHA1") == SHA1 && OfString("SHA256") == SHA256 && OfString("SHA512") == SHA512;
  }

  /** Which values are accepted, and the error of each that is not. */
  lemma ValuesAccepted(p: Params, value: bytes)
    ensures Put(p, IssuerParam, value) == Success(p.(issuer := Some(value)))
    ensures match Base32.Decoded(value)
            case Some(secret) => Put(p, SecretParam, value) == Success(p.(secret := Some(secret)))
            case None => Put(p, SecretParam, value) == Failure(SecretError)
    ensures match ParseAlgorithm(value)
            case Some(algorithm) => Put(p, AlgorithmParam, value) == Success(p.(algorithm := Some(algorithm)))
            case None => Put(p, AlgorithmParam, value) == Failure(AlgorithmError)
    ensures match ParseUint(value, 255)
            case Some(n) =>
              Put(p, DigitsParam, value)
              == if n in {4, 5, 6, 7, 8} then Success(p.(digits := Some(n))) else Failure(DigitsError)
            case None => Put(p, DigitsParam, value) == Failure(DigitsError)
    ensures match ParseUint(value, 0xffff_ffff)
            case Some(n) =>
              && Put(p, CounterParam, value) == Success(p.(counter := Some(n)))
              && Put(p, PeriodParam, value)
                 == (if n > 0 then Success(p.(period := Some(n))) else Failure(PeriodError))
            case None =>
              Put(p, CounterParam, value) == Failure(CounterError) && Put(p, PeriodParam, value) == Failure(PeriodError)
  {
  }

  // --- Whole URIs --------------------------------------------------------------------------

  lemma SchemeSpelled()
    ensures OfString("otpauth://") == SCHEME
  {
  }

  /** Without its scheme a URI is refused, and so it is without a kind. */
  lemma SchemeAndKindNeeded(utf8: Utf8, uri: bytes, rest: bytes)
    ensures !(OfString("otpauth://") <= Trim(uri)) ==> Parse(utf8, uri) == Failure(SchemeError)
    ensures Trim(uri) == OfString("otpauth://") + rest && '/' as int !in rest ==> Parse(utf8, uri) == Failure(KindError)
  {
    SchemeSpelled();
    if Trim(uri) == SCHEME + rest && SLASH !in rest {
      TakeDrop(SCHEME, rest);
      NotSplit(rest, SLASH);
    }
  }

  /** The kind ends at the first slash, the label at the first question mark, if there is one. */
  lemma UriParts(utf8: Utf8, uri: bytes, kind: bytes, title: bytes, query: Option<bytes>)
    requires '/' as int !in kind && '?' as int !in title
    requires Trim(uri) == OfString("otpauth://")
                          + (kind + ['/' as int] + (title + if query.Some? then ['?' as int] + query.value else []))
    ensures Parse(utf8, uri)
         == match KindOf(kind)
            case None => Failure(KindError)
            case Some(k) => ParseParts(utf8, k, title, Split(if query.Some? then query.value else [], '&' as int))
  {
    SchemeSpelled();
    var rest := title + if query.Some? then ['?' as int] + query.value else [];
    TakeDrop(SCHEME, kind + [SLASH] + rest);
    SplitOnceJoined(kind, SLASH, rest);
    if query.Some? {
      Associate(title, [QUESTION], query.value);
      SplitOnceJoined(title, QUESTION, query.value);
    } else {
      Empty(title);
      NotSplit(title, QUESTION);
    }
  }

  /** The label is decoded, then cut at its first colon; its account must not be empty. */
  lemma Labels(utf8: Utf8, raw: bytes, issuer: bytes, account: bytes)
    ensures PercentDecode(utf8, raw) == None ==> Label(utf8, raw) == Failure(PercentEncoding)
    ensures PercentDecode(utf8, raw) == Some(account) && ':' as int !in account ==>
              Label(utf8, raw) == if account == [] then Failure(MissingName) else Success((None, account))
    ensures PercentDecode(utf8, raw) == Some(issuer + [':' as int] + account) && ':' as int !in issuer ==>
              Label(utf8, raw) == if account == [] then Failure(MissingName) else Success((Some(issuer), account))
  {
    if PercentDecode(utf8, raw) == Some(issuer + [COLON] + account) && COLON !in issuer {
      SplitOnceJoined(issuer, COLON, account);
    } else if PercentDecode(utf8, raw) == Some(account) && COLON !in account {
      NotSplit(account, COLON);
    }
  }

  /** A pair is cut at its first equals sign, both sides are decoded, and a parameter may come once only. */
  lemma Pairs(utf8: Utf8, p: Params, name: bytes, value: bytes)
    requires '=' as int !in name
    ensures Step(utf8, p, []) == Success(p)
    ensures name != [] ==> Step(utf8, p, name) == Step(utf8, p, name + ['=' as int])
    ensures var pair := name + ['=' as int] + value;
            match (PercentDecode(utf8, name), PercentDecode(utf8, value))
            case (Some(key), Some(text)) =>
              && (ParamOf(key) == None ==> Step(utf8, p, pair) == Success(p))
              && (forall param :: ParamOf(key) == Some(param) ==>
                    Step(utf8, p, pair)
                    == if Seen(p, param) then Failure(DuplicateParameter(param)) else Put(p, param, text))
            case _ => Step(utf8, p, pair) == Failure(PercentEncoding)
  {
    SplitOnceJoined(name, EQUALS, value);
    SplitOnceJoined(name, EQUALS, []);
    Empty(name + [EQUALS]);
    NotSplit(name, EQUALS);
  }

  /** What has to be said, what is filled in, and that the query's issuer wins. */
  lemma Completion(kind: Kind, labelIssuer: Option<bytes>, account: bytes, p: Params)
    ensures p.secret.None? || p.secret == Some([]) ==> Finish(kind, labelIssuer, account, p) == Failure(MissingSecret)
    ensures p.secret.Some? && p.secret != Some([]) && kind == Hotp && p.counter.None? ==>
              Finish(kind, labelIssuer, account, p) == Failure(CounterError)
    ensures p.secret.Some? && p.secret != Some([]) && (kind == Totp || p.counter.Some?) ==>
              var r := Finish(kind, labelIssuer, account, p);
              && r.Success? && r.value.kind == kind && r.value.account == account && Some(r.value.secret) == p.secret
              && r.value.issuer == (match p.issuer case None => labelIssuer case Some(issuer) => Some(issuer))
              && r.value.algorithm == (match p.algorithm case None => Sha1 case Some(algorithm) => algorithm)
              && r.value.digits == (match p.digits case None => 6 case Some(n) => n)
              && r.value.period == (match p.period case None => 30 case Some(n) => n)
              && r.value.counter == (match p.counter case None => 0 case Some(n) => n)
  {
  }

  // --- Display names -----------------------------------------------------------------------

  /** Digits, a slash, and more. */
  ghost predicate BeginsWithNumber(s: bytes, digits: bytes, rest: bytes) {
    digits != [] && AllDigits(digits) && s == digits + ['/' as int] + rest
  }

  /** A TOTP name may begin with its period; a number that is too large is no period. */
  lemma PeriodOfName(s: bytes, digits: bytes, rest: bytes)
    requires BeginsWithNumber(s, digits, rest)
    ensures var name := OathName.Parse(s, OathName.Totp);
            if Decimal(digits) <= 0xffff_ffff then
              name.period == Decimal(digits) && (name.issuer, name.account) == OathName.SplitIssuer(rest)
            else name.period == 30 && (name.issuer, name.account) == OathName.SplitIssuer(s)
  {
    SplitOnceJoined(digits, SLASH, rest);
    assert digits[0] != '+' as int;
  }

  /** Without a number the period is 30, and HOTP has none. */
  lemma PeriodByDefault(s: bytes)
    ensures (forall front, back :: !BeginsWithNumber(s, front, back)) ==>
              var name := OathName.Parse(s, OathName.Totp);
              name.period == 30 && (name.issuer, name.account) == OathName.SplitIssuer(s)
    ensures var name := OathName.Parse(s, OathName.Hotp);
            name.period == 0 && (name.issuer, name.account) == OathName.SplitIssuer(s)
  {
    var split := SplitOnce(s, SLASH);
    if split.Some? && split.value.0 != [] && AllDigits(split.value.0) {
      assert BeginsWithNumber(s, split.value.0, split.value.1);
    }
  }

  /** The issuer ends at the first colon; a name that begins with one has no issuer. */
  lemma IssuerOfName(issuer: bytes, account: bytes)
    requires ':' as int !in issuer
    ensures issuer != [] ==> OathName.SplitIssuer(issuer + [':' as int] + account) == (Some(issuer), account)
    ensures OathName.SplitIssuer([':' as int] + account) == (None, [':' as int] + account)
    ensures OathName.SplitIssuer(issuer) == (None, issuer)
  {
    SplitOnceJoined(issuer, COLON, account);
    NotSplit(issuer, COLON);
  }

  /** A name is written as issuer, colon and account, with the period in front where reading needs it. */
  lemma NameLayout(issuer: Option<bytes>, account: bytes, kind: OathName.Kind, period: nat)
    ensures var id := if issuer.None? || issuer == Some([]) then account else issuer.value + [':' as int] + account;
            var looksLikePeriod := exists front, back :: BeginsWithNumber(id, front, back);
            OathName.Format(issuer, account, kind, period)
            == if kind == OathName.Totp && (period != 30 || looksLikePeriod)
               then DecimalText(period) + ['/' as int] + id else id
  {
    var id := if issuer.None? || issuer == Some([]) then account else issuer.value + [':' as int] + account;
    assert id == OathName.Id(issuer, account);
    AmbiguousIff(id);
  }

  lemma AmbiguousIff(id: bytes)
    ensures OathName.Ambiguous(id)
       <==> exists front, back :: BeginsWithNumber(id, front, back)
  {
    var split := SplitOnce(id, SLASH);
    if OathName.Ambiguous(id) {
      assert BeginsWithNumber(id, split.value.0, split.value.1);
    }
    forall front, back | BeginsWithNumber(id, front, back)
      ensures OathName.Ambiguous(id)
    {
      assert SLASH !in front;
      SplitOnceJoined(front, SLASH, back);
    }
  }
}
