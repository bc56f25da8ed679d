/** Writing a credential as an `otpauth://` URI and reading it back. */
module OtpAuthRoundTrip {
  import opened Wrappers
  import opened Radix
  import opened Ascii
  import opened UriText
  import opened OtpAuth
  import opened OtpAuthUris
  import Base32

  function AlgorithmText(a: Algorithm): bytes {
    match a
    case Sha1 => SHA1
    case Sha256 => SHA256
    case Sha512 => SHA512
  }

  /** What a URI can say. */
  ghost predicate Expressible(c: Credential) {
    && |c.secret| > 0 && |c.account| > 0
    && 4 <= c.digits <= 8 && 0 < c.period <= U32_MAX && c.counter <= U32_MAX
  }

  predicate IsPlain(s: bytes) {
    forall i | 0 <= i < |s| :: NeverSpace(s[i]) && s[i] != PERCENT && s[i] != AMPERSAND && s[i] != EQUALS
  }

  ghost predicate AcceptsAscii(utf8: Utf8) {
    forall s: bytes :: IsPlain(s) ==> utf8(s)
  }

  function Pair(name: bytes, raw: bytes): bytes {
    name + [EQUALS] + raw
  }

  /** The pairs after the issuer, in one order; any other reads the same. */
  function Settings(c: Credential): seq<bytes> {
    [Pair(SECRET, Base32.Encode(c.secret)), Pair(ALGORITHM, AlgorithmText(c.algorithm)),
     Pair(DIGITS, DecimalText(c.digits)), Pair(PERIOD, DecimalText(c.period)), Pair(COUNTER, DecimalText(c.counter))]
  }

  /** `title` and `issuer` are any encodings; a label may begin with any issuer of its own. */
  ghost predicate Describes(utf8: Utf8, c: Credential, prefix: bytes, title: bytes, issuer: bytes) {
    var name := if c.issuer.Some? then prefix + [COLON] + c.account else c.account;
    && (if c.issuer.Some? then COLON !in prefix else COLON !in c.account)
    && Encodes(title, name) && utf8(name) && QUESTION !in title
    && (c.issuer.Some? ==> Encodes(issuer, c.issuer.value) && utf8(c.issuer.value) && AMPERSAND !in issuer)
  }

  function PairsOf(c: Credential, issuer: bytes): seq<bytes> {
    (if c.issuer.Some? then [Pair(ISSUER, issuer)] else []) + Settings(c)
  }

  // --- Single parameters ---------------------------------------------------------

  lemma {:induction false} PlainEncodes(s: bytes)
    requires IsPlain(s)
    ensures Encodes(s, s)
  {
    if |s| > 0 {
      PlainEncodes(s[1..]);
    }
  }

  ghost predicate IsName(name: bytes, param: Param) {
    IsPlain(name) && ParamOf(name) == Some(param)
  }

  lemma StepPuts(utf8: Utf8, p: Params, name: bytes, param: Param, raw: bytes, value: bytes)
    requires AcceptsAscii(utf8) && IsName(name, param) && !Seen(p, param)
    requires Encodes(raw, value) && utf8(value)
    ensures Step(utf8, p, Pair(name, raw)) == Put(p, param, value)
  {
    SplitOnceJoined(name, EQUALS, raw);
    PlainEncodes(name);
    DecodesIffEncodes(utf8, name, name);
    DecodesIffEncodes(utf8, raw, value);
  }

  lemma Names()
    ensures IsName(SECRET, SecretParam) && IsName(ISSUER, IssuerParam) && IsName(ALGORITHM, AlgorithmParam)
    ensures IsName(DIGITS, DigitsParam) && IsName(PERIOD, PeriodParam) && IsName(COUNTER, CounterParam)
  {
  }

  lemma SecretReadsBack(secret: bytes)
    ensures IsPlain(Base32.Encode(secret)) && Base32.Decoded(Base32.Encode(secret)) == Some(secret)
  {
    Base32.EncodedReadsBack(secret);
    forall i | 0 <= i < |Base32.Encode(secret)|
      ensures NeverSpace(Base32.Encode(secret)[i]) && Base32.Encode(secret)[i] != PERCENT
              && Base32.Encode(secret)[i] != AMPERSAND && Base32.Encode(secret)[i] != EQUALS
    {
      Base32.EncodingIsLetters(secret, i);
    }
  }

  lemma AlgorithmReadsBack(a: Algorithm)
    ensures IsPlain(AlgorithmText(a)) && ParseAlgorithm(AlgorithmText(a)) == Some(a)
  {
    assert Uppercase(AlgorithmText(a)) == AlgorithmText(a);
  }

  lemma NumberReadsBack(n: nat, max: nat)
    requires n <= max
    ensures IsPlain(DecimalText(n)) && ParseUint(DecimalText(n), max) == Some(n)
  {
    TextReadsBack(n);
    assert DecimalText(n)[0] != PLUS;
  }

  // --- The query -------------------------------------------------------------------

  lemma QueryCons(utf8: Utf8, p: Params, x: bytes, rest: seq<bytes>, p': Params)
    requires Step(utf8, p, x) == Success(p')
    ensures Query(utf8, p, [x] + rest) == Query(utf8, p', rest)
  {
    assert ([x] + rest)[1..] == rest;
  }

  function Given(c: Credential): Params {
    Params(Some(c.secret), c.issuer, Some(c.algorithm), Some(c.digits), Some(c.period), Some(c.counter))
  }

  lemma PlainPuts(utf8: Utf8, p: Params, name: bytes, param: Param, value: bytes, p': Params)
    requires AcceptsAscii(utf8) && IsName(name, param) && !Seen(p, param) && IsPlain(value)
    requires Put(p, param, value) == Success(p')
    ensures Step(utf8, p, Pair(name, value)) == Success(p')
  {
    PlainEncodes(value);
    StepPuts(utf8, p, name, param, value, value);
  }

  lemma SecretStep(utf8: Utf8, c: Credential, p: Params)
    requires AcceptsAscii(utf8) && p.secret.None?
    ensures Step(utf8, p, Pair(SECRET, Base32.Encode(c.secret))) == Success(p.(secret := Some(c.secret)))
  {
    Names();
    SecretReadsBack(c.secret);
    PlainPuts(utf8, p, SECRET, SecretParam, Base32.Encode(c.secret), p.(secret := Some(c.secret)));
  }

  lemma AlgorithmStep(utf8: Utf8, c: Credential, p: Params)
    requires AcceptsAscii(utf8) && p.algorithm.None?
    ensures Step(utf8, p, Pair(ALGORITHM, AlgorithmText(c.algorithm))) == Success(p.(algorithm := Some(c.algorithm)))
  {
    Names();
    AlgorithmReadsBack(c.algorithm);
    PlainPuts(utf8, p, ALGORITHM, AlgorithmParam, AlgorithmText(c.algorithm), p.(algorithm := Some(c.algorithm)));
  }

  lemma DigitsStep(utf8: Utf8, c: Credential, p: Params)
    requires AcceptsAscii(utf8) && Expressible(c) && p.digits.None?
    ensures Step(utf8, p, Pair(DIGITS, DecimalText(c.digits))) == Success(p.(digits := Some(c.digits)))
  {
    Names();
    NumberReadsBack(c.digits, U8_MAX);
    PlainPuts(utf8, p, DIGITS, DigitsParam, DecimalText(c.digits), p.(digits := Some(c.digits)));
  }

  lemma PeriodStep(utf8: Utf8, c: Credential, p: Params)
    requires AcceptsAscii(utf8) && Expressible(c) && p.period.None?
    ensures Step(utf8, p, Pair(PERIOD, DecimalText(c.period))) == Success(p.(period := Some(c.period)))
  {
    Names();
    NumberReadsBack(c.period, U32_MAX);
    PlainPuts(utf8, p, PERIOD, PeriodParam, DecimalText(c.period), p.(period := Some(c.period)));
  }

  lemma CounterStep(utf8: Utf8, c: Credential, p: Params)
    requires AcceptsAscii(utf8) && Expressible(c) && p.counter.None?
    ensures Step(utf8, p, Pair(COUNTER, DecimalText(c.counter))) == Success(p.(counter := Some(c.counter)))
  {
    Names();
    NumberReadsBack(c.counter, U32_MAX);
    PlainPuts(utf8, p, COUNTER, CounterParam, DecimalText(c.counter), p.(counter := Some(c.counter)));
  }

  /** Pairs that each succeed, one after the other. */
  lemma {:induction false} AllSteps(utf8: Utf8, pairs: seq<bytes>, states: seq<Params>)
    requires |states| == |pairs| + 1
    requires forall i | 0 <= i < |pairs| :: Step(utf8, states[i], pairs[i]) == Success(states[i + 1])
    ensures Query(utf8, states[0], pairs) == Success(states[|pairs|])
    decreases |pairs|
  {
    if |pairs| > 0 {
      forall i | 0 <= i < |pairs| - 1
        ensures Step(utf8, states[1..][i], pairs[1..][i]) == Success(states[1..][i + 1])
      {
        assert Step(utf8, states[i + 1], pairs[i + 1]) == Success(states[i + 2]);
      }
      AllSteps(utf8, pairs[1..], states[1..]);
    }
  }

  lemma FiveSteps(utf8: Utf8, p: Params, p1: Params, p2: Params, p3: Params, p4: Params, p5: Params,
                  a: bytes, b: bytes, c: bytes, d: bytes, e: bytes)
    requires Step(utf8, p, a) == Success(p1) && Step(utf8, p1, b) == Success(p2) && Step(utf8, p2, c) == Success(p3)
    requires Step(utf8, p3, d) == Success(p4) && Step(utf8, p4, e) == Success(p5)
    ensures Query(utf8, p, [a, b, c, d, e]) == Success(p5)
  {
    AllSteps(utf8, [a, b, c, d, e], [p, p1, p2, p3, p4, p5]);
  }

  lemma SettingsRead(utf8: Utf8, c: Credential)
    requires AcceptsAscii(utf8) && Expressible(c)
    ensures Query(utf8, NO_PARAMS.(issuer := c.issuer), Settings(c)) == Success(Given(c))
  {
    var p := NO_PARAMS.(issuer := c.issuer);
    var p1 := p.(secret := Some(c.secret));
    var p2 := p1.(algorithm := Some(c.algorithm));
    var p3 := p2.(digits := Some(c.digits));
    var p4 := p3.(period := Some(c.period));
    SecretStep(utf8, c, p);
    AlgorithmStep(utf8, c, p1);
    DigitsStep(utf8, c, p2);
    PeriodStep(utf8, c, p3);
    CounterStep(utf8, c, p4);
    FiveSteps(utf8, p, p1, p2, p3, p4, Given(c),
              Pair(SECRET, Base32.Encode(c.secret)), Pair(ALGORITHM, AlgorithmText(c.algorithm)),
              Pair(DIGITS, DecimalText(c.digits)), Pair(PERIOD, DecimalText(c.period)),
              Pair(COUNTER, DecimalText(c.counter)));
  }

  lemma PairsRead(utf8: Utf8, c: Credential, issuer: bytes)
    requires AcceptsAscii(utf8) && Expressible(c)
    requires c.issuer.Some? ==> Encodes(issuer, c.issuer.value) && utf8(c.issuer.value)
    ensures Query(utf8, NO_PARAMS, PairsOf(c, issuer)) == Success(Given(c))
  {
    SettingsRead(utf8, c);
    if c.issuer.Some? {
      Names();
      StepPuts(utf8, NO_PARAMS, ISSUER, IssuerParam, issuer, c.issuer.value);
      QueryCons(utf8, NO_PARAMS, Pair(ISSUER, issuer), Settings(c), NO_PARAMS.(issuer := c.issuer));
    } else {
      assert PairsOf(c, issuer) == Settings(c);
    }
  }

  // --- The whole URI -----------------------------------------------------------------

  /** The pair survives splitting and trimming. */
  ghost predicate IsClean(pair: bytes) {
    AMPERSAND !in pair && Unpadded(pair)
  }

  lemma LastStays(front: bytes, last: byte)
    requires NeverSpace(last)
    ensures Unpadded(front + [last])
  {
    TrimEndStopsAt(front, last, []);
    assert front + [last] + [] == front + [last];
  }

  lemma PlainPair(name: bytes, value: bytes)
    requires IsPlain(name) && IsPlain(value)
    ensures AMPERSAND !in Pair(name, value)
  {
  }

  lemma PairIsClean(name: bytes, value: bytes)
    requires IsPlain(name) && IsPlain(value) && |value| > 0
    ensures IsClean(Pair(name, value))
  {
    var front, last := name + [EQUALS] + value[..|value| - 1], value[|value| - 1];
    PlainPair(name, value);
    LastStays(front, last);
    assert front + [last] == Pair(name, value);
  }

  lemma TextsAreClean(c: Credential)
    requires Expressible(c)
    ensures IsClean(Pair(SECRET, Base32.Encode(c.secret))) && IsClean(Pair(ALGORITHM, AlgorithmText(c.algorithm)))
  {
    Names();
    SecretReadsBack(c.secret);
    Base32.EncodedIsNonEmpty(c.secret);
    AlgorithmReadsBack(c.algorithm);
    PairIsClean(SECRET, Base32.Encode(c.secret));
    PairIsClean(ALGORITHM, AlgorithmText(c.algorithm));
  }

  lemma NumberIsClean(name: bytes, n: nat)
    requires IsPlain(name)
    ensures IsClean(Pair(name, DecimalText(n)))
  {
    NumberReadsBack(n, n);
    PairIsClean(name, DecimalText(n));
  }

  lemma AllOfFive<T>(holds: T -> bool, a: T, b: T, c: T, d: T, e: T)
    requires holds(a) && holds(b) && holds(c) && holds(d) && holds(e)
    ensures forall i | 0 <= i < 5 :: holds([a, b, c, d, e][i])
  {
  }

  lemma SettingsAreClean(c: Credential)
    requires Expressible(c)
    ensures forall i | 0 <= i < 5 :: IsClean(Settings(c)[i])
  {
    Names();
    TextsAreClean(c);
    NumberIsClean(DIGITS, c.digits);
    NumberIsClean(PERIOD, c.period);
    NumberIsClean(COUNTER, c.counter);
    AllOfFive(x => IsClean(x), Pair(SECRET, Base32.Encode(c.secret)), Pair(ALGORITHM, AlgorithmText(c.algorithm)),
              Pair(DIGITS, DecimalText(c.digits)), Pair(PERIOD, DecimalText(c.period)),
              Pair(COUNTER, DecimalText(c.counter)));
  }

  lemma PairsAreClean(c: Credential, issuer: bytes)
    requires Expressible(c) && (c.issuer.Some? ==> AMPERSAND !in issuer)
    ensures var pairs := PairsOf(c, issuer);
            && |pairs| > 0 && (forall i | 0 <= i < |pairs| :: AMPERSAND !in pairs[i])
            && Unpadded(pairs[|pairs| - 1])
  {
    SettingsAreClean(c);
    var pairs, settings := PairsOf(c, issuer), Settings(c);
    var skip := |pairs| - |settings|;
    if c.issuer.Some? {
      Names();
      assert pairs[0] == Pair(ISSUER, issuer);
    }
    forall i | 0 <= i < |pairs|
      ensures AMPERSAND !in pairs[i]
    {
      if i >= skip {
        assert pairs[i] == settings[i - skip] && IsClean(settings[i - skip]);
      }
    }
    assert pairs[|pairs| - 1] == settings[4] && IsClean(settings[4]);
  }

  lemma LabelReads(utf8: Utf8, c: Credential, prefix: bytes, title: bytes, issuer: bytes)
    requires Expressible(c) && Describes(utf8, c, prefix, title, issuer)
    ensures Label(utf8, title) == Success((if c.issuer.Some? then Some(prefix) else None, c.account))
  {
    if c.issuer.Some? {
      DecodesIffEncodes(utf8, title, prefix + [COLON] + c.account);
      SplitOnceJoined(prefix, COLON, c.account);
    } else {
      DecodesIffEncodes(utf8, title, c.account);
      NotSplit(c.account, COLON);
    }
  }

  /** Every credential a URI can express is read back from any URI that says all of it. */
  lemma CredentialReadsBack(utf8: Utf8, c: Credential, prefix: bytes, title: bytes, issuer: bytes)
    requires AcceptsAscii(utf8) && Expressible(c) && Describes(utf8, c, prefix, title, issuer)
    ensures Parse(utf8, UriOf(c.kind, title, PairsOf(c, issuer))) == Success(c)
  {
    PairsAreClean(c, issuer);
    LabelReads(utf8, c, prefix, title, issuer);
    PairsRead(utf8, c, issuer);
    PartsRead(utf8, c, if c.issuer.Some? then Some(prefix) else None, title, PairsOf(c, issuer));
  }

  lemma PartsRead(utf8: Utf8, c: Credential, labelIssuer: Option<bytes>, title: bytes, pairs: seq<bytes>)
    requires Expressible(c) && Wellformed(title, pairs) && Unpadded(pairs[|pairs| - 1])
    requires Label(utf8, title) == Success((labelIssuer, c.account)) && (c.issuer.None? ==> labelIssuer.None?)
    requires Query(utf8, NO_PARAMS, pairs) == Success(Given(c))
    ensures Parse(utf8, UriOf(c.kind, title, pairs)) == Success(c)
  {
    ParseOfUnpadded(utf8, c.kind, title, pairs);
    PartsFinish(utf8, c.kind, title, pairs, labelIssuer, c.account, Given(c));
    GivenFinishes(c, labelIssuer);
  }

  lemma PartsFinish(utf8: Utf8, kind: Kind, title: bytes, pairs: seq<bytes>,
                    labelIssuer: Option<bytes>, account: bytes, p: Params)
    requires Label(utf8, title) == Success((labelIssuer, account)) && Query(utf8, NO_PARAMS, pairs) == Success(p)
    ensures ParseParts(utf8, kind, title, pairs) == Finish(kind, labelIssuer, account, p)
  {
  }

  lemma GivenFinishes(c: Credential, labelIssuer: Option<bytes>)
    requires Expressible(c) && (c.issuer.None? ==> labelIssuer.None?)
    ensures Finish(c.kind, labelIssuer, c.account, Given(c)) == Success(c)
  {
  }

  // --- What is not said ----------------------------------------------------------------

  /** The settings a URI gives besides its secret. */
  datatype Said = Said(
    issuer: Option<bytes>, algorithm: Option<Algorithm>, digits: Option<nat>, period: Option<nat>, counter: Option<nat>)

  /** The credential of what is said: everything else has its default. */
  function Meant(kind: Kind, labelIssuer: Option<bytes>, account: bytes, secret: bytes, said: Said): Credential {
    Credential(
      kind, if said.issuer.Some? then said.issuer else labelIssuer, account, secret,
      if said.algorithm.Some? then said.algorithm.value else Sha1,
      if said.digits.Some? then said.digits.value else 6,
      if said.period.Some? then said.period.value else 30,
      if said.counter.Some? then said.counter.value else 0)
  }

  /** One order in which to say it; `issuer` is any encoding. */
  function Saying(c: Credential, said: Said, issuer: bytes): seq<bytes> {
    Perhaps(said.issuer.Some?, Pair(ISSUER, issuer))
    + (Perhaps(true, Pair(SECRET, Base32.Encode(c.secret)))
       + (Perhaps(said.algorithm.Some?, Pair(ALGORITHM, AlgorithmText(c.algorithm)))
          + (Perhaps(said.digits.Some?, Pair(DIGITS, DecimalText(c.digits)))
             + (Perhaps(said.period.Some?, Pair(PERIOD, DecimalText(c.period)))
                + (Perhaps(said.counter.Some?, Pair(COUNTER, DecimalText(c.counter))) + [])))))
  }

  function Perhaps(said: bool, pair: bytes): seq<bytes> {
    if said then [pair] else []
  }

  lemma PerhapsReads(utf8: Utf8, p: Params, said: bool, pair: bytes, p': Params, rest: seq<bytes>)
    requires if said then Step(utf8, p, pair) == Success(p') else p' == p
    ensures Query(utf8, p, Perhaps(said, pair) + rest) == Query(utf8, p', rest)
  {
    if said {
      QueryCons(utf8, p, pair, rest, p');
    } else {
      assert [] + rest == rest;
    }
  }

  lemma SixPerhaps(utf8: Utf8, p0: Params, p1: Params, p2: Params, p3: Params, p4: Params, p5: Params, p6: Params,
                   s1: bool, s2: bool, s3: bool, s4: bool, s5: bool, s6: bool,
                   a: bytes, b: bytes, c: bytes, d: bytes, e: bytes, f: bytes)
    requires if s1 then Step(utf8, p0, a) == Success(p1) else p1 == p0
    requires if s2 then Step(utf8, p1, b) == Success(p2) else p2 == p1
    requires if s3 then Step(utf8, p2, c) == Success(p3) else p3 == p2
    requires if s4 then Step(utf8, p3, d) == Success(p4) else p4 == p3
    requires if s5 then Step(utf8, p4, e) == Success(p5) else p5 == p4
    requires if s6 then Step(utf8, p5, f) == Success(p6) else p6 == p5
    ensures Query(utf8, p0, Perhaps(s1, a) + (Perhaps(s2, b) + (Perhaps(s3, c) + (Perhaps(s4, d)
                            + (Perhaps(s5, e) + (Perhaps(s6, f) + []))))))
         == Success(p6)
  {
    var r6 := Perhaps(s6, f) + [];
    var r5 := Perhaps(s5, e) + r6;
    var r4 := Perhaps(s4, d) + r5;
    var r3 := Perhaps(s3, c) + r4;
    var r2 := Perhaps(s2, b) + r3;
    PerhapsReads(utf8, p0, s1, a, p1, r2);
    PerhapsReads(utf8, p1, s2, b, p2, r3);
    PerhapsReads(utf8, p2, s3, c, p3, r4);
    PerhapsReads(utf8, p3, s4, d, p4, r5);
    PerhapsReads(utf8, p4, s5, e, p5, r6);
    PerhapsReads(utf8, p5, s6, f, p6, []);
  }

  /** What `c` says agrees with what is said. */
  ghost predicate SaysIt(c: Credential, said: Said) {
    && (said.issuer.Some? ==> said.issuer == c.issuer)
    && (said.algorithm.Some? ==> said.algorithm.value == c.algorithm)
    && (said.digits.Some? ==> said.digits.value == c.digits)
    && (said.period.Some? ==> said.period.value == c.period)
    && (said.counter.Some? ==> said.counter.value == c.counter)
  }

  lemma IssuerStep(utf8: Utf8, p: Params, issuer: bytes, name: bytes)
    requires AcceptsAscii(utf8) && p.issuer.None? && Encodes(issuer, name) && utf8(name)
    ensures Step(utf8, p, Pair(ISSUER, issuer)) == Success(p.(issuer := Some(name)))
  {
    Names();
    StepPuts(utf8, p, ISSUER, IssuerParam, issuer, name);
  }

  lemma SayingReads(utf8: Utf8, c: Credential, said: Said, issuer: bytes)
    requires AcceptsAscii(utf8) && Expressible(c) && SaysIt(c, said)
    requires said.issuer.Some? ==> Encodes(issuer, said.issuer.value) && utf8(said.issuer.value)
    ensures Query(utf8, NO_PARAMS, Saying(c, said, issuer))
         == Success(Params(Some(c.secret), said.issuer, said.algorithm, said.digits, said.period, said.counter))
  {
    var p1 := NO_PARAMS.(issuer := said.issuer);
    var p2 := p1.(secret := Some(c.secret));
    var p3 := p2.(algorithm := said.algorithm);
    var p4 := p3.(digits := said.digits);
    var p5 := p4.(period := said.period);
    var p6 := p5.(counter := said.counter);
    if said.issuer.Some? {
      IssuerStep(utf8, NO_PARAMS, issuer, said.issuer.value);
    }
    SecretStep(utf8, c, p1);
    AlgorithmStep(utf8, c, p2);
    DigitsStep(utf8, c, p3);
    PeriodStep(utf8, c, p4);
    CounterStep(utf8, c, p5);
    SixPerhaps(utf8, NO_PARAMS, p1, p2, p3, p4, p5, p6,
               said.issuer.Some?, true, said.algorithm.Some?, said.digits.Some?, said.period.Some?, said.counter.Some?,
               Pair(ISSUER, issuer), Pair(SECRET, Base32.Encode(c.secret)),
               Pair(ALGORITHM, AlgorithmText(c.algorithm)), Pair(DIGITS, DecimalText(c.digits)),
               Pair(PERIOD, DecimalText(c.period)), Pair(COUNTER, DecimalText(c.counter)));
  }

  lemma MeantBySaying(utf8: Utf8, c: Credential, said: Said, title: bytes, issuer: bytes, labelIssuer: Option<bytes>)
    requires AcceptsAscii(utf8) && Expressible(c) && SaysIt(c, said)
    requires said.issuer.Some? ==> Encodes(issuer, said.issuer.value) && utf8(said.issuer.value)
    requires Label(utf8, title) == Success((labelIssuer, c.account))
    ensures ParseParts(utf8, c.kind, title, Saying(c, said, issuer))
         == if c.kind == Hotp && said.counter.None? then Failure(CounterError)
            else Success(Meant(c.kind, labelIssuer, c.account, c.secret, said))
  {
    SayingReads(utf8, c, said, issuer);
  }

  /**
   A URI that gives its secret and any of the settings, in any order: what is
   not said defaults to the label's issuer, SHA-1, six digits, thirty seconds
   and counter zero, except that HOTP must say its counter.
   */
  lemma DefaultsFillIn(utf8: Utf8, c: Credential, said: Said, title: bytes, issuer: bytes,
                       labelIssuer: Option<bytes>, pairs: seq<bytes>)
    requires AcceptsAscii(utf8) && Expressible(c) && SaysIt(c, said)
    requires said.issuer.Some? ==> Encodes(issuer, said.issuer.value) && utf8(said.issuer.value)
    requires Label(utf8, title) == Success((labelIssuer, c.account))
    requires multiset(pairs) == multiset(Saying(c, said, issuer))
    requires Wellformed(title, pairs) && Unpadded(pairs[|pairs| - 1])
    ensures Parse(utf8, UriOf(c.kind, title, pairs)).ToOption()
         == if c.kind == Hotp && said.counter.None? then None
            else Some(Meant(c.kind, labelIssuer, c.account, c.secret, said))
  {
    ParseOfUnpadded(utf8, c.kind, title, pairs);
    PartsIgnoreOrder(utf8, c.kind, title, pairs, Saying(c, said, issuer));
    MeantBySaying(utf8, c, said, title, issuer, labelIssuer);
  }
}
