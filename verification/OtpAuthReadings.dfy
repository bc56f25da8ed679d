/** What a query pair reads as, and when trimming the end of a URI changes that. */
module OtpAuthReadings {
  import opened Wrappers
  import opened Radix
  import opened Sequences
  import opened Ascii
  import opened UriText
  import opened OtpAuth
  import opened OtpAuthUris
  import opened OtpAuthRoundTrip
  import Base32

  /** A parameter with the value stored for it. */
  datatype Value =
    | TheSecret(secret: bytes) | TheIssuer(issuer: bytes) | TheAlgorithm(algorithm: Algorithm)
    | TheDigits(digits: nat) | ThePeriod(period: nat) | TheCounter(counter: nat)

  function Named(v: Value): Param {
    match v
    case TheSecret(_) => SecretParam
    case TheIssuer(_) => IssuerParam
    case TheAlgorithm(_) => AlgorithmParam
    case TheDigits(_) => DigitsParam
    case ThePeriod(_) => PeriodParam
    case TheCounter(_) => CounterParam
  }

  function Store(p: Params, v: Value): Params {
    match v
    case TheSecret(secret) => p.(secret := Some(secret))
    case TheIssuer(issuer) => p.(issuer := Some(issuer))
    case TheAlgorithm(algorithm) => p.(algorithm := Some(algorithm))
    case TheDigits(digits) => p.(digits := Some(digits))
    case ThePeriod(period) => p.(period := Some(period))
    case TheCounter(counter) => p.(counter := Some(counter))
  }

  /** The value a text stores for a parameter, if it is acceptable. */
  ghost function ValueOf(param: Param, text: bytes): Option<Value> {
    match Put(NO_PARAMS, param, text)
    case Failure(_) => None
    case Success(p) =>
      match param
      case SecretParam => Some(TheSecret(p.secret.value))
      case IssuerParam => Some(TheIssuer(p.issuer.value))
      case AlgorithmParam => Some(TheAlgorithm(p.algorithm.value))
      case DigitsParam => Some(TheDigits(p.digits.value))
      case PeriodParam => Some(ThePeriod(p.period.value))
      case CounterParam => Some(TheCounter(p.counter.value))
  }

  /** Nothing at all, broken encoding, an unacceptable value, or a value stored. */
  datatype Reading = Nothing | Broken | Refused(param: Param) | Stores(value: Value)

  ghost function ReadingOf(utf8: Utf8, pair: bytes): Reading {
    match EffectOf(utf8, pair)
    case Harmless => Nothing
    case Broken => Reading.Broken
    case Sets(param, text) => if ValueOf(param, text).Some? then Stores(ValueOf(param, text).value) else Refused(param)
  }

  /** Any issuer is acceptable. */
  predicate Possible(r: Reading) {
    r.Refused? ==> r.param != IssuerParam
  }

  function ErrorOf(param: Param): UriError
    requires param != IssuerParam
  {
    match param
    case SecretParam => SecretError
    case AlgorithmParam => AlgorithmError
    case DigitsParam => DigitsError
    case PeriodParam => PeriodError
    case CounterParam => CounterError
  }

  /** What a pair does to the parameters read so far is a matter of its reading alone. */
  function Read(p: Params, r: Reading): Result<Params, UriError>
    requires Possible(r)
  {
    match r
    case Nothing => Success(p)
    case Broken => Failure(PercentEncoding)
    case Refused(param) => Failure(if Seen(p, param) then DuplicateParameter(param) else ErrorOf(param))
    case Stores(v) => if Seen(p, Named(v)) then Failure(DuplicateParameter(Named(v))) else Success(Store(p, v))
  }

  lemma PutByValue(p: Params, param: Param, text: bytes)
    ensures match ValueOf(param, text)
            case None => param != IssuerParam && Put(p, param, text) == Failure(ErrorOf(param))
            case Some(v) => Named(v) == param && Put(p, param, text) == Success(Store(p, v))
  {
  }

  lemma StepByReading(utf8: Utf8, p: Params, pair: bytes)
    ensures Possible(ReadingOf(utf8, pair)) && Step(utf8, p, pair) == Read(p, ReadingOf(utf8, pair))
  {
    var e := EffectOf(utf8, pair);
    if e.Sets? {
      PutByValue(p, e.param, e.value);
      PutByValue(NO_PARAMS, e.param, e.value);
    }
  }

  // --- The last pair -------------------------------------------------------------

  function Complete(
    kind: Kind, named: (Option<bytes>, bytes), read: Result<Params, UriError>): Result<Credential, UriError>
  {
    match read
    case Failure(error) => Failure(error)
    case Success(p) => Finish(kind, named.0, named.1, p)
  }

  /** The outcome when the last pair has this reading. */
  ghost function Ending(
    utf8: Utf8, kind: Kind, title: bytes, front: seq<bytes>, r: Reading): Result<Credential, UriError>
    requires Possible(r)
  {
    match Label(utf8, title)
    case Failure(error) => Failure(error)
    case Success(named) =>
      match Query(utf8, NO_PARAMS, front)
      case Failure(error) => Failure(error)
      case Success(p) => Complete(kind, named, Read(p, r))
  }

  lemma {:induction false} QuerySnoc(utf8: Utf8, p: Params, front: seq<bytes>, last: bytes)
    ensures Query(utf8, p, front + [last])
         == match Query(utf8, p, front)
            case Failure(error) => Failure(error)
            case Success(p') => Step(utf8, p', last)
    decreases |front|
  {
    if |front| == 0 {
      assert front + [last] == [last] + [];
      if Step(utf8, p, last).Success? {
        QueryCons(utf8, p, last, [], Step(utf8, p, last).value);
      }
    } else {
      var x, rest := front[0], front[1..];
      assert (front + [last])[1..] == rest + [last];
      if Step(utf8, p, x).Success? {
        QuerySnoc(utf8, Step(utf8, p, x).value, rest, last);
      }
    }
  }

  lemma EndsByReading(utf8: Utf8, kind: Kind, title: bytes, front: seq<bytes>, last: bytes)
    ensures Possible(ReadingOf(utf8, last))
    ensures ParseParts(utf8, kind, title, front + [last]) == Ending(utf8, kind, title, front, ReadingOf(utf8, last))
  {
    QuerySnoc(utf8, NO_PARAMS, front, last);
    var read := Query(utf8, NO_PARAMS, front);
    StepByReading(utf8, if read.Success? then read.value else NO_PARAMS, last);
  }

  lemma TrimOfSnoc(front: seq<bytes>, last: bytes)
    ensures TrimLast(front + [last]) == front + [TrimEnd(last)]
  {
  }

  lemma ParseByReading(utf8: Utf8, kind: Kind, title: bytes, front: seq<bytes>, last: bytes)
    requires Wellformed(title, front + [last])
    ensures Possible(ReadingOf(utf8, TrimEnd(last)))
    ensures Parse(utf8, UriOf(kind, title, front + [last]))
         == Ending(utf8, kind, title, front, ReadingOf(utf8, TrimEnd(last)))
  {
    ParseOfUri(utf8, kind, title, front + [last]);
    TrimOfSnoc(front, last);
    EndsByReading(utf8, kind, title, front, TrimEnd(last));
  }

  // --- Meanings: readings up to the error ------------------------------------------

  /** No URI with a fatal pair parses: an empty secret is as fatal as a value that is refused. */
  datatype Meaning = Unheard | Fatal | Means(value: Value)

  function MeaningOf(r: Reading): Meaning {
    match r
    case Nothing => Unheard
    case Broken => Fatal
    case Refused(_) => Fatal
    case Stores(v) => if v == TheSecret([]) then Fatal else Means(v)
  }

  lemma SameMeaningSameEnd(
      kind: Kind, named: (Option<bytes>, bytes), p: Params, r: Reading, r': Reading)
    requires Possible(r) && Possible(r') && MeaningOf(r) == MeaningOf(r')
    ensures Complete(kind, named, Read(p, r)).ToOption() == Complete(kind, named, Read(p, r')).ToOption()
  {
    if MeaningOf(r) == Fatal {
      FatalEnds(kind, named, p, r);
      FatalEnds(kind, named, p, r');
    }
  }

  lemma FatalEnds(kind: Kind, named: (Option<bytes>, bytes), p: Params, r: Reading)
    requires Possible(r) && MeaningOf(r) == Fatal
    ensures Complete(kind, named, Read(p, r)).ToOption() == None
  {
  }

  /** Trimming does not change what the pair means. */
  ghost predicate TrimsSafely(utf8: Utf8, pair: bytes) {
    MeaningOf(ReadingOf(utf8, TrimEnd(pair))) == MeaningOf(ReadingOf(utf8, pair))
  }

  lemma ParseUntrimmed(utf8: Utf8, kind: Kind, title: bytes, front: seq<bytes>, last: bytes)
    requires Wellformed(title, front + [last]) && TrimsSafely(utf8, last)
    ensures Parse(utf8, UriOf(kind, title, front + [last])).ToOption()
         == ParseParts(utf8, kind, title, front + [last]).ToOption()
  {
    ParseByReading(utf8, kind, title, front, last);
    EndsByReading(utf8, kind, title, front, last);
    var named, read := Label(utf8, title), Query(utf8, NO_PARAMS, front);
    if named.Success? && read.Success? {
      SameMeaningSameEnd(kind, named.value, read.value, ReadingOf(utf8, TrimEnd(last)), ReadingOf(utf8, last));
    }
  }

  // --- Telling readings apart ------------------------------------------------------

  const SAMPLE := Credential(Totp, Some(B), [0x61], [0x66], Sha1, 6, 30, 0)

  function Sample(param: Param): Value {
    match param
    case SecretParam => TheSecret(SAMPLE.secret)
    case IssuerParam => TheIssuer(B)
    case AlgorithmParam => TheAlgorithm(SAMPLE.algorithm)
    case DigitsParam => TheDigits(SAMPLE.digits)
    case PeriodParam => ThePeriod(SAMPLE.period)
    case CounterParam => TheCounter(SAMPLE.counter)
  }

  function SamplePair(param: Param): bytes {
    match param
    case SecretParam => Pair(SECRET, Base32.Encode(SAMPLE.secret))
    case IssuerParam => Pair(ISSUER, B)
    case AlgorithmParam => Pair(ALGORITHM, AlgorithmText(SAMPLE.algorithm))
    case DigitsParam => Pair(DIGITS, DecimalText(SAMPLE.digits))
    case PeriodParam => Pair(PERIOD, DecimalText(SAMPLE.period))
    case CounterParam => Pair(COUNTER, DecimalText(SAMPLE.counter))
  }

  lemma SampleReads(utf8: Utf8, p: Params, param: Param)
    requires AcceptsAscii(utf8) && !Seen(p, param)
    ensures Step(utf8, p, SamplePair(param)) == Success(Store(p, Sample(param)))
  {
    if param in {SecretParam, IssuerParam, AlgorithmParam} {
      SampleTextReads(utf8, p, param);
    } else {
      SampleNumberReads(utf8, p, param);
    }
  }

  lemma SampleTextReads(utf8: Utf8, p: Params, param: Param)
    requires AcceptsAscii(utf8) && !Seen(p, param) && param in {SecretParam, IssuerParam, AlgorithmParam}
    ensures Step(utf8, p, SamplePair(param)) == Success(Store(p, Sample(param)))
  {
    match param
    case SecretParam => SecretStep(utf8, SAMPLE, p);
    case IssuerParam =>
      PlainEncodes(B);
      IssuerStep(utf8, p, B, B);
    case AlgorithmParam => AlgorithmStep(utf8, SAMPLE, p);
  }

  lemma SampleNumberReads(utf8: Utf8, p: Params, param: Param)
    requires AcceptsAscii(utf8) && !Seen(p, param) && param in {DigitsParam, PeriodParam, CounterParam}
    ensures Step(utf8, p, SamplePair(param)) == Success(Store(p, Sample(param)))
  {
    SampleIsExpressible();
    match param
    case DigitsParam => DigitsStep(utf8, SAMPLE, p);
    case PeriodParam => PeriodStep(utf8, SAMPLE, p);
    case CounterParam => CounterStep(utf8, SAMPLE, p);
  }

  lemma SampleIsExpressible()
    ensures Expressible(SAMPLE)
  {
  }

  lemma SampleIsClean(param: Param)
    ensures IsClean(SamplePair(param))
  {
    Names();
    match param
    case SecretParam => TextsAreClean(SAMPLE);
    case IssuerParam => PairIsClean(ISSUER, B);
    case AlgorithmParam => TextsAreClean(SAMPLE);
    case DigitsParam => NumberIsClean(DIGITS, SAMPLE.digits);
    case PeriodParam => NumberIsClean(PERIOD, SAMPLE.period);
    case CounterParam => NumberIsClean(COUNTER, SAMPLE.counter);
  }

  /** An empty pair, and one sample pair for each parameter. */
  function Context(params: seq<Param>): (pairs: seq<bytes>)
    ensures |pairs| == |params| + 1
  {
    if |params| == 0 then [[]] else Context(params[..|params| - 1]) + [SamplePair(params[|params| - 1])]
  }

  function State(params: seq<Param>): Params {
    if |params| == 0 then NO_PARAMS else Store(State(params[..|params| - 1]), Sample(params[|params| - 1]))
  }

  ghost predicate Distinct(params: seq<Param>) {
    forall i, j | 0 <= i < j < |params| :: params[i] != params[j]
  }

  lemma {:induction false} StateSeen(params: seq<Param>, param: Param)
    ensures Seen(State(params), param) <==> param in params
  {
    if |params| > 0 {
      var front, last := params[..|params| - 1], params[|params| - 1];
      StateSeen(front, param);
      SplitLast(params);
      StoreSeen(State(front), last, param);
    }
  }

  lemma StoreSeen(p: Params, stored: Param, param: Param)
    ensures Seen(Store(p, Sample(stored)), param) <==> param == stored || Seen(p, param)
  {
  }

  lemma {:induction false} ContextReads(utf8: Utf8, params: seq<Param>)
    requires AcceptsAscii(utf8) && Distinct(params)
    ensures Query(utf8, NO_PARAMS, Context(params)) == Success(State(params))
  {
    if |params| == 0 {
      assert Context(params) == [[]] + [];
      QueryCons(utf8, NO_PARAMS, [], [], NO_PARAMS);
    } else {
      var front, last := params[..|params| - 1], params[|params| - 1];
      ContextReads(utf8, front);
      StateSeen(front, last);
      SampleReads(utf8, State(front), last);
      QuerySnoc(utf8, NO_PARAMS, Context(front), SamplePair(last));
    }
  }

  lemma {:induction false} ContextIsClean(params: seq<Param>)
    ensures forall i | 0 <= i < |Context(params)| :: IsClean(Context(params)[i])
  {
    if |params| == 0 {
      assert TrimEnd([]) == [];
    } else {
      ContextIsClean(params[..|params| - 1]);
      SampleIsClean(params[|params| - 1]);
    }
  }

  /** A TOTP URI that ends in a pair with this reading, after one pair for each parameter. */
  function Outcome(params: seq<Param>, r: Reading): Result<Credential, UriError>
    requires Possible(r)
  {
    Complete(Totp, (None, [0x61]), Read(State(params), r))
  }

  lemma OutcomeIsEnding(utf8: Utf8, params: seq<Param>, r: Reading)
    requires AcceptsAscii(utf8) && Distinct(params) && Possible(r)
    ensures Ending(utf8, Totp, [0x61], Context(params), r) == Outcome(params, r)
  {
    ContextReads(utf8, params);
    PlainEncodes([0x61]);
    DecodesIffEncodes(utf8, [0x61], [0x61]);
    NotSplit([0x61], COLON);
  }

  /** All that a TOTP URI needs besides `param`. */
  function Without(param: Param): seq<Param> {
    if param == SecretParam then [] else [SecretParam]
  }

  /** The same, with `param` already there. */
  function With(param: Param): seq<Param> {
    if param == SecretParam then [SecretParam] else [param, SecretParam]
  }

  lemma States(param: Param)
    ensures State([]) == NO_PARAMS && State([SecretParam]) == Store(NO_PARAMS, Sample(SecretParam))
    ensures State([param]) == Store(NO_PARAMS, Sample(param))
    ensures param != SecretParam ==>
              State([param, SecretParam]) == Store(Store(NO_PARAMS, Sample(param)), Sample(SecretParam))
  {
    assert [param][..0] == [] && [SecretParam][..0] == [] && [param, SecretParam][..1] == [param];
  }

  /** Where a reading stores something, nothing is missing and nothing is doubled. */
  lemma StoresWhereMissing(v: Value)
    ensures Outcome(Without(Named(v)), Stores(v))
         == if v == TheSecret([]) then Failure(MissingSecret)
            else Finish(Totp, None, [0x61], Store(State(Without(Named(v))), v))
    ensures v != TheSecret([]) ==> Outcome(Without(Named(v)), Stores(v)).Success?
    ensures Distinct(Without(Named(v)))
  {
    States(Named(v));
  }

  lemma StoresTwice(v: Value)
    ensures Outcome(With(Named(v)), Stores(v)) == Failure(DuplicateParameter(Named(v)))
    ensures Outcome(With(Named(v)), Nothing).Success?
    ensures Distinct(With(Named(v)))
  {
    States(Named(v));
  }

  lemma NothingAdded(r: Reading)
    requires Possible(r)
    ensures Outcome([SecretParam], Nothing).Success?
    ensures r.Broken? || r.Refused? ==> Outcome([SecretParam], r).Failure?
  {
    States(SecretParam);
  }

  /** One stores a parameter that is already there, the other one that is missing. */
  lemma StoresAnother(v: Value, w: Value) returns (params: seq<Param>)
    requires Named(v) != Named(w) && w != TheSecret([])
    ensures Distinct(params) && Outcome(params, Stores(v)).Failure? && Outcome(params, Stores(w)).Success?
  {
    params := if Named(w) == SecretParam then [Named(v)] else With(Named(v));
    States(Named(v));
  }

  lemma StoresDifferently(v: Value, w: Value)
    requires Named(v) == Named(w) && v != w && v != TheSecret([]) && w != TheSecret([])
    ensures Outcome(Without(Named(v)), Stores(v)).Success? && Outcome(Without(Named(v)), Stores(w)).Success?
    ensures Outcome(Without(Named(v)), Stores(v)) != Outcome(Without(Named(v)), Stores(w))
  {
    States(Named(v));
  }

  lemma FatalOutcome(params: seq<Param>, r: Reading)
    requires Possible(r) && MeaningOf(r) == Fatal
    ensures Outcome(params, r).Failure?
  {
    FatalEnds(Totp, (None, [0x61]), State(params), r);
  }

  /** Pairs that mean different things are told apart by some URI. */
  lemma MeaningsDiffer(r: Reading, s: Reading) returns (params: seq<Param>)
    requires Possible(r) && Possible(s) && MeaningOf(r) != MeaningOf(s)
    ensures Distinct(params) && Outcome(params, r).ToOption() != Outcome(params, s).ToOption()
  {
    match (MeaningOf(r), MeaningOf(s))
    case (Fatal, _) => params := FatalDiffers(r, s);
    case (_, Fatal) => params := FatalDiffers(s, r);
    case (Unheard, Means(w)) =>
      params := With(Named(w));
      StoresTwice(w);
    case (Means(v), Unheard) =>
      params := With(Named(v));
      StoresTwice(v);
    case (Means(v), Means(w)) =>
      if Named(v) != Named(w) {
        params := StoresAnother(v, w);
      } else {
        params := Without(Named(v));
        StoresDifferently(v, w);
      }
  }

  lemma FatalDiffers(r: Reading, s: Reading) returns (params: seq<Param>)
    requires Possible(r) && Possible(s) && MeaningOf(r) == Fatal && MeaningOf(s) != Fatal
    ensures Distinct(params) && Outcome(params, r).Failure? && Outcome(params, s).Success?
  {
    match MeaningOf(s)
    case Unheard =>
      params := [SecretParam];
      NothingAdded(r);
    case Means(v) =>
      params := Without(Named(v));
      StoresWhereMissing(v);
    FatalOutcome(params, r);
  }

  /** Pairs with different readings are told apart by some URI, by its error at least. */
  lemma ReadingsDiffer(r: Reading, s: Reading) returns (params: seq<Param>)
    requires Possible(r) && Possible(s) && r != s
    ensures Distinct(params) && Outcome(params, r) != Outcome(params, s)
  {
    match (r, s)
    case (Nothing, _) => params := NothingDiffers(s);
    case (_, Nothing) => params := NothingDiffers(r);
    case (Stores(v), Stores(w)) =>
      if Named(v) != Named(w) {
        params := [Named(v)];
        States(Named(v));
      } else {
        params := Without(Named(v));
        States(Named(v));
      }
    case (_, _) =>
      params := [];
      States(SecretParam);
  }

  lemma NothingDiffers(r: Reading) returns (params: seq<Param>)
    requires Possible(r) && r != Nothing
    ensures Distinct(params) && Outcome(params, Nothing) != Outcome(params, r)
  {
    match r
    case Stores(v) =>
      params := With(Named(v));
      StoresTwice(v);
    case _ =>
      params := [SecretParam];
      NothingAdded(r);
  }

  // --- Order -----------------------------------------------------------------------

  lemma TrimOfPermutation(ps: seq<bytes>, qs: seq<bytes>)
    requires multiset(ps) == multiset(qs) && |ps| > 0 && |qs| > 0 && ps[|ps| - 1] == qs[|qs| - 1]
    ensures multiset(TrimLast(ps)) == multiset(TrimLast(qs))
  {
    var x := ps[|ps| - 1];
    SplitLast(ps);
    SplitLast(qs);
    TrimOfSnoc(ps[..|ps| - 1], x);
    TrimOfSnoc(qs[..|qs| - 1], x);
    SameFronts(ps[..|ps| - 1], qs[..|qs| - 1], x);
    SameBags(ps[..|ps| - 1], qs[..|qs| - 1], TrimEnd(x));
  }

  lemma SameFronts<T>(front: seq<T>, front': seq<T>, last: T)
    requires multiset(front + [last]) == multiset(front' + [last])
    ensures multiset(front) == multiset(front')
  {
    assert multiset(front) == multiset(front + [last]) - multiset{last};
    assert multiset(front') == multiset(front' + [last]) - multiset{last};
  }

  lemma SameBags<T>(front: seq<T>, front': seq<T>, last: T)
    requires multiset(front) == multiset(front')
    ensures multiset(front + [last]) == multiset(front' + [last])
  {
  }

  /**
   Permuting the pairs of a URI changes neither whether it parses nor the
   credential, when both orders end in the same pair or in pairs that mean the
   same without the white space at their end.
   */
  lemma UriIgnoresOrder(utf8: Utf8, kind: Kind, title: bytes, ps: seq<bytes>, qs: seq<bytes>)
    requires Wellformed(title, ps) && Wellformed(title, qs) && multiset(ps) == multiset(qs)
    requires || ps[|ps| - 1] == qs[|qs| - 1]
             || (TrimsSafely(utf8, ps[|ps| - 1]) && TrimsSafely(utf8, qs[|qs| - 1]))
    ensures Parse(utf8, UriOf(kind, title, ps)).ToOption() == Parse(utf8, UriOf(kind, title, qs)).ToOption()
  {
    var x, y := ps[|ps| - 1], qs[|qs| - 1];
    SplitLast(ps);
    SplitLast(qs);
    if x == y {
      ParseOfUri(utf8, kind, title, ps);
      ParseOfUri(utf8, kind, title, qs);
      TrimOfPermutation(ps, qs);
      PartsIgnoreOrder(utf8, kind, title, TrimLast(ps), TrimLast(qs));
    } else {
      ParseUntrimmed(utf8, kind, title, ps[..|ps| - 1], x);
      ParseUntrimmed(utf8, kind, title, qs[..|qs| - 1], y);
      PartsIgnoreOrder(utf8, kind, title, ps, qs);
    }
  }

  /** Moving `x` away from the end of a URI, for a pair without white space at its end, changes nothing. */
  ghost predicate MovesSafely(utf8: Utf8, kind: Kind, title: bytes, ps: seq<bytes>, qs: seq<bytes>, x: bytes) {
    Wellformed(title, ps) && Wellformed(title, qs) && multiset(ps) == multiset(qs)
    && ps[|ps| - 1] == x && Unpadded(qs[|qs| - 1]) ==>
      Parse(utf8, UriOf(kind, title, ps)).ToOption() == Parse(utf8, UriOf(kind, title, qs)).ToOption()
  }

  /** `x` may stand last or elsewhere in every URI. */
  ghost predicate StandsAnywhere(utf8: Utf8, x: bytes) {
    forall kind, title, ps, qs :: MovesSafely(utf8, kind, title, ps, qs, x)
  }

  predicate IsPiece(pair: bytes) {
    AMPERSAND !in pair
  }

  lemma AllOfBoth<T>(holds: T -> bool, a: seq<T>, b: seq<T>)
    requires (forall i | 0 <= i < |a| :: holds(a[i])) && forall i | 0 <= i < |b| :: holds(b[i])
    ensures forall i | 0 <= i < |a + b| :: holds((a + b)[i])
  {
  }

  lemma PiecesAreWellformed(pairs: seq<bytes>)
    requires |pairs| > 0 && forall i | 0 <= i < |pairs| :: IsPiece(pairs[i])
    ensures Wellformed([0x61], pairs)
  {
    forall i | 0 <= i < |pairs|
      ensures AMPERSAND !in pairs[i]
    {
      assert IsPiece(pairs[i]);
    }
  }

  lemma ContextPieces(params: seq<Param>)
    ensures forall i | 0 <= i < |Context(params)| :: IsPiece(Context(params)[i])
    ensures Unpadded(Context(params)[|params|])
  {
    ContextIsClean(params);
    forall i | 0 <= i < |Context(params)|
      ensures IsPiece(Context(params)[i])
    {
      assert IsClean(Context(params)[i]);
    }
    assert IsClean(Context(params)[|params|]);
  }

  lemma ContextWellformed(params: seq<Param>, x: bytes)
    requires IsPiece(x)
    ensures Wellformed([0x61], Context(params) + [x]) && Wellformed([0x61], [x] + Context(params))
    ensures ([x] + Context(params))[|params| + 1] == Context(params)[|params|]
  {
    ContextPieces(params);
    AllOfBoth(IsPiece, Context(params), [x]);
    AllOfBoth(IsPiece, [x], Context(params));
    PiecesAreWellformed(Context(params) + [x]);
    PiecesAreWellformed([x] + Context(params));
  }

  /** A URI in which `x` stands last and one in which it stands first. */
  lemma MovedOutcomes(utf8: Utf8, params: seq<Param>, x: bytes)
    requires AcceptsAscii(utf8) && Distinct(params) && IsPiece(x)
    ensures Possible(ReadingOf(utf8, TrimEnd(x))) && Possible(ReadingOf(utf8, x))
    ensures Parse(utf8, UriOf(Totp, [0x61], Context(params) + [x])) == Outcome(params, ReadingOf(utf8, TrimEnd(x)))
    ensures Parse(utf8, UriOf(Totp, [0x61], [x] + Context(params))).ToOption()
         == Outcome(params, ReadingOf(utf8, x)).ToOption()
  {
    var context := Context(params);
    ContextWellformed(params, x);
    ContextPieces(params);
    ParseByReading(utf8, Totp, [0x61], context, x);
    ParseOfUnpadded(utf8, Totp, [0x61], [x] + context);
    assert multiset(context + [x]) == multiset([x] + context);
    PartsIgnoreOrder(utf8, Totp, [0x61], [x] + context, context + [x]);
    EndsByReading(utf8, Totp, [0x61], context, x);
    OutcomeIsEnding(utf8, params, ReadingOf(utf8, TrimEnd(x)));
    OutcomeIsEnding(utf8, params, ReadingOf(utf8, x));
  }

  lemma SafeStandsAnywhere(utf8: Utf8, x: bytes)
    requires TrimsSafely(utf8, x)
    ensures StandsAnywhere(utf8, x)
  {
    forall kind, title, ps, qs
      ensures MovesSafely(utf8, kind, title, ps, qs, x)
    {
      if Wellformed(title, ps) && Wellformed(title, qs) && multiset(ps) == multiset(qs)
         && ps[|ps| - 1] == x && Unpadded(qs[|qs| - 1]) {
        UriIgnoresOrder(utf8, kind, title, ps, qs);
      }
    }
  }

  lemma MoveTells(utf8: Utf8, x: bytes) returns (ps: seq<bytes>, qs: seq<bytes>)
    requires AcceptsAscii(utf8) && IsPiece(x) && !TrimsSafely(utf8, x)
    ensures !MovesSafely(utf8, Totp, [0x61], ps, qs, x)
  {
    StepByReading(utf8, NO_PARAMS, x);
    StepByReading(utf8, NO_PARAMS, TrimEnd(x));
    var params := MeaningsDiffer(ReadingOf(utf8, TrimEnd(x)), ReadingOf(utf8, x));
    var context := Context(params);
    ps, qs := context + [x], [x] + context;
    ContextWellformed(params, x);
    ContextPieces(params);
    MovedOutcomes(utf8, params, x);
    assert multiset(ps) == multiset(qs) && ps[|ps| - 1] == x;
  }

  /** Exactly the pairs that mean the same with and without the white space at their end may stand anywhere. */
  lemma StandsAnywhereIff(utf8: Utf8, x: bytes)
    requires AcceptsAscii(utf8) && IsPiece(x)
    ensures StandsAnywhere(utf8, x) <==> TrimsSafely(utf8, x)
  {
    if TrimsSafely(utf8, x) {
      SafeStandsAnywhere(utf8, x);
    } else {
      var ps, qs := MoveTells(utf8, x);
    }
  }

  // --- Encoding of the last pair ------------------------------------------------------

  /** The two URIs that differ in their last pair parse alike, errors included. */
  ghost predicate EndsAlike(utf8: Utf8, kind: Kind, title: bytes, front: seq<bytes>, x: bytes, y: bytes) {
    Wellformed(title, front + [x]) && Wellformed(title, front + [y]) ==>
      Parse(utf8, UriOf(kind, title, front + [x])) == Parse(utf8, UriOf(kind, title, front + [y]))
  }

  ghost predicate InterchangeableLast(utf8: Utf8, x: bytes, y: bytes) {
    forall kind, title, front :: EndsAlike(utf8, kind, title, front, x, y)
  }

  lemma EndsByOutcome(utf8: Utf8, params: seq<Param>, x: bytes)
    requires AcceptsAscii(utf8) && Distinct(params) && IsPiece(x)
    ensures Possible(ReadingOf(utf8, TrimEnd(x))) && Wellformed([0x61], Context(params) + [x])
    ensures Parse(utf8, UriOf(Totp, [0x61], Context(params) + [x])) == Outcome(params, ReadingOf(utf8, TrimEnd(x)))
  {
    ContextWellformed(params, x);
    ParseByReading(utf8, Totp, [0x61], Context(params), x);
    OutcomeIsEnding(utf8, params, ReadingOf(utf8, TrimEnd(x)));
  }

  /**
   Exactly the pairs with the same reading once trimmed can replace each other
   at the end of every URI, the error included: in particular, this decides for
   two encodings of the same name and value.
   */
  lemma InterchangeableIff(utf8: Utf8, x: bytes, y: bytes)
    requires AcceptsAscii(utf8) && IsPiece(x) && IsPiece(y)
    ensures InterchangeableLast(utf8, x, y) <==> ReadingOf(utf8, TrimEnd(x)) == ReadingOf(utf8, TrimEnd(y))
  {
    var r, s := ReadingOf(utf8, TrimEnd(x)), ReadingOf(utf8, TrimEnd(y));
    StepByReading(utf8, NO_PARAMS, TrimEnd(x));
    StepByReading(utf8, NO_PARAMS, TrimEnd(y));
    if r == s {
      forall kind, title, front
        ensures EndsAlike(utf8, kind, title, front, x, y)
      {
        if Wellformed(title, front + [x]) && Wellformed(title, front + [y]) {
          ParseByReading(utf8, kind, title, front, x);
          ParseByReading(utf8, kind, title, front, y);
        }
      }
    } else {
      var params := ReadingsDiffer(r, s);
      EndsByOutcome(utf8, params, x);
      EndsByOutcome(utf8, params, y);
      assert !EndsAlike(utf8, Totp, [0x61], Context(params), x, y);
    }
  }

  // --- A failing input ------------------------------------------------------------------

  const B_ESCAPED: bytes := [0x42, 0x25, 0x32, 0x30]    // B%20

  lemma SpaceEncodings()
    ensures Encodes(B_SPACE, B_SPACE) && Encodes(B_ESCAPED, B_SPACE)
  {
    UnescapeIffEncodes(B_SPACE, B_SPACE);
    Literal(B_SPACE);
    assert B_ESCAPED[1..] == [0x25, 0x32, 0x30] && B_ESCAPED[1..][3..] == [] && B_SPACE[1..] == [0x20];
    assert Encodes([0x25, 0x32, 0x30], [0x20]);
  }

  /** Two encodings of the same value make two encodings of the same pair. */
  lemma SameNamedPair(name: bytes, param: Param, raw: bytes, raw': bytes, value: bytes)
    requires IsName(name, param) && Encodes(raw, value) && Encodes(raw', value)
    ensures SamePair(Pair(name, raw), Pair(name, raw'))
  {
    SplitOnceJoined(name, EQUALS, raw);
    SplitOnceJoined(name, EQUALS, raw');
    assert Reencodes(raw, raw');
  }

  lemma EscapedStays()
    ensures TrimEnd(Pair(ISSUER, B_ESCAPED)) == Pair(ISSUER, B_ESCAPED)
  {
    LastStays(Pair(ISSUER, [0x42, 0x25, 0x32]), 0x30);
    assert Pair(ISSUER, [0x42, 0x25, 0x32]) + [0x30] == Pair(ISSUER, B_ESCAPED);
  }

  lemma EscapedSpace()
    ensures Encodes(B_SPACE, B_SPACE) && Encodes(B_ESCAPED, B_SPACE)
    ensures SamePair(Pair(ISSUER, B_SPACE), Pair(ISSUER, B_ESCAPED))
    ensures TrimEnd(Pair(ISSUER, B_ESCAPED)) == Pair(ISSUER, B_ESCAPED)
  {
    SpaceEncodings();
    Names();
    SameNamedPair(ISSUER, IssuerParam, B_SPACE, B_ESCAPED, B_SPACE);
    EscapedStays();
  }

  lemma EscapedIssuerReads()
    ensures var r := ParseParts(AnyText, Totp, [0x61], [SECRET_MY, Pair(ISSUER, B_ESCAPED)]);
            r.Success? && r.value.issuer == Some(B_SPACE)
  {
    EscapedSpace();
    var p := SecretFirst();
    IssuerStep(AnyText, p, B_ESCAPED, B_SPACE);
    IssuerSecond(p, Pair(ISSUER, B_ESCAPED), B_SPACE);
  }

  lemma EscapedIssuerParses()
    ensures var r := Parse(AnyText, UriOf(Totp, [0x61], [SECRET_MY, Pair(ISSUER, B_ESCAPED)]));
            r.Success? && r.value.issuer == Some(B_SPACE)
  {
    EscapedSpace();
    EscapedIssuerReads();
    EscapedPieces();
    ParseOfTwo(SECRET_MY, Pair(ISSUER, B_ESCAPED));
  }

  lemma EscapedPieces()
    ensures AMPERSAND !in SECRET_MY && AMPERSAND !in Pair(ISSUER, B_ESCAPED)
  {
  }

  /** Trimming makes encoding matter: `issuer=B ` names `B` at the end of a URI, `issuer=B%20` names `B `. */
  lemma PaddedPairsDependOnEncoding()
    ensures SamePair(ISSUER_B_SPACE, Pair(ISSUER, B_ESCAPED))
    ensures Parse(AnyText, UriOf(Totp, [0x61], [SECRET_MY, ISSUER_B_SPACE])).ToOption()
         != Parse(AnyText, UriOf(Totp, [0x61], [SECRET_MY, Pair(ISSUER, B_ESCAPED)])).ToOption()
  {
    EscapedSpace();
    PaddedPairTrimmed();
    EscapedIssuerParses();
  }
}
