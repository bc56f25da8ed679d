/** Parsing `otpauth://` URIs: a label, and query parameters each given at most once. */
module OtpAuth {
  import opened Wrappers
  import opened Radix
  import opened Ascii
  import opened UriText
  import Base32

  datatype Kind = Totp | Hotp
  datatype Algorithm = Sha1 | Sha256 | Sha512

  datatype Param = SecretParam | IssuerParam | AlgorithmParam | DigitsParam | PeriodParam | CounterParam

  datatype UriError =
    | SchemeError | KindError | MissingName | MissingSecret | SecretError | PercentEncoding
    | AlgorithmError | DigitsError | PeriodError | DuplicateParameter(param: Param) | CounterError

  datatype Credential = Credential(
    kind: Kind, issuer: Option<bytes>, account: bytes, secret: bytes,
    algorithm: Algorithm, digits: nat, period: nat, counter: nat)

  /** The recognised parameters given so far. */
  datatype Params = Params(
    secret: Option<bytes>, issuer: Option<bytes>, algorithm: Option<Algorithm>,
    digits: Option<nat>, period: Option<nat>, counter: Option<nat>)

  const NO_PARAMS := Params(None, None, None, None, None, None)

  const SCHEME: bytes := [0x6f, 0x74, 0x70, 0x61, 0x75, 0x74, 0x68, 0x3a, 0x2f, 0x2f]   // otpauth://
  const TOTP: bytes := [0x74, 0x6f, 0x74, 0x70]
  const HOTP: bytes := [0x68, 0x6f, 0x74, 0x70]
  const SECRET: bytes := [0x73, 0x65, 0x63, 0x72, 0x65, 0x74]
  const ISSUER: bytes := [0x69, 0x73, 0x73, 0x75, 0x65, 0x72]
  const ALGORITHM: bytes := [0x61, 0x6c, 0x67, 0x6f, 0x72, 0x69, 0x74, 0x68, 0x6d]
  const DIGITS: bytes := [0x64, 0x69, 0x67, 0x69, 0x74, 0x73]
  const PERIOD: bytes := [0x70, 0x65, 0x72, 0x69, 0x6f, 0x64]
  const COUNTER: bytes := [0x63, 0x6f, 0x75, 0x6e, 0x74, 0x65, 0x72]
  const SHA1: bytes := [0x53, 0x48, 0x41, 0x31]
  const SHA256: bytes := [0x53, 0x48, 0x41, 0x32, 0x35, 0x36]
  const SHA512: bytes := [0x53, 0x48, 0x41, 0x35, 0x31, 0x32]

  const QUESTION: byte := 0x3f
  const AMPERSAND: byte := 0x26

  function ParamOf(key: bytes): Option<Param> {
    if key == SECRET then Some(SecretParam)
    else if key == ISSUER then Some(IssuerParam)
    else if key == ALGORITHM then Some(AlgorithmParam)
    else if key == DIGITS then Some(DigitsParam)
    else if key == PERIOD then Some(PeriodParam)
    else if key == COUNTER then Some(CounterParam)
    else None
  }

  function ParseAlgorithm(value: bytes): Option<Algorithm> {
    var name := Uppercase(value);
    if name == SHA1 then Some(Sha1) else if name == SHA256 then Some(Sha256)
    else if name == SHA512 then Some(Sha512) else None
  }

  predicate Seen(p: Params, param: Param) {
    match param
    case SecretParam => p.secret.Some?
    case IssuerParam => p.issuer.Some?
    case AlgorithmParam => p.algorithm.Some?
    case DigitsParam => p.digits.Some?
    case PeriodParam => p.period.Some?
    case CounterParam => p.counter.Some?
  }

  /** A recognised parameter's value is read into the place kept for it. */
  ghost function Put(p: Params, param: Param, value: bytes): Result<Params, UriError> {
    match param
    case SecretParam =>
      (match Base32.Decoded(value)
       case None => Failure(SecretError)
       case Some(secret) => Success(p.(secret := Some(secret))))
    case IssuerParam => Success(p.(issuer := Some(value)))
    case AlgorithmParam =>
      (match ParseAlgorithm(value)
       case None => Failure(AlgorithmError)
       case Some(algorithm) => Success(p.(algorithm := Some(algorithm))))
    case DigitsParam =>
      (match ParseUint(value, U8_MAX)
       case Some(n) => if 4 <= n <= 8 then Success(p.(digits := Some(n))) else Failure(DigitsError)
       case None => Failure(DigitsError))
    case PeriodParam =>
      (match ParseUint(value, U32_MAX)
       case Some(n) => if n == 0 then Failure(PeriodError) else Success(p.(period := Some(n)))
       case None => Failure(PeriodError))
    case CounterParam =>
      (match ParseUint(value, U32_MAX)
       case None => Failure(CounterError)
       case Some(n) => Success(p.(counter := Some(n))))
  }

  /** The name and the value of a query pair, still encoded. */
  function NameValue(pair: bytes): (bytes, bytes) {
    match SplitOnce(pair, EQUALS)
    case Some(both) => both
    case None => (pair, [])
  }

  /** One query pair. */
  ghost function Step(utf8: Utf8, p: Params, pair: bytes): Result<Params, UriError> {
    if |pair| == 0 then Success(p)
    else
      var (name, value) := NameValue(pair);
      match (PercentDecode(utf8, name), PercentDecode(utf8, value))
      case (Some(key), Some(text)) =>
        (match ParamOf(key)
         case None => Success(p)
         case Some(param) =>
           if Seen(p, param) then Failure(DuplicateParameter(param)) else Put(p, param, text))
      case _ => Failure(PercentEncoding)
  }

  ghost function Query(utf8: Utf8, p: Params, pairs: seq<bytes>): Result<Params, UriError>
    decreases |pairs|
  {
    if |pairs| == 0 then Success(p)
    else
      match Step(utf8, p, pairs[0])
      case Failure(error) => Failure(error)
      case Success(p') => Query(utf8, p', pairs[1..])
  }

  function GetOr<T>(o: Option<T>, default: T): T {
    if o.Some? then o.value else default
  }

  /** The credential of a label and its parameters, with defaults filled in. */
  function Finish(kind: Kind, labelIssuer: Option<bytes>, account: bytes, p: Params): Result<Credential, UriError> {
    if p.secret.None? || |p.secret.value| == 0 then Failure(MissingSecret)
    else if p.counter.None? && kind == Hotp then Failure(CounterError)
    else
      Success(Credential(
        kind, if p.issuer.Some? then p.issuer else labelIssuer, account, p.secret.value,
        GetOr(p.algorithm, Sha1), GetOr(p.digits, 6), GetOr(p.period, 30), GetOr(p.counter, 0)))
  }

  function KindOf(text: bytes): Option<Kind> {
    if text == TOTP then Some(Totp) else if text == HOTP then Some(Hotp) else None
  }

  /** The label `[issuer:]account`, decoded before it is split. */
  function Label(utf8: Utf8, raw: bytes): Result<(Option<bytes>, bytes), UriError> {
    match PercentDecode(utf8, raw)
    case None => Failure(PercentEncoding)
    case Some(title) =>
      var split := SplitOnce(title, COLON);
      var issuer := if split.Some? then Some(split.value.0) else None;
      var account := if split.Some? then split.value.1 else title;
      if |account| == 0 then Failure(MissingName) else Success((issuer, account))
  }

  /** Everything after the kind: the label and the query pairs. */
  ghost function ParseParts(utf8: Utf8, kind: Kind, title: bytes, pairs: seq<bytes>): Result<Credential, UriError> {
    match Label(utf8, title)
    case Failure(error) => Failure(error)
    case Success((issuer, account)) =>
      match Query(utf8, NO_PARAMS, pairs)
      case Failure(error) => Failure(error)
      case Success(p) => Finish(kind, issuer, account, p)
  }

  ghost function Parse(utf8: Utf8, uri: bytes): Result<Credential, UriError> {
    var trimmed := Trim(uri);
    if !(SCHEME <= trimmed) then Failure(SchemeError)
    else
      match SplitOnce(trimmed[|SCHEME|..], SLASH)
      case None => Failure(KindError)
      case Some((kind, rest)) =>
        match KindOf(kind)
        case None => Failure(KindError)
        case Some(k) =>
          var split := SplitOnce(rest, QUESTION);
          var title := if split.Some? then split.value.0 else rest;
          ParseParts(utf8, k, title, Split(if split.Some? then split.value.1 else [], AMPERSAND))
  }

  // --- The parser as it runs ------------------------------------------------

  function IndexOfParam(param: Param): (i: nat)
    ensures i < 6
  {
    match param
    case SecretParam => 0
    case IssuerParam => 1
    case AlgorithmParam => 2
    case DigitsParam => 3
    case PeriodParam => 4
    case CounterParam => 5
  }

  /** The parser's variables, with their defaults until a parameter sets them. */
  datatype Vars = Vars(
    secret: Option<bytes>, issuer: Option<bytes>, algorithm: Algorithm, digits: nat, period: nat, counter: Option<nat>)

  ghost predicate Holds(p: Params, labelIssuer: Option<bytes>, vars: Vars) {
    && vars.secret == p.secret && vars.counter == p.counter
    && vars.issuer == (if p.issuer.Some? then p.issuer else labelIssuer)
    && vars.algorithm == GetOr(p.algorithm, Sha1)
    && vars.digits == GetOr(p.digits, 6) && vars.period == GetOr(p.period, 30)
  }

  ghost predicate Marks(p: Params, seen: seq<bool>) {
    |seen| == 6 && forall param: Param :: seen[IndexOfParam(param)] == Seen(p, param)
  }

  /** Reads one recognised parameter into its variable. */
  method SetVar(ghost p: Params, ghost labelIssuer: Option<bytes>, vars: Vars, param: Param, value: bytes)
    returns (r: Result<Vars, UriError>)
    requires Holds(p, labelIssuer, vars)
    ensures match Put(p, param, value)
            case Failure(error) => r == Failure(error)
            case Success(p') => r.Success? && Holds(p', labelIssuer, r.value)
  {
    match param
    case SecretParam =>
      var decoded := Base32.Base32Decode(value);
      if decoded.Failure? {
        return Failure(SecretError);
      }
      Base32.EncodeInjective(decoded.value, Base32.Decoded(value).value);
      return Success(vars.(secret := Some(decoded.value)));
    case IssuerParam =>
      return Success(vars.(issuer := Some(value)));
    case AlgorithmParam =>
      var parsed := ParseAlgorithm(value);
      if parsed.None? {
        return Failure(AlgorithmError);
      }
      return Success(vars.(algorithm := parsed.value));
    case DigitsParam =>
      var parsed := ParseUint(value, U8_MAX);
      if parsed.None? || !(4 <= parsed.value <= 8) {
        return Failure(DigitsError);
      }
      return Success(vars.(digits := parsed.value));
    case PeriodParam =>
      var parsed := ParseUint(value, U32_MAX);
      if parsed.None? || parsed.value == 0 {
        return Failure(PeriodError);
      }
      return Success(vars.(period := parsed.value));
    case CounterParam =>
      var parsed := ParseUint(value, U32_MAX);
      if parsed.None? {
        return Failure(CounterError);
      }
      return Success(vars.(counter := parsed));
  }

  lemma PutMarks(p: Params, seen: seq<bool>, param: Param, value: bytes)
    requires Marks(p, seen) && Put(p, param, value).Success?
    ensures Marks(Put(p, param, value).value, seen[IndexOfParam(param) := true])
  {
    var p', seen' := Put(p, param, value).value, seen[IndexOfParam(param) := true];
    forall other: Param
      ensures seen'[IndexOfParam(other)] == Seen(p', other)
    {
    }
  }

  /** The query loop: decoded names, each recognised one at most once, in any order. */
  method ParseQuery(utf8: Utf8, labelIssuer: Option<bytes>, pairs: seq<bytes>) returns (r: Result<Vars, UriError>)
    ensures match Query(utf8, NO_PARAMS, pairs)
            case Failure(error) => r == Failure(error)
            case Success(p) => r.Success? && Holds(p, labelIssuer, r.value)
  {
    var vars := Vars(None, labelIssuer, Sha1, 6, 30, None);
    var seen := [false, false, false, false, false, false];
    ghost var p := NO_PARAMS;
    assert pairs[0..] == pairs;
    for i := 0 to |pairs|
      invariant Query(utf8, NO_PARAMS, pairs) == Query(utf8, p, pairs[i..])
      invariant Holds(p, labelIssuer, vars) && Marks(p, seen)
    {
      var pair := pairs[i];
      assert pairs[i..][1..] == pairs[i + 1..];
      if |pair| == 0 {
        continue;
      }
      var (name, raw) := NameValue(pair);
      var key := DecodePercent(utf8, name);
      if key.None? {
        return Failure(PercentEncoding);
      }
      var value := DecodePercent(utf8, raw);
      if value.None? {
        return Failure(PercentEncoding);
      }
      var param := ParamOf(key.value);
      if param.Some? {
        var index := IndexOfParam(param.value);
        if seen[index] {
          return Failure(DuplicateParameter(param.value));
        }
        var updated := SetVar(p, labelIssuer, vars, param.value, value.value);
        if updated.Failure? {
          return Failure(updated.error);
        }
        PutMarks(p, seen, param.value, value.value);
        seen := seen[index := true];
        vars := updated.value;
        p := Put(p, param.value, value.value).value;
      }
    }
    return Success(vars);
  }

  /** Peels off the white space, the scheme, the kind, the label and the query, in that order. */
  method ParseUri(utf8: Utf8, uri: bytes) returns (r: Result<Credential, UriError>)
    ensures r == Parse(utf8, uri)
  {
    var trimmed := Trim(uri);
    if !(SCHEME <= trimmed) {
      return Failure(SchemeError);
    }
    var parts := SplitOnce(trimmed[|SCHEME|..], SLASH);
    if parts.None? {
      return Failure(KindError);
    }
    var kind := KindOf(parts.value.0);
    if kind.None? {
      return Failure(KindError);
    }
    var rest := parts.value.1;
    var split := SplitOnce(rest, QUESTION);
    var title, query := rest, [];
    if split.Some? {
      title, query := split.value.0, split.value.1;
    }
    var named := Label(utf8, title);
    if named.Failure? {
      return Failure(named.error);
    }
    var (issuer, account) := named.value;
    var parsed := ParseQuery(utf8, issuer, Split(query, AMPERSAND));
    if parsed.Failure? {
      return Failure(parsed.error);
    }
    var vars := parsed.value;
    if vars.secret.None? || |vars.secret.value| == 0 {
      return Failure(MissingSecret);
    }
    if vars.counter.None? && kind.value == Hotp {
      return Failure(CounterError);
    }
    return Success(Credential(
      kind.value, vars.issuer, account, vars.secret.value, vars.algorithm, vars.digits, vars.period,
      if vars.counter.Some? then vars.counter.value else 0));
  }

  // --- Order does not matter ---------------------------------------------------

  /** A query pair on top of what came before, errors not told apart. */
  ghost function Then(utf8: Utf8, p: Option<Params>, pair: bytes): Option<Params> {
    if p.None? then None else Step(utf8, p.value, pair).ToOption()
  }

  ghost function QueryFrom(utf8: Utf8, p: Option<Params>, pairs: seq<bytes>): Option<Params>
    decreases |pairs|
  {
    if |pairs| == 0 then p else QueryFrom(utf8, Then(utf8, p, pairs[0]), pairs[1..])
  }

  lemma {:induction false} QueryIsQueryFrom(utf8: Utf8, p: Params, pairs: seq<bytes>)
    ensures Query(utf8, p, pairs).ToOption() == QueryFrom(utf8, Some(p), pairs)
    decreases |pairs|
  {
    if |pairs| > 0 {
      match Step(utf8, p, pairs[0])
      case Success(p') => QueryIsQueryFrom(utf8, p', pairs[1..]);
      case Failure(_) => NothingFromNothing(utf8, pairs[1..]);
    }
  }

  lemma {:induction false} NothingFromNothing(utf8: Utf8, pairs: seq<bytes>)
    ensures QueryFrom(utf8, None, pairs) == None
    decreases |pairs|
  {
    if |pairs| > 0 {
      NothingFromNothing(utf8, pairs[1..]);
    }
  }

  /** Two recognised parameters can be read in either order; the same one twice in neither. */
  lemma PutsCommute(p: Params, a: Param, x: bytes, b: Param, y: bytes)
    requires !Seen(p, a) && !Seen(p, b)
    ensures Put(p, a, x).Success? ==>
              (Seen(Put(p, a, x).value, b) <==> a == b)
    ensures a != b && Put(p, a, x).Success? && Put(p, b, y).Success? ==>
              && Put(Put(p, a, x).value, b, y).Success?
              && Put(Put(p, a, x).value, b, y) == Put(Put(p, b, y).value, a, x)
    ensures Put(p, a, x).Success? && Put(p, b, y).Failure? ==> Put(Put(p, a, x).value, b, y).Failure?
  {
  }

  /** What one pair does, whatever came before: nothing, an error, or a recognised parameter. */
  datatype Effect = Harmless | Broken | Sets(param: Param, value: bytes)

  ghost function EffectOf(utf8: Utf8, pair: bytes): Effect {
    if |pair| == 0 then Harmless
    else
      var (name, value) := NameValue(pair);
      match (PercentDecode(utf8, name), PercentDecode(utf8, value))
      case (Some(key), Some(text)) => if ParamOf(key).None? then Harmless else Sets(ParamOf(key).value, text)
      case _ => Broken
  }

  ghost function Act(p: Option<Params>, e: Effect): Option<Params> {
    if p.None? || e == Broken then None
    else if e == Harmless then p
    else if Seen(p.value, e.param) then None
    else Put(p.value, e.param, e.value).ToOption()
  }

  lemma ThenActs(utf8: Utf8, p: Option<Params>, pair: bytes)
    ensures Then(utf8, p, pair) == Act(p, EffectOf(utf8, pair))
  {
  }

  lemma ActsCommute(p: Option<Params>, a: Effect, b: Effect)
    ensures Act(Act(p, a), b) == Act(Act(p, b), a)
  {
    if p.Some? && a.Sets? && b.Sets? {
      if Seen(p.value, a.param) {
        SeenStays(p.value, a, b);
      } else if Seen(p.value, b.param) {
        SeenStays(p.value, b, a);
      } else {
        PutsCommute(p.value, a.param, a.value, b.param, b.value);
        PutsCommute(p.value, b.param, b.value, a.param, a.value);
      }
    }
  }

  lemma SeenStays(p: Params, a: Effect, b: Effect)
    requires a.Sets? && b.Sets? && Seen(p, a.param)
    ensures Act(Act(Some(p), a), b) == None && Act(Act(Some(p), b), a) == None
  {
  }

  lemma {:induction false} MoveToFront(utf8: Utf8, p: Option<Params>, front: seq<bytes>, x: bytes, back: seq<bytes>)
    ensures QueryFrom(utf8, p, front + [x] + back) == QueryFrom(utf8, p, [x] + front + back)
    decreases |front|
  {
    if |front| == 0 {
      assert front + [x] + back == [x] + front + back;
    } else {
      var y, rest := front[0], front[1..];
      assert (front + [x] + back)[1..] == rest + [x] + back;
      MoveToFront(utf8, Then(utf8, p, y), rest, x, back);
      assert ([x] + rest + back)[1..] == rest + back && ([x] + front + back)[1..] == front + back;
      assert (front + back)[1..] == rest + back;
      ThenActs(utf8, p, x);
      ThenActs(utf8, p, y);
      ThenActs(utf8, Then(utf8, p, x), y);
      ThenActs(utf8, Then(utf8, p, y), x);
      ActsCommute(p, EffectOf(utf8, x), EffectOf(utf8, y));
    }
  }

  /** Permuting the pairs changes neither success nor the parameters read. */
  lemma {:induction false} QueryIgnoresOrder(utf8: Utf8, p: Option<Params>, ps: seq<bytes>, qs: seq<bytes>)
    requires multiset(ps) == multiset(qs)
    ensures QueryFrom(utf8, p, ps) == QueryFrom(utf8, p, qs)
    decreases |ps|
  {
    if |ps| == 0 {
      assert |qs| == |multiset(qs)| == |multiset(ps)| == 0;
    } else {
      var x := ps[0];
      var i := Take(ps, qs);
      MoveToFront(utf8, p, qs[..i], x, qs[i + 1..]);
      assert ([x] + qs[..i] + qs[i + 1..])[1..] == qs[..i] + qs[i + 1..];
      QueryIgnoresOrder(utf8, Then(utf8, p, x), ps[1..], qs[..i] + qs[i + 1..]);
    }
  }

  /** The first element of one permutation, taken out of the other. */
  lemma Take<T>(ps: seq<T>, qs: seq<T>) returns (i: nat)
    requires |ps| > 0 && multiset(ps) == multiset(qs)
    ensures i < |qs| && qs == qs[..i] + [ps[0]] + qs[i + 1..]
    ensures multiset(ps[1..]) == multiset(qs[..i] + qs[i + 1..])
  {
    var x := ps[0];
    assert x in multiset(qs);
    i :| 0 <= i < |qs| && qs[i] == x;
    WithoutOne(ps, 0);
    WithoutOne(qs, i);
    assert ps[..0] + ps[1..] == ps[1..];
  }

  lemma WithoutOne<T>(s: seq<T>, i: nat)
    requires i < |s|
    ensures s == s[..i] + [s[i]] + s[i + 1..]
    ensures multiset(s[..i] + s[i + 1..]) == multiset(s) - multiset{s[i]}
  {
    assert s == s[..i] + [s[i]] + s[i + 1..];
    assert multiset(s) == multiset(s[..i]) + multiset{s[i]} + multiset(s[i + 1..]);
  }

  lemma PartsIgnoreOrder(utf8: Utf8, kind: Kind, title: bytes, ps: seq<bytes>, qs: seq<bytes>)
    requires multiset(ps) == multiset(qs)
    ensures ParseParts(utf8, kind, title, ps).ToOption() == ParseParts(utf8, kind, title, qs).ToOption()
  {
    QueryIsQueryFrom(utf8, NO_PARAMS, ps);
    QueryIsQueryFrom(utf8, NO_PARAMS, qs);
    QueryIgnoresOrder(utf8, Some(NO_PARAMS), ps, qs);
  }
}
