/** The display convention `[period/][issuer:]account` of OATH credential names. */
module OathName {
  import opened Wrappers
  import opened Radix
  import opened Ascii
  import opened UriText

  datatype Kind = Totp | Hotp

  datatype Name = Name(issuer: Option<bytes>, account: bytes, period: nat)

  const DEFAULT_PERIOD: nat := 30

  /** A numeric prefix that fits the period, and what follows its slash. */
  function PeriodPrefix(s: bytes): Option<(nat, bytes)> {
    match SplitOnce(s, SLASH)
    case None => None
    case Some((head, tail)) =>
      if |head| > 0 && AllDigits(head) && ParseUint(head, U32_MAX).Some?
      then Some((ParseUint(head, U32_MAX).value, tail)) else None
  }

  /** The text before the first colon is the issuer, unless it is empty. */
  function SplitIssuer(s: bytes): (Option<bytes>, bytes) {
    if |s| > 0 && s[0] == COLON then (None, s)
    else
      match SplitOnce(s, COLON)
      case None => (None, s)
      case Some((issuer, account)) => (Some(issuer), account)
  }

  function Parse(s: bytes, kind: Kind): Name {
    var prefix := if kind == Totp then PeriodPrefix(s) else None;
    var (issuer, account) := SplitIssuer(if prefix.Some? then prefix.value.1 else s);
    Name(issuer, account,
         if kind == Hotp then 0 else if prefix.Some? then prefix.value.0 else DEFAULT_PERIOD)
  }

  /** `[issuer:]account`, an empty issuer counting as none. */
  function Id(issuer: Option<bytes>, account: bytes): bytes {
    if issuer.Some? && |issuer.value| > 0 then issuer.value + [COLON] + account else account
  }

  /** The name begins with digits and a slash, whether or not they fit a period. */
  predicate Ambiguous(id: bytes) {
    var split := SplitOnce(id, SLASH);
    split.Some? && |split.value.0| > 0 && AllDigits(split.value.0)
  }

  function Format(issuer: Option<bytes>, account: bytes, kind: Kind, period: nat): bytes {
    var id := Id(issuer, account);
    if kind == Totp && (period != DEFAULT_PERIOD || Ambiguous(id)) then DecimalText(period) + [SLASH] + id else id
  }

  // --- The functions as they run -------------------------------------------------

  method ParseName(text: bytes, kind: Kind) returns (name: Name)
    ensures name == Parse(text, kind)
  {
    var rest, issuer, period := text, None, 0;
    if kind == Totp {
      period := DEFAULT_PERIOD;
      var split := SplitOnce(rest, SLASH);
      if split.Some? {
        var head := split.value.0;
        if |head| > 0 && AllDigits(head) {
          var parsed := ParseUint(head, U32_MAX);
          if parsed.Some? {
            period, rest := parsed.value, split.value.1;
          }
        }
      }
    }
    if !(|rest| > 0 && rest[0] == COLON) {
      var split := SplitOnce(rest, COLON);
      if split.Some? {
        issuer, rest := Some(split.value.0), split.value.1;
      }
    }
    return Name(issuer, rest, period);
  }

  method FormatId(issuer: Option<bytes>, account: bytes, kind: Kind, period: nat) returns (id: bytes)
    ensures id == Format(issuer, account, kind, period)
  {
    id := [];
    if issuer.Some? && |issuer.value| > 0 {
      id := id + issuer.value;
      id := id + [COLON];
    }
    id := id + account;
    assert id == Id(issuer, account);
    if kind == Totp && (period != DEFAULT_PERIOD || Ambiguous(id)) {
      id := DecimalText(period) + [SLASH] + id;
    }
  }

  // --- What survives ---------------------------------------------------------------

  lemma DigitsHaveNo(s: bytes, c: byte)
    requires AllDigits(s) && (c == SLASH || c == COLON)
    ensures c !in s
  {
  }

  lemma PrefixReadsBack(period: nat, id: bytes)
    requires period <= U32_MAX
    ensures PeriodPrefix(DecimalText(period) + [SLASH] + id) == Some((period, id))
  {
    var digits := DecimalText(period);
    DigitsHaveNo(digits, SLASH);
    SplitOnceJoined(digits, SLASH, id);
    TextReadsBack(period);
    assert digits[0] != PLUS;
  }

  /** A formatted name keeps its period and its id; no digits that are part of the id are taken for a period. */
  lemma FormatKeepsPeriod(issuer: Option<bytes>, account: bytes, kind: Kind, period: nat)
    requires period <= U32_MAX
    ensures var name := Parse(Format(issuer, account, kind, period), kind);
            && name.period == (if kind == Totp then period else 0)
            && (name.issuer, name.account) == SplitIssuer(Id(issuer, account))
  {
    var id := Id(issuer, account);
    if kind == Totp && (period != DEFAULT_PERIOD || Ambiguous(id)) {
      PrefixReadsBack(period, id);
    }
  }

  /** What the convention can tell apart. */
  predicate Representable(issuer: Option<bytes>, account: bytes) {
    match issuer
    case None => COLON !in account || account[0] == COLON
    case Some(text) => |text| > 0 && COLON !in text
  }

  lemma SplitIssuerIff(issuer: Option<bytes>, account: bytes)
    ensures SplitIssuer(Id(issuer, account)) == (issuer, account) <==> Representable(issuer, account)
  {
    var id := Id(issuer, account);
    if issuer.Some? && |issuer.value| > 0 {
      if COLON !in issuer.value {
        SplitOnceJoined(issuer.value, COLON, account);
      }
    } else if COLON !in account {
      NotSplit(account, COLON);
    } else {
      assert IndexOf(account, COLON) < |account|;
    }
  }

  /** A name survives formatting and parsing exactly when the convention can represent it. */
  lemma SurvivesIffRepresentable(issuer: Option<bytes>, account: bytes, kind: Kind, period: nat)
    requires period <= U32_MAX && (kind == Hotp ==> period == 0)
    ensures Parse(Format(issuer, account, kind, period), kind) == Name(issuer, account, period)
       <==> Representable(issuer, account)
  {
    FormatKeepsPeriod(issuer, account, kind, period);
    SplitIssuerIff(issuer, account);
  }

  lemma ParsedIsRepresentable(s: bytes, kind: Kind)
    ensures var name := Parse(s, kind);
            && Representable(name.issuer, name.account)
            && name.period <= U32_MAX && (kind == Hotp ==> name.period == 0)
  {
    var prefix := if kind == Totp then PeriodPrefix(s) else None;
    var rest := if prefix.Some? then prefix.value.1 else s;
    if !(|rest| > 0 && rest[0] == COLON) && COLON in rest {
      assert IndexOf(rest, COLON) < |rest|;
    }
  }

  /** Parsing what parsing returned, formatted again, changes nothing. */
  lemma ParseIsStable(s: bytes, kind: Kind)
    ensures var name := Parse(s, kind);
            Parse(Format(name.issuer, name.account, kind, name.period), kind) == name
  {
    var name := Parse(s, kind);
    ParsedIsRepresentable(s, kind);
    SurvivesIffRepresentable(name.issuer, name.account, kind, name.period);
  }
}
