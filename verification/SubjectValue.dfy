/** One attribute value of a subject: text with escapes, or `#` and hexadecimal DER (section 2.4 of RFC 4514). */
module SubjectValue {
  import opened Wrappers
  import opened Radix
  import opened Ascii
  import opened NameText
  import opened NameGrammar
  import Tlv

  type Oid = seq<nat>

  /** What the DER library decides: valid UTF-8, supported tags, and the arcs of a dotted-decimal identifier. */
  datatype Library = Library(utf8: bytes -> bool, tag: byte -> bool, oid: bytes -> Option<Oid>)

  const HASH: byte := 0x23
  const SPACE: byte := 0x20

  const UTF8_STRING: byte := 0x0c
  const PRINTABLE_STRING: byte := 0x13
  const IA5_STRING: byte := 0x16

  const COUNTRY: Oid := [2, 5, 4, 6]
  const SERIAL_NUMBER: Oid := [2, 5, 4, 5]
  const DOMAIN_COMPONENT: Oid := [0, 9, 2342, 19200300, 100, 1, 25]
  const EMAIL_ADDRESS: Oid := [1, 2, 840, 113549, 1, 9, 1]

  // --- Escaped text --------------------------------------------------------------

  /** Octets a backslash may stand before: `\ " # + , ; < >`, space and `=`. */
  predicate Escapable(c: byte) {
    || c == BACKSLASH || c == 0x22 || c == HASH || c == PLUS || c == COMMA || c == 0x3b
    || c == 0x3c || c == 0x3e || c == SPACE || c == EQUALS
  }

  /** Octets that never stand for themselves: `"`, `;`, `<`, `>` and NUL. */
  predicate Forbidden(c: byte) {
    c == 0x22 || c == 0x3b || c == 0x3c || c == 0x3e || c == 0
  }

  function Prefixed(c: byte, rest: Result<bytes, NameError>): Result<bytes, NameError> {
    match rest
    case Failure(error) => Failure(error)
    case Success(text) => Success([c] + text)
  }

  /** Decodes `s`, at the start of the value when `first`. */
  function DecodeFrom(s: bytes, first: bool): Result<bytes, NameError>
    decreases |s|
  {
    if |s| == 0 then Success([])
    else if s[0] == BACKSLASH then
      if |s| == 1 then Failure(TrailingBackslash)
      else if Escapable(s[1]) then Prefixed(s[1], DecodeFrom(s[2..], false))
      else if |s| == 2 then Failure(TruncatedEscape)
      else if HexDigit(s[1]).None? || HexDigit(s[2]).None? then Failure(BadEscape)
      else Prefixed(16 * HexDigit(s[1]).value + HexDigit(s[2]).value, DecodeFrom(s[3..], false))
    else if Forbidden(s[0]) || (s[0] == SPACE && (first || |s| == 1)) then Failure(MustEscape)
    else Prefixed(s[0], DecodeFrom(s[1..], false))
  }

  /** Octets that may stand for themselves inside a name. */
  predicate Literal(c: byte, boundary: bool) {
    c != BACKSLASH && !IsSeparator(c) && !Forbidden(c) && !(c == SPACE && boundary)
  }

  /** `s` writes `text` as RFC 4514 allows: literally, behind a backslash, or as `\XX`, octet by octet. */
  ghost predicate Renders(s: bytes, text: bytes, first: bool)
    decreases |s|
  {
    if |text| == 0 then |s| == 0
    else
      || (|s| >= 1 && s[0] == text[0] && Literal(s[0], first || |s| == 1) && Renders(s[1..], text[1..], false))
      || (|s| >= 2 && s[0] == BACKSLASH && s[1] == text[0] && Escapable(s[1]) && Renders(s[2..], text[1..], false))
      || (|s| >= 3 && s[0] == BACKSLASH
          && HexDigit(s[1]) == Some(text[0] / 16) && HexDigit(s[2]) == Some(text[0] % 16)
          && Renders(s[3..], text[1..], false))
  }

  /** Octets the first decoding step consumes. */
  function Unit(s: bytes): (n: nat)
    requires |s| > 0
    ensures 0 < n
  {
    if s[0] != BACKSLASH || |s| == 1 then 1 else if Escapable(s[1]) then 2 else 3
  }

  lemma PrefixedIs(c: byte, rest: Result<bytes, NameError>, text: bytes)
    ensures Prefixed(c, rest) == Success(text) <==> |text| > 0 && text[0] == c && rest == Success(text[1..])
  {
    if |text| > 0 {
      assert text == [text[0]] + text[1..];
    }
    if Prefixed(c, rest) == Success(text) {
      assert text[1..] == rest.value;
    }
  }

  /** The octet the first step yields, if it yields one. */
  function UnitValue(s: bytes, first: bool): Result<byte, NameError>
    requires |s| > 0
  {
    if s[0] != BACKSLASH then
      if Forbidden(s[0]) || (s[0] == SPACE && (first || |s| == 1)) then Failure(MustEscape) else Success(s[0])
    else if |s| == 1 then Failure(TrailingBackslash)
    else if Escapable(s[1]) then Success(s[1])
    else if |s| == 2 then Failure(TruncatedEscape)
    else if HexDigit(s[1]).None? || HexDigit(s[2]).None? then Failure(BadEscape)
    else Success(16 * HexDigit(s[1]).value + HexDigit(s[2]).value)
  }

  lemma DecodeByUnit(s: bytes, first: bool)
    requires |s| > 0
    ensures UnitValue(s, first).Failure? ==> DecodeFrom(s, first) == Failure(UnitValue(s, first).error)
    ensures UnitValue(s, first).Success? ==>
              && Unit(s) <= |s|
              && DecodeFrom(s, first) == Prefixed(UnitValue(s, first).value, DecodeFrom(s[Unit(s)..], false))
  {
  }

  lemma RendersByUnit(s: bytes, text: bytes, first: bool)
    requires |s| > 0
    ensures Renders(s, text, first) <==>
              && |text| > 0 && UnitValue(s, first) == Success(text[0]) && Unit(s) <= |s|
              && !IsSeparator(s[0]) && Renders(s[Unit(s)..], text[1..], false)
  {
  }

  lemma UnitIsClosed(s: bytes, first: bool)
    requires |s| > 0 && UnitValue(s, first).Success? && !IsSeparator(s[0])
    ensures Closed(s[..Unit(s)])
  {
    if Unit(s) == 1 {
      PlainIsClosed(s[..1]);
    } else if Unit(s) == 2 {
      PairIsClosed(s[1]);
      assert s[..2] == [BACKSLASH, s[1]];
    } else {
      PairIsClosed(s[1]);
      PlainIsClosed([s[2]]);
      ClosedConcat([BACKSLASH, s[1]], [s[2]]);
      assert s[..3] == [BACKSLASH, s[1]] + [s[2]];
    }
  }

  /** Decoding a piece between separators succeeds with `text` exactly when the piece writes `text`. */
  lemma {:induction false} DecodesIffRenders(s: bytes, text: bytes, first: bool)
    ensures DecodeFrom(s, first) == Success(text) && Closed(s) <==> Renders(s, text, first)
    decreases |s|
  {
    if |s| > 0 {
      DecodeByUnit(s, first);
      RendersByUnit(s, text, first);
      if UnitValue(s, first).Success? {
        PrefixedIs(UnitValue(s, first).value, DecodeFrom(s[Unit(s)..], false), text);
        assert IsCut(s, 0) == IsSeparator(s[0]);
        if |text| > 0 && !IsSeparator(s[0]) {
          DecodesIffRenders(s[Unit(s)..], text[1..], false);
          UnitIsClosed(s, first);
          ClosedConcat(s[..Unit(s)], s[Unit(s)..]);
          assert s == s[..Unit(s)] + s[Unit(s)..];
        }
      }
    }
  }

  /** One way to write text: octets that must not stand for themselves, and `#`, as `\XX`. */
  function Escape(text: bytes, first: bool): bytes
    decreases |text|
  {
    if |text| == 0 then []
    else
      var c, rest := text[0], Escape(text[1..], false);
      if Literal(c, first || |text| == 1) && c != HASH then [c] + rest
      else [BACKSLASH, HexLetter(c / 16), HexLetter(c % 16)] + rest
  }

  /** Every text can be written. */
  lemma {:induction false} EscapeRenders(text: bytes, first: bool)
    ensures Renders(Escape(text, first), text, first)
    ensures |text| > 0 ==> |Escape(text, first)| > 0 && Escape(text, first)[0] != HASH
    decreases |text|
  {
    if |text| > 0 {
      EscapeRenders(text[1..], false);
      var rest, s := Escape(text[1..], false), Escape(text, first);
      assert s[1..] == rest || (|s| >= 3 && s[3..] == rest);
    }
  }

  /** The decoding loop. */
  method DecodeText(s: bytes) returns (r: Result<bytes, NameError>)
    ensures r == DecodeFrom(s, true)
  {
    var decoded: bytes, index := [], 0;
    assert s[0..] == s;
    AllAtOnce([], 0, DecodeFrom(s, true));
    while index < |s|
      invariant 0 <= index <= |s|
      invariant DecodeFrom(s, true) == After(decoded, DecodeFrom(s[index..], index == 0))
    {
      var c := s[index];
      ghost var here, was := s[index..], index;
      DecodeByUnit(here, index == 0);
      if c == BACKSLASH {
        index := index + 1;
        if index >= |s| {
          return Failure(TrailingBackslash);
        }
        var escaped := s[index];
        if Escapable(escaped) {
          decoded := decoded + [escaped];
        } else {
          if index + 2 > |s| {
            return Failure(TruncatedEscape);
          }
          var high, low := HexDigit(s[index]), HexDigit(s[index + 1]);
          if high.None? || low.None? {
            return Failure(BadEscape);
          }
          decoded := decoded + [16 * high.value + low.value];
          index := index + 1;
        }
      } else {
        if Forbidden(c) || (c == SPACE && (index == 0 || index + 1 == |s|)) {
          return Failure(MustEscape);
        }
        decoded := decoded + [c];
      }
      index := index + 1;
      assert here[Unit(here)..] == s[index..];
      AllAtOnce(decoded[..|decoded| - 1], decoded[|decoded| - 1], DecodeFrom(s[index..], false));
      assert decoded[..|decoded| - 1] + [decoded[|decoded| - 1]] == decoded;
    }
    assert s[index..] == [] && decoded + [] == decoded;
    return Success(decoded);
  }

  ghost function After(front: bytes, rest: Result<bytes, NameError>): Result<bytes, NameError> {
    match rest
    case Failure(error) => Failure(error)
    case Success(text) => Success(front + text)
  }

  lemma AllAtOnce(front: bytes, c: byte, rest: Result<bytes, NameError>)
    ensures After(front, Prefixed(c, rest)) == After(front + [c], rest)
    ensures After([], rest) == rest
  {
    if rest.Success? {
      assert front + ([c] + rest.value) == front + [c] + rest.value;
      assert [] + rest.value == rest.value;
    }
  }

  // --- DER (section 10.1 of ITU-T X.690) -------------------------------------------

  predicate KnownTag(lib: Library, tag: byte) {
    Tlv.IsLowTag(tag) && lib.tag(tag)
  }

  /** The one encoding of a value: a tag, the shortest definite length, the contents. */
  function Der(any: Tlv.Field): bytes
    requires Tlv.Encodable(any)
  {
    Tlv.Encode(any)
  }

  /** Refuses longer lengths than needed and anything after the value. */
  function FromDer(lib: Library, b: bytes): Option<Tlv.Field> {
    match Tlv.Read(b)
    case None => None
    case Some((any, rest)) =>
      if KnownTag(lib, any.tag) && |rest| == 0 && Tlv.Encodable(any) && Tlv.Encode(any) == b then Some(any) else None
  }

  lemma FromDerIffDer(lib: Library, b: bytes, any: Tlv.Field)
    ensures FromDer(lib, b) == Some(any) <==> KnownTag(lib, any.tag) && Tlv.Encodable(any) && b == Der(any)
  {
    if Tlv.Encodable(any) && b == Der(any) {
      Tlv.ReadEncoded(any, []);
      assert b + [] == b;
    }
  }

  // --- Hexadecimal -------------------------------------------------------------------

  /** Pairs of hexadecimal digits, if the whole of `h` is. */
  function FromHex(h: bytes): Option<bytes>
    decreases |h|
  {
    if |h| == 0 then Some([])
    else if |h| == 1 || HexDigit(h[0]).None? || HexDigit(h[1]).None? then None
    else
      match FromHex(h[2..])
      case None => None
      case Some(b) => Some([16 * HexDigit(h[0]).value + HexDigit(h[1]).value] + b)
  }

  ghost predicate Hexes(h: bytes, b: bytes) {
    && |h| == 2 * |b|
    && forall i | 0 <= i < |b| :: HexDigit(h[2 * i]) == Some(b[i] / 16) && HexDigit(h[2 * i + 1]) == Some(b[i] % 16)
  }

  lemma {:induction false} FromHexIffHexes(h: bytes, b: bytes)
    ensures FromHex(h) == Some(b) <==> Hexes(h, b)
    decreases |h|
  {
    if |h| >= 2 && |b| >= 1 {
      FromHexIffHexes(h[2..], b[1..]);
      HexesCons(h, b);
      assert b == [b[0]] + b[1..];
      if FromHex(h) == Some(b) {
        assert b[1..] == FromHex(h[2..]).value;
      }
    }
  }

  lemma HexesCons(h: bytes, b: bytes)
    requires |h| >= 2 && |b| >= 1
    ensures Hexes(h, b) <==>
              && HexDigit(h[0]) == Some(b[0] / 16) && HexDigit(h[1]) == Some(b[0] % 16)
              && Hexes(h[2..], b[1..])
  {
    if Hexes(h, b) {
      forall i | 0 <= i < |b| - 1
        ensures HexDigit(h[2..][2 * i]) == Some(b[1..][i] / 16) && HexDigit(h[2..][2 * i + 1]) == Some(b[1..][i] % 16)
      {
        assert h[2..][2 * i] == h[2 * (i + 1)] && h[2..][2 * i + 1] == h[2 * (i + 1) + 1] && b[1..][i] == b[i + 1];
      }
    }
    if && |h| == 2 * |b| && Hexes(h[2..], b[1..])
       && HexDigit(h[0]) == Some(b[0] / 16) && HexDigit(h[1]) == Some(b[0] % 16) {
      forall i | 0 <= i < |b|
        ensures HexDigit(h[2 * i]) == Some(b[i] / 16) && HexDigit(h[2 * i + 1]) == Some(b[i] % 16)
      {
        if i > 0 {
          assert h[2..][2 * (i - 1)] == h[2 * i] && h[2..][2 * (i - 1) + 1] == h[2 * i + 1] && b[1..][i - 1] == b[i];
        }
      }
    }
  }

  lemma HexIsClosed(h: bytes, b: bytes)
    requires Hexes(h, b)
    ensures Closed([HASH] + h)
  {
    var s := [HASH] + h;
    forall i | 0 <= i < |s|
      ensures s[i] != BACKSLASH && !IsSeparator(s[i])
    {
      if i > 0 {
        assert HexDigit(h[2 * ((i - 1) / 2)]).Some? && HexDigit(h[2 * ((i - 1) / 2) + 1]).Some?;
        assert s[i] == h[i - 1];
      }
    }
    PlainIsClosed(s);
  }

  // --- Values --------------------------------------------------------------------------

  /** The characters of a PrintableString (section 41.4 of ITU-T X.680). */
  predicate Printable(s: bytes) {
    forall i | 0 <= i < |s| ::
      || 0x41 <= s[i] <= 0x5a || 0x61 <= s[i] <= 0x7a || 0x30 <= s[i] <= 0x39
      || s[i] == 0x20 || 0x27 <= s[i] <= 0x29 || 0x2b <= s[i] <= 0x2f || s[i] == 0x3a || s[i] == 0x3d || s[i] == 0x3f
  }

  predicate IsAscii(s: bytes) {
    forall i | 0 <= i < |s| :: s[i] < 0x80
  }

  /** The string type that text of an attribute is encoded as. */
  function TextTag(oid: Oid): byte {
    if oid == COUNTRY || oid == SERIAL_NUMBER then PRINTABLE_STRING
    else if oid == DOMAIN_COMPONENT || oid == EMAIL_ADDRESS then IA5_STRING
    else UTF8_STRING
  }

  /** The contents are right for a supported string type. */
  predicate ValidContents(lib: Library, any: Tlv.Field) {
    && (any.tag == UTF8_STRING ==> lib.utf8(any.value))
    && (any.tag == PRINTABLE_STRING ==> Printable(any.value))
    && (any.tag == IA5_STRING ==> IsAscii(any.value))
  }

  /** Contents are checked by type, then the attributes of a fixed type by attribute. */
  function Check(lib: Library, oid: Oid, any: Tlv.Field): Result<Tlv.Field, NameError> {
    if !ValidContents(lib, any) then Failure(BadString)
    else if oid == COUNTRY then
      if any.tag != PRINTABLE_STRING then Failure(BadString)
      else if |any.value| != 2 then Failure(BadCountry)
      else Success(any)
    else if oid == SERIAL_NUMBER && any.tag != PRINTABLE_STRING then Failure(BadString)
    else if (oid == DOMAIN_COMPONENT || oid == EMAIL_ADDRESS) && any.tag != IA5_STRING then Failure(BadString)
    else Success(any)
  }

  function FromHexDer(lib: Library, oid: Oid, hex: bytes): Result<Tlv.Field, NameError> {
    if |hex| == 0 || FromHex(hex).None? then Failure(BadHex)
    else
      match FromDer(lib, FromHex(hex).value)
      case None => Failure(BadDer)
      case Some(any) => Check(lib, oid, any)
  }

  function FromText(lib: Library, oid: Oid, decoded: Result<bytes, NameError>): Result<Tlv.Field, NameError> {
    match decoded
    case Failure(error) => Failure(error)
    case Success(text) =>
      var any := Tlv.Field(TextTag(oid), text);
      if !lib.utf8(text) then Failure(BadUtf8)
      else if !ValidContents(lib, any) || !Tlv.Encodable(any) then Failure(BadString)
      else Check(lib, oid, any)
  }

  predicate StartsWithHash(v: bytes) {
    |v| > 0 && v[0] == HASH
  }

  function ValueOf(lib: Library, oid: Oid, v: bytes): Result<Tlv.Field, NameError> {
    if StartsWithHash(v) then FromHexDer(lib, oid, v[1..]) else FromText(lib, oid, DecodeFrom(v, true))
  }

  method ReadValue(lib: Library, oid: Oid, v: bytes) returns (r: Result<Tlv.Field, NameError>)
    ensures r == ValueOf(lib, oid, v)
  {
    if StartsWithHash(v) {
      return FromHexDer(lib, oid, v[1..]);
    }
    var decoded := DecodeText(v);
    return FromText(lib, oid, decoded);
  }

  /** What a subject attribute may hold. */
  ghost predicate Allowed(lib: Library, oid: Oid, any: Tlv.Field) {
    && Tlv.Encodable(any) && ValidContents(lib, any)
    && (oid == COUNTRY ==> any.tag == PRINTABLE_STRING && |any.value| == 2)
    && (oid == SERIAL_NUMBER ==> any.tag == PRINTABLE_STRING)
    && (oid == DOMAIN_COMPONENT || oid == EMAIL_ADDRESS ==> any.tag == IA5_STRING)
  }

  /** `v` writes the value: in hexadecimal DER, or as escaped text when it has the attribute's own string type. */
  ghost predicate RendersValue(lib: Library, oid: Oid, v: bytes, any: Tlv.Field) {
    && Allowed(lib, oid, any)
    && if StartsWithHash(v) then KnownTag(lib, any.tag) && Hexes(v[1..], Der(any))
       else Renders(v, any.value, true) && any.tag == TextTag(oid) && lib.utf8(any.value)
  }

  // --- Writing values --------------------------------------------------------------------

  lemma {:induction false} HexWrites(b: bytes)
    ensures Hexes(Hex(b), b)
    decreases |b|
  {
    if |b| > 0 {
      HexWrites(b[1..]);
      assert Hex(b)[2..] == Hex(b[1..]);
      HexesCons(Hex(b), b);
    }
  }

  /** A value that can be written at all: as text of the attribute's own type, or with a tag the DER library knows. */
  ghost predicate Writable(lib: Library, oid: Oid, any: Tlv.Field) {
    && Allowed(lib, oid, any)
    && (KnownTag(lib, any.tag) || (any.tag == TextTag(oid) && lib.utf8(any.value)))
  }

  /** Text where possible, hexadecimal DER elsewhere. */
  function ValueText(lib: Library, oid: Oid, any: Tlv.Field): bytes
    requires Tlv.Encodable(any)
  {
    if any.tag == TextTag(oid) && lib.utf8(any.value) then Escape(any.value, true) else [HASH] + Hex(Der(any))
  }

  /** Exactly the writable values have a writing, and this is one. */
  lemma WritableIff(lib: Library, oid: Oid, any: Tlv.Field)
    ensures Writable(lib, oid, any) <==> exists v :: RendersValue(lib, oid, v, any)
    ensures Writable(lib, oid, any) ==> RendersValue(lib, oid, ValueText(lib, oid, any), any)
  {
    if Writable(lib, oid, any) {
      if any.tag == TextTag(oid) && lib.utf8(any.value) {
        EscapeRenders(any.value, true);
      } else {
        HexWrites(Der(any));
        assert ([HASH] + Hex(Der(any)))[1..] == Hex(Der(any));
      }
      assert RendersValue(lib, oid, ValueText(lib, oid, any), any);
    }
  }

  lemma HexDerIff(lib: Library, oid: Oid, hex: bytes, any: Tlv.Field)
    ensures FromHexDer(lib, oid, hex) == Success(any)
       <==> Allowed(lib, oid, any) && KnownTag(lib, any.tag) && Hexes(hex, Der(any))
  {
    if Tlv.Encodable(any) {
      FromHexIffHexes(hex, Der(any));
    }
    match FromHex(hex)
    case None =>
    case Some(b) => FromDerIffDer(lib, b, any);
  }

  lemma TextIff(lib: Library, oid: Oid, decoded: Result<bytes, NameError>, any: Tlv.Field)
    ensures FromText(lib, oid, decoded) == Success(any)
       <==> Allowed(lib, oid, any) && decoded == Success(any.value) && any.tag == TextTag(oid) && lib.utf8(any.value)
  {
  }

  /** A piece between separators is accepted as a value exactly when it writes that value. */
  lemma ValueIffRenders(lib: Library, oid: Oid, v: bytes, any: Tlv.Field)
    ensures ValueOf(lib, oid, v) == Success(any) && Closed(v) <==> RendersValue(lib, oid, v, any)
  {
    if StartsWithHash(v) {
      HexDerIff(lib, oid, v[1..], any);
      if Tlv.Encodable(any) && Hexes(v[1..], Der(any)) {
        HexIsClosed(v[1..], Der(any));
        assert v == [HASH] + v[1..];
      }
    } else {
      TextIff(lib, oid, DecodeFrom(v, true), any);
      DecodesIffRenders(v, any.value, true);
    }
  }
}
