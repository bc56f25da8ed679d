/** Subject names as text: splitting, attribute types, and RDNs in reversed order (RFC 4514). */
module Rfc4514 {
  import opened Wrappers
  import opened Radix
  import opened Ascii
  import opened NameText
  import opened NameGrammar
  import opened SubjectValue
  import UriText
  import Tlv

  datatype Attribute = Attribute(oid: Oid, value: Tlv.Field)

  /** An RDN is a set of attributes, none of them twice; a name is a sequence of RDNs. */
  type Rdn = set<Attribute>

  const DOT: byte := 0x2e

  /** CN, L, ST, O, OU, C, STREET, DC, UID, serialNumber and emailAddress. */
  const NAMES: seq<(bytes, Oid)> := [
    ([0x43, 0x4e], [2, 5, 4, 3]),
    ([0x4c], [2, 5, 4, 7]),
    ([0x53, 0x54], [2, 5, 4, 8]),
    ([0x4f], [2, 5, 4, 10]),
    ([0x4f, 0x55], [2, 5, 4, 11]),
    ([0x43], COUNTRY),
    ([0x53, 0x54, 0x52, 0x45, 0x45, 0x54], [2, 5, 4, 9]),
    ([0x44, 0x43], DOMAIN_COMPONENT),
    ([0x55, 0x49, 0x44], [0, 9, 2342, 19200300, 100, 1, 1]),
    ([0x73, 0x65, 0x72, 0x69, 0x61, 0x6c, 0x4e, 0x75, 0x6d, 0x62, 0x65, 0x72], SERIAL_NUMBER),
    ([0x65, 0x6d, 0x61, 0x69, 0x6c, 0x41, 0x64, 0x64, 0x72, 0x65, 0x73, 0x73], EMAIL_ADDRESS)
  ]

  /** The first entry with this name, in any case of its letters. */
  function Lookup(names: seq<(bytes, Oid)>, key: bytes): Option<Oid> {
    if |names| == 0 then None
    else if Uppercase(names[0].0) == Uppercase(key) then Some(names[0].1)
    else Lookup(names[1..], key)
  }

  predicate IsLetter(c: byte) {
    0x41 <= Upper(c) <= 0x5a
  }

  predicate IsDigitOrDot(c: byte) {
    0x30 <= c <= 0x39 || c == DOT
  }

  predicate IsKeyOctet(c: byte) {
    IsLetter(c) || IsDigitOrDot(c)
  }

  predicate AllLetters(s: bytes) {
    forall i | 0 <= i < |s| :: IsLetter(s[i])
  }

  predicate DottedDecimal(key: bytes) {
    forall i | 0 <= i < |key| :: IsDigitOrDot(key[i])
  }

  /** An attribute type: a known name in any case, or a dotted-decimal identifier. */
  function KeyOid(lib: Library, key: bytes): Option<Oid> {
    var named := Lookup(NAMES, key);
    if named.Some? then named else if DottedDecimal(key) then lib.oid(key) else None
  }

  ghost predicate NamedByLetters(names: seq<(bytes, Oid)>) {
    forall i | 0 <= i < |names| :: AllLetters(names[i].0)
  }

  lemma NamesAreLetters()
    ensures NamedByLetters(NAMES)
  {
  }

  lemma {:induction false} LookupFindsLetters(names: seq<(bytes, Oid)>, key: bytes)
    requires NamedByLetters(names) && Lookup(names, key).Some?
    ensures AllLetters(key)
  {
    if Uppercase(names[0].0) == Uppercase(key) {
      assert |names[0].0| == |Uppercase(key)| == |key|;
      forall i | 0 <= i < |key|
        ensures IsLetter(key[i])
      {
        assert Uppercase(names[0].0)[i] == Uppercase(key)[i];
        assert IsLetter(names[0].0[i]);
      }
    } else {
      LookupFindsLetters(names[1..], key);
    }
  }

  /** Attribute types contain no separator, no escape and no equals sign. */
  lemma KeyOctets(lib: Library, key: bytes)
    requires KeyOid(lib, key).Some?
    ensures forall i | 0 <= i < |key| :: IsKeyOctet(key[i])
  {
    if Lookup(NAMES, key).Some? {
      NamesAreLetters();
      LookupFindsLetters(NAMES, key);
    }
  }

  /** One attribute: type and value are separated at the first equals sign. */
  function AttributeOf(lib: Library, part: bytes): Result<Attribute, NameError> {
    match UriText.SplitOnce(part, EQUALS)
    case None => Failure(MissingEquals)
    case Some((key, value)) =>
      match KeyOid(lib, key)
      case None => Failure(UnsupportedAttribute)
      case Some(oid) =>
        match ValueOf(lib, oid, value)
        case Failure(error) => Failure(error)
        case Success(any) => Success(Attribute(oid, any))
  }

  function AttributeReader(lib: Library): Reader<Attribute> {
    part => AttributeOf(lib, part)
  }

  /** Reads the pieces of a name in the order written and reverses the RDNs. */
  function Parse(lib: Library, s: bytes): Result<seq<Rdn>, NameError> {
    ParseFrom(AttributeReader(lib), s, {}, [])
  }

  // --- The parser as it runs -----------------------------------------------------

  ghost predicate IsReader(lib: Library, read: Reader<Attribute>) {
    forall part {:trigger AttributeOf(lib, part)} :: read(part) == AttributeOf(lib, part)
  }

  method InsertAttribute(lib: Library, ghost read: Reader<Attribute>, part: bytes, attributes: Rdn)
    returns (r: Result<Rdn, NameError>)
    requires IsReader(lib, read)
    ensures r == Insert(read, part, attributes)
  {
    assert read(part) == AttributeOf(lib, part);
    var split := UriText.SplitOnce(part, EQUALS);
    if split.None? {
      return Failure(MissingEquals);
    }
    var oid := KeyOid(lib, split.value.0);
    if oid.None? {
      return Failure(UnsupportedAttribute);
    }
    var value := ReadValue(lib, oid.value, split.value.1);
    if value.Failure? {
      return Failure(value.error);
    }
    var a := Attribute(oid.value, value.value);
    return if a in attributes then Failure(DuplicateAttribute) else Success(attributes + {a});
  }

  /** Whether a backslash escapes the next octet; between cuts, that octet may follow. */
  method Escapes(s: bytes, ghost start: nat, index: nat, escaped: bool) returns (next: bool)
    requires Scanned(s, start, index, escaped) && index < |s|
    ensures if !escaped && IsSeparator(s[index]) then !next else Scanned(s, start, index + 1, next)
  {
    ScanOne(s, start, index, escaped);
    next := !escaped && s[index] == BACKSLASH;
  }

  /** Reads the piece that ends at a separator. */
  method ReadPiece(lib: Library, ghost read: Reader<Attribute>, s: bytes, start: nat, index: nat,
                   attributes: Rdn, ghost rdns: seq<Rdn>, ghost result: Result<seq<Rdn>, NameError>)
    returns (r: Result<Rdn, NameError>)
    requires IsReader(lib, read) && Scanned(s, start, index, false) && index < |s| && IsSeparator(s[index])
    requires Continues(result, read, s[start..], attributes, rdns)
    ensures if r.Failure? then result == Failure(r.error)
            else
              && Scanned(s, index + 1, index + 1, false)
              && if s[index] == COMMA then Continues(result, read, s[index + 1..], {}, rdns + [r.value])
                 else Continues(result, read, s[index + 1..], r.value, rdns)
  {
    ScanOne(s, start, index, false);
    CutContinues(result, read, s, start, index, attributes, rdns);
    r := InsertAttribute(lib, read, s[start..index], attributes);
  }

  /** Reads the piece that ends with the name. */
  method ReadLastPiece(lib: Library, ghost read: Reader<Attribute>, piece: bytes, escaped: bool,
                       attributes: Rdn, rdns: seq<Rdn>)
    returns (r: Result<seq<Rdn>, NameError>)
    requires IsReader(lib, read) && CutFrom(piece, 0) == |piece| && escaped == Escaped(piece)
    ensures r == ParseFrom(read, piece, attributes, rdns)
  {
    ParseAtEnd(read, piece, attributes, rdns);
    if escaped {
      return Failure(TrailingBackslash);
    }
    var inserted := InsertAttribute(lib, read, piece, attributes);
    if inserted.Failure? {
      return Failure(inserted.error);
    }
    return Success(Reverse(rdns + [inserted.value]));
  }

  /** Scans for separators that are not escaped, with one more comma after the end. */
  method Scan(lib: Library, ghost read: Reader<Attribute>, s: bytes, ghost result: Result<seq<Rdn>, NameError>)
    returns (r: Result<seq<Rdn>, NameError>)
    requires IsReader(lib, read) && Continues(result, read, s, {}, [])
    ensures r == result
  {
    var rdns: seq<Rdn>, attributes: Rdn := [], {};
    var start, escaped := 0, false;
    assert s[0..] == s;
    for index := 0 to |s|
      invariant Scanned(s, start, index, escaped)
      invariant Continues(result, read, s[start..], attributes, rdns)
    {
      var c, cut := s[index], !escaped && IsSeparator(s[index]);
      escaped := Escapes(s, start, index, escaped);
      if cut {
        var inserted := ReadPiece(lib, read, s, start, index, attributes, rdns, result);
        if inserted.Failure? {
          return Failure(inserted.error);
        }
        attributes, start := inserted.value, index + 1;
        if c == COMMA {
          rdns := rdns + [attributes];
          attributes := {};
        }
      }
    }
    assert s[start..|s|] == s[start..];
    r := ReadLastPiece(lib, read, s[start..], escaped, attributes, rdns);
  }

  method ParseName(lib: Library, s: bytes) returns (r: Result<seq<Rdn>, NameError>)
    ensures r == Parse(lib, s)
  {
    r := Scan(lib, AttributeReader(lib), s, Parse(lib, s));
  }

  // --- Printed names -------------------------------------------------------------

  ghost predicate Writes(lib: Library, text: bytes, a: Attribute, key: bytes, value: bytes) {
    text == key + [EQUALS] + value && KeyOid(lib, key) == Some(a.oid) && RendersValue(lib, a.oid, value, a.value)
  }

  /** `text` is a type, an equals sign and a value that write the attribute. */
  ghost predicate RendersAttribute(lib: Library, text: bytes, a: Attribute) {
    exists key, value :: Writes(lib, text, a, key, value)
  }

  ghost function AttributeWriter(lib: Library): Writer<Attribute> {
    (text, a) => RendersAttribute(lib, text, a)
  }

  lemma KeyIsClosed(lib: Library, key: bytes)
    requires KeyOid(lib, key).Some?
    ensures Closed(key + [EQUALS])
  {
    KeyOctets(lib, key);
    PlainIsClosed(key + [EQUALS]);
  }

  lemma ReadParts(lib: Library, part: bytes, a: Attribute) returns (key: bytes, value: bytes)
    requires AttributeOf(lib, part) == Success(a)
    ensures part == key + [EQUALS] + value
    ensures KeyOid(lib, key) == Some(a.oid) && ValueOf(lib, a.oid, value) == Success(a.value)
  {
    key, value := UriText.SplitOnce(part, EQUALS).value.0, UriText.SplitOnce(part, EQUALS).value.1;
    UriText.SplitsAt(part, EQUALS);
  }

  lemma ReadIsWritten(lib: Library, part: bytes, a: Attribute)
    requires AttributeOf(lib, part) == Success(a) && Closed(part)
    ensures RendersAttribute(lib, part, a)
  {
    var key, value := ReadParts(lib, part, a);
    KeyIsClosed(lib, key);
    ClosedConcat(key + [EQUALS], value);
    ValueIffRenders(lib, a.oid, value, a.value);
    assert Writes(lib, part, a, key, value);
  }

  lemma WrittenIsRead(lib: Library, part: bytes, a: Attribute, key: bytes, value: bytes)
    requires Writes(lib, part, a, key, value)
    ensures AttributeOf(lib, part) == Success(a) && Closed(part)
  {
    KeyIsClosed(lib, key);
    ValueIffRenders(lib, a.oid, value, a.value);
    ClosedConcat(key + [EQUALS], value);
    KeyOctets(lib, key);
    UriText.SplitOnceJoined(key, EQUALS, value);
  }

  /** A piece between separators is read as the attribute it writes, and only then. */
  lemma AttributeIffRenders(lib: Library, part: bytes, a: Attribute)
    ensures AttributeOf(lib, part) == Success(a) && Closed(part) <==> RendersAttribute(lib, part, a)
  {
    if AttributeOf(lib, part) == Success(a) && Closed(part) {
      ReadIsWritten(lib, part, a);
    }
    if RendersAttribute(lib, part, a) {
      var key, value :| Writes(lib, part, a, key, value);
      WrittenIsRead(lib, part, a, key, value);
    }
  }

  lemma ReaderAgrees(lib: Library)
    ensures Agree(AttributeReader(lib), AttributeWriter(lib))
  {
    forall part: bytes, a: Attribute
      ensures AttributeReader(lib)(part) == Success(a) && Closed(part) <==> AttributeWriter(lib)(part, a)
    {
      AttributeIffRenders(lib, part, a);
    }
  }

  /** `s` prints the RDNs in the order given, with any escaping RFC 4514 allows. */
  ghost predicate PrintsName(lib: Library, s: bytes, rdns: seq<seq<Attribute>>) {
    Prints(AttributeWriter(lib), s, rdns)
  }

  /** However the RDNs were printed, parsing returns their attributes in reversed RDN order. */
  lemma PrintedNameReadsBack(lib: Library, s: bytes, rdns: seq<seq<Attribute>>)
    requires PrintsName(lib, s, rdns)
    ensures Parse(lib, s).Success?
    ensures var name := Parse(lib, s).value;
            |name| == |rdns| && forall i, a | 0 <= i < |rdns| :: a in name[i] <==> a in rdns[|rdns| - 1 - i]
  {
    ReaderAgrees(lib);
    PrintedNameParses(AttributeReader(lib), AttributeWriter(lib), s, rdns);
    ReversalIs(Parse(lib, s).value, rdns);
  }

  /** A way to name attribute types. */
  type Naming = Oid -> bytes

  /** Its type has a name, and its value can be written. */
  ghost predicate HasText(lib: Library, naming: Naming, a: Attribute) {
    KeyOid(lib, naming(a.oid)) == Some(a.oid) && Writable(lib, a.oid, a.value)
  }

  function AttributeText(lib: Library, naming: Naming, a: Attribute): bytes {
    naming(a.oid) + [EQUALS] + if Tlv.Encodable(a.value) then ValueText(lib, a.oid, a.value) else []
  }

  lemma TextRenders(lib: Library, naming: Naming, a: Attribute)
    requires HasText(lib, naming, a)
    ensures RendersAttribute(lib, AttributeText(lib, naming, a), a)
  {
    WritableIff(lib, a.oid, a.value);
    assert Writes(lib, AttributeText(lib, naming, a), a, naming(a.oid), ValueText(lib, a.oid, a.value));
  }

  ghost predicate AllHaveText(lib: Library, naming: Naming, rdns: seq<seq<Attribute>>) {
    forall i, j | 0 <= i < |rdns| && 0 <= j < |rdns[i]| :: HasText(lib, naming, rdns[i][j])
  }

  /** The name as text, its RDNs in the order given. */
  function Print(lib: Library, naming: Naming, rdns: seq<seq<Attribute>>): bytes
    requires NonEmpty(rdns)
  {
    PrintWith(a => AttributeText(lib, naming, a), rdns)
  }

  /** Printing prints: every name whose types have names and whose values can be written. */
  lemma PrintPrints(lib: Library, naming: Naming, rdns: seq<seq<Attribute>>)
    requires NonEmpty(rdns) && AllDistinct(rdns) && AllHaveText(lib, naming, rdns)
    ensures PrintsName(lib, Print(lib, naming, rdns), rdns)
  {
    var text := a => AttributeText(lib, naming, a);
    forall i, j | 0 <= i < |rdns| && 0 <= j < |rdns[i]|
      ensures AttributeWriter(lib)(text(rdns[i][j]), rdns[i][j])
    {
      TextRenders(lib, naming, rdns[i][j]);
    }
    PrintWithPrints(AttributeWriter(lib), text, rdns);
  }

  /** The round trip: such a name, printed and parsed, comes back with its RDNs reversed. */
  lemma PrintThenParse(lib: Library, naming: Naming, rdns: seq<seq<Attribute>>)
    requires NonEmpty(rdns) && AllDistinct(rdns) && AllHaveText(lib, naming, rdns)
    ensures Parse(lib, Print(lib, naming, rdns)).Success?
    ensures var name := Parse(lib, Print(lib, naming, rdns)).value;
            |name| == |rdns| && forall i, a | 0 <= i < |rdns| :: a in name[i] <==> a in rdns[|rdns| - 1 - i]
  {
    PrintPrints(lib, naming, rdns);
    PrintedNameReadsBack(lib, Print(lib, naming, rdns), rdns);
  }

  /** Parsing accepts exactly what prints a name of at least one RDN, none of them empty. */
  lemma ParsesIffPrints(lib: Library, s: bytes, name: seq<Rdn>)
    ensures Parse(lib, s) == Success(name)
       <==> exists rdns ::
              && PrintsName(lib, s, rdns) && |name| == |rdns|
              && forall i, a | 0 <= i < |rdns| :: a in name[i] <==> a in rdns[|rdns| - 1 - i]
  {
    ReaderAgrees(lib);
    ParsesIffPrinted(AttributeReader(lib), AttributeWriter(lib), s, name);
    if exists rdns :: Prints(AttributeWriter(lib), s, rdns) && name == Reverse(SetsOf(rdns)) {
      var rdns :| Prints(AttributeWriter(lib), s, rdns) && name == Reverse(SetsOf(rdns));
      ReversalIs(name, rdns);
      assert PrintsName(lib, s, rdns);
    }
    if exists rdns :: PrintsName(lib, s, rdns) && IsReversal(name, rdns) {
      var rdns :| PrintsName(lib, s, rdns) && IsReversal(name, rdns);
      ReversalIs(name, rdns);
    }
  }

  /** The empty name would print as the empty string, which is refused. */
  lemma EmptyNameIsRefused(lib: Library)
    ensures Parse(lib, []) == Failure(MissingEquals)
  {
    ParseAtEnd(AttributeReader(lib), [], {}, []);
    UriText.NotSplit([], EQUALS);
  }
}
