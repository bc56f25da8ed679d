/** Subject names and PEM in octets: the characters that count, the known names and types, and the markers. */
module NameOctets {
  import opened Wrappers
  import opened Radix
  import opened Sequences
  import opened Ascii
  import opened NameText
  import opened NameGrammar
  import opened SubjectValue
  import opened Rfc4514
  import Pem
  import Base64
  import Tlv
  import UriText

  /** Where escapes, separators and the equals sign are. */
  lemma SpecialCharacters(c: byte)
    ensures IsSeparator(c) <==> c == ',' as int || c == '+' as int
    ensures BACKSLASH == 0x5c && EQUALS == '=' as int && HASH == '#' as int && SPACE == ' ' as int
    ensures Escapable(c) <==> || c == 0x5c || c == 0x22 || c == '#' as int || c == '+' as int || c == ',' as int
                              || c == ';' as int || c == '<' as int || c == '>' as int || c == ' ' as int
                              || c == '=' as int
    ensures Forbidden(c) <==> c == 0 || c == 0x22 || c == ';' as int || c == '<' as int || c == '>' as int
  {
  }

  lemma ShortNames()
    ensures OfString("CN") == [0x43, 0x4e] && OfString("L") == [0x4c] && OfString("ST") == [0x53, 0x54]
    ensures OfString("O") == [0x4f] && OfString("OU") == [0x4f, 0x55] && OfString("C") == [0x43]
    ensures OfString("DC") == [0x44, 0x43] && OfString("UID") == [0x55, 0x49, 0x44]
  {
  }

  lemma LongNames()
    ensures OfString("STREET") == [0x53, 0x54, 0x52, 0x45, 0x45, 0x54]
    ensures OfString("serialNumber") == [0x73, 0x65, 0x72, 0x69, 0x61, 0x6c, 0x4e, 0x75, 0x6d, 0x62, 0x65, 0x72]
    ensures OfString("emailAddress") == [0x65, 0x6d, 0x61, 0x69, 0x6c, 0x41, 0x64, 0x64, 0x72, 0x65, 0x73, 0x73]
  {
  }

  /** The names of section 3 of RFC 4514 and two more, with the identifiers they stand for. */
  lemma KnownNames()
    ensures NAMES == [
      (OfString("CN"), [2, 5, 4, 3]), (OfString("L"), [2, 5, 4, 7]), (OfString("ST"), [2, 5, 4, 8]),
      (OfString("O"), [2, 5, 4, 10]), (OfString("OU"), [2, 5, 4, 11]), (OfString("C"), [2, 5, 4, 6]),
      (OfString("STREET"), [2, 5, 4, 9]), (OfString("DC"), [0, 9, 2342, 19200300, 100, 1, 25]),
      (OfString("UID"), [0, 9, 2342, 19200300, 100, 1, 1]), (OfString("serialNumber"), [2, 5, 4, 5]),
      (OfString("emailAddress"), [1, 2, 840, 113549, 1, 9, 1])]
  {
    ShortNames();
    LongNames();
  }

  /** Two texts that differ in the case of their letters at most. */
  ghost predicate SameName(a: bytes, b: bytes) {
    && |a| == |b|
    && forall i | 0 <= i < |a| :: Upper(a[i]) == Upper(b[i])
  }

  lemma {:induction false} LookupIff(names: seq<(bytes, Oid)>, key: bytes, i: nat)
    requires i < |names| && SameName(names[i].0, key) && forall j | 0 <= j < i :: !SameName(names[j].0, key)
    ensures Lookup(names, key) == Some(names[i].1)
  {
    NameIff(names[0].0, key);
    if i > 0 {
      assert !SameName(names[0].0, key);
      LookupIff(names[1..], key, i - 1);
    }
  }

  lemma {:induction false} LookupFails(names: seq<(bytes, Oid)>, key: bytes)
    requires forall j | 0 <= j < |names| :: !SameName(names[j].0, key)
    ensures Lookup(names, key) == None
  {
    if |names| > 0 {
      NameIff(names[0].0, key);
      LookupFails(names[1..], key);
    }
  }

  lemma NameIff(a: bytes, b: bytes)
    ensures Uppercase(a) == Uppercase(b) <==> SameName(a, b)
  {
    if Uppercase(a) == Uppercase(b) {
      assert |a| == |Uppercase(a)| == |Uppercase(b)| == |b|;
      forall i | 0 <= i < |a|
        ensures Upper(a[i]) == Upper(b[i])
      {
        assert Uppercase(a)[i] == Uppercase(b)[i];
      }
    }
  }

  /** An attribute type is the first known name it equals but for case, or else digits and dots the library reads. */
  lemma AttributeTypes(lib: Library, key: bytes, i: nat)
    ensures i < |NAMES| && SameName(NAMES[i].0, key) && (forall j | 0 <= j < i :: !SameName(NAMES[j].0, key)) ==>
              KeyOid(lib, key) == Some(NAMES[i].1)
    ensures (forall j | 0 <= j < |NAMES| :: !SameName(NAMES[j].0, key)) ==>
              KeyOid(lib, key)
              == if forall k | 0 <= k < |key| :: '0' as int <= key[k] <= '9' as int || key[k] == '.' as int
                 then lib.oid(key) else None
  {
    if i < |NAMES| && SameName(NAMES[i].0, key) && forall j | 0 <= j < i :: !SameName(NAMES[j].0, key) {
      LookupIff(NAMES, key, i);
    }
    if forall j | 0 <= j < |NAMES| :: !SameName(NAMES[j].0, key) {
      LookupFails(NAMES, key);
      assert DottedDecimal(key)
        <==> forall k | 0 <= k < |key| :: '0' as int <= key[k] <= '9' as int || key[k] == '.' as int;
    }
  }

  /** Text becomes a PrintableString, an IA5String or a UTF8String, by its attribute. */
  lemma StringTypes(oid: Oid)
    ensures TextTag(oid)
         == if oid == [2, 5, 4, 6] || oid == [2, 5, 4, 5] then 19
            else if oid == [0, 9, 2342, 19200300, 100, 1, 25] || oid == [1, 2, 840, 113549, 1, 9, 1] then 22
            else 12
  {
  }

  /** What the string types may hold (section 41 of ITU-T X.680), and that only supported tags are checked. */
  lemma StringContents(lib: Library, any: Tlv.Field)
    ensures ValidContents(lib, any)
       <==> && (any.tag == 12 ==> lib.utf8(any.value))
            && (any.tag == 19 ==> forall i | 0 <= i < |any.value| :: IsPrintable(any.value[i]))
            && (any.tag == 22 ==> forall i | 0 <= i < |any.value| :: any.value[i] < 128)
  {
  }

  /** Letters, digits, space and `'()+,-./:=?`. */
  ghost predicate IsPrintable(c: byte) {
    || 'A' as int <= c <= 'Z' as int || 'a' as int <= c <= 'z' as int || '0' as int <= c <= '9' as int
    || c == ' ' as int || c == 0x27 || c == '(' as int || c == ')' as int || c == '+' as int || c == ',' as int
    || c == '-' as int || c == '.' as int || c == '/' as int || c == ':' as int || c == '=' as int || c == '?' as int
  }

  // --- A whole name --------------------------------------------------------------------

  /** A library that takes every text for UTF-8, every tag for known, and no dotted-decimal identifier. */
  const PLAIN := Library(_ => true, _ => true, _ => None)

  lemma PlainAttribute(name: bytes, oid: Oid, text: bytes)
    requires KeyOid(PLAIN, name) == Some(oid) && oid !in {COUNTRY, SERIAL_NUMBER, DOMAIN_COMPONENT, EMAIL_ADDRESS}
    requires |text| < 128 && forall i | 0 <= i < |text| :: 'A' as int <= text[i] <= 'Z' as int
    ensures RendersAttribute(PLAIN, name + [EQUALS] + text, Attribute(oid, Tlv.Field(12, text)))
  {
    LettersRender(text, true);
    assert Writes(PLAIN, name + [EQUALS] + text, Attribute(oid, Tlv.Field(12, text)), name, text);
  }

  lemma {:induction false} LettersRender(text: bytes, first: bool)
    requires forall i | 0 <= i < |text| :: 'A' as int <= text[i] <= 'Z' as int
    ensures Renders(text, text, first)
    decreases |text|
  {
    if |text| > 0 {
      LettersRender(text[1..], false);
    }
  }

  function Text(oid: Oid, text: bytes): Attribute {
    Attribute(oid, Tlv.Field(12, text))
  }

  lemma PrintsTwo(head: bytes, a: Attribute, tail: bytes, b: Attribute)
    requires RendersAttribute(PLAIN, head, a) && RendersAttribute(PLAIN, tail, b)
    ensures PrintsName(PLAIN, head + [COMMA] + tail, [[a], [b]])
  {
    var rdns := [[a], [b]];
    assert rdns[1..] == [[b]] && [[b]][1..] == [];
    assert Joins(AttributeWriter(PLAIN), head + [COMMA] + tail, a, COMMA, head, tail);
    assert RendersName(AttributeWriter(PLAIN), tail, [[b]]);
  }

  lemma ReadsTwo(head: bytes, a: Attribute, tail: bytes, b: Attribute)
    requires RendersAttribute(PLAIN, head, a) && RendersAttribute(PLAIN, tail, b)
    ensures Parse(PLAIN, head + [COMMA] + tail) == Success([{b}, {a}])
  {
    PrintsTwo(head, a, tail, b);
    PrintedNameReadsBack(PLAIN, head + [COMMA] + tail, [[a], [b]]);
    TwoReversed(Parse(PLAIN, head + [COMMA] + tail).value, [[a], [b]], a, b);
  }

  lemma TwoReversed<A(!new)>(name: seq<set<A>>, rdns: seq<seq<A>>, a: A, b: A)
    requires IsReversal(name, rdns) && rdns == [[a], [b]]
    ensures name == [{b}, {a}]
  {
    assert rdns[0] == [a] && rdns[1] == [b] && |rdns| - 1 - 0 == 1;
    assert forall x :: x in name[0] <==> x in rdns[1];
    assert forall x :: x in name[1] <==> x in rdns[0];
    assert name[0] == {b} && name[1] == {a};
  }

  lemma TwoNamesSpelled()
    ensures OfString("CN=BOB,O=ACME") == [67, 78] + [EQUALS] + [66, 79, 66] + [COMMA]
                                         + ([79] + [EQUALS] + [65, 67, 77, 69])
    ensures OfString("BOB") == [66, 79, 66] && OfString("ACME") == [65, 67, 77, 69]
  {
    assert OfString("CN=BOB,O=ACME") == [67, 78, 61, 66, 79, 66, 44, 79, 61, 65, 67, 77, 69];
  }

  lemma TwoTypes()
    ensures KeyOid(PLAIN, [67, 78]) == Some([2, 5, 4, 3]) && KeyOid(PLAIN, [79]) == Some([2, 5, 4, 10])
  {
    AttributeTypes(PLAIN, [67, 78], 0);
    AttributeTypes(PLAIN, [79], 3);
    assert |NAMES[0].0| == |NAMES[2].0| == 2 && NAMES[1].0[0] != 79;
  }

  /** One name, letter by letter: the RDN written last comes first. */
  lemma TwoNames()
    ensures Parse(PLAIN, OfString("CN=BOB,O=ACME"))
         == Success([{Text([2, 5, 4, 10], OfString("ACME"))}, {Text([2, 5, 4, 3], OfString("BOB"))}])
  {
    TwoNamesSpelled();
    TwoTypes();
    PlainAttribute([67, 78], [2, 5, 4, 3], [66, 79, 66]);
    PlainAttribute([79], [2, 5, 4, 10], [65, 67, 77, 69]);
    ReadsTwo([67, 78] + [EQUALS] + [66, 79, 66], Text([2, 5, 4, 3], [66, 79, 66]),
             [79] + [EQUALS] + [65, 67, 77, 69], Text([2, 5, 4, 10], [65, 67, 77, 69]));
  }

  // --- Errors -----------------------------------------------------------------------------

  /** Why a piece is refused: its equals sign, its type, its value, or that it repeats. */
  lemma PieceErrors(lib: Library, key: bytes, value: bytes, attributes: Rdn)
    requires '=' as int !in key
    ensures Insert(AttributeReader(lib), key, attributes) == Failure(MissingEquals)
    ensures var inserted := Insert(AttributeReader(lib), key + ['=' as int] + value, attributes);
            match KeyOid(lib, key)
            case None => inserted == Failure(UnsupportedAttribute)
            case Some(oid) =>
              match ValueOf(lib, oid, value)
              case Failure(error) => inserted == Failure(error)
              case Success(any) =>
                inserted == if Attribute(oid, any) in attributes then Failure(DuplicateAttribute)
                            else Success(attributes + {Attribute(oid, any)})
  {
    UriText.NotSplit(key, EQUALS);
    UriText.SplitOnceJoined(key, EQUALS, value);
  }

  /** Why text is refused at its first octet, `first` or not, with more to come or not. */
  lemma TextErrors(s: bytes, first: bool)
    requires |s| > 0
    ensures s[0] in {0, 0x22, 0x3b, 0x3c, 0x3e} ==> DecodeFrom(s, first) == Failure(MustEscape)
    ensures s[0] == ' ' as int && (first || |s| == 1) ==> DecodeFrom(s, first) == Failure(MustEscape)
    ensures s == [0x5c] ==> DecodeFrom(s, first) == Failure(TrailingBackslash)
    ensures |s| == 2 && s[0] == 0x5c && !Escapable(s[1]) ==> DecodeFrom(s, first) == Failure(TruncatedEscape)
    ensures |s| > 2 && s[0] == 0x5c && !Escapable(s[1]) && (HexDigit(s[1]).None? || HexDigit(s[2]).None?) ==>
              DecodeFrom(s, first) == Failure(BadEscape)
  {
  }

  // --- PEM ----------------------------------------------------------------------------------

  lemma MarkersSpelled()
    ensures OfString("-----BEGIN") == Pem.PROBE && OfString("-----BEGIN ") == Pem.BEGIN
    ensures OfString("-----END ") == Pem.END && OfString("-----") == Pem.DASHES
  {
  }

  /** A written block, marker by marker, in lines of 64 characters. */
  lemma BlockLayout(title: bytes, der: bytes)
    ensures Pem.Encode(title, der)
         == OfString("-----BEGIN ") + title + OfString("-----") + [10] + Pem.Lines(Base64.Encode(der))
            + (OfString("-----END ") + title + OfString("-----")) + [10]
  {
    MarkersSpelled();
  }

  /** Character `k` of the text stands in line `k / 64`, and a newline ends every line. */
  lemma {:induction false} LineLayout(text: bytes, k: nat)
    requires k < |text|
    ensures k + k / 64 + 1 < |Pem.Lines(text)| && Pem.Lines(text)[k + k / 64] == text[k]
    ensures k % 64 == 63 || k + 1 == |text| ==> Pem.Lines(text)[k + k / 64 + 1] == 10
    ensures k + 1 == |text| ==> |Pem.Lines(text)| == k + k / 64 + 2
    decreases |text|
  {
    var n := if |text| < 64 then |text| else 64;
    var first, rest := text[..n] + [10], Pem.Lines(text[n..]);
    if k >= 64 {
      var at := k - 64 + (k - 64) / 64;
      LineLayout(text[64..], k - 64);
      assert k + k / 64 == 65 + at;
      SecondAt(first, rest, at);
      SecondAt(first, rest, at + 1);
    } else if |text| == 64 {
      assert rest == [];
    }
  }

  ghost predicate MarkerAt(input: bytes, i: nat) {
    i + 10 <= |input| && input[i..i + 10] == OfString("-----BEGIN")
  }

  /** What is no PEM text passes through as it is: bad UTF-8, or no BEGIN marker anywhere. */
  lemma OtherInputPasses(utf8: UriText.Utf8, input: bytes, labels: seq<bytes>)
    requires !utf8(input) || forall i: nat :: !MarkerAt(input, i)
    ensures Pem.Decode(utf8, input, labels) == Some(([], input))
  {
    if utf8(input) {
      NoMarker(input);
    }
  }

  lemma MarkerIsProbe(input: bytes, i: nat)
    ensures MarkerAt(input, i) <==> Pem.At(input, Pem.PROBE, i)
  {
    MarkersSpelled();
  }

  lemma {:induction false} NoMarker(input: bytes)
    requires forall i: nat :: !MarkerAt(input, i)
    ensures Pem.Find(input, Pem.PROBE).None?
  {
    MarkerIsProbe(input, 0);
    assert !MarkerAt(input, 0);
    if |input| > 0 {
      forall i: nat
        ensures !MarkerAt(input[1..], i)
      {
        assert !MarkerAt(input, i + 1);
        MarkerIsProbe(input, i + 1);
        MarkerIsProbe(input[1..], i);
        Pem.AtTail(input, Pem.PROBE, i);
      }
      NoMarker(input[1..]);
    }
  }

  /** The body is read without its white space: whole characters are dropped, everything else stays. */
  lemma SpaceIsStripped(c: bytes, rest: bytes)
    requires |c| > 0
    ensures UriText.IsSpace(c) ==> Pem.Strip(c + rest) == Pem.Strip(rest)
    ensures (forall n: nat | n <= |c + rest| :: !UriText.IsSpace((c + rest)[..n])) ==>
              Pem.Strip(c + rest) == [c[0]] + Pem.Strip((c + rest)[1..])
    ensures Pem.Strip([]) == []
  {
    if UriText.IsSpace(c) {
      SpaceIsMeasured(c, rest);
      TakeDrop(c, rest);
    }
  }

  lemma SpaceIsMeasured(c: bytes, rest: bytes)
    requires UriText.IsSpace(c)
    ensures UriText.SpaceAtStart(c + rest) == |c|
  {
    assert (c + rest)[..|c|] == c;
    if |c| >= 2 {
      assert (c + rest)[..1] == [c[0]];
    }
    if |c| == 3 {
      assert (c + rest)[..2] == [c[0], c[1]];
    }
  }
}
