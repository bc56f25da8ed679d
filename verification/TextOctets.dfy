/** The text codecs in octets: digits, alphabets, white space, and names, against the characters themselves. */
module TextOctets {
  import opened Wrappers
  import opened Radix
  import opened Sequences
  import opened Ascii
  import opened UriText
  import BitCodec
  import Base32
  import Base64

  /** Hexadecimal digits in either case, and nothing else; written in lower case. */
  lemma HexDigits(c: byte, v: nat)
    ensures HexDigit(c) == Some(v)
       <==> || (v < 10 && c == '0' as int + v)
            || (10 <= v < 16 && (c == 'a' as int + (v - 10) || c == 'A' as int + (v - 10)))
    ensures v < 10 ==> HexLetter(v) == '0' as int + v
    ensures 10 <= v < 16 ==> HexLetter(v) == 'a' as int + (v - 10)
  {
  }

  /** Octet `k` is written by its upper and its lower half, in digits `2k` and `2k + 1`. */
  lemma {:induction false} HexPlaces(b: bytes, k: nat)
    requires k < |b|
    ensures Hex(b)[2 * k] == HexLetter(b[k] / 16) && Hex(b)[2 * k + 1] == HexLetter(b[k] % 16)
  {
    if k > 0 {
      HexPlaces(b[1..], k - 1);
      assert Hex(b)[2..] == Hex(b[1..]);
    }
  }

  /** Decimal digits count tenfold, leading zeros are allowed. */
  lemma DecimalReads(front: bytes, c: byte)
    requires AllDigits(front) && '0' as int <= c <= '9' as int
    ensures AllDigits(front + [c]) && Decimal(front + [c]) == 10 * Decimal(front) + (c - '0' as int)
    ensures Decimal([]) == 0
  {
    Unsnoc(front, c);
  }

  /** A number is read exactly from digits, one plus sign perhaps before them, up to the largest. */
  lemma UintReads(s: bytes, max: nat, n: nat)
    ensures ParseUint(s, max) == Some(n)
       <==> exists digits ::
              && |digits| > 0 && (s == digits || s == ['+' as int] + digits)
              && (forall i | 0 <= i < |digits| :: '0' as int <= digits[i] <= '9' as int)
              && AllDigits(digits) && Decimal(digits) == n <= max
  {
    if |s| > 0 && s[0] == '+' as int {
      SplitFirst(s);
    }
    if ParseUint(s, max) == Some(n) {
      var digits := if |s| > 0 && s[0] == '+' as int then s[1..] else s;
      assert |digits| > 0 && AllDigits(digits) && Decimal(digits) == n <= max;
    }
    forall digits | |digits| > 0 && (s == digits || s == ['+' as int] + digits) && AllDigits(digits)
      ensures digits == if |s| > 0 && s[0] == '+' as int then s[1..] else s
    {
      assert s == digits ==> s[0] == digits[0];
    }
  }

  // --- RFC 4648 ----------------------------------------------------------------------

  /** Table 3 of RFC 4648; lower case counts as upper case, `=` and space as nothing. */
  lemma Base32Alphabet(c: byte, v: nat)
    ensures v < 26 ==> Base32.Letter(v) == 'A' as int + v
    ensures 26 <= v < 32 ==> Base32.Letter(v) == '2' as int + (v - 26)
    ensures Base32.DigitOf(c) == Some(v)
       <==> || (v < 26 && (c == 'A' as int + v || c == 'a' as int + v))
            || (26 <= v < 32 && c == '2' as int + (v - 26))
    ensures Base32.Skipped(c) <==> c == '=' as int || c == ' ' as int
  {
  }

  /** Table 1 of RFC 4648. */
  lemma Base64Alphabet(c: byte, v: nat)
    ensures Base64.DigitOf(c) == Some(v)
       <==> || (v < 26 && c == 'A' as int + v)
            || (26 <= v < 52 && c == 'a' as int + (v - 26))
            || (52 <= v < 62 && c == '0' as int + (v - 52))
            || (v == 62 && c == '+' as int) || (v == 63 && c == '/' as int)
    ensures v < 64 ==> Base64.DigitOf(Base64.Letter(v)) == Some(v)
  {
  }

  lemma ValueOfEight(a: nat, b: nat, c: nat, d: nat, e: nat, f: nat, g: nat, h: nat, base: nat)
    ensures Value([a, b, c, d, e, f, g, h], base)
         == ((((((a * base + b) * base + c) * base + d) * base + e) * base + f) * base + g) * base + h
  {
    assert Value([], base) == 0;
    ValueOfLast([], a, b, c, base);
    assert [] + [a, b, c] == [a, b, c];
    ValueOfLast([a, b, c], d, e, f, base);
    ValueSnoc([a, b, c] + [d, e, f], g, base);
    ValueSnoc([a, b, c] + [d, e, f] + [g], h, base);
    assert [a, b, c] + [d, e, f] + [g] + [h] == [a, b, c, d, e, f, g, h];
  }

  lemma ValueOfLast(front: seq<nat>, a: nat, b: nat, c: nat, base: nat)
    ensures Value(front + [a, b, c], base) == ((Value(front, base) * base + a) * base + b) * base + c
  {
    ValueSnoc(front, a, base);
    ValueSnoc(front + [a], b, base);
    ValueSnoc(front + [a] + [b], c, base);
    assert front + [a] + [b] + [c] == front + [a, b, c];
  }

  const FOOBA: bytes := [102, 111, 111, 98, 97]
  const FOOBAR: bytes := [102, 111, 111, 98, 97, 114]

  lemma FoobarValues()
    ensures FromBe(FOOBA) == 439956234849 && FromBe(FOOBAR) == 112628796121458
  {
    assert Value([], 256) == 0;
    ValueOfLast([], 102, 111, 111, 256);
    assert [] + [102, 111, 111] == [102, 111, 111];
    ValueOfLast([102, 111, 111], 98, 97, 114, 256);
    ValueSnoc([102, 111, 111], 98, 256);
    ValueSnoc([102, 111, 111] + [98], 97, 256);
    assert FOOBA == [102, 111, 111] + [98] + [97];
    assert FOOBAR == [102, 111, 111] + [98, 97, 114];
  }

  lemma Spelled()
    ensures OfString("fooba") == FOOBA && OfString("foobar") == FOOBAR
    ensures OfString("MZXW6YTB") == [77, 90, 88, 87, 54, 89, 84, 66]
    ensures OfString("Zm9vYmFy") == [90, 109, 57, 118, 89, 109, 70, 121]
  {
  }

  lemma FoobaDigits()
    ensures BitCodec.Encode(FOOBA, 5) == [12, 25, 23, 22, 30, 24, 19, 1]
  {
    FoobarValues();
    ValueOfEight(12, 25, 23, 22, 30, 24, 19, 1, 32);
    BitCodec.EncodeValue(FOOBA, 5);
    assert Pow(2, 0) == 1 && BitCodec.Padded(FOOBA, 0) == FromBe(FOOBA);
    ValueInjective(BitCodec.Encode(FOOBA, 5), [12, 25, 23, 22, 30, 24, 19, 1], 32);
  }

  lemma FoobarDigits()
    ensures BitCodec.Encode(FOOBAR, 6) == [25, 38, 61, 47, 24, 38, 5, 50]
  {
    FoobarValues();
    ValueOfEight(25, 38, 61, 47, 24, 38, 5, 50, 64);
    BitCodec.EncodeValue(FOOBAR, 6);
    assert Pow(2, 0) == 1 && BitCodec.Padded(FOOBAR, 0) == FromBe(FOOBAR);
    ValueInjective(BitCodec.Encode(FOOBAR, 6), [25, 38, 61, 47, 24, 38, 5, 50], 64);
  }

  lemma EightLetters()
    ensures Base32.Letters([12, 25, 23, 22, 30, 24, 19, 1]) == [77, 90, 88, 87, 54, 89, 84, 66]
    ensures Base64.Letters([25, 38, 61, 47, 24, 38, 5, 50]) == [90, 109, 57, 118, 89, 109, 70, 121]
  {
  }

  /** Section 10 of RFC 4648. */
  lemma TestVectors()
    ensures Base32.Encode(OfString("fooba")) == OfString("MZXW6YTB")
    ensures Base64.Encode(OfString("foobar")) == OfString("Zm9vYmFy")
  {
    Spelled();
    FoobaDigits();
    FoobarDigits();
    EightLetters();
    Empty(Base64.Letters([25, 38, 61, 47, 24, 38, 5, 50]));
  }

  // --- White space -------------------------------------------------------------------

  /** The characters with the property White_Space in Unicode 15. */
  ghost predicate IsWhiteSpace(point: nat) {
    || 0x09 <= point <= 0x0d || point in {0x20, 0x85, 0xa0, 0x1680} || 0x2000 <= point <= 0x200a
    || point in {0x2028, 0x2029, 0x202f, 0x205f, 0x3000}
  }

  /** Section 3 of RFC 3629, up to three octets. */
  ghost predicate IsUtf8Of(c: bytes, point: nat) {
    || (point < 0x80 && c == [point])
    || (0x80 <= point < 0x800 && c == [0xc0 + point / 0x40, 0x80 + point % 0x40])
    || (0x800 <= point < 0x1_0000 && c == [0xe0 + point / 0x1000, 0x80 + point / 0x40 % 0x40, 0x80 + point % 0x40])
  }

  lemma SpacePoint(c: bytes) returns (point: nat)
    requires IsSpace(c)
    ensures IsWhiteSpace(point) && IsUtf8Of(c, point)
  {
    var o: seq<int> := c;
    point :=
      if |o| == 1 then o[0]
      else if |o| == 2 then 0x40 * (o[0] - 0xc0) + (o[1] - 0x80)
      else 0x1000 * (o[0] - 0xe0) + 0x40 * (o[1] - 0x80) + (o[2] - 0x80);
  }

  lemma PointIsSpace(c: bytes, point: nat)
    requires IsWhiteSpace(point) && IsUtf8Of(c, point)
    ensures IsSpace(c)
  {
    if 0x2000 <= point < 0x2040 {
      assert c[1] == 0x80 && c[2] == 0x80 + (point - 0x2000);
    }
  }

  /** What trimming drops are the encodings of these characters, and no others. */
  lemma WhiteSpace(c: bytes)
    ensures IsSpace(c) <==> exists point: nat :: IsWhiteSpace(point) && IsUtf8Of(c, point)
  {
    if IsSpace(c) {
      var point := SpacePoint(c);
    }
    forall point: nat | IsWhiteSpace(point) && IsUtf8Of(c, point)
      ensures IsSpace(c)
    {
      PointIsSpace(c, point);
    }
  }
}
