/** ASCII letters, hexadecimal digits and decimal numbers, as octets. */
module Ascii {
  import opened Wrappers
  import opened Radix
  import opened Sequences

  const PLUS: byte := 0x2b
  const SLASH: byte := 0x2f
  const COLON: byte := 0x3a
  const EQUALS: byte := 0x3d

  /** The octets of a text in ASCII. */
  function OfString(s: string): (b: bytes)
    ensures |b| == |s|
  {
    seq(|s|, i requires 0 <= i < |s| => s[i] as int % 256)
  }

  function Upper(c: byte): byte {
    if 0x61 <= c <= 0x7a then c - 0x20 else c
  }

  function Uppercase(s: bytes): bytes {
    seq(|s|, i requires 0 <= i < |s| => Upper(s[i]))
  }

  /** The value of a hexadecimal digit in either case. */
  function HexDigit(c: byte): (v: Option<nat>)
    ensures v.Some? ==> v.value < 16
  {
    if 0x30 <= c <= 0x39 then Some(c - 0x30)
    else if 0x61 <= c <= 0x66 then Some(c - 0x61 + 10)
    else if 0x41 <= c <= 0x46 then Some(c - 0x41 + 10)
    else None
  }

  predicate IsUpper(c: byte) {
    0x41 <= c <= 0x5a
  }

  /** The lower-case digit. */
  function HexLetter(v: nat): (c: byte)
    requires v < 16
    ensures HexDigit(c) == Some(v) && !IsUpper(c)
  {
    if v < 10 then 0x30 + v else 0x61 + (v - 10)
  }

  /** Two lower-case digits an octet. */
  function Hex(b: bytes): (h: bytes)
    ensures |h| == 2 * |b|
    ensures forall i | 0 <= i < |h| :: HexDigit(h[i]).Some? && !IsUpper(h[i])
  {
    if |b| == 0 then [] else [HexLetter(b[0] / 16), HexLetter(b[0] % 16)] + Hex(b[1..])
  }

  /** Prefixes of octets and of their digits are the same thing. */
  lemma {:induction false} HexKeepsPrefixes(a: bytes, b: bytes)
    ensures Hex(a) <= Hex(b) <==> a <= b
  {
    if |a| == 0 || |b| == 0 {
    } else {
      HexKeepsPrefixes(a[1..], b[1..]);
      assert Hex(a)[2..] == Hex(a[1..]) && Hex(b)[2..] == Hex(b[1..]);
      PrefixBy(a, b, 1);
      PrefixBy(Hex(a), Hex(b), 2);
      assert Hex(a)[..2] == [HexLetter(a[0] / 16), HexLetter(a[0] % 16)];
      assert Hex(b)[..2] == [HexLetter(b[0] / 16), HexLetter(b[0] % 16)];
      if Hex(a)[..2] == Hex(b)[..2] {
        assert Hex(a)[..2][0] == Hex(b)[..2][0] && Hex(a)[..2][1] == Hex(b)[..2][1];
      }
      assert a[..1] == [a[0]] && b[..1] == [b[0]];
    }
  }

  const U8_MAX: nat := 0xff
  const U32_MAX: nat := 0xffff_ffff

  predicate AllDigits(s: bytes) {
    forall i | 0 <= i < |s| :: 0x30 <= s[i] <= 0x39
  }

  function Decimal(s: bytes): nat
    requires AllDigits(s)
  {
    if |s| == 0 then 0 else Decimal(s[..|s| - 1]) * 10 + (s[|s| - 1] - 0x30)
  }

  /** Unsigned decimal text as the standard integer parser reads it: an optional plus, then digits. */
  function ParseUint(s: bytes, max: nat): Option<nat> {
    var digits := if |s| > 0 && s[0] == PLUS then s[1..] else s;
    if |digits| > 0 && AllDigits(digits) && Decimal(digits) <= max then Some(Decimal(digits)) else None
  }

  /** A number without leading zeros. */
  function DecimalText(n: nat): (s: bytes)
    ensures |s| > 0 && AllDigits(s)
  {
    if n < 10 then [0x30 + n] else DecimalText(n / 10) + [0x30 + n % 10]
  }

  lemma {:induction false} TextReadsBack(n: nat)
    ensures Decimal(DecimalText(n)) == n
  {
    if n < 10 {
      assert DecimalText(n)[..0] == [];
    } else {
      TextReadsBack(n / 10);
      assert DecimalText(n)[..|DecimalText(n)| - 1] == DecimalText(n / 10);
    }
  }
}
