/**
 Binary-to-digit encoding as RFC 4648 describes it: the octets form one bit
 string, zero bits complete the last group, and every group of `w` bits is one
 digit. Base32 has w = 5 (section 6) and Base64 has w = 6 (section 4).
 */
module BitCodec {
  import opened Wrappers
  import opened Radix

  /** Digits needed for `n` octets. */
  function DigitCount(n: nat, w: nat): nat
    requires w == 5 || w == 6
  {
    if w == 5 then (8 * n + 4) / 5 else (8 * n + 5) / 6
  }

  /** Zero bits that complete the last digit. */
  function Pad(n: nat, w: nat): (pad: nat)
    requires w == 5 || w == 6
    ensures pad < w
    ensures Bits(DigitCount(n, w), w) == 8 * n + pad
  {
    Bits(DigitCount(n, w), w) - 8 * n
  }

  function Base(w: nat): nat
    requires w == 5 || w == 6
  {
    if w == 5 then 32 else 64
  }

  function Bits(digits: nat, w: nat): nat
    requires w == 5 || w == 6
  {
    if w == 5 then 5 * digits else 6 * digits
  }

  /** The bit string of `b`, completed with `pad` zero bits, read as a number. */
  function Padded(b: bytes, pad: nat): nat {
    FromBe(b) * Pow(2, pad)
  }

  function Encode(b: bytes, w: nat): (vs: seq<nat>)
    requires w == 5 || w == 6
  {
    var n := DigitCount(|b|, w);
    Digits(Padded(b, Pad(|b|, w)), Base(w), n)
  }

  /** Rejects incomplete last groups and nonzero completing bits. */
  function Decode(vs: seq<nat>, w: nat): Option<bytes>
    requires w == 5 || w == 6
  {
    var v, pad := Value(vs, Base(w)), Bits(|vs|, w) % 8;
    if pad < w && Mod(v, Pow(2, pad)) == 0
    then Some(Be(Div(v, Pow(2, pad)), Bits(|vs|, w) / 8))
    else None
  }

  lemma {:induction false} PowOfPow(w: nat, n: nat)
    ensures Pow(Pow(2, w), n) == Pow(2, w * n)
  {
    if n > 0 {
      PowOfPow(w, n - 1);
      PowAdd(2, w, w * (n - 1));
      assert w + w * (n - 1) == w * n;
    }
  }

  /** An octet string of n octets is a number below 2^8n. */
  lemma OctetsBelow(n: nat)
    ensures Pow(256, n) == Pow(2, 8 * n)
  {
    assert Pow(2, 8) == 256;
    PowOfPow(8, n);
  }

  lemma PowOfBase(w: nat, n: nat)
    requires w == 5 || w == 6
    ensures Pow(Base(w), n) == Pow(2, Bits(n, w))
  {
    assert Pow(2, 3) == 8 && Pow(2, 5) == 4 * Pow(2, 3);
    assert Pow(2, w) == Base(w);
    PowOfPow(w, n);
  }

  lemma PaddedBelow(b: bytes, pad: nat)
    ensures Padded(b, pad) < Pow(2, 8 * |b| + pad)
  {
    var p := Pow(2, pad);
    ValueBound(b, 256);
    OctetsBelow(|b|);
    MulMonotone(FromBe(b) + 1, Pow(2, 8 * |b|), p);
    assert (FromBe(b) + 1) * p == FromBe(b) * p + p;
    PowAdd(2, 8 * |b|, pad);
  }

  lemma EncodeValue(b: bytes, w: nat)
    requires w == 5 || w == 6
    ensures |Encode(b, w)| == DigitCount(|b|, w)
    ensures Value(Encode(b, w), Base(w)) == Padded(b, Pad(|b|, w))
  {
    var n, pad := DigitCount(|b|, w), Pad(|b|, w);
    PaddedBelow(b, pad);
    PowOfBase(w, n);
    ValueOfDigits(Padded(b, pad), Base(w), n);
  }

  lemma DividesOut(f: nat, p: nat)
    requires p > 0
    ensures Div(f * p, p) == f && Mod(f * p, p) == 0
  {
    DivMod(f, p, 0);
  }

  lemma BitsOfCount(n: nat, w: nat)
    requires w == 5 || w == 6
    ensures Bits(DigitCount(n, w), w) % 8 == Pad(n, w) && Bits(DigitCount(n, w), w) / 8 == n
  {
    EightBits(n, Pad(n, w));
  }

  lemma EightBits(n: nat, rest: nat)
    requires rest < 8
    ensures (8 * n + rest) % 8 == rest && (8 * n + rest) / 8 == n
  {
  }

  lemma DecodeEncode(b: bytes, w: nat)
    requires w == 5 || w == 6
    ensures Decode(Encode(b, w), w) == Some(b)
  {
    var vs, pad := Encode(b, w), Pad(|b|, w);
    EncodeValue(b, w);
    BitsOfCount(|b|, w);
    var p, v := Pow(2, pad), Value(vs, Base(w));
    assert Mod(v, p) == 0 && Div(v, p) == FromBe(b) by {
      DividesOut(FromBe(b), p);
    }
    assert Be(FromBe(b), |b|) == b by {
      BeOfFromBe(b);
    }
  }

  lemma CountOfBits(n: nat, w: nat)
    requires w == 5 || w == 6
    requires Bits(n, w) % 8 < w
    ensures DigitCount(Bits(n, w) / 8, w) == n
    ensures Pad(Bits(n, w) / 8, w) == Bits(n, w) % 8
  {
  }

  lemma QuotientBelow(v: nat, q: nat, p: nat, bound: nat)
    requires v == q * p && v < bound * p
    ensures q < bound
  {
    if q >= bound {
      MulMonotone(bound, q, p);
    }
  }

  lemma EncodeDecode(vs: seq<nat>, w: nat, b: bytes)
    requires w == 5 || w == 6
    requires AreDigits(vs, Base(w)) && Decode(vs, w) == Some(b)
    ensures vs == Encode(b, w)
  {
    var v, pad, m := Value(vs, Base(w)), Bits(|vs|, w) % 8, Bits(|vs|, w) / 8;
    var q := Div(v, Pow(2, pad));
    assert v == q * Pow(2, pad);
    ValueBound(vs, Base(w));
    PowOfBase(w, |vs|);
    PowAdd(2, 8 * m, pad);
    assert v < Pow(2, 8 * m) * Pow(2, pad);
    QuotientBelow(v, q, Pow(2, pad), Pow(2, 8 * m));
    OctetsBelow(m);
    BeRoundTrip(q, m);
    CountOfBits(|vs|, w);
    EncodeValue(b, w);
    ValueInjective(vs, Encode(b, w), Base(w));
  }

  /** Decoding accepts exactly the canonical encodings. */
  lemma DecodeIffEncode(vs: seq<nat>, w: nat, b: bytes)
    requires w == 5 || w == 6
    requires AreDigits(vs, Base(w))
    ensures Decode(vs, w) == Some(b) <==> vs == Encode(b, w)
  {
    if Decode(vs, w) == Some(b) {
      EncodeDecode(vs, w, b);
    }
    if vs == Encode(b, w) {
      DecodeEncode(b, w);
    }
  }
}
