/** The Base32 codec of OATH secrets: section 6 of RFC 4648, leniently read. */
module Base32 {
  import opened Wrappers
  import opened Radix
  import opened Ascii
  import BitCodec

  datatype Base32Error = Base32Error

  const U32_SPAN: nat := 0x1_0000_0000
  const U64_SPAN: nat := 0x1_0000_0000_0000_0000

  /** `'='` and `' '` carry no data. */
  predicate Skipped(c: byte) {
    c == 0x3d || c == 0x20
  }

  /** The digit a character stands for; lower case is accepted. */
  function DigitOf(c: byte): Option<nat> {
    if 0x41 <= c <= 0x5a then Some(c - 0x41)
    else if 0x61 <= c <= 0x7a then Some(c - 0x61)
    else if 0x32 <= c <= 0x37 then Some(c - 0x32 + 26)
    else None
  }

  /** The Base32 alphabet, `A`-`Z` then `2`-`7`. */
  function Letter(v: nat): byte
    requires v < 32
  {
    if v < 26 then 0x41 + v else 0x32 + (v - 26)
  }

  /** The input without padding and spaces, in upper case. */
  function Clean(s: bytes): bytes {
    if |s| == 0 then []
    else
      var front, c := Clean(s[..|s| - 1]), s[|s| - 1];
      if Skipped(c) then front else front + [Upper(c)]
  }

  function Letters(vs: seq<nat>): (s: bytes)
    requires AreDigits(vs, 32)
  {
    seq(|vs|, i requires 0 <= i < |vs| => Letter(vs[i]))
  }

  /** The canonical, unpadded encoding. */
  function Encode(b: bytes): bytes {
    Letters(BitCodec.Encode(b, 5))
  }

  lemma LettersConcat(a: seq<nat>, b: seq<nat>)
    requires AreDigits(a, 32) && AreDigits(b, 32)
    ensures AreDigits(a + b, 32) && Letters(a + b) == Letters(a) + Letters(b)
  {
  }

  lemma LettersInjective(a: seq<nat>, b: seq<nat>)
    requires AreDigits(a, 32) && AreDigits(b, 32) && Letters(a) == Letters(b)
    ensures a == b
  {
    assert forall v, w: nat :: v < 32 && w < 32 && Letter(v) == Letter(w) ==> v == w;
    assert |a| == |Letters(a)| == |b|;
    forall i | 0 <= i < |a|
      ensures a[i] == b[i]
    {
      assert Letters(a)[i] == Letters(b)[i];
    }
  }

  /** Decoded digits are a canonical encoding exactly when the bit codec accepts them. */
  lemma CanonicalIffDecodes(vs: seq<nat>, b: bytes)
    requires AreDigits(vs, 32)
    ensures Letters(vs) == Encode(b) <==> BitCodec.Decode(vs, 5) == Some(b)
  {
    BitCodec.DecodeIffEncode(vs, 5, b);
    if Letters(vs) == Encode(b) {
      LettersInjective(vs, BitCodec.Encode(b, 5));
    }
  }

  lemma CleanKeepsForeign(s: bytes, i: nat)
    requires i < |s| && !Skipped(s[i]) && DigitOf(s[i]) == None
    ensures exists k :: 0 <= k < |Clean(s)| && DigitOf(Clean(s)[k]) == None
  {
    var front := s[..|s| - 1];
    if i == |s| - 1 {
      assert DigitOf(Clean(s)[|Clean(s)| - 1]) == None;
    } else {
      CleanKeepsForeign(front, i);
      var k :| 0 <= k < |Clean(front)| && DigitOf(Clean(front)[k]) == None;
      assert DigitOf(Clean(s)[k]) == None;
    }
  }

  /** A character outside the alphabet occurs in no encoding. */
  lemma ForeignIsNoEncoding(s: bytes, i: nat, b: bytes)
    requires i < |s| && !Skipped(s[i]) && DigitOf(s[i]) == None
    ensures Clean(s) != Encode(b)
  {
    CleanKeepsForeign(s, i);
    var k :| 0 <= k < |Clean(s)| && DigitOf(Clean(s)[k]) == None;
    if Clean(s) == Encode(b) {
      LetterIsDigit(BitCodec.Encode(b, 5)[k]);
    }
  }

  lemma LetterIsDigit(v: nat)
    requires v < 32
    ensures DigitOf(Letter(v)) == Some(v)
  {
  }

  /** Encodings contain nothing that cleaning changes, so decoding one returns its octets. */
  lemma {:induction false} LettersAreClean(vs: seq<nat>)
    requires AreDigits(vs, 32)
    ensures Clean(Letters(vs)) == Letters(vs)
  {
    if |vs| > 0 {
      var front := vs[..|vs| - 1];
      LettersAreClean(front);
      assert Letters(vs)[..|vs| - 1] == Letters(front);
    }
  }

  /** What decoding yields, if anything: the octets the cleaned input is the encoding of. */
  ghost function Decoded(s: bytes): (r: Option<bytes>)
    ensures r.Some? ==> Clean(s) == Encode(r.value)
    ensures r.None? ==> forall b :: Clean(s) != Encode(b)
  {
    if exists b :: Clean(s) == Encode(b) then
      var b :| Clean(s) == Encode(b);
      Some(b)
    else None
  }

  lemma EncodeInjective(a: bytes, b: bytes)
    requires Encode(a) == Encode(b)
    ensures a == b
  {
    LettersInjective(BitCodec.Encode(a, 5), BitCodec.Encode(b, 5));
    BitCodec.DecodeEncode(a, 5);
    BitCodec.DecodeEncode(b, 5);
  }

  /** Encodings are read back. */
  lemma EncodedReadsBack(b: bytes)
    ensures Decoded(Encode(b)) == Some(b)
  {
    LettersAreClean(BitCodec.Encode(b, 5));
    assert Clean(Encode(b)) == Encode(b);
    EncodeInjective(b, Decoded(Encode(b)).value);
  }

  lemma EncodingIsLetters(b: bytes, i: nat)
    requires i < |Encode(b)|
    ensures DigitOf(Encode(b)[i]).Some? && !Skipped(Encode(b)[i])
  {
    LetterIsDigit(BitCodec.Encode(b, 5)[i]);
  }

  lemma EncodedIsNonEmpty(b: bytes)
    requires |b| > 0
    ensures |Encode(b)| > 0
  {
  }

  /** 2^n for the at most seven bits the streaming decoder holds back. */
  function Two(n: nat): (p: nat)
    requires n < 8
    ensures p == Pow(2, n) && p > 0
  {
    assert Pow(2, 3) == 8 && Pow(2, 5) == 4 * Pow(2, 3) && Pow(2, 7) == 4 * Pow(2, 5);
    if n == 0 then 1 else if n == 1 then 2 else if n == 2 then 4 else if n == 3 then 8
    else if n == 4 then 16 else if n == 5 then 32 else if n == 6 then 64 else 128
  }

  /** `acc`, `bits` and `output` stand for the unbounded digit string `vs`. */
  ghost predicate Streams(vs: seq<nat>, acc: nat, bits: nat, output: bytes) {
    && AreDigits(vs, 32)
    && bits < 8 && 5 * |vs| == 8 * |output| + bits
    && acc == Value(vs, 32) % U32_SPAN
    && Value(vs, 32) / Two(bits) == FromBe(output)
  }

  lemma ModShift(b: nat, k: nat)
    ensures (b + 256 * k) % 256 == b % 256
  {
  }

  /** Wrapping at 32 bits loses no bit of the next octet. */
  lemma WrapKeepsOctet(x: nat, acc: nat, t: nat)
    requires t == 1 || t == 2 || t == 4 || t == 8 || t == 16
    requires acc == x % U32_SPAN
    ensures x / t % 256 == acc / t % 256
  {
    var q := x / U32_SPAN;
    var k := if t == 1 then q * 0x100_0000 else if t == 2 then q * 0x80_0000
             else if t == 4 then q * 0x40_0000 else if t == 8 then q * 0x20_0000 else q * 0x10_0000;
    assert x == q * U32_SPAN + acc;
    ModShift(acc / t, k);
    assert x / t == acc / t + 256 * k;
  }

  lemma ShiftFive(n: nat, v: nat, t: nat)
    requires v < 32 && (t == 1 || t == 2 || t == 4 || t == 8 || t == 16)
    ensures (32 * n + v) / t / 256 == n / (8 * t)
  {
    if t == 1 {
    } else if t == 2 {
    } else if t == 4 {
    } else if t == 8 {
    } else {
    }
  }

  /** The octet taken from the wrapping accumulator extends the unbounded value. */
  lemma TakeOctet(n: nat, v: nat, bits: nat, acc: nat)
    requires v < 32 && 3 <= bits < 8 && acc == (32 * n + v) % U32_SPAN
    ensures (32 * n + v) / Two(bits - 3) == 256 * (n / Two(bits)) + acc / Two(bits - 3) % 256
  {
    var t := Two(bits - 3);
    assert Two(bits) == 8 * t;
    WrapKeepsOctet(32 * n + v, acc, t);
    ShiftFive(n, v, t);
  }

  lemma AppendDigit(n: nat, acc: nat, v: nat)
    requires v < 32 && acc == n % U32_SPAN
    ensures acc * 32 % U32_SPAN + v == (32 * n + v) % U32_SPAN
  {
    var q := n / U32_SPAN;
    assert n == q * U32_SPAN + acc;
    ModShiftBy(32 * acc + v, 32 * q, U32_SPAN);
    ModShiftBy(acc * 32 % U32_SPAN + v, acc * 32 / U32_SPAN, U32_SPAN);
    LowDigit(acc * 32 % U32_SPAN, v);
  }

  /** The five low bits of a shifted accumulator are free for the digit. */
  lemma LowDigit(x: nat, v: nat)
    requires x < U32_SPAN && v < 32
    requires x % 32 == 0
    ensures x + v < U32_SPAN
  {
  }

  lemma HoldBits(n: nat, v: nat, bits: nat)
    requires v < 32 && bits < 3
    ensures (32 * n + v) / Two(bits + 5) == n / Two(bits)
  {
  }

  lemma PushDigit(vs: seq<nat>, acc: nat, bits: nat, output: bytes, v: nat)
    requires Streams(vs, acc, bits, output) && v < 32
    ensures var acc' := acc * 32 % U32_SPAN + v;
            if bits < 3 then Streams(vs + [v], acc', bits + 5, output)
            else Streams(vs + [v], acc', bits - 3, output + [acc' / Two(bits - 3) % 256])
  {
    var n, acc' := Value(vs, 32), acc * 32 % U32_SPAN + v;
    ValueSnoc(vs, v, 32);
    AppendDigit(n, acc, v);
    if bits < 3 {
      HoldBits(n, v, bits);
    } else {
      TakeOctet(n, v, bits, acc');
      ValueSnoc(output, acc' / Two(bits - 3) % 256, 256);
    }
  }

  lemma LowBits(n: nat, acc: nat, bits: nat)
    requires bits < 8 && acc == n % U32_SPAN
    ensures acc % Two(bits) == n % Two(bits)
  {
    var q := n / U32_SPAN;
    assert n == q * U32_SPAN + acc;
    if bits == 0 {
    } else if bits == 1 {
      ModShiftBy(acc, q * 0x8000_0000, 2);
    } else if bits == 2 {
      ModShiftBy(acc, q * 0x4000_0000, 4);
    } else if bits == 3 {
      ModShiftBy(acc, q * 0x2000_0000, 8);
    } else if bits == 4 {
      ModShiftBy(acc, q * 0x1000_0000, 16);
    } else if bits == 5 {
      ModShiftBy(acc, q * 0x800_0000, 32);
    } else if bits == 6 {
      ModShiftBy(acc, q * 0x400_0000, 64);
    } else {
      ModShiftBy(acc, q * 0x200_0000, 128);
    }
  }

  lemma ModShiftBy(b: nat, k: nat, m: nat)
    requires m > 0
    ensures (b + k * m) % m == b % m
  {
    MulDistributes(k, Div(b, m), m);
    DivMod(k + Div(b, m), m, Mod(b, m));
  }

  /** The closing check is the bit codec's. */
  lemma CloseStream(vs: seq<nat>, acc: nat, bits: nat, output: bytes)
    requires Streams(vs, acc, bits, output)
    ensures BitCodec.Decode(vs, 5)
         == if bits >= 5 || acc % Two(bits) != 0 then None else Some(output)
  {
    LowBits(Value(vs, 32), acc, bits);
    assert BitCodec.Bits(|vs|, 5) == 8 * |output| + bits;
    assert BitCodec.Bits(|vs|, 5) % 8 == bits && BitCodec.Bits(|vs|, 5) / 8 == |output|;
    BeOfFromBe(output);
  }

  /** An incomplete group, or completing bits that are not zero. */
  predicate Leftover(acc: nat, bits: nat) {
    bits >= 5 || acc % Two(bits) != 0
  }

  lemma Verdict(input: bytes, vs: seq<nat>, acc: nat, bits: nat, output: bytes)
    requires Decoding(input, |input|, vs, acc, bits, output)
    ensures if Leftover(acc, bits) then EncodesNothing(input) else Clean(input) == Encode(output)
  {
    assert input[..|input|] == input;
    CloseStream(vs, acc, bits, output);
    CanonicalIffDecodes(vs, output);
    if Leftover(acc, bits) {
      forall b
        ensures Clean(input) != Encode(b)
      {
        CanonicalIffDecodes(vs, b);
      }
    }
  }

  /** The accumulator after one more digit, wrapped to 32 bits. */
  function Shifted(acc: nat, v: nat): nat {
    acc * 32 % U32_SPAN + v
  }

  /** The octet above the lowest `bits`. */
  function OctetAt(acc: nat, bits: nat): byte
    requires bits < 8
  {
    acc / Two(bits) % 256
  }

  /** Where decoding stands after `i` octets of input. */
  ghost predicate Decoding(input: bytes, i: nat, vs: seq<nat>, acc: nat, bits: nat, output: bytes) {
    && i <= |input| && Streams(vs, acc, bits, output)
    && |vs| <= i && Letters(vs) == Clean(input[..i])
  }

  lemma SkipLetter(input: bytes, i: nat, vs: seq<nat>, acc: nat, bits: nat, output: bytes)
    requires Decoding(input, i, vs, acc, bits, output) && i < |input| && Skipped(input[i])
    ensures Decoding(input, i + 1, vs, acc, bits, output)
  {
    assert input[..i + 1][..i] == input[..i];
  }

  lemma PushLetter(input: bytes, i: nat, vs: seq<nat>, acc: nat, bits: nat, output: bytes, v: nat)
    requires Decoding(input, i, vs, acc, bits, output) && i < |input|
    requires !Skipped(input[i]) && DigitOf(input[i]) == Some(v)
    ensures var acc' := Shifted(acc, v);
            if bits < 3 then Decoding(input, i + 1, vs + [v], acc', bits + 5, output)
            else Decoding(input, i + 1, vs + [v], acc', bits - 3, output + [OctetAt(acc', bits - 3)])
  {
    assert input[..i + 1][..i] == input[..i];
    LettersConcat(vs, [v]);
    assert Letters([v]) == [Upper(input[i])];
    PushDigit(vs, acc, bits, output, v);
  }

  lemma WithinCapacity(input: bytes, i: nat, vs: seq<nat>, acc: nat, bits: nat, output: bytes)
    requires Decoding(input, i, vs, acc, bits, output)
    ensures |output| <= |input| * 5 / 8
  {
  }

  /** The text encodes no octets at all. */
  ghost predicate EncodesNothing(input: bytes) {
    forall b :: Clean(input) != Encode(b)
  }

  lemma ForeignVerdict(input: bytes, i: nat)
    requires i < |input| && !Skipped(input[i]) && DigitOf(input[i]) == None
    ensures EncodesNothing(input)
  {
    forall b
      ensures Clean(input) != Encode(b)
    {
      ForeignIsNoEncoding(input, i, b);
    }
  }

  /**
   Decode leniently. Succeeds with `b` exactly when the cleaned input is the
   canonical encoding of `b`, and never outgrows the reserved capacity.
   */
  method Base32Decode(input: bytes) returns (r: Result<bytes, Base32Error>)
    ensures r.Success? ==> Clean(input) == Encode(r.value) && |r.value| <= |input| * 5 / 8
    ensures r.Failure? ==> EncodesNothing(input)
  {
    var accumulator: nat, bits: nat, output: bytes := 0, 0, [];
    ghost var vs: seq<nat> := [];
    for i := 0 to |input|
      invariant Decoding(input, i, vs, accumulator, bits, output)
    {
      WithinCapacity(input, i, vs, accumulator, bits, output);
      var c := input[i];
      if Skipped(c) {
        SkipLetter(input, i, vs, accumulator, bits, output);
        continue;
      }
      var digit := DigitOf(c);
      if digit.None? {
        ForeignVerdict(input, i);
        return Failure(Base32Error);
      }
      var v := digit.value;
      PushLetter(input, i, vs, accumulator, bits, output, v);
      accumulator := Shifted(accumulator, v);
      bits := bits + 5;
      if bits >= 8 {
        bits := bits - 8;
        output := output + [OctetAt(accumulator, bits)];
      }
      vs := vs + [v];
    }
    WithinCapacity(input, |input|, vs, accumulator, bits, output);
    Verdict(input, vs, accumulator, bits, output);
    if Leftover(accumulator, bits) {
      return Failure(Base32Error);
    }
    return Success(output);
  }

  lemma Rescale(whole: int, f: int, p: int, c: int, q: int)
    requires whole == f * p + c
    ensures whole * q == f * (p * q) + c * q
  {
    MulDistributes(f * p, c, q);
    MulAssoc(f, p, q);
  }

  lemma BlockWeight(k: nat)
    ensures Pow(32, BitCodec.DigitCount(k, 5)) == Pow(256, k) * Pow(2, BitCodec.Pad(k, 5))
  {
    BitCodec.PowOfBase(5, BitCodec.DigitCount(k, 5));
    BitCodec.OctetsBelow(k);
    PowAdd(2, 8 * k, BitCodec.Pad(k, 5));
  }

  lemma PaddedConcat(pre: bytes, chunk: bytes, pad: nat)
    ensures BitCodec.Padded(pre + chunk, pad)
         == FromBe(pre) * (Pow(256, |chunk|) * Pow(2, pad)) + BitCodec.Padded(chunk, pad)
  {
    ValueConcat(pre, chunk, 256);
    Rescale(FromBe(pre + chunk), FromBe(pre), Pow(256, |chunk|), FromBe(chunk), Pow(2, pad));
  }

  lemma ConcatValue(pre: bytes, chunk: bytes, vs: seq<nat>, block: seq<nat>)
    requires Value(vs, 32) == FromBe(pre) && |block| == BitCodec.DigitCount(|chunk|, 5)
    requires Value(block, 32) == BitCodec.Padded(chunk, BitCodec.Pad(|chunk|, 5))
    ensures Value(vs + block, 32) == BitCodec.Padded(pre + chunk, BitCodec.Pad(|chunk|, 5))
  {
    PaddedConcat(pre, chunk, BitCodec.Pad(|chunk|, 5));
    ValueConcat(vs, block, 32);
    BlockWeight(|chunk|);
  }

  lemma WholeValue(pre: bytes, blocks: nat)
    requires |pre| == 5 * blocks
    ensures Value(BitCodec.Encode(pre, 5), 32) == FromBe(pre)
  {
    WholeBlocks(blocks, 0);
    BitCodec.EncodeValue(pre, 5);
    assert Pow(2, 0) == 1;
  }

  /** Appending a block to the digits of whole blocks encodes the longer string. */
  lemma AppendBlock(pre: bytes, chunk: bytes, blocks: nat)
    requires |pre| == 5 * blocks && |chunk| <= 5
    ensures BitCodec.Encode(pre, 5) + BitCodec.Encode(chunk, 5) == BitCodec.Encode(pre + chunk, 5)
  {
    var vs, block, all := BitCodec.Encode(pre, 5), BitCodec.Encode(chunk, 5), BitCodec.Encode(pre + chunk, 5);
    AppendedCount(pre, chunk, blocks);
    WholeValue(pre, blocks);
    BitCodec.EncodeValue(chunk, 5);
    BitCodec.EncodeValue(pre + chunk, 5);
    ConcatValue(pre, chunk, vs, block);
    ValueInjective(vs + block, all, 32);
  }

  lemma AppendedCount(pre: bytes, chunk: bytes, blocks: nat)
    requires |pre| == 5 * blocks && |chunk| <= 5
    ensures BitCodec.DigitCount(|pre|, 5) + BitCodec.DigitCount(|chunk|, 5) == BitCodec.DigitCount(|pre + chunk|, 5)
    ensures BitCodec.Pad(|pre + chunk|, 5) == BitCodec.Pad(|chunk|, 5)
    ensures |BitCodec.Encode(pre, 5)| == BitCodec.DigitCount(|pre|, 5)
  {
    WholeBlocks(blocks, 0);
    WholeBlocks(blocks, |chunk|);
    BitCodec.EncodeValue(pre, 5);
    assert |pre + chunk| == 5 * blocks + |chunk|;
  }

  lemma WholeBlocks(blocks: nat, k: nat)
    requires k <= 5
    ensures BitCodec.Pad(5 * blocks, 5) == 0
    ensures BitCodec.DigitCount(5 * blocks + k, 5) == 8 * blocks + BitCodec.DigitCount(k, 5)
    ensures BitCodec.Pad(5 * blocks + k, 5) == BitCodec.Pad(k, 5)
  {
    DivShift(8 * k + 4, 8 * blocks);
    DivShift(4, 8 * blocks);
    assert 8 * (5 * blocks + k) + 4 == 8 * k + 4 + 5 * (8 * blocks);
    assert 8 * (5 * blocks) + 4 == 4 + 5 * (8 * blocks);
  }

  lemma DivShift(x: nat, n: nat)
    ensures (x + 5 * n) / 5 == x / 5 + n
  {
  }

  lemma BlockFits(chunk: bytes)
    requires |chunk| <= 5
    ensures FromBe(chunk) < U64_SPAN && BitCodec.Padded(chunk, BitCodec.Pad(|chunk|, 5)) < U64_SPAN
  {
    var pad := BitCodec.Pad(|chunk|, 5);
    BitCodec.PaddedBelow(chunk, pad);
    PadFitsBlock(|chunk|);
    PowMonotone(8 * |chunk| + pad, 40);
    FortyBits();
    PaddedIsMore(FromBe(chunk), Pow(2, pad));
  }

  lemma PaddedIsMore(f: nat, p: nat)
    requires p > 0
    ensures f <= f * p
  {
  }

  lemma PadFitsBlock(n: nat)
    requires n <= 5
    ensures 8 * n + BitCodec.Pad(n, 5) <= 40
  {
  }

  lemma FortyBits()
    ensures Pow(2, 40) < U64_SPAN
  {
    BitCodec.OctetsBelow(5);
    OctetPowers();
    assert Pow(256, 5) == 256 * Pow(256, 4);
  }

  lemma {:induction false} PowMonotone(m: nat, n: nat)
    requires m <= n
    ensures Pow(2, m) <= Pow(2, n)
    decreases n - m
  {
    if m < n {
      PowMonotone(m + 1, n);
    }
  }

  lemma PushOctet(chunk: bytes, j: nat)
    requires j < |chunk| <= 5
    ensures FromBe(chunk[..j + 1]) == FromBe(chunk[..j]) * 256 % U64_SPAN + chunk[j]
  {
    assert chunk[..j + 1] == chunk[..j] + [chunk[j]];
    ValueSnoc(chunk[..j], chunk[j], 256);
    BlockFits(chunk[..j + 1]);
  }

  /** Digit `index` from the right, read by shifting. */
  lemma ReadDigit(n: nat, index: nat, len: nat)
    ensures Digits(Div(n, Pow(32, index)), 32, len + 1)
         == Digits(Div(n, Pow(32, index + 1)), 32, len) + [Mod(Div(n, Pow(32, index)), 32)]
  {
    DivDiv(n, Pow(32, index), 32);
    assert Pow(32, index + 1) == Pow(32, index) * 32;
  }

  method Accumulate(chunk: bytes) returns (accumulator: nat)
    requires |chunk| <= 5
    ensures accumulator == FromBe(chunk)
  {
    accumulator := 0;
    for j := 0 to |chunk|
      invariant accumulator == FromBe(chunk[..j])
    {
      PushOctet(chunk, j);
      accumulator := accumulator * 256 % U64_SPAN + chunk[j];
    }
    assert chunk[..|chunk|] == chunk;
  }

  method ReadDigits(accumulator: nat, digits: nat) returns (vs: seq<nat>)
    ensures vs == Digits(accumulator, 32, digits)
  {
    vs := [];
    var index := digits;
    while index > 0
      invariant 0 <= index <= digits
      invariant vs == Digits(Div(accumulator, Pow(32, index)), 32, digits - index)
    {
      index := index - 1;
      ReadDigit(accumulator, index, digits - index - 1);
      vs := vs + [Mod(Div(accumulator, Pow(32, index)), 32)];
    }
    assert Pow(32, 0) == 1 && Div(accumulator, 1) == accumulator;
  }

  lemma ShiftFits(chunk: bytes)
    requires |chunk| <= 5
    ensures var digits := BitCodec.DigitCount(|chunk|, 5);
            && digits * 5 >= |chunk| * 8
            && FromBe(chunk) * Pow(2, digits * 5 - |chunk| * 8) % U64_SPAN
               == BitCodec.Padded(chunk, BitCodec.Pad(|chunk|, 5))
  {
    BlockFits(chunk);
    assert BitCodec.DigitCount(|chunk|, 5) * 5 - |chunk| * 8 == BitCodec.Pad(|chunk|, 5);
    SmallMod(BitCodec.Padded(chunk, BitCodec.Pad(|chunk|, 5)), U64_SPAN);
  }

  lemma SmallMod(x: nat, m: nat)
    requires x < m
    ensures x % m == x
  {
  }

  /** The block loop: at most 40 bits are accumulated, then read out five at a time. */
  method EncodeBlock(chunk: bytes) returns (vs: seq<nat>)
    requires |chunk| <= 5
    ensures vs == BitCodec.Encode(chunk, 5)
  {
    var accumulator := Accumulate(chunk);
    var digits := BitCodec.DigitCount(|chunk|, 5);
    ShiftFits(chunk);
    accumulator := accumulator * Pow(2, digits * 5 - |chunk| * 8) % U64_SPAN;
    vs := ReadDigits(accumulator, digits);
  }

  lemma SliceGrows<T>(s: seq<T>, i: nat, end: nat)
    requires i <= end <= |s|
    ensures s[..i] + s[i..end] == s[..end]
  {
  }

  /** Encode block by block; the result is the encoding of the whole bit string. */
  method Base32Encode(data: bytes) returns (output: bytes)
    ensures output == Encode(data)
  {
    output := [];
    var i := 0;
    ghost var vs: seq<nat>, blocks: nat := [], 0;
    assert data[..0] == [] && BitCodec.Encode([], 5) == [];
    while i < |data|
      invariant 0 <= i <= |data|
      invariant i == |data| || i == 5 * blocks
      invariant vs == BitCodec.Encode(data[..i], 5) && output == Letters(vs)
    {
      var end := if i + 5 <= |data| then i + 5 else |data|;
      var block := EncodeBlock(data[i..end]);
      AppendBlock(data[..i], data[i..end], blocks);
      SliceGrows(data, i, end);
      LettersConcat(vs, block);
      output := output + Letters(block);
      vs, blocks := vs + block, blocks + 1;
      i := end;
    }
    assert data[..|data|] == data;
  }
}
