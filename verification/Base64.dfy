/** Padded Base64 (section 4 of RFC 4648), decoded strictly. */
module Base64 {
  import opened Wrappers
  import opened Radix
  import BitCodec

  const PAD: byte := 0x3d

  /** The Base64 alphabet: letters, digits, `+` and `/`. */
  function Letter(v: nat): (c: byte)
    requires v < 64
    ensures DigitOf(c) == Some(v)
  {
    if v < 26 then 0x41 + v
    else if v < 52 then 0x61 + (v - 26)
    else if v < 62 then 0x30 + (v - 52)
    else if v == 62 then 0x2b else 0x2f
  }

  function DigitOf(c: byte): (v: Option<nat>)
    ensures v.Some? ==> v.value < 64
  {
    if 0x41 <= c <= 0x5a then Some(c - 0x41)
    else if 0x61 <= c <= 0x7a then Some(c - 0x61 + 26)
    else if 0x30 <= c <= 0x39 then Some(c - 0x30 + 52)
    else if c == 0x2b then Some(62)
    else if c == 0x2f then Some(63)
    else None
  }

  function Letters(vs: seq<nat>): (s: bytes)
    requires AreDigits(vs, 64)
    ensures |s| == |vs|
  {
    seq(|vs|, i requires 0 <= i < |vs| => Letter(vs[i]))
  }

  function DigitsOf(s: bytes): Option<seq<nat>> {
    if |s| == 0 then Some([])
    else
      match (DigitsOf(s[..|s| - 1]), DigitOf(s[|s| - 1]))
      case (Some(vs), Some(v)) => Some(vs + [v])
      case _ => None
  }

  /** Pads that complete a group of four. */
  function Padding(n: nat): (s: bytes)
    ensures |s| < 4 && (n + |s|) % 4 == 0 && forall i | 0 <= i < |s| :: s[i] == PAD
  {
    if n % 4 == 0 then [] else if n % 4 == 1 then [PAD, PAD, PAD] else if n % 4 == 2 then [PAD, PAD] else [PAD]
  }

  function Encode(b: bytes): bytes {
    var vs := BitCodec.Encode(b, 6);
    Letters(vs) + Padding(|vs|)
  }

  function Unpadded(s: bytes): bytes {
    if |s| > 0 && s[|s| - 1] == PAD then Unpadded(s[..|s| - 1]) else s
  }

  /** Refuses foreign characters, wrong padding and nonzero completing bits. */
  function Decode(s: bytes): Option<bytes> {
    match DigitsOf(Unpadded(s))
    case None => None
    case Some(vs) =>
      match BitCodec.Decode(vs, 6)
      case None => None
      case Some(b) => if Encode(b) == s then Some(b) else None
  }

  lemma {:induction false} DigitsOfLetters(vs: seq<nat>)
    requires AreDigits(vs, 64)
    ensures DigitsOf(Letters(vs)) == Some(vs)
  {
    if |vs| > 0 {
      var front := vs[..|vs| - 1];
      DigitsOfLetters(front);
      assert Letters(vs)[..|vs| - 1] == Letters(front);
      assert vs == front + [vs[|vs| - 1]];
    }
  }

  lemma {:induction false} UnpaddedOf(s: bytes, pads: bytes)
    requires |s| > 0 ==> s[|s| - 1] != PAD
    requires forall i | 0 <= i < |pads| :: pads[i] == PAD
    ensures Unpadded(s + pads) == s
    decreases |pads|
  {
    if |pads| == 0 {
      assert s + pads == s;
    } else {
      assert (s + pads)[..|s + pads| - 1] == s + pads[..|pads| - 1];
      UnpaddedOf(s, pads[..|pads| - 1]);
    }
  }

  /** Decoding accepts exactly the encodings. */
  lemma DecodeIffEncode(s: bytes, b: bytes)
    ensures Decode(s) == Some(b) <==> s == Encode(b)
  {
    if s == Encode(b) {
      var vs := BitCodec.Encode(b, 6);
      UnpaddedOf(Letters(vs), Padding(|vs|));
      DigitsOfLetters(vs);
      BitCodec.DecodeEncode(b, 6);
    }
  }

  /** The characters of an encoding. */
  predicate IsText(c: byte) {
    DigitOf(c).Some? || c == PAD
  }

  lemma EncodingIsText(b: bytes, i: nat)
    requires i < |Encode(b)|
    ensures IsText(Encode(b)[i])
  {
  }
}
