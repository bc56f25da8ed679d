/** BER-TLV with single-octet tags and definite lengths (section 8.1 of ITU-T X.690). */
module Tlv {
  import opened Wrappers
  import opened Radix
  import opened Sequences

  const LENGTH_LIMIT: nat := 0x1_0000_0000

  datatype Field = Field(tag: byte, value: bytes)

  /** Low-tag-number form; the tags in use here all are. */
  predicate IsLowTag(tag: byte) {
    tag % 32 != 31
  }

  predicate Encodable(f: Field) {
    IsLowTag(f.tag) && |f.value| < LENGTH_LIMIT
  }

  /** Octets after the first in the minimal encoding of a length. */
  function LengthOctets(n: nat): nat {
    if n < 0x80 then 0
    else if n < 0x100 then 1
    else if n < 0x1_0000 then 2
    else if n < 0x100_0000 then 3
    else 4
  }

  function EncodeLength(n: nat): bytes
    requires n < LENGTH_LIMIT
  {
    var k := LengthOctets(n);
    if k == 0 then [n] else [0x80 + k] + Be(n, k)
  }

  function Encode(f: Field): bytes
    requires Encodable(f)
  {
    [f.tag] + EncodeLength(|f.value|) + f.value
  }

  /** The length at the head of `s` and the octets it takes; the indefinite form is refused. */
  function ReadLength(s: bytes): (r: Option<(nat, nat)>)
    ensures r.Some? ==> 0 < r.value.1 <= |s|
  {
    if |s| == 0 then None
    else if s[0] < 0x80 then Some((s[0], 1))
    else if 0x81 <= s[0] <= 0x84 && |s| > s[0] - 0x80 then
      var k := s[0] - 0x80;
      Some((FromBe(s[1..1 + k]), 1 + k))
    else None
  }

  /** The first element of `s` and what follows it. */
  function Read(s: bytes): (r: Option<(Field, bytes)>)
    ensures r.Some? ==> |r.value.1| < |s| && |r.value.0.value| < |s|
  {
    if |s| == 0 || !IsLowTag(s[0]) then None
    else
      match ReadLength(s[1..])
      case None => None
      case Some((length, header)) =>
        var body := s[1 + header..];
        if |body| < length then None else Some((Field(s[0], body[..length]), body[length..]))
  }

  lemma ReadEncodedLength(n: nat, rest: bytes)
    requires n < LENGTH_LIMIT
    ensures ReadLength(EncodeLength(n) + rest) == Some((n, |EncodeLength(n)|))
  {
    var k := LengthOctets(n);
    var s := EncodeLength(n) + rest;
    if k > 0 {
      OctetPowers();
      BeRoundTrip(n, k);
      assert s[0] == 0x80 + k && s[1..1 + k] == Be(n, k);
    }
  }

  /** Reading undoes encoding and leaves what follows. */
  lemma ReadEncoded(f: Field, rest: bytes)
    requires Encodable(f)
    ensures Read(Encode(f) + rest) == Some((f, rest))
  {
    var s, length := Encode(f) + rest, EncodeLength(|f.value|);
    ReadEncodedLength(|f.value|, f.value + rest);
    Header(f.tag, length, f.value, rest);
    TakeDrop(f.value, rest);
  }

  lemma Header(tag: byte, length: bytes, value: bytes, rest: bytes)
    ensures var s := [tag] + length + value + rest;
            s[0] == tag && s[1..] == length + (value + rest) && s[1 + |length|..] == value + rest
  {
  }

  function EncodeAll(fs: seq<Field>): bytes
    requires forall i | 0 <= i < |fs| :: Encodable(fs[i])
  {
    if |fs| == 0 then [] else Encode(fs[0]) + EncodeAll(fs[1..])
  }
}
