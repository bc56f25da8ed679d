/** The pivman objects: ADMIN DATA (flags, salt, timestamp) and PRINTED (the stored key). */
module Pivman {
  import opened Wrappers
  import opened Radix
  import opened Sequences
  import opened Tlv

  datatype InvalidResponse = InvalidResponse

  /** What ADMIN DATA says about how the management key is kept. */
  datatype PivmanData = PivmanData(flags: Option<byte>, salt: Option<bytes>, pinTimestamp: Option<nat>) {

    /** Bit 0 of the flags: the PUK is claimed to be blocked. */
    predicate PukBlocked() {
      flags.Some? && Bit(flags.value, 1)
    }

    /** Bit 1 of the flags: the management key is stored on the device. */
    predicate HasStoredKey() {
      flags.Some? && Bit(flags.value, 2)
    }

    /** Setting creates the flags, clearing never does. */
    function SetFlag(mask: byte, value: bool): PivmanData
      requires mask == 1 || mask == 2
    {
      if value then
        var f := if flags.Some? then flags.value else 0;
        this.(flags := Some(if Bit(f, mask) then f else f + mask))
      else if flags.Some? then
        this.(flags := Some(if Bit(flags.value, mask) then flags.value - mask else flags.value))
      else this
    }

    function SetStoredKey(value: bool): PivmanData {
      SetFlag(2, value)
    }

    function SetPukBlocked(value: bool): PivmanData {
      SetFlag(1, value)
    }

    /** The size limits of the TLV writer. */
    predicate Encodable() {
      && (salt.Some? ==> |salt.value| < LENGTH_LIMIT - 64)
      && (pinTimestamp.Some? ==> pinTimestamp.value < LENGTH_LIMIT)
    }
  }

  const NOTHING := PivmanData(None, None, None)

  /** Bit `mask` (a power of two) of an octet. */
  predicate Bit(octet: byte, mask: nat)
    requires IsMask(mask)
  {
    if mask == 1 then octet % 2 == 1
    else if mask == 2 then octet / 2 % 2 == 1
    else HighBit(octet / 4, mask)
  }

  /** Bit `mask` given the upper six bits. */
  predicate HighBit(upper: nat, mask: nat) {
    var shifted :=
      if mask == 4 then upper
      else if mask == 8 then upper / 2
      else if mask == 16 then upper / 4
      else if mask == 32 then upper / 8
      else if mask == 64 then upper / 16
      else upper / 32;
    shifted % 2 == 1
  }

  predicate IsMask(mask: nat) {
    mask in {1, 2, 4, 8, 16, 32, 64, 128}
  }

  /** A setter changes its own bit and no other part of the data. */
  lemma SetFlagChangesOneBit(d: PivmanData, mask: byte, value: bool, other: nat)
    requires mask == 1 || mask == 2
    requires IsMask(other)
    ensures var d' := d.SetFlag(mask, value);
            && d'.salt == d.salt && d'.pinTimestamp == d.pinTimestamp
            && (d'.flags.Some? && Bit(d'.flags.value, mask) <==> value)
            && (other != mask ==>
                  (d'.flags.Some? && Bit(d'.flags.value, other) <==> d.flags.Some? && Bit(d.flags.value, other)))
  {
    if d.flags.Some? {
      OneBit(d.flags.value, mask, other);
    }
  }

  /** Adding or removing bit 1 or 2 leaves every other bit as it was. */
  lemma OneBit(f: byte, mask: byte, other: nat)
    requires (mask == 1 || mask == 2) && IsMask(other)
    ensures !Bit(f, mask) ==> f + mask < 256 && Bit(f + mask, mask)
    ensures Bit(f, mask) ==> f - mask >= 0 && !Bit(f - mask, mask)
    ensures !Bit(f, mask) && other != mask ==> (Bit(f + mask, other) <==> Bit(f, other))
    ensures Bit(f, mask) && other != mask ==> (Bit(f - mask, other) <==> Bit(f, other))
  {
    LowBits(f, mask);
  }

  lemma LowBits(f: byte, mask: byte)
    requires mask == 1 || mask == 2
    ensures f / mask % 2 == 0 ==> (f + mask) / 4 == f / 4 && (f + mask) / mask % 2 == 1
    ensures f / mask % 2 == 1 ==> (f - mask) / 4 == f / 4 && (f - mask) / mask % 2 == 0
    ensures mask == 1 && f % 2 == 0 ==> (f + 1) / 2 == f / 2
    ensures mask == 1 && f % 2 == 1 ==> (f - 1) / 2 == f / 2
    ensures mask == 2 ==> (f + 2) % 2 == f % 2 == (f - 2) % 2
  {
    if mask == 1 {
      LowestBit(f);
    } else {
      SecondBit(f);
    }
  }

  lemma LowestBit(f: byte)
    ensures f % 2 == 0 ==> (f + 1) / 4 == f / 4 && (f + 1) % 2 == 1 && (f + 1) / 2 == f / 2
    ensures f % 2 == 1 ==> (f - 1) / 4 == f / 4 && (f - 1) % 2 == 0 && (f - 1) / 2 == f / 2
  {
  }

  lemma SecondBit(f: byte)
    ensures f / 2 % 2 == 0 ==> (f + 2) / 4 == f / 4 && (f + 2) / 2 % 2 == 1
    ensures f / 2 % 2 == 1 ==> (f - 2) / 4 == f / 4 && (f - 2) / 2 % 2 == 0
    ensures (f + 2) % 2 == f % 2 == (f - 2) % 2
  {
    assert f == 4 * (f / 4) + 2 * (f / 2 % 2) + f % 2;
  }

  // --- ADMIN DATA ------------------------------------------------------------

  /** The fields of `d` in the order they are written. */
  function Fields(d: PivmanData): (fs: seq<Field>)
    requires d.Encodable()
    ensures forall i | 0 <= i < |fs| :: Tlv.Encodable(fs[i])
  {
    (if d.flags.Some? then [Field(0x81, [d.flags.value])] else [])
    + (if d.salt.Some? then [Field(0x82, d.salt.value)] else [])
    + (if d.pinTimestamp.Some? then [Field(0x83, Be(d.pinTimestamp.value, 4))] else [])
  }

  function Wrap(tag: byte, inner: bytes): bytes
    requires IsLowTag(tag) && |inner| < LENGTH_LIMIT
  {
    Encode(Field(tag, inner))
  }

  /** Nothing configured is the empty value, which deletes the object. */
  function ToValue(d: PivmanData): bytes
    requires d.Encodable()
  {
    InnerFits(d);
    var inner := EncodeAll(Fields(d));
    if |inner| == 0 then [] else Wrap(0x80, inner)
  }

  lemma InnerFits(d: PivmanData)
    requires d.Encodable()
    ensures |EncodeAll(Fields(d))| <= 30 + if d.salt.Some? then |d.salt.value| else 0
    ensures |EncodeAll(Fields(d))| < LENGTH_LIMIT
  {
    var fs := Fields(d);
    FewFieldsFit(fs, if d.salt.Some? then |d.salt.value| else 0);
  }

  lemma EncodedSize(f: Field)
    requires Tlv.Encodable(f)
    ensures |Encode(f)| <= 6 + |f.value|
  {
  }

  /** All fields but the salt have at most four octets. */
  lemma {:induction false} FewFieldsFit(fs: seq<Field>, salt: nat)
    requires forall i | 0 <= i < |fs| :: Tlv.Encodable(fs[i])
    requires forall i | 0 <= i < |fs| :: fs[i].tag != 0x82 ==> |fs[i].value| <= 4
    requires forall i | 0 <= i < |fs| :: fs[i].tag == 0x82 ==> |fs[i].value| == salt
    requires forall i, j | 0 <= i < j < |fs| :: fs[i].tag == 0x82 ==> fs[j].tag != 0x82
    ensures |EncodeAll(fs)| <= 10 * |fs| + if exists i :: 0 <= i < |fs| && fs[i].tag == 0x82 then salt else 0
  {
    if |fs| > 0 {
      EncodedSize(fs[0]);
      FewFieldsFit(fs[1..], salt);
      assert (exists i :: 0 <= i < |fs[1..]| && fs[1..][i].tag == 0x82)
        ==> fs[0].tag != 0x82 && exists i :: 0 <= i < |fs| && fs[i].tag == 0x82;
    }
  }

  /** Encoded data is barely larger than its salt. */
  lemma ValueSize(d: PivmanData)
    requires d.Encodable()
    ensures |ToValue(d)| <= 36 + if d.salt.Some? then |d.salt.value| else 0
  {
    InnerFits(d);
    if |EncodeAll(Fields(d))| > 0 {
      EncodedSize(Field(0x80, EncodeAll(Fields(d))));
    }
  }

  /** Takes one field into the data read so far; a repeated or malformed field is refused. */
  function Take(d: PivmanData, f: Field): Option<PivmanData> {
    if f.tag == 0x81 && d.flags.None? && |f.value| == 1 then Some(d.(flags := Some(f.value[0])))
    else if f.tag == 0x82 && d.salt.None? then Some(d.(salt := Some(f.value)))
    else if f.tag == 0x83 && d.pinTimestamp.None? && |f.value| == 4 then
      Some(d.(pinTimestamp := Some(FromBe(f.value))))
    else None
  }

  function TakeAll(d: PivmanData, fs: seq<Field>): Option<PivmanData>
    decreases |fs|
  {
    if |fs| == 0 then Some(d)
    else
      match Take(d, fs[0])
      case None => None
      case Some(d') => TakeAll(d', fs[1..])
  }

  /** The inner elements, one after the other. */
  function ReadFields(d: PivmanData, s: bytes): Option<PivmanData>
    decreases |s|
  {
    if |s| == 0 then Some(d)
    else
      match Read(s)
      case None => None
      case Some((f, rest)) =>
        match Take(d, f)
        case None => None
        case Some(d') => ReadFields(d', rest)
  }

  /** The single outer element of an object value. */
  function Unwrap(tag: byte, value: bytes): Option<bytes> {
    match Read(value)
    case None => None
    case Some((outer, rest)) => if outer.tag != tag || |rest| > 0 then None else Some(outer.value)
  }

  function FromValue(value: bytes): Option<PivmanData> {
    if |value| == 0 then Some(NOTHING)
    else
      match Unwrap(0x80, value)
      case None => None
      case Some(inner) => ReadFields(NOTHING, inner)
  }

  /** Parse an ADMIN DATA value, field by field. */
  method ParseValue(value: bytes) returns (r: Result<PivmanData, InvalidResponse>)
    ensures r.ToOption() == FromValue(value)
  {
    if |value| == 0 {
      return Success(NOTHING);
    }
    var outer := Read(value);
    if outer.None? || outer.value.0.tag != 0x80 || |outer.value.1| > 0 {
      return Failure(InvalidResponse);
    }
    var data, inner := NOTHING, outer.value.0.value;
    while |inner| > 0
      invariant FromValue(value) == ReadFields(data, inner)
      decreases |inner|
    {
      var next := Read(inner);
      if next.None? {
        return Failure(InvalidResponse);
      }
      var (field, rest) := next.value;
      if field.tag == 0x81 && data.flags.None? && |field.value| == 1 {
        data := data.(flags := Some(field.value[0]));
      } else if field.tag == 0x82 && data.salt.None? {
        data := data.(salt := Some(field.value));
      } else if field.tag == 0x83 && data.pinTimestamp.None? && |field.value| == 4 {
        data := data.(pinTimestamp := Some(FromBe(field.value)));
      } else {
        return Failure(InvalidResponse);
      }
      inner := rest;
    }
    return Success(data);
  }

  lemma {:induction false} ReadEncodedFields(d: PivmanData, fs: seq<Field>)
    requires forall i | 0 <= i < |fs| :: Tlv.Encodable(fs[i])
    ensures ReadFields(d, EncodeAll(fs)) == TakeAll(d, fs)
    decreases |fs|
  {
    if |fs| > 0 {
      ReadEncoded(fs[0], EncodeAll(fs[1..]));
      match Take(d, fs[0])
      case None =>
      case Some(d') => ReadEncodedFields(d', fs[1..]);
    }
  }

  ghost predicate ShortTimestamp(d: PivmanData) {
    d.pinTimestamp.Some? ==> d.pinTimestamp.value < LENGTH_LIMIT
  }

  /** The fields of `d` without regard to order; not limited by size. */
  ghost function FlagsBag(flags: Option<byte>): multiset<Field> {
    if flags.Some? then multiset{Field(0x81, [flags.value])} else multiset{}
  }

  ghost function SaltBag(salt: Option<bytes>): multiset<Field> {
    if salt.Some? then multiset{Field(0x82, salt.value)} else multiset{}
  }

  ghost function TimeBag(time: Option<nat>): multiset<Field> {
    if time.Some? then multiset{Field(0x83, Be(time.value, 4))} else multiset{}
  }

  ghost function FieldBag(d: PivmanData): multiset<Field> {
    FlagsBag(d.flags) + SaltBag(d.salt) + TimeBag(d.pinTimestamp)
  }

  lemma FieldsAreBag(d: PivmanData)
    requires d.Encodable()
    ensures multiset(Fields(d)) == FieldBag(d)
  {
  }

  /** The fields of the one occur among those of the other, value by value. */
  lemma BagShowsFields(a: PivmanData, b: PivmanData)
    requires FieldBag(a) == FieldBag(b)
    ensures a.flags.Some? ==> b.flags == a.flags
    ensures a.salt.Some? ==> b.salt == a.salt
    ensures a.pinTimestamp.Some? ==>
              b.pinTimestamp.Some? && Be(b.pinTimestamp.value, 4) == Be(a.pinTimestamp.value, 4)
  {
    BagMembers(b);
    if a.flags.Some? { assert Field(0x81, [a.flags.value]) in FieldBag(a); }
    if a.salt.Some? { assert Field(0x82, a.salt.value) in FieldBag(a); }
    if a.pinTimestamp.Some? { assert Field(0x83, Be(a.pinTimestamp.value, 4)) in FieldBag(a); }
  }

  lemma BagDetermines(a: PivmanData, b: PivmanData)
    requires ShortTimestamp(a) && ShortTimestamp(b) && FieldBag(a) == FieldBag(b)
    ensures a == b
  {
    BagShowsFields(a, b);
    BagShowsFields(b, a);
    if a.pinTimestamp.Some? {
      OctetPowers();
      BeRoundTrip(a.pinTimestamp.value, 4);
      BeRoundTrip(b.pinTimestamp.value, 4);
    }
  }

  lemma OneMore<T>(x: T, a: multiset<T>, b: multiset<T>)
    ensures multiset{x} + a + b == multiset{} + a + b + multiset{x}
    ensures a + multiset{x} + b == a + multiset{} + b + multiset{x}
    ensures a + b + multiset{x} == a + b + multiset{} + multiset{x}
  {
  }

  lemma TakeAddsToBag(d: PivmanData, f: Field)
    requires ShortTimestamp(d) && Take(d, f).Some?
    ensures ShortTimestamp(Take(d, f).value)
    ensures FieldBag(Take(d, f).value) == FieldBag(d) + multiset{f}
  {
    var flags, salt, time := FlagsBag(d.flags), SaltBag(d.salt), TimeBag(d.pinTimestamp);
    if f.tag == 0x81 {
      assert FlagsBag(Some(f.value[0])) == multiset{f} && flags == multiset{} by {
        assert [f.value[0]] == f.value;
      }
      OneMore(f, salt, time);
    } else if f.tag == 0x82 {
      assert SaltBag(Some(f.value)) == multiset{f} && salt == multiset{};
      OneMore(f, flags, time);
    } else {
      TimestampBag(f.value);
      assert f == Field(0x83, f.value) && time == multiset{};
      OneMore(f, flags, salt);
    }
  }

  lemma TimestampBag(octets: bytes)
    requires |octets| == 4
    ensures FromBe(octets) < LENGTH_LIMIT && TimeBag(Some(FromBe(octets))) == multiset{Field(0x83, octets)}
  {
    OctetPowers();
    ValueBound(octets, 256);
    BeOfFromBe(octets);
  }

  lemma OnePerTag(d: PivmanData)
    ensures forall f :: FieldBag(d)[f] <= 1
    ensures forall f, g | f in FieldBag(d) && g in FieldBag(d) && f.tag == g.tag :: f == g
    ensures forall f | f in FieldBag(d) :: Take(NOTHING, f).Some?
  {
    BagMembers(d);
    forall f
      ensures FieldBag(d)[f] <= 1
    {
      OnceInBag(d, f);
    }
  }

  lemma BagMembers(d: PivmanData)
    ensures forall f | f in FieldBag(d) ::
              || (d.flags.Some? && f == Field(0x81, [d.flags.value]))
              || (d.salt.Some? && f == Field(0x82, d.salt.value))
              || (d.pinTimestamp.Some? && f == Field(0x83, Be(d.pinTimestamp.value, 4)))
  {
  }

  lemma OnceInBag(d: PivmanData, f: Field)
    ensures FieldBag(d)[f] <= 1
  {
  }

  lemma OtherTags(bag: multiset<Field>, f: Field, final: multiset<Field>)
    requires bag + multiset{f} <= final && final[f] <= 1
    requires forall g, h | g in final && h in final && g.tag == h.tag :: g == h
    ensures forall g | g in bag :: g.tag != f.tag
  {
    assert (bag + multiset{f})[f] <= 1;
    forall g | g in bag
      ensures g.tag != f.tag
    {
      assert g in bag + multiset{f} && f in bag + multiset{f};
    }
  }

  /** A field that some data with all of `d`'s fields also has can be taken. */
  lemma BagAllowsTake(d: PivmanData, f: Field, final: PivmanData)
    requires FieldBag(d) + multiset{f} <= FieldBag(final)
    ensures Take(d, f).Some?
  {
    OnePerTag(final);
    assert f in FieldBag(final) && Take(NOTHING, f).Some?;
    OtherTags(FieldBag(d), f, FieldBag(final));
    assert d.flags.Some? ==> Field(0x81, [d.flags.value]) in FieldBag(d);
    assert d.salt.Some? ==> Field(0x82, d.salt.value) in FieldBag(d);
    assert d.pinTimestamp.Some? ==> Field(0x83, Be(d.pinTimestamp.value, 4)) in FieldBag(d);
  }

  lemma {:induction false} TakeAllIffBag(d: PivmanData, fs: seq<Field>, final: PivmanData)
    requires ShortTimestamp(d) && ShortTimestamp(final)
    ensures TakeAll(d, fs) == Some(final) <==> FieldBag(d) + multiset(fs) == FieldBag(final)
    decreases |fs|
  {
    if |fs| == 0 {
      if FieldBag(d) == FieldBag(final) {
        BagDetermines(d, final);
      }
    } else {
      assert fs == [fs[0]] + fs[1..];
      assert FieldBag(d) + multiset(fs) == FieldBag(d) + multiset{fs[0]} + multiset(fs[1..]);
      if Take(d, fs[0]).Some? {
        TakeAddsToBag(d, fs[0]);
        TakeAllIffBag(Take(d, fs[0]).value, fs[1..], final);
      } else if FieldBag(d) + multiset(fs) == FieldBag(final) {
        BagAllowsTake(d, fs[0], final);
      }
    }
  }

  lemma FromWrapped(fs: seq<Field>)
    requires forall i | 0 <= i < |fs| :: Tlv.Encodable(fs[i])
    requires |EncodeAll(fs)| < LENGTH_LIMIT
    ensures FromValue(Wrap(0x80, EncodeAll(fs))) == TakeAll(NOTHING, fs)
  {
    var inner := EncodeAll(fs);
    ReadEncoded(Field(0x80, inner), []);
    assert Wrap(0x80, inner) + [] == Wrap(0x80, inner);
    ReadEncodedFields(NOTHING, fs);
  }

  /**
   An object value is accepted exactly when its fields are the fields of some
   data, each once, in any order.
   */
  lemma ParsesIffFieldsInSomeOrder(fs: seq<Field>, d: PivmanData)
    requires forall i | 0 <= i < |fs| :: Tlv.Encodable(fs[i])
    requires |EncodeAll(fs)| < LENGTH_LIMIT && d.Encodable()
    ensures FromValue(Wrap(0x80, EncodeAll(fs))) == Some(d) <==> multiset(fs) == multiset(Fields(d))
  {
    FromWrapped(fs);
    FieldsAreBag(d);
    TakeAllIffBag(NOTHING, fs, d);
  }

  /** Reading back what was written returns it. */
  lemma ValueRoundTrip(d: PivmanData)
    requires d.Encodable()
    ensures FromValue(ToValue(d)) == Some(d)
  {
    var fs := Fields(d);
    InnerFits(d);
    if |fs| == 0 {
      assert d == NOTHING;
    } else {
      assert EncodeAll(fs)[0] == fs[0].tag;
      ParsesIffFieldsInSomeOrder(fs, d);
    }
  }

  /** Values are compared encoded in place of the data; that loses nothing. */
  lemma ValueInjective(a: PivmanData, b: PivmanData)
    requires a.Encodable() && b.Encodable() && ToValue(a) == ToValue(b)
    ensures a == b
  {
    ValueRoundTrip(a);
    ValueRoundTrip(b);
  }

  lemma {:induction false} ReadFieldsBounds(d: PivmanData, s: bytes, bound: nat)
    requires |s| <= bound && ShortTimestamp(d) && (d.salt.Some? ==> |d.salt.value| <= bound)
    requires ReadFields(d, s).Some?
    ensures var r := ReadFields(d, s).value;
            ShortTimestamp(r) && (r.salt.Some? ==> |r.salt.value| <= bound)
    decreases |s|
  {
    if |s| > 0 {
      var (f, rest) := Read(s).value;
      OctetPowers();
      ValueBound(f.value, 256);
      ReadFieldsBounds(Take(d, f).value, rest, bound);
    }
  }

  /** Data read from an object of ordinary size can be written again. */
  lemma ParsedIsEncodable(value: bytes)
    requires |value| < LENGTH_LIMIT - 64 && FromValue(value).Some?
    ensures FromValue(value).value.Encodable()
  {
    if |value| > 0 {
      ReadFieldsBounds(NOTHING, Unwrap(0x80, value).value, |value|);
    }
  }

  // --- PRINTED ---------------------------------------------------------------

  /** The value of PRINTED: `88 { 89 key }`, or `88 {}` without one. */
  function ProtectedToValue(key: Option<bytes>): bytes
    requires key.Some? ==> |key.value| == 24
  {
    var inner := if key.Some? then Encode(Field(0x89, key.value)) else [];
    Wrap(0x88, inner)
  }

  /** `Some(None)` is a readable object that holds no key. */
  function ProtectedFromValue(value: bytes): (r: Option<Option<bytes>>)
    ensures r.Some? && r.value.Some? ==> |r.value.value| == 24
  {
    if |value| == 0 then Some(None)
    else
      match Unwrap(0x88, value)
      case None => None
      case Some(inner) =>
        if |inner| == 0 then Some(None)
        else
          match Unwrap(0x89, inner)
          case None => None
          case Some(key) => if |key| != 24 then None else Some(Some(key))
  }

  lemma ProtectedRoundTrip(key: Option<bytes>)
    requires key.Some? ==> |key.value| == 24
    ensures ProtectedFromValue(ProtectedToValue(key)) == Some(key)
  {
    var inner := if key.Some? then Encode(Field(0x89, key.value)) else [];
    ReadsWhole(Field(0x88, inner));
    if key.Some? {
      ReadsWhole(Field(0x89, key.value));
    }
  }

  lemma ReadsWhole(f: Field)
    requires Tlv.Encodable(f)
    ensures Tlv.Read(Encode(f)) == Some((f, []))
  {
    ReadEncoded(f, []);
    Empty(Encode(f));
  }
}
