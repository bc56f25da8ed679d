/** The PIV objects and the recovery file in octets. */
module PivOctets {
  import opened Wrappers
  import opened Radix
  import opened Sequences
  import opened Ascii
  import opened Tlv
  import opened PivCard
  import Pivman
  import PivRecovery

  /** The shortest definite length: one octet below 128, otherwise a count and the octets, the highest first. */
  lemma LengthLayout(n: nat)
    ensures n < 0x80 ==> EncodeLength(n) == [n]
    ensures 0x80 <= n < 0x100 ==> EncodeLength(n) == [0x81, n]
    ensures 0x100 <= n < 0x1_0000 ==> EncodeLength(n) == [0x82, n / 0x100, n % 0x100]
    ensures 0x1_0000 <= n < 0x100_0000 ==>
              EncodeLength(n) == [0x83, n / 0x1_0000, n / 0x100 % 0x100, n % 0x100]
    ensures 0x100_0000 <= n < 0x1_0000_0000 ==>
              EncodeLength(n) == [0x84, n / 0x100_0000, n / 0x1_0000 % 0x100, n / 0x100 % 0x100, n % 0x100]
  {
    if 0x80 <= n < 0x100 {
      OneOctet(n);
    } else if n < 0x1_0000 {
      TwoOctets(n);
    } else if n < 0x100_0000 {
      ThreeOctets(n);
    } else if n < 0x1_0000_0000 {
      FourOctets(n);
    }
  }

  /**
   Lengths as they are read: the shortest form is not required; the indefinite
   form and more than four octets are refused.
   */
  lemma LengthReads(first: byte, octets: bytes, rest: bytes)
    requires first < 0x80 ==> octets == []
    requires 0x81 <= first <= 0x84 ==> |octets| == first - 0x80
    ensures first < 0x80 ==> ReadLength([first] + octets + rest) == Some((first, 1))
    ensures 0x81 <= first <= 0x84 ==> ReadLength([first] + octets + rest) == Some((FromBe(octets), 1 + |octets|))
    ensures first == 0x80 || first > 0x84 ==> ReadLength([first] + octets + rest) == None
    ensures 0x81 <= first <= 0x84 && |rest| < |octets| ==> ReadLength([first] + rest) == None
    ensures ReadLength([]) == None
  {
    var s := [first] + octets + rest;
    assert s[0] == first && s[1..1 + |octets|] == octets;
    assert ([first] + rest)[0] == first;
  }

  lemma OneOctet(n: nat)
    requires n < 0x100
    ensures Be(n, 1) == [n]
  {
    assert Digits(n / 256, 256, 0) == [];
  }

  lemma TwoOctets(n: nat)
    requires n < 0x1_0000
    ensures Be(n, 2) == [n / 0x100, n % 0x100]
  {
    OneOctet(n / 256);
  }

  lemma ThreeOctets(n: nat)
    requires n < 0x100_0000
    ensures Be(n, 3) == [n / 0x1_0000, n / 0x100 % 0x100, n % 0x100]
  {
    TwoOctets(n / 256);
  }

  lemma DividedTwice(n: nat)
    ensures n / 0x100 / 0x100 == n / 0x1_0000 && n / 0x100 / 0x1_0000 == n / 0x100_0000
  {
  }

  lemma FourOctets(n: nat)
    requires n < 0x1_0000_0000
    ensures Be(n, 4) == [n / 0x100_0000, n / 0x1_0000 % 0x100, n / 0x100 % 0x100, n % 0x100]
  {
    ThreeOctets(n / 0x100);
    DividedTwice(n);
  }

  ghost function FlagsOctets(flags: Option<byte>): bytes {
    if flags.Some? then [0x81, 1, flags.value] else []
  }

  ghost function SaltOctets(salt: Option<bytes>): bytes
    requires salt.Some? ==> |salt.value| < 0x60
  {
    if salt.Some? then [0x82, |salt.value|] + salt.value else []
  }

  ghost function TimeOctets(time: Option<nat>): bytes
    requires time.Some? ==> time.value < 0x1_0000_0000
  {
    if time.None? then []
    else
      var t := time.value;
      [0x83, 4, t / 0x100_0000, t / 0x1_0000 % 0x100, t / 0x100 % 0x100, t % 0x100]
  }

  /** The inner elements of ADMIN DATA: 81 flags, 82 salt, 83 timestamp, in this order, each if there is one. */
  ghost function AdminFields(d: Pivman.PivmanData): bytes
    requires d.Encodable() && (d.salt.Some? ==> |d.salt.value| < 0x60)
  {
    FlagsOctets(d.flags) + SaltOctets(d.salt) + TimeOctets(d.pinTimestamp)
  }

  lemma EncodesShort(tag: byte, value: bytes)
    requires IsLowTag(tag) && |value| < 0x80
    ensures Encode(Field(tag, value)) == [tag, |value|] + value
  {
  }

  lemma FlagsEncode(flags: Option<byte>)
    ensures EncodeAll(if flags.Some? then [Field(0x81, [flags.value])] else []) == FlagsOctets(flags)
  {
    if flags.Some? {
      AtMostOne([Field(0x81, [flags.value])], 0x81, [flags.value]);
    }
  }

  lemma SaltEncodes(salt: Option<bytes>)
    requires salt.Some? ==> |salt.value| < 0x60
    ensures EncodeAll(if salt.Some? then [Field(0x82, salt.value)] else []) == SaltOctets(salt)
  {
    if salt.Some? {
      AtMostOne([Field(0x82, salt.value)], 0x82, salt.value);
    }
  }

  lemma TimeEncodes(time: Option<nat>)
    requires time.Some? ==> time.value < 0x1_0000_0000
    ensures EncodeAll(if time.Some? then [Field(0x83, Be(time.value, 4))] else []) == TimeOctets(time)
  {
    if time.Some? {
      FourOctets(time.value);
      AtMostOne([Field(0x83, Be(time.value, 4))], 0x83, Be(time.value, 4));
    }
  }

  lemma FieldsEncode(d: Pivman.PivmanData)
    requires d.Encodable() && (d.salt.Some? ==> |d.salt.value| < 0x60)
    ensures EncodeAll(Pivman.Fields(d)) == AdminFields(d)
  {
    var flags := if d.flags.Some? then [Field(0x81, [d.flags.value])] else [];
    var salt := if d.salt.Some? then [Field(0x82, d.salt.value)] else [];
    var time := if d.pinTimestamp.Some? then [Field(0x83, Be(d.pinTimestamp.value, 4))] else [];
    FlagsEncode(d.flags);
    SaltEncodes(d.salt);
    TimeEncodes(d.pinTimestamp);
    ThreeEncode(flags, salt, time);
    assert Pivman.Fields(d) == flags + salt + time;
  }

  lemma ThreeEncode(a: seq<Field>, b: seq<Field>, c: seq<Field>)
    requires forall i | 0 <= i < |a| :: Encodable(a[i])
    requires forall i | 0 <= i < |b| :: Encodable(b[i])
    requires forall i | 0 <= i < |c| :: Encodable(c[i])
    ensures forall i | 0 <= i < |a + b + c| :: Encodable((a + b + c)[i])
    ensures EncodeAll(a + b + c) == EncodeAll(a) + EncodeAll(b) + EncodeAll(c)
  {
    EncodeAllConcat(a, b);
    EncodeAllConcat(a + b, c);
  }

  lemma AtMostOne(fs: seq<Field>, tag: byte, value: bytes)
    requires IsLowTag(tag) && |value| < 0x80 && (fs == [] || fs == [Field(tag, value)])
    ensures EncodeAll(fs) == if fs == [] then [] else [tag, |value|] + value
  {
    EncodesShort(tag, value);
    assert [Field(tag, value)][1..] == [];
    Empty(Encode(Field(tag, value)));
  }

  lemma {:induction false} EncodeAllConcat(a: seq<Field>, b: seq<Field>)
    requires forall i | 0 <= i < |a| :: Encodable(a[i])
    requires forall i | 0 <= i < |b| :: Encodable(b[i])
    ensures EncodeAll(a + b) == EncodeAll(a) + EncodeAll(b)
  {
    if |a| == 0 {
      Empty(b);
      Empty(EncodeAll(b));
    } else {
      assert (a + b)[1..] == a[1..] + b;
      EncodeAllConcat(a[1..], b);
      Associate(Encode(a[0]), EncodeAll(a[1..]), EncodeAll(b));
    }
  }

  /** ADMIN DATA, written and read: nothing at all, or these elements in an 80. */
  lemma AdminLayout(d: Pivman.PivmanData)
    requires d.Encodable() && (d.salt.Some? ==> |d.salt.value| < 0x60)
    ensures var inner := AdminFields(d);
            var value := if inner == [] then [] else [0x80, |inner|] + inner;
            Pivman.ToValue(d) == value && Pivman.FromValue(value) == Some(d)
  {
    FieldsEncode(d);
    if |AdminFields(d)| > 0 {
      EncodesShort(0x80, AdminFields(d));
    }
    Pivman.ValueRoundTrip(d);
  }

  /** Bit 0 of the flags claims a blocked PUK, bit 1 a stored key. */
  lemma FlagBits(d: Pivman.PivmanData)
    ensures d.PukBlocked() <==> d.flags.Some? && d.flags.value % 2 == 1
    ensures d.HasStoredKey() <==> d.flags.Some? && d.flags.value / 2 % 2 == 1
  {
  }

  /** PRINTED with and without a key. */
  lemma PrintedLayout(key: bytes)
    requires |key| == 24
    ensures Pivman.ProtectedToValue(Some(key)) == [0x88, 26, 0x89, 24] + key
    ensures Pivman.ProtectedToValue(None) == [0x88, 0]
    ensures Pivman.ProtectedFromValue([0x88, 26, 0x89, 24] + key) == Some(Some(key))
    ensures Pivman.ProtectedFromValue([0x88, 0]) == Some(None) && Pivman.ProtectedFromValue([]) == Some(None)
  {
    EncodesShort(0x89, key);
    EncodesShort(0x88, [0x89, 24] + key);
    EncodesShort(0x88, []);
    Associate([0x88, 26], [0x89, 24], key);
    Pivman.ProtectedRoundTrip(Some(key));
    Pivman.ProtectedRoundTrip(None);
  }

  /** The recovery file names the algorithm, says yes or no in words, and spells the key in hexadecimal. */
  lemma RecoveryText(w: PivRecovery.Wording, n: PivRecovery.Note)
    ensures PivRecovery.Text(w, n)
         == w.intro + (OfString(match n.key.algorithm case Tdes => "tdes" case Aes192 => "aes192")
            + (w.protect + (OfString(if n.protect then "true" else "false")
            + (w.touch + (OfString(if n.touch then "true" else "false")
            + (w.key + (Hex(n.key.material) + w.outro)))))))
  {
    assert OfString("tdes") == [0x74, 0x64, 0x65, 0x73];
    assert OfString("aes192") == [0x61, 0x65, 0x73, 0x31, 0x39, 0x32];
    assert OfString("true") == [0x74, 0x72, 0x75, 0x65] && OfString("false") == [0x66, 0x61, 0x6c, 0x73, 0x65];
  }
}
