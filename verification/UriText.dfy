/** Text handling for URIs, on UTF-8 octets: trimming, splitting, percent-encoding. */
module UriText {
  import opened Wrappers
  import opened Radix
  import opened Ascii

  /** Validity of UTF-8 is a parameter: nothing here depends on which octets are valid. */
  type Utf8 = bytes -> bool

  // --- Splitting ---------------------------------------------------------------

  /** The first position of `c`, or the length. */
  function IndexOf(s: bytes, c: byte): (i: nat)
    ensures i <= |s| && (i < |s| ==> s[i] == c) && c !in s[..i]
  {
    if |s| == 0 || s[0] == c then 0
    else
      var i := 1 + IndexOf(s[1..], c);
      assert s[..i] == [s[0]] + s[1..][..i - 1];
      i
  }

  function SplitOnce(s: bytes, c: byte): Option<(bytes, bytes)> {
    var i := IndexOf(s, c);
    if i < |s| then Some((s[..i], s[i + 1..])) else None
  }

  lemma {:induction false} IndexOfJoined(a: bytes, c: byte, b: bytes)
    requires c !in a
    ensures IndexOf(a + [c] + b, c) == |a|
  {
    if |a| > 0 {
      assert (a + [c] + b)[1..] == a[1..] + [c] + b;
      IndexOfJoined(a[1..], c, b);
    }
  }

  lemma SplitOnceJoined(a: bytes, c: byte, b: bytes)
    requires c !in a
    ensures SplitOnce(a + [c] + b, c) == Some((a, b))
  {
    IndexOfJoined(a, c, b);
    assert (a + [c] + b)[..|a|] == a && (a + [c] + b)[|a| + 1..] == b;
  }

  lemma NotSplit(a: bytes, c: byte)
    requires c !in a
    ensures SplitOnce(a, c) == None
  {
  }

  lemma SplitsAt(s: bytes, c: byte)
    requires SplitOnce(s, c).Some?
    ensures s == SplitOnce(s, c).value.0 + [c] + SplitOnce(s, c).value.1
  {
  }

  function Split(s: bytes, c: byte): (parts: seq<bytes>)
    ensures |parts| > 0
    decreases |s|
  {
    match SplitOnce(s, c)
    case None => [s]
    case Some((head, tail)) => [head] + Split(tail, c)
  }

  function Join(parts: seq<bytes>, c: byte): bytes
    requires |parts| > 0
  {
    if |parts| == 1 then parts[0] else parts[0] + [c] + Join(parts[1..], c)
  }

  lemma {:induction false} SplitJoined(parts: seq<bytes>, c: byte)
    requires |parts| > 0 && forall i | 0 <= i < |parts| :: c !in parts[i]
    ensures Split(Join(parts, c), c) == parts
  {
    if |parts| == 1 {
      NotSplit(parts[0], c);
    } else {
      SplitOnceJoined(parts[0], c, Join(parts[1..], c));
      SplitJoined(parts[1..], c);
    }
  }

  // --- Trimming ----------------------------------------------------------------

  /** The UTF-8 encoding of one character with the Unicode White_Space property. */
  predicate IsSpace(c: bytes) {
    if |c| == 1 then 0x09 <= c[0] <= 0x0d || c[0] == 0x20
    else if |c| == 2 then c[0] == 0xc2 && (c[1] == 0x85 || c[1] == 0xa0)
    else if |c| == 3 then
      || c == [0xe1, 0x9a, 0x80]
      || (c[0] == 0xe2 && c[1] == 0x80 && (0x80 <= c[2] <= 0x8a || c[2] == 0xa8 || c[2] == 0xa9 || c[2] == 0xaf))
      || c == [0xe2, 0x81, 0x9f]
      || c == [0xe3, 0x80, 0x80]
    else false
  }

  predicate EndsInSpace(s: bytes, n: nat) {
    n <= |s| && IsSpace(s[|s| - n..])
  }

  predicate StartsWithSpace(s: bytes, n: nat) {
    n <= |s| && IsSpace(s[..n])
  }

  /** Octets of the white space character that ends `s`, if one does. */
  function SpaceAtEnd(s: bytes): (n: nat)
    ensures n <= |s|
  {
    if EndsInSpace(s, 1) then 1 else if EndsInSpace(s, 2) then 2 else if EndsInSpace(s, 3) then 3 else 0
  }

  /** Octets of the white space character that begins `s`, if one does. */
  function SpaceAtStart(s: bytes): (n: nat)
    ensures n <= |s|
  {
    if StartsWithSpace(s, 1) then 1 else if StartsWithSpace(s, 2) then 2 else if StartsWithSpace(s, 3) then 3 else 0
  }

  /** Drops what `tail` measures off the end for as long as it measures anything. */
  function DropTails(s: bytes, tail: bytes -> nat): bytes
    decreases |s|
  {
    var n := tail(s);
    if n == 0 || n > |s| then s else DropTails(s[..|s| - n], tail)
  }

  function TrimEnd(s: bytes): bytes {
    DropTails(s, SpaceAtEnd)
  }

  function TrimStart(s: bytes): bytes
    decreases |s|
  {
    var n := SpaceAtStart(s);
    if n == 0 then s else TrimStart(s[n..])
  }

  function Trim(s: bytes): bytes {
    TrimEnd(TrimStart(s))
  }

  /** Octets that are part of no white space character. */
  predicate NeverSpace(c: byte) {
    0x21 <= c < 0x7f
  }

  lemma NeverInSpace(c: bytes, i: nat)
    requires IsSpace(c) && i < |c|
    ensures !NeverSpace(c[i])
  {
  }

  lemma EndsAlike(prefix: bytes, c: byte, s: bytes, n: nat)
    requires NeverSpace(c)
    ensures EndsInSpace(prefix + [c] + s, n) <==> EndsInSpace(s, n)
  {
    var whole := prefix + [c] + s;
    if n <= |s| {
      assert whole[|whole| - n..] == s[|s| - n..];
    } else if EndsInSpace(whole, n) {
      assert whole[|whole| - n..][n - |s| - 1] == c;
      NeverInSpace(whole[|whole| - n..], n - |s| - 1);
    }
  }

  lemma TakeOfAppend(a: bytes, b: bytes, n: nat)
    requires n <= |b|
    ensures (a + b)[..|a + b| - n] == a + b[..|b| - n]
  {
  }

  lemma SpaceStopsAt(prefix: bytes, c: byte, s: bytes)
    requires NeverSpace(c)
    ensures SpaceAtEnd(prefix + [c] + s) == SpaceAtEnd(s)
  {
    EndsAlike(prefix, c, s, 1);
    EndsAlike(prefix, c, s, 2);
    EndsAlike(prefix, c, s, 3);
  }

  lemma {:induction false} DropTailsStopsAt(prefix: bytes, s: bytes, tail: bytes -> nat)
    requires forall x :: tail(prefix + x) == tail(x) <= |x|
    ensures DropTails(prefix + s, tail) == prefix + DropTails(s, tail)
    decreases |s|
  {
    var n := tail(s);
    assert tail(prefix + s) == n <= |s|;
    if n > 0 {
      TakeOfAppend(prefix, s, n);
      DropTailsStopsAt(prefix, s[..|s| - n], tail);
    }
  }

  /** Trimming never reaches past an octet that is no part of white space. */
  lemma TrimEndStopsAt(prefix: bytes, c: byte, s: bytes)
    requires NeverSpace(c)
    ensures TrimEnd(prefix + [c] + s) == prefix + [c] + TrimEnd(s)
  {
    forall x
      ensures SpaceAtEnd(prefix + [c] + x) == SpaceAtEnd(x) <= |x|
    {
      SpaceStopsAt(prefix, c, x);
    }
    DropTailsStopsAt(prefix + [c], s, SpaceAtEnd);
  }

  lemma {:induction false} DropTailsIsPrefix(s: bytes, tail: bytes -> nat)
    ensures DropTails(s, tail) <= s
    decreases |s|
  {
    var n := tail(s);
    if 0 < n <= |s| {
      DropTailsIsPrefix(s[..|s| - n], tail);
    }
  }

  lemma TrimEndIsPrefix(s: bytes)
    ensures TrimEnd(s) <= s
  {
    DropTailsIsPrefix(s, SpaceAtEnd);
  }

  // --- Percent-encoding (section 2.1 of RFC 3986) --------------------------------

  const PERCENT: byte := 0x25

  function Prefixed(front: bytes, rest: Option<bytes>): Option<bytes> {
    match rest
    case None => None
    case Some(octets) => Some(front + octets)
  }

  function Unescape(s: bytes): Option<bytes>
    decreases |s|
  {
    if |s| == 0 then Some([])
    else if s[0] == PERCENT then
      if |s| < 3 || HexDigit(s[1]) == None || HexDigit(s[2]) == None then None
      else Prefixed([16 * HexDigit(s[1]).value + HexDigit(s[2]).value], Unescape(s[3..]))
    else Prefixed([s[0]], Unescape(s[1..]))
  }

  function PercentDecode(utf8: Utf8, s: bytes): Option<bytes> {
    match Unescape(s)
    case None => None
    case Some(octets) => if utf8(octets) then Some(octets) else None
  }

  /** `raw` writes the octets, each literally or as a percent-encoded triplet in either case. */
  ghost predicate Encodes(raw: bytes, octets: bytes)
    decreases |raw|
  {
    if |octets| == 0 then |raw| == 0
    else
      || (|raw| >= 1 && raw[0] != PERCENT && raw[0] == octets[0] && Encodes(raw[1..], octets[1..]))
      || (|raw| >= 3 && raw[0] == PERCENT
          && HexDigit(raw[1]) == Some(octets[0] / 16) && HexDigit(raw[2]) == Some(octets[0] % 16)
          && Encodes(raw[3..], octets[1..]))
  }

  lemma {:induction false} UnescapeIffEncodes(raw: bytes, octets: bytes)
    ensures Unescape(raw) == Some(octets) <==> Encodes(raw, octets)
    decreases |raw|
  {
    if |raw| > 0 {
      var step := if raw[0] == PERCENT then 3 else 1;
      if step <= |raw| {
        if |octets| > 0 {
          UnescapeIffEncodes(raw[step..], octets[1..]);
          assert octets == [octets[0]] + octets[1..];
        }
        if Unescape(raw) == Some(octets) {
          assert octets[1..] == Unescape(raw[step..]).value;
        }
      }
    }
  }

  /** Decoding accepts exactly the encodings of valid text, and returns the text. */
  lemma DecodesIffEncodes(utf8: Utf8, raw: bytes, octets: bytes)
    ensures PercentDecode(utf8, raw) == Some(octets) <==> Encodes(raw, octets) && utf8(octets)
  {
    UnescapeIffEncodes(raw, octets);
  }

  lemma PrefixedTwice(front: bytes, octet: byte, rest: Option<bytes>)
    ensures Prefixed(front, Prefixed([octet], rest)) == Prefixed(front + [octet], rest)
    ensures Prefixed([], rest) == rest
  {
    if rest.Some? {
      assert front + ([octet] + rest.value) == front + [octet] + rest.value;
      assert [] + rest.value == rest.value;
    }
  }

  lemma UnescapeAt(input: bytes, index: nat, output: bytes)
    requires index < |input|
    ensures input[index] != PERCENT ==>
              Prefixed(output, Unescape(input[index..]))
              == Prefixed(output + [input[index]], Unescape(input[index + 1..]))
    ensures input[index] == PERCENT && index + 2 < |input| ==>
              var high, low := HexDigit(input[index + 1]), HexDigit(input[index + 2]);
              Prefixed(output, Unescape(input[index..]))
              == if high.None? || low.None? then None
                 else Prefixed(output + [16 * high.value + low.value], Unescape(input[index + 3..]))
    ensures input[index] == PERCENT && index + 2 >= |input| ==> Unescape(input[index..]) == None
  {
    var here := input[index..];
    if input[index] != PERCENT {
      assert here[1..] == input[index + 1..];
      PrefixedTwice(output, input[index], Unescape(here[1..]));
    } else if index + 2 < |input| && HexDigit(here[1]).Some? && HexDigit(here[2]).Some? {
      assert here[3..] == input[index + 3..];
      PrefixedTwice(output, 16 * HexDigit(here[1]).value + HexDigit(here[2]).value, Unescape(here[3..]));
    }
  }

  /** Percent-decoding as it is computed, octet by octet. */
  method DecodePercent(utf8: Utf8, input: bytes) returns (r: Option<bytes>)
    ensures r == PercentDecode(utf8, input)
  {
    var output: bytes, index := [], 0;
    assert input[0..] == input;
    PrefixedTwice([], 0, Unescape(input));
    while index < |input|
      invariant 0 <= index <= |input|
      invariant Unescape(input) == Prefixed(output, Unescape(input[index..]))
    {
      UnescapeAt(input, index, output);
      if input[index] == PERCENT {
        if index + 2 >= |input| {
          return None;
        }
        var high, low := HexDigit(input[index + 1]), HexDigit(input[index + 2]);
        if high.None? || low.None? {
          return None;
        }
        output := output + [16 * high.value + low.value];
        index := index + 3;
      } else {
        output := output + [input[index]];
        index := index + 1;
      }
    }
    assert input[index..] == [] && output + [] == output;
    return if utf8(output) then Some(output) else None;
  }
}
