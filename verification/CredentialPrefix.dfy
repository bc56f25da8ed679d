/** Shortened credential identifiers: what is shown selects exactly the credential it was shown for. */
module CredentialPrefix {
  import opened Wrappers
  import opened Radix
  import opened Ascii

  const DOTS: bytes := [0x2e, 0x2e, 0x2e]

  /** The first `len` octets of an identifier, or all of a shorter one. */
  function Prefix(id: bytes, len: nat): bytes {
    if |id| >= len then id[..len] else id
  }

  function Shortened(ids: seq<bytes>, len: nat): (s: seq<bytes>)
    ensures |s| == |ids|
  {
    seq(|ids|, i requires 0 <= i < |ids| => Prefix(ids[i], len))
  }

  function Elements<T(==)>(s: seq<T>): set<T> {
    set x | x in s
  }

  ghost predicate NoDuplicates<T>(s: seq<T>) {
    forall i, j | 0 <= i < j < |s| :: s[i] != s[j]
  }

  /** As many elements as positions means no element occurs twice. */
  lemma {:induction false} CountIffNoDuplicates<T>(s: seq<T>)
    ensures |Elements(s)| <= |s|
    ensures |Elements(s)| == |s| <==> NoDuplicates(s)
  {
    if |s| > 0 {
      var front, last := s[..|s| - 1], s[|s| - 1];
      CountIffNoDuplicates(front);
      assert s == front + [last];
      assert Elements(s) == Elements(front) + {last};
      NoDuplicatesSnoc(front, last);
    }
  }

  lemma NoDuplicatesSnoc<T>(front: seq<T>, last: T)
    ensures NoDuplicates(front + [last]) <==> NoDuplicates(front) && last !in front
  {
    var s := front + [last];
    if NoDuplicates(s) {
      forall i, j | 0 <= i < j < |front|
        ensures front[i] != front[j]
      {
        assert s[i] != s[j];
      }
      forall i | 0 <= i < |front|
        ensures front[i] != last
      {
        assert s[i] != s[|front|];
      }
    }
  }

  ghost predicate Distinct(ids: seq<bytes>, len: nat) {
    forall i, j | 0 <= i < j < |ids| :: Prefix(ids[i], len) != Prefix(ids[j], len)
  }

  function Prefixes(ids: seq<bytes>, len: nat): set<bytes> {
    Elements(Shortened(ids, len))
  }

  /** As many prefixes as identifiers means no two prefixes are equal. */
  lemma CountIffDistinct(ids: seq<bytes>, len: nat)
    ensures |Prefixes(ids, len)| < |ids| <==> !Distinct(ids, len)
  {
    var s := Shortened(ids, len);
    CountIffNoDuplicates(s);
    if NoDuplicates(s) {
      forall i, j | 0 <= i < j < |ids|
        ensures Prefix(ids[i], len) != Prefix(ids[j], len)
      {
        assert s[i] != s[j];
      }
    }
  }

  /** The length shown: the least from 4 that tells all identifiers apart, and 64 when none below does. */
  ghost predicate IsShownLength(ids: seq<bytes>, len: nat) {
    4 <= len <= 64 && (len < 64 ==> Distinct(ids, len)) && NoneDistinct(ids, len)
  }

  ghost predicate NoneDistinct(ids: seq<bytes>, len: nat) {
    forall k | 4 <= k < len :: !Distinct(ids, k)
  }

  predicate Collides(ids: seq<bytes>, len: nat) {
    |Prefixes(ids, len)| < |ids|
  }

  /** What the loop has found out below `len`, and what its guard says at `len`. */
  ghost predicate Searched(ids: seq<bytes>, len: nat) {
    NoneDistinct(ids, len) && (Collides(ids, len) <==> !Distinct(ids, len))
  }

  lemma SearchStarts(ids: seq<bytes>)
    ensures Searched(ids, 4)
  {
    CountIffDistinct(ids, 4);
  }

  lemma SearchContinues(ids: seq<bytes>, len: nat)
    requires Searched(ids, len) && Collides(ids, len)
    ensures Searched(ids, len + 1)
  {
    CountIffDistinct(ids, len + 1);
    NoneSoFar(ids, len);
  }

  lemma NoneSoFar(ids: seq<bytes>, len: nat)
    requires NoneDistinct(ids, len) && !Distinct(ids, len)
    ensures NoneDistinct(ids, len + 1)
  {
  }

  method ShownLength(ids: seq<bytes>) returns (len: nat)
    ensures IsShownLength(ids, len)
  {
    len := 4;
    SearchStarts(ids);
    while len < 64 && Collides(ids, len)
      invariant 4 <= len <= 64 && Searched(ids, len)
    {
      SearchContinues(ids, len);
      len := len + 1;
    }
  }

  // --- Selecting -----------------------------------------------------------------------

  function Lower(c: byte): byte {
    if IsUpper(c) then c + 0x20 else c
  }

  /** A nonempty hexadecimal prefix, with or without the three dots, in lower case. */
  function Query(input: bytes): Option<bytes> {
    var query := Undotted(input);
    if |query| == 0 || exists i | 0 <= i < |query| :: HexDigit(query[i]).None? then None
    else Some(seq(|query|, i requires 0 <= i < |query| => Lower(query[i])))
  }

  /** The numbers below `n` that pass, in order. */
  function Where(hit: nat -> bool, n: nat): seq<nat> {
    if n == 0 then [] else Where(hit, n - 1) + (if hit(n - 1) then [n - 1] else [])
  }

  lemma {:induction false} WhereNone(hit: nat -> bool, n: nat)
    ensures Where(hit, n) == [] <==> forall k: nat | k < n :: !hit(k)
  {
    if n > 0 {
      WhereNone(hit, n - 1);
    }
  }

  ghost predicate Only(hit: nat -> bool, n: nat, i: nat) {
    i < n && hit(i) && forall k: nat | k < n && k != i :: !hit(k)
  }

  lemma SnocIs<T>(front: seq<T>, last: T, x: T)
    ensures front + [last] == [x] <==> front == [] && last == x
  {
    if front + [last] == [x] {
      assert |front + [last]| == 1;
      assert (front + [last])[0] == x;
    }
  }

  lemma {:induction false} WhereOne(hit: nat -> bool, n: nat, i: nat)
    ensures Where(hit, n) == [i] <==> Only(hit, n, i)
  {
    if n > 0 {
      WhereOne(hit, n - 1, i);
      WhereNone(hit, n - 1);
      if hit(n - 1) {
        SnocIs(Where(hit, n - 1), n - 1, i);
      }
    }
  }

  function Matcher(ids: seq<bytes>, query: bytes): nat -> bool {
    (k: nat) => k < |ids| && query <= Hex(ids[k])
  }

  /** The rows whose identifier begins with the query. */
  function Hits(ids: seq<bytes>, query: bytes): seq<nat> {
    Where(Matcher(ids, query), |ids|)
  }

  function Shown(id: bytes, len: nat): bytes {
    Hex(Prefix(id, len)) + DOTS
  }

  /** What is shown for row `i`, given back, selects that row and no other. */
  ghost predicate SelectsOwn(ids: seq<bytes>, len: nat, i: nat)
    requires i < |ids|
  {
    var query := Query(Shown(ids[i], len));
    query.Some? && Hits(ids, query.value) == [i]
  }

  lemma QueryOfShown(id: bytes, len: nat)
    requires len > 0
    ensures Query(Shown(id, len)) == if |id| == 0 then None else Some(Hex(Prefix(id, len)))
  {
    var h, s := Hex(Prefix(id, len)), Shown(id, len);
    assert s[|s| - 3..] == DOTS && s[..|s| - 3] == h;
    assert seq(|h|, i requires 0 <= i < |h| => Lower(h[i])) == h;
  }

  /** What may be typed: hexadecimal digits in either case, with three dots after them or not. */
  ghost predicate IsTyped(input: bytes, digits: bytes) {
    && |digits| > 0 && (forall i | 0 <= i < |digits| :: HexDigit(digits[i]).Some?)
    && (input == digits || input == digits + OfString("..."))
  }

  /** The same digits, `A` to `F` in lower case. */
  ghost predicate IsLowered(digits: bytes, query: bytes) {
    && |query| == |digits|
    && forall i | 0 <= i < |digits| ::
         query[i] == if 'A' as int <= digits[i] <= 'F' as int then digits[i] + 0x20 else digits[i]
  }

  lemma LoweredIs(digits: bytes)
    requires forall i | 0 <= i < |digits| :: HexDigit(digits[i]).Some?
    ensures IsLowered(digits, seq(|digits|, i requires 0 <= i < |digits| => Lower(digits[i])))
  {
    forall i | 0 <= i < |digits|
      ensures Lower(digits[i]) == if 'A' as int <= digits[i] <= 'F' as int then digits[i] + 0x20 else digits[i]
    {
      assert HexDigit(digits[i]).Some?;
    }
  }

  /** The input without its three dots. */
  function Undotted(input: bytes): bytes {
    if |input| >= 3 && input[|input| - 3..] == DOTS then input[..|input| - 3] else input
  }

  lemma UndottedTyped(input: bytes, digits: bytes)
    requires IsTyped(input, digits)
    ensures Undotted(input) == digits
  {
    assert OfString("...") == DOTS;
    if input == digits {
      if |input| >= 3 {
        assert HexDigit(input[|input| - 1]).Some? && input[|input| - 3..][2] == input[|input| - 1];
      }
    } else {
      assert input[|input| - 3..] == DOTS && input[..|input| - 3] == digits;
    }
  }

  lemma QueryOfTyped(input: bytes, digits: bytes)
    requires IsTyped(input, digits)
    ensures Query(input).Some? && IsLowered(digits, Query(input).value)
  {
    UndottedTyped(input, digits);
    LoweredIs(digits);
  }

  /** Anything that may be typed is accepted, and nothing else. */
  lemma TypedIff(input: bytes)
    ensures Query(input).Some? <==> exists digits :: IsTyped(input, digits)
  {
    assert OfString("...") == DOTS;
    var digits := Undotted(input);
    if Query(input).Some? {
      assert input == digits || input == digits + DOTS;
      assert forall i | 0 <= i < |digits| :: HexDigit(digits[i]).Some?;
      assert IsTyped(input, digits);
    }
    forall digits | IsTyped(input, digits)
      ensures Query(input).Some?
    {
      QueryOfTyped(input, digits);
    }
  }

  /** A typed prefix selects a row exactly when that row's identifier, and no other, begins with it in hexadecimal. */
  lemma TypedSelectsIff(ids: seq<bytes>, input: bytes, digits: bytes, query: bytes, i: nat)
    requires IsTyped(input, digits) && IsLowered(digits, query) && i < |ids|
    ensures Query(input) == Some(query)
    ensures Hits(ids, query) == [i]
       <==> query <= Hex(ids[i]) && forall j: nat | j < |ids| && j != i :: !(query <= Hex(ids[j]))
  {
    QueryOfTyped(input, digits);
    assert Query(input).value == query;
    WhereOne(Matcher(ids, query), |ids|, i);
    forall j: nat | j < |ids|
      ensures Matcher(ids, query)(j) <==> query <= Hex(ids[j])
    {
    }
  }

  /** Only row `i` has an identifier that begins with the prefix. */
  ghost predicate BeginsNoOther(ids: seq<bytes>, prefix: bytes, i: nat) {
    forall j: nat | j < |ids| && j != i :: !(prefix <= ids[j])
  }

  /** A shown prefix is ambiguous exactly when it begins another identifier. */
  lemma SelectsOwnIff(ids: seq<bytes>, len: nat, i: nat)
    requires i < |ids| && len > 0
    ensures SelectsOwn(ids, len, i) <==> |ids[i]| > 0 && BeginsNoOther(ids, Prefix(ids[i], len), i)
  {
    QueryOfShown(ids[i], len);
    var prefix := Prefix(ids[i], len);
    var hit := Matcher(ids, Hex(prefix));
    WhereOne(hit, |ids|, i);
    forall j: nat | j < |ids|
      ensures hit(j) <==> prefix <= ids[j]
    {
      HexKeepsPrefixes(prefix, ids[j]);
    }
  }

  /** No identifier is empty, and none begins, within 64 octets, another one. */
  ghost predicate Separable(ids: seq<bytes>) {
    && (forall i | 0 <= i < |ids| :: |ids[i]| > 0)
    && forall i: nat | i < |ids| :: BeginsNoOther(ids, Prefix(ids[i], 64), i)
  }

  /** Identifiers that differ within 64 octets, none of them a prefix of another, are separable. */
  lemma PrefixFreeIsSeparable(ids: seq<bytes>)
    requires Distinct(ids, 64)
    requires forall i: nat | i < |ids| :: |ids[i]| > 0 && BeginsNoOther(ids, ids[i], i)
    ensures Separable(ids)
  {
    forall i: nat, j: nat | i < |ids| && j < |ids| && j != i
      ensures !(Prefix(ids[i], 64) <= ids[j])
    {
      assert BeginsNoOther(ids, ids[i], i);
      if |ids[i]| > 64 && Prefix(ids[i], 64) <= ids[j] {
        SamePrefix(ids, 64, i, j);
      }
    }
  }

  lemma SamePrefix(ids: seq<bytes>, len: nat, i: nat, j: nat)
    requires i < |ids| && j < |ids| && i != j && |ids[i]| >= len && Prefix(ids[i], len) <= ids[j]
    ensures !Distinct(ids, len)
  {
    assert Prefix(ids[j], len) == Prefix(ids[i], len);
    var low, high := if i < j then i else j, if i < j then j else i;
    assert Prefix(ids[low], len) == Prefix(ids[high], len);
  }

  lemma PrefixOfAnother(ids: seq<bytes>, len: nat, i: nat, j: nat)
    requires IsShownLength(ids, len) && i < |ids| && j < |ids| && i != j
    ensures Prefix(ids[i], len) <= ids[j] <==> Prefix(ids[i], 64) <= ids[j]
  {
    if Prefix(ids[i], len) <= ids[j] && |ids[i]| > len {
      SamePrefix(ids, len, i, j);
    }
    if Prefix(ids[i], 64) <= ids[j] {
      assert Prefix(ids[i], len) <= Prefix(ids[i], 64);
    }
  }

  /** Every shown prefix selects exactly its own row if and only if the identifiers are separable. */
  lemma ShownSelectsIffSeparable(ids: seq<bytes>, len: nat)
    requires IsShownLength(ids, len)
    ensures (forall i: nat | i < |ids| :: SelectsOwn(ids, len, i)) <==> Separable(ids)
  {
    forall i: nat | i < |ids|
      ensures SelectsOwn(ids, len, i) <==> |ids[i]| > 0 && BeginsNoOther(ids, Prefix(ids[i], 64), i)
    {
      SelectsOwnIff(ids, len, i);
      forall j: nat | j < |ids| && j != i
        ensures Prefix(ids[i], len) <= ids[j] <==> Prefix(ids[i], 64) <= ids[j]
      {
        PrefixOfAnother(ids, len, i, j);
      }
    }
  }
}
