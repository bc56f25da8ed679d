/** Where a distinguished name is cut: separators that no backslash escapes (section 2.4 of RFC 4514). */
module NameText {
  import opened Radix
  import opened Ascii

  const BACKSLASH: byte := 0x5c
  const COMMA: byte := 0x2c

  predicate IsSeparator(c: byte) {
    c == COMMA || c == PLUS
  }

  /** After `s`, the next octet is escaped. */
  predicate Escaped(s: bytes) {
    |s| > 0 && s[|s| - 1] == BACKSLASH && !Escaped(s[..|s| - 1])
  }

  /** How many backslashes end `s`. */
  function BackslashRun(s: bytes): nat {
    if |s| == 0 || s[|s| - 1] != BACKSLASH then 0 else 1 + BackslashRun(s[..|s| - 1])
  }

  predicate IsCut(s: bytes, i: nat)
    requires i < |s|
  {
    IsSeparator(s[i]) && !Escaped(s[..i])
  }

  /** The first cut at `i` or later, or the length. */
  function CutFrom(s: bytes, i: nat): (k: nat)
    requires i <= |s|
    ensures i <= k <= |s|
    decreases |s| - i
  {
    if i == |s| || IsCut(s, i) then i else CutFrom(s, i + 1)
  }

  /** A piece that can stand between separators. */
  ghost predicate Closed(s: bytes) {
    !Escaped(s) && forall i | 0 <= i < |s| :: !IsCut(s, i)
  }

  lemma {:induction false} EscapedIffOddRun(s: bytes)
    ensures Escaped(s) <==> BackslashRun(s) % 2 == 1
  {
    if |s| > 0 {
      EscapedIffOddRun(s[..|s| - 1]);
    }
  }

  /** A name is cut exactly at the separators that follow an even run of backslashes. */
  lemma CutIffEvenRun(s: bytes, i: nat)
    requires i < |s|
    ensures IsCut(s, i) <==> IsSeparator(s[i]) && BackslashRun(s[..i]) % 2 == 0
  {
    EscapedIffOddRun(s[..i]);
  }

  lemma {:induction false} CutFromFinds(s: bytes, i: nat)
    requires i <= |s|
    ensures forall k | i <= k < CutFrom(s, i) :: !IsCut(s, k)
    ensures CutFrom(s, i) < |s| ==> IsCut(s, CutFrom(s, i))
    decreases |s| - i
  {
    if i < |s| && !IsCut(s, i) {
      CutFromFinds(s, i + 1);
    }
  }

  lemma {:induction false} CutFromIs(s: bytes, i: nat, k: nat)
    requires i <= k <= |s| && (k < |s| ==> IsCut(s, k))
    requires forall j | i <= j < k :: !IsCut(s, j)
    ensures CutFrom(s, i) == k
    decreases k - i
  {
    if i < k {
      CutFromIs(s, i + 1, k);
    }
  }

  /** Nothing before an unescaped position matters after it. */
  lemma {:induction false} EscapedAfter(a: bytes, b: bytes)
    requires !Escaped(a)
    ensures Escaped(a + b) <==> Escaped(b)
    decreases |b|
  {
    if |b| == 0 {
      assert a + b == a;
    } else {
      assert (a + b)[..|a + b| - 1] == a + b[..|b| - 1];
      EscapedAfter(a, b[..|b| - 1]);
    }
  }

  lemma CutsAfter(a: bytes, b: bytes, i: nat)
    requires !Escaped(a) && i < |b|
    ensures IsCut(a + b, |a| + i) <==> IsCut(b, i)
  {
    assert (a + b)[..|a| + i] == a + b[..i];
    EscapedAfter(a, b[..i]);
  }

  lemma CutsBefore(a: bytes, b: bytes, i: nat)
    requires i < |a|
    ensures IsCut(a + b, i) <==> IsCut(a, i)
  {
    assert (a + b)[..i] == a[..i];
  }

  lemma ClosedConcat(a: bytes, b: bytes)
    requires Closed(a)
    ensures Closed(a + b) <==> Closed(b)
  {
    EscapedAfter(a, b);
    forall i | 0 <= i < |a|
      ensures !IsCut(a + b, i)
    {
      CutsBefore(a, b, i);
    }
    forall i | 0 <= i < |b|
      ensures IsCut(a + b, |a| + i) <==> IsCut(b, i)
    {
      CutsAfter(a, b, i);
    }
    if Closed(b) {
      forall i | 0 <= i < |a + b|
        ensures !IsCut(a + b, i)
      {
        if i >= |a| {
          assert !IsCut(b, i - |a|);
        }
      }
    }
  }

  lemma PlainIsClosed(s: bytes)
    requires forall i | 0 <= i < |s| :: s[i] != BACKSLASH && !IsSeparator(s[i])
    ensures Closed(s)
  {
  }

  lemma PairIsClosed(c: byte)
    ensures Closed([BACKSLASH, c])
  {
    var s := [BACKSLASH, c];
    assert Escaped([BACKSLASH]);
    assert s[..1] == [BACKSLASH];
  }

  /** A closed piece is what stands before its separator. */
  lemma CutAfterPiece(piece: bytes, c: byte, rest: bytes)
    requires Closed(piece) && IsSeparator(c)
    ensures CutFrom(piece + [c] + rest, 0) == |piece|
  {
    var s := piece + [c] + rest;
    assert s == piece + ([c] + rest);
    forall i | 0 <= i < |piece|
      ensures !IsCut(s, i)
    {
      CutsBefore(piece, [c] + rest, i);
    }
    CutsAfter(piece, [c] + rest, 0);
    CutFromIs(s, 0, |piece|);
  }

  lemma UncutPiece(piece: bytes)
    requires Closed(piece)
    ensures CutFrom(piece, 0) == |piece|
  {
    CutFromIs(piece, 0, |piece|);
  }

  /** What the first cut leaves before it is closed, unless it ends in a lone backslash. */
  lemma PieceIsClosed(s: bytes)
    ensures var k := CutFrom(s, 0);
            && (k < |s| ==> Closed(s[..k]) && IsSeparator(s[k]))
            && (k == |s| && !Escaped(s) ==> Closed(s))
  {
    var k := CutFrom(s, 0);
    CutFromFinds(s, 0);
    forall i | 0 <= i < k
      ensures !IsCut(s[..k], i)
    {
      CutsBefore(s[..k], s[k..], i);
      assert s[..k] + s[k..] == s;
    }
  }
}
