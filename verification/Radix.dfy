/** Positional notation: the one number theory the byte-level codecs rest on. */
module Radix {

  type byte = b: int | 0 <= b < 256
  type bytes = seq<byte>

  function Pow(base: nat, n: nat): (p: nat)
    ensures base > 0 ==> p > 0
  {
    if n == 0 then 1 else base * Pow(base, n - 1)
  }

  ghost predicate AreDigits(vs: seq<nat>, base: nat) {
    forall i | 0 <= i < |vs| :: vs[i] < base
  }

  /** Big-endian value of `vs` in `base`. */
  function Value(vs: seq<nat>, base: nat): nat {
    if |vs| == 0 then 0 else Value(vs[..|vs| - 1], base) * base + vs[|vs| - 1]
  }

  /** The last `len` digits of `n` in `base`, most significant first. */
  function Digits(n: nat, base: nat, len: nat): (vs: seq<nat>)
    requires base > 0
    ensures |vs| == len && AreDigits(vs, base)
    decreases len
  {
    if len == 0 then [] else Digits(Div(n, base), base, len - 1) + [Mod(n, base)]
  }

  function Div(n: nat, base: nat): nat
    requires base > 0
  {
    n / base
  }

  function Mod(n: nat, base: nat): (r: nat)
    requires base > 0
    ensures r < base
  {
    n % base
  }

  lemma MulAssoc(a: int, b: int, c: int)
    ensures a * (b * c) == (a * b) * c
  {
  }

  lemma MulDistributes(a: int, b: int, c: int)
    ensures (a + b) * c == a * c + b * c
  {
  }

  lemma MulMonotone(a: nat, b: nat, base: nat)
    requires a <= b
    ensures a * base <= b * base
  {
  }

  /** Quotient and remainder are unique. */
  lemma DivMod(q: nat, base: nat, r: nat)
    requires r < base
    ensures Div(q * base + r, base) == q && Mod(q * base + r, base) == r
  {
    var n := q * base + r;
    var d := Div(n, base);
    assert n == d * base + Mod(n, base);
    assert (q + 1) * base == q * base + base && (d + 1) * base == d * base + base;
    MulMonotone(q + 1, if d > q then d else q + 1, base);
    MulMonotone(d + 1, if d < q then q else d + 1, base);
  }

  lemma Divides(n: nat, base: nat)
    requires base > 0
    ensures n == Div(n, base) * base + Mod(n, base)
  {
  }

  lemma DivDiv(n: nat, a: nat, b: nat)
    requires a > 0 && b > 0
    ensures a * b > 0 && Div(Div(n, a), b) == Div(n, a * b)
  {
    var q := Div(n, a);
    DivTwice(n, a, b, q, Mod(n, a), Div(q, b), Mod(q, b));
  }

  lemma DivTwice(n: nat, a: nat, b: nat, q: nat, r: nat, q': nat, r': nat)
    requires a > 0 && b > 0 && r < a && r' < b && n == q * a + r && q == q' * b + r'
    ensures a * b > 0 && Div(n, a * b) == q'
  {
    MulMonotone(r' + 1, b, a);
    MulDistributes(r', 1, a);
    MulDistributes(q' * b, r', a);
    MulAssoc(q', b, a);
    MulCommutes(a, b);
    DivMod(q', a * b, r' * a + r);
  }

  lemma MulCommutes(a: int, b: int)
    ensures a * b == b * a
  {
  }

  lemma {:induction false} PowAdd(base: nat, m: nat, n: nat)
    ensures Pow(base, m + n) == Pow(base, m) * Pow(base, n)
  {
    if m > 0 {
      PowAdd(base, m - 1, n);
      MulAssoc(base, Pow(base, m - 1), Pow(base, n));
    }
  }

  lemma {:induction false} ValueBound(vs: seq<nat>, base: nat)
    requires AreDigits(vs, base)
    ensures Value(vs, base) < Pow(base, |vs|)
  {
    if |vs| > 0 {
      ValueBound(vs[..|vs| - 1], base);
      var v := Value(vs[..|vs| - 1], base);
      MulMonotone(v + 1, Pow(base, |vs| - 1), base);
      assert (v + 1) * base == v * base + base;
    }
  }

  lemma {:induction false} DigitsOfValue(vs: seq<nat>, base: nat)
    requires base > 0 && AreDigits(vs, base)
    ensures Digits(Value(vs, base), base, |vs|) == vs
  {
    if |vs| > 0 {
      var front, last := vs[..|vs| - 1], vs[|vs| - 1];
      DivMod(Value(front, base), base, last);
      DigitsOfValue(front, base);
    }
  }

  lemma QuotientFits(n: nat, base: nat, p: nat)
    requires base > 0 && n < base * p
    ensures Div(n, base) < p
  {
    Divides(n, base);
    if Div(n, base) >= p {
      MulMonotone(p, Div(n, base), base);
    }
  }

  lemma {:induction false} ValueOfDigits(n: nat, base: nat, len: nat)
    requires base > 0 && n < Pow(base, len)
    ensures Value(Digits(n, base, len), base) == n
    decreases len
  {
    if len > 0 {
      QuotientFits(n, base, Pow(base, len - 1));
      ValueOfDigits(Div(n, base), base, len - 1);
      ValueSnoc(Digits(Div(n, base), base, len - 1), Mod(n, base), base);
      Divides(n, base);
    }
  }

  /** Numbers of the same length are equal exactly when their digits are. */
  lemma ValueInjective(a: seq<nat>, b: seq<nat>, base: nat)
    requires base > 0 && AreDigits(a, base) && AreDigits(b, base)
    requires |a| == |b| && Value(a, base) == Value(b, base)
    ensures a == b
  {
    DigitsOfValue(a, base);
    DigitsOfValue(b, base);
  }

  lemma ValueSnoc(vs: seq<nat>, v: nat, base: nat)
    ensures Value(vs + [v], base) == Value(vs, base) * base + v
  {
    assert (vs + [v])[..|vs|] == vs;
  }

  lemma {:induction false} ValueConcat(a: seq<nat>, b: seq<nat>, base: nat)
    ensures Value(a + b, base) == Value(a, base) * Pow(base, |b|) + Value(b, base)
  {
    if |b| == 0 {
      assert a + b == a;
    } else {
      var front, last := b[..|b| - 1], b[|b| - 1];
      ValueConcat(a, front, base);
      assert (a + b)[..|a + b| - 1] == a + front;
      var va, p, vf := Value(a, base), Pow(base, |front|), Value(front, base);
      MulDistributes(va * p, vf, base);
      MulAssoc(va, p, base);
      assert p * base == Pow(base, |b|);
    }
  }

  // --- Fixed-width big-endian integers ---------------------------------

  function Be(n: nat, width: nat): (s: bytes)
    ensures |s| == width
  {
    Digits(n, 256, width)
  }

  function FromBe(s: bytes): nat {
    Value(s, 256)
  }

  lemma BeRoundTrip(n: nat, width: nat)
    requires n < Pow(256, width)
    ensures FromBe(Be(n, width)) == n
  {
    ValueOfDigits(n, 256, width);
  }

  lemma BeOfFromBe(s: bytes)
    ensures Be(FromBe(s), |s|) == s
  {
    DigitsOfValue(s, 256);
  }

  lemma OctetPowers()
    ensures Pow(256, 1) == 0x100 && Pow(256, 2) == 0x1_0000
    ensures Pow(256, 3) == 0x100_0000 && Pow(256, 4) == 0x1_0000_0000
  {
    assert Pow(256, 1) == 256 * Pow(256, 0);
    assert Pow(256, 2) == 256 * Pow(256, 1);
    assert Pow(256, 3) == 256 * Pow(256, 2);
    assert Pow(256, 4) == 256 * Pow(256, 3);
  }
}
