/** The password-based key derivation of PKCS#12: appendix B.2 of RFC 7292. */
module PfxKdf {
  import opened Radix
  import opened Sequences

  datatype HashFunction = HashFunction(outLen: nat, blockLen: nat, digest: bytes -> bytes)

  ghost predicate IsHash(h: HashFunction) {
    h.outLen > 0 && h.blockLen > 0 && forall x :: |h.digest(x)| == h.outLen
  }

  /** Any hash function; of the concrete ones only the lengths matter here. */
  type Hash = h: HashFunction | IsHash(h) witness HashFunction(1, 1, _ => [0])

  function CeilDiv(n: nat, d: nat): nat
    requires d > 0
  {
    Div(n + d - 1, d)
  }

  /** `material` over and over, up to `n` octets. */
  function Cycle(material: bytes, n: nat): (s: bytes)
    requires |material| > 0
    ensures |s| == n
  {
    seq(n, i requires 0 <= i < n => material[Mod(i, |material|)])
  }

  /** Steps 2 and 3: concatenated copies filling whole blocks; empty material stays empty. */
  function Fill(material: bytes, v: nat): bytes
    requires v > 0
  {
    if |material| == 0 then [] else Cycle(material, v * CeilDiv(|material|, v))
  }

  /** Step 6A: the hash applied `r` times. */
  function Iterate(h: Hash, input: bytes, r: nat): (a: bytes)
    requires r >= 1
    ensures |a| == h.outLen
  {
    if r == 1 then h.digest(input) else h.digest(Iterate(h, input, r - 1))
  }

  /** Step 6C on one block: (block + b + 1) mod 2^(8v), as a number. */
  function AddOne(block: bytes, b: bytes): (sum: bytes)
    requires |block| == |b|
    ensures |sum| == |block|
  {
    Be(Mod(FromBe(block) + FromBe(b) + 1, Pow(256, |block|)), |block|)
  }

  /** Step 6C: every v-octet block of I. */
  function AddToBlocks(i: bytes, b: bytes): (r: bytes)
    requires |b| > 0 && WholeBlocks(|i|, |b|)
    ensures |r| == |i|
    decreases |i|
  {
    if |i| == 0 then []
    else
      AddOne(i[..|b|], b) + AddToBlocks(i[|b|..], b)
  }

  /** `n` octets are whole blocks of `v`. */
  ghost predicate WholeBlocks(n: nat, v: nat) {
    n == 0 || (0 < v <= n && WholeBlocks(n - v, v))
  }

  lemma {:induction false} MultipleIsWhole(k: nat, v: nat)
    requires v > 0
    ensures WholeBlocks(k * v, v)
  {
    if k > 0 {
      MulDistributes(k - 1, 1, v);
      MultipleIsWhole(k - 1, v);
    }
  }

  /** Steps 4 to 7, before truncation: A_1 followed by what the updated I yields. */
  function Blocks(h: Hash, d: bytes, i: bytes, r: nat, c: nat): (a: bytes)
    requires r >= 1 && WholeBlocks(|i|, h.blockLen)
    ensures |a| == c * h.outLen
    decreases c
  {
    if c == 0 then []
    else
      var first := Iterate(h, d + i, r);
      MulDistributes(c - 1, 1, h.outLen);
      first + Blocks(h, d, AddToBlocks(i, Cycle(first, h.blockLen)), r, c - 1)
  }

  /** Appendix B.2: n octets for the diversifier `id`, salt, password and iteration count. */
  function Derive(h: Hash, id: byte, password: bytes, salt: bytes, r: nat, n: nat): (key: bytes)
    requires r >= 1
    ensures |key| == n
  {
    var v := h.blockLen;
    var c := CeilDiv(n, h.outLen);
    FilledIsWhole(salt, password, v);
    CeilCovers(n, h.outLen);
    Blocks(h, seq(v, _ => id), Fill(salt, v) + Fill(password, v), r, c)[..n]
  }

  lemma CeilCovers(n: nat, d: nat)
    requires d > 0
    ensures n <= CeilDiv(n, d) * d < n + d
  {
    var q := CeilDiv(n, d);
    assert n + d - 1 == q * d + Mod(n + d - 1, d);
  }

  lemma FilledIsWhole(a: bytes, b: bytes, v: nat)
    requires v > 0
    ensures WholeBlocks(|Fill(a, v) + Fill(b, v)|, v)
  {
    var j, k := if |a| == 0 then 0 else CeilDiv(|a|, v), if |b| == 0 then 0 else CeilDiv(|b|, v);
    MulDistributes(j, k, v);
    MultipleIsWhole(j + k, v);
    assert |Fill(a, v) + Fill(b, v)| == (j + k) * v;
  }

  // --- The in-place carry addition ----------------------------------------

  /** From the least significant end, `k` octets of `block` have been replaced, leaving `carry`. */
  ghost predicate Added(original: bytes, now: bytes, b: bytes, k: nat, carry: nat) {
    && |original| == |now| == |b| && k <= |b| && carry <= 1
    && now[..|b| - k] == original[..|b| - k]
    && FromBe(now[|b| - k..]) + carry * Pow(256, k)
       == FromBe(original[|b| - k..]) + FromBe(b[|b| - k..]) + 1
  }

  lemma FromBeHead(s: bytes)
    requires |s| > 0
    ensures FromBe(s) == s[0] * Pow(256, |s| - 1) + FromBe(s[1..])
  {
    assert s == [s[0]] + s[1..];
    ValueConcat([s[0]], s[1..], 256);
    assert Value([s[0]], 256) == s[0];
  }

  /** One octet of the addition: the carry stays at most one. */
  lemma AddOctet(original: bytes, now: bytes, b: bytes, k: nat, carry: nat)
    requires Added(original, now, b, k, carry) && k < |b|
    ensures var at := |b| - k - 1;
            var sum := now[at] + b[at] + carry;
            sum / 256 <= 1 && Added(original, now[at := sum % 256], b, k + 1, sum / 256)
  {
    var at, p := |b| - k - 1, Pow(256, k);
    var sum: nat := now[at] + b[at] + carry;
    var next := now[at := sum % 256];
    assert now[at] == now[..|b| - k][at] == original[..|b| - k][at] == original[at];
    FromBeHead(original[at..]);
    FromBeHead(b[at..]);
    FromBeHead(next[at..]);
    assert original[at..][1..] == original[at + 1..] && b[at..][1..] == b[at + 1..];
    assert next[at..][1..] == now[at + 1..];
    CarryStep(sum % 256, sum / 256, original[at], b[at], carry, p);
    assert Pow(256, k + 1) == 256 * p;
    assert next[..at] == original[..at];
  }

  lemma CarryStep(low: nat, high: nat, x: nat, y: nat, carry: nat, p: nat)
    requires low + 256 * high == x + y + carry
    ensures low * p + high * (256 * p) == x * p + y * p + carry * p
  {
    assert (low + 256 * high) * p == low * p + high * (256 * p);
    assert (x + y + carry) * p == x * p + y * p + carry * p;
  }

  /** A finished block is the sum modulo 2^(8v). */
  lemma AddedIsSum(original: bytes, now: bytes, b: bytes, carry: nat)
    requires Added(original, now, b, |b|, carry)
    ensures now == AddOne(original, b)
  {
    assert original[0..] == original && now[0..] == now && b[0..] == b;
    ValueBound(now, 256);
    DivMod(carry, Pow(256, |b|), FromBe(now));
    BeOfFromBe(now);
  }

  lemma MiddleUpdate<T>(left: seq<T>, now: seq<T>, right: seq<T>, at: nat, x: T)
    requires at < |now|
    ensures (left + now + right)[|left| + at] == now[at]
    ensures (left + now + right)[|left| + at := x] == left + now[at := x] + right
  {
  }

  /** `all` holds the block at work between what is left alone. */
  ghost predicate AtWork(
    all: bytes, left: bytes, right: bytes, original: bytes, now: bytes, b: bytes, k: nat, carry: nat) {
    all == left + now + right && Added(original, now, b, k, carry)
  }

  /** One octet of the addition, seen in the whole array. */
  lemma AddOctetInPlace(all: bytes, from: nat, left: bytes, right: bytes, original: bytes, now: bytes, b: bytes,
                        k: nat, carry: nat, sum: nat)
    requires AtWork(all, left, right, original, now, b, k, carry) && k < |b| && |left| == from
    requires sum == all[from + |b| - k - 1] + b[|b| - k - 1] + carry
    ensures sum / 256 <= 1
    ensures AtWork(all[from + |b| - k - 1 := sum % 256], left, right, original, now[|b| - k - 1 := sum % 256],
                   b, k + 1, sum / 256)
  {
    var at := |b| - k - 1;
    AddOctet(original, now, b, k, carry);
    MiddleUpdate(left, now, right, at, sum % 256);
  }

  lemma BlockAdded(all: bytes, left: bytes, right: bytes, original: bytes, now: bytes, b: bytes, carry: nat)
    requires AtWork(all, left, right, original, now, b, |b|, carry)
    ensures all == left + AddOne(original, b) + right
  {
    AddedIsSum(original, now, b, carry);
  }

  lemma BlockAtWork(all: bytes, from: nat, b: bytes)
    requires from + |b| <= |all|
    ensures var block := all[from..from + |b|];
            AtWork(all, all[..from], all[from + |b|..], block, block, b, 0, 1)
  {
    var block, v := all[from..from + |b|], |b|;
    assert block[v..] == b[v..] == [] && Pow(256, 0) == 1;
    assert all == all[..from] + block + all[from + v..];
  }

  method Store(i: array<byte>, at: nat, x: byte)
    requires at < i.Length
    modifies i
    ensures i[..] == old(i[..])[at := x]
  {
    i[at] := x;
  }

  /** Adds `b` and one to the block of `i` that starts at `from`, in place, most significant octet first. */
  method AddBlock(i: array<byte>, from: nat, b: bytes)
    requires |b| > 0 && from + |b| <= i.Length
    modifies i
    ensures var before := old(i[..]);
            i[..] == before[..from] + AddOne(before[from..from + |b|], b) + before[from + |b|..]
  {
    var v := |b|;
    ghost var all: bytes := i[..];
    ghost var left: bytes, right: bytes := all[..from], all[from + v..];
    ghost var before: bytes, now: bytes := all[from..from + v], all[from..from + v];
    BlockAtWork(all, from, b);
    var carry: nat := 1;
    var k := 0;
    while k < v
      invariant 0 <= k <= v
      invariant i[..] == all && AtWork(all, left, right, before, now, b, k, carry)
    {
      var at := v - k - 1;
      var sum: nat := i[from + at] + b[at] + carry;
      AddOctetInPlace(all, from, left, right, before, now, b, k, carry, sum);
      Store(i, from + at, sum % 256);
      all, now := all[from + at := sum % 256], now[at := sum % 256];
      carry := sum / 256;
      k := k + 1;
    }
    BlockAdded(all, left, right, before, now, b, carry);
  }

  /** The update of I, block by block, in place; every block is full. */
  method AddBlocks(i: array<byte>, b: bytes)
    requires |b| > 0 && WholeBlocks(i.Length, |b|)
    modifies i
    ensures i[..] == AddToBlocks(old(i[..]), b)
  {
    var from := 0;
    ghost var all, now := i[..], i[..];
    assert now[0..] == all;
    while from < i.Length
      invariant now == i[..] && Processed(all, now, from, b)
      decreases i.Length - from
    {
      Advance(all, now, from, b);
      AddBlock(i, from, b);
      now := i[..];
      from := from + |b|;
    }
    assert now[..from] == now;
  }

  /** The blocks before `from` have been added to, the others are as they were. */
  ghost predicate Processed(all: bytes, now: bytes, from: nat, b: bytes) {
    && |b| > 0 && from <= |all| == |now|
    && WholeBlocks(|all|, |b|) && WholeBlocks(|all| - from, |b|)
    && now[from..] == all[from..]
    && AddToBlocks(all, b) == now[..from] + AddToBlocks(all[from..], b)
  }

  lemma Advance(all: bytes, now: bytes, from: nat, b: bytes)
    requires Processed(all, now, from, b) && from < |all|
    ensures from + |b| <= |all|
    ensures var block := now[from..from + |b|];
            Processed(all, now[..from] + AddOne(block, b) + now[from + |b|..], from + |b|, b)
  {
    var rest, block := all[from..], now[from..from + |b|];
    assert rest[..|b|] == block && rest[|b|..] == all[from + |b|..] == now[from + |b|..];
    Spliced(now, now[..from] + AddOne(block, b) + now[from + |b|..], from, AddOne(block, b));
    Associate(now[..from], AddOne(block, b), AddToBlocks(rest[|b|..], b));
  }

  lemma Spliced(before: bytes, after: bytes, from: nat, block: bytes)
    requires from + |block| <= |before| && after == before[..from] + block + before[from + |block|..]
    ensures after[..from + |block|] == before[..from] + block
    ensures after[from + |block|..] == before[from + |block|..]
  {
  }

  /** What is still to come, after `out`, makes up `whole`. */
  ghost predicate Continues(h: Hash, d: bytes, i: bytes, r: nat, c: nat, out: bytes, whole: bytes)
    requires r >= 1
  {
    WholeBlocks(|i|, h.blockLen) && whole == out + Blocks(h, d, i, r, c)
  }

  /** One more block of output. */
  lemma NextOutput(h: Hash, d: bytes, i: bytes, r: nat, c: nat, out: bytes, whole: bytes)
    requires r >= 1 && c > 0 && Continues(h, d, i, r, c, out, whole)
    ensures var a := Iterate(h, d + i, r);
            Continues(h, d, AddToBlocks(i, Cycle(a, h.blockLen)), r, c - 1, out + a, whole)
  {
    var a := Iterate(h, d + i, r);
    Associate(out, a, Blocks(h, d, AddToBlocks(i, Cycle(a, h.blockLen)), r, c - 1));
  }

  lemma MoreToCome(h: Hash, d: bytes, i: bytes, r: nat, c: nat, out: bytes, whole: bytes)
    requires r >= 1 && Continues(h, d, i, r, c, out, whole) && |out| < |whole|
    ensures c > 0
  {
  }

  lemma OutputDone(h: Hash, d: bytes, i: bytes, r: nat, c: nat, out: bytes, whole: bytes, n: nat)
    requires r >= 1 && Continues(h, d, i, r, c, out, whole) && n <= |out|
    ensures n <= |whole| && out[..n] == whole[..n]
  {
  }

  // --- The standard, octet by octet ---------------------------------------------

  /** Steps 2 and 3: `s` is copies of the material, cut off at the first whole block that holds all of it. */
  ghost predicate Repeats(s: bytes, material: bytes, v: nat)
    requires v > 0
  {
    if material == [] then s == []
    else
      && |material| <= |s| < |material| + v && (exists blocks: nat :: |s| == blocks * v)
      && Copies(s, material)
  }

  /** `s` goes round and round the material. */
  ghost predicate Copies(s: bytes, material: bytes) {
    |material| > 0 && forall k | 0 <= k < |s| :: s[k] == material[k % |material|]
  }

  /** Step 6A: the last of `r` digests, each but the first of the one before. */
  ghost predicate Hashes(h: Hash, input: bytes, r: nat, a: bytes) {
    exists chain: seq<bytes> ::
      && |chain| == r > 0 && chain[0] == h.digest(input) && chain[r - 1] == a
      && forall i | 0 < i < r :: chain[i] == h.digest(chain[i - 1])
  }

  /** Steps 6B and 6C: A is repeated to a block, and every block of I grows by it and one, modulo 2^(8v). */
  ghost predicate Updates(i: bytes, a: bytes, i': bytes, v: nat) {
    |i'| == |i| && exists b: bytes :: |b| == v && Copies(b, a) && AllGrow(i, b, i')
  }

  ghost predicate AllGrow(i: bytes, b: bytes, i': bytes) {
    forall q: nat :: BlockGrows(i, b, i', q)
  }

  /** Block `q`, if there is one. */
  ghost predicate BlockGrows(i: bytes, b: bytes, i': bytes, q: nat) {
    GrowsAt(i, b, i', q * |b|)
  }

  ghost predicate GrowsAt(i: bytes, b: bytes, i': bytes, from: nat) {
    from + |b| <= |i| == |i'| ==> Grows(i[from..from + |b|], b, i'[from..from + |b|])
  }

  /** One block, as numbers. */
  ghost predicate Grows(block: bytes, b: bytes, block': bytes) {
    FromBe(block') == (FromBe(block) + FromBe(b) + 1) % Pow(256, |b|)
  }

  /** Steps 5 and 6: A_j hashes D and I_j, and I_j+1 is I_j updated by it. */
  ghost predicate Rounds(h: Hash, d: bytes, r: nat, inputs: seq<bytes>, outputs: seq<bytes>) {
    && |inputs| == |outputs|
    && (forall j | 0 <= j < |inputs| :: |outputs[j]| == h.outLen && Hashes(h, d + inputs[j], r, outputs[j]))
    && (forall j | 0 < j < |inputs| :: Updates(inputs[j - 1], outputs[j - 1], inputs[j], h.blockLen))
  }

  /** Step 7: the octets of A_1, A_2 and so on, as many as asked for. */
  ghost predicate Joined(out: bytes, outputs: seq<bytes>, u: nat) {
    |out| <= |outputs| * u && forall j: nat, t: nat :: OctetJoined(out, outputs, u, j, t)
  }

  /** Octet `t` of output `j`, if it is asked for. */
  ghost predicate OctetJoined(out: bytes, outputs: seq<bytes>, u: nat, j: nat, t: nat) {
    j < |outputs| && t < u && j * u + t < |out| ==> t < |outputs[j]| && out[j * u + t] == outputs[j][t]
  }

  /** Appendix B.2, with D, S and P spelled out. */
  ghost predicate FollowsStandard(h: Hash, id: byte, password: bytes, salt: bytes, r: nat, n: nat, out: bytes) {
    exists s, p, inputs, outputs ::
      && Repeats(s, salt, h.blockLen) && Repeats(p, password, h.blockLen)
      && (|inputs| > 0 ==> inputs[0] == s + p)
      && Rounds(h, seq(h.blockLen, _ => id), r, inputs, outputs)
      && |out| == n && Joined(out, outputs, h.outLen)
  }

  lemma FillRepeats(material: bytes, v: nat)
    requires v > 0
    ensures Repeats(Fill(material, v), material, v)
  {
    if |material| > 0 {
      CeilCovers(|material|, v);
      assert |Fill(material, v)| == CeilDiv(|material|, v) * v;
      CycleCopies(material, v * CeilDiv(|material|, v));
    }
  }

  lemma {:induction false} IterateHashes(h: Hash, input: bytes, r: nat) returns (chain: seq<bytes>)
    requires r > 0
    ensures |chain| == r && chain[0] == h.digest(input) && chain[r - 1] == Iterate(h, input, r)
    ensures forall i | 0 < i < r :: chain[i] == h.digest(chain[i - 1])
  {
    if r == 1 {
      chain := [h.digest(input)];
    } else {
      var front := IterateHashes(h, input, r - 1);
      chain := front + [h.digest(front[r - 2])];
    }
  }

  lemma AddOneGrows(block: bytes, b: bytes)
    requires |block| == |b|
    ensures Grows(block, b, AddOne(block, b))
  {
    BeRoundTrip(Mod(FromBe(block) + FromBe(b) + 1, Pow(256, |b|)), |b|);
  }

  lemma AddToBlocksCons(i: bytes, b: bytes)
    requires |b| > 0 && WholeBlocks(|i|, |b|) && |i| > 0
    ensures |b| <= |i| && WholeBlocks(|i[|b|..]|, |b|)
    ensures AddToBlocks(i, b) == AddOne(i[..|b|], b) + AddToBlocks(i[|b|..], b)
  {
  }

  lemma {:induction false} BlockOfSum(i: bytes, b: bytes, from: nat)
    requires |b| > 0 && WholeBlocks(|i|, |b|) && WholeBlocks(from, |b|) && from + |b| <= |i|
    ensures AddToBlocks(i, b)[from..from + |b|] == AddOne(i[from..from + |b|], b)
    decreases from
  {
    var v := |b|;
    AddToBlocksCons(i, b);
    var first, rest := AddOne(i[..v], b), AddToBlocks(i[v..], b);
    if from == 0 {
      TakeDrop(first, rest);
    } else {
      BlockOfSum(i[v..], b, from - v);
      SliceOfSecond(first, rest, from - v, v);
      SliceOfRest(i, v, from - v, v);
    }
  }

  lemma SumGrows(i: bytes, b: bytes, from: nat)
    requires |b| > 0 && WholeBlocks(|i|, |b|) && WholeBlocks(from, |b|)
    ensures GrowsAt(i, b, AddToBlocks(i, b), from)
  {
    if from + |b| <= |i| {
      BlockOfSum(i, b, from);
      AddOneGrows(i[from..from + |b|], b);
    }
  }

  lemma AddToBlocksUpdates(i: bytes, a: bytes, v: nat)
    requires v > 0 && |a| > 0 && WholeBlocks(|i|, v)
    ensures Updates(i, a, AddToBlocks(i, Cycle(a, v)), v)
  {
    var b := Cycle(a, v);
    CycleCopies(a, v);
    AllBlocksGrow(i, b);
    assert |b| == v && Copies(b, a) && AllGrow(i, b, AddToBlocks(i, b));
  }

  lemma AllBlocksGrow(i: bytes, b: bytes)
    requires |b| > 0 && WholeBlocks(|i|, |b|)
    ensures AllGrow(i, b, AddToBlocks(i, b))
  {
    forall q: nat
      ensures BlockGrows(i, b, AddToBlocks(i, b), q)
    {
      MultipleIsWhole(q, |b|);
      SumGrows(i, b, q * |b|);
    }
  }

  lemma CycleCopies(material: bytes, n: nat)
    requires |material| > 0
    ensures Copies(Cycle(material, n), material)
  {
  }

  lemma {:induction false} BlocksRun(h: Hash, d: bytes, i: bytes, r: nat, c: nat)
    returns (inputs: seq<bytes>, outputs: seq<bytes>)
    requires r > 0 && WholeBlocks(|i|, h.blockLen)
    ensures |inputs| == c && (c > 0 ==> inputs[0] == i)
    ensures Rounds(h, d, r, inputs, outputs) && Joined(Blocks(h, d, i, r, c), outputs, h.outLen)
    decreases c
  {
    if c == 0 {
      inputs, outputs := [], [];
    } else {
      var a := Iterate(h, d + i, r);
      var i' := AddToBlocks(i, Cycle(a, h.blockLen));
      var chain := IterateHashes(h, d + i, r);
      AddToBlocksUpdates(i, a, h.blockLen);
      var later, more := BlocksRun(h, d, i', r, c - 1);
      inputs, outputs := [i] + later, [a] + more;
      OneMoreRound(h, d, r, i, a, later, more);
      OneMoreJoined(a, Blocks(h, d, i', r, c - 1), more, h.outLen);
    }
  }

  lemma OneMoreRound(h: Hash, d: bytes, r: nat, i: bytes, a: bytes, inputs: seq<bytes>, outputs: seq<bytes>)
    requires Rounds(h, d, r, inputs, outputs) && |a| == h.outLen && Hashes(h, d + i, r, a)
    requires |inputs| > 0 ==> Updates(i, a, inputs[0], h.blockLen)
    ensures Rounds(h, d, r, [i] + inputs, [a] + outputs)
  {
    var all, outs := [i] + inputs, [a] + outputs;
    forall j | 0 <= j < |all|
      ensures |outs[j]| == h.outLen && Hashes(h, d + all[j], r, outs[j])
    {
      if j > 0 {
        assert all[j] == inputs[j - 1] && outs[j] == outputs[j - 1];
      }
    }
    forall j | 0 < j < |all|
      ensures Updates(all[j - 1], outs[j - 1], all[j], h.blockLen)
    {
      if j > 1 {
        assert all[j - 1] == inputs[j - 2] && outs[j - 1] == outputs[j - 2] && all[j] == inputs[j - 1];
      }
    }
  }

  lemma OneMoreJoined(a: bytes, out: bytes, outputs: seq<bytes>, u: nat)
    requires |a| == u && Joined(out, outputs, u)
    ensures Joined(a + out, [a] + outputs, u)
  {
    MulDistributes(|outputs|, 1, u);
    forall j: nat, t: nat
      ensures OctetJoined(a + out, [a] + outputs, u, j, t)
    {
      OneMoreOctet(a, out, outputs, u, j, t);
    }
  }

  lemma OneMoreOctet(a: bytes, out: bytes, outputs: seq<bytes>, u: nat, j: nat, t: nat)
    requires |a| == u && (j > 0 ==> OctetJoined(out, outputs, u, j - 1, t))
    ensures OctetJoined(a + out, [a] + outputs, u, j, t)
  {
    if j == 0 {
      assert j * u == 0;
    } else {
      MulDistributes(j - 1, 1, u);
      assert j * u == u + (j - 1) * u;
    }
  }

  lemma JoinedFront(out: bytes, outputs: seq<bytes>, u: nat, n: nat)
    requires Joined(out, outputs, u) && n <= |out|
    ensures Joined(out[..n], outputs, u)
  {
    forall j: nat, t: nat
      ensures OctetJoined(out[..n], outputs, u, j, t)
    {
      assert OctetJoined(out, outputs, u, j, t);
    }
  }

  /** What is derived is what the standard says. */
  lemma DeriveFollowsStandard(h: Hash, id: byte, password: bytes, salt: bytes, r: nat, n: nat)
    requires r > 0
    ensures FollowsStandard(h, id, password, salt, r, n, Derive(h, id, password, salt, r, n))
  {
    var v, c := h.blockLen, CeilDiv(n, h.outLen);
    var d, s, p := seq(v, _ => id), Fill(salt, v), Fill(password, v);
    FillRepeats(salt, v);
    FillRepeats(password, v);
    FilledIsWhole(salt, password, v);
    CeilCovers(n, h.outLen);
    var inputs, outputs := BlocksRun(h, d, s + p, r, c);
    JoinedFront(Blocks(h, d, s + p, r, c), outputs, h.outLen, n);
  }

  method IterateHash(h: Hash, input: bytes, iterations: nat) returns (a: bytes)
    ensures a == Iterate(h, input, if iterations == 0 then 1 else iterations)
  {
    a := h.digest(input);
    var n := 1;
    while n < iterations
      invariant 1 <= n && (iterations == 0 || n <= iterations)
      invariant iterations == 0 ==> n == 1
      invariant a == Iterate(h, input, n)
    {
      a := h.digest(a);
      n := n + 1;
    }
  }

  method Concatenated(a: bytes, b: bytes) returns (i: array<byte>)
    ensures fresh(i) && i[..] == a + b
  {
    var s := a + b;
    i := new byte[|s|](j requires 0 <= j < |s| => s[j]);
  }

  /**
   The key derivation as it is computed. Iteration counts below one act as one;
   from one on, the result is that of the standard for all inputs and lengths.
   */
  method Kdf(h: Hash, id: byte, bmp: bytes, salt: bytes, iterations: nat, outLen: nat) returns (out: bytes)
    ensures FollowsStandard(h, id, bmp, salt, if iterations == 0 then 1 else iterations, outLen, out)
    ensures out == Derive(h, id, bmp, salt, if iterations == 0 then 1 else iterations, outLen)
  {
    var v := h.blockLen;
    var d: bytes := seq(v, _ => id);
    FilledIsWhole(salt, bmp, v);
    var i := Concatenated(Fill(salt, v), Fill(bmp, v));
    out := HashRounds(h, d, i, iterations, outLen);
    out := out[..outLen];
    DeriveFollowsStandard(h, id, bmp, salt, if iterations == 0 then 1 else iterations, outLen);
  }

  /** The loop: hash D and I, append the digest, update I. */
  method HashRounds(h: Hash, d: bytes, i: array<byte>, iterations: nat, outLen: nat) returns (out: bytes)
    requires WholeBlocks(i.Length, h.blockLen)
    modifies i
    ensures var whole := Blocks(h, d, old(i[..]), if iterations == 0 then 1 else iterations, CeilDiv(outLen, h.outLen));
            outLen <= |out| && outLen <= |whole| && out[..outLen] == whole[..outLen]
  {
    ghost var r := if iterations == 0 then 1 else iterations;
    out := [];
    ghost var c, done := CeilDiv(outLen, h.outLen), 0;
    CeilCovers(outLen, h.outLen);
    ghost var whole := Blocks(h, d, i[..], r, c);
    assert outLen <= |whole|;
    Empty(whole);
    while |out| < outLen
      invariant done <= c && Continues(h, d, i[..], r, c - done, out, whole)
      decreases c - done
    {
      MoreToCome(h, d, i[..], r, c - done, out, whole);
      NextOutput(h, d, i[..], r, c - done, out, whole);
      var a := IterateHash(h, d + i[..], iterations);
      AddBlocks(i, Cycle(a, h.blockLen));
      out := out + a;
      done := done + 1;
    }
    OutputDone(h, d, i[..], r, c - done, out, whole, outLen);
  }
}
