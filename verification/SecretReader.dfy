/** Reading a secret without leaving copies behind: no reallocation in place, growth by doubling. */
module SecretReader {
  import opened Wrappers
  import opened Radix

  const BLOCK: nat := 8192
  const USIZE_MAX: nat := 0xffff_ffff_ffff_ffff

  /** One result of the operating system's read; no octets means the end. */
  datatype ReadResult = Octets(octets: bytes) | Interrupted | Failed(code: nat)

  datatype ReadError = ReadFailed(code: nat) | TooLarge

  /** A read never returns more than the block it was given. */
  ghost predicate Fits(results: seq<ReadResult>) {
    forall i | 0 <= i < |results| && results[i].Octets? :: |results[i].octets| <= BLOCK
  }

  /** What is read, from the results still to come and the octets so far. */
  function Collect(soFar: bytes, results: seq<ReadResult>): Result<bytes, ReadError>
    decreases |results|
  {
    if |results| == 0 then Success(soFar)
    else
      match results[0]
      case Interrupted => Collect(soFar, results[1..])
      case Failed(code) => Failure(ReadFailed(code))
      case Octets(octets) =>
        if |octets| == 0 then Success(soFar)
        else if |soFar| + |octets| > USIZE_MAX then Failure(TooLarge)
        else Collect(soFar + octets, results[1..])
  }

  /** A reader that follows a script, and is at its end when the script is. */
  class Source {
    var pending: seq<ReadResult>

    constructor (results: seq<ReadResult>)
      ensures pending == results
    {
      pending := results;
    }

    method Read() returns (r: ReadResult)
      modifies this
      ensures old(|pending|) == 0 ==> r == Octets([]) && pending == []
      ensures old(|pending|) > 0 ==> r == old(pending[0]) && pending == old(pending[1..])
    {
      if |pending| == 0 {
        return Octets([]);
      }
      r := pending[0];
      pending := pending[1..];
    }
  }

  /** Counts every octet that is put into any buffer. */
  class Meter {
    ghost var moved: nat

    constructor ()
      ensures moved == 0
    {
      moved := 0;
    }
  }

  /** A vector that is never asked to grow: extending past its capacity is ruled out. */
  class Buffer {
    var contents: bytes
    const capacity: nat
    const meter: Meter

    ghost predicate Valid()
      reads this
    {
      |contents| <= capacity
    }

    /** The allocator may grant more than was asked for. */
    constructor (requested: nat, extra: nat, meter: Meter)
      ensures Valid() && contents == [] && capacity == requested + extra && this.meter == meter
    {
      contents := [];
      capacity, this.meter := requested + extra, meter;
    }

    method Extend(octets: bytes)
      requires Valid() && |contents| + |octets| <= capacity
      modifies this, meter
      ensures Valid() && contents == old(contents) + octets
      ensures meter.moved == old(meter.moved) + |octets|
    {
      contents := contents + octets;
      meter.moved := meter.moved + |octets|;
    }
  }

  function Max(a: nat, b: nat): nat {
    if a < b then b else a
  }

  function DoubleSaturating(n: nat): nat {
    if 2 * n > USIZE_MAX then USIZE_MAX else 2 * n
  }

  /**
   What growing has cost: `copied` octets, where `outgrown` is the capacity of
   the last buffer that was replaced, if any was.
   */
  ghost predicate Paid(copied: nat, outgrown: nat, grown: bool, length: nat, capacity: nat) {
    && copied <= 2 * outgrown
    && capacity >= DoubleSaturating(outgrown)
    && (if grown then outgrown < length else copied == 0)
  }

  lemma PayForGrowth(copied: nat, outgrown: nat, grown: bool, length: nat, capacity: nat, needed: nat, capacity': nat)
    requires Paid(copied, outgrown, grown, length, capacity) && length <= capacity < needed <= USIZE_MAX
    requires capacity' >= Max(needed, DoubleSaturating(capacity))
    ensures Paid(copied + length, capacity, true, needed, capacity')
  {
  }

  /**
   The read loop. The result is what was read, whatever interrupted it. Every
   octet read is put into a buffer once; all further copying, from buffers to
   their replacements, is less than twice as much as was read.
   */
  method ReadSecret(source: Source, extra: nat -> nat, meter: Meter) returns (r: Result<bytes, ReadError>)
    requires Fits(source.pending)
    modifies source, meter
    ensures r == Collect([], old(source.pending))
    ensures r.Success? ==>
              var copied := meter.moved - old(meter.moved) - |r.value|;
              && 0 <= copied <= 2 * |r.value|
              && (copied < 2 * |r.value| <==> |r.value| > 0)
  {
    ghost var copied: nat, outgrown: nat, grown := 0, 0, false;
    var data := new Buffer(0, extra(0), meter);
    while true
      invariant fresh(data) && data.Valid() && data.meter == meter && |data.contents| <= USIZE_MAX
      invariant Fits(source.pending)
      invariant Collect([], old(source.pending)) == Collect(data.contents, source.pending)
      invariant meter.moved == old(meter.moved) + |data.contents| + copied
      invariant Paid(copied, outgrown, grown, |data.contents|, data.capacity)
      decreases |source.pending|
    {
      ghost var results := source.pending;
      var result := source.Read();
      match result
      case Interrupted =>
        assert Collect(data.contents, results) == Collect(data.contents, source.pending);
      case Failed(code) =>
        return Failure(ReadFailed(code));
      case Octets(octets) =>
        assert |octets| <= BLOCK;
        if |octets| == 0 {
          return Success(data.contents);
        }
        var needed := |data.contents| + |octets|;
        if needed > USIZE_MAX {
          return Failure(TooLarge);
        }
        ghost var soFar := data.contents;
        assert Collect(soFar, results) == Collect(soFar + octets, source.pending);
        if needed > data.capacity {
          var requested := Max(needed, DoubleSaturating(data.capacity));
          var replacement := new Buffer(requested, extra(requested), meter);
          replacement.Extend(data.contents);
          PayForGrowth(copied, outgrown, grown, |data.contents|, data.capacity, needed, replacement.capacity);
          copied, outgrown, grown := copied + |data.contents|, data.capacity, true;
          data := replacement;
        }
        data.Extend(octets);
        assert data.contents == soFar + octets;
    }
  }

  // --- What is read ------------------------------------------------------------------

  function Concat(chunks: seq<bytes>): bytes {
    if |chunks| == 0 then [] else chunks[0] + Concat(chunks[1..])
  }

  /** The chunks of a read script without its interruptions. */
  function Chunks(results: seq<ReadResult>): seq<bytes> {
    if |results| == 0 then []
    else (if results[0].Octets? then [results[0].octets] else []) + Chunks(results[1..])
  }

  /** Octets arrive, possibly with interruptions between them. */
  ghost predicate Flows(results: seq<ReadResult>) {
    forall i | 0 <= i < |results| :: !results[i].Failed? && (results[i].Octets? ==> |results[i].octets| > 0)
  }

  /** What ends the reading: the end of the input, announced or not, or a failure. */
  ghost predicate Ends(results: seq<ReadResult>) {
    |results| > 0 ==> results[0].Failed? || (results[0].Octets? && |results[0].octets| == 0)
  }

  /** All chunks up to the end are returned, in order and whole, across any interruptions. */
  lemma {:induction false} CollectsAllChunks(soFar: bytes, flow: seq<ReadResult>, end: seq<ReadResult>)
    requires Flows(flow) && Ends(end) && |soFar + Concat(Chunks(flow))| <= USIZE_MAX
    ensures Collect(soFar, flow + end)
         == if |end| > 0 && end[0].Failed? then Failure(ReadFailed(end[0].code))
            else Success(soFar + Concat(Chunks(flow)))
    decreases |flow|
  {
    if |flow| == 0 {
      assert flow + end == end && soFar + [] == soFar;
    } else {
      var rest := flow[1..];
      assert (flow + end)[1..] == rest + end;
      if flow[0].Octets? {
        var octets := flow[0].octets;
        assert Chunks(flow)[0] == octets && Chunks(flow)[1..] == Chunks(rest);
        assert soFar + (octets + Concat(Chunks(rest))) == soFar + octets + Concat(Chunks(rest));
        CollectsAllChunks(soFar + octets, rest, end);
      } else {
        assert Chunks(flow) == Chunks(rest);
        CollectsAllChunks(soFar, rest, end);
      }
    }
  }

  /** What no length can hold is refused, at the chunk that is too much. */
  lemma TooMuchIsRefused(soFar: bytes, octets: bytes, rest: seq<ReadResult>)
    requires |soFar| <= USIZE_MAX < |soFar| + |octets|
    ensures Collect(soFar, [Octets(octets)] + rest) == Failure(TooLarge)
  {
    assert ([Octets(octets)] + rest)[0] == Octets(octets);
  }
}
