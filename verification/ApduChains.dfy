/** What is sent over any history of APDUs: chains, chunked messages, and what the device logs of them. */
module ApduChains {
  import opened Radix
  import opened Sequences
  import opened CtapHid
  import opened Loopback
  import opened FidoAdapter

  function Flatten(chunks: seq<bytes>): bytes {
    if |chunks| == 0 then [] else Flatten(chunks[..|chunks| - 1]) + chunks[|chunks| - 1]
  }

  function DataOf(command: bytes): bytes {
    var apdu := Classify(command);
    if apdu.Data? then apdu.data else []
  }

  function AllData(commands: seq<bytes>): seq<bytes> {
    seq(|commands|, i requires 0 <= i < |commands| => DataOf(commands[i]))
  }

  predicate IsFragment(command: bytes) {
    Classify(command).Data? && Classify(command).more
  }

  /** The command at `n - 1` ended whatever chain came before: a SELECT, an error, or a completed message. */
  ghost predicate EndsChain(commands: seq<bytes>, n: nat)
    requires n <= |commands|
  {
    n == 0 || !IsFragment(commands[n - 1]) || Feed(Pending(commands[..n - 1]), commands[n - 1]).1.Refuse?
  }

  /** Where the current chain began. */
  ghost function ChainStart(commands: seq<bytes>): (n: nat)
    ensures n <= |commands|
  {
    if EndsChain(commands, |commands|) then |commands| else ChainStart(commands[..|commands| - 1])
  }

  lemma EndsChainInFront(commands: seq<bytes>, k: nat)
    requires |commands| > 0 && k < |commands|
    ensures EndsChain(commands, k) <==> EndsChain(commands[..|commands| - 1], k)
  {
    if k > 0 {
      assert commands[..|commands| - 1][..k - 1] == commands[..k - 1];
    }
  }

  /** The chain began at the last SELECT, error or completed message, and nowhere later. */
  lemma {:induction false} ChainStartIsLastEnd(commands: seq<bytes>)
    ensures EndsChain(commands, ChainStart(commands))
    ensures forall k | ChainStart(commands) < k <= |commands| :: !EndsChain(commands, k)
  {
    if !EndsChain(commands, |commands|) {
      var front := commands[..|commands| - 1];
      ChainStartIsLastEnd(front);
      EndsChainInFront(commands, ChainStart(front));
      forall k | ChainStart(front) < k < |commands|
        ensures !EndsChain(commands, k)
      {
        EndsChainInFront(commands, k);
      }
    }
  }

  ghost predicate AllFragments(commands: seq<bytes>) {
    forall i | 0 <= i < |commands| :: IsFragment(commands[i])
  }

  lemma AllFragmentsSnoc(commands: seq<bytes>, command: bytes)
    requires AllFragments(commands) && IsFragment(command)
    ensures AllFragments(commands + [command])
  {
  }

  /** A fragment that ends no chain is appended to what is pending. */
  lemma FragmentIsAppended(front: seq<bytes>, last: bytes)
    requires !EndsChain(front + [last], |front| + 1)
    ensures IsFragment(last) && Pending(front + [last]) == Pending(front) + DataOf(last)
  {
    Unsnoc(front, last);
  }

  /**
   The pending buffer is always the concatenated data of the fragments since
   the last SELECT, error or completed message.
   */
  lemma {:induction false} PendingIsCurrentChain(commands: seq<bytes>)
    ensures Pending(commands) == Flatten(AllData(commands[ChainStart(commands)..]))
    ensures AllFragments(commands[ChainStart(commands)..])
  {
    var n := ChainStart(commands);
    if EndsChain(commands, |commands|) {
      assert commands[n..] == [];
      NothingPending(commands);
    } else {
      var front, last := commands[..|commands| - 1], commands[|commands| - 1];
      SplitLast(commands);
      PendingIsCurrentChain(front);
      ChainGrows(front, last, n);
    }
  }

  lemma ChainGrows(front: seq<bytes>, last: bytes, n: nat)
    requires !EndsChain(front + [last], |front| + 1) && n <= |front|
    requires Pending(front) == Flatten(AllData(front[n..])) && AllFragments(front[n..])
    ensures Pending(front + [last]) == Flatten(AllData((front + [last])[n..])) && AllFragments((front + [last])[n..])
  {
    FragmentIsAppended(front, last);
    DropSnoc(front, last, n);
    FlattenSnoc(front[n..], last);
    AllFragmentsSnoc(front[n..], last);
  }

  lemma NothingPending(commands: seq<bytes>)
    requires EndsChain(commands, |commands|)
    ensures Pending(commands) == []
  {
  }

  lemma FlattenSnoc(commands: seq<bytes>, command: bytes)
    ensures Flatten(AllData(commands + [command])) == Flatten(AllData(commands)) + DataOf(command)
  {
    var all := AllData(commands + [command]);
    assert all[..|all| - 1] == AllData(commands) && all[|all| - 1] == DataOf(command);
  }

  /** Every request sent is the data of the fragments since the last chain end, and its own. */
  lemma RequestIsChain(commands: seq<bytes>, command: bytes)
    requires Feed(Pending(commands), command).1.Send?
    ensures Requests(commands + [command])
         == Requests(commands) + [Flatten(AllData(commands[ChainStart(commands)..] + [command]))]
  {
    PendingIsCurrentChain(commands);
    assert (commands + [command])[..|commands|] == commands;
    FlattenSnoc(commands[ChainStart(commands)..], command);
  }

  /** A message cut into chunks: every command but the last chains. */
  ghost predicate Chunking(commands: seq<bytes>, chunks: seq<bytes>) {
    && |commands| == |chunks| > 0
    && forall i | 0 <= i < |commands| :: Classify(commands[i]) == Data(i < |commands| - 1, chunks[i])
  }

  lemma {:induction false} FragmentsAccumulate(history: seq<bytes>, fragments: seq<bytes>)
    requires Pending(history) == [] && |Flatten(AllData(fragments))| <= MAX_MESSAGE_LEN
    requires forall i | 0 <= i < |fragments| :: IsFragment(fragments[i])
    ensures Pending(history + fragments) == Flatten(AllData(fragments))
    ensures Requests(history + fragments) == Requests(history)
    decreases |fragments|
  {
    if |fragments| == 0 {
      assert history + fragments == history;
    } else {
      var front, last := fragments[..|fragments| - 1], fragments[|fragments| - 1];
      assert (history + fragments)[..|history + fragments| - 1] == history + front;
      assert fragments == front + [last];
      FlattenSnoc(front, last);
      FragmentsAccumulate(history, front);
    }
  }

  /**
   However a message is cut into chunks, exactly the message is sent - if and
   only if it fits one CTAPHID message.
   */
  lemma ChunkingSendsMessageIff(history: seq<bytes>, commands: seq<bytes>, chunks: seq<bytes>)
    requires Pending(history) == [] && Chunking(commands, chunks)
    ensures |Flatten(chunks)| <= MAX_MESSAGE_LEN
       <==> Requests(history + commands) == Requests(history) + [Flatten(chunks)]
  {
    if |Flatten(chunks)| <= MAX_MESSAGE_LEN {
      var front, last := commands[..|commands| - 1], commands[|commands| - 1];
      assert AllData(front) == chunks[..|chunks| - 1];
      FragmentsAccumulate(history, front);
      assert (history + commands)[..|history + commands| - 1] == history + front;
    } else {
      RequestsFit(Requests(history + commands), Requests(history), Flatten(chunks));
    }
  }

  lemma RequestsFit(requests: seq<Payload>, earlier: seq<Payload>, message: bytes)
    ensures requests == earlier + [message] ==> |message| <= MAX_MESSAGE_LEN
  {
    if requests == earlier + [message] {
      assert requests[|earlier|] == message;
    }
  }

  /** The fragment is refused, as too long for what is pending. */
  ghost predicate IsRefused(history: seq<bytes>, fragment: bytes) {
    Feed(Pending(history), fragment).1.Refuse?
  }

  lemma FeedFragment(commands: seq<bytes>, fragment: bytes)
    requires IsFragment(fragment)
    ensures Pending(commands + [fragment])
         == if IsRefused(commands, fragment) then [] else Pending(commands) + DataOf(fragment)
    ensures Requests(commands + [fragment]) == Requests(commands)
  {
    FeedSnoc(commands, fragment);
  }

  lemma FeedLast(commands: seq<bytes>, command: bytes, data: bytes, message: bytes)
    requires Classify(command) == Data(false, data) && message == Pending(commands) + data
    ensures Requests(commands + [command])
         == Requests(commands) + if |message| <= MAX_MESSAGE_LEN then [message] else []
  {
    FeedSnoc(commands, command);
  }

  /** The last hit up to `n`, or 0. */
  ghost function LastHit(hit: nat -> bool, n: nat): (k: nat)
    ensures k <= n
    ensures (k > 0 ==> hit(k)) && forall i: nat | k < i <= n :: !hit(i)
  {
    if n == 0 || hit(n) then n else LastHit(hit, n - 1)
  }

  /** How many fragments come before those that are kept: all up to the last one refused. */
  ghost function AfterLastRefusal(history: seq<bytes>, fragments: seq<bytes>): (n: nat)
    ensures n <= |fragments|
  {
    LastHit(RefusalsOf(IsRefused, history, fragments), |fragments|)
  }

  lemma {:induction false} FragmentsSendNothing(history: seq<bytes>, fragments: seq<bytes>)
    requires AllFragments(fragments)
    ensures Requests(history + fragments) == Requests(history)
    decreases |fragments|
  {
    if |fragments| == 0 {
      assert history + fragments == history;
    } else {
      var front, last := fragments[..|fragments| - 1], fragments[|fragments| - 1];
      assert history + fragments == history + front + [last];
      FragmentsSendNothing(history, front);
      FeedFragment(history + front, last);
    }
  }

  function FlattenBy<T>(data: T -> bytes, fragments: seq<T>): bytes {
    if |fragments| == 0 then []
    else FlattenBy(data, fragments[..|fragments| - 1]) + data(fragments[|fragments| - 1])
  }

  lemma {:induction false} FlattenByData(fragments: seq<bytes>)
    ensures FlattenBy(DataOf, fragments) == Flatten(AllData(fragments))
  {
    if |fragments| > 0 {
      var front, last := fragments[..|fragments| - 1], fragments[|fragments| - 1];
      assert fragments == front + [last];
      FlattenByData(front);
      FlattenSnoc(front, last);
    }
  }

  /** A buffer that takes fragments until it refuses one, which empties it. */
  ghost predicate Buffers<T>(
    held: seq<T> -> bytes, refuses: (seq<T>, T) -> bool, data: T -> bytes, history: seq<T>, fragments: seq<T>) {
    forall k | 0 <= k < |fragments| ::
      held(history + fragments[..k + 1])
      == if refuses(history + fragments[..k], fragments[k]) then []
         else held(history + fragments[..k]) + data(fragments[k])
  }

  lemma BuffersFront<T>(held: seq<T> -> bytes, refuses: (seq<T>, T) -> bool, data: T -> bytes,
                        history: seq<T>, front: seq<T>, last: T)
    requires Buffers(held, refuses, data, history, front + [last])
    ensures Buffers(held, refuses, data, history, front)
    ensures held(history + (front + [last]))
         == if refuses(history + front, last) then [] else held(history + front) + data(last)
  {
    var fragments := front + [last];
    forall k | 0 <= k < |front|
      ensures held(history + front[..k + 1])
           == if refuses(history + front[..k], front[k]) then [] else held(history + front[..k]) + data(front[k])
    {
      assert fragments[..k + 1] == front[..k + 1] && fragments[..k] == front[..k] && fragments[k] == front[k];
    }
    assert fragments[..|front| + 1] == fragments && fragments[..|front|] == front;
  }

  lemma FlattenBySuffix<T>(data: T -> bytes, front: seq<T>, last: T, n: nat)
    requires n <= |front|
    ensures FlattenBy(data, (front + [last])[n..]) == FlattenBy(data, front[n..]) + data(last)
  {
    var kept := (front + [last])[n..];
    assert kept[..|kept| - 1] == front[n..] && kept[|kept| - 1] == last;
  }

  ghost function RefusalsOf<T>(refuses: (seq<T>, T) -> bool, history: seq<T>, fragments: seq<T>): nat -> bool {
    (n: nat) => 0 < n <= |fragments| && refuses(history + fragments[..n - 1], fragments[n - 1])
  }

  lemma RefusalSnoc<T>(refuses: (seq<T>, T) -> bool, history: seq<T>, front: seq<T>, last: T)
    ensures LastHit(RefusalsOf(refuses, history, front + [last]), |front| + 1)
         == if refuses(history + front, last) then |front| + 1
            else LastHit(RefusalsOf(refuses, history, front), |front|)
  {
    var fragments := front + [last];
    var hit, hit' := RefusalsOf(refuses, history, fragments), RefusalsOf(refuses, history, front);
    assert fragments[..|front|] == front;
    forall i: nat | i <= |front|
      ensures hit(i) == hit'(i)
    {
      if i > 0 {
        assert fragments[..i - 1] == front[..i - 1];
      }
    }
    SameLastHit(hit, hit', |front|);
  }

  lemma {:induction false} SameLastHit(hit: nat -> bool, hit': nat -> bool, n: nat)
    requires forall i: nat | i <= n :: hit(i) == hit'(i)
    ensures LastHit(hit, n) == LastHit(hit', n)
  {
    if n > 0 {
      SameLastHit(hit, hit', n - 1);
    }
  }

  lemma {:induction false} HeldSinceRefusal<T>(
      held: seq<T> -> bytes, refuses: (seq<T>, T) -> bool, data: T -> bytes, history: seq<T>, fragments: seq<T>)
    requires Buffers(held, refuses, data, history, fragments) && held(history) == []
    ensures var n := LastHit(RefusalsOf(refuses, history, fragments), |fragments|);
            held(history + fragments) == FlattenBy(data, fragments[n..])
    decreases |fragments|
  {
    if |fragments| == 0 {
      assert history + fragments == history;
    } else {
      var front, last := fragments[..|fragments| - 1], fragments[|fragments| - 1];
      assert fragments == front + [last];
      BuffersFront(held, refuses, data, history, front, last);
      HeldSinceRefusal(held, refuses, data, history, front);
      RefusalSnoc(refuses, history, front, last);
      FlattenBySuffix(data, front, last, LastHit(RefusalsOf(refuses, history, front), |front|));
      assert fragments[|fragments|..] == [];
    }
  }

  lemma PendingBuffers(history: seq<bytes>, fragments: seq<bytes>)
    requires AllFragments(fragments)
    ensures Buffers(Pending, IsRefused, DataOf, history, fragments)
  {
    forall k | 0 <= k < |fragments|
      ensures Pending(history + fragments[..k + 1])
           == if IsRefused(history + fragments[..k], fragments[k]) then []
              else Pending(history + fragments[..k]) + DataOf(fragments[k])
    {
      assert history + fragments[..k + 1] == history + fragments[..k] + [fragments[k]];
      FeedFragment(history + fragments[..k], fragments[k]);
    }
  }

  /** Whether they fit or not, what is pending is the fragments since the last one refused. */
  lemma FragmentsSinceRefusal(history: seq<bytes>, fragments: seq<bytes>)
    requires Pending(history) == [] && AllFragments(fragments)
    ensures Pending(history + fragments) == Flatten(AllData(fragments[AfterLastRefusal(history, fragments)..]))
  {
    PendingBuffers(history, fragments);
    HeldSinceRefusal(Pending, IsRefused, DataOf, history, fragments);
    FlattenByData(fragments[AfterLastRefusal(history, fragments)..]);
  }

  lemma ChunksPending(history: seq<bytes>, commands: seq<bytes>, chunks: seq<bytes>)
    requires Pending(history) == [] && Chunking(commands, chunks)
    ensures var front := commands[..|commands| - 1];
            && AllFragments(front)
            && Pending(history + front) + chunks[|chunks| - 1] == Flatten(chunks[AfterLastRefusal(history, front)..])
  {
    var front := commands[..|commands| - 1];
    ChunksOf(commands, chunks, AfterLastRefusal(history, front));
    FragmentsSinceRefusal(history, front);
  }

  lemma ChunksOf(commands: seq<bytes>, chunks: seq<bytes>, n: nat)
    requires Chunking(commands, chunks) && n < |commands|
    ensures AllFragments(commands[..|commands| - 1])
    ensures Flatten(AllData(commands[..|commands| - 1][n..])) + chunks[|chunks| - 1] == Flatten(chunks[n..])
  {
    var front, kept := commands[..|commands| - 1], chunks[n..];
    assert AllData(front[n..]) == kept[..|kept| - 1];
  }

  lemma SendsKept(history: seq<bytes>, front: seq<bytes>, last: bytes, data: bytes, message: bytes)
    requires AllFragments(front) && Classify(last) == Data(false, data)
    requires Pending(history + front) + data == message
    ensures Requests(history + (front + [last]))
         == Requests(history) + if |message| <= MAX_MESSAGE_LEN then [message] else []
  {
    FragmentsSendNothing(history, front);
    FeedLast(history + front, last, data, message);
    assert history + (front + [last]) == history + front + [last];
  }

  /** What any chunking sends: the chunks since the last one refused, or nothing if they do not fit either. */
  lemma ChunkingSends(history: seq<bytes>, commands: seq<bytes>, chunks: seq<bytes>)
    requires Pending(history) == [] && Chunking(commands, chunks)
    ensures var kept := chunks[AfterLastRefusal(history, commands[..|commands| - 1])..];
            Requests(history + commands)
            == Requests(history) + if |Flatten(kept)| <= MAX_MESSAGE_LEN then [Flatten(kept)] else []
  {
    var front, last := commands[..|commands| - 1], commands[|commands| - 1];
    var kept := chunks[AfterLastRefusal(history, front)..];
    ChunksPending(history, commands, chunks);
    SendsKept(history, front, last, chunks[|chunks| - 1], Flatten(kept));
    SplitLast(commands);
  }

  lemma FlattenThree(a: bytes, b: bytes, c: bytes)
    ensures |Flatten([a, b, c])| == |a| + |b| + |c|
  {
    assert [a, b, c] == [] + [a] + [b] + [c];
    FlattenChunk([], a);
    FlattenChunk([a], b);
    FlattenChunk([a, b], c);
  }

  lemma FlattenChunk(front: seq<bytes>, last: bytes)
    ensures Flatten(front + [last]) == Flatten(front) + last
  {
    Unsnoc(front, last);
  }

  /** A second chunk that does not fit is dropped with the first; the third is then sent as if it were a message. */
  lemma TailIsSent(history: seq<bytes>, commands: seq<bytes>, chunks: seq<bytes>)
    requires Pending(history) == [] && Chunking(commands, chunks) && |chunks| == 3
    requires |chunks[0]| <= MAX_MESSAGE_LEN && |chunks[2]| <= MAX_MESSAGE_LEN
    requires |chunks[0]| + |chunks[1]| > MAX_MESSAGE_LEN
    ensures Requests(history + commands) == Requests(history) + [chunks[2]]
  {
    OneByOne(history, commands);
    DroppedTogether(history, commands[0], commands[1], chunks[0], chunks[1]);
    SentAlone(history + [commands[0]] + [commands[1]], commands[2], chunks[2]);
  }

  lemma OneByOne<T>(history: seq<T>, commands: seq<T>)
    requires |commands| == 3
    ensures history + commands == history + [commands[0]] + [commands[1]] + [commands[2]]
  {
  }

  lemma SentAlone(history: seq<bytes>, command: bytes, data: bytes)
    requires Pending(history) == [] && Classify(command) == Data(false, data) && |data| <= MAX_MESSAGE_LEN
    ensures Requests(history + [command]) == Requests(history) + [data]
  {
    FeedSnoc(history, command);
    Empty(data);
  }

  lemma DroppedTogether(history: seq<bytes>, first: bytes, second: bytes, a: bytes, b: bytes)
    requires Pending(history) == [] && Classify(first) == Data(true, a) && Classify(second) == Data(true, b)
    requires |a| <= MAX_MESSAGE_LEN < |a| + |b|
    ensures Pending(history + [first] + [second]) == []
    ensures Requests(history + [first] + [second]) == Requests(history)
  {
    FeedSnoc(history, first);
    FeedSnoc(history + [first], second);
    Empty(a);
  }

  /** Three chunks of an overlong message, the second refused, and what is sent: the third, on its own. */
  lemma OverlongTail() returns (commands: seq<bytes>, chunks: seq<bytes>)
    ensures Chunking(commands, chunks) && |chunks| == 3 && |Flatten(chunks)| > MAX_MESSAGE_LEN
    ensures Requests(commands) == [chunks[2]]
  {
    var half: bytes, tail: bytes := seq(4000, _ => 0), [1];
    chunks := [half, half, tail];
    commands := [EncodeApdu(true, 0, 0, half, true), EncodeApdu(true, 0, 0, half, true),
                 EncodeApdu(false, 0, 0, tail, true)];
    EncodedIsData(true, 0, 0, half, true);
    EncodedIsData(false, 0, 0, tail, true);
    FlattenThree(half, half, tail);
    TailIsSent([], commands, chunks);
    assert [] + commands == commands;
  }

  /** What the adapter put on the wire, fed to a device: its requests are logged in order, and nothing else. */
  lemma DeviceLogsHistory(a: CtapHidAdapter, d: Device, seen: seq<Report>)
    requires a.Valid() && !a.refused
    ensures |a.base| <= |a.channel.io.written|
    ensures d.ReceiveAll(seen, a.channel.io.written[|a.base|..]).cborLog == d.cborLog + Requests(a.commands)
  {
    DeviceLogsRequests(d, seen, a.channel.cid, Requests(a.commands));
    assert a.channel.io.written[|a.base|..] == Written(a.channel.cid, Requests(a.commands));
  }

  /** Any chunking of a message that fits: the device logs the earlier requests and then the message, once. */
  lemma DeviceLogsChunkedMessage(
      a: CtapHidAdapter, d: Device, seen: seq<Report>, history: seq<bytes>, commands: seq<bytes>, chunks: seq<bytes>)
    requires a.Valid() && !a.refused && a.commands == history + commands
    requires Pending(history) == [] && Chunking(commands, chunks) && |Flatten(chunks)| <= MAX_MESSAGE_LEN
    ensures |a.base| <= |a.channel.io.written|
    ensures d.ReceiveAll(seen, a.channel.io.written[|a.base|..]).cborLog
         == d.cborLog + Requests(history) + [Flatten(chunks)]
  {
    DeviceLogsHistory(a, d, seen);
    ChunkingSendsMessageIff(history, commands, chunks);
    Associate(d.cborLog, Requests(history), [Flatten(chunks)]);
  }
}
