/** An in-memory authenticator at the other end of CTAPHID: it answers the host. */
module Loopback {
  import opened Wrappers
  import opened Radix
  import opened Sequences
  import opened CtapHid
  import opened CtapChannel
  import opened CtapRefinement

  type Payload = b: bytes | |b| <= MAX_MESSAGE_LEN

  datatype CborBehavior =
    | Respond(payload: Payload)
    | KeepaliveThen(statuses: seq<KeepaliveStatus>, payload: Payload)
    | Scripted(payloads: seq<Payload>)
    | Fail(error: DeviceError)

  function StatusByte(status: KeepaliveStatus): byte {
    match status
    case Processing => 0x01
    case UserPresenceNeeded => 0x02
    case UnknownStatus(code) => code
  }

  function StatusBytes(statuses: seq<KeepaliveStatus>): bytes {
    seq(|statuses|, i requires 0 <= i < |statuses| => StatusByte(statuses[i]))
  }

  function ErrorByte(error: DeviceError): byte {
    match error
    case InvalidCmd => 0x01
    case InvalidParam => 0x02
    case InvalidLen => 0x03
    case InvalidSeq => 0x04
    case MsgTimeout => 0x05
    case ChannelBusy => 0x06
    case LockRequired => 0x0a
    case InvalidChannel => 0x0b
    case Other => 0x7f
    case Unknown(code) => code
  }

  /** Statuses and errors that are called unknown only when they are. */
  predicate Proper(status: KeepaliveStatus) {
    status.UnknownStatus? ==> status.code !in {1, 2}
  }

  predicate ProperError(error: DeviceError) {
    error.Unknown? ==> error.code !in {0x01, 0x02, 0x03, 0x04, 0x05, 0x06, 0x0a, 0x0b, 0x7f}
  }

  /** The longest INIT request whose reply still fits one message. */
  const MAX_INIT_REQUEST := 7600

  datatype Device = Device(outbox: seq<Report>, nextCid: nat, cbor: CborBehavior, cborLog: seq<bytes>) {
    function Respond(cid: Cid, cmd: Command, payload: Payload): Device {
      this.(outbox := outbox + Frames(cid, cmd, payload))
    }

    /** What the device does with one complete request. */
    function Handle(cid: Cid, cmd: Command, payload: Payload): Device {
      match cmd
      case Init =>
        if |payload| > MAX_INIT_REQUEST then this.(nextCid := nextCid + 1)
        else
          this.(nextCid := nextCid + 1).Respond(
            BROADCAST_CID, Init, InitReply(payload, Be(nextCid, 4)))
      case Ping => Respond(cid, Ping, payload)
      case Wink => Respond(cid, Wink, [])
      case Cbor =>
        var logged := this.(cborLog := cborLog + [payload]);
        (match cbor
         case Respond(reply) => logged.Respond(cid, Cbor, reply)
         case Scripted(replies) =>
           if |replies| == 0 then logged.Respond(cid, Error, [0x01])
           else logged.(cbor := Scripted(replies[1..])).Respond(cid, Cbor, replies[0])
         case KeepaliveThen(statuses, reply) =>
           logged.(outbox := outbox + FramesOf(cid, KeepaliveMessages(StatusBytes(statuses)))).Respond(cid, Cbor, reply)
         case Fail(error) => logged.Respond(cid, Error, [ErrorByte(error)]))
      case _ => Respond(cid, Error, [0x01])
    }

    /** The last report of `history` arrives. */
    function Receive(history: seq<Report>): Device
      requires |history| > 0
    {
      match Decode(history)
      case Success(Some((cmd, payload))) =>
        if |payload| <= MAX_MESSAGE_LEN then Handle(history[|history| - 1][..4], cmd, payload) else this
      case _ => this
    }

    /** Reports arrive one after the other. */
    function ReceiveAll(history: seq<Report>, reports: seq<Report>): Device
      decreases |reports|
    {
      if |reports| == 0 then this
      else
        var seen := history + [reports[0]];
        Receive(seen).ReceiveAll(seen, reports[1..])
    }
  }

  /** Writing fails on a framing violation, and panics when the reply to an INIT request cannot be framed. */
  datatype Reception = Accepted | Rejected | Panicked

  /** What becomes of the last report of `history`. */
  function ReceptionOf(history: seq<Report>): Reception
    requires |history| > 0
  {
    match Decode(history)
    case Failure(_) => Rejected
    case Success(None) => Accepted
    case Success(Some((cmd, payload))) => if cmd == Init && |payload| > MAX_INIT_REQUEST then Panicked else Accepted
  }

  /** The device panics exactly when it would have to frame an INIT reply that does not fit a message. */
  lemma PanicsIffReplyTooLong(history: seq<Report>, cid: Cid)
    requires |history| > 0
    ensures ReceptionOf(history) == Panicked
       <==> exists nonce :: EndsWithMessage(history, Init, nonce) && |InitReply(nonce, cid)| > MAX_MESSAGE_LEN
  {
    forall nonce
      ensures Decode(history) == Success(Some((Init, nonce))) <==> EndsWithMessage(history, Init, nonce)
    {
      DecodeIffMessage(history, Init, nonce);
    }
  }

  class LoopbackDevice {
    var state: Device
    const decoder: MessageDecoder

    ghost predicate Valid()
      reads this, decoder
    {
      decoder.Valid()
    }

    constructor (cbor: CborBehavior)
      ensures Valid() && fresh(decoder) && decoder.history == []
      ensures state == Device.Device([], 1, cbor, [])
    {
      decoder := new MessageDecoder();
      state := Device.Device([], 1, cbor, []);
    }

    method WriteReport(report: Report) returns (r: Reception)
      requires Valid()
      modifies this, decoder
      ensures Valid() && decoder.history == old(decoder.history) + [report]
      ensures r == ReceptionOf(decoder.history)
      ensures state == old(state).Receive(decoder.history)
    {
      var pushed := decoder.Push(report);
      if pushed.Failure? {
        return Rejected;
      }
      if pushed.value.Some? {
        var (cmd, payload) := pushed.value.value;
        DeliveredFits(decoder.history, cmd, payload);
        state := state.Handle(report[..4], cmd, payload);
        if cmd == Init && |payload| > MAX_INIT_REQUEST {
          return Panicked;
        }
      }
      return Accepted;
    }

    method ReadReport() returns (event: ReadEvent)
      modifies this
      ensures |old(state.outbox)| == 0 ==> event == Nothing && state == old(state)
      ensures |old(state.outbox)| > 0 ==>
                event == Got(old(state.outbox)[0]) && state == old(state).(outbox := old(state.outbox)[1..])
    {
      if |state.outbox| == 0 {
        return Nothing;
      }
      event := Got(state.outbox[0]);
      state := state.(outbox := state.outbox[1..]);
    }
  }

  lemma DeliveredFits(history: seq<Report>, cmd: Command, payload: bytes)
    requires |history| > 0 && Decode(history) == Success(Some((cmd, payload)))
    ensures |payload| <= MAX_MESSAGE_LEN
  {
    DecodeIffMessage(history, cmd, payload);
  }

  lemma ReceivePending(d: Device, history: seq<Report>, reports: seq<Report>)
    requires |reports| > 0 && Decode(history + [reports[0]]) == Success(None)
    ensures d.ReceiveAll(history, reports) == d.ReceiveAll(history + [reports[0]], reports[1..])
  {
    assert (history + [reports[0]])[|history|] == reports[0];
  }

  lemma ReceiveLast(d: Device, history: seq<Report>, report: Report, cmd: Command, payload: Payload)
    requires Decode(history + [report]) == Success(Some((cmd, payload)))
    ensures d.ReceiveAll(history, [report]) == d.Handle(report[..4], cmd, payload)
  {
    assert (history + [report])[|history|] == report;
    assert [report][1..] == [];
  }

  lemma {:induction false} ReceivePrefix(
      d: Device, history: seq<Report>, cid: Cid, cmd: Command, payload: Payload, k: nat)
    requires k < PacketCount(|payload|)
    ensures var frames := Frames(cid, cmd, payload);
            d.ReceiveAll(history + frames[..k], frames[k..]) == d.Handle(cid, cmd, payload)
    decreases PacketCount(|payload|) - k
  {
    var frames := Frames(cid, cmd, payload);
    var rest := frames[k..];
    assert history + frames[..k] + [rest[0]] == history + frames[..k + 1];
    FramesArrive(history, cid, cmd, payload, k + 1);
    if k + 1 < PacketCount(|payload|) {
      ReceivePending(d, history + frames[..k], rest);
      assert rest[1..] == frames[k + 1..];
      ReceivePrefix(d, history, cid, cmd, payload, k + 1);
    } else {
      assert rest == [frames[k]];
      PacketIsFor(cid, cmd, payload, k);
      ReceiveLast(d, history + frames[..k], frames[k], cmd, payload);
    }
  }

  lemma PacketIsFor(cid: Cid, cmd: Command, payload: Payload, k: nat)
    requires k < PacketCount(|payload|)
    ensures Frames(cid, cmd, payload)[k][..4] == cid
  {
    assert Packet(cid, cmd, payload, k)[..4] == cid;
  }

  /** Whatever the device saw before, a framed request is handled exactly once, unchanged. */
  lemma DeviceReceivesMessage(d: Device, history: seq<Report>, cid: Cid, cmd: Command, payload: Payload)
    ensures d.ReceiveAll(history, Frames(cid, cmd, payload)) == d.Handle(cid, cmd, payload)
  {
    var frames := Frames(cid, cmd, payload);
    assert frames[0..] == frames && history + frames[..0] == history;
    ReceivePrefix(d, history, cid, cmd, payload, 0);
  }

  lemma {:induction false} ReceiveConcat(d: Device, history: seq<Report>, a: seq<Report>, b: seq<Report>)
    ensures d.ReceiveAll(history, a + b) == d.ReceiveAll(history, a).ReceiveAll(history + a, b)
    decreases |a|
  {
    if |a| == 0 {
      assert a + b == b && history + a == history;
    } else {
      assert (a + b)[1..] == a[1..] + b;
      assert history + [a[0]] + a[1..] == history + a;
      ReceiveConcat(d.Receive(history + [a[0]]), history + [a[0]], a[1..], b);
    }
  }

  function CborMessages(requests: seq<Payload>): seq<Message> {
    seq(|requests|, i requires 0 <= i < |requests| => (Cbor, requests[i]))
  }

  lemma LogsRequest(d: Device, cid: Cid, request: Payload)
    ensures d.Handle(cid, Cbor, request).cborLog == d.cborLog + [request]
  {
  }

  /** The device logs exactly the requests that were sent, in order. */
  lemma {:induction false} DeviceLogsRequests(d: Device, history: seq<Report>, cid: Cid, requests: seq<Payload>)
    ensures d.ReceiveAll(history, FramesOf(cid, CborMessages(requests))).cborLog == d.cborLog + requests
    decreases |requests|
  {
    if |requests| > 0 {
      var first, rest := Frames(cid, Cbor, requests[0]), FramesOf(cid, CborMessages(requests[1..]));
      assert CborMessages(requests)[1..] == CborMessages(requests[1..]);
      ReceiveConcat(d, history, first, rest);
      DeviceReceivesMessage(d, history, cid, Cbor, requests[0]);
      LogsRequest(d, cid, requests[0]);
      DeviceLogsRequests(d.Handle(cid, Cbor, requests[0]), history + first, cid, requests[1..]);
      SplitFirst(requests);
      Associate(d.cborLog, [requests[0]], requests[1..]);
    }
  }

  function Delivered(reports: seq<Report>): seq<ReadEvent> {
    seq(|reports|, i requires 0 <= i < |reports| => Got(reports[i]))
  }

  lemma {:induction false} OursOfDelivered(cid: Cid, reports: seq<Report>)
    requires forall i | 0 <= i < |reports| :: reports[i][..4] == cid
    ensures Ours(cid, Delivered(reports)) == reports
  {
    if |reports| > 0 {
      assert Delivered(reports)[1..] == Delivered(reports[1..]);
      OursOfDelivered(cid, reports[1..]);
    }
  }

  lemma {:induction false} FramesOnChannel(cid: Cid, msgs: seq<Message>)
    requires forall i | 0 <= i < |msgs| :: |msgs[i].1| <= MAX_MESSAGE_LEN
    ensures forall i | 0 <= i < |FramesOf(cid, msgs)| :: FramesOf(cid, msgs)[i][..4] == cid
    ensures |msgs| > 0 ==> |FramesOf(cid, msgs)| > 0
  {
    if |msgs| > 0 {
      FramesOnChannel(cid, msgs[1..]);
      forall i | 0 <= i < |Frames(cid, msgs[0].0, msgs[0].1)|
        ensures Frames(cid, msgs[0].0, msgs[0].1)[i][..4] == cid
      {
        assert Packet(cid, msgs[0].0, msgs[0].1, i)[..4] == cid;
      }
    }
  }

  lemma {:induction false} FramesOfSnoc(cid: Cid, msgs: seq<Message>, m: Message)
    requires forall i | 0 <= i < |msgs| :: |msgs[i].1| <= MAX_MESSAGE_LEN
    requires |m.1| <= MAX_MESSAGE_LEN
    ensures FramesOf(cid, msgs + [m]) == FramesOf(cid, msgs) + Frames(cid, m.0, m.1)
  {
    if |msgs| > 0 {
      assert (msgs + [m])[1..] == msgs[1..] + [m];
      FramesOfSnoc(cid, msgs[1..], m);
    } else {
      assert [m][1..] == [];
    }
  }

  /** Messages sent back to back are heard one report at a time. */
  lemma SentIsHeard(cid: Cid, cmd: Command, statuses: bytes, reply: Payload)
    requires cmd != Keepalive && cmd != Error
    ensures var reports := FramesOf(cid, KeepaliveMessages(statuses) + [(cmd, reply)]);
            var heard := Listen(cid, ResponseJudge(cmd), Delivered(reports), []);
            && heard.result == Success(reply) && heard.rest == []
            && Statuses(heard.passed)
               == seq(|statuses|, i requires 0 <= i < |statuses| => StatusFromByte(statuses[i]))
  {
    var msgs := KeepaliveMessages(statuses) + [(cmd, reply)];
    var events := Delivered(FramesOf(cid, msgs));
    FramesSpell(cid, msgs);
    FramesOnChannel(cid, msgs);
    OursOfDelivered(cid, FramesOf(cid, msgs));
    assert events + [] == events;
    RequestReturnsReply(cid, cmd, events, [], statuses, reply);
  }

  lemma StatusesReadBack(statuses: seq<KeepaliveStatus>)
    requires forall i | 0 <= i < |statuses| :: Proper(statuses[i])
    ensures var sent := StatusBytes(statuses);
            seq(|sent|, i requires 0 <= i < |sent| => StatusFromByte(sent[i])) == statuses
  {
  }

  /** The messages of one answer. */
  function AnswerOf(statuses: seq<KeepaliveStatus>, reply: Payload): seq<Message> {
    KeepaliveMessages(StatusBytes(statuses)) + [(Cbor, reply)]
  }

  lemma Replies(d: Device, cid: Cid, request: Payload, statuses: seq<KeepaliveStatus>, reply: Payload)
    requires d.cbor == KeepaliveThen(statuses, reply) || (statuses == [] && d.cbor == CborBehavior.Respond(reply))
    ensures d.Handle(cid, Cbor, request).outbox == d.outbox + FramesOf(cid, AnswerOf(statuses, reply))
  {
    var keepalives := FramesOf(cid, KeepaliveMessages(StatusBytes(statuses)));
    FramesOfSnoc(cid, KeepaliveMessages(StatusBytes(statuses)), (Cbor, reply));
    Associate(d.outbox, keepalives, Frames(cid, Cbor, reply));
    assert statuses == [] ==> keepalives == [] && [] + Frames(cid, Cbor, reply) == Frames(cid, Cbor, reply);
  }

  /**
   End to end: from any device history with no stale output, a CBOR request
   reaches the device unchanged, and waiting on what the device then sends
   returns its reply after exactly its keepalives.
   */
  lemma RequestRoundTrip(
      d: Device, history: seq<Report>, cid: Cid, request: Payload, statuses: seq<KeepaliveStatus>, reply: Payload)
    requires d.outbox == [] && forall i | 0 <= i < |statuses| :: Proper(statuses[i])
    requires d.cbor == KeepaliveThen(statuses, reply) || (statuses == [] && d.cbor == CborBehavior.Respond(reply))
    ensures var d' := d.ReceiveAll(history, Frames(cid, Cbor, request));
            var heard := Listen(cid, ResponseJudge(Cbor), Delivered(d'.outbox), []);
            && d'.cborLog == d.cborLog + [request]
            && heard.result == Success(reply) && heard.rest == [] && Statuses(heard.passed) == statuses
  {
    DeviceReceivesMessage(d, history, cid, Cbor, request);
    LogsRequest(d, cid, request);
    Replies(d, cid, request, statuses, reply);
    Empty(FramesOf(cid, AnswerOf(statuses, reply)));
    SentIsHeard(cid, Cbor, StatusBytes(statuses), reply);
    StatusesReadBack(statuses);
  }

  // --- Messages that are still queued ----------------------------------------------------

  ghost predicate AllFit(msgs: seq<Message>) {
    forall i | 0 <= i < |msgs| :: |msgs[i].1| <= MAX_MESSAGE_LEN
  }

  /** The first message that ends the waiting, or their number. */
  ghost function FirstDone<R>(judge: Message -> Verdict<R>, msgs: seq<Message>): (k: nat)
    ensures k <= |msgs| && (forall i | 0 <= i < k :: judge(msgs[i]) == Continue)
    ensures k < |msgs| ==> judge(msgs[k]).Done?
  {
    if |msgs| == 0 || judge(msgs[0]).Done? then 0 else 1 + FirstDone(judge, msgs[1..])
  }

  lemma AllFitConcat(a: seq<Message>, b: seq<Message>)
    ensures AllFit(a + b) <==> AllFit(a) && AllFit(b)
  {
    if AllFit(a + b) {
      forall i | 0 <= i < |a|
        ensures |a[i].1| <= MAX_MESSAGE_LEN
      {
        assert (a + b)[i] == a[i];
      }
      forall i | 0 <= i < |b|
        ensures |b[i].1| <= MAX_MESSAGE_LEN
      {
        assert (a + b)[|a| + i] == b[i];
      }
    }
  }

  lemma {:induction false} FramesOfConcat(cid: Cid, a: seq<Message>, b: seq<Message>)
    requires AllFit(a) && AllFit(b)
    ensures AllFit(a + b) && FramesOf(cid, a + b) == FramesOf(cid, a) + FramesOf(cid, b)
  {
    AllFitConcat(a, b);
    if |a| == 0 {
      Empty(b);
      Empty(FramesOf(cid, b));
    } else {
      var rest := a[1..];
      SplitFirst(a);
      FramesOfConcat(cid, rest, b);
      Associate([a[0]], rest, b);
      FramesOfCons(cid, a[0], rest + b);
      FramesOfCons(cid, a[0], rest);
      Associate(Frames(cid, a[0].0, a[0].1), FramesOf(cid, rest), FramesOf(cid, b));
    }
  }

  lemma FramesOfCons(cid: Cid, m: Message, rest: seq<Message>)
    requires |m.1| <= MAX_MESSAGE_LEN && AllFit(rest)
    ensures AllFit([m] + rest) && FramesOf(cid, [m] + rest) == Frames(cid, m.0, m.1) + FramesOf(cid, rest)
  {
    assert ([m] + rest)[1..] == rest;
  }

  lemma DeliveredConcat(a: seq<Report>, b: seq<Report>)
    ensures Delivered(a + b) == Delivered(a) + Delivered(b)
  {
  }

  /** Of messages sent back to back, the first that ends the waiting is heard; all after it stay queued. */
  lemma FirstDoneIsHeard<R>(cid: Cid, judge: Message -> Verdict<R>, msgs: seq<Message>, k: nat)
    requires AllFit(msgs) && k == FirstDone(judge, msgs) < |msgs|
    ensures Listen(cid, judge, Delivered(FramesOf(cid, msgs)), [])
         == Heard(judge(msgs[k]).result, msgs[..k], Delivered(FramesOf(cid, msgs[k + 1..])))
  {
    var heard, later := msgs[..k + 1], msgs[k + 1..];
    var frames, tail := FramesOf(cid, heard), Delivered(FramesOf(cid, later));
    assert msgs == heard + later && heard[..k] == msgs[..k];
    FramesOfConcat(cid, heard, later);
    DeliveredConcat(frames, FramesOf(cid, later));
    FramesSpell(cid, heard);
    FramesOnChannel(cid, heard);
    OursOfDelivered(cid, frames);
    ListenRefinesMessages(cid, judge, Delivered(frames), tail, [], heard);
  }

  /**
   What a request returns when messages of the channel are still queued: the
   first message, queued or new, that is a response or an error. It is the
   device's own answer exactly when none of the queued ones is.
   */
  lemma QueuedComeFirst(d: Device, history: seq<Report>, cid: Cid, request: Payload,
                        queued: seq<Message>, statuses: seq<KeepaliveStatus>, reply: Payload)
    requires AllFit(queued) && d.outbox == FramesOf(cid, queued)
    requires d.cbor == KeepaliveThen(statuses, reply) || (statuses == [] && d.cbor == CborBehavior.Respond(reply))
    ensures var d', all := d.ReceiveAll(history, Frames(cid, Cbor, request)), queued + AnswerOf(statuses, reply);
            var heard := Listen(cid, ResponseJudge(Cbor), Delivered(d'.outbox), []);
            var k := FirstDone(ResponseJudge(Cbor), all);
            && k < |all| && AllFit(all)
            && heard == Heard(ResponseJudge(Cbor)(all[k]).result, all[..k], Delivered(FramesOf(cid, all[k + 1..])))
            && (k == |all| - 1 <==> forall i | 0 <= i < |queued| :: ResponseJudge(Cbor)(queued[i]) == Continue)
  {
    var all, judge := queued + AnswerOf(statuses, reply), ResponseJudge(Cbor);
    DeviceReceivesMessage(d, history, cid, Cbor, request);
    Replies(d, cid, request, statuses, reply);
    FramesOfConcat(cid, queued, AnswerOf(statuses, reply));
    assert all[|all| - 1] == (Cbor, reply) && judge((Cbor, reply)) == Done(Success(reply));
    FirstDoneIsHeard(cid, judge, all, FirstDone(judge, all));
    KeepalivesPassed(StatusBytes(statuses));
    FirstDoneIsLast(judge, queued, KeepaliveMessages(StatusBytes(statuses)), (Cbor, reply));
  }

  lemma KeepalivesPassed(statuses: bytes)
    ensures forall i | 0 <= i < |statuses| :: ResponseJudge(Cbor)(KeepaliveMessages(statuses)[i]) == Continue
  {
  }

  lemma FirstDoneIsLast<R>(judge: Message -> Verdict<R>, queued: seq<Message>, passed: seq<Message>, last: Message)
    requires judge(last).Done? && forall i | 0 <= i < |passed| :: judge(passed[i]) == Continue
    ensures var all := queued + (passed + [last]);
            FirstDone(judge, all) == |all| - 1 <==> forall i | 0 <= i < |queued| :: judge(queued[i]) == Continue
  {
    var all := queued + (passed + [last]);
    var k := FirstDone(judge, all);
    assert all[|all| - 1] == last;
    if k == |all| - 1 {
      forall i | 0 <= i < |queued|
        ensures judge(queued[i]) == Continue
      {
        assert all[i] == queued[i];
      }
    }
  }

  /** The late reply to a request that timed out is taken for the reply to the next one, whose own stays queued. */
  lemma LateReplyIsTaken(d: Device, history: seq<Report>, cid: Cid, first: Payload, second: Payload,
                         late: Payload, reply: Payload)
    requires d.outbox == [] && d.cbor == Scripted([late, reply])
    ensures var sent := d.ReceiveAll(history, FramesOf(cid, CborMessages([first, second])));
            && sent.cborLog == d.cborLog + [first, second]
            && Listen(cid, ResponseJudge(Cbor), Delivered(sent.outbox), [])
               == Heard(Success(late), [], Delivered(Frames(cid, Cbor, reply)))
  {
    var msgs: seq<Message> := [(Cbor, late), (Cbor, reply)];
    DeviceLogsRequests(d, history, cid, [first, second]);
    TwoScripted(d, history, cid, first, second, late, reply);
    FirstDoneIsHeard(cid, ResponseJudge(Cbor), msgs, 0);
    assert msgs[..0] == [] && msgs[1..] == [(Cbor, reply)];
    OneFramed(cid, (Cbor, reply));
  }

  lemma OneFramed(cid: Cid, m: Message)
    requires |m.1| <= MAX_MESSAGE_LEN
    ensures FramesOf(cid, [m]) == Frames(cid, m.0, m.1)
  {
    FramesOfSnoc(cid, [], m);
    assert [] + [m] == [m] && [] + Frames(cid, m.0, m.1) == Frames(cid, m.0, m.1);
  }

  lemma FramesOfTwo(cid: Cid, m: Message, n: Message)
    requires |m.1| <= MAX_MESSAGE_LEN && |n.1| <= MAX_MESSAGE_LEN
    ensures FramesOf(cid, [m, n]) == Frames(cid, m.0, m.1) + Frames(cid, n.0, n.1)
  {
    OneFramed(cid, m);
    FramesOfSnoc(cid, [m], n);
    assert [m] + [n] == [m, n];
  }

  lemma ScriptedAnswer(d: Device, history: seq<Report>, cid: Cid, request: Payload, replies: seq<Payload>)
    requires d.cbor == Scripted(replies) && |replies| > 0
    ensures var d' := d.ReceiveAll(history, Frames(cid, Cbor, request));
            d'.outbox == d.outbox + Frames(cid, Cbor, replies[0]) && d'.cbor == Scripted(replies[1..])
  {
    DeviceReceivesMessage(d, history, cid, Cbor, request);
  }

  lemma TwoScripted(d: Device, history: seq<Report>, cid: Cid, first: Payload, second: Payload,
                    late: Payload, reply: Payload)
    requires d.outbox == [] && d.cbor == Scripted([late, reply])
    ensures d.ReceiveAll(history, FramesOf(cid, CborMessages([first, second]))).outbox
         == FramesOf(cid, [(Cbor, late), (Cbor, reply)])
  {
    var a, b := Frames(cid, Cbor, first), Frames(cid, Cbor, second);
    assert CborMessages([first, second]) == [(Cbor, first), (Cbor, second)];
    FramesOfTwo(cid, (Cbor, first), (Cbor, second));
    FramesOfTwo(cid, (Cbor, late), (Cbor, reply));
    ReceiveConcat(d, history, a, b);
    ScriptedAnswer(d, history, cid, first, [late, reply]);
    assert [late, reply][1..] == [reply];
    ScriptedAnswer(d.ReceiveAll(history, a), history + a, cid, second, [reply]);
    Empty(Frames(cid, Cbor, late));
  }

  /** One message, heard alone. */
  lemma HeardAlone<R>(cid: Cid, judge: Message -> Verdict<R>, m: Message)
    requires |m.1| <= MAX_MESSAGE_LEN && judge(m).Done?
    ensures Listen(cid, judge, Delivered(Frames(cid, m.0, m.1)), []) == Heard(judge(m).result, [], [])
  {
    OneFramed(cid, m);
    FirstDoneIsHeard(cid, judge, [m], 0);
    assert [m][..0] == [] && [m][1..] == [];
  }

  lemma ErrorIsJudged(cmd: Command, error: DeviceError)
    requires ProperError(error)
    ensures JudgeResponse(cmd, (Error, [ErrorByte(error)])) == Done(Failure(HidError.Device(error)))
  {
    assert DeviceErrorFromByte(ErrorByte(error)) == error;
  }

  lemma FailureIsSent(d: Device, cid: Cid, request: Payload, error: DeviceError)
    requires d.outbox == [] && d.cbor == Fail(error)
    ensures d.Handle(cid, Cbor, request).outbox == Frames(cid, Error, [ErrorByte(error)])
  {
    assert [] + Frames(cid, Error, [ErrorByte(error)]) == Frames(cid, Error, [ErrorByte(error)]);
  }

  /** A device that fails: the host reports exactly its error. */
  lemma FailureIsReported(d: Device, history: seq<Report>, cid: Cid, request: Payload, error: DeviceError)
    requires d.outbox == [] && d.cbor == Fail(error) && ProperError(error)
    ensures var d' := d.ReceiveAll(history, Frames(cid, Cbor, request));
            Listen(cid, ResponseJudge(Cbor), Delivered(d'.outbox), []).result == Failure(HidError.Device(error))
  {
    DeviceReceivesMessage(d, history, cid, Cbor, request);
    FailureIsSent(d, cid, request, error);
    ErrorIsJudged(Cbor, error);
    HeardAlone(cid, ResponseJudge(Cbor), (Error, [ErrorByte(error)]));
  }

  lemma PingEchoes(d: Device, history: seq<Report>, cid: Cid, payload: Payload)
    requires d.outbox == []
    ensures var d' := d.ReceiveAll(history, Frames(cid, Ping, payload));
            Listen(cid, ResponseJudge(Ping), Delivered(d'.outbox), []).result == Success(payload)
  {
    DeviceReceivesMessage(d, history, cid, Ping, payload);
    assert [] + Frames(cid, Ping, payload) == Frames(cid, Ping, payload);
    HeardAlone(cid, ResponseJudge(Ping), (Ping, payload));
  }

  /** The reply to a broadcast INIT. */
  function InitReply(nonce: bytes, cid: bytes): bytes {
    nonce + cid + [2, 1, 0, 0] + [0x05]
  }

  lemma InitReplyIsJudged(nonce: bytes, cid: Cid)
    requires |nonce| == 8 && cid != Zeros(4) && cid != BROADCAST_CID
    ensures JudgeInit(nonce, (Init, InitReply(nonce, cid))) == Done(Success((cid, Capabilities(true, true, false))))
  {
    var reply := InitReply(nonce, cid);
    assert |reply| == 17 && reply[..8] == nonce && reply[8..12] == cid && reply[16] == 0x05;
  }

  /** Allocation end to end: the host gets the channel the device assigned, and its capabilities. */
  lemma AllocationRoundTrip(d: Device, history: seq<Report>, nonce: bytes)
    requires d.outbox == [] && |nonce| == 8 && 0 < d.nextCid < 0xffff_ffff
    ensures var d' := d.ReceiveAll(history, Frames(BROADCAST_CID, Init, nonce));
            && d'.nextCid == d.nextCid + 1
            && Listen(BROADCAST_CID, InitJudge(nonce), Delivered(d'.outbox), []).result
               == Success((Be(d.nextCid, 4), Capabilities(true, true, false)))
  {
    DeviceReceivesMessage(d, history, BROADCAST_CID, Init, nonce);
    var cid: Cid := Be(d.nextCid, 4);
    NotReserved(d.nextCid);
    InitReplyIsJudged(nonce, cid);
    var reply := InitReply(nonce, cid);
    assert [] + Frames(BROADCAST_CID, Init, reply) == Frames(BROADCAST_CID, Init, reply);
    HeardAlone(BROADCAST_CID, InitJudge(nonce), (Init, reply));
  }

  lemma NotReserved(n: nat)
    requires 0 < n < 0xffff_ffff
    ensures Be(n, 4) != Zeros(4) && Be(n, 4) != BROADCAST_CID
  {
    OctetPowers();
    BeRoundTrip(n, 4);
    BeRoundTrip(0, 4);
    BeRoundTrip(0xffff_ffff, 4);
    ReservedNumbers();
  }

  lemma ReservedNumbers()
    ensures Be(0, 4) == Zeros(4) && Be(0xffff_ffff, 4) == BROADCAST_CID
  {
    assert Digits(0, 256, 1) == [0] && Digits(0, 256, 2) == [0, 0];
    assert Digits(0xff, 256, 1) == [0xff] && Digits(0xffff, 256, 2) == [0xff, 0xff];
  }
}
