/** CTAPHID channels: allocation and request/response over a raw report device. */
module CtapChannel {
  import opened Wrappers
  import opened Radix
  import opened Sequences
  import opened CtapHid

  /** What one read of the device returns; `Nothing` is also an expired deadline. */
  datatype ReadEvent = Got(report: Report) | Nothing | Failed

  datatype KeepaliveStatus = Processing | UserPresenceNeeded | UnknownStatus(code: byte)

  function StatusFromByte(b: byte): KeepaliveStatus {
    if b == 1 then Processing else if b == 2 then UserPresenceNeeded else UnknownStatus(b)
  }

  function DeviceErrorFromByte(b: byte): DeviceError {
    if b == 0x01 then InvalidCmd
    else if b == 0x02 then InvalidParam
    else if b == 0x03 then InvalidLen
    else if b == 0x04 then InvalidSeq
    else if b == 0x05 then MsgTimeout
    else if b == 0x06 then ChannelBusy
    else if b == 0x0a then LockRequired
    else if b == 0x0b then InvalidChannel
    else if b == 0x7f then Other
    else Unknown(b)
  }

  datatype Capabilities = Capabilities(wink: bool, cbor: bool, nmsg: bool)

  type Message = (Command, bytes)

  // --- Message-level behaviour: what is done with each complete message ----

  datatype Verdict<+R> = Continue | Done(result: Result<R, HidError>)

  function JudgeError<R>(body: bytes): Verdict<R> {
    Done(Failure(if |body| == 1 then Device(DeviceErrorFromByte(body[0])) else Malformed(ErrorNotOneByte)))
  }

  /** A request forwards keepalives and ends at its response or at any surprise. */
  function JudgeResponse(cmd: Command, m: Message): Verdict<bytes> {
    match m.0
    case Keepalive => if |m.1| == 1 then Continue else Done(Failure(Malformed(KeepaliveNotOneByte)))
    case Error => JudgeError(m.1)
    case c => Done(if c == cmd then Success(m.1) else Failure(Malformed(UnexpectedResponse)))
  }

  /** Allocation skips other applications' replies and refuses reserved channels. */
  function JudgeInit(nonce: bytes, m: Message): Verdict<(Cid, Capabilities)> {
    if m.0 == Error then JudgeError(m.1)
    else if m.0 != Init then Continue
    else if |m.1| < 17 then Done(Failure(Malformed(ShortInit)))
    else if m.1[..8] != nonce then Continue
    else
      var cid: Cid := m.1[8..12];
      if cid == Zeros(4) || cid == BROADCAST_CID then Done(Failure(Malformed(ReservedChannel)))
      else
        var caps := m.1[16];
        Done(Success((cid, Capabilities(caps % 2 == 1, caps / 4 % 2 == 1, caps / 8 % 2 == 1))))
  }

  function ResponseJudge(cmd: Command): Message -> Verdict<bytes> {
    m => JudgeResponse(cmd, m)
  }

  function InitJudge(nonce: bytes): Message -> Verdict<(Cid, Capabilities)> {
    m => JudgeInit(nonce, m)
  }

  /** The outcome of waiting: the result, the messages passed over, the reads not used. */
  datatype Heard<+R> = Heard(result: Result<R, HidError>, passed: seq<Message>, rest: seq<ReadEvent>) {
    function After(earlier: seq<Message>): Heard<R> {
      this.(passed := earlier + passed)
    }
  }

  /** Waiting report by report, ignoring every channel but `cid`. */
  function Listen<R>(cid: Cid, judge: Message -> Verdict<R>, events: seq<ReadEvent>, history: seq<Report>): Heard<R> {
    if |events| == 0 then Heard(Failure(Timeout), [], [])
    else
      var rest := events[1..];
      match events[0]
      case Nothing => Heard(Failure(Timeout), [], rest)
      case Failed => Heard(Failure(Io), [], rest)
      case Got(report) =>
        if report[..4] != cid then Listen(cid, judge, rest, history)
        else
          var seen := history + [report];
          match Decode(seen)
          case Failure(error) => Heard(Failure(error), [], rest)
          case Success(None) => Listen(cid, judge, rest, seen)
          case Success(Some(m)) =>
            match judge(m)
            case Continue => Listen(cid, judge, rest, seen).After([m])
            case Done(result) => Heard(result, [], rest)
  }

  function Statuses(passed: seq<Message>): seq<KeepaliveStatus> {
    if |passed| == 0 then []
    else
      var body := passed[|passed| - 1].1;
      Statuses(passed[..|passed| - 1]) + if |body| == 1 then [StatusFromByte(body[0])] else []
  }

  // --- The device seen by one run of the host -------------------------------

  /**
   Any device behaviour over one run is one sequence of read results and of
   write refusals; whatever the device does in response to writes only selects
   which sequence it is.
   */
  class ReportIo {
    var incoming: seq<ReadEvent>   // results of the coming reads; afterwards nothing arrives
    var refusals: seq<bool>        // whether the coming writes fail; afterwards none does
    var written: seq<Report>       // reports written successfully

    constructor (incoming: seq<ReadEvent>, refusals: seq<bool>)
      ensures this.incoming == incoming && this.refusals == refusals && written == []
    {
      this.incoming, this.refusals, written := incoming, refusals, [];
    }

    method WriteReport(report: Report) returns (ok: bool)
      modifies this
      ensures incoming == old(incoming)
      ensures ok == NoneRefused(old(refusals), 1)
      ensures refusals == if |old(refusals)| == 0 then [] else old(refusals)[1..]
      ensures written == if ok then old(written) + [report] else old(written)
    {
      ok := |refusals| == 0 || !refusals[0];
      if |refusals| > 0 {
        refusals := refusals[1..];
      }
      if ok {
        written := written + [report];
      }
    }

    method ReadReport() returns (event: ReadEvent)
      modifies this`incoming
      ensures |old(incoming)| == 0 ==> event == Nothing && incoming == []
      ensures |old(incoming)| > 0 ==> event == old(incoming)[0] && incoming == old(incoming)[1..]
    {
      if |incoming| == 0 {
        return Nothing;
      }
      event := incoming[0];
      incoming := incoming[1..];
    }
  }

  ghost predicate NoneRefused(refusals: seq<bool>, n: nat) {
    forall i | 0 <= i < n && i < |refusals| :: !refusals[i]
  }

  /** The first refusal comes after `n` accepted writes. */
  ghost predicate FirstRefusal(refusals: seq<bool>, n: nat) {
    NoneRefused(refusals, n) && n < |refusals| && refusals[n]
  }

  /** Only the packets before the first refusal were written. */
  ghost predicate CutShort(refusals: seq<bool>, before: seq<Report>, after: seq<Report>, packets: seq<Report>) {
    exists k :: 0 <= k < |packets| && FirstRefusal(refusals, k) && after == before + packets[..k]
  }

  /** Writes in order, stopping at the first refusal. */
  method WriteAll(io: ReportIo, packets: seq<Report>) returns (ok: bool)
    modifies io
    ensures io.incoming == old(io.incoming)
    ensures ok == NoneRefused(old(io.refusals), |packets|)
    ensures ok ==> io.written == old(io.written) + packets
    ensures !ok ==> CutShort(old(io.refusals), old(io.written), io.written, packets)
  {
    ghost var refusals := io.refusals;
    for i := 0 to |packets|
      invariant io.incoming == old(io.incoming)
      invariant NoneRefused(refusals, i)
      invariant io.refusals == if i <= |refusals| then refusals[i..] else []
      invariant io.written == old(io.written) + packets[..i]
    {
      var accepted := io.WriteReport(packets[i]);
      if !accepted {
        assert FirstRefusal(refusals, i);
        return false;
      }
      assert packets[..i + 1] == packets[..i] + [packets[i]];
    }
    assert packets[..|packets|] == packets;
    return true;
  }

  /** A channel number and the device it is used on. */
  class CtapHidChannel {
    const io: ReportIo
    const cid: Cid

    constructor (io: ReportIo, cid: Cid)
      ensures this.io == io && this.cid == cid
    {
      this.io, this.cid := io, cid;
    }

    /**
     Asks the broadcast channel for a channel number; the nonce tells our reply
     from the replies to other hosts.
     */
    static method Allocate(io: ReportIo, nonce: bytes)
      returns (r: Result<(CtapHidChannel, Capabilities), HidError>)
      requires |nonce| == 8
      modifies io
      ensures r.Success? ==> fresh(r.value.0) && r.value.0.io == io
      ensures NoneRefused(old(io.refusals), 1) ==>
                var heard := Listen(BROADCAST_CID, InitJudge(nonce), old(io.incoming), []);
                && io.written == old(io.written) + Frames(BROADCAST_CID, Init, nonce)
                && io.incoming == heard.rest
                && (r.Success? <==> heard.result.Success?)
                && (r.Success? ==> heard.result.value == (r.value.0.cid, r.value.1))
                && (r.Failure? ==> heard.result == Failure(r.error))
      ensures !NoneRefused(old(io.refusals), 1) ==>
                r == Failure(Io) && io.written == old(io.written) && io.incoming == old(io.incoming)
    {
      var framed := FrameMessage(BROADCAST_CID, Init, nonce);
      var packets := framed.value;
      var sent := WriteAll(io, packets);
      if !sent {
        return Failure(Io);
      }
      var reply := AwaitInit(io, nonce);
      if reply.Failure? {
        return Failure(reply.error);
      }
      var channel := new CtapHidChannel(io, reply.value.0);
      return Success((channel, reply.value.1));
    }

    /** The waiting loop of `Allocate`. */
    static method AwaitInit(io: ReportIo, nonce: bytes)
      returns (r: Result<(Cid, Capabilities), HidError>)
      modifies io`incoming
      ensures var heard := Listen(BROADCAST_CID, InitJudge(nonce), old(io.incoming), []);
              r == heard.result && io.incoming == heard.rest
    {
      ghost var judge, passed: seq<Message> := InitJudge(nonce), [];
      ghost var whole := Listen(BROADCAST_CID, judge, io.incoming, []);
      var decoder := new MessageDecoder();
      AwaitStart(BROADCAST_CID, judge, io.incoming);
      while true
        invariant decoder.Valid() && fresh(decoder)
        invariant Awaiting(BROADCAST_CID, judge, whole, io.incoming, decoder.history, passed)
        decreases |io.incoming|
      {
        ghost var events, history := io.incoming, decoder.history;
        if |events| > 0 && events[0].Got? {
          AwaitStep(BROADCAST_CID, judge, whole, events, history, passed);
        } else {
          AwaitEnd(BROADCAST_CID, judge, whole, events, history, passed);
        }
        var event := io.ReadReport();
        match event
        case Nothing => return Failure(Timeout);
        case Failed => return Failure(Io);
        case Got(report) =>
          if report[..4] == BROADCAST_CID {
            var pushed := decoder.Push(report);
            if pushed.Failure? {
              return Failure(pushed.error);
            }
            if pushed.value.Some? {
              var message := pushed.value.value;
              match JudgeInit(nonce, message) {
                case Done(result) =>
                  return result;
                case Continue =>
                  passed := passed + [message];
              }
            }
          }
      }
    }

    /**
     One exchange on the channel. `keepalives` are the statuses reported to the
     caller before the response, in that order.
     */
    method Request(cmd: Command, payload: bytes)
      returns (r: Result<bytes, HidError>, keepalives: seq<KeepaliveStatus>)
      modifies io
      ensures |payload| > MAX_MESSAGE_LEN ==>
                r == Failure(PayloadTooLarge(|payload|)) && keepalives == []
                && io.written == old(io.written) && io.incoming == old(io.incoming)
      ensures |payload| <= MAX_MESSAGE_LEN && NoneRefused(old(io.refusals), PacketCount(|payload|)) ==>
                var heard := Listen(cid, ResponseJudge(cmd), old(io.incoming), []);
                && io.written == old(io.written) + Frames(cid, cmd, payload)
                && r == heard.result && keepalives == Statuses(heard.passed) && io.incoming == heard.rest
      ensures |payload| <= MAX_MESSAGE_LEN && !NoneRefused(old(io.refusals), PacketCount(|payload|)) ==>
                r == Failure(Io) && keepalives == [] && io.incoming == old(io.incoming)
                && CutShort(old(io.refusals), old(io.written), io.written, Frames(cid, cmd, payload))
    {
      keepalives := [];
      var framed := FrameMessage(cid, cmd, payload);
      if framed.Failure? {
        return Failure(framed.error), keepalives;
      }
      var packets := framed.value;
      var sent := WriteAll(io, packets);
      if !sent {
        return Failure(Io), keepalives;
      }
      r, keepalives := AwaitResponse(cmd);
    }

    /** The waiting loop of `Request`. */
    method AwaitResponse(cmd: Command) returns (r: Result<bytes, HidError>, keepalives: seq<KeepaliveStatus>)
      modifies io`incoming
      ensures var heard := Listen(cid, ResponseJudge(cmd), old(io.incoming), []);
              r == heard.result && keepalives == Statuses(heard.passed) && io.incoming == heard.rest
    {
      ghost var judge, passed: seq<Message> := ResponseJudge(cmd), [];
      ghost var whole := Listen(cid, judge, io.incoming, []);
      keepalives := [];
      var decoder := new MessageDecoder();
      AwaitStart(cid, judge, io.incoming);
      while true
        invariant decoder.Valid() && fresh(decoder)
        invariant Awaiting(cid, judge, whole, io.incoming, decoder.history, passed)
        invariant keepalives == Statuses(passed)
        decreases |io.incoming|
      {
        ghost var events, history := io.incoming, decoder.history;
        if |events| > 0 && events[0].Got? {
          AwaitStep(cid, judge, whole, events, history, passed);
        } else {
          AwaitEnd(cid, judge, whole, events, history, passed);
        }
        var event := io.ReadReport();
        match event
        case Nothing => return Failure(Timeout), keepalives;
        case Failed => return Failure(Io), keepalives;
        case Got(report) =>
          if report[..4] == cid {
            var pushed := decoder.Push(report);
            if pushed.Failure? {
              return Failure(pushed.error), keepalives;
            }
            if pushed.value.Some? {
              var message := pushed.value.value;
              match JudgeResponse(cmd, message) {
                case Done(result) =>
                  return result, keepalives;
                case Continue =>
                  StatusesSnoc(cmd, passed, message);
                  keepalives := keepalives + [StatusFromByte(message.1[0])];
                  passed := passed + [message];
              }
            }
          }
      }
    }
  }

  /** What a request passes over is a keepalive of one octet, its status. */
  lemma StatusesSnoc(cmd: Command, passed: seq<Message>, m: Message)
    requires JudgeResponse(cmd, m) == Continue
    ensures |m.1| == 1 && Statuses(passed + [m]) == Statuses(passed) + [StatusFromByte(m.1[0])]
  {
    Unsnoc(passed, m);
  }

  /** What `whole` listening yields is still to come, after the messages passed over so far. */
  ghost predicate Awaiting<R>(cid: Cid, judge: Message -> Verdict<R>, whole: Heard<R>, events: seq<ReadEvent>,
                              history: seq<Report>, passed: seq<Message>)
  {
    whole == Listen(cid, judge, events, history).After(passed)
  }

  lemma AwaitStart<R>(cid: Cid, judge: Message -> Verdict<R>, events: seq<ReadEvent>)
    ensures Awaiting(cid, judge, Listen(cid, judge, events, []), events, [], [])
  {
    Empty(Listen(cid, judge, events, []).passed);
  }

  /** Nothing is left to read, or a read ends the waiting. */
  lemma AwaitEnd<R>(cid: Cid, judge: Message -> Verdict<R>, whole: Heard<R>, events: seq<ReadEvent>,
                    history: seq<Report>, passed: seq<Message>)
    requires Awaiting(cid, judge, whole, events, history, passed)
    requires |events| > 0 ==> !events[0].Got?
    ensures whole == Heard(Failure(if |events| > 0 && events[0].Failed? then Io else Timeout), passed,
                           if |events| > 0 then events[1..] else [])
  {
    Empty(passed);
  }

  /** One more report: of another channel, refused, incomplete, or the end of a message. */
  lemma AwaitStep<R>(cid: Cid, judge: Message -> Verdict<R>, whole: Heard<R>, events: seq<ReadEvent>,
                     history: seq<Report>, passed: seq<Message>)
    requires |events| > 0 && events[0].Got? && Awaiting(cid, judge, whole, events, history, passed)
    ensures var report, rest := events[0].report, events[1..];
            var seen := history + [report];
            if report[..4] != cid then Awaiting(cid, judge, whole, rest, history, passed)
            else
              match Decode(seen)
              case Failure(error) => whole == Heard(Failure(error), passed, rest)
              case Success(None) => Awaiting(cid, judge, whole, rest, seen, passed)
              case Success(Some(m)) =>
                match judge(m)
                case Continue => Awaiting(cid, judge, whole, rest, seen, passed + [m])
                case Done(result) => whole == Heard(result, passed, rest)
  {
    var report, rest := events[0].report, events[1..];
    var seen := history + [report];
    Empty(passed);
    if report[..4] == cid && Decode(seen).Success? && Decode(seen).value.Some? {
      var m := Decode(seen).value.value;
      AfterTwice(Listen(cid, judge, rest, seen), passed, [m]);
    }
  }

  lemma AfterTwice<R>(heard: Heard<R>, a: seq<Message>, b: seq<Message>)
    ensures heard.After(b).After(a) == heard.After(a + b)
  {
    Associate(a, b, heard.passed);
  }
}
