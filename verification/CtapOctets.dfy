/** CTAPHID in octets: codes, packet layout and verdicts, as section 11.2 of CTAP 2.1 numbers them. */
module CtapOctets {
  import opened Wrappers
  import opened Radix
  import opened CtapHid
  import opened CtapChannel

  /** Bit 7 marks an initialization packet; the command is the other seven. */
  lemma CommandCodes(b: byte)
    ensures CommandFromByte(b)
         == if b == 0x80 + 0x01 then Some(Ping) else if b == 0x80 + 0x03 then Some(Msg)
            else if b == 0x80 + 0x04 then Some(Lock) else if b == 0x80 + 0x06 then Some(Init)
            else if b == 0x80 + 0x08 then Some(Wink) else if b == 0x80 + 0x10 then Some(Cbor)
            else if b == 0x80 + 0x11 then Some(Cancel) else if b == 0x80 + 0x3f then Some(Error)
            else if b == 0x80 + 0x3b then Some(Keepalive) else None
    ensures forall cmd: Command :: CommandFromByte(cmd.Byte()) == Some(cmd)
  {
    forall cmd: Command
      ensures CommandFromByte(cmd.Byte()) == Some(cmd)
    {
      CommandRoundTrip(cmd);
    }
  }

  /** Error and keepalive codes. */
  lemma ResponseCodes()
    ensures DeviceErrorFromByte(0x01) == InvalidCmd && DeviceErrorFromByte(0x02) == InvalidParam
    ensures DeviceErrorFromByte(0x03) == InvalidLen && DeviceErrorFromByte(0x04) == InvalidSeq
    ensures DeviceErrorFromByte(0x05) == MsgTimeout && DeviceErrorFromByte(0x06) == ChannelBusy
    ensures DeviceErrorFromByte(0x0a) == LockRequired && DeviceErrorFromByte(0x0b) == InvalidChannel
    ensures DeviceErrorFromByte(0x7f) == Other
    ensures forall b: byte | b !in {0x01, 0x02, 0x03, 0x04, 0x05, 0x06, 0x0a, 0x0b, 0x7f} ::
              DeviceErrorFromByte(b) == Unknown(b)
    ensures StatusFromByte(1) == Processing && StatusFromByte(2) == UserPresenceNeeded
    ensures forall b: byte | b != 1 && b != 2 :: StatusFromByte(b) == UnknownStatus(b)
  {
  }

  /** Octet `k` of the payload, or padding. */
  ghost function PayloadOrZero(payload: bytes, k: nat): byte {
    if k < |payload| then payload[k] else 0
  }

  /** An initialization packet: CID, command, length with its high octet first, 57 octets of payload. */
  lemma InitLayout(cid: Cid, cmd: Command, payload: bytes, k: nat)
    requires |payload| <= 7609
    ensures var packet := Packet(cid, cmd, payload, 0);
            && packet[..4] == cid && packet[4] == cmd.Byte()
            && 256 * (packet[5] as int) + packet[6] == |payload|
            && (k < 57 ==> packet[7 + k] == PayloadOrZero(payload, k))
  {
  }

  /** Continuation `i` counts from zero and carries the next 59 octets. */
  lemma ContLayout(cid: Cid, cmd: Command, payload: bytes, i: nat, k: nat)
    requires |payload| <= 7609 && i + 1 < |Frames(cid, cmd, payload)|
    ensures var packet := Frames(cid, cmd, payload)[i + 1];
            && packet[..4] == cid && packet[4] == i
            && (k < 59 ==> packet[5 + k] == PayloadOrZero(payload, 57 + 59 * i + k))
  {
    PacketSizes(|payload|, i + 1);
  }

  /** There are as many packets as the payload needs, and one at least. */
  lemma PacketsNeeded(cid: Cid, cmd: Command, payload: bytes)
    requires |payload| <= 7609
    ensures var n := |Frames(cid, cmd, payload)|;
            n > 0 && 57 + 59 * (n - 1) >= |payload| && (n > 1 ==> 57 + 59 * (n - 2) < |payload|)
    ensures Frames(cid, cmd, payload)[0] == Packet(cid, cmd, payload, 0)
  {
  }

  /** A report that counts as report `i` of a message agrees with it but for the CID and the padding. */
  lemma CarriesOctets(cid: Cid, r: Report, cmd: Command, payload: bytes, i: nat)
    requires |payload| <= 7609 && i < PacketCount(|payload|)
    ensures var packet, used := Packet(cid, cmd, payload, i), 4 + |Body(cmd, payload, i)|;
            && used == (if i == 0 then 7 + Min(|payload|, 57) else 5 + Min(|payload| - 57 - 59 * (i - 1), 59)) <= 64
            && (Carries(r, cmd, payload, i) <==> r[4..used] == packet[4..used])
  {
    PacketSizes(|payload|, i);
    var body := Body(cmd, payload, i);
    assert Packet(cid, cmd, payload, i)[4..4 + |body|] == body;
    assert r[4..][..|body|] == r[4..4 + |body|];
  }

  // --- Violations ------------------------------------------------------------------

  /** The latest reports are the first `k` of a message that needs more. */
  ghost predicate Underway(history: seq<Report>, cmd: Command, payload: bytes, k: nat) {
    |payload| <= 7609 && 0 < k < PacketCount(|payload|) && EndsWith(history, cmd, payload, k)
  }

  lemma UnderwayIsHeld(history: seq<Report>, cmd: Command, payload: bytes, k: nat)
    requires Underway(history, cmd, payload, k)
    ensures After(history) == Some(At(cmd, payload, k))
  {
    ReachedIffEndsWith(history, cmd, payload, k);
  }

  /** What a decoder holds are the first reports of some message. */
  lemma HeldIsUnderway(history: seq<Report>) returns (cmd: Command, payload: bytes, k: nat)
    requires After(history).Some?
    ensures Underway(history, cmd, payload, k)
  {
    var p := After(history).value;
    cmd, k := CommandFromByte(p.cmd).value, p.nextSeq + 1;
    payload := p.buf + Zeros(p.expected - |p.buf|);
    HeldIsStart(p, cmd, payload);
    ReachedIffEndsWith(history, cmd, payload, k);
  }

  lemma HeldIsStart(p: Partial, cmd: Command, payload: bytes)
    requires InFlight(p) && CommandFromByte(p.cmd) == Some(cmd) && payload == p.buf + Zeros(p.expected - |p.buf|)
    ensures |payload| == p.expected && p.nextSeq + 1 < PacketCount(|payload|) && At(cmd, payload, p.nextSeq + 1) == p
  {
    assert payload[..|p.buf|] == p.buf;
  }

  /** Exactly when a report is refused, and how: by its own octets, or by what came before it. */
  lemma Violations(front: seq<Report>, r: Report)
    ensures var outcome, known := Decode(front + [r]), CommandFromByte(r[4]).Some?;
            var length := 256 * (r[5] as int) + r[6];
            && (outcome == Failure(Malformed(UnknownCommand)) <==> r[4] >= 0x80 && !known)
            && (outcome == Failure(Malformed(LengthOutOfRange)) <==> known && length > 7609)
            && (outcome == Failure(Malformed(UnexpectedContinuation))
                <==> r[4] < 0x80 && forall cmd, payload, k :: !Underway(front, cmd, payload, k))
            && (outcome == Failure(Device(InvalidSeq))
                <==> r[4] < 0x80 && exists cmd, payload, k :: Underway(front, cmd, payload, k) && k != 1 + r[4] as int)
            && (outcome.Failure? ==>
                  outcome.error in {Malformed(UnknownCommand), Malformed(LengthOutOfRange),
                                    Malformed(UnexpectedContinuation), Device(InvalidSeq)})
  {
    LastSnoc(front, r);
    if After(front).Some? {
      var cmd, payload, k := HeldIsUnderway(front);
      UnderwayIsHeld(front, cmd, payload, k);
    }
    forall cmd, payload, k | Underway(front, cmd, payload, k)
      ensures After(front) == Some(At(cmd, payload, k))
    {
      UnderwayIsHeld(front, cmd, payload, k);
    }
  }

  // --- Verdicts -------------------------------------------------------------------

  /** What a request makes of a message: its payload, a status to pass on, the device's error, or a violation. */
  lemma ResponseVerdicts(cmd: Command, m: Message)
    ensures var verdict := ResponseJudge(cmd)(m);
            && (verdict == Continue <==> m.0 == Keepalive && |m.1| == 1)
            && (forall reply :: verdict == Done(Success(reply)) <==> m == (cmd, reply) && cmd !in {Keepalive, Error})
            && (forall code: byte | m == (Error, [code]) ::
                  verdict == Done(Failure(Device(DeviceErrorFromByte(code)))))
            && (m.0 == Error && |m.1| != 1 ==> verdict == Done(Failure(Malformed(ErrorNotOneByte))))
            && (m.0 == Keepalive && |m.1| != 1 ==> verdict == Done(Failure(Malformed(KeepaliveNotOneByte))))
            && (m.0 !in {cmd, Keepalive, Error} ==> verdict == Done(Failure(Malformed(UnexpectedResponse))))
  {
  }

  /**
   What allocation makes of a message: a reply with our nonce on a channel that
   may be used, with capability bits 0, 2 and 3; the device's error; a violation;
   or nothing, when it is for someone else.
   */
  lemma InitVerdicts(nonce: bytes, m: Message)
    requires |nonce| == 8
    ensures var verdict, body := InitJudge(nonce)(m), m.1;
            var ours := m.0 == Init && |body| >= 17 && body[..8] == nonce;
            var usable := ours && body[8..12] !in {[0, 0, 0, 0], [0xff, 0xff, 0xff, 0xff]};
            && (verdict == Continue <==> m.0 !in {Init, Error} || (m.0 == Init && |body| >= 17 && !ours))
            && (verdict.Done? && verdict.result.Success? <==> usable)
            && (usable ==>
                  && verdict.result.value.0 == body[8..12]
                  && (verdict.result.value.1.wink <==> body[16] % 2 == 1)
                  && (verdict.result.value.1.cbor <==> body[16] / 4 % 2 == 1)
                  && (verdict.result.value.1.nmsg <==> body[16] / 8 % 2 == 1))
            && (ours && !usable ==> verdict == Done(Failure(Malformed(ReservedChannel))))
            && (m.0 == Init && |body| < 17 ==> verdict == Done(Failure(Malformed(ShortInit))))
            && (m.0 == Error && |body| != 1 ==> verdict == Done(Failure(Malformed(ErrorNotOneByte))))
            && (forall code: byte | m == (Error, [code]) ::
                  verdict == Done(Failure(Device(DeviceErrorFromByte(code)))))
  {
    assert Zeros(4) == [0, 0, 0, 0] && BROADCAST_CID == [0xff, 0xff, 0xff, 0xff];
  }

  /** How waiting ends without a verdict: nothing more to read, a failing read, or a report that breaks the rules. */
  lemma WaitingEnds<R>(
      cid: Cid, judge: Message -> Verdict<R>, event: ReadEvent, rest: seq<ReadEvent>, history: seq<Report>)
    ensures Listen(cid, judge, [], history) == Heard(Failure(Timeout), [], [])
    ensures var heard := Listen(cid, judge, [event] + rest, history);
            && (event == Nothing ==> heard == Heard(Failure(Timeout), [], rest))
            && (event == Failed ==> heard == Heard(Failure(Io), [], rest))
            && (event.Got? && event.report[..4] == cid && Decode(history + [event.report]).Failure? ==>
                  heard == Heard(Failure(Decode(history + [event.report]).error), [], rest))
  {
    assert ([event] + rest)[1..] == rest;
  }
}
