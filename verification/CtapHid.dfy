/** CTAPHID framing (section 11.2 of CTAP 2.1): reports, messages and their reassembly. */
module CtapHid {
  import opened Wrappers
  import opened Radix

  // Sizes are written out where they are multiplied or divided by.
  const REPORT_LEN := 64
  const INIT_HEADER := 7      // CID(4) + CMD(1) + BCNT(2)
  const CONT_HEADER := 5      // CID(4) + SEQ(1)
  const INIT_PAYLOAD := 57    // REPORT_LEN - INIT_HEADER
  const CONT_PAYLOAD := 59    // REPORT_LEN - CONT_HEADER
  const MAX_SEQ := 0x7f
  const MAX_MESSAGE_LEN := 7609

  type Report = r: bytes | |r| == REPORT_LEN witness Zeros(REPORT_LEN)

  /** A channel identifier as it travels: four octets, most significant first. */
  type Cid = c: bytes | |c| == 4 witness Zeros(4)

  const BROADCAST_CID: Cid := [0xff, 0xff, 0xff, 0xff]

  datatype Command = Ping | Msg | Lock | Init | Wink | Cbor | Cancel | Error | Keepalive {
    function Byte(): (b: byte)
      ensures b >= 0x80
    {
      match this
      case Ping => 0x81
      case Msg => 0x83
      case Lock => 0x84
      case Init => 0x86
      case Wink => 0x88
      case Cbor => 0x90
      case Cancel => 0x91
      case Error => 0xbf
      case Keepalive => 0xbb
    }
  }

  function CommandFromByte(b: byte): (c: Option<Command>)
    ensures c.Some? ==> c.value.Byte() == b
  {
    match b
    case 0x81 => Some(Ping)
    case 0x83 => Some(Msg)
    case 0x84 => Some(Lock)
    case 0x86 => Some(Init)
    case 0x88 => Some(Wink)
    case 0x90 => Some(Cbor)
    case 0x91 => Some(Cancel)
    case 0xbf => Some(Error)
    case 0xbb => Some(Keepalive)
    case _ => None
  }

  lemma CommandRoundTrip(cmd: Command)
    ensures CommandFromByte(cmd.Byte()) == Some(cmd)
  {
  }

  datatype HidError =
    | Io
    | Timeout
    | PayloadTooLarge(len: nat)
    | Malformed(why: Violation)
    | Device(code: DeviceError)

  /** Which rule a malformed report breaks; the source words these as text. */
  datatype Violation =
    | UnknownCommand | LengthOutOfRange | UnexpectedContinuation
    | ErrorNotOneByte | KeepaliveNotOneByte | UnexpectedResponse
    | ShortInit | ReservedChannel

  datatype DeviceError =
    | InvalidCmd | InvalidParam | InvalidLen | InvalidSeq | MsgTimeout
    | ChannelBusy | LockRequired | InvalidChannel | Other | Unknown(code: byte)

  function Zeros(n: nat): bytes {
    seq(n, _ => 0)
  }

  function U16(hi: byte, lo: byte): nat {
    256 * hi + lo
  }

  function Min(a: nat, b: nat): nat {
    if a <= b then a else b
  }

  // --- What a framed message is ------------------------------------------

  /** Reports one message of `n` octets occupies. */
  function PacketCount(n: nat): (k: nat)
    ensures k >= 1
  {
    if n <= 57 then 1 else 1 + (n - 57 + 58) / 59
  }

  /** Payload octets carried by the first `i` reports of a message of `n` octets. */
  function Carried(n: nat, i: nat): (k: nat)
    ensures k <= n
  {
    if i == 0 then 0 else Min(n, 57 + 59 * (i - 1))
  }

  /** Report `i` of a message without its CID: header, data, padding. */
  function Body(cmd: Command, payload: bytes, i: nat): bytes
    requires |payload| <= MAX_MESSAGE_LEN && i < PacketCount(|payload|)
  {
    Header(cmd, |payload|, i) + payload[Carried(|payload|, i)..Carried(|payload|, i + 1)]
  }

  function Header(cmd: Command, n: nat, i: nat): bytes
    requires n <= MAX_MESSAGE_LEN && i < PacketCount(n)
  {
    if i == 0 then [cmd.Byte(), n / 256, n % 256] else [i - 1]
  }

  function Packet(cid: Cid, cmd: Command, payload: bytes, i: nat): Report
    requires |payload| <= MAX_MESSAGE_LEN && i < PacketCount(|payload|)
  {
    var body := Body(cmd, payload, i);
    cid + body + Zeros(REPORT_LEN - 4 - |body|)
  }

  /** All reports of a message. */
  function Frames(cid: Cid, cmd: Command, payload: bytes): (rs: seq<Report>)
    requires |payload| <= MAX_MESSAGE_LEN
    ensures |rs| == PacketCount(|payload|)
  {
    seq(PacketCount(|payload|), i requires 0 <= i < PacketCount(|payload|) => Packet(cid, cmd, payload, i))
  }

  /** `r` is report `i` of the message, up to its CID and its padding. */
  predicate Carries(r: Report, cmd: Command, payload: bytes, i: nat)
    requires |payload| <= MAX_MESSAGE_LEN && i < PacketCount(|payload|)
  {
    Body(cmd, payload, i) <= r[4..]
  }

  ghost predicate EachFits<T>(recent: seq<T>, fits: (T, nat) -> bool) {
    forall i | 0 <= i < |recent| :: fits(recent[i], i)
  }

  /** The last `k` elements of `history` fit, counted from the oldest of them. */
  ghost predicate RecentFit<T>(history: seq<T>, fits: (T, nat) -> bool, k: nat) {
    k <= |history| && EachFits(history[|history| - k..], fits)
  }

  function Fits(cmd: Command, payload: bytes): (Report, nat) -> bool
    requires |payload| <= MAX_MESSAGE_LEN
  {
    (r: Report, i: nat) => i < PacketCount(|payload|) && Carries(r, cmd, payload, i)
  }

  /** The most recent reports of `history` are the first `k` reports of the message. */
  ghost predicate EndsWith(history: seq<Report>, cmd: Command, payload: bytes, k: nat)
    requires |payload| <= MAX_MESSAGE_LEN
  {
    RecentFit(history, Fits(cmd, payload), k)
  }

  /** The most recent reports of `history` are one whole message. */
  ghost predicate EndsWithMessage(history: seq<Report>, cmd: Command, payload: bytes) {
    |payload| <= MAX_MESSAGE_LEN && EndsWith(history, cmd, payload, PacketCount(|payload|))
  }

  /** 7609 octets are exactly what the 7-bit continuation counter can carry. */
  lemma CapacityIsExact(n: nat)
    ensures MAX_MESSAGE_LEN == INIT_PAYLOAD + (MAX_SEQ + 1) * CONT_PAYLOAD
    ensures INIT_PAYLOAD == REPORT_LEN - INIT_HEADER && CONT_PAYLOAD == REPORT_LEN - CONT_HEADER
    ensures n <= MAX_MESSAGE_LEN <==> PacketCount(n) <= 1 + (MAX_SEQ + 1)
  {
  }

  lemma PacketSizes(n: nat, i: nat)
    requires i < PacketCount(n)
    ensures Carried(n, i + 1) == Carried(n, i) + Min(n - Carried(n, i), if i == 0 then INIT_PAYLOAD else CONT_PAYLOAD)
    ensures Carried(n, i + 1) < n <==> i + 1 < PacketCount(n)
    ensures i > 0 ==> Carried(n, i) == 57 + 59 * (i - 1) < n
  {
  }

  /** The initialization packet as it is built: 64 octets, zero where nothing is copied. */
  function InitReport(cid: Cid, cmd: Command, payload: bytes): Report
    requires |payload| <= MAX_MESSAGE_LEN
  {
    var n, head := |payload|, Min(|payload|, INIT_PAYLOAD);
    cid + [cmd.Byte(), n / 256, n % 256] + payload[..head] + Zeros(INIT_PAYLOAD - head)
  }

  function ContReport(cid: Cid, seqno: byte, data: bytes): Report
    requires |data| <= CONT_PAYLOAD
  {
    cid + [seqno] + data + Zeros(CONT_PAYLOAD - |data|)
  }

  lemma InitPacket(cid: Cid, cmd: Command, payload: bytes)
    requires |payload| <= MAX_MESSAGE_LEN
    ensures var n, head := |payload|, Min(|payload|, INIT_PAYLOAD);
            && Packet(cid, cmd, payload, 0) == InitReport(cid, cmd, payload)
            && Carried(n, 1) == head && (head < n <==> 1 < PacketCount(n))
  {
    var n, head := |payload|, Min(|payload|, INIT_PAYLOAD);
    PacketSizes(n, 0);
    assert cid + [cmd.Byte(), n / 256, n % 256] + payload[..head] == cid + Body(cmd, payload, 0);
  }

  lemma ContPacket(cid: Cid, cmd: Command, payload: bytes, k: nat)
    requires |payload| <= MAX_MESSAGE_LEN && 0 < k < PacketCount(|payload|)
    ensures var n, offset := |payload|, Carried(|payload|, k);
            var take := Min(n - offset, CONT_PAYLOAD);
            && k <= MAX_SEQ + 1
            && Packet(cid, cmd, payload, k) == ContReport(cid, k - 1, payload[offset..offset + take])
            && Carried(n, k + 1) == offset + take && (offset + take < n <==> k + 1 < PacketCount(n))
  {
    var n, offset := |payload|, Carried(|payload|, k);
    var take := Min(n - offset, CONT_PAYLOAD);
    PacketSizes(n, k);
    CapacityIsExact(n);
    assert cid + [k - 1] + payload[offset..offset + take] == cid + Body(cmd, payload, k);
  }

  /** How far the framing loop has come after `k` packets. */
  ghost predicate Framing(cid: Cid, cmd: Command, payload: bytes, packets: seq<Report>, offset: nat)
    requires |payload| <= MAX_MESSAGE_LEN
  {
    && 1 <= |packets| <= PacketCount(|payload|) && |packets| <= MAX_SEQ + 2
    && packets == Frames(cid, cmd, payload)[..|packets|]
    && offset == Carried(|payload|, |packets|)
    && (offset < |payload| <==> |packets| < PacketCount(|payload|))
  }

  lemma FramingBegins(cid: Cid, cmd: Command, payload: bytes)
    requires |payload| <= MAX_MESSAGE_LEN
    ensures Framing(cid, cmd, payload, [InitReport(cid, cmd, payload)], Min(|payload|, INIT_PAYLOAD))
  {
    InitPacket(cid, cmd, payload);
    assert Frames(cid, cmd, payload)[0] == Packet(cid, cmd, payload, 0);
  }

  lemma FramingContinues(cid: Cid, cmd: Command, payload: bytes, packets: seq<Report>, offset: nat)
    requires |payload| <= MAX_MESSAGE_LEN && Framing(cid, cmd, payload, packets, offset) && offset < |payload|
    ensures var take := Min(|payload| - offset, CONT_PAYLOAD);
            && |packets| <= MAX_SEQ + 1
            && Framing(cid, cmd, payload,
                       packets + [ContReport(cid, |packets| - 1, payload[offset..offset + take])], offset + take)
  {
    ContPacket(cid, cmd, payload, |packets|);
    assert Frames(cid, cmd, payload)[|packets|] == Packet(cid, cmd, payload, |packets|);
  }

  /** Builds the packets of a message front to back, unless the counter would run out. */
  method FrameMessage(cid: Cid, cmd: Command, payload: bytes) returns (r: Result<seq<Report>, HidError>)
    ensures r == if |payload| > MAX_MESSAGE_LEN then Failure(PayloadTooLarge(|payload|))
                 else Success(Frames(cid, cmd, payload))
  {
    if |payload| > MAX_MESSAGE_LEN {
      return Failure(PayloadTooLarge(|payload|));
    }
    var packets := [InitReport(cid, cmd, payload)];
    var offset, seqno := Min(|payload|, INIT_PAYLOAD), 0;
    FramingBegins(cid, cmd, payload);
    while offset < |payload|
      invariant Framing(cid, cmd, payload, packets, offset) && seqno == |packets| - 1
      decreases |payload| - offset
    {
      FramingContinues(cid, cmd, payload, packets, offset);
      var take := Min(|payload| - offset, CONT_PAYLOAD);
      packets := packets + [ContReport(cid, seqno, payload[offset..offset + take])];
      offset := offset + take;
      seqno := seqno + 1;
    }
    assert packets == Frames(cid, cmd, payload);
    return Success(packets);
  }

  // --- Reassembly ----------------------------------------------------------

  /** A message in flight: its command byte, declared length, octets so far, next counter. */
  datatype Partial = Partial(cmd: byte, expected: nat, buf: bytes, nextSeq: nat)

  /** The byte counter is tight: it never overflows and never outruns the sequence space. */
  predicate InFlight(p: Partial) {
    && CommandFromByte(p.cmd).Some?
    && p.nextSeq <= MAX_SEQ
    && |p.buf| == 57 + 59 * p.nextSeq < p.expected <= MAX_MESSAGE_LEN
  }

  type Active = a: Option<Partial> | a.Some? ==> InFlight(a.value) witness None

  type Pushed = Result<Option<(Command, bytes)>, HidError>

  /** An initialization packet aborts any message in flight and begins its own. */
  function OnInit(report: Report): (r: (Active, Pushed))
    requires report[4] >= 0x80
    ensures r.0.Some? <==> r.1 == Success(None)
  {
    var expected, cmd := U16(report[5], report[6]), CommandFromByte(report[4]);
    if cmd == None then (None, Failure(Malformed(UnknownCommand)))
    else if expected > MAX_MESSAGE_LEN then (None, Failure(Malformed(LengthOutOfRange)))
    else
      var buf := report[INIT_HEADER..INIT_HEADER + Min(expected, INIT_PAYLOAD)];
      if |buf| == expected then (None, Success(Some((cmd.value, buf))))
      else (Some(Partial(report[4], expected, buf, 0)), Success(None))
  }

  /** A continuation packet must carry the next counter value. */
  function OnCont(p: Partial, report: Report): (r: (Active, Pushed))
    requires InFlight(p)
    ensures r.0.Some? <==> r.1 == Success(None)
  {
    if report[4] != p.nextSeq then (None, Failure(Device(InvalidSeq)))
    else
      var buf := p.buf + report[CONT_HEADER..CONT_HEADER + Min(p.expected - |p.buf|, CONT_PAYLOAD)];
      if |buf| == p.expected then (None, Success(Some((CommandFromByte(p.cmd).value, buf))))
      else (Some(p.(buf := buf, nextSeq := p.nextSeq + 1)), Success(None))
  }

  /** One report of the channel: the next reassembly state and what the caller sees. */
  function Step(active: Active, report: Report): (r: (Active, Pushed))
    ensures r.0.Some? <==> r.1 == Success(None)
  {
    if report[4] >= 0x80 then OnInit(report)
    else if active == None then (None, Failure(Malformed(UnexpectedContinuation)))
    else OnCont(active.value, report)
  }

  /** The reassembly state after a fresh decoder has been fed `history`. */
  function After(history: seq<Report>): Active {
    if |history| == 0 then None
    else Step(After(history[..|history| - 1]), history[|history| - 1]).0
  }

  /** What a fresh decoder returns for the last report of `history`. */
  function Decode(history: seq<Report>): Pushed
    requires |history| > 0
  {
    Step(After(history[..|history| - 1]), history[|history| - 1]).1
  }

  ghost predicate DeliversExactly(r: Pushed, history: seq<Report>) {
    forall cmd, payload :: r == Success(Some((cmd, payload))) <==> EndsWithMessage(history, cmd, payload)
  }

  /** Reads the reports of one channel back into messages. */
  class MessageDecoder {
    var active: Active
    ghost var history: seq<Report>  // every report pushed so far

    ghost predicate Valid()
      reads this
    {
      active == After(history)
    }

    constructor ()
      ensures Valid() && history == []
    {
      active := None;
      history := [];
    }

    /**
     Takes the next report in. A message comes out exactly when the most recent reports
     are that message; every error leaves the decoder idle and usable.
     */
    method Push(report: Report) returns (r: Pushed)
      requires Valid()
      modifies this
      ensures Valid() && history == old(history) + [report]
      ensures r == Decode(history)
      ensures DeliversExactly(r, history)
      ensures r.Failure? ==> active == None
    {
      assert (history + [report])[..|history|] == history;
      history := history + [report];
      AllMessages(history);
      var tag := report[4];
      if tag >= 0x80 {
        active := None;
        var expected := U16(report[5], report[6]);
        var cmd := CommandFromByte(tag);
        if cmd.None? {
          return Failure(Malformed(UnknownCommand));
        }
        if expected > MAX_MESSAGE_LEN {
          return Failure(Malformed(LengthOutOfRange));
        }
        var head := Min(expected, INIT_PAYLOAD);
        var buf := report[INIT_HEADER..INIT_HEADER + head];
        if |buf| == expected {
          return Success(Some((cmd.value, buf)));
        }
        active := Some(Partial(tag, expected, buf, 0));
        return Success(None);
      }
      var taken := active;
      active := None;
      if taken.None? {
        return Failure(Malformed(UnexpectedContinuation));
      }
      var partial := taken.value;
      if tag != partial.nextSeq {
        return Failure(Device(InvalidSeq));
      }
      var take := Min(partial.expected - |partial.buf|, CONT_PAYLOAD);
      var buf := partial.buf + report[CONT_HEADER..CONT_HEADER + take];
      if |buf| == partial.expected {
        return Success(Some((CommandFromByte(partial.cmd).value, buf)));
      }
      active := Some(partial.(buf := buf, nextSeq := partial.nextSeq + 1));
      return Success(None);
    }
  }

  // --- Reassembly inverts framing, whatever came before ------------------

  /** The message in flight after its first `k` reports. */
  function At(cmd: Command, payload: bytes, k: nat): Partial
    requires 0 < k < PacketCount(|payload|)
  {
    Partial(cmd.Byte(), |payload|, payload[..Carried(|payload|, k)], k - 1)
  }

  /** What the decoder holds and returns once it has seen the first `k` reports of a message. */
  ghost predicate Reached(r: (Active, Pushed), cmd: Command, payload: bytes, k: nat)
    requires 0 < k <= PacketCount(|payload|)
  {
    if k < PacketCount(|payload|) then r.0 == Some(At(cmd, payload, k))
    else r.1 == Success(Some((cmd, payload)))
  }

  /** The whole outcome of the last report of `history`. */
  function Last(history: seq<Report>): (Active, Pushed)
    requires |history| > 0
  {
    Step(After(history[..|history| - 1]), history[|history| - 1])
  }

  lemma CarriesParts(report: Report, header: bytes, data: bytes)
    requires 4 + |header| + |data| <= REPORT_LEN
    ensures header + data <= report[4..]
       <==> report[4..4 + |header|] == header && report[4 + |header|..4 + |header| + |data|] == data
  {
    var all := header + data;
    assert report[4..4 + |all|] == report[4..4 + |header|] + report[4 + |header|..4 + |all|];
    assert report[4..][..|all|] == report[4..4 + |all|];
    if report[4..4 + |all|] == all {
      assert all[..|header|] == header && all[|header|..] == data;
      assert report[4..4 + |all|][..|header|] == report[4..4 + |header|];
    }
  }

  lemma InitCarries(r: Report, cmd: Command, payload: bytes)
    requires |payload| <= MAX_MESSAGE_LEN
    ensures var head := Min(|payload|, INIT_PAYLOAD);
            (Carries(r, cmd, payload, 0)
             <==> r[4] == cmd.Byte() && U16(r[5], r[6]) == |payload|
                  && r[INIT_HEADER..INIT_HEADER + head] == payload[..head])
  {
    var n, head := |payload|, Min(|payload|, INIT_PAYLOAD);
    assert Carried(n, 0) == 0 && Carried(n, 1) == head;
    CarriesParts(r, Header(cmd, n, 0), payload[..head]);
    HeaderIff(r, cmd, n);
  }

  lemma HeaderIff(r: Report, cmd: Command, n: nat)
    requires n <= MAX_MESSAGE_LEN
    ensures r[4..7] == [cmd.Byte(), n / 256, n % 256] <==> r[4] == cmd.Byte() && U16(r[5], r[6]) == n
  {
    assert r[4..7] == [r[4], r[5], r[6]];
  }

  lemma ContCarries(r: Report, cmd: Command, payload: bytes, k: nat)
    requires |payload| <= MAX_MESSAGE_LEN && 0 < k < PacketCount(|payload|)
    ensures var from, to := Carried(|payload|, k), Carried(|payload|, k + 1);
            from < to <= from + CONT_PAYLOAD && k - 1 <= MAX_SEQ
            && (Carries(r, cmd, payload, k)
                <==> r[4] == k - 1 && r[CONT_HEADER..CONT_HEADER + (to - from)] == payload[from..to])
  {
    PacketSizes(|payload|, k);
    CapacityIsExact(|payload|);
    CarriesParts(r, [k - 1], payload[Carried(|payload|, k)..Carried(|payload|, k + 1)]);
    assert r[4..5] == [r[4]];
  }

  lemma OnInitStep(r: Report, cmd: Command, payload: bytes)
    requires |payload| <= MAX_MESSAGE_LEN && r[4] >= 0x80
    ensures var head := Min(|payload|, INIT_PAYLOAD);
            Reached(OnInit(r), cmd, payload, 1)
            <==> r[4] == cmd.Byte() && U16(r[5], r[6]) == |payload|
                 && r[INIT_HEADER..INIT_HEADER + head] == payload[..head]
  {
    PacketSizes(|payload|, 0);
    CommandRoundTrip(cmd);
    assert payload[..|payload|] == payload;
  }

  /** A continuation completes only messages longer than an initialization packet. */
  lemma OnContIsNoStart(p: Partial, r: Report, cmd: Command, payload: bytes)
    requires InFlight(p)
    ensures !Reached(OnCont(p, r), cmd, payload, 1)
  {
    PacketSizes(|payload|, 0);
    assert |p.buf + r[CONT_HEADER..CONT_HEADER + Min(p.expected - |p.buf|, CONT_PAYLOAD)]| > INIT_PAYLOAD;
  }

  lemma InitStep(active: Active, r: Report, cmd: Command, payload: bytes)
    requires |payload| <= MAX_MESSAGE_LEN
    ensures Reached(Step(active, r), cmd, payload, 1) <==> Carries(r, cmd, payload, 0)
  {
    InitCarries(r, cmd, payload);
    if r[4] >= 0x80 {
      OnInitStep(r, cmd, payload);
    } else if active.Some? {
      OnContIsNoStart(active.value, r, cmd, payload);
    }
  }

  lemma ContStep(active: Active, r: Report, cmd: Command, payload: bytes, k: nat)
    requires |payload| <= MAX_MESSAGE_LEN && 0 < k < PacketCount(|payload|)
    ensures Reached(Step(active, r), cmd, payload, k + 1)
       <==> Carries(r, cmd, payload, k) && active == Some(At(cmd, payload, k))
  {
    ContCarries(r, cmd, payload, k);
    if r[4] < 0x80 && active.Some? {
      OnContStep(active.value, r, cmd, payload, k);
    }
  }

  /** What the reassembler has after a report that carries the counter it waits for. */
  function Longer(p: Partial, r: Report): bytes
    requires InFlight(p)
  {
    p.buf + r[CONT_HEADER..CONT_HEADER + Min(p.expected - |p.buf|, CONT_PAYLOAD)]
  }

  lemma OnContReached(p: Partial, r: Report, cmd: Command, payload: bytes, k: nat)
    requires InFlight(p) && 0 < k < PacketCount(|payload|) && r[4] == p.nextSeq
    ensures Reached(OnCont(p, r), cmd, payload, k + 1)
       <==> p.cmd == cmd.Byte() && p.expected == |payload| && p.nextSeq == k - 1
            && Longer(p, r) == payload[..Carried(|payload|, k + 1)]
  {
    var n, to, buf := |payload|, Carried(|payload|, k + 1), Longer(p, r);
    PacketSizes(n, k);
    CommandRoundTrip(cmd);
    assert payload[..n] == payload;
    if p.expected == n && |buf| == to {
      CounterDetermined(n, p.nextSeq, k);
    }
  }

  lemma OnContStep(p: Partial, r: Report, cmd: Command, payload: bytes, k: nat)
    requires InFlight(p) && 0 < k < PacketCount(|payload|)
    ensures var n, from, to := |payload|, Carried(|payload|, k), Carried(|payload|, k + 1);
            from <= to <= from + CONT_PAYLOAD
            && (Reached(OnCont(p, r), cmd, payload, k + 1)
                <==> r[4] == k - 1 && r[CONT_HEADER..CONT_HEADER + (to - from)] == payload[from..to]
                     && p == At(cmd, payload, k))
  {
    var n, from, to := |payload|, Carried(|payload|, k), Carried(|payload|, k + 1);
    PacketSizes(n, k);
    if r[4] == p.nextSeq {
      OnContReached(p, r, cmd, payload, k);
      if p.nextSeq == k - 1 && p.expected == n {
        SplitAppend(payload, from, to, p.buf, r[CONT_HEADER..CONT_HEADER + (to - from)]);
      }
    }
  }

  /** The octets so far determine the continuation counter. */
  lemma CounterDetermined(n: nat, counter: nat, k: nat)
    requires 0 < k < PacketCount(n) && 57 + 59 * counter < n
    requires Min(n, 57 + 59 * counter + CONT_PAYLOAD) == Carried(n, k + 1)
    ensures counter == k - 1
  {
    PacketSizes(n, k);
  }

  lemma SplitAppend(payload: bytes, from: nat, to: nat, buf: bytes, data: bytes)
    requires from <= to <= |payload| && |buf| == from && |data| == to - from
    ensures buf + data == payload[..to] <==> buf == payload[..from] && data == payload[from..to]
  {
    assert payload[..to] == payload[..from] + payload[from..to];
    if buf + data == payload[..to] {
      assert buf == (buf + data)[..from] && data == (buf + data)[from..];
    }
  }

  lemma RecentSnoc<T>(before: seq<T>, last: T, fits: (T, nat) -> bool, k: nat)
    ensures RecentFit(before + [last], fits, k + 1) <==> RecentFit(before, fits, k) && fits(last, k)
  {
    var history := before + [last];
    if k <= |before| {
      var recent := before[|before| - k..];
      assert history[|history| - (k + 1)..] == recent + [last];
      assert (recent + [last])[k] == last;
      if EachFits(recent + [last], fits) {
        forall i | 0 <= i < k
          ensures fits(recent[i], i)
        {
          assert (recent + [last])[i] == recent[i];
        }
      }
    }
  }

  /** `q` holds of a history and `k` when its last element fits at k - 1 and the rest satisfied `q` for k - 1. */
  ghost predicate Inductive<T(!new)>(q: (seq<T>, nat) -> bool, fits: (T, nat) -> bool, limit: nat) {
    forall before, last, k: nat | 0 < k <= limit ::
      q(before + [last], k) <==> fits(last, k - 1) && (k == 1 || (|before| > 0 && q(before, k - 1)))
  }

  lemma {:induction false} InductiveIsRecent<T(!new)>(
      q: (seq<T>, nat) -> bool, fits: (T, nat) -> bool, limit: nat, history: seq<T>, k: nat)
    requires Inductive(q, fits, limit) && |history| > 0 && 0 < k <= limit
    ensures q(history, k) <==> RecentFit(history, fits, k)
    decreases |history|
  {
    var before, last := history[..|history| - 1], history[|history| - 1];
    assert history == before + [last];
    RecentSnoc(before, last, fits, k - 1);
    if k > 1 && |before| > 0 {
      InductiveIsRecent(q, fits, limit, before, k - 1);
    }
  }

  ghost function ReachedBy(cmd: Command, payload: bytes): (seq<Report>, nat) -> bool {
    (history: seq<Report>, k: nat) =>
      |history| > 0 && 0 < k <= PacketCount(|payload|) && Reached(Last(history), cmd, payload, k)
  }

  lemma LastSnoc(before: seq<Report>, last: Report)
    ensures Last(before + [last]) == Step(After(before), last)
    ensures if |before| == 0 then After(before) == None else After(before) == Last(before).0
  {
    assert (before + [last])[..|before|] == before;
  }

  lemma ReachedByStep(before: seq<Report>, last: Report, cmd: Command, payload: bytes, k: nat)
    requires |payload| <= MAX_MESSAGE_LEN && 0 < k <= PacketCount(|payload|)
    ensures ReachedBy(cmd, payload)(before + [last], k)
       <==> Fits(cmd, payload)(last, k - 1) && (k == 1 || (|before| > 0 && ReachedBy(cmd, payload)(before, k - 1)))
  {
    LastSnoc(before, last);
    if k == 1 {
      InitStep(After(before), last, cmd, payload);
    } else {
      ContStep(After(before), last, cmd, payload, k - 1);
    }
  }

  /** The decoder's state is a function of the reports since the message began, and back. */
  lemma ReachedIffEndsWith(history: seq<Report>, cmd: Command, payload: bytes, k: nat)
    requires |history| > 0 && |payload| <= MAX_MESSAGE_LEN && 0 < k <= PacketCount(|payload|)
    ensures Reached(Last(history), cmd, payload, k) <==> EndsWith(history, cmd, payload, k)
  {
    var q, fits, limit := ReachedBy(cmd, payload), Fits(cmd, payload), PacketCount(|payload|);
    forall before, last, i: nat | 0 < i <= limit
      ensures q(before + [last], i) <==> fits(last, i - 1) && (i == 1 || (|before| > 0 && q(before, i - 1)))
    {
      ReachedByStep(before, last, cmd, payload, i);
    }
    InductiveIsRecent(q, fits, limit, history, k);
  }

  /**
   For every stream of reports: a message comes out at a report exactly when
   the most recent reports are that message up to CID and padding.
   */
  lemma DecodeIffMessage(history: seq<Report>, cmd: Command, payload: bytes)
    requires |history| > 0
    ensures Decode(history) == Success(Some((cmd, payload))) <==> EndsWithMessage(history, cmd, payload)
  {
    if |payload| <= MAX_MESSAGE_LEN {
      ReachedIffEndsWith(history, cmd, payload, PacketCount(|payload|));
    }
  }

  lemma AllMessages(history: seq<Report>)
    requires |history| > 0
    ensures DeliversExactly(Decode(history), history)
  {
    forall cmd, payload
      ensures Decode(history) == Success(Some((cmd, payload))) <==> EndsWithMessage(history, cmd, payload)
    {
      DecodeIffMessage(history, cmd, payload);
    }
  }

  /** The first reports of a message, sent from any decoder state, are reports in flight. */
  lemma FramesArrive(history: seq<Report>, cid: Cid, cmd: Command, payload: bytes, k: nat)
    requires |payload| <= MAX_MESSAGE_LEN && 0 < k <= PacketCount(|payload|)
    ensures Decode(history + Frames(cid, cmd, payload)[..k])
         == Success(if k < PacketCount(|payload|) then None else Some((cmd, payload)))
  {
    var sent := Frames(cid, cmd, payload)[..k];
    var all := history + sent;
    assert all[|all| - k..] == sent;
    forall i | 0 <= i < k
      ensures Fits(cmd, payload)(sent[i], i)
    {
      PacketCarries(cid, cmd, payload, i);
    }
    ReachedIffEndsWith(all, cmd, payload, k);
  }

  lemma PacketCarries(cid: Cid, cmd: Command, payload: bytes, i: nat)
    requires |payload| <= MAX_MESSAGE_LEN && i < PacketCount(|payload|)
    ensures Carries(Packet(cid, cmd, payload, i), cmd, payload, i)
  {
    var body := Body(cmd, payload, i);
    PacketSizes(|payload|, i);
    assert Packet(cid, cmd, payload, i)[4..] == body + Zeros(REPORT_LEN - 4 - |body|);
  }
}
