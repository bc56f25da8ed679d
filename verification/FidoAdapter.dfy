/** The ISO 7816 envelope over CTAPHID: chained APDUs in, one CBOR request out. */
module FidoAdapter {
  import opened Wrappers
  import opened Radix
  import opened Sequences
  import opened CtapHid
  import opened CtapChannel
  import opened CtapRefinement
  import opened Loopback

  const FIDO2_USB_SELECT: bytes :=
    [0x00, 0xa4, 0x04, 0x00, 0x08, 0xf0, 0x43, 0x41, 0x4e, 0x4f, 0x46, 0x49, 0x44]
  const FIDO2_STANDARD_SELECT: bytes :=
    [0x00, 0xa4, 0x04, 0x00, 0x08, 0xa0, 0x00, 0x00, 0x06, 0x47, 0x2f, 0x00, 0x01]
  const SW_OK: bytes := [0x90, 0x00]

  datatype Refusal = ShortApdu | NotCtapMessage | ShortLc | LcMismatch | ChainTooLong
  datatype AdapterError = Refused(why: Refusal) | Hid(error: HidError)

  /** What one command APDU is to the adapter. */
  datatype Apdu = Select | Data(more: bool, data: bytes) | Invalid(why: Refusal)

  function Classify(command: bytes): Apdu {
    if command == FIDO2_USB_SELECT || command == FIDO2_STANDARD_SELECT then Select
    else if |command| < 5 then Invalid(ShortApdu)
    else if command[1] != 0x10 || (command[0] != 0x80 && command[0] != 0x90) then Invalid(NotCtapMessage)
    else if command[4] == 0 && |command| < 7 then Invalid(ShortLc)
    else
      var data := if command[4] == 0 then command[7..] else command[5..];
      var lc := if command[4] == 0 then U16(command[5], command[6]) else command[4];
      if |data| != lc then Invalid(LcMismatch) else Data(command[0] == 0x90, data)
  }

  /** A CTAP message command as ISO 7816-4 writes it: bit 0x10 of CLA chains, Lc is short or extended. */
  function EncodeApdu(more: bool, p1: byte, p2: byte, data: bytes, extended: bool): bytes
    requires if extended then |data| < 0x1_0000 else 0 < |data| < 0x100
  {
    [if more then 0x90 else 0x80, 0x10, p1, p2]
    + (if extended then [0, |data| / 256, |data| % 256] else [|data|])
    + data
  }

  lemma EncodedIsData(more: bool, p1: byte, p2: byte, data: bytes, extended: bool)
    requires if extended then |data| < 0x1_0000 else 0 < |data| < 0x100
    ensures Classify(EncodeApdu(more, p1, p2, data, extended)) == Data(more, data)
  {
    var command := EncodeApdu(more, p1, p2, data, extended);
    assert command[0] == if more then 0x90 else 0x80;
    assert command[1] == 0x10;
    if extended {
      assert command[4] == 0 && U16(command[5], command[6]) == |data| && command[7..] == data;
    } else {
      assert command[4] == |data| && command[5..] == data;
    }
  }

  /** The adapter accepts nothing but well-formed CTAP message commands. */
  lemma DataIsEncoded(command: bytes)
    requires Classify(command).Data?
    ensures var (apdu, extended) := (Classify(command), command[4] == 0);
            && (if extended then |apdu.data| < 0x1_0000 else 0 < |apdu.data| < 0x100)
            && command == EncodeApdu(apdu.more, command[2], command[3], apdu.data, extended)
  {
    if command[4] == 0 {
      var lc := U16(command[5], command[6]);
      assert command[5] == lc / 256 && command[6] == lc % 256;
    }
  }

  // --- The reassembler on its own ------------------------------------------

  datatype Action = Acknowledge | Send(message: bytes) | Refuse(why: Refusal)

  /** One APDU: the next pending fragments and what is done. */
  function Feed(pending: bytes, command: bytes): (r: (bytes, Action))
    requires |pending| <= MAX_MESSAGE_LEN
    ensures |r.0| <= MAX_MESSAGE_LEN
    ensures r.1.Send? ==> |r.1.message| <= MAX_MESSAGE_LEN
  {
    match Classify(command)
    case Select => ([], Acknowledge)
    case Invalid(why) => ([], Refuse(why))
    case Data(more, data) =>
      if |data| > MAX_MESSAGE_LEN - |pending| then ([], Refuse(ChainTooLong))
      else if more then (pending + data, Acknowledge)
      else ([], Send(pending + data))
  }

  /** The fragments held after a history of APDUs. */
  function Pending(commands: seq<bytes>): (p: bytes)
    ensures |p| <= MAX_MESSAGE_LEN
  {
    if |commands| == 0 then []
    else Feed(Pending(commands[..|commands| - 1]), commands[|commands| - 1]).0
  }

  /** The CBOR requests sent over a history of APDUs. */
  function Requests(commands: seq<bytes>): seq<Payload> {
    if |commands| == 0 then []
    else
      var front, last := commands[..|commands| - 1], commands[|commands| - 1];
      var action := Feed(Pending(front), last).1;
      Requests(front) + if action.Send? then [action.message] else []
  }

  lemma FeedSnoc(commands: seq<bytes>, command: bytes)
    ensures var fed := Feed(Pending(commands), command);
            && Pending(commands + [command]) == fed.0
            && Requests(commands + [command]) == Requests(commands) + if fed.1.Send? then [fed.1.message] else []
  {
    assert (commands + [command])[..|commands|] == commands;
  }

  // --- Commands by their octets ---------------------------------------------

  /** SELECT of the CanoKey USB application, or of the standard FIDO2 one. */
  ghost predicate IsSelect(command: bytes) {
    || command == [0x00, 0xa4, 0x04, 0x00, 0x08, 0xf0, 0x43, 0x41, 0x4e, 0x4f, 0x46, 0x49, 0x44]
    || command == [0x00, 0xa4, 0x04, 0x00, 0x08, 0xa0, 0x00, 0x00, 0x06, 0x47, 0x2f, 0x00, 0x01]
  }

  /** CLA 80, or 90 when more is to come, INS 10, any P1 and P2, and a length in one octet or in three. */
  ghost predicate CarriesData(command: bytes, more: bool, data: bytes) {
    && |command| >= 5 && command[0] == (if more then 0x90 else 0x80) && command[1] == 0x10
    && (|| (command[4] == |data| > 0 && command[5..] == data)
        || (&& |command| >= 7 && command[4] == 0 && 256 * (command[5] as int) + command[6] == |data|
            && command[7..] == data))
  }

  /** A fragment that still fits what is pending. */
  ghost predicate IsKept(pending: bytes, command: bytes, data: bytes) {
    CarriesData(command, true, data) && |pending| + |data| <= 7609
  }

  /** The last fragment of a message that fits. */
  ghost predicate Completes(pending: bytes, command: bytes, data: bytes) {
    CarriesData(command, false, data) && |pending| + |data| <= 7609
  }

  /** Why a command is refused, by its shape: from the outside in, and last its length. */
  ghost predicate IsRefusedFor(pending: bytes, command: bytes, why: Refusal) {
    var isMessage := |command| >= 5 && command[0] in {0x80, 0x90} && command[1] == 0x10;
    && !IsSelect(command)
    && match why
       case ShortApdu => |command| < 5
       case NotCtapMessage => |command| >= 5 && !isMessage
       case ShortLc => isMessage && command[4] == 0 && |command| < 7
       case LcMismatch =>
         isMessage && (if command[4] > 0 then |command| != 5 + command[4] as int
                       else |command| >= 7 && |command| != 7 + 256 * (command[5] as int) + command[6])
       case ChainTooLong =>
         exists more, data :: CarriesData(command, more, data) && |pending| + |data| > 7609
  }

  lemma CarriedIsClassified(command: bytes, more: bool, data: bytes)
    ensures CarriesData(command, more, data) <==> Classify(command) == Data(more, data)
  {
  }

  lemma SelectIsClassified(command: bytes)
    ensures IsSelect(command) <==> Classify(command) == Select
  {
  }

  lemma RefusedByShape(pending: bytes, command: bytes, why: Refusal)
    requires |pending| <= MAX_MESSAGE_LEN
    ensures Feed(pending, command).1 == Refuse(why) <==> IsRefusedFor(pending, command, why)
  {
    SelectIsClassified(command);
    if Classify(command).Data? {
      CarriedIsClassified(command, Classify(command).more, Classify(command).data);
    }
    if why == ChainTooLong && IsRefusedFor(pending, command, why) {
      var more, data :| CarriesData(command, more, data) && |pending| + |data| > 7609;
      CarriedIsClassified(command, more, data);
    }
  }

  /** What becomes of any command, by its octets. */
  lemma FeedByShape(pending: bytes, command: bytes)
    requires |pending| <= MAX_MESSAGE_LEN
    ensures IsSelect(command) ==> Feed(pending, command) == ([], Acknowledge)
    ensures forall data | IsKept(pending, command, data) :: Feed(pending, command) == (pending + data, Acknowledge)
    ensures forall data | Completes(pending, command, data) :: Feed(pending, command) == ([], Send(pending + data))
    ensures Feed(pending, command).1 == Acknowledge
       <==> IsSelect(command) || exists data :: IsKept(pending, command, data)
    ensures forall why :: Feed(pending, command).1 == Refuse(why) <==> IsRefusedFor(pending, command, why)
  {
    SelectIsClassified(command);
    forall data | IsKept(pending, command, data)
      ensures Feed(pending, command) == (pending + data, Acknowledge)
    {
      CarriedIsClassified(command, true, data);
    }
    forall data | Completes(pending, command, data)
      ensures Feed(pending, command) == ([], Send(pending + data))
    {
      CarriedIsClassified(command, false, data);
    }
    if Feed(pending, command).1 == Acknowledge && !IsSelect(command) {
      CarriedIsClassified(command, true, Classify(command).data);
      assert IsKept(pending, command, Classify(command).data);
    }
    forall why
      ensures Feed(pending, command).1 == Refuse(why) <==> IsRefusedFor(pending, command, why)
    {
      RefusedByShape(pending, command, why);
    }
  }

  /** The caller is told what was heard: the reply with a success status, or the failure. */
  ghost predicate Answers(
    heard: Heard<bytes>, r: Result<bytes, AdapterError>, keepalives: seq<KeepaliveStatus>, rest: seq<ReadEvent>) {
    && r == (match heard.result
             case Success(body) => Success(body + [0x90, 0x00])
             case Failure(error) => Failure(Hid(error)))
    && keepalives == Statuses(heard.passed)
    && rest == heard.rest
  }

  /** The reports of CBOR requests sent one after the other. */
  function Written(cid: Cid, requests: seq<Payload>): seq<Report> {
    FramesOf(cid, CborMessages(requests))
  }

  lemma WrittenSnoc(cid: Cid, requests: seq<Payload>, message: Payload)
    ensures Written(cid, requests + [message]) == Written(cid, requests) + Frames(cid, Cbor, message)
  {
    assert CborMessages(requests + [message]) == CborMessages(requests) + [(Cbor, message)];
    FramesOfSnoc(cid, CborMessages(requests), (Cbor, message));
  }

  /** One more request on the wire. */
  lemma WireSnoc(base: seq<Report>, cid: Cid, commands: seq<bytes>, command: bytes, message: Payload)
    requires Feed(Pending(commands), command).1 == Send(message)
    ensures base + Written(cid, Requests(commands)) + Frames(cid, Cbor, message)
         == base + Written(cid, Requests(commands + [command]))
  {
    FeedSnoc(commands, command);
    WrittenSnoc(cid, Requests(commands), message);
    Associate(base, Written(cid, Requests(commands)), Frames(cid, Cbor, message));
  }

  /** Anything else leaves the requests as they are. */
  lemma WireStays(commands: seq<bytes>, command: bytes)
    requires !Feed(Pending(commands), command).1.Send?
    ensures Requests(commands + [command]) == Requests(commands)
  {
    FeedSnoc(commands, command);
  }

  class CtapHidAdapter {
    const channel: CtapHidChannel
    var pending: bytes
    ghost const base: seq<Report>   // reports written before the adapter took over the channel
    ghost var commands: seq<bytes>  // every APDU exchanged so far
    ghost var refused: bool         // whether the device ever refused a report

    /** The buffer, and everything on the wire while no report was refused, follow from the APDUs. */
    ghost predicate Valid()
      reads this, channel.io
    {
      && pending == Pending(commands)
      && (!refused ==> channel.io.written == base + Written(channel.cid, Requests(commands)))
    }

    constructor (channel: CtapHidChannel)
      ensures Valid() && this.channel == channel && commands == []
      ensures !refused && base == channel.io.written
    {
      this.channel, pending := channel, [];
      base, commands, refused := channel.io.written, [], false;
    }

    /**
     One APDU in, one response out; failures discard incomplete chains. The
     device is left alone and the answer is 90 00 exactly for the two SELECTs,
     which empty the buffer, and for fragments that fit, which are added to it.
     */
    method Exchange(command: bytes) returns (r: Result<bytes, AdapterError>, keepalives: seq<KeepaliveStatus>)
      requires Valid()
      modifies this, channel.io
      ensures Valid() && commands == old(commands) + [command]
      ensures r.Failure? ==> pending == []
      ensures r == Success([0x90, 0x00]) && unchanged(channel.io`written)
         <==> IsSelect(command) || exists data :: IsKept(old(pending), command, data)
      ensures IsSelect(command) ==> pending == [] && unchanged(channel.io)
      ensures forall data | IsKept(old(pending), command, data) ::
                pending == old(pending) + data && unchanged(channel.io)
      ensures forall data | Completes(old(pending), command, data) ::
                pending == [] && Feed(old(pending), command).1 == Send(old(pending) + data)
      ensures forall why | IsRefusedFor(old(pending), command, why) ::
                r == Failure(Refused(why)) && unchanged(channel.io)
      ensures match Feed(old(pending), command).1
              case Acknowledge =>
                r == Success(SW_OK) && keepalives == [] && refused == old(refused) && unchanged(channel.io)
              case Refuse(why) =>
                r == Failure(Refused(why)) && keepalives == [] && refused == old(refused) && unchanged(channel.io)
              case Send(message) =>
                var io, accepted := channel.io, NoneRefused(old(channel.io.refusals), PacketCount(|message|));
                && refused == (old(refused) || !accepted)
                && (!accepted ==> r == Failure(Hid(Io)) && CutShort(
                      old(io.refusals), old(io.written), io.written, Frames(channel.cid, Cbor, message)))
                && (accepted ==>
                      && io.written == old(io.written) + Frames(channel.cid, Cbor, message)
                      && Answers(Listen(channel.cid, ResponseJudge(Cbor), old(io.incoming), []), r, keepalives,
                                 io.incoming))
    {
      FeedByShape(pending, command);
      r, keepalives := Act(command);
    }

    /** The same, by what the reassembler decides. */
    method Act(command: bytes) returns (r: Result<bytes, AdapterError>, keepalives: seq<KeepaliveStatus>)
      requires Valid()
      modifies this, channel.io
      ensures Valid() && commands == old(commands) + [command]
      ensures r.Failure? ==> pending == []
      ensures r.Success? ==> pending == Feed(old(pending), command).0
      ensures match Feed(old(pending), command).1
              case Acknowledge =>
                r == Success(SW_OK) && keepalives == [] && refused == old(refused) && unchanged(channel.io)
              case Refuse(why) =>
                r == Failure(Refused(why)) && keepalives == [] && refused == old(refused) && unchanged(channel.io)
              case Send(message) =>
                var io, accepted := channel.io, NoneRefused(old(channel.io.refusals), PacketCount(|message|));
                && refused == (old(refused) || !accepted)
                && (!accepted ==> r == Failure(Hid(Io)) && CutShort(
                      old(io.refusals), old(io.written), io.written, Frames(channel.cid, Cbor, message)))
                && (accepted ==>
                      && io.written == old(io.written) + Frames(channel.cid, Cbor, message)
                      && Answers(Listen(channel.cid, ResponseJudge(Cbor), old(io.incoming), []), r, keepalives,
                                 io.incoming))
    {
      keepalives := [];
      ghost var earlier := commands;
      FeedSnoc(commands, command);
      var action := ExchangeInner(command);
      commands := commands + [command];
      match action
      case Refuse(why) =>
        WireStays(earlier, command);
        pending := [];
        r := Failure(Refused(why));
      case Acknowledge =>
        WireStays(earlier, command);
        r := Success(SW_OK);
      case Send(message) =>
        refused := refused || !NoneRefused(channel.io.refusals, PacketCount(|message|));
        WireSnoc(base, channel.cid, earlier, command, message);
        r, keepalives := Forward(message);
    }

    /** Send one complete CBOR request and wrap its response. */
    method Forward(message: Payload) returns (r: Result<bytes, AdapterError>, keepalives: seq<KeepaliveStatus>)
      modifies channel.io
      ensures var io, accepted := channel.io, NoneRefused(old(channel.io.refusals), PacketCount(|message|));
              && (!accepted ==> r == Failure(Hid(Io)) && CutShort(
                    old(io.refusals), old(io.written), io.written, Frames(channel.cid, Cbor, message)))
              && (accepted ==>
                    && io.written == old(io.written) + Frames(channel.cid, Cbor, message)
                    && Answers(Listen(channel.cid, ResponseJudge(Cbor), old(io.incoming), []), r, keepalives,
                               io.incoming))
    {
      var response;
      response, keepalives := channel.Request(Cbor, message);
      r := match response
           case Failure(error) => Failure(Hid(error))
           case Success(body) => Success(body + SW_OK);
    }

    /** Unwrap one APDU into the pending buffer; a refusal leaves the buffer to its caller. */
    method ExchangeInner(command: bytes) returns (action: Action)
      requires |pending| <= MAX_MESSAGE_LEN
      modifies this`pending
      ensures action == Feed(old(pending), command).1
      ensures !action.Refuse? ==> pending == Feed(old(pending), command).0
    {
      if command == FIDO2_USB_SELECT || command == FIDO2_STANDARD_SELECT {
        pending := [];
        return Acknowledge;
      }
      if |command| < 5 {
        return Refuse(ShortApdu);
      }
      var cla, ins := command[0], command[1];
      if ins != 0x10 || (cla != 0x80 && cla != 0x90) {
        return Refuse(NotCtapMessage);
      }
      var data, lc: nat := command[5..], command[4];
      if command[4] == 0 {
        if |command| < 7 {
          return Refuse(ShortLc);
        }
        data, lc := command[7..], U16(command[5], command[6]);
      }
      if |data| != lc {
        return Refuse(LcMismatch);
      }
      if |data| > MAX_MESSAGE_LEN - |pending| {
        return Refuse(ChainTooLong);
      }
      pending := pending + data;
      if cla == 0x90 {
        return Acknowledge;
      }
      var message := pending;
      pending := [];
      return Send(message);
    }
  }
}
