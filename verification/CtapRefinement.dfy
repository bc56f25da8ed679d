/** Streams of reports behave like "one message in, one message out". */
module CtapRefinement {
  import opened Wrappers
  import opened Radix
  import opened Sequences
  import opened CtapHid
  import opened CtapChannel

  ghost predicate AllGot(events: seq<ReadEvent>) {
    forall i | 0 <= i < |events| :: events[i].Got?
  }

  predicate IsOurs(cid: Cid, event: ReadEvent) {
    event.Got? && event.report[..4] == cid
  }

  /** The reports of one channel, with interleaved traffic dropped. */
  function Ours(cid: Cid, events: seq<ReadEvent>): seq<Report> {
    if |events| == 0 then []
    else if IsOurs(cid, events[0]) then [events[0].report] + Ours(cid, events[1..])
    else Ours(cid, events[1..])
  }

  /** `reports` are the given messages one after the other, up to CIDs and padding. */
  ghost predicate Spells(reports: seq<Report>, msgs: seq<Message>)
    decreases |msgs|
  {
    if |msgs| == 0 then |reports| == 0
    else
      var (cmd, payload) := msgs[0];
      && |payload| <= MAX_MESSAGE_LEN
      && PacketCount(|payload|) <= |reports|
      && EachFits(reports[..PacketCount(|payload|)], Fits(cmd, payload))
      && Spells(reports[PacketCount(|payload|)..], msgs[1..])
  }

  /** The reports of messages sent back to back on one channel. */
  function FramesOf(cid: Cid, msgs: seq<Message>): seq<Report>
    requires forall i | 0 <= i < |msgs| :: |msgs[i].1| <= MAX_MESSAGE_LEN
  {
    if |msgs| == 0 then [] else Frames(cid, msgs[0].0, msgs[0].1) + FramesOf(cid, msgs[1..])
  }

  lemma {:induction false} FramesSpell(cid: Cid, msgs: seq<Message>)
    requires forall i | 0 <= i < |msgs| :: |msgs[i].1| <= MAX_MESSAGE_LEN
    ensures Spells(FramesOf(cid, msgs), msgs)
  {
    if |msgs| > 0 {
      var (cmd, payload) := msgs[0];
      var first := Frames(cid, cmd, payload);
      var all := FramesOf(cid, msgs);
      assert all[..|first|] == first && all[|first|..] == FramesOf(cid, msgs[1..]);
      forall i | 0 <= i < |first|
        ensures Fits(cmd, payload)(first[i], i)
      {
        PacketCarries(cid, cmd, payload, i);
      }
      FramesSpell(cid, msgs[1..]);
    }
  }

  lemma {:induction false} OursConcat(cid: Cid, a: seq<ReadEvent>, b: seq<ReadEvent>)
    ensures Ours(cid, a + b) == Ours(cid, a) + Ours(cid, b)
  {
    if |a| == 0 {
      assert a + b == b;
    } else {
      assert (a + b)[1..] == a[1..] + b;
      OursConcat(cid, a[1..], b);
    }
  }

  /** Where report `m` of the channel sits in the event stream. */
  lemma {:induction false} Locate(cid: Cid, events: seq<ReadEvent>, m: nat) returns (n: nat)
    requires m < |Ours(cid, events)|
    ensures n < |events| && IsOurs(cid, events[n]) && events[n].report == Ours(cid, events)[m]
    ensures Ours(cid, events[..n]) == Ours(cid, events)[..m]
    ensures Ours(cid, events[n + 1..]) == Ours(cid, events)[m + 1..]
  {
    if IsOurs(cid, events[0]) && m == 0 {
      n := 0;
    } else {
      var skip := if IsOurs(cid, events[0]) then 1 else 0;
      n := Locate(cid, events[1..], m - skip);
      n := n + 1;
      assert events[..n] == [events[0]] + events[1..][..n - 1];
      assert events[n + 1..] == events[1..][n..];
    }
  }

  /** While a message is incomplete, listening goes on, whatever else is on the wire. */
  lemma {:induction false} ListenWithin<R>(
    cid: Cid, judge: Message -> Verdict<R>, events: seq<ReadEvent>, tail: seq<ReadEvent>,
    history: seq<Report>, sofar: seq<Report>, cmd: Command, payload: bytes)
    requires AllGot(events) && |payload| <= MAX_MESSAGE_LEN
    requires |sofar| + |Ours(cid, events)| < PacketCount(|payload|)
    requires EachFits(sofar + Ours(cid, events), Fits(cmd, payload))
    ensures Listen(cid, judge, events + tail, history + sofar)
         == Listen(cid, judge, tail, history + sofar + Ours(cid, events))
    decreases |events|
  {
    if |events| == 0 {
      assert events + tail == tail && history + sofar + [] == history + sofar;
    } else {
      var report, ours := events[0].report, Ours(cid, events[1..]);
      assert (events + tail)[1..] == events[1..] + tail;
      if IsOurs(cid, events[0]) {
        var sofar' := sofar + [report];
        Associate(sofar, [report], ours);
        Arrives(history, sofar', ours, cmd, payload);
        Associate(history, sofar, [report]);
        Associate(history + sofar, [report], ours);
        ListenPending(cid, judge, events + tail, history + sofar);
        ListenWithin(cid, judge, events[1..], tail, history, sofar', cmd, payload);
      } else {
        ListenForeign(cid, judge, events + tail, history + sofar);
        ListenWithin(cid, judge, events[1..], tail, history, sofar, cmd, payload);
      }
    }
  }

  /** Another channel's report is passed over. */
  lemma ListenForeign<R>(cid: Cid, judge: Message -> Verdict<R>, events: seq<ReadEvent>, history: seq<Report>)
    requires |events| > 0 && events[0].Got? && !IsOurs(cid, events[0])
    ensures Listen(cid, judge, events, history) == Listen(cid, judge, events[1..], history)
  {
  }

  /** A report of ours that completes nothing is remembered. */
  lemma ListenPending<R>(cid: Cid, judge: Message -> Verdict<R>, events: seq<ReadEvent>, history: seq<Report>)
    requires |events| > 0 && IsOurs(cid, events[0])
    requires Decode(history + [events[0].report]) == Success(None)
    ensures Listen(cid, judge, events, history) == Listen(cid, judge, events[1..], history + [events[0].report])
  {
  }

  /** The first reports of a message decode to "more to come", all of them to the message. */
  lemma Arrives(history: seq<Report>, sofar: seq<Report>, more: seq<Report>, cmd: Command, payload: bytes)
    requires |payload| <= MAX_MESSAGE_LEN && 0 < |sofar| && |sofar| + |more| <= PacketCount(|payload|)
    requires EachFits(sofar + more, Fits(cmd, payload))
    ensures Decode(history + sofar)
         == Success(if |sofar| < PacketCount(|payload|) then None else Some((cmd, payload)))
  {
    var all := history + sofar;
    assert all[|all| - |sofar|..] == sofar;
    forall i | 0 <= i < |sofar|
      ensures Fits(cmd, payload)(sofar[i], i)
    {
      assert (sofar + more)[i] == sofar[i];
    }
    ReachedIffEndsWith(all, cmd, payload, |sofar|);
  }

  /**
   Listening to a stream whose reports on our channel spell messages m1..mn,
   each but the last passed over, yields the verdict on mn: no other channel's
   traffic, no fragmentation and no earlier report makes a difference.
   */
  lemma {:induction false} ListenRefinesMessages<R>(
    cid: Cid, judge: Message -> Verdict<R>, events: seq<ReadEvent>, tail: seq<ReadEvent>,
    history: seq<Report>, msgs: seq<Message>)
    requires AllGot(events) && |msgs| > 0 && Spells(Ours(cid, events), msgs)
    requires IsOurs(cid, events[|events| - 1])
    requires forall i | 0 <= i < |msgs| - 1 :: judge(msgs[i]) == Continue
    requires judge(msgs[|msgs| - 1]).Done?
    ensures Listen(cid, judge, events + tail, history)
         == Heard(judge(msgs[|msgs| - 1]).result, msgs[..|msgs| - 1], tail)
    decreases |msgs|
  {
    var n := FirstMessage(cid, events, msgs);
    var pre, last, post := events[..n], events[n].report, events[n + 1..];
    ListenToMessage(cid, judge, pre, last, post + tail, history, msgs[0].0, msgs[0].1);
    SplitAround(events, n, tail);
    if |msgs| == 1 {
      Empty(tail);
    } else {
      ListenRefinesMessages(cid, judge, post, tail, history + (Ours(cid, pre) + [last]), msgs[1..]);
      FirstAndFront(msgs);
    }
  }

  lemma FirstAndFront<T>(s: seq<T>)
    requires |s| > 1
    ensures [s[0]] + s[1..][..|s| - 2] == s[..|s| - 1] && s[1..][|s| - 2] == s[|s| - 1]
  {
  }

  lemma SplitAround<T>(s: seq<T>, n: nat, tail: seq<T>)
    requires n < |s|
    ensures s + tail == s[..n] + ([s[n]] + (s[n + 1..] + tail))
  {
  }

  /** The event that completes the first message, and what is left after it. */
  lemma FirstMessage(cid: Cid, events: seq<ReadEvent>, msgs: seq<Message>) returns (n: nat)
    requires |msgs| > 0 && Spells(Ours(cid, events), msgs)
    requires |events| > 0 && IsOurs(cid, events[|events| - 1])
    ensures n < |events| && IsOurs(cid, events[n])
    ensures |Ours(cid, events[..n])| + 1 == PacketCount(|msgs[0].1|)
    ensures EachFits(Ours(cid, events[..n]) + [events[n].report], Fits(msgs[0].0, msgs[0].1))
    ensures Spells(Ours(cid, events[n + 1..]), msgs[1..])
    ensures if |msgs| == 1 then n + 1 == |events| else IsOurs(cid, events[n + 1..][|events| - n - 2])
  {
    var ours, k := Ours(cid, events), PacketCount(|msgs[0].1|);
    n := Locate(cid, events, k - 1);
    var post := events[n + 1..];
    assert ours[..k] == ours[..k - 1] + [ours[k - 1]];
    if |msgs| == 1 {
      NoneOfOurs(cid, post);
    } else {
      assert |Ours(cid, post)| > 0;
    }
  }

  /** One message: its reports but the last among other traffic, then its last report. */
  lemma ListenToMessage<R>(
    cid: Cid, judge: Message -> Verdict<R>, pre: seq<ReadEvent>, last: Report, rest: seq<ReadEvent>,
    history: seq<Report>, cmd: Command, payload: bytes)
    requires AllGot(pre) && last[..4] == cid && |payload| <= MAX_MESSAGE_LEN
    requires |Ours(cid, pre)| + 1 == PacketCount(|payload|)
    requires EachFits(Ours(cid, pre) + [last], Fits(cmd, payload))
    ensures var seen := history + (Ours(cid, pre) + [last]);
            Listen(cid, judge, pre + ([Got(last)] + rest), history)
              == match judge((cmd, payload))
                 case Continue => Listen(cid, judge, rest, seen).After([(cmd, payload)])
                 case Done(result) => Heard(result, [], rest)
  {
    var block, next := Ours(cid, pre) + [last], [Got(last)] + rest;
    ShorterFits(block, Fits(cmd, payload), |block| - 1);
    assert block[..|block| - 1] == [] + Ours(cid, pre);
    ListenWithin(cid, judge, pre, next, history, [], cmd, payload);
    assert history + [] == history;
    assert block + [] == block;
    Arrives(history, block, [], cmd, payload);
    assert history + Ours(cid, pre) + [last] == history + block;
    assert next[1..] == rest;
  }

  lemma ShorterFits<T>(recent: seq<T>, fits: (T, nat) -> bool, k: nat)
    requires EachFits(recent, fits) && k <= |recent|
    ensures EachFits(recent[..k], fits)
  {
    forall i | 0 <= i < k
      ensures fits(recent[..k][i], i)
    {
      assert recent[..k][i] == recent[i];
    }
  }

  lemma NoneOfOurs(cid: Cid, events: seq<ReadEvent>)
    requires Ours(cid, events) == []
    ensures |events| > 0 ==> !IsOurs(cid, events[|events| - 1])
  {
    if |events| > 0 {
      var front, last := events[..|events| - 1], events[|events| - 1];
      assert events == front + [last];
      OursConcat(cid, front, [last]);
    }
  }

  // --- What this means for requests and for allocation --------------------

  function KeepaliveMessages(statuses: bytes): seq<Message> {
    seq(|statuses|, i requires 0 <= i < |statuses| => (Keepalive, [statuses[i]]))
  }

  lemma {:induction false} StatusesOfKeepalives(statuses: bytes)
    ensures Statuses(KeepaliveMessages(statuses))
         == seq(|statuses|, i requires 0 <= i < |statuses| => StatusFromByte(statuses[i]))
  {
    if |statuses| > 0 {
      var front := statuses[..|statuses| - 1];
      StatusesOfKeepalives(front);
      var all := KeepaliveMessages(statuses);
      assert all[..|all| - 1] == KeepaliveMessages(front);
    }
  }

  /**
   If the reports on our channel are keepalives k1..kn and then the reply, a
   request returns the reply and reports exactly k1..kn in order, whatever
   traffic on other channels is interleaved.
   */
  lemma RequestReturnsReply(
    cid: Cid, cmd: Command, events: seq<ReadEvent>, tail: seq<ReadEvent>, statuses: bytes, reply: bytes)
    requires cmd != Keepalive && cmd != Error
    requires AllGot(events) && |events| > 0 && IsOurs(cid, events[|events| - 1])
    requires Spells(Ours(cid, events), KeepaliveMessages(statuses) + [(cmd, reply)])
    ensures var heard := Listen(cid, ResponseJudge(cmd), events + tail, []);
            && heard.result == Success(reply) && heard.rest == tail
            && Statuses(heard.passed)
               == seq(|statuses|, i requires 0 <= i < |statuses| => StatusFromByte(statuses[i]))
  {
    var msgs := KeepaliveMessages(statuses) + [(cmd, reply)];
    assert msgs[..|msgs| - 1] == KeepaliveMessages(statuses);
    ListenRefinesMessages(cid, ResponseJudge(cmd), events, tail, [], msgs);
    StatusesOfKeepalives(statuses);
  }

  /** Listening succeeds at the first event, or goes on from the second with the same result. */
  lemma ListenOnce<R>(cid: Cid, judge: Message -> Verdict<R>, events: seq<ReadEvent>, history: seq<Report>)
    requires Listen(cid, judge, events, history).result.Success?
    ensures |events| > 0 && events[0].Got?
    ensures var heard, rest := Listen(cid, judge, events, history), events[1..];
            if !IsOurs(cid, events[0]) then heard == Listen(cid, judge, rest, history)
            else
              var seen := history + [events[0].report];
              var next := Listen(cid, judge, rest, seen);
              || (heard.result == next.result && heard.rest == next.rest)
              || (Decode(seen).Success? && Decode(seen).value.Some?
                  && judge(Decode(seen).value.value) == Done(heard.result) && heard.rest == rest)
  {
  }

  /** The history after one more event, and what is left. */
  lemma OneMoreEvent(cid: Cid, events: seq<ReadEvent>, history: seq<Report>, n: nat)
    requires 0 < |events| && n <= |events[1..]|
    ensures history + Ours(cid, events[..n + 1])
         == (if IsOurs(cid, events[0]) then history + [events[0].report] else history) + Ours(cid, events[1..][..n])
    ensures events[1..][n..] == events[n + 1..]
  {
    var rest := events[1..];
    assert events[..n + 1] == [events[0]] + rest[..n];
    assert events[..n + 1][1..] == rest[..n];
    if IsOurs(cid, events[0]) {
      Associate(history, [events[0].report], Ours(cid, rest[..n]));
    }
  }

  lemma HeardNow(cid: Cid, events: seq<ReadEvent>, seen: seq<Report>, m: Message)
    requires |seen| > 0 && Decode(seen) == Success(Some(m))
    ensures EndsWithMessage(seen + Ours(cid, events[..0]), m.0, m.1)
  {
    DecodeIffMessage(seen, m.0, m.1);
    assert Ours(cid, events[..0]) == [];
    Empty(seen);
  }

  /** The message `m` is complete after `n` of the events, and its verdict is the result. */
  ghost predicate HeardAt<R>(cid: Cid, judge: Message -> Verdict<R>, events: seq<ReadEvent>, history: seq<Report>,
                             heard: Heard<R>, n: nat, m: Message)
  {
    && n <= |events| && heard.rest == events[n..]
    && judge(m) == Done(heard.result)
    && EndsWithMessage(history + Ours(cid, events[..n]), m.0, m.1)
  }

  /** What is heard from the second event on is heard one event later from the first. */
  lemma HeardLater<R>(cid: Cid, judge: Message -> Verdict<R>, events: seq<ReadEvent>, history: seq<Report>,
                      seen: seq<Report>, heard: Heard<R>, next: Heard<R>, n: nat, m: Message)
    requires |events| > 0 && seen == if IsOurs(cid, events[0]) then history + [events[0].report] else history
    requires heard.result == next.result && heard.rest == next.rest
    requires HeardAt(cid, judge, events[1..], seen, next, n, m)
    ensures HeardAt(cid, judge, events, history, heard, n + 1, m)
  {
    OneMoreEvent(cid, events, history, n);
  }

  /** A result is always the verdict on a message that was really received on the channel. */
  lemma {:induction false} ListenIsTruthful<R>(
    cid: Cid, judge: Message -> Verdict<R>, events: seq<ReadEvent>, history: seq<Report>)
    returns (n: nat, m: Message)
    requires Listen(cid, judge, events, history).result.Success?
    ensures HeardAt(cid, judge, events, history, Listen(cid, judge, events, history), n, m)
  {
    ListenOnce(cid, judge, events, history);
    var rest, heard := events[1..], Listen(cid, judge, events, history);
    var seen := if IsOurs(cid, events[0]) then history + [events[0].report] else history;
    var next := Listen(cid, judge, rest, seen);
    var k: nat;
    if heard.result == next.result && heard.rest == next.rest {
      k, m := ListenIsTruthful(cid, judge, rest, seen);
      HeardLater(cid, judge, events, history, seen, heard, next, k, m);
    } else {
      k, m := 0, Decode(seen).value.value;
      HeardNow(cid, rest, seen, m);
      OneMoreEvent(cid, events, history, 0);
    }
    n := k + 1;
  }

  lemma HearOne<R>(cid: Cid, judge: Message -> Verdict<R>, report: Report, m: Message)
    requires report[..4] == cid && Decode([report]) == Success(Some(m)) && judge(m).Done?
    ensures Listen(cid, judge, [Got(report)], []).result == judge(m).result
  {
    assert [] + [report] == [report];
  }

  lemma OneReportMessage(report: Report, cmd: Command)
    requires Carries(report, cmd, [], 0)
    ensures Decode([report]) == Success(Some((cmd, [])))
  {
    assert [report][0..] == [report];
    assert RecentFit([report], Fits(cmd, []), 1);
    DecodeIffMessage([report], cmd, []);
  }

  /** The one report of an empty reply. */
  lemma EmptyReply(cid: Cid, cmd: Command) returns (report: Report)
    ensures report[..4] == cid && Carries(report, cmd, [], 0)
  {
    report := Packet(cid, cmd, [], 0);
    PacketCarries(cid, cmd, [], 0);
  }

  lemma EmptyReplyIsHeard(cid: Cid, cmd: Command) returns (events: seq<ReadEvent>)
    requires cmd != Keepalive && cmd != Error
    ensures Listen(cid, ResponseJudge(cmd), events, []).result.Success?
  {
    var report := EmptyReply(cid, cmd);
    OneReportMessage(report, cmd);
    events := [Got(report)];
    var m: Message := (cmd, []);
    assert JudgeResponse(cmd, m) == Done(Success([]));
    HearOne(cid, ResponseJudge(cmd), report, m);
  }

  /** The exact commands a request can succeed with: keepalive and error are never responses. */
  lemma RequestCanSucceedIff(cid: Cid, cmd: Command)
    ensures (exists events :: Listen(cid, ResponseJudge(cmd), events, []).result.Success?)
       <==> cmd != Keepalive && cmd != Error
  {
    if cmd != Keepalive && cmd != Error {
      var events := EmptyReplyIsHeard(cid, cmd);
    }
    if exists events :: Listen(cid, ResponseJudge(cmd), events, []).result.Success? {
      var events :| Listen(cid, ResponseJudge(cmd), events, []).result.Success?;
      var n, m := ListenIsTruthful(cid, ResponseJudge(cmd), events, []);
      SuccessNeedsResponse(cmd, m);
    }
  }

  lemma SuccessNeedsResponse(cmd: Command, m: Message)
    ensures JudgeResponse(cmd, m).Done? && JudgeResponse(cmd, m).result.Success? ==>
              cmd != Keepalive && cmd != Error
  {
  }

  /**
   Allocation passes over any number of other messages and of replies with
   another application's nonce, and then takes its own reply.
   */
  lemma AllocationFindsItsReply(
    nonce: bytes, events: seq<ReadEvent>, tail: seq<ReadEvent>, others: seq<Message>, reply: bytes)
    requires AllGot(events) && |events| > 0 && IsOurs(BROADCAST_CID, events[|events| - 1])
    requires Spells(Ours(BROADCAST_CID, events), others + [(Init, reply)])
    requires forall i | 0 <= i < |others| ::
               others[i].0 != Error && (others[i].0 == Init ==> |others[i].1| >= 17 && others[i].1[..8] != nonce)
    requires |reply| >= 17 && reply[..8] == nonce
    ensures var heard := Listen(BROADCAST_CID, InitJudge(nonce), events + tail, []);
            && heard.rest == tail
            && (heard.result.Success? <==> reply[8..12] != Zeros(4) && reply[8..12] != BROADCAST_CID)
            && (heard.result.Success? ==> heard.result.value.0 == reply[8..12])
  {
    var msgs := others + [(Init, reply)];
    ListenRefinesMessages(BROADCAST_CID, InitJudge(nonce), events, tail, [], msgs);
  }

  /** Whatever the device sends, an allocated channel is ours and never reserved. */
  lemma AllocatedChannelIsUsable(nonce: bytes, events: seq<ReadEvent>) returns (n: nat, reply: bytes)
    requires Listen(BROADCAST_CID, InitJudge(nonce), events, []).result.Success?
    ensures var cid := Listen(BROADCAST_CID, InitJudge(nonce), events, []).result.value.0;
            && cid != Zeros(4) && cid != BROADCAST_CID
            && n <= |events| && EndsWithMessage(Ours(BROADCAST_CID, events[..n]), Init, reply)
            && |reply| >= 17 && reply[..8] == nonce && reply[8..12] == cid
  {
    var m: Message;
    n, m := ListenIsTruthful(BROADCAST_CID, InitJudge(nonce), events, []);
    reply := m.1;
    assert [] + Ours(BROADCAST_CID, events[..n]) == Ours(BROADCAST_CID, events[..n]);
  }
}
