/** Batch key generation: every public key is handed over before the card is asked for the next one. */
module PivBatch {
  import opened Wrappers

  type PublicKey = seq<int>

  /** What the batch has to show for one of its requests; the first is the authentication. */
  datatype Item = Authenticated | Generated(key: PublicKey) | OtherItem

  /** One exchange as it turns out: it may complete no item, one, or several, or finish the batch. */
  datatype Turn = NoCommand | NoResponse | BadResponse | Advanced(completed: nat, finished: bool)

  datatype BatchError<+C> = Operation | InvalidArgument | InvalidResponse | Callback(error: C)

  /** What the outside world sees: commands for an item, and keys handed to the callback. */
  datatype Event = Sent(item: nat) | Reported(count: nat, key: PublicKey)

  ghost function ReportedIn(trace: seq<Event>): (n: nat)
    ensures n <= |trace|
  {
    if |trace| == 0 then 0
    else ReportedIn(trace[..|trace| - 1]) + if trace[|trace| - 1].Reported? then 1 else 0
  }

  /**
   Keys are handed over one by one in order, and a command is sent for an item
   only when the keys of all items before it have been handed over.
   */
  ghost predicate InOrder(trace: seq<Event>, items: seq<Item>) {
    forall t | 0 <= t < |trace| ::
      match trace[t]
      case Reported(count, key) =>
        count == ReportedIn(trace[..t]) + 1 && count < |items| && items[count] == Generated(key)
      case Sent(item) => ReportedIn(trace[..t]) == if item == 0 then 0 else item - 1
  }

  lemma InOrderSnoc(trace: seq<Event>, items: seq<Item>, e: Event)
    requires InOrder(trace, items)
    requires match e
             case Reported(count, key) =>
               count == ReportedIn(trace) + 1 && count < |items| && items[count] == Generated(key)
             case Sent(item) => ReportedIn(trace) == if item == 0 then 0 else item - 1
    ensures InOrder(trace + [e], items)
    ensures ReportedIn(trace + [e]) == ReportedIn(trace) + if e.Reported? then 1 else 0
  {
    var longer := trace + [e];
    assert longer[..|trace|] == trace;
    forall t | 0 <= t < |longer|
      ensures longer[..t] == if t < |trace| then trace[..t] else trace
    {
    }
  }

  /** What a well-ordered trace means: the keys handed over are the first keys of the batch, each once. */
  lemma {:induction false} HandedOverAreFirstKeys(trace: seq<Event>, items: seq<Item>, k: nat)
    requires InOrder(trace, items) && 1 <= k <= ReportedIn(trace)
    ensures k < |items| && items[k].Generated? && Reported(k, items[k].key) in trace
    ensures forall e | e in trace && e.Reported? && e.count == k :: e.key == items[k].key
  {
    var front, last := trace[..|trace| - 1], trace[|trace| - 1];
    forall t | 0 <= t < |front|
      ensures front[..t] == trace[..t]
    {
    }
    if k <= ReportedIn(front) {
      HandedOverAreFirstKeys(front, items, k);
    } else {
      assert last == Reported(k, items[k].key);
    }
    forall e | e in trace && e.Reported? && e.count == k
      ensures e.key == items[k].key
    {
      var t :| 0 <= t < |trace| && trace[t] == e;
    }
  }

  /** What happens outside the host, in the order in which it happens. */
  class World {
    ghost var events: seq<Event>

    constructor ()
      ensures events == []
    {
      events := [];
    }

    ghost method Record(e: Event)
      modifies this
      ensures events == old(events) + [e]
    {
      events := events + [e];
    }
  }

  /** The caller's callback: it sees each key it is given, and answers by count. */
  class Callback<C> {
    const world: World
    const verdicts: seq<Option<C>>    // `None` goes on, and so does the end of the script

    constructor (world: World, verdicts: seq<Option<C>>)
      ensures this.world == world && this.verdicts == verdicts
    {
      this.world, this.verdicts := world, verdicts;
    }

    method Progress(count: nat, key: PublicKey) returns (verdict: Option<C>)
      modifies world
      ensures world.events == old(world.events) + [Reported(count, key)]
      ensures verdict == Rejection(Reported(count, key), verdicts)
    {
      world.Record(Reported(count, key));
      verdict := Rejection(Reported(count, key), verdicts);
    }
  }

  /** The batch operation of the protocol library, as one run of it goes. */
  class Batch {
    const world: World
    const items: seq<Item>        // one per request, filled in as the batch advances
    var turns: seq<Turn>          // how the coming exchanges turn out; afterwards the transport fails
    var completed: nat            // items completed, all of them visible to the host

    ghost predicate Valid()
      reads this
    {
      completed <= |items| && ValidTurns(items, completed, turns)
    }

    constructor (world: World, items: seq<Item>, turns: seq<Turn>)
      requires ValidTurns(items, 0, turns)
      ensures Valid() && this.world == world && this.items == items && this.turns == turns && completed == 0
    {
      this.world, this.items, this.turns, completed := world, items, turns, 0;
    }

    /** One command and its response; the command is for the first item not yet completed. */
    method Next() returns (turn: Turn)
      requires Valid()
      modifies this, world
      ensures Valid() && old(completed) <= completed
      ensures turn == (if |old(turns)| > 0 then old(turns)[0] else NoResponse)
      ensures turns == if |old(turns)| > 0 then old(turns)[1..] else []
      ensures turn.Advanced? ==> completed == turn.completed && (turn.finished ==> completed == |items|)
      ensures !turn.Advanced? ==> completed == old(completed)
      ensures world.events == old(world.events) + if turn == NoCommand then [] else [Sent(old(completed))]
    {
      turn := NoResponse;
      if |turns| > 0 {
        turn := turns[0];
        turns := turns[1..];
      }
      if turn != NoCommand {
        world.Record(Sent(completed));
      }
      if turn.Advanced? {
        completed := turn.completed;
      }
    }
  }

  /** Items stay completed, and a finished batch has completed all of them. */
  ghost predicate ValidTurns(items: seq<Item>, completed: nat, turns: seq<Turn>)
    decreases |turns|
  {
    |turns| > 0 ==>
      match turns[0]
      case Advanced(next, finished) =>
        completed <= next <= |items| && (finished ==> next == |items|) && ValidTurns(items, next, turns[1..])
      case _ => ValidTurns(items, completed, turns[1..])
  }

  /** Every exchange advances the batch until it is finished. */
  ghost predicate Finishes(turns: seq<Turn>)
    decreases |turns|
  {
    |turns| > 0 && turns[0].Advanced? && (turns[0].finished || Finishes(turns[1..]))
  }

  /** Every item but the first is a key. */
  ghost predicate OnlyKeys(items: seq<Item>) {
    forall i | 0 < i < |items| :: items[i].Generated?
  }

  /** One authentication, then one key for each slot. */
  ghost predicate AllGenerated(items: seq<Item>, slots: nat) {
    |items| == slots + 1 && !items[0].Generated? && OnlyKeys(items)
  }

  predicate DistinctSlots(slots: seq<nat>) {
    |slots| > 0 && forall i, j | 0 <= i < j < |slots| :: slots[i] != slots[j]
  }

  /** There is something to generate, and no key of the batch overwrites another. */
  method ValidateGenerationSlots(slots: seq<nat>) returns (ok: bool)
    ensures ok <==> DistinctSlots(slots)
  {
    if |slots| == 0 {
      return false;
    }
    for index := 0 to |slots|
      invariant forall i, j | 0 <= i < j < index :: slots[i] != slots[j]
    {
      if slots[index] in slots[..index] {
        var i :| 0 <= i < index && slots[i] == slots[index];
        return false;
      }
    }
    return true;
  }

  function Keys(items: seq<Item>): seq<PublicKey> {
    if |items| == 0 then []
    else Keys(items[..|items| - 1]) + if items[|items| - 1].Generated? then [items[|items| - 1].key] else []
  }

  /** The callback's answer to an event, if the event asks for one. */
  function Rejection<C>(e: Event, verdicts: seq<Option<C>>): Option<C> {
    if e.Reported? && 0 < e.count <= |verdicts| then verdicts[e.count - 1] else None
  }

  ghost predicate NoneRejected<C>(trace: seq<Event>, verdicts: seq<Option<C>>) {
    forall t | 0 <= t < |trace| :: Rejection(trace[t], verdicts) == None
  }

  lemma NoneRejectedSnoc<C>(trace: seq<Event>, e: Event, verdicts: seq<Option<C>>)
    requires NoneRejected(trace, verdicts)
    ensures (trace + [e])[..|trace|] == trace
    ensures NoneRejected(trace + [e], verdicts) <==> Rejection(e, verdicts) == None
  {
    assert (trace + [e])[|trace|] == e;
  }

  /** Well-ordered so far, with `reported` keys handed over and none rejected. */
  ghost predicate Orderly<C>(trace: seq<Event>, items: seq<Item>, verdicts: seq<Option<C>>, reported: nat) {
    InOrder(trace, items) && NoneRejected(trace, verdicts) && reported == ReportedIn(trace)
  }

  /** How many keys go with so many completed items. */
  function KeysOf(completed: nat): nat {
    if completed == 0 then 0 else completed - 1
  }

  lemma SendSnoc<C>(trace: seq<Event>, items: seq<Item>, item: nat, verdicts: seq<Option<C>>, turn: Turn)
    requires Orderly(trace, items, verdicts, KeysOf(item))
    ensures Orderly(trace + if turn == NoCommand then [] else [Sent(item)], items, verdicts, KeysOf(item))
  {
    if turn == NoCommand {
      assert trace + [] == trace;
    } else {
      InOrderSnoc(trace, items, Sent(item));
      NoneRejectedSnoc(trace, Sent(item), verdicts);
    }
  }

  lemma ReportSnoc<C>(trace: seq<Event>, items: seq<Item>, count: nat, verdicts: seq<Option<C>>)
    requires InOrder(trace, items) && NoneRejected(trace, verdicts)
    requires count == ReportedIn(trace) + 1 && count < |items| && items[count].Generated?
    ensures var e := Reported(count, items[count].key);
            && InOrder(trace + [e], items) && ReportedIn(trace + [e]) == count
            && (trace + [e])[..|trace|] == trace
            && (NoneRejected(trace + [e], verdicts) <==> Rejection(e, verdicts) == None)
  {
    InOrderSnoc(trace, items, Reported(count, items[count].key));
    NoneRejectedSnoc(trace, Reported(count, items[count].key), verdicts);
  }

  /** A rejected key is the last thing that happens, and nothing else is reported as a rejection. */
  ghost predicate StopsAtRejection<T, C>(trace: seq<Event>, verdicts: seq<Option<C>>, r: Result<T, BatchError<C>>) {
    if r.Failure? && r.error.Callback? then
      && |trace| > 0 && NoneRejected(trace[..|trace| - 1], verdicts)
      && Rejection(trace[|trace| - 1], verdicts) == Some(r.error.error)
    else NoneRejected(trace, verdicts)
  }

  ghost predicate NeverRejects<C>(verdicts: seq<Option<C>>) {
    forall i | 0 <= i < |verdicts| :: verdicts[i] == None
  }

  /** Nothing goes wrong: not the slots, not the exchanges, not the callback. */
  ghost predicate GoesWell<C>(slots: seq<nat>, items: seq<Item>, turns: seq<Turn>, verdicts: seq<Option<C>>) {
    DistinctSlots(slots) && AllGenerated(items, |slots|) && Finishes(turns) && NeverRejects(verdicts)
  }

  /**
   A batch run as the outside world sees it: no command for a slot is sent
   before the keys of all earlier slots have been handed over, one by one, and
   a callback error is the last thing that happens. It succeeds if every
   exchange advances the batch and no key is rejected.
   */
  method GenerateKeysWithProgress<C>(batch: Batch, slots: seq<nat>, callback: Callback<C>)
    returns (r: Result<seq<PublicKey>, BatchError<C>>)
    requires batch.Valid() && batch.completed == 0
    requires batch.world == callback.world && batch.world.events == []
    modifies batch, batch.world
    ensures InOrder(batch.world.events, batch.items) && StopsAtRejection(batch.world.events, callback.verdicts, r)
    ensures !DistinctSlots(slots) ==> r == Failure(InvalidArgument) && batch.world.events == []
    ensures r.Success? ==>
              && |r.value| == |slots| && r.value == Keys(batch.items)
              && (|batch.items| > 0 && !batch.items[0].Generated? ==>
                    Collected(batch.world.events, batch.items, r.value))
    ensures GoesWell(slots, batch.items, old(batch.turns), callback.verdicts) ==> r.Success?
    ensures r == Failure(InvalidArgument) ==> !DistinctSlots(slots)
    ensures r == Failure(Operation) ==> !Finishes(old(batch.turns))
    ensures r == Failure(BatchError.InvalidResponse) ==> !AllGenerated(batch.items, |slots|)
  {
    var valid := ValidateGenerationSlots(slots);
    if !valid {
      return Failure(InvalidArgument);
    }
    var status := RunBatch(batch, callback);
    if status.Failure? {
      return Failure(status.error);
    }
    if |batch.items| > 0 && !batch.items[0].Generated? {
      ResultIsHandedOver(batch.world.events, batch.items);
    }
    return AllKeys(batch.items, |slots|);
  }

  /** The exchanges of a batch, and the keys handed over between them. */
  method RunBatch<C>(batch: Batch, callback: Callback<C>) returns (r: Result<(), BatchError<C>>)
    requires batch.Valid() && batch.completed == 0
    requires batch.world == callback.world && batch.world.events == []
    modifies batch, batch.world
    ensures InOrder(batch.world.events, batch.items) && StopsAtRejection(batch.world.events, callback.verdicts, r)
    ensures r.Success? ==> ReportedIn(batch.world.events) + 1 >= |batch.items|
    ensures r.Failure? ==> !r.error.InvalidArgument?
    ensures r == Failure(Operation) ==> !Finishes(old(batch.turns))
    ensures r == Failure(BatchError.InvalidResponse) ==> !OnlyKeys(batch.items)
    ensures OnlyKeys(batch.items) && NeverRejects(callback.verdicts) && Finishes(old(batch.turns)) ==> r.Success?
  {
    var reported, finished := 0, false;
    ghost var finishes := Finishes(batch.turns);
    while !finished
      invariant batch.Valid() && reported == KeysOf(batch.completed)
      invariant Orderly(batch.world.events, batch.items, callback.verdicts, reported)
      invariant finished ==> batch.completed == |batch.items|
      invariant finishes && !finished ==> Finishes(batch.turns)
      decreases !finished, |batch.turns|
    {
      ghost var trace, item := batch.world.events, batch.completed;
      var turn := batch.Next();
      SendSnoc(trace, batch.items, item, callback.verdicts, turn);
      if !turn.Advanced? {
        return Failure(Operation);
      }
      finished := turn.finished;
      var status;
      status, reported := ReportNew(batch.items, batch.completed, reported, callback);
      if status.Failure? {
        return Failure(status.error);
      }
    }
    return Success(());
  }

  /** The keys of a finished batch, if there is one for each slot. */
  function AllKeys<C>(items: seq<Item>, slots: nat): (r: Result<seq<PublicKey>, BatchError<C>>)
    ensures r.Success? ==> |r.value| == slots && r.value == Keys(items)
    ensures AllGenerated(items, slots) ==> r.Success?
    ensures r.Failure? ==> r.error == InvalidResponse
  {
    var keys := Keys(items);
    assert AllGenerated(items, slots) ==> |keys| == slots by {
      if AllGenerated(items, slots) {
        KeysAreItems(items, slots);
      }
    }
    if |keys| != slots then Failure(InvalidResponse)
    else Success(keys)
  }

  /** Where only the first item is no key, the keys are the other items, each in its place. */
  lemma {:induction false} KeysAreItems(items: seq<Item>, slots: nat)
    requires AllGenerated(items, slots)
    ensures |Keys(items)| == slots && forall i | 0 <= i < slots :: Keys(items)[i] == items[i + 1].key
    decreases slots
  {
    if slots == 0 {
      assert Keys(items[..0]) == [];
    } else {
      KeysAreItems(items[..|items| - 1], slots - 1);
    }
  }

  /** One key for each slot, in the order of the items, and these keys were handed over under these numbers. */
  ghost predicate Collected(trace: seq<Event>, items: seq<Item>, keys: seq<PublicKey>) {
    && |items| == |keys| + 1
    && (forall i | 0 <= i < |keys| :: items[i + 1] == Generated(keys[i]) && Reported(i + 1, keys[i]) in trace)
    && (forall e | e in trace && e.Reported? :: 0 < e.count <= |keys| && e.key == keys[e.count - 1])
  }

  lemma ReportedIsItem(trace: seq<Event>, items: seq<Item>, e: Event)
    requires InOrder(trace, items) && e in trace && e.Reported?
    ensures 0 < e.count < |items| && items[e.count] == Generated(e.key)
  {
    var t :| 0 <= t < |trace| && trace[t] == e;
  }

  lemma AllHandedOver(trace: seq<Event>, items: seq<Item>)
    requires |items| > 0 && !items[0].Generated? && InOrder(trace, items) && ReportedIn(trace) + 1 >= |items|
    ensures AllGenerated(items, |items| - 1)
    ensures forall k | 0 < k < |items| :: Reported(k, items[k].key) in trace
  {
    forall k | 0 < k < |items|
      ensures items[k].Generated? && Reported(k, items[k].key) in trace
    {
      HandedOverAreFirstKeys(trace, items, k);
    }
  }

  /** When all keys have been handed over, the result is what was handed over, position by position. */
  lemma ResultIsHandedOver(trace: seq<Event>, items: seq<Item>)
    requires |items| > 0 && !items[0].Generated? && InOrder(trace, items) && ReportedIn(trace) + 1 >= |items|
    ensures Collected(trace, items, Keys(items))
  {
    AllHandedOver(trace, items);
    KeysAreItems(items, |items| - 1);
    ItemsAreKeys(trace, items, Keys(items));
  }

  lemma ItemsAreKeys(trace: seq<Event>, items: seq<Item>, keys: seq<PublicKey>)
    requires InOrder(trace, items) && |items| == |keys| + 1 && OnlyKeys(items)
    requires forall i | 0 <= i < |keys| :: keys[i] == items[i + 1].key
    requires forall k | 0 < k < |items| :: Reported(k, items[k].key) in trace
    ensures Collected(trace, items, keys)
  {
    forall i | 0 <= i < |keys|
      ensures items[i + 1] == Generated(keys[i]) && Reported(i + 1, keys[i]) in trace
    {
      assert items[i + 1].Generated?;
    }
    forall e | e in trace && e.Reported?
      ensures 0 < e.count <= |keys| && e.key == keys[e.count - 1]
    {
      ReportedIsItem(trace, items, e);
    }
  }

  /** Hands over one key; a rejection is the last thing that happens. */
  method HandOver<C>(items: seq<Item>, count: nat, callback: Callback<C>) returns (verdict: Option<C>)
    requires 0 < count < |items| && items[count].Generated?
    requires Orderly(callback.world.events, items, callback.verdicts, count - 1)
    modifies callback.world
    ensures old(callback.world.events) <= callback.world.events
    ensures verdict.None? ==> Orderly(callback.world.events, items, callback.verdicts, count)
    ensures verdict.Some? ==>
              && InOrder(callback.world.events, items)
              && StopsAtRejection(callback.world.events, callback.verdicts, Rejected<C>(verdict.value))
    ensures NeverRejects(callback.verdicts) ==> verdict.None?
  {
    ReportSnoc(callback.world.events, items, count, callback.verdicts);
    verdict := callback.Progress(count, items[count].key);
  }

  function Rejected<C>(error: C): Result<(), BatchError<C>> {
    Failure(BatchError.Callback(error))
  }

  /** Hands over every completed key that has not been handed over yet. */
  method ReportNew<C>(items: seq<Item>, completed: nat, before: nat, callback: Callback<C>)
    returns (r: Result<(), BatchError<C>>, reported: nat)
    requires completed <= |items| && Orderly(callback.world.events, items, callback.verdicts, before)
    requires before <= KeysOf(completed)
    modifies callback.world
    ensures InOrder(callback.world.events, items) && StopsAtRejection(callback.world.events, callback.verdicts, r)
    ensures r.Success? ==>
              && Orderly(callback.world.events, items, callback.verdicts, reported)
              && reported == KeysOf(completed)
    ensures old(callback.world.events) <= callback.world.events
    ensures OnlyKeys(items) && NeverRejects(callback.verdicts) ==> r.Success?
    ensures r.Failure? ==> r.error.Callback? || r.error.InvalidResponse?
    ensures r.Failure? && r.error.InvalidResponse? ==> !OnlyKeys(items)
  {
    var world := callback.world;
    reported := before;
    // Item 0 is authentication and yields no key.
    while reported + 1 < completed
      invariant Orderly(world.events, items, callback.verdicts, reported)
      invariant reported <= KeysOf(completed)
      invariant old(world.events) <= world.events
    {
      var next := items[reported + 1];
      if !next.Generated? {
        return Failure(InvalidResponse), reported;
      }
      var verdict := HandOver(items, reported + 1, callback);
      reported := reported + 1;
      if verdict.Some? {
        return Failure(BatchError.Callback(verdict.value)), reported;
      }
    }
    return Success(()), reported;
  }
}
