/** Changing the PIN while a management key derived from it keeps working. */
module PivPinSync {
  import opened Wrappers
  import opened Radix
  import opened Sequences
  import opened PivCard
  import opened PivSync
  import Pivman

  /** One call: the PINs, and the fresh salt its random source delivers. */
  datatype PinChange = PinChange(oldPin: bytes, newPin: bytes, newSalt: bytes)

  /** Host-side preparation that can fail before any change. */
  datatype PinHost = PinHost(pinRefused: bool, keyRefused: bool, randomFails: bool, newKeyRefused: bool)

  function DerivedKey(derive: Derivation, pin: bytes, salt: bytes): Key {
    Key(Tdes, derive(pin, salt))
  }

  /** Whether a call can get past authentication to its first write. */
  predicate CanStart(derive: Derivation, card: Card, c: PinChange) {
    && card.Admin().Some? && c.oldPin == card.pin
    && (card.Admin().value.salt.Some? ==> card.key == DerivedKey(derive, c.oldPin, card.Admin().value.salt.value))
  }

  function AssemblePin(newPin: bytes, rotation: Option<(Key, bytes)>): seq<Write> {
    if rotation.None? then [ChangePin(newPin)]
    else [ChangePin(newPin), ReplaceKey(rotation.value.0), PutAdmin(rotation.value.1)]
  }

  /** The new derived key and the ADMIN DATA that names its salt, if a derived key is in use. */
  function PinRotation(derive: Derivation, card: Card, c: PinChange): Option<(Key, bytes)>
    requires Small(card) && card.Admin().Some? && |c.newSalt| == 16
  {
    AdminEncodable(card);
    var d := card.Admin().value;
    if d.salt.None? then None
    else Some((DerivedKey(derive, c.newPin, c.newSalt), Pivman.ToValue(d.(salt := Some(c.newSalt)))))
  }

  /** The writes of one complete PIN change, in order. */
  function PinPlan(derive: Derivation, card: Card, c: PinChange): seq<Write>
    requires Small(card) && card.Admin().Some? && |c.newSalt| == 16
  {
    AssemblePin(c.newPin, PinRotation(derive, card, c))
  }

  lemma PinPrefixes(card: Card, newPin: bytes, rotation: Option<(Key, bytes)>)
    ensures var plan := AssemblePin(newPin, rotation);
            && [ChangePin(newPin)] <= plan
            && ApplyAll(card, []) == card
            && ApplyAll(card, [ChangePin(newPin)]) == card.(pin := newPin)
            && (rotation.Some? ==>
                  var (key, value) := rotation.value;
                  && [ChangePin(newPin), ReplaceKey(key)] <= plan
                  && ApplyAll(card, [ChangePin(newPin), ReplaceKey(key)]) == card.(pin := newPin, key := key)
                  && ApplyAll(card, plan) == card.(pin := newPin, key := key, admin := value))
  {
    ApplyAllSnoc(card, [], ChangePin(newPin));
    assert [] + [ChangePin(newPin)] == [ChangePin(newPin)];
    if rotation.Some? {
      var (key, value) := rotation.value;
      ApplyAllSnoc(card, [ChangePin(newPin)], ReplaceKey(key));
      ApplyAllSnoc(card, [ChangePin(newPin), ReplaceKey(key)], PutAdmin(value));
      assert [ChangePin(newPin), ReplaceKey(key)] + [PutAdmin(value)] == AssemblePin(newPin, rotation);
    }
  }

  lemma NewSaltReadsBack(card: Card, newSalt: bytes)
    requires Small(card) && card.Admin().Some? && |newSalt| == 16
    ensures card.Admin().value.Encodable()
    ensures var d := card.Admin().value.(salt := Some(newSalt));
            Pivman.FromValue(Pivman.ToValue(d)) == Some(d) && |Pivman.ToValue(d)| <= 0xffff
  {
    AdminEncodable(card);
    Pivman.ValueRoundTrip(card.Admin().value.(salt := Some(newSalt)));
    Pivman.ValueSize(card.Admin().value.(salt := Some(newSalt)));
  }

  lemma PinPlanPrefixes(derive: Derivation, card: Card, c: PinChange)
    requires Small(card) && card.Admin().Some? && |c.newSalt| == 16
    ensures var plan := PinPlan(derive, card, c);
            var rotation := PinRotation(derive, card, c);
            && ApplyAll(card, plan[..0]) == card
            && ApplyAll(card, plan[..1]) == card.(pin := c.newPin)
            && (rotation.None? ==> plan == plan[..1])
            && (rotation.Some? ==>
                  && |plan| == 3 && plan == plan[..3]
                  && ApplyAll(card, plan[..2]) == card.(pin := c.newPin, key := rotation.value.0)
                  && ApplyAll(card, plan)
                     == card.(pin := c.newPin, key := rotation.value.0, admin := rotation.value.1))
  {
    var plan, rotation := PinPlan(derive, card, c), PinRotation(derive, card, c);
    PinPrefixes(card, c.newPin, rotation);
    assert plan[..0] == [] && plan[..1] == [ChangePin(c.newPin)];
    if rotation.Some? {
      assert plan[..2] == [ChangePin(c.newPin), ReplaceKey(rotation.value.0)];
    }
  }

  /**
   The card after a completed PIN change: the new PIN, and if there was a salt,
   the 3DES key derived from the new PIN and the new salt, which ADMIN DATA now
   names; everything else is as it was.
   */
  ghost predicate PinChanged(derive: Derivation, before: Card, after: Card, c: PinChange) {
    && before.Admin().Some? && c.oldPin == before.pin
    && var d := before.Admin().value;
       if d.salt.None? then after == before.(pin := c.newPin)
       else
         && before.key == Key(Tdes, derive(c.oldPin, d.salt.value))
         && after.pin == c.newPin && after.key == Key(Tdes, derive(c.newPin, c.newSalt))
         && after.Admin() == Some(Pivman.PivmanData(d.flags, Some(c.newSalt), d.pinTimestamp))
         && after.printed == before.printed && after.pukRetries == before.pukRetries
  }

  lemma CompletedPinChangeLeaves(derive: Derivation, card: Card, c: PinChange)
    requires Small(card) && |c.newSalt| == 16 && CanStart(derive, card, c)
    ensures PinChanged(derive, card, ApplyAll(card, PinPlan(derive, card, c)), c)
  {
    PinPlanPrefixes(derive, card, c);
    NewSaltReadsBack(card, c.newSalt);
  }

  /** The committed writes are a prefix of the plan and account for the card's state. */
  ghost predicate PrefixCommitted(start: Card, link: CardLink, before: seq<Write>, plan: seq<Write>)
    reads link
  {
    && before <= link.commits
    && link.commits[|before|..] <= plan
    && link.card == ApplyAll(start, link.commits[|before|..])
  }

  lemma PinSuccess(derive: Derivation, start: Card, link: CardLink, before: seq<Write>, c: PinChange)
    requires Small(start) && |c.newSalt| == 16 && CanStart(derive, start, c)
    requires PrefixCommitted(start, link, before, PinPlan(derive, start, c))
    requires link.commits == before + PinPlan(derive, start, c)
    ensures PinChanged(derive, start, link.card, c)
  {
    TakeDrop(before, PinPlan(derive, start, c));
    CompletedPinChangeLeaves(derive, start, c);
  }

  /** Commands are answered until the response to the one numbered `n` is lost. */
  ghost predicate LosesResponse(outcomes: seq<Outcome>, n: nat) {
    n < |outcomes| && outcomes[n] == ResponseLost && forall i | 0 <= i < n :: outcomes[i] == Completes
  }

  /** Attempts the next planned write. */
  method AttemptNext(link: CardLink, ghost start: Card, ghost before: seq<Write>, ghost plan: seq<Write>,
                     ghost done: seq<Write>, w: Write, allowed: bool)
    returns (r: Result<(), PivError>)
    requires link.Valid() && w != BlockPuk
    requires link.card == ApplyAll(start, done) && link.commits == before + done && done + [w] <= plan
    modifies link
    ensures link.Valid() && PrefixCommitted(start, link, before, plan)
    ensures r.Success? ==> allowed
    ensures r.Success? || (allowed && Next(old(link.outcomes)) == ResponseLost) ==>
              link.card == ApplyAll(start, done + [w]) && link.commits == before + (done + [w])
    ensures link.commits != old(link.commits) ==> allowed
    ensures link.outcomes == Rest(old(link.outcomes))
    ensures r.Success? <==> allowed && Next(old(link.outcomes)) == Completes
  {
    ApplyAllSnoc(start, done, w);
    var status := link.Commit(w, allowed);
    assert before + done + [w] == before + (done + [w]);
    r := if status.Success? then Success(()) else Failure(Drive(status.error));
  }

  /**
   A PIN change; a management key derived from the PIN moves to a fresh salt.
   However it ends, the committed writes are a prefix of the plan, and nothing
   is written unless the call could authenticate. A lost response to the change
   of the PIN, or to that of the key, ends it right there.
   */
  method ChangePinSynced(link: CardLink, derive: Derivation, c: PinChange, host: PinHost)
    returns (r: Result<(), PivError>)
    requires link.Valid() && Small(link.card) && |c.newSalt| == 16
    modifies link
    ensures link.Valid()
    ensures if old(link.card).Admin().None? then
              r.Failure? && link.card == old(link.card) && link.commits == old(link.commits)
            else
              var plan := PinPlan(derive, old(link.card), c);
              && PrefixCommitted(old(link.card), link, old(link.commits), plan)
              && (r.Success? ==> link.commits == old(link.commits) + plan)
    ensures link.commits != old(link.commits) ==> CanStart(derive, old(link.card), c)
    ensures r.Success? ==> PinChanged(derive, old(link.card), link.card, c)
    ensures (old(link.outcomes) == [] && host == PinHost(false, false, false, false)
             && CanStart(derive, old(link.card), c)) ==> r.Success?
    ensures host == PinHost(false, false, false, false) && CanStart(derive, old(link.card), c)
            && old(link.card).Admin().value.salt.Some? ==>
              var plan := PinPlan(derive, old(link.card), c);
              && (LosesResponse(old(link.outcomes), 2) ==>
                    r.Failure? && link.card == ApplyAll(old(link.card), plan[..1]))
              && (LosesResponse(old(link.outcomes), 4) ==>
                    r.Failure? && link.card == ApplyAll(old(link.card), plan[..2]))
  {
    ghost var start, before := link.card, link.commits;
    r := RunPinChange(link, derive, c, host);
    if r.Success? {
      PinSuccess(derive, start, link, before, c);
    }
  }

  /** The statements of `ChangePinSynced`. */
  method RunPinChange(link: CardLink, derive: Derivation, c: PinChange, host: PinHost)
    returns (r: Result<(), PivError>)
    requires link.Valid() && Small(link.card) && |c.newSalt| == 16
    modifies link
    ensures link.Valid()
    ensures if old(link.card).Admin().None? then
              r.Failure? && link.card == old(link.card) && link.commits == old(link.commits)
            else
              var plan := PinPlan(derive, old(link.card), c);
              && PrefixCommitted(old(link.card), link, old(link.commits), plan)
              && (r.Success? ==> link.commits == old(link.commits) + plan)
    ensures link.commits != old(link.commits) ==> CanStart(derive, old(link.card), c)
    ensures r.Success? ==> CanStart(derive, old(link.card), c)
    ensures (old(link.outcomes) == [] && host == PinHost(false, false, false, false)
             && CanStart(derive, old(link.card), c)) ==> r.Success?
    ensures host == PinHost(false, false, false, false) && CanStart(derive, old(link.card), c)
            && old(link.card).Admin().value.salt.Some? ==>
              var plan := PinPlan(derive, old(link.card), c);
              && (LosesResponse(old(link.outcomes), 2) ==>
                    r.Failure? && link.card == ApplyAll(old(link.card), plan[..1]))
              && (LosesResponse(old(link.outcomes), 4) ==>
                    r.Failure? && link.card == ApplyAll(old(link.card), plan[..2]))
  {
    assert link.commits[|link.commits|..] == [];
    if host.pinRefused {
      return Failure(Drive(Protocol(RefusedByCard)));
    }
    var status := link.Query(true);
    if status.Failure? {
      return Failure(Drive(status.error));
    }
    var admin := link.card.Admin();
    if admin.None? {
      return Failure(Drive(Protocol(InvalidResponse)));
    }
    var pivman := admin.value;
    if pivman.salt.None? {
      r := CommitPinChange(link, link.card.key, c.oldPin, c.newPin, None);
      return;
    }
    var oldKey := DerivedKey(derive, c.oldPin, pivman.salt.value);
    if host.keyRefused {
      return Failure(Drive(Protocol(RefusedByCard)));
    }
    status := link.Query(oldKey == link.card.key);
    if status.Failure? {
      return Failure(Drive(status.error));
    }
    if host.randomFails {
      return Failure(Random);
    }
    if host.newKeyRefused {
      return Failure(Drive(Protocol(RefusedByCard)));
    }
    var newKey := DerivedKey(derive, c.newPin, c.newSalt);
    AdminEncodable(link.card);
    var value := Pivman.ToValue(pivman.(salt := Some(c.newSalt)));
    r := CommitPinChange(link, oldKey, c.oldPin, c.newPin, Some((newKey, value)));
  }

  /** The writes of a PIN change, in order; the new PIN is verified before the key is touched. */
  method CommitPinChange(link: CardLink, oldKey: Key, oldPin: bytes, newPin: bytes, rotation: Option<(Key, bytes)>)
    returns (r: Result<(), PivError>)
    requires link.Valid() && oldKey == link.card.key
    modifies link
    ensures link.Valid()
    ensures var plan := AssemblePin(newPin, rotation);
            && PrefixCommitted(old(link.card), link, old(link.commits), plan)
            && (r.Success? ==> link.commits == old(link.commits) + plan)
    ensures link.commits != old(link.commits) ==> oldPin == old(link.card.pin)
    ensures old(link.outcomes) == [] ==> (r.Success? <==> oldPin == old(link.card.pin))
    ensures oldPin == old(link.card.pin) && LosesResponse(old(link.outcomes), 0) ==>
              r.Failure? && link.card == ApplyAll(old(link.card), AssemblePin(newPin, rotation)[..1])
    ensures oldPin == old(link.card.pin) && rotation.Some? && LosesResponse(old(link.outcomes), 2) ==>
              r.Failure? && link.card == ApplyAll(old(link.card), AssemblePin(newPin, rotation)[..2])
  {
    ghost var start, before := link.card, link.commits;
    ghost var plan := AssemblePin(newPin, rotation);
    PinPrefixes(start, newPin, rotation);
    assert [] + [ChangePin(newPin)] == [ChangePin(newPin)] == plan[..1] && before + [] == before;
    r := AttemptNext(link, start, before, plan, [], ChangePin(newPin), oldPin == link.card.pin);
    if r.Failure? || rotation.None? {
      return;
    }
    r := CommitRotation(link, oldKey, newPin, rotation.value.0, rotation.value.1, start, before);
  }

  /** After the PIN: verify it, replace the key, then publish its salt. */
  method CommitRotation(link: CardLink, oldKey: Key, newPin: bytes, newKey: Key, value: bytes,
                        ghost start: Card, ghost before: seq<Write>)
    returns (r: Result<(), PivError>)
    requires link.Valid() && oldKey == start.key
    requires link.card == start.(pin := newPin) && link.commits == before + [ChangePin(newPin)]
    modifies link
    ensures var plan := AssemblePin(newPin, Some((newKey, value)));
            && link.Valid() && PrefixCommitted(start, link, before, plan)
            && (r.Success? ==> link.commits == before + plan)
            && (LosesResponse(old(link.outcomes), 1) ==>
                  r.Failure? && link.card == ApplyAll(start, plan[..2]))
    ensures old(link.outcomes) == [] ==> r.Success?
  {
    ghost var plan, done := AssemblePin(newPin, Some((newKey, value))), [ChangePin(newPin)];
    PinPrefixes(start, newPin, Some((newKey, value)));
    assert (before + done)[|before|..] == done;
    var status := link.Query(newPin == link.card.pin);
    if status.Failure? {
      return Failure(Drive(status.error));
    }
    ghost var done' := [ChangePin(newPin), ReplaceKey(newKey)];
    assert done + [ReplaceKey(newKey)] == done' == plan[..2] && done' + [PutAdmin(value)] == plan;
    r := AttemptNext(link, start, before, plan, done, ReplaceKey(newKey), oldKey == link.card.key);
    if r.Failure? {
      return;
    }
    r := AttemptNext(link, start, before, plan, done', PutAdmin(value), newKey == link.card.key);
  }
}
