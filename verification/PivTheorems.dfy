/** What every run, and every sequence of runs, of the synchronised operations keeps. */
module PivTheorems {
  import opened Wrappers
  import opened Radix
  import opened FileSystem
  import opened PivCard
  import opened PivSync
  import opened PivPinSync
  import Pivman

  /** The metadata tells the truth about the active management key. */
  ghost predicate Synced(derive: Derivation, card: Card) {
    && card.Admin().Some?
    && var d := card.Admin().value;
       && (d.salt.Some? ==> card.key == DerivedKey(derive, card.pin, d.salt.value))
       && (d.HasStoredKey() ==> card.Protected() == Some(Some(card.key.material)))
       && !(d.salt.Some? && d.HasStoredKey())
  }

  // --- Rotation ----------------------------------------------------------------

  /**
   A completed rotation leaves the metadata in sync, from whatever state it
   started: in particular from every state an interrupted one can leave.
   */
  lemma CompletedRotationSyncs(derive: Derivation, card: Card, u: Update)
    requires Small(card) && Readable(card, u)
    ensures var after := ApplyAll(card, Plan(card, u));
            && Synced(derive, after) && Small(after) && after.key == u.newKey && after.pin == card.pin
            && after.Admin().value.HasStoredKey() == u.protect
            && (u.protect ==> after.pukRetries == 0 && after.Admin().value.PukBlocked())
  {
    ObjectsAfter(card, u);
    UpdateReadsBack(card, u);
    WrittenObjectsParse(card, u);
    Pivman.ProtectedRoundTrip(Some(u.newKey.material));
  }

  lemma AssembledKey(card: Card, k: nat, key: Key, printed: Option<bytes>, admin: Option<bytes>, block: bool)
    requires k <= |Assemble(key, printed, admin, block)|
    ensures ApplyAll(card, Assemble(key, printed, admin, block)[..k]).key == if k == 0 then card.key else key
  {
    RestKeepsKey(card, Assemble(key, printed, admin, block), k);
  }

  /** The active key is the old one until the first write, and the new one from then on. */
  lemma OldOrNewKey(card: Card, u: Update, k: nat)
    requires Small(card) && Readable(card, u) && k <= |Plan(card, u)|
    ensures ApplyAll(card, Plan(card, u)[..k]).key == if k == 0 then card.key else u.newKey
  {
    AssembledKey(card, k, u.newKey, PrintedWrite(card, u), AdminWrite(card, u), u.protect);
  }

  lemma {:induction false} RestKeepsKey(card: Card, ws: seq<Write>, k: nat)
    requires |ws| > 0 && ws[0].ReplaceKey? && k <= |ws|
    requires forall i | 0 < i < |ws| :: !ws[i].ReplaceKey?
    ensures ApplyAll(card, ws[..k]).key == if k == 0 then card.key else ws[0].key
  {
    if k > 0 {
      assert ws[..k][..k - 1] == ws[..k - 1] && ws[..k][k - 1] == ws[k - 1];
      RestKeepsKey(card, ws, k - 1);
    }
  }

  /** The credentials for repeating an interrupted rotation. */
  function Retry(u: Update, card: Card): Update {
    u.(access := card.key)
  }

  /**
   Wherever a rotation stops, even part of the way through blocking the PUK, it
   can be repeated: everything the repetition must read is readable, with the
   same PIN, so a repetition without failures succeeds and leaves the metadata
   in sync.
   */
  lemma InterruptedRotationCanBeRepeated(derive: Derivation, card: Card, u: Update, k: nat, stopped: Card)
    requires Small(card) && Readable(card, u) && k <= |Plan(card, u)|
    requires UpToPuk(stopped, ApplyAll(card, Plan(card, u)[..k]))
    ensures Small(stopped) && Readable(stopped, Retry(u, stopped))
    ensures Synced(derive, ApplyAll(stopped, Plan(stopped, Retry(u, stopped))))
  {
    PrefixStaysReadable(card, u, k);
    CompletedRotationSyncs(derive, stopped, Retry(u, stopped));
  }

  /** The objects are as before or as the rotation writes them. */
  ghost predicate Reached(card: Card, stopped: Card, printed: Option<bytes>, admin: Option<bytes>) {
    && stopped.pin == card.pin
    && (stopped.admin == card.admin || admin == Some(stopped.admin))
    && (stopped.printed == card.printed || printed == Some(stopped.printed))
  }

  lemma PrefixReaches(card: Card, k: nat, key: Key, printed: Option<bytes>, admin: Option<bytes>, block: bool)
    requires k <= |Assemble(key, printed, admin, block)|
    ensures Reached(card, ApplyAll(card, Assemble(key, printed, admin, block)[..k]), printed, admin)
  {
    PlannedObjects(key, printed, admin, block);
    PrefixObjects(card, Assemble(key, printed, admin, block), k);
  }

  lemma ReachedIsReadable(card: Card, u: Update, stopped: Card)
    requires Small(card) && Readable(card, u)
    requires Reached(card, stopped, PrintedWrite(card, u), AdminWrite(card, u))
    ensures Small(stopped) && Readable(stopped, Retry(u, stopped))
  {
    WrittenObjectsParse(card, u);
  }

  lemma PrefixStaysReadable(card: Card, u: Update, k: nat)
    requires Small(card) && Readable(card, u) && k <= |Plan(card, u)|
    ensures var stopped := ApplyAll(card, Plan(card, u)[..k]);
            Small(stopped) && Readable(stopped, Retry(u, stopped))
  {
    PrefixReaches(card, k, u.newKey, PrintedWrite(card, u), AdminWrite(card, u), u.protect);
    ReachedIsReadable(card, u, ApplyAll(card, Plan(card, u)[..k]));
  }

  lemma PlannedObjects(key: Key, printed: Option<bytes>, admin: Option<bytes>, block: bool)
    ensures forall w | w in Assemble(key, printed, admin, block) ::
              && !w.ChangePin?
              && (w.PutPrinted? ==> printed == Some(w.value))
              && (w.PutAdmin? ==> admin == Some(w.value))
  {
  }

  /** Whatever a rotation writes can be read back, and asks for the PIN only if the rotation did. */
  lemma WrittenObjectsParse(card: Card, u: Update)
    requires Small(card) && Readable(card, u)
    ensures var admin := AdminWrite(card, u);
            admin.Some? ==>
              && |admin.value| <= 0xffff && Pivman.FromValue(admin.value).Some?
              && Pivman.FromValue(admin.value).value.HasStoredKey() == u.protect
    ensures var printed := PrintedWrite(card, u);
            printed.Some? ==> Pivman.ProtectedFromValue(printed.value).Some?
  {
    UpdateReadsBack(card, u);
    AdminEncodable(card);
    Pivman.ValueSize(Updated(card.Admin().value, u.protect));
    Pivman.ProtectedRoundTrip(Some(u.newKey.material));
    Pivman.ProtectedRoundTrip(None);
  }

  /** Each object is as before or as some write of the plan left it. */
  lemma {:induction false} PrefixObjects(card: Card, ws: seq<Write>, k: nat)
    requires k <= |ws| && forall w | w in ws :: !w.ChangePin?
    ensures var after := ApplyAll(card, ws[..k]);
            && after.pin == card.pin
            && (after.admin == card.admin || PutAdmin(after.admin) in ws)
            && (after.printed == card.printed || PutPrinted(after.printed) in ws)
  {
    if k > 0 {
      assert ws[..k][..k - 1] == ws[..k - 1] && ws[..k][k - 1] == ws[k - 1];
      PrefixObjects(card, ws, k - 1);
      assert ws[k - 1] in ws;
    }
  }

  // --- PIN change --------------------------------------------------------------

  /** A completed PIN change keeps the metadata in sync. */
  lemma CompletedPinChangeSyncs(derive: Derivation, card: Card, c: PinChange)
    requires Small(card) && Synced(derive, card) && |c.newSalt| == 16
    ensures var after := ApplyAll(card, PinPlan(derive, card, c));
            Synced(derive, after) && Small(after) && after.pin == c.newPin
  {
    PinPlanPrefixes(derive, card, c);
    NewSaltReadsBack(card, c.newSalt);
  }

  /** The old salt no longer derives the active key: after the PIN, or after the key, of a change that has a salt. */
  ghost predicate BetweenKeys(derive: Derivation, card: Card, c: PinChange, k: nat)
    requires card.Admin().Some?
  {
    var salt := card.Admin().value.salt;
    && salt.Some?
    && (|| (k == 1 && derive(c.newPin, salt.value) != derive(c.oldPin, salt.value))
        || (k == 2 && derive(c.newPin, salt.value) != derive(c.newPin, c.newSalt)))
  }

  /** The PIN, the key and the salt of ADMIN DATA where a PIN change stops; the rest is unchanged. */
  lemma StoppedHolds(derive: Derivation, card: Card, c: PinChange, k: nat)
    requires Small(card) && card.Admin().Some? && |c.newSalt| == 16 && k <= |PinPlan(derive, card, c)|
    ensures var stopped, salt := ApplyAll(card, PinPlan(derive, card, c)[..k]), card.Admin().value.salt;
            && stopped.pin == (if k == 0 then card.pin else c.newPin)
            && stopped.key == (if k < 2 then card.key else DerivedKey(derive, c.newPin, c.newSalt))
            && stopped.Admin().Some?
            && stopped.Admin().value.salt == (if k < 3 then salt else Some(c.newSalt))
            && stopped.Admin().value.flags == card.Admin().value.flags && stopped.printed == card.printed
  {
    PinPlanPrefixes(derive, card, c);
    NewSaltReadsBack(card, c.newSalt);
  }

  lemma PinPlanLength(derive: Derivation, card: Card, c: PinChange)
    requires Small(card) && card.Admin().Some? && |c.newSalt| == 16
    ensures |PinPlan(derive, card, c)| == if card.Admin().value.salt.Some? then 3 else 1
  {
  }

  /** Exactly when a PIN change stopped after `k` writes leaves the metadata out of sync. */
  lemma InterruptedPinChangeSyncedIff(derive: Derivation, card: Card, c: PinChange, k: nat)
    requires Small(card) && Synced(derive, card) && |c.newSalt| == 16 && c.oldPin == card.pin
    requires k <= |PinPlan(derive, card, c)|
    ensures Synced(derive, ApplyAll(card, PinPlan(derive, card, c)[..k])) <==> !BetweenKeys(derive, card, c, k)
  {
    StoppedHolds(derive, card, c, k);
    PinPlanLength(derive, card, c);
  }

  /** No PIN change can get past authentication any more. */
  ghost predicate Stranded(derive: Derivation, card: Card) {
    forall next :: !CanStart(derive, card, next)
  }

  lemma StrandedIffUnderivable(derive: Derivation, card: Card)
    requires card.Admin().Some?
    ensures Stranded(derive, card)
       <==> var salt := card.Admin().value.salt; salt.Some? && card.key != DerivedKey(derive, card.pin, salt.value)
  {
    var next := PinChange(card.pin, [], []);
    var salt := card.Admin().value.salt;
    if salt.None? || card.key == DerivedKey(derive, card.pin, salt.value) {
      assert CanStart(derive, card, next);
    }
  }

  /** Exactly the stops that leave the metadata out of sync leave no way to change the PIN again. */
  lemma StrandedIff(derive: Derivation, card: Card, c: PinChange, k: nat)
    requires Small(card) && Synced(derive, card) && |c.newSalt| == 16 && c.oldPin == card.pin
    requires k <= |PinPlan(derive, card, c)|
    ensures Stranded(derive, ApplyAll(card, PinPlan(derive, card, c)[..k])) <==> BetweenKeys(derive, card, c, k)
  {
    StoppedHolds(derive, card, c, k);
    StrandedIffUnderivable(derive, ApplyAll(card, PinPlan(derive, card, c)[..k]));
  }

  /**
   A run in which a single response is lost, that to the new PIN or that to the
   new key: the card is stranded unless the old salt happens to derive its key.
   */
  method RunWithLostResponse(derive: Derivation, card: Card, c: PinChange, afterKey: bool, ghost hostDisk: Disk)
    returns (link: CardLink, r: Result<(), PivError>)
    requires Small(card) && Synced(derive, card) && card.Admin().value.salt.Some?
    requires |c.newSalt| == 16 && c.oldPin == card.pin
    ensures fresh(link) && r.Failure?
    ensures link.card == ApplyAll(card, PinPlan(derive, card, c)[..if afterKey then 2 else 1])
    ensures Stranded(derive, link.card) <==> BetweenKeys(derive, card, c, if afterKey then 2 else 1)
  {
    var fine := Outcome.Completes;
    var script := [fine, fine, if afterKey then fine else ResponseLost, fine, ResponseLost];
    link := new CardLink(card, script, hostDisk);
    assert if afterKey then LosesResponse(script, 4) else LosesResponse(script, 2);
    r := ChangePinSynced(link, derive, c, PinHost(false, false, false, false));
    StrandedIff(derive, card, c, if afterKey then 2 else 1);
  }

  /** A derivation that tells PINs and salts apart by their first octets. */
  function FirstOctets(pin: bytes, salt: bytes): KeyBytes {
    [if |pin| > 0 then pin[0] else 0, if |salt| > 0 then salt[0] else 0,
     0, 0, 0, 0, 0, 0, 0, 0, 0, 0, 0, 0, 0, 0, 0, 0, 0, 0, 0, 0, 0, 0]
  }

  lemma CardWithSalt(derive: Derivation, pin: bytes, salt: bytes) returns (card: Card)
    requires |salt| == 1
    ensures Small(card) && Synced(derive, card) && card.pin == pin && card.Admin().value.salt == Some(salt)
  {
    var d := Pivman.PivmanData(None, Some(salt), None);
    Pivman.ValueRoundTrip(d);
    Pivman.ValueSize(d);
    card := Card(pin, DerivedKey(derive, pin, salt), Pivman.ToValue(d), [], 3);
  }

  /** An interrupted PIN change can strand the card, at either point: a card and a derivation where it does. */
  lemma InterruptedPinChangeCanStrand()
    returns (derive: Derivation, card: Card, c: PinChange)
    ensures Small(card) && Synced(derive, card) && |c.newSalt| == 16 && CanStart(derive, card, c)
    ensures |PinPlan(derive, card, c)| == 3
    ensures Stranded(derive, ApplyAll(card, PinPlan(derive, card, c)[..1]))
    ensures Stranded(derive, ApplyAll(card, PinPlan(derive, card, c)[..2]))
  {
    derive := FirstOctets;
    card := CardWithSalt(derive, [1], [7]);
    c := PinChange([1], [2], seq(16, _ => 0));
    assert FirstOctets([2], [7])[0] != FirstOctets([1], [7])[0];
    assert FirstOctets([2], [7])[1] != FirstOctets([2], c.newSalt)[1];
    StrandedIff(derive, card, c, 1);
    StrandedIff(derive, card, c, 2);
  }

  // --- Sequences of runs -----------------------------------------------------

  datatype Operation = Rotation(u: Update) | PinSwap(c: PinChange)

  /** `op` completes on `card`. */
  ghost predicate Completes(derive: Derivation, card: Card, op: Operation, after: Card) {
    match op
    case Rotation(u) => Small(card) && Readable(card, u) && after == ApplyAll(card, Plan(card, u))
    case PinSwap(c) =>
      Small(card) && card.Admin().Some? && |c.newSalt| == 16 && after == ApplyAll(card, PinPlan(derive, card, c))
  }

  /** `cards` are the states between the completed operations `ops`. */
  ghost predicate History(derive: Derivation, cards: seq<Card>, ops: seq<Operation>) {
    && |cards| == |ops| + 1
    && forall i | 0 <= i < |ops| :: Completes(derive, cards[i], ops[i], cards[i + 1])
  }

  /** Any sequence of successful synchronised operations keeps the metadata in sync. */
  lemma {:induction false} HistoriesStaySynced(derive: Derivation, cards: seq<Card>, ops: seq<Operation>, i: nat)
    requires History(derive, cards, ops) && i < |cards|
    requires Synced(derive, cards[0]) || (|ops| > 0 && ops[0].Rotation? && i > 0)
    ensures Synced(derive, cards[i])
  {
    if i > 0 {
      assert Completes(derive, cards[i - 1], ops[i - 1], cards[i]);
      match ops[i - 1]
      case Rotation(u) => CompletedRotationSyncs(derive, cards[i - 1], u);
      case PinSwap(c) =>
        HistoriesStaySynced(derive, cards, ops, i - 1);
        CompletedPinChangeSyncs(derive, cards[i - 1], c);
    }
  }
}
