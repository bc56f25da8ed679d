/**
 Management-key replacement and PIN change, keeping the pivman metadata in
 sync: several writes to a card that can fail, or lose a response, at any one.
 */
module PivSync {
  import opened Wrappers
  import opened Radix
  import opened Sequences
  import opened PivCard
  import Pivman

  datatype Stage = ReplaceKeyStage | StoreProtectedKeyStage | UpdateMetadataStage | ProtectPukStage

  datatype PivError =
    | Drive(error: DriveError)
    | Random
    | ManagementKeyUpdate(stage: Stage, source: DriveError)

  datatype Update = Update(newKey: Key, protect: bool, pin: Option<bytes>, access: Key)

  /** Host-side preparation that can fail before any command is sent. */
  datatype Host = Host(keyRefused: bool, randomFails: bool)

  /** Objects are far smaller than the TLV writer's limits. */
  predicate Small(card: Card) {
    |card.admin| <= 0xffff
  }

  // --- What one rotation writes -------------------------------------------

  /** The metadata after the update: no salt, the stored-key flag as asked, the PUK flag kept or set. */
  function Updated(d: Pivman.PivmanData, protect: bool): Pivman.PivmanData {
    var flagged := d.(salt := None).SetStoredKey(protect);
    if protect then flagged.SetPukBlocked(true) else flagged
  }

  /** The stored key has to be read, hence the PIN is needed. */
  predicate NeedsPin(card: Card, u: Update) {
    u.protect || (card.Admin().Some? && card.Admin().value.HasStoredKey())
  }

  /** Everything is read and parsed before the first write. */
  predicate Readable(card: Card, u: Update) {
    && card.Admin().Some?
    && (NeedsPin(card, u) ==> u.pin == Some(card.pin) && card.Protected().Some?)
  }

  lemma AdminEncodable(card: Card)
    requires Small(card) && card.Admin().Some?
    ensures card.Admin().value.Encodable()
  {
    Pivman.ParsedIsEncodable(card.admin);
  }

  /** The value PRINTED is given, if it is written at all. */
  function PrintedWrite(card: Card, u: Update): Option<bytes>
    requires Readable(card, u)
  {
    if u.protect then Some(Pivman.ProtectedToValue(Some(u.newKey.material)))
    else if NeedsPin(card, u) && card.Protected().value.Some? then Some(Pivman.ProtectedToValue(None))
    else None
  }

  /** The value ADMIN DATA is given, if the update changes it. */
  function AdminWrite(card: Card, u: Update): Option<bytes>
    requires Small(card) && Readable(card, u)
  {
    AdminEncodable(card);
    var value := Pivman.ToValue(Updated(card.Admin().value, u.protect));
    if value != Pivman.ToValue(card.Admin().value) then Some(value) else None
  }

  function Assemble(key: Key, printed: Option<bytes>, admin: Option<bytes>, block: bool): seq<Write> {
    [ReplaceKey(key)]
    + (if printed.Some? then [PutPrinted(printed.value)] else [])
    + (if admin.Some? then [PutAdmin(admin.value)] else [])
    + (if block then [BlockPuk] else [])
  }

  /** The writes of one complete rotation, in order. */
  function Plan(card: Card, u: Update): seq<Write>
    requires Small(card) && Readable(card, u)
  {
    Assemble(u.newKey, PrintedWrite(card, u), AdminWrite(card, u), u.protect)
  }

  /** The stage reported when a write fails; 0 to 3 in the order of the plan. */
  function StageOf(w: Write): Stage
    requires !w.ChangePin?
  {
    match w
    case ReplaceKey(_) => ReplaceKeyStage
    case PutPrinted(_) => StoreProtectedKeyStage
    case PutAdmin(_) => UpdateMetadataStage
    case BlockPuk => ProtectPukStage
  }

  function Rank(s: Stage): nat {
    match s
    case ReplaceKeyStage => 0
    case StoreProtectedKeyStage => 1
    case UpdateMetadataStage => 2
    case ProtectPukStage => 3
  }

  /** Writes come in the order key, PRINTED, ADMIN DATA, PUK, each at most once, so a stage names one of them. */
  lemma PlanIsOrdered(key: Key, printed: Option<bytes>, admin: Option<bytes>, block: bool)
    ensures var ws := Assemble(key, printed, admin, block);
            && ws[0] == ReplaceKey(key)
            && (forall i | 0 <= i < |ws| :: !ws[i].ChangePin?)
            && (forall i, j | 0 <= i < j < |ws| :: Rank(StageOf(ws[i])) < Rank(StageOf(ws[j])))
  {
  }

  /** The card after exactly the planned writes `done`, a PUK block perhaps begun. */
  ghost predicate Committed(before: Card, after: Card, commits: seq<Write>, done: seq<Write>) {
    commits == done && UpToPuk(after, ApplyAll(before, done))
  }

  /** The write at `k` is the last one attempted; everything before it was committed, itself perhaps. */
  ghost predicate FailedAt(before: Card, after: Card, attempts: seq<Write>, commits: seq<Write>,
                           plan: seq<Write>, k: nat, stage: Stage) {
    && k < |plan| && !plan[k].ChangePin? && stage == StageOf(plan[k]) && attempts == plan[..k + 1]
    && (Committed(before, after, commits, plan[..k]) || Committed(before, after, commits, plan[..k + 1]))
    && (stage != ProtectPukStage ==> after.pukRetries == before.pukRetries)
  }

  /** What the result of a rotation says about what was attempted and what was committed. */
  ghost predicate Truthful(before: Card, after: Card, attempts: seq<Write>, commits: seq<Write>,
                           u: Update, r: Result<(), PivError>)
    requires Small(before)
  {
    match r
    case Success(_) =>
      Readable(before, u) && commits == attempts == Plan(before, u) && after == ApplyAll(before, commits)
    case Failure(ManagementKeyUpdate(stage, _)) =>
      Readable(before, u) && exists k: nat :: FailedAt(before, after, attempts, commits, Plan(before, u), k, stage)
    case Failure(_) => after == before && commits == attempts == []
  }

  lemma ApplyAllSnoc(card: Card, ws: seq<Write>, w: Write)
    ensures ApplyAll(card, ws + [w]) == Apply(ApplyAll(card, ws), w)
  {
    assert (ws + [w])[..|ws|] == ws;
  }

  lemma {:induction false} OnlyBlockingSpendsRetries(card: Card, ws: seq<Write>)
    requires BlockPuk !in ws
    ensures ApplyAll(card, ws).pukRetries == card.pukRetries
  {
    if |ws| > 0 {
      OnlyBlockingSpendsRetries(card, ws[..|ws| - 1]);
    }
  }

  /** The failed rotations a stage error may stand for. */
  ghost predicate Stopped(before: Card, after: Card, attempts: seq<Write>, commits: seq<Write>,
                          plan: seq<Write>, r: Result<(), PivError>) {
    && r.Failure? && r.error.ManagementKeyUpdate?
    && exists k: nat :: FailedAt(before, after, attempts, commits, plan, k, r.error.stage)
  }

  /** Everything written so far was attempted once, in order, and committed. */
  ghost predicate Underway(link: CardLink, start: Card, tried: seq<Write>, before: seq<Write>, done: seq<Write>)
    reads link
  {
    && link.card == ApplyAll(start, done)
    && link.attempts == tried + done && link.commits == before + done
  }

  /** A write was attempted in vain, the last of those in `attempts`. */
  ghost predicate Interrupted(link: CardLink, start: Card, tried: seq<Write>, before: seq<Write>,
                              plan: seq<Write>, r: Result<(), PivError>)
    reads link
  {
    && tried <= link.attempts && before <= link.commits
    && Stopped(start, link.card, link.attempts[|tried|..], link.commits[|before|..], plan, r)
  }

  /** The writes from the one numbered `from` on were attempted while the disk was as it is now. */
  ghost predicate DiskUntouched(link: CardLink, from: nat)
    reads link, link.hostDisk
  {
    forall i | from <= i < |link.moments| :: link.moments[i] == |link.hostDisk.states|
  }

  function Done(card: Card, printed: Option<bytes>, admin: Option<bytes>): Card {
    card.(printed := if printed.Some? then printed.value else card.printed,
          admin := if admin.Some? then admin.value else card.admin)
  }

  /** What the planned writes amount to, and how each extends the ones before. */
  lemma PlanPrefixes(card: Card, key: Key, printed: Option<bytes>, admin: Option<bytes>, block: bool)
    ensures var plan := Assemble(key, printed, admin, block);
            && [ReplaceKey(key)] <= plan
            && (printed.Some? ==> [ReplaceKey(key), PutPrinted(printed.value)] <= plan)
            && (admin.Some? ==> Assemble(key, printed, None, false) + [PutAdmin(admin.value)] <= plan)
            && (block ==> Assemble(key, printed, admin, false) + [BlockPuk] == plan)
            && (!block ==> Assemble(key, printed, admin, false) == plan)
    ensures ApplyAll(card, []) == card && ApplyAll(card, [ReplaceKey(key)]) == card.(key := key)
    ensures ApplyAll(card, Assemble(key, printed, None, false)) == Done(card.(key := key), printed, None)
    ensures ApplyAll(card, Assemble(key, printed, admin, false)) == Done(card.(key := key), printed, admin)
  {
    var replaced := [ReplaceKey(key)];
    ApplyAllSnoc(card, [], ReplaceKey(key));
    assert [] + replaced == replaced;
    if printed.Some? {
      ApplyAllSnoc(card, replaced, PutPrinted(printed.value));
    }
    var stored := Assemble(key, printed, None, false);
    if admin.Some? {
      ApplyAllSnoc(card, stored, PutAdmin(admin.value));
      assert stored + [PutAdmin(admin.value)] == Assemble(key, printed, admin, false);
    } else {
      assert stored == Assemble(key, printed, admin, false);
    }
  }

  lemma FailureIsPlanned(start: Card, after: Card, commits: seq<Write>, plan: seq<Write>, done: seq<Write>, w: Write)
    requires !w.ChangePin? && done + [w] <= plan
    requires commits == done || commits == done + [w]
    requires UpToPuk(after, ApplyAll(start, commits)) && (w != BlockPuk ==> after.pukRetries == start.pukRetries)
    ensures FailedAt(start, after, done + [w], commits, plan, |done|, StageOf(w))
  {
    assert plan[..|done|] == done && plan[..|done| + 1] == done + [w];
  }

  /** Attempts the next planned write; an error tells its stage and leaves open whether it was carried out. */
  method Attempt(link: CardLink, ghost start: Card, ghost tried: seq<Write>, ghost before: seq<Write>,
                 ghost plan: seq<Write>, ghost done: seq<Write>, w: Write, allowed: bool)
    returns (r: Result<(), PivError>)
    requires link.Valid() && !w.ChangePin?
    requires Underway(link, start, tried, before, done) && DiskUntouched(link, |tried|)
    requires done + [w] <= plan && BlockPuk !in done
    modifies link
    ensures link.Valid() && DiskUntouched(link, |tried|)
    ensures link.attempts == old(link.attempts) + [w]
    ensures r.Success? ==> Underway(link, start, tried, before, done + [w])
    ensures r.Failure? ==>
              && Interrupted(link, start, tried, before, plan, r)
              && r.error.ManagementKeyUpdate? && r.error.stage == StageOf(w)
              && Answer(Next(old(link.outcomes)), allowed) == Failure(r.error.source)
    ensures r.Success? ==> allowed
    ensures link.activeKeys <= old(link.activeKeys) + (if w.ReplaceKey? then {w.key} else {})
    ensures old(link.outcomes) == [] ==> link.outcomes == [] && (r.Success? <==> allowed)
  {
    ghost var outcomes := link.outcomes;
    ApplyAllSnoc(start, done, w);
    OnlyBlockingSpendsRetries(start, done);
    var status := link.Commit(w, allowed);
    Associate(before, done, [w]);
    Associate(tried, done, [w]);
    r := if status.Success? then Success(()) else Failure(ManagementKeyUpdate(StageOf(w), status.error));
    if r.Failure? {
      ghost var committed := if CarriedOut(Next(outcomes), allowed) then done + [w] else done;
      DropPrefix(tried, done + [w], link.attempts);
      DropPrefix(before, committed, link.commits);
      FailureIsPlanned(start, link.card, committed, plan, done, w);
    }
  }

  /** Protection can always be completed once the key, PRINTED and ADMIN DATA are in place. */
  lemma ProtectionCompletes(card: Card, u: Update)
    requires Small(card) && Readable(card, u) && u.protect
    ensures PinManagedAllowed(Done(card.(key := u.newKey), PrintedWrite(card, u), AdminWrite(card, u)), u.pin)
  {
    UpdateReadsBack(card, u);
    Pivman.ProtectedRoundTrip(Some(u.newKey.material));
  }

  /** ADMIN DATA after the update parses to the updated data, whether or not it had to be written. */
  lemma UpdateReadsBack(card: Card, u: Update)
    requires Small(card) && Readable(card, u)
    ensures Done(card, None, AdminWrite(card, u)).Admin() == Some(Updated(card.Admin().value, u.protect))
    ensures var d := Updated(card.Admin().value, u.protect);
            && d.salt == None && d.HasStoredKey() == u.protect && (u.protect ==> d.PukBlocked())
  {
    var d := card.Admin().value;
    var d' := Updated(d, u.protect);
    AdminEncodable(card);
    Pivman.ValueRoundTrip(d');
    if AdminWrite(card, u).None? {
      Pivman.ValueInjective(d, d');
    }
    Pivman.SetFlagChangesOneBit(d.(salt := None), 2, u.protect, 2);
    if u.protect {
      Pivman.SetFlagChangesOneBit(d.(salt := None).SetStoredKey(true), 1, true, 2);
    }
  }

  /** Blocking the PUK comes on top of what the other writes amount to. */
  lemma AssembledOutcome(card: Card, key: Key, printed: Option<bytes>, admin: Option<bytes>, block: bool)
    ensures var done := Done(card.(key := key), printed, admin);
            ApplyAll(card, Assemble(key, printed, admin, block)) == if block then Apply(done, BlockPuk) else done
  {
    PlanPrefixes(card, key, printed, admin, block);
    if block {
      ApplyAllSnoc(card, Assemble(key, printed, admin, false), BlockPuk);
    }
  }

  // --- What a completed rotation leaves --------------------------------------------

  /** Bit 1 of the flags, if there are any. */
  predicate KeyIsStored(d: Pivman.PivmanData) {
    d.flags.Some? && d.flags.value / 2 % 2 == 1
  }

  /**
   The card after a completed rotation, object by object: the new key; PRINTED
   holds it when protecting, holds none when an old one had to be cleared, and is
   untouched otherwise; ADMIN DATA has no salt, keeps its timestamp and the upper
   six bits of its flags, says whether the key is stored, and keeps the PUK bit
   unless protecting sets it.
   */
  ghost predicate Rotated(before: Card, after: Card, u: Update) {
    && before.Admin().Some? && after.Admin().Some?
    && var d, d' := before.Admin().value, after.Admin().value;
       var flags: int := if d.flags.Some? then d.flags.value else 0;
       && after.key == u.newKey && after.pin == before.pin
       && after.pukRetries == (if u.protect then 0 else before.pukRetries)
       && d'.salt == None && d'.pinTimestamp == d.pinTimestamp
       && (d'.flags.Some? <==> u.protect || d.flags.Some?)
       && (d'.flags.Some? ==> d'.flags.value == 4 * (flags / 4) + if u.protect then 3 else flags % 2)
       && (if u.protect then after.Protected() == Some(Some(u.newKey.material))
           else if KeyIsStored(d) && before.Protected() != Some(None) then after.Protected() == Some(None)
           else after.printed == before.printed)
  }

  lemma UpdatedFlags(d: Pivman.PivmanData, protect: bool)
    ensures var d', flags: int := Updated(d, protect), if d.flags.Some? then d.flags.value else 0;
            && d'.salt == None && d'.pinTimestamp == d.pinTimestamp
            && (d'.flags.Some? <==> protect || d.flags.Some?)
            && (d'.flags.Some? ==> d'.flags.value == 4 * (flags / 4) + if protect then 3 else flags % 2)
  {
  }

  /** The objects a completed rotation leaves are those it writes, or the old ones. */
  lemma ObjectsAfter(card: Card, u: Update)
    requires Small(card) && Readable(card, u)
    ensures var after := ApplyAll(card, Plan(card, u));
            var printed, admin := PrintedWrite(card, u), AdminWrite(card, u);
            && after.key == u.newKey && after.pin == card.pin
            && after.pukRetries == (if u.protect then 0 else card.pukRetries)
            && after.printed == (if printed.Some? then printed.value else card.printed)
            && after.admin == (if admin.Some? then admin.value else card.admin)
  {
    AssembledOutcome(card, u.newKey, PrintedWrite(card, u), AdminWrite(card, u), u.protect);
  }

  lemma PrintedAfter(card: Card, u: Update)
    requires Readable(card, u)
    ensures var printed := PrintedWrite(card, u);
            if u.protect then printed.Some? && Pivman.ProtectedFromValue(printed.value) == Some(Some(u.newKey.material))
            else if KeyIsStored(card.Admin().value) && card.Protected() != Some(None) then
              printed.Some? && Pivman.ProtectedFromValue(printed.value) == Some(None)
            else printed.None?
  {
    Pivman.ProtectedRoundTrip(Some(u.newKey.material));
    Pivman.ProtectedRoundTrip(None);
  }

  /** Wherever it started, a completed rotation leaves just this. */
  lemma CompletedRotationLeaves(card: Card, u: Update)
    requires Small(card) && Readable(card, u)
    ensures Rotated(card, ApplyAll(card, Plan(card, u)), u)
  {
    ObjectsAfter(card, u);
    PrintedAfter(card, u);
    UpdateReadsBack(card, u);
    UpdatedFlags(card.Admin().value, u.protect);
  }

  lemma Kinds(key: Key, printed: Option<bytes>, admin: Option<bytes>, block: bool)
    ensures var ws := Assemble(key, printed, admin, block);
            && ((exists w :: w in ws && w.PutPrinted?) <==> printed.Some?)
            && ((exists w :: w in ws && w.PutAdmin?) <==> admin.Some?)
            && (BlockPuk in ws <==> block)
  {
    var ws := Assemble(key, printed, admin, block);
    if printed.Some? {
      assert PutPrinted(printed.value) in ws;
    }
    if admin.Some? {
      assert PutAdmin(admin.value) in ws;
    }
  }

  lemma AdminWrittenIfChanged(card: Card, u: Update)
    requires Small(card) && Readable(card, u)
    ensures AdminWrite(card, u).Some? <==> Updated(card.Admin().value, u.protect) != card.Admin().value
  {
    AdminEncodable(card);
    if AdminWrite(card, u).None? {
      Pivman.ValueInjective(card.Admin().value, Updated(card.Admin().value, u.protect));
    }
  }

  /** Nothing is written in vain: which objects the plan writes, and the PUK only when protecting. */
  lemma PlanWritesOnlyChanges(card: Card, u: Update)
    requires Small(card) && Readable(card, u)
    ensures var plan, after := Plan(card, u), ApplyAll(card, Plan(card, u));
            && ((exists w :: w in plan && w.PutPrinted?)
                <==> u.protect || (KeyIsStored(card.Admin().value) && card.Protected() != Some(None)))
            && ((exists w :: w in plan && w.PutAdmin?) <==> after.Admin() != card.Admin())
            && (BlockPuk in plan <==> u.protect)
  {
    Kinds(u.newKey, PrintedWrite(card, u), AdminWrite(card, u), u.protect);
    ObjectsAfter(card, u);
    PrintedAfter(card, u);
    UpdateReadsBack(card, u);
    AdminWrittenIfChanged(card, u);
  }

  /** Reads and parses everything the rotation depends on; nothing is written. */
  method Prepare(link: CardLink, u: Update, host: Host)
    returns (r: Result<(Pivman.PivmanData, Option<bytes>), PivError>)
    modifies link`outcomes
    ensures r.Failure? ==> !r.error.ManagementKeyUpdate?
    ensures r.Success? ==>
              && Readable(link.card, u) && r.value.0 == link.card.Admin().value
              && r.value.1 == if NeedsPin(link.card, u) then link.card.Protected().value else None
    ensures old(link.outcomes) == [] && host == Host(false, false) ==>
              link.outcomes == [] && (r.Success? <==> Readable(link.card, u))
  {
    if host.keyRefused {
      return Failure(Drive(Protocol(RefusedByCard)));
    }
    if u.protect && host.randomFails {
      return Failure(Random);
    }
    var reading := link.Query(true);
    if reading.Failure? {
      return Failure(Drive(reading.error));
    }
    var admin := link.card.Admin();
    if admin.None? {
      return Failure(Drive(Protocol(InvalidResponse)));
    }
    if !u.protect && !admin.value.HasStoredKey() {
      return Success((admin.value, None));
    }
    if u.pin.None? {
      return Failure(Drive(Protocol(SecurityStatusNotSatisfied)));
    }
    reading := link.Query(u.pin.value == link.card.pin);
    if reading.Failure? {
      return Failure(Drive(reading.error));
    }
    var printed := link.card.Protected();
    if printed.None? {
      return Failure(Drive(Protocol(InvalidResponse)));
    }
    return Success((admin.value, printed.value));
  }

  /**
   A key rotation, told truthfully whatever fails: an error without a stage
   means that nothing was attempted; a stage names the last write attempted,
   with all writes before it committed and none after it. It succeeds only with
   the right credentials and readable objects, and then whenever nothing fails.
   */
  method SetManagementKeySynced(link: CardLink, u: Update, host: Host) returns (r: Result<(), PivError>)
    requires link.Valid() && Small(link.card)
    modifies link
    ensures link.Valid() && old(link.attempts) <= link.attempts && old(link.commits) <= link.commits
    ensures DiskUntouched(link, |old(link.attempts)|)
    ensures Truthful(old(link.card), link.card,
                     link.attempts[|old(link.attempts)|..], link.commits[|old(link.commits)|..], u, r)
    ensures link.activeKeys <= old(link.activeKeys) + {u.newKey}
    ensures r.Success? ==> Rotated(old(link.card), link.card, u) && MayRotate(old(link.card), u)
    ensures old(link.outcomes) == [] && host == Host(false, false) && MayRotate(old(link.card), u) ==> r.Success?
  {
    ghost var start := link.card;
    var prepared := Prepare(link, u, host);
    if prepared.Failure? {
      return Failure(prepared.error);
    }
    r := CommitUpdate(link, u, prepared.value.0, prepared.value.1);
    if r.Success? {
      CompletedRotationLeaves(start, u);
    }
  }

  /** The old key authenticates; ADMIN DATA parses, and so does PRINTED, with the right PIN, if it is needed. */
  ghost predicate MayRotate(card: Card, u: Update) {
    && u.access == card.key && card.Admin().Some?
    && (u.protect || KeyIsStored(card.Admin().value) ==> u.pin == Some(card.pin) && card.Protected().Some?)
  }

  /** The writes of the rotation, in order, each only after the one before is known to be done. */
  method CommitUpdate(link: CardLink, u: Update, pivman: Pivman.PivmanData, protectedKey: Option<bytes>)
    returns (r: Result<(), PivError>)
    requires link.Valid() && Small(link.card) && Readable(link.card, u)
    requires pivman == link.card.Admin().value
    requires protectedKey == if NeedsPin(link.card, u) then link.card.Protected().value else None
    modifies link
    ensures link.Valid() && DiskUntouched(link, |old(link.attempts)|)
    ensures var plan := Plan(old(link.card), u);
            && (r.Success? ==> Underway(link, old(link.card), old(link.attempts), old(link.commits), plan))
            && (r.Failure? ==> Interrupted(link, old(link.card), old(link.attempts), old(link.commits), plan, r))
    ensures link.activeKeys <= old(link.activeKeys) + {u.newKey}
    ensures r.Success? ==> u.access == old(link.card.key)
    ensures old(link.outcomes) == [] && u.access == old(link.card.key) ==> r.Success?
  {
    ghost var start, tried, before := link.card, link.attempts, link.commits;
    ghost var plan := Plan(start, u);
    PlanPrefixes(start, u.newKey, PrintedWrite(start, u), AdminWrite(start, u), u.protect);
    AdminEncodable(start);
    assert [] + [ReplaceKey(u.newKey)] == [ReplaceKey(u.newKey)] && before + [] == before && tried + [] == tried;
    r := Attempt(link, start, tried, before, plan, [], ReplaceKey(u.newKey), u.access == link.card.key);
    if r.Failure? {
      return;
    }
    var printed, admin := FollowingWrites(u, pivman, protectedKey, start);
    if u.protect {
      ProtectionCompletes(start, u);
    }
    r := FollowUp(link, u.newKey, u.pin, u.protect, start, tried, before, printed, admin);
  }

  /** What PRINTED and ADMIN DATA are given, if they are written. */
  method FollowingWrites(u: Update, pivman: Pivman.PivmanData, protectedKey: Option<bytes>, ghost start: Card)
    returns (printed: Option<bytes>, admin: Option<bytes>)
    requires Small(start) && Readable(start, u) && pivman == start.Admin().value && pivman.Encodable()
    requires protectedKey == if NeedsPin(start, u) then start.Protected().value else None
    ensures printed == PrintedWrite(start, u) && admin == AdminWrite(start, u)
  {
    var updated := pivman.(salt := None).SetStoredKey(u.protect);
    if u.protect {
      updated := updated.SetPukBlocked(true);
    }
    printed := if u.protect then Some(Pivman.ProtectedToValue(Some(u.newKey.material)))
               else if protectedKey.Some? then Some(Pivman.ProtectedToValue(None))
               else None;
    admin := if Pivman.ToValue(updated) != Pivman.ToValue(pivman) then Some(Pivman.ToValue(updated)) else None;
  }

  /** The writes after the replacement; each authenticates with the new key. */
  method FollowUp(link: CardLink, key: Key, pin: Option<bytes>, block: bool, ghost start: Card,
                  ghost tried: seq<Write>, ghost before: seq<Write>, printed: Option<bytes>, admin: Option<bytes>)
    returns (r: Result<(), PivError>)
    requires link.Valid() && DiskUntouched(link, |tried|)
    requires Underway(link, start, tried, before, [ReplaceKey(key)])
    requires printed.Some? ==> pin == Some(start.pin)
    requires block ==> PinManagedAllowed(Done(start.(key := key), printed, admin), pin)
    modifies link
    ensures link.Valid() && DiskUntouched(link, |tried|)
    ensures var plan := Assemble(key, printed, admin, block);
            && (r.Success? ==> Underway(link, start, tried, before, plan))
            && (r.Failure? ==> Interrupted(link, start, tried, before, plan, r))
    ensures link.activeKeys <= old(link.activeKeys)
    ensures old(link.outcomes) == [] ==> r.Success?
  {
    ghost var plan, done := Assemble(key, printed, admin, block), [ReplaceKey(key)];
    PlanPrefixes(start, key, printed, admin, block);
    // The recovery copy is stored before the stored-key flag is published.
    if printed.Some? {
      r := Attempt(link, start, tried, before, plan, done, PutPrinted(printed.value),
                   pin == Some(link.card.pin) && key == link.card.key);
      if r.Failure? {
        return;
      }
      assert done + [PutPrinted(printed.value)] == Assemble(key, printed, None, false);
    }
    done := Assemble(key, printed, None, false);
    if admin.Some? {
      r := Attempt(link, start, tried, before, plan, done, PutAdmin(admin.value), key == link.card.key);
      if r.Failure? {
        return;
      }
      assert done + [PutAdmin(admin.value)] == Assemble(key, printed, admin, false);
    }
    done := Assemble(key, printed, admin, false);
    if block {
      r := Attempt(link, start, tried, before, plan, done, BlockPuk, PinManagedAllowed(link.card, pin));
      if r.Failure? {
        return;
      }
    }
    return Success(());
  }

  /** Completing protection authenticates with the PIN and the key that ADMIN DATA and PRINTED publish. */
  predicate PinManagedAllowed(card: Card, pin: Option<bytes>) {
    && pin == Some(card.pin)
    && card.Admin().Some? && card.Admin().value.HasStoredKey()
    && card.Protected() == Some(Some(card.key.material))
  }
}
