/** The durable copy of a new management key that outlives an interrupted replacement. */
module PivRecovery {
  import opened Wrappers
  import opened Radix
  import opened Ascii
  import opened Sequences
  import opened FileSystem
  import opened PivCard
  import opened PivSync

  datatype RecoveryError = NotCreated | NotPersisted | Exhausted

  // --- What the file says ---------------------------------------------------------------

  datatype Note = Note(key: Key, protect: bool, touch: bool)

  /** What stands around the fields of the file, whatever it says. */
  datatype Wording = Wording(intro: bytes, protect: bytes, touch: bytes, key: bytes, outro: bytes)

  function AlgorithmName(algorithm: Algorithm): bytes {
    match algorithm
    case Tdes => [0x74, 0x64, 0x65, 0x73]
    case Aes192 => [0x61, 0x65, 0x73, 0x31, 0x39, 0x32]
  }

  function YesNo(yes: bool): bytes {
    if yes then [0x74, 0x72, 0x75, 0x65] else [0x66, 0x61, 0x6c, 0x73, 0x65]
  }

  function Text(w: Wording, n: Note): bytes {
    w.intro + (AlgorithmName(n.key.algorithm) + (w.protect + (YesNo(n.protect)
    + (w.touch + (YesNo(n.touch) + (w.key + (Hex(n.key.material) + w.outro)))))))
  }

  lemma SameHead(a: bytes, b: bytes, rest: bytes, rest': bytes)
    requires a + rest == b + rest' && |a| > 0 && |b| > 0 && (a == b || a[0] != b[0])
    ensures a == b && rest == rest'
  {
    assert (a + rest)[0] == a[0] && (b + rest')[0] == b[0];
    TakeDrop(a, rest);
    TakeDrop(b, rest');
  }

  lemma SameLength(a: bytes, b: bytes, rest: bytes, rest': bytes)
    requires a + rest == b + rest' && |a| == |b|
    ensures a == b && rest == rest'
  {
    TakeDrop(a, rest);
    TakeDrop(b, rest');
  }

  lemma FieldsTellNote(w: Wording, m: Note, n: Note)
    requires AlgorithmName(m.key.algorithm) == AlgorithmName(n.key.algorithm)
    requires YesNo(m.protect) == YesNo(n.protect) && YesNo(m.touch) == YesNo(n.touch)
    requires Hex(m.key.material) == Hex(n.key.material)
    ensures m == n
  {
    HexKeepsPrefixes(m.key.material, n.key.material);
    HexKeepsPrefixes(n.key.material, m.key.material);
    assert AlgorithmName(Tdes)[0] != AlgorithmName(Aes192)[0];
    assert YesNo(true)[0] != YesNo(false)[0];
  }

  /** However the file is worded, its text tells the key, its algorithm and both flags. */
  lemma TextTellsNote(w: Wording, m: Note, n: Note)
    ensures Text(w, m) == Text(w, n) <==> m == n
  {
    if Text(w, m) == Text(w, n) {
      var key, key' := Hex(m.key.material) + w.outro, Hex(n.key.material) + w.outro;
      var touch, touch' := YesNo(m.touch) + (w.key + key), YesNo(n.touch) + (w.key + key');
      var protect, protect' := YesNo(m.protect) + (w.touch + touch), YesNo(n.protect) + (w.touch + touch');
      var algorithm, algorithm' := AlgorithmName(m.key.algorithm), AlgorithmName(n.key.algorithm);
      SameLength(w.intro, w.intro, algorithm + (w.protect + protect), algorithm' + (w.protect + protect'));
      SameHead(algorithm, algorithm', w.protect + protect, w.protect + protect');
      SameLength(w.protect, w.protect, protect, protect');
      SameHead(YesNo(m.protect), YesNo(n.protect), w.touch + touch, w.touch + touch');
      SameLength(w.touch, w.touch, touch, touch');
      SameHead(YesNo(m.touch), YesNo(n.touch), w.key + key, w.key + key');
      SameLength(w.key, w.key, key, key');
      SameLength(Hex(m.key.material), Hex(n.key.material), w.outro, w.outro);
      FieldsTellNote(w, m, n);
    }
  }

  // --- Where it is ------------------------------------------------------------------------

  /** A whole text, on disk under a name that is on disk. */
  ghost predicate Durable(s: Files, path: Path, text: bytes) {
    && s.Valid()
    && path in s.names && path in s.durable && s.names[path] == s.durable[path]
    && s.names[path] in s.synced && s.data[s.names[path]] == text
  }

  /** Nothing but the whole text can be found under the name, crash or no crash. */
  lemma DurableSurvivesCrash(s: Files, path: Path, text: bytes, found: Option<bytes>)
    requires s.Valid() && Durable(s, path, text) && s.MayFind(path, found)
    ensures found == Some(text)
  {
  }

  /** Names that existed still refer to the same, unchanged files. */
  ghost predicate OthersKept(before: Files, after: Files) {
    forall p | p in before.names ::
      p in after.names && after.names[p] == before.names[p]
      && (before.names[p] in before.data ==>
            before.names[p] in after.data && after.data[before.names[p]] == before.data[before.names[p]])
  }

  ghost predicate NameIsFree(files: Files, requested: Option<Path>, candidates: seq<Path>) {
    if requested.Some? then requested.value !in files.names
    else exists i :: 0 <= i < |candidates| && candidates[i] !in files.names
  }

  /** The name is free, and all candidates before it are taken. */
  ghost predicate IsFirstFree(names: map<Path, nat>, candidates: seq<Path>, p: Path) {
    p !in names && exists i :: 0 <= i < |candidates| && candidates[i] == p
                               && forall j | 0 <= j < i :: candidates[j] in names
  }

  lemma StillKept(before: Files, during: Files, after: Files, path: Path)
    requires OthersKept(before, during) && path !in before.names
    requires after.data == during.data && after.names - {path} == during.names - {path}
    ensures OthersKept(before, after)
  {
    forall p | p in before.names
      ensures p in after.names && after.names[p] == during.names[p]
    {
      assert p in during.names - {path};
    }
  }

  /**
   Creates the recovery file: under the requested name, or under the first free
   of eight random ones. It is on disk when this succeeds, and no file that
   existed is ever overwritten or removed.
   */
  method Create(disk: Disk, requested: Option<Path>, candidates: seq<Path>, text: bytes)
    returns (r: Result<Path, RecoveryError>)
    requires disk.Valid() && |candidates| == 8
    modifies disk
    ensures disk.Valid() && OthersKept(old(disk.files), disk.files)
    ensures r.Success? ==>
              && Durable(disk.files, r.value, text) && r.value !in old(disk.files.names)
              && (requested.Some? ==> r.value == requested.value)
              && (requested.None? ==> IsFirstFree(old(disk.files.names), candidates, r.value))
    ensures old(disk.faults) == [] ==>
              && disk.faults == []
              && (r.Success? <==> NameIsFree(old(disk.files), requested, candidates))
  {
    for i := 0 to 8
      invariant disk.Valid() && disk.files == old(disk.files)
      invariant requested.Some? ==> i == 0
      invariant forall j | 0 <= j < i :: candidates[j] in disk.files.names
      invariant old(disk.faults) == [] ==> disk.faults == []
    {
      var path := if requested.Some? then requested.value else candidates[i];
      var created := disk.CreateNew(path);
      match created
      case AlreadyExists =>
        if requested.Some? {
          return Failure(NotCreated);
        }
      case CreateFailed => return Failure(NotCreated);
      case Created(id) =>
        var saved := Save(disk, path, id, text);
        if !saved {
          var _ := disk.Remove(path);
          return Failure(NotPersisted);
        }
        return Success(path);
    }
    return Failure(Exhausted);
  }

  /** Write and sync the file. */
  method SaveFile(disk: Disk, id: nat, text: bytes) returns (saved: bool)
    requires disk.Valid() && id in disk.files.data && disk.files.data[id] == []
    modifies disk
    ensures disk.Valid() && disk.files.names == old(disk.files.names) && OnlyChanges(old(disk.files), disk.files, id)
    ensures saved ==> id in disk.files.synced && disk.files.data[id] == text
    ensures old(disk.faults) == [] ==> saved && disk.faults == []
  {
    Empty(text);
    saved := disk.WriteAll(id, text);
    if saved {
      saved := disk.SyncFile(id);
    }
  }

  /** Write, sync the file, sync its directory. */
  method Save(disk: Disk, path: Path, id: nat, text: bytes) returns (saved: bool)
    requires disk.Valid() && path in disk.files.names && disk.files.names[path] == id && disk.files.data[id] == []
    modifies disk
    ensures disk.Valid() && disk.files.names == old(disk.files.names) && OnlyChanges(old(disk.files), disk.files, id)
    ensures saved ==> Durable(disk.files, path, text)
    ensures old(disk.faults) == [] ==> saved && disk.faults == []
  {
    saved := SaveFile(disk, id, text);
    if saved {
      saved := disk.SyncDirectory();
    }
  }

  datatype Replaced = NotStarted(why: RecoveryError) | Finished(path: Path) | Stuck(error: PivError, path: Path)

  /**
   The copy is on disk in every state of the disk from the one in which the
   first write to the card was attempted: up to the last attempt if the
   replacement finished, and for good if it did not.
   */
  ghost predicate Guarded(states: seq<Files>, moments: seq<nat>, path: Path, text: bytes, finished: bool) {
    var n := |moments|;
    n > 0 ==>
      && 0 < moments[0] && moments[n - 1] <= |states|
      && (forall i | 0 <= i < n :: moments[0] <= moments[i] <= moments[n - 1])
      && forall j | moments[0] - 1 <= j < (if finished then moments[n - 1] else |states|) ::
           Durable(states[j], path, text)
  }

  lemma GuardedNow(states: seq<Files>, moments: seq<nat>, path: Path, text: bytes)
    requires |states| > 0 && Durable(states[|states| - 1], path, text)
    requires forall i | 0 <= i < |moments| :: moments[i] == |states|
    ensures Guarded(states, moments, path, text, false)
  {
  }

  lemma GuardedUntilFinished(
      states: seq<Files>, later: seq<Files>, moments: seq<nat>, path: Path, text: bytes)
    requires Guarded(states, moments, path, text, false) && states <= later
    ensures Guarded(later, moments, path, text, true)
  {
  }

  /**
   Power lost while any write was attempted: under the name of the copy exactly
   this text is found, and every key that was ever active is `oldKey` or `newKey`.
   */
  ghost predicate Recoverable(states: seq<Files>, moments: seq<nat>, keys: set<Key>,
                              path: Path, text: bytes, oldKey: Key, newKey: Key)
  {
    && keys <= {oldKey, newKey}
    && forall i, found | 0 <= i < |moments| && AtMoment(states, moments[i], path, found) :: found == Some(text)
  }

  /** This may be found under the name when power is lost in the middle of the write at this moment. */
  ghost predicate AtMoment(states: seq<Files>, moment: nat, path: Path, found: Option<bytes>) {
    0 < moment <= |states| && states[moment - 1].Valid() && states[moment - 1].MayFind(path, found)
  }

  lemma CrashLeavesKnownKey(states: seq<Files>, moments: seq<nat>, path: Path, text: bytes, finished: bool,
                            keys: set<Key>, oldKey: Key, newKey: Key)
    requires Guarded(states, moments, path, text, finished) && keys <= {oldKey, newKey}
    ensures Recoverable(states, moments, keys, path, text, oldKey, newKey)
  {
    forall i, found | 0 <= i < |moments| && AtMoment(states, moments[i], path, found)
      ensures found == Some(text)
    {
      DurableSurvivesCrash(states[moments[i] - 1], path, text, found);
    }
  }

  lemma WholeRecord(before: Card, after: Card, attempts: seq<Write>, commits: seq<Write>,
                    u: Update, r: Result<(), PivError>)
    requires Small(before) && Truthful(before, after, attempts[0..], commits[0..], u, r)
    ensures Truthful(before, after, attempts, commits, u, r)
  {
    assert attempts[0..] == attempts && commits[0..] == commits;
  }

  /** The rotation on a new connection. */
  method FirstRotation(link: CardLink, u: Update, host: Host) returns (r: Result<(), PivError>)
    requires link.Valid() && Small(link.card) && link.commits == link.attempts == []
    modifies link
    ensures link.Valid() && DiskUntouched(link, 0)
    ensures old(link.outcomes) == [] && host == Host(false, false) && MayRotate(old(link.card), u) ==> r.Success?
    ensures Truthful(old(link.card), link.card, link.attempts, link.commits, u, r)
    ensures r.Success? ==> Rotated(old(link.card), link.card, u)
    ensures link.activeKeys <= old(link.activeKeys) + {u.newKey}
  {
    r := SetManagementKeySynced(link, u, host);
    WholeRecord(old(link.card), link.card, link.attempts, link.commits, u, r);
  }

  /** The rotation with the copy in place; the disk stays as it is. */
  method Rotate(disk: Disk, link: CardLink, u: Update, host: Host, path: Path, text: bytes)
    returns (r: Result<(), PivError>)
    requires disk.Valid() && Durable(disk.files, path, text) && link.hostDisk == disk
    requires link.Valid() && Small(link.card) && link.commits == link.attempts == []
    modifies link
    ensures link.Valid() && Guarded(disk.states, link.moments, path, text, false)
    ensures old(link.outcomes) == [] && host == Host(false, false) && MayRotate(old(link.card), u) ==> r.Success?
    ensures Truthful(old(link.card), link.card, link.attempts, link.commits, u, r)
    ensures r.Success? ==> Rotated(old(link.card), link.card, u)
    ensures link.activeKeys <= old(link.activeKeys) + {u.newKey}
  {
    r := FirstRotation(link, u, host);
    GuardedNow(disk.states, link.moments, path, text);
  }

  /** Cleaning up may fail, which leaves a copy behind and is only warned about. */
  method CleanUp(disk: Disk, path: Path)
    requires disk.Valid()
    modifies disk
    ensures disk.Valid() && old(disk.states) <= disk.states
    ensures disk.files.data == old(disk.files.data) && disk.files.names - {path} == old(disk.files.names) - {path}
    ensures path in disk.files.names ==> disk.files == old(disk.files)
    ensures old(disk.faults) == [] ==> path !in disk.files.names
  {
    var removed := disk.Remove(path);
    if removed {
      var _ := disk.SyncDirectory();
    }
  }

  /**
   A key replacement with a durable copy of the new key in place. No write to
   the card is attempted unless the copy is on disk, and the copy stays until
   complete success; every key that is ever active is the old one or the one in
   the copy.
   */
  method ReplaceWithRecovery(disk: Disk, requested: Option<Path>, candidates: seq<Path>, wording: Wording,
                             link: CardLink, u: Update, touch: bool, host: Host)
    returns (r: Replaced)
    requires disk.Valid() && |candidates| == 8 && link.hostDisk == disk
    requires link.Valid() && Small(link.card)
    requires link.activeKeys == {link.card.key} && link.commits == link.attempts == []
    modifies disk, link
    ensures disk.Valid() && link.Valid()
    ensures r.NotStarted? ==> link.card == old(link.card) && link.attempts == []
    ensures !r.NotStarted? ==>
              var text := Text(wording, Note(u.newKey, u.protect, touch));
              && Guarded(disk.states, link.moments, r.path, text, r.Finished?)
              && Recoverable(disk.states, link.moments, link.activeKeys, r.path, text, old(link.card.key), u.newKey)
              && r.path !in old(disk.files.names)
    ensures r.Stuck? ==>
              && Durable(disk.files, r.path, Text(wording, Note(u.newKey, u.protect, touch)))
              && Truthful(old(link.card), link.card, link.attempts, link.commits, u, Failure(r.error))
    ensures r.Finished? ==>
              && Rotated(old(link.card), link.card, u)
              && Truthful(old(link.card), link.card, link.attempts, link.commits, u, Success(()))
    ensures OthersKept(old(disk.files), disk.files)
    ensures link.activeKeys <= {old(link.card.key), u.newKey}
    ensures old(disk.faults) == [] && NameIsFree(old(disk.files), requested, candidates)
            && old(link.outcomes) == [] && host == Host(false, false) && MayRotate(old(link.card), u) ==>
              r.Finished? && r.path !in disk.files.names
  {
    ghost var start := link.card;
    var text := Text(wording, Note(u.newKey, u.protect, touch));
    var created := Create(disk, requested, candidates, text);
    if created.Failure? {
      return NotStarted(created.error);
    }
    var path := created.value;
    var result := Rotate(disk, link, u, host, path, text);
    if result.Failure? {
      CrashLeavesKnownKey(disk.states, link.moments, path, text, false, link.activeKeys, start.key, u.newKey);
      return Stuck(result.error, path);
    }
    ghost var states := disk.states;
    ghost var files := disk.files;
    CleanUp(disk, path);
    StillKept(old(disk.files), files, disk.files, path);
    GuardedUntilFinished(states, disk.states, link.moments, path, text);
    CrashLeavesKnownKey(disk.states, link.moments, path, text, true, link.activeKeys, start.key, u.newKey);
    return Finished(path);
  }
}
