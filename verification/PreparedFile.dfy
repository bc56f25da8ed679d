/** Output files that are replaced only after their complete contents are on disk. */
module PreparedFile {
  import opened Wrappers
  import opened Radix
  import opened FileSystem

  datatype OutputError = Allocate | Io | AlreadyWritten | NotReplaced(savedAt: Path)

  /** Whatever is found under `p`, now or after a crash, is what was there or the complete contents. */
  ghost predicate Intact(s: Files, p: Path, original: Option<bytes>, contents: bytes)
    requires s.Valid()
  {
    && s.Read(p) in {original, Some(contents)}
    && forall found :: s.MayFind(p, found) ==> found in {original, Some(contents)}
  }

  /** The destination is on disk as it is seen. */
  ghost predicate Settled(s: Files, p: Path) {
    && (p in s.names <==> p in s.durable)
    && (p in s.names ==> s.names[p] == s.durable[p] && s.names[p] in s.synced)
  }

  ghost predicate AllIntact(states: seq<Files>, from: nat, p: Path, original: Option<bytes>, contents: bytes)
    requires forall i | 0 <= i < |states| :: states[i].Valid()
  {
    from < |states| && forall i | from <= i < |states| :: Intact(states[i], p, original, contents)
  }

  /** Every state from the one numbered `from` on kept the destination intact. */
  ghost predicate IntactSince(disk: Disk, from: nat, p: Path, original: Option<bytes>, contents: bytes)
    requires disk.Valid()
    reads disk
  {
    AllIntact(disk.states, from, p, original, contents)
  }

  lemma SettledIsIntact(s: Files, p: Path, contents: bytes)
    requires s.Valid() && Settled(s, p)
    ensures Intact(s, p, s.Read(p), contents)
  {
  }

  /** The destination is settled and holds `original`; the temporary file is a different one. */
  ghost predicate Keeps(s: Files, p: Path, original: Option<bytes>, temporary: Path, id: nat) {
    && s.Valid() && Settled(s, p) && s.Read(p) == original && id in s.data
    && temporary in s.names && s.names[temporary] == id && temporary != p
    && (p in s.names ==> s.names[p] != id)
  }

  lemma KeepsIsIntact(s: Files, p: Path, original: Option<bytes>, temporary: Path, id: nat, contents: bytes)
    requires Keeps(s, p, original, temporary, id)
    ensures Intact(s, p, original, contents)
  {
    SettledIsIntact(s, p, contents);
  }

  /** The directory after `temporary` has been renamed to `p`. */
  function Renamed(s: Files, temporary: Path, p: Path): Files
    requires temporary in s.names
  {
    s.(names := (s.names - {temporary})[p := s.names[temporary]])
  }

  /** Publishing a file whose data is on disk exposes nothing but the original and what the file holds. */
  lemma PublishedIsIntact(s: Files, p: Path, original: Option<bytes>, temporary: Path, id: nat, contents: bytes)
    requires Keeps(s, p, original, temporary, id) && id in s.synced
    ensures var s' := Renamed(s, temporary, p);
            s'.Valid() && (Intact(s', p, original, contents) <==> Some(s.data[id]) in {original, Some(contents)})
  {
    var s' := Renamed(s, temporary, p);
    assert s'.Read(p) == Some(s.data[id]);
    if Some(s.data[id]) in {original, Some(contents)} {
      forall found | s'.MayFind(p, found)
        ensures found in {original, Some(contents)}
      {
        assert p in s.durable ==> s.Read(p) == Some(s.data[s.durable[p]]);
      }
    }
  }

  /** A file that is not on disk may be found to hold anything after a crash: it must not be the destination. */
  lemma UnsyncedIsNotIntact(s: Files, p: Path, original: Option<bytes>, contents: bytes)
    requires s.Valid() && p in s.names && s.names[p] !in s.synced
    ensures !Intact(s, p, original, contents)
  {
    var one, other := contents + [0], contents + [1];
    assert one[|contents|] != other[|contents|];
    assert s.MayFind(p, Some(one)) && s.MayFind(p, Some(other));
  }

  // --- Temporary names ---------------------------------------------------------------

  /** The first candidate that is not taken. */
  function FirstFree(names: map<Path, nat>, candidates: seq<Path>): (p: Option<Path>)
    ensures p.Some? ==> p.value !in names
  {
    if |candidates| == 0 then None
    else if candidates[0] !in names then Some(candidates[0])
    else FirstFree(names, candidates[1..])
  }

  /** A candidate is chosen exactly when it is free and all before it are taken. */
  lemma {:induction false} FirstFreeIff(names: map<Path, nat>, candidates: seq<Path>, p: Path)
    ensures FirstFree(names, candidates) == Some(p)
       <==> p !in names && exists i :: 0 <= i < |candidates| && candidates[i] == p
                                       && forall j | 0 <= j < i :: candidates[j] in names
  {
    if |candidates| > 0 && candidates[0] in names {
      var rest := candidates[1..];
      FirstFreeIff(names, rest, p);
      if FirstFree(names, rest) == Some(p) {
        var i :| 0 <= i < |rest| && rest[i] == p && forall j | 0 <= j < i :: rest[j] in names;
        assert candidates[i + 1] == p;
        forall j | 0 <= j < i + 1
          ensures candidates[j] in names
        {
          assert j > 0 ==> candidates[j] == rest[j - 1];
        }
      }
      if p !in names && exists i :: 0 <= i < |candidates| && candidates[i] == p
                                    && forall j | 0 <= j < i :: candidates[j] in names {
        var i :| 0 <= i < |candidates| && candidates[i] == p && forall j | 0 <= j < i :: candidates[j] in names;
        assert rest[i - 1] == p;
        forall j | 0 <= j < i - 1
          ensures rest[j] in names
        {
          assert rest[j] == candidates[j + 1];
        }
      }
    }
  }

  /** What a write adds to the temporary file makes the complete contents, or what the destination held anyway. */
  predicate Publishable(held: bytes, contents: bytes, original: Option<bytes>) {
    held == [] || original == Some(held + contents)
  }

  lemma PublishableIff(held: bytes, contents: bytes, original: Option<bytes>)
    ensures Publishable(held, contents, original) <==> Some(held + contents) in {original, Some(contents)}
  {
    if held == [] {
      assert held + contents == contents;
    } else {
      assert |held + contents| != |contents|;
    }
  }

  /** The rename decides, and it is the last thing that happens. */
  lemma IntactAfterRename(disk: Disk, states: seq<Files>, from: nat, filled: Files, p: Path, original: Option<bytes>,
                          temporary: Path, id: nat, held: bytes, contents: bytes, renamed: bool)
    requires disk.Valid() && (forall i | 0 <= i < |states| :: states[i].Valid())
    requires AllIntact(states, from, p, original, contents)
    requires Keeps(filled, p, original, temporary, id) && id in filled.synced && filled.data[id] == held + contents
    requires disk.states == states + [disk.files]
    requires disk.files == if renamed then Renamed(filled, temporary, p) else filled
    ensures IntactSince(disk, from, p, original, contents) <==> !renamed || Publishable(held, contents, original)
    ensures !renamed ==> Settled(disk.files, p) && disk.files.Read(p) == original
  {
    PublishedIsIntact(filled, p, original, temporary, id, contents);
    PublishableIff(held, contents, original);
    KeepsIsIntact(filled, p, original, temporary, id, contents);
    assert disk.states[|states|] == disk.files;
  }

  /** No other name is touched, and under no other name can a difference be seen. */
  ghost predicate OthersKept(before: Files, after: Files, destination: Path, temporary: Path)
    requires before.Valid() && after.Valid()
  {
    forall p | p in before.names && p != destination && p != temporary :: after.Read(p) == before.Read(p)
  }

  lemma OtherFilesOtherNames(before: Files, after: Files, destination: Path, temporary: Path)
    requires before.Valid() && after.Valid() && temporary in before.names
    requires OnlyChanges(before, after, before.names[temporary])
    requires forall p | p in before.names && p != temporary :: before.names[p] != before.names[temporary]
    requires after.names == before.names || after.names == Renamed(before, temporary, destination).names
    ensures OthersKept(before, after, destination, temporary)
  {
  }

  class Output {
    const disk: Disk
    const destination: Path
    var temporary: Option<Path>
    var file: Option<nat>

    /** The temporary file is this object's own, and nothing on disk refers to it yet. */
    ghost predicate Prepared()
      reads this, disk
    {
      && disk.Valid() && temporary.Some? && file.Some? && file.value in disk.files.data
      && temporary.value in disk.files.names && disk.files.names[temporary.value] == file.value
      && (forall p | p in disk.files.names && p != temporary.value :: disk.files.names[p] != file.value)
      && (forall p | p in disk.files.durable :: disk.files.durable[p] != file.value)
    }

    /** What earlier writes have left in the temporary file. */
    ghost function Held(): bytes
      requires Prepared()
      reads this, disk
    {
      disk.files.data[file.value]
    }

    /** The destination is on disk, in another file. */
    ghost predicate Apart()
      requires Prepared()
      reads this, disk
    {
      temporary.value != destination && Settled(disk.files, destination)
    }

    constructor (disk: Disk, destination: Path, temporary: Path, file: nat)
      ensures this.disk == disk && this.destination == destination
      ensures this.temporary == Some(temporary) && this.file == Some(file)
    {
      this.disk, this.destination := disk, destination;
      this.temporary, this.file := Some(temporary), Some(file);
    }

    /**
     Creates an empty temporary file next to the destination, under the first
     of the random names that is free; nothing else changes. If that name is the
     destination itself, the temporary file is the destination.
     */
    static method Prepare(disk: Disk, destination: Path, candidates: seq<Path>)
      returns (r: Result<Output, OutputError>)
      requires disk.Valid() && |candidates| == 8
      modifies disk
      ensures disk.Valid()
      ensures r.Failure? ==> disk.files == old(disk.files) && disk.states == old(disk.states)
      ensures r.Success? ==>
                var o := r.value;
                && fresh(o) && o.disk == disk && o.destination == destination && o.Prepared()
                && o.temporary == FirstFree(old(disk.files.names), candidates)
                && o.file.value !in old(disk.files.data)
                && disk.files == old(disk.files).(
                     names := old(disk.files.names)[o.temporary.value := o.file.value],
                     data := old(disk.files.data)[o.file.value := []])
                && disk.states == old(disk.states) + [disk.files]
      ensures old(disk.faults) == [] ==>
                disk.faults == [] && (r.Success? <==> FirstFree(old(disk.files.names), candidates).Some?)
    {
      assert candidates[0..] == candidates;
      for i := 0 to 8
        invariant disk.Valid() && disk.files == old(disk.files) && disk.states == old(disk.states)
        invariant FirstFree(disk.files.names, candidates) == FirstFree(disk.files.names, candidates[i..])
        invariant old(disk.faults) == [] ==> disk.faults == []
      {
        var created := disk.CreateNew(candidates[i]);
        match created
        case AlreadyExists =>
        case CreateFailed => return Failure(Io);
        case Created(id) =>
          var output := new Output(disk, destination, candidates[i], id);
          return Success(output);
      }
      return Failure(Allocate);
    }

    /**
     Writes once, then replaces the destination. At every point, and after a
     crash at any point, the destination holds its original or the complete
     contents, unless this succeeds after an earlier write had left something in
     the temporary file.
     */
    method Write(contents: bytes) returns (r: Result<(), OutputError>)
      requires disk.Valid() && (file.Some? ==> Prepared())
      modifies this, disk
      ensures disk.Valid() && old(disk.states) <= disk.states
      ensures old(file).None? ==>
                r == Failure(AlreadyWritten) && disk.files == old(disk.files) && disk.states == old(disk.states)
                && file == old(file) && temporary == old(temporary)
      ensures old(file).Some? && r.Success? ==>
                && disk.files.names == Renamed(old(disk.files), old(temporary).value, destination).names
                && disk.files.Read(destination) == Some(old(Held()) + contents)
                && temporary == None && file == None
      ensures r.Failure? ==> disk.files.names == old(disk.files.names)
      ensures r.Failure? && r.error.NotReplaced? ==>
                && temporary == None && file == None && old(temporary) == Some(r.error.savedAt)
                && disk.files.Read(r.error.savedAt) == Some(old(Held()) + contents)
                && disk.files.names[r.error.savedAt] in disk.files.synced
      ensures r.Failure? && !r.error.NotReplaced? ==>
                temporary == old(temporary) && file == old(file) && (file.Some? ==> Prepared())
      ensures old(file).Some? ==>
                var fault, next := FirstFault(old(disk.faults)), OtherFaults(old(disk.faults));
                && (r == Failure(Io) <==> fault.FailsAfter? || FirstFault(next).FailsAfter?)
                && (r == Failure(Io) ==>
                      && file == old(file) && Prepared() && Held() == old(Held()) + Landed(contents, fault)
                      && disk.faults == if fault.FailsAfter? then next else OtherFaults(next))
      ensures old(file).Some? && old(Apart()) ==>
                && (r.Failure? ==> Settled(disk.files, destination)
                                   && disk.files.Read(destination) == old(disk.files.Read(destination)))
                && (IntactSince(disk, |old(disk.states)| - 1, destination, old(disk.files.Read(destination)), contents)
                    <==> r.Failure? || Publishable(old(Held()), contents, old(disk.files.Read(destination))))
      ensures old(file).Some? ==> OthersKept(old(disk.files), disk.files, destination, old(temporary).value)
      ensures old(file).Some? && old(disk.faults) == [] ==> r.Success? && disk.faults == []
    {
      if file.None? {
        return Failure(AlreadyWritten);
      }
      var id, path := file.value, temporary.value;
      ghost var before, from := disk.files, |disk.states| - 1;
      ghost var original, held, apart := disk.files.Read(destination), Held(), Apart();
      var filled := Fill(disk, id, contents, destination, original, path, apart);
      if !filled {
        OtherFilesOtherNames(before, disk.files, destination, path);
        return Failure(Io);
      }
      file := None;
      ghost var filledFiles, states := disk.files, disk.states;
      var renamed := disk.Rename(path, destination);
      temporary := None;
      OtherFilesOtherNames(before, disk.files, destination, path);
      if apart {
        IntactAfterRename(disk, states, from, filledFiles, destination, original, path, id, held, contents, renamed);
      }
      if !renamed {
        return Failure(NotReplaced(path));
      }
      return Success(());
    }

    /** The complete contents are written and on disk before anything else happens. */
    static method Fill(disk: Disk, id: nat, contents: bytes,
                       ghost p: Path, ghost original: Option<bytes>, ghost path: Path, ghost apart: bool)
      returns (ok: bool)
      requires disk.Valid() && id in disk.files.data && (apart ==> Keeps(disk.files, p, original, path, id))
      modifies disk
      ensures disk.Valid() && old(disk.states) <= disk.states && |disk.states| > |old(disk.states)|
      ensures disk.files.names == old(disk.files.names) && disk.files.durable == old(disk.files.durable)
      ensures OnlyChanges(old(disk.files), disk.files, id)
      ensures ok ==> id in disk.files.synced
      ensures var fault, next := FirstFault(old(disk.faults)), OtherFaults(old(disk.faults));
              && (ok <==> fault.NoFault? && FirstFault(next).NoFault?)
              && disk.files.data[id] == old(disk.files.data[id]) + Landed(contents, fault)
              && disk.faults == if fault.FailsAfter? then next else OtherFaults(next)
      ensures apart ==>
                && Keeps(disk.files, p, original, path, id)
                && IntactSince(disk, |old(disk.states)| - 1, p, original, contents)
    {
      if apart {
        KeepsIsIntact(disk.files, p, original, path, id, contents);
      }
      ok := disk.WriteAll(id, contents);
      if apart {
        KeepsIsIntact(disk.files, p, original, path, id, contents);
      }
      if ok {
        ok := disk.SyncFile(id);
        if apart {
          KeepsIsIntact(disk.files, p, original, path, id, contents);
        }
      }
    }

    /** Dropping removes the temporary file, unless it was published or must be kept. */
    method Drop()
      requires disk.Valid()
      modifies this, disk
      ensures disk.Valid() && file == None
      ensures temporary == old(temporary)
      ensures temporary.None? ==> disk.files == old(disk.files) && disk.states == old(disk.states)
      ensures temporary.Some? ==>
                && disk.states == old(disk.states) + [disk.files]
                && (disk.files == old(disk.files)
                    || disk.files == old(disk.files).(names := old(disk.files.names) - {temporary.value}))
      ensures old(disk.faults) == [] && temporary.Some? ==> temporary.value !in disk.files.names
    {
      file := None;
      if temporary.Some? {
        var _ := disk.Remove(temporary.value);
      }
    }
  }

  // --- From preparing to dropping ------------------------------------------------------

  /** The directory and the files once an empty temporary file has been added. */
  ghost predicate Added(before: Files, after: Files, temporary: Path) {
    exists id: nat ::
      && id !in before.data
      && after == before.(names := before.names[temporary := id], data := before.data[id := []])
  }

  ghost predicate Dropped(before: Files, after: Files, temporary: Path) {
    after == before || after == before.(names := before.names - {temporary})
  }

  /** Under no other name can a difference be seen once the temporary file is gone again, or has been renamed. */
  lemma OthersKeptThroughout(before: Files, added: Files, after: Files, destination: Path, temporary: Path)
    requires before.Valid() && added.Valid() && after.Valid()
    requires temporary !in before.names && Added(before, added, temporary)
    requires OthersKept(added, after, destination, temporary)
    ensures forall p | p in before.names && p != destination :: after.Read(p) == before.Read(p)
  {
    forall p | p in before.names && p != destination
      ensures after.Read(p) == before.Read(p)
    {
      assert added.Read(p) == before.Read(p);
    }
  }

  lemma DroppingKeepsOthers(added: Files, written: Files, after: Files, destination: Path, temporary: Path)
    requires added.Valid() && written.Valid() && after.Valid()
    requires OthersKept(added, written, destination, temporary) && Dropped(written, after, temporary)
    ensures OthersKept(added, after, destination, temporary)
  {
    forall p | p in added.names && p != destination && p != temporary
      ensures after.Read(p) == added.Read(p)
    {
      assert written.Read(p) == added.Read(p);
    }
  }

  lemma IntactSnoc(disk: Disk, states: seq<Files>, from: nat, p: Path, original: Option<bytes>, contents: bytes)
    requires disk.Valid() && from < |states| && states <= disk.states && |disk.states| <= |states| + 1
    requires forall i | from <= i < |states| :: Intact(disk.states[i], p, original, contents)
    requires disk.states == states || Intact(disk.files, p, original, contents)
    ensures IntactSince(disk, from, p, original, contents)
  {
  }

  /** Writing to a new output and dropping it. */
  method WriteAndDrop(output: Output, contents: bytes) returns (r: Result<(), OutputError>)
    requires output.Prepared() && output.Held() == []
    modifies output, output.disk
    ensures var disk, destination := output.disk, output.destination;
            var original := old(disk.files.Read(destination));
            && disk.Valid() && old(disk.states) <= disk.states
            && (r.Success? ==> disk.files.Read(destination) == Some(contents))
            && OthersKept(old(disk.files), disk.files, destination, old(output.temporary).value)
            && (old(output.Apart()) ==>
                  && (r.Failure? ==> disk.files.Read(destination) == original)
                  && IntactSince(disk, |old(disk.states)| - 1, destination, original, contents))
            && (old(disk.faults) == [] ==> r.Success?)
  {
    ghost var disk, destination, added, apart := output.disk, output.destination, output.disk.files, output.Apart();
    ghost var from, original, path := |disk.states| - 1, added.Read(destination), output.temporary.value;
    assert [] + contents == contents;
    r := output.Write(contents);
    ghost var written, states := disk.files, disk.states;
    output.Drop();
    DroppingKeepsOthers(added, written, disk.files, destination, path);
    if apart {
      if r.Failure? {
        SettledIsIntact(disk.files, destination, contents);
      }
      IntactSnoc(disk, states, from, destination, original, contents);
    }
  }

  lemma IntactFrom(disk: Disk, from: nat, p: Path, original: Option<bytes>, contents: bytes)
    requires disk.Valid() && from < |disk.states| && Intact(disk.states[from], p, original, contents)
    requires IntactSince(disk, from + 1, p, original, contents)
    ensures IntactSince(disk, from, p, original, contents)
  {
  }

  /**
   The life of an output: every state keeps the destination intact if and only
   if the temporary name is not the destination itself, and that name is the
   first free one.
   */
  method Replace(disk: Disk, destination: Path, candidates: seq<Path>, contents: bytes)
    returns (r: Result<(), OutputError>, ghost temporary: Option<Path>)
    requires disk.Valid() && |candidates| == 8 && Settled(disk.files, destination)
    modifies disk
    ensures disk.Valid() && old(disk.states) <= disk.states
    ensures temporary.Some? ==> temporary == FirstFree(old(disk.files.names), candidates)
    ensures IntactSince(disk, |old(disk.states)| - 1, destination, old(disk.files.Read(destination)), contents)
       <==> temporary != Some(destination)
    ensures r.Success? ==> temporary.Some? && disk.files.Read(destination) == Some(contents)
    ensures r.Failure? && temporary != Some(destination) ==>
              disk.files.Read(destination) == old(disk.files.Read(destination))
    ensures forall p | p in old(disk.files.names) && p != destination ::
              disk.files.Read(p) == old(disk.files.Read(p))
    ensures old(disk.faults) == [] ==>
              && temporary == FirstFree(old(disk.files.names), candidates)
              && (r.Success? <==> temporary.Some?)
  {
    ghost var before, original := disk.files, disk.files.Read(destination);
    ghost var from := |disk.states| - 1;
    SettledIsIntact(disk.files, destination, contents);
    var prepared := Output.Prepare(disk, destination, candidates);
    if prepared.Failure? {
      return Failure(prepared.error), None;
    }
    var output := prepared.value;
    temporary := output.temporary;
    ghost var added := disk.files;
    assert Added(before, added, temporary.value);
    r := WriteAndDrop(output, contents);
    OthersKeptThroughout(before, added, disk.files, destination, temporary.value);
    assert disk.states[from + 1] == added;
    if temporary == Some(destination) {
      UnsyncedIsNotIntact(added, destination, original, contents);
    } else {
      IntactFrom(disk, from, destination, original, contents);
    }
  }

  /** Where `Write` falls short: after a failed sync, writing again publishes the contents twice. */
  method RetriedWrite(output: Output, contents: bytes)
    returns (first: Result<(), OutputError>, second: Result<(), OutputError>)
    requires output.Prepared() && output.Held() == [] && contents != []
    requires output.disk.faults == [NoFault, FailsAfter(0)]
    modifies output, output.disk
    ensures first == Failure(Io) && second.Success? && output.disk.Valid()
    ensures output.disk.files.Read(output.destination) == Some(contents + contents)
  {
    assert [] + contents == contents;
    ghost var faults := output.disk.faults;
    assert OtherFaults(faults) == [FailsAfter(0)] && OtherFaults([FailsAfter(0)]) == [];
    first := output.Write(contents);
    assert output.disk.faults == [] && output.Held() == contents;
    second := output.Write(contents);
  }
}
