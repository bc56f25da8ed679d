/** Files with crash semantics: what a name can refer to, and hold, after power is lost. */
module FileSystem {
  import opened Wrappers
  import opened Radix

  type Path = string

  /**
   `names` is the directory as processes see it and `durable` the directory on
   disk; `data` is what each file (by identity) holds and `synced` the files
   whose data is on disk.
   */
  datatype Files = Files(names: map<Path, nat>, durable: map<Path, nat>, data: map<nat, bytes>, synced: set<nat>) {

    /** Every name refers to a file. */
    ghost predicate Valid() {
      && (forall p | p in names :: names[p] in data)
      && (forall p | p in durable :: durable[p] in data)
      && synced <= data.Keys
    }

    /** What a process reads under a name now. */
    function Read(p: Path): Option<bytes>
      requires Valid()
    {
      if p in names then Some(data[names[p]]) else None
    }

    /** What may be found under a name after a crash: unsynced data may be anything. */
    ghost predicate MayFind(p: Path, found: Option<bytes>)
      requires Valid()
    {
      || MayHold(if p in names then Some(names[p]) else None, found)
      || MayHold(if p in durable then Some(durable[p]) else None, found)
    }

    ghost predicate MayHold(file: Option<nat>, found: Option<bytes>)
      requires file.Some? ==> file.value in data
    {
      match file
      case None => found == None
      case Some(id) => found.Some? && (id in synced ==> found.value == data[id])
    }
  }

  datatype Creation = Created(id: nat) | AlreadyExists | CreateFailed

  /** How a call goes: it completes, or it fails, a write after so many octets. */
  datatype Fault = NoFault | FailsAfter(octets: nat)

  /** What befalls the next call; once the script is over, every call completes. */
  function FirstFault(faults: seq<Fault>): Fault {
    if |faults| == 0 then NoFault else faults[0]
  }

  function OtherFaults(faults: seq<Fault>): seq<Fault> {
    if |faults| == 0 then [] else faults[1..]
  }

  /** What of a write gets into the file. */
  function Landed(contents: bytes, fault: Fault): bytes {
    if fault.FailsAfter? && fault.octets < |contents| then contents[..fault.octets] else contents
  }

  /** New data at the end of a file is not on disk at first. */
  function AfterWrite(files: Files, id: nat, landed: bytes): Files
    requires id in files.data
  {
    files.(data := files.data[id := files.data[id] + landed], synced := files.synced - {id})
  }

  /** No file but `id` holds anything new. */
  ghost predicate OnlyChanges(before: Files, after: Files, id: nat) {
    && after.data.Keys == before.data.Keys
    && forall other | other in before.data && other != id :: after.data[other] == before.data[other]
  }

  class Disk {
    var files: Files
    var faults: seq<Fault>
    ghost var states: seq<Files>            // every state so far, the current one last

    ghost predicate Valid()
      reads this
    {
      && files.Valid() && |states| > 0 && states[|states| - 1] == files
      && forall i | 0 <= i < |states| :: states[i].Valid()
    }

    constructor (files: Files, faults: seq<Fault>)
      requires files.Valid()
      ensures Valid() && this.files == files && this.faults == faults && states == [files]
    {
      this.files, this.faults, states := files, faults, [files];
    }

    method NextFault() returns (fault: Fault)
      modifies this`faults
      ensures fault == FirstFault(old(faults)) && faults == OtherFaults(old(faults))
    {
      fault := FirstFault(faults);
      faults := OtherFaults(faults);
    }

    ghost method Record()
      requires files.Valid() && forall i | 0 <= i < |states| :: states[i].Valid()
      modifies this`states
      ensures states == old(states) + [files] && Valid()
    {
      states := states + [files];
    }

    /** Opens a new, empty file; never one that exists. */
    method CreateNew(p: Path) returns (r: Creation)
      requires Valid()
      modifies this
      ensures Valid()
      ensures !r.Created? ==> files == old(files) && states == old(states)
      ensures r == AlreadyExists <==> p in old(files).names
      ensures r == AlreadyExists ==> faults == old(faults)
      ensures r.Created? ==>
                && p !in old(files).names && r.id !in old(files).data
                && files == old(files).(names := old(files).names[p := r.id],
                                        data := old(files).data[r.id := []])
                && states == old(states) + [files]
      ensures old(faults) == [] ==> faults == [] && (r.Created? <==> p !in old(files).names)
    {
      if p in files.names {
        return AlreadyExists;
      }
      var fault := NextFault();
      if fault.FailsAfter? {
        return CreateFailed;
      }
      SomeIdIsFree(files.data);
      var id: nat :| id !in files.data;
      files := files.(names := files.names[p := id], data := files.data[id := []]);
      Record();
      return Created(id);
    }

    /** Writes on where the file ends, all of the contents or less. */
    method WriteAll(id: nat, contents: bytes) returns (ok: bool)
      requires Valid() && id in files.data
      modifies this
      ensures Valid() && states == old(states) + [files]
      ensures files == AfterWrite(old(files), id, Landed(contents, FirstFault(old(faults))))
      ensures ok <==> FirstFault(old(faults)) == NoFault
      ensures faults == OtherFaults(old(faults))
    {
      var fault := NextFault();
      ok := fault.NoFault?;
      files := AfterWrite(files, id, Landed(contents, fault));
      Record();
    }

    /** Puts a file's data on disk. */
    method SyncFile(id: nat) returns (ok: bool)
      requires Valid() && id in files.data
      modifies this
      ensures Valid() && states == old(states) + [files]
      ensures files == if ok then old(files).(synced := old(files).synced + {id}) else old(files)
      ensures ok <==> FirstFault(old(faults)) == NoFault
      ensures faults == OtherFaults(old(faults))
    {
      var fault := NextFault();
      ok := fault.NoFault?;
      if ok {
        files := files.(synced := files.synced + {id});
      }
      Record();
    }

    /** Puts the directory on disk. */
    method SyncDirectory() returns (ok: bool)
      requires Valid()
      modifies this
      ensures Valid() && states == old(states) + [files]
      ensures files == if ok then old(files).(durable := old(files).names) else old(files)
      ensures ok <==> FirstFault(old(faults)) == NoFault
      ensures faults == OtherFaults(old(faults))
    {
      var fault := NextFault();
      ok := fault.NoFault?;
      if ok {
        files := files.(durable := files.names);
      }
      Record();
    }

    /** Replaces `to` by `from` in one step, or does nothing. */
    method Rename(from: Path, to: Path) returns (ok: bool)
      requires Valid() && from in files.names
      modifies this
      ensures Valid() && states == old(states) + [files]
      ensures files == if ok then old(files).(names := (old(files).names - {from})[to := old(files).names[from]])
                       else old(files)
      ensures ok <==> FirstFault(old(faults)) == NoFault
      ensures faults == OtherFaults(old(faults))
    {
      var fault := NextFault();
      ok := fault.NoFault?;
      if ok {
        files := files.(names := (files.names - {from})[to := files.names[from]]);
      }
      Record();
    }

    /** Removes a name, or does nothing. */
    method Remove(p: Path) returns (ok: bool)
      requires Valid()
      modifies this
      ensures Valid() && states == old(states) + [files]
      ensures files == if ok then old(files).(names := old(files).names - {p}) else old(files)
      ensures ok <==> FirstFault(old(faults)) == NoFault && p in old(files).names
      ensures faults == OtherFaults(old(faults))
    {
      var fault := NextFault();
      ok := fault.NoFault? && p in files.names;
      if ok {
        files := files.(names := files.names - {p});
      }
      Record();
    }
  }

  /** Finitely many numbers are taken. */
  lemma {:induction false} Bound(ids: set<nat>) returns (n: nat)
    ensures forall i | i in ids :: i < n
  {
    n := 0;
    if ids != {} {
      var i :| i in ids;
      var m := Bound(ids - {i});
      n := if i < m then m else i + 1;
      assert forall j | j in ids :: j == i || j in ids - {i};
    }
  }

  lemma SomeIdIsFree(data: map<nat, bytes>)
    ensures exists id: nat :: id !in data
  {
    var n := Bound(data.Keys);
    assert n !in data;
  }
}
