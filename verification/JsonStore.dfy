/** Replacing a JSON file so that no failure and no crash can tear it (json_store.rs). */
module JsonStore {
  import opened Words
  import opened Wrappers

  /** A file's bytes, and whether they have been forced to disk. */
  datatype FileState = FileState(bytes: seq<byte>, durable: bool)
  type Disk = map<string, FileState>

  /** Which IO calls fail, and how much of a failing write reaches the file. */
  datatype Faults = Faults(
    createDir: bool, open: bool, write: bool, written: nat, fsync: bool, close: bool, rename: bool, remove: bool)

  /**
   What can be found of a disk: its durable files as they were, of the others some, with anything at
   all in them, and no others.
   */
  ghost predicate FoundOf(disk: Disk, found: Disk) {
    forall path ::
      && (path in found ==> path in disk)
      && (path in disk && disk[path].durable ==> path in found && found[path].bytes == disk[path].bytes)
  }

  /**
   What a machine finds after a crash: forcing a file to disk does not force the directory, so the
   creations, renames and removals since some earlier moment may be gone.
   */
  ghost predicate CrashOf(before: Disk, trail: seq<Disk>, since: nat, i: nat, found: Disk) {
    || FoundOf(before, found)
    || exists j :: since <= j <= i && j < |trail| && FoundOf(trail[j], found)
  }

  /** What of a write reaches the file. */
  function Landed(data: seq<byte>, fails: bool, written: nat): seq<byte> {
    if fails && written < |data| then data[..written] else data
  }

  class JsonIo {
    var disk: Disk
    var handles: map<nat, string>
    var nextHandle: nat
    /** Every disk state this IO has passed through: the places a crash can strike. */
    ghost var trail: seq<Disk>

    ghost predicate Valid()
      reads this
    {
      forall h :: h in handles ==> h < nextHandle
    }

    method Open(path: string, fails: bool) returns (r: Option<nat>)
      requires Valid()
      modifies this
      ensures Valid() && trail == old(trail) + [disk] && r.None? == fails
      ensures r.Some? ==> r.value !in old(handles) && handles == old(handles)[r.value := path]
      ensures r.Some? ==> disk == old(disk)[path := FileState([], false)]
      ensures r.None? ==> handles == old(handles) && disk == old(disk)
    {
      if fails {
        r := None;
      } else {
        r := Some(nextHandle);
        handles := handles[nextHandle := path];
        nextHandle := nextHandle + 1;
        disk := disk[path := FileState([], false)];
      }
      trail := trail + [disk];
    }

    method Write(handle: nat, data: seq<byte>, fails: bool, written: nat) returns (ok: bool)
      requires Valid() && handle in handles && handles[handle] in disk
      modifies this`disk, this`trail
      ensures trail == old(trail) + [disk] && ok == !fails
      ensures var path := handles[handle];
              disk == old(disk)[path := FileState(old(disk)[path].bytes + Landed(data, fails, written), false)]
    {
      var path := handles[handle];
      disk := disk[path := FileState(disk[path].bytes + Landed(data, fails, written), false)];
      trail := trail + [disk];
      ok := !fails;
    }

    method Fsync(handle: nat, fails: bool) returns (ok: bool)
      requires Valid() && handle in handles && handles[handle] in disk
      modifies this`disk, this`trail
      ensures trail == old(trail) + [disk] && ok == !fails
      ensures disk == if fails then old(disk) else old(disk)[handles[handle] := old(disk)[handles[handle]].(durable := true)]
    {
      if !fails {
        disk := disk[handles[handle] := disk[handles[handle]].(durable := true)];
      }
      trail := trail + [disk];
      ok := !fails;
    }

    /** A close that reports a failure has let go of the handle all the same. */
    method Close(handle: nat, fails: bool) returns (ok: bool)
      requires Valid()
      modifies this`handles, this`trail
      ensures Valid() && handles == old(handles) - {handle} && trail == old(trail) + [disk] && ok == !fails
    {
      handles := handles - {handle};
      trail := trail + [disk];
      ok := !fails;
    }

    method Rename(source: string, target: string, fails: bool) returns (ok: bool)
      requires Valid() && source in disk && source != target
      modifies this`disk, this`trail
      ensures trail == old(trail) + [disk] && ok == !fails
      ensures disk == if fails then old(disk) else (old(disk) - {source})[target := old(disk)[source]]
    {
      if !fails {
        disk := (disk - {source})[target := disk[source]];
      }
      trail := trail + [disk];
      ok := !fails;
    }

    method Remove(path: string, fails: bool)
      requires Valid()
      modifies this`disk, this`trail
      ensures trail == old(trail) + [disk] && disk == if fails then old(disk) else old(disk) - {path}
    {
      if !fails {
        disk := disk - {path};
      }
      trail := trail + [disk];
    }
  }

  /** The target is exactly what it was, or exactly the new document, on disk. */
  ghost predicate OldOrNew(before: Disk, now: Disk, target: string, text: Option<seq<byte>>) {
    || ((target in now <==> target in before) && (target in now ==> now[target] == before[target]))
    || (text.Some? && target in now && now[target] == FileState(text.value, true))
  }

  ghost predicate SameButFor(a: Disk, b: Disk, paths: set<string>) {
    a - paths == b - paths
  }

  ghost predicate TrailIsSafe(trail: seq<Disk>, since: nat, before: Disk, target: string, text: Option<seq<byte>>) {
    since <= |trail| && forall i :: since <= i < |trail| ==> OldOrNew(before, trail[i], target, text)
  }

  ghost predicate Within(before: Disk, now: Disk, temp: string) {
    SameButFor(before, now, {temp})
  }

  lemma TrailGrows(trail: seq<Disk>, since: nat, before: Disk, temp: string, target: string, text: Option<seq<byte>>, disk: Disk)
    requires TrailIsSafe(trail, since, before, target, text) && Within(before, disk, temp) && target != temp
    ensures TrailIsSafe(trail + [disk], since, before, target, text)
  {
    TargetStays(before, disk, temp, target);
  }

  lemma TargetStays(before: Disk, disk: Disk, temp: string, target: string)
    requires Within(before, disk, temp) && target != temp
    ensures target in disk <==> target in before
    ensures target in disk ==> disk[target] == before[target]
  {
    assert target in (before - {temp}) <==> target in (disk - {temp});
    assert target in before ==> (before - {temp})[target] == before[target];
    assert target in disk ==> (disk - {temp})[target] == disk[target];
  }

  lemma TempWritten(before: Disk, disk: Disk, temp: string, state: FileState)
    requires Within(before, disk, temp)
    ensures Within(before, disk[temp := state], temp) && Within(before, disk - {temp}, temp)
  {
    assert disk[temp := state] - {temp} == disk - {temp};
    assert disk - {temp} - {temp} == disk - {temp};
  }

  /** The temp file written, forced to disk and closed, as far as the faults let it. */
  method WriteTemp(
    io: JsonIo, handle: nat, ghost before: Disk, target: string, temp: string, text: Option<seq<byte>>, faults: Faults,
    ghost since: nat)
    returns (written: bool)
    requires io.Valid() && handle in io.handles && io.handles[handle] == temp && target != temp
    requires temp in io.disk && io.disk[temp].bytes == [] && Within(before, io.disk, temp)
    requires TrailIsSafe(io.trail, since, before, target, text)
    modifies io
    ensures io.Valid() && io.handles == old(io.handles) - {handle} && Within(before, io.disk, temp)
    ensures TrailIsSafe(io.trail, since, before, target, text)
    ensures written <==> text.Some? && !faults.write && !faults.fsync && !faults.close
    ensures written ==> temp in io.disk && io.disk[temp] == FileState(text.value, true)
  {
    hide TrailIsSafe, Within;
    written := false;
    if text.Some? {
      var landed := Landed(text.value, faults.write, faults.written);
      TempWritten(before, io.disk, temp, FileState(io.disk[temp].bytes + landed, false));
      ghost var trail := io.trail;
      written := io.Write(handle, text.value, faults.write, faults.written);
      TrailGrows(trail, since, before, temp, target, text, io.disk);
      if written {
        assert [] + text.value == text.value;
        TempWritten(before, io.disk, temp, io.disk[temp].(durable := true));
        trail := io.trail;
        written := io.Fsync(handle, faults.fsync);
        TrailGrows(trail, since, before, temp, target, text, io.disk);
      }
    }
    TrailGrows(io.trail, since, before, temp, target, text, io.disk);
    var closed := io.Close(handle, faults.close);
    written := written && closed;
  }

  lemma Renamed(before: Disk, disk: Disk, temp: string, target: string, text: seq<byte>)
    requires Within(before, disk, temp) && target != temp && temp in disk && disk[temp] == FileState(text, true)
    ensures var after := (disk - {temp})[target := disk[temp]];
            && OldOrNew(before, after, target, Some(text)) && temp !in after
            && SameButFor(after, before, {target, temp})
  {
    var after := (disk - {temp})[target := disk[temp]];
    assert after - {target, temp} == disk - {temp} - {target};
    assert before - {target, temp} == before - {temp} - {target};
  }

  lemma WithinBoth(before: Disk, disk: Disk, temp: string, target: string)
    requires Within(before, disk, temp)
    ensures SameButFor(disk, before, {target, temp})
  {
    assert disk - {target, temp} == disk - {temp} - {target};
    assert before - {target, temp} == before - {temp} - {target};
  }

  /**
   Writes through a temp file. `text` is the serialized value, `None` where serializing fails. An
   error leaves the target as it was, success leaves the new document, every handle is closed, and
   at no point in between is the target anything but the old or the new document.
   */
  method WriteJsonFileWith(io: JsonIo, target: string, temp: string, text: Option<seq<byte>>, faults: Faults) returns (ok: bool)
    requires io.Valid() && target != temp
    modifies io
    ensures io.Valid() && io.handles == old(io.handles)
    ensures TrailIsSafe(io.trail, |old(io.trail)|, old(io.disk), target, text)
    ensures ok <==> text.Some? && !faults.createDir && !faults.open && !faults.write && !faults.fsync && !faults.close && !faults.rename
    ensures ok ==> target in io.disk && io.disk[target] == FileState(text.value, true) && temp !in io.disk
    ensures !ok ==> (target in io.disk <==> target in old(io.disk)) && (target in io.disk ==> io.disk[target] == old(io.disk)[target])
    ensures !ok && !faults.remove && !faults.createDir ==> temp !in io.disk
    ensures SameButFor(io.disk, old(io.disk), {target, temp})
  {
    hide Within, SameButFor, OldOrNew;
    ghost var before, since := io.disk, |io.trail|;
    assert Within(before, before, temp) by { NothingWritten(before, temp); }
    if faults.createDir {
      WithinBoth(before, before, temp, target);
      return false;
    }
    TempWritten(before, io.disk, temp, FileState([], false));
    TrailGrows(io.trail, since, before, temp, target, text, if faults.open then io.disk else io.disk[temp := FileState([], false)]);
    var handle := io.Open(temp, faults.open);
    if handle.Some? {
      ghost var withOurs := io.handles;
      var written := WriteTemp(io, handle.value, before, target, temp, text, faults, since);
      assert io.handles == withOurs - {handle.value} == old(io.handles);
      if written {
        Renamed(before, io.disk, temp, target, text.value);
        TrailGrows(io.trail, since, before, temp, target, text, io.disk);
        ok := io.Rename(temp, target, faults.rename);
        if ok {
          return;
        }
      }
    }
    TempWritten(before, io.disk, temp, FileState([], false));
    TrailGrows(io.trail, since, before, temp, target, text, if faults.remove then io.disk else io.disk - {temp});
    io.Remove(temp, faults.remove);
    WithinBoth(before, io.disk, temp, target);
    TargetStays(before, io.disk, temp, target);
    ok := false;
  }

  lemma NothingWritten(before: Disk, temp: string)
    ensures Within(before, before, temp)
  {
  }

  /** The bytes of a document, or that there is none. */
  function DocumentIn(disk: Disk, target: string): Option<seq<byte>> {
    if target in disk then Some(disk[target].bytes) else None
  }

  lemma FoundOldOrNew(before: Disk, disk: Disk, target: string, text: Option<seq<byte>>, found: Disk)
    requires OldOrNew(before, disk, target, text) && FoundOf(disk, found)
    requires target in before ==> before[target].durable
    ensures DocumentIn(found, target) == DocumentIn(before, target) || (text.Some? && DocumentIn(found, target) == text)
  {
    assert target in found ==> target in disk;
    assert target in disk ==> disk[target].durable;
  }

  /**
   Wherever in the write the machine stops, and however much of the directory it forgets, it comes
   back with the old document or the new one; on a first write, with none or the new one.
   */
  lemma CrashLeavesOldOrNew(
    trail: seq<Disk>, since: nat, before: Disk, target: string, text: Option<seq<byte>>, i: nat, found: Disk)
    requires TrailIsSafe(trail, since, before, target, text) && since <= i < |trail|
    requires CrashOf(before, trail, since, i, found)
    requires target in before ==> before[target].durable
    ensures DocumentIn(found, target) == DocumentIn(before, target) || (text.Some? && DocumentIn(found, target) == text)
  {
    hide FoundOf, OldOrNew;
    if FoundOf(before, found) {
      assert OldOrNew(before, before, target, text) by { StillOld(before, target, text); }
      FoundOldOrNew(before, before, target, text, found);
    } else {
      var j :| since <= j <= i && j < |trail| && FoundOf(trail[j], found);
      FoundOldOrNew(before, trail[j], target, text, found);
    }
  }

  lemma StillOld(before: Disk, target: string, text: Option<seq<byte>>)
    ensures OldOrNew(before, before, target, text)
  {
  }
}
