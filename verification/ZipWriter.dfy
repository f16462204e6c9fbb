/** The files a host keeps, by path. */
module FileStore {
  import opened Words

  class Files {
    var contents: map<string, seq<byte>>
  }
}

/** The entry-preserving rewriter (files/zip_write.rs). */
module ZipWriter {
  import opened Words
  import opened Wrappers
  import opened Utf8
  import opened ZipFormat
  import opened ZipReader
  import opened FileStore
  import Sorting
  import Crc

  /** What to change in a copy. */
  datatype Request = Request(drop: set<string>, replace: map<string, seq<byte>>)

  datatype RewriteError =
    | NotAnArchive(cause: ZipError)
    | InvalidRequest
    | Encrypted
    | Unrepresentable
    | Unreadable
    | MissingFile

  datatype Summary = Summary(kept: seq<string>, dropped: seq<string>, replaced: seq<string>)

  datatype Planned = Planned(source: ZipEntry, fields: CentralFields, replacement: Option<seq<byte>>)

  predicate IsEncrypted(flags: u16) { flags % 2 == 1 }

  /** Bit 3, the data descriptor, goes; every other flag stays. */
  function WithoutDescriptor(flags: u16): (f: u16)
    ensures f / 8 % 2 == 0 && f % 8 == flags % 8 && f / 16 == flags / 16
  {
    if flags / 8 % 2 == 1 then flags - 8 else flags
  }

  function Replacement(entry: ZipEntry, request: Request): Option<seq<byte>> {
    if entry.name in request.replace then Some(request.replace[entry.name]) else None
  }

  function CompressedSize(entry: ZipEntry, replacement: Option<seq<byte>>): nat {
    if replacement.Some? then |replacement.value| else entry.compressedSize
  }

  function UncompressedSize(entry: ZipEntry, replacement: Option<seq<byte>>): nat {
    if replacement.Some? then |replacement.value| else entry.uncompressedSize
  }

  /** What a record without zip64 can say; the all-ones values are sentinels, not sizes. */
  predicate Representable(entry: ZipEntry, replacement: Option<seq<byte>>, offset: nat) {
    && CompressedSize(entry, replacement) < U32_MAX
    && UncompressedSize(entry, replacement) < U32_MAX
    && offset < U32_MAX
    && |EncodeAll(entry.name)| <= U16_MAX
  }

  function Fields(entry: ZipEntry, replacement: Option<seq<byte>>, offset: nat): CentralFields
    requires Representable(entry, replacement, offset)
  {
    CentralFields(
      CommonFields(
        entry.versionNeeded,
        WithoutDescriptor(entry.flags),
        if replacement.Some? then 0 else entry.compression,
        entry.modTime,
        entry.modDate,
        if replacement.Some? then Crc.Crc32(replacement.value) else entry.crc,
        CompressedSize(entry, replacement),
        UncompressedSize(entry, replacement),
        EncodeAll(entry.name),
        []),
      entry.versionMadeBy,
      entry.internalAttributes,
      entry.externalAttributes,
      offset)
  }

  // ---- The plan -------------------------------------------------------------------------------

  function Surviving(entries: seq<ZipEntry>, drop: set<string>): seq<ZipEntry> {
    if entries == [] then []
    else (if entries[0].name in drop then [] else [entries[0]]) + Surviving(entries[1..], drop)
  }

  /** Entries laid out one behind the other from `offset`. */
  function Plan(entries: seq<ZipEntry>, request: Request, offset: nat): (r: Result<seq<Planned>, RewriteError>)
  {
    if entries == [] then Ok([])
    else
      var entry, replacement := entries[0], Replacement(entries[0], request);
      if IsEncrypted(entry.flags) then Err(Encrypted)
      else if !Representable(entry, replacement, offset) then Err(Unrepresentable)
      else
        var planned := Planned(entry, Fields(entry, replacement, offset), replacement);
        var rest :- Plan(entries[1..], request, offset + Room(planned));
        Ok([planned] + rest)
  }

  /** The bytes one planned entry takes: local header, name and payload. */
  function Room(planned: Planned): nat {
    LOCAL_MIN + |planned.fields.common.name| + planned.fields.common.compressedSize
  }

  function TotalRoom(plan: seq<Planned>): nat {
    if plan == [] then 0 else Room(plan[0]) + TotalRoom(plan[1..])
  }

  function Directory(plan: seq<Planned>): seq<byte> {
    if plan == [] then [] else CentralHeader(plan[0].fields) + Directory(plan[1..])
  }

  // ---- The payloads ---------------------------------------------------------------------------

  /** Where the compressed bytes start, or that the file is broken. */
  function CopyOffset(input: seq<byte>, entry: ZipEntry): Result<nat, RewriteError> {
    var at := entry.localHeaderOffset;
    if at + LOCAL_MIN > |input| || U32At(input, at) != LOCAL_SIG then Err(Unreadable)
    else Ok(at + LOCAL_MIN + U16At(input, at + 26) + U16At(input, at + 28))
  }

  function CompressedBytes(input: seq<byte>, entry: ZipEntry): Result<seq<byte>, RewriteError> {
    var from :- CopyOffset(input, entry);
    if from + entry.compressedSize > |input| then Err(Unreadable) else Ok(input[from..from + entry.compressedSize])
  }

  function Payload(input: seq<byte>, planned: Planned): Result<seq<byte>, RewriteError> {
    if planned.replacement.Some? then Ok(planned.replacement.value) else CompressedBytes(input, planned.source)
  }

  function Body(input: seq<byte>, plan: seq<Planned>): Result<seq<byte>, RewriteError> {
    if plan == [] then Ok([])
    else
      var payload :- Payload(input, plan[0]);
      var rest :- Body(input, plan[1..]);
      Ok(LocalHeader(plan[0].fields.common) + payload + rest)
  }

  // ---- Results --------------------------------------------------------------------------------

  function Dropped(entries: seq<ZipEntry>, drop: set<string>): seq<ZipEntry> {
    if entries == [] then []
    else (if entries[0].name in drop then [entries[0]] else []) + Dropped(entries[1..], drop)
  }

  function Replaced(entries: seq<ZipEntry>, replace: map<string, seq<byte>>): seq<ZipEntry> {
    if entries == [] then []
    else (if entries[0].name in replace then [entries[0]] else []) + Replaced(entries[1..], replace)
  }

  /** Names written, left out and replaced, in file order. */
  function Summarize(ordered: seq<ZipEntry>, request: Request): Summary {
    var surviving := Surviving(ordered, request.drop);
    Summary(Names(surviving), Names(Dropped(ordered, request.drop)), Names(Replaced(surviving, request.replace)))
  }

  // ---- The whole rewrite ----------------------------------------------------------------------

  predicate ByOffset(a: ZipEntry, b: ZipEntry) {
    a.localHeaderOffset <= b.localHeaderOffset
  }

  function InFileOrder(entries: seq<ZipEntry>): seq<ZipEntry> {
    Sorting.Sort(ByOffset, entries)
  }

  function Names(entries: seq<ZipEntry>): seq<string> {
    seq(|entries|, i requires 0 <= i < |entries| => entries[i].name)
  }

  /** The checks that run before the output exists, and the plan they let through. */
  function Accepted(input: seq<byte>, request: Request): Result<seq<Planned>, RewriteError> {
    match ZipReader.Directory(input)
    case Err(cause) => Err(NotAnArchive(cause))
    case Ok(entries) =>
      var ordered := InFileOrder(entries);
      if exists name :: name in request.replace && name !in Names(ordered) then Err(InvalidRequest)
      else
        var plan :- Plan(Surviving(ordered, request.drop), request, 0);
        if |plan| > MAX_NON_ZIP64_ENTRIES || TotalRoom(plan) >= U32_MAX || |Directory(plan)| >= U32_MAX then
          Err(Unrepresentable)
        else Ok(plan)
  }

  /** The archive a rewrite writes. */
  function Rewritten(input: seq<byte>, request: Request): Result<seq<byte>, RewriteError> {
    var plan :- Accepted(input, request);
    var body :- Body(input, plan);
    Ok(body + Directory(plan) + EndRecord(|plan|, |Directory(plan)|, TotalRoom(plan)))
  }

  // ---- The imperative rewriter ----------------------------------------------------------------

  const COPY_CHUNK_BYTES := 0x10_0000

  /** Copies one entry's compressed payload behind `out`, a bounded slice at a time. */
  method CopyEntryData(input: seq<byte>, out: seq<byte>, entry: ZipEntry) returns (r: Result<seq<byte>, RewriteError>)
    requires |input| < FILE_LIMIT
    ensures r == match CompressedBytes(input, entry) case Ok(bytes) => Ok(out + bytes) case Err(e) => Err(e)
  {
    var from :- CopyOffset(input, entry);
    var size := entry.compressedSize;
    if from + size > |input| {
      return Err(Unreadable);
    }
    var chunk := if size < 1 then 1 else if size > COPY_CHUNK_BYTES then COPY_CHUNK_BYTES else size;
    var written := out;
    var at: u64 := 0;
    assert out + input[from..from + at] == out;
    while at < size
      invariant at <= size && written == out + input[from..from + at]
    {
      var length := if size - at < chunk then size - at else chunk;
      var buffer := input[from + at..from + at + length];
      assert input[from..from + at] + buffer == input[from..from + at + length];
      written := written + buffer;
      at := at + length;
    }
    return Ok(written);
  }

  /** Everything the plan puts in front of the directory, behind `out`. */
  method WriteEntries(input: seq<byte>, plan: seq<Planned>) returns (r: Result<seq<byte>, RewriteError>)
    requires |input| < FILE_LIMIT
    ensures r == Body(input, plan)
  {
    hide CompressedBytes, LocalHeader;
    var out: seq<byte> := [];
    var i := 0;
    BodyStart(input, plan);
    assert plan[0..] == plan;
    while i < |plan|
      invariant i <= |plan|
      invariant Body(input, plan) == BodyAfter(out, input, plan[i..])
    {
      var planned := plan[i];
      BodyStep(out, input, plan[i..]);
      assert plan[i..][1..] == plan[i + 1..];
      var header := LocalHeaderBytes(planned.fields.common);
      out := out + header;
      if planned.replacement.Some? {
        out := out + planned.replacement.value;
      } else {
        out :- CopyEntryData(input, out, planned.source);
      }
      i := i + 1;
    }
    assert out + [] == out;
    return Ok(out);
  }

  function BodyAfter(out: seq<byte>, input: seq<byte>, plan: seq<Planned>): Result<seq<byte>, RewriteError> {
    var rest :- Body(input, plan);
    Ok(out + rest)
  }

  lemma BodyStart(input: seq<byte>, plan: seq<Planned>)
    ensures BodyAfter([], input, plan) == Body(input, plan)
  {
    hide Body;
    if Body(input, plan).Ok? {
      assert [] + Body(input, plan).value == Body(input, plan).value;
    }
  }

  lemma Regroup(a: seq<byte>, b: seq<byte>, c: seq<byte>, d: seq<byte>)
    ensures a + (b + c + d) == a + b + c + d
  {
  }

  lemma BodyStep(out: seq<byte>, input: seq<byte>, plan: seq<Planned>)
    requires plan != []
    ensures Payload(input, plan[0]).Err? ==> Body(input, plan) == Err(Payload(input, plan[0]).error)
    ensures Payload(input, plan[0]).Ok? ==>
              BodyAfter(out, input, plan)
              == BodyAfter(out + LocalHeader(plan[0].fields.common) + Payload(input, plan[0]).value, input, plan[1..])
  {
    hide Payload, LocalHeader;
    if Payload(input, plan[0]).Ok? && Body(input, plan[1..]).Ok? {
      Regroup(out, LocalHeader(plan[0].fields.common), Payload(input, plan[0]).value, Body(input, plan[1..]).value);
    }
  }

  function PlanAfter(plan: seq<Planned>, rest: Result<seq<Planned>, RewriteError>): Result<seq<Planned>, RewriteError> {
    var more :- rest;
    Ok(plan + more)
  }

  /** Unfolds every walk over the entries by the first of them. */
  lemma FirstEntry(entries: seq<ZipEntry>, request: Request)
    requires entries != []
    ensures var dropped := entries[0].name in request.drop;
            && Surviving(entries, request.drop) == (if dropped then [] else [entries[0]]) + Surviving(entries[1..], request.drop)
            && Dropped(entries, request.drop) == (if dropped then [entries[0]] else []) + Dropped(entries[1..], request.drop)
  {
  }

  lemma PlanCons(plan: seq<Planned>, entry: ZipEntry, rest: seq<ZipEntry>, request: Request, offset: nat)
    requires !IsEncrypted(entry.flags) && Representable(entry, Replacement(entry, request), offset)
    ensures var planned := Planned(entry, Fields(entry, Replacement(entry, request), offset), Replacement(entry, request));
            PlanAfter(plan, Plan([entry] + rest, request, offset))
            == PlanAfter(plan + [planned], Plan(rest, request, offset + Room(planned)))
  {
    hide Fields, Representable, Replacement, Room;
    assert ([entry] + rest)[1..] == rest;
    var planned := Planned(entry, Fields(entry, Replacement(entry, request), offset), Replacement(entry, request));
    var more := Plan(rest, request, offset + Room(planned));
    if more.Ok? {
      assert plan + ([planned] + more.value) == plan + [planned] + more.value;
    }
  }

  lemma {:induction false} TotalRoomAppend(plan: seq<Planned>, planned: Planned)
    ensures TotalRoom(plan + [planned]) == TotalRoom(plan) + Room(planned)
  {
    if plan != [] {
      assert (plan + [planned])[1..] == plan[1..] + [planned];
      TotalRoomAppend(plan[1..], planned);
    }
  }

  /** One turn of the planning loop, on what it has accumulated so far. */
  ghost predicate PlanningState(
    ordered: seq<ZipEntry>, request: Request, i: nat,
    plan: seq<Planned>, offset: nat, dropped: seq<ZipEntry>, survived: seq<ZipEntry>)
  {
    && i <= |ordered|
    && Plan(Surviving(ordered, request.drop), request, 0)
       == PlanAfter(plan, Plan(Surviving(ordered[i..], request.drop), request, offset))
    && offset == TotalRoom(plan)
    && Dropped(ordered, request.drop) == dropped + Dropped(ordered[i..], request.drop)
    && Surviving(ordered, request.drop) == survived + Surviving(ordered[i..], request.drop)
  }

  lemma PlanningStarts(ordered: seq<ZipEntry>, request: Request)
    ensures PlanningState(ordered, request, 0, [], 0, [], [])
  {
    hide Plan, Surviving, Dropped;
    assert ordered[0..] == ordered;
    var whole := Plan(Surviving(ordered, request.drop), request, 0);
    if whole.Ok? {
      assert [] + whole.value == whole.value;
    }
  }

  lemma PlanningDrops(
    ordered: seq<ZipEntry>, request: Request, i: nat,
    plan: seq<Planned>, offset: nat, dropped: seq<ZipEntry>, survived: seq<ZipEntry>)
    requires PlanningState(ordered, request, i, plan, offset, dropped, survived)
    requires i < |ordered| && ordered[i].name in request.drop
    ensures PlanningState(ordered, request, i + 1, plan, offset, dropped + [ordered[i]], survived)
  {
    hide Plan;
    var rest := ordered[i + 1..];
    assert ordered[i..][1..] == rest;
    FirstEntry(ordered[i..], request);
    assert [] + Surviving(rest, request.drop) == Surviving(rest, request.drop);
    assert dropped + ([ordered[i]] + Dropped(rest, request.drop)) == dropped + [ordered[i]] + Dropped(rest, request.drop);
  }

  lemma PlanningKeeps(
    ordered: seq<ZipEntry>, request: Request, i: nat,
    plan: seq<Planned>, offset: nat, dropped: seq<ZipEntry>, survived: seq<ZipEntry>)
    requires PlanningState(ordered, request, i, plan, offset, dropped, survived)
    requires i < |ordered| && ordered[i].name !in request.drop
    requires !IsEncrypted(ordered[i].flags) && Representable(ordered[i], Replacement(ordered[i], request), offset)
    ensures var replacement := Replacement(ordered[i], request);
            var planned := Planned(ordered[i], Fields(ordered[i], replacement, offset), replacement);
            PlanningState(ordered, request, i + 1, plan + [planned], offset + Room(planned), dropped, survived + [ordered[i]])
  {
    hide Plan, Fields, Representable, Replacement, Room;
    var entry, rest := ordered[i], ordered[i + 1..];
    assert ordered[i..][1..] == rest;
    FirstEntry(ordered[i..], request);
    PlanCons(plan, entry, Surviving(rest, request.drop), request, offset);
    var planned := Planned(entry, Fields(entry, Replacement(entry, request), offset), Replacement(entry, request));
    TotalRoomAppend(plan, planned);
    assert [] + Dropped(rest, request.drop) == Dropped(rest, request.drop);
    assert survived + ([entry] + Surviving(rest, request.drop)) == survived + [entry] + Surviving(rest, request.drop);
  }

  lemma PlanningFails(
    ordered: seq<ZipEntry>, request: Request, i: nat,
    plan: seq<Planned>, offset: nat, dropped: seq<ZipEntry>, survived: seq<ZipEntry>)
    requires PlanningState(ordered, request, i, plan, offset, dropped, survived)
    requires i < |ordered| && ordered[i].name !in request.drop
    requires IsEncrypted(ordered[i].flags) || !Representable(ordered[i], Replacement(ordered[i], request), offset)
    ensures Plan(Surviving(ordered, request.drop), request, 0) == Err(if IsEncrypted(ordered[i].flags) then Encrypted else Unrepresentable)
  {
    hide Fields, Representable, Replacement, Room;
    FirstEntry(ordered[i..], request);
  }

  datatype Planning = Planning(plan: seq<Planned>, offset: u64, dropped: seq<string>, replaced: seq<string>)

  /** The planning loop: drop, refuse, or lay out one entry after another. */
  method MakePlan(ordered: seq<ZipEntry>, request: Request) returns (r: Result<Planning, RewriteError>)
    ensures r.Ok? <==> Plan(Surviving(ordered, request.drop), request, 0).Ok?
    ensures r.Err? ==> r.error == Plan(Surviving(ordered, request.drop), request, 0).error
    ensures r.Ok? ==>
              && r.value.plan == Plan(Surviving(ordered, request.drop), request, 0).value
              && r.value.offset == TotalRoom(r.value.plan)
              && r.value.dropped == Summarize(ordered, request).dropped
              && r.value.replaced == Summarize(ordered, request).replaced
  {
    hide Fields, Replacement, Plan, PlanningState, Representable;
    var plan: seq<Planned>, offset: u64 := [], 0;
    var dropped: seq<string>, replaced: seq<string> := [], [];
    ghost var droppedEntries: seq<ZipEntry>, survived: seq<ZipEntry> := [], [];
    PlanningStarts(ordered, request);
    var i := 0;
    while i < |ordered|
      invariant i <= |ordered|
      invariant PlanningState(ordered, request, i, plan, offset, droppedEntries, survived)
      invariant dropped == Names(droppedEntries) && replaced == Names(Replaced(survived, request.replace))
      invariant offset <= 2 * U32_MAX + LOCAL_MIN + U16_MAX
    {
      var entry := ordered[i];
      if entry.name in request.drop {
        PlanningDrops(ordered, request, i, plan, offset, droppedEntries, survived);
        dropped := dropped + [entry.name];
        droppedEntries := droppedEntries + [entry];
      } else {
        if IsEncrypted(entry.flags) {
          PlanningFails(ordered, request, i, plan, offset, droppedEntries, survived);
          return Err(Encrypted);
        }
        var replacement := Replacement(entry, request);
        if !Representable(entry, replacement, offset) {
          PlanningFails(ordered, request, i, plan, offset, droppedEntries, survived);
          return Err(Unrepresentable);
        }
        PlanningKeeps(ordered, request, i, plan, offset, droppedEntries, survived);
        ReplacedAppend(survived, entry, request);
        if replacement.Some? {
          replaced := replaced + [entry.name];
        }
        survived := survived + [entry];
        var planned := Planned(entry, Fields(entry, replacement, offset), replacement);
        RoomBounded(entry, replacement, offset);
        plan := plan + [planned];
        offset := offset + Room(planned);
      }
      i := i + 1;
    }
    PlanningEnds(ordered, request, plan, offset, droppedEntries, survived);
    return Ok(Planning(plan, offset, dropped, replaced));
  }

  lemma RoomBounded(entry: ZipEntry, replacement: Option<seq<byte>>, offset: nat)
    requires Representable(entry, replacement, offset)
    ensures offset < U32_MAX && Room(Planned(entry, Fields(entry, replacement, offset), replacement)) <= LOCAL_MIN + U16_MAX + U32_MAX
  {
  }

  lemma {:induction false} ReplacedAppend(survived: seq<ZipEntry>, entry: ZipEntry, request: Request)
    ensures Replaced(survived + [entry], request.replace)
            == Replaced(survived, request.replace) + (if Replacement(entry, request).Some? then [entry] else [])
  {
    if survived != [] {
      assert (survived + [entry])[1..] == survived[1..] + [entry];
      ReplacedAppend(survived[1..], entry, request);
    }
  }

  lemma PlanningEnds(
    ordered: seq<ZipEntry>, request: Request,
    plan: seq<Planned>, offset: nat, dropped: seq<ZipEntry>, survived: seq<ZipEntry>)
    requires PlanningState(ordered, request, |ordered|, plan, offset, dropped, survived)
    ensures Plan(Surviving(ordered, request.drop), request, 0) == Ok(plan) && offset == TotalRoom(plan)
    ensures dropped == Dropped(ordered, request.drop) && survived == Surviving(ordered, request.drop)
  {
    assert ordered[|ordered|..] == [];
    assert plan + [] == plan && dropped + [] == dropped && survived + [] == survived;
  }

  lemma {:induction false} PlanKeepsSources(entries: seq<ZipEntry>, request: Request, offset: nat)
    requires Plan(entries, request, offset).Ok?
    ensures var plan := Plan(entries, request, offset).value;
            |plan| == |entries| && forall k :: 0 <= k < |plan| ==> plan[k].source == entries[k]
  {
    hide Fields, Representable, Replacement;
    if entries != [] {
      var replacement := Replacement(entries[0], request);
      PlanKeepsSources(entries[1..], request, offset + Room(Planned(entries[0], Fields(entries[0], replacement, offset), replacement)));
    }
  }

  /** The directory records, one after another. */
  method CentralRecords(plan: seq<Planned>) returns (central: seq<byte>)
    ensures central == Directory(plan)
  {
    hide CentralHeader;
    central := [];
    assert plan[0..] == plan;
    assert [] + Directory(plan) == Directory(plan);
    for i := 0 to |plan|
      invariant Directory(plan) == central + Directory(plan[i..])
    {
      assert plan[i..][1..] == plan[i + 1..];
      var record := CentralHeaderBytes(plan[i].fields);
      assert central + (record + Directory(plan[i + 1..])) == central + record + Directory(plan[i + 1..]);
      central := central + record;
    }
    assert central + [] == central;
  }

  /**
   Writes a copy of `input` at `output` with the request applied. Every check that can run before
   the output exists does, and leaves the files as they were; a failure during the copy removes
   what had been written.
   */
  method RewriteZip(files: Files, input: string, output: string, request: Request) returns (r: Result<Summary, RewriteError>)
    requires input != output
    requires input in files.contents ==> |files.contents[input]| < FILE_LIMIT
    modifies files
    ensures input !in old(files.contents) ==> r == Err(MissingFile) && files.contents == old(files.contents)
    ensures input in old(files.contents) ==>
              var bytes := old(files.contents)[input];
              && (r.Ok? <==> Rewritten(bytes, request).Ok?)
              && (r.Ok? ==> files.contents == old(files.contents)[output := Rewritten(bytes, request).value])
              && (r.Ok? ==> r.value == Summarize(InFileOrder(ZipReader.Directory(bytes).value), request))
              && (r.Err? ==> r.error == Rewritten(bytes, request).error)
              && (r.Err? ==> files.contents == if Accepted(bytes, request).Ok? then old(files.contents) - {output} else old(files.contents))
  {
    hide ZipReader.Directory, InFileOrder, Plan, Body, Directory, Surviving, Dropped, Replaced, EndRecord, TotalRoom;
    if input !in files.contents {
      return Err(MissingFile);
    }
    var bytes := files.contents[input];
    var read := ReadEntries(bytes);
    if read.Err? {
      return Err(NotAnArchive(read.error));
    }
    var ordered := InFileOrder(read.value);
    if exists name :: name in request.replace && name !in Names(ordered) {
      return Err(InvalidRequest);
    }
    var planning :- MakePlan(ordered, request);
    var plan := planning.plan;
    if |plan| > MAX_NON_ZIP64_ENTRIES {
      return Err(Unrepresentable);
    }
    var central := CentralRecords(plan);
    if planning.offset >= U32_MAX || |central| >= U32_MAX {
      return Err(Unrepresentable);
    }
    var end := EndOfCentralDirectoryBytes(|plan|, |central|, planning.offset);
    files.contents := files.contents[output := []];
    var body := WriteEntries(bytes, plan);
    if body.Err? {
      files.contents := files.contents - {output};
      return Err(body.error);
    }
    files.contents := files.contents[output := body.value + central + end];
    PlanKeepsSources(Surviving(ordered, request.drop), request, 0);
    var kept := seq(|plan|, k requires 0 <= k < |plan| => plan[k].source.name);
    assert kept == Names(Surviving(ordered, request.drop));
    return Ok(Summary(kept, planning.dropped, planning.replaced));
  }
}
