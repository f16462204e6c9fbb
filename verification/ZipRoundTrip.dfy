/** What the reader makes of what the rewriter wrote. */
module ZipRoundTrip {
  import opened Words
  import opened Wrappers
  import opened Utf8
  import opened ZipFormat
  import opened ZipReader
  import opened EntryReading
  import opened ZipWriter
  import Sorting
  import Crc

  // ---- One record -----------------------------------------------------------------------------

  lemma StampWords(w: seq<byte>, f: CommonFields)
    requires w == Stamp(f)
    ensures U16At(w, 0) == f.versionNeeded && U16At(w, 2) == f.flags && U16At(w, 4) == f.compression
    ensures U16At(w, 6) == f.modTime && U16At(w, 8) == f.modDate
  {
    ReadLe16(w, 0, f.versionNeeded);
    ReadLe16(w, 2, f.flags);
    ReadLe16(w, 4, f.compression);
    ReadLe16(w, 6, f.modTime);
    ReadLe16(w, 8, f.modDate);
  }

  lemma SizesWords(w: seq<byte>, f: CommonFields)
    requires w == Sizes(f) && |f.name| <= U16_MAX && |f.extra| <= U16_MAX
    ensures U32At(w, 0) == f.crc && U32At(w, 4) == f.compressedSize && U32At(w, 8) == f.uncompressedSize
    ensures U16At(w, 12) == |f.name| && U16At(w, 14) == |f.extra|
  {
    hide Le16, Le32, U16At, U32At;
    ReadLe32(w, 0, f.crc);
    ReadLe32(w, 4, f.compressedSize);
    ReadLe32(w, 8, f.uncompressedSize);
    ReadLe16(w, 12, |f.name|);
    ReadLe16(w, 14, |f.extra|);
  }

  lemma PlacementWords(w: seq<byte>, f: CentralFields)
    requires w == Placement(f)
    ensures U16At(w, 0) == 0 && U16At(w, 4) == f.internalAttributes
    ensures U32At(w, 6) == f.externalAttributes && U32At(w, 10) == f.localHeaderOffset
  {
    ReadLe16(w, 0, 0);
    hide Le16, Le32, U16At, U32At;
    ReadLe16(w, 4, f.internalAttributes);
    ReadLe32(w, 6, f.externalAttributes);
    ReadLe32(w, 10, f.localHeaderOffset);
  }

  /** No field holds the value that would send a reader to a zip64 record. */
  predicate Plain(f: CentralFields) {
    && f.common.extra == []
    && |f.common.name| <= U16_MAX
    && f.common.compressedSize < U32_MAX && f.common.uncompressedSize < U32_MAX && f.localHeaderOffset < U32_MAX
  }

  /** The entry a plain record describes. */
  function EntryOf(f: CentralFields): ZipEntry {
    ZipEntry(
      DecodeUtf8(f.common.name), f.common.compression,
      f.common.compressedSize, f.common.uncompressedSize, f.localHeaderOffset,
      f.common.flags, f.common.crc, f.common.modTime, f.common.modDate,
      f.versionMadeBy, f.common.versionNeeded, f.internalAttributes, f.externalAttributes)
  }

  lemma CentralLayout(f: CentralFields, tail: seq<byte>)
    requires f.common.extra == []
    ensures var s, n := CentralHeader(f) + tail, |f.common.name|;
            && |s| == CD_MIN + n + |tail|
            && s[0..4] == Le32(CD_SIG) && s[4..6] == Le16(f.versionMadeBy)
            && s[6..16] == Stamp(f.common) && s[16..32] == Sizes(f.common) && s[32..46] == Placement(f)
            && s[46..46 + n] == f.common.name && s[46 + n..] == tail
  {
    hide Le16, Le32, Stamp, Sizes, Placement;
  }

  /** A plain record at the front of a directory is read back field for field. */
  lemma RecordReadBack(f: CentralFields, tail: seq<byte>)
    requires Plain(f)
    ensures FirstRecord(CentralHeader(f) + tail) == Ok(Record(EntryOf(f), |CentralHeader(f)|))
  {
    hide Le16, Le32, Stamp, Sizes, Placement, U16At, U32At, DecodeUtf8, CentralHeader;
    var s := CentralHeader(f) + tail;
    CentralLayout(f, tail);
    ReadLe32(s, 0, CD_SIG);
    ReadLe16(s, 4, f.versionMadeBy);
    StampWords(s[6..16], f.common);
    SizesWords(s[16..32], f.common);
    PlacementWords(s[32..46], f);
    WordsOfSlice(s, 6, 16);
    WordsOfSlice(s, 16, 32);
    WordsOfSlice(s, 32, 46);
    assert U16At(s, 6) == U16At(s[6..16], 0) && U16At(s, 8) == U16At(s[6..16], 2) && U16At(s, 10) == U16At(s[6..16], 4);
    assert U16At(s, 12) == U16At(s[6..16], 6) && U16At(s, 14) == U16At(s[6..16], 8);
    assert U32At(s, 16) == U32At(s[16..32], 0) && U32At(s, 20) == U32At(s[16..32], 4) && U32At(s, 24) == U32At(s[16..32], 8);
    assert U16At(s, 28) == U16At(s[16..32], 12) && U16At(s, 30) == U16At(s[16..32], 14);
    assert U16At(s, 32) == U16At(s[32..46], 0) && U16At(s, 36) == U16At(s[32..46], 4);
    assert U32At(s, 38) == U32At(s[32..46], 6) && U32At(s, 42) == U32At(s[32..46], 10);
  }

  // ---- The directory --------------------------------------------------------------------------

  function EntriesOf(plan: seq<Planned>): seq<ZipEntry> {
    if plan == [] then [] else [EntryOf(plan[0].fields)] + EntriesOf(plan[1..])
  }

  ghost predicate AllPlain(plan: seq<Planned>) {
    forall k :: 0 <= k < |plan| ==> Plain(plan[k].fields)
  }

  lemma {:induction false} DirectoryReadBack(plan: seq<Planned>)
    requires AllPlain(plan)
    ensures Records(ZipWriter.Directory(plan), |plan|) == Ok(EntriesOf(plan))
  {
    hide FirstRecord, CentralHeader, Plain;
    if plan != [] {
      var record, rest := CentralHeader(plan[0].fields), ZipWriter.Directory(plan[1..]);
      RecordReadBack(plan[0].fields, rest);
      assert (record + rest)[|record|..] == rest;
      DirectoryReadBack(plan[1..]);
    }
  }

  lemma EndLayout(total: u16, cdSize: u32, cdOffset: u32)
    ensures var s := EndRecord(total, cdSize, cdOffset);
            U32At(s, 0) == EOCD_SIG && U16At(s, 10) == total && U32At(s, 12) == cdSize && U32At(s, 16) == cdOffset
  {
    hide Le16, Le32, U16At, U32At;
    var s := EndRecord(total, cdSize, cdOffset);
    ReadLe32(s, 0, EOCD_SIG);
    ReadLe16(s, 10, total);
    ReadLe32(s, 12, cdSize);
    ReadLe32(s, 16, cdOffset);
  }

  lemma ReadToEnd(file: seq<byte>, start: nat)
    requires start <= |file| <= MAX_SAFE_INTEGER
    ensures ReadAt(file, start, |file| - start) == Ok(file[start..])
  {
    assert file[start..|file|] == file[start..];
  }

  lemma EndIsLast(tail: seq<byte>)
    ensures |tail| >= EOCD_MIN && U32At(tail, |tail| - EOCD_MIN) == EOCD_SIG ==>
              LastEndRecord(tail, |tail| - EOCD_MIN) == Some(|tail| - EOCD_MIN)
  {
  }

  lemma WordInTail(file: seq<byte>, start: nat, at: nat)
    requires start <= at && at + 4 <= |file|
    ensures U32At(file[start..], at - start) == U32At(file, at)
  {
    hide U32At;
    WordsOfSlice(file, start, |file|);
    assert file[start..|file|] == file[start..];
    assert U32At(file[start..|file|], at - start) == U32At(file, start + (at - start));
  }

  /** An end record at the very end of a file is the first one the backward scan meets. */
  lemma EndFoundAtOnce(file: seq<byte>)
    requires EOCD_MIN <= |file| <= MAX_SAFE_INTEGER && U32At(file, |file| - EOCD_MIN) == EOCD_SIG
    ensures var start := TailStart(file);
            && start <= |file| - EOCD_MIN
            && ReadAt(file, start, |file| - start) == Ok(file[start..])
            && LastEndRecord(file[start..], |file[start..]| - EOCD_MIN) == Some(|file| - EOCD_MIN - start)
  {
    hide U32At, TailStart, ReadAt, LastEndRecord;
    TailFits(file);
    ReadToEnd(file, TailStart(file));
    WordInTail(file, TailStart(file), |file| - EOCD_MIN);
    EndIsLast(file[TailStart(file)..]);
  }

  /** An end record without saturated fields is taken at its word: no zip64 record is looked for. */
  lemma PlainEnd(file: seq<byte>, at: nat, total: u16, cdSize: u32, cdOffset: u32)
    requires at + EOCD_MIN == |file| && file[at..] == EndRecord(total, cdSize, cdOffset)
    requires total != U16_MAX && cdSize != U32_MAX && cdOffset != U32_MAX
    ensures U32At(file, at) == EOCD_SIG && EndAt(file, at) == Ok(Zip64End(total, cdSize, cdOffset))
  {
    hide U16At, U32At, EndRecord, Zip64EndAt;
    EndLayout(total, cdSize, cdOffset);
    var end := file[at..];
    assert file[at..|file|] == end;
    WordsOfSlice(file, at, |file|);
    assert U32At(file, at) == U32At(end, 0) && U16At(file, at + 10) == U16At(end, 10);
    assert U32At(file, at + 12) == U32At(end, 12) && U32At(file, at + 16) == U32At(end, 16);
  }

  /**
   Whatever lies before it, an archive that ends in a plain end record is read through that record:
   the backward scan stops there at once, so signatures inside payloads are never looked at.
   */
  lemma ArchiveReadBack(body: seq<byte>, directory: seq<byte>, total: u16)
    requires total != U16_MAX && |directory| < U32_MAX && |body| < U32_MAX
    ensures ZipReader.Directory(body + directory + EndRecord(total, |directory|, |body|)) == Records(directory, total)
  {
    hide Records, EndRecord, EndAt, TailStart, LastEndRecord, U32At;
    var file := body + directory + EndRecord(total, |directory|, |body|);
    var at := |file| - EOCD_MIN;
    assert file[at..] == EndRecord(total, |directory|, |body|);
    PlainEnd(file, at, total, |directory|, |body|);
    EndFoundAtOnce(file);
    assert file[|body|..|body| + |directory|] == directory;
  }

  // ---- The plan and its offsets ---------------------------------------------------------------

  /** What a reader finds for an entry the rewriter laid out at `offset`. */
  function Expected(entry: ZipEntry, replacement: Option<seq<byte>>, offset: u64): ZipEntry
    requires Representable(entry, replacement, offset)
  {
    var kept := entry.(name := StripBom(entry.name), flags := WithoutDescriptor(entry.flags), localHeaderOffset := offset);
    if replacement.None? then kept
    else
      kept.(compression := 0, compressedSize := |replacement.value|, uncompressedSize := |replacement.value|,
            crc := Crc.Crc32(replacement.value))
  }

  /** Every planned entry is described as expected, and entries lie one behind the other. */
  lemma {:induction false} PlanIsExpected(entries: seq<ZipEntry>, request: Request, offset: nat)
    requires Plan(entries, request, offset).Ok?
    ensures var plan := Plan(entries, request, offset).value;
            && |plan| == |entries| && |EntriesOf(plan)| == |entries|
            && AllPlain(plan)
            && forall k :: 0 <= k < |plan| ==>
                 && plan[k].source == entries[k] && plan[k].replacement == Replacement(entries[k], request)
                 && plan[k].fields.common.name == EncodeAll(entries[k].name)
                 && plan[k].fields.localHeaderOffset == offset + TotalRoom(plan[..k])
                 && Representable(entries[k], plan[k].replacement, plan[k].fields.localHeaderOffset)
                 && EntriesOf(plan)[k] == Expected(entries[k], plan[k].replacement, plan[k].fields.localHeaderOffset)
  {
    hide Replacement, Room, EncodeAll, DecodeUtf8, StripBom, WithoutDescriptor;
    if entries != [] {
      var replacement := Replacement(entries[0], request);
      var planned := Planned(entries[0], Fields(entries[0], replacement, offset), replacement);
      DecodeOfEncode(entries[0].name);
      PlanIsExpected(entries[1..], request, offset + Room(planned));
      var rest := Plan(entries[1..], request, offset + Room(planned)).value;
      var plan := [planned] + rest;
      forall k | 0 < k < |plan| ensures TotalRoom(plan[..k]) == Room(planned) + TotalRoom(rest[..k - 1]) {
        assert plan[..k] == [planned] + rest[..k - 1];
        assert plan[..k][1..] == rest[..k - 1];
      }
      assert TotalRoom(plan[..0]) == 0;
    }
  }

  // ---- Bodies ---------------------------------------------------------------------------------

  lemma PayloadSize(input: seq<byte>, entry: ZipEntry, replacement: Option<seq<byte>>, offset: nat)
    requires Representable(entry, replacement, offset)
    requires Payload(input, Planned(entry, Fields(entry, replacement, offset), replacement)).Ok?
    ensures var planned := Planned(entry, Fields(entry, replacement, offset), replacement);
            |Payload(input, planned).value| == planned.fields.common.compressedSize
  {
    hide CopyOffset, EncodeAll;
  }

  /**
   Where the k-th payload lies: behind its local header, at the offset the directory records, with
   the entry's own bytes (or the replacement's) verbatim.
   */
  ghost predicate LiesAt(out: seq<byte>, input: seq<byte>, planned: Planned) {
    var at: nat, name := planned.fields.localHeaderOffset, |planned.fields.common.name|;
    && Payload(input, planned).Ok?
    && |Payload(input, planned).value| == planned.fields.common.compressedSize
    && at + Room(planned) <= |out|
    && out[at..at + LOCAL_MIN + name] == LocalHeader(planned.fields.common)
    && out[at + LOCAL_MIN + name..at + Room(planned)] == Payload(input, planned).value
  }

  lemma Placed(before: seq<byte>, header: seq<byte>, payload: seq<byte>, after: seq<byte>)
    ensures var out, at := before + (header + payload + after), |before|;
            && out[at..at + |header|] == header
            && out[at + |header|..at + |header| + |payload|] == payload
            && out == (before + header + payload) + after
  {
  }

  lemma {:induction false} BodyIsPlaced(before: seq<byte>, input: seq<byte>, entries: seq<ZipEntry>, request: Request, after: seq<byte>)
    requires Plan(entries, request, |before|).Ok?
    requires Body(input, Plan(entries, request, |before|).value).Ok?
    ensures var plan := Plan(entries, request, |before|).value;
            var body := Body(input, plan).value;
            && |body| == TotalRoom(plan)
            && forall k :: 0 <= k < |plan| ==> LiesAt(before + body + after, input, plan[k])
    decreases |entries|
  {
    hide Payload, LocalHeader, Fields, Representable, Replacement, LiesAt;
    var plan := Plan(entries, request, |before|).value;
    if entries != [] {
      var planned, rest := plan[0], Body(input, plan[1..]).value;
      var header, payload := LocalHeader(planned.fields.common), Payload(input, planned).value;
      FirstIsPlaced(before, input, entries[0], request, rest + after);
      var next := before + header + payload;
      BodyIsPlaced(next, input, entries[1..], request, after);
      Regroup(before, header, payload, rest);
      assert before + (header + payload + rest) + after == next + rest + after;
      assert next + rest + after == next + (rest + after);
      forall k | 0 <= k < |plan| ensures LiesAt(before + Body(input, plan).value + after, input, plan[k]) {
        if k > 0 {
          assert plan[k] == plan[1..][k - 1];
        }
      }
    }
  }

  lemma FirstIsPlaced(before: seq<byte>, input: seq<byte>, entry: ZipEntry, request: Request, after: seq<byte>)
    requires Representable(entry, Replacement(entry, request), |before|)
    requires var replacement := Replacement(entry, request);
             Payload(input, Planned(entry, Fields(entry, replacement, |before|), replacement)).Ok?
    ensures var replacement := Replacement(entry, request);
            var planned := Planned(entry, Fields(entry, replacement, |before|), replacement);
            var next := before + LocalHeader(planned.fields.common) + Payload(input, planned).value;
            |next| == |before| + Room(planned) && LiesAt(next + after, input, planned)
  {
    hide Payload, LocalHeader, Replacement, EncodeAll;
    var replacement := Replacement(entry, request);
    var planned := Planned(entry, Fields(entry, replacement, |before|), replacement);
    PayloadSize(input, entry, replacement, |before|);
    Placed(before, LocalHeader(planned.fields.common), Payload(input, planned).value, after);
  }

  // ---- The entries a reader accepted ----------------------------------------------------------

  predicate SafeEntry(entry: ZipEntry) {
    entry.compressedSize <= MAX_SAFE_INTEGER && entry.uncompressedSize <= MAX_SAFE_INTEGER && entry.localHeaderOffset <= MAX_SAFE_INTEGER
  }

  lemma FirstRecordIsSafe(rest: seq<byte>)
    requires FirstRecord(rest).Ok?
    ensures SafeEntry(FirstRecord(rest).value.entry)
  {
    hide DecodeUtf8, U16At, Zip64Block;
  }

  /** Every size and offset a directory yields is far inside 64 bits. */
  lemma {:induction false} RecordsAreSafe(rest: seq<byte>, count: nat)
    requires Records(rest, count).Ok?
    ensures |Records(rest, count).value| == count
    ensures forall k :: 0 <= k < count ==> SafeEntry(Records(rest, count).value[k])
    decreases count
  {
    hide FirstRecord, SafeEntry;
    if count > 0 {
      FirstRecordIsSafe(rest);
      RecordsAreSafe(rest[FirstRecord(rest).value.size..], count - 1);
    }
  }

  lemma DirectoryIsSafe(file: seq<byte>)
    requires ZipReader.Directory(file).Ok?
    ensures forall entry :: entry in ZipReader.Directory(file).value ==> SafeEntry(entry)
  {
    hide EndAt, TailStart, LastEndRecord, SafeEntry, Records;
    TailFits(file);
    var start := TailStart(file);
    var tail := ReadAt(file, start, |file| - start).value;
    var at := start + LastEndRecord(tail, |tail| - EOCD_MIN).value;
    var end := EndAt(file, at).value;
    RecordsAreSafe(file[end.cdOffset..end.cdOffset + end.cdSize], end.total);
  }

  lemma {:induction false} SurvivingAreEntries(entries: seq<ZipEntry>, drop: set<string>)
    ensures forall entry :: entry in Surviving(entries, drop) <==> entry in entries && entry.name !in drop
  {
    if entries != [] {
      SurvivingAreEntries(entries[1..], drop);
      assert entries == [entries[0]] + entries[1..];
    }
  }

  // ---- The rewrite ----------------------------------------------------------------------------

  /** The entries of an archive; none where it is not one. */
  function EntriesIn(file: seq<byte>): seq<ZipEntry> {
    if ZipReader.Directory(file).Ok? then ZipReader.Directory(file).value else []
  }

  /** The entries a rewrite keeps, in the order it writes them. */
  function Kept(input: seq<byte>, request: Request): seq<ZipEntry> {
    Surviving(InFileOrder(EntriesIn(input)), request.drop)
  }

  /** That order: ascending input offset, entries at one offset in directory order, none lost. */
  lemma FileOrder(entries: seq<ZipEntry>, offset: u64)
    ensures var ordered := InFileOrder(entries);
            && Sorting.Sorted(ByOffset, ordered)
            && multiset(ordered) == multiset(entries)
            && Sorting.Filter((e: ZipEntry) => e.localHeaderOffset == offset, ordered)
               == Sorting.Filter((e: ZipEntry) => e.localHeaderOffset == offset, entries)
  {
    Sorting.SortSorted(ByOffset, entries);
    Sorting.SortStable(ByOffset, entries, (e: ZipEntry) => e.localHeaderOffset == offset);
  }

  /** `read` is what the rewritten archive says about `entry`, whatever place it was given. */
  ghost predicate ReadsAs(read: ZipEntry, entry: ZipEntry, replacement: Option<seq<byte>>) {
    Representable(entry, replacement, read.localHeaderOffset) && read == Expected(entry, replacement, read.localHeaderOffset)
  }

  ghost function PlannedAt(entry: ZipEntry, request: Request, offset: u64): Planned
    requires Representable(entry, Replacement(entry, request), offset)
  {
    Planned(entry, Fields(entry, Replacement(entry, request), offset), Replacement(entry, request))
  }

  /**
   The round trip: a successful rewrite is an archive whose directory lists exactly the kept
   entries, in order and field for field, and leads to each one's bytes.
   */
  lemma RewriteRoundTrip(input: seq<byte>, request: Request)
    requires Rewritten(input, request).Ok?
    ensures var out, kept := Rewritten(input, request).value, Kept(input, request);
            && ZipReader.Directory(out).Ok? && |EntriesIn(out)| == |kept|
            && forall k :: 0 <= k < |kept| ==>
                 && ReadsAs(EntriesIn(out)[k], kept[k], Replacement(kept[k], request))
                 && LiesAt(out, input, PlannedAt(kept[k], request, EntriesIn(out)[k].localHeaderOffset))
  {
    hide Representable, Replacement, ZipReader.Directory, ZipWriter.Directory, LiesAt, EndRecord, Surviving, InFileOrder, Plan,
      Body, Fields;
    var kept, plan := Kept(input, request), Accepted(input, request).value;
    var body, directory := Body(input, plan).value, ZipWriter.Directory(plan);
    var end := EndRecord(|plan|, |directory|, TotalRoom(plan));
    PlanIsExpected(kept, request, 0);
    PlanFields(kept, request, 0);
    DirectoryReadBack(plan);
    BodyIsPlaced([], input, kept, request, directory + end);
    assert [] + body + (directory + end) == body + directory + end;
    ArchiveReadBack(body, directory, |plan|);
  }

  lemma {:induction false} PlanFields(entries: seq<ZipEntry>, request: Request, offset: nat)
    requires Plan(entries, request, offset).Ok?
    ensures forall planned :: planned in Plan(entries, request, offset).value ==>
              && Representable(planned.source, planned.replacement, planned.fields.localHeaderOffset)
              && planned == Planned(
                   planned.source,
                   Fields(planned.source, planned.replacement, planned.fields.localHeaderOffset),
                   planned.replacement)
  {
    hide Replacement, EncodeAll, Representable;
    if entries != [] {
      var replacement := Replacement(entries[0], request);
      var planned := Planned(entries[0], Fields(entries[0], replacement, offset), replacement);
      PlanFields(entries[1..], request, offset + Room(planned));
    }
  }

  /** Names come back unless they start with a byte-order mark, and only then. */
  lemma NamesSurvive(input: seq<byte>, request: Request)
    requires Rewritten(input, request).Ok?
    ensures Names(EntriesIn(Rewritten(input, request).value)) == Names(Kept(input, request))
            <==> forall entry :: entry in Kept(input, request) ==> !(entry.name != "" && entry.name[0] == BOM)
  {
    hide EntriesIn, ZipReader.Directory, Rewritten, Kept, Representable, Replacement, LiesAt;
    RewriteRoundTrip(input, request);
    var read, kept := EntriesIn(Rewritten(input, request).value), Kept(input, request);
    assert forall k :: 0 <= k < |kept| ==> Names(read)[k] == StripBom(kept[k].name) && Names(kept)[k] == kept[k].name;
  }

  // ---- Reading entries back -------------------------------------------------------------------

  lemma LocalLayout(f: CommonFields)
    requires f.extra == [] && |f.name| <= U16_MAX
    ensures var s := LocalHeader(f);
            U32At(s, 0) == LOCAL_SIG && U16At(s, 26) == |f.name| && U16At(s, 28) == 0
  {
    hide Le16, Le32, Stamp, Sizes, U16At, U32At;
    var s := LocalHeader(f);
    assert s[0..4] == Le32(LOCAL_SIG) && s[14..30] == Sizes(f);
    ReadLe32(s, 0, LOCAL_SIG);
    SizesWords(s[14..30], f);
    WordsOfSlice(s, 14, 30);
    assert U16At(s, 26) == U16At(s[14..30], 12) && U16At(s, 28) == U16At(s[14..30], 14);
  }

  /** A written entry's data is where its record says, behind a header of its own. */
  lemma WrittenDataOffset(out: seq<byte>, input: seq<byte>, entry: ZipEntry, request: Request, offset: u64)
    requires Representable(entry, Replacement(entry, request), offset)
    requires LiesAt(out, input, PlannedAt(entry, request, offset))
    ensures var planned, read := PlannedAt(entry, request, offset), Expected(entry, Replacement(entry, request), offset);
            && DataOffset(out, read) == Ok(offset + LOCAL_MIN + |planned.fields.common.name|)
            && out[DataOffset(out, read).value..DataOffset(out, read).value + read.compressedSize] == Payload(input, planned).value
  {
    hide LocalHeader, U16At, U32At, Payload, EncodeAll;
    var planned := PlannedAt(entry, request, offset);
    var header := LocalHeader(planned.fields.common);
    LocalLayout(planned.fields.common);
    var at: nat, name := offset, |planned.fields.common.name|;
    assert out[at..at + LOCAL_MIN + name] == header;
    WordsOfSlice(out, at, at + LOCAL_MIN + name);
    WordsOfSlice(out, at, at + LOCAL_MIN);
    assert U32At(out, at) == U32At(header, 0) && U16At(out, at + 26) == U16At(header, 26) && U16At(out, at + 28) == U16At(header, 28);
    var local := out[at..at + LOCAL_MIN];
    assert U32At(local, 0) == U32At(out, at) && U16At(local, 26) == U16At(out, at + 26) && U16At(local, 28) == U16At(out, at + 28);
  }

  /** The reader and the rewriter agree on where an input entry's compressed bytes are. */
  lemma SameCompressedBytes(input: seq<byte>, entry: ZipEntry)
    requires SafeEntry(entry) && CompressedBytes(input, entry).Ok?
    ensures DataOffset(input, entry) == Ok(CopyOffset(input, entry).value)
    ensures var from := CopyOffset(input, entry).value;
            input[from..from + entry.compressedSize] == CompressedBytes(input, entry).value
  {
    hide U16At, U32At;
    var at := entry.localHeaderOffset;
    WordsOfSlice(input, at, at + LOCAL_MIN);
    var local := input[at..at + LOCAL_MIN];
    assert U32At(local, 0) == U32At(input, at) && U16At(local, 26) == U16At(input, at + 26) && U16At(local, 28) == U16At(input, at + 28);
  }

  /** Reading depends only on the method, the sizes and the bytes the record leads to. */
  lemma SameBytesReadTheSame(inflate: Inflater, a: seq<byte>, x: ZipEntry, b: seq<byte>, y: ZipEntry)
    requires DataOffset(a, x).Ok? && DataOffset(b, y).Ok? && |a| <= MAX_SAFE_INTEGER && |b| <= MAX_SAFE_INTEGER
    requires x.compression == y.compression && x.compressedSize == y.compressedSize && x.uncompressedSize == y.uncompressedSize
    requires a[DataOffset(a, x).value..DataOffset(a, x).value + x.compressedSize]
             == b[DataOffset(b, y).value..DataOffset(b, y).value + y.compressedSize]
    ensures ReadEntry(inflate, a, x) == ReadEntry(inflate, b, y)
  {
    hide DataOffset, InflateEntry;
  }

  /** What the reader gives for a kept entry of the input, or for the bytes that replaced it. */
  function ContentOf(inflate: Inflater, input: seq<byte>, entry: ZipEntry, request: Request): Result<seq<byte>, ZipError> {
    if entry.name in request.replace then Ok(request.replace[entry.name]) else ReadEntry(inflate, input, entry)
  }

  lemma ReadsBack(inflate: Inflater, out: seq<byte>, input: seq<byte>, entry: ZipEntry, request: Request, offset: u64)
    requires SafeEntry(entry) && |input| <= MAX_SAFE_INTEGER && |out| <= MAX_SAFE_INTEGER
    requires Representable(entry, Replacement(entry, request), offset)
    requires LiesAt(out, input, PlannedAt(entry, request, offset))
    ensures ReadEntry(inflate, out, Expected(entry, Replacement(entry, request), offset)) == ContentOf(inflate, input, entry, request)
  {
    hide LocalHeader, DataOffset, CompressedBytes, Representable, LiesAt;
    var read := Expected(entry, Replacement(entry, request), offset);
    WrittenDataOffset(out, input, entry, request, offset);
    if Replacement(entry, request).None? {
      assert CompressedBytes(input, entry).Ok? by { PayloadIsOk(out, input, entry, request, offset); }
      SameCompressedBytes(input, entry);
      SameBytesReadTheSame(inflate, out, read, input, entry);
    }
  }

  lemma PayloadIsOk(out: seq<byte>, input: seq<byte>, entry: ZipEntry, request: Request, offset: u64)
    requires Representable(entry, Replacement(entry, request), offset)
    requires LiesAt(out, input, PlannedAt(entry, request, offset))
    ensures Payload(input, PlannedAt(entry, request, offset)).Ok?
  {
    hide LocalHeader, CompressedBytes, Fields;
  }

  /**
   Payload preservation: for any inflater, every kept entry of the rewritten archive reads as it
   did in the input, errors included, and every replaced one reads as its replacement.
   */
  lemma PayloadsSurvive(inflate: Inflater, input: seq<byte>, request: Request)
    requires Rewritten(input, request).Ok? && |input| <= MAX_SAFE_INTEGER
    ensures var out, kept := Rewritten(input, request).value, Kept(input, request);
            |EntriesIn(out)| == |kept| && forall k :: 0 <= k < |kept| ==>
              ReadEntry(inflate, out, EntriesIn(out)[k]) == ContentOf(inflate, input, kept[k], request)
  {
    hide EntriesIn, ZipReader.Directory, Representable, Replacement, LiesAt, ReadEntry, ContentOf, SafeEntry, Rewritten;
    var out, kept := Rewritten(input, request).value, Kept(input, request);
    RewriteRoundTrip(input, request);
    OutputIsSmall(input, request);
    KeptAreSafe(input, request);
    forall k | 0 <= k < |kept|
      ensures ReadEntry(inflate, out, EntriesIn(out)[k]) == ContentOf(inflate, input, kept[k], request)
    {
      ReadsBack(inflate, out, input, kept[k], request, EntriesIn(out)[k].localHeaderOffset);
    }
  }

  lemma KeptAreSafe(input: seq<byte>, request: Request)
    requires Rewritten(input, request).Ok?
    ensures forall entry :: entry in Kept(input, request) ==> SafeEntry(entry) && entry in EntriesIn(input)
  {
    hide SafeEntry, ZipReader.Directory, Plan, Body;
    DirectoryIsSafe(input);
    SurvivingAreEntries(InFileOrder(EntriesIn(input)), request.drop);
    forall entry | entry in InFileOrder(EntriesIn(input)) ensures entry in EntriesIn(input) {
      assert entry in multiset(InFileOrder(EntriesIn(input)));
    }
  }

  lemma OutputIsSmall(input: seq<byte>, request: Request)
    requires Rewritten(input, request).Ok?
    ensures |Rewritten(input, request).value| <= MAX_SAFE_INTEGER
  {
    hide Plan, Body, EndRecord, ZipReader.Directory, ZipWriter.Directory, InFileOrder, Surviving, Fields, Payload;
    var plan := Accepted(input, request).value;
    BodyIsPlaced([], input, Kept(input, request), request, []);
  }

  // ---- The exception --------------------------------------------------------------------------

  function SingleFields(name: string): CentralFields {
    CentralFields(CommonFields(20, 0, 0, 0, 0, 0, 0, 0, EncodeAll(name), []), 20, 0, 0, 0)
  }

  /** An archive of one empty entry. */
  function SingleArchive(name: string): seq<byte>
    requires |EncodeAll(name)| <= 1000
  {
    var f := SingleFields(name);
    LocalHeader(f.common) + CentralHeader(f) + EndRecord(1, |CentralHeader(f)|, |LocalHeader(f.common)|)
  }

  lemma SingleReadBack(name: string)
    requires |EncodeAll(name)| <= 1000
    ensures ZipReader.Directory(SingleArchive(name)) == Ok([EntryOf(SingleFields(name))])
  {
    hide LocalHeader, CentralHeader, EndRecord, FirstRecord, EncodeAll;
    var f := SingleFields(name);
    var record := CentralHeader(f);
    ArchiveReadBack(LocalHeader(f.common), record, 1);
    RecordReadBack(f, []);
    assert record + [] == record;
    assert Records(record[|record|..], 0) == Ok([]);
    assert [EntryOf(f)] + [] == [EntryOf(f)];
  }

  lemma SingleRewrites(name: string)
    requires |EncodeAll(name)| <= 1000
    ensures Rewritten(SingleArchive(name), Request({}, map[])).Ok?
    ensures Kept(SingleArchive(name), Request({}, map[])) == [EntryOf(SingleFields(name))]
  {
    hide EndRecord, Stamp, Sizes, Le16, Le32, U16At, U32At, EncodeAll, StripBom, Lossy, ZipReader.Directory;
    var input, request, f := SingleArchive(name), Request({}, map[]), SingleFields(name);
    var entry := EntryOf(f);
    SingleReadBack(name);
    DecodeOfEncode(name);
    StrippedIsShorter(name);
    assert [entry][1..] == [] && [entry] + [] == [entry];
    assert Surviving([], {}) == [] && Surviving([entry], {}) == [entry];
    assert InFileOrder([entry]) == [entry];
    var planned := Planned(entry, Fields(entry, None, 0), None);
    assert Replacement(entry, request) == None && Representable(entry, None, 0);
    assert Plan([], request, 0 + Room(planned)) == Ok([]);
    assert [planned] + [] == [planned];
    assert Plan([entry], request, 0) == Ok([planned]);
    assert [planned][1..] == [];
    SingleCopies(name);
    assert Body(input, []) == Ok([]);
    assert ZipWriter.Directory([planned]) == CentralHeader(planned.fields) + [];
    assert TotalRoom([]) == 0 && TotalRoom([planned]) == Room(planned);
    assert Accepted(input, request) == Ok([planned]);
    assert Body(input, [planned]).Ok?;
  }

  lemma StrippedIsShorter(name: string)
    ensures |EncodeAll(StripBom(name))| <= |EncodeAll(name)|
  {
    hide Encode;
  }

  lemma SingleCopies(name: string)
    requires |EncodeAll(name)| <= 1000
    ensures CompressedBytes(SingleArchive(name), EntryOf(SingleFields(name))).Ok?
  {
    hide EndRecord, Stamp, Sizes, Le16, Le32, U16At, U32At, EncodeAll, DecodeUtf8, CentralHeader, LocalHeader;
    var f := SingleFields(name);
    var header, input := LocalHeader(f.common), SingleArchive(name);
    LocalLayout(f.common);
    assert input[0..|header|] == header;
    WordsOfSlice(input, 0, |header|);
    assert U32At(input, 0) == U32At(header, 0) && U16At(input, 26) == U16At(header, 26) && U16At(input, 28) == U16At(header, 28);
  }

  /** A name that starts with a mark is accepted and rewritten, and comes back without it. */
  lemma MarkedNameIsLost(rest: string)
    requires |EncodeAll([BOM, BOM] + rest)| <= 1000
    ensures var input, request := SingleArchive([BOM, BOM] + rest), Request({}, map[]);
            && Rewritten(input, request).Ok?
            && Names(Kept(input, request)) == [[BOM] + rest]
            && Names(EntriesIn(Rewritten(input, request).value)) != Names(Kept(input, request))
  {
    hide Rewritten, Kept, EntriesIn, SingleArchive;
    var name := [BOM, BOM] + rest;
    SingleRewrites(name);
    DecodeOfEncode(name);
    assert name[1..] == [BOM] + rest;
    NamesSurvive(SingleArchive(name), Request({}, map[]));
    assert EntryOf(SingleFields(name)).name == [BOM] + rest;
  }
}
