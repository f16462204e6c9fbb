/**
 Archives as PKWARE's APPNOTE lays them out, whoever wrote them: any extra fields and comments,
 zip64 or not, and what the reader (files/zip.rs) makes of them.
 */
module ZipLayout {
  import opened Words
  import opened Wrappers
  import opened Utf8
  import opened ZipFormat
  import opened ZipReader
  import T = ZipRoundTrip

  /** A counter: in its own field, or all ones there and spelled out where zip64 keeps it. */
  datatype Wide = Short(short: u32) | Long(long: u64)

  function Value(w: Wide): u64 {
    match w case Short(v) => v case Long(v) => v
  }

  /** What the 32-bit field holds. */
  function Field32(w: Wide): u32 {
    match w case Short(v) => v case Long(_) => 0xffff_ffff
  }

  /** What the zip64 block holds for it. */
  function Word64(w: Wide): seq<byte> {
    match w case Short(_) => [] case Long(v) => Le64(v)
  }

  predicate Fits32(w: Wide) {
    w.Short? ==> w.short != 0xffff_ffff
  }

  /** 2^53 - 1 at most, the range in which JavaScript numbers are exact. */
  predicate IsSafe(w: Wide) {
    Value(w) <= 9007199254740991
  }

  // ---- Extra fields (APPNOTE 4.5.1) -----------------------------------------------------------

  datatype Block = Block(id: u16, body: seq<byte>)

  function BlockBytes(b: Block): seq<byte> {
    Le16(b.id) + Le16(|b.body| % 0x1_0000) + b.body
  }

  function BlocksBytes(blocks: seq<Block>): seq<byte> {
    if blocks == [] then [] else BlockBytes(blocks[0]) + BlocksBytes(blocks[1..])
  }

  /** Blocks of other kinds than zip64's. */
  ghost predicate AreOthers(blocks: seq<Block>) {
    forall i :: 0 <= i < |blocks| ==> blocks[i].id != 1 && |blocks[i].body| < 0x1_0000
  }

  lemma BlockWords(b: Block, rest: seq<byte>)
    requires |b.body| < 0x1_0000
    ensures var s := BlockBytes(b) + rest;
            && |s| == 4 + |b.body| + |rest| && U16At(s, 0) == b.id && U16At(s, 2) == |b.body|
            && s[4..4 + |b.body|] == b.body && s[4 + |b.body|..] == rest
  {
    hide Le16, U16At;
    var s := BlockBytes(b) + rest;
    ReadLe16(s, 0, b.id);
    ReadLe16(s, 2, |b.body|);
  }

  /** The zip64 block is found behind any others; without one there is none to find. */
  lemma {:induction false} BlockFound(before: seq<Block>, body: seq<byte>, after: seq<byte>)
    requires AreOthers(before) && |body| < 0x1_0000
    ensures Zip64Block(BlocksBytes(before) + (BlockBytes(Block(1, body)) + after)) == Ok(body)
    ensures Zip64Block(BlocksBytes(before)) == Err(NoZip64Extra)
  {
    hide BlockBytes, U16At;
    var zip64 := BlockBytes(Block(1, body)) + after;
    if before == [] {
      BlockWords(Block(1, body), after);
      assert BlocksBytes(before) + zip64 == zip64;
    } else {
      var rest := BlocksBytes(before[1..]);
      assert BlocksBytes(before) + zip64 == BlockBytes(before[0]) + (rest + zip64);
      BlockWords(before[0], rest + zip64);
      BlockWords(before[0], rest);
      BlockFound(before[1..], body, after);
    }
  }

  /** Uncompressed size, compressed size, offset, each only where its field is all ones (APPNOTE 4.5.3). */
  function Zip64Body(uncompressed: Wide, compressed: Wide, offset: Wide, more: seq<byte>): seq<byte> {
    Word64(uncompressed) + Word64(compressed) + Word64(offset) + more
  }

  lemma WordBehind(before: seq<byte>, w: Wide, after: seq<byte>)
    requires w.Long?
    ensures U64At(before + Word64(w) + after, |before|) == w.long
  {
    hide U64At;
    var s := before + Word64(w) + after;
    assert s[|before|..|before| + 8] == Le64(w.long);
    ReadLe64(s, |before|, w.long);
  }

  /** Each value is read from where it was put. */
  lemma BodyRead(uncompressed: Wide, compressed: Wide, offset: Wide, more: seq<byte>)
    requires Fits32(uncompressed) && Fits32(compressed) && Fits32(offset)
    ensures FromZip64Block(
              Zip64Body(uncompressed, compressed, offset, more),
              Sizes64(Field32(compressed), Field32(uncompressed), Field32(offset)))
            == if (uncompressed.Long? && !IsSafe(uncompressed)) || (compressed.Long? && !IsSafe(compressed)) || (offset.Long? && !IsSafe(offset))
               then Err(Zip64ValueTooLarge)
               else Ok(Sizes64(Value(compressed), Value(uncompressed), Value(offset)))
  {
    hide U64At, Le64;
    var block := Zip64Body(uncompressed, compressed, offset, more);
    var u, c, o := Word64(uncompressed), Word64(compressed), Word64(offset);
    assert [Field32(uncompressed), Field32(compressed)][..1] == [Field32(uncompressed)] && [Field32(uncompressed)][..0] == [];
    assert Places([]) == 0;
    if uncompressed.Long? {
      WordBehind([], uncompressed, c + o + more);
      assert [] + u + (c + o + more) == block;
    }
    if compressed.Long? {
      WordBehind(u, compressed, o + more);
      assert u + c + (o + more) == block;
    }
    if offset.Long? {
      WordBehind(u + c, offset, more);
    }
  }

  // ---- A central directory record (APPNOTE 4.3.12) --------------------------------------------

  datatype WireRecord = WireRecord(
    versionMadeBy: u16,
    versionNeeded: u16,
    flags: u16,
    compression: u16,
    modTime: u16,
    modDate: u16,
    crc: u32,
    compressed: Wide,
    uncompressed: Wide,
    name: seq<byte>,
    extras: Extras,
    comment: seq<byte>,
    disk: u16,
    internalAttributes: u16,
    externalAttributes: u32,
    offset: Wide)

  /** The extra fields: other blocks, the rest of the zip64 block if there is one, and what follows. */
  datatype Extras = Extras(before: seq<Block>, more: seq<byte>, after: seq<byte>)

  predicate NeedsZip64(r: WireRecord) {
    r.compressed.Long? || r.uncompressed.Long? || r.offset.Long?
  }

  function ExtraBytes(r: WireRecord): seq<byte> {
    if NeedsZip64(r) then
      BlocksBytes(r.extras.before)
      + (BlockBytes(Block(1, Zip64Body(r.uncompressed, r.compressed, r.offset, r.extras.more))) + r.extras.after)
    else r.extras.after
  }

  ghost predicate IsWire(r: WireRecord) {
    && Fits32(r.compressed) && Fits32(r.uncompressed) && Fits32(r.offset)
    && AreOthers(r.extras.before)
    && |r.name| < 0x1_0000 && |ExtraBytes(r)| < 0x1_0000 && |r.comment| < 0x1_0000
  }

  function Head(r: WireRecord): (s: seq<byte>)
    ensures |s| == 16
  {
    Le32(0x0201_4b50) + Le16(r.versionMadeBy) + Le16(r.versionNeeded) + Le16(r.flags) + Le16(r.compression)
    + Le16(r.modTime) + Le16(r.modDate)
  }

  function Middle(r: WireRecord): (s: seq<byte>)
    ensures |s| == 14
  {
    Le32(r.crc) + Le32(Field32(r.compressed)) + Le32(Field32(r.uncompressed)) + Le16(|r.name| % 0x1_0000)
  }

  function Tail(r: WireRecord): (s: seq<byte>)
    ensures |s| == 16
  {
    Le16(|ExtraBytes(r)| % 0x1_0000) + Le16(|r.comment| % 0x1_0000) + Le16(r.disk)
    + Le16(r.internalAttributes) + Le32(r.externalAttributes) + Le32(Field32(r.offset))
  }

  /** The fixed fields, then name, extra field and comment. */
  function RecordBytes(r: WireRecord): (s: seq<byte>)
    ensures |s| == 46 + |r.name| + |ExtraBytes(r)| + |r.comment|
  {
    Head(r) + Middle(r) + Tail(r) + r.name + ExtraBytes(r) + r.comment
  }

  /** What a record says. */
  function EntryOn(r: WireRecord): ZipEntry {
    ZipEntry(
      DecodeUtf8(r.name), r.compression, Value(r.compressed), Value(r.uncompressed), Value(r.offset),
      r.flags, r.crc, r.modTime, r.modDate, r.versionMadeBy, r.versionNeeded, r.internalAttributes, r.externalAttributes)
  }

  predicate IsReadable(r: WireRecord) {
    IsSafe(r.compressed) && IsSafe(r.uncompressed) && IsSafe(r.offset)
  }

  lemma HeadWords(r: WireRecord)
    ensures var s := Head(r);
            && U32At(s, 0) == CD_SIG && U16At(s, 4) == r.versionMadeBy && U16At(s, 6) == r.versionNeeded
            && U16At(s, 8) == r.flags && U16At(s, 10) == r.compression
            && U16At(s, 12) == r.modTime && U16At(s, 14) == r.modDate
  {
    hide Le16, Le32, U16At, U32At;
    var s := Head(r);
    ReadLe32(s, 0, CD_SIG);
    ReadLe16(s, 4, r.versionMadeBy);
    ReadLe16(s, 6, r.versionNeeded);
    ReadLe16(s, 8, r.flags);
    ReadLe16(s, 10, r.compression);
    ReadLe16(s, 12, r.modTime);
    ReadLe16(s, 14, r.modDate);
  }

  lemma MiddleWords(r: WireRecord)
    requires |r.name| < 0x1_0000
    ensures var s := Middle(r);
            && U32At(s, 0) == r.crc && U32At(s, 4) == Field32(r.compressed) && U32At(s, 8) == Field32(r.uncompressed)
            && U16At(s, 12) == |r.name|
  {
    hide Le16, Le32, U16At, U32At;
    var s := Middle(r);
    ReadLe32(s, 0, r.crc);
    ReadLe32(s, 4, Field32(r.compressed));
    ReadLe32(s, 8, Field32(r.uncompressed));
    ReadLe16(s, 12, |r.name|);
  }

  lemma TailWords(r: WireRecord)
    requires |ExtraBytes(r)| < 0x1_0000 && |r.comment| < 0x1_0000
    ensures var s := Tail(r);
            && U16At(s, 0) == |ExtraBytes(r)| && U16At(s, 2) == |r.comment|
            && U16At(s, 6) == r.internalAttributes && U32At(s, 8) == r.externalAttributes && U32At(s, 12) == Field32(r.offset)
  {
    hide Le16, Le32, U16At, U32At, ExtraBytes;
    var s := Tail(r);
    assert s[0..2] == Le16(|ExtraBytes(r)| % 0x1_0000) && s[2..4] == Le16(|r.comment| % 0x1_0000);
    assert s[6..8] == Le16(r.internalAttributes) && s[8..12] == Le32(r.externalAttributes) && s[12..16] == Le32(Field32(r.offset));
    ReadLe16(s, 0, |ExtraBytes(r)|);
    ReadLe16(s, 2, |r.comment|);
    ReadLe16(s, 6, r.internalAttributes);
    ReadLe32(s, 8, r.externalAttributes);
    ReadLe32(s, 12, Field32(r.offset));
  }

  lemma RecordParts(r: WireRecord, rest: seq<byte>)
    ensures var s, n, x := RecordBytes(r) + rest, |r.name|, |ExtraBytes(r)|;
            && s[0..16] == Head(r) && s[16..30] == Middle(r) && s[30..46] == Tail(r)
            && s[46..46 + n] == r.name && s[46 + n..46 + n + x] == ExtraBytes(r) && s[|RecordBytes(r)|..] == rest
  {
    hide Head, Middle, Tail, ExtraBytes;
  }

  /** Every fixed field of a record is where the reader looks for it. */
  lemma RecordWords(r: WireRecord, s: seq<byte>)
    requires IsWire(r) && 46 <= |s| && s[0..16] == Head(r) && s[16..30] == Middle(r) && s[30..46] == Tail(r)
    ensures U32At(s, 0) == CD_SIG && U16At(s, 4) == r.versionMadeBy && U16At(s, 6) == r.versionNeeded
    ensures U16At(s, 8) == r.flags && U16At(s, 10) == r.compression && U16At(s, 12) == r.modTime && U16At(s, 14) == r.modDate
    ensures U32At(s, 16) == r.crc && U32At(s, 20) == Field32(r.compressed) && U32At(s, 24) == Field32(r.uncompressed)
    ensures U16At(s, 28) == |r.name| && U16At(s, 30) == |ExtraBytes(r)| && U16At(s, 32) == |r.comment|
    ensures U16At(s, 36) == r.internalAttributes && U32At(s, 38) == r.externalAttributes && U32At(s, 42) == Field32(r.offset)
  {
    hide Head, Middle, Tail, ExtraBytes, U16At, U32At, AreOthers, Fits32;
    HeadWords(r);
    MiddleWords(r);
    TailWords(r);
    var a, b, c := s[0..16], s[16..30], s[30..46];
    WordsOfSlice(s, 0, 16);
    WordsOfSlice(s, 16, 30);
    WordsOfSlice(s, 30, 46);
    assert U32At(a, 0) == U32At(s, 0) && U16At(a, 4) == U16At(s, 4) && U16At(a, 6) == U16At(s, 6) && U16At(a, 8) == U16At(s, 8);
    assert U16At(a, 10) == U16At(s, 10) && U16At(a, 12) == U16At(s, 12) && U16At(a, 14) == U16At(s, 14);
    assert U32At(b, 0) == U32At(s, 16) && U32At(b, 4) == U32At(s, 20) && U32At(b, 8) == U32At(s, 24) && U16At(b, 12) == U16At(s, 28);
    assert U16At(c, 0) == U16At(s, 30) && U16At(c, 2) == U16At(s, 32) && U16At(c, 6) == U16At(s, 36);
    assert U32At(c, 8) == U32At(s, 38) && U32At(c, 12) == U32At(s, 42);
  }

  lemma SizesRead(r: WireRecord)
    requires IsWire(r)
    ensures var base := Sizes64(Field32(r.compressed), Field32(r.uncompressed), Field32(r.offset));
            (if Saturated(base) then FromZip64Extra(ExtraBytes(r), base) else Ok(base))
            == if IsReadable(r) then Ok(Sizes64(Value(r.compressed), Value(r.uncompressed), Value(r.offset)))
               else Err(Zip64ValueTooLarge)
  {
    hide FromZip64Block, Zip64Body, BlockBytes, BlocksBytes, Zip64Block;
    if NeedsZip64(r) {
      var body := Zip64Body(r.uncompressed, r.compressed, r.offset, r.extras.more);
      BodyIsShort(r);
      BlockFound(r.extras.before, body, r.extras.after);
      BodyRead(r.uncompressed, r.compressed, r.offset, r.extras.more);
    }
  }

  lemma BodyIsShort(r: WireRecord)
    requires NeedsZip64(r) && |ExtraBytes(r)| < 0x1_0000
    ensures |Zip64Body(r.uncompressed, r.compressed, r.offset, r.extras.more)| < 0x1_0000
  {
    hide Zip64Body;
  }

  /**
   Any record in front of anything is read whole and field for field, its zip64 values included; the
   one thing refused is a value too large to be exact.
   */
  lemma WireRecordRead(r: WireRecord, rest: seq<byte>)
    requires IsWire(r)
    ensures FirstRecord(RecordBytes(r) + rest)
            == if IsReadable(r) then Ok(Record(EntryOn(r), 46 + |r.name| + |ExtraBytes(r)| + |r.comment|))
               else Err(Zip64ValueTooLarge)
  {
    hide Head, Middle, Tail, ExtraBytes, U16At, U32At, DecodeUtf8, IsReadable, RecordBytes, Saturated, FromZip64Extra;
    var s := RecordBytes(r) + rest;
    RecordParts(r, rest);
    RecordWords(r, s);
    SizesRead(r);
  }

  /** A record that is cut off anywhere is refused. */
  lemma CutRecordIsRefused(r: WireRecord, n: nat)
    requires IsWire(r) && n < |RecordBytes(r)|
    ensures FirstRecord(RecordBytes(r)[..n]) == Err(CorruptDirectory)
  {
    hide Head, Middle, Tail, ExtraBytes, U16At, U32At, DecodeUtf8, RecordBytes;
    var s := RecordBytes(r)[..n];
    if n >= 46 {
      RecordParts(r, []);
      assert RecordBytes(r) + [] == RecordBytes(r);
      assert s[0..16] == RecordBytes(r)[0..16] && s[16..30] == RecordBytes(r)[16..30] && s[30..46] == RecordBytes(r)[30..46];
      RecordWords(r, s);
    }
  }

  // ---- The central directory ------------------------------------------------------------------

  function RecordsBytes(records: seq<WireRecord>): seq<byte> {
    if records == [] then [] else RecordBytes(records[0]) + RecordsBytes(records[1..])
  }

  function EntriesOn(records: seq<WireRecord>): (entries: seq<ZipEntry>)
    ensures |entries| == |records| && forall i :: 0 <= i < |records| ==> entries[i] == EntryOn(records[i])
  {
    seq(|records|, i requires 0 <= i < |records| => EntryOn(records[i]))
  }

  ghost predicate AreWire(records: seq<WireRecord>) {
    forall i :: 0 <= i < |records| ==> IsWire(records[i]) && IsReadable(records[i])
  }

  /** One entry per record, in order, whatever stands behind them. */
  lemma {:induction false} WireRecordsRead(records: seq<WireRecord>, rest: seq<byte>)
    requires AreWire(records)
    ensures Records(RecordsBytes(records) + rest, |records|) == Ok(EntriesOn(records))
  {
    hide RecordBytes, FirstRecord, EntryOn, IsWire, IsReadable, ExtraBytes;
    if records != [] {
      var more := RecordsBytes(records[1..]) + rest;
      assert RecordsBytes(records) + rest == RecordBytes(records[0]) + more;
      WireRecordRead(records[0], more);
      assert |RecordBytes(records[0])| == 46 + |records[0].name| + |ExtraBytes(records[0])| + |records[0].comment|;
      assert (RecordBytes(records[0]) + more)[|RecordBytes(records[0])|..] == more;
      WireRecordsRead(records[1..], rest);
      assert EntriesOn(records) == [EntryOn(records[0])] + EntriesOn(records[1..]);
    }
  }

  // ---- The end of an archive (APPNOTE 4.3.14 to 4.3.16) ---------------------------------------

  /** The end records: three counters, what the zip64 record holds for those it is not needed for, and the rest. */
  datatype Ending = Ending(
    total: Wide,
    size: Wide,
    offset: Wide,
    spare: Spare,
    disk: u16,
    directoryDisk: u16,
    here: u16,
    sector: seq<byte>,
    comment: seq<byte>)

  datatype Spare = Spare(
    total: u64,
    size: u64,
    offset: u64,
    recordSize: u64,
    versionMadeBy: u16,
    versionNeeded: u16,
    disk: u32,
    directoryDisk: u32,
    here: u64,
    disks: u32)

  /** What the 16-bit field holds. */
  function Field16(w: Wide): u16
    requires Fits16(w)
  {
    match w case Short(v) => v case Long(_) => 0xffff
  }

  predicate Fits16(w: Wide) {
    w.Short? ==> w.short < 0xffff
  }

  predicate NeedsZip64End(e: Ending) {
    e.total.Long? || e.size.Long? || e.offset.Long?
  }

  function Held(w: Wide, spare: u64): u64 {
    match w case Short(_) => spare case Long(v) => v
  }

  function Zip64EndHead(e: Ending): (s: seq<byte>)
    ensures |s| == 32
  {
    Le32(0x0606_4b50) + Le64(e.spare.recordSize) + Le16(e.spare.versionMadeBy) + Le16(e.spare.versionNeeded)
    + Le32(e.spare.disk) + Le32(e.spare.directoryDisk) + Le64(e.spare.here)
  }

  function Zip64EndBytes(e: Ending): (s: seq<byte>)
    ensures |s| == 56 + |e.sector|
  {
    Zip64EndHead(e)
    + Le64(Held(e.total, e.spare.total)) + Le64(Held(e.size, e.spare.size)) + Le64(Held(e.offset, e.spare.offset))
    + e.sector
  }

  function LocatorBytes(e: Ending, at: u64): (s: seq<byte>)
    ensures |s| == 20
  {
    Le32(0x0706_4b50) + Le32(e.spare.directoryDisk) + Le64(at) + Le32(e.spare.disks)
  }

  function EndBytes(e: Ending): (s: seq<byte>)
    requires Fits16(e.total)
    ensures |s| == 22 + |e.comment|
  {
    Le32(0x0605_4b50) + Le16(e.disk) + Le16(e.directoryDisk) + Le16(e.here) + Le16(Field16(e.total))
    + Le32(Field32(e.size)) + Le32(Field32(e.offset)) + Le16(|e.comment| % 0x1_0000) + e.comment
  }

  /** An archive: whatever is in front, the directory included, then the end records. */
  function ArchiveBytes(front: seq<byte>, e: Ending): (s: seq<byte>)
    requires Fits16(e.total) && |front| <= MAX_SAFE_INTEGER
    ensures |EndBytes(e)| <= |s|
  {
    front + (if NeedsZip64End(e) then Zip64EndBytes(e) + LocatorBytes(e, |front|) else []) + EndBytes(e)
  }

  ghost predicate IsEnding(e: Ending) {
    && Fits16(e.total) && Fits32(e.size) && Fits32(e.offset)
    && |e.comment| < 0x1_0000
    && e.spare.total <= MAX_SAFE_INTEGER && e.spare.size <= MAX_SAFE_INTEGER && e.spare.offset <= MAX_SAFE_INTEGER
    && IsSafe(e.total) && IsSafe(e.size) && IsSafe(e.offset)
  }

  ghost predicate IsArchive(front: seq<byte>, e: Ending) {
    IsEnding(e) && |front| <= MAX_SAFE_INTEGER && |ArchiveBytes(front, e)| <= MAX_SAFE_INTEGER
  }

  lemma EndWords(e: Ending)
    requires Fits16(e.total)
    ensures var s := EndBytes(e);
            && U32At(s, 0) == EOCD_SIG && U16At(s, 10) == Field16(e.total)
            && U32At(s, 12) == Field32(e.size) && U32At(s, 16) == Field32(e.offset)
  {
    hide Le16, Le32, U16At, U32At;
    var s := EndBytes(e);
    ReadLe32(s, 0, EOCD_SIG);
    ReadLe16(s, 10, Field16(e.total));
    ReadLe32(s, 12, Field32(e.size));
    ReadLe32(s, 16, Field32(e.offset));
  }

  lemma Zip64EndWords(e: Ending)
    ensures var s := Zip64EndBytes(e);
            && U32At(s, 0) == ZIP64_EOCD_SIG && U64At(s, 32) == Held(e.total, e.spare.total)
            && U64At(s, 40) == Held(e.size, e.spare.size) && U64At(s, 48) == Held(e.offset, e.spare.offset)
  {
    hide Le16, Le32, Le64, U32At, U64At, Held;
    var s := Zip64EndBytes(e);
    assert s[0..4] == Le32(ZIP64_EOCD_SIG) by { assert Zip64EndHead(e)[0..4] == Le32(ZIP64_EOCD_SIG); }
    ReadLe32(s, 0, ZIP64_EOCD_SIG);
    ReadLe64(s, 32, Held(e.total, e.spare.total));
    ReadLe64(s, 40, Held(e.size, e.spare.size));
    ReadLe64(s, 48, Held(e.offset, e.spare.offset));
  }

  lemma LocatorWords(e: Ending, at: u64)
    ensures var s := LocatorBytes(e, at);
            U32At(s, 0) == ZIP64_LOCATOR_SIG && U64At(s, 8) == at
  {
    hide Le32, Le64, U32At, U64At;
    var s := LocatorBytes(e, at);
    ReadLe32(s, 0, ZIP64_LOCATOR_SIG);
    ReadLe64(s, 8, at);
  }

  /** The zip64 record is found through the locator in front of the end record, and read. */
  lemma Zip64EndRead(front: seq<byte>, e: Ending)
    requires IsArchive(front, e) && NeedsZip64End(e)
    ensures Zip64EndAt(ArchiveBytes(front, e), |front| + 76 + |e.sector|)
            == Ok(Zip64End(Held(e.total, e.spare.total), Held(e.size, e.spare.size), Held(e.offset, e.spare.offset)))
  {
    hide Zip64EndBytes, LocatorBytes, EndBytes, U32At, U64At;
    var file, at := ArchiveBytes(front, e), |front| + 76 + |e.sector|;
    assert file[at - 20..at] == LocatorBytes(e, |front|);
    LocatorWords(e, |front|);
    var record, whole := file[|front|..|front| + 56], Zip64EndBytes(e);
    assert file[|front|..|front| + |whole|] == whole;
    assert record == whole[0..56];
    Zip64EndWords(e);
    WordsOfSlice(whole, 0, 56);
    assert U32At(record, 0) == U32At(whole, 0);
    assert U64At(record, 32) == U64At(whole, 32) && U64At(record, 40) == U64At(whole, 40) && U64At(record, 48) == U64At(whole, 48) by {
      LongWordsOfSlice(whole, 56);
    }
  }

  lemma LongWordsOfSlice(s: seq<byte>, b: nat)
    requires b <= |s|
    ensures forall k :: 0 <= k && k + 8 <= b ==> U64At(s[0..b], k) == U64At(s, k)
  {
    WordsOfSlice(s, 0, b);
    forall k | 0 <= k && k + 8 <= b ensures U64At(s[0..b], k) == U64At(s, k) {
      assert U32At(s[0..b], k) == U32At(s, 0 + k) && U32At(s[0..b], k + 4) == U32At(s, 0 + (k + 4));
    }
  }

  /** No end record's signature stands behind `at`: in the comment, that is. */
  ghost predicate IsLastEnd(file: seq<byte>, at: int) {
    forall j :: 0 <= j && at < j <= |file| - EOCD_MIN ==> U32At(file, j) != EOCD_SIG
  }

  lemma EndFound(file: seq<byte>, at: nat)
    requires |file| <= MAX_SAFE_INTEGER && |file| - EOCD_MIN - 0xffff <= at <= |file| - EOCD_MIN
    requires U32At(file, at) == EOCD_SIG && IsLastEnd(file, at)
    ensures var start := TailStart(file);
            && start <= at
            && ReadAt(file, start, |file| - start) == Ok(file[start..])
            && LastEndRecord(file[start..], |file[start..]| - EOCD_MIN) == Some(at - start)
  {
    hide U32At, LastEndRecord, ReadAt;
    var start := TailStart(file);
    T.ReadToEnd(file, start);
    var tail := file[start..];
    T.WordInTail(file, start, at);
    forall j | at - start < j <= |tail| - EOCD_MIN ensures !IsEndRecord(tail, j) {
      T.WordInTail(file, start, start + j);
    }
    assert IsEndRecord(tail, at - start);
  }

  /** Without an end record among the last 65557 bytes there is no archive. */
  lemma NoEndNoArchive(file: seq<byte>)
    requires 22 <= |file| <= MAX_SAFE_INTEGER
    requires forall j :: 0 <= j && |file| - 65557 <= j <= |file| - 22 ==> U32At(file, j) != 0x0605_4b50
    ensures Directory(file) == Err(NoEndRecord)
  {
    hide U32At, LastEndRecord, ReadAt, EndAt, Records;
    var start := TailStart(file);
    T.ReadToEnd(file, start);
    var tail := file[start..];
    forall j | 0 <= j <= |tail| - EOCD_MIN ensures !IsEndRecord(tail, j) {
      T.WordInTail(file, start, start + j);
    }
  }

  /** What the counters at the end come to: zip64's where the field is all ones, the field's own elsewhere. */
  lemma EndingRead(front: seq<byte>, e: Ending)
    requires IsArchive(front, e)
    ensures var file := ArchiveBytes(front, e);
            var at := |file| - |EndBytes(e)|;
            && at + EOCD_MIN <= |file| && U32At(file, at) == EOCD_SIG
            && EndAt(file, at) == Ok(Zip64End(Value(e.total), Value(e.size), Value(e.offset)))
  {
    hide EndBytes, Zip64EndBytes, LocatorBytes, U16At, U32At, Zip64EndAt;
    var file, end := ArchiveBytes(front, e), EndBytes(e);
    var at := |file| - |end|;
    assert file[at..|file|] == end;
    WordsOfSlice(file, at, |file|);
    EndWords(e);
    assert U32At(end, 0) == U32At(file, at) && U16At(end, 10) == U16At(file, at + 10);
    assert U32At(end, 12) == U32At(file, at + 12) && U32At(end, 16) == U32At(file, at + 16);
    if NeedsZip64End(e) {
      Zip64EndRead(front, e);
    }
  }

  /**
   Any archive whose directory lies where its end records say, with any comment that holds no end
   signature: the reader lists one entry for each of the counted records, field for field.
   */
  lemma ArchiveIsListed(front: seq<byte>, e: Ending, records: seq<WireRecord>, rest: seq<byte>)
    requires IsArchive(front, e)
    requires IsLastEnd(ArchiveBytes(front, e), |ArchiveBytes(front, e)| - |EndBytes(e)|)
    requires AreWire(records) && Value(e.total) == |records|
    requires Value(e.offset) + Value(e.size) <= |ArchiveBytes(front, e)|
    requires ArchiveBytes(front, e)[Value(e.offset)..Value(e.offset) + Value(e.size)] == RecordsBytes(records) + rest
    ensures Directory(ArchiveBytes(front, e)) == Ok(EntriesOn(records))
  {
    hide ArchiveBytes, EndBytes, U32At, EndAt, TailStart, LastEndRecord, ReadAt, Records, RecordsBytes, EntriesOn, AreWire, IsLastEnd;
    var file := ArchiveBytes(front, e);
    EndingRead(front, e);
    EndFound(file, |file| - |EndBytes(e)|);
    WireRecordsRead(records, rest);
  }

  // ---- What the rewriter writes ---------------------------------------------------------------

  /** A record without zip64 and without a comment, on the first disk. */
  function PlainRecord(f: CentralFields): WireRecord {
    WireRecord(
      f.versionMadeBy, f.common.versionNeeded, f.common.flags, f.common.compression, f.common.modTime, f.common.modDate,
      f.common.crc, Short(f.common.compressedSize), Short(f.common.uncompressedSize), f.common.name,
      Extras([], [], f.common.extra), [], 0, f.internalAttributes, f.externalAttributes, Short(f.localHeaderOffset))
  }

  lemma HeadIsWritten(f: CentralFields)
    ensures Le32(CD_SIG) + Le16(f.versionMadeBy) + Stamp(f.common) == Head(PlainRecord(f))
  {
    hide Le16, Le32;
  }

  lemma RestIsWritten(f: CentralFields)
    ensures Sizes(f.common) + Placement(f) == Middle(PlainRecord(f)) + Tail(PlainRecord(f))
  {
    hide Le16;
    assert Le32(0) == Le16(0) + Le16(0);
    hide Le32;
  }

  /** The rewriter's records are that layout, byte for byte. */
  lemma WrittenRecordIsWire(f: CentralFields)
    ensures CentralHeader(f) == RecordBytes(PlainRecord(f))
  {
    hide Le16, Le32, Stamp, Sizes, Placement, Head, Middle, Tail;
    HeadIsWritten(f);
    RestIsWritten(f);
    var r := PlainRecord(f);
    var n := f.common.name + f.common.extra;
    assert CentralHeader(f) == (Le32(CD_SIG) + Le16(f.versionMadeBy) + Stamp(f.common)) + (Sizes(f.common) + Placement(f)) + n;
    assert RecordBytes(r) == Head(r) + (Middle(r) + Tail(r)) + n;
  }

  /** And its end record is that one, both counts equal, on one disk and without a comment. */
  lemma WrittenEndIsWire(total: u16, size: u32, offset: u32)
    requires total < 0xffff
    ensures EndRecord(total, size, offset)
            == EndBytes(Ending(Short(total), Short(size), Short(offset), Spare(0, 0, 0, 0, 0, 0, 0, 0, 0, 0), 0, 0, total, [], []))
  {
    hide Le16;
    assert Le32(0) == Le16(0) + Le16(0);
    hide Le32;
  }
}
