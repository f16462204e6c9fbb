/** Reading a ZIP directory and its entries out of untrusted bytes (files/zip.rs). */
module ZipReader {
  import opened Words
  import opened Wrappers
  import opened Utf8
  import opened ZipFormat

  /** Every way the contents are refused; all of them are `Validation` errors. */
  datatype ZipError =
    | TooSmall
    | NoEndRecord
    | ImpossibleOffset
    | UnexpectedEnd
    | LocatorMissing
    | TruncatedZip64Record
    | CorruptZip64Record
    | Zip64ValueTooLarge
    | DirectoryOutsideFile
    | CorruptDirectory
    | CorruptExtra
    | Zip64ValueMissing
    | NoZip64Extra
    | CorruptLocalHeader
    | WrongUncompressedSize
    | NotInflatable
    | UnsupportedMethod

  const FILE_LIMIT := 0x1_0000_0000_0000_0000

  /** `length` bytes at `position`, with both proven against the file first. */
  function ReadAt(file: seq<byte>, position: nat, length: nat): Result<seq<byte>, ZipError> {
    if position > MAX_SAFE_INTEGER then Err(ImpossibleOffset)
    else if position + length > |file| then Err(UnexpectedEnd)
    else Ok(file[position..position + length])
  }

  function ToSafe(value: u64): (r: Result<u64, ZipError>)
    ensures r.Ok? <==> value <= MAX_SAFE_INTEGER
    ensures r.Ok? ==> r.value == value
  {
    if value > MAX_SAFE_INTEGER then Err(Zip64ValueTooLarge) else Ok(value)
  }

  // ---- The zip64 end record -----------------------------------------------------------------

  datatype Zip64End = Zip64End(total: u64, cdSize: u64, cdOffset: u64)

  function Zip64EndAt(file: seq<byte>, eocdAt: nat): (r: Result<Zip64End, ZipError>)
    ensures r.Ok? ==> r.value.total <= MAX_SAFE_INTEGER && r.value.cdSize <= MAX_SAFE_INTEGER && r.value.cdOffset <= MAX_SAFE_INTEGER
  {
    if eocdAt < ZIP64_LOCATOR_SIZE then Err(LocatorMissing)
    else
      var locator :- ReadAt(file, eocdAt - ZIP64_LOCATOR_SIZE, ZIP64_LOCATOR_SIZE);
      if U32At(locator, 0) != ZIP64_LOCATOR_SIG then Err(LocatorMissing)
      else
        var recordAt :- ToSafe(U64At(locator, 8));
        if recordAt + ZIP64_EOCD_MIN > |file| then Err(TruncatedZip64Record)
        else
          var record := file[recordAt..recordAt + ZIP64_EOCD_MIN];
          if U32At(record, 0) != ZIP64_EOCD_SIG then Err(CorruptZip64Record)
          else
            var total :- ToSafe(U64At(record, 32));
            var cdSize :- ToSafe(U64At(record, 40));
            var cdOffset :- ToSafe(U64At(record, 48));
            Ok(Zip64End(total, cdSize, cdOffset))
  }

  // ---- The zip64 extra field ----------------------------------------------------------------

  datatype Sizes64 = Sizes64(compressedSize: u64, uncompressedSize: u64, localHeaderOffset: u64)

  predicate Saturated(base: Sizes64) {
    base.compressedSize == U32_MAX || base.uncompressedSize == U32_MAX || base.localHeaderOffset == U32_MAX
  }

  /** The body of the first zip64 block among an entry's extra fields. */
  function Zip64Block(extra: seq<byte>): (r: Result<seq<byte>, ZipError>)
    decreases |extra|
  {
    if |extra| < 4 then Err(NoZip64Extra)
    else
      var size: nat := U16At(extra, 2);
      if 4 + size > |extra| then Err(CorruptExtra)
      else if U16At(extra, 0) == ZIP64_EXTRA_ID then Ok(extra[4..4 + size])
      else Zip64Block(extra[4 + size..])
  }

  /** The 64-bit word in place `slot` of a block, or the base value when that is not saturated. */
  function Slot(block: seq<byte>, slot: nat, base: u64): Result<u64, ZipError> {
    if base != U32_MAX then Ok(base)
    else if 8 * slot + 8 > |block| then Err(Zip64ValueMissing)
    else ToSafe(U64At(block, 8 * slot))
  }

  function Places(bases: seq<u64>): nat {
    if bases == [] then 0 else Places(bases[..|bases| - 1]) + (if bases[|bases| - 1] == U32_MAX then 1 else 0)
  }

  /**
   The block is positional: in the order uncompressed size, compressed size, offset, the word of a
   field stands behind as many words as there are saturated fields before it.
   */
  function FromZip64Block(block: seq<byte>, base: Sizes64): (r: Result<Sizes64, ZipError>)
    ensures r.Ok? ==>
              && (base.uncompressedSize != U32_MAX ==> r.value.uncompressedSize == base.uncompressedSize)
              && (base.compressedSize != U32_MAX ==> r.value.compressedSize == base.compressedSize)
              && (base.localHeaderOffset != U32_MAX ==> r.value.localHeaderOffset == base.localHeaderOffset)
  {
    var uncompressed :- Slot(block, 0, base.uncompressedSize);
    var compressed :- Slot(block, Places([base.uncompressedSize]), base.compressedSize);
    var offset :- Slot(block, Places([base.uncompressedSize, base.compressedSize]), base.localHeaderOffset);
    Ok(Sizes64(compressed, uncompressed, offset))
  }

  function FromZip64Extra(extra: seq<byte>, base: Sizes64): Result<Sizes64, ZipError> {
    var block :- Zip64Block(extra);
    FromZip64Block(block, base)
  }

  method TakeWord(block: seq<byte>, p: nat) returns (r: Result<u64, ZipError>)
    ensures r == if p + 8 > |block| then Err(Zip64ValueMissing) else ToSafe(U64At(block, p))
  {
    if p + 8 > |block| {
      return Err(Zip64ValueMissing);
    }
    return ToSafe(U64At(block, p));
  }

  /** Takes the words one after another: the order these three run in is the wire format. */
  method TakeSizes(block: seq<byte>, base: Sizes64) returns (r: Result<Sizes64, ZipError>)
    ensures r == FromZip64Block(block, base)
  {
    assert Places([]) == 0 && [base.uncompressedSize][..0] == [];
    assert [base.uncompressedSize, base.compressedSize][..1] == [base.uncompressedSize];
    var p := 0;
    var uncompressed := base.uncompressedSize;
    if base.uncompressedSize == U32_MAX {
      uncompressed :- TakeWord(block, p);
      p := p + 8;
    }
    var compressed := base.compressedSize;
    if base.compressedSize == U32_MAX {
      compressed :- TakeWord(block, p);
      p := p + 8;
    }
    var offset := base.localHeaderOffset;
    if base.localHeaderOffset == U32_MAX {
      offset :- TakeWord(block, p);
      p := p + 8;
    }
    return Ok(Sizes64(compressed, uncompressed, offset));
  }

  method ApplyZip64Extra(cd: seq<byte>, extraStart: nat, extraEnd: nat, base: Sizes64) returns (r: Result<Sizes64, ZipError>)
    requires extraStart <= extraEnd <= |cd| < FILE_LIMIT
    ensures r == FromZip64Extra(cd[extraStart..extraEnd], base)
  {
    hide FromZip64Block;
    var at := extraStart;
    while at + 4 <= extraEnd
      invariant extraStart <= at <= extraEnd
      invariant Zip64Block(cd[extraStart..extraEnd]) == Zip64Block(cd[at..extraEnd])
    {
      var id := U16At(cd, at);
      var size: nat := U16At(cd, at + 2);
      var body: u64 := at + 4;
      WordsOfSlice(cd, at, extraEnd);
      if body + size > extraEnd {
        return Err(CorruptExtra);
      }
      SliceOfSlice(cd, at, extraEnd, 4, 4 + size);
      if id == ZIP64_EXTRA_ID {
        r := TakeSizes(cd[body..body + size], base);
        return;
      }
      SliceOfSlice(cd, at, extraEnd, 4 + size, extraEnd - at);
      at := body + size;
    }
    return Err(NoZip64Extra);
  }

  // ---- The central directory ----------------------------------------------------------------

  datatype Record = Record(entry: ZipEntry, size: nat)

  function EntrySizes(record: seq<byte>, nameEnd: nat, extraEnd: nat): Result<Sizes64, ZipError>
    requires CD_MIN <= nameEnd <= extraEnd <= |record|
  {
    var base := Sizes64(U32At(record, 20), U32At(record, 24), U32At(record, 42));
    if Saturated(base) then FromZip64Extra(record[nameEnd..extraEnd], base) else Ok(base)
  }

  /** The record at the front of `rest`, and how many bytes it takes. */
  function FirstRecord(rest: seq<byte>): (r: Result<Record, ZipError>)
    ensures r.Ok? ==> CD_MIN <= r.value.size <= |rest|
  {
    if |rest| < CD_MIN || U32At(rest, 0) != CD_SIG then Err(CorruptDirectory)
    else
      var nameEnd: nat := CD_MIN + U16At(rest, 28);
      var extraEnd: nat := nameEnd + U16At(rest, 30);
      var next: nat := extraEnd + U16At(rest, 32);
      if next > |rest| then Err(CorruptDirectory)
      else
        var sizes :- EntrySizes(rest, nameEnd, extraEnd);
        Ok(Record(
             ZipEntry(
               DecodeUtf8(rest[CD_MIN..nameEnd]), U16At(rest, 10),
               sizes.compressedSize, sizes.uncompressedSize, sizes.localHeaderOffset,
               U16At(rest, 8), U32At(rest, 16), U16At(rest, 12), U16At(rest, 14),
               U16At(rest, 4), U16At(rest, 6), U16At(rest, 36), U32At(rest, 38)),
             next))
  }

  function Records(rest: seq<byte>, count: nat): Result<seq<ZipEntry>, ZipError>
    decreases count
  {
    if count == 0 then Ok([])
    else
      var first :- FirstRecord(rest);
      var others :- Records(rest[first.size..], count - 1);
      Ok([first.entry] + others)
  }

  /** Where the last end-of-central-directory signature with a whole record behind it is. */
  ghost predicate IsEndRecord(tail: seq<byte>, i: int) {
    0 <= i <= |tail| - EOCD_MIN && U32At(tail, i) == EOCD_SIG
  }

  function LastEndRecord(tail: seq<byte>, from: int): (r: Option<nat>)
    requires -1 <= from <= |tail| - EOCD_MIN
    ensures r.Some? ==> r.value <= from && IsEndRecord(tail, r.value) && forall j :: r.value < j <= from ==> !IsEndRecord(tail, j)
    ensures r.None? ==> forall j :: 0 <= j <= from ==> !IsEndRecord(tail, j)
    decreases from + 1
  {
    if from < 0 then None else if U32At(tail, from) == EOCD_SIG then Some(from) else LastEndRecord(tail, from - 1)
  }

  function TailStart(file: seq<byte>): nat {
    if |file| <= EOCD_MIN + MAX_COMMENT then 0 else |file| - (EOCD_MIN + MAX_COMMENT)
  }

  /** What the end record (with the zip64 record behind its saturated fields) says. */
  function EndAt(file: seq<byte>, at: nat): (r: Result<Zip64End, ZipError>)
    requires at + EOCD_MIN <= |file|
    ensures r.Ok? ==> r.value.total <= MAX_SAFE_INTEGER && r.value.cdSize <= MAX_SAFE_INTEGER && r.value.cdOffset <= MAX_SAFE_INTEGER
  {
    var total: u64, cdSize: u64, cdOffset: u64 := U16At(file, at + 10), U32At(file, at + 12), U32At(file, at + 16);
    if total != U16_MAX && cdSize != U32_MAX && cdOffset != U32_MAX then Ok(Zip64End(total, cdSize, cdOffset))
    else
      var end :- Zip64EndAt(file, at);
      Ok(Zip64End(
           if total == U16_MAX then end.total else total,
           if cdSize == U32_MAX then end.cdSize else cdSize,
           if cdOffset == U32_MAX then end.cdOffset else cdOffset))
  }

  /** The entries of an archive, in directory order, or why it is not one. */
  function Directory(file: seq<byte>): Result<seq<ZipEntry>, ZipError> {
    if |file| < EOCD_MIN then Err(TooSmall)
    else
      var start := TailStart(file);
      var tail :- ReadAt(file, start, |file| - start);
      var found := LastEndRecord(tail, |tail| - EOCD_MIN);
      if found.None? then Err(NoEndRecord)
      else
        var end :- EndAt(file, start + found.value);
        if end.cdOffset + end.cdSize > |file| then Err(DirectoryOutsideFile)
        else Records(file[end.cdOffset..end.cdOffset + end.cdSize], end.total)
  }

  method ReadRecord(cd: seq<byte>, p: u64) returns (r: Result<Record, ZipError>)
    requires p <= |cd| <= MAX_SAFE_INTEGER
    ensures r == FirstRecord(cd[p..])
  {
    hide FromZip64Extra, U16At, U32At, DecodeUtf8;
    if p + CD_MIN > |cd| {
      return Err(CorruptDirectory);
    }
    WordsOfSlice(cd, p, |cd|);
    assert cd[p..|cd|] == cd[p..];
    if U32At(cd, p) != CD_SIG {
      return Err(CorruptDirectory);
    }
    var nameLength := U16At(cd, p + 28);
    var extraLength := U16At(cd, p + 30);
    var next: u64 := p + CD_MIN + nameLength + extraLength + U16At(cd, p + 32);
    if next > |cd| {
      return Err(CorruptDirectory);
    }
    var nameEnd, extraEnd := p + CD_MIN + nameLength, p + CD_MIN + nameLength + extraLength;
    SliceOfSlice(cd, p, |cd|, CD_MIN, nameEnd - p);
    SliceOfSlice(cd, p, |cd|, nameEnd - p, extraEnd - p);
    var base := Sizes64(U32At(cd, p + 20), U32At(cd, p + 24), U32At(cd, p + 42));
    var sizes := base;
    if base.compressedSize == U32_MAX || base.uncompressedSize == U32_MAX || base.localHeaderOffset == U32_MAX {
      sizes :- ApplyZip64Extra(cd, nameEnd, extraEnd, base);
    }
    var entry := ZipEntry(
      DecodeUtf8(cd[p + CD_MIN..nameEnd]), U16At(cd, p + 10),
      sizes.compressedSize, sizes.uncompressedSize, sizes.localHeaderOffset,
      U16At(cd, p + 8), U32At(cd, p + 16), U16At(cd, p + 12), U16At(cd, p + 14),
      U16At(cd, p + 4), U16At(cd, p + 6), U16At(cd, p + 36), U32At(cd, p + 38));
    return Ok(Record(entry, next - p));
  }

  /** `Records` with entries read earlier in front. */
  function RecordsAfter(entries: seq<ZipEntry>, rest: seq<byte>, count: nat): Result<seq<ZipEntry>, ZipError> {
    var more :- Records(rest, count);
    Ok(entries + more)
  }

  /**
   The record loop. However large the declared count, it turns at most once more than the bytes
   present have room for.
   */
  method ReadRecords(cd: seq<byte>, total: u64) returns (r: Result<seq<ZipEntry>, ZipError>, ghost turns: nat)
    requires |cd| <= MAX_SAFE_INTEGER
    ensures r == Records(cd, total)
    ensures turns <= |cd| / CD_MIN + 1
  {
    hide FirstRecord;
    var entries: seq<ZipEntry> := [];
    var p: u64 := 0;
    turns := 0;
    assert cd[0..] == cd;
    if Records(cd, total).Ok? {
      assert [] + Records(cd, total).value == Records(cd, total).value;
    }
    for i := 0 to total
      invariant turns == i
      invariant CD_MIN * i <= p <= |cd|
      invariant Records(cd, total) == RecordsAfter(entries, cd[p..], total - i)
    {
      turns := turns + 1;
      var record := ReadRecord(cd, p);
      if record.Err? {
        return Err(record.error), turns;
      }
      var next := p + record.value.size;
      assert cd[p..][record.value.size..] == cd[next..];
      AfterOne(entries, cd[p..], total - i);
      entries := entries + [record.value.entry];
      p := next;
    }
    assert entries + [] == entries;
    return Ok(entries), turns;
  }

  lemma AfterOne(entries: seq<ZipEntry>, rest: seq<byte>, count: nat)
    requires count > 0 && FirstRecord(rest).Ok?
    ensures var first := FirstRecord(rest).value;
            RecordsAfter(entries, rest, count) == RecordsAfter(entries + [first.entry], rest[first.size..], count - 1)
  {
    hide FirstRecord;
    var first := FirstRecord(rest).value;
    var more := Records(rest[first.size..], count - 1);
    if more.Ok? {
      assert entries + ([first.entry] + more.value) == (entries + [first.entry]) + more.value;
    }
  }

  // ---- The whole directory ------------------------------------------------------------------

  method ReadZip64End(file: seq<byte>, eocdAt: u64) returns (r: Result<Zip64End, ZipError>)
    requires eocdAt <= |file| < FILE_LIMIT
    ensures r == Zip64EndAt(file, eocdAt)
  {
    if eocdAt < ZIP64_LOCATOR_SIZE {
      return Err(LocatorMissing);
    }
    var locator :- ReadAt(file, eocdAt - ZIP64_LOCATOR_SIZE, ZIP64_LOCATOR_SIZE);
    if U32At(locator, 0) != ZIP64_LOCATOR_SIG {
      return Err(LocatorMissing);
    }
    var recordAt :- ToSafe(U64At(locator, 8));
    var recordEnd: u64 := recordAt + ZIP64_EOCD_MIN;
    if recordEnd > |file| {
      return Err(TruncatedZip64Record);
    }
    var record := file[recordAt..recordEnd];
    if U32At(record, 0) != ZIP64_EOCD_SIG {
      return Err(CorruptZip64Record);
    }
    var total :- ToSafe(U64At(record, 32));
    var cdSize :- ToSafe(U64At(record, 40));
    var cdOffset :- ToSafe(U64At(record, 48));
    return Ok(Zip64End(total, cdSize, cdOffset));
  }

  method FindEndRecord(tail: seq<byte>) returns (found: Option<nat>)
    requires |tail| >= EOCD_MIN
    ensures found == LastEndRecord(tail, |tail| - EOCD_MIN)
  {
    var i := |tail| - EOCD_MIN;
    while i >= 0
      invariant -1 <= i <= |tail| - EOCD_MIN
      invariant LastEndRecord(tail, |tail| - EOCD_MIN) == LastEndRecord(tail, i)
    {
      if U32At(tail, i) == EOCD_SIG {
        return Some(i);
      }
      i := i - 1;
    }
    return None;
  }

  /** The counters of the end record at `at`, whose bytes are `record`. */
  method ReadEnd(file: seq<byte>, at: u64, record: seq<byte>) returns (r: Result<Zip64End, ZipError>)
    requires at + EOCD_MIN <= |file| < FILE_LIMIT && record == file[at..at + EOCD_MIN]
    ensures r == EndAt(file, at)
  {
    hide U16At, U32At, Zip64EndAt;
    WordsOfSlice(file, at, at + EOCD_MIN);
    var total: u64 := U16At(record, 10);
    var cdSize: u64 := U32At(record, 12);
    var cdOffset: u64 := U32At(record, 16);
    if total == U16_MAX || cdSize == U32_MAX || cdOffset == U32_MAX {
      var end :- ReadZip64End(file, at);
      if total == U16_MAX {
        total := end.total;
      }
      if cdSize == U32_MAX {
        cdSize := end.cdSize;
      }
      if cdOffset == U32_MAX {
        cdOffset := end.cdOffset;
      }
    }
    return Ok(Zip64End(total, cdSize, cdOffset));
  }

  lemma TailFits(file: seq<byte>)
    ensures TailStart(file) <= |file|
    ensures |file| - TailStart(file) == if |file| < EOCD_MIN + MAX_COMMENT then |file| else EOCD_MIN + MAX_COMMENT
  {
  }

  /**
   The reader: for every byte string it ends in the entries or a refusal, with every sum inside 64
   bits and every index inside the bytes read.
   */
  method ReadEntries(file: seq<byte>) returns (r: Result<seq<ZipEntry>, ZipError>)
    requires |file| < FILE_LIMIT
    ensures r == Directory(file)
  {
    hide EndAt, Records, LastEndRecord, TailStart, U32At;
    TailFits(file);
    var size: u64 := |file|;
    if size < EOCD_MIN {
      return Err(TooSmall);
    }
    var tailLength := if size < EOCD_MIN + MAX_COMMENT then size else EOCD_MIN + MAX_COMMENT;
    var tailStart := size - tailLength;
    var tail :- ReadAt(file, tailStart, tailLength);
    var found := FindEndRecord(tail);
    if found.None? {
      return Err(NoEndRecord);
    }
    var eocd := found.value;
    SliceOfSlice(file, tailStart, size, eocd, eocd + EOCD_MIN);
    var end :- ReadEnd(file, tailStart + eocd, tail[eocd..eocd + EOCD_MIN]);
    var cdEnd: u64 := end.cdOffset + end.cdSize;
    if cdEnd > size {
      return Err(DirectoryOutsideFile);
    }
    ghost var turns;
    r, turns := ReadRecords(file[end.cdOffset..cdEnd], end.total);
  }
}
