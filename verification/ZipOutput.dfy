/** What a rewritten archive says in its local headers, when there is one at all, and how its data is reached. */
module ZipOutput {
  import opened Words
  import opened Wrappers
  import opened Utf8
  import opened ZipFormat
  import opened EntryReading
  import opened ZipWriter
  import opened ZipRoundTrip
  import R = ZipReader
  import Sorting

  // ---- Local headers (APPNOTE 4.3.7) ----------------------------------------------------------

  /** A local header's fields by their offsets. */
  lemma LocalWords(f: CommonFields)
    requires |f.name| <= U16_MAX && |f.extra| <= U16_MAX
    ensures var s, n := LocalHeader(f), |f.name|;
            && U32At(s, 0) == 0x0403_4b50
            && U16At(s, 4) == f.versionNeeded && U16At(s, 6) == f.flags && U16At(s, 8) == f.compression
            && U16At(s, 10) == f.modTime && U16At(s, 12) == f.modDate
            && U32At(s, 14) == f.crc && U32At(s, 18) == f.compressedSize && U32At(s, 22) == f.uncompressedSize
            && U16At(s, 26) == n && U16At(s, 28) == |f.extra|
            && s[30..30 + n] == f.name && s[30 + n..] == f.extra
  {
    hide Le16, Le32, Stamp, Sizes, U16At, U32At;
    var s := LocalHeader(f);
    assert s[0..4] == Le32(LOCAL_SIG) && s[4..14] == Stamp(f) && s[14..30] == Sizes(f);
    ReadLe32(s, 0, LOCAL_SIG);
    StampWords(s[4..14], f);
    SizesWords(s[14..30], f);
    WordsOfSlice(s, 4, 14);
    WordsOfSlice(s, 14, 30);
    var a, b := s[4..14], s[14..30];
    assert U16At(a, 0) == U16At(s, 4) && U16At(a, 2) == U16At(s, 6) && U16At(a, 4) == U16At(s, 8);
    assert U16At(a, 6) == U16At(s, 10) && U16At(a, 8) == U16At(s, 12);
    assert U32At(b, 0) == U32At(s, 14) && U32At(b, 4) == U32At(s, 18) && U32At(b, 8) == U32At(s, 22);
    assert U16At(b, 12) == U16At(s, 26) && U16At(b, 14) == U16At(s, 28);
  }

  /** The local header an entry's record leads to says what the record says, and has no extra field. */
  ghost predicate LocalHeaderAgrees(out: seq<byte>, entry: ZipEntry, name: seq<byte>) {
    var at: nat := entry.localHeaderOffset;
    && at + 30 + |name| <= |out|
    && U32At(out, at) == 0x0403_4b50
    && U16At(out, at + 4) == entry.versionNeeded && U16At(out, at + 6) == entry.flags && U16At(out, at + 8) == entry.compression
    && U16At(out, at + 10) == entry.modTime && U16At(out, at + 12) == entry.modDate
    && U32At(out, at + 14) == entry.crc && U32At(out, at + 18) == entry.compressedSize && U32At(out, at + 22) == entry.uncompressedSize
    && U16At(out, at + 26) == |name| && U16At(out, at + 28) == 0
    && out[at + 30..at + 30 + |name|] == name
  }

  lemma HeaderIsCopied(out: seq<byte>, at: nat, header: seq<byte>)
    requires at + |header| <= |out| && out[at..at + |header|] == header
    ensures forall k :: 0 <= k && k + 2 <= |header| ==> U16At(out, at + k) == U16At(header, k)
    ensures forall k :: 0 <= k && k + 4 <= |header| ==> U32At(out, at + k) == U32At(header, k)
    ensures forall i, j :: 0 <= i <= j <= |header| ==> out[at + i..at + j] == header[i..j]
  {
    WordsOfSlice(out, at, at + |header|);
    forall i, j | 0 <= i <= j <= |header| ensures out[at + i..at + j] == header[i..j] {
      SliceOfSlice(out, at, at + |header|, i, j);
    }
  }

  lemma WrittenHeader(out: seq<byte>, input: seq<byte>, entry: ZipEntry, request: Request, offset: u64)
    requires Representable(entry, Replacement(entry, request), offset)
    requires LiesAt(out, input, PlannedAt(entry, request, offset))
    ensures LocalHeaderAgrees(out, Expected(entry, Replacement(entry, request), offset), EncodeAll(entry.name))
  {
    hide LocalHeader, U16At, U32At, Payload, EncodeAll, WithoutDescriptor;
    var f := PlannedAt(entry, request, offset).fields.common;
    var header, at: nat := LocalHeader(f), offset;
    LocalWords(f);
    assert out[at..at + |header|] == header;
    HeaderIsCopied(out, at, header);
    assert out[at + 30..at + (30 + |f.name|)] == header[30..30 + |f.name|];
    assert U32At(out, at + 0) == U32At(header, 0);
  }

  /** Every local header of a rewritten archive repeats its directory record, as a streaming reader needs it to. */
  lemma LocalHeadersAgree(input: seq<byte>, request: Request)
    requires Rewritten(input, request).Ok?
    ensures var out, kept := Rewritten(input, request).value, Kept(input, request);
            |EntriesIn(out)| == |kept| && forall k :: 0 <= k < |kept| ==>
              LocalHeaderAgrees(out, EntriesIn(out)[k], EncodeAll(kept[k].name)) && EntriesIn(out)[k].flags / 8 % 2 == 0
  {
    hide Rewritten, Kept, EntriesIn, Representable, Replacement, LiesAt, LocalHeaderAgrees, Fields;
    var out, kept := Rewritten(input, request).value, Kept(input, request);
    RewriteRoundTrip(input, request);
    forall k | 0 <= k < |kept|
      ensures LocalHeaderAgrees(out, EntriesIn(out)[k], EncodeAll(kept[k].name)) && EntriesIn(out)[k].flags / 8 % 2 == 0
    {
      WrittenHeader(out, input, kept[k], request, EntriesIn(out)[k].localHeaderOffset);
    }
  }

  // ---- When a rewrite is refused --------------------------------------------------------------

  /** The bytes of data an entry is written with, and the size it is declared with. */
  function Written(entry: ZipEntry, request: Request): nat {
    if entry.name in request.replace then |request.replace[entry.name]| else entry.compressedSize
  }

  function Declared(entry: ZipEntry, request: Request): nat {
    if entry.name in request.replace then |request.replace[entry.name]| else entry.uncompressedSize
  }

  /** Where entry `k` goes, each behind the header and data of the one before. */
  function Place(entries: seq<ZipEntry>, request: Request, offset: nat, k: nat): nat
    requires k <= |entries|
    decreases k
  {
    if k == 0 then offset
    else Place(entries[1..], request, offset + 30 + |EncodeAll(entries[0].name)| + Written(entries[0], request), k - 1)
  }

  /** Not encrypted, and every number fits its field without being the one that stands for zip64. */
  predicate IsAcceptable(entry: ZipEntry, request: Request, place: nat) {
    && entry.flags % 2 == 0
    && Written(entry, request) < 0xffff_ffff && Declared(entry, request) < 0xffff_ffff && place < 0xffff_ffff
    && |EncodeAll(entry.name)| <= 0xffff
  }

  ghost predicate AcceptableTo(entries: seq<ZipEntry>, request: Request, offset: nat, n: nat)
    requires n <= |entries|
  {
    forall k :: 0 <= k < n ==> IsAcceptable(entries[k], request, Place(entries, request, offset, k))
  }

  ghost predicate IsFirstRefused(entries: seq<ZipEntry>, request: Request, offset: nat, k: nat) {
    && k < |entries| && AcceptableTo(entries, request, offset, k)
    && !IsAcceptable(entries[k], request, Place(entries, request, offset, k))
  }

  lemma {:induction false} AcceptableShift(entries: seq<ZipEntry>, request: Request, offset: nat, n: nat)
    requires 0 < n <= |entries|
    ensures var next := offset + 30 + |EncodeAll(entries[0].name)| + Written(entries[0], request);
            AcceptableTo(entries, request, offset, n)
            <==> IsAcceptable(entries[0], request, offset) && AcceptableTo(entries[1..], request, next, n - 1)
  {
    hide EncodeAll, IsAcceptable;
    var next := offset + 30 + |EncodeAll(entries[0].name)| + Written(entries[0], request);
    forall k | 0 < k < n ensures Place(entries, request, offset, k) == Place(entries[1..], request, next, k - 1) {
    }
    if AcceptableTo(entries, request, offset, n) {
      forall k | 0 <= k < n - 1 ensures IsAcceptable(entries[1..][k], request, Place(entries[1..], request, next, k)) {
        assert IsAcceptable(entries[k + 1], request, Place(entries, request, offset, k + 1));
      }
      assert IsAcceptable(entries[0], request, Place(entries, request, offset, 0));
    }
    if IsAcceptable(entries[0], request, offset) && AcceptableTo(entries[1..], request, next, n - 1) {
      forall k | 0 <= k < n ensures IsAcceptable(entries[k], request, Place(entries, request, offset, k)) {
        assert k > 0 ==> entries[k] == entries[1..][k - 1];
      }
    }
  }

  /** What the planner says of one entry. */
  lemma OnePlanned(entry: ZipEntry, request: Request, place: nat)
    ensures IsAcceptable(entry, request, place)
            <==> !IsEncrypted(entry.flags) && Representable(entry, Replacement(entry, request), place)
    ensures IsEncrypted(entry.flags) <==> entry.flags % 2 == 1
    ensures IsAcceptable(entry, request, place) ==>
              Room(Planned(entry, Fields(entry, Replacement(entry, request), place), Replacement(entry, request)))
              == 30 + |EncodeAll(entry.name)| + Written(entry, request)
  {
    hide EncodeAll, WithoutDescriptor;
  }

  /** A plan exists exactly when every entry is acceptable; otherwise the first that is not says why. */
  lemma {:induction false} FirstRefusalDecides(entries: seq<ZipEntry>, request: Request, offset: nat)
    ensures Plan(entries, request, offset).Ok? <==> AcceptableTo(entries, request, offset, |entries|)
    ensures forall k: nat :: IsFirstRefused(entries, request, offset, k) ==>
              Plan(entries, request, offset) == Err(if entries[k].flags % 2 == 1 then Encrypted else Unrepresentable)
    ensures Plan(entries, request, offset).Err? ==> exists k: nat :: IsFirstRefused(entries, request, offset, k)
    decreases |entries|
  {
    hide EncodeAll, IsAcceptable, IsEncrypted, Representable, Replacement, Fields, Room, Written, AcceptableTo, IsFirstRefused;
    forall k: nat | IsFirstRefused(entries, request, offset, k) ensures k < |entries| {
      RefusedIsThere(entries, request, offset, k);
    }
    if entries == [] {
      NoneToAccept(entries, request, offset);
    } else {
      var next := offset + 30 + |EncodeAll(entries[0].name)| + Written(entries[0], request);
      OnePlanned(entries[0], request, offset);
      FirstRefusalDecides(entries[1..], request, next);
      AcceptableShift(entries, request, offset, |entries|);
      NoneToAccept(entries, request, offset);
      FirstRefusedAtFront(entries, request, offset);
      forall k: nat | 0 < k < |entries|
        ensures IsFirstRefused(entries, request, offset, k)
                <==> IsAcceptable(entries[0], request, offset) && IsFirstRefused(entries[1..], request, next, k - 1)
      {
        FirstRefusedShift(entries, request, offset, k);
      }
      if IsAcceptable(entries[0], request, offset) && Plan(entries[1..], request, next).Err? {
        var k: nat :| IsFirstRefused(entries[1..], request, next, k);
        assert k < |entries[1..]| by { RefusedIsThere(entries[1..], request, next, k); }
        assert IsFirstRefused(entries, request, offset, k + 1);
      }
      forall k: nat | IsFirstRefused(entries, request, offset, k)
        ensures Plan(entries, request, offset) == Err(if entries[k].flags % 2 == 1 then Encrypted else Unrepresentable)
      {
        assert k > 0 ==> entries[k] == entries[1..][k - 1];
        assert k > 0 ==> IsFirstRefused(entries[1..], request, next, k - 1);
      }
    }
  }

  lemma RefusedIsThere(entries: seq<ZipEntry>, request: Request, offset: nat, k: nat)
    requires IsFirstRefused(entries, request, offset, k)
    ensures k < |entries|
  {
  }

  lemma FirstRefusedAtFront(entries: seq<ZipEntry>, request: Request, offset: nat)
    requires entries != []
    ensures IsFirstRefused(entries, request, offset, 0) <==> !IsAcceptable(entries[0], request, offset)
  {
    hide IsAcceptable;
  }

  lemma FirstRefusedShift(entries: seq<ZipEntry>, request: Request, offset: nat, k: nat)
    requires 0 < k < |entries|
    ensures IsFirstRefused(entries, request, offset, k)
            <==> IsAcceptable(entries[0], request, offset)
                 && IsFirstRefused(entries[1..], request, offset + 30 + |EncodeAll(entries[0].name)| + Written(entries[0], request), k - 1)
  {
    hide EncodeAll, IsAcceptable, AcceptableTo, Written;
    AcceptableShift(entries, request, offset, k);
  }

  lemma NoneToAccept(entries: seq<ZipEntry>, request: Request, offset: nat)
    ensures AcceptableTo(entries, request, offset, 0)
  {
  }

  lemma {:induction false} PlanRoom(entries: seq<ZipEntry>, request: Request, offset: nat)
    requires Plan(entries, request, offset).Ok?
    ensures var plan := Plan(entries, request, offset).value;
            && |plan| == |entries|
            && offset + TotalRoom(plan) == Place(entries, request, offset, |entries|)
            && |ZipWriter.Directory(plan)| == DirectorySize(entries)
    decreases |entries|
  {
    hide EncodeAll, IsEncrypted, Representable, Replacement, Fields, Room, Written, CentralHeader;
    if entries != [] {
      OnePlanned(entries[0], request, offset);
      OneRecord(entries[0], Replacement(entries[0], request), offset);
      PlanRoom(entries[1..], request, offset + 30 + |EncodeAll(entries[0].name)| + Written(entries[0], request));
    }
  }

  lemma OneRecord(entry: ZipEntry, replacement: Option<seq<byte>>, offset: nat)
    requires Representable(entry, replacement, offset)
    ensures |CentralHeader(Fields(entry, replacement, offset))| == 46 + |EncodeAll(entry.name)|
  {
    hide EncodeAll, WithoutDescriptor;
  }

  function DirectorySize(entries: seq<ZipEntry>): nat {
    if entries == [] then 0 else 46 + |EncodeAll(entries[0].name)| + DirectorySize(entries[1..])
  }

  /** Every entry that is copied has its data in the input. */
  ghost predicate DataIsThere(input: seq<byte>, entries: seq<ZipEntry>, request: Request) {
    forall k :: 0 <= k < |entries| ==> entries[k].name in request.replace || DataOffset(input, entries[k]).Ok?
  }

  lemma CopyNeedsData(input: seq<byte>, entry: ZipEntry)
    requires SafeEntry(entry)
    ensures CompressedBytes(input, entry).Ok? <==> DataOffset(input, entry).Ok?
    ensures CompressedBytes(input, entry).Err? ==> CompressedBytes(input, entry).error == Unreadable
  {
    hide U16At, U32At;
    var at: nat := entry.localHeaderOffset;
    if at + LOCAL_MIN <= |input| {
      WordsOfSlice(input, at, at + LOCAL_MIN);
      var local := input[at..at + LOCAL_MIN];
      assert U32At(local, 0) == U32At(input, at + 0);
      assert U16At(local, 26) == U16At(input, at + 26) && U16At(local, 28) == U16At(input, at + 28);
    }
  }

  lemma {:induction false} BodyNeedsData(input: seq<byte>, entries: seq<ZipEntry>, request: Request, offset: nat)
    requires Plan(entries, request, offset).Ok?
    requires forall k :: 0 <= k < |entries| ==> SafeEntry(entries[k])
    ensures Body(input, Plan(entries, request, offset).value).Ok? <==> DataIsThere(input, entries, request)
    ensures Body(input, Plan(entries, request, offset).value).Err? ==>
              Body(input, Plan(entries, request, offset).value).error == Unreadable
    decreases |entries|
  {
    hide EncodeAll, IsEncrypted, Representable, Fields, Room, LocalHeader, CompressedBytes, DataOffset, SafeEntry;
    if entries != [] {
      var replacement := Replacement(entries[0], request);
      var planned := Planned(entries[0], Fields(entries[0], replacement, offset), replacement);
      CopyNeedsData(input, entries[0]);
      BodyNeedsData(input, entries[1..], request, offset + Room(planned));
      assert DataIsThere(input, entries, request)
        <==> (entries[0].name in request.replace || DataOffset(input, entries[0]).Ok?) && DataIsThere(input, entries[1..], request) by {
        assert forall k :: 0 < k < |entries| ==> entries[k] == entries[1..][k - 1];
        assert forall k :: 0 <= k < |entries| - 1 ==> entries[1..][k] == entries[k + 1];
      }
    }
  }

  ghost predicate NamesAreThere(input: seq<byte>, request: Request) {
    forall name :: name in request.replace ==> exists i :: 0 <= i < |EntriesIn(input)| && EntriesIn(input)[i].name == name
  }

  lemma NamesInOrder(input: seq<byte>, request: Request)
    ensures NamesAreThere(input, request)
            <==> !exists name :: name in request.replace && name !in Names(InFileOrder(EntriesIn(input)))
  {
    hide EntriesIn, InFileOrder;
    var entries := EntriesIn(input);
    var ordered := InFileOrder(entries);
    assert forall e :: e in entries <==> e in ordered by { SameEntries(entries); }
    forall name ensures name in Names(ordered) <==> exists i :: 0 <= i < |entries| && entries[i].name == name {
      if i :| 0 <= i < |entries| && entries[i].name == name {
        assert entries[i] in ordered;
        var j :| 0 <= j < |ordered| && ordered[j] == entries[i];
        assert Names(ordered)[j] == name;
      }
      if name in Names(ordered) {
        var j :| 0 <= j < |ordered| && Names(ordered)[j] == name;
        assert ordered[j] in entries;
      }
    }
  }

  lemma SameEntries(entries: seq<ZipEntry>)
    ensures forall e :: e in entries <==> e in InFileOrder(entries)
  {
    hide InFileOrder;
    FileOrder(entries, 0);
    forall e ensures e in entries <==> e in InFileOrder(entries) {
      assert e in multiset(entries) <==> e in multiset(InFileOrder(entries));
    }
  }

  /** Counts and sizes fit an end record without zip64. */
  predicate EndFits(kept: seq<ZipEntry>, request: Request) {
    |kept| <= 65534 && Place(kept, request, 0, |kept|) < 0xffff_ffff && DirectorySize(kept) < 0xffff_ffff
  }

  /** When there is a rewrite, and why not where there is none: the first of these that applies. */
  lemma RewriteSucceedsExactly(input: seq<byte>, request: Request)
    ensures var kept, out, read := Kept(input, request), Rewritten(input, request), R.Directory(input);
            && (read.Err? ==> out == Err(NotAnArchive(read.error)))
            && (read.Ok? && !NamesAreThere(input, request) ==> out == Err(InvalidRequest))
            && (read.Ok? && NamesAreThere(input, request) ==>
                  && (forall k: nat :: IsFirstRefused(kept, request, 0, k) ==>
                        out == Err(if kept[k].flags % 2 == 1 then Encrypted else Unrepresentable))
                  && (AcceptableTo(kept, request, 0, |kept|) && !EndFits(kept, request) ==> out == Err(Unrepresentable))
                  && (AcceptableTo(kept, request, 0, |kept|) && EndFits(kept, request) && !DataIsThere(input, kept, request) ==>
                        out == Err(Unreadable))
                  && (out.Ok? <==>
                        AcceptableTo(kept, request, 0, |kept|) && EndFits(kept, request) && DataIsThere(input, kept, request)))
  {
    hide R.Directory, InFileOrder, Surviving, Plan, Body, EndRecord, ZipWriter.Directory, TotalRoom, IsFirstRefused, AcceptableTo,
      DataIsThere, NamesAreThere, Place, DirectorySize;
    var kept := Kept(input, request);
    NamesInOrder(input, request);
    FirstRefusalDecides(kept, request, 0);
    forall k: nat | IsFirstRefused(kept, request, 0, k) ensures k < |kept| {
      RefusedIsThere(kept, request, 0, k);
    }
    if R.Directory(input).Ok? && Plan(kept, request, 0).Ok? {
      PlanRoom(kept, request, 0);
      KeptEntriesAreSafe(input, request);
      BodyNeedsData(input, kept, request, 0);
    }
  }

  lemma KeptEntriesAreSafe(input: seq<byte>, request: Request)
    ensures forall k :: 0 <= k < |Kept(input, request)| ==> SafeEntry(Kept(input, request)[k])
  {
    hide R.Directory, SafeEntry, InFileOrder;
    var entries := EntriesIn(input);
    if R.Directory(input).Ok? {
      DirectoryIsSafe(input);
    }
    SameEntries(entries);
    SurvivingAreEntries(InFileOrder(entries), request.drop);
    forall k | 0 <= k < |Kept(input, request)| ensures SafeEntry(Kept(input, request)[k]) {
      assert Kept(input, request)[k] in InFileOrder(entries);
    }
  }

  /** No encrypted entry is ever copied, and only an encrypted one is refused as such. */
  lemma EncryptedAreRefused(input: seq<byte>, request: Request)
    ensures Rewritten(input, request).Ok? ==> forall entry :: entry in Kept(input, request) ==> entry.flags % 2 == 0
    ensures Rewritten(input, request) == Err(Encrypted) ==> exists entry :: entry in Kept(input, request) && entry.flags % 2 == 1
  {
    hide R.Directory, Rewritten, Kept, IsFirstRefused, DataIsThere, NamesAreThere, EndFits;
    var kept := Kept(input, request);
    RewriteSucceedsExactly(input, request);
    FirstRefusalDecides(kept, request, 0);
    if Rewritten(input, request) == Err(Encrypted) {
      var k: nat :| IsFirstRefused(kept, request, 0, k);
      RefusedIsThere(kept, request, 0, k);
      assert kept[k] in kept;
    }
    if Rewritten(input, request).Ok? {
      forall entry | entry in kept ensures entry.flags % 2 == 0 {
        var k :| 0 <= k < |kept| && kept[k] == entry;
        assert IsAcceptable(kept[k], request, Place(kept, request, 0, k));
      }
    }
  }

  // ---- How an entry's data is reached ---------------------------------------------------------

  /** An entry of any archive: its local header, with any extra field of its own, and its data behind that. */
  ghost predicate IsStoredAs(file: seq<byte>, before: seq<byte>, f: CommonFields, data: seq<byte>, after: seq<byte>, entry: ZipEntry) {
    && file == before + (LocalHeader(f) + (data + after)) && |file| <= MAX_SAFE_INTEGER
    && |f.name| <= U16_MAX && |f.extra| <= U16_MAX
    && entry.localHeaderOffset == |before| && entry.compressedSize == |data|
  }

  /** The data start behind the local header's own name and extra field, whatever the directory says of either. */
  lemma DataIsBehindTheHeader(
    file: seq<byte>, before: seq<byte>, f: CommonFields, data: seq<byte>, after: seq<byte>, entry: ZipEntry)
    requires IsStoredAs(file, before, f, data, after, entry)
    ensures var from := |before| + 30 + |f.name| + |f.extra|;
            && DataOffset(file, entry) == Ok(from) && CompressedBytes(file, entry) == Ok(data)
            && from + |data| <= |file| && file[from..from + |data|] == data
  {
    hide LocalHeader, U16At, U32At;
    var header, at: nat := LocalHeader(f), |before|;
    LocalWords(f);
    assert file[at..at + |header|] == header;
    HeaderIsCopied(file, at, header);
    WordsOfSlice(file, at, at + LOCAL_MIN);
    var local := file[at..at + LOCAL_MIN];
    assert U32At(local, 0) == U32At(file, at + 0) && U16At(local, 26) == U16At(file, at + 26) && U16At(local, 28) == U16At(file, at + 28);
    assert file[at + |header|..at + |header| + |data|] == data;
  }

  /** Stored data are the content, deflated data inflate to it, and nothing else is read; a wrong size is refused. */
  lemma EntryIsRead(
    inflate: Inflater, file: seq<byte>, before: seq<byte>, f: CommonFields, data: seq<byte>, after: seq<byte>, entry: ZipEntry)
    requires IsStoredAs(file, before, f, data, after, entry) && entry.uncompressedSize <= MAX_SAFE_INTEGER
    ensures entry.compression == 0 ==>
              ReadEntry(inflate, file, entry) == if |data| == entry.uncompressedSize then Ok(data) else Err(R.WrongUncompressedSize)
    ensures entry.compression == 8 ==>
              var run := inflate(data);
              && (ReadEntry(inflate, file, entry).Ok? <==> !run.broken && |run.output| == entry.uncompressedSize)
              && (ReadEntry(inflate, file, entry).Ok? ==> ReadEntry(inflate, file, entry).value == run.output)
    ensures entry.compression !in {0, 8} ==> ReadEntry(inflate, file, entry) == Err(R.UnsupportedMethod)
  {
    hide LocalHeader, DataOffset, InflateEntry;
    DataIsBehindTheHeader(file, before, f, data, after, entry);
    InflatesToExactlyTheDeclaredSize(inflate, data, entry.uncompressedSize);
  }

  /** The same data as a stream: opened for the two methods, a stored entry only at its right size. */
  lemma EntryIsStreamed(
    inflate: Inflater, file: seq<byte>, before: seq<byte>, f: CommonFields, data: seq<byte>, after: seq<byte>, entry: ZipEntry)
    requires IsStoredAs(file, before, f, data, after, entry)
    ensures Streams(file, entry) <==> entry.compression == 8 || (entry.compression == 0 && |data| == entry.uncompressedSize)
    ensures Streams(file, entry) ==>
              StreamOf(inflate, file, entry) == if entry.compression == 0 then Inflated(data, false) else inflate(data)
  {
    hide LocalHeader, DataOffset;
    DataIsBehindTheHeader(file, before, f, data, after, entry);
  }

  // ---- What a rewrite reports -----------------------------------------------------------------

  lemma {:induction false} WalksAreFilters(entries: seq<ZipEntry>, drop: set<string>, replace: map<string, seq<byte>>)
    ensures Surviving(entries, drop) == Sorting.Filter((e: ZipEntry) => e.name !in drop, entries)
    ensures Dropped(entries, drop) == Sorting.Filter((e: ZipEntry) => e.name in drop, entries)
    ensures Replaced(entries, replace) == Sorting.Filter((e: ZipEntry) => e.name in replace, entries)
  {
    if entries != [] {
      WalksAreFilters(entries[1..], drop, replace);
    }
  }

  /** The summary names what was written, what was left out and, of what was written, what was replaced, in file order. */
  lemma SummaryIsTrue(input: seq<byte>, request: Request)
    requires R.Directory(input).Ok?
    ensures var ordered := InFileOrder(R.Directory(input).value);
            var summary := Summarize(ordered, request);
            && summary.kept == Names(Kept(input, request))
            && summary.kept == Names(Sorting.Filter((e: ZipEntry) => e.name !in request.drop, ordered))
            && summary.dropped == Names(Sorting.Filter((e: ZipEntry) => e.name in request.drop, ordered))
            && summary.replaced == Names(Sorting.Filter((e: ZipEntry) => e.name in request.replace, Kept(input, request)))
  {
    hide R.Directory, InFileOrder, Surviving, Dropped, Replaced;
    var ordered := InFileOrder(R.Directory(input).value);
    WalksAreFilters(ordered, request.drop, request.replace);
    WalksAreFilters(Surviving(ordered, request.drop), request.drop, request.replace);
  }
}
