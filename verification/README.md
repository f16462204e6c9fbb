# A verified model of the 3MF library server

The system keeps a library of 3D-printing projects. This project models the parts of it where a small
mistake is hard to see and expensive, and proves what they promise:

- the byte-level ZIP reader (zip64 included), the entry-preserving rewriter, the stripper of slicer
  configuration built on both, the classifier, and the content hash (`ZipFormat`, `ZipReader`, `ZipLayout`,
  `EntryReading`, `ZipWriter`, `ZipRoundTrip`, `ZipOutput`, `Classify`, `PartNames`, `PartPaths`, `Strip3mf`, `EntryHash`);
- the streaming UTF-8 decoder and line splitter (`Utf8`, `Lines`, `LineSinks`);
- the preview queue as every interleaving of its transactions with rescans (`PreviewQueue`,
  `PreviewRuns`, `PreviewWorkers`), the software rasterizer over exact reals (`Geometry`, `Raster`, `Pictures`) and
  the PNG encoder and checker (`Crc`, `Png`);
- the shell's blocking primitives as step systems (`SingleFlight`, `ReleaseChain`), its JSON writer
  (`JsonStore`), the rate limiter (`RateLimiter`) and login sessions (`Sessions`).

The form follows the source. Code that updates buffers, cursors, fields or files step by step is a method
or a class here, proved against a function of its input; the functions are then what the theorems are
about. Protocols between threads, processes and the database are relations between states, one atomic
step per critical section or transaction, and theorems about them are about every run. The inflater is an
arbitrary function from compressed bytes to output that may break off; SHA-256 is an arbitrary function;
the element patterns of the part repair are an arbitrary edit; square root and rounding in the rasterizer
are arbitrary functions; file contents, times and scheduler choices are arguments.

## What the proofs found

Where the code does not do what it or its comments promise, the model keeps the code, and the project
proves exactly when the promise holds and exhibits a failing run.

- **A reverted file keeps the wrong picture.** `reset_preview` leaves `source_hash` in place, and a rescan
  takes a matching `source_hash` for "nothing to do" (`rescan.rs:425-440`). A file edited, claimed by a job,
  and put back before the job ends is left alone by the rescan although the job works on the edit, and its
  result then lands: a `ready` row with the edit's picture. `PreviewRuns.StepKeepsCurrent` says that this
  and a reused lease are the only ways a finished row stops describing the recorded bytes, and
  `PreviewRuns.PuttingAFileBackLeavesTheWrongPicture` is the run.
- **A slow job replaces a newer picture.** The comment at `queue.rs:376-380` calls the unguarded PNG write
  harmless. It is harmless under a `pending` row, but a job overtaken by a rescan can also write under the
  `ready` row a newer job has produced (`PreviewRuns.SlowJobReplacesThePicture`). `PreviewRuns.StepKeepsPictures`
  gives the exact condition, and `PreviewRuns.OwnersOverwriteNothing` shows that the guard the row already
  carries would be enough.
- **A failed spawn breaks the release chain.** `release` reports a release done when its thread could not be
  created, whatever the releases before it are doing (`ReleaseChain.FailedSpawnBreaksTheChain` is a run). The
  flags stay in order exactly when that branch is never taken while the release before it is unfinished
  (`ReleaseChain.StepKeepsPrefixDone`, over runs `ReleaseChain.FlagsStayInOrder`); then, and however many spawns
  fail in their turn, waiting on the last flag is waiting for every release (`ReleaseChain.WaitingOnTheLastIsEnough`).
  The same branch drops the folder on the spot, and is the one step that can drop a session under its rescan where
  every join has something to join (`ReleaseChain.StepOutlivesNothing`).
- **A settle hides a rescan from the release behind it.** A `settle` that has taken the open folder's handle leaves
  a concurrent release nothing to join, and the session goes under its rescan (`ReleaseChain.SettlingHidesTheRescan`).
  Rescans stay joinable exactly when no handle of a running one is taken (`ReleaseChain.StepKeepsHeld`); no release
  is past its join with its rescan running exactly when no join passes over a running one
  (`ReleaseChain.RescansStayJoined`); and the first implies the second
  (`ReleaseChain.NothingIsDroppedUnderItsRescan`). In the repository only tests call
  `settle` (`library.rs:706`); `shutdown` uses `settle_within`, which takes no handle.
- **A caller that arrives after the answer may still get it.** The comment of `SingleFlight` says such a caller
  starts a new question; between storing the answer and clearing the slot it joins the old one
  (`SingleFlight.LateCallGetsTheOldAnswer`), and at no other time: `SingleFlight.LateLookJoinsUntilCleared`, beside
  `SingleFlight.AsksAtMostOnce`, by which a look asks exactly when the slot is empty.
- **Names that start with a byte-order mark do not survive a rewrite**, because the decoder drops one
  (`ZipRoundTrip.NamesSurvive`, `ZipRoundTrip.MarkedNameIsLost`). Theorems about names in rewritten archives
  carry that condition.
- **"Nothing is left at `output` when it refuses"** (`strip3mf.rs:152-153`) is true of every refusal after the
  work has begun; the two refusals before it leave whatever was at `output` (`Strip3mf.Strip`): one is for a file
  onto itself, the other for exactly the inputs that are no archive (`Strip3mf.RefusedBeforeAnyWork`), an empty one
  for instance (`Strip3mf.EmptyInputKeepsTheOldOutput`).
- **The empty strip set of a project** that `strip3mf.rs:234-237` allows for never occurs
  (`Strip3mf.ProjectsAreStripped`), and the run-time re-classification refuses exactly when an entry outside the
  set reads back under a name that marks a project (`Strip3mf.RefusedForWhatIsLeft`).
- **The clamps of the rasterizer do fire** (`raster.rs:412-414` says never): in every render that reaches the fill,
  some triangle touches the far edge of the frame (`Raster.FarEdgeIsReached`), and some clamp changes a bound exactly
  at 16 pixels and below (`Raster.ClampsFireUpTo16`). They never lose a covered sample
  (`Raster.BoxHoldsWhatIsCovered`). The zero-extent error is unreachable (`Raster.DrawableHasExtent`).
- **The line-length limit depends on where the chunks fall**; `LineSinks.EveryChunkingFits` says when it does not.
- **One space too many.** `is_js_space` (`classify.rs:77-80`) is the white space and line ends of ECMA-262 (sections
  12.2 and 12.3) and U+0085 besides (`Classify.OneSpaceTooMany`). It matters exactly where a key stands behind space
  that holds that character (`Classify.SpacesDifferHere`): there the code finds a slicer key that the pattern
  it stands for does not (`Classify.NelIsTakenForSpace`).
- **A size check that wraps.** `encode_png` compares the buffer's length with a product of machine words. Without
  overflow checks, as in a release build, the product is taken modulo 2^64, and the checker accepts what was encoded
  exactly when it did not wrap (`Png.DecodesWhatWasEncoded`). For 0xAAAAAAAB by 2^31 pixels it does: a buffer of 2^31
  bytes is encoded to a file the checker refuses (`Png.WrappedSizeIsRefused`).

## Model

| member | source | states |
|---|---|---|
| `Utf8.CompleteIsEncoded` | crates/spm-core/src/files/chunks.rs:206-236 | a unit the decoder accepts is the encoding of its character, and nothing shorter or longer (RFC 3629 section 4) |
| `Utf8.EncodedIsComplete` | crates/spm-core/src/files/chunks.rs:206-236 | every encoded character is accepted as itself, whatever follows |
| `Utf8.PartialIsHead` | crates/spm-core/src/files/chunks.rs:222-232 | bytes are held back exactly when they are a proper prefix of some character's encoding |
| `Utf8.DecidedStays` | crates/spm-core/src/files/chunks.rs:206-236 | a decision made on a prefix is not changed by the bytes that follow |
| `Utf8.BrokenIsMaximalSubpart` | crates/spm-core/src/files/zip.rs:105-111 | an ill-formed run is replaced as a maximal subpart (Unicode section 3.9): its length is the longest that starts some character, or one |
| `Utf8.DecodeOfEncode` | crates/spm-core/src/files/zip.rs:104-111 | decoding encoded text drops one leading mark, and gives the text back exactly when it has none |
| `Utf8.EncodeAllInjective` | crates/spm-core/src/files/entry_hash.rs:91-91 | no two names have the same bytes |
| `Utf8.ScanResumes` | crates/spm-core/src/files/chunks.rs:206-236 | decoding cut anywhere and resumed from the held bytes gives the text and held bytes of decoding at once |
| `Utf8.PendingIsHead` | crates/spm-core/src/files/chunks.rs:195-204 | what is held between chunks is the head of one character, at most three bytes, and decodes to nothing by itself |
| `Lines.SplitIsUnique` | crates/spm-core/src/files/chunks.rs:242-270 | a list of lines is the split of its join exactly when no line holds a newline |
| `Lines.SplitJoins` | crates/spm-core/src/files/chunks.rs:242-270 | splitting loses nothing: joined with newlines, the lines are the text |
| `Lines.SplitResumes` | crates/spm-core/src/files/chunks.rs:242-270 | splitting text in two parts, the open last line carried over, is splitting it at once |
| `LineSinks.FromUtf8AgreesWithScan` | crates/spm-core/src/files/chunks.rs:206-236 | the strict decoder's valid length and error length tell the lossy decoding apart at the right place |
| `LineSinks.LineSink.Decode` | crates/spm-core/src/files/chunks.rs:206-239 | the decoding loop appends the decoding of held bytes and chunk, and holds exactly what is undecided, nothing when flushing |
| `LineSinks.LineSink.Push` | crates/spm-core/src/files/chunks.rs:242-270 | a push succeeds exactly when the visitor accepts every line it completes and the open line fits; lines are shown once, whole, in order; the invariant on held bytes and carry is kept |
| `LineSinks.LineSink.End` | crates/spm-core/src/files/chunks.rs:272-276 | at the end the visited lines are the split of the lossy decoding of everything fed, final segment included |
| `LineSinks.Utf16AtMostUtf8` | crates/spm-core/src/files/chunks.rs:259-268 | UTF-16 length never exceeds UTF-8 length, so the cheap length test in front of the exact one changes nothing |
| `LineSinks.LineLimit` | crates/spm-core/src/files/chunks.rs:157-164 | a line fits up to 2^20 UTF-16 units, characters outside the basic plane counted twice |
| `LineSinks.DrainSink` | crates/spm-core/src/files/chunks.rs:44-61 | for every cutting into chunks: success exactly under the stated condition on visitor and cuts, and then exactly the lines of the whole decoded input; at any failure a prefix of them |
| `LineSinks.CompletedLinesStay` | crates/spm-core/src/files/chunks.rs:242-270 | a line shown is a line of the whole input, whatever follows |
| `LineSinks.RefusalIsFinal` | crates/spm-core/src/files/chunks.rs:53-61 | a refused prefix is a refused run |
| `LineSinks.EveryChunkingFits` | crates/spm-core/src/files/chunks.rs:157-164 | the length check passes for every cutting exactly when every prefix leaves an open line that fits; for UTF-8 input exactly when every line fits |
| `Words.WordsAreLittleEndian` | crates/spm-core/src/files/zip.rs:113-127 | words are read with the least significant byte first |
| `ZipFormat.LocalHeaderBytes` | crates/spm-core/src/files/zip_write.rs:94-122 | the fixed-offset writes into a zeroed buffer produce the local header layout of APPNOTE 4.3.7 |
| `ZipFormat.CentralHeaderBytes` | crates/spm-core/src/files/zip_write.rs:94-147 | the same for the directory record of APPNOTE 4.3.12 |
| `ZipFormat.EndOfCentralDirectoryBytes` | crates/spm-core/src/files/zip_write.rs:149-158 | the same for the end record of APPNOTE 4.3.16, its two counts equal |
| `ZipReader.TakeSizes` | crates/spm-core/src/files/zip.rs:273-300 | the positional zip64 values: one word for each saturated field and only for those, in wire order, missing or unsafe ones refused |
| `ZipReader.ApplyZip64Extra` | crates/spm-core/src/files/zip.rs:253-308 | the cursor loop over extra fields finds the first zip64 block, refuses a field that overruns, and takes exactly what the block specification says |
| `ZipReader.ReadZip64End` | crates/spm-core/src/files/zip.rs:213-238 | locator and record are read in range or refused, for every byte string |
| `ZipReader.FindEndRecord` | crates/spm-core/src/files/zip.rs:319-322 | the backward scan returns the last place the signature stands, none if it stands nowhere |
| `ZipReader.ReadEnd` | crates/spm-core/src/files/zip.rs:324-342 | each zip64 value replaces its base field exactly where that one is saturated |
| `ZipReader.ReadRecord` | crates/spm-core/src/files/zip.rs:351-398 | one record at a cursor: same fields, same size, same refusals as the specification of the bytes from there on |
| `ZipReader.ReadRecords` | crates/spm-core/src/files/zip.rs:347-401 | the record loop agrees with the specification and takes at most one turn per 46 bytes and one more, however large the declared count |
| `ZipReader.ReadEntries` | crates/spm-core/src/files/zip.rs:310-402 | totality: every byte string gives a list or a refusal, with every index and sum in range, and it is the specified directory |
| `ZipLayout.BlockFound` | crates/spm-core/src/files/zip.rs:253-267 | the zip64 block is found behind any other extra blocks (APPNOTE 4.5.1), and missed only where there is none |
| `ZipLayout.BodyRead` | crates/spm-core/src/files/zip.rs:269-303 | of the values laid out in a zip64 block each is read from its own place, whichever of the three are there; one past 2^53 - 1 is refused |
| `ZipLayout.WireRecordRead` | crates/spm-core/src/files/zip.rs:351-398 | any record of APPNOTE 4.3.12, with any name, extra fields and comment, zip64 or not, is read whole and field for field; only a value past 2^53 - 1 is refused |
| `ZipLayout.CutRecordIsRefused` | crates/spm-core/src/files/zip.rs:354-363 | a record cut off anywhere is refused as a corrupt directory |
| `ZipLayout.WireRecordsRead` | crates/spm-core/src/files/zip.rs:347-401 | records one behind the other give one entry each, in order, whatever stands behind them |
| `ZipLayout.EndingRead` | crates/spm-core/src/files/zip.rs:213-238 | whatever the end records of APPNOTE 4.3.14 to 4.3.16 hold, each counter is the zip64 one exactly where its field is all ones |
| `ZipLayout.NoEndNoArchive` | crates/spm-core/src/files/zip.rs:310-322 | a file without the signature among its last 65557 bytes is refused |
| `ZipLayout.ArchiveIsListed` | crates/spm-core/src/files/zip.rs:310-402 | any archive laid out by the standard, with any comment that holds no signature, is listed: one entry for each counted record, every field as laid out |
| `EntryReading.InflatesToExactlyTheDeclaredSize` | crates/spm-core/src/files/zip.rs:552-577 | a capped read succeeds exactly when the whole output is unbroken and of the declared size, and then is the whole output; otherwise the error says which of the two it was |
| `EntryReading.EntryChunks.Fill` | crates/spm-core/src/files/zip.rs:730-751 | a fill returns the next stretch of the stream, short only at its end, and never reads past the buffer's size |
| `EntryReading.EntryChunks.PullChunk` | crates/spm-core/src/files/zip.rs:753-778 | chunks are consecutive, non-empty and bounded; the end is reported only after exactly the declared, whole, unbroken output; a size lie is refused within a chunk |
| `EntryReading.ReadMeansExactStream` | crates/spm-core/src/files/zip.rs:492-530 | the buffered read succeeds exactly when the entry's stream exists, ends and has the declared length |
| `EntryReading.ChunksFrom` | crates/spm-core/src/files/zip.rs:688-727 | a stream opens exactly for readable methods with data in the file and, when stored, agreeing sizes |
| `EntryReading.CapsAre` | crates/spm-core/src/files/zip.rs:688-727 | chunks are capped at a mebibyte where nothing is asked for, and never below a byte |
| `EntryReading.DrainEntry` | crates/spm-core/src/files/zip.rs:663-779 | streaming refines buffering: for every granularity and cap one succeeds exactly when the other does, with the same bytes, chunks within the cap, at most one chunk over the declaration |
| `Crc.XorAssociates` | crates/spm-core/src/previews/png.rs:36-40 | exclusive or on numbers is associative, the base of the register's linearity |
| `Crc.ShiftsLinear` | crates/spm-core/src/previews/png.rs:33-42 | shifting the register is linear over exclusive or |
| `Crc.EightShifts` | crates/spm-core/src/previews/png.rs:29-54 | eight bit-steps are one table look-up on the low byte and one shift of the rest |
| `Crc.ShiftDivides` | tools/png.ts:106-111 | bit by bit, one step of the register divides by the generator of ISO 3309 |
| `Crc.CrcIsSerialDivision` | tools/png.ts:103-112 | the CRC is that of PNG section 5.5: a register of ones, every bit of the data divided in, lowest first, and the remainder complemented |
| `Crc.CrcTable` | crates/spm-core/src/previews/png.rs:29-46 | the nested loops fill each slot with eight bit-steps of its index |
| `Crc.TableCrc32` | crates/spm-core/src/previews/png.rs:48-57 | the table-driven loop over any parts gives the bitwise CRC-32 of the parts put together |
| `Crc.BitwiseCrc32` | tools/png.ts:103-112 | the bit-by-bit loop gives the CRC-32 |
| `ZipWriter.WithoutDescriptor` | crates/spm-core/src/files/zip_write.rs:294-297 | of the flags, bit 3 goes and every other bit stays |
| `ZipWriter.CopyEntryData` | crates/spm-core/src/files/zip_write.rs:395-424 | the buffered copy appends the entry's compressed bytes verbatim, or refuses where its header or data are not there |
| `ZipWriter.WriteEntries` | crates/spm-core/src/files/zip_write.rs:359-383 | the writing loop produces header and payload of each planned entry in order, or the first failure |
| `ZipWriter.MakePlan` | crates/spm-core/src/files/zip_write.rs:250-323 | the planning loop lays surviving entries out back to back, refuses the first encrypted or unrepresentable one, and records what it dropped and replaced |
| `ZipWriter.PlanKeepsSources` | crates/spm-core/src/files/zip_write.rs:250-323 | the plan is the surviving entries, one each, in order |
| `ZipWriter.CentralRecords` | crates/spm-core/src/files/zip_write.rs:325-340 | the directory buffer is the plan's records one after another |
| `ZipWriter.RewriteZip` | crates/spm-core/src/files/zip_write.rs:228-357 | exactly which inputs and requests succeed, what is then at the output, what is reported, which error otherwise; early refusals touch nothing, late ones remove the output, no other file changes |
| `ZipRoundTrip.RecordReadBack` | crates/spm-core/src/files/zip_write.rs:124-147 | a written record at the front of a directory reads back field for field without a zip64 look-up |
| `ZipRoundTrip.DirectoryReadBack` | crates/spm-core/src/files/zip.rs:344-401 | a written directory reads back entry for entry |
| `ZipRoundTrip.EndFoundAtOnce` | crates/spm-core/src/files/zip.rs:315-322 | an end record at the very end is the first the backward scan meets |
| `ZipRoundTrip.ArchiveReadBack` | crates/spm-core/src/files/zip.rs:310-345 | whatever the payloads hold, end-record signatures included, a written archive is read through its own directory and never through zip64 |
| `ZipRoundTrip.FileOrder` | crates/spm-core/src/files/zip_write.rs:236-238 | entries are taken in ascending input offset, ties in directory order, none lost |
| `ZipRoundTrip.RewriteRoundTrip` | crates/spm-core/src/files/zip_write.rs:228-392 | the reader on a successful rewrite returns exactly the kept entries in file order, every carried field equal, bit 3 cleared, replaced ones stored with fresh sizes and CRC, and each recorded offset leads to header and payload |
| `ZipRoundTrip.NamesSurvive` | crates/spm-core/src/files/zip.rs:104-111 | all kept names come back exactly when none starts with a byte-order mark |
| `ZipRoundTrip.PayloadsSurvive` | crates/spm-core/src/files/zip_write.rs:359-452 | for any inflater, every kept entry of the output reads as in the input, failures included, and a replaced one as its replacement |
| `ZipRoundTrip.MarkedNameIsLost` | crates/spm-core/src/files/zip.rs:104-111 | a family of archives that rewrite successfully and lose a name |
| `ZipRoundTrip.DirectoryIsSafe` | crates/spm-core/src/files/zip.rs:191-200 | every size and offset an accepted directory yields is within the safe integers |
| `ZipLayout.WrittenRecordIsWire` | crates/spm-core/src/files/zip_write.rs:124-147 | the rewriter's directory records are those of APPNOTE 4.3.12 byte for byte, without comment and zip64 |
| `ZipLayout.WrittenEndIsWire` | crates/spm-core/src/files/zip_write.rs:149-158 | its end record is that of APPNOTE 4.3.16: one disk, both counts equal, no comment |
| `ZipOutput.LocalWords` | crates/spm-core/src/files/zip_write.rs:104-122 | every field of a local header is at its offset of APPNOTE 4.3.7 |
| `ZipOutput.LocalHeadersAgree` | crates/spm-core/src/files/zip_write.rs:359-392 | every local header of a rewritten archive says what its directory record says, CRC and sizes included, with the descriptor bit clear, so that a streaming reader finds the same entries |
| `ZipOutput.FirstRefusalDecides` | crates/spm-core/src/files/zip_write.rs:257-290 | there is a plan exactly when every entry is unencrypted and fits its fields; otherwise the first that is not decides between the two errors |
| `ZipOutput.RewriteSucceedsExactly` | crates/spm-core/src/files/zip_write.rs:228-357 | the exact condition for a rewrite, in numbers, and which of its errors any other input gets |
| `ZipOutput.EncryptedAreRefused` | crates/spm-core/src/files/zip_write.rs:259-265 | success means that every kept entry has an even flags word, and `Encrypted` that one has an odd one |
| `ZipOutput.DataIsBehindTheHeader` | crates/spm-core/src/files/zip.rs:513-530 | an entry's data start behind its local header's own name and extra field, for reader and rewriter alike |
| `ZipOutput.EntryIsRead` | crates/spm-core/src/files/zip.rs:492-530 | at such a place stored data are the content, deflated data inflate to it, and any other method is refused |
| `ZipOutput.EntryIsStreamed` | crates/spm-core/src/files/zip.rs:688-727 | the same data open as a stream for the two methods, stored ones only at their declared size |
| `ZipOutput.SummaryIsTrue` | crates/spm-core/src/files/zip_write.rs:228-357 | the summary lists in file order what was written, left out and replaced, each name in its own list |
| `Classify.HeaderItemKeys` | crates/spm-core/src/files/classify.rs:54-75 | the tag-to-tag search finds the keys the pattern gives when it is tried at every position |
| `Classify.HeaderKeysAreRead` | crates/spm-core/src/files/classify.rs:54-75 | from header items as they are written the keys of all items are read, in order |
| `Classify.NotKeys` | crates/spm-core/src/files/classify.rs:54-75 | no key is read without white space before it, with nothing in its quotes, or without an end to them |
| `Classify.DerivativesAreToldApart` | crates/spm-core/src/files/classify.rs:39-52 | the key of the latest in the line of derivatives decides, in whatever order the keys stand |
| `Classify.SlicerIsRead` | crates/spm-core/src/files/classify.rs:45-75 | from a part that reads as such a header, the slicer is the one its items' keys name |
| `Classify.OneSpaceTooMany` | crates/spm-core/src/files/classify.rs:77-80 | the code's space is ECMAScript's `\s` and U+0085, and nothing else |
| `Classify.SpacesDifferHere` | crates/spm-core/src/files/classify.rs:54-75 | at any place of any text the two readings of `\s` find the same key, except that ECMAScript's finds none behind a U+0085 |
| `Classify.NelIsTakenForSpace` | crates/spm-core/src/files/classify.rs:54-80 | for every key, a text in which the code finds it and the ECMAScript pattern finds nothing |
| `Classify.TagsDoNotOverlap` | crates/spm-core/src/files/classify.rs:59-66 | no tag begins inside a tag, so skipping one skips nothing |
| `Classify.ModelMeansNoMark` | crates/spm-core/src/files/classify.rs:83-130 | the four ordered rules call an archive a project exactly when some entry's name marks one |
| `Classify.WhoWroteIt` | crates/spm-core/src/files/classify.rs:83-130 | which entry names make a file Cura's, PrusaSlicer's, a plain model or no archive, the earlier rule before the later |
| `Classify.Classify3mf` | crates/spm-core/src/files/classify.rs:83-130 | the classifier as run, with its one look inside, agrees with the decision |
| `PartNames.MarkHidesNoReference` | crates/spm-core/src/files/strip3mf.rs:359-365 | the mark the decoder drops changes no reference found in a part |
| `PartNames.AttributeIsMatched` | crates/spm-core/src/files/strip3mf.rs:359-365 | wherever one of the two attributes stands as a word of its own, with any white space and either quote, it is matched whole and with its value |
| `PartNames.MatchIsAttribute` | crates/spm-core/src/files/strip3mf.rs:359-365 | whatever is matched is such an attribute |
| `PartNames.EveryMatchIsSeen` | crates/spm-core/src/files/strip3mf.rs:454-463 | the search passes over no attribute but one inside another that it found |
| `PartNames.SeenIsMatched` | crates/spm-core/src/files/strip3mf.rs:454-463 | and finds nothing that does not stand in the text |
| `PartNames.DanglingIsSeen` | crates/spm-core/src/files/strip3mf.rs:454-463 | an attribute naming a removed part is reported whatever is around it |
| `PartNames.NoAttributeNoReference` | crates/spm-core/src/files/strip3mf.rs:454-463 | a text with neither attribute is never reported |
| `PartNames.UnescapeBytes` | crates/spm-core/src/files/strip3mf.rs:531-549 | the byte loop resolves every escape or refuses a malformed one |
| `PartNames.ResolvePartName` | crates/spm-core/src/files/strip3mf.rs:584-615 | the pushing and popping loop computes the resolved name: entities, scheme, fragment, query, escapes, base directory and dot segments |
| `PartNames.DanglingReference` | crates/spm-core/src/files/strip3mf.rs:454-463 | it reports the target of the first reference in the text that resolves to a removed part, and nothing exactly when there is none |
| `PartNames.SegmentsOfJoin` | crates/spm-core/src/files/strip3mf.rs:601-614 | joining and splitting segments are inverse on slash-free segments |
| `PartNames.EscapedPath` | crates/spm-core/src/files/strip3mf.rs:507-597 | a fully percent-escaped absolute reference is decoded to exactly the name it spells |
| `PartNames.EntityPath` | crates/spm-core/src/files/strip3mf.rs:498-597 | an absolute reference written entirely in character references is decoded to the name they spell, the `#` of an entity never taken for a fragment |
| `PartNames.RootReachesProperNames` | crates/spm-core/src/files/strip3mf.rs:570-615 | an entry name is the target of some absolute reference exactly when it is in normal form (ECMA-376 Part 2) |
| `PartPaths.XmlEscapesRead` | crates/spm-core/src/files/strip3mf.rs:485-529 | any text, escaped with the five named entities, is read back |
| `PartPaths.DecimalEntitiesRead` | crates/spm-core/src/files/strip3mf.rs:496-529 | any text written in decimal character references is read back |
| `PartPaths.UnknownNameStays` | crates/spm-core/src/files/strip3mf.rs:507-529 | an entity of any other name stays as it is written |
| `PartPaths.SchemesAreForeign` | crates/spm-core/src/files/strip3mf.rs:552-568 | a reference has a scheme exactly when RFC 3986 section 3.1 says so of what stands before some colon |
| `PartPaths.PlainPath` | crates/spm-core/src/files/strip3mf.rs:584-600 | a plain path is itself, with any fragment or query behind it dropped |
| `PartPaths.BrokenEscapeStays` | crates/spm-core/src/files/strip3mf.rs:531-549 | a path with a broken percent-escape is taken as it is written |
| `PartPaths.RelativeReference` | crates/spm-core/src/files/strip3mf.rs:584-615 | a relative reference leads from the part's directory, up once for each `..` and no further than the root, then down |
| `PartPaths.SiblingReference` | crates/spm-core/src/files/strip3mf.rs:584-615 | in `dir/_rels/file` a plain name leads to `dir/name`, at the root to `name` |
| `PartPaths.PointsAtSibling` | crates/spm-core/src/files/strip3mf.rs:454-463 | so it points at a removed part exactly when that path was removed |
| `Strip3mf.CollectRepairs` | crates/spm-core/src/files/strip3mf.rs:245-279 | the repair loop collects the last repair per name and stops at the first unreadable part or dangling reference |
| `Strip3mf.StripFile` | crates/spm-core/src/files/strip3mf.rs:221-293 | the strip proper, as an exact effect on the files |
| `Strip3mf.Strip` | crates/spm-core/src/files/strip3mf.rs:154-208 | exactly when a strip succeeds and with what output and report; which refusal otherwise; early refusals touch nothing, later ones leave nothing at the output |
| `Strip3mf.RefusedBeforeAnyWork` | crates/spm-core/src/files/strip3mf.rs:163-170 | the refusal that comes before any work and leaves the output alone is for exactly the inputs that are no archive, every one shorter than an end record among them |
| `Strip3mf.EmptyInputKeepsTheOldOutput` | crates/spm-core/src/files/strip3mf.rs:151-170 | an empty input is refused and an earlier file at the output is still there, against the comment |
| `Strip3mf.ProjectsAreStripped` | crates/spm-core/src/files/strip3mf.rs:233-242 | something is removed exactly when the input was a project; a plain copy is made of plain models only |
| `Strip3mf.StripSetMembers` | crates/spm-core/src/files/strip3mf.rs:295-320 | the names removed are exactly the present names of the flavour's set, none exactly when none is present |
| `Strip3mf.WhatEachFlavourLoses` | crates/spm-core/src/files/strip3mf.rs:25-54 | of a stripped project exactly the entries named in its flavour's list are gone, every other name is still there |
| `Strip3mf.ReportIsTrue` | crates/spm-core/src/files/strip3mf.rs:221-293 | the result gives the input's classification and, in file order, the names taken out and the kept parts rewritten |
| `Strip3mf.EncryptedIsTold` | crates/spm-core/src/files/strip3mf.rs:190-208 | an encrypted entry that would have to be kept refuses the strip with that reason, a stripped file holds none, and every other refusal of the rewrite is told as unreadable |
| `Strip3mf.RepairsAreClean` | crates/spm-core/src/files/strip3mf.rs:246-278 | every kept referencing part is repaired to text without a dangling reference or had none |
| `Strip3mf.ReferencingPartsAre` | crates/spm-core/src/files/strip3mf.rs:322-340 | the parts looked at are exactly `[Content_Types].xml` and the files of `_rels` directories at any depth |
| `Strip3mf.DanglingPartIsRefused` | crates/spm-core/src/files/strip3mf.rs:246-278 | whatever the repairs do, a kept referencing part that would be shipped with an attribute naming a removed part refuses the strip |
| `Strip3mf.NeverHalfStripped` | crates/spm-core/src/files/strip3mf.rs:154-320 | a successful strip leaves no removed entry, no entry that marks a project, and no referencing part, read back from the output, that points at a removed one |
| `Strip3mf.OtherPartsUnchanged` | crates/spm-core/src/files/strip3mf.rs:280-293 | every kept part that names no other keeps its record and reads as before |
| `Strip3mf.StrippingAgainCopies` | crates/spm-core/src/files/strip3mf.rs:233-242 | stripping the output again, with any repair, is a byte copy reported as not stripped |
| `Strip3mf.RefusedForWhatIsLeft` | crates/spm-core/src/files/strip3mf.rs:173-189 | the check on the written file refuses exactly when an entry outside the strip set reads back under a marking name |
| `Strip3mf.LineageIsNeverRefused` | crates/spm-core/src/files/strip3mf.rs:173-189 | for the Bambu lineage and the unknown slicer, without marked names, that refusal is unreachable |
| `Strip3mf.TwoFlavoursAreRefused` | crates/spm-core/src/files/strip3mf.rs:25-38 | a file with Cura entries and the PrusaSlicer configuration is refused, whatever the repairs do |
| `NameOrder.NameOrderIsTotal` | crates/spm-core/src/files/entry_hash.rs:83-85 | comparing by UTF-16 code unit is a total order in which only equal names tie |
| `NameOrder.UnitsAreUtf16` | crates/spm-core/src/files/entry_hash.rs:83-85 | the code units are those of UTF-16 (RFC 2781 section 2.1) |
| `NameOrder.FirstDifferenceDecides` | crates/spm-core/src/files/entry_hash.rs:83-85 | the first unit that differs decides, a prefix comes first |
| `NameOrder.UnitsInjective` | crates/spm-core/src/files/entry_hash.rs:83-85 | the code units determine the name |
| `EntryHash.OnlyTheStampIsIgnored` | crates/spm-core/src/files/entry_hash.rs:197-212 | of the PrusaSlicer configuration the first line, newline or not, is left out exactly when it has the generated-on form, nothing else ever |
| `EntryHash.StampIsIgnored` | crates/spm-core/src/files/entry_hash.rs:40-52 | a first line `; generated by … at …UTC`, with either line end or alone, is left out whatever version and date it gives |
| `EntryHash.OtherLinesCount` | crates/spm-core/src/files/entry_hash.rs:197-212 | a configuration counts whole unless its first line is such a stamp |
| `EntryHash.FramingIsInjective` | crates/spm-core/src/files/entry_hash.rs:75-77 | the hashed bytes determine the list of names and counted contents |
| `EntryHash.ItemIsLaidOut` | crates/spm-core/src/files/entry_hash.rs:214-221 | name and content are hashed each behind its length in eight bytes |
| `EntryHash.HashFailsExactly` | crates/spm-core/src/files/entry_hash.rs:78-101 | there is a hash for every file except an archive with an entry that does not read; a file that is no archive is hashed as it is |
| `EntryHash.EntryHashInput` | crates/spm-core/src/files/entry_hash.rs:78-101 | the streaming loop feeds exactly the framed items in name order, fails exactly when an entry does not read, and falls back to the plain bytes exactly when the directory does not parse |
| `EntryHash.OrderIsIrrelevant` | crates/spm-core/src/files/entry_hash.rs:17-18 | archives that list the same names with contents that count the same hash alike, whatever their order, container and stamps |
| `EntryHash.RewriteKeepsHash` | crates/spm-core/src/files/zip_write.rs:228-392 | a rewrite that changes nothing leaves the hash alone |
| `EntryHash.EntryDigests` | crates/spm-core/src/files/entry_hash.rs:154-176 | one digest per name, the last entry of a name winning; fails exactly when an entry does not read |
| `EntryHash.HashAgreesWithDigests` | crates/spm-core/src/files/entry_hash.rs:78-176 | with distinct names and a collision-free digest, two archives hash alike exactly when their digest maps are equal |
| `EntryHash.SortNames` | crates/spm-core/src/files/entry_hash.rs:140-142 | the sorted list holds the same names, strictly ascending |
| `EntryHash.DiffDigests` | crates/spm-core/src/files/entry_hash.rs:123-144 | added, removed and changed are exactly the keys where the maps differ, each once and in order; all empty exactly when the maps are equal |
| `Sorting.SortStable` | crates/spm-core/src/files/zip_write.rs:236-238 | elements that tie stay in their order |
| `Sorting.SortedArrangementUnique` | crates/spm-core/src/files/entry_hash.rs:82-85 | without ties, sorting forgets the order things came in |
| `PreviewQueue.Previews.ClaimPendingPreviews` | crates/spm-core/src/previews/queue.rs:262-357 | one claim takes distinct claimable rows, oldest first, leaves one behind only when full, stamps lease and attempt on exactly those, and hands out the versions recorded then |
| `PreviewQueue.CandidatesOrdered` | crates/spm-core/src/previews/queue.rs:287-300 | the ordered candidates are exactly the claimable rows |
| `PreviewQueue.TakenAreOldest` | crates/spm-core/src/previews/queue.rs:297-299 | the limit cuts off no row older than one taken |
| `PreviewQueue.WhoIsClaimed` | crates/spm-core/src/previews/queue.rs:262-357 | a row is claimed only when it waits, was tried fewer than three times, is wanted and has no lease of the last fifteen minutes; one for which all that holds is left only by a full batch |
| `PreviewQueue.WhatIsHandedOut` | crates/spm-core/src/previews/queue.rs:262-357 | each row is handed out once, with the version and kind of its file at the claim, the longest waiting first |
| `PreviewQueue.Previews.Finish` | crates/spm-core/src/previews/queue.rs:383-406 | an outcome lands on the claimed row or nowhere, and reports which |
| `PreviewQueue.OutcomeIsRecorded` | crates/spm-core/src/previews/queue.rs:383-406 | which state, hash and times each outcome gives its row, and that nothing else changes |
| `PreviewQueue.FirstAnswerDecides` | crates/spm-core/src/previews/queue.rs:451-520 | the first handler with an opinion decides; none with one means unsupported, no handler means the row is released |
| `PreviewQueue.Previews.RunOne` | crates/spm-core/src/previews/queue.rs:451-586 | the first handler that does not pass decides; picture, row and counters change exactly as that outcome and the guard say |
| `PreviewRuns.StepKeepsCurrent` | crates/spm-core/src/previews/queue.rs:359-406 | one step of any kind keeps every finished row true to the recorded bytes exactly when it is neither a claim reusing a live lease on another version nor a reverting rescan under judgement |
| `PreviewRuns.RescanKeepsCurrent` | crates/spm-core/src/projects/rescan.rs:398-442 | of rescans, exactly the one that brings back the last picture's bytes while the row is judged or owned on others does harm |
| `PreviewRuns.NoStalePreview` | crates/spm-core/src/previews/queue.rs:366-374 | in every run without such a step, every finished row was judged on the recorded version and a ready one carries its hash |
| `PreviewRuns.AttemptsStayBounded` | crates/spm-core/src/previews/queue.rs:122-135 | in every run no row is claimed more than three times between resets |
| `PreviewRuns.LeaseStays` | crates/spm-core/src/previews/queue.rs:255-258 | short of a claim, a step takes a lease away exactly when it is an outcome of its owner, a reset or a removal |
| `PreviewRuns.ClaimsAreALeaseApart` | crates/spm-core/src/previews/queue.rs:255-258 | two claims of a row with no outcome, reset or removal between them are fifteen minutes apart |
| `PreviewRuns.StepKeepsPictures` | crates/spm-core/src/previews/queue.rs:376-380 | with distinct leases, pictures stop matching their rows exactly at a write onto one that a ready row or another owner relies on |
| `PreviewRuns.PicturesStayFaithful` | crates/spm-core/src/previews/queue.rs:491-499 | in every run without such a write, the PNG under a ready row is the one its hash names |
| `PreviewRuns.OwnersOverwriteNothing` | crates/spm-core/src/previews/queue.rs:376-380 | a write by the row's present owner is never such a write |
| `PreviewRuns.PuttingAFileBackLeavesTheWrongPicture` | crates/spm-core/src/projects/rescan.rs:422-440 | for any two versions, a run with distinct leases and no crash that ends with a stale ready row |
| `PreviewRuns.SlowJobReplacesThePicture` | crates/spm-core/src/previews/queue.rs:491-499 | for any two versions, a run of harmless steps that ends with the old picture under the new version's ready row |
| `PreviewWorkers.StepIsOrderly` | crates/spm-core/src/previews/queue.rs:601-625 | taking an index keeps every started job with one worker or finished |
| `PreviewWorkers.EveryJobRunsOnce` | crates/spm-core/src/previews/queue.rs:596-632 | when the workers are gone every claimed job has been run exactly once, and the counters are the numbers of its reported results, which with the unrecorded ones make up the claimed jobs |
| `SingleFlight.StepIsSound` | crates/spm-shell/src/sync.rs:37-118 | every step of every call, panics included, keeps the relation between slot, outcomes, leaders and waiters |
| `SingleFlight.OneLeaderAtATime` | crates/spm-shell/src/sync.rs:40-65 | in every run at most one closure runs at a time |
| `SingleFlight.OneAnswerPerFlight` | crates/spm-shell/src/sync.rs:57-69 | whoever returns from a flight returns its leader's answer |
| `SingleFlight.AsksAtMostOnce` | crates/spm-shell/src/sync.rs:38-57 | no call runs its closure twice, and a look takes it exactly when no question is open |
| `SingleFlight.OutcomeIsFinal` | crates/spm-shell/src/sync.rs:99-108 | an answer or an abandonment is never changed |
| `SingleFlight.AbandonedMeansAskAgain` | crates/spm-shell/src/sync.rs:66-70 | a waiter that finds its flight abandoned starts over without having asked |
| `SingleFlight.SleepersHaveALeader` | crates/spm-shell/src/sync.rs:71-76 | whoever sleeps has a leader that has not yet notified |
| `SingleFlight.NeverStuck` | crates/spm-shell/src/sync.rs:37-118 | while any call is unfinished some awake call has a step of its own |
| `SingleFlight.LateCallGetsTheOldAnswer` | crates/spm-shell/src/sync.rs:57-62 | for any two calls, a run in which the one that arrives after the answer joins the old question |
| `SingleFlight.LateLookJoinsUntilCleared` | crates/spm-shell/src/sync.rs:57-118 | in every run, a look after the answer joins that flight exactly when its leader has not yet cleared the slot |
| `ReleaseChain.NothingIsClosedUnderItsUsers` | crates/spm-shell/src/library.rs:730-764 | in every run a release that got its thread drops the session only after its runner was stopped, the rescan it holds ended and the release before it is done |
| `ReleaseChain.LastDoneStandsForAll` | crates/spm-shell/src/library.rs:706-728 | in every state of every run, the last release being done means all are, unless one behind an unfinished one never got its thread |
| `ReleaseChain.DoneReachesBack` | crates/spm-shell/src/library.rs:754-757 | done reaches back over every release up to one that never got its thread |
| `ReleaseChain.DoneStays` | crates/spm-shell/src/sync.rs:127-131 | a release once done stays done |
| `ReleaseChain.StepKeepsPrefixDone` | crates/spm-shell/src/library.rs:765-768 | one step keeps the done flags in the order of registration exactly when it is not a failed spawn reporting ahead of its turn |
| `ReleaseChain.FlagsStayInOrder` | crates/spm-shell/src/library.rs:730-768 | over every run: the flags are in order throughout exactly when no step does that |
| `ReleaseChain.WaitingOnTheLastIsEnough` | crates/spm-shell/src/library.rs:706-728 | in every run without such a step the last release is done exactly when all are done and dropped |
| `ReleaseChain.StepKeepsHeld` | crates/spm-shell/src/library.rs:706-710 | one step keeps every running rescan's handle with its folder exactly when it is not a settle taking the handle of a running one |
| `ReleaseChain.StepKeepsRescansJoined` | crates/spm-shell/src/library.rs:748-753 | one step lets no release past its join with its rescan running exactly when it is not a join with nothing to join |
| `ReleaseChain.RescansStayJoined` | crates/spm-shell/src/library.rs:730-764 | over every run: no release is past its join with its rescan running, throughout, exactly when no step does that |
| `ReleaseChain.NothingIsDroppedUnderItsRescan` | crates/spm-shell/src/library.rs:730-764 | in every run in which no settle takes a running rescan's handle, no release that got its thread drops a session whose rescan runs |
| `ReleaseChain.StepOutlivesNothing` | crates/spm-shell/src/library.rs:748-768 | with every join joining, one step drops a session under its rescan exactly when it is a failed spawn of a folder still rescanning |
| `ReleaseChain.FailedSpawnBreaksTheChain` | crates/spm-shell/src/library.rs:765-768 | a run in which the last release is done, its own session gone under its rescan, while an earlier folder is still rescanning and open |
| `ReleaseChain.SettlingHidesTheRescan` | crates/spm-shell/src/library.rs:706-710 | a run in which a session is dropped while its rescan, whose handle a settle holds, still runs |
| `RateLimiter.RateLimiter.Remove` | crates/spm-http/src/rate_limit.rs:139-143 | both indexes lose the key together |
| `RateLimiter.RateLimiter.Sweep` | crates/spm-http/src/rate_limit.rs:145-162 | at most once per interval, exactly the buckets whose window is open stay |
| `RateLimiter.RateLimiter.EvictOverflow` | crates/spm-http/src/rate_limit.rs:164-179 | past the band the map is trimmed to the cap, every bucket gone older than every one kept, the newest never |
| `RateLimiter.NewestIsNotFirst` | crates/spm-http/src/rate_limit.rs:109-112 | the bucket just inserted is not the one popped, so the look-up after it cannot fail |
| `RateLimiter.RateLimiter.Check` | crates/spm-http/src/rate_limit.rs:83-125 | bijection and size bound are kept; for non-decreasing times every key not evicted out of an open window gets the verdict of a counter that never forgets; who may be evicted |
| `RateLimiter.HitIsFaithful` | crates/spm-http/src/rate_limit.rs:87-114 | counting one attempt keeps each such key's bucket equal to its counter |
| `RateLimiter.WindowsAreCounted` | crates/spm-http/src/rate_limit.rs:80-114 | a window opens with an attempt, counts every one within its length, and ends with the first attempt after it; other keys are left alone |
| `RateLimiter.WaitingIsEnough` | crates/spm-http/src/rate_limit.rs:115-117 | the window has ended after that many whole seconds exactly when at least the advertised number have passed |
| `Png.WriteChunk` | crates/spm-core/src/previews/png.rs:59-64 | length, kind, data and CRC behind the output, big-endian (PNG section 5.3) |
| `Png.FilteredRows` | crates/spm-core/src/previews/png.rs:99-103 | each whole row behind a zero filter byte |
| `Png.EncodePng` | crates/spm-core/src/previews/png.rs:76-118 | which buffers are accepted, and the three chunks written for them |
| `Png.DecodePng` | tools/png.ts:61-100 | the chunk walk accepts and refuses as specified: bounds, CRC, end, trailing bytes, inflated size |
| `Png.WalkOver` | tools/png.ts:76-88 | a written chunk is walked over whole, its CRC accepted |
| `Png.DecodesWhatWasEncoded` | tools/png.ts:61-100 | the checker accepts every encoded image and recovers its dimensions, exactly when the size check did not wrap |
| `Png.RowsAreKept` | crates/spm-core/src/previews/png.rs:99-103 | each row of the buffer is found whole in the compressed data, behind a zero |
| `Png.EncodedIsWire` | crates/spm-core/src/previews/png.rs:76-118 | the file is the signature, a header for eight bits of red, green and blue, one chunk of data and the end chunk |
| `Png.AnyPngIsChecked` | tools/png.ts:61-100 | for any file of well-formed chunks, which of the checker's verdicts it gets: colour type, interlacing, end, trailing bytes, image data, size |
| `Png.WrongCrcIsRefused` | tools/png.ts:76-88 | a chunk with any other check value than its CRC is refused |
| `Png.StartIsChecked` | tools/png.ts:33-55 | what is too short, has no signature or starts with another chunk is refused for that |
| `Png.WrappedSizeIsRefused` | crates/spm-core/src/previews/png.rs:86-97 | for every such buffer of 2^31 bytes: dimensions at which the size check wraps, the buffer is encoded and the checker refuses the file for its size |
| `Geometry.MeanIsBetween` | crates/spm-core/src/previews/raster.rs:424-442 | a barycentric mean lies between the corners |
| `Pictures.NineNumbers` | crates/spm-core/src/previews/raster.rs:164-211 | nine coordinates are three corners, each projected, with their normal and their area on the screen; what cannot be drawn is left out |
| `Pictures.ScreenArea` | crates/spm-core/src/previews/raster.rs:192-196 | a triangle's area on the screen is what its normal has along the line of sight |
| `Pictures.DrawnUnlessEdgeOn` | crates/spm-core/src/previews/raster.rs:150-163 | so a triangle is drawn exactly when it is not seen edge-on; the zero-normal test never decides |
| `Raster.FaceIgnoresWinding` | crates/spm-core/src/previews/raster.rs:363-379 | a face is coloured the same from both sides |
| `Raster.DrawableHasExtent` | crates/spm-core/src/previews/raster.rs:324-341 | a drawable triangle has extent on both axes, so the zero-extent error is unreachable |
| `Raster.FitsInFrame` | crates/spm-core/src/previews/raster.rs:343-347 | every drawn vertex lands inside the margin on both axes |
| `Raster.PixelArea` | crates/spm-core/src/previews/raster.rs:399-406 | the area derived from the screen is the pixel triangle's own signed area |
| `Raster.CoveredIsInBox` | crates/spm-core/src/previews/raster.rs:408-442 | a covered sample lies in the triangle's bounding box |
| `Raster.BoxHoldsWhatIsCovered` | crates/spm-core/src/previews/raster.rs:408-442 | any pixel anywhere whose sample is covered is visited by the clamped fill and is on the canvas |
| `Raster.ClampsFire` | crates/spm-core/src/previews/raster.rs:413-420 | for one pair of bounds, when a clamp changes one: never below, above exactly past the last pixel's start, never from 17 pixels on, always at the fitted edge up to 16 |
| `Raster.FarEdgeIsReached` | crates/spm-core/src/previews/raster.rs:343-347 | the fit is attained: in every drawable scene some triangle's corner lies exactly on the far margin |
| `Raster.ClampsFireUpTo16` | crates/spm-core/src/previews/raster.rs:408-420 | in every drawable scene some clamp changes the box of some triangle exactly when the size is at most 16 |
| `Raster.BoxIsOnCanvas` | crates/spm-core/src/previews/raster.rs:413-426 | whatever the triangle, the fill writes in bounds |
| `Raster.BestIsNearest` | crates/spm-core/src/previews/raster.rs:446-455 | the depth test leaves the nearest covering triangle, the earliest of equals, and nothing exactly where none covers |
| `Pictures.InsideIsCovered` | crates/spm-core/src/previews/raster.rs:424-446 | every point of a triangle is covered, at the weighted mean of the corners' depths |
| `Pictures.CoveredIsInside` | crates/spm-core/src/previews/raster.rs:424-446 | and nothing else is |
| `Pictures.DepthIsOnThePlane` | crates/spm-core/src/previews/raster.rs:444-446 | the depth at a covered sample is the height of the plane through the pixel corners |
| `Pictures.CornerHasItsDepth` | crates/spm-core/src/previews/raster.rs:444-446 | at a corner it is the corner's own |
| `Pictures.NearerTriangleHides` | crates/spm-core/src/previews/raster.rs:70-72 | where two triangles of a mesh cover a pixel and every corner of one is nearer along the view direction than every corner of the other, the farther one is not shown |
| `Pictures.WhatIsRefused` | crates/spm-core/src/previews/raster.rs:240-330 | which sizes, counts, lengths and meshes are refused before anything is drawn, each for its own reason, and that no extent is never the reason |
| `Pictures.PixelIsDecided` | crates/spm-core/src/previews/raster.rs:422-455 | a pixel is decided at its centre: the background where no triangle covers it, else the face of a covering triangle that none is nearer than and none earlier as near |
| `Pictures.BackgroundShows` | crates/spm-core/src/previews/raster.rs:343-346 | a pixel that nothing covers is the background slate |
| `Pictures.CameraIsRightHanded` | crates/spm-core/src/previews/raster.rs:66-95 | the camera basis is orthonormal and right-handed to twelve places, at the isometric elevation |
| `Pictures.UpIsUp` | crates/spm-core/src/previews/raster.rs:28-32 | what is higher in the world is higher in the picture, straight above, and nearer |
| `Pictures.RightIsRight` | crates/spm-core/src/previews/raster.rs:70-72 | positive X is to the right, and what is towards the front is nearer |
| `Pictures.FaceIsLambert` | crates/spm-core/src/previews/raster.rs:363-379 | with exact roots a face shows the base colour at 0.28 plus 0.72 times the cosine between it and the light, from either side |
| `Raster.TestPixel` | crates/spm-core/src/previews/raster.rs:427-455 | one pixel's coverage and depth tests write it exactly when they should |
| `Raster.FillTriangle` | crates/spm-core/src/previews/raster.rs:355-458 | after the box loops every pixel of the canvas is as if every pixel had been tested |
| `Raster.Measure` | crates/spm-core/src/previews/raster.rs:279-312 | pass one finds the bounds and number of the drawable triangles |
| `Raster.RenderMeshSized` | crates/spm-core/src/previews/raster.rs:240-479 | each refusal exactly when it applies; past the fit success exactly when some drawable triangle covers some sample, and then each pixel shows the nearest triangle |
| `Raster.CoverageIgnoresWinding` | crates/spm-core/src/previews/raster.rs:399-406 | reversing a triangle changes neither what it covers nor how deep |
| `Raster.SameTriSameCoverage` | crates/spm-core/src/previews/raster.rs:399-442 | the six orders of a triangle's corners cover the same samples at the same depth |
| `Raster.WindingIsIrrelevant` | crates/spm-core/src/previews/raster.rs:232-236 | meshes whose triangles have the same corners, each in any of the six orders, render alike, errors included |
| `Sessions.SessionStore.ResolveSession` | crates/spm-core/src/auth/sessions.rs:46-89 | who is let in, and that the row slides exactly when it is due |
| `Sessions.SessionStore.PruneExpiredSessions` | crates/spm-core/src/auth/sessions.rs:101-105 | exactly the expired sessions go, and they are counted |
| `Sessions.RunsAreConsistent` | crates/spm-core/src/auth/sessions.rs:20-34 | in every run each expiry is one lifetime past the last extension |
| `Sessions.UsedSessionsLive` | crates/spm-core/src/auth/sessions.rs:46-89 | used at gaps below a lifetime less a slide, a session answers every resolve, prunes in between included |
| `Sessions.TheGapIsSharp` | crates/spm-core/src/auth/sessions.rs:71-82 | at exactly that gap it can be dead |
| `Sessions.ThirtyDays` | crates/spm-core/src/auth/sessions.rs:46-89 | in milliseconds: until when a new session resolves, as whom, and from when a resolve slides it |
| `Sessions.InactiveUsersAreOut` | crates/spm-core/src/auth/sessions.rs:46-89 | a session of a user who is inactive or gone never resolves |
| `Sessions.IdleSessionsDie` | crates/spm-core/src/auth/sessions.rs:71-73 | left alone for a lifetime, it does not resolve |
| `Sessions.SlidesAreApart` | crates/spm-core/src/auth/sessions.rs:75-82 | consecutive slides of a session are more than a slide apart |
| `Sessions.PruningIsInvisible` | crates/spm-core/src/auth/sessions.rs:101-105 | with non-decreasing time and fresh tokens, pruning changes no later answer |
| `Sessions.PruningTakesTheExpired` | crates/spm-core/src/auth/sessions.rs:101-105 | pruning keeps exactly the sessions that would resolve for an active user, unchanged |
| `JsonStore.WriteTemp` | crates/spm-shell/src/json_store.rs:119-128 | the temp file is whole and durable exactly when every call worked; its handle is closed either way |
| `JsonStore.WriteJsonFileWith` | crates/spm-shell/src/json_store.rs:114-138 | success exactly when no call failed and then the new document; failure leaves the old one; handles balanced; other files untouched; at every step the target is the old or the new document |
| `JsonStore.CrashLeavesOldOrNew` | crates/spm-shell/src/json_store.rs:1-9 | a crash at any step leaves the old document or the new one, on a first write none or the new one, whatever becomes of unsynced data and of directory operations not yet durable |

## Left out

- Input and output errors of the operating system, allocation failure and interrupted reads: files are byte sequences, `usize` is 64 bits wide.
- The detail payloads of errors: which error is modelled, not its message.
- Files above 2^53 - 1 bytes in the theorems that read entries or laid-out archives: there the buffered stored read refuses an offset (`zip.rs:148`) that the chunked one accepts. The reader and rewriter themselves are modelled up to 2^64 - 1.
- ZipWriter.RewriteZip: paths are identities and input and output are required to differ; `strip3mf.rs:155-161` checks that for its callers, links included, and no other process changes the files meanwhile.
- Strip3mf.Strip: two spellings of one file count as two files, because path canonicalization is the operating system's.
- The element patterns `RELATIONSHIP_ELEMENT` and `OVERRIDE_ELEMENT` and the removal of what they match: any edit is allowed for, since the guarantee rests on the scan after it.
- The arithmetic of `crc32fast` and of the inflater and deflater.
- EntryHash.EntryHashInput: stops at the bytes fed to SHA-256, and streams a file that is not an archive in one piece. It says that the hash fails, not with which of the reader's errors, because chunked and buffered reading report some broken entries differently.
- EntryHash.HashAgreesWithDigests: an archive with duplicate names is not covered, because there the two really differ (`entry_hash.rs:149-153`).
- PreviewQueue.Previews.ClaimPendingPreviews: the database is a map, and the order in which it visits rows of equal age is an argument.
- Preview rows are reached by claims, outcomes, rescans, removals and project state changes; imports add rows as rescans do and are not separate steps. A picture write that fails half-way counts as that job's picture.
- Two rescans at once: what a rescan compares with is read in its own transaction here, where `rescan.rs` uses a snapshot taken at its start.
- PreviewRuns.NoStalePreview: compares the row with the hash the library recorded, not with bytes on disk that no rescan has seen.
- SingleFlight.NeverStuck: says that some call can move, not that a fair scheduler finishes them all.
- `Done::wait` and `wait_timeout` are reading a flag that stays set (`ReleaseChain.DoneStays`); their condition variable is not modelled again.
- RateLimiter.RateLimiter.Check: times and window lengths are unbounded integers, where the source would overflow 64 bits near the ends; times that run backwards are excluded as the refinement needs them to be. The sequence number is unbounded too.
- Raster.RenderMeshSized: exact reals stand for `f64` and for the `f32` depth buffer, so rounding, the non-finite vertex check and the byte-for-byte output are not modelled; a pixel is one value instead of three bytes.
- Png.DecodePng: sizes are exact integers where JavaScript numbers are exact only below 2^53.
- Sessions.UsedSessionsLive: does not cover deletion of the user row, which the schema cascades to the sessions.
- JsonStore.WriteJsonFileWith: creating the directory is a possible failure and no more; a rename is atomic and a failed one has no effect.
- `open_planned`, `prompt`, menus, dialogs, the proxies and the web views: plumbing over libraries this model does not see.
- `classify_file` by extension, `find_zip_entry`, percent coding elsewhere, `safe_join`, tokens and validation rules: easier cousins of what is here.
