/** Removing a `.3mf`'s slicer configuration, all of it or not at all (files/strip3mf.rs). */
module Strip3mf {
  import opened Words
  import opened Wrappers
  import opened Utf8
  import opened ZipFormat
  import opened EntryReading
  import opened Classify
  import opened PartNames
  import opened FileStore
  import R = ZipReader
  import W = ZipWriter
  import T = ZipRoundTrip
  import P = PartPaths
  import O = ZipOutput
  import Sorting

  datatype Refusal = Encrypted | Unreadable | ConfigurationLeftBehind

  datatype StripResult = StripResult(classification: Classification, stripped: bool, removed: seq<string>, rewritten: seq<string>)

  /** The element-pattern repair of one part's text: any edit at all, `None` for no edit. */
  type Repair = (string, string, set<string>) -> Option<string>

  // ---- The strip set --------------------------------------------------------------------------

  const PRUSA_STRIP_ENTRIES := ["Metadata/Slic3r_PE.config", "Metadata/Slic3r_PE_model.config"]
  const BAMBU_LINEAGE_STRIP_ENTRIES := [
    "Metadata/slice_info.config",
    "Metadata/project_settings.config",
    "Metadata/model_settings.config",
    "Metadata/custom_gcode_per_layer.xml",
    "Metadata/cut_information.xml"
  ]

  predicate InStripSet(c: Classification, name: string) {
    c.kind != Model
    && match c.slicer
       case Some(Cura) => CURA_PREFIX <= name
       case Some(Prusaslicer) => name in PRUSA_STRIP_ENTRIES
       case _ => name in BAMBU_LINEAGE_STRIP_ENTRIES
  }

  /** The names to remove, of those that are there. */
  function StripSet(c: Classification, entries: seq<ZipEntry>): set<string> {
    set i | 0 <= i < |entries| && InStripSet(c, entries[i].name) :: entries[i].name
  }

  const CONTENT_TYPES := "[Content_Types].xml"

  /** `(?:^|/)_rels/[^/]+$`. */
  predicate IsRelsPart(name: string) {
    var parts := Segments(name);
    |parts| >= 2 && parts[|parts| - 2] == "_rels" && parts[|parts| - 1] != ""
  }

  predicate IsReferencingPart(name: string) {
    name == CONTENT_TYPES || IsRelsPart(name)
  }

  // ---- The repairs ----------------------------------------------------------------------------

  /** The text that will be shipped for a part, and whether it is an edit. */
  function ShippedText(repair: Repair, name: string, original: string, removed: set<string>): string {
    var repaired := repair(name, original, removed);
    if repaired.Some? then repaired.value else original
  }

  ghost function RepairOne(inflate: Inflater, repair: Repair, file: seq<byte>, entry: ZipEntry, removed: set<string>)
    : Result<Option<string>, Refusal>
  {
    if entry.name in removed || !IsReferencingPart(entry.name) then Ok(None)
    else
      var bytes := ReadEntry(inflate, file, entry);
      if bytes.Err? then Err(Unreadable)
      else
        var original := DecodeUtf8(bytes.value);
        if Dangles(entry.name, ShippedText(repair, entry.name, original, removed), removed) then Err(ConfigurationLeftBehind)
        else Ok(repair(entry.name, original, removed))
  }

  /** The repaired parts, on top of those already collected; a later part of a name replaces an earlier one. */
  ghost function Repairs(
    inflate: Inflater, repair: Repair, file: seq<byte>, entries: seq<ZipEntry>, removed: set<string>, collected: map<string, seq<byte>>)
    : Result<map<string, seq<byte>>, Refusal>
    decreases |entries|
  {
    if entries == [] then Ok(collected)
    else
      var repaired :- RepairOne(inflate, repair, file, entries[0], removed);
      var more := if repaired.Some? then collected[entries[0].name := EncodeAll(repaired.value)] else collected;
      Repairs(inflate, repair, file, entries[1..], removed, more)
  }

  // ---- The strip ------------------------------------------------------------------------------

  function RefusalOf(e: W.RewriteError): Refusal {
    if e == W.Encrypted then Encrypted else Unreadable
  }

  ghost function StripInto(inflate: Inflater, repair: Repair, file: seq<byte>, c: Classification)
    : Result<(seq<byte>, StripResult), Refusal>
  {
    var read := R.Directory(file);
    if read.Err? then Err(Unreadable)
    else
      var removed := StripSet(c, read.value);
      if removed == {} then Ok((file, StripResult(c, false, [], [])))
      else
        var replace :- Repairs(inflate, repair, file, read.value, removed, map[]);
        var request := W.Request(removed, replace);
        var out := W.Rewritten(file, request);
        if out.Err? then Err(RefusalOf(out.error))
        else
          var summary := W.Summarize(W.InFileOrder(read.value), request);
          Ok((out.value, StripResult(c, true, summary.dropped, summary.replaced)))
  }

  /** The whole strip of an archive's bytes, the run-time check on what it wrote included. */
  ghost function Stripped(inflate: Inflater, repair: Repair, file: seq<byte>): Result<(seq<byte>, StripResult), Refusal> {
    var c := ClassificationOf(inflate, Some(file));
    if c.kind == Other then Err(Unreadable)
    else
      var done :- StripInto(inflate, repair, file, c);
      if ClassificationOf(inflate, Some(done.0)).kind == Model then Ok(done) else Err(ConfigurationLeftBehind)
  }

  // ---- The imperative strip -------------------------------------------------------------------

  method CollectRepairs(inflate: Inflater, repair: Repair, file: seq<byte>, entries: seq<ZipEntry>, removed: set<string>)
    returns (r: Result<map<string, seq<byte>>, Refusal>)
    ensures r == Repairs(inflate, repair, file, entries, removed, map[])
  {
    hide ReadEntry, DecodeUtf8, IsReferencingPart, EncodeAll, Dangles;
    var replace: map<string, seq<byte>> := map[];
    assert entries[0..] == entries;
    for i := 0 to |entries|
      invariant Repairs(inflate, repair, file, entries, removed, map[])
                == Repairs(inflate, repair, file, entries[i..], removed, replace)
    {
      var entry := entries[i];
      assert entries[i..][1..] == entries[i + 1..];
      if entry.name in removed || !IsReferencingPart(entry.name) {
        continue;
      }
      var bytes := ReadEntry(inflate, file, entry);
      if bytes.Err? {
        return Err(Unreadable);
      }
      var original := DecodeUtf8(bytes.value);
      var repaired := repair(entry.name, original, removed);
      var dangling := DanglingReference(entry.name, if repaired.Some? then repaired.value else original, removed);
      if dangling.Some? {
        return Err(ConfigurationLeftBehind);
      }
      if repaired.Some? {
        replace := replace[entry.name := EncodeAll(repaired.value)];
      }
    }
    return Ok(replace);
  }

  method StripFile(files: Files, inflate: Inflater, repair: Repair, input: string, output: string, c: Classification)
    returns (r: Result<StripResult, Refusal>)
    requires input != output && input in files.contents && |files.contents[input]| < R.FILE_LIMIT
    modifies files
    ensures var file := old(files.contents)[input];
            && (r.Ok? <==> StripInto(inflate, repair, file, c).Ok?)
            && (r.Ok? ==> r.value == StripInto(inflate, repair, file, c).value.1)
            && (r.Ok? ==> files.contents == old(files.contents)[output := StripInto(inflate, repair, file, c).value.0])
            && (r.Err? ==> r.error == StripInto(inflate, repair, file, c).error)
            && (r.Err? ==> files.contents - {output} == old(files.contents) - {output})
  {
    hide R.Directory, W.Rewritten, W.Summarize, W.InFileOrder, W.Accepted, Repairs;
    var file := files.contents[input];
    var read := R.ReadEntries(file);
    if read.Err? {
      return Err(Unreadable);
    }
    var removed := StripSet(c, read.value);
    if removed == {} {
      files.contents := files.contents[output := file];
      return Ok(StripResult(c, false, [], []));
    }
    var replace :- CollectRepairs(inflate, repair, file, read.value, removed);
    var written := W.RewriteZip(files, input, output, W.Request(removed, replace));
    if written.Err? {
      return Err(RefusalOf(written.error));
    }
    return Ok(StripResult(c, true, written.value.dropped, written.value.replaced));
  }

  /**
   Writes a stripped copy, or refuses. The two refusals that come before any work leave every file
   as it was; every later one leaves nothing at `output`.
   */
  method Strip(files: Files, inflate: Inflater, repair: Repair, input: string, output: string)
    returns (r: Result<StripResult, Refusal>)
    requires input in files.contents ==> |files.contents[input]| < R.FILE_LIMIT
    modifies files
    ensures input == output || input !in old(files.contents) ==> r == Err(Unreadable) && files.contents == old(files.contents)
    ensures input != output && input in old(files.contents) ==>
              var file := old(files.contents)[input];
              && (r.Ok? <==> Stripped(inflate, repair, file).Ok?)
              && (r.Ok? ==> r.value == Stripped(inflate, repair, file).value.1)
              && (r.Ok? ==> files.contents == old(files.contents)[output := Stripped(inflate, repair, file).value.0])
              && (r.Err? ==> r.error == Stripped(inflate, repair, file).error)
              && (r.Err? ==> files.contents == if ClassificationOf(inflate, Some(file)).kind == Other then old(files.contents)
                                               else old(files.contents) - {output})
  {
    hide R.Directory, StripInto, ClassificationOf;
    if input == output {
      return Err(Unreadable);
    }
    var c := Classify3mf(inflate, if input in files.contents then Some(files.contents[input]) else None);
    if c.kind == Other {
      return Err(Unreadable);
    }
    NotThere(inflate);
    var outcome := StripFile(files, inflate, repair, input, output, c);
    if outcome.Ok? {
      StrippedIsSmall(inflate, repair, old(files.contents)[input], c);
      var after := Classify3mf(inflate, Some(files.contents[output]));
      if after.kind == Model {
        return outcome;
      }
      outcome := Err(ConfigurationLeftBehind);
    }
    files.contents := files.contents - {output};
    return outcome;
  }

  lemma NotThere(inflate: Inflater)
    ensures ClassificationOf(inflate, None).kind == Other
  {
  }

  lemma StrippedIsSmall(inflate: Inflater, repair: Repair, file: seq<byte>, c: Classification)
    requires StripInto(inflate, repair, file, c).Ok? && |file| < R.FILE_LIMIT
    ensures |StripInto(inflate, repair, file, c).value.0| < R.FILE_LIMIT
  {
    hide R.Directory, W.Rewritten, W.Summarize, Repairs;
    var removed := StripSet(c, R.Directory(file).value);
    if removed != {} {
      T.OutputIsSmall(file, W.Request(removed, Repairs(inflate, repair, file, R.Directory(file).value, removed, map[]).value));
    }
  }

  /**
   A file that is no archive (any shorter than an end record, to begin with), and only that, is
   refused before any work, so that what was at the output before stays there.
   */
  lemma RefusedBeforeAnyWork(inflate: Inflater, repair: Repair, file: seq<byte>)
    ensures ClassificationOf(inflate, Some(file)).kind == Other <==> R.Directory(file).Err?
    ensures R.Directory(file).Err? ==> Stripped(inflate, repair, file) == Err(Unreadable)
    ensures |file| < EOCD_MIN ==> R.Directory(file).Err?
  {
    hide R.Directory, ClassifyEntries;
    if R.Directory(file).Ok? {
      ModelMeansNoMark(inflate, file);
    }
    TooSmall(file);
  }

  lemma TooSmall(file: seq<byte>)
    ensures |file| < EOCD_MIN ==> R.Directory(file).Err?
  {
    hide R.Records, R.EndAt;
  }

  /** An instance: an empty input, and an earlier copy at the output, which survives the refusal. */
  method EmptyInputKeepsTheOldOutput(
    files: Files, inflate: Inflater, repair: Repair, input: string, output: string) returns (r: Result<StripResult, Refusal>)
    requires input != output && input in files.contents && files.contents[input] == [] && output in files.contents
    modifies files
    ensures r == Err(Unreadable) && files.contents == old(files.contents)
  {
    hide R.Directory, ClassificationOf, Stripped;
    RefusedBeforeAnyWork(inflate, repair, files.contents[input]);
    r := Strip(files, inflate, repair, input, output);
  }

  // ---- What is removed ------------------------------------------------------------------------

  lemma StripSetMembers(c: Classification, entries: seq<ZipEntry>)
    ensures forall entry :: entry in entries ==> (entry.name in StripSet(c, entries) <==> InStripSet(c, entry.name))
    ensures StripSet(c, entries) == {} <==> forall i :: 0 <= i < |entries| ==> !InStripSet(c, entries[i].name)
  {
    hide InStripSet;
    forall entry | entry in entries ensures entry.name in StripSet(c, entries) <==> InStripSet(c, entry.name) {
      var i :| 0 <= i < |entries| && entries[i] == entry;
    }
    if StripSet(c, entries) == {} {
      assert forall i :: 0 <= i < |entries| && InStripSet(c, entries[i].name) ==> entries[i].name in StripSet(c, entries);
    }
  }

  lemma MarkWasStripped(inflate: Inflater, file: seq<byte>, entries: seq<ZipEntry>)
    requires ClassifyEntries(inflate, file, entries).kind == SlicerProject
    ensures exists i :: 0 <= i < |entries| && InStripSet(ClassifyEntries(inflate, file, entries), entries[i].name)
  {
    hide SlicerFromKeys, Keys, ReadEntry, DecodeUtf8;
    var c := ClassifyEntries(inflate, file, entries);
    if HasCura(entries) {
    } else if HasName(entries, SLIC3R_CONFIG) {
      assert entries[FindZipEntry(entries, SLIC3R_CONFIG)].name == PRUSA_STRIP_ENTRIES[0];
    } else if HasName(entries, SLICE_INFO) {
      NeitherOfTheTwo(inflate, file, entries[FindZipEntry(entries, SLICE_INFO)]);
      assert entries[FindZipEntry(entries, SLICE_INFO)].name == BAMBU_LINEAGE_STRIP_ENTRIES[0];
    } else {
      assert entries[FindZipEntry(entries, PROJECT_SETTINGS)].name == BAMBU_LINEAGE_STRIP_ENTRIES[1];
    }
  }

  /** Every project has something to remove, so a plain copy is made of plain models only. */
  lemma ProjectsAreStripped(inflate: Inflater, repair: Repair, file: seq<byte>)
    requires Stripped(inflate, repair, file).Ok?
    ensures R.Directory(file).Ok?
    ensures var c := ClassificationOf(inflate, Some(file));
            (StripSet(c, R.Directory(file).value) == {} <==> c.kind == Model)
            && (Stripped(inflate, repair, file).value.1.stripped <==> c.kind == SlicerProject)
  {
    hide ClassifyEntries, W.Rewritten, W.Summarize, Repairs, R.Directory, InStripSet;
    var entries, c := R.Directory(file).value, ClassificationOf(inflate, Some(file));
    StripSetMembers(c, entries);
    if c.kind == SlicerProject {
      MarkWasStripped(inflate, file, entries);
    } else {
      ModelStripsNothing(c);
    }
  }

  lemma ModelStripsNothing(c: Classification)
    requires c.kind == Model
    ensures forall name :: !InStripSet(c, name)
  {
  }

  // ---- Nothing half stripped ------------------------------------------------------------------

  ghost predicate CleanText(name: string, bytes: seq<byte>, removed: set<string>) {
    exists text :: bytes == EncodeAll(text) && !Dangles(name, text, removed)
  }

  ghost predicate CleanMap(replace: map<string, seq<byte>>, removed: set<string>) {
    forall name :: name in replace ==> IsReferencingPart(name) && CleanText(name, replace[name], removed)
  }

  ghost predicate CleanPart(inflate: Inflater, file: seq<byte>, entry: ZipEntry, removed: set<string>) {
    ReadEntry(inflate, file, entry).Ok? && !Dangles(entry.name, DecodeUtf8(ReadEntry(inflate, file, entry).value), removed)
  }

  /** Every referencing part that stays is repaired or was clean as it stood. */
  lemma {:induction false} RepairsAreClean(
    inflate: Inflater, repair: Repair, file: seq<byte>, entries: seq<ZipEntry>, removed: set<string>, collected: map<string, seq<byte>>)
    requires CleanMap(collected, removed) && Repairs(inflate, repair, file, entries, removed, collected).Ok?
    ensures var replace := Repairs(inflate, repair, file, entries, removed, collected).value;
            && CleanMap(replace, removed)
            && (forall name :: name in collected ==> name in replace)
            && forall i :: 0 <= i < |entries| && entries[i].name !in removed && IsReferencingPart(entries[i].name) ==>
                 entries[i].name in replace || CleanPart(inflate, file, entries[i], removed)
    decreases |entries|
  {
    hide ReadEntry, DecodeUtf8, EncodeAll, Dangles, IsReferencingPart;
    if entries != [] {
      var repaired := RepairOne(inflate, repair, file, entries[0], removed).value;
      var more := if repaired.Some? then collected[entries[0].name := EncodeAll(repaired.value)] else collected;
      RepairsAreClean(inflate, repair, file, entries[1..], removed, more);
    }
  }

  /** The rewrite a strip asks for. */
  ghost function RequestOf(inflate: Inflater, repair: Repair, file: seq<byte>): W.Request
    requires Stripped(inflate, repair, file).Ok?
  {
    var removed := StripSet(ClassificationOf(inflate, Some(file)), T.EntriesIn(file));
    var replace := Repairs(inflate, repair, file, T.EntriesIn(file), removed, map[]);
    W.Request(removed, if replace.Ok? then replace.value else map[])
  }

  ghost predicate IsMarked(name: string) {
    name != "" && name[0] == BOM
  }

  ghost predicate NoMarkedNames(file: seq<byte>) {
    forall entry :: entry in T.EntriesIn(file) ==> !IsMarked(entry.name)
  }

  lemma StripRewrites(inflate: Inflater, repair: Repair, file: seq<byte>)
    requires Stripped(inflate, repair, file).Ok? && Stripped(inflate, repair, file).value.1.stripped
    ensures var request := RequestOf(inflate, repair, file);
            && W.Rewritten(file, request) == Ok(Stripped(inflate, repair, file).value.0)
            && Repairs(inflate, repair, file, T.EntriesIn(file), request.drop, map[]) == Ok(request.replace)
  {
    hide R.Directory, W.Rewritten, W.Summarize, Repairs, ClassificationOf, StripSet;
  }

  /** A kept referencing part, read from the output, points at nothing that was removed. */
  lemma PartIsClean(inflate: Inflater, file: seq<byte>, entry: ZipEntry, request: W.Request)
    requires CleanMap(request.replace, request.drop)
    requires entry.name in request.replace || CleanPart(inflate, file, entry, request.drop)
    ensures var content := T.ContentOf(inflate, file, entry, request);
            content.Ok? && !Dangles(entry.name, DecodeUtf8(content.value), request.drop)
  {
    hide ReadEntry, DecodeUtf8, EncodeAll;
    if entry.name in request.replace {
      var text :| request.replace[entry.name] == EncodeAll(text) && !Dangles(entry.name, text, request.drop);
      DecodeOfEncode(text);
      MarkHidesNoReference(text);
    }
  }

  lemma KeptAreOthers(file: seq<byte>, request: W.Request)
    requires W.Rewritten(file, request).Ok?
    ensures forall entry :: entry in T.Kept(file, request) <==> entry in T.EntriesIn(file) && entry.name !in request.drop
  {
    hide R.Directory, W.Rewritten;
    T.SurvivingAreEntries(W.InFileOrder(T.EntriesIn(file)), request.drop);
    assert forall entry :: entry in W.InFileOrder(T.EntriesIn(file)) <==> entry in multiset(T.EntriesIn(file));
  }

  /**
   A strip that succeeds left nothing behind: no entry that was to go, no entry that marks a
   project, and no part that points at one that went.
   */
  lemma NeverHalfStripped(inflate: Inflater, repair: Repair, file: seq<byte>)
    requires |file| <= MAX_SAFE_INTEGER && NoMarkedNames(file)
    requires Stripped(inflate, repair, file).Ok? && Stripped(inflate, repair, file).value.1.stripped
    ensures var out, removed := Stripped(inflate, repair, file).value.0, RequestOf(inflate, repair, file).drop;
            forall entry :: entry in T.EntriesIn(out) ==>
              && entry.name !in removed && !MarksProject(entry.name)
              && (IsReferencingPart(entry.name) ==> CleanPart(inflate, out, entry, removed))
  {
    hide R.Directory, W.Rewritten, Stripped, Repairs, MarksProject, IsReferencingPart, RequestOf, CleanMap,
      T.EntriesIn, T.Kept, T.ReadsAs, T.LiesAt, T.ContentOf, W.Representable, W.Replacement, W.Fields;
    var request := RequestOf(inflate, repair, file);
    var out, removed, kept := Stripped(inflate, repair, file).value.0, request.drop, T.Kept(file, request);
    StripRewrites(inflate, repair, file);
    EmptyMapIsClean(removed);
    RepairsAreClean(inflate, repair, file, T.EntriesIn(file), removed, map[]);
    T.RewriteRoundTrip(file, request);
    T.PayloadsSurvive(inflate, file, request);
    KeptAreOthers(file, request);
    OutputHasNoMark(inflate, repair, file);
    forall k | 0 <= k < |kept|
      ensures var entry := T.EntriesIn(out)[k];
              entry.name !in removed && (IsReferencingPart(entry.name) ==> CleanPart(inflate, out, entry, removed))
    {
      assert kept[k] in kept;
      assert T.EntriesIn(out)[k].name == kept[k].name by { NameIsKept(T.EntriesIn(out)[k], kept[k], request); }
      if IsReferencingPart(kept[k].name) {
        var i :| 0 <= i < |T.EntriesIn(file)| && T.EntriesIn(file)[i] == kept[k];
        PartIsClean(inflate, file, kept[k], request);
      }
    }
  }

  lemma EmptyMapIsClean(removed: set<string>)
    ensures CleanMap(map[], removed)
  {
  }

  lemma NameIsKept(read: ZipEntry, entry: ZipEntry, request: W.Request)
    requires T.ReadsAs(read, entry, W.Replacement(entry, request))
    ensures read.name == StripBom(entry.name)
    ensures !IsMarked(entry.name) ==> read.name == entry.name
  {
    hide W.Representable;
  }

  lemma OutputHasNoMark(inflate: Inflater, repair: Repair, file: seq<byte>)
    requires Stripped(inflate, repair, file).Ok?
    ensures forall entry :: entry in T.EntriesIn(Stripped(inflate, repair, file).value.0) ==> !MarksProject(entry.name)
  {
    hide R.Directory, StripInto, MarksProject, ClassifyEntries;
    var out := Stripped(inflate, repair, file).value.0;
    ModelMeansNoMark(inflate, out);
  }

  /** Everything that names no part keeps its bytes and its record; only kept entries are left, in file order. */
  lemma OtherPartsUnchanged(inflate: Inflater, repair: Repair, file: seq<byte>)
    requires |file| <= MAX_SAFE_INTEGER
    requires Stripped(inflate, repair, file).Ok? && Stripped(inflate, repair, file).value.1.stripped
    ensures var out, kept := Stripped(inflate, repair, file).value.0, T.Kept(file, RequestOf(inflate, repair, file));
            && |T.EntriesIn(out)| == |kept|
            && forall k :: 0 <= k < |kept| && !IsReferencingPart(kept[k].name) ==>
                 && T.ReadsAs(T.EntriesIn(out)[k], kept[k], None)
                 && ReadEntry(inflate, out, T.EntriesIn(out)[k]) == ReadEntry(inflate, file, kept[k])
  {
    hide R.Directory, W.Rewritten, Stripped, Repairs, IsReferencingPart, RequestOf, T.EntriesIn, T.Kept, T.ReadsAs, T.LiesAt,
      W.Representable, W.Fields, ReadEntry, CleanText;
    var request := RequestOf(inflate, repair, file);
    StripRewrites(inflate, repair, file);
    EmptyMapIsClean(request.drop);
    RepairsAreClean(inflate, repair, file, T.EntriesIn(file), request.drop, map[]);
    T.RewriteRoundTrip(file, request);
    T.PayloadsSurvive(inflate, file, request);
  }

  /** Stripping what a strip wrote copies it byte for byte. */
  lemma StrippingAgainCopies(inflate: Inflater, repair: Repair, again: Repair, file: seq<byte>)
    requires Stripped(inflate, repair, file).Ok?
    ensures var out := Stripped(inflate, repair, file).value.0;
            Stripped(inflate, again, out) == Ok((out, StripResult(Classification(Model, None, false), false, [], [])))
  {
    hide R.Directory;
    var out := Stripped(inflate, repair, file).value.0;
    var c := ClassificationOf(inflate, Some(out));
    PlainModel(inflate, out);
    StripSetMembers(c, R.Directory(out).value);
    ModelStripsNothing(c);
    assert StripInto(inflate, again, out, c) == Ok((out, StripResult(c, false, [], [])));
  }

  lemma PlainModel(inflate: Inflater, file: seq<byte>)
    requires ClassificationOf(inflate, Some(file)).kind == Model
    ensures ClassificationOf(inflate, Some(file)) == Classification(Model, None, false) && R.Directory(file).Ok?
  {
    hide R.Directory;
  }

  // ---- When the run-time check refuses --------------------------------------------------------

  ghost predicate LeftBehind(c: Classification, file: seq<byte>) {
    exists entry :: entry in T.EntriesIn(file) && !InStripSet(c, entry.name) && MarksProject(StripBom(entry.name))
  }

  /**
   The check on the written file refuses exactly when an entry outside the strip set reads back
   under a name that marks a project.
   */
  lemma RefusedForWhatIsLeft(inflate: Inflater, repair: Repair, file: seq<byte>)
    requires ClassificationOf(inflate, Some(file)).kind == SlicerProject
    requires StripInto(inflate, repair, file, ClassificationOf(inflate, Some(file))).Ok?
    ensures Stripped(inflate, repair, file)
            == if LeftBehind(ClassificationOf(inflate, Some(file)), file) then Err(ConfigurationLeftBehind)
               else StripInto(inflate, repair, file, ClassificationOf(inflate, Some(file)))
  {
    hide R.Directory, W.Rewritten, W.Summarize, Repairs, InStripSet, MarksProject, ClassifyEntries;
    var c := ClassificationOf(inflate, Some(file));
    var entries := R.Directory(file).value;
    StripSetMembers(c, entries);
    MarkWasStripped(inflate, file, entries);
    var request := W.Request(StripSet(c, entries), Repairs(inflate, repair, file, entries, StripSet(c, entries), map[]).value);
    WhatTheCheckSees(inflate, file, request);
    KeptAreOthers(file, request);
    var kept := T.Kept(file, request);
    if LeftBehind(c, file) {
      var entry :| entry in entries && !InStripSet(c, entry.name) && MarksProject(StripBom(entry.name));
      assert entry in kept;
    } else {
      assert forall entry :: entry in kept ==> entry in entries && !InStripSet(c, entry.name);
    }
  }

  lemma WhatTheCheckSees(inflate: Inflater, file: seq<byte>, request: W.Request)
    requires W.Rewritten(file, request).Ok?
    ensures ClassificationOf(inflate, Some(W.Rewritten(file, request).value)).kind
            == if exists entry :: entry in T.Kept(file, request) && MarksProject(StripBom(entry.name)) then SlicerProject else Model
  {
    hide R.Directory, W.Rewritten, MarksProject, ClassifyEntries, T.Kept, T.ReadsAs, T.LiesAt, W.Representable, W.Replacement, W.Fields;
    var out, kept := W.Rewritten(file, request).value, T.Kept(file, request);
    T.RewriteRoundTrip(file, request);
    var read := T.EntriesIn(out);
    forall k | 0 <= k < |kept| ensures read[k].name == StripBom(kept[k].name) {
      NameIsKept(read[k], kept[k], request);
    }
    ModelMeansNoMark(inflate, out);
    if exists entry :: entry in read && MarksProject(entry.name) {
      var k :| 0 <= k < |read| && MarksProject(read[k].name);
      assert kept[k] in kept;
    }
    if exists entry :: entry in kept && MarksProject(StripBom(entry.name)) {
      var k :| 0 <= k < |kept| && MarksProject(StripBom(kept[k].name));
      assert read[k] in read;
    }
  }

  predicate IsLineage(c: Classification) {
    c.kind == SlicerProject && c.slicer != Some(Cura) && c.slicer != Some(Prusaslicer)
  }

  lemma LineageHasNoOtherMark(inflate: Inflater, file: seq<byte>, entries: seq<ZipEntry>)
    requires IsLineage(ClassifyEntries(inflate, file, entries))
    ensures forall i :: 0 <= i < |entries| ==> !(CURA_PREFIX <= entries[i].name) && entries[i].name != SLIC3R_CONFIG
  {
    hide SlicerOf;
  }

  lemma LineageSetCovers(c: Classification, name: string)
    requires IsLineage(c) && (name == SLICE_INFO || name == PROJECT_SETTINGS)
    ensures InStripSet(c, name)
  {
    assert SLICE_INFO == BAMBU_LINEAGE_STRIP_ENTRIES[0] && PROJECT_SETTINGS == BAMBU_LINEAGE_STRIP_ENTRIES[1];
  }

  /** The lineage's set removes every mark its own files can carry: its strips are never refused by the check. */
  lemma LineageIsNeverRefused(inflate: Inflater, repair: Repair, file: seq<byte>)
    requires IsLineage(ClassificationOf(inflate, Some(file))) && NoMarkedNames(file)
    ensures Stripped(inflate, repair, file) == StripInto(inflate, repair, file, ClassificationOf(inflate, Some(file)))
  {
    hide R.Directory, StripInto, ClassifyEntries, InStripSet;
    var c, entries := ClassificationOf(inflate, Some(file)), R.Directory(file).value;
    if StripInto(inflate, repair, file, c).Ok? {
      RefusedForWhatIsLeft(inflate, repair, file);
      if LeftBehind(c, file) {
        var entry :| entry in T.EntriesIn(file) && !InStripSet(c, entry.name) && MarksProject(StripBom(entry.name));
        var i :| 0 <= i < |entries| && entries[i] == entry;
        LineageHasNoOtherMark(inflate, file, entries);
        assert !IsMarked(entry.name);
        LineageSetCovers(c, entry.name);
        assert false;
      }
    }
  }

  /** A file carrying two flavours is refused, whatever the repairs do. */
  lemma TwoFlavoursAreRefused(inflate: Inflater, repair: Repair, file: seq<byte>, cura: ZipEntry, prusa: ZipEntry)
    requires cura in T.EntriesIn(file) && CURA_PREFIX <= cura.name
    requires prusa in T.EntriesIn(file) && prusa.name == SLIC3R_CONFIG
    ensures Stripped(inflate, repair, file).Err?
  {
    hide R.Directory, StripInto;
    var c, entries := ClassificationOf(inflate, Some(file)), R.Directory(file).value;
    assert HasCura(entries) by {
      var i :| 0 <= i < |entries| && entries[i] == cura;
    }
    if StripInto(inflate, repair, file, c).Ok? {
      RefusedForWhatIsLeft(inflate, repair, file);
      assert SLIC3R_CONFIG[0] != CURA_PREFIX[0] && SLIC3R_CONFIG[0] != BOM;
    }
  }

  // ---- Which parts are looked at --------------------------------------------------------------

  /** A file of a `_rels` directory, at the root or below any other directory. */
  ghost predicate IsInRels(name: string, dir: Option<string>, file: string) {
    file != "" && SlashFree(file) && name == (if dir.Some? then dir.value + "/_rels/" + file else "_rels/" + file)
  }

  lemma RelsJoined(front: seq<string>, file: string)
    requires SlashFree(file)
    ensures JoinSegments(front + ["_rels", file])
            == if front == [] then "_rels/" + file else JoinSegments(front) + "/_rels/" + file
  {
    hide JoinSegments, Segments;
    P.RelsSegments("", file);
    SegmentsJoin("_rels/" + file);
    if front == [] {
      assert front + ["_rels", file] == ["_rels", file];
    } else {
      P.JoinAppend(front, ["_rels", file]);
    }
  }

  lemma RelsPartIs(name: string) returns (dir: Option<string>, file: string)
    requires IsRelsPart(name)
    ensures IsInRels(name, dir, file)
  {
    hide JoinSegments, Segments;
    var parts := Segments(name);
    var front := parts[..|parts| - 2];
    SegmentsJoin(name);
    file := parts[|parts| - 1];
    assert parts == front + ["_rels", file];
    RelsJoined(front, file);
    dir := if front == [] then None else Some(JoinSegments(front));
  }

  /** The parts whose references are looked at are exactly those, and the list of content types. */
  lemma ReferencingPartsAre(name: string)
    ensures IsReferencingPart(name) <==> name == "[Content_Types].xml" || exists dir, file :: IsInRels(name, dir, file)
  {
    hide IsRelsPart;
    if IsRelsPart(name) {
      var dir, file := RelsPartIs(name);
      assert IsInRels(name, dir, file);
    }
    forall dir, file | IsInRels(name, dir, file) ensures IsRelsPart(name) {
      InRelsIsRelsPart(name, dir, file);
    }
  }

  lemma InRelsIsRelsPart(name: string, dir: Option<string>, file: string)
    requires IsInRels(name, dir, file)
    ensures IsRelsPart(name)
  {
    hide Segments;
    P.RelsSegments(if dir.Some? then dir.value else "", file);
  }

  lemma {:induction false} EachIsRepaired(
    inflate: Inflater, repair: Repair, file: seq<byte>, entries: seq<ZipEntry>, removed: set<string>, collected: map<string, seq<byte>>)
    requires Repairs(inflate, repair, file, entries, removed, collected).Ok?
    ensures forall entry :: entry in entries ==> RepairOne(inflate, repair, file, entry, removed).Ok?
    decreases |entries|
  {
    hide RepairOne;
    if entries != [] {
      var repaired := RepairOne(inflate, repair, file, entries[0], removed).value;
      var more := if repaired.Some? then collected[entries[0].name := EncodeAll(repaired.value)] else collected;
      EachIsRepaired(inflate, repair, file, entries[1..], removed, more);
    }
  }

  /** A failure of the repairs is some part's own: it cannot be read, or would be left dangling. */
  lemma {:induction false} RepairsFailForAPart(
    inflate: Inflater, repair: Repair, file: seq<byte>, entries: seq<ZipEntry>, removed: set<string>, collected: map<string, seq<byte>>)
    requires Repairs(inflate, repair, file, entries, removed, collected).Err?
    ensures exists entry :: entry in entries && entry.name !in removed && IsReferencingPart(entry.name)
              && RepairOne(inflate, repair, file, entry, removed) == Err(Repairs(inflate, repair, file, entries, removed, collected).error)
              && Repairs(inflate, repair, file, entries, removed, collected).error
                 == if ReadEntry(inflate, file, entry).Err? then Unreadable else ConfigurationLeftBehind
    decreases |entries|
  {
    hide ReadEntry, IsReferencingPart, DecodeUtf8, Dangles, EncodeAll;
    var first := RepairOne(inflate, repair, file, entries[0], removed);
    if first.Ok? {
      var more := if first.value.Some? then collected[entries[0].name := EncodeAll(first.value.value)] else collected;
      RepairsFailForAPart(inflate, repair, file, entries[1..], removed, more);
      var entry :| entry in entries[1..] && entry.name !in removed && IsReferencingPart(entry.name)
        && RepairOne(inflate, repair, file, entry, removed) == Err(Repairs(inflate, repair, file, entries, removed, collected).error)
        && Repairs(inflate, repair, file, entries, removed, collected).error
           == if ReadEntry(inflate, file, entry).Err? then Unreadable else ConfigurationLeftBehind;
      assert entry in entries;
    } else {
      assert entries[0] in entries;
    }
  }

  /**
   No repair gets a dangling reference past the check: a kept referencing part whose text, as it would
   be shipped, has an attribute naming a removed part anywhere, in whatever element, refuses the strip.
   */
  lemma DanglingPartIsRefused(
    inflate: Inflater, repair: Repair, file: seq<byte>, entry: ZipEntry,
    before: string, name: string, w1: string, w2: string, q: char, v: string, after: string)
    requires entry in T.EntriesIn(file) && IsReferencingPart(entry.name) && ReadEntry(inflate, file, entry).Ok?
    requires var removed := StripSet(ClassificationOf(inflate, Some(file)), T.EntriesIn(file));
             && entry.name !in removed && PointsInto(entry.name, v, removed)
             && ShippedText(repair, entry.name, DecodeUtf8(ReadEntry(inflate, file, entry).value), removed)
                == before + Attribute(name, w1, w2, q, v) + after
    requires '=' !in before && StartsWord(before, |before|) && IsAttribute(name, w1, w2, q, v)
    ensures Stripped(inflate, repair, file).Err?
    ensures ClassificationOf(inflate, Some(file)).kind == SlicerProject
            && (forall e :: e in T.EntriesIn(file) && IsReferencingPart(e.name) ==> ReadEntry(inflate, file, e).Ok?) ==>
              Stripped(inflate, repair, file) == Err(ConfigurationLeftBehind)
  {
    hide R.Directory, ReadEntry, DecodeUtf8, ClassificationOf, IsReferencingPart, Dangles, PointsInto, StripSet, Attribute, ShippedText;
    var removed := StripSet(ClassificationOf(inflate, Some(file)), T.EntriesIn(file));
    DanglingIsSeen(entry.name, before, name, w1, w2, q, v, after, removed);
    SomethingIsRemoved(entry.name, v, removed);
    if Repairs(inflate, repair, file, T.EntriesIn(file), removed, map[]).Err? {
      RepairsFailForAPart(inflate, repair, file, T.EntriesIn(file), removed, map[]);
    } else {
      EachIsRepaired(inflate, repair, file, T.EntriesIn(file), removed, map[]);
    }
    if ClassificationOf(inflate, Some(file)).kind == SlicerProject {
      ProjectHasEntries(inflate, file);
    }
  }

  lemma SomethingIsRemoved(part: string, v: string, removed: set<string>)
    requires PointsInto(part, v, removed)
    ensures removed != {}
  {
    hide Resolve;
  }

  // ---- What each flavour loses ----------------------------------------------------------------

  lemma NamesOfOutput(inflate: Inflater, repair: Repair, file: seq<byte>, name: string)
    requires Stripped(inflate, repair, file).Ok? && Stripped(inflate, repair, file).value.1.stripped && NoMarkedNames(file)
    ensures HasEntry(Stripped(inflate, repair, file).value.0, name)
            <==> HasEntry(file, name) && !InStripSet(ClassificationOf(inflate, Some(file)), name)
  {
    hide R.Directory, W.Rewritten, Stripped, Repairs, T.Kept, T.ReadsAs, T.LiesAt, W.Representable, W.Replacement, W.Fields, InStripSet,
      ClassificationOf;
    var out, request := Stripped(inflate, repair, file).value.0, RequestOf(inflate, repair, file);
    var kept, read := T.Kept(file, request), T.EntriesIn(out);
    StripRewrites(inflate, repair, file);
    T.RewriteRoundTrip(file, request);
    KeptAreOthers(file, request);
    StripSetMembers(ClassificationOf(inflate, Some(file)), T.EntriesIn(file));
    forall k | 0 <= k < |kept| ensures read[k].name == kept[k].name {
      assert kept[k] in kept;
      NameIsKept(read[k], kept[k], request);
    }
    if HasEntry(out, name) {
      var k :| 0 <= k < |read| && read[k].name == name;
      assert kept[k] in kept;
      var i :| 0 <= i < |T.EntriesIn(file)| && T.EntriesIn(file)[i] == kept[k];
    }
    if HasEntry(file, name) && !InStripSet(ClassificationOf(inflate, Some(file)), name) {
      var i :| 0 <= i < |T.EntriesIn(file)| && T.EntriesIn(file)[i].name == name;
      assert T.EntriesIn(file)[i] in kept;
      var k :| 0 <= k < |kept| && kept[k] == T.EntriesIn(file)[i];
      assert read[k].name == name;
    }
  }

  /** A strip takes exactly its flavour's entries out, by name, and leaves every other name in. */
  lemma WhatEachFlavourLoses(inflate: Inflater, repair: Repair, file: seq<byte>, name: string)
    requires Stripped(inflate, repair, file).Ok? && Stripped(inflate, repair, file).value.1.stripped && NoMarkedNames(file)
    ensures var out, slicer := Stripped(inflate, repair, file).value.0, ClassificationOf(inflate, Some(file)).slicer;
            && (slicer == Some(Cura) ==> (HasEntry(out, name) <==> HasEntry(file, name) && !("Cura/" <= name)))
            && (slicer == Some(Prusaslicer) ==>
                  (HasEntry(out, name)
                   <==> HasEntry(file, name) && name !in {"Metadata/Slic3r_PE.config", "Metadata/Slic3r_PE_model.config"}))
            && (slicer !in {Some(Cura), Some(Prusaslicer)} ==>
                  (HasEntry(out, name)
                   <==> HasEntry(file, name)
                        && name !in {"Metadata/slice_info.config", "Metadata/project_settings.config", "Metadata/model_settings.config",
                                     "Metadata/custom_gcode_per_layer.xml", "Metadata/cut_information.xml"}))
  {
    hide Stripped, HasEntry, ClassificationOf, NoMarkedNames;
    var c := ClassificationOf(inflate, Some(file));
    NamesOfOutput(inflate, repair, file, name);
    ProjectsAreStripped(inflate, repair, file);
    SetByName(c, name);
  }

  lemma SetByName(c: Classification, name: string)
    requires c.kind == SlicerProject
    ensures c.slicer == Some(Cura) ==> (InStripSet(c, name) <==> "Cura/" <= name)
    ensures c.slicer == Some(Prusaslicer) ==>
              (InStripSet(c, name) <==> name in {"Metadata/Slic3r_PE.config", "Metadata/Slic3r_PE_model.config"})
    ensures c.slicer !in {Some(Cura), Some(Prusaslicer)} ==>
              (InStripSet(c, name)
               <==> name in {"Metadata/slice_info.config", "Metadata/project_settings.config", "Metadata/model_settings.config",
                             "Metadata/custom_gcode_per_layer.xml", "Metadata/cut_information.xml"})
  {
  }

  // ---- What a strip reports -------------------------------------------------------------------

  /**
   The result says what the input was, and names what was taken out and which of the parts that stay
   were rewritten, in file order.
   */
  lemma ReportIsTrue(inflate: Inflater, repair: Repair, file: seq<byte>)
    requires Stripped(inflate, repair, file).Ok?
    ensures var report, c := Stripped(inflate, repair, file).value.1, ClassificationOf(inflate, Some(file));
            var ordered := W.InFileOrder(T.EntriesIn(file));
            && report.classification == c
            && (!report.stripped ==> report.removed == [] && report.rewritten == [] && Stripped(inflate, repair, file).value.0 == file)
            && (report.stripped ==>
                  && report.removed == W.Names(Sorting.Filter((e: ZipEntry) => InStripSet(c, e.name), ordered))
                  && report.rewritten
                     == W.Names(Sorting.Filter(
                          (e: ZipEntry) => e.name in RequestOf(inflate, repair, file).replace,
                          T.Kept(file, RequestOf(inflate, repair, file)))))
  {
    hide R.Directory, W.Rewritten, W.InFileOrder, W.Summarize, Repairs, ClassificationOf, InStripSet, StripSet;
    var report, c := Stripped(inflate, repair, file).value.1, ClassificationOf(inflate, Some(file));
    if report.stripped {
      var request := RequestOf(inflate, repair, file);
      var ordered := W.InFileOrder(T.EntriesIn(file));
      assert report.removed == W.Summarize(ordered, request).dropped && report.rewritten == W.Summarize(ordered, request).replaced;
      O.SummaryIsTrue(file, request);
      StripSetMembers(c, T.EntriesIn(file));
      O.SameEntries(T.EntriesIn(file));
      SameFilter((e: ZipEntry) => e.name in request.drop, (e: ZipEntry) => InStripSet(c, e.name), ordered);
    }
  }

  lemma {:induction false} SameFilter(p: ZipEntry -> bool, q: ZipEntry -> bool, entries: seq<ZipEntry>)
    requires forall entry :: entry in entries ==> p(entry) == q(entry)
    ensures Sorting.Filter(p, entries) == Sorting.Filter(q, entries)
  {
    if entries != [] {
      assert entries[0] in entries;
      assert forall entry :: entry in entries[1..] ==> entry in entries;
      SameFilter(p, q, entries[1..]);
    }
  }

  /**
   An encrypted part is the reason given exactly where the rewrite met one it would have to keep; nothing
   encrypted is ever in a stripped file, and without one the reason is never given.
   */
  lemma EncryptedIsTold(inflate: Inflater, repair: Repair, file: seq<byte>)
    ensures Stripped(inflate, repair, file) == Err(Encrypted) ==>
              exists entry :: entry in T.EntriesIn(file) && entry.flags % 2 == 1
                && !InStripSet(ClassificationOf(inflate, Some(file)), entry.name)
    ensures Stripped(inflate, repair, file).Ok? && Stripped(inflate, repair, file).value.1.stripped ==>
              forall entry :: entry in T.EntriesIn(file) && !InStripSet(ClassificationOf(inflate, Some(file)), entry.name) ==>
                entry.flags % 2 == 0
    ensures var c := ClassificationOf(inflate, Some(file));
            var removed := StripSet(c, T.EntriesIn(file));
            var replace := Repairs(inflate, repair, file, T.EntriesIn(file), removed, map[]);
            c.kind == SlicerProject && replace.Ok? && W.Rewritten(file, W.Request(removed, replace.value)).Err? ==>
              Stripped(inflate, repair, file)
              == Err(if W.Rewritten(file, W.Request(removed, replace.value)).error == W.Encrypted then Encrypted else Unreadable)
  {
    hide R.Directory, W.Rewritten, W.Summarize, Repairs, ClassificationOf, InStripSet, T.Kept;
    var c, entries := ClassificationOf(inflate, Some(file)), T.EntriesIn(file);
    var removed := StripSet(c, entries);
    var replace := Repairs(inflate, repair, file, entries, removed, map[]);
    StripSetMembers(c, entries);
    RefusedBeforeAnyWork(inflate, repair, file);
    RepairsNeverSayEncrypted(inflate, repair, file, entries, removed, map[]);
    if c.kind == SlicerProject {
      ProjectHasEntries(inflate, file);
      if replace.Ok? {
        var request := W.Request(removed, replace.value);
        O.EncryptedAreRefused(file, request);
        KeptOnly(file, request);
        if W.Rewritten(file, request).Ok? {
          KeptAreOthers(file, request);
        }
      }
    } else if c.kind == Model {
      ModelStripsNothing(c);
      assert removed == {};
    }
  }

  lemma ProjectHasEntries(inflate: Inflater, file: seq<byte>)
    requires ClassificationOf(inflate, Some(file)).kind == SlicerProject
    ensures R.Directory(file).Ok? && StripSet(ClassificationOf(inflate, Some(file)), T.EntriesIn(file)) != {}
  {
    hide R.Directory, ClassifyEntries, InStripSet;
    if R.Directory(file).Ok? {
      StripSetMembers(ClassificationOf(inflate, Some(file)), T.EntriesIn(file));
      MarkWasStripped(inflate, file, T.EntriesIn(file));
    }
  }

  lemma KeptOnly(file: seq<byte>, request: W.Request)
    ensures forall entry :: entry in T.Kept(file, request) ==> entry in T.EntriesIn(file) && entry.name !in request.drop
  {
    hide R.Directory, W.InFileOrder;
    T.SurvivingAreEntries(W.InFileOrder(T.EntriesIn(file)), request.drop);
    O.SameEntries(T.EntriesIn(file));
  }

  lemma {:induction false} RepairsNeverSayEncrypted(
    inflate: Inflater, repair: Repair, file: seq<byte>, entries: seq<ZipEntry>, removed: set<string>, collected: map<string, seq<byte>>)
    ensures Repairs(inflate, repair, file, entries, removed, collected) != Err(Encrypted)
    decreases |entries|
  {
    hide ReadEntry, DecodeUtf8, EncodeAll, Dangles, IsReferencingPart;
    if entries != [] {
      var repaired := RepairOne(inflate, repair, file, entries[0], removed);
      if repaired.Ok? {
        var more := if repaired.value.Some? then collected[entries[0].name := EncodeAll(repaired.value.value)] else collected;
        RepairsNeverSayEncrypted(inflate, repair, file, entries[1..], removed, more);
      }
    }
  }
}
