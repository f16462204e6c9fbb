/** What a `.3mf` is, from its entry names and one part (files/classify.rs). */
module Classify {
  import opened Words
  import opened Wrappers
  import opened Utf8
  import opened Texts
  import opened ZipFormat
  import opened ZipReader
  import opened EntryReading

  datatype FileKind = Model | SlicerProject | Other
  datatype Slicer = Cura | Prusaslicer | Anycubic | Orca | Bambu
  datatype Classification = Classification(kind: FileKind, slicer: Option<Slicer>, unreadable: bool)

  const CURA_PREFIX := "Cura/"
  const SLIC3R_CONFIG := "Metadata/Slic3r_PE.config"
  const SLICE_INFO := "Metadata/slice_info.config"
  const PROJECT_SETTINGS := "Metadata/project_settings.config"

  // ---- The header items of slice_info.config --------------------------------------------------

  const TAG := "<header_item"
  const KEY := "key=\""

  /** What the code takes a JavaScript `\s` to match. */
  predicate IsJsSpace(c: char) {
    IsWhitespace(c) || c == BOM
  }

  /** What it matches: the WhiteSpace and LineTerminator productions of ECMA-262, sections 12.2 and 12.3. */
  predicate IsEcmaSpace(c: char) {
    || c == '\t' || c == '\U{000B}' || c == '\U{000C}' || c == BOM
    || IsSpaceSeparator(c)
    || c == '\n' || c == '\r' || c == '\U{2028}' || c == '\U{2029}'
  }

  /** Unicode's category Zs. */
  predicate IsSpaceSeparator(c: char) {
    || c == ' ' || c == '\U{00A0}' || c == '\U{1680}' || '\U{2000}' <= c <= '\U{200A}'
    || c == '\U{202F}' || c == '\U{205F}' || c == '\U{3000}'
  }

  const NEL: char := '\U{0085}'

  lemma OneSpaceTooMany(c: char)
    ensures IsJsSpace(c) <==> IsEcmaSpace(c) || c == NEL
  {
  }

  datatype Match = Match(text: string, end: nat)

  /** The pattern `<header_item\s+key="([^"]+)"`, anchored at `i`; `space` says what `\s` matches. */
  function KeyAt(space: char -> bool, xml: string, i: nat): (m: Option<Match>)
    ensures m.Some? ==> HoldsAt(xml, i, TAG) && i + |TAG| < m.value.end <= |xml|
  {
    if !HoldsAt(xml, i, TAG) then None
    else
      var past := SkipFrom(xml, i + |TAG|, space);
      if past == i + |TAG| || !HoldsAt(xml, past, KEY) then None
      else
        var start := past + |KEY|;
        var end := IndexFrom(xml, start, '"');
        if end == |xml| || end == start then None else Some(Match(xml[start..end], end + 1))
  }

  /** Every key, leftmost match first, matches not overlapping: the pattern tried at each position. */
  function Keys(space: char -> bool, xml: string, from: nat): seq<string>
    decreases |xml| - from
  {
    if from >= |xml| then []
    else
      var m := KeyAt(space, xml, from);
      if m.None? then Keys(space, xml, from + 1) else [m.value.text] + Keys(space, xml, m.value.end)
  }

  lemma {:induction false} KeysSkip(space: char -> bool, xml: string, from: nat, until: nat)
    requires from <= until <= |xml|
    requires forall i :: from <= i < until ==> !HoldsAt(xml, i, TAG)
    ensures Keys(space, xml, from) == Keys(space, xml, until)
    decreases until - from
  {
    if from < until {
      KeysSkip(space, xml, from + 1, until);
    }
  }

  /** No tag starts inside a tag. */
  lemma TagsDoNotOverlap(xml: string, at: nat)
    requires HoldsAt(xml, at, TAG)
    ensures forall i :: at < i < at + |TAG| ==> !HoldsAt(xml, i, TAG)
  {
    assert TAG[0] == '<' && forall j :: 0 < j < |TAG| ==> TAG[j] != '<';
    forall i | at < i < at + |TAG| ensures !HoldsAt(xml, i, TAG) {
      assert xml[at..at + |TAG|][i - at] == xml[i];
      assert i + |TAG| <= |xml| ==> xml[i..i + |TAG|][0] == xml[i];
    }
  }

  /** A tag that opens no key: the search goes on behind the tag. */
  lemma TagWithoutKey(space: char -> bool, xml: string, at: nat)
    requires HoldsAt(xml, at, TAG) && KeyAt(space, xml, at).None?
    ensures Keys(space, xml, at) == Keys(space, xml, at + |TAG|)
  {
    hide KeyAt;
    TagsDoNotOverlap(xml, at);
    KeysSkip(space, xml, at + 1, at + |TAG|);
  }

  /** The search the code makes: from one tag to the next. */
  method HeaderItemKeys(xml: string) returns (keys: seq<string>)
    ensures keys == Keys(IsJsSpace, xml, 0)
  {
    hide Keys;
    keys := [];
    var rest := 0;
    assert [] + Keys(IsJsSpace, xml, 0) == Keys(IsJsSpace, xml, 0);
    while true
      invariant rest <= |xml| && Keys(IsJsSpace, xml, 0) == keys + Keys(IsJsSpace, xml, rest)
      decreases |xml| - rest
    {
      var at := FindFrom(xml, rest, TAG);
      KeysSkip(IsJsSpace, xml, rest, at);
      if at == |xml| {
        KeysEnd(IsJsSpace, xml);
        assert keys + [] == keys;
        return;
      }
      rest := at + |TAG|;
      var afterSpace := SkipFrom(xml, rest, IsJsSpace);
      if afterSpace == rest {
        TagWithoutKey(IsJsSpace, xml, at);
        continue;
      }
      if !HoldsAt(xml, afterSpace, KEY) {
        TagWithoutKey(IsJsSpace, xml, at);
        continue;
      }
      var quoted := afterSpace + |KEY|;
      var end := IndexFrom(xml, quoted, '"');
      if end < |xml| && end > quoted {
        KeyFound(IsJsSpace, xml, at, quoted, end);
        assert keys + ([xml[quoted..end]] + Keys(IsJsSpace, xml, end + 1)) == keys + [xml[quoted..end]] + Keys(IsJsSpace, xml, end + 1);
        keys := keys + [xml[quoted..end]];
        rest := end + 1;
      } else {
        TagWithoutKey(IsJsSpace, xml, at);
      }
    }
  }

  lemma KeysEnd(space: char -> bool, xml: string)
    ensures Keys(space, xml, |xml|) == []
  {
  }

  lemma KeyFound(space: char -> bool, xml: string, at: nat, start: nat, end: nat)
    requires start <= end < |xml| && KeyAt(space, xml, at) == Some(Match(xml[start..end], end + 1))
    ensures Keys(space, xml, at) == [xml[start..end]] + Keys(space, xml, end + 1)
  {
    hide KeyAt;
  }

  // ---- The one space too many -----------------------------------------------------------------

  /**
   Where it matters: at a given place the two readings of `\s` differ exactly when the code finds a
   key there behind space that holds a U+0085.
   */
  lemma SpacesDifferHere(xml: string, i: nat)
    ensures KeyAt(IsEcmaSpace, xml, i)
            == if KeyAt(IsJsSpace, xml, i).Some?
                  && NEL in xml[i + |TAG|..SkipFrom(xml, i + |TAG|, IsJsSpace)] then None
               else KeyAt(IsJsSpace, xml, i)
  {
    hide IsJsSpace, IsEcmaSpace, HoldsAt;
    if HoldsAt(xml, i, TAG) {
      TagFits(xml, i);
      var from := i + |TAG|;
      var wide, narrow := SkipFrom(xml, from, IsJsSpace), SkipFrom(xml, from, IsEcmaSpace);
      assert narrow <= wide by { NarrowStopsFirst(xml, from); }
      if narrow < wide {
        OneSpaceTooMany(xml[narrow]);
        assert xml[from..wide][narrow - from] == NEL;
        NoKeyAtNel(xml, narrow);
      } else {
        forall k | 0 <= k < wide - from ensures xml[from..wide][k] != NEL {
          NelIsNoEcmaSpace(xml[from + k]);
        }
      }
    }
  }

  lemma TagFits(xml: string, i: nat)
    requires HoldsAt(xml, i, TAG)
    ensures i + |TAG| <= |xml|
  {
  }

  lemma NarrowStopsFirst(xml: string, from: nat)
    requires from <= |xml|
    ensures SkipFrom(xml, from, IsEcmaSpace) <= SkipFrom(xml, from, IsJsSpace)
  {
    hide IsJsSpace, IsEcmaSpace;
    var wide := SkipFrom(xml, from, IsJsSpace);
    if wide < |xml| {
      OneSpaceTooMany(xml[wide]);
    }
  }

  lemma NoKeyAtNel(xml: string, at: nat)
    requires at < |xml| && xml[at] == NEL
    ensures !HoldsAt(xml, at, KEY)
  {
    assert at + |KEY| <= |xml| ==> xml[at..at + |KEY|][0] == xml[at];
  }

  lemma NelIsNoEcmaSpace(c: char)
    ensures IsEcmaSpace(c) ==> c != NEL
  {
  }

  /** A header whose key stands behind a U+0085: the code finds the key, the pattern it stands for does not. */
  lemma NelIsTakenForSpace(key: string)
    requires key != "" && '"' !in key && '<' !in key
    ensures var xml := TAG + [NEL] + KEY + key + "\"";
            Keys(IsJsSpace, xml, 0) == [key] && Keys(IsEcmaSpace, xml, 0) == []
  {
    hide IsJsSpace, IsEcmaSpace;
    var xml := TAG + [NEL] + KEY + key + "\"";
    var start, end := |TAG| + 1 + |KEY|, |TAG| + 1 + |KEY| + |key|;
    assert xml[0..0 + |TAG|] == TAG && xml[|TAG|] == NEL && xml[|TAG| + 1..|TAG| + 1 + |KEY|] == KEY;
    assert xml[|TAG| + 1] == KEY[0];
    OneSpaceTooMany(NEL);
    OneSpaceTooMany(KEY[0]);
    KeyLetterIsNoSpace();
    assert SkipFrom(xml, |TAG|, IsJsSpace) == |TAG| + 1;
    forall k | start <= k < end ensures xml[k] != '"' {
      assert xml[k] == key[k - start];
    }
    assert xml[end] == '"' && IndexFrom(xml, start, '"') == end && xml[start..end] == key;
    KeyFound(IsJsSpace, xml, 0, start, end);
    KeysEnd(IsJsSpace, xml);
    assert [key] + [] == [key];
    assert xml[|TAG|..|TAG| + 1][0] == NEL;
    SpacesDifferHere(xml, 0);
    NoOtherTag(xml, key);
    KeysSkip(IsEcmaSpace, xml, 1, |xml|);
    KeysEnd(IsEcmaSpace, xml);
  }

  lemma KeyLetterIsNoSpace()
    ensures !IsJsSpace(KEY[0])
  {
  }

  lemma NoOtherTag(xml: string, key: string)
    requires '<' !in key && xml == TAG + [NEL] + KEY + key + "\""
    ensures forall i :: 1 <= i < |xml| ==> !HoldsAt(xml, i, TAG)
  {
    var rest := [NEL] + KEY + key + "\"";
    forall i | 1 <= i < |xml| ensures !HoldsAt(xml, i, TAG) {
      assert i + |TAG| <= |xml| ==> xml[i..i + |TAG|][0] == xml[i];
      assert i < |TAG| ==> xml[i] == TAG[i];
      assert i >= |TAG| ==> xml[i] == rest[i - |TAG|];
    }
  }

  /** Most specific first: a derivative keeps the keys of what it derives from. */
  function SlicerFromKeys(keys: seq<string>): Option<Slicer> {
    if "X-ACNext-Client-Type" in keys then Some(Anycubic)
    else if "OrcaSlicer-Version" in keys then Some(Orca)
    else if "X-BBL-Client-Type" in keys then Some(Bambu)
    else None
  }

  // ---- The decision ---------------------------------------------------------------------------

  /** The index of the first entry of that name; the number of entries where there is none. */
  function FindZipEntry(entries: seq<ZipEntry>, name: string): (k: nat)
    ensures k <= |entries| && (k < |entries| ==> entries[k].name == name)
    ensures forall i :: 0 <= i < k ==> entries[i].name != name
  {
    if entries == [] || entries[0].name == name then 0 else 1 + FindZipEntry(entries[1..], name)
  }

  predicate HasName(entries: seq<ZipEntry>, name: string) {
    FindZipEntry(entries, name) < |entries|
  }

  predicate HasCura(entries: seq<ZipEntry>) {
    exists i :: 0 <= i < |entries| && CURA_PREFIX <= entries[i].name
  }

  function SlicerOf(inflate: Inflater, file: seq<byte>, info: ZipEntry): Option<Slicer> {
    var xml := ReadEntry(inflate, file, info);
    if xml.Err? then None else SlicerFromKeys(Keys(IsJsSpace, DecodeUtf8(xml.value), 0))
  }

  function ClassifyEntries(inflate: Inflater, file: seq<byte>, entries: seq<ZipEntry>): Classification {
    if HasCura(entries) then Classification(SlicerProject, Some(Cura), false)
    else if HasName(entries, SLIC3R_CONFIG) then Classification(SlicerProject, Some(Prusaslicer), false)
    else if HasName(entries, SLICE_INFO) then
      Classification(SlicerProject, SlicerOf(inflate, file, entries[FindZipEntry(entries, SLICE_INFO)]), false)
    else if HasName(entries, PROJECT_SETTINGS) then Classification(SlicerProject, None, false)
    else Classification(Model, None, false)
  }

  /** A file that is not an archive is `other`; one that is not there is `other` for now. */
  function ClassificationOf(inflate: Inflater, file: Option<seq<byte>>): Classification {
    if file.None? then Classification(Other, None, true)
    else
      match Directory(file.value)
      case Err(_) => Classification(Other, None, false)
      case Ok(entries) => ClassifyEntries(inflate, file.value, entries)
  }

  /** An entry name that by itself makes a file a slicer project. */
  predicate MarksProject(name: string) {
    CURA_PREFIX <= name || name == SLIC3R_CONFIG || name == SLICE_INFO || name == PROJECT_SETTINGS
  }

  /** The four rules amount to one question about names. */
  lemma ModelMeansNoMark(inflate: Inflater, file: seq<byte>)
    requires Directory(file).Ok?
    ensures ClassificationOf(inflate, Some(file)).kind
            == if exists entry :: entry in Directory(file).value && MarksProject(entry.name) then SlicerProject else Model
  {
    hide Directory;
    var entries := Directory(file).value;
    if exists entry :: entry in entries && MarksProject(entry.name) {
      var entry :| entry in entries && MarksProject(entry.name);
      var i :| 0 <= i < |entries| && entries[i] == entry;
    } else {
      assert forall i :: 0 <= i < |entries| ==> entries[i] in entries;
    }
  }

  /** The classifier as the code runs it, with its one look inside the archive. */
  method Classify3mf(inflate: Inflater, file: Option<seq<byte>>) returns (c: Classification)
    requires file.Some? ==> |file.value| < FILE_LIMIT
    ensures c == ClassificationOf(inflate, file)
  {
    hide Directory, ReadEntry, Keys, DecodeUtf8;
    if file.None? {
      return Classification(Other, None, true);
    }
    var read := ReadEntries(file.value);
    if read.Err? {
      return Classification(Other, None, false);
    }
    var entries := read.value;
    if HasCura(entries) {
      return Classification(SlicerProject, Some(Cura), false);
    }
    if HasName(entries, SLIC3R_CONFIG) {
      return Classification(SlicerProject, Some(Prusaslicer), false);
    }
    if HasName(entries, SLICE_INFO) {
      var slicer: Option<Slicer> := None;
      var xml := ReadEntry(inflate, file.value, entries[FindZipEntry(entries, SLICE_INFO)]);
      if xml.Ok? {
        var keys := HeaderItemKeys(DecodeUtf8(xml.value));
        slicer := SlicerFromKeys(keys);
      }
      return Classification(SlicerProject, slicer, false);
    }
    if HasName(entries, PROJECT_SETTINGS) {
      return Classification(SlicerProject, None, false);
    }
    return Classification(Model, None, false);
  }

  // ---- From the text of slice_info.config to the slicer ---------------------------------------

  datatype HeaderItem = HeaderItem(key: string, value: string)

  /** A header item as the slicers write it. */
  function ItemText(item: HeaderItem): string {
    "<header_item" + " key=\"" + item.key + "\"" + (" value=\"" + item.value + "\"/>")
  }

  function HeaderText(items: seq<HeaderItem>): string {
    if items == [] then "" else ItemText(items[0]) + HeaderText(items[1..])
  }

  function KeysOf(items: seq<HeaderItem>): seq<string> {
    if items == [] then [] else [items[0].key] + KeysOf(items[1..])
  }

  predicate IsItem(item: HeaderItem) {
    item.key != "" && '"' !in item.key && '<' !in item.value
  }

  lemma KeyIsMatched(xml: string, at: nat, key: string)
    requires key != "" && '"' !in key && at + 19 + |key| <= |xml|
    requires HoldsAt(xml, at, TAG) && xml[at + 12] == ' ' && HoldsAt(xml, at + 13, KEY)
    requires xml[at + 18..at + 18 + |key|] == key && xml[at + 18 + |key|] == '"'
    ensures KeyAt(IsJsSpace, xml, at) == Some(Match(key, at + 19 + |key|))
  {
    hide IsJsSpace;
    assert xml[at + 13] == xml[at + 13..at + 18][0] == KEY[0];
    KeyLetterIsNoSpace();
    SpaceIsSpace();
    assert SkipFrom(xml, at + 12, IsJsSpace) == at + 13;
    forall k | at + 18 <= k < at + 18 + |key| ensures xml[k] != '"' {
      assert xml[k] == key[k - at - 18];
    }
    assert IndexFrom(xml, at + 18, '"') == at + 18 + |key|;
  }

  lemma ItemIsKey(before: string, item: HeaderItem, after: string)
    requires IsItem(item)
    ensures var xml := before + ItemText(item) + after;
            KeyAt(IsJsSpace, xml, |before|) == Some(Match(item.key, |before| + 19 + |item.key|))
  {
    hide KeyAt;
    var xml, at := before + ItemText(item) + after, |before|;
    var tail := "\"" + (" value=\"" + item.value + "\"/>") + after;
    assert ItemText(item) + after == TAG + (" " + (KEY + (item.key + tail)));
    assert xml == before + (TAG + (" " + (KEY + (item.key + tail))));
    KeyIsMatched(xml, at, item.key);
  }

  lemma SpaceIsSpace()
    ensures IsJsSpace(' ')
  {
  }

  lemma NoTagInValue(before: string, item: HeaderItem, after: string)
    requires IsItem(item)
    ensures var xml, from, until := before + ItemText(item) + after, |before| + 19 + |item.key|, |before| + |ItemText(item)|;
            from <= until <= |xml| && forall i :: from <= i < until ==> !HoldsAt(xml, i, TAG)
  {
    var xml, from := before + ItemText(item) + after, |before| + 19 + |item.key|;
    var rest := " value=\"" + item.value + "\"/>";
    assert xml[from..from + |rest|] == rest;
    forall i | from <= i < from + |rest| ensures !HoldsAt(xml, i, TAG) {
      assert rest[i - from] != '<';
      assert xml[i] == rest[i - from];
      assert i + |TAG| <= |xml| ==> xml[i..i + |TAG|][0] == xml[i];
    }
  }

  /** The keys of a header as it is written are the keys of its items, in order. */
  lemma {:induction false} HeaderKeysAreRead(before: string, items: seq<HeaderItem>)
    requires forall i :: 0 <= i < |items| ==> IsItem(items[i])
    ensures Keys(IsJsSpace, before + HeaderText(items), |before|) == KeysOf(items)
    decreases |items|
  {
    hide KeyAt, ItemText, HoldsAt, IsItem;
    var xml := before + HeaderText(items);
    if items == [] {
      KeysEnd(IsJsSpace, xml);
    } else {
      var item, after := items[0], HeaderText(items[1..]);
      assert xml == before + ItemText(item) + after;
      ItemIsKey(before, item, after);
      NoTagInValue(before, item, after);
      var end := |before| + 19 + |item.key|;
      assert Keys(IsJsSpace, xml, |before|) == [item.key] + Keys(IsJsSpace, xml, end);
      KeysSkip(IsJsSpace, xml, end, |before| + |ItemText(item)|);
      HeaderKeysAreRead(before + ItemText(item), items[1..]);
    }
  }

  /** No key without white space in front of it, without anything in its quotes, or without an end to them. */
  lemma NotKeys(before: string, rest: string)
    ensures KeyAt(IsJsSpace, before + ("<header_item" + ("key=\"" + rest)), |before|) == None
    ensures KeyAt(IsJsSpace, before + ("<header_item" + (" key=\"\"" + rest)), |before|) == None
    ensures '"' !in rest ==> KeyAt(IsJsSpace, before + ("<header_item" + (" key=\"" + rest)), |before|) == None
  {
    hide IsJsSpace;
    KeyLetterIsNoSpace();
    SpaceIsSpace();
    var tight := before + (TAG + (KEY + rest));
    assert tight[|before| + 12] == KEY[0];
    assert SkipFrom(tight, |before| + 12, IsJsSpace) == |before| + 12;
    KeyStartsAt(before, "\"" + rest);
    assert " key=\"\"" + rest == " " + (KEY + ("\"" + rest));
    KeyStartsAt(before, rest);
    assert " key=\"" + rest == " " + (KEY + rest);
    var open := before + (TAG + (" " + (KEY + rest)));
    if '"' !in rest {
      forall k | |before| + 18 <= k < |open| ensures open[k] != '"' {
        assert open[k] == rest[k - |before| - 18];
      }
    }
  }

  lemma KeyStartsAt(before: string, rest: string)
    ensures var xml, at := before + (TAG + (" " + (KEY + rest))), |before|;
            && SkipFrom(xml, at + 12, IsJsSpace) == at + 13 && HoldsAt(xml, at + 13, KEY)
            && (rest != "" ==> xml[at + 18] == rest[0]) && |xml| == at + 18 + |rest|
  {
    hide IsJsSpace;
    var xml, at := before + (TAG + (" " + (KEY + rest))), |before|;
    KeyLetterIsNoSpace();
    SpaceIsSpace();
    assert xml[at + 12] == ' ' && xml[at + 13] == KEY[0];
    assert xml[at + 13..at + 18] == KEY;
  }

  /** The slicer a header names is the one its items' keys name, whatever else they hold. */
  lemma SlicerIsRead(inflate: Inflater, file: seq<byte>, info: ZipEntry, items: seq<HeaderItem>)
    requires forall i :: 0 <= i < |items| ==> IsItem(items[i])
    requires ReadEntry(inflate, file, info) == Ok(EncodeAll(HeaderText(items)))
    ensures SlicerOf(inflate, file, info) == SlicerFromKeys(KeysOf(items))
  {
    hide ReadEntry, EncodeAll, DecodeUtf8, Keys, KeysOf, HeaderText, SlicerFromKeys, IsItem, IsJsSpace;
    HeaderDecodes(items);
    HeaderReads(items);
  }

  lemma HeaderReads(items: seq<HeaderItem>)
    requires forall i :: 0 <= i < |items| ==> IsItem(items[i])
    ensures Keys(IsJsSpace, HeaderText(items), 0) == KeysOf(items)
  {
    hide Keys, KeysOf, HeaderText, IsItem, IsJsSpace;
    HeaderKeysAreRead("", items);
    assert "" + HeaderText(items) == HeaderText(items);
  }

  lemma HeaderDecodes(items: seq<HeaderItem>)
    ensures DecodeUtf8(EncodeAll(HeaderText(items))) == HeaderText(items)
  {
    hide EncodeAll, DecodeUtf8, HeaderText;
    HeaderStarts(items);
    DecodeOfEncode(HeaderText(items));
  }

  lemma HeaderStarts(items: seq<HeaderItem>)
    ensures HeaderText(items) != "" ==> HeaderText(items)[0] == '<'
  {
  }

  /**
   Each derivative writes the keys of what it derives from besides its own, so the latest in the
   line whose key is there is the one that wrote the file, in whatever order the keys stand.
   */
  lemma DerivativesAreToldApart(keys: seq<string>)
    ensures "X-ACNext-Client-Type" in keys ==> SlicerFromKeys(keys) == Some(Anycubic)
    ensures SlicerFromKeys(keys) == Some(Orca) <==> "OrcaSlicer-Version" in keys && "X-ACNext-Client-Type" !in keys
    ensures SlicerFromKeys(keys) == Some(Bambu)
            <==> "X-BBL-Client-Type" in keys && "OrcaSlicer-Version" !in keys && "X-ACNext-Client-Type" !in keys
    ensures SlicerFromKeys(keys) !in {Some(Cura), Some(Prusaslicer)}
  {
  }

  /** Some entry has that name. */
  ghost predicate HasEntry(file: seq<byte>, name: string) {
    Directory(file).Ok? && exists i :: 0 <= i < |Directory(file).value| && Directory(file).value[i].name == name
  }

  ghost predicate HasCuraEntry(file: seq<byte>) {
    Directory(file).Ok? && exists i :: 0 <= i < |Directory(file).value| && "Cura/" <= Directory(file).value[i].name
  }

  /** Which names decide, the earlier before the later; what does not parse is none of them. */
  lemma WhoWroteIt(inflate: Inflater, file: seq<byte>)
    ensures ClassificationOf(inflate, None) == Classification(Other, None, true)
    ensures var c := ClassificationOf(inflate, Some(file));
            && (Directory(file).Err? <==> c == Classification(Other, None, false))
            && (HasCuraEntry(file) <==> c == Classification(SlicerProject, Some(Cura), false))
            && (!HasCuraEntry(file) && HasEntry(file, "Metadata/Slic3r_PE.config")
                <==> c == Classification(SlicerProject, Some(Prusaslicer), false))
            && (Directory(file).Ok? && !HasCuraEntry(file) && !HasEntry(file, "Metadata/Slic3r_PE.config")
                && !HasEntry(file, "Metadata/slice_info.config") && !HasEntry(file, "Metadata/project_settings.config")
                <==> c == Classification(Model, None, false))
  {
    hide Directory, SlicerFromKeys, Keys, ReadEntry, DecodeUtf8;
    if Directory(file).Ok? {
      var entries := Directory(file).value;
      if HasName(entries, SLICE_INFO) {
        NeitherOfTheTwo(inflate, file, entries[FindZipEntry(entries, SLICE_INFO)]);
      }
      assert HasName(entries, SLIC3R_CONFIG) <==> HasEntry(file, "Metadata/Slic3r_PE.config") by { NameIsHeld(file, SLIC3R_CONFIG); }
      assert HasName(entries, SLICE_INFO) <==> HasEntry(file, "Metadata/slice_info.config") by { NameIsHeld(file, SLICE_INFO); }
      assert HasName(entries, PROJECT_SETTINGS) <==> HasEntry(file, "Metadata/project_settings.config") by {
        NameIsHeld(file, PROJECT_SETTINGS);
      }
    }
  }

  lemma NameIsHeld(file: seq<byte>, name: string)
    requires Directory(file).Ok?
    ensures HasName(Directory(file).value, name) <==> HasEntry(file, name)
  {
    hide Directory;
  }

  lemma NeitherOfTheTwo(inflate: Inflater, file: seq<byte>, info: ZipEntry)
    ensures SlicerOf(inflate, file, info) !in {Some(Cura), Some(Prusaslicer)}
  {
    hide Keys, ReadEntry, DecodeUtf8;
  }
}
