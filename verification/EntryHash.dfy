/** "Did this file come back changed?": the hash over decompressed entries (files/entry_hash.rs). */
module NameOrder {
  import Sorting

  /** The UTF-16 code units of a character. */
  function CharUnits(c: char): (u: seq<int>)
    ensures 1 <= |u| <= 2
  {
    var v := c as int;
    if v < 0x1_0000 then [v] else [0xD800 + (v - 0x1_0000) / 0x400, 0xDC00 + (v - 0x1_0000) % 0x400]
  }

  function Units(text: string): seq<int> {
    if text == "" then [] else CharUnits(text[0]) + Units(text[1..])
  }

  lemma CharUnitsInjective(c: char, d: char, rest: seq<int>, more: seq<int>)
    requires CharUnits(c) + rest == CharUnits(d) + more
    ensures c == d && rest == more
  {
    var s, t := CharUnits(c) + rest, CharUnits(d) + more;
    assert s[0] == CharUnits(c)[0] && t[0] == CharUnits(d)[0];
    assert |CharUnits(c)| == |CharUnits(d)|;
    assert s[..|CharUnits(c)|] == CharUnits(c) && t[..|CharUnits(d)|] == CharUnits(d);
    assert s[|CharUnits(c)|..] == rest && t[|CharUnits(d)|..] == more;
    var v, w := c as int - 0x1_0000, d as int - 0x1_0000;
    if |CharUnits(c)| == 2 {
      assert CharUnits(c)[1] == CharUnits(d)[1];
      assert v / 0x400 == w / 0x400 && v % 0x400 == w % 0x400;
    }
  }

  lemma {:induction false} UnitsInjective(a: string, b: string)
    requires Units(a) == Units(b)
    ensures a == b
  {
    hide CharUnits;
    UnitsEmpty(a);
    UnitsEmpty(b);
    if a != "" && b != "" {
      CharUnitsInjective(a[0], b[0], Units(a[1..]), Units(b[1..]));
      UnitsInjective(a[1..], b[1..]);
    }
  }

  lemma UnitsEmpty(text: string)
    ensures Units(text) == [] <==> text == ""
  {
    hide CharUnits;
    assert text != "" ==> |Units(text)| >= |CharUnits(text[0])|;
  }

  /** One unit for a character of the basic plane, a high and a low surrogate for any other (RFC 2781 section 2.1). */
  lemma UnitsAreUtf16(c: char)
    ensures var v, u := c as int, CharUnits(c);
            if v <= 0xffff then u == [v]
            else |u| == 2 && 0xD800 <= u[0] <= 0xDBFF && 0xDC00 <= u[1] <= 0xDFFF
                 && v == 0x1_0000 + (u[0] - 0xD800) * 1024 + (u[1] - 0xDC00)
  {
  }

  predicate LexLe(a: seq<int>, b: seq<int>) {
    a == [] || (b != [] && (a[0] < b[0] || (a[0] == b[0] && LexLe(a[1..], b[1..]))))
  }

  lemma {:induction false} LexTotal(a: seq<int>, b: seq<int>)
    ensures LexLe(a, b) || LexLe(b, a)
    ensures LexLe(a, b) && LexLe(b, a) ==> a == b
  {
    if a != [] && b != [] && a[0] == b[0] {
      LexTotal(a[1..], b[1..]);
      assert a == [a[0]] + a[1..] && b == [b[0]] + b[1..];
    }
  }

  lemma {:induction false} LexTransitive(a: seq<int>, b: seq<int>, c: seq<int>)
    requires LexLe(a, b) && LexLe(b, c)
    ensures LexLe(a, c)
  {
    if a != [] && b != [] && c != [] && a[0] == b[0] == c[0] {
      LexTransitive(a[1..], b[1..], c[1..]);
    }
  }

  /** The first unit that differs decides; a prefix comes first. */
  lemma {:induction false} FirstDifferenceDecides(a: seq<int>, b: seq<int>)
    ensures LexLe(a, b) <==> a <= b || exists k :: 0 <= k < |a| && k < |b| && a[..k] == b[..k] && a[k] < b[k]
  {
    if a != [] && b != [] && a[0] == b[0] {
      FirstDifferenceDecides(a[1..], b[1..]);
      assert a == [a[0]] + a[1..] && b == [b[0]] + b[1..];
      if k :| 0 <= k < |a| && k < |b| && a[..k] == b[..k] && a[k] < b[k] {
        assert a[1..][..k - 1] == a[..k][1..] == b[..k][1..] == b[1..][..k - 1];
        assert a[1..][k - 1] == a[k] && b[1..][k - 1] == b[k];
      }
      if k :| 0 <= k < |a[1..]| && k < |b[1..]| && a[1..][..k] == b[1..][..k] && a[1..][k] < b[1..][k] {
        assert a[..k + 1] == [a[0]] + a[1..][..k] && b[..k + 1] == [b[0]] + b[1..][..k];
        assert a[k + 1] < b[k + 1];
      }
    } else if a != [] && b != [] && a[0] < b[0] {
      assert a[..0] == b[..0] && a[0] < b[0];
    }
  }

  /** The order a JavaScript string comparison gives: by UTF-16 code unit. */
  predicate NameLe(a: string, b: string) {
    LexLe(Units(a), Units(b))
  }

  lemma NameOrderIsTotal()
    ensures Sorting.TotalPreorder(NameLe)
    ensures forall a, b :: NameLe(a, b) && NameLe(b, a) ==> a == b
  {
    hide LexLe, Units;
    forall a, b ensures NameLe(a, b) || NameLe(b, a) {
      LexTotal(Units(a), Units(b));
    }
    forall a, b, c | NameLe(a, b) && NameLe(b, c) ensures NameLe(a, c) {
      LexTransitive(Units(a), Units(b), Units(c));
    }
    forall a, b | NameLe(a, b) && NameLe(b, a) ensures a == b {
      LexTotal(Units(a), Units(b));
      UnitsInjective(a, b);
    }
  }
}

module EntryHash {
  import opened Words
  import opened Wrappers
  import opened Utf8
  import opened Texts
  import opened ZipFormat
  import opened ZipReader
  import opened EntryReading
  import opened NameOrder
  import Sorting
  import ZipWriter
  import ZipRoundTrip

  const SLIC3R_CONFIG := "Metadata/Slic3r_PE.config"
  const READ_CHUNK_BYTES := 0x10_0000
  const WORD_LIMIT := 0x1_0000_0000_0000_0000

  // ---- The one excluded line ------------------------------------------------------------------

  predicate InLine(c: char) {
    c != '\n' && c != '\r' && c != '\U{2028}' && c != '\U{2029}'
  }

  const GENERATED := "; generated by "
  const AT := " at "
  const UTC := "UTC"

  /** `; generated by <anything> at <anything>UTC`, on one line. */
  predicate IsGeneratedOn(line: string) {
    && |GENERATED| + |AT| + |UTC| <= |line|
    && line[..|GENERATED|] == GENERATED && line[|line| - |UTC|..] == UTC
    && (forall i :: 0 <= i < |line| ==> InLine(line[i]))
    && exists i :: |GENERATED| <= i <= |line| - |UTC| - |AT| && HoldsAt(line, i, AT)
  }

  function FirstNewlineByte(bytes: seq<byte>): (k: nat)
    ensures k <= |bytes| && forall i :: 0 <= i < k ==> bytes[i] != 0x0A
    ensures k < |bytes| ==> bytes[k] == 0x0A
  {
    if bytes == [] || bytes[0] == 0x0A then 0 else 1 + FirstNewlineByte(bytes[1..])
  }

  function WithoutReturn(line: string): string {
    if line != "" && line[|line| - 1] == '\r' then line[..|line| - 1] else line
  }

  /** The bytes of an entry as they count: everything but the configuration's generated-on line. */
  function HashableBytes(name: string, bytes: seq<byte>): (counted: seq<byte>)
    ensures |counted| <= |bytes| && counted == bytes[|bytes| - |counted|..]
    ensures name != SLIC3R_CONFIG ==> counted == bytes
  {
    if name != SLIC3R_CONFIG then bytes
    else
      var at := FirstNewlineByte(bytes);
      if !IsGeneratedOn(WithoutReturn(DecodeUtf8(bytes[..at]))) then bytes
      else if at < |bytes| then bytes[at + 1..]
      else []
  }

  lemma NewlineByteAt(line: seq<byte>, rest: seq<byte>)
    requires 0x0A !in line
    ensures FirstNewlineByte(line + [0x0A] + rest) == |line| && FirstNewlineByte(line) == |line|
  {
    hide FirstNewlineByte;
    var s := line + [0x0A] + rest;
    assert forall i :: 0 <= i < |line| ==> s[i] == line[i] && line[i] in line;
    assert s[|line|] == 0x0A;
    assert FirstNewlineByte(s) == |line|;
  }

  /**
   Two saves that differ only in the stamped line count the same; any other first line counts. A
   configuration that is one line and no newline counts for nothing or whole.
   */
  lemma OnlyTheStampIsIgnored(line: seq<byte>, rest: seq<byte>)
    requires 0x0A !in line
    ensures HashableBytes(SLIC3R_CONFIG, line + [0x0A] + rest)
            == if IsGeneratedOn(WithoutReturn(DecodeUtf8(line))) then rest else line + [0x0A] + rest
    ensures HashableBytes(SLIC3R_CONFIG, line) == if IsGeneratedOn(WithoutReturn(DecodeUtf8(line))) then [] else line
  {
    hide FirstNewlineByte, IsGeneratedOn, DecodeUtf8;
    NewlineByteAt(line, rest);
    var s := line + [0x0A] + rest;
    assert s[..|line|] == line && s[|line| + 1..] == rest;
    assert line[..|line|] == line;
  }

  /** Text within one line. */
  ghost predicate IsUnbroken(text: string) {
    '\n' !in text && '\r' !in text && '\U{2028}' !in text && '\U{2029}' !in text
  }

  /** The line as PrusaSlicer stamps it, whatever its version and its date. */
  function Stamp(version: string, date: string): string {
    "; generated by " + version + " at " + date + "UTC"
  }

  lemma StampIsGeneratedOn(version: string, date: string)
    requires IsUnbroken(version) && IsUnbroken(date)
    ensures IsGeneratedOn(Stamp(version, date)) && WithoutReturn(Stamp(version, date)) == Stamp(version, date)
    ensures WithoutReturn(Stamp(version, date) + "\r") == Stamp(version, date)
  {
    var line := Stamp(version, date);
    assert line == GENERATED + (version + (AT + (date + UTC)));
    assert HoldsAt(line, |GENERATED| + |version|, AT);
    forall i | 0 <= i < |line| ensures InLine(line[i]) {
      var k := i - |GENERATED|;
      var l := k - |version| - |AT|;
      assert 0 <= k < |version| ==> line[i] == version[k];
      assert 0 <= l < |date| ==> line[i] == date[l];
    }
    assert (line + "\r")[..|line|] == line;
  }

  lemma GeneratedOnIsStamp(line: string) returns (version: string, date: string)
    requires IsGeneratedOn(line)
    ensures IsUnbroken(version) && IsUnbroken(date) && line == Stamp(version, date)
  {
    var i :| |GENERATED| <= i <= |line| - |UTC| - |AT| && HoldsAt(line, i, AT);
    version, date := line[|GENERATED|..i], line[i + |AT|..|line| - |UTC|];
    assert line == line[..|GENERATED|] + version + line[i..i + |AT|] + date + line[|line| - |UTC|..];
  }

  lemma {:induction false} NoNewlineByte(text: string)
    requires '\n' !in text
    ensures 0x0A !in EncodeAll(text)
  {
    if text != "" {
      assert text[0] in text;
      NoNewlineByte(text[1..]);
    }
  }

  /** The stamped line is left out with its line end, of either kind, and also where it is all there is. */
  lemma StampIsIgnored(version: string, date: string, rest: seq<byte>)
    requires IsUnbroken(version) && IsUnbroken(date)
    ensures var line := Stamp(version, date);
            && HashableBytes("Metadata/Slic3r_PE.config", EncodeAll(line) + [0x0A] + rest) == rest
            && HashableBytes("Metadata/Slic3r_PE.config", EncodeAll(line + "\r") + [0x0A] + rest) == rest
            && HashableBytes("Metadata/Slic3r_PE.config", EncodeAll(line)) == []
  {
    hide HashableBytes, IsGeneratedOn, WithoutReturn, DecodeUtf8, EncodeAll;
    var line := Stamp(version, date);
    StampIsGeneratedOn(version, date);
    assert line[0] == ';' && (line + "\r")[0] == ';';
    DecodeOfEncode(line);
    DecodeOfEncode(line + "\r");
    assert '\n' !in line && '\n' !in line + "\r" by { StampHasNoNewline(version, date); }
    NoNewlineByte(line);
    NoNewlineByte(line + "\r");
    OnlyTheStampIsIgnored(EncodeAll(line), rest);
    OnlyTheStampIsIgnored(EncodeAll(line + "\r"), rest);
  }

  lemma StampHasNoNewline(version: string, date: string)
    requires IsUnbroken(version) && IsUnbroken(date)
    ensures '\n' !in Stamp(version, date) && '\n' !in Stamp(version, date) + "\r"
  {
  }

  /** Any other first line counts whole: what is left out is a stamp and nothing but a stamp. */
  lemma OtherLinesCount(line: string, rest: seq<byte>)
    requires '\n' !in line && (line != "" ==> line[0] != BOM)
    requires HashableBytes("Metadata/Slic3r_PE.config", EncodeAll(line) + [0x0A] + rest) != EncodeAll(line) + [0x0A] + rest
    ensures exists version, date :: IsUnbroken(version) && IsUnbroken(date)
              && (line == Stamp(version, date) || line == Stamp(version, date) + "\r")
  {
    hide HashableBytes, IsGeneratedOn, DecodeUtf8, EncodeAll, IsUnbroken, Stamp;
    DecodeOfEncode(line);
    NoNewlineByte(line);
    OnlyTheStampIsIgnored(EncodeAll(line), rest);
    var version, date := GeneratedOnIsStamp(WithoutReturn(line));
    assert line != WithoutReturn(line) ==> line == WithoutReturn(line) + "\r";
  }

  // ---- Framing --------------------------------------------------------------------------------

  /** A length word in front of the bytes it describes. */
  function Framed(bytes: seq<byte>): seq<byte> {
    Le64(|bytes| % WORD_LIMIT) + bytes
  }

  datatype Item = Item(name: string, content: seq<byte>)

  function Stream(items: seq<Item>): seq<byte> {
    if items == [] then [] else Framed(EncodeAll(items[0].name)) + Framed(items[0].content) + Stream(items[1..])
  }

  lemma FrontFrame(a: seq<byte>, b: seq<byte>, rest: seq<byte>, more: seq<byte>)
    requires |a| < WORD_LIMIT && |b| < WORD_LIMIT
    requires Framed(a) + rest == Framed(b) + more
    ensures a == b && rest == more
  {
    hide Le64;
    var s, t := Framed(a) + rest, Framed(b) + more;
    assert s[..8] == Le64(|a|) && t[..8] == Le64(|b|);
    Le64Injective(|a|, |b|);
    assert s[8..8 + |a|] == a && t[8..8 + |b|] == b;
    assert s[8 + |a|..] == rest && t[8 + |b|..] == more;
  }

  /** An item as it is hashed: the name's length in eight bytes, the name, the content's length, the content. */
  lemma ItemIsLaidOut(items: seq<Item>)
    requires items != [] && |EncodeAll(items[0].name)| < WORD_LIMIT && |items[0].content| < WORD_LIMIT
    ensures var s, name, content := Stream(items), EncodeAll(items[0].name), items[0].content;
            var at := 8 + |name|;
            && |s| == at + 8 + |content| + |Stream(items[1..])|
            && U64At(s, 0) == |name| && s[8..at] == name && U64At(s, at) == |content|
            && s[at + 8..at + 8 + |content|] == content && s[at + 8 + |content|..] == Stream(items[1..])
  {
    hide Le64, U64At, EncodeAll, Stream;
    var name, content := EncodeAll(items[0].name), items[0].content;
    FirstStreamed(items);
    FourParts(Le64(|name|), name, Le64(|content|), content, Stream(items[1..]));
    ReadLe64(Stream(items), 0, |name|);
    ReadLe64(Stream(items), 8 + |name|, |content|);
  }

  lemma FirstStreamed(items: seq<Item>)
    requires items != [] && |EncodeAll(items[0].name)| < WORD_LIMIT && |items[0].content| < WORD_LIMIT
    ensures var name, content := EncodeAll(items[0].name), items[0].content;
            Stream(items) == Le64(|name|) + name + Le64(|content|) + content + Stream(items[1..])
  {
    hide Le64, EncodeAll;
  }

  lemma FourParts(a: seq<byte>, b: seq<byte>, c: seq<byte>, d: seq<byte>, rest: seq<byte>)
    requires |a| == 8 && |c| == 8
    ensures var s, at := a + b + c + d + rest, 8 + |b|;
            && |s| == at + 8 + |d| + |rest| && s[0..8] == a && s[8..at] == b && s[at..at + 8] == c
            && s[at + 8..at + 8 + |d|] == d && s[at + 8 + |d|..] == rest
  {
  }

  ghost predicate InMemory(items: seq<Item>) {
    forall i :: 0 <= i < |items| ==> |EncodeAll(items[i].name)| < WORD_LIMIT && |items[i].content| < WORD_LIMIT
  }

  /** The hashed bytes determine the names and contents they were made of. */
  lemma {:induction false} FramingIsInjective(a: seq<Item>, b: seq<Item>)
    requires InMemory(a) && InMemory(b) && Stream(a) == Stream(b)
    ensures a == b
  {
    hide Framed, EncodeAll;
    if a != [] && b != [] {
      var x, y := a[0], b[0];
      var restA, restB := Stream(a[1..]), Stream(b[1..]);
      assert Stream(a) == Framed(EncodeAll(x.name)) + (Framed(x.content) + restA);
      assert Stream(b) == Framed(EncodeAll(y.name)) + (Framed(y.content) + restB);
      FrontFrame(EncodeAll(x.name), EncodeAll(y.name), Framed(x.content) + restA, Framed(y.content) + restB);
      FrontFrame(x.content, y.content, restA, restB);
      EncodeAllInjective(x.name, y.name);
      FramingIsInjective(a[1..], b[1..]);
      assert a == [a[0]] + a[1..] && b == [b[0]] + b[1..];
    } else if a != [] {
      FrameIsNotEmpty(a);
    } else if b != [] {
      FrameIsNotEmpty(b);
    }
  }

  lemma FrameIsNotEmpty(items: seq<Item>)
    requires items != []
    ensures Stream(items) != []
  {
    assert |Framed(EncodeAll(items[0].name))| >= 8;
  }

  // ---- The hashed bytes of an archive ---------------------------------------------------------

  predicate ByName(a: ZipEntry, b: ZipEntry) {
    NameLe(a.name, b.name)
  }

  predicate ItemByName(a: Item, b: Item) {
    NameLe(a.name, b.name)
  }

  /** What reading an entry gives, as it counts. */
  function CountedBytes(inflate: Inflater, file: seq<byte>, entry: ZipEntry): Result<seq<byte>, ZipError> {
    var content :- ReadEntry(inflate, file, entry);
    Ok(HashableBytes(entry.name, content))
  }

  function ItemOf(inflate: Inflater, file: seq<byte>, entry: ZipEntry): Result<Item, ZipError> {
    var counted :- CountedBytes(inflate, file, entry);
    Ok(Item(entry.name, counted))
  }

  function ItemsOf(inflate: Inflater, file: seq<byte>, entries: seq<ZipEntry>): (r: Result<seq<Item>, ZipError>)
    ensures r.Ok? ==> |r.value| == |entries|
  {
    if entries == [] then Ok([])
    else
      var item :- ItemOf(inflate, file, entries[0]);
      var rest :- ItemsOf(inflate, file, entries[1..]);
      Ok([item] + rest)
  }

  /** The items of an archive in name order: what is framed, or why there is no hash. */
  function HashedItems(inflate: Inflater, file: seq<byte>): Result<seq<Item>, ZipError> {
    var entries :- Directory(file);
    ItemsOf(inflate, file, Sorting.Sort(ByName, entries))
  }

  /** The bytes fed to the hasher; a file whose directory does not parse is hashed as it is. */
  function HashInput(inflate: Inflater, file: seq<byte>): Result<seq<byte>, ZipError> {
    if Directory(file).Err? then Ok(file)
    else
      var items :- HashedItems(inflate, file);
      Ok(Stream(items))
  }

  lemma OneItem(inflate: Inflater, file: seq<byte>, entry: ZipEntry)
    ensures ItemOf(inflate, file, entry).Ok? <==> ReadEntry(inflate, file, entry).Ok?
    ensures ReadEntry(inflate, file, entry).Ok? ==>
              ItemOf(inflate, file, entry).value == Item(entry.name, HashableBytes(entry.name, ReadEntry(inflate, file, entry).value))
  {
    hide ReadEntry, HashableBytes;
  }

  /** There is a hash for every file but an archive with an entry that does not read. */
  lemma HashFailsExactly(inflate: Inflater, file: seq<byte>)
    ensures Directory(file).Err? ==> HashInput(inflate, file) == Ok(file)
    ensures Directory(file).Ok? ==>
              (HashInput(inflate, file).Ok? <==> forall entry :: entry in Directory(file).value ==> ReadEntry(inflate, file, entry).Ok?)
  {
    hide Directory, ReadEntry, ItemsOf, Stream, NameLe;
    if Directory(file).Ok? {
      var entries := Directory(file).value;
      var sorted := Sorting.Sort(ByName, entries);
      ItemsReadExactly(inflate, file, sorted);
      assert forall entry :: entry in sorted <==> entry in entries by {
        forall entry ensures entry in sorted <==> entry in entries {
          assert entry in multiset(sorted) <==> entry in multiset(entries);
        }
      }
    }
  }

  lemma {:induction false} ItemsReadExactly(inflate: Inflater, file: seq<byte>, entries: seq<ZipEntry>)
    ensures ItemsOf(inflate, file, entries).Ok? <==> forall entry :: entry in entries ==> ReadEntry(inflate, file, entry).Ok?
  {
    hide ReadEntry, HashableBytes;
    if entries != [] {
      ItemsReadExactly(inflate, file, entries[1..]);
      assert entries == [entries[0]] + entries[1..];
    }
  }

  function StreamAfter(fed: seq<byte>, items: Result<seq<Item>, ZipError>): Result<seq<byte>, ZipError> {
    var more :- items;
    Ok(fed + Stream(more))
  }

  lemma StreamStep(fed: seq<byte>, inflate: Inflater, file: seq<byte>, entries: seq<ZipEntry>)
    requires entries != []
    ensures ItemOf(inflate, file, entries[0]).Err? ==> StreamAfter(fed, ItemsOf(inflate, file, entries)).Err?
    ensures ItemOf(inflate, file, entries[0]).Ok? ==>
              var item := ItemOf(inflate, file, entries[0]).value;
              StreamAfter(fed, ItemsOf(inflate, file, entries))
              == StreamAfter(fed + Framed(EncodeAll(item.name)) + Framed(item.content), ItemsOf(inflate, file, entries[1..]))
  {
    hide ItemOf, Stream;
    if ItemOf(inflate, file, entries[0]).Ok? && ItemsOf(inflate, file, entries[1..]).Ok? {
      StreamCons(fed, ItemOf(inflate, file, entries[0]).value, ItemsOf(inflate, file, entries[1..]).value);
    }
  }

  lemma StreamCons(fed: seq<byte>, item: Item, rest: seq<Item>)
    ensures fed + Stream([item] + rest) == fed + Framed(EncodeAll(item.name)) + Framed(item.content) + Stream(rest)
  {
    hide Framed, EncodeAll;
    assert ([item] + rest)[1..] == rest;
    ZipWriter.Regroup(fed, Framed(EncodeAll(item.name)), Framed(item.content), Stream(rest));
  }

  lemma FramedInParts(fed: seq<byte>, content: seq<byte>)
    requires |content| < WORD_LIMIT
    ensures fed + Le64(|content|) + content == fed + Framed(content)
  {
    hide Le64;
  }

  /** The hashing loop, entry by entry in name order, the big ones a chunk at a time. */
  method EntryHashInput(inflate: Inflater, file: seq<byte>) returns (r: Result<seq<byte>, ZipError>)
    requires |file| <= MAX_SAFE_INTEGER
    ensures r.Ok? <==> HashInput(inflate, file).Ok?
    ensures r.Ok? ==> r.value == HashInput(inflate, file).value
  {
    hide Directory, ItemOf, ItemsOf, ReadEntry, EncodeAll, Stream, HashableBytes, Le64, Framed, StreamAfter;
    var read := ReadEntries(file);
    if read.Err? {
      return Ok(file);
    }
    var entries := Sorting.Sort(ByName, read.value);
    SortedAreSafe(file);
    var fed: seq<byte> := [];
    var i := 0;
    assert entries[0..] == entries;
    StreamStart(ItemsOf(inflate, file, entries));
    while i < |entries|
      invariant i <= |entries|
      invariant StreamAfter([], ItemsOf(inflate, file, entries)) == StreamAfter(fed, ItemsOf(inflate, file, entries[i..]))
    {
      var entry := entries[i];
      StreamStep(fed, inflate, file, entries[i..]);
      OneItem(inflate, file, entry);
      assert entries[i..][1..] == entries[i + 1..];
      fed := fed + Framed(EncodeAll(entry.name));
      ghost var before := fed;
      if entry.name == SLIC3R_CONFIG {
        var bytes :- ReadEntry(inflate, file, entry);
        fed := fed + Framed(HashableBytes(entry.name, bytes));
      } else {
        fed := fed + Le64(entry.uncompressedSize);
        var chunks, taken := DrainEntry(inflate, file, entry, Some(READ_CHUNK_BYTES));
        if chunks.Err? {
          return Err(chunks.error);
        }
        assert |Flat(chunks.value)| == entry.uncompressedSize;
        FramedInParts(before, Flat(chunks.value));
        fed := FeedChunks(fed, chunks.value);
        assert HashableBytes(entry.name, Flat(chunks.value)) == Flat(chunks.value);
      }
      i := i + 1;
    }
    assert entries[|entries|..] == [];
    StreamEnd(fed, inflate, file);
    return Ok(fed);
  }

  lemma StreamStart(items: Result<seq<Item>, ZipError>)
    ensures items.Ok? ==> StreamAfter([], items) == Ok(Stream(items.value))
    ensures items.Err? ==> StreamAfter([], items).Err?
  {
    hide Stream;
    if items.Ok? {
      assert [] + Stream(items.value) == Stream(items.value);
    }
  }

  lemma StreamEnd(fed: seq<byte>, inflate: Inflater, file: seq<byte>)
    ensures StreamAfter(fed, ItemsOf(inflate, file, [])) == Ok(fed)
  {
    assert fed + [] == fed;
  }

  method FeedChunks(fed: seq<byte>, chunks: seq<seq<byte>>) returns (all: seq<byte>)
    ensures all == fed + Flat(chunks)
  {
    all := fed;
    for i := 0 to |chunks|
      invariant all == fed + Flat(chunks[..i])
    {
      assert chunks[..i + 1][..i] == chunks[..i];
      all := all + chunks[i];
    }
    assert chunks[..|chunks|] == chunks;
  }

  lemma SortedAreSafe(file: seq<byte>)
    requires Directory(file).Ok?
    ensures forall entry :: entry in Sorting.Sort(ByName, Directory(file).value) ==>
              entry in Directory(file).value && entry.uncompressedSize <= MAX_SAFE_INTEGER
  {
    hide Directory;
    ZipRoundTrip.DirectoryIsSafe(file);
    forall entry | entry in Sorting.Sort(ByName, Directory(file).value) ensures entry in Directory(file).value {
      assert entry in multiset(Sorting.Sort(ByName, Directory(file).value));
    }
  }

  // ---- What the hash does not depend on -------------------------------------------------------

  /** An entry as the hash sees it: its name, and what reading it gives as it counts. */
  datatype Listed = Listed(name: string, content: Result<seq<byte>, ZipError>)

  function Listing(inflate: Inflater, file: seq<byte>, entries: seq<ZipEntry>): (l: seq<Listed>)
    ensures |l| == |entries|
    ensures forall i :: 0 <= i < |l| ==> l[i] == Listed(entries[i].name, CountedBytes(inflate, file, entries[i]))
  {
    if entries == [] then []
    else [Listed(entries[0].name, CountedBytes(inflate, file, entries[0]))] + Listing(inflate, file, entries[1..])
  }

  predicate ListedByName(a: Listed, b: Listed) {
    NameLe(a.name, b.name)
  }

  lemma {:induction false} ItemsFromListing(inflate: Inflater, a: seq<byte>, x: seq<ZipEntry>, b: seq<byte>, y: seq<ZipEntry>)
    requires Listing(inflate, a, x) == Listing(inflate, b, y)
    ensures ItemsOf(inflate, a, x) == ItemsOf(inflate, b, y)
  {
    hide CountedBytes;
    assert |x| == |y|;
    if x != [] {
      assert Listing(inflate, a, x)[1..] == Listing(inflate, a, x[1..]);
      assert Listing(inflate, b, y)[1..] == Listing(inflate, b, y[1..]);
      assert Listing(inflate, a, x)[0] == Listing(inflate, b, y)[0];
      ItemsFromListing(inflate, a, x[1..], b, y[1..]);
    }
  }

  lemma {:induction false} ListingConcat(inflate: Inflater, file: seq<byte>, x: seq<ZipEntry>, y: seq<ZipEntry>)
    ensures Listing(inflate, file, x + y) == Listing(inflate, file, x) + Listing(inflate, file, y)
  {
    hide CountedBytes;
  }

  /** Rearranging the entries rearranges what is listed. */
  lemma {:induction false} PermutedListing(inflate: Inflater, file: seq<byte>, x: seq<ZipEntry>, y: seq<ZipEntry>)
    requires multiset(x) == multiset(y)
    ensures multiset(Listing(inflate, file, x)) == multiset(Listing(inflate, file, y))
  {
    hide Listing, ReadEntry;
    if x == [] {
      assert |y| == |multiset(y)| == |multiset(x)|;
    } else {
      var i := Sorting.ShareFirst(x, y);
      ghost var rest := y[..i] + y[i + 1..];
      PermutedListing(inflate, file, x[1..], rest);
      ListedFirst(inflate, file, x);
      ListedOut(inflate, file, y, i);
    }
  }

  lemma ListedFirst(inflate: Inflater, file: seq<byte>, s: seq<ZipEntry>)
    requires s != []
    ensures multiset(Listing(inflate, file, s))
            == multiset{Listed(s[0].name, CountedBytes(inflate, file, s[0]))} + multiset(Listing(inflate, file, s[1..]))
  {
    hide CountedBytes;
  }

  lemma ListedOut(inflate: Inflater, file: seq<byte>, s: seq<ZipEntry>, i: nat)
    requires i < |s|
    ensures multiset(Listing(inflate, file, s))
            == multiset{Listed(s[i].name, CountedBytes(inflate, file, s[i]))} + multiset(Listing(inflate, file, s[..i] + s[i + 1..]))
  {
    hide CountedBytes, Listing;
    var listing := Listing(inflate, file, s);
    ListingParts(inflate, file, s, i);
    ListingConcat(inflate, file, s[..i], s[i + 1..]);
    Sorting.RemoveAt(listing, i);
  }

  lemma ListingParts(inflate: Inflater, file: seq<byte>, s: seq<ZipEntry>, i: nat)
    requires i < |s|
    ensures Listing(inflate, file, s)[..i] == Listing(inflate, file, s[..i])
    ensures Listing(inflate, file, s)[i + 1..] == Listing(inflate, file, s[i + 1..])
  {
    hide CountedBytes;
  }

  /** No name stands for two different contents; distinct names are a special case. */
  ghost predicate NamesAreClear(listing: seq<Listed>) {
    forall i, j :: 0 <= i < |listing| && 0 <= j < |listing| && listing[i].name == listing[j].name ==> listing[i] == listing[j]
  }

  lemma ClearHasNoTies(listing: seq<Listed>)
    requires NamesAreClear(listing)
    ensures Sorting.NoTies(ListedByName, listing)
  {
    hide NameLe;
    NameOrderIsTotal();
    forall i, j | 0 <= i < |listing| && 0 <= j < |listing| && Sorting.Ties(ListedByName, listing[i], listing[j])
      ensures listing[i] == listing[j]
    {
      assert NameLe(listing[i].name, listing[j].name) && NameLe(listing[j].name, listing[i].name);
    }
  }

  lemma SortedListing(inflate: Inflater, file: seq<byte>, entries: seq<ZipEntry>)
    requires NamesAreClear(Listing(inflate, file, entries))
    ensures var sorted := Listing(inflate, file, Sorting.Sort(ByName, entries));
            && multiset(sorted) == multiset(Listing(inflate, file, entries))
            && Sorting.Sorted(ListedByName, sorted)
            && Sorting.NoTies(ListedByName, sorted)
  {
    hide CountedBytes, NameLe, Listing, NamesAreClear, Sorting.NoTies;
    ByNameIsTotal();
    var order := Sorting.Sort(ByName, entries);
    Sorting.SortSorted(ByName, entries);
    PermutedListing(inflate, file, order, entries);
    ClearIsPermutable(Listing(inflate, file, entries), Listing(inflate, file, order));
    ClearHasNoTies(Listing(inflate, file, order));
  }

  lemma ByNameIsTotal()
    ensures Sorting.TotalPreorder(ByName) && Sorting.TotalPreorder(ListedByName)
  {
    hide NameLe;
    NameOrderIsTotal();
    assert forall a: ZipEntry, b: ZipEntry, c: ZipEntry :: ByName(a, b) && ByName(b, c) ==> NameLe(a.name, c.name);
    assert forall a: Listed, b: Listed, c: Listed :: ListedByName(a, b) && ListedByName(b, c) ==> NameLe(a.name, c.name);
  }

  /** Archives listing the same names with contents that count the same hash alike, whatever their order. */
  lemma OrderIsIrrelevant(inflate: Inflater, a: seq<byte>, b: seq<byte>)
    requires Directory(a).Ok? && Directory(b).Ok?
    requires NamesAreClear(Listing(inflate, a, Directory(a).value))
    requires multiset(Listing(inflate, a, Directory(a).value)) == multiset(Listing(inflate, b, Directory(b).value))
    ensures HashInput(inflate, a) == HashInput(inflate, b)
  {
    hide Directory, CountedBytes, NameLe, NamesAreClear, Listing;
    var x, y := Directory(a).value, Directory(b).value;
    ClearIsPermutable(Listing(inflate, a, x), Listing(inflate, b, y));
    SortedListing(inflate, a, x);
    SortedListing(inflate, b, y);
    ByNameIsTotal();
    var sx, sy := Sorting.Sort(ByName, x), Sorting.Sort(ByName, y);
    Sorting.SortedArrangementUnique(ListedByName, Listing(inflate, a, sx), Listing(inflate, b, sy));
    ItemsFromListing(inflate, a, Sorting.Sort(ByName, x), b, Sorting.Sort(ByName, y));
  }

  lemma ClearIsPermutable(x: seq<Listed>, y: seq<Listed>)
    requires NamesAreClear(x) && multiset(x) == multiset(y)
    ensures NamesAreClear(y)
  {
    forall i, j | 0 <= i < |y| && 0 <= j < |y| && y[i].name == y[j].name ensures y[i] == y[j] {
      assert y[i] in multiset(x) && y[j] in multiset(x);
    }
  }

  /** A rewrite that changes nothing leaves the hash alone, whatever it did to the container. */
  lemma RewriteKeepsHash(inflate: Inflater, input: seq<byte>)
    requires |input| <= MAX_SAFE_INTEGER && ZipWriter.Rewritten(input, ZipWriter.Request({}, map[])).Ok?
    requires NamesAreClear(Listing(inflate, input, ZipRoundTrip.EntriesIn(input)))
    requires forall entry :: entry in ZipRoundTrip.EntriesIn(input) ==> !(entry.name != "" && entry.name[0] == BOM)
    ensures HashInput(inflate, ZipWriter.Rewritten(input, ZipWriter.Request({}, map[])).value) == HashInput(inflate, input)
  {
    hide Directory, CountedBytes, NamesAreClear, ZipWriter.Rewritten, HashInput, Listing, ZipRoundTrip.Kept;
    var request := ZipWriter.Request({}, map[]);
    var out, entries := ZipWriter.Rewritten(input, request).value, ZipRoundTrip.EntriesIn(input);
    var kept := ZipRoundTrip.Kept(input, request);
    RewrittenWasRead(input, request);
    NothingLost(input);
    ZipRoundTrip.RewriteRoundTrip(input, request);
    SameListing(inflate, input);
    PermutedListing(inflate, input, kept, entries);
    OrderIsIrrelevant(inflate, input, out);
  }

  lemma NothingLost(input: seq<byte>)
    ensures multiset(ZipRoundTrip.Kept(input, ZipWriter.Request({}, map[]))) == multiset(ZipRoundTrip.EntriesIn(input))
    ensures forall entry :: entry in ZipRoundTrip.Kept(input, ZipWriter.Request({}, map[])) ==> entry in ZipRoundTrip.EntriesIn(input)
  {
    hide ZipRoundTrip.EntriesIn;
    var kept := ZipRoundTrip.Kept(input, ZipWriter.Request({}, map[]));
    NothingDropped(ZipWriter.InFileOrder(ZipRoundTrip.EntriesIn(input)));
    assert forall entry :: entry in kept ==> entry in multiset(kept);
  }

  /** An unchanging rewrite lists what the input lists, in file order. */
  lemma SameListing(inflate: Inflater, input: seq<byte>)
    requires |input| <= MAX_SAFE_INTEGER && ZipWriter.Rewritten(input, ZipWriter.Request({}, map[])).Ok?
    requires forall entry :: entry in ZipRoundTrip.EntriesIn(input) ==> !(entry.name != "" && entry.name[0] == BOM)
    ensures var request := ZipWriter.Request({}, map[]);
            var out := ZipWriter.Rewritten(input, request).value;
            Listing(inflate, out, ZipRoundTrip.EntriesIn(out)) == Listing(inflate, input, ZipRoundTrip.Kept(input, request))
  {
    hide ReadEntry, HashableBytes, ZipWriter.Rewritten, ZipRoundTrip.Kept, ZipRoundTrip.EntriesIn;
    var request := ZipWriter.Request({}, map[]);
    var out, kept := ZipWriter.Rewritten(input, request).value, ZipRoundTrip.Kept(input, request);
    NothingLost(input);
    ZipRoundTrip.PayloadsSurvive(inflate, input, request);
    ZipRoundTrip.NamesSurvive(input, request);
    var read := ZipRoundTrip.EntriesIn(out);
    forall k | 0 <= k < |kept| ensures read[k].name == kept[k].name {
      assert ZipWriter.Names(read)[k] == ZipWriter.Names(kept)[k];
    }
  }

  lemma RewrittenWasRead(input: seq<byte>, request: ZipWriter.Request)
    requires ZipWriter.Rewritten(input, request).Ok?
    ensures Directory(input).Ok?
  {
  }

  lemma {:induction false} NothingDropped(entries: seq<ZipEntry>)
    ensures ZipWriter.Surviving(entries, {}) == entries
  {
    if entries != [] {
      NothingDropped(entries[1..]);
    }
  }

  // ---- One digest per entry, and the difference of two such maps ------------------------------

  function DigestsOf(digest: seq<byte> -> string, items: seq<Item>): map<string, string> {
    if items == [] then map[]
    else
      var last := items[|items| - 1];
      DigestsOf(digest, items[..|items| - 1])[last.name := digest(last.content)]
  }

  lemma {:induction false} ItemsOfSnoc(inflate: Inflater, file: seq<byte>, entries: seq<ZipEntry>, entry: ZipEntry)
    ensures ItemsOf(inflate, file, entries + [entry]).Ok?
            <==> ItemsOf(inflate, file, entries).Ok? && ItemOf(inflate, file, entry).Ok?
    ensures ItemsOf(inflate, file, entries + [entry]).Ok? ==>
              ItemsOf(inflate, file, entries + [entry]).value
              == ItemsOf(inflate, file, entries).value + [ItemOf(inflate, file, entry).value]
  {
    hide ItemOf;
    if entries == [] {
      assert [] + [entry] == [entry] && [entry][1..] == [];
      assert ItemsOf(inflate, file, []) == Ok([]);
    } else {
      ItemsOfSnoc(inflate, file, entries[1..], entry);
      assert (entries + [entry])[1..] == entries[1..] + [entry];
    }
  }

  lemma {:induction false} ItemsOfPrefix(inflate: Inflater, file: seq<byte>, entries: seq<ZipEntry>, n: nat)
    requires n <= |entries| && ItemsOf(inflate, file, entries).Ok?
    ensures ItemsOf(inflate, file, entries[..n]).Ok?
    decreases |entries|
  {
    hide ItemsOf;
    if n < |entries| {
      var front := entries[..|entries| - 1];
      assert entries == front + [entries[|entries| - 1]];
      ItemsOfSnoc(inflate, file, front, entries[|entries| - 1]);
      ItemsOfPrefix(inflate, file, front, n);
      assert front[..n] == entries[..n];
    } else {
      assert entries[..n] == entries;
    }
  }

  /** The itemised hash: a later entry of the same name replaces an earlier one. */
  method EntryDigests(inflate: Inflater, digest: seq<byte> -> string, basename: string, file: seq<byte>)
    returns (r: Result<map<string, string>, ZipError>)
    requires |file| <= MAX_SAFE_INTEGER
    ensures Directory(file).Err? ==> r == Ok(map[basename := digest(file)])
    ensures Directory(file).Ok? ==> (r.Ok? <==> ItemsOf(inflate, file, Directory(file).value).Ok?)
    ensures Directory(file).Ok? && r.Ok? ==> r.value == DigestsOf(digest, ItemsOf(inflate, file, Directory(file).value).value)
  {
    hide Directory, ItemsOf, ReadEntry, HashableBytes;
    var read := ReadEntries(file);
    if read.Err? {
      return Ok(map[basename := digest(file)]);
    }
    var entries := read.value;
    ZipRoundTrip.DirectoryIsSafe(file);
    var digests: map<string, string> := map[];
    assert entries[..0] == [];
    NoItems(inflate, file);
    for i := 0 to |entries|
      invariant ItemsOf(inflate, file, entries[..i]).Ok?
      invariant digests == DigestsOf(digest, ItemsOf(inflate, file, entries[..i]).value)
    {
      var entry := entries[i];
      assert entry in entries;
      assert entries[..i + 1] == entries[..i] + [entry];
      ItemsOfSnoc(inflate, file, entries[..i], entry);
      ghost var before := ItemsOf(inflate, file, entries[..i]).value;
      var content: seq<byte>;
      if entry.name == SLIC3R_CONFIG {
        var bytes := ReadEntry(inflate, file, entry);
        if bytes.Err? {
          PrefixFailed(inflate, file, entries, i + 1);
          return Err(bytes.error);
        }
        content := HashableBytes(entry.name, bytes.value);
      } else {
        var chunks, taken := DrainEntry(inflate, file, entry, Some(READ_CHUNK_BYTES));
        if chunks.Err? {
          PrefixFailed(inflate, file, entries, i + 1);
          return Err(chunks.error);
        }
        content := FeedChunks([], chunks.value);
        assert [] + Flat(chunks.value) == Flat(chunks.value);
      }
      DigestsSnoc(digest, before, Item(entry.name, content));
      digests := digests[entry.name := digest(content)];
    }
    assert entries[..|entries|] == entries;
    return Ok(digests);
  }

  lemma NoItems(inflate: Inflater, file: seq<byte>)
    ensures ItemsOf(inflate, file, []) == Ok([])
  {
  }

  lemma PrefixFailed(inflate: Inflater, file: seq<byte>, entries: seq<ZipEntry>, n: nat)
    requires n <= |entries| && ItemsOf(inflate, file, entries[..n]).Err?
    ensures ItemsOf(inflate, file, entries).Err?
  {
    hide ItemsOf;
    if ItemsOf(inflate, file, entries).Ok? {
      ItemsOfPrefix(inflate, file, entries, n);
    }
  }

  lemma DigestsSnoc(digest: seq<byte> -> string, items: seq<Item>, item: Item)
    ensures DigestsOf(digest, items + [item]) == DigestsOf(digest, items)[item.name := digest(item.content)]
  {
    assert (items + [item])[..|items|] == items;
  }

  ghost predicate DistinctNames(items: seq<Item>) {
    forall i, j :: 0 <= i < j < |items| ==> items[i].name != items[j].name
  }

  ghost predicate CollisionFree(digest: seq<byte> -> string) {
    forall x, y :: digest(x) == digest(y) ==> x == y
  }

  ghost predicate SameItems(a: seq<Item>, b: seq<Item>) {
    forall item :: item in a <==> item in b
  }

  lemma {:induction false} DigestsMembers(digest: seq<byte> -> string, items: seq<Item>)
    requires DistinctNames(items)
    ensures forall i :: 0 <= i < |items| ==> items[i].name in DigestsOf(digest, items)
    ensures forall i :: 0 <= i < |items| ==> DigestsOf(digest, items)[items[i].name] == digest(items[i].content)
    ensures forall name :: name in DigestsOf(digest, items) ==> exists i :: 0 <= i < |items| && items[i].name == name
  {
    if items != [] {
      var front := items[..|items| - 1];
      DigestsMembers(digest, front);
      forall name | name in DigestsOf(digest, items) ensures exists i :: 0 <= i < |items| && items[i].name == name {
        if name != items[|items| - 1].name {
          assert name in DigestsOf(digest, front);
          var i :| 0 <= i < |front| && front[i].name == name;
          assert items[i].name == name;
        } else {
          assert items[|items| - 1].name == name;
        }
      }
    }
  }

  lemma DigestsContain(digest: seq<byte> -> string, a: seq<Item>, b: seq<Item>, item: Item)
    requires DistinctNames(a) && DistinctNames(b) && CollisionFree(digest)
    requires DigestsOf(digest, a) == DigestsOf(digest, b) && item in a
    ensures item in b
  {
    hide DigestsOf, DistinctNames;
    DigestsMembers(digest, a);
    DigestsMembers(digest, b);
    var i :| 0 <= i < |a| && a[i] == item;
    var j :| 0 <= j < |b| && b[j].name == item.name;
    assert digest(b[j].content) == digest(item.content);
    assert b[j] == item;
  }

  lemma SameItemsSameDigests(digest: seq<byte> -> string, a: seq<Item>, b: seq<Item>)
    requires DistinctNames(a) && DistinctNames(b) && SameItems(a, b)
    ensures DigestsOf(digest, a) == DigestsOf(digest, b)
  {
    hide DigestsOf, DistinctNames;
    DigestsMembers(digest, a);
    DigestsMembers(digest, b);
    var da, db := DigestsOf(digest, a), DigestsOf(digest, b);
    forall name | name in da ensures name in db && da[name] == db[name] {
      var i :| 0 <= i < |a| && a[i].name == name;
      assert a[i] in b;
    }
    forall name | name in db ensures name in da {
      var i :| 0 <= i < |b| && b[i].name == name;
      assert b[i] in a;
    }
  }

  /** Distinctly named items in name order are fixed by which items there are. */
  lemma {:induction false} OrderedItemsUnique(a: seq<Item>, b: seq<Item>)
    requires DistinctNames(a) && DistinctNames(b) && SameItems(a, b)
    requires Sorting.Sorted(ItemByName, a) && Sorting.Sorted(ItemByName, b)
    ensures a == b
  {
    hide NameLe;
    if a == [] {
      Sorting.FirstIn(b);
    } else {
      assert a[0] in b;
      assert b[0] in a;
      SameLeast(a, b);
      assert a == [a[0]] + a[1..] && b == [b[0]] + b[1..];
      forall item ensures item in a[1..] <==> item in b[1..] {
        assert item in a[1..] <==> item in a && item != a[0] by { TailMembers(a, item); }
        assert item in b[1..] <==> item in b && item != b[0] by { TailMembers(b, item); }
      }
      OrderedItemsUnique(a[1..], b[1..]);
    }
  }

  lemma TailMembers(s: seq<Item>, item: Item)
    requires s != [] && DistinctNames(s)
    ensures item in s[1..] <==> item in s && item != s[0]
  {
    assert s == [s[0]] + s[1..];
    if item in s[1..] {
      var i :| 0 <= i < |s| - 1 && s[1..][i] == item;
      assert s[i + 1] == item;
    }
  }

  lemma SameLeast(a: seq<Item>, b: seq<Item>)
    requires a != [] && b != [] && a[0] in b && b[0] in a && DistinctNames(a)
    requires Sorting.Sorted(ItemByName, a) && Sorting.Sorted(ItemByName, b)
    ensures a[0] == b[0]
  {
    hide NameLe;
    NameOrderIsTotal();
    var i :| 0 <= i < |b| && b[i] == a[0];
    var j :| 0 <= j < |a| && a[j] == b[0];
    assert i > 0 ==> ItemByName(b[0], b[i]);
    assert j > 0 ==> ItemByName(a[0], a[j]);
  }

  lemma {:induction false} ItemsAre(inflate: Inflater, file: seq<byte>, entries: seq<ZipEntry>)
    requires ItemsOf(inflate, file, entries).Ok?
    ensures forall i :: 0 <= i < |entries| ==>
              ItemOf(inflate, file, entries[i]) == Ok(ItemsOf(inflate, file, entries).value[i])
    ensures forall i :: 0 <= i < |entries| ==> ItemsOf(inflate, file, entries).value[i].name == entries[i].name
  {
    hide ReadEntry, HashableBytes;
    if entries != [] {
      ItemsAre(inflate, file, entries[1..]);
      var items := ItemsOf(inflate, file, entries).value;
      assert items[1..] == ItemsOf(inflate, file, entries[1..]).value;
    }
  }

  lemma {:induction false} AllReadable(inflate: Inflater, file: seq<byte>, entries: seq<ZipEntry>)
    requires forall i :: 0 <= i < |entries| ==> ItemOf(inflate, file, entries[i]).Ok?
    ensures ItemsOf(inflate, file, entries).Ok?
  {
    hide ItemOf;
    if entries != [] {
      assert forall i :: 0 <= i < |entries[1..]| ==> entries[1..][i] == entries[i + 1];
      AllReadable(inflate, file, entries[1..]);
    }
  }

  ghost predicate DistinctEntries(entries: seq<ZipEntry>) {
    forall i, j :: 0 <= i < j < |entries| ==> entries[i].name != entries[j].name
  }

  lemma DistinctPermuted(a: seq<ZipEntry>, b: seq<ZipEntry>)
    requires DistinctEntries(a) && multiset(a) == multiset(b)
    ensures DistinctEntries(b)
  {
    Sorting.NoRepeatsPermuted(a, b);
    forall i, j | 0 <= i < j < |b| ensures b[i].name != b[j].name {
      assert b[i] in multiset(a) && b[j] in multiset(a);
      var k :| 0 <= k < |a| && a[k] == b[i];
      var l :| 0 <= l < |a| && a[l] == b[j];
      assert k != l;
    }
  }

  /** Sorting a distinctly named listing gives the same items, distinctly named and in name order. */
  lemma SortedItems(inflate: Inflater, file: seq<byte>, entries: seq<ZipEntry>)
    requires DistinctEntries(entries) && ItemsOf(inflate, file, Sorting.Sort(ByName, entries)).Ok?
    ensures ItemsOf(inflate, file, entries).Ok?
    ensures var sorted, plain := ItemsOf(inflate, file, Sorting.Sort(ByName, entries)).value, ItemsOf(inflate, file, entries).value;
            && SameItems(sorted, plain) && DistinctNames(sorted) && DistinctNames(plain)
            && Sorting.Sorted(ItemByName, sorted)
  {
    hide ItemOf, ItemsOf, NameLe;
    var order := Sorting.Sort(ByName, entries);
    ItemsAre(inflate, file, order);
    var sorted := ItemsOf(inflate, file, order).value;
    ByNameIsTotal();
    Sorting.SortSorted(ByName, entries);
    DistinctPermuted(entries, order);
    forall i | 0 <= i < |entries| ensures ItemOf(inflate, file, entries[i]).Ok? {
      assert entries[i] in multiset(order);
    }
    AllReadable(inflate, file, entries);
    ItemsAre(inflate, file, entries);
    var plain := ItemsOf(inflate, file, entries).value;
    MembersFollow(inflate, file, order, entries, sorted, plain);
    MembersFollow(inflate, file, entries, order, plain, sorted);
    forall i, j | 0 <= i < j < |sorted| ensures ItemByName(sorted[i], sorted[j]) {
      assert ByName(order[i], order[j]);
    }
  }

  lemma MembersFollow(inflate: Inflater, file: seq<byte>, x: seq<ZipEntry>, y: seq<ZipEntry>, a: seq<Item>, b: seq<Item>)
    requires |a| == |x| && |b| == |y| && multiset(x) == multiset(y)
    requires forall i :: 0 <= i < |x| ==> ItemOf(inflate, file, x[i]) == Ok(a[i])
    requires forall i :: 0 <= i < |y| ==> ItemOf(inflate, file, y[i]) == Ok(b[i])
    ensures forall item :: item in a ==> item in b
  {
    hide ItemOf;
    forall item | item in a ensures item in b {
      var i :| 0 <= i < |a| && a[i] == item;
      assert x[i] in multiset(y);
      var j :| 0 <= j < |y| && y[j] == x[i];
      assert b[j] == item;
    }
  }

  /**
   * The hash and the itemised digests answer the same question: with distinct names, two readable
   * archives hash alike exactly when their digest maps are equal, so exactly when the diff is empty.
   */
  lemma HashAgreesWithDigests(inflate: Inflater, digest: seq<byte> -> string, a: seq<byte>, b: seq<byte>)
    requires Directory(a).Ok? && Directory(b).Ok? && CollisionFree(digest)
    requires DistinctEntries(Directory(a).value) && DistinctEntries(Directory(b).value)
    requires HashedItems(inflate, a).Ok? && HashedItems(inflate, b).Ok?
    requires InMemory(HashedItems(inflate, a).value) && InMemory(HashedItems(inflate, b).value)
    ensures ItemsOf(inflate, a, Directory(a).value).Ok? && ItemsOf(inflate, b, Directory(b).value).Ok?
    ensures HashInput(inflate, a) == HashInput(inflate, b)
            <==> DigestsOf(digest, ItemsOf(inflate, a, Directory(a).value).value)
                 == DigestsOf(digest, ItemsOf(inflate, b, Directory(b).value).value)
  {
    hide Directory, ItemsOf, DigestsOf, NameLe, Stream, InMemory, CollisionFree, SameItems, DistinctNames, DistinctEntries;
    SortedItems(inflate, a, Directory(a).value);
    SortedItems(inflate, b, Directory(b).value);
    var sa, sb := HashedItems(inflate, a).value, HashedItems(inflate, b).value;
    var pa, pb := ItemsOf(inflate, a, Directory(a).value).value, ItemsOf(inflate, b, Directory(b).value).value;
    if Stream(sa) == Stream(sb) {
      FramingIsInjective(sa, sb);
      SameThrough(sa, pa, sb, pb);
      SameItemsSameDigests(digest, pa, pb);
    }
    if DigestsOf(digest, pa) == DigestsOf(digest, pb) {
      SameDigestsSameItems(digest, pa, pb);
      SameThrough(pa, sa, pb, sb);
      OrderedItemsUnique(sa, sb);
    }
  }

  lemma SameDigestsSameItems(digest: seq<byte> -> string, a: seq<Item>, b: seq<Item>)
    requires DistinctNames(a) && DistinctNames(b) && CollisionFree(digest) && DigestsOf(digest, a) == DigestsOf(digest, b)
    ensures SameItems(a, b)
  {
    hide DistinctNames, CollisionFree, DigestsOf;
    forall item ensures item in a <==> item in b {
      if item in a { DigestsContain(digest, a, b, item); }
      if item in b { DigestsContain(digest, b, a, item); }
    }
  }

  lemma SameThrough(a: seq<Item>, x: seq<Item>, b: seq<Item>, y: seq<Item>)
    requires (SameItems(a, x) || SameItems(x, a)) && (SameItems(b, y) || SameItems(y, b))
    requires a == b || SameItems(a, b)
    ensures SameItems(x, y)
  {
  }

  datatype EntryDiff = EntryDiff(added: seq<string>, removed: seq<string>, changed: seq<string>)

  ghost predicate Ascending(names: seq<string>) {
    forall i, j :: 0 <= i < j < |names| ==> NameLe(names[i], names[j]) && names[i] != names[j]
  }

  /** Sorted by UTF-16 code unit, each name once. */
  method SortNames(names: seq<string>) returns (sorted: seq<string>)
    requires Sorting.NoRepeats(names)
    ensures Ascending(sorted)
    ensures forall name :: name in sorted <==> name in names
  {
    hide NameLe;
    sorted := Sorting.Sort(NameLe, names);
    NameOrderIsTotal();
    Sorting.SortSorted(NameLe, names);
    Sorting.NoRepeatsPermuted(names, sorted);
    assert forall name :: name in sorted <==> name in multiset(names);
  }

  /** The names that differ, each in exactly one list; nothing is listed exactly when nothing changed. */
  method DiffDigests(before: map<string, string>, after: map<string, string>) returns (diff: EntryDiff)
    ensures forall name :: name in diff.added <==> name in after && name !in before
    ensures forall name :: name in diff.removed <==> name in before && name !in after
    ensures forall name :: name in diff.changed <==> name in before && name in after && before[name] != after[name]
    ensures Ascending(diff.added) && Ascending(diff.removed) && Ascending(diff.changed)
    ensures diff == EntryDiff([], [], []) <==> before == after
  {
    hide Ascending;
    var added, removed, changed := [], [], [];
    var left := before.Keys;
    while left != {}
      invariant left <= before.Keys
      invariant forall name :: name in removed <==> name in before && name !in left && name !in after
      invariant forall name :: name in changed <==> name in before && name !in left && name in after && before[name] != after[name]
      invariant Sorting.NoRepeats(removed)
      invariant Sorting.NoRepeats(changed)
    {
      var name :| name in left;
      if name !in after {
        assert name !in removed;
        removed := removed + [name];
      } else if before[name] != after[name] {
        assert name !in changed;
        changed := changed + [name];
      }
      left := left - {name};
    }
    left := after.Keys;
    while left != {}
      invariant left <= after.Keys
      invariant forall name :: name in added <==> name in after && name !in left && name !in before
      invariant Sorting.NoRepeats(added)
    {
      var name :| name in left;
      if name !in before {
        assert name !in added;
        added := added + [name];
      }
      left := left - {name};
    }
    added := SortNames(added);
    removed := SortNames(removed);
    changed := SortNames(changed);
    diff := EntryDiff(added, removed, changed);
    EmptyDiff(before, after, diff);
  }

  lemma EmptyDiff(before: map<string, string>, after: map<string, string>, diff: EntryDiff)
    requires forall name :: name in diff.added <==> name in after && name !in before
    requires forall name :: name in diff.removed <==> name in before && name !in after
    requires forall name :: name in diff.changed <==> name in before && name in after && before[name] != after[name]
    ensures diff == EntryDiff([], [], []) <==> before == after
  {
    if before == after {
      Sorting.FirstIn(diff.added);
      Sorting.FirstIn(diff.removed);
      Sorting.FirstIn(diff.changed);
    }
    if diff == EntryDiff([], [], []) {
      forall name | name in before ensures name in after && before[name] == after[name] {
        assert name !in diff.removed && name !in diff.changed;
      }
      forall name | name in after ensures name in before {
        assert name !in diff.added;
      }
    }
  }
}
