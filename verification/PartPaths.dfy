/** References as producers write them, and the parts they lead to. */
module PartPaths {
  import opened Words
  import opened Wrappers
  import opened Utf8
  import opened Texts
  import opened PartNames
  import LineSinks

  // ---- Character references -------------------------------------------------------------------

  /** A character as XML wants it written: the five with a name of their own by that name. */
  function Named(c: char): string {
    if c == '&' then "&amp;"
    else if c == '<' then "&lt;"
    else if c == '>' then "&gt;"
    else if c == '"' then "&quot;"
    else if c == '\'' then "&apos;"
    else [c]
  }

  function XmlEscaped(text: string): string {
    if text == "" then "" else Named(text[0]) + XmlEscaped(text[1..])
  }

  lemma NameIsRead(text: string, at: nat, name: string, c: char)
    requires at + |name| + 2 <= |text| && text[at..at + |name| + 2] == "&" + name + ";"
    requires name != "" && (forall i :: 0 <= i < |name| ==> IsLetter(name[i])) && NamedEntity(name) == Some(c)
    ensures CharRefAt(text, at) == Some(CharRef([c], at + |name| + 2))
  {
    hide NamedEntity, NumberAt;
    var s := "&" + name + ";";
    forall i | 0 <= i < |s| ensures text[at + i] == s[i] {
      assert text[at..at + |s|][i] == text[at + i];
    }
    assert text[at] == '&' && text[at + 1 + |name|] == ';';
    forall i | 0 <= i < |name| ensures text[at + 1 + i] == name[i] {
      assert s[1 + i] == name[i];
    }
    assert !HoldsAt(text, at + 1, "#") by {
      assert IsLetter(name[0]) && text[at + 1..at + 2] == [name[0]];
    }
    assert SkipFrom(text, at + 1, IsLetter) == at + 1 + |name|;
    assert text[at + 1..at + 1 + |name|] == name;
  }

  lemma NamedIsRead(text: string, at: nat, c: char)
    requires at + |Named(c)| <= |text| && text[at..at + |Named(c)|] == Named(c)
    ensures ReplaceCharRefs(text, at) == [c] + ReplaceCharRefs(text, at + |Named(c)|)
  {
    hide ReplaceCharRefs, NamedEntity, CharRefAt;
    FiveNames();
    if c == '&' {
      NameIsRead(text, at, "amp", c);
      RefIsReplaced(text, at, [c], at + 5);
    } else if c == '<' {
      NameIsRead(text, at, "lt", c);
      RefIsReplaced(text, at, [c], at + 4);
    } else if c == '>' {
      NameIsRead(text, at, "gt", c);
      RefIsReplaced(text, at, [c], at + 4);
    } else if c == '"' {
      NameIsRead(text, at, "quot", c);
      RefIsReplaced(text, at, [c], at + 6);
    } else if c == '\'' {
      NameIsRead(text, at, "apos", c);
      RefIsReplaced(text, at, [c], at + 6);
    } else {
      assert text[at..at + 1][0] == c;
      PlainIsKept(text, at);
    }
  }

  lemma FiveNames()
    ensures NamedEntity("amp") == Some('&') && NamedEntity("lt") == Some('<') && NamedEntity("gt") == Some('>')
    ensures NamedEntity("quot") == Some('"') && NamedEntity("apos") == Some('\'')
  {
  }

  lemma RefsEnd(text: string, at: nat)
    requires at >= |text|
    ensures ReplaceCharRefs(text, at) == ""
  {
  }

  lemma PlainIsKept(text: string, at: nat)
    requires at < |text| && text[at] != '&'
    ensures ReplaceCharRefs(text, at) == [text[at]] + ReplaceCharRefs(text, at + 1)
  {
  }

  lemma RefIsReplaced(text: string, at: nat, c: string, end: nat)
    requires at < |text| && CharRefAt(text, at) == Some(CharRef(c, end)) && c != ""
    ensures ReplaceCharRefs(text, at) == c + ReplaceCharRefs(text, end)
  {
    hide CharRefAt;
  }

  /** Undoing XML's escapes is undoing them: any text comes back. */
  lemma {:induction false} XmlEscapesRead(before: string, text: string)
    ensures ReplaceCharRefs(before + XmlEscaped(text), |before|) == text
    decreases |text|
  {
    hide Named, ReplaceCharRefs;
    if text == "" {
      RefsEnd(before + "", |before|);
    } else {
      var rest, whole := XmlEscaped(text[1..]), before + XmlEscaped(text);
      assert whole == before + Named(text[0]) + rest;
      assert whole[|before|..|before| + |Named(text[0])|] == Named(text[0]);
      NamedIsRead(whole, |before|, text[0]);
      XmlEscapesRead(before + Named(text[0]), text[1..]);
    }
  }

  function DigitChar(v: nat): (c: char)
    requires v < 10
    ensures IsDigit(c) && IsHexDigit(c) && HexValue(c) == v
  {
    ('0' as int + v) as char
  }

  function Decimal(v: nat, n: nat): string {
    if n == 0 then "" else Decimal(v / 10, n - 1) + [DigitChar(v % 10)]
  }

  function Pow10(n: nat): (p: nat)
    ensures p > 0
  {
    if n == 0 then 1 else 10 * Pow10(n - 1)
  }

  lemma {:induction false} DecimalReadBack(v: nat, n: nat)
    requires v < Pow10(n) && v <= 0xffff_ffff
    ensures |Decimal(v, n)| == n && (forall i :: 0 <= i < n ==> IsDigit(Decimal(v, n)[i]) && IsHexDigit(Decimal(v, n)[i]))
    ensures FromRadix(Decimal(v, n), 10) == Some(v)
  {
    hide IsHexDigit, IsDigit, HexValue, DigitChar;
    if n > 0 {
      DecimalReadBack(v / 10, n - 1);
      var digits := Decimal(v, n);
      assert digits[..n - 1] == Decimal(v / 10, n - 1) && digits[n - 1] == DigitChar(v % 10);
    }
  }

  /** One character as a decimal character reference of seven digits. */
  function DecimalEntity(c: char): string {
    "&#" + Decimal(c as int, 7) + ";"
  }

  function DecimalEntities(text: string): string {
    if text == "" then "" else DecimalEntity(text[0]) + DecimalEntities(text[1..])
  }

  lemma SevenDigits(c: char)
    ensures c as int < Pow10(7) && |DecimalEntity(c)| == 10
  {
    assert Pow10(3) == 1000;
    assert Pow10(5) == 100000;
    assert Pow10(7) == 10000000;
    DecimalReadBack(c as int, 7);
  }

  lemma DecimalEntityAt(text: string, at: nat, c: char)
    requires at + 10 <= |text| && text[at..at + 10] == DecimalEntity(c)
    ensures CharRefAt(text, at) == Some(CharRef([c], at + 10))
  {
    hide Decimal, FromRadix, IsHexDigit, IsDigit, IsLetter, SkipFrom, NamedEntity;
    var e, digits := DecimalEntity(c), Decimal(c as int, 7);
    SevenDigits(c);
    DecimalReadBack(c as int, 7);
    assert forall i :: 0 <= i < 10 ==> text[at + i] == e[i];
    assert e[0] == '&' && e[1] == '#' && e[9] == ';';
    assert forall i :: 0 <= i < 7 ==> e[2 + i] == digits[i];
    assert text[at + 1..at + 2] == "#" && text[at + 2..at + 3] == [digits[0]];
    OtherSignsAreNoDigits();
    assert !HoldsAt(text, at + 2, "x") && !HoldsAt(text, at + 2, "X");
    assert SkipFrom(text, at + 2, IsDigit) == at + 9;
    assert text[at + 2..at + 9] == digits;
    assert IsScalar(c as int);
  }

  lemma OtherSignsAreNoDigits()
    ensures !IsDigit(';') && !IsDigit('x') && !IsDigit('X')
  {
  }

  /** So does every text written in decimal references. */
  lemma {:induction false} DecimalEntitiesRead(before: string, text: string)
    ensures ReplaceCharRefs(before + DecimalEntities(text), |before|) == text
    decreases |text|
  {
    hide DecimalEntity, CharRefAt;
    var whole := before + DecimalEntities(text);
    if text != "" {
      SevenDigits(text[0]);
      assert whole[|before|..|before| + 10] == DecimalEntity(text[0]);
      DecimalEntityAt(whole, |before|, text[0]);
      assert whole == (before + DecimalEntity(text[0])) + DecimalEntities(text[1..]);
      DecimalEntitiesRead(before + DecimalEntity(text[0]), text[1..]);
    }
  }

  lemma UnknownNameAt(text: string, name: string)
    requires name != "" && (forall i :: 0 <= i < |name| ==> 'A' <= name[i] <= 'Z' || 'a' <= name[i] <= 'z')
    requires name !in {"amp", "lt", "gt", "quot", "apos"} && text == "&" + name + ";"
    ensures CharRefAt(text, 0) == Some(CharRef("", |text|))
  {
    hide NumberAt;
    assert text[1..2] == [name[0]] && text[1..1 + |name|] == name;
    forall i | 1 <= i < 1 + |name| ensures IsLetter(text[i]) {
      assert text[i] == name[i - 1];
    }
    assert text[1 + |name|] == ';' && !IsLetter(';');
    assert SkipFrom(text, 1, IsLetter) == 1 + |name|;
  }

  lemma RefIsKept(text: string, end: nat)
    requires text != "" && CharRefAt(text, 0) == Some(CharRef("", end))
    ensures end <= |text| && ReplaceCharRefs(text, 0) == text[0..end] + ReplaceCharRefs(text, end)
  {
    hide CharRefAt;
  }

  /** A name that is none of the five is left as it is written. */
  lemma UnknownNameStays(name: string)
    requires name != "" && (forall i :: 0 <= i < |name| ==> 'A' <= name[i] <= 'Z' || 'a' <= name[i] <= 'z')
    requires name !in {"amp", "lt", "gt", "quot", "apos"}
    ensures ReplaceCharRefs("&" + name + ";", 0) == "&" + name + ";"
  {
    hide CharRefAt, ReplaceCharRefs;
    var text := "&" + name + ";";
    UnknownNameAt(text, name);
    RefIsKept(text, |text|);
    RefsEnd(text, |text|);
    assert text[0..|text|] == text;
  }

  // ---- Schemes, fragments and queries ---------------------------------------------------------

  /** RFC 3986 section 3.1: a letter, then letters, digits, `+`, `-` and `.`. */
  predicate IsScheme(text: string) {
    && text != "" && ('A' <= text[0] <= 'Z' || 'a' <= text[0] <= 'z')
    && forall i :: 0 <= i < |text| ==>
         'A' <= text[i] <= 'Z' || 'a' <= text[i] <= 'z' || '0' <= text[i] <= '9' || text[i] in {'+', '-', '.'}
  }

  lemma {:induction false} SchemeRuns(text: string, i: nat)
    ensures SchemeFrom(text, i) <==> exists k :: i <= k < |text| && text[k] == ':' && AllSchemeChars(text, i, k)
    decreases |text| - i
  {
    if i < |text| && text[i] != ':' {
      SchemeRuns(text, i + 1);
      if SchemeFrom(text, i) {
        var k :| i + 1 <= k < |text| && text[k] == ':' && AllSchemeChars(text, i + 1, k);
        assert AllSchemeChars(text, i, k);
      }
      if k :| i <= k < |text| && text[k] == ':' && AllSchemeChars(text, i, k) {
        assert AllSchemeChars(text, i + 1, k);
      }
    } else if i < |text| {
      assert AllSchemeChars(text, i, i);
    }
  }

  predicate AllSchemeChars(text: string, i: nat, k: nat)
    requires k <= |text|
  {
    forall j :: i <= j < k ==>
      'A' <= text[j] <= 'Z' || 'a' <= text[j] <= 'z' || '0' <= text[j] <= '9' || text[j] in {'+', '-', '.'}
  }

  /** A reference is to something outside the package exactly when it starts with a scheme. */
  lemma SchemesAreForeign(text: string)
    ensures HasScheme(text) <==> exists k :: 0 <= k < |text| && text[k] == ':' && IsScheme(text[..k])
  {
    SchemeRuns(text, 1);
    if HasScheme(text) {
      var k :| 1 <= k < |text| && text[k] == ':' && AllSchemeChars(text, 1, k);
      assert IsScheme(text[..k]);
    }
    if k :| 0 <= k < |text| && text[k] == ':' && IsScheme(text[..k]) {
      assert text[..k][0] == text[0];
      assert forall j :: 0 <= j < k ==> text[..k][j] == text[j];
      assert AllSchemeChars(text, 1, k);
    }
  }

  /** Characters that mean nothing but themselves. */
  predicate IsPlain(text: string) {
    '&' !in text && '#' !in text && '?' !in text && '%' !in text && ':' !in text
  }

  lemma PlainHasNoScheme(text: string, suffix: string)
    requires ':' !in text && (suffix != "" ==> suffix[0] in {'#', '?'})
    ensures !HasScheme(text + suffix)
  {
    var s := text + suffix;
    SchemesAreForeign(s);
    assert forall k :: 0 <= k < |text| ==> s[k] == text[k];
    forall k | 0 <= k < |s| && s[k] == ':' ensures !IsScheme(s[..k]) {
      assert s[..k][|text|] == suffix[0];
    }
  }

  lemma IndexAfter(text: string, suffix: string, c: char)
    requires c !in text
    ensures IndexFrom(text + suffix, 0, c) >= |text|
    ensures suffix != "" && suffix[0] == c ==> IndexFrom(text + suffix, 0, c) == |text|
    ensures suffix == "" ==> IndexFrom(text + suffix, 0, c) == |text|
  {
    assert forall k :: 0 <= k < |text| ==> (text + suffix)[k] == text[k];
    assert suffix != "" ==> (text + suffix)[|text|] == suffix[0];
  }

  /** A plain path is the path it spells; a fragment or a query behind it is dropped. */
  lemma PlainPath(text: string, suffix: string)
    requires IsPlain(text) && '&' !in suffix && (suffix != "" ==> suffix[0] in {'#', '?'})
    ensures PathOf(text + suffix) == Some(text)
  {
    hide EncodeAll, Unescape, ReplaceCharRefs, HasScheme;
    var reference := text + suffix;
    NoCharRefs(reference, 0);
    assert reference[0..] == reference;
    PlainHasNoScheme(text, suffix);
    IndexAfter(text, suffix, '#');
    var noFragment := reference[..IndexFrom(reference, 0, '#')];
    var middle := noFragment[|text|..];
    assert noFragment == text + middle;
    assert middle != "" ==> middle[0] == suffix[0];
    IndexAfter(text, middle, '?');
    assert noFragment[..IndexFrom(noFragment, 0, '?')] == text;
    NoPercentByte(text);
    UnescapePlain(EncodeAll(text));
    EncodedIsValid(text);
  }

  lemma {:induction false} CutEscape(bytes: seq<byte>)
    requires 0x25 !in bytes
    ensures Unescape(bytes + [0x25]) == None
  {
    var s := bytes + [0x25];
    if bytes != [] {
      assert bytes[0] in bytes;
      assert s[1..] == bytes[1..] + [0x25];
      CutEscape(bytes[1..]);
    }
  }

  lemma {:induction false} EncodeAppend(text: string, c: char)
    requires c as int < 0x80
    ensures EncodeAll(text + [c]) == EncodeAll(text) + [c as int]
  {
    if text == "" {
      assert [c][1..] == "";
    } else {
      assert (text + [c])[1..] == text[1..] + [c];
      EncodeAppend(text[1..], c);
    }
  }

  /** A path with a broken escape is taken as it is written. */
  lemma BrokenEscapeStays(text: string)
    requires IsPlain(text)
    ensures PathOf(text + "%") == Some(text + "%")
  {
    hide EncodeAll, Unescape, ReplaceCharRefs, HasScheme;
    var reference := text + "%";
    NoCharRefs(reference, 0);
    assert reference[0..] == reference;
    PlainHasNoScheme(reference, "");
    assert reference + "" == reference;
    assert IndexFrom(reference, 0, '#') == |reference| && reference[..|reference|] == reference;
    assert IndexFrom(reference, 0, '?') == |reference|;
    NoPercentByte(text);
    EncodeAppend(text, '%');
    CutEscape(EncodeAll(text));
  }

  // ---- Relative references --------------------------------------------------------------------

  lemma {:induction false} JoinAppend(a: seq<string>, b: seq<string>)
    requires a != [] && b != []
    ensures JoinSegments(a + b) == JoinSegments(a) + "/" + JoinSegments(b)
  {
    if |a| == 1 {
      assert (a + b)[1..] == b;
    } else {
      assert (a + b)[1..] == a[1..] + b;
      JoinAppend(a[1..], b);
    }
  }

  /** The segments of a part in a `_rels` directory. */
  lemma RelsSegments(dir: string, file: string)
    requires SlashFree(file)
    ensures Segments(dir + "/_rels/" + file) == Segments(dir) + ["_rels", file]
    ensures Segments("_rels/" + file) == ["_rels", file]
  {
    SegmentsJoin(dir);
    assert SlashFree("_rels");
    assert ["_rels", file][1..] == [file];
    assert JoinSegments(["_rels", file]) == "_rels/" + file;
    JoinAppend(Segments(dir), ["_rels", file]);
    assert dir + "/_rels/" + file == dir + "/" + ("_rels/" + file);
    SegmentsOfJoin(Segments(dir) + ["_rels", file]);
    SegmentsOfJoin(["_rels", file]);
  }

  /** `k` times one directory up. */
  function Ups(k: nat): string {
    if k == 0 then "" else "../" + Ups(k - 1)
  }

  lemma SegmentsCons(head: string, rest: string)
    requires SlashFree(head)
    ensures Segments(head + "/" + rest) == [head] + Segments(rest)
  {
    SegmentsJoin(rest);
    var parts := Segments(rest);
    assert ([head] + parts)[1..] == parts;
    SegmentsOfJoin([head] + parts);
  }

  lemma {:induction false} UpsSegments(k: nat, name: string)
    ensures Segments(Ups(k) + name) == seq(k, _ => "..") + Segments(name)
  {
    hide Segments;
    if k == 0 {
      assert Ups(0) + name == name;
    } else {
      var rest := Ups(k - 1) + name;
      assert Ups(k) + name == ".." + "/" + rest;
      SegmentsCons("..", rest);
      UpsSegments(k - 1, name);
      assert seq(k, _ => "..") == [".."] + seq(k - 1, _ => "..");
    }
  }

  lemma {:induction false} ClimbThenDown(base: seq<string>, k: nat, down: seq<string>)
    requires AllProper(down)
    ensures Walk(base, seq(k, _ => "..") + down) == base[..if k <= |base| then |base| - k else 0] + down
    decreases k
  {
    if k == 0 {
      assert seq(0, _ => "..") + down == down && base[..|base|] == base;
      WalkKeepsProper(base, down);
    } else {
      var segments := seq(k, _ => "..") + down;
      assert segments[0] == ".." && segments[1..] == seq(k - 1, _ => "..") + down;
      var next := if base == [] then [] else base[..|base| - 1];
      ClimbThenDown(next, k - 1, down);
    }
  }

  lemma {:induction false} UpsArePlain(k: nat)
    ensures IsPlain(Ups(k))
  {
    if k > 0 {
      UpsArePlain(k - 1);
    }
  }

  /**
   A relative reference in the relationships of a part leads from that part's directory, up once
   for each `..` and no further than the root.
   */
  lemma RelativeReference(part: string, base: seq<string>, k: nat, name: string)
    requires BaseOf(part) == base && name != "" && AllProper(Segments(name)) && IsPlain(name)
    ensures Resolve(part, Ups(k) + name) == Some(JoinSegments(base[..if k <= |base| then |base| - k else 0] + Segments(name)))
  {
    hide PathOf, BaseOf;
    var reference := Ups(k) + name;
    UpsArePlain(k);
    assert IsPlain(reference);
    PlainPath(reference, "");
    assert reference + "" == reference;
    assert !IsAbsolute(reference) by { FirstIsNoSlash(k, name); }
    UpsSegments(k, name);
    ClimbThenDown(base, k, Segments(name));
  }

  lemma FirstIsNoSlash(k: nat, name: string)
    requires name != "" && AllProper(Segments(name))
    ensures !IsAbsolute(Ups(k) + name)
  {
    if k == 0 {
      assert Ups(0) + name == name;
      assert IsProper(Segments(name)[0]);
    }
  }

  /** The directories relative references start from, written out. */
  lemma BasesOf(dir: string, file: string)
    requires SlashFree(file)
    ensures BaseOf(dir + "/_rels/" + file) == Segments(dir)
    ensures BaseOf("_rels/" + file) == [] && BaseOf(file) == []
  {
    RelsSegments(dir, file);
    assert (Segments(dir) + ["_rels", file])[..|Segments(dir)|] == Segments(dir);
    assert JoinSegments([file]) == file;
    SegmentsOfJoin([file]);
  }

  /** The usual case: a name beside the part, and one from the package's root. */
  lemma SiblingReference(dir: string, file: string, name: string)
    requires SlashFree(file) && name != "" && AllProper(Segments(name)) && IsPlain(name)
    ensures Resolve(dir + "/_rels/" + file, name) == Some(dir + "/" + name)
    ensures Resolve("_rels/" + file, name) == Some(name) && Resolve(file, name) == Some(name)
  {
    hide Resolve, BaseOf;
    BasesOf(dir, file);
    assert Ups(0) + name == name;
    RelativeReference(dir + "/_rels/" + file, Segments(dir), 0, name);
    RelativeReference("_rels/" + file, [], 0, name);
    RelativeReference(file, [], 0, name);
    var base := Segments(dir);
    assert base[..|base|] == base && [] + Segments(name) == Segments(name);
    JoinAppend(base, Segments(name));
    SegmentsJoin(dir);
    SegmentsJoin(name);
  }

  /** So a removed part is pointed at from beside it, by its name. */
  lemma PointsAtSibling(dir: string, file: string, name: string, removed: set<string>)
    requires SlashFree(file) && name != "" && AllProper(Segments(name)) && IsPlain(name)
    ensures PointsInto(dir + "/_rels/" + file, name, removed) <==> dir + "/" + name in removed
    ensures PointsInto("_rels/" + file, name, removed) <==> name in removed
  {
    hide Resolve;
    SiblingReference(dir, file, name);
  }
}
