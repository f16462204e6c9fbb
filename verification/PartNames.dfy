/** References between the parts of a package, and the entry names they resolve to (files/strip3mf.rs). */
module PartNames {
  import opened Words
  import opened Wrappers
  import opened Utf8
  import opened Texts
  import LineSinks

  // ---- The attributes that can name a part ----------------------------------------------------

  predicate IsWordChar(c: char) {
    IsDigit(c) || IsLetter(c) || c == '_'
  }

  function AttributeNameAt(text: string, i: nat): (n: nat)
    ensures i + n <= |text| || n == 0
  {
    if HoldsAt(text, i, "Target") then 6 else if HoldsAt(text, i, "PartName") then 8 else 0
  }

  datatype Reference = Reference(value: string, end: nat)

  /** The pattern `\b(?:Target|PartName)\s*=\s*(?:"([^"]*)"|'([^']*)')`, anchored at `i`. */
  function ReferenceAt(text: string, i: nat): (r: Option<Reference>)
    ensures r.Some? ==> i < r.value.end <= |text|
  {
    var n := AttributeNameAt(text, i);
    if n == 0 || (0 < i <= |text| && IsWordChar(text[i - 1])) then None else ValueAt(text, i + n)
  }

  function ValueAt(text: string, at: nat): (r: Option<Reference>)
    requires at <= |text|
    ensures r.Some? ==> at < r.value.end <= |text|
  {
    var equals := SkipFrom(text, at, IsWhitespace);
    if equals == |text| || text[equals] != '=' then None else QuotedAt(text, SkipFrom(text, equals + 1, IsWhitespace))
  }

  function QuotedAt(text: string, quote: nat): (r: Option<Reference>)
    requires quote <= |text|
    ensures r.Some? ==> quote < r.value.end <= |text|
  {
    if quote == |text| || (text[quote] != '"' && text[quote] != '\'') then None
    else
      var close := IndexFrom(text, quote + 1, text[quote]);
      if close == |text| then None else Some(Reference(text[quote + 1..close], close + 1))
  }

  /** The values of every match, leftmost first, matches not overlapping. */
  function References(text: string, from: nat): seq<string>
    decreases |text| - from
  {
    if from >= |text| then []
    else
      var r := ReferenceAt(text, from);
      if r.None? then References(text, from + 1) else [r.value.value] + References(text, r.value.end)
  }

  // ---- Dropping a leading mark changes no reference -------------------------------------------

  lemma {:induction false} SkipShift(c: char, t: string, at: nat, p: char -> bool)
    requires at <= |t|
    ensures SkipFrom([c] + t, at + 1, p) == SkipFrom(t, at, p) + 1
    decreases |t| - at
  {
    if at < |t| {
      SkipShift(c, t, at + 1, p);
    }
  }

  lemma {:induction false} IndexShift(c: char, t: string, at: nat, d: char)
    requires at <= |t|
    ensures IndexFrom([c] + t, at + 1, d) == IndexFrom(t, at, d) + 1
    decreases |t| - at
  {
    if at < |t| {
      IndexShift(c, t, at + 1, d);
    }
  }

  lemma HoldsShift(c: char, t: string, at: nat, word: string)
    ensures HoldsAt([c] + t, at + 1, word) <==> HoldsAt(t, at, word)
  {
    if at + |word| <= |t| {
      assert ([c] + t)[at + 1..at + 1 + |word|] == t[at..at + |word|];
    }
  }

  lemma QuotedShift(c: char, t: string, quote: nat)
    requires quote <= |t|
    ensures QuotedAt([c] + t, quote + 1)
            == match QuotedAt(t, quote) case None => None case Some(r) => Some(Reference(r.value, r.end + 1))
  {
    hide IndexFrom;
    var s := [c] + t;
    if quote < |t| && (t[quote] == '"' || t[quote] == '\'') {
      assert s[quote + 1] == t[quote];
      IndexShift(c, t, quote + 1, t[quote]);
      var close := IndexFrom(t, quote + 1, t[quote]);
      if close < |t| {
        assert s[quote + 2..close + 1] == t[quote + 1..close];
      }
    }
  }

  lemma ValueShift(c: char, t: string, at: nat)
    requires at <= |t|
    ensures ValueAt([c] + t, at + 1)
            == match ValueAt(t, at) case None => None case Some(r) => Some(Reference(r.value, r.end + 1))
  {
    hide QuotedAt, SkipFrom, IsWhitespace;
    SkipShift(c, t, at, IsWhitespace);
    var equals := SkipFrom(t, at, IsWhitespace);
    if equals < |t| && t[equals] == '=' {
      SkipShift(c, t, equals + 1, IsWhitespace);
      QuotedShift(c, t, SkipFrom(t, equals + 1, IsWhitespace));
    }
  }

  lemma ReferenceShift(c: char, t: string, i: nat)
    requires i <= |t| && !IsWordChar(c)
    ensures ReferenceAt([c] + t, i + 1)
            == match ReferenceAt(t, i) case None => None case Some(r) => Some(Reference(r.value, r.end + 1))
  {
    hide ValueAt, HoldsAt, IsWordChar;
    HoldsShift(c, t, i, "Target");
    HoldsShift(c, t, i, "PartName");
    if AttributeNameAt(t, i) > 0 {
      ValueShift(c, t, i + AttributeNameAt(t, i));
    }
  }

  lemma {:induction false} ReferencesShift(c: char, t: string, from: nat)
    requires !IsWordChar(c)
    ensures References([c] + t, from + 1) == References(t, from)
    decreases |t| - from
  {
    hide ReferenceAt, IsWordChar;
    if from < |t| {
      ReferenceShift(c, t, from);
      if ReferenceAt(t, from).None? {
        ReferencesShift(c, t, from + 1);
      } else {
        ReferencesShift(c, t, ReferenceAt(t, from).value.end);
      }
    }
  }

  lemma NoReferenceAtMark(text: string)
    requires text != "" && text[0] == BOM
    ensures References(text, 0) == References(text, 1)
  {
    hide ValueAt;
    assert |text| >= 6 ==> text[0..6][0] == text[0];
    assert |text| >= 8 ==> text[0..8][0] == text[0];
    assert AttributeNameAt(text, 0) == 0;
  }

  /** What the decoder drops at the front of a part holds no reference and hides none. */
  lemma MarkHidesNoReference(text: string)
    ensures References(StripBom(text), 0) == References(text, 0)
  {
    hide References;
    if text != "" && text[0] == BOM {
      assert text == [BOM] + text[1..];
      NoReferenceAtMark(text);
      ReferencesShift(BOM, text[1..], 0);
    }
  }

  // ---- What counts as a reference -------------------------------------------------------------

  predicate AllSpace(text: string) {
    forall i :: 0 <= i < |text| ==> IsWhitespace(text[i])
  }

  /** One of the two attributes, written with any white space and either quote. */
  ghost predicate IsAttribute(name: string, w1: string, w2: string, q: char, v: string) {
    name in {"Target", "PartName"} && AllSpace(w1) && AllSpace(w2) && q in {'"', '\''} && q !in v
  }

  function Attribute(name: string, w1: string, w2: string, q: char, v: string): string {
    name + w1 + "=" + w2 + [q] + v + [q]
  }

  /** No letter, digit or underscore in front: a name of its own, not the end of another. */
  predicate StartsWord(text: string, i: nat)
    requires i <= |text|
  {
    i > 0 ==> !('0' <= text[i - 1] <= '9' || 'A' <= text[i - 1] <= 'Z' || 'a' <= text[i - 1] <= 'z' || text[i - 1] == '_')
  }

  lemma PiecesAt(text: string, i: nat, name: string, w1: string, w2: string, q: char, v: string)
    requires i + |Attribute(name, w1, w2, q, v)| <= |text|
    requires text[i..i + |Attribute(name, w1, w2, q, v)|] == Attribute(name, w1, w2, q, v)
    ensures var a := i + |name|;
            var b := a + |w1|;
            var c := b + 1 + |w2|;
            var d := c + 1 + |v|;
            && text[i..a] == name && text[a..b] == w1 && text[b] == '=' && text[b + 1..c] == w2 && text[c] == q
            && text[c + 1..d] == v && text[d] == q && d + 1 == i + |Attribute(name, w1, w2, q, v)|
  {
    var s := Attribute(name, w1, w2, q, v);
    assert text == text[..i] + s + text[i + |s|..];
    assert text == text[..i] + (name + (w1 + ("=" + (w2 + ([q] + (v + ([q] + text[i + |s|..]))))))) ;
  }

  lemma SkipTo(text: string, at: nat, w: string)
    requires at + |w| < |text| && text[at..at + |w|] == w && AllSpace(w) && !IsWhitespace(text[at + |w|])
    ensures SkipFrom(text, at, IsWhitespace) == at + |w|
  {
    hide IsWhitespace;
    forall k | at <= k < at + |w| ensures IsWhitespace(text[k]) {
      assert text[k] == w[k - at];
    }
  }

  lemma NotSpace()
    ensures !IsWhitespace('=') && !IsWhitespace('"') && !IsWhitespace('\'') && !IsWhitespace('T') && !IsWhitespace('P')
  {
  }

  lemma NameAt(text: string, i: nat, name: string)
    requires name in {"Target", "PartName"} && HoldsAt(text, i, name)
    ensures AttributeNameAt(text, i) == |name|
  {
    assert text[i] == name[0];
    assert HoldsAt(text, i, "Target") ==> text[i..i + 6][0] == 'T';
  }

  lemma QuotedIsMatched(text: string, quote: nat, q: char, v: string)
    requires quote + 2 + |v| <= |text| && q in {'"', '\''} && q !in v
    requires text[quote] == q && text[quote + 1..quote + 1 + |v|] == v && text[quote + 1 + |v|] == q
    ensures QuotedAt(text, quote) == Some(Reference(v, quote + 2 + |v|))
  {
    forall k | quote < k < quote + 1 + |v| ensures text[k] != q {
      assert text[k] == v[k - quote - 1];
    }
    assert IndexFrom(text, quote + 1, q) == quote + 1 + |v|;
  }

  lemma ValueIsMatched(text: string, at: nat, w1: string, w2: string, q: char, v: string)
    requires AllSpace(w1) && AllSpace(w2) && q in {'"', '\''} && q !in v
    requires at + |w1| + |w2| + |v| + 3 <= |text|
    requires var b := at + |w1|;
             var c := b + 1 + |w2|;
             && text[at..b] == w1 && text[b] == '=' && text[b + 1..c] == w2 && text[c] == q
             && text[c + 1..c + 1 + |v|] == v && text[c + 1 + |v|] == q
    ensures ValueAt(text, at) == Some(Reference(v, at + |w1| + |w2| + |v| + 3))
  {
    hide IsWhitespace, AllSpace, QuotedAt;
    NotSpace();
    SkipTo(text, at, w1);
    SkipTo(text, at + |w1| + 1, w2);
    QuotedIsMatched(text, at + |w1| + 1 + |w2|, q, v);
  }

  /** Wherever such an attribute stands on its own, it is matched, whole and with its value. */
  lemma AttributeIsMatched(text: string, i: nat, name: string, w1: string, w2: string, q: char, v: string)
    requires IsAttribute(name, w1, w2, q, v) && i <= |text| && StartsWord(text, i)
    requires var s := Attribute(name, w1, w2, q, v); i + |s| <= |text| && text[i..i + |s|] == s
    ensures ReferenceAt(text, i) == Some(Reference(v, i + |Attribute(name, w1, w2, q, v)|))
  {
    hide AttributeNameAt, ValueAt, AllSpace;
    PiecesAt(text, i, name, w1, w2, q, v);
    NameAt(text, i, name);
    ValueIsMatched(text, i + |name|, w1, w2, q, v);
  }

  lemma MatchedQuoted(text: string, quote: nat)
    requires quote <= |text| && QuotedAt(text, quote).Some?
    ensures var r := QuotedAt(text, quote).value;
            && quote + 2 + |r.value| == r.end <= |text| && text[quote] in {'"', '\''} && text[quote] !in r.value
            && text[quote..r.end] == [text[quote]] + r.value + [text[quote]]
  {
  }

  lemma SkippedIsSpace(text: string, at: nat)
    requires at <= |text|
    ensures AllSpace(text[at..SkipFrom(text, at, IsWhitespace)])
  {
    hide IsWhitespace;
  }

  lemma MatchedValue(text: string, at: nat) returns (w1: string, w2: string, q: char)
    requires at <= |text| && ValueAt(text, at).Some?
    ensures var r := ValueAt(text, at).value;
            && AllSpace(w1) && AllSpace(w2) && q in {'"', '\''} && q !in r.value
            && at <= r.end <= |text| && text[at..r.end] == w1 + "=" + w2 + [q] + r.value + [q]
  {
    hide IsWhitespace, AllSpace, QuotedAt;
    var equals := SkipFrom(text, at, IsWhitespace);
    var quote := SkipFrom(text, equals + 1, IsWhitespace);
    SkippedIsSpace(text, at);
    SkippedIsSpace(text, equals + 1);
    MatchedQuoted(text, quote);
    w1, w2, q := text[at..equals], text[equals + 1..quote], text[quote];
    var r := QuotedAt(text, quote).value;
    FourSpans(text, at, equals, quote, r.end);
    ThreeJoined(text[at..equals] + "=" + text[equals + 1..quote], [q], r.value, [q]);
  }

  lemma FourSpans(text: string, at: nat, equals: nat, quote: nat, end: nat)
    requires at <= equals < quote <= end <= |text| && text[equals] == '='
    ensures text[at..end] == text[at..equals] + "=" + text[equals + 1..quote] + text[quote..end]
  {
  }

  lemma ThreeJoined(front: string, a: string, b: string, c: string)
    ensures front + (a + b + c) == front + a + b + c
  {
  }

  /** Whatever is matched is such an attribute. */
  lemma MatchIsAttribute(text: string, i: nat) returns (name: string, w1: string, w2: string, q: char)
    requires ReferenceAt(text, i).Some?
    ensures var r := ReferenceAt(text, i).value;
            && IsAttribute(name, w1, w2, q, r.value) && i <= |text| && StartsWord(text, i)
            && r.end <= |text| && text[i..r.end] == Attribute(name, w1, w2, q, r.value)
  {
    hide ValueAt, AllSpace;
    var r, at := ReferenceAt(text, i).value, i + AttributeNameAt(text, i);
    name := text[i..at];
    w1, w2, q := MatchedValue(text, at);
    assert text[i..r.end] == name + text[at..r.end];
  }

  /** The search misses none: an attribute is found, or lies inside one that is found before it. */
  lemma {:induction false} EveryMatchIsSeen(text: string, from: nat, i: nat)
    requires from <= i && ReferenceAt(text, i).Some?
    ensures ReferenceAt(text, i).value.value in References(text, from)
            || exists j :: from <= j < i && ReferenceAt(text, j).Some? && i < ReferenceAt(text, j).value.end
    decreases |text| - from
  {
    hide ReferenceAt;
    ReferenceIsInside(text, i);
    var r := ReferenceAt(text, from);
    if from < i {
      if r.None? {
        EveryMatchIsSeen(text, from + 1, i);
      } else if r.value.end <= i {
        ReferenceIsInside(text, from);
        EveryMatchIsSeen(text, r.value.end, i);
      }
    }
  }

  lemma ReferenceIsInside(text: string, i: nat)
    requires ReferenceAt(text, i).Some?
    ensures i < ReferenceAt(text, i).value.end <= |text|
  {
  }

  /** And makes none up: each is the value of an attribute that stands in the text. */
  lemma {:induction false} SeenIsMatched(text: string, from: nat, v: string) returns (i: nat)
    requires v in References(text, from)
    ensures from <= i < |text| && ReferenceAt(text, i).Some? && ReferenceAt(text, i).value.value == v
    decreases |text| - from
  {
    hide ReferenceAt;
    var r := ReferenceAt(text, from);
    if r.None? {
      i := SeenIsMatched(text, from + 1, v);
    } else if r.value.value == v {
      i := from;
    } else {
      ReferenceIsInside(text, from);
      i := SeenIsMatched(text, r.value.end, v);
    }
  }

  lemma {:induction false} NoneUntil(text: string, from: nat, until: nat)
    requires from <= until <= |text| && forall i :: from <= i < until ==> ReferenceAt(text, i).None?
    ensures References(text, from) == References(text, until)
    decreases until - from
  {
    hide ReferenceAt;
    if from < until {
      NoneUntil(text, from + 1, until);
    }
  }

  lemma LettersOfWord(text: string, i: nat, word: string)
    requires HoldsAt(text, i, word)
    ensures i + |word| <= |text| && forall k :: i <= k < i + |word| ==> text[k] == word[k - i]
  {
    assert forall j :: 0 <= j < |word| ==> text[i..i + |word|][j] == word[j];
  }

  /** Neither name has a capital it could start with further in. */
  lemma NotAcross(text: string, i: nat, at: nat)
    requires AttributeNameAt(text, i) > 0 && i < at < |text| && text[at] in {'T', 'P'}
    ensures i + AttributeNameAt(text, i) <= at
  {
    var word := if HoldsAt(text, i, "Target") then "Target" else "PartName";
    LettersOfWord(text, i, word);
    assert forall j :: 0 < j < |word| ==> word[j] !in {'T', 'P'};
  }

  lemma NoneInFront(before: string, name: string, rest: string, i: nat)
    requires '=' !in before && name in {"Target", "PartName"} && i < |before|
    ensures ReferenceAt(before + name + rest, i).None?
  {
    hide IsWhitespace, QuotedAt, IsWordChar;
    var text := before + name + rest;
    var n := AttributeNameAt(text, i);
    NotSpace();
    assert text[|before|] == name[0];
    if n > 0 {
      NotAcross(text, i, |before|);
      assert SkipFrom(text, i + n, IsWhitespace) <= |before|;
    }
  }

  /**
   An attribute that names a removed part is seen whatever is around it, whatever its white space,
   quotes and element.
   */
  lemma DanglingIsSeen(
    part: string, before: string, name: string, w1: string, w2: string, q: char, v: string, after: string, removed: set<string>)
    requires '=' !in before && StartsWord(before, |before|) && IsAttribute(name, w1, w2, q, v)
    requires PointsInto(part, v, removed)
    ensures Dangles(part, before + Attribute(name, w1, w2, q, v) + after, removed)
  {
    hide ReferenceAt, Resolve, Attribute;
    var s := Attribute(name, w1, w2, q, v);
    var text := before + s + after;
    var rest := w1 + "=" + w2 + [q] + v + [q] + after;
    assert text == before + name + rest by { NameInFront(name, w1, w2, q, v, before, after); }
    forall i | 0 <= i < |before| ensures ReferenceAt(text, i).None? {
      NoneInFront(before, name, rest, i);
    }
    NoneUntil(text, 0, |before|);
    assert text[|before|..|before| + |s|] == s;
    assert StartsWord(text, |before|);
    AttributeIsMatched(text, |before|, name, w1, w2, q, v);
    ReferenceIsInside(text, |before|);
    assert References(text, 0)[0] == v;
  }

  lemma NameInFront(name: string, w1: string, w2: string, q: char, v: string, before: string, after: string)
    ensures before + Attribute(name, w1, w2, q, v) + after == before + name + (w1 + "=" + w2 + [q] + v + [q] + after)
  {
    assert Attribute(name, w1, w2, q, v) == name + (w1 + "=" + w2 + [q] + v + [q]);
  }

  /** A text with neither attribute names nothing. */
  lemma NoAttributeNoReference(part: string, text: string, removed: set<string>)
    requires forall i :: 0 <= i < |text| ==> !HoldsAt(text, i, "Target") && !HoldsAt(text, i, "PartName")
    ensures References(text, 0) == [] && !Dangles(part, text, removed)
  {
    hide ValueAt, Resolve;
    forall i | 0 <= i < |text| ensures ReferenceAt(text, i).None? {
    }
    NoneUntil(text, 0, |text|);
  }

  // ---- Character references -------------------------------------------------------------------

  function NamedEntity(name: string): Option<char> {
    if name == "amp" then Some('&')
    else if name == "lt" then Some('<')
    else if name == "gt" then Some('>')
    else if name == "quot" then Some('"')
    else if name == "apos" then Some('\'')
    else None
  }

  /** The number digits spell in a base; `None` where it leaves 32 bits. */
  function FromRadix(digits: string, radix: nat): Option<nat>
    requires (radix == 10 || radix == 16) && forall i :: 0 <= i < |digits| ==> IsHexDigit(digits[i])
  {
    if digits == "" then Some(0)
    else
      var before := FromRadix(digits[..|digits| - 1], radix);
      if before.None? then None
      else
        var value := (if radix == 10 then 10 * before.value else 16 * before.value) + HexValue(digits[|digits| - 1]);
        if value > 0xffff_ffff then None else Some(value)
  }

  function CharFromU32(value: nat): Option<char> {
    if IsScalar(value) then Some(value as char) else None
  }

  datatype CharRef = CharRef(text: string, end: nat)

  function NumberAt(text: string, start: nat, p: char -> bool, radix: nat): (r: Option<CharRef>)
    requires start <= |text| && (radix == 10 || radix == 16) && forall c :: p(c) ==> IsHexDigit(c)
    ensures r.Some? ==> start < r.value.end <= |text|
  {
    var end := SkipFrom(text, start, p);
    if end == start || end == |text| || text[end] != ';' then None
    else
      var value := FromRadix(text[start..end], radix);
      var c := if value.Some? then CharFromU32(value.value) else None;
      Some(CharRef(if c.Some? then [c.value] else "", end + 1))
  }

  /**
   The pattern `&(?:#([0-9]+)|#[xX]([0-9a-fA-F]+)|([a-zA-Z]+));` at `i`, and what replaces it; an
   empty text means that it stays as it is written.
   */
  function CharRefAt(text: string, i: nat): (r: Option<CharRef>)
    ensures r.Some? ==> i < r.value.end <= |text|
  {
    if i >= |text| || text[i] != '&' then None
    else if HoldsAt(text, i + 1, "#") then
      if HoldsAt(text, i + 2, "x") || HoldsAt(text, i + 2, "X") then NumberAt(text, i + 3, IsHexDigit, 16)
      else NumberAt(text, i + 2, IsDigit, 10)
    else
      var end := SkipFrom(text, i + 1, IsLetter);
      if end == i + 1 || end == |text| || text[end] != ';' then None
      else
        var c := NamedEntity(text[i + 1..end]);
        Some(CharRef(if c.Some? then [c.value] else "", end + 1))
  }

  function ReplaceCharRefs(text: string, from: nat): string
    decreases |text| - from
  {
    if from >= |text| then ""
    else
      var r := CharRefAt(text, from);
      if r.None? then [text[from]] + ReplaceCharRefs(text, from + 1)
      else (if r.value.text == "" then text[from..r.value.end] else r.value.text) + ReplaceCharRefs(text, r.value.end)
  }

  // ---- URIs -----------------------------------------------------------------------------------

  predicate SchemeFrom(text: string, i: nat)
    decreases |text| - i
  {
    i < |text|
    && (text[i] == ':' || ((IsLetter(text[i]) || IsDigit(text[i]) || text[i] in "+.-") && SchemeFrom(text, i + 1)))
  }

  predicate HasScheme(text: string) {
    text != "" && IsLetter(text[0]) && SchemeFrom(text, 1)
  }

  /** Percent-escapes resolved; `None` for a bare `%`. */
  function Unescape(bytes: seq<byte>): Option<seq<byte>> {
    if bytes == [] then Some([])
    else if bytes[0] != 0x25 then
      var rest := Unescape(bytes[1..]);
      if rest.None? then None else Some([bytes[0]] + rest.value)
    else if |bytes| < 3 || !IsHexDigit(bytes[1] as char) || !IsHexDigit(bytes[2] as char) then None
    else
      var rest := Unescape(bytes[3..]);
      if rest.None? then None else Some([16 * HexValue(bytes[1] as char) + HexValue(bytes[2] as char)] + rest.value)
  }

  function DecodeUriComponent(text: string): Option<string> {
    var bytes := Unescape(EncodeAll(text));
    if bytes.None? then None
    else
      match LineSinks.FromUtf8(bytes.value)
      case Valid(decoded) => Some(decoded)
      case Invalid(_, _) => None
  }

  // ---- Part names -----------------------------------------------------------------------------

  function Segments(name: string): (parts: seq<string>)
    ensures parts != []
  {
    var k := IndexFrom(name, 0, '/');
    if k == |name| then [name] else [name[..k]] + Segments(name[k + 1..])
  }

  function JoinSegments(parts: seq<string>): string {
    if parts == [] then "" else if |parts| == 1 then parts[0] else parts[0] + "/" + JoinSegments(parts[1..])
  }

  /** Relative segments walked from a base directory; climbing stops at the root. */
  function Walk(base: seq<string>, segments: seq<string>): seq<string>
    decreases |segments|
  {
    if segments == [] then base
    else
      var s, rest := segments[0], segments[1..];
      if s == "" || s == "." then Walk(base, rest)
      else if s == ".." then Walk(if base == [] then [] else base[..|base| - 1], rest)
      else Walk(base + [s], rest)
  }

  predicate IsAbsolute(text: string) {
    text != "" && text[0] == '/'
  }

  /** The directory a part's relationships are relative to: its own, less the `_rels` segment. */
  function BaseOf(part: string): seq<string> {
    var parts := Segments(part);
    if |parts| < 2 then [] else parts[..|parts| - 2]
  }

  /** What is left of a reference once it is a path: no entities, fragment, query or escapes. */
  function PathOf(reference: string): Option<string> {
    var literal := ReplaceCharRefs(reference, 0);
    if HasScheme(literal) then None
    else
      var noFragment := literal[..IndexFrom(literal, 0, '#')];
      var path := noFragment[..IndexFrom(noFragment, 0, '?')];
      var decoded := DecodeUriComponent(path);
      Some(if decoded.Some? then decoded.value else path)
  }

  /** The entry name a reference in `part` names, or `None` for something outside the package. */
  function Resolve(part: string, reference: string): Option<string> {
    var path := PathOf(reference);
    if path.None? then None
    else
      var base := if IsAbsolute(path.value) then [] else BaseOf(part);
      var relative := if IsAbsolute(path.value) then path.value[1..] else path.value;
      Some(JoinSegments(Walk(base, Segments(relative))))
  }

  predicate PointsInto(part: string, reference: string, removed: set<string>) {
    var name := Resolve(part, reference);
    name.Some? && name.value in removed
  }

  /** Some reference in `text` names a removed part. */
  ghost predicate Dangles(part: string, text: string, removed: set<string>) {
    exists i :: 0 <= i < |References(text, 0)| && PointsInto(part, References(text, 0)[i], removed)
  }

  // ---- The loops ------------------------------------------------------------------------------

  function UnescapeAfter(out: seq<byte>, rest: seq<byte>): Option<seq<byte>> {
    var more := Unescape(rest);
    if more.None? then None else Some(out + more.value)
  }

  lemma UnescapeStep(out: seq<byte>, rest: seq<byte>)
    requires rest != []
    ensures rest[0] != 0x25 ==> UnescapeAfter(out, rest) == UnescapeAfter(out + [rest[0]], rest[1..])
    ensures rest[0] == 0x25 && |rest| >= 3 && IsHexDigit(rest[1] as char) && IsHexDigit(rest[2] as char) ==>
              UnescapeAfter(out, rest)
              == UnescapeAfter(out + [16 * HexValue(rest[1] as char) + HexValue(rest[2] as char)], rest[3..])
    ensures rest[0] == 0x25 && !(|rest| >= 3 && IsHexDigit(rest[1] as char) && IsHexDigit(rest[2] as char)) ==>
              UnescapeAfter(out, rest).None?
  {
    hide IsHexDigit, HexValue;
    if rest[0] != 0x25 {
      OneMore(out, rest[0], Unescape(rest[1..]));
    } else if |rest| >= 3 && IsHexDigit(rest[1] as char) && IsHexDigit(rest[2] as char) {
      OneMore(out, 16 * HexValue(rest[1] as char) + HexValue(rest[2] as char), Unescape(rest[3..]));
    }
  }

  lemma OneMore(out: seq<byte>, b: byte, rest: Option<seq<byte>>)
    ensures rest.Some? ==> out + ([b] + rest.value) == out + [b] + rest.value
  {
  }

  method UnescapeBytes(bytes: seq<byte>) returns (r: Option<seq<byte>>)
    ensures r == Unescape(bytes)
  {
    hide Unescape, IsHexDigit, HexValue;
    var out: seq<byte> := [];
    var at := 0;
    assert bytes[0..] == bytes;
    UnescapeStart(bytes);
    while at < |bytes|
      invariant at <= |bytes| && Unescape(bytes) == UnescapeAfter(out, bytes[at..])
    {
      UnescapeStep(out, bytes[at..]);
      if bytes[at] == 0x25 {
        if at + 3 > |bytes| || !IsHexDigit(bytes[at + 1] as char) || !IsHexDigit(bytes[at + 2] as char) {
          return None;
        }
        assert bytes[at..][3..] == bytes[at + 3..];
        out := out + [16 * HexValue(bytes[at + 1] as char) + HexValue(bytes[at + 2] as char)];
        at := at + 3;
      } else {
        assert bytes[at..][1..] == bytes[at + 1..];
        out := out + [bytes[at]];
        at := at + 1;
      }
    }
    assert bytes[at..] == [];
    UnescapeEnd(out);
    return Some(out);
  }

  lemma UnescapeStart(bytes: seq<byte>)
    ensures UnescapeAfter([], bytes) == Unescape(bytes)
  {
    hide Unescape;
    if Unescape(bytes).Some? {
      assert [] + Unescape(bytes).value == Unescape(bytes).value;
    }
  }

  lemma UnescapeEnd(out: seq<byte>)
    ensures UnescapeAfter(out, []) == Some(out)
  {
    assert out + [] == out;
  }

  /** The segment loop, pushing and popping. */
  method ResolvePartName(part: string, reference: string) returns (name: Option<string>)
    ensures name == Resolve(part, reference)
  {
    hide Unescape, ReplaceCharRefs, EncodeAll, Segments, LineSinks.FromUtf8;
    var literal := ReplaceCharRefs(reference, 0);
    if HasScheme(literal) {
      return None;
    }
    var noFragment := literal[..IndexFrom(literal, 0, '#')];
    var path := noFragment[..IndexFrom(noFragment, 0, '?')];
    var bytes := UnescapeBytes(EncodeAll(path));
    var decoded := path;
    if bytes.Some? {
      var text := LineSinks.FromUtf8(bytes.value);
      if text.Valid? {
        decoded := text.text;
      }
    }
    assert PathOf(reference) == Some(decoded);
    var base := if IsAbsolute(decoded) then [] else BaseOf(part);
    var segments := Segments(if IsAbsolute(decoded) then decoded[1..] else decoded);
    ghost var walked := Walk(base, segments);
    var i := 0;
    assert segments[0..] == segments;
    while i < |segments|
      invariant i <= |segments| && walked == Walk(base, segments[i..])
    {
      assert segments[i..][1..] == segments[i + 1..];
      if segments[i] == "" || segments[i] == "." {
      } else if segments[i] == ".." {
        if base != [] {
          base := base[..|base| - 1];
        }
      } else {
        base := base + [segments[i]];
      }
      i := i + 1;
    }
    return Some(JoinSegments(base));
  }

  /** The `i`-th reference in `text` is the first that names a removed part. */
  ghost predicate FirstDangling(part: string, text: string, removed: set<string>, i: nat) {
    && i < |References(text, 0)| && PointsInto(part, References(text, 0)[i], removed)
    && forall j :: 0 <= j < i ==> !PointsInto(part, References(text, 0)[j], removed)
  }

  /** The outcome check: the first reference in `text` that names a removed part. */
  method DanglingReference(part: string, text: string, removed: set<string>) returns (target: Option<string>)
    ensures target.Some? <==> Dangles(part, text, removed)
    ensures target.Some? ==>
              exists i: nat :: FirstDangling(part, text, removed, i) && target == Resolve(part, References(text, 0)[i])
  {
    hide ReferenceAt, Resolve;
    target := None;
    var at := 0;
    ghost var seen: seq<string> := [];
    assert [] + References(text, 0) == References(text, 0);
    while at < |text|
      invariant References(text, 0) == seen + References(text, at)
      invariant forall i :: 0 <= i < |seen| ==> !PointsInto(part, seen[i], removed)
      decreases |text| - at
    {
      var r := ReferenceAt(text, at);
      if r.None? {
        at := at + 1;
      } else {
        var name := ResolvePartName(part, r.value.value);
        ghost var next := seen + [r.value.value];
        assert seen + ([r.value.value] + References(text, r.value.end)) == next + References(text, r.value.end);
        if name.Some? && name.value in removed {
          assert References(text, 0)[|seen|] == r.value.value;
          assert FirstDangling(part, text, removed, |seen|);
          return name;
        }
        seen := next;
        at := r.value.end;
      }
    }
    assert seen + [] == seen;
  }

  // ---- Which names a reference can reach ------------------------------------------------------

  predicate SlashFree(s: string) {
    '/' !in s
  }

  predicate IsProper(segment: string) {
    segment != "" && segment != "." && segment != ".." && SlashFree(segment)
  }

  ghost predicate AllProper(parts: seq<string>) {
    forall i :: 0 <= i < |parts| ==> IsProper(parts[i])
  }

  lemma {:induction false} SegmentsJoin(name: string)
    ensures JoinSegments(Segments(name)) == name
    ensures forall i :: 0 <= i < |Segments(name)| ==> SlashFree(Segments(name)[i])
  {
    var k := IndexFrom(name, 0, '/');
    if k < |name| {
      SegmentsJoin(name[k + 1..]);
      assert Segments(name)[1..] == Segments(name[k + 1..]);
      assert name == name[..k] + "/" + name[k + 1..];
    }
  }

  lemma {:induction false} SegmentsOfJoin(parts: seq<string>)
    requires parts != [] && forall i :: 0 <= i < |parts| ==> SlashFree(parts[i])
    ensures Segments(JoinSegments(parts)) == parts
  {
    var name := JoinSegments(parts);
    if |parts| == 1 {
      assert IndexFrom(name, 0, '/') == |name| by { assert SlashFree(parts[0]); }
    } else {
      var rest := JoinSegments(parts[1..]);
      SegmentsOfJoin(parts[1..]);
      assert SlashFree(parts[0]);
      assert name[|parts[0]|] == '/';
      assert forall i :: 0 <= i < |parts[0]| ==> name[i] == parts[0][i];
      assert IndexFrom(name, 0, '/') == |parts[0]|;
      assert name[..|parts[0]|] == parts[0] && name[|parts[0]| + 1..] == rest;
    }
  }

  lemma {:induction false} WalkIsProper(base: seq<string>, segments: seq<string>)
    requires AllProper(base) && forall i :: 0 <= i < |segments| ==> SlashFree(segments[i])
    ensures AllProper(Walk(base, segments))
    decreases |segments|
  {
    if segments != [] {
      var s, rest := segments[0], segments[1..];
      if s == "" || s == "." {
        WalkIsProper(base, rest);
      } else if s == ".." {
        WalkIsProper(if base == [] then [] else base[..|base| - 1], rest);
      } else {
        WalkIsProper(base + [s], rest);
      }
    }
  }

  lemma {:induction false} WalkKeepsProper(base: seq<string>, segments: seq<string>)
    requires AllProper(segments)
    ensures Walk(base, segments) == base + segments
    decreases |segments|
  {
    if segments != [] {
      assert IsProper(segments[0]);
      WalkKeepsProper(base + [segments[0]], segments[1..]);
      assert base + [segments[0]] + segments[1..] == base + segments;
    } else {
      assert base + [] == base;
    }
  }

  function HexChar(v: nat): (c: char)
    requires v < 16
    ensures IsHexDigit(c) && HexValue(c) == v && c as int < 0x80
  {
    if v < 10 then ('0' as int + v) as char else ('A' as int + v - 10) as char
  }

  /** Every byte as a percent-escape. */
  function Escaped(bytes: seq<byte>): string {
    if bytes == [] then ""
    else
      var b: int := bytes[0];
      ['%', HexChar(b / 16), HexChar(b % 16)] + Escaped(bytes[1..])
  }

  lemma {:induction false} EscapedIsPlain(bytes: seq<byte>)
    ensures forall i :: 0 <= i < |Escaped(bytes)| ==> Escaped(bytes)[i] == '%' || IsHexDigit(Escaped(bytes)[i])
  {
    if bytes != [] {
      EscapedIsPlain(bytes[1..]);
    }
  }

  lemma EncodeAscii(c: char, rest: string)
    requires c as int < 0x80
    ensures EncodeAll([c] + rest) == [c as int] + EncodeAll(rest)
  {
    assert ([c] + rest)[1..] == rest;
  }

  lemma {:induction false} UnescapeEscaped(bytes: seq<byte>)
    ensures Unescape(EncodeAll(Escaped(bytes))) == Some(bytes)
  {
    hide EncodeAll, IsHexDigit, HexValue, HexChar;
    if bytes == [] {
      assert EncodeAll("") == [] by { EncodeNothing(); }
    } else {
      var b: int := bytes[0];
      var h, l, rest := HexChar(b / 16), HexChar(b % 16), Escaped(bytes[1..]);
      EncodeAscii(l, rest);
      EncodeAscii(h, [l] + rest);
      EncodeAscii('%', [h] + ([l] + rest));
      assert Escaped(bytes) == ['%'] + ([h] + ([l] + rest));
      var e := EncodeAll(Escaped(bytes));
      assert e == [0x25, h as int, l as int] + EncodeAll(rest);
      assert e[3..] == EncodeAll(rest);
      assert e[1] as char == h && e[2] as char == l;
      UnescapeEscaped(bytes[1..]);
      assert bytes == [bytes[0]] + bytes[1..];
    }
  }

  lemma EncodeNothing()
    ensures EncodeAll("") == []
  {
  }

  lemma {:induction false} EncodedIsValid(text: string)
    ensures LineSinks.FromUtf8(EncodeAll(text)) == LineSinks.Valid(text)
  {
    hide FirstUnit, Encode;
    if text != "" {
      var rest := EncodeAll(text[1..]);
      EncodedIsComplete(text[0], rest);
      assert EncodeAll(text)[|Encode(text[0])|..] == rest;
      EncodedIsValid(text[1..]);
    }
  }

  lemma {:induction false} NoCharRefs(text: string, from: nat)
    requires from <= |text| && '&' !in text
    ensures ReplaceCharRefs(text, from) == text[from..]
    decreases |text| - from
  {
    if from < |text| {
      NoCharRefs(text, from + 1);
    }
  }

  /** Escaped from the root, any text is the path it spells. */
  lemma EscapedPath(name: string)
    ensures PathOf("/" + Escaped(EncodeAll(name))) == Some("/" + name)
  {
    hide EncodeAll, Unescape, ReplaceCharRefs;
    var e := Escaped(EncodeAll(name));
    var reference := ['/'] + e;
    EscapedIsPlain(EncodeAll(name));
    NoCharRefs(reference, 0);
    assert reference[0..] == reference && !HasScheme(reference);
    assert IndexFrom(reference, 0, '#') == |reference| && reference[..|reference|] == reference;
    assert IndexFrom(reference, 0, '?') == |reference|;
    EncodeAscii('/', e);
    UnescapeEscaped(EncodeAll(name));
    UnescapeSlash(EncodeAll(e));
    EncodeAscii('/', name);
    EncodedIsValid(['/'] + name);
  }

  // ---- Entities come off before the path is taken apart ---------------------------------------

  /** `n` hexadecimal digits. */
  function Hex(v: nat, n: nat): string {
    if n == 0 then "" else Hex(v / 16, n - 1) + [HexChar(v % 16)]
  }

  function Pow16(n: nat): (p: nat)
    ensures p > 0
  {
    if n == 0 then 1 else 16 * Pow16(n - 1)
  }

  lemma {:induction false} HexReadBack(v: nat, n: nat)
    requires v < Pow16(n) && v <= 0xffff_ffff
    ensures |Hex(v, n)| == n && (forall i :: 0 <= i < n ==> IsHexDigit(Hex(v, n)[i]))
    ensures FromRadix(Hex(v, n), 16) == Some(v)
  {
    hide IsHexDigit, HexValue;
    if n > 0 {
      HexReadBack(v / 16, n - 1);
      var digits := Hex(v, n);
      assert digits[..n - 1] == Hex(v / 16, n - 1) && digits[n - 1] == HexChar(v % 16);
    }
  }

  /** One character as a hexadecimal character reference. */
  function Entity(c: char): string {
    "&#x" + Hex(c as int, 6) + ";"
  }

  function Entities(text: string): string {
    if text == "" then "" else Entity(text[0]) + Entities(text[1..])
  }

  lemma EntityAt(text: string, at: nat, c: char)
    requires at + 10 <= |text| && text[at..at + 10] == Entity(c)
    ensures CharRefAt(text, at) == Some(CharRef([c], at + 10))
  {
    hide Hex, FromRadix, IsHexDigit, IsDigit, IsLetter;
    var e, digits := Entity(c), Hex(c as int, 6);
    assert Pow16(6) == 0x100_0000 by { PowersOf16(); }
    HexReadBack(c as int, 6);
    assert forall i :: 0 <= i < 10 ==> text[at + i] == e[i];
    assert e[0] == '&' && e[1] == '#' && e[2] == 'x' && e[9] == ';';
    assert forall i :: 0 <= i < 6 ==> e[3 + i] == digits[i];
    assert text[at + 1..at + 2] == "#" && text[at + 2..at + 3] == "x";
    assert !IsHexDigit(';') by { SemicolonIsNoDigit(); }
    assert SkipFrom(text, at + 3, IsHexDigit) == at + 9;
    assert text[at + 3..at + 9] == digits;
    assert IsScalar(c as int);
  }

  lemma PowersOf16()
    ensures Pow16(6) == 0x100_0000
  {
    assert Pow16(2) == 0x100;
    assert Pow16(4) == 0x1_0000;
  }

  lemma SemicolonIsNoDigit()
    ensures !IsHexDigit(';')
  {
  }

  lemma {:induction false} EntitiesRead(before: string, text: string)
    ensures ReplaceCharRefs(before + Entities(text), |before|) == text
    decreases |text|
  {
    hide Entity, CharRefAt;
    var whole := before + Entities(text);
    if text != "" {
      assert |Entity(text[0])| == 10 by { EntityLength(text[0]); }
      assert whole[|before|..|before| + 10] == Entity(text[0]);
      EntityAt(whole, |before|, text[0]);
      assert whole == (before + Entity(text[0])) + Entities(text[1..]);
      EntitiesRead(before + Entity(text[0]), text[1..]);
    }
  }

  lemma EntityLength(c: char)
    ensures |Entity(c)| == 10
  {
    hide Hex;
    PowersOf16();
    HexReadBack(c as int, 6);
  }

  lemma {:induction false} UnescapePlain(bytes: seq<byte>)
    requires 0x25 !in bytes
    ensures Unescape(bytes) == Some(bytes)
  {
    if bytes != [] {
      assert bytes[0] in bytes;
      UnescapePlain(bytes[1..]);
      assert bytes == [bytes[0]] + bytes[1..];
    }
  }

  lemma {:induction false} NoPercentByte(text: string)
    requires '%' !in text
    ensures 0x25 !in EncodeAll(text)
  {
    if text != "" {
      assert text[0] in text;
      NoPercentByte(text[1..]);
    }
  }

  /**
   A reference written entirely in character references is the path those characters spell: the `#`
   of an entity is never taken for a fragment.
   */
  lemma EntityPath(name: string)
    requires '#' !in name && '?' !in name && '%' !in name
    ensures PathOf("/" + Entities(name)) == Some("/" + name)
  {
    hide EncodeAll, Unescape, Entity, Entities;
    var reference, literal := "/" + Entities(name), "/" + name;
    EntitiesRead("/", name);
    assert ReplaceCharRefs(reference, 0) == [reference[0]] + ReplaceCharRefs(reference, 1);
    assert ReplaceCharRefs(reference, 0) == literal;
    assert '#' !in literal && '?' !in literal && '%' !in literal;
    assert IndexFrom(literal, 0, '#') == |literal| && literal[..|literal|] == literal;
    assert IndexFrom(literal, 0, '?') == |literal|;
    NoPercentByte(literal);
    UnescapePlain(EncodeAll(literal));
    EncodedIsValid(literal);
  }

  lemma UnescapeSlash(rest: seq<byte>)
    requires Unescape(rest).Some?
    ensures Unescape([0x2F] + rest) == Some([0x2F] + Unescape(rest).value)
  {
    assert ([0x2F] + rest)[1..] == rest;
  }

  ghost predicate ReachedFromRoot(part: string, reference: string, name: string) {
    var path := PathOf(reference);
    path.Some? && IsAbsolute(path.value) && Resolve(part, reference) == Some(name)
  }

  /**
   An absolute reference can name exactly the entries whose names are in normal form: no empty,
   `.` or `..` segment. A removed part with any other name cannot be pointed at from the root.
   */
  lemma RootReachesProperNames(part: string, name: string)
    ensures (exists reference :: ReachedFromRoot(part, reference, name)) <==> name == "" || AllProper(Segments(name))
  {
    hide PathOf, Escaped, EncodeAll;
    if name == "" || AllProper(Segments(name)) {
      var reference := "/" + Escaped(EncodeAll(name));
      EscapedPath(name);
      assert ("/" + name)[1..] == name;
      if name == "" {
        assert Segments(name) == [""] && Walk([], [""][1..]) == [];
      } else {
        WalkKeepsProper([], Segments(name));
        assert [] + Segments(name) == Segments(name);
        SegmentsJoin(name);
      }
      assert ReachedFromRoot(part, reference, name);
    }
    forall reference | ReachedFromRoot(part, reference, name) ensures name == "" || AllProper(Segments(name)) {
      var relative := PathOf(reference).value[1..];
      SegmentsJoin(relative);
      WalkIsProper([], Segments(relative));
      var walked := Walk([], Segments(relative));
      if walked != [] {
        SegmentsOfJoin(walked);
      }
    }
  }
}
