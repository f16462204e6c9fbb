/**
 UTF-8 as the standard library decodes it (RFC 3629 sections 3 and 4): well-formed sequences become
 characters, and each maximal ill-formed subpart (Unicode section 3.9) becomes one U+FFFD.
 */
module Utf8 {
  import opened Words

  const REPLACEMENT: char := '\U{FFFD}'
  const BOM: char := '\U{FEFF}'

  /** What the front of a byte string holds. */
  datatype Unit =
    | Complete(c: char, width: nat)  // a well-formed character
    | Broken(width: nat)             // an ill-formed subpart of `width` bytes
    | Partial                        // the whole string is the unfinished head of a character

  function Encode(c: char): (s: seq<byte>)
    ensures 1 <= |s| <= 4
  {
    var v := c as int;
    if v < 0x80 then [v]
    else if v < 0x800 then [0xC0 + v / 0x40, 0x80 + v % 0x40]
    else if v < 0x1_0000 then [0xE0 + v / 0x40 / 0x40, 0x80 + v / 0x40 % 0x40, 0x80 + v % 0x40]
    else [0xF0 + v / 0x40 / 0x40 / 0x40, 0x80 + v / 0x40 / 0x40 % 0x40, 0x80 + v / 0x40 % 0x40, 0x80 + v % 0x40]
  }

  function EncodeAll(text: string): (s: seq<byte>)
    ensures |text| <= |s|
  {
    if text == "" then [] else Encode(text[0]) + EncodeAll(text[1..])
  }

  predicate Continues(b: byte) { 0x80 <= b <= 0xBF }

  /** Whether `second` may follow `first` in a character of two bytes or more. */
  predicate SecondFits(first: byte, second: byte) {
    if first == 0xE0 then 0xA0 <= second <= 0xBF
    else if first == 0xED then 0x80 <= second <= 0x9F
    else if first == 0xF0 then 0x90 <= second <= 0xBF
    else if first == 0xF4 then 0x80 <= second <= 0x8F
    else Continues(second)
  }

  /** The text a decided unit stands for. */
  function UnitText(u: Unit): string {
    if u.Complete? then [u.c] else [REPLACEMENT]
  }

  function FirstUnit(s: seq<byte>): (u: Unit)
    requires s != []
    ensures u.Complete? ==> 1 <= u.width <= |s|
    ensures u.Broken? ==> 1 <= u.width <= 3 && u.width <= |s|
    ensures u.Partial? ==> |s| <= 3
  {
    var b: int := s[0];
    if b < 0x80 then Complete(b as char, 1)
    else if !(0xC2 <= b <= 0xF4) then Broken(1)
    else if |s| == 1 then Partial
    else if !SecondFits(b, s[1]) then Broken(1)
    else
      var s1: int := s[1];
      if b < 0xE0 then Complete((0x40 * (b - 0xC0) + (s1 - 0x80)) as char, 2)
      else if |s| == 2 then Partial
      else if !Continues(s[2]) then Broken(2)
      else
        var s2: int := s[2];
        if b < 0xF0 then Complete((0x40 * (0x40 * (b - 0xE0) + (s1 - 0x80)) + (s2 - 0x80)) as char, 3)
        else if |s| == 3 then Partial
        else if !Continues(s[3]) then Broken(3)
        else
          var s3: int := s[3];
          Complete((0x40 * (0x40 * (0x40 * (b - 0xF0) + (s1 - 0x80)) + (s2 - 0x80)) + (s3 - 0x80)) as char, 4)
  }

  /** A decoding of as much of a byte string as is decided, and the bytes that are not. */
  datatype Decoded = Decoded(text: string, pending: seq<byte>) {
    /** The same, behind text decoded earlier. */
    function After(earlier: string): Decoded {
      Decoded(earlier + text, pending)
    }
  }

  function Scan(s: seq<byte>): (d: Decoded)
    ensures |d.pending| <= 3
    decreases |s|
  {
    if s == [] then Decoded("", [])
    else
      var u := FirstUnit(s);
      if u.Partial? then Decoded("", s) else Scan(s[u.width..]).After(UnitText(u))
  }

  /** What is left undecided at the end of the input is one more ill-formed subpart. */
  function Flush(pending: seq<byte>): string {
    if pending == [] then "" else [REPLACEMENT]
  }

  function Lossy(s: seq<byte>): string {
    Scan(s).text + Flush(Scan(s).pending)
  }

  function StripBom(text: string): string {
    if text != "" && text[0] == BOM then text[1..] else text
  }

  /** Lossy decoding with one leading byte-order mark dropped. */
  function DecodeUtf8(s: seq<byte>): string {
    StripBom(Lossy(s))
  }

  // ---- What the three answers mean, in terms of the encoder alone --------------------------

  /** `s` is a proper prefix of some character's encoding. */
  ghost predicate HeadOfCharacter(s: seq<byte>) {
    exists c: char :: s <= Encode(c) && |s| < |Encode(c)|
  }

  lemma CompleteIsEncoded(s: seq<byte>)
    requires s != [] && FirstUnit(s).Complete?
    ensures FirstUnit(s).width == |Encode(FirstUnit(s).c)| && Encode(FirstUnit(s).c) <= s
  {
    hide Encode;
    var b: int := s[0];
    if b >= 0x80 {
      var s1: int := s[1];
      if b < 0xE0 {
        TwoBytes(b - 0xC0, s1 - 0x80);
      } else if b < 0xF0 {
        ThreeBytes(b - 0xE0, s1 - 0x80, s[2] - 0x80);
      } else {
        FourBytes(b - 0xF0, s1 - 0x80, s[2] - 0x80, s[3] - 0x80);
      }
    } else {
      OneByte(b);
    }
  }

  predicate IsScalar(v: int) { 0 <= v < 0xD800 || 0xE000 <= v < 0x11_0000 }

  lemma OneByte(a: int)
    requires 0 <= a < 0x80
    ensures Encode(a as char) == [a]
  {
  }

  lemma TwoBytes(a: int, b: int)
    requires 2 <= a < 0x20 && 0 <= b < 0x40
    ensures Encode((0x40 * a + b) as char) == [0xC0 + a, 0x80 + b]
  {
    var v := 0x40 * a + b;
    assert v / 0x40 == a && v % 0x40 == b;
  }

  lemma ThreeBytes(a: int, b: int, c: int)
    requires 0 <= a < 0x10 && 0 <= b < 0x40 && 0 <= c < 0x40
    requires 0x20 <= 0x40 * a + b && IsScalar(0x40 * (0x40 * a + b) + c)
    ensures Encode((0x40 * (0x40 * a + b) + c) as char) == [0xE0 + a, 0x80 + b, 0x80 + c]
  {
    var u := 0x40 * a + b;
    var v := 0x40 * u + c;
    assert v / 0x40 == u && v % 0x40 == c;
    assert u / 0x40 == a && u % 0x40 == b;
  }

  lemma FourBytes(a: int, b: int, c: int, d: int)
    requires 0 <= a < 5 && 0 <= b < 0x40 && 0 <= c < 0x40 && 0 <= d < 0x40
    requires 0x10 <= 0x40 * a + b < 0x110
    ensures Encode((0x40 * (0x40 * (0x40 * a + b) + c) + d) as char) == [0xF0 + a, 0x80 + b, 0x80 + c, 0x80 + d]
  {
    var t := 0x40 * a + b;
    var u := 0x40 * t + c;
    var v := 0x40 * u + d;
    assert v / 0x40 == u && v % 0x40 == d;
    assert u / 0x40 == t && u % 0x40 == c;
    assert t / 0x40 == a && t % 0x40 == b;
  }

  lemma EncodedIsComplete(c: char, rest: seq<byte>)
    ensures FirstUnit(Encode(c) + rest) == Complete(c, |Encode(c)|)
  {
    var s := Encode(c) + rest;
    assert forall i :: 0 <= i < |Encode(c)| ==> s[i] == Encode(c)[i];
  }

  /** Continuation bytes that can complete any unfinished character starting with `first`. */
  function Filler(first: byte): seq<byte> {
    [if first == 0xE0 then 0xA0 else if first == 0xF0 then 0x90 else 0x80, 0x80, 0x80]
  }

  /** A decided answer does not change when more bytes arrive. */
  lemma DecidedStays(s: seq<byte>, more: seq<byte>)
    requires s != [] && !FirstUnit(s).Partial?
    ensures FirstUnit(s + more) == FirstUnit(s)
  {
    assert forall i :: 0 <= i < |s| ==> (s + more)[i] == s[i];
  }

  lemma PartialCanBeCompleted(s: seq<byte>)
    requires s != [] && FirstUnit(s).Partial?
    ensures var u := FirstUnit(s + Filler(s[0])[|s| - 1..]); u.Complete? && |s| < u.width
  {
  }

  lemma PartialIsHead(s: seq<byte>)
    requires s != []
    ensures FirstUnit(s).Partial? <==> HeadOfCharacter(s)
  {
    hide FirstUnit, Encode;
    if FirstUnit(s).Partial? {
      PartialCanBeCompleted(s);
      var whole := s + Filler(s[0])[|s| - 1..];
      CompleteIsEncoded(whole);
      assert s <= Encode(FirstUnit(whole).c);
    } else if HeadOfCharacter(s) {
      var c: char :| s <= Encode(c) && |s| < |Encode(c)|;
      DecidedStays(s, Encode(c)[|s|..]);
      assert s + Encode(c)[|s|..] == Encode(c) + [];
      EncodedIsComplete(c, []);
    }
  }

  /**
   The replaced subpart is the maximal one: no character starts here, the subpart is the longest
   prefix that could still have become a character, and at least one byte.
   */
  lemma BrokenIsMaximalSubpart(s: seq<byte>)
    requires s != [] && FirstUnit(s).Broken?
    ensures forall c: char :: !(Encode(c) <= s)
    ensures var n := FirstUnit(s).width; (n == 1 || HeadOfCharacter(s[..n])) && forall k :: n < k <= |s| ==> !HeadOfCharacter(s[..k])
  {
    hide Encode;
    var n := FirstUnit(s).width;
    forall c: char ensures !(Encode(c) <= s) {
      if Encode(c) <= s {
        var rest := s[|Encode(c)|..];
        assert s == Encode(c) + rest;
        EncodedIsComplete(c, rest);
      }
    }
    if n > 1 {
      PartialIsHead(s[..n]);
    }
    forall k | n < k <= |s| ensures !HeadOfCharacter(s[..k]) {
      PartialIsHead(s[..k]);
    }
  }

  // ---- Whole strings -------------------------------------------------------------------------

  lemma {:induction false} ScanEncoded(text: string)
    ensures Scan(EncodeAll(text)) == Decoded(text, [])
  {
    if text != "" {
      var rest := EncodeAll(text[1..]);
      EncodedIsComplete(text[0], rest);
      assert EncodeAll(text)[|Encode(text[0])|..] == rest;
      ScanEncoded(text[1..]);
    }
  }

  /** Text written as UTF-8 comes back as itself, except that one leading mark is dropped. */
  lemma DecodeOfEncode(text: string)
    ensures DecodeUtf8(EncodeAll(text)) == StripBom(text)
    ensures DecodeUtf8(EncodeAll(text)) == text <==> !(text != "" && text[0] == BOM)
  {
    ScanEncoded(text);
    assert text + "" == text;
  }

  lemma EncodeAllInjective(a: string, b: string)
    requires EncodeAll(a) == EncodeAll(b)
    ensures a == b
  {
    ScanEncoded(a);
    ScanEncoded(b);
  }

  lemma AfterAfter(d: Decoded, first: string, second: string)
    ensures d.After(second).After(first) == d.After(first + second)
  {
    assert first + (second + d.text) == (first + second) + d.text;
  }

  /** Decoding can stop anywhere and resume from the undecided bytes. */
  lemma {:induction false} ScanResumes(s: seq<byte>, more: seq<byte>)
    ensures Scan(s + more) == Scan(Scan(s).pending + more).After(Scan(s).text)
    decreases |s|
  {
    if s == [] {
      assert s + more == more;
      assert "" + Scan(more).text == Scan(more).text;
    } else {
      var u := FirstUnit(s);
      if u.Partial? {
        assert "" + Scan(s + more).text == Scan(s + more).text;
      } else {
        DecidedStays(s, more);
        assert (s + more)[u.width..] == s[u.width..] + more;
        ScanResumes(s[u.width..], more);
        AfterAfter(Scan(Scan(s).pending + more), UnitText(u), Scan(s[u.width..]).text);
      }
    }
  }

  /** The undecided bytes are the unfinished head of one character. */
  lemma {:induction false} PendingIsHead(s: seq<byte>)
    ensures var p := Scan(s).pending; p == [] || (FirstUnit(p).Partial? && HeadOfCharacter(p))
    decreases |s|
  {
    if s != [] {
      if FirstUnit(s).Partial? {
        PartialIsHead(s);
      } else {
        PendingIsHead(s[FirstUnit(s).width..]);
      }
    }
  }
}
