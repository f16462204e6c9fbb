/** Splitting text into lines, and the sink that does it a chunk at a time (files/chunks.rs). */
module Lines {
  const NEWLINE: char := '\n'

  predicate Unbroken(t: string) {
    forall i :: 0 <= i < |t| ==> t[i] != NEWLINE
  }

  /** Where the first newline is, or the length of the text. */
  function FirstNewline(t: string): (k: nat)
    ensures k <= |t| && forall i :: 0 <= i < k ==> t[i] != NEWLINE
    ensures k < |t| ==> t[k] == NEWLINE
  {
    if t == "" || t[0] == NEWLINE then 0 else 1 + FirstNewline(t[1..])
  }

  /** The `\n`-split: a text ending in a newline ends with one empty line. */
  function Split(t: string): (lines: seq<string>)
    ensures |lines| >= 1
    decreases |t|
  {
    var k := FirstNewline(t);
    if k == |t| then [t] else [t[..k]] + Split(t[k + 1..])
  }

  function Last<T>(s: seq<T>): T
    requires s != []
  {
    s[|s| - 1]
  }

  function Init<T>(s: seq<T>): seq<T>
    requires s != []
  {
    s[..|s| - 1]
  }

  function Join(lines: seq<string>): string {
    if lines == [] then "" else if |lines| == 1 then lines[0] else lines[0] + [NEWLINE] + Join(lines[1..])
  }

  lemma SplitUnbroken(line: string)
    requires Unbroken(line)
    ensures Split(line) == [line]
  {
    hide FirstNewline;
  }

  lemma CutAt(t: string, k: nat)
    requires k < |t|
    ensures t == t[..k] + [t[k]] + t[k + 1..]
  {
  }

  /** Every text is either one unbroken line, or a line, a newline and a shorter text. */
  lemma FirstLine(t: string)
    ensures var k := FirstNewline(t);
            if k == |t| then Unbroken(t) && Split(t) == [t]
            else
              && t == t[..k] + [NEWLINE] + t[k + 1..]
              && Unbroken(t[..k])
              && Split(t) == [t[..k]] + Split(t[k + 1..])
  {
    hide FirstNewline;
    if FirstNewline(t) < |t| {
      CutAt(t, FirstNewline(t));
    }
  }

  lemma SplitAtNewline(line: string, rest: string)
    requires Unbroken(line)
    ensures Split(line + [NEWLINE] + rest) == [line] + Split(rest)
  {
    hide FirstNewline;
    var t := line + [NEWLINE] + rest;
    var k := FirstNewline(t);
    assert forall i :: 0 <= i < |line| ==> t[i] == line[i];
    assert t[|line|] == NEWLINE;
    assert k == |line|;
    assert t[..k] == line && t[k + 1..] == rest;
  }

  /** The split is the only way to cut the text into newline-free pieces that join back to it. */
  lemma {:induction false} SplitIsUnique(lines: seq<string>)
    requires lines != [] && forall i :: 0 <= i < |lines| ==> Unbroken(lines[i])
    ensures Split(Join(lines)) == lines
  {
    if |lines| == 1 {
      SplitUnbroken(lines[0]);
    } else {
      SplitIsUnique(lines[1..]);
      SplitAtNewline(lines[0], Join(lines[1..]));
    }
  }

  lemma {:induction false} SplitJoins(t: string)
    ensures Join(Split(t)) == t
    ensures forall i :: 0 <= i < |Split(t)| ==> Unbroken(Split(t)[i])
    decreases |t|
  {
    hide FirstNewline, Split, Unbroken;
    FirstLine(t);
    var k := FirstNewline(t);
    if k < |t| {
      SplitJoins(t[k + 1..]);
      assert Split(t)[1..] == Split(t[k + 1..]);
    }
  }

  /** Text that continues an unfinished line extends the first line of the split. */
  lemma FirstLineExtends(line: string, more: string)
    requires Unbroken(line)
    ensures line <= Split(line + more)[0]
  {
    FirstLine(line + more);
  }

  /** Where line `i` of the text ends. */
  function LineEnd(t: string, i: nat): (n: nat)
    requires i < |Split(t)|
    ensures n <= |t|
    decreases |t|
  {
    var k := FirstNewline(t);
    if i == 0 then k else k + 1 + LineEnd(t[k + 1..], i - 1)
  }

  /** Every line is the unfinished line of the text cut where that line ends. */
  lemma {:induction false} LineAtItsEnd(t: string, i: nat)
    requires i < |Split(t)|
    ensures Last(Split(t[..LineEnd(t, i)])) == Split(t)[i]
    decreases |t|
  {
    hide FirstNewline, Unbroken, Split;
    FirstLine(t);
    var k := FirstNewline(t);
    if i == 0 {
      assert t[..|t|] == t;
      SplitUnbroken(t[..k]);
    } else {
      var rest := t[k + 1..];
      var n := LineEnd(rest, i - 1);
      LineAtItsEnd(rest, i - 1);
      assert t[..k + 1 + n] == t[..k] + [NEWLINE] + rest[..n];
      SplitAtNewline(t[..k], rest[..n]);
    }
  }

  /** Taking the first line off text that begins with an unfinished one. */
  lemma TakeLine(carry: string, rest: string)
    requires Unbroken(carry) && FirstNewline(rest) < |rest|
    ensures var at := FirstNewline(rest); Split(carry + rest) == [carry + rest[..at]] + Split(rest[at..][1..])
  {
    hide FirstNewline;
    var at := FirstNewline(rest);
    assert carry + rest == (carry + rest[..at]) + [NEWLINE] + rest[at..][1..];
    SplitAtNewline(carry + rest[..at], rest[at..][1..]);
  }

  /** Splitting can stop anywhere and resume from the unfinished last line. */
  lemma {:induction false} SplitResumes(t: string, more: string)
    ensures Split(t + more) == Init(Split(t)) + Split(Last(Split(t)) + more)
    decreases |t|
  {
    hide FirstNewline, Split, Unbroken;
    FirstLine(t);
    var k := FirstNewline(t);
    if k < |t| {
      var line, rest := t[..k], t[k + 1..];
      assert t + more == line + [NEWLINE] + (rest + more);
      SplitAtNewline(line, rest + more);
      SplitResumes(rest, more);
      var tail := Split(rest);
      assert Last(Split(t)) == Last(tail) && Init(Split(t)) == [line] + Init(tail);
      assert [line] + (Init(tail) + Split(Last(tail) + more)) == ([line] + Init(tail)) + Split(Last(tail) + more);
    }
  }
}

module LineSinks {
  import opened Words
  import opened Wrappers
  import opened Utf8
  import opened Lines

  const MAX_LINE_CHARS := 0x10_0000

  datatype Failure = LineTooLong | LineRefused | PullFailed

  /** A visitor's verdict on a line, given the lines it has been shown before. */
  type Visitor = (seq<string>, string) -> bool

  ghost predicate AcceptsFrom(accepts: Visitor, lines: seq<string>, from: nat) {
    forall k :: from <= k < |lines| ==> accepts(lines[..k], lines[k])
  }

  lemma AcceptsPrefix(accepts: Visitor, lines: seq<string>, before: seq<string>, from: nat)
    requires from <= |before| && before <= lines
    ensures AcceptsFrom(accepts, lines, from) <==> AcceptsFrom(accepts, before, from) && AcceptsFrom(accepts, lines, |before|)
  {
    assert forall k :: 0 <= k < |before| ==> lines[..k] == before[..k] && lines[k] == before[k];
  }

  // ---- The two text lengths -----------------------------------------------------------------

  function Utf16Units(text: string): nat {
    if text == "" then 0 else (if text[0] as int < 0x1_0000 then 1 else 2) + Utf16Units(text[1..])
  }

  lemma {:induction false} Utf16AtMostUtf8(text: string)
    ensures Utf16Units(text) <= |EncodeAll(text)|
  {
    if text != "" {
      Utf16AtMostUtf8(text[1..]);
    }
  }

  lemma {:induction false} Utf16UnitsOfPrefix(text: string, more: string)
    ensures Utf16Units(text) <= Utf16Units(text + more)
  {
    if text != "" {
      assert (text + more)[1..] == text[1..] + more;
      Utf16UnitsOfPrefix(text[1..], more);
    }
  }

  predicate LineFits(line: string) {
    Utf16Units(line) <= MAX_LINE_CHARS
  }

  /** The limit, counted as the UTF-16 units of the line: 2^20, each character outside the basic plane counted twice. */
  lemma LineLimit(line: string, more: string)
    requires (forall i :: 0 <= i < |line| ==> line[i] as int <= 0xffff) && (forall i :: 0 <= i < |more| ==> more[i] as int > 0xffff)
    ensures LineFits(line + more) <==> |line| + 2 * |more| <= 1048576
  {
    UnitsOfBoth(line, more);
  }

  lemma {:induction false} UnitsOfBoth(line: string, more: string)
    requires (forall i :: 0 <= i < |line| ==> line[i] as int <= 0xffff) && (forall i :: 0 <= i < |more| ==> more[i] as int > 0xffff)
    ensures Utf16Units(line + more) == |line| + 2 * |more|
    decreases |line| + |more|
  {
    if line != "" {
      assert (line + more)[1..] == line[1..] + more;
      UnitsOfBoth(line[1..], more);
    } else if more != "" {
      assert line + more == more && "" + more[1..] == more[1..];
      UnitsOfBoth("", more[1..]);
    }
  }

  // ---- std::str::from_utf8 ------------------------------------------------------------------

  datatype Validity = Valid(text: string) | Invalid(validUpTo: nat, errorLen: Option<nat>)

  function FromUtf8(s: seq<byte>): Validity
    decreases |s|
  {
    if s == [] then Valid("")
    else
      match FirstUnit(s)
      case Broken(n) => Invalid(0, Some(n))
      case Partial => Invalid(0, None)
      case Complete(c, n) =>
        match FromUtf8(s[n..])
        case Valid(text) => Valid([c] + text)
        case Invalid(upTo, len) => Invalid(n + upTo, len)
  }

  lemma ValidPrefixGrows(s: seq<byte>, at: nat)
    requires s != [] && FirstUnit(s).Complete? && at <= |s| - FirstUnit(s).width
    requires FromUtf8(s[FirstUnit(s).width..][..at]).Valid?
    ensures FromUtf8(s[..FirstUnit(s).width + at])
            == Validity.Valid([FirstUnit(s).c] + FromUtf8(s[FirstUnit(s).width..][..at]).text)
  {
    hide FirstUnit, Encode;
    var u, n := FirstUnit(s), FirstUnit(s).width;
    var prefix := s[..n + at];
    assert prefix[n..] == s[n..][..at];
    CompleteIsEncoded(s);
    assert prefix == Encode(u.c) + prefix[n..];
    EncodedIsComplete(u.c, prefix[n..]);
  }

  lemma {:induction false} FromUtf8AgreesWithScan(s: seq<byte>)
    ensures FromUtf8(s).Valid? ==> Scan(s) == Decoded(FromUtf8(s).text, [])
    ensures FromUtf8(s).Invalid? ==>
              var at := FromUtf8(s).validUpTo;
              && at < |s|
              && FromUtf8(s[..at]).Valid?
              && Scan(s) == Scan(s[at..]).After(FromUtf8(s[..at]).text)
              && FirstUnit(s[at..]) == (match FromUtf8(s).errorLen case Some(n) => Broken(n) case None => Partial)
    decreases |s|
  {
    hide FirstUnit, Encode;
    if s != [] {
      var u := FirstUnit(s);
      if u.Complete? {
        var n := u.width;
        FromUtf8AgreesWithScan(s[n..]);
        if FromUtf8(s).Invalid? {
          var at := FromUtf8(s[n..]).validUpTo;
          assert s[n + at..] == s[n..][at..];
          ValidPrefixGrows(s, at);
          AfterAfter(Scan(s[n + at..]), [u.c], FromUtf8(s[n..][..at]).text);
        }
      } else {
        assert s[..0] == [] && s[0..] == s;
        assert "" + Scan(s).text == Scan(s).text;
      }
    }
  }

  // ---- The sink -----------------------------------------------------------------------------

  /** The lines of everything fed so far, the unfinished one last. */
  ghost function LinesSoFar(fed: seq<byte>): (lines: seq<string>)
    ensures lines != []
  {
    Split(Scan(fed).text)
  }

  /** Closing the input changes only the line that was still open. */
  lemma LossySplit(fed: seq<byte>)
    ensures Split(Lossy(fed)) == Init(LinesSoFar(fed)) + [Last(LinesSoFar(fed)) + Flush(Scan(fed).pending)]
  {
    hide FirstUnit, Split, Scan;
    SplitResumes(Scan(fed).text, Flush(Scan(fed).pending));
    SplitJoins(Scan(fed).text);
    var line := Last(LinesSoFar(fed)) + Flush(Scan(fed).pending);
    SplitUnbroken(line);
  }

  lemma FlushedDecode(fed: seq<byte>)
    ensures Scan(Scan(fed).pending) == Decoded("", Scan(fed).pending)
  {
    PendingIsHead(fed);
  }

  class LineSink {
    const accepts: Visitor
    /** The lines handed to the visitor, a refused one included. */
    var visited: seq<string>
    /** The head of a character the last chunk ended in the middle of. */
    var pending: seq<byte>
    /** The incomplete last line. */
    var carry: string
    ghost var fed: seq<byte>

    /**
     What holds between pushes. `pending` is the unfinished head of one character, at most three
     bytes; `visited` and `carry` are the split of the decoded text; `carry` is bounded.
     */
    ghost predicate Valid()
      reads this
    {
      && pending == Scan(fed).pending
      && |pending| <= 3
      && visited + [carry] == LinesSoFar(fed)
      && Unbroken(carry)
      && LineFits(carry)
    }

    constructor (accepts: Visitor)
      ensures Valid() && this.accepts == accepts && visited == [] && fed == []
    {
      this.accepts := accepts;
      visited, pending, carry, fed := [], [], "", [];
      new;
      SplitUnbroken("");
    }

    /** Decodes `pending + chunk` after `before`; `flush` closes an unfinished character. */
    method Decode(chunk: seq<byte>, flush: bool, before: string) returns (text: string)
      modifies this`pending
      ensures var d := Scan(old(pending) + chunk);
              && text == before + d.text + (if flush then Flush(d.pending) else "")
              && pending == if flush then [] else d.pending
    {
      hide FirstUnit, FromUtf8;
      ghost var whole := Scan(pending + chunk);
      var rest := pending + chunk;
      pending := [];
      text := before;
      while true
        invariant before + whole.text == text + Scan(rest).text
        invariant whole.pending == Scan(rest).pending
        invariant pending == []
        decreases |rest|
      {
        FromUtf8AgreesWithScan(rest);
        match FromUtf8(rest) {
          case Valid(valid) =>
            text := text + valid;
            return;
          case Invalid(upTo, errorLen) =>
            var after := rest[upTo..];
            var valid := FromUtf8(rest[..upTo]).text;
            assert text + (valid + Scan(after).text) == (text + valid) + Scan(after).text;
            text := text + valid;
            match errorLen {
              case Some(len) =>
                assert text + ([REPLACEMENT] + Scan(after[len..]).text) == (text + [REPLACEMENT]) + Scan(after[len..]).text;
                text := text + [REPLACEMENT];
                rest := after[len..];
              case None =>
                if flush {
                  text := text + [REPLACEMENT];
                } else {
                  pending := after;
                }
                return;
            }
        }
      }
    }

    /**
     One chunk. It succeeds exactly when the visitor accepts every line the chunk completes and
     the line left unfinished fits; lines are only ever shown in order and whole.
     */
    method Push(chunk: seq<byte>) returns (r: Result<(), Failure>)
      requires Valid()
      modifies this
      ensures fed == old(fed) + chunk
      ensures r.Ok? ==> Valid()
      ensures old(visited) <= visited <= Init(LinesSoFar(fed))
      ensures r.Ok? <==>
                && LineFits(Last(LinesSoFar(fed)))
                && AcceptsFrom(accepts, Init(LinesSoFar(fed)), |old(visited)|)
    {
      hide Scan, EncodeAll, Utf16Units, Split, FirstNewline;
      ghost var target := LinesSoFar(fed + chunk);
      ghost var text := Scan(fed).text;
      ScanResumes(fed, chunk);
      var rest := Decode(chunk, false, "");
      assert rest == Scan(old(pending) + chunk).text;
      assert target == Split(text + rest);
      SplitResumes(text, rest);
      fed := fed + chunk;
      assert Split(text) == visited + [carry] && Init(visited + [carry]) == visited;
      while FirstNewline(rest) < |rest|
        invariant Unbroken(carry)
        invariant pending == Scan(fed).pending && fed == old(fed) + chunk
        invariant old(visited) <= visited && visited + Split(carry + rest) == target
        invariant AcceptsFrom(accepts, visited, |old(visited)|)
        decreases |rest|
      {
        var at := FirstNewline(rest);
        TakeLine(carry, rest);
        var line, tail := rest[..at], rest[at..];
        var whole := if carry == "" then line else carry + line;
        assert whole == carry + line;
        assert visited + ([whole] + Split(tail[1..])) == (visited + [whole]) + Split(tail[1..]);
        var accepted := accepts(visited, whole);
        assert forall k :: 0 <= k < |visited| ==> (visited + [whole])[..k] == visited[..k];
        assert (visited + [whole])[..|visited|] == visited;
        visited := visited + [whole];
        assert visited <= Init(target);
        carry := "";
        if !accepted {
          AcceptsPrefix(accepts, Init(target), visited, |old(visited)|);
          return Err(LineRefused);
        }
        rest := tail[1..];
        assert carry + rest == rest;
      }
      carry := carry + rest;
      SplitUnbroken(carry);
      Utf16AtMostUtf8(carry);
      if |EncodeAll(carry)| > MAX_LINE_CHARS && Utf16Units(carry) > MAX_LINE_CHARS {
        return Err(LineTooLong);
      }
      return Ok(());
    }

    /** The input is over: the final segment, empty or not, is visited too. */
    method End() returns (r: Result<(), Failure>)
      requires Valid()
      modifies this
      ensures visited == Split(Lossy(old(fed)))
      ensures r.Ok? <==> AcceptsFrom(accepts, visited, |old(visited)|)
    {
      hide FirstUnit, Scan, Utf16Units, Split, Lossy;
      var last := Decode([], true, carry);
      assert old(pending) + [] == old(pending);
      FlushedDecode(fed);
      LossySplit(fed);
      assert last == carry + Flush(old(pending));
      assert Init(visited + [carry]) == visited && Last(visited + [carry]) == carry;
      var accepted := accepts(visited, last);
      assert (visited + [last])[..|visited|] == visited;
      visited := visited + [last];
      carry := "";
      return if accepted then Ok(()) else Err(LineRefused);
    }
  }

  // ---- Running a sink over a chunk source ---------------------------------------------------

  function Concat(chunks: seq<seq<byte>>): seq<byte> {
    if chunks == [] then [] else Concat(Init(chunks)) + Last(chunks)
  }

  /** The unfinished line at every cut stays within the limit. */
  ghost predicate FitsAtEveryCut(chunks: seq<seq<byte>>) {
    forall i :: 0 <= i <= |chunks| ==> LineFits(Last(LinesSoFar(Concat(chunks[..i]))))
  }

  /** The exact condition under which a chunked run succeeds. */
  ghost predicate Succeeds(accepts: Visitor, chunks: seq<seq<byte>>) {
    AcceptsFrom(accepts, Split(Lossy(Concat(chunks))), 0) && FitsAtEveryCut(chunks)
  }

  /** A line that has been completed is a line of the whole input. */
  lemma CompletedLinesStay(fed: seq<byte>, more: seq<byte>)
    ensures Init(LinesSoFar(fed)) <= Init(LinesSoFar(fed + more))
    ensures Init(LinesSoFar(fed)) <= Split(Lossy(fed + more))
  {
    hide FirstUnit, Scan, Split;
    ScanResumes(fed, more);
    SplitResumes(Scan(fed).text, Scan(Scan(fed).pending + more).text);
    LossySplit(fed + more);
  }

  lemma {:induction false} ConcatOfPrefix(chunks: seq<seq<byte>>, i: nat)
    requires i <= |chunks|
    ensures Concat(chunks[..i]) <= Concat(chunks)
    ensures i < |chunks| ==> Concat(chunks[..i + 1]) == Concat(chunks[..i]) + chunks[i]
  {
    if i < |chunks| {
      assert Init(chunks[..i + 1]) == chunks[..i];
    }
    if i == |chunks| {
      assert chunks[..i] == chunks;
    } else {
      ConcatOfPrefix(Init(chunks), i);
      assert Init(chunks)[..i] == chunks[..i];
    }
  }

  /** A line refused, or grown too long, at one cut is a failure of the whole run. */
  lemma RefusalIsFinal(accepts: Visitor, chunks: seq<seq<byte>>, i: nat)
    requires i <= |chunks|
    requires var now := LinesSoFar(Concat(chunks[..i]));
             !LineFits(Last(now)) || !AcceptsFrom(accepts, Init(now), 0)
    ensures !Succeeds(accepts, chunks)
  {
    hide FirstUnit, Scan, Split, LineFits, Lossy;
    var now, lines := LinesSoFar(Concat(chunks[..i])), Split(Lossy(Concat(chunks)));
    ConcatOfPrefix(chunks, i);
    var rest := Concat(chunks)[|Concat(chunks[..i])|..];
    CompletedLinesStay(Concat(chunks[..i]), rest);
    assert Concat(chunks[..i]) + rest == Concat(chunks);
    AcceptsPrefix(accepts, lines, Init(now), 0);
  }

  /**
   Drains a chunk source (which may fail at its end) into a fresh sink. A run that succeeds has
   visited exactly the lines of the whole decoded input, wherever the chunks fell.
   */
  method DrainSink(sink: LineSink, chunks: seq<seq<byte>>, pullFails: bool) returns (r: Result<(), Failure>)
    requires sink.Valid() && sink.fed == [] && sink.visited == []
    modifies sink
    ensures r.Ok? ==> sink.visited == Split(Lossy(Concat(chunks)))
    ensures sink.visited <= Split(Lossy(Concat(chunks)))
    ensures r.Ok? <==> !pullFails && Succeeds(sink.accepts, chunks)
  {
    hide FirstUnit, Scan, Split, LineFits, Lossy;
    ghost var lines := Split(Lossy(Concat(chunks)));
    for i := 0 to |chunks|
      invariant sink.Valid() && sink.fed == Concat(chunks[..i])
      invariant sink.visited <= lines
      invariant AcceptsFrom(sink.accepts, sink.visited, 0)
      invariant forall j :: 0 <= j <= i ==> LineFits(Last(LinesSoFar(Concat(chunks[..j]))))
    {
      ConcatOfPrefix(chunks, i);
      ConcatOfPrefix(chunks, i + 1);
      CompletedLinesStay(Concat(chunks[..i + 1]), Concat(chunks)[|Concat(chunks[..i + 1])|..]);
      assert Concat(chunks[..i + 1]) + Concat(chunks)[|Concat(chunks[..i + 1])|..] == Concat(chunks);
      ghost var before := sink.visited;
      if chunks[i] != [] {
        r := sink.Push(chunks[i]);
        AcceptsPrefix(sink.accepts, Init(LinesSoFar(sink.fed)), before, 0);
        if r.Err? {
          RefusalIsFinal(sink.accepts, chunks, i + 1);
          return;
        }
      } else {
        assert Concat(chunks[..i]) + [] == Concat(chunks[..i]);
      }
    }
    assert chunks[..|chunks|] == chunks;
    if pullFails {
      return Err(PullFailed);
    }
    AcceptsPrefix(sink.accepts, lines, sink.visited, 0);
    LossySplit(sink.fed);
    r := sink.End();
  }

  // ---- When does it not matter where the chunks fall? ---------------------------------------

  ghost predicate EveryLineFits(fed: seq<byte>) {
    forall i :: 0 <= i < |LinesSoFar(fed)| ==> LineFits(LinesSoFar(fed)[i])
  }

  lemma UnfinishedLineFits(fed: seq<byte>, more: seq<byte>)
    requires EveryLineFits(fed + more)
    ensures LineFits(Last(LinesSoFar(fed)))
  {
    hide FirstUnit, Scan, Split;
    var open, text := Last(LinesSoFar(fed)), Scan(Scan(fed).pending + more).text;
    ScanResumes(fed, more);
    SplitResumes(Scan(fed).text, text);
    SplitJoins(Scan(fed).text);
    FirstLineExtends(open, text);
    var done := Split(open + text)[0];
    assert done == LinesSoFar(fed + more)[|LinesSoFar(fed)| - 1];
    Utf16UnitsOfPrefix(open, done[|open|..]);
    assert open + done[|open|..] == done;
  }

  /** How many bytes the first `n` characters of the decoded text took. */
  function BytesOf(s: seq<byte>, n: nat): (k: nat)
    requires n <= |Scan(s).text|
    ensures k <= |s|
    decreases |s|
  {
    if n == 0 then 0 else FirstUnit(s).width + BytesOf(s[FirstUnit(s).width..], n - 1)
  }

  lemma {:induction false} ScanOfPrefix(s: seq<byte>, n: nat)
    requires n <= |Scan(s).text| && FromUtf8(s).Valid?
    ensures Scan(s[..BytesOf(s, n)]) == Decoded(Scan(s).text[..n], [])
    decreases |s|
  {
    hide FirstUnit, Encode;
    if n > 0 {
      var u := FirstUnit(s);
      assert u.Complete?;
      var rest, k := s[u.width..], BytesOf(s[u.width..], n - 1);
      ScanOfPrefix(rest, n - 1);
      CompleteIsEncoded(s);
      assert s[..u.width + k] == Encode(u.c) + rest[..k];
      EncodedIsComplete(u.c, rest[..k]);
      assert (Encode(u.c) + rest[..k])[u.width..] == rest[..k];
      assert Scan(s).text[..n] == UnitText(u) + Scan(rest).text[..n - 1];
    }
  }

  ghost predicate AnyChunkingFits(fed: seq<byte>) {
    forall chunks :: Concat(chunks) == fed ==> FitsAtEveryCut(chunks)
  }

  lemma CutInTwo(fed: seq<byte>, k: nat)
    requires k <= |fed| && AnyChunkingFits(fed)
    ensures LineFits(Last(LinesSoFar(fed[..k])))
  {
    hide FirstUnit, Scan, Split, LineFits;
    var chunks := [fed[..k], fed[k..]];
    assert chunks[..1] == [fed[..k]] && Init(chunks) == chunks[..1];
    assert Concat([fed[..k]]) == fed[..k] by { assert Init([fed[..k]]) == []; }
    assert Concat(chunks) == fed;
  }

  lemma CutsSuffice(fed: seq<byte>)
    requires forall k :: 0 <= k <= |fed| ==> LineFits(Last(LinesSoFar(fed[..k])))
    ensures AnyChunkingFits(fed)
  {
    hide FirstUnit, LineFits, LinesSoFar;
    forall chunks, i | Concat(chunks) == fed && 0 <= i <= |chunks|
      ensures LineFits(Last(LinesSoFar(Concat(chunks[..i]))))
    {
      ConcatOfPrefix(chunks, i);
      assert Concat(chunks[..i]) == fed[..|Concat(chunks[..i])|];
    }
  }

  lemma LinesFitIfCutsDo(fed: seq<byte>)
    requires AnyChunkingFits(fed) && FromUtf8(fed).Valid?
    ensures EveryLineFits(fed)
  {
    hide FirstUnit, Scan, Split, LineFits, FromUtf8, AnyChunkingFits;
    forall i | 0 <= i < |LinesSoFar(fed)| ensures LineFits(LinesSoFar(fed)[i]) {
      var n := LineEnd(Scan(fed).text, i);
      LineAtItsEnd(Scan(fed).text, i);
      ScanOfPrefix(fed, n);
      CutInTwo(fed, BytesOf(fed, n));
    }
  }

  /**
   The length check depends on where the chunks fall. This is exactly when it does not: every way
   of cutting the input passes it iff every prefix leaves a line that fits. Lines that all fit are
   enough, and for input that is UTF-8 they are also needed; for other input they are not, because
   an ill-formed tail counts only once the bytes after it have decided that it is one.
   */
  lemma EveryChunkingFits(fed: seq<byte>)
    ensures AnyChunkingFits(fed) <==> forall k :: 0 <= k <= |fed| ==> LineFits(Last(LinesSoFar(fed[..k])))
    ensures EveryLineFits(fed) ==> AnyChunkingFits(fed)
    ensures FromUtf8(fed).Valid? && AnyChunkingFits(fed) ==> EveryLineFits(fed)
  {
    hide FirstUnit, Scan, Split, LineFits, FromUtf8, AnyChunkingFits, EveryLineFits, LinesSoFar;
    if AnyChunkingFits(fed) {
      forall k | 0 <= k <= |fed| ensures LineFits(Last(LinesSoFar(fed[..k]))) {
        CutInTwo(fed, k);
      }
      if FromUtf8(fed).Valid? {
        LinesFitIfCutsDo(fed);
      }
    }
    if forall k :: 0 <= k <= |fed| ==> LineFits(Last(LinesSoFar(fed[..k]))) {
      CutsSuffice(fed);
    }
    if EveryLineFits(fed) {
      forall k | 0 <= k <= |fed| ensures LineFits(Last(LinesSoFar(fed[..k]))) {
        assert fed[..k] + fed[k..] == fed;
        UnfinishedLineFits(fed[..k], fed[k..]);
      }
      CutsSuffice(fed);
    }
  }
}
