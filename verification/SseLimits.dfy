/** Two inputs that show the limits of the chunking theorems are where `SseSpec` puts them. */
module SseLimits {
  import opened Basics
  import opened Utf8
  import opened Lines
  import opened SseSpec

  predicate IsAscii(s: Bytes) { forall i :: 0 <= i < |s| ==> s[i] < 0x80 }

  lemma {:induction false} AsciiIsText(s: Bytes)
    requires IsAscii(s)
    ensures WellFormed(s)
  {
    if s != [] {
      AsciiIsText(s[1..]);
      WellFormedCons(s[..1], s[1..]);
      assert s == s[..1] + s[1..];
    }
  }

  lemma AsciiStartsStream(s: Bytes, more: Bytes)
    requires IsAscii(s)
    ensures Text(s + more) == s + Text(more) && Tail(s + more) == Tail(more) && Lossy(s + more) == s + Lossy(more)
  {
    AsciiIsText(s);
    WellFormedIsUnchanged(s);
    DecodeInPieces(s, more);
    assert [] + more == more;
  }

  lemma DrainOneLine(read: LineReader, line: Bytes, more: Bytes)
    requires NoBreak(line) && read(line) == Done
    ensures Drain(read, line + [LF] + more, false) == Drained([], more, true)
  {
    var t := line + [LF] + more;
    FirstBreakUnique(t, |line|);
    assert t[..|line|] == line && t[|line| + 1..] == more;
    DrainStep(read, t, line, more);
  }

  /** A first chunk that holds a done line: everything after it is retained. */
  lemma FeedDoneLine(read: LineReader, line: Bytes, more: Bytes)
    requires NoBreak(line) && IsAscii(line) && read(line) == Done && IsAscii(more)
    ensures Feed(read, INITIAL, line + [LF] + more) ==
            (ParserState(more, [], true), if |more| > MAX_SSE_LINE_BYTES then Oversized else Contents([]))
  {
    var chunk := line + [LF] + more;
    AsciiStartsStream(chunk, []);
    assert chunk + [] == chunk && [] + chunk == chunk;
    DrainOneLine(read, line, more);
  }

  /**
   The guard also counts what follows a `done` line in the same chunk: the same bytes are
   accepted in two chunks and rejected in one.
   */
  lemma GuardDependsOnTheCut(read: LineReader, line: Bytes, junk: Bytes)
    requires NoBreak(line) && IsAscii(line) && read(line) == Done
    requires IsAscii(junk) && |junk| > MAX_SSE_LINE_BYTES
    ensures RunAll(read, [line + [LF] + [], junk]) == Accepted([])
    ensures RunAll(read, [line + [LF] + junk]) == Rejected([], true)
  {
    FeedDoneLine(read, line, []);
    FeedDoneLine(read, line, junk);
    RunStep(read, INITIAL, line + [LF] + [], [junk]);
    RunStep(read, INITIAL, line + [LF] + junk, []);
    DoneRun(read, ParserState([], [], true), [junk]);
  }

  lemma RunStep(read: LineReader, st: ParserState, chunk: Bytes, rest: seq<Bytes>)
    ensures var (st', reply) := Feed(read, st, chunk);
            RunFrom(read, st, [chunk] + rest) ==
            match reply
            case Oversized => Rejected([], st'.done)
            case Contents(c) => var r := RunFrom(read, st', rest); r.(contents := c + r.contents)
  {
  }

  const OPEN: Bytes := [0xF0, 0x9F, 0x98]
  const SMILE: Bytes := [0xF0, 0x9F, 0x98, 0x80]

  /**
   `ShortLinesAreNotRejected` is tight: with lines one byte longer, a held CR and three
   bytes of an unfinished character go over the bound, though no line of the text does.
   */
  lemma LineBoundIsTight(read: LineReader, a: Bytes)
    requires IsAscii(a) && NoBreak(a) && |a| == MAX_SSE_LINE_BYTES - 3
    ensures var chunks := [a + [CR] + OPEN, [0x80, LF]];
            && LinesOf(Lossy(Flatten(chunks))) == [a, SMILE]
            && RunAll(read, chunks) == Rejected([], false)
  {
    var chunks := [a + [CR] + OPEN] + [[0x80, LF]];
    assert Flatten(chunks) == a + [CR] + (SMILE + [LF]) by {
      assert Flatten([[0x80, LF]]) == [0x80, LF] + [];
      assert chunks[1..] == [[0x80, LF]];
    }
    AsciiStartsStream(a + [CR], SMILE + [LF]);
    SmileIsText();
    LinesWithSmile(a);
    AsciiStartsStream(a + [CR], OPEN);
    FeedOpen(read, a);
    RunStep(read, INITIAL, a + [CR] + OPEN, [[0x80, LF]]);
    assert chunks == [a + [CR] + OPEN, [0x80, LF]];
  }

  lemma FeedOpen(read: LineReader, a: Bytes)
    requires NoBreak(a) && |a| == MAX_SSE_LINE_BYTES - 3
    requires Text(a + [CR] + OPEN) == a + [CR] + Text(OPEN) && Tail(a + [CR] + OPEN) == Tail(OPEN)
    ensures Feed(read, INITIAL, a + [CR] + OPEN) == (ParserState(a + [CR], OPEN, false), Oversized)
  {
    var chunk, text := a + [CR] + OPEN, a + [CR];
    assert NextUnit(OPEN) == Incomplete;
    assert [] + chunk == chunk && [] + Text(chunk) == text;
    FirstBreakUnique(text, |a|);
    assert Drain(read, text, false) == Drained([], text, false);
  }

  lemma LineThenRest(line: Bytes, b: byte, rest: Bytes)
    requires NoBreak(line) && IsBreak(b) && (rest == [] || rest[0] != LF)
    ensures LinesOf(line + [b] + rest) == [line] + LinesOf(rest)
  {
    var t := line + [b] + rest;
    assert EndsAt(t, |line|) && After(t, |line|) == |line| + 1;
    assert t[..|line|] == line && t[|line| + 1..] == rest;
    LinesStep(t);
  }

  lemma LinesWithSmile(a: Bytes)
    requires NoBreak(a)
    ensures LinesOf(a + [CR] + (SMILE + [LF])) == [a, SMILE]
  {
    assert (SMILE + [LF])[0] == SMILE[0] == 0xF0;
    LineThenRest(a, CR, SMILE + [LF]);
    LineThenRest(SMILE, LF, []);
    assert SMILE + [LF] + [] == SMILE + [LF];
    LinesStep([]);
  }

  lemma SmileIsText()
    ensures Lossy(SMILE + [LF]) == SMILE + [LF]
  {
    var s := SMILE + [LF];
    assert NextUnit(s) == Char(4) && s[4..] == [LF] && s[..4] == SMILE;
    assert NextUnit([LF]) == Char(1) && [LF][1..] == [] && [LF][..1] == [LF];
    assert Lossy([LF]) == [LF] + Lossy([]);
  }
}
