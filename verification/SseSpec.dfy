/**
 What a dialectic stream means: the batch reading of a complete byte string, the
 incremental parser as a function on its state, and the proof that cutting the bytes
 into network chunks does not change what is read.
 */
module SseSpec {
  import opened Basics
  import opened Utf8
  import opened Lines

  const MAX_SSE_LINE_BYTES: nat := 0x10_0000

  // ---------------------------------------------------------------------
  // One line
  // ---------------------------------------------------------------------

  /** A JSON value, as far as the parser looks into it. */
  datatype Value =
    | Null | Number | Array
    | Bool(b: bool)
    | Str(text: Bytes)
    | Object(fields: map<string, Value>)

  /** The JSON grammar is a parameter: the value of a text, or None if it is malformed. */
  type Json = Bytes -> Option<Value>

  datatype Verdict = Ignore | Done | Content(text: Bytes)

  const SPACE: byte := 0x20
  const DATA: Bytes := [0x64, 0x61, 0x74, 0x61, 0x3A]  // "data:"

  function Field(v: Value, name: string): Option<Value> {
    if v.Object? && name in v.fields then Some(v.fields[name]) else None
  }

  function Judge(v: Value): Verdict {
    if !v.Object? then Ignore
    else if Field(v, "done") == Some(Bool(true)) then Done
    else
      match Field(v, "delta")
      case None => Ignore
      case Some(delta) =>
        match Field(delta, "content")
        case Some(Str(text)) => if text == [] then Ignore else Content(text)
        case _ => Ignore
  }

  function Handle(json: Json, line: Bytes): Verdict {
    if !(DATA <= line) then Ignore
    else
      var rest := line[|DATA|..];
      var text := if [SPACE] <= rest then rest[1..] else rest;
      if text == [] then Ignore
      else
        match json(text)
        case None => Ignore
        case Some(v) => Judge(v)
  }

  /** Everything after this point holds for any reader of single lines. */
  type LineReader = Bytes -> Verdict

  function ReaderOf(json: Json): LineReader { line => Handle(json, line) }

  /** The payload of a `data:` line; one space after the colon is not part of it. */
  ghost predicate Carries(line: Bytes, payload: Bytes) {
    || line == DATA + [SPACE] + payload
    || (line == DATA + payload && !([SPACE] <= payload))
  }

  /** The exact lines that end the stream, and the exact lines that yield a text. */
  lemma HandleMeaning(json: Json, line: Bytes)
    ensures Handle(json, line) == Done <==>
            exists p, fields :: Carries(line, p) && p != [] && json(p) == Some(Object(fields))
              && "done" in fields && fields["done"] == Bool(true)
    ensures forall text :: Handle(json, line) == Content(text) <==>
            text != [] && exists p, fields, inner :: (
              Carries(line, p) && p != [] && json(p) == Some(Object(fields))
              && !("done" in fields && fields["done"] == Bool(true))
              && "delta" in fields && fields["delta"] == Object(inner)
              && "content" in inner && inner["content"] == Str(text))
  {
  }

  // ---------------------------------------------------------------------
  // The batch reading
  // ---------------------------------------------------------------------

  /** The contents of the lines before the first one that says `done`. */
  function UntilDone(read: LineReader, lines: seq<Bytes>): seq<Bytes> {
    if lines == [] then []
    else
      match read(lines[0])
      case Done => []
      case Ignore => UntilDone(read, lines[1..])
      case Content(text) => [text] + UntilDone(read, lines[1..])
  }

  function ContentsOf(read: LineReader, text: Bytes): seq<Bytes> { UntilDone(read, LinesOf(text)) }

  /** Decode everything, split into lines, read each line, stop at the first `done`. */
  function Batch(read: LineReader, bytes: Bytes): seq<Bytes> { ContentsOf(read, Lossy(bytes)) }

  // ---------------------------------------------------------------------
  // The incremental parser
  // ---------------------------------------------------------------------

  datatype ParserState = ParserState(buffer: Bytes, pending: Bytes, done: bool)

  const INITIAL: ParserState := ParserState([], [], false)

  datatype Drained = Drained(contents: seq<Bytes>, rest: Bytes, done: bool)

  /** The effect of one line in front of what is drained after it. */
  function InFront(v: Verdict, rest: Bytes, d: Drained): Drained {
    match v
    case Done => Drained([], rest, true)
    case Ignore => d
    case Content(c) => d.(contents := [c] + d.contents)
  }

  /** Take lines until there is no complete one left, or one says `done`. */
  function Drain(read: LineReader, text: Bytes, flush: bool): Drained
    decreases |text|
  {
    match NextLine(text, flush)
    case NoLine => Drained([], text, false)
    case Line(line, rest) => InFront(read(line), rest, Drain(read, rest, flush))
  }

  /** `Oversized` is the connection error of the 1 MiB guard. */
  datatype Reply = Contents(contents: seq<Bytes>) | Oversized

  function Feed(read: LineReader, st: ParserState, chunk: Bytes): (ParserState, Reply) {
    if st.done || chunk == [] then (st, Contents([]))
    else
      var bytes := st.pending + chunk;
      var d := Drain(read, st.buffer + Text(bytes), false);
      (ParserState(d.rest, Tail(bytes), d.done),
       if |d.rest| + |Tail(bytes)| > MAX_SSE_LINE_BYTES then Oversized else Contents(d.contents))
  }

  function Finalize(read: LineReader, st: ParserState): (ParserState, Reply) {
    if st.done then (st, Contents([]))
    else
      var text := st.buffer + Lossy(st.pending);
      if |text| > MAX_SSE_LINE_BYTES then (ParserState(text, [], false), Oversized)
      else
        var d := Drain(read, text, true);
        (ParserState(d.rest, [], d.done), Contents(d.contents))
  }

  /** A run over all chunks and the end of the stream. A rejected feed drops its own contents. */
  datatype Run = Accepted(contents: seq<Bytes>) | Rejected(contents: seq<Bytes>, doneSeen: bool)

  function RunFrom(read: LineReader, st: ParserState, chunks: seq<Bytes>): Run
    decreases |chunks|
  {
    if chunks == [] then
      match Finalize(read, st).1
      case Contents(c) => Accepted(c)
      case Oversized => Rejected([], false)
    else
      var (st', reply) := Feed(read, st, chunks[0]);
      match reply
      case Oversized => Rejected([], st'.done)
      case Contents(c) =>
        var r := RunFrom(read, st', chunks[1..]);
        r.(contents := c + r.contents)
  }

  function RunAll(read: LineReader, chunks: seq<Bytes>): Run { RunFrom(read, INITIAL, chunks) }

  // ---------------------------------------------------------------------
  // Draining a text in pieces
  // ---------------------------------------------------------------------

  lemma NextLineStable(t: Bytes, more: Bytes)
    requires NextLine(t, false).Line?
    ensures NextLine(t + more, false) == Line(NextLine(t, false).line, NextLine(t, false).rest + more)
  {
    BreakIsFinal(t, more, FirstBreak(t));
  }

  /** Draining on, once more text has come. */
  function Continue(read: LineReader, d: Drained, more: Bytes): Drained {
    if d.done then d.(rest := d.rest + more)
    else var e := Drain(read, d.rest + more, false); e.(contents := d.contents + e.contents)
  }

  lemma DrainStep(read: LineReader, t: Bytes, line: Bytes, rest: Bytes)
    requires NextLine(t, false) == Line(line, rest)
    ensures Drain(read, t, false) == InFront(read(line), rest, Drain(read, rest, false))
  {
  }

  lemma ContinueInFront(read: LineReader, v: Verdict, rest: Bytes, d: Drained, more: Bytes)
    ensures Continue(read, InFront(v, rest, d), more) == InFront(v, rest + more, Continue(read, d, more))
  {
  }

  lemma {:induction false} DrainInPieces(read: LineReader, t: Bytes, more: Bytes)
    ensures Drain(read, t + more, false) == Continue(read, Drain(read, t, false), more)
    decreases |t|
  {
    if NextLine(t, false).NoLine? {
      ContinueFresh(read, t, more);
    } else {
      var Line(line, rest) := NextLine(t, false);
      NextLineStable(t, more);
      DrainStep(read, t, line, rest);
      DrainStep(read, t + more, line, rest + more);
      DrainInPieces(read, rest, more);
      ContinueInFront(read, read(line), rest, Drain(read, rest, false), more);
    }
  }

  lemma ContinueFresh(read: LineReader, t: Bytes, more: Bytes)
    requires NextLine(t, false).NoLine?
    ensures Drain(read, t + more, false) == Continue(read, Drain(read, t, false), more)
  {
    var e := Drain(read, t + more, false);
    assert Drain(read, t, false) == Drained([], t, false) && [] + e.contents == e.contents;
  }

  /** The contents once `more` has come, given what has been drained. */
  function Complete(read: LineReader, d: Drained, more: Bytes): seq<Bytes> {
    d.contents + if d.done then [] else ContentsOf(read, d.rest + more)
  }

  lemma CompleteInFront(read: LineReader, line: Bytes, rest: Bytes, d: Drained, more: Bytes, lines: seq<Bytes>)
    requires Complete(read, d, more) == UntilDone(read, lines)
    ensures Complete(read, InFront(read(line), rest, d), more) == UntilDone(read, [line] + lines)
  {
  }

  /** Contents drained early are the first contents of every completion of the text. */
  lemma {:induction false} DrainIsPrefix(read: LineReader, t: Bytes, more: Bytes)
    ensures ContentsOf(read, t + more) == Complete(read, Drain(read, t, false), more)
    decreases |t|
  {
    match NextLine(t, false)
    case NoLine =>
      assert Drain(read, t, false) == Drained([], t, false);
    case Line(line, rest) =>
      NextLineIsFinal(t, more);
      DrainStep(read, t, line, rest);
      DrainIsPrefix(read, rest, more);
      CompleteInFront(read, line, rest, Drain(read, rest, false), more, LinesOf(rest + more));
  }

  lemma {:induction false} DrainFlush(read: LineReader, t: Bytes)
    ensures Drain(read, t, true).contents == ContentsOf(read, t)
    ensures Drain(read, t, true).done || Drain(read, t, true).rest == []
    decreases |t|
  {
    NextLineFlush(t);
    match NextLine(t, true)
    case NoLine =>
    case Line(line, rest) =>
      DrainFlush(read, rest);
      FlushInFront(read, line, rest, Drain(read, rest, true), LinesOf(rest));
  }

  lemma FlushInFront(read: LineReader, line: Bytes, rest: Bytes, d: Drained, lines: seq<Bytes>)
    requires d.contents == UntilDone(read, lines) && (d.done || d.rest == [])
    ensures InFront(read(line), rest, d).contents == UntilDone(read, [line] + lines)
    ensures InFront(read(line), rest, d).done || InFront(read(line), rest, d).rest == []
  {
    assert ([line] + lines)[1..] == lines;
  }

  lemma {:induction false} DrainHolds(read: LineReader, t: Bytes)
    ensures var d := Drain(read, t, false); d.done || Held(d.rest)
    decreases |t|
  {
    NextLineIsFinal(t, []);
    if NextLine(t, false).Line? {
      DrainHolds(read, NextLine(t, false).rest);
    }
  }

  lemma {:induction false} DrainWellFormed(read: LineReader, t: Bytes, flush: bool)
    requires WellFormed(t)
    ensures WellFormed(Drain(read, t, flush).rest)
    decreases |t|
  {
    NextLineWellFormed(t, flush);
    if NextLine(t, flush).Line? {
      DrainWellFormed(read, NextLine(t, flush).rest, flush);
    }
  }

  // ---------------------------------------------------------------------
  // Theorem: the contents do not depend on the chunking
  // ---------------------------------------------------------------------

  /**
   From any state that has not seen `done`, an accepted run reads exactly what the batch
   reading finds in the retained text and the bytes to come; a rejected run has yielded
   a prefix of that.
   */
  lemma {:induction false} RunFromIsBatch(read: LineReader, st: ParserState, chunks: seq<Bytes>)
    requires !st.done
    ensures Reads(RunFrom(read, st, chunks), ContentsOf(read, st.buffer + Lossy(st.pending + Flatten(chunks))))
    decreases |chunks|
  {
    if chunks == [] {
      assert st.pending + [] == st.pending;
      DrainFlush(read, st.buffer + Lossy(st.pending));
    } else if chunks[0] == [] {
      assert [] + Flatten(chunks[1..]) == Flatten(chunks[1..]);
      RunFromIsBatch(read, st, chunks[1..]);
    } else {
      var st' := Feed(read, st, chunks[0]).0;
      var future := Lossy(st'.pending + Flatten(chunks[1..]));
      FeedIsPrefix(read, st, chunks[0], Flatten(chunks[1..]));
      if st'.done {
        DoneRun(read, st', chunks[1..]);
      } else {
        RunFromIsBatch(read, st', chunks[1..]);
      }
    }
  }

  /** An accepted run yields `all`; a rejected one a prefix of it. */
  predicate Reads(r: Run, all: seq<Bytes>) {
    match r
    case Accepted(c) => c == all
    case Rejected(c, _) => c <= all
  }

  /** One feed takes the front of what the retained text and all later bytes contain. */
  lemma FeedIsPrefix(read: LineReader, st: ParserState, chunk: Bytes, later: Bytes)
    requires !st.done && chunk != []
    ensures var st' := Feed(read, st, chunk).0;
            var front := Drain(read, st.buffer + Text(st.pending + chunk), false).contents;
            && Feed(read, st, chunk).1 in {Contents(front), Oversized}
            && ContentsOf(read, st.buffer + Lossy(st.pending + (chunk + later)))
               == front + if st'.done then [] else ContentsOf(read, st'.buffer + Lossy(st'.pending + later))
  {
    var bytes := st.pending + chunk;
    Associate(st.pending, chunk, later);
    DecodeInPieces(bytes, later);
    Associate(st.buffer, Text(bytes), Lossy(Tail(bytes) + later));
    DrainIsPrefix(read, st.buffer + Text(bytes), Lossy(Tail(bytes) + later));
  }

  /** After `done` nothing is yielded and nothing is rejected. */
  lemma {:induction false} DoneRun(read: LineReader, st: ParserState, chunks: seq<Bytes>)
    requires st.done
    ensures RunFrom(read, st, chunks) == Accepted([])
    decreases |chunks|
  {
    if chunks != [] {
      DoneRun(read, st, chunks[1..]);
    }
  }

  /** The headline: every accepted chunking of a byte string reads its batch contents. */
  lemma {:induction false} ChunkingDoesNotMatter(read: LineReader, chunks: seq<Bytes>)
    ensures Reads(RunAll(read, chunks), Batch(read, Flatten(chunks)))
  {
    RunFromIsBatch(read, INITIAL, chunks);
    assert [] + Flatten(chunks) == Flatten(chunks);
    assert [] + Lossy(Flatten(chunks)) == Lossy(Flatten(chunks));
  }

  lemma {:induction false} TwoChunkingsAgree(read: LineReader, one: seq<Bytes>, other: seq<Bytes>)
    requires Flatten(one) == Flatten(other)
    requires RunAll(read, one).Accepted? && RunAll(read, other).Accepted?
    ensures RunAll(read, one) == RunAll(read, other)
  {
    ChunkingDoesNotMatter(read, one);
    ChunkingDoesNotMatter(read, other);
  }

  // ---------------------------------------------------------------------
  // Theorem: the state is a function of the bytes, and so is rejection
  // ---------------------------------------------------------------------

  /** The state after `bytes` in one piece, before any guard. */
  function StateAfter(read: LineReader, bytes: Bytes): ParserState {
    var d := Drain(read, Text(bytes), false);
    ParserState(d.rest, Tail(bytes), d.done)
  }

  function Retained(st: ParserState): nat { |st.buffer| + |st.pending| }

  lemma FeedAdvances(read: LineReader, bytes: Bytes, chunk: Bytes)
    requires !StateAfter(read, bytes).done
    ensures Feed(read, StateAfter(read, bytes), chunk).0 == StateAfter(read, bytes + chunk)
    ensures Feed(read, StateAfter(read, bytes), chunk).1.Oversized? <==>
            chunk != [] && Retained(StateAfter(read, bytes + chunk)) > MAX_SSE_LINE_BYTES
  {
    DecodeInPieces(bytes, chunk);
    DrainInPieces(read, Text(bytes), Text(Tail(bytes) + chunk));
    if chunk == [] {
      assert bytes + chunk == bytes;
    }
  }

  /** The k-th feed came before `done` was seen and retained too much. */
  predicate OverflowsAt(read: LineReader, before: Bytes, chunks: seq<Bytes>, k: nat)
    requires 0 < k <= |chunks|
  {
    && !StateAfter(read, before + Flatten(chunks[..k - 1])).done
    && Retained(StateAfter(read, before + Flatten(chunks[..k]))) > MAX_SSE_LINE_BYTES
  }

  ghost predicate FeedOverflows(read: LineReader, before: Bytes, chunks: seq<Bytes>) {
    exists k :: 0 < k <= |chunks| && OverflowsAt(read, before, chunks, k)
  }

  /** The flushed text is too long when the stream ends. */
  ghost predicate EndOverflows(read: LineReader, bytes: Bytes) {
    var st := StateAfter(read, bytes);
    !st.done && |st.buffer + Lossy(st.pending)| > MAX_SSE_LINE_BYTES
  }

  lemma ConcatPrefix(chunks: seq<Bytes>, k: nat)
    requires 0 < k <= |chunks|
    ensures Flatten(chunks[..k]) == chunks[0] + Flatten(chunks[1..][..k - 1])
  {
    assert chunks[..k][1..] == chunks[1..][..k - 1];
  }

  lemma {:induction false} DrainDoneStays(read: LineReader, bytes: Bytes, more: Bytes)
    requires StateAfter(read, bytes).done
    ensures StateAfter(read, bytes + more).done
  {
    DecodeInPieces(bytes, more);
    DrainInPieces(read, Text(bytes), Text(Tail(bytes) + more));
  }

  lemma {:induction false} RejectedFrom(read: LineReader, before: Bytes, chunks: seq<Bytes>)
    requires !StateAfter(read, before).done && Retained(StateAfter(read, before)) <= MAX_SSE_LINE_BYTES
    ensures RunFrom(read, StateAfter(read, before), chunks).Rejected? <==>
            FeedOverflows(read, before, chunks) || EndOverflows(read, before + Flatten(chunks))
    decreases |chunks|
  {
    if chunks == [] {
      assert before + [] == before;
    } else {
      var c, rest := chunks[0], chunks[1..];
      FeedAdvances(read, before, c);
      Associate(before, c, Flatten(rest));
      OverflowStep(read, before, chunks);
      if c == [] {
        assert before + c == before;
      }
      if Retained(StateAfter(read, before + c)) <= MAX_SSE_LINE_BYTES {
        if StateAfter(read, before + c).done {
          NoOverflowAfterDone(read, before + c, rest);
        } else {
          RejectedFrom(read, before + c, rest);
        }
      }
    }
  }

  lemma NoOverflowAfterDone(read: LineReader, before: Bytes, chunks: seq<Bytes>)
    requires StateAfter(read, before).done
    ensures RunFrom(read, StateAfter(read, before), chunks).Accepted?
    ensures !FeedOverflows(read, before, chunks) && !EndOverflows(read, before + Flatten(chunks))
  {
    DoneRun(read, StateAfter(read, before), chunks);
    DrainDoneStays(read, before, Flatten(chunks));
    forall k | 0 < k <= |chunks| ensures !OverflowsAt(read, before, chunks, k) {
      DrainDoneStays(read, before, Flatten(chunks[..k - 1]));
    }
  }

  lemma OverflowShift(read: LineReader, before: Bytes, chunks: seq<Bytes>, k: nat)
    requires 1 < k <= |chunks|
    ensures OverflowsAt(read, before, chunks, k) <==> OverflowsAt(read, before + chunks[0], chunks[1..], k - 1)
  {
    ConcatPrefix(chunks, k);
    ConcatPrefix(chunks, k - 1);
    Associate(before, chunks[0], Flatten(chunks[1..][..k - 1]));
    Associate(before, chunks[0], Flatten(chunks[1..][..k - 2]));
  }

  lemma OverflowStep(read: LineReader, before: Bytes, chunks: seq<Bytes>)
    requires chunks != [] && !StateAfter(read, before).done
    ensures FeedOverflows(read, before, chunks) <==>
            Retained(StateAfter(read, before + chunks[0])) > MAX_SSE_LINE_BYTES
            || FeedOverflows(read, before + chunks[0], chunks[1..])
  {
    assert before + Flatten(chunks[..0]) == before;
    ConcatPrefix(chunks, 1);
    assert chunks[0] + [] == chunks[0];
    assert OverflowsAt(read, before, chunks, 1) <==> Retained(StateAfter(read, before + chunks[0])) > MAX_SSE_LINE_BYTES;
    forall k | 1 < k <= |chunks|
      ensures OverflowsAt(read, before, chunks, k) <==> OverflowsAt(read, before + chunks[0], chunks[1..], k - 1)
    {
      OverflowShift(read, before, chunks, k);
    }
    if FeedOverflows(read, before + chunks[0], chunks[1..]) {
      var k :| 0 < k <= |chunks[1..]| && OverflowsAt(read, before + chunks[0], chunks[1..], k);
      assert OverflowsAt(read, before, chunks, k + 1);
    }
  }

  /**
   Exactly when a run is rejected: at some cut, not after a `done` line, the one-shot
   state at that cut retains more than the bound, or the flushed rest does at the end.
   */
  lemma RejectedIff(read: LineReader, chunks: seq<Bytes>)
    ensures RunAll(read, chunks).Rejected? <==>
            FeedOverflows(read, [], chunks) || EndOverflows(read, Flatten(chunks))
  {
    assert StateAfter(read, []) == INITIAL;
    RejectedFrom(read, [], chunks);
    assert [] + Flatten(chunks) == Flatten(chunks);
  }

  // ---------------------------------------------------------------------
  // Theorem: what a rejected run has yielded
  // ---------------------------------------------------------------------

  /** The lines of `t` that no later text can change, and the text behind them. */
  datatype Settled = Settled(lines: seq<Bytes>, held: Bytes)

  function CompleteLines(t: Bytes): Settled
    decreases |t|
  {
    match NextLine(t, false)
    case NoLine => Settled([], t)
    case Line(line, rest) => var s := CompleteLines(rest); Settled([line] + s.lines, s.held)
  }

  /** They are the first lines of every completion of `t`, and what is held contains no complete line. */
  lemma {:induction false} CompleteLinesMeaning(t: Bytes, more: Bytes)
    ensures var s := CompleteLines(t);
            LinesOf(t + more) == s.lines + LinesOf(s.held + more) && Held(s.held)
    decreases |t|
  {
    NextLineIsFinal(t, more);
    match NextLine(t, false)
    case NoLine =>
    case Line(line, rest) =>
      CompleteLinesMeaning(rest, more);
      Associate([line], CompleteLines(rest).lines, LinesOf(CompleteLines(rest).held + more));
  }

  /** The contents of the complete lines of the text settled by `bytes`. */
  function ContentsAfter(read: LineReader, bytes: Bytes): seq<Bytes> {
    UntilDone(read, CompleteLines(Text(bytes)).lines)
  }

  lemma {:induction false} DrainCompletes(read: LineReader, t: Bytes)
    ensures Drain(read, t, false).contents == UntilDone(read, CompleteLines(t).lines)
    decreases |t|
  {
    match NextLine(t, false)
    case NoLine =>
    case Line(line, rest) =>
      DrainCompletes(read, rest);
      DrainStep(read, t, line, rest);
      assert ([line] + CompleteLines(rest).lines)[1..] == CompleteLines(rest).lines;
  }

  /** An accepted feed yields the contents of the lines that it completes. */
  lemma FeedYields(read: LineReader, before: Bytes, chunk: Bytes)
    requires !StateAfter(read, before).done && Feed(read, StateAfter(read, before), chunk).1.Contents?
    ensures ContentsAfter(read, before + chunk) ==
            ContentsAfter(read, before) + Feed(read, StateAfter(read, before), chunk).1.contents
  {
    DecodeInPieces(before, chunk);
    DrainInPieces(read, Text(before), Text(Tail(before) + chunk));
    DrainCompletes(read, Text(before));
    DrainCompletes(read, Text(before + chunk));
    if chunk == [] {
      assert before + chunk == before;
    }
  }

  /** The k-th feed is the first one that retains too much. */
  ghost predicate FirstOverflow(read: LineReader, before: Bytes, chunks: seq<Bytes>, k: nat) {
    0 < k <= |chunks| && OverflowsAt(read, before, chunks, k)
    && forall j :: 0 < j < k ==> !OverflowsAt(read, before, chunks, j)
  }

  lemma FirstOverflowShift(read: LineReader, before: Bytes, chunks: seq<Bytes>, k: nat)
    requires k > 1 && FirstOverflow(read, before, chunks, k) && !StateAfter(read, before).done
    ensures Retained(StateAfter(read, before + chunks[0])) <= MAX_SSE_LINE_BYTES
    ensures !StateAfter(read, before + chunks[0]).done
    ensures FirstOverflow(read, before + chunks[0], chunks[1..], k - 1)
  {
    var c := chunks[0];
    OneChunk(read, before, chunks);
    ConcatPrefix(chunks, k - 1);
    Associate(before, c, Flatten(chunks[1..][..k - 2]));
    if StateAfter(read, before + c).done {
      DrainDoneStays(read, before + c, Flatten(chunks[1..][..k - 2]));
    }
    forall j | 0 < j <= k - 1
      ensures OverflowsAt(read, before + c, chunks[1..], j) <==> OverflowsAt(read, before, chunks, j + 1)
    {
      OverflowShift(read, before, chunks, j + 1);
    }
  }

  lemma OneChunk(read: LineReader, before: Bytes, chunks: seq<Bytes>)
    requires chunks != [] && !StateAfter(read, before).done
    ensures OverflowsAt(read, before, chunks, 1) <==> Retained(StateAfter(read, before + chunks[0])) > MAX_SSE_LINE_BYTES
  {
    assert before + Flatten(chunks[..0]) == before;
    ConcatPrefix(chunks, 1);
    assert chunks[0] + [] == chunks[0];
  }

  lemma {:induction false} RejectedByFeed(read: LineReader, before: Bytes, chunks: seq<Bytes>, k: nat)
    requires !StateAfter(read, before).done && Retained(StateAfter(read, before)) <= MAX_SSE_LINE_BYTES
    requires FirstOverflow(read, before, chunks, k)
    ensures var run := RunFrom(read, StateAfter(read, before), chunks);
            && run.Rejected? && run.doneSeen == StateAfter(read, before + Flatten(chunks[..k])).done
            && ContentsAfter(read, before) + run.contents == ContentsAfter(read, before + Flatten(chunks[..k - 1]))
    decreases |chunks|
  {
    var c, rest := chunks[0], chunks[1..];
    FeedAdvances(read, before, c);
    ConcatPrefix(chunks, k);
    if c == [] {
      assert before + c == before;
    }
    if k == 1 {
      OneChunk(read, before, chunks);
      assert c + [] == c && before + [] == before;
    } else {
      FirstOverflowShift(read, before, chunks, k);
      FeedYields(read, before, c);
      RejectedByFeed(read, before + c, rest, k - 1);
      ConcatPrefix(chunks, k - 1);
      Associate(before, c, Flatten(rest[..k - 1]));
      Associate(before, c, Flatten(rest[..k - 2]));
      AfterFeed(read, before, chunks, ContentsAfter(read, before));
    }
  }

  /** The run behind an accepted feed. */
  lemma AfterFeed(read: LineReader, before: Bytes, chunks: seq<Bytes>, earlier: seq<Bytes>)
    requires chunks != [] && !StateAfter(read, before).done
    requires Feed(read, StateAfter(read, before), chunks[0]).1.Contents?
    ensures var run := RunFrom(read, StateAfter(read, before), chunks);
            var rest := RunFrom(read, StateAfter(read, before + chunks[0]), chunks[1..]);
            && run.Rejected? == rest.Rejected? && (run.Rejected? ==> run.doneSeen == rest.doneSeen)
            && earlier + run.contents ==
               earlier + Feed(read, StateAfter(read, before), chunks[0]).1.contents + rest.contents
  {
    FeedAdvances(read, before, chunks[0]);
    Associate(earlier, Feed(read, StateAfter(read, before), chunks[0]).1.contents,
              RunFrom(read, StateAfter(read, before + chunks[0]), chunks[1..]).contents);
  }

  lemma {:induction false} RejectedAtEnd(read: LineReader, before: Bytes, chunks: seq<Bytes>)
    requires !StateAfter(read, before).done && Retained(StateAfter(read, before)) <= MAX_SSE_LINE_BYTES
    requires !FeedOverflows(read, before, chunks) && EndOverflows(read, before + Flatten(chunks))
    ensures var run := RunFrom(read, StateAfter(read, before), chunks);
            && run.Rejected? && !run.doneSeen
            && ContentsAfter(read, before) + run.contents == ContentsAfter(read, before + Flatten(chunks))
    decreases |chunks|
  {
    if chunks == [] {
      assert before + [] == before;
      assert ContentsAfter(read, before) + [] == ContentsAfter(read, before);
    } else {
      var c, rest := chunks[0], chunks[1..];
      FeedAdvances(read, before, c);
      OverflowStep(read, before, chunks);
      Associate(before, c, Flatten(rest));
      if c == [] {
        assert before + c == before;
      }
      if StateAfter(read, before + c).done {
        DrainDoneStays(read, before + c, Flatten(rest));
      }
      FeedYields(read, before, c);
      RejectedAtEnd(read, before + c, rest);
      AfterFeed(read, before, chunks, ContentsAfter(read, before));
    }
  }

  /** The least of the feeds that retain too much. */
  lemma {:induction false} LeastOverflow(read: LineReader, before: Bytes, chunks: seq<Bytes>, k: nat) returns (first: nat)
    requires 0 < k <= |chunks| && OverflowsAt(read, before, chunks, k)
    ensures first <= k && FirstOverflow(read, before, chunks, first)
    decreases k
  {
    first := k;
    if j :| 0 < j < k && OverflowsAt(read, before, chunks, j) {
      first := LeastOverflow(read, before, chunks, j);
    }
  }

  /**
   What a rejected run has yielded: exactly the contents of the lines complete before the
   first feed that retained too much, or before the end if no feed did.
   */
  lemma RejectedContents(read: LineReader, chunks: seq<Bytes>) returns (accepted: nat)
    requires RunAll(read, chunks).Rejected?
    ensures accepted <= |chunks|
    ensures RunAll(read, chunks).contents == ContentsAfter(read, Flatten(chunks[..accepted]))
    ensures if accepted < |chunks| then
              FirstOverflow(read, [], chunks, accepted + 1)
              && RunAll(read, chunks).doneSeen == StateAfter(read, Flatten(chunks[..accepted + 1])).done
            else !FeedOverflows(read, [], chunks) && !RunAll(read, chunks).doneSeen
  {
    RejectedIff(read, chunks);
    if k :| 0 < k <= |chunks| && OverflowsAt(read, [], chunks, k) {
      var first := LeastOverflow(read, [], chunks, k);
      accepted := first - 1;
      AtFeed(read, chunks, first);
    } else {
      accepted := |chunks|;
      assert chunks[..accepted] == chunks;
      AtEnd(read, chunks);
    }
  }

  lemma AtFeed(read: LineReader, chunks: seq<Bytes>, k: nat)
    requires FirstOverflow(read, [], chunks, k)
    ensures RunAll(read, chunks).contents == ContentsAfter(read, Flatten(chunks[..k - 1]))
    ensures RunAll(read, chunks).Rejected? && RunAll(read, chunks).doneSeen == StateAfter(read, Flatten(chunks[..k])).done
  {
    assert StateAfter(read, []) == INITIAL && ContentsAfter(read, []) == [];
    RejectedByFeed(read, [], chunks, k);
    WithoutFront(RunAll(read, chunks).contents, Flatten(chunks[..k]), Flatten(chunks[..k - 1]));
  }

  lemma AtEnd(read: LineReader, chunks: seq<Bytes>)
    requires !FeedOverflows(read, [], chunks) && EndOverflows(read, Flatten(chunks))
    ensures RunAll(read, chunks).contents == ContentsAfter(read, Flatten(chunks))
    ensures RunAll(read, chunks).Rejected? && !RunAll(read, chunks).doneSeen
  {
    assert StateAfter(read, []) == INITIAL && ContentsAfter(read, []) == [];
    WithoutFront(RunAll(read, chunks).contents, Flatten(chunks), Flatten(chunks));
    RejectedAtEnd(read, [], chunks);
  }

  lemma WithoutFront<T>(a: seq<seq<T>>, b: seq<T>, c: seq<T>)
    ensures [] + a == a && [] + b == b && [] + c == c
  {
  }

  // ---------------------------------------------------------------------
  // Theorem: short lines are never rejected before `done`
  // ---------------------------------------------------------------------

  /** No line is longer than `bound` bytes. */
  predicate AllShort(lines: seq<Bytes>, bound: int) {
    lines == [] || (|lines[0]| <= bound && AllShort(lines[1..], bound))
  }

  predicate LinesFit(text: Bytes, bound: int) { AllShort(LinesOf(text), bound) }

  lemma FitAfterLine(t: Bytes, more: Bytes, line: Bytes, rest: Bytes, bound: int)
    requires NextLine(t, false) == Line(line, rest) && LinesFit(t + more, bound)
    ensures LinesFit(rest + more, bound)
  {
    NextLineIsFinal(t, more);
    assert ([line] + LinesOf(rest + more))[1..] == LinesOf(rest + more);
  }

  lemma InFrontRest(v: Verdict, rest: Bytes, d: Drained)
    requires !InFront(v, rest, d).done
    ensures !d.done && InFront(v, rest, d).rest == d.rest
  {
  }

  lemma {:induction false} DrainKeepsLinesFit(read: LineReader, t: Bytes, more: Bytes, bound: int)
    requires LinesFit(t + more, bound) && !Drain(read, t, false).done
    ensures LinesFit(Drain(read, t, false).rest + more, bound)
    decreases |t|
  {
    match NextLine(t, false)
    case NoLine =>
      assert Drain(read, t, false) == Drained([], t, false);
    case Line(line, rest) =>
      FitAfterLine(t, more, line, rest, bound);
      DrainStep(read, t, line, rest);
      InFrontRest(read(line), rest, Drain(read, rest, false));
      DrainKeepsLinesFit(read, rest, more, bound);
  }

  lemma HeldFits(t: Bytes, more: Bytes, bound: nat)
    requires Held(t) && LinesFit(t + more, bound)
    ensures |t| <= bound + 1 && (NoBreak(t) ==> |t| <= bound)
  {
    if t != [] {
      HeldStartsALine(t, more);
    }
  }

  lemma HeldFlushFits(st: ParserState, bound: nat)
    requires Held(st.buffer) && Tail(st.pending) == st.pending
    requires LinesFit(st.buffer + Lossy(st.pending), bound)
    ensures |st.buffer + Lossy(st.pending)| <= bound + 4
  {
    LossyIsTextThenFlush(st.pending);
    HeldFits(st.buffer, Lossy(st.pending), bound);
  }

  lemma {:induction false} TailTwice(s: Bytes)
    ensures Tail(Tail(s)) == Tail(s)
  {
    if s != [] && !NextUnit(s).Incomplete? {
      TailTwice(s[NextUnit(s).len..]);
    }
  }

  /** With `later` still to come, every line is short; the state is one between feeds. */
  ghost predicate KeepsShort(st: ParserState, later: Bytes) {
    && !st.done && Held(st.buffer) && Tail(st.pending) == st.pending
    && LinesFit(st.buffer + Lossy(st.pending + later), MAX_SSE_LINE_BYTES - 4)
  }

  lemma ShortLinesFeed(read: LineReader, st: ParserState, chunk: Bytes, later: Bytes)
    requires KeepsShort(st, chunk + later) && chunk != [] && !Feed(read, st, chunk).0.done
    ensures Feed(read, st, chunk).1.Contents? && KeepsShort(Feed(read, st, chunk).0, later)
  {
    var bytes := st.pending + chunk;
    var more := Lossy(Tail(bytes) + later);
    Associate(st.pending, chunk, later);
    DecodeInPieces(bytes, later);
    Associate(st.buffer, Text(bytes), more);
    DrainKeepsLinesFit(read, st.buffer + Text(bytes), more, MAX_SSE_LINE_BYTES - 4);
    DrainHolds(read, st.buffer + Text(bytes));
    HeldFits(Drain(read, st.buffer + Text(bytes), false).rest, more, MAX_SSE_LINE_BYTES - 4);
    TailTwice(bytes);
  }

  lemma {:induction false} ShortLinesFrom(read: LineReader, st: ParserState, chunks: seq<Bytes>)
    requires KeepsShort(st, Flatten(chunks))
    ensures RunFrom(read, st, chunks).Rejected? ==> RunFrom(read, st, chunks).doneSeen
    decreases |chunks|
  {
    if chunks == [] {
      assert st.pending + [] == st.pending;
      HeldFlushFits(st, MAX_SSE_LINE_BYTES - 4);
    } else if chunks[0] == [] {
      assert [] + Flatten(chunks[1..]) == Flatten(chunks[1..]);
      ShortLinesFrom(read, st, chunks[1..]);
    } else {
      var st' := Feed(read, st, chunks[0]).0;
      if st'.done {
        DoneRun(read, st', chunks[1..]);
      } else {
        ShortLinesFeed(read, st, chunks[0], Flatten(chunks[1..]));
        ShortLinesFrom(read, st', chunks[1..]);
      }
    }
  }

  /**
   If every decoded line leaves room for a held CR and three undecoded bytes, then no
   chunking is rejected, except by a feed that itself read the `done` line.
   */
  lemma ShortLinesAreNotRejected(read: LineReader, chunks: seq<Bytes>)
    requires LinesFit(Lossy(Flatten(chunks)), MAX_SSE_LINE_BYTES - 4)
    ensures RunAll(read, chunks).Rejected? ==> RunAll(read, chunks).doneSeen
  {
    assert [] + Flatten(chunks) == Flatten(chunks);
    assert [] + Lossy(Flatten(chunks)) == Lossy(Flatten(chunks));
    ShortLinesFrom(read, INITIAL, chunks);
  }
}
