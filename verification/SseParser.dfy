/**
 The parser object: each method updates the buffer, the undecoded bytes and the `done`
 flag in place, and is proved against the state functions of `SseSpec`.
 */
module SseParsers {
  import opened Basics
  import opened Utf8
  import opened Lines
  import opened SseSpec

  class SseParser {
    const json: Json
    var buffer: Bytes
    var pending: Bytes
    var done: bool

    /** The buffer is a valid `String`, and the undecoded bytes are one unfinished character. */
    ghost predicate Valid()
      reads this
    {
      WellFormed(buffer) && (pending == [] || IsPartialChar(pending))
    }

    /** Nothing complete is held back, and what is held back is bounded. */
    ghost predicate Settled()
      reads this
    {
      (done || Held(buffer)) && |buffer| + |pending| <= MAX_SSE_LINE_BYTES
    }

    ghost function State(): ParserState
      reads this
    {
      ParserState(buffer, pending, done)
    }

    constructor (json: Json)
      ensures Valid() && Settled() && State() == INITIAL && this.json == json
    {
      this.json := json;
      buffer, pending, done := [], [], false;
    }

    method Feed(chunk: Bytes) returns (reply: Reply)
      requires Valid()
      modifies this
      ensures Valid() && (State(), reply) == SseSpec.Feed(ReaderOf(json), old(State()), chunk)
      ensures old(Settled()) && reply.Contents? ==> Settled()
      ensures |pending| <= 3
    {
      PendingIsShort();
      if done || chunk == [] {
        return Contents([]);
      }
      DrainHolds(ReaderOf(json), buffer + Text(pending + chunk));
      DecodePending(chunk);
      StaysValid(old(buffer), old(pending) + chunk, buffer, pending);
      var lines := DrainLines(false);
      if |buffer| + |pending| > MAX_SSE_LINE_BYTES {
        return Oversized;
      }
      return Contents(lines);
    }

    method Finalize() returns (reply: Reply)
      requires Valid()
      modifies this
      ensures Valid() && (State(), reply) == SseSpec.Finalize(ReaderOf(json), old(State()))
      ensures reply.Contents? && !done ==> buffer == [] && pending == []
    {
      if done {
        return Contents([]);
      }
      if pending != [] {
        var lossy := Lossy(pending);
        TextIsWellFormed(pending);
        WellFormedConcat(buffer, lossy);
        buffer := buffer + lossy;
        pending := [];
      }
      assert buffer == old(buffer) + Lossy(old(pending));
      if |buffer| > MAX_SSE_LINE_BYTES {
        return Oversized;
      }
      DrainFlush(ReaderOf(json), buffer);
      var lines := DrainLines(true);
      return Contents(lines);
    }

    /** Decodes what can be decoded of the bytes held so far followed by `chunk`. */
    method DecodePending(chunk: Bytes)
      modifies this`buffer, this`pending
      ensures buffer == old(buffer) + Text(old(pending) + chunk)
      ensures pending == Tail(old(pending) + chunk)
    {
      pending := pending + chunk;
      var bytes := pending;
      ghost var rest := bytes;
      ghost var text, tail := buffer + Text(rest), Tail(rest);
      var start := 0;
      while start < |bytes|
        invariant start <= |bytes| && rest == bytes[start..]
        invariant Decoding(text, tail, buffer, rest)
      {
        var report := FromUtf8(bytes[start..]);
        DecodingStep(text, tail, buffer, rest);
        if report.Ok? {
          buffer := buffer + bytes[start..];
          pending := [];
          return;
        }
        var validUpTo := report.validUpTo;
        if validUpTo > 0 {
          // Decoding the valid part again cannot fail.
          assert FromUtf8(rest[..validUpTo]) == Ok by { ValidPartIsValid(rest); }
          Slices(bytes, start, validUpTo);
          buffer := buffer + bytes[start..start + validUpTo];
          start := start + validUpTo;
          rest := rest[validUpTo..];
        }
        match report.errorLen {
          case Some(badLen) =>
            Slices(bytes, start, badLen);
            buffer := buffer + REPLACEMENT;
            start := start + badLen;
            rest := rest[badLen..];
          case None => break;
        }
      }
      DecodingEnds(text, tail, buffer, rest);
      pending := bytes[start..];
    }

    method DrainLines(flushPartial: bool) returns (results: seq<Bytes>)
      requires Valid()
      modifies this`buffer, this`done
      ensures Valid()
      ensures if old(done) then results == [] && State() == old(State())
              else Drained(results, buffer, done) == Drain(ReaderOf(json), old(buffer), flushPartial)
    {
      results := [];
      ghost var read := ReaderOf(json);
      ghost var whole := Drain(read, buffer, flushPartial);
      assert [] + whole.contents == whole.contents;
      while !done
        invariant WellFormed(buffer)
        invariant old(done) ==> done && results == [] && buffer == old(buffer)
        invariant !old(done) && done ==> Drained(results, buffer, true) == whole
        invariant !done ==>
          var d := Drain(read, buffer, flushPartial); Drained(results + d.contents, d.rest, d.done) == whole
        decreases !done, |buffer|
      {
        ghost var before := buffer;
        var line := PopLine(flushPartial);
        if line.None? {
          break;
        }
        var content := HandleLine(line.value);
        if content.Some? {
          Associate(results, [content.value], Drain(read, buffer, flushPartial).contents);
          results := results + [content.value];
        }
      }
      assert results + [] == results;
    }

    method PopLine(flushPartial: bool) returns (line: Option<Bytes>)
      requires WellFormed(buffer)
      modifies this`buffer
      ensures WellFormed(buffer)
      ensures match NextLine(old(buffer), flushPartial)
              case NoLine => line == None && buffer == old(buffer)
              case Line(l, rest) => line == Some(l) && buffer == rest
      ensures line.Some? ==> WellFormed(line.value) && |buffer| < |old(buffer)|
    {
      if buffer == [] {
        return None;
      }
      NextLineWellFormed(buffer, flushPartial);
      var idxN := Find(buffer, LF);
      var idxR := Find(buffer, CR);
      match (idxN, idxR) {
        case (None, None) =>
          FirstBreakAtEnd(buffer);
          if flushPartial {
            line := Some(buffer);
            buffer := [];
          } else {
            line := None;
          }
        case (Some(n), None) =>
          NearestBreak(buffer, n, LF, CR, flushPartial);
          line := Some(buffer[..n]);
          buffer := buffer[n + 1..];
        case (None, Some(r)) =>
          NearestBreak(buffer, r, CR, LF, flushPartial);
          if r == |buffer| - 1 && !flushPartial {
            return None;
          }
          var end := if r + 1 < |buffer| && buffer[r + 1] == LF then r + 2 else r + 1;
          line := Some(buffer[..r]);
          buffer := buffer[end..];
        case (Some(n), Some(r)) =>
          if r < n {
            NearestBreak(buffer, r, CR, LF, flushPartial);
            var end := if r + 1 < |buffer| && buffer[r + 1] == LF then r + 2 else r + 1;
            line := Some(buffer[..r]);
            buffer := buffer[end..];
          } else {
            NearestBreak(buffer, n, LF, CR, flushPartial);
            line := Some(buffer[..n]);
            buffer := buffer[n + 1..];
          }
      }
    }

    /** The early returns of the source, against the verdict whose cases `HandleMeaning` spells out. */
    method HandleLine(line: Bytes) returns (content: Option<Bytes>)
      modifies this`done
      ensures match Handle(json, line)
              case Done => done && content == None
              case Ignore => done == old(done) && content == None
              case Content(text) => done == old(done) && content == Some(text)
    {
      if !(DATA <= line) {
        return None;
      }
      var rest := line[|DATA|..];
      var text := if [SPACE] <= rest then rest[1..] else rest;
      if text == [] {
        return None;
      }
      var parsed := json(text);
      if parsed.None? || !parsed.value.Object? {
        return None;
      }
      var obj := parsed.value.fields;
      if "done" in obj && obj["done"].Bool? && obj["done"].b {
        done := true;
        return None;
      }
      if "delta" !in obj || !obj["delta"].Object? {
        return None;
      }
      var delta := obj["delta"].fields;
      if "content" !in delta {
        return None;
      }
      match delta["content"] {
        case Str(found) => content := if found != [] then Some(found) else None;
        case _ => content := None;
      }
    }

    lemma PendingIsShort()
      requires Valid()
      ensures |pending| <= 3
    {
    }
  }

  /** The nearer of two searches is the first line end, and decides the next line. */
  lemma NearestBreak(t: Bytes, i: nat, b: byte, other: byte, flush: bool)
    requires {b, other} == {LF, CR} && i < |t| && t[i] == b && b !in t[..i]
    requires other !in t[..i]
    ensures NextLine(t, flush) ==
            if t[i] == CR && i == |t| - 1 && !flush then NoLine
            else Line(t[..i], t[if t[i] == CR && i + 1 < |t| && t[i + 1] == LF then i + 2 else i + 1..])
  {
  }

  lemma FirstBreakAtEnd(t: Bytes)
    requires LF !in t && CR !in t
    ensures FirstBreak(t) == |t|
  {
  }

  // The decoding loop: `text` and `tail` are what the call must leave in the buffer and
  // among the undecoded bytes; `rest` is what is still to look at.

  ghost predicate Decoding(text: Bytes, tail: Bytes, buffer: Bytes, rest: Bytes) {
    text == buffer + Text(rest) && tail == Tail(rest)
  }

  lemma DecodingEnds(text: Bytes, tail: Bytes, buffer: Bytes, rest: Bytes)
    requires if rest == [] then Decoding(text, tail, buffer, rest) else text == buffer && tail == rest
    ensures text == buffer && tail == rest
  {
  }

  lemma StaysValid(before: Bytes, all: Bytes, buffer: Bytes, pending: Bytes)
    requires WellFormed(before) && buffer == before + Text(all) && pending == Tail(all)
    ensures WellFormed(buffer) && (pending == [] || IsPartialChar(pending))
  {
    TextIsWellFormed(all);
    WellFormedConcat(before, Text(all));
    TailIsPartialChar(all);
  }

  lemma DecodingStep(text: Bytes, tail: Bytes, buffer: Bytes, rest: Bytes)
    requires Decoding(text, tail, buffer, rest)
    ensures var report := FromUtf8(rest);
            if report.Ok? then text == buffer + rest && tail == []
            else
              var buffer' := if report.validUpTo > 0 then buffer + rest[..report.validUpTo] else buffer;
              var rest' := if report.validUpTo > 0 then rest[report.validUpTo..] else rest;
              if report.errorLen.None? then text == buffer' && tail == rest' != []
              else Decoding(text, tail, buffer' + REPLACEMENT, rest'[report.errorLen.value..])
  {
    var report := FromUtf8(rest);
    FromUtf8Meaning(rest);
    FromUtf8Tail(rest);
    Associate(buffer, Emitted(report, rest), Text(Remains(report, rest)));
    if report.Ok? {
      assert buffer + rest + [] == buffer + rest;
    } else {
      var v := report.validUpTo;
      assert v == 0 ==> buffer + rest[..v] == buffer && rest[v..] == rest;
      if report.errorLen.None? {
        OpenEnd(rest);
        assert buffer + rest[..v] + [] == buffer + rest[..v];
      } else {
        Slices(rest, v, report.errorLen.value);
        Associate(buffer, rest[..v], REPLACEMENT);
        var buffer' := if v > 0 then buffer + rest[..v] else buffer;
        var rest' := if v > 0 then rest[v..] else rest;
        assert rest'[report.errorLen.value..] == Remains(report, rest);
        assert buffer' + REPLACEMENT == buffer + Emitted(report, rest);
      }
    }
  }

  lemma Slices(s: Bytes, i: nat, k: nat)
    requires i + k <= |s|
    ensures s[i..][..k] == s[i..i + k] && s[i..][k..] == s[i + k..]
  {
  }
}
