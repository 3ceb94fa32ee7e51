/**
 The stream of contents over a byte stream, the adapter that accumulates it, and the
 blocking iterator on top: what is yielded, in what order, and what happens at the end.
 */
module SseStreams {
  import opened Basics
  import opened Utf8
  import opened SseSpec
  import opened SseParsers

  /** What the byte stream delivers: a chunk, or a transport failure. */
  datatype Event = Chunk(bytes: Bytes) | Failed

  datatype Item = Yield(text: Bytes) | GuardError | TransportError

  function Yields(texts: seq<Bytes>): (items: seq<Item>)
    ensures |items| == |texts| && forall i :: 0 <= i < |texts| ==> items[i] == Yield(texts[i])
  {
    seq(|texts|, i requires 0 <= i < |texts| => Yield(texts[i]))
  }

  // ---------------------------------------------------------------------
  // parse_sse_stream
  // ---------------------------------------------------------------------

  /** Flush, then end with `last`; a flush that is rejected is itself the end. */
  function FlushItems(read: LineReader, st: ParserState, last: seq<Item>): seq<Item> {
    match Finalize(read, st).1
    case Contents(texts) => Yields(texts) + last
    case Oversized => [GuardError]
  }

  function ItemsFrom(read: LineReader, st: ParserState, events: seq<Event>): seq<Item>
    decreases |events|
  {
    if events == [] || st.done then FlushItems(read, st, [])
    else
      match events[0]
      case Failed => FlushItems(read, st, [TransportError])
      case Chunk(bytes) =>
        match Feed(read, st, bytes)
        case (_, Oversized) => [GuardError]
        case (st', Contents(texts)) => Yields(texts) + ItemsFrom(read, st', events[1..])
  }

  /** The loop of `parse_sse_stream` over everything the byte stream delivers. */
  method ParseSseStream(json: Json, events: seq<Event>) returns (out: seq<Item>)
    ensures out == ItemsFrom(ReaderOf(json), INITIAL, events)
  {
    var parser := new SseParser(json);
    out := [];
    var i := 0;
    ghost var read := ReaderOf(json);
    while i < |events|
      invariant i <= |events| && parser.Valid() && parser.json == json
      invariant !parser.done
      invariant ItemsFrom(read, INITIAL, events) == out + ItemsFrom(read, parser.State(), events[i..])
    {
      ghost var before := out;
      match events[i] {
        case Chunk(bytes) =>
          var reply := parser.Feed(bytes);
          if reply.Oversized? {
            return out + [GuardError];
          }
          out := out + Yields(reply.contents);
          Associate(before, Yields(reply.contents), ItemsFrom(read, parser.State(), events[i + 1..]));
          assert events[i..][1..] == events[i + 1..];
          i := i + 1;
          if parser.done {
            break;
          }
        case Failed =>
          var reply := parser.Finalize();
          if reply.Oversized? {
            return out + [GuardError];
          }
          Associate(out, Yields(reply.contents), [TransportError]);
          return out + Yields(reply.contents) + [TransportError];
      }
    }
    assert ItemsFrom(read, parser.State(), events[i..]) == FlushItems(read, parser.State(), []);
    var reply := parser.Finalize();
    if reply.Oversized? {
      return out + [GuardError];
    }
    assert Yields(reply.contents) + [] == Yields(reply.contents);
    out := out + Yields(reply.contents);
  }

  /** The chunks that arrive before the first transport failure. */
  function ChunksOf(events: seq<Event>): seq<Bytes> {
    if events == [] || events[0].Failed? then [] else [events[0].bytes] + ChunksOf(events[1..])
  }

  function RunItems(run: Run, transport: bool): seq<Item> {
    Yields(run.contents)
    + if run.Rejected? then [GuardError] else if transport then [TransportError] else []
  }

  lemma RunItemsAfter(texts: seq<Bytes>, run: Run, transport: bool)
    ensures RunItems(run.(contents := texts + run.contents), transport) == Yields(texts) + RunItems(run, transport)
  {
  }

  lemma {:induction false} ItemsFromIsRun(read: LineReader, before: Bytes, events: seq<Event>)
    requires !StateAfter(read, before).done
    ensures var chunks := ChunksOf(events);
            ItemsFrom(read, StateAfter(read, before), events) ==
            RunItems(RunFrom(read, StateAfter(read, before), chunks),
                     Failed in events && !StateAfter(read, before + Flatten(chunks)).done)
    decreases |events|
  {
    var st := StateAfter(read, before);
    if events == [] || events[0].Failed? {
      assert before + [] == before;
      assert Failed in events <==> events != [];
    } else {
      var c, rest := events[0].bytes, events[1..];
      var chunks := ChunksOf(rest);
      assert ([c] + chunks)[1..] == chunks;
      FeedAdvances(read, before, c);
      Associate(before, c, Flatten(chunks));
      assert Failed in events <==> Failed in rest;
      var (st', reply) := Feed(read, st, c);
      if reply.Contents? {
        if st'.done {
          DoneRun(read, st', chunks);
          DrainDoneStays(read, before + c, Flatten(chunks));
          assert ItemsFrom(read, st', rest) == [];
        } else {
          ItemsFromIsRun(read, before + c, rest);
        }
        RunItemsAfter(reply.contents, RunFrom(read, st', chunks),
                      Failed in rest && !StateAfter(read, before + c + Flatten(chunks)).done);
      }
    }
  }

  /**
   What a consumer sees. Without a guard error: the batch contents of the bytes that
   arrived, then one transport error if the byte stream failed before a `done` line, and
   nothing else. With one: a prefix of the batch contents, then that error only.
   */
  lemma {:induction false} StreamIsBatch(read: LineReader, events: seq<Event>)
    ensures var bytes := Flatten(ChunksOf(events));
            var run := RunAll(read, ChunksOf(events));
            if run.Accepted? then
              ItemsFrom(read, INITIAL, events) == Yields(Batch(read, bytes))
                + if Failed in events && !StateAfter(read, bytes).done then [TransportError] else []
            else
              run.contents <= Batch(read, bytes)
              && ItemsFrom(read, INITIAL, events) == Yields(run.contents) + [GuardError]
  {
    assert StateAfter(read, []) == INITIAL;
    ItemsFromIsRun(read, [], events);
    assert [] + Flatten(ChunksOf(events)) == Flatten(ChunksOf(events));
    ChunkingDoesNotMatter(read, ChunksOf(events));
  }

  // ---------------------------------------------------------------------
  // DialecticStream
  // ---------------------------------------------------------------------

  datatype Poll = Pending | Next(text: Bytes) | Error | End

  predicate Terminal(p: Poll) { p == Error || p == End }

  /** The wrapped stream: `script(i)` is its answer to poll number `i`. */
  class InnerStream {
    const script: nat -> Poll
    var polls: nat

    constructor (script: nat -> Poll)
      ensures this.script == script && polls == 0
    {
      this.script := script;
      polls := 0;
    }

    method PollNext() returns (p: Poll)
      modifies this
      ensures p == script(old(polls)) && polls == old(polls) + 1
    {
      p := script(polls);
      polls := polls + 1;
    }
  }

  /** The concatenated texts of the first `n` polls. */
  function Accumulated(script: nat -> Poll, n: nat): Bytes {
    if n == 0 then []
    else Accumulated(script, n - 1) + if script(n - 1).Next? then script(n - 1).text else []
  }

  class DialecticStream {
    const inner: InnerStream
    var content: Bytes
    var complete: bool
    var errored: bool

    /** The three fields are determined by the answers received; only the last can be final. */
    ghost predicate Valid()
      reads this, inner
    {
      && content == Accumulated(inner.script, inner.polls)
      && (forall i :: 0 <= i < inner.polls - 1 ==> !Terminal(inner.script(i)))
      && (complete <==> inner.polls > 0 && Terminal(inner.script(inner.polls - 1)))
      && (errored <==> inner.polls > 0 && inner.script(inner.polls - 1) == Error)
    }

    constructor (inner: InnerStream)
      requires inner.polls == 0
      ensures Valid() && this.inner == inner && content == [] && !complete
    {
      this.inner := inner;
      content, complete, errored := [], false, false;
    }

    method PollNext() returns (p: Poll)
      requires Valid()
      modifies this, inner
      ensures Valid()
      ensures old(complete) ==> p == End && complete && inner.polls == old(inner.polls) && content == old(content)
      ensures !old(complete) ==> p == inner.script(old(inner.polls)) && inner.polls == old(inner.polls) + 1
    {
      if complete {
        return End;
      }
      p := inner.PollNext();
      match p {
        case Next(text) => content := content + text;
        case Error => complete, errored := true, true;
        case End => complete := true;
        case Pending =>
      }
    }
  }

  // What a wrapped stream that delivers given items makes of the accumulated content.
  // It may answer Pending any number of times before each item.

  /** The answers to the first `n` polls that are not Pending. */
  function Answers(script: nat -> Poll, n: nat): seq<Poll> {
    if n == 0 then []
    else Answers(script, n - 1) + if script(n - 1) == Pending then [] else [script(n - 1)]
  }

  function AnswersOf(items: seq<Item>): seq<Poll> {
    if items == [] then [End]
    else [if items[0].Yield? then Next(items[0].text) else Error] + AnswersOf(items[1..])
  }

  /** So far the stream has answered with the items in order, or has reached their end. */
  ghost predicate Delivers(script: nat -> Poll, polls: nat, items: seq<Item>) {
    Answers(script, polls) <= AnswersOf(items)
  }

  /** The answers of a terminated stream: no answer but the last is final. */
  ghost predicate Terminated(script: nat -> Poll, polls: nat) {
    polls > 0 && Terminal(script(polls - 1)) && forall i :: 0 <= i < polls - 1 ==> !Terminal(script(i))
  }

  function TextOf(answers: seq<Poll>): Bytes {
    if answers == [] then []
    else (if answers[0].Next? then answers[0].text else []) + TextOf(answers[1..])
  }

  lemma {:induction false} TextOfConcat(a: seq<Poll>, b: seq<Poll>)
    ensures TextOf(a + b) == TextOf(a) + TextOf(b)
  {
    if a == [] {
      assert a + b == b;
    } else {
      assert (a + b)[1..] == a[1..] + b;
      TextOfConcat(a[1..], b);
    }
  }

  /** Pending answers add nothing. */
  lemma {:induction false} AccumulatedIsText(script: nat -> Poll, n: nat)
    ensures Accumulated(script, n) == TextOf(Answers(script, n))
  {
    if n > 0 {
      AccumulatedIsText(script, n - 1);
      var last := if script(n - 1) == Pending then [] else [script(n - 1)];
      TextOfConcat(Answers(script, n - 1), last);
      assert last != [] ==> last[1..] == [];
    }
  }

  lemma {:induction false} NoTerminalAnswer(script: nat -> Poll, n: nat)
    requires forall i :: 0 <= i < n ==> !Terminal(script(i))
    ensures forall p :: p in Answers(script, n) ==> p.Next?
  {
    if n > 0 {
      NoTerminalAnswer(script, n - 1);
    }
  }

  lemma {:induction false} TextOfItems(texts: seq<Bytes>, tail: seq<Item>)
    requires forall item :: item in tail ==> !item.Yield?
    ensures TextOf(AnswersOf(Yields(texts) + tail)) == Flatten(texts)
    ensures forall p :: p in AnswersOf(tail) ==> !p.Next?
  {
    if texts != [] {
      assert (Yields(texts) + tail)[1..] == Yields(texts[1..]) + tail;
      TextOfItems(texts[1..], tail);
    } else if tail != [] {
      assert Yields(texts) + tail == tail;
      TextOfItems(texts, tail[1..]);
      assert Yields(texts) + tail[1..] == tail[1..];
    } else {
      assert Yields(texts) + tail == [];
    }
  }

  /** Answers up to the first final one: all the texts, and then the end or the error. */
  lemma {:induction false} UpToFinal(texts: seq<Bytes>, tail: seq<Item>, before: seq<Poll>, last: Poll)
    requires |tail| <= 1 && forall item :: item in tail ==> !item.Yield?
    requires before + [last] <= AnswersOf(Yields(texts) + tail)
    requires Terminal(last) && forall p :: p in before ==> p.Next?
    ensures TextOf(before + [last]) == Flatten(texts) && (last == Error <==> tail != [])
  {
    var items := Yields(texts) + tail;
    assert before == [] || (before[0].Next? && (before + [last])[0] == before[0]);
    if texts != [] {
      assert items[1..] == Yields(texts[1..]) + tail;
      assert (before + [last])[0] == Next(texts[0]);
      assert before != [];
      assert (before + [last])[1..] == before[1..] + [last] <= AnswersOf(items[1..]);
      UpToFinal(texts[1..], tail, before[1..], last);
    } else {
      assert items == tail;
      assert (before + [last])[0] == AnswersOf(tail)[0];
      assert before == [];
      assert [last][1..] == [];
    }
  }

  lemma TerminatedAtEnd(script: nat -> Poll, polls: nat, texts: seq<Bytes>, tail: seq<Item>)
    requires |tail| <= 1 && forall item :: item in tail ==> !item.Yield?
    requires Terminated(script, polls) && Delivers(script, polls, Yields(texts) + tail)
    ensures Accumulated(script, polls) == Flatten(texts)
    ensures script(polls - 1) == Error <==> tail != []
  {
    AccumulatedIsText(script, polls);
    NoTerminalAnswer(script, polls - 1);
    UpToFinal(texts, tail, Answers(script, polls - 1), script(polls - 1));
  }

  /** The items of a run: its texts, and at most one error after them. */
  lemma ItemsOfRun(read: LineReader, events: seq<Event>)
    ensures var run := RunAll(read, ChunksOf(events));
            var bytes := Flatten(ChunksOf(events));
            && ItemsFrom(read, INITIAL, events) == Yields(run.contents) + Ending(read, events)
            && (run.Accepted? ==> run.contents == Batch(read, bytes))
            && run.contents <= Batch(read, bytes)
    ensures |Ending(read, events)| <= 1 && forall item :: item in Ending(read, events) ==> !item.Yield?
  {
    StreamIsBatch(read, events);
    ChunkingDoesNotMatter(read, ChunksOf(events));
  }

  /** The guard error, or else the transport error if the byte stream failed before a `done` line. */
  function Ending(read: LineReader, events: seq<Event>): seq<Item> {
    if RunAll(read, ChunksOf(events)).Rejected? then [GuardError]
    else if Failed in events && !StateAfter(read, Flatten(ChunksOf(events))).done then [TransportError]
    else []
  }

  /**
   The whole chat stream, under every pattern of Pending answers: once it has terminated,
   the final response is the concatenation of all contents the parser yielded. Without a
   guard error these are the batch contents, and the response is marked as errored exactly
   when the byte stream failed before a `done` line; with one it is always marked.
   */
  lemma FinalResponseIsBatch(read: LineReader, events: seq<Event>, script: nat -> Poll, polls: nat)
    requires Terminated(script, polls) && Delivers(script, polls, ItemsFrom(read, INITIAL, events))
    ensures var run := RunAll(read, ChunksOf(events));
            var bytes := Flatten(ChunksOf(events));
            if run.Accepted? then
              && Accumulated(script, polls) == Flatten(Batch(read, bytes))
              && (script(polls - 1) == Error <==> Failed in events && !StateAfter(read, bytes).done)
            else
              && Accumulated(script, polls) == Flatten(run.contents)
              && script(polls - 1) == Error
  {
    ItemsOfRun(read, events);
    TerminatedAtEnd(script, polls, RunAll(read, ChunksOf(events)).contents, Ending(read, events));
  }

  /** At every moment, terminated or not, the content is a prefix of the batch contents. */
  lemma ContentIsPrefix(read: LineReader, events: seq<Event>, script: nat -> Poll, polls: nat)
    requires Delivers(script, polls, ItemsFrom(read, INITIAL, events))
    ensures Accumulated(script, polls) <= Flatten(Batch(read, Flatten(ChunksOf(events))))
  {
    AccumulatedIsText(script, polls);
    ItemsOfRun(read, events);
    var texts := RunAll(read, ChunksOf(events)).contents;
    TextOfItems(texts, Ending(read, events));
    PrefixOfText(Answers(script, polls), AnswersOf(ItemsFrom(read, INITIAL, events)));
    PrefixOfFlatten(texts, Batch(read, Flatten(ChunksOf(events))));
  }

  lemma PrefixOfText(a: seq<Poll>, b: seq<Poll>)
    requires a <= b
    ensures TextOf(a) <= TextOf(b)
  {
    TextOfConcat(a, b[|a|..]);
    assert a + b[|a|..] == b;
  }

  lemma PrefixOfFlatten(a: seq<Bytes>, b: seq<Bytes>)
    requires a <= b
    ensures Flatten(a) <= Flatten(b)
  {
    FlattenConcat(a, b[|a|..]);
    assert a + b[|a|..] == b;
  }

  lemma {:induction false} FlattenConcat(a: seq<Bytes>, b: seq<Bytes>)
    ensures Flatten(a + b) == Flatten(a) + Flatten(b)
  {
    if a == [] {
      assert a + b == b;
    } else {
      assert (a + b)[1..] == a[1..] + b;
      FlattenConcat(a[1..], b);
      Associate(a[0], Flatten(a[1..]), Flatten(b));
    }
  }

  // ---------------------------------------------------------------------
  // ChatStreamIterator
  // ---------------------------------------------------------------------

  datatype ChatItem = Got(text: Bytes) | StreamError | WrongContext

  class ChatStreamIterator {
    const stream: DialecticStream
    var complete: bool

    ghost predicate Valid()
      reads this, stream, stream.inner
    {
      stream.Valid()
    }

    constructor (stream: DialecticStream)
      requires stream.Valid()
      ensures Valid() && this.stream == stream && !complete
    {
      this.stream := stream;
      complete := false;
    }

    predicate IsComplete()
      reads this, stream
    {
      complete || stream.complete
    }

    /**
     One step of the iterator. `rejected` says that the runtime cannot be entered from
     here; otherwise the wrapped stream answers something other than Pending by poll `wake`.
     */
    method Next(rejected: bool, ghost wake: nat) returns (item: Option<ChatItem>)
      requires Valid()
      requires !rejected && !IsComplete() ==> stream.inner.polls <= wake && stream.inner.script(wake) != Pending
      modifies this, stream, stream.inner
      ensures Valid()
      ensures old(IsComplete()) ==> item == None && IsComplete() && stream.inner.polls == old(stream.inner.polls)
      ensures !old(IsComplete()) && rejected ==>
              item == Some(WrongContext) && IsComplete() && stream.inner.polls == old(stream.inner.polls)
      ensures !old(IsComplete()) && !rejected ==>
              var last := stream.inner.polls - 1;
              && old(stream.inner.polls) <= last <= wake && complete == old(complete)
              && (forall i :: old(stream.inner.polls) <= i < last ==> stream.inner.script(i) == Pending)
              && match stream.inner.script(last)
                 case Next(text) => item == Some(Got(text)) && !IsComplete()
                 case Error => item == Some(StreamError) && IsComplete()
                 case End => item == None && IsComplete()
                 case Pending => false
    {
      if IsComplete() {
        return None;
      }
      if rejected {
        complete := true;
        return Some(WrongContext);
      }
      var p := stream.PollNext();
      while p == Pending
        invariant Valid() && complete == old(complete) && !complete
        invariant old(stream.inner.polls) < stream.inner.polls <= wake + 1
        invariant p == stream.inner.script(stream.inner.polls - 1)
        invariant forall i :: old(stream.inner.polls) <= i < stream.inner.polls - 1 ==> stream.inner.script(i) == Pending
        decreases wake + 1 - stream.inner.polls
      {
        p := stream.PollNext();
      }
      match p {
        case Next(text) => item := Some(Got(text));
        case Error => item := Some(StreamError);
        case End => item := None;
      }
    }
  }
}
