/**
 A streamed upload: a thread reads the caller's blocking reader into a bounded pipe, the
 async side buffers the other end until end of file, posts the body, and `send` joins the
 thread. Read errors travel through a shared slot that is looked at when the pipe ends.
 Any interleaving of the two sides is a run.
 */
module UploadBridge {
  import opened Basics

  const PIPE_BUF: nat := 8192

  /** What one call of the caller's `Read::read` does. */
  datatype ReadOutcome = Ok(bytes: Bytes) | Fails | Panics

  /** The reader: `reader(i)` is what its call number `i` does. */
  type Reader = nat -> ReadOutcome

  /** `Ok(0)` is end of file; claiming more than the buffer holds makes the slice panic. */
  predicate IsData(r: ReadOutcome) { r.Ok? && 0 < |r.bytes| <= PIPE_BUF }

  datatype Exit = CleanEof | ReadError | Panicked | BrokenPipe | NoRuntime

  datatype ThreadPc = Reading | Writing(rest: Bytes) | Exiting(how: Exit) | Finished(how: Exit)

  datatype Outcome = Success | Failure

  datatype AsyncPc = NotSent | Buffering | Posting | Done(result: Outcome) | Returned(result: Outcome) | Dropped

  datatype State = State(
    thread: ThreadPc, nread: nat,           // the reader thread, and how often it has read
    slot: bool,                             // an error waits in the slot
    pipe: Bytes, txOpen: bool, rxOpen: bool,
    caller: AsyncPc, body: Bytes)           // the async side, and what it has buffered

  const INITIAL: State := State(Reading, 0, false, [], true, true, NotSent, [])

  /** The runtime could not be built: no thread, the write half is gone, the error is in the slot. */
  const NO_RUNTIME: State := State(Finished(NoRuntime), 0, true, [], false, true, NotSent, [])

  datatype Action =
    | DoRead | WriteSome(n: nat) | WriteBroken | ExitThread       // reader thread
    | Abort | StartBuffering | Deliver(n: nat) | SeeEof           // async side
    | HttpReply(ok: bool) | Join | DropBuilder

  predicate OfThread(a: Action) { a.DoRead? || a.WriteSome? || a.WriteBroken? || a.ExitThread? }

  predicate Enabled(s: State, a: Action) {
    match a
    case DoRead => s.thread.Reading?
    case WriteSome(n) => s.thread.Writing? && s.rxOpen && 0 < n <= |s.thread.rest| && |s.pipe| + n <= PIPE_BUF
    case WriteBroken => s.thread.Writing? && !s.rxOpen
    case ExitThread => s.thread.Exiting?
    case Abort => s.caller.NotSent?
    case StartBuffering => s.caller.NotSent?
    case Deliver(n) => s.caller.Buffering? && 0 < n <= |s.pipe|
    case SeeEof => s.caller.Buffering? && s.pipe == [] && !s.txOpen
    case HttpReply(_) => s.caller.Posting?
    case Join => s.caller.Done? && s.thread.Finished?
    case DropBuilder => s.caller.NotSent?
  }

  function Apply(reader: Reader, s: State, a: Action): State
    requires Enabled(s, a)
  {
    match a
    case DoRead =>
      var s' := s.(nread := s.nread + 1);
      (match reader(s.nread)
       case Ok(bytes) =>
         if bytes == [] then s'.(thread := Exiting(CleanEof))
         else if |bytes| <= PIPE_BUF then s'.(thread := Writing(bytes))
         else s'.(thread := Exiting(Panicked))
       case Fails => s'.(thread := Exiting(ReadError), slot := true)
       case Panics => s'.(thread := Exiting(Panicked)))
    case WriteSome(n) =>
      var rest := s.thread.rest[n..];
      s.(pipe := s.pipe + s.thread.rest[..n], thread := if rest == [] then Reading else Writing(rest))
    case WriteBroken => s.(thread := Exiting(BrokenPipe))
    case ExitThread => s.(thread := Finished(s.thread.how), txOpen := false)
    case Abort => s.(caller := Done(Failure), rxOpen := false)
    case StartBuffering => s.(caller := Buffering)
    case Deliver(n) => s.(body := s.body + s.pipe[..n], pipe := s.pipe[n..])
    case SeeEof =>
      if s.slot then s.(slot := false, caller := Done(Failure), rxOpen := false)
      else s.(caller := Posting, rxOpen := false)
    case HttpReply(ok) => s.(caller := Done(if ok then Success else Failure))
    case Join =>
      s.(caller := Returned(if s.thread == Finished(Panicked) then Failure else s.caller.result))
    case DropBuilder => s.(caller := Dropped, rxOpen := false)
  }

  ghost predicate IsRun(reader: Reader, s: State, actions: seq<Action>, s': State)
    decreases |actions|
  {
    if actions == [] then s == s'
    else Enabled(s, actions[0]) && IsRun(reader, Apply(reader, s, actions[0]), actions[1..], s')
  }

  // ---------------------------------------------------------------------
  // What has been read, and what a complete body is
  // ---------------------------------------------------------------------

  /** The bytes of the first `k` reads, as far as they are data. */
  function ReadSoFar(reader: Reader, k: nat): Bytes {
    if k == 0 then []
    else ReadSoFar(reader, k - 1) + if IsData(reader(k - 1)) then reader(k - 1).bytes else []
  }

  ghost predicate DataUntil(reader: Reader, k: nat) { forall i :: 0 <= i < k ==> IsData(reader(i)) }

  /** `body` is everything the reader yields up to its clean end of file. */
  ghost predicate IsWholeStream(reader: Reader, body: Bytes) {
    exists k: nat :: DataUntil(reader, k) && reader(k) == Ok([]) && body == ReadSoFar(reader, k)
  }

  function Unwritten(s: State): Bytes { if s.thread.Writing? then s.thread.rest else [] }

  /** What the reads so far say about where the thread is. */
  ghost predicate ThreadInv(reader: Reader, s: State) {
    match s.thread
    case Reading => DataUntil(reader, s.nread)
    case Writing(rest) => DataUntil(reader, s.nread) && rest != []
    case Exiting(how) => StoppedFor(reader, s, how)
    case Finished(how) => StoppedFor(reader, s, how)
  }

  ghost predicate StoppedFor(reader: Reader, s: State, how: Exit) {
    match how
    case NoRuntime => s.nread == 0 && (s.caller.NotSent? || s.caller.Buffering? ==> s.slot)
    case BrokenPipe => DataUntil(reader, s.nread) && !s.rxOpen
    case CleanEof => s.nread > 0 && DataUntil(reader, s.nread - 1) && reader(s.nread - 1) == Ok([])
    case ReadError =>
      s.nread > 0 && DataUntil(reader, s.nread - 1) && reader(s.nread - 1) == Fails
      && (s.caller.NotSent? || s.caller.Buffering? ==> s.slot)
    case Panicked => s.nread > 0 && DataUntil(reader, s.nread - 1) && !IsData(reader(s.nread - 1))
  }

  ghost predicate Inv(reader: Reader, s: State) {
    && ThreadInv(reader, s)
    && (s.txOpen <==> !s.thread.Finished?)
    && (s.rxOpen <==> s.caller.NotSent? || s.caller.Buffering?)
    && |s.pipe| <= PIPE_BUF
    && (s.rxOpen ==> s.body + s.pipe + Unwritten(s) == ReadSoFar(reader, s.nread))
    && s.body <= ReadSoFar(reader, s.nread)
    && (s.caller.Posting? || s.caller == Done(Success) ==> s.body == ReadSoFar(reader, s.nread))
    && (s.caller.Posting? || s.caller == Done(Success) ==> s.thread in {Finished(CleanEof), Finished(Panicked)})
    && (s.caller.Returned? ==> s.thread.Finished?)
    && (s.caller == Returned(Success) ==> s.thread == Finished(CleanEof) && s.body == ReadSoFar(reader, s.nread))
  }

  lemma ReadMore(reader: Reader, k: nat)
    ensures ReadSoFar(reader, k + 1) == ReadSoFar(reader, k) + if IsData(reader(k)) then reader(k).bytes else []
  {
  }

  lemma {:induction false} StepKeepsInv(reader: Reader, s: State, a: Action)
    requires Inv(reader, s) && Enabled(s, a)
    ensures Inv(reader, Apply(reader, s, a))
  {
    if a.DoRead? {
      ReadKeepsInv(reader, s);
    } else if a.WriteSome? || a.Deliver? {
      MoveKeepsInv(reader, s, a);
    } else if OfThread(a) {
      EndKeepsInv(reader, s, a);
    } else {
      CallerKeepsInv(reader, s, a);
    }
  }

  lemma ReadKeepsInv(reader: Reader, s: State)
    requires Inv(reader, s) && Enabled(s, DoRead)
    ensures Inv(reader, Apply(reader, s, DoRead))
  {
    ReadMore(reader, s.nread);
    Append(s.body, s.pipe, ReadSoFar(reader, s.nread), if IsData(reader(s.nread)) then reader(s.nread).bytes else []);
  }

  /** Bytes move from the thread to the pipe to the body; their concatenation stays. */
  lemma MoveKeepsInv(reader: Reader, s: State, a: Action)
    requires Inv(reader, s) && Enabled(s, a) && (a.WriteSome? || a.Deliver?)
    ensures Inv(reader, Apply(reader, s, a))
  {
    if a.WriteSome? {
      Regroup(s.body, s.pipe, s.thread.rest, 0, a.n);
      assert s.pipe[..0] == [] && s.body + [] == s.body;
      assert s.pipe[0..] == s.pipe;
    } else {
      Regroup(s.body, s.pipe, Unwritten(s), a.n, 0);
      assert Unwritten(s)[..0] == [] && Unwritten(s)[0..] == Unwritten(s);
      assert s.pipe[a.n..] + [] == s.pipe[a.n..];
    }
  }

  /** `i` bytes leave the pipe and `j` enter it. */
  lemma Regroup(body: Bytes, pipe: Bytes, rest: Bytes, i: nat, j: nat)
    requires i <= |pipe| && j <= |rest|
    ensures body + pipe[..i] + (pipe[i..] + rest[..j]) + rest[j..] == body + pipe + rest
    ensures body + pipe[..i] <= body + pipe + rest
  {
  }

  lemma EndKeepsInv(reader: Reader, s: State, a: Action)
    requires Inv(reader, s) && Enabled(s, a) && (a.WriteBroken? || a.ExitThread?)
    ensures Inv(reader, Apply(reader, s, a))
  {
  }

  lemma CallerKeepsInv(reader: Reader, s: State, a: Action)
    requires Inv(reader, s) && Enabled(s, a) && !OfThread(a) && !a.Deliver?
    ensures Inv(reader, Apply(reader, s, a))
  {
  }

  lemma Append(a: Bytes, b: Bytes, whole: Bytes, more: Bytes)
    ensures a + b + [] == whole ==> a + b + more == whole + more
    ensures a <= whole ==> a <= whole + more
  {
  }

  lemma {:induction false} RunKeepsInv(reader: Reader, s: State, actions: seq<Action>, s': State)
    requires Inv(reader, s) && IsRun(reader, s, actions, s')
    ensures Inv(reader, s')
    decreases |actions|
  {
    if actions != [] {
      StepKeepsInv(reader, s, actions[0]);
      RunKeepsInv(reader, Apply(reader, s, actions[0]), actions[1..], s');
    }
  }

  lemma StartsInInv(reader: Reader)
    ensures Inv(reader, INITIAL) && Inv(reader, NO_RUNTIME)
  {
  }

  // ---------------------------------------------------------------------
  // Safety
  // ---------------------------------------------------------------------

  /** At every moment the bytes delivered are a prefix of what the reader has yielded. */
  lemma DeliveredIsPrefix(reader: Reader, start: State, actions: seq<Action>, s: State)
    requires start in {INITIAL, NO_RUNTIME} && IsRun(reader, start, actions, s)
    ensures s.body <= ReadSoFar(reader, s.nread)
  {
    StartsInInv(reader);
    RunKeepsInv(reader, start, actions, s);
  }

  /**
   If `send` returns success, the body was the whole stream: no read error and no panic of
   the reader passes for a clean end of file.
   */
  lemma SuccessIsComplete(reader: Reader, start: State, actions: seq<Action>, s: State)
    requires start in {INITIAL, NO_RUNTIME} && IsRun(reader, start, actions, s)
    requires s.caller == Returned(Success)
    ensures IsWholeStream(reader, s.body) && s.thread == Finished(CleanEof)
  {
    StartsInInv(reader);
    RunKeepsInv(reader, start, actions, s);
    ReadMore(reader, s.nread - 1);
    assert DataUntil(reader, s.nread - 1) && reader(s.nread - 1) == Ok([]);
  }

  /**
   Joining is what makes this true: before the join a truncated body can already have been
   accepted by the server, namely when the reader panics and leaves the slot empty.
   */
  lemma PanicLooksCleanBeforeJoin(reader: Reader) returns (s: State)
    requires reader(0) == Panics
    ensures IsRun(reader, INITIAL, [StartBuffering, DoRead, ExitThread] + [SeeEof, HttpReply(true)], s)
    ensures s.caller == Done(Success) && !IsWholeStream(reader, s.body)
    ensures Enabled(s, Join) && Apply(reader, s, Join).caller == Returned(Failure)
  {
    var gone := State(Finished(Panicked), 1, false, [], false, true, Buffering, []);
    s := State(Finished(Panicked), 1, false, [], false, false, Done(Success), []);
    RunStep(reader, gone.(caller := Posting, rxOpen := false), HttpReply(true), [], s);
    RunStep(reader, gone, SeeEof, [HttpReply(true)], s);
    PanicEndsThread(reader, gone, [SeeEof, HttpReply(true)], s);
    assert forall k: nat :: DataUntil(reader, k) && reader(k) == Ok([]) ==> k != 0;
  }

  lemma PanicEndsThread(reader: Reader, gone: State, rest: seq<Action>, s: State)
    requires reader(0) == Panics && IsRun(reader, gone, rest, s)
    requires gone == State(Finished(Panicked), 1, false, [], false, true, Buffering, [])
    ensures IsRun(reader, INITIAL, [StartBuffering, DoRead, ExitThread] + rest, s)
  {
  }

  lemma RunStep(reader: Reader, s: State, a: Action, rest: seq<Action>, s': State)
    requires Enabled(s, a) && IsRun(reader, Apply(reader, s, a), rest, s')
    ensures IsRun(reader, s, [a] + rest, s')
  {
  }

  // ---------------------------------------------------------------------
  // What `send` returns
  // ---------------------------------------------------------------------

  /** The server's verdict, as far as it has one. */
  ghost predicate Accepted(s: State, actions: seq<Action>) { HttpReply(true) in actions || s.caller == Done(Success) }

  lemma {:induction false} ReturnsFrom(reader: Reader, s: State, actions: seq<Action>, s': State)
    requires Inv(reader, s) && !s.caller.Returned? && IsRun(reader, s, actions, s') && s'.caller.Returned?
    ensures s'.caller == Returned(Success) <==> Accepted(s, actions) && s'.thread == Finished(CleanEof)
    decreases |actions|
  {
    var a, rest := actions[0], actions[1..];
    var m := Apply(reader, s, a);
    assert actions == [a] + rest;
    StepKeepsInv(reader, s, a);
    if a.Join? {
      AfterReturn(reader, m, rest, s');
    } else {
      ReturnsFrom(reader, m, rest, s');
    }
  }

  /** Once `send` has returned nothing moves any more. */
  lemma AfterReturn(reader: Reader, s: State, actions: seq<Action>, s': State)
    requires Inv(reader, s) && s.caller.Returned? && IsRun(reader, s, actions, s')
    ensures actions == [] && s' == s
  {
  }

  /**
   Over every run: `send` succeeds if and only if the server accepted the body and the
   reader thread ended at a clean end of file.
   */
  lemma SendSucceedsIff(reader: Reader, start: State, actions: seq<Action>, s: State)
    requires start in {INITIAL, NO_RUNTIME} && IsRun(reader, start, actions, s) && s.caller.Returned?
    ensures s.caller == Returned(Success) <==> HttpReply(true) in actions && s.thread == Finished(CleanEof)
  {
    StartsInInv(reader);
    ReturnsFrom(reader, start, actions, s);
  }

  /** The caller sends, and the server does not refuse. */
  predicate Cooperates(a: Action) { a != Abort && a != DropBuilder && a != HttpReply(false) }

  /** The reader yields data `k` times and then a clean end of file; the upload goes well so far. */
  ghost predicate GoingWell(reader: Reader, k: nat, s: State) {
    && Inv(reader, s) && !s.slot && s.nread <= k + 1
    && (s.nread == k + 1 <==> s.thread in {Exiting(CleanEof), Finished(CleanEof)})
    && (s.thread.Reading? || s.thread.Writing? || s.nread == k + 1)
    && !s.caller.Dropped?
    && (s.caller.Done? || s.caller.Returned? ==> s.caller.result == Success)
  }

  lemma {:induction false} StaysWell(reader: Reader, k: nat, s: State, actions: seq<Action>, s': State)
    requires DataUntil(reader, k) && reader(k) == Ok([])
    requires GoingWell(reader, k, s) && IsRun(reader, s, actions, s') && forall a :: a in actions ==> Cooperates(a)
    ensures GoingWell(reader, k, s')
    decreases |actions|
  {
    if actions != [] {
      assert Cooperates(actions[0]);
      StepKeepsInv(reader, s, actions[0]);
      assert s.nread < k ==> IsData(reader(s.nread));
      StaysWell(reader, k, Apply(reader, s, actions[0]), actions[1..], s');
    }
  }

  /** A reader that ends cleanly and a server that accepts: however the two sides interleave, the upload succeeds. */
  lemma CleanUploadSucceeds(reader: Reader, k: nat, actions: seq<Action>, s: State)
    requires DataUntil(reader, k) && reader(k) == Ok([])
    requires IsRun(reader, INITIAL, actions, s) && forall a :: a in actions ==> Cooperates(a)
    requires AllDone(s)
    ensures s.caller == Returned(Success) && s.body == ReadSoFar(reader, k)
  {
    StartsInInv(reader);
    StaysWell(reader, k, INITIAL, actions, s);
    ReadMore(reader, k);
  }

  // ---------------------------------------------------------------------
  // Termination
  // ---------------------------------------------------------------------

  /** Helper: on every way out of `send`, and when the builder is dropped, the receive half is gone. */
  lemma ReceiverIsGone(reader: Reader, start: State, actions: seq<Action>, s: State)
    requires start in {INITIAL, NO_RUNTIME} && IsRun(reader, start, actions, s)
    requires s.caller.Done? || s.caller.Returned? || s.caller.Dropped?
    ensures !s.rxOpen
  {
    StartsInInv(reader);
    RunKeepsInv(reader, start, actions, s);
  }

  function ThreadSteps(s: State): nat {
    match s.thread case Reading => 3 case Writing(_) => 2 case Exiting(_) => 1 case Finished(_) => 0
  }

  function CountThread(actions: seq<Action>): nat {
    if actions == [] then 0 else (if OfThread(actions[0]) then 1 else 0) + CountThread(actions[1..])
  }

  /**
   Once the receive half is gone the thread takes at most three more steps, at most one of
   them a read, whatever the reader is: the write after a successful read ends it.
   */
  lemma {:induction false} ThreadStopsSoon(reader: Reader, s: State, actions: seq<Action>, s': State)
    requires !s.rxOpen && IsRun(reader, s, actions, s')
    ensures !s'.rxOpen && CountThread(actions) + ThreadSteps(s') <= ThreadSteps(s)
    ensures s'.nread <= s.nread + (if s.thread.Reading? then 1 else 0)
    decreases |actions|
  {
    if actions != [] {
      ThreadStopsSoon(reader, Apply(reader, s, actions[0]), actions[1..], s');
    }
  }

  predicate AllDone(s: State) { (s.caller.Returned? || s.caller.Dropped?) && s.thread.Finished? }

  /** Some step is always possible until the call has returned and the thread has ended. */
  lemma NeverStuck(reader: Reader, s: State) returns (a: Action)
    requires Inv(reader, s) && !AllDone(s)
    ensures Enabled(s, a)
  {
    if s.caller.NotSent? {
      a := Abort;
    } else if s.caller.Posting? {
      a := HttpReply(false);
    } else if s.caller.Buffering? && s.pipe != [] {
      a := Deliver(1);
    } else {
      match s.thread
      case Reading => a := DoRead;
      case Writing(_) => a := if s.rxOpen then WriteSome(1) else WriteBroken;
      case Exiting(_) => a := ExitThread;
      case Finished(_) => a := if s.caller.Buffering? then SeeEof else Join;
    }
  }

  /** The bytes of reads `k` up to `n`, with a fixed cost for each read. */
  function Ahead(reader: Reader, k: nat, n: nat): nat
    decreases n - k
  {
    if k >= n then 0
    else 1 + (if IsData(reader(k)) then 3 * |reader(k).bytes| else 0) + Ahead(reader, k + 1, n)
  }

  function CallerSteps(s: State): nat {
    match s.caller
    case NotSent => 4 case Buffering => 3 case Posting => 2 case Done(_) => 1 case Returned(_) => 0 case Dropped => 0
  }

  function Measure(reader: Reader, s: State, n: nat): nat {
    Ahead(reader, s.nread, n) + 2 * |Unwritten(s)| + |s.pipe| + CallerSteps(s)
    + match s.thread case Reading => 2 case Writing(_) => 2 case Exiting(_) => 1 case Finished(_) => 0
  }

  lemma StepDecreases(reader: Reader, s: State, a: Action, n: nat)
    requires Inv(reader, s) && Enabled(s, a) && !IsData(reader(n))
    ensures Measure(reader, Apply(reader, s, a), n) < Measure(reader, s, n)
  {
    if a.DoRead? {
      assert s.nread <= n;
      if s.nread < n {
        assert Ahead(reader, s.nread, n) ==
               1 + (if IsData(reader(s.nread)) then 3 * |reader(s.nread).bytes| else 0) + Ahead(reader, s.nread + 1, n);
      }
    }
  }

  /**
   If the reader ever stops yielding data, every schedule is finite: with `NeverStuck`,
   `send` returns and the thread has ended, on every path.
   */
  lemma {:induction false} EveryRunEnds(reader: Reader, s: State, actions: seq<Action>, s': State, n: nat)
    requires Inv(reader, s) && IsRun(reader, s, actions, s') && !IsData(reader(n))
    ensures |actions| + Measure(reader, s', n) <= Measure(reader, s, n)
    decreases |actions|
  {
    if actions != [] {
      StepKeepsInv(reader, s, actions[0]);
      StepDecreases(reader, s, actions[0], n);
      EveryRunEnds(reader, Apply(reader, s, actions[0]), actions[1..], s', n);
    }
  }
}
