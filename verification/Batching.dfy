/**
 Sending long lists in requests of at most 100: `Session::add_messages` and the batching
 loop of `ConclusionScope::create`. The server is a function from the number of the
 request and the batch it carries.
 */
module Batching {
  import opened Basics

  const BATCH: nat := 100

  datatype Response<+R> = Created(items: seq<R>) | Failed(code: int)

  type Server<!M, R> = (nat, seq<M>) -> Response<R>

  /** `Partial` is `HonchoError::PartialFailure`: what the earlier batches created. */
  datatype Result<+R> = Ok(items: seq<R>) | Err(code: int) | Partial(created: seq<R>, sent: nat, code: int)

  /** The batches in which `messages` go out. */
  function Batches<M>(messages: seq<M>): seq<seq<M>> {
    if messages == [] then []
    else if |messages| <= BATCH then [messages]
    else [messages[..BATCH]] + Batches(messages[BATCH..])
  }

  function Min(a: nat, b: nat): nat { if a < b then a else b }

  lemma NextBatch<M>(messages: seq<M>)
    requires messages != []
    ensures var n := Min(|messages|, BATCH);
            var batches := Batches(messages);
            batches != [] && batches[0] == messages[..n] && batches[1..] == Batches(messages[n..])
  {
  }

  /** Batch sizes: full ones, and a last one that is not empty. */
  ghost predicate WellCut<M>(parts: seq<seq<M>>) {
    forall i :: 0 <= i < |parts| ==> if i < |parts| - 1 then |parts[i]| == BATCH else 0 < |parts[i]| <= BATCH
  }

  /** The batches are the one way to cut the list into full batches and a rest. */
  lemma {:induction false} BatchesAreTheCut<M>(messages: seq<M>, parts: seq<seq<M>>)
    ensures parts == Batches(messages) <==> Flatten(parts) == messages && WellCut(parts)
    decreases |messages|
  {
    BatchesCut(messages);
    if Flatten(parts) == messages && WellCut(parts) {
      CutIsUnique(messages, parts);
    }
  }

  lemma {:induction false} BatchesCut<M>(messages: seq<M>)
    ensures Flatten(Batches(messages)) == messages && WellCut(Batches(messages))
    decreases |messages|
  {
    if |messages| > BATCH {
      BatchesCut(messages[BATCH..]);
      var rest := Batches(messages[BATCH..]);
      assert rest != [];
      forall i | 0 < i < |[messages[..BATCH]] + rest|
        ensures ([messages[..BATCH]] + rest)[i] == rest[i - 1]
      {
      }
    } else if messages != [] {
      assert Flatten([messages]) == messages + Flatten([]);
    }
  }

  lemma {:induction false} CutIsUnique<M>(messages: seq<M>, parts: seq<seq<M>>)
    requires Flatten(parts) == messages && WellCut(parts)
    ensures parts == Batches(messages)
    decreases |messages|
  {
    if parts != [] {
      var rest := parts[1..];
      assert parts == [parts[0]] + rest;
      if rest == [] {
        assert parts[0] + [] == parts[0] && messages == parts[0];
      } else {
        assert rest[0] == parts[1] && |Flatten(rest)| > 0 by { assert Flatten(rest) == rest[0] + Flatten(rest[1..]); }
        assert messages[..BATCH] == parts[0] && messages[BATCH..] == Flatten(rest);
        assert forall i :: 0 <= i < |rest| ==> rest[i] == parts[i + 1];
        CutIsUnique(messages[BATCH..], rest);
      }
    }
  }

  /** The responses to the first `k` batches, one after the other. */
  function Answers<M, R>(server: Server<M, R>, batches: seq<seq<M>>, k: nat): seq<R>
    requires k <= |batches|
  {
    if k == 0 then []
    else
      Answers(server, batches, k - 1)
      + match server(k - 1, batches[k - 1]) case Created(items) => items case Failed(_) => []
  }

  /** The batches before number `k` succeeded, and `k` failed unless it is past the last one. */
  ghost predicate StopsAt<M, R>(server: Server<M, R>, batches: seq<seq<M>>, k: nat) {
    && k <= |batches|
    && (forall i :: 0 <= i < k ==> server(i, batches[i]).Created?)
    && (k < |batches| ==> server(k, batches[k]).Failed?)
  }

  // ---------------------------------------------------------------------
  // Session::add_messages
  // ---------------------------------------------------------------------

  /** What the caller gets when the batches before number `k` succeeded and `k`, if there is one, failed. */
  function AddResult<M, R>(server: Server<M, R>, batches: seq<seq<M>>, k: nat): Result<R>
    requires k <= |batches| && (k < |batches| ==> server(k, batches[k]).Failed?)
  {
    var answers := Answers(server, batches, k);
    if k == |batches| then Ok(answers)
    else if answers == [] then Err(server(k, batches[k]).code)
    else Partial(answers, |answers|, server(k, batches[k]).code)
  }

  /** The same for `create`. */
  function CreateResult<M, R>(server: Server<M, R>, batches: seq<seq<M>>, k: nat): Result<R>
    requires k <= |batches| && (k < |batches| ==> server(k, batches[k]).Failed?)
  {
    if k == |batches| then Ok(Answers(server, batches, k)) else Err(server(k, batches[k]).code)
  }

  /** `requests` are the batches sent, a failed last one included; `k` is how many succeeded. */
  method AddMessages<M, R>(messages: seq<M>, server: Server<M, R>)
      returns (result: Result<R>, requests: seq<seq<M>>, k: nat)
    ensures SentUpTo(server, Batches(messages), k, requests)
    ensures result == AddResult(server, Batches(messages), k)
  {
    ghost var batches := Batches(messages);
    requests, k := [], 0;
    if messages == [] {
      assert SentUpTo(server, batches, 0, requests) && Answers(server, batches, 0) == [];
      return Ok([]), requests, 0;
    }
    var all: seq<R> := [];
    if |messages| <= BATCH {
      var response := server(0, messages);
      requests := [messages];
      assert batches == [messages];
      match response {
        case Created(items) =>
          assert Answers(server, batches, 1) == [] + items == items;
          assert SentUpTo(server, batches, 1, requests);
          return Ok(items), requests, 1;
        case Failed(code) =>
          assert Answers(server, batches, 0) == [] && SentUpTo(server, batches, 0, requests);
          return Err(code), requests, k;
      }
    }
    var iter := messages;
    while true
      invariant k <= |batches| && batches[k..] == Batches(iter)
      invariant StopsBefore(server, batches, k) && requests == batches[..k]
      invariant all == Answers(server, batches, k)
      decreases |iter|
    {
      var batch := iter[..Min(|iter|, BATCH)];
      if batch == [] {
        assert k == |batches| && SentUpTo(server, batches, k, requests);
        return Ok(all), requests, k;
      }
      NextBatch(iter);
      assert batch == batches[k..][0] == batches[k];
      iter := iter[|batch|..];
      requests := requests + [batch];
      assert requests == batches[..k + 1];
      match server(k, batch) {
        case Created(items) =>
          all := all + items;
          assert batches[k + 1..] == batches[k..][1..];
          k := k + 1;
        case Failed(code) =>
          assert SentUpTo(server, batches, k, requests);
          if all == [] {
            return Err(code), requests, k;
          }
          return Partial(all, |all|, code), requests, k;
      }
    }
  }

  ghost predicate StopsBefore<M, R>(server: Server<M, R>, batches: seq<seq<M>>, k: nat) {
    k <= |batches| && forall i :: 0 <= i < k ==> server(i, batches[i]).Created?
  }

  /** Exactly the batches up to the failing one, or all of them, were sent, in order. */
  ghost predicate SentUpTo<M, R>(server: Server<M, R>, batches: seq<seq<M>>, k: nat, requests: seq<seq<M>>) {
    StopsAt(server, batches, k) && requests == batches[..if k < |batches| then k + 1 else k]
  }

  lemma {:induction false} AnswersNonEmpty<M, R>(server: Server<M, R>, batches: seq<seq<M>>, k: nat)
    requires StopsBefore(server, batches, k)
    ensures Answers(server, batches, k) != [] <==> exists i :: 0 <= i < k && server(i, batches[i]).items != []
  {
    if k > 0 {
      AnswersNonEmpty(server, batches, k - 1);
      assert server(k - 1, batches[k - 1]).Created?;
    }
  }

  /**
   For every server: a failure is partial exactly when some earlier response was not empty,
   and then it carries the responses of all earlier batches.
   */
  lemma PartialIff<M, R>(server: Server<M, R>, messages: seq<M>, k: nat)
    requires StopsAt(server, Batches(messages), k)
    ensures var batches := Batches(messages);
            var result := AddResult(server, batches, k);
            && (result.Ok? <==> k == |batches|)
            && (result.Partial? <==>
                k < |batches| && exists i :: 0 <= i < k && server(i, batches[i]).items != [])
            && (result.Partial? ==> result.created == Answers(server, batches, k) && result.sent == |result.created|)
  {
    AnswersNonEmpty(server, Batches(messages), k);
  }

  /** An earlier batch succeeded, the next one failed, and the failure is not partial. */
  lemma EmptyResponseIsNoSuccess<M, R>(messages: seq<M>, code: int)
    requires |messages| > BATCH
    ensures var server: Server<M, R> := (k, batch) => if k == 0 then Created([]) else Failed(code);
            var batches := Batches(messages);
            && StopsAt(server, batches, 1) && server(0, batches[0]).Created?
            && AddResult(server, batches, 1) == Err(code)
  {
    BatchesCut(messages);
    var server: Server<M, R> := (k, batch) => if k == 0 then Created([]) else Failed(code);
    var batches := Batches(messages);
    assert batches[0] == messages[..BATCH] && batches[1..] == Batches(messages[BATCH..]) != [];
    assert Answers(server, batches, 1) == Answers(server, batches, 0) + [];
  }

  /** The responses to the first `k` batches, one for each batch. */
  ghost function Responses<M, R>(server: Server<M, R>, batches: seq<seq<M>>, k: nat): seq<seq<R>>
    requires StopsBefore(server, batches, k)
  {
    seq(k, i requires 0 <= i < k => server(i, batches[i]).items)
  }

  lemma {:induction false} FlattenAppend<T>(parts: seq<seq<T>>, last: seq<T>)
    ensures Flatten(parts + [last]) == Flatten(parts) + last
  {
    if parts == [] {
      assert [] + [last] == [last] && [last][1..] == [] && last + [] == last;
    } else {
      assert (parts + [last])[1..] == parts[1..] + [last];
      FlattenAppend(parts[1..], last);
      Associate(parts[0], Flatten(parts[1..]), last);
    }
  }

  /** What is handed back are the responses in the order of the batches. */
  lemma {:induction false} AnswersInOrder<M, R>(server: Server<M, R>, batches: seq<seq<M>>, k: nat)
    requires StopsBefore(server, batches, k)
    ensures Answers(server, batches, k) == Flatten(Responses(server, batches, k))
  {
    if k > 0 {
      AnswersInOrder(server, batches, k - 1);
      assert Responses(server, batches, k) == Responses(server, batches, k - 1) + [server(k - 1, batches[k - 1]).items];
      FlattenAppend(Responses(server, batches, k - 1), server(k - 1, batches[k - 1]).items);
    }
  }

  /**
   The two results against any server. Success carries all responses in order. A failure
   carries the error of the failing batch; from `add_messages` also all responses before it
   if there are any.
   */
  lemma ResultMeaning<M, R>(server: Server<M, R>, messages: seq<M>, k: nat)
    requires StopsAt(server, Batches(messages), k)
    ensures var batches := Batches(messages);
            var all := Flatten(Responses(server, batches, k));
            if k == |batches| then
              AddResult(server, batches, k) == Ok(all) && CreateResult(server, batches, k) == Ok(all)
            else
              var code := server(k, batches[k]).code;
              && CreateResult(server, batches, k) == Err(code)
              && (all == [] ==> AddResult(server, batches, k) == Err(code))
              && (all != [] ==> AddResult(server, batches, k) == Partial(all, |all|, code))
  {
    AnswersInOrder(server, Batches(messages), k);
  }

  function Map<M, R>(f: M -> R, s: seq<M>): seq<R> { seq(|s|, i requires 0 <= i < |s| => f(s[i])) }

  /** The server answers every batch it accepts with the image of each message. */
  ghost predicate Creates<M(!new), R(!new)>(server: Server<M, R>, f: M -> R) {
    forall k, batch :: server(k, batch).Created? ==> server(k, batch).items == Map(f, batch)
  }

  lemma {:induction false} AnswersAreImages<M(!new), R(!new)>(server: Server<M, R>, f: M -> R, batches: seq<seq<M>>, k: nat)
    requires Creates(server, f) && StopsBefore(server, batches, k)
    ensures Answers(server, batches, k) == Map(f, Flatten(batches[..k]))
  {
    if k > 0 {
      AnswersAreImages(server, f, batches, k - 1);
      var last := batches[k - 1];
      assert batches[..k] == batches[..k - 1] + [last];
      FlattenAppend(batches[..k - 1], last);
      assert server(k - 1, last).Created?;
      assert Map(f, Flatten(batches[..k - 1]) + last) == Map(f, Flatten(batches[..k - 1])) + Map(f, last);
    }
  }

  lemma {:induction false} FrontOfCut<M>(batches: seq<seq<M>>, k: nat)
    requires WellCut(batches) && k < |batches|
    ensures |Flatten(batches[..k])| == BATCH * k
    ensures Flatten(batches[..k]) <= Flatten(batches)
  {
    if k > 0 {
      FrontOfCut(batches, k - 1);
      assert batches[..k] == batches[..k - 1] + [batches[k - 1]];
      FlattenAppend(batches[..k - 1], batches[k - 1]);
    }
    FlattenSplit(batches, k);
  }

  lemma {:induction false} FlattenSplit<T>(parts: seq<seq<T>>, k: nat)
    requires k <= |parts|
    ensures Flatten(parts) == Flatten(parts[..k]) + Flatten(parts[k..])
  {
    if k > 0 {
      assert parts[..k][1..] == parts[1..][..k - 1] && parts[1..][k - 1..] == parts[k..];
      FlattenSplit(parts[1..], k - 1);
      Associate(parts[0], Flatten(parts[1..][..k - 1]), Flatten(parts[k..]));
    } else {
      assert parts[0..] == parts && [] + Flatten(parts) == Flatten(parts);
    }
  }

  /**
   With a server that creates `f(m)` for each message `m`, success is the image of the whole
   list in its order, and a failure of batch `k` comes after the images of its first 100 k.
   */
  lemma ImagesInOrder<M(!new), R(!new)>(server: Server<M, R>, f: M -> R, messages: seq<M>, k: nat)
    requires Creates(server, f) && StopsAt(server, Batches(messages), k)
    ensures k == |Batches(messages)| ==> Answers(server, Batches(messages), k) == Map(f, messages)
    ensures k < |Batches(messages)| ==>
            BATCH * k <= |messages| && Answers(server, Batches(messages), k) == Map(f, messages[..BATCH * k])
  {
    var batches := Batches(messages);
    BatchesCut(messages);
    AnswersAreImages(server, f, batches, k);
    if k < |batches| {
      FrontOfCut(batches, k);
      assert Flatten(batches[..k]) == messages[..BATCH * k];
    } else {
      assert batches[..k] == batches;
    }
  }

  /** The server answers every batch it accepts with one response for each message. */
  ghost predicate OnePerMessage<M(!new), R>(server: Server<M, R>) {
    forall k, batch :: server(k, batch).Created? ==> |server(k, batch).items| == |batch|
  }

  /**
   With such a server, a failure of batch `k` reports the responses to exactly the first
   100 * k messages, and is a partial failure exactly when an earlier batch was created.
   */
  lemma {:induction false} PartialCounts<M(!new), R>(messages: seq<M>, server: Server<M, R>, k: nat)
    requires OnePerMessage(server) && StopsBefore(server, Batches(messages), k)
    ensures |Answers(server, Batches(messages), k)| == if k < |Batches(messages)| then BATCH * k else |messages|
    ensures k < |Batches(messages)| ==> (Answers(server, Batches(messages), k) == [] <==> k == 0)
  {
    var batches := Batches(messages);
    BatchesCut(messages);
    CountAnswers(server, batches, k);
    if batches != [] {
      FlattenLength(batches);
    } else {
      assert messages == [];
    }
  }

  lemma {:induction false} CountAnswers<M(!new), R>(server: Server<M, R>, batches: seq<seq<M>>, k: nat)
    requires OnePerMessage(server) && StopsBefore(server, batches, k) && WellCut(batches)
    ensures |Answers(server, batches, k)| ==
            if k < |batches| || k == 0 then BATCH * k else BATCH * (k - 1) + |batches[k - 1]|
    decreases k
  {
    if k > 0 {
      CountAnswers(server, batches, k - 1);
      assert server(k - 1, batches[k - 1]).Created?;
    }
  }

  lemma {:induction false} FlattenLength<M>(parts: seq<seq<M>>)
    requires parts != [] && WellCut(parts)
    ensures |Flatten(parts)| == BATCH * (|parts| - 1) + |parts[|parts| - 1]|
  {
    if |parts| > 1 {
      var rest := parts[1..];
      assert forall i :: 0 <= i < |rest| ==> rest[i] == parts[i + 1];
      FlattenLength(rest);
    } else {
      assert Flatten(parts) == parts[0] + Flatten([]);
    }
  }

  // ---------------------------------------------------------------------
  // ConclusionScope::create
  // ---------------------------------------------------------------------

  /** The same batches; what earlier batches created is dropped when a later one fails. */
  method CreateConclusions<M, R>(items: seq<M>, server: Server<M, R>)
      returns (result: Result<R>, requests: seq<seq<M>>, k: nat)
    ensures SentUpTo(server, Batches(items), k, requests)
    ensures result == CreateResult(server, Batches(items), k)
  {
    ghost var batches := Batches(items);
    requests, k := [], 0;
    if items == [] {
      assert SentUpTo(server, batches, 0, requests) && Answers(server, batches, 0) == [];
      return Ok([]), requests, 0;
    }
    if |items| <= BATCH {
      requests := [items];
      assert batches == [items];
      match server(0, items) {
        case Created(data) =>
          assert Answers(server, batches, 1) == [] + data == data;
          assert SentUpTo(server, batches, 1, requests);
          return Ok(data), requests, 1;
        case Failed(code) =>
          assert SentUpTo(server, batches, 0, requests);
          return Err(code), requests, k;
      }
    }
    var all: seq<R>, rest := [], items;
    while rest != []
      invariant k <= |batches| && batches[k..] == Batches(rest)
      invariant StopsBefore(server, batches, k) && requests == batches[..k]
      invariant all == Answers(server, batches, k)
      decreases |rest|
    {
      var chunk := rest[..Min(|rest|, BATCH)];
      NextBatch(rest);
      assert chunk == batches[k..][0] == batches[k];
      requests := requests + [chunk];
      assert requests == batches[..k + 1];
      match server(k, chunk) {
        case Created(data) =>
          all := all + data;
          rest := rest[|chunk|..];
          assert batches[k + 1..] == batches[k..][1..];
          k := k + 1;
        case Failed(code) =>
          assert SentUpTo(server, batches, k, requests);
          return Err(code), requests, k;
      }
    }
    assert k == |batches| && SentUpTo(server, batches, k, requests);
    result := Ok(all);
  }
}
