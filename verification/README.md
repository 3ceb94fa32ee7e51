# Verification of the Honcho Rust SDK core

The SDK talks to a memory service over HTTP. Its hard parts are an incremental parser for
server-sent events, two small concurrent protocols, several ways to walk paginated
listings and to send long ones in batches, a bounded retry loop, and encoders whose output
must be readable again. This project models those parts and proves what they promise, for
every input, every run or every schedule.

| file | what it holds |
|---|---|
| `Basics.dfy` | bytes, optional values, concatenation |
| `Utf8.dfy` | UTF-8 scanning and decoding with replacement, whole and in pieces |
| `Lines.dfy` | line splitting, whole and one line at a time |
| `SseSpec.dfy` | the batch reading of a stream, the parser as a function on states, chunking theorems |
| `SseParser.dfy` | the parser object, method by method |
| `SseLimits.dfy` | two inputs that show where the chunking theorems end |
| `SseStream.dfy` | the content stream, the accumulating adapter, the blocking iterator |
| `WorkspaceCache.dfy` | the "workspace exists" cache under all interleavings |
| `UploadBridge.dfy` | the streamed upload: reader thread, pipe, error slot, join |
| `Pagination.dfy` | the three page walks |
| `Batching.dfy` | the two batch senders |
| `Retry.dfy` | delays and the two retry loops |
| `Routes.dfy` | percent-encoding, id validation, route templates |
| `ContextMessages.dfy` | peer-card quoting, tag escaping and framing, the message list |

Conventions. A Rust `String` is its UTF-8 bytes, so the parser's buffer is a byte sequence
and every length and index is the one the program uses; that the buffer is well-formed at
every step, and is only cut at character boundaries, is part of the proof. The JSON grammar,
the server, the wall clock, the caller's `Read` and the outcome of a send are functions
passed as parameters: a theorem over all of them is a theorem over every behaviour they can
have. A server that depends on time is a function of the request number.

## How the results fit together

*Event stream.* `SseSpec.ChunkingDoesNotMatter` says that every accepted run of `feed` and
`finalize` yields exactly the batch reading: decode everything with replacement, split into
lines, read each line, stop at the first done line. The batch reading is defined without
reference to the parser: decoding by characters of RFC 3629 and maximal subparts of the
Unicode Standard, lines by rewriting every line end to LF and cutting there. A rejected run
has yielded a prefix of it. Runs can be rejected, and whether one is depends on the cut
(`SseLimits.GuardDependsOnTheCut`), so `SseSpec.RejectedIff` gives the exact condition on
the bytes before each cut, and `SseSpec.ShortLinesAreNotRejected` the bound a server can
keep to; `SseLimits.LineBoundIsTight` shows that one byte more is too much.

*Workspace cache.* `WorkspaceCache.CacheIsCoherent` keeps the promise over every
interleaving in which each fill by get-or-create is safe: the cell is still the one its
request found, or no delete has taken effect since. A fill that is not safe can still be
harmless; `WorkspaceCache.CoherentThroughoutIff` says that a run keeps the promise in all its
states if and only if no fill is harmful, `WorkspaceCache.GetFillIff` that a harmful one is
late in both respects, and `WorkspaceCache.LateGetBreaksCoherence` that there are such runs.
A delete that took effect but whose reply was lost can leave a full cell behind:
`WorkspaceCache.LoseDeleteIff` says exactly when, `WorkspaceCache.CacheIsUpToDate` what holds
if the losses are harmless, and `WorkspaceCache.ForceRestoresTrust` that `force_ensure`
repairs either damage. Single flight needs no condition at all.

*Upload.* `UploadBridge.SendSucceedsIff` says exactly when `send` succeeds, and
`UploadBridge.SuccessIsComplete` that the whole stream was sent then. The join is what makes
this true: before it, a reader that panics looks like a clean end of file.

*Results against any server.* The page walks and the batch senders are recursive functions
that the methods refine. What they come to is stated without them, for every list of responses
that a server can give: `Pagination.StreamDecides`, `Pagination.ChainDecides`,
`Pagination.PeersDecides`, `Batching.ResultMeaning`; likewise `Retry.RunIff` for the retry loops.

*Where code and documentation differ, the code is followed.* `feed` documents its error as
"a single unterminated line exceeds" the bound; it also counts a held CR, undecoded bytes
and everything after a done line in the same chunk (`src/http/sse.rs:36-52`).
`get_or_create_workspace` documents that the workspace "is guaranteed to exist" when it
fills the cell (`src/client.rs:317-328`); a delete may have come in between. `add_messages`
documents a partial failure whenever an earlier chunk succeeded; the code asks whether any
response was received (`src/session.rs:927-975`). `Batching.EmptyResponseIsNoSuccess` is an
input on which the two differ, `Batching.PartialIff` the exact condition.

*Message lists.* `to_openai` loses nothing (`ContextMessages.OpenAiIsRecovered`). `to_anthropic`
sends context and messages in one role, and two contexts can have one list
(`ContextMessages.AnthropicIsAmbiguous`); `ContextMessages.AnthropicIsRecoveredIff` says exactly
which contexts are recovered, and `ContextMessages.PosingIsAmbiguous` that no reader can do better
where a message looks like a part of the context.

## Model

| member | source | states |
|---|---|---|
| `Utf8.NextUnitIsMaximalSubpart` | src/http/sse.rs:85-117 | the scanner classifies the front of any byte string as the standards do: a character of the RFC 3629 grammar, one unfinished character, or an ill-formed part that is exactly the maximal subpart |
| `Utf8.LossyIsReplacementDecoding` | src/http/sse.rs:66-70 | lossy decoding is the one result the replacement rule allows, in both directions |
| `Utf8.DecodeInPieces` | src/http/sse.rs:85-117 | decoding a prefix, keeping its unfinished tail and decoding the rest gives the text of the whole, for every cut |
| `Utf8.LossyIsTextThenFlush` | src/http/sse.rs:66-70 | the text settled so far followed by the flushed tail is the one-shot decoding; a tail flushes to one replacement character |
| `Utf8.TailIsPartialChar` | src/http/sse.rs:85-117 | what stays undecoded is empty or a proper prefix of some well-formed character |
| `Utf8.FromUtf8Meaning` | src/http/sse.rs:88-111 | each report of `from_utf8` accounts for the text: valid part, one replacement if there is an error length, then the text of what is left |
| `Utf8.FromUtf8AcceptsWellFormed` | src/http/sse.rs:89-93 | validation succeeds exactly on concatenations of well-formed characters |
| `Utf8.ValidPartIsValid` | src/http/sse.rs:96-101 | decoding the part reported valid a second time cannot fail, as the debug assertion claims |
| `Utf8.TextIsWellFormed` | src/http/sse.rs:85-117 | decoded text is well-formed for every input |
| `Utf8.WellFormedIsUnchanged` | src/http/sse.rs:85-117 | well-formed input decodes to itself with nothing left over |
| `Lines.LinesStep` | src/http/sse.rs:132-184 | lines taken at the first CRLF, LF or CR are the lines of the text with all line ends rewritten to LF and cut there |
| `Lines.NextLineIsFinal` | src/http/sse.rs:149-162 | a line taken before the text is complete is the first line of every completion; what is held back has no LF and a CR only at its end |
| `Lines.NextLineFlush` | src/http/sse.rs:140-146 | on a complete text every line is taken, in order, the unterminated last one included |
| `Lines.NextLineWellFormed` | src/http/sse.rs:147-182 | every slice and drain of the buffer falls on a character boundary |
| `SseSpec.HandleMeaning` | src/http/sse.rs:186-228 | exactly which lines end the stream and exactly which yield which text, with done taking precedence over content |
| `SseSpec.ChunkingDoesNotMatter` | src/http/sse.rs:39-228 | for every chunking, an accepted run yields the batch reading of the bytes and a rejected one a prefix of it |
| `SseSpec.TwoChunkingsAgree` | src/http/sse.rs:39-228 | any two accepted chunkings of the same bytes yield the same contents |
| `SseSpec.FeedAdvances` | src/http/sse.rs:39-55 | one feed takes the one-shot state of the bytes so far to that of the bytes with the chunk, and is rejected exactly if that state retains more than the bound |
| `SseSpec.RejectedIff` | src/http/sse.rs:39-77 | a run is rejected if and only if at some cut not after a done line the one-shot state retains over 1 MiB, or the flushed rest does |
| `SseSpec.CompleteLinesMeaning` | src/http/sse.rs:132-184 | the complete lines of a text are the first lines of every completion, and what is held behind them contains no complete line |
| `SseSpec.RejectedContents` | src/http/sse.rs:39-77 | a rejected run has yielded exactly the contents of the lines complete before the first feed that retained too much, or before the end if no feed did |
| `SseSpec.ShortLinesAreNotRejected` | src/http/sse.rs:39-77 | if every decoded line is at most the bound less 4 bytes, no chunking is rejected except by a feed that itself read the done line |
| `SseLimits.LineBoundIsTight` | src/http/sse.rs:44-53 | lines of the bound less 3 bytes can be rejected: a held CR and three undecoded bytes go over it |
| `SseLimits.GuardDependsOnTheCut` | src/http/sse.rs:44-54 | the same bytes are accepted in two chunks and rejected in one, because bytes after a done line are counted |
| `SseParsers.SseParser.Feed` | src/http/sse.rs:39-55 | new state and reply are those of the specification; buffer well-formed, at most 3 undecoded bytes, and after success nothing complete is held and at most 1 MiB is retained |
| `SseParsers.SseParser.Finalize` | src/http/sse.rs:62-77 | new state and reply are those of the specification; after success without done nothing is retained |
| `SseParsers.SseParser.DecodePending` | src/http/sse.rs:85-117 | the loop over `from_utf8` reports appends exactly the settled text and keeps exactly the unfinished tail |
| `SseParsers.SseParser.DrainLines` | src/http/sse.rs:119-130 | lines are taken until none is complete or one is done; contents, rest and flag are those of the specification |
| `SseParsers.SseParser.PopLine` | src/http/sse.rs:132-184 | the two searches and four cases find the specified next line and leave the rest, or leave the buffer alone |
| `SseParsers.SseParser.HandleLine` | src/http/sse.rs:186-228 | the prefix strips, checks and early returns reach exactly the verdict that `SseSpec.HandleMeaning` characterises: the done flag is set on done lines only, a text is returned for content lines only |
| `SseStreams.ParseSseStream` | src/http/sse.rs:242-285 | the loop yields the specified items for every sequence of chunks and failures |
| `SseStreams.StreamIsBatch` | src/http/sse.rs:250-285 | batch contents, then one transport error if the byte stream failed before done, then nothing; with a guard error a prefix, then that error only |
| `SseStreams.DialecticStream.PollNext` | src/dialectic_stream.rs:118-146 | accumulated content, completion and error flag are functions of the answers received; after the end the inner stream is not polled |
| `SseStreams.FinalResponseIsBatch` | src/dialectic_stream.rs:118-146 | over the whole pipeline, under every pattern of pending answers: without a guard error the final response is the concatenated batch contents, marked errored exactly if the byte stream failed before done; with one it is all contents yielded before it, and marked errored |
| `SseStreams.ContentIsPrefix` | src/dialectic_stream.rs:118-146 | at every moment, terminated or not, the accumulated content is a prefix of the concatenated batch contents |
| `SseStreams.ChatStreamIterator.Next` | src/blocking/peer.rs:343-366 | a rejected context is reported once without polling and then None forever; otherwise the first answer that is not pending is delivered; completed iterators stay completed |
| `WorkspaceCache.CacheIsCoherent` | src/client.rs:233-273 | over every run whose fills by get-or-create are safe: a full current cell means the workspace exists or was deleted under that cell |
| `WorkspaceCache.CoherentThroughoutIff` | src/client.rs:321-330 | a run keeps that promise in every state if and only if no fill takes effect on a workspace that is gone with no delete under the cell |
| `WorkspaceCache.CacheIsUpToDate` | src/client.rs:696-708 | if also every loss of a delete's reply is harmless, the only excuse is a delete that is about to reset the cell |
| `WorkspaceCache.EveryRunIsSingleFlight` | src/client.rs:233-250 | over every run without exception: at most one create request is in flight per cell, and at most one success ever fills it |
| `WorkspaceCache.ReplyFillsIff` | src/client.rs:236-246 | whatever other calls do between the reply and its handling, the snapshotted cell is filled if and only if the server created the workspace or answered 409, and its permit is given back |
| `WorkspaceCache.EnsureFillsIff` | src/client.rs:233-250 | one ensure from snapshot to end, interleaved with any steps of others: the cell current at the snapshot is filled if and only if the answer was a success or 409 |
| `WorkspaceCache.WaiterGoesOn` | src/client.rs:233-250 | over every run a permit belongs to a request in flight, and a call that waits for its cell finds it set, or can take the permit, or the holder's own next step is possible |
| `WorkspaceCache.SetCellIsEnough` | src/client.rs:233-235 | once the current cell is set an ensure sends nothing |
| `WorkspaceCache.ForceAsksAnew` | src/client.rs:267-273 | `force_ensure` can always send a request of its own, whatever the cache held and whoever was asking |
| `WorkspaceCache.CacheIsCoherentIfNothingIsLost` | src/client.rs:696-708 | in particular so if no delete loses its reply |
| `WorkspaceCache.LoseDeleteIff` | src/client.rs:696-708 | a lost reply leaves a full cell unexcused if and only if the cell is full, the workspace gone and no other reset of the cell on its way; it keeps the invariant if and only if the loss is harmless |
| `WorkspaceCache.LostDeleteLeavesStaleCell` | src/client.rs:696-708 | a delete that took effect and then failed leaves a full cell, no workspace and no reset to come |
| `WorkspaceCache.ForceRestoresTrust` | src/client.rs:267-273 | after any run, from the reset of `force_ensure` until the next delete takes effect, a full cell means the workspace exists, if the fills after the reset are safe |
| `WorkspaceCache.LateGetBreaksCoherence` | src/client.rs:321-330 | a run in which get-or-create fills a cell made by a delete: the cache claims a workspace that is gone |
| `WorkspaceCache.GetFillIff` | src/client.rs:321-330 | one fill breaks the promise if and only if it takes effect on a workspace that is gone with no delete under the cell, and then both another cell has become current and a delete has taken effect since its request did |
| `UploadBridge.StepKeepsInv` | src/blocking/session.rs:29-57 | every step of either side keeps: body, pipe and unwritten bytes together are what was read, the slot is set before the pipe closes, and success implies a clean end |
| `UploadBridge.DeliveredIsPrefix` | src/blocking/session.rs:505-531 | at every moment the bytes delivered are a prefix of what the reader has yielded |
| `UploadBridge.SuccessIsComplete` | src/blocking/session.rs:611-645 | if `send` succeeds, the body was the reader's whole stream up to a clean end of file |
| `UploadBridge.SendSucceedsIff` | src/blocking/session.rs:611-645 | over every run: `send` succeeds if and only if the server accepted the body and the reader thread ended at a clean end of file |
| `UploadBridge.CleanUploadSucceeds` | src/blocking/session.rs:492-645 | for a reader that ends cleanly and a server that accepts, every interleaving ends in success with the whole stream as body |
| `UploadBridge.PanicLooksCleanBeforeJoin` | src/blocking/session.rs:619-642 | without the join a panicking reader passes for a clean end: a truncated body is posted and accepted; the join turns it into a failure |
| `UploadBridge.ThreadStopsSoon` | src/blocking/session.rs:505-531 | after that the thread takes at most three more steps and at most one more read, for any reader |
| `UploadBridge.NeverStuck` | src/blocking/session.rs:492-546 | until the call has returned and the thread has ended, some step is possible: the bounded pipe cannot deadlock |
| `UploadBridge.EveryRunEnds` | src/blocking/session.rs:492-546 | if the reader ever stops yielding data, every schedule is finite, with an explicit bound |
| `Pagination.IntoStream` | src/types/pagination.rs:314-363 | the generator yields the specified items, ends as specified and asks for the specified pages |
| `Pagination.StreamDecides` | src/types/pagination.rs:332-361 | against any server: the items of all pages followed, in order, each later page asked for once; the end is the error of the next request if there is one to make, and clean if the last page has no successor or does not advance |
| `Pagination.ResponsesFrom` | src/types/pagination.rs:337-360 | against every server the pages followed come to an end |
| `Pagination.StreamWithoutFetcher` | src/types/pagination.rs:317-317 | without a fetcher the stream is the first page |
| `Pagination.StreamAsksUpwards` | src/types/pagination.rs:336-360 | against any server the pages asked for strictly increase, start after the first page and stay within 64 bits |
| `Pagination.CollectAllPages` | src/blocking/iter.rs:105-141 | the collector returns the specified result and reads exactly the specified pages, at most 1000 |
| `Pagination.ChainDecides` | src/blocking/iter.rs:105-141 | any chain of responses that starts at the first page, follows successors and has come to its end is what the collector reads, and decides its result: all items, the cap error or the error of the next request |
| `Pagination.CollectIsBounded` | src/blocking/iter.rs:121-139 | against any server at most 1000 pages are read |
| `Pagination.CollectIsComplete` | src/blocking/iter.rs:105-141 | on success the items are those of every page read and the last one has no successor or no fetcher |
| `Pagination.CollectFailsFor` | src/blocking/iter.rs:121-136 | on failure pages were left: 1000 were read, or the request for the next one failed with that error |
| `Pagination.Peers` | src/session.rs:843-874 | the walk of `peers` returns the specified result, item conversion errors included |
| `Pagination.PeersDecides` | src/session.rs:848-873 | against any server: the error of the first rejected item, or else of the next request if there is one to make, or else all items of the pages read, converted, in order |
| `Pagination.ConvertedMeaning` | src/session.rs:859-865 | conversion succeeds exactly if every item is accepted, item by item, and otherwise fails with the error of the first rejected one |
| `Pagination.HonestStream` | src/types/pagination.rs:314-363 | on an honest server the stream yields every item once, in order, asking for each later page once |
| `Pagination.HonestCollect` | src/blocking/iter.rs:105-141 | on an honest server the collector returns every item if and only if there are at most 1000 pages, and the cap error otherwise |
| `Pagination.HonestPeers` | src/session.rs:848-873 | on an honest server `peers` returns the items before the first empty page, which are all of them if and only if no page with items follows an empty one |
| `Pagination.WalksAgree` | src/blocking/iter.rs:105-141 | the three walks of an honest listing agree: the collector with the stream if and only if there are at most 1000 pages, `peers` with the stream if and only if there is no gap |
| `Pagination.MapCommutes` | src/types/pagination.rs:268-306 | mapping a page and then walking gives the mapped walk, for items, stream and collector, against any server |
| `Batching.BatchesAreTheCut` | src/session.rs:956-962 | the batches are the one way to cut the list into full hundreds and a non-empty rest, in order |
| `Batching.AddMessages` | src/session.rs:939-988 | exactly the batches up to a failing one are sent; success, plain failure and partial failure carry exactly the responses received |
| `Batching.AnswersInOrder` | src/session.rs:969-969 | what is handed back are the responses in the order of the batches |
| `Batching.ResultMeaning` | src/session.rs:956-982 | against any server: success carries all responses in order; a failure carries the error of the failing batch, and from `add_messages` also all earlier responses if there are any |
| `Batching.ImagesInOrder` | src/session.rs:956-982 | if the server creates `f(m)` for each message, success is the image of the whole list and a failure of batch k comes after the images of its first 100 k, in order |
| `Batching.PartialCounts` | src/session.rs:970-978 | with one response per message, a failure of batch k reports exactly 100 k messages, and is partial if and only if k > 0 |
| `Batching.PartialIff` | src/session.rs:969-979 | for every server: a failure is partial if and only if some earlier response was not empty, and then it carries the responses of all earlier batches |
| `Batching.EmptyResponseIsNoSuccess` | src/session.rs:969-970 | for every list of more than 100 messages: if the first batch is created with an empty response and the second fails, the failure is plain although a batch succeeded |
| `Batching.CreateConclusions` | src/conclusion.rs:388-433 | the same batches are sent; a failure drops what earlier batches created |
| `Retry.DelayBounds` | src/http/client.rs:579-584 | half a second doubling up to one minute, reached from attempt 7 on and not before; the shift fits 32 bits |
| `Retry.DelayNeverShrinks` | src/http/client.rs:579-584 | the delay does not decrease from one attempt to a later one |
| `Retry.JitterBounds` | src/http/client.rs:591-605 | for every clock reading the jittered delay lies in [d/2, d) and is d times a factor of 500 to 999 thousandths, exactly |
| `Retry.Request` | src/http/client.rs:261-321 | every attempt before the last was retried after the delay of the policy, and the last is final |
| `Retry.RequestMultipart` | src/http/client.rs:431-490 | the same policy, except that a form that cannot be built ends the loop before the send |
| `Retry.RunIsUnique` | src/http/client.rs:261-321 | the policy determines number of attempts and sleeps, so both loops behave alike |
| `Retry.RunIff` | src/http/client.rs:270-319 | the runs, in terms of outcomes: every attempt but the last was transient (a timeout, a failed connection, or status 408, 429, 500, 502, 503 or 504 with no retry-after over a minute) and was followed by the delay the server asked for or else the jittered one; the last is not transient or the retries are used up |
| `Retry.RetriesAreBounded` | src/http/client.rs:261-321 | for every way a run can end, a form that cannot be built included: no retry and no sleep for POST and PATCH, no sleep over a minute, none under a quarter of a second after a send error, at most max_retries minutes in all |
| `Routes.Encode` | src/http/routes.rs:12-25 | the loop writes unreserved bytes as they are and all others as upper-case escapes |
| `Routes.DecodeEncode` | src/http/routes.rs:12-25 | percent-decoding recovers every input |
| `Routes.EscapedIffReserved` | src/http/routes.rs:14-21 | letters, digits and `-._~` stay as they are, every other byte becomes an escape |
| `Routes.EscapesAreUpperCase` | src/http/routes.rs:18-21 | every escape has two upper-case digits, and every byte outside escapes is unreserved |
| `Routes.BlankIff` | src/http/routes.rs:38-43 | an id is refused as blank if and only if each of its characters is Unicode white space |
| `Routes.DotSpellingIff` | src/http/routes.rs:44-58 | the refused dot-segments are exactly the ids that percent-decode to one or two dots |
| `Routes.EncodedIsNoDotSegment` | src/http/routes.rs:38-58 | the encoded form of an accepted id is no dot-segment in any spelling |
| `Routes.BuiltPathIsSafe` | src/http/routes.rs:66-84 | for every template: splitting an accepted path at slashes gives the segments of the template, and dot-segment removal leaves the path unchanged |
| `Routes.EveryRouteIsSafe` | src/http/routes.rs:86-388 | the same for each route of the program with its own words: segments as in the template, no dot-segment in any spelling |
| `Routes.EveryRouteIsInjective` | src/http/routes.rs:86-388 | each route accepts exactly valid ids, and different ids give different paths |
| `Routes.TemplateIsInOrder` | src/http/routes.rs:86-388 | every template starts with `v3`, `workspaces`, and its parameters stand in their order at the positions 2, 4 and 6 |
| `Routes.EveryRouteReadsBack` | src/http/routes.rs:86-388 | splitting the path of any route at its slashes and decoding gives the ids in the order of the parameters and the words of the route between and after them |
| `Routes.FirstInvalidIsReported` | src/http/routes.rs:66-84 | a builder rejects with the position of the first id that is not valid, and only then |
| `Routes.BuilderIsInjective` | src/http/routes.rs:66-84 | a builder accepts exactly valid ids, and different ids give different paths |
| `Routes.TemplateHasParams` | src/http/routes.rs:96-388 | each route has a place for each of its parameters |
| `Routes.RoutesCollideIff` | src/http/routes.rs:66-84 | two accepted routes share a path if and only if they agree segment by segment |
| `Routes.LastIdCollides` | src/http/routes.rs:143-158 | a route ending in an id and one ending in a word share a path if and only if the id is that word |
| `Routes.RoutesShareAPathIff` | src/http/routes.rs:86-388 | two different routes with valid ids share a path if and only if one ends in an id where the other, of the same collection and below the same ids, has a word, and the id is that word |
| `Routes.PeerAndPeersList` | src/http/routes.rs:143-158 | a peer has the path of the peer list of its workspace if and only if its id is `list` |
| `ContextMessages.EscapeIsPointwise` | src/types/session.rs:343-354 | three successive replacements, fast path included, equal one substitution per character |
| `ContextMessages.NoAngleBrackets` | src/types/session.rs:343-354 | escaped values contain no angle bracket |
| `ContextMessages.UnescapeEscape` | src/types/session.rs:343-354 | escaping has a left inverse |
| `ContextMessages.ParseFramed` | src/types/session.rs:544-551 | from a frame the tag and the value are recovered, so no value can close or forge a tag |
| `ContextMessages.FramesAreUnique` | src/types/session.rs:544-551 | equal frames have equal tags and equal values |
| `ContextMessages.ParseFormatted` | src/types/session.rs:494-500 | every card is recovered from its formatted text, whatever its items contain |
| `ContextMessages.BuildContextMessages` | src/types/session.rs:506-527 | the pairs of the parts that are present |
| `ContextMessages.PartsInOrder` | src/types/session.rs:503-527 | those pairs: each tag occurs if and only if its part is present, with that part's value and once, and in the order representation, card, summary |
| `ContextMessages.BuildMessages` | src/types/session.rs:537-557 | framed context, then messages in order; its length is `len` and it is empty exactly if `is_empty` says so |
| `ContextMessages.ReadContextIff` | src/types/session.rs:537-557 | for every role and rendering: a reader that knows only the role finds exactly the parts of the context if and only if the first rendered message does not look like a further part, and then leaves exactly the messages |
| `ContextMessages.PosingIsAmbiguous` | src/types/session.rs:537-557 | otherwise another context has the very same list, so no reader can tell them apart |
| `ContextMessages.OpenAiIsRecovered` | src/types/session.rs:577-586 | every context is recovered from its OpenAI list, card items, peer ids and contents included |
| `ContextMessages.OpenAiRoles` | src/types/session.rs:577-586 | entry by entry: role `system` exactly before the messages, `assistant` exactly for messages of the assistant, `user` for the others; name and content are those of the message |
| `ContextMessages.AnthropicRoles` | src/types/session.rs:598-614 | entry by entry: role `assistant` exactly for messages of the assistant, `user` for all else; the content of other messages is behind the sender's id |
| `ContextMessages.AnthropicIsRecoveredIff` | src/types/session.rs:598-614 | a context is recovered from its Anthropic list if and only if its first message does not look like a further part and no sender but the assistant has `: ` in its id |
| `ContextMessages.OrdinaryIdsDoNotPose` | src/types/session.rs:598-614 | a first message of the assistant, or of a peer whose id does not start with `<`, does not look like a part |
| `ContextMessages.AnthropicIsAmbiguous` | src/types/session.rs:598-614 | the summary `a: ` and a message of the peer `<summary>a` are sent as the same object |

## Left out

- HTTP transport, TLS, headers, multipart bodies and tracing: the server is a function or a step.
- The JSON grammar and all request and response types: a JSON text maps to a value or is malformed.
- The async runtimes: `OnceCell` is a permit and a flag, the duplex pipe a bounded queue with two ends, a task switch can happen at every await. `ensure_cell` and `reset_ensure` are steps on a state value, not methods of a class, because a method body cannot be interleaved.
- SseStreams.ChatStreamIterator.Next: assumes that the wrapped stream answers something other than pending in the end, because a call that waits forever does not return.
- Batching.PartialCounts: assumes a server that answers with one response per message; `Batching.AddMessages` states the result for every server.
- Byte streams that never end: the content stream is given everything that will arrive; for an unending one the theorems speak of its prefixes.
- WorkspaceCache.CacheIsCoherent: assumes that the server answers 409 to a create request only while the workspace exists; the code takes any 409 for success (`src/client.rs:244`).
- A retried DELETE: its second attempt is a second delete call in the cache model, and the first counts as one whose reply was lost.
- Deletes and creations by other clients: creation is a step of the cache model, deletion by others is not.
- Pre-filled read buffers in `poll_read`: end of file is an empty delivery on a closed pipe.
- Retry-after headers: parsing is left out, the delay in nanoseconds or its absence is given.
- Range checks of page number and size, reserved filters, status-to-error mapping: settled by one branch each.
- The JSON text of a message list: an entry is its role, optional name and content; ids and metadata of messages are not sent.
- Metadata caches, blocking wrappers that only delegate, formatting for display, examples.
