# Verification of the terminal stream and the workspace index

This project models two parts of the repository in Dafny and proves what they are for.

* **The terminal stream.** Bytes travel from a PTY subprocess to the daemon and on to clients, and input
  travels the other way. Modelled are the frame codec between the two processes, the shell-ready and the
  title scanner, the session with its emulator queue, snapshot boundaries, clients and flow control, the
  stdin queue to the subprocess, the PTY input queue inside it, and the semaphore that limits spawns.
* **The workspace index.** A cached list of files is kept current from file-system events. Modelled are the
  coalescing of raw events, the pairing of deletes with creates into renames, the patching of the cached
  index, the compilation of ignore globs, fuzzy scoring, the throttled delivery of events and resource URIs.

Two smaller parts stand beside them: the port manager's event stream, and the quoting of prompts and paths
for shells.

A part that changes state is a pure state with one step for each turn of the event loop, a class or a method
in the form the source has, and a proof that the class takes exactly those steps. What the part promises is
then proved about every run of steps. I/O, clocks and everything nondeterministic are parameters of the
steps: what a write answers, how many bytes it took, how many passes the clock allows, what `stat` says.

`dafny verify dfyconfig.toml` checks everything.

## Where the code does less than it seems to

Each of these is a theorem with the exact condition under which the code does what is expected.

* A stream takes every buffer it is handed, also when it answers false, but the session keeps the head of its
  stdin queue after a false answer. The subprocess gets exactly the accepted frames if and only if the stream
  never answered false (`SubprocessStdin.DeliveredOnceIffNeverRefused`). What it decodes otherwise is stated too: a
  header written twice puts the second one in front of the payload (`SubprocessStdin.HeaderTwiceDecoded`,
  `PayloadTwiceDecoded`).
* A hard write error in the PTY subprocess clears the input queue. Of an asynchronous write it leaves stdin
  paused for good if it was paused; of a synchronous one if more than the low mark was left behind the head
  (`PtyInputQueue.HardErrorKeepsPauseIff`, `ThrowKeepsPauseIff`, `HardErrorWhilePausedSticks`,
  `StuckIsReachable`).
* The sequences that the title scanner finds do not depend on the chunking exactly as long as none of them has
  more than 4097 bytes (`TerminalTitleScanner.ChunkInvariantIff`).
* The scanner takes the bytes 0x9c and 0x9d for a terminator and an introducer, but they are also bytes of
  characters in UTF-8: a title arrives exactly when it has no 0x9c and the output before it no 0x9d, as
  typographic quotation marks do (`TitleEncoding.TitleArrivesIff`, `QuotationMarks`). What is found instead is
  stated too (`OpeningMarkCuts`, `ClosingMarkHides`, `HiddenTitleIsNoUpdate`).
* Text written to a PTY is cut every 8192 UTF-16 units; its bytes survive exactly when no cut falls inside a
  surrogate pair (`SubprocessStdin.PartsKeepBytes`).
* The path stored in an index entry is the file's own path exactly when the part below the root has no
  backslash; a file with one that is created and deleted stays in the index
  (`SearchIndex.EntryPathIsOwnPathIff`, `SearchIndexRefinement.DeletedFileGoneIff`).
* A path with a line break is not ignored by the names of its directories, because a dot in the compiled
  expressions does not match one (`GlobPatterns.DefaultIgnoreMeaning`).
* Flushes of one watcher wait for `stat` and may end in another order than they started in. Then an index is
  right exactly if the last events in ending order say the same as in starting order
  (`SearchIndexRuns.EndingOrderRightIff`); otherwise it may keep a file that is gone, for good
  (`OverlappingFlushesKeepFile`). What a build saw is right later exactly if it is on track: what it saw and the
  files agree but for paths of which a flush in flight or the next one will tell
  (`SearchIndexRuns.IndexOnTrackIff`, `WatchTimeline.FilesOnTrackIff`). A build between a create and a delete
  that cancel out is not (`BuildBetweenKeepsFile`).
* The cache that a search scores its items through has no separator between name and directory in its key, so
  `c/ab` and `bc/a` share one score: for the query `ab` either both are listed or none
  (`FuzzyClashes.SameTextSameScore`). Every item gets its own score exactly if items with the same text score the
  same (`FuzzySearch.OwnScoresIff`). Over all queries, files get their own scores, and are ranked by their
  tiers, exactly if no two of them make the same text (`FuzzyClashes.AlwaysOwnIff`, `AlwaysRankedIff`).
* The bands of scores are apart exactly for queries of at most 204 characters (`FuzzyScoreBounds.RawScoresFitIff`,
  `FuzzyRanking.LongQueriesOverlap`). Among files of a search whose text of name and directory no other has, the
  tiers decide the order exactly up to 205 (`FuzzyRanking.RankingRightIff`, `LongQueriesMisrank`).
* A resource URI parses back to its parts exactly for a non-empty identifier and an absolute path in normal form
  (`ResourceUri.RoundTripIff`, `FixedIff`). Normalizing twice is normalizing once exactly when the first segment
  does not become a drive (`ResourceUri.IdempotentIff`, `NormalizationIsNotIdempotent`).
* A prompt passed to a POSIX shell as an argument loses the newlines at its end (`PromptQuoting.PosixDelivers`).
  PowerShell reads the literal of a prompt or path back as it was exactly when it has no typographic single
  quote, against the comment that only the ASCII quote needs escaping (`PromptQuoting.PowerShellReadsBackIff`).
* A port stays with the workspace under which it was first detected: it has the workspace that its terminal is in
  exactly if it is new or had that workspace before (`PortManager.ScanKeepsWorkspaceIff`). After a terminal has
  moved, killing its ports is refused to the new workspace (`KillRefusedIff`, `MoveTerminal`).

## Model

| member | source | states |
|---|---|---|
| `FrameCodec.LengthReadsBack` | src/main/terminal-host/pty-subprocess-ipc.ts:30-38 | the four length bytes of a header read back as the length, for every unsigned 32-bit value |
| `FrameCodec.WriteFrame` | src/main/terminal-host/pty-subprocess-ipc.ts:30-57 | a stream is given exactly header and payload, in one write or two, and the answer is true iff every write answered true; a payload too long for the length field is refused before anything is written |
| `FrameCodec.RoundTrip` | src/main/terminal-host/pty-subprocess-ipc.ts:30-128 | frames of up to 64 MiB, encoded and cut into chunks in any way, decode to exactly those frames in order, and the decoder ends ready for a header |
| `FrameCodec.DecodedIsReceived` | src/main/terminal-host/pty-subprocess-ipc.ts:66-128 | whatever bytes arrive without an oversized header are the encoding of the frames handed out followed by the bytes of one unfinished frame |
| `FrameCodec.ChunkingIrrelevant` | src/main/terminal-host/pty-subprocess-ipc.ts:66-128 | pushing chunks one after the other ends in the state of pushing their concatenation and gives its frames, those complete before the first call that throws if one does |
| `FrameCodec.OversizedInAnyChunking` | src/main/terminal-host/pty-subprocess-ipc.ts:86-103 | after frames that fit, an oversized header stops the decoder in every chunking: the caller saw a prefix of the frames, and every later push that is not empty throws and gives nothing |
| `FrameCodec.Decoder.Push` | src/main/terminal-host/pty-subprocess-ipc.ts:66-128 | one call with its buffers filled in place takes the byte automaton over the chunk, with its frames or its throw |
| `ShellReadyScanner.StripsFirstMarker` | packages/shared/src/shell-ready-scanner.ts:51-93 | in any chunking the scanner matches iff the stream has a marker followed by a BEL; then the output is the stream without exactly the first of them, and before that output and held bytes are the stream |
| `ShellReadyScanner.ChunkingIrrelevant` | packages/shared/src/shell-ready-scanner.ts:51-93 | scanning chunks is scanning their concatenation |
| `ShellReadyScanner.NoBorder` | packages/shared/src/shell-ready-scanner.ts:51-93 | the reason why restarting only at ESC misses nothing: no proper prefix of the marker ends in a shorter one |
| `ShellReadyScanner.Scanner.ScanForShellReady` | packages/shared/src/shell-ready-scanner.ts:51-93 | one call of the loop over bytes takes the scan over the data |
| `TerminalTitleScanner.ChunkingIrrelevant` | packages/shared/src/terminal-title-scanner.ts:159-203 | while nothing outgrows the cap, any chunking finds the sequences that a reference automaton finds in the whole stream (framing by section 8.3.89 of ECMA-48), and the buffer resumes it |
| `TerminalTitleScanner.FitsWhenSequencesShort` | packages/shared/src/terminal-title-scanner.ts:159-203 | nothing outgrows the cap iff every complete sequence has at most 4097 bytes and the unfinished one at most 4096 |
| `TerminalTitleScanner.ChunkInvariantIff` | packages/shared/src/terminal-title-scanner.ts:159-203 | every chunking of a stream finds the sequences of the reference automaton iff none of them has more than 4097 bytes |
| `TerminalTitleScanner.LongTitleDependsOnChunking` | packages/shared/src/terminal-title-scanner.ts:185-203 | with any introducer and terminator, a title beyond the cap arrives in one chunk and is lost when its terminator comes in a later one |
| `TerminalTitleScanner.TitlesChunkInvariant` | packages/shared/src/terminal-title-scanner.ts:126-203 | the title updates, resets included, do not depend on the chunking, as long as no complete sequence has more than 4097 bytes |
| `TitleEncoding.TitleArrivesIff` | packages/shared/src/terminal-title-scanner.ts:68-103 | after output without escapes, a title sent in UTF-8 is the one sequence found, with its payload, iff no character of the output has a byte 0x9d and no character of the title a byte 0x9c |
| `TitleEncoding.QuotationMarks` | packages/shared/src/terminal-title-scanner.ts:68-103 | a title with the opening quotation mark U+201C is not found as sent, and neither is the title after output with the closing one U+201D |
| `TitleEncoding.OpeningMarkCuts` | packages/shared/src/terminal-title-scanner.ts:68-103 | the only sequence found of a title with an opening mark is the title up to the second byte of the mark |
| `TitleEncoding.ClosingMarkHides` | packages/shared/src/terminal-title-scanner.ts:68-103 | after output with a closing mark the only sequence found is opened by the mark; its payload is the text since the mark, the title's introducer and the title |
| `TitleEncoding.HiddenTitleIsNoUpdate` | packages/shared/src/terminal-title-scanner.ts:126-146 | if nothing stands between the mark and the title, that payload gives no update, whatever the title |
| `TerminalTitleScanner.NormalizedTitle` | packages/shared/src/terminal-title-scanner.ts:37-66 | a normalized title is shown, at most 200 characters of the input and free of stripped characters; there is none iff only stripped characters and white space were given |
| `TerminalTitleScanner.StrippedCharacters` | packages/shared/src/terminal-title-scanner.ts:37-60 | stripped are the control characters of both sets with the delete character, the replacement character and the Braille patterns |
| `TerminalTitleScanner.StrippedAndOuterSpaceIgnored` | packages/shared/src/terminal-title-scanner.ts:37-60 | stripped characters anywhere, and white space at either end, make no difference to a title |
| `TerminalTitleScanner.CleanTitleKept` | packages/shared/src/terminal-title-scanner.ts:60-66 | a title without any of that is kept as it is, up to its first 200 characters |
| `TerminalTitleScanner.SupportedPayloads` | packages/shared/src/terminal-title-scanner.ts:126-146 | `0;`, `2;` and `9;3;` before a title give its update, and `9;3;` alone resets the title |
| `TerminalTitleScanner.OtherPayloadsIgnored` | packages/shared/src/terminal-title-scanner.ts:126-146 | no other payload gives an update |
| `TerminalTitleScanner.FindOscStart` | packages/shared/src/terminal-title-scanner.ts:68-84 | the first introducer from a position on, with its length, or none |
| `TerminalTitleScanner.FindOscTerminator` | packages/shared/src/terminal-title-scanner.ts:86-103 | the first terminator from a position on, with its length, or none |
| `TerminalTitleScanner.Scanner.ScanForTerminalTitle` | packages/shared/src/terminal-title-scanner.ts:159-203 | one call gives the updates and the buffer of the scan, and the buffer never exceeds 4096 bytes |
| `Utf16.ByteLengthOfCut` | src/main/terminal-host/session.ts:636-660 | UTF-8 lengths add up across a cut iff it does not separate a surrogate pair |
| `Utf8Lengths.ByteLengthIsUtf8` | src/main/terminal-host/session.ts:595-660 | the size that is counted for a text is the length of its UTF-8 form |
| `EmulatorQueue.SplitKeepsBytes` | src/main/terminal-host/session.ts:636-660 | the splits of long writes never separate a surrogate pair |
| `EmulatorQueue.OnePassWrites` | src/main/terminal-host/session.ts:636-677 | one pass writes the head of the queue, or its first 8192 units, one less if that would separate a surrogate pair, and leaves the rest as the head |
| `EmulatorQueue.TurnKeeps` | src/main/terminal-host/session.ts:610-691 | a turn of any length keeps the queue's invariant: input and queue are the log in order, the byte counter is exact, waiters wait for items that are there |
| `EmulatorQueue.TurnCatchesUp` | src/main/terminal-host/session.ts:610-677 | a turn that is allowed a pass makes progress, and a long enough one writes all, ends the schedule and the backpressure and leaves no waiter |
| `EmulatorQueue.ReachedHasAll` | src/main/terminal-host/session.ts:679-742 | once an attach call's boundary is reached the emulator has all text enqueued before the call |
| `EmulatorQueue.WaitingMisses` | src/main/terminal-host/session.ts:705-742 | a call that still waits, or gives up, misses exactly the text of the items before its boundary |
| `ClientBroadcast.BroadcastKeeps` | src/main/terminal-host/session.ts:1072-1115 | a broadcast reaches every client that stays attached, once, and only attached clients are awaited |
| `SessionModel.StepKeeps` | src/main/terminal-host/session.ts:339-398 | every step of a live session keeps the invariant of queue, clients, shell and flow |
| `SessionModel.FlowControl` | src/main/terminal-host/session.ts:1099-1162 | over every run, reads are paused iff an attached client has to drain or the emulator is backpressured; backpressure lies above 250,000 bytes with a turn scheduled, its absence below 1,000,000; the counter is the queue's size |
| `SessionModel.EmulatorInput` | src/main/terminal-host/session.ts:595-677 | over every run, what the emulator was written followed by the queue is the enqueued text in order |
| `SessionModel.SnapshotHasNoGap` | src/main/terminal-host/session.ts:705-829 | a snapshot taken after the boundary of an attach call was reached holds all text enqueued before the call, the client was sent exactly the text after it, and both together are all text there is, however the run goes on |
| `SessionModel.AllReceived` | src/main/terminal-host/session.ts:357-390 | over every run the output taken in is the payloads of all data frames in order, also of those that arrive while reads are paused |
| `SessionModel.StatusIs` | src/main/terminal-host/session.ts:357-370 | the wait for the marker ends with the first complete marker or the first timeout, whichever comes first |
| `SessionModel.PiecesArePayloads` | src/main/terminal-host/session.ts:357-390 | once no marker is waited for, each payload that is not empty is decoded as one piece |
| `SessionModel.ShellOutput` | src/main/terminal-host/session.ts:357-398 | the text enqueued so far, of which the emulator has the part before the queue, is what was passed on, decoded piece by piece; and in terms of the events of the run that is all PTY output but the first marker if one was complete before the timeout, or but the bytes still held while the wait goes on |
| `SessionModel.SnapshotIsOutput` | src/main/terminal-host/session.ts:705-829 | a snapshot after a reached boundary, joined to what the client was sent, is the decoded pieces of all PTY output passed on |
| `SessionClients.ClientsFollow` | src/main/terminal-host/session.ts:795-869 | over every run a socket is attached by the call, and awaited, as its own events say: attaching, detaching, canceling, its drains, and its answers to what is broadcast |
| `SessionClients.CallsFollow` | src/main/terminal-host/session.ts:679-742 | over every run the boundary of an attach call is reached exactly if as many items as were queued before it were processed before the call gave up |
| `SessionClients.LagFollows` | src/main/terminal-host/session.ts:595-677 | over every run backpressure is the hysteresis of the size of the queue between 250,000 and 1,000,000 bytes |
| `SessionClients.ReadsResume` | src/main/terminal-host/session.ts:1099-1162 | from every state of a run, once the awaited sockets have drained, a long enough turn resumes reads |
| `TerminalSession.Session.ProcessEmulatorWriteQueue` | src/main/terminal-host/session.ts:610-677 | the loop over the queue is a turn of the model |
| `TerminalSession.Session.EnqueueEmulatorWrite` | src/main/terminal-host/session.ts:595-608 | queueing text, counting it, and pausing and scheduling as needed |
| `TerminalSession.Session.HandleData` | src/main/terminal-host/session.ts:357-398 | PTY data is scanned, queued and broadcast as the model's step says |
| `TerminalSession.Session.ShellReadyTimedOut` | src/main/terminal-host/session.ts:1047-1067 | giving up on the marker passes the held bytes on |
| `TerminalSession.Session.AttachClient` | src/main/terminal-host/session.ts:795-829 | an attach call registers its client and marks its boundary in one step; the boundary is reached at once iff the queue is empty |
| `TerminalSession.Session.BoundaryTimedOut` | src/main/terminal-host/session.ts:705-742 | a call that times out no longer waits |
| `TerminalSession.Session.DetachAttachedClient` | src/main/terminal-host/session.ts:842-869 | detaching removes a socket and what it was awaited for; a canceled attach call does so only if the socket was not attached again |
| `TerminalSession.Session.BroadcastEvent` | src/main/terminal-host/session.ts:1072-1097 | the loop over clients, with refusals and throws, is the model's broadcast |
| `TerminalSession.Session.ClearBackpressure` | src/main/terminal-host/session.ts:1104-1114 | a drained, closed or failed socket is no longer awaited |
| `TerminalSession.Session.UpdateSubprocessStdoutFlow` | src/main/terminal-host/session.ts:1144-1162 | afterwards reads are paused iff someone has to drain or the emulator is backpressured |
| `SubprocessStdin.Accounting` | src/main/terminal-host/session.ts:470-541 | over every run the counter is the size of the queue and at most 2,000,000, a queue that is not empty waits for a drain, and what left it followed by it encodes the accepted frames |
| `SubprocessStdin.AcceptedIff` | src/main/terminal-host/session.ts:496-541 | over every run a frame that is sent is accepted iff with its header it fits 2,000,000 bytes beside what is queued; it is flushed at once with all that is queued, also while a drain is awaited |
| `SubprocessStdin.DrainFlushes` | src/main/terminal-host/session.ts:470-494 | a drain that is awaited hands over the buffers that are taken and the one that is refused, and any other changes nothing |
| `SubprocessStdin.DeliveredOnceIffNeverRefused` | src/main/terminal-host/session.ts:470-494 | the stream was handed exactly the accepted frames iff it never answered false; otherwise it got more |
| `SubprocessStdin.NeverRefusedRoundTrip` | src/main/terminal-host/session.ts:470-541 | then the subprocess decodes exactly the accepted frames |
| `SubprocessStdin.RefusedRuns` | src/main/terminal-host/session.ts:470-541 | for every frame with a payload that is sent first, a refused header is handed over twice before its payload, and a refused payload twice after its header |
| `SubprocessStdin.HeaderTwiceDecoded` | src/main/terminal-host/session.ts:470-494 | then the subprocess decodes a frame whose payload starts with the second header, and reads the last five bytes as the next header |
| `SubprocessStdin.PayloadTwiceDecoded` | src/main/terminal-host/session.ts:470-494 | or the frame, and its payload once more as if it were frames |
| `SubprocessStdin.PartsKeepBytes` | src/main/terminal-host/session.ts:557-572 | the parts of a long write are its text, with its bytes iff no cut falls inside a surrogate pair |
| `SubprocessStdin.PairIsCut` | src/main/terminal-host/session.ts:557-572 | every text with the halves of a pair as units 8192 and 8193 is sent with other bytes |
| `SubprocessStdin.StdinQueue.FlushQueue` | src/main/terminal-host/session.ts:470-494 | the flushing loop, which keeps the head after a refusal |
| `SubprocessStdin.StdinQueue.SendFrame` | src/main/terminal-host/session.ts:496-541 | a frame is queued if it fits the bound, and every send flushes, also while a drain is awaited |
| `SpawnSemaphore.Permits` | src/main/terminal-host/terminal-host.ts:114-155 | over every run the permits in use are exactly those held by requests between acquisition and settlement, at most the maximum; a queue means that all are in use; every granted permit is released exactly once |
| `SpawnSemaphore.FirstComeFirstServed` | src/main/terminal-host/terminal-host.ts:437-495 | permits go out in the order of arrival, leaving out the canceled, and no aborted request is left in the queue |
| `SpawnRequests.RequestsFollow` | src/main/terminal-host/terminal-host.ts:437-495 | over every run each request goes through its phases as its own events and its grant say; arrivals, aborted signals and cancellations are those of the events; a request waits exactly while it is queued |
| `SpawnRequests.GrantedInOrder` | src/main/terminal-host/terminal-host.ts:437-495 | so permits go out in the order in which the requests of the run were made, leaving out those aborted before and those canceled while they waited |
| `SpawnSemaphore.ReleaseServesHead` | src/main/terminal-host/terminal-host.ts:478-494 | the branch that skips an aborted waiter and the clamp at zero are unreachable: a release frees one permit or hands it to the head |
| `SpawnSemaphore.PermitsComeBack` | src/main/terminal-host/terminal-host.ts:437-495 | once no request holds a permit, all are free and nobody waits |
| `SpawnSemaphore.Semaphore.AcquirePermit` | src/main/terminal-host/terminal-host.ts:448-476 | an aborted request is rejected, a free permit granted, otherwise the request queued |
| `SpawnSemaphore.Semaphore.ReleasePermit` | src/main/terminal-host/terminal-host.ts:478-494 | the recursive release is the model's |
| `SpawnSemaphore.Semaphore.OnAbort` | src/main/terminal-host/terminal-host.ts:465-470 | an aborted waiter is rejected iff it was queued, and leaves the queue |
| `PtyInputQueue.InputIsDelivered` | src/main/terminal-host/pty-subprocess.ts:44-264 | over runs of spawns, exits, writes and retries without a hard error, bytes written followed by the queue are the accepted input; the counter is exact and at most 64 MiB; one write is in flight at most, and waiting input is worked off until a PTY exits; pausing lies between the marks; the backoff is 0 or from 2 to 50 ms |
| `PtyInputQueue.FlushProgress` | src/main/terminal-host/pty-subprocess.ts:174-233 | a flush whose write takes bytes delivers exactly those |
| `PtyInputQueue.BackoffDoubles` | src/main/terminal-host/pty-subprocess.ts:174-233 | over every run the PTY is the one spawned last until it exits, and the wait before a retry is 2, 4, 8, 16, 32 and then 50 ms for the retries in a row |
| `PtyInputQueue.AcceptedIff` | src/main/terminal-host/pty-subprocess.ts:142-172 | input is accepted iff there is a PTY and 64 MiB are not exceeded, also while reading is paused or a retry waits |
| `PtyInputQueue.HardErrorKeepsPauseIff` | src/main/terminal-host/pty-subprocess.ts:205-211 | a hard error of an asynchronous write keeps the pause bounds iff stdin was not paused |
| `PtyInputQueue.ThrowKeepsPauseIff` | src/main/terminal-host/pty-subprocess.ts:235-257 | a synchronous write that throws keeps them iff stdin was not paused or what is left behind the head is within the low mark |
| `PtyInputQueue.HardErrorWhilePausedSticks` | src/main/terminal-host/pty-subprocess.ts:205-257 | whenever a hard error of either kind breaks them, stdin stays paused in every continuation |
| `PtyInputQueue.StuckIsReachable` | src/main/terminal-host/pty-subprocess.ts:142-257 | runs from the start that end so, for any buffers of 8 MiB or more in all queued before the first flush |
| `PtyInputQueue.PtyInput.QueueWriteBuffer` | src/main/terminal-host/pty-subprocess.ts:155-172 | a buffer is queued and a flush scheduled, or dropped at the hard limit or without a PTY |
| `PtyInputQueue.PtyInput.RunFlush` | src/main/terminal-host/pty-subprocess.ts:174-264 | a flush starts the write of the head, or writes it synchronously, with its throw; without a PTY or input it ends |
| `PtyInputQueue.PtyInput.OnWriteDone` | src/main/terminal-host/pty-subprocess.ts:192-233 | a partial write shortens the head, EAGAIN backs off, a hard error clears the queue |
| `ThrottledWorker.Delivery` | packages/workspace-fs/src/throttled-worker.ts:40-83 | over every run until disposal, delivered chunks followed by pending units are the accepted units; chunks are not empty and at most the chunk size; pending units stay within the buffer; a timer is armed iff units are pending |
| `ThrottledWorker.AcceptedIff` | packages/workspace-fs/src/throttled-worker.ts:40-83 | over every run until disposal an offer is accepted iff it fits a bucket that accepted offers fill and ticks drain by a chunk; that bucket is what waits |
| `ThrottledWorker.NothingRefused` | packages/workspace-fs/src/throttled-worker.ts:40-63 | without a bound, or with one that all offers of a run fit together, every offer is accepted |
| `ThrottledWorker.DrainsInTime` | packages/workspace-fs/src/throttled-worker.ts:65-83 | without new work the queue is empty after n ticks iff n is at least the number of chunks its units make |
| `ThrottledWorker.ChunksRoundUp` | packages/workspace-fs/src/throttled-worker.ts:65-83 | that number is the quotient rounded up |
| `ThrottledWorker.DisposedForGood` | packages/workspace-fs/src/throttled-worker.ts:40-92 | from its disposal on, whatever happens, a worker delivers nothing and accepts nothing |
| `ThrottledWorker.Throttled.OfferWork` | packages/workspace-fs/src/throttled-worker.ts:40-63 | units are accepted or rejected as a whole, and delivered at once if no timer is armed; the caller sees a throw iff the handler was called and threw |
| `ThrottledWorker.Throttled.Dispose` | packages/workspace-fs/src/throttled-worker.ts:85-92 | disposal drops what is pending and disarms the timer |
| `WatchCoalescing.CoalesceWatchEvents` | packages/workspace-fs/src/watch.ts:119-137 | the loop over the map of events is the fold of the coalescing rules |
| `WatchCoalescing.CoalescedOnePerPath` | packages/workspace-fs/src/watch.ts:119-137 | at most one event for each path |
| `WatchCoalescing.TwoEvents` | packages/workspace-fs/src/watch.ts:81-117 | what any two events about one path come to; with the next row, what any sequence comes to |
| `WatchCoalescing.CoalesceInTwoGoes` | packages/workspace-fs/src/watch.ts:81-137 | coalescing a batch before more events are added gives the same result, order included |
| `WatchCoalescing.CoalescedIsNet` | packages/workspace-fs/src/watch.ts:81-137 | for every history that can have happened, the coalesced events are exactly the differences between the files before and after, with an update for a touched path that exists in both |
| `WatchCoalescing.CoalescedSameEffect` | packages/workspace-fs/src/watch.ts:81-137 | the coalesced batch can have happened itself and leads to the same files |
| `WatchRenames.CollectUniquePairs` | packages/workspace-fs/src/watch.ts:168-219 | grouping by key finds exactly the unused deletes and creates that are the only ones of their key |
| `WatchRenames.PairRenameCandidates` | packages/workspace-fs/src/watch.ts:154-253 | the pairs are those by parent, then by base name among the rest, then the last two if of one kind |
| `WatchRenames.PairingMatches` | packages/workspace-fs/src/watch.ts:154-253 | pairing is one-to-one between deletes and creates of the same kind, and never leaves exactly one of each of the same kind |
| `WatchRenames.KeyMeaning` | packages/workspace-fs/src/watch.ts:139-145 | two candidates share a key by parent iff they are of one kind and in one directory, and by base name iff of one kind and one name |
| `WatchRenames.MovedTogether` | packages/workspace-fs/src/watch.ts:154-253 | what one batch moves from one directory to another is paired, each with what has its name there, however many |
| `WatchRenames.RenamedInPlace` | packages/workspace-fs/src/watch.ts:154-253 | what is renamed in place, one of a kind in each directory, is paired within its directory, whatever the names |
| `WatchReconciliation.ReconcileRenameEvents` | packages/workspace-fs/src/watch.ts:255-318 | a rename stands in the place of its create, its delete is dropped, and everything else stays in order |
| `WatchReconciliation.ReconcileConserves` | packages/workspace-fs/src/watch.ts:255-318 | with renames read as the delete and create they stand for, the batch is a permutation of the one before |
| `WatchBatches.ReconciledInOrder` | packages/workspace-fs/src/watch.ts:255-318 | the reconciled batch has the order of the batch, with each rename in the place of its create |
| `WatchBatches.MovedBatch` | packages/workspace-fs/src/watch.ts:255-318 | of a batch that moves things between two directories listeners are told exactly the renames, each with the old and the new path of one of them |
| `WatchBatches.UpdatesAreTold` | packages/workspace-fs/src/watch.ts:626-645 | listeners are told of an update iff the coalesced batch has it, with the path in normal form and what `stat` said |
| `GlobPatterns.GlobToRegExp` | packages/workspace-fs/src/search.ts:184-244 | the emitted text, read as a regular expression, is the list of pieces that the pattern stands for |
| `GlobPatterns.EmittedReadsBack` | packages/workspace-fs/src/search.ts:195-244 | no pattern can be misread: what is emitted for any pieces reads back as those pieces, escapes included |
| `GlobPatterns.CompiledMeaning` | packages/workspace-fs/src/search.ts:184-244 | for patterns in which `**` is a whole segment the compiled expression matches a path iff segment-wise matching does, where `**` stands for segments on one line |
| `GlobPatterns.SlashlessMeaning` | packages/workspace-fs/src/search.ts:184-193 | a pattern without a slash, backslash or two stars selects by the last segment, in directories whose path is on one line |
| `GlobPatterns.PatternMeaning` | packages/workspace-fs/src/search.ts:165-193 | a pattern as it is given selects the paths that its segments match: backslashes are slashes, a leading dot segment and slash are dropped, a slash at the end stands for everything below, and a pattern of one segment for that segment anywhere |
| `GlobPatterns.DefaultIgnoreMeaning` | packages/workspace-fs/src/search.ts:35-51 | the default patterns ignore exactly the paths on one line with an ignored name in a segment before the last, and those with a last segment that ends in `.tsbuildinfo` in a directory whose path is on one line |
| `SearchIndex.EntryPathIsOwnPathIff` | packages/workspace-fs/src/search.ts:139-155 | an entry's path is the file's own path iff the part below the root has no backslash |
| `SearchIndex.EntryShowsFile` | packages/workspace-fs/src/search.ts:139-155 | for a path without a backslash below the root, the entry holds the file's path, its path below the root, its name, and the directory below the root that it is in, if any |
| `SearchIndex.ShouldIndexMeaning` | packages/workspace-fs/src/search.ts:644-660 | which files without a backslash are indexed, in terms of the segments of their path, line breaks included |
| `SearchIndex.BackslashesAreSlashes` | packages/workspace-fs/src/search.ts:139-184 | a path with backslashes is indexed, and as what, as the path with slashes in their place |
| `Paths.DotsResolve` | packages/workspace-fs/src/paths.ts:3-5 | a segment followed by `..` goes away with it, empty and `.` segments go away, and so does `..` at the root |
| `Paths.RelativeLeadsThere` | packages/workspace-fs/src/paths.ts:7-12 | the relative path between any two absolute paths leads from the one to the other |
| `SearchIndexRefinement.ReconcileSameEffect` | packages/workspace-fs/src/watch.ts:255-318 | reconciling changes nothing about which files there are in the end, whatever was paired |
| `SearchIndexRefinement.BatchRefinesView` | packages/workspace-fs/src/watch.ts:642-651 | whatever files an index was built for, reconciling a coalesced batch and patching it in gives the rebuild for those files and what the batch says of them |
| `SearchIndexRefinement.BatchRefinesRebuild` | packages/workspace-fs/src/watch.ts:626-655 | while no path below the root has a backslash, coalesce, reconcile and patch turn an index that a rebuild would give for the files before into the one it would give for the files after, with and without hidden files |
| `SearchIndexRefinement.DeletedFileGoneIff` | packages/workspace-fs/src/search.ts:662-704 | an indexed file that is created and deleted is gone iff its path below the root has no backslash |
| `WatchTimeline.OnTrackIff` | packages/workspace-fs/src/watch.ts:587-655 | with events pending and flushes in flight, a view of the files is on track iff it agrees with the files whenever nothing is outstanding, in every continuation in which flushes end in starting order |
| `WatchTimeline.FilesOnTrackIff` | packages/workspace-fs/src/watch.ts:587-655 | the files of this moment, as a build sees them, are on track iff each of them that is new by pending events only has an event in a started flush |
| `WatchTimeline.EndingOrderIff` | packages/workspace-fs/src/watch.ts:604-614 | flushes that end in another order leave a right view right iff for every path the last event in ending order says what the last one in starting order says |
| `SearchIndexRuns.RunKeepsIndexesRight` | packages/workspace-fs/src/search.ts:308-347 | over every run of changes, overlapping flushes, walks, builds, searches, expiries, evictions and invalidations in which a flush overtakes only flushes that it has no path in common with and builds, which may also fail, store what is on track, an index that is cached when nothing is outstanding is what a rebuild would give now, and at most twelve are cached |
| `SearchIndexRuns.IndexOnTrackIff` | packages/workspace-fs/src/watch.ts:587-655 | the condition on builds is exact: a stored index is on track iff it is right in every such continuation whenever nothing is outstanding |
| `SearchIndexRuns.EndingOrderRightIff` | packages/workspace-fs/src/watch.ts:604-614 | so is the order: with flushes in flight an index comes out right iff the last events in ending order say the same as those in starting order |
| `SearchIndexRuns.OverlappingFlushesKeepFile` | packages/workspace-fs/src/watch.ts:604-651 | a file that is created and deleted in two flushes of which the second ends first stays in the index |
| `SearchIndexRuns.BuildBetweenKeepsFile` | packages/workspace-fs/src/watch.ts:633-637 | so does one that a finished build saw between a create and a delete that cancel out |
| `FileWatcher.Watcher.OnEvents` | packages/workspace-fs/src/watch.ts:587-618 | events are added to those pending, and the flush timer is set while there are any |
| `FileWatcher.Watcher.FlushTimerFires` | packages/workspace-fs/src/watch.ts:607-637 | the timer takes all pending events; what coalescing leaves of them is a flush in flight |
| `FileWatcher.Watcher.FlushResumes` | packages/workspace-fs/src/watch.ts:639-655 | once `stat` has answered, the batch is reconciled, the indexes are patched, and the public events handed on |
| `SearchIndexCache.DirectoriesDropIndexes` | packages/workspace-fs/src/search.ts:706-769 | a batch with a directory drops both indexes of its root and their builds, and no other; a batch of files drops none |
| `SearchIndexCache.LeastRecentlyUsed` | packages/workspace-fs/src/search.ts:129-137 | indexes stay in the order of their last use, so that an eviction drops none used later than one it keeps; a build that ends while its key is cached keeps that place |
| `SearchIndexCache.ServedWithinHalfHour` | packages/workspace-fs/src/search.ts:311-323 | a search is served from an index used within 1,800,000 ms, which then is the one used last; an older one is dropped |
| `SearchIndexCache.BuildsInFlight` | packages/workspace-fs/src/search.ts:325-347 | a batch takes the builds of its root, and no other, from those in flight iff a directory changed or there is no index to patch; a build that ends is taken from them |
| `SearchIndexCache.OverflowsLeftOut` | packages/workspace-fs/src/search.ts:723-760 | indexes are patched with all events of a batch but overflows, in order |
| `SearchIndexCache.SearchIndexes.PatchSearchIndexesForRoot` | packages/workspace-fs/src/search.ts:723-769 | a patch updates or drops the cached indexes and cancels builds as specified |
| `SearchIndexCache.SearchIndexes.PatchItems` | packages/workspace-fs/src/search.ts:750-760 | the loop over events is the fold of their patches over the items by path |
| `SearchIndexCache.SearchIndexes.Search` | packages/workspace-fs/src/search.ts:311-323 | a hit within half an hour is answered and moved to the end; an older one is dropped |
| `SearchIndexCache.SearchIndexes.EvictLruSearchIndexEntries` | packages/workspace-fs/src/search.ts:129-137 | eviction drops the least recently used until eleven are left |
| `SearchIndexCache.SearchIndexes.BuildFinished` | packages/workspace-fs/src/search.ts:330-339 | a finished build evicts, stores its items and is no longer in flight |
| `FuzzyScorer.DoScoreFuzzy` | packages/workspace-fs/src/fuzzy-scorer.ts:141-224 | the loops over the tables and the backtrace give the last cell of the recurrence and its positions |
| `FuzzyScorer.RowsRise` | packages/workspace-fs/src/fuzzy-scorer.ts:153-206 | scores never fall from left to right |
| `FuzzyScorer.PositionsMatch` | packages/workspace-fs/src/fuzzy-scorer.ts:208-223 | with a score above 0 the positions are one for each query character, rising, in range and matching; with 0 there are none |
| `FuzzyScorer.ScatteredMeaning` | packages/workspace-fs/src/fuzzy-scorer.ts:141-224 | where matches may be scattered the score is above 0 iff the query's characters occur in the target in order |
| `FuzzyScorer.ContiguousMeaning` | packages/workspace-fs/src/fuzzy-scorer.ts:193-205 | where they may not, iff the lower-case query occurs in the lower-case target |
| `FuzzyGains.ScoreIsEarned` | packages/workspace-fs/src/fuzzy-scorer.ts:226-307 | a score above 0 is the sum over the matched positions of what each earns: by itself, for equal case, for its place, and for the run of matches before it |
| `FuzzyGains.CellIsBest` | packages/workspace-fs/src/fuzzy-scorer.ts:153-206 | no cell of the tables could be higher by leaving its character out or by matching it |
| `FuzzyGains.OneCharacter` | packages/workspace-fs/src/fuzzy-scorer.ts:141-224 | a query of one character is matched at the last of the places where it earns most |
| `FuzzyGains.OneCharacterTable` | packages/workspace-fs/src/fuzzy-scorer.ts:226-307 | what that is: 9 at the start, 6 after a slash, 5 after another separator, 3 for a capital inside a word, 1 elsewhere, and one more for equal case |
| `FuzzyScoreBounds.RawScoresFitIff` | packages/workspace-fs/src/fuzzy-scorer.ts:226-307 | scores stay below the label threshold for all targets iff the query has at most 204 characters, and the bound is attained for every length |
| `FuzzyMatches.CreateMatches` | packages/workspace-fs/src/fuzzy-scorer.ts:539-556 | the ranges read off in order give back any list of positions, and none could be joined to the next |
| `FuzzyMatches.NormalizeMatches` | packages/workspace-fs/src/fuzzy-scorer.ts:558-586 | joining covers the same positions by rising ranges with gaps between them |
| `FuzzyMatches.SplitMatches` | packages/workspace-fs/src/fuzzy-scorer.ts:507-530 | ranges over description and label are divided at the boundary without losing or adding a position |
| `FuzzyItems.DoScoreItemFuzzySingle` | packages/workspace-fs/src/fuzzy-scorer.ts:453-537 | the score of the item's tier, with exactly the matched positions highlighted |
| `FuzzyItems.DoScoreItemFuzzyMultiple` | packages/workspace-fs/src/fuzzy-scorer.ts:412-451 | the sum over the pieces, or nothing when one does not match; what is highlighted is what any piece matches |
| `FuzzyItems.DoScoreItemFuzzy` | packages/workspace-fs/src/fuzzy-scorer.ts:369-410 | identity first, then several pieces or one, with what is highlighted; nothing when nothing matches |
| `FuzzyItems.MultipleNeedsAll` | packages/workspace-fs/src/fuzzy-scorer.ts:424-435 | an item matches a query of several pieces iff it matches each |
| `FuzzyItems.TiersApart` | packages/workspace-fs/src/fuzzy-scorer.ts:453-537 | each tier has its own band of scores for every item and every query of at most 204 characters |
| `FuzzyMeaning.ScoredIff` | packages/workspace-fs/src/fuzzy-scorer.ts:100-224 | a text scores above 0 iff the query is found in it, in order or, in quotes, as it stands, in either case |
| `FuzzyMeaning.TierOfFile` | packages/workspace-fs/src/fuzzy-scorer.ts:369-537 | the tier of every file for every typed query of one piece, in terms of its name and path: identity iff the query is its path, spaces and backslashes included; a name counts unless the query has a slash and the file a directory |
| `FuzzyMeaning.ScoreOfTier` | packages/workspace-fs/src/fuzzy-scorer.ts:453-537 | what a piece scores in each tier; a match at the start of a name adds its share of the name to the nearest percent |
| `FuzzyMeaning.MultipleIsSum` | packages/workspace-fs/src/fuzzy-scorer.ts:412-451 | the score of several pieces is the sum of the scores, provided that each is above 0 |
| `FuzzyQueries.PrepareQuery` | packages/workspace-fs/src/fuzzy-scorer.ts:825-900 | the loop over the parts between spaces keeps the pieces that are left of them, in order |
| `FuzzyQueries.PreparedText` | packages/workspace-fs/src/fuzzy-scorer.ts:885-900 | what is scored has no backslash, and a slash iff the query is taken for a path |
| `FuzzyQueries.WordsAreSearched` | packages/workspace-fs/src/fuzzy-scorer.ts:844-865 | words with one space between any two are searched for as these words in order, those in quotes as they stand |
| `FuzzyQueries.DroppedMakeNoDifference` | packages/workspace-fs/src/fuzzy-scorer.ts:882-900 | stars, ellipses, double quotes and white space make no difference, wherever they stand |
| `FuzzyQueries.HashAtEnd` | packages/workspace-fs/src/fuzzy-scorer.ts:882-900 | one hash at the end makes none either, unless it is all there is |
| `FuzzySearch.ScorerCache.ScoreItemFuzzy` | packages/workspace-fs/src/fuzzy-scorer.ts:333-367 | an item gets the own score of the first item looked up that has its text of name and description |
| `FuzzySearch.ScorerCache.Search` | packages/workspace-fs/src/search.ts:809-829 | the loop of a search lists the items that get a score above 0, with it, in the order of the index |
| `FuzzySearch.ScorerCache.CompareItemsByFuzzyScore` | packages/workspace-fs/src/fuzzy-scorer.ts:594-658 | the comparison goes by the scores that the search before it gave, and leaves them as they are |
| `FuzzySearch.OwnScoresIff` | packages/workspace-fs/src/fuzzy-scorer.ts:333-367 | for every list of items and every query, each item gets its own score iff items with the same text of name and description score the same |
| `FuzzySearch.BetterTierSortsFirst` | packages/workspace-fs/src/fuzzy-scorer.ts:594-658 | whatever the items, of two whose text no other item of the search has, the one in the better tier scores higher and sorts first, for queries of one piece and at most 204 characters |
| `FuzzyClashes.ToldApart` | packages/workspace-fs/src/fuzzy-scorer.ts:333-367 | two files that make the same text are told apart by a query, the start of the longer name: it matches one by its name and the other not, and their own scores differ |
| `FuzzyClashes.AlwaysOwnIff` | packages/workspace-fs/src/fuzzy-scorer.ts:333-367 | every file of a search gets its own score for every query iff no two of the files make the same text of name and directory |
| `FuzzyClashes.AlwaysRankedIff` | packages/workspace-fs/src/search.ts:809-842 | on the same condition exactly, of any two files of the search the one in the better tier scores higher for every query of at most 205 characters |
| `FuzzyClashes.SameTextSameScore` | packages/workspace-fs/src/search.ts:809-829 | `c/ab` and `bc/a` searched for `ab`, which matches only the first: neither is listed or both are, by the order of the index |
| `FuzzyRanking.RankingRightIff` | packages/workspace-fs/src/fuzzy-scorer.ts:594-658 | of any two files of a search whose text no other file has, the one in the better tier scores higher, for all queries of one piece and n characters, iff n is at most 205 |
| `FuzzyRanking.RightOrder` | packages/workspace-fs/src/fuzzy-scorer.ts:453-658 | up to 205 characters it sorts before the other, whatever the tie-breaking rules say |
| `FuzzyRanking.LongQueriesOverlap` | packages/workspace-fs/src/fuzzy-scorer.ts:329-331 | from 205 characters on the description of a file can reach the label threshold |
| `FuzzyRanking.LongQueriesMisrank` | packages/workspace-fs/src/fuzzy-scorer.ts:594-658 | from 206 on such a file is ranked before one that matches by its name |
| `FuzzyRanking.ShortNamesMisrank` | packages/workspace-fs/src/fuzzy-scorer.ts:594-658 | for 212 characters with names of at most 255 |
| `PortOrder.CompareIsTotalOrder` | packages/port-scanner/src/port-manager.ts:67-75 | the comparison is a strict total order |
| `PortOrder.AddressOrder` | packages/port-scanner/src/port-manager.ts:41-65 | loopback before the wildcard before other addresses, version 4 before version 6, in either case of letters |
| `PortOrder.LeastIsPreferred` | packages/port-scanner/src/port-manager.ts:67-75 | the least info has the smallest process number, then the first name, then the preferred address |
| `PortOrder.DedupePortInfosByPort` | packages/port-scanner/src/port-manager.ts:77-88 | exactly the least info of every port number, by rising port |
| `PortOrder.ScanOrderIrrelevant` | packages/port-scanner/src/port-manager.ts:77-88 | the result does not depend on the order or repetition of infos |
| `PortOrder.KeysTellApart` | packages/port-scanner/src/port-manager.ts:463-465 | keys differ whenever terminal or port do, also for terminal names with colons and digits |
| `PortManager.PresentAsLastAdded` | packages/port-scanner/src/port-manager.ts:403-480 | in any sequence of events that replays, a port that is there was last added as it is, so a removal carries what was last added |
| `PortManager.RefreshedIsUnique` | packages/port-scanner/src/port-manager.ts:403-461 | the infos of a scan alone decide a terminal's ports |
| `PortManager.PortManager.UpdatePortsForTerminal` | packages/port-scanner/src/port-manager.ts:403-461 | one record for the least info of every port that is not ignored, older records keeping their detection; other terminals are untouched; the events replay to the map |
| `PortManager.PortManager.RemovePortsForTerminal` | packages/port-scanner/src/port-manager.ts:467-480 | nothing of the terminal is left, everything else is, and the events replay to the map |
| `PortManager.PortManager.UnregisterSession` | packages/port-scanner/src/port-manager.ts:151-155 | the session and its ports are gone |
| `PortManager.PortManager.CleanupUnregisteredPorts` | packages/port-scanner/src/port-manager.ts:357-364 | only ports of registered terminals are left |
| `PortManager.PortManager.FinishScan` | packages/port-scanner/src/port-manager.ts:338-389 | what a finished scan leaves of every terminal: nothing of an unregistered one or an empty tree, the least infos of a tree's processes, the rest as it was; the events replay to the map |
| `PortManager.ScanKeepsWorkspaceIff` | packages/port-scanner/src/port-manager.ts:419-449 | a port has the workspace its terminal is in now iff it is new or had that workspace before; it keeps the time of its detection |
| `PortManager.KillRefusedIff` | packages/port-scanner/src/port-manager.ts:502-541 | after a scan the terminal's workspace is refused a port of its terminal iff an earlier scan had found it in another workspace |
| `PortManager.RefreshedShowsInfos` | packages/port-scanner/src/port-manager.ts:419-449 | after an update every record shows port, process, name and address of the least info of its port, whether or not the port was there before |
| `PortManager.KillReachesProcess` | packages/port-scanner/src/port-manager.ts:502-541 | so after a scan the record's workspace reaches the present process of the port and no earlier one, unless that is the shell |
| `PortManager.MoveTerminal` | packages/port-scanner/src/port-manager.ts:139-149 | a terminal that is scanned, moved to another workspace and scanned again leaves its port with the first |
| `PortManager.PortManager.KillPort` | packages/port-scanner/src/port-manager.ts:502-541 | what a request to kill a port is answered; the terminal's own shell is never killed |
| `PortManager.BuildPidOwnerMap` | packages/port-scanner/src/port-manager.ts:290-307 | a process belongs to the first tree that has it |
| `PortManager.FirstOwner` | packages/port-scanner/src/port-manager.ts:290-307 | the owner of a process is the first tree that has it, and there is none iff no tree has it |
| `PortManager.BuildPortsByTerminal` | packages/port-scanner/src/port-manager.ts:309-336 | every terminal gets exactly the listening ports of its own processes |
| `UriEncoding.EncodedReadsBack` | packages/workspace-fs/src/resource-uri.ts:78-108 | percent-encoding of UTF-8 (section 2.1 of RFC 3986) decodes to what was encoded |
| `UriEncoding.EncodedPlainIff` | packages/workspace-fs/src/resource-uri.ts:78-82 | encoding changes a string iff it has a character to escape, and then lengthens it |
| `UriEncoding.EncodedForm` | packages/workspace-fs/src/resource-uri.ts:78-82 | the characters kept are the 71 of `encodeURIComponent`; everything else becomes percent signs with two upper-case hexadecimal digits each |
| `ResourceUri.NormalizeResourceAbsolutePath` | packages/workspace-fs/src/resource-uri.ts:10-70 | the loop over segments is the normalization |
| `ResourceUri.GoingBack` | packages/workspace-fs/src/resource-uri.ts:39-54 | a proper segment followed by `..` goes away with it, wherever they stand |
| `ResourceUri.StandingStill` | packages/workspace-fs/src/resource-uri.ts:39-54 | empty segments and `.` go away |
| `ResourceUri.NothingToGoBackFrom` | packages/workspace-fs/src/resource-uri.ts:39-54 | a `..` that nothing stands before stays in front of what the rest comes to |
| `ResourceUri.OtherSpellings` | packages/workspace-fs/src/resource-uri.ts:10-37 | a drive is the same in either case, after a slash or not, and a backslash is a slash |
| `ResourceUri.ParsePrinted` | packages/workspace-fs/src/resource-uri.ts:72-114 | what the parser makes of a printed URI, for every identifier and path |
| `ResourceUri.RoundTripIff` | packages/workspace-fs/src/resource-uri.ts:72-114 | the round trip is exact iff the identifier is not empty and the path is absolute and in normal form |
| `ResourceUri.FixedIff` | packages/workspace-fs/src/resource-uri.ts:10-70 | normalization leaves a path alone iff it is in normal form: no backslash, a lower-case drive with its slash, no segment that looks like a drive after a slash, no empty or dot segments, and `..` only in front |
| `ResourceUri.IdempotentIff` | packages/workspace-fs/src/resource-uri.ts:10-70 | normalizing twice is normalizing once iff the first segment, as normalization finds it, does not become a drive; a third time never makes a difference |
| `ResourceUri.NormalizationIsNotIdempotent` | packages/workspace-fs/src/resource-uri.ts:19-37 | an input where it does: a segment in the middle becomes a drive |
| `PromptQuoting.ResolveDelimiter` | packages/shared/src/agent-prompt-launch.ts:22-28 | the search ends with the shortest extension that does not occur in the prompt |
| `PromptQuoting.DelimiterOfUuid` | packages/shared/src/agent-prompt-launch.ts:22-28 | the first delimiter for a UUID of five groups is `SUPERSET_PROMPT_` and the groups without their dashes |
| `PromptQuoting.HereDocumentReadsBack` | packages/shared/src/agent-prompt-launch.ts:74-80 | a here-document reader (section 2.7.4 of the POSIX Shell Command Language) gets exactly the prompt and a newline |
| `PromptQuoting.PosixDelivers` | packages/shared/src/agent-prompt-launch.ts:74-80 | what a POSIX shell hands over: the prompt and a newline on standard input; as an argument the prompt iff it does not end in a newline |
| `PromptQuoting.ShellReadsBack` | packages/shared/src/agent-prompt-launch.ts:30-32 | a quoted value is read back as given (section 2.2.2 of the POSIX Shell Command Language), whatever it is |
| `PromptQuoting.PowerShellReadsBackIff` | packages/shared/src/agent-prompt-launch.ts:34-43 | a verbatim string is read back as given iff it has no typographic single quote |
| `PromptQuoting.PowerShellDeliversIff` | packages/shared/src/agent-prompt-launch.ts:66-72 | in the command for either transport PowerShell reads the literal back as the prompt iff it has no typographic single quote |
| `PromptQuoting.BuildPromptCommandString` | packages/shared/src/agent-prompt-launch.ts:49-81 | the command is the one for the shell, with a delimiter that does not occur in the prompt |
| `PromptQuoting.PosixFilePath` | packages/shared/src/agent-prompt-launch.ts:106-112 | the path in a command for a file is read back as given |
| `PromptQuoting.PowerShellFilePathIff` | packages/shared/src/agent-prompt-launch.ts:98-103 | by PowerShell iff it has no typographic single quote |

## Left out

- Real I/O, processes, sockets, signals, timers and the file system: what they answer is a parameter.
- The xterm emulator (a log of the text written to it), the conversion of bytes to text (a parameter), JSON messages and fast-glob (a rebuild is all files that should be indexed).
- Exit and disposal of a session, and the reset that drops its queue and resolves all waiters: the session theorems are about runs from spawn to exit. Resizing, clearing the scrollback and the flush waiters, which nothing registers, are not part of the session's state.
- EmulatorQueue.TurnKeeps: the clock is a number of passes, and waiters are identified by attach tokens instead of waiter numbers.
- PtyInputQueue.InputIsDelivered: without a file descriptor the head is written synchronously and whole; that this write decodes the bytes to text is not modelled. After a PTY has exited nothing is said about input that still waits, because the subprocess ends. Runs with a hard error are covered by the theorems about it.
- ThrottledWorker.Delivery: a handler that offers work to its own worker is not modelled.
- SpawnSemaphore.Permits: the abort of a signal and the handler of its waiter are one step. The map of sessions is not part of the model, and with it the uniqueness of a session under concurrent requests.
- FuzzyScorer.DoScoreFuzzy: lower-casing keeps the length of a string. A string is a sequence of characters, so a position is a character and not a UTF-16 unit; the same holds for globs, paths and URIs. The tables are sequences that grow at the end.
- FuzzyItems.DoScoreItemFuzzySingle: `Math.round` is exact arithmetic, where floating point may round a tie the other way; the bands are not affected. What the comparison goes by among equal scores, the sort itself and the limit of results are left out.
- FuzzyRanking.RankingRightIff: lower-casing neither changes nor makes a character that separates words, as `toLowerCase` does not. Queries of several pieces, whose scores are sums, are left out.
- FuzzyClashes.AlwaysOwnIff: about files with names of at most 204 characters without white space, quotes, `*`, `#` or an ellipsis, so that a query can be typed that tells two of them apart; `OwnScoresIff` is about all items.
- FuzzyMatches.NormalizeMatches: ranges are values, so that joining writes into the range objects of the caller is not captured. The library's stable sort is an insertion sort.
- WatchCoalescing.CoalescedIsNet: only whether a path exists is tracked, not what a file holds.
- WatchRenames.PairRenameCandidates: paths are normalized absolute POSIX paths, as the watcher passes them. The order of the pairs is not stated; nothing depends on it.
- SearchIndexRefinement.BatchRefinesRebuild: about events of files below the root whose paths there have no backslash; `DeletedFileGoneIff` is about the others. What `stat` answers and which paths are known to be directories is given; that an unknown deleted directory is taken for a file, the bounded memory of file paths and symbolic links are left out.
- SearchIndexRuns.RunKeepsIndexesRight: an event is pending as soon as its change has happened. A walk comes by one path after the other and knows nothing else of the files. A batch with directories is flushed when nothing else is outstanding, and any files may be there afterwards; flushes of directories that overlap others are left out.
- GlobPatterns.CompiledMeaning: patterns where `**` is part of a segment compile, but have no segment-wise meaning. Splitting lists of patterns at commas is left out, as are content search and ripgrep.
- PortManager.PortManager.FinishScan: scheduling, hints, aborts and the killing of a process itself are left out. Addresses are lower-cased by the ASCII letters. The locale's order is given as an injective collation, so strings that differ never compare equal.
- PortManager.PortManager.RemoveEach: the order of the remaining entries is not stated, and neither is the list that clients read, which is sorted by time.
- ResourceUri.RoundTripIff: strings of Unicode scalar values; that encoding throws for a lone surrogate is left out.
- PromptQuoting.PosixDelivers: the identifier of the delimiter has no newline and no single quote, as a random UUID. NUL bytes, which shells drop, are left out.
- PromptQuoting.PowerShellDeliversIff: how PowerShell reads the literal; the line end that a pipeline adds on standard input is left out.
- Terminal history, file streams, the limiter of process scans, settings storage and the renderer: easy, or without a property that holds.
