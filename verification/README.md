# A verified model of the FUSE video streamer's stream cache

The repository serves video files over FUSE.  A `Stream` answers random-access reads of a remote file from a
bounded window that slides along the file; a background `Transfer` copies an HTTP body into that window chunk by
chunk, and a read outside the window tears the transfer down, moves the window and starts another.  Nodes,
handles and services own the streams, and a registry closes everything at shutdown.

This project models that code and proves what it promises about every input, every interleaving and every run.

## How it is laid out

The concurrent half works on step relations with explicit program counters, one atomic action a step:

- `TransferProtocol`, `TransferRuns`, `TransferWitnesses`: one transfer as three processes (`start`, `copyData`,
  the winning `Close`).  `StartStep`, `CopyStep` and `CloseStep` are stream/transfer/main.go:64-91, 93-125 and
  127-144.
- `StreamSystem`, `StreamInvariant`, `StreamReturns`, `StreamRuns`: a whole stream and its invariants.
  `ReaderStep` is ReadAt with newTransfer and the transfer's Close inside it (stream/main.go:104-138, 172-201),
  `CloserStep` is Close, which takes no mutex (stream/main.go:140-166), and every transfer the stream ever started
  goes on taking its own steps, also after the stream has dropped it.
- `StreamHandover`, `StreamStale`, `StreamLanding`, `StreamMarks`: what superseded transfers can still write.
  `StreamCrashes`, `StreamClosing`: nil dereferences, and what Close leaves open.  `StreamProgress`: whether a
  wait can end.  `StreamReads`: the stages every ReadAt goes through, and that it can be answered.  `StreamSteps`,
  `StreamWitnesses`, `StreamCrashRuns`: concrete runs.

The sequential half keeps the source's classes, fields and loops: `Connections`, `Transfers`, `Streams`,
`Factories`, `Streamables`, `FileNodes`, `Tree`, `Shutdown`.  There each call is one action.  `Serving` and
`TreeRuns` drive those classes through arbitrary runs of requests; their dispatch stands for the FUSE library.

`Placement`, `UrlCache` and `Listing` hold the specifications that the classes are proved against, with what is
proved about them.

## What is assumed

- The ring buffer is an external library that is not part of this model.  `WindowContract` states its contract
  once, read off its use sites (stream/main.go:118, 127, 131, 137, 196 and stream/transfer/main.go:90, 108): a
  position is offered only when its byte is held, or when the end marker is in and the position is at most the
  high end; a read hands out held bytes or none; a write appends in order, and a short write is an error.  A read
  without an error hands out a byte, if one was asked for, and the end of the file is answered only at the high end
  of a window that has its end marker.  The class `RingBuffers.RingBuffer` only shows that the contract can be met.
- What the outside answers is recorded in ghost fields (the buffer's calls and refusals, a body's errors, a
  connection's responses) or given as an input (whether there is a logger, what the file server replies), so that
  each method is held to having asked and to having heeded the answer.
- A write gives up no byte: with no room it waits or fails, and only reads and resets give bytes up.  The copy
  loop (stream/transfer/main.go:97-113) has no flow control of its own, so a buffer that made room by dropping
  unread bytes would let it run past the position that a read is waiting for.
- A server that gets `bytes=N-` (section 14.1.2 of RFC 9110, in the `Range` field of section 14.2) sends the
  representation from byte N on.  stream/connection/main.go:96-97 accepts status 200 like 206, so for 200 this is
  a true assumption.  A connection's body is therefore `BodyFrom(remote, start)`.
- A body's reader returns bytes or an error on every call, which the termination of the copy loop needs; the
  step relations do not assume it.
- `JustSought` and `FaultFree` in `StreamProgress` say that the size the stream was told is the file's, and that
  neither reads nor writes fail, since any failure can end a wait.
- The clock of the URL cache does not run backwards, and one call is made at a time.

Agreement with the remote file over interleavings is proved for runs without a stale chunk (`NoStaleChunk`), and
`CleanRunsAgree` replaces that condition on whole runs by one on the states in which the window is reset.

## What is false of the code

Each of these has a concrete run, and the exact condition under which it happens.

- `Transfer.Close` waits for `start`, not for `copyData` (stream/transfer/main.go:141).  A chunk of the old transfer
  can land in the window of its successor, and a reader gets wrong bytes: `StaleChunkReachesReader`.  It can happen
  after a reset exactly if the superseded `copyData` is then inside a read with body left or holds a chunk:
  `StaleChunkAheadIff`.  If no reset finds a transfer so, every read agrees with the file: `CleanRunsAgree`.  What
  one such chunk does for as long as its window stands: `StaleChunkLastsIff`; what any number of them do:
  `MirrorsIffChunksLandRight`.
- `wg.Add` stands inside `start` (stream/transfer/main.go:65), so a Close can return before `start` has begun, and
  its end marker comes late: `LateMarkReachable`, and exactly then: `LateMarkIffNotBegun`.  It can land in the
  successor's window (`StaleMarkAheadIff`), which then seems to have reached the end of the file
  (`LateMarkEndsSuccessor`).  Without that an end marker means what it should: `EndedMeansComplete`.
- `copyData` loads `transfer.connection` anew on every turn (stream/transfer/main.go:105) while `start` sets it
  to nil on cancellation (stream/transfer/main.go:76), and `Stream.Close`, which takes no mutex, nils
  `stream.buffer` (stream/main.go:153) under a ReadAt.  `CrashIffFell` says which of these drops crash: those that
  fall on a `copyData` about to load the connection, or on a ReadAt at one of eleven of its sixteen points; a drop
  at any other point is noticed by a test.  A ReadAt under which the buffer fell never returns
  (`FallenReadNeverReturns`).  The dereference can be `copyData`'s of the connection (`NilLoadReachable`, exactly
  `NilLoadIffDroppedUnderReader`), ReadAt's of the buffer (`CloseUnderReaderCrashes`), Close's of the transfer
  (`CloseCrashesOnNilTransfer`), or that of a transfer started with a nil buffer (`StartCrashesOnNilBuffer`,
  `CopyCrashesOnNilBuffer`).
- A Close that looks at `stream.transfer` (stream/main.go:156) between ReadAt's reset and its start of a transfer
  returns with the new connection open for good: `ConnectionLeftOpen`.  Exactly what a returned Close leaves open:
  `OpenAfterCloseIff`.
- ReadAt waits for the position after the request (stream/main.go:125-131).  For a request of exactly the
  capacity less the look-behind the window covers every byte asked for, yet for files over 64 MiB the producer can
  never make that position available, so that only the timeout, a failure, a Close or a late end marker ends the wait:
  `WaitDeadlocksAtGuaranteedLength`.  Exactly which requests can come to wait in vain: `DeadlocksIff`.
- The URL cache has no key.  Exactly when a call gets its own node's URL: `OwnUrlIff`, `OwnUrlIffSameNode`; with two
  nodes, exactly after the 15 minutes: `SharedFactoryMixesNodes`.  One factory per node makes it right:
  `OneNodeGetsItsOwnUrl`.
- `FileSystem.Root` (filesystem/server/provider/fuse/filesystem/main.go:37-39) dereferences nil exactly when the
  file system is closed: `Shutdown.FileSystem.Root`.
- `Create` dereferences nil exactly when the lookup of the new file answers neither a node nor an error:
  `Tree.DirectoryNode.Create`.

## Model

| member | source | states |
|---|---|---|
| StreamRuns.ReadsAgreeWithRemote | stream/main.go:104-138 | On every interleaving without a stale chunk, each byte the window holds is the remote file's byte at that position, the window's base is the current connection's start, and every read that returned bytes returned the file's bytes at its offset |
| StreamRuns.HistoryIndependence | stream/main.go:104-138 | After any two histories, two answers to the same request agree: one is a prefix of the other |
| StreamRuns.AgreementOverRun | stream/main.go:104-201 | The invariant behind both: the window holds what its owning transfer has written, from that transfer's start on |
| StreamStale.StaleChunkAheadIff | stream/transfer/main.go:97-144 | When the window is about to be reset, a transfer present can in some continuation put bytes into a window not its own if and only if its copyData is then inside a read with body left or holds a chunk, and the buffer takes bytes |
| StreamStale.CleanRunsAgree | stream/main.go:181-196 | A run in which no reset finds a transfer in that state has no stale chunk, and every read in it agrees with the remote file |
| StreamStale.QuietForGood | stream/transfer/main.go:97-124 | A transfer whose Close has returned and that is not in that state writes no chunk ever again |
| StreamLanding.MirrorsIffChunksLandRight | stream/transfer/main.go:107-113 | Between two resets, whoever writes, the window mirrors the file if and only if every chunk so far landed where the file has its bytes |
| StreamLanding.StaleChunkLastsIff | stream/transfer/main.go:107-113 | After a stale chunk on top of d bytes of the owner, with m bytes written by the owner by now, the window mirrors the file if and only if the stale bytes followed by the owner's body from d to m are the file's bytes where the chunk landed |
| StreamLanding.BrokenStaysBroken | stream/main.go:189-196 | A window that has stopped mirroring the file does not mirror it again before the next reset |
| StreamWitnesses.StaleChunkReachesReader | stream/transfer/main.go:127-144 | A run in which a reader is handed bytes that are not the file's |
| StreamRuns.AtMostOneOpenConnection | stream/main.go:181-198 | In every reachable state, whatever the schedule, at most one connection is open; while the stream has its buffer, the current transfer holds it |
| StreamInvariant.SystemStepKeepsInv | stream/main.go:104-201 | Every step of reader, closer or goroutine keeps the system invariant: windows valid, transfers well formed, fields consistent, at most one connection open |
| StreamHandover.AtMostOneLateWriteIntoStream | stream/transfer/main.go:127-144 | With no assumption on the schedule, once a transfer's Close has returned that transfer writes to the stream's buffer at most once more, whatever all others do |
| StreamCrashes.CrashIffFell | stream/main.go:104-166 | A run can go on to a nil dereference with no further drop of a field if and only if in it stream.buffer was nilled while ReadAt stood between a test and an untested use of it, or transfer.connection while copyData was about to load it |
| StreamCrashes.CaughtIffFell | stream/main.go:104-166 | In every reachable state such a process stands before a nil field if and only if such a drop has happened |
| StreamCrashes.NoFallNoCrash | stream/main.go:104-166 | A run without such a drop has not crashed, whoever overlaps whom |
| StreamCrashes.FallenReadNeverReturns | stream/main.go:118-137 | A ReadAt under which the buffer was nilled never returns an answer |
| StreamClosing.OpenAfterCloseIff | stream/main.go:156-163 | After a Close whose buffer closed, a connection is open if and only if ReadAt started a transfer only then, or is itself just about to close one |
| StreamClosing.GivesUpIffRefused | stream/main.go:147-154 | Over every run Close gives up early if and only if the buffer refused to close |
| StreamClosing.CloserGoesOn | stream/main.go:140-166 | Whatever the buffer answers Close goes on, unless it waits for a start |
| StreamReturns.ReturnsOverRun | stream/main.go:181-198 | In every reachable state all earlier transfers' Closes have returned, and before a reset the last one's too; a transfer without a buffer, and an open connection, can be only in the states named |
| StreamMarks.StaleMarkAheadIff | stream/transfer/main.go:64-90 | When the window is about to be reset, a transfer present can in some continuation put its end marker into a window not its own if and only if it has not written it yet |
| StreamMarks.EndedMeansComplete | stream/transfer/main.go:68-90 | Without stale writes an end marker means that the window has the file from its base to the end, unless its transfer was closed or a read or write of it failed |
| StreamCrashRuns.CloseUnderReaderCrashes | stream/main.go:140-154 | For every file and every read a run in which Close makes ReadAt dereference nil |
| StreamCrashRuns.CloseCrashesOnNilTransfer | stream/main.go:156-157 | For every file and any two reads a run in which Close itself dereferences a nil transfer |
| StreamCrashRuns.StartCrashesOnNilBuffer | stream/transfer/main.go:90 | For every file and read a run in which start, of a transfer given a nil buffer, dereferences it |
| StreamCrashRuns.CopyCrashesOnNilBuffer | stream/transfer/main.go:107-108 | The same for copyData, whenever the body has a byte |
| StreamCrashRuns.ConnectionLeftOpen | stream/main.go:140-198 | For every file and read a run in which Close has returned and a connection stays open |
| StreamCrashRuns.LateMarkEndsSuccessor | stream/transfer/main.go:64-90 | For every file and any two reads a run in which the old end marker ends the new window before its transfer has begun |
| StreamClosing.OrderlyRunsAreSafe | stream/main.go:104-166 | If ReadAt and Close do not overlap and no connection is nilled under its reader, nothing crashes, and after a Close whose buffer closed no connection the stream ever created is open |
| StreamProgress.SeekLeavesJustSought | stream/main.go:186-198 | The last two actions of newTransfer leave an empty window placed for the request and a transfer not yet begun |
| StreamProgress.FillTo | stream/transfer/main.go:97-113 | The producer alone can bring any amount that the body has and the window takes into the window, giving up no byte |
| StreamProgress.FinishBody | stream/transfer/main.go:68-90 | With room for the whole body the producer alone reaches the end marker, the whole body in the window |
| StreamProgress.SeekWaitEndsIff | stream/main.go:125-135 | Right after a seek, with nothing consumed meanwhile, the producer can make the awaited position available if and only if the window reaches past it or the file ends inside the window |
| StreamProgress.WaitFitsWhen | stream/main.go:125-131 | That holds for every request shorter than capacity less look-behind, and for every request of a file no longer than the window |
| StreamWitnesses.DeadlocksIff | stream/main.go:118-135 | Some run brings a read, just after its seek, to wait for what its producer can never bring if and only if the window stops short of the awaited position and the file goes on past the window |
| StreamWitnesses.WaitDeadlocksAtGuaranteedLength | stream/main.go:125-131 | For every file over 64 MiB a run brings a read of exactly that length to a wait that its producer can never satisfy |
| StreamReads.StageEntered | stream/main.go:104-137 | Over every run: a read goes on only in an open stream; it seeks only if told that the window has not the seek position, and keeps its transfer only if the window has it; it waits only if told that the window has not the end of the request; it reads the buffer only once the window has had that, or the stream was closed during the wait |
| StreamReads.ReadEnds | stream/main.go:108-137 | A read comes back, with exactly one answer, only if the stream was closed or its buffer gone, the wait timed out, or with what the buffer answered |
| StreamReads.ReaderGoesOn | stream/main.go:104-201 | Whatever it is answered a read goes on, unless it waits for the old start |
| StreamReads.FittingReadCanBeAnswered | stream/main.go:104-138 | Every read that fits in its window is in some run answered with all the bytes it asked for, after a seek and a wait |
| StreamReads.KeptReadCanBeAnswered | stream/main.go:104-138 | Made again it can be answered the same without a new transfer |
| TransferProtocol.StepKeepsInv | stream/transfer/main.go:64-144 | Every step keeps the control invariant (wait group, channel, flags) and that nothing read is lost, repeated or reordered on its way into the buffer |
| TransferProtocol.CopyStepKeepsData | stream/transfer/main.go:105-123 | Bytes delivered together with an error are written before the error is acted on, and what has been written is what has been read |
| TransferRuns.InvOverRun | stream/transfer/main.go:64-144 | That invariant in every state of every run |
| TransferRuns.AtMostOneLateWrite | stream/transfer/main.go:127-144 | After the winning Close has returned the transfer makes at most one more buffer write: a chunk or the end marker, never both |
| TransferWitnesses.LateChunkReachable | stream/transfer/main.go:105-113 | For every non-empty body a run that writes a chunk after Close has returned |
| TransferRuns.LateMarkIffNotBegun | stream/transfer/main.go:64-90 | The end marker comes after Close has returned if and only if start had not begun when the wait found the counter at zero, and has since reached its marker |
| TransferWitnesses.LateMarkReachable | stream/transfer/main.go:64-90 | For every body a run that writes the end marker after Close has returned |
| TransferRuns.AtMostOneMoreTurn | stream/transfer/main.go:97-113 | Once cancelled, copyData makes at most one more read and one more write, although a closed connection answers (0, nil) for ever |
| TransferRuns.CopyNeverBlocks | stream/transfer/main.go:97-124 | copyData always has a next action; its send never finds the channel full |
| TransferRuns.ReadIsWrittenThenJudged | stream/transfer/main.go:105-123 | Whatever a read comes to, its bytes can go to the buffer first, and then its error, or the write's, is acted on as it calls for |
| TransferRuns.JudgedNoOtherWay | stream/transfer/main.go:105-123 | And in no other way |
| TransferRuns.StartGoesOn | stream/transfer/main.go:64-91 | start goes on as soon as its context is cancelled or a result is there, and may take either |
| TransferRuns.CompletesOnce | stream/transfer/main.go:68-124 | At most one result and one end marker in any run; exactly one result once copyData has returned, exactly one marker once start has; a nil result means the whole body was written |
| TransferRuns.MarkerIsLast | stream/transfer/main.go:78-90 | If start left through the result branch, its marker is the transfer's last write |
| TransferRuns.NilLoadIffDroppedUnderReader | stream/transfer/main.go:73-105 | The connection that copyData is about to load is nil if and only if it was dropped on this very turn of the loop |
| TransferWitnesses.NilLoadReachable | stream/transfer/main.go:73-105 | For every body a run in which copyData dereferences nil |
| Placement.WindowCoversRequest | stream/main.go:186-191 | The new window covers the seek position, and the whole request when it is no longer than capacity less look-behind or the file fits in the window |
| Placement.GuaranteedLengthIsTight | stream/main.go:46-62 | For files over 64 MiB every seek's window covers a request of some length if and only if that length is at most 48 MiB |
| Placement.WindowIsAsLargeAsAllowed | stream/main.go:46-62 | The window is as large as the file and 64 MiB allow and starts as far before the seek position as half of that, 16 MiB and byte 0 allow |
| Placement.WaitsForItsEnd | stream/main.go:125 | A read waits for the end of its request or of the file, whichever comes first |
| WindowContract.ReadOfMirror | stream/main.go:137 | A read of a window that mirrors the file yields the file's bytes |
| Connections.Connection.NewConnection | stream/connection/main.go:30-45 | An error exactly for negative positions; otherwise an open connection at that position |
| Connections.Connection.Read | stream/connection/main.go:47-104 | The body's next bytes in order, with the body's own error; the end only at the body's end; a closed connection answers (0, nil) and issues no request, an open one issues one only while it has no body, and fails exactly if none comes back |
| Connections.Connection.Close | stream/connection/main.go:106-123 | Closed and cancelled afterwards; the body is asked to close, and dropped exactly if it does, which decides the answer; later calls change nothing |
| Transfers.Transfer.CopyTurn | stream/transfer/main.go:105-123 | One turn keeps the buffer equal to what was read; it ends the loop exactly on a failed write or, after the write, on the read's error, with the result that calls for; the window only grows |
| Transfers.Transfer.CopyData | stream/transfer/main.go:93-125 | Under any schedule of a Close the loop ends with one result, the one that what happened last calls for; what it wrote is what it read, and the whole body when the result is nil |
| Transfers.Transfer.FinishStart | stream/transfer/main.go:71-90 | After the select the end marker is written, once; the cancellation branch has closed and dropped the connection |
| Transfers.Transfer.Close | stream/transfer/main.go:127-144 | Afterwards the transfer and its connection are closed, and no byte of the window has changed |
| Streams.PrefixOfBodyIsSlice | stream/connection/main.go:72-73 | A prefix of what a ranged request yields is the remote file's bytes from its start on |
| Streams.Stream.constructor | stream/main.go:76-98 | A new stream has an empty window of its buffer size at 0, and no connection |
| Streams.Stream.ReadAt | stream/main.go:104-138 | The bytes returned are the remote file's at the offset asked for and what the buffer answered; the buffer is asked exactly what the code asks, a reset exactly when the seek position is not available and a wait exactly when the requested one is not; the window keeps its place and transfer, and then has the seek position, or is placed for this seek with one new connection; a closed stream answers an error |
| Streams.Stream.Prepare | stream/main.go:118-135 | The same up to the last line: success exactly when the requested position was available, at once or after the wait |
| Streams.Stream.Seek | stream/main.go:118-123 | The transfer is kept exactly when the buffer said it has the seek position; otherwise there is a new one |
| Streams.Stream.Await | stream/main.go:125-135 | Waits exactly when the buffer said it has not the requested position, and succeeds exactly when it came to have it |
| Streams.Stream.NewTransfer | stream/main.go:172-201 | The old connection is closed, the window is emptied and placed, the new connection starts at the window's base; NewConnection's error is unreachable |
| Streams.Stream.Close | stream/main.go:140-166 | Closed for good; it fails exactly when the buffer refuses to close; otherwise buffer and transfer are dropped and every connection ever created is closed |
| UrlCache.UrlIsFresh | stream/factory/main.go:44-62 | Every URL returned was fetched by that call or by an earlier one less than 15 minutes before |
| UrlCache.OneNodeGetsItsOwnUrl | filesystem/server/provider/fuse/filesystem/streamable/handle/service/factory/main.go:18-24 | A factory that serves one node hands out only URLs the file server returned for that node |
| UrlCache.OwnUrlIff | stream/factory/main.go:44-62 | Whatever nodes share a factory and however often, a call gets a URL answered for its own node if and only if it fetched, or the last call that fetched got a URL answered for that node too |
| UrlCache.OwnUrlIffSameNode | stream/factory/main.go:44-62 | Where no two nodes have the same URL: if and only if it fetched or the last call that fetched was for the same node |
| UrlCache.SharedFactoryMixesNodes | stream/factory/main.go:44-62 | With two nodes and two calls: if and only if the first one's entry has expired |
| UrlCache.FetchRate | stream/factory/main.go:44-62 | In any span at most one fetch of a URL, plus one for every full 15 minutes |
| Factories.Factory.GetStreamUrl | stream/factory/main.go:44-62 | Returns what the cache specification says for the calls so far |
| Factories.Factory.NewStream | stream/factory/main.go:31-42 | An open stream of the file behind that URL; errors exactly when closed or without a URL |
| Streamables.Handle.Read | filesystem/server/provider/fuse/filesystem/streamable/handle/main.go:60-103 | Data are exactly what the stream read, the file's bytes at the offset, empty only for an empty request or at the marked end of the file; a failed read closes and drops the stream; a dead handle only answers ENOENT |
| Streamables.Handle.Close | filesystem/server/provider/fuse/filesystem/streamable/handle/main.go:105-121 | The handle is closed, and the first call closes the stream it holds |
| Streamables.HandleService.New | filesystem/server/provider/fuse/filesystem/streamable/handle/service/main.go:35-51 | A new open handle with a new open stream of the node's own URL and size; (nil, nil) exactly when closed, an error exactly without a logger or a URL |
| Streamables.HandleService.Close | filesystem/server/provider/fuse/filesystem/streamable/handle/service/main.go:53-62 | Closed, and the factory closed and nilled |
| Streamables.StreamableNode.Open | filesystem/server/provider/fuse/filesystem/streamable/node/main.go:83-101 | A closed node answers ENOENT; otherwise a new open handle is appended, exactly if there are a logger and a URL, never the (nil, nil) of a closed service; the node stays valid |
| Streamables.StreamableNode.Close | filesystem/server/provider/fuse/filesystem/streamable/node/main.go:103-115 | Keeps the node valid and its lists as they were, and closes it (ClosedNodeHasNothingOpen says what that means) |
| Serving.OpenStreamsAreOwnedOnce | filesystem/server/provider/fuse/filesystem/streamable/node/main.go:83-115 | Every open stream the service created is held by exactly one handle, which is open and in the node's list |
| Serving.ClosedNodeHasNothingOpen | filesystem/server/provider/fuse/filesystem/streamable/node/main.go:103-115 | A closed node's handles are not nil and are closed, their streams are closed, and unless the buffer refused so is every connection |
| Serving.UrlsAreTheNodesOwn | filesystem/server/provider/fuse/filesystem/streamable/handle/service/main.go:45 | Every URL a node's factory handed out was served for that node |
| Serving.Serve | filesystem/server/provider/fuse/filesystem/streamable/handle/main.go:60-121 | Any run of opens, reads, releases and closes keeps the node valid; after a failed read every read on that handle answers ENOENT; all data returned are the file's |
| Serving.ServeOne | filesystem/server/provider/fuse/filesystem/streamable/node/main.go:83-115 | Each request of such a run takes effect: a handle more, what the stream read, a handle closed, the node closed |
| FileNodes.FileNode.Open | filesystem/server/provider/fuse/filesystem/file/node/main.go:83-101 | A closed node answers ENOENT; otherwise a new open handle is appended, exactly if there is a logger; the nilled service is never used |
| FileNodes.FileNode.Close | filesystem/server/provider/fuse/filesystem/file/node/main.go:103-128 | Service closed and nilled, every handle ever opened closed |
| FileNodes.FileHandleService.New | filesystem/server/provider/fuse/filesystem/file/handle/service/main.go:28-39 | (nil, nil) exactly when closed, an error exactly without a logger, otherwise an open handle |
| Listing.ReadDirAll | filesystem/server/provider/fuse/filesystem/directory/handle/main.go:72-98 | The entries are those of the nodes with a known mode, none left out, in order, each with its name and with the type its mode calls for; they are exactly what Lookup accepts, with the type of the node Lookup would build |
| Listing.LookupJustifiesListing | filesystem/server/provider/fuse/filesystem/directory/node/main.go:121-150 | What Lookup accepts, listed in order, is such a listing of the whole directory |
| Listing.ListedIffFound | filesystem/server/provider/fuse/filesystem/directory/node/main.go:135-150 | A name of the directory is listed if and only if looking it up succeeds |
| Tree.DirectoryHandle.ReadDirAll | filesystem/server/provider/fuse/filesystem/directory/handle/main.go:55-99 | That listing, or an error exactly when closed or when the file server fails |
| Tree.DirectoryNode.Open | filesystem/server/provider/fuse/filesystem/directory/node/main.go:91-109 | A closed node answers ENOENT; otherwise a new open handle is appended, exactly if there is a logger |
| Tree.DirectoryNode.Lookup | filesystem/server/provider/fuse/filesystem/directory/node/main.go:111-151 | Every error case; a directory, a streamable file and any other file become a node of their own kind with the entry's identifier and size, new, unused and in the registry, exactly when the service for it is open and has what it needs |
| Tree.DirectoryNode.Create | filesystem/server/provider/fuse/filesystem/directory/node/main.go:198-237 | Succeeds exactly when the file server and the service allow it; then the node is new and in the registry, and the open handle returned is the one in its list; nil is dereferenced exactly when the lookup answers neither a node nor an error |
| Tree.DirectoryNode.Close | filesystem/server/provider/fuse/filesystem/directory/node/main.go:286-297 | The node and every handle in its list are closed |
| Tree.StreamableNodeService.New | filesystem/server/provider/fuse/filesystem/streamable/node/service/main.go:37-65 | A node of that identifier, new, open, unused and the registry's last; nothing when closed or without a size |
| Tree.FileNodeService.New | filesystem/server/provider/fuse/filesystem/file/node/service/main.go:41-68 | The same for file nodes |
| Tree.DirectoryNodeService.New | filesystem/server/provider/fuse/filesystem/directory/node/service/main.go:50-83 | The same for directory nodes, whose services are open and share the registry, exactly when open and the service factories succeed |
| Tree.Registry.Add | filesystem/server/provider/fuse/registry/main.go:52-54 | The node is the last in the list; no two nodes of a registry share an object |
| Tree.Registry.CloseNodes | filesystem/server/provider/fuse/registry/main.go:56-72 | Every node ever added is closed and the list is empty |
| Tree.Registry.NodeOperationKeepsRegistry | filesystem/server/provider/fuse/registry/main.go:52-72 | Any operation inside one node keeps the registry valid and leaves every other node open or closed as it was |
| Tree.ClosedNodeIsShutDown | filesystem/server/provider/fuse/filesystem/streamable/node/main.go:103-115 | Under a closed node every handle is closed, every stream, and, unless the buffer refused to close, the transfer is gone and every connection closed |
| Tree.AllShutDown | filesystem/server/provider/fuse/registry/main.go:56-72 | The same for every node of a registry whose nodes are closed |
| TreeRuns.Operate | filesystem/server/provider/fuse/filesystem/directory/node/main.go:91-237 | Any one request, lookup, creation or CloseNodes keeps the registry and all its nodes valid; closed nodes stay closed |
| TreeRuns.Run | filesystem/server/provider/fuse/registry/main.go:52-79 | Any run keeps them valid; a run that closed the nodes leaves every node ever added shut down, whatever requests followed; when all are closed no run adds another |
| Shutdown.Instances.GetInstance | filesystem/server/provider/fuse/registry/main.go:22-50 | Always the same registry for a name; a new one is empty and shares nothing with the others |
| Shutdown.Instances.Close | filesystem/server/provider/fuse/registry/main.go:74-79 | Every node ever added to any registry is closed and every list is empty |
| Shutdown.FileSystem.Close | filesystem/server/provider/fuse/filesystem/main.go:46-61 | The first call closes and nils the root service and closes every node of every registry; later calls do nothing more |
| Shutdown.FileSystem.Root | filesystem/server/provider/fuse/filesystem/main.go:37-39 | Dereferences nil if and only if the file system is closed |

## Left out

- Streams.Stream.ReadAt: succeeds when the buffer's answers let it; the buffer's contract lets it fail a read or a wait at any time. StreamProgress.SeekWaitEndsIff says when a wait can succeed. Overlap with Close is in StreamSystem only.
- Streams.Stream.Close: says nothing about the connections when the buffer refuses to close, because the code then returns early and leaves the transfer running.
- Transfers.Transfer.Close: is one action here, after which the old copyData writes no more; StreamStale has the interleavings in which it does.
- StreamClosing.OrderlyRunsAreSafe: is a sufficient condition only; StreamCrashes.CrashIffFell and StreamClosing.OpenAfterCloseIff are the exact ones.
- Shutdown.Instances.GetInstance: takes the client's root name as given; for a nil client the code answers nil, and it panics when Root fails.
- Shutdown.FileSystem.Close: does not say that no node can appear afterwards, because an existing root node keeps its own services.
- HTTP, TLS, status handling beyond "the body starts at N", gRPC, mounting, signals, configuration and logging.
- The ring buffer's internals.
- Time: the 10-second wait and the 4-hour client timeout are waits and reads that may fail at any moment.
- Memory pools: chunks and replies are fresh arrays. The size functions' code after their first return is dead; the transfer's pool stores the address of a slice but takes out a slice; the handle returns its buffer to the pool while the reply still refers to it. None of this is modelled.
- Data races on unlocked fields other than those StreamSystem makes steps of; nothing here shows the code free of data races. In the class modules each ReadAt, Open, Close and Lookup is one action.
- A connection closed while its request is being sent, which may leave a response body open: only the closed flag is modelled as shared.
- Closing nodes and handles in parallel: they are closed one after the other.
- The conversion of the node's unsigned 64-bit size to a signed one: sizes are naturals.
- Handle identifiers, attributes, the root node and its lookup, symlinks, Rename, Remove, Mkdir and Link, reading and writing through file handles, stream/map.go, stream/pool.go and the remaining factories and interfaces: forwarding or unused.
- Read requests longer than the handle's 64 MiB pool buffer, which the code would slice out of bounds, are excluded by a precondition.
- Directories with two entries of one name, for which lookup and listing need not agree.
