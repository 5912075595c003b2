# The zstd command line's I/O engine and the entropy tables, verified

A Dafny model of the hardest parts of the zstd command-line program that the repository bundles under
`reference_zstd/programs`, and of the entropy tables of the library under `include`, with proofs of what they promise.

**The I/O pools.** `ReadPool` and `WritePool` are transition systems: every atomic action of the main thread and of
the worker is an event, a run is any sequence of enabled events, and a failed assertion of the C code is a state of
its own. `ReadPoolSafety` and `WritePoolSafety` prove what every run keeps, so that every schedule is covered.
`ReadPoolCode` and `WritePoolCode` are the C functions on fields updated in place, with the worker driven by an
arbitrary schedule; a ghost trace ties every action to the transition system. `PassThrough` and `PassThroughProgress`
put both pools together for the pass-through copy, `PassThroughCode` is the function itself. `JobLists` holds the
lists that both pools keep.

**The sparse writer.** `SparseWriter` turns runs of zeros into seeks; `FileModel` is a file with a position that a
seek may move past the end, and `Bytes` the byte strings.

**The drivers.** `CompressDriver` and `DecompressDriver` run over a codec known only by the contract that `zstd.h`
documents, stated in `Codec`; `RoundTrip` composes them and `StoredCodec` shows that the contract can be met.
`FrameFormat` is the frame layout of RFC 8878 (sections 3.1.1 and 3.1.2), `FrameWalker` and `FrameWalkerTheorems` the
walk behind `zstd --list`. `HeaderWriter` is the compressor's writer of frame headers, and `ListedFrames` what the listing
shows of the frames that it begins.

**The entropy tables.** Of the library headers under `include`, `FseCounts`, `FseSpread`, `FseTable`, `FseCoding` and
`FseBuilder` model the construction of an FSE decoding table: the header with the normalized counts, the walk that
spreads the symbols, the next states, and decoding as the inverse of encoding. `FseWalk` says where each symbol is
from the counts alone, and `FseDefaults` has a predefined table entry by entry. `FseReader` says exactly which headers
are accepted, `FseWriter` is the header as a writer puts it together, read back, and `FseWriterCode` the writer itself. `BitStrings` has the bits of bytes and
`Arithmetic` the quotients.

**The planners.** `ChunkLayout` (benchmark chunks against their allocations), `DictSamples` (sample planner against
loader), `DataGen` (the synthetic data generator), `FileList` (lists of file names) and `MirroredDirs` (directory
mirroring).

Where the code and its comments differ, the model follows the code:

- `convertPathnameToDirName` says that it removes trailing separators; its loop starts at the terminator and never
  runs (`reference_zstd/programs/util.c:1148-1154`). `PromiseKeptIff` says for which names that matters.
- The frame walker reads into a buffer that is not initialised, adds 8 to a 32-bit size and can therefore accept a header
  that was cut short, or not end (`reference_zstd/programs/fileio.c:3515-3522`). What the buffer holds before each
  read is a parameter, `memory`; `SuccessIffFrames` and `StopsUnlessStuck` say on which files this happens.
- The dictionary ID shown for a file of several frames is 0 or the last one: after a mismatch set it to 0, the next
  frame sets it again (`reference_zstd/programs/fileio.c:3472-3477`). `ShownAsAnnouncedIff` says when.
- With a declared size smaller than the file and a multiple of the window, compression stops there without an error
  (`reference_zstd/programs/fileio.c:1818-1819`).
- The margin of 1 KB a chunk in the benchmark's compressed buffer is a 32-bit product, which wraps from 2^22 chunks on,
  and so does the length of its tables from 2^32 chunks on (`reference_zstd/programs/benchzstd.c:793-817`).
  `FitsIff` says when the allocations suffice.
- When the benchmark only decodes, its result pointer advances by compressed sizes
  (`reference_zstd/programs/benchzstd.c:521`). `DecodedFitsIff` says when the regions fit.
- A list of file names with a terminator inside is accepted and gives other names than its lines
  (`reference_zstd/programs/util.c:693-746`). `FileListIsParts` says which.

## Model

| member | source | states |
|---|---|---|
| SparseWriter.SparseWriteAppends | reference_zstd/programs/fileio_asyncio.c:32-108 | one call appends exactly its buffer to what the finished file will hold, keeps the position from falling inside the content, and leaves at most 1 GB plus the buffer owed, so the 32-bit counter cannot wrap |
| SparseWriter.WriteAllAppends | reference_zstd/programs/fileio.c:164-239 | the same over any sequence of buffers of any lengths up to 1 GB, sparse or not, with `storedSkips` threaded through |
| SparseWriter.SparseEndMaterialises | reference_zstd/programs/fileio_asyncio.c:110-125 | the closing call makes every owed zero real and ends at the end of the file |
| SparseWriter.SparseFileIsExact | reference_zstd/programs/fileio_asyncio.c:32-125 | after the closing call the file is its earlier content followed by all the buffers, and nothing else |
| SparseWriter.TestModeWritesNothing | reference_zstd/programs/fileio_asyncio.c:44-44 | in test mode the file is untouched and nothing is owed, which is the assertion of the closing call |
| SparseWriter.ZeroBufferKeptIffItFits | reference_zstd/programs/fileio_asyncio.c:54-71 | the bound on the buffers is needed: an all-zero buffer is kept exactly when the owed zeros after the 1 GB valve, plus the buffer, still fit 32 bits |
| SparseWriter.ValveKeeps | reference_zstd/programs/fileio_asyncio.c:54-59 | one seek of 1 GB changes nothing in what the file will hold; the test is strict, so a zero stays owed for the closing call to write |
| SparseWriter.SegmentsAppend | reference_zstd/programs/fileio_asyncio.c:61-85 | the 32 KB segments, taken one by one, append the whole words of the buffer |
| SparseWriter.TailAppends | reference_zstd/programs/fileio_asyncio.c:87-105 | the bytes behind the last whole word are appended |
| SparseWriter.FwriteSparse | reference_zstd/programs/fileio_asyncio.c:32-108 | the C function on a file updated in place computes the function that the results above are about |
| SparseWriter.WriteSegments | reference_zstd/programs/fileio_asyncio.c:61-85 | the segment loop computes that function for the whole words |
| SparseWriter.WriteSegment | reference_zstd/programs/fileio_asyncio.c:64-84 | one segment: the leading zero words are counted, the seek and the write follow |
| SparseWriter.WriteTail | reference_zstd/programs/fileio_asyncio.c:87-105 | the byte loop computes that function for the tail |
| SparseWriter.FwriteSparseEnd | reference_zstd/programs/fileio_asyncio.c:110-125 | the closing C function computes the closing step |
| ReadPoolSafety.DeliveredIsFilePrefix | reference_zstd/programs/fileio_asyncio.c:421-541 | in every state of every interleaving the bytes consumed so far followed by the exposed window are the file up to `waitingOnOffset`, and no assertion of the pool has failed |
| ReadPoolSafety.EveryJobHasOneOwner | reference_zstd/programs/fileio_asyncio.c:412-541 | in every state each job is available, queued, executing, completed, held or local to the main thread, and only one of these; `numReadsInFlight` is the queued and executing jobs; no exposed byte is in a buffer that the worker may write |
| ReadPoolSafety.StepKeeps | reference_zstd/programs/fileio_asyncio.c:412-635 | every atomic action of the main thread and of the worker keeps the invariant behind the two results above |
| ReadPoolSafety.RunKeeps | reference_zstd/programs/fileio_asyncio.c:412-635 | so does every run, for every client and every schedule, completions being published in any order |
| ReadPoolSafety.FoundIsNext | reference_zstd/programs/fileio_asyncio.c:436-451 | the completed job with the waited offset is the next one in file order, whatever the order of the completed list, since offsets in flight are distinct |
| ReadPoolSafety.ReadIntoDelivers | reference_zstd/programs/fileio_asyncio.c:488-507 | a read by the worker leaves the exposed window as it is |
| ReadPoolSafety.ScanEndsWell | reference_zstd/programs/fileio_asyncio.c:463-483 | a finished fill has the wanted bytes, or the whole file was delivered and the end-of-file flag is set, also for lengths that are a multiple of the buffer size; NULL only for an exhausted file |
| ReadPoolSafety.NothingLeft | reference_zstd/programs/fileio_asyncio.c:455-483 | with nothing in flight and nothing at the waited offset, the file is exhausted |
| ReadPoolSafety.WaitIsAnswered | reference_zstd/programs/fileio_asyncio.c:470-474 | a waiting main thread has a read in flight, the worker can move, and its publication wakes the waiter |
| ReadPoolSafety.SynchronousNeverWaits | reference_zstd/programs/fileio_asyncio.c:470-472 | without a thread pool the main thread never comes to the wait: the assertion there holds |
| ReadPoolSafety.NeverStuck | reference_zstd/programs/fileio_asyncio.c:412-635 | no deadlock: the client may call, or some thread can move |
| ReadPoolSafety.ResetKeeps | reference_zstd/programs/fileio_asyncio.c:525-541 | setFile, once joined, finds every job and starts afresh with the invariant |
| ReadPoolSafety.SetThreadedKeeps | reference_zstd/programs/fileio_asyncio.c:236-245 | a joined pool may change its threading mode and keeps the invariant |
| ReadPoolCode.ReadPoolCtx.constructor | reference_zstd/programs/fileio_asyncio.c:547-564 | creation establishes the invariant and an empty run |
| ReadPoolCode.ReadPoolCtx.Record | reference_zstd/programs/fileio_asyncio.c:412-635 | each action of the code is a step of the transition system; the ghost trace stays a run |
| ReadPoolCode.ReadPoolCtx.Execute | reference_zstd/programs/fileio_asyncio.c:488-507 | executeReadJob up to the publication: the read, the short count and the flag |
| ReadPoolCode.ReadPoolCtx.WorkerStep | reference_zstd/lib/common/pool.c:67-104 | the worker thread takes, executes, publishes and returns, one action at a time |
| ReadPoolCode.ReadPoolCtx.AddJobToCompleted | reference_zstd/programs/fileio_asyncio.c:421-430 | the publication and the signal |
| ReadPoolCode.ReadPoolCtx.WaitForRoom | reference_zstd/lib/common/pool.c:283-293 | POOL_add returns only with room in the queue, and the wait for it ends |
| ReadPoolCode.ReadPoolCtx.EnqueueJob | reference_zstd/programs/fileio_asyncio.c:301-307 | enqueuing, threaded or on the spot |
| ReadPoolCode.ReadPoolCtx.EnqueueRead | reference_zstd/programs/fileio_asyncio.c:509-514 | a job is always available where one is acquired, and its offset is the next |
| ReadPoolCode.ReadPoolCtx.StartReading | reference_zstd/programs/fileio_asyncio.c:516-520 | every available job is enqueued, and the loop ends |
| ReadPoolCode.ReadPoolCtx.FindNextWaitingOffset | reference_zstd/programs/fileio_asyncio.c:436-451 | the scan finds the first completed job with the waited offset |
| ReadPoolCode.ReadPoolCtx.NumReadsInFlight | reference_zstd/programs/fileio_asyncio.c:455-458 | the count agrees with the transition system |
| ReadPoolCode.ReadPoolCtx.FindOrWait | reference_zstd/programs/fileio_asyncio.c:463-483 | the waiting loop ends, for every schedule, with the job found or nothing in flight |
| ReadPoolCode.ReadPoolCtx.MoveLeftover | reference_zstd/programs/fileio_asyncio.c:615-619 | the leftover moves to the front of the coalescing buffer, also when it is already inside that buffer |
| ReadPoolCode.ReadPoolCtx.TakeAndExpose | reference_zstd/programs/fileio_asyncio.c:443-449 | the swap-removal, the advance of the offset and the exposure of the job, coalesced or not |
| ReadPoolCode.ReadPoolCtx.FillBuffer | reference_zstd/programs/fileio_asyncio.c:603-635 | under any schedule: the wanted bytes are in the window, or the file is delivered to its end; nothing is consumed or lost, and the returned count is what was added |
| ReadPoolCode.ReadPoolCtx.ConsumeBytes | reference_zstd/programs/fileio_asyncio.c:580-584 | the first n bytes leave the window and are counted as consumed |
| ReadPoolCode.ReadPoolCtx.ConsumeAndRefill | reference_zstd/programs/fileio_asyncio.c:639-642 | the whole window is consumed and filled again |
| ReadPoolCode.ReadPoolCtx.JoinJobs | reference_zstd/lib/common/pool.c:189-198 | joining ends with an empty queue and an idle worker |
| ReadPoolCode.ReadPoolCtx.SetFile | reference_zstd/programs/fileio_asyncio.c:525-541 | every job comes back, the position is reset, and reading of the next file starts at once |
| WritePoolSafety.FreeJobAlways | reference_zstd/programs/fileio_asyncio.c:221-281 | in every run, threaded with a queue two shorter than the jobs or synchronous with two jobs, the availability assertions hold: a free job exists whenever one is acquired |
| WritePoolSafety.WritesHappenInOrder | reference_zstd/programs/fileio_asyncio.c:301-378 | in every state the file and `storedSkips` are what executing the first buffers at once, in the order they were enqueued, would give |
| WritePoolSafety.SchedulesAgree | reference_zstd/programs/fileio_asyncio.c:301-337 | two pools with any number of jobs, threading and schedules that were handed the same buffers end with the same file |
| WritePoolSafety.EndedFileIsExact | reference_zstd/programs/fileio_asyncio.c:332-337 | sparseWriteEnd leaves the earlier content followed by every enqueued buffer; in test mode the file is untouched |
| WritePoolSafety.OwedZerosFit | reference_zstd/programs/fileio_asyncio.c:54-71 | the owed zeros stay below 1 GB and one buffer however long the run |
| WritePoolSafety.AllJobsReturn | reference_zstd/programs/fileio_asyncio.c:287-292 | after joining, with no job at the client, all jobs are available, and nothing is owed after a sparse sequence was ended: the assertions of both setFile functions |
| WritePoolSafety.SetThreadedKeeps | reference_zstd/programs/fileio_asyncio.c:236-245 | a joined pool may change its threading mode and keeps the invariant |
| WritePoolSafety.StepKeeps | reference_zstd/programs/fileio_asyncio.c:301-378 | every action keeps the invariant |
| WritePoolSafety.RunKeeps | reference_zstd/programs/fileio_asyncio.c:301-378 | so does every run |
| WritePoolSafety.NeverStuck | reference_zstd/programs/fileio_asyncio.c:301-378 | no deadlock |
| WritePoolCode.WritePoolCtx.constructor | reference_zstd/programs/fileio_asyncio.c:382-390 | creation and the first file establish the invariant |
| WritePoolCode.WritePoolCtx.Execute | reference_zstd/programs/fileio_asyncio.c:373-378 | executeWriteJob writes through the sparse writer |
| WritePoolCode.WritePoolCtx.AcquireJob | reference_zstd/programs/fileio_asyncio.c:315-317 | a job is always there, empty, with a whole buffer |
| WritePoolCode.WritePoolCtx.EnqueueAndReacquire | reference_zstd/programs/fileio_asyncio.c:324-327 | the filled job is submitted with its bytes, and another one is acquired |
| WritePoolCode.WritePoolCtx.ReleaseIoJob | reference_zstd/programs/fileio_asyncio.c:356-358 | the job goes back without being executed |
| WritePoolCode.WritePoolCtx.SparseWriteEnd | reference_zstd/programs/fileio_asyncio.c:332-337 | the file is exactly what it was when the sequence began followed by every buffer enqueued since, all jobs are back, nothing is owed |
| PassThrough.OutputIsInput | reference_zstd/programs/fileio.c:2632-2652 | for every schedule of both workers, when FIO_passThrough is done the output is its earlier content followed by all remaining input, sparse or not |
| PassThrough.StepKeeps | reference_zstd/programs/fileio.c:2632-2652 | every action of the three threads keeps the invariant of the product |
| PassThrough.InputExhausted | reference_zstd/programs/fileio.c:2649-2649 | the assertion after the loop: an empty window after a fill means the end-of-file flag is set |
| PassThrough.NeverStuck | reference_zstd/programs/fileio.c:2632-2652 | until it is done, some thread can move |
| PassThroughProgress.RunIsBounded | reference_zstd/programs/fileio.c:2632-2652 | every run is bounded, spurious wake-ups apart: a measure falls with every action |
| PassThroughCode.CopyBlock | reference_zstd/programs/fileio.c:2640-2648 | one block goes from the window to the write pool and is consumed |
| PassThroughCode.PassThrough | reference_zstd/programs/fileio.c:2632-2652 | the function itself over the two pool objects: it ends, and appends exactly the rest of the input |
| FrameFormat.HeaderDecodes | reference_zstd/lib/decompress/zstd_decompress.c:494-548 | decoding a valid frame header (section 3.1.1.1 of RFC 8878) gives back its fields, whatever follows |
| FrameFormat.HeaderWasEncoded | reference_zstd/lib/decompress/zstd_decompress.c:494-548 | whatever header is decoded is valid, and its encoding is what was read |
| FrameWalkerTheorems.Complete | reference_zstd/programs/fileio.c:3436-3530 | on every non-empty concatenation of Zstandard frames and skippable frames the walk succeeds, with the exact frame counts, the sum of the content sizes modulo 2^64, and exact flags |
| FrameWalkerTheorems.Sound | reference_zstd/programs/fileio.c:3436-3530 | from any position, success is only reported on a concatenation of frames, walked over to the last byte, or on one followed by 6 or 7 bytes of a skippable header that whatever was in the buffer completes to a size leading to the end of the file |
| FrameWalkerTheorems.SuccessIffFrames | reference_zstd/programs/fileio.c:3436-3530 | for every non-empty file, and whatever the uninitialised header buffer holds in each iteration: success if and only if the file is a concatenation of frames, or one followed by such a cut header |
| FrameWalkerTheorems.CutIsNoFrames | reference_zstd/programs/fileio.c:3515-3522 | the second case is never a concatenation of frames, so the success reported there is always wrong |
| FrameWalkerTheorems.SameFrames | reference_zstd/programs/fileio.c:3436-3530 | a file can be read as frames in one way only: two readings from one place end together, or a whole frame apart |
| FrameWalkerTheorems.CarriedBytes | reference_zstd/programs/fileio.c:3441-3442 | if the memory of the buffer is left alone between iterations, the bytes that complete a cut header are the beginning of the last frame |
| FrameWalkerTheorems.Parse | reference_zstd/programs/fileio.c:3436-3530 | the walk goes over all the frames there are from its position on, and comes to where no whole frame begins |
| FrameWalkerTheorems.NoFrameIterates | reference_zstd/programs/fileio.c:3436-3530 | from there an iteration that goes on is stuck, or at the end behind a cut header, or past the end, or refused by the next one |
| FrameWalkerTheorems.CutShortSucceeds | reference_zstd/programs/fileio.c:3515-3522 | the second case exists: six bytes that are no frame, and a success |
| FrameWalkerTheorems.WrapIsCaught | reference_zstd/programs/fileio.c:3515-3522 | a size field whose sum with 8 wraps 32 bits sends the walk back into the header, where it is refused |
| FrameWalkerTheorems.StopsUnlessStuck | reference_zstd/programs/fileio.c:3436-3530 | for every file and size: the loop does not end if and only if behind the frames of the file comes a skippable header with the size bytes F8 FF FF FF, whole, or cut to 6 or 7 bytes that the buffer completes so in every further iteration |
| FrameWalkerTheorems.WholeHeadSticks | reference_zstd/programs/fileio.c:3515-3522 | with 8 bytes of the header in the file the buffer has no part in this |
| FrameWalkerTheorems.StopsOrSticks | reference_zstd/programs/fileio.c:3436-3530 | at most one iteration for every byte of the file, and one, until the loop ends or comes to such a header |
| FrameWalkerTheorems.NeverStops | reference_zstd/programs/fileio.c:3515-3522 | on frames followed by a skippable frame of size 0xFFFFFFF8 it does not end |
| FrameWalkerTheorems.BlocksWalk | reference_zstd/programs/fileio.c:3486-3503 | the block loop goes over every valid block sequence exactly |
| FrameWalkerTheorems.BlocksWereEncoded | reference_zstd/programs/fileio.c:3486-3503 | what the block loop went over was a valid block sequence |
| FrameWalkerTheorems.TallyCounts | reference_zstd/programs/fileio.c:3463-3521 | the counters, the sum and the flags accumulated frame by frame are the counts, sum and flags of the list of frames |
| FrameWalkerTheorems.ShownIs | reference_zstd/programs/fileio.c:3472-3477 | frames with one dictionary ID show it; otherwise 0 or the last one is shown |
| FrameWalkerTheorems.ShownIsZeroIff | reference_zstd/programs/fileio.c:3472-3477 | 0 is shown if and only if the IDs at the end that are neither 0 nor a repetition are even in number behind the beginning or a 0, and odd in number behind a repetition |
| FrameWalkerTheorems.ShownAsAnnouncedIff | reference_zstd/programs/fileio.c:3472-3477 | the ID that the warning announces, the common one or 0, is shown if and only if the IDs are all the same or this condition holds |
| FrameWalkerTheorems.TallyShows | reference_zstd/programs/fileio.c:3463-3514 | the ID shown after a list of frames is that of the list of their IDs |
| FrameWalkerTheorems.MismatchIsForgotten | reference_zstd/programs/fileio.c:3472-3477 | three real frames with the IDs 5, 7 and 7: the walk succeeds and shows 7 where 0 was announced |
| FrameWalker.SkipBlocks | reference_zstd/programs/fileio.c:3486-3503 | the do-while loop computes the position behind the last block, or an error |
| FrameWalker.AnalyzeZstd | reference_zstd/programs/fileio.c:3460-3514 | one Zstandard frame: the fields of the information are updated as far as the code gets |
| FrameWalker.AnalyzeSkippable | reference_zstd/programs/fileio.c:3515-3522 | the seek over a skippable frame, with its 32-bit sum |
| FrameWalker.AnalyzeFrame | reference_zstd/programs/fileio.c:3440-3528 | one iteration: every return and its status |
| FrameWalker.AnalyzeFrames | reference_zstd/programs/fileio.c:3436-3530 | the function, on an input on which its loop ends, whatever its header buffer holds |
| FrameWalkerTheorems.FileInfoOf | reference_zstd/programs/fileio.c:3532-3546 | a whole file, unless the loop does not end by the condition above: the status is a success exactly for frames and the cut header, and for frames the information is exactly their tally |
| HeaderWriter.HeaderRoundTrips | reference_zstd/lib/compress/zstd_compress.c:4810-4862 | for every setting, content size below 2^64 and dictionary ID: the reader finds in the header that the compressor writes the content size (none when it was not to be written), the dictionary ID, the checksum flag and the window, which for a single segment is the content |
| HeaderWriter.ContentSizeIsWritten | reference_zstd/lib/decompress/zstd_decompress.c:529-538 | by whichever flag can hold it, a size n, or n - 256 in the field of two bytes, written little-endian is read as n |
| HeaderWriter.ContentSizeWasWritten | reference_zstd/lib/decompress/zstd_decompress.c:529-538 | conversely, a header that gives n has these bytes and no others |
| HeaderWriter.WindowSizeIs | reference_zstd/lib/decompress/zstd_decompress.c:514-517 | a window descriptor of exponent e and mantissa m stands for 2^(10 + e) and m eighths of it |
| HeaderWriter.WriteFrameHeader | reference_zstd/lib/compress/zstd_compress.c:4810-4862 | the C function, into an array, writes the header bytes that the results above are about |
| ListedFrames.ListsWhatWasWritten | reference_zstd/programs/fileio.c:3463-3514 | a file of one frame, written by the compressor with any setting, blocks and checksum: the walk succeeds and shows the content size, window, dictionary ID and checksum that the compressor was told |
| ListedFrames.ListThreeHundred | reference_zstd/programs/fileio.c:3532-3546 | the real bytes of a single-segment frame of 300 stored bytes, through the listing: a content of 300 and a window of 300, whatever the bytes are |
| ListedFrames.FramesDoNotStick | reference_zstd/programs/fileio.c:3436-3530 | on a concatenation of frames the loop always ends |
| CompressDriver.SyncCompressIO.FillBuffer | reference_zstd/programs/fileio.c:328-361 | the window grows by the next bytes of the file until the wanted ones are there or the file has no more |
| CompressDriver.SyncCompressIO.ConsumeBytes | reference_zstd/programs/fileio.c:363-370 | the first n bytes leave the window |
| CompressDriver.SyncCompressIO.CommitOut | reference_zstd/programs/fileio.c:372-381 | committed bytes are appended through the sparse writer |
| CompressDriver.SyncCompressIO.Finish | reference_zstd/programs/fileio.c:383-389 | the file is its earlier content followed by everything committed |
| CompressDriver.CallIs | reference_zstd/lib/zstd.h:796-822 | what the documented contract says of one call in the middle of a frame |
| CompressDriver.CompressWindow | reference_zstd/programs/fileio.c:1821-1842 | the inner loop ends; the whole window is ingested and, with ZSTD_e_end, the frame is complete, unless the codec answered a call on bytes of this window with an error |
| CompressDriver.CompressZstdFrame | reference_zstd/programs/fileio.c:1809-1986 | for every codec that meets the contract: the loop ends, the output is one frame of the bytes read, each presented once and in order, ZSTD_e_end is not used before the last turn, the returned size is what was committed; the failure is that of a call on the bytes read; and the whole file is read if and only if the declared size is not a smaller positive multiple of the window |
| CompressDriver.CompressOnce | reference_zstd/programs/fileio.c:1822-1842 | one turn of the inner loop: what the call took is consumed and what it gave is committed, or the call failed |
| CompressDriver.GrownFileStopsShort | reference_zstd/programs/fileio.c:1818-1819 | it happens: a file that grew by a byte after its size, one window, was taken |
| CompressDriver.FillTurn | reference_zstd/programs/fileio.c:1812-1819 | the choice of the directive: ZSTD_e_end exactly when nothing is left or the declared size was read |
| DecompressDriver.CallIs | reference_zstd/lib/zstd.h:926-947 | what the documented contract says of one call, whatever the input |
| DecompressDriver.CallSucceeds | reference_zstd/examples/streaming_decompression.c:42-46 | on a valid frame a call takes nothing from behind the frame, and its last byte only with the return of 0 |
| DecompressDriver.DecompressTurn | reference_zstd/programs/fileio.c:2714-2754 | one turn of the loop: written, consumed, and filled again |
| DecompressDriver.MoreInput | reference_zstd/programs/fileio.c:2744-2754 | the fill brings something unless the input is exhausted, so a valid frame never meets the "premature end" error |
| DecompressDriver.DecompressZstdFrame | reference_zstd/programs/fileio.c:2692-2760 | on success the bytes consumed are one frame and the output grows by exactly its content; a valid frame is a success that consumes just that frame |
| DecompressDriver.DecompressFrames | reference_zstd/programs/fileio.c:2979-3055 | on success the input was a sequence of frames and, in pass-through mode only, a tail of no known format, and the output grows by their contents and the tail; and when valid frames are there with something behind them that begins no frame, they are decoded, and the outcome is decided: success for nothing behind at least one frame, success with the tail copied in pass-through mode when it is too short or unknown, and otherwise an error with the frames alone written |
| DecompressDriver.LookedAtBytes | reference_zstd/programs/fileio.c:2999-3051 | what is next is decided by its first four bytes: 28 B5 2F FD or 5x 2A 4D 18 for a frame, 1F 8B, FD 37, 5D 00 or 04 22 4D 18 for another format, anything else is unknown |
| RoundTrip.CompressThenDecompress | reference_zstd/programs/fileio.c:1755-1986 | the two drivers composed: for every pair of codecs that agree, every file, every schedule and every sparse setting, what was compressed is restored; compression fails only with the codec, so that with a codec that does not fail the file is always restored |
| StoredCodec.ContractsAreMet | reference_zstd/lib/zstd.h:796-822 | the two contracts can be met, by codecs that agree, with a session that begins as the driver demands and never fails |
| ChunkLayout.LayoutFits | reference_zstd/programs/benchzstd.c:494-529 | below 2^22 chunks, the chunks fit the tables, tile the source and result buffers, and their compressed regions fit the buffer that was allocated |
| ChunkLayout.FitsIff | reference_zstd/programs/benchzstd.c:494-529 | in general: what the loops write with their 32-bit counters fits the tables, tiles both buffers to the end of the input and fits the compressed buffer, if and only if the chunks counted are fewer than 2^32 and the bounds of the chunks, in closed form from the sizes of the files, add up to no more than that buffer |
| ChunkLayout.TablesHoldLayoutIff | reference_zstd/programs/benchzstd.c:499-528 | the loops come to the end of the input inside their tables if and only if the chunks counted are fewer than 2^32 |
| ChunkLayout.TablesFitIff | reference_zstd/programs/benchzstd.c:793-794 | the tables have room for all the chunks there are, if and only if their length was computed without a wrap |
| ChunkLayout.CompleteIffLayout | reference_zstd/programs/benchzstd.c:499-528 | the 32-bit loops come to the end of the input exactly when they write the whole layout |
| ChunkLayout.RegionsEndAt | reference_zstd/programs/benchzstd.c:512-519 | the end of the compressed regions in closed form: whole chunks and the rest of each file |
| ChunkLayout.DecodedFitsIff | reference_zstd/programs/benchzstd.c:514-521 | decoding only: the result regions are in order, disjoint and inside the result buffer if and only if every file but the last is as large as what it decodes to, since the result pointer advances by compressed sizes |
| ChunkLayout.DecodeInputFits | reference_zstd/programs/benchzstd.c:494-533 | decoding only: the sources and compressed regions fit, and the tables exactly when their length does not wrap |
| ChunkLayout.ChunksFitTables | reference_zstd/programs/benchzstd.c:793-794 | the nested loops make at most as many chunks as the tables are sized for |
| ChunkLayout.TiledChunks | reference_zstd/programs/benchzstd.c:505-526 | any two chunks are in order and disjoint in all three buffers |
| ChunkLayout.CapacityIsBounded | reference_zstd/programs/benchzstd.c:815-817 | the sum of the bounds of the chunks stays below the bound of the whole and 64 bytes a chunk |
| ChunkLayout.ChunksRespectFiles | reference_zstd/programs/benchzstd.c:499-527 | no chunk is empty or larger than the chunk size, and none crosses from one file into the next |
| ChunkLayout.ChunksAsRequested | reference_zstd/programs/benchzstd.c:788-792 | when 32 or more is requested for compression, every chunk of a file but its last has exactly that size and the last no more; otherwise every chunk is a whole file |
| ChunkLayout.NumChunksSubadditive | reference_zstd/programs/benchzstd.c:500-504 | cutting two files separately costs at most one chunk more |
| ChunkLayout.BoundIsLinear | reference_zstd/lib/zstd.h:248-249 | the compression bound lies between n + n/256 and 64 more, and below 2^64 |
| ChunkLayout.StoredFrameFits | reference_zstd/lib/zstd.h:248-249 | a frame of stored blocks of 128 KB, with the largest header and a checksum, is within the bound |
| ChunkLayout.BoundsAdd | reference_zstd/lib/zstd.h:249-249 | from 128 KB on, the bounds of two parts add up to no more than the bound of both |
| ChunkLayout.SumsFit | reference_zstd/programs/benchzstd.c:788-817 | below 2^63 bytes the size_t sums do not wrap |
| ChunkLayout.CompressedSizeWraps | reference_zstd/programs/benchzstd.c:815-817 | from 2^22 chunks on the compressed buffer can be too small: the margin of 1 KB a chunk is a 32-bit product and wraps; one file of 2^22 - 1 chunks of 32 bytes needs more than twice what it gets |
| ChunkLayout.TableSizeWraps | reference_zstd/programs/benchzstd.c:793-794 | from 2^32 chunks on the tables are too short or the layout is not written: 2^32 - 1 chunks of one file get tables without an entry, one more and the loop writes none |
| ChunkLayout.LayOutFile | reference_zstd/programs/benchzstd.c:500-526 | the inner loop, with its 32-bit counters and in both modes, writes the chunks of one file into the six tables, inside them |
| ChunkLayout.LayOut | reference_zstd/programs/benchzstd.c:494-529 | the nested loops compute, in both modes, the layout that the results above are about, in tables that have room for the entries written |
| DictSamples.PlannerPredictsLoader | reference_zstd/programs/dibio.c:271-317 | in a buffer of at least the planned size the loader loads exactly the planned samples and bytes, which are everything that may be loaded |
| DictSamples.LoadedFits | reference_zstd/programs/dibio.c:114-178 | in any buffer the sizes add up to the loaded size, within capacity and table, and cut up the beginnings of files that the buffer holds end to end |
| DictSamples.PlanIsExact | reference_zstd/programs/dibio.c:271-317 | the plan counts exactly the samples and bytes of the usable parts of the files |
| DictSamples.LoadTiles | reference_zstd/programs/dibio.c:128-169 | file by file, from any state: a beginning of each file, cut at the chunk size |
| DictSamples.DiBFileStats | reference_zstd/programs/dibio.c:271-317 | the loop computes the plan |
| DictSamples.LoadChunks | reference_zstd/programs/dibio.c:153-166 | the inner loop loads the rest of a chunked file |
| DictSamples.DiBLoadFiles | reference_zstd/programs/dibio.c:114-178 | the loops fill buffer and table as the function says, skipping unreadable and empty files |
| DictSamples.LoadTrainingSet | reference_zstd/programs/dibio.c:342-361 | planned, allocated and loaded: the loader never leaves what the plan allocated, and without a limit fills it exactly |
| DictSamples.DiBShuffle | reference_zstd/programs/dibio.c:197-208 | the table is the result of swapping i with a random number modulo i + 1, for i from the last down to 1, one after another |
| DictSamples.ShuffledKeeps | reference_zstd/programs/dibio.c:197-208 | whatever the random numbers, that is a permutation |
| DataGen.GenBlockIsPrefixStable | reference_zstd/programs/datagen.c:96-152 | with equal parameters, and after any number of turns, the output of a smaller size is the beginning of that of a larger one, sparse or not, so it is complete when the larger one is |
| DataGen.TurnsTruncate | reference_zstd/programs/datagen.c:122-140 | after any number of turns the main loop has in a smaller buffer the beginning of what it has in a larger one |
| DataGen.RunIsLz | reference_zstd/programs/datagen.c:122-140 | everything the main loop adds in any number of turns is the expansion of tokens, one a turn, that reach at most 32 KB back and are exactly as the stream of random numbers says: a match when the low 15 bits of the first number of the turn are below the probability, its length 4 to 530 or up to the end of the buffer, its offset the last one or drawn, and otherwise up to 526 characters drawn from the table |
| DataGen.ProbabilityDecides | reference_zstd/programs/datagen.c:123-125 | with the probability 0 all tokens are literals, with one of 2^15 or more all are matches |
| DataGen.NoMatches | reference_zstd/programs/datagen.c:96-142 | with the probability 0 everything a block adds to its prefix is characters of the table |
| DataGen.TokenIsLz | reference_zstd/programs/datagen.c:123-140 | one turn: its token, and the offset and seed it leaves |
| DataGen.RunAsDrawn | reference_zstd/programs/datagen.c:106-108 | a run of zeros is 2^16, 2^18, 2^20 or 2^22 long and up to as much again, as drawn |
| DataGen.ShortSparseIsZeros | reference_zstd/programs/datagen.c:105-117 | with fewer than 64 KB to fill, sparse content is zeros only |
| DataGen.CopyRepeats | reference_zstd/programs/datagen.c:131-134 | every copied byte equals the one `offset` before it, overlaps included |
| DataGen.TokenPrefix | reference_zstd/programs/datagen.c:123-140 | in a smaller buffer a turn does the same, or the same up to the end of the buffer |
| DataGen.EmitsStreamPrefix | reference_zstd/programs/datagen.c:174-182 | the 32 KB slide drops and repeats nothing: the output is the first bytes of dictionary and blocks |
| DataGen.StreamIsLz | reference_zstd/programs/datagen.c:155-186 | the whole stream, sparse or not, is sound: across the slides no match reaches further than 32 KB back |
| DataGen.CopyMatch | reference_zstd/programs/datagen.c:132-133 | the byte-by-byte copy |
| DataGen.GenSparse | reference_zstd/programs/datagen.c:105-117 | the loop for sparse content |
| DataGen.OneToken | reference_zstd/programs/datagen.c:123-140 | one turn in place |
| DataGen.GenBlockInPlace | reference_zstd/programs/datagen.c:96-142 | the generator in place computes the block and the next seed that the results above are about |
| DataGen.GenStdout | reference_zstd/programs/datagen.c:174-182 | the loop with its sliding buffer |
| DataGen.RdgGenStdout | reference_zstd/programs/datagen.c:155-186 | exactly the first `size` bytes of the dictionary followed by the blocks are written |
| DataGen.FillLiteralDistrib | reference_zstd/programs/datagen.c:60-75 | the table is filled completely, with characters of the allowed range in cyclic order, each in a run of its share of the rest of the table and one more |
| FileList.FileListIsLines | reference_zstd/programs/util.c:693-746 | the count and the pointers agree and the strings are exactly the lines, if and only if the file has no terminator inside |
| FileList.FileListIsParts | reference_zstd/programs/util.c:693-746 | whatever is in the file, as many strings are found as lines were counted, and they are the first parts between terminators |
| FileList.CountIsNoMoreThanParts | reference_zstd/programs/util.c:693-713 | the lines counted are never more than the parts, so that the pointers are never refused |
| FileList.StringsEndInside | reference_zstd/programs/util.c:687-746 | the terminator of every string, also of a last line without a newline, lies inside the allocated buffer |
| FileList.PointersAreLines | reference_zstd/programs/util.c:716-746 | from any line start on, the pointers are the starts of the lines |
| FileList.CountIsLines | reference_zstd/programs/util.c:693-713 | for a file without a terminator inside, the count is the number of lines |
| FileList.ReadFileContent | reference_zstd/programs/util.c:649-690 | the whole content and a terminator behind it, if and only if at least 1 KB of the largest buffer remains free |
| FileList.ProcessLines | reference_zstd/programs/util.c:693-713 | newlines become terminators in place, and the count is returned |
| FileList.CreateLinePointers | reference_zstd/programs/util.c:716-746 | the pointers, or NULL when fewer strings than lines are found |
| FileList.FileNamesFromList | reference_zstd/programs/util.c:748-781 | the table exists unless no line was counted or the file is too large; its strings are terminated in its buffer, are the first parts between terminators, and are exactly the lines if and only if there is no terminator inside |
| MirroredDirs.UniqueCovers | reference_zstd/programs/util.c:1307-1344 | every source directory is a parent of a retained one, or the same, and only given ones are retained |
| MirroredDirs.ParentIsPrefix | reference_zstd/programs/util.c:1290-1298 | the test holds exactly for the same name and for a name that begins with the first one and a separator |
| MirroredDirs.SameMirror | reference_zstd/programs/util.c:1331-1333 | ./name, /name and name have the same mirror, the output directory, a separator and the name |
| MirroredDirs.UniqueIsReduced | reference_zstd/programs/util.c:1319-1339 | in the order of the sort, no retained directory is a parent of the next retained one, or the same |
| MirroredDirs.UnsortedIsNotReduced | reference_zstd/programs/util.c:1319-1321 | in another order that fails |
| MirroredDirs.AncestorIsMade | reference_zstd/programs/util.c:1261-1281 | the recursion makes a directory and all its ancestors |
| MirroredDirs.EveryDirectoryIsMirrored | reference_zstd/programs/util.c:1282-1344 | together: the mirror of every source directory, and of each of its ancestors, is made |
| MirroredDirs.ParentOrSameIsTransitive | reference_zstd/programs/util.c:1290-1298 | the test chains |
| MirroredDirs.ReductionNeedNotBeMinimal | reference_zstd/programs/util.c:1319-1321 | minimality is not promised: a, a-b, a/c are all retained |
| MirroredDirs.KeepUnique | reference_zstd/programs/util.c:1323-1339 | the loop retains what the reduction says |
| MirroredDirs.MirrorSrcDirRecursive | reference_zstd/programs/util.c:1261-1281 | ancestors first, up to the first that cannot be made; on success the name is as it was |
| MirroredDirs.MirrorAll | reference_zstd/programs/util.c:1282-1288 | for each retained directory, what is made up to its first failure; the others go on |
| MirroredDirs.MakeUniqueMirroredDestDirs | reference_zstd/programs/util.c:1307-1344 | what is attempted, and that each mirror is made when nothing of it fails |
| MirroredDirs.ConvertPathnameToDirName | reference_zstd/programs/util.c:1140-1169 | the directory part, in place |
| MirroredDirs.TrailingSeparatorStays | reference_zstd/programs/util.c:1148-1154 | a name that ends in a separator stands for itself: its loop removes nothing |
| MirroredDirs.PromiseKeptIff | reference_zstd/programs/util.c:1140-1169 | the result is the directory name the comments promise, trailing separators removed, if and only if the name does not end in a separator or is ./ |
| MirroredDirs.PromiseKeptWithEmptyIff | reference_zstd/programs/util.c:1155-1155 | with the empty name for the root, as the early return has it, / is kept too |
| FseCounts.AcceptedCountsFill | include/sph/zstd++/detail/zstd_entropy.h:302-393 | counts that are accepted fill the table exactly, -1 taking one cell, and no value is below -1; the last check, for bytes past the source, never fails |
| FseCounts.CountFits | include/sph/zstd++/detail/zstd_entropy.h:344-366 | a count that is read never exceeds what remains, so what remains stays positive |
| FseCounts.NextCountKeeps | include/sph/zstd++/detail/zstd_entropy.h:324-380 | each turn keeps what was counted and what remains adding up to the table size and one |
| FseCounts.SkipZeroRun | include/sph/zstd++/detail/zstd_entropy.h:326-342 | the inner loop over a run of zeros |
| FseCounts.TakeTurn | include/sph/zstd++/detail/zstd_entropy.h:324-380 | the body of the loop, its threshold always the power of two of its bit count |
| FseCounts.ReadNormalizedCounts | include/sph/zstd++/detail/zstd_entropy.h:302-393 | the function, its fields taken through the 64-bit word, computes the reading that these results are about, exceptions included |
| BitStrings.BitsAreLE | include/sph/zstd++/detail/zstd_entropy.h:253-274 | a field of n bits at bit o is the little-endian number of the bytes, divided by 2^o, modulo 2^n |
| FseCounts.PeekWord | include/sph/zstd++/detail/zstd_entropy.h:253-274 | the bytes that a field touches, packed into a word, shifted and masked, give the field, or the exception |
| FseReader.ReadsExactly | include/sph/zstd++/detail/zstd_entropy.h:302-393 | for every source and result: the reader gives this result if and only if the source begins with a description of it, a list of turns of zeros and a count in fields of the widths that what remains needs, which fills the table with symbols that are allowed |
| FseReader.WasDescribed | include/sph/zstd++/detail/zstd_entropy.h:323-380 | from any state of the reader on: what it reads to the end was a list of turns |
| FseReader.IsRead | include/sph/zstd++/detail/zstd_entropy.h:323-380 | and every list of turns with symbols that are allowed is read to the end |
| FseWriter.CountsRoundTrip | include/sph/zstd++/detail/zstd_compression.h:4295-4358 | for every list of counts that fills a table of any size, whatever follows its description: the reader gives back exactly the counts, the last symbol used, the table log and the number of bytes |
| FseWriter.ReadsDescription | include/sph/zstd++/detail/zstd_entropy.h:302-380 | from any state of the reader on: it reads the counts that are still described |
| FseWriterCode.WriteNCount | reference_zstd/lib/compress/fse_compress.c:234-327 | the writer with its 32-bit word and its flushes: it writes the description that the round trip is about for whatever first counts fill the table, and fails exactly when none do |
| FseWriterCode.BitSink.Add | reference_zstd/lib/compress/fse_compress.c:297-299 | a field goes on top of the bits in the word, which does not overflow |
| FseWriterCode.BitSink.AddZeroRun | reference_zstd/lib/compress/fse_compress.c:262-290 | a run of zeros in steps of 24, of 3 and the rest is the run the reader passes over |
| FseWriterCode.HalvesAreRead | include/sph/zstd++/detail/zstd_entropy.h:302-393 | the bytes 10 3F describe two symbols with 16 of 32 cells each |
| FseSpread.PosDiffer | include/sph/zstd++/detail/zstd_entropy.h:444-457 | the step is odd, so no cell is visited twice in as many steps as there are cells |
| FseSpread.SpreadIsPermutation | include/sph/zstd++/detail/zstd_entropy.h:444-459 | the walk fills every cell up to the threshold exactly once |
| FseWalk.SymbolOnTheWalk | include/sph/zstd++/detail/zstd_entropy.h:444-459 | cell k(5 * 2^(log-3) + 3) mod 2^log holds symbol s when it is below the top and the number of such cells before it on the walk is in the share of s, the sum of the positive counts before it and its own count |
| FseWalk.SymbolAtTheTop | include/sph/zstd++/detail/zstd_entropy.h:423-428 | the j-th symbol of low probability has the j-th cell from above |
| FseWalk.OccurrenceIsWhere | include/sph/zstd++/detail/zstd_entropy.h:444-459 | without symbols of low probability, occurrence j is in cell j(5 * 2^(log-3) + 3) mod 2^log |
| FseDefaults.LowCodes | include/sph/zstd++/detail/zstd_entropy.h:514-517 | the table of the predefined distribution of literal length codes, with all entries of codes 0 to 9 |
| FseDefaults.MiddleCodes | include/sph/zstd++/detail/zstd_entropy.h:514-517 | the same for codes 10 to 21 |
| FseDefaults.HighCodes | include/sph/zstd++/detail/zstd_entropy.h:514-517 | the same for codes 22 to 35 |
| FseDefaults.DefaultIsValid | include/sph/zstd++/detail/zstd_entropy.h:514-517 | the distribution fills its table of 64 cells |
| FseTable.SpreadCounts | include/sph/zstd++/detail/zstd_entropy.h:411-459 | every symbol gets as many cells as its count says |
| FseTable.NextFits | include/sph/zstd++/detail/zstd_entropy.h:468-475 | a next-state number of a table gives a number of bits and a next state inside the table |
| FseCoding.StatesPartition | include/sph/zstd++/detail/zstd_entropy.h:465-476 | for each symbol the ranges of next states of its cells partition the states: exactly one cell leads to each |
| FseCoding.DecodeInvertsEncode | include/sph/zstd++/detail/zstd_entropy.h:718-726 | decoding inverts encoding: every message of symbols with cells is decoded from the state and bits of an independent encoder |
| FseBuilder.PlaceLow | include/sph/zstd++/detail/zstd_entropy.h:413-442 | the first loop: the symbols of low probability take the top cells from above; the threshold wraps when they take all |
| FseBuilder.NextPosition | include/sph/zstd++/detail/zstd_entropy.h:453-457 | one step and the inner loop, which ends at the next cell to fill, or at 0 behind the last |
| FseBuilder.SpreadSymbols | include/sph/zstd++/detail/zstd_entropy.h:444-463 | the second loop puts the symbols where the walk says and ends at position 0: its check never fails |
| FseBuilder.FillStates | include/sph/zstd++/detail/zstd_entropy.h:465-476 | the last loop completes every entry; its check for a number of 0 never fails |
| FseBuilder.BuildTable | include/sph/zstd++/detail/zstd_entropy.h:411-477 | the function fails exactly for counts that do not fill the table, and builds the table that the results above are about |
| FseBuilder.ReadTable | include/sph/zstd++/detail/zstd_entropy.h:698-707 | a table is built from every description that is accepted, without an exception from its construction |

## Left out

- Failed allocations and the EXM_THROW paths of the system (I/O errors, failed seeks, failed mutexes): aborts.
- Unlocked reads of flags shared by threads: steps are sequentially consistent, and actions of a thread on its own
  data are part of the preceding atomic action.
- WritePoolCode.WritePoolCtx.constructor: a pool object serves one destination file; changing the file afterwards is covered only by the lemma AllJobsReturn, and a client's `memcpy` into a job's buffer is one step.
- PassThroughProgress.RunIsBounded: spurious wake-ups of the condition variable are counted apart, because nothing bounds how many the system delivers.
- ReadPoolCode.ReadPoolCtx.MoveLeftover: the `memcpy` whose source may overlap its destination is a copy from the front, byte by byte.
- CompressDriver.CompressZstdFrame: the adaptive-level logic, the progress display and `ZSTD_toFlushNow` are not modelled; offsets and sums of sizes are not reduced modulo 2^64.
- DecompressDriver.DecompressFrames: the gzip, xz, lzma and lz4 branches are those of a build without these libraries, and legacy magic numbers are not recognised.
- FrameWalker.AnalyzeFrames: reads never fail, `int` frame counters do not overflow, and the loop is run only on inputs on which it ends, since a method here must; StopsUnlessStuck says on which files it does not.
- FseBuilder.BuildTable: counts with more symbols of low probability than the table has cells, which would be written outside it, are excluded; counts that were read never have them. The fused builders of sequence tables are not modelled.
- FseCoding.DecodeInvertsEncode: the bits are in the order of reading; the reader that takes them from the end of a byte string is not modelled, nor are two interleaved states.
- FseWriterCode.WriteNCount: the checks for room in the output are not modelled, the buffer is large enough. The same loop in `include/sph/zstd++/detail/zstd_compression.h:4295-4358` has no checks for counts that do not fill the table; it is covered for counts that do.
- HeaderWriter.WriteFrameHeader: the check for room in the output and the format without a magic number are not modelled.
- FseDefaults.LowCodes: of the three predefined distributions only that of the literal length codes is written out.
- ChunkLayout.LayOut: tables too short for the entries written, which FitsIff characterises, are excluded, since writing past them has no meaning in C; the result codes of a content size that is unknown or an error, and the 64-bit wrap of sums of sizes, are not modelled.
- DataGen.GenBlockInPlace: a turn may choose no literal, so that ending depends on the seed; the number of turns is bounded by a parameter. The probabilities, which are `double` in C, arrive as the fixed-point numbers made of them, and sizes are below 2^32.
- DataGen.EmitsStreamPrefix: blocks that do not end within the bounded number of turns give no stream; the same holds for StreamIsLz, GenStdout and RdgGenStdout.
- DictSamples.DiBLoadFiles: a file's size is the length of its content, so that no read falls short, and the `int` sample counts do not overflow.
- DictSamples.DiBShuffle: the random numbers are a parameter.
- FileList.ReadFileContent: `fread` is short only at the end of the file, as on a regular file.
- MirroredDirs.MakeUniqueMirroredDestDirs: `qsort` is not modelled, the result holds for any order, and UniqueIsReduced for the order it leaves; directory modes and `mkdir` errors are left to the file system, a parameter.
- The size of `size_t` is 8 bytes throughout.
- The inside of the codec, the benchmark's timing and reports, the training algorithms, and everything of the command line that only parses, prints or asks.
