/** FIO_passThrough over the two pools as classes, each with a worker under its own schedule. */
module PassThroughCode {
  import opened Bytes
  import opened FileModel
  import opened JobLists
  import opened ReadPoolCode
  import opened WritePoolCode
  import R = ReadPool
  import RS = ReadPoolSafety
  import W = WritePool
  import WS = WritePoolSafety

  /** The exposed bytes are the next ones of the file. */
  lemma WindowIsNext(c: R.Config, s: R.State)
    requires RS.Inv(c, s)
    ensures s.src.at + s.loaded <= |R.SrcSpace(s)|
    ensures |s.consumed| + s.loaded == s.waitingOnOffset <= |s.file|
    ensures s.consumed == s.file[..|s.consumed|]
    ensures R.Window(s) == s.file[|s.consumed|..|s.consumed| + s.loaded]
  {
    assert |s.consumed + R.Window(s)| == s.waitingOnOffset;
    assert R.Window(s) == (s.consumed + R.Window(s))[|s.consumed|..];
    assert s.consumed == (s.consumed + R.Window(s))[..|s.consumed|];
  }

  /** `submitted` grows by the next `n` bytes of the file. */
  lemma SubmitsMore(submitted: seq<bytes>, file: bytes, from: nat, at: nat, data: bytes)
    requires from <= at && at + |data| <= |file|
    requires Flatten(submitted) == file[from..at] && data == file[at..at + |data|]
    ensures Flatten(submitted + [data]) == file[from..at + |data|]
  {
    FlattenAppend(submitted, data);
    SliceSplits(file, from, at, at + |data|);
  }

  lemma TakeOfSlice(s: bytes, at: nat, length: nat, n: nat)
    requires at + length <= |s| && n <= length
    ensures s[at..at + length][..n] == s[at..at + n]
  {
  }

  lemma NextInWindow(c: R.Config, s: R.State, n: nat)
    requires RS.Inv(c, s) && n <= s.loaded
    ensures var at := s.src.at;
      && at + n <= |R.SrcSpace(s)| && |s.consumed| + n <= |s.file|
      && R.SrcSpace(s)[at..at + n] == s.file[|s.consumed|..|s.consumed| + n]
  {
    hide RS.Inv, R.SrcSpace;
    WindowIsNext(c, s);
    TakeOfSlice(R.SrcSpace(s), s.src.at, s.loaded, n);
    TakeOfSlice(s.file, |s.consumed|, s.loaded, n);
  }

  /** The next `n` exposed bytes, as `memcpy` from `srcBuffer` reads them, are the next of the file. */
  method NextBytes(r: ReadPoolCtx, n: nat) returns (data: bytes)
    requires r.Valid() && n <= r.srcBufferLoaded
    ensures |r.consumed| + n <= |r.srcFile| && data == r.srcFile[|r.consumed|..|r.consumed| + n]
  {
    hide RS.Inv, R.Run, R.Init;
    NextInWindow(r.c, r.State(), n);
    var at := r.srcBuffer.at;
    match r.srcBuffer {
      case Coalesced(_) =>
        data := r.coalesceBuffer[..][at..at + n];
      case InJob(j, _) =>
        data := if j < |r.jobs| then r.jobs[j].buffer[at..at + n] else [];
    }
  }

  method Consume(r: ReadPoolCtx, n: nat)
    requires r.Valid() && r.phase.Ready? && n <= r.srcBufferLoaded
    modifies r
    ensures r.Valid() && r.coalesceBuffer == old(r.coalesceBuffer) && r.srcFile == old(r.srcFile)
    ensures r.phase.Ready? && |r.consumed| == |old(r.consumed)| + n
  {
    hide RS.Inv, R.Run, R.Init, R.Window;
    r.ConsumeBytes(n);
  }

  method Hand(w: WritePoolCtx, job: nat, data: bytes) returns (next: nat)
    requires w.Valid() && |data| <= w.c.jobSize && w.phase.Holding? && w.local == Some(job)
    modifies w, w.file
    ensures w.Valid() && w.phase.Holding? && w.local == Some(next) && w.start == old(w.start)
    ensures w.submitted == old(w.submitted) + [data]
  {
    hide WS.Inv, W.Run, W.Init, W.Payload;
    w.Load(job, data);
    next := w.EnqueueAndReacquire(job);
  }

  /** One block goes from the exposed window to the write pool, and is consumed. */
  method CopyBlock(r: ReadPoolCtx, w: WritePoolCtx, job: nat, blockSize: nat, ghost from: nat) returns (next: nat)
    requires r.Valid() && w.Valid() && {r, r.coalesceBuffer} !! {w, w.file}
    requires r.phase.Ready? && 0 < r.srcBufferLoaded && 0 < blockSize <= w.c.jobSize
    requires w.phase.Holding? && w.local == Some(job)
    requires from <= |r.consumed| <= |r.srcFile| && Flatten(w.submitted) == r.srcFile[from..|r.consumed|]
    modifies r, w, w.file
    ensures r.Valid() && w.Valid() && r.coalesceBuffer == old(r.coalesceBuffer) && r.srcFile == old(r.srcFile)
    ensures r.phase.Ready? && w.phase.Holding? && w.local == Some(next) && w.start == old(w.start)
    ensures |old(r.consumed)| < |r.consumed| <= |r.srcFile|
    ensures Flatten(w.submitted) == r.srcFile[from..|r.consumed|]
  {
    hide RS.Inv, WS.Inv, R.Run, R.Init, W.Run, W.Init, Flatten;
    var writeSize := Min(blockSize, r.srcBufferLoaded);
    var data := NextBytes(r, writeSize);
    SubmitsMore(w.submitted, r.srcFile, from, |r.consumed|, data);
    next := Hand(w, job, data);
    Consume(r, writeSize);
  }

  lemma EndOfInput(c: R.Config, s: R.State, want: nat)
    requires RS.Inv(c, s) && RS.FillDone(c, s, want) && 0 < want && s.loaded == 0
    ensures s.consumed == s.file && s.reachedEof
  {
    WindowIsNext(c, s);
  }

  /** The rest of the input is appended to the output, exactly, for every schedule of both
      workers, sparse or not; the loop ends, and ends with the whole input read. In test mode nothing is written. */
  method PassThrough(r: ReadPoolCtx, w: WritePoolCtx, blockSize: nat)
    requires r.Valid() && w.Valid() && {r, r.coalesceBuffer} !! {w, w.file}
    requires r.phase.Ready? && w.phase.Resting? && w.submitted == []
    requires 0 < blockSize <= r.c.jobSize && blockSize <= w.c.jobSize
    modifies r, r.coalesceBuffer, w, w.file
    ensures r.Valid() && w.Valid() && r.phase.Ready? && w.phase.Resting? && r.coalesceBuffer == old(r.coalesceBuffer)
    ensures |old(r.consumed)| <= |r.srcFile| && r.srcFile == old(r.srcFile)
    ensures !w.c.prefs.testMode ==> w.file.content == old(w.start).content + r.srcFile[|old(r.consumed)|..]
    ensures w.c.prefs.testMode ==> w.file.State() == old(w.start)
    ensures r.consumed == r.srcFile && r.reachedEof && w.storedSkips == 0
  {
    hide RS.Inv, WS.Inv, R.Run, R.Init, W.Run, W.Init, RS.FillDone;
    ghost var from := |r.consumed|;
    WindowIsNext(r.c, r.State());
    assert Min(blockSize, r.c.jobSize) == blockSize;
    var job := w.AcquireJob();
    var _ := r.FillBuffer(blockSize);
    while 0 < r.srcBufferLoaded
      invariant r.Valid() && w.Valid() && {r, r.coalesceBuffer} !! {w, w.file}
      invariant r.coalesceBuffer == old(r.coalesceBuffer) && r.srcFile == old(r.srcFile)
      invariant r.phase.Ready? && RS.FillDone(r.c, r.State(), blockSize)
      invariant w.phase.Holding? && w.local == Some(job) && w.start == old(w.start)
      invariant from <= |r.consumed| <= |r.srcFile| && Flatten(w.submitted) == r.srcFile[from..|r.consumed|]
      decreases |r.srcFile| - |r.consumed|
    {
      job := CopyBlock(r, w, job, blockSize, from);
      var _ := r.FillBuffer(blockSize);
    }
    EndOfInput(r.c, r.State(), blockSize);
    w.ReleaseIoJob(job);
    w.SparseWriteEnd();
  }
}
