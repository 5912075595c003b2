/** FIO_decompressZstdFrame and FIO_decompressFrames over the two pools: frames are decoded one after
    the other, each from exactly its own bytes. */
module DecompressDriver {
  import opened Bytes
  import opened FileModel
  import opened Codec
  import opened FrameFormat
  import opened ReadPoolCode
  import opened WritePoolCode
  import opened PassThroughCode
  import R = ReadPool
  import RS = ReadPoolSafety
  import W = WritePool
  import WS = WritePoolSafety

  // ---- What the contract says of one call ----

  /** The session stands where `taken` was taken and `given` was given, in a frame still open. */
  ghost predicate Session<S>(d: Decompressor<S>, s: S, taken: bytes, given: bytes) {
    d.open(s) && d.taken(s) == taken && d.given(s) == given
  }

  /** `f` is a valid frame and the file goes on with it at `at`. */
  ghost predicate FrameAt<S>(d: Decompressor<S>, file: bytes, at: nat, f: bytes) {
    d.valid(f) && at + |f| <= |file| && file[at..at + |f|] == f
  }

  ghost predicate Decoded<S>(d: Decompressor<S>, f: bytes, out: bytes) {
    d.valid(f) && out == d.content(f)
  }

  lemma Law<S(!new)>(d: Decompressor<S>, s: S, input: bytes, capacity: nat, f: bytes)
    requires DecompressContract(d)
    ensures DecompressLaw(d, s, input, capacity) && FrameLaw(d, s, input, capacity, f)
  {
  }

  lemma ResetOpens<S(!new)>(d: Decompressor<S>, s: S)
    requires DecompressContract(d)
    ensures Session(d, d.reset(s), [], [])
  {
  }

  /** A call in the middle of the file: `at` is where the frame began and `pos` where the window begins. */
  lemma CallIs<S(!new)>(d: Decompressor<S>, s: S, file: bytes, at: nat, pos: nat, n: nat, given: bytes, capacity: nat)
    requires DecompressContract(d) && at <= pos && pos + n <= |file| && 0 < n && 0 < capacity
    requires Session(d, s, file[at..pos], given)
    requires d.stream(s, file[pos..pos + n], capacity).Answer?
    ensures var a := d.stream(s, file[pos..pos + n], capacity);
      && a.consumed <= n && |a.out| <= capacity
      && (if a.remaining == 0 then Decoded(d, file[at..pos + a.consumed], given + a.out)
          else Session(d, a.state, file[at..pos + a.consumed], given + a.out))
      && (a.consumed == 0 && a.remaining != 0 ==> d.credit(a.state) < d.credit(s))
  {
    hide DecompressContract;
    var input := file[pos..pos + n];
    Law(d, s, input, capacity, []);
    var a := d.stream(s, input, capacity);
    SliceSplits(file, at, pos, pos + a.consumed);
    assert input[..a.consumed] == file[pos..pos + a.consumed];
  }

  /** The same call when the frame is valid. */
  lemma CallSucceeds<S(!new)>(d: Decompressor<S>, s: S, file: bytes, at: nat, pos: nat, n: nat, given: bytes, capacity: nat, f: bytes)
    requires DecompressContract(d) && at <= pos && pos + n <= |file| && 0 < n && 0 < capacity
    requires Session(d, s, file[at..pos], given) && FrameAt(d, file, at, f) && pos < at + |f|
    ensures var a := d.stream(s, file[pos..pos + n], capacity);
      && a.Answer? && a.consumed <= n
      && (if a.remaining == 0 then pos + a.consumed == at + |f| else pos + a.consumed + a.remaining <= at + |f|)
  {
    hide DecompressContract;
    var input := file[pos..pos + n];
    Law(d, s, input, capacity, f);
    SliceSplits(file, at, pos, pos + n);
    PrefixesAgree(file, at, at + |f|, pos + n);
    var a := d.stream(s, input, capacity);
    assert |d.taken(a.state)| == pos - at + a.consumed;
  }

  lemma PrefixesAgree(file: bytes, at: nat, i: nat, j: nat)
    requires at <= i <= |file| && at <= j <= |file|
    ensures Compatible(file[at..i], file[at..j])
  {
    if i <= j {
      SliceSplits(file, at, i, j);
    } else {
      SliceSplits(file, at, j, i);
    }
  }

  // ---- One frame ----

  ghost predicate PoolsReady(r: ReadPoolCtx, w: WritePoolCtx)
    reads r, r.coalesceBuffer, w, w.file
  {
    r.Valid() && w.Valid() && {r, r.coalesceBuffer} !! {w, w.file} && r.phase.Ready? && 0 < w.c.jobSize
  }

  /** One turn of the decoding loop up to the consumption of the input. */
  method DecompressOnce<S(!new)>(r: ReadPoolCtx, w: WritePoolCtx, d: Decompressor<S>, s: S, job: nat, ghost at: nat, ghost f: bytes)
    returns (a: Answer<S>, next: nat)
    requires DecompressContract(d) && PoolsReady(r, w) && 0 < r.srcBufferLoaded
    requires w.phase.Holding? && w.local == Some(job)
    requires at <= |r.consumed| <= |r.srcFile| && Session(d, s, r.srcFile[at..|r.consumed|], Flatten(w.submitted))
    requires FrameAt(d, r.srcFile, at, f) ==> |r.consumed| < at + |f|
    modifies r, w, w.file
    ensures PoolsReady(r, w) && r.coalesceBuffer == old(r.coalesceBuffer) && r.srcFile == old(r.srcFile)
    ensures w.phase.Holding? && w.local == Some(next) && w.start == old(w.start)
    ensures |old(r.consumed)| <= |r.consumed| <= |r.srcFile|
    ensures FrameAt(d, r.srcFile, at, f) ==> a.Answer?
    ensures a.Answer? ==> |Flatten(w.submitted)| == |old(Flatten(w.submitted))| + |a.out|
    ensures a.Answer? ==>
      && |r.consumed| == |old(r.consumed)| + a.consumed <= |r.srcFile|
      && (if a.remaining == 0 then Decoded(d, r.srcFile[at..|r.consumed|], Flatten(w.submitted))
          else Session(d, a.state, r.srcFile[at..|r.consumed|], Flatten(w.submitted)))
      && (a.consumed == 0 && a.remaining != 0 ==> d.credit(a.state) < d.credit(s))
      && (FrameAt(d, r.srcFile, at, f) ==>
            if a.remaining == 0 then |r.consumed| == at + |f| else |r.consumed| + a.remaining <= at + |f|)
  {
    hide DecompressContract, Session, Decoded, FrameAt, RS.Inv, WS.Inv, R.Run, R.Init, W.Run, W.Init, Flatten;
    var n := r.srcBufferLoaded;
    var window := NextBytes(r, n);
    ghost var pos := |r.consumed|;
    next := job;
    a := d.stream(s, window, w.c.jobSize);
    if FrameAt(d, r.srcFile, at, f) {
      CallSucceeds(d, s, r.srcFile, at, pos, n, Flatten(w.submitted), w.c.jobSize, f);
    }
    if a.Answer? {
      CallIs(d, s, r.srcFile, at, pos, n, Flatten(w.submitted), w.c.jobSize);
      FlattenAppend(w.submitted, a.out);
      next := Hand(w, job, a.out);
      Consume(r, a.consumed);
    }
  }

  /** `fillBuffer` brings something unless the input is exhausted. */
  lemma FillBrings(c: R.Config, s: R.State, want: nat, before: nat)
    requires RS.Inv(c, s) && RS.FillDone(c, s, want) && before < want
    ensures |s.consumed| + s.loaded <= |s.file|
    ensures s.loaded <= before ==> |s.consumed| + s.loaded == |s.file|
  {
    WindowIsNext(c, s);
  }

  /** The end of a turn: more input, when less than the decoder asked for is there. */
  method MoreInput(r: ReadPoolCtx, w: WritePoolCtx, hint: nat, inSize: nat) returns (ok: bool)
    requires PoolsReady(r, w) && 0 < hint && 0 < inSize <= r.c.jobSize
    modifies r, r.coalesceBuffer
    ensures PoolsReady(r, w) && r.coalesceBuffer == old(r.coalesceBuffer) && r.srcFile == old(r.srcFile)
    ensures r.consumed == old(r.consumed) && |r.consumed| <= |r.srcFile|
    ensures ok ==> 0 < r.srcBufferLoaded
    ensures |r.consumed| + hint <= |r.srcFile| ==> ok
  {
    hide RS.Inv, R.Run, R.Init, RS.FillDone, WS.Inv, W.Run, W.Init;
    ok := true;
    var toDecode := Min(hint, inSize);
    assert Min(toDecode, r.c.jobSize) == toDecode;
    ghost var before := r.srcBufferLoaded;
    WindowIsNext(r.c, r.State());
    if r.srcBufferLoaded < toDecode {
      var readSize := r.FillBuffer(toDecode);
      FillBrings(r.c, r.State(), toDecode, before);
      ok := readSize != 0;
    }
  }

  /** The state of the decoding loop, in a frame that began at `at`. */
  ghost predicate Decoding<S>(r: ReadPoolCtx, w: WritePoolCtx, d: Decompressor<S>, s: S, job: nat, at: nat, f: bytes)
    reads r, r.coalesceBuffer, w, w.file
  {
    && PoolsReady(r, w) && 0 < r.srcBufferLoaded && w.phase.Holding? && w.local == Some(job)
    && at <= |r.consumed| <= |r.srcFile| && Session(d, s, r.srcFile[at..|r.consumed|], Flatten(w.submitted))
    && (FrameAt(d, r.srcFile, at, f) ==> |r.consumed| < at + |f|)
  }

  datatype Turn = Goes | Ended | GivenUp

  /** One turn of the decoding loop. */
  method DecompressTurn<S(!new)>(r: ReadPoolCtx, w: WritePoolCtx, d: Decompressor<S>, s0: S, job0: nat, inSize: nat, ghost at: nat, ghost f: bytes)
    returns (turn: Turn, s: S, job: nat, gained: nat)
    requires DecompressContract(d) && Decoding(r, w, d, s0, job0, at, f) && 0 < inSize <= r.c.jobSize
    modifies r, r.coalesceBuffer, w, w.file
    ensures PoolsReady(r, w) && r.coalesceBuffer == old(r.coalesceBuffer) && r.srcFile == old(r.srcFile)
    ensures |old(r.consumed)| <= |r.consumed| <= |r.srcFile| && w.start == old(w.start)
    ensures w.phase.Holding? && w.local == Some(job)
    ensures FrameAt(d, r.srcFile, at, f) ==> !turn.GivenUp?
    ensures !turn.GivenUp? ==> |Flatten(w.submitted)| == |old(Flatten(w.submitted))| + gained
    ensures turn.Ended? ==> Decoded(d, r.srcFile[at..|r.consumed|], Flatten(w.submitted))
    ensures turn.Ended? && FrameAt(d, r.srcFile, at, f) ==> |r.consumed| == at + |f|
    ensures turn.Goes? ==> Decoding(r, w, d, s, job, at, f)
    ensures turn.Goes? ==> |old(r.consumed)| < |r.consumed| || d.credit(s) < d.credit(s0)
  {
    hide DecompressContract, Session, Decoded, FrameAt, RS.Inv, WS.Inv, R.Run, R.Init, W.Run, W.Init, RS.FillDone, Flatten;
    var a;
    a, job := DecompressOnce(r, w, d, s0, job0, at, f);
    if a.CodecError? {
      return GivenUp, s0, job, 0;
    }
    s, gained := a.state, |a.out|;
    if a.remaining == 0 {
      return Ended, s, job, gained;
    }
    var ok := MoreInput(r, w, a.remaining, inSize);
    turn := if ok then Goes else GivenUp;
    if FrameAt(d, r.srcFile, at, f) {
      FrameNotEmpty(d, r.srcFile, at, f);
    }
  }

  /** The decoding loop. */
  method DecompressLoop<S(!new)>(r: ReadPoolCtx, w: WritePoolCtx, d: Decompressor<S>, s0: S, job0: nat, inSize: nat, ghost at: nat, ghost f: bytes)
    returns (frameSize: Option<nat>, s: S, job: nat)
    requires DecompressContract(d) && Decoding(r, w, d, s0, job0, at, f) && 0 < inSize <= r.c.jobSize && Flatten(w.submitted) == []
    modifies r, r.coalesceBuffer, w, w.file
    ensures PoolsReady(r, w) && r.coalesceBuffer == old(r.coalesceBuffer) && r.srcFile == old(r.srcFile)
    ensures |old(r.consumed)| <= |r.consumed| <= |r.srcFile| && w.start == old(w.start)
    ensures w.phase.Holding? && w.local == Some(job)
    ensures FrameAt(d, r.srcFile, at, f) ==> frameSize.Some? && |r.consumed| == at + |f|
    ensures frameSize.Some? ==>
      Decoded(d, r.srcFile[at..|r.consumed|], Flatten(w.submitted)) && frameSize.value == |Flatten(w.submitted)|
  {
    hide DecompressContract, Decoded, FrameAt, RS.Inv, WS.Inv, R.Run, R.Init, W.Run, W.Init, RS.FillDone, Flatten;
    s, job := s0, job0;
    var size := 0;
    while true
      invariant Decoding(r, w, d, s, job, at, f)
      invariant r.coalesceBuffer == old(r.coalesceBuffer) && r.srcFile == old(r.srcFile) && w.start == old(w.start)
      invariant |old(r.consumed)| <= |r.consumed| && size == |Flatten(w.submitted)|
      decreases |r.srcFile| - |r.consumed|, d.credit(s)
    {
      var turn, gained;
      turn, s, job, gained := DecompressTurn(r, w, d, s, job, inSize, at, f);
      size := size + gained;
      if turn.Ended? {
        return Some(size), s, job;
      } else if turn.GivenUp? {
        return None, s, job;
      }
    }
  }

  /** FIO_decompressZstdFrame: on success the bytes consumed are one frame, the output grows by its content,
      and the returned size is the size of that; and a valid frame is a success that consumes just that frame. */
  method DecompressZstdFrame<S(!new)>(r: ReadPoolCtx, w: WritePoolCtx, d: Decompressor<S>, s0: S, inSize: nat, ghost f: bytes)
    returns (frameSize: Option<nat>, s: S)
    requires DecompressContract(d) && PoolsReady(r, w) && 0 < r.srcBufferLoaded && 0 < inSize <= r.c.jobSize
    requires w.phase.Resting? && w.submitted == []
    modifies r, r.coalesceBuffer, w, w.file
    ensures PoolsReady(r, w) && w.phase.Resting? && r.coalesceBuffer == old(r.coalesceBuffer) && r.srcFile == old(r.srcFile)
    ensures |old(r.consumed)| <= |r.consumed| <= |r.srcFile|
    ensures frameSize.Some? ==>
      var frame := r.srcFile[|old(r.consumed)|..|r.consumed|];
      && d.valid(frame) && frameSize.value == |d.content(frame)| && w.submitted == [] && w.start == w.file.State()
      && (!w.c.prefs.testMode ==> w.file.content == old(w.start).content + d.content(frame))
      && (w.c.prefs.testMode ==> w.file.State() == old(w.start))
    ensures FrameAt(d, r.srcFile, |old(r.consumed)|, f) ==> frameSize.Some? && |r.consumed| == |old(r.consumed)| + |f|
  {
    hide DecompressContract, Session, Decoded, FrameAt, RS.Inv, WS.Inv, R.Run, R.Init, W.Run, W.Init, RS.FillDone;
    ghost var at := |r.consumed|;
    var job := w.AcquireJob();
    s := d.reset(s0);
    ResetOpens(d, s0);
    var _ := r.FillBuffer(18);
    PositionInside(r.c, r.State());
    if FrameAt(d, r.srcFile, at, f) {
      FrameNotEmpty(d, r.srcFile, at, f);
    }
    assert r.srcFile[at..at] == [] == Flatten([]);
    hide Flatten;
    frameSize, s, job := DecompressLoop(r, w, d, s, job, inSize, at, f);
    if frameSize.Some? {
      FinishFrame(w, d, job, r.srcFile[at..|r.consumed|]);
    } else {
      w.ReleaseIoJob(job);
    }
  }

  lemma PositionInside(c: R.Config, s: R.State)
    requires RS.Inv(c, s)
    ensures |s.consumed| + s.loaded <= |s.file|
  {
    WindowIsNext(c, s);
  }

  lemma FrameNotEmpty<S(!new)>(d: Decompressor<S>, file: bytes, at: nat, f: bytes)
    requires DecompressContract(d) && FrameAt(d, file, at, f)
    ensures 4 <= |f| && at + |f| <= |file| && IsFrame(f)
  {
  }

  /** The job goes back and the sparse sequence ends. */
  method FinishFrame<S(!new)>(w: WritePoolCtx, d: Decompressor<S>, job: nat, ghost frame: bytes)
    requires w.Valid() && w.phase.Holding? && w.local == Some(job) && Decoded(d, frame, Flatten(w.submitted))
    modifies w, w.file
    ensures w.Valid() && w.phase.Resting? && w.submitted == [] && w.start == w.file.State()
    ensures !w.c.prefs.testMode ==> w.file.content == old(w.start).content + d.content(frame)
    ensures w.c.prefs.testMode ==> w.file.State() == old(w.start)
    ensures d.valid(frame) && |d.content(frame)| == |old(Flatten(w.submitted))|
  {
    hide WS.Inv, W.Run, W.Init;
    w.ReleaseIoJob(job);
    w.SparseWriteEnd();
  }

  // ---- What comes next ----

  const LZ4_MAGICNUMBER: nat := 0x184D2204

  /** What the next four bytes look like. `Foreign` is gzip, xz, lzma or lz4. */
  datatype Look = Nothing | TooShort | ZstdFrame | Foreign | Unknown

  predicate LooksForeign(buf: bytes) {
    4 <= |buf| && ((buf[0] == 31 && buf[1] == 139) || (buf[0] == 0xFD && buf[1] == 0x37) || (buf[0] == 0x5D && buf[1] == 0)
      || LE(buf[..4]) == LZ4_MAGICNUMBER)
  }

  function LookAt(rest: bytes): Look {
    if rest == [] then Nothing
    else if |rest| < 4 then TooShort
    else if IsFrame(rest) then ZstdFrame
    else if LooksForeign(rest) then Foreign
    else Unknown
  }

  /** The first four bytes that are the magic number of a Zstandard frame or of a skippable one. */
  predicate ZstdBytes(b: bytes)
    requires 4 <= |b|
  {
    b[..4] == [0x28, 0xB5, 0x2F, 0xFD] || (0x50 <= b[0] < 0x60 && b[1..4] == [0x2A, 0x4D, 0x18])
  }

  /** Those of the other formats. */
  predicate ForeignBytes(b: bytes)
    requires 4 <= |b|
  {
    b[..2] == [0x1F, 0x8B] || b[..2] == [0xFD, 0x37] || b[..2] == [0x5D, 0x00] || b[..4] == [0x04, 0x22, 0x4D, 0x18]
  }

  /** What is decided by the bytes themselves. */
  lemma LookedAtBytes(rest: bytes)
    ensures LookAt(rest) == Nothing <==> rest == []
    ensures LookAt(rest) == TooShort <==> 1 <= |rest| < 4
    ensures 4 <= |rest| ==>
      LookAt(rest) == if ZstdBytes(rest) then ZstdFrame else if ForeignBytes(rest) then Foreign else Unknown
  {
    if 4 <= |rest| {
      FourBytes(rest[..4]);
      hide LE;
    }
  }

  // ---- All frames ----

  ghost predicate ValidAll<S>(d: Decompressor<S>, frames: seq<bytes>) {
    forall f <- frames :: d.valid(f)
  }

  /** The contents of the frames, one after the other. */
  function Contents<S>(d: Decompressor<S>, frames: seq<bytes>): bytes {
    if frames == [] then [] else d.content(frames[0]) + Contents(d, frames[1..])
  }

  lemma {:induction false} ContentsAppend<S>(d: Decompressor<S>, frames: seq<bytes>, last: bytes)
    ensures Contents(d, frames + [last]) == Contents(d, frames) + d.content(last)
  {
    if frames == [] {
      assert frames + [last] == [last];
      assert Contents(d, [last]) == d.content(last) + Contents(d, []);
    } else {
      ContentsAppend(d, frames[1..], last);
      assert (frames + [last])[1..] == frames[1..] + [last];
      ConcatAssociates(d.content(frames[0]), Contents(d, frames[1..]), d.content(last));
    }
  }

  /** What the output gains: in test mode nothing is written. */
  function Written(w: WritePoolCtx, out: bytes): bytes {
    if w.c.prefs.testMode then [] else out
  }

  /** Between two frames: `done` are the frames decoded so far. */
  ghost predicate BetweenFrames<S>(r: ReadPoolCtx, w: WritePoolCtx, d: Decompressor<S>, start: bytes, from: nat, done: seq<bytes>)
    reads r, r.coalesceBuffer, w, w.file
  {
    && PoolsReady(r, w) && w.phase.Resting? && w.submitted == [] && w.start == w.file.State()
    && from <= |r.consumed| <= |r.srcFile| && r.srcFile[from..|r.consumed|] == Flatten(done) && ValidAll(d, done)
    && w.file.content == start + Written(w, Contents(d, done))
  }

  /** From `from` on the file holds the valid frames `expected` and then `rest`, which begins no frame. */
  ghost predicate Expecting<S>(d: Decompressor<S>, file: bytes, from: nat, expected: seq<bytes>, rest: bytes) {
    from <= |file| && ValidAll(d, expected) && file[from..] == Flatten(expected) + rest && LookAt(rest) != ZstdFrame
  }

  /** With frames to come, the first of them is next. */
  lemma NextExpected<S>(d: Decompressor<S>, file: bytes, at: nat, expected: seq<bytes>, rest: bytes)
    requires Expecting(d, file, at, expected, rest) && expected != []
    ensures FrameAt(d, file, at, expected[0]) && Expecting(d, file, at + |expected[0]|, expected[1..], rest)
  {
    var f := expected[0];
    ConcatAssociates(f, Flatten(expected[1..]), rest);
    hide LookAt;
    assert file[at..][..|f|] == f;
    assert file[at..at + |f|] == file[at..][..|f|];
    assert file[at + |f|..] == file[at..][|f|..];
  }

  lemma OneMore<S>(d: Decompressor<S>, file: bytes, from: nat, at: nat, end: nat, done: seq<bytes>)
    requires from <= at <= end <= |file| && file[from..at] == Flatten(done) && ValidAll(d, done) && d.valid(file[at..end])
    ensures file[from..end] == Flatten(done + [file[at..end]]) && ValidAll(d, done + [file[at..end]])
    ensures Contents(d, done + [file[at..end]]) == Contents(d, done) + d.content(file[at..end])
  {
    FlattenAppend(done, file[at..end]);
    SliceSplits(file, from, at, end);
    ContentsAppend(d, done, file[at..end]);
  }

  /** The frame found between two frames. */
  method NextFrame<S(!new)>(r: ReadPoolCtx, w: WritePoolCtx, d: Decompressor<S>, s0: S, inSize: nat,
                            ghost start: bytes, ghost from: nat, ghost done0: seq<bytes>, ghost f: bytes)
    returns (frameSize: Option<nat>, s: S, ghost done: seq<bytes>)
    requires DecompressContract(d) && BetweenFrames(r, w, d, start, from, done0)
    requires 0 < r.srcBufferLoaded && 0 < inSize <= r.c.jobSize
    modifies r, r.coalesceBuffer, w, w.file
    ensures r.coalesceBuffer == old(r.coalesceBuffer) && r.srcFile == old(r.srcFile) && PoolsReady(r, w) && w.phase.Resting?
    ensures frameSize.Some? ==> BetweenFrames(r, w, d, start, from, done) && |old(r.consumed)| < |r.consumed|
    ensures frameSize.Some? ==> |Contents(d, done)| == |Contents(d, done0)| + frameSize.value
    ensures FrameAt(d, r.srcFile, |old(r.consumed)|, f) ==>
      frameSize.Some? && |r.consumed| == |old(r.consumed)| + |f| && done == done0 + [f]
  {
    hide DecompressContract, RS.Inv, WS.Inv, R.Run, R.Init, W.Run, W.Init, RS.FillDone;
    ghost var at := |r.consumed|;
    frameSize, s := DecompressZstdFrame(r, w, d, s0, inSize, f);
    done := done0;
    if frameSize.Some? {
      ghost var frame := r.srcFile[at..|r.consumed|];
      OneMore(d, r.srcFile, from, at, |r.consumed|, done0);
      ConcatAssociates(start, Contents(d, done0), d.content(frame));
      done := done0 + [frame];
      ValidHasMagic(d, frame);
    }
  }

  lemma ValidHasMagic<S(!new)>(d: Decompressor<S>, f: bytes)
    requires DecompressContract(d) && d.valid(f)
    ensures IsFrame(f)
  {
  }

  lemma LooksByFour(rest: bytes, buf: bytes)
    requires 4 <= |rest| && buf == rest[..4]
    ensures LookAt(rest) == LookAt(buf)
  {
    assert buf[..4] == rest[..4];
    assert buf[0] == rest[0] && buf[1] == rest[1];
  }

  lemma EndIsNear(c: R.Config, s: R.State, want: nat)
    requires RS.Inv(c, s) && RS.FillDone(c, s, want)
    ensures |s.consumed| + s.loaded <= |s.file|
    ensures s.loaded < want ==> |s.consumed| + s.loaded == |s.file|
  {
    WindowIsNext(c, s);
  }

  /** The next four bytes are read and looked at. */
  method Peek(r: ReadPoolCtx) returns (look: Look)
    requires r.Valid() && r.phase.Ready? && 4 <= r.c.jobSize
    modifies r, r.coalesceBuffer
    ensures r.Valid() && r.coalesceBuffer == old(r.coalesceBuffer) && r.srcFile == old(r.srcFile)
    ensures r.phase.Ready? && r.consumed == old(r.consumed) && |r.consumed| <= |r.srcFile|
    ensures look == LookAt(r.srcFile[|r.consumed|..]) && (!look.Nothing? ==> 0 < r.srcBufferLoaded)
  {
    hide RS.Inv, R.Run, R.Init, RS.FillDone;
    var _ := r.FillBuffer(4);
    assert Min(4, r.c.jobSize) == 4;
    EndIsNear(r.c, r.State(), 4);
    ghost var rest := r.srcFile[|r.consumed|..];
    if r.srcBufferLoaded == 0 {
      look := Nothing;
    } else if r.srcBufferLoaded < 4 {
      look := TooShort;
    } else {
      var buf := NextBytes(r, 4);
      assert buf == rest[..4];
      LooksByFour(rest, buf);
      look := LookAt(buf);
    }
  }

  lemma ExpectedLooks<S(!new)>(d: Decompressor<S>, file: bytes, at: nat, expected: seq<bytes>, rest: bytes)
    requires DecompressContract(d) && Expecting(d, file, at, expected, rest)
    ensures LookAt(file[at..]) == if expected == [] then LookAt(rest) else ZstdFrame
    ensures expected == [] ==> file[at..] == rest
  {
    if expected != [] {
      NextExpected(d, file, at, expected, rest);
      hide DecompressContract;
      ValidHasMagic(d, expected[0]);
      assert file[at..][..|expected[0]|] == expected[0];
      assert file[at..][..4] == expected[0][..4];
    } else {
      assert [] + rest == rest;
    }
  }

  /** Of the frames expected, the first ones are done and the others are what is left before `rest`. */
  ghost predicate AsExpected<S>(d: Decompressor<S>, file: bytes, from: nat, at: nat, done: seq<bytes>, expected: seq<bytes>, rest: bytes) {
    Expecting(d, file, from, expected, rest) ==> done <= expected && Expecting(d, file, at, expected[|done|..], rest)
  }

  lemma LookExpected<S(!new)>(d: Decompressor<S>, file: bytes, from: nat, at: nat, done: seq<bytes>, expected: seq<bytes>, rest: bytes)
    requires DecompressContract(d) && AsExpected(d, file, from, at, done, expected, rest) && Expecting(d, file, from, expected, rest)
    ensures at <= |file| && |done| <= |expected|
    ensures |done| == |expected| ==> done == expected && file[at..] == rest && LookAt(rest) != ZstdFrame
    ensures |done| < |expected| ==> LookAt(file[at..]) == ZstdFrame && FrameAt(d, file, at, expected[|done|])
  {
    var left := expected[|done|..];
    ExpectedLooks(d, file, at, left, rest);
    hide DecompressContract;
    if left != [] {
      NextExpected(d, file, at, left, rest);
    }
  }

  lemma StepExpected<S>(d: Decompressor<S>, file: bytes, from: nat, at: nat, done: seq<bytes>, expected: seq<bytes>, rest: bytes)
    requires AsExpected(d, file, from, at, done, expected, rest) && |done| < |expected|
    ensures Expecting(d, file, from, expected, rest) ==>
      AsExpected(d, file, from, at + |expected[|done|]|, done + [expected[|done|]], expected, rest)
  {
    if Expecting(d, file, from, expected, rest) {
      NextExpected(d, file, at, expected[|done|..], rest);
      assert expected[|done|..][1..] == expected[|done| + 1..];
    }
  }

  /** The input that no frame begins is copied, in pass-through mode. */
  method CopyTail<S>(r: ReadPoolCtx, w: WritePoolCtx, d: Decompressor<S>, blockSize: nat,
                     ghost start: bytes, ghost from: nat, ghost done: seq<bytes>) returns (ghost tail: bytes)
    requires BetweenFrames(r, w, d, start, from, done)
    requires 0 < blockSize <= r.c.jobSize && blockSize <= w.c.jobSize
    requires LookAt(r.srcFile[|r.consumed|..]) != Nothing
    modifies r, r.coalesceBuffer, w, w.file
    ensures PoolsReady(r, w) && w.phase.Resting?
    ensures tail != [] && r.srcFile == old(r.srcFile) && tail == r.srcFile[|old(r.consumed)|..]
    ensures r.srcFile[from..] == Flatten(done) + tail
    ensures w.file.content == start + Written(w, Contents(d, done) + tail)
  {
    hide RS.Inv, WS.Inv, R.Run, R.Init, W.Run, W.Init;
    ghost var at := |r.consumed|;
    tail := r.srcFile[at..];
    SliceSplits(r.srcFile, from, at, |r.srcFile|);
    ConcatAssociates(start, Contents(d, done), tail);
    PassThrough(r, w, blockSize);
  }

  /** Is the input a success when `rest` comes behind `n` frames and begins none itself? */
  predicate Accepted(passThrough: bool, n: nat, rest: bytes) {
    if rest == [] then 0 < n else passThrough && LookAt(rest) in {TooShort, Unknown}
  }

  /** FIO_decompressFrames, without the foreign formats: on success the rest of the input is a sequence of frames
      and, in pass-through mode only, something that looks like no known format; the output grows by the contents
      of the frames and that. And when valid frames are there, with something behind them that begins no frame,
      they are decoded, and what is behind them decides: the end of the input is a success unless nothing was there,
      and something else is copied, a success, or an error. */
  method DecompressFrames<S(!new)>(r: ReadPoolCtx, w: WritePoolCtx, d: Decompressor<S>, s0: S, passThrough: bool,
                                   inSize: nat, blockSize: nat, ghost expected: seq<bytes>, ghost rest: bytes)
    returns (error: bool, filesize: nat, s: S, ghost done: seq<bytes>, ghost tail: bytes)
    requires DecompressContract(d) && PoolsReady(r, w) && w.phase.Resting? && w.submitted == [] && w.start == w.file.State()
    requires 4 <= r.c.jobSize && 0 < inSize <= r.c.jobSize && 0 < blockSize <= r.c.jobSize && blockSize <= w.c.jobSize
    modifies r, r.coalesceBuffer, w, w.file
    ensures PoolsReady(r, w) && w.phase.Resting? && r.srcFile == old(r.srcFile) && |old(r.consumed)| <= |r.srcFile|
    ensures !error ==>
      && r.srcFile[|old(r.consumed)|..] == Flatten(done) + tail && ValidAll(d, done) && (done != [] || tail != [])
      && (tail == [] || (passThrough && LookAt(tail) in {TooShort, Unknown}))
      && w.file.content == old(w.file.content) + Written(w, Contents(d, done) + tail)
      && (tail == [] ==> filesize == |Contents(d, done)|)
    ensures Expecting(d, r.srcFile, |old(r.consumed)|, expected, rest) ==>
      && error == !Accepted(passThrough, |expected|, rest) && done == expected && tail == (if error then [] else rest)
      && w.file.content == old(w.file.content) + Written(w, Contents(d, done) + tail)
  {
    hide DecompressContract, RS.Inv, WS.Inv, R.Run, R.Init, W.Run, W.Init, LookAt, Expecting, FrameAt;
    ghost var from := |r.consumed|;
    ghost var start := w.file.content;
    StartsBetween(r, w, d);
    StartsExpecting(d, r.srcFile, from, expected, rest);
    error, filesize, s, done, tail := false, 0, s0, [], [];
    var readSomething := false;
    while true
      invariant r.coalesceBuffer == old(r.coalesceBuffer) && r.srcFile == old(r.srcFile)
      invariant BetweenFrames(r, w, d, start, from, done) && filesize == |Contents(d, done)|
      invariant readSomething <==> done != []
      invariant AsExpected(d, r.srcFile, from, |r.consumed|, done, expected, rest)
      decreases |r.srcFile| - |r.consumed|
    {
      var look := Peek(r);
      if Expecting(d, r.srcFile, from, expected, rest) {
        LookExpected(d, r.srcFile, from, |r.consumed|, done, expected, rest);
      }
      LooksAtNothing(r.srcFile[|r.consumed|..]);
      if look.Nothing? {
        AllDone(r, w, d, start, from, done);
        return !readSomething, filesize, s, done, [];
      } else if look.ZstdFrame? {
        readSomething := true;
        ghost var f := if |done| < |expected| then expected[|done|] else [];
        if |done| < |expected| {
          StepExpected(d, r.srcFile, from, |r.consumed|, done, expected, rest);
        }
        var frameSize;
        frameSize, s, done := NextFrame(r, w, d, s, inSize, start, from, done, f);
        if frameSize.None? {
          return true, filesize, s, done, [];
        }
        filesize := filesize + frameSize.value;
      } else if passThrough && (look.TooShort? || look.Unknown?) {
        tail := CopyTail(r, w, d, blockSize, start, from, done);
        return false, filesize, s, done, tail;
      } else {
        NothingMore(Contents(d, done));
        return true, filesize, s, done, [];
      }
    }
  }

  lemma LooksAtNothing(rest: bytes)
    ensures LookAt(rest) == Nothing <==> rest == []
  {
  }

  lemma NothingMore(out: bytes)
    ensures out + [] == out
  {
  }

  lemma AllDone<S>(r: ReadPoolCtx, w: WritePoolCtx, d: Decompressor<S>, start: bytes, from: nat, done: seq<bytes>)
    requires BetweenFrames(r, w, d, start, from, done) && LookAt(r.srcFile[|r.consumed|..]) == Nothing
    ensures r.srcFile[from..] == Flatten(done) + []
    ensures Contents(d, done) + [] == Contents(d, done)
  {
    hide RS.Inv, WS.Inv, R.Run, R.Init, W.Run, W.Init;
    assert |r.consumed| == |r.srcFile|;
    assert r.srcFile[from..] == r.srcFile[from..|r.consumed|];
  }

  lemma StartsBetween<S>(r: ReadPoolCtx, w: WritePoolCtx, d: Decompressor<S>)
    requires PoolsReady(r, w) && w.phase.Resting? && w.submitted == [] && w.start == w.file.State()
    ensures BetweenFrames(r, w, d, w.file.content, |r.consumed|, [])
  {
    PositionInside(r.c, r.State());
  }

  lemma StartsExpecting<S>(d: Decompressor<S>, file: bytes, from: nat, expected: seq<bytes>, rest: bytes)
    ensures AsExpected(d, file, from, from, [], expected, rest)
  {
    assert expected[0..] == expected;
  }
}
