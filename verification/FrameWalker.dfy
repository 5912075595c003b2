/** The walk over the frames of a file behind `zstd --list`: it reads the header of every frame and
    of every block and seeks over the rest. What is in the blocks is not looked at. */
module FrameWalker {
  import opened Bytes
  import opened FileModel
  import opened FrameFormat

  const HEADER_MAX: nat := 18 // ZSTD_FRAMEHEADERSIZE_MAX
  const HEADER_MIN: nat := 6  // ZSTD_FRAMEHEADERSIZE_MIN

  const FILESIZE_UNKNOWN: nat := 0xFFFF_FFFF_FFFF_FFFF
  const U64_LIMIT: nat := 0x1_0000_0000_0000_0000

  datatype Info = Info(
    decompressedSize: nat, windowSize: nat, dictID: nat, actual: nat, skippable: nat,
    unavailable: bool, usesCheck: bool, checksum: bytes)

  datatype Status = Success | FrameError | NotZstd | TruncatedInput

  /** Between two iterations. `headerBuffer` is a local variable of the loop body, without an initialiser:
      `memory(i)` is what it holds at the beginning of iteration `i`, which is shown through by a short read. */
  datatype State = State(pos: nat, turn: nat, memory: nat -> bytes, info: Info)

  datatype Next = Go(state: State) | Stop(status: Status, info: Info)

  /** What handling one frame does: the loop goes on from a position, or the function returns. */
  datatype Step = Moved(pos: nat, info: Info) | Ended(status: Status, info: Info)

  ghost predicate ValidMemory(memory: nat -> bytes) {
    forall i: nat :: |memory(i)| == HEADER_MAX
  }

  ghost predicate ValidState(s: State) {
    ValidMemory(s.memory) && |s.info.checksum| == 4
  }

  // ---- One frame ----

  function NoteContentSize(info: Info, size: Option<nat>): Info {
    if size.None? || size.value == CONTENTSIZE_ERROR || size.value == CONTENTSIZE_UNKNOWN then info.(unavailable := true)
    else info.(decompressedSize := (info.decompressedSize + size.value) % U64_LIMIT)
  }

  function NoteHeader(info: Info, h: Header): Info
    requires ValidHeader(h)
  {
    info.(dictID := if info.dictID != 0 && info.dictID != LE(h.did) then 0 else LE(h.did), windowSize := WindowSize(h))
  }

  /** The position after the last block, unless some block header is missing or wrong. */
  function WalkBlocks(file: bytes, pos: nat): (end: Option<nat>)
    ensures end.Some? ==> pos + 3 <= end.value && pos + 3 <= |file|
    decreases |file| - pos
  {
    var data := Slice(file, pos, 3);
    if |data| != 3 then None
    else
      var header := LE(data);
      var kind := header / 2 % 4;
      var next := pos + 3 + if kind == 1 then 1 else header / 8;
      if kind == 3 then None
      else if header % 2 == 1 then Some(next)
      else WalkBlocks(file, next)
  }

  function ReadInto(buffer: bytes, data: bytes): bytes {
    if |data| <= |buffer| then data + buffer[|data|..] else data
  }

  /** After the last block: the checksum, if the descriptor announces one. */
  function WalkChecksum(file: bytes, end: nat, buffer: bytes, info: Info): Step
    requires 5 <= |buffer|
  {
    if buffer[4] as nat / 4 % 2 == 1 then
      var data := Slice(file, end, 4);
      var info1 := info.(usesCheck := true, checksum := ReadInto(info.checksum, data));
      if |data| != 4 then Ended(FrameError, info1)
      else Moved(end + 4, info1.(actual := info1.actual + 1))
    else Moved(end, info.(actual := info.actual + 1))
  }

  function WalkZstd(file: bytes, pos: nat, buffer: bytes, n: nat, info: Info): Step
    requires 5 <= n <= |buffer|
  {
    var r := GetFrameHeader(buffer[..n]);
    var info1 := NoteContentSize(info, if r.Got? then ContentSize(r.header) else None);
    if !r.Got? then Ended(FrameError, info1)
    else
      HeaderWasEncoded(buffer[..n]);
      var info2 := NoteHeader(info1, r.header);
      var end := WalkBlocks(file, pos + r.size);
      if end.None? then Ended(FrameError, info2) else WalkChecksum(file, end.value, buffer, info2)
  }

  function WalkSkippable(pos: nat, buffer: bytes, info: Info): Step
    requires 8 <= |buffer|
  {
    Moved(pos + (8 + LE(buffer[4..8])) % U32_LIMIT, info.(skippable := info.skippable + 1))
  }

  /** Fewer than HEADER_MIN bytes are left. */
  function AtEnd(n: nat, pos: nat, size: nat): Status {
    if n == 0 && 0 < size && size != FILESIZE_UNKNOWN then (if pos != size then TruncatedInput else Success)
    else NotZstd
  }

  function OneFrame(file: bytes, size: nat, pos: nat, garbage: bytes, info: Info): Step
    requires |garbage| == HEADER_MAX
  {
    var data := Slice(file, pos, HEADER_MAX);
    var buffer := data + garbage[|data|..];
    if |data| < HEADER_MIN then Ended(AtEnd(|data|, pos + |data|, size), info)
    else
      var magic := LE(buffer[..4]);
      if magic == MAGIC then WalkZstd(file, pos, buffer, |data|, info)
      else if magic / 16 == SKIPPABLE_MAGIC then WalkSkippable(pos, buffer, info)
      else Ended(NotZstd, info)
  }

  lemma ChecksumStays(file: bytes, size: nat, pos: nat, garbage: bytes, info: Info)
    requires |garbage| == HEADER_MAX && |info.checksum| == 4
    ensures |OneFrame(file, size, pos, garbage, info).info.checksum| == 4
  {
    hide LE, GetFrameHeader, WindowSize, WalkBlocks, ContentSize;
  }

  /** One iteration of the loop. */
  ghost function Iterate(file: bytes, size: nat, s: State): (next: Next)
    requires ValidState(s)
    ensures next.Go? ==> ValidState(next.state) && next.state.memory == s.memory && next.state.turn == s.turn + 1
  {
    ChecksumStays(file, size, s.pos, s.memory(s.turn), s.info);
    match OneFrame(file, size, s.pos, s.memory(s.turn), s.info)
    case Ended(status, info) => Stop(status, info)
    case Moved(pos, info) => Go(State(pos, s.turn + 1, s.memory, info))
  }

  /** The first `fuel` iterations of the loop. */
  ghost function Walk(file: bytes, size: nat, s: State, fuel: nat): (next: Next)
    requires ValidState(s)
    ensures next.Go? ==> ValidState(next.state) && next.state.memory == s.memory && next.state.turn == s.turn + fuel
    decreases fuel
  {
    if fuel == 0 then Go(s)
    else
      match Iterate(file, size, s)
      case Stop(status, info) => Stop(status, info)
      case Go(t) => Walk(file, size, t, fuel - 1)
  }

  ghost predicate Stops(file: bytes, size: nat, s: State)
    requires ValidState(s)
  {
    exists fuel: nat :: Walk(file, size, s, fuel).Stop?
  }

  // ---- The C function ----

  class FileInfo {
    var decompressedSize: nat
    const compressedSize: nat
    var windowSize: nat
    var numActualFrames: nat
    var numSkippableFrames: nat
    var decompUnavailable: bool
    var usesCheck: bool
    var checksum: bytes
    var dictID: nat

    constructor (compressedSize: nat)
      ensures this.compressedSize == compressedSize && Value() == Info(0, 0, 0, 0, 0, false, false, Zeros(4))
    {
      this.compressedSize := compressedSize;
      decompressedSize, windowSize, dictID, numActualFrames, numSkippableFrames := 0, 0, 0, 0, 0;
      decompUnavailable, usesCheck, checksum := false, false, Zeros(4);
    }

    ghost function Value(): Info
      reads this
    {
      Info(decompressedSize, windowSize, dictID, numActualFrames, numSkippableFrames,
           decompUnavailable, usesCheck, checksum)
    }

    method AddContentSize(size: Option<nat>)
      modifies this`decompressedSize, this`decompUnavailable
      ensures Value() == NoteContentSize(old(Value()), size)
    {
      if size.None? || size.value == CONTENTSIZE_ERROR || size.value == CONTENTSIZE_UNKNOWN {
        decompUnavailable := true;
      } else {
        decompressedSize := (decompressedSize + size.value) % U64_LIMIT;
      }
    }

    method AddHeader(h: Header)
      requires ValidHeader(h)
      modifies this`dictID, this`windowSize
      ensures Value() == NoteHeader(old(Value()), h)
    {
      dictID := if dictID != 0 && dictID != LE(h.did) then 0 else LE(h.did);
      windowSize := WindowSize(h);
    }
  }

  /** The loop over the blocks of a frame: false for an error. */
  method SkipBlocks(srcFile: File) returns (ok: bool)
    modifies srcFile
    ensures srcFile.content == old(srcFile.content)
    ensures ok == WalkBlocks(srcFile.content, old(srcFile.pos)).Some?
    ensures ok ==> srcFile.pos == WalkBlocks(srcFile.content, old(srcFile.pos)).value
  {
    var lastBlock := 0;
    while lastBlock != 1
      invariant srcFile.content == old(srcFile.content)
      invariant lastBlock != 1 ==>
        WalkBlocks(srcFile.content, srcFile.pos) == WalkBlocks(srcFile.content, old(srcFile.pos))
      invariant lastBlock == 1 ==> WalkBlocks(srcFile.content, old(srcFile.pos)) == Some(srcFile.pos)
      decreases if lastBlock == 1 then 0 else 1, |srcFile.content| - srcFile.pos
    {
      var data := srcFile.Read(3);
      if |data| != 3 {
        return false;
      }
      var header := LE(data);
      var kind := header / 2 % 4;
      if kind == 3 {
        return false;
      }
      lastBlock := header % 2;
      srcFile.Seek(if kind == 1 then 1 else header / 8);
    }
    ok := true;
  }

  method ReadChecksum(info: FileInfo, srcFile: File) returns (ok: bool)
    modifies info`usesCheck, info`checksum, srcFile
    ensures srcFile.content == old(srcFile.content)
    ensures var data := Slice(srcFile.content, old(srcFile.pos), 4);
      && ok == (|data| == 4) && srcFile.pos == old(srcFile.pos) + |data|
      && info.Value() == old(info.Value()).(usesCheck := true, checksum := ReadInto(old(info.checksum), data))
  {
    info.usesCheck := true;
    var data := srcFile.Read(4);
    info.checksum := ReadInto(info.checksum, data);
    ok := |data| == 4;
  }

  /** A Zstandard frame whose first `n` bytes were read; false for info_frame_error. */
  method AnalyzeZstd(info: FileInfo, srcFile: File, headerBuffer: bytes, n: nat) returns (ok: bool)
    requires HEADER_MIN <= n <= |headerBuffer| == HEADER_MAX && n <= srcFile.pos && |info.checksum| == 4
    modifies info, srcFile
    ensures srcFile.content == old(srcFile.content)
    ensures var next := WalkZstd(srcFile.content, old(srcFile.pos) - n, headerBuffer, n, old(info.Value()));
      next == if ok then Moved(srcFile.pos, info.Value()) else Ended(FrameError, info.Value())
  {
    hide LE, GetFrameHeader, WindowSize;
    var r := GetFrameHeader(headerBuffer[..n]);
    info.AddContentSize(if r.Got? then ContentSize(r.header) else None);
    if !r.Got? {
      return false;
    }
    HeaderWasEncoded(headerBuffer[..n]);
    info.AddHeader(r.header);
    srcFile.Seek(r.size - n);
    ok := SkipBlocks(srcFile);
    if ok {
      if headerBuffer[4] as nat / 4 % 2 == 1 {
        ok := ReadChecksum(info, srcFile);
      }
      if ok {
        info.numActualFrames := info.numActualFrames + 1;
      }
    }
  }

  /** `long seek = 8 + frameSize - numBytesRead`, whose first sum is a U32. */
  method AnalyzeSkippable(info: FileInfo, srcFile: File, headerBuffer: bytes, n: nat)
    requires 8 <= |headerBuffer| && n <= srcFile.pos
    modifies info`numSkippableFrames, srcFile
    ensures srcFile.content == old(srcFile.content)
    ensures Moved(srcFile.pos, info.Value())
         == WalkSkippable(old(srcFile.pos) - n, headerBuffer, old(info.Value()))
  {
    var frameSize := LE(headerBuffer[4..8]);
    srcFile.Seek((8 + frameSize) % U32_LIMIT - n);
    info.numSkippableFrames := info.numSkippableFrames + 1;
  }

  /** FIO_analyzeFrames, for an input on which it returns. */
  method AnalyzeFrames(info: FileInfo, srcFile: File, memory: nat -> bytes) returns (status: Status)
    requires ValidMemory(memory) && |info.checksum| == 4
    requires Stops(srcFile.content, info.compressedSize, State(srcFile.pos, 0, memory, info.Value()))
    modifies info, srcFile
    ensures srcFile.content == old(srcFile.content)
    ensures exists fuel: nat ::
      Walk(srcFile.content, info.compressedSize, old(State(srcFile.pos, 0, memory, info.Value())), fuel)
      == Stop(status, info.Value())
  {
    hide OneFrame;
    ghost var s0 := State(srcFile.pos, 0, memory, info.Value());
    ghost var fuel0: nat :| Walk(srcFile.content, info.compressedSize, s0, fuel0).Stop?;
    ghost var left := fuel0;
    var turn: nat := 0;
    while true
      invariant srcFile.content == old(srcFile.content) && |info.checksum| == 4
      invariant Walk(srcFile.content, info.compressedSize, s0, fuel0)
             == Walk(srcFile.content, info.compressedSize, State(srcFile.pos, turn, memory, info.Value()), left)
      invariant 0 < left
      decreases left
    {
      ChecksumStays(srcFile.content, info.compressedSize, srcFile.pos, memory(turn), info.Value());
      var next;
      status, next := AnalyzeFrame(info, srcFile, memory(turn));
      left := left - 1;
      turn := turn + 1;
      if !next {
        return;
      }
    }
  }

  /** One iteration: `more` when the loop goes on, and the status of the return otherwise. */
  method AnalyzeFrame(info: FileInfo, srcFile: File, garbage: bytes) returns (status: Status, more: bool)
    requires |garbage| == HEADER_MAX && |info.checksum| == 4
    modifies info, srcFile
    ensures srcFile.content == old(srcFile.content)
    ensures var step := OneFrame(srcFile.content, info.compressedSize, old(srcFile.pos), garbage, old(info.Value()));
      step == if more then Moved(srcFile.pos, info.Value()) else Ended(status, info.Value())
  {
    hide WalkZstd, WalkSkippable, LE;
    var data := srcFile.Read(HEADER_MAX);
    var n := |data|;
    var buffer := data + garbage[n..];
    if n < HEADER_MIN {
      return AtEnd(n, srcFile.pos, info.compressedSize), false;
    }
    var magicNumber := LE(buffer[..4]);
    if magicNumber == MAGIC {
      more := AnalyzeZstd(info, srcFile, buffer, n);
      status := FrameError;
    } else if magicNumber / 16 == SKIPPABLE_MAGIC {
      AnalyzeSkippable(info, srcFile, buffer, n);
      status, more := Success, true;
    } else {
      status, more := NotZstd, false;
    }
  }
}
