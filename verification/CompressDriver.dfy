/** FIO_compressZstdFrame and its synchronous I/O: the file is read through a sliding window, every
    window is handed to the codec until it is ingested, and what comes out is written sparsely. */
module CompressDriver {
  import opened Bytes
  import opened FileModel
  import opened SparseWriter
  import opened Codec

  const FILESIZE_UNKNOWN: nat := 0xFFFF_FFFF_FFFF_FFFF

  // ---- FIO_SyncCompressIO ----

  class SyncCompressIO {
    const srcFile: File
    const dstFile: File
    const prefs: Prefs
    const inBuffer: array<byte>
    const outCapacity: nat

    var srcBuffer: nat // an offset into inBuffer
    var srcBufferLoaded: nat
    var storedSkips: nat

    constructor (srcFile: File, dstFile: File, prefs: Prefs, inCapacity: nat, outCapacity: nat)
      requires srcFile != dstFile && 0 < inCapacity && 0 < outCapacity <= GB
      ensures Valid() && srcBufferLoaded == 0 && storedSkips == 0 && fresh(inBuffer)
      ensures this.srcFile == srcFile && this.dstFile == dstFile && this.prefs == prefs
      ensures inBuffer.Length == inCapacity
    {
      this.srcFile, this.dstFile, this.prefs, this.outCapacity := srcFile, dstFile, prefs, outCapacity;
      inBuffer := new byte[inCapacity];
      srcBuffer, srcBufferLoaded, storedSkips := 0, 0, 0;
    }

    ghost predicate Valid()
      reads this
    {
      && srcFile != dstFile && 0 < inBuffer.Length && 0 < outCapacity <= GB
      && srcBuffer + srcBufferLoaded <= inBuffer.Length && (srcBufferLoaded == 0 ==> srcBuffer == 0)
    }

    function Window(): bytes
      requires srcBuffer + srcBufferLoaded <= inBuffer.Length
      reads this, inBuffer
    {
      inBuffer[srcBuffer..srcBuffer + srcBufferLoaded]
    }

    /** `memmove(inBuffer, srcBuffer, srcBufferLoaded)` */
    method MoveToFront()
      requires Valid()
      modifies this`srcBuffer, inBuffer
      ensures Valid() && srcBuffer == 0 && Window() == old(Window())
    {
      var at, i := srcBuffer, 0;
      while i < srcBufferLoaded
        invariant i <= srcBufferLoaded
        invariant forall k :: 0 <= k < i ==> inBuffer[k] == old(inBuffer[at + k])
        invariant forall k :: i <= k < inBuffer.Length ==> inBuffer[k] == old(inBuffer[k])
      {
        inBuffer[i] := inBuffer[at + i];
        i := i + 1;
      }
      srcBuffer := 0;
    }

    /** `fread` behind the loaded bytes. */
    method ReadMore(toRead: nat) returns (readBytes: nat)
      requires Valid() && srcBuffer == 0 && 0 < srcBufferLoaded + toRead <= inBuffer.Length && srcFile.pos <= |srcFile.content|
      modifies this`srcBufferLoaded, inBuffer, srcFile
      ensures Valid() && srcFile.content == old(srcFile.content)
      ensures readBytes == Min(toRead, |srcFile.content| - old(srcFile.pos)) && srcBufferLoaded == old(srcBufferLoaded) + readBytes
      ensures srcFile.pos == old(srcFile.pos) + readBytes <= |srcFile.content|
      ensures Window() == old(Window()) + srcFile.content[old(srcFile.pos)..srcFile.pos]
    {
      var data := srcFile.Read(toRead);
      readBytes := |data|;
      Store(srcBufferLoaded, data);
      srcBufferLoaded := srcBufferLoaded + readBytes;
    }

    method Store(at: nat, data: bytes)
      requires at + |data| <= inBuffer.Length
      modifies inBuffer
      ensures inBuffer[..at + |data|] == old(inBuffer[..at]) + data
    {
      var i := 0;
      while i < |data|
        invariant i <= |data| && inBuffer[..at + i] == old(inBuffer[..at]) + data[..i]
      {
        inBuffer[at + i] := data[i];
        i := i + 1;
      }
      assert data[..i] == data;
    }

    /** FIO_SyncCompressIO_fillBuffer: the window grows by the next bytes of the file, until it has
        the wanted ones or the file has no more. */
    method FillBuffer(minToHave: nat) returns (added: nat)
      requires Valid() && srcFile.pos <= |srcFile.content|
      modifies this`srcBuffer, this`srcBufferLoaded, inBuffer, srcFile
      ensures Valid() && srcFile.content == old(srcFile.content)
      ensures srcFile.pos == old(srcFile.pos) + added <= |srcFile.content| && srcBufferLoaded == old(srcBufferLoaded) + added
      ensures Window() == old(Window()) + srcFile.content[old(srcFile.pos)..srcFile.pos]
      ensures old(srcBufferLoaded) < Min(minToHave, inBuffer.Length) ==>
        added == Min(inBuffer.Length - old(srcBufferLoaded), |srcFile.content| - old(srcFile.pos))
      ensures Min(minToHave, inBuffer.Length) <= srcBufferLoaded || srcFile.pos == |srcFile.content|
    {
      added := 0;
      var want := Min(minToHave, inBuffer.Length);
      assert Window() + srcFile.content[srcFile.pos..srcFile.pos] == Window();
      if want <= srcBufferLoaded {
        return;
      }
      if srcBuffer != 0 {
        MoveToFront();
      }
      added := FillLoop(want);
    }

    method FillLoop(want: nat) returns (added: nat)
      requires Valid() && srcBuffer == 0 && srcFile.pos <= |srcFile.content| && srcBufferLoaded < want <= inBuffer.Length
      modifies this`srcBufferLoaded, inBuffer, srcFile
      ensures Valid() && srcFile.content == old(srcFile.content)
      ensures added == Min(inBuffer.Length - old(srcBufferLoaded), |srcFile.content| - old(srcFile.pos))
      ensures srcFile.pos == old(srcFile.pos) + added <= |srcFile.content| && srcBufferLoaded == old(srcBufferLoaded) + added
      ensures Window() == old(Window()) + srcFile.content[old(srcFile.pos)..srcFile.pos]
    {
      added := 0;
      assert Window() + srcFile.content[srcFile.pos..srcFile.pos] == Window();
      while srcBufferLoaded < want
        invariant Valid() && srcBuffer == 0 && srcFile.content == old(srcFile.content)
        invariant srcFile.pos == old(srcFile.pos) + added <= |srcFile.content| && srcBufferLoaded == old(srcBufferLoaded) + added
        invariant Window() == old(Window()) + srcFile.content[old(srcFile.pos)..srcFile.pos]
        invariant added == 0 || srcBufferLoaded == inBuffer.Length
      {
        var toRead := inBuffer.Length - srcBufferLoaded;
        var readBytes := ReadMore(toRead);
        if readBytes == 0 {
          break;
        }
        added := added + readBytes;
        if readBytes < toRead {
          break;
        }
      }
    }

    /** FIO_SyncCompressIO_consumeBytes */
    method ConsumeBytes(n: nat)
      requires Valid() && n <= srcBufferLoaded
      modifies this`srcBuffer, this`srcBufferLoaded
      ensures Valid() && Window() == old(Window())[n..]
    {
      SliceTail(inBuffer[..], srcBuffer, srcBuffer + srcBufferLoaded, n);
      assert Window() == inBuffer[..][srcBuffer..srcBuffer + srcBufferLoaded];
      srcBuffer := srcBuffer + n;
      srcBufferLoaded := srcBufferLoaded - n;
      assert Window() == inBuffer[..][srcBuffer..srcBuffer + srcBufferLoaded];
      if srcBufferLoaded == 0 {
        srcBuffer := 0;
        assert Window() == [];
      }
    }

    /** What was committed so far is `out`, behind what the file had when `start` was its state. */
    ghost predicate Committed(start: FileState, out: bytes)
      reads this`storedSkips, dstFile
    {
      var k := Sink(dstFile.State(), storedSkips);
      if prefs.testMode then k == Sink(start, 0)
      else Inv(k) && Logical(k) == start.content + out && k.skips <= 2 * GB && (!prefs.sparse ==> k.skips == 0)
    }

    /** FIO_SyncCompressIO_commitOut */
    method CommitOut(data: bytes, ghost start: FileState, ghost out: bytes)
      requires Valid() && Committed(start, out) && |data| <= outCapacity
      modifies this`storedSkips, dstFile
      ensures Valid() && Committed(start, out + data) && Window() == old(Window())
    {
      hide SparseWrite, Logical, SparseWriter.Inv;
      if data == [] {
        assert out + data == out;
        return;
      }
      ghost var k := Sink(dstFile.State(), storedSkips);
      ConcatAssociates(start.content, out, data);
      if !prefs.testMode {
        SparseWriteAppends(prefs, k, data);
      } else {
        TestWrite(prefs, k, data);
      }
      storedSkips := FwriteSparse(dstFile, data, prefs, storedSkips);
    }

    /** FIO_SyncCompressIO_finish */
    method Finish(ghost start: FileState, ghost out: bytes)
      requires Valid() && Committed(start, out)
      modifies this`storedSkips, dstFile
      ensures Valid() && storedSkips == 0
      ensures dstFile.content == if prefs.testMode then start.content else start.content + out
    {
      hide SparseEnd, Logical, SparseWriter.Inv;
      if !prefs.testMode {
        SparseEndMaterialises(Sink(dstFile.State(), storedSkips));
        FwriteSparseEnd(dstFile, storedSkips);
        storedSkips := 0;
      }
    }
  }

  lemma SliceTail(s: bytes, a: nat, b: nat, n: nat)
    requires a + n <= b <= |s|
    ensures s[a..b][n..] == s[a + n..b]
  {
    var t := s[a..b];
    forall k | 0 <= k < b - a - n ensures t[n..][k] == s[a + n..b][k] {
      assert t[n..][k] == t[n + k] == s[a + n + k];
    }
  }

  lemma TestWrite(prefs: Prefs, k: Sink, data: bytes)
    requires prefs.testMode
    ensures SparseWrite(prefs, k, data) == Sink(k.file, 0)
  {
  }

  // ---- FIO_compressZstdFrame ----

  /** A call of the codec: with ZSTD_e_end or not, and how much of the file had been read. */
  datatype Call = Call(end: bool, read: nat)

  datatype Outcome = Done(compressedSize: nat) | CodecFailed | IncompleteRead

  /** The session stands where `data` was taken and `out` was given, in a frame still open. */
  ghost predicate Session<S>(z: Compressor<S>, s: S, data: bytes, out: bytes, ending: bool) {
    z.input(s) == data && z.output(s) == out && z.open(s) && z.ending(s) == ending
  }

  ghost predicate Finished<S>(z: Compressor<S>, s: S, data: bytes, out: bytes) {
    z.input(s) == data && z.output(s) == out && z.frame(out, data)
  }

  /** While compressing `data` a call, on the bytes that follow those taken before, was answered with an error. */
  ghost predicate Failed<S(!new)>(z: Compressor<S>, capacity: nat, data: bytes) {
    exists s: S, input: bytes, end: bool :: ErrorAt(z, s, input, capacity, end) && z.input(s) + input <= data
  }

  lemma NoFailure<S(!new)>(z: Compressor<S>, capacity: nat, data: bytes)
    requires NeverFails(z)
    ensures !Failed(z, capacity, data)
  {
  }

  lemma FailedAt<S(!new)>(z: Compressor<S>, s: S, input: bytes, capacity: nat, end: bool, data: bytes)
    requires ErrorAt(z, s, input, capacity, end) && z.input(s) + input <= data
    ensures Failed(z, capacity, data)
  {
  }

  lemma Law<S(!new)>(z: Compressor<S>, s: S, input: bytes, capacity: nat, end: bool)
    requires CompressContract(z)
    ensures CompressLaw(z, s, input, capacity, end)
  {
  }

  /** One call of the codec and what the law says of it. */
  lemma CallIs<S(!new)>(z: Compressor<S>, s: S, data: bytes, out: bytes, ending: bool, window: bytes, capacity: nat, end: bool)
    requires CompressContract(z) && Session(z, s, data, out, ending) && (ending ==> end)
    requires 0 < capacity && (window != [] || end) && z.stream2(s, window, capacity, end).Answer?
    ensures var a := z.stream2(s, window, capacity, end);
      && a.consumed <= |window| && |a.out| <= capacity
      && (if end && a.remaining == 0
          then a.consumed == |window| && Finished(z, a.state, data + window, out + a.out)
          else Session(z, a.state, data + window[..a.consumed], out + a.out, end))
      && (a.consumed == 0 && !(end && a.remaining == 0) ==> z.credit(a.state) < z.credit(s))
  {
    hide CompressContract;
    Law(z, s, window, capacity, end);
    var a := z.stream2(s, window, capacity, end);
    if a.consumed == |window| {
      assert window[..a.consumed] == window;
    }
  }

  lemma OpenCallFails<S(!new)>(z: Compressor<S>, s: S, data: bytes, out: bytes, ending: bool, window: bytes, capacity: nat, end: bool)
    requires Session(z, s, data, out, ending) && (ending ==> end) && 0 < capacity && (window != [] || end)
    requires z.stream2(s, window, capacity, end).CodecError?
    ensures Failed(z, capacity, data + window)
  {
    FailedAt(z, s, window, capacity, end, data + window);
  }

  /** One turn of the inner loop: a call, the consumption of what it took, the commitment of what it gave. */
  method CompressOnce<S(!new)>(io: SyncCompressIO, z: Compressor<S>, s: S, window: bytes, end: bool,
                               ghost start: FileState, ghost data: bytes, ghost out: bytes, ghost ending: bool)
    returns (a: Answer<S>)
    requires CompressContract(z) && Session(z, s, data, out, ending) && (ending ==> end)
    requires io.Valid() && io.Committed(start, out) && io.Window() == window && (end || window != [])
    modifies io`srcBuffer, io`srcBufferLoaded, io`storedSkips, io.dstFile
    ensures io.Valid()
    ensures a.CodecError? ==> Failed(z, io.outCapacity, data + window)
    ensures a.Answer? ==>
      && a.consumed <= |window| && io.Window() == window[a.consumed..] && io.Committed(start, out + a.out)
      && (if end && a.remaining == 0
          then a.consumed == |window| && Finished(z, a.state, data + window, out + a.out)
          else Session(z, a.state, data + window[..a.consumed], out + a.out, end))
      && (a.consumed == 0 && !(end && a.remaining == 0) ==> z.credit(a.state) < z.credit(s))
  {
    hide CompressContract, Session, Finished, Failed;
    a := z.stream2(s, window, io.outCapacity, end);
    if a.Answer? {
      CallIs(z, s, data, out, ending, window, io.outCapacity, end);
      TakeAndGive(io, a.consumed, a.out, window, start, out);
    } else {
      OpenCallFails(z, s, data, out, ending, window, io.outCapacity, end);
    }
  }

  /** What a call took is consumed, and what it gave is committed. */
  method TakeAndGive(io: SyncCompressIO, consumed: nat, data: bytes, ghost window: bytes, ghost start: FileState, ghost out: bytes)
    requires io.Valid() && io.Committed(start, out) && io.Window() == window && consumed <= |window| && |data| <= io.outCapacity
    modifies io`srcBuffer, io`srcBufferLoaded, io`storedSkips, io.dstFile
    ensures io.Valid() && io.Window() == window[consumed..] && io.Committed(start, out + data)
  {
    assert |io.Window()| == io.srcBufferLoaded;
    hide SyncCompressIO.Window, SyncCompressIO.Committed, SyncCompressIO.Valid;
    io.ConsumeBytes(consumed);
    io.CommitOut(data, start, out);
  }

  /** The inner loop: the whole window is ingested and, with ZSTD_e_end, the frame completed. */
  method CompressWindow<S(!new)>(io: SyncCompressIO, z: Compressor<S>, s0: S, end: bool,
                                 ghost start: FileState, ghost data: bytes, ghost out: bytes)
    returns (ok: bool, s: S, produced: nat, ghost written: bytes)
    requires CompressContract(z) && Session(z, s0, data, out, false)
    requires io.Valid() && io.Committed(start, out) && (end || 0 < io.srcBufferLoaded)
    modifies io`srcBuffer, io`srcBufferLoaded, io`storedSkips, io.dstFile
    ensures io.Valid()
    ensures !ok ==> Failed(z, io.outCapacity, data + old(io.Window()))
    ensures ok ==> io.srcBufferLoaded == 0 && io.Committed(start, out + written) && produced == |written|
    ensures ok && !end ==> Session(z, s, data + old(io.Window()), out + written, false)
    ensures ok && end ==> Finished(z, s, data + old(io.Window()), out + written)
  {
    hide CompressContract, Session, Finished, Failed;
    s, produced, written := s0, 0, [];
    var inBuff := io.Window();
    var pos := 0;
    var stillToFlush := 1;
    ghost var ending, taken, given := false, data, out;
    ghost var all := data + inBuff;
    assert inBuff[0..] == inBuff && out + [] == out;
    hide SyncCompressIO.Committed, SyncCompressIO.Window;
    while pos != |inBuff| || (end && stillToFlush != 0)
      invariant io.Valid() && pos <= |inBuff| && io.Window() == inBuff[pos..]
      invariant taken + inBuff[pos..] == all && given == out + written
      invariant io.Committed(start, given) && produced == |written| && (ending ==> end)
      invariant end && stillToFlush == 0 ==> pos == |inBuff| && Finished(z, s, all, given)
      invariant !(end && stillToFlush == 0) ==> Session(z, s, taken, given, ending)
      decreases |inBuff| - pos, if end && stillToFlush == 0 then 0 else 1, z.credit(s)
    {
      var a := CompressOnce(io, z, s, inBuff[pos..], end, start, taken, given, ending);
      if a.CodecError? {
        return false, s, produced, written;
      }
      Regroup(taken, inBuff, pos, a.consumed);
      ConcatAssociates(out, written, a.out);
      taken, given := taken + inBuff[pos..][..a.consumed], given + a.out;
      s, pos, stillToFlush := a.state, pos + a.consumed, a.remaining;
      produced, written, ending := produced + |a.out|, written + a.out, end;
    }
    ok := true;
    assert taken == all by {
      assert inBuff[pos..] == [];
    }
    WindowIsEmpty(io);
  }

  lemma WindowIsEmpty(io: SyncCompressIO)
    requires io.Valid() && io.Window() == []
    ensures io.srcBufferLoaded == 0
  {
  }

  lemma Regroup(taken: bytes, buffer: bytes, pos: nat, n: nat)
    requires pos + n <= |buffer|
    ensures taken + buffer[pos..][..n] + buffer[pos + n..] == taken + buffer[pos..]
    ensures buffer[pos..][n..] == buffer[pos + n..]
  {
  }

  /** `n` is a positive number of whole windows, or none. */
  predicate Multiple(n: nat, window: nat)
    requires 0 < window
  {
    n == 0 || (window <= n && Multiple(n - window, window))
  }

  lemma {:induction false} MultipleAdds(n: nat, window: nat)
    requires 0 < window && Multiple(n, window)
    ensures Multiple(n + window, window)
  {
  }

  lemma {:induction false} MultipleGap(m: nat, n: nat, window: nat)
    requires 0 < window && Multiple(m, window) && Multiple(n, window) && m < n
    ensures m + window <= n
  {
    if m != 0 {
      MultipleGap(m - window, n - window, window);
    }
  }

  /** The declared size is a whole number of windows, and less than there is. */
  predicate StopsShort(fileSize: nat, available: nat, window: nat)
    requires 0 < window
  {
    0 < fileSize < available && Multiple(fileSize, window)
  }

  /** It can happen: a file that grew by one byte after its size of one window was taken. */
  lemma GrownFileStopsShort(window: nat)
    requires 0 < window
    ensures StopsShort(window, window + 1, window)
  {
    assert Multiple(window - window, window);
  }

  /** The directive was ZSTD_e_continue until the last turn, which began with `read` bytes read. */
  predicate EndsLast(turns: seq<Call>, read: nat) {
    && turns != [] && turns[|turns| - 1] == Call(true, read)
    && forall i :: 0 <= i < |turns| - 1 ==> !turns[i].end
  }

  /** FIO_compressZstdFrame: the output is one frame of the bytes that were read, each presented once and in order,
      ZSTD_e_end is not used before the last of them was read, and the returned size is what was committed. */
  method CompressZstdFrame<S(!new)>(io: SyncCompressIO, z: Compressor<S>, s0: S, fileSize: nat, inSize: nat)
    returns (outcome: Outcome, s: S, readsize: nat, ghost out: bytes, ghost turns: seq<Call>)
    requires CompressContract(z) && Session(z, s0, [], [], false) && io.inBuffer.Length <= inSize
    requires io.Valid() && io.srcBufferLoaded == 0 && io.storedSkips == 0
    requires io.dstFile.pos == |io.dstFile.content| && fileSize <= FILESIZE_UNKNOWN
    requires io.srcFile.pos <= |io.srcFile.content| < FILESIZE_UNKNOWN
    modifies io, io.inBuffer, io.srcFile, io.dstFile
    ensures io.srcFile.content == old(io.srcFile.content) && readsize <= |old(Rest(io.srcFile))|
    ensures outcome.Done? ==>
      && Finished(z, s, old(Rest(io.srcFile))[..readsize], out)
      && outcome.compressedSize == |out| && EndsLast(turns, readsize)
      && io.dstFile.content == old(io.dstFile.content) + (if io.prefs.testMode then [] else out)
      && (fileSize != FILESIZE_UNKNOWN ==> readsize == fileSize)
      && (readsize == |old(Rest(io.srcFile))| <==> !StopsShort(fileSize, |old(Rest(io.srcFile))|, io.inBuffer.Length))
    ensures outcome.CodecFailed? ==> Failed(z, io.outCapacity, old(Rest(io.srcFile))[..readsize])
    ensures outcome.IncompleteRead? ==>
      && fileSize != FILESIZE_UNKNOWN && fileSize != |old(Rest(io.srcFile))|
      && !StopsShort(fileSize, |old(Rest(io.srcFile))|, io.inBuffer.Length)
  {
    hide CompressContract, Session, Finished, Failed;
    var directive := false;
    var compressed := 0;
    s, readsize, out, turns := s0, 0, [], [];
    ghost var start := io.dstFile.State();
    ghost var rest := Rest(io.srcFile);
    CommitsNothing(io, start);
    assert rest[..0] == [];
    while !directive
      invariant io.Valid() && io.srcBufferLoaded == 0 && io.srcFile.content == old(io.srcFile.content)
      invariant readsize <= |rest| && io.srcFile.pos == old(io.srcFile.pos) + readsize
      invariant directive ==> io.Committed(start, out) && Finished(z, s, rest[..readsize], out) && EndsLast(turns, readsize)
      invariant !directive ==> io.Committed(start, out) && Session(z, s, rest[..readsize], out, false)
      invariant !directive ==> forall call <- turns :: !call.end
      invariant compressed == |out|
      invariant readsize == |rest| || Multiple(readsize, io.inBuffer.Length)
      invariant directive ==> readsize == |rest| || 0 < readsize == fileSize
      invariant StopsShort(fileSize, |rest|, io.inBuffer.Length) ==> if directive then readsize == fileSize else readsize < fileSize
      decreases if directive then 0 else 1, |rest| - readsize
    {
      var ok, produced;
      ghost var written;
      ghost var before := readsize;
      directive, readsize := FillTurn(io, fileSize, inSize, readsize, rest);
      turns := turns + [Call(directive, readsize)];
      ok, s, produced, written := CompressWindow(io, z, s, directive, start, rest[..before], out);
      if !ok {
        return CodecFailed, s, readsize, out, turns;
      }
      compressed, out := compressed + produced, out + written;
    }
    if fileSize != FILESIZE_UNKNOWN && readsize != fileSize {
      return IncompleteRead, s, readsize, out, turns;
    }
    io.Finish(start, out);
    outcome := Done(compressed);
  }

  /** The beginning of a turn: the window is filled and the directive chosen. */
  method FillTurn(io: SyncCompressIO, fileSize: nat, inSize: nat, before: nat, ghost rest: bytes)
    returns (end: bool, readsize: nat)
    requires io.Valid() && io.srcBufferLoaded == 0 && io.inBuffer.Length <= inSize
    requires before <= |rest| && io.srcFile.pos <= |io.srcFile.content| && Rest(io.srcFile) == rest[before..]
    requires before == |rest| || Multiple(before, io.inBuffer.Length)
    modifies io`srcBuffer, io`srcBufferLoaded, io.inBuffer, io.srcFile
    ensures io.Valid() && io.srcFile.content == old(io.srcFile.content) && before <= readsize <= |rest|
    ensures io.srcFile.pos == old(io.srcFile.pos) + readsize - before <= |io.srcFile.content|
    ensures Rest(io.srcFile) == rest[readsize..] && rest[..before] + io.Window() == rest[..readsize]
    ensures readsize == |rest| || Multiple(readsize, io.inBuffer.Length)
    ensures end <==> io.srcBufferLoaded == 0 || readsize == fileSize
    ensures end ==> readsize == |rest| || 0 < readsize == fileSize
    ensures io.srcBufferLoaded == readsize - before
    ensures StopsShort(fileSize, |rest|, io.inBuffer.Length) && before < fileSize ==>
      readsize <= fileSize && (end <==> readsize == fileSize)
  {
    var added := io.FillBuffer(inSize);
    readsize := before + added;
    end := io.srcBufferLoaded == 0 || readsize == fileSize;
    if Multiple(before, io.inBuffer.Length) {
      MultipleAdds(before, io.inBuffer.Length);
    }
    if StopsShort(fileSize, |rest|, io.inBuffer.Length) && before < fileSize {
      MultipleGap(before, fileSize, io.inBuffer.Length);
    }
    RestMoves(io.srcFile.content, old(io.srcFile.pos), io.srcFile.pos, rest, before);
    assert io.Window() == io.srcFile.content[old(io.srcFile.pos)..io.srcFile.pos];
  }

  lemma RestMoves(content: bytes, p: nat, q: nat, rest: bytes, before: nat)
    requires p <= q <= |content| && before <= |rest| && content[p..] == rest[before..]
    ensures var after := before + (q - p);
      after <= |rest| && content[q..] == rest[after..] && rest[..before] + content[p..q] == rest[..after]
  {
    assert content[q..] == content[p..][q - p..];
    assert content[p..q] == content[p..][..q - p];
  }

  /** The bytes of the file that are still to be read. */
  function Rest(file: File): bytes
    reads file
  {
    if file.pos <= |file.content| then file.content[file.pos..] else []
  }

  lemma CommitsNothing(io: SyncCompressIO, start: FileState)
    requires io.storedSkips == 0 && io.dstFile.State() == start && start.pos == |start.content|
    ensures io.Committed(start, [])
  {
    NothingOwed(Sink(start, 0));
    assert start.content + [] == start.content;
  }
}
