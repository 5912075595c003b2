/** Compression and decompression together: what the compression driver writes,
    the decompression driver reads back as the file it was made from. */
module RoundTrip {
  import opened Bytes
  import opened FileModel
  import opened Codec
  import opened ReadPoolCode
  import opened WritePoolCode
  import C = CompressDriver
  import D = DecompressDriver
  import R = ReadPool
  import RS = ReadPoolSafety
  import W = WritePool
  import WS = WritePoolSafety

  /** What the one codec calls a frame of `data`, the other decodes to `data`. */
  ghost predicate Agree<S, T>(z: Compressor<S>, d: Decompressor<T>) {
    forall f: bytes, data: bytes :: z.frame(f, data) ==> d.valid(f) && d.content(f) == data
  }

  lemma OneFrameExpected<S, T>(z: Compressor<S>, d: Decompressor<T>, f: bytes, data: bytes)
    requires Agree(z, d) && z.frame(f, data)
    ensures D.Expecting(d, f, 0, [f], []) && D.Contents(d, [f]) == data
  {
    assert Flatten([f]) == f + Flatten([]) == f;
    assert f[0..] == f;
    assert D.Contents(d, [f]) == d.content(f) + D.Contents(d, []);
  }

  lemma FailsOnMore<S(!new)>(z: Compressor<S>, capacity: nat, data: bytes, n: nat)
    requires n <= |data| && C.Failed(z, capacity, data[..n])
    ensures C.Failed(z, capacity, data) && !NeverFails(z)
  {
    var s: S, input: bytes, end: bool :| ErrorAt(z, s, input, capacity, end) && z.input(s) + input <= data[..n];
    assert z.input(s) + input <= data;
    C.FailedAt(z, s, input, capacity, end, data);
  }

  /** FIO_compressZstdFrame into a file and FIO_decompressFrames from it, for every codec that meets the streaming
      contract, every schedule of both pools, and sparse writing on either side or not. */
  method CompressThenDecompress<S(!new), T(!new)>(
      io: C.SyncCompressIO, z: Compressor<S>, s0: S, fileSize: nat, inSize: nat,
      r: ReadPoolCtx, w: WritePoolCtx, d: Decompressor<T>, t0: T, decodeSize: nat, blockSize: nat)
    returns (outcome: C.Outcome, error: bool)
    requires CompressContract(z) && DecompressContract(d) && Agree(z, d) && C.Session(z, s0, [], [], false)
    requires io.Valid() && io.srcBufferLoaded == io.storedSkips == 0 && !io.prefs.testMode && io.inBuffer.Length <= inSize
    requires io.dstFile.content == [] && io.dstFile.pos == io.srcFile.pos == 0
    requires |io.srcFile.content| < C.FILESIZE_UNKNOWN && (fileSize == C.FILESIZE_UNKNOWN || fileSize == |io.srcFile.content|)
    requires r.Valid() && (r.phase.Ready? || r.phase.Closed?) && 4 <= r.c.jobSize && 0 < decodeSize <= r.c.jobSize
    requires w.Valid() && w.phase.Resting? && w.submitted == [] && w.start == w.file.State()
    requires w.file.content == [] && !w.c.prefs.testMode && 0 < blockSize <= r.c.jobSize && blockSize <= w.c.jobSize
    requires {io, io.inBuffer, io.srcFile, io.dstFile} !! {r, r.coalesceBuffer, w, w.file}
    requires {r, r.coalesceBuffer} !! {w, w.file}
    modifies io, io.inBuffer, io.srcFile, io.dstFile, r, r.coalesceBuffer, w, w.file
    ensures outcome.Done? ==> !error && w.file.content == old(io.srcFile.content)
    ensures !outcome.Done? ==> outcome.CodecFailed? && C.Failed(z, io.outCapacity, old(io.srcFile.content))
    ensures NeverFails(z) ==> outcome.Done? && !error && w.file.content == old(io.srcFile.content)
  {
    hide CompressContract, DecompressContract, Agree, RS.Inv, WS.Inv, R.Run, R.Init, W.Run, W.Init, C.Failed, NeverFails;
    ghost var original := io.srcFile.content;
    var s, readsize;
    ghost var out, turns;
    outcome, s, readsize, out, turns := C.CompressZstdFrame(io, z, s0, fileSize, inSize);
    error := true;
    if outcome.CodecFailed? {
      FailsOnMore(z, io.outCapacity, original, readsize);
    }
    if outcome.Done? {
      assert original[..readsize] == original;
      OneFrameExpected(z, d, out, original);
      error := Restore(r, w, d, t0, io.dstFile.content, decodeSize, blockSize, original);
    }
  }

  /** The compressed file is read back. */
  method Restore<T(!new)>(r: ReadPoolCtx, w: WritePoolCtx, d: Decompressor<T>, t0: T, compressed: bytes,
                          decodeSize: nat, blockSize: nat, ghost original: bytes)
    returns (error: bool)
    requires DecompressContract(d) && D.Expecting(d, compressed, 0, [compressed], []) && D.Contents(d, [compressed]) == original
    requires r.Valid() && (r.phase.Ready? || r.phase.Closed?) && 4 <= r.c.jobSize && 0 < decodeSize <= r.c.jobSize
    requires w.Valid() && w.phase.Resting? && w.submitted == [] && w.start == w.file.State()
    requires w.file.content == [] && !w.c.prefs.testMode && 0 < blockSize <= r.c.jobSize && blockSize <= w.c.jobSize
    requires {r, r.coalesceBuffer} !! {w, w.file}
    modifies r, r.coalesceBuffer, w, w.file
    ensures !error && w.file.content == original
  {
    hide DecompressContract, D.Expecting, D.Contents, RS.Inv, WS.Inv, R.Run, R.Init, W.Run, W.Init;
    r.SetFile(Some(compressed));
    var filesize, t;
    ghost var done, tail;
    error, filesize, t, done, tail := D.DecompressFrames(r, w, d, t0, false, decodeSize, blockSize, [compressed], []);
    assert [] + (original + []) == original;
  }
}
