/** The benchmark cuts its input files into chunks and lays them out in the source, compressed and
    result buffers; the tables and the compressed buffer were sized beforehand by other formulas. */
module ChunkLayout {
  import opened Arithmetic
  import opened Bytes

  const MAX_INPUT_SIZE: nat := 0xFF00_FF00_FF00_FF00
  const U64_LIMIT: nat := 0x1_0000_0000_0000_0000

  /** ZSTD_compressBound, 0 standing for the error code. */
  function CompressBound(n: nat): nat {
    if MAX_INPUT_SIZE <= n then 0
    else n + n / 256 + if n < 128 * KB then (128 * KB - n) / 2048 else 0
  }

  lemma BoundIsLinear(n: nat)
    requires n < MAX_INPUT_SIZE
    ensures n + n / 256 <= CompressBound(n) <= n + n / 256 + 64
    ensures CompressBound(n) < U64_LIMIT
  {
  }

  /** The bound holds for a frame of stored blocks of 128 KB, with the largest header and a checksum. */
  lemma StoredFrameFits(n: nat)
    requires n < MAX_INPUT_SIZE
    ensures 18 + (n + 3 * (n / (128 * KB) + 1)) + 4 <= CompressBound(n)
  {
  }

  /** From 128 KB on, the bounds of two parts are no more than the bound of both. */
  lemma BoundsAdd(a: nat, b: nat)
    requires 128 * KB <= a && 128 * KB <= b && a + b < MAX_INPUT_SIZE
    ensures CompressBound(a) + CompressBound(b) <= CompressBound(a + b)
  {
  }

  // ---- What is allocated ----

  /** Does the benchmark compress its input, or is the input already compressed? */
  datatype Mode = Compresses | DecodeOnly

  /** The chunk size in force: small sizes mean "one chunk a file", and so does decoding only; never 0. */
  function ChunkSize(mode: Mode, requested: nat, srcSize: nat): (c: nat)
    ensures 0 < c
  {
    (if 32 <= requested && mode.Compresses? then requested else srcSize) + if srcSize == 0 then 1 else 0
  }

  function Total(fileSizes: seq<nat>): nat {
    if fileSizes == [] then 0 else fileSizes[0] + Total(fileSizes[1..])
  }

  /** How many chunks there can be. */
  function ChunkCount(srcSize: nat, chunkSize: nat, nbFiles: nat): nat
    requires 0 < chunkSize
  {
    (srcSize + (chunkSize - 1)) / chunkSize + nbFiles
  }

  /** The same as a U32: the size of the tables. */
  function NbChunksMax(srcSize: nat, chunkSize: nat, nbFiles: nat): nat
    requires 0 < chunkSize
  {
    ((srcSize + (chunkSize - 1)) / chunkSize % U32_LIMIT + nbFiles) % U32_LIMIT
  }

  /** The size of the compressed buffer; the product of a U32 and a constant is a U32. */
  function MaxCompressedSize(srcSize: nat, nbChunksMax: nat): nat {
    CompressBound(srcSize) + nbChunksMax * 1024 % U32_LIMIT
  }

  lemma CountIsNotReduced(srcSize: nat, chunkSize: nat, nbFiles: nat)
    requires 0 < chunkSize && ChunkCount(srcSize, chunkSize, nbFiles) < U32_LIMIT
    ensures NbChunksMax(srcSize, chunkSize, nbFiles) == ChunkCount(srcSize, chunkSize, nbFiles)
  {
  }

  // ---- What is laid out ----

  /** An entry of the six parallel tables; pointers are offsets into their buffers. */
  datatype Chunk = Chunk(src: nat, size: nat, c: nat, capacity: nat, res: nat, resSize: nat)

  /** The three pointers that the loops bump. */
  datatype Cursor = Cursor(src: nat, c: nat, res: nat)

  function Next(p: Cursor, size: nat): Cursor {
    Cursor(p.src + size, p.c + CompressBound(size), p.res + size)
  }

  function FileChunks(p: Cursor, remaining: nat, max: nat): seq<Chunk>
    requires 0 < max
    decreases remaining
  {
    if remaining == 0 then []
    else
      var size := Min(remaining, max);
      [Chunk(p.src, size, p.c, CompressBound(size), p.res, size)] + FileChunks(Next(p, size), remaining - size, max)
  }

  function AfterFile(p: Cursor, remaining: nat, max: nat): Cursor
    requires 0 < max
    decreases remaining
  {
    if remaining == 0 then p
    else
      var size := Min(remaining, max);
      AfterFile(Next(p, size), remaining - size, max)
  }

  function Layout(p: Cursor, fileSizes: seq<nat>, max: nat): seq<Chunk>
    requires 0 < max
    decreases |fileSizes|
  {
    if fileSizes == [] then []
    else FileChunks(p, fileSizes[0], max) + Layout(AfterFile(p, fileSizes[0], max), fileSizes[1..], max)
  }

  /** How many chunks `n` bytes make. */
  function NumChunks(n: nat, max: nat): nat
    requires 0 < max
  {
    if n == 0 then 0 else if n <= max then 1 else 1 + NumChunks(n - max, max)
  }

  lemma {:induction false} NumChunksIsCeiling(n: nat, max: nat)
    requires 0 < max
    ensures NumChunks(n, max) == (n + (max - 1)) / max
  {
    if n == 0 {
      SmallDiv(max - 1, max);
    } else {
      DivStep(n + (max - 1), max);
      if n <= max {
        SmallDiv(n - 1, max);
      } else {
        NumChunksIsCeiling(n - max, max);
      }
    }
  }

  lemma {:induction false} NumChunksMonotone(m: nat, n: nat, max: nat)
    requires 0 < max && m <= n
    ensures NumChunks(m, max) <= NumChunks(n, max)
  {
    if max < m {
      NumChunksMonotone(m - max, n - max, max);
    }
  }

  /** Cutting two files separately costs at most one chunk more than cutting them as one. */
  lemma {:induction false} NumChunksSubadditive(a: nat, b: nat, max: nat)
    requires 0 < max
    ensures NumChunks(a, max) + NumChunks(b, max) <= NumChunks(a + b, max) + 1
  {
    if a <= max {
      NumChunksMonotone(b, a + b, max);
    } else {
      NumChunksSubadditive(a - max, b, max);
    }
  }

  lemma {:induction false} FileChunksCount(p: Cursor, remaining: nat, max: nat)
    requires 0 < max
    ensures |FileChunks(p, remaining, max)| == NumChunks(remaining, max)
    decreases remaining
  {
    if remaining != 0 {
      var size := Min(remaining, max);
      FileChunksCount(Next(p, size), remaining - size, max);
    }
  }

  /** The tables are long enough. */
  lemma {:induction false} ChunksFitTables(p: Cursor, fileSizes: seq<nat>, max: nat)
    requires 0 < max
    ensures |Layout(p, fileSizes, max)| <= NumChunks(Total(fileSizes), max) + |fileSizes|
    ensures |Layout(p, fileSizes, max)| <= ChunkCount(Total(fileSizes), max, |fileSizes|)
    decreases |fileSizes|
  {
    NumChunksIsCeiling(Total(fileSizes), max);
    if fileSizes != [] {
      FileChunksCount(p, fileSizes[0], max);
      ChunksFitTables(AfterFile(p, fileSizes[0], max), fileSizes[1..], max);
      NumChunksSubadditive(fileSizes[0], Total(fileSizes[1..]), max);
    }
  }

  // ---- Where the chunks are ----

  /** The chunks follow each other without a gap or an overlap in all three buffers, from `p` to `q`. */
  predicate Tiles(p: Cursor, chunks: seq<Chunk>, q: Cursor)
    decreases |chunks|
  {
    if chunks == [] then p == q
    else
      var k := chunks[0];
      && k.src == p.src && k.c == p.c && k.res == p.res
      && k.capacity == CompressBound(k.size) && k.resSize == k.size && 0 < k.size
      && Tiles(Next(p, k.size), chunks[1..], q)
  }

  lemma {:induction false} TilesAppend(p: Cursor, a: seq<Chunk>, q: Cursor, b: seq<Chunk>, r: Cursor)
    requires Tiles(p, a, q) && Tiles(q, b, r)
    ensures Tiles(p, a + b, r)
    decreases |a|
  {
    if a == [] {
      assert a + b == b;
    } else {
      TilesAppend(Next(p, a[0].size), a[1..], q, b, r);
      assert (a + b)[1..] == a[1..] + b;
    }
  }

  lemma {:induction false} FileTiles(p: Cursor, remaining: nat, max: nat)
    requires 0 < max
    ensures Tiles(p, FileChunks(p, remaining, max), AfterFile(p, remaining, max))
    ensures AfterFile(p, remaining, max).src == p.src + remaining && AfterFile(p, remaining, max).res == p.res + remaining
    ensures forall k <- FileChunks(p, remaining, max) :: k.size <= max && p.src <= k.src && k.src + k.size <= p.src + remaining
    decreases remaining
  {
    hide CompressBound;
    if remaining != 0 {
      var size := Min(remaining, max);
      FileTiles(Next(p, size), remaining - size, max);
    }
  }

  function End(p: Cursor, fileSizes: seq<nat>, max: nat): Cursor
    requires 0 < max
    decreases |fileSizes|
  {
    if fileSizes == [] then p else End(AfterFile(p, fileSizes[0], max), fileSizes[1..], max)
  }

  lemma {:induction false} LayoutTiles(p: Cursor, fileSizes: seq<nat>, max: nat)
    requires 0 < max
    ensures Tiles(p, Layout(p, fileSizes, max), End(p, fileSizes, max))
    ensures End(p, fileSizes, max).src == p.src + Total(fileSizes) && End(p, fileSizes, max).res == p.res + Total(fileSizes)
    decreases |fileSizes|
  {
    if fileSizes != [] {
      var q := AfterFile(p, fileSizes[0], max);
      FileTiles(p, fileSizes[0], max);
      LayoutTiles(q, fileSizes[1..], max);
      TilesAppend(p, FileChunks(p, fileSizes[0], max), q, Layout(q, fileSizes[1..], max), End(p, fileSizes, max));
    }
  }

  /** The compressed regions of chunks that tile `n` bytes end no further than this. */
  lemma {:induction false} CapacityIsBounded(p: Cursor, chunks: seq<Chunk>, q: Cursor)
    requires Tiles(p, chunks, q) && q.src < MAX_INPUT_SIZE
    ensures p.src <= q.src && p.c <= q.c <= p.c + (q.src - p.src) + (q.src - p.src) / 256 + 64 * |chunks|
    decreases |chunks|
  {
    if chunks != [] {
      var size := chunks[0].size;
      CapacityIsBounded(Next(p, size), chunks[1..], q);
      BoundIsLinear(size);
      QuotientsAdd(size, q.src - p.src - size);
    }
  }

  lemma QuotientsAdd(a: nat, b: nat)
    ensures a / 256 + b / 256 <= (a + b) / 256
  {
  }

  /** In order, disjoint and inside: what two chunks of a tiling have to do with each other. */
  lemma {:induction false} TiledChunks(p: Cursor, chunks: seq<Chunk>, q: Cursor, i: nat, j: nat)
    requires Tiles(p, chunks, q) && i < j < |chunks|
    ensures var a, b := chunks[i], chunks[j];
      && p.src <= a.src && a.src + a.size <= b.src && p.res <= a.res && a.res + a.resSize <= b.res
      && p.c <= a.c && a.c + a.capacity <= b.c
    ensures chunks[j].c + chunks[j].capacity <= q.c && chunks[j].src + chunks[j].size <= q.src
    decreases j
  {
    var rest := Next(p, chunks[0].size);
    if 0 < i {
      TiledChunks(rest, chunks[1..], q, i - 1, j - 1);
    } else if 1 < j {
      TiledChunks(rest, chunks[1..], q, 0, j - 1);
    } else {
      TilesEnd(Next(rest, chunks[1].size), chunks[2..], q);
      assert chunks[1..][1..] == chunks[2..];
    }
  }

  lemma {:induction false} TilesEnd(p: Cursor, chunks: seq<Chunk>, q: Cursor)
    requires Tiles(p, chunks, q)
    ensures p.src <= q.src && p.c <= q.c && p.res <= q.res
    decreases |chunks|
  {
    if chunks != [] {
      TilesEnd(Next(p, chunks[0].size), chunks[1..], q);
    }
  }

  /** The chunk lies inside one file, the files being laid end to end from `base` on. */
  predicate InOneFile(k: Chunk, base: nat, fileSizes: seq<nat>)
    decreases |fileSizes|
  {
    fileSizes != []
    && ((base <= k.src && k.src + k.size <= base + fileSizes[0]) || InOneFile(k, base + fileSizes[0], fileSizes[1..]))
  }

  /** No chunk is larger than the chunk size, and none crosses from one file into the next. */
  lemma {:induction false} ChunksRespectFiles(p: Cursor, fileSizes: seq<nat>, max: nat)
    requires 0 < max
    ensures forall k <- Layout(p, fileSizes, max) :: 0 < k.size <= max && InOneFile(k, p.src, fileSizes)
    decreases |fileSizes|
  {
    if fileSizes != [] {
      var q := AfterFile(p, fileSizes[0], max);
      FileTiles(p, fileSizes[0], max);
      NoEmptyChunk(p, fileSizes[0], max);
      ChunksRespectFiles(q, fileSizes[1..], max);
    }
  }

  lemma {:induction false} NoEmptyChunk(p: Cursor, remaining: nat, max: nat)
    requires 0 < max
    ensures forall k <- FileChunks(p, remaining, max) :: 0 < k.size
    decreases remaining
  {
    if remaining != 0 {
      var size := Min(remaining, max);
      NoEmptyChunk(Next(p, size), remaining - size, max);
    }
  }

  /** The chunk ends where a file ends, the files being laid end to end from `base` on. */
  predicate EndsAFile(k: Chunk, base: nat, fileSizes: seq<nat>)
    decreases |fileSizes|
  {
    fileSizes != [] && (k.src + k.size == base + fileSizes[0] || EndsAFile(k, base + fileSizes[0], fileSizes[1..]))
  }

  /** The chunk is a whole file. */
  predicate IsAFile(k: Chunk, base: nat, fileSizes: seq<nat>)
    decreases |fileSizes|
  {
    && fileSizes != []
    && ((k.src == base && k.size == fileSizes[0]) || IsAFile(k, base + fileSizes[0], fileSizes[1..]))
  }

  lemma {:induction false} FileIsCut(p: Cursor, remaining: nat, max: nat)
    requires 0 < max
    ensures forall k <- FileChunks(p, remaining, max) :: k.size == max || k.src + k.size == p.src + remaining
    ensures remaining <= max ==> forall k <- FileChunks(p, remaining, max) :: k.src == p.src && k.size == remaining
    decreases remaining
  {
    if remaining != 0 {
      var size := Min(remaining, max);
      FileIsCut(Next(p, size), remaining - size, max);
    }
  }

  lemma {:induction false} FilesAreCut(p: Cursor, fileSizes: seq<nat>, max: nat)
    requires 0 < max
    ensures forall k <- Layout(p, fileSizes, max) :: k.size == max || EndsAFile(k, p.src, fileSizes)
    ensures Total(fileSizes) <= max ==> forall k <- Layout(p, fileSizes, max) :: IsAFile(k, p.src, fileSizes)
    decreases |fileSizes|
  {
    if fileSizes != [] {
      FileTiles(p, fileSizes[0], max);
      FileIsCut(p, fileSizes[0], max);
      FilesAreCut(AfterFile(p, fileSizes[0], max), fileSizes[1..], max);
    }
  }

  /** When a chunk size of 32 or more is requested for compression, every chunk has it that does not end its file;
      otherwise every chunk is a file. */
  lemma {:induction false} ChunksAsRequested(mode: Mode, requested: nat, p: Cursor, fileSizes: seq<nat>)
    ensures var chunks := Layout(p, fileSizes, ChunkSize(mode, requested, Total(fileSizes)));
      if 32 <= requested && mode.Compresses? then
        forall k <- chunks :: k.size == requested || (k.size < requested && EndsAFile(k, p.src, fileSizes))
      else forall k <- chunks :: IsAFile(k, p.src, fileSizes)
  {
    var max := ChunkSize(mode, requested, Total(fileSizes));
    FilesAreCut(p, fileSizes, max);
    ChunksRespectFiles(p, fileSizes, max);
    if Total(fileSizes) == 0 {
      NothingToCut(p, fileSizes, max);
    }
  }

  lemma {:induction false} NothingToCut(p: Cursor, fileSizes: seq<nat>, max: nat)
    requires 0 < max && Total(fileSizes) == 0
    ensures Layout(p, fileSizes, max) == []
    decreases |fileSizes|
  {
    if fileSizes != [] {
      NothingToCut(AfterFile(p, fileSizes[0], max), fileSizes[1..], max);
    }
  }

  // ---- When the chunks fit the tables ----

  /** Cutting two files as one never takes more chunks. */
  lemma {:induction false} NumChunksAdd(a: nat, b: nat, max: nat)
    requires 0 < max
    ensures NumChunks(a + b, max) <= NumChunks(a, max) + NumChunks(b, max)
  {
    if a <= max {
      NumChunksMonotone(a + b, max + b, max);
    } else {
      NumChunksAdd(a - max, b, max);
    }
  }

  lemma {:induction false} AtLeastTheCeiling(p: Cursor, fileSizes: seq<nat>, max: nat)
    requires 0 < max
    ensures NumChunks(Total(fileSizes), max) <= |Layout(p, fileSizes, max)|
    decreases |fileSizes|
  {
    if fileSizes != [] {
      FileChunksCount(p, fileSizes[0], max);
      AtLeastTheCeiling(AfterFile(p, fileSizes[0], max), fileSizes[1..], max);
      NumChunksAdd(fileSizes[0], Total(fileSizes[1..]), max);
    }
  }

  /** The tables are long enough exactly when their length was computed without a wrap. */
  lemma {:induction false} TablesFitIff(p: Cursor, fileSizes: seq<nat>, max: nat)
    requires 0 < max && |fileSizes| < U32_LIMIT
    ensures |Layout(p, fileSizes, max)| <= NbChunksMax(Total(fileSizes), max, |fileSizes|)
       <==> ChunkCount(Total(fileSizes), max, |fileSizes|) < U32_LIMIT
  {
    ChunksFitTables(p, fileSizes, max);
    AtLeastTheCeiling(p, fileSizes, max);
    NumChunksIsCeiling(Total(fileSizes), max);
    WrappedSum(NumChunks(Total(fileSizes), max), |fileSizes|);
    hide Layout, Total, NumChunks;
  }

  /** A sum that wraps is below its first summand. */
  lemma WrappedSum(q: nat, n: nat)
    requires n < U32_LIMIT
    ensures q + n < U32_LIMIT ==> (q % U32_LIMIT + n) % U32_LIMIT == q + n
    ensures U32_LIMIT <= q + n ==> (q % U32_LIMIT + n) % U32_LIMIT < q
  {
  }

  // ---- When the compressed regions fit their buffer ----

  /** What the chunks of one file need: whole chunks, and the rest. */
  function FileNeeds(n: nat, max: nat): nat
    requires 0 < max
  {
    Times(n / max, CompressBound(max)) + if n % max == 0 then 0 else CompressBound(n % max)
  }

  function Times(k: nat, size: nat): nat {
    k * size
  }

  function CapacityNeeded(fileSizes: seq<nat>, max: nat): nat
    requires 0 < max
  {
    if fileSizes == [] then 0 else FileNeeds(fileSizes[0], max) + CapacityNeeded(fileSizes[1..], max)
  }

  lemma {:induction false} FileEndsAt(p: Cursor, n: nat, max: nat)
    requires 0 < max
    ensures AfterFile(p, n, max).c == p.c + FileNeeds(n, max)
    decreases n
  {
    hide CompressBound;
    if max < n {
      FileEndsAt(Next(p, max), n - max, max);
      NeedsStep(n, max);
    } else if n == max {
      DivStep(n, max);
      SmallDiv(0, max);
    } else {
      SmallDiv(n, max);
    }
  }

  lemma NeedsStep(n: nat, max: nat)
    requires 0 < max <= n
    ensures FileNeeds(n, max) == CompressBound(max) + FileNeeds(n - max, max)
  {
    hide CompressBound;
    DivStep(n, max);
    var q := (n - max) / max;
    OneMoreTime(max, q);
    OneMoreTime(CompressBound(max), q);
    assert n % max == n - max * (q + 1) == (n - max) % max;
  }

  /** The end of the compressed regions in closed form. */
  lemma {:induction false} RegionsEndAt(p: Cursor, fileSizes: seq<nat>, max: nat)
    requires 0 < max
    ensures End(p, fileSizes, max).c == p.c + CapacityNeeded(fileSizes, max)
    decreases |fileSizes|
  {
    hide FileNeeds, AfterFile;
    if fileSizes != [] {
      FileEndsAt(p, fileSizes[0], max);
      RegionsEndAt(AfterFile(p, fileSizes[0], max), fileSizes[1..], max);
    }
  }

  lemma MarginSuffices(srcSize: nat, chunks: nat, nbChunksMax: nat)
    requires srcSize < MAX_INPUT_SIZE && chunks <= nbChunksMax < 0x40_0000
    ensures srcSize + srcSize / 256 + 64 * chunks <= MaxCompressedSize(srcSize, nbChunksMax)
  {
    BoundIsLinear(srcSize);
    hide CompressBound;
    assert nbChunksMax * 1024 % U32_LIMIT == nbChunksMax * 1024;
  }

  /** The sums of size_t do not wrap either, as long as the sizes stay below 2^63. */
  lemma SumsFit(srcSize: nat, max: nat, nbChunksMax: nat)
    requires 0 < max && srcSize < U64_LIMIT / 2 && max < U64_LIMIT / 2
    ensures srcSize + (max - 1) < U64_LIMIT
    ensures MaxCompressedSize(srcSize, nbChunksMax) < U64_LIMIT
  {
    BoundIsLinear(srcSize);
  }

  // ---- What the loops write, with their 32-bit counters ----

  function Capacity(mode: Mode, size: nat): nat {
    if mode.DecodeOnly? then size else CompressBound(size)
  }

  /** The entry for a chunk: `content` is the decompressed size, which only decoding needs. */
  function Entry(mode: Mode, p: Cursor, size: nat, content: nat): Chunk {
    Chunk(p.src, size, p.c, Capacity(mode, size), p.res, if mode.DecodeOnly? then content else size)
  }

  function Advance(mode: Mode, p: Cursor, size: nat): Cursor {
    Cursor(p.src + size, p.c + Capacity(mode, size), p.res + size)
  }

  /** `count` turns of the inner loop. */
  function Emit(mode: Mode, p: Cursor, remaining: nat, content: nat, max: nat, count: nat): (chunks: seq<Chunk>)
    ensures |chunks| == count
    decreases count
  {
    if count == 0 then []
    else
      var size := Min(remaining, max);
      [Entry(mode, p, size, content)] + Emit(mode, Advance(mode, p, size), remaining - size, content, max, count - 1)
  }

  function AfterEmit(mode: Mode, p: Cursor, remaining: nat, max: nat, count: nat): Cursor
    decreases count
  {
    if count == 0 then p
    else
      var size := Min(remaining, max);
      AfterEmit(mode, Advance(mode, p, size), remaining - size, max, count - 1)
  }

  /** How many turns the inner loop makes for a file of `n` bytes: the count and the index of its end are
      both 32 bits wide. */
  function Turns(mode: Mode, id: nat, n: nat, max: nat): (k: nat)
    requires 0 < max && id < U32_LIMIT
    ensures id + k < U32_LIMIT
  {
    var count := if mode.DecodeOnly? then 1 else (n + (max - 1)) / max % U32_LIMIT;
    var end := (id + count) % U32_LIMIT;
    if id < end then end - id else 0
  }

  function CodeLayout(mode: Mode, p: Cursor, id: nat, fileSizes: seq<nat>, contents: seq<nat>, max: nat): (chunks: seq<Chunk>)
    requires 0 < max && id < U32_LIMIT && |contents| == |fileSizes|
    ensures id + |chunks| < U32_LIMIT
    decreases |fileSizes|
  {
    if fileSizes == [] then []
    else
      var n := fileSizes[0];
      var k := Turns(mode, id, n, max);
      Emit(mode, p, n, contents[0], max, k)
      + CodeLayout(mode, AfterEmit(mode, p, n, max, k), id + k, fileSizes[1..], contents[1..], max)
  }

  function CodeEnd(mode: Mode, p: Cursor, id: nat, fileSizes: seq<nat>, max: nat): Cursor
    requires 0 < max && id < U32_LIMIT
    decreases |fileSizes|
  {
    if fileSizes == [] then p
    else
      var k := Turns(mode, id, fileSizes[0], max);
      CodeEnd(mode, AfterEmit(mode, p, fileSizes[0], max, k), id + k, fileSizes[1..], max)
  }

  /** Without a wrap a file gets all its chunks; with one it gets fewer. */
  lemma TurnsAreChunks(id: nat, n: nat, max: nat)
    requires 0 < max && id < U32_LIMIT
    ensures Turns(Compresses, id, n, max) <= NumChunks(n, max)
    ensures id + NumChunks(n, max) < U32_LIMIT ==> Turns(Compresses, id, n, max) == NumChunks(n, max)
  {
    NumChunksIsCeiling(n, max);
    hide NumChunks;
    WrappedEnd(id, NumChunks(n, max));
  }

  lemma WrappedEnd(id: nat, n: nat)
    requires id < U32_LIMIT
    ensures var end := (id + n % U32_LIMIT) % U32_LIMIT; end <= id + n && (id + n < U32_LIMIT ==> end == id + n)
  {
  }

  /** All turns give the chunks of the file; fewer turns leave bytes behind. */
  lemma {:induction false} EmitIsFileChunks(p: Cursor, n: nat, content: nat, max: nat, k: nat)
    requires 0 < max && k <= NumChunks(n, max)
    ensures AfterEmit(Compresses, p, n, max, k).src <= p.src + n
    ensures k == NumChunks(n, max) <==> AfterEmit(Compresses, p, n, max, k).src == p.src + n
    ensures k == NumChunks(n, max) ==> Emit(Compresses, p, n, content, max, k) == FileChunks(p, n, max)
    ensures k == NumChunks(n, max) ==> AfterEmit(Compresses, p, n, max, k) == AfterFile(p, n, max)
    decreases k
  {
    hide CompressBound;
    if k != 0 {
      var size := Min(n, max);
      assert Advance(Compresses, p, size) == Next(p, size);
      EmitIsFileChunks(Next(p, size), n - size, content, max, k - 1);
    }
  }

  /** The loops come to the end of the input exactly when they write the whole layout. */
  lemma {:induction false} CompleteIffLayout(p: Cursor, id: nat, fileSizes: seq<nat>, contents: seq<nat>, max: nat)
    requires 0 < max && id < U32_LIMIT && |contents| == |fileSizes|
    ensures CodeEnd(Compresses, p, id, fileSizes, max).src <= p.src + Total(fileSizes)
    ensures CodeEnd(Compresses, p, id, fileSizes, max).src == p.src + Total(fileSizes) ==>
      && CodeLayout(Compresses, p, id, fileSizes, contents, max) == Layout(p, fileSizes, max)
      && CodeEnd(Compresses, p, id, fileSizes, max) == End(p, fileSizes, max)
    ensures id + |Layout(p, fileSizes, max)| < U32_LIMIT ==>
      CodeEnd(Compresses, p, id, fileSizes, max).src == p.src + Total(fileSizes)
    decreases |fileSizes|
  {
    hide CompressBound, FileChunks, AfterFile, NumChunks, Turns, Emit, AfterEmit;
    if fileSizes != [] {
      var n := fileSizes[0];
      var k := Turns(Compresses, id, n, max);
      TurnsAreChunks(id, n, max);
      EmitIsFileChunks(p, n, contents[0], max, k);
      FileChunksCount(p, n, max);
      assert |Layout(p, fileSizes, max)| == NumChunks(n, max) + |Layout(AfterFile(p, n, max), fileSizes[1..], max)|;
      var q := AfterEmit(Compresses, p, n, max, k);
      CompleteIffLayout(q, id + k, fileSizes[1..], contents[1..], max);
      assert CodeEnd(Compresses, p, id, fileSizes, max) == CodeEnd(Compresses, q, id + k, fileSizes[1..], max);
    }
  }

  /** The loops lay out the whole input, inside the tables, exactly when the number of chunks counted
      beforehand is below 2^32; what they write is then the layout above. */
  lemma {:induction false} TablesHoldLayoutIff(fileSizes: seq<nat>, contents: seq<nat>, max: nat)
    requires 0 < max && |contents| == |fileSizes| < U32_LIMIT
    ensures var p := Cursor(0, 0, 0);
      var chunks := CodeLayout(Compresses, p, 0, fileSizes, contents, max);
      var end := CodeEnd(Compresses, p, 0, fileSizes, max);
      var counted := ChunkCount(Total(fileSizes), max, |fileSizes|) < U32_LIMIT;
      && (|chunks| <= NbChunksMax(Total(fileSizes), max, |fileSizes|) && end.src == Total(fileSizes) <==> counted)
      && (counted ==> chunks == Layout(p, fileSizes, max) && end == End(p, fileSizes, max))
  {
    var p := Cursor(0, 0, 0);
    CompleteIffLayout(p, 0, fileSizes, contents, max);
    TablesFitIff(p, fileSizes, max);
    ChunksFitTables(p, fileSizes, max);
    hide Layout, CodeLayout, CodeEnd, End, Total, NbChunksMax, ChunkCount, NumChunks;
  }

  /** Everything fits what was allocated, exactly when the number of chunks is below 2^32 and the bounds of
      the chunks add up to no more than the compressed buffer. */
  lemma {:induction false} FitsIff(fileSizes: seq<nat>, contents: seq<nat>, requested: nat)
    requires |contents| == |fileSizes| < U32_LIMIT
    ensures var srcSize := Total(fileSizes);
      var max := ChunkSize(Compresses, requested, srcSize);
      var nbChunksMax := NbChunksMax(srcSize, max, |fileSizes|);
      var chunks := CodeLayout(Compresses, Cursor(0, 0, 0), 0, fileSizes, contents, max);
      var end := CodeEnd(Compresses, Cursor(0, 0, 0), 0, fileSizes, max);
      (&& |chunks| <= nbChunksMax && Tiles(Cursor(0, 0, 0), chunks, end)
       && end.src == end.res == srcSize && end.c <= MaxCompressedSize(srcSize, nbChunksMax))
      <==> (&& ChunkCount(srcSize, max, |fileSizes|) < U32_LIMIT
            && CapacityNeeded(fileSizes, max) <= MaxCompressedSize(srcSize, nbChunksMax))
  {
    var srcSize := Total(fileSizes);
    var max := ChunkSize(Compresses, requested, srcSize);
    var p := Cursor(0, 0, 0);
    TablesHoldLayoutIff(fileSizes, contents, max);
    LayoutTiles(p, fileSizes, max);
    RegionsEndAt(p, fileSizes, max);
    hide Layout, CodeLayout, CodeEnd, End, Total, NbChunksMax, ChunkCount, CapacityNeeded, MaxCompressedSize, Tiles;
  }

  /** Below 2^22 chunks it does. */
  lemma {:induction false} LayoutFits(fileSizes: seq<nat>, contents: seq<nat>, requested: nat)
    requires |contents| == |fileSizes| && Total(fileSizes) < MAX_INPUT_SIZE
    requires ChunkCount(Total(fileSizes), ChunkSize(Compresses, requested, Total(fileSizes)), |fileSizes|) < 0x40_0000
    ensures var srcSize := Total(fileSizes);
      var max := ChunkSize(Compresses, requested, srcSize);
      var chunks := CodeLayout(Compresses, Cursor(0, 0, 0), 0, fileSizes, contents, max);
      var end := CodeEnd(Compresses, Cursor(0, 0, 0), 0, fileSizes, max);
      var nbChunksMax := NbChunksMax(srcSize, max, |fileSizes|);
      && |chunks| <= nbChunksMax && Tiles(Cursor(0, 0, 0), chunks, end)
      && end.src == end.res == srcSize && end.c <= MaxCompressedSize(srcSize, nbChunksMax)
  {
    var srcSize := Total(fileSizes);
    var max := ChunkSize(Compresses, requested, srcSize);
    var p := Cursor(0, 0, 0);
    assert |fileSizes| < U32_LIMIT;
    CountIsNotReduced(srcSize, max, |fileSizes|);
    ChunksFitTables(p, fileSizes, max);
    LayoutTiles(p, fileSizes, max);
    RegionsEndAt(p, fileSizes, max);
    hide NbChunksMax, ChunkCount, ChunkSize;
    CapacityIsBounded(p, Layout(p, fileSizes, max), End(p, fileSizes, max));
    MarginSuffices(srcSize, |Layout(p, fileSizes, max)|, NbChunksMax(srcSize, max, |fileSizes|));
    FitsIff(fileSizes, contents, requested);
    hide MaxCompressedSize, Layout, End, Tiles, Total, CodeLayout, CodeEnd, CapacityNeeded;
  }

  /** From 2^22 chunks on it may not: the margin of 1 KB a chunk wraps to nothing. One file of 2^22 - 1
      chunks of 32 bytes needs more than twice the buffer it gets. */
  lemma CompressedSizeWraps()
    ensures var n := 32 * 0x3F_FFFF;
      && ChunkCount(n, 32, 1) == NbChunksMax(n, 32, 1) == 0x40_0000
      && 2 * MaxCompressedSize(n, NbChunksMax(n, 32, 1)) < CapacityNeeded([n], 32)
  {
    var n := 32 * 0x3F_FFFF;
    assert CompressBound(32) == 95;
    assert (n + 31) / 32 == 0x3F_FFFF;
    assert n / 32 == 0x3F_FFFF && n % 32 == 0;
    assert FileNeeds(n, 32) == 0x3F_FFFF * 95;
    assert CapacityNeeded([n][1..], 32) == 0;
  }

  /** From 2^32 chunks on the tables are too short or the layout is not written: one file of 2^32 - 1 chunks
      gets tables without an entry, and the loop writes them all; with one chunk more the loop writes none. */
  lemma TableSizeWraps()
    ensures NbChunksMax(32 * 0xFFFF_FFFF, 32, 1) == 0
    ensures |CodeLayout(Compresses, Cursor(0, 0, 0), 0, [32 * 0xFFFF_FFFF], [0], 32)| == 0xFFFF_FFFF
    ensures CodeLayout(Compresses, Cursor(0, 0, 0), 0, [32 * U32_LIMIT], [0], 32) == []
  {
    hide Emit, AfterEmit;
    var p := Cursor(0, 0, 0);
    assert (32 * 0xFFFF_FFFF + 31) / 32 == 0xFFFF_FFFF && (32 * U32_LIMIT + 31) / 32 == U32_LIMIT;
    OneFile(p, 32 * 0xFFFF_FFFF, 32);
    OneFile(p, 32 * U32_LIMIT, 32);
  }

  lemma OneFile(p: Cursor, n: nat, max: nat)
    requires 0 < max
    ensures |CodeLayout(Compresses, p, 0, [n], [0], max)| == Turns(Compresses, 0, n, max)
  {
    hide Emit, AfterEmit;
    assert [n][1..] == [] && [0][1..] == [];
  }

  // ---- Decoding only ----

  /** One chunk a file, whatever is in it. */
  lemma {:induction false} DecodeLayoutIs(p: Cursor, id: nat, fileSizes: seq<nat>, contents: seq<nat>, max: nat)
    requires 0 < max && |contents| == |fileSizes| && id + |fileSizes| < U32_LIMIT
    requires Total(fileSizes) <= max
    ensures var chunks := CodeLayout(DecodeOnly, p, id, fileSizes, contents, max);
      && |chunks| == |fileSizes|
      && forall i | 0 <= i < |chunks| :: chunks[i] == DecodeChunk(p, fileSizes, contents, i)
    decreases |fileSizes|
  {
    if fileSizes != [] {
      var n := fileSizes[0];
      var q := Advance(DecodeOnly, p, n);
      var rest := CodeLayout(DecodeOnly, q, id + 1, fileSizes[1..], contents[1..], max);
      OneTurn(p, n, contents[0], max);
      DecodeLayoutIs(q, id + 1, fileSizes[1..], contents[1..], max);
      assert CodeLayout(DecodeOnly, p, id, fileSizes, contents, max) == [Entry(DecodeOnly, p, n, contents[0])] + rest;
      hide CodeLayout, Emit, AfterEmit, Total;
      var chunks := [Entry(DecodeOnly, p, n, contents[0])] + rest;
      forall i | 0 <= i < |chunks| ensures chunks[i] == DecodeChunk(p, fileSizes, contents, i) {
        if i != 0 {
          NextDecodeChunk(p, fileSizes, contents, i);
        } else {
          FirstDecodeChunk(p, fileSizes, contents);
        }
      }
    }
  }

  lemma FirstDecodeChunk(p: Cursor, fileSizes: seq<nat>, contents: seq<nat>)
    requires 0 < |fileSizes| == |contents|
    ensures DecodeChunk(p, fileSizes, contents, 0) == Entry(DecodeOnly, p, fileSizes[0], contents[0])
  {
  }

  lemma NextDecodeChunk(p: Cursor, fileSizes: seq<nat>, contents: seq<nat>, i: nat)
    requires 0 < i < |fileSizes| == |contents|
    ensures DecodeChunk(p, fileSizes, contents, i)
         == DecodeChunk(Advance(DecodeOnly, p, fileSizes[0]), fileSizes[1..], contents[1..], i - 1)
  {
    assert fileSizes[..i][1..] == fileSizes[1..][..i - 1];
  }

  lemma OneTurn(p: Cursor, n: nat, content: nat, max: nat)
    requires n <= max
    ensures Emit(DecodeOnly, p, n, content, max, 1) == [Entry(DecodeOnly, p, n, content)]
    ensures AfterEmit(DecodeOnly, p, n, max, 1) == Advance(DecodeOnly, p, n)
  {
    assert Emit(DecodeOnly, Advance(DecodeOnly, p, n), 0, content, max, 0) == [];
  }

  /** The entry for file `i`: all three pointers have advanced by the compressed sizes. */
  function DecodeChunk(p: Cursor, fileSizes: seq<nat>, contents: seq<nat>, i: nat): Chunk
    requires i < |fileSizes| == |contents|
  {
    var before := Total(fileSizes[..i]);
    Chunk(p.src + before, fileSizes[i], p.c + before, fileSizes[i], p.res + before, contents[i])
  }

  lemma {:induction false} TotalSplits(s: seq<nat>, i: nat)
    requires i <= |s|
    ensures Total(s) == Total(s[..i]) + Total(s[i..])
  {
    if i == 0 {
      assert s[..0] == [] && s[0..] == s;
    } else {
      TotalSplits(s[1..], i - 1);
      assert s[..i][1..] == s[1..][..i - 1] && s[1..][i - 1..] == s[i..];
    }
  }

  lemma {:induction false} EqualIfNoLess(a: seq<nat>, b: seq<nat>)
    requires |a| == |b| && Total(b) <= Total(a)
    requires forall i | 0 <= i < |a| :: a[i] <= b[i]
    ensures forall i | 0 <= i < |a| :: a[i] == b[i]
    ensures Total(a) == Total(b)
  {
    if a != [] {
      NoMore(a[1..], b[1..]);
      EqualIfNoLess(a[1..], b[1..]);
    }
  }

  lemma {:induction false} NoMore(a: seq<nat>, b: seq<nat>)
    requires |a| == |b|
    requires forall i | 0 <= i < |a| :: a[i] <= b[i]
    ensures Total(a) <= Total(b)
  {
    if a != [] {
      NoMore(a[1..], b[1..]);
    }
  }

  /** The result regions lie in order, without an overlap, inside a buffer of `size` bytes. */
  predicate ResultsFit(chunks: seq<Chunk>, size: nat) {
    && (forall i, j | 0 <= i < j < |chunks| :: chunks[i].res + chunks[i].resSize <= chunks[j].res)
    && (forall i | 0 <= i < |chunks| :: chunks[i].res + chunks[i].resSize <= size)
  }

  /** Each file but the last is as large as what it decodes to. */
  predicate SameButLast(fileSizes: seq<nat>, contents: seq<nat>)
    requires |fileSizes| == |contents|
  {
    forall i | 0 <= i < |fileSizes| - 1 :: contents[i] == fileSizes[i]
  }

  /** Decoding only: the result regions fit the buffer, which is as large as the contents together, exactly
      when every file but the last is as large as its contents; the pointer to the results advances by
      the wrong size. */
  lemma {:induction false} DecodedFitsIff(fileSizes: seq<nat>, contents: seq<nat>, requested: nat)
    requires |contents| == |fileSizes| < U32_LIMIT
    ensures var max := ChunkSize(DecodeOnly, requested, Total(fileSizes));
      ResultsFit(CodeLayout(DecodeOnly, Cursor(0, 0, 0), 0, fileSizes, contents, max), Total(contents))
      <==> SameButLast(fileSizes, contents)
  {
    var p := Cursor(0, 0, 0);
    var max := ChunkSize(DecodeOnly, requested, Total(fileSizes));
    var chunks := CodeLayout(DecodeOnly, p, 0, fileSizes, contents, max);
    DecodeLayoutIs(p, 0, fileSizes, contents, max);
    hide CodeLayout, ChunkSize;
    if ResultsFit(chunks, Total(contents)) && fileSizes != [] {
      OnlyIfEqual(fileSizes, contents, chunks);
    }
    if SameButLast(fileSizes, contents) {
      IfEqual(fileSizes, contents, chunks);
    }
  }

  lemma {:induction false} OnlyIfEqual(fileSizes: seq<nat>, contents: seq<nat>, chunks: seq<Chunk>)
    requires |chunks| == |contents| == |fileSizes| > 0
    requires forall i | 0 <= i < |chunks| :: chunks[i] == DecodeChunk(Cursor(0, 0, 0), fileSizes, contents, i)
    requires ResultsFit(chunks, Total(contents))
    ensures SameButLast(fileSizes, contents)
  {
    hide Total;
    var last := |chunks| - 1;
    forall i | 0 <= i < last ensures contents[i] <= fileSizes[i] {
      assert chunks[i].res + contents[i] <= chunks[i + 1].res;
      NextTotal(fileSizes, i);
    }
    NextTotal(contents, last);
    assert contents[..last + 1] == contents;
    assert chunks[last].res + contents[last] <= Total(contents);
    EqualIfNoLess(contents[..last], fileSizes[..last]);
  }

  lemma {:induction false} IfEqual(fileSizes: seq<nat>, contents: seq<nat>, chunks: seq<Chunk>)
    requires |chunks| == |contents| == |fileSizes|
    requires forall i | 0 <= i < |chunks| :: chunks[i] == DecodeChunk(Cursor(0, 0, 0), fileSizes, contents, i)
    requires SameButLast(fileSizes, contents)
    ensures ResultsFit(chunks, Total(contents))
  {
    hide Total;
    forall i | 0 <= i < |chunks|
      ensures chunks[i].res + chunks[i].resSize <= Total(contents)
      ensures forall j | i < j < |chunks| :: chunks[i].res + chunks[i].resSize <= chunks[j].res
    {
      SamePrefix(fileSizes, contents, i);
      NextTotal(contents, i);
      TotalSplits(contents, i + 1);
      forall j | i < j < |chunks| ensures chunks[i].res + chunks[i].resSize <= chunks[j].res {
        NextTotal(fileSizes, i);
        TotalSplits(fileSizes[..j], i + 1);
        assert fileSizes[..j][..i + 1] == fileSizes[..i + 1];
      }
    }
  }

  lemma SamePrefix(fileSizes: seq<nat>, contents: seq<nat>, i: nat)
    requires |fileSizes| == |contents| && SameButLast(fileSizes, contents) && i < |contents|
    ensures contents[..i] == fileSizes[..i]
  {
  }

  lemma NextTotal(s: seq<nat>, i: nat)
    requires i < |s|
    ensures Total(s[..i + 1]) == Total(s[..i]) + s[i]
  {
    TotalSplits(s[..i + 1], i);
    assert s[..i + 1][..i] == s[..i] && s[..i + 1][i..] == [s[i]];
    assert Total([s[i]]) == s[i] + Total([s[i]][1..]);
  }

  /** What decoding only reads and copies fits: the tables exactly when their length does not wrap, and the
      buffer of the compressed size. */
  lemma {:induction false} DecodeInputFits(fileSizes: seq<nat>, contents: seq<nat>, requested: nat)
    requires |contents| == |fileSizes| < U32_LIMIT && Total(fileSizes) < MAX_INPUT_SIZE
    ensures var srcSize := Total(fileSizes);
      var max := ChunkSize(DecodeOnly, requested, srcSize);
      var chunks := CodeLayout(DecodeOnly, Cursor(0, 0, 0), 0, fileSizes, contents, max);
      var nbChunksMax := NbChunksMax(srcSize, max, |fileSizes|);
      && (|chunks| <= nbChunksMax <==> ChunkCount(srcSize, max, |fileSizes|) < U32_LIMIT)
      && forall i | 0 <= i < |chunks| ::
        && chunks[i].src + chunks[i].size <= srcSize
        && chunks[i].c + chunks[i].capacity <= MaxCompressedSize(srcSize, nbChunksMax)
  {
    var p := Cursor(0, 0, 0);
    var srcSize := Total(fileSizes);
    var max := ChunkSize(DecodeOnly, requested, srcSize);
    DecodeLayoutIs(p, 0, fileSizes, contents, max);
    BoundIsLinear(srcSize);
    hide CodeLayout, ChunkSize, CompressBound;
    EachFileInside(fileSizes);
    TablesOfFiles(srcSize, max, |fileSizes|);
    hide Total, NbChunksMax, ChunkCount;
  }

  lemma EachFileInside(fileSizes: seq<nat>)
    ensures forall i | 0 <= i < |fileSizes| :: Total(fileSizes[..i]) + fileSizes[i] <= Total(fileSizes)
  {
    hide Total;
    forall i | 0 <= i < |fileSizes| ensures Total(fileSizes[..i]) + fileSizes[i] <= Total(fileSizes) {
      NextTotal(fileSizes, i);
      TotalSplits(fileSizes, i + 1);
    }
  }

  lemma TablesOfFiles(srcSize: nat, max: nat, n: nat)
    requires max == srcSize + (if srcSize == 0 then 1 else 0) && n < U32_LIMIT
    ensures n <= NbChunksMax(srcSize, max, n) <==> ChunkCount(srcSize, max, n) < U32_LIMIT
  {
    OneChunkInAll(srcSize, max);
    WrappedSum((srcSize + (max - 1)) / max, n);
  }

  lemma OneChunkInAll(srcSize: nat, max: nat)
    requires max == srcSize + if srcSize == 0 then 1 else 0
    ensures (srcSize + (max - 1)) / max == if srcSize == 0 then 0 else 1
  {
    NumChunksIsCeiling(srcSize, max);
  }

  // ---- The C loops ----

  /** The parallel tables, of `nbChunksMax` entries each. */
  class Tables {
    const srcPtrs: array<nat>
    const srcSizes: array<nat>
    const cPtrs: array<nat>
    const cCapacities: array<nat>
    const resPtrs: array<nat>
    const resSizes: array<nat>

    constructor (nbChunksMax: nat)
      ensures Valid(nbChunksMax) && fresh(Repr())
    {
      srcPtrs, srcSizes := new nat[nbChunksMax], new nat[nbChunksMax];
      cPtrs, cCapacities := new nat[nbChunksMax], new nat[nbChunksMax];
      resPtrs, resSizes := new nat[nbChunksMax], new nat[nbChunksMax];
    }

    ghost function Repr(): set<object> {
      {srcPtrs, srcSizes, cPtrs, cCapacities, resPtrs, resSizes}
    }

    ghost predicate Valid(n: nat) {
      && srcPtrs.Length == srcSizes.Length == cPtrs.Length == cCapacities.Length == resPtrs.Length == resSizes.Length == n
      && |Repr()| == 6
    }

    /** The first `n` entries. */
    ghost function Entries(n: nat): (chunks: seq<Chunk>)
      requires n <= srcPtrs.Length && Valid(srcPtrs.Length)
      reads Repr()
    {
      seq(n, i requires 0 <= i < n reads Repr() =>
        Chunk(srcPtrs[i], srcSizes[i], cPtrs[i], cCapacities[i], resPtrs[i], resSizes[i]))
    }

    /** One entry of every table. */
    method Set(i: nat, k: Chunk)
      requires Valid(srcPtrs.Length) && i < srcPtrs.Length
      modifies Repr()
      ensures Entries(i + 1) == old(Entries(i)) + [k]
    {
      srcPtrs[i] := k.src;
      srcSizes[i] := k.size;
      cPtrs[i] := k.c;
      cCapacities[i] := k.capacity;
      resPtrs[i] := k.res;
      resSizes[i] := k.resSize;
    }
  }

  /** The chunks of one file: the inner loop, from `chunkID` on, with its 32-bit counters. */
  method LayOutFile(t: Tables, mode: Mode, start: Cursor, fileSize: nat, content: nat, chunkSizeMax: nat, firstID: nat)
    returns (p: Cursor, chunkID: nat)
    requires 0 < chunkSizeMax && t.Valid(t.srcPtrs.Length) && firstID < U32_LIMIT
    requires firstID + Turns(mode, firstID, fileSize, chunkSizeMax) <= t.srcPtrs.Length
    modifies t.Repr()
    ensures var k := Turns(mode, firstID, fileSize, chunkSizeMax);
      && chunkID == firstID + k && p == AfterEmit(mode, start, fileSize, chunkSizeMax, k)
      && t.Entries(chunkID) == old(t.Entries(firstID)) + Emit(mode, start, fileSize, content, chunkSizeMax, k)
  {
    var remaining: nat := fileSize;
    var nbChunksforThisFile := if mode.DecodeOnly? then 1 else (remaining + (chunkSizeMax - 1)) / chunkSizeMax % U32_LIMIT;
    var chunkIdEnd := (firstID + nbChunksforThisFile) % U32_LIMIT;
    ghost var k := Turns(mode, firstID, fileSize, chunkSizeMax);
    ghost var left := k;
    p, chunkID := start, firstID;
    assert left == if chunkID < chunkIdEnd then chunkIdEnd - chunkID else 0;
    ghost var all, end := t.Entries(firstID) + Emit(mode, start, fileSize, content, chunkSizeMax, k),
                          AfterEmit(mode, start, fileSize, chunkSizeMax, k);
    hide Turns, Capacity, Emit, AfterEmit;
    while chunkID < chunkIdEnd
      invariant firstID <= chunkID && left == (if chunkID < chunkIdEnd then chunkIdEnd - chunkID else 0)
      invariant chunkID + left == firstID + k && AfterEmit(mode, p, remaining, chunkSizeMax, left) == end
      invariant t.Entries(chunkID) + Emit(mode, p, remaining, content, chunkSizeMax, left) == all
    {
      EmitStep(mode, p, remaining, content, chunkSizeMax, left, t.Entries(chunkID));
      var chunkSize := Min(remaining, chunkSizeMax);
      t.Set(chunkID, Entry(mode, p, chunkSize, content));
      p := Advance(mode, p, chunkSize);
      remaining := remaining - chunkSize;
      chunkID := chunkID + 1;
      left := left - 1;
    }
    NothingEmitted(mode, p, remaining, content, chunkSizeMax);
  }

  lemma EmitStep(mode: Mode, p: Cursor, remaining: nat, content: nat, max: nat, left: nat, done: seq<Chunk>)
    requires 0 < left
    ensures var size := Min(remaining, max); var q := Advance(mode, p, size);
      && AfterEmit(mode, p, remaining, max, left) == AfterEmit(mode, q, remaining - size, max, left - 1)
      && done + Emit(mode, p, remaining, content, max, left)
         == (done + [Entry(mode, p, size, content)]) + Emit(mode, q, remaining - size, content, max, left - 1)
  {
    hide Capacity;
  }

  lemma NothingEmitted(mode: Mode, p: Cursor, remaining: nat, content: nat, max: nat)
    ensures Emit(mode, p, remaining, content, max, 0) == [] && AfterEmit(mode, p, remaining, max, 0) == p
  {
  }

  /** The chunk tables of BMK_benchMemAdvancedNoAlloc, for tables in which the entries written fit;
      `contents` are the decompressed sizes that ZSTD_findDecompressedSize finds in the files. */
  method LayOut(t: Tables, mode: Mode, fileSizes: seq<nat>, contents: seq<nat>, requested: nat, srcSize: nat)
    returns (nbChunks: nat)
    requires srcSize == Total(fileSizes) && |contents| == |fileSizes| && t.Valid(t.srcPtrs.Length)
    requires |CodeLayout(mode, Cursor(0, 0, 0), 0, fileSizes, contents, ChunkSize(mode, requested, srcSize))| <= t.srcPtrs.Length
    modifies t.Repr()
    ensures nbChunks <= t.srcPtrs.Length
    ensures t.Entries(nbChunks)
         == CodeLayout(mode, Cursor(0, 0, 0), 0, fileSizes, contents, ChunkSize(mode, requested, srcSize))
  {
    hide CodeLayout, ChunkSize;
    nbChunks := LayOutFiles(t, mode, fileSizes, contents, ChunkSize(mode, requested, srcSize));
  }

  /** The outer loop. */
  method LayOutFiles(t: Tables, mode: Mode, fileSizes: seq<nat>, contents: seq<nat>, chunkSizeMax: nat) returns (nbChunks: nat)
    requires 0 < chunkSizeMax && |contents| == |fileSizes| && t.Valid(t.srcPtrs.Length)
    requires |CodeLayout(mode, Cursor(0, 0, 0), 0, fileSizes, contents, chunkSizeMax)| <= t.srcPtrs.Length
    modifies t.Repr()
    ensures nbChunks <= t.srcPtrs.Length
    ensures t.Entries(nbChunks) == CodeLayout(mode, Cursor(0, 0, 0), 0, fileSizes, contents, chunkSizeMax)
  {
    hide Turns, Emit, AfterEmit, CodeLayout;
    var p, fileNb := Cursor(0, 0, 0), 0;
    ghost var all := CodeLayout(mode, p, 0, fileSizes, contents, chunkSizeMax);
    nbChunks := 0;
    assert fileSizes[0..] == fileSizes && contents[0..] == contents;
    while fileNb < |fileSizes|
      invariant fileNb <= |fileSizes| && nbChunks < U32_LIMIT && nbChunks <= |all| <= t.srcPtrs.Length
      invariant all == t.Entries(nbChunks) + CodeLayout(mode, p, nbChunks, fileSizes[fileNb..], contents[fileNb..], chunkSizeMax)
    {
      LayoutStep(mode, p, nbChunks, fileSizes, contents, fileNb, chunkSizeMax, t.Entries(nbChunks), all);
      p, nbChunks := LayOutFile(t, mode, p, fileSizes[fileNb], contents[fileNb], chunkSizeMax, nbChunks);
      fileNb := fileNb + 1;
    }
    NothingLeft(mode, p, nbChunks, chunkSizeMax);
  }

  lemma NothingLeft(mode: Mode, p: Cursor, id: nat, max: nat)
    requires 0 < max && id < U32_LIMIT
    ensures CodeLayout(mode, p, id, [], [], max) == []
  {
  }

  lemma LayoutStep(mode: Mode, p: Cursor, id: nat, fileSizes: seq<nat>, contents: seq<nat>, i: nat, max: nat,
                   done: seq<Chunk>, all: seq<Chunk>)
    requires 0 < max && id < U32_LIMIT && i < |fileSizes| == |contents| && |done| == id
    requires all == done + CodeLayout(mode, p, id, fileSizes[i..], contents[i..], max)
    ensures var k := Turns(mode, id, fileSizes[i], max);
      && id + k <= |all|
      && all == done + Emit(mode, p, fileSizes[i], contents[i], max, k)
              + CodeLayout(mode, AfterEmit(mode, p, fileSizes[i], max, k), id + k, fileSizes[i + 1..], contents[i + 1..], max)
  {
    hide Turns, Emit, AfterEmit;
    assert fileSizes[i..][1..] == fileSizes[i + 1..] && contents[i..][1..] == contents[i + 1..];
  }
}
