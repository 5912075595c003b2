/** Training samples for a dictionary: DiB_fileStats plans how many there will be and how large they are
    together, the sample buffer and the table of sizes are allocated from that, and DiB_loadFiles fills them. */
module DictSamples {
  import opened Bytes
  import C = ChunkLayout

  const SAMPLESIZE_MAX: nat := 128 * KB

  /** A file whose size could be had, by its content. */
  type SampleFile = Option<bytes>

  function Content(f: SampleFile): bytes {
    if f.Some? then f.value else []
  }

  // ---- The plan ----

  datatype FileStats = FileStats(totalSizeToLoad: nat, nbSamples: nat, oneSampleTooLarge: bool)

  /** What one file adds. */
  function StatsOf(f: SampleFile, chunkSize: nat): FileStats {
    var n := |Content(f)|;
    if n == 0 then FileStats(0, 0, false)
    else if 0 < chunkSize then FileStats(n, (n + (chunkSize - 1)) / chunkSize, false)
    else FileStats(Min(n, SAMPLESIZE_MAX), 1, 2 * SAMPLESIZE_MAX < n)
  }

  function Plus(a: FileStats, b: FileStats): FileStats {
    FileStats(a.totalSizeToLoad + b.totalSizeToLoad, a.nbSamples + b.nbSamples, a.oneSampleTooLarge || b.oneSampleTooLarge)
  }

  function Plan(files: seq<SampleFile>, chunkSize: nat): FileStats {
    if files == [] then FileStats(0, 0, false) else Plus(StatsOf(files[0], chunkSize), Plan(files[1..], chunkSize))
  }

  // ---- The loader ----

  datatype Loaded = Loaded(data: bytes, sizes: seq<nat>)

  function Take(l: Loaded, sample: bytes): Loaded {
    Loaded(l.data + sample, l.sizes + [|sample|])
  }

  /** More samples from a file of which `at` bytes were loaded. */
  function LoadRest(file: bytes, at: nat, chunkSize: nat, capacity: nat, sstSize: nat, l: Loaded): Loaded
    requires 0 < chunkSize && at <= |file|
    decreases |file| - at
  {
    if at == |file| || sstSize <= |l.sizes| then l
    else
      var size := Min(|file| - at, chunkSize);
      if capacity < |l.data| + size then l
      else LoadRest(file, at + size, chunkSize, capacity, sstSize, Take(l, file[at..at + size]))
  }

  /** When a first sample does not fit, loading is over; when a later one does not, the next file is tried. */
  function Load(files: seq<SampleFile>, chunkSize: nat, capacity: nat, sstSize: nat, l: Loaded): Loaded
    decreases |files|
  {
    if sstSize <= |l.sizes| || files == [] then l
    else
      var file := Content(files[0]);
      if file == [] then Load(files[1..], chunkSize, capacity, sstSize, l)
      else
        var first := Min(|file|, if 0 < chunkSize then chunkSize else SAMPLESIZE_MAX);
        if capacity < |l.data| + first then l
        else
          var l1 := Take(l, file[..first]);
          var l2 := if 0 < chunkSize then LoadRest(file, first, chunkSize, capacity, sstSize, l1) else l1;
          Load(files[1..], chunkSize, capacity, sstSize, l2)
  }

  // ---- What samples are ----

  /** How `n` bytes of one file are cut into samples. */
  function Cut(n: nat, chunkSize: nat): (sizes: seq<nat>)
    ensures forall size <- sizes :: 0 < size
    ensures 0 < chunkSize ==> forall size <- sizes :: size <= chunkSize
    decreases n
  {
    if n == 0 then [] else if chunkSize == 0 || n <= chunkSize then [n] else [chunkSize] + Cut(n - chunkSize, chunkSize)
  }

  function Sum(sizes: seq<nat>): nat {
    if sizes == [] then 0 else sizes[0] + Sum(sizes[1..])
  }

  /** The samples of one piece a file. */
  function Cuts(pieces: seq<bytes>, chunkSize: nat): seq<nat> {
    if pieces == [] then [] else Cut(|pieces[0]|, chunkSize) + Cuts(pieces[1..], chunkSize)
  }

  /** The part of a file that may be loaded. */
  function Usable(f: SampleFile, chunkSize: nat): bytes {
    var file := Content(f);
    if 0 < chunkSize then file else file[..Min(|file|, SAMPLESIZE_MAX)]
  }

  function AllUsable(files: seq<SampleFile>, chunkSize: nat): seq<bytes> {
    if files == [] then [] else [Usable(files[0], chunkSize)] + AllUsable(files[1..], chunkSize)
  }

  /** `pieces` are beginnings of what may be loaded of the first files, one each. */
  predicate Beginnings(pieces: seq<bytes>, files: seq<SampleFile>, chunkSize: nat) {
    && |pieces| <= |files|
    && forall i :: 0 <= i < |pieces| ==> pieces[i] <= Usable(files[i], chunkSize)
  }

  lemma {:induction false} SumAppend(a: seq<nat>, b: seq<nat>)
    ensures Sum(a + b) == Sum(a) + Sum(b)
  {
    if a == [] {
      assert a + b == b;
    } else {
      SumAppend(a[1..], b);
      assert (a + b)[1..] == a[1..] + b;
    }
  }

  lemma {:induction false} CutSum(n: nat, chunkSize: nat)
    ensures Sum(Cut(n, chunkSize)) == n
    decreases n
  {
    if 0 < chunkSize < n {
      CutSum(n - chunkSize, chunkSize);
    } else if n != 0 {
      assert Sum([n]) == n + Sum([]);
    }
  }

  lemma {:induction false} CutsSum(pieces: seq<bytes>, chunkSize: nat)
    ensures Sum(Cuts(pieces, chunkSize)) == |Flatten(pieces)|
  {
    if pieces != [] {
      CutsSum(pieces[1..], chunkSize);
      CutSum(|pieces[0]|, chunkSize);
      SumAppend(Cut(|pieces[0]|, chunkSize), Cuts(pieces[1..], chunkSize));
    }
  }

  lemma {:induction false} CutCount(n: nat, chunkSize: nat)
    requires 0 < chunkSize
    ensures |Cut(n, chunkSize)| == C.NumChunks(n, chunkSize)
    decreases n
  {
    if chunkSize < n {
      CutCount(n - chunkSize, chunkSize);
    }
  }

  /** The plan counts the samples and the bytes of everything that may be loaded. */
  lemma {:induction false} PlanIsExact(files: seq<SampleFile>, chunkSize: nat)
    ensures Plan(files, chunkSize).nbSamples == |Cuts(AllUsable(files, chunkSize), chunkSize)|
    ensures Plan(files, chunkSize).totalSizeToLoad == |Flatten(AllUsable(files, chunkSize))|
    ensures Plan(files, chunkSize).oneSampleTooLarge <==>
      chunkSize == 0 && exists f <- files :: 2 * SAMPLESIZE_MAX < |Content(f)|
  {
    if files != [] {
      hide Cut, Usable, StatsOf;
      PlanIsExact(files[1..], chunkSize);
      StatsAreExact(files[0], chunkSize);
      assert AllUsable(files, chunkSize)[1..] == AllUsable(files[1..], chunkSize);
      assert forall f <- files :: f == files[0] || f in files[1..];
    }
  }

  lemma StatsAreExact(f: SampleFile, chunkSize: nat)
    ensures StatsOf(f, chunkSize).nbSamples == |Cut(|Usable(f, chunkSize)|, chunkSize)|
    ensures StatsOf(f, chunkSize).totalSizeToLoad == |Usable(f, chunkSize)|
    ensures StatsOf(f, chunkSize).oneSampleTooLarge <==> chunkSize == 0 && 2 * SAMPLESIZE_MAX < |Content(f)|
  {
    var n := |Content(f)|;
    if 0 < chunkSize {
      hide Cut;
      CutCount(n, chunkSize);
      C.NumChunksIsCeiling(n, chunkSize);
    }
  }

  // ---- What is loaded, whatever the capacity ----

  lemma {:induction false} RestTiles(file: bytes, at: nat, chunkSize: nat, capacity: nat, sstSize: nat, l: Loaded) returns (end: nat)
    requires 0 < chunkSize && at <= |file| && |l.data| <= capacity && |l.sizes| <= sstSize
    ensures at <= end <= |file|
    ensures var t := LoadRest(file, at, chunkSize, capacity, sstSize, l);
      && t.data == l.data + file[at..end] && t.sizes == l.sizes + Cut(end - at, chunkSize)
      && |t.data| <= capacity && |t.sizes| <= sstSize
    ensures capacity - |l.data| >= |file| - at && sstSize - |l.sizes| >= |Cut(|file| - at, chunkSize)| ==> end == |file|
    decreases |file| - at
  {
    hide Cut;
    end := at;
    CutOfNothing(chunkSize);
    if at != |file| {
      CutStep(|file| - at, Min(|file| - at, chunkSize), chunkSize, true);
    }
    if at != |file| && |l.sizes| < sstSize {
      var size := Min(|file| - at, chunkSize);
      if |l.data| + size <= capacity {
        var l1 := Take(l, file[at..at + size]);
        assert LoadRest(file, at, chunkSize, capacity, sstSize, l) == LoadRest(file, at + size, chunkSize, capacity, sstSize, l1);
        hide LoadRest;
        end := RestTiles(file, at + size, chunkSize, capacity, sstSize, l1);
        SliceSplits(file, at, at + size, end);
        ConcatAssociates(l.data, file[at..at + size], file[at + size..end]);
        CutStep(end - at, size, chunkSize, end == |file|);
        SizesAssociate(l.sizes, [size], Cut(end - at - size, chunkSize));
      }
    }
  }

  lemma CutStep(n: nat, size: nat, chunkSize: nat, whole: bool)
    requires 0 < size <= n && 0 < chunkSize && (size == chunkSize || size == n)
    requires size <= chunkSize
    ensures Cut(n, chunkSize) == [size] + Cut(n - size, chunkSize)
  {
  }

  /** One file: the beginning of it that is loaded, and how it is cut. */
  lemma FileTiles(f: SampleFile, chunkSize: nat, capacity: nat, sstSize: nat, l: Loaded, first: nat) returns (piece: bytes)
    requires Content(f) != [] && first == Min(|Content(f)|, if 0 < chunkSize then chunkSize else SAMPLESIZE_MAX)
    requires |l.data| + first <= capacity && |l.sizes| < sstSize
    ensures piece <= Usable(f, chunkSize)
    ensures var l1 := Take(l, Content(f)[..first]);
      var t := if 0 < chunkSize then LoadRest(Content(f), first, chunkSize, capacity, sstSize, l1) else l1;
      && t.data == l.data + piece && t.sizes == l.sizes + Cut(|piece|, chunkSize)
      && |t.data| <= capacity && |t.sizes| <= sstSize
    ensures |l.data| + |Usable(f, chunkSize)| <= capacity && |l.sizes| + |Cut(|Usable(f, chunkSize)|, chunkSize)| <= sstSize
      ==> piece == Usable(f, chunkSize)
  {
    var file := Content(f);
    var l1 := Take(l, file[..first]);
    if 0 < chunkSize {
      CutStep(|file|, first, chunkSize, true);
      var end := RestTiles(file, first, chunkSize, capacity, sstSize, l1);
      piece := file[..end];
      SliceSplits(file, 0, first, end);
      ConcatAssociates(l.data, file[..first], file[first..end]);
      CutStep(end, first, chunkSize, true);
      assert l.sizes + [first] + Cut(end - first, chunkSize) == l.sizes + ([first] + Cut(end - first, chunkSize));
    } else {
      piece := file[..first];
    }
  }

  /** Whatever the capacity: the loaded data is a beginning of each of the first files, laid end to end, the sizes say
      how they are cut, and both stay within what was given. With enough of both, everything is loaded. */
  lemma {:induction false} LoadTiles(files: seq<SampleFile>, chunkSize: nat, capacity: nat, sstSize: nat, l: Loaded) returns (pieces: seq<bytes>)
    requires |l.data| <= capacity && |l.sizes| <= sstSize
    ensures Beginnings(pieces, files, chunkSize)
    ensures var t := Load(files, chunkSize, capacity, sstSize, l);
      && t.data == l.data + Flatten(pieces) && t.sizes == l.sizes + Cuts(pieces, chunkSize)
      && |t.data| <= capacity && |t.sizes| <= sstSize
    ensures |l.data| + |Flatten(AllUsable(files, chunkSize))| <= capacity
      && |l.sizes| + |Cuts(AllUsable(files, chunkSize), chunkSize)| <= sstSize
      ==> Flatten(pieces) == Flatten(AllUsable(files, chunkSize))
          && Cuts(pieces, chunkSize) == Cuts(AllUsable(files, chunkSize), chunkSize)
    decreases |files|, 0
  {
    assert Beginnings([], files, chunkSize);
    hide Cut, Beginnings, LoadRest, Take;
    var all := AllUsable(files, chunkSize);
    pieces := [];
    if files == [] {
    } else if sstSize <= |l.sizes| {
      if Cuts(all, chunkSize) == [] {
        CutsSum(all, chunkSize);
      }
    } else {
      var file := Content(files[0]);
      if file == [] {
        assert Load(files, chunkSize, capacity, sstSize, l) == Load(files[1..], chunkSize, capacity, sstSize, l);
        hide Load;
        var others := LoadTiles(files[1..], chunkSize, capacity, sstSize, l);
        pieces := [[]] + others;
        EmptyFirst(files, others, chunkSize);
      } else {
        var first := Min(|file|, if 0 < chunkSize then chunkSize else SAMPLESIZE_MAX);
        if |l.data| + first <= capacity {
          hide Load;
          pieces := LoadTilesOn(files, chunkSize, capacity, sstSize, l, first);
        } else {
          FirstIsUsable(files, chunkSize);
        }
      }
    }
  }

  lemma FirstIsUsable(files: seq<SampleFile>, chunkSize: nat)
    requires files != []
    ensures Min(|Content(files[0])|, if 0 < chunkSize then chunkSize else SAMPLESIZE_MAX) <= |Flatten(AllUsable(files, chunkSize))|
  {
  }

  /** An empty file changes nothing. */
  lemma EmptyFirst(files: seq<SampleFile>, pieces: seq<bytes>, chunkSize: nat)
    requires files != [] && Content(files[0]) == [] && Beginnings(pieces, files[1..], chunkSize)
    ensures Beginnings([[]] + pieces, files, chunkSize)
    ensures Flatten([[]] + pieces) == Flatten(pieces) && Cuts([[]] + pieces, chunkSize) == Cuts(pieces, chunkSize)
    ensures Flatten(AllUsable(files, chunkSize)) == Flatten(AllUsable(files[1..], chunkSize))
    ensures Cuts(AllUsable(files, chunkSize), chunkSize) == Cuts(AllUsable(files[1..], chunkSize), chunkSize)
  {
    CutOfNothing(chunkSize);
    hide Cut, Beginnings;
    Prepended([], pieces, chunkSize);
    BeginningsGrow([], pieces, files, chunkSize);
    Prepended([], AllUsable(files[1..], chunkSize), chunkSize);
    assert AllUsable(files, chunkSize) == [[]] + AllUsable(files[1..], chunkSize);
  }

  lemma CutOfNothing(chunkSize: nat)
    ensures Cut(0, chunkSize) == []
  {
  }

  lemma Prepended(piece: bytes, pieces: seq<bytes>, chunkSize: nat)
    ensures Flatten([piece] + pieces) == piece + Flatten(pieces)
    ensures Cuts([piece] + pieces, chunkSize) == Cut(|piece|, chunkSize) + Cuts(pieces, chunkSize)
  {
    assert ([piece] + pieces)[1..] == pieces;
  }

  lemma BeginningsGrow(piece: bytes, pieces: seq<bytes>, files: seq<SampleFile>, chunkSize: nat)
    requires files != [] && piece <= Usable(files[0], chunkSize) && Beginnings(pieces, files[1..], chunkSize)
    ensures Beginnings([piece] + pieces, files, chunkSize)
  {
    hide Usable;
    forall i | 0 <= i < |pieces| + 1 ensures ([piece] + pieces)[i] <= Usable(files[i], chunkSize) {
      if 0 < i {
        assert pieces[i - 1] <= Usable(files[1..][i - 1], chunkSize);
      }
    }
  }

  /** The step of LoadTiles for a file of which something fits. */
  lemma {:induction false} LoadTilesOn(files: seq<SampleFile>, chunkSize: nat, capacity: nat, sstSize: nat, l: Loaded, first: nat) returns (pieces: seq<bytes>)
    requires |l.data| <= capacity && |l.sizes| < sstSize && files != [] && Content(files[0]) != []
    requires first == Min(|Content(files[0])|, if 0 < chunkSize then chunkSize else SAMPLESIZE_MAX)
    requires |l.data| + first <= capacity
    ensures Beginnings(pieces, files, chunkSize)
    ensures var t := Load(files, chunkSize, capacity, sstSize, l);
      && t.data == l.data + Flatten(pieces) && t.sizes == l.sizes + Cuts(pieces, chunkSize)
      && |t.data| <= capacity && |t.sizes| <= sstSize
    ensures |l.data| + |Flatten(AllUsable(files, chunkSize))| <= capacity
      && |l.sizes| + |Cuts(AllUsable(files, chunkSize), chunkSize)| <= sstSize
      ==> Flatten(pieces) == Flatten(AllUsable(files, chunkSize))
          && Cuts(pieces, chunkSize) == Cuts(AllUsable(files, chunkSize), chunkSize)
    decreases |files| - 1, 1
  {
    hide Cut, Usable, Beginnings, LoadRest;
    var all := AllUsable(files, chunkSize);
    assert all[1..] == AllUsable(files[1..], chunkSize);
    var file := Content(files[0]);
    var l1 := Take(l, file[..first]);
    var l2 := if 0 < chunkSize then LoadRest(file, first, chunkSize, capacity, sstSize, l1) else l1;
    var piece := FileTiles(files[0], chunkSize, capacity, sstSize, l, first);
    assert Load(files, chunkSize, capacity, sstSize, l) == Load(files[1..], chunkSize, capacity, sstSize, l2);
    hide Load;
    var others := LoadTiles(files[1..], chunkSize, capacity, sstSize, l2);
    pieces := [piece] + others;
    Prepended(piece, others, chunkSize);
    BeginningsGrow(piece, others, files, chunkSize);
    ConcatAssociates(l.data, piece, Flatten(others));
    SizesAssociate(l.sizes, Cut(|piece|, chunkSize), Cuts(others, chunkSize));
  }

  lemma SizesAssociate(a: seq<nat>, b: seq<nat>, c: seq<nat>)
    ensures (a + b) + c == a + (b + c)
  {
  }

  /** The plan predicts the loader: in a buffer of at least the planned size and a table of the planned length, it loads
      the planned number of samples and of bytes, which are everything that may be loaded, file after file. */
  lemma PlannerPredictsLoader(files: seq<SampleFile>, chunkSize: nat, capacity: nat)
    requires Plan(files, chunkSize).totalSizeToLoad <= capacity
    ensures var plan := Plan(files, chunkSize);
      var t := Load(files, chunkSize, capacity, plan.nbSamples, Loaded([], []));
      && |t.sizes| == plan.nbSamples && |t.data| == plan.totalSizeToLoad
      && t.data == Flatten(AllUsable(files, chunkSize)) && t.sizes == Cuts(AllUsable(files, chunkSize), chunkSize)
  {
    hide Load, Cuts, AllUsable, Plan, Flatten;
    PlanIsExact(files, chunkSize);
    var pieces := LoadTiles(files, chunkSize, capacity, Plan(files, chunkSize).nbSamples, Loaded([], []));
    assert [] + Flatten(pieces) == Flatten(pieces);
    assert [] + Cuts(pieces, chunkSize) == Cuts(pieces, chunkSize);
  }

  /** In any buffer: the sizes add up to the loaded size, which stays within the buffer as the samples do within
      the table, and cut up the beginnings of files that the buffer holds end to end. */
  lemma LoadedFits(files: seq<SampleFile>, chunkSize: nat, capacity: nat, sstSize: nat) returns (pieces: seq<bytes>)
    ensures Beginnings(pieces, files, chunkSize)
    ensures var t := Load(files, chunkSize, capacity, sstSize, Loaded([], []));
      && t.data == Flatten(pieces) && t.sizes == Cuts(pieces, chunkSize)
      && Sum(t.sizes) == |t.data| <= capacity && |t.sizes| <= sstSize
  {
    hide Load, Cuts, Flatten, Sum;
    pieces := LoadTiles(files, chunkSize, capacity, sstSize, Loaded([], []));
    CutsSum(pieces, chunkSize);
    assert [] + Flatten(pieces) == Flatten(pieces);
    assert [] + Cuts(pieces, chunkSize) == Cuts(pieces, chunkSize);
  }

  // ---- The C functions ----

  /** DiB_fileStats */
  method DiBFileStats(files: seq<SampleFile>, chunkSize: nat) returns (fs: FileStats)
    ensures fs == Plan(files, chunkSize)
  {
    hide StatsOf;
    fs := FileStats(0, 0, false);
    var n := 0;
    assert files[0..] == files;
    while n < |files|
      invariant n <= |files|
      invariant Plan(files, chunkSize) == Plus(fs, Plan(files[n..], chunkSize))
    {
      assert files[n..][1..] == files[n + 1..];
      fs := CountFile(fs, files[n], chunkSize);
      n := n + 1;
    }
  }

  /** The loop body: one more file is counted. */
  method CountFile(fs0: FileStats, file: SampleFile, chunkSize: nat) returns (fs: FileStats)
    ensures fs == Plus(fs0, StatsOf(file, chunkSize))
  {
    fs := fs0;
    var fileSize := |Content(file)|;
    if fileSize == 0 {
      return;
    }
    if 0 < chunkSize {
      var n := (fileSize + (chunkSize - 1)) / chunkSize;
      fs := fs.(nbSamples := fs.nbSamples + n, totalSizeToLoad := fs.totalSizeToLoad + fileSize);
    } else {
      if SAMPLESIZE_MAX < fileSize {
        fs := fs.(oneSampleTooLarge := fs.oneSampleTooLarge || 2 * SAMPLESIZE_MAX < fileSize);
      }
      fs := fs.(nbSamples := fs.nbSamples + 1, totalSizeToLoad := fs.totalSizeToLoad + Min(fileSize, SAMPLESIZE_MAX));
    }
  }

  /** What the buffer and the table hold. */
  ghost function Held(buffer: array<byte>, dataLoaded: nat, sampleSizes: array<nat>, nbSamples: nat): Loaded
    requires dataLoaded <= buffer.Length && nbSamples <= sampleSizes.Length
    reads buffer, sampleSizes
  {
    Loaded(buffer[..dataLoaded], sampleSizes[..nbSamples])
  }

  /** `fread` of one sample behind the data loaded so far. */
  method ReadSample(buffer: array<byte>, dataLoaded: nat, sampleSizes: array<nat>, nbSamples: nat, sample: bytes)
    requires dataLoaded + |sample| <= buffer.Length && nbSamples < sampleSizes.Length
    modifies buffer, sampleSizes
    ensures Held(buffer, dataLoaded + |sample|, sampleSizes, nbSamples + 1)
         == Take(old(Held(buffer, dataLoaded, sampleSizes, nbSamples)), sample)
  {
    var i := 0;
    while i < |sample|
      invariant i <= |sample|
      invariant buffer[..dataLoaded + i] == old(buffer[..dataLoaded]) + sample[..i]
      modifies buffer
    {
      buffer[dataLoaded + i] := sample[i];
      i := i + 1;
    }
    sampleSizes[nbSamples] := |sample|;
  }

  /** The inner loop of DiB_loadFiles: the rest of a chunked file. */
  method LoadChunks(buffer: array<byte>, bufferSize: nat, sampleSizes: array<nat>, file: bytes, at: nat, chunkSize: nat,
                    dataLoaded0: nat, nbSamples0: nat)
    returns (dataLoaded: nat, nbSamples: nat)
    requires 0 < chunkSize && at <= |file| && dataLoaded0 <= bufferSize <= buffer.Length && nbSamples0 <= sampleSizes.Length
    modifies buffer, sampleSizes
    ensures dataLoaded <= bufferSize && nbSamples <= sampleSizes.Length
    ensures Held(buffer, dataLoaded, sampleSizes, nbSamples)
         == LoadRest(file, at, chunkSize, bufferSize, sampleSizes.Length, old(Held(buffer, dataLoaded0, sampleSizes, nbSamples0)))
  {
    hide Take;
    var fileDataLoaded := at;
    dataLoaded, nbSamples := dataLoaded0, nbSamples0;
    ghost var all := LoadRest(file, at, chunkSize, bufferSize, sampleSizes.Length, Held(buffer, dataLoaded, sampleSizes, nbSamples));
    while fileDataLoaded < |file| && nbSamples < sampleSizes.Length
      invariant fileDataLoaded <= |file| && dataLoaded <= bufferSize && nbSamples <= sampleSizes.Length
      invariant LoadRest(file, fileDataLoaded, chunkSize, bufferSize, sampleSizes.Length,
                         Held(buffer, dataLoaded, sampleSizes, nbSamples)) == all
    {
      var size := Min(|file| - fileDataLoaded, chunkSize);
      if bufferSize < dataLoaded + size {
        return;
      }
      ReadSample(buffer, dataLoaded, sampleSizes, nbSamples, file[fileDataLoaded..fileDataLoaded + size]);
      nbSamples, dataLoaded, fileDataLoaded := nbSamples + 1, dataLoaded + size, fileDataLoaded + size;
    }
  }

  /** DiB_loadFiles; the table of sizes has as many entries as `sstSize` says. */
  method DiBLoadFiles(buffer: array<byte>, bufferSize: nat, sampleSizes: array<nat>, files: seq<SampleFile>, chunkSize: nat)
    returns (nbSamples: nat, dataLoaded: nat)
    requires bufferSize <= buffer.Length && chunkSize <= SAMPLESIZE_MAX
    modifies buffer, sampleSizes
    ensures dataLoaded <= bufferSize && nbSamples <= sampleSizes.Length
    ensures Held(buffer, dataLoaded, sampleSizes, nbSamples)
         == Load(files, chunkSize, bufferSize, sampleSizes.Length, Loaded([], []))
  {
    hide Take, LoadRest;
    nbSamples, dataLoaded := 0, 0;
    var fileIndex := 0;
    ghost var all := Load(files, chunkSize, bufferSize, sampleSizes.Length, Loaded([], []));
    assert files[0..] == files && Held(buffer, 0, sampleSizes, 0) == Loaded([], []);
    while nbSamples < sampleSizes.Length && fileIndex < |files|
      invariant fileIndex <= |files| && dataLoaded <= bufferSize && nbSamples <= sampleSizes.Length
      invariant Load(files[fileIndex..], chunkSize, bufferSize, sampleSizes.Length,
                     Held(buffer, dataLoaded, sampleSizes, nbSamples)) == all
      decreases |files| - fileIndex
    {
      assert files[fileIndex..][1..] == files[fileIndex + 1..];
      var file := Content(files[fileIndex]);
      if |file| != 0 {
        var first := Min(|file|, if 0 < chunkSize then chunkSize else SAMPLESIZE_MAX);
        if bufferSize < dataLoaded + first {
          return;
        }
        ReadSample(buffer, dataLoaded, sampleSizes, nbSamples, file[..first]);
        nbSamples, dataLoaded := nbSamples + 1, dataLoaded + first;
        if 0 < chunkSize {
          dataLoaded, nbSamples := LoadChunks(buffer, bufferSize, sampleSizes, file, first, chunkSize, dataLoaded, nbSamples);
        }
      }
      fileIndex := fileIndex + 1;
    }
  }

  /** The allocation and loading steps of DiB_trainFromFiles; `limit` stands for the memory limits. The loader
      never leaves what the plan allocated, and without a limit it fills it exactly. */
  method LoadTrainingSet(files: seq<SampleFile>, chunkSize: nat, limit: nat)
    returns (buffer: array<byte>, sampleSizes: array<nat>, nbSamples: nat, dataLoaded: nat)
    requires chunkSize <= SAMPLESIZE_MAX
    ensures dataLoaded <= buffer.Length <= limit && nbSamples <= sampleSizes.Length
    ensures Sum(sampleSizes[..nbSamples]) == dataLoaded
    ensures Plan(files, chunkSize).totalSizeToLoad <= limit ==>
      && nbSamples == sampleSizes.Length == Plan(files, chunkSize).nbSamples
      && dataLoaded == buffer.Length == Plan(files, chunkSize).totalSizeToLoad
      && buffer[..dataLoaded] == Flatten(AllUsable(files, chunkSize))
  {
    hide Plan, Load, Sum, Cuts, AllUsable;
    var fs := DiBFileStats(files, chunkSize);
    var bufferSize := Min(limit, fs.totalSizeToLoad);
    buffer, sampleSizes := new byte[bufferSize], new nat[fs.nbSamples];
    nbSamples, dataLoaded := DiBLoadFiles(buffer, bufferSize, sampleSizes, files, chunkSize);
    var _ := LoadedFits(files, chunkSize, bufferSize, fs.nbSamples);
    if fs.totalSizeToLoad <= limit {
      PlannerPredictsLoader(files, chunkSize, bufferSize);
    }
  }

  function Swap<T>(s: seq<T>, i: nat, j: nat): (t: seq<T>)
    requires i < |s| && j < |s|
    ensures |t| == |s|
  {
    s[i := s[j]][j := s[i]]
  }

  /** The swaps of `i` and a random number modulo `i + 1`, for `i` from `last` down to 1, one after another. */
  function Shuffled<T>(s: seq<T>, random: nat -> nat, last: nat): (t: seq<T>)
    requires last < |s| || last == 0
    ensures |t| == |s|
    decreases last
  {
    if last == 0 then s else Shuffled(Swap(s, last, random(last) % (last + 1)), random, last - 1)
  }

  lemma SwapKeeps<T>(s: seq<T>, i: nat, j: nat)
    requires i < |s| && j < |s|
    ensures multiset(Swap(s, i, j)) == multiset(s)
  {
  }

  /** Whatever the random numbers, the names are permuted. */
  lemma {:induction false} ShuffledKeeps<T>(s: seq<T>, random: nat -> nat, last: nat)
    requires last < |s| || last == 0
    ensures multiset(Shuffled(s, random, last)) == multiset(s)
    decreases last
  {
    hide Swap;
    if last != 0 {
      var j := random(last) % (last + 1);
      SwapKeeps(s, last, j);
      ShuffledKeeps(Swap(s, last, j), random, last - 1);
    }
  }

  /** DiB_shuffle, whatever the pseudo-random numbers: the table is permuted by the swaps drawn. */
  method DiBShuffle<T>(table: array<T>, random: nat -> nat)
    modifies table
    ensures table[..] == Shuffled(old(table[..]), random, if table.Length == 0 then 0 else table.Length - 1)
    ensures multiset(table[..]) == multiset(old(table[..]))
  {
    ghost var before := table[..];
    if table.Length == 0 {
      return;
    }
    var i := table.Length - 1;
    while 0 < i
      invariant 0 <= i < table.Length
      invariant Shuffled(table[..], random, i) == Shuffled(before, random, table.Length - 1)
    {
      var j := random(i) % (i + 1);
      ghost var s := table[..];
      table[i], table[j] := table[j], table[i];
      assert table[..] == Swap(s, i, j);
      i := i - 1;
    }
    ShuffledKeeps(before, random, table.Length - 1);
  }
}
