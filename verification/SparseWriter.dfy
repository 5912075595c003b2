/** The sparse writer: runs of zeros become seeks, carried from call to call in
    `storedSkips`, and are made real by the next write or by the closing call. */
module SparseWriter {
  import opened Bytes
  import opened FileModel

  const SEGMENT: nat := 32768 // leading zeros are counted per 32 KB, in words of 8 bytes (`size_t`)

  datatype Prefs = Prefs(testMode: bool, sparse: bool)

  /** The destination file with the zeros that are owed to it. */
  datatype Sink = Sink(file: FileState, skips: nat)

  /** `storedSkips` is a C `unsigned`. */
  function Add32(a: nat, b: nat): nat {
    (a + b) % 0x1_0000_0000
  }

  /** How many bytes the leading all-zero words of `s` take. */
  function LeadingZeroWords(s: bytes): (nb0: nat)
    ensures nb0 <= |s| && AllZero(s[..nb0])
  {
    if 8 <= |s| && AllZero(s[..8]) then
      var nb := LeadingZeroWords(s[8..]);
      assert s[..8 + nb] == s[..8] + s[8..][..nb];
      8 + nb
    else 0
  }

  function LeadingZeroBytes(s: bytes): (nb0: nat)
    ensures nb0 <= |s| && AllZero(s[..nb0])
    ensures nb0 < |s| ==> s[nb0] != 0
  {
    if s != [] && s[0] == 0 then
      var nb := LeadingZeroBytes(s[1..]);
      assert s[..1 + nb] == [s[0]] + s[1..][..nb];
      1 + nb
    else 0
  }

  /** `zeros` more zero bytes, then `data`: the zeros are owed until there is data to write. */
  function Absorb(k: Sink, zeros: nat, data: bytes): Sink {
    var skips := Add32(k.skips, zeros);
    if data == [] then k.(skips := skips)
    else Sink(Put(Skip(k.file, skips), data), 0)
  }

  function Segment(k: Sink, s: bytes): Sink {
    var nb0 := LeadingZeroWords(s);
    Absorb(k, nb0, s[nb0..])
  }

  function Segments(k: Sink, s: bytes): Sink
    decreases |s|
  {
    if s == [] then k
    else
      var seg := Min(SEGMENT, |s|);
      Segments(Segment(k, s[..seg]), s[seg..])
  }

  function Tail(k: Sink, rest: bytes): Sink {
    var nb0 := LeadingZeroBytes(rest);
    if rest == [] then k else Absorb(k, nb0, rest[nb0..])
  }

  /** The valve: more than 1 GB of owed zeros are reduced by one seek of 1 GB. */
  function Valve(k: Sink): Sink {
    if GB < k.skips then Sink(Skip(k.file, GB), k.skips - GB) else k
  }

  function SparseWrite(prefs: Prefs, k: Sink, buf: bytes): Sink {
    if prefs.testMode then k.(skips := 0)
    else if !prefs.sparse then Sink(Put(k.file, buf), 0)
    else
      var whole := |buf| - |buf| % 8;
      Tail(Segments(Valve(k), buf[..whole]), buf[whole..])
  }

  function SparseEnd(k: Sink): FileState {
    if 0 < k.skips then Put(Skip(k.file, k.skips - 1), [0]) else k.file
  }

  /** The buffers written one after the other, `storedSkips` threaded through. */
  function WriteAll(prefs: Prefs, k: Sink, bufs: seq<bytes>): Sink {
    if bufs == [] then k
    else SparseWrite(prefs, WriteAll(prefs, k, bufs[..|bufs| - 1]), bufs[|bufs| - 1])
  }

  // ---- The C functions ----

  method FwriteSparse(file: File, buf: bytes, prefs: Prefs, storedSkips: nat) returns (skips: nat)
    modifies file
    ensures Sink(file.State(), skips) == SparseWrite(prefs, Sink(old(file.State()), storedSkips), buf)
  {
    if prefs.testMode {
      return 0;
    }
    if !prefs.sparse {
      file.Write(buf);
      return 0;
    }
    skips := storedSkips;
    if GB < skips {
      file.SeekForward(GB);
      skips := skips - GB;
    }
    var whole := |buf| - |buf| % 8;
    skips := WriteSegments(file, buf[..whole], skips);
    skips := WriteTail(file, buf[whole..], skips);
  }

  lemma SegmentsUnfold(k: Sink, s: bytes, piece: bytes, rest: bytes)
    requires s != [] && s == piece + rest && |piece| == Min(SEGMENT, |s|)
    ensures Segments(k, s) == Segments(Segment(k, piece), rest)
  {
    assert s[..|piece|] == piece && s[|piece|..] == rest;
  }

  method WriteSegments(file: File, s: bytes, storedSkips: nat) returns (skips: nat)
    modifies file
    ensures Sink(file.State(), skips) == Segments(Sink(old(file.State()), storedSkips), s)
  {
    skips := storedSkips;
    var at := 0;
    ghost var all := Segments(Sink(file.State(), skips), s);
    assert s[0..] == s;
    while at < |s|
      invariant at <= |s|
      invariant Segments(Sink(file.State(), skips), s[at..]) == all
    {
      var next := at + Min(SEGMENT, |s| - at);
      SegmentsUnfold(Sink(file.State(), skips), s[at..], s[at..next], s[next..]);
      skips := WriteSegment(file, s[at..next], skips);
      at := next;
    }
  }

  method WriteSegment(file: File, s: bytes, storedSkips: nat) returns (skips: nat)
    modifies file
    ensures Sink(file.State(), skips) == Segment(Sink(old(file.State()), storedSkips), s)
  {
    var nb0 := 0;
    while nb0 + 8 <= |s| && AllZero(s[nb0..nb0 + 8])
      invariant nb0 <= |s|
      invariant LeadingZeroWords(s) == nb0 + LeadingZeroWords(s[nb0..])
    {
      assert s[nb0..][..8] == s[nb0..nb0 + 8] && s[nb0..][8..] == s[nb0 + 8..];
      nb0 := nb0 + 8;
    }
    assert nb0 + 8 <= |s| ==> s[nb0..][..8] == s[nb0..nb0 + 8];
    skips := Add32(storedSkips, nb0);
    if nb0 != |s| {
      file.SeekForward(skips);
      skips := 0;
      file.Write(s[nb0..]);
    }
  }

  /** The bytes after the last whole word. */
  method WriteTail(file: File, rest: bytes, storedSkips: nat) returns (skips: nat)
    modifies file
    ensures Sink(file.State(), skips) == Tail(Sink(old(file.State()), storedSkips), rest)
  {
    skips := storedSkips;
    if rest != [] {
      var nb0 := 0;
      while nb0 < |rest| && rest[nb0] == 0
        invariant nb0 <= |rest|
        invariant LeadingZeroBytes(rest) == nb0 + LeadingZeroBytes(rest[nb0..])
      {
        assert rest[nb0..][1..] == rest[nb0 + 1..];
        nb0 := nb0 + 1;
      }
      skips := Add32(skips, nb0);
      if nb0 != |rest| {
        file.SeekForward(skips);
        file.Write(rest[nb0..]);
        skips := 0;
      }
    }
  }

  method FwriteSparseEnd(file: File, storedSkips: nat)
    modifies file
    ensures file.State() == SparseEnd(Sink(old(file.State()), storedSkips))
  {
    if 0 < storedSkips {
      file.SeekForward(storedSkips - 1);
      file.Write([0]);
    }
  }

  // ---- What the writer is for ----

  /** The position never falls inside the content, and can only be past its end
      while zeros are owed, so that the closing call still has a byte to write. */
  predicate Inv(k: Sink) {
    && |k.file.content| <= k.file.pos
    && (k.file.pos == |k.file.content| || 0 < k.skips)
  }

  /** The bytes the reader of the finished file will see. */
  function Logical(k: Sink): bytes
    requires Inv(k)
  {
    k.file.content + Zeros(k.file.pos - |k.file.content|) + Zeros(k.skips)
  }

  lemma PutPastEnd(f: FileState, data: bytes)
    requires |f.content| <= f.pos && data != []
    ensures Put(f, data).content == f.content + Zeros(f.pos - |f.content|) + data
    ensures Put(f, data).pos == |Put(f, data).content|
  {
  }

  lemma OwedZerosAppend(k: Sink, zeros: nat)
    requires Inv(k)
    ensures Logical(k) + Zeros(zeros)
         == k.file.content + Zeros(k.file.pos - |k.file.content|) + Zeros(k.skips + zeros)
  {
    var gap := k.file.pos - |k.file.content|;
    ZerosAppend(k.skips, zeros);
    ConcatAssociates(k.file.content + Zeros(gap), Zeros(k.skips), Zeros(zeros));
  }

  lemma AbsorbAppends(k: Sink, zeros: nat, data: bytes)
    requires Inv(k) && k.skips + zeros < U32_LIMIT
    ensures var k' := Absorb(k, zeros, data);
            Inv(k') && Logical(k') == Logical(k) + Zeros(zeros) + data && k'.skips <= k.skips + zeros
  {
    OwedZerosAppend(k, zeros);
    if data == [] {
      assert Logical(k) + Zeros(zeros) + data == Logical(k) + Zeros(zeros);
    } else {
      var c, gap := k.file.content, k.file.pos - |k.file.content|;
      PutPastEnd(Skip(k.file, k.skips + zeros), data);
      hide Put, Zeros, Logical;
      ZerosAppend(gap, k.skips + zeros);
      ConcatAssociates(c, Zeros(gap), Zeros(k.skips + zeros));
      NothingOwed(Absorb(k, zeros, data));
    }
  }

  lemma NothingOwed(k: Sink)
    requires k.skips == 0 && k.file.pos == |k.file.content|
    ensures Inv(k) && Logical(k) == k.file.content
  {
    assert Zeros(0) == [];
  }

  /** A piece whose first `zeros` bytes are zero. */
  lemma AbsorbPiece(k: Sink, piece: bytes, zeros: nat)
    requires zeros <= |piece| && AllZero(piece[..zeros])
    requires Inv(k) && k.skips + zeros < U32_LIMIT
    ensures var k' := Absorb(k, zeros, piece[zeros..]);
            Inv(k') && Logical(k') == Logical(k) + piece && k'.skips <= k.skips + zeros
  {
    var data := piece[zeros..];
    AbsorbAppends(k, zeros, data);
    AllZeroIsZeros(piece[..zeros]);
    assert piece == piece[..zeros] + data;
    ConcatAssociates(Logical(k), Zeros(zeros), data);
  }

  lemma {:induction false} SegmentsAppend(k: Sink, s: bytes)
    requires Inv(k) && k.skips + |s| < U32_LIMIT
    ensures Inv(Segments(k, s)) && Logical(Segments(k, s)) == Logical(k) + s
    ensures Segments(k, s).skips <= k.skips + |s|
    decreases |s|
  {
    if s != [] {
      var seg := Min(SEGMENT, |s|);
      var piece, rest := s[..seg], s[seg..];
      AbsorbPiece(k, piece, LeadingZeroWords(piece));
      SegmentsAppend(Segment(k, piece), rest);
      ConcatAssociates(Logical(k), piece, rest);
      assert s == piece + rest;
    }
  }

  lemma ValveKeeps(k: Sink)
    requires Inv(k)
    ensures Inv(Valve(k)) && Logical(Valve(k)) == Logical(k)
  {
    if GB < k.skips {
      var gap := k.file.pos - |k.file.content|;
      ZerosAppend(gap, GB);
      ZerosAppend(GB, k.skips - GB);
      ConcatAssociates(k.file.content, Zeros(gap), Zeros(GB));
      ConcatAssociates(k.file.content + Zeros(gap), Zeros(GB), Zeros(k.skips - GB));
    }
  }

  lemma TailAppends(k: Sink, rest: bytes)
    requires Inv(k) && k.skips + |rest| < U32_LIMIT
    ensures var k' := Tail(k, rest);
            Inv(k') && Logical(k') == Logical(k) + rest && k'.skips <= k.skips + |rest|
  {
    if rest != [] {
      AbsorbPiece(k, rest, LeadingZeroBytes(rest));
    }
  }

  /** One call appends its buffer to what the reader will see, and keeps the owed zeros
      within 1 GB plus the buffer, so that 32 bits never wrap. */
  lemma SparseWriteAppends(prefs: Prefs, k: Sink, buf: bytes)
    requires !prefs.testMode && Inv(k) && |buf| <= GB && k.skips <= 2 * GB
    requires !prefs.sparse ==> k.skips == 0
    ensures var k' := SparseWrite(prefs, k, buf);
            && Inv(k') && Logical(k') == Logical(k) + buf
            && k'.skips <= GB + |buf|
            && (!prefs.sparse ==> k'.skips == 0)
  {
    if !prefs.sparse {
      if buf != [] {
        PutPastEnd(k.file, buf);
      }
      assert Zeros(0) == [] && Logical(k) == k.file.content;
    } else {
      ValveKeeps(k);
      var whole := |buf| - |buf| % 8;
      SegmentsAppend(Valve(k), buf[..whole]);
      TailAppends(Segments(Valve(k), buf[..whole]), buf[whole..]);
      ConcatAssociates(Logical(k), buf[..whole], buf[whole..]);
      assert buf == buf[..whole] + buf[whole..];
    }
  }

  /** The closing call makes the owed zeros real and leaves nothing owed. */
  lemma SparseEndMaterialises(k: Sink)
    requires Inv(k)
    ensures SparseEnd(k) == FileState(Logical(k), |Logical(k)|)
  {
    if 0 < k.skips {
      var f := Skip(k.file, k.skips - 1);
      PutPastEnd(f, [0]);
      ZerosAppend(k.file.pos - |k.file.content|, k.skips - 1);
      ZerosAppend(k.skips - 1, 1);
      assert Zeros(1) == [0];
    }
  }

  /** Any number of buffers of any lengths up to `most`, sparse or not: at every call
      boundary the file with its owed zeros is the earlier content and the buffers. */
  lemma {:induction false} WriteAllAppends(prefs: Prefs, file: FileState, bufs: seq<bytes>, most: nat)
    requires !prefs.testMode && file.pos == |file.content|
    requires most <= GB && forall b <- bufs :: |b| <= most
    ensures var k := WriteAll(prefs, Sink(file, 0), bufs);
            && Inv(k) && Logical(k) == file.content + Flatten(bufs)
            && k.skips <= GB + most
            && (!prefs.sparse ==> k.skips == 0)
  {
    if bufs == [] {
      assert Zeros(0) == [];
    } else {
      var init, last := bufs[..|bufs| - 1], bufs[|bufs| - 1];
      WriteAllAppends(prefs, file, init, most);
      SparseWriteAppends(prefs, WriteAll(prefs, Sink(file, 0), init), last);
      FlattenAppend(init, last);
      assert bufs == init + [last];
      ConcatAssociates(file.content, Flatten(init), last);
    }
  }

  /** After the closing call the file is exactly its earlier content and the buffers. */
  lemma {:induction false} SparseFileIsExact(prefs: Prefs, file: FileState, bufs: seq<bytes>)
    requires !prefs.testMode && file.pos == |file.content|
    requires forall b <- bufs :: |b| <= GB
    ensures SparseEnd(WriteAll(prefs, Sink(file, 0), bufs)).content == file.content + Flatten(bufs)
    ensures SparseEnd(WriteAll(prefs, Sink(file, 0), bufs)).pos == |file.content + Flatten(bufs)|
  {
    WriteAllAppends(prefs, file, bufs, GB);
    SparseEndMaterialises(WriteAll(prefs, Sink(file, 0), bufs));
  }

  /** In test mode nothing is written and nothing is owed. */
  lemma {:induction false} TestModeWritesNothing(prefs: Prefs, file: FileState, bufs: seq<bytes>)
    requires prefs.testMode
    ensures WriteAll(prefs, Sink(file, 0), bufs) == Sink(file, 0)
  {
    if bufs != [] {
      TestModeWritesNothing(prefs, file, bufs[..|bufs| - 1]);
    }
  }

  lemma {:induction false} ZeroWordsCounted(s: bytes)
    requires |s| % 8 == 0 && AllZero(s)
    ensures LeadingZeroWords(s) == |s|
  {
    if s != [] {
      ZeroWordsCounted(s[8..]);
    }
  }

  lemma {:induction false} ZeroBytesCounted(s: bytes)
    requires AllZero(s)
    ensures LeadingZeroBytes(s) == |s|
  {
    if s != [] {
      ZeroBytesCounted(s[1..]);
    }
  }

  lemma Add32Associates(a: nat, b: nat, c: nat)
    ensures Add32(Add32(a, b), c) == Add32(a, b + c)
  {
  }

  lemma {:induction false} ZeroSegmentsOwe(k: Sink, s: bytes)
    requires |s| % 8 == 0 && AllZero(s) && k.skips < U32_LIMIT
    ensures Segments(k, s) == k.(skips := Add32(k.skips, |s|))
    decreases |s|
  {
    if s != [] {
      var seg := Min(SEGMENT, |s|);
      ZeroWordsCounted(s[..seg]);
      assert s[..seg][seg..] == [];
      assert Segment(k, s[..seg]) == k.(skips := Add32(k.skips, seg));
      ZeroSegmentsOwe(Segment(k, s[..seg]), s[seg..]);
      Add32Associates(k.skips, seg, |s| - seg);
    }
  }

  lemma ZeroBufferOwed(k: Sink, buf: bytes)
    requires k.skips < U32_LIMIT && AllZero(buf)
    ensures var v := Valve(k);
            SparseWrite(Prefs(false, true), k, buf) == v.(skips := Add32(v.skips, |buf|))
  {
    var whole := |buf| - |buf| % 8;
    ZeroSegmentsOwe(Valve(k), buf[..whole]);
    ZeroBytesCounted(buf[whole..]);
    assert buf[whole..][|buf| - whole..] == [];
    Add32Associates(Valve(k).skips, whole, |buf| - whole);
  }

  /** The bound on the buffer is needed: an all-zero buffer is kept
      exactly when the owed zeros, after the valve, still fit 32 bits. */
  lemma ZeroBufferKeptIffItFits(k: Sink, buf: bytes)
    requires Inv(k) && k.skips < U32_LIMIT && AllZero(buf)
    ensures var k' := SparseWrite(Prefs(false, true), k, buf);
            (Inv(k') && Logical(k') == Logical(k) + buf) <==> Valve(k).skips + |buf| < U32_LIMIT
  {
    var v := Valve(k);
    ValveKeeps(k);
    var k' := v.(skips := Add32(v.skips, |buf|));
    ZeroBufferOwed(k, buf);
    if v.skips + |buf| < U32_LIMIT {
      AllZeroIsZeros(buf);
      AbsorbPiece(v, buf, |buf|);
      assert Absorb(v, |buf|, buf[|buf|..]) == k';
    }
  }
}
