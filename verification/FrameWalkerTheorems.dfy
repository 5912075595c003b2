/** The walk accepts exactly the concatenations of frames, and counts them exactly. */
module FrameWalkerTheorems {
  import opened Bytes
  import opened FileModel
  import opened FrameFormat
  import opened FrameWalker

  // ---- Reading what is known to be there ----

  /** `s` is in the file at `pos`. */
  predicate At(file: bytes, pos: nat, s: bytes) {
    pos + |s| <= |file| && file[pos..pos + |s|] == s
  }

  lemma ReadAt(file: bytes, pos: nat, s: bytes)
    requires At(file, pos, s)
    ensures Slice(file, pos, |s|) == s
  {
  }

  lemma AtSplits(file: bytes, pos: nat, a: bytes, b: bytes)
    ensures At(file, pos, a + b) <==> At(file, pos, a) && At(file, pos + |a|, b)
  {
    if At(file, pos, a + b) {
      assert file[pos..pos + |a|] == (a + b)[..|a|];
      assert file[pos + |a|..pos + |a| + |b|] == (a + b)[|a|..];
    }
    if At(file, pos, a) && At(file, pos + |a|, b) {
      assert file[pos..pos + |a + b|] == file[pos..pos + |a|] + file[pos + |a|..pos + |a| + |b|];
    }
  }

  // ---- Complete: a frame is walked over exactly ----

  lemma BlockFields(v: nat, last: nat, kind: nat, size: nat)
    requires last < 2 && kind < 4
    ensures v == last + 2 * kind + 8 * size <==> v % 2 == last && v / 2 % 4 == kind && v / 8 == size
  {
    if v == last + 2 * kind + 8 * size {
      DivideByTwo(v, kind + 4 * size, last);
      assert (kind + 4 * size) / 4 == size;
    }
    assert v / 8 == v / 2 / 4;
  }

  lemma BlockHeaderDecodes(b: Block, last: bool)
    requires ValidBlock(b)
    ensures var v := BlockHeader(b, last);
      && LE(LEBytes(v, 3)) == v
      && v / 2 % 4 == KindCode(b.kind) && v / 8 == b.size && (v % 2 == 1 <==> last)
  {
    var v := BlockHeader(b, last);
    hide LE, LEBytes;
    Pow256Values();
    hide Pow256;
    LEOfBytes(v, 3);
    BlockFields(v, Bit(last), KindCode(b.kind), b.size);
  }

  lemma BlockWalks(file: bytes, pos: nat, b: Block, last: bool)
    requires ValidBlock(b) && At(file, pos, EncodeBlock(b, last))
    ensures WalkBlocks(file, pos) ==
      if last then Some(pos + |EncodeBlock(b, last)|) else WalkBlocks(file, pos + |EncodeBlock(b, last)|)
  {
    hide LE, LEBytes;
    var header := LEBytes(BlockHeader(b, last), 3);
    AtSplits(file, pos, header, b.body);
    ReadAt(file, pos, header);
    BlockHeaderDecodes(b, last);
    hide BlockHeader;
  }

  lemma {:induction false} BlocksWalk(file: bytes, pos: nat, blocks: seq<Block>, last: Block)
    requires (forall b <- blocks :: ValidBlock(b)) && ValidBlock(last) && At(file, pos, EncodeBlocks(blocks, last))
    ensures WalkBlocks(file, pos) == Some(pos + |EncodeBlocks(blocks, last)|)
    decreases |blocks|
  {
    hide WalkBlocks, EncodeBlock;
    if blocks == [] {
      BlockWalks(file, pos, last, true);
    } else {
      var one := EncodeBlock(blocks[0], false);
      AtSplits(file, pos, one, EncodeBlocks(blocks[1..], last));
      BlockWalks(file, pos, blocks[0], false);
      BlocksWalk(file, pos + |one|, blocks[1..], last);
    }
  }

  lemma {:induction false} BlocksTakeRoom(blocks: seq<Block>, last: Block)
    ensures 3 <= |EncodeBlocks(blocks, last)|
  {
    if blocks != [] {
      BlocksTakeRoom(blocks[1..], last);
    }
  }

  /** What walking over a frame adds to the information. */
  function Tally(info: Info, f: Frame): Info
    requires ValidFrame(f)
  {
    match f
    case Zstd(h, _, _, checksum) =>
      var info1 := NoteHeader(NoteContentSize(info, ContentSize(h)), h);
      info1.(actual := info.actual + 1,
             usesCheck := info.usesCheck || h.checksum,
             checksum := if h.checksum then checksum else info.checksum)
    case Skippable(_, _) => info.(skippable := info.skippable + 1)
  }

  function TallyAll(info: Info, frames: seq<Frame>): Info
    requires ValidFrames(frames)
    decreases |frames|
  {
    if frames == [] then info else TallyAll(Tally(info, frames[0]), frames[1..])
  }

  /** The state after an iteration that goes on. */
  ghost function After(s: State, pos: nat, info: Info): State {
    State(pos, s.turn + 1, s.memory, info)
  }

  /** The header buffer after the read at `s.pos`. */
  ghost function Filled(file: bytes, s: State): bytes
    requires ValidState(s)
  {
    var data := Slice(file, s.pos, HEADER_MAX);
    data + s.memory(s.turn)[|data|..]
  }

  lemma BufferHolds(file: bytes, s: State, x: bytes)
    requires ValidState(s) && At(file, s.pos, x)
    ensures var n := |Slice(file, s.pos, HEADER_MAX)|;
      && (|x| <= HEADER_MAX ==> |x| <= n && Filled(file, s)[..|x|] == x)
      && (HEADER_MAX <= |x| ==> n == HEADER_MAX)
      && Filled(file, s)[..n] == Slice(file, s.pos, HEADER_MAX)
  {
  }

  lemma HeaderIsRead(file: bytes, s: State, h: Header, rest: bytes)
    requires ValidState(s) && ValidHeader(h) && At(file, s.pos, LEBytes(MAGIC, 4) + EncodeHeader(h) + rest)
    ensures var n := |Slice(file, s.pos, HEADER_MAX)|; var buffer := Filled(file, s);
      && HEADER_MIN <= n && LE(buffer[..4]) == MAGIC && buffer[4] as nat == Descriptor(h)
      && GetFrameHeader(buffer[..n]) == Got(4 + |EncodeHeader(h)|, h)
  {
    hide LE, LEBytes, GetFrameHeader;
    var n := |Slice(file, s.pos, HEADER_MAX)|;
    var buffer := Filled(file, s);
    var magic := LEBytes(MAGIC, 4);
    var front := magic + EncodeHeader(h);
    AtSplits(file, s.pos, front, rest);
    BufferHolds(file, s, front);
    Pow256Values();
    LEOfBytes(MAGIC, 4);
    assert buffer[..4] == front[..4] == magic;
    assert buffer[4] == front[4] == EncodeHeader(h)[0];
    HeaderDecodes(h, magic, buffer[..n][|front|..]);
    assert buffer[..n] == front + buffer[..n][|front|..];
  }

  lemma ChecksumWalks(file: bytes, end: nat, buffer: bytes, info: Info, h: Header, checksum: bytes)
    requires ValidHeader(h) && 5 <= |buffer| && buffer[4] as nat == Descriptor(h)
    requires |checksum| == (if h.checksum then 4 else 0) && At(file, end, checksum) && |info.checksum| == 4
    ensures WalkChecksum(file, end, buffer, info) == Moved(end + |checksum|, info.(
      actual := info.actual + 1, usesCheck := info.usesCheck || h.checksum,
      checksum := if h.checksum then checksum else info.checksum))
  {
    DescriptorDecodes(h);
    if h.checksum {
      ReadAt(file, end, checksum);
      assert ReadInto(info.checksum, checksum) == checksum;
    }
  }

  lemma ZstdWalks(file: bytes, size: nat, s: State, f: Frame)
    requires ValidState(s) && f.Zstd? && ValidFrame(f) && At(file, s.pos, Encode(f))
    ensures Iterate(file, size, s) == Go(After(s, s.pos + |Encode(f)|, Tally(s.info, f)))
  {
    hide LE, LEBytes, WalkZstd, Descriptor, EncodeBlocks, EncodeHeader, Tally;
    var head := LEBytes(MAGIC, 4) + EncodeHeader(f.header);
    var blocks := EncodeBlocks(f.blocks, f.last);
    assert Encode(f) == head + (blocks + f.checksum);
    hide Encode;
    AtSplits(file, s.pos, head, blocks + f.checksum);
    AtSplits(file, s.pos + |head|, blocks, f.checksum);
    HeaderIsRead(file, s, f.header, blocks + f.checksum);
    hide At;
    ZstdBodyWalks(file, s.pos, Filled(file, s), |Slice(file, s.pos, HEADER_MAX)|, s.info, f);
  }

  lemma ZstdBodyWalks(file: bytes, pos: nat, buffer: bytes, n: nat, info: Info, f: Frame)
    requires f.Zstd? && ValidFrame(f) && HEADER_MIN <= n <= |buffer| && |info.checksum| == 4
    requires buffer[4] as nat == Descriptor(f.header)
    requires GetFrameHeader(buffer[..n]) == Got(4 + |EncodeHeader(f.header)|, f.header)
    requires var at := pos + 4 + |EncodeHeader(f.header)|; var blocks := EncodeBlocks(f.blocks, f.last);
      At(file, at, blocks) && At(file, at + |blocks|, f.checksum)
    ensures var size := 4 + |EncodeHeader(f.header)| + |EncodeBlocks(f.blocks, f.last)| + |f.checksum|;
      WalkZstd(file, pos, buffer, n, info) == Moved(pos + size, Tally(info, f))
  {
    hide LE, GetFrameHeader, WalkBlocks, WalkChecksum, WindowSize, Descriptor, EncodeBlocks, EncodeHeader, ContentSize, At;
    var at := pos + 4 + |EncodeHeader(f.header)|;
    BlocksWalk(file, at, f.blocks, f.last);
    var info1 := NoteHeader(NoteContentSize(info, ContentSize(f.header)), f.header);
    ChecksumWalks(file, at + |EncodeBlocks(f.blocks, f.last)|, buffer, info1, f.header, f.checksum);
  }

  lemma SkippableWalks(file: bytes, size: nat, s: State, f: Frame)
    requires ValidState(s) && f.Skippable? && ValidFrame(f) && At(file, s.pos, Encode(f))
    ensures Iterate(file, size, s) == Go(After(s, s.pos + |Encode(f)|, Tally(s.info, f)))
  {
    hide LE, LEBytes, WalkZstd;
    var magic, length := LEBytes(16 * SKIPPABLE_MAGIC + f.digit, 4), LEBytes(|f.content|, 4);
    assert Encode(f) == (magic + length) + f.content;
    AtSplits(file, s.pos, magic + length, f.content);
    BufferHolds(file, s, magic + length);
    Pow256Values();
    LEOfBytes(16 * SKIPPABLE_MAGIC + f.digit, 4);
    LEOfBytes(|f.content|, 4);
    var buffer := Filled(file, s);
    assert buffer[..4] == (magic + length)[..4] == magic;
    assert buffer[4..8] == (magic + length)[4..8] == length;
  }

  lemma FrameWalks(file: bytes, size: nat, s: State, f: Frame)
    requires ValidState(s) && ValidFrame(f) && At(file, s.pos, Encode(f))
    ensures Iterate(file, size, s) == Go(After(s, s.pos + |Encode(f)|, Tally(s.info, f)))
  {
    if f.Zstd? {
      ZstdWalks(file, size, s, f);
    } else {
      SkippableWalks(file, size, s, f);
    }
  }

  lemma {:induction false} FramesWalk(file: bytes, size: nat, s: State, frames: seq<Frame>) returns (t: State)
    requires ValidState(s) && ValidFrames(frames) && At(file, s.pos, EncodeAll(frames))
    ensures ValidState(t) && Walk(file, size, s, |frames|) == Go(t)
    ensures t.pos == s.pos + |EncodeAll(frames)| && t.info == TallyAll(s.info, frames)
    decreases |frames|
  {
    hide Iterate, At, Encode, Tally, ValidFrame;
    if frames == [] {
      t := s;
    } else {
      var next := FirstFrameWalks(file, size, s, frames);
      hide ValidFrames, EncodeAll, TallyAll;
      OneIteration(file, size, s, next, |frames| - 1);
      hide Walk;
      t := FramesWalk(file, size, next, frames[1..]);
    }
  }

  lemma OneIteration(file: bytes, size: nat, s: State, next: State, fuel: nat)
    requires ValidState(s) && Iterate(file, size, s) == Go(next)
    ensures ValidState(next) && Walk(file, size, s, fuel + 1) == Walk(file, size, next, fuel)
  {
    hide Iterate;
  }

  lemma FirstFrameWalks(file: bytes, size: nat, s: State, frames: seq<Frame>) returns (next: State)
    requires ValidState(s) && ValidFrames(frames) && frames != [] && At(file, s.pos, EncodeAll(frames))
    ensures Iterate(file, size, s) == Go(next) && ValidState(next) && ValidFrames(frames[1..])
    ensures At(file, next.pos, EncodeAll(frames[1..])) && s.pos + |EncodeAll(frames)| == next.pos + |EncodeAll(frames[1..])|
    ensures TallyAll(next.info, frames[1..]) == TallyAll(s.info, frames)
  {
    hide Iterate, Encode, Tally, ValidFrame, Filled;
    AtSplits(file, s.pos, Encode(frames[0]), EncodeAll(frames[1..]));
    hide At;
    FrameWalks(file, size, s, frames[0]);
    next := Iterate(file, size, s).state;
  }

  /** Iterations compose. */
  lemma {:induction false} WalkOn(file: bytes, size: nat, s: State, m: nat, t: State, n: nat)
    requires ValidState(s) && ValidState(t) && Walk(file, size, s, m) == Go(t)
    ensures Walk(file, size, s, m + n) == Walk(file, size, t, n)
    decreases m
  {
    hide Iterate;
    if m != 0 {
      WalkOn(file, size, Iterate(file, size, s).state, m - 1, t, n);
    }
  }

  // ---- Sound: what was walked over was a frame ----

  /** The block that a walk over one block went over. */
  lemma BlockWasEncoded(file: bytes, pos: nat) returns (b: Block, last: bool, next: nat)
    requires WalkBlocks(file, pos).Some?
    ensures pos + 3 <= |file| && pos + 3 <= next
    ensures WalkBlocks(file, pos) == if last then Some(next) else WalkBlocks(file, next)
    ensures next <= |file| ==> ValidBlock(b) && file[pos..next] == EncodeBlock(b, last)
  {
    hide LE;
    var data := Slice(file, pos, 3);
    assert data == file[pos..pos + 3];
    var v := LE(data);
    BytesOfLE(data);
    Pow256Values();
    var kind := v / 2 % 4;
    var size := v / 8;
    var taken := if kind == 1 then 1 else size;
    next, last := pos + 3 + taken, v % 2 == 1;
    var body := if next <= |file| then file[pos + 3..next] else [];
    b := Block(if kind == 0 then Raw else if kind == 1 then Rle else Compressed, size, body);
    BlockFields(v, Bit(last), kind, size);
    hide LEBytes;
    if next <= |file| {
      assert BlockHeader(b, last) == v;
      assert file[pos..next] == file[pos..pos + 3] + file[pos + 3..next];
    }
  }

  lemma {:induction false} BlocksWereEncoded(file: bytes, pos: nat) returns (blocks: seq<Block>, last: Block)
    requires WalkBlocks(file, pos).Some? && WalkBlocks(file, pos).value <= |file|
    ensures (forall b <- blocks :: ValidBlock(b)) && ValidBlock(last)
    ensures file[pos..WalkBlocks(file, pos).value] == EncodeBlocks(blocks, last)
    decreases |file| - pos
  {
    hide WalkBlocks, EncodeBlock, ValidBlock;
    var b, isLast, next := BlockWasEncoded(file, pos);
    if isLast {
      blocks, last := [], b;
    } else {
      var end := WalkBlocks(file, pos).value;
      EndsAfter(file, next);
      blocks, last := BlocksWereEncoded(file, next);
      SliceSplits(file, pos, next, end);
      assert ([b] + blocks)[1..] == blocks;
      blocks := [b] + blocks;
    }
  }

  lemma EndsAfter(file: bytes, pos: nat)
    requires WalkBlocks(file, pos).Some?
    ensures pos + 3 <= |file| && pos < WalkBlocks(file, pos).value
  {
  }

  /** A Zstandard frame that the walk went over, unless its end lies past the end of the file. */
  lemma ZstdWasEncoded(file: bytes, size: nat, s: State) returns (f: Frame)
    requires ValidState(s) && Iterate(file, size, s).Go?
    requires HEADER_MIN <= |Slice(file, s.pos, HEADER_MAX)| && LE(Filled(file, s)[..4]) == MAGIC
    ensures var t := Iterate(file, size, s).state;
      && s.pos < t.pos && s.pos <= |file|
      && (t.pos <= |file| ==> f.Zstd? && ValidFrame(f) && file[s.pos..t.pos] == Encode(f))
  {
    hide LE, LEBytes, GetFrameHeader, WalkBlocks, WindowSize, Descriptor;
    var t := Iterate(file, size, s).state;
    var n := |Slice(file, s.pos, HEADER_MAX)|;
    var buffer := Filled(file, s);
    assert buffer[..n] == Slice(file, s.pos, HEADER_MAX);
    var r := GetFrameHeader(buffer[..n]);
    HeaderWasEncoded(buffer[..n]);
    var end := WalkBlocks(file, s.pos + r.size).value;
    EndsAfter(file, s.pos + r.size);
    f := Skippable(0, []);
    if t.pos <= |file| {
      var blocks, last := BlocksWereEncoded(file, s.pos + r.size);
      f := Zstd(r.header, blocks, last, file[end..t.pos]);
      HeaderBytes(file, s, r.size);
      HeaderChecksumFlag(buffer, n, r.header);
      assert |f.checksum| == if r.header.checksum then 4 else 0;
      JoinFrame(file, s.pos, s.pos + 4, s.pos + r.size, end, t.pos);
    }
  }

  lemma HeaderChecksumFlag(buffer: bytes, n: nat, h: Header)
    requires 5 <= n <= |buffer| && GetFrameHeader(buffer[..n]).Got? && GetFrameHeader(buffer[..n]).header == h
    ensures h.checksum <==> buffer[4] as nat / 4 % 2 == 1
  {
  }

  lemma SliceOfSlice(s: bytes, a: nat, b: nat, i: nat, j: nat)
    requires a <= b <= |s| && i <= j <= b - a
    ensures s[a..b][i..j] == s[a + i..a + j]
  {
    var t := s[a..b];
    forall k | 0 <= k < j - i ensures t[i..j][k] == s[a + i..a + j][k] {
      assert t[i..j][k] == t[i + k] == s[a + i + k];
    }
  }

  lemma HeaderBytes(file: bytes, s: State, k: nat)
    requires ValidState(s) && 4 <= k <= |Slice(file, s.pos, HEADER_MAX)|
    ensures var n := |Slice(file, s.pos, HEADER_MAX)|; var buffer := Filled(file, s);
      && s.pos + k <= |file| && file[s.pos + 4..s.pos + k] == buffer[..n][4..k]
      && file[s.pos..s.pos + 4] == buffer[..4]
      && LEBytes(LE(buffer[..4]), 4) == buffer[..4]
  {
    var n := |Slice(file, s.pos, HEADER_MAX)|;
    assert Slice(file, s.pos, HEADER_MAX) == file[s.pos..s.pos + n];
    assert Filled(file, s)[..n] == file[s.pos..s.pos + n];
    assert Filled(file, s)[..4] == Filled(file, s)[..n][..4];
    assert file[s.pos..s.pos + 4] == file[s.pos..s.pos + n][..4];
    SliceOfSlice(file, s.pos, s.pos + n, 4, k);
    BytesOfLE(Filled(file, s)[..4]);
  }

  lemma JoinFrame(file: bytes, a: nat, b: nat, c: nat, d: nat, e: nat)
    requires a <= b <= c <= d <= e <= |file|
    ensures file[a..e] == file[a..b] + (file[b..c] + (file[c..d] + file[d..e]))
  {
  }

  predicate SkippableMagic(b: bytes) {
    4 <= |b| && b[0] as nat / 16 == 5 && b[1] == 0x2A && b[2] == 0x4D && b[3] == 0x18
  }

  lemma SkippableBytes(b: bytes)
    requires |b| == 4
    ensures LE(b) / 16 == SKIPPABLE_MAGIC <==> SkippableMagic(b)
  {
    FourBytes(b);
  }

  lemma MagicFirst(b: bytes)
    requires |b| == 4 && LE(b) == MAGIC
    ensures b[0] == 0x28
  {
    FourBytes(b);
  }

  /** The size field of a skippable frame, when adding the 8 bytes before the content wraps 32 bits. */
  lemma WrappedSize(b: bytes, k: nat)
    requires |b| == 4 && k < 8 && (8 + LE(b)) % U32_LIMIT == k
    ensures b == [(0xF8 + k) as byte, 0xFF, 0xFF, 0xFF]
  {
    FourBytes(b);
    assert 8 + LE(b) == U32_LIMIT + k;
  }

  lemma SkippableIterates(file: bytes, size: nat, s: State)
    requires ValidState(s) && HEADER_MIN <= |Slice(file, s.pos, HEADER_MAX)|
    requires LE(Filled(file, s)[..4]) / 16 == SKIPPABLE_MAGIC
    ensures var n := |Slice(file, s.pos, HEADER_MAX)|; var buffer := Filled(file, s);
      && Iterate(file, size, s)
         == Go(After(s, s.pos + (8 + LE(buffer[4..8])) % U32_LIMIT, s.info.(skippable := s.info.skippable + 1)))
      && s.pos + n <= |file| && file[s.pos..s.pos + n] == buffer[..n] && SkippableMagic(buffer)
  {
    hide LE, WalkZstd;
    SkippableBytes(Filled(file, s)[..4]);
  }

  lemma NotAFrame(file: bytes, size: nat, s: State)
    requires ValidState(s) && s.pos < |file| && file[s.pos] != 0x28 && file[s.pos] as nat / 16 != 5
    ensures Iterate(file, size, s) == Stop(NotZstd, s.info)
  {
    hide LE, WalkZstd, WalkSkippable;
    var magic := Filled(file, s)[..4];
    if HEADER_MIN <= |Slice(file, s.pos, HEADER_MAX)| {
      assert magic[0] == file[s.pos];
      SkippableBytes(magic);
      if LE(magic) == MAGIC {
        MagicFirst(magic);
      }
    }
  }

  /** A size field that wraps sends the walk back inside the header, where no frame starts. */
  lemma WrapIsCaught(file: bytes, size: nat, s: State)
    requires ValidState(s) && HEADER_MIN <= |Slice(file, s.pos, HEADER_MAX)|
    requires LE(Filled(file, s)[..4]) / 16 == SKIPPABLE_MAGIC
    requires s.pos < Iterate(file, size, s).state.pos < s.pos + 8
    requires Iterate(file, size, s).state.pos < s.pos + |Slice(file, s.pos, HEADER_MAX)|
    ensures var t := Iterate(file, size, s).state; Iterate(file, size, t) == Stop(NotZstd, t.info)
  {
    hide LE, Iterate;
    SkippableIterates(file, size, s);
    var t := Iterate(file, size, s).state;
    var n := |Slice(file, s.pos, HEADER_MAX)|;
    var k := t.pos - s.pos;
    var buffer := Filled(file, s);
    WrappedSize(buffer[4..8], k);
    assert file[t.pos] == file[s.pos..s.pos + n][k] == buffer[k];
    assert 4 <= k ==> buffer[k] == buffer[4..8][k - 4];
    NotAFrame(file, size, t);
  }

  /** A skippable frame that the walk went over, unless its end lies past the end of the file. */
  lemma SkippableWasEncoded(file: bytes, size: nat, s: State) returns (f: Frame)
    requires ValidState(s) && HEADER_MIN <= |Slice(file, s.pos, HEADER_MAX)|
    requires LE(Filled(file, s)[..4]) / 16 == SKIPPABLE_MAGIC
    requires s.pos + 8 <= Iterate(file, size, s).state.pos <= |file|
    ensures var t := Iterate(file, size, s).state;
      f.Skippable? && ValidFrame(f) && file[s.pos..t.pos] == Encode(f)
  {
    hide LE, LEBytes, Iterate;
    SkippableIterates(file, size, s);
    var t := Iterate(file, size, s).state;
    var buffer := Filled(file, s);
    HeaderBytes(file, s, 8);
    var v := LE(buffer[..4]);
    var length := LE(buffer[4..8]);
    BytesOfLE(buffer[4..8]);
    Pow256Values();
    assert t.pos == s.pos + 8 + length;
    f := Skippable(v % 16, file[s.pos + 8..t.pos]);
    assert v == 16 * SKIPPABLE_MAGIC + v % 16;
    assert file[s.pos + 4..s.pos + 8] == buffer[4..8];
    JoinFrame(file, s.pos, s.pos + 4, s.pos + 8, t.pos, t.pos);
  }

  // ---- Where the frames end ----

  /** No whole frame begins at `pos`. */
  ghost predicate NoFrame(file: bytes, pos: nat) {
    forall f: Frame :: ValidFrame(f) ==> !At(file, pos, Encode(f))
  }

  lemma Begins(file: bytes, pos: nat, f: Frame)
    requires ValidFrame(f) && At(file, pos, Encode(f))
    ensures !NoFrame(file, pos)
  {
  }

  lemma FrameTakesEight(f: Frame)
    requires ValidFrame(f)
    ensures 8 <= |Encode(f)|
  {
    if f.Zstd? {
      BlocksTakeRoom(f.blocks, f.last);
    }
  }

  /** The walk goes over all the frames there are from here on. */
  lemma {:induction false} Parse(file: bytes, size: nat, s: State) returns (frames: seq<Frame>, t: State)
    requires ValidState(s) && s.pos <= |file|
    ensures ValidFrames(frames) && At(file, s.pos, EncodeAll(frames)) && ValidState(t)
    ensures Walk(file, size, s, |frames|) == Go(t) && t.pos == s.pos + |EncodeAll(frames)| && NoFrame(file, t.pos)
    decreases |file| - s.pos
  {
    hide Iterate, Encode, Tally, ValidFrame;
    frames, t := [], s;
    if f: Frame :| ValidFrame(f) && At(file, s.pos, Encode(f)) {
      FrameWalks(file, size, s, f);
      FrameTakesEight(f);
      var next := Iterate(file, size, s).state;
      frames, t := Parse(file, size, next);
      OneIteration(file, size, s, next, |frames|);
      hide Walk;
      AtSplits(file, s.pos, Encode(f), EncodeAll(frames));
      assert ([f] + frames)[1..] == frames;
      frames := [f] + frames;
    }
  }

  /** The header buffer, once `rest` was read over `garbage`, begins with a skippable frame's magic number
      and the bytes `length` of its size field. */
  predicate SkippableHead(rest: bytes, garbage: bytes, length: bytes)
    requires |garbage| == HEADER_MAX
  {
    && HEADER_MIN <= |rest| && SkippableMagic(rest[..4])
    && length == if |rest| < 8 then rest[4..] + garbage[|rest|..8] else rest[4..8]
  }

  /** A skippable header cut short by the end of the file, whose size field, with the bytes that happen to
      be in the buffer, leads exactly to the end of the file. */
  predicate CutHead(rest: bytes, garbage: bytes)
    requires |garbage| == HEADER_MAX
  {
    |rest| < 8 && SkippableHead(rest, garbage, [(0xF8 + |rest|) as byte, 0xFF, 0xFF, 0xFF])
  }

  /** A skippable header whose size field leads back to where the header began. */
  predicate StuckHead(rest: bytes, garbage: bytes)
    requires |garbage| == HEADER_MAX
  {
    SkippableHead(rest, garbage, [0xF8, 0xFF, 0xFF, 0xFF])
  }

  /** The same in terms of an iteration. */
  lemma HeadIsRead(file: bytes, s: State, length: bytes)
    requires ValidState(s) && s.pos <= |file|
    ensures SkippableHead(file[s.pos..], s.memory(s.turn), length) <==>
      && HEADER_MIN <= |Slice(file, s.pos, HEADER_MAX)|
      && LE(Filled(file, s)[..4]) / 16 == SKIPPABLE_MAGIC && Filled(file, s)[4..8] == length
  {
    hide LE;
    var rest, garbage := file[s.pos..], s.memory(s.turn);
    if HEADER_MIN <= |rest| {
      var buffer := Filled(file, s);
      assert Slice(rest, 0, HEADER_MAX) == Slice(file, s.pos, HEADER_MAX);
      FirstEight(rest, garbage, buffer);
      SkippableBytes(buffer[..4]);
    }
  }

  lemma FirstEight(rest: bytes, garbage: bytes, buffer: bytes)
    requires |garbage| == |buffer| == HEADER_MAX && HEADER_MIN <= |rest|
    requires buffer == Slice(rest, 0, HEADER_MAX) + garbage[|Slice(rest, 0, HEADER_MAX)|..]
    ensures buffer[..4] == rest[..4]
    ensures buffer[4..8] == if |rest| < 8 then rest[4..] + garbage[|rest|..8] else rest[4..8]
  {
    forall k | 0 <= k < 8 ensures buffer[k] == if k < |rest| then rest[k] else garbage[k] {
    }
  }

  lemma SizeFields(b: bytes, k: nat)
    requires |b| == 4 && k < 8
    ensures (8 + LE(b)) % U32_LIMIT == k <==> b == [(0xF8 + k) as byte, 0xFF, 0xFF, 0xFF]
  {
    FourBytes(b);
    if (8 + LE(b)) % U32_LIMIT == k {
      WrappedSize(b, k);
    }
  }

  /** A header whose size field wraps moves the walk by this much. */
  lemma HeadMoves(file: bytes, size: nat, s: State, k: nat)
    requires ValidState(s) && s.pos <= |file| && k < 8
    requires SkippableHead(file[s.pos..], s.memory(s.turn), [(0xF8 + k) as byte, 0xFF, 0xFF, 0xFF])
    ensures Iterate(file, size, s).Go? && Iterate(file, size, s).state.pos == s.pos + k
  {
    hide LE, Iterate;
    HeadIsRead(file, s, [(0xF8 + k) as byte, 0xFF, 0xFF, 0xFF]);
    SizeFields(Filled(file, s)[4..8], k);
    SkippableIterates(file, size, s);
  }

  /** Where no frame begins, an iteration that goes on is stuck, or comes to the end of the file behind a
      header cut short, or goes past the end, or lands where the next iteration finds no frame. */
  lemma NoFrameIterates(file: bytes, size: nat, s: State)
    requires ValidState(s) && s.pos <= |file| && NoFrame(file, s.pos) && Iterate(file, size, s).Go?
    ensures var u := Iterate(file, size, s).state; var rest, garbage := file[s.pos..], s.memory(s.turn);
      || (u.pos == s.pos && StuckHead(rest, garbage))
      || (u.pos == |file| && CutHead(rest, garbage))
      || |file| < u.pos
      || Iterate(file, size, u) == Stop(NotZstd, u.info)
  {
    hide LE, Iterate, Encode, ValidFrame, SkippableHead, NoFrame;
    GoingOnMeans(file, size, s);
    var u := Iterate(file, size, s).state;
    if u.pos <= |file| {
      if LE(Filled(file, s)[..4]) == MAGIC {
        var f := ZstdWasEncoded(file, size, s);
        Begins(file, s.pos, f);
      } else if s.pos + 8 <= u.pos {
        SkippableIterates(file, size, s);
        var f := SkippableWasEncoded(file, size, s);
        Begins(file, s.pos, f);
      } else {
        HeadWraps(file, size, s);
      }
    }
  }

  lemma HeadWraps(file: bytes, size: nat, s: State)
    requires ValidState(s) && HEADER_MIN <= |Slice(file, s.pos, HEADER_MAX)|
    requires LE(Filled(file, s)[..4]) / 16 == SKIPPABLE_MAGIC && Iterate(file, size, s).Go?
    requires Iterate(file, size, s).state.pos < s.pos + 8 && s.pos <= |file| && Iterate(file, size, s).state.pos <= |file|
    ensures var u := Iterate(file, size, s).state; var rest, garbage := file[s.pos..], s.memory(s.turn);
      || (u.pos == s.pos && StuckHead(rest, garbage))
      || (u.pos == |file| && CutHead(rest, garbage))
      || Iterate(file, size, u) == Stop(NotZstd, u.info)
  {
    hide LE, Iterate, SkippableHead;
    SkippableIterates(file, size, s);
    var u := Iterate(file, size, s).state;
    var k := u.pos - s.pos;
    SizeFields(Filled(file, s)[4..8], k);
    HeadIsRead(file, s, [(0xF8 + k) as byte, 0xFF, 0xFF, 0xFF]);
    var n := |Slice(file, s.pos, HEADER_MAX)|;
    if 0 < k < n {
      WrapIsCaught(file, size, s);
    }
  }

  lemma PastTheEnd(file: bytes, size: nat, s: State)
    requires ValidState(s) && |file| < s.pos
    ensures Iterate(file, size, s).Stop? && (size == |file| ==> Iterate(file, size, s).status != Success)
  {
    assert Slice(file, s.pos, HEADER_MAX) == [];
  }

  lemma GoingOnMeans(file: bytes, size: nat, s: State)
    requires ValidState(s) && Iterate(file, size, s).Go?
    ensures HEADER_MIN <= |Slice(file, s.pos, HEADER_MAX)|
    ensures LE(Filled(file, s)[..4]) == MAGIC || LE(Filled(file, s)[..4]) / 16 == SKIPPABLE_MAGIC
  {
  }

  // ---- When the walk succeeds ----

  ghost predicate Succeeded(next: Next) {
    next.Stop? && next.status == Success
  }

  lemma StopsSuccessfully(file: bytes, s: State)
    requires ValidState(s) && s.pos <= |file| && Succeeded(Iterate(file, |file|, s))
    ensures s.pos == |file| && 0 < |file|
  {
    hide LE, GetFrameHeader, WalkBlocks, ContentSize, WindowSize;
  }

  /** From where no frame begins, success means the end of the file, there or behind a header cut short. */
  lemma {:induction false} SuccessFromNoFrame(file: bytes, s: State, fuel: nat)
    requires ValidState(s) && s.pos <= |file| && NoFrame(file, s.pos)
    requires Succeeded(Walk(file, |file|, s, fuel))
    ensures s.pos == |file| || CutHead(file[s.pos..], s.memory(s.turn))
    decreases fuel
  {
    hide Iterate, NoFrame;
    if Iterate(file, |file|, s).Stop? {
      StopsSuccessfully(file, s);
    } else {
      var u := Iterate(file, |file|, s).state;
      NoFrameIterates(file, |file|, s);
      if |file| < u.pos {
        PastTheEnd(file, |file|, u);
      } else if u.pos == s.pos {
        SuccessFromNoFrame(file, u, fuel - 1);
      }
    }
  }

  /** Success is only reported on a concatenation of frames, walked over to the last byte, or on one that
      ends in a skippable header cut short, whose missing bytes come from the buffer of that iteration. */
  lemma {:induction false} Sound(file: bytes, s: State, fuel: nat) returns (frames: seq<Frame>, rest: bytes)
    requires ValidState(s) && s.pos <= |file| && Succeeded(Walk(file, |file|, s, fuel))
    ensures ValidFrames(frames) && file[s.pos..] == EncodeAll(frames) + rest
    ensures rest == [] || CutHead(rest, s.memory(s.turn + |frames|))
  {
    hide Iterate, EncodeAll, NoFrame, ValidFrames;
    var t;
    frames, t := Parse(file, |file|, s);
    rest := file[t.pos..];
    SliceSplits(file, s.pos, t.pos, |file|);
    if fuel < |frames| {
      WentOn(file, |file|, s, fuel, |frames|);
    }
    WalkOn(file, |file|, s, |frames|, t, fuel - |frames|);
    hide Walk;
    SuccessFromNoFrame(file, t, fuel - |frames|);
  }

  lemma {:induction false} WentOn(file: bytes, size: nat, s: State, m: nat, n: nat)
    requires ValidState(s) && m <= n && Walk(file, size, s, n).Go?
    ensures Walk(file, size, s, m).Go?
    decreases m
  {
    hide Iterate;
    if m != 0 {
      WentOn(file, size, Iterate(file, size, s).state, m - 1, n - 1);
    }
  }

  // ---- Whole files ----

  /** The walk over a whole file from a zeroed `fileInfo_t`. */
  ghost function Start(memory: nat -> bytes): (s: State)
    requires ValidMemory(memory)
    ensures ValidState(s)
  {
    State(0, 0, memory, Info(0, 0, 0, 0, 0, false, false, Zeros(4)))
  }

  function NumZstd(frames: seq<Frame>): nat {
    if frames == [] then 0 else Bit(frames[0].Zstd?) + NumZstd(frames[1..])
  }

  /** The content size the frame announces, when it announces one that can be told from the two
      values the library uses for "unknown" and "error". */
  function Announced(f: Frame): Option<nat> {
    if f.Skippable? then Some(0)
    else
      var size := ContentSize(f.header);
      if size.None? || size.value == CONTENTSIZE_UNKNOWN || size.value == CONTENTSIZE_ERROR then None else size
  }

  function TotalContent(frames: seq<Frame>): nat {
    if frames == [] then 0
    else (if Announced(frames[0]).Some? then Announced(frames[0]).value else 0) + TotalContent(frames[1..])
  }

  predicate ChecksumUsed(f: Frame) {
    f.Zstd? && f.header.checksum
  }

  lemma {:induction false} TallyCounts(info: Info, frames: seq<Frame>)
    requires ValidFrames(frames) && info.decompressedSize < U64_LIMIT
    ensures var t := TallyAll(info, frames);
      && t.actual == info.actual + NumZstd(frames)
      && t.skippable == info.skippable + |frames| - NumZstd(frames)
      && t.decompressedSize == (info.decompressedSize + TotalContent(frames)) % U64_LIMIT
      && (t.unavailable <==> info.unavailable || exists f <- frames :: Announced(f).None?)
      && (t.usesCheck <==> info.usesCheck || exists f <- frames :: ChecksumUsed(f))
    decreases |frames|
  {
    hide LE, WindowSize, ContentSize;
    if frames != [] {
      var info1 := Tally(info, frames[0]);
      OneCounts(info, frames[0]);
      hide Tally, Announced, ChecksumUsed, ValidFrame;
      assert forall f <- frames :: f == frames[0] || f in frames[1..];
      TallyCounts(info1, frames[1..]);
      var size := if Announced(frames[0]).Some? then Announced(frames[0]).value else 0;
      ModAdd(info.decompressedSize, size, TotalContent(frames[1..]));
    }
  }

  lemma OneCounts(info: Info, f: Frame)
    requires ValidFrame(f) && info.decompressedSize < U64_LIMIT
    ensures var t := Tally(info, f);
      && t.actual == info.actual + Bit(f.Zstd?) && t.skippable == info.skippable + 1 - Bit(f.Zstd?)
      && t.decompressedSize == (info.decompressedSize + if Announced(f).Some? then Announced(f).value else 0) % U64_LIMIT
      && (t.unavailable <==> info.unavailable || Announced(f).None?)
      && (t.usesCheck <==> info.usesCheck || ChecksumUsed(f))
  {
    hide LE, WindowSize, ContentSize;
  }

  lemma ModAdd(a: nat, b: nat, c: nat)
    ensures ((a + b) % U64_LIMIT + c) % U64_LIMIT == (a + (b + c)) % U64_LIMIT
  {
    var q := (a + b) / U64_LIMIT;
    assert a + b == q * U64_LIMIT + (a + b) % U64_LIMIT;
    ModMultiple((a + b) % U64_LIMIT + c, q);
  }

  lemma {:induction false} ModMultiple(r: nat, q: nat)
    ensures (q * U64_LIMIT + r) % U64_LIMIT == r % U64_LIMIT
  {
    if q != 0 {
      ModMultiple(r, q - 1);
      assert q * U64_LIMIT + r == ((q - 1) * U64_LIMIT + r) + U64_LIMIT;
    }
  }

  /** The dictionary IDs of the Zstandard frames, 0 for none. */
  function DictIDs(frames: seq<Frame>): seq<nat> {
    if frames == [] then []
    else (if frames[0].Zstd? then [LE(frames[0].header.did)] else []) + DictIDs(frames[1..])
  }

  /** The dictionary ID that is shown after these, `current` being shown before. */
  function Shown(current: nat, ids: seq<nat>): nat
    decreases |ids|
  {
    if ids == [] then current else Shown(if current != 0 && current != ids[0] then 0 else ids[0], ids[1..])
  }

  lemma {:induction false} TallyShows(info: Info, frames: seq<Frame>)
    requires ValidFrames(frames)
    ensures TallyAll(info, frames).dictID == Shown(info.dictID, DictIDs(frames))
    decreases |frames|
  {
    hide LE, WindowSize, ContentSize;
    if frames != [] {
      TallyShows(Tally(info, frames[0]), frames[1..]);
      if frames[0].Zstd? {
        assert DictIDs(frames)[1..] == DictIDs(frames[1..]);
      } else {
        assert DictIDs(frames) == DictIDs(frames[1..]);
      }
    }
  }

  /** Frames with one dictionary ID show it; otherwise what is shown is 0 or the last one. */
  lemma {:induction false} ShownIs(current: nat, ids: seq<nat>)
    requires ids != []
    ensures Shown(current, ids) == 0 || Shown(current, ids) == ids[|ids| - 1]
    ensures (current == 0 || current == ids[0]) && (forall id <- ids :: id == ids[0]) ==> Shown(current, ids) == ids[0]
    decreases |ids|
  {
    var next := if current != 0 && current != ids[0] then 0 else ids[0];
    if |ids| == 1 {
      assert Shown(next, ids[1..]) == next;
    } else {
      assert ids[1] in ids && forall id <- ids[1..] :: id in ids;
      ShownIs(next, ids[1..]);
    }
  }

  /** How many IDs at the end stand alone: not 0, and not a repetition of the one before. */
  function Singles(ids: seq<nat>): (k: nat)
    ensures k <= |ids|
  {
    var n := |ids|;
    if n == 0 || ids[n - 1] == 0 || (1 < n && ids[n - 2] == ids[n - 1]) then 0 else 1 + Singles(ids[..n - 1])
  }

  /** 0 is shown after these: they begin, or go on, without an ID and an even number of single ones follow,
      or an ID is repeated and an odd number of single ones follows. */
  predicate EndsAtZero(ids: seq<nat>) {
    var k := Singles(ids);
    if k == |ids| || ids[|ids| - k - 1] == 0 then k % 2 == 0 else k % 2 == 1
  }

  lemma {:induction false} ShownLast(current: nat, ids: seq<nat>)
    requires ids != []
    ensures var before := Shown(current, ids[..|ids| - 1]); var id := ids[|ids| - 1];
      Shown(current, ids) == if before != 0 && before != id then 0 else id
    decreases |ids|
  {
    var next := if current != 0 && current != ids[0] then 0 else ids[0];
    if |ids| == 1 {
      assert Shown(next, ids[1..]) == next;
    } else {
      ShownLast(next, ids[1..]);
      assert ids[..|ids| - 1][1..] == ids[1..][..|ids| - 2];
    }
  }

  lemma {:induction false} ShownIsZeroIff(ids: seq<nat>)
    ensures Shown(0, ids) == 0 <==> EndsAtZero(ids)
  {
    var n := |ids|;
    if n != 0 {
      var front := ids[..n - 1];
      ShownLast(0, ids);
      ShownIsZeroIff(front);
      if front != [] {
        ShownIs(0, front);
      }
      if Singles(ids) != 0 {
        assert Singles(ids) == 1 + Singles(front);
        assert Singles(front) < n - 1 ==> ids[n - Singles(ids) - 1] == front[n - 1 - Singles(front) - 1];
      } else if 1 < n && ids[n - 1] != 0 {
        assert ids[n - 2] == front[n - 2];
      }
    }
  }

  predicate AllSame(ids: seq<nat>) {
    forall i | 0 <= i < |ids| :: ids[i] == ids[0]
  }

  /** What the warning announces: the common ID, or 0 when the frames have different ones. */
  function AnnouncedID(ids: seq<nat>): nat
    requires ids != []
  {
    if AllSame(ids) then ids[0] else 0
  }

  /** When the announced ID is shown. */
  lemma {:induction false} ShownAsAnnouncedIff(ids: seq<nat>)
    requires ids != []
    ensures Shown(0, ids) == AnnouncedID(ids) <==> AllSame(ids) || EndsAtZero(ids)
  {
    hide Shown, EndsAtZero;
    ShownIsZeroIff(ids);
    if AllSame(ids) {
      assert forall id <- ids :: id == ids[0];
      ShownIs(0, ids);
    }
  }

  /** An empty frame with this dictionary ID. */
  function EmptyFrame(id: byte): (f: Frame)
    ensures ValidFrame(f)
  {
    Zstd(Header(0, true, false, false, 1, [], [id], [0]), [], Block(Raw, 0, []), [])
  }

  /** A mismatch is forgotten: frames with the IDs 5, 7 and 7 show 7. */
  lemma {:induction false} MismatchIsForgotten(memory: nat -> bytes) returns (frames: seq<Frame>, info: Info)
    requires ValidMemory(memory)
    ensures ValidFrames(frames) && DictIDs(frames) == [5, 7, 7]
    ensures AnnouncedID(DictIDs(frames)) == 0 && info.dictID == 7
    ensures var file := EncodeAll(frames); exists fuel: nat :: Walk(file, |file|, Start(memory), fuel) == Stop(Success, info)
  {
    hide EncodeAll, Encode, Walk, TallyAll;
    frames := [EmptyFrame(5), EmptyFrame(7), EmptyFrame(7)];
    OneID(5);
    OneID(7);
    hide EmptyFrame;
    assert frames[1..] == [EmptyFrame(7), EmptyFrame(7)] && frames[1..][1..] == [EmptyFrame(7)];
    DictIDsOf(EmptyFrame(5), EmptyFrame(7));
    ShortFile(frames);
    info := Complete(frames, memory);
    TallyShows(Start(memory).info, frames);
    FiveSevenSeven();
  }

  lemma OneID(id: byte)
    ensures EmptyFrame(id).Zstd? && LE(EmptyFrame(id).header.did) == id as nat
    ensures |Encode(EmptyFrame(id))| == 10
  {
    assert LE([id]) == id as nat + 256 * LE([id][1..]);
  }

  lemma DictIDsOf(f: Frame, g: Frame)
    requires f.Zstd? && g.Zstd?
    ensures DictIDs([f, g, g]) == [LE(f.header.did), LE(g.header.did), LE(g.header.did)]
  {
    hide LE;
    assert [f, g, g][1..] == [g, g] && [g, g][1..] == [g] && [g][1..] == [];
    assert DictIDs([g]) == [LE(g.header.did)] + DictIDs([]);
    assert DictIDs([g, g]) == [LE(g.header.did)] + DictIDs([g]);
    assert DictIDs([f, g, g]) == [LE(f.header.did)] + DictIDs([g, g]);
  }

  lemma {:induction false} ShortFile(frames: seq<Frame>)
    requires ValidFrames(frames) && forall f <- frames :: |Encode(f)| == 10
    ensures |EncodeAll(frames)| == 10 * |frames|
  {
    hide Encode;
    if frames != [] {
      ShortFile(frames[1..]);
    }
  }

  lemma FiveSevenSeven()
    ensures Shown(0, [5, 7, 7]) == 7 && AnnouncedID([5, 7, 7]) == 0
  {
    var ids: seq<nat> := [5, 7, 7];
    assert ids[1..] == [7, 7] && ids[1..][1..] == [7] && ids[1..][1..][1..] == [];
    assert Shown(5, [7, 7]) == Shown(0, [7]) == Shown(7, []) == 7;
    assert ids[1] != ids[0];
  }

  /** Complete: a non-empty concatenation of frames is walked over with success, and the frame counts,
      the sum of the announced content sizes and the two flags are exact. */
  lemma {:induction false} Complete(frames: seq<Frame>, memory: nat -> bytes) returns (info: Info)
    requires ValidMemory(memory) && ValidFrames(frames) && frames != [] && |EncodeAll(frames)| < FILESIZE_UNKNOWN
    ensures var file := EncodeAll(frames);
      Walk(file, |file|, Start(memory), |frames| + 1) == Stop(Success, info)
    ensures info == TallyAll(Start(memory).info, frames)
    ensures info.actual == NumZstd(frames) && info.skippable == |frames| - NumZstd(frames)
    ensures info.decompressedSize == TotalContent(frames) % U64_LIMIT
    ensures info.unavailable <==> exists f <- frames :: Announced(f).None?
    ensures info.usesCheck <==> exists f <- frames :: ChecksumUsed(f)
  {
    var s := Start(memory);
    hide Announced, ChecksumUsed, ValidFrame;
    TallyCounts(s.info, frames);
    var total := TotalContent(frames);
    hide TotalContent;
    assert (0 + total) % U64_LIMIT == total % U64_LIMIT;
    FrameTakesEight(frames[0]);
    assert 0 < |EncodeAll(frames)|;
    hide Start, TallyAll, NumZstd, EncodeAll;
    info := WalksToTheEnd(EncodeAll(frames), frames, s);
  }

  lemma WalksToTheEnd(file: bytes, frames: seq<Frame>, s: State) returns (info: Info)
    requires ValidState(s) && s.pos == 0 && ValidFrames(frames)
    requires file == EncodeAll(frames) && 0 < |file| < FILESIZE_UNKNOWN
    ensures Walk(file, |file|, s, |frames| + 1) == Stop(Success, info)
    ensures info == TallyAll(s.info, frames)
  {
    hide EncodeAll, TallyAll, Walk, Iterate, ValidFrames;
    assert At(file, 0, file) by {
      assert file[0..0 + |file|] == file;
    }
    hide At;
    var t := FramesWalk(file, |file|, s, frames);
    AtFileEnd(file, t);
    WalkOn(file, |file|, s, |frames|, t, 1);
    info := t.info;
  }

  lemma AtFileEnd(file: bytes, t: State)
    requires ValidState(t) && t.pos == |file| && 0 < |file| < FILESIZE_UNKNOWN
    ensures Iterate(file, |file|, t) == Stop(Success, t.info) == Walk(file, |file|, t, 1)
  {
    hide LE, WalkZstd;
    assert Slice(file, t.pos, HEADER_MAX) == [];
  }

  ghost predicate Succeeds(file: bytes, memory: nat -> bytes)
    requires ValidMemory(memory)
  {
    exists fuel: nat :: Succeeded(Walk(file, |file|, Start(memory), fuel))
  }

  ghost predicate IsFrames(file: bytes) {
    exists frames: seq<Frame> :: ValidFrames(frames) && EncodeAll(frames) == file
  }

  /** The file is these frames and then `rest`. */
  ghost predicate Parsed(file: bytes, frames: seq<Frame>, rest: bytes) {
    ValidFrames(frames) && file == EncodeAll(frames) + rest
  }

  /** Behind its frames the file has 6 or 7 bytes of a skippable header, which the bytes in the buffer complete
      to a size that leads to the end of the file. */
  ghost predicate CutAtEnd(file: bytes, memory: nat -> bytes)
    requires ValidMemory(memory)
  {
    exists frames, rest :: Parsed(file, frames, rest) && CutHead(rest, memory(|frames|))
  }

  /** A non-empty file is reported as a success exactly when it is a concatenation of frames,
      or one followed by a skippable header cut short. */
  lemma {:induction false} SuccessIffFrames(file: bytes, memory: nat -> bytes)
    requires ValidMemory(memory) && 0 < |file| < FILESIZE_UNKNOWN
    ensures Succeeds(file, memory) <==> IsFrames(file) || CutAtEnd(file, memory)
  {
    hide Succeeds, IsFrames, CutAtEnd;
    if Succeeds(file, memory) {
      SuccessMeansFrames(file, memory);
    }
    if IsFrames(file) {
      FramesMeanSuccess(file, memory);
    }
    if CutAtEnd(file, memory) {
      CutMeansSuccess(file, memory);
    }
  }

  /** The second case is no concatenation of frames: a success that is wrong. */
  lemma {:induction false} CutIsNoFrames(file: bytes, memory: nat -> bytes)
    requires ValidMemory(memory) && CutAtEnd(file, memory)
    ensures !IsFrames(file)
  {
    var frames, rest :| Parsed(file, frames, rest) && CutHead(rest, memory(|frames|));
    assert 6 <= |rest| < 8;
    hide CutHead, EncodeAll;
    if IsFrames(file) {
      var others: seq<Frame> :| ValidFrames(others) && EncodeAll(others) == file;
      var s := Start(memory);
      AtStart(file, frames, rest);
      AtStart(file, others, []);
      assert EncodeAll(others) + [] == file;
      SameFrames(file, s, frames, others);
    }
  }

  lemma AtStart(file: bytes, frames: seq<Frame>, rest: bytes)
    requires ValidFrames(frames) && file == EncodeAll(frames) + rest
    ensures At(file, 0, EncodeAll(frames)) && |EncodeAll(frames)| <= |file| && file[|EncodeAll(frames)|..] == rest
  {
    hide EncodeAll;
    assert file[0..|EncodeAll(frames)|] == EncodeAll(frames);
  }

  /** Two ways to read frames from one place agree: the one that ends later has frames where the other ends,
      and a frame takes at least 8 bytes. */
  lemma {:induction false} SameFrames(file: bytes, s: State, a: seq<Frame>, b: seq<Frame>)
    requires ValidState(s) && ValidFrames(a) && ValidFrames(b)
    requires At(file, s.pos, EncodeAll(a)) && At(file, s.pos, EncodeAll(b))
    ensures |EncodeAll(b)| <= |EncodeAll(a)| || |EncodeAll(a)| + 8 <= |EncodeAll(b)|
    decreases |a|
  {
    hide Iterate, Encode, Tally, ValidFrame, At;
    if b != [] {
      FrameTakesEight(b[0]);
      if a != [] {
        var next := FirstFrameWalks(file, 0, s, a);
        var same := FirstFrameWalks(file, 0, s, b);
        hide TallyAll, EncodeAll;
        SameFrames(file, next, a[1..], b[1..]);
      }
    }
  }

  lemma FramesMeanSuccess(file: bytes, memory: nat -> bytes)
    requires ValidMemory(memory) && 0 < |file| < FILESIZE_UNKNOWN && IsFrames(file)
    ensures Succeeds(file, memory)
  {
    var frames: seq<Frame> :| ValidFrames(frames) && EncodeAll(frames) == file;
    hide Iterate, Encode, Start, TallyAll, Walk;
    var _ := Complete(frames, memory);
  }

  lemma CutMeansSuccess(file: bytes, memory: nat -> bytes)
    requires ValidMemory(memory) && 0 < |file| < FILESIZE_UNKNOWN && CutAtEnd(file, memory)
    ensures Succeeds(file, memory)
  {
    var frames, rest :| Parsed(file, frames, rest) && CutHead(rest, memory(|frames|));
    hide EncodeAll, CutHead, At, Walk, Iterate, TallyAll;
    AtStart(file, frames, rest);
    var s := Start(memory);
    var t := FramesWalk(file, |file|, s, frames);
    hide Parsed, ValidFrames, Start;
    CutEnds(file, t, rest);
    Continues(file, s, |frames|, t, 2);
  }

  lemma Continues(file: bytes, s: State, m: nat, t: State, n: nat)
    requires ValidState(s) && ValidState(t) && Walk(file, |file|, s, m) == Go(t) && Succeeded(Walk(file, |file|, t, n))
    ensures Succeeded(Walk(file, |file|, s, m + n))
  {
    hide Walk;
    WalkOn(file, |file|, s, m, t, n);
  }

  lemma CutEnds(file: bytes, t: State, rest: bytes)
    requires ValidState(t) && 0 < |file| < FILESIZE_UNKNOWN && t.pos <= |file| && rest == file[t.pos..]
    requires CutHead(rest, t.memory(t.turn))
    ensures Succeeded(Walk(file, |file|, t, 2))
  {
    hide Iterate, CutHead;
    CutMoves(file, t, rest);
    var u := Iterate(file, |file|, t).state;
    AtFileEnd(file, u);
    OneIteration(file, |file|, t, u, 1);
  }

  lemma CutMoves(file: bytes, t: State, rest: bytes)
    requires ValidState(t) && t.pos <= |file| && rest == file[t.pos..] && CutHead(rest, t.memory(t.turn))
    ensures Iterate(file, |file|, t).Go? && Iterate(file, |file|, t).state.pos == |file|
  {
    hide Iterate, SkippableHead;
    HeadMoves(file, |file|, t, |rest|);
  }

  lemma SuccessMeansFrames(file: bytes, memory: nat -> bytes)
    requires ValidMemory(memory) && Succeeds(file, memory)
    ensures IsFrames(file) || CutAtEnd(file, memory)
  {
    hide Iterate, Encode, EncodeAll, CutHead, Walk;
    var fuel: nat :| Succeeded(Walk(file, |file|, Start(memory), fuel));
    var frames, rest := Sound(file, Start(memory), fuel);
    assert file[0..] == file;
    assert EncodeAll(frames) + [] == EncodeAll(frames);
    assert Parsed(file, frames, rest);
  }

  /** Six bytes that are no frame, and a success. */
  lemma CutShortSucceeds() returns (file: bytes, memory: nat -> bytes)
    ensures ValidMemory(memory) && |file| == 6 && Succeeds(file, memory) && !IsFrames(file)
  {
    file := [0x50, 0x2A, 0x4D, 0x18, 0xFE, 0xFF];
    memory := _ => Zeros(6) + [0xFF, 0xFF] + Zeros(10);
    assert EncodeAll([]) + file == file;
    var rest := file;
    assert rest[..4] == [0x50, 0x2A, 0x4D, 0x18];
    assert rest[4..] + memory(0)[6..8] == [0xFE, 0xFF, 0xFF, 0xFF];
    assert Parsed(file, [], rest) && CutHead(rest, memory(0));
    CutIsNoFrames(file, memory);
    CutMeansSuccess(file, memory);
  }

  /** Where the memory of the buffer is left alone between two iterations, it holds what the last one read:
      behind a frame, the beginning of that frame. */
  ghost predicate CarriedOver(file: bytes, size: nat, s: State)
    requires ValidState(s)
  {
    forall n: nat :: Walk(file, size, s, n).Go? && Walk(file, size, s, n + 1).Go? ==>
      s.memory(s.turn + n + 1) == Filled(file, Walk(file, size, s, n).state)
  }

  lemma {:induction false} CarriedBytes(file: bytes, size: nat, s: State, frames: seq<Frame>)
    requires ValidState(s) && ValidFrames(frames) && frames != [] && At(file, s.pos, EncodeAll(frames))
    requires CarriedOver(file, size, s)
    ensures s.memory(s.turn + |frames|)[..8] == Encode(frames[|frames| - 1])[..8]
  {
    hide Iterate, Encode, EncodeAll, TallyAll, Walk, At, ValidFrame;
    var before, last := frames[..|frames| - 1], frames[|frames| - 1];
    assert frames == before + [last];
    EncodeAllAppend(before, [last]);
    OneFrameEncoded(last);
    AtSplits(file, s.pos, EncodeAll(before), Encode(last));
    var t := FramesWalk(file, size, s, before);
    FrameWalks(file, size, t, last);
    OneIteration(file, size, t, Iterate(file, size, t).state, 0);
    NoIteration(file, size, Iterate(file, size, t).state);
    WalkOn(file, size, s, |before|, t, 1);
    FrameTakesEight(last);
    AtSplits(file, t.pos, Encode(last)[..8], Encode(last)[8..]);
    assert Encode(last)[..8] + Encode(last)[8..] == Encode(last);
    BufferHolds(file, t, Encode(last)[..8]);
    assert s.memory(s.turn + |before| + 1) == Filled(file, Walk(file, size, s, |before|).state);
  }

  lemma NoIteration(file: bytes, size: nat, s: State)
    requires ValidState(s)
    ensures Walk(file, size, s, 0) == Go(s)
  {
  }

  lemma OneFrameEncoded(f: Frame)
    requires ValidFrame(f)
    ensures EncodeAll([f]) == Encode(f)
  {
    hide Encode;
    assert EncodeAll([f]) == Encode(f) + EncodeAll([]);
  }

  lemma {:induction false} EncodeAllAppend(a: seq<Frame>, b: seq<Frame>)
    requires ValidFrames(a) && ValidFrames(b)
    ensures EncodeAll(a + b) == EncodeAll(a) + EncodeAll(b)
    decreases |a|
  {
    hide Encode;
    if a == [] {
      assert a + b == b;
    } else {
      EncodeAllAppend(a[1..], b);
      assert (a + b)[1..] == a[1..] + b;
      ConcatAssociates(Encode(a[0]), EncodeAll(a[1..]), EncodeAll(b));
    }
  }

  // ---- When the loop ends ----

  /** This iteration finds a header that leads back to itself. */
  ghost predicate Stuck(file: bytes, s: State)
    requires ValidState(s)
  {
    s.pos <= |file| && StuckHead(file[s.pos..], s.memory(s.turn))
  }

  lemma Advances(file: bytes, size: nat, s: State)
    requires ValidState(s) && Iterate(file, size, s).Go? && !Stuck(file, s)
    ensures s.pos < Iterate(file, size, s).state.pos && s.pos < |file|
  {
    hide LE, Iterate, LEBytes;
    GoingOnMeans(file, size, s);
    if LE(Filled(file, s)[..4]) == MAGIC {
      var _ := ZstdWasEncoded(file, size, s);
    } else {
      SkippableIterates(file, size, s);
      if Iterate(file, size, s).state.pos == s.pos {
        SizeFields(Filled(file, s)[4..8], 0);
        HeadIsRead(file, s, [0xF8, 0xFF, 0xFF, 0xFF]);
      }
    }
  }

  /** At most one iteration for every byte, and one more, until the loop ends or comes to such a header. */
  lemma {:induction false} StopsOrSticks(file: bytes, size: nat, s: State) returns (fuel: nat, t: State)
    requires ValidState(s)
    ensures Walk(file, size, s, fuel).Stop? || (ValidState(t) && Walk(file, size, s, fuel) == Go(t) && Stuck(file, t))
    ensures fuel <= if s.pos <= |file| then |file| - s.pos + 1 else 1
    decreases |file| - s.pos
  {
    hide Iterate, Stuck;
    t := s;
    if Stuck(file, s) {
      fuel := 0;
    } else if Iterate(file, size, s).Stop? {
      fuel := 1;
      assert Walk(file, size, s, 1).Stop?;
    } else {
      Advances(file, size, s);
      fuel, t := StopsOrSticks(file, size, Iterate(file, size, s).state);
      fuel := fuel + 1;
    }
  }

  /** Every iteration from number `turn` on finds a header that leads back to itself: 8 bytes of it are in the
      file, or 6 or 7 are and the buffer completes them again and again. */
  ghost predicate StuckFrom(rest: bytes, memory: nat -> bytes, turn: nat)
    requires ValidMemory(memory)
  {
    forall k: nat | turn <= k :: StuckHead(rest, memory(k))
  }

  /** Behind its frames the file has such a header. */
  ghost predicate SticksAtEnd(file: bytes, memory: nat -> bytes)
    requires ValidMemory(memory)
  {
    exists frames, rest :: Parsed(file, frames, rest) && StuckFrom(rest, memory, |frames|)
  }

  lemma WholeHeadSticks(rest: bytes, memory: nat -> bytes, turn: nat)
    requires ValidMemory(memory) && 8 <= |rest|
    ensures StuckFrom(rest, memory, turn) <==> SkippableMagic(rest[..4]) && rest[4..8] == [0xF8, 0xFF, 0xFF, 0xFF]
  {
    if StuckFrom(rest, memory, turn) {
      assert StuckHead(rest, memory(turn));
    }
  }

  lemma {:induction false} StuckForever(file: bytes, size: nat, s: State, fuel: nat)
    requires ValidState(s) && s.pos <= |file| && StuckFrom(file[s.pos..], s.memory, s.turn)
    ensures Walk(file, size, s, fuel).Go?
    decreases fuel
  {
    hide StuckHead, Iterate;
    if fuel != 0 {
      assert StuckHead(file[s.pos..], s.memory(s.turn));
      StuckStays(file, size, s);
      StuckForever(file, size, Iterate(file, size, s).state, fuel - 1);
    }
  }

  lemma StuckStays(file: bytes, size: nat, s: State)
    requires ValidState(s) && s.pos <= |file| && StuckHead(file[s.pos..], s.memory(s.turn))
    ensures Iterate(file, size, s).Go? && Iterate(file, size, s).state.pos == s.pos
  {
    hide Iterate, SkippableHead;
    HeadMoves(file, size, s, 0);
  }

  /** Iteration `k` finds something else: the loop ends. */
  lemma {:induction false} LeavesAt(file: bytes, size: nat, s: State, k: nat) returns (fuel: nat)
    requires ValidState(s) && s.pos <= |file| && NoFrame(file, s.pos)
    requires s.turn <= k && !StuckHead(file[s.pos..], s.memory(k))
    ensures Walk(file, size, s, fuel).Stop?
    decreases k - s.turn
  {
    hide Iterate, NoFrame, StuckHead, CutHead;
    if Iterate(file, size, s).Stop? {
      fuel := 1;
      assert Walk(file, size, s, 1).Stop?;
    } else {
      var u := Iterate(file, size, s).state;
      NoFrameIterates(file, size, s);
      if u.pos == s.pos {
        if k == s.turn {
          Advances(file, size, s);
          assert false;
        } else {
          fuel := LeavesAt(file, size, u, k);
        }
      } else {
        fuel := EndStops(file, size, u);
      }
      fuel := fuel + 1;
    }
  }

  /** At or past the end of the file, or where the next iteration ends it, the loop ends. */
  lemma EndStops(file: bytes, size: nat, u: State) returns (fuel: nat)
    requires ValidState(u) && (|file| <= u.pos || Iterate(file, size, u).Stop?)
    ensures Walk(file, size, u, fuel).Stop?
  {
    fuel := 1;
    if |file| <= u.pos {
      assert Slice(file, u.pos, HEADER_MAX) == [];
    }
    hide OneFrame;
    assert Walk(file, size, u, 1) == Iterate(file, size, u);
  }

  /** The loop ends exactly on the files that have no such header behind their frames. */
  lemma {:induction false} StopsUnlessStuck(file: bytes, size: nat, memory: nat -> bytes)
    requires ValidMemory(memory)
    ensures Stops(file, size, Start(memory)) <==> !SticksAtEnd(file, memory)
  {
    hide Iterate, EncodeAll, Walk, At, NoFrame, StuckHead, ValidFrames, TallyAll;
    var s := Start(memory);
    if SticksAtEnd(file, memory) {
      var frames, rest :| Parsed(file, frames, rest) && StuckFrom(rest, memory, |frames|);
      AtStart(file, frames, rest);
      NeverEnds(file, size, s, frames);
    } else {
      var frames, t := Parse(file, size, s);
      SplitAt(file, EncodeAll(frames), t.pos);
      var rest := file[t.pos..];
      assert Parsed(file, frames, rest);
      var k: nat :| |frames| <= k && !StuckHead(rest, memory(k));
      var fuel := LeavesAt(file, size, t, k);
      WalkOn(file, size, s, |frames|, t, fuel);
    }
  }

  lemma SplitAt(file: bytes, front: bytes, pos: nat)
    requires At(file, 0, front) && pos == |front|
    ensures pos <= |file| && file == front + file[pos..]
  {
  }

  lemma NeverEnds(file: bytes, size: nat, s: State, frames: seq<Frame>)
    requires ValidState(s) && ValidFrames(frames) && At(file, s.pos, EncodeAll(frames))
    requires s.pos + |EncodeAll(frames)| <= |file|
    requires StuckFrom(file[s.pos + |EncodeAll(frames)|..], s.memory, s.turn + |frames|)
    ensures !Stops(file, size, s)
  {
    hide Iterate, EncodeAll, Walk, At, StuckFrom, ValidFrames, TallyAll;
    var t := FramesWalk(file, size, s, frames);
    forall m: nat ensures Walk(file, size, s, m).Go? {
      if |frames| <= m {
        WalkOn(file, size, s, |frames|, t, m - |frames|);
        StuckForever(file, size, t, m - |frames|);
      } else {
        WentOn(file, size, s, m, |frames|);
      }
    }
  }

  /** A family of files that never let the loop end: frames, then a skippable frame of size 0xFFFFFFF8. */
  lemma NeverStops(frames: seq<Frame>, digit: nat, rest: bytes, size: nat, memory: nat -> bytes)
    requires ValidMemory(memory) && ValidFrames(frames) && digit < 16
    ensures var file := EncodeAll(frames) + ([(0x50 + digit) as byte, 0x2A, 0x4D, 0x18, 0xF8, 0xFF, 0xFF, 0xFF] + rest);
      !Stops(file, size, Start(memory))
  {
    var head: bytes := [(0x50 + digit) as byte, 0x2A, 0x4D, 0x18, 0xF8, 0xFF, 0xFF, 0xFF];
    var file := EncodeAll(frames) + (head + rest);
    assert (head + rest)[..4] == head[..4] && (head + rest)[4..8] == head[4..8];
    hide EncodeAll;
    WholeHeadSticks(head + rest, memory, |frames|);
    hide StuckFrom;
    assert Parsed(file, frames, head + rest);
    StopsUnlessStuck(file, size, memory);
  }

  // ---- A whole file ----

  /** The loop ends in one way only. */
  lemma {:induction false} EndsOneWay(file: bytes, size: nat, s: State, m: nat, n: nat)
    requires ValidState(s) && Walk(file, size, s, m).Stop? && Walk(file, size, s, n).Stop?
    ensures Walk(file, size, s, m) == Walk(file, size, s, n)
    decreases m
  {
    hide Iterate;
    if Iterate(file, size, s).Go? {
      EndsOneWay(file, size, Iterate(file, size, s).state, m - 1, n - 1);
    }
  }

  lemma EmptyFails(memory: nat -> bytes, fuel: nat)
    requires ValidMemory(memory)
    ensures !Succeeded(Walk([], 0, Start(memory), fuel))
  {
    assert Slice([], 0, HEADER_MAX) == [];
  }

  lemma {:induction false} OutcomeMeans(file: bytes, memory: nat -> bytes, fuel: nat, status: Status, info: Info)
    requires ValidMemory(memory) && |file| < FILESIZE_UNKNOWN && Walk(file, |file|, Start(memory), fuel) == Stop(status, info)
    ensures status == Success <==> file != [] && (IsFrames(file) || CutAtEnd(file, memory))
    ensures forall frames | ValidFrames(frames) && frames != [] && EncodeAll(frames) == file ::
      info == TallyAll(Start(memory).info, frames)
  {
    hide IsFrames, CutAtEnd, Walk, Start, TallyAll, EncodeAll, ValidFrames;
    forall frames | ValidFrames(frames) && frames != [] && EncodeAll(frames) == file
      ensures info == TallyAll(Start(memory).info, frames)
    {
      var end := Complete(frames, memory);
      EndsOneWay(file, |file|, Start(memory), fuel, |frames| + 1);
    }
    if file == [] {
      EmptyFails(memory, fuel);
    } else {
      SuccessIffFrames(file, memory);
      if Succeeds(file, memory) {
        var n: nat :| Succeeded(Walk(file, |file|, Start(memory), n));
        EndsOneWay(file, |file|, Start(memory), fuel, n);
      }
    }
  }

  /** getFileInfo_fileConfirmed, of a readable file on which the loop ends. */
  method FileInfoOf(srcFile: File, memory: nat -> bytes) returns (status: Status, info: FileInfo)
    requires ValidMemory(memory) && srcFile.pos == 0 && |srcFile.content| < FILESIZE_UNKNOWN
    requires !SticksAtEnd(srcFile.content, memory)
    modifies srcFile
    ensures srcFile.content == old(srcFile.content) && fresh(info)
    ensures status == Success <==>
      srcFile.content != [] && (IsFrames(srcFile.content) || CutAtEnd(srcFile.content, memory))
    ensures forall frames | ValidFrames(frames) && frames != [] && EncodeAll(frames) == srcFile.content ::
      info.Value() == TallyAll(Start(memory).info, frames)
  {
    hide SticksAtEnd, IsFrames, CutAtEnd, Walk, TallyAll, EncodeAll, ValidFrames, Stops;
    ghost var file := srcFile.content;
    StopsUnlessStuck(file, |file|, memory);
    info := new FileInfo(|srcFile.content|);
    status := AnalyzeFrames(info, srcFile, memory);
    ghost var fuel: nat :| Walk(file, |file|, Start(memory), fuel) == Stop(status, info.Value());
    OutcomeMeans(file, memory, fuel, status, info.Value());
  }
}
