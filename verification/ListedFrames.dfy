/** What `zstd --list` says of a frame, against what the compressor was told when it wrote the frame. */
module ListedFrames {
  import opened Bytes
  import opened FileModel
  import opened FrameFormat
  import opened FrameWalker
  import opened FrameWalkerTheorems
  import HW = HeaderWriter

  /** A frame as the compressor writes it: its header, blocks and, if it was asked for, a checksum. */
  function FrameOf(p: HW.Params, blocks: seq<Block>, last: Block, checksum: bytes): (f: Frame)
    requires p.Valid() && (forall b <- blocks :: ValidBlock(b)) && ValidBlock(last)
    requires |checksum| == if p.checksumFlag then 4 else 0
    ensures ValidFrame(f)
  {
    Zstd(HW.Written(p), blocks, last, checksum)
  }

  lemma FrameBytes(p: HW.Params, blocks: seq<Block>, last: Block, checksum: bytes)
    requires p.Valid() && (forall b <- blocks :: ValidBlock(b)) && ValidBlock(last)
    requires |checksum| == if p.checksumFlag then 4 else 0
    ensures Encode(FrameOf(p, blocks, last, checksum)) == HW.HeaderBytes(p) + (EncodeBlocks(blocks, last) + checksum)
  {
    HW.HeaderBytesEncode(p);
    hide HW.HeaderBytes, HW.Written, EncodeHeader, EncodeBlocks, LEBytes;
    ConcatAssociates(LEBytes(MAGIC, 4), EncodeHeader(HW.Written(p)), EncodeBlocks(blocks, last) + checksum);
  }

  /** What the compressor was told, as the listing shows it. The two sizes that stand for none are not shown. */
  function Shows(p: HW.Params, checksum: bytes): Info {
    var unavailable := !p.contentSizeFlag || p.pledged in {CONTENTSIZE_ERROR, CONTENTSIZE_UNKNOWN};
    Info(if unavailable then 0 else p.pledged,
         if p.contentSizeFlag && p.pledged <= Pow2(p.windowLog) then p.pledged else Pow2(p.windowLog),
         if p.noDictIDFlag then 0 else p.dictID, 1, 0, unavailable, p.checksumFlag, if p.checksumFlag then checksum else Zeros(4))
  }

  lemma TalliesAsShown(p: HW.Params, blocks: seq<Block>, last: Block, checksum: bytes)
    requires p.Valid() && (forall b <- blocks :: ValidBlock(b)) && ValidBlock(last)
    requires |checksum| == if p.checksumFlag then 4 else 0
    ensures Tally(Info(0, 0, 0, 0, 0, false, false, Zeros(4)), FrameOf(p, blocks, last, checksum)) == Shows(p, checksum)
  {
    HW.FieldsAreWritten(p);
    var h := HW.Written(p);
    hide ContentSize, WindowSize, LE, Pow2, Zeros;
    assert h.checksum == p.checksumFlag;
    hide HW.Written;
  }

  /** The listing of a file of one frame shows what the compressor was told when it wrote the frame. */
  lemma {:induction false} ListsWhatWasWritten(p: HW.Params, blocks: seq<Block>, last: Block, checksum: bytes, memory: nat -> bytes)
    requires p.Valid() && (forall b <- blocks :: ValidBlock(b)) && ValidBlock(last) && ValidMemory(memory)
    requires |checksum| == if p.checksumFlag then 4 else 0
    requires |HW.HeaderBytes(p) + (EncodeBlocks(blocks, last) + checksum)| < FILESIZE_UNKNOWN
    ensures var file := HW.HeaderBytes(p) + (EncodeBlocks(blocks, last) + checksum);
      Walk(file, |file|, Start(memory), 2) == Stop(Success, Shows(p, checksum))
  {
    var f := FrameOf(p, blocks, last, checksum);
    FrameBytes(p, blocks, last, checksum);
    TalliesAsShown(p, blocks, last, checksum);
    hide HW.HeaderBytes, EncodeBlocks, Shows, FrameOf;
    ListsOneFrame(f, memory);
  }

  lemma ListsOneFrame(f: Frame, memory: nat -> bytes)
    requires ValidMemory(memory) && ValidFrame(f) && |Encode(f)| < FILESIZE_UNKNOWN
    ensures Walk(Encode(f), |Encode(f)|, Start(memory), 2)
         == Stop(Success, Tally(Info(0, 0, 0, 0, 0, false, false, Zeros(4)), f))
  {
    OneFrameEncoded(f);
    hide Encode, EncodeAll, Walk, TallyAll, Tally, ValidFrame;
    OneTally(Start(memory).info, f);
    var _ := Complete([f], memory);
  }

  lemma OneTally(info: Info, f: Frame)
    requires ValidFrame(f)
    ensures TallyAll(info, [f]) == Tally(info, f)
  {
    hide Tally;
    assert TallyAll(Tally(info, f), []) == Tally(info, f);
    assert [f][1..] == [];
  }

  /** Frames do not let the loop stick. */
  lemma FramesDoNotStick(frames: seq<Frame>, memory: nat -> bytes)
    requires ValidMemory(memory) && ValidFrames(frames) && frames != [] && |EncodeAll(frames)| < FILESIZE_UNKNOWN
    ensures !SticksAtEnd(EncodeAll(frames), memory)
  {
    hide EncodeAll, Walk, TallyAll, SticksAtEnd;
    var _ := Complete(frames, memory);
    StopsUnlessStuck(EncodeAll(frames), |EncodeAll(frames)|, memory);
  }

  /** The frame of 300 bytes stored raw: a descriptor for a single segment with a size of two bytes, 300 - 256,
      and a block header for a last raw block of 300 bytes. */
  const THREE_HUNDRED: bytes := [0x28, 0xB5, 0x2F, 0xFD, 0x60, 0x2C, 0x00, 0x61, 0x09, 0x00]

  lemma {:induction false} ThreeHundredIsFrame(content: bytes) returns (f: Frame)
    requires |content| == 300
    ensures ValidFrame(f) && EncodeAll([f]) == THREE_HUNDRED + content
    ensures TallyAll(Info(0, 0, 0, 0, 0, false, false, Zeros(4)), [f]) == Info(300, 300, 0, 1, 0, false, false, Zeros(4))
  {
    f := Zstd(Header(1, true, false, false, 0, [], [], [0x2C, 0x00]), [], Block(Raw, 300, content), []);
    OneFrameEncoded(f);
    LiteralBytes();
    assert Encode(f) == THREE_HUNDRED + content;
    assert LE([]) == 0;
    assert LE([0x2C, 0x00]) == 0x2C + 256 * LE([0x00]) && [0x2C as byte, 0x00][1..] == [0x00];
    assert LE([0x00]) == 0 + 256 * LE([]) && [0x00 as byte][1..] == [];
    hide Encode, EncodeAll, LE;
    OneTally(Info(0, 0, 0, 0, 0, false, false, Zeros(4)), f);
  }

  lemma LiteralBytes()
    ensures LEBytes(MAGIC, 4) == [0x28, 0xB5, 0x2F, 0xFD] && LEBytes(0x961, 3) == [0x61, 0x09, 0x00]
  {
    assert LEBytes(0xFD, 1) == [0xFD] + LEBytes(0, 0);
    assert LEBytes(0xFD2F, 2) == [0x2F] + LEBytes(0xFD, 1);
    assert LEBytes(0xFD2FB5, 3) == [0xB5] + LEBytes(0xFD2F, 2);
    assert LEBytes(MAGIC, 4) == [0x28] + LEBytes(0xFD2FB5, 3);
    assert LEBytes(0, 1) == [0x00] + LEBytes(0, 0);
    assert LEBytes(0x9, 2) == [0x09] + LEBytes(0, 1);
    assert LEBytes(0x961, 3) == [0x61] + LEBytes(0x9, 2);
  }

  /** The listing of that frame, whatever the bytes. */
  method ListThreeHundred(srcFile: File, memory: nat -> bytes) returns (info: FileInfo)
    requires ValidMemory(memory) && srcFile.pos == 0 && |srcFile.content| == 310 && srcFile.content[..10] == THREE_HUNDRED
    modifies srcFile
    ensures fresh(info) && info.Value() == Info(300, 300, 0, 1, 0, false, false, Zeros(4))
  {
    ghost var f := ThreeHundredIsFrame(srcFile.content[10..]);
    assert srcFile.content == THREE_HUNDRED + srcFile.content[10..];
    FramesDoNotStick([f], memory);
    hide EncodeAll, TallyAll, SticksAtEnd, IsFrames, CutAtEnd;
    var status;
    status, info := FileInfoOf(srcFile, memory);
  }
}
