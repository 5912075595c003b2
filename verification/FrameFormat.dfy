/** The frame layout of RFC 8878: Zstandard frames (section 3.1.1) and skippable frames
    (section 3.1.2), as values with their encoding, and the decoding of a frame header. */
module FrameFormat {
  import opened Bytes

  const MAGIC: nat := 0xFD2FB528
  const SKIPPABLE_MAGIC: nat := 0x184D2A5 // its last hexadecimal digit is free

  const CONTENTSIZE_UNKNOWN: nat := 0xFFFF_FFFF_FFFF_FFFF
  const CONTENTSIZE_ERROR: nat := 0xFFFF_FFFF_FFFF_FFFE

  // ---- Little-endian fields ----

  function LE(s: bytes): nat {
    if s == [] then 0 else s[0] as nat + 256 * LE(s[1..])
  }

  function LEBytes(v: nat, n: nat): (s: bytes)
    ensures |s| == n
  {
    if n == 0 then [] else [(v % 256) as byte] + LEBytes(v / 256, n - 1)
  }

  function Pow256(n: nat): nat {
    if n == 0 then 1 else 256 * Pow256(n - 1)
  }

  lemma {:induction false} LEOfBytes(v: nat, n: nat)
    requires v < Pow256(n)
    ensures LE(LEBytes(v, n)) == v
  {
    if n != 0 {
      LEOfBytes(v / 256, n - 1);
      assert LEBytes(v, n)[1..] == LEBytes(v / 256, n - 1);
    }
  }

  lemma {:induction false} BytesOfLE(s: bytes)
    ensures LE(s) < Pow256(|s|) && LEBytes(LE(s), |s|) == s
  {
    if s != [] {
      BytesOfLE(s[1..]);
      assert (s[0] as nat + 256 * LE(s[1..])) % 256 == s[0] as nat;
      assert (s[0] as nat + 256 * LE(s[1..])) / 256 == LE(s[1..]);
      assert s == [s[0]] + s[1..];
    }
  }

  lemma Pow256Values()
    ensures Pow256(1) == 0x100 && Pow256(2) == 0x1_0000 && Pow256(3) == 0x100_0000 && Pow256(4) == 0x1_0000_0000
    ensures Pow256(8) == 0x1_0000_0000_0000_0000
  {
    assert Pow256(1) == 256 * Pow256(0);
    assert Pow256(2) == 256 * Pow256(1);
    assert Pow256(3) == 256 * Pow256(2);
    assert Pow256(4) == 256 * Pow256(3);
    assert Pow256(5) == 256 * Pow256(4);
    assert Pow256(6) == 256 * Pow256(5);
    assert Pow256(7) == 256 * Pow256(6);
  }

  // ---- Frames ----

  /** The fields of a frame header; `window`, `did` and `fcs` hold the bytes of the fields present. */
  datatype Header = Header(
    fcsFlag: nat, singleSegment: bool, unused: bool, checksum: bool, didFlag: nat,
    window: bytes, did: bytes, fcs: bytes)

  datatype BlockKind = Raw | Rle | Compressed

  /** `size` is the Block_Size field: for an RLE block the body is one byte whatever it says. */
  datatype Block = Block(kind: BlockKind, size: nat, body: bytes)

  /** `blocks` and then `last`, whose Last_Block bit alone is set. */
  datatype Frame =
    | Zstd(header: Header, blocks: seq<Block>, last: Block, checksum: bytes)
    | Skippable(digit: nat, content: bytes)

  function DidSize(flag: nat): nat {
    if flag == 0 then 0 else if flag == 1 then 1 else if flag == 2 then 2 else 4
  }

  function FcsSize(flag: nat, singleSegment: bool): nat {
    if flag == 0 then (if singleSegment then 1 else 0)
    else if flag == 1 then 2 else if flag == 2 then 4 else 8
  }

  predicate ValidHeader(h: Header) {
    && h.fcsFlag < 4 && h.didFlag < 4
    && |h.window| == (if h.singleSegment then 0 else 1)
    && (!h.singleSegment ==> h.window[0] as nat / 8 + 10 <= 31) // ZSTD_WINDOWLOG_MAX
    && |h.did| == DidSize(h.didFlag)
    && |h.fcs| == FcsSize(h.fcsFlag, h.singleSegment)
  }

  predicate ValidBlock(b: Block) {
    b.size < 0x20_0000 && |b.body| == if b.kind.Rle? then 1 else b.size
  }

  predicate ValidFrame(f: Frame) {
    match f
    case Zstd(h, blocks, last, checksum) =>
      && ValidHeader(h) && (forall b <- blocks :: ValidBlock(b)) && ValidBlock(last)
      && |checksum| == if h.checksum then 4 else 0
    case Skippable(digit, content) => digit < 16 && |content| + 8 < U32_LIMIT
  }

  function Bit(b: bool): nat {
    if b then 1 else 0
  }

  /** Frame_Header_Descriptor; the reserved bit, worth 8, stays clear. */
  function Descriptor(h: Header): (d: nat)
    requires ValidHeader(h)
    ensures d < 256
  {
    64 * h.fcsFlag + 32 * Bit(h.singleSegment) + 16 * Bit(h.unused) + 4 * Bit(h.checksum) + h.didFlag
  }

  function EncodeHeader(h: Header): (s: bytes)
    requires ValidHeader(h)
    ensures 2 <= |s| <= 14
  {
    [Descriptor(h) as byte] + h.window + h.did + h.fcs
  }

  function KindCode(k: BlockKind): nat {
    match k
    case Raw => 0
    case Rle => 1
    case Compressed => 2
  }

  function BlockHeader(b: Block, last: bool): nat {
    Bit(last) + 2 * KindCode(b.kind) + 8 * b.size
  }

  function EncodeBlock(b: Block, last: bool): bytes {
    LEBytes(BlockHeader(b, last), 3) + b.body
  }

  function EncodeBlocks(blocks: seq<Block>, last: Block): bytes {
    if blocks == [] then EncodeBlock(last, true)
    else EncodeBlock(blocks[0], false) + EncodeBlocks(blocks[1..], last)
  }

  function Encode(f: Frame): bytes
    requires ValidFrame(f)
  {
    match f
    case Zstd(h, blocks, last, checksum) =>
      LEBytes(MAGIC, 4) + (EncodeHeader(h) + (EncodeBlocks(blocks, last) + checksum))
    case Skippable(digit, content) =>
      LEBytes(16 * SKIPPABLE_MAGIC + digit, 4) + (LEBytes(|content|, 4) + content)
  }

  predicate ValidFrames(frames: seq<Frame>) {
    forall f <- frames :: ValidFrame(f)
  }

  function EncodeAll(frames: seq<Frame>): bytes
    requires ValidFrames(frames)
  {
    if frames == [] then [] else Encode(frames[0]) + EncodeAll(frames[1..])
  }

  lemma FourBytes(b: bytes)
    requires |b| == 4
    ensures LE(b) == b[0] as nat + 0x100 * b[1] as nat + 0x1_0000 * b[2] as nat + 0x100_0000 * b[3] as nat
  {
    assert LE(b) == b[0] as nat + 256 * LE(b[1..]);
    assert LE(b[1..]) == b[1] as nat + 256 * LE(b[2..]) by {
      assert b[1..][1..] == b[2..];
    }
    assert LE(b[2..]) == b[2] as nat + 256 * LE(b[3..]) by {
      assert b[2..][1..] == b[3..];
    }
    assert LE(b[3..]) == b[3] as nat;
  }

  /** ZSTD_isFrame: the beginning of a Zstandard or of a skippable frame. */
  predicate IsFrame(b: bytes) {
    4 <= |b| && (LE(b[..4]) == MAGIC || LE(b[..4]) / 16 == SKIPPABLE_MAGIC)
  }

  // ---- What a header means ----

  function Pow2(n: nat): nat {
    if n == 0 then 1 else 2 * Pow2(n - 1)
  }

  /** Frame_Content_Size, when the header has it. */
  function ContentSize(h: Header): Option<nat> {
    if h.fcsFlag == 0 then (if h.singleSegment then Some(LE(h.fcs)) else None)
    else if h.fcsFlag == 1 then Some(LE(h.fcs) + 256)
    else Some(LE(h.fcs))
  }

  function WindowSize(h: Header): nat
    requires ValidHeader(h)
  {
    if h.singleSegment then ContentSize(h).value
    else
      var base := Pow2(h.window[0] as nat / 8 + 10);
      base + base / 8 * (h.window[0] as nat % 8)
  }

  // ---- ZSTD_getFrameHeader ----

  datatype HeaderResult = NeedMore(wanted: nat) | Failed | Got(size: nat, header: Header)

  /** ZSTD_frameHeaderSize, the magic number included. */
  function FrameHeaderSize(fhd: nat): nat {
    var single := fhd / 32 % 2 == 1;
    5 + (if single then 0 else 1) + DidSize(fhd % 4) + FcsSize(fhd / 64, single)
  }

  /** ZSTD_getFrameHeader after the magic number was recognised. */
  function GetFrameHeader(src: bytes): HeaderResult
    requires 5 <= |src|
  {
    var fhd := src[4] as nat;
    var size := FrameHeaderSize(fhd);
    if |src| < size then NeedMore(size)
    else if fhd / 8 % 2 == 1 then Failed
    else
      var single := fhd / 32 % 2 == 1;
      var at := if single then 5 else 6;
      if !single && 31 < src[5] as nat / 8 + 10 then Failed
      else
        var didSize := DidSize(fhd % 4);
        Got(size, Header(fhd / 64, single, fhd / 16 % 2 == 1, fhd / 4 % 2 == 1, fhd % 4,
                         src[5..at], src[at..at + didSize], src[at + didSize..size]))
  }

  lemma DivideByTwo(d: nat, q: nat, bit: nat)
    requires bit < 2 && d == 2 * q + bit
    ensures d / 2 == q && d % 2 == bit
  {
  }

  lemma Shifts(d: nat)
    ensures d / 8 == d / 4 / 2 && d / 16 == d / 8 / 2 && d / 32 == d / 16 / 2 && d / 64 == d / 32 / 2
  {
    assert d / 8 == d / 4 / 2;
    assert d / 16 == d / 8 / 2;
    assert d / 32 == d / 16 / 2;
    assert d / 64 == d / 32 / 2;
  }

  /** The fields of a descriptor, low bits first, make it up and can be read off again. */
  lemma Fields(d: nat, did: nat, checksum: nat, reserved: nat, unused: nat, single: nat, fcs: nat)
    requires did < 4 && checksum < 2 && reserved < 2 && unused < 2 && single < 2
    ensures (d % 4 == did && d / 4 % 2 == checksum && d / 8 % 2 == reserved && d / 16 % 2 == unused
             && d / 32 % 2 == single && d / 64 == fcs)
       <==> d == 64 * fcs + 32 * single + 16 * unused + 8 * reserved + 4 * checksum + did
  {
    Shifts(d);
    if d == 64 * fcs + 32 * single + 16 * unused + 8 * reserved + 4 * checksum + did {
      assert d / 4 == 16 * fcs + 8 * single + 4 * unused + 2 * reserved + checksum && d % 4 == did;
      DivideByTwo(d / 4, 8 * fcs + 4 * single + 2 * unused + reserved, checksum);
      DivideByTwo(d / 8, 4 * fcs + 2 * single + unused, reserved);
      DivideByTwo(d / 16, 2 * fcs + single, unused);
      DivideByTwo(d / 32, fcs, single);
    }
  }

  lemma DescriptorDecodes(h: Header)
    requires ValidHeader(h)
    ensures var d := Descriptor(h);
      && d / 64 == h.fcsFlag && (d / 32 % 2 == 1 <==> h.singleSegment) && (d / 16 % 2 == 1 <==> h.unused)
      && d / 8 % 2 == 0 && (d / 4 % 2 == 1 <==> h.checksum) && d % 4 == h.didFlag
  {
    Fields(Descriptor(h), h.didFlag, Bit(h.checksum), 0, Bit(h.unused), Bit(h.singleSegment), h.fcsFlag);
  }

  lemma DescriptorOf(d: nat, h: Header)
    requires d < 256 && d / 8 % 2 == 0 && ValidHeader(h)
    requires h.fcsFlag == d / 64 && (h.singleSegment <==> d / 32 % 2 == 1) && (h.unused <==> d / 16 % 2 == 1)
    requires (h.checksum <==> d / 4 % 2 == 1) && h.didFlag == d % 4
    ensures Descriptor(h) == d
  {
    Fields(d, h.didFlag, Bit(h.checksum), 0, Bit(h.unused), Bit(h.singleSegment), h.fcsFlag);
  }

  /** Decoding a valid header gives it back, whatever follows. */
  lemma {:induction false} HeaderDecodes(h: Header, magic: bytes, after: bytes)
    requires ValidHeader(h) && |magic| == 4
    ensures GetFrameHeader(magic + EncodeHeader(h) + after) == Got(4 + |EncodeHeader(h)|, h)
  {
    var src := magic + EncodeHeader(h) + after;
    DescriptorDecodes(h);
    assert src[4] as nat == Descriptor(h);
    var at := 5 + |h.window|;
    assert src[5..at] == h.window;
    assert src[at..at + |h.did|] == h.did;
    assert src[at + |h.did|..at + |h.did| + |h.fcs|] == h.fcs;
  }

  /** A decoded header is valid, and its encoding is what was read. */
  lemma {:induction false} HeaderWasEncoded(src: bytes)
    requires 5 <= |src| && GetFrameHeader(src).Got?
    ensures var r := GetFrameHeader(src);
      ValidHeader(r.header) && 4 < r.size <= |src| && src[4..r.size] == EncodeHeader(r.header)
  {
    var r := GetFrameHeader(src);
    var h := r.header;
    assert ValidHeader(h);
    DescriptorOf(src[4] as nat, h);
    var at := 5 + |h.window|;
    assert src[4..r.size] == [src[4]] + src[5..at] + src[at..at + |h.did|] + src[at + |h.did|..r.size];
  }
}
