/** The writer of frame headers in the compressor, and what the reader behind `zstd --list` makes of its bytes. */
module HeaderWriter {
  import opened Bytes
  import opened FrameFormat

  const U64_LIMIT: nat := 0x1_0000_0000_0000_0000

  /** What ZSTD_writeFrameHeader is given. */
  datatype Params = Params(contentSizeFlag: bool, checksumFlag: bool, noDictIDFlag: bool, windowLog: nat, pledged: nat, dictID: nat) {
    /** ZSTD_WINDOWLOG_ABSOLUTEMIN and ZSTD_WINDOWLOG_MAX, and the widths of the sizes. */
    predicate Valid() {
      10 <= windowLog <= 31 && pledged < U64_LIMIT && dictID < U32_LIMIT
    }

    predicate Single() {
      contentSizeFlag && pledged <= Pow2(windowLog)
    }

    function FcsCode(): nat {
      if contentSizeFlag then
        (if 256 <= pledged then 1 else 0) + (if 65536 + 256 <= pledged then 1 else 0) + if 0xFFFF_FFFF <= pledged then 1 else 0
      else 0
    }

    function DictIDCode(): nat {
      if noDictIDFlag then 0
      else (if 0 < dictID then 1 else 0) + (if 256 <= dictID then 1 else 0) + if 65536 <= dictID then 1 else 0
    }
  }

  /** The bytes written, the magic number first. */
  function HeaderBytes(p: Params): bytes
    requires p.Valid()
  {
    var descriptor := p.DictIDCode() + 4 * Bit(p.checksumFlag) + 32 * Bit(p.Single()) + 64 * p.FcsCode();
    LEBytes(MAGIC, 4) + [descriptor as byte]
    + (if p.Single() then [] else [(8 * (p.windowLog - 10)) as byte])
    + LEBytes(p.dictID, match p.DictIDCode() case 0 => 0 case 1 => 1 case 2 => 2 case _ => 4)
    + SizeField(p)
  }

  function SizeField(p: Params): (s: bytes)
    requires p.Valid()
    ensures |s| <= 8
  {
    match p.FcsCode()
    case 0 => if p.Single() then [p.pledged as byte] else []
    case 1 => LEBytes(p.pledged - 256, 2)
    case 2 => LEBytes(p.pledged, 4)
    case _ => LEBytes(p.pledged, 8)
  }

  lemma OneByte(v: nat)
    requires v < 256
    ensures LEBytes(v, 1) == [v as byte] && LE([v as byte]) == v
  {
    assert LEBytes(v, 1) == [(v % 256) as byte] + LEBytes(v / 256, 0);
    assert LE([v as byte]) == v + 256 * LE([v as byte][1..]);
  }

  /** The size field gives back the size, by whichever of the flags that can hold it. */
  lemma {:induction false} ContentSizeIsWritten(h: Header, n: nat)
    requires n < U64_LIMIT && (h.fcsFlag == 0 ==> h.singleSegment && n < 256) && h.fcsFlag < 4
    requires (h.fcsFlag == 1 ==> 256 <= n < 65536 + 256) && (h.fcsFlag == 2 ==> n < U32_LIMIT)
    requires h.fcs == LEBytes(if h.fcsFlag == 1 then n - 256 else n, FcsSize(h.fcsFlag, h.singleSegment))
    ensures ContentSize(h) == Some(n)
  {
    hide LE, LEBytes;
    Pow256Values();
    hide Pow256;
    LEOfBytes(if h.fcsFlag == 1 then n - 256 else n, FcsSize(h.fcsFlag, h.singleSegment));
  }

  /** And only the bytes that stand for it give a size. */
  lemma {:induction false} ContentSizeWasWritten(h: Header, n: nat)
    requires ValidHeader(h) && ContentSize(h) == Some(n)
    ensures n < U64_LIMIT && (h.fcsFlag == 0 ==> h.singleSegment && n < 256)
    ensures (h.fcsFlag == 1 ==> 256 <= n < 65536 + 256) && (h.fcsFlag == 2 ==> n < U32_LIMIT)
    ensures h.fcs == LEBytes(if h.fcsFlag == 1 then n - 256 else n, FcsSize(h.fcsFlag, h.singleSegment))
  {
    hide LE, LEBytes;
    Pow256Values();
    hide Pow256;
    BytesOfLE(h.fcs);
  }

  /** A window descriptor of exponent `e` and mantissa `m` stands for 2^(10 + e) and `m` eighths of it. */
  lemma {:induction false} WindowSizeIs(h: Header, e: nat, m: nat)
    requires ValidHeader(h) && !h.singleSegment && h.window[0] as nat == 8 * e + m && m < 8
    ensures 8 * WindowSize(h) == (8 + m) * Pow2(10 + e)
  {
    var w := h.window[0] as nat;
    assert w / 8 == e && w % 8 == m;
    var base := Pow2(e + 10);
    assert base == 2 * Pow2(e + 9) && Pow2(e + 9) == 2 * Pow2(e + 8) && Pow2(e + 8) == 2 * Pow2(e + 7);
    hide Pow2;
    Eighths(base, Pow2(e + 7), m);
  }

  lemma Eighths(base: nat, eighth: nat, m: nat)
    requires base == 8 * eighth
    ensures 8 * (base + base / 8 * m) == (8 + m) * base
  {
    assert base / 8 == eighth;
  }

  /** The header that the bytes encode. */
  function Written(p: Params): (h: Header)
    requires p.Valid()
    ensures ValidHeader(h)
  {
    Pow2Rises(p.windowLog);
    var single := p.Single();
    Header(p.FcsCode(), single, false, p.checksumFlag, p.DictIDCode(),
           if single then [] else [(8 * (p.windowLog - 10)) as byte],
           LEBytes(p.dictID, DidSize(p.DictIDCode())),
           LEBytes(if p.FcsCode() == 1 then p.pledged - 256 else p.pledged, FcsSize(p.FcsCode(), single)))
  }

  lemma {:induction false} Pow2Rises(n: nat)
    requires 10 <= n <= 31
    ensures 1024 <= Pow2(n)
  {
    if n == 10 {
      assert Pow2(5) == 2 * Pow2(4) && Pow2(4) == 2 * Pow2(3) && Pow2(3) == 2 * Pow2(2) && Pow2(2) == 2 * Pow2(1) && Pow2(1) == 2;
      assert Pow2(10) == 2 * Pow2(9) && Pow2(9) == 2 * Pow2(8) && Pow2(8) == 2 * Pow2(7) && Pow2(7) == 2 * Pow2(6) && Pow2(6) == 2 * Pow2(5);
    } else {
      Pow2Rises(n - 1);
    }
  }

  lemma SizeFieldIs(p: Params)
    requires p.Valid()
    ensures SizeField(p) == Written(p).fcs
  {
    hide LEBytes, Pow2;
    if p.FcsCode() == 0 && p.Single() {
      OneByte(p.pledged);
    }
    if p.FcsCode() == 0 && !p.Single() {
      NoBytes(p.pledged);
    }
  }

  lemma HeaderBytesEncode(p: Params)
    requires p.Valid()
    ensures HeaderBytes(p) == LEBytes(MAGIC, 4) + EncodeHeader(Written(p))
  {
    SizeFieldIs(p);
    var h := Written(p);
    hide LEBytes, Pow2, SizeField;
    Joined(LEBytes(MAGIC, 4), [Descriptor(h) as byte], h.window, h.did, h.fcs);
  }

  lemma Joined(a: bytes, b: bytes, c: bytes, d: bytes, e: bytes)
    ensures a + b + c + d + e == a + (b + c + d + e)
  {
  }

  lemma NoBytes(v: nat)
    ensures LEBytes(v, 0) == []
  {
  }

  /** Whatever the compressor writes, the reader gives back: the content size unless it was not to be written, the
      dictionary ID likewise, the flag of the checksum, and the window, which for a single segment is the content. */
  lemma {:induction false} HeaderRoundTrips(p: Params, after: bytes)
    requires p.Valid()
    ensures 5 <= |HeaderBytes(p)| <= 18
    ensures var r := GetFrameHeader(HeaderBytes(p) + after);
      && r.Got? && r.size == |HeaderBytes(p)| && ValidHeader(r.header)
      && ContentSize(r.header) == (if p.contentSizeFlag then Some(p.pledged) else None)
      && LE(r.header.did) == (if p.noDictIDFlag then 0 else p.dictID) && r.header.checksum == p.checksumFlag
      && WindowSize(r.header) == if p.contentSizeFlag && p.pledged <= Pow2(p.windowLog) then p.pledged else Pow2(p.windowLog)
  {
    var h := Written(p);
    HeaderBytesEncode(p);
    HeaderDecodes(h, LEBytes(MAGIC, 4), after);
    hide GetFrameHeader, HeaderBytes, Descriptor;
    FieldsAreWritten(p);
  }

  lemma FieldsAreWritten(p: Params)
    requires p.Valid()
    ensures var h := Written(p);
      && ContentSize(h) == (if p.contentSizeFlag then Some(p.pledged) else None)
      && LE(h.did) == (if p.noDictIDFlag then 0 else p.dictID)
      && WindowSize(h) == if p.Single() then p.pledged else Pow2(p.windowLog)
  {
    var h := Written(p);
    Pow2Rises(p.windowLog);
    Pow256Values();
    assert Pow256(0) == 1;
    if p.noDictIDFlag {
      NoBytes(p.dictID);
    } else {
      LEOfBytes(p.dictID, DidSize(p.DictIDCode()));
    }
    if p.contentSizeFlag {
      ContentSizeIsWritten(h, p.pledged);
    }
    if !p.Single() {
      WindowSizeIs(h, p.windowLog - 10, 0);
    }
    hide LE, LEBytes, Pow2, Pow256;
  }

  // ---- The C function ----

  /** MEM_writeLE16, MEM_writeLE32 and MEM_writeLE64 */
  method WriteLE(dst: array<byte>, pos: nat, v: nat, n: nat) returns (next: nat)
    requires pos + n <= dst.Length
    modifies dst
    ensures next == pos + n && dst[..next] == old(dst[..pos]) + LEBytes(v, n)
  {
    var left, rest := n, v;
    next := pos;
    while left != 0
      invariant next + left == pos + n
      invariant dst[..next] + LEBytes(rest, left) == old(dst[..pos]) + LEBytes(v, n)
    {
      ghost var before := dst[..next];
      dst[next] := (rest % 256) as byte;
      assert dst[..next + 1] == before + [(rest % 256) as byte];
      next, rest, left := next + 1, rest / 256, left - 1;
    }
  }

  method WriteByte(dst: array<byte>, pos: nat, b: byte) returns (next: nat)
    requires pos < dst.Length
    modifies dst
    ensures next == pos + 1 && dst[..next] == old(dst[..pos]) + [b]
  {
    dst[pos] := b;
    next := pos + 1;
  }

  /** The last switch. */
  method WriteContentSize(dst: array<byte>, start: nat, p: Params) returns (pos: nat)
    requires p.Valid() && start + 8 <= dst.Length
    modifies dst
    ensures start <= pos <= start + 8 && dst[..pos] == old(dst[..start]) + SizeField(p)
  {
    pos := start;
    Pow2Rises(p.windowLog);
    match p.FcsCode() {
      case 0 =>
        if p.Single() {
          pos := WriteByte(dst, pos, p.pledged as byte);
        }
      case 1 => pos := WriteLE(dst, pos, p.pledged - 256, 2);
      case 2 => pos := WriteLE(dst, pos, p.pledged, 4);
      case _ => pos := WriteLE(dst, pos, p.pledged, 8);
    }
  }

  /** ZSTD_writeFrameHeader, with room for the largest header. */
  method WriteFrameHeader(dst: array<byte>, p: Params) returns (pos: nat)
    requires p.Valid() && 18 <= dst.Length
    modifies dst
    ensures pos <= dst.Length && dst[..pos] == HeaderBytes(p)
  {
    hide LEBytes, Pow2, SizeField;
    pos := WriteLE(dst, 0, MAGIC, 4);
    assert dst[..pos] == LEBytes(MAGIC, 4);
    pos := WriteByte(dst, pos, (p.DictIDCode() + 4 * Bit(p.checksumFlag) + 32 * Bit(p.Single()) + 64 * p.FcsCode()) as byte);
    if !p.Single() {
      pos := WriteByte(dst, pos, (8 * (p.windowLog - 10)) as byte);
    }
    pos := WriteLE(dst, pos, p.dictID, match p.DictIDCode() case 0 => 0 case 1 => 1 case 2 => 2 case _ => 4);
    pos := WriteContentSize(dst, pos, p);
  }
}
