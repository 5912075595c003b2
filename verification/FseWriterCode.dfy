/** FSE_writeNCount_generic: the description is put together in a 32-bit word and flushed two bytes at a time. */
module FseWriterCode {
  import opened BitStrings
  import opened Bytes
  import opened FrameFormat
  import opened FseCounts
  import opened FseSpread
  import opened FseTable
  import opened FseWriter

  // ---- Bytes as bits ----

  function Unpack(s: bytes): seq<bool> {
    if s == [] then [] else ToBits(s[0] as nat, 8) + Unpack(s[1..])
  }

  lemma UnpackFirst(s: bytes)
    requires s != []
    ensures Unpack(s) == ToBits(s[0] as nat, 8) + Unpack(s[1..])
  {
  }

  lemma {:induction false} UnpackAppend(s: bytes, t: bytes)
    ensures Unpack(s + t) == Unpack(s) + Unpack(t)
  {
    hide ToBits, Unpack;
    if s == [] {
      NothingUnpacked();
      assert s + t == t;
    } else {
      UnpackAppend(s[1..], t);
      UnpackFirst(s);
      UnpackFirst(s + t);
      assert (s + t)[1..] == s[1..] + t && (s + t)[0] == s[0];
      ConcatAssociates(ToBits(s[0] as nat, 8), Unpack(s[1..]), Unpack(t));
    }
  }

  lemma NothingUnpacked()
    ensures Unpack([]) == []
  {
  }

  lemma PackByte(b: byte, later: seq<bool>)
    ensures Pack(ToBits(b as nat, 8) + later) == [b] + Pack(later)
  {
    Pow2Of8();
    BitsBack(b as nat, 8);
    var all := ToBits(b as nat, 8) + later;
    hide ToBits, FromBits, Pow2, Pack;
    PackSplits(all, []);
    assert all[..8] == ToBits(b as nat, 8) && all[8..] == later;
    assert Pack(all) + [] == Pack(all) && Pack(later) + [] == Pack(later);
    FirstAndRest(Pack(all));
  }

  lemma FirstAndRest(s: bytes)
    requires s != []
    ensures s == [s[0]] + s[1..]
  {
  }

  lemma {:induction false} PackUnpacked(s: bytes, bits: seq<bool>)
    ensures Pack(Unpack(s) + bits) == s + Pack(bits)
  {
    hide ToBits, FromBits, Unpack, Pack;
    if s == [] {
      NothingUnpacked();
      assert [] + bits == bits;
    } else {
      var b, later := s[0], s[1..];
      PackUnpacked(later, bits);
      UnpackFirst(s);
      ConcatAssociates(ToBits(b as nat, 8), Unpack(later), bits);
      PackByte(b, Unpack(later) + bits);
      FirstAndRest(s);
      ConcatAssociates([b], later, Pack(bits));
    }
  }

  /** A word of `n` bits, two bytes of which leave. */
  lemma TwoBytesLeave(v: nat, n: nat)
    requires 16 <= n
    ensures ToBits(v, n) == Unpack([(v % 256) as byte, (v / 256 % 256) as byte]) + ToBits(v / 0x1_0000, n - 16)
  {
    hide ToBits, Unpack, Pow2;
    LowByteLeaves(v, n);
    LowByteLeaves(v / 256, n - 8);
    TwoUnpacked((v % 256) as byte, (v / 256 % 256) as byte);
    assert v / 256 / 256 == v / 0x1_0000;
    ConcatAssociates(ToBits(v % 256, 8), ToBits(v / 256 % 256, 8), ToBits(v / 0x1_0000, n - 16));
  }

  lemma LowByteLeaves(v: nat, n: nat)
    requires 8 <= n
    ensures ToBits(v, n) == ToBits(v % 256, 8) + ToBits(v / 256, n - 8)
  {
    hide ToBits;
    Pow2Of8();
    hide Pow2;
    FieldsJoin(v % 256, 8, v / 256, n - 8);
  }

  lemma TwoUnpacked(a: byte, b: byte)
    ensures Unpack([a, b]) == ToBits(a as nat, 8) + ToBits(b as nat, 8)
  {
    hide ToBits;
    assert [a, b][1..] == [b];
    assert Unpack([b]) == ToBits(b as nat, 8) + Unpack([]);
  }

  /** The last bits, with as many bytes as they need. */
  lemma {:induction false} LastBytes(v: nat, n: nat)
    requires v < Pow2(n)
    ensures Pack(ToBits(v, n)) == LEBytes(v, (n + 7) / 8)
    decreases n
  {
    if n == 0 {
      assert ToBits(v, 0) == [];
    } else if n <= 8 {
      LastByte(v, n);
    } else {
      ByteLeaves(v, n);
      hide ToBits, Pow2, Pack, LEBytes;
      LastBytes(v / 256, n - 8);
      PackByte((v % 256) as byte, ToBits(v / 256, n - 8));
      LowestByte(v, (n + 7) / 8);
      assert (n - 8 + 7) / 8 == (n + 7) / 8 - 1;
    }
  }

  lemma LowestByte(v: nat, k: nat)
    requires 0 < k
    ensures LEBytes(v, k) == [(v % 256) as byte] + LEBytes(v / 256, k - 1)
  {
  }

  lemma LastByte(v: nat, n: nat)
    requires 0 < n <= 8 && v < Pow2(n)
    ensures Pack(ToBits(v, n)) == LEBytes(v, (n + 7) / 8)
  {
    FitsByte(n);
    BitsBack(v, n);
    LowestByte(v, 1);
    assert LEBytes(v / 256, 0) == [];
    var bits := ToBits(v, n);
    hide ToBits, FromBits, Pow2, LEBytes;
    assert bits[..n] == bits && bits[n..] == [];
    assert Pack([]) == [];
    assert (n + 7) / 8 == 1;
  }

  lemma ByteLeaves(v: nat, n: nat)
    requires 8 <= n && v < Pow2(n)
    ensures ToBits(v, n) == ToBits(v % 256, 8) + ToBits(v / 256, n - 8) && v / 256 < Pow2(n - 8)
  {
    hide ToBits;
    Pow2Of8();
    Pow2Adds(8, n - 8);
    hide Pow2;
    LowByteLeaves(v, n);
    QuarterFits(v, Pow2(n - 8));
  }

  lemma QuarterFits(v: nat, p: nat)
    requires v < 256 * p
    ensures v / 256 < p
  {
  }

  // ---- bitStream, bitCount and out ----

  class BitSink {
    var out: bytes
    var bitStream: nat
    var bitCount: nat

    constructor ()
      ensures Valid() && Bits() == [] && bitCount == 0
    {
      out, bitStream, bitCount := [], 0, 0;
    }

    ghost predicate Valid()
      reads this
    {
      bitStream < Pow2(bitCount) && bitCount <= 32
    }

    /** Everything written so far. */
    ghost function Bits(): seq<bool>
      reads this
    {
      Unpack(out) + ToBits(bitStream, bitCount)
    }

    /** `bitStream += value << bitCount; bitCount += width;` The word does not overflow. */
    method Add(value: nat, width: nat)
      requires Valid() && value < Pow2(width) && bitCount + width <= 32
      modifies this`bitStream, this`bitCount
      ensures Valid() && Bits() == old(Bits()) + ToBits(value, width) && bitCount == old(bitCount) + width
    {
      hide ToBits, Unpack, Pow2;
      FieldsJoin(bitStream, bitCount, value, width);
      Fits32(bitStream, bitCount, value, width);
      ConcatAssociates(Unpack(out), ToBits(bitStream, bitCount), ToBits(value, width));
      bitStream := (bitStream + value * Pow2(bitCount)) % U32_LIMIT;
      bitCount := bitCount + width;
    }

    /** Two bytes leave. */
    method Flush()
      requires Valid() && 16 <= bitCount
      modifies this
      ensures Valid() && Bits() == old(Bits()) && bitCount == old(bitCount) - 16
    {
      hide ToBits, Unpack, Pow2;
      ghost var low := [(bitStream % 256) as byte, (bitStream / 256 % 256) as byte];
      TwoBytesLeave(bitStream, bitCount);
      UnpackAppend(out, low);
      HighFits(bitStream, bitCount);
      ConcatAssociates(Unpack(out), Unpack(low), ToBits(bitStream / 0x1_0000, bitCount - 16));
      out := out + [(bitStream % 256) as byte, (bitStream / 256 % 256) as byte];
      bitStream := bitStream / 0x1_0000;
      bitCount := bitCount - 16;
    }

    method FlushIfLong()
      requires Valid()
      modifies this
      ensures Valid() && Bits() == old(Bits()) && bitCount <= 16
    {
      if 16 < bitCount {
        Flush();
      }
    }

    /** A run of `n` zeros behind a zero: 24 at a time, three at a time, and the rest. */
    method AddZeroRun(n: nat)
      requires Valid() && bitCount <= 16
      modifies this
      ensures Valid() && Bits() == old(Bits()) + ZeroRun(n) && bitCount <= 16
    {
      Powers();
      hide Bits, ToBits, Pow2, ZeroRun;
      var left := n;
      ghost var all := Bits() + ZeroRun(n);
      while 24 <= left
        invariant Valid() && bitCount <= 16 && Bits() + ZeroRun(left) == all
      {
        Run24(Bits(), left);
        Add(0xFFFF, 16);
        Flush();
        left := left - 24;
      }
      while 3 <= left
        invariant Valid() && left < 24 && bitCount <= 16 + 2 * (7 - left / 3) && Bits() + ZeroRun(left) == all
      {
        Run3(Bits(), left);
        Add(3, 2);
        left := left - 3;
      }
      RunEnd(left);
      Add(left, 2);
      FlushIfLong();
    }

    /** The bytes, the last ones with as many as the bits left need. */
    method Finish() returns (s: bytes)
      requires Valid() && bitCount <= 16
      ensures s == Pack(Bits())
    {
      PackUnpacked(out, ToBits(bitStream, bitCount));
      LastBytes(bitStream, bitCount);
      LowBytes(bitStream, (bitCount + 7) / 8);
      s := out + [(bitStream % 256) as byte, (bitStream / 256 % 256) as byte][..(bitCount + 7) / 8];
    }
  }

  lemma Fits32(stream: nat, count: nat, value: nat, width: nat)
    requires stream < Pow2(count) && value < Pow2(width) && count + width <= 32
    ensures stream + value * Pow2(count) < Pow2(count + width) <= U32_LIMIT
  {
    Pow2Adds(count, width);
    SizeUpTo32(count + width);
    hide Pow2;
    BelowProduct(stream, value, Pow2(count), Pow2(width));
  }

  lemma BelowProduct(s: nat, v: nat, p: nat, q: nat)
    requires s < p && v < q
    ensures s + v * p < p * q
  {
    assert (v + 1) * p <= q * p;
  }

  lemma {:induction false} SizeUpTo32(n: nat)
    requires n <= 32
    ensures Pow2(n) <= U32_LIMIT
    decreases 32 - n
  {
    if n == 32 {
      Pow2Adds(16, 16);
      Pow2Adds(8, 8);
      Pow2Of8();
    } else {
      SizeUpTo32(n + 1);
    }
  }

  lemma HighFits(v: nat, n: nat)
    requires 16 <= n && v < Pow2(n)
    ensures v / 0x1_0000 < Pow2(n - 16)
  {
    Pow2Adds(16, n - 16);
    Pow2Adds(8, 8);
    Pow2Of8();
    hide Pow2;
  }

  lemma Powers()
    ensures Pow2(16) == 0x1_0000 && Pow2(2) == 4
  {
    Pow2Adds(8, 8);
    Pow2Of8();
    assert Pow2(2) == 2 * Pow2(1) && Pow2(1) == 2 * Pow2(0);
  }

  /** Runs of three zeros are pairs of ones. */
  lemma {:induction false} ManyRuns(n: nat, k: nat)
    requires 3 * k <= n
    ensures 0 < Pow2(2 * k) && ZeroRun(n) == ToBits(Pow2(2 * k) - 1, 2 * k) + ZeroRun(n - 3 * k)
    decreases k
  {
    PowPositive(2 * k);
    if k == 0 {
      assert ToBits(0, 0) == [];
    } else {
      var p := Pow2(2 * k - 2);
      assert Pow2(2 * k) == 2 * Pow2(2 * k - 1) && Pow2(2 * k - 1) == 2 * p;
      ManyRuns(n - 3, k - 1);
      PairOfOnes(p - 1, 2 * k);
      hide Pow2, ToBits;
      assert ZeroRun(n) == [true, true] + ZeroRun(n - 3);
    }
  }

  lemma PairOfOnes(v: nat, n: nat)
    requires 2 <= n
    ensures ToBits(4 * v + 3, n) == [true, true] + ToBits(v, n - 2)
  {
    assert (4 * v + 3) / 2 == 2 * v + 1 && (2 * v + 1) / 2 == v;
    assert ToBits(4 * v + 3, n) == [true] + ToBits(2 * v + 1, n - 1);
    assert ToBits(2 * v + 1, n - 1) == [true] + ToBits(v, n - 2);
  }

  lemma Run24(before: seq<bool>, left: nat)
    requires 24 <= left
    ensures before + ZeroRun(left) == (before + ToBits(0xFFFF, 16)) + ZeroRun(left - 24)
  {
    Powers();
    hide Pow2, ToBits;
    ManyRuns(left, 8);
    hide ZeroRun;
  }

  lemma Run3(before: seq<bool>, left: nat)
    requires 3 <= left
    ensures before + ZeroRun(left) == (before + ToBits(3, 2)) + ZeroRun(left - 3)
  {
    Powers();
    hide Pow2, ToBits;
    ManyRuns(left, 1);
    hide ZeroRun;
  }

  lemma RunEnd(left: nat)
    requires left < 3
    ensures ZeroRun(left) == ToBits(left, 2)
  {
  }

  lemma LowBytes(v: nat, n: nat)
    requires n <= 2
    ensures [(v % 256) as byte, (v / 256 % 256) as byte][..n] == LEBytes(v, n)
  {
    assert LEBytes(v / 256 / 256, 0) == [] == LEBytes(v / 256, 0) == LEBytes(v, 0);
    if n == 1 {
      assert LEBytes(v, 1) == [(v % 256) as byte] + LEBytes(v / 256, 0);
    } else if n == 2 {
      assert LEBytes(v / 256, 1) == [(v / 256 % 256) as byte] + LEBytes(v / 256 / 256, 0);
      assert LEBytes(v, 2) == [(v % 256) as byte] + LEBytes(v / 256, 1);
    }
  }

  // ---- The C function ----

  /** One count: its field, and a flush. */
  method WriteCount(sink: BitSink, count: int, remaining: nat, nbBits: nat)
    requires sink.Valid() && sink.bitCount <= 16 && 1 <= nbBits <= 13 && -1 <= count < remaining
    requires Size(nbBits - 1) <= remaining < 2 * Size(nbBits - 1)
    modifies sink
    ensures sink.Valid() && sink.bitCount <= 16
    ensures sink.Bits() == old(sink.Bits()) + FieldBits(CountField(remaining, nbBits, count))
  {
    FieldFits(remaining, nbBits, count);
    var threshold := Size(nbBits - 1);
    var max := 2 * threshold - 1 - remaining;
    var value := count + 1;
    if threshold <= value {
      value := value + max;
    }
    hide Size, BitSink.Bits;
    sink.Add(value, if value < max then nbBits - 1 else nbBits);
    sink.FlushIfLong();
  }

  /** The loop over a run of zeros: where it ends. */
  method SkipZeroCounts(values: seq<int>, symbol: nat) returns (next: nat)
    requires symbol <= |values|
    ensures next == symbol + LeadingZeros(values[symbol..]) <= |values|
  {
    next := symbol;
    while next < |values| && values[next] == 0
      invariant symbol <= next <= |values|
      invariant symbol + LeadingZeros(values[symbol..]) == next + LeadingZeros(values[next..])
    {
      assert values[next..][1..] == values[next + 1..];
      next := next + 1;
    }
  }

  /** `while (remaining<threshold) { nbBits--; threshold>>=1; }` */
  method Narrow(remaining: nat, nbBits: nat) returns (n: nat)
    requires 1 <= remaining && 1 <= nbBits
    ensures n == Narrowed(remaining, nbBits)
  {
    n := nbBits;
    var threshold := Size(nbBits - 1);
    while remaining < threshold
      invariant 1 <= n && threshold == Size(n - 1) && Narrowed(remaining, n) == Narrowed(remaining, nbBits)
      decreases n
    {
      n := n - 1;
      assert Size(n) == 2 * Size(n - 1);
      threshold := threshold / 2;
    }
  }

  // ---- The loop ----

  /** What is still to be written completes the description of the first `n` counts, if they have one. */
  ghost predicate Going(bits: seq<bool>, values: seq<int>, log: nat, n: nat, symbol: nat, remaining: nat, nbBits: nat, previousIs0: bool) {
    n <= |values| && ValidCounts(values[..n], log) ==>
      && symbol <= n && Describable(values[symbol..n], remaining, nbBits)
      && bits + Describe(values[symbol..n], remaining, nbBits, previousIs0) == DescriptionBits(values[..n], log)
  }

  /** How many zeros the loop passes over. */
  function Skipped(values: seq<int>, symbol: nat, previousIs0: bool): (z: nat)
    requires symbol <= |values|
    ensures symbol + z <= |values|
  {
    Passed(values[symbol..], previousIs0)
  }

  lemma GoingBegins(values: seq<int>, log: nat, n: nat)
    requires MIN_LOG <= log <= MAX_LOG
    ensures Going(ToBits(log - MIN_LOG, 4), values, log, n, 0, Size(log) + 1, log + 1, false)
  {
    if n <= |values| && ValidCounts(values[..n], log) {
      assert values[0..n] == values[..n];
      BeginsDescribable(values[..n], log);
    }
  }

  /** A turn writes the zeros passed over and the next count. */
  function TurnBits(values: seq<int>, symbol: nat, remaining: nat, nbBits: nat, previousIs0: bool): seq<bool>
    requires symbol <= |values| && symbol + Skipped(values, symbol, previousIs0) < |values|
    requires 1 <= nbBits && remaining < 2 * Size(nbBits - 1) && forall i | 0 <= i < |values| :: -1 <= values[i]
  {
    var z := Skipped(values, symbol, previousIs0);
    (if previousIs0 then ZeroRun(z) else []) + FieldBits(CountField(remaining, nbBits, values[symbol + z]))
  }

  lemma {:induction false} SameZeros(s: seq<int>, n: nat)
    requires n <= |s| && LeadingZeros(s[..n]) < n
    ensures LeadingZeros(s) == LeadingZeros(s[..n])
  {
    if s[0] == 0 {
      assert s[..n][1..] == s[1..][..n - 1];
      SameZeros(s[1..], n - 1);
    }
  }

  lemma SkippedWithin(values: seq<int>, n: nat, symbol: nat, remaining: nat, nbBits: nat, previousIs0: bool)
    requires symbol <= n <= |values| && Describable(values[symbol..n], remaining, nbBits) && 1 < remaining
    ensures Skipped(values, symbol, previousIs0) == Passed(values[symbol..n], previousIs0) < n - symbol
  {
    StaysDescribable(values[symbol..n], remaining, nbBits, previousIs0);
    hide Describable, LeadingZeros;
    if previousIs0 {
      assert values[symbol..][..n - symbol] == values[symbol..n];
      SameZeros(values[symbol..], n - symbol);
    }
  }

  lemma DescribeTurn(rest: seq<int>, remaining: nat, nbBits: nat, previousIs0: bool)
    requires Describable(rest, remaining, nbBits) && 1 < remaining
    ensures var z := Passed(rest, previousIs0); z < |rest| && -1 <= rest[z] && Weight(rest[z]) < remaining
    ensures var z := Passed(rest, previousIs0); var left := remaining - Weight(rest[z]);
      && Describable(rest[z + 1..], left, Narrowed(left, nbBits))
      && Describe(rest, remaining, nbBits, previousIs0)
         == (if previousIs0 then ZeroRun(z) else []) + FieldBits(CountField(remaining, nbBits, rest[z]))
            + Describe(rest[z + 1..], left, Narrowed(left, nbBits), rest[z] == 0)
  {
    StaysDescribable(rest, remaining, nbBits, previousIs0);
  }

  lemma GoingTurn(bits: seq<bool>, values: seq<int>, log: nat, n: nat, symbol: nat, remaining: nat, nbBits: nat, previousIs0: bool)
    requires Going(bits, values, log, n, symbol, remaining, nbBits, previousIs0) && n <= |values| && ValidCounts(values[..n], log)
    requires 1 < remaining && 1 <= nbBits && remaining < 2 * Size(nbBits - 1) && symbol <= |values|
    requires forall i | 0 <= i < |values| :: -1 <= values[i]
    ensures var at := symbol + Skipped(values, symbol, previousIs0); at < n && Weight(values[at]) < remaining
    ensures var at := symbol + Skipped(values, symbol, previousIs0); var left := remaining - Weight(values[at]);
      Going(bits + TurnBits(values, symbol, remaining, nbBits, previousIs0), values, log, n, at + 1, left,
            Narrowed(left, nbBits), values[at] == 0)
  {
    hide ValidCounts, DescriptionBits, Describable, Describe, Narrowed, Size, FieldBits, ZeroRun, Skipped, Passed, CountField, Weight;
    var rest := values[symbol..n];
    SkippedWithin(values, n, symbol, remaining, nbBits, previousIs0);
    DescribeTurn(rest, remaining, nbBits, previousIs0);
    var z := Skipped(values, symbol, previousIs0);
    assert rest[z] == values[symbol + z] && rest[z + 1..] == values[symbol + z + 1..n];
    var left := remaining - Weight(values[symbol + z]);
    ConcatAssociates(bits, TurnBits(values, symbol, remaining, nbBits, previousIs0),
                     Describe(rest[z + 1..], left, Narrowed(left, nbBits), rest[z] == 0));
  }

  /** A turn goes on, or no prefix of `n` counts has a description. */
  lemma NextGoing(bits: seq<bool>, values: seq<int>, log: nat, n: nat, symbol: nat, remaining: nat, nbBits: nat, previousIs0: bool)
    requires Going(bits, values, log, n, symbol, remaining, nbBits, previousIs0)
    requires 1 < remaining && 1 <= nbBits && remaining < 2 * Size(nbBits - 1) && symbol <= |values|
    requires forall i | 0 <= i < |values| :: -1 <= values[i]
    ensures var at := symbol + Skipped(values, symbol, previousIs0);
      at == |values| || remaining <= Weight(values[at]) ==> !(n <= |values| && ValidCounts(values[..n], log))
    ensures var at := symbol + Skipped(values, symbol, previousIs0);
      at < |values| && Weight(values[at]) < remaining ==>
        var left := remaining - Weight(values[at]);
        Going(bits + TurnBits(values, symbol, remaining, nbBits, previousIs0), values, log, n, at + 1, left,
              Narrowed(left, nbBits), values[at] == 0)
  {
    if n <= |values| && ValidCounts(values[..n], log) {
      GoingTurn(bits, values, log, n, symbol, remaining, nbBits, previousIs0);
    }
    hide ValidCounts, Describable, Describe, Size, Skipped;
  }

  /** The body of the loop: the zeros behind a zero, and the next count. It fails when there are only zeros left
      or when the count is more than what remains, which the code finds out behind a field it then drops. */
  method WriteTurn(sink: BitSink, values: seq<int>, symbol: nat, remaining: nat, nbBits: nat, previousIs0: bool)
    returns (ok: bool, next: nat, left: nat, width: nat, isZero: bool)
    requires sink.Valid() && sink.bitCount <= 16 && symbol < |values| && 1 < remaining && 1 <= nbBits <= 13
    requires Size(nbBits - 1) <= remaining < 2 * Size(nbBits - 1) && forall i | 0 <= i < |values| :: -1 <= values[i]
    modifies sink
    ensures var at := symbol + Skipped(values, symbol, previousIs0);
      ok <==> at < |values| && Weight(values[at]) < remaining
    ensures var at := symbol + Skipped(values, symbol, previousIs0);
      ok ==>
        && sink.Valid() && sink.bitCount <= 16 && next == at + 1 && left == remaining - Weight(values[at])
        && width == Narrowed(left, nbBits) && isZero == (values[at] == 0)
        && sink.Bits() == old(sink.Bits()) + TurnBits(values, symbol, remaining, nbBits, previousIs0)
  {
    hide Size, LeadingZeros, Narrowed, CountField, ZeroRun, FieldBits, BitSink.Bits, BitSink.Valid;
    ok, next, left, width, isZero := false, symbol, remaining, nbBits, false;
    ghost var before := sink.Bits();
    if previousIs0 {
      next := SkipZeroCounts(values, symbol);
      if next == |values| {
        return;
      }
      sink.AddZeroRun(next - symbol);
    }
    var count := values[next];
    if remaining <= if count < 0 then -count else count {
      return;
    }
    WriteCount(sink, count, remaining, nbBits);
    ghost var field := FieldBits(CountField(remaining, nbBits, count));
    if previousIs0 {
      ConcatAssociates(before, ZeroRun(next - symbol), field);
    } else {
      assert [] + field == field;
    }
    ok, next, left, isZero := true, next + 1, remaining - (if count < 0 then -count else count), count == 0;
    width := Narrow(left, nbBits);
  }

  lemma {:induction false} TotalOfSum(a: seq<int>, b: seq<int>)
    ensures Total(a + b) == Total(a) + Total(b)
  {
    hide Weight;
    if a == [] {
      assert a + b == b;
    } else {
      TotalOfSum(a[1..], b);
      assert (a + b)[1..] == a[1..] + b;
    }
  }

  lemma TotalTurn(values: seq<int>, symbol: nat, previousIs0: bool)
    requires symbol <= |values| && symbol + Skipped(values, symbol, previousIs0) < |values|
    ensures var at := symbol + Skipped(values, symbol, previousIs0);
      Total(values[..at + 1]) == Total(values[..symbol]) + Weight(values[at])
  {
    var at := symbol + Skipped(values, symbol, previousIs0);
    var zeros := values[symbol..at];
    forall i | 0 <= i < |zeros| ensures zeros[i] == 0 {
      assert zeros[i] == values[symbol..][i];
    }
    hide Skipped, LeadingZeros, Weight;
    ZerosTotal(zeros);
    TotalOfSum([values[at]], []);
    assert [values[at]] + [] == [values[at]];
    TotalOfSum(values[..symbol], zeros);
    TotalOfSum(values[..at], [values[at]]);
    assert values[..at] == values[..symbol] + zeros && values[..at + 1] == values[..at] + [values[at]];
    assert Total([values[at]]) == Weight(values[at]) + Total([]);
  }

  lemma EndsShort(bits: seq<bool>, values: seq<int>, log: nat, n: nat, remaining: nat, nbBits: nat, previousIs0: bool)
    requires Going(bits, values, log, n, |values|, remaining, nbBits, previousIs0) && 1 < remaining
    ensures !(n <= |values| && ValidCounts(values[..n], log))
  {
    hide ValidCounts, Describe;
    assert values[|values|..|values|] == [];
  }

  lemma EndsWell(bits: seq<bool>, values: seq<int>, log: nat, n: nat, symbol: nat, nbBits: nat, previousIs0: bool)
    requires Going(bits, values, log, n, symbol, 1, nbBits, previousIs0) && n <= |values| && ValidCounts(values[..n], log)
    ensures Pack(bits) == WriteCounts(values[..n], log)
  {
    hide ValidCounts, Describable, DescriptionBits, Pack;
    assert Describe(values[symbol..n], 1, nbBits, previousIs0) == [];
    assert bits + [] == bits;
  }

  /** Where the loop stands. */
  ghost predicate Reached(bits: seq<bool>, values: seq<int>, log: nat, n: nat, symbol: nat, remaining: nat, nbBits: nat, previousIs0: bool) {
    && symbol <= |values| && 1 <= remaining && 1 <= nbBits <= 13 && Size(nbBits - 1) <= remaining < 2 * Size(nbBits - 1)
    && Total(values[..symbol]) + remaining == Size(log) + 1
    && Going(bits, values, log, n, symbol, remaining, nbBits, previousIs0)
  }

  lemma ReachedAtFirst(values: seq<int>, log: nat, n: nat)
    requires MIN_LOG <= log <= MAX_LOG
    ensures Reached(ToBits(log - MIN_LOG, 4), values, log, n, 0, Size(log) + 1, log + 1, false)
  {
    GoingBegins(values, log, n);
    SizeAtLeast(log);
    assert values[..0] == [];
    assert Total([]) == 0;
    hide Going, Size, Total;
  }

  lemma ReachedNext(bits: seq<bool>, values: seq<int>, log: nat, n: nat, symbol: nat, remaining: nat, nbBits: nat, previousIs0: bool)
    requires Reached(bits, values, log, n, symbol, remaining, nbBits, previousIs0) && 1 < remaining
    requires forall i | 0 <= i < |values| :: -1 <= values[i]
    ensures symbol <= |values| && 1 <= nbBits <= 13 && Size(nbBits - 1) <= remaining < 2 * Size(nbBits - 1)
    ensures var at := symbol + Skipped(values, symbol, previousIs0);
      at == |values| || remaining <= Weight(values[at]) ==> !(n <= |values| && ValidCounts(values[..n], log))
    ensures var at := symbol + Skipped(values, symbol, previousIs0);
      at < |values| && Weight(values[at]) < remaining ==>
        var left := remaining - Weight(values[at]);
        Reached(bits + TurnBits(values, symbol, remaining, nbBits, previousIs0), values, log, n, at + 1, left,
                Narrowed(left, nbBits), values[at] == 0)
  {
    hide Going, TurnBits, Skipped, Total, Size, ValidCounts, Narrowed, Weight;
    NextGoing(bits, values, log, n, symbol, remaining, nbBits, previousIs0);
    var at := symbol + Skipped(values, symbol, previousIs0);
    if at < |values| && Weight(values[at]) < remaining {
      TotalTurn(values, symbol, previousIs0);
      NarrowedFits(remaining - Weight(values[at]), nbBits);
    }
  }

  lemma ReachedEnd(bits: seq<bool>, values: seq<int>, log: nat, n: nat, symbol: nat, remaining: nat, nbBits: nat, previousIs0: bool)
    requires Reached(bits, values, log, n, symbol, remaining, nbBits, previousIs0) && (symbol == |values| || remaining == 1)
    requires MIN_LOG <= log <= MAX_LOG && |values| <= 256 && forall i | 0 <= i < |values| :: -1 <= values[i]
    ensures n <= |values| && ValidCounts(values[..n], log) ==> remaining == 1 && Pack(bits) == WriteCounts(values[..n], log)
    ensures remaining == 1 ==> symbol <= |values| && ValidCounts(values[..symbol], log)
  {
    hide Going, Total, Size, Pack, WriteCounts;
    if n <= |values| && ValidCounts(values[..n], log) {
      hide ValidCounts;
      if remaining == 1 {
        EndsWell(bits, values, log, n, symbol, nbBits, previousIs0);
      } else {
        EndsShort(bits, values, log, n, remaining, nbBits, previousIs0);
      }
    }
  }

  /** FSE_writeNCount_generic, writing into a buffer that is large enough. What it gives is the description of the
      first counts that fill the table, and there is none when none do. */
  method WriteNCount(values: seq<int>, log: nat, ghost n: nat) returns (result: Option<bytes>, ghost k: nat)
    requires MIN_LOG <= log <= MAX_LOG && |values| <= 256 && forall i | 0 <= i < |values| :: -1 <= values[i]
    ensures n <= |values| && ValidCounts(values[..n], log) ==> result == Some(WriteCounts(values[..n], log))
    ensures result.Some? ==> k <= |values| && ValidCounts(values[..k], log)
  {
    hide BitSink.Bits, BitSink.Valid, Reached, TurnBits, Skipped, Narrowed, WriteCounts, ValidCounts, Size, Weight, ToBits;
    var sink := new BitSink();
    AddLog(sink, log);
    ReachedAtFirst(values, log, n);
    var symbol: nat, remaining: nat, nbBits: nat, previousIs0 := 0, Size(log) + 1, log + 1, false;
    while symbol < |values| && 1 < remaining
      invariant symbol <= |values| && 1 <= remaining && sink.Valid() && sink.bitCount <= 16
      invariant Reached(sink.Bits(), values, log, n, symbol, remaining, nbBits, previousIs0)
      decreases |values| - symbol
    {
      ReachedNext(sink.Bits(), values, log, n, symbol, remaining, nbBits, previousIs0);
      var ok, next, left, width, isZero := WriteTurn(sink, values, symbol, remaining, nbBits, previousIs0);
      if !ok {
        return None, 0;
      }
      symbol, remaining, nbBits, previousIs0 := next, left, width, isZero;
    }
    ReachedEnd(sink.Bits(), values, log, n, symbol, remaining, nbBits, previousIs0);
    if remaining != 1 {
      return None, 0;
    }
    var description := sink.Finish();
    return Some(description), symbol;
  }

  method AddLog(sink: BitSink, log: nat)
    requires sink.Valid() && sink.Bits() == [] && sink.bitCount == 0 && MIN_LOG <= log <= MAX_LOG
    modifies sink
    ensures sink.Valid() && sink.bitCount == 4 && sink.Bits() == ToBits(log - MIN_LOG, 4)
  {
    Pow2Of4();
    hide Pow2, ToBits, BitSink.Bits, BitSink.Valid;
    sink.Add(log - MIN_LOG, 4);
    assert [] + ToBits(log - MIN_LOG, 4) == ToBits(log - MIN_LOG, 4);
  }

  lemma Pow2Of4()
    ensures Pow2(4) == 16
  {
    assert Pow2(4) == 2 * Pow2(3) && Pow2(3) == 2 * Pow2(2) && Pow2(2) == 2 * Pow2(1) && Pow2(1) == 2 * Pow2(0);
  }

  // ---- An example: two symbols with 16 of 32 cells each ----

  lemma PowersUpTo6()
    ensures Pow2(0) == 1 && Pow2(1) == 2 && Pow2(2) == 4 && Pow2(3) == 8 && Pow2(4) == 16 && Pow2(5) == 32 && Pow2(6) == 64
  {
    assert Pow2(1) == 2 * Pow2(0) && Pow2(2) == 2 * Pow2(1) && Pow2(3) == 2 * Pow2(2) && Pow2(4) == 2 * Pow2(3);
    assert Pow2(5) == 2 * Pow2(4) && Pow2(6) == 2 * Pow2(5);
  }

  lemma HalvesAreValid(values: seq<int>)
    requires values == [16, 16]
    ensures Total(values) == 32 && Total(values[1..]) == 16 && ValidCounts(values, 5)
  {
    PowersUpTo6();
    assert values[1..] == [16] && values[1..][1..] == [];
    assert Total([]) == 0;
  }

  lemma HalvesDescribed(values: seq<int>)
    requires values == [16, 16]
    ensures ValidCounts(values, 5) && DescriptionBits(values, 5) == ToBits(0, 4) + (ToBits(17, 5) + ToBits(31, 5))
  {
    HalvesAreValid(values);
    PowersUpTo6();
    hide Pow2, ToBits;
    BeginsDescribable(values, 5);
    StaysDescribable(values, 33, 6, false);
    assert Narrowed(17, 6) == 5;
    HeadAndLater(values, 33, 6, false);
    StaysDescribable(values[1..], 17, 5, false);
    HeadAndLater(values[1..], 17, 5, false);
  }

  lemma HalvesBits()
    ensures ToBits(0, 4) + (ToBits(17, 5) + ToBits(31, 5)) == ToBits(0x3F10, 14)
  {
    PowersUpTo6();
    hide Pow2, ToBits;
    FieldsJoin(17, 5, 31, 5);
    FieldsJoin(0, 4, 17 + 31 * 32, 10);
  }

  /** The bytes of their description, and what is read from them, whatever follows. */
  lemma HalvesAreRead(rest: bytes)
    ensures ReadCounts([0x10, 0x3F] + rest, 255) == Some(Counts(Padded([16, 16]), 1, 5, 2))
  {
    hide ToBits, ReadCounts, Padded, DescriptionBits, ValidCounts, Pack, LEBytes;
    var values := [16, 16];
    HalvesDescribed(values);
    HalvesBits();
    HalvesBytes();
    HalvesUsed(values);
    CountsRoundTrip(values, 5, 255, rest);
  }

  lemma HalvesBytes()
    ensures Pack(ToBits(0x3F10, 14)) == [0x10, 0x3F]
  {
    PowersUpTo6();
    Pow2Adds(6, 6);
    Pow2Adds(2, 12);
    hide ToBits, Pow2, Pack;
    LastBytes(0x3F10, 14);
    LowBytes(0x3F10, 2);
  }

  lemma HalvesUsed(values: seq<int>)
    requires values == [16, 16]
    ensures Used(values) == 2
  {
    HalvesAreValid(values);
    assert values[1..] == [16] && values[1..][1..] == [];
  }
}
