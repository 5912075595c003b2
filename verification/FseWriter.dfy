/** The writer of the compact header in the compressor, and the reading of what it wrote. */
module FseWriter {
  import opened Arithmetic
  import opened BitStrings
  import opened Bytes
  import opened FrameFormat
  import opened FseCounts
  import opened FseSpread
  import opened FseTable

  // ---- The bits of a description ----

  /** `while (remaining<threshold)`: the width that what remains needs. */
  function Narrowed(remaining: nat, numberBits: nat): (n: nat)
    requires 1 <= remaining && 1 <= numberBits
    ensures 1 <= n <= numberBits && Size(n - 1) <= remaining
  {
    if remaining < Size(numberBits - 1) then Narrowed(remaining, numberBits - 1) else numberBits
  }

  /** How a count is written: its value, shifted so that small ones take one bit less, and its width. */
  datatype Field = Field(value: nat, width: nat)

  function CountField(remaining: nat, numberBits: nat, count: int): Field
    requires 1 <= numberBits && remaining < 2 * Size(numberBits - 1) && -1 <= count
  {
    var threshold := Size(numberBits - 1);
    var maximum := 2 * threshold - 1 - remaining;
    var value := if threshold <= count + 1 then count + 1 + maximum else count + 1;
    Field(value, if value < maximum then numberBits - 1 else numberBits)
  }

  /** A run of zeros behind a zero: two bits of 3 for every three of them, and two bits for the rest. */
  function ZeroRun(n: nat): seq<bool> {
    if 3 <= n then [true, true] + ZeroRun(n - 3) else ToBits(n, 2)
  }

  function LeadingZeros(values: seq<int>): (z: nat)
    ensures z <= |values| && (forall i | 0 <= i < z :: values[i] == 0) && (z < |values| ==> values[z] != 0)
  {
    if values == [] || values[0] != 0 then 0 else 1 + LeadingZeros(values[1..])
  }

  /** The counts still to be written, and the state of the writer. */
  predicate Describable(values: seq<int>, remaining: nat, numberBits: nat) {
    && (forall i | 0 <= i < |values| :: -1 <= values[i]) && Total(values) + 1 == remaining && 1 <= numberBits <= 13
    && (1 < remaining ==> Size(numberBits - 1) <= remaining < 2 * Size(numberBits - 1))
  }

  /** How many zeros are passed over before the next count. */
  function Passed(values: seq<int>, previousZero: bool): nat {
    if previousZero then LeadingZeros(values) else 0
  }

  lemma {:induction false} CountIsThere(values: seq<int>)
    requires 0 < Total(values)
    ensures LeadingZeros(values) < |values|
  {
    if values[0] == 0 {
      CountIsThere(values[1..]);
    }
  }

  lemma {:induction false} TotalBehind(values: seq<int>, z: nat)
    requires z < |values| && forall i | 0 <= i < z :: values[i] == 0
    ensures Total(values) == Weight(values[z]) + Total(values[z + 1..])
  {
    if z != 0 {
      TotalBehind(values[1..], z - 1);
      assert values[1..][z..] == values[z + 1..];
    }
  }

  lemma NarrowedFits(remaining: nat, numberBits: nat)
    requires 1 <= numberBits && 1 <= remaining < 2 * Size(numberBits - 1)
    ensures var n := Narrowed(remaining, numberBits); remaining < 2 * Size(n - 1)
    ensures Narrowed(remaining, numberBits) == if remaining < Size(numberBits - 1) then BitWidth(remaining) else numberBits
  {
    NarrowedBelow(remaining, numberBits);
    WidthIs(remaining, Narrowed(remaining, numberBits) - 1);
  }

  lemma {:induction false} NarrowedBelow(remaining: nat, numberBits: nat)
    requires 1 <= numberBits && 1 <= remaining < 2 * Size(numberBits - 1)
    ensures remaining < 2 * Size(Narrowed(remaining, numberBits) - 1)
  {
    if remaining < Size(numberBits - 1) {
      assert Size(numberBits - 1) == 2 * Size(numberBits - 2);
      NarrowedBelow(remaining, numberBits - 1);
    }
  }

  lemma StaysDescribable(values: seq<int>, remaining: nat, numberBits: nat, previousZero: bool)
    requires Describable(values, remaining, numberBits) && 1 < remaining
    ensures var z := Passed(values, previousZero);
      z < |values| && Weight(values[z]) < remaining && -1 <= values[z]
    ensures var z := Passed(values, previousZero); var left := remaining - Weight(values[z]);
      1 <= left && Describable(values[z + 1..], left, Narrowed(left, numberBits))
  {
    hide Total, Size, Narrowed, BitWidth, LeadingZeros, Weight;
    var z := Passed(values, previousZero);
    CountIsThere(values);
    TotalBehind(values, z);
    NarrowedFits(remaining - Weight(values[z]), numberBits);
    var later := values[z + 1..];
    assert forall i | 0 <= i < |later| :: later[i] == values[z + 1 + i];
  }

  /** What the loop writes from here on. */
  function Describe(values: seq<int>, remaining: nat, numberBits: nat, previousZero: bool): seq<bool>
    requires Describable(values, remaining, numberBits)
    decreases |values|
  {
    if remaining <= 1 then []
    else
      StaysDescribable(values, remaining, numberBits, previousZero);
      var z := Passed(values, previousZero);
      var left := remaining - Weight(values[z]);
      (if previousZero then ZeroRun(z) else []) + FieldBits(CountField(remaining, numberBits, values[z]))
      + Describe(values[z + 1..], left, Narrowed(left, numberBits), values[z] == 0)
  }

  function FieldBits(f: Field): seq<bool> {
    ToBits(f.value, f.width)
  }

  lemma BeginsDescribable(values: seq<int>, log: nat)
    requires ValidCounts(values, log)
    ensures Describable(values, Size(log) + 1, log + 1)
  {
    assert Size(log + 1) == 2 * Size(log);
    SizeAtLeast(log);
    hide Total, Size;
  }

  lemma SizeAtLeast(log: nat)
    requires MIN_LOG <= log
    ensures 2 <= Size(log)
  {
    assert Size(log) == 2 * Size(log - 1);
  }

  function DescriptionBits(values: seq<int>, log: nat): seq<bool>
    requires ValidCounts(values, log)
  {
    BeginsDescribable(values, log);
    ToBits(log - MIN_LOG, 4) + Describe(values, Size(log) + 1, log + 1, false)
  }

  /** The description: its bits, packed. */
  function WriteCounts(values: seq<int>, log: nat): bytes
    requires ValidCounts(values, log)
  {
    Pack(DescriptionBits(values, log))
  }

  // ---- Reading it ----

  lemma TwoBits()
    ensures FromBits([true, true]) == 3 && FromBits([]) == 0
  {
    assert [true, true][1..] == [true] && [true][1..] == [];
    assert FromBits([true]) == 1 + 2 * FromBits([]);
  }

  lemma PeekHeld(source: bytes, offset: nat, bits: seq<bool>)
    requires Holds(source, offset, bits) && |bits| <= 32
    ensures Peek(source, offset, |bits|) == Some(FromBits(bits))
  {
    BitsHeld(source, offset, bits);
    hide BitsAt, FromBits;
  }

  /** The run of zeros is passed over. */
  lemma {:induction false} SkipsRun(source: bytes, offset: nat, symbol: nat, n: nat, maximumSymbol: nat)
    requires Holds(source, offset, ZeroRun(n)) && symbol + n <= maximumSymbol
    ensures SkipZeros(source, offset, symbol, maximumSymbol) == Some((offset + |ZeroRun(n)|, symbol + n))
    decreases n
  {
    hide Holds, BitsAt;
    if 3 <= n {
      HoldsPart(source, offset, [true, true], ZeroRun(n - 3));
      PeekHeld(source, offset, [true, true]);
      TwoBits();
      hide FromBits;
      SkipsRun(source, offset + 2, symbol + 3, n - 3, maximumSymbol);
    } else {
      PeekHeld(source, offset, ToBits(n, 2));
      assert Pow2(2) == 2 * Pow2(1) && Pow2(1) == 2 * Pow2(0);
      BitsBack(n, 2);
    }
  }

  lemma FieldFits(remaining: nat, numberBits: nat, count: int)
    requires 1 <= numberBits && Size(numberBits - 1) <= remaining < 2 * Size(numberBits - 1) && -1 <= count < remaining
    ensures var f := CountField(remaining, numberBits, count); f.value < Size(f.width) && f.width <= numberBits
  {
    assert Size(numberBits) == 2 * Size(numberBits - 1);
    hide Size;
  }

  /** A count is read as it was written. */
  lemma TakesCount(source: bytes, offset: nat, remaining: nat, numberBits: nat, count: int)
    requires 1 <= numberBits <= 13 && Size(numberBits - 1) <= remaining < 2 * Size(numberBits - 1) && -1 <= count < remaining
    requires Holds(source, offset, FieldBits(CountField(remaining, numberBits, count)))
    ensures TakeCount(source, offset, remaining, numberBits)
         == Some((offset + CountField(remaining, numberBits, count).width, count))
  {
    var f := CountField(remaining, numberBits, count);
    FieldFits(remaining, numberBits, count);
    BitsBack(f.value, f.width);
    PeekHeld(source, offset, FieldBits(f));
    hide Holds, ToBits, FromBits, BitAt, Size;
    if f.width == numberBits {
      PeekLow(source, offset, numberBits);
    }
    hide BitsAt, Peek;
    PeeksAreCount(source, offset, remaining, numberBits, count);
  }

  lemma PeekLow(source: bytes, offset: nat, numberBits: nat)
    requires 1 <= numberBits && Peek(source, offset, numberBits).Some? && Peek(source, offset, numberBits).value < 2 * Size(numberBits - 1)
    ensures var v, t := Peek(source, offset, numberBits).value, Size(numberBits - 1);
      Peek(source, offset, numberBits - 1) == Some(if v < t then v else v - t)
  {
    BitsSplit(source, offset, numberBits - 1);
    hide BitsAt, Size;
    TopBit(Size(numberBits - 1), BitAt(source, offset + numberBits - 1));
    hide BitAt;
  }

  lemma TopBit(size: nat, bit: nat)
    requires bit < 2
    ensures size * bit == if bit == 0 then 0 else size
  {
  }

  lemma PeeksAreCount(source: bytes, offset: nat, remaining: nat, numberBits: nat, count: int)
    requires 1 <= numberBits && Size(numberBits - 1) <= remaining < 2 * Size(numberBits - 1) && -1 <= count < remaining
    requires var f := CountField(remaining, numberBits, count); Peek(source, offset, f.width) == Some(f.value)
    requires var f, t := CountField(remaining, numberBits, count), Size(numberBits - 1);
      f.width == numberBits ==> Peek(source, offset, numberBits - 1) == Some(if f.value < t then f.value else f.value - t)
    ensures TakeCount(source, offset, remaining, numberBits)
         == Some((offset + CountField(remaining, numberBits, count).width, count))
  {
    hide Peek, Size;
  }

  function Padded(values: seq<int>): (all: seq<int>)
    requires |values| <= 256
    ensures |all| == 256 && forall i | 0 <= i < 256 :: all[i] == if i < |values| then values[i] else 0
  {
    values + seq(256 - |values|, _ => 0)
  }

  lemma PaddedStep(values: seq<int>, i: nat, z: nat)
    requires i + z < |values| <= 256 && forall j | 0 <= j < z :: values[i..][j] == 0
    ensures Padded(values[..i])[i + z := values[i + z]] == Padded(values[..i + z + 1])
  {
    var a, b := Padded(values[..i])[i + z := values[i + z]], Padded(values[..i + z + 1]);
    hide Padded;
    forall k | 0 <= k < 256 ensures a[k] == b[k] {
      if i <= k < i + z {
        assert values[i..][k - i] == values[k];
      }
    }
  }

  /** What one turn of the writer writes, and what comes behind it. */
  function HeadBits(rest: seq<int>, remaining: nat, numberBits: nat, previousZero: bool): seq<bool>
    requires Describable(rest, remaining, numberBits) && 1 < remaining
  {
    StaysDescribable(rest, remaining, numberBits, previousZero);
    var z := Passed(rest, previousZero);
    (if previousZero then ZeroRun(z) else []) + FieldBits(CountField(remaining, numberBits, rest[z]))
  }

  function LaterBits(rest: seq<int>, remaining: nat, numberBits: nat, previousZero: bool): seq<bool>
    requires Describable(rest, remaining, numberBits) && 1 < remaining
  {
    StaysDescribable(rest, remaining, numberBits, previousZero);
    var z := Passed(rest, previousZero);
    var left := remaining - Weight(rest[z]);
    Describe(rest[z + 1..], left, Narrowed(left, numberBits), rest[z] == 0)
  }

  lemma HeadAndLater(rest: seq<int>, remaining: nat, numberBits: nat, previousZero: bool)
    requires Describable(rest, remaining, numberBits) && 1 < remaining
    ensures Describe(rest, remaining, numberBits, previousZero)
         == HeadBits(rest, remaining, numberBits, previousZero) + LaterBits(rest, remaining, numberBits, previousZero)
  {
    hide ZeroRun, FieldBits, CountField, Narrowed, Total, Size, Passed;
  }

  /** The reader stands where the description of the counts behind the first `q.symbol` begins, which goes on to `end`. */
  predicate GoesOn(source: bytes, values: seq<int>, q: Reading, numberBits: nat, end: nat) {
    && q.symbol <= |values| <= 256 && q.values == Padded(values[..q.symbol])
    && Describable(values[q.symbol..], q.remaining, numberBits) && (1 < q.remaining ==> q.numberBits == numberBits)
    && var bits := Describe(values[q.symbol..], q.remaining, numberBits, q.previousZero);
      Holds(source, q.offset, bits) && q.offset + |bits| == end
  }

  lemma GoesOnWith(source: bytes, values: seq<int>, r: Reading, q: Reading, end: nat)
    requires GoesOn(source, values, r, r.numberBits, end) && 1 < r.remaining
    requires var rest := values[r.symbol..]; var z := Passed(rest, r.previousZero);
      && z < |rest| && q.symbol == r.symbol + z + 1 && q.values == Padded(values[..q.symbol])
      && q.previousZero == (rest[z] == 0) && q.remaining == r.remaining - Weight(rest[z])
    requires q.offset == r.offset + |HeadBits(values[r.symbol..], r.remaining, r.numberBits, r.previousZero)|
    requires 1 <= q.remaining && (1 < q.remaining ==> q.numberBits == Narrowed(q.remaining, r.numberBits))
    ensures GoesOn(source, values, q, Narrowed(q.remaining, r.numberBits), end)
  {
    hide Describe, Holds, Narrowed, Padded, Passed, HeadBits, LaterBits, Size, Total, Describable, Weight;
    var rest := values[r.symbol..];
    LaterIs(rest, r.remaining, r.numberBits, r.previousZero);
    HeadAndLater(rest, r.remaining, r.numberBits, r.previousZero);
    assert rest[Passed(rest, r.previousZero) + 1..] == values[q.symbol..];
    HoldsPart(source, r.offset, HeadBits(rest, r.remaining, r.numberBits, r.previousZero),
              LaterBits(rest, r.remaining, r.numberBits, r.previousZero));
  }

  lemma LaterIs(rest: seq<int>, remaining: nat, numberBits: nat, previousZero: bool)
    requires Describable(rest, remaining, numberBits) && 1 < remaining
    ensures var z := Passed(rest, previousZero); z < |rest| && Weight(rest[z]) < remaining
    ensures var z := Passed(rest, previousZero); var left := remaining - Weight(rest[z]);
      && Describable(rest[z + 1..], left, Narrowed(left, numberBits))
      && LaterBits(rest, remaining, numberBits, previousZero)
         == Describe(rest[z + 1..], left, Narrowed(left, numberBits), rest[z] == 0)
  {
    hide Describe, Narrowed, Passed, Size, Total, Describable, Weight;
    StaysDescribable(rest, remaining, numberBits, previousZero);
  }

  lemma HeadIs(rest: seq<int>, remaining: nat, numberBits: nat, previousZero: bool)
    requires Describable(rest, remaining, numberBits) && 1 < remaining
    ensures 1 <= numberBits <= 13 && Size(numberBits - 1) <= remaining < 2 * Size(numberBits - 1)
    ensures var z := Passed(rest, previousZero); z < |rest| && Weight(rest[z]) < remaining && -1 <= rest[z] < remaining
    ensures var z := Passed(rest, previousZero); var run := if previousZero then ZeroRun(z) else [];
      && |FieldBits(CountField(remaining, numberBits, rest[z]))| == CountField(remaining, numberBits, rest[z]).width
      && HeadBits(rest, remaining, numberBits, previousZero) == run + FieldBits(CountField(remaining, numberBits, rest[z]))
  {
    StaysDescribable(rest, remaining, numberBits, previousZero);
    CountBelow(rest[Passed(rest, previousZero)], remaining);
    hide Passed, Size, Total, Weight, ZeroRun, CountField, ToBits;
  }

  /** One turn of the reader over what one turn of the writer wrote. */
  lemma ReadsOne(source: bytes, values: seq<int>, r: Reading, maximumSymbol: nat, end: nat) returns (q: Reading)
    requires GoesOn(source, values, r, r.numberBits, end) && 1 < r.remaining && r.symbol <= maximumSymbol
    requires |values| <= maximumSymbol + 1 <= 256
    ensures 1 <= r.numberBits && Size(r.numberBits - 1) <= r.remaining < 2 * Size(r.numberBits - 1) && |r.values| == 256
    ensures NextCount(source, r, maximumSymbol) == Some(q)
    ensures r.symbol < q.symbol == r.symbol + Passed(values[r.symbol..], r.previousZero) + 1
    ensures 1 <= q.remaining && GoesOn(source, values, q, Narrowed(q.remaining, r.numberBits), end)
  {
    hide Describe, Holds, Narrowed, Padded, Passed, ZeroRun, NextCount, Size, Total, BitWidth, LaterBits, HeadBits, Weight,
         Describable, FieldBits, CountField;
    var rest := values[r.symbol..];
    HeadIs(rest, r.remaining, r.numberBits, r.previousZero);
    HeadAndLater(rest, r.remaining, r.numberBits, r.previousZero);
    var z := Passed(rest, r.previousZero);
    var run := if r.previousZero then ZeroRun(z) else [];
    var field := FieldBits(CountField(r.remaining, r.numberBits, rest[z]));
    HoldsPart(source, r.offset, run + field, LaterBits(rest, r.remaining, r.numberBits, r.previousZero));
    HoldsPart(source, r.offset, run, field);
    NarrowedFits(r.remaining - Weight(rest[z]), r.numberBits);
    q := ReadsOneOf(source, values, r, maximumSymbol, z);
    GoesOnWith(source, values, r, q, end);
  }

  /** The turn of the reader, for a run of `z` zeros and a count behind it. */
  lemma ReadsOneOf(source: bytes, values: seq<int>, r: Reading, maximumSymbol: nat, z: nat) returns (q: Reading)
    requires r.symbol + z < |values| <= maximumSymbol + 1 <= 256 && r.values == Padded(values[..r.symbol])
    requires z == Passed(values[r.symbol..], r.previousZero) && 1 < r.remaining && 1 <= r.numberBits <= 13
    requires Size(r.numberBits - 1) <= r.remaining < 2 * Size(r.numberBits - 1)
    requires -1 <= values[r.symbol + z] < r.remaining && Weight(values[r.symbol + z]) < r.remaining
    requires Holds(source, r.offset, if r.previousZero then ZeroRun(z) else [])
    requires Holds(source, r.offset + |if r.previousZero then ZeroRun(z) else []|,
                   FieldBits(CountField(r.remaining, r.numberBits, values[r.symbol + z])))
    ensures NextCount(source, r, maximumSymbol) == Some(q)
    ensures var count := values[r.symbol + z]; var left := r.remaining - Weight(count);
      && q.offset == r.offset + |if r.previousZero then ZeroRun(z) else []| + CountField(r.remaining, r.numberBits, count).width
      && q.remaining == left && q.numberBits == (if 1 < left < Size(r.numberBits - 1) then BitWidth(left) else r.numberBits)
      && q.symbol == r.symbol + z + 1 && q.previousZero == (count == 0) && q.values == Padded(values[..q.symbol])
  {
    hide Holds, ZeroRun, CountField, Padded, SkipZeros, TakeCount, BitWidth, Size, Passed, Weight, NextCount, ToBits;
    var count := values[r.symbol + z];
    PassedAreZeros(values[r.symbol..], r.previousZero);
    PaddedStep(values, r.symbol, z);
    if r.previousZero {
      SkipsRun(source, r.offset, r.symbol, z, maximumSymbol);
    }
    var at := r.offset + |if r.previousZero then ZeroRun(z) else []|;
    TakesCount(source, at, r.remaining, r.numberBits, count);
    hide FieldBits;
    NextIs(source, r, maximumSymbol, at, z, count, CountField(r.remaining, r.numberBits, count).width);
    q := NextCount(source, r, maximumSymbol).value;
  }

  lemma PassedAreZeros(rest: seq<int>, previousZero: bool)
    ensures Passed(rest, previousZero) <= |rest|
    ensures forall j | 0 <= j < Passed(rest, previousZero) :: rest[j] == 0
    ensures !previousZero ==> Passed(rest, previousZero) == 0
  {
  }

  lemma NextIs(source: bytes, r: Reading, maximumSymbol: nat, at: nat, z: nat, count: int, width: nat)
    requires 1 <= r.numberBits && 1 < r.remaining && Size(r.numberBits - 1) <= r.remaining < 2 * Size(r.numberBits - 1)
    requires |r.values| == 256 && r.symbol + z <= maximumSymbol < 256 && Weight(count) < r.remaining
    requires if r.previousZero then SkipZeros(source, r.offset, r.symbol, maximumSymbol) == Some((at, r.symbol + z))
             else at == r.offset && z == 0
    requires TakeCount(source, at, r.remaining, r.numberBits) == Some((at + width, count))
    ensures var left := r.remaining - Weight(count);
      NextCount(source, r, maximumSymbol) ==
        Some(Reading(at + width, left, if 1 < left < Size(r.numberBits - 1) then BitWidth(left) else r.numberBits,
                     r.symbol + z + 1, count == 0, r.values[r.symbol + z := count]))
  {
    hide SkipZeros, TakeCount, BitWidth, Size, Weight;
  }

  /** How long the list is without the zeros at its end. */
  function Used(values: seq<int>): (n: nat)
    ensures n <= |values|
  {
    if values == [] then 0
    else
      var n := Used(values[1..]);
      if n == 0 && values[0] == 0 then 0 else n + 1
  }

  lemma {:induction false} UsedBehind(values: seq<int>, z: nat)
    requires z < |values|
    ensures Used(values) == (if Used(values[z + 1..]) == 0 && forall i | 0 <= i <= z :: values[i] == 0 then 0 else Used(values))
    ensures 0 < Used(values[z + 1..]) || values[z] != 0 ==> Used(values) == z + 1 + Used(values[z + 1..])
  {
    if z != 0 {
      UsedBehind(values[1..], z - 1);
      assert values[1..][z..] == values[z + 1..];
    }
  }

  lemma {:induction false} NothingUsed(values: seq<int>)
    requires Total(values) == 0 && forall i | 0 <= i < |values| :: -1 <= values[i]
    ensures Used(values) == 0 && forall i | 0 <= i < |values| :: values[i] == 0
  {
    if values != [] {
      NothingUsed(values[1..]);
    }
  }

  lemma {:induction false} SomethingUsed(values: seq<int>)
    requires 0 < Total(values)
    ensures 0 < Used(values)
  {
    if Total(values[1..]) != 0 {
      SomethingUsed(values[1..]);
    }
  }

  /** What the reader has when it stops. */
  predicate ReadThrough(q: Option<Reading>, values: seq<int>, symbol: nat, end: nat)
    requires symbol <= |values| <= 256
  {
    && q.Some? && q.value.remaining == 1 && q.value.offset == end
    && q.value.values == Padded(values) && q.value.symbol == symbol + Used(values[symbol..])
  }

  lemma CountBelow(count: int, remaining: nat)
    requires -1 <= count && Weight(count) < remaining && 1 < remaining
    ensures count < remaining
  {
  }

  lemma EndsReading(source: bytes, values: seq<int>, r: Reading, maximumSymbol: nat, log: nat, numberBits: nat, end: nat)
    requires GoesOn(source, values, r, numberBits, end) && r.remaining <= 1 && ValidReading(r, source, maximumSymbol, log)
    ensures ReadThrough(ReadAll(source, r, maximumSymbol, log), values, r.symbol, end)
  {
    var rest := values[r.symbol..];
    NothingUsed(rest);
    var a, b := Padded(values[..r.symbol]), Padded(values);
    hide Padded, Total, Size, Used;
    forall k | 0 <= k < 256 ensures a[k] == b[k] {
      if r.symbol <= k < |values| {
        assert rest[k - r.symbol] == values[k];
      }
    }
    assert a == b;
  }

  lemma UsedHere(rest: seq<int>, previousZero: bool, remaining: nat, numberBits: nat)
    requires Describable(rest, remaining, numberBits) && 1 < remaining
    ensures var z := Passed(rest, previousZero); z < |rest| && Used(rest) == z + 1 + Used(rest[z + 1..])
  {
    var z := Passed(rest, previousZero);
    CountIsThere(rest);
    TotalBehind(rest, z);
    UsedBehind(rest, z);
    if rest[z] == 0 {
      SomethingUsed(rest[z + 1..]);
    }
    hide Used, Total, Size;
  }

  /** What was written is read, from any count on. */
  lemma {:induction false} ReadsDescription(source: bytes, values: seq<int>, r: Reading, maximumSymbol: nat, log: nat, numberBits: nat, end: nat)
    requires ValidReading(r, source, maximumSymbol, log) && |values| <= maximumSymbol + 1 <= 256
    requires GoesOn(source, values, r, numberBits, end)
    ensures ReadThrough(ReadAll(source, r, maximumSymbol, log), values, r.symbol, end)
    decreases |values| - r.symbol
  {
    hide Holds, Describe, Narrowed, NextCount, Padded, Total, Size, ValidReading, Describable, Used, Passed, Weight;
    var rest := values[r.symbol..];
    if r.remaining <= 1 {
      EndsReading(source, values, r, maximumSymbol, log, numberBits, end);
    } else {
      UsedHere(rest, r.previousZero, r.remaining, numberBits);
      var q := ReadsOne(source, values, r, maximumSymbol, end);
      NextCountOrEnd(source, r, maximumSymbol, log);
      assert rest[Passed(rest, r.previousZero) + 1..] == values[q.symbol..];
      ReadsDescription(source, values, q, maximumSymbol, log, Narrowed(q.remaining, numberBits), end);
    }
  }

  lemma {:induction false} UsedIsLast(values: seq<int>)
    requires 0 < Used(values)
    ensures values[Used(values) - 1] != 0 && forall i | Used(values) <= i < |values| :: values[i] == 0
  {
    if 0 < Used(values[1..]) {
      UsedIsLast(values[1..]);
    } else {
      NotUsed(values[1..]);
    }
  }

  lemma {:induction false} NotUsed(values: seq<int>)
    requires Used(values) == 0
    ensures forall i | 0 <= i < |values| :: values[i] == 0
  {
    if values != [] {
      NotUsed(values[1..]);
    }
  }

  /** Round trip: whatever counts fill a table, the reader gives back those that were written, the logarithm
      of the table size, the last symbol that has a count, and the number of bytes written, whatever follows. */
  lemma {:induction false} CountsRoundTrip(values: seq<int>, log: nat, maximumSymbol: nat, rest: bytes)
    requires ValidCounts(values, log) && |values| <= maximumSymbol + 1 <= 256
    ensures 0 < Used(values) && ReadCounts(WriteCounts(values, log) + rest, maximumSymbol)
         == Some(Counts(Padded(values), Used(values) - 1, log, |WriteCounts(values, log)|))
  {
    hide GoesOn, Describe, Padded, Total, Size, ValidReading, Describable, ReadAll, Used, Pack, DescriptionBits, FirstReading, Holds, WriteCounts;
    var source := WriteCounts(values, log) + rest;
    DescriptionHeld(values, log, rest);
    FillsSomething(values, log);
    FirstIsValid(source, maximumSymbol, log);
    var r, end := FirstReading(log), 4 + |Describe(values, Size(log) + 1, log + 1, false)|;
    Begins(source, values, log, end);
    ReadsDescription(source, values, r, maximumSymbol, log, log + 1, end);
    assert values[0..] == values;
  }

  lemma FillsSomething(values: seq<int>, log: nat)
    requires ValidCounts(values, log)
    ensures 0 < Used(values) && FirstReading(log).symbol == 0
  {
    SizeAtLeast(log);
    SomethingUsed(values);
  }

  lemma Begins(source: bytes, values: seq<int>, log: nat, end: nat)
    requires |values| <= 256 && Describable(values, Size(log) + 1, log + 1)
    requires var description := Describe(values, Size(log) + 1, log + 1, false);
      Holds(source, 4, description) && 4 + |description| == end
    ensures GoesOn(source, values, FirstReading(log), log + 1, end)
  {
    assert values[0..] == values && FirstReading(log).values == Padded(values[..0]);
    hide Describe, Holds, Describable, Padded;
  }

  lemma DescriptionHeld(values: seq<int>, log: nat, rest: bytes)
    requires ValidCounts(values, log)
    ensures var source := WriteCounts(values, log) + rest; source != [] && source[0] as nat % 16 + 5 == log
    ensures Describable(values, Size(log) + 1, log + 1)
    ensures var description := Describe(values, Size(log) + 1, log + 1, false);
      && Holds(WriteCounts(values, log) + rest, 4, description) && |WriteCounts(values, log)| == (4 + |description| + 7) / 8
  {
    BeginsDescribable(values, log);
    var source := WriteCounts(values, log) + rest;
    var description := Describe(values, Size(log) + 1, log + 1, false);
    hide Describe, Holds, Size, Total;
    PackHolds(DescriptionBits(values, log), rest);
    hide Pack;
    HoldsPart(source, 0, ToBits(log - MIN_LOG, 4), description);
    LogIsRead(source, log);
  }

  /** The first four bits. */
  lemma LogIsRead(source: bytes, log: nat)
    requires MIN_LOG <= log <= MAX_LOG && Holds(source, 0, ToBits(log - MIN_LOG, 4))
    ensures source != [] && source[0] as nat % 16 + 5 == log
  {
    assert Pow2(4) == 2 * Pow2(3) && Pow2(3) == 2 * Pow2(2) && Pow2(2) == 2 * Pow2(1) && Pow2(1) == 2 * Pow2(0);
    BitsBack(log - MIN_LOG, 4);
    BitsHeld(source, 0, ToBits(log - MIN_LOG, 4));
    LowNibble(source);
    hide ToBits, FromBits, Holds, BitsAt;
  }

  lemma LowNibble(source: bytes)
    requires source != []
    ensures BitsAt(source, 0, 4) == source[0] as nat % 16
  {
    hide LE, BitsAt;
    BitsAreLE(source, 0, 4);
    LEFirst(source);
    assert Pow2(4) == 2 * Pow2(3) && Pow2(3) == 2 * Pow2(2) && Pow2(2) == 2 * Pow2(1) && Pow2(1) == 2 * Pow2(0);
    hide Pow2;
    LowDigit(LE(source), source[0] as nat, LE(source[1..]));
  }

  lemma LEFirst(source: bytes)
    requires source != []
    ensures LE(source) == source[0] as nat + 256 * LE(source[1..])
  {
  }

  lemma LowDigit(a: nat, b: nat, x: nat)
    requires a == b + 256 * x
    ensures a / 1 % 16 == b % 16
  {
    AddMultiple(16 * x, 16, b);
  }
}
