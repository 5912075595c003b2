/** The compact header of an FSE table: normalized counts in fields whose width shrinks with what remains. */
module FseCounts {
  import opened BitStrings
  import opened Bytes
  import opened FrameFormat
  import opened FseSpread
  import opened FseTable

  // ---- forward_lsb_reader ----

  /** None stands for the exception. */
  function Peek(source: bytes, offset: nat, count: nat): Option<nat> {
    if 32 < count || 8 * |source| < offset + count then None else Some(BitsAt(source, offset, count))
  }

  lemma {:induction false} BitsSplit(source: bytes, offset: nat, count: nat)
    requires offset + count + 1 <= 8 * |source|
    ensures BitsAt(source, offset, count) < Size(count)
    ensures BitsAt(source, offset, count + 1) == BitsAt(source, offset, count) + Size(count) * BitAt(source, offset + count)
    decreases count
  {
    hide BitAt;
    if count == 0 {
      assert BitsAt(source, offset, 1) == BitAt(source, offset) + 2 * BitsAt(source, offset + 1, 0);
    } else {
      BitsSplit(source, offset + 1, count - 1);
      var b := BitAt(source, offset + count);
      assert Size(count) == 2 * Size(count - 1);
      assert b == 0 || b == 1;
    }
  }

  lemma SameBit(source: bytes, first: nat, n: nat, offset: nat)
    requires first + n <= |source| && offset < 8 * n
    ensures BitAt(source[first..first + n], offset) == BitAt(source, 8 * first + offset)
  {
    hide NumberBit;
    var i := 8 * first + offset;
    assert i / 8 == first + offset / 8 && i % 8 == offset % 8;
  }

  lemma {:induction false} SameBits(source: bytes, first: nat, n: nat, offset: nat, count: nat)
    requires first + n <= |source| && offset + count <= 8 * n
    ensures BitsAt(source[first..first + n], offset, count) == BitsAt(source, 8 * first + offset, count)
    decreases count
  {
    if count != 0 {
      SameBit(source, first, n, offset);
      hide BitAt;
      SameBits(source, first, n, offset + 1, count - 1);
    }
  }

  /** The reader takes the bytes that the field touches as one number, shifts and masks it. */
  lemma {:induction false} WordHoldsField(source: bytes, offset: nat, count: nat)
    requires offset + count <= 8 * |source|
    ensures var first, within := offset / 8, offset % 8; var n := (within + count + 7) / 8;
      && first + n <= |source| && 0 < Pow2(within) && 0 < Pow2(count)
      && LE(source[first..first + n]) / Pow2(within) % Pow2(count) == BitsAt(source, offset, count)
  {
    FieldBytes(offset, count, |source|);
    WordIs(source, offset / 8, (offset % 8 + count + 7) / 8, offset % 8, count);
    hide LE, BitsAt, Pow2;
  }

  lemma FieldBytes(offset: nat, count: nat, size: nat)
    requires offset + count <= 8 * size
    ensures var first, within := offset / 8, offset % 8; var n := (within + count + 7) / 8;
      first + n <= size && within + count <= 8 * n && 8 * first + within == offset
  {
  }

  lemma WordIs(source: bytes, first: nat, n: nat, within: nat, count: nat)
    requires first + n <= |source| && within + count <= 8 * n
    ensures 0 < Pow2(within) && 0 < Pow2(count)
    ensures LE(source[first..first + n]) / Pow2(within) % Pow2(count) == BitsAt(source, 8 * first + within, count)
  {
    BitsAreLE(source[first..first + n], within, count);
    SameBits(source, first, n, within, count);
    hide LE, BitsAt, Pow2;
  }

  lemma {:induction false} LEAppends(s: bytes, b: byte)
    ensures LE(s + [b]) == LE(s) + Pow2(8 * |s|) * b as nat
  {
    if s == [] {
      assert LE([b]) == b as nat + 256 * LE([b][1..]);
      assert [] + [b] == [b];
    } else {
      LEAppends(s[1..], b);
      assert (s + [b])[1..] == s[1..] + [b];
      Pow2Of8();
      Pow2Sum(8, 8 * |s[1..]|);
      hide Pow2;
      Distributes(Pow2(8 * |s[1..]|), b as nat);
    }
  }

  lemma Distributes(p: nat, b: nat)
    ensures 256 * (p * b) == (256 * p) * b
  {
  }

  lemma Pow2Sum(a: nat, b: nat)
    ensures Pow2(a + b) == Pow2(a) * Pow2(b)
  {
    Pow2Adds(a, b);
  }

  /** The loop of `peek`: since the bytes do not overlap in the word, the disjunction is a sum. */
  method PackBytes(source: bytes, firstByte: nat, byteCount: nat) returns (packed: nat)
    requires firstByte + byteCount <= |source|
    ensures packed == LE(source[firstByte..firstByte + byteCount])
  {
    hide LE, Pow2;
    NothingPacked(source, firstByte);
    packed := 0;
    var index := 0;
    while index < byteCount
      invariant index <= byteCount && packed == LE(source[firstByte..firstByte + index])
    {
      LEAppends(source[firstByte..firstByte + index], source[firstByte + index]);
      assert source[firstByte..firstByte + index + 1] == source[firstByte..firstByte + index] + [source[firstByte + index]];
      packed := packed + Pow2(8 * index) * source[firstByte + index] as nat;
      index := index + 1;
    }
  }

  /** `peek`: the bytes are put together in a word, which is shifted and masked. */
  method PeekWord(source: bytes, offset: nat, count: nat) returns (value: Option<nat>)
    ensures value == Peek(source, offset, count)
  {
    if 32 < count || 8 * |source| < offset + count {
      return None;
    }
    if count == 0 {
      return Some(0);
    }
    WordHoldsField(source, offset, count);
    hide LE, BitsAt, Pow2;
    var packed := PackBytes(source, offset / 8, (offset % 8 + count + 7) / 8);
    value := Some(packed / Pow2(offset % 8) % Pow2(count));
  }

  lemma NothingPacked(source: bytes, first: nat)
    requires first <= |source|
    ensures LE(source[first..first]) == 0
  {
  }

  // ---- The fields ----

  /** The run of zeros behind a zero: the offset and the symbol after it. */
  function SkipZeros(source: bytes, offset: nat, symbol: nat, maximumSymbol: nat): Option<(nat, nat)>
    decreases 8 * |source| - offset
  {
    var two := Peek(source, offset, 2);
    if two.None? || maximumSymbol < symbol + two.value then None
    else if two.value == 3 then SkipZeros(source, offset + 2, symbol + 3, maximumSymbol)
    else Some((offset + 2, symbol + two.value))
  }

  /** One count: what remains has `numberBits` bits, and small values take one bit less. */
  function TakeCount(source: bytes, offset: nat, remaining: nat, numberBits: nat): Option<(nat, int)>
    requires 1 <= numberBits && remaining < 2 * Size(numberBits - 1)
  {
    var threshold := Size(numberBits - 1);
    var maximum := 2 * threshold - 1 - remaining;
    var small := Peek(source, offset, numberBits - 1);
    if small.None? then None
    else if small.value < maximum then Some((offset + numberBits - 1, small.value - 1))
    else
      var large := Peek(source, offset, numberBits);
      if large.None? then None
      else Some((offset + numberBits, (if large.value < threshold then large.value else large.value - maximum) - 1))
  }

  /** A count never exceeds what remains. */
  lemma CountFits(source: bytes, offset: nat, remaining: nat, numberBits: nat)
    requires 1 <= numberBits && Size(numberBits - 1) <= remaining < 2 * Size(numberBits - 1)
    ensures var c := TakeCount(source, offset, remaining, numberBits);
      c.Some? ==> -1 <= c.value.1 < remaining && offset <= c.value.0 <= 8 * |source|
  {
    hide Size, BitAt;
    if Peek(source, offset, numberBits).Some? {
      BitsSplit(source, offset, numberBits - 1);
    }
  }

  /** The loop, between two counts. */
  datatype Reading = Reading(offset: nat, remaining: nat, numberBits: nat, symbol: nat, previousZero: bool, values: seq<int>)

  predicate ValidReading(r: Reading, source: bytes, maximumSymbol: nat, log: nat) {
    && r.offset <= 8 * |source| && |r.values| == 256 && r.symbol <= maximumSymbol + 1 <= 256
    && 1 <= r.remaining && 1 <= r.numberBits
    && (1 < r.remaining ==> Size(r.numberBits - 1) <= r.remaining < 2 * Size(r.numberBits - 1))
    && (forall i | 0 <= i < 256 :: -1 <= r.values[i]) && (forall i | r.symbol <= i < 256 :: r.values[i] == 0)
    && Total(r.values) + r.remaining == Size(log) + 1
  }

  /** One turn of the loop. */
  function NextCount(source: bytes, r: Reading, maximumSymbol: nat): Option<Reading>
    requires 1 <= r.numberBits && 1 < r.remaining && Size(r.numberBits - 1) <= r.remaining < 2 * Size(r.numberBits - 1)
    requires |r.values| == 256 && maximumSymbol < 256 && r.symbol <= maximumSymbol
  {
    var at := if r.previousZero then SkipZeros(source, r.offset, r.symbol, maximumSymbol) else Some((r.offset, r.symbol));
    if at.None? then None
    else
      SymbolFits(source, r.offset, r.symbol, maximumSymbol);
      CountFits(source, at.value.0, r.remaining, r.numberBits);
      var count := TakeCount(source, at.value.0, r.remaining, r.numberBits);
      if count.None? then None
      else
        var remaining := r.remaining - Weight(count.value.1);
        Some(Reading(count.value.0, remaining,
                     if 1 < remaining < Size(r.numberBits - 1) then BitWidth(remaining) else r.numberBits,
                     at.value.1 + 1, count.value.1 == 0, r.values[at.value.1 := count.value.1]))
  }

  lemma {:induction false} SymbolFits(source: bytes, offset: nat, symbol: nat, maximumSymbol: nat)
    ensures var at := SkipZeros(source, offset, symbol, maximumSymbol);
      at.Some? ==> symbol <= at.value.1 <= maximumSymbol && offset <= at.value.0 <= 8 * |source|
    decreases 8 * |source| - offset
  {
    hide BitsAt;
    if Peek(source, offset, 2).Some? {
      SymbolFits(source, offset + 2, symbol + 3, maximumSymbol);
    }
  }

  lemma {:induction false} TotalUpdated(values: seq<int>, i: nat, v: int)
    requires i < |values| && values[i] == 0
    ensures Total(values[i := v]) == Total(values) + Weight(v)
  {
    if i == 0 {
      assert values[i := v][1..] == values[1..];
    } else {
      TotalUpdated(values[1..], i - 1, v);
      assert values[i := v][1..] == values[1..][i - 1 := v];
    }
  }

  lemma {:induction false} NextCountKeeps(source: bytes, r: Reading, maximumSymbol: nat, log: nat)
    requires ValidReading(r, source, maximumSymbol, log) && 1 < r.remaining && r.symbol <= maximumSymbol
    ensures var next := NextCount(source, r, maximumSymbol);
      next.Some? ==> ValidReading(next.value, source, maximumSymbol, log) && r.symbol < next.value.symbol
  {
    var at := if r.previousZero then SkipZeros(source, r.offset, r.symbol, maximumSymbol) else Some((r.offset, r.symbol));
    SymbolFits(source, r.offset, r.symbol, maximumSymbol);
    if at.Some? {
      CountFits(source, at.value.0, r.remaining, r.numberBits);
      var count := TakeCount(source, at.value.0, r.remaining, r.numberBits);
      if count.Some? {
        hide SkipZeros, TakeCount;
        StaysValid(source, r, maximumSymbol, log, count.value.0, at.value.1, count.value.1);
      }
    }
  }

  lemma StaysValid(source: bytes, r: Reading, maximumSymbol: nat, log: nat, offset: nat, symbol: nat, count: int)
    requires ValidReading(r, source, maximumSymbol, log) && 1 < r.remaining
    requires r.symbol <= symbol <= maximumSymbol && -1 <= count < r.remaining && offset <= 8 * |source|
    ensures 1 <= r.remaining - Weight(count)
    ensures var remaining := r.remaining - Weight(count);
      var numberBits := if 1 < remaining < Size(r.numberBits - 1) then BitWidth(remaining) else r.numberBits;
      ValidReading(Reading(offset, remaining, numberBits, symbol + 1, count == 0, r.values[symbol := count]),
                   source, maximumSymbol, log)
  {
    hide Total, Size, BitWidth;
    TotalUpdated(r.values, symbol, count);
    WidthOf(r.remaining - Weight(count));
    var values := r.values[symbol := count];
    assert forall i | 0 <= i < 256 :: -1 <= values[i];
  }

  lemma WidthOf(n: nat)
    ensures 0 < n ==> 1 <= BitWidth(n) && Size(BitWidth(n) - 1) <= n < 2 * Size(BitWidth(n) - 1)
  {
    if 0 < n {
      WidthIs(n, BitWidth(n) - 1);
    }
  }

  /** The whole loop. */
  function ReadAll(source: bytes, r: Reading, maximumSymbol: nat, log: nat): Option<Reading>
    requires ValidReading(r, source, maximumSymbol, log)
    decreases maximumSymbol + 1 - r.symbol
  {
    if r.remaining <= 1 || maximumSymbol < r.symbol then Some(r)
    else
      var next := NextCount(source, r, maximumSymbol);
      NextCountKeeps(source, r, maximumSymbol, log);
      if next.None? then None else ReadAll(source, next.value, maximumSymbol, log)
  }

  datatype Counts = Counts(values: seq<int>, maximumSymbol: nat, tableLog: nat, bytesConsumed: nat)

  function FirstReading(log: nat): Reading {
    Reading(4, Size(log) + 1, log + 1, 0, false, seq(256, _ => 0))
  }

  lemma {:induction false} ZerosTotal(values: seq<int>)
    requires forall i | 0 <= i < |values| :: values[i] == 0
    ensures Total(values) == 0
  {
    if values != [] {
      ZerosTotal(values[1..]);
    }
  }

  lemma FirstIsValid(source: bytes, maximumSymbol: nat, log: nat)
    requires source != [] && maximumSymbol < 256 && 1 <= log
    ensures ValidReading(FirstReading(log), source, maximumSymbol, log)
  {
    ZerosTotal(FirstReading(log).values);
    assert Size(log) == 2 * Size(log - 1);
  }

  /** read_normalized_counts */
  function ReadCounts(source: bytes, maximumSymbol: nat): Option<Counts> {
    if source == [] || 256 <= maximumSymbol then None
    else
      var log := source[0] as nat % 16 + 5;
      if 12 < log then None
      else
        FirstIsValid(source, maximumSymbol, log);
        var r := ReadAll(source, FirstReading(log), maximumSymbol, log);
        if r.None? || r.value.remaining != 1 || r.value.symbol == 0 then None
        else Some(Counts(r.value.values, r.value.symbol - 1, log, (r.value.offset + 7) / 8))
  }

  lemma {:induction false} ReadAllKeeps(source: bytes, r: Reading, maximumSymbol: nat, log: nat)
    requires ValidReading(r, source, maximumSymbol, log)
    ensures var q := ReadAll(source, r, maximumSymbol, log);
      q.Some? ==> ValidReading(q.value, source, maximumSymbol, log)
    decreases maximumSymbol + 1 - r.symbol
  {
    hide NextCount, ValidReading;
    NextCountOrEnd(source, r, maximumSymbol, log);
    if 1 < r.remaining && r.symbol <= maximumSymbol {
      var next := NextCount(source, r, maximumSymbol);
      if next.Some? {
        ReadAllKeeps(source, next.value, maximumSymbol, log);
      }
    }
  }

  lemma NextCountOrEnd(source: bytes, r: Reading, maximumSymbol: nat, log: nat)
    requires ValidReading(r, source, maximumSymbol, log)
    ensures 1 < r.remaining && r.symbol <= maximumSymbol ==>
      && 1 <= r.numberBits && Size(r.numberBits - 1) <= r.remaining < 2 * Size(r.numberBits - 1)
      && |r.values| == 256 && maximumSymbol < 256
      && var next := NextCount(source, r, maximumSymbol);
        next.Some? ==> ValidReading(next.value, source, maximumSymbol, log) && r.symbol < next.value.symbol <= maximumSymbol + 1
  {
    if 1 < r.remaining && r.symbol <= maximumSymbol {
      NextCountKeeps(source, r, maximumSymbol, log);
    }
    hide NextCount, Size, Total;
  }

  lemma {:induction false} TotalOfFront(values: seq<int>, n: nat)
    requires n <= |values| && forall i | n <= i < |values| :: values[i] == 0
    ensures Total(values[..n]) == Total(values)
  {
    if n == 0 {
      ZerosTotal(values);
    } else {
      TotalOfFront(values[1..], n - 1);
      assert values[..n][1..] == values[1..][..n - 1];
    }
  }

  /** Accepted counts fill the table exactly, a count of -1 taking one cell; and the check at the end for
      bytes past the end of the source never fails. */
  lemma {:induction false} AcceptedCountsFill(source: bytes, maximumSymbol: nat)
    requires ReadCounts(source, maximumSymbol).Some?
    ensures var c := ReadCounts(source, maximumSymbol).value;
      && |c.values| == 256 && c.maximumSymbol <= maximumSymbol && c.bytesConsumed <= |source|
      && ValidCounts(c.values[..c.maximumSymbol + 1], c.tableLog)
      && forall i | c.maximumSymbol < i < 256 :: c.values[i] == 0
  {
    var log := source[0] as nat % 16 + 5;
    FirstIsValid(source, maximumSymbol, log);
    ReadAllKeeps(source, FirstReading(log), maximumSymbol, log);
    hide ReadAll, Total, Size;
    var c := ReadCounts(source, maximumSymbol).value;
    TotalOfFront(c.values, c.maximumSymbol + 1);
    var front := c.values[..c.maximumSymbol + 1];
    assert forall i | 0 <= i < |front| :: front[i] == c.values[i];
  }

  // ---- The C++ function ----

  /** The inner loop over a run of zeros; false for an exception. */
  method SkipZeroRun(source: bytes, offset0: nat, symbol0: nat, maximumSymbol: nat) returns (ok: bool, offset: nat, symbol: nat)
    ensures (if ok then Some((offset, symbol)) else None) == SkipZeros(source, offset0, symbol0, maximumSymbol)
  {
    hide BitsAt;
    offset, symbol := offset0, symbol0;
    while true
      invariant SkipZeros(source, offset, symbol, maximumSymbol) == SkipZeros(source, offset0, symbol0, maximumSymbol)
      decreases 8 * |source| - offset
    {
      var two := PeekWord(source, offset, 2);
      if two.None? {
        return false, offset, symbol;
      }
      if two.value != 3 {
        break;
      }
      offset, symbol := offset + 2, symbol + 3;
      if maximumSymbol < symbol {
        return false, offset, symbol;
      }
    }
    var two := PeekWord(source, offset, 2);
    offset, symbol := offset + 2, symbol + two.value;
    ok := symbol <= maximumSymbol;
  }

  method TakeOneCount(source: bytes, offset: nat, remaining: nat, numberBits: nat, threshold: nat)
    returns (ok: bool, next: nat, count: int)
    requires 1 <= numberBits && threshold == Size(numberBits - 1) && remaining < 2 * threshold
    ensures (if ok then Some((next, count)) else None) == TakeCount(source, offset, remaining, numberBits)
  {
    hide Size, BitsAt;
    var maximum := 2 * threshold - 1 - remaining;
    next, count := offset, 0;
    var small := PeekWord(source, offset, numberBits - 1);
    if small.None? {
      return false, next, count;
    }
    if small.value < maximum {
      next, count := offset + numberBits - 1, small.value;
    } else {
      var large := PeekWord(source, offset, numberBits);
      if large.None? {
        return false, next, count;
      }
      next, count := offset + numberBits, large.value;
      if threshold <= count {
        count := count - maximum;
      }
    }
    ok, count := true, count - 1;
  }

  method ReadNormalizedCounts(source: bytes, maximumSymbol: nat) returns (result: Option<Counts>)
    ensures result == ReadCounts(source, maximumSymbol)
  {
    if source == [] || 256 <= maximumSymbol {
      return None;
    }
    var log := source[0] as nat % 16 + 5;
    if 12 < log {
      return None;
    }
    FirstIsValid(source, maximumSymbol, log);
    var first := Reading(4, Size(log) + 1, log + 1, 0, false, seq(256, _ => 0));
    assert first == FirstReading(log);
    hide ValidReading, Size, ReadAll, FirstReading;
    var r := ReadLoop(source, first, maximumSymbol, log);
    if r.None? || r.value.remaining != 1 || r.value.symbol == 0 {
      return None;
    }
    ReadAllKeeps(source, first, maximumSymbol, log);
    EndsInside(source, r.value, maximumSymbol, log);
    result := Finish(source, r.value.offset, r.value.values, r.value.symbol, log);
  }

  /** The outer loop. */
  method ReadLoop(source: bytes, first: Reading, maximumSymbol: nat, ghost log: nat) returns (last: Option<Reading>)
    requires ValidReading(first, source, maximumSymbol, log)
    ensures last == ReadAll(source, first, maximumSymbol, log)
  {
    var r, threshold := first, Size(first.numberBits - 1);
    hide ValidReading, Size, NextCount;
    while 1 < r.remaining && r.symbol <= maximumSymbol
      invariant 1 <= r.numberBits && threshold == Size(r.numberBits - 1)
      invariant ValidReading(r, source, maximumSymbol, log)
      invariant ReadAll(source, r, maximumSymbol, log) == ReadAll(source, first, maximumSymbol, log)
      decreases maximumSymbol + 1 - r.symbol
    {
      NextCountOrEnd(source, r, maximumSymbol, log);
      var next;
      next, threshold := TakeTurn(source, r, threshold, maximumSymbol);
      if next.None? {
        return None;
      }
      r := next.value;
    }
    last := Some(r);
  }

  lemma EndsInside(source: bytes, r: Reading, maximumSymbol: nat, log: nat)
    requires ValidReading(r, source, maximumSymbol, log)
    ensures r.offset <= 8 * |source|
  {
  }

  /** The end of the body: the width that what remains needs. */
  method NarrowFields(remaining: nat, threshold0: nat, numberBits0: nat) returns (numberBits: nat, threshold: nat)
    requires 1 <= numberBits0 && threshold0 == Size(numberBits0 - 1)
    ensures numberBits == if 1 < remaining < threshold0 then BitWidth(remaining) else numberBits0
    ensures 1 <= numberBits && threshold == Size(numberBits - 1)
  {
    numberBits, threshold := numberBits0, threshold0;
    if 1 < remaining < threshold {
      WidthOf(remaining);
      numberBits := BitWidth(remaining);
      threshold := Size(numberBits - 1);
    }
  }

  /** The body of the loop, on the variables of `r`. */
  method TakeTurn(source: bytes, r: Reading, threshold0: nat, maximumSymbol: nat) returns (next: Option<Reading>, threshold: nat)
    requires 1 <= r.numberBits && threshold0 == Size(r.numberBits - 1) && 1 < r.remaining
    requires threshold0 <= r.remaining < 2 * threshold0
    requires |r.values| == 256 && maximumSymbol < 256 && r.symbol <= maximumSymbol
    ensures next == NextCount(source, r, maximumSymbol)
    ensures next.Some? ==> 1 <= next.value.numberBits && threshold == Size(next.value.numberBits - 1)
  {
    var offset, symbol, ok := r.offset, r.symbol, true;
    threshold := threshold0;
    SymbolFits(source, offset, symbol, maximumSymbol);
    if r.previousZero {
      ok, offset, symbol := SkipZeroRun(source, offset, symbol, maximumSymbol);
      if !ok {
        return None, threshold;
      }
    }
    hide Size, SkipZeros, TakeCount, BitWidth;
    CountFits(source, offset, r.remaining, r.numberBits);
    var count;
    ok, offset, count := TakeOneCount(source, offset, r.remaining, r.numberBits, threshold);
    if !ok {
      return None, threshold;
    }
    var remaining: nat := r.remaining - (if 0 <= count then count else -count);
    var numberBits;
    numberBits, threshold := NarrowFields(remaining, threshold, r.numberBits);
    next := Some(Reading(offset, remaining, numberBits, symbol + 1, count == 0, r.values[symbol := count]));
  }

  /** The end of the function, with its last check. */
  method Finish(source: bytes, offset: nat, values: seq<int>, symbol: nat, log: nat) returns (result: Option<Counts>)
    requires offset <= 8 * |source| && 0 < symbol
    ensures result == Some(Counts(values, symbol - 1, log, (offset + 7) / 8))
  {
    var bytesConsumed := (offset + 7) / 8;
    if |source| < bytesConsumed {
      return None;
    }
    result := Some(Counts(values, symbol - 1, log, bytesConsumed));
  }
}
