/** What the reader of counts accepts: exactly the lists of turns, each a run of zeros and a count. A run may be
    cut where a writer would not cut it, behind a zero that was counted alone. */
module FseReader {
  import opened BitStrings
  import opened Bytes
  import opened FrameFormat
  import opened FseCounts
  import opened FseSpread
  import opened FseTable
  import opened FseWriter

  // ---- Turns ----

  /** Zeros that are passed over, which only comes behind a zero, and the count behind them. */
  datatype Turn = Turn(zeros: nat, count: int)

  /** The turns use up what remains. */
  predicate Proper(turns: seq<Turn>, remaining: nat, numberBits: nat, previousZero: bool)
    decreases |turns|
  {
    if turns == [] then remaining == 1
    else
      var t := turns[0];
      && 1 < remaining && 1 <= numberBits && Size(numberBits - 1) <= remaining < 2 * Size(numberBits - 1)
      && (previousZero || t.zeros == 0) && -1 <= t.count && Weight(t.count) < remaining
      && var left := remaining - Weight(t.count); Proper(turns[1..], left, Narrowed(left, numberBits), t.count == 0)
  }

  function TurnBits(t: Turn, remaining: nat, numberBits: nat, previousZero: bool): seq<bool>
    requires 1 <= numberBits && remaining < 2 * Size(numberBits - 1) && -1 <= t.count
  {
    RunBits(t.zeros, previousZero) + FieldBits(CountField(remaining, numberBits, t.count))
  }

  function RunBits(zeros: nat, previousZero: bool): seq<bool> {
    if previousZero then ZeroRun(zeros) else []
  }

  function TurnsBits(turns: seq<Turn>, remaining: nat, numberBits: nat, previousZero: bool): seq<bool>
    requires Proper(turns, remaining, numberBits, previousZero)
    decreases |turns|
  {
    if turns == [] then []
    else
      var t := turns[0];
      var left := remaining - Weight(t.count);
      TurnBits(t, remaining, numberBits, previousZero) + TurnsBits(turns[1..], left, Narrowed(left, numberBits), t.count == 0)
  }

  function ZeroCounts(n: nat): (s: seq<int>)
    ensures |s| == n && forall i | 0 <= i < n :: s[i] == 0
  {
    seq(n, _ => 0)
  }

  function ValuesOf(turns: seq<Turn>): seq<int> {
    if turns == [] then [] else ZeroCounts(turns[0].zeros) + [turns[0].count] + ValuesOf(turns[1..])
  }

  // ---- Fields that were read were written ----

  lemma {:induction false} BitsAreThere(source: bytes, offset: nat, n: nat)
    requires offset + n <= 8 * |source|
    ensures Holds(source, offset, ToBits(BitsAt(source, offset, n), n)) && BitsAt(source, offset, n) < Pow2(n)
    decreases n
  {
    if n != 0 {
      BitsAreThere(source, offset + 1, n - 1);
      var v, w, b := BitsAt(source, offset, n), BitsAt(source, offset + 1, n - 1), BitAt(source, offset);
      assert v == b + 2 * w;
      Halves(v, b, w);
      hide BitAt, BitsAt;
      var bits := ToBits(v, n);
      assert bits == [v % 2 == 1] + ToBits(w, n - 1);
      forall i | 0 <= i < n ensures BitAt(source, offset + i) == Bit(bits[i]) {
        if 0 < i {
          assert BitAt(source, (offset + 1) + (i - 1)) == Bit(ToBits(w, n - 1)[i - 1]);
        }
      }
    }
  }

  lemma PeekedIsThere(source: bytes, offset: nat, n: nat)
    requires Peek(source, offset, n).Some?
    ensures var v := Peek(source, offset, n).value; Holds(source, offset, ToBits(v, n)) && v < Pow2(n)
  {
    BitsAreThere(source, offset, n);
  }

  lemma PairsOfBits()
    ensures Pow2(2) == 4 && ToBits(3, 2) == [true, true]
  {
    assert Pow2(2) == 2 * Pow2(1) && Pow2(1) == 2 * Pow2(0);
    assert ToBits(3, 2) == [true] + ToBits(1, 1) && ToBits(1, 1) == [true] + ToBits(0, 0);
  }

  lemma {:induction false} SkippedWasRun(source: bytes, offset: nat, symbol: nat, maximumSymbol: nat)
    requires SkipZeros(source, offset, symbol, maximumSymbol).Some?
    ensures var at := SkipZeros(source, offset, symbol, maximumSymbol).value;
      symbol <= at.1 && Holds(source, offset, ZeroRun(at.1 - symbol)) && at.0 == offset + |ZeroRun(at.1 - symbol)|
    decreases 8 * |source| - offset
  {
    hide BitsAt, ToBits, Holds, Pow2;
    PairsOfBits();
    PeekedIsThere(source, offset, 2);
    var v := Peek(source, offset, 2).value;
    if v == 3 {
      SkippedWasRun(source, offset + 2, symbol + 3, maximumSymbol);
      var at := SkipZeros(source, offset, symbol, maximumSymbol).value;
      HoldsPart(source, offset, [true, true], ZeroRun(at.1 - symbol - 3));
    }
  }

  lemma TakenWasField(source: bytes, offset: nat, remaining: nat, numberBits: nat)
    requires 1 <= numberBits && Size(numberBits - 1) <= remaining < 2 * Size(numberBits - 1)
    requires TakeCount(source, offset, remaining, numberBits).Some?
    ensures var c := TakeCount(source, offset, remaining, numberBits).value;
      && -1 <= c.1 < remaining
      && var f := CountField(remaining, numberBits, c.1); Holds(source, offset, FieldBits(f)) && c.0 == offset + f.width
  {
    CountFits(source, offset, remaining, numberBits);
    PeekedIsThere(source, offset, numberBits - 1);
    if Peek(source, offset, numberBits).Some? {
      PeekedIsThere(source, offset, numberBits);
      assert Pow2(numberBits) == 2 * Pow2(numberBits - 1);
      PeekLow(source, offset, numberBits);
    }
    hide Peek, Holds, ToBits, Pow2;
  }

  // ---- One turn ----

  predicate ProperTurn(t: Turn, remaining: nat, numberBits: nat, previousZero: bool) {
    && 1 < remaining && 1 <= numberBits && Size(numberBits - 1) <= remaining < 2 * Size(numberBits - 1)
    && (previousZero || t.zeros == 0) && -1 <= t.count && Weight(t.count) < remaining
  }

  /** The reader keeps the width it had when nothing is left. */
  function WidthOfLeft(left: nat, numberBits: nat): nat
    requires 1 <= numberBits
  {
    if 1 < left < Size(numberBits - 1) then BitWidth(left) else numberBits
  }

  function AfterTurn(r: Reading, t: Turn): Reading
    requires ProperTurn(t, r.remaining, r.numberBits, r.previousZero) && r.symbol + t.zeros < |r.values|
  {
    var left := r.remaining - Weight(t.count);
    Reading(r.offset + |TurnBits(t, r.remaining, r.numberBits, r.previousZero)|, left,
            WidthOfLeft(left, r.numberBits), r.symbol + t.zeros + 1, t.count == 0, r.values[r.symbol + t.zeros := t.count])
  }

  /** Where the code stands behind the zeros: `z` of them were passed over. */
  predicate PassedOver(source: bytes, r: Reading, maximumSymbol: nat, at: nat, z: nat) {
    if r.previousZero then SkipZeros(source, r.offset, r.symbol, maximumSymbol) == Some((at, r.symbol + z))
    else at == r.offset && z == 0
  }

  lemma RunWas(source: bytes, r: Reading, maximumSymbol: nat) returns (at: nat, z: nat)
    requires r.symbol <= maximumSymbol && (r.previousZero ==> SkipZeros(source, r.offset, r.symbol, maximumSymbol).Some?)
    ensures PassedOver(source, r, maximumSymbol, at, z) && r.symbol + z <= maximumSymbol && (r.previousZero || z == 0)
    ensures at == r.offset + |RunBits(z, r.previousZero)|
    ensures r.offset <= 8 * |source| ==> Holds(source, r.offset, RunBits(z, r.previousZero))
  {
    at, z := r.offset, 0;
    if r.previousZero {
      SymbolFits(source, r.offset, r.symbol, maximumSymbol);
      SkippedWasRun(source, r.offset, r.symbol, maximumSymbol);
      hide SkipZeros, Holds, ZeroRun;
      var skipped := SkipZeros(source, r.offset, r.symbol, maximumSymbol).value;
      at, z := skipped.0, skipped.1 - r.symbol;
    }
  }

  lemma TurnWas(source: bytes, r: Reading, maximumSymbol: nat) returns (t: Turn)
    requires 1 <= r.numberBits && 1 < r.remaining && Size(r.numberBits - 1) <= r.remaining < 2 * Size(r.numberBits - 1)
    requires |r.values| == 256 && maximumSymbol < 256 && r.symbol <= maximumSymbol && NextCount(source, r, maximumSymbol).Some?
    requires r.offset <= 8 * |source|
    ensures ProperTurn(t, r.remaining, r.numberBits, r.previousZero) && r.symbol + t.zeros <= maximumSymbol
    ensures Holds(source, r.offset, TurnBits(t, r.remaining, r.numberBits, r.previousZero))
    ensures NextCount(source, r, maximumSymbol) == Some(AfterTurn(r, t))
  {
    hide Holds, SkipZeros, RunBits, FieldBits, CountField, TakeCount, Size, BitWidth, Weight, ToBits;
    var at, z := RunWas(source, r, maximumSymbol);
    CountTaken(source, r, maximumSymbol, at, z);
    hide NextCount;
    TakenWasField(source, at, r.remaining, r.numberBits);
    var count := TakeCount(source, at, r.remaining, r.numberBits).value.1;
    t := Turn(z, count);
    HoldsPart(source, r.offset, RunBits(z, r.previousZero), FieldBits(CountField(r.remaining, r.numberBits, count)));
    WeightBelow(count, r.remaining);
    NextIs(source, r, maximumSymbol, at, z, count, CountField(r.remaining, r.numberBits, count).width);
    FieldLength(CountField(r.remaining, r.numberBits, count));
  }

  lemma CountTaken(source: bytes, r: Reading, maximumSymbol: nat, at: nat, z: nat)
    requires 1 <= r.numberBits && 1 < r.remaining && Size(r.numberBits - 1) <= r.remaining < 2 * Size(r.numberBits - 1)
    requires |r.values| == 256 && maximumSymbol < 256 && r.symbol <= maximumSymbol && NextCount(source, r, maximumSymbol).Some?
    requires PassedOver(source, r, maximumSymbol, at, z)
    ensures TakeCount(source, at, r.remaining, r.numberBits).Some?
  {
    hide SkipZeros, TakeCount, Size, BitWidth;
  }

  lemma WeightBelow(count: int, remaining: nat)
    requires -1 <= count < remaining && 1 < remaining
    ensures Weight(count) < remaining
  {
  }

  lemma FieldLength(f: Field)
    ensures |FieldBits(f)| == f.width
  {
  }

  lemma TurnReads(source: bytes, r: Reading, t: Turn, maximumSymbol: nat)
    requires ProperTurn(t, r.remaining, r.numberBits, r.previousZero) && |r.values| == 256 && r.numberBits <= 13
    requires maximumSymbol < 256 && r.symbol + t.zeros <= maximumSymbol
    requires Holds(source, r.offset, TurnBits(t, r.remaining, r.numberBits, r.previousZero))
    ensures NextCount(source, r, maximumSymbol) == Some(AfterTurn(r, t))
  {
    hide Holds, SkipZeros, FieldBits, CountField, TakeCount, Size, BitWidth, Weight, ToBits, NextCount, ZeroRun;
    var f := CountField(r.remaining, r.numberBits, t.count);
    HoldsPart(source, r.offset, RunBits(t.zeros, r.previousZero), FieldBits(f));
    if r.previousZero {
      SkipsRun(source, r.offset, r.symbol, t.zeros, maximumSymbol);
    }
    CountBelow(t.count, r.remaining);
    var at := r.offset + |RunBits(t.zeros, r.previousZero)|;
    TakesCount(source, at, r.remaining, r.numberBits, t.count);
    NextIs(source, r, maximumSymbol, at, t.zeros, t.count, f.width);
    FieldLength(f);
  }

  // ---- All turns ----

  lemma WidthAfter(turns: seq<Turn>, left: nat, numberBits: nat, previousZero: bool)
    requires 1 <= numberBits && 1 <= left < 2 * Size(numberBits - 1)
    ensures var n := WidthOfLeft(left, numberBits);
      && (Proper(turns, left, Narrowed(left, numberBits), previousZero) <==> Proper(turns, left, n, previousZero))
      && (Proper(turns, left, n, previousZero) ==>
            TurnsBits(turns, left, Narrowed(left, numberBits), previousZero) == TurnsBits(turns, left, n, previousZero))
  {
    NarrowedFits(left, numberBits);
    hide Size, BitWidth, Narrowed, TurnBits;
  }

  function Overlay(values: seq<int>, at: nat, written: seq<int>): (s: seq<int>)
    ensures |s| == |values|
  {
    seq(|values|, k requires 0 <= k < |values| => if at <= k < at + |written| then written[k - at] else values[k])
  }

  lemma OverlayTurn(values: seq<int>, at: nat, t: Turn, later: seq<int>)
    requires at + t.zeros < |values| && forall k | at <= k < |values| :: values[k] == 0
    ensures Overlay(values[at + t.zeros := t.count], at + t.zeros + 1, later)
         == Overlay(values, at, ZeroCounts(t.zeros) + [t.count] + later)
  {
    var written := ZeroCounts(t.zeros) + [t.count] + later;
    var a, b := Overlay(values[at + t.zeros := t.count], at + t.zeros + 1, later), Overlay(values, at, written);
    forall k | 0 <= k < |values| ensures a[k] == b[k] {
      if at <= k < at + |written| {
        assert b[k] == written[k - at];
      }
    }
  }

  /** From `r` on the source has the turns, and `q` is where they end. */
  predicate Describes(source: bytes, turns: seq<Turn>, r: Reading, q: Reading) {
    && Proper(turns, r.remaining, r.numberBits, r.previousZero) && q.remaining == 1
    && Holds(source, r.offset, TurnsBits(turns, r.remaining, r.numberBits, r.previousZero))
    && q.offset == r.offset + |TurnsBits(turns, r.remaining, r.numberBits, r.previousZero)|
    && q.symbol == r.symbol + |ValuesOf(turns)| && q.values == Overlay(r.values, r.symbol, ValuesOf(turns))
  }

  lemma FirstTurn(t: Turn, turns: seq<Turn>, remaining: nat, numberBits: nat, previousZero: bool)
    requires ProperTurn(t, remaining, numberBits, previousZero)
    ensures var left := remaining - Weight(t.count); var n := WidthOfLeft(left, numberBits);
      && (Proper([t] + turns, remaining, numberBits, previousZero) <==> Proper(turns, left, n, t.count == 0))
      && (Proper(turns, left, n, t.count == 0) ==>
            TurnsBits([t] + turns, remaining, numberBits, previousZero)
            == TurnBits(t, remaining, numberBits, previousZero) + TurnsBits(turns, left, n, t.count == 0))
  {
    var all := [t] + turns;
    assert all[0] == t && all[1..] == turns;
    var left := remaining - Weight(t.count);
    hide TurnBits, Size, BitWidth, Narrowed, Weight;
    WidthAfter(turns, left, numberBits, t.count == 0);
  }

  lemma FirstValues(t: Turn, turns: seq<Turn>)
    ensures ValuesOf([t] + turns) == ZeroCounts(t.zeros) + [t.count] + ValuesOf(turns)
  {
    assert ([t] + turns)[1..] == turns;
  }

  lemma DescribesTurn(source: bytes, t: Turn, turns: seq<Turn>, r: Reading, q: Reading)
    requires ProperTurn(t, r.remaining, r.numberBits, r.previousZero) && r.symbol + t.zeros < |r.values|
    requires forall k | r.symbol <= k < |r.values| :: r.values[k] == 0
    ensures Describes(source, [t] + turns, r, q) <==>
      Holds(source, r.offset, TurnBits(t, r.remaining, r.numberBits, r.previousZero)) && Describes(source, turns, AfterTurn(r, t), q)
  {
    hide Holds, TurnBits, TurnsBits, Proper, Size, BitWidth, Narrowed, Weight, ZeroCounts, ValuesOf, Overlay, WidthOfLeft;
    var left := r.remaining - Weight(t.count);
    FirstTurn(t, turns, r.remaining, r.numberBits, r.previousZero);
    FirstValues(t, turns);
    OverlayTurn(r.values, r.symbol, t, ValuesOf(turns));
    if Proper(turns, left, WidthOfLeft(left, r.numberBits), t.count == 0) {
      HoldsPart(source, r.offset, TurnBits(t, r.remaining, r.numberBits, r.previousZero),
                TurnsBits(turns, left, WidthOfLeft(left, r.numberBits), t.count == 0));
    }
  }

  /** Whatever the reader reads to the end was described. */
  lemma {:induction false} WasDescribed(source: bytes, r: Reading, maximumSymbol: nat, log: nat) returns (turns: seq<Turn>)
    requires ValidReading(r, source, maximumSymbol, log)
    requires var q := ReadAll(source, r, maximumSymbol, log); q.Some? && q.value.remaining == 1
    ensures Describes(source, turns, r, ReadAll(source, r, maximumSymbol, log).value)
    decreases maximumSymbol + 1 - r.symbol
  {
    hide NextCount, Describes, ProperTurn, AfterTurn, TurnBits, Holds, Total, Size;
    var q := ReadAll(source, r, maximumSymbol, log).value;
    if r.remaining <= 1 || maximumSymbol < r.symbol {
      turns := [];
      NoTurns(source, r);
    } else {
      NextCountOrEnd(source, r, maximumSymbol, log);
      var t := TurnWas(source, r, maximumSymbol);
      var later := WasDescribed(source, NextCount(source, r, maximumSymbol).value, maximumSymbol, log);
      turns := [t] + later;
      DescribesTurn(source, t, later, r, q);
    }
  }

  lemma NoTurns(source: bytes, r: Reading)
    requires r.remaining == 1 && r.offset <= 8 * |source|
    ensures Describes(source, [], r, r)
  {
    assert Overlay(r.values, r.symbol, []) == r.values;
  }

  /** And whatever is described is read to the end, if the symbols are allowed. */
  lemma {:induction false} IsRead(source: bytes, turns: seq<Turn>, r: Reading, q: Reading, maximumSymbol: nat, log: nat)
    requires ValidReading(r, source, maximumSymbol, log) && (1 < r.remaining ==> r.numberBits <= 13)
    requires Describes(source, turns, r, q) && r.symbol + |ValuesOf(turns)| <= maximumSymbol + 1
    ensures var p := ReadAll(source, r, maximumSymbol, log);
      p.Some? && p.value.remaining == 1 && Describes(source, turns, r, p.value)
    decreases |turns|
  {
    hide NextCount, ProperTurn, AfterTurn, TurnBits, TurnsBits, Holds, Total, Size, Overlay;
    if turns == [] {
      NoTurns(source, r);
    } else {
      var t, later := turns[0], turns[1..];
      assert turns == [t] + later;
      HasTurn(turns, r.remaining, r.numberBits, r.previousZero);
      FirstValues(t, later);
      DescribesTurn(source, t, later, r, q);
      hide Describes;
      TurnReads(source, r, t, maximumSymbol);
      NextCountOrEnd(source, r, maximumSymbol, log);
      NotWider(r, t);
      var next := AfterTurn(r, t);
      StandsBehind(r, t);
      IsRead(source, later, next, q, maximumSymbol, log);
      DescribesTurn(source, t, later, r, ReadAll(source, next, maximumSymbol, log).value);
    }
  }

  lemma StandsBehind(r: Reading, t: Turn)
    requires ProperTurn(t, r.remaining, r.numberBits, r.previousZero) && r.symbol + t.zeros < |r.values|
    ensures AfterTurn(r, t).symbol == r.symbol + t.zeros + 1
  {
  }

  lemma HasTurn(turns: seq<Turn>, remaining: nat, numberBits: nat, previousZero: bool)
    requires Proper(turns, remaining, numberBits, previousZero) && turns != []
    ensures ProperTurn(turns[0], remaining, numberBits, previousZero)
  {
  }

  lemma NotWider(r: Reading, t: Turn)
    requires ProperTurn(t, r.remaining, r.numberBits, r.previousZero) && r.symbol + t.zeros < |r.values|
    ensures AfterTurn(r, t).numberBits <= r.numberBits
  {
    hide Size, BitWidth, TurnBits;
    NarrowedFits(r.remaining - Weight(t.count), r.numberBits);
  }

  // ---- What is read ----

  /** The source begins with a description, by `turns`, of what `c` says. */
  predicate IsDescription(source: bytes, maximumSymbol: nat, turns: seq<Turn>, c: Counts) {
    && source != [] && maximumSymbol < 256 && c.tableLog == source[0] as nat % 16 + 5 <= 12
    && Proper(turns, Size(c.tableLog) + 1, c.tableLog + 1, false)
    && (var bits := TurnsBits(turns, Size(c.tableLog) + 1, c.tableLog + 1, false);
        Holds(source, 4, bits) && c.bytesConsumed == (4 + |bits| + 7) / 8)
    && 0 < |ValuesOf(turns)| == c.maximumSymbol + 1 <= maximumSymbol + 1 && c.values == Padded(ValuesOf(turns))
  }

  lemma {:induction false} ReadWasDescribed(source: bytes, maximumSymbol: nat, c: Counts) returns (turns: seq<Turn>)
    requires ReadCounts(source, maximumSymbol) == Some(c)
    ensures IsDescription(source, maximumSymbol, turns, c)
  {
    hide ReadAll, ValidReading, Size, Proper, TurnsBits, Holds;
    var log := source[0] as nat % 16 + 5;
    FirstIsValid(source, maximumSymbol, log);
    var r := FirstReading(log);
    var q := ReadAll(source, r, maximumSymbol, log).value;
    turns := WasDescribed(source, r, maximumSymbol, log);
    ReadAllKeeps(source, r, maximumSymbol, log);
    EndsInside(q, source, maximumSymbol, log);
    FirstOverlay(ValuesOf(turns), log);
  }

  lemma EndsInside(q: Reading, source: bytes, maximumSymbol: nat, log: nat)
    requires ValidReading(q, source, maximumSymbol, log)
    ensures q.symbol <= maximumSymbol + 1
  {
  }

  lemma FirstOverlay(values: seq<int>, log: nat)
    requires |values| <= 256
    ensures Overlay(FirstReading(log).values, 0, values) == Padded(values)
  {
  }

  /** The reader gives `c` if and only if the source begins with a description of `c`, by whatever turns. */
  lemma {:induction false} ReadsExactly(source: bytes, maximumSymbol: nat, c: Counts)
    ensures ReadCounts(source, maximumSymbol) == Some(c) <==> exists turns :: IsDescription(source, maximumSymbol, turns, c)
  {
    hide ReadCounts, IsDescription;
    if ReadCounts(source, maximumSymbol) == Some(c) {
      var turns := ReadWasDescribed(source, maximumSymbol, c);
    }
    if turns :| IsDescription(source, maximumSymbol, turns, c) {
      DescribedIsRead(source, maximumSymbol, turns, c);
    }
  }

  lemma {:induction false} DescribedIsRead(source: bytes, maximumSymbol: nat, turns: seq<Turn>, c: Counts)
    requires IsDescription(source, maximumSymbol, turns, c)
    ensures ReadCounts(source, maximumSymbol) == Some(c)
  {
    hide ReadAll, ValidReading, Size, Proper, TurnsBits, Holds, Padded, Overlay;
    var log := c.tableLog;
    FirstIsValid(source, maximumSymbol, log);
    var r := FirstReading(log);
    var values := ValuesOf(turns);
    var bits := TurnsBits(turns, Size(log) + 1, log + 1, false);
    var q := Reading(4 + |bits|, 1, log + 1, |values|, false, Overlay(r.values, 0, values));
    IsRead(source, turns, r, q, maximumSymbol, log);
    FirstOverlay(values, log);
  }
}
