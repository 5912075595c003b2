/** The construction of an FSE decoding table in place: the top cells, the walk over the others, and
    the next states. */
module FseBuilder {
  import opened Arithmetic
  import opened Bytes
  import opened FrameFormat
  import opened FseCounts
  import opened FseSpread
  import opened FseTable

  const MAXIMUM_SIZE: nat := 4096
  const SIZE_LIMIT: nat := 0x1_0000_0000_0000_0000

  lemma SizeBound(log: nat)
    requires MIN_LOG <= log <= MAX_LOG
    ensures Size(log) <= MAXIMUM_SIZE
  {
    SizeIs(log);
    SizeGrows(log - 5, 7);
    assert Size(7) == 2 * Size(6) && Size(6) == 2 * Size(5) && Size(5) == 2 * Size(4) && Size(4) == 2 * Size(3);
    assert Size(3) == 2 * Size(2) && Size(2) == 2 * Size(1) && Size(1) == 2 * Size(0);
  }

  lemma {:induction false} SizeGrows(a: nat, b: nat)
    requires a <= b
    ensures Size(a) <= Size(b)
    decreases b
  {
    if a < b {
      SizeGrows(a, b - 1);
    }
  }

  // ---- The symbols of low probability ----

  lemma CountsStep(values: seq<int>, i: nat)
    requires i < |values|
    ensures LowOnes(values[i..], i) == Repeat(i, if values[i] == -1 then 1 else 0) + LowOnes(values[i + 1..], i + 1)
    ensures Occurrences(values[i..], i) == Repeat(i, if values[i] < 0 then 0 else values[i]) + Occurrences(values[i + 1..], i + 1)
    ensures Total(values[i..]) == Weight(values[i]) + Total(values[i + 1..])
  {
    assert values[i..][1..] == values[i + 1..] && values[i..][0] == values[i];
  }

  lemma CountsEnd(values: seq<int>)
    ensures var n := |values|; LowOnes(values[n..], n) == [] && Total(values[n..]) == 0 && Occurrences(values[n..], n) == []
  {
  }

  /** The list goes on with `n` times the symbol. */
  lemma Runs(list: seq<nat>, m: nat, symbol: nat, n: nat, later: seq<nat>)
    requires m <= |list| && list[m..] == Repeat(symbol, n) + later
    ensures n == 0 ==> list[m..] == later
    ensures 0 < n ==> m < |list| && list[m] == symbol && list[m + 1..] == Repeat(symbol, n - 1) + later
  {
    if 0 < n {
      assert Repeat(symbol, n) == [symbol] + Repeat(symbol, n - 1);
      assert list[m..][0] == symbol && list[m..][1..] == list[m + 1..];
    }
  }

  /** The first `n` symbols of low probability are in the top cells, from above. */
  predicate TopHolds(entries: seq<Entry>, size: nat, low: seq<nat>, n: nat) {
    n <= |low| <= size <= |entries| && forall j | 0 <= j < n :: entries[size - 1 - j].symbol == low[j]
  }

  lemma TopGrows(entries: seq<Entry>, size: nat, low: seq<nat>, n: nat, e: Entry)
    requires TopHolds(entries, size, low, n) && n < |low| && e.symbol == low[n]
    ensures TopHolds(entries[size - 1 - n := e], size, low, n + 1)
  {
  }

  predicate CountsNoted(symbolNext: seq<nat>, values: seq<int>, n: nat) {
    n <= |values| && n <= |symbolNext| && forall s | 0 <= s < n :: symbolNext[s] == Weight(values[s])
  }

  lemma NoteCount(symbolNext: seq<nat>, values: seq<int>, n: nat)
    requires CountsNoted(symbolNext, values, n) && n < |values| && n < |symbolNext|
    ensures CountsNoted(symbolNext[n := Weight(values[n])], values, n + 1)
  {
    hide Weight;
  }

  predicate NoneBelow(values: seq<int>, n: nat) {
    n <= |values| && forall i | 0 <= i < n :: -1 <= values[i]
  }

  /** `high_threshold` with so many cells taken from the top: with all of them taken it wraps. */
  function Threshold(size: nat, taken: nat): nat
    requires taken <= size
  {
    if taken < size then size - 1 - taken else SIZE_LIMIT - 1
  }

  lemma StartsAtTop(size: nat)
    requires 1 <= size
    ensures Threshold(size, 0) == size - 1
  {
  }

  lemma ThresholdFalls(size: nat, taken: nat)
    requires taken < size < SIZE_LIMIT
    ensures Threshold(size, taken) == size - 1 - taken
    ensures Threshold(size, taken + 1) == (Threshold(size, taken) + SIZE_LIMIT - 1) % SIZE_LIMIT
  {
  }

  /** The body of the first loop: false for a count below -1. */
  method PlaceCount(values: seq<int>, symbol: nat, entries: array<Entry>, symbolNext: array<nat>, highThreshold0: nat,
                    ghost size: nat, ghost low: seq<nat>, ghost placed: nat)
    returns (ok: bool, highThreshold: nat, taken: nat, ghost placed1: nat)
    requires symbol < |values| <= symbolNext.Length && size <= entries.Length < SIZE_LIMIT
    requires placed <= |low| <= size && low[placed..] == LowOnes(values[symbol..], symbol)
    requires TopHolds(entries[..], size, low, placed) && highThreshold0 == Threshold(size, placed)
    requires CountsNoted(symbolNext[..], values, symbol)
    modifies entries, symbolNext
    ensures if ok then NoneBelow(values, symbol) ==> NoneBelow(values, symbol + 1) else !NoneBelow(values, |values|)
    ensures ok ==> taken == Weight(values[symbol])
    ensures ok ==> placed1 <= |low| && low[placed1..] == LowOnes(values[symbol + 1..], symbol + 1)
    ensures ok ==> TopHolds(entries[..], size, low, placed1) && highThreshold == Threshold(size, placed1)
    ensures ok ==> CountsNoted(symbolNext[..], values, symbol + 1)
  {
    hide LowOnes, Repeat, Occurrences, Total, TopHolds, CountsNoted, Threshold;
    ok, highThreshold, taken, placed1 := true, highThreshold0, 0, placed;
    var count := values[symbol];
    CountsStep(values, symbol);
    Runs(low, placed, symbol, if count == -1 then 1 else 0, LowOnes(values[symbol + 1..], symbol + 1));
    ghost var before, noted := entries[..], symbolNext[..];
    NoteCount(noted, values, symbol);
    if count == -1 {
      TopGrows(before, size, low, placed, before[size - 1 - placed].(symbol := symbol));
      ThresholdFalls(size, placed);
      entries[highThreshold] := entries[highThreshold].(symbol := symbol);
      assert entries[..] == before[size - 1 - placed := before[size - 1 - placed].(symbol := symbol)];
      highThreshold := (highThreshold + SIZE_LIMIT - 1) % SIZE_LIMIT;
      taken := 1;
      placed1 := placed + 1;
      Runs(low, placed1, symbol, 0, LowOnes(values[symbol + 1..], symbol + 1));
    } else if 0 <= count {
      taken := count;
    } else {
      return false, highThreshold, 0, placed;
    }
    symbolNext[symbol] := taken;
    assert symbolNext[..] == noted[symbol := Weight(values[symbol])];
  }

  /** The first loop. */
  method PlaceLow(values: seq<int>, log: nat, entries: array<Entry>, symbolNext: array<nat>)
    returns (ok: bool, highThreshold: nat, total: nat)
    requires |values| <= symbolNext.Length && Size(log) <= entries.Length < SIZE_LIMIT && |LowOnes(values, 0)| <= Size(log)
    modifies entries, symbolNext
    ensures ok <==> NoneBelow(values, |values|)
    ensures ok ==> total == Total(values) && highThreshold == Threshold(Size(log), |LowOnes(values, 0)|)
    ensures ok ==> CountsNoted(symbolNext[..], values, |values|)
    ensures ok ==> TopHolds(entries[..], Size(log), LowOnes(values, 0), |LowOnes(values, 0)|)
  {
    ghost var low, placed: nat := LowOnes(values, 0), 0;
    var size, symbol: nat := Size(log), 0;
    highThreshold, total, ok := size - 1, 0, true;
    assert values[0..] == values && CountsNoted(symbolNext[..], values, 0) && TopHolds(entries[..], size, low, 0);
    assert NoneBelow(values, 0);
    StartsAtTop(size);
    hide Size, LowOnes, Occurrences, Total, Repeat, TopHolds, CountsNoted, Threshold, NoneBelow, Weight;
    while symbol < |values|
      invariant symbol <= |values| && placed <= |low| && low[placed..] == LowOnes(values[symbol..], symbol)
      invariant total + Total(values[symbol..]) == Total(values) && NoneBelow(values, symbol)
      invariant highThreshold == Threshold(size, placed) && TopHolds(entries[..], size, low, placed)
      invariant CountsNoted(symbolNext[..], values, symbol)
    {
      var taken;
      ok, highThreshold, taken, placed := PlaceCount(values, symbol, entries, symbolNext, highThreshold, size, low, placed);
      if !ok {
        return;
      }
      CountsStep(values, symbol);
      total := total + taken;
      symbol := symbol + 1;
    }
    CountsEnd(values);
  }

  // ---- The walk ----

  /** The walk has made `k` steps and filled `m` cells; it stands at the next one to fill, or at 0 behind the last. */
  ghost predicate Standing(log: nat, free: nat, k: nat, m: nat, position: nat) {
    && k <= Size(log) && m <= free <= Size(log) && |Cells(log, free)| == free && position == Pos(log, k)
    && Cells(log, free)[m..] == Below(Positions(log, k, Size(log) - k), free)
    && (k < Size(log) ==> position < free)
  }

  lemma StandsFirst(log: nat, free: nat)
    requires MIN_LOG <= log && 0 < free <= Size(log)
    ensures Standing(log, free, 0, 0, 0)
  {
    FirstAndLastPos(log);
    SpreadIsPermutation(log, free);
    assert Cells(log, free)[0..] == Cells(log, free);
  }

  lemma PositionsFrom(log: nat, k: nat)
    requires k <= Size(log)
    ensures Positions(log, k, Size(log) - k)
         == if k == Size(log) then [] else [Pos(log, k)] + Positions(log, k + 1, Size(log) - k - 1)
  {
    hide Pos, Size;
  }

  /** The position is the next cell. */
  lemma StandsAt(log: nat, free: nat, k: nat, m: nat, position: nat)
    requires Standing(log, free, k, m, position) && m < free
    ensures k < Size(log) && position == Cells(log, free)[m] == Pos(log, k) < free && |Cells(log, free)| == free
    ensures Cells(log, free)[m + 1..] == Below(Positions(log, k + 1, Size(log) - k - 1), free)
  {
    PositionsFrom(log, k);
    var rest := Cells(log, free)[m..];
    hide Cells, Pos, Positions, Size;
    assert rest[0] == Cells(log, free)[m] && rest[1..] == Cells(log, free)[m + 1..];
  }

  /** Behind the last cell the walk is back at 0. */
  lemma StandsLast(log: nat, free: nat, k: nat, position: nat)
    requires Standing(log, free, k, free, position)
    ensures position == 0
  {
    FirstAndLastPos(log);
    PositionsFrom(log, k);
    hide Cells, Pos, Positions, Size;
    assert Cells(log, free)[free..] == [];
  }

  lemma SkipsTop(log: nat, free: nat, k: nat)
    requires k < Size(log) && free <= Pos(log, k)
    ensures Below(Positions(log, k, Size(log) - k), free) == Below(Positions(log, k + 1, Size(log) - k - 1), free)
  {
    PositionsFrom(log, k);
    hide Pos, Positions, Size;
  }

  /** The walk is between two cells to fill. */
  ghost predicate Walking(log: nat, free: nat, k: nat, m: nat, position: nat) {
    && k <= Size(log) && m <= free <= Size(log) && |Cells(log, free)| == free && position == Pos(log, k)
    && Cells(log, free)[m..] == Below(Positions(log, k, Size(log) - k), free)
  }

  lemma WalksOn(log: nat, free: nat, k: nat, m: nat, position: nat)
    requires Walking(log, free, k, m, position) && 0 < free <= position
    ensures k < Size(log) && Walking(log, free, k + 1, m, (position + Step(log)) % Size(log))
  {
    FirstAndLastPos(log);
    SkipsTop(log, free, k);
    NextPos(log, k);
    hide Pos, Size, Cells, Positions, Below, Step;
  }

  lemma StepsOn(log: nat, free: nat, k: nat, m: nat, position: nat)
    requires Standing(log, free, k, m, position) && m < free
    ensures k < Size(log) && Walking(log, free, k + 1, m + 1, (position + Step(log)) % Size(log))
  {
    StandsAt(log, free, k, m, position);
    NextPos(log, k);
    hide Pos, Size, Cells, Positions, Below, Step;
  }

  /** One step, and the inner loop over the cells at the top. */
  method NextPosition(log: nat, position0: nat, highThreshold: nat, ghost k0: nat, ghost m: nat)
    returns (position: nat, ghost k: nat)
    requires m <= highThreshold && Standing(log, highThreshold + 1, k0, m, position0)
    ensures Standing(log, highThreshold + 1, k, m + 1, position)
  {
    var step, size := Step(log), Size(log);
    StepsOn(log, highThreshold + 1, k0, m, position0);
    position, k := (position0 + step) % size, k0 + 1;
    hide Walking;
    while highThreshold < position
      invariant k <= size && Walking(log, highThreshold + 1, k, m + 1, position)
      decreases size - k
    {
      WalksOn(log, highThreshold + 1, k, m + 1, position);
      position, k := (position + step) % size, k + 1;
    }
    Arrives(log, highThreshold + 1, k, m + 1, position);
  }

  lemma Arrives(log: nat, free: nat, k: nat, m: nat, position: nat)
    requires Walking(log, free, k, m, position) && position < free
    ensures Standing(log, free, k, m, position)
  {
    hide Pos, Size, Cells, Positions, Below;
  }

  /** The walk has put the first `m` occurrences into their cells, and the top is as it was. */
  predicate Filled(entries: seq<Entry>, cells: seq<nat>, occurrences: seq<nat>, m: nat, before: seq<Entry>) {
    && m <= |occurrences| == |cells| <= |entries| == |before|
    && (forall j | 0 <= j < m :: cells[j] < |occurrences| && entries[cells[j]].symbol == occurrences[j])
    && (forall i | |occurrences| <= i < |entries| :: entries[i] == before[i])
  }

  lemma FillsNext(entries: seq<Entry>, cells: seq<nat>, occurrences: seq<nat>, m: nat, before: seq<Entry>, e: Entry)
    requires Filled(entries, cells, occurrences, m, before) && m < |occurrences| && Distinct(cells)
    requires cells[m] < |occurrences| && e.symbol == occurrences[m]
    ensures Filled(entries[cells[m] := e], cells, occurrences, m + 1, before)
  {
    assert forall j | 0 <= j < m :: cells[j] != cells[m];
  }

  /** One occurrence. */
  method PlaceNext(symbol: nat, log: nat, entries: array<Entry>, highThreshold: nat, position0: nat,
                   ghost k0: nat, ghost m: nat, ghost occurrences: seq<nat>, ghost before: seq<Entry>)
    returns (position: nat, ghost k: nat)
    requires m < |occurrences| <= entries.Length && highThreshold == |occurrences| - 1 && occurrences[m] == symbol
    requires Standing(log, |occurrences|, k0, m, position0) && Distinct(Cells(log, |occurrences|))
    requires Filled(entries[..], Cells(log, |occurrences|), occurrences, m, before)
    modifies entries
    ensures Standing(log, |occurrences|, k, m + 1, position)
    ensures Filled(entries[..], Cells(log, |occurrences|), occurrences, m + 1, before)
  {
    hide Size, Cells, Distinct, Filled, Pos, Positions, Below;
    StandsAt(log, |occurrences|, k0, m, position0);
    hide Standing;
    ghost var now := entries[..];
    FillsNext(now, Cells(log, |occurrences|), occurrences, m, before, now[position0].(symbol := symbol));
    entries[position0] := entries[position0].(symbol := symbol);
    assert entries[..] == now[position0 := now[position0].(symbol := symbol)];
    position, k := NextPosition(log, position0, highThreshold, k0, m);
  }

  /** Between two occurrences; without any, nothing happens. */
  ghost predicate Ready(log: nat, occurrences: seq<nat>, highThreshold: nat, k: nat, m: nat, position: nat) {
    if occurrences == [] then position == 0
    else highThreshold == |occurrences| - 1 && Standing(log, |occurrences|, k, m, position)
  }

  /** The inner loop over the occurrences of one symbol. */
  method SpreadSymbol(symbol: nat, count: nat, log: nat, entries: array<Entry>, highThreshold: nat, position0: nat,
                      ghost k0: nat, ghost m0: nat, ghost occurrences: seq<nat>, ghost later: seq<nat>, ghost before: seq<Entry>)
    returns (position: nat, ghost k: nat, ghost m: nat)
    requires m0 <= |occurrences| <= entries.Length && Ready(log, occurrences, highThreshold, k0, m0, position0)
    requires occurrences[m0..] == Repeat(symbol, count) + later && Distinct(Cells(log, |occurrences|))
    requires Filled(entries[..], Cells(log, |occurrences|), occurrences, m0, before)
    modifies entries
    ensures m <= |occurrences| && occurrences[m..] == later && Ready(log, occurrences, highThreshold, k, m, position)
    ensures Filled(entries[..], Cells(log, |occurrences|), occurrences, m, before)
  {
    position, k, m := position0, k0, m0;
    var occurrence := 0;
    hide Cells, Repeat, Standing, Filled, Distinct;
    while occurrence < count
      invariant occurrence <= count && m <= |occurrences| && occurrences[m..] == Repeat(symbol, count - occurrence) + later
      invariant Ready(log, occurrences, highThreshold, k, m, position)
      invariant Filled(entries[..], Cells(log, |occurrences|), occurrences, m, before)
    {
      Runs(occurrences, m, symbol, count - occurrence, later);
      position, k := PlaceNext(symbol, log, entries, highThreshold, position, k, m, occurrences, before);
      m := m + 1;
      occurrence := occurrence + 1;
    }
    Runs(occurrences, m, symbol, 0, later);
  }

  /** The second loop: every occurrence of every symbol in a cell of its own. */
  method SpreadLoop(values: seq<int>, log: nat, entries: array<Entry>, highThreshold: nat) returns (position: nat)
    requires ValidCounts(values, log) && Size(log) <= entries.Length
    requires Occurrences(values, 0) != [] ==> highThreshold == |Occurrences(values, 0)| - 1
    modifies entries
    ensures position == 0
    ensures var occurrences := Occurrences(values, 0);
      Filled(entries[..], Cells(log, |occurrences|), occurrences, |occurrences|, old(entries[..]))
  {
    ghost var occurrences, k: nat, m: nat, before := Occurrences(values, 0), 0, 0, entries[..];
    BeforeWalk(values, log, highThreshold, before);
    position := 0;
    var symbol := 0;
    assert values[0..] == values && occurrences[0..] == occurrences;
    hide Size, Cells, Ready, Occurrences, LowOnes, Total, ValidCounts, Filled, Repeat, Distinct;
    while symbol < |values|
      invariant symbol <= |values| && m <= |occurrences| && occurrences[m..] == Occurrences(values[symbol..], symbol)
      invariant Ready(log, occurrences, highThreshold, k, m, position)
      invariant Filled(entries[..], Cells(log, |occurrences|), occurrences, m, before)
    {
      CountsStep(values, symbol);
      position, k, m := SpreadSymbol(symbol, if values[symbol] < 0 then 0 else values[symbol], log, entries, highThreshold,
                                     position, k, m, occurrences, Occurrences(values[symbol + 1..], symbol + 1), before);
      symbol := symbol + 1;
    }
    CountsEnd(values);
    AfterWalk(log, occurrences, highThreshold, k, position);
  }

  lemma BeforeWalk(values: seq<int>, log: nat, highThreshold: nat, before: seq<Entry>)
    requires ValidCounts(values, log) && Size(log) <= |before|
    requires Occurrences(values, 0) != [] ==> highThreshold == |Occurrences(values, 0)| - 1
    ensures var occurrences := Occurrences(values, 0);
      && |occurrences| <= |before| && Distinct(Cells(log, |occurrences|)) && Ready(log, occurrences, highThreshold, 0, 0, 0)
      && Filled(before, Cells(log, |occurrences|), occurrences, 0, before)
  {
    var occurrences := Occurrences(values, 0);
    Lengths(values, 0);
    hide Occurrences, LowOnes, Total;
    CellsDiffer(log, |occurrences|);
    hide Distinct, Size, Cells;
    if occurrences != [] {
      StandsFirst(log, |occurrences|);
    }
    hide Standing;
  }

  lemma AfterWalk(log: nat, occurrences: seq<nat>, highThreshold: nat, k: nat, position: nat)
    requires Ready(log, occurrences, highThreshold, k, |occurrences|, position)
    ensures position == 0
  {
    hide Standing;
    if occurrences != [] {
      StandsLast(log, |occurrences|, k, position);
    }
  }

  lemma CellsDiffer(log: nat, free: nat)
    requires MIN_LOG <= log && free <= Size(log)
    ensures Distinct(Cells(log, free)) && |Cells(log, free)| == free
  {
    SpreadIsPermutation(log, free);
  }

  /** The second loop behind the first. */
  method SpreadSymbols(values: seq<int>, log: nat, entries: array<Entry>, highThreshold: nat) returns (position: nat)
    requires ValidCounts(values, log) && Size(log) <= entries.Length && |LowOnes(values, 0)| <= Size(log)
    requires highThreshold == Threshold(Size(log), |LowOnes(values, 0)|)
    requires TopHolds(entries[..], Size(log), LowOnes(values, 0), |LowOnes(values, 0)|)
    modifies entries
    ensures position == 0 && Spread(SymbolsOf(entries[..Size(log)]), values, log)
  {
    Lengths(values, 0);
    ghost var before := entries[..];
    position := SpreadLoop(values, log, entries, highThreshold);
    FilledIsSpread(entries[..], values, log, before);
    assert entries[..][..Size(log)] == entries[..Size(log)];
  }

  lemma FilledIsSpread(entries: seq<Entry>, values: seq<int>, log: nat, before: seq<Entry>)
    requires ValidCounts(values, log) && Size(log) <= |entries|
    requires var occurrences := Occurrences(values, 0);
      Filled(entries, Cells(log, |occurrences|), occurrences, |occurrences|, before)
    requires TopHolds(before, Size(log), LowOnes(values, 0), |LowOnes(values, 0)|)
    ensures Spread(SymbolsOf(entries[..Size(log)]), values, log)
  {
    Lengths(values, 0);
    var occurrences, low, symbols := Occurrences(values, 0), LowOnes(values, 0), SymbolsOf(entries[..Size(log)]);
    var cells := Cells(log, |occurrences|);
    assert |occurrences| + |low| == Size(log);
    hide Cells, Occurrences, LowOnes, Size, Total, ValidCounts;
    forall j | 0 <= j < |cells| ensures cells[j] < |symbols| && symbols[cells[j]] == occurrences[j] {
    }
    forall j | 0 <= j < |low| ensures symbols[Size(log) - 1 - j] == low[j] {
      assert entries[Size(log) - 1 - j] == before[Size(log) - 1 - j];
    }
    hide Filled, TopHolds, SymbolsOf;
  }

  // ---- The next states ----

  /** The numbers to come: the counts, and the cells done. */
  predicate Counted(symbolNext: seq<nat>, values: seq<int>, symbols: seq<nat>, index: nat) {
    && index <= |symbols| && |values| <= |symbolNext|
    && forall s | 0 <= s < |values| :: symbolNext[s] == Weight(values[s]) + multiset(symbols[..index])[s]
  }

  lemma CountsNext(symbolNext: seq<nat>, values: seq<int>, symbols: seq<nat>, index: nat)
    requires Counted(symbolNext, values, symbols, index) && index < |symbols| && symbols[index] < |values|
    ensures symbols[index] < |symbolNext| && symbolNext[symbols[index]] == Number(symbols, values, index)
    ensures Counted(symbolNext[symbols[index] := symbolNext[symbols[index]] + 1], values, symbols, index + 1)
  {
    assert symbols[..index + 1] == symbols[..index] + [symbols[index]];
    hide Weight;
  }

  /** The first `index` entries are complete, and all have their symbols. */
  predicate Stated(entries: seq<Entry>, symbols: seq<nat>, values: seq<int>, log: nat, index: nat) {
    && index <= |symbols| <= |entries|
    && (forall i | 0 <= i < |symbols| :: entries[i].symbol == symbols[i])
    && (forall i | 0 <= i < index :: IsEntry(entries[i], symbols, values, log, i))
  }

  lemma SymbolIs(entries: seq<Entry>, symbols: seq<nat>, values: seq<int>, log: nat, index: nat)
    requires Stated(entries, symbols, values, log, index) && index < |symbols|
    ensures |symbols| <= |entries| && entries[index].symbol == symbols[index]
  {
    hide IsEntry;
  }

  lemma StatesNext(entries: seq<Entry>, symbols: seq<nat>, values: seq<int>, log: nat, index: nat, e: Entry)
    requires Stated(entries, symbols, values, log, index) && index < |symbols|
    requires IsEntry(e, symbols, values, log, index) && e.symbol == symbols[index]
    ensures Stated(entries[index := e], symbols, values, log, index + 1)
  {
    hide IsEntry;
  }

  /** `number_bits` and `next_state` */
  method MakeEntry(log: nat, next: nat, symbol: nat) returns (e: Entry)
    requires 1 <= next < 2 * Size(log)
    ensures e == EntryFor(log, next, symbol) && e.symbol == symbol
  {
    NextFits(log, next);
    var numberBits := log - (BitWidth(next) - 1);
    e := Entry(next * Pow2(numberBits) - Size(log), numberBits, symbol);
  }

  /** The body of the last loop: false for a next-state number of 0, which does not occur. */
  method FillState(values: seq<int>, log: nat, entries: array<Entry>, symbolNext: array<nat>, index: nat, ghost symbols: seq<nat>)
    returns (ok: bool)
    requires index < |symbols| == Size(log) && symbols[index] < |values| && 1 <= Number(symbols, values, index) < 2 * Size(log)
    requires Stated(entries[..], symbols, values, log, index) && Counted(symbolNext[..], values, symbols, index)
    modifies entries, symbolNext
    ensures ok && Counted(symbolNext[..], values, symbols, index + 1) && Stated(entries[..], symbols, values, log, index + 1)
  {
    hide Counted, Stated, Size, Number, EntryFor;
    ghost var now, counts := entries[..], symbolNext[..];
    CountsNext(counts, values, symbols, index);
    SymbolIs(now, symbols, values, log, index);
    var symbol := entries[index].symbol;
    var next := symbolNext[symbol];
    symbolNext[symbol] := next + 1;
    assert symbolNext[..] == counts[symbol := next + 1];
    if next == 0 {
      return false;
    }
    var e := MakeEntry(log, next, symbol);
    StatesNext(now, symbols, values, log, index, e);
    entries[index] := e;
    assert entries[..] == now[index := e];
    ok := true;
  }

  lemma NothingStated(entries: seq<Entry>, symbolNext: seq<nat>, values: seq<int>, log: nat)
    requires Size(log) <= |entries| && CountsNoted(symbolNext, values, |values|)
    ensures Counted(symbolNext, values, SymbolsOf(entries[..Size(log)]), 0)
    ensures Stated(entries, SymbolsOf(entries[..Size(log)]), values, log, 0)
  {
    hide Weight, Size;
  }

  /** The last loop. */
  method FillLoop(values: seq<int>, log: nat, entries: array<Entry>, symbolNext: array<nat>, ghost symbols: seq<nat>) returns (ok: bool)
    requires ValidCounts(values, log) && |symbols| == Size(log) && Spread(symbols, values, log)
    requires Counted(symbolNext[..], values, symbols, 0) && Stated(entries[..], symbols, values, log, 0)
    modifies entries, symbolNext
    ensures ok && Stated(entries[..], symbols, values, log, |symbols|)
  {
    hide Spread, Size, ValidCounts, Counted, Stated, Number, Weight;
    var index: nat := 0;
    while index < Size(log)
      invariant index <= |symbols| && Counted(symbolNext[..], values, symbols, index)
      invariant Stated(entries[..], symbols, values, log, index)
    {
      NumberFits(symbols, values, log, index);
      ok := FillState(values, log, entries, symbolNext, index, symbols);
      index := index + 1;
      if !ok {
        return;
      }
    }
    ok := true;
  }

  method FillStates(values: seq<int>, log: nat, entries: array<Entry>, symbolNext: array<nat>) returns (ok: bool)
    requires ValidCounts(values, log) && Size(log) <= entries.Length && CountsNoted(symbolNext[..], values, |values|)
    requires Spread(SymbolsOf(entries[..Size(log)]), values, log)
    modifies entries, symbolNext
    ensures ok && IsTable(entries[..Size(log)], values, log)
  {
    hide Spread, Size, ValidCounts, Counted, Stated, CountsNoted, IsTable, SymbolsOf;
    ghost var symbols := SymbolsOf(entries[..Size(log)]);
    assert entries[..][..Size(log)] == entries[..Size(log)];
    NothingStated(entries[..], symbolNext[..], values, log);
    ok := FillLoop(values, log, entries, symbolNext, symbols);
    assert entries[..][..Size(log)] == entries[..Size(log)];
    StatedIsTable(entries[..], symbols, values, log);
  }

  lemma StatedIsTable(entries: seq<Entry>, symbols: seq<nat>, values: seq<int>, log: nat)
    requires |symbols| == Size(log) && Stated(entries, symbols, values, log, |symbols|) && Spread(symbols, values, log)
    ensures IsTable(entries[..Size(log)], values, log)
  {
    hide IsEntry, Spread, Size;
    assert SymbolsOf(entries[..Size(log)]) == symbols;
  }

  /** build_fse_table, for counts whose symbols of low probability fit the table: it fails exactly for counts that
      do not fill the table, by one of its first two checks, and never by the last two. */
  method BuildTable(values: seq<int>, log: nat, entries: array<Entry>) returns (ok: bool)
    requires |values| <= 256 && MIN_LOG <= log <= MAX_LOG && entries.Length == MAXIMUM_SIZE
    requires |LowOnes(values, 0)| <= Size(log)
    modifies entries
    ensures ok <==> ValidCounts(values, log)
    ensures ok ==> Size(log) <= entries.Length && IsTable(entries[..Size(log)], values, log)
  {
    SizeBound(log);
    var symbolNext := new nat[256];
    hide Size, LowOnes, Total, Spread, IsTable, Weight, TopHolds, CountsNoted;
    var highThreshold, total, position;
    ok, highThreshold, total := PlaceLow(values, log, entries, symbolNext);
    if !ok || total != Size(log) {
      return false;
    }
    position := SpreadSymbols(values, log, entries, highThreshold);
    if position != 0 {
      return false;
    }
    ok := FillStates(values, log, entries, symbolNext);
  }

  /** The beginning of fse_decompress_bytes: the construction does not fail for counts that were read. */
  method ReadTable(source: bytes, maximumTableLog: nat, entries: array<Entry>) returns (counts: Option<Counts>)
    requires entries.Length == MAXIMUM_SIZE
    modifies entries
    ensures counts.Some? <==>
      && ReadCounts(source, 255).Some?
      && ReadCounts(source, 255).value.tableLog <= maximumTableLog && ReadCounts(source, 255).value.bytesConsumed < |source|
    ensures counts.Some? ==> counts == ReadCounts(source, 255) && |counts.value.values| == 256 && counts.value.maximumSymbol < 256
    ensures counts.Some? ==> Size(counts.value.tableLog) <= entries.Length
    ensures counts.Some? ==>
      IsTable(entries[..Size(counts.value.tableLog)], counts.value.values[..counts.value.maximumSymbol + 1], counts.value.tableLog)
  {
    hide ReadCounts, Size, LowOnes, Occurrences, Total, IsTable;
    counts := ReadNormalizedCounts(source, 255);
    if counts.None? || maximumTableLog < counts.value.tableLog || |source| <= counts.value.bytesConsumed {
      return None;
    }
    AcceptedCountsFill(source, 255);
    Lengths(counts.value.values[..counts.value.maximumSymbol + 1], 0);
    var ok := BuildTable(counts.value.values[..counts.value.maximumSymbol + 1], counts.value.tableLog, entries);
    assert ok;
  }
}
