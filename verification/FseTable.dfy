/** An FSE decoding table: which symbol is in which cell, what the cell says about the next state, and
    that decoding with it inverts encoding. */
module FseTable {
  import opened Arithmetic
  import opened FrameFormat
  import opened FseSpread

  // ---- The normalized counts ----

  /** How many cells a symbol gets: a count of -1 stands for one cell at the top. */
  function Weight(count: int): nat {
    if count == -1 then 1 else if count < 0 then 0 else count
  }

  function Total(values: seq<int>): nat {
    if values == [] then 0 else Weight(values[0]) + Total(values[1..])
  }

  function Repeat(symbol: nat, n: nat): (s: seq<nat>)
    ensures |s| == n && multiset(s)[symbol] == n && forall x | x != symbol :: multiset(s)[x] == 0
  {
    if n == 0 then [] else [symbol] + Repeat(symbol, n - 1)
  }

  /** The symbols from `from` on with positive counts, each as often as it counts. */
  function Occurrences(values: seq<int>, from: nat): seq<nat> {
    if values == [] then []
    else Repeat(from, if values[0] < 0 then 0 else values[0]) + Occurrences(values[1..], from + 1)
  }

  /** The symbols from `from` on with the count -1. */
  function LowOnes(values: seq<int>, from: nat): seq<nat> {
    if values == [] then []
    else Repeat(from, if values[0] == -1 then 1 else 0) + LowOnes(values[1..], from + 1)
  }

  lemma {:induction false} Lengths(values: seq<int>, from: nat)
    ensures |Occurrences(values, from)| + |LowOnes(values, from)| == Total(values)
  {
    if values != [] {
      Lengths(values[1..], from + 1);
    }
  }

  lemma MultisetAdds(a: seq<nat>, b: seq<nat>, s: nat)
    ensures multiset(a + b)[s] == multiset(a)[s] + multiset(b)[s]
  {
  }

  lemma {:induction false} InOccurrences(values: seq<int>, from: nat, s: nat)
    ensures multiset(Occurrences(values, from))[s]
         == if from <= s < from + |values| && 0 < values[s - from] then values[s - from] else 0
  {
    if values != [] {
      InOccurrences(values[1..], from + 1, s);
      MultisetAdds(Repeat(from, if values[0] < 0 then 0 else values[0]), Occurrences(values[1..], from + 1), s);
      hide Repeat;
    }
  }

  lemma {:induction false} InLowOnes(values: seq<int>, from: nat, s: nat)
    ensures multiset(LowOnes(values, from))[s]
         == if from <= s < from + |values| && values[s - from] == -1 then 1 else 0
  {
    if values != [] {
      InLowOnes(values[1..], from + 1, s);
      MultisetAdds(Repeat(from, if values[0] == -1 then 1 else 0), LowOnes(values[1..], from + 1), s);
      hide Repeat;
    }
  }

  predicate ValidCounts(values: seq<int>, log: nat) {
    && MIN_LOG <= log <= MAX_LOG && |values| <= 256 && (forall i | 0 <= i < |values| :: -1 <= values[i]) && Total(values) == Size(log)
  }

  // ---- The symbols in the cells ----

  /** The walk puts the occurrences into the cells below the top, in its order, and the symbols of
      low probability take the top, from above. */
  ghost predicate Spread(symbols: seq<nat>, values: seq<int>, log: nat)
    requires |symbols| == Size(log)
  {
    var occurrences, low := Occurrences(values, 0), LowOnes(values, 0);
    var cells := Cells(log, |occurrences|);
    && |cells| == |occurrences| && |occurrences| + |low| == Size(log)
    && (forall j | 0 <= j < |cells| :: cells[j] < |symbols| && symbols[cells[j]] == occurrences[j])
    && (forall j | 0 <= j < |low| :: symbols[Size(log) - 1 - j] == low[j])
  }

  function Gather(symbols: seq<nat>, cells: seq<nat>): (s: seq<nat>)
    requires AllLess(cells, |symbols|)
    ensures |s| == |cells| && forall j | 0 <= j < |s| :: s[j] == symbols[cells[j]]
  {
    seq(|cells|, j requires 0 <= j < |cells| => symbols[cells[j]])
  }

  lemma MultisetWithout(s: seq<nat>, i: nat)
    requires i < |s|
    ensures multiset(s) == multiset(Without(s, i)) + multiset{s[i]}
  {
    assert s == s[..i] + [s[i]] + s[i + 1..];
  }

  lemma LastCell(cells: seq<nat>) returns (i: nat)
    requires Permutes(cells) && cells != []
    ensures i < |cells| && cells[i] == |cells| - 1 && Permutes(Without(cells, i))
    ensures AllLess(cells, |cells|) && AllLess(Without(cells, i), |cells| - 1)
  {
    var n := |cells|;
    assert n - 1 in cells;
    i :| i < n && cells[i] == n - 1;
    WithoutDistinct(cells, i);
    var rest := Without(cells, i);
    forall j | 0 <= j < |rest| ensures rest[j] < n - 1 {
      assert rest[j] in rest;
    }
  }

  lemma {:induction false} GatherKeeps(symbols: seq<nat>, cells: seq<nat>)
    requires |cells| == |symbols| && Permutes(cells) && AllLess(cells, |symbols|)
    ensures multiset(Gather(symbols, cells)) == multiset(symbols)
    decreases |symbols|
  {
    hide Permutes;
    var n := |symbols|;
    if n == 0 {
      assert Gather(symbols, cells) == [];
    } else {
      var i := LastCell(cells);
      GatherKeeps(symbols[..n - 1], Without(cells, i));
      GatherWithout(symbols, cells, i);
      hide AllLess;
      MultisetWithout(Gather(symbols, cells), i);
      MultisetWithout(symbols, n - 1);
      assert Without(symbols, n - 1) == symbols[..n - 1];
    }
  }

  lemma GatherWithout(symbols: seq<nat>, cells: seq<nat>, i: nat)
    requires i < |cells| && AllLess(cells, |symbols|) && 0 < |symbols| && AllLess(Without(cells, i), |symbols| - 1)
    ensures Gather(symbols[..|symbols| - 1], Without(cells, i)) == Without(Gather(symbols, cells), i)
  {
    var rest := Without(cells, i);
    forall j | 0 <= j < |rest|
      ensures Gather(symbols[..|symbols| - 1], rest)[j] == Without(Gather(symbols, cells), i)[j]
    {
      assert rest[j] == cells[if j < i then j else j + 1];
    }
  }

  /** All cells: those of the walk, and the top. */
  function AllCells(log: nat, free: nat): seq<nat>
    requires free <= Size(log)
  {
    Cells(log, free) + seq(Size(log) - free, j requires 0 <= j < Size(log) - free => Size(log) - 1 - j)
  }

  lemma AllCellsPermute(log: nat, free: nat)
    requires MIN_LOG <= log && free <= Size(log)
    ensures Permutes(AllCells(log, free)) && |AllCells(log, free)| == Size(log)
  {
    SpreadIsPermutation(log, free);
    var n, cells, all := Size(log), Cells(log, free), AllCells(log, free);
    hide Cells, Size;
    forall i, j | 0 <= i < j < |all| ensures all[i] != all[j] {
      assert i < free ==> all[i] == cells[i] && cells[i] in cells;
    }
    forall x <- all ensures x < n {
      var i: nat :| i < |all| && all[i] == x;
      assert i < free ==> x in cells;
    }
    forall x: nat | x < n ensures x in all {
      if x < free {
        assert x in cells;
      } else {
        assert all[free + (n - 1 - x)] == x;
      }
    }
  }

  /** Every symbol gets as many cells as its count says. */
  lemma {:induction false} SpreadCounts(symbols: seq<nat>, values: seq<int>, log: nat, s: nat)
    requires ValidCounts(values, log) && |symbols| == Size(log) && Spread(symbols, values, log)
    ensures multiset(symbols)[s] == if s < |values| then Weight(values[s]) else 0
  {
    hide Spread, Gather, AllCells, Occurrences, LowOnes, Weight, ValidCounts, Size;
    SpreadGathers(symbols, values, log);
    MultisetAdds(Occurrences(values, 0), LowOnes(values, 0), s);
    InBoth(values, s);
  }

  lemma InBoth(values: seq<int>, s: nat)
    ensures multiset(Occurrences(values, 0))[s] + multiset(LowOnes(values, 0))[s]
         == if s < |values| then Weight(values[s]) else 0
  {
    hide Occurrences, LowOnes;
    InOccurrences(values, 0, s);
    InLowOnes(values, 0, s);
  }

  lemma SpreadGathers(symbols: seq<nat>, values: seq<int>, log: nat)
    requires ValidCounts(values, log) && |symbols| == Size(log) && Spread(symbols, values, log)
    ensures var free := |Occurrences(values, 0)|;
      && free <= Size(log) && AllLess(AllCells(log, free), |symbols|)
      && Gather(symbols, AllCells(log, free)) == Occurrences(values, 0) + LowOnes(values, 0)
      && multiset(Gather(symbols, AllCells(log, free))) == multiset(symbols)
  {
    var occurrences, low := Occurrences(values, 0), LowOnes(values, 0);
    var cells := AllCells(log, |occurrences|);
    AllCellsPermute(log, |occurrences|);
    CellsLess(cells);
    hide Occurrences, LowOnes, Permutes, ValidCounts;
    GatherIs(symbols, values, log);
    hide AllLess;
    GatherKeeps(symbols, cells);
  }

  lemma GatherIs(symbols: seq<nat>, values: seq<int>, log: nat)
    requires |symbols| == Size(log) && Spread(symbols, values, log)
    requires AllLess(AllCells(log, |Occurrences(values, 0)|), |symbols|)
    ensures Gather(symbols, AllCells(log, |Occurrences(values, 0)|)) == Occurrences(values, 0) + LowOnes(values, 0)
  {
    hide Cells, Occurrences, LowOnes, Size;
  }

  lemma CellsLess(cells: seq<nat>)
    requires Permutes(cells)
    ensures AllLess(cells, |cells|)
  {
  }

  lemma SymbolsAreKnown(symbols: seq<nat>, values: seq<int>, log: nat, i: nat)
    requires ValidCounts(values, log) && |symbols| == Size(log) && Spread(symbols, values, log) && i < |symbols|
    ensures symbols[i] < |values| && multiset(symbols[..i])[symbols[i]] < Weight(values[symbols[i]]) <= Size(log)
  {
    hide Spread, Weight, Size;
    var s := symbols[i];
    SpreadCounts(symbols, values, log, s);
    assert symbols == symbols[..i] + [s] + symbols[i + 1..];
    assert s in symbols;
    if s < |values| {
      WeightInTotal(values, s);
    }
  }

  lemma {:induction false} WeightInTotal(values: seq<int>, s: nat)
    requires s < |values|
    ensures Weight(values[s]) <= Total(values)
  {
    if s != 0 {
      WeightInTotal(values[1..], s - 1);
    }
  }

  // ---- The entries ----

  datatype Entry = Entry(nextState: nat, numberBits: nat, symbol: nat)

  /** std::bit_width */
  function BitWidth(n: nat): nat {
    if n == 0 then 0 else 1 + BitWidth(n / 2)
  }

  lemma {:induction false} WidthIs(n: nat, w: nat)
    requires 0 < n
    ensures Pow2(w) <= n < 2 * Pow2(w) <==> BitWidth(n) == w + 1
    decreases n
  {
    Pow2Positive(w);
    if n == 1 {
      assert BitWidth(1) == 1 + BitWidth(0);
      assert w != 0 ==> Pow2(w) == 2 * Pow2(w - 1);
      if w != 0 {
        Pow2Positive(w - 1);
      }
    } else if w != 0 {
      WidthIs(n / 2, w - 1);
    } else {
      assert BitWidth(n / 2) >= 1;
    }
  }

  lemma {:induction false} Pow2Adds(a: nat, b: nat)
    ensures Pow2(a + b) == Pow2(a) * Pow2(b)
  {
    if a != 0 {
      Pow2Adds(a - 1, b);
      Twice(Pow2(a - 1), Pow2(b));
    }
  }

  lemma Twice(a: nat, b: nat)
    ensures 2 * (a * b) == (2 * a) * b
  {
  }

  lemma NextFits(log: nat, next: nat)
    requires 1 <= next < 2 * Size(log)
    ensures 1 <= BitWidth(next) <= log + 1
    ensures var bits := log + 1 - BitWidth(next); Size(log) <= next * Pow2(bits) && (next + 1) * Pow2(bits) <= 2 * Size(log)
  {
    var w := BitWidth(next) - 1;
    WidthIs(next, w);
    WidthBound(next, log);
    Pow2Adds(w, log - w);
    assert Size(log) == Pow2(w) * Pow2(log - w);
    hide Pow2, Size, BitWidth;
    Scale(Pow2(w), next, Pow2(log - w));
    Scale(next + 1, 2 * Pow2(w), Pow2(log - w));
    Twice(Pow2(w), Pow2(log - w));
  }

  lemma Scale(a: nat, b: nat, m: nat)
    requires a <= b
    ensures a * m <= b * m
  {
  }

  lemma {:induction false} WidthBound(n: nat, log: nat)
    requires n < 2 * Pow2(log)
    ensures BitWidth(n) <= log + 1
  {
    if log == 0 {
      assert n == 1 ==> BitWidth(1) == 1 + BitWidth(0);
    } else if n != 0 {
      WidthBound(n / 2, log - 1);
    }
  }

  /** The entry of a cell whose symbol has the next-state number `next`. */
  function EntryFor(log: nat, next: nat, symbol: nat): Entry
    requires 1 <= next < 2 * Size(log)
  {
    NextFits(log, next);
    var bits := log + 1 - BitWidth(next);
    Entry(next * Pow2(bits) - Size(log), bits, symbol)
  }

  function SymbolsOf(entries: seq<Entry>): (s: seq<nat>)
    ensures |s| == |entries| && forall i | 0 <= i < |s| :: s[i] == entries[i].symbol
  {
    seq(|entries|, i requires 0 <= i < |entries| => entries[i].symbol)
  }

  /** The next-state number of a cell: the count of its symbol, and the cells before that have it too. */
  function Number(symbols: seq<nat>, values: seq<int>, i: nat): nat
    requires i < |symbols| && symbols[i] < |values|
  {
    Weight(values[symbols[i]]) + multiset(symbols[..i])[symbols[i]]
  }

  lemma NumberFits(symbols: seq<nat>, values: seq<int>, log: nat, i: nat)
    requires ValidCounts(values, log) && |symbols| == Size(log) && Spread(symbols, values, log) && i < |symbols|
    ensures symbols[i] < |values| && 1 <= Number(symbols, values, i) < 2 * Size(log)
    ensures Weight(values[symbols[i]]) <= Number(symbols, values, i) < 2 * Weight(values[symbols[i]])
  {
    hide Spread, Weight, Size;
    SymbolsAreKnown(symbols, values, log, i);
  }

  predicate IsEntry(e: Entry, symbols: seq<nat>, values: seq<int>, log: nat, i: nat)
    requires i < |symbols|
  {
    && symbols[i] < |values| && 1 <= Number(symbols, values, i) < 2 * Size(log)
    && e == EntryFor(log, Number(symbols, values, i), symbols[i])
  }

  /** What build_fse_table builds. */
  ghost predicate IsTable(entries: seq<Entry>, values: seq<int>, log: nat) {
    var symbols := SymbolsOf(entries);
    && |entries| == Size(log) && Spread(symbols, values, log)
    && forall i | 0 <= i < |entries| :: IsEntry(entries[i], symbols, values, log, i)
  }
}
