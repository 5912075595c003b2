/** Where the symbols of an FSE table are, from the counts alone: the walk goes on by 5/8 of the table and
    three cells with every step, and an occurrence takes the next cell of it that is not at the top. */
module FseWalk {
  import opened Arithmetic
  import opened Bytes
  import opened FrameFormat
  import opened FseSpread
  import opened FseTable

  /** The cell that the walk comes to with its step number `k`. */
  function CellAfter(log: nat, k: nat): (cell: nat)
    requires MIN_LOG <= log
    ensures cell < Size(log)
  {
    k * (5 * Size(log - 3) + 3) % Size(log)
  }

  lemma EightParts(size: nat, part: nat)
    requires size == 8 * part
    ensures size / 2 + size / 8 == 5 * part
  {
    Quotient(size, 2, 4 * part, 0);
    Quotient(size, 8, part, 0);
  }

  lemma WalkIs(log: nat, k: nat)
    requires MIN_LOG <= log
    ensures Pos(log, k) == CellAfter(log, k)
  {
    assert Pow2(log) == 2 * Pow2(log - 1) && Pow2(log - 1) == 2 * Pow2(log - 2) && Pow2(log - 2) == 2 * Pow2(log - 3);
    EightParts(Size(log), Pow2(log - 3));
  }

  /** How many of the first `k` cells of the walk are below `free`. */
  function FilledBefore(log: nat, free: nat, k: nat): (n: nat)
    requires MIN_LOG <= log
    ensures n <= k
  {
    if k == 0 then 0 else FilledBefore(log, free, k - 1) + if CellAfter(log, k - 1) < free then 1 else 0
  }

  /** The cells for the symbols in front, if each takes as many as its count says. */
  function High(values: seq<int>): nat {
    if values == [] then 0 else (if values[0] < 0 then 0 else values[0]) + High(values[1..])
  }

  /** The number of symbols of low probability. */
  function Low(values: seq<int>): nat {
    if values == [] then 0 else (if values[0] == -1 then 1 else 0) + Low(values[1..])
  }

  lemma {:induction false} HighAndLow(values: seq<int>, from: nat)
    ensures |Occurrences(values, from)| == High(values) && |LowOnes(values, from)| == Low(values)
  {
    if values != [] {
      HighAndLow(values[1..], from + 1);
    }
  }

  lemma FirstOfPrefix(values: seq<int>, s: nat)
    requires 0 < s <= |values|
    ensures values[..s][0] == values[0] && values[..s][1..] == values[1..][..s - 1]
  {
  }

  lemma {:induction false} OccurrencesOf(values: seq<int>, from: nat, s: nat, r: nat)
    requires s < |values| && r < values[s]
    ensures var n := High(values[..s]) + r; n < |Occurrences(values, from)| && Occurrences(values, from)[n] == from + s
  {
    if s == 0 {
      assert values[..0] == [];
      RepeatAt(from, values[0], r);
    } else {
      OccurrencesOf(values[1..], from + 1, s - 1, r);
      FirstOfPrefix(values, s);
    }
  }

  lemma {:induction false} LowOnesOf(values: seq<int>, from: nat, s: nat)
    requires s < |values| && values[s] == -1
    ensures var n := Low(values[..s]); n < |LowOnes(values, from)| && LowOnes(values, from)[n] == from + s
  {
    hide Low, LowOnes, Repeat;
    FirstLow(values, from);
    if s == 0 {
      assert values[..0] == [];
      NoLow();
      RepeatAt(from, 1, 0);
    } else {
      LowOnesOf(values[1..], from + 1, s - 1);
      FirstOfPrefix(values, s);
      FirstLow(values[..s], from);
    }
  }

  lemma FirstLow(values: seq<int>, from: nat)
    requires values != []
    ensures var n := if values[0] == -1 then 1 else 0;
      && LowOnes(values, from) == Repeat(from, n) + LowOnes(values[1..], from + 1)
      && Low(values) == n + Low(values[1..])
  {
    hide Repeat;
  }

  lemma NoLow()
    ensures Low([]) == 0
  {
  }

  lemma {:induction false} RepeatAt(symbol: nat, n: nat, r: nat)
    requires r < n
    ensures Repeat(symbol, n)[r] == symbol
  {
    if r != 0 {
      RepeatAt(symbol, n - 1, r - 1);
    }
  }

  // ---- The cells below the top ----

  lemma {:induction false} BelowAppend(a: seq<nat>, b: seq<nat>, free: nat)
    ensures Below(a + b, free) == Below(a, free) + Below(b, free)
  {
    hide Below;
    if a == [] {
      BelowNone(free);
      assert a + b == b;
    } else {
      BelowAppend(a[1..], b, free);
      FirstOfSum(a, b);
      BelowFirst(a, free);
      BelowFirst(a + b, free);
      ConcatAssociates([a[0]], Below(a[1..], free), Below(b, free));
    }
  }

  lemma FirstOfSum(a: seq<nat>, b: seq<nat>)
    requires a != []
    ensures (a + b)[0] == a[0] && (a + b)[1..] == a[1..] + b
  {
  }

  lemma BelowNone(free: nat)
    ensures Below([], free) == []
  {
  }

  lemma BelowFirst(s: seq<nat>, free: nat)
    requires s != []
    ensures Below(s, free) == if s[0] < free then [s[0]] + Below(s[1..], free) else Below(s[1..], free)
  {
  }

  lemma BelowOne(cell: nat, free: nat)
    ensures Below([cell], free) == if cell < free then [cell] else []
  {
    assert Below([cell][1..], free) == [];
  }

  lemma {:induction false} FilledIs(log: nat, free: nat, k: nat)
    requires MIN_LOG <= log
    ensures |Below(Positions(log, 0, k), free)| == FilledBefore(log, free, k)
  {
    if k != 0 {
      FilledIs(log, free, k - 1);
      assert Positions(log, 0, k) == Positions(log, 0, k - 1) + [Pos(log, k - 1)];
      BelowAppend(Positions(log, 0, k - 1), [Pos(log, k - 1)], free);
      WalkIs(log, k - 1);
      BelowOne(Pos(log, k - 1), free);
    } else {
      assert Positions(log, 0, 0) == [];
    }
  }

  /** A cell of the walk below `free` has as many cells before it as the walk filled. */
  lemma {:induction false} CellIs(log: nat, free: nat, k: nat)
    requires MIN_LOG <= log && k < Size(log) && CellAfter(log, k) < free
    ensures var n := FilledBefore(log, free, k); n < |Cells(log, free)| && Cells(log, free)[n] == CellAfter(log, k)
  {
    var all := Positions(log, 0, Size(log));
    WalkIs(log, k);
    FilledIs(log, free, k);
    hide CellAfter, Pos, FilledBefore;
    assert all[..k] == Positions(log, 0, k);
    assert all == all[..k] + ([all[k]] + all[k + 1..]);
    BelowAppend(all[..k], [all[k]] + all[k + 1..], free);
    BelowAppend([all[k]], all[k + 1..], free);
    BelowOne(all[k], free);
  }

  // ---- The symbols ----

  lemma Free(entries: seq<Entry>, values: seq<int>, log: nat) returns (free: nat)
    requires IsTable(entries, values, log)
    ensures free == |Occurrences(values, 0)| == Size(log) - Low(values)
  {
    hide Occurrences, LowOnes, Low, Cells, IsEntry, Size;
    HighAndLow(values, 0);
    free := |Occurrences(values, 0)|;
  }

  lemma CellHolds(entries: seq<Entry>, values: seq<int>, log: nat, n: nat)
    requires IsTable(entries, values, log) && n < |Occurrences(values, 0)|
    ensures var cells := Cells(log, |Occurrences(values, 0)|);
      n < |cells| && cells[n] < |entries| && entries[cells[n]].symbol == Occurrences(values, 0)[n]
  {
    hide Occurrences, LowOnes, Cells, IsEntry, Size;
    var cells := Cells(log, |Occurrences(values, 0)|);
    assert cells[n] < |SymbolsOf(entries)|;
  }

  /** The cell of a step of the walk holds the symbol in whose share of the occurrences its turn is. */
  lemma SymbolOnTheWalk(entries: seq<Entry>, values: seq<int>, log: nat, s: nat, k: nat)
    requires MIN_LOG <= log && IsTable(entries, values, log) && s < |values|
    requires k < Size(log) && CellAfter(log, k) < Size(log) - Low(values)
    requires High(values[..s]) <= FilledBefore(log, Size(log) - Low(values), k) < High(values[..s]) + values[s]
    ensures CellAfter(log, k) < |entries| && entries[CellAfter(log, k)].symbol == s
  {
    hide CellAfter, FilledBefore, High, Low, Cells, Size, IsTable;
    var free := Free(entries, values, log);
    var n := FilledBefore(log, free, k);
    CellIs(log, free, k);
    OccurrencesOf(values, 0, s, n - High(values[..s]));
    CellHolds(entries, values, log, n);
  }

  /** The symbols of low probability have the top, in their order from above. */
  lemma SymbolAtTheTop(entries: seq<Entry>, values: seq<int>, log: nat, s: nat)
    requires IsTable(entries, values, log) && s < |values| && values[s] == -1
    ensures var cell := Size(log) - 1 - Low(values[..s]); 0 <= cell < |entries| && entries[cell].symbol == s
  {
    hide High, Low, Cells, Pow2, IsEntry;
    LowOnesOf(values, 0, s);
    assert SymbolsOf(entries)[Size(log) - 1 - Low(values[..s])] == s;
  }

  lemma {:induction false} NoneLow(values: seq<int>)
    requires forall i | 0 <= i < |values| :: values[i] != -1
    ensures Low(values) == 0
  {
    if values != [] {
      NoneLow(values[1..]);
    }
  }

  lemma {:induction false} AllFilled(log: nat, k: nat)
    requires MIN_LOG <= log
    ensures FilledBefore(log, Size(log), k) == k
  {
    if k != 0 {
      AllFilled(log, k - 1);
    }
  }

  /** Without a symbol of low probability, every occurrence is where its number times the step says. */
  lemma OccurrenceIsWhere(entries: seq<Entry>, values: seq<int>, log: nat, s: nat, r: nat)
    requires MIN_LOG <= log && IsTable(entries, values, log) && s < |values| && r < values[s]
    requires forall i | 0 <= i < |values| :: values[i] != -1
    ensures var cell := CellAfter(log, High(values[..s]) + r); cell < |entries| && entries[cell].symbol == s
  {
    hide IsTable, CellAfter, FilledBefore, High, Low, Size;
    var k := High(values[..s]) + r;
    var free := Free(entries, values, log);
    NoneLow(values);
    AllFilled(log, k);
    OccurrencesOf(values, 0, s, r);
    SymbolOnTheWalk(entries, values, log, s, k);
  }
}
