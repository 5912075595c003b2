/** The table of the predefined distribution of literal length codes, entry by entry (section 3.1.1.3.2.2.1
    of RFC 8878 has the distribution, its appendix A the table). */
module FseDefaults {
  import opened Arithmetic
  import opened Bytes
  import opened FrameFormat
  import opened FseSpread
  import opened FseTable
  import opened FseWalk

  function LiteralLengthCounts(): seq<int> {
    [
      4, 3, 2, 2, 2, 2, 2, 2, 2, 2, 2, 2, 2, 1, 1, 1,
      2, 2, 2, 2, 2, 2, 2, 2, 2, 3, 2, 1, 1, 1, 1, 1, -1, -1, -1, -1
    ]
  }

  // ---- The cells of a symbol, in their order ----

  predicate Increasing(cells: seq<nat>) {
    forall i, j | 0 <= i < j < |cells| :: cells[i] < cells[j]
  }

  predicate AllHold(symbols: seq<nat>, cells: seq<nat>, s: nat) {
    forall i | 0 <= i < |cells| :: cells[i] < |symbols| && symbols[cells[i]] == s
  }

  lemma CountGrows(symbols: seq<nat>, s: nat, i: nat, j: nat)
    requires i < j <= |symbols| && symbols[i] == s
    ensures multiset(symbols[..i])[s] + 1 <= multiset(symbols[..j])[s]
  {
    assert symbols[..j] == symbols[..i] + [s] + symbols[i + 1..j];
  }

  lemma {:induction false} CellsBefore(symbols: seq<nat>, cells: seq<nat>, s: nat, r: nat)
    requires Increasing(cells) && AllHold(symbols, cells, s) && r < |cells|
    ensures r <= multiset(symbols[..cells[r]])[s]
  {
    if r != 0 {
      CellsBefore(symbols, cells, s, r - 1);
      CountGrows(symbols, s, cells[r - 1], cells[r]);
    }
  }

  lemma {:induction false} CellsFrom(symbols: seq<nat>, cells: seq<nat>, s: nat, r: nat)
    requires Increasing(cells) && AllHold(symbols, cells, s) && r < |cells|
    ensures multiset(symbols[..cells[r]])[s] + |cells| - r <= multiset(symbols)[s]
    decreases |cells| - r
  {
    if r == |cells| - 1 {
      CountGrows(symbols, s, cells[r], |symbols|);
      assert symbols[..|symbols|] == symbols;
    } else {
      CellsFrom(symbols, cells, s, r + 1);
      CountGrows(symbols, s, cells[r], cells[r + 1]);
    }
  }

  /** With all cells of a symbol known, so are their entries. */
  lemma EntryOfCell(entries: seq<Entry>, values: seq<int>, log: nat, s: nat, cells: seq<nat>, r: nat)
    requires ValidCounts(values, log) && IsTable(entries, values, log) && s < |values|
    requires Increasing(cells) && AllHold(SymbolsOf(entries), cells, s) && |cells| == Weight(values[s]) && r < |cells|
    ensures cells[r] < |entries| && 1 <= |cells| + r < 2 * Size(log)
    ensures entries[cells[r]] == EntryFor(log, |cells| + r, s)
  {
    hide Spread, Weight, Size, ValidCounts, EntryFor, Increasing, AllHold, Number;
    RankOfCell(SymbolsOf(entries), values, log, s, cells, r);
    NumberOfCell(entries, values, log, cells[r]);
  }

  lemma RankOfCell(symbols: seq<nat>, values: seq<int>, log: nat, s: nat, cells: seq<nat>, r: nat)
    requires ValidCounts(values, log) && |symbols| == Size(log) && Spread(symbols, values, log) && s < |values|
    requires Increasing(cells) && AllHold(symbols, cells, s) && |cells| == Weight(values[s]) && r < |cells|
    ensures cells[r] < |symbols| && symbols[cells[r]] == s && Number(symbols, values, cells[r]) == |cells| + r
  {
    hide Spread, Weight, Size, ValidCounts;
    SpreadCounts(symbols, values, log, s);
    CellsBefore(symbols, cells, s, r);
    CellsFrom(symbols, cells, s, r);
  }

  lemma NumberOfCell(entries: seq<Entry>, values: seq<int>, log: nat, i: nat)
    requires IsTable(entries, values, log) && i < |entries|
    ensures IsEntry(entries[i], SymbolsOf(entries), values, log, i)
  {
    hide IsEntry, Spread, Size;
  }

  // ---- The distribution of literal length codes ----

  function Count(s: nat): (n: int)
    ensures n <= 4
  {
    if s == 0 then 4
    else if s == 1 || s == 25 then 3
    else if 13 <= s <= 15 || 27 <= s <= 31 then 1
    else if s <= 26 then 2
    else -1
  }

  predicate AreDefault(counts: seq<int>) {
    |counts| == 36 && forall s | 0 <= s < 36 :: counts[s] == Count(s)
  }

  lemma DefaultCounts()
    ensures AreDefault(LiteralLengthCounts())
  {
    forall s: nat | s < 36 ensures LiteralLengthCounts()[s] == Count(s) {
      CountIs(s);
    }
  }

  lemma CountIs(s: nat)
    requires s < 36
    ensures |LiteralLengthCounts()| == 36 && LiteralLengthCounts()[s] == Count(s)
  {
  }

  /** The occurrences before those of a symbol. */
  function Start(s: nat): nat {
    if s == 0 then 0
    else if s == 1 then 4
    else if s <= 12 then 2 * s + 3
    else if s <= 16 then s + 16
    else if s <= 25 then 2 * s
    else if s == 26 then 53
    else if s <= 32 then s + 28
    else 60
  }

  lemma HighNext(values: seq<int>, s: nat)
    requires s < |values|
    ensures High(values[..s + 1]) == High(values[..s]) + if values[s] < 0 then 0 else values[s]
    ensures Low(values[..s + 1]) == Low(values[..s]) + if values[s] == -1 then 1 else 0
  {
    if s == 0 {
      assert values[..0] == [] && values[..1] == [values[0]];
      assert values[..1][1..] == [];
    } else {
      HighNext(values[1..], s - 1);
      assert values[..s][1..] == values[1..][..s - 1] && values[..s + 1][1..] == values[1..][..s];
    }
  }

  lemma {:induction false} StartIs(counts: seq<int>, s: nat)
    requires AreDefault(counts) && s <= 36
    ensures High(counts[..s]) == Start(s) && Low(counts[..s]) == if s <= 32 then 0 else s - 32
  {
    if s == 0 {
      assert counts[..0] == [];
    } else {
      StartIs(counts, s - 1);
      HighNext(counts, s - 1);
      hide High, Low;
    }
  }

  /** The occurrence that is put down with step `k`: four steps lead to the top. */
  function Turn(k: nat): int {
    k - (if 52 < k then 1 else 0) - (if 55 < k then 1 else 0) - (if 58 < k then 1 else 0) - (if 61 < k then 1 else 0)
  }

  lemma StepIs(k: nat)
    ensures CellAfter(6, k) == k * 43 % 64
  {
    assert Pow2(3) == 8 && Pow2(6) == 64;
  }

  lemma {:induction false} TurnIs(k: nat)
    requires k <= 64
    ensures FilledBefore(6, 60, k) == Turn(k)
  {
    if k != 0 {
      TurnIs(k - 1);
      StepIs(k - 1);
      ToTheTop(k - 1);
    }
  }

  lemma ToTheTop(k: nat)
    requires k < 64
    ensures k * 43 % 64 >= 60 <==> k == 52 || k == 55 || k == 58 || k == 61
  {
  }

  lemma DefaultIsValid(counts: seq<int>, log: nat)
    requires log == 6 && AreDefault(counts)
    ensures ValidCounts(counts, log)
  {
    hide High, Low, Total, Occurrences, LowOnes;
    assert counts[..36] == counts;
    StartIs(counts, 36);
    HighAndLow(counts, 0);
    Lengths(counts, 0);
    assert Pow2(6) == 64;
  }

  // ---- The entries of a symbol ----

  /** What is built from the distribution with a table of 64 cells. */
  ghost predicate IsDefaultTable(entries: seq<Entry>, counts: seq<int>, log: nat) {
    log == 6 && AreDefault(counts) && IsTable(entries, counts, log)
  }

  /** The entry for a number below 8. */
  function Coded(number: nat, symbol: nat): Entry {
    if number <= 1 then Entry(0, 6, symbol)
    else if number <= 3 then Entry(32 * number - 64, 5, symbol)
    else Entry(16 * number - 64, 4, symbol)
  }

  lemma CodedIs(number: nat, symbol: nat)
    requires 1 <= number < 8
    ensures EntryFor(6, number, symbol) == Coded(number, symbol)
  {
    assert Pow2(4) == 16 && Pow2(5) == 32 && Pow2(6) == 64;
    WidthIs(number, if number == 1 then 0 else if number <= 3 then 1 else 2);
  }

  lemma StepTo(cell: nat)
    requires cell < 64
    ensures CellAfter(6, 3 * cell % 64) == cell
  {
    var q := 3 * cell / 64;
    var k := 3 * cell % 64;
    StepIs(k);
    assert k * 43 == 64 * (2 * cell - 43 * q) + cell;
    Quotient(k * 43, 64, 2 * cell - 43 * q, cell);
  }

  /** A cell whose turn is among those of the symbol. */
  predicate InShare(s: nat, cell: nat) {
    cell < 60 && Start(s) <= Turn(3 * cell % 64) < Start(s) + Count(s)
  }

  lemma InShareHolds(entries: seq<Entry>, counts: seq<int>, log: nat, s: nat, cell: nat)
    requires IsDefaultTable(entries, counts, log) && s < 32 && InShare(s, cell)
    ensures cell < |entries| && entries[cell].symbol == s
  {
    hide IsTable, CellAfter, High, Low, Turn, Count;
    var k := 3 * cell % 64;
    assert counts[..36] == counts;
    StartIs(counts, 36);
    StartIs(counts, s);
    TurnIs(k);
    StepTo(cell);
    SymbolOnTheWalk(entries, counts, log, s, k);
  }

  ghost predicate Holds(entries: seq<Entry>, cell: nat, e: Entry) {
    cell < |entries| && entries[cell] == e
  }

  lemma EntriesAre(entries: seq<Entry>, counts: seq<int>, log: nat, s: nat, cells: seq<nat>, r: nat)
    requires IsDefaultTable(entries, counts, log) && s < 36 && Weight(Count(s)) == |cells|
    requires Increasing(cells) && AllHold(SymbolsOf(entries), cells, s) && r < |cells|
    ensures Holds(entries, cells[r], Coded(|cells| + r, s))
  {
    hide IsTable, Coded, Increasing, AllHold, ValidCounts;
    DefaultIsValid(counts, log);
    CodedIs(|cells| + r, s);
    EntryOfCell(entries, counts, log, s, cells, r);
  }

  lemma Top(entries: seq<Entry>, counts: seq<int>, log: nat, s: nat)
    requires IsDefaultTable(entries, counts, log) && 32 <= s < 36
    ensures Holds(entries, 95 - s, Entry(0, 6, s))
  {
    hide IsTable, Low, High, ValidCounts;
    StartIs(counts, s);
    SymbolAtTheTop(entries, counts, log, s);
    assert Pow2(6) == 64;
    EntriesAre(entries, counts, log, s, [95 - s], 0);
  }

  lemma One(entries: seq<Entry>, counts: seq<int>, log: nat, s: nat, a: nat)
    requires IsDefaultTable(entries, counts, log) && s < 32 && Count(s) == 1 && InShare(s, a)
    ensures Holds(entries, a, Entry(0, 6, s))
  {
    hide IsDefaultTable, InShare;
    InShareHolds(entries, counts, log, s, a);
    EntriesAre(entries, counts, log, s, [a], 0);
  }

  lemma Two(entries: seq<Entry>, counts: seq<int>, log: nat, s: nat, a: nat, b: nat)
    requires IsDefaultTable(entries, counts, log) && s < 32 && Count(s) == 2 && a < b && InShare(s, a) && InShare(s, b)
    ensures Holds(entries, a, Entry(0, 5, s)) && Holds(entries, b, Entry(32, 5, s))
  {
    hide IsDefaultTable, InShare;
    InShareHolds(entries, counts, log, s, a);
    InShareHolds(entries, counts, log, s, b);
    EntriesAre(entries, counts, log, s, [a, b], 0);
    EntriesAre(entries, counts, log, s, [a, b], 1);
  }

  lemma Three(entries: seq<Entry>, counts: seq<int>, log: nat, s: nat, a: nat, b: nat, c: nat)
    requires IsDefaultTable(entries, counts, log) && s < 32 && Count(s) == 3
    requires a < b < c && InShare(s, a) && InShare(s, b) && InShare(s, c)
    ensures Holds(entries, a, Entry(32, 5, s)) && Holds(entries, b, Entry(0, 4, s)) && Holds(entries, c, Entry(16, 4, s))
  {
    hide IsDefaultTable, InShare;
    InShareHolds(entries, counts, log, s, a);
    InShareHolds(entries, counts, log, s, b);
    InShareHolds(entries, counts, log, s, c);
    EntriesAre(entries, counts, log, s, [a, b, c], 0);
    EntriesAre(entries, counts, log, s, [a, b, c], 1);
    EntriesAre(entries, counts, log, s, [a, b, c], 2);
  }

  lemma Four(entries: seq<Entry>, counts: seq<int>, log: nat, a: nat, b: nat, c: nat, d: nat)
    requires IsDefaultTable(entries, counts, log)
    requires a < b < c < d && InShare(0, a) && InShare(0, b) && InShare(0, c) && InShare(0, d)
    ensures Holds(entries, a, Entry(0, 4, 0)) && Holds(entries, b, Entry(16, 4, 0))
    ensures Holds(entries, c, Entry(32, 4, 0)) && Holds(entries, d, Entry(48, 4, 0))
  {
    hide IsDefaultTable, InShare;
    InShareHolds(entries, counts, log, 0, a);
    InShareHolds(entries, counts, log, 0, b);
    InShareHolds(entries, counts, log, 0, c);
    InShareHolds(entries, counts, log, 0, d);
    forall r | 0 <= r < 4 ensures Holds(entries, [a, b, c, d][r], Coded(4 + r, 0)) {
      EntriesAre(entries, counts, log, 0, [a, b, c, d], r);
    }
    assert [a, b, c, d][0] == a && [a, b, c, d][1] == b && [a, b, c, d][2] == c && [a, b, c, d][3] == d;
  }

  // ---- All entries of the table, symbol by symbol ----

  lemma LowCodes(entries: seq<Entry>, counts: seq<int>, log: nat)
    requires IsDefaultTable(entries, counts, log)
    ensures Holds(entries, 0, Entry(0, 4, 0)) && Holds(entries, 1, Entry(16, 4, 0)) && Holds(entries, 22, Entry(32, 4, 0)) && Holds(entries, 43, Entry(48, 4, 0))
    ensures Holds(entries, 2, Entry(32, 5, 1)) && Holds(entries, 23, Entry(0, 4, 1)) && Holds(entries, 44, Entry(16, 4, 1))
    ensures Holds(entries, 24, Entry(0, 5, 2)) && Holds(entries, 45, Entry(32, 5, 2))
    ensures Holds(entries, 3, Entry(0, 5, 3)) && Holds(entries, 46, Entry(32, 5, 3))
    ensures Holds(entries, 4, Entry(0, 5, 4)) && Holds(entries, 25, Entry(32, 5, 4))
    ensures Holds(entries, 26, Entry(0, 5, 5)) && Holds(entries, 47, Entry(32, 5, 5))
    ensures Holds(entries, 5, Entry(0, 5, 6)) && Holds(entries, 48, Entry(32, 5, 6))
    ensures Holds(entries, 6, Entry(0, 5, 7)) && Holds(entries, 27, Entry(32, 5, 7))
    ensures Holds(entries, 28, Entry(0, 5, 8)) && Holds(entries, 49, Entry(32, 5, 8))
    ensures Holds(entries, 7, Entry(0, 5, 9)) && Holds(entries, 50, Entry(32, 5, 9))
  {
    hide IsDefaultTable, Holds;
    Four(entries, counts, log, 0, 1, 22, 43);
    Three(entries, counts, log, 1, 2, 23, 44);
    Two(entries, counts, log, 2, 24, 45);
    Two(entries, counts, log, 3, 3, 46);
    Two(entries, counts, log, 4, 4, 25);
    Two(entries, counts, log, 5, 26, 47);
    Two(entries, counts, log, 6, 5, 48);
    Two(entries, counts, log, 7, 6, 27);
    Two(entries, counts, log, 8, 28, 49);
    Two(entries, counts, log, 9, 7, 50);
  }

  lemma MiddleCodes(entries: seq<Entry>, counts: seq<int>, log: nat)
    requires IsDefaultTable(entries, counts, log)
    ensures Holds(entries, 8, Entry(0, 5, 10)) && Holds(entries, 29, Entry(32, 5, 10))
    ensures Holds(entries, 30, Entry(0, 5, 11)) && Holds(entries, 51, Entry(32, 5, 11))
    ensures Holds(entries, 9, Entry(0, 5, 12)) && Holds(entries, 52, Entry(32, 5, 12))
    ensures Holds(entries, 31, Entry(0, 6, 13))
    ensures Holds(entries, 10, Entry(0, 6, 14))
    ensures Holds(entries, 53, Entry(0, 6, 15))
    ensures Holds(entries, 11, Entry(0, 5, 16)) && Holds(entries, 32, Entry(32, 5, 16))
    ensures Holds(entries, 33, Entry(0, 5, 17)) && Holds(entries, 54, Entry(32, 5, 17))
    ensures Holds(entries, 12, Entry(0, 5, 18)) && Holds(entries, 55, Entry(32, 5, 18))
    ensures Holds(entries, 13, Entry(0, 5, 19)) && Holds(entries, 34, Entry(32, 5, 19))
    ensures Holds(entries, 35, Entry(0, 5, 20)) && Holds(entries, 56, Entry(32, 5, 20))
    ensures Holds(entries, 14, Entry(0, 5, 21)) && Holds(entries, 57, Entry(32, 5, 21))
  {
    hide IsDefaultTable, Holds;
    Two(entries, counts, log, 10, 8, 29);
    Two(entries, counts, log, 11, 30, 51);
    Two(entries, counts, log, 12, 9, 52);
    One(entries, counts, log, 13, 31);
    One(entries, counts, log, 14, 10);
    One(entries, counts, log, 15, 53);
    Two(entries, counts, log, 16, 11, 32);
    Two(entries, counts, log, 17, 33, 54);
    Two(entries, counts, log, 18, 12, 55);
    Two(entries, counts, log, 19, 13, 34);
    Two(entries, counts, log, 20, 35, 56);
    Two(entries, counts, log, 21, 14, 57);
  }

  lemma HighCodes(entries: seq<Entry>, counts: seq<int>, log: nat)
    requires IsDefaultTable(entries, counts, log)
    ensures Holds(entries, 15, Entry(0, 5, 22)) && Holds(entries, 36, Entry(32, 5, 22))
    ensures Holds(entries, 37, Entry(0, 5, 23)) && Holds(entries, 58, Entry(32, 5, 23))
    ensures Holds(entries, 16, Entry(0, 5, 24)) && Holds(entries, 59, Entry(32, 5, 24))
    ensures Holds(entries, 17, Entry(32, 5, 25)) && Holds(entries, 38, Entry(0, 4, 25)) && Holds(entries, 39, Entry(16, 4, 25))
    ensures Holds(entries, 18, Entry(0, 5, 26)) && Holds(entries, 40, Entry(32, 5, 26))
    ensures Holds(entries, 19, Entry(0, 6, 27))
    ensures Holds(entries, 41, Entry(0, 6, 28))
    ensures Holds(entries, 20, Entry(0, 6, 29))
    ensures Holds(entries, 42, Entry(0, 6, 30))
    ensures Holds(entries, 21, Entry(0, 6, 31))
    ensures Holds(entries, 63, Entry(0, 6, 32))
    ensures Holds(entries, 62, Entry(0, 6, 33))
    ensures Holds(entries, 61, Entry(0, 6, 34))
    ensures Holds(entries, 60, Entry(0, 6, 35))
  {
    hide IsDefaultTable, Holds;
    Two(entries, counts, log, 22, 15, 36);
    Two(entries, counts, log, 23, 37, 58);
    Two(entries, counts, log, 24, 16, 59);
    Three(entries, counts, log, 25, 17, 38, 39);
    Two(entries, counts, log, 26, 18, 40);
    One(entries, counts, log, 27, 19);
    One(entries, counts, log, 28, 41);
    One(entries, counts, log, 29, 20);
    One(entries, counts, log, 30, 42);
    One(entries, counts, log, 31, 21);
    Top(entries, counts, log, 32);
    Top(entries, counts, log, 33);
    Top(entries, counts, log, 34);
    Top(entries, counts, log, 35);
  }
}
