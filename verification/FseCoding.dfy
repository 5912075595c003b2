/** Decoding with an FSE table inverts encoding with it: for every symbol, the ranges of next states of its
    cells partition the states, so that an encoder finds one way back from any state. */
module FseCoding {
  import opened BitStrings
  import opened FrameFormat
  import opened FseSpread
  import opened FseTable

  // ---- Halving a state until it is a next-state number ----

  function Shifted(y: nat, c: nat): (z: nat)
    requires 0 < c <= y
    ensures c <= z < 2 * c
  {
    if y < 2 * c then y else Shifted(y / 2, c)
  }

  function Shifts(y: nat, c: nat): nat
    requires 0 < c <= y
  {
    if y < 2 * c then 0 else 1 + Shifts(y / 2, c)
  }

  lemma {:induction false} ShiftedWidth(y: nat, c: nat)
    requires 0 < c <= y
    ensures BitWidth(Shifted(y, c)) + Shifts(y, c) == BitWidth(y)
    decreases y
  {
    if 2 * c <= y {
      ShiftedWidth(y / 2, c);
    }
  }

  /** What the shifts drop. */
  lemma {:induction false} ShiftedRange(y: nat, c: nat)
    requires 0 < c <= y
    ensures var z, m := Shifted(y, c), Pow2(Shifts(y, c)); z * m <= y < (z + 1) * m
    decreases y
  {
    if 2 * c <= y {
      ShiftedRange(y / 2, c);
      var z, m := Shifted(y / 2, c), Pow2(Shifts(y / 2, c));
      hide Shifted, Shifts, Pow2;
      WholeRange(y, z, m);
    }
  }

  lemma WholeRange(y: nat, z: nat, m: nat)
    requires z * m <= y / 2 < (z + 1) * m
    ensures z * (2 * m) <= y < (z + 1) * (2 * m)
  {
    assert z * (2 * m) == 2 * (z * m) && (z + 1) * (2 * m) == 2 * ((z + 1) * m);
  }

  /** There is no other number in the range of the symbol whose states include this one. */
  lemma {:induction false} ShiftedOnly(y: nat, c: nat, z: nat, k: nat)
    requires 0 < c <= y && c <= z < 2 * c && z * Pow2(k) <= y < (z + 1) * Pow2(k)
    ensures z == Shifted(y, c)
    decreases k
  {
    if k != 0 {
      var m := Pow2(k - 1);
      assert Pow2(k) == 2 * m;
      Pow2Positive(k - 1);
      HalfRange(y, z, m);
      hide Pow2;
      assert 2 * c <= y;
      ShiftedOnly(y / 2, c, z, k - 1);
    }
  }

  lemma HalfRange(y: nat, z: nat, m: nat)
    requires 1 <= m && z * (2 * m) <= y < (z + 1) * (2 * m)
    ensures 2 * z <= y && z * m <= y / 2 < (z + 1) * m
  {
    Twice(m, z);
    Twice(m, z + 1);
    assert z * (2 * m) == 2 * (z * m) && (z + 1) * (2 * m) == 2 * ((z + 1) * m);
    Scale(1, m, z);
    assert 1 * z <= m * z == z * m;
  }

  // ---- The cell of a symbol with a given rank ----

  function CellOf(symbols: seq<nat>, s: nat, rank: nat): (i: nat)
    requires rank < multiset(symbols)[s]
    ensures i < |symbols| && symbols[i] == s && multiset(symbols[..i])[s] == rank
  {
    var n := |symbols| - 1;
    assert symbols == symbols[..n] + [symbols[n]];
    if rank < multiset(symbols[..n])[s] then
      var i := CellOf(symbols[..n], s, rank);
      assert symbols[..n][..i] == symbols[..i];
      i
    else n
  }

  lemma RankGrows(symbols: seq<nat>, i: nat, j: nat)
    requires i < j < |symbols| && symbols[i] == symbols[j]
    ensures multiset(symbols[..i])[symbols[i]] < multiset(symbols[..j])[symbols[i]]
  {
    assert symbols[..j] == symbols[..i] + [symbols[i]] + symbols[i + 1..j];
  }

  // ---- The ranges of next states ----

  /** Reading its bits, a cell goes to this state. */
  predicate Leads(e: Entry, state: nat) {
    e.nextState <= state < e.nextState + Pow2(e.numberBits)
  }

  lemma EntryLeads(log: nat, next: nat, symbol: nat, state: nat)
    requires 1 <= next < 2 * Size(log)
    ensures var e := EntryFor(log, next, symbol); var m := Pow2(e.numberBits);
      && (Leads(e, state) <==> next * m <= state + Size(log) < (next + 1) * m)
      && e.nextState + m <= Size(log)
  {
    NextFits(log, next);
    var m := Pow2(log + 1 - BitWidth(next));
    hide Pow2, BitWidth, Size;
    assert (next + 1) * m == next * m + m;
  }

  /** The cell from which the symbol leads to the state. */
  ghost function Source(entries: seq<Entry>, values: seq<int>, log: nat, s: nat, state: nat): (i: nat)
    requires ValidCounts(values, log) && IsTable(entries, values, log)
    requires s < |values| && 0 < Weight(values[s]) && state < Size(log)
    ensures i < |entries| && entries[i].symbol == s
  {
    SpreadCounts(SymbolsOf(entries), values, log, s);
    WeightInTotal(values, s);
    var c := Weight(values[s]);
    CellOf(SymbolsOf(entries), s, Shifted(state + Size(log), c) - c)
  }

  /** What a cell of a table holds. */
  lemma TableAt(entries: seq<Entry>, values: seq<int>, log: nat, i: nat)
    requires ValidCounts(values, log) && IsTable(entries, values, log) && i < |entries|
    ensures var s := entries[i].symbol;
      s < |values| && var c := Weight(values[s]); var next := c + multiset(SymbolsOf(entries)[..i])[s];
      c <= next < 2 * c <= 2 * Size(log) && entries[i] == EntryFor(log, next, s)
  {
    var symbols := SymbolsOf(entries);
    hide Spread, EntryFor, Weight, Size, Total;
    assert IsEntry(entries[i], symbols, values, log, i);
    NumberFits(symbols, values, log, i);
    WeightInTotal(values, symbols[i]);
  }

  /** It does lead there. */
  lemma {:induction false} SourceLeads(entries: seq<Entry>, values: seq<int>, log: nat, s: nat, state: nat)
    requires ValidCounts(values, log) && IsTable(entries, values, log)
    requires s < |values| && 0 < Weight(values[s]) && state < Size(log)
    ensures Leads(entries[Source(entries, values, log, s, state)], state)
  {
    hide IsTable, Source, EntryFor, Leads, ValidCounts, Weight, Total, SymbolsOf, Size, Shifted;
    var i := Source(entries, values, log, s, state);
    var c := Weight(values[s]);
    SourceRank(entries, values, log, s, state);
    TableAt(entries, values, log, i);
    ShiftedLeads(log, c, s, state);
  }

  lemma SourceRank(entries: seq<Entry>, values: seq<int>, log: nat, s: nat, state: nat)
    requires ValidCounts(values, log) && IsTable(entries, values, log)
    requires s < |values| && 0 < Weight(values[s]) && state < Size(log)
    ensures var c := Weight(values[s]); var i := Source(entries, values, log, s, state);
      && c <= Size(log)
      && c + multiset(SymbolsOf(entries)[..i])[s] == Shifted(state + Size(log), c)
  {
    SpreadCounts(SymbolsOf(entries), values, log, s);
    WeightInTotal(values, s);
    hide Spread, Weight, SymbolsOf, Size, Total;
  }

  lemma ShiftedLeads(log: nat, c: nat, s: nat, state: nat)
    requires 0 < c <= Size(log) && state < Size(log)
    ensures var z := Shifted(state + Size(log), c); 1 <= z < 2 * Size(log) && Leads(EntryFor(log, z, s), state)
  {
    var y := state + Size(log);
    var z := Shifted(y, c);
    WidthIs(y, log);
    ShiftedWidth(y, c);
    ShiftedRange(y, c);
    EntryLeads(log, z, s, state);
    hide Shifted, Shifts, Pow2, Leads, BitWidth;
    EntryBits(log, z, s);
  }

  lemma EntryBits(log: nat, next: nat, s: nat)
    requires 1 <= next < 2 * Size(log)
    ensures EntryFor(log, next, s).numberBits + BitWidth(next) == log + 1
    ensures EntryFor(log, next, s).symbol == s
  {
    NextFits(log, next);
  }

  /** Only that cell does: for each symbol the ranges of next states partition the states. */
  lemma {:induction false} StatesPartition(entries: seq<Entry>, values: seq<int>, log: nat, i: nat, state: nat)
    requires ValidCounts(values, log) && IsTable(entries, values, log) && i < |entries| && state < Size(log)
    ensures var s := entries[i].symbol;
      && s < |values| && 0 < Weight(values[s])
      && (Leads(entries[i], state) <==> i == Source(entries, values, log, s, state))
  {
    hide IsTable, Source, EntryFor, Leads, ValidCounts, Weight, Total, SymbolsOf, Size, Shifted;
    TableAt(entries, values, log, i);
    var s := entries[i].symbol;
    var c := Weight(values[s]);
    var j := Source(entries, values, log, s, state);
    SourceLeads(entries, values, log, s, state);
    SourceRank(entries, values, log, s, state);
    if Leads(entries[i], state) {
      var symbols := SymbolsOf(entries);
      var z := c + multiset(symbols[..i])[s];
      LeadsOnly(log, c, z, s, state);
      SameRank(symbols, i, j);
    }
  }

  lemma LeadsOnly(log: nat, c: nat, z: nat, s: nat, state: nat)
    requires 0 < c <= Size(log) && c <= z < 2 * c && Leads(EntryFor(log, z, s), state)
    ensures z == Shifted(state + Size(log), c)
  {
    EntryLeads(log, z, s, state);
    hide Shifted, Pow2, EntryFor, Leads;
    ShiftedOnly(state + Size(log), c, z, EntryFor(log, z, s).numberBits);
  }

  lemma SameRank(symbols: seq<nat>, i: nat, j: nat)
    requires i < |symbols| && j < |symbols| && symbols[i] == symbols[j]
    requires multiset(symbols[..i])[symbols[i]] == multiset(symbols[..j])[symbols[i]]
    ensures i == j
  {
    if i < j {
      RankGrows(symbols, i, j);
    } else if j < i {
      RankGrows(symbols, j, i);
    }
  }

  // ---- Messages ----

  /** Every symbol of the message has cells. */
  predicate Encodable(message: seq<nat>, values: seq<int>) {
    forall i | 0 <= i < |message| :: message[i] < |values| && 0 < Weight(values[message[i]])
  }

  /** What an encoder hands to the decoder: the state to begin in, and the bits in the order of reading. */
  datatype Code = Code(state: nat, bits: seq<bool>)

  /** A message is encoded from its end: the symbol before is put behind what follows it, by the cell that
      leads to the state in hand, whose bits tell that state. */
  ghost function EncodeMessage(entries: seq<Entry>, values: seq<int>, log: nat, message: seq<nat>, last: nat): (c: Code)
    requires ValidCounts(values, log) && IsTable(entries, values, log) && Encodable(message, values) && last < Size(log)
    ensures c.state < |entries|
    decreases |message|
  {
    if message == [] then Code(last, [])
    else
      var later := EncodeMessage(entries, values, log, message[1..], last);
      var i := Source(entries, values, log, message[0], later.state);
      SourceLeads(entries, values, log, message[0], later.state);
      Code(i, ToBits(later.state - entries[i].nextState, entries[i].numberBits) + later.bits)
  }

  datatype Decoded = Decoded(message: seq<nat>, state: nat, rest: seq<bool>) | Truncated

  /** The decoder: the symbol of the cell, and the next state from its number of bits. */
  function DecodeMessage(entries: seq<Entry>, state: nat, bits: seq<bool>, n: nat): Decoded
    decreases n
  {
    if n == 0 then Decoded([], state, bits)
    else if |entries| <= state || |bits| < entries[state].numberBits then Truncated
    else
      var e := entries[state];
      match DecodeMessage(entries, e.nextState + FromBits(bits[..e.numberBits]), bits[e.numberBits..], n - 1)
      case Truncated => Truncated
      case Decoded(message, last, rest) => Decoded([e.symbol] + message, last, rest)
  }

  /** Decoding inverts encoding, for every message and whatever follows its bits. */
  lemma {:induction false} DecodeInvertsEncode(entries: seq<Entry>, values: seq<int>, log: nat, message: seq<nat>, last: nat, rest: seq<bool>)
    requires ValidCounts(values, log) && IsTable(entries, values, log) && Encodable(message, values) && last < Size(log)
    ensures var code := EncodeMessage(entries, values, log, message, last);
      DecodeMessage(entries, code.state, code.bits + rest, |message|) == Decoded(message, last, rest)
    decreases |message|
  {
    hide IsTable, ValidCounts, Source, Leads, Weight, DecodeMessage, ToBits;
    if message == [] {
      assert [] + rest == rest;
      NothingToDecode(entries, last, rest);
    } else {
      TableSize(entries, values, log);
      var later := EncodeMessage(entries, values, log, message[1..], last);
      var i := Source(entries, values, log, message[0], later.state);
      SourceLeads(entries, values, log, message[0], later.state);
      NotBefore(entries[i], later.state);
      DecodeInvertsEncode(entries, values, log, message[1..], last, rest);
      var own := ToBits(later.state - entries[i].nextState, entries[i].numberBits);
      assert EncodeMessage(entries, values, log, message, last) == Code(i, own + later.bits);
      hide Encodable, EncodeMessage;
      DecodeFirst(entries, i, later.state, later.bits + rest, |message| - 1);
      assert (own + later.bits) + rest == own + (later.bits + rest);
    }
  }

  lemma NothingToDecode(entries: seq<Entry>, state: nat, bits: seq<bool>)
    ensures DecodeMessage(entries, state, bits, 0) == Decoded([], state, bits)
  {
  }

  lemma NotBefore(e: Entry, state: nat)
    requires Leads(e, state)
    ensures e.nextState <= state
  {
  }

  lemma TableSize(entries: seq<Entry>, values: seq<int>, log: nat)
    requires IsTable(entries, values, log)
    ensures |entries| == Size(log)
  {
  }

  lemma DecodeFirst(entries: seq<Entry>, i: nat, state: nat, rest: seq<bool>, n: nat)
    requires i < |entries| && Leads(entries[i], state)
    ensures var own := ToBits(state - entries[i].nextState, entries[i].numberBits);
      DecodeMessage(entries, i, own + rest, n + 1) ==
        match DecodeMessage(entries, state, rest, n)
        case Truncated => Truncated
        case Decoded(message, last, rest) => Decoded([entries[i].symbol] + message, last, rest)
  {
    var own := ToBits(state - entries[i].nextState, entries[i].numberBits);
    BitsBack(state - entries[i].nextState, entries[i].numberBits);
    assert (own + rest)[..|own|] == own && (own + rest)[|own|..] == rest;
  }
}
