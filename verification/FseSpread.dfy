/** How the symbols of an FSE table are spread over its cells: a walk with a fixed step, modulo the size,
    which passes over the cells at the top, taken before by the symbols of low probability. */
module FseSpread {
  import opened Arithmetic
  import opened FrameFormat

  const MIN_LOG: nat := 5
  const MAX_LOG: nat := 12

  function Size(log: nat): (n: nat)
    ensures 1 <= n
  {
    Pow2Positive(log);
    Pow2(log)
  }

  lemma {:induction false} Pow2Positive(n: nat)
    ensures 1 <= Pow2(n)
  {
    if n != 0 {
      Pow2Positive(n - 1);
    }
  }

  function Step(log: nat): nat {
    Size(log) / 2 + Size(log) / 8 + 3
  }

  lemma SizeIs(log: nat)
    requires MIN_LOG <= log
    ensures Size(log) == 32 * Size(log - 5)
  {
    assert Pow2(log - 4) == 2 * Pow2(log - 5);
    assert Pow2(log - 3) == 2 * Pow2(log - 4);
    assert Pow2(log - 2) == 2 * Pow2(log - 3);
    assert Pow2(log - 1) == 2 * Pow2(log - 2);
    assert Pow2(log) == 2 * Pow2(log - 1);
  }

  lemma OddStep(size: nat, p: nat)
    requires size == 32 * p && 1 <= p
    ensures (size / 2 + size / 8 + 3) % 2 == 1 && size / 2 + size / 8 + 3 < size
  {
    Quotient(size, 2, 16 * p, 0);
    Quotient(size, 8, 4 * p, 0);
    DivideByTwo(size / 2 + size / 8 + 3, 10 * p + 1, 1);
  }

  lemma StepIsOdd(log: nat)
    requires MIN_LOG <= log
    ensures Step(log) % 2 == 1
  {
    SizeIs(log);
    OddStep(Size(log), Size(log - 5));
  }

  /** The position after `k` steps. */
  function Pos(log: nat, k: nat): (p: nat)
    ensures p < Size(log)
  {
    k * Step(log) % Size(log)
  }

  lemma PosSplits(log: nat, k: nat) returns (q: nat)
    ensures k * Step(log) == Size(log) * q + Pos(log, k)
  {
    q := k * Step(log) / Size(log);
  }

  /** One step is the addition that the code masks. */
  lemma NextPos(log: nat, k: nat)
    ensures Pos(log, k + 1) == (Pos(log, k) + Step(log)) % Size(log)
  {
    var q := PosSplits(log, k);
    OneMore(k, Step(log));
    AddMultiple(q, Size(log), Pos(log, k) + Step(log));
  }

  lemma OneMore(k: nat, s: nat)
    ensures (k + 1) * s == k * s + s
  {
  }

  lemma FirstAndLastPos(log: nat)
    ensures Pos(log, 0) == 0 && Pos(log, Size(log)) == 0
  {
    SmallDiv(0, Size(log));
    AddMultiple(Step(log), Size(log), 0);
  }

  lemma OddTimes(d: nat, s: nat, x: nat)
    requires s % 2 == 1 && d * s == 2 * x
    ensures d == 2 * (d / 2)
  {
    var h := s / 2;
    assert s == 2 * h + 1;
    Distribute(d, h);
    assert d == 2 * (x - d * h);
  }

  lemma Distribute(d: nat, h: nat)
    ensures d * (2 * h + 1) == 2 * (d * h) + d
  {
  }

  lemma Halve(f: nat, s: nat, x: nat)
    requires (2 * f) * s == 2 * x
    ensures f * s == x
  {
  }

  lemma Double(e: nat, m: nat)
    ensures 2 * (e * m) == e * (2 * m)
  {
  }

  /** An odd number has no part in a power of two. */
  lemma {:induction false} OddFactor(d: nat, s: nat, n: nat, q: nat) returns (e: nat)
    requires s % 2 == 1 && d * s == q * Pow2(n)
    ensures d == e * Pow2(n)
    decreases n
  {
    if n == 0 {
      e := d;
    } else {
      Double(q, Pow2(n - 1));
      OddTimes(d, s, q * Pow2(n - 1));
      Halve(d / 2, s, q * Pow2(n - 1));
      e := OddFactor(d / 2, s, n - 1, q);
      Double(e, Pow2(n - 1));
    }
  }

  /** No cell is visited twice in `size` steps. */
  lemma {:induction false} PosDiffer(log: nat, j: nat, k: nat)
    requires MIN_LOG <= log && j < k < j + Size(log)
    ensures Pos(log, j) != Pos(log, k)
  {
    if Pos(log, j) == Pos(log, k) {
      var m, s, d := Size(log), Step(log), k - j;
      var a := PosSplits(log, j);
      var b := PosSplits(log, k);
      Difference(d, j, s, a, b, m);
      StepIsOdd(log);
      var e := OddFactor(d, s, log, b - a);
      Times(d, m, e);
    }
  }

  lemma Difference(d: nat, j: nat, s: nat, a: nat, b: nat, m: nat)
    requires 0 < d && 0 < m && 0 < s && (d + j) * s - j * s == m * b - m * a
    ensures a < b && d * s == (b - a) * m
  {
    assert (d + j) * s == d * s + j * s;
    assert m * b - m * a == (b - a) * m;
    assert 0 < d * s;
  }

  /** A positive multiple of `m` is at least `m`. */
  lemma Times(d: nat, m: nat, e: nat)
    requires 0 < d == e * m
    ensures m <= d
  {
  }

  // ---- The cells in the order of the walk ----

  /** The positions after `k`, `k + 1`, ... steps, `n` of them. */
  function Positions(log: nat, k: nat, n: nat): (s: seq<nat>)
    ensures |s| == n && forall i | 0 <= i < n :: s[i] == Pos(log, k + i)
    decreases n
  {
    if n == 0 then [] else [Pos(log, k)] + Positions(log, k + 1, n - 1)
  }

  /** Those of them that are not at the top. */
  function Below(s: seq<nat>, free: nat): (t: seq<nat>)
    ensures |t| <= |s| && forall x :: x in t <==> x in s && x < free
  {
    if s == [] then [] else (if s[0] < free then [s[0]] else []) + Below(s[1..], free)
  }

  /** The cells that the walk fills, in its order. */
  function Cells(log: nat, free: nat): seq<nat> {
    Below(Positions(log, 0, Size(log)), free)
  }

  predicate AllLess(s: seq<nat>, n: nat) {
    forall i | 0 <= i < |s| :: s[i] < n
  }

  predicate Distinct(s: seq<nat>) {
    forall i, j | 0 <= i < j < |s| :: s[i] != s[j]
  }

  lemma {:induction false} BelowDistinct(s: seq<nat>, free: nat)
    requires Distinct(s)
    ensures Distinct(Below(s, free))
  {
    if s != [] {
      assert Distinct(s[1..]) by {
        forall i, j | 0 <= i < j < |s[1..]| ensures s[1..][i] != s[1..][j] {
          assert s[1..][i] == s[i + 1] && s[1..][j] == s[j + 1];
        }
      }
      BelowDistinct(s[1..], free);
      assert s[0] !in s[1..];
    }
  }

  function Without<T>(s: seq<T>, i: nat): (t: seq<T>)
    requires i < |s|
    ensures |t| == |s| - 1
  {
    s[..i] + s[i + 1..]
  }

  lemma WithoutDistinct(s: seq<nat>, i: nat)
    requires Distinct(s) && i < |s|
    ensures var rest := Without(s, i); Distinct(rest) && forall x :: x in rest <==> x in s && x != s[i]
  {
    var rest := Without(s, i);
    forall j, k | 0 <= j < k < |rest| ensures rest[j] != rest[k] {
      assert rest[j] == s[if j < i then j else j + 1] && rest[k] == s[if k < i then k else k + 1];
    }
    forall x ensures x in rest <==> x in s && x != s[i] {
      if x in rest {
        var j :| 0 <= j < |rest| && rest[j] == x;
        assert x == s[if j < i then j else j + 1];
      }
      if x in s && x != s[i] {
        var j :| 0 <= j < |s| && s[j] == x;
        assert x == rest[if j < i then j else j - 1];
      }
    }
  }

  /** As many different numbers below `n` as there are: all of them. */
  lemma {:induction false} Pigeonhole(s: seq<nat>, n: nat)
    requires |s| == n && Distinct(s) && AllLess(s, n)
    ensures forall x: nat | x < n :: x in s
    decreases n
  {
    if n != 0 {
      if n - 1 in s {
        var i: nat :| i < n && s[i] == n - 1;
        var rest := Without(s, i);
        WithoutDistinct(s, i);
        Pigeonhole(rest, n - 1);
      } else {
        LastIsLess(s, n);
        Pigeonhole(s[..n - 1], n - 1);
        NotTwice(s, n);
      }
    }
  }

  lemma NotTwice(s: seq<nat>, n: nat)
    requires 0 < |s| == n && s[n - 1] in s[..n - 1]
    ensures !Distinct(s)
  {
  }

  lemma LastIsLess(s: seq<nat>, n: nat)
    requires 0 < |s| == n && Distinct(s) && AllLess(s, n) && n - 1 !in s
    ensures Distinct(s[..n - 1]) && AllLess(s[..n - 1], n - 1) && s[n - 1] < n - 1
  {
    forall i: nat | i < n ensures s[i] < n - 1 {
      assert s[i] in s;
    }
  }

  /** A permutation of the numbers below its length. */
  predicate Permutes(s: seq<nat>) {
    Distinct(s) && AllLess(s, |s|) && forall x: nat | x < |s| :: x in s
  }

  lemma CycleIsFull(log: nat)
    requires MIN_LOG <= log
    ensures Permutes(Positions(log, 0, Size(log)))
  {
    var s := Positions(log, 0, Size(log));
    hide Pos;
    forall i, j | 0 <= i < j < |s| ensures s[i] != s[j] {
      PosDiffer(log, i, j);
    }
    Pigeonhole(s, Size(log));
  }

  /** The walk fills every cell below `free` exactly once. */
  lemma {:induction false} SpreadIsPermutation(log: nat, free: nat)
    requires MIN_LOG <= log && free <= Size(log)
    ensures Permutes(Cells(log, free)) && |Cells(log, free)| == free
  {
    hide Positions, Below;
    CycleIsFull(log);
    var s := Positions(log, 0, Size(log));
    var t := Cells(log, free);
    BelowDistinct(s, free);
    forall i | 0 <= i < |t| ensures t[i] < free {
      assert t[i] in t;
    }
    assert forall x: nat | x < free :: x in t;
    AllBelow(t, free);
  }

  /** Different numbers below `n`, all of them there: `n` numbers. */
  lemma {:induction false} AllBelow(s: seq<nat>, n: nat)
    requires Distinct(s) && AllLess(s, n) && forall x: nat | x < n :: x in s
    ensures |s| == n
    decreases n
  {
    if n == 0 {
      if s != [] {
        FirstIsIn(s);
      }
    } else {
      assert n - 1 in s;
      var i: nat :| i < |s| && s[i] == n - 1;
      WithoutDistinct(s, i);
      AllBelow(Without(s, i), n - 1);
    }
  }

  lemma FirstIsIn(s: seq<nat>)
    requires s != []
    ensures s[0] in s
  {
  }
}
