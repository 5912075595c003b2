/** Bit strings, lowest bit first, and the bits of a byte string. */
module BitStrings {
  import opened Arithmetic
  import opened Bytes
  import opened FrameFormat

  function ToBits(v: nat, n: nat): (s: seq<bool>)
    ensures |s| == n
  {
    if n == 0 then [] else [v % 2 == 1] + ToBits(v / 2, n - 1)
  }

  function FromBits(s: seq<bool>): nat {
    if s == [] then 0 else Bit(s[0]) + 2 * FromBits(s[1..])
  }

  lemma {:induction false} BitsBack(v: nat, n: nat)
    requires v < Pow2(n)
    ensures FromBits(ToBits(v, n)) == v
  {
    if n != 0 {
      BitsBack(v / 2, n - 1);
      assert ToBits(v, n)[1..] == ToBits(v / 2, n - 1);
    }
  }

  lemma {:induction false} FromBitsBound(s: seq<bool>)
    ensures FromBits(s) < Pow2(|s|)
  {
    if s != [] {
      FromBitsBound(s[1..]);
    }
  }

  lemma {:induction false} BitsAgain(s: seq<bool>)
    ensures ToBits(FromBits(s), |s|) == s
  {
    if s != [] {
      BitsAgain(s[1..]);
    }
  }

  /** Two fields side by side: the second is worth 2^(width of the first). */
  lemma {:induction false} FieldsJoin(v: nat, n: nat, w: nat, m: nat)
    requires v < Pow2(n)
    ensures ToBits(v + w * Pow2(n), n + m) == ToBits(v, n) + ToBits(w, m)
    decreases n
  {
    if n == 0 {
      assert v == 0 && w * Pow2(0) == w;
      assert ToBits(v, 0) == [];
    } else {
      var p := Pow2(n - 1);
      assert Pow2(n) == 2 * p;
      Doubled(w, p);
      hide Pow2;
      assert (v + 2 * (w * p)) % 2 == v % 2 && (v + 2 * (w * p)) / 2 == v / 2 + w * p;
      FieldsJoin(v / 2, n - 1, w, m);
    }
  }

  lemma Doubled(w: nat, p: nat)
    ensures w * (2 * p) == 2 * (w * p)
  {
  }

  // ---- The bits of a number ----

  function NumberBit(a: nat, k: nat): (b: nat)
    ensures b < 2
  {
    if k == 0 then a % 2 else NumberBit(a / 2, k - 1)
  }

  lemma DivDiv(a: nat, b: nat, c: nat)
    requires 0 < b && 0 < c
    ensures 0 < b * c && a / b / c == a / (b * c)
  {
    var q, r := a / b, a % b;
    var p, t := q / c, q % c;
    TwoQuotients(a, b, c, q, r, p, t);
  }

  lemma TwoQuotients(a: nat, b: nat, c: nat, q: nat, r: nat, p: nat, t: nat)
    requires a == b * q + r && r < b && q == c * p + t && t < c
    ensures 0 < b * c && a / (b * c) == p
  {
    Regroup(b, c, p, t);
    ProductLess(b, c, t, r);
    Quotient(a, b * c, p, b * t + r);
  }

  lemma Regroup(b: nat, c: nat, p: nat, t: nat)
    ensures b * (c * p + t) == (b * c) * p + b * t
  {
  }

  lemma ProductLess(b: nat, c: nat, t: nat, r: nat)
    requires r < b && t < c
    ensures b * t + r < b * c
  {
    assert b * (t + 1) == b * t + b;
    MultiplesApart(b, t + 1, c);
  }

  lemma {:induction false} PowPositive(n: nat)
    ensures 1 <= Pow2(n)
  {
    if n != 0 {
      PowPositive(n - 1);
    }
  }

  lemma {:induction false} NumberBitIs(a: nat, k: nat)
    ensures 0 < Pow2(k) && NumberBit(a, k) == a / Pow2(k) % 2
    decreases k
  {
    PowPositive(k);
    if k != 0 {
      NumberBitIs(a / 2, k - 1);
      DivDiv(a, 2, Pow2(k - 1));
    }
  }

  /** The low bits of a sum are those of the low part, and the high bits those of the high part. */
  lemma {:induction false} SumBits(x: nat, m: nat, y: nat, k: nat)
    requires x < Pow2(m)
    ensures NumberBit(x + y * Pow2(m), k) == if k < m then NumberBit(x, k) else NumberBit(y, k - m)
    decreases m
  {
    if m == 0 {
      assert x == 0 && y * Pow2(0) == y;
    } else {
      var p := Pow2(m - 1);
      assert Pow2(m) == 2 * p;
      Doubled(y, p);
      hide Pow2;
      assert (x + 2 * (y * p)) % 2 == x % 2 && (x + 2 * (y * p)) / 2 == x / 2 + y * p;
      if k != 0 {
        SumBits(x / 2, m - 1, y, k - 1);
      }
    }
  }

  // ---- The bits of a byte string ----

  /** Bit `i`: within a byte the lowest comes first. */
  function BitAt(source: bytes, i: nat): (b: nat)
    requires i < 8 * |source|
    ensures b < 2
  {
    NumberBit(source[i / 8] as nat, i % 8)
  }

  /** `count` bits from `offset` on, the first being the lowest. */
  function BitsAt(source: bytes, offset: nat, count: nat): nat
    requires offset + count <= 8 * |source|
    decreases count
  {
    if count == 0 then 0 else BitAt(source, offset) + 2 * BitsAt(source, offset + 1, count - 1)
  }

  lemma Pow2Of8()
    ensures Pow2(8) == 256
  {
    assert Pow2(8) == 2 * Pow2(7) && Pow2(7) == 2 * Pow2(6) && Pow2(6) == 2 * Pow2(5) && Pow2(5) == 2 * Pow2(4);
    assert Pow2(4) == 2 * Pow2(3) && Pow2(3) == 2 * Pow2(2) && Pow2(2) == 2 * Pow2(1) && Pow2(1) == 2 * Pow2(0);
  }

  lemma {:induction false} BitIsLE(source: bytes, i: nat)
    requires i < 8 * |source|
    ensures BitAt(source, i) == NumberBit(LE(source), i)
    decreases |source|
  {
    var x, y := source[0] as nat, LE(source[1..]);
    Pow2Of8();
    hide Pow2;
    SumBits(x, 8, y, i);
    assert LE(source) == x + y * Pow2(8);
    if i < 8 {
      assert i / 8 == 0 && i % 8 == i;
    } else {
      BitIsLE(source[1..], i - 8);
      assert i / 8 == 1 + (i - 8) / 8 && i % 8 == (i - 8) % 8;
    }
  }

  lemma ModSplits(y: nat, n: nat)
    requires 0 < n
    ensures 0 < Pow2(n) && 0 < Pow2(n - 1) && y % Pow2(n) == y % 2 + 2 * (y / 2 % Pow2(n - 1))
  {
    PowPositive(n - 1);
    var p := Pow2(n - 1);
    assert Pow2(n) == 2 * p;
    hide Pow2;
    var q, r := y / 2 / p, y / 2 % p;
    assert y / 2 == p * q + r;
    assert y == 2 * (p * q) + (2 * r + y % 2);
    assert 2 * (p * q) == (2 * p) * q;
    Quotient(y, 2 * p, q, 2 * r + y % 2);
  }

  /** A field of a byte string is a field of the number that the bytes stand for. */
  lemma {:induction false} BitsAreLE(source: bytes, offset: nat, count: nat)
    requires offset + count <= 8 * |source|
    ensures 0 < Pow2(offset) && 0 < Pow2(count) && BitsAt(source, offset, count) == LE(source) / Pow2(offset) % Pow2(count)
    decreases count
  {
    PowPositive(offset);
    if count == 0 {
      assert Pow2(0) == 1;
    } else {
      BitIsLE(source, offset);
      BitsAreLE(source, offset + 1, count - 1);
      hide LE, BitAt;
      PowPositive(offset + 1);
      BitsOfNumber(LE(source), offset, count);
    }
  }

  lemma BitsOfNumber(n: nat, offset: nat, count: nat)
    requires 0 < count && 0 < Pow2(offset) && 0 < Pow2(offset + 1)
    ensures 0 < Pow2(offset) && 0 < Pow2(offset + 1) && 0 < Pow2(count) && 0 < Pow2(count - 1)
    ensures NumberBit(n, offset) + 2 * (n / Pow2(offset + 1) % Pow2(count - 1)) == n / Pow2(offset) % Pow2(count)
  {
    var y := n / Pow2(offset);
    NumberBitIs(n, offset);
    ModSplits(y, count);
    assert n / Pow2(offset + 1) == y / 2 by {
      DivDiv(n, Pow2(offset), 2);
      assert Pow2(offset + 1) == Pow2(offset) * 2;
    }
    hide Pow2, NumberBit;
  }

  // ---- Packing ----

  /** Eight bits to a byte, the last byte filled up with zeros. */
  function Pack(bits: seq<bool>): (s: bytes)
    ensures |s| == (|bits| + 7) / 8
  {
    if bits == [] then []
    else
      var n := Min(8, |bits|);
      Pow2Of8();
      FromBitsBound(bits[..n]);
      FitsByte(n);
      [FromBits(bits[..n]) as byte] + Pack(bits[n..])
  }

  lemma {:induction false} FitsByte(n: nat)
    requires n <= 8
    ensures Pow2(n) <= 256
    decreases 8 - n
  {
    if n == 8 {
      Pow2Of8();
    } else {
      FitsByte(n + 1);
    }
  }

  /** The byte string has these bits from `offset` on. */
  predicate Holds(source: bytes, offset: nat, bits: seq<bool>) {
    offset + |bits| <= 8 * |source| && forall i | 0 <= i < |bits| :: BitAt(source, offset + i) == Bit(bits[i])
  }

  lemma {:induction false} HoldsPart(source: bytes, offset: nat, a: seq<bool>, b: seq<bool>)
    ensures Holds(source, offset, a + b) <==> Holds(source, offset, a) && Holds(source, offset + |a|, b)
  {
    hide BitAt;
    if Holds(source, offset, a + b) {
      forall i | 0 <= i < |a| ensures BitAt(source, offset + i) == Bit(a[i]) {
        assert (a + b)[i] == a[i];
      }
      forall i | 0 <= i < |b| ensures BitAt(source, offset + |a| + i) == Bit(b[i]) {
        assert (a + b)[|a| + i] == b[i];
      }
    }
    if Holds(source, offset, a) && Holds(source, offset + |a|, b) {
      forall i | 0 <= i < |a + b| ensures BitAt(source, offset + i) == Bit((a + b)[i]) {
        if |a| <= i {
          assert BitAt(source, offset + |a| + (i - |a|)) == Bit(b[i - |a|]);
        }
      }
    }
  }

  lemma {:induction false} BitsHeld(source: bytes, offset: nat, bits: seq<bool>)
    requires Holds(source, offset, bits)
    ensures BitsAt(source, offset, |bits|) == FromBits(bits)
    decreases |bits|
  {
    hide BitAt;
    if bits != [] {
      assert BitAt(source, offset + 0) == Bit(bits[0]);
      forall i | 0 <= i < |bits[1..]| ensures BitAt(source, offset + 1 + i) == Bit(bits[1..][i]) {
        assert BitAt(source, offset + (i + 1)) == Bit(bits[i + 1]);
      }
      BitsHeld(source, offset + 1, bits[1..]);
    }
  }

  lemma Halves(a: nat, low: nat, high: nat)
    requires low < 2 && a == low + 2 * high
    ensures a % 2 == low && a / 2 == high
  {
  }

  lemma {:induction false} BitOfBits(s: seq<bool>, k: nat)
    requires k < |s|
    ensures NumberBit(FromBits(s), k) == Bit(s[k])
  {
    if k != 0 {
      BitOfBits(s[1..], k - 1);
    }
    Halves(FromBits(s), Bit(s[0]), FromBits(s[1..]));
    hide FromBits;
  }

  lemma PackSplits(bits: seq<bool>, rest: bytes)
    requires bits != []
    ensures var n := Min(8, |bits|); var s := Pack(bits) + rest;
      s != [] && s[0] as nat == FromBits(bits[..n]) && s[1..] == Pack(bits[n..]) + rest
  {
    var n := Min(8, |bits|);
    var later := Pack(bits[n..]);
    var first := Pack(bits)[0];
    assert first as nat == FromBits(bits[..n]) && Pack(bits) == [first] + later;
    hide FromBits, Pack;
    ConcatAssociates([first], later, rest);
  }

  /** Packed bits can be read again, whatever follows. */
  lemma {:induction false} PackHolds(bits: seq<bool>, rest: bytes)
    ensures Holds(Pack(bits) + rest, 0, bits)
    decreases |bits|
  {
    if bits != [] {
      var n := Min(8, |bits|);
      PackHolds(bits[n..], rest);
      PackSplits(bits, rest);
      var s, t := Pack(bits) + rest, Pack(bits[n..]) + rest;
      assert |bits| <= 8 * |s|;
      hide Pack;
      forall i | 0 <= i < |bits| ensures BitAt(s, i) == Bit(bits[i]) {
        hide Holds;
        HeldAt(bits, s, t, i);
      }
    }
  }

  lemma HeldAt(bits: seq<bool>, s: bytes, t: bytes, i: nat)
    requires i < |bits| <= 8 * |s| && s[1..] == t && Holds(t, 0, bits[Min(8, |bits|)..])
    requires s[0] as nat == FromBits(bits[..Min(8, |bits|)])
    ensures BitAt(s, i) == Bit(bits[i])
  {
    var n := Min(8, |bits|);
    hide FromBits, BitAt;
    if i < n {
      BitInFirst(s, i);
      BitOfBits(bits[..n], i);
    } else {
      BitBehindFirst(s, t, i);
      assert BitAt(t, 0 + (i - 8)) == Bit(bits[n..][i - 8]);
    }
  }

  lemma BitInFirst(s: bytes, i: nat)
    requires i < 8 && s != []
    ensures BitAt(s, i) == NumberBit(s[0] as nat, i)
  {
    assert i / 8 == 0 && i % 8 == i;
  }

  lemma BitBehindFirst(s: bytes, t: bytes, i: nat)
    requires s != [] && s[1..] == t && 8 <= i < 8 * |s|
    ensures BitAt(s, i) == BitAt(t, i - 8)
  {
    assert i / 8 == 1 + (i - 8) / 8 && i % 8 == (i - 8) % 8;
  }
}
