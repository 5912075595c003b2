/** The generator of compressible data: literals from a skewed distribution and matches within 32 KB. */
module DataGen {
  import opened Bytes

  const LTSIZE: nat := 8192
  const WINDOW: nat := 32768

  // ---- Random numbers ----

  function Xor(a: nat, b: nat, bits: nat): nat {
    if bits == 0 then 0 else (a + b) % 2 + 2 * Xor(a / 2, b / 2, bits - 1)
  }

  /** RDG_rand: the next seed; its low five bits are not part of the value. */
  function NextSeed(seed: nat): nat {
    var r := Xor((seed * 2654435761) % U32_LIMIT, 2246822519, 32);
    (r * 8192) % U32_LIMIT + r / 0x8_0000
  }

  datatype Drawn = Drawn(value: nat, seed: nat)

  function Draw(seed: nat): Drawn {
    var next := NextSeed(seed);
    Drawn(next / 32, next)
  }

  function RandLength(seed: nat): (d: Drawn)
    ensures d.value < 512 + 15
  {
    var first := Draw(seed);
    var second := Draw(first.seed);
    if first.value % 8 != 0 then Drawn(second.value % 16, second.seed)
    else Drawn(second.value % 512 + 15, second.seed)
  }

  // ---- One block ----

  /** `sparse` stands for a match probability of 1 or more; below, `matchProba32` is 2^15 times the probability. */
  datatype Params = Params(sparse: bool, matchProba32: nat, ldt: seq<byte>) {
    predicate Valid() {
      |ldt| == LTSIZE
    }
  }

  function CharOf(p: Params, d: Drawn): byte
    requires p.Valid()
  {
    p.ldt[d.value % LTSIZE]
  }

  /** What has been written, the last match offset and the seed. */
  datatype Gen = Gen(out: bytes, prevOffset: nat, seed: nat)

  predicate ValidGen(g: Gen) {
    1 <= g.prevOffset <= |g.out| && g.prevOffset <= WINDOW
  }

  /** `n` bytes copied one by one from `offset` bytes back: they may be among those just copied. */
  function Copy(out: bytes, offset: nat, n: nat): (r: bytes)
    requires 1 <= offset <= |out|
    ensures |r| == |out| + n
    decreases n
  {
    if n == 0 then out else Copy(out + [out[|out| - offset]], offset, n - 1)
  }

  function Literals(p: Params, out: bytes, n: nat, seed: nat): (r: (bytes, nat))
    requires p.Valid()
    ensures |r.0| == |out| + n
    decreases n
  {
    if n == 0 then (out, seed)
    else
      var d := Draw(seed);
      Literals(p, out + [CharOf(p, d)], n - 1, d.seed)
  }

  /** How a match is chosen: its length, its offset and the seed after that. */
  datatype Choice = Match(length: nat, offset: nat, seed: nat) | Noise(length: nat, seed: nat)

  function Choose(p: Params, pos: nat, prevOffset: nat, seed: nat): (c: Choice)
    ensures c.Match? && 1 <= pos && 1 <= prevOffset <= pos && prevOffset <= WINDOW ==>
      4 <= c.length && 1 <= c.offset <= pos && c.offset <= WINDOW
  {
    var what := Draw(seed);
    var len := RandLength(what.seed);
    if what.value % WINDOW < p.matchProba32 then
      var repeat := Draw(len.seed);
      var far := Draw(repeat.seed);
      Match(len.value + 4, if repeat.value % 16 == 2 then prevOffset else Min(far.value % WINDOW + 1, pos), far.seed)
    else Noise(len.value, len.seed)
  }

  /** One turn of the main loop. */
  function Token(p: Params, size: nat, g: Gen): (h: Gen)
    requires p.Valid() && ValidGen(g) && |g.out| < size
    ensures ValidGen(h) && |g.out| <= |h.out| <= size
  {
    var c := Choose(p, |g.out|, g.prevOffset, g.seed);
    var n := Min(|g.out| + c.length, size) - |g.out|;
    if c.Match? then Gen(Copy(g.out, c.offset, n), c.offset, c.seed)
    else
      var r := Literals(p, g.out, n, c.seed);
      Gen(r.0, g.prevOffset, r.1)
  }

  /** The main loop after at most `turns` turns. */
  function Turns(p: Params, size: nat, g: Gen, turns: nat): (h: Gen)
    requires p.Valid() && ValidGen(g) && |g.out| <= size
    ensures ValidGen(h) && |g.out| <= |h.out| <= size
    decreases turns
  {
    if |g.out| == size || turns == 0 then g else Turns(p, size, Token(p, size, g), turns - 1)
  }

  /** The main loop, if it needs no more than `fuel` turns: a turn may choose no literal at all. */
  function Run(p: Params, size: nat, g: Gen, fuel: nat): (h: Option<Gen>)
    requires p.Valid() && ValidGen(g) && |g.out| <= size
    ensures h.Some? ==> ValidGen(h.value) && |h.value.out| == size
  {
    var h := Turns(p, size, g, fuel);
    if |h.out| == size then Some(h) else None
  }

  function Pow2(n: nat): (r: nat)
    ensures 1 <= r
  {
    if n == 0 then 1 else 2 * Pow2(n - 1)
  }

  /** How long the next run of zeros is. */
  function RandRun(seed: nat): (d: Drawn)
    ensures 1 <= d.value
  {
    var a := Draw(seed);
    var base := Pow2(16 + a.value % 4 * 2);
    var b := Draw(a.seed);
    Drawn(base + b.value % base, b.seed)
  }

  /** Sparse content: long runs of zeros, each ended by a character. */
  function Sparse(p: Params, size: nat, out: bytes, seed: nat): (r: (bytes, nat))
    requires p.Valid() && |out| <= size
    ensures |r.0| == size
    decreases size - |out|
  {
    var run := RandRun(seed);
    if size < |out| + run.value then (out + Zeros(size - |out|), run.seed)
    else
      var d := Draw(run.seed);
      Sparse(p, size, out + Zeros(run.value - 1) + [CharOf(p, d)], d.seed)
  }

  function Start(p: Params, prefix: bytes, seed: nat): (g: Gen)
    requires p.Valid()
    ensures ValidGen(g) && |g.out| == if prefix == [] then 1 else |prefix|
  {
    if prefix != [] then Gen(prefix, 1, seed)
    else
      var d := Draw(seed);
      Gen([CharOf(p, d)], 1, d.seed)
  }

  /** RDG_genBlock after at most `turns` turns of its main loop: the block with its prefix, and the seed. */
  function BlockAfter(p: Params, prefix: bytes, size: nat, seed: nat, turns: nat): (r: (bytes, nat))
    requires p.Valid() && |prefix| <= size && 1 <= size
    ensures |r.0| <= size
  {
    if p.sparse then Sparse(p, size, prefix, seed)
    else
      var g := Turns(p, size, Start(p, prefix, seed), turns);
      (g.out, g.seed)
  }

  /** RDG_genBlock, if its main loop ends within `fuel` turns. */
  function GenBlock(p: Params, prefix: bytes, size: nat, seed: nat, fuel: nat): (r: Option<(bytes, nat)>)
    requires p.Valid() && |prefix| <= size && 1 <= size
    ensures r.Some? ==> |r.value.0| == size
  {
    var b := BlockAfter(p, prefix, size, seed, fuel);
    if |b.0| == size then Some(b) else None
  }

  // ---- Prefix stability ----

  lemma {:induction false} CopyPrefix(out: bytes, offset: nat, m: nat, n: nat)
    requires 1 <= offset <= |out| && m <= n
    ensures Copy(out, offset, m) <= Copy(out, offset, n) && out <= Copy(out, offset, n)
    decreases m, n
  {
    if m != 0 {
      CopyPrefix(out + [out[|out| - offset]], offset, m - 1, n - 1);
    } else if n != 0 {
      CopyPrefix(out + [out[|out| - offset]], offset, 0, n - 1);
    }
  }

  lemma {:induction false} LiteralsPrefix(p: Params, out: bytes, m: nat, n: nat, seed: nat)
    requires p.Valid() && m <= n
    ensures Literals(p, out, m, seed).0 <= Literals(p, out, n, seed).0 && out <= Literals(p, out, n, seed).0
    decreases m, n
  {
    hide CharOf, Draw;
    if n != 0 {
      var d := Draw(seed);
      LiteralsPrefix(p, out + [CharOf(p, d)], if m == 0 then 0 else m - 1, n - 1, d.seed);
    }
  }

  /** In a smaller buffer a turn does the same, or the same up to the end of the buffer. */
  lemma {:induction false} TokenPrefix(p: Params, m: nat, n: nat, g: Gen)
    requires p.Valid() && ValidGen(g) && |g.out| < m <= n
    ensures Token(p, m, g).out <= Token(p, n, g).out && g.out <= Token(p, n, g).out
    ensures Token(p, m, g) == Token(p, n, g) || |Token(p, m, g).out| == m
  {
    hide Choose;
    var c := Choose(p, |g.out|, g.prevOffset, g.seed);
    var i, j := Min(|g.out| + c.length, m) - |g.out|, Min(|g.out| + c.length, n) - |g.out|;
    if c.Match? {
      ChosenWell(p, g);
      CopyPrefix(g.out, c.offset, i, j);
    } else {
      LiteralsPrefix(p, g.out, i, j, c.seed);
    }
  }

  lemma ChosenWell(p: Params, g: Gen)
    requires ValidGen(g)
    ensures var c := Choose(p, |g.out|, g.prevOffset, g.seed);
      c.Match? ==> 1 <= c.offset <= |g.out| && c.offset <= WINDOW
  {
  }

  lemma {:induction false} TurnsKeepPrefix(p: Params, n: nat, g: Gen, turns: nat)
    requires p.Valid() && ValidGen(g) && |g.out| <= n
    ensures g.out <= Turns(p, n, g, turns).out
    decreases turns
  {
    hide Token;
    if |g.out| < n && turns != 0 {
      TokenPrefix(p, n, n, g);
      TurnsKeepPrefix(p, n, Token(p, n, g), turns - 1);
    }
  }

  function Truncated(s: bytes, n: nat): bytes {
    if n < |s| then s[..n] else s
  }

  /** After any number of turns, a smaller buffer holds the beginning of what a larger one holds. */
  lemma {:induction false} TurnsTruncate(p: Params, m: nat, n: nat, g: Gen, turns: nat)
    requires p.Valid() && ValidGen(g) && |g.out| <= m <= n
    ensures Turns(p, m, g, turns).out == Truncated(Turns(p, n, g, turns).out, m)
    decreases turns
  {
    hide Token;
    if |g.out| == m {
      TurnsKeepPrefix(p, n, g, turns);
    } else if turns != 0 {
      TokenPrefix(p, m, n, g);
      var h := Token(p, n, g);
      if Token(p, m, g) == h {
        TurnsTruncate(p, m, n, h, turns - 1);
      } else {
        TurnsKeepPrefix(p, n, h, turns - 1);
      }
    }
  }

  lemma {:induction false} SparseKeepsPrefix(p: Params, n: nat, out: bytes, seed: nat)
    requires p.Valid() && |out| <= n
    ensures out <= Sparse(p, n, out, seed).0
    decreases n - |out|
  {
    hide RandRun, Draw, CharOf;
    var run := RandRun(seed);
    if |out| + run.value <= n {
      var d := Draw(run.seed);
      SparseKeepsPrefix(p, n, out + Zeros(run.value - 1) + [CharOf(p, d)], d.seed);
    }
  }

  lemma {:induction false} SparsePrefix(p: Params, m: nat, n: nat, out: bytes, seed: nat)
    requires p.Valid() && |out| <= m <= n
    ensures Sparse(p, m, out, seed).0 <= Sparse(p, n, out, seed).0
    decreases n - |out|
  {
    hide RandRun, Draw, CharOf;
    var run := RandRun(seed);
    var next := out + Zeros(run.value - 1) + [CharOf(p, Draw(run.seed))];
    if |out| + run.value <= m {
      SparsePrefix(p, m, n, next, Draw(run.seed).seed);
    } else if |out| + run.value <= n {
      SparseKeepsPrefix(p, n, next, Draw(run.seed).seed);
      assert out + Zeros(m - |out|) <= out + Zeros(run.value - 1) <= next;
    }
  }

  /** With equal parameters, and after any number of turns, a smaller output is the beginning of a larger one,
      sparse or not; so it is complete when the larger one is. */
  lemma {:induction false} GenBlockIsPrefixStable(p: Params, prefix: bytes, m: nat, n: nat, seed: nat, turns: nat)
    requires p.Valid() && |prefix| <= m <= n && 1 <= m
    ensures BlockAfter(p, prefix, m, seed, turns).0 == Truncated(BlockAfter(p, prefix, n, seed, turns).0, m)
    ensures GenBlock(p, prefix, n, seed, turns).Some? ==>
      && GenBlock(p, prefix, m, seed, turns).Some?
      && GenBlock(p, prefix, m, seed, turns).value.0 == GenBlock(p, prefix, n, seed, turns).value.0[..m]
  {
    hide Start, Turns, Sparse;
    if p.sparse {
      SparsePrefix(p, m, n, prefix, seed);
    } else {
      TurnsTruncate(p, m, n, Start(p, prefix, seed), turns);
    }
  }

  // ---- What the matches are ----

  datatype Lz = Lit(chars: bytes) | Back(offset: nat, length: nat)

  /** A decoder: literals are appended, and a match appends bytes from `offset` back, one at a time. */
  function Expand(out: bytes, tokens: seq<Lz>): bytes
    requires Sound(out, tokens)
    decreases |tokens|
  {
    if tokens == [] then out
    else
      match tokens[0]
      case Lit(chars) => Expand(out + chars, tokens[1..])
      case Back(offset, length) => Expand(Copy(out, offset, length), tokens[1..])
  }

  /** Every match reaches back at most 32 KB, and only to what was already written. */
  predicate Sound(out: bytes, tokens: seq<Lz>)
    decreases |tokens|
  {
    tokens == [] ||
      match tokens[0]
      case Lit(chars) => Sound(out + chars, tokens[1..])
      case Back(offset, length) => 1 <= offset <= |out| && offset <= WINDOW && Sound(Copy(out, offset, length), tokens[1..])
  }

  /** A copied byte equals the one `offset` before it. */
  lemma {:induction false} CopyRepeats(out: bytes, offset: nat, n: nat)
    requires 1 <= offset <= |out|
    ensures forall k :: |out| <= k < |out| + n ==> Copy(out, offset, n)[k] == Copy(out, offset, n)[k - offset]
    decreases n
  {
    if n != 0 {
      var next := out + [out[|out| - offset]];
      CopyRepeats(next, offset, n - 1);
      CopyPrefix(next, offset, 0, n - 1);
      assert Copy(out, offset, n)[|out|] == next[|out|] == next[|out| - offset];
    }
  }

  predicate AllFrom(chars: bytes, ldt: seq<byte>) {
    forall c <- chars :: c in ldt
  }

  lemma {:induction false} LiteralsAre(p: Params, out: bytes, n: nat, seed: nat) returns (chars: bytes)
    requires p.Valid()
    ensures |chars| == n && CharsAsDrawn(p, chars, seed)
    ensures Literals(p, out, n, seed) == (out + chars, SeedAfter(seed, n))
    decreases n
  {
    hide NextSeed;
    chars := [];
    if n == 0 {
      assert out + [] == out;
    } else {
      var d := Draw(seed);
      var c := CharOf(p, d);
      var rest := LiteralsAre(p, out + [c], n - 1, d.seed);
      chars := [c] + rest;
      ConcatAssociates(out, [c], rest);
      FirstSeeds(seed);
      assert chars[0] == p.ldt[Value(seed, 0) % LTSIZE];
      forall i | 0 < i < n ensures chars[i] == p.ldt[Value(seed, i) % LTSIZE] {
        assert chars[i] == rest[i - 1] && Value(seed, i) == Value(d.seed, i - 1);
      }
    }
  }

  /** The seed after `k` random numbers were drawn. */
  function SeedAfter(seed: nat, k: nat): nat
    decreases k
  {
    if k == 0 then seed else SeedAfter(NextSeed(seed), k - 1)
  }

  /** The random number drawn after `k` others. */
  function Value(seed: nat, k: nat): nat {
    SeedAfter(seed, k + 1) / 32
  }

  /** The length that the second and the third random number of a turn say: seven times out of eight a short one. */
  function DrawnLength(seed: nat): (n: nat)
    ensures n <= 526
  {
    if Value(seed, 1) % 8 != 0 then Value(seed, 2) % 16 else 15 + Value(seed, 2) % 512
  }

  /** The token of a turn, by the random numbers from its seed on: it is a match when the low 15 bits of the
      first are below the probability. A match has at least 4 bytes if the buffer does not end before. */
  predicate TokenOfTurn(p: Params, size: nat, g: Gen, t: Lz)
    requires p.Valid() && |g.out| <= size
  {
    && (t.Back? <==> Value(g.seed, 0) % WINDOW < p.matchProba32)
    && match t
       case Back(offset, length) =>
         && length == Min(4 + DrawnLength(g.seed), size - |g.out|)
         && offset == if Value(g.seed, 3) % 16 == 2 then g.prevOffset else Min(1 + Value(g.seed, 4) % WINDOW, |g.out|)
       case Lit(chars) =>
         && |chars| == Min(DrawnLength(g.seed), size - |g.out|)
         && CharsAsDrawn(p, chars, SeedAfter(g.seed, 3))
  }

  predicate CharsAsDrawn(p: Params, chars: bytes, seed: nat)
    requires p.Valid()
  {
    forall i | 0 <= i < |chars| :: chars[i] == p.ldt[Value(seed, i) % LTSIZE]
  }

  /** What a token leaves: a match draws five random numbers, and literals three and one each. */
  function AfterToken(g: Gen, t: Lz): (h: Gen)
    requires t.Back? ==> 1 <= t.offset <= |g.out|
  {
    match t
    case Back(offset, length) => Gen(Copy(g.out, offset, length), offset, SeedAfter(g.seed, 5))
    case Lit(chars) => Gen(g.out + chars, g.prevOffset, SeedAfter(g.seed, 3 + |chars|))
  }

  /** One token for every turn, each of them as drawn, until the buffer is full. */
  predicate TokensOfTurns(p: Params, size: nat, g: Gen, turns: nat, tokens: seq<Lz>)
    requires p.Valid()
    decreases turns
  {
    if size <= |g.out| || turns == 0 then tokens == []
    else
      && tokens != [] && TokenOfTurn(p, size, g, tokens[0])
      && (tokens[0].Back? ==> 1 <= tokens[0].offset <= |g.out|)
      && TokensOfTurns(p, size, AfterToken(g, tokens[0]), turns - 1, tokens[1..])
  }

  /** LZ soundness: what the main loop adds in any number of turns is the expansion of literals from the
      distribution table and of matches within 32 KB of already written bytes, a match or literals in each
      turn as the random numbers say. */
  lemma {:induction false} RunIsLz(p: Params, size: nat, g: Gen, turns: nat) returns (tokens: seq<Lz>)
    requires p.Valid() && ValidGen(g) && |g.out| <= size
    ensures Sound(g.out, tokens) && Expand(g.out, tokens) == Turns(p, size, g, turns).out
    ensures TokensOfTurns(p, size, g, turns, tokens)
    decreases turns
  {
    hide Token, TokenOfTurn;
    tokens := [];
    if |g.out| < size && turns != 0 {
      var t := TokenIsLz(p, size, g);
      var rest := RunIsLz(p, size, Token(p, size, g), turns - 1);
      tokens := [t] + rest;
      assert tokens[1..] == rest;
    }
  }

  lemma TokenIsLz(p: Params, size: nat, g: Gen) returns (t: Lz)
    requires p.Valid() && ValidGen(g) && |g.out| < size
    ensures TokenOfTurn(p, size, g, t)
    ensures t.Back? ==> 1 <= t.offset <= |g.out| && t.offset <= WINDOW
    ensures Token(p, size, g) == AfterToken(g, t)
  {
    hide Choose, Draw, Value, DrawnLength, SeedAfter, NextSeed, CharsAsDrawn, Copy, Literals;
    var c := Choose(p, |g.out|, g.prevOffset, g.seed);
    var n := Min(|g.out| + c.length, size) - |g.out|;
    ChosenAsDrawn(p, |g.out|, g.prevOffset, g.seed);
    if c.Match? {
      ChosenWell(p, g);
      t := Back(c.offset, n);
    } else {
      var chars := LiteralsAre(p, g.out, n, c.seed);
      SeedAfterMore(g.seed, 3, n);
      t := Lit(chars);
    }
  }

  lemma {:induction false} SeedAfterMore(seed: nat, m: nat, n: nat)
    ensures SeedAfter(SeedAfter(seed, m), n) == SeedAfter(seed, m + n)
    decreases m
  {
    hide NextSeed;
    if m != 0 {
      SeedAfterMore(NextSeed(seed), m - 1, n);
    }
  }

  lemma ChosenAsDrawn(p: Params, pos: nat, prevOffset: nat, seed: nat)
    ensures var c := Choose(p, pos, prevOffset, seed);
      && (c.Match? <==> Value(seed, 0) % WINDOW < p.matchProba32)
      && (c.Match? ==> c.length == 4 + DrawnLength(seed) && c.seed == SeedAfter(seed, 5))
      && (c.Match? ==> c.offset == if Value(seed, 3) % 16 == 2 then prevOffset else Min(1 + Value(seed, 4) % WINDOW, pos))
      && (c.Noise? ==> c.length == DrawnLength(seed) && c.seed == SeedAfter(seed, 3))
  {
    hide NextSeed;
    FirstSeeds(seed);
  }

  lemma FirstSeeds(seed: nat)
    ensures SeedAfter(seed, 1) == NextSeed(seed)
    ensures SeedAfter(seed, 2) == NextSeed(SeedAfter(seed, 1))
    ensures SeedAfter(seed, 3) == NextSeed(SeedAfter(seed, 2))
    ensures SeedAfter(seed, 4) == NextSeed(SeedAfter(seed, 3))
    ensures SeedAfter(seed, 5) == NextSeed(SeedAfter(seed, 4))
  {
    hide NextSeed;
    SeedAfterMore(seed, 0, 1);
    SeedAfterMore(seed, 1, 1);
    SeedAfterMore(seed, 2, 1);
    SeedAfterMore(seed, 3, 1);
    SeedAfterMore(seed, 4, 1);
  }

  /** Without a match probability all tokens are literals, and with one of 1 all are matches. */
  lemma {:induction false} ProbabilityDecides(p: Params, size: nat, g: Gen, turns: nat, tokens: seq<Lz>)
    requires p.Valid() && TokensOfTurns(p, size, g, turns, tokens)
    ensures p.matchProba32 == 0 ==> forall t <- tokens :: t.Lit? && AllFrom(t.chars, p.ldt)
    ensures WINDOW <= p.matchProba32 ==> forall t <- tokens :: t.Back?
    decreases turns
  {
    hide Value, DrawnLength, SeedAfter;
    if tokens != [] {
      assert tokens == [tokens[0]] + tokens[1..];
      ProbabilityDecides(p, size, AfterToken(g, tokens[0]), turns - 1, tokens[1..]);
    }
  }

  lemma {:induction false} ExpandLiterals(out: bytes, tokens: seq<Lz>, ldt: seq<byte>) returns (chars: bytes)
    requires Sound(out, tokens) && forall t <- tokens :: t.Lit? && AllFrom(t.chars, ldt)
    ensures Expand(out, tokens) == out + chars && AllFrom(chars, ldt)
    decreases |tokens|
  {
    chars := [];
    if tokens != [] {
      var rest := ExpandLiterals(out + tokens[0].chars, tokens[1..], ldt);
      chars := tokens[0].chars + rest;
      ConcatAssociates(out, tokens[0].chars, rest);
    }
  }

  /** With the match probability 0, whatever a block adds to its prefix is noise from the table. */
  lemma NoMatches(p: Params, prefix: bytes, size: nat, seed: nat, turns: nat) returns (chars: bytes)
    requires p.Valid() && |prefix| <= size && 1 <= size && !p.sparse && p.matchProba32 == 0
    ensures BlockAfter(p, prefix, size, seed, turns).0 == prefix + chars && AllFrom(chars, p.ldt)
  {
    hide Turns, TokensOfTurns, Sound, Expand, Draw;
    var g := Start(p, prefix, seed);
    var tokens := RunIsLz(p, size, g, turns);
    ProbabilityDecides(p, size, g, turns, tokens);
    chars := ExpandLiterals(g.out, tokens, p.ldt);
    if prefix == [] {
      chars := g.out + chars;
    }
  }

  /** A run of zeros is 2^16, 2^18, 2^20 or 2^22 long and up to as much again, as drawn. */
  lemma RunAsDrawn(seed: nat)
    ensures var base := Pow2(16 + 2 * (Value(seed, 0) % 4));
      RandRun(seed).value == base + Value(seed, 1) % base && RandRun(seed).seed == SeedAfter(seed, 2)
  {
    hide NextSeed, Pow2;
    FirstSeeds(seed);
  }

  lemma {:induction false} Pow2AtLeast(n: nat)
    requires 16 <= n
    ensures 65536 <= Pow2(n)
  {
    if n == 16 {
      assert Pow2(2) == 4 && Pow2(4) == 4 * Pow2(2) && Pow2(6) == 4 * Pow2(4) && Pow2(8) == 4 * Pow2(6);
      assert Pow2(10) == 4 * Pow2(8) && Pow2(12) == 4 * Pow2(10) && Pow2(14) == 4 * Pow2(12) && Pow2(16) == 4 * Pow2(14);
    } else {
      Pow2AtLeast(n - 1);
    }
  }

  /** With fewer than 64 KB to fill, sparse content is zeros only. */
  lemma ShortSparseIsZeros(p: Params, size: nat, out: bytes, seed: nat)
    requires p.Valid() && |out| <= size < |out| + 65536
    ensures Sparse(p, size, out, seed).0 == out + Zeros(size - |out|)
  {
    hide NextSeed, Pow2, RandRun, Value;
    RunAsDrawn(seed);
    Pow2AtLeast(16 + 2 * (Value(seed, 0) % 4));
  }

  // ---- The stream on standard output ----

  const DICT: nat := 32 * KB
  const BLOCK: nat := 128 * KB

  /** `count` blocks, each generated behind the last 32 KB of what came before it. */
  function Blocks(p: Params, dict: bytes, seed: nat, count: nat, fuel: nat): Option<bytes>
    requires p.Valid() && |dict| == DICT
    decreases count
  {
    if count == 0 then Some([])
    else
      var b := GenBlock(p, dict, DICT + BLOCK, seed, fuel);
      if b.None? then None
      else
        var rest := Blocks(p, b.value.0[BLOCK..], b.value.1, count - 1, fuel);
        if rest.None? then None else Some(b.value.0[DICT..] + rest.value)
  }

  /** What the loop of RDG_genStdout writes while `left` bytes are to be written: a block is generated, the buffer
      is written from its beginning, and its last 32 KB slide to the front. */
  function Emit(p: Params, dict: bytes, seed: nat, left: nat, fuel: nat): Option<bytes>
    requires p.Valid() && |dict| == DICT
    decreases left
  {
    if left == 0 then Some([])
    else
      var b := GenBlock(p, dict, DICT + BLOCK, seed, fuel);
      if b.None? then None
      else
        var n := Min(BLOCK, left);
        var rest := Emit(p, b.value.0[BLOCK..], b.value.1, left - n, fuel);
        if rest.None? then None else Some(b.value.0[..n] + rest.value)
  }

  lemma {:induction false} GenBlockKeepsPrefix(p: Params, prefix: bytes, size: nat, seed: nat, fuel: nat)
    requires p.Valid() && |prefix| <= size && 1 <= size && GenBlock(p, prefix, size, seed, fuel).Some?
    ensures prefix <= GenBlock(p, prefix, size, seed, fuel).value.0
  {
    if p.sparse {
      SparseKeepsPrefix(p, size, prefix, seed);
    } else {
      TurnsKeepPrefix(p, size, Start(p, prefix, seed), fuel);
    }
  }

  /** A buffer is what comes before the slide and what slides. */
  lemma Slide(buffer: bytes, dict: bytes, rest: bytes)
    requires |buffer| == DICT + BLOCK && |dict| == DICT && dict <= buffer
    ensures dict + (buffer[DICT..] + rest) == buffer[..BLOCK] + (buffer[BLOCK..] + rest)
  {
    assert buffer == dict + buffer[DICT..] == buffer[..BLOCK] + buffer[BLOCK..];
    ConcatAssociates(dict, buffer[DICT..], rest);
    ConcatAssociates(buffer[..BLOCK], buffer[BLOCK..], rest);
  }

  /** The slide drops and repeats nothing: the output is the first `left` bytes of the dictionary followed by
      the blocks, and no more blocks are generated than that takes. */
  lemma {:induction false} EmitsStreamPrefix(p: Params, dict: bytes, seed: nat, left: nat, count: nat, fuel: nat)
    requires p.Valid() && |dict| == DICT && Blocks(p, dict, seed, count, fuel).Some? && left <= count * BLOCK
    ensures Emit(p, dict, seed, left, fuel).Some?
    ensures left <= |dict + Blocks(p, dict, seed, count, fuel).value|
    ensures Emit(p, dict, seed, left, fuel).value == (dict + Blocks(p, dict, seed, count, fuel).value)[..left]
    decreases count
  {
    hide GenBlock;
    if left != 0 {
      assert 0 < count;
      GenBlockKeepsPrefix(p, dict, DICT + BLOCK, seed, fuel);
      var b := GenBlock(p, dict, DICT + BLOCK, seed, fuel).value;
      var n := Min(BLOCK, left);
      var blocks := Blocks(p, b.0[BLOCK..], b.1, count - 1, fuel).value;
      EmitsStreamPrefix(p, b.0[BLOCK..], b.1, left - n, count - 1, fuel);
      Slide(b.0, dict, blocks);
      hide Blocks, Emit;
      PrefixOfSum(b.0[..BLOCK], b.0[BLOCK..] + blocks, left);
    }
  }

  lemma PrefixOfSum(a: bytes, b: bytes, n: nat)
    requires n <= |a + b|
    ensures (a + b)[..n] == if n <= |a| then a[..n] else a + b[..n - |a|]
  {
  }

  lemma {:induction false} CopyBehind(x: bytes, out: bytes, offset: nat, n: nat)
    requires 1 <= offset <= |out|
    ensures Copy(x + out, offset, n) == x + Copy(out, offset, n)
    decreases n
  {
    if n != 0 {
      var next := [out[|out| - offset]];
      assert (x + out)[|x + out| - offset] == next[0];
      ConcatAssociates(x, out, next);
      CopyBehind(x, out + next, offset, n - 1);
    }
  }

  /** A decoder that has seen more before decodes the same. */
  lemma {:induction false} ExpandBehind(x: bytes, out: bytes, tokens: seq<Lz>)
    requires Sound(out, tokens)
    ensures Sound(x + out, tokens) && Expand(x + out, tokens) == x + Expand(out, tokens)
    decreases |tokens|
  {
    hide Copy;
    if tokens != [] {
      match tokens[0]
      case Lit(chars) =>
        ConcatAssociates(x, out, chars);
        ExpandBehind(x, out + chars, tokens[1..]);
      case Back(offset, length) =>
        CopyBehind(x, out, offset, length);
        ExpandBehind(x, Copy(out, offset, length), tokens[1..]);
    }
  }

  lemma {:induction false} ExpandAppend(out: bytes, a: seq<Lz>, b: seq<Lz>)
    requires Sound(out, a) && Sound(Expand(out, a), b)
    ensures Sound(out, a + b) && Expand(out, a + b) == Expand(Expand(out, a), b)
    decreases |a|
  {
    hide Copy;
    if a == [] {
      assert a + b == b;
    } else {
      assert (a + b)[1..] == a[1..] + b;
      match a[0]
      case Lit(chars) => ExpandAppend(out + chars, a[1..], b);
      case Back(offset, length) => ExpandAppend(Copy(out, offset, length), a[1..], b);
    }
  }

  /** The whole stream is LZ-sound: across the slides no match reaches further than 32 KB back. */
  lemma {:induction false} StreamIsLz(p: Params, dict: bytes, seed: nat, count: nat, fuel: nat) returns (tokens: seq<Lz>)
    requires p.Valid() && |dict| == DICT && Blocks(p, dict, seed, count, fuel).Some?
    ensures Sound(dict, tokens) && Expand(dict, tokens) == dict + Blocks(p, dict, seed, count, fuel).value
    decreases count
  {
    tokens := [];
    if count == 0 {
      assert dict + [] == dict;
    } else {
      var b := GenBlock(p, dict, DICT + BLOCK, seed, fuel).value;
      var first := BlockIsLz(p, dict, seed, fuel);
      GenBlockKeepsPrefix(p, dict, DICT + BLOCK, seed, fuel);
      hide GenBlock, BlockAfter, Copy;
      var last := b.0[BLOCK..];
      var rest := StreamIsLz(p, last, b.1, count - 1, fuel);
      var blocks := Blocks(p, last, b.1, count - 1, fuel).value;
      assert Expand(dict, first) == b.0;
      JoinStream(dict, b.0, first, rest, blocks);
      tokens := first + rest;
    }
  }

  /** What a block adds to the dictionary: in sparse content, literals. */
  lemma {:induction false} BlockIsLz(p: Params, dict: bytes, seed: nat, fuel: nat) returns (tokens: seq<Lz>)
    requires p.Valid() && |dict| == DICT && GenBlock(p, dict, DICT + BLOCK, seed, fuel).Some?
    ensures Sound(dict, tokens) && Expand(dict, tokens) == GenBlock(p, dict, DICT + BLOCK, seed, fuel).value.0
  {
    hide Turns, Sparse;
    if p.sparse {
      GenBlockKeepsPrefix(p, dict, DICT + BLOCK, seed, fuel);
      var b := GenBlock(p, dict, DICT + BLOCK, seed, fuel).value.0;
      tokens := [Lit(b[DICT..])];
      assert tokens[1..] == [] && dict + b[DICT..] == b;
      assert Expand(dict, tokens) == Expand(b, []);
    } else {
      tokens := RunIsLz(p, DICT + BLOCK, Start(p, dict, seed), fuel);
    }
  }

  lemma JoinStream(dict: bytes, buffer: bytes, first: seq<Lz>, rest: seq<Lz>, blocks: bytes)
    requires |buffer| == DICT + BLOCK && |dict| == DICT && dict <= buffer && Sound(dict, first) && Expand(dict, first) == buffer
    requires Sound(buffer[BLOCK..], rest) && Expand(buffer[BLOCK..], rest) == buffer[BLOCK..] + blocks
    ensures Sound(dict, first + rest) && Expand(dict, first + rest) == dict + (buffer[DICT..] + blocks)
  {
    hide Expand, Sound;
    ExpandBehind(buffer[..BLOCK], buffer[BLOCK..], rest);
    assert buffer[..BLOCK] + buffer[BLOCK..] == buffer;
    ExpandAppend(dict, first, rest);
    Slide(buffer, dict, blocks);
  }

  // ---- The C functions ----

  /** A match, byte by byte. */
  method CopyMatch(buff: array<byte>, pos: nat, d: nat, offset: nat)
    requires 1 <= offset <= pos <= d <= buff.Length
    modifies buff
    ensures buff[..d] == Copy(old(buff[..pos]), offset, d - pos)
  {
    var i := pos;
    while i < d
      invariant pos <= i <= d
      invariant Copy(buff[..i], offset, d - i) == Copy(old(buff[..pos]), offset, d - pos)
    {
      ghost var before := buff[..i];
      buff[i] := buff[i - offset];
      assert buff[..i + 1] == before + [before[i - offset]];
      i := i + 1;
    }
  }

  method WriteLiterals(buff: array<byte>, pos: nat, d: nat, p: Params, seed0: nat) returns (seed: nat)
    requires p.Valid() && pos <= d <= buff.Length
    modifies buff
    ensures (buff[..d], seed) == Literals(p, old(buff[..pos]), d - pos, seed0)
  {
    hide Draw;
    var i := pos;
    seed := seed0;
    while i < d
      invariant pos <= i <= d
      invariant Literals(p, buff[..i], d - i, seed) == Literals(p, old(buff[..pos]), d - pos, seed0)
    {
      ghost var before := buff[..i];
      var drawn := Draw(seed);
      buff[i] := CharOf(p, drawn);
      seed := drawn.seed;
      assert buff[..i + 1] == before + [CharOf(p, drawn)];
      i := i + 1;
    }
  }

  method MemsetZero(buff: array<byte>, pos: nat, d: nat)
    requires pos <= d <= buff.Length
    modifies buff
    ensures buff[..d] == old(buff[..pos]) + Zeros(d - pos)
  {
    var i := pos;
    while i < d
      invariant pos <= i <= d
      invariant buff[..i] == old(buff[..pos]) + Zeros(i - pos)
    {
      buff[i] := 0;
      i := i + 1;
    }
  }

  method GenSparse(buff: array<byte>, buffSize: nat, prefixSize: nat, p: Params, seed0: nat) returns (seed: nat)
    requires p.Valid() && prefixSize <= buffSize <= buff.Length
    modifies buff
    ensures (buff[..buffSize], seed) == Sparse(p, buffSize, old(buff[..prefixSize]), seed0)
  {
    hide RandRun, Draw, CharOf;
    var pos := prefixSize;
    seed := seed0;
    while true
      invariant pos <= buffSize
      invariant Sparse(p, buffSize, buff[..pos], seed) == Sparse(p, buffSize, old(buff[..prefixSize]), seed0)
      decreases buffSize - pos
    {
      var run := RandRun(seed);
      if buffSize < pos + run.value {
        MemsetZero(buff, pos, buffSize);
        return run.seed;
      }
      ghost var before := buff[..pos];
      MemsetZero(buff, pos, pos + run.value);
      var drawn := Draw(run.seed);
      pos := pos + run.value;
      buff[pos - 1] := CharOf(p, drawn);
      assert buff[..pos] == before + Zeros(run.value - 1) + [CharOf(p, drawn)];
      seed := drawn.seed;
    }
  }

  /** RDG_genBlock, on a seed for which it ends within `fuel` turns. */
  method GenBlockInPlace(buff: array<byte>, buffSize: nat, prefixSize: nat, p: Params, seed0: nat, ghost fuel: nat)
    returns (seed: nat)
    requires p.Valid() && prefixSize <= buffSize <= buff.Length && 1 <= buffSize
    requires GenBlock(p, buff[..prefixSize], buffSize, seed0, fuel).Some?
    modifies buff
    ensures (buff[..buffSize], seed) == GenBlock(p, old(buff[..prefixSize]), buffSize, seed0, fuel).value
  {
    hide Draw, CharOf;
    if p.sparse {
      seed := GenSparse(buff, buffSize, prefixSize, p, seed0);
      return;
    }
    ghost var prefix := buff[..prefixSize];
    var pos := prefixSize;
    seed := seed0;
    if pos == 0 {
      var drawn := Draw(seed);
      buff[0] := CharOf(p, drawn);
      seed, pos := drawn.seed, 1;
    }
    assert Gen(buff[..pos], 1, seed) == Start(p, prefix, seed0);
    hide Start, Run;
    seed := MainLoop(buff, buffSize, pos, p, seed, fuel);
  }

  method MainLoop(buff: array<byte>, buffSize: nat, start: nat, p: Params, seed0: nat, ghost fuel0: nat) returns (seed: nat)
    requires p.Valid() && 1 <= start <= buffSize <= buff.Length
    requires Run(p, buffSize, Gen(buff[..start], 1, seed0), fuel0).Some?
    modifies buff
    ensures var g := Run(p, buffSize, Gen(old(buff[..start]), 1, seed0), fuel0).value;
      buff[..buffSize] == g.out && seed == g.seed
  {
    hide Token;
    var pos, prevOffset := start, 1;
    seed := seed0;
    ghost var fuel := fuel0;
    while pos < buffSize
      invariant pos <= buffSize && ValidGen(Gen(buff[..pos], prevOffset, seed))
      invariant Run(p, buffSize, Gen(buff[..pos], prevOffset, seed), fuel)
             == Run(p, buffSize, Gen(old(buff[..start]), 1, seed0), fuel0)
      decreases fuel
    {
      pos, prevOffset, seed := OneToken(buff, buffSize, pos, p, prevOffset, seed);
      fuel := fuel - 1;
    }
  }

  method OneToken(buff: array<byte>, buffSize: nat, pos: nat, p: Params, prevOffset: nat, seed: nat)
    returns (d: nat, offset: nat, next: nat)
    requires p.Valid() && pos < buffSize <= buff.Length && ValidGen(Gen(buff[..pos], prevOffset, seed))
    modifies buff
    ensures pos <= d <= buffSize
    ensures Gen(buff[..d], offset, next) == Token(p, buffSize, Gen(old(buff[..pos]), prevOffset, seed))
  {
    hide Choose;
    ChosenWell(p, Gen(buff[..pos], prevOffset, seed));
    var c := Choose(p, pos, prevOffset, seed);
    d := Min(pos + c.length, buffSize);
    if c.Match? {
      CopyMatch(buff, pos, d, c.offset);
      offset, next := c.offset, c.seed;
    } else {
      next := WriteLiterals(buff, pos, d, p, c.seed);
      offset := prevOffset;
    }
  }

  /** The loop of RDG_genStdout, after the initial dictionary was generated into the front of the buffer. */
  method GenStdout(buff: array<byte>, size: nat, p: Params, seed0: nat, ghost fuel: nat) returns (written: bytes)
    requires p.Valid() && buff.Length == DICT + BLOCK && Emit(p, buff[..DICT], seed0, size, fuel).Some?
    modifies buff
    ensures Some(written) == Emit(p, old(buff[..DICT]), seed0, size, fuel)
  {
    hide GenBlock;
    var total, seed := 0, seed0;
    written := [];
    ghost var all := Emit(p, buff[..DICT], seed0, size, fuel).value;
    while total < size
      invariant total <= size
      invariant var rest := Emit(p, buff[..DICT], seed, size - total, fuel); rest.Some? && written + rest.value == all
    {
      var genBlockSize := Min(BLOCK, size - total);
      ghost var b := GenBlock(p, buff[..DICT], DICT + BLOCK, seed, fuel).value;
      seed := GenBlockInPlace(buff, DICT + BLOCK, DICT, p, seed, fuel);
      assert buff[..DICT + BLOCK] == buff[..];
      total := total + genBlockSize;
      ghost var rest := Emit(p, b.0[BLOCK..], b.1, size - total, fuel).value;
      ConcatAssociates(written, b.0[..genBlockSize], rest);
      written := written + buff[..genBlockSize];
      SlideDown(buff);
    }
    assert written + [] == written;
  }

  /** RDG_genStdout, on a seed for which the dictionary and `count` blocks are generated within `fuel` turns each:
      it writes exactly the first `size` bytes of the dictionary followed by the blocks. */
  method RdgGenStdout(size: nat, p: Params, seed0: nat, ghost count: nat, ghost fuel: nat) returns (written: bytes)
    requires p.Valid() && GenBlock(p, [], DICT, seed0, fuel).Some? && size <= count * BLOCK
    requires var dict := GenBlock(p, [], DICT, seed0, fuel).value; Blocks(p, dict.0, dict.1, count, fuel).Some?
    ensures var dict := GenBlock(p, [], DICT, seed0, fuel).value;
      var stream := dict.0 + Blocks(p, dict.0, dict.1, count, fuel).value;
      size <= |stream| && written == stream[..size]
  {
    hide GenBlock, Blocks, Emit;
    var buff := new byte[DICT + BLOCK];
    assert buff[..0] == [];
    ghost var dict := GenBlock(p, [], DICT, seed0, fuel).value;
    var seed := GenBlockInPlace(buff, DICT, 0, p, seed0, fuel);
    EmitsStreamPrefix(p, dict.0, dict.1, size, count, fuel);
    written := GenStdout(buff, size, p, seed, fuel);
  }

  /** `memcpy(buff, buff + stdBlockSize, stdDictSize)` */
  method SlideDown(buff: array<byte>)
    requires buff.Length == DICT + BLOCK
    modifies buff
    ensures buff[..DICT] == old(buff[BLOCK..])
  {
    ghost var before := buff[..];
    var i := 0;
    while i < DICT
      invariant i <= DICT
      invariant forall k :: 0 <= k < i ==> buff[k] == before[BLOCK + k]
      invariant forall k :: i <= k < buff.Length ==> buff[k] == before[k]
    {
      buff[i] := buff[BLOCK + i];
      i := i + 1;
    }
    ghost var slid := before[BLOCK..];
    assert |slid| == DICT && forall k :: 0 <= k < DICT ==> slid[k] == before[BLOCK + k];
    assert buff[..DICT] == slid;
  }

  // ---- The literal distribution ----

  function FirstChar(ld: nat): byte {
    if ld == 0 then 0 else '(' as byte
  }

  function LastChar(ld: nat): byte {
    if ld == 0 then 255 else '}' as byte
  }

  predicate InRange(c: byte, ld: nat) {
    FirstChar(ld) <= c <= LastChar(ld)
  }

  /** `character++`, which for a BYTE of 255 gives 0, and the test of the result. */
  function NextChar(c: byte, ld: nat): byte {
    var next := if c == 255 then 0 else c + 1;
    if LastChar(ld) < next then FirstChar(ld) else next
  }

  lemma NextInRange(c: byte, ld: nat)
    requires InRange(c, ld)
    ensures InRange(NextChar(c, ld), ld)
    ensures c != LastChar(ld) ==> NextChar(c, ld) == c + 1
    ensures c == LastChar(ld) ==> NextChar(c, ld) == FirstChar(ld)
    ensures NextChar(c, ld) != c
  {
  }

  /** Where a run that begins at `u` ends: it takes a share of `ld` / 256 of the rest of the table, and one more. */
  function RunEnd(ld: nat, u: nat): (end: nat)
    requires u < LTSIZE
    ensures u < end <= LTSIZE
  {
    Min(u + ((LTSIZE - u) * ld) % U32_LIMIT / 256 + 1, LTSIZE)
  }

  /** A run of equal characters begins here. */
  predicate Begins(s: bytes, u: nat) {
    u < |s| && (u == 0 || s[u - 1] != s[u])
  }

  predicate RunAt(s: bytes, ld: nat, u: nat, next: byte)
    requires u < |s| <= LTSIZE
  {
    var end := RunEnd(ld, u);
    && end <= |s| && (forall k | u <= k < end :: s[k] == s[u])
    && (if end < |s| then s[end] else next) == NextChar(s[u], ld)
  }

  /** Every run has its share and is followed by the next character, the last one by `next`. */
  ghost predicate Runs(s: bytes, ld: nat, next: byte) {
    |s| <= LTSIZE && forall u: nat | Begins(s, u) :: RunAt(s, ld, u, next)
  }

  function RunOf(character: byte, n: nat): (s: bytes)
    ensures |s| == n && forall i | 0 <= i < n :: s[i] == character
  {
    seq(n, _ => character)
  }

  lemma OneRunMore(s: bytes, ld: nat, next: byte)
    requires Runs(s, ld, next) && |s| < LTSIZE && InRange(next, ld)
    requires s != [] ==> s[|s| - 1] != next
    ensures Runs(s + RunOf(next, RunEnd(ld, |s|) - |s|), ld, NextChar(next, ld))
  {
    hide RunEnd, NextChar;
    var n := RunEnd(ld, |s|) - |s|;
    var t := s + RunOf(next, n);
    forall u: nat | Begins(t, u) ensures RunAt(t, ld, u, NextChar(next, ld)) {
      if u < |s| {
        assert Begins(s, u) && RunAt(s, ld, u, next);
      } else {
        assert u == |s|;
      }
    }
  }

  function FirstFilled(ld: nat): byte {
    if ld == 0 then 0 else '0' as byte
  }

  /** The front of the table, and the character that comes next. */
  ghost predicate Filled(s: bytes, ld: nat, next: byte) {
    && Runs(s, ld, next) && InRange(next, ld) && (forall k | 0 <= k < |s| :: InRange(s[k], ld))
    && if s == [] then next == FirstFilled(ld) else s[0] == FirstFilled(ld) && s[|s| - 1] != next
  }

  lemma NothingFilled(ld: nat)
    ensures Filled([], ld, FirstFilled(ld))
  {
  }

  lemma FilledMore(s: bytes, ld: nat, next: byte)
    requires Filled(s, ld, next) && |s| < LTSIZE
    ensures Filled(s + RunOf(next, RunEnd(ld, |s|) - |s|), ld, NextChar(next, ld))
  {
    hide Runs, RunEnd, NextChar;
    OneRunMore(s, ld, next);
    NextInRange(next, ld);
  }

  /** RDG_fillLiteralDistrib: the whole table is filled with characters of the allowed range, in runs that each have
      their share of the rest of the table, each followed by the next character. */
  method FillLiteralDistrib(ldt: array<byte>, ld: nat)
    requires ldt.Length == LTSIZE
    modifies ldt
    ensures exists next :: Runs(ldt[..], ld, next)
    ensures forall k :: 0 <= k < LTSIZE ==> InRange(ldt[..][k], ld)
    ensures ldt[..][0] == FirstFilled(ld)
  {
    hide NextChar, RunEnd, Runs, Filled;
    var character := FirstFilled(ld);
    var u := 0;
    NothingFilled(ld);
    assert ldt[..0] == [];
    while u < LTSIZE
      invariant u <= LTSIZE && Filled(ldt[..u], ld, character)
      decreases LTSIZE - u
    {
      FilledMore(ldt[..u], ld, character);
      EndIs(ld, u);
      var weight := ((LTSIZE - u) * ld) % U32_LIMIT / 256 + 1;
      var end := Min(u + weight, LTSIZE);
      u := FillRun(ldt, u, end, character);
      character := NextChar(character, ld);
    }
    assert ldt[..u] == ldt[..];
    AllFilled(ldt[..], ld, character);
  }

  lemma AllFilled(s: bytes, ld: nat, next: byte)
    requires Filled(s, ld, next) && |s| == LTSIZE
    ensures Runs(s, ld, next) && (forall k | 0 <= k < LTSIZE :: InRange(s[k], ld)) && s[0] == FirstFilled(ld)
  {
  }

  lemma EndIs(ld: nat, u: nat)
    requires u < LTSIZE
    ensures RunEnd(ld, u) == Min(u + ((LTSIZE - u) * ld) % U32_LIMIT / 256 + 1, LTSIZE)
  {
  }

  method FillRun(ldt: array<byte>, start: nat, end: nat, character: byte) returns (u: nat)
    requires start < end <= ldt.Length
    modifies ldt
    ensures u == end && ldt[..end] == old(ldt[..start]) + RunOf(character, end - start)
  {
    u := start;
    while u < end
      invariant start <= u <= end
      invariant ldt[..u] == old(ldt[..start]) + RunOf(character, u - start)
    {
      ldt[u] := character;
      u := u + 1;
    }
  }
}
