/** The streaming contracts can be met, and by two codecs that agree: a codec that stores every byte behind
    a 1, ends a frame with a 0, and never moves more than one byte a call. */
module StoredCodec {
  import opened Bytes
  import opened Codec
  import opened FrameFormat
  import CompressDriver
  import RoundTrip

  const HEAD: bytes := [0x28, 0xB5, 0x2F, 0xFD]

  function Pairs(data: bytes): bytes {
    if data == [] then [] else [1, data[0]] + Pairs(data[1..])
  }

  lemma {:induction false} PairsAppend(data: bytes, x: byte)
    ensures Pairs(data + [x]) == Pairs(data) + [1, x]
  {
    if data == [] {
      assert data + [x] == [x] && Pairs([x]) == [1, x] + Pairs([]);
    } else {
      PairsAppend(data[1..], x);
      assert (data + [x])[1..] == data[1..] + [x];
    }
  }

  predicate IsBody(b: bytes) {
    b != [] && if b[0] == 0 then |b| == 1 else b[0] == 1 && 3 <= |b| && IsBody(b[2..])
  }

  function Unpair(b: bytes): bytes {
    if |b| < 2 then [] else [b[1]] + Unpair(b[2..])
  }

  predicate IsStored(f: bytes) {
    4 <= |f| && f[..4] == HEAD && IsBody(f[4..])
  }

  function Content(f: bytes): bytes {
    if 4 <= |f| then Unpair(f[4..]) else []
  }

  lemma {:induction false} BodyOf(data: bytes)
    ensures IsBody(Pairs(data) + [0]) && Unpair(Pairs(data) + [0]) == data
  {
    if data != [] {
      BodyOf(data[1..]);
      var b := Pairs(data) + [0];
      assert b[2..] == Pairs(data[1..]) + [0] && b[0] == 1 && b[1] == data[0];
    }
  }

  // ---- Storing ----

  datatype Writer = Writer(input: bytes, output: bytes, pending: bytes, ending: bool, done: bool)

  function Store(s: Writer, input: bytes, capacity: nat, end: bool): Answer<Writer> {
    if s.pending != [] then
      Answer(s.(output := s.output + [s.pending[0]], pending := s.pending[1..], ending := end), 0, [s.pending[0]], 1)
    else if input != [] then
      Answer(s.(input := s.input + [input[0]], pending := [1, input[0]], ending := end), 1, [], 1)
    else
      Answer(s.(output := s.output + [0], ending := end, done := end), 0, [0], if end then 0 else 1)
  }

  function Compress(): Compressor<Writer> {
    Compressor(Store,
      (s: Writer) => !s.done && s.output + s.pending == HEAD + Pairs(s.input), (s: Writer) => s.ending,
      (s: Writer) => s.input, (s: Writer) => s.output, (s: Writer) => |s.pending| + if s.done then 0 else 1,
      (f, data) => f == HEAD + Pairs(data) + [0])
  }

  lemma StoreIsLawful(s: Writer, input: bytes, capacity: nat, end: bool)
    ensures CompressLaw(Compress(), s, input, capacity, end)
  {
    if s.pending != [] {
      assert s.output + s.pending == (s.output + [s.pending[0]]) + s.pending[1..];
      assert s.input + input[..0] == s.input;
    } else if input != [] {
      PairsAppend(s.input, input[0]);
      assert s.output + [] == s.output;
      assert HEAD + (Pairs(s.input) + [1, input[0]]) == (HEAD + Pairs(s.input)) + [1, input[0]];
      assert s.input + input[..1] == s.input + [input[0]];
    } else {
      assert s.input + input[..0] == s.input;
      assert s.output + [] == s.output;
    }
  }

  // ---- Reading back ----

  datatype Reader = Reader(taken: bytes, given: bytes)

  /** What may have been taken of a frame that is not complete. */
  predicate Partial(s: Reader) {
    if |s.taken| < 4 then s.taken == HEAD[..|s.taken|] && s.given == []
    else s.taken == HEAD + Pairs(s.given) || s.taken == HEAD + Pairs(s.given) + [1]
  }

  function Fetch(s: Reader, input: bytes, capacity: nat): Answer<Reader> {
    var n := |s.taken|;
    if input == [] then Answer(s, 0, [], 1)
    else
      var b := input[0];
      var t := s.taken + [b];
      if n < 4 then (if b == HEAD[n] then Answer(Reader(t, s.given), 1, [], 1) else CodecError)
      else if n % 2 == 1 then Answer(Reader(t, s.given + [b]), 1, [b], 1)
      else if b == 1 then Answer(Reader(t, s.given), 1, [], 1)
      else if b == 0 then Answer(Reader(t, s.given), 1, [], 0)
      else CodecError
  }

  function Decompress(): Decompressor<Reader> {
    Decompressor(Fetch, (s: Reader) => Reader([], []), (s: Reader) => Partial(s), (s: Reader) => s.taken, (s: Reader) => s.given,
      (s: Reader) => 0, (f: bytes) => IsStored(f), (f: bytes) => Content(f))
  }

  lemma {:induction false} PairsLength(data: bytes)
    ensures |Pairs(data)| == 2 * |data|
  {
    if data != [] {
      PairsLength(data[1..]);
    }
  }

  lemma FetchIsLawful(s: Reader, input: bytes, capacity: nat)
    ensures DecompressLaw(Decompress(), s, input, capacity)
  {
    if Partial(s) && input != [] {
      var b := input[0];
      assert input[..1] == [b];
      PairsLength(s.given);
      if 4 <= |s.taken| {
        if |s.taken| % 2 == 1 {
          PairsAppend(s.given, b);
          assert (HEAD + Pairs(s.given) + [1]) + [b] == HEAD + (Pairs(s.given) + [1, b]);
        } else if b == 0 {
          BodyOf(s.given);
          var f := s.taken + [b];
          assert f == HEAD + (Pairs(s.given) + [0]) && f[..4] == HEAD && f[4..] == Pairs(s.given) + [0];
        }
      } else if |s.taken| == 3 {
        assert s.taken + [HEAD[3]] == HEAD + Pairs([]);
      }
    }
  }

  /** How a frame goes on after what was taken of it. */
  predicate GoesOn(f: bytes, n: nat) {
    n < |f| && (if n % 2 == 1 then n + 2 <= |f| else (f[n] == 0 && |f| == n + 1) || (f[n] == 1 && n + 3 <= |f|))
  }

  lemma {:induction false} BodyGoesOn(b: bytes, data: bytes, odd: bool)
    requires IsBody(b)
    requires var t := Pairs(data) + if odd then [1] else []; t <= b || b <= t
    ensures var t := Pairs(data) + if odd then [1] else []; t <= b && GoesOn(b, |t|)
    decreases |data|
  {
    PairsLength(data);
    var t := Pairs(data) + if odd then [1] else [];
    if data != [] {
      assert t[0] == 1 && t[1] == data[0];
      assert b[0] == 1;
      var t2 := Pairs(data[1..]) + if odd then [1] else [];
      assert t == [1, data[0]] + t2 && t[2..] == t2;
      assert b == [b[0], b[1]] + b[2..];
      BodyGoesOn(b[2..], data[1..], odd);
      assert GoesOn(b, |t|);
    }
  }

  lemma FrameGoesOn(f: bytes, s: Reader)
    requires IsStored(f) && Partial(s) && Compatible(f, s.taken)
    ensures s.taken <= f && |s.taken| < |f|
    ensures if |s.taken| < 4 then f[|s.taken|] == HEAD[|s.taken|] && |s.taken| + 2 <= |f| else GoesOn(f, |s.taken|)
  {
    assert f == HEAD + f[4..];
    if 4 <= |s.taken| {
      var odd := s.taken == HEAD + Pairs(s.given) + [1];
      var t := Pairs(s.given) + if odd then [1] else [];
      assert s.taken == HEAD + t && s.taken[4..] == t;
      assert f[4..] <= t || t <= f[4..];
      BodyGoesOn(f[4..], s.given, odd);
    } else {
      assert f[..|s.taken|] == HEAD[..|s.taken|];
    }
  }

  lemma FetchReadsFrames(s: Reader, input: bytes, capacity: nat, f: bytes)
    ensures FrameLaw(Decompress(), s, input, capacity, f)
  {
    if Partial(s) && IsStored(f) && Compatible(f, s.taken + input) {
      var n := |s.taken|;
      assert Compatible(f, s.taken) by {
        if f <= s.taken + input && |f| <= n {
          assert f == (s.taken + input)[..|f|] == s.taken[..|f|];
        } else {
          assert s.taken == (s.taken + input)[..n] == f[..n];
        }
      }
      FrameGoesOn(f, s);
      if input != [] {
        assert f[n] == (s.taken + input)[n] == input[0];
        assert f[..n + 1] == s.taken + [input[0]];
      }
    }
  }

  lemma StoredIsFrame(f: bytes)
    requires IsStored(f)
    ensures IsFrame(f)
  {
    FourBytes(f[..4]);
  }

  function FrameFor(data: bytes): bytes {
    HEAD + Pairs(data) + [0]
  }

  lemma CompressIsLawful()
    ensures CompressContract(Compress())
  {
    hide Compress;
    forall s: Writer, input: bytes, capacity: nat, end: bool ensures CompressLaw(Compress(), s, input, capacity, end) {
      StoreIsLawful(s, input, capacity, end);
    }
  }

  lemma DecompressIsLawful()
    ensures DecompressContract(Decompress())
  {
    forall f: bytes | Decompress().valid(f) ensures IsFrame(f) {
      StoredIsFrame(f);
    }
    forall s: Reader ensures Decompress().open(Decompress().reset(s))
      && Decompress().taken(Decompress().reset(s)) == Decompress().given(Decompress().reset(s)) == [] {
    }
    hide Decompress, IsFrame;
    forall s: Reader, input: bytes, capacity: nat ensures DecompressLaw(Decompress(), s, input, capacity) {
      FetchIsLawful(s, input, capacity);
    }
    forall s: Reader, input: bytes, capacity: nat, f: bytes ensures FrameLaw(Decompress(), s, input, capacity, f) {
      FetchReadsFrames(s, input, capacity, f);
    }
  }

  lemma CodecsAgree()
    ensures RoundTrip.Agree(Compress(), Decompress())
  {
    forall f: bytes, data: bytes | Compress().frame(f, data) ensures Decompress().valid(f) && Decompress().content(f) == data {
      BodyOf(data);
      assert f == HEAD + (Pairs(data) + [0]) && f[..4] == HEAD && f[4..] == Pairs(data) + [0];
    }
  }

  lemma StoringNeverFails()
    ensures NeverFails(Compress())
  {
  }

  /** Both contracts hold, a session begins and never fails, the two codecs agree, and every content has a frame. */
  lemma ContractsAreMet()
    ensures CompressContract(Compress()) && DecompressContract(Decompress()) && RoundTrip.Agree(Compress(), Decompress())
    ensures CompressDriver.Session(Compress(), Writer([], [], HEAD, false, false), [], [], false)
    ensures NeverFails(Compress())
    ensures forall data: bytes :: Compress().frame(FrameFor(data), data)
  {
    assert [] + HEAD == HEAD + Pairs([]);
    assert CompressDriver.Session(Compress(), Writer([], [], HEAD, false, false), [], [], false);
    StoringNeverFails();
    hide CompressContract, DecompressContract, RoundTrip.Agree, NeverFails, CompressDriver.Session;
    CompressIsLawful();
    DecompressIsLawful();
    CodecsAgree();
  }
}
