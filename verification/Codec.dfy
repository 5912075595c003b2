/** The streaming contracts of zstd.h, as laws about an otherwise unknown codec. A codec is a record
    of functions: the streaming call itself, and what its state stands for. */
module Codec {
  import opened Bytes
  import opened FrameFormat

  /** One streaming call: the bytes it took, the bytes it gave and its return value, or an error. */
  datatype Answer<S> = Answer(state: S, consumed: nat, out: bytes, remaining: nat) | CodecError

  // ---- Compression: ZSTD_compressStream2 ----

  /** `stream2(s, input, capacity, end)` is the call with ZSTD_e_end or ZSTD_e_continue. `input(s)` and
      `output(s)` are the bytes taken and given since the session began, `open(s)` says that the frame is not
      complete, `ending(s)` that ZSTD_e_end was asked for, `credit(s)` bounds what can be given without taking more,
      and `frame(f, data)` says that `f` is a complete frame whose content is `data`. */
  datatype Compressor<!S> = Compressor(
    stream2: (S, bytes, nat, bool) -> Answer<S>,
    open: S -> bool, ending: S -> bool, input: S -> bytes, output: S -> bytes, credit: S -> nat,
    frame: (bytes, bytes) -> bool)

  /** Both positions stay below their limits; at least one of them moves, or ZSTD_e_end is done;
      and 0 is returned for ZSTD_e_end only for a complete frame of everything taken. */
  ghost predicate CompressLaw<S>(z: Compressor<S>, s: S, input: bytes, capacity: nat, end: bool) {
    var a := z.stream2(s, input, capacity, end);
    z.open(s) && (z.ending(s) ==> end) && 0 < capacity && (input != [] || end) && a.Answer? ==>
      && a.consumed <= |input| && |a.out| <= capacity
      && z.input(a.state) == z.input(s) + input[..a.consumed] && z.output(a.state) == z.output(s) + a.out
      && (a.consumed == 0 ==> z.credit(a.state) + |a.out| <= z.credit(s))
      && (0 < a.consumed || a.out != [] || (end && a.remaining == 0))
      && (if end && a.remaining == 0
          then a.consumed == |input| && z.frame(z.output(a.state), z.input(a.state))
          else z.open(a.state) && z.ending(a.state) == end)
  }

  /** A call in the middle of a frame that the codec answers with an error. */
  ghost predicate ErrorAt<S>(z: Compressor<S>, s: S, input: bytes, capacity: nat, end: bool) {
    && z.open(s) && (z.ending(s) ==> end) && 0 < capacity && (input != [] || end)
    && z.stream2(s, input, capacity, end).CodecError?
  }

  ghost predicate NeverFails<S(!new)>(z: Compressor<S>) {
    forall s: S, input: bytes, capacity: nat, end: bool :: !ErrorAt(z, s, input, capacity, end)
  }

  ghost predicate CompressContract<S(!new)>(z: Compressor<S>) {
    forall s: S, input: bytes, capacity: nat, end: bool :: CompressLaw(z, s, input, capacity, end)
  }

  // ---- Decompression: ZSTD_decompressStream ----

  /** `stream(s, input, capacity)` is the call and `reset` is ZSTD_DCtx_reset. `taken(s)` and `given(s)` are the
      bytes taken and given since the reset, `open(s)` says that the frame is not complete, `credit(s)` bounds
      what can be given without taking more; `valid(f)` says that `f` is one frame, and `content(f)` is its content. */
  datatype Decompressor<!S> = Decompressor(
    stream: (S, bytes, nat) -> Answer<S>, reset: S -> S,
    open: S -> bool, taken: S -> bytes, given: S -> bytes, credit: S -> nat,
    valid: bytes -> bool, content: bytes -> bytes)

  /** One is the beginning of the other. */
  predicate Compatible(f: bytes, x: bytes) {
    f <= x || x <= f
  }

  /** Whatever the input: 0 is returned only when the bytes taken are one frame and the bytes given its content. */
  ghost predicate DecompressLaw<S>(d: Decompressor<S>, s: S, input: bytes, capacity: nat) {
    var a := d.stream(s, input, capacity);
    d.open(s) && 0 < capacity && a.Answer? ==>
      && a.consumed <= |input| && |a.out| <= capacity
      && d.taken(a.state) == d.taken(s) + input[..a.consumed] && d.given(a.state) == d.given(s) + a.out
      && (a.consumed == 0 ==> d.credit(a.state) + |a.out| <= d.credit(s))
      && (input != [] ==> 0 < a.consumed || a.out != [])
      && (if a.remaining == 0
          then d.valid(d.taken(a.state)) && d.given(a.state) == d.content(d.taken(a.state))
          else d.open(a.state))
  }

  /** On a frame: no error, nothing is taken from behind the frame, its last byte is taken only with the return
      of 0, and a suggested input size never exceeds what remains of the frame. */
  ghost predicate FrameLaw<S>(d: Decompressor<S>, s: S, input: bytes, capacity: nat, f: bytes) {
    var a := d.stream(s, input, capacity);
    d.open(s) && 0 < capacity && d.valid(f) && Compatible(f, d.taken(s) + input) ==>
      && a.Answer?
      && d.taken(a.state) <= f && (a.remaining == 0 <==> d.taken(a.state) == f)
      && |d.taken(a.state)| + a.remaining <= |f|
  }

  ghost predicate DecompressContract<S(!new)>(d: Decompressor<S>) {
    && (forall s: S, input: bytes, capacity: nat :: DecompressLaw(d, s, input, capacity))
    && (forall s: S, input: bytes, capacity: nat, f: bytes :: FrameLaw(d, s, input, capacity, f))
    && (forall s: S :: d.open(d.reset(s)) && d.taken(d.reset(s)) == d.given(d.reset(s)) == [])
    && (forall f: bytes :: d.valid(f) ==> IsFrame(f))
  }
}
