/** A list of file names read from a file: the content is read into a growing buffer,
    its newlines become terminators, and a pointer is made to every line. */
module FileList {
  import opened Bytes
  import opened FileModel

  const MAX_SIZE: nat := 50 * 0x10_0000 // MAX_FILE_OF_FILE_NAMES_SIZE
  const NEWLINE: byte := 10
  const NUL: byte := 0

  // ---- What the lines are ----

  /** The bytes before the first `stop`. */
  function Upto(s: bytes, stop: byte): (line: bytes)
    ensures |line| <= |s| && line == s[..|line|] && stop !in line
    ensures |line| < |s| ==> s[|line|] == stop
  {
    if s == [] || s[0] == stop then [] else [s[0]] + Upto(s[1..], stop)
  }

  function After(s: bytes, stop: byte): (rest: bytes)
    requires s != []
    ensures |rest| < |s|
  {
    var n := |Upto(s, stop)|;
    if n < |s| then s[n + 1..] else []
  }

  /** The parts of `s` between the `stop`s; a last `stop` ends the last part and begins no other. */
  function Parts(s: bytes, stop: byte): seq<bytes>
    decreases |s|
  {
    if s == [] then [] else [Upto(s, stop)] + Parts(After(s, stop), stop)
  }

  function Lines(s: bytes): seq<bytes> {
    Parts(s, NEWLINE)
  }

  // ---- What the C functions compute ----

  /** Newlines replaced by terminators. */
  function Nulled(s: bytes): (t: bytes)
    ensures |t| == |s| && forall i :: 0 <= i < |s| ==> t[i] == if s[i] == NEWLINE then 0 else s[i]
  {
    if s == [] then [] else [if s[0] == NEWLINE then 0 else s[0]] + Nulled(s[1..])
  }

  function Newlines(s: bytes): nat {
    if s == [] then 0 else (if s[0] == NEWLINE then 1 else 0) + Newlines(s[1..])
  }

  /** UTIL_processLines: the newlines, and one more line unless the last byte is now a terminator. */
  function CountLines(s: bytes): nat {
    Newlines(s) + if Unfinished(s) then 1 else 0
  }

  /** The last line has no newline. */
  predicate Unfinished(s: bytes) {
    s != [] && Nulled(s)[|s| - 1] != 0
  }

  /** The C string at `pos` of a buffer that has one more terminator at its end. */
  function CString(buffer: bytes, pos: nat): bytes
    requires pos <= |buffer|
  {
    Upto(buffer[pos..], NUL)
  }

  /** The position behind the string at `pos` and its terminator. */
  function Behind(buffer: bytes, pos: nat): (next: nat)
    requires pos < |buffer|
    ensures pos < next <= |buffer|
  {
    var end := pos + |CString(buffer, pos)|;
    if end < |buffer| then end + 1 else end
  }

  /** The offsets at which UTIL_createLinePointers finds at most `count` strings from `pos` on. */
  function Pointers(buffer: bytes, pos: nat, count: nat): seq<nat>
    requires pos <= |buffer|
    decreases count
  {
    if count == 0 || pos == |buffer| then [] else [pos] + Pointers(buffer, Behind(buffer, pos), count - 1)
  }

  predicate Inside(pointers: seq<nat>, buffer: bytes) {
    forall i :: 0 <= i < |pointers| ==> pointers[i] < |buffer|
  }

  function Strings(buffer: bytes, pointers: seq<nat>): seq<bytes>
    requires Inside(pointers, buffer)
  {
    if pointers == [] then [] else [CString(buffer, pointers[0])] + Strings(buffer, pointers[1..])
  }

  predicate NulFree(s: bytes) {
    NUL !in s
  }

  // ---- The pointers are the lines ----

  lemma {:induction false} UptoNulled(s: bytes)
    requires NulFree(s)
    ensures Upto(Nulled(s), 0) == Upto(s, NEWLINE)
  {
    if s != [] {
      assert Nulled(s)[1..] == Nulled(s[1..]);
      UptoNulled(s[1..]);
    }
  }

  lemma {:induction false} NulledDrop(s: bytes, n: nat)
    requires n <= |s|
    ensures Nulled(s)[n..] == Nulled(s[n..])
  {
    if n != 0 {
      NulledDrop(s[1..], n - 1);
      assert Nulled(s)[1..] == Nulled(s[1..]);
      assert Nulled(s)[n..] == Nulled(s)[1..][n - 1..];
      assert s[n..] == s[1..][n - 1..];
    }
  }

  lemma {:induction false} NewlinesDrop(s: bytes, n: nat)
    requires n <= |s| && NEWLINE !in s[..n]
    ensures Newlines(s) == Newlines(s[n..])
  {
    if n != 0 {
      assert s[0] == s[..n][0];
      assert s[1..][..n - 1] == s[..n][1..];
      NewlinesDrop(s[1..], n - 1);
      assert s[n..] == s[1..][n - 1..];
    }
  }

  /** One line more than what follows it. */
  lemma CountStep(s: bytes)
    requires s != [] && NulFree(s)
    ensures CountLines(s) == 1 + CountLines(After(s, NEWLINE))
  {
    var n := |Upto(s, NEWLINE)|;
    NewlinesDrop(s, n);
    if n < |s| {
      var rest := s[n + 1..];
      assert s[n..][1..] == rest && s[n..][0] == NEWLINE;
      if rest != [] {
        assert rest[|rest| - 1] == s[|s| - 1];
      }
    } else {
      assert s[n..] == [];
    }
  }

  lemma {:induction false} CountIsLines(s: bytes)
    requires NulFree(s)
    ensures CountLines(s) == |Lines(s)|
    decreases |s|
  {
    hide CountLines;
    if s != [] {
      CountStep(s);
      CountIsLines(After(s, NEWLINE));
    } else {
      assert CountLines([]) == 0 by {
        EmptyCount();
      }
    }
  }

  lemma EmptyCount()
    ensures CountLines([]) == 0
  {
  }

  lemma {:induction false} PointersStay(buffer: bytes, pos: nat, count: nat)
    requires pos <= |buffer|
    ensures |Pointers(buffer, pos, count)| <= count
    ensures Inside(Pointers(buffer, pos, count), buffer)
    decreases count
  {
    if count != 0 && pos < |buffer| {
      PointersStay(buffer, Behind(buffer, pos), count - 1);
    }
  }

  /** The pointers are to the first parts, as many as are asked for. */
  predicate PointTo(buffer: bytes, pointers: seq<nat>, parts: seq<bytes>, count: nat) {
    && Inside(pointers, buffer) && |pointers| == Min(count, |parts|)
    && Strings(buffer, pointers) == parts[..|pointers|]
  }

  lemma PointToNext(buffer: bytes, pos: nat, pointers: seq<nat>, parts: seq<bytes>, count: nat)
    requires pos < |buffer| && PointTo(buffer, pointers, parts, count)
    ensures PointTo(buffer, [pos] + pointers, [CString(buffer, pos)] + parts, count + 1)
  {
    hide CString, Strings;
    StringsCons(buffer, pos, pointers);
    TakeCons(CString(buffer, pos), parts, |pointers|);
  }

  lemma NothingPointedAt(buffer: bytes, pos: nat, count: nat)
    requires pos <= |buffer| && (count == 0 || pos == |buffer|)
    ensures PointTo(buffer, [], Parts(buffer[pos..], NUL), count)
  {
    var parts := Parts(buffer[pos..], NUL);
    hide Upto, After;
    assert parts[..0] == [];
    assert pos == |buffer| ==> parts == [];
  }

  /** The strings pointed at are the parts between the terminators. */
  lemma {:induction false} PointersAreParts(buffer: bytes, pos: nat, count: nat)
    requires pos <= |buffer|
    ensures PointTo(buffer, Pointers(buffer, pos, count), Parts(buffer[pos..], NUL), count)
    decreases count
  {
    hide PointTo, CString, Parts, Behind;
    if count == 0 || pos == |buffer| {
      NothingPointedAt(buffer, pos, count);
    } else {
      var next := Behind(buffer, pos);
      FirstPart(buffer, pos);
      PointersAreParts(buffer, next, count - 1);
      PointToNext(buffer, pos, Pointers(buffer, next, count - 1), Parts(buffer[next..], NUL), count - 1);
    }
  }

  lemma TakeCons(first: bytes, rest: seq<bytes>, n: nat)
    requires n <= |rest|
    ensures ([first] + rest)[..n + 1] == [first] + rest[..n]
  {
  }

  lemma FirstPart(buffer: bytes, pos: nat)
    requires pos < |buffer|
    ensures Parts(buffer[pos..], NUL) == [CString(buffer, pos)] + Parts(buffer[Behind(buffer, pos)..], NUL)
  {
    hide Upto;
    assert After(buffer[pos..], NUL) == buffer[Behind(buffer, pos)..];
  }

  /** Without a terminator inside, these parts are the lines. */
  lemma {:induction false} PartsAreLines(s: bytes)
    requires NulFree(s)
    ensures Parts(Nulled(s), NUL) == Lines(s)
    decreases |s|
  {
    hide Upto;
    if s != [] {
      UptoNulled(s);
      var n := |Upto(s, NEWLINE)|;
      if n < |s| {
        NulledDrop(s, n + 1);
      }
      PartsAreLines(After(s, NEWLINE));
    }
  }

  /** From any line start on, the pointers are the starts of the lines. */
  lemma {:induction false} PointersAreLines(s: bytes, pos: nat)
    requires NulFree(s) && pos <= |s|
    ensures var pointers := Pointers(Nulled(s), pos, |Lines(s[pos..])|);
      && Inside(pointers, Nulled(s))
      && |pointers| == |Lines(s[pos..])| && Strings(Nulled(s), pointers) == Lines(s[pos..])
  {
    hide Upto, Nulled, Pointers, Parts;
    NulledDrop(s, pos);
    PartsAreLines(s[pos..]);
    PointersAreParts(Nulled(s), pos, |Lines(s[pos..])|);
  }

  lemma StringsCons(buffer: bytes, pos: nat, rest: seq<nat>)
    requires pos < |buffer| && Inside(rest, buffer)
    ensures Inside([pos] + rest, buffer) && Strings(buffer, [pos] + rest) == [CString(buffer, pos)] + Strings(buffer, rest)
  {
    assert ([pos] + rest)[1..] == rest;
  }

  /** A terminator in the file makes more parts, but not more counted lines. */
  lemma {:induction false} CountIsNoMoreThanParts(s: bytes)
    ensures CountLines(s) <= |Parts(Nulled(s), NUL)|
    decreases |s|
  {
    hide CountLines, Upto, Nulled;
    if s == [] {
      EmptyCount();
    } else {
      var t := Nulled(s);
      var n := |Upto(t, NUL)|;
      FewerBehind(s, n);
      if n < |s| {
        NulledDrop(s, n + 1);
        CountIsNoMoreThanParts(s[n + 1..]);
      }
    }
  }

  lemma FewerBehind(s: bytes, n: nat)
    requires s != [] && n == |Upto(Nulled(s), NUL)|
    ensures n < |s| ==> CountLines(s) <= 1 + CountLines(s[n + 1..])
    ensures n == |s| ==> CountLines(s) == 1
  {
    NewlinesBehind(s, n);
    LastBehind(s, n);
    hide Nulled, Newlines, Upto, Unfinished;
  }

  lemma NewlinesBehind(s: bytes, n: nat)
    requires n == |Upto(Nulled(s), NUL)|
    ensures n < |s| ==> Newlines(s) <= 1 + Newlines(s[n + 1..])
    ensures n == |s| ==> Newlines(s) == 0
  {
    var t := Nulled(s);
    assert forall i | 0 <= i < n :: t[i] == t[..n][i];
    hide Upto, Nulled;
    NewlinesDrop(s, n);
    if n < |s| {
      assert s[n..][1..] == s[n + 1..];
    } else {
      assert s[n..] == [];
    }
  }

  lemma LastBehind(s: bytes, n: nat)
    requires s != [] && n == |Upto(Nulled(s), NUL)|
    ensures n < |s| ==> Unfinished(s) == Unfinished(s[n + 1..])
    ensures n == |s| ==> Unfinished(s)
  {
    var t := Nulled(s);
    hide Nulled, Upto;
    if n + 1 < |s| {
      NulledDrop(s, n + 1);
      assert t[n + 1..][|s| - n - 2] == t[|s| - 1];
    } else if n == |s| {
      assert t[..n][n - 1] != NUL;
    }
  }

  /** Whatever is in the list, as many pointers are found as lines were counted, and they are to the first
      parts between terminators. */
  lemma {:induction false} FileListIsParts(s: bytes)
    ensures var pointers := Pointers(Nulled(s), 0, CountLines(s));
      && Inside(pointers, Nulled(s)) && |pointers| == CountLines(s) <= |Parts(Nulled(s), NUL)|
      && Strings(Nulled(s), pointers) == Parts(Nulled(s), NUL)[..CountLines(s)]
  {
    hide CountLines, Nulled, Parts, Pointers;
    CountIsNoMoreThanParts(s);
    assert Nulled(s)[0..] == Nulled(s);
    PointersAreParts(Nulled(s), 0, CountLines(s));
  }

  /** They are exactly the lines if and only if the list has no terminator inside. */
  lemma {:induction false} FileListIsLines(s: bytes)
    ensures var pointers := Pointers(Nulled(s), 0, CountLines(s));
      && Inside(pointers, Nulled(s))
      && (|pointers| == CountLines(s) && Strings(Nulled(s), pointers) == Lines(s) <==> NulFree(s))
  {
    FileListIsParts(s);
    var pointers := Pointers(Nulled(s), 0, CountLines(s));
    if NulFree(s) {
      CountIsLines(s);
      PartsAreLines(s);
    } else if Strings(Nulled(s), pointers) == Lines(s) {
      StringsHaveNoNul(Nulled(s), pointers);
      LinesHoldEverything(s);
      assert false;
    }
  }

  lemma {:induction false} StringsHaveNoNul(buffer: bytes, pointers: seq<nat>)
    requires Inside(pointers, buffer)
    ensures forall t <- Strings(buffer, pointers) :: NUL !in t
  {
    if pointers != [] {
      StringsHaveNoNul(buffer, pointers[1..]);
    }
  }

  // ---- The terminators ----

  /** The terminator of every string is inside the buffer. */
  predicate Terminated(buffer: bytes, pointers: seq<nat>) {
    Inside(pointers, buffer) && forall i | 0 <= i < |pointers| :: pointers[i] + |CString(buffer, pointers[i])| < |buffer|
  }

  lemma {:induction false} UptoInFront(s: bytes, rest: bytes)
    requires rest != [] && rest[0] == NUL
    ensures Upto(s + rest, NUL) == Upto(s, NUL)
  {
    if s != [] {
      assert (s + rest)[1..] == s[1..] + rest;
      UptoInFront(s[1..], rest);
    } else {
      assert s + rest == rest;
    }
  }

  /** With a terminator behind them, the strings of the content are those of the buffer. */
  lemma {:induction false} StringsEndInside(s: bytes, rest: bytes, pointers: seq<nat>)
    requires Inside(pointers, s) && rest != [] && rest[0] == NUL
    ensures Terminated(s + rest, pointers) && Strings(s + rest, pointers) == Strings(s, pointers)
    decreases |pointers|
  {
    hide Upto;
    if pointers != [] {
      var pos := pointers[0];
      assert (s + rest)[pos..] == s[pos..] + rest;
      UptoInFront(s[pos..], rest);
      StringsEndInside(s, rest, pointers[1..]);
      forall i | 0 <= i < |pointers| ensures pointers[i] + |CString(s + rest, pointers[i])| < |s + rest| {
        assert 0 < i ==> pointers[i] == pointers[1..][i - 1];
      }
    }
  }

  /** A terminator in the file is in one of its lines. */
  lemma {:induction false} LinesHoldEverything(s: bytes)
    ensures NulFree(s) || exists t <- Lines(s) :: NUL in t
    decreases |s|
  {
    if !NulFree(s) {
      var n := |Upto(s, NEWLINE)|;
      var i :| 0 <= i < |s| && s[i] == 0;
      if i < n {
        var t := Upto(s, NEWLINE);
        assert t[i] == 0 && Lines(s)[0] == t;
        assert t in Lines(s) && NUL in t;
      } else {
        var rest := After(s, NEWLINE);
        assert rest[i - n - 1] == 0;
        LinesHoldEverything(rest);
        var t :| t in Lines(rest) && NUL in t;
        assert Lines(s) == [Upto(s, NEWLINE)] + Lines(rest);
      }
    }
  }

  // ---- The C functions ----

  /** The sizes that the buffer takes while it doubles. */
  predicate BufferSize(n: nat) {
    n == MAX_SIZE || n in {0x1_0000, 0x2_0000, 0x4_0000, 0x8_0000, 0x10_0000, 0x20_0000, 0x40_0000, 0x80_0000, 0x100_0000, 0x200_0000}
  }

  function Grown(bufSize: nat): nat {
    Min(bufSize * 2, MAX_SIZE)
  }

  lemma GrownIsSize(n: nat)
    requires BufferSize(n) && n < MAX_SIZE
    ensures BufferSize(Grown(n)) && n < Grown(n) && n + KB <= MAX_SIZE
  {
  }

  /** `realloc` to a larger size. */
  method Realloc(buf: array<byte>, used: nat, newSize: nat) returns (newBuf: array<byte>)
    requires used <= buf.Length <= newSize
    ensures fresh(newBuf) && newBuf.Length == newSize && newBuf[..used] == buf[..used]
  {
    newBuf := new byte[newSize];
    var i := 0;
    while i < used
      invariant i <= used && newBuf[..i] == buf[..i]
    {
      newBuf[i] := buf[i];
      i := i + 1;
    }
  }

  /** `fread` into the buffer behind what it holds. */
  method ReadBehind(inFile: File, buf: array<byte>, totalRead: nat, n: nat) returns (bytesRead: nat)
    requires totalRead + n <= buf.Length
    modifies inFile, buf
    ensures inFile.content == old(inFile.content) && inFile.pos == old(inFile.pos) + bytesRead
    ensures bytesRead == |Slice(inFile.content, old(inFile.pos), n)| <= n
    ensures buf[..totalRead + bytesRead] == old(buf[..totalRead]) + Slice(inFile.content, old(inFile.pos), n)
  {
    var data := inFile.Read(n);
    bytesRead := |data|;
    var i := 0;
    while i < |data|
      invariant i <= |data| && buf[..totalRead + i] == old(buf[..totalRead]) + data[..i]
      modifies buf
    {
      buf[totalRead + i] := data[i];
      i := i + 1;
    }
    assert data[..bytesRead] == data;
  }

  /** UTIL_readFileContent: the whole content and a terminator behind it, unless fewer than 1 KB of the
      largest allowed buffer would be left. */
  method ReadFileContent(inFile: File) returns (buf: Option<array<byte>>, totalRead: nat)
    requires inFile.pos == 0
    modifies inFile
    ensures inFile.content == old(inFile.content)
    ensures buf.Some? <==> |inFile.content| + KB <= MAX_SIZE
    ensures buf.Some? ==> fresh(buf.value) && totalRead == |inFile.content| < buf.value.Length
    ensures buf.Some? ==> buf.value[..totalRead] == inFile.content && buf.value[totalRead] == 0
  {
    var b := new byte[0x1_0000];
    totalRead := 0;
    while true
      invariant fresh(b) && BufferSize(b.Length) && totalRead + 1 < b.Length <= MAX_SIZE && inFile.content == old(inFile.content)
      invariant totalRead <= |inFile.content| && inFile.pos == totalRead && b[..totalRead] == inFile.content[..totalRead]
      invariant b.Length == MAX_SIZE ==> totalRead + KB <= MAX_SIZE
      decreases |inFile.content| - totalRead
    {
      ghost var before := totalRead;
      var bytesRead := ReadBehind(inFile, b, totalRead, b.Length - totalRead - 1);
      if bytesRead == 0 {
        if b.Length < MAX_SIZE {
          GrownIsSize(b.Length);
        }
        break;
      }
      totalRead := totalRead + bytesRead;
      assert inFile.content[..totalRead] == inFile.content[..before] + inFile.content[before..totalRead];
      if b.Length - totalRead < KB {
        if MAX_SIZE <= b.Length {
          return None, totalRead;
        }
        GrownIsSize(b.Length);
        b := Realloc(b, totalRead, Grown(b.Length));
      }
    }
    b[totalRead] := 0;
    buf := Some(b);
  }

  /** UTIL_processLines */
  method ProcessLines(buffer: array<byte>, bufferSize: nat) returns (lineCount: nat)
    requires bufferSize <= buffer.Length
    modifies buffer
    ensures buffer[..bufferSize] == Nulled(old(buffer[..bufferSize])) && lineCount == CountLines(old(buffer[..bufferSize]))
    ensures buffer[bufferSize..] == old(buffer[bufferSize..])
  {
    ghost var s := buffer[..bufferSize];
    var i := 0;
    lineCount := 0;
    assert s[0..] == s;
    while i < bufferSize
      invariant i <= bufferSize && lineCount + Newlines(s[i..]) == Newlines(s)
      invariant forall k :: 0 <= k < i ==> buffer[k] == if s[k] == NEWLINE then 0 else s[k]
      invariant forall k :: i <= k < bufferSize ==> buffer[k] == s[k]
      invariant buffer[bufferSize..] == old(buffer[bufferSize..])
    {
      assert s[i..][1..] == s[i + 1..] && s[i..][0] == s[i];
      if buffer[i] == NEWLINE {
        buffer[i] := 0;
        lineCount := lineCount + 1;
      }
      i := i + 1;
    }
    assert buffer[..bufferSize] == Nulled(s);
    if 0 < bufferSize && (i == 0 || buffer[i - 1] != 0) {
      lineCount := lineCount + 1;
    }
  }

  /** UTIL_createLinePointers: NULL when there are fewer strings than lines were counted. */
  method CreateLinePointers(buffer: array<byte>, numLines: nat, bufferSize: nat) returns (pointers: Option<seq<nat>>)
    requires bufferSize <= buffer.Length
    ensures pointers.Some? <==> |Pointers(buffer[..bufferSize], 0, numLines)| == numLines
    ensures pointers.Some? ==> pointers.value == Pointers(buffer[..bufferSize], 0, numLines)
  {
    hide CString, Behind;
    ghost var s := buffer[..bufferSize];
    var linePointers: seq<nat>, pos: nat := [], 0;
    PointersStay(s, 0, numLines);
    while |linePointers| < numLines && pos < bufferSize
      invariant pos <= bufferSize && |linePointers| <= numLines
      invariant linePointers + Pointers(s, pos, numLines - |linePointers|) == Pointers(s, 0, numLines)
    {
      ghost var rest := Pointers(s, Behind(s, pos), numLines - |linePointers| - 1);
      assert linePointers + ([pos] + rest) == (linePointers + [pos]) + rest;
      linePointers := linePointers + [pos];
      pos := SkipString(buffer, bufferSize, pos);
    }
    pointers := if |linePointers| != numLines then None else Some(linePointers);
  }

  /** Past the string and, unless at the end of the buffer, its terminator. */
  method SkipString(buffer: array<byte>, bufferSize: nat, pos: nat) returns (next: nat)
    requires pos < bufferSize <= buffer.Length
    ensures next == Behind(buffer[..bufferSize], pos)
  {
    var len := StringLength(buffer, bufferSize, pos);
    next := pos + len;
    if next < bufferSize {
      next := next + 1;
    }
  }

  /** The inner loop: the length of the string at `pos`. */
  method StringLength(buffer: array<byte>, bufferSize: nat, pos: nat) returns (len: nat)
    requires pos < bufferSize <= buffer.Length
    ensures len == |CString(buffer[..bufferSize], pos)|
  {
    ghost var s := buffer[..bufferSize];
    len := 0;
    while pos + len < bufferSize && buffer[pos + len] != 0
      invariant pos + len <= bufferSize
      invariant len + |Upto(s[pos + len..], NUL)| == |CString(s, pos)|
    {
      assert s[pos + len..][1..] == s[pos + len + 1..];
      len := len + 1;
    }
  }

  /** What the strings of the table are: the first parts of the list between terminators, as many as lines were
      counted, each terminated inside the buffer; and they are the lines exactly when there is no terminator inside. */
  ghost predicate Names(buffer: bytes, fileNames: seq<nat>, s: bytes) {
    && Terminated(buffer, fileNames)
    && Strings(buffer, fileNames) == Parts(Nulled(s), NUL)[..Min(CountLines(s), |Parts(Nulled(s), NUL)|)]
    && (NulFree(s) <==> Strings(buffer, fileNames) == Lines(s))
  }

  lemma {:induction false} PointersAreNames(buffer: bytes, s: bytes)
    requires |s| < |buffer| && buffer[..|s|] == Nulled(s) && buffer[|s|] == NUL
    ensures |Pointers(Nulled(s), 0, CountLines(s))| == CountLines(s)
    ensures Names(buffer, Pointers(Nulled(s), 0, CountLines(s)), s)
  {
    hide CountLines, Parts, Strings, Pointers, CString, Nulled, Terminated;
    FileListIsParts(s);
    FileListIsLines(s);
    assert buffer == Nulled(s) + buffer[|s|..];
    StringsEndInside(Nulled(s), buffer[|s|..], Pointers(Nulled(s), 0, CountLines(s)));
  }

  /** FileNamesTable: a buffer and pointers into it. */
  datatype Table = Table(buf: array<byte>, fileNames: seq<nat>)

  /** UTIL_createFileNamesTable_fromFileList, of a readable file: the table holds the lines of the file or,
      where it has terminators of its own, the first parts between them. */
  method FileNamesFromList(inFile: File) returns (table: Option<Table>)
    requires inFile.pos == 0
    modifies inFile
    ensures inFile.content == old(inFile.content)
    ensures table.None? <==> CountLines(inFile.content) == 0 || MAX_SIZE < |inFile.content| + KB
    ensures table.Some? ==> fresh(table.value.buf) && Names(table.value.buf[..], table.value.fileNames, inFile.content)
  {
    hide CountLines, Names, Pointers, Nulled;
    var buf, bufferSize := ReadFileContent(inFile);
    if buf.None? {
      return None;
    }
    ghost var s := inFile.content;
    var numLines := ProcessLines(buf.value, bufferSize);
    if numLines == 0 {
      return None;
    }
    var pointers := CreateLinePointers(buf.value, numLines, bufferSize);
    PointersAreNames(buf.value[..], s);
    table := Some(Table(buf.value, pointers.value));
  }
}
