/** A seekable byte file: its content and the stream position, which a seek may
    move past the end; the next write then zero-fills the gap. */
module FileModel {
  import opened Bytes

  datatype FileState = FileState(content: bytes, pos: nat)

  /** The file after `data` is written at the current position.
      Writing nothing changes nothing, not even after a seek past the end. */
  function Put(f: FileState, data: bytes): FileState {
    if data == [] then f
    else
      var padded := if f.pos <= |f.content| then f.content else f.content + Zeros(f.pos - |f.content|);
      var after := if f.pos + |data| <= |padded| then padded[f.pos + |data|..] else [];
      FileState(padded[..f.pos] + data + after, f.pos + |data|)
  }

  function Skip(f: FileState, distance: nat): FileState {
    f.(pos := f.pos + distance)
  }

  /** At most `n` bytes from the current position, short only at the end of the file. */
  function Slice(content: bytes, pos: nat, n: nat): (s: bytes)
    ensures |s| <= n
    ensures |s| < n ==> |content| < pos + n
    ensures pos + n <= |content| ==> |s| == n
  {
    if |content| <= pos then [] else content[pos..Min(pos + n, |content|)]
  }

  /** The C stream, whose content and position every call updates in place. */
  class File {
    var content: bytes
    var pos: nat

    constructor (content: bytes, pos: nat)
      ensures State() == FileState(content, pos)
    {
      this.content, this.pos := content, pos;
    }

    ghost function State(): FileState reads this {
      FileState(content, pos)
    }

    method Write(data: bytes)
      modifies this
      ensures State() == Put(old(State()), data)
    {
      if data != [] {
        if |content| < pos {
          content := content + Zeros(pos - |content|);
        }
        var after := if pos + |data| <= |content| then content[pos + |data|..] else [];
        content := content[..pos] + data + after;
        pos := pos + |data|;
      }
    }

    method SeekForward(distance: nat)
      modifies this
      ensures State() == Skip(old(State()), distance)
    {
      pos := pos + distance;
    }

    /** `fseek` from the current position, in either direction. */
    method Seek(distance: int)
      requires 0 <= pos + distance
      modifies this
      ensures content == old(content) && pos == old(pos) + distance
    {
      pos := pos + distance;
    }

    /** `fread`: a short count means the end of the file was met. */
    method Read(n: nat) returns (data: bytes)
      modifies this
      ensures data == Slice(old(content), old(pos), n)
      ensures content == old(content) && pos == old(pos) + |data|
    {
      data := Slice(content, pos, n);
      pos := pos + |data|;
    }
  }
}
