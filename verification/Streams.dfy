/** The part of a C stream that the tools use: a byte sequence, a position and the end-of-file flag. */
module Streams {
  import opened Bytes

  /** The bytes of data from pos on are overwritten, and data is extended where it is too short. */
  function Patch(data: seq<byte>, pos: nat, b: seq<byte>): (r: seq<byte>)
    requires pos <= |data|
    ensures |r| == if pos + |b| <= |data| then |data| else pos + |b|
    ensures r[pos..pos + |b|] == b
    ensures forall k :: 0 <= k < pos ==> r[k] == data[k]
    ensures forall k :: pos + |b| <= k < |data| ==> r[k] == data[k]
  {
    data[..pos] + b + if pos + |b| <= |data| then data[pos + |b|..] else []
  }

  /** A write beyond the end leaves zeros in between; a write of nothing changes nothing. */
  function Put(data: seq<byte>, pos: nat, b: seq<byte>): (r: seq<byte>)
    ensures pos <= |data| ==> r == Patch(data, pos, b)
    ensures |r| >= |data| && (b != [] ==> |r| >= pos + |b| && r[pos..pos + |b|] == b)
  {
    if pos <= |data| then Patch(data, pos, b)
    else if b == [] then data
    else data + Zeros(pos - |data|) + b
  }

  class FileStream {
    var data: seq<byte>
    var pos: nat
    var eof: bool

    constructor (data: seq<byte>)
      ensures this.data == data && pos == 0 && !eof
    {
      this.data, pos, eof := data, 0, false;
    }

    method Seek(p: nat)
      modifies `pos, `eof
      ensures pos == p && !eof
    {
      pos, eof := p, false;
    }

    /** The next byte, or -1 and the flag at the end. */
    method Getc() returns (c: int)
      modifies `pos, `eof
      ensures if old(pos) < |data| then c == data[old(pos)] && pos == old(pos) + 1 && eof == old(eof)
              else c == -1 && pos == old(pos) && eof
    {
      if pos < |data| {
        c := data[pos];
        pos := pos + 1;
      } else {
        c, eof := -1, true;
      }
    }

    method Write(b: seq<byte>)
      modifies `data, `pos
      ensures data == Put(old(data), old(pos), b) && pos == old(pos) + |b|
    {
      data, pos := Put(data, pos, b), pos + |b|;
    }

    /** Up to n bytes; fewer only at the end, which the flag then records. */
    method Read(n: nat) returns (b: seq<byte>)
      requires pos <= |data|
      modifies `pos, `eof
      ensures pos == old(pos) + |b| <= |data| && b == data[old(pos)..pos]
      ensures |b| == if old(pos) + n <= |data| then n else |data| - old(pos)
      ensures eof == (old(eof) || |b| < n)
    {
      var m := if pos + n <= |data| then n else |data| - pos;
      b := data[pos..pos + m];
      pos := pos + m;
      if m < n {
        eof := true;
      }
    }
  }
}
