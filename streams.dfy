/** In-memory stand-ins for the C streams the codec works on.

    A file opened for reading is its bytes and a read position; fread,
    fgetc and fseek become methods that move the position. A file opened for
    writing is the sequence of bytes written so far; fwrite appends. */
module Streams {
  import opened BitCodec

  /** A file opened with "rb". */
  class InStream {
    const data: seq<byte>
    var pos: nat

    ghost predicate Valid()
      reads this
    {
      pos <= |data|
    }

    /** The number of bytes a read can still deliver. */
    function Remaining(): nat
      reads this
      requires Valid()
    {
      |data| - pos
    }

    constructor (contents: seq<byte>)
      ensures Valid() && data == contents && pos == 0
    {
      data := contents;
      pos := 0;
    }

    /** fseek(f, offset, SEEK_SET). Seeking past the end succeeds in C and
        leaves nothing to read; here the position stops at the end, which reads
        the same. */
    method Seek(offset: nat)
      requires Valid()
      modifies this
      ensures Valid()
      ensures pos == if offset <= |data| then offset else |data|
    {
      pos := if offset <= |data| then offset else |data|;
    }

    /** fread(buf, 1, n, f): copies up to n bytes into buf[0..] and returns how
        many were copied. A count below n means the end of the file was reached,
        and the bytes that were there are consumed all the same. */
    method Read(buf: array<byte>, n: nat) returns (got: nat)
      requires Valid() && n <= buf.Length
      modifies this, buf
      ensures Valid()
      ensures got == if n <= old(Remaining()) then n else old(Remaining())
      ensures pos == old(pos) + got
      ensures buf[..got] == data[old(pos)..pos]
      ensures buf[got..] == old(buf[got..])
    {
      got := if n <= |data| - pos then n else |data| - pos;
      forall i | 0 <= i < got {
        buf[i] := data[pos + i];
      }
      pos := pos + got;
    }

    /** fgetc(f), and fread(&b, 1, 1, f): the next byte, or end of file. */
    method Getc() returns (ok: bool, b: byte)
      requires Valid()
      modifies this
      ensures Valid()
      ensures ok == (old(pos) < |data|)
      ensures ok ==> b == data[old(pos)] && pos == old(pos) + 1
      ensures !ok ==> pos == old(pos)
    {
      ok := pos < |data|;
      if ok {
        b := data[pos];
        pos := pos + 1;
      } else {
        b := 0;
      }
    }
  }

  /** A file opened with "wb". Writes to memory cannot come up short. */
  class OutStream {
    var written: seq<byte>

    constructor ()
      ensures written == []
    {
      written := [];
    }

    /** fwrite(buf, 1, n, f). */
    method Write(buf: array<byte>, n: nat)
      requires n <= buf.Length
      modifies this
      ensures written == old(written) + buf[..n]
    {
      written := written + buf[..n];
    }

    /** fwrite(&b, 1, 1, f). */
    method Put(b: byte)
      modifies this
      ensures written == old(written) + [b]
    {
      written := written + [b];
    }
  }
}
