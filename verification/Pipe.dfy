// The pipe's ring buffer: bytes out are a prefix of bytes in (src/kernel/kernel.c).
module Pipes {
  import opened Basics
  import opened SeqArith
  import opened RxRing

  const PIPE_BUFFER_SIZE: nat := 4096

  /** What a read returns: the end of the stream, nothing yet (the reader sleeps), or bytes. */
  datatype ReadResult = EndOfFile | ReadSleeps | Got(bytes: seq<byte>)

  /** What a write returns: a broken pipe, nothing taken (the writer sleeps), or the number of bytes taken. */
  datatype WriteResult = BrokenPipe | WriteSleeps | Took(n: nat)

  /** Every byte ever written to a pipe and every byte ever read from it; the ring holds the rest. */
  datatype Stream = Stream(written: seq<byte>, delivered: seq<byte>) {
    ghost predicate Ok() { delivered <= written && |written| - |delivered| <= PIPE_BUFFER_SIZE }

    function Stored(): seq<byte> { if |delivered| <= |written| then written[|delivered|..] else [] }
  }

  /** What pipe_read does to the stream and returns, given how many writers are left. */
  function ReadSpec(s: Stream, writers: nat, size: nat): (Stream, ReadResult) {
    var n := Min(size, |s.Stored()|);
    if n == 0 then (s, if writers == 0 then EndOfFile else ReadSleeps)
    else (s.(delivered := s.delivered + s.Stored()[..n]), Got(s.Stored()[..n]))
  }

  /** What pipe_write does to the stream and returns, given how many readers are left. */
  function WriteSpec(s: Stream, readers: nat, buffer: seq<byte>): (Stream, WriteResult) {
    var n := Min(|buffer|, Max(PIPE_BUFFER_SIZE - |s.Stored()|, 0));
    if readers == 0 then (s, BrokenPipe)
    else if n == 0 then (s, WriteSleeps)
    else (s.(written := s.written + buffer[..n]), Took(n))
  }

  lemma StoreOne(d: seq<byte>, at: nat, b: byte)
    requires at < |d|
    ensures Stored(d, d[at := b], at, [b])
  {}

  lemma TakeOne(d: seq<byte>, head: nat, used: nat)
    requires head < |d| && 0 < used <= |d|
    ensures Ring(d, head, used) == [d[head]] + Ring(d, Wrap(head + 1, |d|), used - 1)
  {
    RingDrop(d, head, used, 1);
    assert Ring(d, head, used)[0] == d[Wrap(head + 0, |d|)];
  }

  lemma NextPos(x: nat, n: nat)
    requires x < n
    ensures (x + 1) % n == Wrap(x + 1, n)
  {
    if x + 1 < n {
      assert (x + 1) % n == x + 1;
    } else {
      assert (x + 1) % n == 0;
    }
  }

  class Pipe {
    const data: array<byte>
    var readPos: nat
    var writePos: nat
    var count: nat
    var readers: nat
    var writers: nat
    ghost var written: seq<byte>
    ghost var delivered: seq<byte>

    /** Everything delivered and then everything stored is everything written, in order. */
    ghost predicate Valid()
      reads this, data
    {
      && data.Length == PIPE_BUFFER_SIZE && readPos < data.Length && count <= data.Length
      && writePos == Wrap(readPos + count, data.Length)
      && written == delivered + Ring(data[..], readPos, count)
    }

    ghost function Bytes(): Stream
      reads this
    {
      Stream(written, delivered)
    }

    /** What is stored is what was written and not yet delivered. */
    lemma StoredIs()
      requires Valid()
      ensures Bytes().Ok() && |Bytes().Stored()| == count && Bytes().Stored() == Ring(data[..], readPos, count)
    {
      assert written[|delivered|..] == Ring(data[..], readPos, count);
    }

    constructor ()
      ensures Valid() && fresh(data) && written == [] && delivered == [] && readers == 1 && writers == 1 && count == 0
    {
      data := new byte[PIPE_BUFFER_SIZE](_ => 0);
      readPos, writePos, count, readers, writers := 0, 0, 0, 1, 1;
      written, delivered := [], [];
    }

    /** One turn of pipe_read's loop. */
    method Pop() returns (b: byte)
      requires Valid() && count > 0
      modifies this
      ensures Valid() && count == old(count) - 1 && delivered == old(delivered) + [b]
      ensures written == old(written) && readers == old(readers) && writers == old(writers) && data[..] == old(data[..])
    {
      hide Ring;
      TakeOne(data[..], readPos, count);
      NextPos(readPos, data.Length);
      b := data[readPos];
      readPos := (readPos + 1) % data.Length;
      count := count - 1;
      delivered := delivered + [b];
    }

    /** One turn of pipe_write's loop. */
    method Push(b: byte)
      requires Valid() && count < data.Length
      modifies this, data
      ensures Valid() && count == old(count) + 1 && written == old(written) + [b]
      ensures delivered == old(delivered) && readers == old(readers) && writers == old(writers)
    {
      hide Ring, Stored;
      ghost var d := data[..];
      StoreOne(d, writePos, b);
      RingAppend(d, d[writePos := b], readPos, count, [b]);
      NextPos(writePos, data.Length);
      data[writePos] := b;
      assert data[..] == d[writePos := b];
      writePos := (writePos + 1) % data.Length;
      count := count + 1;
      written := written + [b];
    }

    /** pipe_read: end of file exactly when nothing is stored, something was asked for and no writer is left. */
    method Read(size: nat) returns (r: ReadResult)
      requires Valid()
      modifies this
      ensures Valid() && written == old(written) && readers == old(readers) && writers == old(writers)
      ensures (Bytes(), r) == ReadSpec(old(Bytes()), writers, size)
    {
      hide Ring;
      StoredIs();
      var out: seq<byte> := [];
      while |out| < size && count > 0
        invariant Valid() && written == old(written) && readers == old(readers) && writers == old(writers)
        invariant delivered == old(delivered) + out && |out| + count == old(count) && |out| <= size
        decreases count
      {
        var b := Pop();
        out := out + [b];
      }
      StoredIs();
      assert written == old(delivered) + out + Ring(data[..], readPos, count);
      assert out == old(Bytes()).Stored()[..|out|];
      if out == [] {
        r := if writers == 0 then EndOfFile else ReadSleeps;
      } else {
        r := Got(out);
      }
    }

    /** pipe_write: as much of the buffer as fits, unless no reader is left. */
    method Write(buffer: seq<byte>) returns (r: WriteResult)
      requires Valid()
      modifies this, data
      ensures Valid() && delivered == old(delivered) && readers == old(readers) && writers == old(writers)
      ensures (Bytes(), r) == WriteSpec(old(Bytes()), readers, buffer)
    {
      hide Ring;
      StoredIs();
      if readers == 0 {
        return BrokenPipe;
      }
      var n := 0;
      while n < |buffer| && count < data.Length
        invariant Valid() && delivered == old(delivered) && readers == old(readers) && writers == old(writers)
        invariant 0 <= n <= |buffer| && written == old(written) + buffer[..n] && count == old(count) + n
        decreases |buffer| - n
      {
        Push(buffer[n]);
        n := n + 1;
      }
      r := if n == 0 then WriteSleeps else Took(n);
    }

    /** pipe_node_close: the counter of that end falls; the pipe is to be freed when neither end counts any more. */
    method CloseEnd(reading: bool) returns (gone: bool)
      requires Valid()
      modifies this`readers, this`writers
      ensures Valid() && gone == (readers == 0 && writers == 0)
      ensures readers == if reading then Max(old(readers) - 1, 0) else old(readers)
      ensures writers == if reading then old(writers) else Max(old(writers) - 1, 0)
    {
      if reading {
        if readers > 0 {
          readers := readers - 1;
        }
      } else {
        if writers > 0 {
          writers := writers - 1;
        }
      }
      gone := readers == 0 && writers == 0;
    }
  }
}
