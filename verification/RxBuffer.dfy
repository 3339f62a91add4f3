// The bounded receive ring of a PCB (struct tcp_rx_buffer): bytes wrap around a fixed array.
module RxRing {
  import opened Basics
  import opened SeqArith

  function Wrap(x: nat, cap: nat): nat { if x < cap then x else x - cap }

  /** The `used` bytes that start at `head` and wrap at the end of `d`. */
  function Ring(d: seq<byte>, head: nat, used: nat): (s: seq<byte>)
    requires head < |d| && used <= |d|
    ensures |s| == used
  {
    seq(used, i requires 0 <= i < used => d[Wrap(head + i, |d|)])
  }

  /** d' is d with src stored from `at` on, wrapping at the end. */
  ghost predicate Stored(d: seq<byte>, d': seq<byte>, at: nat, src: seq<byte>)
    requires at <= |d| && |src| <= |d|
  {
    && |d'| == |d|
    && forall k :: 0 <= k < |d| ==>
      d'[k] == if at <= k < at + |src| then src[k - at]
               else if k + |d| < at + |src| then src[k + |d| - at]
               else d[k]
  }

  /** Storing behind the tail of a ring appends to its contents. */
  lemma RingAppend(d: seq<byte>, d': seq<byte>, head: nat, used: nat, src: seq<byte>)
    requires head < |d| && used + |src| <= |d|
    requires Stored(d, d', Wrap(head + used, |d|), src)
    ensures Ring(d', head, used + |src|) == Ring(d, head, used) + src
  {
    var a, b := Ring(d', head, used + |src|), Ring(d, head, used) + src;
    forall i | 0 <= i < used + |src|
      ensures a[i] == b[i]
    {
      assert a[i] == d'[Wrap(head + i, |d|)];
    }
    assert a == b;
  }

  lemma RingDrop(d: seq<byte>, head: nat, used: nat, n: nat)
    requires head < |d| && n <= used <= |d|
    ensures Ring(d, Wrap(head + n, |d|), used - n) == Ring(d, head, used)[n..]
  {
    var a, b := Ring(d, Wrap(head + n, |d|), used - n), Ring(d, head, used)[n..];
    forall i | 0 <= i < used - n
      ensures a[i] == b[i]
    {
      assert b[i] == Ring(d, head, used)[n + i];
      assert Wrap(Wrap(head + n, |d|) + i, |d|) == Wrap(head + (n + i), |d|);
    }
    assert a == b;
  }

  /** The first n bytes of a ring are at most two straight runs of the array. */
  lemma RingTake(d: seq<byte>, head: nat, used: nat, n: nat)
    requires head < |d| && n <= used <= |d|
    ensures Ring(d, head, used)[..n] ==
            if n <= |d| - head then d[head .. head + n] else d[head..] + d[..n - (|d| - head)]
  {
    var a := Ring(d, head, used)[..n];
    var b := if n <= |d| - head then d[head .. head + n] else d[head..] + d[..n - (|d| - head)];
    forall i | 0 <= i < n
      ensures a[i] == b[i]
    {
      assert a[i] == d[Wrap(head + i, |d|)];
    }
    assert a == b;
  }

  class RxBuffer {
    const data: array<byte>
    var head: nat
    var tail: nat
    var used: nat

    ghost predicate Valid()
      reads this
    {
      && 0 < data.Length
      && head < data.Length
      && used <= data.Length
      && tail == Wrap(head + used, data.Length)
    }

    ghost function Contents(): (s: seq<byte>)
      requires Valid()
      reads this, data
      ensures |s| == used
    {
      Ring(data[..], head, used)
    }

    constructor (capacity: nat)
      requires 0 < capacity
      ensures Valid() && fresh(data) && data.Length == capacity && Contents() == []
    {
      data := new byte[capacity](_ => 0);
      head, tail, used := 0, 0, 0;
    }

    function FreeSpace(): (n: nat)
      reads this
      ensures Valid() ==> used + n == data.Length
    {
      if used >= data.Length then 0 else data.Length - used
    }

    /** Copies src into the array from `at` on, in one run or two. */
    method Store(at: nat, src: seq<byte>)
      requires at < data.Length && |src| <= data.Length
      modifies data
      ensures Stored(old(data[..]), data[..], at, src)
    {
      var n, first := |src|, data.Length - at;
      if n <= first {
        forall i | 0 <= i < n { data[at + i] := src[i]; }
      } else {
        forall i | 0 <= i < first { data[at + i] := src[i]; }
        forall i | 0 <= i < n - first { data[i] := src[first + i]; }
      }
    }

    /** Appends as much of src as fits; nothing already stored changes. */
    method Write(src: seq<byte>) returns (n: nat)
      requires Valid()
      modifies this`tail, this`used, data
      ensures Valid()
      ensures n == Min(|src|, data.Length - old(used))
      ensures Contents() == old(Contents()) + src[..n]
    {
      hide Ring, Stored;
      n := if |src| < FreeSpace() then |src| else FreeSpace();
      if n == 0 {
        assert src[..n] == [];
        return;
      }
      ghost var before := data[..];
      Store(tail, src[..n]);
      RingAppend(before, data[..], head, used, src[..n]);
      tail := if tail + n >= data.Length then tail + n - data.Length else tail + n;
      used := used + n;
    }

    /** Removes up to len bytes from the front, in order. */
    method Read(len: nat) returns (dst: seq<byte>)
      requires Valid()
      modifies this`head, this`used
      ensures Valid()
      ensures |dst| == Min(len, old(used))
      ensures old(Contents()) == dst + Contents()
    {
      hide Ring;
      var n := if len < used then len else used;
      ghost var all := Contents();
      if n == 0 {
        return [];
      }
      var first := data.Length - head;
      RingDrop(data[..], head, used, n);
      RingTake(data[..], head, used, n);
      if n <= first {
        dst := data[head .. head + n];
        assert dst == data[..][head .. head + n];
        head := if head + n == data.Length then 0 else head + n;
      } else {
        dst := data[head..] + data[..n - first];
        assert dst == data[..][head..] + data[..][..n - first];
        head := n - first;
      }
      used := used - n;
    }

    /** Discards everything unread (shutdown of the read side). */
    method Discard()
      requires Valid()
      modifies this
      ensures Valid() && Contents() == []
    {
      head, tail, used := 0, 0, 0;
    }
  }
}
