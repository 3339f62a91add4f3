// Pipes and the descriptors that name their ends, together: what a reader and a writer can rely on over whole runs
// (src/kernel/kernel.c).
module PipeRuns {
  import opened Basics
  import opened SeqArith
  import opened Descriptors
  import opened DescriptorRuns
  import opened Pipes

  /** The kernel's descriptors and counters, and the bytes of every pipe there is. */
  datatype World = World(k: Kernel, streams: map<nat, Stream>)

  /** A call on descriptors, or a read or write through a description of a pipe end. */
  datatype Act = Call(e: Event) | ReadPipe(d: nat, size: nat) | WritePipe(d: nat, buffer: seq<byte>)

  ghost predicate Allowed(w: World, a: Act) {
    match a
    case Call(e) => Possible(w.k, e)
    case ReadPipe(d, _) => d in w.k.descs && w.k.descs[d].node.ReadEnd?
    case WritePipe(d, _) => d in w.k.descs && w.k.descs[d].node.WriteEnd?
  }

  function StreamOf(w: World, p: nat): Stream { if p in w.streams then w.streams[p] else Stream([], []) }

  ghost function Acted(w: World, a: Act): World
    requires Allowed(w, a)
  {
    match a
    case Call(e) =>
      var k := Apply(w.k, e);
      World(k, map p | p in k.pipes :: if p in w.k.pipes then StreamOf(w, p) else Stream([], []))
    case ReadPipe(d, size) =>
      var p := w.k.descs[d].node.pipe;
      if p !in w.k.pipes then w
      else w.(streams := w.streams[p := ReadSpec(StreamOf(w, p), w.k.pipes[p].writers, size).0])
    case WritePipe(d, buffer) =>
      var p := w.k.descs[d].node.pipe;
      if p !in w.k.pipes then w
      else w.(streams := w.streams[p := WriteSpec(StreamOf(w, p), w.k.pipes[p].readers, buffer).0])
  }

  /** Every step of the run was allowed when it was taken. */
  ghost predicate ActRuns(w: World, acts: seq<Act>)
    decreases |acts|
  {
    acts == [] || (Allowed(w, acts[0]) && ActRuns(Acted(w, acts[0]), acts[1..]))
  }

  ghost function ActRun(w: World, acts: seq<Act>): World
    requires ActRuns(w, acts)
    decreases |acts|
  {
    if acts == [] then w else ActRun(Acted(w, acts[0]), acts[1..])
  }

  /** The descriptors are in order, and what has been read from a pipe is the beginning of what was written. */
  ghost predicate WorldInv(w: World) {
    Inv(w.k) && forall p :: p in w.k.pipes ==> StreamOf(w, p).Ok()
  }

  lemma ReadOk(s: Stream, writers: nat, size: nat)
    requires s.Ok()
    ensures ReadSpec(s, writers, size).0.Ok()
  {
    var n := Min(size, |s.Stored()|);
    assert s.delivered + s.Stored()[..n] == s.written[..|s.delivered| + n];
  }

  lemma WriteOk(s: Stream, readers: nat, buffer: seq<byte>)
    requires s.Ok()
    ensures WriteSpec(s, readers, buffer).0.Ok()
  {}

  lemma ActedKeeps(w: World, a: Act)
    requires WorldInv(w) && Allowed(w, a)
    ensures WorldInv(Acted(w, a))
  {
    hide Inv, ReadSpec, WriteSpec, Apply, Possible;
    match a {
      case Call(e) => ApplyKeeps(w.k, e);
      case ReadPipe(d, size) =>
        var p := w.k.descs[d].node.pipe;
        if p in w.k.pipes {
          ReadOk(StreamOf(w, p), w.k.pipes[p].writers, size);
        }
      case WritePipe(d, buffer) =>
        var p := w.k.descs[d].node.pipe;
        if p in w.k.pipes {
          WriteOk(StreamOf(w, p), w.k.pipes[p].readers, buffer);
        }
    }
  }

  lemma {:induction false} ActRunKeeps(w: World, acts: seq<Act>)
    requires WorldInv(w) && ActRuns(w, acts)
    ensures WorldInv(ActRun(w, acts))
    decreases |acts|
  {
    hide WorldInv, Acted, Allowed;
    if acts != [] {
      ActedKeeps(w, acts[0]);
      ActRunKeeps(Acted(w, acts[0]), acts[1..]);
    }
  }

  /** The end of a pipe has a description and no slot or hold refers to it any more. */
  predicate Abandoned(k: Kernel, d: nat) { d != 0 && RefsTo(k, d) == 0 }

  lemma EndsCount(k: Kernel, p: nat)
    requires Inv(k) && p in k.pipes
    ensures k.pipes[p].writers == 0 <==> Abandoned(k, k.pipes[p].writeDesc)
    ensures k.pipes[p].readers == 0 <==> Abandoned(k, k.pipes[p].readDesc)
  {
    Parts(k, p);
    Parts(k, k.pipes[p].writeDesc);
    Parts(k, k.pipes[p].readDesc);
  }

  /** A description of a pipe end names a pipe that exists. */
  lemma EndHasPipe(k: Kernel, d: nat)
    requires Inv(k) && d in k.descs && !k.descs[d].node.Plain?
    ensures k.descs[d].node.pipe in k.pipes
  {
    Parts(k, d);
  }

  function FreshWorld(n: nat): World { World(DescriptorRuns.Fresh(n), map[]) }

  /**
   * After every run, for a read of at least one byte through a read end: end of file comes back exactly when every byte
   * written to that pipe has been delivered and no reference to its write end remains; otherwise what comes back
   * continues what was delivered.
   */
  lemma EndOfFileTheorem(n: nat, acts: seq<Act>, d: nat, size: nat)
    requires ActRuns(FreshWorld(n), acts) && size > 0
    requires Allowed(ActRun(FreshWorld(n), acts), ReadPipe(d, size))
    ensures var w := ActRun(FreshWorld(n), acts);
            var p := w.k.descs[d].node.pipe;
            && p in w.k.pipes && StreamOf(w, p).delivered <= StreamOf(w, p).written
            && var (s, r) := ReadSpec(StreamOf(w, p), w.k.pipes[p].writers, size);
            && (r.EndOfFile? <==> StreamOf(w, p).delivered == StreamOf(w, p).written &&
                                  Abandoned(w.k, w.k.pipes[p].writeDesc))
            && s.delivered <= s.written == StreamOf(w, p).written
            && (r.Got? <==> StreamOf(w, p).delivered != StreamOf(w, p).written)
            && (r.Got? ==>
                  && s.delivered == StreamOf(w, p).delivered + r.bytes
                  && |r.bytes| == Min(size, |StreamOf(w, p).written| - |StreamOf(w, p).delivered|))
  {
    hide ActRun, ActRuns, Inv, Abandoned, Apply;
    FreshInv(n);
    ActRunKeeps(FreshWorld(n), acts);
    var w := ActRun(FreshWorld(n), acts);
    var p := w.k.descs[d].node.pipe;
    EndHasPipe(w.k, d);
    EndsCount(w.k, p);
    ReadOk(StreamOf(w, p), w.k.pipes[p].writers, size);
    Drained(StreamOf(w, p));
  }

  lemma Drained(s: Stream)
    requires s.Ok()
    ensures s.Stored() == [] <==> s.delivered == s.written
  {}

  /** And a write fails with a broken pipe exactly when no reference to the read end remains. */
  lemma BrokenPipeTheorem(n: nat, acts: seq<Act>, d: nat, buffer: seq<byte>)
    requires ActRuns(FreshWorld(n), acts) && Allowed(ActRun(FreshWorld(n), acts), WritePipe(d, buffer))
    ensures var w := ActRun(FreshWorld(n), acts);
            var p := w.k.descs[d].node.pipe;
            && p in w.k.pipes
            && StreamOf(w, p).delivered <= StreamOf(w, p).written
            && var (s, r) := WriteSpec(StreamOf(w, p), w.k.pipes[p].readers, buffer);
            var room := PIPE_BUFFER_SIZE - (|StreamOf(w, p).written| - |StreamOf(w, p).delivered|);
            && 0 <= room && (r.BrokenPipe? <==> Abandoned(w.k, w.k.pipes[p].readDesc))
            && (r.BrokenPipe? ==> s == StreamOf(w, p))
            && (!r.BrokenPipe? ==>
                  && s.written == StreamOf(w, p).written + buffer[..Min(|buffer|, room)]
                  && s.delivered == StreamOf(w, p).delivered
                  && r == if buffer == [] || room == 0 then WriteSleeps else Took(Min(|buffer|, room)))
  {
    hide ActRun, ActRuns, Inv, Abandoned, Apply;
    FreshInv(n);
    ActRunKeeps(FreshWorld(n), acts);
    var w := ActRun(FreshWorld(n), acts);
    EndHasPipe(w.k, d);
    EndsCount(w.k, w.k.descs[d].node.pipe);
  }
}
