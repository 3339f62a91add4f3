// Open file descriptions and the descriptor slots that name them (src/kernel/kernel.c, src/kernel/scheduler.c).
module Descriptors {

  const TASK_MAX_FDS: nat := 32
  const FIRST_FD: nat := 3

  /** What a description is opened on; a pipe end carries its pipe's number. */
  datatype Node = Plain | ReadEnd(pipe: nat) | WriteEnd(pipe: nat)

  datatype Desc = Desc(node: Node, refs: nat)

  /** A pipe's counters, and the descriptions of its two ends; 0 where none could be allocated. */
  datatype PipeEnds = PipeEnds(readers: nat, writers: nat, readDesc: nat, writeDesc: nat)

  /**
   * slots[i] is the description in slot i, 0 if none; the slots of task t are TASK_MAX_FDS * t on. holds are references
   * taken for the length of a system call. closes counts the calls of a description's close operation. Numbers are
   * never reused.
   */
  datatype Kernel = Kernel(slots: seq<nat>, holds: multiset<nat>, descs: map<nat, Desc>, closes: map<nat, nat>,
                           pipes: map<nat, PipeEnds>, next: nat, nextPipe: nat)

  function Closes(k: Kernel, d: nat): nat { if d in k.closes then k.closes[d] else 0 }

  // ---- references ----

  function RefsTo(k: Kernel, d: nat): nat { multiset(k.slots)[d] + k.holds[d] }

  /** file_description_alloc: one reference, held by the caller. */
  function Alloc(k: Kernel, node: Node): Kernel {
    k.(descs := k.descs[k.next := Desc(node, 1)], holds := k.holds + multiset{k.next}, next := k.next + 1)
  }

  /** file_description_ref and the copies of a descriptor: one more reference, held by the caller. */
  function Ref(k: Kernel, d: nat): Kernel {
    if d !in k.descs then k
    else k.(descs := k.descs[d := k.descs[d].(refs := k.descs[d].refs + 1)], holds := k.holds + multiset{d})
  }

  /** pipe_node_close: the counter of that end falls, and the pipe goes when both are zero. */
  function CloseEnd(ps: map<nat, PipeEnds>, n: Node): map<nat, PipeEnds> {
    if n.Plain? || n.pipe !in ps then ps
    else
      var p := ps[n.pipe];
      var q := if n.ReadEnd? then p.(readers := if p.readers > 0 then p.readers - 1 else 0)
               else p.(writers := if p.writers > 0 then p.writers - 1 else 0);
      if q.readers == 0 && q.writers == 0 then ps - {n.pipe} else ps[n.pipe := q]
  }

  /** file_description_unref of a held reference; the last one closes and frees the description. */
  function Unref(k: Kernel, d: nat): Kernel {
    if d !in k.descs then k
    else
      var n := if k.descs[d].refs > 0 then k.descs[d].refs - 1 else 0;
      var l := k.(holds := k.holds - multiset{d});
      if n > 0 then l.(descs := k.descs[d := k.descs[d].(refs := n)])
      else
        l.(descs := k.descs - {d}, closes := k.closes[d := Closes(k, d) + 1],
                pipes := CloseEnd(k.pipes, k.descs[d].node))
  }

  /** A held reference is put into an empty slot. */
  function Install(k: Kernel, i: nat, d: nat): Kernel {
    if i < |k.slots| then k.(slots := k.slots[i := d], holds := k.holds - multiset{d}) else k
  }

  /** A slot is emptied and its reference held. */
  function Remove(k: Kernel, i: nat): Kernel {
    if i < |k.slots| then k.(slots := k.slots[i := 0], holds := k.holds + multiset{k.slots[i]}) else k
  }

  /** sys_pipe before its ends have descriptions. */
  function NewPipe(k: Kernel): Kernel {
    k.(pipes := k.pipes[k.nextPipe := PipeEnds(1, 1, 0, 0)], nextPipe := k.nextPipe + 1)
  }

  function EndNode(p: nat, reading: bool): Node { if reading then ReadEnd(p) else WriteEnd(p) }

  /** The description of one end of pipe p is allocated. */
  function AllocEnd(k: Kernel, p: nat, reading: bool): Kernel {
    if p !in k.pipes then k
    else
      var e := k.pipes[p];
      var l := Alloc(k, EndNode(p, reading));
      l.(pipes := l.pipes[p := if reading then e.(readDesc := k.next) else e.(writeDesc := k.next)])
  }

  // ---- the invariant ----

  /** A description's count is the number of slots and holds that name it. */
  ghost predicate CountOk(k: Kernel, d: nat) {
    && (d in k.descs ==> 0 < d < k.next && k.descs[d].refs == RefsTo(k, d) > 0)
    && (d != 0 && RefsTo(k, d) > 0 ==> d in k.descs)
    && (d == 0 ==> k.holds[d] == 0)
  }

  /** Close has run exactly once for every description that is gone and never for one that remains. */
  ghost predicate ClosedOnce(k: Kernel, d: nat) {
    Closes(k, d) == if 0 < d < k.next && d !in k.descs then 1 else 0
  }

  /** An end counts 1 while its description lives, or if none could be allocated for it, and 0 afterwards. */
  ghost predicate EndOk(k: Kernel, count: nat, d: nat, n: Node) {
    && d < k.next && count == (if d == 0 || d in k.descs then 1 else 0)
    && (d in k.descs ==> k.descs[d].node == n)
  }

  ghost predicate PipeOk(k: Kernel, p: nat) {
    p in k.pipes ==>
      var e := k.pipes[p];
      && p < k.nextPipe && (e.readers > 0 || e.writers > 0)
      && EndOk(k, e.readers, e.readDesc, ReadEnd(p)) && EndOk(k, e.writers, e.writeDesc, WriteEnd(p))
  }

  /** A description of a pipe end is the one its pipe knows. */
  ghost predicate EndKnown(k: Kernel, d: nat) {
    d in k.descs ==>
      match k.descs[d].node
      case Plain => true
      case ReadEnd(p) => p in k.pipes && k.pipes[p].readDesc == d
      case WriteEnd(p) => p in k.pipes && k.pipes[p].writeDesc == d
  }

  ghost predicate DescOk(k: Kernel, d: nat) { CountOk(k, d) && ClosedOnce(k, d) && EndKnown(k, d) }

  ghost predicate Inv(k: Kernel) {
    k.next > 0 && (forall d: nat :: DescOk(k, d)) && (forall p: nat :: PipeOk(k, p))
  }

  // ---- every step keeps it ----

  lemma AllocAt(k: Kernel, node: Node, d: nat)
    requires DescOk(k, d) && k.next > 0 && CountOk(k, k.next) && node.Plain?
    ensures DescOk(Alloc(k, node), d)
  {}

  lemma AllocKeeps(k: Kernel)
    requires Inv(k)
    ensures Inv(Alloc(k, Plain))
  {
    hide DescOk, Alloc, PipeOk;
    var l := Alloc(k, Plain);
    forall d: nat
      ensures DescOk(l, d)
    {
      Parts(k, k.next);
      AllocAt(k, Plain, d);
    }
    forall p: nat
      ensures PipeOk(l, p)
    {
      AllocPipe(k, Plain, p);
    }
    AllocNext(k, Plain);
  }

  lemma AllocNext(k: Kernel, node: Node)
    ensures Alloc(k, node).next == k.next + 1
  {}

  lemma Parts(k: Kernel, d: nat)
    requires Inv(k)
    ensures DescOk(k, d) && CountOk(k, d) && ClosedOnce(k, d) && EndKnown(k, d) && PipeOk(k, d)
  {}

  lemma AllocPipe(k: Kernel, node: Node, p: nat)
    requires PipeOk(k, p) && k.next > 0
    ensures PipeOk(Alloc(k, node), p)
  {}

  lemma RefKeeps(k: Kernel, d: nat)
    requires Inv(k)
    ensures Inv(Ref(k, d))
  {
    hide DescOk, PipeOk, Ref;
    var l := Ref(k, d);
    forall x: nat
      ensures DescOk(l, x)
    {
      RefAt(k, d, x);
    }
    forall p: nat
      ensures PipeOk(l, p)
    {
      RefPipe(k, d, p);
    }
    RefNext(k, d);
  }

  lemma RefNext(k: Kernel, d: nat)
    ensures Ref(k, d).next == k.next
  {}

  lemma RefAt(k: Kernel, d: nat, x: nat)
    requires DescOk(k, x)
    ensures DescOk(Ref(k, d), x)
  {}

  lemma RefPipe(k: Kernel, d: nat, p: nat)
    requires PipeOk(k, p)
    ensures PipeOk(Ref(k, d), p)
  {}

  lemma InstallKeeps(k: Kernel, i: nat, d: nat)
    requires Inv(k) && d != 0 && k.holds[d] > 0 && (i < |k.slots| ==> k.slots[i] == 0)
    ensures Inv(Install(k, i, d))
  {
    hide PipeOk, DescOk;
    var l := Install(k, i, d);
    forall x: nat
      ensures DescOk(l, x)
    {
      Parts(k, x);
      InstallAt(k, i, d, x);
    }
    forall p: nat
      ensures PipeOk(l, p)
    {
      Parts(k, p);
      SamePipes(k, l, p);
    }
  }

  lemma InstallAt(k: Kernel, i: nat, d: nat, x: nat)
    requires DescOk(k, x) && d != 0 && k.holds[d] > 0 && (i < |k.slots| ==> k.slots[i] == 0)
    ensures DescOk(Install(k, i, d), x)
  {
    hide RefsTo;
    SlotRefs(k, i, d, x);
  }

  lemma SlotRefs(k: Kernel, i: nat, d: nat, x: nat)
    requires d != 0 && k.holds[d] > 0 && (i < |k.slots| ==> k.slots[i] == 0)
    ensures x != 0 ==> RefsTo(Install(k, i, d), x) == RefsTo(k, x)
    ensures Install(k, i, d).holds[0] == k.holds[0]
  {}

  lemma SamePipes(k: Kernel, l: Kernel, p: nat)
    requires PipeOk(k, p) && l.pipes == k.pipes && l.descs == k.descs && l.next == k.next && l.nextPipe == k.nextPipe
    ensures PipeOk(l, p)
  {}

  lemma RemoveKeeps(k: Kernel, i: nat)
    requires Inv(k) && i < |k.slots| && k.slots[i] != 0
    ensures Inv(Remove(k, i)) && k.slots[i] in k.descs && Remove(k, i).holds[k.slots[i]] > 0
  {
    hide PipeOk, DescOk;
    var l := Remove(k, i);
    forall x: nat
      ensures DescOk(l, x)
    {
      Parts(k, x);
      RemoveAt(k, i, x);
    }
    forall p: nat
      ensures PipeOk(l, p)
    {
      Parts(k, p);
      SamePipes(k, l, p);
    }
    Parts(k, k.slots[i]);
    RemoveRefs(k, i, 0);
  }

  lemma RemoveAt(k: Kernel, i: nat, x: nat)
    requires DescOk(k, x) && i < |k.slots| && k.slots[i] != 0
    ensures DescOk(Remove(k, i), x)
  {
    hide RefsTo;
    RemoveRefs(k, i, x);
  }

  lemma RemoveRefs(k: Kernel, i: nat, x: nat)
    requires i < |k.slots| && k.slots[i] != 0
    ensures x != 0 ==> RefsTo(Remove(k, i), x) == RefsTo(k, x)
    ensures Remove(k, i).holds[0] == k.holds[0] && multiset(k.slots)[k.slots[i]] > 0
  {}

  lemma UnrefAt(k: Kernel, d: nat, x: nat)
    requires CountOk(k, d) && k.holds[d] > 0 && d in k.descs && CountOk(k, x) && ClosedOnce(k, x)
    ensures CountOk(Unref(k, d), x) && ClosedOnce(Unref(k, d), x)
  {
    hide CloseEnd;
  }

  lemma UnrefKnown(k: Kernel, d: nat, x: nat)
    requires Inv(k) && d in k.descs
    ensures EndKnown(Unref(k, d), x)
  {
    hide Inv, Closes;
    Parts(k, d);
    Parts(k, x);
    if x in k.descs && !k.descs[x].node.Plain? {
      Parts(k, k.descs[x].node.pipe);
    }
  }

  lemma UnrefPipe(k: Kernel, d: nat, p: nat)
    requires Inv(k) && d in k.descs
    ensures PipeOk(Unref(k, d), p)
  {
    hide Inv, Closes;
    Parts(k, d);
    Parts(k, p);
  }

  lemma UnrefKeeps(k: Kernel, d: nat)
    requires Inv(k) && d in k.descs && k.holds[d] > 0
    ensures Inv(Unref(k, d))
  {
    hide Unref, PipeOk, CountOk, ClosedOnce, EndKnown;
    var l := Unref(k, d);
    forall x: nat
      ensures DescOk(l, x)
    {
      Parts(k, d);
      Parts(k, x);
      UnrefAt(k, d, x);
      UnrefKnown(k, d, x);
    }
    forall p: nat
      ensures PipeOk(l, p)
    {
      UnrefPipe(k, d, p);
    }
    UnrefNext(k, d);
  }

  lemma UnrefNext(k: Kernel, d: nat)
    ensures Unref(k, d).next == k.next
  {}

  lemma NewPipeKeeps(k: Kernel)
    requires Inv(k)
    ensures Inv(NewPipe(k)) && k.nextPipe !in k.pipes
  {
    Parts(k, k.nextPipe);
    Parts(k, 0);
    var l := NewPipe(k);
    forall d: nat
      ensures DescOk(l, d)
    {
      Parts(k, d);
    }
    forall p: nat
      ensures PipeOk(l, p)
    {
      Parts(k, p);
    }
  }

  lemma AllocEndKeeps(k: Kernel, p: nat, reading: bool)
    requires Inv(k) && p in k.pipes && (if reading then k.pipes[p].readDesc else k.pipes[p].writeDesc) == 0
    ensures Inv(AllocEnd(k, p, reading))
  {
    hide DescOk, PipeOk, AllocEnd;
    var l := AllocEnd(k, p, reading);
    forall d: nat
      ensures DescOk(l, d)
    {
      Parts(k, k.next);
      Parts(k, d);
      AllocEndAt(k, p, reading, d);
    }
    forall q: nat
      ensures PipeOk(l, q)
    {
      Parts(k, k.next);
      Parts(k, q);
      AllocEndPipe(k, p, reading, q);
    }
    AllocEndNext(k, p, reading);
  }

  lemma AllocEndNext(k: Kernel, p: nat, reading: bool)
    ensures AllocEnd(k, p, reading).next >= k.next
  {}

  lemma AllocEndAt(k: Kernel, p: nat, reading: bool, d: nat)
    requires DescOk(k, d) && k.next > 0 && CountOk(k, k.next) && p in k.pipes
    requires (if reading then k.pipes[p].readDesc else k.pipes[p].writeDesc) == 0
    ensures DescOk(AllocEnd(k, p, reading), d)
  {}

  lemma AllocEndPipe(k: Kernel, p: nat, reading: bool, q: nat)
    requires PipeOk(k, q) && k.next > 0 && CountOk(k, k.next) && p in k.pipes
    requires (if reading then k.pipes[p].readDesc else k.pipes[p].writeDesc) == 0
    ensures PipeOk(AllocEnd(k, p, reading), q)
  {}
}
