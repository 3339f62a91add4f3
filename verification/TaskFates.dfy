// What becomes of tasks: which signals end them, which enter their handlers, whom a termination concerns, and who runs.
module TaskFates {
  import opened Scheduling

  // ---- signals ----

  /** The signal may be delivered now. */
  predicate Deliverable(t: Task, s: nat) { 0 < s < SIGNALS && s in t.pending && s !in t.blocked }

  /** The lowest such signal. */
  ghost predicate Lowest(t: Task, s: nat) {
    Deliverable(t, s) && forall x :: 0 < x < s ==> !Deliverable(t, x)
  }

  lemma LowestIsNext(t: Task, s: nat)
    requires Lowest(t, s)
    ensures NextSignal(t, 1) == s
  {
    assert Deliverable(t, s);
    var r := NextSignal(t, 1);
    assert r != 0 && Deliverable(t, r);
  }

  /** The frame is a user frame on which a handler can be entered. */
  predicate StackUsable(t: Task, granted: bool) { t.frame.stackInRange && (t.frame.stackMapped || granted) }

  /** The signal is dropped: its default is to do nothing, or it is one of the five that can be ignored. */
  predicate Dropped(s: nat, h: Handler) {
    (h == Default && (s == SIGCHLD || s == SIGCONT)) || (h == Ignore && s in IGNORABLE)
  }

  /** The signal ends the task by itself: it cannot be handled, or nothing that can be entered is installed. */
  predicate Deadly(s: nat, h: Handler) {
    s == SIGKILL || h == Invalid || (h == Default && s != SIGCHLD && s != SIGCONT)
  }

  lemma LowestIs(t: Task, s: nat)
    requires Lowest(t, s)
    ensures s != 0 && s in t.pending
  {}

  lemma JudgeIs(t: Task, s: nat, granted: bool)
    ensures var h := HandlerOf(t, s);
            && (Judge(t, s, granted) == Discard <==> Dropped(s, h))
            && (Judge(t, s, granted) == Nothing <==> !Dropped(s, h) && !Deadly(s, h) && !t.frame.ring3)
            && (Judge(t, s, granted) == Call <==>
                  !Dropped(s, h) && !Deadly(s, h) && t.frame.ring3 && StackUsable(t, granted))
    ensures StackUsable(t, granted) ==> t.frame.stackInRange
    ensures Dropped(s, HandlerOf(t, s)) ==> !Deadly(s, HandlerOf(t, s))
  {}

  /**
   * When a user task is about to run, its lowest deliverable signal ends it exactly if it is deadly or its handler
   * would have to be entered on an unusable stack; dropped, it just stops being pending; in kernel mode it waits; and
   * otherwise the task resumes in the handler with that one signal active.
   */
  lemma SignalFate(ts: Table, i: nat, idle: int, granted: bool, s: nat)
    requires i < |ts| && i != idle && Runnable(ts[i]) && ts[i].user && ts[i].active == 0 && Lowest(ts[i], s)
    ensures var t, h := ts[i], HandlerOf(ts[i], s);
            var (r, runs) := Try(ts, i, idle, granted);
            && (!runs <==> Deadly(s, h) || (!Dropped(s, h) && t.frame.ring3 && !StackUsable(t, granted)))
            && (r[i].state == Zombie <==> !runs)
            && (Dropped(s, h) ==> r == ts[i := t.(pending := t.pending - {s})])
            && (runs && !Dropped(s, h) && !t.frame.ring3 ==> r == ts)
            && (runs && !Dropped(s, h) && t.frame.ring3 ==>
                  r == ts[i := t.(pending := t.pending - {s}, active := s,
                                  frame := Frame(true, true, true, h))])
  {
    hide Terminate, NextSignal, Lowest, Judge, Dropped, Deadly, StackUsable;
    LowestIsNext(ts[i], s);
    LowestIs(ts[i], s);
    JudgeIs(ts[i], s, granted);
    TerminateSelf(ts[i := ts[i].(pending := ts[i].pending - {s})], i);
  }

  /** With no deliverable signal, with one being handled, or in a kernel task, delivery changes nothing. */
  lemma NoSignal(ts: Table, i: nat, idle: int, granted: bool)
    requires i < |ts| && i != idle && Runnable(ts[i])
    requires !ts[i].user || ts[i].active != 0 || forall x :: 0 < x < SIGNALS ==> !Deliverable(ts[i], x)
    ensures Try(ts, i, idle, granted) == (ts, true)
  {
    if NextSignal(ts[i], 1) != 0 {
      assert Deliverable(ts[i], NextSignal(ts[i], 1));
    }
  }

  // ---- termination ----

  /**
   * Ending a task: it is a zombie with nothing pending, its children in the table belong to task 1, exactly those who
   * wait for it are ready, and its parent has SIGCHLD pending exactly if it installed a handler for it.
   */
  lemma TerminateMeans(ts: Table, i: nat, k: nat)
    requires i < |ts| && k < |ts| && !Gone(ts[i]) && ts[i].pid != 1
    ensures var r, pid := Terminate(ts, i), ts[i].pid;
            && (k == i ==> r[k].state == Zombie && r[k].active == 0)
            && (InTable(r[k]) ==> r[k].parent != pid)
            && (k != i ==>
                  && r[k].parent == (if InTable(ts[k]) && ts[k].parent == pid then 1 else ts[k].parent)
                  && var waits := (ts[k].state == Sleeping || ts[k].state == Waiting) && ts[k].wait.OnChild? &&
                                  ts[k].wait.target in {pid, 0, ANY_CHILD};
                  && (waits ==> r[k].state == Ready && r[k].wait == NoWait)
                  && (!waits ==> r[k].state == ts[k].state && r[k].wait == ts[k].wait)
                  && r[k].pending - ts[k].pending <= {SIGCHLD} && ts[k].pending <= r[k].pending
                  && r[k] == ts[k].(state := r[k].state, wait := r[k].wait, parent := r[k].parent,
                                    pending := r[k].pending))
  {
    hide Find;
    var r := Orphaned(ts, i);
    assert r[k].pid == ts[k].pid && (k != i ==> r[k].handlers == ts[k].handlers);
  }

  /** The first entry of the parent is the one that is told. */
  lemma ParentTold(ts: Table, i: nat, p: nat)
    requires i < |ts| && p < |ts| && p != i && !Gone(ts[i]) && ts[i].parent == ts[p].pid != 0 && InTable(ts[p])
    requires ts[i].pid != ts[i].parent
    requires forall x :: 0 <= x < p && x != i ==> !(InTable(ts[x]) && ts[x].pid == ts[p].pid)
    ensures var h := HandlerOf(ts[p], SIGCHLD);
            Terminate(ts, i)[p].pending ==
            if h == Default || h == Ignore then ts[p].pending else ts[p].pending + {SIGCHLD}
    ensures forall k :: 0 <= k < |ts| && k != i && k != p ==> Terminate(ts, i)[k].pending == ts[k].pending
  {
    var r := Orphaned(ts, i);
    assert forall x :: 0 <= x < |ts| ==> r[x].pid == ts[x].pid && (InTable(r[x]) <==> x == i || InTable(ts[x]));
    assert forall x :: 0 <= x < |ts| && x != i ==> r[x].pending == ts[x].pending && r[x].handlers == ts[x].handlers;
    ghost var f := Find(r, ts[i].parent);
    assert f == p;
  }

  /** Everybody alive has a parent that is alive, or is a child of task 1 or of nobody. */
  ghost predicate Rooted(ts: Table) {
    forall k :: 0 <= k < |ts| && !Gone(ts[k]) ==> ParentAlive(ts, ts[k].parent)
  }

  ghost predicate ParentAlive(ts: Table, pid: nat) {
    pid == 0 || pid == 1 || exists m :: 0 <= m < |ts| && !Gone(ts[m]) && ts[m].pid == pid
  }

  lemma TerminateRooted(ts: Table, i: nat)
    requires i < |ts| && Rooted(ts)
    ensures Rooted(Terminate(ts, i))
  {
    hide Terminate, Gone;
    var r := Terminate(ts, i);
    if Gone(ts[i]) {
      TerminateGone(ts, i);
      return;
    }
    forall k | 0 <= k < |r| && !Gone(r[k])
      ensures ParentAlive(r, r[k].parent)
    {
      TerminateAt(ts, i, k);
      assert ParentAlive(ts, ts[k].parent);
      if r[k].parent != 0 && r[k].parent != 1 {
        var m :| 0 <= m < |ts| && !Gone(ts[m]) && ts[m].pid == ts[k].parent;
        TerminateAt(ts, i, m);
        assert !Gone(r[m]) && r[m].pid == r[k].parent;
      }
    }
  }

  lemma TerminateGone(ts: Table, i: nat)
    requires i < |ts| && Gone(ts[i])
    ensures Terminate(ts, i) == ts
  {}

  lemma TerminateAt(ts: Table, i: nat, x: nat)
    requires i < |ts| && x < |ts| && !Gone(ts[i])
    ensures var r, pid := Terminate(ts, i), ts[i].pid;
            && r[x].pid == ts[x].pid && (Gone(r[x]) <==> x == i || Gone(ts[x]))
            && (!Gone(ts[x]) ==> r[x].parent == if ts[x].parent == pid then 1 else ts[x].parent)
  {
    hide Find;
    var o := Orphaned(ts, i);
    assert o[x].pid == ts[x].pid;
  }

  // ---- who runs ----

  /** Both tables agree on who is alive, who runs and who belongs to whom. */
  ghost predicate SameLife(ts: Table, us: Table) {
    && |us| == |ts|
    && forall k :: 0 <= k < |ts| ==>
         us[k].pid == ts[k].pid && us[k].parent == ts[k].parent && (Gone(us[k]) <==> Gone(ts[k]))
  }

  lemma SameLifeRooted(ts: Table, us: Table)
    requires SameLife(ts, us) && Rooted(ts)
    ensures Rooted(us)
  {
    forall k | 0 <= k < |us| && !Gone(us[k])
      ensures ParentAlive(us, us[k].parent)
    {
      assert ParentAlive(ts, ts[k].parent);
      if ts[k].parent != 0 && ts[k].parent != 1 {
        var m :| 0 <= m < |ts| && !Gone(ts[m]) && ts[m].pid == ts[k].parent;
        assert !Gone(us[m]);
      }
    }
  }

  ghost predicate NoneRunning(ts: Table) { forall k :: 0 <= k < |ts| ==> ts[k].state != Running }

  lemma TerminateNoneRunning(ts: Table, i: nat)
    requires i < |ts| && NoneRunning(ts)
    ensures NoneRunning(Terminate(ts, i))
  {
    hide Find;
    assert NoneRunning(Orphaned(ts, i));
  }

  lemma TryLife(ts: Table, i: nat, idle: int, granted: bool)
    requires i < |ts| && Rooted(ts) && NoneRunning(ts)
    ensures Rooted(Try(ts, i, idle, granted).0) && NoneRunning(Try(ts, i, idle, granted).0)
  {
    hide Terminate, Judge, NextSignal, Rooted;
    var t, s := ts[i], NextSignal(ts[i], 1);
    var u := ts[i := t.(pending := t.pending - {s})];
    SameLifeRooted(ts, u);
    SameLifeRooted(ts, ts[i := Entering(t, s)]);
    TerminateRooted(u, i);
    TerminateNoneRunning(u, i);
  }

  lemma {:induction false} ScanLife(ts: Table, current: int, idle: int, granted: nat -> bool, a: nat)
    requires ts != [] && -1 <= current < |ts| && Rooted(ts) && NoneRunning(ts)
    ensures var us := Scan(ts, current, idle, granted, a).0; Rooted(us) && NoneRunning(us)
    decreases |ts| - a
  {
    hide Try, Index, Rooted, NoneRunning;
    if a < |ts| {
      var i := Index(current, a, |ts|);
      TryLife(ts, i, idle, granted(i));
      ScanLife(Try(ts, i, idle, granted(i)).0, current, idle, granted, a + 1);
    }
  }

  /** Through every tick at most the current task is running, and nobody alive is left without a parent. */
  lemma TickLife(ts: Table, current: int, idle: int, granted: nat -> bool)
    requires -1 <= current < |ts| && Rooted(ts)
    requires forall k :: 0 <= k < |ts| && ts[k].state == Running ==> k == current
    ensures var (us, c) := Tick(ts, current, idle, granted);
            Rooted(us) && forall k :: 0 <= k < |us| && us[k].state == Running ==> k == c
  {
    hide Scan, Rooted;
    if ts != [] {
      var ps := Preempted(ts, current);
      SameLifeRooted(ts, ps);
      ScanLife(ps, current, idle, granted, 0);
      ScanRunnable(ps, current, idle, granted, 0);
      var (vs, i) := Scan(ps, current, idle, granted, 0);
      if i >= 0 {
        SameLifeRooted(vs, Dispatch(vs, i));
      } else if 0 <= idle < |vs| && !Gone(vs[idle]) {
        SameLifeRooted(vs, Dispatch(vs, idle));
      }
    }
  }

  lemma {:induction false} ScanNobody(ts: Table, current: int, idle: int, granted: nat -> bool, a: nat)
    requires ts != [] && -1 <= current < |ts|
    requires forall k :: 0 <= k < |ts| && k != idle ==> !Runnable(ts[k])
    ensures Scan(ts, current, idle, granted, a) == (ts, -1)
    decreases |ts| - a
  {
    hide Index, Deliver;
    if a < |ts| {
      ScanNobody(ts, current, idle, granted, a + 1);
    }
  }

  /** When no other task may run, the idle task does. */
  lemma IdleRuns(ts: Table, current: int, idle: nat, granted: nat -> bool)
    requires -1 <= current < |ts| && idle < |ts| && !Gone(ts[idle])
    requires forall k :: 0 <= k < |ts| && k != idle ==> !Runnable(ts[k])
    ensures var (us, c) := Tick(ts, current, idle, granted);
            c == idle && us[idle].state == Running && forall k :: 0 <= k < |ts| && k != idle ==> us[k] == ts[k]
  {
    hide Scan;
    ScanNobody(Preempted(ts, current), current, idle, granted, 0);
  }
}
