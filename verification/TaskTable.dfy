// The scheduler as the kernel runs it: the task table changed in place on a timer tick (src/kernel/scheduler.c).
module TaskTable {
  import opened Scheduling

  class Scheduler {
    const tasks: array<Task>
    var current: int
    var idle: int

    ghost predicate Valid()
      reads this
    {
      -1 <= current < tasks.Length
    }

    constructor (table: seq<Task>, idleIndex: int)
      ensures fresh(tasks) && tasks[..] == table && current == -1 && idle == idleIndex && Valid()
    {
      tasks := new Task[|table|](i requires 0 <= i < |table| => table[i]);
      current, idle := -1, idleIndex;
      new;
      assert tasks[..] == table;
    }

    /** The loops over the table in scheduler_terminate_task_unlocked that reparent children and wake waiters. */
    method Orphan(i: nat)
      requires i < tasks.Length
      modifies tasks
      ensures tasks[..] == Orphaned(old(tasks[..]), i)
    {
      var pid := tasks[i].pid;
      ghost var ts := tasks[..];
      tasks[i] := Ended(tasks[i]);
      var k := 0;
      while k < tasks.Length
        invariant 0 <= k <= tasks.Length
        invariant forall x :: 0 <= x < tasks.Length ==> tasks[x] == Step(ts, i, x, x < k, false)
      {
        if tasks[k].state != Unused && tasks[k].state != Dead && tasks[k].parent == pid {
          tasks[k] := tasks[k].(parent := 1);
        }
        k := k + 1;
      }
      k := 0;
      while k < tasks.Length
        invariant 0 <= k <= tasks.Length
        invariant forall x :: 0 <= x < tasks.Length ==> tasks[x] == Step(ts, i, x, true, x < k)
      {
        if AwaitsChild(tasks[k], pid) {
          tasks[k] := tasks[k].(state := Ready, wait := NoWait);
        }
        k := k + 1;
      }
    }

    /** scheduler_terminate_task_unlocked. */
    method TerminateTask(i: nat)
      requires i < tasks.Length
      modifies tasks
      ensures tasks[..] == Terminate(old(tasks[..]), i)
    {
      hide Orphaned;
      if Gone(tasks[i]) {
        return;
      }
      var parent := tasks[i].parent;
      Orphan(i);
      if parent != 0 {
        var p := 0;
        while p < tasks.Length
          invariant 0 <= p <= tasks.Length && tasks[..] == Orphaned(old(tasks[..]), i)
          invariant forall x :: 0 <= x < p ==> !(InTable(tasks[x]) && tasks[x].pid == parent)
        {
          if tasks[p].state != Unused && tasks[p].state != Dead && tasks[p].pid == parent {
            FindIs(tasks[..], parent, p);
            tasks[p] := Notified(tasks[p]);
            return;
          }
          p := p + 1;
        }
        FindIs(tasks[..], parent, p);
      }
    }

    /** next_pending_signal: the lowest pending signal that is not blocked, 0 if there is none. */
    static method NextPending(t: Task) returns (s: nat)
      ensures s == NextSignal(t, 1)
    {
      s := 1;
      while s < SIGNALS
        invariant 1 <= s <= SIGNALS && NextSignal(t, 1) == NextSignal(t, s)
      {
        if s in t.pending - t.blocked {
          return;
        }
        s := s + 1;
      }
      return 0;
    }

    /** deliver_pending_signal_unlocked on the task at i. */
    method DeliverSignal(i: nat, granted: bool) returns (alive: bool)
      requires i < tasks.Length
      modifies tasks
      ensures (tasks[..], alive) == Deliver(old(tasks[..]), i, granted)
    {
      hide Terminate, Judge, NextSignal;
      var t := tasks[i];
      if t.active != 0 {
        return true;
      }
      var s := NextPending(t);
      if s == 0 {
        return true;
      }
      match Judge(t, s, granted) {
        case Nothing => alive := true;
        case Discard =>
          tasks[i] := t.(pending := t.pending - {s});
          alive := true;
        case Kill =>
          tasks[i] := t.(pending := t.pending - {s});
          TerminateTask(i);
          alive := false;
        case Call =>
          tasks[i] := t.(pending := t.pending - {s}, active := s,
                         frame := t.frame.(stackMapped := true, enters := HandlerOf(t, s)));
          alive := true;
      }
    }

    /** The selection loop of scheduler_tick. */
    method Select(granted: nat -> bool) returns (chosen: int)
      requires Valid() && tasks.Length > 0
      modifies tasks
      ensures (tasks[..], chosen) == Scan(old(tasks[..]), current, idle, granted, 0)
    {
      hide Deliver;
      var attempts, index := 0, current;
      while attempts < tasks.Length
        invariant 0 <= attempts <= tasks.Length && -1 <= index < tasks.Length
        invariant index == if attempts == 0 then current else Index(current, attempts - 1, tasks.Length)
        invariant Scan(old(tasks[..]), current, idle, granted, 0) == Scan(tasks[..], current, idle, granted, attempts)
        decreases tasks.Length - attempts
      {
        NextIndex(current, attempts, tasks.Length);
        index := (index + 1) % tasks.Length;
        attempts := attempts + 1;
        if index != idle && (tasks[index].state == Ready || tasks[index].state == Running) {
          var alive := true;
          if tasks[index].user && tasks[index].pending != {} && tasks[index].active == 0 {
            alive := DeliverSignal(index, granted(index));
          }
          if alive {
            return index;
          }
        }
      }
      return -1;
    }

    /** scheduler_tick. */
    method TimerTick(granted: nat -> bool)
      requires Valid()
      modifies this, tasks
      ensures Valid() && idle == old(idle)
      ensures (tasks[..], current) == Tick(old(tasks[..]), old(current), idle, granted)
    {
      hide Scan;
      if tasks.Length == 0 {
        return;
      }
      if 0 <= current && tasks[current].state == Running {
        tasks[current] := tasks[current].(state := Ready);
      }
      assert tasks[..] == Preempted(old(tasks[..]), current);
      var chosen := Select(granted);
      if chosen >= 0 {
        current := chosen;
        tasks[current] := tasks[current].(state := Running);
      } else if 0 <= idle < tasks.Length && !Gone(tasks[idle]) {
        current := idle;
        tasks[current] := tasks[current].(state := Running);
      }
    }
  }

  /** Entry x while the loops of Orphan are under way. */
  ghost function Step(ts: Table, i: nat, x: nat, reparented: bool, woken: bool): Task
    requires i < |ts| && x < |ts|
  {
    var t := if x == i then Ended(ts[x]) else ts[x];
    var u := if reparented then Reparented(t, ts[i].pid) else t;
    if woken then Woken(u, ts[i].pid) else u
  }

  lemma FindIs(ts: Table, pid: nat, p: nat)
    requires p <= |ts| && (p < |ts| ==> InTable(ts[p]) && ts[p].pid == pid)
    requires forall x :: 0 <= x < p ==> !(InTable(ts[x]) && ts[x].pid == pid)
    ensures Find(ts, pid) == p
  {}

  lemma NextIndex(current: int, a: nat, n: nat)
    requires -1 <= current < n && a < n
    ensures ((if a == 0 then current else Index(current, a - 1, n)) + 1) % n == Index(current, a, n)
  {
    if a > 0 {
      IndexIs(current, a - 1, n);
      ModOnce(Index(current, a - 1, n) + 1, n);
    }
    IndexIs(current, a, n);
  }
}
