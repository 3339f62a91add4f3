// The round-robin scheduler: one timer tick, signal delivery included (src/kernel/scheduler.c).
module Scheduling {
  import opened Basics

  const SIGNALS: nat := 32
  const SIGINT: nat := 2
  const SIGKILL: nat := 9
  const SIGPIPE: nat := 13
  const SIGTERM: nat := 15
  const SIGCHLD: nat := 17
  const SIGCONT: nat := 18
  const ANY_CHILD: nat := 0xFFFF_FFFF_FFFF_FFFF

  datatype State = Unused | Ready | Running | Sleeping | Waiting | Zombie | Dead

  datatype Wait = NoWait | OnChild(target: nat) | OnOther

  datatype Handler = Default | Ignore | Invalid | Function(address: nat)

  /** What signal delivery asks of the saved frame and its stack, and the handler the frame last was made to enter. */
  datatype Frame = Frame(ring3: bool, stackInRange: bool, stackMapped: bool, enters: Handler)

  datatype Task = Task(state: State, pid: nat, parent: nat, wait: Wait, user: bool, pending: set<nat>,
                       blocked: set<nat>, active: nat, handlers: map<nat, Handler>, frame: Frame)

  type Table = seq<Task>

  predicate Runnable(t: Task) { t.state == Ready || t.state == Running }

  predicate Gone(t: Task) { t.state == Zombie || t.state == Dead || t.state == Unused }

  predicate InTable(t: Task) { t.state != Unused && t.state != Dead }

  function HandlerOf(t: Task, s: nat): Handler { if s in t.handlers then t.handlers[s] else Default }

  // ---- ending a task ----

  function Ended(t: Task): Task { t.(state := Zombie, wait := NoWait, pending := {}, active := 0) }

  function Reparented(t: Task, pid: nat): Task { if InTable(t) && t.parent == pid then t.(parent := 1) else t }

  predicate AwaitsChild(t: Task, pid: nat) {
    (t.state == Sleeping || t.state == Waiting) && t.wait.OnChild? &&
            (t.wait.target == pid || t.wait.target == 0 || t.wait.target == ANY_CHILD)
  }

  function Woken(t: Task, pid: nat): Task { if AwaitsChild(t, pid) then t.(state := Ready, wait := NoWait) else t }

  /** The parent's entry, or the number of entries. */
  function Find(ts: Table, pid: nat): (i: nat)
    ensures i <= |ts| && (i < |ts| ==> InTable(ts[i]) && ts[i].pid == pid)
    ensures forall k :: 0 <= k < i ==> !(InTable(ts[k]) && ts[k].pid == pid)
  {
    if ts == [] then 0 else if InTable(ts[0]) && ts[0].pid == pid then 0 else 1 + Find(ts[1..], pid)
  }

  function Notified(t: Task): Task {
    var h := HandlerOf(t, SIGCHLD);
    if h != Default && h != Ignore then t.(pending := t.pending + {SIGCHLD}) else t
  }

  /** The table once the task at i has become a zombie, its children have a new parent and its waiters are awake. */
  function Orphaned(ts: Table, i: nat): (r: Table)
    requires i < |ts|
    ensures |r| == |ts|
  {
    var pid := ts[i].pid;
    seq(|ts|, k requires 0 <= k < |ts| => Woken(Reparented(if k == i then Ended(ts[k]) else ts[k], pid), pid))
  }

  /** scheduler_terminate_task_unlocked. */
  function Terminate(ts: Table, i: nat): (r: Table)
    requires i < |ts|
    ensures |r| == |ts|
  {
    if Gone(ts[i]) then ts
    else
      var r := Orphaned(ts, i);
      var p := Find(r, ts[i].parent);
      if ts[i].parent != 0 && p < |r| then r[p := Notified(r[p])] else r
  }

  /** Ending a task leaves every other runnable task runnable. */
  lemma TerminateOthers(ts: Table, i: nat, k: nat)
    requires i < |ts| && k < |ts| && k != i && Runnable(ts[k])
    ensures Terminate(ts, i)[k].state == ts[k].state
  {
    hide Find;
    assert Orphaned(ts, i)[k].state == ts[k].state;
  }

  lemma TerminateSelf(ts: Table, i: nat)
    requires i < |ts| && Runnable(ts[i])
    ensures Terminate(ts, i)[i].state == Zombie
  {
    hide Find;
    assert Orphaned(ts, i)[i].state == Zombie;
  }

  // ---- delivering a signal ----

  /** next_pending_signal from s on: the lowest pending signal that is not blocked, or 0. */
  function NextSignal(t: Task, s: nat): (r: nat)
    requires s > 0
    ensures r != 0 ==> s <= r < SIGNALS && r in t.pending && r !in t.blocked
    ensures forall x :: s <= x < SIGNALS && (r == 0 || x < r) ==> x !in t.pending || x in t.blocked
    decreases SIGNALS - s
  {
    if s >= SIGNALS then 0 else if s in t.pending && s !in t.blocked then s else NextSignal(t, s + 1)
  }

  datatype Verdict = Nothing | Discard | Kill | Call

  /** What deliver_pending_signal does with signal s; `granted` says whether a stack page can be had. */
  function Judge(t: Task, s: nat, granted: bool): Verdict {
    var h := HandlerOf(t, s);
    if (s == SIGCHLD || s == SIGCONT) && (h == Default || h == Ignore) then Discard
    else if (s == SIGPIPE || s == SIGINT || s == SIGTERM) && h == Ignore then Discard
    else if s == SIGKILL || h == Default || h == Invalid then Kill
    else if !t.frame.ring3 then Nothing
    else if !t.frame.stackInRange then Kill
    else if !t.frame.stackMapped && !granted then Kill
    else Call
  }

  /** deliver_pending_signal_unlocked: the new table and whether the task survives. */
  function Deliver(ts: Table, i: nat, granted: bool): (r: (Table, bool))
    requires i < |ts|
    ensures |r.0| == |ts|
  {
    var t := ts[i];
    var s := NextSignal(t, 1);
    if t.active != 0 || s == 0 then (ts, true)
    else
      match Judge(t, s, granted)
      case Nothing => (ts, true)
      case Discard => (ts[i := t.(pending := t.pending - {s})], true)
      case Kill => (Terminate(ts[i := t.(pending := t.pending - {s})], i), false)
      case Call => (ts[i := Entering(t, s)], true)
  }

  /** The task resumes in its handler for s. */
  function Entering(t: Task, s: nat): Task {
    t.(pending := t.pending - {s}, active := s, frame := t.frame.(stackMapped := true, enters := HandlerOf(t, s)))
  }

  /** The lowest signal that may be delivered is judged fatal. */
  predicate Doomed(t: Task, granted: bool) {
    t.active == 0 && NextSignal(t, 1) != 0 && Judge(t, NextSignal(t, 1), granted) == Kill
  }

  /** Delivery ends a task exactly when it is doomed. */
  lemma DeliverExactly(ts: Table, i: nat, granted: bool)
    requires i < |ts| && Runnable(ts[i])
    ensures var (r, alive) := Deliver(ts, i, granted);
            && (alive <==> !Doomed(ts[i], granted))
            && (r[i].state == Zombie <==> Doomed(ts[i], granted))
            && (alive ==> r[i].state == ts[i].state)
  {
    hide Terminate, Judge, NextSignal;
    var t := ts[i];
    TerminateSelf(ts[i := t.(pending := t.pending - {NextSignal(t, 1)})], i);
  }

  /** The signals that setting SIG_IGN really makes deliver_pending_signal drop. */
  const IGNORABLE: set<nat> := {SIGCHLD, SIGCONT, SIGPIPE, SIGINT, SIGTERM}

  /**
   * What becomes of a signal set to be ignored: five are dropped, SIGKILL is fatal, and any other is delivered on a
   * user frame with a usable stack, the marker itself being entered as the handler.
   */
  lemma IgnoredExactly(ts: Table, i: nat, granted: bool)
    requires i < |ts| && Runnable(ts[i]) && ts[i].active == 0 && NextSignal(ts[i], 1) != 0
    requires HandlerOf(ts[i], NextSignal(ts[i], 1)) == Ignore
    ensures var t, s, r := ts[i], NextSignal(ts[i], 1), Deliver(ts, i, granted).0;
            && (r == ts[i := t.(pending := t.pending - {s})] <==> s in IGNORABLE)
            && (r[i] == Entering(t, s) <==>
                  s !in IGNORABLE && s != SIGKILL && t.frame.ring3 && t.frame.stackInRange &&
                  (t.frame.stackMapped || granted))
            && Entering(t, s).frame.enters == Ignore
  {
    hide Terminate, NextSignal;
    var t, s := ts[i], NextSignal(ts[i], 1);
    TerminateSelf(ts[i := t.(pending := t.pending - {s})], i);
    assert s in t.pending;
  }

  /** So it is with signal 10 on a one-task table: the frame enters the ignore marker. */
  lemma IgnoredEntered()
    ensures var t := Task(Ready, 1, 0, NoWait, true, {10}, {}, 0, map[10 := Ignore], Frame(true, true, true, Default));
            Deliver([t], 0, true).0[0].frame.enters == Ignore && Deliver([t], 0, true).0[0].active == 10
  {
    var t := Task(Ready, 1, 0, NoWait, true, {10}, {}, 0, map[10 := Ignore], Frame(true, true, true, Default));
    assert NextSignal(t, 1) == 10 by {
      var s := NextSignal(t, 1);
      assert s == 0 ==> 10 !in t.pending || 10 in t.blocked;
    }
    hide NextSignal;
    IgnoredExactly([t], 0, true);
  }

  lemma DeliverKeeps(ts: Table, i: nat, granted: bool, k: nat)
    requires i < |ts| && k < |ts| && Runnable(ts[i])
    ensures var (r, alive) := Deliver(ts, i, granted);
            && (alive ==> r[i].state == ts[i].state) && (!alive ==> r[i].state == Zombie)
            && (k != i && Runnable(ts[k]) ==> r[k].state == ts[k].state)
  {
    hide Terminate, Judge, NextSignal;
    var t := ts[i];
    var u := ts[i := t.(pending := t.pending - {NextSignal(t, 1)})];
    TerminateSelf(u, i);
    if k != i && Runnable(ts[k]) {
      TerminateOthers(u, i, k);
    }
  }

  // ---- one tick ----

  /** The task that was running goes back to the ready ones. */
  function Preempted(ts: Table, current: int): (r: Table)
    ensures |r| == |ts|
  {
    if 0 <= current < |ts| && ts[current].state == Running then ts[current := ts[current].(state := Ready)] else ts
  }

  predicate NeedsSignal(t: Task) { t.user && t.pending != {} && t.active == 0 }

  /** The index looked at on attempt a. */
  function Index(current: int, a: nat, n: nat): (i: nat)
    requires n > 0 && -1 <= current < n
    ensures i < n
  {
    (current + 1 + a) % n
  }

  /** The candidate at i is tried: the table afterwards and whether it may run. */
  function Try(ts: Table, i: nat, idle: int, granted: bool): (r: (Table, bool))
    requires i < |ts|
    ensures |r.0| == |ts|
  {
    if i == idle || !Runnable(ts[i]) then (ts, false)
    else if NeedsSignal(ts[i]) then Deliver(ts, i, granted)
    else (ts, true)
  }

  /** The selection loop from attempt a on: the table and the chosen index, -1 if none. */
  function Scan(ts: Table, current: int, idle: int, granted: nat -> bool, a: nat): (r: (Table, int))
    requires ts != [] && -1 <= current < |ts|
    ensures |r.0| == |ts| && -1 <= r.1 < |ts|
    decreases |ts| - a
  {
    if a >= |ts| then (ts, -1)
    else
      var i := Index(current, a, |ts|);
      var (us, ok) := Try(ts, i, idle, granted(i));
      if ok then (us, i) else Scan(us, current, idle, granted, a + 1)
  }

  function Dispatch(ts: Table, i: nat): (r: Table)
    requires i < |ts|
    ensures |r| == |ts|
  {
    ts[i := ts[i].(state := Running)]
  }

  /** scheduler_tick on the task table: the new table and the new current index. */
  function Tick(ts: Table, current: int, idle: int, granted: nat -> bool): (r: (Table, int))
    requires -1 <= current < |ts|
    ensures |r.0| == |ts| && -1 <= r.1 < |ts|
  {
    if ts == [] then (ts, current)
    else
      var (us, i) := Scan(Preempted(ts, current), current, idle, granted, 0);
      if i >= 0 then (Dispatch(us, i), i)
      else if 0 <= idle < |us| && !Gone(us[idle]) then (Dispatch(us, idle), idle)
      else (us, current)
  }

  // ---- bounded waiting ----

  /** How many candidates come before task j when the scan starts behind `current`. */
  function Distance(current: int, j: nat, n: nat): (d: nat)
    requires -1 <= current < n && j < n
    ensures d < n
  {
    if j > current then j - current - 1 else n - 1 - (current - j)
  }

  lemma IndexIs(current: int, a: nat, n: nat)
    requires n > 0 && -1 <= current < n && a < n
    ensures Index(current, a, n) == if current + 1 + a < n then current + 1 + a else current + 1 + a - n
  {
    ModOnce(current + 1 + a, n);
  }

  lemma ModOnce(x: nat, n: nat)
    requires x < n + n
    ensures x % n == if x < n then x else x - n
  {
    DivIs(x, n, if x < n then 0 else 1, if x < n then x else x - n);
  }

  /** Attempt a reaches j exactly when a is the distance, and going to an earlier candidate brings j closer. */
  lemma Closer(current: int, a: nat, j: nat, n: nat)
    requires -1 <= current < n && j < n && a <= Distance(current, j, n)
    ensures Index(current, a, n) == j <==> a == Distance(current, j, n)
    ensures a < Distance(current, j, n) ==> Distance(Index(current, a, n), j, n) < Distance(current, j, n)
  {
    IndexIs(current, a, n);
  }

  // ---- the scan, attempt by attempt ----

  /** The table after the first a attempts, were none of them to stop the scan. */
  function TableAt(ts: Table, current: int, idle: int, granted: nat -> bool, a: nat): (r: Table)
    requires ts != [] && -1 <= current < |ts|
    ensures |r| == |ts|
  {
    if a == 0 then ts
    else
      var i := Index(current, a - 1, |ts|);
      Try(TableAt(ts, current, idle, granted, a - 1), i, idle, granted(i)).0
  }

  /** Attempt a finds a task that may run. */
  predicate StopsAt(ts: Table, current: int, idle: int, granted: nat -> bool, a: nat)
    requires ts != [] && -1 <= current < |ts|
  {
    var i := Index(current, a, |ts|);
    Try(TableAt(ts, current, idle, granted, a), i, idle, granted(i)).1
  }

  /** The scan stops at the first attempt that may, and until then the table is as that attempt finds it. */
  lemma {:induction false} ScanAt(ts: Table, current: int, idle: int, granted: nat -> bool, a: nat)
    requires ts != [] && -1 <= current < |ts| && a <= |ts|
    requires forall b :: 0 <= b < a ==> !StopsAt(ts, current, idle, granted, b)
    ensures Scan(ts, current, idle, granted, 0) ==
            Scan(TableAt(ts, current, idle, granted, a), current, idle, granted, a)
    ensures a < |ts| && StopsAt(ts, current, idle, granted, a) ==>
              Scan(ts, current, idle, granted, 0) ==
              (TableAt(ts, current, idle, granted, a + 1), Index(current, a, |ts|))
    decreases a
  {
    hide Try, Index;
    if a > 0 {
      ScanAt(ts, current, idle, granted, a - 1);
      assert !StopsAt(ts, current, idle, granted, a - 1);
    }
  }

  /** No attempt before its own changes the state of a runnable task. */
  lemma {:induction false} UntilThen(ts: Table, current: int, idle: int, granted: nat -> bool, a: nat, j: nat)
    requires -1 <= current < |ts| && j < |ts| && Runnable(ts[j]) && a <= Distance(current, j, |ts|)
    ensures TableAt(ts, current, idle, granted, a)[j].state == ts[j].state
    decreases a
  {
    hide Try, Index, Distance;
    if a > 0 {
      UntilThen(ts, current, idle, granted, a - 1, j);
      Closer(current, a - 1, j, |ts|);
      var i := Index(current, a - 1, |ts|);
      TryKeeps(TableAt(ts, current, idle, granted, a - 1), i, idle, granted(i), j);
    }
  }

  /** The scan comes to task j, and j's own lowest signal then ends it. */
  ghost predicate EndedInScan(ts: Table, current: int, idle: int, granted: nat -> bool, j: nat)
    requires -1 <= current < |ts| && j < |ts|
  {
    var d := Distance(current, j, |ts|);
    && (forall b :: 0 <= b < d ==> !StopsAt(ts, current, idle, granted, b))
    && var t := TableAt(ts, current, idle, granted, d)[j]; NeedsSignal(t) && Doomed(t, granted(j))
  }

  /** The scan ends j as said, or stops at it, or stops at a task closer to j. */
  lemma ScanReaches(ts: Table, current: int, idle: int, granted: nat -> bool, j: nat)
    requires -1 <= current < |ts| && j < |ts| && j != idle && Runnable(ts[j])
    ensures var (us, i) := Scan(ts, current, idle, granted, 0);
            && (us[j].state == Zombie <==> EndedInScan(ts, current, idle, granted, j))
            && (EndedInScan(ts, current, idle, granted, j) || i == j ||
                (i >= 0 && i != idle && Runnable(us[j]) && Distance(i, j, |ts|) < Distance(current, j, |ts|)))
  {
    hide Try, Index, Distance, Scan, TableAt, StopsAt, Doomed, NeedsSignal;
    var d := Distance(current, j, |ts|);
    if forall b :: 0 <= b < d ==> !StopsAt(ts, current, idle, granted, b) {
      ScanTurn(ts, current, idle, granted, j);
    } else {
      var a := FirstStop(ts, current, idle, granted, d);
      ScanEarlier(ts, current, idle, granted, a, j);
    }
  }

  lemma FirstStop(ts: Table, current: int, idle: int, granted: nat -> bool, d: nat) returns (a: nat)
    requires ts != [] && -1 <= current < |ts| && exists b :: 0 <= b < d && StopsAt(ts, current, idle, granted, b)
    ensures a < d && StopsAt(ts, current, idle, granted, a)
    ensures forall b :: 0 <= b < a ==> !StopsAt(ts, current, idle, granted, b)
  {
    hide StopsAt;
    a := 0;
    while !StopsAt(ts, current, idle, granted, a)
      invariant a < d && forall b :: 0 <= b < a ==> !StopsAt(ts, current, idle, granted, b)
      decreases d - a
    {
      a := a + 1;
    }
  }

  lemma ScanEarlier(ts: Table, current: int, idle: int, granted: nat -> bool, a: nat, j: nat)
    requires -1 <= current < |ts| && j < |ts| && Runnable(ts[j]) && a < Distance(current, j, |ts|)
    requires StopsAt(ts, current, idle, granted, a)
    requires forall b :: 0 <= b < a ==> !StopsAt(ts, current, idle, granted, b)
    ensures var (us, i) := Scan(ts, current, idle, granted, 0);
            i >= 0 && i != idle && Runnable(us[j]) && Distance(i, j, |ts|) < Distance(current, j, |ts|)
  {
    hide Index, Distance, Scan, TableAt, Deliver;
    ScanAt(ts, current, idle, granted, a);
    UntilThen(ts, current, idle, granted, a + 1, j);
    Closer(current, a, j, |ts|);
  }

  lemma ScanTurn(ts: Table, current: int, idle: int, granted: nat -> bool, j: nat)
    requires -1 <= current < |ts| && j < |ts| && j != idle && Runnable(ts[j])
    requires forall b :: 0 <= b < Distance(current, j, |ts|) ==> !StopsAt(ts, current, idle, granted, b)
    ensures var (us, i) := Scan(ts, current, idle, granted, 0);
            && (us[j].state == Zombie <==> EndedInScan(ts, current, idle, granted, j))
            && (EndedInScan(ts, current, idle, granted, j) || i == j)
  {
    hide Index, Distance, Deliver, Doomed;
    var d := Distance(current, j, |ts|);
    ScanAt(ts, current, idle, granted, d);
    UntilThen(ts, current, idle, granted, d, j);
    Closer(current, d, j, |ts|);
    var us := TableAt(ts, current, idle, granted, d);
    DeliverExactly(us, j, granted(j));
    hide Scan, TableAt;
    if EndedInScan(ts, current, idle, granted, j) {
      TurnFails(us, current, idle, granted, d, j);
    }
  }

  lemma TurnFails(us: Table, current: int, idle: int, granted: nat -> bool, d: nat, j: nat)
    requires -1 <= current < |us| && j < |us| && j != idle && Runnable(us[j])
    requires d < |us| && Index(current, d, |us|) == j
    requires NeedsSignal(us[j]) && Doomed(us[j], granted(j))
    ensures Scan(us, current, idle, granted, d).0[j].state == Zombie
  {
    hide Index, Deliver, Doomed;
    DeliverExactly(us, j, granted(j));
    ScanKeepsZombie(Deliver(us, j, granted(j)).0, current, idle, granted, d + 1, j);
  }

  lemma TryKeeps(ts: Table, i: nat, idle: int, granted: bool, j: nat)
    requires i < |ts| && j < |ts|
    ensures var (us, ok) := Try(ts, i, idle, granted);
            && (i != j && Runnable(ts[j]) ==> us[j].state == ts[j].state)
            && (i == j && i != idle && Runnable(ts[j]) ==>
                  if ok then us[j].state == ts[j].state else us[j].state == Zombie)
            && (ts[j].state == Zombie ==> us[j].state == Zombie)
  {
    hide Deliver;
    if i != idle && Runnable(ts[i]) && NeedsSignal(ts[i]) {
      DeliverKeeps(ts, i, granted, j);
      if ts[j].state == Zombie {
        DeliverZombie(ts, i, granted, j);
      }
    }
  }

  lemma DeliverZombie(ts: Table, i: nat, granted: bool, j: nat)
    requires i < |ts| && j < |ts| && ts[j].state == Zombie && i != j
    ensures Deliver(ts, i, granted).0[j].state == Zombie
  {
    hide Judge, NextSignal, Find;
    var t := ts[i];
    var u := ts[i := t.(pending := t.pending - {NextSignal(t, 1)})];
    assert Orphaned(u, i)[j].state == Zombie;
  }

  lemma {:induction false} ScanKeepsZombie(ts: Table, current: int, idle: int, granted: nat -> bool, a: nat, j: nat)
    requires -1 <= current < |ts| && j < |ts| && ts[j].state == Zombie
    ensures Scan(ts, current, idle, granted, a).0[j].state == Zombie
    decreases |ts| - a
  {
    hide Try, Index;
    if a < |ts| {
      var i := Index(current, a, |ts|);
      TryKeeps(ts, i, idle, granted(i), j);
      if !Try(ts, i, idle, granted(i)).1 {
        ScanKeepsZombie(Try(ts, i, idle, granted(i)).0, current, idle, granted, a + 1, j);
      }
    }
  }

  /** The task the scan chooses may run. */
  lemma {:induction false} ScanRunnable(ts: Table, current: int, idle: int, granted: nat -> bool, a: nat)
    requires ts != [] && -1 <= current < |ts|
    ensures var (us, i) := Scan(ts, current, idle, granted, a); i >= 0 ==> Runnable(us[i])
    decreases |ts| - a
  {
    hide Index, Deliver;
    if a < |ts| {
      var i := Index(current, a, |ts|);
      TryKeeps(ts, i, idle, granted(i), i);
      ScanRunnable(Try(ts, i, idle, granted(i)).0, current, idle, granted, a + 1);
    }
  }

  /** The tick ends j by one of its own signals, dispatches it, or dispatches a task closer to it. */
  lemma TickReaches(ts: Table, current: int, idle: int, granted: nat -> bool, j: nat)
    requires -1 <= current < |ts| && j < |ts| && j != idle && Runnable(ts[j])
    ensures var (us, c) := Tick(ts, current, idle, granted);
            var ended := EndedInScan(Preempted(ts, current), current, idle, granted, j);
            && (us[j].state == Zombie <==> ended)
            && (ended || (c >= 0 && us[c].state == Running))
            && (ended || c == j || (c != idle && Runnable(us[j]) && Distance(c, j, |ts|) < Distance(current, j, |ts|)))
  {
    hide Scan, Distance, EndedInScan;
    ScanReaches(Preempted(ts, current), current, idle, granted, j);
    ScanRunnable(Preempted(ts, current), current, idle, granted, 0);
  }

  /**
   * The current index before tick k, when the table before each tick is tables[k]: between ticks anything may
   * change.
   */
  ghost function CurrentAt(tables: seq<Table>, grants: seq<nat -> bool>, idle: int, current: int, n: nat,
          k: nat): (c: int)
    requires k <= |tables| == |grants| && -1 <= current < n && forall t :: t in tables ==> |t| == n
    ensures -1 <= c < n
  {
    if k == 0 then current
    else Tick(tables[k - 1], CurrentAt(tables, grants, idle, current, n, k - 1), idle, grants[k - 1]).1
  }

  /** Tick k dispatches task j, or comes to it with its lowest deliverable signal fatal. */
  ghost predicate Served(tables: seq<Table>, grants: seq<nat -> bool>, idle: int, current: int, n: nat, j: nat, k: nat)
    requires k < |tables| == |grants| && -1 <= current < n && j < n && forall t :: t in tables ==> |t| == n
  {
    var current' := CurrentAt(tables, grants, idle, current, n, k);
    var c := Tick(tables[k], current', idle, grants[k]).1;
    c == j || EndedInScan(Preempted(tables[k], current'), current', idle, grants[k], j)
  }

  /** While j is not served its distance falls with every tick. */
  lemma {:induction false} DistanceFalls(tables: seq<Table>, grants: seq<nat -> bool>, idle: int, current: int,
          n: nat, j: nat, k: nat)
    requires k <= |tables| == |grants| && -1 <= current < n && j < n && j != idle
    requires forall t :: t in tables ==> |t| == n
    requires forall i :: 0 <= i < |tables| ==> Runnable(tables[i][j])
    requires forall i :: 0 <= i < k ==> !Served(tables, grants, idle, current, n, j, i)
    ensures Distance(CurrentAt(tables, grants, idle, current, n, k), j, n) + k <= Distance(current, j, n)
    decreases k
  {
    hide Distance, Tick, EndedInScan;
    if k > 0 {
      DistanceFalls(tables, grants, idle, current, n, j, k - 1);
      assert !Served(tables, grants, idle, current, n, j, k - 1);
      TickReaches(tables[k - 1], CurrentAt(tables, grants, idle, current, n, k - 1), idle, grants[k - 1], j);
    }
  }

  /** A non-idle task that is ready before each of n ticks, n the size of the table, is served in one of them. */
  lemma BoundedWaiting(tables: seq<Table>, grants: seq<nat -> bool>, idle: int, current: int, n: nat, j: nat)
    requires n <= |tables| == |grants| && -1 <= current < n && j < n && j != idle
    requires forall t :: t in tables ==> |t| == n
    requires forall i :: 0 <= i < |tables| ==> Runnable(tables[i][j])
    ensures exists k :: 0 <= k < n && Served(tables, grants, idle, current, n, j, k)
  {
    hide Distance, Tick, Served;
    if forall k :: 0 <= k < n ==> !Served(tables, grants, idle, current, n, j, k) {
      DistanceFalls(tables, grants, idle, current, n, j, n);
    }
  }
}
