// Congestion control fields of the PCB (sections 2, 3.1 and 3.2 of RFC 5681 as src/kernel/tcp.c does them).
module Congestion {
  import opened Basics
  import opened SeqArith

  const MSS: nat := 1460
  const TX_CAPACITY: nat := 8192
  const WINDOW_MAX: nat := 0xFFFF

  datatype Control = Control(cwnd: nat, ssthresh: nat, caBytes: nat, dupacks: u32, recovery: bool, recover: u32)

  const INITIAL := Control(3 * MSS, 65535, 0, 0, false, 0)

  /** Window growth on a new acknowledgement: slow start, or congestion avoidance by byte counting. */
  function Grow(cc: Control, bytes: nat): Control {
    if cc.cwnd < cc.ssthresh then
      cc.(cwnd := Min(cc.cwnd + Min(bytes, MSS), WINDOW_MAX))
    else if cc.caBytes + bytes >= cc.cwnd then
      cc.(caBytes := 0, cwnd := Min(cc.cwnd + MSS, WINDOW_MAX))
    else
      cc.(caBytes := cc.caBytes + bytes)
  }

  /** Deflation when a new acknowledgement ends fast recovery. */
  function ExitRecovery(cc: Control): Control {
    cc.(cwnd := cc.ssthresh, recovery := false, dupacks := 0, caBytes := 0)
  }

  /** A new acknowledgement in ESTABLISHED. */
  function OnNewAck(cc: Control, bytes: nat): Control {
    if cc.recovery then ExitRecovery(cc) else Grow(cc.(dupacks := 0), bytes)
  }

  /** A duplicate acknowledgement in ESTABLISHED. */
  function OnDupAck(cc: Control, flight: nat, sndNxt: u32): Control {
    var dup := Add32(cc.dupacks, 1);
    if cc.recovery then
      cc.(dupacks := dup, cwnd := Min(cc.cwnd + MSS, WINDOW_MAX))
    else if dup == 3 then
      var threshold := Max(flight / 2, 2 * MSS);
      Control(Min(threshold + 3 * MSS, WINDOW_MAX), threshold, 0, dup, true, sndNxt)
    else
      cc.(dupacks := dup)
  }

  /** A retransmission timeout with data outstanding; only the first of a row cuts the window. */
  function OnTimeout(cc: Control, flight: nat, first: bool): Control {
    var c := if cc.recovery then cc.(recovery := false, dupacks := 0) else cc;
    if first then c.(ssthresh := Max(flight / 2, 2 * MSS), cwnd := MSS, caBytes := 0) else c
  }

  /** What holds of the fields in every reachable state. */
  ghost predicate Sane(cc: Control) {
    && MSS <= cc.cwnd <= WINDOW_MAX
    && 2 * MSS <= cc.ssthresh <= 65535
    && cc.caBytes < cc.cwnd
  }

  // ---- whole runs ----

  datatype Event =
    | NewAck(bytes: nat)
    | DupAck(flight: nat, sndNxt: u32)
    | Timeout(flight: nat, first: bool)
    | FinWaitAck(bytes: nat)

  /** The amounts a connection can produce: at most a full transmit buffer and a FIN are in flight. */
  predicate Possible(e: Event) {
    match e
    case NewAck(bytes) => bytes <= TX_CAPACITY + 1
    case DupAck(flight, _) => flight <= TX_CAPACITY + 1
    case Timeout(flight, _) => flight <= TX_CAPACITY + 1
    case FinWaitAck(bytes) => bytes <= TX_CAPACITY + 1
  }

  function React(cc: Control, e: Event): Control {
    match e
    case NewAck(bytes) => OnNewAck(cc, bytes)
    case DupAck(flight, sndNxt) => OnDupAck(cc, flight, sndNxt)
    case Timeout(flight, first) => OnTimeout(cc, flight, first)
    case FinWaitAck(bytes) => Grow(cc, bytes)
  }

  /**
   * A run with its bookkeeping: `dups` counts duplicate ACKs without the 32-bit wrap, `counted` the bytes
   * acknowledged in congestion avoidance, `windows` the sum of the windows in force at each of the
   * `increases`, and `established` whether FIN_WAIT1 has acknowledged anything yet.
   */
  datatype Ledger = Ledger(cc: Control, dups: nat, counted: nat, windows: nat, increases: nat, established: bool)

  predicate Avoiding(l: Ledger, e: Event) {
    && (e.FinWaitAck? || (e.NewAck? && !l.cc.recovery))
    && l.cc.cwnd >= l.cc.ssthresh
  }

  predicate Increases(l: Ledger, e: Event) {
    Avoiding(l, e) && l.cc.caBytes + e.bytes >= l.cc.cwnd
  }

  function Next(l: Ledger, e: Event): Ledger {
    Ledger(React(l.cc, e),
           match e
           case NewAck(_) => 0
           case DupAck(_, _) => l.dups + 1
           case Timeout(_, _) => if l.cc.recovery then 0 else l.dups
           case FinWaitAck(_) => l.dups,
           if Avoiding(l, e) then l.counted + e.bytes else l.counted,
           if Increases(l, e) then l.windows + l.cc.cwnd else l.windows,
           if Increases(l, e) then l.increases + 1 else l.increases,
           l.established && !e.FinWaitAck?)
  }

  function RunEvents(l: Ledger, events: seq<Event>): Ledger
    decreases |events|
  {
    if events == [] then l else Next(RunEvents(l, events[..|events| - 1]), events[|events| - 1])
  }

  ghost predicate LedgerOk(l: Ledger) {
    && Sane(l.cc)
    && l.cc.dupacks == l.dups % MOD
    && (l.cc.recovery <==> l.dups >= 3)
    && (l.established && l.cc.recovery ==> l.cc.cwnd == Min(l.cc.ssthresh + l.dups * MSS, WINDOW_MAX))
    && l.counted >= l.windows + l.cc.caBytes
    && l.windows >= l.increases * MSS
  }

  lemma NextKeeps(l: Ledger, e: Event)
    requires LedgerOk(l) && Possible(e)
    ensures LedgerOk(Next(l, e))
  {}

  /**
   * Every reachable state, whatever the order of acknowledgements, duplicates and timeouts: the window and
   * threshold stay in range, fast recovery holds exactly from the third duplicate on, an ESTABLISHED
   * recovery window is the threshold plus one segment per duplicate, and k congestion-avoidance increases
   * cost at least k full windows of counted bytes.
   */
  lemma {:induction false} EventsKeep(events: seq<Event>)
    requires forall e :: e in events ==> Possible(e)
    ensures LedgerOk(RunEvents(Ledger(INITIAL, 0, 0, 0, 0, true), events))
  {
    if events != [] {
      var prefix := events[..|events| - 1];
      EventsKeep(prefix);
      NextKeeps(RunEvents(Ledger(INITIAL, 0, 0, 0, 0, true), prefix), events[|events| - 1]);
    }
  }

  // ---- how fast the window opens ----

  /** Acknowledgements of a full segment or more each, with no duplicate or timeout between them. */
  predicate FullAcks(events: seq<Event>) {
    forall i :: 0 <= i < |events| ==> events[i].NewAck? && MSS <= events[i].bytes <= TX_CAPACITY + 1
  }

  /** In slow start n such acknowledgements open the window by n segments, and reach the threshold exactly in time. */
  lemma {:induction false} SlowStart(l: Ledger, events: seq<Event>)
    requires LedgerOk(l) && !l.cc.recovery && l.cc.cwnd < l.cc.ssthresh && FullAcks(events)
    ensures var r := RunEvents(l, events);
            && LedgerOk(r) && !r.cc.recovery && r.cc.ssthresh == l.cc.ssthresh
            && (r.cc.cwnd >= l.cc.ssthresh <==> |events| * MSS >= l.cc.ssthresh - l.cc.cwnd)
            && ((|events| - 1) * MSS < l.cc.ssthresh - l.cc.cwnd ==>
                  r.cc.cwnd == Min(l.cc.cwnd + |events| * MSS, WINDOW_MAX))
  {
    if events != [] {
      var prefix, e := events[..|events| - 1], events[|events| - 1];
      SlowStart(l, prefix);
      NextKeeps(RunEvents(l, prefix), e);
    }
  }

  function Sum(events: seq<Event>): nat
    requires forall i :: 0 <= i < |events| ==> events[i].NewAck?
  {
    if events == [] then 0 else Sum(events[..|events| - 1]) + events[|events| - 1].bytes
  }

  /** In congestion avoidance the window opens by one segment exactly when a whole window has been acknowledged. */
  lemma {:induction false} Avoidance(l: Ledger, events: seq<Event>, last: Event)
    requires LedgerOk(l) && !l.cc.recovery && l.cc.cwnd >= l.cc.ssthresh
    requires (forall i :: 0 <= i < |events| ==> events[i].NewAck?) && last.NewAck?
    requires l.cc.caBytes + Sum(events) < l.cc.cwnd
    ensures var r := RunEvents(l, events);
            && r.cc == l.cc.(caBytes := l.cc.caBytes + Sum(events), dupacks := if events == [] then l.cc.dupacks else 0)
            && (l.cc.caBytes + Sum(events) + last.bytes >= l.cc.cwnd ==>
                  Next(r, last).cc.cwnd == Min(l.cc.cwnd + MSS, WINDOW_MAX) && Next(r, last).cc.caBytes == 0)
  {
    if events != [] {
      Avoidance(l, events[..|events| - 1], events[|events| - 1]);
    }
  }
}
