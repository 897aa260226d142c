/** The multi-level feedback queue scheduler of kernel/proc.c on the one CPU it is built for. */
module Mlfq {
  const NONE := -1

  datatype Status = Unused | Runnable | Running | Sleeping

  /** ran is timeRanInQueue, last is lastScheduled. */
  datatype P = P(st: Status, queue: int, entry: int, ran: int, last: int)

  /** How long a process may run in a queue before it is demoted. */
  function RunLimit(queue: int): int {
    if queue == 0 then 1 else if queue == 1 then 2 else if queue == 2 then 4 else if queue == 3 then 8 else 16
  }

  /** How long it may wait there before it is promoted. */
  function WaitLimit(queue: int): int {
    if queue == 1 then 40 else if queue == 2 then 30 else if queue == 3 then 25 else 20
  }

  function Demoted(x: P, ticks: int): P {
    if (x.st.Running? || x.st.Runnable?) && x.ran >= RunLimit(x.queue) && x.queue < 4
    then x.(queue := x.queue + 1, entry := ticks, ran := 0) else x
  }

  function Aged(x: P, ticks: int): P {
    if (x.st.Runnable? || x.st.Sleeping?) && x.queue != 0 && ticks - x.entry - x.ran >= WaitLimit(x.queue)
    then x.(queue := x.queue - 1, ran := 0, entry := ticks) else x
  }

  /** What a scheduler pass does to a process before it selects one. */
  function Passed(x: P, ticks: int): P {
    Aged(Demoted(x, ticks), ticks)
  }

  // The numbers: when exactly a pass moves a process

  /** Demotion: after 1, 2, 4 and 8 ticks of running in queues 0 to 3; y is what becomes of x. */
  predicate RunsOut(x: P, y: P, ticks: int) {
    if (x.st.Running? || x.st.Runnable?) && x.queue < 4 &&
       (|| (x.queue == 0 && x.ran >= 1) || (x.queue == 1 && x.ran >= 2) || (x.queue == 2 && x.ran >= 4)
        || (x.queue == 3 && x.ran >= 8) || (x.queue < 0 && x.ran >= 16))
    then y == P(x.st, x.queue + 1, ticks, 0, x.last)
    else y == x
  }

  /** Aging: after 40, 30, 25 and 20 ticks of waiting in queues 1 to 4. */
  predicate WaitsOut(x: P, y: P, ticks: int) {
    var wait := ticks - x.entry - x.ran;
    if (x.st.Runnable? || x.st.Sleeping?) && x.queue != 0 &&
       (|| (x.queue == 1 && wait >= 40) || (x.queue == 2 && wait >= 30) || (x.queue == 3 && wait >= 25)
        || (!(1 <= x.queue <= 3) && wait >= 20))
    then y == P(x.st, x.queue - 1, ticks, 0, x.last)
    else y == x
  }

  /**
    * A pass takes a process down exactly if it has run for 1, 2, 4 or 8 ticks in queues 0 to 3; otherwise up
    * exactly if it has waited for 40, 30, 25 or 20 ticks in queues 1 to 4; otherwise it stays as it is.
    */
  lemma PassMoves(x: P, ticks: int)
    requires 0 <= x.queue <= 4
    ensures var y, wait := Passed(x, ticks), ticks - x.entry - x.ran;
            var down := (x.st.Running? || x.st.Runnable?) &&
              (|| (x.queue == 0 && x.ran >= 1) || (x.queue == 1 && x.ran >= 2)
               || (x.queue == 2 && x.ran >= 4) || (x.queue == 3 && x.ran >= 8));
            var up := (x.st.Runnable? || x.st.Sleeping?) &&
              (|| (x.queue == 1 && wait >= 40) || (x.queue == 2 && wait >= 30)
               || (x.queue == 3 && wait >= 25) || (x.queue == 4 && wait >= 20));
            y == if down then P(x.st, x.queue + 1, ticks, 0, x.last)
                 else if up then P(x.st, x.queue - 1, ticks, 0, x.last)
                 else x
  {
  }

  // Aging: a waiting process gets to queue 0

  /** The sum of the wait limits from queue q down to queue 1. */
  function Limits(q: int): int {
    if q <= 0 then 0 else WaitLimit(q) + Limits(q - 1)
  }

  /**
    * A process that is not dispatched, after the passes at these ticks; statuses says how it waits before each of
    * them.
    */
  function Waits(x: P, times: seq<int>, statuses: seq<Status>): P
    requires |statuses| == |times|
    decreases |times|
  {
    if times == [] then x
    else Waits(Passed(x.(st := statuses[0]), times[0]), times[1..], statuses[1..])
  }

  predicate Waiting(st: Status) {
    st.Runnable? || st.Sleeping?
  }

  /** The passes come in order, the first no later than gap after start, and none more than gap after the one before. */
  predicate Spaced(start: int, times: seq<int>, gap: int)
    decreases |times|
  {
    times != [] ==> start <= times[0] <= start + gap && Spaced(times[0], times[1..], gap)
  }

  lemma PassedWaiting(x: P, t: int)
    requires Waiting(x.st) && 0 <= x.queue <= 4 && x.ran == 0 && x.entry <= t
    ensures var y := Passed(x, t);
            && y.ran == 0 && Waiting(y.st) && y.entry <= t
            && (if x.queue > 0 && t - x.entry >= WaitLimit(x.queue) then y.queue == x.queue - 1 && y.entry == t
                else y.queue == x.queue && y.entry == x.entry)
  {
  }

  lemma {:induction false} StaysAtTop(x: P, times: seq<int>, statuses: seq<Status>)
    requires |statuses| == |times| && x.queue == 0 && x.ran == 0
    requires forall i | 0 <= i < |times| :: Waiting(statuses[i])
    ensures Waits(x, times, statuses).queue == 0
    decreases |times|
  {
    if times != [] {
      var y := Passed(x.(st := statuses[0]), times[0]);
      assert y.queue == 0 && y.ran == 0;
      StaysAtTop(y, times[1..], statuses[1..]);
    }
  }

  /** The time aging can take from queue q, one gap between passes for each queue. */
  function Bound(q: nat, gap: int): (b: int)
    requires gap >= 0
    ensures q > 0 ==> b >= WaitLimit(q) + gap
    ensures b >= 0
  {
    if q == 0 then 0 else WaitLimit(q) + gap + Bound(q - 1, gap)
  }

  lemma {:induction false} BoundIs(q: nat, gap: int)
    requires gap >= 0
    ensures Bound(q, gap) == Limits(q) + q * gap
  {
    if q > 0 {
      BoundIs(q - 1, gap);
      assert q * gap == (q - 1) * gap + gap;
    }
  }

  /** start is the tick of the last pass that left the process where it is, or of its entry. */
  lemma {:induction false} AgingWithin(x: P, start: int, times: seq<int>, statuses: seq<Status>, gap: int)
    requires 0 <= x.queue <= 4 && x.ran == 0 && gap >= 0
    requires x.entry <= start && (x.queue > 0 ==> start <= x.entry + WaitLimit(x.queue))
    requires times != [] && |statuses| == |times| && Spaced(start, times, gap)
    requires forall i | 0 <= i < |times| :: Waiting(statuses[i])
    requires times[|times| - 1] + gap >= x.entry + Bound(x.queue, gap)
    ensures Waits(x, times, statuses).queue == 0
    decreases |times|
  {
    var t, y := times[0], Passed(x.(st := statuses[0]), times[0]);
    PassedWaiting(x.(st := statuses[0]), t);
    if y.queue == 0 {
      StaysAtTop(y, times[1..], statuses[1..]);
    } else {
      assert times[1..] != [] by {
        assert Bound(x.queue, gap) == WaitLimit(x.queue) + gap + Bound(x.queue - 1, gap);
        assert y.queue > 0 ==> Bound(y.queue, gap) >= WaitLimit(y.queue) + gap;
      }
      AgingWithin(y, t, times[1..], statuses[1..], gap);
    }
  }

  /**
    * The aging bound: a process that enters queue q at tick entry and from then on only waits is in
    * queue 0 no later than entry plus the wait limits of queues 1 .. q plus q times the largest gap
    * between passes: after the last pass up to that tick, which comes at most one gap before it.
    */
  lemma AgingBound(x: P, times: seq<int>, statuses: seq<Status>, gap: int)
    requires 0 <= x.queue <= 4 && x.ran == 0 && gap >= 0
    requires times != [] && |statuses| == |times| && Spaced(x.entry, times, gap)
    requires forall i | 0 <= i < |times| :: Waiting(statuses[i])
    requires DueBy(x.queue, gap, times[|times| - 1] + gap - x.entry)
    ensures Waits(x, times, statuses).queue == 0
  {
    LimitsAre(x.queue);
    BoundIs(x.queue, gap);
    AgingWithin(x, x.entry, times, statuses, gap);
  }

  /** Long enough to get from queue q to queue 0: 40, 70, 95 or 115 ticks, and a gap for each queue. */
  predicate DueBy(q: int, gap: int, elapsed: int) {
    && (q == 0 ==> elapsed >= 0) && (q == 1 ==> elapsed >= 40 + gap) && (q == 2 ==> elapsed >= 70 + 2 * gap)
    && (q == 3 ==> elapsed >= 95 + 3 * gap) && (q == 4 ==> elapsed >= 115 + 4 * gap)
  }

  lemma LimitsAre(q: int)
    requires 0 <= q <= 4
    ensures Limits(q) == if q == 0 then 0 else if q == 1 then 40 else if q == 2 then 70 else if q == 3 then 95 else 115
  {
    assert Limits(1) == WaitLimit(1) + Limits(0);
    assert Limits(2) == WaitLimit(2) + Limits(1);
    assert Limits(3) == WaitLimit(3) + Limits(2);
    assert Limits(4) == WaitLimit(4) + Limits(3);
  }

  /** Too soon for a process to leave queue q by waiting: fewer than 40, 30, 25 or 20 ticks. */
  predicate TooSoon(q: int, elapsed: int) {
    && (q == 1 ==> elapsed < 40) && (q == 2 ==> elapsed < 30) && (q == 3 ==> elapsed < 25) && (q == 4 ==> elapsed < 20)
  }

  /** The converse: as long as it has waited for fewer ticks than that, no pass has moved it. */
  lemma {:induction false} StaysUntilDue(x: P, times: seq<int>, statuses: seq<Status>)
    requires 0 <= x.queue <= 4 && x.ran == 0 && |statuses| == |times|
    requires forall i | 0 <= i < |times| :: Waiting(statuses[i]) && TooSoon(x.queue, times[i] - x.entry)
    ensures SameCharge(x, Waits(x, times, statuses))
    decreases |times|
  {
    if times != [] {
      var y := x.(st := statuses[0]);
      PassMoves(y, times[0]);
      StaysUntilDue(y, times[1..], statuses[1..]);
    }
  }

  // The run time recorded for a queue

  /** The table, the clock, the process the CPU is running, and whether a pass has been made since it last ran one. */
  datatype M = M(procs: seq<P>, ticks: int, cpu: int, passed: bool)

  datatype Action = Tick | Pass | Dispatch(i: int) | Yield | Sleep | Exit | Wakeup(i: int) | Create(i: int)

  predicate Slot(m: M, i: int) {
    0 <= i < |m.procs|
  }

  function PassedAll(procs: seq<P>, ticks: int): (r: seq<P>)
    ensures |r| == |procs|
  {
    seq(|procs|, i requires 0 <= i < |procs| => Passed(procs[i], ticks))
  }

  /** swtch to process i; queue 4 is served without recording when. */
  function Dispatched(m: M, i: int): M
    requires Slot(m, i)
  {
    var x := m.procs[i];
    m.(procs := m.procs[i := x.(st := Running, last := if x.queue < 4 then m.ticks else x.last)], cpu := i,
        passed := false)
  }

  function Yielded(x: P, ticks: int): P {
    x.(st := Runnable, ran := x.ran + (ticks - x.last))
  }

  /**
    * A step; an action that is not possible changes nothing. A process in queues 0 to 3 is
    * dispatched right after a pass; the round robin over queue 4 may go on without another.
    */
  function Next(m: M, a: Action): M {
    match a
    case Tick => m.(ticks := m.ticks + 1)
    case Pass => if m.cpu == NONE then m.(procs := PassedAll(m.procs, m.ticks), passed := true) else m
    case Dispatch(i) =>
      if m.cpu == NONE && Slot(m, i) && m.procs[i].st.Runnable? && (m.passed || m.procs[i].queue == 4)
      then Dispatched(m, i)
      else m
    case Yield =>
      if Slot(m, m.cpu) then m.(procs := m.procs[m.cpu := Yielded(m.procs[m.cpu], m.ticks)], cpu := NONE) else m
    case Sleep =>
      if Slot(m, m.cpu) then m.(procs := m.procs[m.cpu := m.procs[m.cpu].(st := Sleeping)], cpu := NONE) else m
    case Exit => if Slot(m, m.cpu) then m.(procs := m.procs[m.cpu := m.procs[m.cpu].(st := Unused)], cpu := NONE) else m
    case Wakeup(i) =>
      if Slot(m, i) && m.procs[i].st.Sleeping? then m.(procs := m.procs[i := m.procs[i].(st := Runnable)]) else m
    case Create(i) =>
      if Slot(m, i) && m.procs[i].st.Unused? then m.(procs := m.procs[i := P(Runnable, 0, m.ticks, 0, 0)]) else m
  }

  ghost predicate ProcOk(m: M, i: int) {
    Slot(m, i) ==>
      var x := m.procs[i];
      && 0 <= x.queue <= 4 && x.entry <= m.ticks && 0 <= x.ran && x.last <= m.ticks
      && (x.st.Running? <==> i == m.cpu)
      && (x.queue < 4 && !x.st.Unused? ==> x.ran <= m.ticks - x.entry)
      && (x.queue < 4 && x.st.Running? ==> x.entry + x.ran <= x.last)
      && (x.queue == 4 ==> x.last < x.entry)
  }

  /**
    * A process that has used up its queue's allowance ran until after its last dispatch, and is not dispatched
    * again before a pass.
    */
  ghost predicate LimitOk(m: M, i: int) {
    Slot(m, i) && m.procs[i].queue < 4 && m.procs[i].ran >= RunLimit(m.procs[i].queue) && !m.procs[i].st.Unused? ==>
      m.procs[i].st.Runnable? && !m.passed && m.procs[i].last < m.ticks
  }

  ghost predicate Inv(m: M) {
    && m.ticks >= 0 && (m.cpu == NONE || (Slot(m, m.cpu) && !m.passed))
    && (forall i :: ProcOk(m, i))
    && (forall i :: LimitOk(m, i))
  }

  lemma StepKeepsProc(m: M, a: Action, i: int)
    requires Inv(m)
    ensures ProcOk(Next(m, a), i)
  {
    assert ProcOk(m, m.cpu) && LimitOk(m, m.cpu);
    assert ProcOk(m, i) && LimitOk(m, i);
  }

  lemma StepKeepsLimit(m: M, a: Action, i: int)
    requires Inv(m)
    ensures LimitOk(Next(m, a), i)
  {
    assert ProcOk(m, m.cpu) && LimitOk(m, m.cpu);
    assert ProcOk(m, i) && LimitOk(m, i);
  }

  lemma StepKeepsInv(m: M, a: Action)
    requires Inv(m)
    ensures Inv(Next(m, a))
  {
    var n := Next(m, a);
    forall i ensures ProcOk(n, i) {
      StepKeepsProc(m, a, i);
    }
    forall i ensures LimitOk(n, i) {
      StepKeepsLimit(m, a, i);
    }
  }

  function Start(n: nat): M {
    M(seq(n, _ => P(Unused, 0, 0, 0, 0)), 0, NONE, false)
  }

  ghost function Run(n: nat, acts: seq<Action>): (m: M)
    ensures Inv(m)
  {
    if acts == [] then
      var m := Start(n);
      assert (forall i :: ProcOk(m, i)) && forall i :: LimitOk(m, i);
      m
    else
      var m := Run(n, acts[..|acts| - 1]);
      StepKeepsInv(m, acts[|acts| - 1]);
      Next(m, acts[|acts| - 1])
  }

  /** Over every run, a process in queues 0 to 3 is never charged with more run time than it has been in its queue. */
  lemma RanAtMostInQueue(n: nat, acts: seq<Action>, i: int)
    ensures var m := Run(n, acts);
            Slot(m, i) && !m.procs[i].st.Unused? && m.procs[i].queue < 4 ==>
              0 <= m.procs[i].ran <= m.ticks - m.procs[i].entry
  {
    assert ProcOk(Run(n, acts), i);
  }

  // The aging bound in runs

  /** The machine after some more steps. */
  function After(m: M, acts: seq<Action>): M
    decreases |acts|
  {
    if acts == [] then m else After(Next(m, acts[0]), acts[1..])
  }

  predicate Passes(m: M, a: Action) {
    a.Pass? && m.cpu == NONE
  }

  /** The ticks at which these steps include a scheduler pass. */
  function PassTimes(m: M, acts: seq<Action>): seq<int>
    decreases |acts|
  {
    if acts == [] then []
    else (if Passes(m, acts[0]) then [m.ticks] else []) + PassTimes(Next(m, acts[0]), acts[1..])
  }

  /** How process i was waiting at each of those passes. */
  function PassStatuses(m: M, acts: seq<Action>, i: int): (r: seq<Status>)
    requires Slot(m, i)
    ensures |r| == |PassTimes(m, acts)|
    decreases |acts|
  {
    if acts == [] then []
    else (if Passes(m, acts[0]) then [m.procs[i].st] else []) + PassStatuses(Next(m, acts[0]), acts[1..], i)
  }

  predicate SameCharge(x: P, y: P) {
    x.queue == y.queue && x.entry == y.entry && x.ran == y.ran
  }

  lemma {:induction false} WaitsAlike(x: P, y: P, times: seq<int>, statuses: seq<Status>)
    requires |statuses| == |times| && SameCharge(x, y)
    ensures SameCharge(Waits(x, times, statuses), Waits(y, times, statuses))
    decreases |times|
  {
    if times != [] {
      WaitsAlike(Passed(x.(st := statuses[0]), times[0]), Passed(y.(st := statuses[0]), times[0]), times[1..],
          statuses[1..]);
    }
  }

  lemma WaiterStep(m: M, a: Action, i: int)
    requires Slot(m, i) && i != m.cpu && Waiting(m.procs[i].st) && a != Dispatch(i)
    ensures var n := Next(m, a);
            && Slot(n, i) && i != n.cpu && Waiting(n.procs[i].st)
            && (if Passes(m, a) then n.procs[i] == Passed(m.procs[i], m.ticks) else SameCharge(m.procs[i], n.procs[i]))
  {
  }

  /** While process i is waiting and not dispatched, passes are all that happens to it. */
  lemma {:induction false} OnlyPassesMatter(m: M, acts: seq<Action>, i: int)
    requires Slot(m, i) && i != m.cpu && Waiting(m.procs[i].st)
    requires forall k | 0 <= k < |acts| :: acts[k] != Dispatch(i)
    ensures var times, statuses := PassTimes(m, acts), PassStatuses(m, acts, i);
            && Slot(After(m, acts), i) && SameCharge(After(m, acts).procs[i], Waits(m.procs[i], times, statuses))
            && forall k | 0 <= k < |times| :: Waiting(statuses[k])
    decreases |acts|
  {
    if acts != [] {
      var n, rest := Next(m, acts[0]), acts[1..];
      WaiterStep(m, acts[0], i);
      OnlyPassesMatter(n, rest, i);
      var times, statuses := PassTimes(n, rest), PassStatuses(n, rest, i);
      if Passes(m, acts[0]) {
        assert ([m.ticks] + times)[1..] == times && ([m.procs[i].st] + statuses)[1..] == statuses;
        assert m.procs[i].(st := m.procs[i].st) == m.procs[i];
      } else {
        assert [] + times == times && [] + statuses == statuses;
        WaitsAlike(m.procs[i], n.procs[i], times, statuses);
      }
    }
  }

  /**
    * The aging bound over every run of the machine: take a waiting process that has just entered its
    * queue; if the steps that follow do not dispatch it and their passes come at most gap ticks apart,
    * it is in queue 0 once the next pass is due no earlier than the bound.
    */
  lemma AgingInRuns(n: nat, before: seq<Action>, acts: seq<Action>, i: int, gap: int)
    requires var m := Run(n, before);
             Slot(m, i) && i != m.cpu && Waiting(m.procs[i].st) && m.procs[i].ran == 0 && m.procs[i].entry == m.ticks
    requires gap >= 0 && forall k | 0 <= k < |acts| :: acts[k] != Dispatch(i)
    requires var m, times := Run(n, before), PassTimes(Run(n, before), acts);
             && times != [] && Spaced(m.ticks, times, gap)
             && DueBy(m.procs[i].queue, gap, times[|times| - 1] + gap - m.ticks)
    ensures var m := After(Run(n, before), acts); Slot(m, i) && m.procs[i].queue == 0
  {
    var m := Run(n, before);
    assert ProcOk(m, i);
    OnlyPassesMatter(m, acts, i);
    AgingBound(m.procs[i], PassTimes(m, acts), PassStatuses(m, acts, i), gap);
  }

  lemma {:induction false} PassesInTime(m: M, acts: seq<Action>)
    ensures m.ticks <= After(m, acts).ticks
    ensures forall k | 0 <= k < |PassTimes(m, acts)| :: m.ticks <= PassTimes(m, acts)[k] <= After(m, acts).ticks
    decreases |acts|
  {
    if acts != [] {
      PassesInTime(Next(m, acts[0]), acts[1..]);
    }
  }

  /**
    * And over every run it is still in its queue, with the entry time it had, as long as it has not been
    * dispatched and has been there for fewer than 40, 30, 25 or 20 ticks.
    */
  lemma {:induction false} AgingNotBefore(n: nat, before: seq<Action>, acts: seq<Action>, i: int)
    requires var m := Run(n, before);
             Slot(m, i) && i != m.cpu && Waiting(m.procs[i].st) && m.procs[i].ran == 0 && m.procs[i].entry == m.ticks
    requires forall k | 0 <= k < |acts| :: acts[k] != Dispatch(i)
    requires var m := Run(n, before); TooSoon(m.procs[i].queue, After(m, acts).ticks - m.ticks)
    ensures var m, r := Run(n, before), After(Run(n, before), acts);
            Slot(r, i) && r.procs[i].queue == m.procs[i].queue && r.procs[i].entry == m.ticks
  {
    var m := Run(n, before);
    assert ProcOk(m, i);
    OnlyPassesMatter(m, acts, i);
    PassesInTime(m, acts);
    StaysUntilDue(m.procs[i], PassTimes(m, acts), PassStatuses(m, acts, i));
  }

  /**
    * What a turn is charged with, over every run. In queues 0 to 3 the charge stays within the time
    * since the process entered its queue. In queue 4 it never does: the turn is charged from the
    * last dispatch out of a lower queue, which came before the process entered queue 4.
    */
  lemma ChargeCondition(n: nat, acts: seq<Action>)
    ensures var m := Run(n, acts);
            Slot(m, m.cpu) ==>
              var x, y := m.procs[m.cpu], Next(m, Yield).procs[m.cpu];
              y.ran <= m.ticks - y.entry <==> x.queue < 4
  {
    var m := Run(n, acts);
    assert ProcOk(m, m.cpu);
  }

  ghost predicate Reachable(m: M) {
    exists acts :: Run(1, acts) == m
  }

  lemma ReachStep(m: M, a: Action)
    requires Reachable(m)
    ensures Reachable(Next(m, a))
  {
    var acts :| Run(1, acts) == m;
    assert (acts + [a])[..|acts|] == acts;
    assert Run(1, acts + [a]) == Next(m, a);
  }

  lemma {:induction false} ReachTicks(m: M, k: nat)
    requires Reachable(m)
    ensures Reachable(m.(ticks := m.ticks + k))
    decreases k
  {
    if k == 0 {
      assert m.(ticks := m.ticks + 0) == m;
    } else {
      ReachTicks(m, k - 1);
      ReachStep(m.(ticks := m.ticks + (k - 1)), Tick);
    }
  }

  function Alone(queue: int, entry: int, last: int, ticks: int): M {
    M([P(Runnable, queue, entry, 0, last)], ticks, NONE, true)
  }

  /** A process by itself that runs for as long as its queue allows drops one queue. */
  lemma UsesTurn(queue: int, entry: int, last: int, ticks: int)
    requires Reachable(Alone(queue, entry, last, ticks)) && 0 <= queue < 4
    ensures Reachable(M([P(Runnable, queue, entry, RunLimit(queue), ticks)], ticks + RunLimit(queue), NONE, false))
  {
    var m, t := Alone(queue, entry, last, ticks), ticks + RunLimit(queue);
    ReachStep(m, Dispatch(0));
    var r := M([P(Running, queue, entry, 0, ticks)], ticks, 0, false);
    assert Next(m, Dispatch(0)) == r;
    ReachTicks(r, RunLimit(queue));
    ReachStep(r.(ticks := t), Yield);
  }

  lemma Drops(queue: int, entry: int, last: int, ticks: int)
    requires Reachable(Alone(queue, entry, last, ticks)) && 0 <= queue < 4
    ensures var t := ticks + RunLimit(queue); Reachable(Alone(queue + 1, t, ticks, t))
  {
    UsesTurn(queue, entry, last, ticks);
    var t := ticks + RunLimit(queue);
    var y := M([P(Runnable, queue, entry, RunLimit(queue), ticks)], t, NONE, false);
    ReachStep(y, Pass);
    assert PassedAll(y.procs, t) == [P(Runnable, queue + 1, t, 0, ticks)];
    assert Next(y, Pass) == Alone(queue + 1, t, ticks, t);
  }

  lemma BeginsAlone()
    ensures Reachable(Alone(0, 0, 0, 0))
  {
    assert Run(1, []) == Start(1);
    ReachStep(Start(1), Create(0));
    var c := M([P(Runnable, 0, 0, 0, 0)], 0, NONE, false);
    assert Next(Start(1), Create(0)) == c;
    ReachStep(c, Pass);
    assert PassedAll(c.procs, 0) == c.procs;
  }

  /** A process by itself gets to queue 4 at tick 15, last dispatched at tick 7. */
  lemma DropsToQueue4()
    ensures Reachable(Alone(4, 15, 7, 15))
  {
    BeginsAlone();
    Drops(0, 0, 0, 0);
    Drops(1, 1, 0, 1);
    Drops(2, 3, 1, 3);
    Drops(3, 7, 3, 7);
  }

  /** So there is a run in which a process in queue 4 is charged with more time than it has been there. */
  lemma Queue4Overcharged()
    ensures Reachable(M([P(Runnable, 4, 15, 8, 7)], 15, NONE, false))
  {
    DropsToQueue4();
    var m := Alone(4, 15, 7, 15);
    ReachStep(m, Dispatch(0));
    var r := M([P(Running, 4, 15, 0, 7)], 15, 0, false);
    assert Next(m, Dispatch(0)) == r;
    ReachStep(r, Yield);
  }

  // A scheduler pass

  /** a goes before b: a lower queue, or the same queue and an earlier entry. */
  predicate Before(a: P, b: P) {
    a.queue < b.queue || (a.queue == b.queue && a.entry < b.entry)
  }

  predicate Candidate(x: P) {
    x.st.Runnable? && x.queue < 4
  }

  class Scheduler {
    var procs: seq<P>
    var ticks: int

    constructor (procs: seq<P>, ticks: int)
      ensures this.procs == procs && this.ticks == ticks
    {
      this.procs, this.ticks := procs, ticks;
    }

    /** The loop that demotes. */
    method Demote()
      modifies this`procs
      ensures |procs| == |old(procs)| && forall i | 0 <= i < |procs| :: procs[i] == Demoted(old(procs)[i], ticks)
      ensures forall i | 0 <= i < |procs| :: RunsOut(old(procs)[i], procs[i], ticks)
    {
      var i := 0;
      while i < |procs|
        invariant 0 <= i <= |procs| == |old(procs)|
        invariant forall j | 0 <= j < |procs| ::
                    procs[j] == if j < i then Demoted(old(procs)[j], ticks) else old(procs)[j]
      {
        var x := procs[i];
        if x.st.Running? || x.st.Runnable? {
          var limit := RunLimit(x.queue);
          if x.ran >= limit && x.queue < 4 {
            procs := procs[i := x.(queue := x.queue + 1, entry := ticks, ran := 0)];
          }
        }
        i := i + 1;
      }
    }

    /** age. */
    method Age()
      modifies this`procs
      ensures |procs| == |old(procs)| && forall i | 0 <= i < |procs| :: procs[i] == Aged(old(procs)[i], ticks)
      ensures forall i | 0 <= i < |procs| :: WaitsOut(old(procs)[i], procs[i], ticks)
    {
      var i := 0;
      while i < |procs|
        invariant 0 <= i <= |procs| == |old(procs)|
        invariant forall j | 0 <= j < |procs| :: procs[j] == if j < i then Aged(old(procs)[j], ticks) else old(procs)[j]
      {
        var x := procs[i];
        if x.st.Runnable? || x.st.Sleeping? {
          if x.queue != 0 {
            var waitTime := ticks - x.entry - x.ran;
            if waitTime >= WaitLimit(x.queue) {
              procs := procs[i := x.(queue := x.queue - 1, ran := 0, entry := ticks)];
            }
          }
        }
        i := i + 1;
      }
    }

    /** The scan of one queue: its earliest entry, the first of those with the same. */
    method ScanQueue(queue: int) returns (r: int)
      ensures r == NONE <==> forall i | 0 <= i < |procs| :: !(procs[i].st.Runnable? && procs[i].queue == queue)
      ensures r != NONE ==> 0 <= r < |procs| && procs[r].st.Runnable? && procs[r].queue == queue
      ensures r != NONE ==> forall i | 0 <= i < |procs| && procs[i].st.Runnable? && procs[i].queue == queue ::
                              procs[r].entry < procs[i].entry || (procs[r].entry == procs[i].entry && r <= i)
    {
      r := NONE;
      var i := 0;
      while i < |procs|
        invariant 0 <= i <= |procs|
        invariant r == NONE <==> forall j | 0 <= j < i :: !(procs[j].st.Runnable? && procs[j].queue == queue)
        invariant r != NONE ==> 0 <= r < i && procs[r].st.Runnable? && procs[r].queue == queue
        invariant r != NONE ==> forall j | 0 <= j < i && procs[j].st.Runnable? && procs[j].queue == queue ::
                                  procs[r].entry < procs[j].entry || (procs[r].entry == procs[j].entry && r <= j)
      {
        if procs[i].st.Runnable? && procs[i].queue == queue {
          if r == NONE {
            r := i;
          } else if procs[i].entry < procs[r].entry {
            r := i;
          }
        }
        i := i + 1;
      }
    }

    /**
      * The choice among queues 0 to 3: nobody is chosen only if no runnable process is in them;
      * otherwise the one that goes before all others, the first in the table if several do.
      */
    method Select() returns (r: int)
      requires forall i | 0 <= i < |procs| :: procs[i].queue >= 0
      ensures r == NONE <==> forall i | 0 <= i < |procs| :: !Candidate(procs[i])
      ensures r != NONE ==> 0 <= r < |procs| && Candidate(procs[r])
      ensures r != NONE ==> forall i | 0 <= i < |procs| && Candidate(procs[i]) ::
                              Before(procs[r], procs[i]) || (!Before(procs[i], procs[r]) && r <= i)
    {
      r := ScanQueue(0);
      if r == NONE {
        r := ScanQueue(1);
      }
      if r == NONE {
        r := ScanQueue(2);
      }
      if r == NONE {
        r := ScanQueue(3);
      }
    }

    /** One scheduler pass, up to the switch. */
    method SchedulerPass() returns (r: int)
      requires forall i | 0 <= i < |procs| :: 0 <= procs[i].queue <= 4
      modifies this`procs
      ensures procs == PassedAll(old(procs), ticks)
      ensures r == NONE <==> forall i | 0 <= i < |procs| :: !Candidate(procs[i])
      ensures r != NONE ==> 0 <= r < |procs| && Candidate(procs[r])
      ensures r != NONE ==> forall i | 0 <= i < |procs| && Candidate(procs[i]) ::
                              Before(procs[r], procs[i]) || (!Before(procs[i], procs[r]) && r <= i)
    {
      Demote();
      Age();
      r := Select();
    }
  }
}
