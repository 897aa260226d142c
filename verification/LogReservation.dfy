/**
 Admission to the log in kernel/log.c: begin_op, log_write and end_op by any number of
 concurrent system calls, and the commit that runs when the last of them ends.

 Each step below is what one process does while it holds log.lock. An operation is active
 from begin_op to end_op; `ops` records how many new blocks each active one has added.
 */
module LogReservation {

  /** MAXOPBLOCKS, LOGSIZE and log.size, and how many new blocks a system call adds at most. */
  datatype Params = Params(maxop: nat, logsize: nat, size: nat, budget: nat)

  datatype LogState = LogState(blocks: seq<nat>, ops: seq<nat>, committing: bool)

  datatype Outcome = Next(state: LogState) | Wait | Panic

  datatype Action =
    | BeginOp
    | LogWrite(op: nat, block: nat)
    | EndOp(op: nat)
    | CommitDone

  const Initial := LogState([], [], false)

  /** The action is one a correct caller may take: a live operation that stays within its budget. */
  predicate Legal(p: Params, s: LogState, a: Action) {
    match a
    case BeginOp => true
    case LogWrite(i, b) => i < |s.ops| && (b in s.blocks || s.ops[i] < p.budget)
    case EndOp(i) => i < |s.ops|
    case CommitDone => s.committing
  }

  function Step(p: Params, s: LogState, a: Action): Outcome
    requires Legal(p, s, a)
  {
    match a
    case BeginOp =>
      if s.committing then Wait
      else if |s.blocks| + (|s.ops| + 1) * p.maxop > p.logsize then Wait
      else Next(s.(ops := s.ops + [0]))
    case LogWrite(i, b) =>
      if |s.blocks| >= p.logsize || |s.blocks| >= p.size - 1 then Panic
      else if b in s.blocks then Next(s)
      else Next(s.(blocks := s.blocks + [b], ops := s.ops[i := s.ops[i] + 1]))
    case EndOp(i) =>
      var rest := s.ops[..i] + s.ops[i + 1..];
      if s.committing then Panic
      else Next(s.(ops := rest, committing := rest == []))
    case CommitDone =>
      Next(s.(blocks := [], committing := false))
  }

  // Reachable states

  /** The state after the actions `acts`, each of which must be legal and succeed. */
  ghost function Exec(p: Params, acts: seq<Action>): Outcome {
    if acts == [] then Next(Initial)
    else
      match Exec(p, acts[..|acts| - 1])
      case Next(s) => if Legal(p, s, acts[|acts| - 1]) then Step(p, s, acts[|acts| - 1]) else Wait
      case other => other
  }

  ghost predicate Reachable(p: Params, s: LogState) {
    exists acts :: Exec(p, acts) == Next(s)
  }

  lemma ReachableStep(p: Params, s: LogState, a: Action, t: LogState)
    requires Reachable(p, s) && Legal(p, s, a) && Step(p, s, a) == Next(t)
    ensures Reachable(p, t)
  {
    var acts :| Exec(p, acts) == Next(s);
    assert (acts + [a])[..|acts|] == acts;
    assert Exec(p, acts + [a]) == Next(t);
  }

  // The invariant

  /** What the active operations may still add: the sum of maxop minus what each has used. */
  function Unused(p: Params, ops: seq<nat>): int {
    if ops == [] then 0 else Unused(p, ops[..|ops| - 1]) + p.maxop - ops[|ops| - 1]
  }

  ghost predicate Distinct(s: seq<nat>) {
    forall i, j | 0 <= i < j < |s| :: s[i] != s[j]
  }

  ghost predicate Inv(p: Params, s: LogState) {
    && (forall i | 0 <= i < |s.ops| :: s.ops[i] <= p.maxop && s.ops[i] <= p.budget)
    && |s.blocks| + Unused(p, s.ops) <= p.logsize
    && |s.blocks| < (if p.size == 0 then 1 else p.size)
    && (s.committing ==> s.ops == [])
    && Distinct(s.blocks)
  }

  lemma {:induction false} UnusedSplit(p: Params, a: seq<nat>, b: seq<nat>)
    ensures Unused(p, a + b) == Unused(p, a) + Unused(p, b)
  {
    if b == [] {
      assert a + b == a;
    } else {
      assert (a + b)[..|a + b| - 1] == a + b[..|b| - 1];
      UnusedSplit(p, a, b[..|b| - 1]);
    }
  }

  lemma UnusedAt(p: Params, ops: seq<nat>, i: nat)
    requires i < |ops|
    ensures Unused(p, ops) == Unused(p, ops[..i]) + p.maxop - ops[i] + Unused(p, ops[i + 1..])
  {
    assert ops == ops[..i] + ([ops[i]] + ops[i + 1..]);
    UnusedSplit(p, ops[..i], [ops[i]] + ops[i + 1..]);
    UnusedSplit(p, [ops[i]], ops[i + 1..]);
  }

  lemma UnusedIncrement(p: Params, ops: seq<nat>, i: nat)
    requires i < |ops|
    ensures Unused(p, ops[i := ops[i] + 1]) == Unused(p, ops) - 1
  {
    var more := ops[i := ops[i] + 1];
    UnusedAt(p, ops, i);
    UnusedAt(p, more, i);
    assert more[..i] == ops[..i] && more[i + 1..] == ops[i + 1..];
  }

  lemma {:induction false} UnusedNonNegative(p: Params, ops: seq<nat>)
    requires forall i | 0 <= i < |ops| :: ops[i] <= p.maxop
    ensures Unused(p, ops) >= 0
  {
    if ops != [] {
      UnusedNonNegative(p, ops[..|ops| - 1]);
    }
  }

  lemma {:induction false} UnusedBound(p: Params, ops: seq<nat>)
    requires forall i | 0 <= i < |ops| :: ops[i] <= p.maxop
    ensures Unused(p, ops) <= |ops| * p.maxop
  {
    if ops != [] {
      UnusedBound(p, ops[..|ops| - 1]);
    }
  }

  lemma LogWriteKeepsInv(p: Params, s: LogState, i: nat, b: nat)
    requires Inv(p, s) && i < |s.ops| && s.ops[i] < p.budget <= p.maxop && b !in s.blocks
    requires |s.blocks| < p.logsize && |s.blocks| < p.size - 1
    ensures Inv(p, s.(blocks := s.blocks + [b], ops := s.ops[i := s.ops[i] + 1]))
  {
    UnusedIncrement(p, s.ops, i);
  }

  lemma EndOpKeepsInv(p: Params, s: LogState, i: nat)
    requires Inv(p, s) && i < |s.ops|
    ensures Inv(p, s.(ops := s.ops[..i] + s.ops[i + 1..], committing := s.ops[..i] + s.ops[i + 1..] == []))
  {
    UnusedAt(p, s.ops, i);
    UnusedSplit(p, s.ops[..i], s.ops[i + 1..]);
  }

  lemma BeginOpKeepsInv(p: Params, s: LogState)
    requires Inv(p, s) && !s.committing && |s.blocks| + (|s.ops| + 1) * p.maxop <= p.logsize
    ensures Inv(p, s.(ops := s.ops + [0]))
  {
    UnusedSplit(p, s.ops, [0]);
    UnusedBound(p, s.ops);
    assert (|s.ops| + 1) * p.maxop == |s.ops| * p.maxop + p.maxop;
  }

  /** Each step keeps the reservation: logged blocks plus unused reservations fit in LOGSIZE. */
  lemma StepKeepsInv(p: Params, s: LogState, a: Action)
    requires p.budget <= p.maxop
    requires Inv(p, s) && Legal(p, s, a) && Step(p, s, a).Next?
    ensures Inv(p, Step(p, s, a).state)
  {
    match a
    case BeginOp => BeginOpKeepsInv(p, s);
    case LogWrite(i, b) =>
      if b !in s.blocks {
        LogWriteKeepsInv(p, s, i, b);
      }
    case EndOp(i) => EndOpKeepsInv(p, s, i);
    case CommitDone =>
  }

  lemma {:induction false} RunKeepsInv(p: Params, acts: seq<Action>)
    requires p.budget <= p.maxop && Exec(p, acts).Next?
    ensures Inv(p, Exec(p, acts).state)
  {
    if acts != [] {
      var prev := acts[..|acts| - 1];
      RunKeepsInv(p, prev);
      StepKeepsInv(p, Exec(p, prev).state, acts[|acts| - 1]);
    }
  }

  lemma ReachableInv(p: Params, s: LogState)
    requires p.budget <= p.maxop && Reachable(p, s)
    ensures Inv(p, s)
  {
    var acts :| Exec(p, acts) == Next(s);
    RunKeepsInv(p, acts);
  }

  /** Over every interleaving, the reservation holds and commit runs with no operation active. */
  lemma ReservationHolds(p: Params, s: LogState)
    requires p.budget <= p.maxop && Reachable(p, s)
    ensures |s.blocks| + Unused(p, s.ops) <= p.logsize
    ensures Unused(p, s.ops) >= 0
    ensures s.committing ==> s.ops == []
    ensures Distinct(s.blocks)
  {
    ReachableInv(p, s);
    UnusedNonNegative(p, s.ops);
  }

  /** end_op never finds a commit under way, so its panic is unreachable. */
  lemma EndOpNeverPanics(p: Params, s: LogState, i: nat)
    requires p.budget <= p.maxop && Reachable(p, s) && i < |s.ops|
    ensures Step(p, s, EndOp(i)).Next?
  {
    ReservationHolds(p, s);
  }

  // When log_write panics

  /** Every legal log_write of a block not yet in the log succeeds, in every reachable state. */
  ghost predicate NewBlocksFit(p: Params) {
    forall s, i, b | Reachable(p, s) && Legal(p, s, LogWrite(i, b)) && b !in s.blocks ::
      Step(p, s, LogWrite(i, b)) != Panic
  }

  /** Every legal log_write succeeds, in every reachable state. */
  ghost predicate NeverPanics(p: Params) {
    forall s, i, b | Reachable(p, s) && Legal(p, s, LogWrite(i, b)) ::
      Step(p, s, LogWrite(i, b)) != Panic
  }

  lemma SlackOfOne(p: Params, ops: seq<nat>, i: nat)
    requires i < |ops| && forall j | 0 <= j < |ops| :: ops[j] <= p.maxop
    ensures Unused(p, ops) >= p.maxop - ops[i]
  {
    UnusedAt(p, ops, i);
    UnusedNonNegative(p, ops[..i]);
    UnusedNonNegative(p, ops[i + 1..]);
  }

  /** With log.size > LOGSIZE, a log_write of a new block inside its operation's budget never panics. */
  lemma NewBlockFits(p: Params, s: LogState, i: nat, b: nat)
    requires p.budget <= p.maxop && p.size > p.logsize
    requires Reachable(p, s) && Legal(p, s, LogWrite(i, b)) && b !in s.blocks
    ensures Step(p, s, LogWrite(i, b)) != Panic
  {
    ReachableInv(p, s);
    SlackOfOne(p, s.ops, i);
  }

  /**
   With log.size > LOGSIZE a log_write panics only when the log holds LOGSIZE blocks. Then the
   block is one already logged, and every active operation has used its whole reservation.
   */
  lemma PanicMeansLogFull(p: Params, s: LogState, i: nat, b: nat)
    requires p.budget <= p.maxop && p.size > p.logsize
    requires Reachable(p, s) && Legal(p, s, LogWrite(i, b))
    ensures Step(p, s, LogWrite(i, b)) == Panic <==> |s.blocks| == p.logsize
    ensures |s.blocks| == p.logsize ==> b in s.blocks && forall j | 0 <= j < |s.ops| :: s.ops[j] == p.maxop
  {
    ReachableInv(p, s);
    UnusedNonNegative(p, s.ops);
    forall j | 0 <= j < |s.ops| ensures Unused(p, s.ops) >= p.maxop - s.ops[j] {
      SlackOfOne(p, s.ops, j);
    }
  }

  // How full the log can get

  /**
   The same parameters with the budget in place of the reservation: Unused then counts what operations may really
   add.
   */
  function Real(p: Params): Params {
    p.(maxop := p.budget)
  }

  /**
   The most blocks the log can hold, if its region is large enough: when two operations fit beside
   each other, whoever begins last finds at least one other active, so at least two reservations
   are not used up by more than the budget.
   */
  function Peak(p: Params): int {
    if p.logsize >= 2 * p.maxop then p.logsize - 2 * (p.maxop - p.budget) else p.budget
  }

  /** What is logged and what active operations may still log stays below the peak; an idle log is empty. */
  ghost predicate BelowPeak(p: Params, s: LogState) {
    && |s.blocks| + Unused(Real(p), s.ops) <= Peak(p)
    && (forall i | 0 <= i < |s.ops| :: s.ops[i] <= p.budget)
    && (s.ops == [] && !s.committing ==> s.blocks == [])
  }

  lemma Distributes(m: nat, a: nat, b: nat)
    ensures m * (a + b) == m * a + m * b
  {
  }

  lemma AtLeastTwice(m: nat, a: nat)
    requires m >= 2
    ensures m * a >= 2 * a
  {
    assert m * a == 2 * a + (m - 2) * a;
  }

  lemma ReservedBeyondBudget(m: nat, maxop: nat, budget: nat)
    requires 1 <= m && budget <= maxop
    ensures m * maxop == m * budget + m * (maxop - budget)
    ensures m >= 2 ==> m * (maxop - budget) >= 2 * (maxop - budget) && m * maxop >= 2 * maxop
    ensures m == 1 ==> m * maxop == maxop && m * budget == budget
  {
    Distributes(m, budget, maxop - budget);
    if m >= 2 {
      AtLeastTwice(m, maxop - budget);
      AtLeastTwice(m, maxop);
    }
  }

  lemma BeginOpBelowPeak(p: Params, s: LogState)
    requires p.budget <= p.maxop && BelowPeak(p, s) && !s.committing
    requires |s.blocks| + (|s.ops| + 1) * p.maxop <= p.logsize
    ensures BelowPeak(p, s.(ops := s.ops + [0]))
  {
    var m := |s.ops|;
    UnusedSplit(Real(p), s.ops, [0]);
    UnusedBound(Real(p), s.ops);
    ReservedBeyondBudget(m + 1, p.maxop, p.budget);
    assert (m + 1) * p.budget == m * p.budget + p.budget;
  }

  lemma StepBelowPeak(p: Params, s: LogState, a: Action)
    requires p.budget <= p.maxop && BelowPeak(p, s) && Legal(p, s, a) && Step(p, s, a).Next?
    ensures BelowPeak(p, Step(p, s, a).state)
  {
    match a
    case BeginOp => BeginOpBelowPeak(p, s);
    case LogWrite(i, b) =>
      if b !in s.blocks {
        UnusedIncrement(Real(p), s.ops, i);
      }
    case EndOp(i) =>
      UnusedAt(Real(p), s.ops, i);
      UnusedSplit(Real(p), s.ops[..i], s.ops[i + 1..]);
    case CommitDone =>
      UnusedNonNegative(Real(p), s.ops);
  }

  lemma {:induction false} RunBelowPeak(p: Params, acts: seq<Action>)
    requires p.budget <= p.maxop && Exec(p, acts).Next?
    ensures BelowPeak(p, Exec(p, acts).state)
  {
    if acts != [] {
      var prev := acts[..|acts| - 1];
      RunBelowPeak(p, prev);
      StepBelowPeak(p, Exec(p, prev).state, acts[|acts| - 1]);
    }
  }

  /** Over every interleaving the log holds at most Peak blocks, and fewer while an operation may still add one. */
  lemma PeakHolds(p: Params, s: LogState, i: nat)
    requires p.budget <= p.maxop && Reachable(p, s) && i < |s.ops|
    ensures |s.blocks| <= Peak(p) && s.ops[i] <= p.budget
    ensures s.ops[i] < p.budget ==> |s.blocks| < Peak(p)
  {
    var acts :| Exec(p, acts) == Next(s);
    RunBelowPeak(p, acts);
    SlackOfOne(Real(p), s.ops, i);
  }

  // A run that fills the log: one operation stays open while others come and go

  function Upto(n: nat): (r: seq<nat>)
    ensures |r| == n && forall i | 0 <= i < n :: r[i] == i
  {
    seq(n, i => i)
  }

  lemma UptoNext(n: nat)
    ensures Upto(n + 1) == Upto(n) + [n] && n !in Upto(n)
  {
  }

  lemma LogsOneMore(p: Params, n: nat, ops: seq<nat>, i: nat)
    requires n < p.logsize && n + 1 < p.size && i < |ops| && ops[i] < p.budget
    requires Reachable(p, LogState(Upto(n), ops, false))
    ensures Reachable(p, LogState(Upto(n + 1), ops[i := ops[i] + 1], false))
  {
    UptoNext(n);
    ReachableStep(p, LogState(Upto(n), ops, false), LogWrite(i, n), LogState(Upto(n + 1), ops[i := ops[i] + 1], false));
  }

  lemma BeginsAlone(p: Params)
    requires p.maxop <= p.logsize
    ensures Reachable(p, LogState(Upto(0), [0], false))
  {
    assert Exec(p, []) == Next(Initial);
    assert Upto(0) == [] && [] + [0] == [0];
    ReachableStep(p, Initial, BeginOp, LogState(Upto(0), [0], false));
  }

  lemma BeginsSecond(p: Params, n: nat)
    requires n + 2 * p.maxop <= p.logsize && Reachable(p, LogState(Upto(n), [0], false))
    ensures Reachable(p, LogState(Upto(n), [0, 0], false))
  {
    assert (1 + 1) * p.maxop == 2 * p.maxop;
    ReachableStep(p, LogState(Upto(n), [0], false), BeginOp, LogState(Upto(n), [0, 0], false));
  }

  /**
   While the first operation stays open and has added nothing, short ones fill the log up to two reservations
   from its end.
   */
  lemma {:induction false} FillBesideOne(p: Params, n: nat)
    requires 1 <= p.budget <= p.maxop && n + 2 * p.maxop <= p.logsize && (n == 0 || n < p.size)
    ensures Reachable(p, LogState(Upto(n), [0], false))
    decreases n
  {
    if n == 0 {
      BeginsAlone(p);
    } else {
      FillBesideOne(p, n - 1);
      BeginsSecond(p, n - 1);
      LogsOneMore(p, n - 1, [0, 0], 1);
      assert [0, 0][1 := 1] == [0, 1];
      EndsSecond(p, Upto(n));
    }
  }

  lemma EndsSecond(p: Params, blocks: seq<nat>)
    requires Reachable(p, LogState(blocks, [0, 1], false))
    ensures Reachable(p, LogState(blocks, [0], false))
  {
    assert [0, 1][..1] + [0, 1][2..] == [0];
    ReachableStep(p, LogState(blocks, [0, 1], false), EndOp(1), LogState(blocks, [0], false));
  }

  lemma FirstAdds(p: Params, n: nat, x: nat, y: nat)
    requires n < p.logsize && n + 1 < p.size && x < p.budget && Reachable(p, LogState(Upto(n), [x, y], false))
    ensures Reachable(p, LogState(Upto(n + 1), [x + 1, y], false))
  {
    LogsOneMore(p, n, [x, y], 0);
    assert [x, y][0 := x + 1] == [x + 1, y];
  }

  lemma SecondAdds(p: Params, n: nat, x: nat, y: nat)
    requires n < p.logsize && n + 1 < p.size && y < p.budget && Reachable(p, LogState(Upto(n), [x, y], false))
    ensures Reachable(p, LogState(Upto(n + 1), [x, y + 1], false))
  {
    LogsOneMore(p, n, [x, y], 1);
    assert [x, y][1 := y + 1] == [x, y + 1];
  }

  /** Then both of the last two use their budgets. */
  lemma {:induction false} FillByTwo(p: Params, x: nat, y: nat, n: nat)
    requires 1 <= p.budget <= p.maxop && 2 * p.maxop <= p.logsize && x <= p.budget && y <= p.budget
    requires n == p.logsize - 2 * p.maxop + x + y && (n == 0 || n < p.size)
    ensures Reachable(p, LogState(Upto(n), [x, y], false))
    decreases x + y
  {
    if x > 0 {
      FillByTwo(p, x - 1, y, n - 1);
      FirstAdds(p, n - 1, x - 1, y);
    } else if y > 0 {
      FillByTwo(p, x, y - 1, n - 1);
      SecondAdds(p, n - 1, x, y - 1);
    } else {
      FillBesideOne(p, n);
      BeginsSecond(p, n);
    }
  }

  lemma {:induction false} FillByOne(p: Params, x: nat)
    requires 1 <= p.budget <= p.maxop <= p.logsize && x <= p.budget && (x == 0 || x < p.size)
    ensures Reachable(p, LogState(Upto(x), [x], false))
    decreases x
  {
    if x == 0 {
      BeginsAlone(p);
    } else {
      FillByOne(p, x - 1);
      LogsOneMore(p, x - 1, [x - 1], 0);
      assert [x - 1][0 := x] == [x];
    }
  }

  /**
   Every number of blocks up to the peak is reached, in a state where the first operation may add another unless
   it is the peak.
   */
  lemma FillLog(p: Params, n: nat) returns (ops: seq<nat>)
    requires 1 <= p.budget <= p.maxop <= p.logsize && n <= Peak(p) && (n == 0 || n < p.size)
    ensures |ops| >= 1 && (n < Peak(p) ==> ops[0] < p.budget)
    ensures Reachable(p, LogState(Upto(n), ops, false))
  {
    if p.logsize < 2 * p.maxop {
      FillByOne(p, n);
      ops := [n];
    } else if n <= p.logsize - 2 * p.maxop {
      FillBesideOne(p, n);
      ops := [0];
    } else {
      var over := n - (p.logsize - 2 * p.maxop);
      var y := if over < p.budget then over else p.budget;
      FillByTwo(p, over - y, y, n);
      ops := [over - y, y];
    }
  }

  /**
   The size of the log region. For every budget, no log_write of a new block can panic if and only
   if the most the log can hold fits in a region of log.size blocks, one of which is the header.
   */
  lemma LogRegionCondition(p: Params)
    requires 1 <= p.budget <= p.maxop <= p.logsize
    ensures NewBlocksFit(p) <==> Peak(p) < p.size
  {
    if Peak(p) < p.size {
      forall s, i, b | Reachable(p, s) && Legal(p, s, LogWrite(i, b)) && b !in s.blocks
        ensures Step(p, s, LogWrite(i, b)) != Panic
      {
        PeakHolds(p, s, i);
      }
    } else {
      var n := if p.size == 0 then 0 else p.size - 1;
      var ops := FillLog(p, n);
      var s := LogState(Upto(n), ops, false);
      assert Legal(p, s, LogWrite(0, n)) && n !in s.blocks;
      assert Step(p, s, LogWrite(0, n)) == Panic;
    }
  }

  /**
   Absorption. log_write tests for a full log before it looks for the block, so logging a block
   again can panic too. For every budget, no log_write at all can panic if and only if the most
   the log can hold is less than what makes that test fail.
   */
  lemma AbsorptionCondition(p: Params)
    requires 1 <= p.budget <= p.maxop <= p.logsize
    ensures NeverPanics(p) <==> Peak(p) < p.logsize && Peak(p) < p.size - 1
  {
    if Peak(p) < p.logsize && Peak(p) < p.size - 1 {
      forall s, i, b | Reachable(p, s) && Legal(p, s, LogWrite(i, b))
        ensures Step(p, s, LogWrite(i, b)) != Panic
      {
        PeakHolds(p, s, i);
      }
    } else {
      var n := if p.size <= 1 then 0 else if p.logsize < p.size - 1 then p.logsize else p.size - 1;
      var ops := FillLog(p, n);
      var s := LogState(Upto(n), ops, false);
      assert n > 0 ==> s.blocks[0] == 0;
      assert Legal(p, s, LogWrite(0, 0));
      assert Step(p, s, LogWrite(0, 0)) == Panic;
    }
  }

  /**
   The images mkfs makes, where log.size is LOGSIZE, and LOGSIZE is 3 * MAXOPBLOCKS: the missing
   block does no harm exactly as long as no system call uses up its whole reservation.
   */
  lemma MkfsLogCondition(p: Params)
    requires 1 <= p.budget <= p.maxop && p.logsize == 3 * p.maxop && p.size == p.logsize
    ensures NeverPanics(p) <==> p.budget < p.maxop
    ensures NewBlocksFit(p) <==> p.budget < p.maxop
  {
    LogRegionCondition(p);
    AbsorptionCondition(p);
  }

  // How many operations are admitted

  lemma FewerReserve(a: nat, b: nat, maxop: nat)
    requires a <= b
    ensures a * maxop <= b * maxop
  {
  }

  /** Over every run, the reservations of the active operations alone fit the log. */
  lemma {:induction false} AdmittedFit(p: Params, acts: seq<Action>)
    requires Exec(p, acts).Next?
    ensures |Exec(p, acts).state.ops| * p.maxop <= p.logsize
    decreases |acts|
  {
    if acts != [] {
      AdmittedFit(p, acts[..|acts| - 1]);
      var s, t := Exec(p, acts[..|acts| - 1]).state, Exec(p, acts).state;
      if |t.ops| <= |s.ops| {
        FewerReserve(|t.ops|, |s.ops|, p.maxop);
      }
    }
  }

  ghost function Zeros(k: nat): seq<nat> {
    seq(k, _ => 0)
  }

  lemma {:induction false} AllBegin(p: Params, k: nat)
    requires k * p.maxop <= p.logsize
    ensures Reachable(p, LogState([], Zeros(k), false))
    decreases k
  {
    if k == 0 {
      assert Exec(p, []) == Next(Initial);
      assert Zeros(0) == [];
    } else {
      FewerReserve(k - 1, k, p.maxop);
      AllBegin(p, k - 1);
      assert Zeros(k) == Zeros(k - 1) + [0];
      ReachableStep(p, LogState([], Zeros(k - 1), false), BeginOp, LogState([], Zeros(k), false));
    }
  }

  /** begin_op lets in as many operations at once as have their reservations in the log, and no more. */
  lemma AdmissionCondition(p: Params, k: nat)
    ensures (exists s :: Reachable(p, s) && |s.ops| == k) <==> k * p.maxop <= p.logsize
  {
    forall s | Reachable(p, s) && |s.ops| == k ensures k * p.maxop <= p.logsize {
      var acts :| Exec(p, acts) == Next(s);
      AdmittedFit(p, acts);
    }
    if k * p.maxop <= p.logsize {
      AllBegin(p, k);
      assert |LogState([], Zeros(k), false).ops| == k;
    }
  }

  // The code

  /** What became of a call: it went through, it has to sleep on &log and retry, or it panicked. */
  datatype Status = Done | Sleep | Panicked

  class Log {
    const p: Params
    const block: array<nat>   // log.lh.block
    var n: nat                // log.lh.n
    var outstanding: nat
    var committing: bool
    ghost var ops: seq<nat>   // new blocks added so far by each active operation

    ghost function View(): LogState
      requires n <= block.Length
      reads this, block
    {
      LogState(block[..n], ops, committing)
    }

    ghost predicate Valid()
      reads this, block
    {
      && block.Length == p.logsize
      && n <= block.Length
      && outstanding == |ops|
    }

    constructor (params: Params)
      ensures Valid() && fresh(block) && p == params && View() == Initial
    {
      p := params;
      block := new nat[params.logsize];
      n := 0;
      outstanding := 0;
      committing := false;
      ops := [];
    }

    /** One turn of begin_op's loop: admit the operation, or find that it must sleep. */
    method Begin() returns (r: Status)
      requires Valid()
      modifies this`outstanding, this`ops
      ensures Valid()
      ensures r == match Step(p, old(View()), BeginOp) case Next(_) => Done case Wait => Sleep case Panic => Panicked
      ensures View() == if r == Done then Step(p, old(View()), BeginOp).state else old(View())
      ensures r == if !old(committing) && old(n) + (old(outstanding) + 1) * p.maxop <= p.logsize then Done else Sleep
      ensures outstanding == old(outstanding) + (if r == Done then 1 else 0)
    {
      if committing {
        r := Sleep;
      } else if n + (outstanding + 1) * p.maxop > p.logsize {
        r := Sleep;
      } else {
        outstanding := outstanding + 1;
        ops := ops + [0];
        r := Done;
      }
    }

    /** log_write by active operation `op`, if there is any: record the block number, absorbing a repeat. */
    method Write(blockno: nat, ghost op: nat) returns (r: Status)
      requires Valid()
      requires ops == [] || Legal(p, View(), LogWrite(op, blockno))
      modifies this`n, this`ops, block
      ensures Valid()
      ensures r == if old(ops) == [] || Step(p, old(View()), LogWrite(op, blockno)) == Panic then Panicked else Done
      ensures View() == if r == Done then Step(p, old(View()), LogWrite(op, blockno)).state else old(View())
      ensures r == if old(n) >= p.logsize || old(n) >= p.size - 1 || old(outstanding) < 1 then Panicked else Done
      ensures block[..n] == old(block[..n]) + (if r == Panicked || blockno in old(block[..n]) then [] else [blockno])
    {
      ghost var v := View();
      if n >= p.logsize || n >= p.size - 1 {
        return Panicked;
      }
      if outstanding < 1 {
        return Panicked;
      }
      var i := 0;
      while i < n
        invariant 0 <= i <= n
        invariant forall j | 0 <= j < i :: block[j] != blockno
      {
        if block[i] == blockno {
          break;
        }
        i := i + 1;
      }
      assert i < n ==> v.blocks[i] == blockno;
      block[i] := blockno;
      if i == n {
        n := n + 1;
        ops := ops[op := ops[op] + 1];
      }
      assert block[..n] == if blockno in v.blocks then v.blocks else v.blocks + [blockno];
      r := Done;
    }

    /** end_op up to the call of commit(); `commit` says whether this caller runs it. */
    method End(ghost op: nat) returns (r: Status, commit: bool)
      requires Valid() && op < |ops|
      modifies this`outstanding, this`committing, this`ops
      ensures Valid()
      ensures r == if Step(p, old(View()), EndOp(op)) == Panic then Panicked else Done
      ensures r == Done ==> View() == Step(p, old(View()), EndOp(op)).state && commit == committing
      ensures r == (if old(committing) then Panicked else Done) && outstanding == old(outstanding) - 1
      ensures commit <==> !old(committing) && old(outstanding) == 1
    {
      outstanding := outstanding - 1;
      ops := ops[..op] + ops[op + 1..];
      commit := false;
      if committing {
        return Panicked, false;
      }
      if outstanding == 0 {
        commit := true;
        committing := true;
      }
      r := Done;
    }

    /** The tail of end_op after commit(), which has set log.lh.n to 0. */
    method FinishCommit()
      requires Valid() && committing
      modifies this`n, this`committing
      ensures Valid()
      ensures View() == Step(p, old(View()), CommitDone).state
      ensures n == 0 && !committing && outstanding == old(outstanding)
    {
      n := 0;
      committing := false;
      assert block[..0] == [];
    }
  }
}
