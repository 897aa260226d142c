/**
  * Parents and children in the process table of kernel/proc.c: fork, exit, reparent and wait. The
  * steps are the stretches that the locks make atomic; between them any other process may run.
  */
module ProcessTree {
  const NONE := -1
  const INIT := 0

  /** Live stands for RUNNABLE, RUNNING and SLEEPING. */
  datatype Status = Unused | Used | Live | Zombie

  /** fork is the slot of the child a process is in the middle of creating. */
  datatype P = P(st: Status, pid: int, parent: int, xstate: int, fork: int)

  /** exited records the status each process passed to exit, reaped those that wait has returned. */
  datatype K = K(procs: seq<P>, nextpid: int, exited: map<int, int>, reaped: set<int>)

  datatype Action = ForkAlloc(p: int) | ForkFail(p: int) | ForkLink(p: int) | ForkRun(p: int)
      | Exit(p: int, status: int) | Wait(p: int)

  function Blank(): P {
    P(Unused, 0, NONE, 0, NONE)
  }

  predicate Slot(k: K, i: int) {
    0 <= i < |k.procs|
  }

  /** p is running and not inside fork. */
  predicate Able(k: K, p: int) {
    Slot(k, p) && k.procs[p].st.Live? && k.procs[p].fork == NONE
  }

  predicate Forking(k: K, p: int) {
    Slot(k, p) && k.procs[p].st.Live? && Slot(k, k.procs[p].fork) && k.procs[p].fork != p
  }

  /** The first unused slot from i on, or the end of the table. */
  function FirstUnused(procs: seq<P>, i: nat): (r: nat)
    requires i <= |procs|
    ensures i <= r <= |procs| && (r < |procs| ==> procs[r].st.Unused?) && forall j | i <= j < r :: !procs[j].st.Unused?
    decreases |procs| - i
  {
    if i == |procs| || procs[i].st.Unused? then i else FirstUnused(procs, i + 1)
  }

  /** The first zombie child of p from i on, or the end of the table. */
  function FirstZombie(procs: seq<P>, p: int, i: nat): (r: nat)
    requires i <= |procs|
    ensures i <= r <= |procs| && (r < |procs| ==> procs[r].st.Zombie? && procs[r].parent == p)
    ensures forall j | i <= j < r :: !(procs[j].st.Zombie? && procs[j].parent == p)
    decreases |procs| - i
  {
    if i == |procs| || (procs[i].st.Zombie? && procs[i].parent == p) then i else FirstZombie(procs, p, i + 1)
  }

  function Alloc(k: K, p: int): K
    requires Able(k, p) && FirstUnused(k.procs, 0) < |k.procs|
  {
    var i := FirstUnused(k.procs, 0);
    k.(procs := k.procs[i := P(Used, k.nextpid, NONE, 0, NONE)][p := k.procs[p].(fork := i)], nextpid := k.nextpid + 1)
  }

  /** freeproc of the child. */
  function Fail(k: K, p: int): K
    requires Forking(k, p)
  {
    k.(procs := k.procs[k.procs[p].fork := Blank()][p := k.procs[p].(fork := NONE)])
  }

  function Link(k: K, p: int): K
    requires Forking(k, p)
  {
    var i := k.procs[p].fork;
    k.(procs := k.procs[i := k.procs[i].(parent := p)])
  }

  function Launch(k: K, p: int): K
    requires Forking(k, p)
  {
    var i := k.procs[p].fork;
    k.(procs := k.procs[i := k.procs[i].(st := Live)][p := k.procs[p].(fork := NONE)])
  }

  /** p's children become init's. */
  function Reparented(procs: seq<P>, p: int): (r: seq<P>)
    ensures |r| == |procs|
  {
    seq(|procs|, i requires 0 <= i < |procs| => if procs[i].parent == p then procs[i].(parent := INIT) else procs[i])
  }

  function Exited(k: K, p: int, status: int): K
    requires Able(k, p)
  {
    var procs := Reparented(k.procs, p);
    k.(procs := procs[p := procs[p].(st := Zombie, xstate := status)], exited := k.exited[k.procs[p].pid := status])
  }

  function Reaped(k: K, i: int): K
    requires Slot(k, i)
  {
    k.(procs := k.procs[i := Blank()], reaped := k.reaped + {k.procs[i].pid})
  }

  /** A step; an action that is not possible changes nothing. */
  function Next(k: K, a: Action): K {
    var p := a.p;
    match a
    case ForkAlloc(_) => if Able(k, p) && FirstUnused(k.procs, 0) < |k.procs| then Alloc(k, p) else k
    case ForkFail(_) => if Forking(k, p) && k.procs[k.procs[p].fork].parent == NONE then Fail(k, p) else k
    case ForkLink(_) => if Forking(k, p) then Link(k, p) else k
    case ForkRun(_) => if Forking(k, p) && k.procs[k.procs[p].fork].parent == p then Launch(k, p) else k
    case Exit(_, status) => if Able(k, p) && p != INIT then Exited(k, p, status) else k
    case Wait(_) =>
      if Able(k, p) && FirstZombie(k.procs, p, 0) < |k.procs| then Reaped(k, FirstZombie(k.procs, p, 0)) else k
  }

  // The invariant

  /** A finished process has a live parent with a smaller pid. */
  ghost predicate ParentOk(k: K, i: int) {
    Slot(k, i) && i != INIT && (k.procs[i].st.Live? || k.procs[i].st.Zombie?) ==>
      var q := k.procs[i].parent;
      Slot(k, q) && k.procs[q].st.Live? && k.procs[q].pid < k.procs[i].pid
  }

  ghost predicate SlotOk(k: K, i: int) {
    Slot(k, i) ==>
      var x := k.procs[i];
      && (x.st.Unused? ==> x == Blank())
      && (!x.st.Unused? ==> 1 <= x.pid < k.nextpid && (x.pid == 1 ==> i == INIT) && x.pid !in k.reaped)
      && (x.st.Used? || x.st.Zombie? ==> x.fork == NONE)
      && (x.st.Used? || x.st.Live? ==> x.pid !in k.exited)
      && (x.st.Zombie? ==> x.pid in k.exited && k.exited[x.pid] == x.xstate)
  }

  /** A child half made belongs to the one live process that is making it. */
  ghost predicate ForkOk(k: K, p: int) {
    Slot(k, p) && k.procs[p].fork != NONE ==>
      var i := k.procs[p].fork;
      && k.procs[p].st.Live? && Slot(k, i) && k.procs[i].st.Used? && k.procs[p].pid < k.procs[i].pid
      && (k.procs[i].parent == NONE || k.procs[i].parent == p)
  }

  ghost predicate Apart(k: K, i: int, j: int) {
    Slot(k, i) && Slot(k, j) && i != j ==>
      && (!k.procs[i].st.Unused? && !k.procs[j].st.Unused? ==> k.procs[i].pid != k.procs[j].pid)
      && (k.procs[i].fork != NONE ==> k.procs[i].fork != k.procs[j].fork)
  }

  /** Every Used slot has its forker, or its parent is unset. */
  ghost predicate UsedOk(k: K, i: int) {
    Slot(k, i) && k.procs[i].st.Used? && k.procs[i].parent != NONE ==>
      Slot(k, k.procs[i].parent) && k.procs[k.procs[i].parent].fork == i
  }

  ghost predicate HistoryOk(k: K, pid: int) {
    && (pid in k.exited ==> pid < k.nextpid)
    && (pid in k.reaped ==> pid in k.exited)
    && (pid in k.exited && pid !in k.reaped ==> exists i :: ZombieAt(k, i, pid))
  }

  predicate ZombieAt(k: K, i: int, pid: int) {
    Slot(k, i) && k.procs[i].st.Zombie? && k.procs[i].pid == pid
  }

  ghost predicate Inv(k: K) {
    && Slot(k, INIT) && k.procs[INIT].st.Live? && k.procs[INIT].pid == 1 && 2 <= k.nextpid
    && (forall i :: SlotOk(k, i))
    && (forall i :: ParentOk(k, i))
    && (forall p :: ForkOk(k, p))
    && (forall i :: UsedOk(k, i))
    && (forall i, j :: Apart(k, i, j))
    && (forall pid :: HistoryOk(k, pid))
  }

  lemma HistoryKept(k: K, n: K, pid: int)
    requires HistoryOk(k, pid) && k.nextpid <= n.nextpid && n.exited == k.exited && n.reaped == k.reaped
    requires forall i :: ZombieAt(k, i, pid) ==> ZombieAt(n, i, pid)
    ensures HistoryOk(n, pid)
  {
    if pid in k.exited && pid !in k.reaped {
      var i :| ZombieAt(k, i, pid);
      assert ZombieAt(n, i, pid);
    }
  }

  lemma AllocKeepsInv(k: K, p: int)
    requires Inv(k) && Able(k, p) && FirstUnused(k.procs, 0) < |k.procs|
    ensures Inv(Alloc(k, p))
  {
    var n := Alloc(k, p);
    assert SlotOk(k, p) && HistoryOk(k, k.nextpid) && SlotOk(k, FirstUnused(k.procs, 0));
    forall i ensures SlotOk(n, i) {
      assert SlotOk(k, i);
    }
    forall i ensures ParentOk(n, i) {
      assert ParentOk(k, i);
    }
    forall q ensures ForkOk(n, q) {
      assert ForkOk(k, q);
    }
    forall i ensures UsedOk(n, i) {
      assert UsedOk(k, i);
    }
    forall i, j ensures Apart(n, i, j) {
      assert Apart(k, i, j) && SlotOk(k, i) && SlotOk(k, j) && ForkOk(k, i) && ForkOk(k, j);
    }
    forall pid ensures HistoryOk(n, pid) {
      HistoryKept(k, n, pid);
    }
  }

  lemma FailKeepsInv(k: K, p: int)
    requires Inv(k) && Forking(k, p) && k.procs[k.procs[p].fork].parent == NONE
    ensures Inv(Fail(k, p))
  {
    var n, c := Fail(k, p), k.procs[p].fork;
    assert ForkOk(k, p) && SlotOk(k, c);
    forall i ensures SlotOk(n, i) {
      assert SlotOk(k, i);
    }
    forall i ensures ParentOk(n, i) {
      assert ParentOk(k, i);
    }
    forall q ensures ForkOk(n, q) {
      assert ForkOk(k, q) && Apart(k, p, q);
    }
    forall i ensures UsedOk(n, i) {
      assert UsedOk(k, i);
    }
    forall i, j ensures Apart(n, i, j) {
      assert Apart(k, i, j);
    }
    forall pid ensures HistoryOk(n, pid) {
      HistoryKept(k, n, pid);
    }
  }

  lemma LinkKeepsInv(k: K, p: int)
    requires Inv(k) && Forking(k, p)
    ensures Inv(Link(k, p))
  {
    var n, c := Link(k, p), k.procs[p].fork;
    assert ForkOk(k, p) && SlotOk(k, c);
    forall i ensures SlotOk(n, i) {
      assert SlotOk(k, i);
    }
    forall i ensures ParentOk(n, i) {
      assert ParentOk(k, i);
    }
    forall q ensures ForkOk(n, q) {
      assert ForkOk(k, q) && Apart(k, p, q);
    }
    forall i ensures UsedOk(n, i) {
      assert UsedOk(k, i);
    }
    forall i, j ensures Apart(n, i, j) {
      assert Apart(k, i, j);
    }
    forall pid ensures HistoryOk(n, pid) {
      HistoryKept(k, n, pid);
    }
  }

  lemma LaunchKeepsInv(k: K, p: int)
    requires Inv(k) && Forking(k, p) && k.procs[k.procs[p].fork].parent == p
    ensures Inv(Launch(k, p))
  {
    var n, c := Launch(k, p), k.procs[p].fork;
    assert ForkOk(k, p) && SlotOk(k, c);
    forall i ensures SlotOk(n, i) {
      assert SlotOk(k, i);
    }
    forall i ensures ParentOk(n, i) {
      assert ParentOk(k, i);
    }
    forall q ensures ForkOk(n, q) {
      assert ForkOk(k, q) && Apart(k, p, q);
    }
    forall i ensures UsedOk(n, i) {
      assert UsedOk(k, i);
    }
    forall i, j ensures Apart(n, i, j) {
      assert Apart(k, i, j);
    }
    forall pid ensures HistoryOk(n, pid) {
      HistoryKept(k, n, pid);
    }
  }

  /** exit: the children it leaves behind find a live parent in init, whose pid is the smallest. */
  /**
    * exit keeps the invariant. Every child of p gets init as its parent, everybody else keeps theirs, p keeps its
    * pid and becomes a zombie with the status, and nothing else in the table changes.
    */
  lemma ExitKeepsInv(k: K, p: int, status: int)
    requires Inv(k) && Able(k, p) && p != INIT
    ensures Inv(Exited(k, p, status))
    ensures |Exited(k, p, status).procs| == |k.procs|
    ensures forall i | Slot(k, i) ::
              var x, y := k.procs[i], Exited(k, p, status).procs[i];
              && y.pid == x.pid && y.fork == x.fork && y.parent == (if x.parent == p then INIT else x.parent)
              && y.st == (if i == p then Zombie else x.st) && y.xstate == (if i == p then status else x.xstate)
  {
    var n := Exited(k, p, status);
    assert SlotOk(k, p) && Apart(k, p, INIT);
    forall i ensures SlotOk(n, i) {
      assert SlotOk(k, i) && Apart(k, p, i);
    }
    forall i ensures ParentOk(n, i) {
      assert ParentOk(k, i) && SlotOk(k, i) && ParentOk(k, p);
    }
    forall q ensures ForkOk(n, q) {
      assert ForkOk(k, q);
      if Slot(k, q) {
        assert UsedOk(k, k.procs[q].fork);
      }
    }
    forall i ensures UsedOk(n, i) {
      assert UsedOk(k, i);
    }
    forall i, j ensures Apart(n, i, j) {
      assert Apart(k, i, j);
    }
    forall pid ensures HistoryOk(n, pid) {
      assert HistoryOk(k, pid);
      assert ZombieAt(n, p, k.procs[p].pid);
      if pid in k.exited && pid !in k.reaped {
        var i :| ZombieAt(k, i, pid);
        assert ZombieAt(n, i, pid);
      }
    }
  }

  lemma ReapKeepsInv(k: K, p: int, z: int)
    requires Inv(k) && Able(k, p) && Slot(k, z) && k.procs[z].st.Zombie? && k.procs[z].parent == p
    ensures Inv(Reaped(k, z))
  {
    var n := Reaped(k, z);
    assert SlotOk(k, z);
    forall i ensures SlotOk(n, i) {
      assert SlotOk(k, i) && Apart(k, z, i);
    }
    forall i ensures ParentOk(n, i) {
      assert ParentOk(k, i);
    }
    forall q ensures ForkOk(n, q) {
      assert ForkOk(k, q);
    }
    forall i ensures UsedOk(n, i) {
      assert UsedOk(k, i);
    }
    forall i, j ensures Apart(n, i, j) {
      assert Apart(k, i, j);
    }
    forall pid ensures HistoryOk(n, pid) {
      assert HistoryOk(k, pid);
      if pid in n.exited && pid !in n.reaped {
        var i :| ZombieAt(k, i, pid);
        assert ZombieAt(n, i, pid);
      }
    }
  }

  lemma StepKeepsInv(k: K, a: Action)
    requires Inv(k)
    ensures Inv(Next(k, a))
  {
    var p := a.p;
    match a
    case ForkAlloc(_) => if Able(k, p) && FirstUnused(k.procs, 0) < |k.procs| { AllocKeepsInv(k, p); }
    case ForkFail(_) => if Forking(k, p) && k.procs[k.procs[p].fork].parent == NONE { FailKeepsInv(k, p); }
    case ForkLink(_) => if Forking(k, p) { LinkKeepsInv(k, p); }
    case ForkRun(_) => if Forking(k, p) && k.procs[k.procs[p].fork].parent == p { LaunchKeepsInv(k, p); }
    case Exit(_, status) => if Able(k, p) && p != INIT { ExitKeepsInv(k, p, status); }
    case Wait(_) =>
      if Able(k, p) && FirstZombie(k.procs, p, 0) < |k.procs| { ReapKeepsInv(k, p, FirstZombie(k.procs, p, 0)); }
  }

  // Runs

  function Start(n: nat): K
    requires n > 0
  {
    K([P(Live, 1, NONE, 0, NONE)] + seq(n - 1, _ => Blank()), 2, map[], {})
  }

  lemma StartInv(n: nat)
    requires n > 0
    ensures Inv(Start(n))
  {
    var k := Start(n);
    forall i ensures SlotOk(k, i) && ParentOk(k, i) && ForkOk(k, i) && UsedOk(k, i) {
    }
    forall i, j ensures Apart(k, i, j) {
    }
    forall pid ensures HistoryOk(k, pid) {
    }
  }

  ghost function Run(n: nat, acts: seq<Action>): (k: K)
    requires n > 0
    ensures Inv(k)
  {
    if acts == [] then
      StartInv(n);
      Start(n)
    else
      var k := Run(n, acts[..|acts| - 1]);
      StepKeepsInv(k, acts[|acts| - 1]);
      Next(k, acts[|acts| - 1])
  }

  /** Going up from place x of the chain c to place y meets live processes with ever smaller pids. */
  ghost predicate Climbs(k: K, c: seq<int>, x: int, y: int) {
    0 <= x < y < |c| ==>
        Slot(k, c[x]) && Slot(k, c[y]) && k.procs[c[y]].st.Live? && k.procs[c[y]].pid < k.procs[c[x]].pid
  }

  /** c leads from i to init by parent links, always to smaller pids. */
  ghost predicate IsChain(k: K, i: int, c: seq<int>) {
    && |c| > 0 && c[0] == i && c[|c| - 1] == INIT
    && (forall x | 0 <= x < |c| :: Slot(k, c[x]))
    && (forall x | 0 <= x < |c| - 1 :: Slot(k, c[x]) && c[x + 1] == k.procs[c[x]].parent)
    && forall x, y :: Climbs(k, c, x, y)
  }

  /** A process with its parent, its parent's parent, and so on. */
  ghost function Ancestors(k: K, i: int): (c: seq<int>)
    requires Inv(k) && Slot(k, i) && (k.procs[i].st.Live? || k.procs[i].st.Zombie?)
    ensures IsChain(k, i, c)
    decreases if Slot(k, i) && k.procs[i].pid > 0 then k.procs[i].pid else 0
  {
    assert ParentOk(k, i) && SlotOk(k, i);
    if i == INIT then [i]
    else
      var q := k.procs[i].parent;
      assert SlotOk(k, q);
      var c := Ancestors(k, q);
      ChainGrows(k, i, q, c);
      [i] + c
  }

  lemma ChainGrows(k: K, i: int, q: int, c: seq<int>)
    requires IsChain(k, q, c) && Slot(k, i) && k.procs[i].parent == q
    requires k.procs[q].st.Live? && k.procs[q].pid < k.procs[i].pid
    ensures IsChain(k, i, [i] + c)
  {
    var d := [i] + c;
    forall x, y ensures Climbs(k, d, x, y) {
      assert Climbs(k, c, x - 1, y - 1) && Climbs(k, c, 0, y - 1);
    }
  }

  /**
    * Over every run: a process other than init, once it runs and until it is reaped, has a parent
    * that is neither unused nor a zombie and has a smaller pid; so ancestor chains end at init.
    */
  lemma EveryoneHasAParent(n: nat, acts: seq<Action>, i: int)
    requires n > 0
    ensures var k := Run(n, acts);
            Slot(k, i) && (k.procs[i].st.Live? || k.procs[i].st.Zombie?) ==>
              && (i != INIT ==> Slot(k, k.procs[i].parent) && k.procs[k.procs[i].parent].st.Live?
                                && k.procs[k.procs[i].parent].pid < k.procs[i].pid)
              && exists c :: IsChain(k, i, c)
  {
    var k := Run(n, acts);
    assert ParentOk(k, i);
    if Slot(k, i) && (k.procs[i].st.Live? || k.procs[i].st.Zombie?) {
      assert IsChain(k, i, Ancestors(k, i));
    }
  }

  /** What one step reaps: the pid and status wait returns, if it returns one. */
  ghost predicate Reaps(k: K, a: Action, pid: int, status: int) {
    && a.Wait? && Able(k, a.p) && FirstZombie(k.procs, a.p, 0) < |k.procs|
    && var z := k.procs[FirstZombie(k.procs, a.p, 0)];
       z.pid == pid && z.xstate == status
  }

  ghost predicate Exits(k: K, a: Action, pid: int, status: int) {
    a.Exit? && Able(k, a.p) && a.p != INIT && k.procs[a.p].pid == pid && a.status == status
  }

  lemma StepHistory(k: K, a: Action, pid: int, status: int)
    requires Inv(k)
    ensures Reaps(k, a, pid, status) ==>
            pid in k.exited && k.exited[pid] == status && pid !in k.reaped && pid in Next(k, a).reaped
    ensures Exits(k, a, pid, status) ==>
            pid !in k.exited && pid in Next(k, a).exited && Next(k, a).exited[pid] == status
    ensures k.reaped <= Next(k, a).reaped
    ensures pid in k.exited ==> pid in Next(k, a).exited && Next(k, a).exited[pid] == k.exited[pid]
    ensures pid !in k.exited && pid in Next(k, a).exited ==> exists st :: Exits(k, a, pid, st)
  {
    assert SlotOk(k, a.p);
    if a.Wait? && Able(k, a.p) && FirstZombie(k.procs, a.p, 0) < |k.procs| {
      assert SlotOk(k, FirstZombie(k.procs, a.p, 0));
    }
    if a.Exit? && Able(k, a.p) && a.p != INIT && k.procs[a.p].pid == pid {
      assert Exits(k, a, pid, a.status);
    }
  }

  lemma {:induction false} HistoryGrows(n: nat, acts: seq<Action>, i: nat, pid: int)
    requires n > 0 && i <= |acts|
    ensures pid in Run(n, acts[..i]).reaped ==> pid in Run(n, acts).reaped
    ensures pid in Run(n, acts[..i]).exited ==>
      pid in Run(n, acts).exited && Run(n, acts).exited[pid] == Run(n, acts[..i]).exited[pid]
    decreases |acts|
  {
    if i == |acts| {
      assert acts[..i] == acts;
    } else {
      var init := acts[..|acts| - 1];
      HistoryGrows(n, init, i, pid);
      assert init[..i] == acts[..i];
      StepHistory(Run(n, init), acts[|acts| - 1], pid, 0);
    }
  }

  /** Over every run, no pid is returned by two waits. */
  lemma ReapedAtMostOnce(n: nat, acts: seq<Action>, i: nat, j: nat, pid: int, s: int, t: int)
    requires n > 0 && i < j < |acts|
    requires Reaps(Run(n, acts[..i]), acts[i], pid, s)
    ensures !Reaps(Run(n, acts[..j]), acts[j], pid, t)
  {
    var k := Run(n, acts[..i]);
    StepHistory(k, acts[i], pid, s);
    assert acts[..i + 1][..i] == acts[..i];
    assert acts[..j][..i + 1] == acts[..i + 1];
    HistoryGrows(n, acts[..j], i + 1, pid);
    StepHistory(Run(n, acts[..j]), acts[j], pid, t);
  }

  lemma {:induction false} ExitedEarlier(n: nat, acts: seq<Action>, pid: int) returns (i: nat)
    requires n > 0 && pid in Run(n, acts).exited
    ensures i < |acts| && Exits(Run(n, acts[..i]), acts[i], pid, Run(n, acts).exited[pid])
    decreases |acts|
  {
    i := 0;
    if acts != [] {
      var init := acts[..|acts| - 1];
      var k := Run(n, init);
      if pid in k.exited {
        i := ExitedEarlier(n, init, pid);
        StepHistory(k, acts[|acts| - 1], pid, 0);
        assert init[..i] == acts[..i];
      } else {
        i := |acts| - 1;
        StepHistory(k, acts[i], pid, 0);
        var st :| Exits(k, acts[i], pid, st);
        StepHistory(k, acts[i], pid, st);
      }
    }
  }

  /** Over every run, wait returns only a process that has called exit, with the status it passed. */
  lemma ReapedAfterExit(n: nat, acts: seq<Action>, j: nat, pid: int, status: int) returns (i: nat)
    requires n > 0 && j < |acts| && Reaps(Run(n, acts[..j]), acts[j], pid, status)
    ensures i < j && Exits(Run(n, acts[..i]), acts[i], pid, status)
  {
    var k := Run(n, acts[..j]);
    StepHistory(k, acts[j], pid, status);
    i := ExitedEarlier(n, acts[..j], pid);
    assert acts[..j][..i] == acts[..i];
  }

  /**
    * Over every run, a process that has exited and not been reaped still has its slot, with its status in it, and a
    * live parent to reap it.
    */
  lemma NoZombieLost(n: nat, acts: seq<Action>, pid: int) returns (i: int)
    requires n > 0
    ensures var k := Run(n, acts);
            pid in k.exited && pid !in k.reaped ==>
              && ZombieAt(k, i, pid) && k.procs[i].xstate == k.exited[pid]
              && (i != INIT ==> Slot(k, k.procs[i].parent) && k.procs[k.procs[i].parent].st.Live?)
  {
    var k := Run(n, acts);
    assert HistoryOk(k, pid);
    i := 0;
    if pid in k.exited && pid !in k.reaped {
      i :| ZombieAt(k, i, pid);
      assert SlotOk(k, i) && ParentOk(k, i);
    }
  }

  // Whose child a process is

  /** A process that is running or a zombie, with this pid, and its parent, in the slots they are in. */
  ghost predicate ChildOf(k: K, s: int, pid: int, q: int) {
    Slot(k, s) && (k.procs[s].st.Live? || k.procs[s].st.Zombie?) && k.procs[s].pid == pid && k.procs[s].parent == q
  }

  ghost predicate LiveAt(k: K, q: int, pid: int) {
    Slot(k, q) && k.procs[q].st.Live? && k.procs[q].pid == pid
  }

  lemma ParentStep(k: K, a: Action, s: int, pid: int, q: int, ppid: int)
    requires Inv(k) && ChildOf(k, s, pid, q) && LiveAt(k, q, ppid) && s != INIT
    ensures var n := Next(k, a);
            pid !in n.reaped ==>
              if ppid in n.exited then ChildOf(n, s, pid, INIT) && LiveAt(n, INIT, 1)
              else ChildOf(n, s, pid, q) && LiveAt(n, q, ppid)
  {
    assert SlotOk(k, s) && SlotOk(k, q) && SlotOk(k, a.p) && ForkOk(k, a.p) && ParentOk(k, s);
    assert Apart(k, q, a.p) && Apart(k, s, a.p) && Apart(k, s, q);
    StepKeepsInv(k, a);
  }

  /**
    * Over every run: a process keeps its parent until that parent exits; from then on, until it is reaped, its
    * parent is init.
    */
  lemma {:induction false} ParentHistory(n: nat, acts: seq<Action>, i: nat, s: int, pid: int, q: int, ppid: int)
    requires n > 0 && i <= |acts| && s != INIT
    requires var k := Run(n, acts[..i]); ChildOf(k, s, pid, q) && LiveAt(k, q, ppid)
    ensures var k := Run(n, acts);
            pid !in k.reaped ==>
              if ppid in k.exited then ChildOf(k, s, pid, INIT) && LiveAt(k, INIT, 1)
              else ChildOf(k, s, pid, q) && LiveAt(k, q, ppid)
    decreases |acts|
  {
    var k := Run(n, acts[..i]);
    if i == |acts| {
      assert acts[..i] == acts;
      assert SlotOk(k, q);
    } else {
      var init, a := acts[..|acts| - 1], acts[|acts| - 1];
      assert init[..i] == acts[..i];
      ParentHistory(n, init, i, s, pid, q, ppid);
      var m := Run(n, init);
      StepHistory(m, a, pid, 0);
      StepHistory(m, a, ppid, 0);
      if pid !in m.reaped {
        if ppid in m.exited {
          ParentStep(m, a, s, pid, INIT, 1);
          InitStays(m, a);
        } else {
          ParentStep(m, a, s, pid, q, ppid);
        }
      }
    }
  }

  lemma InitStays(k: K, a: Action)
    requires Inv(k)
    ensures 1 !in Next(k, a).exited
  {
    StepKeepsInv(k, a);
    assert SlotOk(Next(k, a), INIT);
  }

  /** fork, if nothing goes wrong: the first unused slot gets a live child of p with the next pid; no other changes. */
  lemma ForkMakesChild(k: K, p: int) returns (i: int)
    requires Inv(k) && Able(k, p) && exists j | 0 <= j < |k.procs| :: k.procs[j].st.Unused?
    ensures 0 <= i < |k.procs| && k.procs[i].st.Unused? && forall j | 0 <= j < i :: !k.procs[j].st.Unused?
    ensures Next(Next(Next(k, ForkAlloc(p)), ForkLink(p)), ForkRun(p)) ==
            k.(procs := k.procs[i := P(Live, k.nextpid, p, 0, NONE)], nextpid := k.nextpid + 1)
  {
    i := FirstUnused(k.procs, 0);
    assert SlotOk(k, p);
    var n := Next(Next(Next(k, ForkAlloc(p)), ForkLink(p)), ForkRun(p));
    assert n.procs == k.procs[i := P(Live, k.nextpid, p, 0, NONE)];
  }

  /** A fork that fails after allocproc leaves the table as it was; only a pid is gone. */
  lemma FailedForkRestores(k: K, p: int)
    requires Inv(k) && Able(k, p) && exists j | 0 <= j < |k.procs| :: k.procs[j].st.Unused?
    ensures Next(Next(k, ForkAlloc(p)), ForkFail(p)) == k.(nextpid := k.nextpid + 1)
  {
    var i := FirstUnused(k.procs, 0);
    assert SlotOk(k, p) && SlotOk(k, i);
    var n := Next(Next(k, ForkAlloc(p)), ForkFail(p));
    assert n.procs == k.procs;
  }
}
