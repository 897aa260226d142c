/**
  * sleep and wakeup of kernel/proc.c on one channel and the spinlock lk that goes with it, as a
  * machine whose steps interleave freely: each is one lock operation or one access under a lock.
  */
module SleepWakeup {
  /**
    * Where a process is. Held: holding lk, about its own business. SAcq .. SReacq: inside sleep,
    * each before the statement named. Off: switched out. WAcq(k), WDo(k), WRel(k): in wakeup's loop at process k.
    */
  datatype Pc = Out | Held | SAcq | SRel | SSet | SSched | Off | STidy | SRelP | SReacq
              | WAcq(k: int) | WDo(k: int) | WRel(k: int)

  datatype Status = Running | Runnable | Sleeping

  datatype Proc = Proc(pc: Pc, st: Status, chan: bool)

  /** Who holds a process's own lock. */
  datatype Owner = Nobody | Itself | Scheduler | Waker(w: int)

  const FREE := -1

  datatype S = S(procs: seq<Proc>, lk: int, plock: seq<Owner>)

  datatype Action = AcquireLk(p: int) | ReleaseLk(p: int) | CallSleep(p: int) | CallWakeup(p: int) | Kill(p: int)
                  | SleepStep(p: int) | SwitchDone(p: int) | Dispatch(p: int) | WakeStep(p: int)

  predicate HasLk(pc: Pc) {
    pc.Held? || pc.SAcq? || pc.SRel? || pc.WAcq? || pc.WDo? || pc.WRel?
  }

  predicate HasOwn(pc: Pc) {
    pc.SRel? || pc.SSet? || pc.SSched? || pc.STidy? || pc.SRelP?
  }

  function Put(s: S, p: int, x: Proc): S
    requires 0 <= p < |s.procs|
  {
    s.(procs := s.procs[p := x])
  }

  function Go(s: S, p: int, pc: Pc): S
    requires 0 <= p < |s.procs|
  {
    Put(s, p, s.procs[p].(pc := pc))
  }

  predicate Shape(s: S) {
    |s.plock| == |s.procs|
  }

  /** One statement of sleep. */
  function StepSleep(s: S, p: int): (r: S)
    requires Shape(s) && 0 <= p < |s.procs|
  {
    var x := s.procs[p];
    match x.pc
    case SAcq => if s.plock[p].Nobody? then Go(s, p, SRel).(plock := s.plock[p := Itself]) else s
    case SRel => Go(s, p, SSet).(lk := FREE)
    case SSet => Put(s, p, Proc(SSched, Sleeping, true))
    case SSched => Go(s, p, Off).(plock := s.plock[p := Scheduler])
    case STidy => Put(s, p, x.(pc := SRelP, chan := false))
    case SRelP => Go(s, p, SReacq).(plock := s.plock[p := Nobody])
    case SReacq => if s.lk == FREE then Go(s, p, Held).(lk := p) else s
    case _ => s
  }

  /** One statement of wakeup's loop. */
  function StepWakeup(s: S, p: int): S
    requires Shape(s) && 0 <= p < |s.procs|
  {
    match s.procs[p].pc
    case WAcq(k) =>
      if k == |s.procs| then Go(s, p, Held)
      else if k == p then Go(s, p, WAcq(k + 1))
      else if 0 <= k < |s.procs| && s.plock[k].Nobody? then Go(s, p, WDo(k)).(plock := s.plock[k := Waker(p)])
      else s
    case WDo(k) =>
      var t := Go(s, p, WRel(k));
      if 0 <= k < |s.procs| && k != p && s.procs[k].st.Sleeping? && s.procs[k].chan
      then Put(t, k, s.procs[k].(st := Runnable))
      else t
    case WRel(k) =>
      if 0 <= k < |s.procs| then Go(s, p, WAcq(k + 1)).(plock := s.plock[k := Nobody]) else s
    case _ => s
  }

  /** A step; an action that is not possible changes nothing. */
  function Next(s: S, a: Action): S
    requires Shape(s)
  {
    if !(0 <= a.p < |s.procs|) then s
    else
      var p, x := a.p, s.procs[a.p];
      match a
      case AcquireLk(_) => if x.pc.Out? && s.lk == FREE then Go(s, p, Held).(lk := p) else s
      case ReleaseLk(_) => if x.pc.Held? then Go(s, p, Out).(lk := FREE) else s
      case CallSleep(_) => if x.pc.Held? then Go(s, p, SAcq) else s
      case CallWakeup(_) => if x.pc.Held? then Go(s, p, WAcq(0)) else s
      case Kill(_) => if s.plock[p].Nobody? && x.st.Sleeping? then Put(s, p, x.(st := Runnable)) else s
      case SleepStep(_) => StepSleep(s, p)
      case SwitchDone(_) => if x.pc.Off? && s.plock[p].Scheduler? then s.(plock := s.plock[p := Nobody]) else s
      case Dispatch(_) =>
        if x.pc.Off? && s.plock[p].Nobody? && x.st.Runnable?
        then Put(s, p, x.(pc := STidy, st := Running)).(plock := s.plock[p := Itself])
        else s
      case WakeStep(_) => StepWakeup(s, p)
  }

  /** Process q has entered sleep on the channel and nobody has woken it yet. */
  predicate InSleep(s: S, q: int) {
    0 <= q < |s.procs| &&
    var x := s.procs[q];
    x.pc.SAcq? || x.pc.SRel? || x.pc.SSet? || x.pc.SSched? || (x.pc.Off? && x.st.Sleeping?)
  }

  /** How many processes a wakeup in progress has dealt with. */
  function Done(pc: Pc): int {
    match pc
    case WAcq(k) => k
    case WDo(k) => k
    case WRel(k) => k + 1
    case _ => 0
  }

  /** A process holds the locks its place says it holds. */
  ghost predicate LockOk(s: S, p: int) {
    Shape(s) && 0 <= p < |s.procs| ==>
      var pc := s.procs[p].pc;
      && (HasLk(pc) <==> s.lk == p)
      && (HasOwn(pc) <==> s.plock[p].Itself?)
      && (pc.WAcq? ==> 0 <= pc.k <= |s.procs|)
      && (pc.WDo? || pc.WRel? ==> 0 <= pc.k < |s.procs| && pc.k != p && s.plock[pc.k] == Waker(p))
      && (s.plock[p].Waker? ==> var w := s.plock[p].w;
            0 <= w < |s.procs| && (s.procs[w].pc == WDo(p) || s.procs[w].pc == WRel(p)))
  }

  /** A process is asleep on the channel only between sched and its return. */
  ghost predicate StateOk(s: S, p: int) {
    Shape(s) && 0 <= p < |s.procs| ==>
      var x := s.procs[p];
      && (s.plock[p].Scheduler? ==> x.pc.Off? && x.st.Sleeping?)
      && (x.pc.SSched? ==> x.st.Sleeping?)
      && (x.pc.Off? ==> !x.st.Running?)
      && (x.pc.Off? || x.pc.SSched? ==> x.chan)
      && (!x.pc.Off? && !x.pc.SSched? ==> x.st.Running?)
  }

  /** A wakeup in progress leaves nobody asleep behind it. */
  ghost predicate WokenOk(s: S, w: int, q: int) {
    0 <= w < |s.procs| && 0 <= q < Done(s.procs[w].pc) ==> !InSleep(s, q)
  }

  ghost predicate Inv(s: S) {
    && Shape(s) && (s.lk == FREE || 0 <= s.lk < |s.procs|)
    && (forall p :: LockOk(s, p))
    && (forall p :: StateOk(s, p))
    && (forall w, q :: WokenOk(s, w, q))
  }

  lemma OthersKeepLocks(s: S, a: Action, q: int)
    requires Inv(s) && !a.SleepStep? && !a.WakeStep?
    ensures LockOk(Next(s, a), q)
  {
    assert LockOk(s, a.p) && LockOk(s, q) && StateOk(s, a.p);
  }

  lemma OthersKeepStates(s: S, a: Action, q: int)
    requires Inv(s) && !a.SleepStep? && !a.WakeStep?
    ensures StateOk(Next(s, a), q)
  {
    assert LockOk(s, a.p) && StateOk(s, a.p) && StateOk(s, q);
  }

  lemma OthersKeepWoken(s: S, a: Action, w: int, q: int)
    requires Inv(s) && !a.SleepStep? && !a.WakeStep?
    ensures WokenOk(Next(s, a), w, q)
  {
    assert LockOk(s, a.p) && StateOk(s, a.p) && WokenOk(s, w, q) && LockOk(s, w);
  }

  lemma SleepKeepsLocks(s: S, p: int, q: int)
    requires Inv(s)
    ensures LockOk(Next(s, SleepStep(p)), q)
  {
    assert LockOk(s, p) && LockOk(s, q);
  }

  lemma SleepKeepsStates(s: S, p: int, q: int)
    requires Inv(s)
    ensures StateOk(Next(s, SleepStep(p)), q)
  {
    assert LockOk(s, p) && StateOk(s, p) && StateOk(s, q);
  }

  lemma SleepKeepsWoken(s: S, p: int, w: int, q: int)
    requires Inv(s)
    ensures WokenOk(Next(s, SleepStep(p)), w, q)
  {
    assert LockOk(s, p) && WokenOk(s, w, q);
  }

  lemma WakeKeepsLocks(s: S, p: int, q: int)
    requires Inv(s)
    ensures LockOk(Next(s, WakeStep(p)), q)
  {
    assert LockOk(s, p) && LockOk(s, q);
  }

  lemma WakeKeepsStates(s: S, p: int, q: int)
    requires Inv(s)
    ensures StateOk(Next(s, WakeStep(p)), q)
  {
    assert LockOk(s, p) && LockOk(s, q) && StateOk(s, p) && StateOk(s, q);
  }

  /**
    * The one step that matters: the waker holds the lock of the process it looks at, so it cannot be caught
    * half-way to sleep.
    */
  lemma WakeKeepsWoken(s: S, p: int, w: int, q: int)
    requires Inv(s)
    ensures WokenOk(Next(s, WakeStep(p)), w, q)
  {
    assert LockOk(s, p) && WokenOk(s, w, q) && LockOk(s, q) && StateOk(s, q) && LockOk(s, w);
  }

  lemma StepKeepsInv(s: S, a: Action)
    requires Inv(s)
    ensures Inv(Next(s, a))
  {
    var n := Next(s, a);
    forall q ensures LockOk(n, q) {
      if a.SleepStep? {
        SleepKeepsLocks(s, a.p, q);
      } else if a.WakeStep? {
        WakeKeepsLocks(s, a.p, q);
      } else {
        OthersKeepLocks(s, a, q);
      }
    }
    forall q ensures StateOk(n, q) {
      if a.SleepStep? {
        SleepKeepsStates(s, a.p, q);
      } else if a.WakeStep? {
        WakeKeepsStates(s, a.p, q);
      } else {
        OthersKeepStates(s, a, q);
      }
    }
    forall w, q ensures WokenOk(n, w, q) {
      if a.SleepStep? {
        SleepKeepsWoken(s, a.p, w, q);
      } else if a.WakeStep? {
        WakeKeepsWoken(s, a.p, w, q);
      } else {
        OthersKeepWoken(s, a, w, q);
      }
    }
    ShapeKept(s, a);
  }

  lemma ShapeKept(s: S, a: Action)
    requires Inv(s)
    ensures Shape(Next(s, a)) && |Next(s, a).procs| == |s.procs|
    ensures Next(s, a).lk == FREE || 0 <= Next(s, a).lk < |s.procs|
  {
  }

  function Start(n: nat): S {
    S(seq(n, _ => Proc(Out, Running, false)), FREE, seq(n, _ => Nobody))
  }

  ghost function Run(n: nat, acts: seq<Action>): (s: S)
    ensures Inv(s)
  {
    if acts == [] then
      var s := Start(n);
      assert (forall p :: LockOk(s, p)) && (forall p :: StateOk(s, p)) && forall w, q :: WokenOk(s, w, q);
      s
    else
      var s := Run(n, acts[..|acts| - 1]);
      StepKeepsInv(s, acts[|acts| - 1]);
      Next(s, acts[|acts| - 1])
  }

  /**
    * No lost wakeup: over every interleaving, when wakeup is about to return, no process that
    * entered sleep on the channel, before or during the call, is still asleep or on its way there.
    */
  lemma NoLostWakeup(n: nat, acts: seq<Action>, w: int)
    ensures var s := Run(n, acts);
            0 <= w < |s.procs| && s.procs[w].pc == WAcq(|s.procs|) ==>
              && Next(s, WakeStep(w)).procs[w].pc.Held?
              && forall q :: !InSleep(s, q) && !InSleep(Next(s, WakeStep(w)), q)
  {
    var s := Run(n, acts);
    if 0 <= w < |s.procs| && s.procs[w].pc == WAcq(|s.procs|) {
      forall q ensures !InSleep(s, q) && !InSleep(Next(s, WakeStep(w)), q) {
        assert WokenOk(s, w, q);
      }
    }
  }

  /** At most one process holds lk, and one whose own lock is free is in no half-way state. */
  lemma LocksExclude(n: nat, acts: seq<Action>, p: int, q: int)
    ensures var s := Run(n, acts);
            0 <= p < |s.procs| && 0 <= q < |s.procs| && HasLk(s.procs[p].pc) && HasLk(s.procs[q].pc) ==> p == q
  {
    var s := Run(n, acts);
    assert LockOk(s, p) && LockOk(s, q);
  }

  /** The step that ends q's sleep: kill, or wakeup's loop at q. */
  predicate Rouses(s: S, a: Action, q: int) {
    a == Kill(q) || (a.WakeStep? && 0 <= a.p < |s.procs| && s.procs[a.p].pc == WDo(q))
  }

  lemma StaysAsleep(s: S, a: Action, q: int)
    requires Inv(s) && InSleep(s, q) && !Rouses(s, a, q)
    ensures InSleep(Next(s, a), q)
  {
    assert LockOk(s, q) && StateOk(s, q);
  }

  /** After the first i steps of the run, q is asleep or on its way there. */
  ghost predicate AsleepAt(n: nat, acts: seq<Action>, i: nat, q: int)
    requires i <= |acts|
  {
    InSleep(Run(n, acts[..i]), q)
  }

  /** Step j of the run ends q's sleep. */
  ghost predicate RousedAt(n: nat, acts: seq<Action>, j: nat, q: int)
    requires j < |acts|
  {
    Rouses(Run(n, acts[..j]), acts[j], q)
  }

  lemma RousedLast(n: nat, acts: seq<Action>, k: nat, q: int)
    requires k < |acts| && AsleepAt(n, acts, k, q) && !AsleepAt(n, acts, k + 1, q)
    ensures RousedAt(n, acts, k, q)
  {
    assert acts[..k + 1][..k] == acts[..k];
    var s := Run(n, acts[..k]);
    assert Run(n, acts[..k + 1]) == Next(s, acts[k]);
    if !Rouses(s, acts[k], q) {
      StaysAsleep(s, acts[k], q);
    }
  }

  /**
    * No early return: over every interleaving, a process that has entered sleep stays there until it is killed or a
    * wakeup on the channel comes to it.
    */
  lemma {:induction false} NoEarlyReturn(n: nat, acts: seq<Action>, i: nat, k: nat, q: int) returns (j: nat)
    requires i < k <= |acts| && AsleepAt(n, acts, i, q) && !AsleepAt(n, acts, k, q)
    ensures i <= j < k && RousedAt(n, acts, j, q)
    decreases k
  {
    if AsleepAt(n, acts, k - 1, q) {
      j := k - 1;
      RousedLast(n, acts, j, q);
    } else {
      j := NoEarlyReturn(n, acts, i, k - 1, q);
    }
  }
}
