/** kernel/sleeplock.c: acquiresleep and releasesleep as users of sleep and wakeup. */
module SleepLock {
  import opened SleepWakeup

  /**
    * What a process is doing with the sleep lock. Trying: in acquiresleep. Got: it has set locked
    * and still holds the spinlock. Releasing: in releasesleep, before locked is cleared. Waking:
    * after that. Calling: inside wakeup. Woke: wakeup has returned.
    */
  datatype Role = Idle | Trying | Got | Holding | Releasing | Waking | Calling | Woke

  const NOBODY := -1

  /** locked and pid are the fields of the sleep lock; s is the state of its spinlock and of the processes. */
  datatype C = C(s: S, role: seq<Role>, locked: bool, pid: int)

  datatype Act = StartAcquire(p: int) | TakeLk(p: int) | Test(p: int) | Leave(p: int) | StartRelease(p: int)
               | Clear(p: int) | Wake(p: int) | Inner(p: int, a: Action)

  predicate Shaped(c: C) {
    Shape(c.s) && |c.role| == |c.s.procs|
  }

  function Become(c: C, p: int, r: Role): C
    requires 0 <= p < |c.role|
  {
    c.(role := c.role[p := r])
  }

  function Next(c: C, a: Act): C
    requires Shaped(c)
  {
    if !(0 <= a.p < |c.role|) then c
    else
      var p, r, pc := a.p, c.role[a.p], c.s.procs[a.p].pc;
      match a
      case StartAcquire(_) => if r.Idle? then Become(c, p, Trying) else c
      case TakeLk(_) => if r.Trying? || r.Releasing? then c.(s := SleepWakeup.Next(c.s, AcquireLk(p))) else c
      case Test(_) =>
        if !(r.Trying? && pc.Held?) then c
        else if c.locked then c.(s := SleepWakeup.Next(c.s, CallSleep(p)))
        else Become(c.(locked := true, pid := p), p, Got)
      case Leave(_) =>
        if r.Got? then Become(c.(s := SleepWakeup.Next(c.s, ReleaseLk(p))), p, Holding)
        else if r.Woke? then Become(c.(s := SleepWakeup.Next(c.s, ReleaseLk(p))), p, Idle)
        else c
      case StartRelease(_) => if r.Holding? then Become(c, p, Releasing) else c
      case Clear(_) => if r.Releasing? && pc.Held? then Become(c.(locked := false, pid := NOBODY), p, Waking) else c
      case Wake(_) => if r.Waking? then Become(c.(s := SleepWakeup.Next(c.s, CallWakeup(p))), p, Calling) else c
      case Inner(_, b) =>
        if b.p != p || !(b.SleepStep? || b.SwitchDone? || b.Dispatch? || b.Kill? || b.WakeStep?) then c
        else
          var n := c.(s := SleepWakeup.Next(c.s, b));
          if b.WakeStep? && pc == WAcq(|c.role|) then Become(n, p, Woke) else n
  }

  predicate Owns(r: Role) {
    r.Got? || r.Holding? || r.Releasing?
  }

  predicate InWakeup(pc: Pc) {
    pc.WAcq? || pc.WDo? || pc.WRel?
  }

  ghost predicate RoleOk(c: C, p: int) {
    Shaped(c) && 0 <= p < |c.role| ==>
      var r, pc := c.role[p], c.s.procs[p].pc;
      && (Owns(r) <==> c.locked && c.pid == p)
      && (r.Idle? || r.Holding? ==> pc.Out?)
      && (r.Got? || r.Waking? || r.Woke? ==> pc.Held?)
      && (r.Releasing? ==> pc.Out? || pc.Held?)
      && (r.Calling? <==> InWakeup(pc))
  }

  /** A process asleep, or on its way, waits for someone: an owner, or one who is still going to wake it. */
  ghost predicate WaitOk(c: C, p: int) {
    Shaped(c) && InSleep(c.s, p) ==>
      c.locked || (0 <= c.s.lk < |c.role| && (c.role[c.s.lk].Waking? || c.role[c.s.lk].Calling?))
  }

  ghost predicate Ok(c: C) {
    && SleepWakeup.Inv(c.s) && Shaped(c) && (!c.locked ==> c.pid == NOBODY)
    && (forall p :: RoleOk(c, p))
    && (forall p :: WaitOk(c, p))
  }

  lemma InnerKeepsRoles(c: C, p: int, b: Action, q: int)
    requires Ok(c)
    ensures RoleOk(Next(c, Inner(p, b)), q)
  {
    assert RoleOk(c, p) && RoleOk(c, q) && LockOk(c.s, p);
  }

  lemma OthersKeepRoles(c: C, a: Act, q: int)
    requires Ok(c) && !a.Inner?
    ensures RoleOk(Next(c, a), q)
  {
    assert RoleOk(c, a.p) && RoleOk(c, q) && LockOk(c.s, a.p);
  }

  lemma OthersKeepWaits(c: C, a: Act, q: int)
    requires Ok(c) && !a.Inner?
    ensures WaitOk(Next(c, a), q)
  {
    assert RoleOk(c, a.p) && WaitOk(c, q) && LockOk(c.s, a.p);
  }

  /** Only a statement of sleep can bring a process nearer to sleep, and it was asleep in this sense already. */
  lemma InnerSleeps(c: C, b: Action, q: int)
    requires Ok(c) && (b.SleepStep? || b.SwitchDone? || b.Dispatch? || b.Kill? || b.WakeStep?)
    ensures InSleep(SleepWakeup.Next(c.s, b), q) ==> InSleep(c.s, q)
    ensures var n := SleepWakeup.Next(c.s, b);
            0 <= c.s.lk < |c.role| && (c.role[c.s.lk].Waking? || c.role[c.s.lk].Calling?) ==> n.lk == c.s.lk
  {
    assert LockOk(c.s, b.p) && StateOk(c.s, b.p) && RoleOk(c, c.s.lk);
    assert LockOk(c.s, c.s.lk);
  }

  lemma InnerKeepsWaits(c: C, p: int, b: Action, q: int)
    requires Ok(c)
    ensures WaitOk(Next(c, Inner(p, b)), q)
  {
    assert WaitOk(c, q);
    if b.SleepStep? || b.SwitchDone? || b.Dispatch? || b.Kill? || b.WakeStep? {
      InnerSleeps(c, b, q);
      if b.WakeStep? && 0 <= p < |c.role| && c.s.procs[p].pc == WAcq(|c.role|) {
        assert WokenOk(c.s, p, q) && LockOk(c.s, p);
      }
    }
  }

  lemma StepKeepsOk(c: C, a: Act)
    requires Ok(c)
    ensures Ok(Next(c, a))
  {
    var n := Next(c, a);
    forall q ensures RoleOk(n, q) {
      if a.Inner? {
        InnerKeepsRoles(c, a.p, a.a, q);
      } else {
        OthersKeepRoles(c, a, q);
      }
    }
    forall q ensures WaitOk(n, q) {
      if a.Inner? {
        InnerKeepsWaits(c, a.p, a.a, q);
      } else {
        OthersKeepWaits(c, a, q);
      }
    }
    assert RoleOk(c, a.p);
    BaseKept(c, a);
  }

  lemma BaseKept(c: C, a: Act)
    requires Ok(c)
    ensures SleepWakeup.Inv(Next(c, a).s) && Shaped(Next(c, a)) && (!Next(c, a).locked ==> Next(c, a).pid == NOBODY)
  {
    if 0 <= a.p < |c.role| {
      var b := match a
        case TakeLk(p) => AcquireLk(p)
        case Test(p) => CallSleep(p)
        case Leave(p) => ReleaseLk(p)
        case Wake(p) => CallWakeup(p)
        case Inner(_, x) => x
        case _ => Kill(a.p);
      SleepWakeup.StepKeepsInv(c.s, b);
      SleepWakeup.ShapeKept(c.s, b);
    }
  }

  function Start(n: nat): C {
    C(SleepWakeup.Start(n), seq(n, _ => Idle), false, NOBODY)
  }

  ghost function Run(n: nat, acts: seq<Act>): (c: C)
    ensures Ok(c)
  {
    if acts == [] then
      var c := Start(n);
      assert c.s == SleepWakeup.Run(n, []);
      assert (forall p :: RoleOk(c, p)) && forall p :: WaitOk(c, p);
      c
    else
      var c := Run(n, acts[..|acts| - 1]);
      StepKeepsOk(c, acts[|acts| - 1]);
      Next(c, acts[|acts| - 1])
  }

  /**
    * Over every interleaving at most one process owns the sleep lock, and holdingsleep tells each whether it is the
    * one.
    */
  lemma MutualExclusion(n: nat, acts: seq<Act>, p: int, q: int)
    ensures var c := Run(n, acts);
            0 <= p < |c.role| && 0 <= q < |c.role| ==>
              && (Owns(c.role[p]) && Owns(c.role[q]) ==> p == q)
              && (Owns(c.role[p]) <==> c.locked && c.pid == p)
  {
    var c := Run(n, acts);
    assert RoleOk(c, p) && RoleOk(c, q);
  }

  /**
    * Over every interleaving, nobody sleeps on a lock that is free: once the spinlock is free too, no one is in
    * sleep.
    */
  lemma NoSleeperOnFreeLock(n: nat, acts: seq<Act>, q: int)
    ensures var c := Run(n, acts); !c.locked && c.s.lk == FREE ==> !InSleep(c.s, q)
  {
    var c := Run(n, acts);
    assert WaitOk(c, q);
  }
}
