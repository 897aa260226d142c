/** allocproc, reparent, exit and the scan of wait (kernel/proc.c) as loops over the process table. */
module ProcessTableCode {
  import opened ProcessTree

  lemma {:induction false} FirstUnusedIs(procs: seq<P>, from: nat, i: nat)
    requires from <= i <= |procs| && (forall j | from <= j < i :: !procs[j].st.Unused?)
    requires (i < |procs| ==> procs[i].st.Unused?)
    ensures FirstUnused(procs, from) == i
    decreases i - from
  {
    if from < i {
      FirstUnusedIs(procs, from + 1, i);
    }
  }

  lemma {:induction false} FirstZombieIs(procs: seq<P>, p: int, from: nat, i: nat)
    requires from <= i <= |procs| && (i < |procs| ==> procs[i].st.Zombie? && procs[i].parent == p)
    requires forall j | from <= j < i :: !(procs[j].st.Zombie? && procs[j].parent == p)
    ensures FirstZombie(procs, p, from) == i
    decreases i - from
  {
    if from < i {
      FirstZombieIs(procs, p, from + 1, i);
    }
  }

  class ProcTable {
    var procs: seq<P>
    var nextpid: int
    ghost var exited: map<int, int>
    ghost var reaped: set<int>

    ghost function View(): K
      reads this
    {
      K(procs, nextpid, exited, reaped)
    }

    constructor (n: nat)
      requires n > 0
      ensures View() == Start(n)
    {
      procs, nextpid := [P(Live, 1, NONE, 0, NONE)] + seq(n - 1, _ => Blank()), 2;
      exited, reaped := map[], {};
    }

    /** allocproc on behalf of p: the first unused slot, with the next pid. */
    method Allocproc(p: int) returns (np: int)
      requires Able(View(), p)
      modifies this
      ensures np == NONE <==> FirstUnused(old(procs), 0) == |old(procs)|
      ensures View() == Next(old(View()), ForkAlloc(p))
      ensures np == NONE ==> (forall j | 0 <= j < |procs| :: !procs[j].st.Unused?) && View() == old(View())
      ensures np != NONE ==>
                && 0 <= np < |old(procs)| && old(procs)[np].st.Unused?
                && (forall j | 0 <= j < np :: !old(procs)[j].st.Unused?)
                && procs == old(procs)[np := P(Used, old(nextpid), NONE, 0, NONE)][p := old(procs)[p].(fork := np)]
                && nextpid == old(nextpid) + 1
    {
      var i := 0;
      while i < |procs| && !procs[i].st.Unused?
        invariant 0 <= i <= |procs| && forall j | 0 <= j < i :: !procs[j].st.Unused?
      {
        i := i + 1;
      }
      FirstUnusedIs(procs, 0, i);
      if i == |procs| {
        return NONE;
      }
      procs := procs[i := P(Used, nextpid, NONE, 0, NONE)][p := procs[p].(fork := i)];
      nextpid := nextpid + 1;
      np := i;
    }

    /** reparent. */
    method Reparent(p: int)
      modifies this`procs
      ensures procs == Reparented(old(procs), p)
      ensures |procs| == |old(procs)|
      ensures forall i | 0 <= i < |procs| && old(procs)[i].parent == p :: procs[i] == old(procs)[i].(parent := INIT)
      ensures forall i | 0 <= i < |procs| && old(procs)[i].parent != p :: procs[i] == old(procs)[i]
    {
      var i := 0;
      while i < |procs|
        invariant 0 <= i <= |procs| == |old(procs)|
        invariant forall j | 0 <= j < i :: procs[j] == Reparented(old(procs), p)[j]
        invariant forall j | i <= j < |procs| :: procs[j] == old(procs)[j]
      {
        if procs[i].parent == p {
          procs := procs[i := procs[i].(parent := INIT)];
        }
        i := i + 1;
      }
    }

    /** exit, from acquiring wait_lock to releasing it. */
    method Exit(p: int, status: int) returns (panic: bool)
      requires Able(View(), p)
      modifies this
      ensures panic <==> p == INIT
      ensures View() == Next(old(View()), ProcessTree.Exit(p, status))
      ensures |procs| == |old(procs)| && nextpid == old(nextpid) && reaped == old(reaped)
      ensures !panic ==> procs[p].st == Zombie && procs[p].xstate == status && procs[p].pid == old(procs)[p].pid
      ensures !panic ==>
                forall i | 0 <= i < |procs| && i != p ::
                  procs[i] == old(procs)[i].(parent := if old(procs)[i].parent == p then INIT else old(procs)[i].parent)
    {
      if p == INIT {
        return true;
      }
      ghost var pid := procs[p].pid;
      Reparent(p);
      procs := procs[p := procs[p].(st := Zombie, xstate := status)];
      exited := exited[pid := status];
      panic := false;
    }

    /**
      * One pass of wait over the table: the first zombie child is freed and its pid and status returned,
      * unless its status cannot be copied out, when it stays for another wait. `copies` says whether it can.
      */
    method WaitScan(p: int, copies: bool) returns (pid: int, status: int, havekids: bool, failed: bool)
      requires Inv(View()) && Able(View(), p)
      modifies this
      ensures failed <==> !copies && FirstZombie(old(procs), p, 0) < |old(procs)|
      ensures failed ==> pid == NONE && View() == old(View())
      ensures !failed ==> View() == Next(old(View()), Wait(p))
      ensures !failed && pid == NONE ==> FirstZombie(old(procs), p, 0) == |old(procs)| && View() == old(View())
      ensures !failed && pid == NONE ==> (havekids <==> exists i | 0 <= i < |procs| :: procs[i].parent == p)
      ensures pid != NONE ==> Reaps(old(View()), Wait(p), pid, status)
      ensures pid != NONE ==>
                exists z | 0 <= z < |old(procs)| ::
                  && old(procs)[z].st.Zombie? && old(procs)[z].parent == p
                  && (forall j | 0 <= j < z :: !(old(procs)[j].st.Zombie? && old(procs)[j].parent == p))
                  && pid == old(procs)[z].pid && status == old(procs)[z].xstate && procs == old(procs)[z := Blank()]
    {
      havekids, status, failed := false, 0, false;
      var i := 0;
      while i < |procs|
        invariant 0 <= i <= |procs| && View() == old(View())
        invariant forall j | 0 <= j < i :: !(procs[j].st.Zombie? && procs[j].parent == p)
        invariant havekids <==> exists j | 0 <= j < i :: procs[j].parent == p
      {
        if procs[i].parent == p {
          havekids := true;
          if procs[i].st.Zombie? {
            FirstZombieIs(procs, p, 0, i);
            assert SlotOk(View(), i);
            if !copies {
              return NONE, 0, true, true;
            }
            pid, status := procs[i].pid, procs[i].xstate;
            reaped := reaped + {pid};
            procs := procs[i := Blank()];
            return;
          }
        }
        i := i + 1;
      }
      FirstZombieIs(procs, p, 0, i);
      pid := NONE;
    }
  }
}
