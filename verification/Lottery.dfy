/** The lottery scheduler of kernel/proc.c and the tickets it draws from. */
module Lottery {
  const NONE := -1

  datatype Proc = Proc(runnable: bool, tickets: int)

  /** Runnable processes hold tickets, as allocproc, fork and settickets see to; a slot never used holds none. */
  predicate Ticketed(procs: seq<Proc>) {
    forall i | 0 <= i < |procs| && procs[i].runnable :: procs[i].tickets >= 1
  }

  /** The tickets of the runnable processes among the first i. */
  function Total(procs: seq<Proc>, i: int): int
    requires 0 <= i <= |procs|
  {
    if i == 0 then 0 else Total(procs, i - 1) + if procs[i - 1].runnable then procs[i - 1].tickets else 0
  }

  /** The second scan from i on, with what is left of the number drawn. */
  function Elect(procs: seq<Proc>, left: int, i: int): (w: int)
    requires 0 <= i <= |procs|
    ensures w == NONE || (i <= w < |procs| && procs[w].runnable)
    decreases |procs| - i
  {
    if i == |procs| then NONE
    else if !procs[i].runnable then Elect(procs, left, i + 1)
    else if left - procs[i].tickets < 0 then i
    else Elect(procs, left - procs[i].tickets, i + 1)
  }

  lemma {:induction false} TotalGrows(procs: seq<Proc>, i: int, j: int)
    requires Ticketed(procs) && 0 <= i <= j <= |procs|
    ensures Total(procs, i) <= Total(procs, j)
    decreases j - i
  {
    if i < j {
      TotalGrows(procs, i, j - 1);
    }
  }

  /** p's own stretch of the numbers that can be drawn. */
  predicate InShare(procs: seq<Proc>, p: int, draw: int) {
    0 <= p < |procs| && procs[p].runnable && Total(procs, p) <= draw < Total(procs, p) + procs[p].tickets
  }

  lemma {:induction false} ElectFrom(procs: seq<Proc>, draw: int, i: int, p: int)
    requires Ticketed(procs) && 0 <= i <= p < |procs| && Total(procs, i) <= draw
    ensures Elect(procs, draw - Total(procs, i), i) == p <==> InShare(procs, p, draw)
    decreases |procs| - i
  {
    TotalGrows(procs, i + 1, p + 1);
    if i < p {
      TotalGrows(procs, i + 1, p);
      if draw - Total(procs, i) >= procs[i].tickets || !procs[i].runnable {
        ElectFrom(procs, draw, i + 1, p);
      }
    }
  }

  /** A number elects p exactly if it lies in p's stretch. */
  lemma ElectsByShare(procs: seq<Proc>, draw: int, p: int)
    requires Ticketed(procs) && 0 <= draw
    ensures 0 <= p && Elect(procs, draw, 0) == p <==> InShare(procs, p, draw)
  {
    if 0 <= p < |procs| {
      ElectFrom(procs, draw, 0, p);
    }
  }

  lemma {:induction false} ShareOf(procs: seq<Proc>, draw: int, i: int) returns (p: int)
    requires Ticketed(procs) && 0 <= i <= |procs| && 0 <= draw < Total(procs, i)
    ensures 0 <= p < i && InShare(procs, p, draw)
    decreases i
  {
    if draw >= Total(procs, i - 1) {
      p := i - 1;
    } else {
      p := ShareOf(procs, draw, i - 1);
    }
  }

  /** Every number that can be drawn elects one runnable process, and only one. */
  lemma EveryDrawElects(procs: seq<Proc>, draw: int)
    requires Ticketed(procs) && 0 <= draw < Total(procs, |procs|)
    ensures Elect(procs, draw, 0) != NONE
    ensures forall p :: InShare(procs, p, draw) <==> p == Elect(procs, draw, 0)
  {
    var w := ShareOf(procs, draw, |procs|);
    forall p ensures InShare(procs, p, draw) <==> 0 <= p && p == Elect(procs, draw, 0) {
      ElectsByShare(procs, draw, p);
    }
    ElectsByShare(procs, draw, w);
  }

  /** The numbers a, a+1, .. a+n-1. */
  function Stretch(a: int, n: int): (s: set<int>)
    ensures forall x :: x in s <==> a <= x < a + n
    ensures n >= 0 ==> |s| == n
    decreases n
  {
    if n <= 0 then {} else Stretch(a, n - 1) + {a + n - 1}
  }

  /** The numbers that elect p. */
  ghost function Winning(procs: seq<Proc>, p: int): set<int> {
    set d | d in Stretch(0, Total(procs, |procs|)) && Elect(procs, d, 0) == p
  }

  /** Each runnable process is elected by exactly as many numbers as it has tickets, out of all that can be drawn. */
  lemma FairShare(procs: seq<Proc>, p: int)
    requires Ticketed(procs) && 0 <= p < |procs|
    ensures |Winning(procs, p)| == if procs[p].runnable then procs[p].tickets else 0
  {
    TotalGrows(procs, 0, p);
    TotalGrows(procs, p + 1, |procs|);
    var s := if procs[p].runnable then Stretch(Total(procs, p), procs[p].tickets) else {};
    forall d ensures d in Winning(procs, p) <==> d in s {
      if d >= 0 {
        ElectsByShare(procs, d, p);
      }
    }
    assert Winning(procs, p) == s;
  }

  class Scheduler {
    var procs: seq<Proc>
    var held: seq<bool>

    constructor (procs: seq<Proc>)
      ensures this.procs == procs && held == seq(|procs|, _ => false)
    {
      this.procs := procs;
      held := seq(|procs|, _ => false);
    }

    /** The first scan: it counts the tickets and keeps every lock it takes. */
    method CountTickets() returns (total: int)
      requires |held| == |procs| && forall i | 0 <= i < |held| :: !held[i]
      modifies this`held
      ensures total == Total(procs, |procs|)
      ensures |held| == |procs| && forall i | 0 <= i < |held| :: held[i]
    {
      total := 0;
      var i := 0;
      while i < |procs|
        invariant 0 <= i <= |procs| == |held| && total == Total(procs, i)
        invariant forall j | 0 <= j < |held| :: held[j] <==> j < i
      {
        held := held[i := true];
        if procs[i].runnable {
          total := total + procs[i].tickets;
        }
        i := i + 1;
      }
    }

    /** One round of the lottery, with what rand returned: afterwards only the winner's lock is held. */
    method Draw(rand: int) returns (winner: int)
      requires Ticketed(procs) && Total(procs, |procs|) > 0 && rand >= 0
      requires |held| == |procs| && forall i | 0 <= i < |held| :: !held[i]
      modifies this`held
      ensures 0 <= winner < |procs| && procs[winner].runnable
      ensures winner == Elect(procs, rand % Total(procs, |procs|), 0)
      ensures |held| == |procs| && forall i | 0 <= i < |held| :: held[i] <==> i == winner
    {
      var total := CountTickets();
      var random := rand % total;
      ghost var draw := random;
      EveryDrawElects(procs, draw);
      winner := NONE;
      var i := 0;
      while i < |procs|
        invariant 0 <= i <= |procs| == |held|
        invariant winner == NONE ==> Elect(procs, random, i) == Elect(procs, draw, 0)
        invariant winner != NONE ==> 0 <= winner < i && winner == Elect(procs, draw, 0)
        invariant forall j | 0 <= j < |held| :: held[j] <==> j >= i || j == winner
      {
        if procs[i].runnable && winner == NONE {
          random := random - procs[i].tickets;
          if random < 0 {
            winner := i;
          }
        }
        if i != winner {
          held := held[i := false];
        }
        i := i + 1;
      }
    }

    /** settickets by process p: false is the error return. */
    method SetTickets(p: int, tickets: int) returns (ok: bool)
      requires Ticketed(procs) && 0 <= p < |procs|
      modifies this`procs
      ensures Ticketed(procs) && (ok <==> tickets >= 1)
      ensures procs == if ok then old(procs)[p := old(procs)[p].(tickets := tickets)] else old(procs)
    {
      if tickets < 1 {
        return false;
      }
      procs := procs[p := procs[p].(tickets := tickets)];
      ok := true;
    }
  }
}
