/** alloc_desc, free_desc, alloc3_desc, free_chain, virtio_disk_rw and virtio_disk_intr of kernel/virtio_disk.c. */
module VirtioCode {
  import opened Virtio

  lemma {:induction false} FirstFreeIs(free: seq<bool>, from: nat, i: nat)
    requires from <= i <= |free| && (forall j | from <= j < i :: !free[j]) && (i < |free| ==> free[i])
    ensures FirstFree(free, from) == i
    decreases i - from
  {
    if from < i {
      FirstFreeIs(free, from + 1, i);
    }
  }

  /** The descriptors alloc_desc hands out in turn are the ones a single scan would pick. */
  lemma PicksInTurn(free: seq<bool>, x: nat, y: nat, z: nat)
    requires x == FirstFree(free, 0) && x < |free| && y == FirstFree(free[x := false], 0)
    requires y < |free| ==> z == FirstFree(free[x := false][y := false], 0)
    requires y == |free| ==> z == y
    ensures Pick(free) == (x, y, z)
  {
    var f := free[x := false];
    forall j | x + 1 <= j < y ensures !free[j] {
      assert !f[j];
    }
    FirstFreeIs(free, x + 1, y);
    if y < |free| {
      var g := f[y := false];
      forall j | y + 1 <= j < z ensures !free[j] {
        assert !g[j];
      }
      FirstFreeIs(free, y + 1, z);
    }
  }

  lemma PicksNone(free: seq<bool>)
    requires FirstFree(free, 0) == |free|
    ensures Pick(free) == (|free|, |free|, |free|)
  {
  }

  /** Who moves next while an interrupt is handled: the device reports a request, or the handler goes on. */
  datatype Turn = Report(h: int, st: int) | Handler

  /** The device holds the requests it will report from turn k on, and reports each once. */
  ghost predicate Held(v: V, turns: seq<Turn>, k: int) {
    && (forall i | 0 <= k <= i < |turns| && turns[i].Report? :: CanComplete(v, turns[i].h))
    && (forall i, j | 0 <= k <= i < j < |turns| && turns[i].Report? && turns[j].Report? :: turns[i].h != turns[j].h)
  }

  lemma HeldAfterReport(v: V, turns: seq<Turn>, k: int)
    requires Inv(v) && 0 <= k < |turns| && Held(v, turns, k) && turns[k].Report? && CanComplete(v, turns[k].h)
    ensures Held(Use(v, turns[k].h, turns[k].st), turns, k + 1)
  {
  }

  lemma HeldAfterRound(v: V, turns: seq<Turn>, k: int, k': int)
    requires Inv(v) && 0 <= k <= k' && Held(v, turns, k) && Succeeded(v)
    ensures UsedHead(v) in v.reqs && 0 <= UsedHead(v) < N(v) && Held(See(v), turns, k')
  {
    SeesNext(v);
  }

  lemma NothingUnseen(v: V)
    requires Inv(v) && v.seen16 == v.uidx
    ensures forall h | h in v.reqs :: !v.reqs[h].phase.Done?
  {
    SeesNext(v);
    forall h | h in v.reqs ensures !v.reqs[h].phase.Done? {
      assert Listed(v, h);
    }
  }

  class Disk {
    var free: seq<bool>
    var desc: seq<Desc>
    var infoB: seq<int>
    var status: seq<int>
    var aring: seq<int>
    var aidx: int
    var uring: seq<int>
    var uidx: int
    var usedIdx: int
    var busy: set<int>
    ghost var reqs: map<int, Req>
    ghost var own: map<int, int>
    ghost var availQ: seq<int>
    ghost var usedQ: seq<int>
    ghost var taken: int
    ghost var seen: int

    ghost function View(): V
      reads this
    {
      V(free, desc, infoB, status, aring, aidx, uring, uidx, usedIdx, busy, reqs, own, availQ, usedQ, taken, seen)
    }

    /** alloc_desc. */
    method AllocDesc() returns (r: int)
      modifies this`free
      ensures var i := FirstFree(old(free), 0);
              if i == |old(free)| then r == NONE && free == old(free) else r == i && free == old(free)[i := false]
    {
      var i := 0;
      while i < |free|
        invariant 0 <= i <= |free| && free == old(free) && forall j | 0 <= j < i :: !free[j]
      {
        if free[i] {
          FirstFreeIs(free, 0, i);
          free := free[i := false];
          return i;
        }
        i := i + 1;
      }
      FirstFreeIs(free, 0, i);
      r := NONE;
    }

    /** free_desc; true stands for one of its panics. */
    method FreeDesc(i: int) returns (panic: bool)
      requires 0 <= i && |desc| == |free|
      modifies this`free, this`desc
      ensures panic <==> i >= |old(free)| || old(free)[i]
      ensures panic ==> free == old(free) && desc == old(desc)
      ensures !panic ==> free == old(free)[i := true] && desc == old(desc)[i := Desc(0, false)]
    {
      if i >= |free| {
        return true;
      }
      if free[i] {
        return true;
      }
      desc := desc[i := Desc(0, false)];
      free := free[i := true];
      panic := false;
    }

    /** Giving back one or two descriptors leaves everything as it was before they were taken. */
    method Undo(x: int, y: int, two: bool, ghost free0: seq<bool>)
      requires |desc| == |free| == |free0| && 0 <= x < |free| && free0[x]
      requires two ==> 0 <= y < |free| && x != y && free0[y] && free == free0[x := false][y := false]
      requires !two ==> free == free0[x := false]
      modifies this`free, this`desc
      ensures free == free0
      ensures desc == if two then old(desc)[x := Desc(0, false)][y := Desc(0, false)]
              else old(desc)[x := Desc(0, false)]
    {
      var panic := FreeDesc(x);
      if two {
        panic := FreeDesc(y);
      }
    }

    /** alloc3_desc: all three or none. */
    method Alloc3Desc() returns (ok: bool, i0: int, i1: int, i2: int)
      requires |desc| == |free|
      modifies this`free, this`desc
      ensures ok <==> Pick(old(free)).2 < |old(free)|
      ensures ok ==> (i0, i1, i2) == Pick(old(free)) && desc == old(desc)
      ensures ok ==> free == old(free)[i0 := false][i1 := false][i2 := false]
      ensures !ok ==> free == old(free)
      ensures |desc| == |free| && forall d | 0 <= d < |desc| && !old(free)[d] :: desc[d] == old(desc)[d]
    {
      ghost var free0 := free;
      i1, i2 := NONE, NONE;
      i0 := AllocDesc();
      if i0 < 0 {
        PicksNone(free0);
        return false, i0, i1, i2;
      }
      i1 := AllocDesc();
      if i1 < 0 {
        PicksInTurn(free0, i0, |free0|, |free0|);
        Undo(i0, i1, false, free0);
        return false, i0, i1, i2;
      }
      i2 := AllocDesc();
      PicksInTurn(free0, i0, i1, if i2 < 0 then |free0| else i2);
      if i2 < 0 {
        Undo(i0, i1, true, free0);
        return false, i0, i1, i2;
      }
      ok := true;
    }

    /** virtio_disk_rw up to the notification; false when it has to sleep for descriptors. */
    method Submit(b: int) returns (ok: bool)
      requires Inv(View()) && Idle(View(), b)
      modifies this
      ensures ok <==> FreeCount(old(free)) >= 3
      ensures !ok ==> Inv(View()) && View() == old(View()).(desc := desc)
      ensures ok ==> var (i0, i1, i2) := Pick(old(free));
              CanSubmit(old(View()), b, i0, i1, i2) && View() == Virtio.Submit(old(View()), b, i0, i1, i2)
    {
      ghost var v := View();
      PickFinds(free);
      var i0, i1, i2;
      ok, i0, i1, i2 := Alloc3Desc();
      if !ok {
        ScratchDescs(v, View());
        return;
      }
      FillDescs(b, i0, i1, i2, v);
      Publish(b, i0, i1, i2);
    }

    /** The three descriptors are filled in; v is the state before they were allocated. */
    method FillDescs(b: int, i0: int, i1: int, i2: int, ghost v: V)
      requires CanSubmit(v, b, i0, i1, i2)
      requires View() == v.(free := v.free[i0 := false][i1 := false][i2 := false])
      modifies this`desc, this`status, this`busy, this`infoB
      ensures View() == Fill(v, b, i0, i1, i2)
    {
      desc := desc[i0 := Desc(i1, true)];
      desc := desc[i1 := Desc(i2, true)];
      status := status[i0 := 255];
      desc := desc[i2 := Desc(0, false)];
      busy := busy + {b};
      infoB := infoB[i0 := b];
    }

    /** The head goes into the next slot of the avail ring, and then the index moves on. */
    method Publish(b: int, i0: int, ghost i1: int, ghost i2: int)
      requires 0 < |free| == |aring|
      modifies this`aring, this`aidx, this`reqs, this`own, this`availQ
      ensures View() == Offer(old(View()), b, i0, i1, i2)
    {
      aring := aring[RingSlot(aidx, |free|) := i0];
      aidx := (aidx + 1) % WRAP;
      reqs, own := reqs[i0 := Req(i1, i2, b, Queued)], own[i0 := i0][i1 := i0][i2 := i0];
      availQ := availQ + [i0];
    }

    /** One round of virtio_disk_intr's loop: the panic is exactly for a status other than 0. */
    method IntrOne() returns (panic: bool)
      requires Inv(View()) && CanSee(View())
      modifies this
      ensures panic <==> !Succeeded(old(View()))
      ensures panic ==> View() == old(View())
      ensures UsedHead(old(View())) in old(reqs) && 0 <= UsedHead(old(View())) < |old(free)|
      ensures !panic ==> View() == See(old(View())) && Inv(View())
    {
      SeesNext(View());
      var id := uring[usedIdx % |free|];
      if status[id] != 0 {
        return true;
      }
      SeeKeepsInv(View());
      var b := infoB[id];
      busy := busy - {b};
      usedIdx := (usedIdx + 1) % WRAP;
      reqs, seen := reqs[id := reqs[id].(phase := Complete)], seen + 1;
      panic := false;
    }

    /** A round, with what the device still holds. */
    method Round(ghost turns: seq<Turn>, ghost k: int, ghost k': int) returns (panic: bool)
      requires Inv(View()) && usedIdx != uidx && 0 <= k <= k' && Held(View(), turns, k)
      modifies this
      ensures Inv(View()) && reqs.Keys == old(reqs).Keys
      ensures panic ==> CanSee(View()) && !Succeeded(View())
      ensures !panic ==> Held(View(), turns, k') && usedQ == old(usedQ) && seen == old(seen) + 1 <= |usedQ|
    {
      ghost var v := View();
      SeesNext(v);
      panic := IntrOne();
      if !panic {
        HeldAfterRound(v, turns, k, k');
      }
    }

    /** The device finishes a request: the status, the used entry and then the used index. */
    method DeviceReports(h: int, st: int)
      requires Inv(View()) && CanComplete(View(), h)
      modifies this
      ensures View() == Use(old(View()), h, st) && Inv(View())
    {
      UseKeepsInv(View(), h, st);
      status := status[h := st];
      uring := uring[uidx % |free| := h];
      uidx := (uidx + 1) % WRAP;
      reqs, usedQ := reqs[h := reqs[h].(phase := Done(st))], usedQ + [h];
    }

    /**
      * virtio_disk_intr, while the device goes on reporting requests it holds, in any order and with any
      * status, before or between rounds. The handler panics exactly on the first used entry with a status
      * other than 0; otherwise no finished request is left unnoticed when it returns.
      */
    method Intr(turns: seq<Turn>) returns (panic: bool)
      requires Inv(View()) && Held(View(), turns, 0)
      modifies this
      ensures Inv(View()) && reqs.Keys == old(reqs).Keys
      ensures panic ==> CanSee(View()) && !Succeeded(View())
      ensures !panic ==> !CanSee(View()) && forall h | h in reqs :: !reqs[h].phase.Done?
    {
      panic := false;
      var k := 0;
      while k < |turns| || usedIdx != uidx
        invariant 0 <= k <= |turns| && Inv(View()) && Held(View(), turns, k) && !panic && reqs.Keys == old(reqs).Keys
        decreases |turns| - k, |usedQ| - seen
      {
        if k < |turns| && turns[k].Report? {
          HeldAfterReport(View(), turns, k);
          DeviceReports(turns[k].h, turns[k].st);
          k := k + 1;
        } else {
          ghost var k0 := k;
          if k < |turns| {
            k := k + 1;
          }
          if usedIdx == uidx {
            break;
          }
          panic := Round(turns, k0, k);
          if panic {
            return;
          }
        }
      }
      NothingUnseen(View());
    }

    /** free_chain: it follows the links and frees the three descriptors of the chain, no more. */
    method FreeChain(h: int) returns (panic: bool)
      requires Inv(View()) && CanFinish(View(), h)
      modifies this`free, this`desc
      ensures !panic
      ensures var (i1, i2) := (reqs[h].i1, reqs[h].i2);
              && free == old(free)[h := true][i1 := true][i2 := true]
              && desc == old(desc)[h := Desc(0, false)][i1 := Desc(0, false)][i2 := Desc(0, false)]
    {
      ghost var v := View();
      assert ReqOk(v, h) && DescOk(v, h) && DescOk(v, reqs[h].i1) && DescOk(v, reqs[h].i2);
      ghost var ids := [h, reqs[h].i1, reqs[h].i2];
      ghost var k := 0;
      var i := h;
      while true
        invariant 0 <= k <= 2 && i == ids[k] && |desc| == |free| == |v.free|
        invariant free == Freeing(v.free, ids, k) && desc == Clearing(v.desc, ids, k)
        decreases 2 - k
      {
        assert desc[i] == v.desc[i] && !free[i];
        var flag, nxt := desc[i].more, desc[i].next;
        panic := FreeDesc(i);
        if flag {
          i := nxt;
          k := k + 1;
        } else {
          break;
        }
      }
    }

    /** The end of virtio_disk_rw, once b->disk is 0. */
    method Finish(h: int) returns (panic: bool)
      requires Inv(View()) && CanFinish(View(), h)
      modifies this
      ensures !panic && View() == Virtio.Finish(old(View()), h) && Inv(View())
    {
      FinishKeepsInv(View(), h);
      panic := FreeChain(h);
      infoB := infoB[h := NONE];
      own := own - {h, reqs[h].i1, reqs[h].i2};
      reqs := reqs - {h};
    }
  }

  /** The first k of three descriptors given back. */
  ghost function Freeing(free: seq<bool>, ids: seq<int>, k: int): seq<bool>
    requires |ids| == 3 && forall j | 0 <= j < 3 :: 0 <= ids[j] < |free|
  {
    if k <= 0 then free else if k == 1 then free[ids[0] := true] else free[ids[0] := true][ids[1] := true]
  }

  ghost function Clearing(desc: seq<Desc>, ids: seq<int>, k: int): seq<Desc>
    requires |ids| == 3 && forall j | 0 <= j < 3 :: 0 <= ids[j] < |desc|
  {
    if k <= 0 then desc
    else if k == 1 then desc[ids[0] := Desc(0, false)]
    else desc[ids[0] := Desc(0, false)][ids[1] := Desc(0, false)]
  }

  /** What a failed allocation leaves in free descriptors matters to nobody. */
  lemma ScratchDescs(v: V, n: V)
    requires Inv(v) && n == v.(desc := n.desc) && |n.desc| == |v.desc|
    requires forall d | 0 <= d < |v.desc| && !v.free[d] :: n.desc[d] == v.desc[d]
    ensures Inv(n)
  {
    forall h ensures ReqOk(n, h) {
      assert ReqOk(v, h);
      if h in v.reqs {
        assert DescOk(v, h) && DescOk(v, v.reqs[h].i1) && DescOk(v, v.reqs[h].i2);
      }
    }
    forall d ensures DescOk(n, d) {
      assert DescOk(v, d);
    }
    forall h, g ensures BuffersApart(n, h, g) && AvailApart(n, h, g) && UsedApart(n, h, g) {
      assert BuffersApart(v, h, g) && AvailApart(v, h, g) && UsedApart(v, h, g);
    }
    forall k ensures AvailOk(n, k) && UsedOk(n, k) {
      assert AvailOk(v, k) && UsedOk(v, k);
    }
    forall b ensures BusyOk(n, b) {
      assert BusyOk(v, b);
    }
    forall h ensures Listed(n, h) {
      ListedKept(v, n, h);
    }
  }
}
