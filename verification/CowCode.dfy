/**
 The code of kernel/kalloc.c and of the copy-on-write paths of kernel/vm.c and kernel/trap.c,
 updating its tables in place. Each method is proved to do what the step of the same name in
 CowMemory, CowFork or CowRun says, so the results about runs apply to it.
 */
module CowCode {
  import opened CowMemory
  import opened CowFork
  import opened CowRun

  /** A uvmalloc under way: in state m, about to map page i. */
  datatype Growing = Growing(m: Mem, i: int)

  /** From here on uvmalloc ends in target. */
  ghost predicate Leads(g: Growing, pid: int, first: int, n: int, need: map<int, nat>, w: bool, target: (Mem, bool)) {
    && GrowReady(g.m, pid, first, g.i, n) && (forall v | first <= v < n :: v in need)
    && GrowLoop(g.m, pid, first, g.i, n, need, w) == target
  }

  class Memory {
    const lo: nat               // frame number of `end`, rounded up
    const pgsize: nat
    var refs: seq<int>          // refs[PHYSTOP / PGSIZE]
    var free: seq<nat>          // kmem.freelist, head first
    var data: seq<Page>
    var pt: map<Slot, Pte>
    ghost var kernel: multiset<nat>

    ghost function View(): Mem
      reads this
    {
      Mem(lo, pgsize, refs, free, data, pt, kernel)
    }

    /** kinit: freerange counts each page once and kfrees it; frame numbers below `top` exist. */
    constructor (first: nat, top: nat, size: nat, ram: seq<Page>)
      requires |ram| == top && forall p | 0 <= p < top :: |ram[p]| == size
      ensures Booted(View()) && lo == first && pgsize == size && |refs| == top
    {
      lo := first;
      pgsize := size;
      refs := seq(top, i => 0);
      free := [];
      data := ram;
      pt := map[];
      kernel := multiset{};
      new;
      var p := first;
      while p < top
        invariant first <= p <= top || p == first > top
        invariant pt == map[] && kernel == multiset{} && |refs| == |data| == top
        invariant forall q | 0 <= q < top :: |data[q]| == size && refs[q] == 0
        invariant forall i | 0 <= i < |free| :: first <= free[i] < p && free[i] < top
        invariant forall i, j | 0 <= i < j < |free| :: free[i] != free[j]
        invariant forall q: nat | first <= q < p && q < top :: q in free
      {
        refs := refs[p := refs[p] + 1];
        var panic := Kfree(p);
        p := p + 1;
      }
    }

    method IncRef(p: nat) returns (panic: bool)
      modifies this`refs
      ensures panic <==> p >= |old(refs)|
      ensures refs == if panic then old(refs) else old(refs)[p := old(refs)[p] + 1]
    {
      if p >= |refs| {
        return true;
      }
      refs := refs[p := refs[p] + 1];
      panic := false;
    }

    method Kfree(p: nat) returns (panic: bool)
      requires |refs| == |data|
      modifies this`refs, this`free, this`data
      ensures panic <==> KfreePanics(old(View()), p)
      ensures panic <==> p < lo || p >= |old(refs)| || old(refs)[p] <= 0
      ensures !panic ==> refs == old(refs)[p := old(refs)[p] - 1]
      ensures !panic && old(refs)[p] == 1 ==> free == [p] + old(free) && data == old(data)[p := seq(pgsize, i => 1)]
      ensures panic || old(refs)[p] > 1 ==> free == old(free) && data == old(data)
      ensures View() == if panic then old(View()) else CowMemory.Kfree(old(View()), p)
    {
      if p < lo || p >= |refs| {
        return true;
      }
      if refs[p] <= 0 {
        return true;
      }
      refs := refs[p := refs[p] - 1];
      if refs[p] == 0 {
        data := data[p := seq(pgsize, i => 1)];
        free := [p] + free;
      }
      panic := false;
    }

    /** kalloc(); None when the free list is empty. The new reference belongs to the caller. */
    method Kalloc() returns (r: Option<nat>, panic: bool)
      requires |refs| == |data| && forall i | 0 <= i < |free| :: free[i] < |refs|
      modifies this`refs, this`free, this`data, this`kernel
      ensures panic <==> KallocPanics(old(View()))
      ensures r == None <==> old(free) == [] || panic
      ensures r.Some? ==> r.value == old(free)[0] && View() == CowMemory.Kalloc(old(View()))
      ensures r.Some? ==>
                && free == old(free)[1..] && old(refs)[r.value] == 0 && refs == old(refs)[r.value := 1]
                && data == old(data)[r.value := seq(pgsize, i => 5)]
      ensures old(free) == [] ==> View() == old(View())
    {
      if free == [] {
        return None, false;
      }
      var p := free[0];
      free := free[1..];
      if refs[p] != 0 {
        return None, true;
      }
      refs := refs[p := 1];
      data := data[p := seq(pgsize, i => 5)];
      kernel := kernel + multiset{p};
      r, panic := Some(p), false;
    }

    /** The page-table pages walk() allocates for one mapping. */
    method AllocTables(k: nat) returns (ok: bool)
      requires Inv(View())
      modifies this`refs, this`free, this`data, this`kernel
      ensures (View(), ok) == CowFork.AllocTables(old(View()), k)
    {
      var i := 0;
      while i < k
        invariant 0 <= i <= k && Inv(View())
        invariant CowFork.AllocTables(View(), k - i) == CowFork.AllocTables(old(View()), k)
      {
        if free != [] {
          FreeHead(View());
          KallocKeepsInv(View());
        }
        var r, panic := Kalloc();
        if r == None {
          return false;
        }
        i := i + 1;
      }
      ok := true;
    }

    /** One round of uvmunmap: kfree the frame, then clear the PTE. */
    method UnmapPage(s: Slot)
      requires Inv(View()) && s in pt && pt[s].pa < |refs| == |data|
      modifies this`refs, this`free, this`data, this`pt
      ensures View() == Unmap(old(View()), s)
    {
      MappedFrame(View(), s);
      var panic := Kfree(pt[s].pa);
      pt := pt - {s};
    }

    /** uvmunmap of pages i .. k-1 with do_free set. */
    method Uvmunmap(pid: int, i: int, k: int)
      requires Inv(View()) && i <= k && Mapped(View(), pid, i, k)
      modifies this`refs, this`free, this`data, this`pt
      ensures View() == UnmapRange(old(View()), pid, i, k)
    {
      ghost var m := View();
      var a := i;
      while a < k
        invariant i <= a <= k
        invariant View() == UnmapRange(m, pid, i, a)
      {
        UnmapRangeNext(m, pid, i, a);
        UnmapPage(Slot(pid, a));
        a := a + 1;
      }
    }

    /** One round of uvmcopy, up to and including mappages: false if a page-table page is missing. */
    method PrepareShare(s: Slot, k: nat) returns (ok: bool)
      requires Inv(View()) && s in pt && Inv(Downgrade(View(), s))
      modifies this
      ensures (View(), ok) == CowFork.AllocTables(Downgrade(old(View()), s), k)
    {
      pt := pt[s := pt[s].(w := false, cow := true)];
      ok := AllocTables(k);
    }

    method Share(s: Slot, t: Slot)
      requires s in pt && pt[s].pa < |refs|
      modifies this`pt, this`refs
      ensures View() == Link(old(View()), s, t)
    {
      var pa := pt[s].pa;
      pt := pt[t := pt[s]];
      var panic := IncRef(pa);
    }

    /** uvmcopy: share pages 0 .. n-1 of the parent with the child, or undo and report failure. */
    method Uvmcopy(parent: int, child: int, n: int, need: seq<nat>) returns (ok: bool)
      requires CopyReady(View(), parent, child, 0, n) && |need| == n
      modifies this
      ensures (View(), ok) == CopyLoop(old(View()), parent, child, 0, n, need)
      ensures ok <==> Tables(need, 0, n) <= |old(free)|
      ensures |free| == if ok then |old(free)| - Tables(need, 0, n) else 0
      ensures SharedPages(old(View()), View(), ok, parent, child, n)
    {
      CopyOutcome(View(), parent, child, n, need);
      var i := 0;
      while i < n
        invariant CopyReady(View(), parent, child, i, n)
        invariant CopyLoop(View(), parent, child, i, n, need) == CopyLoop(old(View()), parent, child, 0, n, need)
        decreases n - i
      {
        ghost var m := View();
        RoundTables(m, parent, child, i, n, need[i]);
        var mapped := PrepareShare(Slot(parent, i), need[i]);
        if mapped {
          CopyLink(View(), parent, child, i, n);
        }
        CopyLoopUnfolds(m, parent, child, i, n, need, View(), mapped);
        if !mapped {
          Uvmunmap(child, 0, i);
          return false;
        }
        Share(Slot(parent, i), Slot(child, i));
        i := i + 1;
      }
      ok := true;
    }

    /** One round of uvmalloc: a zeroed page and the page-table pages it needs. */
    method PrepareGrow(k: nat) returns (p: nat, ok: bool)
      requires Inv(View()) && free != []
      modifies this`refs, this`free, this`data, this`kernel
      ensures p == old(free)[0] && p < |old(refs)| && |old(refs)| == |old(data)| && Inv(KallocZeroed(old(View())))
      ensures (View(), ok) == CowFork.AllocTables(KallocZeroed(old(View())), k)
      ensures p < |data| && data[p] == Zero(View())
    {
      ghost var m := View();
      FreeHead(m);
      KallocZeroedKeepsInv(m);
      var r, panic := Kalloc();
      p := r.value;
      data := data[p := seq(pgsize, i => 0)];
      assert View().data == m.data[p := Zero(m)];
      AllocTablesData(View(), k, p);
      AllocTablesKeeps(View(), k);
      ok := AllocTables(k);
    }

    /** kfree of the new page, then uvmdealloc of the pages mapped so far. */
    method AbandonGrow(pid: int, first: int, i: int, n: int, p: nat)
      requires GrowReady(View(), pid, first, i, n) && Fresh(View(), p)
      modifies this
      ensures p < |old(refs)| && |old(refs)| == |old(data)|
      ensures View() == UnmapRange(FreeKernel(old(View()), p), pid, first, i)
    {
      GrowGiveUp(View(), pid, first, i, n, p);
      GiveBack(p);
      Uvmunmap(pid, first, i);
    }

    /** One round of uvmalloc; false means the whole call has failed and undone itself. */
    method GrowPage(pid: int, first: int, i: int, n: int, need: map<int, nat>, w: bool,
                    ghost g: Growing, ghost target: (Mem, bool))
      returns (ghost g': Growing, ok: bool)
      requires g == Growing(View(), i) && Leads(g, pid, first, n, need, w, target) && i < n
      modifies this
      ensures g'.m == View()
      ensures !ok ==> target == (g'.m, false)
      ensures ok ==> g'.i == i + 1 && Leads(g', pid, first, n, need, w, target)
    {
      ghost var m := g.m;
      if free == [] {
        Uvmunmap(pid, first, i);
        return Growing(View(), i), false;
      }
      GrowTables(m, pid, first, i, n, need[i]);
      var p;
      p, ok := PrepareGrow(need[i]);
      ghost var m2 := View();
      if !ok {
        GrowGiveUp(m2, pid, first, i, n, p);
        GrowLoopUnfolds(m, pid, first, i, n, need, w, m2, false);
        AbandonGrow(pid, first, i, n, p);
        return Growing(View(), i), false;
      }
      GrowMap(m2, pid, first, i, n, p, w);
      GrowLoopUnfolds(m, pid, first, i, n, need, w, m2, true);
      MapPage(Slot(pid, i), p, w);
      g' := Growing(View(), i + 1);
    }

    /** uvmalloc of pages first .. n-1; every error path gives all of them back. */
    method Uvmalloc(pid: int, first: int, n: int, need: map<int, nat>, w: bool) returns (ok: bool)
      requires GrowReady(View(), pid, first, first, n) && forall v | first <= v < n :: v in need
      modifies this
      ensures (View(), ok) == GrowLoop(old(View()), pid, first, first, n, need, w)
      ensures ok <==> Pages(need, first, n) <= |old(free)|
      ensures ok ==> |free| == |old(free)| - Pages(need, first, n)
      ensures ok ==> forall v | first <= v < n :: Slot(pid, v) in pt && Grown(pt[Slot(pid, v)], w)
      ensures !ok ==> pt == old(pt)
    {
      ghost var _, _ := GrowLoopResult(View(), pid, first, first, n, need, w);
      if !GrowLoop(View(), pid, first, first, n, need, w).1 {
        FailedGrowRestores(View(), pid, first, n, need, w);
      }
      var i := first;
      ghost var g := Growing(View(), i);
      ghost var target := GrowLoop(View(), pid, first, first, n, need, w);
      ok := true;
      while i < n
        invariant g.m == View() && g.i == i && ok
        invariant Leads(g, pid, first, n, need, w, target)
        decreases n - i
      {
        g, ok := GrowPage(pid, first, i, n, need, w, g, target);
        if !ok {
          return;
        }
        i := i + 1;
      }
    }

    /** kfree of a page the kernel still held. */
    method GiveBack(p: nat)
      requires Inv(View()) && kernel[p] > 0
      modifies this`refs, this`free, this`data, this`kernel
      ensures p < |old(refs)| && |old(refs)| == |old(data)| && View() == FreeKernel(old(View()), p)
    {
      FreeKernelKeepsInv(View(), p);
      var panic := Kfree(p);
      kernel := kernel - multiset{p};
    }

    /** mappages of a page that is already zeroed. */
    method MapPage(s: Slot, p: nat, w: bool)
      requires p < |data| && data[p] == Zero(View())
      modifies this`pt, this`kernel
      ensures View() == MapFresh(old(View()), s, p, Zero(old(View())), w)
    {
      pt := pt[s := Pte(p, w, false, true)];
      kernel := kernel - multiset{p};
    }

    /** The store-fault branch of usertrap; false means setkilled and exit. */
    method HandleStoreFault(s: Slot, off: nat) returns (alive: bool)
      requires Inv(View())
      modifies this
      ensures alive <==> StoreFault(old(View()), s, off).Some?
      ensures alive <==>
                && !(s.vpn == 0 && off == 0) && s in old(pt) && old(free) != []
                && old(pt)[s].cow && !old(pt)[s].w && old(pt)[s].u
      ensures alive ==> pt == old(pt)[s := Pte(old(free)[0], true, false, true)]
      ensures View() == if alive then StoreFault(old(View()), s, off).value else old(View())
    {
      if s.vpn == 0 && off == 0 {
        return false;
      }
      if s !in pt {
        return false;
      }
      if !pt[s].w && !pt[s].cow {
        return false;
      }
      if pt[s].w || !pt[s].u {
        return false;
      }
      alive := Privatise(s);
    }

    /** kalloc a page, copy the old one into it, point the PTE at it, kfree the old one. */
    method Privatise(s: Slot) returns (ok: bool)
      requires Inv(View()) && s in pt
      modifies this
      ensures ok <==> old(free) != []
      ensures ok ==> pt == old(pt)[s := Pte(old(free)[0], true, false, true)]
      ensures ok ==> old(free)[0] < |old(refs)| && old(pt)[s].pa < |old(refs)|
      ensures ok ==> View() == Resolve(CowMemory.Kalloc(old(View())), s, old(free)[0])
      ensures !ok ==> View() == old(View())
    {
      ghost var m := View();
      if free != [] {
        FreeHead(m);
        KallocKeepsInv(m);
      }
      MappedFrame(m, s);
      var r, panic := Kalloc();
      if r == None {
        return false;
      }
      ghost var m1 := View();
      ResolveKeepsInv(m1, s, r.value);
      var old_ := pt[s].pa;
      data := data[r.value := data[old_]];
      pt := pt[s := Pte(r.value, true, false, true)];
      kernel := kernel - multiset{r.value};
      panic := Kfree(old_);
      ok := true;
    }

    method CopyoutToUser(s: Slot, off: nat, src: seq<int>) returns (ok: bool)
      requires Inv(View()) && off < pgsize
      modifies this
      ensures (View(), ok) == Copyout(old(View()), s, off, src)
    {
      if s.vpn == 0 || s !in pt {
        return false;
      }
      if !pt[s].w && !pt[s].cow {
        return false;
      }
      if !pt[s].u {
        return false;
      }
      if free != [] {
        ResolveMakesPrivate(View(), s);
      }
      ok := Privatise(s);
      if !ok {
        return;
      }
      ok := CopyLoopToUser(s, off, src);
    }

    /** The while loop of copyout. */
    method CopyLoopToUser(s: Slot, off: nat, src: seq<int>) returns (ok: bool)
      requires Inv(View()) && off < pgsize
      modifies this`data
      ensures (View(), ok) == CopyBytes(old(View()), s, off, src)
    {
      var t := s;
      var o: nat := off;
      var rest := src;
      while rest != []
        invariant Inv(View()) && o < pgsize
        invariant CopyBytes(View(), t, o, rest) == CopyBytes(old(View()), s, off, src)
        decreases |rest|
      {
        if t !in pt || !pt[t].u {
          return false;
        }
        ghost var m := View();
        var n := Min(pgsize - o, |rest|);
        MappedFrame(m, t);
        var page := Splice(data[pt[t].pa], o, rest[..n]);
        PokeKeepsInv(m, t, page);
        data := data[pt[t].pa := page];
        assert View() == Poke(m, t, page);
        t, o, rest := Slot(t.pid, t.vpn + 1), 0, rest[n..];
      }
      ok := true;
    }
  }
}
