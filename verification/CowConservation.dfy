/**
 Page conservation over every run of the kernel from the memory kinit leaves: forks, stores, copyouts
 of any length, growth, unmapping, kalloc and kfree, in any order, with running out of memory and with
 processes that are killed.
 */
module CowConservation {
  import opened CowMemory
  import opened CowFork
  import opened CowRun
  import opened CowInvisible

  /**
   What callers owe the kernel: fork's child is empty and its parent mapped up to its size, uvmunmap is
   given mapped pages, uvmalloc unmapped ones, and kfree a page the caller holds.
   */
  ghost predicate Possible(m: Mem, a: Action) {
    match a
    case Fork(parent, child, n, need) => CopyReady(m, parent, child, 0, n) && |need| == n
    case StoreByte(_, off, _) => off < m.pgsize
    case CopyToUser(_, off, _) => off < m.pgsize
    case Shrink(pid, i, k) => i <= k && Mapped(m, pid, i, k)
    case Grow(pid, first, n, tables, _) =>
      GrowReady(m, pid, first, first, n) && forall v | first <= v < n :: v in tables
    case TakePage => true
    case GivePage(p) => m.kernel[p] > 0
  }

  /** The memory after one action; a store that kills its process leaves the memory alone. */
  ghost function Step(m: Mem, a: Action): Mem
    requires Inv(m) && Possible(m, a)
  {
    match a
    case Fork(parent, child, n, need) => CopyLoop(m, parent, child, 0, n, need).0
    case StoreByte(s, off, b) => (match Store(m, s, off, b) case None => m case Some(n) => n)
    case CopyToUser(s, off, src) => Copyout(m, s, off, src).0
    case Shrink(pid, i, k) => UnmapRange(m, pid, i, k)
    case Grow(pid, first, n, tables, w) => GrowLoop(m, pid, first, first, n, tables, w).0
    case TakePage =>
      if m.free == [] then m
      else
        FreeHead(m);
        Kalloc(m)
    case GivePage(p) =>
      FreeKernelKeepsInv(m, p);
      FreeKernel(m, p)
  }

  lemma StepKeepsInv(m: Mem, a: Action)
    requires Inv(m) && Possible(m, a)
    ensures Inv(Step(m, a))
  {
    match a
    case Fork(_, _, _, _) =>
    case StoreByte(s, off, b) =>
      if Store(m, s, off, b).Some? {
        StoreKeeps(m, s, off, b);
      }
    case CopyToUser(s, off, src) => CopyoutKeepsInv(m, s, off, src);
    case Shrink(pid, i, k) => UnmapRangeRemoves(m, pid, i, k);
    case Grow(pid, first, n, tables, w) => var _, _ := GrowLoopResult(m, pid, first, first, n, tables, w);
    case TakePage =>
      if m.free != [] {
        KallocKeepsInv(m);
      }
    case GivePage(p) => FreeKernelKeepsInv(m, p);
  }

  /** A copyout of any length keeps the invariant, also one that fails half-way. */
  lemma CopyoutKeepsInv(m: Mem, s: Slot, off: nat, src: seq<int>)
    requires Inv(m) && off < m.pgsize
    ensures Inv(Copyout(m, s, off, src).0)
  {
    if s in m.pt && m.free != [] {
      ResolveMakesPrivate(m, s);
    }
  }

  /** The memory after `acts`; None if a caller did not keep to Possible. */
  ghost function After(m: Mem, acts: seq<Action>): Option<Mem>
    requires Inv(m)
    decreases |acts|
  {
    if acts == [] then Some(m)
    else if !Possible(m, acts[0]) then None
    else
      StepKeepsInv(m, acts[0]);
      After(Step(m, acts[0]), acts[1..])
  }

  lemma {:induction false} AfterKeepsInv(m: Mem, acts: seq<Action>)
    requires Inv(m) && After(m, acts).Some?
    ensures Inv(After(m, acts).value)
    decreases |acts|
  {
    if acts != [] {
      StepKeepsInv(m, acts[0]);
      AfterKeepsInv(Step(m, acts[0]), acts[1..]);
    }
  }

  /**
   In every state a run from kinit reaches: each count is the page's leaf mappings plus the kernel's
   references, the free list holds exactly the pages with count 0 and each once, and none of the panics
   of kalloc and kfree can happen next. When everything has been given back, every page is free again.
   */
  lemma ConservedInEveryRun(m: Mem, acts: seq<Action>)
    requires Booted(m)
    ensures Inv(m)
    ensures After(m, acts).Some? ==>
              var n := After(m, acts).value;
              && (forall p: nat | Managed(n, p) ::
                    n.refs[p] == |Owners(n.pt, p)| + n.kernel[p] && (n.refs[p] == 0 <==> p in n.free))
              && (forall i, j | 0 <= i < j < |n.free| :: n.free[i] != n.free[j])
              && !KallocPanics(n)
              && (forall s | s in n.pt :: !KfreePanics(n, n.pt[s].pa))
              && (forall p: nat | n.kernel[p] > 0 :: !KfreePanics(n, p))
              && (n.pt == map[] && n.kernel == multiset{} ==> Booted(n))
  {
    BootedInv(m);
    if After(m, acts).Some? {
      AfterKeepsInv(m, acts);
      InvConserves(After(m, acts).value);
    }
  }

  /** What the invariant says of the next kalloc or kfree. */
  lemma InvConserves(n: Mem)
    requires Inv(n)
    ensures forall p: nat | Managed(n, p) ::
              n.refs[p] == |Owners(n.pt, p)| + n.kernel[p] && (n.refs[p] == 0 <==> p in n.free)
    ensures !KallocPanics(n)
    ensures forall s | s in n.pt :: !KfreePanics(n, n.pt[s].pa)
    ensures forall p: nat | n.kernel[p] > 0 :: !KfreePanics(n, p)
    ensures n.pt == map[] && n.kernel == multiset{} ==> Booted(n)
  {
    forall p: nat | Managed(n, p)
      ensures n.refs[p] == |Owners(n.pt, p)| + n.kernel[p] && (n.refs[p] == 0 <==> p in n.free)
      ensures |n.data[p]| == n.pgsize
      ensures n.pt == map[] ==> Owners(n.pt, p) == {}
    {
      assert FrameOk(n, p);
    }
    if n.free != [] {
      FreeHead(n);
    }
    forall s | s in n.pt ensures !KfreePanics(n, n.pt[s].pa) {
      MappedFrame(n, s);
    }
    forall p: nat | n.kernel[p] > 0 ensures !KfreePanics(n, p) {
      FreeKernelKeepsInv(n, p);
    }
  }
}
