/**
 Copy-on-write memory: the page allocator of kernel/kalloc.c with its reference counts, the user
 mappings of kernel/vm.c, and the store-fault branch of usertrap in kernel/trap.c.

 The leaf PTEs of all processes form one map from (process, virtual page) to PTE; PageTable.dfy
 shows that each three-level tree is such a map. References that are not leaf mappings, such as
 those to page-table pages and trapframes, are the multiset `kernel`.
 */
module CowMemory {

  type Page = seq<int>

  datatype Option<T> = None | Some(value: T)

  /** Virtual page `vpn` of process `pid`. */
  datatype Slot = Slot(pid: int, vpn: int)

  /** A valid leaf PTE: frame number, PTE_W, PTE_COW and PTE_U. */
  datatype Pte = Pte(pa: nat, w: bool, cow: bool, u: bool)

  /** Frames lo .. |refs|-1 are managed (those from `end` to PHYSTOP); a page has `pgsize` bytes. */
  datatype Mem = Mem(
    lo: nat,
    pgsize: nat,
    refs: seq<int>,
    free: seq<nat>,
    data: seq<Page>,
    pt: map<Slot, Pte>,
    kernel: multiset<nat>)

  predicate Managed(m: Mem, p: nat) {
    m.lo <= p < |m.refs| == |m.data|
  }

  /** What a process reads at a mapped page. */
  function Reads(m: Mem, s: Slot): Page {
    if s in m.pt && m.pt[s].pa < |m.data| then m.data[m.pt[s].pa] else []
  }

  // The invariant

  /** The leaf mappings of frame p, over all processes. */
  ghost function Owners(pt: map<Slot, Pte>, p: nat): set<Slot> {
    set s | s in pt && pt[s].pa == p
  }

  /**
   Page conservation at frame p: its count is its leaf mappings plus the kernel's references,
   and it is on the free list exactly when that is 0.
   */
  ghost predicate FrameOk(m: Mem, p: nat) {
    && (m.kernel[p] > 0 ==> Managed(m, p))
    && (Managed(m, p) ==>
          && |m.data[p]| == m.pgsize
          && m.refs[p] == |Owners(m.pt, p)| + m.kernel[p]
          && (m.refs[p] == 0 <==> p in m.free))
  }

  /** Slot s is the only reference to its frame. */
  ghost predicate Private(m: Mem, s: Slot)
    requires s in m.pt
  {
    Owners(m.pt, m.pt[s].pa) == {s} && m.kernel[m.pt[s].pa] == 0
  }

  /** A mapping has a managed frame; with PTE_W it is the only mapping of that frame. */
  ghost predicate SlotOk(m: Mem, s: Slot) {
    s in m.pt ==> Managed(m, m.pt[s].pa) && (m.pt[s].w ==> Private(m, s) && !m.pt[s].cow)
  }

  /** No process maps one frame at two addresses. */
  ghost predicate NoAlias(pt: map<Slot, Pte>, s: Slot, t: Slot) {
    s in pt && t in pt && s.pid == t.pid && s != t ==> pt[s].pa != pt[t].pa
  }

  /** The free list has no duplicates and holds managed frames only. */
  ghost predicate FreeList(m: Mem) {
    && (forall i, j | 0 <= i < j < |m.free| :: m.free[i] != m.free[j])
    && (forall i | 0 <= i < |m.free| :: Managed(m, m.free[i]))
  }

  ghost predicate Inv(m: Mem) {
    && |m.data| == |m.refs|
    && FreeList(m)
    && (forall p: nat :: FrameOk(m, p))
    && (forall s :: SlotOk(m, s))
    && (forall s, t :: NoAlias(m.pt, s, t))
  }

  /** The memory kinit leaves: every managed frame on the free list, nothing mapped or held. */
  ghost predicate Booted(m: Mem) {
    && |m.data| == |m.refs| && FreeList(m) && m.pt == map[] && m.kernel == multiset{}
    && forall p: nat | Managed(m, p) :: p in m.free && m.refs[p] == 0 && |m.data[p]| == m.pgsize
  }

  lemma BootedInv(m: Mem)
    requires Booted(m)
    ensures Inv(m)
  {
    forall p: nat ensures FrameOk(m, p) {
      assert Owners(m.pt, p) == {};
    }
  }

  // Owners

  lemma OwnersRemove(pt: map<Slot, Pte>, s: Slot, p: nat)
    requires s in pt
    ensures Owners(pt - {s}, p) == Owners(pt, p) - {s}
    ensures s in Owners(pt, p) <==> pt[s].pa == p
  {
  }

  lemma OwnersSet(pt: map<Slot, Pte>, s: Slot, pte: Pte, p: nat)
    ensures Owners(pt[s := pte], p) == Owners(pt, p) - {s} + (if pte.pa == p then {s} else {})
    ensures s in Owners(pt, p) <==> s in pt && pt[s].pa == p
  {
  }

  lemma SharedIsNotPrivate(m: Mem, s: Slot, t: Slot)
    requires s in m.pt && t in m.pt && Private(m, s) && m.pt[t].pa == m.pt[s].pa
    ensures t == s
  {
    assert t in Owners(m.pt, m.pt[s].pa);
  }

  /** A mapped frame is managed and has a positive count, so kfree of it does not panic. */
  lemma MappedFrame(m: Mem, s: Slot)
    requires Inv(m) && s in m.pt
    ensures Managed(m, m.pt[s].pa) && m.refs[m.pt[s].pa] >= 1
    ensures m.refs[m.pt[s].pa] == 1 ==> Private(m, s)
    ensures |Reads(m, s)| == m.pgsize
  {
    assert SlotOk(m, s) && FrameOk(m, m.pt[s].pa);
    var o := Owners(m.pt, m.pt[s].pa);
    assert s in o;
    assert |o - {s}| == |o| - 1;
    if m.refs[m.pt[s].pa] == 1 {
      assert o - {s} == {};
      assert o == {s};
    }
  }

  lemma Unmapped(m: Mem, p: nat)
    requires Inv(m) && Managed(m, p) && m.refs[p] == m.kernel[p]
    ensures Owners(m.pt, p) == {}
    ensures forall s | s in m.pt :: m.pt[s].pa != p
  {
    assert FrameOk(m, p);
    forall s | s in m.pt ensures m.pt[s].pa != p {
      assert m.pt[s].pa == p ==> s in Owners(m.pt, p);
    }
  }

  // kalloc and kfree

  function Junk(m: Mem, b: int): (r: Page)
    ensures |r| == m.pgsize
  {
    seq(m.pgsize, i => b)
  }

  /** kalloc() when the free list is not empty; the caller holds the new reference. */
  function Kalloc(m: Mem): Mem
    requires |m.free| > 0 && m.free[0] < |m.refs| == |m.data|
  {
    var p := m.free[0];
    m.(refs := m.refs[p := 1], free := m.free[1..], data := m.data[p := Junk(m, 5)],
       kernel := m.kernel + multiset{p})
  }

  /** kfree(p) without its panics: drop one reference, and free the frame with the last one. */
  function Kfree(m: Mem, p: nat): Mem
    requires p < |m.refs| == |m.data|
  {
    if m.refs[p] == 1 then
      m.(refs := m.refs[p := 0], free := [p] + m.free, data := m.data[p := Junk(m, 1)])
    else
      m.(refs := m.refs[p := m.refs[p] - 1])
  }

  /** kalloc panics if the page it takes still has references. */
  ghost predicate KallocPanics(m: Mem) {
    m.free != [] && m.free[0] < |m.refs| && m.refs[m.free[0]] != 0
  }

  /** kfree panics on a page that is not managed, and on one without references. */
  ghost predicate KfreePanics(m: Mem, p: nat) {
    !Managed(m, p) || m.refs[p] <= 0
  }

  /** The head of the free list is a managed frame that nothing refers to: kalloc's panic is unreachable. */
  lemma FreeHead(m: Mem)
    requires Inv(m) && m.free != []
    ensures Managed(m, m.free[0]) && m.refs[m.free[0]] == 0 && m.kernel[m.free[0]] == 0
    ensures Owners(m.pt, m.free[0]) == {}
    ensures forall s | s in m.pt :: m.pt[s].pa != m.free[0]
  {
    var p := m.free[0];
    assert FrameOk(m, p);
    Unmapped(m, p);
  }

  lemma KallocFrames(m: Mem, q: nat)
    requires Inv(m) && m.free != []
    ensures m.free[0] < |m.refs| && FrameOk(Kalloc(m), q)
  {
    FreeHead(m);
    assert FrameOk(m, q);
    var n := Kalloc(m);
    assert q in m.free && q != m.free[0] ==> q in n.free;
  }

  lemma KallocSlots(m: Mem, s: Slot)
    requires Inv(m) && m.free != []
    ensures m.free[0] < |m.refs| && SlotOk(Kalloc(m), s)
    ensures Reads(Kalloc(m), s) == Reads(m, s)
  {
    FreeHead(m);
    assert SlotOk(m, s);
  }

  lemma KallocKeepsInv(m: Mem)
    requires Inv(m) && m.free != []
    ensures m.free[0] < |m.refs| && Inv(Kalloc(m))
    ensures forall s :: Reads(Kalloc(m), s) == Reads(m, s)
    ensures Fresh(Kalloc(m), m.free[0])
  {
    FreeHead(m);
    var n := Kalloc(m);
    forall q: nat ensures FrameOk(n, q) {
      KallocFrames(m, q);
    }
    forall s ensures SlotOk(n, s) && Reads(n, s) == Reads(m, s) {
      KallocSlots(m, s);
    }
    forall s, t ensures NoAlias(n.pt, s, t) {
      assert NoAlias(m.pt, s, t);
    }
  }

  /** Frame p has one reference, held by the kernel: what kalloc() has just returned. */
  ghost predicate Fresh(m: Mem, p: nat) {
    Managed(m, p) && m.refs[p] == 1 && m.kernel[p] == 1
  }

  /** kfree keeps the free list free of duplicates. */
  lemma KfreeFreeList(m: Mem, p: nat)
    requires |m.refs| == |m.data| && FreeList(m) && Managed(m, p) && m.refs[p] > 0
    requires p !in m.free
    ensures FreeList(Kfree(m, p))
  {
  }

  /** kfree of a reference the kernel held. */
  function FreeKernel(m: Mem, p: nat): Mem
    requires p < |m.refs| == |m.data|
  {
    Kfree(m, p).(kernel := m.kernel - multiset{p})
  }

  lemma FreeKernelSlots(m: Mem, p: nat, s: Slot)
    requires Inv(m) && m.kernel[p] > 0 && Managed(m, p)
    ensures SlotOk(FreeKernel(m, p), s) && Reads(FreeKernel(m, p), s) == Reads(m, s)
  {
    assert SlotOk(m, s) && FrameOk(m, p);
    if m.refs[p] == 1 {
      Unmapped(m, p);
    }
  }

  lemma FreeKernelFrames(m: Mem, p: nat, q: nat)
    requires Inv(m) && m.kernel[p] > 0 && Managed(m, p)
    ensures FrameOk(FreeKernel(m, p), q)
  {
    assert FrameOk(m, q) && FrameOk(m, p);
  }

  lemma FreeKernelKeepsInv(m: Mem, p: nat)
    requires Inv(m) && m.kernel[p] > 0
    ensures Managed(m, p) && m.refs[p] > 0   // so neither panic of kfree is reachable
    ensures Inv(FreeKernel(m, p))
    ensures forall s :: Reads(FreeKernel(m, p), s) == Reads(m, s)
  {
    assert FrameOk(m, p);
    var n := FreeKernel(m, p);
    KfreeFreeList(m, p);
    forall q: nat ensures FrameOk(n, q) {
      FreeKernelFrames(m, p, q);
    }
    forall s ensures SlotOk(n, s) && Reads(n, s) == Reads(m, s) {
      FreeKernelSlots(m, p, s);
    }
    forall s, t ensures NoAlias(n.pt, s, t) {
      assert NoAlias(m.pt, s, t);
    }
  }

  // Leaf mappings come and go

  /** uvmunmap of one page with do_free. */
  function Unmap(m: Mem, s: Slot): Mem
    requires s in m.pt && m.pt[s].pa < |m.refs| == |m.data|
  {
    Kfree(m, m.pt[s].pa).(pt := m.pt - {s})
  }

  lemma UnmapFrames(m: Mem, s: Slot, q: nat)
    requires Inv(m) && s in m.pt
    ensures Managed(m, m.pt[s].pa) && FrameOk(Unmap(m, s), q)
  {
    MappedFrame(m, s);
    assert FrameOk(m, q) && FrameOk(m, m.pt[s].pa);
    OwnersRemove(m.pt, s, q);
  }

  lemma UnmapSlots(m: Mem, s: Slot, t: Slot)
    requires Inv(m) && s in m.pt
    ensures Managed(m, m.pt[s].pa) && SlotOk(Unmap(m, s), t)
    ensures t != s ==> Reads(Unmap(m, s), t) == Reads(m, t)
  {
    MappedFrame(m, s);
    assert SlotOk(m, t);
    if t != s && t in m.pt {
      OwnersRemove(m.pt, s, m.pt[t].pa);
      if m.pt[t].pa == m.pt[s].pa && m.refs[m.pt[s].pa] == 1 {
        SharedIsNotPrivate(m, s, t);
      }
    }
  }

  lemma UnmapKeepsInv(m: Mem, s: Slot)
    requires Inv(m) && s in m.pt
    ensures Managed(m, m.pt[s].pa) && m.refs[m.pt[s].pa] > 0  // kfree does not panic
    ensures Inv(Unmap(m, s))
    ensures forall t | t != s :: Reads(Unmap(m, s), t) == Reads(m, t)
  {
    MappedFrame(m, s);
    var n := Unmap(m, s);
    assert FrameOk(m, m.pt[s].pa);
    KfreeFreeList(m, m.pt[s].pa);
    forall q: nat ensures FrameOk(n, q) {
      UnmapFrames(m, s, q);
    }
    forall t ensures SlotOk(n, t) && (t != s ==> Reads(n, t) == Reads(m, t)) {
      UnmapSlots(m, s, t);
    }
    forall t, x ensures NoAlias(n.pt, t, x) {
      assert NoAlias(m.pt, t, x);
    }
  }

  /** A fresh frame, filled with `page`, becomes a user page, writable if w. */
  function MapFresh(m: Mem, s: Slot, p: nat, page: Page, w: bool): Mem
    requires p < |m.data|
  {
    m.(pt := m.pt[s := Pte(p, w, false, true)], data := m.data[p := page], kernel := m.kernel - multiset{p})
  }

  lemma MapFreshFrames(m: Mem, s: Slot, p: nat, page: Page, w: bool, q: nat)
    requires Inv(m) && s !in m.pt && Fresh(m, p) && |page| == m.pgsize
    ensures FrameOk(MapFresh(m, s, p, page, w), q)
  {
    assert FrameOk(m, q);
    OwnersSet(m.pt, s, Pte(p, w, false, true), q);
  }

  lemma MapFreshSlots(m: Mem, s: Slot, p: nat, page: Page, w: bool, t: Slot)
    requires Inv(m) && s !in m.pt && Fresh(m, p)
    ensures SlotOk(MapFresh(m, s, p, page, w), t)
    ensures Reads(MapFresh(m, s, p, page, w), t) == if t == s then page else Reads(m, t)
  {
    Unmapped(m, p);
    assert SlotOk(m, t);
    if t in m.pt {
      OwnersSet(m.pt, s, Pte(p, w, false, true), m.pt[t].pa);
    } else if t == s {
      OwnersSet(m.pt, s, Pte(p, w, false, true), p);
    }
  }

  lemma MapFreshKeepsInv(m: Mem, s: Slot, p: nat, page: Page, w: bool)
    requires Inv(m) && s !in m.pt && Fresh(m, p) && |page| == m.pgsize
    ensures Inv(MapFresh(m, s, p, page, w))
    ensures forall t :: Reads(MapFresh(m, s, p, page, w), t) == if t == s then page else Reads(m, t)
  {
    var n := MapFresh(m, s, p, page, w);
    Unmapped(m, p);
    forall q: nat ensures FrameOk(n, q) {
      MapFreshFrames(m, s, p, page, w, q);
    }
    forall t ensures SlotOk(n, t) && Reads(n, t) == (if t == s then page else Reads(m, t)) {
      MapFreshSlots(m, s, p, page, w, t);
    }
    forall t, x ensures NoAlias(n.pt, t, x) {
      assert NoAlias(m.pt, t, x);
    }
  }

  // The steps of copy-on-write

  /** uvmcopy takes PTE_W away from the parent's page and sets PTE_COW, whatever the page allowed before. */
  function Downgrade(m: Mem, s: Slot): Mem
    requires s in m.pt
  {
    m.(pt := m.pt[s := m.pt[s].(w := false, cow := true)])
  }

  lemma DowngradeOwners(m: Mem, s: Slot, q: nat)
    requires s in m.pt
    ensures Owners(Downgrade(m, s).pt, q) == Owners(m.pt, q)
  {
    OwnersSet(m.pt, s, Downgrade(m, s).pt[s], q);
  }

  lemma DowngradeKeepsInv(m: Mem, s: Slot)
    requires Inv(m) && s in m.pt
    ensures Inv(Downgrade(m, s))
    ensures forall t :: Reads(Downgrade(m, s), t) == Reads(m, t)
  {
    var n := Downgrade(m, s);
    forall q: nat ensures FrameOk(n, q) {
      assert FrameOk(m, q);
      DowngradeOwners(m, s, q);
    }
    forall t ensures SlotOk(n, t) {
      assert SlotOk(m, t);
      if t in m.pt {
        DowngradeOwners(m, s, m.pt[t].pa);
      }
    }
    forall t, x ensures NoAlias(n.pt, t, x) {
      assert NoAlias(m.pt, t, x);
    }
  }

  /** mappages of the parent's frame in the child, then incRef. */
  function Link(m: Mem, s: Slot, t: Slot): Mem
    requires s in m.pt && m.pt[s].pa < |m.refs|
  {
    m.(pt := m.pt[t := m.pt[s]], refs := m.refs[m.pt[s].pa := m.refs[m.pt[s].pa] + 1])
  }

  /** The child maps none of its pages to the frame of s. */
  ghost predicate ChildLacks(m: Mem, s: Slot, child: int)
    requires s in m.pt
  {
    forall t | t in m.pt && t.pid == child :: m.pt[t].pa != m.pt[s].pa
  }

  lemma LinkSlots(m: Mem, s: Slot, t: Slot, x: Slot)
    requires Inv(m) && s in m.pt && t !in m.pt && !m.pt[s].w && Managed(m, m.pt[s].pa)
    ensures SlotOk(Link(m, s, t), x)
  {
    assert SlotOk(m, x);
    if x in m.pt && m.pt[x].w {
      OwnersSet(m.pt, t, m.pt[s], m.pt[x].pa);
      if m.pt[s].pa == m.pt[x].pa {
        SharedIsNotPrivate(m, x, s);
      }
    }
  }

  lemma LinkFrames(m: Mem, s: Slot, t: Slot, q: nat)
    requires Inv(m) && s in m.pt && t !in m.pt && Managed(m, m.pt[s].pa) && m.refs[m.pt[s].pa] >= 1
    ensures FrameOk(Link(m, s, t), q)
  {
    assert FrameOk(m, q);
    OwnersSet(m.pt, t, m.pt[s], q);
  }

  lemma LinkKeepsInv(m: Mem, s: Slot, t: Slot)
    requires Inv(m) && s in m.pt && t !in m.pt && !m.pt[s].w && ChildLacks(m, s, t.pid)
    ensures Managed(m, m.pt[s].pa) && Inv(Link(m, s, t))
    ensures forall x :: Reads(Link(m, s, t), x) == if x == t then Reads(m, s) else Reads(m, x)
  {
    MappedFrame(m, s);
    var n := Link(m, s, t);
    forall q: nat ensures FrameOk(n, q) {
      LinkFrames(m, s, t, q);
    }
    forall x ensures SlotOk(n, x) {
      LinkSlots(m, s, t, x);
    }
    forall x, y ensures NoAlias(n.pt, x, y) {
      assert NoAlias(m.pt, x, y);
    }
  }

  /** Copy the page to frame p, point the PTE there with PTE_W and without PTE_COW, kfree the old frame. */
  function Resolve(m: Mem, s: Slot, p: nat): Mem
    requires s in m.pt && m.pt[s].pa < |m.refs| == |m.data| && p < |m.data|
  {
    var old_ := m.pt[s].pa;
    var n := m.(data := m.data[p := m.data[old_]], pt := m.pt[s := Pte(p, true, false, true)],
                kernel := m.kernel - multiset{p});
    Kfree(n, old_)
  }

  lemma ResolveSplits(m: Mem, s: Slot, p: nat)
    requires s in m.pt && m.pt[s].pa < |m.refs| == |m.data| && p < |m.data| && p != m.pt[s].pa
    ensures Resolve(m, s, p) == MapFresh(Unmap(m, s), s, p, m.data[m.pt[s].pa], true)
  {
    assert (m.pt - {s})[s := Pte(p, true, false, true)] == m.pt[s := Pte(p, true, false, true)];
  }

  /** Resolving is unmapping the page and mapping a private copy: nobody can see it happen. */
  lemma ResolveKeepsInv(m: Mem, s: Slot, p: nat)
    requires Inv(m) && s in m.pt && Fresh(m, p)
    ensures Managed(m, m.pt[s].pa) && m.refs[m.pt[s].pa] > 0  // kfree does not panic
    ensures Inv(Resolve(m, s, p))
    ensures forall t :: Reads(Resolve(m, s, p), t) == Reads(m, t)
  {
    MappedFrame(m, s);
    Unmapped(m, p);
    UnmapKeepsInv(m, s);
    ResolveSplits(m, s, p);
    MapFreshKeepsInv(Unmap(m, s), s, p, m.data[m.pt[s].pa], true);
  }

  /** A store that replaces the contents of the frame behind slot s. */
  function Poke(m: Mem, s: Slot, page: Page): Mem
    requires s in m.pt && m.pt[s].pa < |m.data|
  {
    m.(data := m.data[m.pt[s].pa := page])
  }

  lemma PokeKeepsInv(m: Mem, s: Slot, page: Page)
    requires Inv(m) && s in m.pt && |page| == m.pgsize
    ensures m.pt[s].pa < |m.data| && Inv(Poke(m, s, page))
  {
    MappedFrame(m, s);
    var n := Poke(m, s, page);
    forall q: nat ensures FrameOk(n, q) {
      assert FrameOk(m, q);
    }
    forall t ensures SlotOk(n, t) {
      assert SlotOk(m, t);
    }
    forall t, x ensures NoAlias(n.pt, t, x) {
      assert NoAlias(m.pt, t, x);
    }
  }

  /** A store to a private page is seen by nobody else. */
  lemma PokeReads(m: Mem, s: Slot, page: Page)
    requires s in m.pt && m.pt[s].pa < |m.data| && Private(m, s)
    ensures forall t :: Reads(Poke(m, s, page), t) == if t == s then page else Reads(m, t)
  {
    forall t | t in m.pt && t != s ensures m.pt[t].pa != m.pt[s].pa {
      if m.pt[t].pa == m.pt[s].pa {
        SharedIsNotPrivate(m, s, t);
      }
    }
  }
}
