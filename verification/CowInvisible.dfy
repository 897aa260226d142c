/**
 The main result about copy-on-write: over every run in which nobody is killed, each process
 reads what it would if fork had copied every page at once. And where that would be false:
 fork also makes read-only pages copy-on-write, so a later store to one succeeds.
 */
module CowInvisible {
  import opened CowMemory
  import opened CowFork
  import opened CowRun

  // The reference: every process has its own pages

  datatype OwnPage = OwnPage(data: Page, writable: bool)

  type Eager = map<Slot, OwnPage>

  datatype Action =
    | Fork(parent: int, child: int, n: nat, need: seq<nat>)
    | StoreByte(s: Slot, off: nat, b: int)
    | CopyToUser(s: Slot, off: nat, src: seq<int>)
    | Shrink(pid: int, i: int, k: int)
    | Grow(pid: int, first: int, last: int, tables: map<int, nat>, w: bool)
    | TakePage
    | GivePage(p: nat)

  /** An eager fork gives the child its own copy of pages 0 .. n-1. */
  ghost function EagerFork(e: Eager, parent: int, child: int, n: nat): Eager {
    e + map v | 0 <= v < n && Slot(parent, v) in e :: Slot(child, v) := e[Slot(parent, v)]
  }

  ghost function EagerStep(m: Mem, e: Eager, a: Action, ok: bool): Eager {
    match a
    case Fork(parent, child, n, _) => if ok then EagerFork(e, parent, child, n) else e
    case StoreByte(s, off, b) =>
      if s in e && off < |e[s].data| then e[s := e[s].(data := e[s].data[off := b])] else e
    case CopyToUser(s, off, src) =>
      if ok && s in e && off + |src| <= |e[s].data| then e[s := e[s].(data := Splice(e[s].data, off, src))] else e
    case Shrink(pid, i, k) => map s | s in e && !InRange(s, pid, i, k) :: e[s]
    case Grow(pid, first, n, _, w) =>
      if ok then e + map v | first <= v < n :: Slot(pid, v) := OwnPage(Zero(m), w) else e
    case TakePage => e
    case GivePage(_) => e
  }

  /** What callers of the kernel may do; stores and copyouts go to pages that are writable. */
  ghost predicate Allowed(m: Mem, e: Eager, a: Action) {
    match a
    case Fork(parent, child, n, need) => CopyReady(m, parent, child, 0, n) && |need| == n
    case StoreByte(s, off, b) => off < m.pgsize && s in e && e[s].writable
    case CopyToUser(s, off, src) => off < m.pgsize && off + |src| <= m.pgsize && s in e && e[s].writable
    case Shrink(pid, i, k) => i <= k && Mapped(m, pid, i, k)
    case Grow(pid, first, n, tables, w) =>
      GrowReady(m, pid, first, first, n) && forall v | first <= v < n :: v in tables
    case TakePage => true
    case GivePage(p) => m.kernel[p] > 0
  }

  /** The kernel's step: the new memory and whether the call succeeded; None if the process is killed. */
  ghost function LazyStep(m: Mem, e: Eager, a: Action): Option<(Mem, bool)>
    requires Inv(m) && Allowed(m, e, a)
  {
    match a
    case Fork(parent, child, n, need) => Some(CopyLoop(m, parent, child, 0, n, need))
    case StoreByte(s, off, b) =>
      (match Store(m, s, off, b) case None => None case Some(n) => Some((n, true)))
    case CopyToUser(s, off, src) => Some(Copyout(m, s, off, src))
    case Shrink(pid, i, k) => Some((UnmapRange(m, pid, i, k), true))
    case Grow(pid, first, n, tables, w) => Some(GrowLoop(m, pid, first, first, n, tables, w))
    case TakePage =>
      if m.free == [] then Some((m, false))
      else
        KallocKeepsInv(m);
        Some((Kalloc(m), true))
    case GivePage(p) =>
      FreeKernelKeepsInv(m, p);
      Some((FreeKernel(m, p), true))
  }

  // The two machines agree

  /** Slot s is mapped in both or in neither; what it reads agrees; what is writable can be written. */
  ghost predicate AgreeAt(m: Mem, e: Eager, s: Slot) {
    && (s in e <==> s in m.pt)
    && (s in e ==>
          && e[s].data == Reads(m, s)
          && (e[s].writable ==> (m.pt[s].w || m.pt[s].cow) && m.pt[s].u))
  }

  ghost predicate Agree(m: Mem, e: Eager) {
    forall s :: AgreeAt(m, e, s)
  }

  lemma ForkAgrees(m: Mem, e: Eager, a: Action)
    requires Inv(m) && Agree(m, e) && a.Fork? && Allowed(m, e, a)
    ensures var (r, ok) := LazyStep(m, e, a).value; Inv(r) && Agree(r, EagerStep(m, e, a, ok))
  {
    var Fork(parent, child, n, need) := a;
    var r, ok := CopyLoopResult(m, parent, child, 0, n, need);
    var e' := EagerStep(m, e, a, ok);
    forall s ensures AgreeAt(r, e', s) {
      assert AgreeAt(m, e, s);
      if s.pid != child {
        assert OtherKept(m, r, s);
      } else if ok {
        var p := Slot(parent, s.vpn);
        assert AgreeAt(m, e, p) && OtherKept(m, r, p);
        assert s == Slot(child, s.vpn);
        assert s in r.pt <==> 0 <= s.vpn < n;
      }
    }
  }

  lemma StoreAgrees(m: Mem, e: Eager, a: Action)
    requires Inv(m) && Agree(m, e) && a.StoreByte? && Allowed(m, e, a) && LazyStep(m, e, a).Some?
    ensures var (r, ok) := LazyStep(m, e, a).value; Inv(r) && Agree(r, EagerStep(m, e, a, ok))
  {
    StoreKeeps(m, a.s, a.off, a.b);
    var r := Store(m, a.s, a.off, a.b).value;
    assert AgreeAt(m, e, a.s);
    forall s ensures AgreeAt(r, EagerStep(m, e, a, true), s) {
      assert AgreeAt(m, e, s);
    }
  }

  lemma CopyBytesOnePage(n: Mem, s: Slot, off: nat, src: seq<int>)
    requires Inv(n) && off < n.pgsize && off + |src| <= n.pgsize && s in n.pt && n.pt[s].u
    ensures n.pt[s].pa < |n.data| && |Reads(n, s)| == n.pgsize
    ensures CopyBytes(n, s, off, src) == (Poke(n, s, Splice(Reads(n, s), off, src)), true)
  {
    MappedFrame(n, s);
    var page := Splice(Reads(n, s), off, src);
    if src == [] {
      assert page == Reads(n, s);
      assert Poke(n, s, page) == n;
    } else {
      PokeKeepsInv(n, s, page);
      assert Min(n.pgsize - off, |src|) == |src| && src[..|src|] == src && src[|src|..] == [];
      var next := Slot(s.pid, s.vpn + 1);
      assert CopyBytes(Poke(n, s, page), next, 0, []) == (Poke(n, s, page), true);
    }
  }

  /** `r` is `m` with one page of one process replaced; that page is then private. */
  ghost predicate Replaced(m: Mem, r: Mem, s: Slot, page: Page) {
    && Inv(r) && SameFrames(m, r) && s in r.pt && r.pt[s].w && r.pt[s].u
    && (forall t :: t in r.pt <==> t in m.pt)
    && (forall t | t in r.pt && t != s :: r.pt[t] == m.pt[t])
    && (forall t :: Reads(r, t) == if t == s then page else Reads(m, t))
  }

  /** A copyout that stays inside one page changes that page of that process, or nothing. */
  lemma SinglePageCopyout(m: Mem, s: Slot, off: nat, src: seq<int>)
    requires Inv(m) && off < m.pgsize && off + |src| <= m.pgsize
    ensures !Copyout(m, s, off, src).1 ==> Copyout(m, s, off, src).0 == m
    ensures Copyout(m, s, off, src).1 ==>
              && |Reads(m, s)| == m.pgsize
              && Replaced(m, Copyout(m, s, off, src).0, s, Splice(Reads(m, s), off, src))
  {
    if s.vpn != 0 && s in m.pt && (m.pt[s].w || m.pt[s].cow) && m.pt[s].u && m.free != [] {
      MappedFrame(m, s);
      ResolveMakesPrivate(m, s);
      var n := Resolve(Kalloc(m), s, m.free[0]);
      CopyBytesOnePage(n, s, off, src);
      assert SlotOk(n, s);
      var page := Splice(Reads(n, s), off, src);
      PokeKeepsInv(n, s, page);
      PokeReads(n, s, page);
      assert Copyout(m, s, off, src) == (Poke(n, s, page), true);
    }
  }

  lemma CopyoutAgrees(m: Mem, e: Eager, a: Action)
    requires Inv(m) && Agree(m, e) && a.CopyToUser? && Allowed(m, e, a)
    ensures var (r, ok) := LazyStep(m, e, a).value; Inv(r) && Agree(r, EagerStep(m, e, a, ok))
  {
    SinglePageCopyout(m, a.s, a.off, a.src);
    var (r, ok) := Copyout(m, a.s, a.off, a.src);
    assert AgreeAt(m, e, a.s);
    forall s ensures AgreeAt(r, EagerStep(m, e, a, ok), s) {
      assert AgreeAt(m, e, s);
    }
  }

  lemma ShrinkAgrees(m: Mem, e: Eager, a: Action)
    requires Inv(m) && Agree(m, e) && a.Shrink? && Allowed(m, e, a)
    ensures var (r, ok) := LazyStep(m, e, a).value; Inv(r) && Agree(r, EagerStep(m, e, a, ok))
  {
    UnmapRangeRemoves(m, a.pid, a.i, a.k);
    var r := UnmapRange(m, a.pid, a.i, a.k);
    forall s ensures AgreeAt(r, EagerStep(m, e, a, true), s) {
      assert AgreeAt(m, e, s);
    }
  }

  lemma GrowAgrees(m: Mem, e: Eager, a: Action)
    requires Inv(m) && Agree(m, e) && a.Grow? && Allowed(m, e, a)
    ensures var (r, ok) := LazyStep(m, e, a).value; Inv(r) && Agree(r, EagerStep(m, e, a, ok))
  {
    var Grow(pid, first, n, tables, w) := a;
    var r, ok := GrowLoopResult(m, pid, first, first, n, tables, w);
    var e' := EagerStep(m, e, a, ok);
    forall s ensures AgreeAt(r, e', s) {
      assert AgreeAt(m, e, s);
      if InRange(s, pid, first, n) {
        assert s == Slot(pid, s.vpn);
        assert Slot(pid, s.vpn) !in m.pt;
      }
    }
  }

  lemma StepAgrees(m: Mem, e: Eager, a: Action)
    requires Inv(m) && Agree(m, e) && Allowed(m, e, a) && LazyStep(m, e, a).Some?
    ensures var (r, ok) := LazyStep(m, e, a).value; Inv(r) && Agree(r, EagerStep(m, e, a, ok))
  {
    match a
    case Fork(_, _, _, _) => ForkAgrees(m, e, a);
    case StoreByte(_, _, _) => StoreAgrees(m, e, a);
    case CopyToUser(_, _, _) => CopyoutAgrees(m, e, a);
    case Shrink(_, _, _) => ShrinkAgrees(m, e, a);
    case Grow(_, _, _, _, _) => GrowAgrees(m, e, a);
    case TakePage => PageCountAgrees(m, e, a);
    case GivePage(_) => PageCountAgrees(m, e, a);
  }

  lemma PageCountAgrees(m: Mem, e: Eager, a: Action)
    requires Inv(m) && Agree(m, e) && (a.TakePage? || a.GivePage?) && Allowed(m, e, a)
    ensures var (r, ok) := LazyStep(m, e, a).value; Inv(r) && Agree(r, EagerStep(m, e, a, ok))
  {
    var (r, ok) := LazyStep(m, e, a).value;
    if a.GivePage? {
      FreeKernelKeepsInv(m, a.p);
    } else if m.free != [] {
      KallocKeepsInv(m);
    }
    forall s ensures AgreeAt(r, e, s) {
      assert AgreeAt(m, e, s);
    }
  }

  // Whole runs

  /** Both machines after `acts`; None if a step was not allowed or killed its process. */
  ghost function Run(m: Mem, e: Eager, acts: seq<Action>): (r: Option<(Mem, Eager)>)
    requires Inv(m) && Agree(m, e)
    decreases |acts|
  {
    if acts == [] then Some((m, e))
    else if Allowed(m, e, acts[0]) && LazyStep(m, e, acts[0]).Some? then
      StepAgrees(m, e, acts[0]);
      var (n, ok) := LazyStep(m, e, acts[0]).value;
      Run(n, EagerStep(m, e, acts[0], ok), acts[1..])
    else None
  }

  /**
   Copy-on-write is invisible. Over every run of forks, stores to writable pages, single-page
   copyouts, growth and unmapping, from agreeing machines, in which no process is killed: the same
   pages are mapped, each reads the same, counts are conserved, and PTE_W implies a single mapping.
   */
  lemma {:induction false} CopyOnWriteIsInvisible(m: Mem, e: Eager, acts: seq<Action>)
    requires Inv(m) && Agree(m, e) && Run(m, e, acts).Some?
    ensures var (n, f) := Run(m, e, acts).value;
            && (forall s :: s in f <==> s in n.pt)
            && (forall s | s in f :: Reads(n, s) == f[s].data)
            && (forall p: nat | Managed(n, p) ::
                  n.refs[p] == |Owners(n.pt, p)| + n.kernel[p] && (n.refs[p] == 0 <==> p in n.free))
            && (forall s | s in n.pt && n.pt[s].w :: Owners(n.pt, n.pt[s].pa) == {s})
    decreases |acts|
  {
    if acts == [] {
      forall s ensures (s in e <==> s in m.pt) && (s in e ==> Reads(m, s) == e[s].data) {
        assert AgreeAt(m, e, s);
      }
      forall p: nat | Managed(m, p)
        ensures m.refs[p] == |Owners(m.pt, p)| + m.kernel[p] && (m.refs[p] == 0 <==> p in m.free)
      {
        assert FrameOk(m, p);
      }
      forall s | s in m.pt && m.pt[s].w ensures Owners(m.pt, m.pt[s].pa) == {s} {
        assert SlotOk(m, s);
      }
    } else {
      StepAgrees(m, e, acts[0]);
      var (n, ok) := LazyStep(m, e, acts[0]).value;
      CopyOnWriteIsInvisible(n, EagerStep(m, e, acts[0], ok), acts[1..]);
    }
  }

  // Stores that kill

  /** Exactly which stores survive: those allowed at once, and those to a shared page that can be copied. */
  lemma StoreSurvives(m: Mem, s: Slot, off: nat, b: int)
    requires Inv(m) && off < m.pgsize
    ensures Store(m, s, off, b).Some? <==>
              && s in m.pt && m.pt[s].u
              && (m.pt[s].w || (m.pt[s].cow && m.free != [] && !(s.vpn == 0 && off == 0)))
  {
    assert SlotOk(m, s);
  }

  /**
   Where runs with a killed process come from: a store to a page that is writable under eager copying
   kills exactly if the page is shared and there is no page to copy it to, or the address is 0.
   */
  lemma KillCondition(m: Mem, e: Eager, a: Action)
    requires Inv(m) && Agree(m, e) && Allowed(m, e, a)
    ensures LazyStep(m, e, a) == None <==>
              a.StoreByte? && a.s in m.pt && !m.pt[a.s].w && (m.free == [] || (a.s.vpn == 0 && a.off == 0))
  {
    if a.StoreByte? {
      assert AgreeAt(m, e, a.s);
      StoreSurvives(m, a.s, a.off, a.b);
    }
  }

  /**
   Address 0 after a fork: a store there that succeeds before the fork is fatal after it, in the parent
   and in the child, and a copyout to page 0 fails before and after.
   */
  lemma ForkKillsAtZero(m: Mem, parent: int, child: int, n: int, need: seq<nat>, b: int, off: nat, src: seq<int>)
    requires CopyReady(m, parent, child, 0, n) && |need| == n && CopyLoop(m, parent, child, 0, n, need).1
    requires 0 < n && off < m.pgsize && m.pt[Slot(parent, 0)].u && m.pt[Slot(parent, 0)].w
    ensures Store(m, Slot(parent, 0), 0, b).Some?
    ensures var r := CopyLoop(m, parent, child, 0, n, need).0;
            && r.pgsize == m.pgsize
            && Store(r, Slot(parent, 0), 0, b) == None && Store(r, Slot(child, 0), 0, b) == None
            && Copyout(m, Slot(parent, 0), off, src) == (m, false)
              && Copyout(r, Slot(parent, 0), off, src) == (r, false)
  {
    var r := ForkMarksAll(m, parent, child, 0, n, need);
    var _, _ := CopyLoopResult(m, parent, child, 0, n, need);
    assert r.pt[Slot(child, 0)] == r.pt[Slot(parent, 0)];
  }

  // Read-only pages

  /** A store to a user page without PTE_W is fatal exactly when PTE_COW is not set. */
  lemma ReadOnlyStoreCondition(m: Mem, s: Slot, off: nat, b: int)
    requires Inv(m) && off < m.pgsize && s in m.pt && m.pt[s].u && !m.pt[s].w
    requires m.free != [] && !(s.vpn == 0 && off == 0)
    ensures Store(m, s, off, b).Some? <==> m.pt[s].cow
  {
  }

  /** Pages 0 .. k-1 of the process are copy-on-write and not writable. */
  ghost predicate Marked(m: Mem, pid: int, k: int) {
    forall v | 0 <= v < k :: Slot(pid, v) in m.pt && m.pt[Slot(pid, v)].cow && !m.pt[Slot(pid, v)].w
  }

  lemma MarkNext(m: Mem, m2: Mem, parent: int, child: int, i: int)
    requires Marked(m, parent, i) && 0 <= i && parent != child && Slot(parent, i) in m.pt
    requires m2.pt == Downgrade(m, Slot(parent, i)).pt && m2.pt[Slot(parent, i)].pa < |m2.refs|
    ensures Marked(Link(m2, Slot(parent, i), Slot(child, i)), parent, i + 1)
  {
  }

  /** Fork marks every page of the parent copy-on-write, also those that were read-only. */
  lemma {:induction false} ForkMarksAll(m: Mem, parent: int, child: int, i: int, n: int, need: seq<nat>)
    returns (r: Mem)
    requires CopyReady(m, parent, child, i, n) && |need| == n && CopyLoop(m, parent, child, i, n, need).1
    requires Marked(m, parent, i)
    ensures r == CopyLoop(m, parent, child, i, n, need).0
    ensures Marked(r, parent, n)
    decreases n - i
  {
    if i == n {
      r := m;
    } else {
      RoundTables(m, parent, child, i, n, need[i]);
      var (m2, ok) := AllocTables(Downgrade(m, Slot(parent, i)), need[i]);
      if ok {
        CopyLink(m2, parent, child, i, n);
      }
      CopyLoopUnfolds(m, parent, child, i, n, need, m2, ok);
      MarkNext(m, m2, parent, child, i);
      r := ForkMarksAll(Link(m2, Slot(parent, i), Slot(child, i)), parent, child, i + 1, n, need);
    }
  }

  /**
   Permissions are not preserved across fork: a store to a read-only page is fatal before the fork,
   and succeeds after it, in the parent.
   */
  lemma ForkUnlocksReadOnly(m: Mem, parent: int, child: int, n: int, need: seq<nat>, v: int, off: nat, b: int)
    requires CopyReady(m, parent, child, 0, n) && |need| == n && CopyLoop(m, parent, child, 0, n, need).1
    requires CopyLoop(m, parent, child, 0, n, need).0.free != []
    requires 0 <= v < n && off < m.pgsize && !(v == 0 && off == 0)
    requires var pte := m.pt[Slot(parent, v)]; pte.u && !pte.w && !pte.cow
    ensures Store(m, Slot(parent, v), off, b) == None
    ensures CopyLoop(m, parent, child, 0, n, need).0.pgsize == m.pgsize
    ensures Store(CopyLoop(m, parent, child, 0, n, need).0, Slot(parent, v), off, b).Some?
  {
    var r := ForkMarksAll(m, parent, child, 0, n, need);
    var _, _ := CopyLoopResult(m, parent, child, 0, n, need);
    assert OtherKept(m, r, Slot(parent, v));
    ReadOnlyStoreCondition(r, Slot(parent, v), off, b);
  }
}
