/**
 The loops of kernel/vm.c over user pages: uvmunmap, uvmcopy and uvmalloc, with their error paths.
 Page-table pages that mappages needs come from the same free list; `need[i]` says how many of
 them page i lacks, so running out of memory can strike at any point.
 */
module CowFork {
  import opened CowMemory

  ghost predicate SameFrames(m: Mem, n: Mem) {
    n.lo == m.lo && n.pgsize == m.pgsize && |n.refs| == |m.refs| && |n.data| == |m.data|
  }

  /** A frame in use stays in use, with the references the kernel has to it. */
  ghost predicate InUseKept(m: Mem, n: Mem, p: nat) {
    Managed(m, p) && m.refs[p] > 0 ==> Managed(n, p) && n.refs[p] > 0 && n.kernel[p] == m.kernel[p]
  }

  // Page-table pages

  /** kalloc() of `k` page-table pages, which the kernel keeps; false if the free list runs out. */
  ghost function AllocTables(m: Mem, k: nat): (r: (Mem, bool))
    requires Inv(m)
    ensures Inv(r.0)
    decreases k
  {
    if k == 0 then (m, true)
    else if m.free == [] then (m, false)
    else
      KallocKeepsInv(m);
      AllocTables(Kalloc(m), k - 1)
  }

  lemma {:induction false} AllocTablesKeeps(m: Mem, k: nat)
    requires Inv(m)
    ensures var n := AllocTables(m, k).0;
            && n.pt == m.pt && SameFrames(m, n)
            && (forall s :: Reads(n, s) == Reads(m, s))
            && (forall p: nat :: InUseKept(m, n, p))
            && (forall p: nat | Fresh(m, p) :: Fresh(n, p))
    decreases k
  {
    if k > 0 && m.free != [] {
      KallocKeepsInv(m);
      FreeHead(m);
      AllocTablesKeeps(Kalloc(m), k - 1);
      forall p: nat ensures InUseKept(m, AllocTables(m, k).0, p) {
        assert InUseKept(Kalloc(m), AllocTables(m, k).0, p);
      }
      assert forall p: nat | Fresh(m, p) :: Fresh(Kalloc(m), p);
    }
  }

  /** Allocating page-table pages leaves the contents of a frame in use alone. */
  lemma {:induction false} AllocTablesData(m: Mem, k: nat, p: nat)
    requires Inv(m) && Managed(m, p) && m.refs[p] > 0
    ensures Managed(AllocTables(m, k).0, p) && AllocTables(m, k).0.data[p] == m.data[p]
    decreases k
  {
    if k > 0 && m.free != [] {
      KallocKeepsInv(m);
      FreeHead(m);
      AllocTablesData(Kalloc(m), k - 1, p);
    }
  }

  /** kalloc succeeds exactly as often as there are free pages, and takes one each time. */
  lemma {:induction false} AllocTablesCount(m: Mem, k: nat)
    requires Inv(m)
    ensures var (n, ok) := AllocTables(m, k);
            && (ok <==> k <= |m.free|)
            && |n.free| == if ok then |m.free| - k else 0
    decreases k
  {
    if k > 0 && m.free != [] {
      KallocKeepsInv(m);
      AllocTablesCount(Kalloc(m), k - 1);
    }
  }

  // uvmunmap

  ghost predicate Mapped(m: Mem, pid: int, i: int, k: int) {
    forall v | i <= v < k :: Slot(pid, v) in m.pt
  }

  predicate InRange(s: Slot, pid: int, i: int, k: int) {
    s.pid == pid && i <= s.vpn < k
  }

  /** `n` is `m` without pages i .. k-1 of process pid, and what is left reads the same. */
  ghost predicate RangeRemoved(m: Mem, n: Mem, pid: int, i: int, k: int) {
    && SameFrames(m, n) && n.kernel == m.kernel
    && (forall s :: s in n.pt <==> s in m.pt && !InRange(s, pid, i, k))
    && (forall s | s in n.pt :: n.pt[s] == m.pt[s] && Reads(n, s) == Reads(m, s))
  }

  lemma RemovedOneMore(m: Mem, u: Mem, n: Mem, pid: int, i: int, k: int)
    requires i <= k && SameFrames(u, n) && n.kernel == u.kernel && n.pt == u.pt - {Slot(pid, k)}
    requires forall s | s != Slot(pid, k) :: Reads(n, s) == Reads(u, s)
    requires RangeRemoved(m, u, pid, i, k)
    ensures RangeRemoved(m, n, pid, i, k + 1)
  {
    forall s ensures s in n.pt <==> s in m.pt && !InRange(s, pid, i, k + 1) {
      assert InRange(s, pid, i, k + 1) <==> InRange(s, pid, i, k) || s == Slot(pid, k);
    }
  }

  /** uvmunmap of pages i .. k-1 with do_free; pages that are mapped. */
  ghost function UnmapRange(m: Mem, pid: int, i: int, k: int): Mem
    decreases k - i
  {
    if k <= i then m else UnmapMapped(UnmapRange(m, pid, i, k - 1), Slot(pid, k - 1))
  }

  ghost function UnmapMapped(m: Mem, s: Slot): Mem {
    if s in m.pt && m.pt[s].pa < |m.refs| == |m.data| then Unmap(m, s) else m
  }

  lemma {:induction false} UnmapRangeRemoves(m: Mem, pid: int, i: int, k: int)
    requires Inv(m) && i <= k && Mapped(m, pid, i, k)
    ensures Inv(UnmapRange(m, pid, i, k)) && RangeRemoved(m, UnmapRange(m, pid, i, k), pid, i, k)
    decreases k - i
  {
    if i < k {
      UnmapRangeRemoves(m, pid, i, k - 1);
      var u := UnmapRange(m, pid, i, k - 1);
      var s := Slot(pid, k - 1);
      UnmapKeepsInv(u, s);
      RemovedOneMore(m, u, Unmap(u, s), pid, i, k - 1);
      assert UnmapRange(m, pid, i, k) == Unmap(u, s);
    }
  }

  lemma UnmapRangeNext(m: Mem, pid: int, i: int, k: int)
    requires Inv(m) && i <= k && Mapped(m, pid, i, k + 1)
    ensures var u := UnmapRange(m, pid, i, k);
            && Inv(u) && Slot(pid, k) in u.pt && u.pt[Slot(pid, k)].pa < |u.refs| == |u.data|
            && UnmapRange(m, pid, i, k + 1) == Unmap(u, Slot(pid, k))
  {
    UnmapRangeRemoves(m, pid, i, k);
    MappedFrame(UnmapRange(m, pid, i, k), Slot(pid, k));
  }

  // uvmcopy

  /** The state before round i: the child shares exactly the first i pages of the parent. */
  ghost predicate CopyReady(m: Mem, parent: int, child: int, i: int, n: int) {
    && Inv(m) && parent != child && 0 <= i <= n
    && Mapped(m, parent, 0, n) && Mapped(m, child, 0, i)
    && (forall t | t in m.pt && t.pid == child :: 0 <= t.vpn < i)
    && (forall v | 0 <= v < i :: m.pt[Slot(child, v)] == m.pt[Slot(parent, v)])
  }

  lemma ChildLacksNext(m: Mem, parent: int, child: int, i: int, n: int)
    requires CopyReady(m, parent, child, i, n) && i < n
    ensures ChildLacks(m, Slot(parent, i), child) && Slot(child, i) !in m.pt
  {
    forall t | t in m.pt && t.pid == child ensures m.pt[t].pa != m.pt[Slot(parent, i)].pa {
      assert t == Slot(child, t.vpn);
      assert m.pt[t] == m.pt[Slot(parent, t.vpn)];
      assert NoAlias(m.pt, Slot(parent, i), Slot(parent, t.vpn));
    }
  }

  lemma CopyDowngrade(m: Mem, parent: int, child: int, i: int, n: int)
    requires CopyReady(m, parent, child, i, n) && i < n
    ensures CopyReady(Downgrade(m, Slot(parent, i)), parent, child, i, n)
  {
    DowngradeKeepsInv(m, Slot(parent, i));
  }

  lemma CopyTables(m: Mem, parent: int, child: int, i: int, n: int, k: nat)
    requires CopyReady(m, parent, child, i, n)
    ensures CopyReady(AllocTables(m, k).0, parent, child, i, n)
    ensures AllocTables(m, k).0.pt == m.pt
  {
    AllocTablesKeeps(m, k);
  }

  lemma CopyLink(m: Mem, parent: int, child: int, i: int, n: int)
    requires CopyReady(m, parent, child, i, n) && i < n && !m.pt[Slot(parent, i)].w
    ensures Managed(m, m.pt[Slot(parent, i)].pa)
    ensures CopyReady(Link(m, Slot(parent, i), Slot(child, i)), parent, child, i + 1, n)
  {
    ChildLacksNext(m, parent, child, i, n);
    LinkKeepsInv(m, Slot(parent, i), Slot(child, i));
  }

  /** uvmcopy from round i on; the flag is false if a page-table page could not be allocated. */
  ghost function CopyLoop(m: Mem, parent: int, child: int, i: int, n: int, need: seq<nat>): (r: (Mem, bool))
    requires CopyReady(m, parent, child, i, n) && |need| == n
    ensures Inv(r.0)
    decreases n - i
  {
    if i == n then (m, true)
    else
      CopyDowngrade(m, parent, child, i, n);
      var m1 := Downgrade(m, Slot(parent, i));
      CopyTables(m1, parent, child, i, n, need[i]);
      var (m2, ok) := AllocTables(m1, need[i]);
      if !ok then
        UnmapRangeRemoves(m2, child, 0, i);
        (UnmapRange(m2, child, 0, i), false)
      else
        CopyLink(m2, parent, child, i, n);
        CopyLoop(Link(m2, Slot(parent, i), Slot(child, i)), parent, child, i + 1, n, need)
  }

  /** A mapping of another process keeps its frame and contents, and stays writable or becomes copy-on-write. */
  ghost predicate OtherKept(m: Mem, n: Mem, s: Slot) {
    s in m.pt ==>
      && s in n.pt && n.pt[s].pa == m.pt[s].pa && n.pt[s].u == m.pt[s].u && Reads(n, s) == Reads(m, s)
      && (m.pt[s].w || m.pt[s].cow ==> n.pt[s].w || n.pt[s].cow)
  }

  /** What rounds i .. n-1 of uvmcopy leave of the mappings outside the child. */
  ghost predicate OthersKept(m: Mem, r: Mem, child: int) {
    forall s: Slot | s.pid != child :: OtherKept(m, r, s) && (s in r.pt ==> s in m.pt)
  }

  lemma OthersKeptTrans(a: Mem, b: Mem, c: Mem, child: int)
    requires OthersKept(a, b, child) && OthersKept(b, c, child)
    ensures OthersKept(a, c, child)
  {
    forall s: Slot | s.pid != child ensures OtherKept(a, c, s) && (s in c.pt ==> s in a.pt) {
      assert OtherKept(a, b, s) && OtherKept(b, c, s);
    }
  }

  ghost predicate AllInUseKept(m: Mem, n: Mem) {
    forall p: nat :: InUseKept(m, n, p)
  }

  lemma AllInUseKeptTrans(a: Mem, b: Mem, c: Mem)
    requires AllInUseKept(a, b) && AllInUseKept(b, c)
    ensures AllInUseKept(a, c)
  {
    forall p: nat ensures InUseKept(a, c, p) {
      assert InUseKept(a, b, p) && InUseKept(b, c, p);
    }
  }

  /** The first part of a round: the parent loses PTE_W, page-table pages are allocated. */
  lemma RoundTables(m: Mem, parent: int, child: int, i: int, n: int, k: nat)
    requires CopyReady(m, parent, child, i, n) && i < n
    ensures var m1 := Downgrade(m, Slot(parent, i));
            CopyReady(m1, parent, child, i, n)
            && var r := AllocTables(m1, k).0;
            CopyReady(r, parent, child, i, n) && r.pt == m1.pt
            && OthersKept(m, r, child) && AllInUseKept(m, r) && SameFrames(m, r)
  {
    var s := Slot(parent, i);
    DowngradeKeepsInv(m, s);
    CopyDowngrade(m, parent, child, i, n);
    var m1 := Downgrade(m, s);
    CopyTables(m1, parent, child, i, n, k);
    AllocTablesKeeps(m1, k);
    var r := AllocTables(m1, k).0;
    forall p: nat ensures InUseKept(m, r, p) {
      assert InUseKept(m1, r, p);
    }
    forall x: Slot | x.pid != child ensures OtherKept(m, r, x) {
      assert Reads(m1, x) == Reads(m, x);
    }
  }

  lemma RoundLink(m: Mem, parent: int, child: int, i: int, n: int)
    requires CopyReady(m, parent, child, i, n) && i < n && !m.pt[Slot(parent, i)].w
    ensures Managed(m, m.pt[Slot(parent, i)].pa)
    ensures var r := Link(m, Slot(parent, i), Slot(child, i));
            && CopyReady(r, parent, child, i + 1, n)
            && OthersKept(m, r, child) && AllInUseKept(m, r) && SameFrames(m, r)
  {
    var s, t := Slot(parent, i), Slot(child, i);
    ChildLacksNext(m, parent, child, i, n);
    LinkKeepsInv(m, s, t);
    CopyLink(m, parent, child, i, n);
    var r := Link(m, s, t);
    forall x: Slot | x.pid != child ensures OtherKept(m, r, x) {
      assert Reads(r, x) == Reads(m, x);
    }
  }

  /** The kernel's references to frames in use are as they were. */
  ghost predicate KernelKept(m: Mem, n: Mem) {
    forall p: nat | Managed(m, p) && m.refs[p] > 0 :: n.kernel[p] == m.kernel[p]
  }

  /**
   What uvmcopy leaves. Other processes keep their mappings and contents. On success the child maps
   exactly the parent's pages, through the same PTEs; on failure it maps nothing.
   */
  ghost predicate CopyResult(m: Mem, r: Mem, ok: bool, parent: int, child: int, n: int) {
    && OthersKept(m, r, child) && KernelKept(m, r) && SameFrames(m, r)
    && (ok ==> CopyReady(r, parent, child, n, n))
    && (!ok ==> forall t | t in r.pt :: t.pid != child)
  }

  lemma CopyCompose(m: Mem, m3: Mem, r: Mem, ok: bool, parent: int, child: int, n: int)
    requires OthersKept(m, m3, child) && AllInUseKept(m, m3) && SameFrames(m, m3)
    requires CopyResult(m3, r, ok, parent, child, n)
    ensures CopyResult(m, r, ok, parent, child, n)
  {
    OthersKeptTrans(m, m3, r, child);
    forall p: nat | Managed(m, p) && m.refs[p] > 0 ensures r.kernel[p] == m.kernel[p] {
      assert InUseKept(m, m3, p);
    }
  }

  /** One whole round that succeeds. */
  lemma RoundSucceeds(m: Mem, m2: Mem, parent: int, child: int, i: int, n: int)
    requires CopyReady(m2, parent, child, i, n) && i < n && !m2.pt[Slot(parent, i)].w
    requires OthersKept(m, m2, child) && AllInUseKept(m, m2) && SameFrames(m, m2)
    ensures Managed(m2, m2.pt[Slot(parent, i)].pa)
    ensures var m3 := Link(m2, Slot(parent, i), Slot(child, i));
            && CopyReady(m3, parent, child, i + 1, n)
            && OthersKept(m, m3, child) && AllInUseKept(m, m3) && SameFrames(m, m3)
  {
    RoundLink(m2, parent, child, i, n);
    var m3 := Link(m2, Slot(parent, i), Slot(child, i));
    OthersKeptTrans(m, m2, m3, child);
    AllInUseKeptTrans(m, m2, m3);
  }

  /** CopyLoop, one round unfolded. */
  lemma CopyLoopUnfolds(m: Mem, parent: int, child: int, i: int, n: int, need: seq<nat>, m2: Mem, ok: bool)
    requires CopyReady(m, parent, child, i, n) && |need| == n && i < n
    requires Inv(Downgrade(m, Slot(parent, i)))
    requires (m2, ok) == AllocTables(Downgrade(m, Slot(parent, i)), need[i])
    requires CopyReady(m2, parent, child, i, n)
    requires ok ==>
      && m2.pt[Slot(parent, i)].pa < |m2.refs|
      && CopyReady(Link(m2, Slot(parent, i), Slot(child, i)), parent, child, i + 1, n)
    ensures CopyLoop(m, parent, child, i, n, need)
            == if ok then CopyLoop(Link(m2, Slot(parent, i), Slot(child, i)), parent, child, i + 1, n, need)
               else (UnmapRange(m2, child, 0, i), false)
  {
  }

  /** The page-table pages that pages i .. k-1 lack. */
  function Tables(need: seq<nat>, i: int, k: int): nat
    requires 0 <= i <= k <= |need|
    decreases k - i
  {
    if i == k then 0 else need[i] + Tables(need, i + 1, k)
  }

  /**
   uvmcopy over every way memory can run out: what it leaves, and that it succeeds exactly if there is a free
   page for each page-table page it needs; it takes those and no others.
   */
  lemma {:induction false} CopyLoopResult(m: Mem, parent: int, child: int, i: int, n: int, need: seq<nat>)
    returns (r: Mem, done: bool)
    requires CopyReady(m, parent, child, i, n) && |need| == n
    ensures CopyLoop(m, parent, child, i, n, need) == (r, done)
    ensures CopyResult(m, r, done, parent, child, n)
    ensures done <==> Tables(need, i, n) <= |m.free|
    ensures |r.free| == if done then |m.free| - Tables(need, i, n) else 0
    decreases n - i
  {
    if i == n {
      r, done := m, true;
    } else {
      RoundTables(m, parent, child, i, n, need[i]);
      AllocTablesCount(Downgrade(m, Slot(parent, i)), need[i]);
      var (m2, ok) := AllocTables(Downgrade(m, Slot(parent, i)), need[i]);
      if ok {
        RoundSucceeds(m, m2, parent, child, i, n);
        CopyLoopUnfolds(m, parent, child, i, n, need, m2, ok);
        var m3 := Link(m2, Slot(parent, i), Slot(child, i));
        r, done := CopyLoopResult(m3, parent, child, i + 1, n, need);
        CopyCompose(m, m3, r, done, parent, child, n);
      } else {
        CopyLoopUnfolds(m, parent, child, i, n, need, m2, ok);
        CopyFails(m, m2, parent, child, i, n);
        UnmapSharedFreesNothing(m2, parent, child, i, n, i);
        r, done := UnmapRange(m2, child, 0, i), false;
      }
    }
  }

  /** Undoing a copy: the parent still maps every page the child gives up, so kfree frees none of them. */
  lemma {:induction false} UnmapSharedFreesNothing(m: Mem, parent: int, child: int, i: int, n: int, k: int)
    requires CopyReady(m, parent, child, i, n) && 0 <= k <= i
    ensures UnmapRange(m, child, 0, k).free == m.free
    decreases k
  {
    if k > 0 {
      UnmapSharedFreesNothing(m, parent, child, i, n, k - 1);
      UnmapRangeNext(m, child, 0, k - 1);
      UnmapRangeRemoves(m, child, 0, k - 1);
      SharedFrame(UnmapRange(m, child, 0, k - 1), Slot(parent, k - 1), Slot(child, k - 1));
    }
  }

  lemma SharedFrame(m: Mem, s: Slot, t: Slot)
    requires Inv(m) && s in m.pt && t in m.pt && s != t && m.pt[s].pa == m.pt[t].pa
    ensures Managed(m, m.pt[t].pa) && m.refs[m.pt[t].pa] >= 2
  {
    MappedFrame(m, t);
    if m.refs[m.pt[t].pa] == 1 {
      SharedIsNotPrivate(m, t, s);
    }
  }

  /** `r` has the mappings of `m` outside the child, and exactly pages i .. k-1 of the parent lost PTE_W for PTE_COW. */
  ghost predicate MarkedRange(m: Mem, r: Mem, parent: int, child: int, i: int, k: int) {
    forall s | s in m.pt && s.pid != child ::
      s in r.pt && r.pt[s] == if InRange(s, parent, i, k) then m.pt[s].(w := false, cow := true) else m.pt[s]
  }

  lemma MarkedOneMore(m: Mem, m2: Mem, m3: Mem, r: Mem, parent: int, child: int, i: int, k: int)
    requires i < k && Slot(parent, i) in m.pt && m2.pt == Downgrade(m, Slot(parent, i)).pt
    requires m3.pt == m2.pt[Slot(child, i) := m2.pt[Slot(parent, i)]]
    requires MarkedRange(m3, r, parent, child, i + 1, k)
    ensures MarkedRange(m, r, parent, child, i, k)
  {
    forall s | s in m.pt && s.pid != child
      ensures s in r.pt && r.pt[s] == if InRange(s, parent, i, k) then m.pt[s].(w := false, cow := true) else m.pt[s]
    {
      assert s in m3.pt;
      assert InRange(s, parent, i, k) <==> InRange(s, parent, i + 1, k) || s == Slot(parent, i);
    }
  }

  /** A round without the page-table pages it needs: the parent's page is marked all the same. */
  lemma MarkedOnFailure(m: Mem, m2: Mem, parent: int, child: int, i: int, n: int)
    requires CopyReady(m2, parent, child, i, n) && i < n
    requires Slot(parent, i) in m.pt && m2.pt == Downgrade(m, Slot(parent, i)).pt
    ensures MarkedRange(m, UnmapRange(m2, child, 0, i), parent, child, i, i + 1)
  {
    UnmapRangeRemoves(m2, child, 0, i);
    forall s | s in m.pt && s.pid != child ensures InRange(s, parent, i, i + 1) <==> s == Slot(parent, i) {
    }
  }

  /**
   The PTEs uvmcopy leaves outside the child, whatever they were: all n pages of the parent are copy-on-write on
   success, those up to and including the page k-1 it failed at otherwise; every other PTE is untouched.
   */
  lemma {:induction false} CopyLoopMarks(m: Mem, parent: int, child: int, i: int, n: int, need: seq<nat>)
    returns (r: Mem, done: bool, k: int)
    requires CopyReady(m, parent, child, i, n) && |need| == n
    ensures CopyLoop(m, parent, child, i, n, need) == (r, done)
    ensures if done then k == n else StopsAt(need, i, k, |m.free|)
    ensures MarkedRange(m, r, parent, child, i, k)
    decreases n - i
  {
    if i == n {
      r, done, k := m, true, n;
    } else {
      var m2, ok := CopyRound(m, parent, child, i, n, need);
      if ok {
        var m3 := Link(m2, Slot(parent, i), Slot(child, i));
        r, done, k := CopyLoopMarks(m3, parent, child, i + 1, n, need);
        if !done {
          StopsLater(need, i, k, |m.free|);
        }
        MarkedOneMore(m, m2, m3, r, parent, child, i, k);
      } else {
        MarkedOnFailure(m, m2, parent, child, i, n);
        r, done, k := UnmapRange(m2, child, 0, i), false, i + 1;
      }
    }
  }

  /** The free pages are enough for the page-table pages of pages i .. k-2, not for those of page k-1. */
  ghost predicate StopsAt(need: seq<nat>, i: int, k: int, free: nat) {
    0 <= i < k <= |need| && Tables(need, i, k - 1) <= free < Tables(need, i, k)
  }

  lemma StopsLater(need: seq<nat>, i: int, k: int, free: nat)
    requires 0 <= i < |need| && need[i] <= free && StopsAt(need, i + 1, k, free - need[i])
    ensures StopsAt(need, i, k, free)
  {
  }

  /** CopyLoop by one round: the PTEs and the free pages before and after it. */
  lemma CopyRound(m: Mem, parent: int, child: int, i: int, n: int, need: seq<nat>) returns (m2: Mem, ok: bool)
    requires CopyReady(m, parent, child, i, n) && |need| == n && i < n
    ensures CopyReady(m2, parent, child, i, n) && m2.pt == Downgrade(m, Slot(parent, i)).pt
    ensures ok ==> m2.pt[Slot(parent, i)].pa < |m2.refs| && |m2.free| == |m.free| - need[i]
    ensures ok ==> CopyReady(Link(m2, Slot(parent, i), Slot(child, i)), parent, child, i + 1, n)
    ensures !ok ==> StopsAt(need, i, i + 1, |m.free|)
    ensures CopyLoop(m, parent, child, i, n, need)
            == if ok then CopyLoop(Link(m2, Slot(parent, i), Slot(child, i)), parent, child, i + 1, n, need)
               else (UnmapRange(m2, child, 0, i), false)
  {
    RoundTables(m, parent, child, i, n, need[i]);
    AllocTablesCount(Downgrade(m, Slot(parent, i)), need[i]);
    var r := AllocTables(Downgrade(m, Slot(parent, i)), need[i]);
    m2, ok := r.0, r.1;
    if ok {
      CopyLink(m2, parent, child, i, n);
    } else {
      assert Tables(need, i, i + 1) == need[i] + Tables(need, i + 1, i + 1);
    }
    CopyLoopUnfolds(m, parent, child, i, n, need, m2, ok);
  }

  /**
   The page tables after uvmcopy. On success parent and child map pages 0 .. n-1 through the same PTEs, those of the
   parent with PTE_COW for PTE_W; on failure the child maps nothing. No other process's PTE changes.
   */
  ghost predicate SharedPages(m: Mem, r: Mem, ok: bool, parent: int, child: int, n: int) {
    && (ok ==> forall v | 0 <= v < n ::
          && Slot(parent, v) in m.pt && Slot(parent, v) in r.pt && Slot(child, v) in r.pt
          && r.pt[Slot(parent, v)] == m.pt[Slot(parent, v)].(w := false, cow := true)
          && r.pt[Slot(child, v)] == r.pt[Slot(parent, v)])
    && (!ok ==> forall s | s in r.pt :: s.pid != child)
    && (forall s: Slot | s.pid != parent && s.pid != child ::
          (s in r.pt <==> s in m.pt) && (s in m.pt ==> r.pt[s] == m.pt[s]))
  }

  lemma CopyOutcome(m: Mem, parent: int, child: int, n: int, need: seq<nat>)
    requires CopyReady(m, parent, child, 0, n) && |need| == n
    ensures var (r, ok) := CopyLoop(m, parent, child, 0, n, need);
            && (ok <==> Tables(need, 0, n) <= |m.free|)
            && |r.free| == (if ok then |m.free| - Tables(need, 0, n) else 0)
            && SharedPages(m, r, ok, parent, child, n)
  {
    var r, ok := CopyLoopResult(m, parent, child, 0, n, need);
    var _, _, _ := CopyLoopMarks(m, parent, child, 0, n, need);
    forall s: Slot | s.pid != parent && s.pid != child ensures s in r.pt <==> s in m.pt {
      assert OtherKept(m, r, s);
    }
  }

  lemma CopyFails(m: Mem, m2: Mem, parent: int, child: int, i: int, n: int)
    requires CopyReady(m2, parent, child, i, n)
    requires OthersKept(m, m2, child) && AllInUseKept(m, m2) && SameFrames(m, m2)
    ensures CopyResult(m, UnmapRange(m2, child, 0, i), false, parent, child, n)
  {
    UnmapRangeRemoves(m2, child, 0, i);
    var r := UnmapRange(m2, child, 0, i);
    forall p: nat | Managed(m, p) && m.refs[p] > 0 ensures r.kernel[p] == m.kernel[p] {
      assert InUseKept(m, m2, p);
    }
    forall s: Slot | s.pid != child ensures OtherKept(m2, r, s) && (s in r.pt ==> s in m2.pt) {
    }
    OthersKeptTrans(m, m2, r, child);
  }

  /** The same leaf mappings to the same frames, so the same counts. */
  lemma RefsRestored(m: Mem, r: Mem, p: nat)
    requires Inv(m) && Inv(r) && r.pt.Keys == m.pt.Keys && KernelKept(m, r) && SameFrames(m, r)
    requires forall s | s in m.pt :: r.pt[s].pa == m.pt[s].pa
    requires Managed(m, p) && m.refs[p] > 0
    ensures Managed(r, p) && r.refs[p] == m.refs[p]
  {
    assert Owners(r.pt, p) == Owners(m.pt, p);
    assert FrameOk(m, p) && FrameOk(r, p);
  }

  /** A failed fork leaves every leaf mapping and every data-page count as it was. */
  lemma FailedCopyRestores(m: Mem, parent: int, child: int, n: int, need: seq<nat>)
    requires CopyReady(m, parent, child, 0, n) && |need| == n
    requires !CopyLoop(m, parent, child, 0, n, need).1
    ensures var r := CopyLoop(m, parent, child, 0, n, need).0;
            && r.pt.Keys == m.pt.Keys
            && (forall s | s in m.pt :: r.pt[s].pa == m.pt[s].pa && Reads(r, s) == Reads(m, s))
            && (forall p: nat | Managed(m, p) && m.refs[p] > 0 :: Managed(r, p) && r.refs[p] == m.refs[p])
  {
    var r, _ := CopyLoopResult(m, parent, child, 0, n, need);
    forall s | s in m.pt ensures s in r.pt && r.pt[s].pa == m.pt[s].pa && Reads(r, s) == Reads(m, s) {
      assert OtherKept(m, r, s);
    }
    forall s | s in r.pt ensures s in m.pt {
      assert OtherKept(m, r, s);
    }
    assert r.pt.Keys == m.pt.Keys;
    forall p: nat | Managed(m, p) && m.refs[p] > 0 ensures Managed(r, p) && r.refs[p] == m.refs[p] {
      RefsRestored(m, r, p);
    }
  }

  // uvmalloc

  /** The state before the round for page i: pages first .. i-1 are mapped, those from i on are not. */
  ghost predicate GrowReady(m: Mem, pid: int, first: int, i: int, n: int) {
    && Inv(m) && first <= i <= n
    && Mapped(m, pid, first, i)
    && forall v | i <= v < n :: Slot(pid, v) !in m.pt
  }

  function Zero(m: Mem): Page {
    Junk(m, 0)
  }

  /** kalloc, then memset to 0. */
  ghost function KallocZeroed(m: Mem): Mem
    requires |m.free| > 0 && m.free[0] < |m.refs| == |m.data|
  {
    Kalloc(m).(data := m.data[m.free[0] := Zero(m)])
  }

  lemma KallocZeroedKeepsInv(m: Mem)
    requires Inv(m) && m.free != []
    ensures m.free[0] < |m.refs| && Inv(KallocZeroed(m)) && Fresh(KallocZeroed(m), m.free[0])
    ensures forall s :: Reads(KallocZeroed(m), s) == Reads(m, s)
  {
    KallocKeepsInv(m);
    FreeHead(m);
    var k, n := Kalloc(m), KallocZeroed(m);
    forall q: nat ensures FrameOk(n, q) {
      assert FrameOk(k, q);
    }
    forall s ensures SlotOk(n, s) {
      assert SlotOk(k, s);
    }
    forall s, t ensures NoAlias(n.pt, s, t) {
      assert NoAlias(k.pt, s, t);
    }
  }

  lemma GrowTables(m: Mem, pid: int, first: int, i: int, n: int, k: nat)
    requires GrowReady(m, pid, first, i, n) && i < n && m.free != []
    ensures m.free[0] < |m.refs| == |m.data| && Inv(KallocZeroed(m)) && m.refs[m.free[0]] == 0 && Managed(m, m.free[0])
    ensures var r := AllocTables(KallocZeroed(m), k).0;
            && GrowReady(r, pid, first, i, n) && Fresh(r, m.free[0]) && r.pt == m.pt && SameFrames(m, r)
            && (forall s :: Reads(r, s) == Reads(m, s))
            && AllInUseKept(m, r)
  {
    KallocZeroedKeepsInv(m);
    FreeHead(m);
    AllocTablesKeeps(KallocZeroed(m), k);
    var r := AllocTables(KallocZeroed(m), k).0;
    forall p: nat ensures InUseKept(m, r, p) {
      assert InUseKept(KallocZeroed(m), r, p);
    }
  }

  lemma GrowMap(m: Mem, pid: int, first: int, i: int, n: int, p: nat, w: bool)
    requires GrowReady(m, pid, first, i, n) && i < n && Fresh(m, p)
    ensures var r := MapFresh(m, Slot(pid, i), p, Zero(m), w);
            && GrowReady(r, pid, first, i + 1, n) && SameFrames(m, r)
            && (forall s :: Reads(r, s) == if s == Slot(pid, i) then Zero(m) else Reads(m, s))
  {
    MapFreshKeepsInv(m, Slot(pid, i), p, Zero(m), w);
  }

  lemma GrowGiveUp(m: Mem, pid: int, first: int, i: int, n: int, p: nat)
    requires GrowReady(m, pid, first, i, n) && Fresh(m, p)
    ensures GrowReady(FreeKernel(m, p), pid, first, i, n)
    ensures forall s :: Reads(FreeKernel(m, p), s) == Reads(m, s)
  {
    FreeKernelKeepsInv(m, p);
  }

  /** uvmalloc from page i on; the error paths give every page back. */
  ghost function GrowLoop(m: Mem, pid: int, first: int, i: int, n: int, need: map<int, nat>, w: bool): (r: (Mem, bool))
    requires GrowReady(m, pid, first, i, n) && forall v | first <= v < n :: v in need
    decreases n - i
  {
    if i == n then (m, true)
    else if m.free == [] then
      UnmapRangeRemoves(m, pid, first, i);
      (UnmapRange(m, pid, first, i), false)
    else
      GrowTables(m, pid, first, i, n, need[i]);
      var p := m.free[0];
      var (m2, ok) := AllocTables(KallocZeroed(m), need[i]);
      if !ok then
        GrowGiveUp(m2, pid, first, i, n, p);
        UnmapRangeRemoves(FreeKernel(m2, p), pid, first, i);
        (UnmapRange(FreeKernel(m2, p), pid, first, i), false)
      else
        GrowMap(m2, pid, first, i, n, p, w);
        GrowLoop(MapFresh(m2, Slot(pid, i), p, Zero(m2), w), pid, first, i + 1, n, need, w)
  }

  lemma GrowLoopUnfolds(m: Mem, pid: int, first: int, i: int, n: int, need: map<int, nat>, w: bool, m2: Mem, ok: bool)
    requires GrowReady(m, pid, first, i, n) && (forall v | first <= v < n :: v in need) && i < n
    requires m.free != [] && m.free[0] < |m.refs| && Inv(KallocZeroed(m))
    requires (m2, ok) == AllocTables(KallocZeroed(m), need[i])
    requires m.free[0] < |m2.refs| == |m2.data|
    requires ok ==> GrowReady(MapFresh(m2, Slot(pid, i), m.free[0], Zero(m2), w), pid, first, i + 1, n)
    requires !ok ==> GrowReady(FreeKernel(m2, m.free[0]), pid, first, i, n)
    ensures GrowLoop(m, pid, first, i, n, need, w)
            == if ok then GrowLoop(MapFresh(m2, Slot(pid, i), m.free[0], Zero(m2), w), pid, first, i + 1, n, need, w)
               else (UnmapRange(FreeKernel(m2, m.free[0]), pid, first, i), false)
  {
  }

  /** A user page with the permission asked for and without PTE_COW. */
  predicate Grown(pte: Pte, w: bool) {
    pte.u && pte.w == w && !pte.cow
  }

  /** What uvmalloc leaves: pages outside first .. n-1 as they were; those pages all zero, or none at all. */
  ghost predicate GrowResult(m: Mem, r: Mem, ok: bool, pid: int, first: int, i: int, n: int, w: bool) {
    && Inv(r) && SameFrames(m, r) && KernelKept(m, r)
    && (forall s | !InRange(s, pid, first, n) :: (s in r.pt <==> s in m.pt) && Reads(r, s) == Reads(m, s))
    && (forall s | s in r.pt && !InRange(s, pid, first, n) :: r.pt[s] == m.pt[s])
    && (forall s | InRange(s, pid, first, n) :: s in r.pt <==> ok)
    && (ok ==> forall s | InRange(s, pid, i, n) :: Reads(r, s) == Zero(m) && s in r.pt && Grown(r.pt[s], w))
    && (ok ==> forall s | InRange(s, pid, first, i) ::
      Reads(r, s) == Reads(m, s) && s in m.pt && s in r.pt && r.pt[s] == m.pt[s])
  }

  lemma GrowFails(m: Mem, m2: Mem, pid: int, first: int, i: int, n: int, w: bool)
    requires GrowReady(m2, pid, first, i, n) && SameFrames(m, m2) && KernelKept(m, m2)
    requires m2.pt == m.pt && forall s :: Reads(m2, s) == Reads(m, s)
    ensures GrowResult(m, UnmapRange(m2, pid, first, i), false, pid, first, i, n, w)
  {
    UnmapRangeRemoves(m2, pid, first, i);
    var r := UnmapRange(m2, pid, first, i);
    forall s | InRange(s, pid, first, n) ensures s !in r.pt {
      assert s == Slot(pid, s.vpn);
    }
    forall s | !InRange(s, pid, first, n) ensures Reads(r, s) == Reads(m, s) {
      assert !InRange(s, pid, first, i);
    }
  }

  lemma GrowCompose(m: Mem, m2: Mem, m3: Mem, r: Mem, ok: bool, pid: int, first: int, i: int, n: int, w: bool)
    requires first <= i < n && SameFrames(m, m2) && SameFrames(m2, m3) && AllInUseKept(m, m3)
    requires m2.pt == m.pt && forall s :: Reads(m2, s) == Reads(m, s)
    requires m3.pt.Keys == m2.pt.Keys + {Slot(pid, i)}
    requires forall s | s in m2.pt && s != Slot(pid, i) :: m3.pt[s] == m2.pt[s]
    requires forall s :: Reads(m3, s) == if s == Slot(pid, i) then Zero(m2) else Reads(m2, s)
    requires Grown(m3.pt[Slot(pid, i)], w)
    requires GrowResult(m3, r, ok, pid, first, i + 1, n, w)
    ensures GrowResult(m, r, ok, pid, first, i, n, w)
  {
    forall p: nat | Managed(m, p) && m.refs[p] > 0 ensures r.kernel[p] == m.kernel[p] {
      assert InUseKept(m, m3, p);
    }
    forall s | !InRange(s, pid, first, n)
      ensures (s in r.pt <==> s in m.pt) && Reads(r, s) == Reads(m, s) && (s in r.pt ==> r.pt[s] == m.pt[s])
    {
      assert s != Slot(pid, i);
    }
    if ok {
      forall s | InRange(s, pid, i, n) ensures Reads(r, s) == Zero(m) && s in r.pt && Grown(r.pt[s], w) {
        assert s == Slot(pid, s.vpn);
        assert s.vpn == i ==> InRange(s, pid, first, i + 1);
        assert s.vpn > i ==> InRange(s, pid, i + 1, n);
      }
      forall s | InRange(s, pid, first, i)
          ensures Reads(r, s) == Reads(m, s) && s in m.pt && s in r.pt && r.pt[s] == m.pt[s] {
        assert InRange(s, pid, first, i + 1) && s != Slot(pid, i);
      }
    }
  }

  lemma FreshNotInUse(m: Mem, m2: Mem, m3: Mem, p: nat)
    requires Managed(m, p) && m.refs[p] == 0 && AllInUseKept(m, m2)
    requires m3.refs == m2.refs && |m3.data| == |m2.data| && m3.lo == m2.lo && m3.kernel == m2.kernel - multiset{p}
    ensures AllInUseKept(m, m3)
  {
    forall q: nat ensures InUseKept(m, m3, q) {
      assert InUseKept(m, m2, q);
    }
  }

  lemma FreshGivenBack(m: Mem, m2: Mem, p: nat)
    requires Managed(m, p) && m.refs[p] == 0 && AllInUseKept(m, m2) && p < |m2.refs| == |m2.data|
    ensures KernelKept(m, FreeKernel(m2, p))
  {
    forall q: nat | Managed(m, q) && m.refs[q] > 0 ensures FreeKernel(m2, p).kernel[q] == m.kernel[q] {
      assert InUseKept(m, m2, q);
    }
  }

  /** A failed uvmalloc leaves every leaf mapping and every data-page count as it was. */
  lemma FailedGrowRestores(m: Mem, pid: int, first: int, n: int, need: map<int, nat>, w: bool)
    requires GrowReady(m, pid, first, first, n) && forall v | first <= v < n :: v in need
    requires !GrowLoop(m, pid, first, first, n, need, w).1
    ensures var r := GrowLoop(m, pid, first, first, n, need, w).0;
            && r.pt == m.pt
            && (forall s :: Reads(r, s) == Reads(m, s))
            && (forall p: nat | Managed(m, p) && m.refs[p] > 0 :: Managed(r, p) && r.refs[p] == m.refs[p])
  {
    var r, _ := GrowLoopResult(m, pid, first, first, n, need, w);
    forall s ensures (s in r.pt <==> s in m.pt) && Reads(r, s) == Reads(m, s) && (s in r.pt ==> r.pt[s] == m.pt[s]) {
      if InRange(s, pid, first, n) {
        assert s == Slot(pid, s.vpn);
      }
    }
    assert r.pt == m.pt;
    forall p: nat | Managed(m, p) && m.refs[p] > 0 ensures Managed(r, p) && r.refs[p] == m.refs[p] {
      RefsRestored(m, r, p);
    }
  }

  /** The pages that mapping pages i .. n-1 takes: each page itself and the page-table pages it lacks. */
  function Pages(need: map<int, nat>, i: int, n: int): nat
    requires i <= n && forall v | i <= v < n :: v in need
    decreases n - i
  {
    if i == n then 0 else 1 + need[i] + Pages(need, i + 1, n)
  }

  /** A round of uvmalloc that runs out of memory, for the page itself or for a page-table page. */
  lemma GrowStops(m: Mem, pid: int, first: int, i: int, n: int, need: map<int, nat>, w: bool) returns (r: Mem)
    requires GrowReady(m, pid, first, i, n) && (forall v | first <= v < n :: v in need) && i < n
    requires m.free != [] ==>
            m.free[0] < |m.refs| == |m.data| && Inv(KallocZeroed(m)) && !AllocTables(KallocZeroed(m), need[i]).1
    ensures GrowLoop(m, pid, first, i, n, need, w) == (r, false)
    ensures GrowResult(m, r, false, pid, first, i, n, w)
    ensures Pages(need, i, n) > |m.free|
  {
    if m.free == [] {
      r := UnmapRange(m, pid, first, i);
      GrowFails(m, m, pid, first, i, n, w);
    } else {
      GrowTables(m, pid, first, i, n, need[i]);
      AllocTablesCount(KallocZeroed(m), need[i]);
      var p, m2 := m.free[0], AllocTables(KallocZeroed(m), need[i]).0;
      GrowGiveUp(m2, pid, first, i, n, p);
      GrowLoopUnfolds(m, pid, first, i, n, need, w, m2, false);
      r := UnmapRange(FreeKernel(m2, p), pid, first, i);
      FreshGivenBack(m, m2, p);
      GrowFails(m, FreeKernel(m2, p), pid, first, i, n, w);
    }
  }

  /**
   uvmalloc over every way memory can run out: what it leaves, and that it succeeds exactly if there are enough
   free pages; it takes as many as it needs and no more.
   */
  lemma {:induction false} GrowLoopResult(m: Mem, pid: int, first: int, i: int, n: int, need: map<int, nat>, w: bool)
    returns (r: Mem, done: bool)
    requires GrowReady(m, pid, first, i, n) && forall v | first <= v < n :: v in need
    ensures GrowLoop(m, pid, first, i, n, need, w) == (r, done)
    ensures GrowResult(m, r, done, pid, first, i, n, w)
    ensures done <==> Pages(need, i, n) <= |m.free|
    ensures done ==> |r.free| == |m.free| - Pages(need, i, n)
    decreases n - i
  {
    if i == n {
      r, done := m, true;
      GrowNothing(m, pid, first, n, w);
    } else {
      if m.free != [] {
        GrowTables(m, pid, first, i, n, need[i]);
        AllocTablesCount(KallocZeroed(m), need[i]);
        var p, m2 := m.free[0], AllocTables(KallocZeroed(m), need[i]).0;
        if AllocTables(KallocZeroed(m), need[i]).1 {
          GrowMap(m2, pid, first, i, n, p, w);
          var m3 := MapFresh(m2, Slot(pid, i), p, Zero(m2), w);
          GrowLoopUnfolds(m, pid, first, i, n, need, w, m2, true);
          r, done := GrowLoopResult(m3, pid, first, i + 1, n, need, w);
          FreshNotInUse(m, m2, m3, p);
          GrowCompose(m, m2, m3, r, done, pid, first, i, n, w);
          return;
        }
      }
      r := GrowStops(m, pid, first, i, n, need, w);
      done := false;
    }
  }

  lemma GrowNothing(m: Mem, pid: int, first: int, n: int, w: bool)
    requires GrowReady(m, pid, first, n, n)
    ensures GrowResult(m, m, true, pid, first, n, n, w)
  {
    forall s | InRange(s, pid, first, n) ensures s in m.pt {
      assert s == Slot(pid, s.vpn);
    }
  }
}
