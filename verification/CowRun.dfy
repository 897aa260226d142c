/**
 Stores and copyouts over shared frames: what a store that is not fatal does, and which copyouts
 write into another process's page.

 A user address is a virtual page number and an offset below the page size.
 */
module CowRun {
  import opened CowMemory
  import opened CowFork

  // Stores

  /** The store-page-fault branch of usertrap; None means the process is killed. */
  ghost function StoreFault(m: Mem, s: Slot, off: nat): Option<Mem>
    requires Inv(m)
  {
    if s.vpn == 0 && off == 0 then None
    else if s !in m.pt then None
    else if !m.pt[s].w && !m.pt[s].cow then None
    else if m.pt[s].w || !m.pt[s].u then None
    else if m.free == [] then None
    else
      KallocKeepsInv(m);
      MappedFrame(m, s);
      Some(Resolve(Kalloc(m), s, m.free[0]))
  }

  /** `n` is `m` except that slot s has its own writable frame; everybody reads what they did. */
  ghost predicate MadePrivate(m: Mem, n: Mem, s: Slot) {
    && Inv(n) && SameFrames(m, n) && s in n.pt && n.pt[s].w && n.pt[s].u
    && (forall t :: t in n.pt <==> t in m.pt)
    && (forall t | t in n.pt && t != s :: n.pt[t] == m.pt[t])
    && (forall t :: Reads(n, t) == Reads(m, t))
  }

  lemma ResolveMakesPrivate(m: Mem, s: Slot)
    requires Inv(m) && s in m.pt && m.free != []
    ensures m.free[0] < |m.refs| && m.pt[s].pa < |m.refs| && MadePrivate(m, Resolve(Kalloc(m), s, m.free[0]), s)
  {
    KallocKeepsInv(m);
    MappedFrame(m, s);
    ResolveKeepsInv(Kalloc(m), s, m.free[0]);
  }

  /** One byte stored by user code: directly if PTE_W allows, else after the fault is resolved. */
  ghost function Store(m: Mem, s: Slot, off: nat, b: int): Option<Mem>
    requires Inv(m) && off < m.pgsize
  {
    if s in m.pt && m.pt[s].u && m.pt[s].w then
      MappedFrame(m, s);
      Some(Poke(m, s, Reads(m, s)[off := b]))
    else
      match StoreFault(m, s, off)
      case None => None
      case Some(n) =>
        ResolveMakesPrivate(m, s);
        MappedFrame(n, s);
        Some(Poke(n, s, Reads(n, s)[off := b]))
  }

  /** What a store that is not fatal does: one byte of one process changes. */
  ghost predicate Stored(m: Mem, n: Mem, s: Slot, off: nat, b: int) {
    && Inv(n) && SameFrames(m, n) && s in n.pt && n.pt[s].w && n.pt[s].u
    && off < |Reads(m, s)|
    && (forall t :: t in n.pt <==> t in m.pt)
    && (forall t | t in n.pt && t != s :: n.pt[t] == m.pt[t])
    && (forall t :: Reads(n, t) == if t == s then Reads(m, s)[off := b] else Reads(m, t))
  }

  lemma StoreKeeps(m: Mem, s: Slot, off: nat, b: int)
    requires Inv(m) && off < m.pgsize && Store(m, s, off, b).Some?
    ensures Stored(m, Store(m, s, off, b).value, s, off, b)
  {
    var k := m;
    if !(s in m.pt && m.pt[s].u && m.pt[s].w) {
      ResolveMakesPrivate(m, s);
      k := StoreFault(m, s, off).value;
    }
    MappedFrame(k, s);
    assert SlotOk(k, s);
    var page := Reads(k, s)[off := b];
    PokeKeepsInv(k, s, page);
    PokeReads(k, s, page);
  }

  // copyout

  /** `page` with `bytes` written at `off`. */
  function Splice(page: Page, off: nat, bytes: seq<int>): (r: Page)
    requires off + |bytes| <= |page|
    ensures |r| == |page|
  {
    page[..off] + bytes + page[off + |bytes|..]
  }

  function Min(a: nat, b: nat): nat {
    if a < b then a else b
  }

  /** The while loop of copyout: page by page through walkaddr, without looking at PTE_W or PTE_COW. */
  ghost function CopyBytes(m: Mem, s: Slot, off: nat, src: seq<int>): (r: (Mem, bool))
    requires Inv(m) && off < m.pgsize
    ensures Inv(r.0)
    decreases |src|
  {
    if src == [] then (m, true)
    else if s !in m.pt || !m.pt[s].u then (m, false)
    else
      var n := Min(m.pgsize - off, |src|);
      MappedFrame(m, s);
      var page := Splice(Reads(m, s), off, src[..n]);
      PokeKeepsInv(m, s, page);
      CopyBytes(Poke(m, s, page), Slot(s.pid, s.vpn + 1), 0, src[n..])
  }

  /** copyout: make the first page private, then copy. */
  ghost function Copyout(m: Mem, s: Slot, off: nat, src: seq<int>): (r: (Mem, bool))
    requires Inv(m) && off < m.pgsize
  {
    if s.vpn == 0 then (m, false)
    else if s !in m.pt then (m, false)
    else if !m.pt[s].w && !m.pt[s].cow then (m, false)
    else if !m.pt[s].u then (m, false)
    else if m.free == [] then (m, false)
    else
      ResolveMakesPrivate(m, s);
      CopyBytes(Resolve(Kalloc(m), s, m.free[0]), s, off, src)
  }

  /** Position in the source of the byte that goes to offset o of slot t, if the copy starts at s, off. */
  function Index(pg: nat, s: Slot, off: nat, t: Slot, o: nat): int {
    (t.vpn - s.vpn) * pg + o - off
  }

  /** What slot t should read after its owner copies `src` to slot s, offset off. */
  ghost function Expected(m: Mem, s: Slot, off: nat, src: seq<int>, t: Slot): Page {
    if t.pid != s.pid then Reads(m, t)
    else
      seq(|Reads(m, t)|, o requires 0 <= o < |Reads(m, t)| =>
        var k := Index(m.pgsize, s, off, t, o);
        if 0 <= k < |src| then src[k] else Reads(m, t)[o])
  }

  /** Some byte of slot t is written by the copy. */
  ghost predicate Written(m: Mem, s: Slot, off: nat, len: nat, t: Slot) {
    t.pid == s.pid && exists o: nat | o < m.pgsize :: 0 <= Index(m.pgsize, s, off, t, o) < len
  }

  lemma IndexNextPage(pg: nat, s: Slot, off: nat, t: Slot, o: nat)
    requires off < pg && o < pg
    ensures Index(pg, Slot(s.pid, s.vpn + 1), 0, t, o) == Index(pg, s, off, t, o) - (pg - off)
    ensures t.vpn == s.vpn ==> Index(pg, s, off, t, o) == o - off
    ensures t.vpn < s.vpn ==> Index(pg, s, off, t, o) < 0
    ensures t.vpn > s.vpn ==> Index(pg, s, off, t, o) >= pg - off
  {
    var d := t.vpn - s.vpn;
    assert d * pg == (d - 1) * pg + pg;
    if d < 0 {
      MulNonNegative(-d - 1, pg);
      assert (-d - 1) * pg == -(d * pg) - pg;
    } else if d > 0 {
      MulNonNegative(d - 1, pg);
    }
  }

  lemma MulNonNegative(a: nat, b: nat)
    ensures a * b >= 0
  {
  }

  /** The first round of the loop delivers what is expected of its page and nothing of the others. */
  lemma FirstRound(m: Mem, s: Slot, off: nat, src: seq<int>, n: nat, page: Page, t: Slot)
    requires Inv(m) && off < m.pgsize && src != [] && s in m.pt && t in m.pt && t.pid == s.pid
    requires n == Min(m.pgsize - off, |src|) && |Reads(m, s)| == m.pgsize && m.pt[s].pa < |m.data|
    requires page == Splice(Reads(m, s), off, src[..n])
    ensures Expected(Poke(m, s, page), Slot(s.pid, s.vpn + 1), 0, src[n..], t) == Expected(m, s, off, src, t)
  {
    var k := Poke(m, s, page);
    MappedFrame(m, t);
    assert NoAlias(m.pt, s, t);
    forall o: nat | o < m.pgsize
      ensures Expected(k, Slot(s.pid, s.vpn + 1), 0, src[n..], t)[o] == Expected(m, s, off, src, t)[o]
    {
      IndexNextPage(m.pgsize, s, off, t, o);
      assert t.vpn == s.vpn ==> t == s;
    }
  }

  lemma CopyBytesNext(m: Mem, s: Slot, off: nat, src: seq<int>, len: nat, k: Mem, rest: seq<int>)
    requires Inv(m) && off < m.pgsize && src != [] && s in m.pt && m.pt[s].u
    requires len == Min(m.pgsize - off, |src|) && rest == src[len..] && m.pt[s].pa < |m.data| && len <= |src|
    requires off + len <= |Reads(m, s)| && k == Poke(m, s, Splice(Reads(m, s), off, src[..len])) && Inv(k)
    ensures CopyBytes(m, s, off, src) == CopyBytes(k, Slot(s.pid, s.vpn + 1), 0, rest)
  {
  }

  /** The pages of the copying process hold what is expected; frames it does not map are untouched. */
  lemma {:induction false} CopyBytesOwn(m: Mem, s: Slot, off: nat, src: seq<int>) returns (n: Mem)
    requires Inv(m) && off < m.pgsize && CopyBytes(m, s, off, src).1
    ensures n == CopyBytes(m, s, off, src).0
    ensures n.pt == m.pt && SameFrames(m, n)
    ensures forall t | t in m.pt && t.pid == s.pid :: Reads(n, t) == Expected(m, s, off, src, t)
    ensures forall p: nat | p < |m.data| && (forall t | t in m.pt && t.pid == s.pid :: m.pt[t].pa != p) ::
              n.data[p] == m.data[p]
    decreases |src|
  {
    if src == [] {
      n := m;
      forall t | t in m.pt && t.pid == s.pid ensures Reads(n, t) == Expected(m, s, off, src, t) {
      }
    } else {
      var len := Min(m.pgsize - off, |src|);
      MappedFrame(m, s);
      var page := Splice(Reads(m, s), off, src[..len]);
      PokeKeepsInv(m, s, page);
      var k, rest := Poke(m, s, page), src[len..];
      CopyBytesNext(m, s, off, src, len, k, rest);
      n := CopyBytesOwn(k, Slot(s.pid, s.vpn + 1), 0, rest);
      forall t | t in m.pt && t.pid == s.pid ensures Reads(n, t) == Expected(m, s, off, src, t) {
        FirstRound(m, s, off, src, len, page, t);
      }
    }
  }

  /** No other mapping shares the frame of slot t. */
  ghost predicate Unshared(m: Mem, t: Slot)
    requires t in m.pt
  {
    Owners(m.pt, m.pt[t].pa) == {t}
  }

  /** Every process reads what it should after the copy. */
  ghost predicate Delivers(m: Mem, n: Mem, s: Slot, off: nat, src: seq<int>) {
    forall t | t in m.pt :: Reads(n, t) == Expected(m, s, off, src, t)
  }

  lemma NotWrittenExpected(m: Mem, s: Slot, off: nat, src: seq<int>, t: Slot)
    requires !Written(m, s, off, |src|, t) && |Reads(m, t)| <= m.pgsize
    ensures Expected(m, s, off, src, t) == Reads(m, t)
  {
    if t.pid == s.pid {
      forall o: nat | o < |Reads(m, t)| ensures Expected(m, s, off, src, t)[o] == Reads(m, t)[o] {
        assert !(0 <= Index(m.pgsize, s, off, t, o) < |src|);
      }
    }
  }

  /** If the written pages are not shared, the loop delivers. */
  lemma UnsharedDelivers(m: Mem, s: Slot, off: nat, src: seq<int>)
    requires Inv(m) && off < m.pgsize && CopyBytes(m, s, off, src).1
    requires forall t | t in m.pt && Written(m, s, off, |src|, t) :: Unshared(m, t)
    ensures Delivers(m, CopyBytes(m, s, off, src).0, s, off, src)
  {
    var n := CopyBytesOwn(m, s, off, src);
    forall t | t in m.pt && t.pid != s.pid ensures Reads(n, t) == Reads(m, t) {
      MappedFrame(m, t);
      var p := m.pt[t].pa;
      if x :| x in m.pt && x.pid == s.pid && m.pt[x].pa == p {
        MappedFrame(m, x);
        assert {t, x} <= Owners(m.pt, p);
        assert !Unshared(m, x);
        NotWrittenExpected(m, s, off, src, x);
      }
    }
  }

  /** Whether the loop succeeds depends on the page table and the length only. */
  lemma {:induction false} SuccessByLength(m: Mem, k: Mem, s: Slot, off: nat, src: seq<int>, other: seq<int>)
    requires Inv(m) && Inv(k) && k.pt == m.pt && k.pgsize == m.pgsize && off < m.pgsize && |src| == |other|
    ensures CopyBytes(m, s, off, src).1 == CopyBytes(k, s, off, other).1
    decreases |src|
  {
    if src != [] && s in m.pt && m.pt[s].u {
      var len := Min(m.pgsize - off, |src|);
      MappedFrame(m, s);
      MappedFrame(k, s);
      var page, page' := Splice(Reads(m, s), off, src[..len]), Splice(Reads(k, s), off, other[..len]);
      PokeKeepsInv(m, s, page);
      PokeKeepsInv(k, s, page');
      SuccessByLength(Poke(m, s, page), Poke(k, s, page'), Slot(s.pid, s.vpn + 1), 0, src[len..], other[len..]);
    }
  }

  /** If a written page is shared, some bytes of the same length reach another process. */
  lemma SharedLeaks(m: Mem, s: Slot, off: nat, src: seq<int>, t: Slot) returns (bad: seq<int>)
    requires Inv(m) && off < m.pgsize && CopyBytes(m, s, off, src).1
    requires t in m.pt && Written(m, s, off, |src|, t) && !Unshared(m, t)
    ensures |bad| == |src| && !Delivers(m, CopyBytes(m, s, off, bad).0, s, off, bad)
  {
    var p := m.pt[t].pa;
    assert t in Owners(m.pt, p);
    var x :| x in Owners(m.pt, p) && x != t;
    assert NoAlias(m.pt, t, x);
    MappedFrame(m, t);
    var o: nat :| o < m.pgsize && 0 <= Index(m.pgsize, s, off, t, o) < |src|;
    var b := Reads(m, t)[o] + 1;
    bad := seq(|src|, i => b);
    SuccessByLength(m, m, s, off, src, bad);
    var n := CopyBytesOwn(m, s, off, bad);
    assert Expected(m, s, off, bad, t)[o] == b;
    assert Reads(n, x) == Reads(n, t);
    assert Reads(n, x)[o] != Reads(m, x)[o];
    assert Expected(m, s, off, bad, x) == Reads(m, x);
  }

  /** Making the first page private leaves sharing of the other pages of that process as it was. */
  lemma PrivateFirstPage(m: Mem, s: Slot, t: Slot)
    requires Inv(m) && s in m.pt && m.free != [] && t in m.pt && t.pid == s.pid
    ensures m.free[0] < |m.refs| && m.pt[s].pa < |m.refs|
    ensures var n := Resolve(Kalloc(m), s, m.free[0]);
            && t in n.pt && (t == s ==> Unshared(n, t)) && (t != s ==> (Unshared(n, t) <==> Unshared(m, t)))
  {
    ResolveMakesPrivate(m, s);
    FreeHead(m);
    var n := Resolve(Kalloc(m), s, m.free[0]);
    assert SlotOk(n, s);
    assert NoAlias(m.pt, s, t);
    if t != s {
      OwnersSet(m.pt, s, n.pt[s], m.pt[t].pa);
      assert Owners(n.pt, m.pt[t].pa) == Owners(m.pt, m.pt[t].pa);
    }
  }

  /** A copyout that succeeds delivers whatever bytes it copies exactly if no later page it writes is shared. */
  lemma WholeCopyoutCondition(m: Mem, s: Slot, off: nat, src: seq<int>)
    requires Inv(m) && off < m.pgsize && Copyout(m, s, off, src).1
    ensures AlwaysDelivers(m, s, off, |src|, |src|)
            <==> (forall t | t in m.pt && t != s && Written(m, s, off, |src|, t) :: Unshared(m, t))
  {
    ResolveMakesPrivate(m, s);
    var n := Resolve(Kalloc(m), s, m.free[0]);
    forall t | t in m.pt && t.pid == s.pid
      ensures (t == s ==> Unshared(n, t)) && (t != s ==> (Unshared(n, t) <==> Unshared(m, t)))
    {
      PrivateFirstPage(m, s, t);
    }
    if forall t | t in m.pt && t != s && Written(m, s, off, |src|, t) :: Unshared(m, t) {
      forall other | |other| == |src| ensures Delivers(m, Copyout(m, s, off, other).0, s, off, other[..|src|]) {
        assert other[..|src|] == other;
        assert forall t | t in n.pt && Written(n, s, off, |src|, t) :: Written(m, s, off, |src|, t);
        SuccessByLength(n, n, s, off, src, other);
        UnsharedDelivers(n, s, off, other);
        SameExpected(m, n, s, off, other);
      }
    } else {
      var t :| t in m.pt && t != s && Written(m, s, off, |src|, t) && !Unshared(m, t);
      assert Written(n, s, off, |src|, t);
      var bad := SharedLeaks(n, s, off, src, t);
      SameExpected(m, n, s, off, bad);
      assert Copyout(m, s, off, bad) == CopyBytes(n, s, off, bad) && bad[..|src|] == bad;
    }
  }

  /** The bytes the loop copies before it meets a page it cannot reach, or the end. */
  ghost function Copied(pt: map<Slot, Pte>, pg: nat, s: Slot, off: nat, len: nat): (r: nat)
    requires off < pg
    ensures r <= len
    decreases len
  {
    if len == 0 || s !in pt || !pt[s].u then 0
    else
      var n := Min(pg - off, len);
      n + Copied(pt, pg, Slot(s.pid, s.vpn + 1), 0, len - n)
  }

  /** The loop does what it would with the bytes it gets to, and succeeds if it gets to all of them. */
  lemma {:induction false} CopiesPrefix(m: Mem, s: Slot, off: nat, src: seq<int>) returns (d: nat)
    requires Inv(m) && off < m.pgsize
    ensures d == Copied(m.pt, m.pgsize, s, off, |src|) <= |src|
    ensures CopyBytes(m, s, off, src[..d]) == (CopyBytes(m, s, off, src).0, true)
    ensures CopyBytes(m, s, off, src).1 <==> d == |src|
    decreases |src|
  {
    if src == [] || s !in m.pt || !m.pt[s].u {
      d := 0;
      assert src[..0] == [];
    } else {
      var len := Min(m.pgsize - off, |src|);
      MappedFrame(m, s);
      var page := Splice(Reads(m, s), off, src[..len]);
      PokeKeepsInv(m, s, page);
      var k, rest := Poke(m, s, page), src[len..];
      var e := CopiesPrefix(k, Slot(s.pid, s.vpn + 1), 0, rest);
      CopyBytesNext(m, s, off, src, len, k, rest);
      PrefixRound(m, s, off, src, len, e, k, rest);
      d := len + e;
    }
  }

  /** The first round is the same for a prefix that fills it. */
  lemma PrefixRound(m: Mem, s: Slot, off: nat, src: seq<int>, len: nat, e: nat, k: Mem, rest: seq<int>)
    requires Inv(m) && off < m.pgsize && src != [] && s in m.pt && m.pt[s].u && m.pt[s].pa < |m.data|
    requires len == Min(m.pgsize - off, |src|) && rest == src[len..] && e <= |rest| && off + len <= |Reads(m, s)|
    requires k == Poke(m, s, Splice(Reads(m, s), off, src[..len])) && Inv(k)
    ensures CopyBytes(m, s, off, src[..len + e]) == CopyBytes(k, Slot(s.pid, s.vpn + 1), 0, rest[..e])
  {
    var part := src[..len + e];
    assert Min(m.pgsize - off, |part|) == len && part[..len] == src[..len] && part[len..] == rest[..e];
    CopyBytesNext(m, s, off, part, len, k, rest[..e]);
  }

  /** How far the loop gets depends on which pages are mapped for the user. */
  lemma {:induction false} CopiedSame(pt: map<Slot, Pte>, pt': map<Slot, Pte>, pg: nat, s: Slot, off: nat, len: nat)
    requires off < pg && forall t :: (t in pt' <==> t in pt) && (t in pt ==> pt'[t].u == pt[t].u)
    ensures Copied(pt', pg, s, off, len) == Copied(pt, pg, s, off, len)
    decreases len
  {
    if len > 0 && s in pt && pt[s].u {
      var n := Min(pg - off, len);
      CopiedSame(pt, pt', pg, Slot(s.pid, s.vpn + 1), 0, len - n);
    }
  }

  /** The checks copyout makes of its first page, and a page to copy it to. */
  ghost predicate Starts(m: Mem, s: Slot) {
    s.vpn != 0 && s in m.pt && (m.pt[s].w || m.pt[s].cow) && m.pt[s].u && m.free != []
  }

  /** The bytes copyout writes, known from the page table and the length. */
  ghost function Delivered(m: Mem, s: Slot, off: nat, len: nat): nat
    requires off < m.pgsize
  {
    if Starts(m, s) then Copied(m.pt, m.pgsize, s, off, len) else 0
  }

  /** A copyout, also one that fails half-way, is one of the bytes it writes. */
  lemma CopyoutIsPrefix(m: Mem, s: Slot, off: nat, src: seq<int>)
    requires Inv(m) && off < m.pgsize && Starts(m, s)
    ensures var d := Delivered(m, s, off, |src|);
            && d <= |src| && Copyout(m, s, off, src[..d]) == (Copyout(m, s, off, src).0, true)
            && (Copyout(m, s, off, src).1 <==> d == |src|)
  {
    ResolveMakesPrivate(m, s);
    var n := Resolve(Kalloc(m), s, m.free[0]);
    CopiedSame(m.pt, n.pt, m.pgsize, s, off, |src|);
    var _ := CopiesPrefix(n, s, off, src);
  }

  /** Copyouts of len bytes deliver the first d, whatever they are. */
  ghost predicate AlwaysDelivers(m: Mem, s: Slot, off: nat, len: nat, d: nat)
    requires Inv(m) && off < m.pgsize && d <= len
  {
    forall other | |other| == len :: Delivers(m, Copyout(m, s, off, other).0, s, off, other[..d])
  }

  lemma PrefixDelivers(m: Mem, s: Slot, off: nat, len: nat, d: nat)
    requires Inv(m) && off < m.pgsize && Starts(m, s) && d == Delivered(m, s, off, len) <= len
    ensures AlwaysDelivers(m, s, off, d, d) <==> AlwaysDelivers(m, s, off, len, d)
  {
    if AlwaysDelivers(m, s, off, d, d) {
      forall other | |other| == len ensures Delivers(m, Copyout(m, s, off, other).0, s, off, other[..d]) {
        CopyoutIsPrefix(m, s, off, other);
        assert other[..d][..d] == other[..d];
      }
    }
    if AlwaysDelivers(m, s, off, len, d) {
      forall o | |o| == d ensures Delivers(m, Copyout(m, s, off, o).0, s, off, o[..d]) {
        var other := o + seq(len - d, i => 0);
        CopyoutIsPrefix(m, s, off, other);
        assert other[..d] == o == o[..d];
      }
    }
  }

  /**
   copyout privatises its first page only. Any copyout, also one that fails on the way, behaves as
   under an eager fork for the bytes it writes, whatever those are, if and only if no later page it
   writes is shared with another process.
   */
  lemma CopyoutCondition(m: Mem, s: Slot, off: nat, src: seq<int>)
    requires Inv(m) && off < m.pgsize
    ensures var d := Delivered(m, s, off, |src|);
            && d <= |src| && (Copyout(m, s, off, src).1 <==> Starts(m, s) && d == |src|)
            && (AlwaysDelivers(m, s, off, |src|, d)
                <==> (forall t | t in m.pt && t != s && Written(m, s, off, d, t) :: Unshared(m, t)))
  {
    var d := Delivered(m, s, off, |src|);
    if Starts(m, s) {
      CopyoutIsPrefix(m, s, off, src);
      WholeCopyoutCondition(m, s, off, src[..d]);
      PrefixDelivers(m, s, off, |src|, d);
    } else {
      NothingDelivered(m, s, off, |src|);
    }
  }

  lemma NothingDelivered(m: Mem, s: Slot, off: nat, len: nat)
    requires Inv(m) && off < m.pgsize && !Starts(m, s)
    ensures AlwaysDelivers(m, s, off, len, 0)
  {
    forall other | |other| == len ensures Delivers(m, Copyout(m, s, off, other).0, s, off, other[..0]) {
      assert other[..0] == [];
      NothingExpected(m, s, off);
    }
  }

  lemma NothingExpected(m: Mem, s: Slot, off: nat)
    ensures Delivers(m, m, s, off, [])
  {
  }

  lemma SameExpected(m: Mem, n: Mem, s: Slot, off: nat, src: seq<int>)
    requires n.pgsize == m.pgsize && forall t :: Reads(n, t) == Reads(m, t)
    ensures forall t :: Expected(n, s, off, src, t) == Expected(m, s, off, src, t)
  {
  }
}
