/** malloc, free and morecore of user/umalloc.c, working on headers in place. */
module Malloc {
  import opened Heap

  const NULL := 0
  const HEADER := 16

  datatype Option<T> = None | Some(value: T)

  /** The t'th node after node f, going round. */
  function Around(f: int, t: int, n: int): int {
    if f + t < n then f + t else f + t - n
  }

  /** malloc's loop has passed over the t'th node after freep: it is too small. */
  ghost predicate Passed(h: H, f: int, t: int, n: int) {
    0 <= Around(f, t, |h.order|) < |h.order| ==> !Big(h, Around(f, t, |h.order|), n)
  }

  ghost predicate AllPassed(h: H, f: int, steps: int, n: int) {
    forall t | 1 <= t <= steps :: Passed(h, f, t, n)
  }

  lemma PassedAll(h: H, f: int, n: int, g: int)
    requires 0 <= f < |h.order| && AllPassed(h, f, |h.order|, n)
    ensures !Big(h, g, n)
  {
    if 0 <= g < |h.order| {
      var t := if g > f then g - f else g - f + |h.order|;
      assert Passed(h, f, t, n);
    }
  }

  /** malloc's loop is at node p, steps nodes on from freep, and has passed over those between. */
  ghost predicate Scanning(h: H, f: int, steps: int, n: int, freep: int, prevp: int, p: int) {
    && 0 <= f < |h.order| && freep == h.order[f] && 1 <= steps <= |h.order|
    && p == h.order[Around(f, steps, |h.order|)] && prevp == h.order[Around(f, steps - 1, |h.order|)]
    && AllPassed(h, f, steps - 1, n)
  }

  /** Back at freep, with that node too small as well: no free block will do. */
  lemma CameRound(h: H, f: int, steps: int, n: int, freep: int, prevp: int, p: int)
    requires Base(h) && Scanning(h, f, steps, n, freep, prevp, p)
    requires p == freep && !Big(h, Around(f, steps, |h.order|), n)
    ensures forall g :: !Big(h, g, n)
  {
    DistinctNodes(h, Around(f, steps, |h.order|), f);
    assert Passed(h, f, steps, n);
    forall g ensures !Big(h, g, n) {
      PassedAll(h, f, n, g);
    }
  }

  lemma NotRound(h: H, f: int, steps: int, n: int, freep: int, prevp: int, p: int)
    requires Base(h) && Scanning(h, f, steps, n, freep, prevp, p)
    requires p != freep && !Big(h, Around(f, steps, |h.order|), n)
    ensures steps < |h.order| && AllPassed(h, f, steps, n)
  {
    assert Passed(h, f, steps, n);
  }

  lemma ScanOn(ptr: map<int, int>, h: H, f: int, steps: int, n: int, freep: int, p: int)
    requires Base(h) && 0 <= f < |h.order| && freep == h.order[f] && 0 <= steps < |h.order| && AllPassed(h, f, steps, n)
    requires p == h.order[Around(f, steps, |h.order|)] && forall k :: LinkOk(ptr, h.order, k)
    ensures p in ptr && Scanning(h, f, steps + 1, n, freep, p, ptr[p])
  {
    assert LinkOk(ptr, h.order, Around(f, steps, |h.order|));
  }

  /** n is m after a morecore for units headers at hp, which was needed. */
  ghost predicate Refilled(m: H, n: H, hp: int, units: int) {
    && AllLiveKept(m, n, hp) && n.mem == m.mem + Units(hp, Region(units)) && GrewBy(m, n, hp, Region(units))
    && forall g :: !Big(m, g, units)
  }

  /** Block b is the last n headers of block p. */
  ghost predicate AtEnd(h: H, p: int, n: int, b: int) {
    p in h.blocks && b + n == p + h.blocks[p]
  }

  /** Block b comes from the t'th node after freep, the first that is big enough; prevp is the node before it. */
  ghost predicate FirstFit(h: H, f: int, t: int, n: int, freep: int, prevp: int, b: int) {
    && 0 <= f < |h.order| && freep == h.order[f] && 1 <= t <= |h.order| && AllPassed(h, f, t - 1, n)
    && prevp == h.order[Around(f, t - 1, |h.order|)] && AtEnd(h, h.order[Around(f, t, |h.order|)], n, b)
  }

  ghost predicate TookFirstFit(h: H, n: int, freep: int, prevp: int, b: int) {
    exists f, t :: FirstFit(h, f, t, n, freep, prevp, b)
  }

  lemma ScanEnds(h: H, f: int, steps: int, n: int, freep: int, prevp: int, p: int, b: int)
    requires Scanning(h, f, steps, n, freep, prevp, p) && AtEnd(h, p, n, b)
    ensures TookFirstFit(h, n, freep, prevp, b)
  {
    assert FirstFit(h, f, steps, n, freep, prevp, b);
  }

  /** n has the memory of m and len headers from a on. */
  ghost predicate GrewBy(m: H, n: H, a: int, len: int) {
    forall u :: u in n.mem <==> u in m.mem || a <= u < a + len
  }

  /** The request is rounded up to whole headers, with one more for the block's own; sbrk gives 64 KiB or more. */
  lemma Sizes(nbytes: int)
    requires 0 <= nbytes
    ensures nbytes <= 16 * (Units16(nbytes) - 1) < nbytes + 16
    ensures Region(Units16(nbytes)) == if nbytes <= 65504 then 4096 else (nbytes + 15) / 16 + 1
  {
  }

  function Units16(nbytes: int): int {
    (nbytes + HEADER - 1) / HEADER + 1
  }

  class Allocator {
    const base: int
    var ptr: map<int, int>
    var size: map<int, int>
    var freep: int
    ghost var h: H

    ghost predicate Valid()
      reads this
    {
      && Inv(h) && h.base == base > NULL
      && (freep == NULL ==> h == H(base, [base], map[], {}))
      && (freep != NULL ==> freep in h.order && Linked(ptr, size, h))
    }

    constructor (base: int)
      requires base > NULL
      ensures Valid() && h == H(base, [base], map[], {})
    {
      this.base := base;
      ptr, size, freep := map[], map[], NULL;
      h := H(base, [base], map[], {});
      new;
      assert forall i, j :: Sorted(h.order, i, j);
      assert forall b :: BlockOk(h, b);
      assert forall k :: FreeOk(h, k);
      assert forall u :: UnitOk(h, u);
      assert forall k :: NoTouch(h, k);
    }

    /** The search loop of free: it stops at the last node below bp. */
    method FindPlace(bp: int) returns (p: int, ghost k: int)
      requires Valid() && freep != NULL && Live(h, bp)
      ensures Precedes(h, k, bp) && p == h.order[k]
    {
      assert BlockOk(h, bp);
      k := PlaceOf(h, bp, 0);
      p := freep;
      ghost var j :| 0 <= j < |h.order| && h.order[j] == p;
      SearchTest(ptr, h, bp, k, j);
      while !(bp > p && bp < ptr[p])
        invariant 0 <= j < |h.order| && p == h.order[j] && p in ptr && ptr[p] == Next(h.order, j)
        invariant j == k <==> (bp > p && bp < ptr[p]) || (p >= ptr[p] && (bp > p || bp < ptr[p]))
        decreases if j <= k then k - j else |h.order| - j + k
      {
        if p >= ptr[p] && (bp > p || bp < ptr[p]) {
          break;
        }
        p := ptr[p];
        j := if j + 1 == |h.order| then 0 else j + 1;
        SearchTest(ptr, h, bp, k, j);
      }
    }

    /** free: the block joins the list and its free neighbours; freep is left at its predecessor. */
    method Free(ap: int, ghost bp: int) returns (ghost k: int)
      requires Valid() && bp == ap - 1 && Live(h, bp)
      modifies this
      ensures Valid() && freep != NULL && h.mem == old(h.mem)
      ensures Precedes(old(h), k, bp) && h == Freed(old(h), k, bp) && freep == old(h).order[k]
      ensures AllLiveKept(old(h), h, bp)
    {
      var b := ap - 1;
      ghost var m := h;
      var p;
      p, k := FindPlace(b);
      FreedKeepsInv(m, k, b);
      forall c ensures LiveKept(m, Freed(m, k, b), b, c) {
        FreedLive(m, k, b, c);
      }
      assert Sorted(m.order, 0, k);
      Link(p, b, k);
      freep := p;
      assert h.order[k] == p;
    }

    /** The two merges of free. */
    method Link(p: int, bp: int, ghost k: int)
      requires Inv(h) && Linked(ptr, size, h) && Live(h, bp) && Precedes(h, k, bp) && p == h.order[k]
      modifies this`ptr, this`size, this`h
      ensures Linked(ptr, size, h) && h == Freed(old(h), k, bp)
      ensures k < |h.order| && h.order[k] == p
    {
      ghost var n := LinkRight(p, bp, k);
      LinkLeft(p, bp, k, n);
      h := Freed(h, k, bp);
    }

    /** bp is put before the next free block, or takes it in. */
    method LinkRight(p: int, bp: int, ghost k: int) returns (ghost n: H)
      requires Inv(h) && Linked(ptr, size, h) && Live(h, bp) && Precedes(h, k, bp) && p == h.order[k]
      modifies this`ptr, this`size
      ensures n == JoinIf(Insert(h, k, bp), k + 1) && Base(n) && bp in ptr && Linked(ptr[p := bp], size, n)
      ensures k + 1 < |n.order| && n.order[k] == p && n.order[k + 1] == bp && bp in n.blocks
    {
      ghost var m, ptr0 := h, ptr;
      assert LinkOk(ptr, m.order, k) && SizeOk(size, m, bp) && BlockOk(m, bp);
      assert FreeOk(m, k + 1) && Sorted(m.order, 0, k) && LinkOk(ptr, m.order, k + 1);
      var q := ptr[p];
      assert SizeOk(size, m, q);
      InsertKeepsBase(m, k, bp);
      InsertLinked(ptr, size, m, k, bp);
      n := Insert(m, k, bp);
      if bp + size[bp] == q {
        JoinLinked(ptr0[bp := q][p := bp], size, n, k + 1);
        JoinKeepsBase(n, k + 1);
        size := size[bp := size[bp] + size[q]];
        ptr := ptr[bp := ptr[q]];
        assert ptr[p := bp] == ptr0[bp := q][p := bp][bp := ptr0[q]];
      } else {
        ptr := ptr[bp := q];
      }
      n := JoinIf(n, k + 1);
    }

    method LinkLeft(p: int, bp: int, ghost k: int, ghost n: H)
      requires Base(n) && Linked(ptr[p := bp], size, n) && 0 <= k
      requires k + 1 < |n.order| && n.order[k] == p && n.order[k + 1] == bp
      requires bp in n.blocks && bp in ptr
      modifies this`ptr, this`size
      ensures Linked(ptr, size, JoinIf(n, k)) && k < |JoinIf(n, k).order| && JoinIf(n, k).order[k] == p
    {
      ghost var ptr0 := ptr;
      assert SizeOk(size, n, p) && SizeOk(size, n, bp) && FreeOk(n, k) && BlockOk(n, bp);
      if p + size[p] == bp {
        JoinLinked(ptr0[p := bp], size, n, k);
        size := size[p := size[p] + size[bp]];
        ptr := ptr[p := ptr[bp]];
        assert ptr == ptr0[p := bp][p := ptr0[bp]];
      } else {
        ptr := ptr[p := bp];
      }
    }

    /**
      * morecore: a region of at least nu headers from sbrk, freed into the list; brk is what sbrk
      * returns. Afterwards some free block is big enough.
      */
    method Morecore(nu: int, brk: Option<int>) returns (p: int, ghost g: int)
      requires Valid() && freep != NULL && nu >= 1
      requires brk.Some? ==> FreshRegion(h, brk.value, Region(nu))
      modifies this
      ensures Valid() && freep != NULL && p == (if brk.Some? then freep else NULL)
      ensures brk.None? ==> h == old(h) && freep == old(freep)
      ensures brk.Some? ==> h.mem == old(h.mem) + Units(brk.value, Region(nu)) && Big(h, g, nu)
      ensures brk.Some? ==> AllLiveKept(old(h), h, brk.value) && GrewBy(old(h), h, brk.value, Region(nu))
    {
      var n := Region(nu);
      g := 0;
      if brk.None? {
        return NULL, 0;
      }
      var hp := brk.value;
      ghost var m := h;
      GrownKeepsInv(m, hp, n);
      GrownLinked(ptr, size, m, hp, n);
      size, h := size[hp := n], Grown(m, hp, n);
      ghost var k := Free(hp + 1, hp);
      g := FreedBig(Grown(m, hp, n), k, hp);
      forall c ensures LiveKept(m, h, hp, c) {
        assert LiveKept(Grown(m, hp, n), h, hp, c);
      }
      p := freep;
    }

    /** The block found is taken off the list, or its tail is. */
    method Take(prevp: int, p: int, nunits: int, ghost j: int) returns (r: int)
      requires Inv(h) && h.base == base > NULL && Linked(ptr, size, h) && nunits >= 1
      requires 1 <= j < |h.order| && p == h.order[j] && prevp == h.order[j - 1] && Big(h, j, nunits)
      modifies this
      ensures Valid() && freep == prevp && h.mem == old(h.mem)
      ensures r > base && Live(h, r) && h.blocks[r] == nunits && !Live(old(h), r)
      ensures AtEnd(old(h), p, nunits, r)
      ensures forall c | c != r :: LiveKept(old(h), h, r, c)
    {
      ghost var m := h;
      assert SizeOk(size, m, p) && BlockOk(m, p) && FreeOk(m, j) && Sorted(m.order, 0, j - 1);
      if size[p] == nunits {
        TakeAllKeepsInv(m, j);
        TakeAllLinked(ptr, size, m, j);
        ptr, h := ptr[prevp := ptr[p]], TakeAll(m, j);
        r := p;
      } else {
        TakeTailKeepsInv(m, j, nunits);
        TakeTailLinked(ptr, size, m, j, nunits);
        var rest := size[p] - nunits;
        size, h := size[p := rest][p + rest := nunits], TakeTail(m, j, nunits);
        r := p + rest;
      }
      freep := prevp;
      assert h.order[j - 1] == prevp;
    }

    /** The first call: base alone on the list. */
    method Start()
      requires Valid()
      modifies this
      ensures Valid() && freep != NULL && h == old(h) && freep == if old(freep) == NULL then base else old(freep)
    {
      if freep == NULL {
        ptr, size, freep := ptr[base := base], size[base := 0], base;
        assert forall k :: LinkOk(ptr, h.order, k);
        assert forall b :: SizeOk(size, h, b);
        assert h.order[0] == base;
      }
    }

    /**
      * malloc. brk is what sbrk returns if it is called. The block handed out was not in use, has
      * room for the request and its header, and leaves every block in use alone. Memory is asked
      * for at most once, and only if no free block is big enough; the search always ends.
      */
    method Malloc(nbytes: int, brk: Option<int>) returns (r: int, calls: int)
      requires Valid() && 0 <= nbytes && Region(Units16(nbytes)) * HEADER < 0x8000_0000
      requires brk.Some? ==> FreshRegion(h, brk.value, Region(Units16(nbytes)))
      modifies this
      ensures Valid() && 0 <= calls <= 1
      ensures calls == 1 ==> forall g :: !Big(old(h), g, Units16(nbytes))
      ensures r == NULL ==> calls == 1 && brk.None? && h == old(h)
      ensures r != NULL ==> Got(old(h), h, r - 1, Units16(nbytes))
      ensures r != NULL ==> nbytes <= 16 * (h.blocks[r - 1] - 1) < nbytes + 16
      ensures r != NULL && calls == 0 ==>
                TookFirstFit(old(h), h.blocks[r - 1], if old(freep) == NULL then base else old(freep), freep, r - 1)
      ensures calls == 1 && brk.Some? ==>
                GrewBy(old(h), h, brk.value, if nbytes <= 65504 then 4096 else (nbytes + 15) / 16 + 1)
      ensures h.mem == if calls == 1 && brk.Some? then old(h.mem) + Units(brk.value, Region(Units16(nbytes)))
              else old(h.mem)
    {
      var nunits := (nbytes + HEADER - 1) / HEADER + 1;
      Sizes(nbytes);
      calls := 0;
      Start();
      ghost var m, big := h, 0;
      var prevp := freep;
      ghost var start := freep;
      ghost var f := IndexOf(h, freep);
      ghost var steps := 1;
      ScanOn(ptr, h, f, 0, nunits, freep, prevp);
      var p := ptr[prevp];
      while true
        invariant Valid() && freep != NULL && 0 <= calls <= 1
        invariant Scanning(h, f, steps, nunits, freep, prevp, p)
        invariant calls == 0 ==> h == m && freep == start
        invariant calls == 1 ==> brk.Some? && Big(h, big, nunits) && Refilled(m, h, brk.value, nunits)
        decreases 1 - calls, |h.order| - steps
      {
        ghost var j := Around(f, steps, |h.order|);
        assert FreeOk(h, j) && SizeOk(size, h, p);
        if size[p] >= nunits {
          ghost var n, first := h, freep;
          r := Take(prevp, p, nunits, j);
          ScanEnds(n, f, steps, nunits, first, prevp, p, r);
          GotFrom(m, n, h, r, nunits, calls == 1, if calls == 1 then brk.value else r, Region(nunits));
          return r + 1, calls;
        }
        if p == freep {
          CameRound(h, f, steps, nunits, freep, prevp, p);
          p, big := Morecore(nunits, brk);
          calls := calls + 1;
          if p == NULL {
            return NULL, calls;
          }
          f := IndexOf(h, freep);
          steps := 0;
        } else {
          NotRound(h, f, steps, nunits, freep, prevp, p);
        }
        ScanOn(ptr, h, f, steps, nunits, freep, p);
        prevp, p, steps := p, ptr[p], steps + 1;
      }
    }
  }

  lemma IndexOf(h: H, p: int) returns (f: int)
    requires p in h.order
    ensures 0 <= f < |h.order| && h.order[f] == p
  {
    f :| 0 <= f < |h.order| && h.order[f] == p;
  }

  /** Block b is live in n and new since m, of n units; no other live block has changed. */
  ghost predicate Got(m: H, n: H, b: int, units: int) {
    && Live(n, b) && n.blocks[b] == units && !Live(m, b)
    && forall c | c != b :: LiveKept(m, n, b, c)
  }

  lemma GotFrom(m: H, k: H, n: H, b: int, units: int, grew: bool, hp: int, len: int)
    requires if grew then AllLiveKept(m, k, hp) && Base(m) && FreshRegion(m, hp, len) else k == m
    requires Live(n, b) && n.blocks[b] == units && !Live(k, b) && forall c | c != b :: LiveKept(k, n, b, c)
    ensures Got(m, n, b, units)
  {
    if grew {
      assert !Live(m, hp) by {
        if hp in m.blocks {
          FreshApart(m, hp, len, hp);
        }
      }
      assert LiveKept(m, k, hp, b);
      forall c | c != b ensures LiveKept(m, n, b, c) {
        assert LiveKept(m, k, hp, c) && LiveKept(k, n, b, c);
      }
    }
  }

  /** The size morecore asks sbrk for. */
  function Region(nu: int): int {
    if nu < 4096 then 4096 else nu
  }
}
