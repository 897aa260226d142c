/** walk, mappages, uvmunmap and freewalk of kernel/vm.c, on pages of words updated in place. */
module PageTableCode {
  import opened PageTable

  datatype MapResult = Mapped | NoMemory | Remap | BadSize

  /** Nine bits of the page number: the index at a level. */
  function Px(level: int, v: int): int {
    (if level == 2 then v / 0x4_0000 else if level == 1 then v / 0x200 else v) % 512
  }

  /** The place of the page table a walk to page v is at, at each level. */
  function WalkPlace(level: int, v: int): Place {
    if level == 2 then Root else if level == 1 then Mid(v / 0x4_0000) else Last(v / ENTRIES)
  }

  lemma WalkDown(level: int, v: int)
    requires 1 <= level <= 2 && 0 <= v < MAXPAGE
    ensures ChildPlace(WalkPlace(level, v), Px(level, v)) == WalkPlace(level - 1, v)
  {
  }

  lemma ChildTable(t: T, pl: Place, i: int)
    requires !pl.Last? && 0 <= i < ENTRIES && Table(t, pl) != NONE
    ensures Table(t, ChildPlace(pl, i)) == Child(t, Table(t, pl), i)
  {
    if pl.Mid? {
      assert (pl.a * ENTRIES + i) / ENTRIES == pl.a && (pl.a * ENTRIES + i) % ENTRIES == i;
    }
  }

  /** How many page-table pages on the way to page v are missing. */
  ghost function Lacking(t: T, v: int): nat {
    if Table(t, Mid(v / 0x4_0000)) == NONE then 2 else if Table(t, Last(v / 512)) == NONE then 1 else 0
  }

  lemma LacksSome(t: T, level: int, v: int)
    requires 0 <= level <= 1 && 0 <= v < MAXPAGE && Table(t, WalkPlace(level, v)) == NONE
    ensures Lacking(t, v) > 0
  {
  }

  /** A new page-table page on the way: one fewer is missing, and it is the tree's. */
  lemma LacksOneLess(t: T, level: int, v: int)
    requires Inv(t) && 1 <= level <= 2 && 0 <= v < MAXPAGE && CanAttach(t, WalkPlace(level, v), Px(level, v))
    ensures var n := Attach(t, WalkPlace(level, v), Px(level, v));
            Lacking(n, v) == Lacking(t, v) - 1 && |n.own| == |t.own| + 1 && |n.free| == |t.free| - 1
  {
    var pl, i := WalkPlace(level, v), Px(level, v);
    WalkDown(level, v);
    ChildTable(t, pl, i);
    AttachTables(t, pl, i, Mid(v / 0x4_0000));
    AttachTables(t, pl, i, Last(v / 512));
    assert v / 512 / ENTRIES == v / 0x4_0000;
    FreshPage(t, pl);
  }

  /** The flags mappages stores: those asked for, and PTE_V. */
  function WithV(perm: int): int {
    if perm % 2 == 1 then perm else perm + 1
  }

  ghost predicate SameLookups(t: T, n: T) {
    forall v :: Lookup(n, v) == Lookup(t, v)
  }

  /** Entry u after k pages from first have been mapped to frames from ppn on. */
  ghost predicate MappedAt(t: T, n: T, first: int, k: int, ppn: int, flags: int, u: int) {
    Lookup(n, u) == if first <= u < first + k then Encode(ppn + (u - first), flags) else Lookup(t, u)
  }

  ghost predicate ClearedAt(t: T, n: T, first: int, k: int, u: int) {
    Lookup(n, u) == if first <= u < first + k then 0 else Lookup(t, u)
  }

  class AddressSpace {
    const root: int
    var mem: map<int, seq<int>>
    var free: seq<int>
    ghost var own: map<int, Place>
    var freed: seq<int>

    ghost function View(): T
      reads this
    {
      T(root, mem, free, own)
    }

    /** uvmcreate: one zeroed page from the free list. */
    constructor (free: seq<int>)
      requires |free| > 0 && forall i | 0 <= i < |free| :: free[i] >= 0
      requires forall i, j | 0 <= i < j < |free| :: free[i] != free[j]
      ensures Inv(View()) && freed == [] && this.free == free[1..] && forall v :: Lookup(View(), v) == 0
    {
      root := free[0];
      mem, this.free, own, freed := map[free[0] := Zeros()], free[1..], map[free[0] := Root], [];
      new;
      ghost var t := View();
      forall pl ensures Table(t, pl) == if pl.Root? then root else NONE {
      }
      assert forall pl :: PlaceOk(t, pl);
      assert forall p :: PageOk(t, p);
      assert forall i :: FreeOk(t, i);
      assert forall i, j :: FreeApart(t, i, j);
      assert forall pl, i :: WordOk(t, pl, i);
    }

    /** A zeroed page below entry i of the page at pl. */
    method NewTable(p: int, i: int, ghost pl: Place) returns (c: int)
      requires Inv(View()) && p == Table(View(), pl) && CanAttach(View(), pl, i)
      modifies this`mem, this`free, this`own
      ensures c == old(free)[0] && View() == Attach(old(View()), pl, i)
    {
      c := free[0];
      free := free[1..];
      mem := mem[c := Zeros()];
      mem := mem[p := mem[p][i := Encode(c, PTE_V)]];
      own := own[c := ChildPlace(pl, i)];
    }

    /**
      * walk: the page and index of the entry for page v, or NONE. No translation changes, even
      * when an intermediate page cannot be had; without alloc nothing changes at all.
      */
    method Walk(v: int, alloc: bool) returns (page: int)
      requires Inv(View()) && 0 <= v < MAXPAGE
      modifies this`mem, this`free, this`own
      ensures Inv(View()) && SameLookups(old(View()), View())
      ensures page == Table(View(), Last(v / ENTRIES)) && (page != NONE ==> HasEntry(View(), v))
      ensures page == NONE ==> alloc ==> free == []
      ensures !alloc ==> View() == old(View())
      ensures alloc ==> (page != NONE <==> Lacking(old(View()), v) <= |old(free)|)
      ensures alloc && page != NONE ==> |free| == |old(free)| - Lacking(old(View()), v)
      ensures alloc ==> |own| + |free| == |old(own)| + |old(free)|
    {
      ghost var t := View();
      page := root;
      var level := 2;
      while level > 0
        invariant 0 <= level <= 2 && Inv(View()) && SameLookups(t, View()) && (!alloc ==> View() == t)
        invariant page == Table(View(), WalkPlace(level, v)) != NONE
        invariant |free| - Lacking(View(), v) == |t.free| - Lacking(t, v) && |own| + |free| == |t.own| + |t.free|
      {
        ghost var pl, m := WalkPlace(level, v), View();
        assert PlaceOk(m, pl) && WordOk(m, pl, Px(level, v));
        WalkDown(level, v);
        ChildTable(m, pl, Px(level, v));
        var pte := mem[page][Px(level, v)];
        if Valid(pte) {
          page := Ppn(pte);
          assert PlaceOk(m, ChildPlace(pl, Px(level, v)));
        } else {
          if !alloc || free == [] {
            MissingBelow(m, level - 1, v);
            LacksSome(m, level - 1, v);
            return NONE;
          }
          assert FreeOk(m, 0);
          AttachKeepsInv(m, pl, Px(level, v));
          forall u ensures Lookup(Attach(m, pl, Px(level, v)), u) == Lookup(m, u) {
            AttachLookup(m, pl, Px(level, v), u);
          }
          AttachTables(m, pl, Px(level, v), ChildPlace(pl, Px(level, v)));
          LacksOneLess(m, level, v);
          page := NewTable(page, Px(level, v), pl);
        }
        level := level - 1;
      }
      assert PlaceOk(View(), Last(v / ENTRIES));
    }

    /** One page of mappages: false if there is no room for a page table, or the page is mapped already. */
    method MapOne(v: int, ppn: int, perm: int) returns (r: MapResult)
      requires Inv(View()) && 0 <= v < MAXPAGE && ppn >= 0 && 0 <= perm < 1024 && perm / 2 % 8 != 0
      modifies this`mem, this`free, this`own
      ensures Inv(View()) && !r.BadSize?
      ensures r.Mapped? ==> !Valid(Lookup(old(View()), v)) && MapDone(old(View()), View(), v, 1, ppn, WithV(perm))
      ensures !r.Mapped? ==> SameLookups(old(View()), View())
      ensures r.NoMemory? ==> free == []
      ensures r.Remap? <==> Valid(Lookup(old(View()), v))
      ensures r.NoMemory? <==> Lacking(old(View()), v) > |old(free)|
      ensures !r.NoMemory? ==> |free| == |old(free)| - Lacking(old(View()), v)
      ensures |own| + |free| == |old(own)| + |old(free)|
    {
      ghost var t := View();
      var page := Walk(v, true);
      ghost var m := View();
      if page == NONE {
        assert Lookup(m, v) == 0;
        return NoMemory;
      }
      if Valid(mem[page][v % ENTRIES]) {
        return Remap;
      }
      var pte := Encode(ppn, WithV(perm));
      EncodeDecodes(ppn, WithV(perm));
      SetEntryKeepsInv(m, v, pte);
      mem := mem[page := mem[page][v % ENTRIES := pte]];
      forall u ensures MappedAt(t, View(), v, 1, ppn, WithV(perm), u) {
        SetEntryLookup(m, v, pte, u);
      }
      r := Mapped;
    }

    /**
      * mappages: the entries of a prefix of the range are written, of the whole range on success,
      * and no other translation changes however it ends.
      */
    method Mappages(va: int, size: int, pa: int, perm: int) returns (r: MapResult, ghost k: int)
      requires Inv(View()) && 0 <= va && 0 <= size && va + size <= MAXPAGE * 4096 && 0 <= pa
      requires 0 <= perm < 1024 && perm / 2 % 8 != 0
      modifies this`mem, this`free, this`own
      ensures Inv(View()) && 0 <= k && (r.BadSize? <==> size == 0)
      ensures MapDone(old(View()), View(), va / 4096, k, pa / 4096, WithV(perm))
      ensures r.Mapped? ==> k == (va + size - 1) / 4096 - va / 4096 + 1
      ensures r.NoMemory? ==> free == []
      ensures r.Remap? ==> va / 4096 + k <= (va + size - 1) / 4096 && Valid(Lookup(old(View()), va / 4096 + k))
      ensures r.BadSize? ==> k == 0 && View() == old(View())
      ensures |own| + |free| == |old(own)| + |old(free)|
    {
      ghost var t := View();
      k := 0;
      if size == 0 {
        return BadSize, 0;
      }
      var a, last := va / 4096, (va + size - 1) / 4096;
      var ppn := pa / 4096;
      while true
        invariant Inv(View()) && k == a - va / 4096 == ppn - pa / 4096 && 0 <= k && a <= last
        invariant MapDone(t, View(), va / 4096, k, pa / 4096, WithV(perm))
        invariant |own| + |free| == |t.own| + |t.free|
        decreases last - a
      {
        ghost var m := View();
        r := MapOne(a, ppn, perm);
        assert MappedAt(t, m, va / 4096, k, pa / 4096, WithV(perm), a);
        if !r.Mapped? {
          MapStays(t, m, View(), va / 4096, k, pa / 4096, WithV(perm));
          return;
        }
        MapGrows(t, m, View(), va / 4096, k, pa / 4096, WithV(perm), a);
        k := k + 1;
        if a == last {
          break;
        }
        a, ppn := a + 1, ppn + 1;
      }
    }

    /** One page of uvmunmap: its frame, or false for one of the panics. */
    method UnmapOne(v: int) returns (ok: bool, ppn: int)
      requires Inv(View()) && 0 <= v < MAXPAGE
      modifies this`mem, this`free, this`own
      ensures Inv(View()) && free == old(free) && own == old(own)
      ensures ok <==> Valid(Lookup(old(View()), v))
      ensures ok ==> ppn == Ppn(Lookup(old(View()), v)) && UnmapDone(old(View()), View(), v, 1)
      ensures !ok ==> View() == old(View())
    {
      ghost var m := View();
      var page := Walk(v, false);
      if page == NONE || !Valid(mem[page][v % ENTRIES]) {
        return false, 0;
      }
      ppn := Ppn(mem[page][v % ENTRIES]);
      assert WordOk(m, Last(v / ENTRIES), v % ENTRIES);
      if Flags(mem[page][v % ENTRIES]) == PTE_V {
        assert false;
      }
      SetEntryKeepsInv(m, v, 0);
      mem := mem[page := mem[page][v % ENTRIES := 0]];
      forall u ensures ClearedAt(m, View(), v, 1, u) {
        SetEntryLookup(m, v, 0, u);
      }
      ok := true;
    }

    /**
      * uvmunmap: it gets through exactly if the range is aligned and every page of it is mapped;
      * then those translations are gone, no other has changed, and their frames were freed in order.
      */
    method Uvmunmap(va: int, npages: int, doFree: bool) returns (ok: bool, pages: seq<int>)
      requires Inv(View()) && 0 <= va && 0 <= npages && va + npages * 4096 <= MAXPAGE * 4096
      modifies this`mem, this`free, this`own
      ensures Inv(View()) && free == old(free) && own == old(own)
      ensures ok <==> va % 4096 == 0 && forall u | va / 4096 <= u < va / 4096 + npages :: Valid(Lookup(old(View()), u))
      ensures ok ==> UnmapDone(old(View()), View(), va / 4096, npages)
      ensures ok ==> |pages| == (if doFree then npages else 0)
      ensures ok ==> forall i | 0 <= i < |pages| :: pages[i] == Ppn(Lookup(old(View()), va / 4096 + i))
    {
      ghost var t := View();
      pages := [];
      if va % 4096 != 0 {
        return false, pages;
      }
      var first := va / 4096;
      var a := first;
      while a < first + npages
        invariant first <= a <= first + npages && Inv(View()) && free == t.free && own == t.own
        invariant UnmapDone(t, View(), first, a - first)
        invariant forall u | first <= u < a :: Valid(Lookup(t, u))
        invariant |pages| == (if doFree then a - first else 0)
        invariant forall i | 0 <= i < |pages| :: pages[i] == Ppn(Lookup(t, first + i))
      {
        ghost var m := View();
        assert ClearedAt(t, m, first, a - first, a);
        var mapped, ppn := UnmapOne(a);
        if !mapped {
          return false, pages;
        }
        if doFree {
          pages := pages + [ppn];
        }
        UnmapGrows(t, m, View(), first, a - first, a);
        a := a + 1;
      }
      ok := true;
    }

    /**
      * freewalk of the page p at place pl, t being the tree before the outermost call: it gets
      * through exactly if no page below is mapped, and then every page-table page at or below pl
      * has been freed once and nothing else has been touched.
      */
    method Freewalk(p: int, ghost pl: Place, ghost t: T) returns (panic: bool, ghost v: int)
      requires Inv(t) && p == Table(t, pl) != NONE && Intact(mem, t, pl)
      modifies this`mem, this`freed
      ensures panic ==> Under(pl, Last(v / ENTRIES)) && Valid(Lookup(t, v))
      ensures !panic ==> NoLeaf(t, pl) && old(freed) <= freed && FreedOnce(freed[|old(freed)|..], t, pl)
      ensures !panic ==> Kept(old(mem), mem, t, pl)
      decreases if pl.Root? then 2 else if pl.Mid? then 1 else 0
    {
      ghost var f0, mem0 := freed, mem;
      assert IntactAt(mem, t, pl) && PlaceOk(t, pl);
      var i := 0;
      v := 0;
      while i < ENTRIES
        invariant 0 <= i <= ENTRIES && f0 <= freed
        invariant FreedBelow(freed[|f0|..], t, pl, i) && NoLeafBelow(t, pl, i)
        invariant KeptBelow(mem0, mem, t, pl, i) && p in mem && |mem[p]| == ENTRIES
        invariant forall j | i <= j < ENTRIES :: mem[p][j] == Word(t, p, j)
      {
        var pte := mem[p][i];
        assert WordOk(t, pl, i);
        if Valid(pte) && !IsLeaf(pte) {
          var child := Ppn(pte);
          ghost var c, f1, mem1 := ChildPlace(pl, i), freed, mem;
          ChildTable(t, pl, i);
          ChildIntact(mem0, mem1, t, pl, i);
          ghost var u;
          panic, u := Freewalk(child, c, t);
          if panic {
            UnderChild(pl, i, Last(u / ENTRIES));
            return true, u;
          }
          FreedSince(f0, f1, freed);
          FreedChild(f1[|f0|..], freed[|f1|..], t, pl, i);
          ChildKeepsParent(mem1, mem, t, pl, i);
          ChildDone(mem0, mem1, mem, t, pl, i, mem[p][i := 0]);
          mem := mem[p := mem[p][i := 0]];
        } else if Valid(pte) {
          v := LeafPage(t, pl, i);
          return true, v;
        } else {
          NothingBelow(freed[|f0|..], mem0, mem, t, pl, i);
        }
        i := i + 1;
      }
      LastFree(freed[|f0|..], t, pl, p);
      FreedSince(f0, freed, freed + [p]);
      LastKept(mem0, mem, t, pl, p);
      LastNoLeaf(t, pl);
      freed := freed + [p];
      mem := mem - {p};
      panic := false;
    }

    /**
      * uvmfree: it gets through exactly if the pages mapped are the first npages and no others;
      * then every page-table page, the root included, has been freed exactly once.
      */
    method Uvmfree(npages: int) returns (ok: bool, pages: seq<int>)
      requires Inv(View()) && 0 <= npages <= MAXPAGE && freed == []
      modifies this
      ensures ok <==> forall u :: MappedBelow(old(View()), npages, u)
      ensures ok ==> |pages| == npages && forall i | 0 <= i < npages :: pages[i] == Ppn(Lookup(old(View()), i))
      ensures ok ==> forall p :: Times(freed, p) == if p in old(own) then 1 else 0
    {
      ghost var t := View();
      pages := [];
      ok := true;
      if npages > 0 {
        ok, pages := Uvmunmap(0, npages, true);
        if !ok {
          ghost var u :| 0 <= u < npages && !Valid(Lookup(t, u));
          assert !MappedBelow(t, npages, u);
          return;
        }
      }
      ghost var m := View();
      assert UnmapDone(t, m, 0, npages);
      forall x ensures IntactAt(mem, m, x) {
        assert PlaceOk(m, x);
      }
      var panic;
      ghost var v;
      panic, v := Freewalk(root, Root, m);
      ok := !panic;
      if panic {
        assert ClearedAt(t, m, 0, npages, v);
        assert !MappedBelow(t, npages, v);
      } else {
        forall u ensures MappedBelow(t, npages, u) {
          assert ClearedAt(t, m, 0, npages, u) && NoLeafAt(m, Root, u);
        }
        forall p ensures Times(freed, p) == if p in t.own then 1 else 0 {
          assert freed[0..] == freed;
          assert FreedAt(freed, m, Root, p);
        }
      }
    }
  }

  ghost predicate MappedBelow(t: T, n: int, u: int) {
    Valid(Lookup(t, u)) <==> 0 <= u < n
  }

  // freewalk: what lies below a place

  /** x is pl or lies below it. */
  ghost predicate Under(pl: Place, x: Place) {
    x == pl || pl.Root? || (pl.Mid? && x.Last? && x.q / ENTRIES == pl.a)
  }

  /** x lies below one of the first i entries of pl. */
  ghost predicate Below(pl: Place, i: int, x: Place) {
    || (pl.Root? && x.Mid? && 0 <= x.a < i)
    || (pl.Root? && x.Last? && 0 <= x.q / ENTRIES < i)
    || (pl.Mid? && x.Last? && x.q / ENTRIES == pl.a && x.q % ENTRIES < i)
  }

  lemma UnderChild(pl: Place, i: int, x: Place)
    requires !pl.Last? && 0 <= i < ENTRIES
    ensures Under(ChildPlace(pl, i), x) ==> Under(pl, x) && x != pl
    ensures Below(pl, i + 1, x) <==> Below(pl, i, x) || Under(ChildPlace(pl, i), x)
    ensures !(Below(pl, i, x) && Under(ChildPlace(pl, i), x))
  {
    if pl.Mid? {
      assert (pl.a * ENTRIES + i) / ENTRIES == pl.a && (pl.a * ENTRIES + i) % ENTRIES == i;
    }
  }

  /** Every page in the tree has indices in range, so the entries of pl account for all that is below it. */
  lemma UnderAll(t: T, pl: Place, x: Place)
    requires Inv(t) && Table(t, x) != NONE
    ensures Under(pl, x) <==> x == pl || Below(pl, ENTRIES, x)
  {
    assert PlaceOk(t, Root);
  }

  ghost predicate IntactAt(mem: map<int, seq<int>>, t: T, x: Place) {
    Table(t, x) != NONE ==> Table(t, x) in mem && Table(t, x) in t.mem && mem[Table(t, x)] == t.mem[Table(t, x)]
  }

  /** The pages at and below pl are as they were in t. */
  ghost predicate Intact(mem: map<int, seq<int>>, t: T, pl: Place) {
    forall x | Under(pl, x) :: IntactAt(mem, t, x)
  }

  function Times(f: seq<int>, p: int): int {
    multiset(f)[p]
  }

  ghost predicate FreedAt(f: seq<int>, t: T, pl: Place, p: int) {
    Times(f, p) == if p in t.own && Under(pl, t.own[p]) then 1 else 0
  }

  /** f lists every page at or below pl once, and no other page. */
  ghost predicate FreedOnce(f: seq<int>, t: T, pl: Place) {
    forall p :: FreedAt(f, t, pl, p)
  }

  ghost predicate FreedBelowAt(f: seq<int>, t: T, pl: Place, i: int, p: int) {
    Times(f, p) == if p in t.own && Below(pl, i, t.own[p]) then 1 else 0
  }

  ghost predicate FreedBelow(f: seq<int>, t: T, pl: Place, i: int) {
    forall p :: FreedBelowAt(f, t, pl, i, p)
  }

  lemma FreedChild(f: seq<int>, g: seq<int>, t: T, pl: Place, i: int)
    requires !pl.Last? && 0 <= i < ENTRIES && FreedBelow(f, t, pl, i) && FreedOnce(g, t, ChildPlace(pl, i))
    ensures FreedBelow(f + g, t, pl, i + 1)
  {
    var h, i', c := f + g, i + 1, ChildPlace(pl, i);
    forall p ensures FreedBelowAt(h, t, pl, i', p) {
      assert FreedBelowAt(f, t, pl, i, p) && FreedAt(g, t, c, p);
      assert multiset(h) == multiset(f) + multiset(g);
      if p in t.own {
        UnderChild(pl, i, t.own[p]);
      }
    }
  }

  lemma LastFree(f: seq<int>, t: T, pl: Place, p: int)
    requires Inv(t) && p == Table(t, pl) != NONE && FreedBelow(f, t, pl, ENTRIES)
    ensures FreedOnce(f + [p], t, pl)
  {
    var h := f + [p];
    assert PlaceOk(t, pl);
    forall q ensures FreedAt(h, t, pl, q) {
      assert FreedBelowAt(f, t, pl, ENTRIES, q);
      assert multiset(h) == multiset(f) + multiset{p};
      if q in t.own {
        assert PageOk(t, q);
        UnderAll(t, pl, t.own[q]);
      }
    }
  }

  ghost predicate KeptAt(mem: map<int, seq<int>>, mem': map<int, seq<int>>, p: int) {
    (p in mem' <==> p in mem) && (p in mem ==> mem'[p] == mem[p])
  }

  /** Pages that are not at or below pl are untouched. */
  ghost predicate Kept(mem: map<int, seq<int>>, mem': map<int, seq<int>>, t: T, pl: Place) {
    forall p :: (p in t.own && Under(pl, t.own[p])) || KeptAt(mem, mem', p)
  }

  ghost predicate KeptBelow(mem: map<int, seq<int>>, mem': map<int, seq<int>>, t: T, pl: Place, i: int) {
    forall p :: (p in t.own && (t.own[p] == pl || Below(pl, i, t.own[p]))) || KeptAt(mem, mem', p)
  }

  lemma KeptChild(mem: map<int, seq<int>>, mem1: map<int, seq<int>>, mem2: map<int, seq<int>>, t: T, pl: Place, i: int)
    requires !pl.Last? && 0 <= i < ENTRIES && KeptBelow(mem, mem1, t, pl, i) && Kept(mem1, mem2, t, ChildPlace(pl, i))
    ensures KeptBelow(mem, mem2, t, pl, i + 1)
  {
    forall p ensures (p in t.own && (t.own[p] == pl || Below(pl, i + 1, t.own[p]))) || KeptAt(mem, mem2, p) {
      assert (p in t.own && (t.own[p] == pl || Below(pl, i, t.own[p]))) || KeptAt(mem, mem1, p);
      assert (p in t.own && Under(ChildPlace(pl, i), t.own[p])) || KeptAt(mem1, mem2, p);
      if p in t.own {
        UnderChild(pl, i, t.own[p]);
      }
    }
  }

  lemma ChildDone(mem: map<int, seq<int>>, mem1: map<int, seq<int>>, mem2: map<int, seq<int>>, t: T, pl: Place,
                  i: int, w: seq<int>)
    requires Inv(t) && !pl.Last? && 0 <= i < ENTRIES && Table(t, pl) != NONE
    requires KeptBelow(mem, mem1, t, pl, i) && Kept(mem1, mem2, t, ChildPlace(pl, i))
    requires NoLeafBelow(t, pl, i) && NoLeaf(t, ChildPlace(pl, i))
    ensures NoLeafBelow(t, pl, i + 1) && KeptBelow(mem, mem2[Table(t, pl) := w], t, pl, i + 1)
  {
    KeptChild(mem, mem1, mem2, t, pl, i);
    NoLeafChild(t, pl, i);
    assert PlaceOk(t, pl);
    var mem3, i' := mem2[Table(t, pl) := w], i + 1;
    forall p ensures (p in t.own && (t.own[p] == pl || Below(pl, i', t.own[p]))) || KeptAt(mem, mem3, p) {
      assert (p in t.own && (t.own[p] == pl || Below(pl, i', t.own[p]))) || KeptAt(mem, mem2, p);
    }
  }

  lemma LastKept(mem: map<int, seq<int>>, mem': map<int, seq<int>>, t: T, pl: Place, p: int)
    requires Inv(t) && p == Table(t, pl) != NONE && KeptBelow(mem, mem', t, pl, ENTRIES)
    ensures Kept(mem, mem' - {p}, t, pl)
  {
    assert PlaceOk(t, pl);
    forall q ensures (q in t.own && Under(pl, t.own[q])) || KeptAt(mem, mem' - {p}, q) {
      assert (q in t.own && (t.own[q] == pl || Below(pl, ENTRIES, t.own[q]))) || KeptAt(mem, mem', q);
      if q in t.own {
        assert PageOk(t, q);
        UnderAll(t, pl, t.own[q]);
      }
    }
  }

  lemma ChildIntact(mem: map<int, seq<int>>, mem1: map<int, seq<int>>, t: T, pl: Place, i: int)
    requires Inv(t) && !pl.Last? && 0 <= i < ENTRIES && Intact(mem, t, pl) && KeptBelow(mem, mem1, t, pl, i)
    ensures Intact(mem1, t, ChildPlace(pl, i))
  {
    forall x | Under(ChildPlace(pl, i), x) ensures IntactAt(mem1, t, x) {
      UnderChild(pl, i, x);
      assert IntactAt(mem, t, x) && PlaceOk(t, x);
      var p := Table(t, x);
      assert (p in t.own && (t.own[p] == pl || Below(pl, i, t.own[p]))) || KeptAt(mem, mem1, p);
    }
  }

  /** Freeing a child leaves its parent's page alone. */
  lemma ChildKeepsParent(mem1: map<int, seq<int>>, mem2: map<int, seq<int>>, t: T, pl: Place, i: int)
    requires Inv(t) && !pl.Last? && 0 <= i < ENTRIES && Table(t, pl) != NONE && Kept(mem1, mem2, t, ChildPlace(pl, i))
    ensures KeptAt(mem1, mem2, Table(t, pl))
  {
    assert PlaceOk(t, pl);
    UnderChild(pl, i, pl);
    var p := Table(t, pl);
    assert (p in t.own && Under(ChildPlace(pl, i), t.own[p])) || KeptAt(mem1, mem2, p);
  }

  ghost predicate NoLeafAt(t: T, pl: Place, v: int) {
    Under(pl, Last(v / ENTRIES)) ==> !Valid(Lookup(t, v))
  }

  /** No page is mapped below pl. */
  ghost predicate NoLeaf(t: T, pl: Place) {
    forall v :: NoLeafAt(t, pl, v)
  }

  ghost predicate Looked(pl: Place, i: int, v: int) {
    if pl.Last? then pl.q == v / ENTRIES && v % ENTRIES < i else Below(pl, i, Last(v / ENTRIES))
  }

  ghost predicate NoLeafBelowAt(t: T, pl: Place, i: int, v: int) {
    Looked(pl, i, v) ==> !Valid(Lookup(t, v))
  }

  ghost predicate NoLeafBelow(t: T, pl: Place, i: int) {
    forall v :: NoLeafBelowAt(t, pl, i, v)
  }

  lemma NoLeafChild(t: T, pl: Place, i: int)
    requires !pl.Last? && 0 <= i < ENTRIES && NoLeafBelow(t, pl, i) && NoLeaf(t, ChildPlace(pl, i))
    ensures NoLeafBelow(t, pl, i + 1)
  {
    var i', c := i + 1, ChildPlace(pl, i);
    forall v ensures NoLeafBelowAt(t, pl, i', v) {
      assert NoLeafBelowAt(t, pl, i, v) && NoLeafAt(t, c, v);
      UnderChild(pl, i, Last(v / ENTRIES));
    }
  }

  lemma LastNoLeaf(t: T, pl: Place)
    requires Inv(t) && NoLeafBelow(t, pl, ENTRIES)
    ensures NoLeaf(t, pl)
  {
    forall v ensures NoLeafAt(t, pl, v) {
      assert NoLeafBelowAt(t, pl, ENTRIES, v);
      if Table(t, Last(v / ENTRIES)) != NONE {
        UnderAll(t, pl, Last(v / ENTRIES));
      }
    }
  }

  /** An entry that is not valid has nothing below it. */
  lemma NothingBelow(f: seq<int>, mem: map<int, seq<int>>, mem': map<int, seq<int>>, t: T, pl: Place, i: int)
    requires Inv(t) && 0 <= i < ENTRIES && Table(t, pl) != NONE && !Valid(Word(t, Table(t, pl), i))
    requires FreedBelow(f, t, pl, i) && KeptBelow(mem, mem', t, pl, i) && NoLeafBelow(t, pl, i)
    ensures FreedBelow(f, t, pl, i + 1) && KeptBelow(mem, mem', t, pl, i + 1) && NoLeafBelow(t, pl, i + 1)
  {
    var i' := i + 1;
    forall p ensures FreedBelowAt(f, t, pl, i', p) {
      assert FreedBelowAt(f, t, pl, i, p) && PageOk(t, p);
      if p in t.own && !pl.Last? {
        EmptyChild(t, pl, i, t.own[p]);
      }
    }
    forall p ensures (p in t.own && (t.own[p] == pl || Below(pl, i', t.own[p]))) || KeptAt(mem, mem', p) {
      assert (p in t.own && (t.own[p] == pl || Below(pl, i, t.own[p]))) || KeptAt(mem, mem', p);
    }
    forall v ensures NoLeafBelowAt(t, pl, i', v) {
      assert NoLeafBelowAt(t, pl, i, v);
      if !pl.Last? && Table(t, Last(v / ENTRIES)) != NONE {
        EmptyChild(t, pl, i, Last(v / ENTRIES));
      }
    }
  }

  lemma EmptyChild(t: T, pl: Place, i: int, x: Place)
    requires Inv(t) && !pl.Last? && 0 <= i < ENTRIES && Table(t, pl) != NONE && !Valid(Word(t, Table(t, pl), i))
    requires Table(t, x) != NONE
    ensures Below(pl, i + 1, x) <==> Below(pl, i, x)
  {
    ChildTable(t, pl, i);
    UnderChild(pl, i, x);
  }

  /** A valid entry that freewalk takes for a mapping is one. */
  lemma LeafPage(t: T, pl: Place, i: int) returns (v: int)
    requires Inv(t) && 0 <= i < ENTRIES && Table(t, pl) != NONE
    requires Valid(Word(t, Table(t, pl), i)) && IsLeaf(Word(t, Table(t, pl), i))
    ensures Under(pl, Last(v / ENTRIES)) && Valid(Lookup(t, v))
  {
    assert WordOk(t, pl, i);
    PlainPointer(Word(t, Table(t, pl), i));
    v := pl.q * ENTRIES + i;
    assert v / ENTRIES == pl.q && v % ENTRIES == i;
  }

  lemma PlainPointer(w: int)
    ensures Flags(w) == PTE_V ==> !IsLeaf(w)
  {
    assert w == w / 1024 * 1024 + w % 1024;
  }

  lemma MissingBelow(t: T, level: int, v: int)
    requires 0 <= level <= 1 && 0 <= v < MAXPAGE && Table(t, WalkPlace(level, v)) == NONE
    ensures Table(t, Last(v / ENTRIES)) == NONE
  {
    assert v / ENTRIES / ENTRIES == v / 0x4_0000;
  }

  lemma FreedSince(f0: seq<int>, f1: seq<int>, f2: seq<int>)
    requires f0 <= f1 <= f2
    ensures f2[|f0|..] == f1[|f0|..] + f2[|f1|..]
  {
  }

  ghost predicate MapDone(t: T, n: T, first: int, k: int, ppn: int, flags: int) {
    forall u :: MappedAt(t, n, first, k, ppn, flags, u)
  }

  lemma MapStays(t: T, m: T, n: T, first: int, k: int, ppn: int, flags: int)
    requires MapDone(t, m, first, k, ppn, flags) && SameLookups(m, n)
    ensures MapDone(t, n, first, k, ppn, flags)
  {
    forall u ensures MappedAt(t, n, first, k, ppn, flags, u) {
      assert MappedAt(t, m, first, k, ppn, flags, u);
    }
  }

  lemma MapGrows(t: T, m: T, n: T, first: int, k: int, ppn: int, flags: int, a: int)
    requires MapDone(t, m, first, k, ppn, flags) && a == first + k && k >= 0
    requires MapDone(m, n, a, 1, ppn + k, flags)
    ensures MapDone(t, n, first, k + 1, ppn, flags)
  {
    var k' := k + 1;
    forall u ensures MappedAt(t, n, first, k', ppn, flags, u) {
      assert MappedAt(t, m, first, k, ppn, flags, u);
      var f := ppn + k;
      assert MappedAt(m, n, a, 1, f, flags, u);
    }
  }

  ghost predicate UnmapDone(t: T, n: T, first: int, k: int) {
    forall u :: ClearedAt(t, n, first, k, u)
  }

  lemma UnmapGrows(t: T, m: T, n: T, first: int, k: int, a: int)
    requires UnmapDone(t, m, first, k) && a == first + k && k >= 0 && UnmapDone(m, n, a, 1)
    ensures UnmapDone(t, n, first, k + 1)
  {
    var k' := k + 1;
    forall u ensures ClearedAt(t, n, first, k', u) {
      assert ClearedAt(t, m, first, k, u) && ClearedAt(m, n, a, 1, u);
    }
  }
}
