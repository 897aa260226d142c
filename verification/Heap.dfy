/**
  * The user-level allocator of user/umalloc.c (after section 8.7 of The C Programming Language,
  * second edition), as its free list and the blocks it divides memory into. Addresses count headers.
  */
module Heap {
  /**
    * order lists the free list by address, beginning with base, whose block is empty; blocks maps
    * the header of every block, free or live, to its size; mem is the memory obtained from sbrk.
    */
  datatype H = H(base: int, order: seq<int>, blocks: map<int, int>, mem: set<int>)

  predicate Holds(h: H, b: int, u: int) {
    b in h.blocks && b <= u < b + h.blocks[b]
  }

  ghost predicate Sorted(order: seq<int>, i: int, j: int) {
    0 <= i < j < |order| ==> order[i] < order[j]
  }

  ghost predicate BlockOk(h: H, b: int) {
    b in h.blocks ==> b > h.base && h.blocks[b] >= 1 && forall u | b <= u < b + h.blocks[b] :: u in h.mem
  }

  ghost predicate Apart(h: H, b: int, c: int) {
    b in h.blocks && c in h.blocks && b < c ==> b + h.blocks[b] <= c
  }

  ghost predicate FreeOk(h: H, k: int) {
    1 <= k < |h.order| ==> h.order[k] in h.blocks
  }

  ghost predicate UnitOk(h: H, u: int) {
    u in h.mem ==> exists b :: Holds(h, b, u)
  }

  /** The list is sorted, its nodes are blocks, and the blocks tile the memory. */
  ghost predicate Base(h: H) {
    && |h.order| >= 1 && h.order[0] == h.base
    && (forall i, j :: Sorted(h.order, i, j))
    && (forall b :: BlockOk(h, b))
    && (forall b, c :: Apart(h, b, c))
    && (forall k :: FreeOk(h, k))
    && (forall u :: UnitOk(h, u))
  }

  /** Free block k does not touch the next one. */
  ghost predicate NoTouch(h: H, k: int) {
    1 <= k && k + 1 < |h.order| && h.order[k] in h.blocks ==> h.order[k] + h.blocks[h.order[k]] != h.order[k + 1]
  }

  ghost predicate Inv(h: H) {
    Base(h) && forall k :: NoTouch(h, k)
  }

  ghost predicate Live(h: H, b: int) {
    b in h.blocks && b !in h.order
  }

  lemma DistinctNodes(h: H, i: int, j: int)
    requires Base(h) && 0 <= i < |h.order| && 0 <= j < |h.order| && h.order[i] == h.order[j]
    ensures i == j
  {
    assert Sorted(h.order, i, j) && Sorted(h.order, j, i);
  }

  /** There is memory that is not free between free blocks i and j. */
  ghost predicate Separated(h: H, i: int, j: int) {
    1 <= i < j < |h.order| ==> h.order[i] in h.blocks && h.order[i] + h.blocks[h.order[i]] < h.order[j]
  }

  /** Every unit of memory belongs to one block and only one, and free blocks leave a gap between them. */
  lemma Tiling(h: H, u: int)
    requires Inv(h) && u in h.mem
    ensures exists b :: Holds(h, b, u)
    ensures forall b, c | Holds(h, b, u) && Holds(h, c, u) :: b == c
    ensures forall i, j :: Separated(h, i, j)
  {
    assert UnitOk(h, u);
    forall b, c | Holds(h, b, u) && Holds(h, c, u) ensures b == c {
      assert Apart(h, b, c) && Apart(h, c, b);
    }
    forall i, j ensures Separated(h, i, j) {
      if 1 <= i < j < |h.order| {
        assert FreeOk(h, i) && FreeOk(h, i + 1) && NoTouch(h, i);
        assert Sorted(h.order, i, i + 1) && Sorted(h.order, i + 1, j);
        assert Apart(h, h.order[i], h.order[i + 1]);
      }
    }
  }

  // free, in three steps: link the block in, join it with the block after it, join it with the one before

  ghost predicate Precedes(h: H, k: int, b: int) {
    0 <= k < |h.order| && h.order[k] < b && (k + 1 < |h.order| ==> b < h.order[k + 1])
  }

  function Insert(h: H, k: int, b: int): H
    requires 0 <= k < |h.order|
  {
    h.(order := h.order[..k + 1] + [b] + h.order[k + 1..])
  }

  lemma InsertKeepsBase(h: H, k: int, b: int)
    requires Base(h) && Live(h, b) && Precedes(h, k, b)
    ensures Base(Insert(h, k, b))
  {
    var n := Insert(h, k, b);
    forall i, j ensures Sorted(n.order, i, j) {
      assert Sorted(h.order, if i <= k then i else i - 1, if j <= k then j else j - 1);
      assert Sorted(h.order, i, k) && Sorted(h.order, k + 1, j - 1);
    }
    forall j ensures FreeOk(n, j) {
      assert FreeOk(h, if j <= k then j else j - 1);
    }
    SameBlocks(h, n);
  }

  lemma SameBlocks(h: H, n: H)
    requires Base(h) && n == h.(order := n.order)
    ensures (forall b :: BlockOk(n, b)) && (forall b, c :: Apart(n, b, c)) && forall u :: UnitOk(n, u)
  {
    forall b ensures BlockOk(n, b) {
      assert BlockOk(h, b);
    }
    forall b, c ensures Apart(n, b, c) {
      assert Apart(h, b, c);
    }
    forall u ensures UnitOk(n, u) {
      assert UnitOk(h, u);
      if u in h.mem {
        var b :| Holds(h, b, u);
        assert Holds(n, b, u);
      }
    }
  }

  ghost predicate Touches(h: H, k: int) {
    1 <= k && k + 1 < |h.order| && h.order[k] in h.blocks && h.order[k + 1] in h.blocks
    && h.order[k] + h.blocks[h.order[k]] == h.order[k + 1]
  }

  /** Free blocks k and k+1 become one. */
  ghost function Join(h: H, k: int): H
    requires Touches(h, k)
  {
    var b, c := h.order[k], h.order[k + 1];
    h.(order := h.order[..k + 1] + h.order[k + 2..], blocks := h.blocks[b := h.blocks[b] + h.blocks[c]] - {c})
  }

  lemma JoinKeepsTiles(h: H, k: int)
    requires Base(h) && Touches(h, k)
    ensures forall b :: BlockOk(Join(h, k), b)
    ensures forall b, c :: Apart(Join(h, k), b, c)
    ensures forall u :: UnitOk(Join(h, k), u)
  {
    var n, x, y := Join(h, k), h.order[k], h.order[k + 1];
    assert BlockOk(h, x) && BlockOk(h, y);
    forall b ensures BlockOk(n, b) {
      assert BlockOk(h, b);
    }
    forall b, c ensures Apart(n, b, c) {
      assert Apart(h, b, c) && Apart(h, b, x) && Apart(h, y, c);
    }
    forall u ensures UnitOk(n, u) {
      assert UnitOk(h, u);
      if u in h.mem {
        var b :| Holds(h, b, u);
        assert Holds(n, if b == y then x else b, u);
      }
    }
  }

  lemma JoinKeepsBase(h: H, k: int)
    requires Base(h) && Touches(h, k)
    ensures Base(Join(h, k))
  {
    var n := Join(h, k);
    JoinKeepsTiles(h, k);
    forall i, j ensures Sorted(n.order, i, j) {
      assert Sorted(h.order, if i <= k then i else i + 1, if j <= k then j else j + 1);
    }
    forall j ensures FreeOk(n, j) {
      var o := if j <= k then j else j + 1;
      assert FreeOk(h, o);
      if 1 <= j < |n.order| && h.order[o] == h.order[k + 1] {
        DistinctNodes(h, o, k + 1);
      }
    }
  }

  /** Joining closes a gap without opening another. */
  lemma JoinTouch(h: H, k: int, i: int)
    requires Base(h) && Touches(h, k) && NoTouch(h, if i < k then i else i + 1)
    ensures NoTouch(Join(h, k), i)
  {
    var n := Join(h, k);
    if 1 <= i && i + 1 < |n.order| {
      assert Sorted(h.order, i, k) && Sorted(h.order, k, i + 1) && Sorted(h.order, k + 1, i + 1);
      assert BlockOk(h, h.order[k]) && BlockOk(h, h.order[k + 1]);
    }
  }

  ghost function JoinIf(h: H, k: int): H {
    if Touches(h, k) then Join(h, k) else h
  }

  /** Every pair of neighbours has a gap, except possibly pair x. */
  ghost predicate GapsBut(h: H, x: int, i: int) {
    i != x ==> NoTouch(h, i)
  }

  lemma JoinIfResult(h: H, k: int, x: int)
    requires Base(h) && x < k && forall i | i != k :: GapsBut(h, x, i)
    ensures Base(JoinIf(h, k)) && forall i :: GapsBut(JoinIf(h, k), x, i)
  {
    var n := JoinIf(h, k);
    if Touches(h, k) {
      JoinKeepsBase(h, k);
    }
    forall i ensures GapsBut(n, x, i) {
      assert i != k ==> GapsBut(h, x, i);
      assert GapsBut(h, x, i + 1) || i + 1 == k;
      if i != x {
        if Touches(h, k) {
          JoinTouch(h, k, i);
        } else if i == k {
          StuckTouch(h, k);
        }
      }
    }
  }

  /** The whole of free, from the place where its search stops. */
  ghost function Freed(h: H, k: int, b: int): H
    requires 0 <= k < |h.order|
  {
    JoinIf(JoinIf(Insert(h, k, b), k + 1), k)
  }

  lemma InsertTouch(h: H, k: int, b: int, i: int)
    requires Inv(h) && Precedes(h, k, b) && i != k && i != k + 1
    ensures NoTouch(Insert(h, k, b), i)
  {
    assert NoTouch(h, if i < k then i else i - 1);
  }

  lemma StuckTouch(h: H, k: int)
    requires Base(h) && !Touches(h, k)
    ensures NoTouch(h, k)
  {
    assert FreeOk(h, k) && FreeOk(h, k + 1);
  }

  /** free keeps the list sorted and coalesced and the tiling intact. */
  lemma FreedKeepsInv(h: H, k: int, b: int)
    requires Inv(h) && Live(h, b) && Precedes(h, k, b)
    ensures Inv(Freed(h, k, b)) && Freed(h, k, b).mem == h.mem
  {
    InsertKeepsBase(h, k, b);
    var n := Insert(h, k, b);
    forall i | i != k + 1 ensures GapsBut(n, k, i) {
      if i != k {
        InsertTouch(h, k, b, i);
      }
    }
    JoinIfResult(n, k + 1, k);
    var m := JoinIf(n, k + 1);
    forall i | i != k ensures NoTouch(m, i) {
      assert GapsBut(m, k, i);
    }
    FreedLast(m, k);
  }

  lemma FreedLast(m: H, k: int)
    requires Base(m) && 0 <= k && forall i | i != k :: NoTouch(m, i)
    ensures Inv(JoinIf(m, k))
  {
    var n := JoinIf(m, k);
    forall i | i != k ensures GapsBut(m, -1, i) {
    }
    JoinIfResult(m, k, -1);
    forall i ensures NoTouch(n, i) {
      assert GapsBut(n, -1, i);
    }
  }

  ghost predicate LiveKept(h: H, n: H, gone: int, c: int) {
    && (Live(n, c) <==> Live(h, c) && c != gone)
    && (Live(n, c) ==> n.blocks[c] == h.blocks[c])
  }

  /** The live blocks of n are those of h without this one, each the size it was. */
  ghost predicate AllLiveKept(h: H, n: H, gone: int) {
    forall c :: LiveKept(h, n, gone, c)
  }

  lemma JoinIfLive(h: H, k: int, c: int)
    ensures Live(JoinIf(h, k), c) <==> Live(h, c)
    ensures Live(h, c) ==> JoinIf(h, k).blocks[c] == h.blocks[c]
  {
    if Touches(h, k) {
      var n := Join(h, k);
      assert h.order == h.order[..k + 1] + [h.order[k + 1]] + h.order[k + 2..];
      assert h.order[k] in n.order by {
        assert n.order[k] == h.order[k];
      }
      assert c in h.order <==> c in n.order || c == h.order[k + 1];
    }
  }

  /** What free does to live blocks: b is one no longer, and every other is as it was. */
  lemma FreedLive(h: H, k: int, b: int, c: int)
    requires Live(h, b) && 0 <= k < |h.order|
    ensures LiveKept(h, Freed(h, k, b), b, c)
  {
    var n := Insert(h, k, b);
    assert h.order == h.order[..k + 1] + h.order[k + 1..];
    assert c in n.order <==> c in h.order || c == b;
    JoinIfLive(n, k + 1, c);
    JoinIfLive(JoinIf(n, k + 1), k, c);
  }

  // malloc

  /** The whole of free block k is handed out. */
  function TakeAll(h: H, k: int): H
    requires 0 <= k < |h.order|
  {
    h.(order := h.order[..k] + h.order[k + 1..])
  }

  /** The last n units of free block k are handed out. */
  function TakeTail(h: H, k: int, n: int): H
    requires 1 <= k < |h.order| && h.order[k] in h.blocks
  {
    var b := h.order[k];
    h.(blocks := h.blocks[b := h.blocks[b] - n][b + h.blocks[b] - n := n])
  }

  lemma TakeAllKeepsInv(h: H, k: int)
    requires Inv(h) && 1 <= k < |h.order|
    ensures Inv(TakeAll(h, k)) && Live(TakeAll(h, k), h.order[k])
    ensures forall c | c != h.order[k] :: LiveKept(h, TakeAll(h, k), h.order[k], c)
  {
    var n, b := TakeAll(h, k), h.order[k];
    SameBlocks(h, n);
    assert FreeOk(h, k);
    forall i, j ensures Sorted(n.order, i, j) {
      assert Sorted(h.order, if i < k then i else i + 1, if j < k then j else j + 1);
    }
    forall j ensures FreeOk(n, j) {
      assert FreeOk(h, if j < k then j else j + 1);
    }
    forall i ensures NoTouch(n, i) {
      var o := if i < k then i else i + 1;
      assert NoTouch(h, o);
      if 1 <= i && i + 1 < |n.order| && i == k - 1 {
        assert FreeOk(h, i) && BlockOk(h, b) && Apart(h, h.order[i], b) && Sorted(h.order, i, k)
          && Sorted(h.order, k, k + 1);
      }
    }
    assert h.order == h.order[..k] + [b] + h.order[k + 1..];
    forall i | 0 <= i < |n.order| ensures n.order[i] != b {
      assert Sorted(h.order, i, k) && Sorted(h.order, k, i + 1);
    }
    forall c | c != b ensures LiveKept(h, n, b, c) {
      assert c in h.order <==> c in n.order;
    }
  }

  lemma TakeTailTiles(h: H, k: int, n: int)
    requires Base(h) && 1 <= k < |h.order| && h.order[k] in h.blocks && 1 <= n < h.blocks[h.order[k]]
    ensures forall b :: BlockOk(TakeTail(h, k, n), b)
    ensures forall b, c :: Apart(TakeTail(h, k, n), b, c)
    ensures forall u :: UnitOk(TakeTail(h, k, n), u)
  {
    var m, x := TakeTail(h, k, n), h.order[k];
    var y := x + h.blocks[x] - n;
    assert BlockOk(h, x);
    assert Apart(h, x, y);
    forall b ensures BlockOk(m, b) {
      assert BlockOk(h, b);
    }
    forall b, c ensures Apart(m, b, c) {
      assert Apart(h, b, c) && Apart(h, b, x) && Apart(h, x, c) && Apart(h, x, b);
      if b in m.blocks && c == y && b != x {
        assert BlockOk(h, b);
      }
    }
    forall u ensures UnitOk(m, u) {
      assert UnitOk(h, u);
      if u in h.mem {
        var b :| Holds(h, b, u);
        assert Holds(m, if b == x && u >= y then y else b, u);
      }
    }
  }

  lemma TakeTailKeepsInv(h: H, k: int, n: int)
    requires Inv(h) && 1 <= k < |h.order| && h.order[k] in h.blocks && 1 <= n < h.blocks[h.order[k]]
    ensures var b := h.order[k] + h.blocks[h.order[k]] - n;
            && b !in h.blocks && Inv(TakeTail(h, k, n)) && Live(TakeTail(h, k, n), b)
            && forall c | c != b :: LiveKept(h, TakeTail(h, k, n), b, c)
  {
    var m, x := TakeTail(h, k, n), h.order[k];
    var y := x + h.blocks[x] - n;
    TakeTailTiles(h, k, n);
    assert BlockOk(h, x) && Apart(h, x, y);
    forall i | 0 <= i < |h.order| ensures h.order[i] != y {
      assert FreeOk(h, i);
    }
    forall j ensures FreeOk(m, j) {
      assert FreeOk(h, j);
    }
    forall i ensures NoTouch(m, i) {
      assert NoTouch(h, i) && FreeOk(h, i);
      if 1 <= i && i + 1 < |h.order| && h.order[i] == x {
        assert Sorted(h.order, i, i + 1) && FreeOk(h, i + 1) && Apart(h, x, h.order[i + 1]);
      }
    }
  }

  // morecore

  /** A region from sbrk comes in as one live block. */
  function Grown(h: H, a: int, n: int): H {
    h.(blocks := h.blocks[a := n], mem := h.mem + Units(a, n))
  }

  function Units(a: int, n: int): (r: set<int>)
    ensures forall u :: u in r <==> a <= u < a + n
    decreases n
  {
    if n <= 0 then {} else Units(a, n - 1) + {a + n - 1}
  }

  ghost predicate FreshRegion(h: H, a: int, n: int) {
    a > h.base && n >= 1 && forall u | a <= u < a + n :: u !in h.mem
  }

  lemma FreshApart(h: H, a: int, n: int, b: int)
    requires Base(h) && FreshRegion(h, a, n) && b in h.blocks
    ensures b != a && h.blocks[b] >= 1 && (b + h.blocks[b] <= a || a + n <= b)
  {
    assert BlockOk(h, b);
    assert b in h.mem && a !in h.mem;
  }

  lemma GrownKeepsInv(h: H, a: int, n: int)
    requires Inv(h) && FreshRegion(h, a, n)
    ensures Inv(Grown(h, a, n)) && Live(Grown(h, a, n), a)
    ensures forall c | c != a :: LiveKept(h, Grown(h, a, n), a, c)
  {
    var m := Grown(h, a, n);
    forall b ensures BlockOk(m, b) {
      assert BlockOk(h, b);
    }
    forall b, c ensures Apart(m, b, c) {
      assert Apart(h, b, c);
      if b in h.blocks {
        FreshApart(h, a, n, b);
      }
      if c in h.blocks {
        FreshApart(h, a, n, c);
      }
    }
    forall u ensures UnitOk(m, u) {
      assert UnitOk(h, u);
      if u in h.mem {
        var b :| Holds(h, b, u);
        FreshApart(h, a, n, b);
        assert Holds(m, b, u);
      } else if u in m.mem {
        assert Holds(m, a, u);
      }
    }
    forall k ensures FreeOk(m, k) {
      assert FreeOk(h, k);
    }
    forall i | 0 <= i < |h.order| ensures h.order[i] != a {
      assert FreeOk(h, i);
      if 1 <= i {
        FreshApart(h, a, n, h.order[i]);
      }
    }
    forall k ensures NoTouch(m, k) {
      assert NoTouch(h, k) && FreeOk(h, k);
    }
  }

  // The headers in memory

  function Next(order: seq<int>, k: int): int
    requires 0 <= k < |order|
  {
    if k + 1 == |order| then order[0] else order[k + 1]
  }

  ghost predicate LinkOk(ptr: map<int, int>, order: seq<int>, k: int) {
    0 <= k < |order| ==> order[k] in ptr && ptr[order[k]] == Next(order, k)
  }

  ghost predicate SizeOk(size: map<int, int>, h: H, b: int) {
    b in h.blocks ==> b in size && size[b] == h.blocks[b]
  }

  /** The headers spell out the list, in a circle, and the size of every block. */
  ghost predicate Linked(ptr: map<int, int>, size: map<int, int>, h: H) {
    && (forall k :: LinkOk(ptr, h.order, k))
    && (forall b :: SizeOk(size, h, b))
    && h.base in size && size[h.base] == 0
  }

  lemma InsertLinked(ptr: map<int, int>, size: map<int, int>, h: H, k: int, b: int)
    requires Base(h) && Linked(ptr, size, h) && Live(h, b) && Precedes(h, k, b)
    ensures Linked(ptr[b := Next(h.order, k)][h.order[k] := b], size, Insert(h, k, b))
  {
    var n, ptr' := Insert(h, k, b), ptr[b := Next(h.order, k)][h.order[k] := b];
    forall j ensures LinkOk(ptr', n.order, j) {
      assert LinkOk(ptr, h.order, if j <= k then j else j - 1);
      assert Sorted(h.order, j, k) && Sorted(h.order, k, j - 1);
    }
    forall c ensures SizeOk(size, n, c) {
      assert SizeOk(size, h, c);
    }
  }

  lemma JoinLinked(ptr: map<int, int>, size: map<int, int>, h: H, k: int)
    requires Base(h) && Linked(ptr, size, h) && Touches(h, k)
    ensures var b, c := h.order[k], h.order[k + 1];
            && c in ptr && b in size && c in size
            && Linked(ptr[b := ptr[c]], size[b := size[b] + size[c]], Join(h, k))
  {
    var b, c, n := h.order[k], h.order[k + 1], Join(h, k);
    assert LinkOk(ptr, h.order, k + 1) && SizeOk(size, h, b) && SizeOk(size, h, c);
    assert BlockOk(h, b);
    var ptr', size' := ptr[b := ptr[c]], size[b := size[b] + size[c]];
    forall j ensures LinkOk(ptr', n.order, j) {
      assert LinkOk(ptr, h.order, if j <= k then j else j + 1);
      assert Sorted(h.order, j, k) && Sorted(h.order, k, j + 1);
    }
    forall x ensures SizeOk(size', n, x) {
      assert SizeOk(size, h, x);
    }
  }

  lemma TakeAllLinked(ptr: map<int, int>, size: map<int, int>, h: H, k: int)
    requires Base(h) && Linked(ptr, size, h) && 1 <= k < |h.order|
    ensures h.order[k] in ptr && Linked(ptr[h.order[k - 1] := ptr[h.order[k]]], size, TakeAll(h, k))
  {
    var n := TakeAll(h, k);
    assert LinkOk(ptr, h.order, k);
    var ptr' := ptr[h.order[k - 1] := ptr[h.order[k]]];
    forall j ensures LinkOk(ptr', n.order, j) {
      assert LinkOk(ptr, h.order, if j < k then j else j + 1);
      assert Sorted(h.order, j, k - 1) && Sorted(h.order, k - 1, j + 1);
    }
    forall b ensures SizeOk(size, n, b) {
      assert SizeOk(size, h, b);
    }
  }

  lemma TakeTailLinked(ptr: map<int, int>, size: map<int, int>, h: H, k: int, n: int)
    requires Base(h) && Linked(ptr, size, h) && 1 <= k < |h.order|
    requires h.order[k] in h.blocks && 1 <= n < h.blocks[h.order[k]]
    ensures var b := h.order[k];
            b in size && Linked(ptr, size[b := size[b] - n][b + size[b] - n := n], TakeTail(h, k, n))
  {
    var b, m := h.order[k], TakeTail(h, k, n);
    assert SizeOk(size, h, b) && BlockOk(h, b);
    var size' := size[b := size[b] - n][b + size[b] - n := n];
    forall c ensures SizeOk(size', m, c) {
      assert SizeOk(size, h, c);
    }
  }

  lemma GrownLinked(ptr: map<int, int>, size: map<int, int>, h: H, a: int, n: int)
    requires Base(h) && Linked(ptr, size, h) && FreshRegion(h, a, n)
    ensures Linked(ptr, size[a := n], Grown(h, a, n))
  {
    var size', m := size[a := n], Grown(h, a, n);
    forall b ensures SizeOk(size', m, b) {
      assert SizeOk(size, h, b);
    }
  }

  /** The place of a block in the list: the last node below it. */
  lemma {:induction false} PlaceOf(h: H, b: int, from: int) returns (k: int)
    requires Base(h) && Live(h, b) && 0 <= from < |h.order| && h.order[from] < b
    ensures from <= k && Precedes(h, k, b)
    decreases |h.order| - from
  {
    if from + 1 < |h.order| && h.order[from + 1] < b {
      k := PlaceOf(h, b, from + 1);
    } else {
      k := from;
    }
  }

  /** The test that ends free's search succeeds at that place and nowhere else. */
  lemma SearchTest(ptr: map<int, int>, h: H, b: int, k: int, j: int)
    requires Base(h) && (forall i :: LinkOk(ptr, h.order, i)) && b > h.base && Precedes(h, k, b) && 0 <= j < |h.order|
    ensures var p := h.order[j];
            && p in ptr && ptr[p] == Next(h.order, j)
            && (j == k <==> (b > p && b < ptr[p]) || (p >= ptr[p] && (b > p || b < ptr[p])))
  {
    assert LinkOk(ptr, h.order, j);
    assert Sorted(h.order, 0, j) && Sorted(h.order, j, j + 1);
    assert Sorted(h.order, j, k) && Sorted(h.order, k, j) && Sorted(h.order, j + 1, k) && Sorted(h.order, k + 1, j);
  }

  // A freed block can be found again

  ghost predicate Big(h: H, g: int, n: int) {
    1 <= g < |h.order| && h.order[g] in h.blocks && h.blocks[h.order[g]] >= n
  }

  lemma JoinIfBig(h: H, k: int, g: int, n: int) returns (g': int)
    requires Base(h) && Big(h, g, n)
    ensures Big(JoinIf(h, k), g', n)
  {
    g' := if !Touches(h, k) || g <= k then g else g - 1;
    assert BlockOk(h, h.order[g]);
    if Touches(h, k) {
      assert BlockOk(h, h.order[k]) && BlockOk(h, h.order[k + 1]);
      JoinKeepsBase(h, k);
      assert FreeOk(Join(h, k), g');
      assert Sorted(h.order, g, k) && Sorted(h.order, k, g) && Sorted(h.order, k + 1, g);
    }
  }

  lemma FreedBig(h: H, k: int, b: int) returns (g: int)
    requires Base(h) && Live(h, b) && Precedes(h, k, b)
    ensures Big(Freed(h, k, b), g, h.blocks[b])
  {
    InsertKeepsBase(h, k, b);
    var n := Insert(h, k, b);
    g := JoinIfBig(n, k + 1, k + 1, h.blocks[b]);
    if Touches(n, k + 1) {
      JoinKeepsBase(n, k + 1);
    }
    g := JoinIfBig(JoinIf(n, k + 1), k, g, h.blocks[b]);
  }
}
