/** itrunc and bfree (kernel/fs.c): every block of one inode goes back to the bitmap, each exactly once. */
module FsTruncate {
  import opened FsBlocks

  /** bfree; the source panics when the bit is already clear. */
  function FreeBlock(fs: Fs, b: int): Fs
    requires 0 <= b < |fs.bit|
  {
    fs.(bit := fs.bit[b := false], own := fs.own - {b}, log := fs.log + {BBlock(fs, b)})
  }

  // The direct addresses

  function ClearDirect(fs: Fs, i: int, k: int): Fs
    requires Inum(fs, i) && 0 <= k < NDIRECT && 0 <= fs.ino[i].addrs[k] < |fs.bit|
  {
    if fs.ino[i].addrs[k] == 0 then fs
    else FreeBlock(fs, fs.ino[i].addrs[k]).(ino := fs.ino[i := fs.ino[i].(addrs := fs.ino[i].addrs[k := 0])])
  }

  /** One direct block freed: its slot is empty, its bit clear, and nothing else has changed. */
  lemma ClearDirectKeepsOwned(fs: Fs, i: int, k: int)
    requires Owned(fs) && 0 <= i < |fs.ino| && 0 <= k < NDIRECT
    ensures Inum(fs, i) && 0 <= fs.ino[i].addrs[k] < |fs.bit|
    ensures fs.ino[i].addrs[k] != 0 ==> fs.bit[fs.ino[i].addrs[k]]
    ensures Owned(ClearDirect(fs, i, k))
    ensures forall t :: At(ClearDirect(fs, i, k), t) == if t == Direct(i, k) then 0 else At(fs, t)
  {
    assert InodeOk(fs, i) && SlotOk(fs, Direct(i, k));
    var b, n := fs.ino[i].addrs[k], ClearDirect(fs, i, k);
    assert b == At(fs, Direct(i, k));
    assert BlockOk(fs, b);
    forall j ensures InodeOk(n, j) {
      assert InodeOk(fs, j);
    }
    forall t ensures SlotOk(n, t) {
      assert SlotOk(fs, t);
    }
    forall c ensures BlockOk(n, c) {
      assert BlockOk(fs, c);
    }
  }

  // The indirect block

  /** bfree of entries 0 .. j-1; the entries themselves stay as they are. */
  ghost function FreeEntries(fs: Fs, i: int, j: nat): (n: Fs)
    requires Owned(fs) && j <= NINDIRECT
    ensures |n.bit| == |fs.bit| && n.blk == fs.blk && n.ino == fs.ino
    decreases j
  {
    if j == 0 then fs
    else
      var n := FreeEntries(fs, i, j - 1);
      var b := At(fs, Entry(i, j - 1));
      assert SlotOk(fs, Entry(i, j - 1));
      if b == 0 then n else FreeBlock(n, b)
  }

  ghost predicate EntryBelow(fs: Fs, i: int, j: int, b: int) {
    b in fs.own && fs.own[b].Entry? && fs.own[b].i == i && fs.own[b].k < j
  }

  /** Exactly the blocks in the entries below j are free, and no other bit has moved. */
  ghost predicate EntriesFreed(fs: Fs, n: Fs, i: int, j: int, b: int) {
    && (0 <= b < |fs.bit| == |n.bit| ==> (n.bit[b] <==> fs.bit[b] && !EntryBelow(fs, i, j, b)))
    && (b in n.own <==> b in fs.own && !EntryBelow(fs, i, j, b))
    && (b in n.own ==> n.own[b] == fs.own[b])
  }

  lemma {:induction false} FreeEntriesResult(fs: Fs, i: int, j: nat)
    requires Owned(fs) && j <= NINDIRECT
    ensures var n := FreeEntries(fs, i, j);
            && (forall b :: EntriesFreed(fs, n, i, j, b))
            && n == fs.(bit := n.bit, own := n.own, log := n.log) && |n.bit| == |fs.bit|
  {
    var n := FreeEntries(fs, i, j);
    if j == 0 {
      forall b ensures EntriesFreed(fs, n, i, j, b) {
        assert BlockOk(fs, b);
        EntryIndexed(fs, b);
      }
    } else {
      FreeEntriesResult(fs, i, j - 1);
      var m, e := FreeEntries(fs, i, j - 1), Entry(i, j - 1);
      assert SlotOk(fs, e);
      forall b ensures EntriesFreed(fs, n, i, j, b) {
        assert EntriesFreed(fs, m, i, j - 1, b);
        assert BlockOk(fs, b);
        assert EntryBelow(fs, i, j, b) <==> EntryBelow(fs, i, j - 1, b) || (b in fs.own && fs.own[b] == e);
      }
    }
  }

  lemma EntryIndexed(fs: Fs, b: int)
    requires Owned(fs)
    ensures b in fs.own && fs.own[b].Entry? ==> 0 <= fs.own[b].k < NINDIRECT && At(fs, Ptr(fs.own[b].i)) != 0
  {
    assert BlockOk(fs, b);
  }

  /** The panic in bfree cannot happen: each entry's block is still allocated when its turn comes. */
  lemma EntryStillAllocated(fs: Fs, i: int, j: nat)
    requires Owned(fs) && j < NINDIRECT
    ensures var b := At(fs, Entry(i, j)); b != 0 ==> 0 <= b < |fs.bit| && FreeEntries(fs, i, j).bit[b]
  {
    FreeEntriesResult(fs, i, j);
    var b := At(fs, Entry(i, j));
    assert SlotOk(fs, Entry(i, j));
    assert BlockOk(fs, b);
    assert EntriesFreed(fs, FreeEntries(fs, i, j), i, j, b);
  }

  /** The indirect part of itrunc: all entries, then the indirect block itself. */
  ghost function DropIndirect(fs: Fs, i: int): Fs
    requires Owned(fs) && 0 <= i < |fs.ino|
  {
    assert InodeOk(fs, i) && SlotOk(fs, Ptr(i));
    var p := fs.ino[i].addrs[NDIRECT];
    if p == 0 then fs
    else FreeBlock(FreeEntries(fs, i, NINDIRECT),
        p).(ino := fs.ino[i := fs.ino[i].(addrs := fs.ino[i].addrs[NDIRECT := 0])])
  }

  ghost predicate Gone(i: int, t: Slot) {
    t == Ptr(i) || (t.Entry? && t.i == i)
  }

  lemma DropIndirectReads(fs: Fs, i: int, t: Slot)
    requires Owned(fs) && 0 <= i < |fs.ino|
    ensures At(DropIndirect(fs, i), t) == if Gone(i, t) then 0 else At(fs, t)
  {
    assert InodeOk(fs, i) && InodeOk(fs, t.i);
    FreeEntriesResult(fs, i, NINDIRECT);
  }

  lemma DropIndirectBlocks(fs: Fs, i: int, b: int)
    requires Owned(fs) && 0 <= i < |fs.ino|
    ensures BlockOk(DropIndirect(fs, i), b)
    ensures var n := DropIndirect(fs, i);
            && (b in n.own <==> b in fs.own && !Gone(i, fs.own[b])) && (b in n.own ==> n.own[b] == fs.own[b])
  {
    FreeEntriesResult(fs, i, NINDIRECT);
    assert InodeOk(fs, i) && SlotOk(fs, Ptr(i)) && BlockOk(fs, b);
    EntryIndexed(fs, b);
    assert EntriesFreed(fs, FreeEntries(fs, i, NINDIRECT), i, NINDIRECT, b);
    if b in fs.own {
      DropIndirectReads(fs, i, fs.own[b]);
    }
  }

  lemma DropIndirectKeepsOwned(fs: Fs, i: int)
    requires Owned(fs) && 0 <= i < |fs.ino|
    ensures Owned(DropIndirect(fs, i))
  {
    var n := DropIndirect(fs, i);
    DropIndirectRest(fs, i);
    forall j ensures InodeOk(n, j) {
      assert InodeOk(fs, j);
    }
    forall b ensures BlockOk(n, b) {
      DropIndirectBlocks(fs, i, b);
    }
    forall t ensures SlotOk(n, t) {
      assert SlotOk(fs, t);
      DropIndirectReads(fs, i, t);
      DropIndirectBlocks(fs, i, At(fs, t));
    }
  }

  // The whole of itrunc

  ghost function ClearDirects(fs: Fs, i: int, k: nat): (n: Fs)
    requires Owned(fs) && 0 <= i < |fs.ino| && k <= NDIRECT
    ensures Owned(n) && |n.ino| == |fs.ino|
  {
    if k == 0 then fs
    else
      var n := ClearDirects(fs, i, k - 1);
      ClearDirectKeepsOwned(n, i, k - 1);
      ClearDirect(n, i, k - 1)
  }

  lemma {:induction false} ClearDirectsResult(fs: Fs, i: int, k: nat)
    requires Owned(fs) && 0 <= i < |fs.ino| && k <= NDIRECT
    ensures var n := ClearDirects(fs, i, k);
            && SameButSlots(fs, n, i)
            && (forall t :: At(n, t) == if t.Direct? && t.i == i && t.k < k then 0 else At(fs, t))
  {
    if k == 0 {
      assert InodeOk(fs, i);
      assert forall t: Slot | t.Direct? && t.k < 0 :: At(fs, t) == 0;
    } else {
      ClearDirectsResult(fs, i, k - 1);
      var m := ClearDirects(fs, i, k - 1);
      ClearDirectKeepsOwned(m, i, k - 1);
      ClearedNext(fs, m, ClearDirect(m, i, k - 1), i, k);
    }
  }

  /** m is fs with k - 1 direct addresses of inode i cleared; n has the next one cleared too. */
  lemma ClearedNext(fs: Fs, m: Fs, n: Fs, i: int, k: int)
    requires 0 < k <= NDIRECT && 0 <= i < |fs.ino| && SameButSlots(fs, m, i) && SameButSlots(m, n, i)
    requires forall t :: At(m, t) == if t.Direct? && t.i == i && t.k < k - 1 then 0 else At(fs, t)
    requires forall t :: At(n, t) == if t == Direct(i, k - 1) then 0 else At(m, t)
    ensures SameButSlots(fs, n, i)
    ensures forall t :: At(n, t) == if t.Direct? && t.i == i && t.k < k then 0 else At(fs, t)
  {
  }

  /** Only inode i's addresses, the bitmap and the log differ. */
  ghost predicate SameButSlots(fs: Fs, n: Fs, i: int) {
    && n == fs.(bit := n.bit, own := n.own, log := n.log, ino := n.ino) && |n.bit| == |fs.bit|
    && |n.ino| == |fs.ino|
    && forall j | 0 <= j < |fs.ino| ::
      && (j != i ==> n.ino[j] == fs.ino[j])
      && n.ino[j].kind == fs.ino[j].kind && n.ino[j].size == fs.ino[j].size
  }

  /** iupdate: copy the inode to its block. */
  function Update(fs: Fs, i: int): Fs
    requires 0 <= i < |fs.ino| == |fs.dino|
  {
    fs.(dino := fs.dino[i := fs.ino[i]], log := fs.log + {IBlock(fs, i)})
  }

  ghost function Truncate(fs: Fs, i: int): Fs
    requires Owned(fs) && 0 <= i < |fs.ino|
  {
    var n := DropIndirect(ClearDirects(fs, i, NDIRECT), i);
    DropIndirectKeepsOwned(ClearDirects(fs, i, NDIRECT), i);
    Update(n.(ino := n.ino[i := n.ino[i].(size := 0)]), i)
  }

  lemma DropIndirectRest(fs: Fs, i: int)
    requires Owned(fs) && 0 <= i < |fs.ino|
    ensures SameButSlots(fs, DropIndirect(fs, i), i)
  {
    assert InodeOk(fs, i) && SlotOk(fs, Ptr(i));
    FreeEntriesResult(fs, i, NINDIRECT);
  }

  lemma TruncateReads(fs: Fs, i: int, t: Slot)
    requires Owned(fs) && 0 <= i < |fs.ino|
    ensures At(Truncate(fs, i), t) == if t.i == i then 0 else At(fs, t)
  {
    ClearDirectsResult(fs, i, NDIRECT);
    var m := ClearDirects(fs, i, NDIRECT);
    DropIndirectReads(m, i, t);
    DropIndirectRest(m, i);
    var n := DropIndirect(m, i);
    assert At(Truncate(fs, i), t) == At(n, t) by {
      assert Inum(Truncate(fs, i), t.i) <==> Inum(n, t.i);
    }
    if t.i == i && t.Direct? {
      assert At(m, t) == 0;
    }
  }

  lemma TruncateRest(fs: Fs, i: int)
    requires Owned(fs) && 0 <= i < |fs.ino|
    ensures var n := Truncate(fs, i);
            && n.blk == fs.blk && Layout(n) && n.start == fs.start && n.size == fs.size
            && n.ino[i].size == 0 && n.ino[i].kind == fs.ino[i].kind
            && n.dino == fs.dino[i := n.ino[i]]
            && forall j | 0 <= j < |fs.ino| && j != i :: n.ino[j] == fs.ino[j]
  {
    ClearDirectsResult(fs, i, NDIRECT);
    DropIndirectRest(ClearDirects(fs, i, NDIRECT), i);
  }

  /** Sizes and copies of inodes play no part in who owns which block. */
  lemma UpdateKeepsOwned(fs: Fs, i: int)
    requires Owned(fs) && 0 <= i < |fs.ino|
    ensures Owned(Update(fs.(ino := fs.ino[i := fs.ino[i].(size := 0)]), i))
  {
    var n := Update(fs.(ino := fs.ino[i := fs.ino[i].(size := 0)]), i);
    forall t ensures At(n, t) == At(fs, t) {
      assert Inum(n, t.i) <==> Inum(fs, t.i);
    }
    forall j ensures InodeOk(n, j) {
      assert InodeOk(fs, j);
    }
    forall t ensures SlotOk(n, t) {
      assert SlotOk(fs, t);
    }
    forall b ensures BlockOk(n, b) {
      assert BlockOk(fs, b);
    }
  }

  /**
    * itrunc keeps the invariant, empties file i, and leaves every other file as it was;
    * a bit is clear afterwards exactly if it was clear or its block belonged to i.
    */
  lemma TruncateResult(fs: Fs, i: int)
    requires Inv(fs) && 0 <= i < |fs.ino|
    ensures Inv(Truncate(fs, i))
    ensures Synced(fs) ==> Synced(Truncate(fs, i))
    ensures var n := Truncate(fs, i);
            && (forall t :: At(n, t) == if t.i == i then 0 else At(fs, t))
            && (forall j, p | j != i :: FileByte(n, j, p) == FileByte(fs, j, p))
            && (forall j | 0 <= j < |fs.ino| && j != i :: n.ino[j] == fs.ino[j])
            && n.ino[i].size == 0 && |n.bit| == fs.size
            && (forall b | fs.start <= b < fs.size :: n.bit[b] <==> b in fs.own && fs.own[b].i != i)
  {
    var m := ClearDirects(fs, i, NDIRECT);
    DropIndirectKeepsOwned(m, i);
    UpdateKeepsOwned(DropIndirect(m, i), i);
    TruncateRest(fs, i);
    var n := Truncate(fs, i);
    forall t ensures At(n, t) == if t.i == i then 0 else At(fs, t) {
      TruncateReads(fs, i, t);
    }
    forall j, bn ensures Covered(n, j, bn) {
      assert Covered(fs, j, bn);
      assert DataSlot(j, bn).i == j;
    }
    TruncatedBits(fs, n, i);
  }

  lemma TruncatedBits(fs: Fs, n: Fs, i: int)
    requires Owned(fs) && Owned(n) && n.start == fs.start && n.size == fs.size
    requires forall t :: At(n, t) == if t.i == i then 0 else At(fs, t)
    ensures forall b | fs.start <= b < fs.size :: n.bit[b] <==> b in fs.own && fs.own[b].i != i
  {
    forall b | fs.start <= b < fs.size ensures n.bit[b] <==> b in fs.own && fs.own[b].i != i {
      assert BlockOk(fs, b) && BlockOk(n, b);
      if b in fs.own {
        assert SlotOk(n, fs.own[b]);
      }
      if n.bit[b] {
        assert SlotOk(fs, n.own[b]);
      }
    }
  }

  // What itrunc changes is logged

  /** The layout, and blocks in slots that exist. */
  ghost predicate InPlace(fs: Fs) {
    Layout(fs) && forall b | b in fs.own :: 0 <= b < |fs.blk|
  }

  lemma OwnedInPlace(fs: Fs)
    requires Owned(fs)
    ensures InPlace(fs)
  {
    forall b | b in fs.own ensures 0 <= b < |fs.blk| {
      assert BlockOk(fs, b);
    }
  }

  lemma FreeLogged(fs: Fs, b: int, ino: seq<Inode>)
    requires InPlace(fs) && 0 <= b < |fs.bit| && |ino| == |fs.ino|
    ensures var n := FreeBlock(fs, b).(ino := ino); InPlace(n) && LogsMeta(fs, n) && LogsData(fs, n)
  {
    var n := FreeBlock(fs, b).(ino := ino);
    assert forall c :: OwnLogged(fs, n, c) && BitLogged(fs, n, c) && InodeLogged(fs, n, c) && PlaceLogged(fs, n, c);
    assert forall c :: DataLogged(fs, n, c);
  }

  lemma Unlogged(fs: Fs)
    requires InPlace(fs)
    ensures LogsMeta(fs, fs) && LogsData(fs, fs)
  {
    assert forall c :: OwnLogged(fs, fs, c);
  }

  lemma {:induction false} FreeEntriesLogged(fs: Fs, i: int, j: nat)
    requires Owned(fs) && j <= NINDIRECT
    ensures var n := FreeEntries(fs, i, j); InPlace(n) && LogsMeta(fs, n) && LogsData(fs, n)
    decreases j
  {
    OwnedInPlace(fs);
    Unlogged(fs);
    if j > 0 {
      FreeEntriesLogged(fs, i, j - 1);
      var m, b := FreeEntries(fs, i, j - 1), At(fs, Entry(i, j - 1));
      assert SlotOk(fs, Entry(i, j - 1));
      if b != 0 {
        FreeLogged(m, b, m.ino);
        LogsMetaTrans(fs, m, FreeBlock(m, b));
        LogsDataTrans(fs, m, FreeBlock(m, b));
      }
    }
  }

  lemma {:induction false} ClearDirectsLogged(fs: Fs, i: int, k: nat)
    requires Owned(fs) && 0 <= i < |fs.ino| && k <= NDIRECT
    ensures LogsMeta(fs, ClearDirects(fs, i, k)) && LogsData(fs, ClearDirects(fs, i, k))
    decreases k
  {
    OwnedInPlace(fs);
    Unlogged(fs);
    if k > 0 {
      ClearDirectsLogged(fs, i, k - 1);
      var m := ClearDirects(fs, i, k - 1);
      ClearDirectKeepsOwned(m, i, k - 1);
      OwnedInPlace(m);
      var b, n := m.ino[i].addrs[k - 1], ClearDirect(m, i, k - 1);
      if b != 0 {
        FreeLogged(m, b, n.ino);
        LogsMetaTrans(fs, m, n);
        LogsDataTrans(fs, m, n);
      }
    }
  }

  lemma DropIndirectLogged(fs: Fs, i: int)
    requires Owned(fs) && 0 <= i < |fs.ino|
    ensures LogsMeta(fs, DropIndirect(fs, i)) && LogsData(fs, DropIndirect(fs, i))
  {
    assert InodeOk(fs, i) && SlotOk(fs, Ptr(i));
    var p, n := fs.ino[i].addrs[NDIRECT], DropIndirect(fs, i);
    assert p == At(fs, Ptr(i));
    FreeEntriesLogged(fs, i, NINDIRECT);
    var m := FreeEntries(fs, i, NINDIRECT);
    if p == 0 {
      OwnedInPlace(fs);
      Unlogged(fs);
    } else {
      FreeLogged(m, p, n.ino);
      LogsMetaTrans(fs, m, n);
      LogsDataTrans(fs, m, n);
    }
  }

  lemma UpdateLogged(fs: Fs, i: int, ino: seq<Inode>)
    requires InPlace(fs) && 0 <= i < |fs.ino| == |ino|
    ensures LogsMeta(fs, Update(fs.(ino := ino), i)) && LogsData(fs, Update(fs.(ino := ino), i))
  {
    var n := Update(fs.(ino := ino), i);
    assert forall c :: OwnLogged(fs, n, c) && BitLogged(fs, n, c) && InodeLogged(fs, n, c) && PlaceLogged(fs, n, c);
    assert forall c :: DataLogged(fs, n, c);
  }

  /** Every bit and inode that itrunc changes is in the log. */
  lemma TruncateLogged(fs: Fs, i: int)
    requires Owned(fs) && 0 <= i < |fs.ino|
    ensures LogsMeta(fs, Truncate(fs, i)) && LogsData(fs, Truncate(fs, i))
  {
    ClearDirectsLogged(fs, i, NDIRECT);
    var m := ClearDirects(fs, i, NDIRECT);
    DropIndirectLogged(m, i);
    DropIndirectKeepsOwned(m, i);
    var n, k := DropIndirect(m, i), Truncate(fs, i);
    OwnedInPlace(n);
    UpdateLogged(n, i, k.ino);
    LogsMetaTrans(fs, m, n);
    LogsDataTrans(fs, m, n);
    LogsMetaTrans(fs, n, k);
    LogsDataTrans(fs, n, k);
  }
}
