/** mkfs/mkfs.c: the image it builds satisfies the invariant the kernel's file system keeps. */
module Mkfs {
  import opened FsBlocks
  import opened FsTruncate
  import opened FsFiles

  /** The bitmap when the first k of n blocks have been taken. */
  function UsedBits(n: nat, k: int): (r: seq<bool>)
    ensures |r| == n
  {
    seq(n, b requires 0 <= b => b < k)
  }

  lemma NextBlock(n: nat, k: int)
    requires 0 <= k < n
    ensures FirstFree(UsedBits(n, k), 0) == k && !UsedBits(n, k)[k]
    ensures UsedBits(n, k)[k := true] == UsedBits(n, k + 1)
  {
    FirstFreeIs(UsedBits(n, k), 0, k);
  }

  // No block is allocated past the end of a file

  ghost predicate EndsAt(n: Fs, i: int, end: int, bn: int) {
    At(n, DataSlot(i, bn)) != 0 ==> bn * BSIZE < end
  }

  /** No data block past the end, and no indirect block unless some data block is in it. */
  ghost predicate Tight(n: Fs, i: int, end: int) {
    (forall bn :: EndsAt(n, i, end, bn)) && (At(n, Ptr(i)) != 0 ==> NDIRECT * BSIZE < end)
  }

  ghost predicate TightInode(n: Fs, i: int) {
    0 <= i < |n.ino| ==> Tight(n, i, n.ino[i].size)
  }

  lemma BmapKeepsTight(f: Fs, i: int, bn: int, n: Fs, b: int, bitmap: set<int>, end: int, end': int)
    requires BmapEffect(f, i, bn, n, b, bitmap) && Tight(f, i, end) && bn * BSIZE < end' && end <= end'
    ensures Tight(n, i, end')
  {
    forall c ensures EndsAt(n, i, end', c) {
      assert EndsAt(f, i, end, c) && OnlyNew(f, n, i, bn, DataSlot(i, c));
    }
    assert OnlyNew(f, n, i, bn, Ptr(i));
  }

  lemma PokeKeepsTight(m: Fs, i: int, bn: int, o: int, b: int, chunk: seq<Byte>, end: int)
    requires PokeArgs(m, i, bn, o, b, |chunk|) && Tight(m, i, end)
    ensures 0 <= b < |m.blk| && |m.blk[b]| == BSIZE && Tight(Poke(m, b, o, chunk), i, end)
  {
    PokeKeepsInv(m, i, bn, o, chunk);
    var n := Poke(m, b, o, chunk);
    forall c ensures EndsAt(n, i, end, c) {
      assert EndsAt(m, i, end, c);
      PokeReads(m, i, bn, o, chunk, DataSlot(i, c));
    }
    PokeReads(m, i, bn, o, chunk, Ptr(i));
  }

  // How many blocks a file takes

  /** The blocks of a file of sz bytes: its data blocks, and the indirect block once twelve do not hold it. */
  function Blocks(sz: int): int {
    var c := (sz + BSIZE - 1) / BSIZE;
    c + Count(c > NDIRECT)
  }

  lemma BlocksGrow(a: int, b: int)
    requires a <= b
    ensures Blocks(a) <= Blocks(b)
  {
  }

  /** The blocks bmap has to allocate for block bn of file i. */
  ghost function Need(n: Fs, i: int, bn: int): int {
    Count(At(n, DataSlot(i, bn)) == 0) + Count(bn >= NDIRECT && At(n, Ptr(i)) == 0)
  }

  /** The blocks that len bytes more take, in a file of off bytes. */
  function Growth(off: int, len: int): int {
    Blocks(off + len) - Blocks(off)
  }

  lemma GrowthGrows(off: int, a: int, b: int)
    requires a <= b
    ensures Growth(off, a) <= Growth(off, b)
  {
    BlocksGrow(off + a, off + b);
  }

  lemma GrowthAdds(len: int, n: int, all: int)
    requires len + n <= all
    ensures Blocks(len) + Growth(len, n) == Blocks(len + n) <= Blocks(all)
  {
    BlocksGrow(len + n, all);
  }

  lemma BlocksStep(p: int, n1: int)
    requires 0 <= p && 0 < n1 && p % BSIZE + n1 <= BSIZE
    ensures Blocks(p + n1) - Blocks(p) == Count(p % BSIZE == 0) + Count(p == NDIRECT * BSIZE)
  {
    var fbn, o := p / BSIZE, p % BSIZE;
    assert (p + n1 + BSIZE - 1) / BSIZE == fbn + 1;
    assert (p + BSIZE - 1) / BSIZE == fbn + Count(o != 0);
  }

  /** A file that ends at p has just the blocks below p, so the block p is in needs what the size says. */
  lemma NeedIsGrowth(n: Fs, i: int, p: int, n1: int)
    requires 0 <= p && 0 < n1 && p % BSIZE + n1 <= BSIZE && Tight(n, i, p) && AllBlocks(n, i, p)
    ensures Need(n, i, p / BSIZE) == Growth(p, n1)
  {
    BlocksStep(p, n1);
    var bn := p / BSIZE;
    assert EndsAt(n, i, p, bn) && HasBlock(n, i, p, bn) && HasBlock(n, i, p, NDIRECT);
  }

  // The size of the root directory is rounded up at the end

  function RoundUp(size: int): int {
    (size / BSIZE + 1) * BSIZE
  }

  function RootFixed(fs: Fs, i: int): Fs
    requires 0 <= i < |fs.ino| == |fs.dino|
  {
    Finish(fs, i, RoundUp(fs.ino[i].size))
  }

  /**
    * Rounding the root directory's size up keeps the invariant exactly if the directory does not
    * already fill its last block: when it does, the new size covers a block that was never allocated.
    */
  lemma RootFixedCondition(fs: Fs, i: int)
    requires Inv(fs) && 0 <= i < |fs.ino| && fs.ino[i].kind != 0 && TightInode(fs, i)
    ensures Inv(RootFixed(fs, i)) <==> fs.ino[i].size % BSIZE != 0
  {
    assert InodeOk(fs, i);
    var size, n := fs.ino[i].size, RootFixed(fs, i);
    var end := RoundUp(size);
    assert end > size && n.ino[i].size == end;
    if size % BSIZE != 0 {
      forall bn ensures HasBlock(fs, i, end, bn) {
        assert Covered(fs, i, bn);
      }
      FinishKeepsInv(fs, i, end);
    } else {
      var bn := size / BSIZE;
      assert EndsAt(fs, i, size, bn);
      assert At(n, DataSlot(i, bn)) == At(fs, DataSlot(i, bn)) by {
        assert Inum(n, i) <==> Inum(fs, i);
      }
      assert !Covered(n, i, bn);
    }
  }

  /** Sixty-two files of the host give the root directory sixty-four entries: two for itself, one for each of them. */
  lemma SixtyFourEntries(fs: Fs, i: int)
    requires Inv(fs) && 0 <= i < |fs.ino| && fs.ino[i].kind != 0 && TightInode(fs, i)
    requires fs.ino[i].size == 16 * (2 + 62)
    ensures !Inv(RootFixed(fs, i)) && At(RootFixed(fs, i), DataSlot(i, 1)) == 0
    ensures RootFixed(fs, i).ino[i].size == 2 * BSIZE
  {
    RootFixedCondition(fs, i);
    assert EndsAt(fs, i, fs.ino[i].size, 1);
    assert Inum(RootFixed(fs, i), i) <==> Inum(fs, i);
  }

  function EmptyInode(kind: int): Inode {
    Inode(kind, 0, seq(NDIRECT + 1, _ => 0))
  }

  /** ialloc: the next inode, empty. */
  function WithInode(fs: Fs, i: int, kind: int): Fs
    requires 0 <= i < |fs.ino| == |fs.dino|
  {
    fs.(ino := fs.ino[i := EmptyInode(kind)], dino := fs.dino[i := EmptyInode(kind)])
  }

  lemma WithInodeKeepsInv(fs: Fs, i: int, kind: int)
    requires Inv(fs) && Synced(fs) && 0 <= i < |fs.ino| && fs.ino[i].kind == 0 && kind != 0
    ensures var n := WithInode(fs, i, kind);
            && Inv(n) && Synced(n) && OnlyInode(fs, n, i)
            && (forall t :: At(n, t) == At(fs, t))
            && (forall j, p :: FileByte(n, j, p) == FileByte(fs, j, p))
  {
    assert InodeOk(fs, i);
    var n := WithInode(fs, i, kind);
    forall t ensures At(n, t) == At(fs, t) {
      assert InodeOk(fs, t.i);
    }
    forall j ensures InodeOk(n, j) {
      assert InodeOk(fs, j);
    }
    forall t ensures SlotOk(n, t) {
      assert SlotOk(fs, t);
    }
    forall b ensures BlockOk(n, b) {
      assert BlockOk(fs, b);
    }
    forall j, bn ensures Covered(n, j, bn) {
      assert Covered(fs, j, bn);
    }
  }

  /** The invariant, with the inodes in step, no block past the end of a file, and no inode in use from free on. */
  ghost predicate Sound(fs: Fs, free: int) {
    && Inv(fs) && Synced(fs) && (forall i :: TightInode(fs, i))
    && 0 < free <= |fs.ino| && forall i | free <= i < |fs.ino| :: fs.ino[i].kind == 0
  }

  class Image {
    const size: int
    const start: int
    const inodestart: int
    const bmapstart: int
    var freeinode: int
    var freeblock: int
    var blk: seq<Block>
    var ino: seq<Inode>
    var dino: seq<Inode>
    ghost var own: map<int, Slot>
    ghost var log: set<int>

    /** The file system the image holds, once the bitmap has been written. */
    ghost function View(): Fs
      reads this
    {
      Fs(size, start, inodestart, bmapstart, UsedBits(if size < 0 then 0 else size, freeblock), blk, ino, dino, own,
          log)
    }

    /** Blocks not handed out yet are zero. */
    ghost predicate Blank()
      reads this
    {
      start <= freeblock <= size == |blk| && forall b | freeblock <= b < size :: 0 <= b ==> blk[b] == Zeroed()
    }

    ghost predicate Valid()
      reads this
    {
      Sound(View(), freeinode) && Blank()
    }

    /** The layout, and an image of zeros. */
    constructor (fssize: int, ninodes: int, nlog: int)
      requires 0 < ninodes && 0 <= nlog && fssize < UINT
      requires 2 + nlog + (ninodes / IPB + 1) + (fssize / BPB + 1) <= fssize
      ensures Valid() && size == fssize && start == 2 + nlog + (ninodes / IPB + 1) + (fssize / BPB + 1)
      ensures |ino| == ninodes && freeblock == start && freeinode == 1 && Untouched(View())
    {
      var ninodeblocks, nbitmap := ninodes / IPB + 1, fssize / BPB + 1;
      size, start := fssize, 2 + nlog + ninodeblocks + nbitmap;
      inodestart, bmapstart := 2 + nlog, 2 + nlog + ninodeblocks;
      freeinode, freeblock := 1, 2 + nlog + ninodeblocks + nbitmap;
      blk := seq(fssize, _ => Zeroed());
      ino, dino := seq(ninodes, _ => EmptyInode(0)), seq(ninodes, _ => EmptyInode(0));
      own, log := map[], {};
      new;
      ghost var n := View();
      forall t ensures At(n, t) == 0 {
      }
      assert forall i :: InodeOk(n, i);
      assert forall t :: SlotOk(n, t);
      assert forall b :: BlockOk(n, b);
      assert forall i, bn :: Covered(n, i, bn);
      assert forall i, bn | 0 <= i < |n.ino| :: EndsAt(n, i, 0, bn);
    }

    /** ialloc. */
    method Ialloc(kind: int) returns (inum: int)
      requires Valid() && freeinode < |ino| && kind != 0
      modifies this`freeinode, this`ino, this`dino
      ensures Valid() && inum == old(freeinode) && freeinode == inum + 1 && View() == WithInode(old(View()), inum, kind)
    {
      ghost var m := View();
      inum := freeinode;
      WithInodeKeepsInv(m, inum, kind);
      freeinode := freeinode + 1;
      ino, dino := ino[inum := EmptyInode(kind)], dino[inum := EmptyInode(kind)];
      ghost var n := View();
      forall i ensures TightInode(n, i) {
        assert TightInode(m, i) && InodeOk(m, i);
        forall bn | 0 <= i < |n.ino| ensures EndsAt(n, i, n.ino[i].size, bn) {
          assert EndsAt(m, i, m.ino[i].size, bn);
        }
      }
    }

    /** The block in addrs[k] of an inode, the next free one if there is none; false if the image is full. */
    method TakeAddr(i: int, k: int, ghost s: Slot) returns (x: int, fits: bool)
      requires Inv(View()) && Blank() && ValidSlot(View(), s) && s.i == i && 0 <= k <= NDIRECT
      requires s == if k < NDIRECT then Direct(i, k) else Ptr(i)
      modifies this
      ensures fits <==> old(freeblock) + Count(At(old(View()), s) == 0) <= size
      ensures fits ==> freeblock == old(freeblock) + Count(At(old(View()), s) == 0)
      ensures fits ==> Blank() && freeinode == old(freeinode) && x != 0 && (View(), x) == Obtain(old(View()), s)
    {
      ghost var m := View();
      if ino[i].addrs[k] == 0 {
        if freeblock == size {
          return 0, false;
        }
        NextBlock(size, freeblock);
        FreeIsData(m, freeblock);
        ino := ino[i := ino[i].(addrs := ino[i].addrs[k := freeblock])];
        own, log := own[freeblock := s], log + {BBlock(m, freeblock), freeblock};
        assert blk == m.blk[freeblock := Zeroed()];
        freeblock := freeblock + 1;
      }
      return ino[i].addrs[k], true;
    }

    method TakeEntry(i: int, k: int) returns (x: int, fits: bool)
      requires Inv(View()) && Blank() && ValidSlot(View(), Entry(i, k))
      modifies this
      ensures fits <==> old(freeblock) + Count(At(old(View()), Entry(i, k)) == 0) <= size
      ensures fits ==> freeblock == old(freeblock) + Count(At(old(View()), Entry(i, k)) == 0)
      ensures fits ==>
              Blank() && freeinode == old(freeinode) && x != 0 && (View(), x) == Obtain(old(View()), Entry(i, k))
    {
      ghost var m := View();
      var p := ino[i].addrs[NDIRECT];
      assert SlotOk(m, Ptr(i)) && At(m, Ptr(i)) == p;
      var indirect := blk[p];
      if Word(indirect, k) == 0 {
        if freeblock == size {
          return 0, false;
        }
        NextBlock(size, freeblock);
        assert BlockOk(m, p);
        assert blk == m.blk[freeblock := Zeroed()];
        SetWordReads(indirect, k, freeblock, k);
        indirect := SetWord(indirect, k, freeblock);
        own, log := own[freeblock := Entry(i, k)], log + {BBlock(m, freeblock), freeblock} + {p};
        freeblock := freeblock + 1;
        blk := blk[p := indirect];
      }
      return Word(indirect, k), true;
    }

    method TakeTo(i: int, fbn: int) returns (x: int, fits: bool)
      requires Blank() && BmapReady(View(), i, fbn)
      modifies this
      ensures fits <==> old(freeblock) + Need(old(View()), i, fbn) <= size
      ensures fits ==> freeblock == old(freeblock) + Need(old(View()), i, fbn)
      ensures fits ==> Blank() && freeinode == old(freeinode) && x != 0 && (View(), x) == Bmap(old(View()), i, fbn)
    {
      ghost var f := View();
      PtrThenEntry(f, i, fbn);
      if fbn < NDIRECT {
        x, fits := TakeAddr(i, fbn, Direct(i, fbn));
      } else {
        x, fits := TakeIndirect(i, fbn);
      }
    }

    method TakeIndirect(i: int, fbn: int) returns (x: int, fits: bool)
      requires Blank() && BmapReady(View(), i, fbn) && fbn >= NDIRECT
      modifies this
      ensures fits <==> old(freeblock) + Need(old(View()), i, fbn) <= size
      ensures fits ==> freeblock == old(freeblock) + Need(old(View()), i, fbn)
      ensures fits ==> Blank() && freeinode == old(freeinode) && x != 0 && (View(), x) == Bmap(old(View()), i, fbn)
    {
      ghost var f := View();
      PtrThenEntry(f, i, fbn);
      x, fits := TakeAddr(i, NDIRECT, Ptr(i));
      if fits {
        ObtainResult(f, Ptr(i));
        assert OnlySlot(f, View(), Ptr(i), DataSlot(i, fbn));
        x, fits := TakeEntry(i, fbn - NDIRECT);
      }
    }

    /** The block a round of iappend writes to: the one the kernel's bmap would choose. */
    method TakeBlock(i: int, fbn: int, ghost f: Fs) returns (x: int, fits: bool, ghost n: Fs, ghost bitmap: set<int>)
      requires f == View() && Blank() && BmapReady(f, i, fbn)
      modifies this
      ensures fits <==> old(freeblock) + Need(f, i, fbn) <= size
      ensures fits ==> freeblock == old(freeblock) + Need(f, i, fbn)
      ensures fits ==>
              Blank() && freeinode == old(freeinode) && x != 0 && n == View() && BmapEffect(f, i, fbn, n, x, bitmap)
    {
      ghost var b;
      n, b, bitmap := BmapHasEffect(f, i, fbn);
      x, fits := TakeTo(i, fbn);
    }

    /** The copy into the block's sector. */
    method CopyTo(x: int, o: int, chunk: seq<Byte>)
      requires Blank() && 0 <= x < freeblock && 0 <= o && o + |chunk| <= |blk[x]|
      modifies this`blk, this`log
      ensures Blank() && View() == Poke(old(View()), x, o, chunk)
    {
      blk := blk[x := Patch(blk[x], o, chunk)];
      log := log + {x};
    }

    /** The next bytes of an append go to their block. */
    method CopyPart(i: int, fbn: int, o: int, chunk: seq<Byte>, ghost w: Writing)
      returns (fits: bool, ghost w': Writing)
      requires w.n == View() && i == w.i && Building(w) && w.tot < |w.src| && Blank() && fbn == (w.off + w.tot) / BSIZE
      requires Fits(w, |chunk|, o) && chunk == w.src[w.tot..w.tot + |chunk|]
      modifies this
      ensures fits <==> old(freeblock) + Need(w.n, i, fbn) <= size
      ensures fits ==> freeblock == old(freeblock) + Need(w.n, i, fbn)
      ensures fits ==> Blank() && freeinode == old(freeinode) && w'.n == View()
      ensures fits ==> Building(w') && Resumes(w, w', w.tot + |chunk|)
    {
      RoundStarts(w);
      ghost var n, more;
      var x;
      x, fits, n, more := TakeBlock(i, fbn, w.n);
      w' := w;
      if fits {
        w' := AppendRound(w, fbn, n, x, more, |chunk|, o, chunk, freeblock);
        CopyTo(x, o, chunk);
      }
    }

    /** One round of iappend's loop. */
    method AppendPart(i: int, off: int, src: seq<Byte>, tot: int, ghost a: Append)
      returns (n1: int, fits: bool, ghost a': Append)
      requires (i, off, src, tot) == (a.w.i, a.w.off, a.w.src, a.w.tot) && Going(a) && tot < |src|
      requires a.w.n == View() && a.free == freeblock && Blank()
      modifies this
      ensures 0 < n1 <= |src| - tot
      ensures fits <==> a.base + Growth(off, tot + n1) <= size
      ensures fits ==> Going(a') && Follows(a, a', tot + n1)
      ensures fits ==> a'.w.n == View() && a'.free == freeblock && Blank() && freeinode == old(freeinode)
    {
      var fbn, o := (off + tot) / BSIZE, (off + tot) % BSIZE;
      n1 := Min(|src| - tot, (fbn + 1) * BSIZE - (off + tot));
      ghost var need := PartNeeds(a, fbn, o, n1);
      ghost var w';
      fits, w' := CopyPart(i, fbn, o, src[tot..tot + n1], a.w);
      a' := Append(w', a.base, freeblock);
      if fits {
        PartDone(a, a', n1, need);
      }
    }

    /** iappend's loop. */
    method AppendLoop(i: int, off: int, src: seq<Byte>, ghost a: Append) returns (fits: bool, ghost a': Append)
      requires (i, off, src, 0) == (a.w.i, a.w.off, a.w.src, a.w.tot) && Going(a)
      requires a.w.n == View() && a.free == freeblock && Blank()
      modifies this
      ensures fits <==> a.base + Growth(off, |src|) <= size
      ensures fits ==> Going(a') && Follows(a, a', |src|)
      ensures fits ==> a'.w.n == View() && a'.free == freeblock && Blank() && freeinode == old(freeinode)
    {
      var tot := 0;
      a', fits := a, true;
      while tot < |src|
        invariant fits && 0 <= tot <= |src| && Going(a') && Follows(a, a', tot)
        invariant a'.w.n == View() && a'.free == freeblock && Blank() && freeinode == old(freeinode)
      {
        var n1;
        ghost var b := a';
        n1, fits, a' := AppendPart(i, off, src, tot, b);
        GrowthGrows(off, tot + n1, |src|);
        if !fits {
          return;
        }
        tot := tot + n1;
        FollowsOn(a, b, a', tot - n1, tot);
      }
    }

    /** The new size goes to the inode. */
    method EndAppend(i: int, end: int, ghost w: Writing)
      requires Building(w) && w.tot == |w.src| && w.i == i && w.off + w.tot == end && w.n == View() && Blank()
      requires Sound(w.f, freeinode) && i < freeinode && w.off == w.f.ino[i].size
      modifies this`ino, this`dino, this`log
      ensures Valid() && Appended(w.f, View(), i, w.src)
    {
      ghost var m := AppendDone(w, freeinode, end);
      WriteInode(i, end);
    }

    /** iappend: what it builds is what the kernel's writei at the end of the file would have built. */
    method Iappend(i: int, src: seq<Byte>) returns (fits: bool)
      requires Valid() && 0 <= i < freeinode && ino[i].kind != 0
      modifies this
      ensures fits <==>
                && old(ino)[i].size + |src| <= FILEMAX
                && old(freeblock) + Growth(old(ino)[i].size, |src|) <= size
      ensures fits ==> freeblock == old(freeblock) + Growth(old(ino)[i].size, |src|)
      ensures fits ==> Valid() && Appended(old(View()), View(), i, src) && freeinode == old(freeinode)
    {
      ghost var f := View();
      var off := ino[i].size;
      if off + |src| > FILEMAX {
        return false;
      }
      assert TightInode(f, i) && InodeOk(f, i);
      ghost var w := WriteStarts(f, i, off, src);
      ghost var a := Append(w, freeblock, freeblock);
      ghost var a';
      fits, a' := AppendLoop(i, off, src, a);
      if fits {
        EndAppend(i, off + |src|, a'.w);
      }
    }

    /** The last step but one: the root directory's size, rounded up. */
    method FixRoot(i: int)
      requires Valid() && 0 <= i < |ino| && ino[i].kind != 0
      modifies this`ino, this`dino, this`log
      ensures |old(dino)| == |old(ino)| && View() == RootFixed(old(View()), i)
      ensures Inv(View()) <==> old(ino)[i].size % BSIZE != 0
    {
      assert TightInode(View(), i);
      RootFixedCondition(View(), i);
      var off := (ino[i].size / BSIZE + 1) * BSIZE;
      WriteInode(i, off);
    }

    /** balloc: one bitmap block with the first freeblock bits set. ok is the assertion that they fit in it. */
    method WriteBitmap() returns (ok: bool, bit: seq<bool>)
      requires 0 <= freeblock <= size
      ensures ok <==> freeblock < BPB
      ensures ok ==> bit == View().bit
    {
      bit := seq(size, _ => false);
      if freeblock >= BPB {
        return false, bit;
      }
      var i := 0;
      while i < freeblock
        invariant 0 <= i <= freeblock && |bit| == size
        invariant forall b | 0 <= b < size :: bit[b] <==> b < i
      {
        bit := bit[i := true];
        i := i + 1;
      }
      ok := true;
    }

    /** The new size, and winode. */
    method WriteInode(i: int, end: int)
      requires 0 <= i < |ino| == |dino| && ino[i].size <= end
      modifies this`ino, this`dino, this`log
      ensures View() == Finish(old(View()), i, end)
    {
      ino := ino[i := ino[i].(size := end)];
      dino := dino[i := ino[i]];
      log := log + {IBlock(View(), i)};
    }
  }

  const ROOTINO := 1
  const T_DIR := 1
  const T_FILE := 2
  const DIRENT := 16
  const FSSIZE := 2000
  const NINODES := 200
  const LOGSIZE := 30

  /** The boot block, the superblock, the log, the inode blocks and the bitmap. */
  function Meta(fssize: int, ninodes: int, nlog: int): int {
    2 + nlog + (ninodes / IPB + 1) + (fssize / BPB + 1)
  }

  // What the image holds

  /** Every inode is free and empty. */
  ghost predicate Untouched(fs: Fs) {
    (forall j, p :: FileByte(fs, j, p) == 0) && forall j | 0 <= j < |fs.ino| :: fs.ino[j] == EmptyInode(0)
  }

  /** The bytes of inode j: dir is the root directory, held the files, whose inodes follow the root's. */
  function FileOf(dir: seq<Byte>, held: seq<seq<Byte>>, j: int): seq<Byte> {
    if j == ROOTINO then dir else if 0 <= j - 2 < |held| then held[j - 2] else []
  }

  function KindOf(held: seq<seq<Byte>>, j: int): int {
    if j == ROOTINO then T_DIR else if 0 <= j - 2 < |held| then T_FILE else 0
  }

  /** Byte p of inode j; past the end of a file every byte is 0. */
  ghost predicate ByteIs(fs: Fs, dir: seq<Byte>, held: seq<seq<Byte>>, j: int, p: int) {
    var c := FileOf(dir, held, j); FileByte(fs, j, p) == if 0 <= p < |c| then c[p] else 0
  }

  ghost predicate InodeIs(ino: seq<Inode>, dir: seq<Byte>, held: seq<seq<Byte>>, j: int) {
    0 <= j < |ino| ==> ino[j].size == |FileOf(dir, held, j)| && ino[j].kind == KindOf(held, j)
  }

  /** The image holds the root directory, the files, and nothing else. */
  ghost predicate Catalogue(fs: Fs, dir: seq<Byte>, held: seq<seq<Byte>>) {
    (forall j, p :: ByteIs(fs, dir, held, j, p)) && (forall j :: InodeIs(fs.ino, dir, held, j))
  }

  lemma RootMade(f: Fs)
    requires Inv(f) && Synced(f) && Untouched(f) && ROOTINO < |f.ino|
    ensures Catalogue(WithInode(f, ROOTINO, T_DIR), [], [])
  {
    WithInodeKeepsInv(f, ROOTINO, T_DIR);
    var n := WithInode(f, ROOTINO, T_DIR);
    forall j, p ensures ByteIs(n, [], [], j, p) {
      assert FileByte(n, j, p) == FileByte(f, j, p);
    }
  }

  lemma FileMade(f: Fs, dir: seq<Byte>, held: seq<seq<Byte>>)
    requires Inv(f) && Synced(f) && Catalogue(f, dir, held) && 2 + |held| < |f.ino|
    ensures Catalogue(WithInode(f, 2 + |held|, T_FILE), dir, held + [[]])
  {
    var i, held' := 2 + |held|, held + [[]];
    assert InodeIs(f.ino, dir, held, i);
    WithInodeKeepsInv(f, i, T_FILE);
    var n := WithInode(f, i, T_FILE);
    forall j, p ensures ByteIs(n, dir, held', j, p) {
      assert ByteIs(f, dir, held, j, p) && FileOf(dir, held', j) == FileOf(dir, held, j);
    }
    forall j ensures InodeIs(n.ino, dir, held', j) {
      assert InodeIs(f.ino, dir, held, j);
    }
  }

  /** An append to inode i, where dir' and held' have the bytes appended to it and the rest as before. */
  lemma FileGrows(f: Fs, n: Fs, i: int, src: seq<Byte>, dir: seq<Byte>, held: seq<seq<Byte>>,
                  dir': seq<Byte>, held': seq<seq<Byte>>)
    requires Catalogue(f, dir, held) && Appended(f, n, i, src) && |held'| == |held|
    requires forall j :: FileOf(dir', held', j) == FileOf(dir, held, j) + if j == i then src else []
    ensures Catalogue(n, dir', held')
  {
    assert InodeIs(f.ino, dir, held, i);
    forall j, p ensures ByteIs(n, dir', held', j, p) {
      assert ByteIs(f, dir, held, j, p) && ByteWritten(f, n, i, f.ino[i].size, src, |src|, j, p);
      ByteGrows(f, n, i, src, FileOf(dir, held, j), FileOf(dir', held', j), j, p);
    }
    forall j ensures InodeIs(n.ino, dir', held', j) {
      assert InodeIs(f.ino, dir, held, j);
      assert FileOf(dir', held', j) == FileOf(dir, held, j) + if j == i then src else [];
    }
  }

  lemma ByteGrows(f: Fs, n: Fs, i: int, src: seq<Byte>, c: seq<Byte>, c': seq<Byte>, j: int, p: int)
    requires 0 <= i < |f.ino| && ByteWritten(f, n, i, f.ino[i].size, src, |src|, j, p)
    requires j == i ==> f.ino[i].size == |c|
    requires c' == c + if j == i then src else []
    requires FileByte(f, j, p) == if 0 <= p < |c| then c[p] else 0
    ensures FileByte(n, j, p) == if 0 <= p < |c'| then c'[p] else 0
  {
  }

  // How much room the files take

  function Flat(chunks: seq<seq<Byte>>): seq<Byte> {
    if chunks == [] then [] else Flat(chunks[..|chunks| - 1]) + chunks[|chunks| - 1]
  }

  lemma {:induction false} FlatGrows(chunks: seq<seq<Byte>>, c: int)
    requires 0 <= c <= |chunks|
    ensures |Flat(chunks[..c])| <= |Flat(chunks)|
    decreases |chunks|
  {
    if c < |chunks| {
      FlatGrows(chunks[..|chunks| - 1], c);
      assert chunks[..|chunks| - 1][..c] == chunks[..c];
    } else {
      assert chunks[..c] == chunks;
    }
  }

  lemma FlatNext(chunks: seq<seq<Byte>>, c: int)
    requires 0 <= c < |chunks|
    ensures Flat(chunks[..c + 1]) == Flat(chunks[..c]) + chunks[c]
  {
    assert chunks[..c + 1][..c] == chunks[..c];
  }

  function Flats(files: seq<seq<seq<Byte>>>): (r: seq<seq<Byte>>)
    ensures |r| == |files| && forall d | 0 <= d < |files| :: r[d] == Flat(files[d])
  {
    seq(|files|, d requires 0 <= d < |files| => Flat(files[d]))
  }

  function FileBlocks(held: seq<seq<Byte>>): int {
    if held == [] then 0 else FileBlocks(held[..|held| - 1]) + Blocks(|held[|held| - 1]|)
  }

  /** The blocks in use in an image whose data blocks begin at start. */
  function Used(start: int, held: seq<seq<Byte>>): int {
    start + Blocks(DIRENT * (2 + |held|)) + FileBlocks(held)
  }

  /** Every file and the directory are short enough, and there are blocks for all of them. */
  ghost predicate Room(size: int, start: int, held: seq<seq<Byte>>) {
    && DIRENT * (2 + |held|) <= FILEMAX && (forall d | 0 <= d < |held| :: |held[d]| <= FILEMAX)
    && Used(start, held) <= size
  }

  /** There is room, and one bitmap block covers the blocks in use. */
  ghost predicate Buildable(size: int, start: int, held: seq<seq<Byte>>) {
    Room(size, start, held) && Used(start, held) < BPB
  }

  /** One file more: it has room exactly if it fits in what the others left. */
  lemma RoomNext(size: int, start: int, held: seq<seq<Byte>>, file: seq<Byte>)
    ensures Used(start, held + [file]) == Used(start, held) + Growth(DIRENT * (2 + |held|), DIRENT) + Blocks(|file|)
    ensures Room(size, start, held + [file])
            <==> Room(size, start, held) && Affords(size, Used(start, held), DIRENT * (2 + |held|), |file|)
  {
    var all := held + [file];
    assert all[..|held|] == held;
    BlocksGrow(DIRENT * (2 + |held|), DIRENT * (2 + |all|));
    BlocksGrow(0, |file|);
    if Room(size, start, all) {
      forall d | 0 <= d < |held| ensures |held[d]| <= FILEMAX {
        assert all[d] == held[d];
      }
      assert all[|held|] == file;
    }
  }

  lemma {:induction false} RoomShrinks(size: int, start: int, held: seq<seq<Byte>>, k: int)
    requires 0 <= k <= |held| && Room(size, start, held)
    ensures Room(size, start, held[..k])
    decreases |held|
  {
    if k < |held| {
      var n := |held| - 1;
      assert held == held[..n] + [held[n]];
      RoomNext(size, start, held[..n], held[n]);
      RoomShrinks(size, start, held[..n], k);
      assert held[..n][..k] == held[..k];
    } else {
      assert held[..k] == held;
    }
  }

  /** From `base` blocks in use, a directory of dlen bytes takes one entry more, and a file of flen bytes fits. */
  ghost predicate Affords(size: int, base: int, dlen: int, flen: int) {
    dlen + DIRENT <= FILEMAX && flen <= FILEMAX && base + Growth(dlen, DIRENT) + Blocks(flen) <= size
  }

  // main

  /** The image under construction: what it holds so far, with the inodes handed out in order. */
  ghost predicate Built(img: Image, dir: seq<Byte>, held: seq<seq<Byte>>)
    reads img
  {
    img.Valid() && Catalogue(img.View(), dir, held) && img.freeinode == 2 + |held|
  }

  /** One more entry of the root directory. */
  method AddEntry(img: Image, entry: seq<Byte>, ghost dir: seq<Byte>, ghost held: seq<seq<Byte>>) returns (ok: bool)
    requires Built(img, dir, held)
    modifies img
    ensures ok <==> |dir| + |entry| <= FILEMAX && old(img.freeblock) + Growth(|dir|, |entry|) <= img.size
    ensures ok ==> Built(img, dir + entry, held) && |img.ino| == |old(img.ino)|
    ensures ok ==> img.freeblock == old(img.freeblock) + Growth(|dir|, |entry|)
  {
    ghost var f := img.View();
    assert InodeIs(f.ino, dir, held, ROOTINO);
    ok := img.Iappend(ROOTINO, entry);
    if ok {
      FileGrows(f, img.View(), ROOTINO, entry, dir, held, dir + entry, held);
    }
  }

  /** One more chunk of the last file. */
  method AddChunk(img: Image, inum: int, chunk: seq<Byte>, ghost dir: seq<Byte>, ghost held: seq<seq<Byte>>,
                  ghost file: seq<Byte>)
    returns (ok: bool)
    requires Built(img, dir, held + [file]) && inum == 2 + |held|
    modifies img
    ensures ok <==> |file| + |chunk| <= FILEMAX && old(img.freeblock) + Growth(|file|, |chunk|) <= img.size
    ensures ok ==> Built(img, dir, held + [file + chunk]) && |img.ino| == |old(img.ino)|
    ensures ok ==> img.freeblock == old(img.freeblock) + Growth(|file|, |chunk|)
  {
    ghost var f := img.View();
    assert InodeIs(f.ino, dir, held + [file], inum);
    ok := img.Iappend(inum, chunk);
    if ok {
      FileGrows(f, img.View(), inum, chunk, dir, held + [file], dir, held + [file + chunk]);
    }
  }

  /** A new inode for the next file. */
  method AddInode(img: Image, ghost dir: seq<Byte>, ghost held: seq<seq<Byte>>) returns (inum: int)
    requires Built(img, dir, held) && img.freeinode < |img.ino|
    modifies img
    ensures Built(img, dir, held + [[]]) && inum == 2 + |held|
    ensures |img.ino| == |old(img.ino)| && img.freeblock == old(img.freeblock)
  {
    FileMade(img.View(), dir, held);
    inum := img.Ialloc(T_FILE);
  }

  /** The contents of the last file, chunk by chunk. */
  method AddContents(img: Image, inum: int, chunks: seq<seq<Byte>>, ghost dir: seq<Byte>, ghost held: seq<seq<Byte>>)
    returns (ok: bool)
    requires Built(img, dir, held + [[]]) && inum == 2 + |held|
    modifies img
    ensures ok <==> |Flat(chunks)| <= FILEMAX && old(img.freeblock) + Blocks(|Flat(chunks)|) <= img.size
    ensures ok ==> Built(img, dir, held + [Flat(chunks)]) && |img.ino| == |old(img.ino)|
    ensures ok ==> img.freeblock == old(img.freeblock) + Blocks(|Flat(chunks)|)
  {
    var c := 0;
    ok := true;
    while c < |chunks|
      invariant ok && 0 <= c <= |chunks|
      invariant Built(img, dir, held + [Flat(chunks[..c])]) && |img.ino| == |old(img.ino)|
      invariant img.freeblock == old(img.freeblock) + Blocks(|Flat(chunks[..c])|) <= img.size
      invariant |Flat(chunks[..c])| <= FILEMAX
    {
      ghost var file := Flat(chunks[..c]);
      FlatNext(chunks, c);
      FlatGrows(chunks, c + 1);
      GrowthAdds(|file|, |chunks[c]|, |Flat(chunks)|);
      ok := AddChunk(img, inum, chunks[c], dir, held, file);
      if !ok {
        return;
      }
      c := c + 1;
    }
    assert chunks[..c] == chunks;
  }

  /** One file of the host: a new inode, its entry in the root directory, and its contents. */
  method AddFile(img: Image, entry: seq<Byte>, chunks: seq<seq<Byte>>, ghost dir: seq<Byte>, ghost held: seq<seq<Byte>>)
    returns (ok: bool)
    requires Built(img, dir, held) && |entry| == DIRENT && img.freeinode < |img.ino|
    modifies img
    ensures ok <==> Affords(img.size, old(img.freeblock), |dir|, |Flat(chunks)|)
    ensures ok ==> Built(img, dir + entry, held + [Flat(chunks)]) && |img.ino| == |old(img.ino)|
    ensures ok ==> img.freeblock == old(img.freeblock) + Growth(|dir|, DIRENT) + Blocks(|Flat(chunks)|)
  {
    var inum := AddInode(img, dir, held);
    ok := AddEntry(img, entry, dir, held + [[]]);
    BlocksGrow(0, |Flat(chunks)|);
    if ok {
      ok := AddContents(img, inum, chunks, dir + entry, held);
    }
  }

  /** The root inode and its first two entries. */
  method MakeRoot(img: Image, dots: seq<seq<Byte>>) returns (ok: bool)
    requires img.Valid() && Untouched(img.View()) && img.freeinode == ROOTINO < |img.ino|
    requires |dots| == 2 && |dots[0]| == |dots[1]| == DIRENT
    modifies img
    ensures ok <==> old(img.freeblock) + Blocks(2 * DIRENT) <= img.size
    ensures ok ==> Built(img, dots[0] + dots[1], []) && |img.ino| == |old(img.ino)|
    ensures ok ==> img.freeblock == old(img.freeblock) + Blocks(2 * DIRENT)
  {
    RootMade(img.View());
    var root := img.Ialloc(T_DIR);
    ok := AddEntry(img, dots[0], [], []);
    if ok {
      assert [] + dots[0] == dots[0];
      ok := AddEntry(img, dots[1], dots[0], []);
    }
  }

  /** The last two steps; rounding the root's size up moves no byte. */
  method FinishImage(img: Image, ghost dir: seq<Byte>, ghost held: seq<seq<Byte>>) returns (ok: bool, bit: seq<bool>)
    requires Built(img, dir, held)
    modifies img
    ensures ok <==> old(img.freeblock) < BPB
    ensures ok ==> bit == img.View().bit && Synced(img.View()) && Finished(img.View(), dir, held)
    ensures Inv(img.View()) <==> |dir| % BSIZE != 0
  {
    ghost var f := img.View();
    assert InodeIs(f.ino, dir, held, ROOTINO);
    img.FixRoot(ROOTINO);
    RootFixedHolds(f, dir, held);
    ok, bit := img.WriteBitmap();
  }

  /** What a finished image holds: the directory, zeros up to its rounded size, and the files. */
  ghost predicate Finished(fs: Fs, dir: seq<Byte>, held: seq<seq<Byte>>) {
    && (forall j, p :: ByteIs(fs, dir, held, j, p))
    && (forall j :: j != ROOTINO ==> InodeIs(fs.ino, dir, held, j))
    && 2 + |held| <= |fs.ino| && fs.ino[ROOTINO].kind == T_DIR && fs.ino[ROOTINO].size == RoundUp(|dir|)
  }

  lemma RootFixedHolds(f: Fs, dir: seq<Byte>, held: seq<seq<Byte>>)
    requires Catalogue(f, dir, held) && 2 + |held| <= |f.ino| == |f.dino|
    ensures Finished(RootFixed(f, ROOTINO), dir, held)
  {
    var n := RootFixed(f, ROOTINO);
    assert InodeIs(f.ino, dir, held, ROOTINO);
    forall j, p ensures ByteIs(n, dir, held, j, p) {
      assert ByteIs(f, dir, held, j, p);
      assert Inum(n, j) <==> Inum(f, j);
    }
    forall j ensures j != ROOTINO ==> InodeIs(n.ino, dir, held, j) {
      assert InodeIs(f.ino, dir, held, j);
    }
  }

  /** The first k files are in the image, all of which are in `all`. */
  ghost predicate Upto(img: Image, dots: seq<Byte>, entries: seq<seq<Byte>>, all: seq<seq<Byte>>, start: int, k: int)
    reads img
  {
    && 0 <= k <= |all| == |entries| && Built(img, dots + Flat(entries[..k]), all[..k])
    && img.freeblock == Used(start, all[..k])
  }

  lemma UptoNext(dots: seq<Byte>, entries: seq<seq<Byte>>, all: seq<seq<Byte>>, size: int, start: int, k: int)
    requires |dots| == 2 * DIRENT && 0 <= k < |entries| == |all|
    requires forall d | 0 <= d < |entries| :: |entries[d]| == DIRENT
    ensures var dir := dots + Flat(entries[..k]);
            && |dir| == DIRENT * (2 + k) && dots + Flat(entries[..k + 1]) == dir + entries[k]
            && all[..k + 1] == all[..k] + [all[k]]
            && Used(start, all[..k + 1]) == Used(start, all[..k]) + Growth(|dir|, DIRENT) + Blocks(|all[k]|)
            && (Room(size, start, all[..k]) ==>
                  (Room(size, start, all[..k + 1]) <==> Affords(size, Used(start, all[..k]), |dir|, |all[k]|)))
  {
    DirLength(dots, entries[..k]);
    FlatNext(entries, k);
    assert all[..k + 1] == all[..k] + [all[k]];
    RoomNext(size, start, all[..k], all[k]);
  }

  method AddNext(img: Image, entry: seq<Byte>, chunks: seq<seq<Byte>>,
                 ghost dots: seq<Byte>, ghost entries: seq<seq<Byte>>, ghost all: seq<seq<Byte>>,
                 ghost start: int, ghost k: int)
    returns (ok: bool)
    requires Upto(img, dots, entries, all, start, k) && |dots| == 2 * DIRENT && k < |all| && 2 + k < |img.ino|
    requires forall d | 0 <= d < |entries| :: |entries[d]| == DIRENT
    requires entry == entries[k] && Flat(chunks) == all[k] && Room(img.size, start, all[..k])
    modifies img
    ensures ok <==> Room(img.size, start, all[..k + 1])
    ensures ok ==> Upto(img, dots, entries, all, start, k + 1) && |img.ino| == |old(img.ino)|
  {
    UptoNext(dots, entries, all, img.size, start, k);
    ok := AddFile(img, entry, chunks, dots + Flat(entries[..k]), all[..k]);
  }

  /** The files of the host, one after another. */
  method AddFiles(img: Image, entries: seq<seq<Byte>>, files: seq<seq<seq<Byte>>>, ghost dots: seq<Byte>,
                  ghost start: int)
    returns (ok: bool)
    requires Built(img, dots, []) && |dots| == 2 * DIRENT && 2 + |files| <= |img.ino|
    requires |entries| == |files| && forall d | 0 <= d < |entries| :: |entries[d]| == DIRENT
    requires img.freeblock == Used(start, []) <= img.size
    modifies img
    ensures ok <==> Room(img.size, start, Flats(files))
    ensures ok ==> Built(img, dots + Flat(entries), Flats(files)) && img.freeblock == Used(start, Flats(files))
  {
    var k := 0;
    ok := true;
    ghost var all := Flats(files);
    assert entries[..0] == [] && all[..0] == [] && dots + Flat([]) == dots;
    while k < |files|
      invariant ok && 0 <= k <= |files| && 2 + |files| <= |img.ino|
      invariant Upto(img, dots, entries, all, start, k) && Room(img.size, start, all[..k])
    {
      ok := AddNext(img, entries[k], files[k], dots, entries, all, start, k);
      k := k + 1;
      if !ok {
        NoRoom(img.size, start, all, k);
        return;
      }
    }
    assert entries[..k] == entries && all[..k] == all;
  }

  lemma NoRoom(size: int, start: int, all: seq<seq<Byte>>, k: int)
    requires 0 <= k <= |all| && !Room(size, start, all[..k])
    ensures !Room(size, start, all)
  {
    if Room(size, start, all) {
      RoomShrinks(size, start, all, k);
    }
  }

  /**
    * The whole of mkfs. It succeeds exactly if every file and the directory are short enough, there are
    * blocks for all of them, and one bitmap block covers those in use. The image then holds exactly the
    * directory and the files. It satisfies the file system's invariant exactly if the directory's
    * entries, two more than there are files, do not fill whole blocks.
    */
  method MakeImage(fssize: int, ninodes: int, nlog: int, dots: seq<seq<Byte>>, entries: seq<seq<Byte>>,
                   files: seq<seq<seq<Byte>>>)
    returns (img: Image, ok: bool, bit: seq<bool>)
    requires 0 <= nlog && fssize < UINT && 2 + |files| <= ninodes
    requires Meta(fssize, ninodes, nlog) <= fssize
    requires |dots| == 2 && |dots[0]| == |dots[1]| == DIRENT
    requires |entries| == |files| && forall d | 0 <= d < |entries| :: |entries[d]| == DIRENT
    ensures ok <==> Buildable(fssize, Meta(fssize, ninodes, nlog), Flats(files))
    ensures ok ==> bit == img.View().bit && Synced(img.View())
    ensures ok ==> Finished(img.View(), dots[0] + dots[1] + Flat(entries), Flats(files))
    ensures ok ==> (Inv(img.View()) <==> (2 + |files|) % (BSIZE / DIRENT) != 0)
  {
    img := new Image(fssize, ninodes, nlog);
    ok, bit := FillImage(img, dots, entries, files);
  }

  /** main, after the image of zeros. */
  method FillImage(img: Image, dots: seq<seq<Byte>>, entries: seq<seq<Byte>>, files: seq<seq<seq<Byte>>>)
    returns (ok: bool, bit: seq<bool>)
    requires img.Valid() && Untouched(img.View()) && img.freeinode == ROOTINO
    requires img.freeblock == img.start && 2 + |files| <= |img.ino|
    requires |dots| == 2 && |dots[0]| == |dots[1]| == DIRENT
    requires |entries| == |files| && forall d | 0 <= d < |entries| :: |entries[d]| == DIRENT
    modifies img
    ensures ok <==> Buildable(img.size, img.start, Flats(files))
    ensures ok ==> bit == img.View().bit && Synced(img.View())
    ensures ok ==> Finished(img.View(), dots[0] + dots[1] + Flat(entries), Flats(files))
    ensures ok ==> (Inv(img.View()) <==> (2 + |files|) % (BSIZE / DIRENT) != 0)
  {
    bit := [];
    ghost var first, all := dots[0] + dots[1], Flats(files);
    ok := MakeRoot(img, dots);
    RootRoom(img.size, img.start, all);
    if ok {
      ok := AddFiles(img, entries, files, first, img.start);
      if ok {
        DirLength(first, entries);
        FillsBlocks(2 + |entries|);
        ok, bit := FinishImage(img, first + Flat(entries), all);
      }
    }
  }

  lemma RootRoom(size: int, start: int, all: seq<seq<Byte>>)
    ensures Used(start, []) == start + Blocks(2 * DIRENT)
    ensures Room(size, start, all) ==> Used(start, []) <= size
  {
    if Room(size, start, all) {
      RoomShrinks(size, start, all, 0);
      assert all[..0] == [];
    }
  }

  lemma FillsBlocks(k: int)
    ensures DIRENT * k % BSIZE != 0 <==> k % (BSIZE / DIRENT) != 0
  {
  }

  lemma {:induction false} DirLength(dots: seq<Byte>, entries: seq<seq<Byte>>)
    requires |dots| == 2 * DIRENT && forall d | 0 <= d < |entries| :: |entries[d]| == DIRENT
    ensures |dots + Flat(entries)| == DIRENT * (2 + |entries|)
    decreases |entries|
  {
    if entries != [] {
      DirLength(dots, entries[..|entries| - 1]);
    }
  }

  /** mkfs with 62 files of at most one block, in an image of FSSIZE blocks: it succeeds, and breaks the invariant. */
  method SixtyTwoFiles(dots: seq<seq<Byte>>, entries: seq<seq<Byte>>, files: seq<seq<seq<Byte>>>)
    returns (img: Image, ok: bool, bit: seq<bool>)
    requires |dots| == 2 && |dots[0]| == |dots[1]| == DIRENT
    requires |entries| == |files| == 62 && forall d | 0 <= d < |entries| :: |entries[d]| == DIRENT
    requires forall d | 0 <= d < |files| :: |Flat(files[d])| <= BSIZE
    ensures ok && !Inv(img.View())
  {
    SixtyTwoFit(Flats(files));
    assert (2 + |files|) % (BSIZE / DIRENT) == 0;
    img, ok, bit := MakeImage(FSSIZE, NINODES, LOGSIZE, dots, entries, files);
  }

  lemma SixtyTwoFit(held: seq<seq<Byte>>)
    requires |held| == 62 && forall d | 0 <= d < |held| :: |held[d]| <= BSIZE
    ensures var start := Meta(FSSIZE, NINODES, LOGSIZE); start <= FSSIZE && Buildable(FSSIZE, start, held)
  {
    SmallFiles(held);
  }

  lemma {:induction false} SmallFiles(held: seq<seq<Byte>>)
    requires forall d | 0 <= d < |held| :: |held[d]| <= BSIZE
    ensures 0 <= FileBlocks(held) <= |held|
    decreases |held|
  {
    if held != [] {
      SmallFiles(held[..|held| - 1]);
      BlocksGrow(|held[|held| - 1]|, BSIZE);
    }
  }

  /** An append under way; no block lies past what it has written. */
  ghost predicate Building(w: Writing) {
    Underway(w) && Tight(w.n, w.i, w.off + w.tot)
  }

  /** An append that began when the next free block was `base`; now it is `free`. */
  datatype Append = Append(w: Writing, base: int, free: int)

  ghost predicate Going(a: Append) {
    Building(a.w) && a.free == a.base + Growth(a.w.off, a.w.tot)
  }

  /** The same append, with tot bytes done. */
  ghost predicate Follows(a: Append, a': Append, tot: int) {
    a'.base == a.base && Resumes(a.w, a'.w, tot)
  }

  lemma FollowsOn(a: Append, b: Append, c: Append, tot: int, tot': int)
    requires Follows(a, b, tot) && Follows(b, c, tot')
    ensures Follows(a, c, tot')
  {
  }

  /** What the next round copies, and what it needs. */
  lemma PartNeeds(a: Append, fbn: int, o: int, n1: int) returns (need: int)
    requires Going(a) && a.w.tot < |a.w.src| && fbn == (a.w.off + a.w.tot) / BSIZE && o == (a.w.off + a.w.tot) % BSIZE
    requires n1 == Min(|a.w.src| - a.w.tot, (fbn + 1) * BSIZE - (a.w.off + a.w.tot))
    ensures Fits(a.w, n1, o) && need == Need(a.w.n, a.w.i, fbn)
    ensures a.free + need == a.base + Growth(a.w.off, a.w.tot + n1)
  {
    RoundFits(a.w, n1, o);
    NeedIsGrowth(a.w.n, a.w.i, a.w.off + a.w.tot, n1);
    need := Need(a.w.n, a.w.i, fbn);
  }

  lemma PartDone(a: Append, a': Append, n1: int, need: int)
    requires a.free + need == a.base + Growth(a.w.off, a.w.tot + n1) && a'.free == a.free + need && a'.base == a.base
    requires Building(a'.w) && Resumes(a.w, a'.w, a.w.tot + n1)
    ensures Going(a') && Follows(a, a', a.w.tot + n1)
  {
  }

  /** A round of iappend is a round of writei, and leaves no block past the new end. */
  lemma AppendRound(w: Writing, bn: int, n: Fs, x: int, more: set<int>, m: int, o: int, chunk: seq<Byte>, free: int)
    returns (w': Writing)
    requires Building(w) && w.tot < |w.src| && BmapEffect(w.n, w.i, bn, n, x, more) && bn == (w.off + w.tot) / BSIZE
    requires Fits(w, m, o) && chunk == w.src[w.tot..w.tot + m] && x != 0
    requires n.size >= 0 && n.bit == UsedBits(n.size, free)
    ensures Building(w') && Resumes(w, w', w.tot + m)
    ensures 0 <= x < |n.blk| && |n.blk[x]| == BSIZE && 0 <= x < free && w'.n == Poke(n, x, o, chunk)
  {
    w' := WriteRound(w, bn, n, x, more, m, o, chunk);
    TightRound(w.n, w.i, bn, n, x, more, w.off + w.tot, w.off + w.tot + m, o, chunk);
    BelowFree(n, w.i, bn, x, free);
  }

  lemma TightRound(f: Fs, i: int, bn: int, n: Fs, x: int, more: set<int>, end: int, end': int, o: int, chunk: seq<Byte>)
    requires BmapEffect(f, i, bn, n, x, more) && x != 0 && Tight(f, i, end)
    requires bn * BSIZE < end' && end <= end' && 0 <= o && o + |chunk| <= BSIZE
    ensures 0 <= x < |n.blk| && |n.blk[x]| == BSIZE && Tight(Poke(n, x, o, chunk), i, end')
  {
    BmapKeepsTight(f, i, bn, n, x, more, end, end');
    PokeKeepsTight(n, i, bn, o, x, chunk, end');
  }

  lemma BelowFree(n: Fs, i: int, bn: int, x: int, free: int)
    requires Inv(n) && x == At(n, DataSlot(i, bn)) != 0 && n.size >= 0 && n.bit == UsedBits(n.size, free)
    ensures 0 <= x < free
  {
    assert SlotOk(n, DataSlot(i, bn)) && BlockOk(n, x);
  }

  /** After an append every inode is still tight. */
  lemma AppendTight(w: Writing, m: Fs)
    requires Underway(w) && (forall i :: TightInode(w.f, i)) && w.tot == |w.src| && w.off == w.f.ino[w.i].size
    requires |w.n.dino| == |w.n.ino| == |w.f.ino| && m == Finish(w.n, w.i, w.off + w.tot)
    requires Tight(w.n, w.i, w.off + |w.src|)
    ensures forall i :: TightInode(m, i)
    ensures m.ino[w.i].size == w.off + |w.src| && w.n.ino[w.i].size == w.off
  {
    var n, end := w.n, w.off + |w.src|;
    forall t ensures At(m, t) == At(n, t) {
      assert Inum(m, t.i) <==> Inum(n, t.i);
    }
    forall i ensures TightInode(m, i) {
      assert TightInode(w.f, i);
      forall bn | 0 <= i < |m.ino| ensures EndsAt(m, i, m.ino[i].size, bn) {
        assert EndsAt(n, w.i, end, bn);
        assert 0 <= i < |w.f.ino| ==> EndsAt(w.f, i, w.f.ino[i].size, bn);
        assert SlotKept(w.f, n, w.i, DataSlot(i, bn));
      }
      assert SlotKept(w.f, n, w.i, Ptr(i));
    }
  }

  /** n is f with src appended to file i: what the kernel's writei at the end of the file would have built. */
  ghost predicate Appended(f: Fs, n: Fs, i: int, src: seq<Byte>) {
    && 0 <= i < |f.ino| && Spliced(f, n, i, f.ino[i].size, src, |src|, |src|)
    && Written(f, n, i, f.ino[i].size, src, |src|) && n.ino[i].size == f.ino[i].size + |src|
  }

  lemma AppendDone(w: Writing, free: int, end: int) returns (m: Fs)
    requires Building(w) && Sound(w.f, free) && w.i < free
    requires w.tot == |w.src| && w.off == w.f.ino[w.i].size && end == w.off + w.tot
    ensures |w.n.dino| == |w.n.ino| == |w.f.ino| && m == Finish(w.n, w.i, end)
    ensures w.n.ino[w.i].size == w.off && Appended(w.f, m, w.i, w.src) && Sound(m, free)
  {
    UnderwayHalts(w);
    m := WriteDone(w, w.tot, end);
    AppendTight(w, m);
    AppendWritten(w, m);
  }

  lemma AppendWritten(w: Writing, m: Fs)
    requires Underway(w) && w.tot == |w.src| && |w.n.dino| == |w.n.ino| && m == Finish(w.n, w.i, w.off + w.tot)
    ensures Written(w.f, m, w.i, w.off, w.src, |w.src|)
  {
    forall j, p ensures ByteWritten(w.f, m, w.i, w.off, w.src, |w.src|, j, p) {
      assert ByteWritten(w.f, w.n, w.i, w.off, w.src, w.tot, j, p);
      assert Inum(m, j) <==> Inum(w.n, j);
    }
  }
}
