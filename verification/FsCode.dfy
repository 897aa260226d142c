/**
 The file system's own code: balloc, bfree, bmap, itrunc, readi, writei (kernel/fs.c), filewrite and fileread
 (kernel/file.c).
 */
module FsCode {
  import opened FsBlocks
  import opened FsTruncate
  import opened FsFiles

  /** An open file on an inode. */
  class File {
    const inum: int
    var off: int

    constructor (inum: int)
      ensures this.inum == inum && off == 0
    {
      this.inum := inum;
      off := 0;
    }
  }

  lemma JoinSlices<T>(c: seq<T>, x: int, y: int, z: int)
    requires 0 <= x <= y <= z <= |c|
    ensures c[x..y] + c[y..z] == c[x..z]
  {
  }

  class FileSystem {
    const size: int
    const start: int
    const inodestart: int
    const bmapstart: int
    var bit: seq<bool>
    var blk: seq<Block>
    var ino: seq<Inode>
    var dino: seq<Inode>
    ghost var own: map<int, Slot>
    ghost var log: set<int>
    ghost var ops: seq<set<int>>

    ghost function View(): Fs
      reads this
    {
      Fs(size, start, inodestart, bmapstart, bit, blk, ino, dino, own, log)
    }

    /** Mounting what is on disk. */
    constructor (size: int, start: int, inodestart: int, bmapstart: int, bit: seq<bool>, blk: seq<Block>,
                 dino: seq<Inode>, ghost own: map<int, Slot>)
      ensures View() == Fs(size, start, inodestart, bmapstart, bit, blk, dino, dino, own, {}) && ops == []
    {
      this.size, this.start, this.inodestart, this.bmapstart := size, start, inodestart, bmapstart;
      this.bit, this.blk, this.ino, this.dino, this.own := bit, blk, dino, dino, own;
      log, ops := {}, [];
    }

    /** balloc: scan the bitmap, one bitmap block at a time, for the first clear bit. */
    method Balloc() returns (r: int)
      requires Inv(View())
      modifies this`bit, this`blk, this`log
      ensures FirstFree(old(bit), 0) == |old(bit)| ==> r == 0 && View() == old(View())
      ensures FirstFree(old(bit), 0) < |old(bit)| ==>
        r == FirstFree(old(bit), 0) && r != 0 && |old(blk)| == |old(bit)| && View() == Allocate(old(View()), r)
    {
      ghost var m := View();
      assert BlockOk(m, 0);
      var b := 0;
      while b < size
        invariant 0 <= b && View() == m
        invariant forall c | 0 <= c < b && c < size :: bit[c]
      {
        var bi := 0;
        while bi < BPB && b + bi < size
          invariant 0 <= bi <= BPB && (b + bi <= size) && View() == m
          invariant forall c | 0 <= c < b + bi :: bit[c]
        {
          if !bit[b + bi] {
            FirstFreeIs(bit, 0, b + bi);
            bit := bit[b + bi := true];
            log := log + {BBlock(m, b + bi)};
            blk := blk[b + bi := Zeroed()];
            log := log + {b + bi};
            assert log == m.log + {BBlock(m, b + bi), b + bi};
            return b + bi;
          }
          bi := bi + 1;
        }
        b := b + BPB;
      }
      FirstFreeIs(bit, 0, |bit|);
      r := 0;
    }

    /** bfree; true stands for the panic on a block that is already free. */
    method Bfree(b: int) returns (panic: bool)
      requires 0 <= b < |bit|
      modifies this`bit, this`own, this`log
      ensures panic <==> !old(bit)[b]
      ensures panic ==> View() == old(View())
      ensures !panic ==> View() == FreeBlock(old(View()), b)
    {
      if !bit[b] {
        return true;
      }
      bit := bit[b := false];
      own := own - {b};
      log := log + {BBlock(View(), b)};
      panic := false;
    }

    /** The address in addrs[k] of an inode, allocating if there is none. */
    method ObtainAddr(i: int, k: int, ghost s: Slot) returns (addr: int)
      requires Inv(View()) && ValidSlot(View(), s) && s.i == i && 0 <= k <= NDIRECT
      requires s == if k < NDIRECT then Direct(i, k) else Ptr(i)
      modifies this
      ensures ops == old(ops) && (View(), addr) == Obtain(old(View()), s)
    {
      addr := ino[i].addrs[k];
      if addr == 0 {
        addr := Balloc();
        if addr == 0 {
          return;
        }
        ino := ino[i := ino[i].(addrs := ino[i].addrs[k := addr])];
        own := own[addr := s];
      }
    }

    /** The address in entry k of an inode's indirect block, allocating if there is none. */
    method ObtainEntry(i: int, k: int) returns (addr: int)
      requires Inv(View()) && ValidSlot(View(), Entry(i, k))
      modifies this
      ensures ops == old(ops) && (View(), addr) == Obtain(old(View()), Entry(i, k))
    {
      ghost var m := View();
      var bp := ino[i].addrs[NDIRECT];
      addr := Word(blk[bp], k);
      if addr == 0 {
        assert SlotOk(m, Ptr(i)) && At(m, Ptr(i)) == bp;
        assert BlockOk(m, bp);
        var a := blk[bp];
        addr := Balloc();
        if addr != 0 {
          FreeIsData(m, addr);
          blk := blk[bp := SetWord(a, k, addr)];
          log := log + {bp};
          own := own[addr := Entry(i, k)];
        }
      }
    }

    method BmapTo(i: int, bn: int) returns (addr: int)
      requires BmapReady(View(), i, bn)
      modifies this
      ensures ops == old(ops) && (View(), addr) == Bmap(old(View()), i, bn)
    {
      PtrThenEntry(View(), i, bn);
      if bn < NDIRECT {
        addr := ObtainAddr(i, bn, Direct(i, bn));
        return;
      }
      var bn' := bn - NDIRECT;
      ghost var m := View();
      addr := ObtainAddr(i, NDIRECT, Ptr(i));
      ObtainResult(m, Ptr(i));
      if addr == 0 {
        return;
      }
      addr := ObtainEntry(i, bn');
    }

    /** bmap: the address of block bn of inode i, allocating on the way; 0 when the disk is full. */
    method BmapAddr(i: int, bn: int, ghost f: Fs) returns (addr: int, ghost n: Fs, ghost bitmap: set<int>)
      requires f == View() && BmapReady(f, i, bn)
      modifies this
      ensures ops == old(ops) && View() == n && BmapEffect(f, i, bn, n, addr, bitmap)
    {
      ghost var b;
      n, b, bitmap := BmapHasEffect(f, i, bn);
      addr := BmapTo(i, bn);
    }

    method Iupdate(i: int)
      requires 0 <= i < |ino| && |dino| == |ino|
      modifies this`dino, this`log
      ensures View() == Update(old(View()), i)
    {
      dino := dino[i := ino[i]];
      log := log + {IBlock(View(), i)};
    }

    /** The first loop of itrunc. */
    method TruncDirect(i: int) returns (panic: bool)
      requires Inv(View()) && 0 <= i < |ino|
      modifies this
      ensures ops == old(ops) && !panic && View() == ClearDirects(old(View()), i, NDIRECT)
    {
      ghost var m := View();
      var k := 0;
      while k < NDIRECT
        invariant 0 <= k <= NDIRECT && ops == old(ops)
        invariant View() == ClearDirects(m, i, k)
      {
        ClearDirectKeepsOwned(View(), i, k);
        if ino[i].addrs[k] != 0 {
          panic := Bfree(ino[i].addrs[k]);
          if panic {
            return;
          }
          ino := ino[i := ino[i].(addrs := ino[i].addrs[k := 0])];
        }
        k := k + 1;
      }
      panic := false;
    }

    /** The second loop of itrunc, over the entries of the indirect block. */
    method TruncEntries(i: int, p: int) returns (panic: bool)
      requires Owned(View()) && Inum(View(), i) && p == ino[i].addrs[NDIRECT] && 0 < p < |blk|
      modifies this`bit, this`own, this`log
      ensures !panic && View() == FreeEntries(old(View()), i, NINDIRECT)
    {
      ghost var m := View();
      var j := 0;
      while j < NINDIRECT
        invariant 0 <= j <= NINDIRECT
        invariant View() == FreeEntries(m, i, j)
      {
        EntryStillAllocated(m, i, j);
        FreeEntriesResult(m, i, j);
        var a := Word(blk[p], j);
        assert a == At(m, Entry(i, j));
        if a != 0 {
          panic := Bfree(a);
          if panic {
            return;
          }
        }
        j := j + 1;
      }
      panic := false;
    }

    method TruncIndirect(i: int) returns (panic: bool)
      requires Owned(View()) && 0 <= i < |ino|
      modifies this
      ensures ops == old(ops) && !panic && View() == DropIndirect(old(View()), i)
    {
      ghost var m := View();
      assert InodeOk(m, i) && SlotOk(m, Ptr(i));
      var p := ino[i].addrs[NDIRECT];
      assert p == At(m, Ptr(i)) && BlockOk(m, p);
      panic := false;
      if p != 0 {
        FreeEntriesResult(m, i, NINDIRECT);
        panic := TruncEntries(i, p);
        assert EntriesFreed(m, View(), i, NINDIRECT, p);
        panic := Bfree(p);
        ino := ino[i := ino[i].(addrs := ino[i].addrs[NDIRECT := 0])];
      }
    }

    /** itrunc; the panic in bfree is never reached. */
    method Itrunc(i: int) returns (panic: bool)
      requires Inv(View()) && 0 <= i < |ino|
      modifies this
      ensures ops == old(ops) && !panic && View() == Truncate(old(View()), i)
    {
      panic := TruncDirect(i);
      DropIndirectKeepsOwned(View(), i);
      panic := TruncIndirect(i);
      ino := ino[i := ino[i].(size := 0)];
      Iupdate(i);
    }

    /**
      * readi, into a buffer that takes `room` bytes before a copy to it fails: it returns a slice of the
      * file, or fails having copied a shorter one. Though it goes through bmap, it changes nothing.
      */
    method Readi(i: int, off: int, n: int, room: int) returns (dst: seq<Byte>, ok: bool)
      requires Inv(View()) && 0 <= i < |ino| && ino[i].kind != 0 && 0 <= off < UINT && 0 <= n < UINT && 0 <= room
      modifies this
      ensures View() == old(View()) && ops == old(ops) && InodeOk(View(), i)
      ensures ok <==> ReadLength(ino[i].size, off, n) <= room
      ensures ok ==> |dst| == ReadLength(ino[i].size, off, n)
      ensures |dst| <= room && |dst| <= ReadLength(ino[i].size, off, n)
      ensures dst == [] || Slice(Contents(View(), i), off, dst)
    {
      ghost var m := View();
      assert InodeOk(m, i);
      if off > ino[i].size || (off + n) % UINT < off {
        return [], true;
      }
      var len := if off + n > ino[i].size then ino[i].size - off else n;
      dst, ok := ReadLoop(i, off, len, room, Contents(m, i));
    }

    /** The loop of readi. */
    method ReadLoop(i: int, off: int, len: int, room: int, ghost c: seq<Byte>) returns (dst: seq<Byte>, ok: bool)
      requires Inv(View()) && 0 <= i < |ino| && ino[i].kind != 0 && 0 <= off && 0 <= len && off + len <= ino[i].size
      requires c == Contents(View(), i) && 0 <= room
      modifies this
      ensures View() == old(View()) && ops == old(ops) && |dst| <= len && |dst| <= room && dst == c[off..off + |dst|]
      ensures (ok <==> len <= room) && (ok ==> |dst| == len)
    {
      ghost var m := View();
      var tot := 0;
      dst := [];
      while tot < len
        invariant 0 <= tot <= len && tot <= room && View() == m && ops == old(ops)
        invariant |dst| == tot && dst == c[off..off + tot]
      {
        var part := ReadPart(i, off + tot, len - tot, c);
        if tot + |part| > room {
          return dst, false;
        }
        JoinSlices(c, off, off + tot, off + tot + |part|);
        dst, tot := dst + part, tot + |part|;
      }
      ok := true;
    }

    /** One round of readi: the rest of the block that pos lies in, or as much as is wanted. */
    method ReadPart(i: int, pos: int, want: int, ghost c: seq<Byte>) returns (part: seq<Byte>)
      requires Inv(View()) && 0 <= i < |ino| && ino[i].kind != 0 && 0 <= pos && 0 < want && pos + want <= ino[i].size
      requires c == Contents(View(), i)
      modifies this
      ensures View() == old(View()) && ops == old(ops)
      ensures 0 < |part| <= want && part == c[pos..pos + |part|]
    {
      ghost var m := View();
      assert InodeOk(m, i) && Covered(m, i, pos / BSIZE);
      var addr;
      ghost var n, bitmap;
      addr, n, bitmap := BmapAddr(i, pos / BSIZE, m);
      var o := pos % BSIZE;
      var k := Min(want, BSIZE - o);
      BlockSlice(m, i, pos, k, addr, o, c);
      part := blk[addr][o..o + k];
    }

    /** One round of writei, if `avail` bytes of src can be read: 0 when no block could be had or the copy failed. */
    method WritePart(i: int, off: int, src: seq<Byte>, avail: int, tot: int, ghost w: Writing)
      returns (m: int, ghost w': Writing, ghost spill: int)
      requires w.n == View() && (i, off, src, tot) == (w.i, w.off, w.src, w.tot)
      requires Underway(w) && tot < |src| && tot <= avail
      modifies this
      ensures w'.n == View() && ops == old(ops) && 0 <= m <= |src| - tot && tot + m <= avail
      ensures m > 0 ==> Underway(w') && Resumes(w, w', tot + m)
      ensures m == 0 ==> Resumes(w, w', tot) && Halted(w', spill)
      ensures m == 0 ==> Ends(off, |src|, avail, w.f.ino[i].size, tot, spill, Full(w'.n))
    {
      RoundStarts(w);
      var bn, o := (off + tot) / BSIZE, (off + tot) % BSIZE;
      m := Min(|src| - tot, BSIZE - o);
      RoundFits(w, m, o);
      var addr;
      ghost var n, more;
      addr, n, more := BmapAddr(i, bn, w.n);
      spill := tot;
      if addr == 0 {
        w' := FullRound(w, bn, n, more, m, o);
        m := 0;
      } else if tot + m > avail {
        w', spill := TearPart(i, bn, addr, o, src[tot..avail], m, w, n, more);
        m := 0;
      } else {
        w' := CopyPart(i, bn, addr, o, src[tot..tot + m], tot + m, w, n, more);
      }
    }

    /** A copy that succeeds, and its log_write. */
    method CopyPart(i: int, bn: int, addr: int, o: int, chunk: seq<Byte>, ghost end: int,
                    ghost w: Writing, ghost n: Fs, ghost more: set<int>)
      returns (ghost w': Writing)
      requires n == View() && i == w.i && Underway(w) && w.tot < |w.src| && bn == (w.off + w.tot) / BSIZE
      requires Fits(w, |chunk|, o) && w.tot + |chunk| == end && chunk == w.src[w.tot..end]
      requires BmapEffect(w.n, i, bn, n, addr, more) && addr != 0
      modifies this`blk, this`log
      ensures w'.n == View() && Underway(w') && Resumes(w, w', end)
    {
      w' := WriteRound(w, bn, n, addr, more, |chunk|, o, chunk);
      CopyIn(addr, o, chunk);
    }

    /** A copy that fails after `part` has reached the buffer; the buffer is released without a log_write. */
    method TearPart(i: int, bn: int, addr: int, o: int, part: seq<Byte>, m: int,
                    ghost w: Writing, ghost n: Fs, ghost more: set<int>)
      returns (ghost w': Writing, ghost spill: int)
      requires n == View() && i == w.i && Underway(w) && w.tot < |w.src| && Fits(w, m, o) && |part| < m
      requires bn == (w.off + w.tot) / BSIZE
      requires part == w.src[w.tot..w.tot + |part|] && BmapEffect(w.n, i, bn, n, addr, more) && addr != 0
      modifies this`blk
      ensures w'.n == View() && spill == w.tot + |part| && Halted(w', spill)
      ensures Resumes(w, w', w.tot) && FailsAt(w.off, |w.src|, spill, w.tot, spill)
    {
      PokeKeepsInv(n, i, bn, o, part);
      blk := blk[addr := Patch(blk[addr], o, part)];
      spill := w.tot + |part|;
      TornWhere(w, m, o, spill);
      w' := TornRound(w, bn, n, addr, more, o, part, spill, View());
    }

    /** The copy into a block's buffer and its log_write. */
    method CopyIn(addr: int, o: int, chunk: seq<Byte>)
      requires 0 <= addr < |blk| && 0 <= o && o + |chunk| <= |blk[addr]|
      modifies this`blk, this`log
      ensures View() == Poke(old(View()), addr, o, chunk)
    {
      blk := blk[addr := Patch(blk[addr], o, chunk)];
      log := log + {addr};
    }

    /** The loop of writei. */
    method WriteLoop(i: int, off: int, src: seq<Byte>, avail: int)
      returns (tot: int, ghost w: Writing, ghost spill: int)
      requires Inv(View()) && 0 <= i < |ino| && ino[i].kind != 0
      requires 0 <= off <= ino[i].size && off + |src| <= FILEMAX && 0 <= avail
      modifies this
      ensures w.n == View() && ops == old(ops) && 0 <= tot <= spill <= |src|
      ensures Halted(w, spill) && (w.f, w.i, w.off, w.src, w.tot) == (old(View()), i, off, src, tot)
      ensures Ends(off, |src|, avail, old(ino)[i].size, tot, spill, Full(w.n))
    {
      tot, spill := 0, 0;
      w := WriteStarts(View(), i, off, src);
      while tot < |src|
        invariant w.n == View() && ops == old(ops) && 0 <= tot <= |src| && tot <= avail
        invariant Underway(w) && (w.f, w.i, w.off, w.src, w.tot) == (old(View()), i, off, src, tot)
      {
        var m;
        m, w, spill := WritePart(i, off, src, avail, tot, w);
        if m == 0 {
          return;
        }
        tot := tot + m;
      }
      spill := tot;
      UnderwayHalts(w);
    }

    /**
      * writei, if `avail` bytes of src can be read: rejected, or a splice of the file. It stops short
      * only when the disk is full or a copy fails, and a copy that fails leaves the bytes before the
      * fault in the buffer, past those counted.
      * The log gains at most two blocks for every block written to, plus three, less one if the
      * write starts inside a block; and at most one for each of them, plus the bitmap blocks, plus two.
      */
    method Writei(i: int, off: int, src: seq<Byte>, avail: int) returns (tot: int, ghost spill: int)
      requires Inv(View()) && Synced(View()) && 0 <= i < |ino| && ino[i].kind != 0
      requires 0 <= off < UINT && |src| < UINT && 0 <= avail
      modifies this
      ensures ops == old(ops)
      ensures tot < 0 <==> off > old(ino)[i].size || off + |src| > FILEMAX
      ensures tot < 0 ==> tot == -1 && View() == old(View())
      ensures tot >= 0 ==> Spliced(old(View()), View(), i, off, src, tot, spill)
      ensures tot >= 0 ==> Ends(off, |src|, avail, old(ino)[i].size, tot, spill, Full(View()))
    {
      ghost var f := View();
      assert InodeOk(f, i);
      spill := 0;
      if off > ino[i].size || (off + |src|) % UINT < off {
        return -1, 0;
      }
      if off + |src| > FILEMAX {
        return -1, 0;
      }
      ghost var w;
      tot, w, spill := WriteLoop(i, off, src, avail);
      EndWrite(i, off + tot, w, spill);
    }

    /** The end of writei: the new size, and iupdate. */
    method EndWrite(i: int, end: int, ghost w: Writing, ghost spill: int)
      requires Halted(w, spill) && Inv(w.f) && Synced(w.f) && w.off <= w.f.ino[w.i].size
      requires w.n == View() && w.i == i && end == w.off + w.tot
      modifies this`ino, this`dino, this`log
      ensures Spliced(w.f, View(), i, w.off, w.src, w.tot, spill) && (Full(View()) <==> Full(w.n))
    {
      ghost var m := WriteDone(w, spill, end);
      SetSize(i, end);
    }

    method SetSize(i: int, end: int)
      requires 0 <= i < |ino| && |dino| == |ino|
      modifies this`ino, this`dino, this`log
      ensures View() == Finish(old(View()), i, end)
    {
      if end > ino[i].size {
        ino := ino[i := ino[i].(size := end)];
      }
      Iupdate(i);
    }

    /** One begin_op .. end_op of filewrite: at most OpLimit(size) blocks go to the log. */
    method WriteOp(f: File, src: seq<Byte>, avail: int, ghost m: Fs)
      returns (r: int, ghost n: Fs, ghost done: int, ghost spill: int)
      requires m == View() && Ready(m, f.inum) && 0 <= f.off < UINT && |src| <= CHUNK && 0 <= avail
      modifies this, f`off
      ensures -1 <= r <= |src| && done == (if r > 0 then r else 0) && f.off == old(f.off) + done < UINT
      ensures n == View() && Wrote(m, n, f.inum, old(f.off), src, done, spill)
      ensures r < 0 <==> !Accepted(old(f.off), |src|, m.ino[f.inum].size)
      ensures r < 0 ==> spill == 0
      ensures r >= 0 ==> Ends(old(f.off), |src|, avail, m.ino[f.inum].size, r, spill, Full(n))
      ensures ops == old(ops) + [n.log] && |n.log| <= OpLimit(size)
      ensures LogsMeta(m.(log := {}), n) && (spill == done ==> LogsData(m.(log := {}), n))
    {
      log := {};
      ghost var g := View();
      ForgetLog(m, f.inum, g);
      r, spill := Writei(f.inum, f.off, src, avail);
      ChunkFits(f.off, |src|);
      done := if r > 0 then r else 0;
      if r > 0 {
        f.off := f.off + r;
      }
      if r >= 0 {
        WroteOp(m, g, View(), f.inum, old(f.off), src, r, spill);
      } else {
        spill := 0;
        WroteNothing(m, f.inum, f.off, src);
        NothingLogged(g);
      }
      ops, n := ops + [log], View();
    }

    /** One round of filewrite's loop, from byte i of src. */
    method WriteChunk(f: File, src: seq<Byte>, avail: int, i: int, ghost j: Job)
      returns (n1: int, r: int, ghost j': Job)
      requires Steady(j, avail) && j.n == View() && (j.i, j.src, j.done) == (f.inum, src, i) && i < |src|
      requires 0 <= f.off == j.off + i < UINT
      modifies this, f`off
      ensures j' == j.(n := View(), done := j'.done, spill := j'.spill) && f.off == j.off + j'.done < UINT
      ensures OnCourse(j') && 0 < n1 <= |src| - i && i <= j'.done <= i + n1 && (r == n1 <==> j'.done == i + n1)
      ensures if r == n1 then Steady(j', avail) else JobEnds(j', avail)
      ensures exists logged :: ops == old(ops) + [logged] && |logged| <= OpLimit(size)
    {
      var max := (MAXOPBLOCKS - 1 - 1 - 2) / 2 * BSIZE;
      n1 := if |src| - i > max then max else |src| - i;
      var chunk := src[i..i + n1];
      ghost var n, more, spill;
      r, n, more, spill := WriteOp(f, chunk, avail - i, j.n);
      j' := JobStep(j, n, old(f.off), chunk, avail, r, more, spill);
    }

    /**
      * filewrite on an inode, if `avail` bytes of src can be read: the bytes go in at the file offset, in
      * operations each of which fits its reservation in the log; it reports success exactly if all of
      * them went in, and FileEnds says when that is and how far it gets otherwise.
      */
    method Filewrite(f: File, src: seq<Byte>, avail: int) returns (ret: int, ghost done: int, ghost spill: int)
      requires Ready(View(), f.inum) && 0 <= f.off < UINT && 0 <= avail
      modifies this, f`off
      ensures 0 <= done <= |src| && f.off == old(f.off) + done && ret == if done == |src| then |src| else -1
      ensures Wrote(old(View()), View(), f.inum, old(f.off), src, done, spill)
      ensures FileEnds(old(f.off), |src|, avail, old(ino)[f.inum].size, done, spill, Full(View()))
      ensures |old(ops)| <= |ops| && forall k | |old(ops)| <= k < |ops| :: |ops[k]| <= OpLimit(size)
    {
      var i := 0;
      ghost var j := Job(View(), View(), f.inum, f.off, src, 0, 0);
      WroteNothing(View(), f.inum, f.off, src);
      while i < |src|
        invariant Steady(j, avail) && j == Job(old(View()), View(), f.inum, old(f.off), src, i, i)
        invariant 0 <= i <= |src| && f.off == old(f.off) + i < UINT
        invariant |old(ops)| <= |ops| && forall k | |old(ops)| <= k < |ops| :: |ops[k]| <= OpLimit(size)
      {
        var n1, r;
        n1, r, j := WriteChunk(f, src, avail, i, j);
        if r != n1 {
          return -1, j.done, j.spill;
        }
        i := i + r;
      }
      SteadyEnds(j, avail);
      return |src|, i, i;
    }

    /**
      * fileread on an inode, outside any transaction: the next bytes of the file, and no change to the
      * disk. If a copy fails the offset stays where it was.
      */
    method Fileread(f: File, n: int, room: int) returns (dst: seq<Byte>, ok: bool)
      requires Ready(View(), f.inum) && 0 <= f.off < UINT && 0 <= n < UINT && 0 <= room
      modifies this, f`off
      ensures View() == old(View()) && ops == old(ops) && f.off == if ok then old(f.off) + |dst| else old(f.off)
      ensures ok <==> ReadLength(ino[f.inum].size, old(f.off), n) <= room
      ensures ok ==> |dst| == ReadLength(ino[f.inum].size, old(f.off), n)
      ensures dst == [] || Slice(Contents(View(), f.inum), old(f.off), dst)
    {
      dst, ok := Readi(f.inum, f.off, n, room);
      if ok && |dst| > 0 {
        f.off := f.off + |dst|;
      }
    }
  }

  /** d is the part of c that begins at off. */
  predicate Slice(c: seq<Byte>, off: int, d: seq<Byte>) {
    0 <= off && off + |d| <= |c| && d == c[off..off + |d|]
  }

  /** How many bytes a read asks for: none past the end of the file, or if the end of the range wraps around. */
  function ReadLength(size: int, off: int, n: int): int {
    if off > size || off + n >= UINT then 0 else if off + n > size then size - off else n
  }
}
