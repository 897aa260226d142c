/**
  * Files as byte arrays (readi and writei of kernel/fs.c, filewrite and fileread of kernel/file.c):
  * what one round of the copying loops does to every file, and which blocks it hands to the log.
  */
module FsFiles {
  import opened FsBlocks
  import opened FsTruncate

  const MAXOPBLOCKS := 10
  const FILEMAX := MAXFILE * BSIZE

  /** The bytes of file i. */
  ghost function Contents(fs: Fs, i: int): (r: seq<Byte>)
    requires 0 <= i < |fs.ino| && fs.ino[i].size >= 0
    ensures |r| == fs.ino[i].size
  {
    seq(fs.ino[i].size, p requires 0 <= p => FileByte(fs, i, p))
  }

  /** c with s written over it at off; it grows if s reaches past the end. */
  function Splice<T>(c: seq<T>, off: nat, s: seq<T>): seq<T>
    requires off <= |c|
  {
    c[..off] + s + if off + |s| < |c| then c[off + |s|..] else []
  }

  /** s written at off, but the result grows only to the end of its first tot elements. */
  function Torn<T>(c: seq<T>, off: nat, s: seq<T>, tot: nat): seq<T>
    requires off <= |c| && tot <= |s|
  {
    Splice(c, off, s)[..if off + tot > |c| then off + tot else |c|]
  }

  /**
    * A write that counts tot elements but has put down `spill` of them is the write of tot elements,
    * whatever they are, exactly if nothing was spilled or it all lies past the end.
    */
  lemma TornCondition<T>(c: seq<T>, off: nat, tot: nat, spill: nat, x: T, y: T)
    requires off <= |c| && tot <= spill && x != y
    ensures (forall s | |s| == spill :: Torn(c, off, s, tot) == Splice(c, off, s[..tot]))
            <==> spill == tot || off + tot >= |c|
  {
    if spill == tot || off + tot >= |c| {
      forall s: seq<T> | |s| == spill ensures Torn(c, off, s, tot) == Splice(c, off, s[..tot]) {
        TornIsSplice(c, off, s, tot);
      }
    } else {
      var z := if c[off + tot] == x then y else x;
      var s := seq(spill, i => z);
      assert Torn(c, off, s, tot)[off + tot] == z;
      assert Splice(c, off, s[..tot])[off + tot] == c[off + tot];
    }
  }

  // How writei and filewrite end, from what the caller knows

  /** Bytes up to tot end a block, or are none. */
  predicate WholeBlocks(off: int, tot: int) {
    tot == 0 || (off + tot) % BSIZE == 0
  }

  /** The round from tot fails: its last byte is not readable, and what comes before the fault is in the buffer. */
  predicate FailsAt(off: int, len: int, avail: int, tot: int, spill: int) {
    tot <= spill == avail < tot + Min(len - tot, BSIZE - (off + tot) % BSIZE) && WholeBlocks(off, tot)
  }

  /** The round from tot is the first to need a block past the end of a file of `size` bytes, and there is none. */
  predicate NoBlockAt(off: int, tot: int, size: int) {
    WholeBlocks(off, tot) && (off + tot) / BSIZE * BSIZE >= size
  }

  /** How writei ends: with everything written, on a full disk, or in a round that fails. */
  ghost predicate Ends(off: int, len: int, avail: int, size: int, tot: int, spill: int, full: bool) {
    || tot == spill == len <= avail
    || (tot == spill < len && tot <= avail && full && NoBlockAt(off, tot, size))
    || (tot < len && FailsAt(off, len, avail, tot, spill))
  }

  /** What writei counts if `avail` of the len bytes can be read: the rounds before the one the fault is in. */
  function Counted(off: int, len: int, avail: int): int {
    if avail >= len then len
    else if (off + avail) / BSIZE * BSIZE <= off then 0
    else (off + avail) / BSIZE * BSIZE - off
  }

  lemma FailsWhere(off: int, len: int, avail: int, tot: int, spill: int)
    requires 0 <= off && 0 <= tot < len && FailsAt(off, len, avail, tot, spill)
    ensures tot == Counted(off, len, avail) && spill == avail < len
  {
  }

  lemma FullWhere(off: int, len: int, avail: int, size: int, tot: int)
    requires 0 <= off <= size && 0 <= tot < len && tot <= avail && NoBlockAt(off, tot, size)
    ensures tot <= Counted(off, len, avail) && off + Counted(off, len, avail) >= size
  {
  }

  /**
    * What writei counts and what it leaves in the buffers follow from the offset, the length and the
    * readable bytes; on a full disk it may stop sooner, past the end of the file, with no byte left over.
    */
  lemma EndsWhere(off: int, len: int, avail: int, size: int, tot: int, spill: int, full: bool)
    requires 0 <= off <= size && 0 <= tot && 0 <= avail && Ends(off, len, avail, size, tot, spill, full)
    ensures !full || off + Counted(off, len, avail) < size ==>
              tot == Counted(off, len, avail) && spill == Min(avail, len)
    ensures tot != Counted(off, len, avail) || spill != Min(avail, len) ==>
              full && tot == spill <= Counted(off, len, avail) && off + Counted(off, len, avail) >= size
  {
    if tot == spill == len <= avail {
    } else if tot < len && FailsAt(off, len, avail, tot, spill) {
      FailsWhere(off, len, avail, tot, spill);
    } else {
      FullWhere(off, len, avail, size, tot);
    }
  }

  /** The condition under which a write of len bytes at off to a file of `size` bytes is not torn. */
  predicate Untorn(off: int, len: int, avail: int, size: int) {
    avail >= len || avail == Counted(off, len, avail) || off + Counted(off, len, avail) >= size
  }

  /**
    * However writei ends, it leaves what a write of the bytes it counts would have left, whatever the
    * bytes are, exactly if all of them can be read, or the fault is at the start of a block, or that
    * block starts at or past the end of the file.
    */
  lemma CleanCondition(c: seq<Byte>, off: int, len: int, avail: int, tot: int, spill: int, full: bool)
    requires 0 <= off <= |c| && 0 <= tot <= spill <= len && 0 <= avail && Ends(off, len, avail, |c|, tot, spill, full)
    ensures (forall src: seq<Byte> | |src| == len :: Torn(c, off, src[..spill], tot) == Splice(c, off, src[..tot]))
            <==> Untorn(off, len, avail, |c|)
  {
    EndsWhere(off, len, avail, |c|, tot, spill, full);
    TornCondition(c, off, tot, spill, 0, 1);
    EnoughToSpill(c, off, len, tot, spill);
  }

  lemma EnoughToSpill(c: seq<Byte>, off: int, len: int, tot: int, spill: int)
    requires 0 <= off <= |c| && 0 <= tot <= spill <= len
    ensures (forall src: seq<Byte> | |src| == len :: Torn(c, off, src[..spill], tot) == Splice(c, off, src[..tot]))
            <==> (forall s: seq<Byte> | |s| == spill :: Torn(c, off, s, tot) == Splice(c, off, s[..tot]))
  {
    if forall src: seq<Byte> | |src| == len :: Torn(c, off, src[..spill], tot) == Splice(c, off, src[..tot]) {
      forall s: seq<Byte> | |s| == spill ensures Torn(c, off, s, tot) == Splice(c, off, s[..tot]) {
        var src := s + seq(len - spill, i => 0 as Byte);
        assert src[..spill] == s && src[..tot] == s[..tot];
      }
    }
    if forall s: seq<Byte> | |s| == spill :: Torn(c, off, s, tot) == Splice(c, off, s[..tot]) {
      forall src: seq<Byte> | |src| == len ensures Torn(c, off, src[..spill], tot) == Splice(c, off, src[..tot]) {
        assert src[..spill][..tot] == src[..tot];
      }
    }
  }

  /** The bytes one operation of filewrite takes on: (MAXOPBLOCKS - 1 - 1 - 2) / 2 blocks. */
  const CHUNK := 3072

  /** What filewrite counts: the operations before the one the fault is in, and what that one counts. */
  function FileCounted(off: int, len: int, avail: int): int {
    if avail >= len then len
    else
      var k := avail / CHUNK * CHUNK;
      k + Counted(off + k, Min(len - k, CHUNK), avail - k)
  }

  /** Neither check at the start of a writei turns any part of the write down. */
  predicate Accepted(off: int, len: int, size: int) {
    off <= size && off + len <= FILEMAX
  }

  /**
    * How filewrite ends: everything is written exactly if it is accepted, can be read and the disk does
    * not fill up; what is counted and what is left in the buffers follow from offset, length and
    * readable bytes unless the disk fills up, and then no byte is left over.
    */
  ghost predicate FileEnds(off: int, len: int, avail: int, size: int, done: int, spill: int, full: bool) {
    FileEndsAt(off, len, avail, size, done, spill, full, FileCounted(off, len, avail))
  }

  ghost predicate FileEndsAt(off: int, len: int, avail: int, size: int, done: int, spill: int, full: bool,
                             counted: int) {
    && (done == len ==> len == 0 || (Accepted(off, len, size) && avail >= len))
    && (done < len ==> !Accepted(off, len, size) || avail < len || full)
    && (off > size ==> done == spill == 0)
    && (Accepted(off, len, size) ==>
          || (done == counted && spill == Min(avail, len))
          || (full && done == spill <= counted && off + done >= size))
  }

  /** The fault is in the operation that starts at i. */
  lemma FaultyOperation(off: int, len: int, avail: int, i: int, n1: int)
    requires 0 <= i < len && i <= avail && i % CHUNK == 0 && n1 == Min(len - i, CHUNK) && avail - i < n1
    ensures FileCounted(off, len, avail) == i + Counted(off + i, n1, avail - i)
  {
    assert avail / CHUNK * CHUNK == i;
  }

  lemma SoundOperation(off: int, len: int, avail: int, i: int, n1: int)
    requires 0 <= off && 0 <= i < len && i % CHUNK == 0 && n1 == Min(len - i, CHUNK) && avail - i >= n1
    ensures FileCounted(off, len, avail) >= i + n1
  {
    if avail < len {
      assert avail / CHUNK * CHUNK >= i + n1;
    }
  }

  /** i bytes are written, and the next operation ends as writei says. */
  lemma OperationEnds(off: int, len: int, avail: int, size: int, i: int, n1: int, size': int, r: int, spill: int,
                      full: bool)
    requires 0 <= off <= size && 0 <= i < len && i <= avail && i % CHUNK == 0 && n1 == Min(len - i, CHUNK)
    requires size <= size' && off + i <= size' && 0 <= r < n1 && Ends(off + i, n1, avail - i, size', r, spill, full)
    ensures FileEnds(off, len, avail, size, i + r, i + spill, full)
  {
    EndsWhere(off + i, n1, avail - i, size', r, spill, full);
    if avail - i < n1 {
      FaultyOperation(off, len, avail, i, n1);
    } else {
      SoundOperation(off, len, avail, i, n1);
    }
    FullPastEnd(off + i, n1, avail - i, size', r, spill, full);
    OperationStops(off, len, avail, size, i, n1, r, spill, full, Counted(off + i, n1, avail - i),
        FileCounted(off, len, avail));
  }

  lemma FullPastEnd(off: int, len: int, avail: int, size: int, tot: int, spill: int, full: bool)
    requires 0 <= off <= size && 0 <= tot < len && 0 <= avail && Ends(off, len, avail, size, tot, spill, full)
    ensures || (tot == Counted(off, len, avail) && spill == Min(avail, len))
            || (full && tot == spill <= Counted(off, len, avail) && off + tot >= size)
  {
    EndsWhere(off, len, avail, size, tot, spill, full);
    if tot < len && FailsAt(off, len, avail, tot, spill) {
      FailsWhere(off, len, avail, tot, spill);
    }
  }

  /**
    * The same of filewrite: it leaves what a write of the bytes it counts would have left, whatever they
    * are, exactly if all can be read, or the fault is where an operation or a block starts, or past the end.
    */
  lemma FileCleanCondition(c: seq<Byte>, off: int, len: int, avail: int, done: int, spill: int, full: bool)
    requires 0 <= off && 0 <= done <= spill <= len && 0 <= avail && Accepted(off, len, |c|)
    requires FileEnds(off, len, avail, |c|, done, spill, full)
    ensures (forall src: seq<Byte> | |src| == len :: Torn(c, off, src[..spill], done) == Splice(c, off, src[..done]))
            <==> avail >= len || avail == FileCounted(off, len, avail) || off + FileCounted(off, len, avail) >= |c|
  {
    TornCondition(c, off, done, spill, 0, 1);
    EnoughToSpill(c, off, len, done, spill);
  }

  lemma OperationStops(off: int, len: int, avail: int, size: int, i: int, n1: int, r: int, spill: int, full: bool,
                       counted: int, all: int)
    requires off <= size && 0 <= i && i + n1 <= len && i <= avail && 0 <= r < n1
    requires (r == counted && spill == Min(avail - i, n1)) || (full && r == spill <= counted && off + i + r >= size)
    requires if avail - i < n1 then all == i + counted else counted == n1 && all >= i + n1
    ensures FileEndsAt(off, len, avail, size, i + r, i + spill, full, all)
  {
  }

  lemma TornIsSplice<T>(c: seq<T>, off: nat, s: seq<T>, tot: nat)
    requires off <= |c| && tot <= |s| && (|s| == tot || off + tot >= |c|)
    ensures Torn(c, off, s, tot) == Splice(c, off, s[..tot])
  {
    var l, r := Torn(c, off, s, tot), Splice(c, off, s[..tot]);
    assert |l| == |r|;
    forall p | 0 <= p < |l| ensures l[p] == r[p] {
    }
  }

  lemma SpliceSplice<T>(c: seq<T>, off: nat, s: seq<T>, t: seq<T>)
    requires off <= |c|
    ensures off + |s| <= |Splice(c, off, s)|
    ensures Splice(Splice(c, off, s), off + |s|, t) == Splice(c, off, s + t)
  {
    var d := Splice(c, off, s);
    assert d[..off + |s|] == c[..off] + s;
    var l, r := Splice(d, off + |s|, t), Splice(c, off, s + t);
    assert l[..off + |s| + |t|] == r[..off + |s| + |t|];
    assert |l| == |r|;
    forall p | off + |s| + |t| <= p < |l| ensures l[p] == r[p] {
      assert l[p] == d[p] == c[p] == r[p];
    }
  }

  function Patch(d: Block, o: int, chunk: seq<Byte>): (r: Block)
    requires 0 <= o && o + |chunk| <= |d|
    ensures |r| == |d|
  {
    d[..o] + chunk + d[o + |chunk|..]
  }

  /** The copy into a buffer and its log_write. */
  function Poke(fs: Fs, b: int, o: int, chunk: seq<Byte>): Fs
    requires 0 <= b < |fs.blk| && 0 <= o && o + |chunk| <= |fs.blk[b]|
  {
    fs.(blk := fs.blk[b := Patch(fs.blk[b], o, chunk)], log := fs.log + {b})
  }

  ghost predicate SameMeta(fs: Fs, n: Fs) {
    && n.size == fs.size && n.start == fs.start && n.inodestart == fs.inodestart && n.bmapstart == fs.bmapstart
    && n.dino == fs.dino && |n.ino| == |fs.ino|
    && (forall i | 0 <= i < |fs.ino| :: n.ino[i].kind == fs.ino[i].kind && n.ino[i].size == fs.ino[i].size)
  }

  /** A data block is nobody's indirect block, so writing it moves no slot. */
  lemma PokeReads(fs: Fs, i: int, bn: int, o: int, chunk: seq<Byte>, t: Slot)
    requires BmapReady(fs, i, bn) && At(fs, DataSlot(i, bn)) != 0 && 0 <= o && o + |chunk| <= BSIZE
    ensures var b := At(fs, DataSlot(i, bn));
            0 <= b < |fs.blk| && |fs.blk[b]| == BSIZE && At(Poke(fs, b, o, chunk), t) == At(fs, t)
  {
    var s := DataSlot(i, bn);
    assert SlotOk(fs, s) && SlotOk(fs, Ptr(t.i)) && BlockOk(fs, At(fs, s));
  }

  lemma PokeKeepsInv(fs: Fs, i: int, bn: int, o: int, chunk: seq<Byte>)
    requires BmapReady(fs, i, bn) && At(fs, DataSlot(i, bn)) != 0 && 0 <= o && o + |chunk| <= BSIZE
    ensures var b := At(fs, DataSlot(i, bn)); 0 <= b < |fs.blk| && |fs.blk[b]| == BSIZE && Inv(Poke(fs, b, o, chunk))
  {
    var b := At(fs, DataSlot(i, bn));
    assert SlotOk(fs, DataSlot(i, bn)) && BlockOk(fs, b);
    var n := Poke(fs, b, o, chunk);
    forall t ensures At(n, t) == At(fs, t) {
      PokeReads(fs, i, bn, o, chunk, t);
    }
    forall j ensures InodeOk(n, j) {
      assert InodeOk(fs, j);
    }
    forall t ensures SlotOk(n, t) {
      assert SlotOk(fs, t);
    }
    forall c ensures BlockOk(n, c) {
      assert BlockOk(fs, c);
    }
    forall j, m ensures Covered(n, j, m) {
      assert Covered(fs, j, m);
    }
  }

  predicate Within(i: int, lo: int, len: int, j: int, p: int) {
    j == i && lo <= p < lo + len
  }

  /** Writing one block changes just the bytes of the one file it belongs to. */
  lemma PokeBytes(fs: Fs, i: int, bn: int, o: int, chunk: seq<Byte>, j: int, p: int)
    requires BmapReady(fs, i, bn) && At(fs, DataSlot(i, bn)) != 0 && 0 <= o && o + |chunk| <= BSIZE
    ensures var b := At(fs, DataSlot(i, bn));
            && 0 <= b < |fs.blk| && |fs.blk[b]| == BSIZE
            && FileByte(Poke(fs, b, o, chunk), j, p)
               == if Within(i, bn * BSIZE + o, |chunk|, j, p) then chunk[p - bn * BSIZE - o] else FileByte(fs, j, p)
  {
    var s, b := DataSlot(i, bn), At(fs, DataSlot(i, bn));
    assert SlotOk(fs, s) && BlockOk(fs, b);
    if p >= 0 {
      var t := DataSlot(j, p / BSIZE);
      PokeReads(fs, i, bn, o, chunk, t);
      assert SlotOk(fs, t);
      assert t == s <==> j == i && p / BSIZE == bn;
      assert p == p / BSIZE * BSIZE + p % BSIZE;
    }
  }

  // The write loop

  ghost predicate ByteWritten(f: Fs, n: Fs, i: int, off: int, src: seq<Byte>, tot: int, j: int, p: int) {
    FileByte(n, j, p) == if Within(i, off, tot, j, p) && p - off < |src| then src[p - off] else FileByte(f, j, p)
  }

  ghost predicate HasBlock(n: Fs, i: int, end: int, bn: int) {
    0 <= bn && bn * BSIZE < end ==> At(n, DataSlot(i, bn)) != 0
  }

  ghost predicate Written(f: Fs, n: Fs, i: int, off: int, src: seq<Byte>, tot: int) {
    forall j, p :: ByteWritten(f, n, i, off, src, tot, j, p)
  }

  /** Every block of file i that starts before end is allocated. */
  ghost predicate AllBlocks(n: Fs, i: int, end: int) {
    forall bn :: HasBlock(n, i, end, bn)
  }

  ghost predicate SlotKept(f: Fs, n: Fs, i: int, t: Slot) {
    t.i != i ==> At(n, t) == At(f, t)
  }

  /** tot bytes of src are in file i at off, and no other byte of any file has changed. */
  ghost predicate Progress(f: Fs, n: Fs, i: int, off: int, src: seq<Byte>, tot: int) {
    && Inv(n) && SameMeta(f, n) && OnlyInode(f, n, i)
    && Written(f, n, i, off, src, tot)
    && AllBlocks(n, i, off + tot)
    && (forall t :: SlotKept(f, n, i, t))
  }

  lemma ProgressStarts(f: Fs, i: int, off: int, src: seq<Byte>)
    requires Inv(f) && 0 <= i < |f.ino| && 0 <= off <= f.ino[i].size
    ensures Progress(f, f, i, off, src, 0)
  {
    forall bn ensures HasBlock(f, i, off, bn) {
      assert Covered(f, i, bn);
    }
  }

  lemma MeetsBmap(f: Fs, n: Fs, i: int, off: int, src: seq<Byte>, tot: int)
    requires Progress(f, n, i, off, src, tot) && tot >= 0
    requires 0 <= i < |f.ino| && f.ino[i].kind != 0 && 0 <= off + tot < FILEMAX
    ensures BmapReady(n, i, (off + tot) / BSIZE)
  {
  }

  /** A bmap in the middle of a write disturbs nothing written so far. */
  lemma BmapKeepsProgress(f: Fs, n: Fs, i: int, off: int, src: seq<Byte>, tot: int, bn: int, m: Fs, b: int,
                          bitmap: set<int>)
    requires Progress(f, n, i, off, src, tot) && BmapEffect(n, i, bn, m, b, bitmap)
    ensures Progress(f, m, i, off, src, tot)
  {
    forall j, p ensures ByteWritten(f, m, i, off, src, tot, j, p) {
      assert ByteWritten(f, n, i, off, src, tot, j, p);
    }
    var end := off + tot;
    forall c ensures HasBlock(m, i, end, c) {
      assert HasBlock(n, i, end, c);
    }
    forall t ensures SlotKept(f, m, i, t) {
      assert SlotKept(f, n, i, t) && OnlyNew(n, m, i, bn, t);
    }
  }

  ghost predicate PokeArgs(m: Fs, i: int, bn: int, o: int, b: int, len: int) {
    BmapReady(m, i, bn) && b == At(m, DataSlot(i, bn)) != 0 && 0 <= o && 0 <= len && o + len <= BSIZE
  }

  /** The copy of the next bytes extends what has been written. */
  lemma PokeExtends(f: Fs, m: Fs, i: int, off: int, src: seq<Byte>, tot: int, bn: int, o: int, b: int, chunk: seq<Byte>)
    requires Progress(f, m, i, off, src, tot) && PokeArgs(m, i, bn, o, b, |chunk|)
    requires off + tot == bn * BSIZE + o && 0 <= tot <= tot + |chunk| <= |src| && chunk == src[tot..tot + |chunk|]
    ensures 0 <= b < |m.blk| && |m.blk[b]| == BSIZE
    ensures Progress(f, Poke(m, b, o, chunk), i, off, src, tot + |chunk|)
  {
    PokeKeepsInv(m, i, bn, o, chunk);
    PokeWrites(f, m, i, off, src, tot, bn, o, b, chunk);
    var n, end := Poke(m, b, o, chunk), off + tot + |chunk|;
    forall c ensures HasBlock(n, i, end, c) {
      assert HasBlock(m, i, off + tot, c);
      PokeReads(m, i, bn, o, chunk, DataSlot(i, c));
    }
    forall t ensures SlotKept(f, n, i, t) {
      assert SlotKept(f, m, i, t);
      PokeReads(m, i, bn, o, chunk, t);
    }
  }

  lemma PokeWrites(f: Fs, m: Fs, i: int, off: int, src: seq<Byte>, tot: int, bn: int, o: int, b: int, chunk: seq<Byte>)
    requires Written(f, m, i, off, src, tot) && PokeArgs(m, i, bn, o, b, |chunk|)
    requires off + tot == bn * BSIZE + o && 0 <= tot <= tot + |chunk| <= |src| && chunk == src[tot..tot + |chunk|]
    ensures 0 <= b < |m.blk| && |m.blk[b]| == BSIZE
    ensures Written(f, Poke(m, b, o, chunk), i, off, src, tot + |chunk|)
  {
    PokeKeepsInv(m, i, bn, o, chunk);
    var n, tot' := Poke(m, b, o, chunk), tot + |chunk|;
    forall j, p ensures ByteWritten(f, n, i, off, src, tot', j, p) {
      assert ByteWritten(f, m, i, off, src, tot, j, p);
      PokeBytes(m, i, bn, o, chunk, j, p);
    }
  }

  // The log budget

  /**
    * After r rounds the log has gained only data blocks (at most r), bitmap blocks (at most one a
    * round, none in a first round that starts inside a block, and one for the indirect block), and
    * the indirect block.
    */
  ghost predicate Budget(f: Fs, n: Fs, i: int, off: int, r: int, data: set<int>, bitmap: set<int>) {
    && n.log <= f.log + data + bitmap + Singleton(At(n, Ptr(i)))
    && |data| <= r
    && |bitmap| <= r - Count(r > 0 && off % BSIZE != 0) + Count(At(n, Ptr(i)) != 0)
    && AllInBitmap(f, bitmap)
  }

  lemma BudgetAfterBmap(f: Fs, n: Fs, i: int, off: int, tot: int, r: int, data: set<int>, bitmap: set<int>,
                        bn: int, m: Fs, b: int, more: set<int>)
    requires Budget(f, n, i, off, r, data, bitmap) && r >= 0 && (r == 0 ==> tot == 0)
    requires AllBlocks(n, i, off + tot) && BmapEffect(n, i, bn, m, b, more)
    requires bn == (off + tot) / BSIZE && SameMeta(f, n)
    ensures Budget(f, m, i, off, r + Count(b != 0), data + Singleton(b), bitmap + more)
  {
    if r == 0 && off % BSIZE != 0 {
      assert HasBlock(n, i, off + tot, bn);
    }
    assert forall x | x in more :: InBitmap(n, x) && InBitmap(f, x);
    UnionCard(data, Singleton(b));
    UnionCard(bitmap, more);
    LogGrows(f.log, data, bitmap, Singleton(At(n, Ptr(i))), n.log, Singleton(b), more, Singleton(At(m, Ptr(i))), m.log);
    BudgetStep(f, n, m, i, off, r, data, bitmap, b, more, At(n, DataSlot(i, bn)) != 0, data + Singleton(b),
        bitmap + more);
  }

  lemma BudgetStep(f: Fs, n: Fs, m: Fs, i: int, off: int, r: int, data: set<int>, bitmap: set<int>,
                   b: int, more: set<int>, had: bool, data': set<int>, bitmap': set<int>)
    requires Budget(f, n, i, off, r, data, bitmap) && r >= 0
    requires m.log <= f.log + data' + bitmap' + Singleton(At(m, Ptr(i)))
    requires |data'| <= |data| + Count(b != 0) && |bitmap'| <= |bitmap| + |more| && AllInBitmap(f, bitmap')
    requires At(n, Ptr(i)) != 0 ==> At(m, Ptr(i)) == At(n, Ptr(i))
    requires |more| <= Count(!had && b != 0) + Count(At(n, Ptr(i)) == 0 && At(m, Ptr(i)) != 0)
    requires r == 0 && off % BSIZE != 0 ==> had && b != 0
    ensures Budget(f, m, i, off, r + Count(b != 0), data', bitmap')
  {
  }

  lemma LogGrows(base: set<int>, data: set<int>, bitmap: set<int>, ptr: set<int>, log: set<int>,
                 data': set<int>, bitmap': set<int>, ptr': set<int>, log': set<int>)
    requires log <= base + data + bitmap + ptr && log' <= log + bitmap' + data' + ptr' && ptr <= ptr'
    ensures log' <= base + (data + data') + (bitmap + bitmap') + ptr'
  {
  }

  lemma BudgetAfterPoke(f: Fs, m: Fs, i: int, off: int, r: int, data: set<int>, bitmap: set<int>,
                        bn: int, o: int, b: int, chunk: seq<Byte>)
    requires Budget(f, m, i, off, r, data, bitmap) && PokeArgs(m, i, bn, o, b, |chunk|) && b in data
    ensures 0 <= b < |m.blk| && |m.blk[b]| == BSIZE
    ensures Budget(f, Poke(m, b, o, chunk), i, off, r, data, bitmap)
  {
    PokeReads(m, i, bn, o, chunk, Ptr(i));
  }

  function Min(a: int, b: int): int {
    if a < b then a else b
  }

  /** The number of blocks that len bytes from off reach into. */
  function Spanned(off: int, len: int): int {
    if len == 0 then 0 else (off + len - 1) / BSIZE - off / BSIZE + 1
  }

  /** A round adds one block to the span, since it starts a block or the whole write. */
  lemma SpanGrows(off: int, tot: int, tot': int)
    requires 0 <= off && 0 <= tot <= tot' && (0 < tot < tot' ==> (off + tot) % BSIZE == 0)
    ensures 0 <= Spanned(off, tot) <= Spanned(off, tot')
    ensures tot < tot' ==> Spanned(off, tot) + 1 <= Spanned(off, tot')
  {
  }

  /** A write under way: started in f, now in n, with tot bytes written in r rounds. */
  datatype Writing = Writing(f: Fs, n: Fs, i: int, off: int, src: seq<Byte>, tot: int, r: int, data: set<int>,
      bitmap: set<int>)

  ghost predicate Underway(w: Writing) {
    && Progress(w.f, w.n, w.i, w.off, w.src, w.tot)
    && Budget(w.f, w.n, w.i, w.off, w.r, w.data, w.bitmap)
    && 0 <= w.i < |w.f.ino| && w.f.ino[w.i].kind != 0
    && InStep(w.off, |w.src|, w.tot, w.r)
    && LogsMeta(w.f, w.n) && LogsData(w.f, w.n)
  }

  /** The same write, with tot bytes done. */
  ghost predicate Resumes(w: Writing, w': Writing, tot: int) {
    (w'.f, w'.i, w'.off, w'.src, w'.tot) == (w.f, w.i, w.off, w.src, tot)
  }

  /** A write that has ended, with tot bytes counted and `spill` bytes in the buffers. */
  ghost predicate Halted(w: Writing, spill: int) {
    && Progress(w.f, w.n, w.i, w.off, w.src, spill)
    && Budget(w.f, w.n, w.i, w.off, w.r, w.data, w.bitmap)
    && 0 <= w.i < |w.f.ino| && w.f.ino[w.i].kind != 0
    && 0 <= w.off && 0 <= w.tot <= spill <= |w.src| && w.off + |w.src| <= FILEMAX
    && 0 <= w.r <= Spanned(w.off, |w.src|)
    && LogsMeta(w.f, w.n) && (spill == w.tot ==> LogsData(w.f, w.n))
  }

  lemma UnderwayHalts(w: Writing)
    requires Underway(w)
    ensures Halted(w, w.tot)
  {
    SpanGrows(w.off, w.tot, |w.src|);
  }

  /** Each round but the last fills its block, so r rounds reach no further than the blocks spanned. */
  predicate InStep(off: int, len: int, tot: int, r: int) {
    && 0 <= off && 0 <= tot <= len && off + len <= FILEMAX
    && 0 <= r <= Spanned(off, tot) && (r == 0 ==> tot == 0)
    && (0 < tot < len ==> (off + tot) % BSIZE == 0)
  }

  lemma InStepNext(off: int, len: int, tot: int, r: int)
    requires InStep(off, len, tot, r) && tot < len
    ensures var m := Min(len - tot, BSIZE - (off + tot) % BSIZE);
            0 < m && 0 < (off + tot) % BSIZE + m <= BSIZE && InStep(off, len, tot + m, r + 1)
  {
    var m := Min(len - tot, BSIZE - (off + tot) % BSIZE);
    SpanGrows(off, tot, tot + m);
  }

  lemma WriteStarts(f: Fs, i: int, off: int, src: seq<Byte>) returns (w: Writing)
    requires Inv(f) && 0 <= i < |f.ino| && f.ino[i].kind != 0 && 0 <= off <= f.ino[i].size && off + |src| <= FILEMAX
    ensures w == Writing(f, f, i, off, src, 0, 0, {}, {}) && Underway(w)
  {
    ProgressStarts(f, i, off, src);
    NothingLogged(f);
    w := Writing(f, f, i, off, src, 0, 0, {}, {});
  }

  /** The bmap of a round. */
  lemma BmapRound(w: Writing, bn: int, n: Fs, b: int, more: set<int>) returns (v: Writing)
    requires Underway(w) && w.tot < |w.src| && BmapEffect(w.n, w.i, bn, n, b, more) && bn == (w.off + w.tot) / BSIZE
    ensures v == w.(n := n, data := v.data, bitmap := v.bitmap)
    ensures Progress(v.f, v.n, v.i, v.off, v.src, v.tot) && InStep(v.off, |v.src|, v.tot, v.r)
    ensures 0 <= v.i < |v.f.ino| && v.f.ino[v.i].kind != 0 && BmapReady(v.n, v.i, bn)
    ensures b == At(v.n, DataSlot(v.i, bn)) && (b != 0 ==> b in v.data)
    ensures b == 0 ==> Budget(v.f, v.n, v.i, v.off, v.r, v.data, v.bitmap)
    ensures b != 0 ==> Budget(v.f, v.n, v.i, v.off, v.r + 1, v.data, v.bitmap)
    ensures LogsMeta(v.f, v.n) && LogsData(v.f, v.n)
  {
    BmapKeepsProgress(w.f, w.n, w.i, w.off, w.src, w.tot, bn, n, b, more);
    BudgetAfterBmap(w.f, w.n, w.i, w.off, w.tot, w.r, w.data, w.bitmap, bn, n, b, more);
    LogsMetaTrans(w.f, w.n, n);
    LogsDataTrans(w.f, w.n, n);
    v := w.(n := n, data := w.data + Singleton(b), bitmap := w.bitmap + more);
  }

  /** Where the copy of a round goes: m bytes at offset o of the block. */
  ghost predicate Fits(w: Writing, m: int, o: int) {
    && 0 < m <= |w.src| - w.tot && 0 <= o && o + m <= BSIZE
    && o == (w.off + w.tot) % BSIZE && m == Min(|w.src| - w.tot, BSIZE - o)
  }

  /** The copy of a round. */
  lemma PokeRound(v: Writing, bn: int, b: int, m: int, o: int, chunk: seq<Byte>) returns (w': Writing)
    requires Progress(v.f, v.n, v.i, v.off, v.src, v.tot) && Budget(v.f, v.n, v.i, v.off, v.r + 1, v.data, v.bitmap)
    requires 0 <= v.i < |v.f.ino| && v.f.ino[v.i].kind != 0
    requires InStep(v.off, |v.src|, v.tot, v.r) && v.tot < |v.src| && Fits(v, m, o) && chunk == v.src[v.tot..v.tot + m]
    requires bn == (v.off + v.tot) / BSIZE && BmapReady(v.n, v.i, bn)
    requires b == At(v.n, DataSlot(v.i, bn)) != 0 && b in v.data
    requires LogsMeta(v.f, v.n) && LogsData(v.f, v.n)
    ensures 0 <= b < |v.n.blk| && |v.n.blk[b]| == BSIZE
    ensures w' == v.(n := Poke(v.n, b, o, chunk), tot := v.tot + m, r := v.r + 1)
    ensures Underway(w')
  {
    InStepNext(v.off, |v.src|, v.tot, v.r);
    var n := PokeProceeds(v, bn, b, v.tot + m, o, chunk, v.r + 1);
    w' := v.(n := n, tot := v.tot + m, r := v.r + 1);
  }

  lemma PokeProceeds(v: Writing, bn: int, b: int, end: int, o: int, chunk: seq<Byte>, r: int) returns (n: Fs)
    requires Progress(v.f, v.n, v.i, v.off, v.src, v.tot) && Budget(v.f, v.n, v.i, v.off, r, v.data, v.bitmap)
    requires 0 <= v.off && 0 <= v.tot <= end <= |v.src| && chunk == v.src[v.tot..end]
    requires bn == (v.off + v.tot) / BSIZE && o == (v.off + v.tot) % BSIZE
    requires PokeArgs(v.n, v.i, bn, o, b, |chunk|) && b in v.data
    requires LogsMeta(v.f, v.n) && LogsData(v.f, v.n)
    ensures 0 <= b < |v.n.blk| && |v.n.blk[b]| == BSIZE && n == Poke(v.n, b, o, chunk)
    ensures Progress(v.f, n, v.i, v.off, v.src, end) && Budget(v.f, n, v.i, v.off, r, v.data, v.bitmap)
    ensures LogsMeta(v.f, n) && LogsData(v.f, n)
  {
    PokeExtends(v.f, v.n, v.i, v.off, v.src, v.tot, bn, o, b, chunk);
    BudgetAfterPoke(v.f, v.n, v.i, v.off, r, v.data, v.bitmap, bn, o, b, chunk);
    PokeLogged(v.f, v.n, v.i, bn, o, b, chunk);
    n := Poke(v.n, b, o, chunk);
  }

  lemma PokeLogged(f: Fs, m: Fs, i: int, bn: int, o: int, b: int, chunk: seq<Byte>)
    requires PokeArgs(m, i, bn, o, b, |chunk|) && LogsMeta(f, m) && LogsData(f, m)
    ensures 0 <= b < |m.blk| && |m.blk[b]| == BSIZE
    ensures LogsMeta(f, Poke(m, b, o, chunk)) && LogsData(f, Poke(m, b, o, chunk))
  {
    assert SlotOk(m, DataSlot(i, bn)) && BlockOk(m, b);
    var n := Poke(m, b, o, chunk);
    forall c ensures OwnLogged(m, n, c) && DataLogged(m, n, c) && BitLogged(m, n, c) && InodeLogged(m, n, c)
        && PlaceLogged(m, n, c) {
      assert BlockOk(m, c);
    }
    LogsMetaTrans(f, m, n);
    LogsDataTrans(f, m, n);
  }

  /**
    * Bytes left in a buffer by a copy that failed are in a block of a file, so no change of structure escapes the
    * log.
    */
  lemma TearLogged(f: Fs, m: Fs, i: int, bn: int, o: int, b: int, part: seq<Byte>, n: Fs)
    requires PokeArgs(m, i, bn, o, b, |part|) && LogsMeta(f, m) && 0 <= b < |m.blk| && |m.blk[b]| == BSIZE
    requires n == Poke(m, b, o, part).(log := m.log)
    ensures LogsMeta(f, n) && (part == [] && LogsData(f, m) ==> LogsData(f, n))
  {
    assert SlotOk(m, DataSlot(i, bn));
    forall c ensures OwnLogged(m, n, c) && BitLogged(m, n, c) && InodeLogged(m, n, c) && PlaceLogged(m, n, c) {
      assert BlockOk(m, c);
    }
    LogsMetaTrans(f, m, n);
    if part == [] {
      assert Patch(m.blk[b], o, part) == m.blk[b];
      assert n == m;
    }
  }

  /** A copy that fails after `part` has reached the buffer: nothing more is logged and nothing is counted. */
  lemma TearRound(v: Writing, bn: int, b: int, o: int, part: seq<Byte>, n: Fs, spill: int) returns (w': Writing)
    requires Progress(v.f, v.n, v.i, v.off, v.src, v.tot) && Budget(v.f, v.n, v.i, v.off, v.r + 1, v.data, v.bitmap)
    requires 0 <= v.i < |v.f.ino| && v.f.ino[v.i].kind != 0
    requires InStep(v.off, |v.src|, v.tot, v.r) && v.tot + |part| == spill <= |v.src| && v.tot < |v.src|
    requires bn == (v.off + v.tot) / BSIZE && o == (v.off + v.tot) % BSIZE
    requires o + |part| <= BSIZE && part == v.src[v.tot..spill]
    requires BmapReady(v.n, v.i, bn) && b == At(v.n, DataSlot(v.i, bn)) != 0
    requires 0 <= b < |v.n.blk| && |v.n.blk[b]| == BSIZE
    requires n == Poke(v.n, b, o, part).(log := v.n.log) && LogsMeta(v.f, v.n) && LogsData(v.f, v.n)
    ensures w' == v.(n := n, r := v.r + 1) && Halted(w', spill)
  {
    PokeExtends(v.f, v.n, v.i, v.off, v.src, v.tot, bn, o, b, part);
    var q := Poke(v.n, b, o, part);
    ProgressForgetsLog(v.f, q, v.n.log, v.i, v.off, v.src, spill);
    PokeReads(v.n, v.i, bn, o, part, Ptr(v.i));
    SpanGrows(v.off, v.tot, |v.src|);
    TearLogged(v.f, v.n, v.i, bn, o, b, part, n);
    w' := v.(n := n, r := v.r + 1);
  }

  /** The whole of a round whose copy fails after `part`. */
  lemma TornRound(w: Writing, bn: int, n: Fs, b: int, more: set<int>, o: int, part: seq<Byte>, spill: int, n': Fs)
    returns (w': Writing)
    requires Underway(w) && spill < |w.src| && bn == (w.off + w.tot) / BSIZE
    requires o == (w.off + w.tot) % BSIZE && o + |part| <= BSIZE
    requires BmapEffect(w.n, w.i, bn, n, b, more) && b != 0 && spill == w.tot + |part| && part == w.src[w.tot..spill]
    requires 0 <= b < |n.blk| && |n.blk[b]| == BSIZE && n' == Poke(n, b, o, part).(log := n.log)
    ensures w'.n == n' && Resumes(w, w', w.tot) && Halted(w', spill)
  {
    var v := BmapRound(w, bn, n, b, more);
    w' := TearRound(v, bn, b, o, part, n', spill);
  }

  lemma TornWhere(w: Writing, m: int, o: int, spill: int)
    requires Underway(w) && Fits(w, m, o) && w.tot <= spill < w.tot + m
    ensures FailsAt(w.off, |w.src|, spill, w.tot, spill)
  {
  }

  /** Which blocks have been logged plays no part in what the files hold. */
  lemma LogPlaysNoPart(f: Fs, log: set<int>)
    ensures var g := f.(log := log);
            && (forall t :: At(g, t) == At(f, t)) && (forall j, p :: FileByte(g, j, p) == FileByte(f, j, p))
            && (Inv(f) ==> Inv(g))
  {
    var g := f.(log := log);
    forall t ensures At(g, t) == At(f, t) {
      assert Inum(g, t.i) <==> Inum(f, t.i);
    }
    if Inv(f) {
      forall j ensures InodeOk(g, j) {
        assert InodeOk(f, j);
      }
      forall t ensures SlotOk(g, t) {
        assert SlotOk(f, t);
      }
      forall b ensures BlockOk(g, b) {
        assert BlockOk(f, b);
      }
      forall j, bn ensures Covered(g, j, bn) {
        assert Covered(f, j, bn);
      }
    }
  }

  lemma ProgressForgetsLog(f: Fs, n: Fs, log: set<int>, i: int, off: int, src: seq<Byte>, tot: int)
    requires Progress(f, n, i, off, src, tot)
    ensures Progress(f, n.(log := log), i, off, src, tot)
  {
    LogPlaysNoPart(n, log);
    var g, end := n.(log := log), off + tot;
    forall j, p ensures ByteWritten(f, g, i, off, src, tot, j, p) {
      assert ByteWritten(f, n, i, off, src, tot, j, p);
    }
    forall bn ensures HasBlock(g, i, end, bn) {
      assert HasBlock(n, i, end, bn);
    }
    forall t ensures SlotKept(f, g, i, t) {
      assert SlotKept(f, n, i, t);
    }
  }

  lemma RoundStarts(w: Writing)
    requires Underway(w) && w.tot < |w.src|
    ensures BmapReady(w.n, w.i, (w.off + w.tot) / BSIZE)
  {
    MeetsBmap(w.f, w.n, w.i, w.off, w.src, w.tot);
  }

  /**
    * One round of the write loop, after its bmap: the copy of what fits in that block. w' is where it leaves the
    * write.
    */
  lemma WriteRound(w: Writing, bn: int, n: Fs, b: int, more: set<int>, m: int, o: int, chunk: seq<Byte>)
    returns (w': Writing)
    requires Underway(w) && w.tot < |w.src| && BmapEffect(w.n, w.i, bn, n, b, more) && bn == (w.off + w.tot) / BSIZE
    requires Fits(w, m, o) && chunk == w.src[w.tot..w.tot + m]
    ensures Underway(w') && (w'.f, w'.i, w'.off, w'.src) == (w.f, w.i, w.off, w.src)
    ensures b == 0 ==> w'.n == n && w'.tot == w.tot
    ensures b != 0 ==> 0 <= b < |n.blk| && |n.blk[b]| == BSIZE && w'.n == Poke(n, b, o, chunk) && w'.tot == w.tot + m
  {
    w' := BmapRound(w, bn, n, b, more);
    if b != 0 {
      w' := PokeRound(w', bn, b, m, o, chunk);
    }
  }

  /** A round that gets no block ends the write. */
  lemma FullRound(w: Writing, bn: int, n: Fs, more: set<int>, m: int, o: int) returns (w': Writing)
    requires Underway(w) && w.tot < |w.src| && BmapEffect(w.n, w.i, bn, n, 0, more)
    requires bn == (w.off + w.tot) / BSIZE && Fits(w, m, o)
    ensures Halted(w', w.tot) && w'.n == n && Resumes(w, w', w.tot) && NoBlockAt(w.off, w.tot, w.f.ino[w.i].size)
  {
    assert Covered(n, w.i, bn);
    w' := WriteRound(w, bn, n, 0, more, m, o, w.src[w.tot..w.tot + m]);
    UnderwayHalts(w');
  }

  lemma RoundFits(w: Writing, m: int, o: int)
    requires Underway(w) && w.tot < |w.src|
    requires o == (w.off + w.tot) % BSIZE && m == Min(|w.src| - w.tot, BSIZE - o)
    ensures Fits(w, m, o)
  {
  }

  lemma UnionOfFour(base: set<int>, a: set<int>, b: set<int>, c: set<int>, d: set<int>, all: set<int>)
    requires all <= base + a + b + c + d
    ensures |all| <= |base| + |a| + |b| + |c| + |d|
  {
    UnionCard(base, a);
    UnionCard(base + a, b);
    UnionCard(base + a + b, c);
    UnionCard(base + a + b + c, d);
    SubsetCard(all, base + a + b + c + d);
  }

  /** The whole write: data, bitmap, indirect and inode blocks. */
  lemma BudgetTotal(w: Writing, spill: int, inode: int)
    requires Halted(w, spill)
    ensures |w.n.log + {inode}| <= |w.f.log| + 2 * Spanned(w.off, |w.src|) + 3 - Count(|w.src| > 0
            && w.off % BSIZE != 0)
    ensures |w.n.log + {inode}| <= |w.f.log| + Spanned(w.off, |w.src|) + (w.f.size / BPB + 1) + 2
  {
    var n := w.n;
    SpanGrows(w.off, 0, |w.src|);
    assert w.f.size >= 0;
    IntervalCard(w.bitmap, w.f.bmapstart, w.f.bmapstart + w.f.size / BPB);
    UnionOfFour(w.f.log, w.data, w.bitmap, Singleton(At(n, Ptr(w.i))), {inode}, n.log + {inode});
  }

  /** What one filewrite operation logs at most on a disk of so many blocks: 7 if there is one bitmap block. */
  function OpLimit(size: int): int {
    Min(MAXOPBLOCKS, 4 + (size / BPB + 1) + 2)
  }

  /**
    * One filewrite chunk, wherever it starts and however many bitmap blocks there are, fits one operation's
    * reservation.
    */
  lemma ChunkFits(off: int, len: int)
    requires 0 <= off && 0 <= len <= (MAXOPBLOCKS - 1 - 1 - 2) / 2 * BSIZE
    ensures 2 * Spanned(off, len) + 3 - Count(len > 0 && off % BSIZE != 0) <= MAXOPBLOCKS
    ensures Spanned(off, len) <= 4
  {
  }

  // The end of a write

  /** The size is moved up to the end of what was written, and the inode is copied to its block. */
  function Finish(fs: Fs, i: int, end: int): Fs
    requires 0 <= i < |fs.ino| == |fs.dino|
  {
    Update(if end > fs.ino[i].size then fs.(ino := fs.ino[i := fs.ino[i].(size := end)]) else fs, i)
  }

  lemma FinishKeepsInv(n: Fs, i: int, end: int)
    requires Inv(n) && 0 <= i < |n.ino| && n.ino[i].kind != 0 && 0 <= end <= FILEMAX
    requires AllBlocks(n, i, end)
    ensures Inv(Finish(n, i, end))
    ensures forall j, p :: FileByte(Finish(n, i, end), j, p) == FileByte(n, j, p)
    ensures forall t :: At(Finish(n, i, end), t) == At(n, t)
  {
    var m := Finish(n, i, end);
    forall t ensures At(m, t) == At(n, t) {
      assert Inum(m, t.i) <==> Inum(n, t.i);
    }
    forall j ensures InodeOk(m, j) {
      assert InodeOk(n, j);
    }
    forall t ensures SlotOk(m, t) {
      assert SlotOk(n, t);
    }
    forall c ensures BlockOk(m, c) {
      assert BlockOk(n, c);
    }
    forall j, bn ensures Covered(m, j, bn) {
      assert Covered(n, j, bn) && HasBlock(n, i, end, bn);
    }
  }

  /**
    * What a write of tot bytes of src at off leaves, if `spill` bytes reached the buffers: file i
    * spliced, every other file and inode as it was, the inode's copy up to date, and a bounded number
    * of blocks given to the log.
    */
  ghost predicate Spliced(f: Fs, m: Fs, i: int, off: int, src: seq<Byte>, tot: int, spill: int) {
    && Inv(m) && Synced(m) && OnlyInode(f, m, i)
    && 0 <= i < |f.ino| && f.ino[i].size >= 0 && 0 <= m.ino[i].size && m.ino[i].kind == f.ino[i].kind
    && 0 <= off <= f.ino[i].size && 0 <= tot <= spill <= |src|
    && Contents(m, i) == Torn(Contents(f, i), off, src[..spill], tot)
    && (forall j, p | j != i :: FileByte(m, j, p) == FileByte(f, j, p))
    && |m.log| <= |f.log| + 2 * Spanned(off, |src|) + 3 - Count(|src| > 0 && off % BSIZE != 0)
    && |m.log| <= |f.log| + Spanned(off, |src|) + (f.size / BPB + 1) + 2
    && LogsMeta(f, m) && (spill == tot ==> LogsData(f, m))
  }

  lemma SplicedContents(f: Fs, n: Fs, m: Fs, i: int, off: int, src: seq<Byte>, tot: int, spill: int)
    requires 0 <= i < |f.ino| == |n.ino| == |m.ino| && n.ino[i].size == f.ino[i].size
    requires 0 <= off <= f.ino[i].size && 0 <= tot <= spill <= |src|
    requires Written(f, n, i, off, src, spill) && forall j, p :: FileByte(m, j, p) == FileByte(n, j, p)
    requires m.ino[i].size == if off + tot > n.ino[i].size then off + tot else n.ino[i].size
    ensures Contents(m, i) == Torn(Contents(f, i), off, src[..spill], tot)
    ensures forall j, p | j != i :: FileByte(m, j, p) == FileByte(f, j, p)
  {
    var l, r := Contents(m, i), Torn(Contents(f, i), off, src[..spill], tot);
    assert |l| == |r|;
    forall p | 0 <= p < |l| ensures l[p] == r[p] {
      assert ByteWritten(f, n, i, off, src, spill, i, p);
    }
    forall j, p | j != i ensures FileByte(m, j, p) == FileByte(f, j, p) {
      assert ByteWritten(f, n, i, off, src, spill, j, p);
    }
  }

  lemma SplicedLogs(w: Writing, spill: int, m: Fs)
    requires Halted(w, spill) && |w.n.dino| == |w.n.ino| && m == Finish(w.n, w.i, w.off + w.tot)
    ensures |m.log| <= |w.f.log| + 2 * Spanned(w.off, |w.src|) + 3 - Count(|w.src| > 0 && w.off % BSIZE != 0)
    ensures |m.log| <= |w.f.log| + Spanned(w.off, |w.src|) + (w.f.size / BPB + 1) + 2
  {
    BudgetTotal(w, spill, IBlock(w.n, w.i));
  }

  /** The finished write is a splice of file i, and leaves every other file alone. */
  lemma WriteDone(w: Writing, spill: int, end: int) returns (m: Fs)
    requires Halted(w, spill) && Inv(w.f) && Synced(w.f) && w.off <= w.f.ino[w.i].size && end == w.off + w.tot
    ensures |w.n.dino| == |w.n.ino| == |w.f.ino| && m == Finish(w.n, w.i, end)
    ensures Spliced(w.f, m, w.i, w.off, w.src, w.tot, spill) && (Full(m) <==> Full(w.n))
  {
    m := Finishes(w.n, w.i, end, w.off + spill);
    SplicedBytes(w, spill, m);
    SplicedLogs(w, spill, m);
    FinishLogged(w.f, w.n, w.i, end);
  }

  lemma FinishLogged(f: Fs, n: Fs, i: int, end: int)
    requires Inv(n) && 0 <= i < |n.ino| && LogsMeta(f, n)
    ensures LogsMeta(f, Finish(n, i, end)) && (LogsData(f, n) ==> LogsData(f, Finish(n, i, end)))
  {
    var m := Finish(n, i, end);
    forall c ensures OwnLogged(n, m, c) && DataLogged(n, m, c) && BitLogged(n, m, c) && InodeLogged(n, m, c)
        && PlaceLogged(n, m, c) {
      assert BlockOk(n, c);
    }
    LogsMetaTrans(f, n, m);
    if LogsData(f, n) {
      LogsDataTrans(f, n, m);
    }
  }

  lemma Finishes(n: Fs, i: int, end: int, end': int) returns (m: Fs)
    requires Inv(n) && 0 <= i < |n.ino| && n.ino[i].kind != 0
    requires 0 <= end <= end' && end <= FILEMAX && AllBlocks(n, i, end')
    ensures |n.dino| == |n.ino| && m == Finish(n, i, end) && Inv(m)
    ensures forall j, p :: FileByte(m, j, p) == FileByte(n, j, p)
  {
    FewerBlocks(n, i, end, end');
    FinishKeepsInv(n, i, end);
    m := Finish(n, i, end);
  }

  lemma SplicedBytes(w: Writing, spill: int, m: Fs)
    requires Halted(w, spill) && Inv(w.f) && w.off <= w.f.ino[w.i].size
    requires |w.n.dino| == |w.n.ino| && m == Finish(w.n, w.i, w.off + w.tot) && Inv(m)
    requires forall j, p :: FileByte(m, j, p) == FileByte(w.n, j, p)
    ensures w.f.ino[w.i].size >= 0 && m.ino[w.i].size >= 0
    ensures Contents(m, w.i) == Torn(Contents(w.f, w.i), w.off, w.src[..spill], w.tot)
    ensures forall j, p | j != w.i :: FileByte(m, j, p) == FileByte(w.f, j, p)
  {
    assert InodeOk(w.f, w.i) && InodeOk(m, w.i);
    SplicedContents(w.f, w.n, m, w.i, w.off, w.src, w.tot, spill);
  }

  lemma FewerBlocks(n: Fs, i: int, end: int, end': int)
    requires AllBlocks(n, i, end') && end <= end'
    ensures AllBlocks(n, i, end)
  {
    forall bn ensures HasBlock(n, i, end, bn) {
      assert HasBlock(n, i, end', bn);
    }
  }

  /** A block of a file holds a run of its bytes. */
  lemma BlockSlice(fs: Fs, i: int, pos: int, k: int, b: int, o: int, c: seq<Byte>)
    requires Inv(fs) && 0 <= i < |fs.ino| && fs.ino[i].size >= 0 && c == Contents(fs, i)
    requires 0 <= pos && 0 <= k && pos + k <= |c| && o == pos % BSIZE && o + k <= BSIZE
    requires b == At(fs, DataSlot(i, pos / BSIZE)) != 0
    ensures 0 <= b < |fs.blk| && |fs.blk[b]| == BSIZE && fs.blk[b][o..o + k] == c[pos..pos + k]
  {
    assert SlotOk(fs, DataSlot(i, pos / BSIZE)) && BlockOk(fs, b);
    var l, r := fs.blk[b][o..o + k], c[pos..pos + k];
    forall p | 0 <= p < k ensures l[p] == r[p] {
      assert (pos + p) / BSIZE == pos / BSIZE && (pos + p) % BSIZE == o + p;
      assert r[p] == FileByte(fs, i, pos + p);
    }
  }

  /** c' is c with s written at off and tot bytes of it counted; past the end of c nothing can be written. */
  ghost predicate Overwritten(c: seq<Byte>, c': seq<Byte>, off: int, s: seq<Byte>, tot: int) {
    0 <= tot <= |s| && if 0 <= off <= |c| then c' == Torn(c, off, s, tot) else c' == c && s == []
  }

  lemma OverwrittenTrans(c: seq<Byte>, c': seq<Byte>, c'': seq<Byte>, off: int, src: seq<Byte>, x: int, y: int, z: int)
    requires 0 <= x <= y <= z <= |src|
    requires Overwritten(c, c', off, src[..x], x) && Overwritten(c', c'', off + x, src[x..z], y - x)
    ensures Overwritten(c, c'', off, src[..z], y)
  {
    assert src[..z] == src[..x] + src[x..z];
    if 0 <= off <= |c| {
      TornIsSplice(c, off, src[..x], x);
      assert src[..x][..x] == src[..x];
      SpliceSplice(c, off, src[..x], src[x..z]);
    } else {
      assert src[..x] == [];
    }
  }

  lemma OverwrittenNothing(c: seq<Byte>, off: int)
    ensures Overwritten(c, c, off, [], 0)
  {
  }

  /** Files other than i, and their inodes, are as they were. */
  ghost predicate OthersKept(f: Fs, n: Fs, i: int) {
    OnlyInode(f, n, i) && forall j, p | j != i :: FileByte(n, j, p) == FileByte(f, j, p)
  }

  // Operations on an open file

  /** What every call on an open file needs and keeps. */
  ghost predicate Ready(fs: Fs, i: int) {
    Inv(fs) && Synced(fs) && 0 <= i < |fs.ino| && fs.ino[i].kind != 0 && fs.ino[i].size >= 0
  }

  /**
    * Since f, the first done bytes of src have been written to file i at off, `spill` have reached it, and nothing
    * else.
    */
  ghost predicate Wrote(f: Fs, n: Fs, i: int, off: int, src: seq<Byte>, done: int, spill: int) {
    && Ready(f, i) && Ready(n, i) && OthersKept(f, n, i) && 0 <= done <= spill <= |src|
    && Overwritten(Contents(f, i), Contents(n, i), off, src[..spill], done)
  }

  lemma WroteNothing(f: Fs, i: int, off: int, src: seq<Byte>)
    requires Ready(f, i)
    ensures Wrote(f, f, i, off, src, 0, 0)
  {
    OverwrittenNothing(Contents(f, i), off);
    assert src[..0] == [];
  }

  lemma ForgetLog(f: Fs, i: int, g: Fs)
    requires Ready(f, i) && g == f.(log := {})
    ensures Ready(g, i) && Contents(g, i) == Contents(f, i)
    ensures forall j, p :: FileByte(g, j, p) == FileByte(f, j, p)
  {
    LogPlaysNoPart(f, {});
    assert Contents(g, i) == Contents(f, i);
  }

  /** One operation: f before, g with an empty log, n after a writei that returned r. */
  lemma WroteOp(f: Fs, g: Fs, n: Fs, i: int, off: int, src: seq<Byte>, r: int, spill: int)
    requires Ready(f, i) && g == f.(log := {}) && r >= 0 && Spliced(g, n, i, off, src, r, spill)
    ensures Wrote(f, n, i, off, src, r, spill)
  {
    ForgetLog(f, i, g);
  }

  lemma WroteMore(f: Fs, m: Fs, n: Fs, i: int, off: int, src: seq<Byte>, x: int, chunk: seq<Byte>, y: int, spill: int)
    requires Wrote(f, m, i, off, src, x, x) && x + |chunk| <= |src| && chunk == src[x..x + |chunk|]
    requires Wrote(m, n, i, off + x, chunk, y, spill)
    ensures Wrote(f, n, i, off, src, x + y, x + spill)
  {
    assert chunk[..spill] == src[x..x + spill];
    OverwrittenTrans(Contents(f, i), Contents(m, i), Contents(n, i), off, src, x, x + y, x + spill);
  }

  /** A filewrite under way: started in f, now in n, with done bytes of src written at off and `spill` in the file. */
  datatype Job = Job(f: Fs, n: Fs, i: int, off: int, src: seq<Byte>, done: int, spill: int)

  ghost predicate OnCourse(j: Job) {
    Wrote(j.f, j.n, j.i, j.off, j.src, j.done, j.spill)
  }

  /** What has been written is in the file. */
  lemma JobReaches(j: Job)
    requires OnCourse(j) && j.done > 0
    ensures 0 <= j.off <= j.f.ino[j.i].size <= j.n.ino[j.i].size && j.off + j.done <= j.n.ino[j.i].size
  {
    assert |j.src[..j.spill]| > 0;
  }

  /** Whole operations have been written so far, or everything. */
  ghost predicate Steady(j: Job, avail: int) {
    && OnCourse(j) && j.done == j.spill <= avail && 0 <= j.off && j.f.ino[j.i].size <= j.n.ino[j.i].size
    && (j.done == |j.src| || j.done % CHUNK == 0)
    && (if j.done == 0 then j.n.ino[j.i].size == j.f.ino[j.i].size
        else j.off <= j.f.ino[j.i].size && j.off + j.done <= j.n.ino[j.i].size && j.off + j.done <= FILEMAX)
  }

  ghost predicate JobEnds(j: Job, avail: int) {
    0 <= j.i < |j.f.ino| && FileEnds(j.off, |j.src|, avail, j.f.ino[j.i].size, j.done, j.spill, Full(j.n))
  }

  lemma SteadyEnds(j: Job, avail: int)
    requires Steady(j, avail) && j.done == |j.src|
    ensures JobEnds(j, avail)
  {
  }

  /** The next operation, which writes chunk at pos, returned r: the write goes on, or it has ended. */
  lemma JobStep(j: Job, n: Fs, pos: int, chunk: seq<Byte>, avail: int, r: int, y: int, spill: int) returns (j': Job)
    requires Steady(j, avail) && j.done < |j.src| && |chunk| == Min(|j.src| - j.done, CHUNK)
    requires chunk == j.src[j.done..j.done + |chunk|] && pos == j.off + j.done && r <= |chunk|
    requires Wrote(j.n, n, j.i, pos, chunk, y, spill) && y == (if r > 0 then r else 0) && (r < 0 ==> spill == 0)
    requires r < 0 <==> !Accepted(pos, |chunk|, j.n.ino[j.i].size)
    requires r >= 0 ==> Ends(pos, |chunk|, avail - j.done, j.n.ino[j.i].size, r, spill, Full(n))
    ensures j' == j.(n := n, done := j.done + y, spill := j.done + spill) && OnCourse(j')
    ensures if r == |chunk| then Steady(j', avail) else JobEnds(j', avail)
  {
    j' := JobContinues(j, n, chunk, y, spill);
    JobMoves(j, j', pos, |chunk|, avail, r, spill);
  }

  lemma JobMoves(j: Job, j': Job, pos: int, n1: int, avail: int, r: int, spill: int)
    requires Steady(j, avail) && j.done < |j.src| && n1 == Min(|j.src| - j.done, CHUNK)
    requires pos == j.off + j.done && r <= n1 && OnCourse(j') && (r < 0 ==> spill == 0)
    requires j' == j.(n := j'.n, done := j.done + (if r > 0 then r else 0), spill := j.done + spill)
    requires r < 0 <==> !Accepted(pos, n1, j.n.ino[j.i].size)
    requires r >= 0 ==> Ends(pos, n1, avail - j.done, j.n.ino[j.i].size, r, spill, Full(j'.n))
    ensures if r == n1 then Steady(j', avail) else JobEnds(j', avail)
  {
    if r == n1 {
      JobGoesOn(j, j', n1, avail);
    } else {
      JobStops(j, j', pos, n1, avail, r, spill);
    }
  }

  lemma JobGoesOn(j: Job, j': Job, n1: int, avail: int)
    requires Steady(j, avail) && n1 == Min(|j.src| - j.done, CHUNK) && n1 > 0 && n1 <= avail - j.done
    requires OnCourse(j') && j' == j.(n := j'.n, done := j.done + n1, spill := j.done + n1)
    requires Accepted(j.off + j.done, n1, j.n.ino[j.i].size)
    ensures Steady(j', avail)
  {
    JobReaches(j');
  }

  lemma JobStops(j: Job, j': Job, pos: int, n1: int, avail: int, r: int, spill: int)
    requires Steady(j, avail) && j.done < |j.src|
    requires n1 == Min(|j.src| - j.done, CHUNK) && pos == j.off + j.done && r < n1
    requires j' == j.(n := j'.n, done := j.done + (if r > 0 then r else 0), spill := j.done + spill)
    requires (r < 0 ==> spill == 0)
    requires r < 0 <==> !Accepted(pos, n1, j.n.ino[j.i].size)
    requires r >= 0 ==> Ends(pos, n1, avail - j.done, j.n.ino[j.i].size, r, spill, Full(j'.n))
    ensures JobEnds(j', avail)
  {
    if r >= 0 {
      OperationEnds(j.off, |j.src|, avail, j.f.ino[j.i].size, j.done, n1, j.n.ino[j.i].size, r, spill, Full(j'.n));
    }
  }

  lemma JobContinues(j: Job, n: Fs, chunk: seq<Byte>, y: int, spill: int) returns (j': Job)
    requires OnCourse(j) && j.spill == j.done && j.done + |chunk| <= |j.src| && chunk == j.src[j.done..j.done + |chunk|]
    requires Wrote(j.n, n, j.i, j.off + j.done, chunk, y, spill)
    ensures j' == j.(n := n, done := j.done + y, spill := j.done + spill) && OnCourse(j')
  {
    WroteMore(j.f, j.n, n, j.i, j.off, j.src, j.done, chunk, y, spill);
    j' := j.(n := n, done := j.done + y, spill := j.done + spill);
  }
}
