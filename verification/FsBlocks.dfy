/**
  * The block layer of the file system: the free bitmap, the direct and indirect block slots of
  * every inode, and the file bytes they lead to (balloc, bfree, bmap, itrunc of kernel/fs.c).
  */
module FsBlocks {
  const BSIZE := 1024
  const NDIRECT := 12
  const NINDIRECT := 256
  const MAXFILE := 268
  const BPB := 8192
  const IPB := 16
  const UINT := 0x1_0000_0000

  newtype Byte = x: int | 0 <= x < 256
  type Block = seq<Byte>

  /** An inode; addrs holds NDIRECT data blocks and then the indirect block, 0 meaning none. */
  datatype Inode = Inode(kind: int, size: int, addrs: seq<int>)

  /** A place that can hold a block number: a direct address, the indirect pointer, an indirect entry. */
  datatype Slot = Direct(i: int, k: int) | Ptr(i: int) | Entry(i: int, k: int)

  /**
    * ino holds the inodes as the kernel sees them, dino their copies in the inode blocks.
    * own names the slot each allocated data block sits in; log is what log_write was given.
    */
  datatype Fs = Fs(size: int, start: int, inodestart: int, bmapstart: int,
                   bit: seq<bool>, blk: seq<Block>, ino: seq<Inode>, dino: seq<Inode>,
                   own: map<int, Slot>, log: set<int>)

  function BBlock(fs: Fs, b: int): int {
    b / BPB + fs.bmapstart
  }

  function IBlock(fs: Fs, i: int): int {
    i / IPB + fs.inodestart
  }

  // Words in an indirect block: little-endian, four bytes each

  function Word(d: Block, k: int): int {
    if 0 <= k < NINDIRECT && |d| == BSIZE
    then d[4 * k] as int + 256 * d[4 * k + 1] as int + 65536 * d[4 * k + 2] as int + 16777216 * d[4 * k + 3] as int
    else 0
  }

  function SetWord(d: Block, k: int, v: int): (r: Block)
    requires 0 <= k < NINDIRECT && |d| == BSIZE && 0 <= v < UINT
    ensures |r| == BSIZE
  {
    d[4 * k := (v % 256) as Byte]
    [4 * k + 1 := (v / 256 % 256) as Byte]
    [4 * k + 2 := (v / 65536 % 256) as Byte]
    [4 * k + 3 := (v / 16777216) as Byte]
  }

  lemma WordParts(v: int)
    requires 0 <= v < UINT
    ensures v % 256 + 256 * (v / 256 % 256) + 65536 * (v / 65536 % 256) + 16777216 * (v / 16777216) == v
  {
    var a, b, c := v / 256, v / 65536, v / 16777216;
    assert b == a / 256 && c == b / 256;
  }

  lemma SetWordReads(d: Block, k: int, v: int, j: int)
    requires 0 <= k < NINDIRECT && |d| == BSIZE && 0 <= v < UINT
    ensures Word(SetWord(d, k, v), j) == if j == k then v else Word(d, j)
  {
    var r := SetWord(d, k, v);
    if j == k {
      WordParts(v);
      assert r[4 * k] as int == v % 256;
      assert r[4 * k + 1] as int == v / 256 % 256;
      assert r[4 * k + 2] as int == v / 65536 % 256;
      assert r[4 * k + 3] as int == v / 16777216;
    } else if 0 <= j < NINDIRECT {
      assert r[4 * j] == d[4 * j] && r[4 * j + 1] == d[4 * j + 1] && r[4 * j + 2] == d[4 * j + 2]
        && r[4 * j + 3] == d[4 * j + 3];
    }
  }

  function Zeroed(): (r: Block)
    ensures |r| == BSIZE
  {
    seq(BSIZE, _ => 0 as Byte)
  }

  // Slots

  predicate Inum(fs: Fs, i: int) {
    0 <= i < |fs.ino| && |fs.ino[i].addrs| == NDIRECT + 1
  }

  /** The block number in a slot; 0 means none. */
  function At(fs: Fs, s: Slot): int {
    match s
    case Direct(i, k) => if Inum(fs, i) && 0 <= k < NDIRECT then fs.ino[i].addrs[k] else 0
    case Ptr(i) => if Inum(fs, i) then fs.ino[i].addrs[NDIRECT] else 0
    case Entry(i, k) =>
      if Inum(fs, i) && 0 < fs.ino[i].addrs[NDIRECT] < |fs.blk|
      then Word(fs.blk[fs.ino[i].addrs[NDIRECT]], k)
      else 0
  }

  /** The slot of the bn'th block of a file. */
  function DataSlot(i: int, bn: int): Slot {
    if bn < NDIRECT then Direct(i, bn) else Entry(i, bn - NDIRECT)
  }

  /** Byte p of file i, reading blocks that are not there as zero. */
  function FileByte(fs: Fs, i: int, p: int): Byte {
    if p < 0 then 0 else BlockByte(fs, At(fs, DataSlot(i, p / BSIZE)), p % BSIZE)
  }

  function BlockByte(fs: Fs, b: int, o: int): Byte {
    if 0 < b < |fs.blk| && 0 <= o < |fs.blk[b]| then fs.blk[b][o] else 0
  }

  // The invariant

  ghost predicate Layout(fs: Fs) {
    && |fs.bit| == |fs.blk| == fs.size < UINT
    && |fs.dino| == |fs.ino|
    && 2 <= fs.inodestart && fs.inodestart + |fs.ino| / IPB < fs.bmapstart
    && fs.bmapstart + fs.size / BPB < fs.start <= fs.size
  }

  ghost predicate InodeOk(fs: Fs, i: int) {
    0 <= i < |fs.ino| ==>
      && |fs.ino[i].addrs| == NDIRECT + 1
      && 0 <= fs.ino[i].size <= MAXFILE * BSIZE
      && (fs.ino[i].kind == 0 ==> fs.ino[i].size == 0 && forall k | 0 <= k <= NDIRECT :: fs.ino[i].addrs[k] == 0)
  }

  ghost predicate SlotOk(fs: Fs, s: Slot) {
    At(fs, s) != 0 ==> fs.start <= At(fs, s) < fs.size && At(fs, s) in fs.own && fs.own[At(fs, s)] == s
  }

  ghost predicate BlockOk(fs: Fs, b: int) {
    && (0 <= b < |fs.blk| ==> |fs.blk[b]| == BSIZE)
    && (b in fs.own ==> fs.start <= b < fs.size && At(fs, fs.own[b]) == b)
    && (0 <= b < fs.start && b < |fs.bit| ==> fs.bit[b])
    && (fs.start <= b < fs.size && 0 <= b < |fs.bit| ==> (fs.bit[b] <==> b in fs.own))
  }

  ghost predicate Covered(fs: Fs, i: int, bn: int) {
    0 <= i < |fs.ino| && 0 <= bn && bn * BSIZE < fs.ino[i].size ==> At(fs, DataSlot(i, bn)) != 0
  }

  /** Ownership: all of the invariant but the clause on file sizes. */
  ghost predicate Owned(fs: Fs) {
    && Layout(fs)
    && (forall i :: InodeOk(fs, i))
    && (forall s :: SlotOk(fs, s))
    && (forall b :: BlockOk(fs, b))
  }

  ghost predicate Inv(fs: Fs) {
    Owned(fs) && forall i, bn :: Covered(fs, i, bn)
  }

  /** Between transactions the inode blocks agree with the inodes. */
  ghost predicate Synced(fs: Fs) {
    fs.dino == fs.ino
  }

  /** A set data bit is in exactly one slot, a clear one in none; no two slots share a block; no slot names metadata. */
  lemma OwnedExactlyOnce(fs: Fs)
    requires Inv(fs)
    ensures forall b | fs.start <= b < fs.size :: fs.bit[b] <==> exists s :: At(fs, s) == b
    ensures forall s, t | At(fs, s) == At(fs, t) != 0 :: s == t
    ensures forall s, i | At(fs, s) != 0 && 0 <= i < |fs.ino| :: At(fs, s) != IBlock(fs, i)
    ensures forall s, b | At(fs, s) != 0 && 0 <= b < fs.size :: At(fs, s) != BBlock(fs, b)
  {
    forall b | fs.start <= b < fs.size ensures fs.bit[b] <==> exists s :: At(fs, s) == b {
      assert BlockOk(fs, b);
      if fs.bit[b] {
        assert At(fs, fs.own[b]) == b;
      }
      forall s | At(fs, s) == b ensures fs.bit[b] {
        assert SlotOk(fs, s);
      }
    }
    forall s, t | At(fs, s) == At(fs, t) != 0 ensures s == t {
      assert SlotOk(fs, s) && SlotOk(fs, t);
    }
    forall s, i | At(fs, s) != 0 && 0 <= i < |fs.ino| ensures At(fs, s) != IBlock(fs, i) {
      assert SlotOk(fs, s);
    }
    forall s, b | At(fs, s) != 0 && 0 <= b < fs.size ensures At(fs, s) != BBlock(fs, b) {
      assert SlotOk(fs, s);
    }
  }

  // balloc

  /** The least clear bit from some point on, or the end. */
  function FirstFree(bit: seq<bool>, from: nat): (r: nat)
    requires from <= |bit|
    ensures from <= r <= |bit|
    ensures forall c | from <= c < r :: bit[c]
    ensures r < |bit| ==> !bit[r]
    decreases |bit| - from
  {
    if from == |bit| || !bit[from] then from else FirstFree(bit, from + 1)
  }

  lemma {:induction false} FirstFreeIs(bit: seq<bool>, from: nat, b: nat)
    requires from <= b <= |bit| && (forall c | from <= c < b :: bit[c]) && (b < |bit| ==> !bit[b])
    ensures FirstFree(bit, from) == b
    decreases b - from
  {
    if from < b {
      FirstFreeIs(bit, from + 1, b);
    }
  }

  ghost predicate Full(fs: Fs) {
    forall b | 0 <= b < |fs.bit| :: fs.bit[b]
  }

  /** balloc of block b: mark it, log the bitmap block, zero it, log it. */
  function Allocate(fs: Fs, b: int): Fs
    requires 0 <= b < |fs.bit| == |fs.blk|
  {
    fs.(bit := fs.bit[b := true], blk := fs.blk[b := Zeroed()], log := fs.log + {BBlock(fs, b), b})
  }

  predicate ValidSlot(fs: Fs, s: Slot) {
    && Inum(fs, s.i) && fs.ino[s.i].kind != 0
    && (s.Direct? ==> 0 <= s.k < NDIRECT)
    && (s.Entry? ==>
          && 0 <= s.k < NINDIRECT && 0 < fs.ino[s.i].addrs[NDIRECT] < |fs.blk|
          && |fs.blk[fs.ino[s.i].addrs[NDIRECT]]| == BSIZE)
  }

  /** Store block number b in a slot; an indirect entry is logged at once, an address with the inode. */
  function SetSlot(fs: Fs, s: Slot, b: int): Fs
    requires ValidSlot(fs, s) && 0 <= b < UINT
  {
    match s
    case Direct(i, k) => fs.(ino := fs.ino[i := fs.ino[i].(addrs := fs.ino[i].addrs[k := b])], own := fs.own[b := s])
    case Ptr(i) => fs.(ino := fs.ino[i := fs.ino[i].(addrs := fs.ino[i].addrs[NDIRECT := b])], own := fs.own[b := s])
    case Entry(i, k) =>
      var p := fs.ino[i].addrs[NDIRECT];
      fs.(blk := fs.blk[p := SetWord(fs.blk[p], k, b)], own := fs.own[b := s], log := fs.log + {p})
  }

  /** The block in a slot, allocated and stored there first if there is none; 0 if the disk is full. */
  function Obtain(fs: Fs, s: Slot): (r: (Fs, int))
    requires Layout(fs) && ValidSlot(fs, s)
  {
    var b := FirstFree(fs.bit, 0);
    if At(fs, s) != 0 then (fs, At(fs, s))
    else if b == |fs.bit| then (fs, 0)
    else (SetSlot(Allocate(fs, b), s, b), b)
  }

  lemma FreeIsData(fs: Fs, b: int)
    requires Inv(fs) && 0 <= b < |fs.bit| && !fs.bit[b]
    ensures fs.start <= b < fs.size && b !in fs.own
  {
    assert BlockOk(fs, b);
  }

  lemma AllocateReads(fs: Fs, b: int, t: Slot)
    requires Inv(fs) && 0 <= b < |fs.bit| && !fs.bit[b]
    ensures At(Allocate(fs, b), t) == At(fs, t)
  {
    FreeIsData(fs, b);
    if t.Entry? {
      assert SlotOk(fs, Ptr(t.i));
    }
  }

  /** Storing a fresh zeroed block changes that one slot and no other. */
  lemma StoreReads(fs: Fs, s: Slot, b: int, t: Slot)
    requires Inv(fs) && ValidSlot(fs, s) && At(fs, s) == 0 && 0 <= b < |fs.bit| && !fs.bit[b]
    ensures At(SetSlot(Allocate(fs, b), s, b), t) == if t == s then b else At(fs, t)
  {
    FreeIsData(fs, b);
    AllocateReads(fs, b, t);
    var n := Allocate(fs, b);
    assert SlotOk(fs, Ptr(t.i)) && SlotOk(fs, Ptr(s.i));
    match s
    case Direct(i, k) =>
    case Ptr(i) =>
      if t.Entry? && t.i == i {
        assert Word(Zeroed(), t.k) == 0;
      }
    case Entry(i, k) =>
      var p := fs.ino[i].addrs[NDIRECT];
      assert At(fs, Ptr(i)) == p;
      if t.Entry? && At(fs, Ptr(t.i)) == p {
        SetWordReads(n.blk[p], k, b, t.k);
      }
  }

  lemma StoreKeepsInv(fs: Fs, s: Slot, b: int)
    requires Inv(fs) && ValidSlot(fs, s) && At(fs, s) == 0 && 0 <= b < |fs.bit| && !fs.bit[b]
    ensures Inv(SetSlot(Allocate(fs, b), s, b))
  {
    var n := SetSlot(Allocate(fs, b), s, b);
    FreeIsData(fs, b);
    forall i ensures InodeOk(n, i) {
      assert InodeOk(fs, i);
    }
    forall t ensures SlotOk(n, t) {
      assert SlotOk(fs, t);
      StoreReads(fs, s, b, t);
    }
    forall c ensures BlockOk(n, c) {
      assert BlockOk(fs, c);
      if c in n.own {
        StoreReads(fs, s, b, n.own[c]);
      }
    }
    forall i, bn ensures Covered(n, i, bn) {
      assert Covered(fs, i, bn);
      StoreReads(fs, s, b, DataSlot(i, bn));
    }
  }

  /** Allocation shows in no file: a block that appears reads as the zeros that stood there before. */
  lemma StoreKeepsBytes(fs: Fs, s: Slot, b: int, j: int, p: int)
    requires Inv(fs) && ValidSlot(fs, s) && At(fs, s) == 0 && 0 <= b < |fs.bit| && !fs.bit[b]
    ensures FileByte(SetSlot(Allocate(fs, b), s, b), j, p) == FileByte(fs, j, p)
  {
    if p >= 0 {
      var t := DataSlot(j, p / BSIZE);
      StoreReads(fs, s, b, t);
      FreeIsData(fs, b);
      assert SlotOk(fs, t) && SlotOk(fs, Ptr(s.i));
    }
  }

  // What the log has to know: every change that shows in a disk block

  ghost predicate SameLayout(f: Fs, n: Fs) {
    && n.size == f.size && n.start == f.start && n.inodestart == f.inodestart && n.bmapstart == f.bmapstart
    && |n.bit| == |f.bit| && |n.blk| == |f.blk| && |n.ino| == |f.ino| && |n.dino| == |f.dino|
  }

  /** A block that came into a slot has been logged, and so has an indirect block that changed. */
  ghost predicate OwnLogged(f: Fs, n: Fs, b: int) {
    b in n.own && b !in n.log ==>
      && b in f.own && f.own[b] == n.own[b] && 0 <= b < |f.blk| && b < |n.blk|
      && (f.own[b].Ptr? ==> n.blk[b] == f.blk[b])
  }

  ghost predicate BitLogged(f: Fs, n: Fs, b: int) {
    0 <= b < |f.bit| && b < |n.bit| && n.bit[b] != f.bit[b] ==> BBlock(f, b) in n.log
  }

  ghost predicate InodeLogged(f: Fs, n: Fs, i: int) {
    0 <= i < |f.dino| && i < |n.dino| && n.dino[i] != f.dino[i] ==> IBlock(f, i) in n.log
  }

  /** What has been logged lies in the inode blocks, the bitmap or the data blocks. */
  ghost predicate PlaceLogged(f: Fs, n: Fs, x: int) {
    x in n.log ==> x in f.log || f.inodestart <= x < f.size
  }

  ghost predicate DataLogged(f: Fs, n: Fs, b: int) {
    b in n.own && b !in n.log && 0 <= b < |f.blk| && b < |n.blk| ==> n.blk[b] == f.blk[b]
  }

  /** Every change between f and n to bitmap, inodes and indirect blocks is in the log of n. */
  ghost predicate LogsMeta(f: Fs, n: Fs) {
    && SameLayout(f, n) && f.log <= n.log
    && (forall b :: OwnLogged(f, n, b)) && (forall b :: BitLogged(f, n, b)) && (forall i :: InodeLogged(f, n, i))
    && (forall x :: PlaceLogged(f, n, x))
  }

  /** And so is every change to a block of a file. */
  ghost predicate LogsData(f: Fs, n: Fs) {
    forall b :: DataLogged(f, n, b)
  }

  lemma NothingLogged(f: Fs)
    requires Inv(f)
    ensures LogsMeta(f, f) && LogsData(f, f)
  {
    forall b ensures OwnLogged(f, f, b) {
      assert BlockOk(f, b);
    }
  }

  lemma LogsMetaTrans(f: Fs, m: Fs, n: Fs)
    requires LogsMeta(f, m) && LogsMeta(m, n)
    ensures LogsMeta(f, n)
  {
    forall b ensures OwnLogged(f, n, b) {
      assert OwnLogged(f, m, b) && OwnLogged(m, n, b);
    }
    forall b ensures BitLogged(f, n, b) {
      assert BitLogged(f, m, b) && BitLogged(m, n, b);
    }
    forall i ensures InodeLogged(f, n, i) {
      assert InodeLogged(f, m, i) && InodeLogged(m, n, i);
    }
    forall x ensures PlaceLogged(f, n, x) {
      assert PlaceLogged(f, m, x) && PlaceLogged(m, n, x);
    }
  }

  lemma LogsDataTrans(f: Fs, m: Fs, n: Fs)
    requires LogsMeta(f, m) && LogsMeta(m, n) && LogsData(f, m) && LogsData(m, n)
    ensures LogsData(f, n)
  {
    forall b ensures DataLogged(f, n, b) {
      assert DataLogged(f, m, b) && DataLogged(m, n, b) && OwnLogged(m, n, b);
    }
  }

  lemma ObtainLogged(fs: Fs, s: Slot)
    requires Inv(fs) && ValidSlot(fs, s)
    ensures LogsMeta(fs, Obtain(fs, s).0) && LogsData(fs, Obtain(fs, s).0)
  {
    var b := FirstFree(fs.bit, 0);
    if At(fs, s) == 0 && b < |fs.bit| {
      FreeIsData(fs, b);
      StoreLogged(fs, s, b);
    } else {
      NothingLogged(fs);
    }
  }

  lemma StoreLogged(fs: Fs, s: Slot, b: int)
    requires Inv(fs) && ValidSlot(fs, s) && fs.start <= b < fs.size && b !in fs.own
    ensures LogsMeta(fs, SetSlot(Allocate(fs, b), s, b)) && LogsData(fs, SetSlot(Allocate(fs, b), s, b))
  {
    var n := SetSlot(Allocate(fs, b), s, b);
    assert SlotOk(fs, Ptr(s.i));
    forall c ensures OwnLogged(fs, n, c) && DataLogged(fs, n, c) && BitLogged(fs, n, c) {
      assert BlockOk(fs, c);
    }
    forall x ensures PlaceLogged(fs, n, x) {
    }
  }

  // bmap

  /** Nothing but block slots, blocks, bitmap and log differ. */
  ghost predicate SameFiles(fs: Fs, n: Fs) {
    && n.size == fs.size && n.start == fs.start && n.inodestart == fs.inodestart && n.bmapstart == fs.bmapstart
    && n.dino == fs.dino && |n.ino| == |fs.ino|
    && (forall i | 0 <= i < |fs.ino| :: n.ino[i].kind == fs.ino[i].kind && n.ino[i].size == fs.ino[i].size)
    && (forall j, p :: FileByte(n, j, p) == FileByte(fs, j, p))
  }

  ghost predicate OnlySlot(fs: Fs, n: Fs, s: Slot, t: Slot) {
    t != s ==> At(n, t) == At(fs, t)
  }

  ghost predicate OnlyInode(fs: Fs, n: Fs, i: int) {
    |n.ino| == |fs.ino| && forall j | 0 <= j < |fs.ino| && j != i :: n.ino[j] == fs.ino[j]
  }

  lemma ObtainResult(fs: Fs, s: Slot)
    requires Inv(fs) && ValidSlot(fs, s)
    ensures var (n, b) := Obtain(fs, s);
            && Inv(n) && SameFiles(fs, n) && b == At(n, s)
            && (forall t :: OnlySlot(fs, n, s, t)) && OnlyInode(fs, n, s.i)
            && (At(fs, s) != 0 ==> n == fs)
            && (b == 0 ==> n == fs && Full(fs))
  {
    var b := FirstFree(fs.bit, 0);
    if At(fs, s) == 0 && b < |fs.bit| {
      var n := SetSlot(Allocate(fs, b), s, b);
      StoreKeepsInv(fs, s, b);
      StoreReads(fs, s, b, s);
      FreeIsData(fs, b);
      forall t ensures OnlySlot(fs, n, s, t) {
        StoreReads(fs, s, b, t);
      }
      forall j, p ensures FileByte(n, j, p) == FileByte(fs, j, p) {
        StoreKeepsBytes(fs, s, b, j, p);
      }
    }
  }

  function Singleton(b: int): set<int> {
    if b == 0 then {} else {b}
  }

  function Count(b: bool): int {
    if b then 1 else 0
  }

  /** The bitmap blocks; there are size / BPB + 1 of them. */
  ghost predicate InBitmap(fs: Fs, x: int) {
    fs.bmapstart <= x <= fs.bmapstart + fs.size / BPB
  }

  ghost predicate AllInBitmap(fs: Fs, bitmap: set<int>) {
    forall x | x in bitmap :: InBitmap(fs, x)
  }

  /** What log_write is given: the bitmap block and the new block, and the indirect block of a new entry. */
  lemma ObtainLogs(fs: Fs, s: Slot) returns (bitmap: set<int>)
    requires Inv(fs) && ValidSlot(fs, s)
    ensures var (n, b) := Obtain(fs, s);
            && |bitmap| == Count(At(fs, s) == 0 && b != 0) && AllInBitmap(fs, bitmap)
            && n.log <= fs.log + bitmap + Singleton(b) + (if s.Entry? && b != 0 then {At(fs, Ptr(s.i))} else {})
  {
    ObtainResult(fs, s);
    var (n, b) := Obtain(fs, s);
    bitmap := if At(fs, s) == 0 && b != 0 then {BBlock(fs, b)} else {};
  }

  ghost predicate BmapReady(fs: Fs, i: int, bn: int) {
    Inv(fs) && 0 <= i < |fs.ino| && fs.ino[i].kind != 0 && 0 <= bn < MAXFILE
  }

  /** After the indirect pointer is obtained, the entry can be. */
  lemma PtrThenEntry(fs: Fs, i: int, bn: int)
    requires BmapReady(fs, i, bn)
    ensures bn < NDIRECT ==> ValidSlot(fs, DataSlot(i, bn))
    ensures ValidSlot(fs, Ptr(i))
    ensures var (n, p) := Obtain(fs, Ptr(i)); bn >= NDIRECT && p != 0 ==> Inv(n) && ValidSlot(n, DataSlot(i, bn))
  {
    assert InodeOk(fs, i);
    ObtainResult(fs, Ptr(i));
    var (n, p) := Obtain(fs, Ptr(i));
    assert InodeOk(n, i) && SlotOk(n, Ptr(i)) && BlockOk(n, p);
  }

  ghost function Bmap(fs: Fs, i: int, bn: int): (Fs, int)
    requires BmapReady(fs, i, bn)
  {
    PtrThenEntry(fs, i, bn);
    if bn < NDIRECT then Obtain(fs, DataSlot(i, bn))
    else
      var (n, p) := Obtain(fs, Ptr(i));
      if p == 0 then (n, 0) else Obtain(n, DataSlot(i, bn))
  }

  /**
    * bmap, also when the disk fills up half-way: ownership holds, no file changes, the address
    * returned is the one in the slot, 0 comes back only from a full disk, and a block that was
    * there already is returned without any change at all.
    */
  lemma BmapResult(fs: Fs, i: int, bn: int)
    requires BmapReady(fs, i, bn)
    ensures var (n, b) := Bmap(fs, i, bn);
            && Inv(n) && SameFiles(fs, n) && OnlyInode(fs, n, i)
            && BmapReady(n, i, bn) && b == At(n, DataSlot(i, bn))
            && (At(fs, DataSlot(i, bn)) != 0 ==> n == fs && b != 0)
            && (b == 0 ==> Full(n))
            && (forall bn' :: At(fs, DataSlot(i, bn')) != 0 ==> At(n, DataSlot(i, bn')) != 0)
            && (At(fs, Ptr(i)) != 0 ==> At(n, Ptr(i)) == At(fs, Ptr(i)))
  {
    PtrThenEntry(fs, i, bn);
    var s := DataSlot(i, bn);
    assert At(fs, s) != 0 && bn >= NDIRECT ==> At(fs, Ptr(i)) != 0;
    if bn < NDIRECT {
      ObtainResult(fs, s);
      BmapKeepsSlots(fs, Bmap(fs, i, bn).0, i, s);
    } else {
      ObtainResult(fs, Ptr(i));
      var (n, p) := Obtain(fs, Ptr(i));
      BmapKeepsSlots(fs, n, i, Ptr(i));
      assert OnlySlot(fs, n, Ptr(i), s);
      if p != 0 {
        ObtainResult(n, s);
        BmapKeepsSlots(n, Bmap(fs, i, bn).0, i, s);
      }
    }
  }

  lemma BmapKeepsSlots(fs: Fs, n: Fs, i: int, s: Slot)
    requires At(fs, s) != 0 ==> At(n, s) == At(fs, s)
    requires forall t :: OnlySlot(fs, n, s, t)
    ensures forall bn :: At(fs, DataSlot(i, bn)) != 0 ==> At(n, DataSlot(i, bn)) != 0
    ensures At(fs, Ptr(i)) != 0 ==> At(n, Ptr(i)) == At(fs, Ptr(i))
  {
    forall bn | At(fs, DataSlot(i, bn)) != 0 ensures At(n, DataSlot(i, bn)) != 0 {
      assert OnlySlot(fs, n, s, DataSlot(i, bn));
    }
    assert OnlySlot(fs, n, s, Ptr(i));
  }

  /**
    * The blocks one bmap hands to the log: at most one bitmap block for the data block and one for
    * the indirect block, the data block, and the indirect block.
    */
  lemma BmapLogs(fs: Fs, i: int, bn: int) returns (bitmap: set<int>)
    requires BmapReady(fs, i, bn)
    ensures var (n, b) := Bmap(fs, i, bn);
            && n.log <= fs.log + bitmap + Singleton(b) + Singleton(At(n, Ptr(i))) && AllInBitmap(fs, bitmap)
            && |bitmap| <= Count(At(fs, DataSlot(i, bn)) == 0 && b != 0)
                           + Count(At(fs, Ptr(i)) == 0 && At(n, Ptr(i)) != 0)
  {
    PtrThenEntry(fs, i, bn);
    var s := DataSlot(i, bn);
    if bn < NDIRECT {
      bitmap := ObtainLogs(fs, s);
    } else {
      ObtainResult(fs, Ptr(i));
      var (n, p) := Obtain(fs, Ptr(i));
      bitmap := ObtainLogs(fs, Ptr(i));
      assert OnlySlot(fs, n, Ptr(i), s);
      if p != 0 {
        var more := ObtainLogs(n, s);
        ObtainResult(n, s);
        assert OnlySlot(n, Obtain(n, s).0, s, Ptr(i));
        UnionCard(bitmap, more);
        bitmap := bitmap + more;
      }
    }
  }

  ghost predicate OnlyNew(fs: Fs, n: Fs, i: int, bn: int, t: Slot) {
    t != DataSlot(i, bn) && (t != Ptr(i) || bn < NDIRECT) ==> At(n, t) == At(fs, t)
  }

  lemma BmapOnlyNew(fs: Fs, i: int, bn: int, t: Slot)
    requires BmapReady(fs, i, bn)
    ensures OnlyNew(fs, Bmap(fs, i, bn).0, i, bn, t)
  {
    PtrThenEntry(fs, i, bn);
    if bn < NDIRECT {
      ObtainResult(fs, DataSlot(i, bn));
      assert OnlySlot(fs, Bmap(fs, i, bn).0, DataSlot(i, bn), t);
    } else {
      ObtainResult(fs, Ptr(i));
      var (n, p) := Obtain(fs, Ptr(i));
      assert OnlySlot(fs, n, Ptr(i), t);
      if p != 0 {
        ObtainResult(n, DataSlot(i, bn));
        assert OnlySlot(n, Bmap(fs, i, bn).0, DataSlot(i, bn), t);
      }
    }
  }

  /** What bmap does, for its callers: n and b are its result, bitmap the bitmap blocks it logged. */
  ghost predicate BmapEffect(fs: Fs, i: int, bn: int, n: Fs, b: int, bitmap: set<int>) {
    && SameFiles(fs, n) && OnlyInode(fs, n, i) && BmapReady(n, i, bn) && b == At(n, DataSlot(i, bn))
    && (At(fs, DataSlot(i, bn)) != 0 ==> n == fs && b != 0)
    && (b == 0 ==> Full(n))
    && (forall bn' :: At(fs, DataSlot(i, bn')) != 0 ==> At(n, DataSlot(i, bn')) != 0)
    && (At(fs, Ptr(i)) != 0 ==> At(n, Ptr(i)) == At(fs, Ptr(i)))
    && (forall t :: OnlyNew(fs, n, i, bn, t))
    && n.log <= fs.log + bitmap + Singleton(b) + Singleton(At(n, Ptr(i))) && AllInBitmap(fs, bitmap)
    && |bitmap| <= Count(At(fs, DataSlot(i, bn)) == 0 && b != 0) + Count(At(fs, Ptr(i)) == 0 && At(n, Ptr(i)) != 0)
    && LogsMeta(fs, n) && LogsData(fs, n)
  }

  /** Both allocations of a bmap are logged. */
  lemma BmapLogged(fs: Fs, i: int, bn: int)
    requires BmapReady(fs, i, bn)
    ensures LogsMeta(fs, Bmap(fs, i, bn).0) && LogsData(fs, Bmap(fs, i, bn).0)
  {
    PtrThenEntry(fs, i, bn);
    if bn < NDIRECT {
      ObtainLogged(fs, DataSlot(i, bn));
    } else {
      ObtainLogged(fs, Ptr(i));
      var (n, p) := Obtain(fs, Ptr(i));
      if p != 0 {
        ObtainLogged(n, DataSlot(i, bn));
        LogsMetaTrans(fs, n, Obtain(n, DataSlot(i, bn)).0);
        LogsDataTrans(fs, n, Obtain(n, DataSlot(i, bn)).0);
      }
    }
  }

  lemma BmapHasEffect(fs: Fs, i: int, bn: int) returns (n: Fs, b: int, bitmap: set<int>)
    requires BmapReady(fs, i, bn)
    ensures Bmap(fs, i, bn) == (n, b) && BmapEffect(fs, i, bn, n, b, bitmap)
  {
    BmapResult(fs, i, bn);
    bitmap := BmapLogs(fs, i, bn);
    BmapLogged(fs, i, bn);
    n, b := Bmap(fs, i, bn).0, Bmap(fs, i, bn).1;
    forall t ensures OnlyNew(fs, n, i, bn, t) {
      BmapOnlyNew(fs, i, bn, t);
    }
  }

  lemma UnionCard(a: set<int>, b: set<int>)
    ensures |a + b| <= |a| + |b|
  {
    assert a + b == a + (b - a);
    assert |a + (b - a)| == |a| + |b - a|;
    SubsetCard(b - a, b);
  }

  /** So many different numbers from lo to hi and no more. */
  lemma {:induction false} IntervalCard(s: set<int>, lo: int, hi: int)
    requires lo <= hi + 1 && forall x | x in s :: lo <= x <= hi
    ensures |s| <= hi - lo + 1
    decreases hi - lo + 1
  {
    if |s| > 0 {
      var x := SomeMember(s);
      IntervalCard(s - {hi}, lo, hi - 1);
      assert s <= s - {hi} + {hi};
      UnionCard(s - {hi}, {hi});
      SubsetCard(s, s - {hi} + {hi});
    }
  }

  lemma SomeMember<T>(s: set<T>) returns (x: T)
    requires |s| > 0
    ensures x in s
  {
    x :| x in s;
  }

  lemma {:induction false} SubsetCard<T>(a: set<T>, b: set<T>)
    requires a <= b
    ensures |a| <= |b|
  {
    if |a| > 0 {
      var x := SomeMember(a);
      SubsetCard(a - {x}, b - {x});
    }
  }
}
