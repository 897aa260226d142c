/**
  * Crash consistency of the file system on top of the redo log: an Fs laid out in disk blocks of 32-bit
  * words, transactions whose log names every block they change, and histories of commits and crashes.
  */
module FsCrash {
  import opened FsBlocks
  import opened FsFiles
  import opened FsTruncate
  import opened FsCode
  import Log = RedoLog

  const WORDS := 256

  // The layout: data blocks, bitmap blocks and inode blocks, word by word

  function DataWords(d: Block): (r: Log.Block)
    ensures |r| == WORDS
  {
    seq(WORDS, k requires 0 <= k < WORDS => Word(d, k))
  }

  /** Bits from .. end - 1 as a number, the first one lowest; bit b of the bitmap is bit b % 8 of byte b / 8. */
  function Bits(bit: seq<bool>, from: int, end: int): int
    decreases end - from
  {
    if from >= end then 0 else Count(0 <= from < |bit| && bit[from]) + 2 * Bits(bit, from + 1, end)
  }

  function BitmapWords(bit: seq<bool>, x: int): (r: Log.Block)
    ensures |r| == WORDS
  {
    seq(WORDS, k requires 0 <= k < WORDS => Bits(bit, x * BPB + 32 * k, x * BPB + 32 * k + 32))
  }

  /** Word q of a dinode: the type, the device and link numbers, which are not modelled, the size, the addresses. */
  function InodeWord(ino: Inode, q: int): int {
    if q == 0 then ino.kind
    else if q == 2 then ino.size
    else if 0 <= q - 3 < |ino.addrs| then ino.addrs[q - 3]
    else 0
  }

  function InodeWords(dino: seq<Inode>, y: int): (r: Log.Block)
    ensures |r| == WORDS
  {
    seq(WORDS, k requires 0 <= k < WORDS =>
      var i := y * IPB + k / 16; if 0 <= i < |dino| then InodeWord(dino[i], k % 16) else 0)
  }

  /** Block b of the disk that holds fs, from the first inode block on. */
  function Encode(fs: Fs, b: int): (r: Log.Block)
    requires fs.inodestart <= b < |fs.blk| && 0 <= b
    ensures |r| == WORDS
  {
    if fs.start <= b then DataWords(fs.blk[b])
    else if fs.bmapstart <= b then BitmapWords(fs.bit, b - fs.bmapstart)
    else InodeWords(fs.dino, b - fs.inodestart)
  }

  ghost predicate HoldsAt(d: Log.Disk, fs: Fs, b: int) {
    0 <= fs.inodestart <= b < |d| && b < |fs.blk| ==> d[b] == Encode(fs, b)
  }

  /** The disk holds this file system. */
  ghost predicate Holds(d: Log.Disk, fs: Fs) {
    |d| == |fs.blk| && forall b :: HoldsAt(d, fs, b)
  }

  // Reading it back: a disk holds one file system only

  lemma {:induction false} BitsDiffer(a: seq<bool>, b: seq<bool>, from: int, end: int, c: int)
    requires from <= c < end && 0 <= c < |a| == |b| && a[c] != b[c]
    ensures Bits(a, from, end) != Bits(b, from, end)
    decreases end - from
  {
    var x, y := Count(0 <= from < |a| && a[from]), Count(0 <= from < |b| && b[from]);
    if from != c {
      BitsDiffer(a, b, from + 1, end, c);
    }
    LowBit(x, y, Bits(a, from + 1, end), Bits(b, from + 1, end));
  }

  lemma LowBit(x: int, y: int, u: int, v: int)
    requires 0 <= x <= 1 && 0 <= y <= 1 && (x != y || u != v)
    ensures x + 2 * u != y + 2 * v
  {
  }

  lemma WordsTell(d: Block, e: Block)
    requires |d| == |e| == BSIZE && DataWords(d) == DataWords(e)
    ensures d == e
  {
    forall p | 0 <= p < BSIZE ensures d[p] == e[p] {
      var k := p / 4;
      assert DataWords(d)[k] == Word(d, k) && DataWords(e)[k] == Word(e, k);
      FourBytes(d[4 * k] as int, d[4 * k + 1] as int, d[4 * k + 2] as int, d[4 * k + 3] as int,
                e[4 * k] as int, e[4 * k + 1] as int, e[4 * k + 2] as int, e[4 * k + 3] as int);
    }
  }

  lemma FourBytes(a: int, b: int, c: int, d: int, a': int, b': int, c': int, d': int)
    requires 0 <= a < 256 && 0 <= b < 256 && 0 <= c < 256 && 0 <= d < 256
    requires 0 <= a' < 256 && 0 <= b' < 256 && 0 <= c' < 256 && 0 <= d' < 256
    requires a + 256 * b + 65536 * c + 16777216 * d == a' + 256 * b' + 65536 * c' + 16777216 * d'
    ensures a == a' && b == b' && c == c' && d == d'
  {
  }

  lemma InodesTell(f: seq<Inode>, n: seq<Inode>, i: int)
    requires 0 <= i < |f| == |n| && |f[i].addrs| == |n[i].addrs| == NDIRECT + 1
    requires InodeWords(f, i / IPB) == InodeWords(n, i / IPB)
    ensures f[i] == n[i]
  {
    var y, r := i / IPB, i % IPB;
    forall q | 0 <= q < 16 ensures InodeWord(f[i], q) == InodeWord(n[i], q) {
      var k := 16 * r + q;
      assert k / 16 == r && k % 16 == q && y * IPB + k / 16 == i;
      assert InodeWords(f, y)[k] == InodeWord(f[i], q) && InodeWords(n, y)[k] == InodeWord(n[i], q);
    }
    assert InodeWord(f[i], 0) == InodeWord(n[i], 0) && InodeWord(f[i], 2) == InodeWord(n[i], 2);
    forall k | 0 <= k <= NDIRECT ensures f[i].addrs[k] == n[i].addrs[k] {
      assert InodeWord(f[i], k + 3) == InodeWord(n[i], k + 3);
    }
  }

  lemma BitsTell(f: seq<bool>, n: seq<bool>, c: int)
    requires 0 <= c < |f| == |n| && BitmapWords(f, c / BPB) == BitmapWords(n, c / BPB)
    ensures f[c] == n[c]
  {
    var x, k := c / BPB, c % BPB / 32;
    var from := x * BPB + 32 * k;
    WordOf(c, x, k);
    assert BitmapWords(f, x)[k] == Bits(f, from, from + 32) && BitmapWords(n, x)[k] == Bits(n, from, from + 32);
    if f[c] != n[c] {
      BitsDiffer(f, n, from, from + 32, c);
    }
  }

  lemma WordOf(c: int, x: int, k: int)
    requires 0 <= c && x == c / BPB && k == c % BPB / 32
    ensures 0 <= k < WORDS && x * BPB + 32 * k <= c < x * BPB + 32 * k + 32
  {
  }

  /** Two file systems of the same layout on the same disk have the same bitmap, inodes and data blocks. */
  lemma HoldsOne(d: Log.Disk, f: Fs, n: Fs)
    requires Inv(f) && Inv(n) && Synced(f) && Synced(n) && SameLayout(f, n) && Holds(d, f) && Holds(d, n)
    ensures f.bit == n.bit && f.dino == n.dino && forall b | f.start <= b < f.size :: f.blk[b] == n.blk[b]
  {
    forall c | 0 <= c < |f.bit| ensures f.bit[c] == n.bit[c] {
      var b := BBlock(f, c);
      assert HoldsAt(d, f, b) && HoldsAt(d, n, b);
      BitsTell(f.bit, n.bit, c);
    }
    forall i | 0 <= i < |f.dino| ensures f.dino[i] == n.dino[i] {
      var b := IBlock(f, i);
      assert HoldsAt(d, f, b) && HoldsAt(d, n, b) && InodeOk(f, i) && InodeOk(n, i);
      InodesTell(f.dino, n.dino, i);
    }
    forall b | f.start <= b < f.size ensures f.blk[b] == n.blk[b] {
      assert HoldsAt(d, f, b) && HoldsAt(d, n, b) && BlockOk(f, b) && BlockOk(n, b);
      WordsTell(f.blk[b], n.blk[b]);
    }
  }

  // Stored and cached

  /** Everything but the contents of files is the same: what a failed user copy can change is left out. */
  ghost predicate SameShape(c: Fs, d: Fs) {
    && SameLayout(c, d) && c.bit == d.bit && c.ino == d.ino && c.dino == d.dino && c.own == d.own
    && (forall b :: ShapeAt(c, d, b))
  }

  ghost predicate ShapeAt(c: Fs, d: Fs, b: int) {
    0 <= b < |c.blk| && b < |d.blk| ==>
      && |d.blk[b]| == |c.blk[b]| && (b in c.own && c.own[b].Ptr? ==> d.blk[b] == c.blk[b])
  }

  lemma ShapeReads(c: Fs, d: Fs, t: Slot)
    requires Inv(c) && SameShape(c, d)
    ensures At(d, t) == At(c, t)
  {
    assert SlotOk(c, Ptr(t.i)) && ShapeAt(c, d, At(c, Ptr(t.i)));
    assert Inum(d, t.i) <==> Inum(c, t.i);
  }

  lemma ShapeKeepsInv(c: Fs, d: Fs)
    requires Inv(c) && SameShape(c, d)
    ensures Inv(d)
  {
    forall t ensures At(d, t) == At(c, t) {
      ShapeReads(c, d, t);
    }
    forall i ensures InodeOk(d, i) {
      assert InodeOk(c, i);
    }
    forall t ensures SlotOk(d, t) {
      assert SlotOk(c, t);
    }
    forall b ensures BlockOk(d, b) {
      assert BlockOk(c, b) && ShapeAt(c, d, b);
    }
    forall i, bn ensures Covered(d, i, bn) {
      assert Covered(c, i, bn);
    }
  }

  // A transaction

  /** What the log brings to the disk: the logged blocks of n, and of the others what was there. */
  function Install(d: Fs, n: Fs): Fs
    requires |d.blk| == |n.blk|
  {
    n.(blk := seq(|n.blk|, b requires 0 <= b < |n.blk| => if b in n.log then n.blk[b] else d.blk[b]), log := {})
  }

  lemma InstallShape(c: Fs, d: Fs, n: Fs)
    requires Inv(c) && SameShape(c, d) && Inv(n) && LogsMeta(c.(log := {}), n)
    ensures SameShape(n, Install(d, n))
  {
    var e := Install(d, n);
    forall b ensures ShapeAt(n, e, b) {
      assert ShapeAt(c, d, b) && OwnLogged(c.(log := {}), n, b) && BlockOk(n, b) && BlockOk(c, b);
    }
  }

  lemma {:induction false} BitsKept(a: seq<bool>, b: seq<bool>, from: int, end: int)
    requires |a| == |b| && forall c | from <= c < end && 0 <= c < |a| :: a[c] == b[c]
    ensures Bits(a, from, end) == Bits(b, from, end)
    decreases end - from
  {
    if from < end {
      BitsKept(a, b, from + 1, end);
    }
  }

  lemma BitmapWordKept(f: Fs, n: Fs, x: int, k: int, from: int)
    requires LogsMeta(f, n) && 0 <= x && x + f.bmapstart !in n.log && 0 <= k < WORDS && from == x * BPB + 32 * k
    ensures Bits(n.bit, from, from + 32) == Bits(f.bit, from, from + 32)
  {
    forall c | from <= c < from + 32 && 0 <= c < |f.bit| ensures n.bit[c] == f.bit[c] {
      assert c / BPB == x;
      assert BitLogged(f, n, c);
    }
    BitsKept(n.bit, f.bit, from, from + 32);
  }

  lemma BitmapKept(f: Fs, n: Fs, x: int)
    requires LogsMeta(f, n) && 0 <= x && x + f.bmapstart !in n.log
    ensures BitmapWords(n.bit, x) == BitmapWords(f.bit, x)
  {
    forall k | 0 <= k < WORDS ensures BitmapWords(n.bit, x)[k] == BitmapWords(f.bit, x)[k] {
      BitmapWordKept(f, n, x, k, x * BPB + 32 * k);
    }
  }

  lemma InodesKept(f: Fs, n: Fs, y: int)
    requires LogsMeta(f, n) && 0 <= y && y + f.inodestart !in n.log
    ensures InodeWords(n.dino, y) == InodeWords(f.dino, y)
  {
    forall k | 0 <= k < WORDS ensures InodeWords(n.dino, y)[k] == InodeWords(f.dino, y)[k] {
      var i := y * IPB + k / 16;
      assert i / IPB == y;
      assert InodeLogged(f, n, i);
    }
  }

  /** A block that was not logged is the same on the disk before and after. */
  lemma UnloggedKept(f: Fs, d: Fs, n: Fs, e: Fs, b: int)
    requires LogsMeta(f, n) && SameLayout(f, d) && d.bit == f.bit && d.dino == f.dino
    requires SameLayout(n, e) && e.bit == n.bit && e.dino == n.dino
    requires 0 <= d.inodestart <= b < |d.blk| && b !in n.log && e.blk[b] == d.blk[b]
    ensures Encode(e, b) == Encode(d, b)
  {
    if b < d.start {
      if d.bmapstart <= b {
        BitmapKept(f, n, b - d.bmapstart);
      } else {
        InodesKept(f, n, b - d.inodestart);
      }
    }
  }

  lemma InstallKeeps(c: Fs, d: Fs, n: Fs, b: int)
    requires SameShape(c, d) && LogsMeta(c.(log := {}), n) && 0 <= d.inodestart <= b < |d.blk|
    ensures |n.blk| == |d.blk| && Encode(Install(d, n), b) == if b in n.log then Encode(n, b) else Encode(d, b)
  {
    if b !in n.log {
      UnloggedKept(c.(log := {}), d, n, Install(d, n), b);
    }
  }

  // Histories

  /** The disk, the file system it holds, and the one in memory. */
  datatype State = State(disk: Log.Disk, stored: Fs, cached: Fs)

  /** The log lies before the inode blocks. */
  ghost predicate Placed(g: Log.Geometry, fs: Fs) {
    g.words == WORDS && g.start + g.size <= fs.inodestart
  }

  ghost predicate Consistent(g: Log.Geometry, s: State) {
    && Log.CleanLog(g, s.disk) && Holds(s.disk, s.stored) && Placed(g, s.stored)
    && Inv(s.stored) && Synced(s.stored)
    && Inv(s.cached) && Synced(s.cached) && SameShape(s.cached, s.stored)
  }

  /** Operations that ended in `after`, and the blocks they gave to log_write, in some order. */
  datatype Txn = Txn(after: Fs, blocks: seq<nat>)

  ghost predicate Valid(g: Log.Geometry, s: State, t: Txn) {
    && Inv(t.after) && Synced(t.after) && LogsMeta(s.cached.(log := {}), t.after)
    && |t.blocks| < g.size && (forall x: nat :: x in t.blocks <==> x in t.after.log)
  }

  /** The blocks as commit() finds them in the buffer cache. */
  ghost function CachedBlocks(s: State, t: Txn): Log.Disk
    requires |t.after.blk| == |s.disk| && forall b | b in t.blocks :: t.after.inodestart <= b
  {
    seq(|s.disk|, b requires 0 <= b < |s.disk| => if b in t.blocks then Encode(t.after, b) else s.disk[b])
  }

  lemma BlocksPlaced(g: Log.Geometry, s: State, t: Txn)
    requires Consistent(g, s) && Valid(g, s, t)
    ensures |t.after.blk| == |s.disk|
    ensures forall b | b in t.blocks :: t.after.inodestart <= b < |s.disk| && !g.InLog(b)
  {
    forall b | b in t.blocks ensures t.after.inodestart <= b < |s.disk| && !g.InLog(b) {
      assert PlaceLogged(s.cached.(log := {}), t.after, b);
    }
  }

  ghost function LogTxn(g: Log.Geometry, s: State, t: Txn): Log.Txn
    requires Consistent(g, s) && Valid(g, s, t)
  {
    BlocksPlaced(g, s, t);
    Log.Txn(t.blocks, CachedBlocks(s, t))
  }

  lemma Ready(g: Log.Geometry, s: State, t: Txn)
    requires Consistent(g, s) && Valid(g, s, t)
    ensures Log.ReadyToCommit(g, s.disk, LogTxn(g, s, t))
  {
    BlocksPlaced(g, s, t);
  }

  /** A commit that completes, or one cut after some writes, with recoveries cut too before one completes. */
  datatype Event = Commits(txn: Txn) | Crashes(txn: Txn, cut: nat, recoveries: seq<nat>)

  ghost predicate Possible(g: Log.Geometry, s: State, ev: Event)
    requires Consistent(g, s)
  {
    Valid(g, s, ev.txn) && (Ready(g, s, ev.txn); Log.Admissible(g, s.disk, LogEvent(g, s, ev)))
  }

  ghost function LogEvent(g: Log.Geometry, s: State, ev: Event): Log.Event
    requires Consistent(g, s) && Valid(g, s, ev.txn)
  {
    match ev
    case Commits(t) => Log.Commits(LogTxn(g, s, t))
    case Crashes(t, k, ks) => Log.Crashes(LogTxn(g, s, t), k, ks)
  }

  /** After a crash the machine starts from what the disk holds. */
  ghost function Next(g: Log.Geometry, s: State, ev: Event): State
    requires Consistent(g, s) && Possible(g, s, ev)
  {
    var e := LogEvent(g, s, ev);
    BlocksPlaced(g, s, ev.txn);
    var stored := if Log.Durable(e) then Install(s.stored, ev.txn.after) else s.stored;
    State(Log.Step(g, s.disk, e), stored, if ev.Commits? then ev.txn.after.(log := {}) else stored)
  }

  /** Home blocks after an event: the logged ones new if the transaction is durable, all old otherwise. */
  lemma HomeBlocks(g: Log.Geometry, s: State, ev: Event)
    requires Consistent(g, s) && Possible(g, s, ev)
    ensures var e := LogEvent(g, s, ev);
            Log.HomeEq(g, Log.Step(g, s.disk, e), if Log.Durable(e) then e.txn.cache else s.disk)
  {
    Ready(g, s, ev.txn);
    var t := LogTxn(g, s, ev.txn);
    match ev
    case Commits(_) => Log.CommitInstalls(g, s.disk, t);
    case Crashes(_, k, ks) => Log.CrashAtomicity(g, s.disk, t, k, ks);
  }

  lemma NextHolds(g: Log.Geometry, s: State, ev: Event)
    requires Consistent(g, s) && Possible(g, s, ev)
    ensures Holds(Next(g, s, ev).disk, Next(g, s, ev).stored)
  {
    HomeBlocks(g, s, ev);
    BlocksPlaced(g, s, ev.txn);
    var n := Next(g, s, ev);
    forall b ensures HoldsAt(n.disk, n.stored, b) {
      assert HoldsAt(s.disk, s.stored, b);
      if s.stored.inodestart <= b < |s.disk| {
        InstallKeeps(s.cached, s.stored, ev.txn.after, b);
      }
    }
  }

  lemma InstallConsistent(c: Fs, d: Fs, n: Fs)
    requires Inv(c) && SameShape(c, d) && Inv(n) && Synced(n) && LogsMeta(c.(log := {}), n)
    ensures |d.blk| == |n.blk| && Inv(Install(d, n)) && Synced(Install(d, n)) && SameLayout(d, Install(d, n))
    ensures SameShape(n.(log := {}), Install(d, n)) && SameShape(Install(d, n), Install(d, n)) && Inv(n.(log := {}))
  {
    var e := Install(d, n);
    InstallShape(c, d, n);
    ShapeKeepsInv(n, e);
    LogPlaysNoPart(n, {});
    forall b ensures ShapeAt(n.(log := {}), e, b) {
      assert ShapeAt(n, e, b);
    }
  }

  lemma NextConsistent(g: Log.Geometry, s: State, ev: Event)
    requires Consistent(g, s) && Possible(g, s, ev)
    ensures Consistent(g, Next(g, s, ev))
  {
    NextHolds(g, s, ev);
    InstallConsistent(s.cached, s.stored, ev.txn.after);
    assert SameShape(s.stored, s.stored);
  }

  datatype Option<T> = None | Some(value: T)

  /** The state after a history; None if some event was not possible. */
  ghost function Run(g: Log.Geometry, s: State, evs: seq<Event>): Option<State>
    requires Consistent(g, s)
    decreases |evs|
  {
    if evs == [] then Some(s)
    else if !Possible(g, s, evs[0]) then None
    else
      NextConsistent(g, s, evs[0]);
      Run(g, Next(g, s, evs[0]), evs[1..])
  }

  /** The transaction reached the disk: its commit went through, or its header was written before the cut. */
  predicate Durable(ev: Event) {
    ev.Commits? || (ev.txn.blocks != [] && ev.cut > |ev.txn.blocks|)
  }

  /** What the last transaction of a history that reached the disk had made of the file system. */
  function LastDurable(first: Fs, evs: seq<Event>): Fs
    decreases |evs|
  {
    if evs == [] then first else LastDurable(if Durable(evs[0]) then evs[0].txn.after else first, evs[1..])
  }

  lemma NextShape(g: Log.Geometry, s: State, ev: Event, last: Fs)
    requires Consistent(g, s) && Possible(g, s, ev) && SameShape(last, s.stored)
    ensures SameShape(if Durable(ev) then ev.txn.after else last, Next(g, s, ev).stored)
  {
    InstallShape(s.cached, s.stored, ev.txn.after);
  }

  /**
    * Crash consistency. Over every history of transactions that commit or are cut, and of recoveries that
    * are cut, from a consistent state: the log is empty, the disk holds a file system that satisfies the
    * invariant, with its inodes in step, and bitmap, inodes and block addresses are those the last
    * transaction that reached the disk had left.
    */
  lemma {:induction false} CrashConsistent(g: Log.Geometry, s: State, evs: seq<Event>, last: Fs)
    requires Consistent(g, s) && SameShape(last, s.stored) && Run(g, s, evs).Some?
    ensures var r := Run(g, s, evs).value;
            && Log.CleanLog(g, r.disk) && Holds(r.disk, r.stored) && Inv(r.stored) && Synced(r.stored)
            && SameShape(LastDurable(last, evs), r.stored)
    decreases |evs|
  {
    if evs != [] {
      NextConsistent(g, s, evs[0]);
      NextShape(g, s, evs[0], last);
      CrashConsistent(g, Next(g, s, evs[0]), evs[1..], if Durable(evs[0]) then evs[0].txn.after else last);
    }
  }

  // The contents of files

  ghost predicate DataAt(c: Fs, d: Fs, b: int) {
    b in c.own && 0 <= b < |c.blk| && b < |d.blk| ==> d.blk[b] == c.blk[b]
  }

  ghost predicate SameData(c: Fs, d: Fs) {
    forall b :: DataAt(c, d, b)
  }

  /** No transaction of the history had a user copy that failed half-way. */
  ghost predicate Untorn(g: Log.Geometry, s: State, evs: seq<Event>)
    requires Consistent(g, s)
    decreases |evs|
  {
    evs == [] ||
    (&& Possible(g, s, evs[0]) && LogsData(s.cached.(log := {}), evs[0].txn.after)
     && (NextConsistent(g, s, evs[0]); Untorn(g, Next(g, s, evs[0]), evs[1..])))
  }

  lemma InstallData(c: Fs, d: Fs, n: Fs)
    requires Inv(c) && SameShape(c, d) && SameData(c, d) && LogsMeta(c.(log := {}), n) && LogsData(c.(log := {}), n)
    ensures |d.blk| == |n.blk| && SameData(n, Install(d, n))
  {
    forall b ensures DataAt(n, Install(d, n), b) {
      assert DataAt(c, d, b) && OwnLogged(c.(log := {}), n, b) && DataLogged(c.(log := {}), n, b);
    }
  }

  lemma NextData(g: Log.Geometry, s: State, ev: Event, last: Fs)
    requires Consistent(g, s) && Possible(g, s, ev) && LogsData(s.cached.(log := {}), ev.txn.after)
    requires SameData(s.cached, s.stored) && SameData(last, s.stored)
    ensures var n := Next(g, s, ev);
            SameData(n.cached, n.stored) && SameData(if Durable(ev) then ev.txn.after else last, n.stored)
  {
    var n, after := Next(g, s, ev), ev.txn.after;
    InstallData(s.cached, s.stored, after);
    forall b ensures DataAt(n.cached, n.stored, b) {
      assert DataAt(after, Install(s.stored, after), b);
    }
  }

  lemma SameBytes(c: Fs, d: Fs, i: int, p: int)
    requires Inv(c) && SameShape(c, d) && SameData(c, d)
    ensures FileByte(d, i, p) == FileByte(c, i, p)
  {
    if p >= 0 {
      var t := DataSlot(i, p / BSIZE);
      ShapeReads(c, d, t);
      assert SlotOk(c, t) && DataAt(c, d, At(c, t));
    }
  }

  /**
    * And if no user copy failed half-way, every file on the recovered disk is, byte for byte, what the last
    * transaction that reached the disk had made of it.
    */
  lemma {:induction false} CrashKeepsFiles(g: Log.Geometry, s: State, evs: seq<Event>, last: Fs)
    requires Consistent(g, s) && Run(g, s, evs).Some? && Untorn(g, s, evs)
    requires Inv(last) && SameShape(last, s.stored) && SameData(last, s.stored) && SameData(s.cached, s.stored)
    ensures var r := Run(g, s, evs).value;
            && Inv(LastDurable(last, evs))
            && forall i, p :: FileByte(r.stored, i, p) == FileByte(LastDurable(last, evs), i, p)
    decreases |evs|
  {
    if evs == [] {
      forall i, p ensures FileByte(s.stored, i, p) == FileByte(last, i, p) {
        SameBytes(last, s.stored, i, p);
      }
    } else {
      NextConsistent(g, s, evs[0]);
      NextShape(g, s, evs[0], last);
      NextData(g, s, evs[0], last);
      CrashKeepsFiles(g, Next(g, s, evs[0]), evs[1..], if Durable(evs[0]) then evs[0].txn.after else last);
    }
  }

  // Where histories start, and what makes a transaction

  /** A disk that holds fs, with zeros before the inode blocks, where the log is. */
  function Format(fs: Fs): Log.Disk
    requires 0 <= fs.inodestart
  {
    seq(|fs.blk|, b requires 0 <= b < |fs.blk| =>
      if b < fs.inodestart then seq(WORDS, _ => 0) else Encode(fs, b))
  }

  /** A freshly made image, mounted. */
  lemma FormatConsistent(g: Log.Geometry, fs: Fs)
    requires Inv(fs) && Synced(fs) && Placed(g, fs) && 1 <= g.size <= WORDS
    ensures Consistent(g, State(Format(fs), fs, fs))
  {
    var d := Format(fs);
    assert d[g.start] == seq(WORDS, _ => 0);
    assert Log.ReadHead(d[g.start]) == [];
    forall b ensures HoldsAt(d, fs, b) {
    }
  }

  lemma {:induction false} Listing(s: set<int>) returns (r: seq<nat>)
    requires forall x | x in s :: x >= 0
    ensures |r| == |s| && forall x: nat :: x in r <==> x in s
    decreases |s|
  {
    if |s| == 0 {
      r := [];
    } else {
      var x := SomeMember(s);
      r := Listing(s - {x});
      r := r + [x];
    }
  }

  /**
    * Operations one after another, such as those begin_op admits to one commit, log together what each of them
    * logged.
    */
  lemma OperationsTogether(c: Fs, m: Fs, n: Fs)
    requires LogsMeta(c.(log := {}), m) && LogsMeta(m.(log := {}), n)
    ensures LogsMeta(c.(log := {}), n.(log := m.log + n.log))
    ensures LogsData(c.(log := {}), m) && LogsData(m.(log := {}), n) ==>
            LogsData(c.(log := {}), n.(log := m.log + n.log))
  {
    var e, k := m.(log := {}), n.(log := m.log + n.log);
    forall b ensures OwnLogged(m, k, b) && BitLogged(m, k, b) && InodeLogged(m, k, b) && PlaceLogged(m, k, b) {
      assert OwnLogged(e, n, b) && BitLogged(e, n, b) && InodeLogged(e, n, b) && PlaceLogged(e, n, b);
    }
    LogsMetaTrans(c.(log := {}), m, k);
    if LogsData(c.(log := {}), m) && LogsData(e, n) {
      forall b ensures DataLogged(m, k, b) {
        assert DataLogged(e, n, b);
      }
      LogsDataTrans(c.(log := {}), m, k);
    }
  }

  /** What such operations leave is a transaction, if the log has room for the blocks they logged. */
  lemma IsTransaction(g: Log.Geometry, s: State, n: Fs) returns (t: Txn)
    requires Consistent(g, s) && Inv(n) && Synced(n) && LogsMeta(s.cached.(log := {}), n) && |n.log| < g.size
    ensures t.after == n && |t.blocks| == |n.log| && Valid(g, s, t)
  {
    forall x | x in n.log ensures x >= 0 {
      assert PlaceLogged(s.cached.(log := {}), n, x);
    }
    var blocks := Listing(n.log);
    t := Txn(n, blocks);
  }

  /**
    * A filewrite operation from a consistent state is a transaction, also one with a user copy that fails;
    * and it is untorn if the copy does not.
    */
  method WriteTransaction(fs: FileSystem, f: File, src: seq<Byte>, avail: int, ghost g: Log.Geometry, ghost s: State)
    returns (r: int, ghost t: Txn)
    requires Consistent(g, s) && s.cached == fs.View().(log := {}) && OpLimit(fs.size) < g.size
    requires FsFiles.Ready(fs.View(), f.inum) && 0 <= f.off < UINT && |src| <= CHUNK && 0 <= avail
    modifies fs, f`off
    ensures Valid(g, s, t) && t.after == fs.View()
    ensures avail >= |src| ==> LogsData(s.cached.(log := {}), t.after)
  {
    ghost var n, done, spill;
    r, n, done, spill := fs.WriteOp(f, src, avail, fs.View());
    t := IsTransaction(g, s, n);
  }

  /** So is an itrunc. */
  method TruncateTransaction(fs: FileSystem, i: int, ghost g: Log.Geometry, ghost s: State) returns (ghost t: Txn)
    requires Consistent(g, s) && s.cached == fs.View() && fs.log == {} && 0 <= i < |fs.ino|
    modifies fs
    ensures t.after == fs.View() && (|t.after.log| < g.size ==> Valid(g, s, t))
    ensures LogsData(s.cached.(log := {}), t.after)
  {
    TruncateResult(fs.View(), i);
    TruncateLogged(fs.View(), i);
    var panic := fs.Itrunc(i);
    t := Txn(fs.View(), []);
    if |fs.log| < g.size {
      t := IsTransaction(g, s, fs.View());
    }
  }
}
