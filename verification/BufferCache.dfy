/**
 The block cache of kernel/bio.c as every process sees it, together with the pins that
 log_write and install_trans of kernel/log.c put on it.

 A state machine: each step is what one process does under bcache.lock, or with the buffer's
 sleep-lock held, so runs of the machine are all interleavings of bread, modify, log_write, bwrite
 and brelse by any number of processes. The code, with its LRU list, is in LruList.dfy.
 */
module BufferCache {

  type Data = seq<int>
  type Handle = nat                  // one bread() and the brelse() that ends it
  datatype Key = Key(dev: nat, blockno: nat)
  datatype Option<T> = None | Some(value: T)

  /** struct buf, with the holder of its sleep-lock. */
  datatype Buf = Buf(key: Key, valid: bool, refcnt: nat, owner: Option<Handle>, data: Data)

  // Changes bget and brelse make to the table; the code below is proved against these

  function Ref(bufs: seq<Buf>, i: nat): seq<Buf>
    requires i < |bufs|
  {
    bufs[i := bufs[i].(refcnt := bufs[i].refcnt + 1)]
  }

  function Recycle(bufs: seq<Buf>, i: nat, key: Key): seq<Buf>
    requires i < |bufs|
  {
    bufs[i := bufs[i].(key := key, valid := false, refcnt := 1)]
  }

  function Unref(bufs: seq<Buf>, i: nat): seq<Buf>
    requires i < |bufs| && bufs[i].refcnt > 0
  {
    bufs[i := bufs[i].(refcnt := bufs[i].refcnt - 1)]
  }

  // The machine

  /**
   `disk` is the device, `newest` the logical disk the file system believes in. `users[i]` are the
   bread() calls that hold a reference to buffer i, `pinned` the buffers held by the log header,
   `dirty` the locked buffers changed since their last log_write or bwrite.
   */
  datatype Cache = Cache(
    bufs: seq<Buf>,
    users: seq<set<Handle>>,
    disk: map<Key, Data>,
    newest: map<Key, Data>,
    header: set<Key>,
    pinned: set<nat>,
    dirty: set<nat>,
    committing: bool)

  datatype Action =
    | Hit(h: Handle, i: nat, key: Key)        // bget finds the block
    | Miss(h: Handle, i: nat, key: Key)       // bget recycles buffer i
    | Lock(h: Handle, i: nat)                 // acquiresleep
    | Fill(h: Handle, i: nat)                 // virtio_disk_rw(b, 0); valid = 1
    | Modify(h: Handle, i: nat, data: Data)
    | LogWrite(h: Handle, i: nat)
    | WriteBack(h: Handle, i: nat)            // bwrite
    | Unlock(h: Handle, i: nat)               // brelse: releasesleep
    | Drop(h: Handle, i: nat)                 // brelse: refcnt--
    | StartCommit
    | Unpin(h: Handle, i: nat)                // install_trans: bunpin after the home write
    | EndCommit

  predicate Owns(c: Cache, h: Handle, i: nat) {
    i < |c.bufs| && c.bufs[i].owner == Some(h)
  }

  predicate Cached(c: Cache, key: Key) {
    exists i | 0 <= i < |c.bufs| :: c.bufs[i].key == key
  }

  predicate FreshHandle(c: Cache, h: Handle) {
    forall i | 0 <= i < |c.users| :: h !in c.users[i]
  }

  predicate Enabled(c: Cache, a: Action)
    requires |c.users| == |c.bufs|
  {
    match a
    case Hit(h, i, key) => i < |c.bufs| && c.bufs[i].key == key && key.dev != 0 && FreshHandle(c, h)
    case Miss(h, i, key) =>
      && i < |c.bufs| && c.bufs[i].refcnt == 0
      && key in c.disk && key.dev != 0 && !Cached(c, key) && FreshHandle(c, h)
    case Lock(h, i) => i < |c.bufs| && h in c.users[i] && c.bufs[i].owner == None
    case Fill(h, i) => Owns(c, h, i) && !c.bufs[i].valid && c.bufs[i].key in c.disk
    case Modify(h, i, _) => Owns(c, h, i) && c.bufs[i].valid
    case LogWrite(h, i) => Owns(c, h, i) && c.bufs[i].valid && !c.committing
    case WriteBack(h, i) => Owns(c, h, i) && c.bufs[i].valid
    // the caller has passed every change to log_write or bwrite before brelse
    case Unlock(h, i) => Owns(c, h, i) && i !in c.dirty
    case Drop(h, i) => i < |c.bufs| && h in c.users[i] && !Owns(c, h, i) && c.bufs[i].refcnt > 0
    case StartCommit => !c.committing
    // install_trans unpins each block right after writing it to its home
    case Unpin(h, i) =>
      && Owns(c, h, i) && c.committing && i in c.pinned && i !in c.dirty && c.bufs[i].refcnt > 0
      && c.bufs[i].key in c.disk && c.bufs[i].data == c.disk[c.bufs[i].key]
    case EndCommit => c.committing && c.pinned == {}
  }

  function Step(c: Cache, a: Action): Cache
    requires |c.users| == |c.bufs| && Enabled(c, a)
  {
    match a
    case Hit(h, i, key) =>
      c.(bufs := Ref(c.bufs, i), users := c.users[i := c.users[i] + {h}])
    case Miss(h, i, key) =>
      c.(bufs := Recycle(c.bufs, i, key), users := c.users[i := c.users[i] + {h}])
    case Lock(h, i) =>
      c.(bufs := c.bufs[i := c.bufs[i].(owner := Some(h))])
    case Fill(h, i) =>
      c.(bufs := c.bufs[i := c.bufs[i].(data := c.disk[c.bufs[i].key], valid := true)])
    case Modify(h, i, d) =>
      c.(bufs := c.bufs[i := c.bufs[i].(data := d)],
         newest := c.newest[c.bufs[i].key := d], dirty := c.dirty + {i})
    case LogWrite(h, i) =>
      if c.bufs[i].key in c.header then c.(dirty := c.dirty - {i})
      else c.(bufs := Ref(c.bufs, i), header := c.header + {c.bufs[i].key},
              pinned := c.pinned + {i}, dirty := c.dirty - {i})
    case WriteBack(h, i) =>
      c.(disk := c.disk[c.bufs[i].key := c.bufs[i].data], dirty := c.dirty - {i})
    case Unlock(h, i) =>
      c.(bufs := c.bufs[i := c.bufs[i].(owner := None)])
    case Drop(h, i) =>
      c.(bufs := Unref(c.bufs, i), users := c.users[i := c.users[i] - {h}])
    case StartCommit => c.(committing := true)
    case Unpin(h, i) => c.(bufs := Unref(c.bufs, i), pinned := c.pinned - {i})
    case EndCommit => c.(header := {}, committing := false)
  }

  // The invariant, in four parts

  ghost predicate Shape(c: Cache) {
    && |c.users| == |c.bufs|
    && c.newest.Keys == c.disk.Keys
    && (forall i | i in c.pinned :: i < |c.bufs|)
    && (forall i | i in c.dirty :: i < |c.bufs|)
  }

  /** Reference counts count the users plus the log's pin; a buffer in use is a real block. */
  ghost predicate Counted(c: Cache)
    requires Shape(c)
  {
    forall i | 0 <= i < |c.bufs| :: CountedAt(c, i)
  }

  ghost predicate CountedAt(c: Cache, i: nat)
    requires i < |c.bufs| == |c.users|
  {
    var b := c.bufs[i];
    && b.refcnt == |c.users[i]| + (if i in c.pinned then 1 else 0)
    && (b.owner.Some? ==> b.owner.value in c.users[i])
    && (i in c.dirty ==> b.owner.Some? && b.valid)
    && (b.valid || b.refcnt > 0 ==> b.key.dev != 0)
    && (b.key.dev != 0 ==> b.key in c.disk)
  }

  /** At most one buffer holds a block. */
  ghost predicate Unique(bufs: seq<Buf>) {
    forall i, j | 0 <= i < |bufs| && 0 <= j < |bufs| && i != j && bufs[i].key.dev != 0 :: bufs[i].key != bufs[j].key
  }

  /** A pinned buffer holds a block of the log header; until commit, each header block is pinned. */
  ghost predicate Pins(c: Cache)
    requires Shape(c)
  {
    && (forall i | i in c.pinned :: c.bufs[i].valid && c.bufs[i].key in c.header)
    && (!c.committing ==>
      forall k | k in c.header :: exists i | 0 <= i < |c.bufs| :: i in c.pinned && c.bufs[i].key == k)
  }

  /** Valid buffers hold the newest contents; a block that differs on disk is dirty or pinned. */
  ghost predicate Agrees(c: Cache)
    requires Shape(c)
  {
    && (forall i | 0 <= i < |c.bufs| && c.bufs[i].valid && c.bufs[i].key in c.newest ::
          c.bufs[i].data == c.newest[c.bufs[i].key])
    && (forall k | k in c.disk && c.disk[k] != c.newest[k] :: Protected(c, k))
  }

  ghost predicate Held(c: Cache, i: nat)
    requires i < |c.bufs|
  {
    c.bufs[i].valid && (i in c.pinned || i in c.dirty)
  }

  /** Some buffer holds block k and cannot be recycled: it is pinned by the log, or dirty and locked. */
  ghost predicate Protected(c: Cache, k: Key)
    requires Shape(c)
  {
    exists i | 0 <= i < |c.bufs| :: Held(c, i) && c.bufs[i].key == k
  }

  ghost predicate Inv(c: Cache) {
    Shape(c) && Counted(c) && Unique(c.bufs) && Pins(c) && Agrees(c)
  }

  /** binit: NBUF buffers, none of them for a real device. */
  ghost predicate Initial(c: Cache) {
    && |c.users| == |c.bufs|
    && (forall i | 0 <= i < |c.bufs| ::
          c.bufs[i].key.dev == 0 && !c.bufs[i].valid && c.bufs[i].refcnt == 0 && c.bufs[i].owner == None
          && c.users[i] == {})
    && c.newest == c.disk && c.header == {} && c.pinned == {} && c.dirty == {} && !c.committing
  }

  lemma InitialInv(c: Cache)
    requires Initial(c)
    ensures Inv(c)
  {
  }

  // Every step keeps the invariant

  /** `d` differs from `c` at most in what concerns buffer i; disk and header keep their keys. */
  ghost predicate OnlyAt(c: Cache, d: Cache, i: nat) {
    && |d.bufs| == |c.bufs| && |d.users| == |c.users|
    && (forall j | 0 <= j < |c.bufs| && j != i :: d.bufs[j] == c.bufs[j])
    && (forall j | 0 <= j < |c.users| && j != i :: d.users[j] == c.users[j])
    && d.pinned - {i} == c.pinned - {i} && d.dirty - {i} == c.dirty - {i}
    && d.disk.Keys == c.disk.Keys && d.newest.Keys == c.newest.Keys
    && d.committing == c.committing
  }

  lemma CountedOnlyAt(c: Cache, d: Cache, i: nat)
    requires Shape(c) && Counted(c) && i < |c.bufs| && OnlyAt(c, d, i) && CountedAt(d, i)
    ensures Shape(d) && Counted(d)
  {
    assert forall j :: j in d.pinned && j != i ==> j in c.pinned - {i};
    assert forall j :: j in d.dirty && j != i ==> j in c.dirty - {i};
    forall j | 0 <= j < |d.bufs| ensures CountedAt(d, j) {
      if j != i {
        assert CountedAt(c, j);
        assert j in d.pinned <==> j in d.pinned - {i};
        assert j in c.pinned <==> j in c.pinned - {i};
        assert j in d.dirty <==> j in d.dirty - {i};
        assert j in c.dirty <==> j in c.dirty - {i};
      }
    }
  }

  lemma SameKeysUnique(a: seq<Buf>, b: seq<Buf>)
    requires |a| == |b| && Unique(a)
    requires forall j | 0 <= j < |a| :: b[j].key == a[j].key
    ensures Unique(b)
  {
  }

  lemma RecycleUnique(bufs: seq<Buf>, i: nat, key: Key)
    requires Unique(bufs) && i < |bufs| && forall j | 0 <= j < |bufs| :: bufs[j].key != key
    ensures Unique(Recycle(bufs, i, key))
  {
  }

  /** Pinned buffers keep their block and their pin, and the header does not change. */
  lemma PinsCarry(c: Cache, d: Cache)
    requires Shape(c) && Pins(c) && Shape(d) && |d.bufs| == |c.bufs|
    requires d.pinned == c.pinned && d.header == c.header && (c.committing ==> d.committing)
    requires forall j | j in c.pinned :: d.bufs[j].key == c.bufs[j].key && (c.bufs[j].valid ==> d.bufs[j].valid)
    ensures Pins(d)
  {
    if !d.committing {
      forall k | k in d.header ensures exists j | 0 <= j < |d.bufs| :: j in d.pinned && d.bufs[j].key == k {
        var j :| 0 <= j < |c.bufs| && j in c.pinned && c.bufs[j].key == k;
        assert j in d.pinned && d.bufs[j].key == k;
      }
    }
  }

  /** The buffer keeps its block: uniqueness and pins carry over. */
  lemma SameBlock(c: Cache, d: Cache, i: nat)
    requires Inv(c) && Shape(d) && i < |c.bufs| && OnlyAt(c, d, i)
    requires d.bufs[i].key == c.bufs[i].key && (c.bufs[i].valid ==> d.bufs[i].valid)
    requires d.pinned == c.pinned && d.header == c.header
    ensures Unique(d.bufs) && Pins(d)
  {
    SameKeysUnique(c.bufs, d.bufs);
    PinsCarry(c, d);
  }

  /** Only the one buffer of a block can protect it. */
  lemma NotHeldNotProtected(c: Cache, i: nat)
    requires Shape(c) && Unique(c.bufs) && i < |c.bufs| && c.bufs[i].key.dev != 0 && !Held(c, i)
    ensures !Protected(c, c.bufs[i].key)
  {
    forall j | 0 <= j < |c.bufs| && c.bufs[j].key == c.bufs[i].key ensures j == i {
    }
  }

  /** A protected block stays protected if the buffers that hold it stay held. */
  lemma ProtectedStays(c: Cache, d: Cache, k: Key)
    requires Shape(c) && Shape(d) && |c.bufs| == |d.bufs| && Protected(c, k)
    requires forall i | 0 <= i < |c.bufs| && Held(c, i) && c.bufs[i].key == k :: Held(d, i) && d.bufs[i].key == k
    ensures Protected(d, k)
  {
    var i :| 0 <= i < |c.bufs| && Held(c, i) && c.bufs[i].key == k;
    assert Held(d, i) && d.bufs[i].key == k;
  }

  /** Steps that change neither contents nor disk keep the agreement with the logical disk. */
  lemma SameContents(c: Cache, d: Cache, i: nat)
    requires Inv(c) && Shape(d) && i < |c.bufs| && OnlyAt(c, d, i)
    requires d.bufs[i].key == c.bufs[i].key && d.bufs[i].valid == c.bufs[i].valid && d.bufs[i].data == c.bufs[i].data
    requires d.disk == c.disk && d.newest == c.newest
    requires Held(c, i) ==> Held(d, i)
    ensures Agrees(d)
  {
    forall k | k in d.disk && d.disk[k] != d.newest[k] ensures Protected(d, k) {
      forall j | 0 <= j < |c.bufs| && Held(c, j) && c.bufs[j].key == k ensures Held(d, j) && d.bufs[j].key == k {
        if j != i {
          assert j in c.pinned ==> j in d.pinned - {i};
          assert j in c.dirty ==> j in d.dirty - {i};
        }
      }
      ProtectedStays(c, d, k);
    }
  }

  lemma HitKeepsInv(c: Cache, h: Handle, i: nat, key: Key)
    requires Inv(c) && Enabled(c, Hit(h, i, key))
    ensures Inv(Step(c, Hit(h, i, key)))
  {
    var d := Step(c, Hit(h, i, key));
    assert CountedAt(c, i);
    assert h !in c.users[i];
    CountedOnlyAt(c, d, i);
    SameBlock(c, d, i);
    SameContents(c, d, i);
  }

  lemma LockKeepsInv(c: Cache, h: Handle, i: nat)
    requires Inv(c) && Enabled(c, Lock(h, i))
    ensures Inv(Step(c, Lock(h, i)))
  {
    var d := Step(c, Lock(h, i));
    assert CountedAt(c, i);
    CountedOnlyAt(c, d, i);
    SameBlock(c, d, i);
    SameContents(c, d, i);
  }

  lemma UnlockKeepsInv(c: Cache, h: Handle, i: nat)
    requires Inv(c) && Enabled(c, Unlock(h, i))
    ensures Inv(Step(c, Unlock(h, i)))
  {
    var d := Step(c, Unlock(h, i));
    assert CountedAt(c, i);
    CountedOnlyAt(c, d, i);
    SameBlock(c, d, i);
    SameContents(c, d, i);
  }

  lemma DropKeepsInv(c: Cache, h: Handle, i: nat)
    requires Inv(c) && Enabled(c, Drop(h, i))
    ensures Inv(Step(c, Drop(h, i)))
  {
    var d := Step(c, Drop(h, i));
    assert CountedAt(c, i);
    assert |c.users[i] - {h}| == |c.users[i]| - 1;
    CountedOnlyAt(c, d, i);
    SameBlock(c, d, i);
    SameContents(c, d, i);
  }

  /** Recycling loses nothing: a buffer nobody uses and the log does not pin is not the only new copy. */
  lemma VictimIsClean(c: Cache, i: nat)
    requires Inv(c) && i < |c.bufs| && c.bufs[i].refcnt == 0
    ensures c.users[i] == {} && i !in c.pinned && i !in c.dirty
    ensures c.bufs[i].key.dev != 0 ==>
              c.bufs[i].key in c.disk && c.disk[c.bufs[i].key] == c.newest[c.bufs[i].key]
  {
    assert CountedAt(c, i);
    if c.bufs[i].key.dev != 0 {
      NotHeldNotProtected(c, i);
    }
  }

  lemma MissKeepsInv(c: Cache, h: Handle, i: nat, key: Key)
    requires Inv(c) && Enabled(c, Miss(h, i, key))
    ensures Inv(Step(c, Miss(h, i, key)))
  {
    var d := Step(c, Miss(h, i, key));
    VictimIsClean(c, i);
    assert CountedAt(c, i);
    assert c.users[i] + {h} == {h};
    CountedOnlyAt(c, d, i);
    RecycleUnique(c.bufs, i, key);
    PinsCarry(c, d);
    MissAgrees(c, d, i);
  }

  lemma MissAgrees(c: Cache, d: Cache, i: nat)
    requires Shape(c) && Agrees(c) && Shape(d) && i < |c.bufs| && OnlyAt(c, d, i)
    requires !Held(c, i) && !d.bufs[i].valid
    requires d.disk == c.disk && d.newest == c.newest && d.pinned == c.pinned && d.dirty == c.dirty
    ensures Agrees(d)
  {
    forall k | k in d.disk && d.disk[k] != d.newest[k] ensures Protected(d, k) {
      ProtectedStays(c, d, k);
    }
  }

  lemma FillKeepsInv(c: Cache, h: Handle, i: nat)
    requires Inv(c) && Enabled(c, Fill(h, i))
    ensures Inv(Step(c, Fill(h, i)))
  {
    var d := Step(c, Fill(h, i));
    var k := c.bufs[i].key;
    assert CountedAt(c, i);
    CountedOnlyAt(c, d, i);
    SameBlock(c, d, i);
    NotHeldNotProtected(c, i);
    forall k' | k' in d.disk && d.disk[k'] != d.newest[k'] ensures Protected(d, k') {
      ProtectedStays(c, d, k');
    }
  }

  lemma ModifyKeepsInv(c: Cache, h: Handle, i: nat, data: Data)
    requires Inv(c) && Enabled(c, Modify(h, i, data))
    ensures Inv(Step(c, Modify(h, i, data)))
  {
    var d := Step(c, Modify(h, i, data));
    assert CountedAt(c, i);
    CountedOnlyAt(c, d, i);
    SameBlock(c, d, i);
    assert Held(d, i) && d.bufs[i].key == c.bufs[i].key;
    forall k | k in d.disk && d.disk[k] != d.newest[k] ensures Protected(d, k) {
      if k != c.bufs[i].key {
        ProtectedStays(c, d, k);
      }
    }
  }

  lemma LogWritePins(c: Cache, h: Handle, i: nat)
    requires Inv(c) && Enabled(c, LogWrite(h, i))
    ensures c.bufs[i].key in c.header <==> i in c.pinned
  {
    if c.bufs[i].key in c.header {
      var j :| 0 <= j < |c.bufs| && j in c.pinned && c.bufs[j].key == c.bufs[i].key;
      assert CountedAt(c, i) && CountedAt(c, j);
      assert j == i;
    }
  }

  lemma LogWriteKeepsInv(c: Cache, h: Handle, i: nat)
    requires Inv(c) && Enabled(c, LogWrite(h, i))
    ensures Inv(Step(c, LogWrite(h, i)))
  {
    var d := Step(c, LogWrite(h, i));
    LogWritePins(c, h, i);
    assert CountedAt(c, i);
    CountedOnlyAt(c, d, i);
    SameKeysUnique(c.bufs, d.bufs);
    forall k | k in d.header ensures exists j | 0 <= j < |d.bufs| :: j in d.pinned && d.bufs[j].key == k {
      if k in c.header {
        var j :| 0 <= j < |c.bufs| && j in c.pinned && c.bufs[j].key == k;
        assert j in d.pinned && d.bufs[j].key == k;
      } else {
        assert i in d.pinned && d.bufs[i].key == k;
      }
    }
    SameContents(c, d, i);
  }

  lemma WriteBackKeepsInv(c: Cache, h: Handle, i: nat)
    requires Inv(c) && Enabled(c, WriteBack(h, i))
    ensures Inv(Step(c, WriteBack(h, i)))
  {
    var d := Step(c, WriteBack(h, i));
    assert CountedAt(c, i);
    CountedOnlyAt(c, d, i);
    SameBlock(c, d, i);
    forall k | k in d.disk && d.disk[k] != d.newest[k] ensures Protected(d, k) {
      assert k != c.bufs[i].key;
      ProtectedStays(c, d, k);
    }
  }

  lemma UnpinKeepsInv(c: Cache, h: Handle, i: nat)
    requires Inv(c) && Enabled(c, Unpin(h, i))
    ensures Inv(Step(c, Unpin(h, i)))
  {
    var d := Step(c, Unpin(h, i));
    assert CountedAt(c, i);
    CountedOnlyAt(c, d, i);
    SameKeysUnique(c.bufs, d.bufs);
    assert Pins(d);
    forall k | k in d.disk && d.disk[k] != d.newest[k] ensures Protected(d, k) {
      assert k != c.bufs[i].key;
      ProtectedStays(c, d, k);
    }
  }

  lemma CommitKeepsInv(c: Cache, a: Action)
    requires Inv(c) && Enabled(c, a) && (a.StartCommit? || a.EndCommit?)
    ensures Inv(Step(c, a))
  {
    var d := Step(c, a);
    forall i | 0 <= i < |d.bufs| ensures CountedAt(d, i) {
      assert CountedAt(c, i);
    }
    forall k | k in d.disk && d.disk[k] != d.newest[k] ensures Protected(d, k) {
      ProtectedStays(c, d, k);
    }
  }

  lemma StepKeepsInv(c: Cache, a: Action)
    requires Inv(c) && Enabled(c, a)
    ensures Inv(Step(c, a))
  {
    match a
    case Hit(h, i, key) => HitKeepsInv(c, h, i, key);
    case Miss(h, i, key) => MissKeepsInv(c, h, i, key);
    case Lock(h, i) => LockKeepsInv(c, h, i);
    case Fill(h, i) => FillKeepsInv(c, h, i);
    case Modify(h, i, data) => ModifyKeepsInv(c, h, i, data);
    case LogWrite(h, i) => LogWriteKeepsInv(c, h, i);
    case WriteBack(h, i) => WriteBackKeepsInv(c, h, i);
    case Unlock(h, i) => UnlockKeepsInv(c, h, i);
    case Drop(h, i) => DropKeepsInv(c, h, i);
    case Unpin(h, i) => UnpinKeepsInv(c, h, i);
    case StartCommit => CommitKeepsInv(c, a);
    case EndCommit => CommitKeepsInv(c, a);
  }

  // Whole runs

  /** The state after the actions `acts` from `c`, if each was enabled when its turn came. */
  ghost function Exec(c: Cache, acts: seq<Action>): Option<Cache>
    requires |c.users| == |c.bufs|
    ensures Exec(c, acts).Some? ==> |Exec(c, acts).value.users| == |Exec(c, acts).value.bufs|
  {
    if acts == [] then Some(c)
    else
      match Exec(c, acts[..|acts| - 1])
      case None => None
      case Some(d) => if Enabled(d, acts[|acts| - 1]) then Some(Step(d, acts[|acts| - 1])) else None
  }

  ghost predicate Reachable(c: Cache) {
    exists c0, acts :: Initial(c0) && Exec(c0, acts) == Some(c)
  }

  lemma {:induction false} RunKeepsInv(c: Cache, acts: seq<Action>)
    requires Inv(c) && Exec(c, acts).Some?
    ensures Inv(Exec(c, acts).value)
  {
    if acts != [] {
      var init := acts[..|acts| - 1];
      RunKeepsInv(c, init);
      StepKeepsInv(Exec(c, init).value, acts[|acts| - 1]);
    }
  }

  /**
   The cache agrees with the logical disk, over every interleaving: a block is in at most one
   buffer; a valid buffer, which is what bread returns, holds the newest contents; and an unlocked
   valid buffer that differs from disk is named in the log header and pinned.
   */
  lemma CacheAgreement(c: Cache)
    requires Reachable(c)
    ensures |c.users| == |c.bufs|
    ensures forall i, j | 0 <= i < |c.bufs| && 0 <= j < |c.bufs| && i != j && c.bufs[i].key.dev != 0 ::
              c.bufs[i].key != c.bufs[j].key
    ensures forall i | 0 <= i < |c.bufs| && c.bufs[i].valid :: CopyIsNewest(c, i)
    ensures forall i | 0 <= i < |c.bufs| && c.bufs[i].valid && c.bufs[i].owner == None :: CopyIsSafe(c, i)
  {
    ReachableInv(c);
    forall i | 0 <= i < |c.bufs| && c.bufs[i].valid
      ensures CopyIsNewest(c, i) && (c.bufs[i].owner == None ==> CopyIsSafe(c, i))
    {
      assert CountedAt(c, i);
      if !Held(c, i) {
        NotHeldNotProtected(c, i);
      }
    }
  }

  ghost predicate CopyIsNewest(c: Cache, i: nat)
    requires i < |c.bufs|
  {
    c.bufs[i].key in c.newest && c.bufs[i].data == c.newest[c.bufs[i].key]
  }

  ghost predicate CopyIsSafe(c: Cache, i: nat)
    requires i < |c.bufs|
  {
    && c.bufs[i].key in c.disk
    && (c.bufs[i].data != c.disk[c.bufs[i].key] ==>
          c.bufs[i].key in c.header && i in c.pinned && c.bufs[i].refcnt > 0)
  }

  lemma ReachableInv(c: Cache)
    requires Reachable(c)
    ensures Inv(c)
  {
    var c0, acts :| Initial(c0) && Exec(c0, acts) == Some(c);
    InitialInv(c0);
    RunKeepsInv(c0, acts);
  }

  /** Whatever other processes do, a buffer keeps its block while a bread() call refers to it. */
  lemma BlockStaysInUse(c: Cache, a: Action, h: Handle, i: nat)
    requires Reachable(c) && |c.users| == |c.bufs| && Enabled(c, a)
    requires i < |c.bufs| && h in c.users[i]
    ensures Step(c, a).bufs[i].key == c.bufs[i].key
    ensures h in Step(c, a).users[i] || a == Drop(h, i)
  {
    assert c.bufs[i].refcnt > 0 by {
      ReachableInv(c);
      assert CountedAt(c, i) && |c.users[i]| > 0;
    }
  }

  /** While a process has a buffer locked, nobody else changes what is in it. */
  lemma LockedStays(c: Cache, a: Action, h: Handle, i: nat)
    requires Reachable(c) && |c.users| == |c.bufs| && Enabled(c, a) && Owns(c, h, i)
    requires a != Unlock(h, i) && a != Fill(h, i) && !(a.Modify? && a.h == h && a.i == i)
    ensures Owns(Step(c, a), h, i)
    ensures var b, d := c.bufs[i], Step(c, a).bufs[i]; d.key == b.key && d.valid == b.valid && d.data == b.data
  {
    ReachableInv(c);
    assert CountedAt(c, i);
  }

  /** bread's steps after bget has found or recycled buffer i: acquiresleep, and a read if the buffer is not valid. */
  ghost function Bread(c: Cache, h: Handle, i: nat, get: Action): Option<Cache>
    requires |c.users| == |c.bufs|
  {
    var r := Exec(c, [get, Lock(h, i)]);
    if r.Some? && i < |r.value.bufs| && !r.value.bufs[i].valid then Exec(r.value, [Fill(h, i)]) else r
  }

  lemma ExecOne(c: Cache, a: Action)
    requires |c.users| == |c.bufs| && Enabled(c, a)
    ensures Exec(c, [a]) == Some(Step(c, a))
  {
    assert [a][..0] == [];
  }

  lemma ExecTwo(c: Cache, a: Action, b: Action)
    requires |c.users| == |c.bufs| && Enabled(c, a) && Enabled(Step(c, a), b)
    ensures Exec(c, [a, b]) == Some(Step(Step(c, a), b))
  {
    assert [a, b][..1] == [a];
    ExecOne(c, a);
  }

  /** bread of a block whose buffer nobody has locked returns it locked, valid and with the newest contents. */
  lemma BreadDelivers(c: Cache, h: Handle, i: nat, key: Key, get: Action)
    requires Reachable(c) && |c.users| == |c.bufs| && (get == Hit(h, i, key) || get == Miss(h, i, key))
    requires Enabled(c, get) && c.bufs[i].owner == None
    ensures var r := Bread(c, h, i, get);
            && r.Some? && Owns(r.value, h, i) && h in r.value.users[i] && r.value.newest == c.newest
            && var b := r.value.bufs[i]; b.key == key && key in c.newest && b.valid && b.data == c.newest[key]
  {
    ReachableInv(c);
    var c1 := Step(c, get);
    StepKeepsInv(c, get);
    assert CountedAt(c1, i);
    ExecTwo(c, get, Lock(h, i));
    StepKeepsInv(c1, Lock(h, i));
    var c2 := Step(c1, Lock(h, i));
    assert CountedAt(c2, i);
    if !c2.bufs[i].valid {
      ExecOne(c2, Fill(h, i));
      StepKeepsInv(c2, Fill(h, i));
    }
  }

  lemma LogWriteDone(c: Cache, h: Handle, i: nat)
    requires Inv(c) && Enabled(c, LogWrite(h, i))
    ensures var d := Step(c, LogWrite(h, i));
            c.bufs[i].key in d.header && i in d.pinned && i !in d.dirty && d.newest == c.newest
  {
    LogWritePins(c, h, i);
  }

  /** A change passed to log_write is the newest contents, in the log header and pinned, and may be released. */
  lemma LoggedIsKept(c: Cache, h: Handle, i: nat, data: Data)
    requires Reachable(c) && |c.users| == |c.bufs| && Enabled(c, Modify(h, i, data)) && !c.committing
    ensures var r := Exec(c, [Modify(h, i, data), LogWrite(h, i)]);
            && r.Some? && c.bufs[i].key in r.value.header && i in r.value.pinned && i !in r.value.dirty
            && c.bufs[i].key in r.value.newest && r.value.newest[c.bufs[i].key] == data
  {
    ReachableInv(c);
    ModifyKeepsInv(c, h, i, data);
    ExecTwo(c, Modify(h, i, data), LogWrite(h, i));
    LogWriteDone(Step(c, Modify(h, i, data)), h, i);
  }

  /** A change passed to bwrite is on the disk. */
  lemma WrittenIsKept(c: Cache, h: Handle, i: nat, data: Data)
    requires |c.users| == |c.bufs| && Enabled(c, Modify(h, i, data))
    ensures var r := Exec(c, [Modify(h, i, data), WriteBack(h, i)]);
            && r.Some? && i !in r.value.dirty && c.bufs[i].key in r.value.disk && c.bufs[i].key in r.value.newest
            && r.value.disk[c.bufs[i].key] == data && r.value.newest[c.bufs[i].key] == data
  {
    ExecTwo(c, Modify(h, i, data), WriteBack(h, i));
  }
}
