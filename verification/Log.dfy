/**
 The redo log of kernel/log.c: write_log, write_head, install_trans, commit and
 recover_from_log, over a disk whose single-block writes are atomic.

 A block is a sequence of words; the header block holds the count in word 0 and the
 logged block numbers in the words after it, exactly as `struct logheader` does.
 A crash may fall between any two disk writes, also during recovery itself.
 */
module RedoLog {

  type Block = seq<int>
  type Disk = seq<Block>

  /** Where the log lives (log.start, log.size) and how many words a block has. */
  datatype Geometry = Geometry(start: nat, size: nat, words: nat) {
    predicate InLog(b: nat) {
      start <= b < start + size
    }
  }

  datatype Write = Write(bno: nat, data: Block)

  function Apply(d: Disk, w: Write): Disk {
    if w.bno < |d| then d[w.bno := w.data] else d
  }

  /** The disk after the writes `ws`, in order. */
  function ApplyAll(d: Disk, ws: seq<Write>): (r: Disk)
    ensures |r| == |d|
  {
    if ws == [] then d else Apply(ApplyAll(d, ws[..|ws| - 1]), ws[|ws| - 1])
  }

  ghost predicate ValidDisk(g: Geometry, d: Disk) {
    && g.size >= 1
    && g.start + g.size <= |d|
    && g.size <= g.words
    && forall i | 0 <= i < |d| :: |d[i]| == g.words
  }

  /** A list of block numbers the log can hold: home blocks, few enough for the log region. */
  ghost predicate ValidHeader(g: Geometry, n: nat, blocks: seq<nat>) {
    && |blocks| <= g.size - 1
    && forall i | 0 <= i < |blocks| :: blocks[i] < n && !g.InLog(blocks[i])
  }

  /** The two disks agree on every block outside the log region. */
  ghost predicate HomeEq(g: Geometry, a: Disk, b: Disk) {
    |a| == |b| && forall i | 0 <= i < |a| && !g.InLog(i) :: a[i] == b[i]
  }

  /** The two disks agree on the log region. */
  ghost predicate LogEq(g: Geometry, a: Disk, b: Disk) {
    |a| == |b| && forall i | 0 <= i < |a| && g.InLog(i) :: a[i] == b[i]
  }

  // The on-disk header

  /** write_head: overwrite the count and the first entries, keep the rest of the block. */
  function HeadBlock(old_: Block, blocks: seq<nat>): (r: Block)
    requires |blocks| < |old_|
    ensures |r| == |old_|
  {
    [|blocks|] + seq(|blocks|, i requires 0 <= i < |blocks| => blocks[i] as int) + old_[1 + |blocks|..]
  }

  /** The words of `b` form a header: a count that fits, then that many block numbers. */
  predicate IsHead(b: Block) {
    && |b| > 0
    && 0 <= b[0] < |b|
    && forall i | 1 <= i <= b[0] :: b[i] >= 0
  }

  /** read_head. */
  function ReadHead(b: Block): (r: seq<nat>)
    requires IsHead(b)
  {
    seq(b[0], i requires 0 <= i < b[0] => b[1 + i] as nat)
  }

  lemma HeadRoundTrip(old_: Block, blocks: seq<nat>)
    requires |blocks| < |old_|
    ensures IsHead(HeadBlock(old_, blocks))
    ensures ReadHead(HeadBlock(old_, blocks)) == blocks
  {
    var b := HeadBlock(old_, blocks);
    assert forall i | 1 <= i <= |blocks| :: b[i] == blocks[i - 1] as int;
  }

  /** The disk's log header is readable and names blocks the log may install. */
  ghost predicate ValidLog(g: Geometry, d: Disk) {
    && ValidDisk(g, d)
    && IsHead(d[g.start])
    && ValidHeader(g, |d|, ReadHead(d[g.start]))
  }

  /** The log is empty: nothing to install. */
  ghost predicate CleanLog(g: Geometry, d: Disk) {
    ValidLog(g, d) && ReadHead(d[g.start]) == []
  }

  // What each operation writes, in order

  /** write_log: cached block blocks[t] goes to log block t. */
  function LogWrites(g: Geometry, cache: Disk, blocks: seq<nat>): (r: seq<Write>)
    requires forall i | 0 <= i < |blocks| :: blocks[i] < |cache|
  {
    seq(|blocks|, t requires 0 <= t < |blocks| => Write(g.start + 1 + t, cache[blocks[t]]))
  }

  /** install_trans: log block t goes to its home blocks[t]. */
  function InstallWrites(g: Geometry, d: Disk, blocks: seq<nat>): (r: seq<Write>)
    requires g.start + 1 + |blocks| <= |d|
  {
    seq(|blocks|, t requires 0 <= t < |blocks| => Write(blocks[t], d[g.start + 1 + t]))
  }

  /** commit(), with an empty log doing nothing. */
  function CommitWrites(g: Geometry, d: Disk, cache: Disk, blocks: seq<nat>): (r: seq<Write>)
    requires g.start < |d| && |blocks| < |d[g.start]|
    requires g.start + 1 + |blocks| <= |d|
    requires forall i | 0 <= i < |blocks| :: blocks[i] < |cache|
  {
    if blocks == [] then []
    else
      var full := HeadBlock(d[g.start], blocks);
      LogWrites(g, cache, blocks)
      + [Write(g.start, full)]
      + InstallWrites(g, ApplyAll(d, LogWrites(g, cache, blocks)), blocks)
      + [Write(g.start, HeadBlock(full, []))]
  }

  /** recover_from_log(). */
  function RecoverWrites(g: Geometry, d: Disk): (r: seq<Write>)
    requires g.start < |d| && IsHead(d[g.start])
    requires g.start + 1 + |ReadHead(d[g.start])| <= |d|
  {
    InstallWrites(g, d, ReadHead(d[g.start])) + [Write(g.start, HeadBlock(d[g.start], []))]
  }

  // Facts about sequences of writes

  /** `b` is the target of some write in `ws`. */
  ghost predicate Touches(ws: seq<Write>, b: nat) {
    exists t | 0 <= t < |ws| :: ws[t].bno == b
  }

  lemma {:induction false} ApplyUntouched(d: Disk, ws: seq<Write>, b: nat)
    requires b < |d| && !Touches(ws, b)
    ensures ApplyAll(d, ws)[b] == d[b]
  {
    if ws != [] {
      var init := ws[..|ws| - 1];
      assert forall t | 0 <= t < |init| :: init[t] == ws[t];
      ApplyUntouched(d, init, b);
    }
  }

  /** The last write to a block decides its contents, whatever the disk held before. */
  lemma {:induction false} ApplyTouched(d: Disk, e: Disk, ws: seq<Write>, b: nat)
    requires |d| == |e| && b < |d| && Touches(ws, b)
    ensures ApplyAll(d, ws)[b] == ApplyAll(e, ws)[b]
  {
    var last := ws[|ws| - 1];
    if last.bno != b {
      var init := ws[..|ws| - 1];
      var t :| 0 <= t < |ws| && ws[t].bno == b;
      assert init[t].bno == b;
      ApplyTouched(d, e, init, b);
    }
  }

  lemma {:induction false} ApplyConcat(d: Disk, ws: seq<Write>, vs: seq<Write>)
    ensures ApplyAll(d, ws + vs) == ApplyAll(ApplyAll(d, ws), vs)
  {
    if vs == [] {
      assert ws + vs == ws;
    } else {
      assert (ws + vs)[..|ws + vs| - 1] == ws + vs[..|vs| - 1];
      ApplyConcat(d, ws, vs[..|vs| - 1]);
    }
  }

  /** Redoing a list of writes after some prefix of it was already done gives the same disk. */
  lemma RedoAfterPrefix(d: Disk, ws: seq<Write>, k: nat)
    requires k <= |ws|
    ensures ApplyAll(ApplyAll(d, ws[..k]), ws) == ApplyAll(d, ws)
  {
    var e := ApplyAll(d, ws[..k]);
    forall b | 0 <= b < |d| ensures ApplyAll(e, ws)[b] == ApplyAll(d, ws)[b] {
      if Touches(ws, b) {
        ApplyTouched(d, e, ws, b);
      } else {
        assert forall t | 0 <= t < k :: ws[..k][t] == ws[t];
        ApplyUntouched(d, ws[..k], b);
        ApplyUntouched(d, ws, b);
        ApplyUntouched(e, ws, b);
      }
    }
  }

  lemma {:induction false} ApplyKeepsWords(g: Geometry, d: Disk, ws: seq<Write>)
    requires ValidDisk(g, d)
    requires forall t | 0 <= t < |ws| :: |ws[t].data| == g.words
    ensures ValidDisk(g, ApplyAll(d, ws))
  {
    if ws != [] {
      ApplyKeepsWords(g, d, ws[..|ws| - 1]);
    }
  }

  // Recovery

  /** What a completed recovery of `d` leaves in the home blocks. */
  ghost function Recovered(g: Geometry, d: Disk): Disk
    requires ValidLog(g, d)
  {
    ApplyAll(d, InstallWrites(g, d, ReadHead(d[g.start])))
  }

  ghost function RecoverDisk(g: Geometry, d: Disk): Disk
    requires ValidLog(g, d)
  {
    ApplyAll(d, RecoverWrites(g, d))
  }

  /** Installing home blocks leaves the whole log region as it was. */
  lemma InstallKeepsLog(g: Geometry, d: Disk, e: Disk, blocks: seq<nat>, k: nat)
    requires ValidDisk(g, d) && |e| == |d| && ValidHeader(g, |d|, blocks) && k <= |blocks|
    ensures forall b | 0 <= b < |d| && g.InLog(b) :: ApplyAll(e, InstallWrites(g, d, blocks)[..k])[b] == e[b]
  {
    var ws := InstallWrites(g, d, blocks)[..k];
    forall b | 0 <= b < |d| && g.InLog(b) ensures ApplyAll(e, ws)[b] == e[b] {
      assert !Touches(ws, b);
      ApplyUntouched(e, ws, b);
    }
  }

  /** A recovery cut after any k writes still leaves a disk that recovers to the same home blocks. */
  lemma PartialRecovery(g: Geometry, d: Disk, k: nat)
    requires ValidLog(g, d) && k <= |RecoverWrites(g, d)|
    ensures ValidLog(g, ApplyAll(d, RecoverWrites(g, d)[..k]))
    ensures HomeEq(g, Recovered(g, ApplyAll(d, RecoverWrites(g, d)[..k])), Recovered(g, d))
    ensures k == |RecoverWrites(g, d)| ==> CleanLog(g, ApplyAll(d, RecoverWrites(g, d)[..k]))
  {
    var blocks := ReadHead(d[g.start]);
    var inst := InstallWrites(g, d, blocks);
    var e := ApplyAll(d, RecoverWrites(g, d)[..k]);
    if k <= |blocks| {
      assert RecoverWrites(g, d)[..k] == inst[..k];
      InstallKeepsLog(g, d, d, blocks, k);
      ApplyKeepsWords(g, d, inst[..k]);
      assert InstallWrites(g, e, blocks) == inst;
      RedoAfterPrefix(d, inst, k);
    } else {
      var clear := [Write(g.start, HeadBlock(d[g.start], []))];
      assert RecoverWrites(g, d)[..k] == inst + clear;
      ApplyConcat(d, inst, clear);
      ApplyKeepsWords(g, d, inst + clear);
      HeadRoundTrip(d[g.start], []);
      assert e == Apply(ApplyAll(d, inst), clear[0]) by {
        assert clear[..0] == [];
      }
      assert e[g.start] == HeadBlock(d[g.start], []);
      assert Recovered(g, e) == e;
    }
  }

  /** The disk after a list of recoveries, the i-th cut after ks[i] writes. */
  ghost function CrashedRecoveries(g: Geometry, d: Disk, ks: seq<nat>): (r: Disk)
    requires ValidLog(g, d)
    ensures ValidLog(g, r)
    ensures HomeEq(g, Recovered(g, r), Recovered(g, d))
    decreases |ks|
  {
    if ks == [] then d
    else
      var ws := RecoverWrites(g, d);
      var k := if ks[0] < |ws| then ks[0] else |ws|;
      PartialRecovery(g, d, k);
      CrashedRecoveries(g, ApplyAll(d, ws[..k]), ks[1..])
  }

  /** A completed recovery empties the log and leaves the recovered home blocks in place. */
  lemma CompleteRecovery(g: Geometry, d: Disk)
    requires ValidLog(g, d)
    ensures CleanLog(g, RecoverDisk(g, d))
    ensures HomeEq(g, RecoverDisk(g, d), Recovered(g, d))
  {
    var ws := RecoverWrites(g, d);
    assert ws[..|ws|] == ws;
    PartialRecovery(g, d, |ws|);
    assert Recovered(g, RecoverDisk(g, d)) == RecoverDisk(g, d);
  }

  // Commit

  /** One transaction: the logged block numbers and the cache contents to commit. */
  datatype Txn = Txn(blocks: seq<nat>, cache: Disk)

  /** A transaction ready for commit(): the cache differs from disk only in logged home blocks. */
  ghost predicate ReadyToCommit(g: Geometry, d: Disk, t: Txn) {
    && CleanLog(g, d)
    && ValidDisk(g, t.cache) && |t.cache| == |d|
    && ValidHeader(g, |d|, t.blocks)
    && forall b | 0 <= b < |d| && !g.InLog(b) && b !in t.blocks :: t.cache[b] == d[b]
  }

  ghost function CommitTrace(g: Geometry, d: Disk, t: Txn): seq<Write>
    requires ReadyToCommit(g, d, t)
  {
    CommitWrites(g, d, t.cache, t.blocks)
  }

  /** `e` is `d` with the cached contents of the first k logged blocks in log blocks 0..k-1. */
  ghost predicate LogHolds(g: Geometry, d: Disk, t: Txn, e: Disk, k: nat)
    requires ReadyToCommit(g, d, t) && k <= |t.blocks|
  {
    && HomeEq(g, e, d) && e[g.start] == d[g.start] && ValidDisk(g, e)
    && forall i | g.start < i <= g.start + k :: e[i] == t.cache[t.blocks[i - g.start - 1]]
  }

  lemma LogHoldsNext(g: Geometry, d: Disk, t: Txn, e: Disk, k: nat)
    requires ReadyToCommit(g, d, t) && k < |t.blocks|
    requires LogHolds(g, d, t, e, k)
    ensures LogHolds(g, d, t, e[g.start + 1 + k := t.cache[t.blocks[k]]], k + 1)
  {
  }

  /** write_log cut after k writes: only log blocks have changed. */
  lemma AfterWriteLog(g: Geometry, d: Disk, t: Txn, k: nat)
    requires ReadyToCommit(g, d, t) && k <= |t.blocks|
    ensures LogHolds(g, d, t, ApplyAll(d, LogWrites(g, t.cache, t.blocks)[..k]), k)
    decreases k
  {
    if k > 0 {
      var ws := LogWrites(g, t.cache, t.blocks);
      AfterWriteLog(g, d, t, k - 1);
      var e := ApplyAll(d, ws[..k - 1]);
      assert ws[..k][..k - 1] == ws[..k - 1];
      assert ApplyAll(d, ws[..k]) == Apply(e, ws[k - 1]);
      LogHoldsNext(g, d, t, e, k - 1);
    }
  }

  /** Installing every logged block turns the old home blocks into the cached ones. */
  lemma InstallGivesCache(g: Geometry, d: Disk, t: Txn, e: Disk)
    requires ReadyToCommit(g, d, t)
    requires |e| == |d| && ValidDisk(g, e)
    requires forall i | g.start < i <= g.start + |t.blocks| :: e[i] == t.cache[t.blocks[i - g.start - 1]]
    requires HomeEq(g, e, d)
    ensures HomeEq(g, ApplyAll(e, InstallWrites(g, e, t.blocks)), t.cache)
  {
    var ws := InstallWrites(g, e, t.blocks);
    forall b | 0 <= b < |d| && !g.InLog(b) ensures ApplyAll(e, ws)[b] == t.cache[b] {
      InstalledBlock(g, t, e, ws, b);
      if b in t.blocks {
        var i :| 0 <= i < |t.blocks| && t.blocks[i] == b;
        assert ws[i].bno == b;
        assert Touches(ws, b);
      } else {
        assert forall i | 0 <= i < |ws| :: ws[i].bno == t.blocks[i];
        assert !Touches(ws, b);
      }
    }
  }

  lemma {:induction false} InstalledBlock(g: Geometry, t: Txn, e: Disk, ws: seq<Write>, b: nat)
    requires b < |e| && |t.cache| == |e|
    requires forall i | 0 <= i < |ws| :: ws[i].bno < |t.cache| && ws[i].data == t.cache[ws[i].bno]
    ensures ApplyAll(e, ws)[b] == if Touches(ws, b) then t.cache[b] else e[b]
  {
    if ws != [] {
      var init := ws[..|ws| - 1];
      assert forall i | 0 <= i < |init| :: init[i] == ws[i];
      InstalledBlock(g, t, e, init, b);
      if Touches(ws, b) && ws[|ws| - 1].bno != b {
        var i :| 0 <= i < |ws| && ws[i].bno == b;
        assert init[i].bno == b;
        assert Touches(init, b);
      }
    }
  }

  /** Whether the header naming the transaction's blocks is among the first k writes of commit. */
  predicate HeaderReached(t: Txn, k: nat) {
    t.blocks != [] && k > |t.blocks|
  }

  /**
   The commit point. Cut commit() after any k disk writes: the disk that is left recovers to
   the new home blocks if the header write is among them, and to the old ones if it is not.
   */
  lemma CommitPoint(g: Geometry, d: Disk, t: Txn, k: nat)
    requires ReadyToCommit(g, d, t) && k <= |CommitTrace(g, d, t)|
    ensures ValidLog(g, ApplyAll(d, CommitTrace(g, d, t)[..k]))
    ensures HomeEq(g, Recovered(g, ApplyAll(d, CommitTrace(g, d, t)[..k])),
                   if HeaderReached(t, k) then t.cache else d)
  {
    var n := |t.blocks|;
    var lw := LogWrites(g, t.cache, t.blocks);
    var all := CommitTrace(g, d, t);
    if n == 0 {
      assert all[..k] == [];
    } else if k <= n {
      assert all[..k] == lw[..k];
      AfterWriteLog(g, d, t, k);
    } else {
      CommittedPrefix(g, d, t, k);
    }
  }

  /** The disk right after the header write of commit(): the commit point is passed. */
  ghost function HeaderWritten(g: Geometry, d: Disk, t: Txn): Disk
    requires ReadyToCommit(g, d, t)
  {
    ApplyAll(d, LogWrites(g, t.cache, t.blocks))[g.start := HeadBlock(d[g.start], t.blocks)]
  }

  lemma HeaderWrittenIsValid(g: Geometry, d: Disk, t: Txn)
    requires ReadyToCommit(g, d, t)
    ensures ValidLog(g, HeaderWritten(g, d, t))
    ensures HomeEq(g, Recovered(g, HeaderWritten(g, d, t)), t.cache)
  {
    var lw := LogWrites(g, t.cache, t.blocks);
    assert lw[..|t.blocks|] == lw;
    AfterWriteLog(g, d, t, |t.blocks|);
    HeadRoundTrip(d[g.start], t.blocks);
    InstallGivesCache(g, d, t, HeaderWritten(g, d, t));
  }

  /** What commit() does after the header write is exactly a recovery. */
  lemma CommitEndsAsRecovery(g: Geometry, d: Disk, t: Txn)
    requires ReadyToCommit(g, d, t) && t.blocks != []
    requires ValidLog(g, HeaderWritten(g, d, t))
    ensures CommitTrace(g, d, t)
            == LogWrites(g, t.cache, t.blocks) + [Write(g.start, HeadBlock(d[g.start], t.blocks))]
               + RecoverWrites(g, HeaderWritten(g, d, t))
    ensures ApplyAll(d, LogWrites(g, t.cache, t.blocks) + [Write(g.start, HeadBlock(d[g.start], t.blocks))])
            == HeaderWritten(g, d, t)
  {
    var lw := LogWrites(g, t.cache, t.blocks);
    var hw := Write(g.start, HeadBlock(d[g.start], t.blocks));
    var f := HeaderWritten(g, d, t);
    HeadRoundTrip(d[g.start], t.blocks);
    assert InstallWrites(g, f, t.blocks) == InstallWrites(g, ApplyAll(d, lw), t.blocks);
    assert (lw + [hw])[..|lw|] == lw;
  }

  /** The part of CommitPoint after the header write. */
  lemma CommittedPrefix(g: Geometry, d: Disk, t: Txn, k: nat)
    requires ReadyToCommit(g, d, t) && t.blocks != []
    requires |t.blocks| < k <= |CommitTrace(g, d, t)|
    ensures ValidLog(g, ApplyAll(d, CommitTrace(g, d, t)[..k]))
    ensures HomeEq(g, Recovered(g, ApplyAll(d, CommitTrace(g, d, t)[..k])), t.cache)
  {
    HeaderWrittenIsValid(g, d, t);
    CommitEndsAsRecovery(g, d, t);
    var front := LogWrites(g, t.cache, t.blocks) + [Write(g.start, HeadBlock(d[g.start], t.blocks))];
    var f := HeaderWritten(g, d, t);
    var j := k - |front|;
    assert CommitTrace(g, d, t)[..k] == front + RecoverWrites(g, f)[..j];
    ApplyConcat(d, front, RecoverWrites(g, f)[..j]);
    PartialRecovery(g, f, j);
  }

  /**
   Crash atomicity. Cut commit() after k writes, then let recovery crash any number of times,
   then let one recovery complete: every home block is as before the transaction, or every
   home block is as the transaction left it, and the second exactly when the header reached disk.
   */
  lemma CrashAtomicity(g: Geometry, d: Disk, t: Txn, k: nat, ks: seq<nat>)
    requires ReadyToCommit(g, d, t) && k <= |CommitTrace(g, d, t)|
    ensures ValidLog(g, ApplyAll(d, CommitTrace(g, d, t)[..k]))
    ensures var final := RecoverDisk(g, CrashedRecoveries(g, ApplyAll(d, CommitTrace(g, d, t)[..k]), ks));
            && CleanLog(g, final)
            && HomeEq(g, final, if HeaderReached(t, k) then t.cache else d)
  {
    CommitPoint(g, d, t, k);
    var cut := ApplyAll(d, CommitTrace(g, d, t)[..k]);
    CompleteRecovery(g, CrashedRecoveries(g, cut, ks));
  }

  /** An uninterrupted commit() empties the log and leaves the cached contents in the home blocks. */
  lemma CommitInstalls(g: Geometry, d: Disk, t: Txn)
    requires ReadyToCommit(g, d, t)
    ensures CleanLog(g, ApplyAll(d, CommitTrace(g, d, t)))
    ensures HomeEq(g, ApplyAll(d, CommitTrace(g, d, t)), t.cache)
  {
    var all := CommitTrace(g, d, t);
    assert all[..|all|] == all;
    CommitPoint(g, d, t, |all|);
    var e := ApplyAll(d, all);
    if t.blocks == [] {
      assert e == d;
    } else {
      assert all[|all| - 1] == Write(g.start, HeadBlock(HeadBlock(d[g.start], t.blocks), []));
      assert e[g.start] == HeadBlock(HeadBlock(d[g.start], t.blocks), []);
      HeadRoundTrip(HeadBlock(d[g.start], t.blocks), []);
    }
    assert Recovered(g, e) == e;
  }

  // Whole histories

  /** A transaction commits undisturbed, or commit is cut after `cut` writes and recovery follows. */
  datatype Event =
    | Commits(txn: Txn)
    | Crashes(txn: Txn, cut: nat, recoveries: seq<nat>)

  ghost predicate Admissible(g: Geometry, d: Disk, ev: Event) {
    && ReadyToCommit(g, d, ev.txn)
    && (ev.Crashes? ==> ev.cut <= |CommitTrace(g, d, ev.txn)|)
  }

  ghost function Step(g: Geometry, d: Disk, ev: Event): (r: Disk)
    requires Admissible(g, d, ev)
    ensures CleanLog(g, r)
  {
    match ev
    case Commits(t) =>
      CommitInstalls(g, d, t);
      ApplyAll(d, CommitTrace(g, d, t))
    case Crashes(t, k, ks) =>
      CrashAtomicity(g, d, t, k, ks);
      RecoverDisk(g, CrashedRecoveries(g, ApplyAll(d, CommitTrace(g, d, t)[..k]), ks))
  }

  /** `ds` are the disks between the events of a history that starts from ds[0]. */
  ghost predicate History(g: Geometry, ds: seq<Disk>, evs: seq<Event>) {
    && |ds| == |evs| + 1
    && CleanLog(g, ds[0])
    && forall i | 0 <= i < |evs| :: Admissible(g, ds[i], evs[i]) && ds[i + 1] == Step(g, ds[i], evs[i])
  }

  predicate Durable(ev: Event) {
    ev.Commits? || HeaderReached(ev.txn, ev.cut)
  }

  /** The reference: the home blocks are those of the last durable transaction. */
  ghost function LastDurable(initial: Disk, evs: seq<Event>): Disk {
    if evs == [] then initial
    else if Durable(evs[|evs| - 1]) then evs[|evs| - 1].txn.cache
    else LastDurable(initial, evs[..|evs| - 1])
  }

  /** Over every history of commits and crashes, the home blocks hold the last durable transaction. */
  lemma {:induction false} HistoryKeepsLastDurable(g: Geometry, ds: seq<Disk>, evs: seq<Event>)
    requires History(g, ds, evs)
    ensures CleanLog(g, ds[|evs|])
    ensures HomeEq(g, ds[|evs|], LastDurable(ds[0], evs))
    decreases |evs|
  {
    if evs != [] {
      var n := |evs| - 1;
      HistoryKeepsLastDurable(g, ds[..n + 1], evs[..n]);
      var ev := evs[n];
      assert Admissible(g, ds[n], ev) && ds[n + 1] == Step(g, ds[n], ev);
      match ev
      case Commits(t) => CommitInstalls(g, ds[n], t);
      case Crashes(t, k, ks) => CrashAtomicity(g, ds[n], t, k, ks);
    }
  }

  // The code

  /** The in-memory log header together with the disk and the cached block contents. */
  class LogDevice {
    const g: Geometry
    const block: array<nat>   // log.lh.block
    var n: nat                // log.lh.n
    var cache: Disk           // what bread() returns for each block
    var disk: Disk
    ghost var trace: seq<Write>  // every disk write so far, in order
    ghost var images: seq<Disk>  // the disk before the first write and after each one

    ghost predicate Valid()
      reads this, block
    {
      && Synced()
      && n <= block.Length
      && ValidHeader(g, |disk|, block[..n])
    }

    /** No log block is dirty in the cache; images[k] is what a crash after k writes leaves. */
    ghost predicate Synced()
      reads this
    {
      && ValidDisk(g, disk) && ValidDisk(g, cache) && |cache| == |disk|
      && (forall b | 0 <= b < |disk| && g.InLog(b) :: cache[b] == disk[b])
      && Chain(images, trace) && disk == images[|trace|]
    }

    /** initlog on a freshly started machine: nothing is cached, so every bread() reads the disk. */
    constructor (geometry: Geometry, image: Disk, logsize: nat)
      requires ValidDisk(geometry, image)
      ensures Valid() && fresh(block) && n == 0
      ensures g == geometry && disk == image && cache == image && block.Length == logsize
      ensures trace == [] && images == [image]
    {
      g := geometry;
      block := new nat[logsize];
      n := 0;
      cache := image;
      disk := image;
      trace := [];
      images := [image];
    }

    /** bwrite: the cached contents of block b go to disk as one atomic write. */
    method Bwrite(b: nat)
      requires b < |cache| == |disk|
      requires Chain(images, trace) && disk == images[|trace|]
      modifies this`disk, this`trace, this`images
      ensures disk == old(disk)[b := cache[b]]
      ensures trace == old(trace) + [Write(b, cache[b])]
      ensures images == old(images) + [disk]
      ensures Chain(images, trace)
    {
      disk := disk[b := cache[b]];
      trace := trace + [Write(b, cache[b])];
      images := images + [disk];
    }

    /** The body of both copy loops: bread the two blocks, memmove, bwrite the destination. */
    method CopyBlock(from: nat, to: nat)
      requires Synced() && from < |disk| && to < |disk|
      modifies this`cache, this`disk, this`trace, this`images
      ensures Synced()
      ensures cache == old(cache)[to := old(cache)[from]]
      ensures disk == old(disk)[to := old(cache)[from]]
      ensures trace == old(trace) + [Write(to, old(cache)[from])] && old(images) <= images
    {
      cache := cache[to := cache[from]];
      Bwrite(to);
    }

    method WriteLog()
      requires Valid()
      modifies this`cache, this`disk, this`trace, this`images
      ensures Valid()
      ensures trace == old(trace) + LogWrites(g, old(cache), block[..n]) && old(images) <= images
      ensures disk == ApplyAll(old(disk), LogWrites(g, old(cache), block[..n]))
      ensures HomeEq(g, cache, old(cache))
    {
      ghost var ws := LogWrites(g, cache, block[..n]);
      var tail := 0;
      while tail < n
        invariant 0 <= tail <= n
        invariant Synced() && |disk| == |old(disk)|
        invariant HomeEq(g, cache, old(cache))
        invariant trace == old(trace) + ws[..tail] && old(images) <= images
      {
        AppendNext(old(trace), ws, tail);
        assert ws[tail] == Write(g.start + 1 + tail, old(cache)[block[tail]]);
        CopyBlock(block[tail], g.start + 1 + tail);
        tail := tail + 1;
      }
      assert ws[..n] == ws;
      ChainApplies(images, trace, |old(trace)|);
      assert trace[|old(trace)|..] == ws;
    }

    method WriteHead()
      requires Valid()
      modifies this`cache, this`disk, this`trace, this`images
      ensures Valid()
      ensures trace == old(trace) + [Write(g.start, HeadBlock(old(disk)[g.start], block[..n]))] && old(images) <= images
      ensures disk == old(disk)[g.start := HeadBlock(old(disk)[g.start], block[..n])]
      ensures cache == old(cache)[g.start := HeadBlock(old(disk)[g.start], block[..n])]
    {
      var hb := [n as int] + cache[g.start][1..];
      var i := 0;
      while i < n
        invariant 0 <= i <= n
        invariant |hb| == g.words && hb[0] == n
        invariant forall j | 0 <= j < i :: hb[1 + j] == block[j]
        invariant forall j | i < j < |hb| :: hb[j] == cache[g.start][j]
      {
        hb := hb[1 + i := block[i]];
        i := i + 1;
      }
      assert hb == HeadBlock(old(disk)[g.start], block[..n]);
      cache := cache[g.start := hb];
      Bwrite(g.start);
    }

    /** One round of install_trans: log block `from` goes to its home. */
    method InstallBlock(from: nat, home: nat)
      requires Synced() && g.InLog(from) && home < |disk| && !g.InLog(home)
      modifies this`cache, this`disk, this`trace, this`images
      ensures Synced() && |disk| == |old(disk)|
      ensures LogEq(g, cache, old(cache))
      ensures trace == old(trace) + [Write(home, old(cache)[from])] && old(images) <= images
      ensures old(cache == disk) ==> cache == disk
    {
      CopyBlock(from, home);
    }

    method InstallTrans()
      requires Valid()
      modifies this`cache, this`disk, this`trace, this`images
      ensures Valid()
      ensures trace == old(trace) + InstallWrites(g, old(disk), block[..n]) && old(images) <= images
      ensures disk == ApplyAll(old(disk), InstallWrites(g, old(disk), block[..n]))
      ensures disk[g.start] == old(disk)[g.start]
      ensures old(cache == disk) ==> cache == disk
    {
      ghost var ws := InstallWrites(g, disk, block[..n]);
      var tail := 0;
      while tail < n
        invariant 0 <= tail <= n
        invariant Synced() && |disk| == |old(disk)|
        invariant LogEq(g, cache, old(cache))
        invariant trace == old(trace) + ws[..tail] && old(images) <= images
        invariant old(cache == disk) ==> cache == disk
      {
        AppendNext(old(trace), ws, tail);
        assert ws[tail] == Write(block[tail], old(disk)[g.start + 1 + tail]);
        InstallBlock(g.start + 1 + tail, block[tail]);
        tail := tail + 1;
      }
      assert ws[..n] == ws;
      ChainApplies(images, trace, |old(trace)|);
      assert trace[|old(trace)|..] == ws;
    }

    /** The four steps of a commit() that has something to write. */
    method CommitSteps()
      requires Valid() && n > 0
      modifies this`n, this`cache, this`disk, this`trace, this`images
      ensures Valid() && n == 0
      ensures trace == old(trace) + CommitWrites(g, old(disk), old(cache), old(block[..n])) && old(images) <= images
      ensures disk == ApplyAll(old(disk), CommitWrites(g, old(disk), old(cache), old(block[..n])))
    {
      ghost var d, bs := disk, block[..n];
      CommitParts(g, d, cache, bs);
      ghost var lw := LogWrites(g, cache, bs);
      ghost var full := HeadBlock(d[g.start], bs);
      WriteLog();
      WriteHead();
      ghost var f := disk;
      assert f == ApplyAll(d, lw)[g.start := full];
      ghost var iw := InstallWrites(g, f, bs);
      InstallTrans();
      assert trace == old(trace) + lw + [Write(g.start, full)] + iw;
      assert disk == ApplyAll(f, iw) && disk[g.start] == full;
      EraseHead();
      Regroup(old(trace), lw, [Write(g.start, full)], iw, [Write(g.start, HeadBlock(full, []))]);
    }

    /** commit(): a crash after k of its writes leaves the disk that CrashAtomicity is about. */
    method Commit()
      requires Valid()
      modifies this`n, this`cache, this`disk, this`trace, this`images
      ensures Valid() && n == 0
      ensures trace == old(trace) + CommitWrites(g, old(disk), old(cache), old(block[..n])) && old(images) <= images
      ensures disk == ApplyAll(old(disk), CommitWrites(g, old(disk), old(cache), old(block[..n])))
      ensures Leaves(images, |old(trace)|, old(disk), CommitWrites(g, old(disk), old(cache), old(block[..n])))
    {
      if n > 0 {
        CommitSteps();
      }
      ChainLeaves(images, trace, |old(trace)|, CommitWrites(g, old(disk), old(cache), old(block[..n])));
    }

    /** log.lh.n = 0; write_head(). */
    method EraseHead()
      requires Valid()
      modifies this`n, this`cache, this`disk, this`trace, this`images
      ensures Valid() && n == 0
      ensures trace == old(trace) + [Write(g.start, HeadBlock(old(disk)[g.start], []))] && old(images) <= images
      ensures disk == old(disk)[g.start := HeadBlock(old(disk)[g.start], [])]
      ensures cache == old(cache)[g.start := HeadBlock(old(disk)[g.start], [])]
    {
      n := 0;
      assert block[..0] == [];
      WriteHead();
    }

    method ReadHeader()
      requires Synced() && ValidLog(g, disk)
      requires |ReadHead(disk[g.start])| <= block.Length
      modifies this`n, block
      ensures Valid() && block[..n] == ReadHead(disk[g.start])
    {
      var hb := cache[g.start];
      ghost var bs := ReadHead(hb);
      n := hb[0];
      var i := 0;
      while i < n
        invariant 0 <= i <= n == |bs|
        invariant forall j | 0 <= j < i :: block[j] == bs[j]
        modifies block
      {
        block[i] := hb[1 + i];
        i := i + 1;
      }
      assert block[..n] == bs;
    }

    /** recover_from_log() on a freshly started machine. */
    method Recover()
      requires Synced() && ValidLog(g, disk) && cache == disk
      requires |ReadHead(disk[g.start])| <= block.Length
      modifies this`n, this`cache, this`disk, this`trace, this`images, block
      ensures Valid() && n == 0
      ensures trace == old(trace) + RecoverWrites(g, old(disk)) && old(images) <= images
      ensures disk == RecoverDisk(g, old(disk)) && cache == disk
      ensures CleanLog(g, disk)
      ensures Leaves(images, |old(trace)|, old(disk), RecoverWrites(g, old(disk)))
    {
      ghost var d := disk;
      ReadHeader();
      InstallTrans();
      EraseHead();
      RecoverParts(g, d);
      CompleteRecovery(g, d);
      ChainLeaves(images, trace, |old(trace)|, RecoverWrites(g, d));
    }
  }

  lemma RecoverParts(g: Geometry, d: Disk)
    requires ValidLog(g, d)
    ensures RecoverDisk(g, d) == Apply(Recovered(g, d), Write(g.start, HeadBlock(d[g.start], [])))
  {
    var ws := RecoverWrites(g, d);
    assert ws[..|ws| - 1] == InstallWrites(g, d, ReadHead(d[g.start]));
  }

  /** CommitWrites, part by part, along the disks the four steps of commit() start from. */
  lemma CommitParts(g: Geometry, d: Disk, cache: Disk, bs: seq<nat>)
    requires ValidDisk(g, d) && ValidDisk(g, cache) && |cache| == |d|
    requires ValidHeader(g, |d|, bs) && bs != []
    ensures var lw := LogWrites(g, cache, bs);
            var e := ApplyAll(d, lw);
            var full := HeadBlock(d[g.start], bs);
            var f := e[g.start := full];
            var iw := InstallWrites(g, f, bs);
            var clear := HeadBlock(full, []);
            && e[g.start] == d[g.start]
            && CommitWrites(g, d, cache, bs) == lw + [Write(g.start, full)] + iw + [Write(g.start, clear)]
            && ApplyAll(d, CommitWrites(g, d, cache, bs)) == ApplyAll(f, iw)[g.start := clear]
  {
    var lw := LogWrites(g, cache, bs);
    var e := ApplyAll(d, lw);
    assert !Touches(lw, g.start);
    ApplyUntouched(d, lw, g.start);
    var full := HeadBlock(d[g.start], bs);
    var hw := Write(g.start, full);
    var iw := InstallWrites(g, e, bs);
    assert InstallWrites(g, e[g.start := full], bs) == iw;
    FourParts(d, lw, hw, iw, Write(g.start, HeadBlock(full, [])));
  }

  /** Consecutive disks, each the previous one after one write. */
  ghost predicate Chain(ds: seq<Disk>, ws: seq<Write>) {
    |ds| == |ws| + 1 && forall i | 0 <= i < |ws| :: ds[i + 1] == Apply(ds[i], ws[i])
  }

  lemma {:induction false} ChainApplies(ds: seq<Disk>, ws: seq<Write>, j: nat)
    requires Chain(ds, ws) && j <= |ws|
    ensures ds[|ws|] == ApplyAll(ds[j], ws[j..])
    decreases |ws|
  {
    if j < |ws| {
      var n := |ws| - 1;
      ChainApplies(ds[..n + 1], ws[..n], j);
      assert ws[j..][..|ws[j..]| - 1] == ws[..n][j..];
    }
  }

  /** A crash after k of the writes `ws`, which follow the first j, leaves `d` with those k writes. */
  ghost predicate Leaves(ds: seq<Disk>, j: nat, d: Disk, ws: seq<Write>) {
    j + |ws| < |ds| && forall k | 0 <= k <= |ws| :: ds[j + k] == ApplyAll(d, ws[..k])
  }

  lemma ChainLeaves(ds: seq<Disk>, all: seq<Write>, j: nat, ws: seq<Write>)
    requires Chain(ds, all) && j + |ws| == |all| && all[j..] == ws
    ensures Leaves(ds, j, ds[j], ws)
  {
    forall k | 0 <= k <= |ws| ensures ds[j + k] == ApplyAll(ds[j], ws[..k]) {
      ChainApplies(ds[..j + k + 1], all[..j + k], j);
      assert all[..j + k][j..] == ws[..k];
    }
  }

  lemma AppendNext<T>(s: seq<T>, a: seq<T>, k: nat)
    requires k < |a|
    ensures s + a[..k] + [a[k]] == s + a[..k + 1]
  {
  }

  lemma Regroup<T>(s: seq<T>, a: seq<T>, b: seq<T>, c: seq<T>, d: seq<T>)
    ensures s + a + b + c + d == s + (a + b + c + d)
  {
  }

  lemma FourParts(d: Disk, lw: seq<Write>, hw: Write, iw: seq<Write>, cw: Write)
    ensures ApplyAll(d, lw + [hw] + iw + [cw]) == Apply(ApplyAll(Apply(ApplyAll(d, lw), hw), iw), cw)
  {
    assert (lw + [hw] + iw + [cw])[..|lw + [hw] + iw|] == lw + [hw] + iw;
    ApplyConcat(d, lw + [hw], iw);
    assert (lw + [hw])[..|lw|] == lw;
  }
}
