/**
 The code of kernel/bio.c that keeps the buffer table and its LRU list: binit, bget, the
 second half of brelse, bpin and bunpin.

 A pointer to a buffer is its index; index `nbuf` is bcache.head. The list runs through the
 `next` and `prev` fields, which the code relinks in place; `order` is the list it should be.
 */
module LruList {
  import opened BufferCache

  // Doubly linked circular lists

  /** The nodes from the head around to the head again. */
  function Ring(head: nat, order: seq<nat>): seq<nat> {
    [head] + order + [head]
  }

  /** `next` and `prev` link exactly the nodes of `order`, in that order, with `head` closing the circle. */
  ghost predicate Linked(next: seq<nat>, prev: seq<nat>, head: nat, order: seq<nat>) {
    && |next| == |prev| == head + 1
    && (forall k | 0 <= k < |order| :: order[k] < head)
    && (forall j, k | 0 <= j < k < |order| :: order[j] != order[k])
    && (forall k | 0 <= k <= |order| :: next[Ring(head, order)[k]] == Ring(head, order)[k + 1])
    && (forall k | 0 < k <= |order| + 1 :: prev[Ring(head, order)[k]] == Ring(head, order)[k - 1])
  }

  function Without(order: seq<nat>, p: nat): seq<nat>
    requires p < |order|
  {
    order[..p] + order[p + 1..]
  }

  lemma RingWithout(head: nat, order: seq<nat>, p: nat)
    requires p < |order|
    ensures var r, w := Ring(head, order), Ring(head, Without(order, p));
            && |w| == |r| - 1
            && (forall k | 0 <= k <= p :: w[k] == r[k])
            && (forall k | p < k < |w| :: w[k] == r[k + 1])
  {
  }

  /** The forward links after b->prev->next = b->next. */
  lemma UnlinkNext(next: seq<nat>, prev: seq<nat>, head: nat, order: seq<nat>, p: nat)
    requires Linked(next, prev, head, order) && p < |order|
    ensures var r, w := Ring(head, order), Ring(head, Without(order, p));
            forall k | 0 <= k < |order| :: next[r[p] := r[p + 2]][w[k]] == w[k + 1]
  {
    var r, w := Ring(head, order), Ring(head, Without(order, p));
    RingWithout(head, order, p);
    forall k | 0 <= k < |order| ensures next[r[p] := r[p + 2]][w[k]] == w[k + 1] {
      if k != p {
        assert w[k] != r[p];
      }
    }
  }

  /** The backward links after b->next->prev = b->prev. */
  lemma UnlinkPrev(next: seq<nat>, prev: seq<nat>, head: nat, order: seq<nat>, p: nat)
    requires Linked(next, prev, head, order) && p < |order|
    ensures var r, w := Ring(head, order), Ring(head, Without(order, p));
            forall k | 0 < k <= |order| :: prev[r[p + 2] := r[p]][w[k]] == w[k - 1]
  {
    var r, w := Ring(head, order), Ring(head, Without(order, p));
    RingWithout(head, order, p);
    forall k | 0 < k <= |order| ensures prev[r[p + 2] := r[p]][w[k]] == w[k - 1] {
      if k != p + 1 {
        assert w[k] != r[p + 2];
      }
    }
  }

  lemma Unlink(next: seq<nat>, prev: seq<nat>, head: nat, order: seq<nat>, p: nat)
    requires Linked(next, prev, head, order) && p < |order|
    ensures var b := order[p];
            && next[b] <= head && prev[b] <= head
            && Linked(next[prev[b] := next[b]], prev[next[b] := prev[b]], head, Without(order, p))
  {
    var r, b := Ring(head, order), order[p];
    assert r[p + 1] == b;
    assert next[b] == r[p + 2] && prev[b] == r[p];
    UnlinkNext(next, prev, head, order, p);
    UnlinkPrev(next, prev, head, order, p);
  }

  lemma PushFront(next: seq<nat>, prev: seq<nat>, head: nat, order: seq<nat>, b: nat)
    requires Linked(next, prev, head, order) && b < head && b !in order
    ensures next[head] <= head
    ensures Linked(next[b := next[head]][head := b], prev[b := head][next[head] := b], head, [b] + order)
  {
    var r := Ring(head, order);
    assert r[0] == head && r[1] == next[head];
    var w := Ring(head, [b] + order);
    assert w[0] == head && w[1] == b;
    assert forall k | 2 <= k < |w| :: w[k] == r[k - 1];
    var n1, p1 := next[b := next[head]][head := b], prev[b := head][next[head] := b];
    forall k | 0 <= k <= |order| + 1 ensures n1[w[k]] == w[k + 1] {
      if k >= 2 {
        assert w[k] == order[k - 2];
      }
    }
    forall k | 0 < k <= |order| + 2 ensures p1[w[k]] == w[k - 1] {
      if k >= 3 {
        assert w[k] == r[k - 1] && w[k - 1] == r[k - 2];
        assert w[k] != r[1];
      }
    }
  }

  /** More recently released buffers come first. */
  ghost predicate RecentFirst(order: seq<nat>, stamp: seq<nat>, clock: nat) {
    && (forall k | 0 <= k < |order| :: order[k] < |stamp| && stamp[order[k]] < clock)
    && (forall j, k | 0 <= j < k < |order| :: stamp[order[j]] > stamp[order[k]])
  }

  /** Every buffer is on the list. */
  ghost predicate Covers(order: seq<nat>, n: nat) {
    forall i: nat | i < n :: OnList(order, i)
  }

  ghost predicate OnList(order: seq<nat>, i: nat) {
    exists k | 0 <= k < |order| :: order[k] == i
  }

  // The code

  class Bcache {
    const nbuf: nat
    var bufs: seq<Buf>
    var next: seq<nat>
    var prev: seq<nat>
    ghost var order: seq<nat>  // head.next first, head.prev last
    ghost var stamp: seq<nat>  // when each buffer last fell to refcnt 0 in brelse
    ghost var clock: nat

    ghost predicate Valid()
      reads this
    {
      && |bufs| == nbuf && |order| == nbuf
      && Linked(next, prev, nbuf, order)
      && |stamp| == nbuf && RecentFirst(order, stamp, clock)
      && Covers(order, nbuf)
    }

    /** binit. */
    constructor (n: nat)
      ensures Valid() && nbuf == n && forall k | 0 <= k < n :: order[k] == n - 1 - k
      ensures forall i | 0 <= i < n :: bufs[i] == Buf(Key(0, 0), false, 0, None, [])
    {
      nbuf := n;
      bufs := seq(n, i => Buf(Key(0, 0), false, 0, None, []));
      stamp := seq(n, i => i);
      clock := n;
      var nx: seq<nat> := seq(n + 1, i => n);
      var pv: seq<nat> := seq(n + 1, i => n);
      ghost var ord: seq<nat> := [];
      var b := 0;
      while b < n
        invariant 0 <= b <= n && |ord| == b
        invariant Linked(nx, pv, n, ord)
        invariant forall k | 0 <= k < b :: ord[k] == b - 1 - k
      {
        PushFront(nx, pv, n, ord, b);
        var first := nx[n];
        nx := nx[b := first][n := b];
        pv := pv[b := n][first := b];
        ord := [b] + ord;
        b := b + 1;
      }
      forall i: nat | i < n ensures OnList(ord, i) {
        assert ord[n - 1 - i] == i;
      }
      next := nx;
      prev := pv;
      order := ord;
    }

    /** The first loop of bget: look for the block from the most recently used end. */
    method FindCached(key: Key) returns (r: Option<nat>)
      requires Valid()
      ensures r.Some? ==> r.value < nbuf && bufs[r.value].key == key
      ensures r == None ==> forall i | 0 <= i < nbuf :: bufs[i].key != key
    {
      ghost var ring := Ring(nbuf, order);
      assert forall j | 1 <= j <= nbuf :: ring[j] == order[j - 1];
      ghost var k := 1;
      var b := next[nbuf];
      assert b == next[ring[0]];
      while b != nbuf
        invariant 1 <= k <= nbuf + 1 && b == ring[k]
        invariant forall j | 0 <= j < k - 1 :: bufs[order[j]].key != key
        decreases nbuf + 1 - k
      {
        if bufs[b].key == key {
          return Some(b);
        }
        assert next[ring[k]] == ring[k + 1];
        b := next[b];
        k := k + 1;
      }
      AllSeen(order, nbuf, bufs, key);
      r := None;
    }

    /** The second loop of bget: the least recently used buffer that nobody refers to. */
    method FindUnused() returns (r: Option<nat>)
      requires Valid()
      ensures r.Some? ==>
                && r.value < nbuf && bufs[r.value].refcnt == 0
                && forall j | 0 <= j < nbuf && bufs[j].refcnt == 0 :: stamp[r.value] <= stamp[j]
      ensures r == None ==> forall i | 0 <= i < nbuf :: bufs[i].refcnt != 0
    {
      ghost var ring := Ring(nbuf, order);
      assert forall j | 1 <= j <= nbuf :: ring[j] == order[j - 1];
      ghost var k := nbuf;
      var b := prev[nbuf];
      assert prev[ring[nbuf + 1]] == ring[nbuf];
      while b != nbuf
        invariant 0 <= k <= nbuf && b == ring[k]
        invariant forall j | k <= j < nbuf :: bufs[order[j]].refcnt != 0
        decreases k
      {
        if bufs[b].refcnt == 0 {
          LeastRecent(order, stamp, clock, bufs, k - 1);
          return Some(b);
        }
        assert prev[ring[k]] == ring[k - 1];
        b := prev[b];
        k := k - 1;
      }
      AllInUse(order, nbuf, bufs);
      r := None;
    }

    /**
     bget under bcache.lock: the buffer that holds the block, or else the least recently used
     buffer that nobody refers to, now assigned to the block; None is the panic "no buffers".
     */
    method Bget(key: Key) returns (r: Option<nat>)
      requires Valid()
      modifies this`bufs
      ensures Valid()
      ensures r.Some? ==> r.value < nbuf
      ensures (exists i | 0 <= i < nbuf :: old(bufs)[i].key == key) ==>
                r.Some? && old(bufs)[r.value].key == key && bufs == Ref(old(bufs), r.value)
      ensures (forall i | 0 <= i < nbuf :: old(bufs)[i].key != key) && r.Some? ==>
                && old(bufs)[r.value].refcnt == 0
                && (forall j | 0 <= j < nbuf && old(bufs)[j].refcnt == 0 :: stamp[r.value] <= stamp[j])
                && bufs == Recycle(old(bufs), r.value, key)
      ensures r == None <==> forall i | 0 <= i < nbuf :: old(bufs)[i].key != key && old(bufs)[i].refcnt != 0
      ensures r == None ==> bufs == old(bufs)
    {
      r := FindCached(key);
      if r.Some? {
        bufs := Ref(bufs, r.value);
        return;
      }
      r := FindUnused();
      if r.Some? {
        bufs := Recycle(bufs, r.value, key);
      }
    }

    /** The relinking in brelse: take b out of the list and put it in front. */
    method MoveFirst(b: nat, ghost p: nat)
      requires Linked(next, prev, nbuf, order) && p < |order| && order[p] == b
      modifies this`next, this`prev, this`order
      ensures order == [b] + Without(old(order), p)
      ensures Linked(next, prev, nbuf, order)
    {
      Unlink(next, prev, nbuf, order, p);
      var after, before := next[b], prev[b];
      prev := prev[after := before];
      next := next[before := after];
      order := Without(order, p);
      PushFront(next, prev, nbuf, order, b);
      var first := next[nbuf];
      next := next[b := first];
      prev := prev[b := nbuf];
      prev := prev[first := b];
      next := next[nbuf := b];
      order := [b] + order;
    }

    /** brelse after releasesleep: an unreferenced buffer becomes the most recently used one. */
    method Brelse(b: nat)
      requires Valid() && b < nbuf && bufs[b].refcnt > 0
      modifies this
      ensures Valid()
      ensures bufs == Unref(old(bufs), b)
      ensures bufs[b].refcnt > 0 ==> order == old(order) && stamp == old(stamp)
      ensures bufs[b].refcnt == 0 ==>
                && order[0] == b && forall j | 0 <= j < nbuf && j != b :: stamp[j] == old(stamp)[j] < stamp[b]
    {
      bufs := Unref(bufs, b);
      if bufs[b].refcnt == 0 {
        Retire(b);
      }
    }

    /** The buffer becomes the most recently used one. */
    method Retire(b: nat)
      requires Valid() && b < nbuf
      modifies this`next, this`prev, this`order, this`stamp, this`clock
      ensures Valid() && order[0] == b && forall j | 0 <= j < nbuf && j != b :: stamp[j] == old(stamp)[j] < stamp[b]
    {
      assert OnList(order, b);
      ghost var p :| 0 <= p < |order| && order[p] == b;
      MoveToFront(order, stamp, clock, p);
      MoveFirst(b, p);
      stamp := stamp[b := clock];
      clock := clock + 1;
    }

    method Bpin(b: nat)
      requires Valid() && b < nbuf
      modifies this`bufs
      ensures Valid() && bufs == Ref(old(bufs), b)
    {
      bufs := Ref(bufs, b);
    }

    method Bunpin(b: nat)
      requires Valid() && b < nbuf && bufs[b].refcnt > 0
      modifies this`bufs
      ensures Valid() && bufs == Unref(old(bufs), b)
    {
      bufs := Unref(bufs, b);
    }
  }

  lemma AllSeen(order: seq<nat>, n: nat, bufs: seq<Buf>, key: Key)
    requires |order| == n == |bufs| && Covers(order, n)
    requires forall j | 0 <= j < n :: order[j] < n && bufs[order[j]].key != key
    ensures forall i | 0 <= i < n :: bufs[i].key != key
  {
    forall i: nat | i < n ensures bufs[i].key != key {
      assert OnList(order, i);
      var k :| 0 <= k < |order| && order[k] == i;
      assert bufs[order[k]].key != key;
    }
  }

  lemma AllInUse(order: seq<nat>, n: nat, bufs: seq<Buf>)
    requires |order| == n == |bufs| && Covers(order, n)
    requires forall j | 0 <= j < n :: order[j] < n && bufs[order[j]].refcnt != 0
    ensures forall i | 0 <= i < n :: bufs[i].refcnt != 0
  {
    forall i: nat | i < n ensures bufs[i].refcnt != 0 {
      assert OnList(order, i);
      var k :| 0 <= k < |order| && order[k] == i;
      assert bufs[order[k]].refcnt != 0;
    }
  }

  /** The unreferenced buffer nearest the tail is the one released longest ago. */
  lemma LeastRecent(order: seq<nat>, stamp: seq<nat>, clock: nat, bufs: seq<Buf>, p: nat)
    requires RecentFirst(order, stamp, clock) && |stamp| == |bufs| && p < |order|
    requires Covers(order, |bufs|)
    requires forall j | p < j < |order| :: bufs[order[j]].refcnt != 0
    ensures forall i | 0 <= i < |bufs| && bufs[i].refcnt == 0 :: stamp[order[p]] <= stamp[i]
  {
    forall i: nat | i < |bufs| && bufs[i].refcnt == 0 ensures stamp[order[p]] <= stamp[i] {
      assert OnList(order, i);
      var q :| 0 <= q < |order| && order[q] == i;
      assert q <= p;
    }
  }

  lemma MoveToFront(order: seq<nat>, stamp: seq<nat>, clock: nat, p: nat)
    requires RecentFirst(order, stamp, clock) && p < |order|
    requires Covers(order, |stamp|)
    ensures RecentFirst([order[p]] + Without(order, p), stamp[order[p] := clock], clock + 1)
    ensures Covers([order[p]] + Without(order, p), |stamp|)
    ensures forall i | 0 <= i < |stamp| :: stamp[i] < clock
  {
    var b, rest := order[p], Without(order, p);
    assert forall k | 0 <= k < |rest| :: rest[k] == if k < p then order[k] else order[k + 1];
    forall i: nat | i < |stamp| ensures stamp[i] < clock && OnList([b] + rest, i) {
      assert OnList(order, i);
      var q :| 0 <= q < |order| && order[q] == i;
      OnListMoved(order, p, q);
    }
  }

  lemma OnListMoved(order: seq<nat>, p: nat, q: nat)
    requires p < |order| && q < |order|
    ensures OnList([order[p]] + Without(order, p), order[q])
  {
    var l := [order[p]] + Without(order, p);
    var k := if q < p then 1 + q else if q > p then q else 0;
    assert l[k] == order[q];
  }
}
