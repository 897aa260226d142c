/**
  * The descriptor protocol of kernel/virtio_disk.c (sections 2.6 and 5.2 of VIRTIO 1.1): the
  * driver's steps under vdisk_lock, interleaved with those of a device that takes requests in ring
  * order and completes them in any order.
  */
module Virtio {
  const NONE := -1
  const WRAP := 65536

  datatype Desc = Desc(next: int, more: bool)

  /** Where a request is: in the avail ring, with the device, in the used ring, or noticed by the driver. */
  datatype Phase = Queued | AtDevice | Done(st: int) | Complete

  /** A request, known by its head descriptor: its other two descriptors and its buffer. */
  datatype Req = Req(i1: int, i2: int, b: int, phase: Phase)

  /**
    * The driver's and the device's shared memory (free .. uidx and the driver's used_idx, seen16),
    * the buffers with b->disk == 1, and for the proofs: the requests in flight, the chain each
    * descriptor belongs to, and how many entries were ever offered, taken, used and seen.
    */
  datatype V = V(free: seq<bool>, desc: seq<Desc>, infoB: seq<int>, status: seq<int>,
                 aring: seq<int>, aidx: int, uring: seq<int>, uidx: int, seen16: int, busy: set<int>,
                 reqs: map<int, Req>, own: map<int, int>, availQ: seq<int>, usedQ: seq<int>, taken: int, seen: int)

  function N(v: V): int {
    |v.free|
  }

  predicate Shape(v: V) {
    && 0 < N(v) && WRAP % N(v) == 0
    && |v.desc| == |v.infoB| == |v.status| == |v.aring| == |v.uring| == N(v)
  }

  // Arithmetic of the rings

  function RingSlot(i: int, n: int): (r: int)
    requires n > 0
    ensures 0 <= r < n
  {
    i % n
  }

  lemma Between(n: int, q: int)
    requires n > 0
    ensures q >= 1 ==> n * q >= n
    ensures q <= 0 ==> n * q <= 0
  {
  }

  /** Two counts less than a ring's length apart use different slots. */
  lemma SlotsDiffer(a: int, b: int, n: int)
    requires n > 0 && 0 < a - b < n
    ensures a % n != b % n
  {
    Between(n, a / n - b / n);
    assert a == n * (a / n) + a % n && b == n * (b / n) + b % n;
    assert n * (a / n) - n * (b / n) == n * (a / n - b / n);
  }

  lemma ModUnique(a: int, n: int, q: int, r: int)
    requires n > 0 && 0 <= r < n && a == n * q + r
    ensures a % n == r
  {
    Between(n, a / n - q);
    assert a == n * (a / n) + a % n;
    assert n * (a / n - q) == n * (a / n) - n * q;
  }

  /** A count kept in 16 bits selects the same slot as the count itself. */
  lemma WrapKeepsSlot(a: int, n: int)
    requires n > 0 && WRAP % n == 0
    ensures a % WRAP % n == a % n
  {
    var c, q, r := WRAP / n, a / WRAP, a % WRAP;
    assert WRAP == n * c;
    assert a == WRAP * q + r;
    assert WRAP * q == n * (c * q) by {
      assert n * c * q == n * (c * q);
    }
    var q2 := r / n;
    assert r == n * q2 + r % n;
    assert a == n * (c * q + q2) + r % n by {
      assert n * (c * q + q2) == n * (c * q) + n * q2;
    }
    ModUnique(a, n, c * q + q2, r % n);
  }

  lemma NextWrap(a: int)
    requires a >= 0
    ensures (a % WRAP + 1) % WRAP == (a + 1) % WRAP
  {
  }

  // Counting free descriptors

  function FreeCount(free: seq<bool>): (c: nat)
    ensures c <= |free|
  {
    if free == [] then 0 else (if free[0] then 1 else 0) + FreeCount(free[1..])
  }

  lemma {:induction false} FreeCountSet(free: seq<bool>, i: int, x: bool)
    requires 0 <= i < |free|
    ensures FreeCount(free[i := x]) == FreeCount(free) - (if free[i] then 1 else 0) + (if x then 1 else 0)
    decreases |free|
  {
    if i == 0 {
      assert free[0 := x][1..] == free[1..];
    } else {
      FreeCountSet(free[1..], i - 1, x);
      assert free[i := x][1..] == free[1..][i - 1 := x];
    }
  }

  lemma {:induction false} AllFree(free: seq<bool>)
    requires forall i | 0 <= i < |free| :: free[i]
    ensures FreeCount(free) == |free|
    decreases |free|
  {
    if free != [] {
      AllFree(free[1..]);
    }
  }

  /** The first free descriptor from i on, or the end. */
  function FirstFree(free: seq<bool>, i: nat): (r: nat)
    requires i <= |free|
    ensures i <= r <= |free| && (r < |free| ==> free[r]) && forall j | i <= j < r :: !free[j]
    decreases |free| - i
  {
    if i == |free| || free[i] then i else FirstFree(free, i + 1)
  }

  lemma {:induction false} NoneFree(free: seq<bool>)
    requires forall i | 0 <= i < |free| :: !free[i]
    ensures FreeCount(free) == 0
    decreases |free|
  {
    if free != [] {
      NoneFree(free[1..]);
    }
  }

  // The invariant

  predicate Triple(v: V, h: int) {
    h in v.reqs && 0 <= h < N(v) && 0 <= v.reqs[h].i1 < N(v) && 0 <= v.reqs[h].i2 < N(v)
    && h != v.reqs[h].i1 && h != v.reqs[h].i2 && v.reqs[h].i1 != v.reqs[h].i2
  }

  /**
    * The chain of a request in flight is three descriptors that belong to it alone, linked in order. Its status
    * is 0xff until the device reports one.
    */
  ghost predicate ReqOk(v: V, h: int) {
    Shape(v) && h in v.reqs ==>
      var r := v.reqs[h];
      && Triple(v, h)
      && h in v.own && v.own[h] == h && r.i1 in v.own && v.own[r.i1] == h && r.i2 in v.own && v.own[r.i2] == h
      && v.desc[h] == Desc(r.i1, true) && v.desc[r.i1] == Desc(r.i2, true) && !v.desc[r.i2].more
      && v.infoB[h] == r.b && (r.b in v.busy <==> !r.phase.Complete?)
      && (r.phase.Queued? || r.phase.AtDevice? ==> v.status[h] == 255)
      && (r.phase.Done? ==> v.status[h] == r.phase.st) && (r.phase.Complete? ==> v.status[h] == 0)
  }

  ghost predicate DescOk(v: V, d: int) {
    Shape(v) ==>
      && (d in v.own ==>
        0 <= d < N(v) && v.own[d] in v.reqs && (d == v.own[d] || d == v.reqs[v.own[d]].i1 || d == v.reqs[v.own[d]].i2))
      && (0 <= d < N(v) ==> (v.free[d] <==> d !in v.own) && (d !in v.reqs ==> v.infoB[d] == NONE))
  }

  ghost predicate BuffersApart(v: V, h: int, g: int) {
    h in v.reqs && g in v.reqs && h != g ==> v.reqs[h].b != v.reqs[g].b
  }

  ghost predicate BusyOk(v: V, b: int) {
    b in v.busy ==> exists h :: h in v.reqs && v.reqs[h].b == b
  }

  /** Entry k of the avail ring has not been overwritten, and is a request the device has yet to take. */
  ghost predicate AvailOk(v: V, k: int) {
    Shape(v) && 0 <= v.taken <= k < |v.availQ| ==>
      && v.aring[k % N(v)] == v.availQ[k] && v.availQ[k] in v.reqs && v.reqs[v.availQ[k]].phase.Queued?
  }

  ghost predicate UsedOk(v: V, k: int) {
    Shape(v) && 0 <= v.seen <= k < |v.usedQ| ==>
      && v.uring[k % N(v)] == v.usedQ[k] && v.usedQ[k] in v.reqs && v.reqs[v.usedQ[k]].phase.Done?
  }

  ghost predicate AvailApart(v: V, j: int, k: int) {
    0 <= v.taken <= j < k < |v.availQ| ==> v.availQ[j] != v.availQ[k]
  }

  ghost predicate UsedApart(v: V, j: int, k: int) {
    0 <= v.seen <= j < k < |v.usedQ| ==> v.usedQ[j] != v.usedQ[k]
  }

  predicate Offered(v: V, h: int, k: int) {
    v.taken <= k < |v.availQ| && 0 <= k && v.availQ[k] == h
  }

  predicate Reported(v: V, h: int, k: int) {
    v.seen <= k < |v.usedQ| && 0 <= k && v.usedQ[k] == h
  }

  /** No request is lost: one the device has not taken is offered to it, one it has finished is reported. */
  ghost predicate Listed(v: V, h: int) {
    h in v.reqs ==>
      && (v.reqs[h].phase.Queued? ==> exists k :: Offered(v, h, k))
      && (v.reqs[h].phase.Done? ==> exists k :: Reported(v, h, k))
  }

  /** The 16-bit indices are the counts, reduced. */
  ghost predicate Indices(v: V) {
    && 0 <= v.taken <= |v.availQ| && 0 <= v.seen <= |v.usedQ|
    && v.aidx == |v.availQ| % WRAP && v.uidx == |v.usedQ| % WRAP && v.seen16 == v.seen % WRAP
  }

  /** Every request in flight holds three descriptors and all the others are free. */
  ghost predicate Conserved(v: V) {
    FreeCount(v.free) + 3 * |v.reqs.Keys| == N(v)
  }

  ghost predicate Inv(v: V) {
    && Shape(v) && Indices(v) && Conserved(v)
    && (forall h :: ReqOk(v, h))
    && (forall d :: DescOk(v, d))
    && (forall h, g :: BuffersApart(v, h, g))
    && (forall b :: BusyOk(v, b))
    && (forall k :: AvailOk(v, k))
    && (forall k :: UsedOk(v, k))
    && (forall j, k :: AvailApart(v, j, k))
    && (forall j, k :: UsedApart(v, j, k))
    && (forall h :: Listed(v, h))
  }

  /** What was listed stays listed, but for the one request that moves on. */
  lemma ListedKept(v: V, n: V, h: int)
    requires Indices(v) && Indices(n) && Listed(v, h)
    requires h in n.reqs ==> h in v.reqs && n.reqs[h].phase == v.reqs[h].phase
    requires v.availQ <= n.availQ && v.usedQ <= n.usedQ && v.taken <= n.taken && v.seen <= n.seen
    requires forall k | v.taken <= k < n.taken && k < |v.availQ| :: v.availQ[k] != h
    requires forall k | v.seen <= k < n.seen && k < |v.usedQ| :: v.usedQ[k] != h
    ensures Listed(n, h)
  {
    if h in n.reqs && n.reqs[h].phase.Queued? {
      var k :| Offered(v, h, k);
      assert Offered(n, h, k);
    }
    if h in n.reqs && n.reqs[h].phase.Done? {
      var k :| Reported(v, h, k);
      assert Reported(n, h, k);
    }
  }

  /** A list without repetition is no longer than the set it is drawn from. */
  lemma {:induction false} Drawn(q: seq<int>, s: set<int>)
    requires (forall i | 0 <= i < |q| :: q[i] in s) && forall i, j | 0 <= i < j < |q| :: q[i] != q[j]
    ensures |q| <= |s|
    decreases |q|
  {
    if q != [] {
      var x := q[|q| - 1];
      Drawn(q[..|q| - 1], s - {x});
    }
  }

  /** The rings never hold more than there are requests in flight, which is at most a third of the descriptors. */
  lemma RingsShort(v: V)
    requires Inv(v)
    ensures |v.availQ| - v.taken <= |v.reqs.Keys|
    ensures |v.usedQ| - v.seen <= |v.reqs.Keys| && 3 * |v.reqs.Keys| <= N(v) <= WRAP
  {
    var q, u := v.availQ[v.taken..], v.usedQ[v.seen..];
    forall i | 0 <= i < |q| ensures q[i] in v.reqs.Keys {
      assert AvailOk(v, v.taken + i);
    }
    forall i, j | 0 <= i < j < |q| ensures q[i] != q[j] {
      assert AvailApart(v, v.taken + i, v.taken + j);
    }
    Drawn(q, v.reqs.Keys);
    forall i | 0 <= i < |u| ensures u[i] in v.reqs.Keys {
      assert UsedOk(v, v.seen + i);
    }
    forall i, j | 0 <= i < j < |u| ensures u[i] != u[j] {
      assert UsedApart(v, v.seen + i, v.seen + j);
    }
    Drawn(u, v.reqs.Keys);
    DividesBounds(N(v));
  }

  lemma DividesBounds(n: int)
    requires n > 0 && WRAP % n == 0
    ensures n <= WRAP
  {
    if n > WRAP {
      ModUnique(WRAP, n, 0, WRAP);
    }
  }

  // virtio_disk_rw up to the notification

  predicate CanSubmit(v: V, b: int, i0: int, i1: int, i2: int) {
    && Shape(v) && 0 <= i0 < N(v) && 0 <= i1 < N(v) && 0 <= i2 < N(v) && i0 != i1 && i0 != i2 && i1 != i2
    && v.free[i0] && v.free[i1] && v.free[i2]
    && b !in v.busy && b != NONE && forall h :: h in v.reqs ==> v.reqs[h].b != b
  }

  /** The three descriptors are taken and filled in, and the buffer is the disk's. */
  function Fill(v: V, b: int, i0: int, i1: int, i2: int): V
    requires CanSubmit(v, b, i0, i1, i2)
  {
    v.(free := v.free[i0 := false][i1 := false][i2 := false],
       desc := v.desc[i0 := Desc(i1, true)][i1 := Desc(i2, true)][i2 := Desc(0, false)],
       infoB := v.infoB[i0 := b], status := v.status[i0 := 255], busy := v.busy + {b})
  }

  /** The head is put in the avail ring. */
  function Offer(v: V, b: int, i0: int, i1: int, i2: int): V
    requires 0 < N(v) == |v.aring|
  {
    v.(aring := v.aring[RingSlot(v.aidx, N(v)) := i0], aidx := (v.aidx + 1) % WRAP,
       reqs := v.reqs[i0 := Req(i1, i2, b, Queued)], own := v.own[i0 := i0][i1 := i0][i2 := i0],
       availQ := v.availQ + [i0])
  }

  function Submit(v: V, b: int, i0: int, i1: int, i2: int): V
    requires CanSubmit(v, b, i0, i1, i2)
  {
    Offer(Fill(v, b, i0, i1, i2), b, i0, i1, i2)
  }

  lemma NewDescriptors(v: V, b: int, i0: int, i1: int, i2: int)
    requires Inv(v) && CanSubmit(v, b, i0, i1, i2)
    ensures i0 !in v.own && i1 !in v.own && i2 !in v.own && i0 !in v.reqs
  {
    assert DescOk(v, i0) && DescOk(v, i1) && DescOk(v, i2) && ReqOk(v, i0);
  }

  lemma SubmitReqs(v: V, b: int, i0: int, i1: int, i2: int, h: int)
    requires Inv(v) && CanSubmit(v, b, i0, i1, i2)
    ensures ReqOk(Submit(v, b, i0, i1, i2), h)
  {
    NewDescriptors(v, b, i0, i1, i2);
    assert ReqOk(v, h);
  }

  lemma SubmitDescs(v: V, b: int, i0: int, i1: int, i2: int, d: int)
    requires Inv(v) && CanSubmit(v, b, i0, i1, i2)
    ensures DescOk(Submit(v, b, i0, i1, i2), d)
  {
    NewDescriptors(v, b, i0, i1, i2);
    assert DescOk(v, d);
  }

  /** The slot the driver writes is not one the device has yet to read. */
  lemma AvailSlot(v: V, k: int)
    requires Inv(v)
    ensures v.aidx % N(v) == |v.availQ| % N(v)
    ensures v.taken <= k < |v.availQ| ==> k % N(v) != |v.availQ| % N(v)
  {
    RingsShort(v);
    WrapKeepsSlot(|v.availQ|, N(v));
    if v.taken <= k < |v.availQ| {
      SlotsDiffer(|v.availQ|, k, N(v));
    }
  }

  lemma RingAfter(ring: seq<int>, at: int, x: int, k: int)
    requires 0 <= at < |ring| && 0 <= k < |ring|
    ensures ring[at := x][k] == if k == at then x else ring[k]
  {
  }

  lemma SubmitAvail(v: V, b: int, i0: int, i1: int, i2: int, k: int)
    requires Inv(v) && CanSubmit(v, b, i0, i1, i2)
    ensures AvailOk(Submit(v, b, i0, i1, i2), k)
  {
    NewDescriptors(v, b, i0, i1, i2);
    assert AvailOk(v, k);
    AvailSlot(v, k);
    RingAfter(v.aring, |v.availQ| % N(v), i0, k % N(v));
  }

  lemma SubmitIndices(v: V, b: int, i0: int, i1: int, i2: int)
    requires Inv(v) && CanSubmit(v, b, i0, i1, i2)
    ensures Indices(Submit(v, b, i0, i1, i2))
  {
    NextWrap(|v.availQ|);
  }

  lemma SubmitConserves(v: V, b: int, i0: int, i1: int, i2: int)
    requires Inv(v) && CanSubmit(v, b, i0, i1, i2)
    ensures Conserved(Submit(v, b, i0, i1, i2))
  {
    NewDescriptors(v, b, i0, i1, i2);
    ThreeSet(v.free, i0, i1, i2, false);
    OneMore(v.reqs, i0, Req(i1, i2, b, Queued));
  }

  lemma OneMore(reqs: map<int, Req>, h: int, r: Req)
    requires h !in reqs
    ensures |reqs[h := r].Keys| == |reqs.Keys| + 1
  {
    assert reqs[h := r].Keys == reqs.Keys + {h};
  }

  lemma ThreeSet(free: seq<bool>, x: int, y: int, z: int, to: bool)
    requires 0 <= x < |free| && 0 <= y < |free| && 0 <= z < |free| && x != y && x != z && y != z
    requires free[x] == free[y] == free[z] == !to
    ensures FreeCount(free[x := to][y := to][z := to]) == FreeCount(free) + if to then 3 else -3
  {
    FreeCountSet(free, x, to);
    FreeCountSet(free[x := to], y, to);
    FreeCountSet(free[x := to][y := to], z, to);
  }

  lemma SubmitKeepsInv(v: V, b: int, i0: int, i1: int, i2: int)
    requires Inv(v) && CanSubmit(v, b, i0, i1, i2)
    ensures Inv(Submit(v, b, i0, i1, i2))
  {
    var n := Submit(v, b, i0, i1, i2);
    NewDescriptors(v, b, i0, i1, i2);
    SubmitIndices(v, b, i0, i1, i2);
    SubmitConserves(v, b, i0, i1, i2);
    forall h ensures ReqOk(n, h) {
      SubmitReqs(v, b, i0, i1, i2, h);
    }
    forall d ensures DescOk(n, d) {
      SubmitDescs(v, b, i0, i1, i2, d);
    }
    forall h, g ensures BuffersApart(n, h, g) {
      assert BuffersApart(v, h, g);
    }
    forall x ensures BusyOk(n, x) {
      assert BusyOk(v, x);
      if x in v.busy {
        var h :| h in v.reqs && v.reqs[h].b == x;
        assert h in n.reqs && n.reqs[h].b == x;
      } else {
        assert i0 in n.reqs && n.reqs[i0].b == b;
      }
    }
    forall k ensures AvailOk(n, k) {
      SubmitAvail(v, b, i0, i1, i2, k);
    }
    forall k ensures UsedOk(n, k) {
      assert UsedOk(v, k);
    }
    forall j, k ensures AvailApart(n, j, k) {
      assert AvailApart(v, j, k) && AvailOk(v, j);
    }
    forall j, k ensures UsedApart(n, j, k) {
      assert UsedApart(v, j, k);
    }
    forall h ensures Listed(n, h) {
      if h == i0 {
        assert Offered(n, h, |v.availQ|);
      } else {
        ListedKept(v, n, h);
      }
    }
  }

  // The device

  /** The device reads the next entry of the avail ring. */
  predicate CanTake(v: V) {
    Shape(v) && v.taken >= 0 && v.taken % WRAP != v.aidx
  }

  function Head(v: V): int
    requires CanTake(v)
  {
    WrapKeepsSlot(v.taken, N(v));
    v.aring[v.taken % WRAP % N(v)]
  }

  function Take(v: V): V
    requires CanTake(v) && Head(v) in v.reqs
  {
    v.(reqs := v.reqs[Head(v) := v.reqs[Head(v)].(phase := AtDevice)], taken := v.taken + 1)
  }

  /** What the device reads is the oldest request offered and not yet taken. */
  lemma TakesOldest(v: V)
    requires Inv(v) && CanTake(v)
    ensures v.taken < |v.availQ| && Head(v) == v.availQ[v.taken] && Head(v) in v.reqs && v.reqs[Head(v)].phase.Queued?
  {
    WrapKeepsSlot(v.taken, N(v));
    assert v.taken != |v.availQ|;
    assert AvailOk(v, v.taken);
  }

  lemma TakeKeepsInv(v: V)
    requires Inv(v) && CanTake(v)
    ensures Head(v) in v.reqs && Inv(Take(v))
  {
    TakesOldest(v);
    var n, x := Take(v), Head(v);
    assert n.reqs.Keys == v.reqs.Keys;
    forall h ensures ReqOk(n, h) {
      assert ReqOk(v, h);
    }
    forall d ensures DescOk(n, d) {
      assert DescOk(v, d);
    }
    forall h, g ensures BuffersApart(n, h, g) {
      assert BuffersApart(v, h, g);
    }
    forall b ensures BusyOk(n, b) {
      assert BusyOk(v, b);
      if b in v.busy {
        var h :| h in v.reqs && v.reqs[h].b == b;
        assert h in n.reqs && n.reqs[h].b == b;
      }
    }
    forall k ensures AvailOk(n, k) {
      assert AvailOk(v, k) && AvailApart(v, v.taken, k);
    }
    forall k ensures UsedOk(n, k) {
      assert UsedOk(v, k);
    }
    forall j, k ensures AvailApart(n, j, k) {
      assert AvailApart(v, j, k);
    }
    forall j, k ensures UsedApart(n, j, k) {
      assert UsedApart(v, j, k);
    }
    forall h ensures Listed(n, h) {
      if h != x {
        ListedKept(v, n, h);
      }
    }
  }

  /** The device finishes a request it holds, any of them. */
  predicate CanComplete(v: V, h: int) {
    Shape(v) && h in v.reqs && 0 <= h < N(v) && v.reqs[h].phase.AtDevice?
  }

  /** It writes the status, 0 if all went well, and the next used entry. */
  function Use(v: V, h: int, st: int): V
    requires CanComplete(v, h)
  {
    v.(uring := v.uring[v.uidx % N(v) := h], uidx := (v.uidx + 1) % WRAP, status := v.status[h := st],
       reqs := v.reqs[h := v.reqs[h].(phase := Done(st))], usedQ := v.usedQ + [h])
  }

  lemma UsedSlot(v: V, k: int)
    requires Inv(v)
    ensures v.uidx % N(v) == |v.usedQ| % N(v)
    ensures v.seen <= k < |v.usedQ| ==> k % N(v) != |v.usedQ| % N(v)
  {
    RingsShort(v);
    WrapKeepsSlot(|v.usedQ|, N(v));
    if v.seen <= k < |v.usedQ| {
      SlotsDiffer(|v.usedQ|, k, N(v));
    }
  }

  lemma UseUsed(v: V, h: int, st: int, k: int)
    requires Inv(v) && CanComplete(v, h)
    ensures UsedOk(Use(v, h, st), k)
  {
    assert UsedOk(v, k);
    UsedSlot(v, k);
  }

  lemma UseAvail(v: V, h: int, st: int, k: int)
    requires Inv(v) && CanComplete(v, h)
    ensures AvailOk(Use(v, h, st), k)
  {
    assert AvailOk(v, k);
  }

  lemma UseCounts(v: V, h: int, st: int)
    requires Inv(v) && CanComplete(v, h)
    ensures Indices(Use(v, h, st)) && Conserved(Use(v, h, st))
  {
    NextWrap(|v.usedQ|);
    assert Use(v, h, st).reqs.Keys == v.reqs.Keys;
  }

  lemma UseKeepsInv(v: V, h: int, st: int)
    requires Inv(v) && CanComplete(v, h)
    ensures Inv(Use(v, h, st))
  {
    var n := Use(v, h, st);
    assert ReqOk(v, h);
    UseCounts(v, h, st);
    forall g ensures ReqOk(n, g) {
      assert ReqOk(v, g);
    }
    forall d ensures DescOk(n, d) {
      assert DescOk(v, d);
    }
    forall f, g ensures BuffersApart(n, f, g) {
      assert BuffersApart(v, f, g);
    }
    forall b ensures BusyOk(n, b) {
      assert BusyOk(v, b);
      if b in v.busy {
        var g :| g in v.reqs && v.reqs[g].b == b;
        assert g in n.reqs && n.reqs[g].b == b;
      }
    }
    forall k ensures AvailOk(n, k) {
      UseAvail(v, h, st, k);
    }
    forall k ensures UsedOk(n, k) {
      UseUsed(v, h, st, k);
    }
    forall j, k ensures AvailApart(n, j, k) {
      assert AvailApart(v, j, k);
    }
    forall j, k ensures UsedApart(n, j, k) {
      assert UsedApart(v, j, k) && UsedOk(v, j);
    }
    forall g ensures Listed(n, g) {
      if g == h {
        assert Reported(n, h, |v.usedQ|);
      } else {
        ListedKept(v, n, g);
      }
    }
  }

  // virtio_disk_intr

  predicate CanSee(v: V) {
    Shape(v) && v.seen16 >= 0 && v.seen16 != v.uidx
  }

  function UsedHead(v: V): int
    requires CanSee(v)
  {
    v.uring[v.seen16 % N(v)]
  }

  /** The next used entry reports success; otherwise virtio_disk_intr panics. */
  predicate Succeeded(v: V) {
    CanSee(v) && 0 <= UsedHead(v) < N(v) && v.status[UsedHead(v)] == 0
  }

  /** One round of the loop in virtio_disk_intr: the buffer of the next used entry is no longer the disk's. */
  function See(v: V): V
    requires CanSee(v) && UsedHead(v) in v.reqs && 0 <= UsedHead(v) < N(v)
  {
    var h := UsedHead(v);
    v.(busy := v.busy - {v.infoB[h]}, seen16 := (v.seen16 + 1) % WRAP, seen := v.seen + 1,
       reqs := v.reqs[h := v.reqs[h].(phase := Complete)])
  }

  /**
    * The loop runs exactly while there are entries it has not seen, 16-bit wrap or not; each is the
    * next one in order, a request the device has finished, with the status it reported and the buffer it
    * was submitted with.
    */
  lemma SeesNext(v: V)
    requires Inv(v)
    ensures v.seen16 != v.uidx <==> v.seen < |v.usedQ|
    ensures CanSee(v) ==>
              var h := UsedHead(v);
              && h == v.usedQ[v.seen] && h in v.reqs && 0 <= h < N(v) && v.reqs[h].phase.Done?
              && v.status[h] == v.reqs[h].phase.st && v.infoB[h] == v.reqs[h].b && v.reqs[h].b in v.busy
  {
    RingsShort(v);
    WrapKeepsSlot(v.seen, N(v));
    if v.seen < |v.usedQ| {
      SlotsDiffer(|v.usedQ|, v.seen, WRAP);
      assert UsedOk(v, v.seen);
      assert ReqOk(v, v.usedQ[v.seen]);
    }
  }

  lemma SeeCounts(v: V)
    requires Inv(v) && CanSee(v)
    ensures UsedHead(v) in v.reqs && 0 <= UsedHead(v) < N(v) && Indices(See(v)) && Conserved(See(v))
  {
    SeesNext(v);
    NextWrap(v.seen);
    assert See(v).reqs.Keys == v.reqs.Keys;
  }

  lemma SeeAvail(v: V, k: int)
    requires Inv(v) && CanSee(v) && UsedHead(v) in v.reqs && 0 <= UsedHead(v) < N(v)
    ensures AvailOk(See(v), k)
  {
    SeesNext(v);
    assert AvailOk(v, k);
  }

  lemma SeeUsed(v: V, k: int)
    requires Inv(v) && CanSee(v) && UsedHead(v) in v.reqs && 0 <= UsedHead(v) < N(v)
    ensures UsedOk(See(v), k)
  {
    SeesNext(v);
    assert UsedOk(v, k) && UsedApart(v, v.seen, k);
  }

  lemma SeeKeepsInv(v: V)
    requires Inv(v) && Succeeded(v)
    ensures UsedHead(v) in v.reqs && 0 <= UsedHead(v) < N(v) && Inv(See(v))
  {
    SeesNext(v);
    var n, h := See(v), UsedHead(v);
    SeeCounts(v);
    forall g ensures ReqOk(n, g) {
      assert ReqOk(v, g) && BuffersApart(v, g, h);
    }
    forall d ensures DescOk(n, d) {
      assert DescOk(v, d);
    }
    forall f, g ensures BuffersApart(n, f, g) {
      assert BuffersApart(v, f, g);
    }
    forall b ensures BusyOk(n, b) {
      assert BusyOk(v, b);
      if b in v.busy {
        var g :| g in v.reqs && v.reqs[g].b == b;
        assert g in n.reqs && n.reqs[g].b == b;
      }
    }
    forall k ensures AvailOk(n, k) {
      SeeAvail(v, k);
    }
    forall k ensures UsedOk(n, k) {
      SeeUsed(v, k);
    }
    forall j, k ensures AvailApart(n, j, k) {
      assert AvailApart(v, j, k);
    }
    forall j, k ensures UsedApart(n, j, k) {
      assert UsedApart(v, j, k);
    }
    forall g ensures Listed(n, g) {
      if g != h {
        ListedKept(v, n, g);
      }
    }
  }

  // The end of virtio_disk_rw

  predicate CanFinish(v: V, h: int) {
    Shape(v) && Triple(v, h) && v.reqs[h].phase.Complete?
  }

  /** The three descriptors of a completed request are free again. */
  function Finish(v: V, h: int): V
    requires CanFinish(v, h)
  {
    var i1, i2 := v.reqs[h].i1, v.reqs[h].i2;
    v.(free := v.free[h := true][i1 := true][i2 := true],
       desc := v.desc[h := Desc(0, false)][i1 := Desc(0, false)][i2 := Desc(0, false)],
       infoB := v.infoB[h := NONE], reqs := v.reqs - {h}, own := v.own - {h, i1, i2})
  }

  lemma FinishReqs(v: V, h: int, g: int)
    requires Inv(v) && CanFinish(v, h)
    ensures ReqOk(Finish(v, h), g)
  {
    assert ReqOk(v, h) && ReqOk(v, g);
  }

  lemma FinishDescs(v: V, h: int, d: int)
    requires Inv(v) && CanFinish(v, h)
    ensures DescOk(Finish(v, h), d)
  {
    assert ReqOk(v, h) && DescOk(v, d);
  }

  lemma FinishCounts(v: V, h: int)
    requires Inv(v) && CanFinish(v, h)
    ensures Indices(Finish(v, h)) && Conserved(Finish(v, h))
  {
    var n, i1, i2 := Finish(v, h), v.reqs[h].i1, v.reqs[h].i2;
    assert ReqOk(v, h) && DescOk(v, h) && DescOk(v, i1) && DescOk(v, i2);
    ThreeSet(v.free, h, i1, i2, true);
    assert n.reqs.Keys == v.reqs.Keys - {h};
  }

  lemma FinishKeepsInv(v: V, h: int)
    requires Inv(v) && CanFinish(v, h)
    ensures Inv(Finish(v, h))
  {
    var n := Finish(v, h);
    FinishCounts(v, h);
    forall g ensures ReqOk(n, g) {
      FinishReqs(v, h, g);
    }
    forall d ensures DescOk(n, d) {
      FinishDescs(v, h, d);
    }
    forall f, g ensures BuffersApart(n, f, g) {
      assert BuffersApart(v, f, g);
    }
    forall b ensures BusyOk(n, b) {
      assert BusyOk(v, b);
      if b in v.busy {
        var g :| g in v.reqs && v.reqs[g].b == b;
        assert ReqOk(v, g);
        assert g in n.reqs && n.reqs[g].b == b;
      }
    }
    forall k ensures AvailOk(n, k) {
      assert AvailOk(v, k);
    }
    forall k ensures UsedOk(n, k) {
      assert UsedOk(v, k);
    }
    forall j, k ensures AvailApart(n, j, k) {
      assert AvailApart(v, j, k);
    }
    forall j, k ensures UsedApart(n, j, k) {
      assert UsedApart(v, j, k);
    }
    forall g ensures Listed(n, g) {
      ListedKept(v, n, g);
    }
  }

  // Runs

  datatype Action = DoSubmit(b: int) | DoTake | DoUse(h: int, st: int) | DoSee | DoFinish(h: int)

  /** The protocol, with the buffers ever submitted and ever given back. */
  datatype R = R(v: V, submitted: multiset<int>, returned: multiset<int>)

  /** The three descriptors alloc3_desc finds. */
  function Pick(free: seq<bool>): (r: (nat, nat, nat))
    ensures r.0 <= |free| && r.1 <= |free| && r.2 <= |free|
    ensures r.2 < |free| ==> r.0 < r.1 < r.2 && free[r.0] && free[r.1] && free[r.2]
  {
    var x := FirstFree(free, 0);
    var y := if x < |free| then FirstFree(free, x + 1) else x;
    var z := if y < |free| then FirstFree(free, y + 1) else y;
    (x, y, z)
  }

  /** Three descriptors are found exactly if three are free. */
  lemma PickFinds(free: seq<bool>)
    ensures Pick(free).2 < |free| <==> FreeCount(free) >= 3
  {
    var (x, y, z) := Pick(free);
    if z < |free| {
      ThreeSet(free, x, y, z, false);
    } else {
      FewFree(free, x, y);
    }
  }

  /** If only x and y can be free, at most two are. */
  lemma FewFree(free: seq<bool>, x: nat, y: nat)
    requires forall j | 0 <= j < |free| && j != x && j != y :: !free[j]
    ensures FreeCount(free) <= 2
  {
    var f := if x < |free| then free[x := false] else free;
    var g := if y < |free| then f[y := false] else f;
    if x < |free| {
      FreeCountSet(free, x, false);
    }
    if y < |free| {
      FreeCountSet(f, y, false);
    }
    NoneFree(g);
  }

  ghost predicate Idle(v: V, b: int) {
    b !in v.busy && b != NONE && forall h :: h in v.reqs ==> v.reqs[h].b != b
  }

  ghost function Next(r: R, a: Action): R
    requires Inv(r.v)
  {
    var v := r.v;
    match a
    case DoSubmit(b) =>
      var (i0, i1, i2) := Pick(v.free);
      if Idle(v, b) && i2 < |v.free| then r.(v := Submit(v, b, i0, i1, i2), submitted := r.submitted + multiset{b})
      else r
    case DoTake => if CanTake(v) then TakesOldest(v); r.(v := Take(v)) else r
    case DoUse(h, st) => if CanComplete(v, h) then r.(v := Use(v, h, st)) else r
    case DoSee =>
      if Succeeded(v) then SeesNext(v); r.(v := See(v), returned := r.returned + multiset{v.infoB[UsedHead(v)]}) else r
    case DoFinish(h) => if CanFinish(v, h) then r.(v := Finish(v, h)) else r
  }

  /** A buffer is given back once for each time it was submitted, except while the disk has it. */
  ghost predicate Balanced(r: R, b: int) {
    r.submitted[b] == r.returned[b] + if b in r.v.busy then 1 else 0
  }

  lemma NextKeepsInv(r: R, a: Action)
    requires Inv(r.v)
    ensures Inv(Next(r, a).v)
  {
    var v := r.v;
    match a
    case DoSubmit(b) =>
      var (i0, i1, i2) := Pick(v.free);
      if Idle(v, b) && i2 < |v.free| { SubmitKeepsInv(v, b, i0, i1, i2); }
    case DoTake => if CanTake(v) { TakeKeepsInv(v); }
    case DoUse(h, st) => if CanComplete(v, h) { UseKeepsInv(v, h, st); }
    case DoSee => if Succeeded(v) { SeeKeepsInv(v); }
    case DoFinish(h) => if CanFinish(v, h) { FinishKeepsInv(v, h); }
  }

  lemma NextBalanced(r: R, a: Action, b: int)
    requires Inv(r.v) && Balanced(r, b)
    ensures Balanced(Next(r, a), b)
  {
    if a.DoSee? {
      SeesNext(r.v);
    }
  }

  lemma StepKeepsInv(r: R, a: Action)
    requires Inv(r.v) && forall b :: Balanced(r, b)
    ensures Inv(Next(r, a).v) && forall b :: Balanced(Next(r, a), b)
  {
    NextKeepsInv(r, a);
    var n := Next(r, a);
    forall b ensures Balanced(n, b) {
      NextBalanced(r, a, b);
    }
  }

  function Start(n: nat): R
    requires n > 0 && WRAP % n == 0
  {
    var zeros := seq(n, _ => 0);
    R(V(seq(n, _ => true), seq(n, _ => Desc(0, false)), seq(n, _ => NONE), zeros, zeros, 0, zeros, 0, 0,
        {}, map[], map[], [], [], 0, 0),
      multiset{}, multiset{})
  }

  lemma StartInv(n: nat)
    requires n > 0 && WRAP % n == 0
    ensures Inv(Start(n).v) && forall b :: Balanced(Start(n), b)
  {
    var v := Start(n).v;
    AllFree(v.free);
    forall h ensures ReqOk(v, h) && DescOk(v, h) && BusyOk(v, h) && AvailOk(v, h) && UsedOk(v, h) && Listed(v, h) {
    }
    forall h, g ensures BuffersApart(v, h, g) && AvailApart(v, h, g) && UsedApart(v, h, g) {
    }
  }

  ghost function Run(n: nat, acts: seq<Action>): (r: R)
    requires n > 0 && WRAP % n == 0
    ensures Inv(r.v) && forall b :: Balanced(r, b)
  {
    if acts == [] then StartInv(n); Start(n)
    else
      var r := Run(n, acts[..|acts| - 1]);
      StepKeepsInv(r, acts[|acts| - 1]);
      Next(r, acts[|acts| - 1])
  }

  /**
    * Over every run, whatever order the device completes requests in and however often the indices
    * wrap: free descriptors and chains in flight account for all descriptors, chains share none,
    * both rings hold what was put in them, buffers come back exactly as often as they went out, and no
    * request is completed that the device did not report as done with status 0.
    */
  lemma ProtocolHolds(n: nat, acts: seq<Action>, h: int, g: int, b: int)
    requires n > 0 && WRAP % n == 0
    ensures var r := Run(n, acts);
            && FreeCount(r.v.free) + 3 * |r.v.reqs.Keys| == N(r.v)
            && (h in r.v.reqs && g in r.v.reqs && h != g ==> Chain(r.v, h) !! Chain(r.v, g) && |Chain(r.v, h)| == 3)
            && (forall k | r.v.taken <= k < |r.v.availQ| :: r.v.aring[k % N(r.v)] == r.v.availQ[k])
            && (forall k | r.v.seen <= k < |r.v.usedQ| :: r.v.uring[k % N(r.v)] == r.v.usedQ[k])
            && r.submitted[b] == r.returned[b] + (if b in r.v.busy then 1 else 0)
            && (h in r.v.reqs && r.v.reqs[h].phase.Complete? ==> 0 <= h < |r.v.status| && r.v.status[h] == 0)
  {
    var r := Run(n, acts);
    assert Balanced(r, b) && ReqOk(r.v, h);
    ChainsApart(r.v, h, g);
    RingsIntact(r.v);
  }

  lemma RingsIntact(v: V)
    requires Inv(v)
    ensures forall k | v.taken <= k < |v.availQ| :: v.aring[k % N(v)] == v.availQ[k]
    ensures forall k | v.seen <= k < |v.usedQ| :: v.uring[k % N(v)] == v.usedQ[k]
  {
    forall k | v.taken <= k < |v.availQ| ensures v.aring[k % N(v)] == v.availQ[k] {
      assert AvailOk(v, k);
    }
    forall k | v.seen <= k < |v.usedQ| ensures v.uring[k % N(v)] == v.usedQ[k] {
      assert UsedOk(v, k);
    }
  }

  lemma ChainsApart(v: V, h: int, g: int)
    requires Inv(v)
    ensures h in v.reqs && g in v.reqs && h != g ==> Chain(v, h) !! Chain(v, g) && |Chain(v, h)| == 3
  {
    assert ReqOk(v, h) && ReqOk(v, g);
    if h in v.reqs {
      assert Chain(v, h) == {h} + {v.reqs[h].i1} + {v.reqs[h].i2};
    }
  }

  function Chain(v: V, h: int): set<int>
    requires h in v.reqs
  {
    {h, v.reqs[h].i1, v.reqs[h].i2}
  }
}
