/** Allocation of interrupt vectors and rings (src/txgbe_lib.c:835-1188): rings are dealt to vectors
    with strides, and a failed allocation is unwound. */
module QueueVectors {
  import opened Wrappers
  import Bits
  import opened QueueShares

  /** A ring array of the adapter: for each slot the vector whose memory holds the ring. */
  type Slots = seq<Option<nat>>

  /** What decides a ring's queue_index: the number of VMDq pools and the queues per pool. */
  datatype Pools = Pools(numVmdqs: nat, queuesPerPool: nat)

  predicate PoolsOk(p: Pools) {
    p.numVmdqs > 1 ==> p.queuesPerPool > 0
  }

  /** ring->queue_index of the ring in slot i. */
  function QueueIndex(p: Pools, i: nat): (q: nat)
    requires PoolsOk(p)
    ensures q <= i
  {
    if p.numVmdqs > 1 then i % p.queuesPerPool else i
  }

  const SINGLE := Pools(0, 0)

  function At(start: nat, step: nat, k: nat): nat {
    start + k * step
  }

  predicate OnStride(i: nat, start: nat, step: nat, count: nat) {
    exists k :: 0 <= k < count && i == At(start, step, k)
  }

  // ----- the ring loops

  /** One ring loop of txgbe_alloc_q_vector: `count` rings of vector v go to every step-th slot, and
      their queue indices are linked into the vector, newest first. */
  method DealRings(slots: Slots, v: nat, start: nat, step: nat, count: nat, p: Pools)
    returns (dealt: Slots, queue: seq<nat>)
    requires PoolsOk(p)
    requires forall k | 0 <= k < count :: At(start, step, k) < |slots|
    ensures |dealt| == |slots|
    ensures forall i | 0 <= i < |slots| ::
      dealt[i] == if OnStride(i, start, step, count) then Some(v) else slots[i]
    ensures |queue| == count
    ensures forall k | 0 <= k < count :: queue[count - 1 - k] == QueueIndex(p, At(start, step, k))
  {
    hide QueueIndex;
    dealt, queue := slots, [];
    var left, idx := count, start;
    while left > 0
      invariant 0 <= left <= count && idx == At(start, step, count - left)
      invariant |dealt| == |slots| && |queue| == count - left
      invariant forall i | 0 <= i < |slots| ::
        dealt[i] == if OnStride(i, start, step, count - left) then Some(v) else slots[i]
      invariant forall k | 0 <= k < count - left ::
        queue[count - left - 1 - k] == QueueIndex(p, At(start, step, k))
    {
      ghost var n := count - left;
      StrideGrows(start, step, n);
      assert idx < |slots|;
      dealt := dealt[idx := Some(v)];
      queue := [QueueIndex(p, idx)] + queue;
      left := left - 1;
      idx := idx + step;
    }
  }

  lemma StrideGrows(start: nat, step: nat, n: nat)
    ensures forall i: nat :: OnStride(i, start, step, n + 1) <==> OnStride(i, start, step, n) || i == At(start, step, n)
    ensures At(start, step, n + 1) == At(start, step, n) + step
  {
    forall i: nat
      ensures OnStride(i, start, step, n + 1) <==> OnStride(i, start, step, n) || i == At(start, step, n)
    {
      if OnStride(i, start, step, n) {
        var k :| 0 <= k < n && i == At(start, step, k);
        assert 0 <= k < n + 1 && i == At(start, step, k);
      }
    }
  }

  /** One list walk of txgbe_free_q_vector: the slots named by the rings' queue indices are nulled. */
  method ClearRings(slots: Slots, queue: seq<nat>) returns (cleared: Slots)
    requires forall x | x in queue :: x < |slots|
    ensures |cleared| == |slots|
    ensures forall j | 0 <= j < |slots| :: cleared[j] == if j in queue then None else slots[j]
  {
    cleared := slots;
    for n := 0 to |queue|
      invariant |cleared| == |slots|
      invariant forall j | 0 <= j < |slots| :: cleared[j] == if j in queue[..n] then None else slots[j]
    {
      assert queue[n] in queue;
      cleared := cleared[queue[n] := None];
      assert queue[..n + 1] == queue[..n] + [queue[n]];
    }
    assert queue[..|queue|] == queue;
  }

  // ----- slots and lists agree

  /** The queue indices of one ring kind, per vector; [] for a vector that is not allocated. */
  type Lists = seq<seq<nat>>

  /** Every occupied slot is on the list of its vector, and every list entry comes from a slot. */
  ghost predicate Linked(slots: Slots, lists: Lists, p: Pools)
    requires PoolsOk(p)
  {
    && (forall i | 0 <= i < |slots| && slots[i].Some? ::
          slots[i].value < |lists| && QueueIndex(p, i) in lists[slots[i].value])
    && (forall v, x | 0 <= v < |lists| && x in lists[v] :: FromSlot(slots, p, v, x))
  }

  ghost predicate FromSlot(slots: Slots, p: Pools, v: nat, x: nat)
    requires PoolsOk(p)
  {
    exists i :: 0 <= i < |slots| && slots[i] == Some(v) && QueueIndex(p, i) == x
  }

  lemma LinkedBounds(slots: Slots, lists: Lists, p: Pools, v: nat)
    requires PoolsOk(p) && Linked(slots, lists, p) && v < |lists|
    ensures forall x | x in lists[v] :: x < |slots|
  {
    forall x | x in lists[v] ensures x < |slots| {
      assert FromSlot(slots, p, v, x);
      var i :| 0 <= i < |slots| && slots[i] == Some(v) && QueueIndex(p, i) == x;
    }
  }

  /** Dealing rings to a fresh vector keeps slots and lists in agreement. */
  lemma DealKeepsLinked(slots: Slots, lists: Lists, p: Pools, v: nat, start: nat, step: nat, count: nat,
                        dealt: Slots, queue: seq<nat>)
    requires PoolsOk(p) && Linked(slots, lists, p) && v < |lists| && lists[v] == []
    requires forall k | 0 <= k < count :: At(start, step, k) < |slots| && slots[At(start, step, k)] == None
    requires |dealt| == |slots| && |queue| == count
    requires forall i | 0 <= i < |slots| ::
      dealt[i] == if OnStride(i, start, step, count) then Some(v) else slots[i]
    requires forall k | 0 <= k < count :: queue[count - 1 - k] == QueueIndex(p, At(start, step, k))
    ensures Linked(dealt, lists[v := queue], p)
  {
    hide QueueIndex;
    var lists' := lists[v := queue];
    forall i | 0 <= i < |dealt| && dealt[i].Some?
      ensures dealt[i].value < |lists'| && QueueIndex(p, i) in lists'[dealt[i].value]
    {
      if OnStride(i, start, step, count) {
        var k :| 0 <= k < count && i == At(start, step, k);
        assert queue[count - 1 - k] == QueueIndex(p, i);
      } else {
        assert QueueIndex(p, i) in lists[slots[i].value];
      }
    }
    forall w, x | 0 <= w < |lists'| && x in lists'[w] ensures FromSlot(dealt, p, w, x) {
      if w == v {
        var m :| 0 <= m < |queue| && queue[m] == x;
        var k := count - 1 - m;
        assert OnStride(At(start, step, k), start, step, count);
        assert queue[count - 1 - k] == QueueIndex(p, At(start, step, k));
      } else {
        assert FromSlot(slots, p, w, x);
        var i :| 0 <= i < |slots| && slots[i] == Some(w) && QueueIndex(p, i) == x;
        assert !OnStride(i, start, step, count);
        assert dealt[i] == Some(w);
      }
    }
  }

  // ----- what the dealing loop has done

  /** After the first u of w vectors, numbered from v0, were dealt their shares of n strided rings. */
  ghost predicate Strided(slots: Slots, n: nat, w: nat, v0: nat, u: nat)
    requires w > 0
  {
    n <= |slots| && forall i | 0 <= i < |slots| ::
      slots[i] == if i < n && i % w < u then Some(v0 + i % w) else None
  }

  /** Ring i is in the run of vector u of w. */
  predicate InRun(n: nat, w: nat, u: nat, i: nat)
    requires u < w
  {
    n - Left(n, w, u) <= i < n - Left(n, w, u + 1)
  }

  /** The same for rings dealt in contiguous runs. */
  ghost predicate Runs(slots: Slots, n: nat, w: nat, v0: nat, u: nat)
    requires w > 0 && u <= w
  {
    n <= |slots| && forall i | 0 <= i < |slots| ::
      (i < n - Left(n, w, u) ==>
        slots[i].Some? && v0 <= slots[i].value < v0 + u && InRun(n, w, slots[i].value - v0, i))
      && (i >= n - Left(n, w, u) ==> slots[i] == None)
  }

  lemma AtIs(start: nat, step: nat, k: nat)
    ensures At(start, step, k) == start + k * step
  {}

  /** Positions by the number of vectors run through one residue class. */
  lemma StrideByWidth(n: nat, w: nat, u: nat, i: nat)
    requires u < w
    ensures OnStride(i, u, w, Share(n, w, u)) <==> i < n && i % w == u
  {
    hide Share, At;
    if OnStride(i, u, w, Share(n, w, u)) {
      var k :| 0 <= k < Share(n, w, u) && i == At(u, w, k);
      AtIs(u, w, k);
      StrideInRange(n, w, u, k);
    }
    if i < n && i % w == u {
      StrideCovers(n, w, i);
      Bits.DivModDef(i, w);
      AtIs(u, w, i / w);
      assert i == At(u, w, i / w);
    }
  }

  /** With at most one ring each the step does not matter. */
  lemma StrideOfFew(n: nat, w: nat, u: nat, step: nat, i: nat)
    requires u < w && n <= w
    ensures OnStride(i, u, step, Share(n, w, u)) <==> i < n && i % w == u
  {
    hide Share, At;
    FewRings(n, w, u);
    AtIs(u, step, 0);
    if i < n {
      Bits.DivModUnique(i, w, 0, i);
    }
    if u < n {
      assert OnStride(u, u, step, 1) by {
        assert u == At(u, step, 0);
      }
    }
    if OnStride(i, u, step, Share(n, w, u)) {
      var k :| 0 <= k < Share(n, w, u) && i == At(u, step, k);
      assert k == 0;
    }
  }

  /** The stride of vector u is its residue class; with a single ring the step does not matter. */
  lemma StrideIsResidue(n: nat, w: nat, u: nat, step: nat)
    requires u < w && (step == w || n <= w)
    ensures forall k | 0 <= k < Share(n, w, u) :: At(u, step, k) < n && At(u, step, k) % w == u
    ensures forall i: nat :: OnStride(i, u, step, Share(n, w, u)) <==> i < n && i % w == u
  {
    hide Share, At;
    forall i: nat ensures OnStride(i, u, step, Share(n, w, u)) <==> i < n && i % w == u {
      if step == w {
        StrideByWidth(n, w, u, i);
      } else {
        StrideOfFew(n, w, u, step, i);
      }
    }
    forall k | 0 <= k < Share(n, w, u) ensures At(u, step, k) < n && At(u, step, k) % w == u {
      assert OnStride(At(u, step, k), u, step, Share(n, w, u));
    }
  }

  /** The slots of the next vector's stride are still free. */
  lemma FreeStride(slots: Slots, n: nat, w: nat, v0: nat, u: nat, step: nat)
    requires u < w && (step == w || n <= w) && Strided(slots, n, w, v0, u)
    ensures forall k | 0 <= k < Share(n, w, u) ::
      At(u, step, k) < |slots| && slots[At(u, step, k)] == None
  {
    hide Share, At;
    StrideIsResidue(n, w, u, step);
  }

  lemma FreeRun(slots: Slots, n: nat, w: nat, v0: nat, u: nat, start: nat)
    requires u < w && Runs(slots, n, w, v0, u) && start == n - Left(n, w, u)
    ensures forall k | 0 <= k < Share(n, w, u) :: At(start, 1, k) < |slots| && slots[At(start, 1, k)] == None
  {
    hide Share, Left;
    DealStep(n, w, u);
  }

  lemma DealStrided(slots: Slots, n: nat, w: nat, v0: nat, u: nat, step: nat, dealt: Slots)
    requires u < w && (step == w || n <= w) && Strided(slots, n, w, v0, u)
    requires |dealt| == |slots|
    requires forall i | 0 <= i < |slots| ::
      dealt[i] == if OnStride(i, u, step, Share(n, w, u)) then Some(v0 + u) else slots[i]
    ensures Strided(dealt, n, w, v0, u + 1)
  {
    hide Share;
    StrideIsResidue(n, w, u, step);
  }

  lemma DealRun(slots: Slots, n: nat, w: nat, v0: nat, u: nat, dealt: Slots)
    requires u < w && Runs(slots, n, w, v0, u)
    requires |dealt| == |slots|
    requires forall i | 0 <= i < |slots| ::
      dealt[i] == if OnStride(i, n - Left(n, w, u), 1, Share(n, w, u)) then Some(v0 + u) else slots[i]
    requires Left(n, w, u) <= n
    ensures Runs(dealt, n, w, v0, u + 1)
  {
    hide Share, Left;
    DealStep(n, w, u);
    var start, s := n - Left(n, w, u), Share(n, w, u);
    assert n - Left(n, w, u + 1) == start + s;
    forall i: nat ensures OnStride(i, start, 1, s) <==> start <= i < start + s {
      if start <= i < start + s {
        assert i == At(start, 1, i - start);
      }
    }
    forall i | start <= i < start + s ensures dealt[i] == Some(v0 + u) && InRun(n, w, u, i) {
      assert OnStride(i, start, 1, s);
    }
  }

  // ----- who owns a ring

  /** The numbers txgbe_alloc_q_vectors starts from. */
  datatype Counts = Counts(vectors: nat, tx: nat, rx: nat, xdp: nat)

  /** There are enough vectors to give every Rx ring its own. */
  predicate SeparateRx(c: Counts) {
    c.vectors >= c.rx + c.tx + c.xdp
  }

  /** The first vector of the shared loop, and how many it has. */
  function Base(c: Counts): (v0: nat)
    ensures v0 <= c.vectors
  {
    if SeparateRx(c) then c.rx else 0
  }

  function Width(c: Counts): nat {
    c.vectors - Base(c)
  }

  function TxOwner(c: Counts, i: nat): nat
    requires i < c.tx && c.vectors > 0
  {
    Base(c) + i % Width(c)
  }

  function RxOwner(c: Counts, i: nat): nat
    requires i < c.rx && c.vectors > 0
  {
    if SeparateRx(c) then i else i % c.vectors
  }

  /** Vector v owns XDP ring i. */
  predicate XdpOwns(c: Counts, v: nat, i: nat) {
    Base(c) <= v < c.vectors && InRun(c.xdp, Width(c), v - Base(c), i)
  }

  /** With a vector for every ring each Rx ring has its own, below those of the Tx rings, which have one
      each too; with fewer vectors rings of both kinds go round all vectors. */
  lemma OwnersByCounts(c: Counts, i: nat, j: nat)
    requires c.vectors > 0 && i < c.tx && j < c.tx
    ensures c.vectors >= c.rx + c.tx + c.xdp ==>
      && c.rx <= TxOwner(c, i) < c.vectors && (TxOwner(c, i) == TxOwner(c, j) ==> i == j)
      && forall k | 0 <= k < c.rx :: RxOwner(c, k) == k
    ensures c.vectors < c.rx + c.tx + c.xdp ==>
      TxOwner(c, i) == i % c.vectors && forall k | 0 <= k < c.rx :: RxOwner(c, k) == k % c.vectors
  {
    if c.vectors >= c.rx + c.tx + c.xdp {
      Bits.DivModUnique(i, Width(c), 0, i);
      Bits.DivModUnique(j, Width(c), 0, j);
    }
  }

  /** XDP rings have vectors behind the separate Rx vectors, if there are any. */
  lemma XdpOwnersByCounts(c: Counts, v: nat, i: nat)
    requires XdpOwns(c, v, i)
    ensures v < c.vectors && i < c.xdp && (c.vectors >= c.rx + c.tx + c.xdp ==> c.rx <= v)
  {
    hide Left;
    LeftEnds(c.xdp, Width(c));
    LeftFalls(c.xdp, Width(c), v - Base(c) + 1, Width(c));
  }

  /** Of the slots from `from` on exactly those are filled whose owner is below v, with their owner. */
  ghost predicate TxHeld(slots: Slots, c: Counts, from: nat, v: nat)
    requires c.vectors > 0
  {
    forall i | 0 <= i < |slots| ::
      slots[i] == if from <= i < c.tx && TxOwner(c, i) < v then Some(TxOwner(c, i)) else None
  }

  ghost predicate RxHeld(slots: Slots, c: Counts, from: nat, v: nat)
    requires c.vectors > 0
  {
    forall i | 0 <= i < |slots| ::
      slots[i] == if from <= i < c.rx && RxOwner(c, i) < v then Some(RxOwner(c, i)) else None
  }

  ghost predicate XdpHeld(slots: Slots, c: Counts, v: nat) {
    forall i | 0 <= i < |slots| ::
      && (slots[i].Some? ==> i < c.xdp && slots[i].value < v && XdpOwns(c, slots[i].value, i))
      && (slots[i].None? ==> forall x | 0 <= x < v :: !XdpOwns(c, x, i))
  }

  /** Less is left after each vector. */
  lemma {:induction false} LeftFalls(n: nat, w: nat, u: nat, u': nat)
    requires u <= u' <= w && w > 0
    ensures Left(n, w, u') <= Left(n, w, u)
    decreases u'
  {
    hide Left, Share;
    if u < u' {
      LeftFalls(n, w, u, u' - 1);
      DealStep(n, w, u' - 1);
    }
  }

  /** Each XDP ring has exactly one owner. */
  lemma XdpOwnerUnique(c: Counts, i: nat, v: nat, v': nat)
    requires XdpOwns(c, v, i) && XdpOwns(c, v', i)
    ensures v == v'
  {
    hide Left;
    var n, w, b := c.xdp, Width(c), Base(c);
    if v < v' {
      LeftFalls(n, w, v - b + 1, v' - b);
    } else if v' < v {
      LeftFalls(n, w, v' - b + 1, v - b);
    }
  }

  lemma {:induction false} RunExists(n: nat, w: nat, i: nat, u: nat) returns (x: nat)
    requires w > 0 && u <= w && i < n - Left(n, w, u)
    ensures x < u && InRun(n, w, x, i)
    decreases u
  {
    hide Left;
    LeftEnds(n, w);
    if i < n - Left(n, w, u - 1) {
      x := RunExists(n, w, i, u - 1);
    } else {
      x := u - 1;
    }
  }

  lemma XdpOwnerExists(c: Counts, i: nat) returns (v: nat)
    requires c.vectors > 0 && i < c.xdp
    ensures XdpOwns(c, v, i)
  {
    hide Left;
    LeftEnds(c.xdp, Width(c));
    var x := RunExists(c.xdp, Width(c), i, Width(c));
    v := Base(c) + x;
  }

  lemma StridedHeld(slots: Slots, c: Counts, u: nat)
    requires 0 < Width(c) && u <= Width(c) && Strided(slots, c.tx, Width(c), Base(c), u)
    ensures TxHeld(slots, c, 0, Base(c) + u)
  {}

  lemma RxStridedHeld(slots: Slots, c: Counts, u: nat)
    requires !SeparateRx(c) && 0 < c.vectors && u <= c.vectors && Strided(slots, c.rx, c.vectors, 0, u)
    ensures RxHeld(slots, c, 0, u)
  {}

  lemma RunsHeld(slots: Slots, c: Counts, u: nat)
    requires 0 < Width(c) && u <= Width(c) && Runs(slots, c.xdp, Width(c), Base(c), u)
    ensures XdpHeld(slots, c, Base(c) + u)
  {
    hide Left;
    var n, w, b := c.xdp, Width(c), Base(c);
    LeftEnds(n, w);
    LeftFalls(n, w, u, w);
    forall i | 0 <= i < |slots| && slots[i].None?
      ensures forall x | 0 <= x < b + u :: !XdpOwns(c, x, i)
    {
      forall x | 0 <= x < b + u ensures !XdpOwns(c, x, i) {
        if XdpOwns(c, x, i) {
          LeftFalls(n, w, x - b + 1, u);
          assert false;
        }
      }
    }
  }

  lemma NothingHeld(tx: Slots, xdp: Slots, c: Counts, v: nat)
    requires c.vectors > 0 && v <= Base(c)
    requires forall i | 0 <= i < |tx| :: tx[i] == None
    requires forall i | 0 <= i < |xdp| :: xdp[i] == None
    ensures TxHeld(tx, c, 0, v) && XdpHeld(xdp, c, v)
  {
    forall i | 0 <= i < c.tx ensures TxOwner(c, i) >= v {
      Bits.DivModDef(i, Width(c));
    }
  }

  // ----- freeing

  /** Some vector in lo..hi has a ring with queue index j. */
  ghost predicate Listed(lists: Lists, lo: nat, hi: nat, j: nat)
    requires hi <= |lists|
  {
    exists w :: lo <= w < hi && j in lists[w]
  }

  /** Some occupied slot's ring has queue index j. */
  ghost predicate Named(slots: Slots, p: Pools, j: nat)
    requires PoolsOk(p)
  {
    exists i :: 0 <= i < |slots| && slots[i].Some? && QueueIndex(p, i) == j
  }

  /** The slots after freeing: those named by a queue index are null, the others keep their pointer. */
  ghost predicate Freed(before: Slots, after: Slots, p: Pools)
    requires PoolsOk(p)
  {
    |after| == |before| && forall j | 0 <= j < |before| :: after[j] == if Named(before, p, j) then None else before[j]
  }

  lemma ListedIsNamed(slots: Slots, lists: Lists, p: Pools, n: nat, j: nat)
    requires PoolsOk(p) && Linked(slots, lists, p) && n <= |lists|
    requires forall w | n <= w < |lists| :: lists[w] == []
    ensures Listed(lists, 0, n, j) <==> Named(slots, p, j)
  {
    hide QueueIndex;
    if Listed(lists, 0, n, j) {
      var w :| 0 <= w < n && j in lists[w];
      assert FromSlot(slots, p, w, j);
      var i :| 0 <= i < |slots| && slots[i] == Some(w) && QueueIndex(p, i) == j;
    }
    if Named(slots, p, j) {
      var i :| 0 <= i < |slots| && slots[i].Some? && QueueIndex(p, i) == j;
      assert QueueIndex(p, i) in lists[slots[i].value];
    }
  }

  lemma ListedGrows(lists: Lists, v: nat, hi: nat, j: nat)
    requires v < hi <= |lists|
    ensures Listed(lists, v, hi, j) <==> j in lists[v] || Listed(lists, v + 1, hi, j)
  {
    if Listed(lists, v + 1, hi, j) {
      var w :| v + 1 <= w < hi && j in lists[w];
      assert v <= w < hi && j in lists[w];
    }
  }

  /** Exactly the first n slots hold a ring. */
  ghost predicate Occupied(slots: Slots, n: nat) {
    n <= |slots| && forall i | 0 <= i < |slots| :: slots[i].Some? <==> i < n
  }

  /** The first slot that freeing cannot reach: queue indices name only slots of the first pool. */
  function FirstKept(p: Pools, size: nat): nat {
    if p.numVmdqs > 1 then p.queuesPerPool else size
  }

  /** Freeing empties every slot of the first pool and no other. */
  lemma FreeReaches(before: Slots, after: Slots, p: Pools)
    requires PoolsOk(p) && Freed(before, after, p)
    ensures |after| == |before|
    ensures forall j | 0 <= j < |after| :: after[j] == if j < FirstKept(p, |before|) then None else before[j]
  {
    if p.numVmdqs > 1 {
      forall i: nat ensures QueueIndex(p, i) < p.queuesPerPool {
        Bits.DivModDef(i, p.queuesPerPool);
      }
    }
    forall j | 0 <= j < |after|
      ensures after[j] == if j < FirstKept(p, |before|) then None else before[j]
    {
      if j < FirstKept(p, |before|) {
        if p.numVmdqs > 1 {
          Bits.DivModUnique(j, p.queuesPerPool, 0, j);
        }
        assert QueueIndex(p, j) == j;
        assert before[j].Some? ==> Named(before, p, j);
      }
    }
  }

  /** With the first n slots filled, freeing empties the array iff there are no extra pools or the
      first pool holds all. */
  lemma FreeRestores(before: Slots, after: Slots, p: Pools, n: nat)
    requires PoolsOk(p) && Freed(before, after, p) && Occupied(before, n)
    ensures Occupied(after, 0) <==> p.numVmdqs <= 1 || n <= p.queuesPerPool
  {
    hide Freed;
    FreeReaches(before, after, p);
    if p.numVmdqs > 1 && n > p.queuesPerPool {
      assert after[p.queuesPerPool].Some?;
    }
  }

  lemma TxAfterFree(before: Slots, after: Slots, p: Pools, c: Counts, v: nat)
    requires PoolsOk(p) && Freed(before, after, p) && c.vectors > 0 && c.tx <= |before|
    requires TxHeld(before, c, 0, v)
    ensures TxHeld(after, c, FirstKept(p, |before|), v)
  {
    hide Freed, TxOwner;
    FreeReaches(before, after, p);
  }

  lemma RxAfterFree(before: Slots, after: Slots, p: Pools, c: Counts, v: nat)
    requires PoolsOk(p) && Freed(before, after, p) && c.vectors > 0 && c.rx <= |before|
    requires RxHeld(before, c, 0, v)
    ensures RxHeld(after, c, FirstKept(p, |before|), v)
  {
    hide Freed, RxOwner;
    FreeReaches(before, after, p);
  }

  // ----- the adapter

  class Adapter {
    const pools: Pools
    var numQVectors: nat
    var numTx: nat
    var numRx: nat
    var numXdp: nat
    var txRing: Slots
    var xdpRing: Slots
    var rxRing: Slots
    var live: seq<bool>
    var txQ: Lists
    var xdpQ: Lists
    var rxQ: Lists

    /** The ring arrays and the vectors' ring lists describe the same rings. */
    ghost predicate Consistent()
      reads this
    {
      && PoolsOk(pools)
      && |live| == |txQ| == |xdpQ| == |rxQ|
      && Linked(txRing, txQ, pools) && Linked(xdpRing, xdpQ, SINGLE) && Linked(rxRing, rxQ, pools)
      && (forall v | 0 <= v < |live| && !live[v] :: txQ[v] == xdpQ[v] == rxQ[v] == [])
    }

    /** Exactly the vectors below v exist. */
    ghost predicate LiveBelow(v: nat)
      reads this
    {
      v <= |live| && forall w | 0 <= w < |live| :: live[w] <==> w < v
    }

    constructor (vectors: nat, rings: nat, pools: Pools)
      requires PoolsOk(pools)
      ensures Consistent() && LiveBelow(0) && this.pools == pools && |live| == vectors
      ensures |txRing| == |xdpRing| == |rxRing| == rings
      ensures forall i | 0 <= i < rings :: txRing[i] == None && xdpRing[i] == None && rxRing[i] == None
    {
      this.pools := pools;
      numQVectors, numTx, numRx, numXdp := 0, 0, 0, 0;
      txRing, xdpRing, rxRing := seq(rings, _ => None), seq(rings, _ => None), seq(rings, _ => None);
      live := seq(vectors, _ => false);
      txQ, xdpQ, rxQ := seq(vectors, _ => []), seq(vectors, _ => []), seq(vectors, _ => []);
    }

    /** txgbe_alloc_q_vector; `granted` is the kernel's answer to the allocation. */
    method AllocVector(step: nat, v: nat, txCount: nat, txIdx: nat, xdpCount: nat, xdpIdx: nat,
                       rxCount: nat, rxIdx: nat, granted: bool) returns (ok: bool)
      requires Consistent() && v < |live| && !live[v]
      requires forall k | 0 <= k < txCount :: At(txIdx, step, k) < |txRing| && txRing[At(txIdx, step, k)] == None
      requires forall k | 0 <= k < xdpCount :: At(xdpIdx, 1, k) < |xdpRing| && xdpRing[At(xdpIdx, 1, k)] == None
      requires forall k | 0 <= k < rxCount :: At(rxIdx, step, k) < |rxRing| && rxRing[At(rxIdx, step, k)] == None
      modifies this`txRing, this`xdpRing, this`rxRing, this`live, this`txQ, this`xdpQ, this`rxQ
      ensures Consistent() && ok == granted
      ensures !ok ==> unchanged(this)
      ensures ok ==>
        && live == old(live)[v := true]
        && (forall x | 0 <= x < |live| && x != v :: txQ[x] == old(txQ)[x] && xdpQ[x] == old(xdpQ)[x] && rxQ[x] == old(rxQ)[x])
        && |txQ[v]| == txCount && |xdpQ[v]| == xdpCount && |rxQ[v]| == rxCount
        && |txRing| == |old(txRing)| && |xdpRing| == |old(xdpRing)| && |rxRing| == |old(rxRing)|
        && (forall i | 0 <= i < |txRing| :: txRing[i] == if OnStride(i, txIdx, step, txCount) then Some(v) else old(txRing)[i])
        && (forall i | 0 <= i < |xdpRing| :: xdpRing[i] == if OnStride(i, xdpIdx, 1, xdpCount) then Some(v) else old(xdpRing)[i])
        && (forall i | 0 <= i < |rxRing| :: rxRing[i] == if OnStride(i, rxIdx, step, rxCount) then Some(v) else old(rxRing)[i])
    {
      hide Linked, QueueIndex, OnStride, At;
      if !granted {
        return false;
      }
      var slots, queue := DealRings(txRing, v, txIdx, step, txCount, pools);
      DealKeepsLinked(txRing, txQ, pools, v, txIdx, step, txCount, slots, queue);
      txRing, txQ := slots, txQ[v := queue];
      slots, queue := DealRings(xdpRing, v, xdpIdx, 1, xdpCount, SINGLE);
      DealKeepsLinked(xdpRing, xdpQ, SINGLE, v, xdpIdx, 1, xdpCount, slots, queue);
      xdpRing, xdpQ := slots, xdpQ[v := queue];
      slots, queue := DealRings(rxRing, v, rxIdx, step, rxCount, pools);
      DealKeepsLinked(rxRing, rxQ, pools, v, rxIdx, step, rxCount, slots, queue);
      rxRing, rxQ := slots, rxQ[v := queue];
      live := live[v := true];
      ok := true;
    }

    /** The freeing loop shared by txgbe_free_q_vectors and the error path: vectors n-1 down to 0. */
    method FreeDown(n: nat)
      requires Consistent() && LiveBelow(n)
      modifies this`txRing, this`xdpRing, this`rxRing, this`live, this`txQ, this`xdpQ, this`rxQ
      ensures |live| == old(|live|) && LiveBelow(0)
      ensures PoolsOk(pools) && Freed(old(txRing), txRing, pools)
      ensures Freed(old(xdpRing), xdpRing, SINGLE) && Freed(old(rxRing), rxRing, pools)
    {
      hide QueueIndex, Linked, Listed;
      ghost var tx0, xdp0, rx0 := txRing, xdpRing, rxRing;
      ghost var txq0, xdpq0, rxq0 := txQ, xdpQ, rxQ;
      var v := n;
      NothingListed(txQ, n);
      NothingListed(xdpQ, n);
      NothingListed(rxQ, n);
      while v > 0
        invariant 0 <= v <= n && |live| == |txQ| == |xdpQ| == |rxQ| == |txq0| && LiveBelow(v)
        invariant txQ[..v] == txq0[..v] && xdpQ[..v] == xdpq0[..v] && rxQ[..v] == rxq0[..v]
        invariant |txRing| == |tx0| && |xdpRing| == |xdp0| && |rxRing| == |rx0|
        invariant forall j | 0 <= j < |tx0| :: txRing[j] == if Listed(txq0, v, n, j) then None else tx0[j]
        invariant forall j | 0 <= j < |xdp0| :: xdpRing[j] == if Listed(xdpq0, v, n, j) then None else xdp0[j]
        invariant forall j | 0 <= j < |rx0| :: rxRing[j] == if Listed(rxq0, v, n, j) then None else rx0[j]
      {
        v := v - 1;
        assert txQ[v] == txq0[v] && xdpQ[v] == xdpq0[v] && rxQ[v] == rxq0[v] by {
          assert txQ[..v + 1][v] == txq0[..v + 1][v];
          assert xdpQ[..v + 1][v] == xdpq0[..v + 1][v];
          assert rxQ[..v + 1][v] == rxq0[..v + 1][v];
        }
        LinkedBounds(tx0, txq0, pools, v);
        LinkedBounds(xdp0, xdpq0, SINGLE, v);
        LinkedBounds(rx0, rxq0, pools, v);
        FreeVector(v);
        forall j: nat
          ensures Listed(txq0, v, n, j) <==> j in txq0[v] || Listed(txq0, v + 1, n, j)
          ensures Listed(xdpq0, v, n, j) <==> j in xdpq0[v] || Listed(xdpq0, v + 1, n, j)
          ensures Listed(rxq0, v, n, j) <==> j in rxq0[v] || Listed(rxq0, v + 1, n, j)
        {
          ListedGrows(txq0, v, n, j);
          ListedGrows(xdpq0, v, n, j);
          ListedGrows(rxq0, v, n, j);
        }
      }
      forall j: nat
        ensures Listed(txq0, 0, n, j) <==> Named(tx0, pools, j)
        ensures Listed(xdpq0, 0, n, j) <==> Named(xdp0, SINGLE, j)
        ensures Listed(rxq0, 0, n, j) <==> Named(rx0, pools, j)
      {
        ListedIsNamed(tx0, txq0, pools, n, j);
        ListedIsNamed(xdp0, xdpq0, SINGLE, n, j);
        ListedIsNamed(rx0, rxq0, pools, n, j);
      }
    }

    /** The counts are within the arrays and nothing is allocated. */
    ghost predicate Ready()
      reads this
    {
      && Consistent() && LiveBelow(0) && numQVectors <= |live|
      && numTx <= |txRing| && numXdp <= |xdpRing| && numRx <= |rxRing|
      && (forall i | 0 <= i < |txRing| :: txRing[i] == None)
      && (forall i | 0 <= i < |xdpRing| :: xdpRing[i] == None)
      && (forall i | 0 <= i < |rxRing| :: rxRing[i] == None)
    }

    /** The first loop of txgbe_alloc_q_vectors: one vector per Rx ring. */
    method AllocRxOnly(grant: nat -> bool) returns (ok: bool, v: nat)
      requires Ready() && numRx + numTx + numXdp <= numQVectors
      modifies this`txRing, this`xdpRing, this`rxRing, this`live, this`txQ, this`xdpQ, this`rxQ
      ensures Consistent() && LiveBelow(v) && |live| == old(|live|)
      ensures |txRing| == old(|txRing|) && |xdpRing| == old(|xdpRing|) && |rxRing| == old(|rxRing|)
      ensures forall i | 0 <= i < |txRing| :: txRing[i] == None
      ensures forall i | 0 <= i < |xdpRing| :: xdpRing[i] == None
      ensures forall i | 0 <= i < |rxRing| :: rxRing[i] == if i < v then Some(i) else None
      ensures ok ==> v == numRx
      ensures !ok ==> v < numRx && !grant(v)
      ensures forall x | 0 <= x < v :: grant(x)
    {
      hide Linked, QueueIndex;
      v := 0;
      while v < numRx
        invariant 0 <= v <= numRx && Consistent() && LiveBelow(v) && |live| == old(|live|)
        invariant |txRing| == old(|txRing|) && |xdpRing| == old(|xdpRing|) && |rxRing| == old(|rxRing|)
        invariant forall i | 0 <= i < |txRing| :: txRing[i] == None
        invariant forall i | 0 <= i < |xdpRing| :: xdpRing[i] == None
        invariant forall i | 0 <= i < |rxRing| :: rxRing[i] == if i < v then Some(i) else None
        invariant forall x | 0 <= x < v :: grant(x)
      {
        OneRing(v, numQVectors);
        ok := AllocVector(numQVectors, v, 0, 0, 0, 0, 1, v, grant(v));
        if !ok {
          return;
        }
        v := v + 1;
      }
      ok := true;
    }

    /** What the shared loop has dealt; `shared` if it deals the Rx rings too. */
    ghost predicate Dealt(v0: nat, shared: bool, u: nat)
      requires v0 < numQVectors && u <= numQVectors - v0
      reads this
    {
      var w := numQVectors - v0;
      && Strided(txRing, numTx, w, v0, u)
      && Runs(xdpRing, numXdp, w, v0, u)
      && (shared ==> v0 == 0)
      && (if shared then Strided(rxRing, numRx, w, 0, u)
          else numRx <= |rxRing| && forall i | 0 <= i < |rxRing| :: rxRing[i] == if i < numRx then Some(i) else None)
      && v0 + u <= |txQ| == |xdpQ| == |rxQ|
      && (forall x | v0 <= x < v0 + u :: |txQ[x]| == Share(numTx, w, x - v0) && |xdpQ[x]| == Share(numXdp, w, x - v0))
      && (shared ==> forall x | 0 <= x < u :: |rxQ[x]| == Share(numRx, w, x))
    }

    /** One round of the shared loop; returns what remains to be dealt and the next XDP ring. */
    method DealVector(v0: nat, shared: bool, u: nat, txLeft: nat, xdpLeft: nat, rxLeft: nat, xdpIdx: nat, granted: bool)
      returns (ok: bool, txRest: nat, xdpRest: nat, rxRest: nat, xdpNext: nat)
      requires Consistent() && v0 < numQVectors <= |live| && u < numQVectors - v0 && LiveBelow(v0 + u)
      requires v0 == 0 || numTx <= numQVectors - v0
      requires Dealt(v0, shared, u) && Remain(v0, shared, u, txLeft, xdpLeft, rxLeft, xdpIdx)
      modifies this`txRing, this`xdpRing, this`rxRing, this`live, this`txQ, this`xdpQ, this`rxQ
      ensures Consistent() && ok == granted && |live| == old(|live|)
      ensures |txRing| == old(|txRing|) && |xdpRing| == old(|xdpRing|) && |rxRing| == old(|rxRing|)
      ensures ok ==> LiveBelow(v0 + u + 1) && Dealt(v0, shared, u + 1)
      ensures ok ==> Remain(v0, shared, u + 1, txRest, xdpRest, rxRest, xdpNext)
      ensures !ok ==> unchanged(this)
    {
      hide Linked, QueueIndex, Share, Left, OnStride, Strided, Runs, At;
      ghost var w := numQVectors - v0;
      var vectors := numQVectors - (v0 + u);
      var rxCount := DivRoundUp(rxLeft, vectors);
      var txCount := DivRoundUp(txLeft, vectors);
      var xdpCount := DivRoundUp(xdpLeft, vectors);
      ghost var rx := if shared then numRx else 0;
      DealStep(numTx, w, u);
      DealStep(numXdp, w, u);
      DealStep(rx, w, u);
      LeftBound(numXdp, w, u);
      FreeStride(txRing, numTx, w, v0, u, numQVectors);
      FreeRun(xdpRing, numXdp, w, v0, u, xdpIdx);
      ghost var tx0, xdp0, rx0 := txRing, xdpRing, rxRing;
      if shared {
        FreeStride(rxRing, numRx, w, 0, u, numQVectors);
      } else {
        NoRings(w, u);
        NoStride(v0 + u, numQVectors);
      }
      ok := AllocVector(numQVectors, v0 + u, txCount, u, xdpCount, xdpIdx, rxCount, v0 + u, granted);
      txRest, xdpRest, rxRest, xdpNext := txLeft - txCount, xdpLeft - xdpCount, rxLeft - rxCount, xdpIdx + xdpCount;
      if ok {
        DealStrided(tx0, numTx, w, v0, u, numQVectors, txRing);
        DealRun(xdp0, numXdp, w, v0, u, xdpRing);
        if shared {
          DealStrided(rx0, numRx, w, 0, u, numQVectors, rxRing);
        }
      }
    }

    /** The running counts of the shared loop. */
    ghost predicate Remain(v0: nat, shared: bool, u: nat, txLeft: nat, xdpLeft: nat, rxLeft: nat, xdpIdx: nat)
      requires v0 < numQVectors && u <= numQVectors - v0
      reads this
    {
      var w := numQVectors - v0;
      && txLeft == Left(numTx, w, u) && xdpLeft == Left(numXdp, w, u)
      && rxLeft == Left(if shared then numRx else 0, w, u)
      && xdpIdx == numXdp - xdpLeft
    }

    /** The second loop of txgbe_alloc_q_vectors, from vector v0 on: nothing remains to be dealt. */
    method AllocShared(v0: nat, shared: bool, grant: nat -> bool)
      returns (ok: bool, v: nat, txLeft: nat, xdpLeft: nat, rxLeft: nat)
      requires Consistent() && v0 < numQVectors <= |live| && LiveBelow(v0) && Dealt(v0, shared, 0)
      requires v0 == 0 || numTx <= numQVectors - v0
      modifies this`txRing, this`xdpRing, this`rxRing, this`live, this`txQ, this`xdpQ, this`rxQ
      ensures Consistent() && LiveBelow(v) && |live| == old(|live|)
      ensures |txRing| == old(|txRing|) && |xdpRing| == old(|xdpRing|) && |rxRing| == old(|rxRing|)
      ensures v0 <= v <= numQVectors && Dealt(v0, shared, v - v0)
      ensures ok ==> v == numQVectors && txLeft == xdpLeft == rxLeft == 0
      ensures !ok ==> v < numQVectors && !grant(v)
      ensures forall x | v0 <= x < v :: grant(x)
    {
      hide Linked, Strided, Runs, Share, Left;
      v := v0;
      txLeft, xdpLeft, rxLeft := numTx, numXdp, if shared then numRx else 0;
      var xdpIdx := 0;
      LeftEnds(txLeft, numQVectors - v0);
      LeftEnds(xdpLeft, numQVectors - v0);
      LeftEnds(rxLeft, numQVectors - v0);
      while v < numQVectors
        invariant v0 <= v <= numQVectors && Consistent() && LiveBelow(v) && |live| == old(|live|)
        invariant |txRing| == old(|txRing|) && |xdpRing| == old(|xdpRing|) && |rxRing| == old(|rxRing|)
        invariant Dealt(v0, shared, v - v0) && Remain(v0, shared, v - v0, txLeft, xdpLeft, rxLeft, xdpIdx)
        invariant forall x | v0 <= x < v :: grant(x)
      {
        ok, txLeft, xdpLeft, rxLeft, xdpIdx := DealVector(v0, shared, v - v0, txLeft, xdpLeft, rxLeft, xdpIdx, grant(v));
        if !ok {
          return;
        }
        v := v + 1;
      }
      ok := true;
    }

    function Numbers(): Counts
      reads this
    {
      Counts(numQVectors, numTx, numRx, numXdp)
    }

    /** The rings of the vectors below v, and no others, stand in the arrays, each with its owner. */
    ghost predicate HeldBelow(v: nat)
      requires numQVectors > 0
      reads this
    {
      TxHeld(txRing, Numbers(), 0, v) && RxHeld(rxRing, Numbers(), 0, v) && XdpHeld(xdpRing, Numbers(), v)
    }

    /** Every ring in range has exactly one owner among the vectors, and without separate Rx vectors
        the loads of any two vectors differ by at most one. */
    ghost predicate Partition()
      requires numQVectors > 0
      reads this
    {
      && numTx <= |txRing| && numXdp <= |xdpRing| && numRx <= |rxRing|
      && HeldBelow(numQVectors)
      && (!SeparateRx(Numbers()) ==>
            EvenLoads(txQ, numQVectors) && EvenLoads(xdpQ, numQVectors) && EvenLoads(rxQ, numQVectors))
    }

    lemma HeldFromDealt(v0: nat, u: nat)
      requires numQVectors > 0 && v0 == Base(Numbers()) < numQVectors && u <= numQVectors - v0
      requires Dealt(v0, !SeparateRx(Numbers()), u)
      ensures HeldBelow(v0 + u)
    {
      hide Strided, Runs, TxHeld, XdpHeld, TxOwner;
      StridedHeld(txRing, Numbers(), u);
      RunsHeld(xdpRing, Numbers(), u);
      if !SeparateRx(Numbers()) {
        RxStridedHeld(rxRing, Numbers(), u);
      }
    }

    lemma EvenFromDealt()
      requires numQVectors > 0 && !SeparateRx(Numbers()) && Dealt(0, true, numQVectors)
      ensures EvenLoads(txQ, numQVectors) && EvenLoads(xdpQ, numQVectors) && EvenLoads(rxQ, numQVectors)
    {
      hide Strided, Runs;
      var w := numQVectors;
      forall x, y | 0 <= x < w && 0 <= y < w
        ensures |txQ[x]| <= |txQ[y]| + 1 && |xdpQ[x]| <= |xdpQ[y]| + 1 && |rxQ[x]| <= |rxQ[y]| + 1
      {
        SharesAreEven(numTx, w, x, y);
        SharesAreEven(numXdp, w, x, y);
        SharesAreEven(numRx, w, x, y);
      }
    }

    /** Both loops of txgbe_alloc_q_vectors: they stop at the first vector that is refused. */
    method DealAll(grant: nat -> bool) returns (ok: bool, v: nat)
      requires Ready() && numQVectors > 0
      modifies this`txRing, this`xdpRing, this`rxRing, this`live, this`txQ, this`xdpQ, this`rxQ
      ensures Consistent() && LiveBelow(v) && v <= numQVectors && HeldBelow(v)
      ensures |txRing| == old(|txRing|) && |xdpRing| == old(|xdpRing|) && |rxRing| == old(|rxRing|)
      ensures forall x | 0 <= x < v :: grant(x)
      ensures ok ==> v == numQVectors && Partition()
      ensures !ok ==> v < numQVectors && !grant(v)
    {
      hide Linked, Strided, Runs, TxHeld, XdpHeld;
      var v0 := 0;
      var separate := SeparateRx(Numbers());
      if separate {
        ok, v0 := AllocRxOnly(grant);
        v := v0;
        NothingHeld(txRing, xdpRing, Numbers(), v);
        if !ok || v0 == numQVectors {
          return;
        }
      } else {
        StartStride(rxRing, numRx, numQVectors, 0);
      }
      StartDealing(txRing, xdpRing, numTx, numXdp, numQVectors - v0, v0);
      var txLeft, xdpLeft, rxLeft;
      ok, v, txLeft, xdpLeft, rxLeft := AllocShared(v0, !separate, grant);
      HeldFromDealt(v0, v - v0);
      if ok && !separate {
        EvenFromDealt();
      }
    }

    /** txgbe_alloc_q_vectors: all or nothing. `grant` answers the allocation of each vector; `made`
        vectors were allocated. On failure no vector is left, and the arrays are empty but for the
        slots past the first pool that were already dealt. */
    method AllocVectors(grant: nat -> bool) returns (ok: bool, ghost made: nat)
      requires Ready() && numQVectors > 0
      modifies this
      ensures ok <==> forall v | 0 <= v < old(numQVectors) :: grant(v)
      ensures ok ==>
        && made == numQVectors && Numbers() == old(Numbers())
        && Consistent() && LiveBelow(numQVectors) && Partition()
      ensures !ok ==>
        && made < old(numQVectors) && !grant(made) && (forall v | 0 <= v < made :: grant(v))
        && LiveBelow(0) && Numbers() == Counts(0, 0, 0, 0)
        && Occupied(xdpRing, 0)
        && TxHeld(txRing, old(Numbers()), FirstKept(pools, |txRing|), made)
        && RxHeld(rxRing, old(Numbers()), FirstKept(pools, |rxRing|), made)
      ensures |txRing| == old(|txRing|) && |xdpRing| == old(|xdpRing|) && |rxRing| == old(|rxRing|)
    {
      hide Linked, Freed, TxHeld, RxHeld, XdpHeld;
      var v;
      ok, v := DealAll(grant);
      made := v;
      if ok {
        return;
      }
      ghost var tx0, xdp0, rx0, c := txRing, xdpRing, rxRing, Numbers();
      numTx, numRx, numXdp, numQVectors := 0, 0, 0, 0;
      FreeDown(v);
      TxAfterFree(tx0, txRing, pools, c, v);
      RxAfterFree(rx0, rxRing, pools, c, v);
      FreeReaches(tx0, txRing, pools);
      FreeReaches(xdp0, xdpRing, SINGLE);
      FreeReaches(rx0, rxRing, pools);
    }

    /** txgbe_free_q_vectors */
    method FreeVectors()
      requires Consistent() && LiveBelow(numQVectors)
      modifies this
      ensures LiveBelow(0) && Numbers() == Counts(0, 0, 0, 0)
      ensures PoolsOk(pools) && Freed(old(txRing), txRing, pools)
      ensures Freed(old(xdpRing), xdpRing, SINGLE) && Freed(old(rxRing), rxRing, pools)
    {
      hide Linked;
      var v := numQVectors;
      numTx, numRx, numXdp, numQVectors := 0, 0, 0, 0;
      FreeDown(v);
    }

    lemma PartitionOccupies()
      requires numQVectors > 0 && Partition()
      ensures Occupied(txRing, numTx) && Occupied(xdpRing, numXdp) && Occupied(rxRing, numRx)
    {
      hide XdpOwns;
      var c := Numbers();
      forall i | 0 <= i < c.tx ensures TxOwner(c, i) < c.vectors {
        Bits.DivModDef(i, Width(c));
      }
      forall i | 0 <= i < c.rx ensures RxOwner(c, i) < c.vectors {
        Bits.DivModDef(i, c.vectors);
      }
      forall i | 0 <= i < c.xdp ensures xdpRing[i].Some? {
        var v := XdpOwnerExists(c, i);
        assert v < c.vectors by {
          OwnerInRange(c, v, i);
        }
      }
    }

    /** Allocation followed by freeing: no vector is left, the slots past the first pool keep their
        pointers, and so the empty adapter comes back iff there are no extra pools or all rings fit
        the first. */
    method AllocThenFree(grant: nat -> bool) returns (ok: bool)
      requires Ready() && numQVectors > 0
      modifies this
      ensures ok <==> forall v | 0 <= v < old(numQVectors) :: grant(v)
      ensures LiveBelow(0) && Numbers() == Counts(0, 0, 0, 0)
      ensures |txRing| == old(|txRing|) && |xdpRing| == old(|xdpRing|) && |rxRing| == old(|rxRing|)
      ensures ok ==>
        && TxHeld(txRing, old(Numbers()), FirstKept(pools, |txRing|), old(numQVectors))
        && RxHeld(rxRing, old(Numbers()), FirstKept(pools, |rxRing|), old(numQVectors))
      ensures ok ==> (Occupied(txRing, 0) && Occupied(xdpRing, 0) && Occupied(rxRing, 0)
        <==> pools.numVmdqs <= 1 || (old(numTx) <= pools.queuesPerPool && old(numRx) <= pools.queuesPerPool))
    {
      hide Linked, Freed, TxHeld, RxHeld, XdpHeld, Occupied;
      ghost var made;
      ok, made := AllocVectors(grant);
      if ok {
        PartitionOccupies();
        ghost var tx0, xdp0, rx0, c := txRing, xdpRing, rxRing, Numbers();
        FreeVectors();
        TxAfterFree(tx0, txRing, pools, c, c.vectors);
        RxAfterFree(rx0, rxRing, pools, c, c.vectors);
        FreeReaches(tx0, txRing, pools);
        FreeReaches(rx0, rxRing, pools);
        FreeReaches(xdp0, xdpRing, SINGLE);
        FreeRestores(tx0, txRing, pools, c.tx);
        FreeRestores(xdp0, xdpRing, SINGLE, c.xdp);
        FreeRestores(rx0, rxRing, pools, c.rx);
      }
    }

    /** txgbe_free_q_vector */
    method FreeVector(v: nat)
      requires v < |live| == |txQ| == |xdpQ| == |rxQ|
      requires forall x | x in txQ[v] :: x < |txRing|
      requires forall x | x in xdpQ[v] :: x < |xdpRing|
      requires forall x | x in rxQ[v] :: x < |rxRing|
      modifies this`txRing, this`xdpRing, this`rxRing, this`live, this`txQ, this`xdpQ, this`rxQ
      ensures live == old(live)[v := false]
      ensures txQ == old(txQ)[v := []] && xdpQ == old(xdpQ)[v := []] && rxQ == old(rxQ)[v := []]
      ensures |txRing| == |old(txRing)| && |xdpRing| == |old(xdpRing)| && |rxRing| == |old(rxRing)|
      ensures forall j | 0 <= j < |txRing| :: txRing[j] == if j in old(txQ)[v] then None else old(txRing)[j]
      ensures forall j | 0 <= j < |xdpRing| :: xdpRing[j] == if j in old(xdpQ)[v] then None else old(xdpRing)[j]
      ensures forall j | 0 <= j < |rxRing| :: rxRing[j] == if j in old(rxQ)[v] then None else old(rxRing)[j]
    {
      txRing := ClearRings(txRing, txQ[v]);
      xdpRing := ClearRings(xdpRing, xdpQ[v]);
      rxRing := ClearRings(rxRing, rxQ[v]);
      live := live[v := false];
      txQ, xdpQ, rxQ := txQ[v := []], xdpQ[v := []], rxQ[v := []];
    }
  }

  lemma OneRing(start: nat, step: nat)
    ensures forall i: nat :: OnStride(i, start, step, 1) <==> i == start
    ensures forall i: nat :: !OnStride(i, 0, step, 0) && !OnStride(i, 0, 1, 0)
    ensures At(start, step, 0) == start
  {
    assert At(start, step, 0) == start;
  }

  lemma NoStride(start: nat, step: nat)
    ensures forall i: nat :: !OnStride(i, start, step, 0)
  {}

  lemma NoRings(w: nat, u: nat)
    requires u < w
    ensures Left(0, w, u) == 0 && DivRoundUp(0, w - u) == 0 && Share(0, w, u) == 0
  {
    Bits.DivModUnique(0, w, 0, 0);
    Bits.DivModUnique(w - u - 1, w - u, 0, w - u - 1);
  }

  /** No vector is dealt more than is there. */
  lemma {:induction false} LeftBound(n: nat, w: nat, u: nat)
    requires u <= w && w > 0
    ensures Left(n, w, u) <= n
    decreases u
  {
    hide Share, Left;
    LeftEnds(n, w);
    if u > 0 {
      LeftBound(n, w, u - 1);
      DealStep(n, w, u - 1);
    }
  }

  ghost predicate EvenLoads(lists: Lists, w: nat) {
    w <= |lists| && forall x, y | 0 <= x < w && 0 <= y < w :: |lists[x]| <= |lists[y]| + 1
  }

  lemma StartStride(slots: Slots, n: nat, w: nat, v0: nat)
    requires w > 0 && n <= |slots| && forall i | 0 <= i < |slots| :: slots[i] == None
    ensures Strided(slots, n, w, v0, 0)
  {
    forall i | 0 <= i < |slots| ensures i % w >= 0 {
      Bits.DivModDef(i, w);
    }
  }

  lemma StartDealing(tx: Slots, xdp: Slots, numTx: nat, numXdp: nat, w: nat, v0: nat)
    requires w > 0 && numTx <= |tx| && numXdp <= |xdp|
    requires forall i | 0 <= i < |tx| :: tx[i] == None
    requires forall i | 0 <= i < |xdp| :: xdp[i] == None
    ensures Strided(tx, numTx, w, v0, 0) && Runs(xdp, numXdp, w, v0, 0)
  {
    StartStride(tx, numTx, w, v0);
    LeftEnds(numXdp, w);
  }

  lemma OwnerInRange(c: Counts, v: nat, i: nat)
    requires XdpOwns(c, v, i)
    ensures v < c.vectors
  {}

  lemma NothingListed(lists: Lists, n: nat)
    requires n <= |lists|
    ensures forall j: nat :: !Listed(lists, n, n, j)
  {}

  /** For instance two pools of one queue, two Tx and two Rx rings on one vector: after allocation and
      freeing the second slot of both arrays still points to the freed vector. */
  method PointerLeft() returns (a: Adapter)
    ensures fresh(a) && a.LiveBelow(0)
    ensures |a.txRing| == |a.rxRing| == 2 && a.txRing[1] == Some(0) && a.rxRing[1] == Some(0)
  {
    hide Linked, TxHeld, RxHeld, Occupied;
    a := new Adapter(1, 2, Pools(2, 1));
    a.numQVectors, a.numTx, a.numRx, a.numXdp := 1, 2, 2, 0;
    var ok := a.AllocThenFree(_ => true);
    SecondSlots(a.txRing, a.rxRing);
  }

  lemma SecondSlots(tx: Slots, rx: Slots)
    requires |tx| == |rx| == 2
    requires TxHeld(tx, Counts(1, 2, 2, 0), 1, 1) && RxHeld(rx, Counts(1, 2, 2, 0), 1, 1)
    ensures tx[1] == Some(0) && rx[1] == Some(0)
  {
    hide TxHeld, RxHeld, TxOwner, RxOwner;
    var c := Counts(1, 2, 2, 0);
    HeldAt(tx, rx, c, 1, 1, 1);
    OneVectorOwnsAll(c, 1);
  }

  lemma HeldAt(tx: Slots, rx: Slots, c: Counts, from: nat, v: nat, i: nat)
    requires c.vectors > 0 && i < |tx| && i < |rx| && from <= i < c.tx && i < c.rx
    requires TxHeld(tx, c, from, v) && RxHeld(rx, c, from, v)
    ensures TxOwner(c, i) < v ==> tx[i] == Some(TxOwner(c, i))
    ensures RxOwner(c, i) < v ==> rx[i] == Some(RxOwner(c, i))
  {
    hide TxOwner, RxOwner;
  }

  lemma OneVectorOwnsAll(c: Counts, i: nat)
    requires c.vectors == 1 && !SeparateRx(c) && i < c.tx && i < c.rx
    ensures TxOwner(c, i) == 0 && RxOwner(c, i) == 0
  {
    Bits.DivModUnique(i, 1, i, 0);
  }
}
