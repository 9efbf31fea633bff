/** Ring-to-register maps and the queue counts they rest on (src/txgbe_lib.c:38-258, 309-556), with
    FCoE disabled. */
module RingRegisters {
  import opened Bits

  const MAX_REGS := 128
  const U16 := 0x1_0000
  const U32 := 0x1_0000_0000

  /** Queues per pool; the VMDq masks 0x78, 0x7C and 0x7E belong to 8, 4 and 2. */
  datatype PoolSize = Eight | Four | Two

  function Q(s: PoolSize): nat {
    match s
    case Eight => 8
    case Four => 4
    case Two => 2
  }

  function Log(s: PoolSize): nat {
    match s
    case Eight => 3
    case Four => 2
    case Two => 1
  }

  function VmdqMask(s: PoolSize): nat {
    match s
    case Eight => 0x78
    case Four => 0x7C
    case Two => 0x7E
  }

  function PoolCap(s: PoolSize): nat {
    MAX_REGS / Q(s)
  }

  /** ~mask on 32 bits. */
  function Inverted(s: PoolSize): (r: nat)
    ensures r < U32
  {
    U32 - 1 - VmdqMask(s)
  }

  /** __ALIGN_MASK(x, ~mask) in 32-bit arithmetic. */
  function AlignMask(x: nat, s: PoolSize): nat {
    And((x + Inverted(s)) % U32, VmdqMask(s))
  }

  // ----- the masks are division by the pool size

  lemma AndVmdqMask(x: nat, s: PoolSize)
    ensures And(x, VmdqMask(s)) == Q(s) * (x / Q(s) % PoolCap(s))
  {
    hide And;
    assert Pow2(Log(s)) == Q(s) && Pow2(7 - Log(s)) == PoolCap(s) by {
      Pow2Values();
    }
    AndHighMask(x, Log(s), 7 - Log(s), VmdqMask(s));
  }

  /** Masking with the inverted VMDq mask and with the RSS mask both give the place in the pool. */
  lemma PlaceInPool(x: nat, s: PoolSize)
    requires x < MAX_REGS
    ensures And(x, Inverted(s)) == x % Q(s) == And(x, Q(s) - 1)
  {
    hide And;
    AndVmdqMask(x, s);
    LowPool(x, s);
    assert Pow2(32) == U32 by {
      Pow2Values();
    }
    AndComplement(x, VmdqMask(s), 32);
    assert Pow2(Log(s)) == Q(s);
    AndLow(x, Log(s));
  }

  lemma LowPool(x: nat, s: PoolSize)
    requires x < MAX_REGS
    ensures x / Q(s) % PoolCap(s) == x / Q(s)
    ensures x - Q(s) * (x / Q(s)) == x % Q(s)
  {
    var q, c := Q(s), x / Q(s);
    DivModDef(x, q);
    assert c < PoolCap(s) by {
      match s
      case Eight =>
      case Four =>
      case Two =>
    }
    DivModUnique(c, PoolCap(s), 0, c);
  }

  /** Aligning rounds up to the next pool. */
  lemma AlignRoundsUp(p: nat, r: nat, s: PoolSize)
    requires 0 < r <= Q(s) && p + 1 < PoolCap(s)
    ensures AlignMask(p * Q(s) + r, s) == (p + 1) * Q(s)
  {
    hide And;
    var x := p * Q(s) + r;
    var y := (x + Inverted(s)) % U32;
    AlignShift(p, r, s);
    AndVmdqMask(y, s);
  }

  lemma AlignShift(p: nat, r: nat, s: PoolSize)
    requires 0 < r <= Q(s) && p + 1 < PoolCap(s)
    ensures ((p * Q(s) + r + Inverted(s)) % U32) / Q(s) % PoolCap(s) == p + 1
  {
    match s
    case Eight => AlignShiftBy(p, r, 8, 16, 0x78);
    case Four => AlignShiftBy(p, r, 4, 32, 0x7C);
    case Two => AlignShiftBy(p, r, 2, 64, 0x7E);
  }

  lemma AlignShiftBy(p: nat, r: nat, q: nat, cap: nat, mask: nat)
    requires (q == 8 && cap == 16) || (q == 4 && cap == 32) || (q == 2 && cap == 64)
    requires mask == MAX_REGS - q && 0 < r <= q && p + 1 < cap
    ensures ((p * q + r + (U32 - 1 - mask)) % U32) / q % cap == p + 1
  {
    var y := p * q + r + (U32 - 1 - mask);
    var high := if q == 8 then 0x1FFFFFF0 else if q == 4 then 0x3FFFFFE0 else 0x7FFFFFC0;
    assert q * high == U32 - MAX_REGS && cap * 0x1FFFFFF == high;
    assert y == q * (high + p + 1) + (r - 1);
    assert 0 <= y < U32;
    DivModUnique(y, U32, 0, y);
    DivModUnique(y, q, high + p + 1, r - 1);
    DivModUnique(high + p + 1, cap, 0x1FFFFFF, p + 1);
  }

  lemma PoolWidth(s: PoolSize)
    ensures AlignMask(1, s) == Q(s)
  {
    hide And, AlignMask;
    AlignRoundsUp(0, 1, s);
  }

  // ----- pools of queues

  /** Register of ring i when each pool offers n of its queues, starting at pool `offset`. */
  function PoolReg(offset: nat, n: nat, s: PoolSize, i: nat): nat
    requires n > 0
  {
    (offset + i / n) * Q(s) + i % n
  }

  /** The driver's test and realignment at the head of a round. */
  function Settle(reg: nat, testMask: nat, n: nat, s: PoolSize): nat {
    if And(reg, testMask) >= n then AlignMask(reg, s) else reg
  }

  predicate IsPlaceMask(testMask: nat, s: PoolSize) {
    testMask == Inverted(s) || testMask == Q(s) - 1
  }

  lemma SettleInPool(p: nat, r: nat, testMask: nat, n: nat, s: PoolSize)
    requires IsPlaceMask(testMask, s) && r < n <= Q(s) && p < PoolCap(s)
    ensures Settle(p * Q(s) + r, testMask, n, s) == p * Q(s) + r
  {
    hide And, AlignMask;
    var x := p * Q(s) + r;
    assert p * Q(s) + Q(s) <= MAX_REGS;
    PlaceInPool(x, s);
    DivModUnique(x, Q(s), p, r);
  }

  lemma SettleAtEnd(p: nat, testMask: nat, n: nat, s: PoolSize)
    requires IsPlaceMask(testMask, s) && 0 < n <= Q(s) && p + 1 < PoolCap(s)
    ensures Settle(p * Q(s) + n, testMask, n, s) == (p + 1) * Q(s)
  {
    hide And, AlignMask;
    var x := p * Q(s) + n;
    assert p * Q(s) + 2 * Q(s) <= MAX_REGS;
    PlaceInPool(x, s);
    if n < Q(s) {
      DivModUnique(x, Q(s), p, n);
      AlignRoundsUp(p, n, s);
    } else {
      DivModUnique(x, Q(s), p + 1, 0);
    }
  }

  /** Stepping from ring i-1 to ring i lands on the register of ring i. */
  lemma NextReg(offset: nat, n: nat, s: PoolSize, testMask: nat, i: nat)
    requires IsPlaceMask(testMask, s) && 0 < n <= Q(s) && i > 0 && offset + i / n < PoolCap(s)
    ensures Settle(PoolReg(offset, n, s, i - 1) + 1, testMask, n, s) == PoolReg(offset, n, s, i)
  {
    hide Settle, PoolReg, Q;
    DivModDef(i - 1, n);
    var a, b := (i - 1) / n, (i - 1) % n;
    if b + 1 < n {
      DivModUnique(i, n, a, b + 1);
      PoolRegAt(offset, n, s, i - 1, a, b);
      PoolRegAt(offset, n, s, i, a, b + 1);
      SettleInPool(offset + a, b + 1, testMask, n, s);
    } else {
      DivModUnique(i, n, a + 1, 0);
      PoolRegAt(offset, n, s, i - 1, a, b);
      PoolRegAt(offset, n, s, i, a + 1, 0);
      SettleAtEnd(offset + a, testMask, n, s);
    }
  }

  lemma PoolRegAt(offset: nat, n: nat, s: PoolSize, i: nat, a: nat, b: nat)
    requires n > 0 && i / n == a && i % n == b
    ensures PoolReg(offset, n, s, i) == (offset + a) * Q(s) + b
  {}

  /** The map loop of txgbe_cache_ring_dcb_vmdq and txgbe_cache_ring_vmdq, for one ring array. */
  method CachePools(offset: nat, s: PoolSize, testMask: nat, n: nat, pools: nat, regs: array<nat>)
    requires IsPlaceMask(testMask, s) && n <= Q(s) && offset + pools <= PoolCap(s)
    requires pools * n <= regs.Length
    modifies regs
    ensures n > 0 ==> forall i | 0 <= i < pools * n :: regs[i] == PoolReg(offset, n, s, i)
    ensures forall i | pools * n <= i < regs.Length :: regs[i] == old(regs[i])
  {
    hide And, AlignMask, PoolReg;
    PoolWidth(s);
    var count := pools * n;
    var reg := offset * AlignMask(1, s);
    for i := 0 to count
      invariant i == 0 ==> reg == offset * Q(s)
      invariant i > 0 ==> n > 0 && reg == PoolReg(offset, n, s, i - 1) + 1
      invariant n > 0 ==> forall k | 0 <= k < i :: regs[k] == PoolReg(offset, n, s, k)
      invariant forall k | count <= k < regs.Length :: regs[k] == old(regs[k])
    {
      assert n > 0 by {
        assert pools * 0 == 0;
      }
      PoolOfRing(pools, n, i);
      if i == 0 {
        FirstReg(offset, n, s);
        SettleInPool(offset, 0, testMask, n, s);
      } else {
        NextReg(offset, n, s, testMask, i);
      }
      if And(reg, testMask) >= n {
        reg := AlignMask(reg, s);
      }
      regs[i] := reg;
      reg := reg + 1;
    }
  }

  lemma FirstReg(offset: nat, n: nat, s: PoolSize)
    requires n > 0
    ensures PoolReg(offset, n, s, 0) == offset * Q(s)
  {
    DivModUnique(0, n, 0, 0);
  }

  lemma PoolOfRing(pools: nat, n: nat, i: nat)
    requires n > 0 && i < pools * n
    ensures i / n < pools
  {
    DivModDef(i, n);
    assert n * pools == pools * n;
    if i / n > pools {
      MulGap(n, pools, i / n);
    }
  }

  /** The map is injective and stays below 128. */
  lemma PoolRegsDistinct(offset: nat, n: nat, s: PoolSize, pools: nat, i: nat, j: nat)
    requires 0 < n <= Q(s) && offset + pools <= PoolCap(s) && i < pools * n && j < pools * n
    ensures PoolReg(offset, n, s, i) < MAX_REGS
    ensures PoolReg(offset, n, s, i) == PoolReg(offset, n, s, j) ==> i == j
  {
    hide Q, PoolCap;
    PoolOfRing(pools, n, i);
    PoolOfRing(pools, n, j);
    DivModDef(i, n);
    DivModDef(j, n);
    var a, b := offset + i / n, offset + j / n;
    PoolEnds(a, s);
    if PoolReg(offset, n, s, i) == PoolReg(offset, n, s, j) {
      PlaceUnique(Q(s), a, i % n, b, j % n);
    }
  }

  lemma PoolEnds(a: nat, s: PoolSize)
    requires a < PoolCap(s)
    ensures a * Q(s) + Q(s) <= MAX_REGS
  {
    match s
    case Eight =>
    case Four =>
    case Two =>
  }

  /** Pool and place in the pool are determined by the register. */
  lemma PlaceUnique(q: nat, a: nat, r: nat, b: nat, t: nat)
    requires r < q && t < q && a * q + r == b * q + t
    ensures a == b && r == t
  {
    assert a * q == q * a && b * q == q * b;
    DivModUnique(a * q + r, q, a, r);
    DivModUnique(b * q + t, q, b, t);
  }

  // ----- queue counts of the VMDq modes

  /** u16 addition and subtraction. */
  function Add16(a: nat, b: nat): nat {
    (a + b) % U16
  }

  function Sub16(a: nat, b: nat): nat {
    (a - b) % U16
  }

  /** What a queue-setting routine decides: pools in use, queues used in each, and the pool size. */
  datatype PoolPlan = PoolPlan(pools: nat, perPool: nat, size: PoolSize)

  /** txgbe_set_dcb_vmdq_queues */
  function DcbVmdqPlan(tcs: nat, limit: nat, offset: nat): PoolPlan {
    var size := if tcs > 4 then Eight else Four;
    PoolPlan(Sub16(Min(PoolCap(size), Add16(limit, offset)), offset), tcs, size)
  }

  /** txgbe_set_vmdq_queues */
  function VmdqPlan(limit: nat, offset: nat, rssLimit: nat): PoolPlan {
    var total := Min(PoolCap(Two), Add16(limit, offset));
    if total > 32 then PoolPlan(Sub16(total, offset), Min(rssLimit, 2), Two)
    else PoolPlan(Sub16(total, offset), if rssLimit > 3 then 4 else if rssLimit > 1 then 2 else 1, Four)
  }

  /** A plan whose pools fit the device: what the map loop needs. */
  predicate Fits(p: PoolPlan, offset: nat) {
    p.perPool <= Q(p.size) && offset + p.pools <= PoolCap(p.size)
  }

  lemma MinusOffset(total: nat, offset: nat)
    requires total < U16 && offset < U16
    ensures Sub16(total, offset) == if offset <= total then total - offset else total - offset + U16
  {
    if offset <= total {
      DivModUnique(total - offset, U16, 0, total - offset);
    } else {
      assert (total - offset) % U16 == total - offset + U16;
    }
  }

  /** Adding the offset to the limit and taking it away again in 16 bits: what remains stays within the
      cap exactly if the sum does not wrap and the offset is within the cap. */
  lemma CappedPools(limit: nat, offset: nat, cap: nat)
    requires limit < U16 && offset < U16 && cap < U16
    ensures offset + Sub16(Min(cap, Add16(limit, offset)), offset) <= cap
       <==> offset <= cap && limit + offset < U16
    ensures offset <= cap && limit + offset < U16 ==>
      && Add16(limit, offset) == limit + offset
      && offset + Sub16(Min(cap, limit + offset), offset) == Min(cap, limit + offset)
  {
    if limit + offset < U16 {
      DivModUnique(limit + offset, U16, 0, limit + offset);
    } else {
      DivModUnique(limit + offset, U16, 1, limit + offset - U16);
    }
    MinusOffset(Min(cap, Add16(limit, offset)), offset);
  }

  /** The DCB plan fits exactly when the pool offset does not exceed the mode's pool cap and the 16-bit
      pool count does not wrap. */
  lemma DcbVmdqFits(tcs: nat, limit: nat, offset: nat)
    requires 1 < tcs <= 8 && limit < U16 && offset < U16
    ensures Fits(DcbVmdqPlan(tcs, limit, offset), offset)
       <==> offset <= PoolCap(if tcs > 4 then Eight else Four) && limit + offset < U16
  {
    hide Add16, Sub16;
    CappedPools(limit, offset, PoolCap(if tcs > 4 then Eight else Four));
  }

  lemma VmdqFits(limit: nat, offset: nat, rssLimit: nat)
    requires limit < U16 && offset < U16
    ensures Fits(VmdqPlan(limit, offset, rssLimit), offset) <==> offset <= PoolCap(Two) && limit + offset < U16
  {
    hide Add16, Sub16;
    CappedPools(limit, offset, PoolCap(Two));
  }

  /** Pools of 8, 4 and 2 queues fill the 128 queues, and the mask selects the pool. */
  lemma PoolsFillDevice(s: PoolSize)
    ensures Q(s) * PoolCap(s) == 128 && VmdqMask(s) == 128 - Q(s)
    ensures Q(s) == match s case Eight => 8 case Four => 4 case Two => 2
  {}

  /** The DCB plan: a queue for each class in pools of 8 or 4, as many pools as limit and device allow. */
  lemma DcbVmdqUses(tcs: nat, limit: nat, offset: nat)
    requires 1 < tcs <= 8 && limit < U16 && offset < U16
    requires offset <= (if tcs > 4 then 16 else 32) && limit + offset < U16
    ensures var p := DcbVmdqPlan(tcs, limit, offset);
      && p.perPool == tcs <= Q(p.size) && Q(p.size) == (if tcs > 4 then 8 else 4)
      && p.pools == Min(limit, (if tcs > 4 then 16 else 32) - offset)
  {
    hide Add16, Sub16;
    CappedPools(limit, offset, if tcs > 4 then 16 else 32);
  }

  /** The VMDq plan: pools of 2 queues if more than 32 pools are wanted, else of 4; of these the largest
      power of two the user's limit allows, at least one where the pools hold four. */
  lemma VmdqUses(limit: nat, offset: nat, rssLimit: nat)
    requires limit < U16 && offset < U16 && offset <= 64 && limit + offset < U16
    ensures var p := VmdqPlan(limit, offset, rssLimit);
      && p.pools == Min(limit, 64 - offset)
      && Q(p.size) == (if limit + offset > 32 then 2 else 4)
      && (limit + offset > 32 ==> p.perPool == Min(rssLimit, 2))
      && (limit + offset <= 32 ==>
            && p.perPool in {1, 2, 4} && (p.perPool > 1 ==> p.perPool <= rssLimit)
            && (p.perPool < 4 ==> rssLimit < 2 * p.perPool))
  {
    hide Add16, Sub16;
    CappedPools(limit, offset, 64);
  }

  /** In both VMDq modes the Rx and Tx maps are the same, injective and below 128, whenever the pool
      offset is within the cap. */
  lemma VmdqMapsAreInjective(p: PoolPlan, offset: nat, i: nat, j: nat)
    requires Fits(p, offset) && i < p.pools * p.perPool && j < p.pools * p.perPool
    ensures p.perPool > 0
    ensures PoolReg(offset, p.perPool, p.size, i) < MAX_REGS
    ensures PoolReg(offset, p.perPool, p.size, i) == PoolReg(offset, p.perPool, p.size, j) ==> i == j
  {
    assert p.pools * 0 == 0;
    PoolRegsDistinct(offset, p.perPool, p.size, p.pools, i, j);
  }

  /** txgbe_cache_ring_vmdq and txgbe_cache_ring_dcb_vmdq: Rx tests the inverted VMDq mask, Tx tests
      `txMask`, the RSS mask or again the inverted VMDq mask. */
  method CacheVmdq(p: PoolPlan, offset: nat, txMask: nat, tx: array<nat>, rx: array<nat>)
    requires Fits(p, offset) && IsPlaceMask(txMask, p.size) && tx != rx
    requires p.pools * p.perPool <= tx.Length && p.pools * p.perPool <= rx.Length
    modifies tx, rx
    ensures forall i | 0 <= i < p.pools * p.perPool ::
      p.perPool > 0 && tx[i] == rx[i] == PoolReg(offset, p.perPool, p.size, i)
  {
    hide PoolReg;
    CachePools(offset, p.size, Inverted(p.size), p.perPool, p.pools, rx);
    CachePools(offset, p.size, txMask, p.perPool, p.pools, tx);
    assert p.perPool == 0 ==> p.pools * p.perPool == 0;
  }

  // ----- traffic classes

  /** txgbe_get_first_reg_idx */
  function FirstTx(tcs: nat, tc: nat): nat {
    if tcs > 4 then
      if tc < 3 then tc * 32 else if tc < 5 then (tc + 2) * 16 else (tc + 8) * 8
    else
      if tc < 2 then tc * 64 else (tc + 4) * 16
  }

  function FirstRx(tcs: nat, tc: nat): nat {
    if tcs > 4 then tc * 16 else tc * 32
  }

  function DcbCap(tcs: nat): nat {
    if tcs > 4 then 8 else 16
  }

  /** The queues per class chosen by txgbe_set_dcb_queues. */
  function DcbQueues(devQueues: nat, tcs: nat, limit: nat): nat
    requires tcs > 0
  {
    Min(Min(devQueues / tcs % U16, DcbCap(tcs)), limit)
  }

  /** Under the caps the register ranges of the classes never overlap and end below 128. */
  lemma ClassRangesApart(tcs: nat, q: nat, tc: nat, i: nat, tc': nat, i': nat)
    requires 1 < tcs <= 8 && q <= DcbCap(tcs) && tc < tcs && tc' < tcs && i < q && i' < q
    ensures FirstTx(tcs, tc) + i < MAX_REGS && FirstRx(tcs, tc) + i < MAX_REGS
    ensures FirstTx(tcs, tc) + i == FirstTx(tcs, tc') + i' ==> tc == tc' && i == i'
    ensures FirstRx(tcs, tc) + i == FirstRx(tcs, tc') + i' ==> tc == tc' && i == i'
  {}

  /** Tx queues the device gives each class, by the table in src/txgbe_lib.c:118-134: 32, 32, 16, 16 and 8 each in
      the eight-class mode; 64, 32, 16, 16 in the four-class mode. */
  function TxSize(tcs: nat, tc: nat): nat {
    if tcs > 4 then
      match tc
      case 0 => 32
      case 1 => 32
      case 2 => 16
      case 3 => 16
      case _ => 8
    else
      match tc
      case 0 => 64
      case 1 => 32
      case _ => 16
  }

  /** Rx queues: 16 for each of eight classes, 32 for each of four. */
  function RxSize(tcs: nat): nat {
    if tcs > 4 then 16 else 32
  }

  function Modes(tcs: nat): nat {
    if tcs > 4 then 8 else 4
  }

  /** The ranges tile the device's queues: the first starts at 0, each ends where the next begins, and
      the last ends at 128. */
  lemma ClassRangesTile(tcs: nat, tc: nat)
    requires 1 < tcs <= 8 && tc < Modes(tcs)
    ensures FirstTx(tcs, 0) == 0 && FirstRx(tcs, 0) == 0
    ensures FirstTx(tcs, tc) + TxSize(tcs, tc) == (if tc + 1 < Modes(tcs) then FirstTx(tcs, tc + 1) else 128)
    ensures FirstRx(tcs, tc) + RxSize(tcs) == (if tc + 1 < Modes(tcs) then FirstRx(tcs, tc + 1) else 128)
  {}

  /** Ring k belongs to class k / q, and its registers lie in the queues the device gives that class. */
  lemma RingInItsClass(tcs: nat, q: nat, k: nat)
    requires 1 < tcs <= 8 && 0 < q <= DcbCap(tcs) && k < tcs * q
    ensures var tc := k / q;
      && tc < tcs
      && FirstTx(tcs, tc) <= DcbTx(tcs, q, k) < FirstTx(tcs, tc) + TxSize(tcs, tc)
      && FirstRx(tcs, tc) <= DcbRx(tcs, q, k) < FirstRx(tcs, tc) + RxSize(tcs)
      && DcbTx(tcs, q, k) - FirstTx(tcs, tc) == k - q * tc == DcbRx(tcs, q, k) - FirstRx(tcs, tc)
  {
    PoolOfRing(tcs, q, k);
    DivModDef(k, q);
  }

  /** The cap of queues per class is the smallest share any class has of the device's Tx queues. */
  lemma CapIsSmallestShare(tcs: nat)
    requires 1 < tcs <= 8
    ensures forall tc | 0 <= tc < Modes(tcs) :: DcbCap(tcs) <= TxSize(tcs, tc) && DcbCap(tcs) <= RxSize(tcs)
    ensures exists tc :: 0 <= tc < Modes(tcs) && DcbCap(tcs) == TxSize(tcs, tc)
  {
    assert TxSize(tcs, Modes(tcs) - 1) == DcbCap(tcs);
  }

  /** The queues per class are the most that device, mode and user all allow. */
  lemma DcbQueuesAreMost(devQueues: nat, tcs: nat, limit: nat, q: nat)
    requires 1 < tcs <= 8 && devQueues < U16
    ensures q <= DcbQueues(devQueues, tcs, limit) <==> q * tcs <= devQueues && q <= DcbCap(tcs) && q <= limit
  {
    DivModDef(devQueues, tcs);
    var d := devQueues / tcs;
    if d >= U16 {
      MulGap(tcs, U16 - 1, d);
    }
    DivModUnique(d, U16, 0, d);
    assert q * tcs == tcs * q;
    if q < d {
      MulGap(tcs, q, d);
    } else if q > d {
      MulGap(tcs, d, q);
    }
  }

  /** Registers of ring k when each class has q rings. */
  function DcbTx(tcs: nat, q: nat, k: nat): nat
    requires q > 0
  {
    FirstTx(tcs, k / q) + k % q
  }

  function DcbRx(tcs: nat, q: nat, k: nat): nat
    requires q > 0
  {
    FirstRx(tcs, k / q) + k % q
  }

  lemma RingOfClass(tcs: nat, q: nat, tc: nat, i: nat)
    requires i < q
    ensures DcbTx(tcs, q, tc * q + i) == FirstTx(tcs, tc) + i && DcbRx(tcs, q, tc * q + i) == FirstRx(tcs, tc) + i
  {
    hide FirstTx, FirstRx;
    DivModUnique(tc * q + i, q, tc, i);
  }

  /** txgbe_cache_ring_dcb: class tc owns the rings tc*q .. tc*q+q-1. */
  method CacheDcb(tcs: nat, q: nat, tx: array<nat>, rx: array<nat>)
    requires tx != rx && tcs * q <= tx.Length && tcs * q <= rx.Length
    modifies tx, rx
    ensures forall k | 0 <= k < tcs * q :: q > 0 && tx[k] == DcbTx(tcs, q, k) && rx[k] == DcbRx(tcs, q, k)
  {
    hide FirstTx, FirstRx, DcbTx, DcbRx;
    var offset := 0;
    for tc := 0 to tcs
      invariant offset == tc * q <= tcs * q
      invariant forall k | 0 <= k < offset :: q > 0 && tx[k] == DcbTx(tcs, q, k) && rx[k] == DcbRx(tcs, q, k)
    {
      var txIdx, rxIdx := FirstTx(tcs, tc), FirstRx(tcs, tc);
      ClassFits(tcs, q, tc);
      for i := 0 to q
        invariant txIdx == FirstTx(tcs, tc) + i && rxIdx == FirstRx(tcs, tc) + i
        invariant forall k | 0 <= k < offset + i :: q > 0 && tx[k] == DcbTx(tcs, q, k) && rx[k] == DcbRx(tcs, q, k)
      {
        RingOfClass(tcs, q, tc, i);
        tx[offset + i] := txIdx;
        rx[offset + i] := rxIdx;
        txIdx, rxIdx := txIdx + 1, rxIdx + 1;
      }
      offset := offset + q;
    }
  }

  lemma ClassFits(tcs: nat, q: nat, tc: nat)
    requires tc < tcs
    ensures (tc + 1) * q == tc * q + q <= tcs * q
  {
    assert tcs * q == (tc + 1) * q + (tcs - tc - 1) * q;
  }

  /** In DCB mode the maps of both directions are injective and below 128. */
  lemma DcbMapsAreInjective(tcs: nat, q: nat, k: nat, l: nat)
    requires 1 < tcs <= 8 && 0 < q <= DcbCap(tcs) && k < tcs * q && l < tcs * q
    ensures DcbTx(tcs, q, k) < MAX_REGS && DcbRx(tcs, q, k) < MAX_REGS
    ensures DcbTx(tcs, q, k) == DcbTx(tcs, q, l) ==> k == l
    ensures DcbRx(tcs, q, k) == DcbRx(tcs, q, l) ==> k == l
  {
    hide FirstTx, FirstRx;
    PoolOfRing(tcs, q, k);
    PoolOfRing(tcs, q, l);
    DivModDef(k, q);
    DivModDef(l, q);
    ClassRangesApart(tcs, q, k / q, k % q, l / q, l % q);
  }

  /** The same for the queue count the driver chooses, whatever the device and the user allow. */
  lemma DcbModeIsInjective(devQueues: nat, tcs: nat, limit: nat, k: nat, l: nat)
    requires 1 < tcs <= 8
    requires k < tcs * DcbQueues(devQueues, tcs, limit) && l < tcs * DcbQueues(devQueues, tcs, limit)
    ensures var q := DcbQueues(devQueues, tcs, limit);
      && q > 0 && DcbTx(tcs, q, k) < MAX_REGS && DcbRx(tcs, q, k) < MAX_REGS
      && (DcbTx(tcs, q, k) == DcbTx(tcs, q, l) ==> k == l)
      && (DcbRx(tcs, q, k) == DcbRx(tcs, q, l) ==> k == l)
  {
    hide DcbTx, DcbRx;
    var q := DcbQueues(devQueues, tcs, limit);
    assert tcs * 0 == 0;
    assert q <= DcbCap(tcs);
    DcbMapsAreInjective(tcs, q, k, l);
  }

  // ----- RSS and XDP

  const MAX_XDP := 32

  /** Rx, Tx and XDP rings. */
  datatype RssPlan = RssPlan(rx: nat, tx: nat, xdp: nat)

  /** txgbe_set_rss_queues and txgbe_xdp_queues: the flow director's limit replaces the RSS limit when
      flows are sampled. */
  function RssQueues(rssLimit: nat, fdirLimit: nat, sampled: bool, xdpProg: bool, cpus: nat): RssPlan {
    var n := if rssLimit > 1 && sampled then fdirLimit else rssLimit;
    RssPlan(n, n, if xdpProg then Min(MAX_XDP, cpus) else 0)
  }

  /** Sampling flows raises the rings to the flow director's limit, never without RSS; a program gets one
      XDP ring per CPU, at most 32. */
  lemma RssUses(rssLimit: nat, fdirLimit: nat, xdpProg: bool, cpus: nat)
    ensures var p := RssQueues(rssLimit, fdirLimit, false, xdpProg, cpus); p.rx == p.tx == rssLimit
    ensures rssLimit <= 1 ==>
      RssQueues(rssLimit, fdirLimit, true, xdpProg, cpus) == RssQueues(rssLimit, fdirLimit, false, xdpProg, cpus)
    ensures rssLimit > 1 ==>
      var p := RssQueues(rssLimit, fdirLimit, true, xdpProg, cpus); p.rx == p.tx == fdirLimit
    ensures forall sampled :: var x := RssQueues(rssLimit, fdirLimit, sampled, xdpProg, cpus).xdp;
      if !xdpProg then x == 0 else x <= 32 && x <= cpus && (x == 32 || x == cpus)
  {}

  /** txgbe_cache_ring_rss: XDP rings follow the Tx rings. */
  method CacheRss(p: RssPlan, rx: array<nat>, tx: array<nat>, xdp: array<nat>)
    requires p.rx <= rx.Length && p.tx <= tx.Length && p.xdp <= xdp.Length
    requires rx != tx && rx != xdp && tx != xdp
    modifies rx, tx, xdp
    ensures rx[..p.rx] == Numbered(0, p.rx) && tx[..p.tx] + xdp[..p.xdp] == Numbered(0, p.tx + p.xdp)
  {
    for i := 0 to p.rx
      invariant forall k | 0 <= k < i :: rx[k] == k
    {
      rx[i] := i;
    }
    var reg := 0;
    for i := 0 to p.tx
      invariant reg == i && forall k | 0 <= k < i :: tx[k] == k
      invariant forall k | 0 <= k < p.rx :: rx[k] == k
    {
      tx[i] := reg;
      reg := reg + 1;
    }
    for i := 0 to p.xdp
      invariant reg == p.tx + i && forall k | 0 <= k < i :: xdp[k] == p.tx + k
      invariant forall k | 0 <= k < p.rx :: rx[k] == k
      invariant forall k | 0 <= k < p.tx :: tx[k] == k
    {
      xdp[i] := reg;
      reg := reg + 1;
    }
  }

  function Numbered(first: nat, n: nat): (r: seq<nat>)
    ensures |r| == n && forall k | 0 <= k < n :: r[k] == first + k
  {
    seq(n, k => first + k)
  }

  /** No two Tx or XDP rings share a register, and all registers exist exactly if Tx and XDP rings
      together are at most 128; so they do under the driver's limits of 63. */
  lemma RssRegisters(rssLimit: nat, fdirLimit: nat, sampled: bool, xdpProg: bool, cpus: nat)
    ensures var p := RssQueues(rssLimit, fdirLimit, sampled, xdpProg, cpus);
      var regs := Numbered(0, p.tx + p.xdp);
      && (forall i, j | 0 <= i < j < |regs| :: regs[i] != regs[j])
      && ((forall i | 0 <= i < |regs| :: regs[i] < MAX_REGS) <==> p.tx + p.xdp <= MAX_REGS)
      && p.rx <= p.tx + p.xdp
      && (rssLimit <= 63 && fdirLimit <= 63 ==> p.tx + p.xdp <= MAX_REGS)
  {
    var p := RssQueues(rssLimit, fdirLimit, sampled, xdpProg, cpus);
    var regs := Numbered(0, p.tx + p.xdp);
    if p.tx + p.xdp > MAX_REGS {
      assert regs[MAX_REGS] == MAX_REGS;
    }
  }
}
