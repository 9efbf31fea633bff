/** Life cycle of the FCoE direct data placement contexts (src/txgbe_fcoe.c): setup, frame receipt,
    put and free-all, with a ledger of outstanding pool blocks and scatter-list mappings. */
module FcoeContexts {
  import opened Bits
  import opened Wrappers
  import opened FcoeFlatten

  const DDP_MAX := 512
  const EINVAL := -22

  /** struct txgbe_fcoe_ddp; NULL pointers are None. */
  datatype Ddp = Ddp(len: int, err: nat, sgl: Option<nat>, sgc: nat, udl: Option<nat>, pool: Option<nat>)

  /** txgbe_fcoe_clear_ddp */
  const CLEARED := Ddp(0, 1, None, 0, None, None)

  /** A block of a DMA pool: the pool it belongs to and the block. */
  type Block = (nat, nat)

  /** A mapped scatter list and its number of entries. */
  type Mapping = (nat, nat)

  /** All contexts, plus what the DMA layer has handed out. `faults` counts releases of something
      that was not outstanding. */
  datatype State = State(
    ddp: seq<Ddp>,
    maxXid: nat,
    poolsAllocated: bool,
    blocks: multiset<Block>,
    maps: multiset<Mapping>,
    faults: nat)

  /** Arguments of a setup call together with the answers of the kernel services it uses: the
      mapped segments ([] for a mapping error), this CPU's pool and the block it gives. */
  datatype Request = Request(
    sgl: Option<nat>,
    sgc: nat,
    mapped: seq<Segment>,
    cpuPool: Option<nat>,
    block: Option<nat>,
    down: bool,
    extra: nat)

  datatype FcStat = StatDdp | StatFcpRsp | StatNoDdp | StatNoMatch

  datatype Event =
    | Setup(xid: nat, req: Request)
    | Frame(xid: nat, ddpErr: nat, stat: FcStat, rss: int)
    | Put(xid: nat)
    | FreeAll

  // ----- the ledger

  function FreeBlock(s: State, b: Block): State {
    if b in s.blocks then s.(blocks := s.blocks - multiset{b}) else s.(faults := s.faults + 1)
  }

  /** dma_unmap_sg; unmapping a NULL list of no entries does nothing. */
  function Unmap(s: State, sgl: Option<nat>, sgc: nat): State {
    if sgl.None? then s
    else if (sgl.value, sgc) in s.maps then s.(maps := s.maps - multiset{(sgl.value, sgc)})
    else s.(faults := s.faults + 1)
  }

  // ----- the operations

  predicate Accepts(mapped: seq<Segment>) {
    Aligned(mapped) && Need(mapped) <= BUFFCNT_MAX
  }

  /** The guards a setup call passes before it clears the context. */
  predicate Reaches(s: State, xid: nat, req: Request) {
    req.sgl.Some? && req.sgc > 0 && xid <= s.maxXid && xid < |s.ddp| && !req.down && s.ddp[xid].sgl.None?
  }

  /** txgbe_fcoe_ddp_setup: new state, and whether it returned 1. */
  function SetupSpec(s: State, xid: nat, req: Request): (State, bool) {
    if !Reaches(s, xid, req) then (s, false)
    else
      var s1 := s.(ddp := s.ddp[xid := CLEARED]);
      if !s.poolsAllocated || req.cpuPool.None? || req.mapped == [] || req.block.None? || !Accepts(req.mapped)
      then (s1, false)
      else
        var d := Ddp(0, 1, req.sgl, req.sgc, req.block, req.cpuPool);
        (s1.(ddp := s1.ddp[xid := d],
             blocks := s1.blocks + multiset{(req.cpuPool.value, req.block.value)},
             maps := s1.maps + multiset{(req.sgl.value, req.sgc)}), true)
  }

  /** txgbe_fcoe_ddp_put: new state and the length returned. */
  function PutSpec(s: State, xid: nat): (State, int) {
    if xid > s.maxXid || xid >= |s.ddp| || s.ddp[xid].udl.None? then (s, 0)
    else
      var d := s.ddp[xid];
      var s1 := Unmap(s, d.sgl, d.sgc);
      var s2 := if d.pool.Some? then FreeBlock(s1, (d.pool.value, d.udl.value)) else s1;
      (s2.(ddp := s2.ddp[xid := CLEARED]), d.len)
  }

  /** Put first invalidates the device's context: the exchange did not end cleanly. */
  predicate Forces(s: State, xid: nat) {
    xid <= s.maxXid && xid < |s.ddp| && s.ddp[xid].udl.Some? && s.ddp[xid].err != 0
  }

  /** txgbe_fcoe_ddp: new state and return code. */
  function FrameSpec(s: State, xid: nat, ddpErr: nat, stat: FcStat, rss: int): (State, int) {
    if xid >= DDP_MAX || xid >= |s.ddp| || s.ddp[xid].udl.None? || ddpErr != 0 then (s, EINVAL)
    else
      var d := s.ddp[xid];
      match stat
      case StatDdp => (s.(ddp := s.ddp[xid := d.(len := rss)]), 0)
      case StatFcpRsp =>
        var s1 := Unmap(s, d.sgl, d.sgc);
        (s1.(ddp := s1.ddp[xid := d.(len := rss, err := ddpErr, sgl := None, sgc := 0)]),
         if rss != 0 then rss else EINVAL)
      case StatNoDdp => (s.(ddp := s.ddp[xid := d.(len := rss)]), if rss != 0 then rss else EINVAL)
      case StatNoMatch => (s, EINVAL)
  }

  /** The put loop of txgbe_free_fcoe_ddp_resources over exchange ids below n. */
  function PutBelow(s: State, n: nat): State
    decreases n, s.maxXid
  {
    if n == 0 then s else PutSpec(PutBelow(s, n - 1), n - 1).0
  }

  function Step(s: State, e: Event): State {
    match e
    case Setup(xid, req) => SetupSpec(s, xid, req).0
    case Frame(xid, ddpErr, stat, rss) => FrameSpec(s, xid, ddpErr, stat, rss).0
    case Put(xid) => PutSpec(s, xid).0
    case FreeAll => if s.poolsAllocated then PutBelow(s, |s.ddp|) else s
  }

  function Run(s: State, events: seq<Event>): State
    decreases |events|
  {
    if events == [] then s else Run(Step(s, events[0]), events[1..])
  }

  function Initial(maxXid: nat): State {
    State(seq(DDP_MAX, _ => CLEARED), maxXid, true, multiset{}, multiset{}, 0)
  }

  // ----- what the contexts hold

  predicate HoldsBlock(d: Ddp, b: Block) {
    d.pool == Some(b.0) && d.udl == Some(b.1)
  }

  predicate HoldsMap(d: Ddp, m: Mapping) {
    d.sgl == Some(m.0) && d.sgc == m.1
  }

  /** How many contexts hold block `b`, and how many hold a mapping of list `m`. */
  function BlockHolders(ddp: seq<Ddp>, b: Block): nat {
    if ddp == [] then 0 else (if HoldsBlock(ddp[0], b) then 1 else 0) + BlockHolders(ddp[1..], b)
  }

  function MapHolders(ddp: seq<Ddp>, m: Mapping): nat {
    if ddp == [] then 0 else (if HoldsMap(ddp[0], m) then 1 else 0) + MapHolders(ddp[1..], m)
  }

  lemma {:induction false} HoldersAfterUpdate(ddp: seq<Ddp>, i: nat, d: Ddp, b: Block, m: Mapping)
    requires i < |ddp|
    ensures BlockHolders(ddp[i := d], b) ==
      BlockHolders(ddp, b) - (if HoldsBlock(ddp[i], b) then 1 else 0) + (if HoldsBlock(d, b) then 1 else 0)
    ensures MapHolders(ddp[i := d], m) ==
      MapHolders(ddp, m) - (if HoldsMap(ddp[i], m) then 1 else 0) + (if HoldsMap(d, m) then 1 else 0)
  {
    if i > 0 {
      HoldersAfterUpdate(ddp[1..], i - 1, d, b, m);
      assert ddp[i := d][1..] == ddp[1..][i - 1 := d];
    } else {
      assert ddp[i := d][1..] == ddp[1..];
    }
  }

  lemma {:induction false} NoHolder(ddp: seq<Ddp>, b: Block, m: Mapping)
    ensures BlockHolders(ddp, b) == 0 <==> forall i | 0 <= i < |ddp| :: !HoldsBlock(ddp[i], b)
    ensures MapHolders(ddp, m) == 0 <==> forall i | 0 <= i < |ddp| :: !HoldsMap(ddp[i], m)
  {
    if ddp != [] {
      NoHolder(ddp[1..], b, m);
      assert forall i | 0 <= i < |ddp[1..]| :: ddp[1..][i] == ddp[i + 1];
      assert forall i | 1 <= i < |ddp| :: ddp[i] == ddp[1..][i - 1];
    }
  }

  /** The block of a context, if it has one. */
  function HeldBlock(d: Ddp): multiset<Block> {
    if d.udl.Some? && d.pool.Some? then multiset{(d.pool.value, d.udl.value)} else multiset{}
  }

  // ----- the invariant of every run

  predicate Coherent(d: Ddp) {
    && (d.udl.Some? <==> d.pool.Some?)
    && (d.sgl.Some? ==> d.udl.Some?)
    && (d.udl.Some? ==> (d.err == 0 <==> d.sgl.None?))
  }

  /** Contexts are well formed, none above the id limit is in use, and nothing was ever released
      that was not outstanding. */
  ghost predicate Shape(s: State) {
    && |s.ddp| == DDP_MAX
    && s.faults == 0
    && (forall i | 0 <= i < DDP_MAX :: Coherent(s.ddp[i]))
    && (forall i | s.maxXid < i < DDP_MAX :: s.ddp[i].udl.None?)
  }

  /** Block `b` and list `m` are outstanding as often as contexts hold them, plus losses of `b`. */
  ghost predicate Tallied(s: State, lost: multiset<Block>, b: Block, m: Mapping) {
    && s.blocks[b] == BlockHolders(s.ddp, b) + lost[b]
    && s.maps[m] == MapHolders(s.ddp, m)
  }

  /** Every outstanding mapping belongs to a context; every outstanding block belongs to a context
      or was lost. */
  ghost predicate Accounts(s: State, lost: multiset<Block>) {
    Shape(s) && forall b: Block, m: Mapping :: Tallied(s, lost, b, m)
  }

  /** The block a setup call forgets: it clears a context whose list was unmapped by FCP_RSP but
      whose block was not yet put. */
  function Lost(s: State, e: Event): multiset<Block> {
    if e.Setup? && Reaches(s, e.xid, e.req) then HeldBlock(s.ddp[e.xid]) else multiset{}
  }

  function LostIn(s: State, events: seq<Event>): multiset<Block>
    decreases |events|
  {
    if events == [] then multiset{} else Lost(s, events[0]) + LostIn(Step(s, events[0]), events[1..])
  }

  lemma SetupTallied(s: State, xid: nat, req: Request, lost: multiset<Block>, b: Block, m: Mapping)
    requires Shape(s) && Tallied(s, lost, b, m)
    ensures Tallied(SetupSpec(s, xid, req).0, lost + Lost(s, Setup(xid, req)), b, m)
  {
    hide BlockHolders, MapHolders, Accepts;
    if Reaches(s, xid, req) {
      HoldersAfterUpdate(s.ddp, xid, CLEARED, b, m);
      HoldersAfterUpdate(s.ddp[xid := CLEARED], xid, Ddp(0, 1, req.sgl, req.sgc, req.block, req.cpuPool), b, m);
    }
  }

  lemma SetupAccounts(s: State, xid: nat, req: Request, lost: multiset<Block>)
    requires Accounts(s, lost)
    ensures Accounts(SetupSpec(s, xid, req).0, lost + Lost(s, Setup(xid, req)))
  {
    hide Tallied, BlockHolders, MapHolders, Accepts;
    var s' := SetupSpec(s, xid, req).0;
    forall b: Block, m: Mapping ensures Tallied(s', lost + Lost(s, Setup(xid, req)), b, m) {
      assert Tallied(s, lost, b, m);
      SetupTallied(s, xid, req, lost, b, m);
    }
  }

  /** What a context in use holds is outstanding, so releasing it is not a fault. */
  lemma HeldIsOutstanding(s: State, lost: multiset<Block>, xid: nat)
    requires Accounts(s, lost) && xid < DDP_MAX && s.ddp[xid].udl.Some?
    ensures s.ddp[xid].pool.Some? && (s.ddp[xid].pool.value, s.ddp[xid].udl.value) in s.blocks
    ensures s.ddp[xid].sgl.Some? ==> (s.ddp[xid].sgl.value, s.ddp[xid].sgc) in s.maps
  {
    var d := s.ddp[xid];
    var b := (d.pool.value, d.udl.value);
    var m := if d.sgl.Some? then (d.sgl.value, d.sgc) else (0, 0);
    assert Tallied(s, lost, b, m);
    NoHolder(s.ddp, b, m);
  }

  /** Putting a context in use releases exactly what it holds. */
  lemma PutValue(s: State, lost: multiset<Block>, xid: nat)
    requires Accounts(s, lost) && xid <= s.maxXid && xid < DDP_MAX && s.ddp[xid].udl.Some?
    ensures var d := s.ddp[xid];
      && d.pool.Some?
      && PutSpec(s, xid).0 == s.(
           ddp := s.ddp[xid := CLEARED],
           blocks := s.blocks - multiset{(d.pool.value, d.udl.value)},
           maps := if d.sgl.Some? then s.maps - multiset{(d.sgl.value, d.sgc)} else s.maps)
      && (d.pool.value, d.udl.value) in s.blocks
      && (d.sgl.Some? ==> (d.sgl.value, d.sgc) in s.maps)
  {
    HeldIsOutstanding(s, lost, xid);
    hide Accounts;
  }

  lemma PutTallied(s: State, xid: nat, lost: multiset<Block>, b: Block, m: Mapping)
    requires Accounts(s, lost)
    ensures Tallied(PutSpec(s, xid).0, lost, b, m)
  {
    assert Tallied(s, lost, b, m);
    if xid <= s.maxXid && xid < DDP_MAX && s.ddp[xid].udl.Some? {
      hide PutSpec, BlockHolders, MapHolders;
      PutValue(s, lost, xid);
      HoldersAfterUpdate(s.ddp, xid, CLEARED, b, m);
    }
  }

  lemma PutAccounts(s: State, xid: nat, lost: multiset<Block>)
    requires Accounts(s, lost)
    ensures Accounts(PutSpec(s, xid).0, lost)
    ensures PutSpec(s, xid).0.maxXid == s.maxXid
    ensures forall i | 0 <= i < DDP_MAX && i != xid :: PutSpec(s, xid).0.ddp[i] == s.ddp[i]
    ensures xid < DDP_MAX ==> PutSpec(s, xid).0.ddp[xid].udl.None?
  {
    hide Unmap, FreeBlock, BlockHolders, MapHolders;
    if xid <= s.maxXid && xid < DDP_MAX && s.ddp[xid].udl.Some? {
      hide PutSpec, Tallied;
      var s' := PutSpec(s, xid).0;
      PutValue(s, lost, xid);
      forall b: Block, m: Mapping ensures Tallied(s', lost, b, m) {
        PutTallied(s, xid, lost, b, m);
      }
    }
  }

  lemma FrameTallied(s: State, xid: nat, stat: FcStat, rss: int, lost: multiset<Block>, b: Block, m: Mapping)
    requires Accounts(s, lost) && xid < DDP_MAX && s.ddp[xid].udl.Some?
    ensures Tallied(FrameSpec(s, xid, 0, stat, rss).0, lost, b, m)
  {
    hide BlockHolders, MapHolders;
    assert Tallied(s, lost, b, m);
    HeldIsOutstanding(s, lost, xid);
    var d := s.ddp[xid];
    HoldersAfterUpdate(s.ddp, xid, d.(len := rss), b, m);
    HoldersAfterUpdate(s.ddp, xid, d.(len := rss, err := 0, sgl := None, sgc := 0), b, m);
  }

  lemma FrameAccounts(s: State, xid: nat, ddpErr: nat, stat: FcStat, rss: int, lost: multiset<Block>)
    requires Accounts(s, lost)
    ensures Accounts(FrameSpec(s, xid, ddpErr, stat, rss).0, lost)
  {
    hide Tallied, BlockHolders, MapHolders;
    if xid < DDP_MAX && s.ddp[xid].udl.Some? && ddpErr == 0 {
      HeldIsOutstanding(s, lost, xid);
      forall b: Block, m: Mapping ensures Tallied(FrameSpec(s, xid, ddpErr, stat, rss).0, lost, b, m) {
        FrameTallied(s, xid, stat, rss, lost, b, m);
      }
    }
  }

  lemma {:induction false} PutBelowAccounts(s: State, n: nat, lost: multiset<Block>)
    requires Accounts(s, lost) && n <= DDP_MAX
    ensures Accounts(PutBelow(s, n), lost)
    ensures PutBelow(s, n).maxXid == s.maxXid
    ensures forall i | 0 <= i < n :: PutBelow(s, n).ddp[i].udl.None?
  {
    hide Tallied, Coherent, PutSpec;
    if n > 0 {
      PutBelowAccounts(s, n - 1, lost);
      PutAccounts(PutBelow(s, n - 1), n - 1, lost);
    }
  }

  /** Every operation keeps the accounts, up to the block a setup call forgets. */
  lemma StepAccounts(s: State, e: Event, lost: multiset<Block>)
    requires Accounts(s, lost)
    ensures Accounts(Step(s, e), lost + Lost(s, e))
  {
    hide Tallied, SetupSpec, PutSpec, FrameSpec, PutBelow;
    assert lost + multiset{} == lost;
    match e
    case Setup(xid, req) => SetupAccounts(s, xid, req, lost);
    case Frame(xid, ddpErr, stat, rss) => FrameAccounts(s, xid, ddpErr, stat, rss, lost);
    case Put(xid) => PutAccounts(s, xid, lost);
    case FreeAll => PutBelowAccounts(s, |s.ddp|, lost);
  }

  // ----- whole runs

  lemma {:induction false} RunAccounts(s: State, events: seq<Event>, lost: multiset<Block>)
    requires Accounts(s, lost)
    ensures Accounts(Run(s, events), lost + LostIn(s, events))
    decreases |events|
  {
    if events == [] {
      assert lost + multiset{} == lost;
    } else {
      StepAccounts(s, events[0], lost);
      RunAccounts(Step(s, events[0]), events[1..], lost + Lost(s, events[0]));
      assert lost + Lost(s, events[0]) + LostIn(Step(s, events[0]), events[1..]) == lost + LostIn(s, events);
    }
  }

  lemma {:induction false} NothingHeld(ddp: seq<Ddp>, b: Block, m: Mapping)
    requires forall i | 0 <= i < |ddp| :: ddp[i] == CLEARED
    ensures BlockHolders(ddp, b) == 0 && MapHolders(ddp, m) == 0
  {
    NoHolder(ddp, b, m);
  }

  lemma InitialAccounts(maxXid: nat)
    ensures Accounts(Initial(maxXid), multiset{})
  {
    var s := Initial(maxXid);
    forall b: Block, m: Mapping ensures Tallied(s, multiset{}, b, m) {
      NothingHeld(s.ddp, b, m);
    }
  }

  /** Main theorem of the ledger: after every run, each mapping and each block outstanding is
      accounted for by a context, except the blocks forgotten by setup calls on an id that was
      not put; no release was ever a fault. */
  lemma LedgerOfEveryRun(maxXid: nat, events: seq<Event>)
    ensures Accounts(Run(Initial(maxXid), events), LostIn(Initial(maxXid), events))
  {
    InitialAccounts(maxXid);
    RunAccounts(Initial(maxXid), events, multiset{});
    assert multiset{} + LostIn(Initial(maxXid), events) == LostIn(Initial(maxXid), events);
  }

  // ----- losses, read off the calls

  /** The setup call asks for a list on a permitted id of a device that is up. */
  predicate Asks(maxXid: nat, e: Event, x: nat) {
    e.Setup? && e.xid == x && x <= maxXid && x < DDP_MAX && e.req.sgl.Some? && e.req.sgc > 0 && !e.req.down
  }

  /** Nothing but a list still in use can make it fail. */
  predicate Opens(maxXid: nat, e: Event, x: nat) {
    && Asks(maxXid, e, x)
    && e.req.cpuPool.Some? && e.req.mapped != [] && e.req.block.Some? && Accepts(e.req.mapped)
  }

  /** An FCP_RSP frame without error. */
  predicate Answers(e: Event, x: nat) {
    e.Frame? && e.xid == x && e.ddpErr == 0 && e.stat == StatFcpRsp
  }

  predicate Ends(e: Event, x: nat) {
    (e.Put? && e.xid == x) || e.FreeAll?
  }

  /** Exchange x is opened by call a, answered by frame b and set up again by call c, and neither put
      nor freed between. */
  predicate ReusedAt(maxXid: nat, events: seq<Event>, x: nat, a: nat, b: nat, c: nat) {
    && a < b < c < |events|
    && Opens(maxXid, events[a], x) && Answers(events[b], x) && Asks(maxXid, events[c], x)
    && forall k | a < k < c :: !Ends(events[k], x)
  }

  ghost predicate Reused(maxXid: nat, events: seq<Event>) {
    exists x: nat, a: nat, b: nat, c: nat :: ReusedAt(maxXid, events, x, a, b, c)
  }

  /** Opened and not ended since. */
  ghost predicate OpenedAt(maxXid: nat, events: seq<Event>, x: nat, a: nat) {
    a < |events| && Opens(maxXid, events[a], x) && forall k | a < k < |events| :: !Ends(events[k], x)
  }

  ghost predicate Opened(maxXid: nat, events: seq<Event>, x: nat) {
    exists a: nat :: OpenedAt(maxXid, events, x, a)
  }

  ghost predicate AnsweredAt(maxXid: nat, events: seq<Event>, x: nat, a: nat, b: nat) {
    a < b < |events| && OpenedAt(maxXid, events, x, a) && Answers(events[b], x)
  }

  ghost predicate Answered(maxXid: nat, events: seq<Event>, x: nat) {
    exists a: nat, b: nat :: AnsweredAt(maxXid, events, x, a, b)
  }

  lemma OpenedNext(maxXid: nat, es: seq<Event>, e: Event, x: nat)
    ensures Opened(maxXid, es + [e], x) <==> Opens(maxXid, e, x) || (Opened(maxXid, es, x) && !Ends(e, x))
  {
    hide Opens, Ends;
    var all := es + [e];
    if Opens(maxXid, e, x) {
      assert OpenedAt(maxXid, all, x, |es|);
    } else if Opened(maxXid, all, x) {
      var a: nat :| OpenedAt(maxXid, all, x, a);
      assert all[|es|] == e && OpenedAt(maxXid, es, x, a) by {
        assert forall k | 0 <= k < |es| :: all[k] == es[k];
      }
    }
    if Opened(maxXid, es, x) && !Ends(e, x) {
      var a: nat :| OpenedAt(maxXid, es, x, a);
      assert OpenedAt(maxXid, all, x, a);
    }
  }

  lemma AnsweredNext(maxXid: nat, es: seq<Event>, e: Event, x: nat)
    ensures Answered(maxXid, es + [e], x)
       <==> !Ends(e, x) && (Answered(maxXid, es, x) || (Opened(maxXid, es, x) && Answers(e, x)))
  {
    hide Opens, Ends, Answers;
    var all := es + [e];
    assert all[|es|] == e && forall k | 0 <= k < |es| :: all[k] == es[k];
    if Answered(maxXid, all, x) {
      var a: nat, b: nat :| AnsweredAt(maxXid, all, x, a, b);
      assert OpenedAt(maxXid, es, x, a);
      assert b < |es| ==> AnsweredAt(maxXid, es, x, a, b);
    }
    if !Ends(e, x) && Opened(maxXid, es, x) && Answers(e, x) {
      var a: nat :| OpenedAt(maxXid, es, x, a);
      assert AnsweredAt(maxXid, all, x, a, |es|);
    }
    if !Ends(e, x) && Answered(maxXid, es, x) {
      var a: nat, b: nat :| AnsweredAt(maxXid, es, x, a, b);
      assert AnsweredAt(maxXid, all, x, a, b);
    }
  }

  lemma ReusedNext(maxXid: nat, es: seq<Event>, e: Event)
    ensures Reused(maxXid, es + [e])
       <==> Reused(maxXid, es) || exists x: nat :: Asks(maxXid, e, x) && Answered(maxXid, es, x)
  {
    hide Opens, Ends, Answers, Asks;
    var all := es + [e];
    assert all[|es|] == e && forall k | 0 <= k < |es| :: all[k] == es[k];
    if Reused(maxXid, all) {
      var x: nat, a: nat, b: nat, c: nat :| ReusedAt(maxXid, all, x, a, b, c);
      if c < |es| {
        assert ReusedAt(maxXid, es, x, a, b, c);
      } else {
        assert AnsweredAt(maxXid, es, x, a, b);
        assert Asks(maxXid, e, x) && Answered(maxXid, es, x);
      }
    }
    if Reused(maxXid, es) {
      var x: nat, a: nat, b: nat, c: nat :| ReusedAt(maxXid, es, x, a, b, c);
      assert ReusedAt(maxXid, all, x, a, b, c);
    }
    if x: nat :| Asks(maxXid, e, x) && Answered(maxXid, es, x) {
      var a: nat, b: nat :| AnsweredAt(maxXid, es, x, a, b);
      assert ReusedAt(maxXid, all, x, a, b, |es|);
    }
  }

  lemma {:induction false} RunNext(s: State, es: seq<Event>, e: Event)
    ensures Run(s, es + [e]) == Step(Run(s, es), e)
    ensures LostIn(s, es + [e]) == LostIn(s, es) + Lost(Run(s, es), e)
    decreases |es|
  {
    hide Step, Lost;
    if es == [] {
      assert ([] + [e])[1..] == [];
      assert [] + [e] == [e];
      assert LostIn(s, [e]) == Lost(s, e) + LostIn(Step(s, e), []);
    } else {
      assert (es + [e])[0] == es[0] && (es + [e])[1..] == es[1..] + [e];
      RunNext(Step(s, es[0]), es[1..], e);
    }
  }

  /** The calls made so far tell what a context holds. */
  ghost predicate Told(maxXid: nat, es: seq<Event>, s: State, x: nat)
    requires |s.ddp| == DDP_MAX
  {
    x < DDP_MAX ==>
      && (Opened(maxXid, es, x) <==> s.ddp[x].udl.Some?)
      && (Answered(maxXid, es, x) <==> s.ddp[x].udl.Some? && s.ddp[x].sgl.None?)
  }

  /** What one step does to the context of exchange x, if it forgets no block. */
  lemma StepAt(s: State, e: Event, lost: multiset<Block>, x: nat)
    requires Accounts(s, lost) && s.poolsAllocated && x < DDP_MAX && Lost(s, e) == multiset{}
    ensures |Step(s, e).ddp| == DDP_MAX && Step(s, e).poolsAllocated && Step(s, e).maxXid == s.maxXid
    ensures var d, d' := s.ddp[x], Step(s, e).ddp[x];
      && (d'.udl.Some? <==> Opens(s.maxXid, e, x) || (d.udl.Some? && !Ends(e, x)))
      && (d'.udl.Some? && d'.sgl.None? <==> d.udl.Some? && !Ends(e, x) && (d.sgl.None? || Answers(e, x)))
  {
    match e
    case Setup(y, req) => SetupAt(s, y, req, lost, x);
    case Frame(y, ddpErr, stat, rss) => FrameAt(s, y, ddpErr, stat, rss, lost, x);
    case Put(y) => PutAt(s, y, lost, x);
    case FreeAll =>
      hide PutBelow;
      PutBelowAccounts(s, |s.ddp|, lost);
      PutBelowPools(s, |s.ddp|);
  }

  lemma NothingToLose(d: Ddp)
    ensures HeldBlock(d) == multiset{} <==> d.udl.None? || d.pool.None?
  {
    if d.udl.Some? && d.pool.Some? {
      assert (d.pool.value, d.udl.value) in HeldBlock(d);
    }
  }

  lemma SetupAt(s: State, y: nat, req: Request, lost: multiset<Block>, x: nat)
    requires Accounts(s, lost) && s.poolsAllocated && x < DDP_MAX && Lost(s, Setup(y, req)) == multiset{}
    ensures var s' := SetupSpec(s, y, req).0;
      var d, d' := s.ddp[x], s'.ddp[x];
      && |s'.ddp| == DDP_MAX && s'.poolsAllocated && s'.maxXid == s.maxXid
      && (d'.udl.Some? <==> Opens(s.maxXid, Setup(y, req), x) || d.udl.Some?)
      && (d'.udl.Some? && d'.sgl.None? <==> d.udl.Some? && d.sgl.None?)
  {
    hide Tallied, Accepts;
    if Reaches(s, y, req) {
      assert Coherent(s.ddp[y]);
      NothingToLose(s.ddp[y]);
    } else if x == y {
      assert Coherent(s.ddp[x]);
    }
  }

  lemma FrameAt(s: State, y: nat, ddpErr: nat, stat: FcStat, rss: int, lost: multiset<Block>, x: nat)
    requires Accounts(s, lost) && s.poolsAllocated && x < DDP_MAX
    ensures var s' := FrameSpec(s, y, ddpErr, stat, rss).0;
      var d, d' := s.ddp[x], s'.ddp[x];
      && |s'.ddp| == DDP_MAX && s'.poolsAllocated && s'.maxXid == s.maxXid
      && (d'.udl.Some? <==> d.udl.Some?)
      && (d'.udl.Some? && d'.sgl.None?
          <==> d.udl.Some? && (d.sgl.None? || Answers(Frame(y, ddpErr, stat, rss), x)))
  {
    hide Tallied;
  }

  lemma PutAt(s: State, y: nat, lost: multiset<Block>, x: nat)
    requires Accounts(s, lost) && s.poolsAllocated && x < DDP_MAX
    ensures var s' := PutSpec(s, y).0;
      var d, d' := s.ddp[x], s'.ddp[x];
      && |s'.ddp| == DDP_MAX && s'.poolsAllocated && s'.maxXid == s.maxXid
      && d' == (if x == y && d.udl.Some? then CLEARED else d)
  {
    hide Tallied;
    assert x > s.maxXid ==> s.ddp[x].udl.None?;
  }

  lemma {:induction false} PutBelowPools(s: State, n: nat)
    ensures PutBelow(s, n).poolsAllocated == s.poolsAllocated
  {
    hide PutSpec;
    if n > 0 {
      PutBelowPools(s, n - 1);
      PutKeepsPools(PutBelow(s, n - 1), n - 1);
    }
  }

  lemma PutKeepsPools(s: State, xid: nat)
    ensures PutSpec(s, xid).0.poolsAllocated == s.poolsAllocated
  {}

  /** As long as nothing was lost, the calls tell the contexts; and nothing was lost exactly if no
      exchange was reused. */
  lemma {:induction false} CallsTell(maxXid: nat, es: seq<Event>)
    ensures LostIn(Initial(maxXid), es) == multiset{} <==> !Reused(maxXid, es)
    ensures LostIn(Initial(maxXid), es) == multiset{} ==>
      var s := Run(Initial(maxXid), es);
      && |s.ddp| == DDP_MAX && s.poolsAllocated && s.maxXid == maxXid && forall x: nat :: Told(maxXid, es, s, x)
    decreases |es|
  {
    hide Run, LostIn, Step, Lost, Accounts, Opened, Answered, Reused, Asks, Opens, Ends, Answers;
    if es == [] {
      NothingTold(maxXid);
    } else {
      var front, e := es[..|es| - 1], es[|es| - 1];
      assert es == front + [e];
      CallsTell(maxXid, front);
      RunNext(Initial(maxXid), front, e);
      ReusedNext(maxXid, front, e);
      LedgerOfEveryRun(maxXid, front);
      var s, lost := Run(Initial(maxXid), front), LostIn(Initial(maxXid), front);
      NoneOfBoth(lost, Lost(s, e));
      if lost == multiset{} {
        LossAt(maxXid, front, s, lost, e);
        if Lost(s, e) == multiset{} {
          StepAt(s, e, lost, 0);
          forall x: nat ensures Told(maxXid, es, Step(s, e), x) {
            assert Told(maxXid, front, s, x);
            OpenedNext(maxXid, front, e, x);
            AnsweredNext(maxXid, front, e, x);
            if x < DDP_MAX {
              StepAt(s, e, lost, x);
            }
          }
        }
      }
    }
  }

  lemma NoneOfBoth(a: multiset<Block>, b: multiset<Block>)
    ensures a + b == multiset{} <==> a == multiset{} && b == multiset{}
  {
    if a + b == multiset{} {
      forall x: Block ensures a[x] == 0 && b[x] == 0 {
        assert (a + b)[x] == 0;
      }
    }
  }

  lemma NothingTold(maxXid: nat)
    ensures LostIn(Initial(maxXid), []) == multiset{} && !Reused(maxXid, []) && Run(Initial(maxXid), []) == Initial(maxXid)
    ensures forall x: nat :: Told(maxXid, [], Initial(maxXid), x)
  {}

  /** A step forgets a block exactly if it asks for an exchange that was answered. */
  lemma LossAt(maxXid: nat, es: seq<Event>, s: State, lost: multiset<Block>, e: Event)
    requires Accounts(s, lost) && s.maxXid == maxXid && forall x: nat :: Told(maxXid, es, s, x)
    ensures Lost(s, e) != multiset{} <==> exists x: nat :: Asks(maxXid, e, x) && Answered(maxXid, es, x)
  {
    hide Answered, Opened, Tallied;
    if e.Setup? && e.xid < DDP_MAX {
      var x := e.xid;
      assert Told(maxXid, es, s, x) && Coherent(s.ddp[x]);
      if Asks(maxXid, e, x) && Answered(maxXid, es, x) {
        assert (s.ddp[x].pool.value, s.ddp[x].udl.value) in Lost(s, e);
      }
    }
  }

  /** A block is lost exactly if some exchange is set up again after it was opened and answered,
      without a put or free-all between. */
  lemma LossExactlyOnReuse(maxXid: nat, events: seq<Event>)
    ensures LostIn(Initial(maxXid), events) == multiset{} <==> !Reused(maxXid, events)
  {
    hide Reused, LostIn;
    CallsTell(maxXid, events);
  }

  // ----- lengths and answers, read off the calls

  /** A frame without error that carries a length. */
  predicate Carries(e: Event, x: nat) {
    e.Frame? && e.xid == x && e.ddpErr == 0 && (e.stat == StatDdp || e.stat == StatFcpRsp || e.stat == StatNoDdp)
  }

  /** Call k is the last frame that carried a length for exchange x since x was opened. */
  ghost predicate LengthAt(maxXid: nat, events: seq<Event>, x: nat, k: nat) {
    && k < |events| && Carries(events[k], x) && Opened(maxXid, events[..k], x)
    && forall j | k < j < |events| :: !Ends(events[j], x) && !Carries(events[j], x)
  }

  /** The length the calls tell: that of the last such frame, or nothing. */
  ghost predicate IsLength(maxXid: nat, events: seq<Event>, x: nat, len: int) {
    && (forall k: nat | LengthAt(maxXid, events, x, k) :: len == events[k].rss)
    && ((forall k: nat :: !LengthAt(maxXid, events, x, k)) ==> len == 0)
  }

  lemma LengthNext(maxXid: nat, es: seq<Event>, e: Event, x: nat, k: nat)
    ensures LengthAt(maxXid, es + [e], x, k) <==>
      (k == |es| && Carries(e, x) && Opened(maxXid, es, x)) || (LengthAt(maxXid, es, x, k) && !Ends(e, x) && !Carries(e, x))
  {
    hide Opened, Carries, Ends;
    var all := es + [e];
    assert all[|es|] == e && forall j | 0 <= j < |es| :: all[j] == es[j];
    if k <= |es| {
      assert all[..k] == es[..k];
      assert es[..|es|] == es;
    }
  }

  /** What one step does to the length kept for exchange x, if it forgets no block. */
  lemma LengthStep(s: State, e: Event, lost: multiset<Block>, x: nat)
    requires Accounts(s, lost) && s.poolsAllocated && x < DDP_MAX && Lost(s, e) == multiset{}
    requires s.ddp[x].udl.None? ==> s.ddp[x].len == 0
    ensures |Step(s, e).ddp| == DDP_MAX
    ensures Step(s, e).ddp[x].udl.None? ==> Step(s, e).ddp[x].len == 0
    ensures Step(s, e).ddp[x].len
         == if Ends(e, x) then 0
            else if Carries(e, x) && s.ddp[x].udl.Some? then e.rss
            else s.ddp[x].len
  {
    match e
    case Setup(y, req) => SetupLength(s, y, req, lost, x);
    case Frame(y, ddpErr, stat, rss) => FrameLength(s, y, ddpErr, stat, rss, lost, x);
    case Put(y) => PutAt(s, y, lost, x);
    case FreeAll =>
      hide PutBelow;
      PutBelowAccounts(s, |s.ddp|, lost);
      PutBelowLength(s, |s.ddp|, lost, x);
  }

  lemma SetupLength(s: State, y: nat, req: Request, lost: multiset<Block>, x: nat)
    requires Accounts(s, lost) && s.poolsAllocated && x < DDP_MAX && Lost(s, Setup(y, req)) == multiset{}
    requires s.ddp[x].udl.None? ==> s.ddp[x].len == 0
    ensures var s' := SetupSpec(s, y, req).0;
      |s'.ddp| == DDP_MAX && s'.ddp[x].len == s.ddp[x].len && (s'.ddp[x].udl.None? ==> s'.ddp[x].len == 0)
  {
    hide Tallied, Accepts;
    if Reaches(s, y, req) {
      assert Coherent(s.ddp[y]);
      NothingToLose(s.ddp[y]);
    }
  }

  lemma FrameLength(s: State, y: nat, ddpErr: nat, stat: FcStat, rss: int, lost: multiset<Block>, x: nat)
    requires Accounts(s, lost) && x < DDP_MAX && (s.ddp[x].udl.None? ==> s.ddp[x].len == 0)
    ensures var s' := FrameSpec(s, y, ddpErr, stat, rss).0;
      && |s'.ddp| == DDP_MAX
      && (s'.ddp[x].udl.None? ==> s'.ddp[x].len == 0)
      && s'.ddp[x].len
         == (if Carries(Frame(y, ddpErr, stat, rss), x) && s.ddp[x].udl.Some? then rss else s.ddp[x].len)
  {
    hide Tallied;
  }

  lemma {:induction false} PutBelowLength(s: State, n: nat, lost: multiset<Block>, x: nat)
    requires Accounts(s, lost) && n <= DDP_MAX && x < n && (s.ddp[x].udl.None? ==> s.ddp[x].len == 0)
    ensures |PutBelow(s, n).ddp| == DDP_MAX && PutBelow(s, n).ddp[x].len == 0
    decreases n
  {
    hide Tallied, PutSpec, Accounts;
    PutBelowAccounts(s, n - 1, lost);
    AccountsShape(PutBelow(s, n - 1), lost);
    PutLength(PutBelow(s, n - 1), n - 1, lost, x);
    if x < n - 1 {
      PutBelowLength(s, n - 1, lost, x);
    } else {
      PutBelowOthers(s, n - 1, lost, x);
    }
  }

  lemma AccountsShape(s: State, lost: multiset<Block>)
    requires Accounts(s, lost)
    ensures Shape(s)
  {}

  lemma PutLength(s: State, y: nat, lost: multiset<Block>, x: nat)
    requires Accounts(s, lost) && x < DDP_MAX
    ensures |PutSpec(s, y).0.ddp| == DDP_MAX
    ensures x != y ==> PutSpec(s, y).0.ddp[x] == s.ddp[x]
    ensures x == y && (s.ddp[x].udl.None? ==> s.ddp[x].len == 0) ==> PutSpec(s, y).0.ddp[x].len == 0
  {
    hide Tallied;
  }

  lemma {:induction false} PutBelowOthers(s: State, n: nat, lost: multiset<Block>, x: nat)
    requires Accounts(s, lost) && n <= x < DDP_MAX
    ensures |PutBelow(s, n).ddp| == DDP_MAX && PutBelow(s, n).ddp[x] == s.ddp[x]
    decreases n
  {
    hide Tallied, PutSpec, Accounts;
    AccountsShape(s, lost);
    if n > 0 {
      PutBelowAccounts(s, n - 1, lost);
      PutLength(PutBelow(s, n - 1), n - 1, lost, x);
      PutBelowOthers(s, n - 1, lost, x);
    }
  }

  /** The context keeps the length the calls tell. */
  lemma {:induction false} LengthsTell(maxXid: nat, es: seq<Event>, x: nat)
    requires !Reused(maxXid, es) && x < DDP_MAX
    ensures var s := Run(Initial(maxXid), es);
      |s.ddp| == DDP_MAX && IsLength(maxXid, es, x, s.ddp[x].len) && (s.ddp[x].udl.None? ==> s.ddp[x].len == 0)
    decreases |es|
  {
    hide Run, LostIn, Step, Lost, Accounts, Opened, Answered, Reused, Asks, Opens, Ends, Answers, Carries, LengthAt;
    if es == [] {
      NothingTold(maxXid);
      NoLengthYet(maxXid, x);
    } else {
      var front, e := es[..|es| - 1], es[|es| - 1];
      assert es == front + [e];
      ReusedNext(maxXid, front, e);
      LengthsTell(maxXid, front, x);
      CallsTell(maxXid, front);
      CallsTell(maxXid, es);
      RunNext(Initial(maxXid), front, e);
      LedgerOfEveryRun(maxXid, front);
      var s, lost := Run(Initial(maxXid), front), LostIn(Initial(maxXid), front);
      NoneOfBoth(lost, Lost(s, e));
      LengthStep(s, e, lost, x);
      assert Told(maxXid, front, s, x);
      LengthGrows(maxXid, front, e, x, s.ddp[x].len, Step(s, e).ddp[x].len);
    }
  }

  lemma NoLengthYet(maxXid: nat, x: nat)
    requires x < DDP_MAX
    ensures IsLength(maxXid, [], x, 0) && Initial(maxXid).ddp[x] == CLEARED
  {}

  lemma LengthGrows(maxXid: nat, es: seq<Event>, e: Event, x: nat, len: int, len': int)
    requires IsLength(maxXid, es, x, len)
    requires len' == if Ends(e, x) then 0 else if Carries(e, x) && Opened(maxXid, es, x) then e.rss else len
    requires !Opened(maxXid, es, x) ==> len == 0
    ensures IsLength(maxXid, es + [e], x, len')
  {
    hide Opened, LengthAt;
    var all := es + [e];
    forall k: nat
      ensures LengthAt(maxXid, all, x, k) <==>
        (k == |es| && Carries(e, x) && Opened(maxXid, es, x)) || (LengthAt(maxXid, es, x, k) && !Ends(e, x) && !Carries(e, x))
      ensures LengthAt(maxXid, es, x, k) ==> k < |es| && Opened(maxXid, es, x) && all[k] == es[k]
    {
      LengthNext(maxXid, es, e, x, k);
      if LengthAt(maxXid, es, x, k) {
        LengthIsOpen(maxXid, es, x, k);
      }
    }
    assert all[|es|] == e;
  }

  /** An exchange with a length is open. */
  lemma LengthIsOpen(maxXid: nat, es: seq<Event>, x: nat, k: nat)
    requires LengthAt(maxXid, es, x, k)
    ensures k < |es| && Opened(maxXid, es, x)
  {
    var a: nat :| OpenedAt(maxXid, es[..k], x, a);
    assert OpenedAt(maxXid, es, x, a) by {
      assert forall j | 0 <= j < k :: es[..k][j] == es[j];
    }
  }

  /** In a run that reused no exchange: setup succeeds exactly if the request can open the exchange and
      its list is not in use; put returns the length the calls tell; and the answer to a frame depends
      on the frame and on whether the exchange is open. */
  lemma CallsAnswer(maxXid: nat, es: seq<Event>)
    requires !Reused(maxXid, es)
    ensures forall x: nat, req: Request ::
      SetupSpec(Run(Initial(maxXid), es), x, req).1
      <==> Opens(maxXid, Setup(x, req), x) && (Opened(maxXid, es, x) ==> Answered(maxXid, es, x))
    ensures forall x: nat :: IsLength(maxXid, es, x, PutSpec(Run(Initial(maxXid), es), x).1)
    ensures forall x: nat :: Forces(Run(Initial(maxXid), es), x) <==> Opened(maxXid, es, x) && !Answered(maxXid, es, x)
    ensures forall x: nat, ddpErr: nat, stat: FcStat, rss: int ::
      FrameSpec(Run(Initial(maxXid), es), x, ddpErr, stat, rss).1
      == FrameAnswer(Opened(maxXid, es, x), ddpErr, stat, rss)
  {
    hide Run, Reused;
    var s := Run(Initial(maxXid), es);
    CallsTell(maxXid, es);
    LedgerOfEveryRun(maxXid, es);
    assert forall x | 0 <= x < DDP_MAX :: Coherent(s.ddp[x]);
    forall x: nat, req: Request
      ensures SetupSpec(s, x, req).1
        <==> Opens(maxXid, Setup(x, req), x) && (Opened(maxXid, es, x) ==> Answered(maxXid, es, x))
    {
      SetupAnswers(maxXid, es, s, x, req);
    }
    forall x: nat
      ensures IsLength(maxXid, es, x, PutSpec(s, x).1)
      ensures Forces(s, x) <==> Opened(maxXid, es, x) && !Answered(maxXid, es, x)
    {
      PutAnswers(maxXid, es, x);
      if x >= DDP_MAX || x > maxXid {
        NeverOpened(maxXid, es, x);
      } else {
        assert Told(maxXid, es, s, x) && Coherent(s.ddp[x]);
      }
    }
    forall x: nat, ddpErr: nat, stat: FcStat, rss: int
      ensures FrameSpec(s, x, ddpErr, stat, rss).1 == FrameAnswer(Opened(maxXid, es, x), ddpErr, stat, rss)
    {
      FrameAnswers(maxXid, es, s, x, ddpErr, stat, rss);
    }
  }

  /** What the receive path answers: 0 keeps a placed frame from the upper layer, a length goes up with
      it, and -22 says there is nothing to tell. */
  function FrameAnswer(open: bool, ddpErr: nat, stat: FcStat, rss: int): int {
    if open && ddpErr == 0 && stat == StatDdp then 0
    else if open && ddpErr == 0 && (stat == StatFcpRsp || stat == StatNoDdp) && rss != 0 then rss
    else -22
  }

  lemma SetupAnswers(maxXid: nat, es: seq<Event>, s: State, x: nat, req: Request)
    requires |s.ddp| == DDP_MAX && s.poolsAllocated && s.maxXid == maxXid && Told(maxXid, es, s, x)
    requires x < DDP_MAX ==> (s.ddp[x].sgl.Some? ==> s.ddp[x].udl.Some?)
    ensures SetupSpec(s, x, req).1
      <==> Opens(maxXid, Setup(x, req), x) && (Opened(maxXid, es, x) ==> Answered(maxXid, es, x))
  {
    hide Opened, Answered, Accepts;
  }

  lemma FrameAnswers(maxXid: nat, es: seq<Event>, s: State, x: nat, ddpErr: nat, stat: FcStat, rss: int)
    requires |s.ddp| == DDP_MAX && Told(maxXid, es, s, x)
    ensures FrameSpec(s, x, ddpErr, stat, rss).1 == FrameAnswer(Opened(maxXid, es, x), ddpErr, stat, rss)
  {
    hide Answered, Opened;
    if x >= DDP_MAX {
      NeverOpened(maxXid, es, x);
    }
  }

  lemma NeverOpened(maxXid: nat, es: seq<Event>, x: nat)
    requires x >= DDP_MAX || x > maxXid
    ensures !Opened(maxXid, es, x) && forall k: nat :: !LengthAt(maxXid, es, x, k)
  {}

  lemma PutAnswers(maxXid: nat, es: seq<Event>, x: nat)
    requires !Reused(maxXid, es)
    ensures IsLength(maxXid, es, x, PutSpec(Run(Initial(maxXid), es), x).1)
  {
    hide Run, Reused, LengthAt, Opened;
    CallsTell(maxXid, es);
    if x >= DDP_MAX || x > maxXid {
      NeverOpened(maxXid, es, x);
    } else {
      LengthsTell(maxXid, es, x);
    }
  }

  /** The allocator never hands out a block that is still outstanding. */
  predicate Fresh(s: State, e: Event) {
    e.Setup? && e.req.cpuPool.Some? && e.req.block.Some? ==>
      (e.req.cpuPool.value, e.req.block.value) !in s.blocks
  }

  predicate FreshRun(s: State, events: seq<Event>)
    decreases |events|
  {
    events == [] || (Fresh(s, events[0]) && FreshRun(Step(s, events[0]), events[1..]))
  }

  lemma {:induction false} PutBelowShrinks(s: State, n: nat, b: Block)
    ensures PutBelow(s, n).blocks[b] <= s.blocks[b]
  {
    if n > 0 {
      PutBelowShrinks(s, n - 1, b);
      PutShrinks(PutBelow(s, n - 1), n - 1, b);
    }
  }

  lemma PutShrinks(s: State, xid: nat, b: Block)
    ensures PutSpec(s, xid).0.blocks[b] <= s.blocks[b]
  {}

  lemma SetupUnique(s: State, xid: nat, req: Request, b: Block)
    requires Fresh(s, Setup(xid, req)) && s.blocks[b] <= 1
    ensures SetupSpec(s, xid, req).0.blocks[b] <= 1
  {}

  lemma StepUnique(s: State, e: Event, b: Block)
    requires Fresh(s, e) && s.blocks[b] <= 1
    ensures Step(s, e).blocks[b] <= 1
  {
    match e
    case Setup(xid, req) => SetupUnique(s, xid, req, b);
    case Frame(_, _, _, _) =>
    case Put(xid) => PutShrinks(s, xid, b);
    case FreeAll => PutBelowShrinks(s, |s.ddp|, b);
  }

  lemma {:induction false} RunUnique(s: State, events: seq<Event>, b: Block)
    requires FreshRun(s, events) && s.blocks[b] <= 1
    ensures Run(s, events).blocks[b] <= 1
    decreases |events|
  {
    if events != [] {
      StepUnique(s, events[0], b);
      RunUnique(Step(s, events[0]), events[1..], b);
    }
  }

  lemma {:induction false} TwoHolders(ddp: seq<Ddp>, i: nat, j: nat, b: Block)
    requires i < j < |ddp| && HoldsBlock(ddp[i], b) && HoldsBlock(ddp[j], b)
    ensures BlockHolders(ddp, b) >= 2
  {
    if i == 0 {
      NoHolder(ddp[1..], b, (0, 0));
      assert ddp[1..][j - 1] == ddp[j];
    } else {
      TwoHolders(ddp[1..], i - 1, j - 1, b);
    }
  }

  /** In a run that reuses no exchange before its put, over an allocator without duplicates, a context has a block
      iff exactly one copy of it is outstanding, no two contexts share one, and each list is mapped as
      often as contexts hold it. */
  lemma OneBlockPerContext(maxXid: nat, events: seq<Event>, xid: nat)
    requires !Reused(maxXid, events) && FreshRun(Initial(maxXid), events) && xid < DDP_MAX
    ensures var s := Run(Initial(maxXid), events);
      && |s.ddp| == DDP_MAX
      && s.faults == 0
      && Accounts(s, multiset{})
      && (s.ddp[xid].udl.Some? ==>
            && s.ddp[xid].pool.Some?
            && s.blocks[(s.ddp[xid].pool.value, s.ddp[xid].udl.value)] == 1
            && forall j | 0 <= j < DDP_MAX && j != xid ::
                 !HoldsBlock(s.ddp[j], (s.ddp[xid].pool.value, s.ddp[xid].udl.value)))
      && (forall b: Block | b in s.blocks :: exists i :: 0 <= i < DDP_MAX && HoldsBlock(s.ddp[i], b))
      && (forall m: Mapping | m in s.maps :: exists i :: 0 <= i < DDP_MAX && HoldsMap(s.ddp[i], m))
  {
    var s0 := Initial(maxXid);
    var s := Run(s0, events);
    LedgerOfEveryRun(maxXid, events);
    InitialAccounts(maxXid);
    LossExactlyOnReuse(maxXid, events);
    forall b: Block | b in s.blocks ensures exists i :: 0 <= i < DDP_MAX && HoldsBlock(s.ddp[i], b) {
      assert Tallied(s, multiset{}, b, (0, 0));
      NoHolder(s.ddp, b, (0, 0));
    }
    forall m: Mapping | m in s.maps ensures exists i :: 0 <= i < DDP_MAX && HoldsMap(s.ddp[i], m) {
      assert Tallied(s, multiset{}, (0, 0), m);
      NoHolder(s.ddp, (0, 0), m);
    }
    if s.ddp[xid].udl.Some? {
      HeldIsOutstanding(s, multiset{}, xid);
      var b := (s.ddp[xid].pool.value, s.ddp[xid].udl.value);
      RunUnique(s0, events, b);
      assert Tallied(s, multiset{}, b, (0, 0));
      forall j | 0 <= j < DDP_MAX && j != xid ensures !HoldsBlock(s.ddp[j], b) {
        if HoldsBlock(s.ddp[j], b) {
          TwoHolders(s.ddp, if j < xid then j else xid, if j < xid then xid else j, b);
        }
      }
    }
  }

  lemma DrainedLedger(s: State, lost: multiset<Block>)
    requires Accounts(s, lost)
    requires forall i | 0 <= i < |s.ddp| :: s.ddp[i].udl.None?
    ensures forall i | 0 <= i < |s.ddp| :: s.ddp[i].sgl.None?
    ensures s.maps == multiset{} && s.blocks == lost
  {
    forall i | 0 <= i < |s.ddp| ensures s.ddp[i].sgl.None? {
      assert Coherent(s.ddp[i]);
    }
    forall b: Block ensures s.blocks[b] == lost[b] {
      assert Tallied(s, lost, b, (0, 0));
      NoHolder(s.ddp, b, (0, 0));
    }
    forall m: Mapping ensures s.maps[m] == 0 {
      assert Tallied(s, lost, (0, 0), m);
      NoHolder(s.ddp, (0, 0), m);
    }
    assert s.blocks == lost;
  }

  /** The free-all loop leaves no mapping and no context in use; the blocks that remain are exactly
      those lost to reuse. */
  lemma FreeAllDrains(s: State, lost: multiset<Block>)
    requires Accounts(s, lost) && s.poolsAllocated
    ensures var s' := Step(s, FreeAll);
      && Accounts(s', lost)
      && (forall i | 0 <= i < DDP_MAX :: s'.ddp[i].udl.None? && s'.ddp[i].sgl.None?)
      && s'.maps == multiset{}
      && s'.blocks == lost
  {
    PutBelowAccounts(s, |s.ddp|, lost);
    DrainedLedger(PutBelow(s, |s.ddp|), lost);
  }

  /** A context in use whose list FCP_RSP already unmapped loses its block to the next setup. */
  lemma SetupLoses(s: State, lost: multiset<Block>, xid: nat, again: Request)
    requires Accounts(s, lost) && Reaches(s, xid, again) && s.ddp[xid].udl.Some? && s.poolsAllocated
    ensures s.ddp[xid].pool.Some?
    ensures (s.ddp[xid].pool.value, s.ddp[xid].udl.value) in Step(Step(s, Setup(xid, again)), FreeAll).blocks
  {
    StepAccounts(s, Setup(xid, again), lost);
    FreeAllDrains(Step(s, Setup(xid, again)), lost + Lost(s, Setup(xid, again)));
  }

  /** Set up, FCP_RSP, set up again: the first block is outstanding even after free-all. */
  lemma ReuseLosesABlock(first: Request, again: Request)
    requires first.sgl.Some? && first.sgc > 0 && !first.down && first.cpuPool.Some? && first.block.Some?
    requires first.mapped != [] && Accepts(first.mapped)
    requires again.sgl.Some? && again.sgc > 0 && !again.down
    ensures var events := [Setup(0, first), Frame(0, 0, StatFcpRsp, 0), Setup(0, again), FreeAll];
      (first.cpuPool.value, first.block.value) in Run(Initial(DDP_MAX - 1), events).blocks
  {
    hide Run, Step, Accounts, Lost, Accepts, Initial;
    var s0 := Initial(DDP_MAX - 1);
    var rsp := Frame(0, 0, StatFcpRsp, 0);
    var s1 := Step(s0, Setup(0, first));
    var s2 := Step(s1, rsp);
    InitialAccounts(DDP_MAX - 1);
    StepAccounts(s0, Setup(0, first), multiset{});
    var lost := multiset{} + Lost(s0, Setup(0, first));
    StepAccounts(s1, rsp, lost);
    FirstSetup(first);
    AfterResponse(s1);
    SetupLoses(s2, lost + Lost(s1, rsp), 0, again);
    RunFour(s0, Setup(0, first), rsp, Setup(0, again), FreeAll);
  }

  lemma FirstSetup(first: Request)
    requires first.sgl.Some? && first.sgc > 0 && !first.down && first.cpuPool.Some? && first.block.Some?
    requires first.mapped != [] && Accepts(first.mapped)
    ensures var s := Step(Initial(DDP_MAX - 1), Setup(0, first));
      && |s.ddp| == DDP_MAX && s.maxXid == DDP_MAX - 1 && s.poolsAllocated
      && s.ddp[0] == Ddp(0, 1, first.sgl, first.sgc, first.block, first.cpuPool)
  {
    hide Accepts;
  }

  lemma AfterResponse(s: State)
    requires |s.ddp| == DDP_MAX && s.ddp[0].udl.Some?
    ensures var s' := Step(s, Frame(0, 0, StatFcpRsp, 0));
      && |s'.ddp| == DDP_MAX && s'.maxXid == s.maxXid && s'.poolsAllocated == s.poolsAllocated
      && s'.ddp[0] == s.ddp[0].(len := 0, err := 0, sgl := None, sgc := 0)
  {}

  lemma RunFour(s: State, e1: Event, e2: Event, e3: Event, e4: Event)
    ensures Run(s, [e1, e2, e3, e4]) == Step(Step(Step(Step(s, e1), e2), e3), e4)
  {
    assert [e1, e2, e3, e4][1..] == [e2, e3, e4];
    assert [e2, e3, e4][1..] == [e3, e4];
    assert [e3, e4][1..] == [e4];
    var s1, s2, s3 := Step(s, e1), Step(Step(s, e1), e2), Step(Step(Step(s, e1), e2), e3);
    assert Run(s3, [e4]) == Step(s3, e4);
    assert Run(s2, [e3, e4]) == Run(s3, [e4]);
    assert Run(s1, [e2, e3, e4]) == Run(s2, [e3, e4]);
  }

  /** Releases touch nothing but the ledger. */
  lemma ReleaseFrame(s: State, d: Ddp)
    ensures var t := Unmap(s, d.sgl, d.sgc);
      && t == s.(maps := t.maps, faults := t.faults)
      && forall b: Block :: FreeBlock(t, b) == t.(blocks := FreeBlock(t, b).blocks, faults := FreeBlock(t, b).faults)
  {}

  // ----- the driver's objects

  /** struct txgbe_fcoe, updated in place by the driver's entry points. */
  class Fcoe {
    var ddp: seq<Ddp>
    var maxXid: nat
    var poolsAllocated: bool
    ghost var blocks: multiset<Block>
    ghost var maps: multiset<Mapping>
    ghost var faults: nat
    ghost var log: seq<Event>

    /** The object is where its calls so far lead, so every theorem about runs is about it: in
        particular its blocks and mappings are accounted for. */
    ghost predicate Valid()
      reads this
    {
      && |ddp| == DDP_MAX && maxXid < DDP_MAX
      && Value() == Run(Initial(maxXid), log)
      && Accounts(Value(), LostIn(Initial(maxXid), log))
    }

    ghost function Value(): State
      reads this
    {
      State(ddp, maxXid, poolsAllocated, blocks, maps, faults)
    }

    constructor (limit: nat)
      requires limit < DDP_MAX
      ensures Valid() && Value() == Initial(limit) && log == []
    {
      ddp := seq(DDP_MAX, _ => CLEARED);
      maxXid, poolsAllocated := limit, true;
      blocks, maps, faults, log := multiset{}, multiset{}, 0, [];
      new;
      LedgerOfEveryRun(limit, []);
    }

    ghost method ReleaseBlock(b: Block)
      modifies this`blocks, this`faults
      ensures blocks == FreeBlock(old(Value()), b).blocks && faults == FreeBlock(old(Value()), b).faults
    {
      if b in blocks {
        blocks := blocks - multiset{b};
      } else {
        faults := faults + 1;
      }
    }

    ghost method ReleaseMap(sgl: Option<nat>, sgc: nat)
      modifies this`maps, this`faults
      ensures maps == Unmap(old(Value()), sgl, sgc).maps && faults == Unmap(old(Value()), sgl, sgc).faults
    {
      if sgl.Some? {
        if (sgl.value, sgc) in maps {
          maps := maps - multiset{(sgl.value, sgc)};
        } else {
          faults := faults + 1;
        }
      }
    }

    /** txgbe_fcoe_ddp_setup; `udl` is the memory of the pool block. */
    method SetUp(xid: nat, req: Request, udl: array<nat>) returns (ok: bool, r: Outcome)
      requires udl.Length == BUFFCNT_MAX && Valid()
      modifies this, udl
      ensures Valid() && log == old(log) + [Setup(xid, req)]
      ensures (Value(), ok) == SetupSpec(old(Value()), xid, req)
      ensures !Reused(maxXid, old(log)) ==>
        (ok <==> Opens(maxXid, Setup(xid, req), xid) && (Opened(maxXid, old(log), xid) ==> Answered(maxXid, old(log), xid)))
      ensures ok ==> r.Built? && r.count <= BUFFCNT_MAX && Sound(req.mapped, udl[..r.count], req.extra, r)
    {
      hide Run, LostIn, Accounts, Initial, Accepts, Sound, Reused, Opened, Answered, IsLength;
      Continues(maxXid, log, Setup(xid, req));
      if !Reused(maxXid, log) {
        CallsAnswer(maxXid, log);
      }
      log := log + [Setup(xid, req)];
      ok, r := false, Misaligned;
      if req.sgl.None? || req.sgc == 0 || xid > maxXid || req.down || ddp[xid].sgl.Some? {
        return;
      }
      ddp := ddp[xid := CLEARED];
      if !poolsAllocated || req.cpuPool.None? || req.mapped == [] {
        return;
      }
      ok, r := MapAndFill(xid, req, udl);
    }

    /** The layout loop; it touches nothing but the block. */
    method FillBlock(mapped: seq<Segment>, extra: nat, udl: array<nat>) returns (r: Outcome)
      requires udl.Length == BUFFCNT_MAX
      modifies udl
      ensures r.Built? <==> Accepts(mapped)
      ensures r.Built? ==> r.count <= BUFFCNT_MAX && Sound(mapped, udl[..r.count], extra, r)
      ensures Value() == old(Value())
    {
      r := Flatten(mapped, extra, udl);
    }

    /** The part of setup that holds resources: map, allocate, lay out, and undo on failure. */
    method MapAndFill(xid: nat, req: Request, udl: array<nat>) returns (ok: bool, r: Outcome)
      requires udl.Length == BUFFCNT_MAX && xid < |ddp| && ddp[xid] == CLEARED
      requires req.sgl.Some? && req.cpuPool.Some?
      modifies this`ddp, this`blocks, this`maps, udl
      ensures ok <==> req.block.Some? && Accepts(req.mapped)
      ensures ok ==>
        && ddp == old(ddp)[xid := Ddp(0, 1, req.sgl, req.sgc, req.block, req.cpuPool)]
        && blocks == old(blocks) + multiset{(req.cpuPool.value, req.block.value)}
        && maps == old(maps) + multiset{(req.sgl.value, req.sgc)}
      ensures !ok ==> ddp == old(ddp) && blocks == old(blocks) && maps == old(maps)
      ensures ok ==> r.Built? && r.count <= BUFFCNT_MAX && Sound(req.mapped, udl[..r.count], req.extra, r)
    {
      ok, r := false, Misaligned;
      ghost var ddp0 := ddp;
      maps := maps + multiset{(req.sgl.value, req.sgc)};
      if req.block.None? {
        assert (req.sgl.value, req.sgc) in maps;
        maps := maps - multiset{(req.sgl.value, req.sgc)};
        return;
      }
      ghost var b := (req.cpuPool.value, req.block.value);
      blocks := blocks + multiset{b};
      ddp := ddp[xid := Ddp(0, 1, req.sgl, req.sgc, req.block, req.cpuPool)];
      r := FillBlock(req.mapped, req.extra, udl);
      if !r.Built? {
        assert b in blocks && (req.sgl.value, req.sgc) in maps;
        blocks := blocks - multiset{b};
        ddp := ddp[xid := CLEARED];
        maps := maps - multiset{(req.sgl.value, req.sgc)};
        assert ddp == ddp0;
        return;
      }
      ok := true;
    }

    /** txgbe_fcoe_ddp_put */
    method Put(xid: nat) returns (len: int, forced: bool)
      requires Valid()
      modifies this
      ensures Valid() && log == old(log) + [Event.Put(xid)]
      ensures (Value(), len) == PutSpec(old(Value()), xid) && forced == old(Forces(Value(), xid))
      ensures !Reused(maxXid, old(log)) ==>
        && IsLength(maxXid, old(log), xid, len)
        && (forced <==> Opened(maxXid, old(log), xid) && !Answered(maxXid, old(log), xid))
    {
      hide FreeBlock, Unmap, Run, LostIn, Accounts, Initial, Reused, Opened, Answered, IsLength;
      Continues(maxXid, log, Event.Put(xid));
      if !Reused(maxXid, log) {
        CallsAnswer(maxXid, log);
      }
      log := log + [Event.Put(xid)];
      len, forced := 0, false;
      if xid > maxXid || xid >= DDP_MAX || ddp[xid].udl.None? {
        return;
      }
      var d := ddp[xid];
      len := d.len;
      forced := d.err != 0;
      ReleaseFrame(Value(), d);
      ReleaseMap(d.sgl, d.sgc);
      if d.pool.Some? {
        ReleaseBlock((d.pool.value, d.udl.value));
      }
      ddp := ddp[xid := CLEARED];
    }

    /** txgbe_fcoe_ddp, after the exchange id was read from the frame header. */
    method Receive(xid: nat, ddpErr: nat, stat: FcStat, rss: int) returns (rc: int)
      requires Valid()
      modifies this
      ensures Valid() && log == old(log) + [Frame(xid, ddpErr, stat, rss)]
      ensures (Value(), rc) == FrameSpec(old(Value()), xid, ddpErr, stat, rss)
      ensures !Reused(maxXid, old(log)) ==> rc == FrameAnswer(Opened(maxXid, old(log), xid), ddpErr, stat, rss)
    {
      hide Unmap, Run, LostIn, Accounts, Initial, Reused, Opened, Answered, IsLength;
      Continues(maxXid, log, Frame(xid, ddpErr, stat, rss));
      if !Reused(maxXid, log) {
        CallsAnswer(maxXid, log);
      }
      log := log + [Frame(xid, ddpErr, stat, rss)];
      rc := EINVAL;
      if xid >= DDP_MAX || ddp[xid].udl.None? || ddpErr != 0 {
        return;
      }
      var d := ddp[xid];
      match stat {
        case StatDdp =>
          ddp := ddp[xid := d.(len := rss)];
          rc := 0;
        case StatFcpRsp =>
          ReleaseFrame(Value(), d);
          ReleaseMap(d.sgl, d.sgc);
          d := d.(err := ddpErr, sgl := None, sgc := 0, len := rss);
          ddp := ddp[xid := d];
          rc := if rss != 0 then rss else EINVAL;
        case StatNoDdp =>
          ddp := ddp[xid := d.(len := rss)];
          rc := if rss != 0 then rss else EINVAL;
        case StatNoMatch =>
      }
    }

    /** txgbe_free_fcoe_ddp_resources, the put loop: nothing stays mapped or in use, and only blocks
        lost to reuse stay outstanding. */
    method FreeResources()
      requires Valid()
      modifies this
      ensures Valid() && log == old(log) + [FreeAll]
      ensures Value() == Step(old(Value()), FreeAll)
      ensures poolsAllocated ==>
        && (forall i | 0 <= i < DDP_MAX :: ddp[i].udl.None? && ddp[i].sgl.None?)
        && maps == multiset{} && blocks == LostIn(Initial(maxXid), log)
    {
      hide PutSpec, Run, LostIn, Accounts, Initial;
      ghost var calls, before := log, Value();
      Continues(maxXid, log, FreeAll);
      if !poolsAllocated {
        log := calls + [FreeAll];
        return;
      }
      for i := 0 to |ddp|
        invariant Valid() && maxXid == before.maxXid
        invariant Value() == PutBelow(before, i)
      {
        assert PutBelow(before, i + 1) == PutSpec(PutBelow(before, i), i).0;
        PutKeepsLimit(Value(), i);
        var len, forced := Put(i);
      }
      log := calls + [FreeAll];
      ghost var after := Step(before, FreeAll);
      assert Value() == after;
      FreeAllDrains(before, LostIn(Initial(maxXid), calls));
      assert ddp == after.ddp && maps == after.maps && blocks == after.blocks;
      FreeingLosesNothing(maxXid, calls);
    }
  }

  /** One more call: where it leads, and that the ledger holds there. */
  lemma Continues(maxXid: nat, log: seq<Event>, e: Event)
    ensures Run(Initial(maxXid), log + [e]) == Step(Run(Initial(maxXid), log), e)
    ensures Accounts(Run(Initial(maxXid), log + [e]), LostIn(Initial(maxXid), log + [e]))
  {
    RunNext(Initial(maxXid), log, e);
    LedgerOfEveryRun(maxXid, log + [e]);
  }

  lemma FreeingLosesNothing(maxXid: nat, log: seq<Event>)
    ensures LostIn(Initial(maxXid), log + [FreeAll]) == LostIn(Initial(maxXid), log)
  {
    RunNext(Initial(maxXid), log, FreeAll);
  }

  lemma PutKeepsLimit(s: State, xid: nat)
    ensures PutSpec(s, xid).0.maxXid == s.maxXid
  {}

  // ----- register words of an accepted setup

  /** The value written to TXGBE_RDM_FCBUF: valid bit, 4 KB buffers, count and first offset. */
  function FcbufWord(count: nat, firstOff: nat): nat {
    Or(Or(Or(Shl(0, 3), Shl(And(count, 0xFF), 8)), Shl(And(firstOff, 0xFFFF), 16)), 1)
  }

  /** The value written to TXGBE_RDM_FCRW: exchange id, write enable and last size. */
  function FcrwWord(xid: nat, lastSize: nat): nat {
    Or(Or(xid, Shl(1, 14)), Shl(And(lastSize, 0xFFFF), 16))
  }

  lemma FcbufValue(count: nat, firstOff: nat)
    requires firstOff < BUFF_LEN
    ensures FcbufWord(count, firstOff) == 1 + 256 * And(count, 0xFF) + 65536 * firstOff
    ensures And(count, 0xFF) == count % 256 < 256
  {
    assert Pow2(1) == 2 && Pow2(8) == 256 && Pow2(16) == 65536 by {
      Pow2Values();
    }
    Mask(count, 8, 0xFF);
    Mask(firstOff, 16, 0xFFFF);
    var c := And(count, 0xFF);
    var half := 128 * c + 32768 * firstOff;
    calc {
      Or(Or(Or(Shl(0, 3), Shl(c, 8)), Shl(firstOff, 16)), 1);
      { ShlIsMul(0, 3); ShlIsMul(c, 8); }
      Or(Or(256 * c, Shl(firstOff, 16)), 1);
      { OrShl(256 * c, firstOff, 16, 65536); }
      Or(256 * c + 65536 * firstOff, 1);
      { OrCommutes(256 * c + 65536 * firstOff, 1); ShlIsMul(half, 1); }
      Or(1, Shl(half, 1));
      { OrShl(1, half, 1, 2); }
      1 + 2 * half;
    }
  }

  /** The device reads back the layout, except that the 8-bit count field holds 256 as 0. */
  lemma FcbufDecodes(count: nat, firstOff: nat)
    requires firstOff < BUFF_LEN
    ensures var w := FcbufWord(count, firstOff);
      Field(w, 0, 1) == 1 && Field(w, 3, 2) == 0 && Field(w, 8, 8) == count % 256 && Field(w, 16, 16) == firstOff
  {
    assert Pow2(0) == 1 && Pow2(1) == 2 && Pow2(2) == 4 && Pow2(3) == 8 && Pow2(8) == 256 && Pow2(16) == 65536 by {
      Pow2Values();
    }
    FcbufValue(count, firstOff);
    var w, c := FcbufWord(count, firstOff), And(count, 0xFF);
    FieldAt(w, 0, 1, 0, 1, 128 * c + 32768 * firstOff);
    FieldAt(w, 3, 2, 1, 0, 8 * c + 2048 * firstOff);
    FieldAt(w, 8, 8, 1, c, firstOff);
    FieldAt(w, 16, 16, 256 * c + 1, firstOff, 0);
  }

  lemma FcrwValue(xid: nat, lastSize: nat)
    requires xid < DDP_MAX && lastSize < BUFF_LEN
    ensures FcrwWord(xid, lastSize) == xid + 16384 + 65536 * lastSize
  {
    assert Pow2(14) == 16384 && Pow2(16) == 65536 by {
      Pow2Values();
    }
    Mask(lastSize, 16, 0xFFFF);
    OrShl(xid, 1, 14, 16384);
    OrShl(xid + 16384, lastSize, 16, 65536);
  }

  lemma FcrwDecodes(xid: nat, lastSize: nat)
    requires xid < DDP_MAX && lastSize < BUFF_LEN
    ensures var w := FcrwWord(xid, lastSize);
      Field(w, 0, 9) == xid && Field(w, 14, 1) == 1 && Field(w, 16, 16) == lastSize
  {
    assert Pow2(0) == 1 && Pow2(1) == 2 && Pow2(9) == 512 && Pow2(14) == 16384 && Pow2(16) == 65536 by {
      Pow2Values();
    }
    var w := FcrwWord(xid, lastSize);
    FcrwValue(xid, lastSize);
    FieldAt(w, 0, 9, 0, xid, 32 + 128 * lastSize);
    FieldAt(w, 14, 1, xid, 1, 2 * lastSize);
    FieldAt(w, 16, 16, xid + 16384, lastSize, 0);
  }

  /** For instance a list of 255 pages and one byte is accepted with 256 buffers, counted as none. */
  lemma FullLayoutCountsAsNone()
    ensures var sgl := [Segment(0, 255 * BUFF_LEN + 1)];
      Accepts(sgl) && Need(sgl) == 256 && Field(FcbufWord(Need(sgl), FirstOff(sgl)), 8, 8) == 0
  {
    hide FcbufWord, Field;
    var sgl := [Segment(0, 255 * BUFF_LEN + 1)];
    assert sgl[..0] == [] && Total([]) == 0;
    assert Total(sgl) == 255 * BUFF_LEN + 1;
    assert ByteAddr(sgl, 0) == 0;
    assert Joins(sgl, 0);
    FcbufDecodes(256, 0);
  }
}
