/** What the mailbox is for: a message written by one side is announced to the other, read by it word
    for word, and acknowledged. */
module MailboxDelivery {
  import opened Mailbox
  import opened MailboxSafety

  // ----- ownership is given back

  predicate Locking(vf: VfPc) {
    (vf.VSample? || vf.VMirror? || vf.VClear?) && vf.why.ForLock?
  }

  /** An ownership bit is set only while its side is in, or entering, its critical section. */
  predicate Released(s: Sys) {
    && (s.hw.pfu ==> PfInside(s.pf) || s.pf.PTest?)
    && (s.hw.vfu ==> VfInside(s.vf) || Locking(s.vf))
    && (Locking(s.vf) && !s.vf.VSample? ==> s.vf.val.vfu == s.hw.vfu)
  }

  lemma PfKeepsReleased(s: Sys)
    requires Released(s)
    ensures Released(PfMove(s))
  {
    hide Or;
    match s.pf
    case PIdle =>
    case PTake(op, tries) =>
    case PTest(op, tries) =>
    case PReadIcr(m, forAck) =>
    case PClearIcr(m, forAck) =>
    case PCopy(op, buf) =>
    case PMirror(op, buf) =>
    case PRelease(op, buf) =>
    case PLook(forAck) =>
    case PTaken(forAck) =>
  }

  lemma VfKeepsReleased(s: Sys)
    requires Clean(s) && Released(s)
    ensures Released(VfMove(s))
  {
    hide Or, And, Without, VfRegister, AfterRead, VfCopyWord, VfDone;
    SeenOwner(s.hw, s.shadow);
    match s.vf
    case VIdle =>
    case VTake(op) =>
    case VSample(why) =>
    case VMirror(why, val) => MirrorHidesOwner(val, s.hw.mirror);
    case VClear(why, val) => ReadOwner(s.(hw := s.hw.(mirror := ZERO)), why, val);
    case VCopy(op, buf) => CopyOwner(s, op, buf);
    case VRelease(op, buf) => CopyOwner(s, op, buf);
  }

  /** A completed register read enters the critical section, stays in it or leaves the VF idle. */
  lemma ReadOwner(s: Sys, why: Why, val: Bits)
    ensures var t := AfterRead(s, why, val);
      && t.hw == s.hw && t.pf == s.pf
      && (if why.ForCheck? || (why.ForLock? && !val.vfu) then t.vf == VIdle else VfInside(t.vf))
  {
    hide Or, And, Without;
  }

  lemma CopyOwner(s: Sys, op: Op, buf: Msg)
    ensures var t := VfCopyWord(s, op, buf); t.hw.vfu == s.hw.vfu && t.hw.pfu == s.hw.pfu && t.pf == s.pf && VfInside(t.vf)
    ensures var t := VfDone(s, op, buf); !t.hw.vfu && t.hw.pfu == s.hw.pfu && t.pf == s.pf && t.vf == VIdle
  {}

  /** The word read shows the VF's ownership bit as it is. */
  lemma SeenOwner(hw: Hw, shadow: Bits)
    requires OnlyR2C(hw.status) && OnlyR2C(shadow)
    ensures Or(VfRegister(hw), shadow).vfu == hw.vfu
  {}

  lemma MirrorHidesOwner(val: Bits, mirror: Bits)
    requires OnlyMirror(mirror)
    ensures Or(val, mirror).vfu == val.vfu
  {}

  lemma {:induction false} RunKeepsReleased(mem0: Mem, s: Sys, labels: seq<Label>)
    requires Safe(mem0, s) && Released(s)
    ensures Released(Run(s, labels))
    decreases |labels|
  {
    hide Safe, Clean;
    if labels != [] {
      var l := labels[0];
      SafeIsClean(mem0, s);
      match l {
        case PfStep => PfKeepsReleased(s);
        case VfStep => VfKeepsReleased(s);
        case PfCall(_, _) =>
        case PfCheck(_) =>
        case VfCall(_) =>
        case VfCheck(_) =>
        case RaiseRstd =>
        case SetRsti(_) =>
      }
      RunKeepsSafe(mem0, s, [l]);
      RunOne(s, l);
      RunKeepsReleased(mem0, Step(s, l), labels[1..]);
    }
  }

  lemma SafeIsClean(mem0: Mem, s: Sys)
    requires Safe(mem0, s)
    ensures Clean(s)
  {}

  lemma RunOne(s: Sys, l: Label)
    ensures Run(s, [l]) == Step(s, l)
  {
    assert [l][1..] == [];
  }

  lemma {:induction false} RunConcat(s: Sys, a: seq<Label>, b: seq<Label>)
    ensures Run(s, a + b) == Run(Run(s, a), b)
    decreases |a|
  {
    hide Step;
    if a == [] {
      assert a + b == b;
    } else {
      assert (a + b)[0] == a[0] && (a + b)[1..] == a[1..] + b;
      RunConcat(Step(s, a[0]), a[1..], b);
    }
  }

  /** Both sides between calls, and the mailbox owned by nobody. */
  predicate Quiet(s: Sys) {
    s.pf.PIdle? && s.vf.VIdle? && !s.hw.pfu && !s.hw.vfu && Clean(s)
  }

  /** In every run, a state with both sides idle is quiet. */
  lemma IdleIsQuiet(mem0: Mem, labels: seq<Label>)
    requires Run(Start(mem0), labels).pf.PIdle? && Run(Start(mem0), labels).vf.VIdle?
    ensures Quiet(Run(Start(mem0), labels))
  {
    hide Run;
    EveryRunIsSafe(mem0, []);
    assert Run(Start(mem0), []) == Start(mem0) by {
      RunNothing(Start(mem0));
    }
    RunKeepsReleased(mem0, Start(mem0), labels);
    EveryRunIsSafe(mem0, labels);
  }

  lemma RunNothing(s: Sys)
    ensures Run(s, []) == s
  {}

  // ----- a side that runs alone

  function PfRun(s: Sys, n: nat): Sys
    decreases n
  {
    if n == 0 then s else PfRun(PfMove(s), n - 1)
  }

  function VfRun(s: Sys, n: nat): Sys
    decreases n
  {
    if n == 0 then s else VfRun(VfMove(s), n - 1)
  }

  function Times(l: Label, n: nat): seq<Label> {
    if n == 0 then [] else [l] + Times(l, n - 1)
  }

  lemma {:induction false} PfRunIsRun(s: Sys, n: nat)
    ensures Run(s, Times(PfStep, n)) == PfRun(s, n)
    decreases n
  {
    hide PfMove;
    if n > 0 {
      assert Times(PfStep, n)[1..] == Times(PfStep, n - 1);
      PfRunIsRun(PfMove(s), n - 1);
    }
  }

  lemma {:induction false} VfRunIsRun(s: Sys, n: nat)
    ensures Run(s, Times(VfStep, n)) == VfRun(s, n)
    decreases n
  {
    hide VfMove;
    if n > 0 {
      assert Times(VfStep, n)[1..] == Times(VfStep, n - 1);
      VfRunIsRun(VfMove(s), n - 1);
    }
  }

  lemma {:induction false} PfIdles(s: Sys, n: nat)
    requires s.pf.PIdle?
    ensures PfRun(s, n) == s
    decreases n
  {
    if n > 0 {
      PfIdles(s, n - 1);
    }
  }

  lemma {:induction false} VfIdles(s: Sys, n: nat)
    requires s.vf.VIdle?
    ensures VfRun(s, n) == s
    decreases n
  {
    if n > 0 {
      VfIdles(s, n - 1);
    }
  }

  // ----- the PF writes

  /** The message stands in the buffer. */
  predicate Holding(before: Mem, m: Msg, after: Mem) {
    |m| <= SIZE && after == m + before[|m|..]
  }

  /** The VF's own state is as before. */
  predicate VfSame(s: Sys, t: Sys) {
    t.vf == s.vf && t.shadow == s.shadow && t.hw.vfu == s.hw.vfu && t.hw.rsti == s.hw.rsti
  }

  /** What a PF write of m leaves behind: the message, PFSTS raised, the VF's events flushed. */
  predicate PfWrote(s: Sys, m: Msg, t: Sys) {
    && t.pf == PIdle && VfSame(s, t) && !t.hw.pfu
    && t.transfers == s.transfers + [Wrote(m)] && Holding(s.hw.mem, m, t.hw.mem)
    && t.hw.status == s.hw.status.(pfsts := true) && t.hw.mirror == ZERO.(req := true)
    && !t.hw.req && !t.hw.ack
    && t.pfReports == s.pfReports
  }

  lemma {:induction false} PfCopies(s: Sys, m: Msg, buf: Msg, n: nat)
    requires s.pf == PCopy(Write(m), buf) && |m| <= SIZE && buf <= m && buf <= s.hw.mem
    requires n >= |m| - |buf| + 3 && s.hw.pfu
    ensures var t := PfRun(s, n);
      && t.pf == PIdle && VfSame(s, t) && !t.hw.pfu
      && t.transfers == s.transfers + [Wrote(m)] && Holding(s.hw.mem, m, t.hw.mem)
      && t.hw.status == s.hw.status.(pfsts := true) && t.hw.mirror == ZERO.(req := true)
      && t.hw.req == s.hw.req && t.hw.ack == s.hw.ack && t.pfReports == s.pfReports
    decreases |m| - |buf|
  {
    if |buf| < |m| {
      var next := PfMove(s);
      PfCopies(next, m, buf + [m[|buf|]], n - 1);
      assert next.hw.mem[|m|..] == s.hw.mem[|m|..];
    } else {
      assert buf == m;
      var released := PfMove(PfMove(PfMove(s)));
      PfRunStep(s, n);
      PfRunStep(PfMove(s), n - 1);
      PfRunStep(PfMove(PfMove(s)), n - 2);
      PfIdles(released, n - 3);
      assert s.hw.mem == m + s.hw.mem[|m|..];
    }
  }

  lemma PfFlushes(s: Sys, m: Msg, n: nat)
    requires s.pf == PReadIcr(m, false) && |m| <= SIZE && n >= |m| + 7 && s.hw.pfu
    ensures PfWrote(s, m, PfRun(s, n))
  {
    hide PfRun;
    var a := PfMove(s);
    PfRunStep(s, n);
    var b := if a.pf.PClearIcr? then PfMove(a) else a;
    var k := if a.pf.PClearIcr? then n - 2 else n - 1;
    PfRunStep(a, n - 1);
    assert b.pf == PReadIcr(m, true) && !b.hw.req;
    var c := PfMove(b);
    PfRunStep(b, k);
    var d := if c.pf.PClearIcr? then PfMove(c) else c;
    var j := if c.pf.PClearIcr? then k - 2 else k - 1;
    PfRunStep(c, k - 1);
    assert d.pf == PCopy(Write(m), []) && !d.hw.req && !d.hw.ack;
    PfCopies(d, m, [], j);
  }

  lemma PfRunStep(s: Sys, n: nat)
    requires n > 0
    ensures PfRun(s, n) == PfRun(PfMove(s), n - 1)
  {}

  lemma VfRunStep(s: Sys, n: nat)
    requires n > 0
    ensures VfRun(s, n) == VfRun(VfMove(s), n - 1)
  {}

  /** A call of the PF and enough steps to finish it. */
  function PfWriteCalls(m: Msg): seq<Label> {
    [PfCall(Write(m), 1)] + Times(PfStep, |m| + 9)
  }

  lemma PfWrites(s: Sys, m: Msg)
    requires Quiet(s) && |m| <= SIZE
    ensures PfWrote(s, m, Run(s, PfWriteCalls(m)))
  {
    hide Times, PfRun;
    var n := |m| + 9;
    var a := Step(s, PfCall(Write(m), 1));
    assert PfWriteCalls(m)[1..] == Times(PfStep, n);
    PfRunIsRun(a, n);
    PfRunStep(a, n);
    var b := PfMove(a);
    PfRunStep(b, n - 1);
    var c := PfMove(b);
    assert c.pf == PReadIcr(m, false);
    PfFlushes(c, m, n - 2);
  }

  // ----- the PF reads

  /** What a PF read of k words leaves behind: the words returned and PFACK raised. */
  predicate PfGot(s: Sys, k: nat, t: Sys) {
    && k <= SIZE && t.pf == PIdle && VfSame(s, t) && !t.hw.pfu
    && t.transfers == s.transfers + [Got(k, s.hw.mem[..k])] && t.hw.mem == s.hw.mem
    && t.hw.status == s.hw.status.(pfack := true) && t.hw.mirror == ZERO.(ack := true)
    && t.hw.req == s.hw.req && t.hw.ack == s.hw.ack
    && t.pfReports == s.pfReports
  }

  lemma {:induction false} PfFetches(s: Sys, k: nat, buf: Msg, n: nat)
    requires s.pf == PCopy(Read(k), buf) && |buf| <= k <= SIZE && buf == s.hw.mem[..|buf|]
    requires n >= k - |buf| + 3 && s.hw.pfu
    ensures PfGot(s, k, PfRun(s, n))
    decreases k - |buf|
  {
    if |buf| < k {
      var next := PfMove(s);
      PfRunStep(s, n);
      PfFetches(next, k, buf + [s.hw.mem[|buf|]], n - 1);
    } else {
      var released := PfMove(PfMove(PfMove(s)));
      PfRunStep(s, n);
      PfRunStep(PfMove(s), n - 1);
      PfRunStep(PfMove(PfMove(s)), n - 2);
      PfIdles(released, n - 3);
    }
  }

  function Words(n: nat): (k: nat)
    ensures k <= n && k <= 15 && (k == n || k == 15)
  {
    if n > 15 then 15 else n
  }

  function PfReadCalls(n: nat): seq<Label> {
    [PfCall(Read(n), 1)] + Times(PfStep, n + 6)
  }

  /** A read returns as many words as asked, at most fifteen. */
  lemma PfReads(s: Sys, n: nat)
    requires Quiet(s)
    ensures PfGot(s, Words(n), Run(s, PfReadCalls(n)))
  {
    hide Times, PfRun;
    var a := Step(s, PfCall(Read(n), 1));
    assert PfReadCalls(n)[1..] == Times(PfStep, n + 6);
    PfRunIsRun(a, n + 6);
    PfRunStep(a, n + 6);
    var b := PfMove(a);
    PfRunStep(b, n + 5);
    var c := PfMove(b);
    assert c.pf == PCopy(Read(Words(n)), []);
    PfFetches(c, Words(n), [], n + 4);
  }

  // ----- the PF checks

  function PfCheckCalls(forAck: bool): seq<Label> {
    [PfCheck(forAck), PfStep, PfStep]
  }

  /** The PF's check reports whether the VF's event is set, and takes it. */
  lemma PfChecks(s: Sys, forAck: bool)
    requires Quiet(s)
    ensures var t := Run(s, PfCheckCalls(forAck));
      var hit := if forAck then s.hw.ack else s.hw.req;
      && t.pfReports == s.pfReports + [PfReport(forAck, hit)]
      && t == s.(hw := if forAck then s.hw.(ack := false) else s.hw.(req := false), pfReports := t.pfReports)
  {
    var a := Step(s, PfCheck(forAck));
    RunThree(s, PfCheck(forAck), PfStep, PfStep);
    assert PfMove(PfMove(a)).pf.PIdle?;
  }

  lemma RunThree(s: Sys, a: Label, b: Label, c: Label)
    ensures Run(s, [a, b, c]) == Step(Step(Step(s, a), b), c)
  {
    hide Step;
    assert [a, b, c][1..] == [b, c] && [b, c][1..] == [c] && [c][1..] == [];
    assert Run(s, [a, b, c]) == Run(Step(s, a), [b, c]);
    assert Run(Step(s, a), [b, c]) == Run(Step(Step(s, a), b), [c]);
    RunOne(Step(Step(s, a), b), c);
  }

  // ----- the VF reads its register

  /** Status bits raised and not yet taken, wherever they are. */
  function Waiting(s: Sys): Bits {
    Or(s.hw.status, s.shadow)
  }

  /** The PF's own state is as before. */
  predicate PfSame(s: Sys, t: Sys) {
    t.pf == s.pf && t.hw.pfu == s.hw.pfu && t.hw.rsti == s.hw.rsti && t.pfReports == s.pfReports
  }

  /** Three accesses: the register, the mirror word, and its clearing. */
  lemma VfSamples(s: Sys, why: Why, n: nat)
    requires s.vf == VSample(why) && n >= 3
    ensures var val := Or(Or(VfRegister(s.hw), s.shadow), s.hw.mirror);
      var cleared := s.(hw := s.hw.(status := ZERO, mirror := ZERO), vf := VClear(why, val),
                        signals := s.signals + [Sampled(MaskOf(why), s.hw.rsti)]);
      VfRun(s, n) == VfRun(AfterRead(cleared, why, val), n - 3)
  {
    hide Or, VfRegister, AfterRead, MaskOf;
    VfRunStep(s, n);
    VfRunStep(VfMove(s), n - 1);
    VfRunStep(VfMove(VfMove(s)), n - 2);
  }

  /** Which bits a check asks for. */
  predicate Hits(s: Sys, c: Check) {
    match c
    case CheckMsg => Waiting(s).pfsts
    case CheckAck => Waiting(s).pfack
    case CheckRst => Waiting(s).rstd || s.hw.rsti
  }

  function Taken(b: Bits, c: Check): Bits {
    match c
    case CheckMsg => b.(pfsts := false)
    case CheckAck => b.(pfack := false)
    case CheckRst => b.(rstd := false)
  }

  function VfCheckCalls(c: Check): seq<Label> {
    [VfCheck(c)] + Times(VfStep, 3)
  }

  lemma ReadBits(hw: Hw, shadow: Bits, mirror: Bits, c: Check)
    requires OnlyR2C(hw.status) && OnlyR2C(shadow) && OnlyMirror(mirror)
    ensures var val := Or(Or(VfRegister(hw), shadow), mirror);
      var w := Or(hw.status, shadow);
      && (And(val, CheckMask(c)) != ZERO
          <==> match c case CheckMsg => w.pfsts case CheckAck => w.pfack case CheckRst => w.rstd || hw.rsti)
      && Without(Or(shadow, And(val, R2C)), CheckMask(c)) == Taken(w, c)
      && Or(shadow, And(val, R2C)) == w && val.vfu == hw.vfu
  {}

  /** The VF's check for a message, an acknowledgement or a reset reports whether the PF raised it, and
      takes that bit and no other. */
  lemma VfChecks(s: Sys, c: Check)
    requires Quiet(s)
    ensures var t := Run(s, VfCheckCalls(c));
      && t.vf == VIdle && PfSame(s, t) && t.transfers == s.transfers
      && t.hw == s.hw.(status := ZERO, mirror := ZERO)
      && |t.signals| > 0 && t.signals[|t.signals| - 1] == Reported(Hits(s, c))
      && t.shadow == Taken(Waiting(s), c)
  {
    hide Times, Or, And, Without, VfRegister;
    var a := Step(s, VfCheck(c));
    assert VfCheckCalls(c)[1..] == Times(VfStep, 3);
    VfRunIsRun(a, 3);
    VfSamples(a, ForCheck(c), 3);
    ReadBits(s.hw, s.shadow, s.hw.mirror, c);
  }

  // ----- the VF takes the mailbox

  /** The VF is idle and the mailbox free: it gets the mailbox, and nothing it was owed is lost. */
  lemma VfTakes(s: Sys, op: Op, n: nat) returns (t: Sys)
    requires s.vf == VTake(op) && !s.hw.pfu && Clean(s) && n >= 4
    ensures VfRun(s, n) == VfRun(t, n - 4)
    ensures t.vf == (if op.Write? then VSample(ForFlushMsg(op.msg)) else VCopy(op, []))
    ensures t.hw == s.hw.(vfu := true, status := ZERO, mirror := ZERO) && t.shadow == Waiting(s)
    ensures PfSame(s, t) && t.transfers == s.transfers && Clean(t)
  {
    hide VfRun, Or, And, Without, VfRegister;
    VfRunStep(s, n);
    var a := VfMove(s);
    VfSamples(a, ForLock(op), n - 1);
    ReadBits(a.hw, a.shadow, a.hw.mirror, CheckMsg);
    var val := Or(Or(VfRegister(a.hw), a.shadow), a.hw.mirror);
    t := AfterRead(a.(hw := a.hw.(status := ZERO, mirror := ZERO), vf := VClear(ForLock(op), val),
                      signals := a.signals + [Sampled(MaskOf(ForLock(op)), a.hw.rsti)]), ForLock(op), val);
    WaitingIsR2C(s);
  }

  lemma WaitingIsR2C(s: Sys)
    requires Clean(s)
    ensures OnlyR2C(Waiting(s))
    ensures s.hw.status == ZERO ==> Waiting(s) == s.shadow
  {}

  /** Flushing takes the message and the acknowledgement bit. */
  lemma VfFlushes(s: Sys, m: Msg, n: nat) returns (t: Sys)
    requires s.vf == VSample(ForFlushMsg(m)) && Clean(s) && n >= 6 && s.hw.status == ZERO
    ensures VfRun(s, n) == VfRun(t, n - 6)
    ensures t.vf == VCopy(Write(m), []) && PfSame(s, t) && t.transfers == s.transfers
    ensures t.hw == s.hw.(mirror := ZERO) && t.shadow == s.shadow.(pfsts := false, pfack := false)
  {
    hide VfRun, Or, And, Without, VfRegister;
    WaitingIsR2C(s);
    VfSamples(s, ForFlushMsg(m), n);
    ReadBits(s.hw, s.shadow, s.hw.mirror, CheckMsg);
    var v := Or(Or(VfRegister(s.hw), s.shadow), s.hw.mirror);
    var a := AfterRead(s.(hw := s.hw.(status := ZERO, mirror := ZERO), vf := VClear(ForFlushMsg(m), v),
                          signals := s.signals + [Sampled(MaskOf(ForFlushMsg(m)), s.hw.rsti)]), ForFlushMsg(m), v);
    WaitingIsR2C(a);
    VfSamples(a, ForFlushAck(m), n - 3);
    ReadBits(a.hw, a.shadow, a.hw.mirror, CheckAck);
    var w := Or(Or(VfRegister(a.hw), a.shadow), a.hw.mirror);
    t := AfterRead(a.(hw := a.hw.(status := ZERO, mirror := ZERO), vf := VClear(ForFlushAck(m), w),
                      signals := a.signals + [Sampled(MaskOf(ForFlushAck(m)), a.hw.rsti)]), ForFlushAck(m), w);
  }

  // ----- the VF writes and reads

  lemma {:induction false} VfCopies(s: Sys, m: Msg, buf: Msg, n: nat)
    requires s.vf == VCopy(Write(m), buf) && |m| <= SIZE && buf <= m && buf <= s.hw.mem
    requires n >= |m| - |buf| + 2
    ensures var t := VfRun(s, n);
      && t.vf == VIdle && PfSame(s, t) && t.shadow == s.shadow
      && t.transfers == s.transfers + [Wrote(m)] && Holding(s.hw.mem, m, t.hw.mem)
      && t.hw == s.hw.(vfu := false, req := true, mem := t.hw.mem)
    decreases |m| - |buf|
  {
    VfRunStep(s, n);
    var next := VfMove(s);
    if |buf| < |m| {
      VfCopies(next, m, buf + [m[|buf|]], n - 1);
      assert next.hw.mem[|m|..] == s.hw.mem[|m|..];
    } else {
      assert buf == m;
      VfRunStep(next, n - 1);
      VfIdles(VfMove(next), n - 2);
      assert s.hw.mem == m + s.hw.mem[|m|..];
    }
  }

  lemma {:induction false} VfFetches(s: Sys, k: nat, buf: Msg, n: nat)
    requires s.vf == VCopy(Read(k), buf) && |buf| <= k <= SIZE && buf == s.hw.mem[..|buf|]
    requires n >= k - |buf| + 2
    ensures var t := VfRun(s, n);
      && t.vf == VIdle && PfSame(s, t) && t.shadow == s.shadow
      && t.transfers == s.transfers + [Got(k, s.hw.mem[..k])]
      && t.hw == s.hw.(vfu := false, ack := true)
    decreases k - |buf|
  {
    VfRunStep(s, n);
    var next := VfMove(s);
    if |buf| < k {
      VfFetches(next, k, buf + [s.hw.mem[|buf|]], n - 1);
    } else {
      VfRunStep(next, n - 1);
      VfIdles(VfMove(next), n - 2);
    }
  }

  /** What a VF write of m leaves behind: the message, a request to the PF, its own events flushed. */
  predicate VfWrote(s: Sys, m: Msg, t: Sys) {
    && t.vf == VIdle && PfSame(s, t) && !t.hw.vfu
    && t.transfers == s.transfers + [Wrote(m)] && Holding(s.hw.mem, m, t.hw.mem)
    && t.hw.req && t.hw.ack == s.hw.ack
    && t.hw.status == ZERO && t.hw.mirror == ZERO && t.shadow == Waiting(s).(pfsts := false, pfack := false)
  }

  /** What a VF read of k words leaves behind: the words returned and an acknowledgement to the PF. */
  predicate VfGot(s: Sys, k: nat, t: Sys) {
    && k <= SIZE && t.vf == VIdle && PfSame(s, t) && !t.hw.vfu
    && t.transfers == s.transfers + [Got(k, s.hw.mem[..k])] && t.hw.mem == s.hw.mem
    && t.hw.ack && t.hw.req == s.hw.req
    && t.hw.status == ZERO && t.hw.mirror == ZERO && t.shadow == Waiting(s)
  }

  function VfWriteCalls(m: Msg): seq<Label> {
    [VfCall(Write(m))] + Times(VfStep, |m| + 12)
  }

  lemma VfWrites(s: Sys, m: Msg)
    requires Quiet(s) && |m| <= SIZE
    ensures VfWrote(s, m, Run(s, VfWriteCalls(m)))
  {
    hide Times, VfRun, Waiting;
    var n := |m| + 12;
    var a := Step(s, VfCall(Write(m)));
    assert VfWriteCalls(m)[1..] == Times(VfStep, n);
    VfRunIsRun(a, n);
    var b := VfTakes(a, Write(m), n);
    var c := VfFlushes(b, m, n - 4);
    VfCopies(c, m, [], n - 10);
    SameWaiting(s, a);
  }

  lemma SameWaiting(s: Sys, t: Sys)
    requires s.hw == t.hw && s.shadow == t.shadow
    ensures Waiting(s) == Waiting(t)
  {}

  function VfReadCalls(n: nat): seq<Label> {
    [VfCall(Read(n))] + Times(VfStep, n + 6)
  }

  lemma VfReads(s: Sys, n: nat)
    requires Quiet(s)
    ensures VfGot(s, Words(n), Run(s, VfReadCalls(n)))
  {
    hide Times, VfRun, Waiting;
    var a := Step(s, VfCall(Read(n)));
    assert VfReadCalls(n)[1..] == Times(VfStep, n + 6);
    VfRunIsRun(a, n + 6);
    var b := VfTakes(a, Read(Words(n)), n + 6);
    VfFetches(b, Words(n), [], n + 2);
    SameWaiting(s, a);
  }

  // ----- delivery

  /** From PF to VF, from every reachable state with both sides idle: the write of any message that
      fits is reported by the VF's next check for a message, once; the VF's read returns the message;
      and the PF's check finds it acknowledged. */
  lemma PfDelivers(s: Sys, m: Msg)
    requires Quiet(s) && |m| <= SIZE
    ensures var t1 := Run(s, PfWriteCalls(m));
      var t2 := Run(t1, VfCheckCalls(CheckMsg));
      var t3 := Run(t2, VfReadCalls(|m|));
      var t4 := Run(t3, PfCheckCalls(true));
      var t5 := Run(t4, VfCheckCalls(CheckMsg));
      && |t2.signals| > 0 && t2.signals[|t2.signals| - 1] == Reported(true)
      && t3.transfers == s.transfers + [Wrote(m), Got(|m|, m)]
      && t4.pfReports == s.pfReports + [PfReport(true, true)]
      && Quiet(t4)
      && |t5.signals| > 0 && t5.signals[|t5.signals| - 1] == Reported(false)
  {
    hide Run, PfWriteCalls, VfCheckCalls, VfReadCalls, PfCheckCalls, Or;
    PfWrites(s, m);
    var t1 := Run(s, PfWriteCalls(m));
    VfChecks(t1, CheckMsg);
    var t2 := Run(t1, VfCheckCalls(CheckMsg));
    WaitingBits(t1);
    VfReads(t2, |m|);
    var t3 := Run(t2, VfReadCalls(|m|));
    WaitingBits(t2);
    assert t3.transfers == s.transfers + [Wrote(m)] + [Got(|m|, m)];
    PfChecks(t3, true);
    var t4 := Run(t3, PfCheckCalls(true));
    VfChecks(t4, CheckMsg);
    WaitingBits(t4);
  }

  lemma WaitingBits(s: Sys)
    requires Clean(s)
    ensures OnlyR2C(Waiting(s))
    ensures Waiting(s).pfsts == (s.hw.status.pfsts || s.shadow.pfsts)
    ensures Waiting(s).pfack == (s.hw.status.pfack || s.shadow.pfack)
    ensures Waiting(s).rstd == (s.hw.status.rstd || s.shadow.rstd)
  {}

  /** From VF to PF: the write of any message that fits is found by the PF's next check for a request,
      once; the PF's read returns the message; and the VF's check finds it acknowledged. */
  lemma VfDelivers(s: Sys, m: Msg)
    requires Quiet(s) && |m| <= SIZE
    ensures var t1 := Run(s, VfWriteCalls(m));
      var t2 := Run(t1, PfCheckCalls(false));
      var t3 := Run(t2, PfReadCalls(|m|));
      var t4 := Run(t3, VfCheckCalls(CheckAck));
      var t5 := Run(t4, PfCheckCalls(false));
      && t2.pfReports == s.pfReports + [PfReport(false, true)]
      && t3.transfers == s.transfers + [Wrote(m), Got(|m|, m)]
      && |t4.signals| > 0 && t4.signals[|t4.signals| - 1] == Reported(true)
      && Quiet(t4)
      && t5.pfReports == t2.pfReports + [PfReport(false, false)]
  {
    hide Run, VfWriteCalls, VfCheckCalls, PfReadCalls, PfCheckCalls, Or;
    VfWrites(s, m);
    WaitingBits(s);
    var t1 := Run(s, VfWriteCalls(m));
    PfChecks(t1, false);
    var t2 := Run(t1, PfCheckCalls(false));
    PfReads(t2, |m|);
    var t3 := Run(t2, PfReadCalls(|m|));
    assert t3.transfers == s.transfers + [Wrote(m)] + [Got(|m|, m)];
    VfChecks(t3, CheckAck);
    WaitingBits(t3);
    var t4 := Run(t3, VfCheckCalls(CheckAck));
    PfChecks(t4, false);
  }

  /** A reset done or in progress is reported by the VF's next check for a reset, and nothing else is. */
  lemma ResetIsReported(s: Sys, done: bool, inProgress: bool)
    requires Quiet(s) && !Waiting(s).rstd && !s.hw.rsti
    ensures var a := if done then Run(s, [RaiseRstd]) else s;
      var b := if inProgress then Run(a, [SetRsti(true)]) else a;
      var t := Run(b, VfCheckCalls(CheckRst));
      |t.signals| > 0 && t.signals[|t.signals| - 1] == Reported(done || inProgress)
  {
    hide Run, VfCheckCalls;
    RunOne(s, RaiseRstd);
    var a := if done then Run(s, [RaiseRstd]) else s;
    RunOne(a, SetRsti(true));
    var b := if inProgress then Run(a, [SetRsti(true)]) else a;
    VfChecks(b, CheckRst);
  }

  // ----- the other side holds the mailbox

  /** The PF tries as often as its timeout allows, then gives up with nothing done. */
  lemma {:induction false} PfGivesUp(s: Sys, op: Op, tries: nat, n: nat)
    requires s.pf == PTake(op, tries) && s.hw.vfu && !s.hw.pfu && n >= 2 * tries + 1
    ensures PfRun(s, n) == s.(pf := PIdle)
    decreases tries
  {
    PfRunStep(s, n);
    var a := PfMove(s);
    if tries == 0 {
      PfIdles(a, n - 1);
    } else {
      PfRunStep(a, n - 1);
      PfGivesUp(PfMove(a), op, tries - 1, n - 2);
    }
  }

  /** A call gets exactly as many tries as its timeout says, and the first one that finds the mailbox free
      takes it. */
  lemma {:induction false} PfTriesLeft(s: Sys, op: Op, timeout: nat, k: nat)
    requires s.pf.PIdle? && s.hw.vfu && !s.hw.pfu && k <= timeout && (op.Write? ==> |op.msg| <= 15)
    ensures var t := PfRun(Step(s, PfCall(op, timeout)), 2 * k);
      && t.pf.PTake? && t == s.(pf := PTake(t.pf.op, timeout - k))
      && t.pf.op == (if op.Read? then Read(Words(op.size)) else op)
    decreases k
  {
    if k > 0 {
      PfTriesLeft(s, op, timeout, k - 1);
      var a := PfRun(Step(s, PfCall(op, timeout)), 2 * (k - 1));
      PfRunMore(Step(s, PfCall(op, timeout)), 2 * (k - 1), 2);
      PfRunStep(a, 2);
      PfRunStep(PfMove(a), 1);
      PfRunNothing(PfMove(PfMove(a)));
    } else {
      PfRunNothing(Step(s, PfCall(op, timeout)));
    }
  }

  lemma PfRunNothing(s: Sys)
    ensures PfRun(s, 0) == s
  {}

  lemma {:induction false} PfRunMore(s: Sys, m: nat, n: nat)
    ensures PfRun(s, m + n) == PfRun(PfRun(s, m), n)
    decreases m
  {
    hide PfMove;
    if m > 0 {
      PfRunMore(PfMove(s), m - 1, n);
    }
  }

  lemma FreeMailboxIsTaken(s: Sys, op: Op, tries: nat)
    requires s.pf == PTake(op, tries) && tries > 0 && !s.hw.vfu
    ensures var t := PfMove(PfMove(s)); t.hw.pfu && PfInside(t.pf)
  {}

  /** The VF tries once. */
  lemma VfGivesUp(s: Sys, op: Op, n: nat)
    requires s.vf == VTake(op) && s.hw.pfu && Clean(s) && n >= 4
    ensures var t := VfRun(s, n);
      && t.vf == VIdle && !t.hw.vfu && PfSame(s, t) && t.transfers == s.transfers
      && t.hw.mem == s.hw.mem && t.shadow == Waiting(s)
  {
    hide Or, And, Without, VfRegister, VfRun;
    VfRunStep(s, n);
    var a := VfMove(s);
    VfSamples(a, ForLock(op), n - 1);
    ReadBits(a.hw, a.shadow, a.hw.mirror, CheckMsg);
    var val := Or(Or(VfRegister(a.hw), a.shadow), a.hw.mirror);
    var t := AfterRead(a.(hw := a.hw.(status := ZERO, mirror := ZERO), vf := VClear(ForLock(op), val),
                          signals := a.signals + [Sampled(MaskOf(ForLock(op)), a.hw.rsti)]), ForLock(op), val);
    VfIdles(t, n - 4);
  }

  // ----- in every interleaving

  lemma {:induction false} LastWriteStays(mem: Mem, ts: seq<Transfer>, i: nat, j: nat)
    requires i < j <= |ts| && ts[i].Wrote? && |ts[i].msg| <= SIZE && forall k | i < k < j :: ts[k].Got?
    ensures Buffer(mem, ts[..j])[..|ts[i].msg|] == ts[i].msg
    decreases j
  {
    assert ts[..j][..j - 1] == ts[..j - 1];
    if j > i + 1 {
      LastWriteStays(mem, ts, i, j - 1);
    }
  }

  /** However the sides interleave, a read completed after a write and before the next one returns the
      words of that write. */
  lemma ReadReturnsLastWrite(mem0: Mem, labels: seq<Label>, i: nat, j: nat)
    requires var ts := Run(Start(mem0), labels).transfers;
      i < j < |ts| && ts[i].Wrote? && |ts[i].msg| <= SIZE && ts[j].Got? && forall k | i < k < j :: ts[k].Got?
    ensures var ts := Run(Start(mem0), labels).transfers;
      ts[j].size <= |ts[i].msg| ==> ts[j].data == ts[i].msg[..ts[j].size]
  {
    hide Run, Buffer;
    TransfersAreNotTorn(mem0, labels);
    var ts := Run(Start(mem0), labels).transfers;
    LastWriteStays(mem0, ts, i, j);
    if ts[j].size <= |ts[i].msg| {
      var b := Buffer(mem0, ts[..j]);
      assert b[..ts[j].size] == b[..|ts[i].msg|][..ts[j].size];
    }
  }

  /** However the sides interleave, releasing the mailbox announces what was done in it: a PF write
      raises PFSTS, a PF read PFACK, a VF write a request, a VF read an acknowledgement; and no other
      event of the kind changes. */
  lemma ReleaseAnnounces(mem0: Mem, labels: seq<Label>)
    ensures var s := Run(Start(mem0), labels);
      && (s.pf.PRelease? ==>
            var t := Step(s, PfStep);
            && (Pending(t.signals).pfsts <==> Pending(s.signals).pfsts || s.pf.op.Write?)
            && (Pending(t.signals).pfack <==> Pending(s.signals).pfack || s.pf.op.Read?)
            && (Pending(t.signals).rstd <==> Pending(s.signals).rstd)
            && t.transfers == s.transfers + [if s.pf.op.Write? then Wrote(s.pf.op.msg) else Got(s.pf.op.size, s.pf.buf)])
      && (s.vf.VRelease? ==>
            var t := Step(s, VfStep);
            && (t.hw.req <==> s.hw.req || s.vf.op.Write?)
            && (t.hw.ack <==> s.hw.ack || s.vf.op.Read?)
            && t.transfers == s.transfers + [if s.vf.op.Write? then Wrote(s.vf.op.msg) else Got(s.vf.op.size, s.vf.buf)])
  {
    hide Run, Pending;
    var s := Run(Start(mem0), labels);
    if s.pf.PRelease? {
      Logged(s.signals, Raised(if s.pf.op.Write? then PFSTS else PFACK));
    }
  }

  /** The PF's events stay until the PF takes them. */
  lemma EventsStay(s: Sys, l: Label)
    ensures s.hw.req && !Step(s, l).hw.req ==> l == PfStep && (s.pf == PTaken(false) || (s.pf.PClearIcr? && !s.pf.forAck))
    ensures s.hw.ack && !Step(s, l).hw.ack ==> l == PfStep && (s.pf == PTaken(true) || (s.pf.PClearIcr? && s.pf.forAck))
  {
    hide PfMove, VfMove, Or;
    match l
    case PfStep => PfTakesEvents(s);
    case VfStep => VfLeavesEvents(s);
    case _ =>
  }

  lemma PfTakesEvents(s: Sys)
    ensures s.hw.req && !PfMove(s).hw.req ==> s.pf == PTaken(false) || (s.pf.PClearIcr? && !s.pf.forAck)
    ensures s.hw.ack && !PfMove(s).hw.ack ==> s.pf == PTaken(true) || (s.pf.PClearIcr? && s.pf.forAck)
  {
    hide Or;
  }

  lemma VfLeavesEvents(s: Sys)
    ensures s.hw.req ==> VfMove(s).hw.req
    ensures s.hw.ack ==> VfMove(s).hw.ack
  {
    hide Or, And, Without, VfRegister, AfterRead;
    if s.vf.VClear? {
      ReadOwner(s.(hw := s.hw.(mirror := ZERO)), s.vf.why, s.vf.val);
    }
  }
}
