/** Safety of the mailbox protocol over every interleaving: exclusive transfers that are never
    torn, and status bits that are never lost. */
module MailboxSafety {
  import opened Mailbox

  // ----- ownership

  predicate VfInside(pc: VfPc) {
    match pc
    case VCopy(_, _) => true
    case VRelease(_, _) => true
    case VSample(why) => why.ForFlushMsg? || why.ForFlushAck?
    case VMirror(why, _) => why.ForFlushMsg? || why.ForFlushAck?
    case VClear(why, _) => why.ForFlushMsg? || why.ForFlushAck?
    case _ => false
  }

  predicate PfInside(pc: PfPc) {
    pc.PReadIcr? || pc.PClearIcr? || pc.PCopy? || pc.PMirror? || pc.PRelease?
  }

  predicate OnlyR2C(b: Bits) {
    !b.req && !b.ack && !b.vfu && !b.pfu && !b.rsti
  }

  predicate OnlyMirror(b: Bits) {
    !b.vfu && !b.pfu && !b.pfsts && !b.pfack && !b.rsti && !b.rstd
  }

  /** The shadow and the hardware status hold only read-to-clear bits, the mirror word only the
      two PF flags. */
  predicate Clean(s: Sys) {
    OnlyR2C(s.shadow) && OnlyR2C(s.hw.status) && OnlyMirror(s.hw.mirror)
  }

  /** Ownership bits are exclusive and cover the critical sections; a VF that sees VFU in the
      combined word it read was granted it. */
  predicate Locks(s: Sys) {
    && !(s.hw.vfu && s.hw.pfu)
    && (PfInside(s.pf) ==> s.hw.pfu)
    && (VfInside(s.vf) ==> s.hw.vfu)
    && ((s.vf.VMirror? || s.vf.VClear?) && s.vf.why.ForLock? && s.vf.val.vfu ==> s.hw.vfu)
  }

  lemma PfKeepsClean(s: Sys)
    requires Clean(s)
    ensures Clean(PfMove(s))
  {
    match s.pf
    case PIdle =>
    case PTake(op, tries) =>
    case PTest(op, tries) =>
    case PReadIcr(m, forAck) =>
    case PClearIcr(m, forAck) =>
    case PCopy(op, buf) =>
    case PMirror(op, buf) =>
    case PRelease(op, buf) =>
    case PLook(forAck) =>
    case PTaken(forAck) =>
  }

  lemma ShadowStaysR2C(shadow: Bits, val: Bits, mask: Bits)
    requires OnlyR2C(shadow)
    ensures OnlyR2C(Or(shadow, And(val, R2C))) && OnlyR2C(Without(Or(shadow, And(val, R2C)), mask))
  {}

  lemma VfKeepsClean(s: Sys)
    requires Clean(s)
    ensures Clean(VfMove(s))
  {
    hide AfterRead, VfCopyWord, VfDone, VfRegister, Or;
    match s.vf
    case VIdle =>
    case VTake(op) =>
    case VSample(why) =>
    case VMirror(why, val) =>
    case VClear(why, val) => ReadKeepsClean(s.(hw := s.hw.(mirror := ZERO)), why, val);
    case VCopy(op, buf) => VfLeavesBits(s, op, buf);
    case VRelease(op, buf) => VfLeavesBits(s, op, buf);
  }

  lemma ReadKeepsClean(s: Sys, why: Why, val: Bits)
    requires Clean(s)
    ensures Clean(AfterRead(s, why, val))
  {
    hide Or, And, Without;
    ShadowStaysR2C(s.shadow, val, MaskOf(why));
  }

  lemma VfLeavesBits(s: Sys, op: Op, buf: Msg)
    ensures VfCopyWord(s, op, buf).shadow == VfDone(s, op, buf).shadow == s.shadow
    ensures VfCopyWord(s, op, buf).hw.status == VfDone(s, op, buf).hw.status == s.hw.status
    ensures VfCopyWord(s, op, buf).hw.mirror == VfDone(s, op, buf).hw.mirror == s.hw.mirror
  {}

  lemma PfKeepsLocks(s: Sys)
    requires Locks(s)
    ensures Locks(PfMove(s))
  {
    match s.pf
    case PIdle =>
    case PTake(op, tries) =>
    case PTest(op, tries) =>
    case PReadIcr(m, forAck) =>
    case PClearIcr(m, forAck) =>
    case PCopy(op, buf) =>
    case PMirror(op, buf) =>
    case PRelease(op, buf) =>
    case PLook(forAck) =>
    case PTaken(forAck) =>
  }

  lemma VfKeepsLocks(s: Sys)
    requires Locks(s) && Clean(s)
    ensures Locks(VfMove(s))
  {
    match s.vf
    case VIdle =>
    case VTake(op) =>
    case VSample(why) =>
    case VMirror(why, val) =>
    case VClear(why, val) =>
    case VCopy(op, buf) =>
    case VRelease(op, buf) =>
  }

  /** Every step of either process keeps ownership exclusive and the bits apart. */
  lemma StepKeepsOwnership(s: Sys, l: Label)
    requires Locks(s) && Clean(s)
    ensures Locks(Step(s, l)) && Clean(Step(s, l))
  {
    match l
    case PfCall(_, _) =>
    case PfCheck(_) =>
    case PfStep => PfKeepsLocks(s); PfKeepsClean(s);
    case VfCall(_) =>
    case VfCheck(_) =>
    case VfStep => VfKeepsLocks(s); VfKeepsClean(s);
    case RaiseRstd =>
    case SetRsti(_) =>
  }

  // ----- contents

  /** The buffer after a message was written over its first words. */
  function Overlay(mem: Mem, msg: Msg): Mem
    requires |msg| <= SIZE
  {
    msg + mem[|msg|..]
  }

  /** The buffer left by the completed writes, starting from `mem`. */
  function Buffer(mem: Mem, ts: seq<Transfer>): Mem {
    if ts == [] then mem
    else
      var before := Buffer(mem, ts[..|ts| - 1]);
      var t := ts[|ts| - 1];
      if t.Wrote? && |t.msg| <= SIZE then Overlay(before, t.msg) else before
  }

  /** Every completed read returned as many words as it was asked for, and they are those left by the
      writes completed before it. */
  predicate Untorn(mem: Mem, ts: seq<Transfer>) {
    forall p | 0 <= p < |ts| && ts[p].Got? ::
      ts[p].size <= SIZE && ts[p].data == Buffer(mem, ts[..p])[..ts[p].size]
  }

  predicate OpFits(op: Op) {
    if op.Write? then |op.msg| <= SIZE else op.size <= SIZE
  }

  /** A copy loop that moved `buf` so far; `whole` once it has finished. */
  predicate Copied(op: Op, buf: Msg, mem: Mem, whole: bool) {
    && OpFits(op)
    && (op.Write? ==> buf <= op.msg && (whole ==> buf == op.msg))
    && (op.Read? ==> |buf| <= op.size && buf == mem[..|buf|] && (whole ==> |buf| == op.size))
  }

  predicate PfCopyOk(pc: PfPc, mem: Mem) {
    match pc
    case PTake(op, _) => OpFits(op)
    case PTest(op, _) => OpFits(op)
    case PReadIcr(m, _) => |m| <= SIZE
    case PClearIcr(m, _) => |m| <= SIZE
    case PCopy(op, buf) => Copied(op, buf, mem, false)
    case PMirror(op, buf) => Copied(op, buf, mem, true)
    case PRelease(op, buf) => Copied(op, buf, mem, true)
    case PIdle => true
    case PLook(_) => true
    case PTaken(_) => true
  }

  predicate WhyOk(why: Why) {
    match why
    case ForLock(op) => OpFits(op)
    case ForFlushMsg(m) => |m| <= SIZE
    case ForFlushAck(m) => |m| <= SIZE
    case ForCheck(_) => true
  }

  predicate VfCopyOk(pc: VfPc, mem: Mem) {
    match pc
    case VTake(op) => OpFits(op)
    case VSample(why) => WhyOk(why)
    case VMirror(why, _) => WhyOk(why)
    case VClear(why, _) => WhyOk(why)
    case VCopy(op, buf) => Copied(op, buf, mem, false)
    case VRelease(op, buf) => Copied(op, buf, mem, true)
    case VIdle => true
  }

  /** The part of an unfinished message already in the buffer. */
  function Partial(s: Sys): Msg {
    if (s.pf.PCopy? || s.pf.PMirror? || s.pf.PRelease?) && s.pf.op.Write? then s.pf.buf
    else if (s.vf.VCopy? || s.vf.VRelease?) && s.vf.op.Write? then s.vf.buf
    else []
  }

  /** The buffer is what the completed writes left, overlaid with the unfinished message. */
  predicate Contents(mem0: Mem, s: Sys) {
    && PfCopyOk(s.pf, s.hw.mem)
    && VfCopyOk(s.vf, s.hw.mem)
    && |Partial(s)| <= SIZE
    && s.hw.mem == Overlay(Buffer(mem0, s.transfers), Partial(s))
    && Untorn(mem0, s.transfers)
  }

  lemma OverlayNext(mem: Mem, buf: Msg, w: nat)
    requires |buf| < SIZE
    ensures Overlay(mem, buf)[|buf| := w] == Overlay(mem, buf + [w])
  {}

  lemma OverlayNothing(mem: Mem)
    ensures Overlay(mem, []) == mem
  {}

  /** A finished transfer joins the history. */
  lemma Complete(mem0: Mem, ts: seq<Transfer>, t: Transfer)
    requires Untorn(mem0, ts)
    requires t.Got? ==> t.size <= SIZE && t.data == Buffer(mem0, ts)[..t.size]
    ensures Untorn(mem0, ts + [t])
    ensures t.Wrote? && |t.msg| <= SIZE ==> Buffer(mem0, ts + [t]) == Overlay(Buffer(mem0, ts), t.msg)
    ensures t.Got? ==> Buffer(mem0, ts + [t]) == Buffer(mem0, ts)
  {
    var ts' := ts + [t];
    assert ts'[..|ts'| - 1] == ts;
    forall p | 0 <= p < |ts'| && ts'[p].Got?
      ensures ts'[p].size <= SIZE && ts'[p].data == Buffer(mem0, ts'[..p])[..ts'[p].size]
    {
      assert ts'[..p] == if p < |ts| then ts[..p] else ts;
    }
  }

  lemma PfCopyKeeps(mem0: Mem, s: Sys, op: Op, buf: Msg)
    requires s.pf == PCopy(op, buf) && !VfInside(s.vf) && Contents(mem0, s)
    ensures Contents(mem0, PfCopyWord(s, op, buf))
  {
    hide Buffer, Untorn, Overlay, VfCopyOk;
    if op.Write? && |buf| < |op.msg| {
      OverlayNext(Buffer(mem0, s.transfers), buf, op.msg[|buf|]);
      OutsideIgnoresBuffer(s.pf, s.vf, s.hw.mem, PfCopyWord(s, op, buf).hw.mem);
    }
  }

  /** A side outside its critical section does not look at the buffer. */
  lemma OutsideIgnoresBuffer(pf: PfPc, vf: VfPc, mem: Mem, mem': Mem)
    ensures !VfInside(vf) && VfCopyOk(vf, mem) ==> VfCopyOk(vf, mem')
    ensures !PfInside(pf) && PfCopyOk(pf, mem) ==> PfCopyOk(pf, mem')
  {}

  lemma PfDoneKeeps(mem0: Mem, s: Sys, op: Op, buf: Msg)
    requires s.pf == PRelease(op, buf) && !VfInside(s.vf) && Contents(mem0, s)
    ensures Contents(mem0, PfDone(s, op, buf))
  {
    hide Buffer, Untorn, Overlay, VfCopyOk;
    OverlayNothing(Buffer(mem0, s.transfers));
    Complete(mem0, s.transfers, if op.Write? then Wrote(op.msg) else Got(op.size, buf));
    OverlayNothing(Buffer(mem0, PfDone(s, op, buf).transfers));
  }

  lemma PfKeepsContents(mem0: Mem, s: Sys)
    requires Locks(s) && Contents(mem0, s)
    ensures Contents(mem0, PfMove(s))
  {
    hide Buffer, Untorn, Overlay, PfCopyWord, PfDone, VfCopyOk;
    match s.pf
    case PIdle =>
    case PTake(op, tries) =>
    case PTest(op, tries) =>
    case PReadIcr(m, forAck) =>
    case PClearIcr(m, forAck) =>
    case PCopy(op, buf) => PfCopyKeeps(mem0, s, op, buf);
    case PMirror(op, buf) =>
    case PRelease(op, buf) => PfDoneKeeps(mem0, s, op, buf);
    case PLook(forAck) =>
    case PTaken(forAck) =>
  }

  lemma VfCopyKeeps(mem0: Mem, s: Sys, op: Op, buf: Msg)
    requires s.vf == VCopy(op, buf) && !PfInside(s.pf) && Contents(mem0, s)
    ensures Contents(mem0, VfCopyWord(s, op, buf))
  {
    hide Buffer, Untorn, Overlay, PfCopyOk;
    if op.Write? && |buf| < |op.msg| {
      OverlayNext(Buffer(mem0, s.transfers), buf, op.msg[|buf|]);
      OutsideIgnoresBuffer(s.pf, s.vf, s.hw.mem, VfCopyWord(s, op, buf).hw.mem);
    }
  }

  lemma VfDoneKeeps(mem0: Mem, s: Sys, op: Op, buf: Msg)
    requires s.vf == VRelease(op, buf) && !PfInside(s.pf) && Contents(mem0, s)
    ensures Contents(mem0, VfDone(s, op, buf))
  {
    hide Buffer, Untorn, Overlay, PfCopyOk;
    OverlayNothing(Buffer(mem0, s.transfers));
    Complete(mem0, s.transfers, if op.Write? then Wrote(op.msg) else Got(op.size, buf));
    OverlayNothing(Buffer(mem0, VfDone(s, op, buf).transfers));
  }

  lemma VfKeepsContents(mem0: Mem, s: Sys)
    requires Locks(s) && Contents(mem0, s)
    ensures Contents(mem0, VfMove(s))
  {
    hide Buffer, Untorn, Overlay, VfCopyWord, VfDone, PfCopyOk;
    match s.vf
    case VIdle =>
    case VTake(op) =>
    case VSample(why) =>
    case VMirror(why, val) =>
    case VClear(why, val) =>
    case VCopy(op, buf) => VfCopyKeeps(mem0, s, op, buf);
    case VRelease(op, buf) => VfDoneKeeps(mem0, s, op, buf);
  }

  lemma StepKeepsContents(mem0: Mem, s: Sys, l: Label)
    requires Locks(s) && Contents(mem0, s)
    ensures Contents(mem0, Step(s, l))
  {
    hide Buffer, Untorn, Overlay, Copied, PfMove, VfMove;
    match l
    case PfCall(_, _) =>
    case PfCheck(_) =>
    case PfStep => PfKeepsContents(mem0, s);
    case VfCall(_) =>
    case VfCheck(_) =>
    case VfStep => VfKeepsContents(mem0, s);
    case RaiseRstd =>
    case SetRsti(_) =>
  }

  // ----- status bits

  /** Bits raised and not yet taken by a check that looks for them. */
  function Pending(log: seq<Signal>): Bits {
    if log == [] then ZERO
    else PendingAfter(Pending(log[..|log| - 1]), log[|log| - 1])
  }

  function PendingAfter(p: Bits, e: Signal): Bits {
    match e
    case Raised(b) => Or(p, b)
    case Sampled(mask, _) => Without(p, mask)
    case Reported(_) => p
  }

  function RstiWord(on: bool): Bits {
    Bits(false, false, false, false, false, false, on, false)
  }

  /** What the last sampling owes its check: pending bits under its mask, and the RSTI level. */
  function Due(log: seq<Signal>): Bits {
    if log == [] then ZERO
    else
      var last := log[|log| - 1];
      var front := log[..|log| - 1];
      if last.Sampled? then And(Or(Pending(front), RstiWord(last.rsti)), last.mask) else Due(front)
  }

  /** Every check reported success exactly when something was due to it. */
  predicate ReportsRight(log: seq<Signal>) {
    log == [] ||
    (var last := log[|log| - 1];
     && ReportsRight(log[..|log| - 1])
     && (last.Reported? ==> (last.ok <==> Due(log[..|log| - 1]) != ZERO)))
  }

  /** Pending bits are in the hardware, in the shadow, or in the word just read. */
  predicate Kept(status: Bits, shadow: Bits, vf: VfPc, pending: Bits, due: Bits) {
    if vf.VMirror? || vf.VClear? then
      && pending == Or(status, Without(Or(shadow, And(vf.val, R2C)), MaskOf(vf.why)))
      && (!vf.why.ForLock? ==> due == And(vf.val, MaskOf(vf.why)))
    else pending == Or(status, shadow)
  }

  predicate SignalsOk(s: Sys) {
    && ReportsRight(s.signals)
    && Kept(s.hw.status, s.shadow, s.vf, Pending(s.signals), Due(s.signals))
  }

  lemma Logged(log: seq<Signal>, e: Signal)
    ensures Pending(log + [e]) == PendingAfter(Pending(log), e)
    ensures Due(log + [e]) == if e.Sampled? then And(Or(Pending(log), RstiWord(e.rsti)), e.mask) else Due(log)
    ensures ReportsRight(log + [e]) <==> ReportsRight(log) && (e.Reported? ==> (e.ok <==> Due(log) != ZERO))
  {
    assert (log + [e])[..|log + [e]| - 1] == log;
  }

  lemma RaiseKeeps(status: Bits, shadow: Bits, vf: VfPc, pending: Bits, due: Bits, b: Bits)
    requires Kept(status, shadow, vf, pending, due)
    ensures Kept(Or(status, b), shadow, vf, Or(pending, b), due)
  {
    OrSwap(status, b, shadow);
    if vf.VMirror? || vf.VClear? {
      OrSwap(status, b, Without(Or(shadow, And(vf.val, R2C)), MaskOf(vf.why)));
    }
  }

  lemma OrSwap(x: Bits, y: Bits, z: Bits)
    ensures Or(Or(x, y), z) == Or(Or(x, z), y)
  {}

  /** No sampling asks for the request, acknowledgement or ownership bits. */
  predicate IsMask(m: Bits) {
    !m.req && !m.ack && !m.vfu && !m.pfu
  }

  lemma MaskIsMask(why: Why)
    ensures IsMask(MaskOf(why))
  {}

  lemma SampleLeaves(hw: Hw, shadow: Bits, mask: Bits)
    requires OnlyR2C(hw.status) && OnlyR2C(shadow)
    ensures Without(Or(hw.status, shadow), mask)
         == Or(ZERO, Without(Or(shadow, And(Or(VfRegister(hw), shadow), R2C)), mask))
  {}

  lemma SampleSees(hw: Hw, shadow: Bits, mask: Bits)
    requires OnlyR2C(hw.status) && OnlyR2C(shadow) && IsMask(mask)
    ensures And(Or(Or(hw.status, shadow), RstiWord(hw.rsti)), mask) == And(Or(VfRegister(hw), shadow), mask)
  {}

  /** The read that clears the hardware bits puts them into the value read. */
  lemma SampleKeeps(hw: Hw, shadow: Bits, why: Why, pending: Bits)
    requires OnlyR2C(hw.status) && OnlyR2C(shadow) && pending == Or(hw.status, shadow)
    ensures Kept(ZERO, shadow, VMirror(why, Or(VfRegister(hw), shadow)), Without(pending, MaskOf(why)),
                 And(Or(pending, RstiWord(hw.rsti)), MaskOf(why)))
  {
    hide Or, And, Without, VfRegister, MaskOf, RstiWord;
    MaskIsMask(why);
    SampleLeaves(hw, shadow, MaskOf(why));
    SampleSees(hw, shadow, MaskOf(why));
  }

  /** The mirror word holds no bit that anyone samples. */
  lemma MirrorAddsNothing(val: Bits, mirror: Bits, mask: Bits)
    requires OnlyMirror(mirror) && IsMask(mask)
    ensures And(Or(val, mirror), mask) == And(val, mask)
  {}

  lemma MirrorKeeps(status: Bits, shadow: Bits, why: Why, val: Bits, mirror: Bits, pending: Bits, due: Bits)
    requires Kept(status, shadow, VMirror(why, val), pending, due) && OnlyMirror(mirror)
    ensures Kept(status, shadow, VClear(why, Or(val, mirror)), pending, due)
  {
    hide Or, And, Without, MaskOf;
    MaskIsMask(why);
    MirrorAddsNothing(val, mirror, MaskOf(why));
    MirrorAddsNothing(val, mirror, R2C);
  }

  lemma ClearKeeps(s: Sys, why: Why, val: Bits)
    requires SignalsOk(s) && s.vf == VClear(why, val)
    ensures SignalsOk(AfterRead(s, why, val))
  {
    var hit := And(val, MaskOf(why)) != ZERO;
    Logged(s.signals, Reported(hit));
    var seen := Or(s.shadow, And(val, R2C));
    assert why.ForLock? ==> Without(seen, MaskOf(why)) == seen;
  }

  /** Until it releases the mailbox the PF leaves the VF's bits alone. */
  lemma PfLeavesSignals(s: Sys)
    requires !s.pf.PRelease?
    ensures var s' := PfMove(s);
      s'.signals == s.signals && s'.hw.status == s.hw.status && s'.shadow == s.shadow && s'.vf == s.vf
  {
    hide PfDone, Or, PfReadIcr, PfClearIcr, PfCopyWord;
    match s.pf
    case PReadIcr(m, forAck) => FlushLeavesSignals(s, m, forAck);
    case PClearIcr(m, forAck) => FlushLeavesSignals(s, m, forAck);
    case PCopy(op, buf) => CopyLeavesSignals(s, op, buf);
    case _ =>
  }

  lemma FlushLeavesSignals(s: Sys, m: Msg, forAck: bool)
    ensures var t := PfReadIcr(s, m, forAck);
      t.signals == s.signals && t.hw.status == s.hw.status && t.shadow == s.shadow && t.vf == s.vf
    ensures var t := PfClearIcr(s, m, forAck);
      t.signals == s.signals && t.hw.status == s.hw.status && t.shadow == s.shadow && t.vf == s.vf
  {}

  lemma CopyLeavesSignals(s: Sys, op: Op, buf: Msg)
    ensures var t := PfCopyWord(s, op, buf);
      t.signals == s.signals && t.hw.status == s.hw.status && t.shadow == s.shadow && t.vf == s.vf
  {}

  lemma PfKeepsSignals(s: Sys)
    requires SignalsOk(s)
    ensures SignalsOk(PfMove(s))
  {
    if s.pf.PRelease? {
      PfDoneKeepsSignals(s, s.pf.op, s.pf.buf);
    } else {
      PfLeavesSignals(s);
    }
  }

  lemma PfDoneKeepsSignals(s: Sys, op: Op, buf: Msg)
    requires SignalsOk(s)
    ensures SignalsOk(PfDone(s, op, buf))
  {
    var bit := if op.Write? then PFSTS else PFACK;
    Logged(s.signals, Raised(bit));
    RaiseKeeps(s.hw.status, s.shadow, s.vf, Pending(s.signals), Due(s.signals), bit);
  }

  lemma SampleKeepsSignals(s: Sys, why: Why)
    requires Clean(s) && SignalsOk(s) && s.vf == VSample(why)
    ensures SignalsOk(VfMove(s))
  {
    Logged(s.signals, Sampled(MaskOf(why), s.hw.rsti));
    SampleKeeps(s.hw, s.shadow, why, Pending(s.signals));
  }

  /** Taking the lock, copying and releasing leave the VF's status bits alone. */
  lemma VfLeavesSignals(s: Sys)
    requires s.vf.VIdle? || s.vf.VTake? || s.vf.VCopy? || s.vf.VRelease?
    ensures var s' := VfMove(s);
      && s'.signals == s.signals && s'.hw.status == s.hw.status && s'.shadow == s.shadow
      && !s'.vf.VMirror? && !s'.vf.VClear?
  {}

  lemma VfKeepsSignals(s: Sys)
    requires Clean(s) && SignalsOk(s)
    ensures SignalsOk(VfMove(s))
  {
    if s.vf.VSample? {
      SampleKeepsSignals(s, s.vf.why);
    } else if s.vf.VMirror? {
      MirrorKeeps(s.hw.status, s.shadow, s.vf.why, s.vf.val, s.hw.mirror, Pending(s.signals), Due(s.signals));
    } else if s.vf.VClear? {
      ClearKeeps(s.(hw := s.hw.(mirror := ZERO)), s.vf.why, s.vf.val);
    } else {
      VfLeavesSignals(s);
    }
  }

  lemma StepKeepsSignals(s: Sys, l: Label)
    requires Clean(s) && SignalsOk(s)
    ensures SignalsOk(Step(s, l))
  {
    hide PfMove, VfMove, Or, And, Without, Pending, Due, ReportsRight;
    match l
    case PfCall(_, _) =>
    case PfCheck(_) =>
    case PfStep => PfKeepsSignals(s);
    case VfCall(_) =>
    case VfCheck(_) =>
    case VfStep => VfKeepsSignals(s);
    case RaiseRstd =>
      Logged(s.signals, Raised(RSTD));
      RaiseKeeps(s.hw.status, s.shadow, s.vf, Pending(s.signals), Due(s.signals), RSTD);
    case SetRsti(_) =>
  }

  // ----- every run

  predicate Safe(mem0: Mem, s: Sys) {
    Locks(s) && Clean(s) && Contents(mem0, s) && SignalsOk(s)
  }

  lemma {:induction false} RunKeepsSafe(mem0: Mem, s: Sys, labels: seq<Label>)
    requires Safe(mem0, s)
    ensures Safe(mem0, Run(s, labels))
    decreases |labels|
  {
    if labels != [] {
      var s' := Step(s, labels[0]);
      assert Locks(s') && Clean(s') by {
        StepKeepsOwnership(s, labels[0]);
      }
      assert Contents(mem0, s') by {
        StepKeepsContents(mem0, s, labels[0]);
      }
      assert SignalsOk(s') by {
        StepKeepsSignals(s, labels[0]);
      }
      RunKeepsSafe(mem0, s', labels[1..]);
    }
  }

  lemma EveryRunIsSafe(mem0: Mem, labels: seq<Label>)
    ensures Safe(mem0, Run(Start(mem0), labels))
  {
    OverlayNothing(mem0);
    RunKeepsSafe(mem0, Start(mem0), labels);
  }

  /** Transfers are never torn: in every interleaving the two copy loops are never active together,
      and each message returned by a read is, word for word, the buffer left by the writes
      completed before it. */
  lemma TransfersAreNotTorn(mem0: Mem, labels: seq<Label>)
    ensures var s := Run(Start(mem0), labels);
      && !(PfInside(s.pf) && VfInside(s.vf))
      && Untorn(mem0, s.transfers)
  {
    EveryRunIsSafe(mem0, labels);
  }

  predicate Within(a: Bits, b: Bits) {
    And(a, b) == a
  }

  /** A raised bit stays pending while no sampling asks for it. */
  lemma {:induction false} StaysPending(log: seq<Signal>, p: nat, b: Bits)
    requires p < |log| && log[p] == Raised(b)
    requires forall q | p < q < |log| && log[q].Sampled? :: And(log[q].mask, b) == ZERO
    ensures Within(b, Pending(log))
  {
    if p < |log| - 1 {
      var front := log[..|log| - 1];
      assert forall q | p < q < |front| && front[q].Sampled? :: And(front[q].mask, b) == ZERO;
      StaysPending(front, p, b);
      var last := log[|log| - 1];
      if last.Sampled? {
        KeepsOthers(b, Pending(front), last.mask);
      }
    }
  }

  lemma KeepsOthers(b: Bits, p: Bits, mask: Bits)
    requires Within(b, p) && And(mask, b) == ZERO
    ensures Within(b, Without(p, mask))
  {}

  /** No read-to-clear bit is lost: a bit raised at any moment, and not asked for by a check since,
      is still in the hardware register, in the shadow, or in the word the VF has just read. */
  lemma NoStatusBitIsLost(mem0: Mem, labels: seq<Label>, p: nat, b: Bits)
    requires var log := Run(Start(mem0), labels).signals;
      && p < |log| && log[p] == Raised(b)
      && forall q | p < q < |log| && log[q].Sampled? :: And(log[q].mask, b) == ZERO
    ensures var s := Run(Start(mem0), labels);
      var word := if s.vf.VMirror? || s.vf.VClear? then And(s.vf.val, R2C) else ZERO;
      Within(b, Or(Or(s.hw.status, s.shadow), word))
  {
    var s := Run(Start(mem0), labels);
    EveryRunIsSafe(mem0, labels);
    StaysPending(s.signals, p, b);
  }

  /** A check that asks for a pending bit reports success, whatever is raised meanwhile. */
  lemma PendingBitIsReported(mem0: Mem, labels: seq<Label>, q: nat, r: nat, b: Bits)
    requires var log := Run(Start(mem0), labels).signals;
      && q < r < |log| && log[q].Sampled? && log[r].Reported?
      && (forall x | q < x < r :: log[x].Raised?)
      && b != ZERO && Within(b, Pending(log[..q])) && Within(b, log[q].mask)
    ensures Run(Start(mem0), labels).signals[r].ok
  {
    hide Run, Locks, Clean, Contents, Kept;
    var log := Run(Start(mem0), labels).signals;
    EveryRunIsSafe(mem0, labels);
    PrefixReportsRight(log, r + 1);
    assert log[..r + 1][..r] == log[..r];
    DueWhileRaising(log, q, r);
    assert log[..q + 1][..q] == log[..q];
  }

  lemma {:induction false} DueWhileRaising(log: seq<Signal>, q: nat, r: nat)
    requires q < r <= |log| && forall x | q < x < r :: log[x].Raised?
    ensures Due(log[..r]) == Due(log[..q + 1])
    decreases r
  {
    if q + 1 < r {
      DueWhileRaising(log, q, r - 1);
      assert log[..r][..r - 1] == log[..r - 1];
    }
  }

  /** The shadow only ever holds read-to-clear bits and the mirror word only the two PF flags, so
      the word a VF lock attempt reads shows VFU only if the hardware granted it. */
  lemma VfLockIsReal(mem0: Mem, labels: seq<Label>)
    ensures var s := Run(Start(mem0), labels);
      && OnlyR2C(s.shadow) && OnlyMirror(s.hw.mirror)
      && (s.vf.VClear? && s.vf.why.ForLock? && s.vf.val.vfu ==> s.hw.vfu && !s.hw.pfu)
  {
    EveryRunIsSafe(mem0, labels);
  }

  lemma {:induction false} PrefixReportsRight(log: seq<Signal>, n: nat)
    requires ReportsRight(log) && n <= |log|
    ensures ReportsRight(log[..n])
    decreases |log|
  {
    if n == |log| {
      assert log[..n] == log;
    } else {
      PrefixReportsRight(log[..|log| - 1], n);
      assert log[..|log| - 1][..n] == log[..n];
    }
  }
}
