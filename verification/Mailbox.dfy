/** PF/VF mailbox (src/txgbe_mbx.c, src/txgbe_mbx.h) as two processes that take register-granular
    steps in any interleaving.

    Hardware assumptions, all inside the step functions below: an ownership bit is granted only
    while the other side's bit is clear; a write to the mailbox register without one's own
    ownership bit releases it; RSTD, PFSTS and PFACK clear when the VF reads its register; a PF
    write of STS or ACK raises PFSTS or PFACK for the VF. */
module Mailbox {
  const SIZE := 15

  /** The defined bits 0 to 7 of TXGBE_VXMAILBOX, lowest first. */
  datatype Bits = Bits(req: bool, ack: bool, vfu: bool, pfu: bool, pfsts: bool, pfack: bool, rsti: bool, rstd: bool)

  const ZERO := Bits(false, false, false, false, false, false, false, false)
  const PFSTS := Bits(false, false, false, false, true, false, false, false)
  const PFACK := Bits(false, false, false, false, false, true, false, false)
  const RSTD := Bits(false, false, false, false, false, false, false, true)
  const RST_BITS := Bits(false, false, false, false, false, false, true, true)
  /** The read-to-clear bits RSTD, PFSTS and PFACK. */
  const R2C := Bits(false, false, false, false, true, true, false, true)
  /** PXMAILBOX_STS and PXMAILBOX_ACK, bits 0 and 1, which the PF mirrors into word 15. */
  const MIRROR_STS := Bits(true, false, false, false, false, false, false, false)
  const MIRROR_ACK := Bits(false, true, false, false, false, false, false, false)

  /** `a | b` */
  function Or(a: Bits, b: Bits): Bits {
    Bits(a.req || b.req, a.ack || b.ack, a.vfu || b.vfu, a.pfu || b.pfu,
         a.pfsts || b.pfsts, a.pfack || b.pfack, a.rsti || b.rsti, a.rstd || b.rstd)
  }

  /** `a & b` */
  function And(a: Bits, b: Bits): Bits {
    Bits(a.req && b.req, a.ack && b.ack, a.vfu && b.vfu, a.pfu && b.pfu,
         a.pfsts && b.pfsts, a.pfack && b.pfack, a.rsti && b.rsti, a.rstd && b.rstd)
  }

  /** `a & ~b` */
  function Without(a: Bits, b: Bits): Bits {
    Bits(a.req && !b.req, a.ack && !b.ack, a.vfu && !b.vfu, a.pfu && !b.pfu,
         a.pfsts && !b.pfsts, a.pfack && !b.pfack, a.rsti && !b.rsti, a.rstd && !b.rstd)
  }

  type Msg = seq<nat>
  /** The fifteen message words of the mailbox memory. */
  type Mem = m: seq<nat> | |m| == SIZE witness seq(SIZE, _ => 0)

  // ----- state

  datatype Hw = Hw(vfu: bool, pfu: bool, status: Bits, rsti: bool, mem: Mem, mirror: Bits, req: bool, ack: bool)

  /** A transfer asked of either side; both sides share the shape. */
  datatype Op = Write(msg: Msg) | Read(size: nat)

  datatype Check = CheckMsg | CheckAck | CheckRst

  /** Why the VF is reading its mailbox register. */
  datatype Why = ForLock(op: Op) | ForCheck(check: Check) | ForFlushMsg(msg: Msg) | ForFlushAck(msg: Msg)

  datatype VfPc =
    | VIdle
    | VTake(op: Op)
    | VSample(why: Why)
    | VMirror(why: Why, val: Bits)
    | VClear(why: Why, val: Bits)
    | VCopy(op: Op, buf: Msg)
    | VRelease(op: Op, buf: Msg)

  datatype PfPc =
    | PIdle
    | PTake(op: Op, tries: nat)
    | PTest(op: Op, tries: nat)
    | PReadIcr(msg: Msg, forAck: bool)
    | PClearIcr(msg: Msg, forAck: bool)
    | PCopy(op: Op, buf: Msg)
    | PMirror(op: Op, buf: Msg)
    | PRelease(op: Op, buf: Msg)
    | PLook(forAck: bool)
    | PTaken(forAck: bool)

  /** What the PF's check for a request or an acknowledgement of the VF reported. */
  datatype PfReport = PfReport(forAck: bool, ok: bool)

  /** Completed transfers, in the order in which the mailbox was released; a read with the number of
      words it was asked for. */
  datatype Transfer = Wrote(msg: Msg) | Got(size: nat, data: Msg)

  /** What happened to the VF's status bits, in order. */
  datatype Signal = Raised(bits: Bits) | Sampled(mask: Bits, rsti: bool) | Reported(ok: bool)

  datatype Sys = Sys(
    hw: Hw,
    pf: PfPc,
    vf: VfPc,
    shadow: Bits,
    transfers: seq<Transfer>,
    signals: seq<Signal>,
    pfReports: seq<PfReport>)

  /** Who moves next. `RaiseRstd` and `SetRsti` are the device's reset signalling. */
  datatype Label =
    | PfCall(op: Op, timeout: nat)
    | PfCheck(forAck: bool)
    | PfStep
    | VfCall(op: Op)
    | VfCheck(check: Check)
    | VfStep
    | RaiseRstd
    | SetRsti(on: bool)

  // ----- masks

  function CheckMask(c: Check): Bits {
    match c
    case CheckMsg => PFSTS
    case CheckAck => PFACK
    case CheckRst => RST_BITS
  }

  function MaskOf(w: Why): Bits {
    match w
    case ForLock(_) => ZERO
    case ForCheck(c) => CheckMask(c)
    case ForFlushMsg(_) => PFSTS
    case ForFlushAck(_) => PFACK
  }

  function VfRegister(hw: Hw): Bits {
    Or(hw.status, Bits(false, false, hw.vfu, hw.pfu, false, false, hw.rsti, false))
  }

  /** txgbe_write_mbx refuses a longer message; txgbe_read_mbx shortens the read. */
  predicate Refused(op: Op) {
    op.Write? && |op.msg| > SIZE
  }

  function Bounded(op: Op): Op {
    if op.Read? && op.size > SIZE then Read(SIZE) else op
  }

  // ----- the VF process

  /** Where a completed register read goes: shadow, program counter, and the report of a check. */
  function AfterRead(s: Sys, why: Why, val: Bits): Sys {
    var seen := Or(s.shadow, And(val, R2C));
    var hit := And(val, MaskOf(why)) != ZERO;
    match why
    case ForLock(op) =>
      s.(shadow := seen,
         vf := if !val.vfu then VIdle
               else if op.Write? then VSample(ForFlushMsg(op.msg)) else VCopy(op, []))
    case ForCheck(c) =>
      s.(shadow := Without(seen, MaskOf(why)), vf := VIdle, signals := s.signals + [Reported(hit)])
    case ForFlushMsg(m) =>
      s.(shadow := Without(seen, MaskOf(why)), vf := VSample(ForFlushAck(m)), signals := s.signals + [Reported(hit)])
    case ForFlushAck(m) =>
      s.(shadow := Without(seen, MaskOf(why)), vf := VCopy(Write(m), []), signals := s.signals + [Reported(hit)])
  }

  /** Copy loops: one word per step. */
  function VfCopyWord(s: Sys, op: Op, buf: Msg): Sys {
    if op.Write? then
      if |buf| < |op.msg| && |buf| < SIZE then
        s.(hw := s.hw.(mem := s.hw.mem[|buf| := op.msg[|buf|]]), vf := VCopy(op, buf + [op.msg[|buf|]]))
      else s.(vf := VRelease(op, buf))
    else
      if |buf| < op.size && |buf| < SIZE then s.(vf := VCopy(op, buf + [s.hw.mem[|buf|]]))
      else s.(vf := VRelease(op, buf))
  }

  /** Drop VFU and raise the request or the acknowledgement towards the PF. */
  function VfDone(s: Sys, op: Op, buf: Msg): Sys {
    if op.Write? then
      s.(hw := s.hw.(vfu := false, req := true), vf := VIdle, transfers := s.transfers + [Wrote(op.msg)])
    else
      s.(hw := s.hw.(vfu := false, ack := true), vf := VIdle, transfers := s.transfers + [Got(op.size, buf)])
  }

  function VfMove(s: Sys): Sys {
    match s.vf
    case VIdle => s
    case VTake(op) => s.(hw := s.hw.(vfu := !s.hw.pfu), vf := VSample(ForLock(op)))
    case VSample(why) =>
      s.(hw := s.hw.(status := ZERO), vf := VMirror(why, Or(VfRegister(s.hw), s.shadow)),
         signals := s.signals + [Sampled(MaskOf(why), s.hw.rsti)])
    case VMirror(why, val) => s.(vf := VClear(why, Or(val, s.hw.mirror)))
    case VClear(why, val) => AfterRead(s.(hw := s.hw.(mirror := ZERO)), why, val)
    case VCopy(op, buf) => VfCopyWord(s, op, buf)
    case VRelease(op, buf) => VfDone(s, op, buf)
  }

  // ----- the PF process

  /** The flush of a pending request or ack, read then write-one-to-clear. */
  function PfReadIcr(s: Sys, m: Msg, forAck: bool): Sys {
    if (if forAck then s.hw.ack else s.hw.req) then s.(pf := PClearIcr(m, forAck))
    else s.(pf := if forAck then PCopy(Write(m), []) else PReadIcr(m, true))
  }

  function PfClearIcr(s: Sys, m: Msg, forAck: bool): Sys {
    if forAck then s.(hw := s.hw.(ack := false), pf := PCopy(Write(m), []))
    else s.(hw := s.hw.(req := false), pf := PReadIcr(m, true))
  }

  function PfCopyWord(s: Sys, op: Op, buf: Msg): Sys {
    if op.Write? then
      if |buf| < |op.msg| && |buf| < SIZE then
        s.(hw := s.hw.(mem := s.hw.mem[|buf| := op.msg[|buf|]]), pf := PCopy(op, buf + [op.msg[|buf|]]))
      else s.(pf := PMirror(op, buf))
    else
      if |buf| < op.size && |buf| < SIZE then s.(pf := PCopy(op, buf + [s.hw.mem[|buf|]]))
      else s.(pf := PMirror(op, buf))
  }

  /** Write STS or ACK, which drops PFU and raises PFSTS or PFACK for the VF. */
  function PfDone(s: Sys, op: Op, buf: Msg): Sys {
    var bit := if op.Write? then PFSTS else PFACK;
    s.(hw := s.hw.(pfu := false, status := Or(s.hw.status, bit)), pf := PIdle,
       transfers := s.transfers + [if op.Write? then Wrote(op.msg) else Got(op.size, buf)],
       signals := s.signals + [Raised(bit)])
  }

  function PfMove(s: Sys): Sys {
    match s.pf
    case PIdle => s
    case PTake(op, tries) =>
      if tries == 0 then s.(pf := PIdle)
      else s.(hw := s.hw.(pfu := !s.hw.vfu), pf := PTest(op, tries - 1))
    case PTest(op, tries) =>
      if !s.hw.pfu then s.(pf := PTake(op, tries))
      else if op.Write? then s.(pf := PReadIcr(op.msg, false)) else s.(pf := PCopy(op, []))
    case PReadIcr(m, forAck) => PfReadIcr(s, m, forAck)
    case PClearIcr(m, forAck) => PfClearIcr(s, m, forAck)
    case PCopy(op, buf) => PfCopyWord(s, op, buf)
    case PMirror(op, buf) =>
      s.(hw := s.hw.(mirror := if op.Write? then MIRROR_STS else MIRROR_ACK), pf := PRelease(op, buf))
    case PRelease(op, buf) => PfDone(s, op, buf)
    case PLook(forAck) =>
      if (if forAck then s.hw.ack else s.hw.req) then s.(pf := PTaken(forAck))
      else s.(pf := PIdle, pfReports := s.pfReports + [PfReport(forAck, false)])
    case PTaken(forAck) =>
      s.(hw := if forAck then s.hw.(ack := false) else s.hw.(req := false), pf := PIdle,
         pfReports := s.pfReports + [PfReport(forAck, true)])
  }

  // ----- runs

  function Step(s: Sys, l: Label): Sys
  {
    match l
    case PfCall(op, timeout) =>
      if s.pf.PIdle? && !Refused(op) then s.(pf := PTake(Bounded(op), timeout)) else s
    case PfCheck(forAck) => if s.pf.PIdle? then s.(pf := PLook(forAck)) else s
    case PfStep => PfMove(s)
    case VfCall(op) =>
      if s.vf.VIdle? && !Refused(op) then s.(vf := VTake(Bounded(op))) else s
    case VfCheck(c) => if s.vf.VIdle? then s.(vf := VSample(ForCheck(c))) else s
    case VfStep => VfMove(s)
    case RaiseRstd => s.(hw := s.hw.(status := Or(s.hw.status, RSTD)), signals := s.signals + [Raised(RSTD)])
    case SetRsti(on) => s.(hw := s.hw.(rsti := on))
  }

  function Run(s: Sys, labels: seq<Label>): Sys
    decreases |labels|
  {
    if labels == [] then s else Run(Step(s, labels[0]), labels[1..])
  }

  function Start(mem: Mem): Sys {
    Sys(Hw(false, false, ZERO, false, mem, ZERO, false, false), PIdle, VIdle, ZERO, [], [], [])
  }
}
