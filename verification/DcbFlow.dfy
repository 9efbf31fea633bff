/** The parts of the DCB configuration beside the arbiters: the port control word
    (src/txgbe_dcb.c:597-650) and priority flow control (src/txgbe_dcb.c:341-411). */
module DcbFlow {
  import opened Bits
  import opened DcbCredits

  const WORD := 0x1_0000_0000

  // ----- the port control word

  const D_VLAN: nat := 0
  const QINQ: nat := 2
  const DCB_EN: nat := 10
  const NUM_TC_8: nat := 11
  const NUM_VT_LOW: nat := 12
  const NUM_VT_HIGH: nat := 13

  /** What a register read returns when the device is gone. */
  const FAILED_READ: nat := 0xffff_ffff

  /** The fields txgbe_dcb_config writes. */
  const PORT_FIELDS: seq<nat> := [NUM_TC_8, NUM_VT_LOW, NUM_VT_HIGH, DCB_EN, D_VLAN, QINQ]

  /** The pool count code: 0 for none, 1, 2 and 3 for 16, 32 and 64 pools. */
  function PoolCode(vt: bool, tcs: nat, rss: nat): nat {
    if !vt then 0 else if tcs == 8 then 1 else if tcs == 4 then 2 else if rss == 4 then 2 else 3
  }

  /** The pools of a code share the device's 128 queues: eight queues each with eight classes, four with
      four classes or four RSS queues, else two; without virtualisation there are none. */
  lemma PoolCodeMeans(tcs: nat, rss: nat)
    ensures PoolCode(false, tcs, rss) == 0
    ensures var pools := 8 * Pow2(PoolCode(true, tcs, rss));
      pools * (if tcs == 8 then 8 else if tcs == 4 || rss == 4 then 4 else 2) == 128
  {}

  /** What each field says. */
  predicate PortBit(vt: bool, tcs: nat, rss: nat, n: nat) {
    || n == D_VLAN
    || n == QINQ
    || (n == DCB_EN && (tcs == 4 || tcs == 8))
    || (n == NUM_TC_8 && tcs == 8)
    || (n == NUM_VT_LOW && (PoolCode(vt, tcs, rss) == 1 || PoolCode(vt, tcs, rss) == 3))
    || (n == NUM_VT_HIGH && PoolCode(vt, tcs, rss) >= 2)
  }

  /** As numbers: bit 10 enables DCB for four or eight classes, bit 11 tells eight from four, bits 12 and 13
      hold the pool code, and bits 0 and 2 are always set. */
  lemma PortBitsMean(vt: bool, tcs: nat, rss: nat)
    ensures PortBit(vt, tcs, rss, 0) && PortBit(vt, tcs, rss, 2)
    ensures PortBit(vt, tcs, rss, 10) <==> tcs == 4 || tcs == 8
    ensures PortBit(vt, tcs, rss, 11) <==> tcs == 8
    ensures Bit(PortBit(vt, tcs, rss, 12)) + 2 * Bit(PortBit(vt, tcs, rss, 13)) == PoolCode(vt, tcs, rss)
  {}

  /** The port control register, the adapter's VMDq flag and the queue drop registers. */
  class Port {
    var ctl: nat
    var vmdq: bool
    const drop: array<nat>

    constructor (ctl: nat, drop: array<nat>)
      ensures this.ctl == ctl && this.drop == drop
    {
      this.ctl, this.drop, this.vmdq := ctl, drop, false;
    }

    /** wr32m: write the bits of a mask and no others, unless the device is gone. */
    method WriteMasked(mask: nat, field: nat)
      requires mask < Pow2(32)
      modifies this`ctl
      ensures old(ctl) == FAILED_READ ==> ctl == FAILED_READ
      ensures old(ctl) != FAILED_READ ==> forall n | 0 <= n < 32 ::
        TestBit(ctl, n) == if TestBit(mask, n) then TestBit(field, n) else TestBit(old(ctl), n)
    {
      hide And, Or, Not, TestBit, Pow2;
      var val := ctl;
      if val == FAILED_READ {
        return;
      }
      ctl := Or(And(val, Not(mask, 32)), And(field, mask));
      forall n | 0 <= n < 32
        ensures TestBit(ctl, n) == if TestBit(mask, n) then TestBit(field, n) else TestBit(val, n)
      {
        TestBitOr(And(val, Not(mask, 32)), And(field, mask), n);
        TestBitAnd(val, Not(mask, 32), n);
        TestBitAnd(field, mask, n);
        TestBitNot(mask, 32, n);
      }
    }

    /** txgbe_dcb_config: every field says what the configuration asks, every other bit of the
        register stays, and no queue drops. */
    method DcbConfig(vt: bool, tcs: nat, rss: nat)
      requires drop.Length == 4
      modifies this, drop
      ensures vmdq == vt && forall i | 0 <= i < 4 :: drop[i] == 0
      ensures old(ctl) == FAILED_READ ==> ctl == FAILED_READ
      ensures old(ctl) != FAILED_READ ==> forall n | 0 <= n < 32 ::
        TestBit(ctl, n) == if n in PORT_FIELDS then PortBit(vt, tcs, rss, n) else TestBit(old(ctl), n)
    {
      hide WordOf, TestBit;
      vmdq := vt;
      var value: seq<nat>;
      if vmdq {
        if tcs == 8 {
          value := [NUM_TC_8, NUM_VT_LOW, DCB_EN];
        } else if tcs == 4 {
          value := [NUM_VT_HIGH, DCB_EN];
        } else if rss == 4 {
          value := [NUM_VT_HIGH];
        } else {
          value := [NUM_VT_LOW, NUM_VT_HIGH];
        }
      } else {
        if tcs == 8 {
          value := [NUM_TC_8, DCB_EN];
        } else if tcs == 4 {
          value := [DCB_EN];
        } else {
          value := [];
        }
      }
      value := value + [D_VLAN, QINQ];
      assert forall n: nat :: n in value <==> PortBit(vt, tcs, rss, n);
      forall n: nat
        ensures TestBit(WordOf(value), n) <==> n in value
        ensures TestBit(WordOf(PORT_FIELDS), n) <==> n in PORT_FIELDS
      {
        WordOfBits(value, n);
        WordOfBits(PORT_FIELDS, n);
      }
      WordOfBound(PORT_FIELDS, 32);
      WriteMasked(WordOf(PORT_FIELDS), WordOf(value));
      ghost var written := ctl;
      for n := 0 to 4
        invariant ctl == written && vmdq == vt
        invariant forall i | 0 <= i < n :: drop[i] == 0
      {
        drop[n] := 0;
      }
    }
  }

  // ----- priority flow control

  const ERR_PARAM: int := -105

  /** Some priority of class i has its bit set. */
  predicate ClassPaused(pfc: nat, map_: seq<nat>, i: nat) {
    exists j :: 0 <= j < |map_| && map_[j] == i && TestBit(pfc, j)
  }

  /** Class i does not exceed the highest class a priority maps to. */
  predicate ClassUsed(map_: seq<nat>, i: nat) {
    exists j :: 0 <= j < |map_| && i <= map_[j]
  }

  method AnyPaused(pfc: nat, map_: seq<nat>, i: nat) returns (on: bool)
    requires |map_| == 8
    ensures on <==> ClassPaused(pfc, map_, i)
  {
    hide And, Shl, TestBit;
    on := false;
    for j := 0 to 8
      invariant !on && forall k | 0 <= k < j :: !(map_[k] == i && TestBit(pfc, k))
    {
      AndOneBit(pfc, j);
      if map_[j] == i && And(pfc, Shl(1, j)) != 0 {
        on := true;
        return;
      }
    }
  }

  /** A water mark in KB with its enable bit, kept to 32 bits. */
  function MarkWord(mark: nat): nat {
    Or(Shl(mark, 10) % WORD, 0x8000_0000)
  }

  /** The pause time, for two classes in one word. */
  function PauseWord(time: nat): nat {
    Or(time, Shl(time, 16))
  }

  lemma Pow2More()
    ensures Pow2(0) == 1 && Pow2(10) == 0x400 && Pow2(21) == 0x20_0000
  {
    Pow2Values();
    Pow2Next(9);
    Pow2Next(18);
    Pow2Next(19);
    Pow2Next(20);
  }

  /** The water mark word decodes exactly for marks below 2^21. */
  lemma MarkDecodes(mark: nat)
    ensures Field(MarkWord(mark), 10, 21) == mark && Field(MarkWord(mark), 31, 1) == 1 <==> mark < 0x20_0000
  {
    hide Or, Shl, Pow2, Field;
    Pow2Values();
    Pow2More();
    var w := MarkWord(mark);
    if mark < 0x20_0000 {
      ShlIsMul(mark, 10);
      DivModUnique(Shl(mark, 10), WORD, 0, Shl(mark, 10));
      ShlIsMul(1, 31);
      OrShl(Shl(mark, 10), 1, 31, 0x8000_0000);
      FieldAt(w, 10, 21, 0, mark, 1);
      FieldAt(w, 31, 1, 0x400 * mark, 1, 0);
    } else {
      FieldBound(w, 10, 21);
    }
  }

  /** Both halves hold the pause time. */
  lemma PauseDecodes(time: nat)
    requires time < 0x1_0000
    ensures Field(PauseWord(time), 0, 16) == time && Field(PauseWord(time), 16, 16) == time
  {
    hide Or, Shl, Pow2, Field;
    Pow2Values();
    Pow2More();
    OrShl(time, time, 16, 0x1_0000);
    var w := PauseWord(time);
    FieldAt(w, 0, 16, 0, time, time);
    FieldAt(w, 16, 16, time, time, 0);
  }

  /** Flow control settings and registers. */
  class FlowControl {
    const high: seq<nat>
    const low: seq<nat>
    const pause: nat
    const bufferSize: seq<nat>
    const rfch: array<nat>
    const rfcl: array<nat>
    const rfcv: array<nat>
    var rfcc: nat
    var rxFlow: nat
    var rfcrt: nat

    constructor (high: seq<nat>, low: seq<nat>, pause: nat, bufferSize: seq<nat>,
                 rfch: array<nat>, rfcl: array<nat>, rfcv: array<nat>)
      ensures this.high == high && this.low == low && this.pause == pause && this.bufferSize == bufferSize
      ensures this.rfch == rfch && this.rfcl == rfcl && this.rfcv == rfcv
    {
      this.high, this.low, this.pause, this.bufferSize := high, low, pause, bufferSize;
      this.rfch, this.rfcl, this.rfcv := rfch, rfcl, rfcv;
    }

    ghost predicate Valid() {
      && |high| == |low| == |bufferSize| == CLASSES && pause < 0x1_0000
      && rfch.Length == rfcl.Length == CLASSES && rfcv.Length == 4
      && rfch != rfcl && rfch != rfcv && rfcl != rfcv
    }

    /** What the high-water register of class i holds. */
    function HighOf(pfc: nat, map_: seq<nat>, i: nat): nat
      requires i < |high| && i < |bufferSize|
    {
      if ClassPaused(pfc, map_, i) then MarkWord(high[i]) else if ClassUsed(map_, i) then bufferSize[i] else 0
    }

    /** txgbe_dcb_config_pfc. The low-water word of a paused class goes to its high-water register and
        is overwritten there, so its low-water register keeps what it held; the result is an error. */
    method ConfigPfc(pfc: nat, map_: seq<nat>) returns (ret: int)
      requires Valid() && |map_| == 8 && forall j | 0 <= j < 8 :: map_[j] < CLASSES
      modifies this`rfcc, this`rxFlow, this`rfcrt, rfch, rfcl, rfcv
      ensures ret == ERR_PARAM
      ensures rfcc == 0x10 && rxFlow == (if pfc != 0 then 0x101 else 0) && rfcrt == pause / 2
      ensures forall i | 0 <= i < CLASSES :: rfch[i] == HighOf(pfc, map_, i)
      ensures forall i | 0 <= i < CLASSES :: rfcl[i] == if ClassPaused(pfc, map_, i) then old(rfcl[i]) else 0
      ensures forall i | 0 <= i < 4 :: rfcv[i] == PauseWord(pause)
    {
      hide MarkWord, PauseWord, TestBit;
      ret := ERR_PARAM;
      rfcc := 0x10;
      rxFlow := if pfc != 0 then 0x101 else 0;
      var maxTc := 0;
      for j := 0 to 8
        invariant 0 <= maxTc < CLASSES && (forall k | 0 <= k < j :: map_[k] <= maxTc)
        invariant maxTc in map_ || maxTc == 0
      {
        if map_[j] > maxTc {
          maxTc := map_[j];
        }
      }
      assert forall i | 0 <= i < CLASSES :: ClassUsed(map_, i) <==> i <= maxTc by {
        UsedUpTo(map_, maxTc);
      }
      ConfigMarks(pfc, map_, maxTc);
      for i := 0 to 4
        invariant forall k | 0 <= k < i :: rfcv[k] == PauseWord(pause)
        invariant forall k | 0 <= k < CLASSES :: rfch[k] == HighOf(pfc, map_, k)
        invariant forall k | 0 <= k < CLASSES :: rfcl[k] == if ClassPaused(pfc, map_, k) then old(rfcl[k]) else 0
        invariant rfcc == 0x10 && rxFlow == if pfc != 0 then 0x101 else 0
      {
        rfcv[i] := PauseWord(pause);
      }
      rfcrt := pause / 2;
    }

    /** The two threshold loops. */
    method ConfigMarks(pfc: nat, map_: seq<nat>, maxTc: nat)
      requires Valid() && |map_| == 8 && maxTc < CLASSES
      requires forall i | 0 <= i < CLASSES :: ClassUsed(map_, i) <==> i <= maxTc
      modifies rfch, rfcl
      ensures forall i | 0 <= i < CLASSES :: rfch[i] == HighOf(pfc, map_, i)
      ensures forall i | 0 <= i < CLASSES :: rfcl[i] == if ClassPaused(pfc, map_, i) then old(rfcl[i]) else 0
    {
      hide MarkWord, ClassUsed;
      for i := 0 to maxTc + 1
        invariant forall k | 0 <= k < i :: rfch[k] == HighOf(pfc, map_, k)
        invariant forall k | 0 <= k < i :: rfcl[k] == if ClassPaused(pfc, map_, k) then old(rfcl[k]) else 0
        invariant forall k | i <= k < CLASSES :: rfcl[k] == old(rfcl[k])
      {
        var enabled := AnyPaused(pfc, map_, i);
        var reg;
        if enabled {
          reg := MarkWord(high[i]);
          rfch[i] := MarkWord(low[i]);
        } else {
          reg := bufferSize[i];
          rfcl[i] := 0;
        }
        rfch[i] := reg;
      }
      forall i | maxTc < i < CLASSES ensures !ClassPaused(pfc, map_, i) {
        UnusedIsNotPaused(pfc, map_, i);
      }
      for i := maxTc + 1 to CLASSES
        invariant forall k | 0 <= k < i :: rfch[k] == HighOf(pfc, map_, k)
        invariant forall k | 0 <= k < i :: rfcl[k] == if ClassPaused(pfc, map_, k) then old(rfcl[k]) else 0
      {
        rfcl[i] := 0;
        rfch[i] := 0;
      }
    }
  }

  lemma UsedUpTo(map_: seq<nat>, maxTc: nat)
    requires |map_| == 8 && (forall k | 0 <= k < 8 :: map_[k] <= maxTc) && (maxTc in map_ || maxTc == 0)
    ensures forall i: nat :: ClassUsed(map_, i) <==> i <= maxTc
  {
    assert map_[0] >= 0;
    var j :| 0 <= j < 8 && map_[j] >= maxTc;
    forall i: nat | i <= maxTc ensures ClassUsed(map_, i) {
      assert i <= map_[j];
    }
  }

  lemma UnusedIsNotPaused(pfc: nat, map_: seq<nat>, i: nat)
    requires !ClassUsed(map_, i)
    ensures !ClassPaused(pfc, map_, i)
  {}
}
