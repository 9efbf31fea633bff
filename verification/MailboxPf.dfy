/** The PF's per-VF event registers (src/txgbe_mbx.c:485-573): requests and acks of sixteen VFs share
    one MBVFICR word, function-level resets of thirty-two VFs share one VFLRE word, and all of them
    are write-one-to-clear. */
module MailboxPf {
  import opened Bits

  const VFS := 64

  datatype Event = VfReq(vf: nat) | VfAck(vf: nat) | VfRst(vf: nat)

  /** Register number and bit of an event; registers 0-3 are MBVFICR(0-3), 4-5 are VFLRE(0-1). */
  function Register(e: Event): nat {
    match e
    case VfReq(vf) => vf / 16
    case VfAck(vf) => vf / 16
    case VfRst(vf) => 4 + (if vf < 32 then 0 else 1)
  }

  function BitOf(e: Event): (b: nat)
    ensures b < 32
  {
    match e
    case VfReq(vf) => vf % 16
    case VfAck(vf) => 16 + vf % 16
    case VfRst(vf) => vf % 32
  }

  /** No two events of the 64 VFs share a bit. */
  lemma EventBitsAreDistinct(e: Event, f: Event)
    requires e.vf < VFS && f.vf < VFS
    requires Register(e) == Register(f) && BitOf(e) == BitOf(f)
    ensures e == f
  {
    assert forall v | 0 <= v < VFS :: v == 16 * (v / 16) + v % 16 && v / 16 < 4;
    assert forall v | 0 <= v < VFS :: v == 32 * (if v < 32 then 0 else 1) + v % 32;
  }

  /** Sixteen VFs share a word: requests in the lower half, acknowledgements in the upper; thirty-two share
      a word of resets. The VF is read back from register and bit. */
  lemma EventPlaces(vf: nat)
    requires vf < VFS
    ensures 16 * Register(VfReq(vf)) + BitOf(VfReq(vf)) == vf && BitOf(VfReq(vf)) < 16 && Register(VfReq(vf)) < 4
    ensures 16 * Register(VfAck(vf)) + BitOf(VfAck(vf)) == vf + 16 && BitOf(VfAck(vf)) >= 16 && Register(VfAck(vf)) < 4
    ensures 32 * (Register(VfRst(vf)) - 4) + BitOf(VfRst(vf)) == vf && 4 <= Register(VfRst(vf)) < 6
  {}

  /** As the masks of the header say. */
  lemma EventMasks(vf: nat)
    requires vf < VFS
    ensures And(Shl(1, BitOf(VfReq(vf))), 0x0000_FFFF) == Shl(1, BitOf(VfReq(vf)))
    ensures And(Shl(1, BitOf(VfAck(vf))), 0x0000_FFFF) == 0
  {
    hide And, Shl, Pow2;
    Pow2Values();
    EventPlaces(vf);
    var r, a := BitOf(VfReq(vf)), BitOf(VfAck(vf));
    ShlBound(r, 16);
    Mask(Shl(1, r), 16, 0xFFFF);
    Mask(Shl(1, a), 16, 0xFFFF);
    ShlIsMul(1, a);
    Pow2Sum(16, a - 16);
    DivModUnique(Shl(1, a), 0x1_0000, Pow2(a - 16), 0);
  }

  /** The event's bit is among those raised. */
  predicate Raised(raised: seq<nat>, e: Event)
    requires |raised| == 6 && e.vf < VFS
  {
    TestBit(raised[Register(e)], BitOf(e))
  }

  class PfEvents {
    var regs: seq<nat>
    var reqs: nat
    var acks: nat
    var rsts: nat

    ghost predicate Valid()
      reads this
    {
      |regs| == 6
    }

    /** The event's bit is set. */
    ghost predicate Pending(e: Event)
      requires Valid() && e.vf < VFS
      reads this
    {
      TestBit(regs[Register(e)], BitOf(e))
    }

    /** The device sets the bits of `raised` at any moment. */
    method DeviceRaises(raised: seq<nat>)
      requires Valid() && |raised| == 6
      modifies this`regs
      ensures Valid()
      ensures forall k | 0 <= k < 6 :: regs[k] == Or(old(regs)[k], raised[k])
    {
      var now := regs;
      regs := seq(6, k requires 0 <= k < 6 => Or(now[k], raised[k]));
    }

    /** txgbe_check_for_bit_pf, and the same sequence on VFLRE and VFLREC: read, then write one to
        clear. `raised` are the bits the device sets between the two accesses. */
    method CheckForBit(e: Event, raised: seq<nat>) returns (hit: bool)
      requires Valid() && e.vf < VFS && |raised| == 6
      modifies this`regs
      ensures Valid()
      ensures hit <==> old(Pending(e))
      ensures Pending(e) <==> !hit && Raised(raised, e)
      ensures forall f: Event | f.vf < VFS && f != e :: Pending(f) <==> old(Pending(f)) || Raised(raised, f)
    {
      hide And, Or, Shl, TestBit;
      var index, bit := Register(e), BitOf(e);
      var reg := regs[index];
      AndOneBit(reg, bit);
      hit := And(reg, Shl(1, bit)) != 0;
      ghost var before := regs;
      DeviceRaises(raised);
      ghost var between := regs;
      forall f: Event | f.vf < VFS
        ensures TestBit(between[Register(f)], BitOf(f))
           <==> TestBit(before[Register(f)], BitOf(f)) || Raised(raised, f)
      {
        TestBitOr(before[Register(f)], raised[Register(f)], BitOf(f));
      }
      if hit {
        ShlBound(bit, 32);
        regs := regs[index := ClearBits(regs[index], Shl(1, bit), 32)];
        forall f: Event | f.vf < VFS
          ensures Pending(f) <==> TestBit(between[Register(f)], BitOf(f)) && f != e
        {
          if Register(f) == index {
            if BitOf(f) == bit {
              EventBitsAreDistinct(e, f);
            }
            ClearOneBit(between[index], bit, 32, BitOf(f));
          }
        }
      }
    }

    /** txgbe_check_for_msg_pf */
    method CheckForMsg(vf: nat, raised: seq<nat>) returns (hit: bool)
      requires Valid() && vf < VFS && |raised| == 6
      modifies this`regs, this`reqs
      ensures Valid()
      ensures hit <==> old(Pending(VfReq(vf)))
      ensures reqs == old(reqs) + (if hit then 1 else 0)
      ensures Pending(VfReq(vf)) <==> !hit && Raised(raised, VfReq(vf))
      ensures forall f: Event | f.vf < VFS && f != VfReq(vf) :: Pending(f) <==> old(Pending(f)) || Raised(raised, f)
    {
      hit := CheckForBit(VfReq(vf), raised);
      if hit {
        reqs := reqs + 1;
      }
    }

    /** txgbe_check_for_ack_pf */
    method CheckForAck(vf: nat, raised: seq<nat>) returns (hit: bool)
      requires Valid() && vf < VFS && |raised| == 6
      modifies this`regs, this`acks
      ensures Valid()
      ensures hit <==> old(Pending(VfAck(vf)))
      ensures acks == old(acks) + (if hit then 1 else 0)
      ensures Pending(VfAck(vf)) <==> !hit && Raised(raised, VfAck(vf))
      ensures forall f: Event | f.vf < VFS && f != VfAck(vf) :: Pending(f) <==> old(Pending(f)) || Raised(raised, f)
    {
      hit := CheckForBit(VfAck(vf), raised);
      if hit {
        acks := acks + 1;
      }
    }

    /** txgbe_check_for_rst_pf */
    method CheckForRst(vf: nat, raised: seq<nat>) returns (hit: bool)
      requires Valid() && vf < VFS && |raised| == 6
      modifies this`regs, this`rsts
      ensures Valid()
      ensures hit <==> old(Pending(VfRst(vf)))
      ensures rsts == old(rsts) + (if hit then 1 else 0)
      ensures Pending(VfRst(vf)) <==> !hit && Raised(raised, VfRst(vf))
      ensures forall f: Event | f.vf < VFS && f != VfRst(vf) :: Pending(f) <==> old(Pending(f)) || Raised(raised, f)
    {
      hit := CheckForBit(VfRst(vf), raised);
      if hit {
        rsts := rsts + 1;
      }
    }
  }
}
