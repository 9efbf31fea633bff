/** DCB configuration written to the arbiters (src/txgbe_dcb.c:187-269, 429-584): unpacking per-class
    settings, the priority map, and the packed register words. */
module DcbRegisters {
  import opened Bits
  import opened DcbCredits
  import opened DcbFlow

  // ----- one arbiter word

  datatype Entry = Entry(refill: nat, bwgId: nat, max: nat, group: bool, link: bool)

  /** How the hardware reads a word: refill in bits 0-8, bandwidth group in 9-11, maximum in 12-29,
      group strict in bit 30, link strict in bit 31. */
  function Decode(w: nat): Entry {
    Entry(Field(w, 0, 9), Field(w, 9, 3), Field(w, 12, 18), Field(w, 30, 1) == 1, Field(w, 31, 1) == 1)
  }

  /** The word as a number. */
  function Sum(refill: nat, bwgId: nat, max: nat, g: nat, l: nat): nat {
    refill + 0x200 * bwgId + 0x1000 * max + 0x4000_0000 * g + 0x8000_0000 * l
  }

  lemma DecodeSum(refill: nat, bwgId: nat, max: nat, g: bool, l: bool)
    requires refill < 0x200 && bwgId < 8 && max < 0x4_0000
    ensures Decode(Sum(refill, bwgId, max, Bit(g), Bit(l))) == Entry(refill, bwgId, max, g, l)
  {
    hide Pow2, Field;
    var w := Sum(refill, bwgId, max, Bit(g), Bit(l));
    Pow2Values();
    assert Pow2(0) == 1 by {
      Pow2Zero();
    }
    FieldAt(w, 0, 9, 0, refill, bwgId + 8 * max + 0x20_0000 * Bit(g) + 0x40_0000 * Bit(l));
    FieldAt(w, 9, 3, refill, bwgId, max + 0x4_0000 * Bit(g) + 0x8_0000 * Bit(l));
    FieldAt(w, 12, 18, refill + 0x200 * bwgId, max, Bit(g) + 2 * Bit(l));
    var low := refill + 0x200 * bwgId + 0x1000 * max;
    FieldAt(w, 30, 1, low, Bit(g), Bit(l));
    FieldAt(w, 31, 1, low + 0x4000_0000 * Bit(g), Bit(l), 0);
  }

  const GSP: nat := 0x4000_0000
  const LSP: nat := 0x8000_0000

  function Flag(w: nat, on: bool, mask: nat): nat {
    if on then Or(w, mask) else w
  }

  /** The receive arbiter's word: `refill | max << 12`, then the group, then link strict. */
  function RxWord(refill: nat, max: nat, bwgId: nat, tsa: Tsa): nat {
    Flag(Or(Or(refill, Shl(max, 12)), Shl(bwgId, 9)), tsa.Strict?, LSP)
  }

  /** The transmit descriptor arbiter's word: `max << 12`, refill, group, then both flags. */
  function DescWord(refill: nat, max: nat, bwgId: nat, tsa: Tsa): nat {
    Flag(Flag(Or(Or(Shl(max, 12), refill), Shl(bwgId, 9)), tsa.GroupStrict?, GSP), tsa.Strict?, LSP)
  }

  /** The transmit data arbiter's word. */
  function DataWord(refill: nat, max: nat, bwgId: nat, tsa: Tsa): nat {
    Flag(Flag(Or(Or(refill, Shl(max, 12)), Shl(bwgId, 9)), tsa.GroupStrict?, GSP), tsa.Strict?, LSP)
  }

  lemma OrFields(refill: nat, max: nat, bwgId: nat)
    requires refill < 0x200 && bwgId < 8
    ensures Or(Or(refill, Shl(max, 12)), Shl(bwgId, 9)) == Sum(refill, bwgId, max, 0, 0)
  {
    hide Or, Shl, Pow2;
    Pow2Values();
    OrAssociates(refill, Shl(max, 12), Shl(bwgId, 9));
    OrCommutes(Shl(max, 12), Shl(bwgId, 9));
    OrAssociates(refill, Shl(bwgId, 9), Shl(max, 12));
    OrShl(refill, bwgId, 9, 0x200);
    OrShl(refill + 0x200 * bwgId, max, 12, 0x1000);
  }

  lemma FlagAdds(w: nat, on: bool, n: nat, mask: nat)
    requires mask == Pow2(n) && w < mask
    ensures Flag(w, on, mask) == w + mask * Bit(on)
  {
    hide Or, Shl, Pow2;
    OrShl(w, 1, n, mask);
    ShlIsMul(1, n);
  }

  lemma Flags(refill: nat, max: nat, bwgId: nat, g: bool, l: bool)
    requires refill < 0x200 && bwgId < 8 && max < 0x4_0000
    ensures Flag(Flag(Sum(refill, bwgId, max, 0, 0), g, GSP), l, LSP) == Sum(refill, bwgId, max, Bit(g), Bit(l))
    ensures Flag(Sum(refill, bwgId, max, 0, 0), l, LSP) == Sum(refill, bwgId, max, 0, Bit(l))
  {
    hide Flag, Pow2;
    Pow2Values();
    var w := Sum(refill, bwgId, max, 0, 0);
    FlagAdds(w, g, 30, GSP);
    FlagAdds(w + GSP * Bit(g), l, 31, LSP);
    FlagAdds(w, l, 31, LSP);
  }

  /** Every 16-bit refill and maximum and 8-bit group id: the words decode to what was packed exactly
      when the refill is below 512 and the group below 8. The receive word has no group-strict flag. */
  lemma WordsDecode(refill: nat, max: nat, bwgId: nat, tsa: Tsa)
    requires max < 0x1_0000
    ensures Decode(RxWord(refill, max, bwgId, tsa)) == Entry(refill, bwgId, max, false, tsa.Strict?)
       <==> refill < 0x200 && bwgId < 8
    ensures Decode(DescWord(refill, max, bwgId, tsa)) == Entry(refill, bwgId, max, tsa.GroupStrict?, tsa.Strict?)
       <==> refill < 0x200 && bwgId < 8
    ensures Decode(DataWord(refill, max, bwgId, tsa)) == Entry(refill, bwgId, max, tsa.GroupStrict?, tsa.Strict?)
       <==> refill < 0x200 && bwgId < 8
  {
    hide Or, Shl, Flag, Field, Pow2, Sum;
    var g, l := tsa.GroupStrict?, tsa.Strict?;
    if refill < 0x200 && bwgId < 8 {
      OrFields(refill, max, bwgId);
      OrCommutes(Shl(max, 12), refill);
      Flags(refill, max, bwgId, g, l);
      DecodeSum(refill, bwgId, max, g, l);
      DecodeSum(refill, bwgId, max, false, l);
    } else {
      Pow2Values();
      DecodeBound(RxWord(refill, max, bwgId, tsa));
      DecodeBound(DescWord(refill, max, bwgId, tsa));
      DecodeBound(DataWord(refill, max, bwgId, tsa));
    }
  }

  lemma DecodeBound(w: nat)
    ensures Decode(w).refill < 0x200 && Decode(w).bwgId < 8
  {
    hide Field, Pow2;
    Pow2Values();
    FieldBound(w, 0, 9);
    FieldBound(w, 9, 3);
  }

  // ----- the priority map word

  /** Nibbles or-ed together in turn, kept to 32 bits. */
  function Packed(map_: seq<nat>): nat {
    if map_ == [] then 0
    else
      var n := |map_| - 1;
      Or(Packed(map_[..n]), Shl(map_[n], 4 * n) % 0x1_0000_0000)
  }

  predicate Nibbles(map_: seq<nat>) {
    forall i | 0 <= i < |map_| :: map_[i] < 16
  }

  lemma {:induction false} Pow2Plus(n: nat)
    ensures Pow2(n + 4) == 16 * Pow2(n)
  {
    assert Pow2(n + 4) == 2 * Pow2(n + 3);
    assert Pow2(n + 3) == 2 * Pow2(n + 2);
  }

  lemma PackedStep(map_: seq<nat>, n: nat)
    requires n < |map_| <= 8 && Nibbles(map_) && Packed(map_[..n]) < Pow2(4 * n)
    ensures Packed(map_[..n + 1]) == Packed(map_[..n]) + Pow2(4 * n) * map_[n] < Pow2(4 * (n + 1))
  {
    hide Or, Shl, Pow2;
    assert map_[..n + 1][..n] == map_[..n];
    var p, v := Pow2(4 * n), map_[n];
    Pow2Plus(4 * n);
    Pow2Monotone(4 * (n + 1), 32);
    Pow2Values();
    ShlIsMul(v, 4 * n);
    assert p * v + p <= 16 * p by {
      MulMonotone(v, 15, p);
    }
    DivModUnique(p * v, 0x1_0000_0000, 0, p * v);
    OrShl(Packed(map_[..n]), v, 4 * n, p);
  }

  lemma {:induction false} PackedBelow(map_: seq<nat>, n: nat)
    requires n <= |map_| <= 8 && Nibbles(map_)
    ensures Packed(map_[..n]) < Pow2(4 * n)
    decreases n
  {
    hide Or, Shl, Pow2;
    if n == 0 {
      assert Pow2(0) == 1 by {
        Pow2Zero();
      }
    } else {
      PackedBelow(map_, n - 1);
      PackedStep(map_, n - 1);
    }
  }

  /** The word of a prefix is the low part of the whole word. */
  lemma {:induction false} PackedSplit(map_: seq<nat>, i: nat, n: nat) returns (hi: nat)
    requires i < n <= |map_| <= 8 && Nibbles(map_)
    ensures Packed(map_[..n]) == Packed(map_[..i]) + Pow2(4 * i) * (map_[i] + Pow2(4) * hi)
    decreases n
  {
    hide Or, Shl, Pow2, Packed;
    PackedBelow(map_, n - 1);
    PackedStep(map_, n - 1);
    if n == i + 1 {
      hi := 0;
    } else {
      var h := PackedSplit(map_, i, n - 1);
      var k := 4 * (n - 2 - i);
      Pow2Sum(4 * i + 4, k);
      Pow2Plus(4 * i);
      Pow2Values();
      hi := h + Pow2(k) * map_[n - 1];
      Regroup(Pow2(4 * i), map_[i], h, Pow2(k), map_[n - 1], Pow2(4 * (n - 1)));
    }
  }

  lemma Regroup(p: nat, v: nat, h: nat, q: nat, m: nat, top: nat)
    requires top == (16 * p) * q
    ensures p * (v + 16 * h) + top * m == p * (v + 16 * (h + q * m))
  {
    assert top * m == (16 * p) * (q * m);
    assert (16 * p) * (q * m) == p * (16 * (q * m));
  }

  /** Nibble i of the word is entry i for all entries exactly when all entries are nibbles. */
  lemma MapDecodes(map_: seq<nat>)
    requires |map_| == 8
    ensures (forall i | 0 <= i < 8 :: Field(Packed(map_), 4 * i, 4) == map_[i]) <==> Nibbles(map_)
  {
    hide Packed, Field, Pow2;
    Pow2Values();
    if Nibbles(map_) {
      assert map_[..8] == map_;
      forall i | 0 <= i < 8 ensures Field(Packed(map_), 4 * i, 4) == map_[i] {
        var hi := PackedSplit(map_, i, 8);
        PackedBelow(map_, i);
        FieldAt(Packed(map_), 4 * i, 4, Packed(map_[..i]), map_[i], hi);
      }
    } else {
      var i :| 0 <= i < |map_| && map_[i] >= 16;
      FieldBound(Packed(map_), 4 * i, 4);
    }
  }

  // ----- user priorities and traffic classes

  /** The class's bitmap names the priority. */
  predicate Owns(tcs: seq<TcConfig>, dir: Direction, tc: nat, up: nat)
    requires tc < |tcs|
  {
    TestBit(PathOf(tcs[tc], dir).upToTc, up)
  }

  /** tc is the class of a priority: the highest of classes 1..n-1 that names it, else 0. */
  predicate IsTcOf(tcs: seq<TcConfig>, dir: Direction, n: nat, up: nat, tc: nat)
    requires n <= |tcs|
  {
    && (n == 0 ==> tc == 0)
    && (n > 0 ==>
      && tc < n
      && (tc > 0 ==> Owns(tcs, dir, tc, up))
      && forall t | tc < t < n :: !Owns(tcs, dir, t, up))
  }

  /** Each priority is named by exactly one of the first n classes. */
  ghost predicate Partitioned(tcs: seq<TcConfig>, dir: Direction, n: nat)
    requires n <= |tcs|
  {
    forall up | 0 <= up < 8 :: OwnedOnce(tcs, dir, n, up)
  }

  ghost predicate OwnedOnce(tcs: seq<TcConfig>, dir: Direction, n: nat, up: nat)
    requires n <= |tcs|
  {
    exists t :: 0 <= t < n && Owns(tcs, dir, t, up)
      && forall t' | 0 <= t' < n && Owns(tcs, dir, t', up) :: t' == t
  }

  /** Then the lookup inverts the bitmaps. */
  lemma LookupInverts(tcs: seq<TcConfig>, dir: Direction, n: nat, up: nat, tc: nat, t: nat)
    requires n <= |tcs| && up < 8 && Partitioned(tcs, dir, n) && IsTcOf(tcs, dir, n, up, tc) && t < n
    ensures tc == t <==> Owns(tcs, dir, t, up)
  {
    hide Owns;
    assert OwnedOnce(tcs, dir, n, up);
  }

  /** The byte `1 << up` tests bit `up` of a byte. */
  lemma PriorityMask(x: nat, up: nat)
    requires x < 0x100 && up < 32
    ensures And(Shl(1, up) % 0x100, x) != 0 <==> TestBit(x, up)
  {
    hide And, Shl, TestBit, Pow2;
    Pow2Values();
    if up < 8 {
      ShlBound(up, 8);
      DivModUnique(Shl(1, up), 0x100, 0, Shl(1, up));
      AndOneBit(x, up);
      AndCommutes(x, Shl(1, up));
    } else {
      Pow2Sum(8, up - 8);
      ShlIsMul(1, up);
      DivModUnique(Shl(1, up), 0x100, Pow2(up - 8), 0);
      HighBit(x, up);
      ZeroAnd(x);
    }
  }

  lemma ZeroAnd(x: nat)
    ensures And(0, x) == 0
  {}

  lemma HighBit(x: nat, up: nat)
    requires x < 0x100 && up >= 8
    ensures !TestBit(x, up)
  {
    hide Shr, Pow2;
    Pow2Values();
    Pow2Monotone(8, up);
    ShrIsDiv(x, up);
    DivModUnique(x, Pow2(up), 0, x);
  }

  /** txgbe_dcb_get_tc_from_up */
  method GetTcFromUp(cfg: Config, dir: Direction, up: nat) returns (tc: nat)
    requires cfg.Valid() && up < 32
    ensures IsTcOf(cfg.tcs[..], dir, cfg.pgTcs, up, tc)
  {
    hide TestBit, And, Shl;
    var prioMask := Shl(1, up) % 0x100;
    tc := cfg.pgTcs;
    if tc == 0 {
      return;
    }
    tc := tc - 1;
    while tc != 0
      invariant tc < cfg.pgTcs
      invariant forall t | tc < t < cfg.pgTcs :: !Owns(cfg.tcs[..], dir, t, up)
    {
      PriorityMask(PathOf(cfg.tcs[tc], dir).upToTc, up);
      if And(prioMask, PathOf(cfg.tcs[tc], dir).upToTc) != 0 {
        break;
      }
      tc := tc - 1;
    }
    if tc != 0 {
      assert Owns(cfg.tcs[..], dir, tc, up);
    }
  }

  /** txgbe_dcb_unpack_map_cee */
  method UnpackMap(cfg: Config, dir: Direction, map_: array<nat>)
    requires cfg.Valid() && map_.Length == 8
    modifies map_
    ensures forall up | 0 <= up < 8 :: IsTcOf(cfg.tcs[..], dir, cfg.pgTcs, up, map_[up])
  {
    hide IsTcOf;
    for up := 0 to 8
      invariant forall u | 0 <= u < up :: IsTcOf(cfg.tcs[..], dir, cfg.pgTcs, u, map_[u])
    {
      map_[up] := GetTcFromUp(cfg, dir, up);
    }
  }

  /** txgbe_dcb_unpack_pfc_cee: one bit per priority whose class has flow control. */
  method UnpackPfc(cfg: Config, map_: seq<nat>) returns (pfc: nat)
    requires cfg.Valid() && |map_| == 8 && forall i | 0 <= i < 8 :: map_[i] < CLASSES
    ensures pfc < 0x100
    ensures forall up | 0 <= up < 8 :: TestBit(pfc, up) <==> cfg.tcs[map_[up]].pfc
  {
    hide Or, Shl, TestBit, Pow2;
    pfc := 0;
    forall up | 0 <= up < 8 ensures !TestBit(0, up) {
      ZeroBits(up);
    }
    assert Pow2(0) == 1 by {
      Pow2Zero();
    }
    for up := 0 to 8
      invariant pfc < Pow2(up)
      invariant forall u | 0 <= u < up :: TestBit(pfc, u) <==> cfg.tcs[map_[u]].pfc
      invariant forall u | up <= u < 8 :: !TestBit(pfc, u)
    {
      OrShl(pfc, 1, up, Pow2(up));
      Pow2Next(up);
      forall u | 0 <= u < 8 ensures TestBit(Or(pfc, Shl(1, up)), u) <==> TestBit(pfc, u) || u == up {
        TestBitOr(pfc, Shl(1, up), u);
        TestBitShl(up, u);
      }
      if cfg.tcs[map_[up]].pfc {
        pfc := Or(pfc, Shl(1, up));
      }
    }
    Pow2Values();
  }

  // ----- the three arbiters

  /** What the arbiters are given per class. */
  datatype Settings = Settings(refill: seq<nat>, max: seq<nat>, bwgId: seq<nat>, tsa: seq<Tsa>)

  predicate Sized(s: Settings) {
    |s.refill| == |s.max| == |s.bwgId| == |s.tsa| == CLASSES && (forall i | 0 <= i < CLASSES :: s.max[i] < 0x1_0000)
  }

  /** Arbiter registers: eight words each, the per-queue credits, the two priority maps and the control
      words. */
  class Arbiters {
    const rx: array<nat>
    const desc: array<nat>
    const data: array<nat>
    const vmCredit: array<nat>
    var rxMap: nat
    var txMap: nat
    var rxCtl: nat
    var descCtl: nat
    var dataCtl: nat

    constructor (rx: array<nat>, desc: array<nat>, data: array<nat>, vmCredit: array<nat>)
      ensures this.rx == rx && this.desc == desc && this.data == data && this.vmCredit == vmCredit
    {
      this.rx, this.desc, this.data, this.vmCredit := rx, desc, data, vmCredit;
    }

    ghost predicate Valid() {
      && rx.Length == desc.Length == data.Length == CLASSES && rx != desc && rx != data && desc != data
      && vmCredit.Length == 128 && vmCredit != rx && vmCredit != desc && vmCredit != data
    }

    /** txgbe_dcb_config_rx_arbiter */
    method ConfigRx(s: Settings, map_: seq<nat>)
      requires Valid() && Sized(s) && |map_| == 8
      modifies this`rxCtl, this`rxMap, rx
      ensures forall i | 0 <= i < CLASSES :: rx[i] == RxWord(s.refill[i], s.max[i], s.bwgId[i], s.tsa[i])
      ensures rxMap == Packed(map_) && rxCtl == 0x6
    {
      hide Packed, Or, Shl;
      rxCtl := 0x46;
      rxMap := PackMap(map_);
      for i := 0 to CLASSES
        invariant forall j | 0 <= j < i :: rx[j] == RxWord(s.refill[j], s.max[j], s.bwgId[j], s.tsa[j])
        invariant rxMap == Packed(map_)
      {
        var reg := Or(s.refill[i], Shl(s.max[i], 12));
        reg := Or(reg, Shl(s.bwgId[i], 9));
        if s.tsa[i] == Strict {
          reg := Or(reg, LSP);
        }
        rx[i] := reg;
      }
      rxCtl := 0x6;
    }

    /** txgbe_dcb_config_tx_desc_arbiter */
    method ConfigDesc(s: Settings)
      requires Valid() && Sized(s)
      modifies this`descCtl, desc, vmCredit
      ensures forall i | 0 <= i < CLASSES :: desc[i] == DescWord(s.refill[i], s.max[i], s.bwgId[i], s.tsa[i])
      ensures descCtl == 0x11 && forall i | 0 <= i < 128 :: vmCredit[i] == 0
    {
      hide Or, Shl;
      for i := 0 to 128
        invariant forall j | 0 <= j < i :: vmCredit[j] == 0
      {
        vmCredit[i] := 0;
      }
      for i := 0 to CLASSES
        invariant forall j | 0 <= j < i :: desc[j] == DescWord(s.refill[j], s.max[j], s.bwgId[j], s.tsa[j])
        invariant forall j | 0 <= j < 128 :: vmCredit[j] == 0
      {
        var reg := Shl(s.max[i], 12);
        reg := Or(reg, s.refill[i]);
        reg := Or(reg, Shl(s.bwgId[i], 9));
        if s.tsa[i] == GroupStrict {
          reg := Or(reg, GSP);
        }
        if s.tsa[i] == Strict {
          reg := Or(reg, LSP);
        }
        desc[i] := reg;
      }
      descCtl := 0x11;
    }

    /** txgbe_dcb_config_tx_data_arbiter */
    method ConfigData(s: Settings, map_: seq<nat>)
      requires Valid() && Sized(s) && |map_| == 8
      modifies this`dataCtl, this`txMap, data
      ensures forall i | 0 <= i < CLASSES :: data[i] == DataWord(s.refill[i], s.max[i], s.bwgId[i], s.tsa[i])
      ensures txMap == Packed(map_) && dataCtl == 0x120
    {
      hide Packed, Or, Shl;
      dataCtl := 0x160;
      txMap := PackMap(map_);
      for i := 0 to CLASSES
        invariant forall j | 0 <= j < i :: data[j] == DataWord(s.refill[j], s.max[j], s.bwgId[j], s.tsa[j])
        invariant txMap == Packed(map_)
      {
        var reg := s.refill[i];
        reg := Or(reg, Shl(s.max[i], 12));
        reg := Or(reg, Shl(s.bwgId[i], 9));
        if s.tsa[i] == GroupStrict {
          reg := Or(reg, GSP);
        }
        if s.tsa[i] == Strict {
          reg := Or(reg, LSP);
        }
        data[i] := reg;
      }
      dataCtl := 0x120;
    }
  }

  /** The loop that packs the priority map. */
  method PackMap(map_: seq<nat>) returns (reg: nat)
    requires |map_| == 8
    ensures reg == Packed(map_)
  {
    hide Or, Shl;
    reg := 0;
    for i := 0 to 8
      invariant reg == Packed(map_[..i])
    {
      assert map_[..i + 1][..i] == map_[..i];
      reg := Or(reg, Shl(map_[i], 4 * i) % 0x1_0000_0000);
    }
    assert map_[..8] == map_;
  }

  // ----- the whole configuration

  /** txgbe_dcb_unpack_refill_cee, transmit side */
  method UnpackRefill(cfg: Config) returns (r: seq<nat>)
    requires cfg.Valid()
    ensures r == Unpacked(cfg.tcs[..]).refill
  {
    var refill := new nat[CLASSES](_ => 0);
    for tc := 0 to CLASSES
      invariant forall j | 0 <= j < tc :: refill[j] == cfg.tcs[j].tx.refill
    {
      refill[tc] := cfg.tcs[tc].tx.refill;
    }
    r := refill[..];
  }

  /** txgbe_dcb_unpack_max_cee */
  method UnpackMax(cfg: Config) returns (r: seq<nat>)
    requires cfg.Valid()
    ensures r == Unpacked(cfg.tcs[..]).max
  {
    var max := new nat[CLASSES](_ => 0);
    for tc := 0 to CLASSES
      invariant forall j | 0 <= j < tc :: max[j] == cfg.tcs[j].descMax
    {
      max[tc] := cfg.tcs[tc].descMax;
    }
    r := max[..];
  }

  /** txgbe_dcb_unpack_bwgid_cee, transmit side */
  method UnpackBwgId(cfg: Config) returns (r: seq<nat>)
    requires cfg.Valid()
    ensures r == Unpacked(cfg.tcs[..]).bwgId
  {
    var bwgId := new nat[CLASSES](_ => 0);
    for tc := 0 to CLASSES
      invariant forall j | 0 <= j < tc :: bwgId[j] == cfg.tcs[j].tx.bwgId
    {
      bwgId[tc] := cfg.tcs[tc].tx.bwgId;
    }
    r := bwgId[..];
  }

  /** txgbe_dcb_unpack_tsa_cee, transmit side */
  method UnpackTsa(cfg: Config) returns (r: seq<Tsa>)
    requires cfg.Valid()
    ensures r == Unpacked(cfg.tcs[..]).tsa
  {
    var tsa := new Tsa[CLASSES](_ => Ets);
    for tc := 0 to CLASSES
      invariant forall j | 0 <= j < tc :: tsa[j] == cfg.tcs[j].tx.tsa
    {
      tsa[tc] := cfg.tcs[tc].tx.tsa;
    }
    r := tsa[..];
  }

  method UnpackCee(cfg: Config) returns (s: Settings)
    requires cfg.Valid()
    ensures s == Unpacked(cfg.tcs[..])
  {
    hide Unpacked;
    var refill := UnpackRefill(cfg);
    var max := UnpackMax(cfg);
    var bwgId := UnpackBwgId(cfg);
    var tsa := UnpackTsa(cfg);
    s := Settings(refill, max, bwgId, tsa);
  }

  function Unpacked(tcs: seq<TcConfig>): (s: Settings)
    ensures |s.refill| == |s.max| == |s.bwgId| == |s.tsa| == |tcs|
    ensures forall i | 0 <= i < |tcs| ::
      s.refill[i] == tcs[i].tx.refill && s.max[i] == tcs[i].descMax
      && s.bwgId[i] == tcs[i].tx.bwgId && s.tsa[i] == tcs[i].tx.tsa
  {
    Settings(seq(|tcs|, i requires 0 <= i < |tcs| => tcs[i].tx.refill),
             seq(|tcs|, i requires 0 <= i < |tcs| => tcs[i].descMax),
             seq(|tcs|, i requires 0 <= i < |tcs| => tcs[i].tx.bwgId),
             seq(|tcs|, i requires 0 <= i < |tcs| => tcs[i].tx.tsa))
  }

  /** The three arbiters hold the transmit settings of the classes. */
  ghost predicate Holds(regs: Arbiters, tcs: seq<TcConfig>)
    requires |tcs| == CLASSES
    reads regs, regs.rx, regs.desc, regs.data, regs.vmCredit
  {
    regs.Valid() && forall i | 0 <= i < CLASSES ::
      && regs.rx[i] == RxWord(tcs[i].tx.refill, tcs[i].descMax, tcs[i].tx.bwgId, tcs[i].tx.tsa)
      && regs.desc[i] == DescWord(tcs[i].tx.refill, tcs[i].descMax, tcs[i].tx.bwgId, tcs[i].tx.tsa)
      && regs.data[i] == DataWord(tcs[i].tx.refill, tcs[i].descMax, tcs[i].tx.bwgId, tcs[i].tx.tsa)
  }

  /** Nibble `up` of both priority map registers is the class of the priority. */
  ghost predicate Maps(regs: Arbiters, tcs: seq<TcConfig>, n: nat)
    requires n <= |tcs|
    reads regs
  {
    regs.rxMap == regs.txMap && forall up | 0 <= up < 8 :: IsTcOf(tcs, Tx, n, up, Field(regs.rxMap, 4 * up, 4))
  }

  /** The class asks for flow control and some priority maps to it. */
  ghost predicate Pauses(regs: Arbiters, tcs: seq<TcConfig>, i: nat)
    requires i < |tcs|
    reads regs
  {
    tcs[i].pfc && exists up :: 0 <= up < 8 && Field(regs.rxMap, 4 * up, 4) == i
  }

  /** Exactly the classes that pause have their high-water mark, and only the others a cleared
      low-water register. */
  ghost predicate Marks(regs: Arbiters, flow: FlowControl, tcs: seq<TcConfig>, lowBefore: seq<nat>)
    requires flow.Valid() && |tcs| == CLASSES && |lowBefore| == CLASSES
    reads regs, flow, flow.rfch, flow.rfcl
  {
    forall i | 0 <= i < CLASSES ::
      && (Pauses(regs, tcs, i) ==> flow.rfch[i] == MarkWord(flow.high[i]) && flow.rfcl[i] == lowBefore[i])
      && (!Pauses(regs, tcs, i) ==>
            flow.rfcl[i] == 0 && (flow.rfch[i] == flow.bufferSize[i] || flow.rfch[i] == 0))
  }

  /** The port control word says how many classes and pools there are, unless the device is gone. */
  ghost predicate PortSays(port: Port, before: nat, vt: bool, tcs: nat, rss: nat)
    reads port
  {
    before != FAILED_READ ==> forall n | 0 <= n < 32 ::
      TestBit(port.ctl, n) == if n in PORT_FIELDS then PortBit(vt, tcs, rss, n) else TestBit(before, n)
  }

  /** txgbe_dcb_hw_config_cee: unpack, set the port, program the arbiters, then flow control, whose
      error is returned. */
  method HwConfigCee(cfg: Config, regs: Arbiters, flow: FlowControl, port: Port, rss: nat) returns (ret: int)
    requires cfg.Valid() && regs.Valid() && flow.Valid() && port.drop.Length == 4
    requires Apart(regs, flow, port)
    requires forall i | 0 <= i < CLASSES :: cfg.tcs[i].descMax < 0x1_0000
    modifies regs, regs.rx, regs.desc, regs.data, regs.vmCredit
    modifies flow, flow.rfch, flow.rfcl, flow.rfcv, port, port.drop
    ensures Holds(regs, cfg.tcs[..]) && Maps(regs, cfg.tcs[..], cfg.pgTcs)
    ensures regs.rxCtl == 0x6 && regs.descCtl == 0x11 && regs.dataCtl == 0x120
    ensures forall i | 0 <= i < 128 :: regs.vmCredit[i] == 0
    ensures port.vmdq == cfg.vtMode && PortSays(port, old(port.ctl), cfg.vtMode, cfg.pgTcs, rss)
    ensures ret == if cfg.pfcMode then ERR_PARAM else 0
    ensures cfg.pfcMode ==> Marks(regs, flow, cfg.tcs[..], old(flow.rfcl[..]))
    ensures !cfg.pfcMode ==> unchanged(flow, flow.rfch, flow.rfcl, flow.rfcv)
  {
    hide Packed, Field, RxWord, DescWord, DataWord, TestBit, IsTcOf, MarkWord, PortBit, Holds, Marks, Unpacked;
    var s := UnpackCee(cfg);
    var map_ := new nat[8](_ => 0);
    UnpackMap(cfg, Tx, map_);
    var m := map_[..];
    MapFits(cfg.tcs[..], cfg.pgTcs, m);
    port.DcbConfig(cfg.vtMode, cfg.pgTcs, rss);
    HwConfig(regs, s, m, cfg.tcs[..]);
    ret := 0;
    if cfg.pfcMode {
      ret := Pause(cfg, regs, flow, m);
    }
  }

  lemma MapFits(tcs: seq<TcConfig>, n: nat, m: seq<nat>)
    requires n <= |tcs| == CLASSES && |m| == 8
    requires forall up | 0 <= up < 8 :: IsTcOf(tcs, Tx, n, up, m[up])
    ensures forall up | 0 <= up < 8 :: m[up] < CLASSES
  {
    forall up | 0 <= up < 8 ensures m[up] < CLASSES {
      assert IsTcOf(tcs, Tx, n, up, m[up]);
    }
  }

  /** txgbe_dcb_hw_config: the three arbiters. */
  method HwConfig(regs: Arbiters, s: Settings, m: seq<nat>, ghost tcs: seq<TcConfig>)
    requires regs.Valid() && |m| == 8 && |tcs| == CLASSES && s == Unpacked(tcs)
    requires forall i | 0 <= i < CLASSES :: tcs[i].descMax < 0x1_0000
    requires forall up | 0 <= up < 8 :: m[up] < CLASSES
    modifies regs, regs.rx, regs.desc, regs.data, regs.vmCredit
    ensures Holds(regs, tcs) && regs.rxMap == regs.txMap
    ensures forall up | 0 <= up < 8 :: Field(regs.rxMap, 4 * up, 4) == m[up]
    ensures regs.rxCtl == 0x6 && regs.descCtl == 0x11 && regs.dataCtl == 0x120
    ensures forall i | 0 <= i < 128 :: regs.vmCredit[i] == 0
  {
    hide Packed, Field, RxWord, DescWord, DataWord;
    regs.ConfigRx(s, m);
    regs.ConfigDesc(s);
    regs.ConfigData(s, m);
    MapDecodes(m);
  }

  /** The flow control step. */
  method Pause(cfg: Config, regs: Arbiters, flow: FlowControl, m: seq<nat>) returns (ret: int)
    requires cfg.Valid() && flow.Valid() && |m| == 8
    requires forall up | 0 <= up < 8 :: m[up] < CLASSES && Field(regs.rxMap, 4 * up, 4) == m[up]
    modifies flow, flow.rfch, flow.rfcl, flow.rfcv
    ensures ret == ERR_PARAM && Marks(regs, flow, cfg.tcs[..], old(flow.rfcl[..]))
  {
    hide Field, TestBit, MarkWord, PauseWord;
    var pfc := UnpackPfc(cfg, m);
    ret := flow.ConfigPfc(pfc, m);
    forall i | 0 <= i < CLASSES ensures ClassPaused(pfc, m, i) <==> Pauses(regs, cfg.tcs[..], i) {
      PausesExactly(pfc, m, cfg.tcs[..], i);
    }
  }

  lemma PausesExactly(pfc: nat, m: seq<nat>, tcs: seq<TcConfig>, i: nat)
    requires |m| == 8 && |tcs| == CLASSES && i < CLASSES && forall j | 0 <= j < 8 :: m[j] < CLASSES
    requires forall up | 0 <= up < 8 :: TestBit(pfc, up) <==> tcs[m[up]].pfc
    ensures ClassPaused(pfc, m, i) <==> tcs[i].pfc && exists up :: 0 <= up < 8 && m[up] == i
  {
    hide TestBit;
  }

  /** No two registers are the same memory. */
  ghost predicate Apart(regs: Arbiters, flow: FlowControl, port: Port) {
    && ArbiterArrays(regs) !! {flow.rfch, flow.rfcl, flow.rfcv}
    && port.drop !in ArbiterArrays(regs) + {flow.rfch, flow.rfcl, flow.rfcv}
  }

  ghost function ArbiterArrays(regs: Arbiters): set<array<nat>> {
    {regs.rx, regs.desc, regs.data, regs.vmCredit}
  }

  /** The words of class i decode to a path's settings. */
  ghost predicate Programmed(regs: Arbiters, i: nat, p: Path)
    requires regs.Valid() && i < CLASSES
    reads regs, regs.rx, regs.desc, regs.data, regs.vmCredit
  {
    && Decode(regs.rx[i]) == Entry(p.refill, p.bwgId, p.max, false, p.tsa.Strict?)
    && Decode(regs.desc[i]) == Entry(p.refill, p.bwgId, p.max, p.tsa.GroupStrict?, p.tsa.Strict?)
    && Decode(regs.data[i]) == Entry(p.refill, p.bwgId, p.max, p.tsa.GroupStrict?, p.tsa.Strict?)
  }

  ghost predicate BwgIdsFit(tcs: seq<TcConfig>, dir: Direction) {
    forall i | 0 <= i < |tcs| :: PathOf(tcs[i], dir).bwgId < CLASSES
  }

  /** What the transmit pass leaves for the receive pass. */
  lemma TxPass(tcs: seq<TcConfig>, groups: seq<nat>, frame: nat)
    requires |groups| == CLASSES && BwgIdsFit(tcs, Tx)
    ensures var r := CeeClasses(tcs, Tx, groups, frame);
      forall i | 0 <= i < |tcs| :: r[i].rx == tcs[i].rx && r[i].descMax == r[i].tx.max < 0x1_0000
  {
    hide Multiplier, MinCredit, Raw, Link, CeeRefill, CeeMax;
  }

  /** The receive pass leaves the transmit side alone. */
  lemma RxPass(tcs: seq<TcConfig>, groups: seq<nat>, frame: nat)
    requires |groups| == CLASSES && BwgIdsFit(tcs, Rx)
    ensures var r := CeeClasses(tcs, Rx, groups, frame);
      forall i | 0 <= i < |tcs| :: r[i].tx == tcs[i].tx && r[i].descMax == tcs[i].descMax
  {
    hide Multiplier, MinCredit, Raw, Link, CeeRefill, CeeMax;
  }

  /** The receive pass computes from the receive side alone. */
  lemma RxPassReadsRx(tcs: seq<TcConfig>, tcs': seq<TcConfig>, groups: seq<nat>, frame: nat)
    requires |groups| == CLASSES && |tcs| == |tcs'| && BwgIdsFit(tcs, Rx)
    requires forall i | 0 <= i < |tcs| :: tcs'[i].rx == tcs[i].rx
    ensures BwgIdsFit(tcs', Rx)
    ensures forall i | 0 <= i < |tcs| ::
      CeeClasses(tcs', Rx, groups, frame)[i].rx == CeeClasses(tcs, Rx, groups, frame)[i].rx
  {
    hide Multiplier, MinCredit, Raw, Link, CeeRefill, CeeMax, CeePath;
    assert RawShares(tcs', Rx, groups) == RawShares(tcs, Rx, groups);
  }

  /** The passes leave flow control settings alone. */
  lemma PassKeepsPfc(tcs: seq<TcConfig>, dir: Direction, groups: seq<nat>, frame: nat)
    requires |groups| == CLASSES && BwgIdsFit(tcs, dir)
    ensures forall i | 0 <= i < |tcs| :: CeeClasses(tcs, dir, groups, frame)[i].pfc == tcs[i].pfc
  {
    hide Multiplier, MinCredit, Raw, Link, CeePath, CeeMax;
  }

  /** The CEE branch of txgbe_configure_dcb, end to end: for percentages and frames up to 25601 bytes
      the three arbiters decode to the credits computed for each class, both priority maps to the
      bitmaps, and exactly the classes that ask for flow control and have a priority are given their
      high-water marks; both directions hold the credits computed from their own settings. */
  method ConfigureDcb(cfg: Config, regs: Arbiters, flow: FlowControl, port: Port, rss: nat, frame: nat)
    returns (ret: int)
    requires cfg.Valid() && regs.Valid() && flow.Valid() && port.drop.Length == 4 && Apart(regs, flow, port)
    requires frame <= 25601 && AllPercentages(cfg.tcs[..], Tx, cfg.bwTx)
    modifies cfg.tcs, regs, regs.rx, regs.desc, regs.data, regs.vmCredit
    modifies flow, flow.rfch, flow.rfcl, flow.rfcv, port, port.drop
    ensures cfg.Valid() && regs.Valid()
    ensures forall i | 0 <= i < CLASSES :: Programmed(regs, i, cfg.tcs[i].tx)
    ensures forall i | 0 <= i < CLASSES ::
      && cfg.tcs[i].tx == CeeClasses(old(cfg.tcs[..]), Tx, cfg.bwTx, frame)[i].tx
      && cfg.tcs[i].rx == CeeClasses(old(cfg.tcs[..]), Rx, cfg.bwRx, frame)[i].rx
      && cfg.tcs[i].pfc == old(cfg.tcs[i].pfc)
    ensures Maps(regs, cfg.tcs[..], cfg.pgTcs)
    ensures port.vmdq == cfg.vtMode && PortSays(port, old(port.ctl), cfg.vtMode, cfg.pgTcs, rss)
    ensures ret == if cfg.pfcMode then ERR_PARAM else 0
    ensures cfg.pfcMode ==> Marks(regs, flow, cfg.tcs[..], old(flow.rfcl[..]))
  {
    hide CeeClasses, Holds, Maps, Marks, PortSays, Programmed, AllPercentages, Apart, PathValid;
    BothPasses(cfg, frame);
    ret := HwConfigCee(cfg, regs, flow, port, rss);
    forall i | 0 <= i < CLASSES ensures Programmed(regs, i, cfg.tcs[i].tx) {
      HeldIsProgrammed(regs, cfg.tcs[..], i);
    }
  }

  /** The transmit and the receive pass: each direction gets the credits of its own settings, and the
      transmit credits fit the arbiter words. */
  method BothPasses(cfg: Config, frame: nat)
    requires cfg.Valid() && frame <= 25601 && AllPercentages(cfg.tcs[..], Tx, cfg.bwTx)
    modifies cfg.tcs
    ensures cfg.Valid()
    ensures forall i | 0 <= i < CLASSES ::
      && cfg.tcs[i].tx == CeeClasses(old(cfg.tcs[..]), Tx, cfg.bwTx, frame)[i].tx
      && cfg.tcs[i].rx == CeeClasses(old(cfg.tcs[..]), Rx, cfg.bwRx, frame)[i].rx
      && cfg.tcs[i].pfc == old(cfg.tcs[i].pfc)
    ensures forall i | 0 <= i < CLASSES :: Fitting(cfg.tcs[i])
  {
    hide CeeClasses;
    ghost var start := cfg.tcs[..];
    var credits := CreditsCee(cfg, frame, Tx);
    ghost var mid := cfg.tcs[..];
    TxPass(start, cfg.bwTx, frame);
    PassKeepsPfc(start, Tx, cfg.bwTx, frame);
    credits := CreditsCee(cfg, frame, Rx);
    RxPass(mid, cfg.bwRx, frame);
    RxPassReadsRx(start, mid, cfg.bwRx, frame);
    PassKeepsPfc(mid, Rx, cfg.bwRx, frame);
    forall i | 0 <= i < CLASSES ensures Fitting(cfg.tcs[i]) {
      assert cfg.tcs[i].tx == mid[i].tx;
      RefillFits(start, cfg.bwTx, frame, i);
    }
  }

  /** The transmit settings of a class fit the arbiter words. */
  predicate Fitting(tc: TcConfig) {
    tc.descMax == tc.tx.max < 0x1_0000 && tc.tx.refill < 0x200 && tc.tx.bwgId < 8
  }

  lemma HeldIsProgrammed(regs: Arbiters, tcs: seq<TcConfig>, i: nat)
    requires |tcs| == CLASSES && i < CLASSES && Holds(regs, tcs) && Fitting(tcs[i])
    ensures regs.Valid() && Programmed(regs, i, tcs[i].tx)
  {
    hide RxWord, DescWord, DataWord, Decode;
    var p := tcs[i].tx;
    WordsDecode(p.refill, p.max, p.bwgId, p.tsa);
  }

  lemma RefillFits(tcs: seq<TcConfig>, groups: seq<nat>, frame: nat, i: nat)
    requires frame <= 25601 && i < |tcs| && |groups| == CLASSES && AllPercentages(tcs, Tx, groups)
    ensures CeeClasses(tcs, Tx, groups, frame)[i].tx.refill < 0x200
  {
    hide CeeClasses, Multiplier, MinCredit, Raw, Link;
    CeeCredits(tcs, Tx, groups, frame, i);
  }
}
