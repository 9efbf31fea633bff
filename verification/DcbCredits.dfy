/** Credits of the traffic classes (src/txgbe_dcb.c:35-175): how the bandwidth shares of eight classes
    become refill and maximum credits in units of 64 bytes. */
module DcbCredits {
  import opened Bits

  const CLASSES: nat := 8
  const MAX_REFILL: nat := 200
  const MAX_CREDIT: nat := 400

  /** Half a frame in credits, rounded up. */
  function MinCredit(frame: nat): nat {
    (frame / 2 + 63) / 64
  }

  /** The smallest nonzero share, at most 100. */
  function Least(shares: seq<nat>): nat {
    if shares == [] then 100
    else
      var m, x := Least(shares[..|shares| - 1]), shares[|shares| - 1];
      if x != 0 && x < m then x else m
  }

  function Multiplier(credit: nat, least: nat): nat
    requires least > 0
  {
    credit / least + 1
  }

  function Refill(share: nat, multiplier: nat, credit: nat): nat {
    var v := Min(share * multiplier, MAX_REFILL);
    if v < credit then credit else v
  }

  // ----- what the numbers mean

  predicate IsLeast(shares: seq<nat>, m: nat) {
    && 0 < m <= 100
    && (m == 100 || m in shares)
    && forall i | 0 <= i < |shares| && shares[i] != 0 :: m <= shares[i]
  }

  lemma {:induction false} LeastIsLeast(shares: seq<nat>)
    ensures IsLeast(shares, Least(shares))
    decreases |shares|
  {
    if shares != [] {
      LeastIsLeast(shares[..|shares| - 1]);
    }
  }

  /** The least credit is the fewest units of 64 bytes that hold half a frame. */
  lemma CreditHoldsHalfFrame(frame: nat)
    ensures 64 * MinCredit(frame) >= frame / 2
    ensures MinCredit(frame) > 0 ==> 64 * (MinCredit(frame) - 1) < frame / 2
  {}

  /** The least credit exceeds the refill cap exactly for frames above 25601 bytes. */
  lemma MinCreditRange(frame: nat)
    ensures MinCredit(frame) <= MAX_REFILL <==> frame <= 25601
    ensures frame <= 9432 ==> MinCredit(frame) <= 74
  {}

  /** The multiplier is the smallest that lifts the smallest share above the least credit. */
  lemma LeastMultiplier(credit: nat, least: nat, k: nat)
    requires least > 0
    ensures least * k > credit <==> k >= Multiplier(credit, least)
  {
    DivModDef(credit, least);
    var q := credit / least;
    if k > q {
      MulGap(least, q, k);
    } else if k < q {
      MulGap(least, k, q);
    }
  }

  lemma MulMonotone(a: nat, b: nat, k: nat)
    requires a <= b
    ensures a * k <= b * k
  {
    assert b * k == a * k + (b - a) * k;
  }

  /** Every refill lies between the least credit and 200, exactly for frames up to 25601 bytes. */
  lemma RefillRange(share: nat, multiplier: nat, frame: nat)
    ensures MinCredit(frame) <= Refill(share, multiplier, MinCredit(frame))
    ensures Refill(share, multiplier, MinCredit(frame)) <= MAX_REFILL <==> frame <= 25601
  {
    MinCreditRange(frame);
  }

  lemma RefillMonotone(a: nat, b: nat, multiplier: nat, credit: nat)
    requires a <= b
    ensures Refill(a, multiplier, credit) <= Refill(b, multiplier, credit)
  {
    MulMonotone(a, b, multiplier);
  }

  /** For a class with a share the least credit never binds: it gets its share times the multiplier,
      or the cap. */
  lemma RefillExact(share: nat, least: nat, credit: nat)
    requires 0 < least <= share && credit <= MAX_REFILL
    ensures Refill(share, Multiplier(credit, least), credit) == Min(share * Multiplier(credit, least), MAX_REFILL)
    ensures share * Multiplier(credit, least) > credit
  {
    var k := Multiplier(credit, least);
    LeastMultiplier(credit, least, k);
    MulMonotone(least, share, k);
  }

  /** Classes below the cap are refilled in the ratio of their shares. */
  lemma RefillKeepsRatio(a: nat, b: nat, least: nat, credit: nat)
    requires 0 < least <= a && least <= b
    requires Refill(a, Multiplier(credit, least), credit) < MAX_REFILL
    requires Refill(b, Multiplier(credit, least), credit) < MAX_REFILL
    ensures Refill(a, Multiplier(credit, least), credit) * b == Refill(b, Multiplier(credit, least), credit) * a
  {
    var k := Multiplier(credit, least);
    RefillExact(a, least, credit);
    RefillExact(b, least, credit);
    assert (a * k) * b == (b * k) * a by {
      assert (a * k) * b == a * (k * b);
      assert k * b == b * k;
      assert a * (b * k) == (b * k) * a;
    }
  }

  // ----- the IEEE calculator

  function IeeeMax(share: nat, credit: nat): nat {
    if share != 0 then share * MAX_CREDIT / 100 else credit
  }

  predicate Bytes(s: seq<nat>) {
    forall i | 0 <= i < |s| :: s[i] < 0x100
  }

  /** No product of the calculator leaves a signed 32-bit integer. */
  lemma NoOverflow(share: nat, frame: nat, least: nat)
    requires share < 0x100 && frame <= 0x4000_0000 && least > 0
    ensures share * Multiplier(MinCredit(frame), least) < 0x8000_0000
  {
    var credit := MinCredit(frame);
    assert credit <= 0x80_0000;
    DivModDef(credit, least);
    assert credit / least <= credit by {
      if credit / least > credit {
        MulMonotone(1, least, credit / least);
      }
    }
    var k := Multiplier(credit, least);
    MulMonotone(share, 0xff, k);
  }

  /** txgbe_dcb_calculate_tc_credits */
  method CreditsIeee(bw: seq<nat>, refill: array<nat>, max: array<nat>, frame: nat)
    requires |bw| == CLASSES && Bytes(bw) && frame <= 0x4000_0000
    requires refill.Length == max.Length == CLASSES && refill != max
    modifies refill, max
    ensures forall i | 0 <= i < CLASSES ::
      refill[i] == Refill(bw[i], Multiplier(MinCredit(frame), LeastOf(bw)), MinCredit(frame)) % 0x1_0000
    ensures forall i | 0 <= i < CLASSES :: max[i] == IeeeMax(bw[i], MinCredit(frame)) % 0x1_0000
  {
    hide MinCredit, Refill, Multiplier, IeeeMax;
    var minPercent := 100;
    var minCredit := (frame / 2 + 63) / 64;
    assert minCredit == MinCredit(frame) by {
      MinCreditDef(frame);
    }
    for i := 0 to CLASSES
      invariant minPercent == Least(bw[..i])
    {
      assert bw[..i + 1][..i] == bw[..i];
      if bw[i] < minPercent && bw[i] != 0 {
        minPercent := bw[i];
      }
    }
    assert bw[..CLASSES] == bw;
    LeastIsLeast(bw);
    var multiplier := minCredit / minPercent + 1;
    assert multiplier == Multiplier(MinCredit(frame), LeastOf(bw)) by {
      MultiplierDef(minCredit, minPercent);
    }
    for i := 0 to CLASSES
      invariant forall j | 0 <= j < i :: refill[j] == Refill(bw[j], multiplier, minCredit) % 0x1_0000
      invariant forall j | 0 <= j < i :: max[j] == IeeeMax(bw[j], minCredit) % 0x1_0000
    {
      NoOverflow(bw[i], frame, minPercent);
      var val := Min(bw[i] * multiplier, MAX_REFILL);
      if val < minCredit {
        val := minCredit;
      }
      ClassDef(bw[i], multiplier, minCredit);
      refill[i] := val % 0x1_0000;
      max[i] := (if bw[i] != 0 then bw[i] * MAX_CREDIT / 100 else minCredit) % 0x1_0000;
    }
  }

  /** Least share as a positive divisor. */
  function LeastOf(shares: seq<nat>): (m: nat)
    ensures IsLeast(shares, m) && m == Least(shares)
  {
    LeastIsLeast(shares);
    Least(shares)
  }

  lemma MinCreditDef(frame: nat)
    ensures MinCredit(frame) == (frame / 2 + 63) / 64
  {}

  lemma MultiplierDef(credit: nat, least: nat)
    requires least > 0
    ensures Multiplier(credit, least) == credit / least + 1
  {}

  lemma ClassDef(share: nat, multiplier: nat, credit: nat)
    ensures Refill(share, multiplier, credit)
         == if Min(share * multiplier, MAX_REFILL) < credit then credit else Min(share * multiplier, MAX_REFILL)
    ensures IeeeMax(share, credit) == if share != 0 then share * MAX_CREDIT / 100 else credit
  {}

  /** What the IEEE calculator gives every class, for every frame up to 25601 bytes. */
  lemma IeeeCredits(bw: seq<nat>, frame: nat, i: nat)
    requires |bw| == CLASSES && Bytes(bw) && frame <= 25601 && i < CLASSES
    ensures var credit, m := MinCredit(frame), LeastOf(bw);
      var r := Refill(bw[i], Multiplier(credit, m), credit) % 0x1_0000;
      && credit <= r <= MAX_REFILL
      && r == (if bw[i] == 0 then credit else Min(bw[i] * Multiplier(credit, m), MAX_REFILL))
      && forall j | 0 <= j < CLASSES && bw[i] <= bw[j] ::
           r <= Refill(bw[j], Multiplier(credit, m), credit) % 0x1_0000
  {
    hide MinCredit, Refill, Multiplier;
    var credit, m := MinCredit(frame), LeastOf(bw);
    var k := Multiplier(credit, m);
    MinCreditRange(frame);
    forall j | 0 <= j < CLASSES
      ensures Refill(bw[j], k, credit) % 0x1_0000 == Refill(bw[j], k, credit)
      ensures bw[i] <= bw[j] ==> Refill(bw[i], k, credit) <= Refill(bw[j], k, credit)
    {
      RefillRange(bw[j], k, frame);
      if bw[i] <= bw[j] {
        RefillMonotone(bw[i], bw[j], k, credit);
      }
    }
    RefillRange(bw[i], k, frame);
    if bw[i] != 0 {
      RefillExact(bw[i], m, credit);
    } else {
      ClassDef(0, k, credit);
    }
  }

  /** The IEEE maximum may stay below the least credit, which the CEE calculator prevents. */
  lemma IeeeMaxReaches(share: nat, frame: nat)
    requires share < 0x100 && frame <= 25601
    ensures IeeeMax(share, MinCredit(frame)) % 0x1_0000 >= MinCredit(frame)
       <==> share == 0 || 4 * share >= MinCredit(frame)
  {
    MinCreditRange(frame);
    FourTimes(share);
  }

  /** For instance a share of one percent under jumbo frames of 9432 bytes: four credits of 74. */
  lemma SmallShareStarves()
    ensures MinCredit(9432) == 74 && IeeeMax(1, MinCredit(9432)) == 4
    ensures Refill(1, Multiplier(MinCredit(9432), 1), MinCredit(9432)) == 75
  {}

  /** When a class may refill more than its maximum: a small share and a multiplier above four. */
  lemma IeeeRefillWithinMax(share: nat, least: nat, frame: nat)
    requires share < 0x100 && frame <= 25601 && 0 < least && (share == 0 || least <= share)
    ensures var credit := MinCredit(frame);
      Refill(share, Multiplier(credit, least), credit) <= IeeeMax(share, credit)
      <==> share == 0 || share >= 50 || credit < 4 * least
  {
    hide MinCredit, Refill;
    var credit := MinCredit(frame);
    var k := Multiplier(credit, least);
    MinCreditRange(frame);
    FourTimes(share);
    ClassDef(share, k, credit);
    LeastMultiplier(credit, least, 4);
    if share != 0 {
      RefillExact(share, least, credit);
      if k <= 4 {
        MulMonotone(k, 4, share);
        assert k * share == share * k;
      } else {
        MulMonotone(5, k, share);
        assert k * share == share * k;
      }
    }
  }

  // ----- the CEE calculator

  datatype Direction = Tx | Rx

  datatype Tsa = Ets | GroupStrict | Strict

  /** struct txgbe_dcb_tc_path */
  datatype Path = Path(bwgId: nat, bwgPercent: nat, linkPercent: nat, upToTc: nat, refill: nat, max: nat, tsa: Tsa)

  /** struct txgbe_dcb_tc_config */
  datatype TcConfig = TcConfig(tx: Path, rx: Path, pfc: bool, descMax: nat)

  function PathOf(tc: TcConfig, dir: Direction): Path {
    if dir.Tx? then tc.tx else tc.rx
  }

  /** struct txgbe_dcb_config */
  class Config {
    const tcs: array<TcConfig>
    var bwTx: seq<nat>
    var bwRx: seq<nat>
    var pgTcs: nat
    var pfcMode: bool
    var vtMode: bool

    constructor (tcs: array<TcConfig>, bwTx: seq<nat>, bwRx: seq<nat>, pgTcs: nat, pfcMode: bool, vtMode: bool)
      ensures this.tcs == tcs && this.bwTx == bwTx && this.bwRx == bwRx
      ensures this.pgTcs == pgTcs && this.pfcMode == pfcMode && this.vtMode == vtMode
    {
      this.tcs, this.bwTx, this.bwRx, this.pgTcs := tcs, bwTx, bwRx, pgTcs;
      this.pfcMode, this.vtMode := pfcMode, vtMode;
    }

    /** Array bounds and 8-bit fields. */
    ghost predicate Valid()
      reads this, tcs
    {
      && tcs.Length == CLASSES && |bwTx| == |bwRx| == CLASSES && Bytes(bwTx) && Bytes(bwRx)
      && pgTcs <= CLASSES
      && forall i | 0 <= i < CLASSES :: PathValid(tcs[i].tx) && PathValid(tcs[i].rx)
    }

    function Groups(dir: Direction): seq<nat>
      reads this
    {
      if dir.Tx? then bwTx else bwRx
    }
  }

  predicate PathValid(p: Path) {
    p.bwgId < CLASSES && p.bwgPercent < 0x100 && p.upToTc < 0x100
  }

  /** Share of the link: the class's part of its group, rounded down. */
  function Raw(p: Path, groups: seq<nat>): nat
    requires p.bwgId < |groups|
  {
    p.bwgPercent * groups[p.bwgId] / 100
  }

  /** A class that asked for something gets at least one percent. */
  function Link(p: Path, groups: seq<nat>): nat
    requires p.bwgId < |groups|
  {
    if p.bwgPercent > 0 && Raw(p, groups) == 0 then 1 else Raw(p, groups)
  }

  function RawShares(tcs: seq<TcConfig>, dir: Direction, groups: seq<nat>): (r: seq<nat>)
    requires forall i | 0 <= i < |tcs| :: PathOf(tcs[i], dir).bwgId < |groups|
    ensures |r| == |tcs| && forall i | 0 <= i < |tcs| :: r[i] == Raw(PathOf(tcs[i], dir), groups)
  {
    seq(|tcs|, i requires 0 <= i < |tcs| => Raw(PathOf(tcs[i], dir), groups))
  }

  function CeeRefill(link: nat, multiplier: nat, credit: nat): nat {
    var v := Min(link * multiplier % 0x1_0000_0000, MAX_REFILL);
    if v < credit then credit else v
  }

  function CeeMax(link: nat, credit: nat): nat {
    var v := link * MAX_CREDIT / 100;
    if v < credit then credit else v
  }

  function CeePath(p: Path, link: nat, multiplier: nat, credit: nat): Path {
    p.(linkPercent := link % 0x100,
       refill := CeeRefill(link, multiplier, credit) % 0x1_0000,
       max := CeeMax(link, credit) % 0x1_0000)
  }

  function CeeClass(tc: TcConfig, dir: Direction, link: nat, multiplier: nat, credit: nat): TcConfig {
    if dir.Tx? then tc.(tx := CeePath(tc.tx, link, multiplier, credit), descMax := CeeMax(link, credit) % 0x1_0000)
    else tc.(rx := CeePath(tc.rx, link, multiplier, credit))
  }

  /** The configuration after the calculator has run. */
  function CeeClasses(tcs: seq<TcConfig>, dir: Direction, groups: seq<nat>, frame: nat): (r: seq<TcConfig>)
    requires forall i | 0 <= i < |tcs| :: PathOf(tcs[i], dir).bwgId < |groups|
    ensures |r| == |tcs|
    ensures var k := Multiplier(MinCredit(frame), LeastOf(RawShares(tcs, dir, groups)));
      forall i | 0 <= i < |tcs| ::
        r[i] == CeeClass(tcs[i], dir, Link(PathOf(tcs[i], dir), groups), k, MinCredit(frame))
  {
    var k := Multiplier(MinCredit(frame), LeastOf(RawShares(tcs, dir, groups)));
    seq(|tcs|, i requires 0 <= i < |tcs| =>
      CeeClass(tcs[i], dir, Link(PathOf(tcs[i], dir), groups), k, MinCredit(frame)))
  }

  const ERR_CONFIG: int := -104

  /** txgbe_dcb_calculate_tc_credits_cee */
  method CreditsCee(cfg: Config?, frame: nat, dir: Direction) returns (ret: int)
    requires cfg != null ==> cfg.Valid()
    requires frame < 0x1_0000_0000
    modifies if cfg != null then {cfg.tcs} else {}
    ensures ret == if cfg == null then ERR_CONFIG else 0
    ensures cfg != null ==> cfg.Valid() && cfg.tcs[..] == CeeClasses(old(cfg.tcs[..]), dir, cfg.Groups(dir), frame)
  {
    if cfg == null {
      return ERR_CONFIG;
    }
    hide MinCredit, Multiplier, CeeClass, Link, IsLeast;
    MinCreditDef(frame);
    var minCredit := (frame / 2 + 63) / 64;
    var minPercent := LeastRaw(cfg, dir);
    LeastIsPositive(RawShares(cfg.tcs[..], dir, cfg.Groups(dir)));
    MultiplierDef(minCredit, minPercent);
    var multiplier := minCredit / minPercent + 1;
    RaiseAll(cfg, dir, minCredit, multiplier);
    return 0;
  }

  /** The first loop: the smallest nonzero link percentage before rounding up. */
  method LeastRaw(cfg: Config, dir: Direction) returns (minPercent: nat)
    requires cfg.Valid()
    ensures minPercent == LeastOf(RawShares(cfg.tcs[..], dir, cfg.Groups(dir)))
  {
    hide Least, IsLeast, Raw;
    ghost var shares := RawShares(cfg.tcs[..], dir, cfg.Groups(dir));
    minPercent := 100;
    assert Least(shares[..0]) == 100 by {
      LeastEmpty(shares[..0]);
    }
    for i := 0 to CLASSES
      invariant minPercent == Least(shares[..i])
    {
      var p := PathOf(cfg.tcs[i], dir);
      var link := p.bwgPercent * cfg.Groups(dir)[p.bwgId] / 100;
      assert link == shares[i] by {
        RawDef(p, cfg.Groups(dir));
      }
      LeastStep(shares, i);
      if link != 0 && link < minPercent {
        minPercent := link;
      }
    }
    assert shares[..CLASSES] == shares;
  }

  lemma LeastIsPositive(s: seq<nat>)
    ensures LeastOf(s) > 0
  {}

  lemma LeastEmpty(s: seq<nat>)
    requires s == []
    ensures Least(s) == 100
  {}

  lemma LeastStep(s: seq<nat>, i: nat)
    requires i < |s|
    ensures Least(s[..i + 1]) == if s[i] != 0 && s[i] < Least(s[..i]) then s[i] else Least(s[..i])
  {
    assert s[..i + 1][..i] == s[..i];
  }

  lemma RawDef(p: Path, groups: seq<nat>)
    requires p.bwgId < |groups|
    ensures Raw(p, groups) == p.bwgPercent * groups[p.bwgId] / 100
  {}

  /** The second loop: link percentage, refill and maximum of each class. */
  method RaiseAll(cfg: Config, dir: Direction, minCredit: nat, multiplier: nat)
    requires cfg.Valid()
    modifies cfg.tcs
    ensures cfg.Valid()
    ensures forall i | 0 <= i < CLASSES ::
      cfg.tcs[i] == CeeClass(old(cfg.tcs[i]), dir, Link(PathOf(old(cfg.tcs[i]), dir), cfg.Groups(dir)), multiplier, minCredit)
  {
    hide CeeClass, Link;
    for i := 0 to CLASSES
      invariant cfg.Valid()
      invariant forall j | i <= j < CLASSES :: cfg.tcs[j] == old(cfg.tcs[j])
      invariant forall j | 0 <= j < i ::
        cfg.tcs[j] == CeeClass(old(cfg.tcs[j]), dir, Link(PathOf(old(cfg.tcs[j]), dir), cfg.Groups(dir)), multiplier, minCredit)
    {
      var tc := RaiseOne(cfg.tcs[i], dir, cfg.Groups(dir), multiplier, minCredit);
      assert PathValid(tc.tx) && PathValid(tc.rx) by {
        CeeKeepsPaths(cfg.tcs[i], dir, Link(PathOf(cfg.tcs[i], dir), cfg.Groups(dir)), multiplier, minCredit);
      }
      cfg.tcs[i] := tc;
    }
  }

  lemma CeeKeepsPaths(tc: TcConfig, dir: Direction, link: nat, multiplier: nat, credit: nat)
    requires PathValid(tc.tx) && PathValid(tc.rx)
    ensures var r := CeeClass(tc, dir, link, multiplier, credit); PathValid(r.tx) && PathValid(r.rx)
  {}

  /** One pass of the second loop. */
  method RaiseOne(tc: TcConfig, dir: Direction, groups: seq<nat>, multiplier: nat, minCredit: nat)
    returns (r: TcConfig)
    requires PathValid(PathOf(tc, dir)) && |groups| == CLASSES
    ensures r == CeeClass(tc, dir, Link(PathOf(tc, dir), groups), multiplier, minCredit)
  {
    var p := PathOf(tc, dir);
    var link := p.bwgPercent * groups[p.bwgId] / 100;
    if p.bwgPercent > 0 && link == 0 {
      link := 1;
    }
    p := p.(linkPercent := link % 0x100);
    var refill := Min(link * multiplier % 0x1_0000_0000, MAX_REFILL);
    if refill < minCredit {
      refill := minCredit;
    }
    p := p.(refill := refill % 0x1_0000);
    var max := link * MAX_CREDIT / 100;
    if max < minCredit {
      max := minCredit;
    }
    r := tc;
    if dir.Tx? {
      r := r.(descMax := max % 0x1_0000);
    }
    p := p.(max := max % 0x1_0000);
    r := if dir.Tx? then r.(tx := p) else r.(rx := p);
  }

  // ----- what the CEE calculator gives

  predicate Percentages(p: Path, groups: seq<nat>) {
    p.bwgId < |groups| && p.bwgPercent <= 100 && groups[p.bwgId] <= 100
  }

  /** Percentages of percentages stay percentages. */
  lemma LinkIsPercentage(p: Path, groups: seq<nat>)
    requires Percentages(p, groups)
    ensures Link(p, groups) <= 100
    ensures Link(p, groups) == 0 <==> p.bwgPercent == 0
  {
    var product := p.bwgPercent * groups[p.bwgId];
    MulMonotone(p.bwgPercent, 100, groups[p.bwgId]);
    assert product <= 10000;
    if p.bwgPercent == 0 {
      assert product == 0;
    }
  }

  /** The share before rounding is the class's percentage of its group's percentage, rounded down. */
  lemma RawIsShareOfGroup(p: Path, groups: seq<nat>)
    requires p.bwgId < |groups|
    ensures 100 * Raw(p, groups) <= p.bwgPercent * groups[p.bwgId] < 100 * (Raw(p, groups) + 1)
    ensures Raw(p, groups) > 0 ==> Link(p, groups) == Raw(p, groups)
    ensures Raw(p, groups) == 0 ==> Link(p, groups) == (if p.bwgPercent > 0 then 1 else 0)
  {
    DivModDef(p.bwgPercent * groups[p.bwgId], 100);
  }

  /** The u32 product does not wrap. */
  lemma CeeNoWrap(link: nat, frame: nat, least: nat)
    requires link <= 100 && frame <= 25601 && least > 0
    ensures CeeRefill(link, Multiplier(MinCredit(frame), least), MinCredit(frame))
         == Refill(link, Multiplier(MinCredit(frame), least), MinCredit(frame))
  {
    NoOverflow(link, frame, least);
  }

  /** What one path holds afterwards. */
  predicate CeeOutcome(before: Path, p: Path, raw: nat, link: nat, multiplier: nat, credit: nat) {
    && p.linkPercent == link <= 100
    && credit <= p.refill <= MAX_REFILL
    && credit <= p.max <= MAX_CREDIT
    && (raw != 0 ==> p.refill == Min(p.linkPercent * multiplier, MAX_REFILL))
    && p.max == (if 4 * p.linkPercent < credit then credit else 4 * p.linkPercent)
    && p.bwgId == before.bwgId && p.bwgPercent == before.bwgPercent
    && p.upToTc == before.upToTc && p.tsa == before.tsa
  }

  lemma CeePathOutcome(before: Path, groups: seq<nat>, least: nat, frame: nat)
    requires frame <= 25601 && Percentages(before, groups)
    requires 0 < least && (Raw(before, groups) != 0 ==> least <= Raw(before, groups))
    ensures var credit, link := MinCredit(frame), Link(before, groups);
      CeeOutcome(before, CeePath(before, link, Multiplier(credit, least), credit),
                 Raw(before, groups), link, Multiplier(credit, least), credit)
  {
    hide MinCredit, Multiplier, Refill, CeeRefill, Raw, Link;
    var credit, link := MinCredit(frame), Link(before, groups);
    var k := Multiplier(credit, least);
    MinCreditRange(frame);
    LinkIsPercentage(before, groups);
    CeeNoWrap(link, frame, least);
    RefillRange(link, k, frame);
    FourTimes(link);
    if Raw(before, groups) != 0 {
      LinkDef(before, groups);
      RefillExact(link, least, credit);
    }
  }

  ghost predicate AllPercentages(tcs: seq<TcConfig>, dir: Direction, groups: seq<nat>) {
    forall j | 0 <= j < |tcs| :: Percentages(PathOf(tcs[j], dir), groups)
  }

  /** Bounds of every class under percentages, for every frame up to 25601 bytes; nothing is cut off
      by the narrow fields, and every class with a share before rounding is in proportion. */
  lemma CeeCredits(tcs: seq<TcConfig>, dir: Direction, groups: seq<nat>, frame: nat, i: nat)
    requires i < |tcs| && frame <= 25601 && AllPercentages(tcs, dir, groups)
    ensures var k := Multiplier(MinCredit(frame), LeastOf(RawShares(tcs, dir, groups)));
      CeeOutcome(PathOf(tcs[i], dir), PathOf(CeeClasses(tcs, dir, groups, frame)[i], dir),
                 Raw(PathOf(tcs[i], dir), groups), Link(PathOf(tcs[i], dir), groups), k, MinCredit(frame))
  {
    hide CeeOutcome, Multiplier, MinCredit, Raw, Link, CeePath;
    var shares := RawShares(tcs, dir, groups);
    assert shares[i] == Raw(PathOf(tcs[i], dir), groups);
    CeePathOutcome(PathOf(tcs[i], dir), groups, LeastOf(shares), frame);
  }

  /** A larger link percentage never gets a smaller refill. */
  lemma CeeMonotone(tcs: seq<TcConfig>, dir: Direction, groups: seq<nat>, frame: nat, i: nat, j: nat)
    requires i < |tcs| && j < |tcs| && frame <= 25601 && AllPercentages(tcs, dir, groups)
    requires Link(PathOf(tcs[i], dir), groups) <= Link(PathOf(tcs[j], dir), groups)
    ensures PathOf(CeeClasses(tcs, dir, groups, frame)[i], dir).refill
         <= PathOf(CeeClasses(tcs, dir, groups, frame)[j], dir).refill
  {
    hide Multiplier, MinCredit, Raw, Link, CeeRefill, Refill, CeeMax, CeeClass;
    var p, q := PathOf(tcs[i], dir), PathOf(tcs[j], dir);
    var credit, least := MinCredit(frame), LeastOf(RawShares(tcs, dir, groups));
    ClassRefill(tcs[i], dir, groups, least, frame);
    ClassRefill(tcs[j], dir, groups, least, frame);
    RefillMonotone(Link(p, groups), Link(q, groups), Multiplier(credit, least), credit);
  }

  lemma ClassRefill(tc: TcConfig, dir: Direction, groups: seq<nat>, least: nat, frame: nat)
    requires frame <= 25601 && least > 0 && Percentages(PathOf(tc, dir), groups)
    ensures var credit, link := MinCredit(frame), Link(PathOf(tc, dir), groups);
      var k := Multiplier(credit, least);
      PathOf(CeeClass(tc, dir, link, k, credit), dir).refill == Refill(link, k, credit)
  {
    hide Multiplier, MinCredit, Raw, Link, CeeRefill, Refill, CeeMax;
    var credit, link := MinCredit(frame), Link(PathOf(tc, dir), groups);
    LinkIsPercentage(PathOf(tc, dir), groups);
    CeeNoWrap(link, frame, least);
    RefillRange(link, Multiplier(credit, least), frame);
  }

  lemma FourTimes(link: nat)
    ensures link * MAX_CREDIT / 100 == 4 * link
  {}

  lemma LinkDef(p: Path, groups: seq<nat>)
    requires p.bwgId < |groups|
    ensures Raw(p, groups) != 0 ==> Link(p, groups) == Raw(p, groups)
    ensures Raw(p, groups) == 0 && p.bwgPercent > 0 ==> Link(p, groups) == 1
  {}

  /** The smallest share is found before rounding, so a class rounded up to one percent is in
      proportion to the others only in corner cases. */
  lemma RoundedShare(p: Path, groups: seq<nat>, least: nat, frame: nat)
    requires Percentages(p, groups) && p.bwgPercent > 0 && Raw(p, groups) == 0
    requires frame <= 25601 && least > 0
    ensures var credit := MinCredit(frame);
      var k := Multiplier(credit, least);
      CeeRefill(Link(p, groups), k, credit) == Min(Link(p, groups) * k, MAX_REFILL)
      <==> least == 1 || credit <= 1 || (credit == 2 && least == 2)
  {
    hide MinCredit, Raw, Refill;
    var credit := MinCredit(frame);
    var k := Multiplier(credit, least);
    MinCreditRange(frame);
    LinkDef(p, groups);
    LeastMultiplier(credit, least, credit);
    CeeNoWrap(1, frame, least);
    ClassDef(1, k, credit);
    WhenQuotientIsLarge(credit, least);
  }

  lemma WhenQuotientIsLarge(credit: nat, least: nat)
    requires least > 0
    ensures credit <= credit / least + 1 <==> least == 1 || credit <= 1 || (credit == 2 && least == 2)
  {
    DivModDef(credit, least);
    var q := credit / least;
    if least >= 2 && credit > 1 {
      MulMonotone(2, least, q);
      if least > 2 && credit == 2 {
        DivModUnique(credit, least, 0, credit);
      } else if credit == 2 {
        DivModUnique(credit, least, 1, 0);
      }
    }
  }

  /** For instance one percent of a group with half the link, beside a class with all of its own: the
      multiplier is 1, yet the rounded class is refilled 74 credits. */
  lemma RoundedOutOfProportion(tsa: Tsa)
    ensures var p := Path(0, 1, 0, 0, 0, 0, tsa);
      && Raw(p, [50]) == 0 && Link(p, [50]) == 1
      && Multiplier(MinCredit(9432), 100) == 1
      && CeeRefill(Link(p, [50]), 1, MinCredit(9432)) == 74
  {}
}
