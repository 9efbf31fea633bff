/** The update engine of src/kcompat_pldmfw.c: record matching and the ordered callbacks. */
module PldmUpdate {
  import opened Wrappers
  import opened PldmFormat
  import opened PldmParser
  import opened PldmEngine

  // ----- matching a record to a PCI device

  datatype PciId = PciId(vendor: nat, device: nat, subVendor: nat, subDevice: nat)

  const ANY_ID := -1
  const VENDOR := 0x0000
  const DEVICE := 0x0100
  const SUBVENDOR := 0x0101
  const SUBDEV := 0x0102

  predicate IsPciKind(kind: nat) {
    kind == VENDOR || kind == DEVICE || kind == SUBVENDOR || kind == SUBDEV
  }

  /** The value of a two-byte descriptor; 0 stands for any device. */
  function IdValue(d: Desc): nat {
    if |d.data| >= 2 then Get16(d.data, 0) else 0
  }

  /** The last descriptor of kind `kind`, if there is one, is 0 or equals `id`. */
  predicate LastMatches(ds: seq<Desc>, kind: nat, id: nat) {
    forall i | 0 <= i < |ds| && ds[i].kind == kind && (forall j | i < j < |ds| :: ds[j].kind != kind) ::
      IdValue(ds[i]) == 0 || IdValue(ds[i]) == id
  }

  predicate Matches(ds: seq<Desc>, dev: PciId) {
    && LastMatches(ds, VENDOR, dev.vendor)
    && LastMatches(ds, DEVICE, dev.device)
    && LastMatches(ds, SUBVENDOR, dev.subVendor)
    && LastMatches(ds, SUBDEV, dev.subDevice)
  }

  /** What the matching loop has in a field after the first n descriptors. */
  ghost predicate Tracks(ds: seq<Desc>, n: nat, kind: nat, v: int)
    requires n <= |ds|
  {
    if exists i :: 0 <= i < n && ds[i].kind == kind then
      exists i :: 0 <= i < n && ds[i].kind == kind && (forall j | i < j < n :: ds[j].kind != kind)
               && v == (if IdValue(ds[i]) == 0 then ANY_ID else IdValue(ds[i]))
    else v == ANY_ID
  }

  lemma TrackNext(ds: seq<Desc>, n: nat, kind: nat, v: int)
    requires n < |ds| && Tracks(ds, n, kind, v)
    ensures var d := ds[n];
      Tracks(ds, n + 1, kind, if d.kind != kind then v else if IdValue(d) == 0 then ANY_ID else IdValue(d))
  {
    hide IdValue;
    if ds[n].kind == kind {
      assert 0 <= n < n + 1 && ds[n].kind == kind;
    } else if exists i :: 0 <= i < n && ds[i].kind == kind {
      var i :| 0 <= i < n && ds[i].kind == kind && (forall j | i < j < n :: ds[j].kind != kind)
            && v == (if IdValue(ds[i]) == 0 then ANY_ID else IdValue(ds[i]));
      assert 0 <= i < n + 1 && ds[i].kind == kind && (forall j | i < j < n + 1 :: ds[j].kind != kind);
    } else {
      assert forall i | 0 <= i < n + 1 :: ds[i].kind != kind;
    }
  }

  lemma TrackedMatches(ds: seq<Desc>, kind: nat, v: int, id: nat)
    requires Tracks(ds, |ds|, kind, v)
    ensures LastMatches(ds, kind, id) <==> v == ANY_ID || v == id
  {
    hide IdValue;
    if exists i :: 0 <= i < |ds| && ds[i].kind == kind {
      var i :| 0 <= i < |ds| && ds[i].kind == kind && (forall j | i < j < |ds| :: ds[j].kind != kind)
            && v == (if IdValue(ds[i]) == 0 then ANY_ID else IdValue(ds[i]));
      forall k | 0 <= k < |ds| && ds[k].kind == kind && (forall j | k < j < |ds| :: ds[j].kind != kind)
        ensures k == i
      {}
    }
  }

  /** pldmfw_op_pci_match_record */
  method MatchRecord(ds: seq<Desc>, dev: PciId) returns (match_: bool)
    ensures match_ <==> Matches(ds, dev)
  {
    hide IdValue, Tracks, LastMatches;
    var vendor, device, subVendor, subDevice: int := ANY_ID, ANY_ID, ANY_ID, ANY_ID;
    TrackNone(ds);
    for n := 0 to |ds|
      invariant Tracks(ds, n, VENDOR, vendor) && Tracks(ds, n, DEVICE, device)
      invariant Tracks(ds, n, SUBVENDOR, subVendor) && Tracks(ds, n, SUBDEV, subDevice)
    {
      var d := ds[n];
      TrackNext(ds, n, VENDOR, vendor);
      TrackNext(ds, n, DEVICE, device);
      TrackNext(ds, n, SUBVENDOR, subVendor);
      TrackNext(ds, n, SUBDEV, subDevice);
      if IsPciKind(d.kind) {
        var value: int := if IdValue(d) == 0 then ANY_ID else IdValue(d);
        if d.kind == VENDOR {
          vendor := value;
        } else if d.kind == DEVICE {
          device := value;
        } else if d.kind == SUBVENDOR {
          subVendor := value;
        } else {
          subDevice := value;
        }
      }
    }
    TrackedMatches(ds, VENDOR, vendor, dev.vendor);
    TrackedMatches(ds, DEVICE, device, dev.device);
    TrackedMatches(ds, SUBVENDOR, subVendor, dev.subVendor);
    TrackedMatches(ds, SUBDEV, subDevice, dev.subDevice);
    match_ := (vendor == ANY_ID || vendor == dev.vendor) && (device == ANY_ID || device == dev.device)
           && (subVendor == ANY_ID || subVendor == dev.subVendor) && (subDevice == ANY_ID || subDevice == dev.subDevice);
  }

  lemma TrackNone(ds: seq<Desc>)
    ensures Tracks(ds, 0, VENDOR, ANY_ID) && Tracks(ds, 0, DEVICE, ANY_ID)
    ensures Tracks(ds, 0, SUBVENDOR, ANY_ID) && Tracks(ds, 0, SUBDEV, ANY_ID)
  {}

  /** pldm_find_matching_record: the first record that matches. */
  method FindRecord(records: seq<RecordNode>, dev: PciId) returns (k: Option<nat>)
    ensures k.Some? ==>
      && k.value < |records| && Matches(Payload(records[k.value].descs), dev)
      && forall i | 0 <= i < k.value :: !Matches(Payload(records[i].descs), dev)
    ensures k.None? ==> forall i | 0 <= i < |records| :: !Matches(Payload(records[i].descs), dev)
  {
    hide Matches, Payload;
    for i := 0 to |records|
      invariant forall j | 0 <= j < i :: !Matches(Payload(records[j].descs), dev)
    {
      var hit := MatchRecord(Payload(records[i].descs), dev);
      if hit {
        return Some(i);
      }
    }
    k := None;
  }

  // ----- the callbacks

  datatype Call = PackageData(data: seq<byte>) | Table(index: nat, flag: nat) | Flash(index: nat) | Finalize

  const START := 1
  const MIDDLE := 2
  const END := 4

  /** Return codes: the k-th callback of the update returns ret(k), 0 for success. `stray` is what
      test_bit finds beyond the end of the bitmap. */
  datatype Env = Env(ret: nat -> int, stray: nat -> bool, hasFinalize: bool)

  /** test_bit */
  predicate Applies(bits: seq<bool>, stray: nat -> bool, i: nat) {
    if i < |bits| then bits[i] else stray(i)
  }

  /** find_first_bit: the length if no bit is set. */
  function FirstBit(bits: seq<bool>): (r: nat)
    ensures r <= |bits| && (r < |bits| ==> bits[r]) && forall k | 0 <= k < r :: !bits[k]
  {
    if bits == [] || bits[0] then 0 else 1 + FirstBit(bits[1..])
  }

  /** find_last_bit: the length if no bit is set. */
  function LastBit(bits: seq<bool>): (r: nat)
    ensures r <= |bits|
    ensures r < |bits| ==> bits[r] && forall k | r < k < |bits| :: !bits[k]
    ensures r == |bits| ==> forall k | 0 <= k < |bits| :: !bits[k]
  {
    if bits == [] then 0
    else if bits[|bits| - 1] then |bits| - 1
    else
      var r := LastBit(bits[..|bits| - 1]);
      if r == |bits| - 1 then |bits| else r
  }

  /** The transfer flag of the table of component i. */
  function FlagOf(bits: seq<bool>, i: nat): nat {
    var flag := (if i == FirstBit(bits) then START else 0) + (if i == LastBit(bits) then END else 0);
    if flag == 0 then MIDDLE else flag
  }

  /** One table per applicable component, in list order. */
  function Tables(bits: seq<bool>, stray: nat -> bool, cs: seq<ComponentNode>): seq<Call> {
    if cs == [] then []
    else
      (if Applies(bits, stray, cs[0].index) then [Table(cs[0].index, FlagOf(bits, cs[0].index))] else [])
      + Tables(bits, stray, cs[1..])
  }

  function Flashes(bits: seq<bool>, stray: nat -> bool, cs: seq<ComponentNode>): seq<Call> {
    if cs == [] then []
    else
      (if Applies(bits, stray, cs[0].index) then [Flash(cs[0].index)] else []) + Flashes(bits, stray, cs[1..])
  }

  /** The complete update of a record. */
  function Update(r: RecordNode, cs: seq<ComponentNode>, env: Env): seq<Call> {
    [PackageData(r.packageData)]
    + (Tables(r.bits, env.stray, cs)
    + (Flashes(r.bits, env.stray, cs)
    + (if env.hasFinalize then [Finalize] else [])))
  }

  /** Making calls in order until one fails: the calls made and the last return code. */
  function Attempt(trace: seq<Call>, calls: seq<Call>, ret: nat -> int): (seq<Call>, int)
    decreases |calls|
  {
    if calls == [] then (trace, 0)
    else
      var e := ret(|trace|);
      if e != 0 then (trace + [calls[0]], e) else Attempt(trace + [calls[0]], calls[1..], ret)
  }

  lemma {:induction false} AttemptConcat(trace: seq<Call>, a: seq<Call>, b: seq<Call>, ret: nat -> int)
    ensures var (t, e) := Attempt(trace, a, ret);
      Attempt(trace, a + b, ret) == if e != 0 then (t, e) else Attempt(t, b, ret)
    decreases |a|
  {
    if a == [] {
      assert a + b == b;
    } else {
      assert (a + b)[0] == a[0] && (a + b)[1..] == a[1..] + b;
      AttemptConcat(trace + [a[0]], a[1..], b, ret);
    }
  }

  /** For every pattern of failures the calls made are a prefix of the plan: all of it if nothing
      failed, otherwise up to and including the first call that failed. */
  lemma {:induction false} AttemptIsPrefix(trace: seq<Call>, calls: seq<Call>, ret: nat -> int)
    ensures var (t, e) := Attempt(trace, calls, ret);
      && t <= trace + calls && |trace| <= |t|
      && (forall k | |trace| <= k < |t| - 1 :: ret(k) == 0)
      && (e == 0 ==> t == trace + calls && forall k | |trace| <= k < |t| :: ret(k) == 0)
      && (e != 0 ==> |trace| < |t| && ret(|t| - 1) == e)
    decreases |calls|
  {
    if calls == [] {
      assert trace + calls == trace;
    } else {
      assert trace + calls == trace + [calls[0]] + calls[1..];
      AttemptIsPrefix(trace + [calls[0]], calls[1..], ret);
    }
  }

  // ----- the order and the marks of the tables

  predicate ConsecutiveFrom(cs: seq<ComponentNode>, base: nat) {
    forall k | 0 <= k < |cs| :: cs[k].index == base + k
  }

  /** A table of an applicable component with index in lo..hi, with the flag computed for it. */
  predicate TableOk(bits: seq<bool>, stray: nat -> bool, c: Call, lo: nat, hi: nat) {
    c.Table? && lo <= c.index < hi && Applies(bits, stray, c.index) && c.flag == FlagOf(bits, c.index)
  }

  predicate Increasing(t: seq<Call>) {
    forall k, l | 0 <= k < l < |t| && t[k].Table? && t[l].Table? :: t[k].index < t[l].index
  }

  predicate Sends(t: seq<Call>, i: nat) {
    exists k :: 0 <= k < |t| && t[k].Table? && t[k].index == i
  }

  /** Tables are sent in increasing index order, one for each applicable component. */
  lemma {:induction false} TablesInOrder(bits: seq<bool>, stray: nat -> bool, cs: seq<ComponentNode>, base: nat)
    requires ConsecutiveFrom(cs, base)
    ensures forall k | 0 <= k < |Tables(bits, stray, cs)| ::
      TableOk(bits, stray, Tables(bits, stray, cs)[k], base, base + |cs|)
    ensures Increasing(Tables(bits, stray, cs))
    ensures forall i | base <= i < base + |cs| && Applies(bits, stray, i) :: Sends(Tables(bits, stray, cs), i)
    decreases |cs|
  {
    hide FlagOf, TableOk, Sends, Applies;
    if cs != [] {
      TablesInOrder(bits, stray, cs[1..], base + 1);
      var rest := Tables(bits, stray, cs[1..]);
      assert base + 1 + |cs[1..]| == base + |cs|;
      if Applies(bits, stray, base) {
        PrependTable(bits, stray, rest, base, base + |cs|);
        assert Tables(bits, stray, cs) == [Table(base, FlagOf(bits, base))] + rest;
      } else {
        WidenTables(bits, stray, rest, base, base + |cs|);
        assert Tables(bits, stray, cs) == rest;
      }
    }
  }

  lemma PrependTable(bits: seq<bool>, stray: nat -> bool, rest: seq<Call>, base: nat, hi: nat)
    requires base < hi && Applies(bits, stray, base) && Increasing(rest)
    requires forall k | 0 <= k < |rest| :: TableOk(bits, stray, rest[k], base + 1, hi)
    requires forall i | base + 1 <= i < hi && Applies(bits, stray, i) :: Sends(rest, i)
    ensures var t := [Table(base, FlagOf(bits, base))] + rest;
      Increasing(t) && forall i | base <= i < hi && Applies(bits, stray, i) :: Sends(t, i)
    ensures forall k | 0 <= k < |rest| + 1 ::
      TableOk(bits, stray, ([Table(base, FlagOf(bits, base))] + rest)[k], base, hi)
  {
    hide FlagOf, Applies;
    var t := [Table(base, FlagOf(bits, base))] + rest;
    forall i | base <= i < hi && Applies(bits, stray, i) ensures Sends(t, i) {
      if i == base {
        assert t[0].Table? && t[0].index == base;
      } else {
        assert Sends(rest, i);
        var k :| 0 <= k < |rest| && rest[k].Table? && rest[k].index == i;
        assert t[k + 1] == rest[k];
      }
    }
    forall k | 0 <= k < |t| ensures TableOk(bits, stray, t[k], base, hi) {
      if k > 0 {
        assert t[k] == rest[k - 1] && TableOk(bits, stray, rest[k - 1], base + 1, hi);
      }
    }
  }

  lemma WidenTables(bits: seq<bool>, stray: nat -> bool, rest: seq<Call>, base: nat, hi: nat)
    requires base < hi && !Applies(bits, stray, base)
    requires forall k | 0 <= k < |rest| :: TableOk(bits, stray, rest[k], base + 1, hi)
    requires forall i | base + 1 <= i < hi && Applies(bits, stray, i) :: Sends(rest, i)
    ensures forall k | 0 <= k < |rest| :: TableOk(bits, stray, rest[k], base, hi)
    ensures forall i | base <= i < hi && Applies(bits, stray, i) :: Sends(rest, i)
  {
    hide FlagOf, Sends, Applies;
  }

  /** The flash calls for the components of some tables, in the same order. */
  function FlashesFor(tables: seq<Call>): (r: seq<Call>)
    requires forall k | 0 <= k < |tables| :: tables[k].Table?
    ensures |r| == |tables| && forall k | 0 <= k < |r| :: r[k] == Flash(tables[k].index)
  {
    seq(|tables|, k requires 0 <= k < |tables| => Flash(tables[k].index))
  }

  /** One flash for each table, in the same order. */
  lemma {:induction false} FlashesFollowTables(bits: seq<bool>, stray: nat -> bool, cs: seq<ComponentNode>)
    ensures forall k | 0 <= k < |Tables(bits, stray, cs)| :: Tables(bits, stray, cs)[k].Table?
    ensures Flashes(bits, stray, cs) == FlashesFor(Tables(bits, stray, cs))
    decreases |cs|
  {
    hide FlagOf, Applies;
    if cs != [] {
      FlashesFollowTables(bits, stray, cs[1..]);
      var rest := Tables(bits, stray, cs[1..]);
      if Applies(bits, stray, cs[0].index) {
        PrependFlash(Table(cs[0].index, FlagOf(bits, cs[0].index)), rest);
      } else {
        assert Tables(bits, stray, cs) == rest;
        assert Flashes(bits, stray, cs) == Flashes(bits, stray, cs[1..]);
      }
    }
  }

  lemma PrependFlash(t: Call, rest: seq<Call>)
    requires t.Table? && forall k | 0 <= k < |rest| :: rest[k].Table?
    ensures FlashesFor([t] + rest) == [Flash(t.index)] + FlashesFor(rest)
  {}

  predicate HasStart(flag: nat) {
    flag == START || flag == START + END
  }

  predicate HasEnd(flag: nat) {
    flag == END || flag == START + END
  }

  /** The transfer flags mark the first and the last table. */
  predicate StartMarked(t: seq<Call>) {
    forall k | 0 <= k < |t| :: t[k].Table? && (HasStart(t[k].flag) <==> k == 0)
  }

  predicate EndMarked(t: seq<Call>) {
    forall k | 0 <= k < |t| :: t[k].Table? && (HasEnd(t[k].flag) <==> k == |t| - 1)
  }

  predicate MiddleMarked(t: seq<Call>) {
    forall k | 0 <= k < |t| ::
      t[k].Table? && (t[k].flag == MIDDLE <==> !HasStart(t[k].flag) && !HasEnd(t[k].flag))
  }

  /** START marks the first table exactly if a bit is set, or if the first bit read beyond the bitmap
      is: a search that finds nothing answers the length. */
  predicate StartFinds(bits: seq<bool>, stray: nat -> bool) {
    true in bits || stray(|bits|)
  }

  /** END marks the last table exactly if every set bit names one of the n components and no
      component beyond the bitmap applies, except the one right behind an empty bitmap. */
  predicate EndFinds(bits: seq<bool>, stray: nat -> bool, n: nat) {
    && (forall i | 0 <= i < |bits| && bits[i] :: i < n)
    && (forall i | |bits| <= i < n && stray(i) :: i == |bits| && true !in bits)
  }

  /** The marks of every non-empty table list. */
  lemma TableMarks(bits: seq<bool>, stray: nat -> bool, cs: seq<ComponentNode>)
    requires ConsecutiveFrom(cs, 0) && Tables(bits, stray, cs) != []
    ensures StartMarked(Tables(bits, stray, cs)) <==> StartFinds(bits, stray)
    ensures EndMarked(Tables(bits, stray, cs)) <==> EndFinds(bits, stray, |cs|)
    ensures MiddleMarked(Tables(bits, stray, cs))
  {
    hide Tables, FirstBit, LastBit;
    TablesInOrder(bits, stray, cs, 0);
    var t := Tables(bits, stray, cs);
    forall k | 0 <= k < |t| ensures TableOk(bits, stray, t[k], 0, |cs|) {}
    StartMarks(bits, stray, t, |cs|);
    EndMarks(bits, stray, t, |cs|);
  }

  /** For instance two set bits and one component: its table carries START and nothing carries END. */
  lemma EndMarkMissing(stray: nat -> bool, c: Component)
    ensures var bits := [true, true, false, false, false, false, false, false];
      var t := Tables(bits, stray, [ComponentNode(0, 0, c)]);
      |t| == 1 && StartMarked(t) && !EndMarked(t)
  {
    hide FlagOf;
    var bits := [true, true, false, false, false, false, false, false];
    var cs := [ComponentNode(0, 0, c)];
    assert cs[1..] == [] && Applies(bits, stray, 0);
    assert Tables(bits, stray, cs) == [Table(0, FlagOf(bits, 0))];
    assert bits[1];
    TableMarks(bits, stray, cs);
  }

  lemma FlagMarks(bits: seq<bool>, i: nat)
    ensures HasStart(FlagOf(bits, i)) <==> i == FirstBit(bits)
    ensures HasEnd(FlagOf(bits, i)) <==> i == LastBit(bits)
  {
    hide FirstBit, LastBit;
  }

  lemma StartMarks(bits: seq<bool>, stray: nat -> bool, t: seq<Call>, n: nat)
    requires t != [] && Increasing(t) && forall k | 0 <= k < |t| :: TableOk(bits, stray, t[k], 0, n)
    requires forall i | 0 <= i < n && Applies(bits, stray, i) :: Sends(t, i)
    ensures StartMarked(t) <==> StartFinds(bits, stray)
  {
    hide FirstBit, LastBit, FlagOf, HasStart, HasEnd;
    var first := FirstBit(bits);
    forall k | 0 <= k < |t| ensures t[k].Table? && (HasStart(t[k].flag) <==> t[k].index == first) {
      assert TableOk(bits, stray, t[k], 0, n);
      FlagMarks(bits, t[k].index);
    }
    assert TableOk(bits, stray, t[0], 0, n);
    assert first <= t[0].index;
    if StartFinds(bits, stray) {
      assert Applies(bits, stray, first);
      assert Sends(t, first);
      var f :| 0 <= f < |t| && t[f].Table? && t[f].index == first;
      assert f == 0;
    }
  }

  lemma EndMarks(bits: seq<bool>, stray: nat -> bool, t: seq<Call>, n: nat)
    requires t != [] && Increasing(t) && forall k | 0 <= k < |t| :: TableOk(bits, stray, t[k], 0, n)
    requires forall i | 0 <= i < n && Applies(bits, stray, i) :: Sends(t, i)
    ensures EndMarked(t) <==> EndFinds(bits, stray, n)
  {
    hide FirstBit, LastBit, FlagOf, HasStart, HasEnd;
    var last, top := LastBit(bits), t[|t| - 1].index;
    forall k | 0 <= k < |t| ensures t[k].Table? && (HasEnd(t[k].flag) <==> t[k].index == last) {
      assert TableOk(bits, stray, t[k], 0, n);
      FlagMarks(bits, t[k].index);
    }
    assert TableOk(bits, stray, t[|t| - 1], 0, n);
    assert forall i | 0 <= i < n && Applies(bits, stray, i) :: i <= top by {
      forall i | 0 <= i < n && Applies(bits, stray, i) ensures i <= top {
        assert Sends(t, i);
        var k :| 0 <= k < |t| && t[k].Table? && t[k].index == i;
      }
    }
    assert EndMarked(t) <==> top == last;
    assert top == last <==> EndFinds(bits, stray, n) by {
      LastIsTop(bits, stray, n, top);
    }
  }

  /** The last applicable component is the one the search for the last bit answers. */
  lemma LastIsTop(bits: seq<bool>, stray: nat -> bool, n: nat, top: nat)
    requires top < n && Applies(bits, stray, top)
    requires forall i | 0 <= i < n && Applies(bits, stray, i) :: i <= top
    ensures top == LastBit(bits) <==> EndFinds(bits, stray, n)
  {
    hide LastBit;
    var last := LastBit(bits);
    assert forall i | |bits| <= i < n && stray(i) :: Applies(bits, stray, i);
    if last < |bits| {
      assert bits[last];
      assert last < n ==> Applies(bits, stray, last);
      assert EndFinds(bits, stray, n) ==> top < |bits|;
    } else {
      assert true !in bits;
    }
  }

  // ----- running an update

  /** pldm_send_component_tables */
  method SendTables(bits: seq<bool>, cs: seq<ComponentNode>, env: Env, before: seq<Call>)
    returns (trace: seq<Call>, err: int)
    ensures (trace, err) == Attempt(before, Tables(bits, env.stray, cs), env.ret)
  {
    hide FirstBit, LastBit;
    trace := before;
    assert cs[0..] == cs;
    for k := 0 to |cs|
      invariant Attempt(before, Tables(bits, env.stray, cs), env.ret)
             == Attempt(trace, Tables(bits, env.stray, cs[k..]), env.ret)
    {
      var index := cs[k].index;
      assert cs[k..][1..] == cs[k + 1..];
      if !Applies(bits, env.stray, index) {
        assert [] + Tables(bits, env.stray, cs[k + 1..]) == Tables(bits, env.stray, cs[k + 1..]);
        continue;
      }
      var flag := 0;
      if index == FirstBit(bits) {
        flag := flag + START;
      }
      if index == LastBit(bits) {
        flag := flag + END;
      }
      if flag == 0 {
        flag := MIDDLE;
      }
      AttemptOne(trace, Table(index, flag), Tables(bits, env.stray, cs[k + 1..]), env.ret);
      err := env.ret(|trace|);
      trace := trace + [Table(index, flag)];
      if err != 0 {
        return;
      }
    }
    err := 0;
  }

  lemma AttemptOne(trace: seq<Call>, c: Call, rest: seq<Call>, ret: nat -> int)
    ensures Attempt(trace, [c] + rest, ret)
         == if ret(|trace|) != 0 then (trace + [c], ret(|trace|)) else Attempt(trace + [c], rest, ret)
  {
    assert ([c] + rest)[1..] == rest;
  }

  /** pldm_flash_components */
  method FlashComponents(bits: seq<bool>, cs: seq<ComponentNode>, env: Env, before: seq<Call>)
    returns (trace: seq<Call>, err: int)
    ensures (trace, err) == Attempt(before, Flashes(bits, env.stray, cs), env.ret)
  {
    trace := before;
    assert cs[0..] == cs;
    for k := 0 to |cs|
      invariant Attempt(before, Flashes(bits, env.stray, cs), env.ret)
             == Attempt(trace, Flashes(bits, env.stray, cs[k..]), env.ret)
    {
      var index := cs[k].index;
      assert cs[k..][1..] == cs[k + 1..];
      if !Applies(bits, env.stray, index) {
        assert [] + Flashes(bits, env.stray, cs[k + 1..]) == Flashes(bits, env.stray, cs[k + 1..]);
        continue;
      }
      AttemptOne(trace, Flash(index), Flashes(bits, env.stray, cs[k + 1..]), env.ret);
      err := env.ret(|trace|);
      trace := trace + [Flash(index)];
      if err != 0 {
        return;
      }
    }
    err := 0;
  }

  /** The callback part of pldmfw_flash_image for the matching record. */
  method RunUpdate(r: RecordNode, cs: seq<ComponentNode>, env: Env) returns (trace: seq<Call>, err: int)
    ensures (trace, err) == Attempt([], Update(r, cs, env), env.ret)
  {
    hide Tables, Flashes;
    var tables, flashes := Tables(r.bits, env.stray, cs), Flashes(r.bits, env.stray, cs);
    var final := if env.hasFinalize then [Finalize] else [];
    AttemptOne([], PackageData(r.packageData), tables + (flashes + final), env.ret);
    trace := [PackageData(r.packageData)];
    assert [] + trace == trace;
    err := env.ret(0);
    if err != 0 {
      return;
    }
    AttemptConcat(trace, tables, flashes + final, env.ret);
    trace, err := SendTables(r.bits, cs, env, trace);
    if err != 0 {
      return;
    }
    AttemptConcat(trace, flashes, final, env.ret);
    trace, err := FlashComponents(r.bits, cs, env, trace);
    if err != 0 {
      return;
    }
    if env.hasFinalize {
      AttemptOne(trace, Finalize, [], env.ret);
      assert [Finalize] + [] == [Finalize];
      err := env.ret(|trace|);
      trace := trace + [Finalize];
    }
  }

  /** Record k is the first of a package that matches the device. */
  ghost predicate FirstMatch(rs: seq<Record>, dev: PciId, k: nat) {
    k < |rs| && Matches(rs[k].descs, dev) && forall i | 0 <= i < k :: !Matches(rs[i].descs, dev)
  }

  /** The update of a package's record k ran as far as the callbacks let it. */
  ghost predicate Ran(p: Parsed, k: nat, env: Env, trace: seq<Call>, err: Option<Errno>)
    requires k < |p.records|
  {
    exists r: RecordNode, cs: seq<ComponentNode> ::
      && Holds(r, p.records[k]) && IndexedOf(cs) == p.components
      && trace == Attempt([], Update(r, cs, env), env.ret).0
      && err == Code(Attempt([], Update(r, cs, env), env.ret).1)
  }

  function Code(code: int): Option<Errno> {
    if code == 0 then None else Some(Callback(code))
  }

  /** pldmfw_flash_image: parse, match, run the callbacks, and free everything on every path. */
  method FlashImage(img: seq<byte>, crc: seq<byte> -> u32, allocOk: nat -> bool, dev: PciId, env: Env)
    returns (err: Option<Errno>, trace: seq<Call>, freed: seq<nat>, granted: nat, tries: nat)
    ensures multiset(freed) == multiset(Upto(granted)) && granted + Refusals(err) == tries
    ensures Attempted(allocOk, err, 0, tries, ImageTries(img))
    ensures err == Some(ENOMEM) ==> trace == []
    ensures err != Some(ENOMEM) ==> FlashOutcome(ParseImage(img, crc), dev, env, trace, err)
  {
    hide ParseImage, ImageTries, Matches, Holds, Update, Upto, Payload, IndexedOf, AllRecordIds, ComponentIds;
    var priv := new Priv(img, crc, allocOk);
    trace := [];
    err := priv.Parse();
    if err.None? {
      ghost var p := ParseImage(img, crc).value;
      var k := FindRecord(priv.records, dev);
      PayloadsMatch(priv.records, p.records, dev);
      if k.None? {
        err := Some(ENOENT);
      } else {
        var code;
        var r, cs := priv.records[k.value], priv.components;
        trace, code := RunUpdate(r, cs, env);
        err := Code(code);
        assert FirstMatch(p.records, dev, k.value);
        assert Ran(p, k.value, env, trace, err);
      }
    }
    freed := priv.Free();
    granted, tries := priv.allocs, priv.tries;
  }

  /** What flashing reports and does, given what the image parses to. */
  ghost predicate FlashOutcome(image: Parse<Parsed>, dev: PciId, env: Env, trace: seq<Call>, err: Option<Errno>) {
    match image
    case Err(e) => trace == [] && err == Some(e)
    case Ok(p, _) =>
      if exists k: nat :: FirstMatch(p.records, dev, k)
      then exists k: nat :: FirstMatch(p.records, dev, k) && Ran(p, k, env, trace, err)
      else trace == [] && err == Some(ENOENT)
  }

  /** The engine's records match exactly when the package's do. */
  lemma PayloadsMatch(nodes: seq<RecordNode>, rs: seq<Record>, dev: PciId)
    requires HoldsAll(nodes, rs)
    ensures forall i | 0 <= i < |rs| :: Matches(Payload(nodes[i].descs), dev) <==> Matches(rs[i].descs, dev)
  {
    hide Matches, Payload;
    forall i | 0 <= i < |rs| ensures Matches(Payload(nodes[i].descs), dev) <==> Matches(rs[i].descs, dev) {
      assert Holds(nodes[i], rs[i]);
    }
  }

  // ----- what an update does, seen from the package

  /** Component i applies to a record, read from the record's bitmap bytes. */
  predicate Chosen(r: Record, stray: nat -> bool, i: nat) {
    if i < 8 * |r.bitmap| then BitOf(r.bitmap, i) else stray(i)
  }

  /** The tables of a record: one per applicable component, in index order, with the first and the
      last marked when the bitmap covers the components and every set bit names one. */
  ghost predicate TablesFor(p: Parsed, r: Record, stray: nat -> bool, tables: seq<Call>) {
    && (forall k | 0 <= k < |tables| ::
          tables[k].Table? && tables[k].index < |p.components| && Chosen(r, stray, tables[k].index))
    && Increasing(tables)
    && (forall i | 0 <= i < |p.components| && Chosen(r, stray, i) :: Sends(tables, i))
    && MiddleMarked(tables)
    && (|p.components| <= 8 * |r.bitmap| ==>
          && StartMarked(tables)
          && (tables != [] ==>
                (EndMarked(tables) <==> forall i | 0 <= i < 8 * |r.bitmap| && BitOf(r.bitmap, i) :: i < |p.components|)))
  }

  /** Package data, the tables, a flash for each table in the same order, then finalize. */
  function PlanOf(r: Record, tables: seq<Call>, hasFinalize: bool): seq<Call>
    requires forall k | 0 <= k < |tables| :: tables[k].Table?
  {
    [PackageData(r.packageData)] + tables + FlashesFor(tables) + (if hasFinalize then [Finalize] else [])
  }

  /** The calls made are a prefix of the plan: all of it on success, otherwise up to the first call
      that failed, whose code is returned. */
  ghost predicate StopsAtFailure(plan: seq<Call>, ret: nat -> int, trace: seq<Call>, err: Option<Errno>) {
    && trace <= plan
    && (forall k | 0 <= k < |trace| - 1 :: ret(k) == 0)
    && (err.None? ==> trace == plan && (trace != [] ==> ret(|trace| - 1) == 0))
    && (err.Some? ==> trace != [] && ret(|trace| - 1) != 0 && err == Some(Callback(ret(|trace| - 1))))
  }

  lemma {:induction false} NodesAreConsecutive(cs: seq<ComponentNode>)
    requires forall k | 0 <= k < |cs| :: IndexedOf(cs)[k].index == k
    ensures ConsecutiveFrom(cs, 0)
    decreases |cs|
  {
    if cs != [] {
      var front := cs[..|cs| - 1];
      forall k | 0 <= k < |front| ensures IndexedOf(front)[k].index == k {
        assert IndexedOf(cs)[k] == IndexedOf(front)[k];
      }
      NodesAreConsecutive(front);
      assert IndexedOf(cs)[|cs| - 1].index == cs[|cs| - 1].index;
      assert forall k | 0 <= k < |front| :: cs[k] == front[k];
    }
  }

  lemma AppliesIsChosen(node: RecordNode, r: Record, stray: nat -> bool)
    requires Holds(node, r)
    ensures forall i: nat :: Applies(node.bits, stray, i) <==> Chosen(r, stray, i)
    ensures |node.bits| == 8 * |r.bitmap| && forall i | 0 <= i < |node.bits| :: node.bits[i] == BitOf(r.bitmap, i)
  {
    hide BitOf, Payload;
  }

  lemma TablesAreFor(p: Parsed, r: Record, node: RecordNode, cs: seq<ComponentNode>, stray: nat -> bool)
    requires Holds(node, r) && IndexedOf(cs) == p.components && ConsecutiveFrom(cs, 0)
    ensures TablesFor(p, r, stray, Tables(node.bits, stray, cs))
  {
    hide Tables, Applies, Chosen, Holds, FlagOf, Sends, IndexedOf, BitOf, HasStart, HasEnd;
    var t := Tables(node.bits, stray, cs);
    TablesInOrder(node.bits, stray, cs, 0);
    forall k | 0 <= k < |t| ensures TableOk(node.bits, stray, t[k], 0, |cs|) {}
    AppliesIsChosen(node, r, stray);
    if t != [] {
      TableMarks(node.bits, stray, cs);
      if |cs| <= |node.bits| {
        assert Applies(node.bits, stray, t[0].index);
        SetBit(node.bits, stray, t[0].index);
      }
    }
  }

  lemma SetBit(bits: seq<bool>, stray: nat -> bool, i: nat)
    requires i < |bits| && Applies(bits, stray, i)
    ensures true in bits
  {
    assert bits[i];
  }

  /** The trace of every update, for every image, failure pattern and device: nothing if the image
      does not parse or no record matches; otherwise a prefix of the plan of the first matching
      record, up to the first failure. */
  lemma UpdateTrace(img: seq<byte>, crc: seq<byte> -> u32, dev: PciId, env: Env, trace: seq<Call>, err: Option<Errno>)
    returns (k: nat, tables: seq<Call>)
    requires FlashOutcome(ParseImage(img, crc), dev, env, trace, err)
    requires ParseImage(img, crc).Ok? && exists j: nat :: FirstMatch(ParseImage(img, crc).value.records, dev, j)
    ensures FirstMatch(ParseImage(img, crc).value.records, dev, k)
    ensures TablesFor(ParseImage(img, crc).value, ParseImage(img, crc).value.records[k], env.stray, tables)
    ensures StopsAtFailure(PlanOf(ParseImage(img, crc).value.records[k], tables, env.hasFinalize), env.ret, trace, err)
  {
    hide ParseImage, Matches, Holds, TablesFor, Attempt, Tables, Flashes, IndexedOf;
    var p := ParseImage(img, crc).value;
    AcceptedComponents(img, crc);
    k :| FirstMatch(p.records, dev, k) && Ran(p, k, env, trace, err);
    var node: RecordNode, cs: seq<ComponentNode> :|
      && Holds(node, p.records[k]) && IndexedOf(cs) == p.components
      && trace == Attempt([], Update(node, cs, env), env.ret).0
      && err == Code(Attempt([], Update(node, cs, env), env.ret).1);
    NodesAreConsecutive(cs);
    tables := Tables(node.bits, env.stray, cs);
    TablesAreFor(p, p.records[k], node, cs, env.stray);
    FlashesFollowTables(node.bits, env.stray, cs);
    PlanIsUpdate(p.records[k], node, cs, env);
    AttemptIsPrefix([], Update(node, cs, env), env.ret);
    assert [] + Update(node, cs, env) == Update(node, cs, env);
  }

  lemma PlanIsUpdate(r: Record, node: RecordNode, cs: seq<ComponentNode>, env: Env)
    requires Holds(node, r)
    requires forall k | 0 <= k < |Tables(node.bits, env.stray, cs)| :: Tables(node.bits, env.stray, cs)[k].Table?
    requires Flashes(node.bits, env.stray, cs) == FlashesFor(Tables(node.bits, env.stray, cs))
    ensures Update(node, cs, env) == PlanOf(r, Tables(node.bits, env.stray, cs), env.hasFinalize)
  {
    hide Tables, Flashes, BitsAgree, Payload;
    var a, b, c := [PackageData(r.packageData)], Tables(node.bits, env.stray, cs), Flashes(node.bits, env.stray, cs);
    var d := if env.hasFinalize then [Finalize] else [];
    assert a + (b + (c + d)) == a + b + c + d;
  }
}
