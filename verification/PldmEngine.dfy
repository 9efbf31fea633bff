/** The package parser as the driver runs it (src/kcompat_pldmfw.c): one cursor that every step
    advances, pointer walks beside it, lists that grow and a freeing loop. */
module PldmEngine {
  import Bits
  import opened Wrappers
  import opened PldmFormat
  import opened PldmParser

  // ----- the lists

  datatype DescNode = DescNode(id: nat, desc: Desc)

  /** struct pldmfw_record with the identities of its allocations. */
  datatype RecordNode = RecordNode(
    id: nat,
    bitmapId: Option<nat>,
    bits: seq<bool>,
    versionType: byte,
    version: seq<byte>,
    descs: seq<DescNode>,
    packageData: seq<byte>)

  datatype ComponentNode = ComponentNode(id: nat, index: nat, component: Component)

  function Payload(ds: seq<DescNode>): (r: seq<Desc>)
    ensures |r| == |ds|
  {
    if ds == [] then [] else Payload(ds[..|ds| - 1]) + [ds[|ds| - 1].desc]
  }

  function IndexedOf(cs: seq<ComponentNode>): (r: seq<Indexed>)
    ensures |r| == |cs|
  {
    if cs == [] then []
    else IndexedOf(cs[..|cs| - 1]) + [Indexed(cs[|cs| - 1].index, cs[|cs| - 1].component)]
  }

  // ----- component bitmaps

  /** Bit k of a little-endian byte string. */
  predicate BitOf(bytes: seq<byte>, k: nat)
    requires k < 8 * |bytes|
  {
    Bits.TestBit(bytes[k / 8], k % 8)
  }

  /** _kc_bitmap_set_value8 on a bitmap seen as bits. */
  function SetValue8(bits: seq<bool>, value: byte, start: nat): (r: seq<bool>)
    requires start + 8 <= |bits|
    ensures |r| == |bits|
    ensures forall k | 0 <= k < |bits| ::
      r[k] == if start <= k < start + 8 then Bits.TestBit(value, k - start) else bits[k]
  {
    seq(|bits|, k requires 0 <= k < |bits| =>
      if start <= k < start + 8 then Bits.TestBit(value, k - start) else bits[k])
  }

  predicate BitsAgree(bits: seq<bool>, bytes: seq<byte>) {
    |bits| == 8 * |bytes| && forall k | 0 <= k < |bits| :: bits[k] == BitOf(bytes, k)
  }

  /** The node holds what the parser extracts for record `r`. */
  ghost predicate Holds(node: RecordNode, r: Record) {
    && BitsAgree(node.bits, r.bitmap)
    && node.versionType == r.versionType
    && node.version == r.version
    && Payload(node.descs) == r.descs
    && node.packageData == r.packageData
  }

  ghost predicate HoldsAll(nodes: seq<RecordNode>, rs: seq<Record>) {
    |nodes| == |rs| && forall i | 0 <= i < |rs| :: Holds(nodes[i], rs[i])
  }

  // ----- allocations

  function DescIds(ds: seq<DescNode>): seq<nat> {
    if ds == [] then [] else DescIds(ds[..|ds| - 1]) + [ds[|ds| - 1].id]
  }

  function BitmapIds(r: RecordNode): seq<nat> {
    if r.bitmapId.Some? then [r.bitmapId.value] else []
  }

  function RecordIds(r: RecordNode): seq<nat> {
    [r.id] + BitmapIds(r) + DescIds(r.descs)
  }

  function AllRecordIds(rs: seq<RecordNode>): seq<nat> {
    if rs == [] then [] else AllRecordIds(rs[..|rs| - 1]) + RecordIds(rs[|rs| - 1])
  }

  function ComponentIds(cs: seq<ComponentNode>): seq<nat> {
    if cs == [] then [] else ComponentIds(cs[..|cs| - 1]) + [cs[|cs| - 1].id]
  }

  function Upto(n: nat): seq<nat> {
    if n == 0 then [] else Upto(n - 1) + [n - 1]
  }

  lemma {:induction false} NumberedDescIds(base: nat, ds: seq<DescNode>)
    requires forall k | 0 <= k < |ds| :: ds[k].id == base + k
    ensures Upto(base) + DescIds(ds) == Upto(base + |ds|)
    decreases |ds|
  {
    if ds != [] {
      NumberedDescIds(base, ds[..|ds| - 1]);
      assert Upto(base) + (DescIds(ds[..|ds| - 1]) + [base + |ds| - 1])
          == Upto(base) + DescIds(ds[..|ds| - 1]) + [base + |ds| - 1];
    }
  }

  lemma {:induction false} NumberedComponentIds(base: nat, cs: seq<ComponentNode>)
    requires forall k | 0 <= k < |cs| :: cs[k].id == base + k
    ensures Upto(base) + ComponentIds(cs) == Upto(base + |cs|)
    decreases |cs|
  {
    if cs != [] {
      NumberedComponentIds(base, cs[..|cs| - 1]);
      assert Upto(base) + (ComponentIds(cs[..|cs| - 1]) + [base + |cs| - 1])
          == Upto(base) + ComponentIds(cs[..|cs| - 1]) + [base + |cs| - 1];
    }
  }

  // ----- how many allocations an image calls for

  function DescTries(img: seq<byte>, o: nat, n: nat): nat
    decreases n
  {
    if n == 0 || ParseDesc(img, o).Err? then 0 else 1 + DescTries(img, ParseDesc(img, o).next, n - 1)
  }

  /** The list entry, the bitmap once the record's fixed part is there, and the descriptors. */
  function RecordTries(img: seq<byte>, o: nat, bitmapSize: nat): nat {
    if |img| < o + RECORD_SIZE + bitmapSize then 1
    else
      var o3 := o + RECORD_SIZE + bitmapSize + img[o + 8] as int;
      if |img| < o3 then 2 else 2 + DescTries(img, o3, img[o + 2])
  }

  function RecordsTries(img: seq<byte>, o: nat, n: nat, bitmapSize: nat): nat
    decreases n
  {
    if n == 0 then 0
    else
      var r := ParseRecord(img, o, bitmapSize);
      RecordTries(img, o, bitmapSize) + (if r.Ok? then RecordsTries(img, r.next, n - 1, bitmapSize) else 0)
  }

  function ComponentsTries(img: seq<byte>, o: nat, i: nat, count: nat): nat
    requires i < 256
    decreases |img| - o
  {
    if i >= count then 0
    else
      match ParseComponent(img, o)
      case Err(_) => 0
      case Ok(_, o') => 1 + ComponentsTries(img, o', (i + 1) % 256, count)
  }

  function ImageTries(img: seq<byte>): nat {
    if img == [] || ParseHeader(img).Err? then 0
    else
      var h, o1 := ParseHeader(img).value, ParseHeader(img).next;
      var rs := ParseRecords(img, o1, h.recordCount, h.bitmapSize);
      RecordsTries(img, o1, h.recordCount, h.bitmapSize)
      + (if rs.Ok? && rs.next + 2 <= |img| then ComponentsTries(img, rs.next + 2, 0, Get16(img, rs.next)) else 0)
  }

  /** Attempts t0 up to t were made, `plan` being called for: all of them and all granted, or up to
      the first one refused, which is then reported. */
  ghost predicate Attempted(allocOk: nat -> bool, err: Option<Errno>, t0: nat, t: nat, plan: nat) {
    if err == Some(ENOMEM)
    then t0 < t <= t0 + plan && !allocOk(t - 1) && forall n | t0 <= n < t - 1 :: allocOk(n)
    else t == t0 + plan && forall n | t0 <= n < t :: allocOk(n)
  }

  /** How many of the attempts behind an error code were refused. */
  function Refusals(err: Option<Errno>): nat {
    if err == Some(ENOMEM) then 1 else 0
  }

  /** Running out of memory is reported exactly if an attempt called for is refused. */
  lemma NoMemoryExactly(allocOk: nat -> bool, err: Option<Errno>, t0: nat, t: nat, plan: nat)
    requires Attempted(allocOk, err, t0, t, plan)
    ensures err == Some(ENOMEM) <==> exists n :: t0 <= n < t0 + plan && !allocOk(n)
  {}

  // ----- walks that have done part of their work

  /** The outcome of a list walk, given what it has collected and the outcome of the rest. */
  function After<T>(done: seq<T>, rest: Parse<seq<T>>): Parse<seq<T>> {
    match rest
    case Err(e) => Err(e)
    case Ok(more, o) => Ok(done + more, o)
  }

  lemma AfterNothing<T>(r: Parse<seq<T>>)
    ensures After([], r) == r
  {
    if r.Ok? {
      assert [] + r.value == r.value;
    }
  }

  lemma DescStep(img: seq<byte>, ptr: nat, n: nat, done: seq<Desc>)
    requires n > 0
    ensures ParseDesc(img, ptr).Err? ==> After(done, ParseDescs(img, ptr, n)) == Err(ParseDesc(img, ptr).code)
    ensures ParseDesc(img, ptr).Ok? ==>
      After(done, ParseDescs(img, ptr, n))
      == After(done + [ParseDesc(img, ptr).value], ParseDescs(img, ParseDesc(img, ptr).next, n - 1))
    ensures DescTries(img, ptr, n)
      == if ParseDesc(img, ptr).Err? then 0 else 1 + DescTries(img, ParseDesc(img, ptr).next, n - 1)
  {
    hide ParseDesc;
    if ParseDesc(img, ptr).Ok? {
      var d, o := ParseDesc(img, ptr).value, ParseDesc(img, ptr).next;
      var rest := ParseDescs(img, o, n - 1);
      if rest.Ok? {
        assert done + ([d] + rest.value) == done + [d] + rest.value;
      }
    }
  }

  lemma RecordStep(img: seq<byte>, ptr: nat, n: nat, bitmapSize: nat, done: seq<Record>)
    requires n > 0
    ensures var r := ParseRecord(img, ptr, bitmapSize);
      var all := After(done, ParseRecords(img, ptr, n, bitmapSize));
      && (r.Err? ==> all == Err(r.code))
      && (r.Ok? ==> all == After(done + [r.value], ParseRecords(img, r.next, n - 1, bitmapSize)))
      && RecordsTries(img, ptr, n, bitmapSize)
         == RecordTries(img, ptr, bitmapSize) + (if r.Ok? then RecordsTries(img, r.next, n - 1, bitmapSize) else 0)
  {
    hide ParseRecord;
    var r := ParseRecord(img, ptr, bitmapSize);
    if r.Ok? {
      var rest := ParseRecords(img, r.next, n - 1, bitmapSize);
      if rest.Ok? {
        assert done + ([r.value] + rest.value) == done + [r.value] + rest.value;
      }
    }
  }

  lemma ComponentStep(img: seq<byte>, ptr: nat, i: nat, count: nat, done: seq<Indexed>)
    requires i < 256 && i < count
    ensures var c := ParseComponent(img, ptr);
      var all := After(done, ParseComponents(img, ptr, i, count));
      && (c.Err? ==> all == Err(c.code))
      && (c.Ok? ==> all == After(done + [Indexed(i, c.value)], ParseComponents(img, c.next, (i + 1) % 256, count)))
      && (c.Err? ==> ComponentsTries(img, ptr, i, count) == 0)
      && (c.Ok? ==> ComponentsTries(img, ptr, i, count) == 1 + ComponentsTries(img, c.next, (i + 1) % 256, count))
  {
    hide ParseComponent;
    var c := ParseComponent(img, ptr);
    if c.Ok? {
      var rest := ParseComponents(img, c.next, (i + 1) % 256, count);
      if rest.Ok? {
        assert done + ([Indexed(i, c.value)] + rest.value) == done + [Indexed(i, c.value)] + rest.value;
      }
    }
  }

  // ----- the parser

  /** struct pldmfw_priv. `allocOk` says which allocation attempts the kernel grants; successful
      ones are numbered by `allocs`. */
  class Priv {
    const img: seq<byte>
    const crc: seq<byte> -> u32
    const allocOk: nat -> bool
    var offset: nat
    var records: seq<RecordNode>
    var components: seq<ComponentNode>
    var total: nat
    var bitmapSize: nat
    var recordCount: nat
    var componentCount: nat
    var tries: nat
    var allocs: nat

    /** The cursor is inside the image and the lists hold every allocation exactly once. */
    ghost predicate Valid()
      reads this
    {
      offset <= |img| && AllRecordIds(records) + ComponentIds(components) == Upto(allocs)
    }

    constructor (img: seq<byte>, crc: seq<byte> -> u32, allocOk: nat -> bool)
      ensures Valid() && offset == 0 && records == [] && components == [] && tries == allocs == 0
      ensures this.img == img && this.crc == crc && this.allocOk == allocOk
    {
      this.img, this.crc, this.allocOk := img, crc, allocOk;
      offset, records, components := 0, [], [];
      total, bitmapSize, recordCount, componentCount := 0, 0, 0, 0;
      tries, allocs := 0, 0;
    }

    /** pldm_move_fw_offset */
    method Move(bytes: nat) returns (ok: bool)
      requires offset <= |img|
      modifies this`offset
      ensures ok <==> old(offset) + bytes <= |img|
      ensures offset == if ok then old(offset) + bytes else old(offset)
    {
      ok := offset + bytes <= |img|;
      if ok {
        offset := offset + bytes;
      }
    }

    /** kzalloc or bitmap_zalloc */
    method Alloc() returns (id: Option<nat>)
      modifies this`tries, this`allocs
      ensures id.Some? <==> allocOk(old(tries))
      ensures id.Some? ==> id.value == old(allocs) && allocs == old(allocs) + 1
      ensures id.None? ==> allocs == old(allocs)
      ensures tries == old(tries) + 1
    {
      if allocOk(tries) {
        id := Some(allocs);
        allocs := allocs + 1;
      } else {
        id := None;
      }
      tries := tries + 1;
    }

    /** pldm_parse_desc_tlvs: the cursor and the descriptor pointer stay in step. */
    method ParseDescTlvs(count: byte) returns (err: Option<Errno>, ds: seq<DescNode>)
      requires offset <= |img|
      modifies this`offset, this`tries, this`allocs
      ensures offset <= |img| && allocs == old(allocs) + |ds|
      ensures forall k | 0 <= k < |ds| :: ds[k].id == old(allocs) + k
      ensures err.None? ==> ParseDescs(img, old(offset), count) == Ok(Payload(ds), offset)
      ensures err.Some? && err.value != ENOMEM ==> ParseDescs(img, old(offset), count) == Err(err.value)
      ensures Attempted(allocOk, err, old(tries), tries, DescTries(img, old(offset), count))
      ensures allocs + Refusals(err) == old(allocs) + tries - old(tries)
    {
      hide ParseDescs, ParseDesc, DescTries, After, Payload, DescLenOk, Get16;
      ds := [];
      ghost var t0 := tries;
      NoPayload();
      var ptr := offset;
      var i := 0;
      AfterNothing(ParseDescs(img, ptr, count));
      while i < count as int
        invariant 0 <= i <= count as int && ptr == offset <= |img|
        invariant allocs == old(allocs) + |ds|
        invariant forall k | 0 <= k < |ds| :: ds[k].id == old(allocs) + k
        invariant After(Payload(ds), ParseDescs(img, ptr, count as int - i)) == ParseDescs(img, old(offset), count)
        invariant tries + DescTries(img, ptr, count as int - i) == t0 + DescTries(img, old(offset), count)
        invariant t0 <= tries && forall n | t0 <= n < tries :: allocOk(n)
        invariant allocs - old(allocs) == tries - t0
      {
        DescStep(img, ptr, count as int - i, Payload(ds));
        DescExits(img, ptr);
        var ok := Move(TLV_SIZE);
        if !ok {
          return Some(EFAULT), ds;
        }
        var kind, size := Get16(img, ptr), Get16(img, ptr + 2);
        if !DescLenOk(kind, size) {
          return Some(EINVAL), ds;
        }
        ok := Move(size);
        if !ok {
          return Some(EFAULT), ds;
        }
        var id := Alloc();
        if id.None? {
          return Some(ENOMEM), ds;
        }
        var node := DescNode(id.value, Desc(kind, img[ptr + TLV_SIZE..ptr + TLV_SIZE + size]));
        PayloadNext(ds, node);
        ds := ds + [node];
        ptr := ptr + TLV_SIZE + size;
        i := i + 1;
      }
      ParseNoDescs(img, ptr, Payload(ds));
      err := None;
    }

    /** pldm_parse_one_record up to the version string: the list entry is made first and is kept on
        every later exit. */
    method OpenRecord(ptr: nat) returns (err: Option<Errno>, node: Option<RecordNode>)
      requires ptr == offset <= |img|
      modifies this`offset, this`tries, this`allocs
      ensures offset <= |img|
      ensures node.None? ==> allocs == old(allocs)
      ensures node.Some? ==>
        && node.value.id == old(allocs) && node.value.descs == []
        && (node.value.bitmapId == None || node.value.bitmapId == Some(old(allocs) + 1))
        && allocs == old(allocs) + (if node.value.bitmapId.Some? then 2 else 1)
      ensures err.None? ==>
        var o1 := ptr + RECORD_SIZE;
        var o2 := o1 + bitmapSize;
        && node.Some? && node.value.bitmapId.Some?
        && o1 <= |img| && offset == o2 + img[ptr + 8] as int
        && BitsAgree(node.value.bits, img[o1..o2])
        && node.value.versionType == img[ptr + 7]
        && node.value.version == img[o2..offset]
      ensures err.None? ==> tries == old(tries) + 2 && allocOk(old(tries)) && allocOk(old(tries) + 1)
      ensures err.Some? ==> Attempted(allocOk, err, old(tries), tries, RecordTries(img, ptr, bitmapSize))
      ensures allocs + Refusals(err) == old(allocs) + tries - old(tries)
      ensures err.Some? && err.value != ENOMEM ==>
        && err.value == EFAULT
        && (|img| < ptr + RECORD_SIZE + bitmapSize || |img| < ptr + RECORD_SIZE + bitmapSize + img[ptr + 8] as int)
    {
      hide BitsAgree;
      node := None;
      var id := Alloc();
      if id.None? {
        err := Some(ENOMEM);
        return;
      }
      var rec := RecordNode(id.value, None, [], 0, [], [], []);
      node := Some(rec);
      var ok := Move(RECORD_SIZE);
      if !ok {
        err := Some(EFAULT);
        return;
      }
      var versionLen := img[ptr + 8] as int;
      rec := rec.(versionType := img[ptr + 7]);
      var bitmapPtr := offset;
      ok := Move(bitmapSize);
      if !ok {
        err := Some(EFAULT);
        return;
      }
      var bitmapId := Alloc();
      if bitmapId.None? {
        err := Some(ENOMEM);
        return;
      }
      var bits := ReadBitmap(img[bitmapPtr..offset]);
      rec := rec.(bitmapId := bitmapId, bits := bits);
      node := Some(rec);
      var versionPtr := offset;
      ok := Move(versionLen);
      if !ok {
        err := Some(EFAULT);
        return;
      }
      node := Some(rec.(version := img[versionPtr..offset]));
      err := None;
    }

    /** The rest of pldm_parse_one_record: descriptors, package data and the measured length. */
    method CloseRecord(ptr: nat, rec: RecordNode) returns (err: Option<Errno>, node: RecordNode)
      requires ptr + RECORD_SIZE <= offset <= |img|
      modifies this`offset, this`tries, this`allocs
      ensures offset <= |img|
      ensures node == rec.(descs := node.descs, packageData := node.packageData)
      ensures allocs == old(allocs) + |node.descs|
      ensures forall k | 0 <= k < |node.descs| :: node.descs[k].id == old(allocs) + k
      ensures Attempted(allocOk, err, old(tries), tries, DescTries(img, old(offset), img[ptr + 2]))
      ensures allocs + Refusals(err) == old(allocs) + tries - old(tries)
      ensures err.Some? && err.value != ENOMEM ==>
        var ds := ParseDescs(img, old(offset), img[ptr + 2]);
        || ds == Err(err.value)
        || (ds.Ok? && err.value == EFAULT &&
            (|img| < ds.next + Get16(img, ptr + 9) || ds.next + Get16(img, ptr + 9) - ptr != Get16(img, ptr)))
      ensures err.None? ==>
        var ds := ParseDescs(img, old(offset), img[ptr + 2]);
        && ds.Ok? && Payload(node.descs) == ds.value
        && old(offset) <= ds.next <= offset == ds.next + Get16(img, ptr + 9)
        && offset - ptr == Get16(img, ptr)
        && node.packageData == img[ds.next..offset]
    {
      hide ParseDescs, Payload;
      ParseDescsSoundNext(img, offset, img[ptr + 2]);
      var descs;
      err, descs := ParseDescTlvs(img[ptr + 2]);
      node := rec.(descs := descs);
      if err.Some? {
        return;
      }
      var packagePtr := offset;
      var ok := Move(Get16(img, ptr + 9));
      if !ok {
        err := Some(EFAULT);
        return;
      }
      node := node.(packageData := img[packagePtr..offset]);
      if offset - ptr != Get16(img, ptr) {
        err := Some(EFAULT);
        return;
      }
    }

    /** pldm_parse_one_record */
    method ParseOneRecord(ptr: nat) returns (err: Option<Errno>, node: Option<RecordNode>)
      requires ptr == offset <= |img|
      modifies this`offset, this`tries, this`allocs
      ensures offset <= |img|
      ensures Upto(old(allocs)) + (if node.Some? then RecordIds(node.value) else []) == Upto(allocs)
      ensures err.None? ==>
        && node.Some? && ParseRecord(img, ptr, bitmapSize).Ok?
        && offset == ParseRecord(img, ptr, bitmapSize).next
        && ptr + RECORD_SIZE <= offset == ptr + Get16(img, ptr)
        && Holds(node.value, ParseRecord(img, ptr, bitmapSize).value)
      ensures err.Some? && err.value != ENOMEM ==> ParseRecord(img, ptr, bitmapSize) == Err(err.value)
      ensures Attempted(allocOk, err, old(tries), tries, RecordTries(img, ptr, bitmapSize))
      ensures allocs + Refusals(err) == old(allocs) + tries - old(tries)
    {
      hide ParseDescs, ParseRecord, BitsAgree, RecordIds, Upto, FinishRecord, Payload, Get16, RecordTries, DescTries;
      ghost var base := allocs;
      assert Upto(base) + [] == Upto(base);
      RecordExits(img, ptr, bitmapSize);
      err, node := OpenRecord(ptr);
      if node.Some? {
        NodeIds(base, node.value);
      }
      if err.Some? {
        return;
      }
      ghost var o3 := offset;
      var rec;
      err, rec := CloseRecord(ptr, node.value);
      node := Some(rec);
      NodeIds(base, rec);
      ghost var ds := ParseDescs(img, o3, img[ptr + 2]);
      if ds.Ok? {
        FinishExits(img, ptr, ptr + RECORD_SIZE, ptr + RECORD_SIZE + bitmapSize, o3, ds.value, ds.next);
      }
    }

    /** pldm_parse_header */
    method ParseHeaderArea() returns (err: Option<Errno>)
      requires offset == 0
      modifies this`offset, this`total, this`bitmapSize, this`recordCount
      ensures offset <= |img|
      ensures err.None? ==> ParseHeader(img) == Ok(Header(total, bitmapSize, recordCount), offset)
      ensures err.Some? ==> ParseHeader(img) == Err(err.value) && err.value != ENOMEM
    {
      var ok := Move(HEADER_SIZE);
      if !ok {
        return Some(EFAULT);
      }
      if img[0..16] != HEADER_ID {
        return Some(EINVAL);
      }
      if img[16] != REVISION {
        return Some(EOPNOTSUPP);
      }
      total := Get16(img, 17);
      if |img| < RoomNeeded(total) {
        return Some(EFAULT);
      }
      var bitmapBits := Get16(img, 32);
      if bitmapBits % 8 != 0 {
        return Some(EINVAL);
      }
      bitmapSize := bitmapBits / 8;
      ok := Move(img[35]);
      if !ok {
        return Some(EFAULT);
      }
      var area := offset;
      ok := Move(1);
      if !ok {
        return Some(EFAULT);
      }
      recordCount := img[area];
      err := None;
    }

    /** pldm_parse_records: the record pointer moves by the stated length, the cursor by what was
        parsed, and the two agree at the head of every round. */
    method ParseRecordList() returns (err: Option<Errno>)
      requires Valid() && records == [] && components == []
      modifies this`offset, this`tries, this`allocs, this`records, this`componentCount
      ensures Valid()
      ensures err.None? ==>
        var rs := ParseRecords(img, old(offset), recordCount, bitmapSize);
        && rs.Ok? && HoldsAll(records, rs.value)
        && rs.next + 2 <= |img| && componentCount == Get16(img, rs.next) && offset == rs.next + 2
      ensures Attempted(allocOk, err, old(tries), tries, RecordsTries(img, old(offset), recordCount, bitmapSize))
      ensures allocs + Refusals(err) == old(allocs) + tries - old(tries)
      ensures err.Some? && err.value != ENOMEM ==>
        || ParseRecords(img, old(offset), recordCount, bitmapSize) == Err(err.value)
        || (var rs := ParseRecords(img, old(offset), recordCount, bitmapSize);
            rs.Ok? && |img| < rs.next + 2 && err.value == EFAULT)
    {
      hide ParseRecords, ParseRecord, Holds, RecordIds, Upto, AllRecordIds, ComponentIds, After, Get16;
      hide RecordsTries, RecordTries;
      ghost var done: seq<Record> := [];
      var ptr := offset;
      var i := 0;
      AfterNothing(ParseRecords(img, ptr, recordCount, bitmapSize));
      NoComponentsYet(AllRecordIds(records));
      while i < recordCount
        invariant 0 <= i <= recordCount && ptr == offset <= |img|
        invariant AllRecordIds(records) == Upto(allocs)
        invariant HoldsAll(records, done)
        invariant After(done, ParseRecords(img, ptr, recordCount - i, bitmapSize))
               == ParseRecords(img, old(offset), recordCount, bitmapSize)
        invariant tries + RecordsTries(img, ptr, recordCount - i, bitmapSize)
               == old(tries) + RecordsTries(img, old(offset), recordCount, bitmapSize)
        invariant old(tries) <= tries && forall n | old(tries) <= n < tries :: allocOk(n)
        invariant allocs - old(allocs) == tries - old(tries)
      {
        RecordStep(img, ptr, recordCount - i, bitmapSize, done);
        var node;
        err, node := ParseOneRecord(ptr);
        if node.Some? {
          AllRecordIdsNext(records, node.value);
          records := records + [node.value];
        } else {
          assert AllRecordIds(records) + [] == AllRecordIds(records);
        }
        NoComponentsYet(AllRecordIds(records));
        if err.Some? {
          return;
        }
        done := done + [ParseRecord(img, ptr, bitmapSize).value];
        ptr := ptr + Get16(img, ptr);
        i := i + 1;
      }
      NoComponentsYet(AllRecordIds(records));
      ParseNoRecords(img, ptr, bitmapSize, done);
      var area := offset;
      var ok := Move(2);
      if !ok {
        return Some(EFAULT);
      }
      componentCount := Get16(img, area);
      err := None;
    }

    /** pldm_parse_components, up to the checksum: an 8-bit counter against a 16-bit count. */
    method ParseComponentList() returns (err: Option<Errno>)
      requires Valid() && components == []
      modifies this`offset, this`tries, this`allocs, this`components
      ensures Valid()
      ensures err.None? ==>
        ParseComponents(img, old(offset), 0, componentCount) == Ok(IndexedOf(components), offset)
      ensures err.Some? && err.value != ENOMEM ==>
        ParseComponents(img, old(offset), 0, componentCount) == Err(err.value)
      ensures Attempted(allocOk, err, old(tries), tries, ComponentsTries(img, old(offset), 0, componentCount))
      ensures allocs + Refusals(err) == old(allocs) + tries - old(tries)
    {
      hide ParseComponents, ParseComponent, ComponentsTries, AllRecordIds, ComponentIds, Upto, IndexedOf, After;
      hide Get16, Get32;
      ghost var base := allocs;
      NoComponentsYet(AllRecordIds(records));
      var ptr := offset;
      var i: byte := 0;
      AfterNothing(ParseComponents(img, ptr, 0, componentCount));
      while i as int < componentCount
        invariant ptr == offset <= |img|
        invariant allocs == base + |components|
        invariant forall k | 0 <= k < |components| :: components[k].id == base + k
        invariant After(IndexedOf(components), ParseComponents(img, ptr, i, componentCount))
               == ParseComponents(img, old(offset), 0, componentCount)
        invariant tries + ComponentsTries(img, ptr, i, componentCount)
               == old(tries) + ComponentsTries(img, old(offset), 0, componentCount)
        invariant old(tries) <= tries && forall n | old(tries) <= n < tries :: allocOk(n)
        invariant allocs - old(allocs) == tries - old(tries)
        decreases |img| - ptr
      {
        NumberedComponentIds(base, components);
        ComponentStep(img, ptr, i, componentCount, IndexedOf(components));
        ComponentExits(img, ptr);
        var ok := Move(COMPONENT_SIZE);
        if !ok {
          return Some(EFAULT);
        }
        ok := Move(img[ptr + 21]);
        if !ok {
          return Some(EFAULT);
        }
        var location, size := Get32(img, ptr + 12), Get32(img, ptr + 16);
        if |img| < location + size {
          return Some(EFAULT);
        }
        var id := Alloc();
        if id.None? {
          return Some(ENOMEM);
        }
        var c := Component(Get16(img, ptr), Get16(img, ptr + 2), Get32(img, ptr + 4), Get16(img, ptr + 8),
                           Get16(img, ptr + 10), location, size, img[ptr + 20],
                           img[ptr + COMPONENT_SIZE..ptr + COMPONENT_SIZE + img[ptr + 21] as int]);
        ghost var before := components;
        components := components + [ComponentNode(id.value, i, c)];
        IndexedOfNext(before, components[|components| - 1]);
        ptr := ptr + COMPONENT_SIZE + img[ptr + 21] as int;
        i := if i == 255 then 0 else i + 1;
      }
      NumberedComponentIds(base, components);
      ParseNoComponents(img, ptr, i, componentCount, IndexedOf(components));
      err := None;
    }

    /** pldm_parse_image; with memory enough it decides exactly as ParseImage does. */
    method Parse() returns (err: Option<Errno>)
      requires Valid() && offset == 0 && records == [] && components == []
      modifies this
      ensures Valid()
      ensures err.None? ==>
        && ParseImage(img, crc).Ok?
        && HoldsAll(records, ParseImage(img, crc).value.records)
        && IndexedOf(components) == ParseImage(img, crc).value.components
        && bitmapSize == ParseImage(img, crc).value.bitmapSize
        && offset == total == ParseImage(img, crc).value.total
      ensures err.Some? && err.value != ENOMEM ==> ParseImage(img, crc) == Err(err.value)
      ensures Attempted(allocOk, err, old(tries), tries, ImageTries(img))
      ensures allocs + Refusals(err) == old(allocs) + tries - old(tries)
    {
      hide ParseHeader, ParseRecords, ParseComponents, HoldsAll, AllRecordIds, ComponentIds, Upto, IndexedOf;
      hide RecordsTries, ComponentsTries, Get16, Get32;
      if img == [] {
        return Some(EINVAL);
      }
      err := ParseHeaderArea();
      if err.Some? {
        return;
      }
      ghost var h, o1 := Header(total, bitmapSize, recordCount), offset;
      err := ParseRecordList();
      if err.Some? {
        return;
      }
      ghost var o2 := offset - 2;
      err := ParseComponentList();
      if err.Some? {
        return;
      }
      ghost var rs := ParseRecords(img, o1, h.recordCount, h.bitmapSize).value;
      ParseImagePath(img, crc, h, o1, rs, o2, IndexedOf(components), offset);
      var crcPtr := offset;
      var ok := Move(4);
      if !ok {
        return Some(EFAULT);
      }
      if offset != total {
        return Some(EFAULT);
      }
      if crc(img[..crcPtr]) != Get32(img, crcPtr) {
        return Some(EBADMSG);
      }
      err := None;
    }

    /** pldmfw_free_priv: every allocation the lists hold is released exactly once. */
    method Free() returns (freed: seq<nat>)
      requires Valid()
      modifies this`records, this`components
      ensures records == [] && components == []
      ensures multiset(freed) == multiset(Upto(allocs))
    {
      hide AllRecordIds, ComponentIds, AllFreedIds, Upto;
      ghost var rs0, cs0 := records, components;
      var first := FreeComponents();
      var second := FreeRecords();
      freed := first + second;
      FreedIsAllocated(rs0, ComponentIds(cs0));
    }

    method FreeComponents() returns (freed: seq<nat>)
      modifies this`components
      ensures components == [] && freed == ComponentIds(old(components))
    {
      freed := [];
      assert [] + ComponentIds(components) == ComponentIds(components);
      while components != []
        invariant freed + ComponentIds(components) == ComponentIds(old(components))
        decreases |components|
      {
        ComponentIdsHead(components);
        assert freed + ([components[0].id] + ComponentIds(components[1..]))
            == freed + [components[0].id] + ComponentIds(components[1..]);
        freed := freed + [components[0].id];
        components := components[1..];
      }
    }

    method FreeRecords() returns (freed: seq<nat>)
      modifies this`records
      ensures records == [] && freed == AllFreedIds(old(records))
    {
      hide FreedIds;
      freed := [];
      assert [] + AllFreedIds(records) == AllFreedIds(records);
      while records != []
        invariant freed + AllFreedIds(records) == AllFreedIds(old(records))
        decreases |records|
      {
        var gone := FreeRecord(records[0]);
        assert freed + (gone + AllFreedIds(records[1..])) == freed + gone + AllFreedIds(records[1..]);
        freed := freed + gone;
        records := records[1..];
      }
    }
  }

  /** The order in which a record's allocations are released. */
  function FreedIds(r: RecordNode): seq<nat> {
    DescIds(r.descs) + BitmapIds(r) + [r.id]
  }

  function AllFreedIds(rs: seq<RecordNode>): seq<nat> {
    if rs == [] then [] else FreedIds(rs[0]) + AllFreedIds(rs[1..])
  }

  /** The body of the record loop of pldmfw_free_priv. */
  method FreeRecord(r: RecordNode) returns (freed: seq<nat>)
    ensures freed == FreedIds(r)
  {
    freed := [];
    var ds := r.descs;
    assert [] + DescIds(ds) == DescIds(ds);
    while ds != []
      invariant freed + DescIds(ds) == DescIds(r.descs)
      decreases |ds|
    {
      DescIdsHead(ds);
      assert freed + ([ds[0].id] + DescIds(ds[1..])) == freed + [ds[0].id] + DescIds(ds[1..]);
      freed := freed + [ds[0].id];
      ds := ds[1..];
    }
    assert freed == DescIds(r.descs);
    if r.bitmapId.Some? {
      freed := freed + [r.bitmapId.value];
    }
    freed := freed + [r.id];
  }

  lemma CountConcat(a: seq<nat>, b: seq<nat>, x: nat)
    ensures multiset(a + b)[x] == multiset(a)[x] + multiset(b)[x]
  {
    assert multiset(a + b) == multiset(a) + multiset(b);
  }

  lemma FreedOneRecord(r: RecordNode, x: nat)
    ensures multiset(FreedIds(r))[x] == multiset(RecordIds(r))[x]
  {
    hide DescIds, BitmapIds;
    CountConcat(DescIds(r.descs) + BitmapIds(r), [r.id], x);
    CountConcat(DescIds(r.descs), BitmapIds(r), x);
    CountConcat([r.id] + BitmapIds(r), DescIds(r.descs), x);
    CountConcat([r.id], BitmapIds(r), x);
  }

  lemma {:induction false} FreedAllRecords(rs: seq<RecordNode>, x: nat)
    ensures multiset(AllFreedIds(rs))[x] == multiset(AllRecordIds(rs))[x]
    decreases |rs|
  {
    hide FreedIds, RecordIds;
    if rs != [] {
      FreedAllRecords(rs[1..], x);
      FreedOneRecord(rs[0], x);
      AllRecordIdsHead(rs);
      CountConcat(FreedIds(rs[0]), AllFreedIds(rs[1..]), x);
      CountConcat(RecordIds(rs[0]), AllRecordIds(rs[1..]), x);
    }
  }

  lemma FreedIsAllocated(rs: seq<RecordNode>, cs: seq<nat>)
    ensures multiset(cs + AllFreedIds(rs)) == multiset(AllRecordIds(rs) + cs)
  {
    hide AllFreedIds, AllRecordIds;
    forall x: nat ensures multiset(cs + AllFreedIds(rs))[x] == multiset(AllRecordIds(rs) + cs)[x] {
      FreedAllRecords(rs, x);
      CountConcat(cs, AllFreedIds(rs), x);
      CountConcat(AllRecordIds(rs), cs, x);
    }
  }

  lemma {:induction false} DescIdsHead(ds: seq<DescNode>)
    requires ds != []
    ensures DescIds(ds) == [ds[0].id] + DescIds(ds[1..])
    decreases |ds|
  {
    if |ds| > 1 {
      var front := ds[..|ds| - 1];
      DescIdsHead(front);
      assert front[1..] == ds[1..][..|ds| - 2];
    }
  }

  lemma {:induction false} ComponentIdsHead(cs: seq<ComponentNode>)
    requires cs != []
    ensures ComponentIds(cs) == [cs[0].id] + ComponentIds(cs[1..])
    decreases |cs|
  {
    if |cs| > 1 {
      var front := cs[..|cs| - 1];
      ComponentIdsHead(front);
      assert front[1..] == cs[1..][..|cs| - 2];
    }
  }

  lemma {:induction false} AllRecordIdsHead(rs: seq<RecordNode>)
    requires rs != []
    ensures AllRecordIds(rs) == RecordIds(rs[0]) + AllRecordIds(rs[1..])
    decreases |rs|
  {
    hide RecordIds;
    if |rs| > 1 {
      var front := rs[..|rs| - 1];
      AllRecordIdsHead(front);
      assert front[1..] == rs[1..][..|rs| - 2];
    }
  }

  lemma ParseNoRecords(img: seq<byte>, o: nat, bitmapSize: nat, done: seq<Record>)
    ensures After(done, ParseRecords(img, o, 0, bitmapSize)) == Ok(done, o) && RecordsTries(img, o, 0, bitmapSize) == 0
  {
    assert done + [] == done;
  }

  lemma AllRecordIdsNext(rs: seq<RecordNode>, r: RecordNode)
    ensures AllRecordIds(rs + [r]) == AllRecordIds(rs) + RecordIds(r)
  {
    assert (rs + [r])[..|rs|] == rs;
  }

  lemma NoComponentsYet(ids: seq<nat>)
    ensures ids + ComponentIds([]) == ids && IndexedOf([]) == []
  {
    assert ids + [] == ids;
  }

  lemma IndexedOfNext(cs: seq<ComponentNode>, c: ComponentNode)
    ensures IndexedOf(cs + [c]) == IndexedOf(cs) + [Indexed(c.index, c.component)]
  {
    assert (cs + [c])[..|cs|] == cs;
  }

  lemma ParseNoComponents(img: seq<byte>, o: nat, i: nat, count: nat, done: seq<Indexed>)
    requires count <= i < 256
    ensures After(done, ParseComponents(img, o, i, count)) == Ok(done, o) && ComponentsTries(img, o, i, count) == 0
  {
    assert done + [] == done;
  }

  /** Every way out of a descriptor. */
  lemma DescExits(img: seq<byte>, ptr: nat)
    ensures var d := ParseDesc(img, ptr);
      if |img| < ptr + TLV_SIZE then d == Err(EFAULT)
      else
        var kind, size := Get16(img, ptr), Get16(img, ptr + 2);
        if !DescLenOk(kind, size) then d == Err(EINVAL)
        else if |img| < ptr + TLV_SIZE + size then d == Err(EFAULT)
        else d == Ok(Desc(kind, img[ptr + TLV_SIZE..ptr + TLV_SIZE + size]), ptr + TLV_SIZE + size)
  {}

  lemma NoPayload()
    ensures Payload([]) == []
  {}

  lemma PayloadNext(ds: seq<DescNode>, node: DescNode)
    ensures Payload(ds + [node]) == Payload(ds) + [node.desc]
  {
    assert (ds + [node])[..|ds|] == ds;
  }

  /** Every way out of a component entry. */
  lemma ComponentExits(img: seq<byte>, ptr: nat)
    ensures var c := ParseComponent(img, ptr);
      if |img| < ptr + COMPONENT_SIZE then c == Err(EFAULT)
      else
        var end := ptr + COMPONENT_SIZE + img[ptr + 21] as int;
        if |img| < end || |img| < Get32(img, ptr + 12) + Get32(img, ptr + 16) then c == Err(EFAULT)
        else c == Ok(Component(Get16(img, ptr), Get16(img, ptr + 2), Get32(img, ptr + 4), Get16(img, ptr + 8),
                               Get16(img, ptr + 10), Get32(img, ptr + 12), Get32(img, ptr + 16), img[ptr + 20],
                               img[ptr + COMPONENT_SIZE..end]), end)
  {}

  /** Every way out of a record. */
  lemma RecordExits(img: seq<byte>, ptr: nat, bitmapSize: nat)
    ensures var r := ParseRecord(img, ptr, bitmapSize);
      var o1 := ptr + RECORD_SIZE;
      var o2 := o1 + bitmapSize;
      if |img| < o1 || |img| < o2 then r == Err(EFAULT)
      else
        var o3 := o2 + img[ptr + 8] as int;
        if |img| < o3 then r == Err(EFAULT)
        else
          var ds := ParseDescs(img, o3, img[ptr + 2]);
          && RecordTries(img, ptr, bitmapSize) == 2 + DescTries(img, o3, img[ptr + 2])
          && (ds.Err? ==> r == Err(ds.code))
          && (ds.Ok? ==> o3 <= ds.next <= |img| && r == FinishRecord(img, ptr, o1, o2, o3, ds.value, ds.next))
  {
    hide FinishRecord, ParseDescs;
    if ptr + RECORD_SIZE + bitmapSize <= |img| {
      var o3 := ptr + RECORD_SIZE + bitmapSize + img[ptr + 8] as int;
      if o3 <= |img| {
        ParseDescsSoundNext(img, o3, img[ptr + 2]);
      }
    }
  }

  lemma FinishExits(img: seq<byte>, o: nat, o1: nat, o2: nat, o3: nat, ds: seq<Desc>, o4: nat)
    requires o + RECORD_SIZE == o1 <= o2 <= o3 <= o4 <= |img|
    ensures var r := FinishRecord(img, o, o1, o2, o3, ds, o4);
      var end := o4 + Get16(img, o + 9);
      if |img| < end || end - o != Get16(img, o) then r == Err(EFAULT)
      else r == Ok(Record(0, img[o + 7], img[o2..o3], img[o1..o2], ds, img[o4..end]), end)
  {}

  /** A record's allocations are consecutive: the record, its bitmap, its descriptors. */
  lemma NodeIds(base: nat, r: RecordNode)
    requires r.id == base
    requires r.bitmapId.Some? ==> r.bitmapId.value == base + 1
    requires r.descs != [] ==> r.bitmapId.Some?
    requires forall k | 0 <= k < |r.descs| :: r.descs[k].id == base + 2 + k
    ensures Upto(base) + RecordIds(r) == Upto(base + 1 + (if r.bitmapId.Some? then 1 else 0) + |r.descs|)
  {
    if r.bitmapId.Some? {
      assert Upto(base + 2) == Upto(base) + [base] + [base + 1];
      NumberedDescIds(base + 2, r.descs);
      assert Upto(base) + ([base] + [base + 1] + DescIds(r.descs)) == Upto(base + 2) + DescIds(r.descs);
    } else {
      assert Upto(base) + ([base] + [] + []) == Upto(base + 1);
    }
  }

  /** The bitmap loop of pldm_parse_one_record. */
  method ReadBitmap(bytes: seq<byte>) returns (bits: seq<bool>)
    ensures BitsAgree(bits, bytes)
  {
    bits := seq(8 * |bytes|, _ => false);
    for i := 0 to |bytes|
      invariant |bits| == 8 * |bytes|
      invariant forall k | 0 <= k < 8 * i :: bits[k] == BitOf(bytes, k)
    {
      hide Bits.TestBit;
      bits := SetValue8(bits, bytes[i], 8 * i);
    }
  }

  lemma ParseNoDescs(img: seq<byte>, o: nat, done: seq<Desc>)
    ensures After(done, ParseDescs(img, o, 0)) == Ok(done, o) && DescTries(img, o, 0) == 0
  {
    assert done + [] == done;
  }
}
