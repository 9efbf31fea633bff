/** What the package parser of src/kcompat_pldmfw.c computes, as functions of the image and a start
    offset, and its agreement with the DSP0267 encoding in both directions. */
module PldmParser {
  import opened PldmFormat

  datatype Errno = EFAULT | EINVAL | EOPNOTSUPP | EBADMSG | ENOENT | ENOMEM | Callback(code: int)

  datatype Parse<+T> = Ok(value: T, next: nat) | Err(code: Errno)

  // ----- descriptor TLVs

  /** One iteration of pldm_parse_desc_tlvs. */
  function ParseDesc(img: seq<byte>, o: nat): Parse<Desc> {
    if |img| < o + TLV_SIZE then Err(EFAULT)
    else
      var kind, size := Get16(img, o), Get16(img, o + 2);
      if !DescLenOk(kind, size) then Err(EINVAL)
      else if |img| < o + TLV_SIZE + size then Err(EFAULT)
      else Ok(Desc(kind, img[o + TLV_SIZE..o + TLV_SIZE + size]), o + TLV_SIZE + size)
  }

  /** pldm_parse_desc_tlvs */
  function ParseDescs(img: seq<byte>, o: nat, n: nat): Parse<seq<Desc>>
    decreases n
  {
    if n == 0 then Ok([], o)
    else
      match ParseDesc(img, o)
      case Err(e) => Err(e)
      case Ok(d, o') =>
        match ParseDescs(img, o', n - 1)
        case Err(e) => Err(e)
        case Ok(ds, o'') => Ok([d] + ds, o'')
  }

  lemma DescAt(img: seq<byte>, o: nat, d: Desc)
    requires DescOk(d)
    ensures At(img, o, DescBytes(d)) <==>
      && o + TLV_SIZE + |d.data| <= |img|
      && Get16(img, o) == d.kind && Get16(img, o + 2) == |d.data|
      && img[o + TLV_SIZE..o + TLV_SIZE + |d.data|] == d.data
  {
    AtSplit(img, o, Le16(d.kind), Le16(|d.data|) + d.data);
    AtSplit(img, o + 2, Le16(|d.data|), d.data);
    At16(img, o, d.kind);
    At16(img, o + 2, |d.data|);
  }

  lemma ParseDescCorrect(img: seq<byte>, o: nat)
    ensures ParseDesc(img, o).Ok? ==>
      var d := ParseDesc(img, o).value;
      && DescOk(d) && At(img, o, DescBytes(d))
      && ParseDesc(img, o).next == o + TLV_SIZE + |d.data| <= |img|
    ensures forall d: Desc :: DescOk(d) && At(img, o, DescBytes(d)) ==> ParseDesc(img, o) == Ok(d, o + TLV_SIZE + |d.data|)
  {
    if ParseDesc(img, o).Ok? {
      DescAt(img, o, ParseDesc(img, o).value);
    }
    forall d: Desc | DescOk(d) && At(img, o, DescBytes(d))
      ensures ParseDesc(img, o) == Ok(d, o + TLV_SIZE + |d.data|)
    {
      DescAt(img, o, d);
    }
  }

  predicate DescsOk(ds: seq<Desc>) {
    forall i | 0 <= i < |ds| :: DescOk(ds[i])
  }

  lemma {:induction false} ParseDescsSound(img: seq<byte>, o: nat, n: nat)
    requires o <= |img|
    ensures ParseDescs(img, o, n).Ok? ==>
      var ds := ParseDescs(img, o, n).value;
      && |ds| == n && DescsOk(ds) && At(img, o, DescsBytes(ds))
      && ParseDescs(img, o, n).next == o + DescsLen(ds) <= |img|
    decreases n
  {
    hide At, ParseDesc;
    AtSlice(img, o, []);
    if n > 0 && ParseDescs(img, o, n).Ok? {
      ParseDescCorrect(img, o);
      var d, o' := ParseDesc(img, o).value, ParseDesc(img, o).next;
      ParseDescsSound(img, o', n - 1);
      var ds := ParseDescs(img, o', n - 1).value;
      var all := [d] + ds;
      assert all[1..] == ds;
      assert |DescBytes(d)| == TLV_SIZE + |d.data|;
      AtSplit(img, o, DescBytes(d), DescsBytes(ds));
    }
  }

  lemma {:induction false} ParseDescsComplete(img: seq<byte>, o: nat, ds: seq<Desc>)
    requires DescsOk(ds) && At(img, o, DescsBytes(ds))
    ensures ParseDescs(img, o, |ds|) == Ok(ds, o + DescsLen(ds))
    decreases |ds|
  {
    hide At, ParseDesc;
    if ds != [] {
      var d := ds[0];
      assert |DescBytes(d)| == TLV_SIZE + |d.data|;
      AtSplit(img, o, DescBytes(d), DescsBytes(ds[1..]));
      ParseDescCorrect(img, o);
      ParseDescsComplete(img, o + TLV_SIZE + |d.data|, ds[1..]);
      assert [d] + ds[1..] == ds;
    }
  }

  // ----- records

  /** pldm_parse_one_record; the driver does not keep the update flags. */
  function ParseRecord(img: seq<byte>, o: nat, bitmapSize: nat): Parse<Record> {
    if |img| < o + RECORD_SIZE then Err(EFAULT)
    else
      var o1 := o + RECORD_SIZE;
      var o2 := o1 + bitmapSize;
      var o3 := o2 + img[o + 8] as int;
      if |img| < o2 then Err(EFAULT)
      else if |img| < o3 then Err(EFAULT)
      else
        ParseDescsSoundNext(img, o3, img[o + 2]);
        match ParseDescs(img, o3, img[o + 2])
        case Err(e) => Err(e)
        case Ok(ds, o4) => FinishRecord(img, o, o1, o2, o3, ds, o4)
  }

  /** The end of a record: package data, and the check of the measured length. */
  function FinishRecord(img: seq<byte>, o: nat, o1: nat, o2: nat, o3: nat, ds: seq<Desc>, o4: nat): Parse<Record>
    requires o + RECORD_SIZE == o1 <= o2 <= o3 <= o4 <= |img|
  {
    var end := o4 + Get16(img, o + 9);
    if |img| < end then Err(EFAULT)
    else if end - o != Get16(img, o) then Err(EFAULT)
    else Ok(Record(0, img[o + 7], img[o2..o3], img[o1..o2], ds, img[o4..end]), end)
  }

  lemma ParseDescsSoundNext(img: seq<byte>, o: nat, n: nat)
    requires o <= |img|
    ensures ParseDescs(img, o, n).Ok? ==> o <= ParseDescs(img, o, n).next <= |img|
  {
    ParseDescsSound(img, o, n);
  }

  function ParseRecords(img: seq<byte>, o: nat, n: nat, bitmapSize: nat): Parse<seq<Record>>
    decreases n
  {
    if n == 0 then Ok([], o)
    else
      match ParseRecord(img, o, bitmapSize)
      case Err(e) => Err(e)
      case Ok(r, o') =>
        match ParseRecords(img, o', n - 1, bitmapSize)
        case Err(e) => Err(e)
        case Ok(rs, o'') => Ok([r] + rs, o'')
  }

  lemma RecordInfoAt(img: seq<byte>, o: nat, r: Record)
    requires RecordOk(r, |r.bitmap|)
    ensures At(img, o, RecordInfo(r)) <==>
      && o + RECORD_SIZE <= |img|
      && Get16(img, o) == RecordLen(r)
      && img[o + 2] == |r.descs|
      && Get32(img, o + 3) == r.flags
      && img[o + 7] == r.versionType
      && img[o + 8] == |r.version|
      && Get16(img, o + 9) == |r.packageData|
  {
    hide At, Get16, Get32, Le16, Le32;
    LeLengths(RecordLen(r), r.flags);
    var count: byte, vlen: byte := |r.descs|, |r.version|;
    var e := Le16(|r.packageData|);
    var d := [vlen] + e;
    var c := [r.versionType] + d;
    var b := Le32(r.flags) + c;
    var a := [count] + b;
    AtSplit(img, o, Le16(RecordLen(r)), a);
    AtSplit(img, o + 2, [count], b);
    AtSplit(img, o + 3, Le32(r.flags), c);
    AtSplit(img, o + 7, [r.versionType], d);
    AtSplit(img, o + 8, [vlen], e);
    At16(img, o, RecordLen(r));
    AtByte(img, o + 2, count);
    At32(img, o + 3, r.flags);
    AtByte(img, o + 7, r.versionType);
    AtByte(img, o + 8, vlen);
    At16(img, o + 9, |r.packageData|);
  }

  /** The variable parts of a record follow its fixed part in order. */
  lemma RecordAt(img: seq<byte>, o: nat, r: Record)
    requires RecordOk(r, |r.bitmap|)
    ensures At(img, o, RecordBytes(r)) <==>
      var o1 := o + RECORD_SIZE;
      var o2 := o1 + |r.bitmap|;
      var o3 := o2 + |r.version|;
      var o4 := o3 + DescsLen(r.descs);
      && At(img, o, RecordInfo(r)) && At(img, o1, r.bitmap) && At(img, o2, r.version)
      && At(img, o3, DescsBytes(r.descs)) && At(img, o4, r.packageData)
  {
    hide At, RecordInfo, DescsBytes;
    RecordBytesLen(r);
    DescsBytesLen(r.descs);
    var o1 := o + RECORD_SIZE;
    var o2 := o1 + |r.bitmap|;
    var o3 := o2 + |r.version|;
    var d := DescsBytes(r.descs) + r.packageData;
    var c := r.version + d;
    AtSplit(img, o, RecordInfo(r), r.bitmap + c);
    AtSplit(img, o1, r.bitmap, c);
    AtSplit(img, o2, r.version, d);
    AtSplit(img, o3, DescsBytes(r.descs), r.packageData);
  }

  /** The record as DSP0267 has it, with the flags the driver skips. */
  function FullRecord(img: seq<byte>, o: nat, bitmapSize: nat): Record
    requires ParseRecord(img, o, bitmapSize).Ok?
  {
    ParseRecord(img, o, bitmapSize).value.(flags := Get32(img, o + 3))
  }

  lemma ParseRecordSound(img: seq<byte>, o: nat, bitmapSize: nat)
    requires ParseRecord(img, o, bitmapSize).Ok?
    ensures var r := FullRecord(img, o, bitmapSize);
      && RecordOk(r, bitmapSize) && At(img, o, RecordBytes(r))
      && ParseRecord(img, o, bitmapSize) == Ok(r.(flags := 0), o + RecordLen(r)) && o + RecordLen(r) <= |img|
  {
    hide At, RecordBytes, RecordInfo, DescsBytes, ParseDescs;
    var r := FullRecord(img, o, bitmapSize);
    var o3 := o + RECORD_SIZE + bitmapSize + img[o + 8] as int;
    ParseDescsSound(img, o3, img[o + 2]);
    RecordInfoAt(img, o, r);
    AtSlice(img, o + RECORD_SIZE, r.bitmap);
    AtSlice(img, o + RECORD_SIZE + bitmapSize, r.version);
    AtSlice(img, o3 + DescsLen(r.descs), r.packageData);
    RecordAt(img, o, r);
  }

  lemma FinishRecordValue(img: seq<byte>, o: nat, r: Record, o2: nat, o3: nat, o4: nat)
    requires o2 == o + RECORD_SIZE + |r.bitmap| && o3 == o2 + |r.version| && o4 == o3 + DescsLen(r.descs)
    requires o4 + |r.packageData| <= |img|
    requires Get16(img, o) == RecordLen(r) && img[o + 7] == r.versionType && Get16(img, o + 9) == |r.packageData|
    requires img[o + RECORD_SIZE..o2] == r.bitmap && img[o2..o3] == r.version
    requires img[o4..o4 + |r.packageData|] == r.packageData
    ensures FinishRecord(img, o, o + RECORD_SIZE, o2, o3, r.descs, o4) == Ok(r.(flags := 0), o + RecordLen(r))
  {}

  lemma ParseRecordPath(img: seq<byte>, o: nat, bitmapSize: nat, ds: seq<Desc>, o3: nat, o4: nat)
    requires o + RECORD_SIZE + bitmapSize <= o3 <= o4 <= |img|
    requires o3 == o + RECORD_SIZE + bitmapSize + img[o + 8] as int
    requires ParseDescs(img, o3, img[o + 2]) == Ok(ds, o4)
    ensures ParseRecord(img, o, bitmapSize)
         == FinishRecord(img, o, o + RECORD_SIZE, o + RECORD_SIZE + bitmapSize, o3, ds, o4)
  {}

  lemma ParseRecordComplete(img: seq<byte>, o: nat, r: Record, bitmapSize: nat)
    requires RecordOk(r, bitmapSize) && At(img, o, RecordBytes(r))
    ensures ParseRecord(img, o, bitmapSize) == Ok(r.(flags := 0), o + RecordLen(r))
  {
    hide RecordBytes, RecordInfo, DescsBytes, ParseDescs;
    var o2 := o + RECORD_SIZE + bitmapSize;
    var o3 := o2 + |r.version|;
    var o4 := o3 + DescsLen(r.descs);
    RecordAt(img, o, r);
    RecordInfoAt(img, o, r);
    ParseDescsComplete(img, o3, r.descs);
    ParseRecordPath(img, o, bitmapSize, r.descs, o3, o4);
    FinishRecordValue(img, o, r, o2, o3, o4);
  }

  predicate RecordsOk(rs: seq<Record>, bitmapSize: nat) {
    forall i | 0 <= i < |rs| :: RecordOk(rs[i], bitmapSize)
  }

  /** What the driver keeps of a record list. */
  function KeptRecords(rs: seq<Record>): (kept: seq<Record>)
    ensures |kept| == |rs| && forall i | 0 <= i < |rs| :: kept[i] == rs[i].(flags := 0)
  {
    if rs == [] then [] else [rs[0].(flags := 0)] + KeptRecords(rs[1..])
  }

  function RecordsLen(rs: seq<Record>): nat {
    if rs == [] then 0 else RecordLen(rs[0]) + RecordsLen(rs[1..])
  }

  lemma {:induction false} ParseRecordsSound(img: seq<byte>, o: nat, n: nat, bitmapSize: nat) returns (rs: seq<Record>)
    requires ParseRecords(img, o, n, bitmapSize).Ok? && o <= |img|
    ensures |rs| == n && RecordsOk(rs, bitmapSize) && At(img, o, RecordsBytes(rs, bitmapSize))
    ensures ParseRecords(img, o, n, bitmapSize) == Ok(KeptRecords(rs), o + RecordsLen(rs))
    ensures o + RecordsLen(rs) <= |img|
    decreases n
  {
    hide At, RecordBytes, ParseRecord, RecordLen;
    if n == 0 {
      rs := [];
      AtSlice(img, o, []);
    } else {
      ParseRecordSound(img, o, bitmapSize);
      var r := FullRecord(img, o, bitmapSize);
      var o' := ParseRecord(img, o, bitmapSize).next;
      var rest := ParseRecordsSound(img, o', n - 1, bitmapSize);
      rs := [r] + rest;
      assert rs[1..] == rest;
      RecordBytesLen(r);
      AtSplit(img, o, RecordBytes(r), RecordsBytes(rest, bitmapSize));
    }
  }

  lemma {:induction false} ParseRecordsComplete(img: seq<byte>, o: nat, rs: seq<Record>, bitmapSize: nat)
    requires RecordsOk(rs, bitmapSize) && At(img, o, RecordsBytes(rs, bitmapSize))
    ensures ParseRecords(img, o, |rs|, bitmapSize) == Ok(KeptRecords(rs), o + RecordsLen(rs))
    ensures |RecordsBytes(rs, bitmapSize)| == RecordsLen(rs)
    decreases |rs|
  {
    hide RecordBytes, ParseRecord, At;
    if rs != [] {
      var r := rs[0];
      assert RecordOk(r, bitmapSize);
      RecordBytesLen(r);
      AtSplit(img, o, RecordBytes(r), RecordsBytes(rs[1..], bitmapSize));
      ParseRecordComplete(img, o, r, bitmapSize);
      ParseRecordsComplete(img, o + RecordLen(r), rs[1..], bitmapSize);
    }
  }

  // ----- components

  /** A component entry with the index the driver gives it. */
  datatype Indexed = Indexed(index: nat, component: Component)

  function ComponentLen(c: Component): nat {
    COMPONENT_SIZE + |c.version|
  }

  /** One iteration of pldm_parse_components. */
  function ParseComponent(img: seq<byte>, o: nat): Parse<Component> {
    if |img| < o + COMPONENT_SIZE then Err(EFAULT)
    else
      var end := o + COMPONENT_SIZE + img[o + 21] as int;
      if |img| < end then Err(EFAULT)
      else if |img| < Get32(img, o + 12) + Get32(img, o + 16) then Err(EFAULT)
      else Ok(Component(Get16(img, o), Get16(img, o + 2), Get32(img, o + 4), Get16(img, o + 8), Get16(img, o + 10),
                        Get32(img, o + 12), Get32(img, o + 16), img[o + 20], img[o + COMPONENT_SIZE..end]), end)
  }

  /** The component loop: the counter has 8 bits, the count 16. */
  function ParseComponents(img: seq<byte>, o: nat, i: nat, count: nat): Parse<seq<Indexed>>
    requires i < 256
    decreases |img| - o
  {
    if i >= count then Ok([], o)
    else
      match ParseComponent(img, o)
      case Err(e) => Err(e)
      case Ok(c, o') =>
        match ParseComponents(img, o', (i + 1) % 256, count)
        case Err(e) => Err(e)
        case Ok(cs, o'') => Ok([Indexed(i, c)] + cs, o'')
  }

  lemma ComponentAt(img: seq<byte>, o: nat, c: Component)
    requires ComponentOk(c, c.location + c.size)
    ensures At(img, o, ComponentBytes(c)) <==>
      && o + ComponentLen(c) <= |img|
      && Get16(img, o) == c.classification && Get16(img, o + 2) == c.identifier
      && Get32(img, o + 4) == c.stamp
      && Get16(img, o + 8) == c.options && Get16(img, o + 10) == c.activation
      && Get32(img, o + 12) == c.location && Get32(img, o + 16) == c.size
      && img[o + 20] == c.versionType && img[o + 21] == |c.version|
      && img[o + COMPONENT_SIZE..o + ComponentLen(c)] == c.version
  {
    hide At, Le16, Le32, Get16, Get32;
    assert |Le16(c.classification)| == |Le16(c.identifier)| == |Le16(c.options)| == |Le16(c.activation)| == 2 by {
      LeLengths(c.classification, 0);
      LeLengths(c.identifier, 0);
      LeLengths(c.options, 0);
      LeLengths(c.activation, 0);
    }
    assert |Le32(c.stamp)| == |Le32(c.location)| == |Le32(c.size)| == 4 by {
      LeLengths(0, c.stamp);
      LeLengths(0, c.location);
      LeLengths(0, c.size);
    }
    var vlen: byte := |c.version|;
    var s9 := [vlen] + c.version;
    var s8 := [c.versionType] + s9;
    var s7 := Le32(c.size) + s8;
    var s6 := Le32(c.location) + s7;
    var s5 := Le16(c.activation) + s6;
    var s4 := Le16(c.options) + s5;
    var s3 := Le32(c.stamp) + s4;
    var s2 := Le16(c.identifier) + s3;
    AtSplit(img, o, Le16(c.classification), s2);
    AtSplit(img, o + 2, Le16(c.identifier), s3);
    AtSplit(img, o + 4, Le32(c.stamp), s4);
    AtSplit(img, o + 8, Le16(c.options), s5);
    AtSplit(img, o + 10, Le16(c.activation), s6);
    AtSplit(img, o + 12, Le32(c.location), s7);
    AtSplit(img, o + 16, Le32(c.size), s8);
    AtSplit(img, o + 20, [c.versionType], s9);
    AtSplit(img, o + 21, [vlen], c.version);
    At16(img, o, c.classification);
    At16(img, o + 2, c.identifier);
    At32(img, o + 4, c.stamp);
    At16(img, o + 8, c.options);
    At16(img, o + 10, c.activation);
    At32(img, o + 12, c.location);
    At32(img, o + 16, c.size);
    AtByte(img, o + 20, c.versionType);
    AtByte(img, o + 21, vlen);
    AtSlice(img, o + 22, c.version);
  }

  lemma LeLengths(m: nat, n: nat)
    requires m < 0x1_0000 && n < 0x1_0000_0000
    ensures |Le16(m)| == 2 && |Le32(n)| == 4
  {}

  lemma AtSlice(img: seq<byte>, o: nat, s: seq<byte>)
    ensures At(img, o, s) <==> o + |s| <= |img| && img[o..o + |s|] == s
  {}

  lemma ParseComponentSound(img: seq<byte>, o: nat)
    requires ParseComponent(img, o).Ok?
    ensures var c := ParseComponent(img, o).value;
      && ComponentOk(c, |img|) && At(img, o, ComponentBytes(c))
      && ParseComponent(img, o).next == o + ComponentLen(c) <= |img|
  {
    hide At, ComponentBytes;
    ComponentAt(img, o, ParseComponent(img, o).value);
  }

  lemma ParseComponentComplete(img: seq<byte>, o: nat, c: Component)
    requires ComponentOk(c, |img|) && At(img, o, ComponentBytes(c))
    ensures ParseComponent(img, o) == Ok(c, o + ComponentLen(c))
  {
    hide At, ComponentBytes;
    ComponentAt(img, o, c);
  }

  predicate ComponentsOk(cs: seq<Component>, imageSize: nat) {
    forall i | 0 <= i < |cs| :: ComponentOk(cs[i], imageSize)
  }

  /** Components numbered consecutively from `i`. */
  function Numbered(cs: seq<Component>, i: nat): (r: seq<Indexed>)
    ensures |r| == |cs|
    ensures forall k | 0 <= k < |cs| :: r[k] == Indexed(i + k, cs[k])
  {
    if cs == [] then [] else [Indexed(i, cs[0])] + Numbered(cs[1..], i + 1)
  }

  function ComponentsLen(cs: seq<Component>): nat {
    if cs == [] then 0 else ComponentLen(cs[0]) + ComponentsLen(cs[1..])
  }

  lemma ComponentBytesLen(c: Component)
    requires ComponentOk(c, c.location + c.size)
    ensures |ComponentBytes(c)| == ComponentLen(c)
  {}

  /** With more than 255 components the 8-bit counter never reaches the count: the scan always ends
      in an error, because every round moves the cursor towards the end of the image. */
  lemma {:induction false} TooManyComponents(img: seq<byte>, o: nat, i: nat, count: nat)
    requires i < 256 <= count
    ensures ParseComponents(img, o, i, count).Err?
    decreases |img| - o
  {
    if ParseComponent(img, o).Ok? {
      TooManyComponents(img, ParseComponent(img, o).next, (i + 1) % 256, count);
    }
  }

  lemma AtNothing(img: seq<byte>, o: nat)
    requires o <= |img|
    ensures At(img, o, [])
  {}

  lemma {:induction false} ParseComponentsSound(img: seq<byte>, o: nat, i: nat, count: nat) returns (cs: seq<Component>)
    requires i < 256 && i <= count && o <= |img| && ParseComponents(img, o, i, count).Ok?
    ensures count < 256 && |cs| == count - i
    ensures ComponentsOk(cs, |img|) && At(img, o, ComponentsBytes(cs, |img|))
    ensures ParseComponents(img, o, i, count) == Ok(Numbered(cs, i), o + ComponentsLen(cs))
    ensures o + ComponentsLen(cs) <= |img|
    decreases |img| - o
  {
    hide ComponentBytes, ParseComponent, At;
    if count >= 256 {
      TooManyComponents(img, o, i, count);
      assert false;
    }
    if i == count {
      cs := [];
      AtNothing(img, o);
    } else {
      ParseComponentSound(img, o);
      var c := ParseComponent(img, o).value;
      var rest := ParseComponentsSound(img, o + ComponentLen(c), i + 1, count);
      cs := [c] + rest;
      assert cs[1..] == rest;
      ComponentBytesLen(c);
      AtSplit(img, o, ComponentBytes(c), ComponentsBytes(rest, |img|));
    }
  }

  lemma {:induction false} ParseComponentsComplete(img: seq<byte>, o: nat, cs: seq<Component>, i: nat)
    requires i + |cs| < 256 && ComponentsOk(cs, |img|) && At(img, o, ComponentsBytes(cs, |img|))
    ensures ParseComponents(img, o, i, i + |cs|) == Ok(Numbered(cs, i), o + ComponentsLen(cs))
    ensures |ComponentsBytes(cs, |img|)| == ComponentsLen(cs)
    decreases |cs|
  {
    hide At, ComponentBytes, ParseComponent;
    if cs == [] {
      assert ParseComponents(img, o, i, i) == Ok([], o);
    } else {
      var c := cs[0];
      assert ComponentOk(c, |img|);
      ComponentBytesLen(c);
      AtSplit(img, o, ComponentBytes(c), ComponentsBytes(cs[1..], |img|));
      ParseComponentComplete(img, o, c);
      ParseComponentsComplete(img, o + ComponentLen(c), cs[1..], i + 1);
    }
  }

  // ----- the package header

  datatype Header = Header(total: nat, bitmapSize: nat, recordCount: nat)

  /** size_t arithmetic on a 64-bit kernel. */
  const SIZE_MOD := 0x1_0000_0000_0000_0000

  /** The check of the stated header size: the subtraction wraps for a stated size below the fixed
      header, and adding the offset wraps it back. */
  function RoomNeeded(total: nat): nat {
    (HEADER_SIZE + (total - HEADER_SIZE) % SIZE_MOD) % SIZE_MOD
  }

  /** pldm_parse_header */
  function ParseHeader(img: seq<byte>): Parse<Header> {
    if |img| < HEADER_SIZE then Err(EFAULT)
    else if img[0..16] != HEADER_ID then Err(EINVAL)
    else if img[16] != REVISION then Err(EOPNOTSUPP)
    else if |img| < RoomNeeded(Get16(img, 17)) then Err(EFAULT)
    else if Get16(img, 32) % 8 != 0 then Err(EINVAL)
    else
      var o := HEADER_SIZE + img[35] as int;
      if |img| < o then Err(EFAULT)
      else if |img| < o + 1 then Err(EFAULT)
      else Ok(Header(Get16(img, 17), Get16(img, 32) / 8, img[o]), o + 1)
  }

  lemma HeaderAt(img: seq<byte>, p: Package, total: nat)
    requires total < 0x1_0000 && 8 * p.bitmapSize < 0x1_0000 && |p.version| < 256 && |p.release| == 13
    ensures At(img, 0, HeaderBytes(p, total)) <==>
      && HEADER_SIZE + |p.version| <= |img|
      && img[0..16] == HEADER_ID && img[16] == REVISION
      && Get16(img, 17) == total && img[19..32] == p.release
      && Get16(img, 32) == 8 * p.bitmapSize
      && img[34] == p.versionType && img[35] == |p.version|
      && img[36..36 + |p.version|] == p.version
  {
    hide At, Le16, Get16;
    assert |Le16(total)| == |Le16(8 * p.bitmapSize)| == 2 by {
      LeLengths(total, 0);
      LeLengths(8 * p.bitmapSize, 0);
    }
    var vlen: byte := |p.version|;
    var s7 := [vlen] + p.version;
    var s6 := [p.versionType] + s7;
    var s5 := Le16(8 * p.bitmapSize) + s6;
    var s4 := p.release + s5;
    var s3 := Le16(total) + s4;
    var s2 := [REVISION] + s3;
    AtSplit(img, 0, HEADER_ID, s2);
    AtSplit(img, 16, [REVISION], s3);
    AtSplit(img, 17, Le16(total), s4);
    AtSplit(img, 19, p.release, s5);
    AtSplit(img, 32, Le16(8 * p.bitmapSize), s6);
    AtSplit(img, 34, [p.versionType], s7);
    AtSplit(img, 35, [vlen], p.version);
    AtSlice(img, 0, HEADER_ID);
    AtByte(img, 16, REVISION);
    At16(img, 17, total);
    AtSlice(img, 19, p.release);
    At16(img, 32, 8 * p.bitmapSize);
    AtByte(img, 34, p.versionType);
    AtByte(img, 35, vlen);
    AtSlice(img, 36, p.version);
  }

  // ----- whole images

  type u32 = n: int | 0 <= n < 0x1_0000_0000

  /** What the driver holds after a successful parse. */
  datatype Parsed = Parsed(total: nat, bitmapSize: nat, records: seq<Record>, components: seq<Indexed>)

  /** pldm_parse_image; `crc` is the checksum of the bytes before it. */
  function ParseImage(img: seq<byte>, crc: seq<byte> -> u32): Parse<Parsed> {
    if img == [] then Err(EINVAL)
    else
      match ParseHeader(img)
      case Err(e) => Err(e)
      case Ok(h, o1) =>
        match ParseRecords(img, o1, h.recordCount, h.bitmapSize)
        case Err(e) => Err(e)
        case Ok(rs, o2) =>
          if |img| < o2 + 2 then Err(EFAULT)
          else
            match ParseComponents(img, o2 + 2, 0, Get16(img, o2))
            case Err(e) => Err(e)
            case Ok(cs, o3) => FinishImage(img, crc, h, rs, cs, o3)
  }

  /** The end of the header: its checksum and the check of its size. */
  function FinishImage(img: seq<byte>, crc: seq<byte> -> u32, h: Header, rs: seq<Record>, cs: seq<Indexed>, o: nat): Parse<Parsed> {
    if |img| < o + 4 then Err(EFAULT)
    else if o + 4 != h.total then Err(EFAULT)
    else if crc(img[..o]) != Get32(img, o) then Err(EBADMSG)
    else Ok(Parsed(h.total, h.bitmapSize, rs, cs), o + 4)
  }

  /** The image begins with the encoding of package `p` and its checksum. */
  predicate Encodes(img: seq<byte>, crc: seq<byte> -> u32, p: Package) {
    && PackageOk(p, |img|)
    && var total := PackageLen(p);
    && total < 0x1_0000
    && var body := BodyBytes(p, total, |img|);
    && At(img, 0, body + Le32(crc(body)))
  }

  function PackageLen(p: Package): nat {
    HEADER_SIZE + |p.version| + 1 + RecordsLen(p.records) + 2 + ComponentsLen(p.components) + 4
  }

  /** What the driver keeps of a package. */
  function View(p: Package): Parsed {
    Parsed(PackageLen(p), p.bitmapSize, KeptRecords(p.records), Numbered(p.components, 0))
  }

  /** The parts of a body follow each other without gap or overlap. */
  lemma BodyAt(img: seq<byte>, p: Package, total: nat)
    requires PackageOk(p, |img|) && total < 0x1_0000
    requires |RecordsBytes(p.records, p.bitmapSize)| == RecordsLen(p.records)
    requires |ComponentsBytes(p.components, |img|)| == ComponentsLen(p.components)
    ensures |BodyBytes(p, total, |img|)| + 4 == PackageLen(p)
    ensures At(img, 0, BodyBytes(p, total, |img|)) <==>
      var o := HEADER_SIZE + |p.version|;
      var o2 := o + 1 + RecordsLen(p.records);
      && At(img, 0, HeaderBytes(p, total))
      && o < |img| && img[o] == |p.records|
      && At(img, o + 1, RecordsBytes(p.records, p.bitmapSize))
      && o2 + 2 <= |img| && Get16(img, o2) == |p.components|
      && At(img, o2 + 2, ComponentsBytes(p.components, |img|))
  {
    hide At, RecordsBytes, ComponentsBytes, RecordsLen, ComponentsLen, RecordOk, ComponentOk;
    var rcount: byte := |p.records|;
    var o := HEADER_SIZE + |p.version|;
    var o2 := o + 1 + RecordsLen(p.records);
    var s4 := Le16(|p.components|) + ComponentsBytes(p.components, |img|);
    var s3 := RecordsBytes(p.records, p.bitmapSize) + s4;
    assert |HeaderBytes(p, total)| == o;
    AtSplit(img, 0, HeaderBytes(p, total), [rcount] + s3);
    AtSplit(img, o, [rcount], s3);
    AtSplit(img, o + 1, RecordsBytes(p.records, p.bitmapSize), s4);
    AtSplit(img, o2, Le16(|p.components|), ComponentsBytes(p.components, |img|));
    AtByte(img, o, rcount);
    At16(img, o2, |p.components|);
  }

  lemma RoomIsTotal(total: nat)
    requires total < 0x1_0000
    ensures RoomNeeded(total) == total
  {
    if total < HEADER_SIZE {
      assert (total - HEADER_SIZE) % SIZE_MOD == total - HEADER_SIZE + SIZE_MOD;
      assert (total + SIZE_MOD) % SIZE_MOD == total;
    }
  }

  lemma ParseHeaderComplete(img: seq<byte>, p: Package, total: nat)
    requires PackageOk(p, |img|) && total < 0x1_0000 && total <= |img|
    requires At(img, 0, HeaderBytes(p, total))
    requires var o := HEADER_SIZE + |p.version|; o < |img| && img[o] == |p.records|
    ensures ParseHeader(img) == Ok(Header(total, p.bitmapSize, |p.records|), HEADER_SIZE + |p.version| + 1)
  {
    hide At, HeaderBytes, RecordOk, ComponentOk, RoomNeeded;
    HeaderAt(img, p, total);
    RoomIsTotal(total);
  }

  /** The parser's path through an image whose four parts parse. */
  lemma ParseImagePath(img: seq<byte>, crc: seq<byte> -> u32, h: Header, o1: nat, rs: seq<Record>, o2: nat,
                       cs: seq<Indexed>, o3: nat)
    requires img != [] && ParseHeader(img) == Ok(h, o1)
    requires ParseRecords(img, o1, h.recordCount, h.bitmapSize) == Ok(rs, o2)
    requires o2 + 2 <= |img| && ParseComponents(img, o2 + 2, 0, Get16(img, o2)) == Ok(cs, o3)
    ensures ParseImage(img, crc) == FinishImage(img, crc, h, rs, cs, o3)
  {
    hide ParseHeader, ParseRecords, ParseComponents;
  }

  /** Round trip: an image that begins with the encoding of a well-formed package parses, and the
      driver gets what the package says. */
  lemma ParseEncoded(img: seq<byte>, crc: seq<byte> -> u32, p: Package)
    requires Encodes(img, crc, p)
    ensures ParseImage(img, crc) == Ok(View(p), PackageLen(p))
  {
    hide At, BodyBytes, HeaderBytes, RecordsBytes, ComponentsBytes, RecordOk, ComponentOk,
         ParseHeader, ParseRecords, ParseComponents;
    var total := PackageLen(p);
    var body := BodyBytes(p, total, |img|);
    var o := HEADER_SIZE + |p.version|;
    var o2 := o + 1 + RecordsLen(p.records);
    var o3 := o2 + 2 + ComponentsLen(p.components);
    EncodingLengths(p, |img|);
    BodyAt(img, p, total);
    AtSplit(img, 0, body, Le32(crc(body)));
    At32(img, o3, crc(body));
    AtSlice(img, 0, body);
    assert img[..o3] == body;
    ParseHeaderComplete(img, p, total);
    ParseRecordsComplete(img, o + 1, p.records, p.bitmapSize);
    ParseComponentsComplete(img, o2 + 2, p.components, 0);
    ParseImagePath(img, crc, Header(total, p.bitmapSize, |p.records|), o + 1, KeptRecords(p.records), o2,
                   Numbered(p.components, 0), o3);
  }

  lemma {:induction false} RecordsBytesLen(rs: seq<Record>, bitmapSize: nat)
    requires RecordsOk(rs, bitmapSize)
    ensures |RecordsBytes(rs, bitmapSize)| == RecordsLen(rs)
  {
    hide RecordBytes, RecordLen;
    if rs != [] {
      assert RecordOk(rs[0], bitmapSize);
      RecordBytesLen(rs[0]);
      RecordsBytesLen(rs[1..], bitmapSize);
    }
  }

  lemma {:induction false} ComponentsBytesLen(cs: seq<Component>, imageSize: nat)
    requires ComponentsOk(cs, imageSize)
    ensures |ComponentsBytes(cs, imageSize)| == ComponentsLen(cs)
  {
    hide ComponentBytes;
    if cs != [] {
      assert ComponentOk(cs[0], imageSize);
      ComponentBytesLen(cs[0]);
      ComponentsBytesLen(cs[1..], imageSize);
    }
  }

  lemma EncodingLengths(p: Package, imageSize: nat)
    requires PackageOk(p, imageSize)
    ensures |RecordsBytes(p.records, p.bitmapSize)| == RecordsLen(p.records)
    ensures |ComponentsBytes(p.components, imageSize)| == ComponentsLen(p.components)
  {
    hide RecordOk, ComponentOk;
    RecordsBytesLen(p.records, p.bitmapSize);
    ComponentsBytesLen(p.components, imageSize);
  }

  /** The package header an accepted image starts with, around given records and components. */
  function PackageOf(img: seq<byte>, rs: seq<Record>, cs: seq<Component>): Package
    requires ParseHeader(img).Ok?
  {
    Package(img[19..32], ParseHeader(img).value.bitmapSize, img[34], img[36..36 + img[35] as int], rs, cs)
  }

  lemma ParseHeaderSound(img: seq<byte>, rs: seq<Record>, cs: seq<Component>)
    requires ParseHeader(img).Ok?
    ensures var p := PackageOf(img, rs, cs);
      var o := HEADER_SIZE + |p.version|;
      && |p.release| == 13 && 8 * p.bitmapSize < 0x1_0000 && |p.version| < 256
      && ParseHeader(img).value.total < 0x1_0000
      && ParseHeader(img).next == o + 1 <= |img| && img[o] == ParseHeader(img).value.recordCount
      && At(img, 0, HeaderBytes(p, ParseHeader(img).value.total))
  {
    hide At, HeaderBytes, RoomNeeded;
    HeaderAt(img, PackageOf(img, rs, cs), ParseHeader(img).value.total);
  }

  /** Parts that follow each other, closed by the right checksum, make an encoded package. */
  lemma AssembleImage(img: seq<byte>, crc: seq<byte> -> u32, p: Package)
    requires PackageOk(p, |img|)
    requires var total := PackageLen(p);
      var o := HEADER_SIZE + |p.version|;
      var o2 := o + 1 + RecordsLen(p.records);
      && total < 0x1_0000 && total <= |img|
      && At(img, 0, HeaderBytes(p, total))
      && img[o] == |p.records| && At(img, o + 1, RecordsBytes(p.records, p.bitmapSize))
      && Get16(img, o2) == |p.components| && At(img, o2 + 2, ComponentsBytes(p.components, |img|))
      && crc(img[..total - 4]) == Get32(img, total - 4)
    ensures Encodes(img, crc, p)
  {
    hide At, BodyBytes, HeaderBytes, RecordsBytes, ComponentsBytes, RecordOk, ComponentOk, RecordsLen, ComponentsLen;
    var total := PackageLen(p);
    EncodingLengths(p, |img|);
    BodyAt(img, p, total);
    var body := BodyBytes(p, total, |img|);
    AtSlice(img, 0, body);
    assert img[..total - 4] == body;
    At32(img, total - 4, crc(body));
    AtSplit(img, 0, body, Le32(crc(body)));
  }

  /** Soundness: an accepted image begins with the encoding of a well-formed package, tiled without
      gap or overlap up to the stated header size, and the driver holds what that package says. */
  lemma AcceptedIsEncoded(img: seq<byte>, crc: seq<byte> -> u32) returns (p: Package)
    requires ParseImage(img, crc).Ok?
    ensures Encodes(img, crc, p)
    ensures ParseImage(img, crc) == Ok(View(p), PackageLen(p))
    ensures ParseImage(img, crc).value.total == PackageLen(p) <= |img|
  {
    hide At, HeaderBytes, RecordsBytes, ComponentsBytes, BodyBytes, Encodes, RecordOk, ComponentOk,
         ParseHeader, ParseRecords, ParseComponents;
    ParseHeaderSound(img, [], []);
    var h, o1 := ParseHeader(img).value, ParseHeader(img).next;
    var rs := ParseRecordsSound(img, o1, h.recordCount, h.bitmapSize);
    var o2 := o1 + RecordsLen(rs);
    var cs := ParseComponentsSound(img, o2 + 2, 0, Get16(img, o2));
    p := PackageOf(img, rs, cs);
    ParseHeaderSound(img, rs, cs);
    AssembleImage(img, crc, p);
  }

  /** The parser accepts exactly the images that begin with an encoded package. */
  lemma AcceptedIffEncoded(img: seq<byte>, crc: seq<byte> -> u32)
    ensures ParseImage(img, crc).Ok? <==> exists p: Package :: Encodes(img, crc, p)
  {
    hide ParseImage, Encodes;
    if ParseImage(img, crc).Ok? {
      var p := AcceptedIsEncoded(img, crc);
    }
    forall p: Package | Encodes(img, crc, p) ensures ParseImage(img, crc).Ok? {
      ParseEncoded(img, crc, p);
    }
  }

  /** Building an image and parsing it returns the package. */
  lemma RoundTrip(p: Package, crc: seq<byte> -> u32, payload: seq<byte>)
    requires var size := PackageLen(p) + |payload|;
      PackageOk(p, size) && PackageLen(p) < 0x1_0000
    ensures var body := BodyBytes(p, PackageLen(p), PackageLen(p) + |payload|);
      ParseImage(body + Le32(crc(body)) + payload, crc) == Ok(View(p), PackageLen(p))
  {
    hide BodyBytes, ParseImage, RecordOk, ComponentOk, RecordsBytes, ComponentsBytes;
    var size := PackageLen(p) + |payload|;
    var body := BodyBytes(p, PackageLen(p), size);
    var front := body + Le32(crc(body));
    var img := front + payload;
    EncodingLengths(p, size);
    BodyLength(p, PackageLen(p), size);
    assert |img| == size;
    assert img[0..|front|] == front;
    ParseEncoded(img, crc, p);
  }

  lemma BodyLength(p: Package, total: nat, imageSize: nat)
    requires PackageOk(p, imageSize) && total < 0x1_0000
    ensures |BodyBytes(p, total, imageSize)| + 4 == PackageLen(p)
  {
    hide RecordsBytes, ComponentsBytes, RecordsLen, ComponentsLen, RecordOk, ComponentOk;
    EncodingLengths(p, imageSize);
    assert |HeaderBytes(p, total)| == HEADER_SIZE + |p.version|;
  }

  /** Every accepted image has at most 255 components, numbered by distinct consecutive indices. */
  lemma AcceptedComponents(img: seq<byte>, crc: seq<byte> -> u32)
    requires ParseImage(img, crc).Ok?
    ensures var cs := ParseImage(img, crc).value.components;
      |cs| <= 255 && forall k | 0 <= k < |cs| :: cs[k].index == k
  {
    hide ParseImage, BodyBytes, At;
    var p := AcceptedIsEncoded(img, crc);
  }
}
