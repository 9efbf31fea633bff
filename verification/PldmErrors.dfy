/** Which error the package parser of src/kcompat_pldmfw.c reports for which defect of an image, and what
    the descriptors of a record say about devices. */
module PldmErrors {
  import Bits
  import opened Wrappers
  import opened PldmFormat
  import opened PldmParser
  import opened PldmEngine
  import opened PldmUpdate

  // ----- defects of the header

  /** The identifier f018878c-cb7d-4943-9800-a02f059aca02 as it stands in a file. */
  predicate StartsWithId(img: seq<byte>) {
    && |img| >= 36
    && img[0] == 0xf0 && img[1] == 0x18 && img[2] == 0x87 && img[3] == 0x8c
    && img[4] == 0xcb && img[5] == 0x7d && img[6] == 0x49 && img[7] == 0x43
    && img[8] == 0x98 && img[9] == 0x00 && img[10] == 0xa0 && img[11] == 0x2f
    && img[12] == 0x05 && img[13] == 0x9a && img[14] == 0xca && img[15] == 0x02
  }

  /** No image, a short one, another format, another revision, a stated size beyond the image, a bitmap
      of broken bytes: each has its code. */
  lemma HeaderErrors(img: seq<byte>, crc: seq<byte> -> u32)
    ensures img == [] ==> ParseImage(img, crc) == Err(EINVAL)
    ensures 0 < |img| < 36 ==> ParseImage(img, crc) == Err(EFAULT)
    ensures |img| >= 36 && !StartsWithId(img) ==> ParseImage(img, crc) == Err(EINVAL)
    ensures StartsWithId(img) && img[16] != 1 ==> ParseImage(img, crc) == Err(EOPNOTSUPP)
    ensures StartsWithId(img) && img[16] == 1 && |img| < img[17] as int + 256 * (img[18] as int) ==>
      ParseImage(img, crc) == Err(EFAULT)
    ensures StartsWithId(img) && img[16] == 1 && |img| >= img[17] as int + 256 * (img[18] as int) ==>
      (img[32] as int + 256 * (img[33] as int)) % 8 != 0 ==> ParseImage(img, crc) == Err(EINVAL)
  {
    hide ParseRecords, ParseComponents, RoomNeeded;
    if |img| >= 36 {
      RoomIsTotal(Get16(img, 17));
      assert img[0..16] == HEADER_ID <==> StartsWithId(img) by {
        assert StartsWithId(img) ==> forall k | 0 <= k < 16 :: img[0..16][k] == HEADER_ID[k];
        assert img[0..16] == HEADER_ID ==> forall k | 0 <= k < 16 :: img[k] == img[0..16][k];
      }
    }
  }

  // ----- defects behind a good body

  /** The body of a package stands at the front of the image: only its end is left to decide. */
  lemma BodyParses(img: seq<byte>, crc: seq<byte> -> u32, p: Package, total: nat)
    requires PackageOk(p, |img|) && total < 0x1_0000 && total <= |img|
    requires At(img, 0, BodyBytes(p, total, |img|))
    ensures var o := PackageLen(p) - 4;
      && o <= |img| && img[..o] == BodyBytes(p, total, |img|)
      && ParseImage(img, crc) == FinishImage(img, crc, Header(total, p.bitmapSize, |p.records|),
                                             KeptRecords(p.records), Numbered(p.components, 0), o)
  {
    hide At, BodyBytes, HeaderBytes, RecordsBytes, ComponentsBytes, RecordOk, ComponentOk,
         ParseHeader, ParseRecords, ParseComponents, FinishImage;
    var o := HEADER_SIZE + |p.version|;
    var o2 := o + 1 + RecordsLen(p.records);
    EncodingLengths(p, |img|);
    BodyAt(img, p, total);
    AtSlice(img, 0, BodyBytes(p, total, |img|));
    ParseHeaderComplete(img, p, total);
    ParseRecordsComplete(img, o + 1, p.records, p.bitmapSize);
    ParseComponentsComplete(img, o2 + 2, p.components, 0);
    ParseImagePath(img, crc, Header(total, p.bitmapSize, |p.records|), o + 1, KeptRecords(p.records), o2,
                   Numbered(p.components, 0), o2 + 2 + ComponentsLen(p.components));
  }

  /** A package with any other checksum than its own is a bad message. */
  lemma WrongChecksum(img: seq<byte>, crc: seq<byte> -> u32, p: Package, c: u32)
    requires PackageOk(p, |img|) && PackageLen(p) < 0x1_0000
    requires At(img, 0, BodyBytes(p, PackageLen(p), |img|) + Le32(c))
    requires c != crc(BodyBytes(p, PackageLen(p), |img|))
    ensures ParseImage(img, crc) == Err(EBADMSG)
  {
    hide At, BodyBytes, RecordOk, ComponentOk, ParseImage;
    var body := BodyBytes(p, PackageLen(p), |img|);
    EncodingLengths(p, |img|);
    BodyAt(img, p, PackageLen(p));
    AtSplit(img, 0, body, Le32(c));
    At32(img, |body|, c);
    BodyParses(img, crc, p, PackageLen(p));
  }

  /** A package that states any other size than its own is refused, whatever its checksum. */
  lemma WrongSize(img: seq<byte>, crc: seq<byte> -> u32, p: Package, total: nat)
    requires PackageOk(p, |img|) && total < 0x1_0000 && total != PackageLen(p)
    requires At(img, 0, BodyBytes(p, total, |img|))
    ensures ParseImage(img, crc) == Err(EFAULT)
  {
    hide At, BodyBytes, RecordOk, ComponentOk, ParseImage;
    if total <= |img| {
      BodyParses(img, crc, p, total);
    } else {
      EncodingLengths(p, |img|);
      BodyAt(img, p, total);
      StatedSize(img, p, total);
      HeaderErrors(img, crc);
    }
  }

  /** The header of a package says its size. */
  lemma StatedSize(img: seq<byte>, p: Package, total: nat)
    requires PackageOk(p, |img|) && total < 0x1_0000 && At(img, 0, HeaderBytes(p, total))
    ensures StartsWithId(img) && img[16] == 1 && img[17] as int + 256 * (img[18] as int) == total
  {
    hide At, HeaderBytes, RecordOk, ComponentOk;
    HeaderAt(img, p, total);
    assert forall k | 0 <= k < 16 :: img[k] == img[0..16][k];
  }

  /** A package cut off anywhere before its end is refused. */
  lemma Truncated(img: seq<byte>, crc: seq<byte> -> u32, p: Package, n: nat)
    requires Encodes(img, crc, p) && 0 < n < PackageLen(p)
    ensures n <= |img| && ParseImage(img[..n], crc) == Err(EFAULT)
  {
    hide At, BodyBytes, HeaderBytes, RecordOk, ComponentOk, ParseImage;
    var total := PackageLen(p);
    var body := BodyBytes(p, total, |img|);
    EncodingLengths(p, |img|);
    BodyAt(img, p, total);
    AtSplit(img, 0, body, Le32(crc(body)));
    At32(img, |body|, crc(body));
    StatedSize(img, p, total);
    HeaderErrors(img[..n], crc);
  }

  // ----- defects of a descriptor

  /** The size the standard gives a descriptor type, if it gives one. */
  function StandardSize(kind: nat): Option<nat> {
    match kind
    case 0x0000 => Some(2)
    case 0x0001 => Some(4)
    case 0x0002 => Some(16)
    case 0x0003 => Some(3)
    case 0x0004 => Some(4)
    case 0x0100 => Some(2)
    case 0x0101 => Some(2)
    case 0x0102 => Some(2)
    case 0x0103 => Some(1)
    case 0x0104 => Some(4)
    case 0x0105 => Some(4)
    case _ => None
  }

  /** A descriptor is invalid exactly if its type has a standard size and this is another; cut off, it
      is out of bounds. */
  lemma DescErrors(img: seq<byte>, o: nat)
    requires o + 4 <= |img|
    ensures var kind := img[o] as int + 256 * (img[o + 1] as int);
      var size := img[o + 2] as int + 256 * (img[o + 3] as int);
      && (ParseDesc(img, o) == Err(EINVAL) <==> StandardSize(kind).Some? && StandardSize(kind).value != size)
      && (ParseDesc(img, o) == Err(EFAULT)
          <==> (StandardSize(kind).None? || StandardSize(kind).value == size) && |img| < o + 4 + size)
  {}

  /** Every defect of a component entry is out of bounds: the entry, its version or its image. */
  lemma ComponentErrors(img: seq<byte>, o: nat)
    ensures ParseComponent(img, o).Err? ==> ParseComponent(img, o) == Err(EFAULT)
    ensures ParseComponent(img, o).Err? <==>
      || |img| < o + 22
      || |img| < o + 22 + img[o + 21] as int
      || |img| < Get32(img, o + 12) + Get32(img, o + 16)
  {
    hide Get16, Get32;
  }

  /** A record is invalid only through a descriptor; every other defect is out of bounds. */
  lemma RecordErrors(img: seq<byte>, o: nat, bitmapSize: nat)
    ensures ParseRecord(img, o, bitmapSize).Err? ==>
      || ParseRecord(img, o, bitmapSize) == Err(EFAULT)
      || (ParseRecord(img, o, bitmapSize) == Err(EINVAL) && DescsInvalid(img, o, bitmapSize))
  {
    hide ParseDescs, Get16;
    RecordExits(img, o, bitmapSize);
    if |img| >= o + RECORD_SIZE + bitmapSize && |img| >= o + RECORD_SIZE + bitmapSize + img[o + 8] as int {
      DescsErrors(img, o + RECORD_SIZE + bitmapSize + img[o + 8] as int, img[o + 2]);
    }
  }

  ghost predicate DescsInvalid(img: seq<byte>, o: nat, bitmapSize: nat) {
    && o + 11 + bitmapSize <= |img|
    && ParseDescs(img, o + 11 + bitmapSize + img[o + 8] as int, img[o + 2]) == Err(EINVAL)
  }

  lemma {:induction false} DescsErrors(img: seq<byte>, o: nat, n: nat)
    ensures ParseDescs(img, o, n).Err? ==> ParseDescs(img, o, n).code == EFAULT || ParseDescs(img, o, n).code == EINVAL
    decreases n
  {
    hide DescLenOk, Get16;
    if n > 0 && ParseDesc(img, o).Ok? {
      DescsErrors(img, ParseDesc(img, o).next, n - 1);
    }
  }

  // ----- what descriptors say about devices

  /** The last descriptor of a type holds the number v in two bytes, low byte first. */
  ghost predicate Says(ds: seq<Desc>, kind: nat, v: Option<nat>) {
    match v
    case None => forall i | 0 <= i < |ds| :: ds[i].kind != kind
    case Some(n) => n < 0x1_0000 && exists i: nat :: SaysAt(ds, kind, n, i)
  }

  ghost predicate SaysAt(ds: seq<Desc>, kind: nat, v: nat, i: nat)
    requires v < 0x1_0000
  {
    i < |ds| && ds[i] == Desc(kind, Le16(v)) && forall j | i < j < |ds| :: ds[j].kind != kind
  }

  /** A type that is missing or says 0 allows every device. */
  predicate Allows(v: Option<nat>, id: nat) {
    v.None? || v.value == 0 || v.value == id
  }

  lemma NumberRead(kind: nat, v: nat)
    requires v < 0x1_0000
    ensures IdValue(Desc(kind, Le16(v))) == v
  {}

  lemma LastMatchesSaid(ds: seq<Desc>, kind: nat, v: Option<nat>, id: nat)
    requires Says(ds, kind, v)
    ensures LastMatches(ds, kind, id) <==> Allows(v, id)
  {
    hide IdValue;
    if v.Some? {
      NumberRead(kind, v.value);
      var i: nat :| SaysAt(ds, kind, v.value, i);
      assert ds[i].kind == kind;
      forall k | 0 <= k < |ds| && ds[k].kind == kind && (forall j | k < j < |ds| :: ds[j].kind != kind)
        ensures ds[k] == ds[i]
      {
        assert k >= i && k <= i;
      }
    }
  }

  /** A record matches a device exactly if vendor, device, subsystem vendor and subsystem device each say
      nothing, 0, or the device's own number. */
  lemma MatchesWhatIsSaid(ds: seq<Desc>, dev: PciId, vendor: Option<nat>, device: Option<nat>,
                          subVendor: Option<nat>, subDevice: Option<nat>)
    requires Says(ds, 0x0000, vendor) && Says(ds, 0x0100, device)
    requires Says(ds, 0x0101, subVendor) && Says(ds, 0x0102, subDevice)
    ensures Matches(ds, dev) <==>
      && Allows(vendor, dev.vendor) && Allows(device, dev.device)
      && Allows(subVendor, dev.subVendor) && Allows(subDevice, dev.subDevice)
  {
    hide LastMatches, Says;
    LastMatchesSaid(ds, 0x0000, vendor, dev.vendor);
    LastMatchesSaid(ds, 0x0100, device, dev.device);
    LastMatchesSaid(ds, 0x0101, subVendor, dev.subVendor);
    LastMatchesSaid(ds, 0x0102, subDevice, dev.subDevice);
  }

  /** Every well-formed record says something, or nothing, of each type with two bytes. */
  lemma {:induction false} SaysSomething(ds: seq<Desc>, kind: nat) returns (v: Option<nat>)
    requires kind == 0x0000 || kind == 0x0100 || kind == 0x0101 || kind == 0x0102
    requires forall i | 0 <= i < |ds| :: DescOk(ds[i])
    ensures Says(ds, kind, v)
    decreases |ds|
  {
    if ds == [] {
      return None;
    }
    var n := |ds| - 1;
    if ds[n].kind == kind {
      var d := ds[n].data;
      v := Some(d[0] as int + 256 * (d[1] as int));
      assert SaysAt(ds, kind, v.value, n) by {
        assert Le16(v.value) == d;
      }
    } else {
      v := SaysSomething(ds[..n], kind);
      if v.Some? {
        var i: nat :| SaysAt(ds[..n], kind, v.value, i);
        assert SaysAt(ds, kind, v.value, i);
      }
    }
  }

  /** Another vendor's package: no record is for the device, so nothing is sent to it. */
  lemma ForeignPackage(img: seq<byte>, crc: seq<byte> -> u32, p: Package, dev: PciId, env: Env,
                       trace: seq<Call>, err: Option<Errno>)
    requires Encodes(img, crc, p)
    requires forall k | 0 <= k < |p.records| :: SaysOtherVendor(p.records[k].descs, dev.vendor)
    requires FlashOutcome(ParseImage(img, crc), dev, env, trace, err)
    ensures trace == [] && err == Some(ENOENT)
  {
    hide Encodes, ParseImage, Matches;
    ParseEncoded(img, crc, p);
    var rs := KeptRecords(p.records);
    forall k | 0 <= k < |rs| ensures !Matches(rs[k].descs, dev) {
      assert rs[k].descs == p.records[k].descs;
      OtherVendorFails(p.records[k].descs, dev);
    }
  }

  ghost predicate SaysOtherVendor(ds: seq<Desc>, vendor: nat) {
    exists v: nat :: v != 0 && v != vendor && Says(ds, 0x0000, Some(v))
  }

  lemma OtherVendorFails(ds: seq<Desc>, dev: PciId)
    requires SaysOtherVendor(ds, dev.vendor)
    ensures !Matches(ds, dev)
  {
    var v: nat :| v != 0 && v != dev.vendor && Says(ds, 0x0000, Some(v));
    hide LastMatches, Says;
    LastMatchesSaid(ds, 0x0000, Some(v), dev.vendor);
  }

  // ----- bitmaps

  /** Component k stands in byte k / 8, at the value 2 to the k mod 8. */
  lemma BitmapBits(bytes: seq<byte>, k: nat)
    requires k < 8 * |bytes|
    ensures BitOf(bytes, k) <==> bytes[k / 8] / Bits.Pow2(k % 8) % 2 == 1
  {
    Bits.ShrIsDiv(bytes[k / 8], k % 8);
  }

  // ----- the transfer flags

  /** As numbers: 1 starts, 2 continues, 4 ends, 5 is the only one. */
  lemma FlagValues(bits: seq<bool>, i: nat)
    ensures FlagOf(bits, i)
         == if i == FirstBit(bits) && i == LastBit(bits) then 5
            else if i == FirstBit(bits) then 1
            else if i == LastBit(bits) then 4
            else 2
  {
    hide FirstBit, LastBit;
  }
}
