/** The firmware package header of section 7 of DMTF DSP0267 1.0.0: abstract packages and their
    byte encoding. */
module PldmFormat {

  type byte = b: int | 0 <= b < 256

  const HEADER_SIZE := 36
  const RECORD_SIZE := 11
  const TLV_SIZE := 4
  const COMPONENT_SIZE := 22

  /** PackageHeaderIdentifier f018878c-cb7d-4943-9800-a02f059aca02. */
  const HEADER_ID: seq<byte> :=
    [0xf0, 0x18, 0x87, 0x8c, 0xcb, 0x7d, 0x49, 0x43, 0x98, 0x00, 0xa0, 0x2f, 0x05, 0x9a, 0xca, 0x02]
  const REVISION: byte := 1

  // ----- numbers

  function Le16(n: nat): seq<byte>
    requires n < 0x1_0000
  {
    [n % 256, n / 256]
  }

  function Le32(n: nat): seq<byte>
    requires n < 0x1_0000_0000
  {
    Le16(n % 0x1_0000) + Le16(n / 0x1_0000)
  }

  /** get_unaligned_le16 */
  function Get16(img: seq<byte>, o: nat): (n: nat)
    requires o + 2 <= |img|
    ensures n < 0x1_0000
  {
    img[o] as int + 256 * (img[o + 1] as int)
  }

  /** get_unaligned_le32 */
  function Get32(img: seq<byte>, o: nat): (n: nat)
    requires o + 4 <= |img|
    ensures n < 0x1_0000_0000
  {
    Get16(img, o) + 0x1_0000 * Get16(img, o + 2)
  }

  // ----- the abstract package

  datatype Desc = Desc(kind: nat, data: seq<byte>)

  datatype Record = Record(
    flags: nat,
    versionType: byte,
    version: seq<byte>,
    bitmap: seq<byte>,
    descs: seq<Desc>,
    packageData: seq<byte>)

  datatype Component = Component(
    classification: nat,
    identifier: nat,
    stamp: nat,
    options: nat,
    activation: nat,
    location: nat,
    size: nat,
    versionType: byte,
    version: seq<byte>)

  datatype Package = Package(
    release: seq<byte>,
    bitmapSize: nat,
    versionType: byte,
    version: seq<byte>,
    records: seq<Record>,
    components: seq<Component>)

  // ----- well-formedness

  /** The size DSP0267 fixes for a standard descriptor type; vendor-defined and unknown types are free. */
  predicate DescLenOk(kind: nat, size: nat) {
    if kind in {0x0000, 0x0100, 0x0101, 0x0102} then size == 2
    else if kind == 0x0103 then size == 1
    else if kind == 0x0003 then size == 3
    else if kind in {0x0001, 0x0004, 0x0104, 0x0105} then size == 4
    else if kind == 0x0002 then size == 16
    else true
  }

  predicate DescOk(d: Desc) {
    d.kind < 0x1_0000 && |d.data| < 0x1_0000 && DescLenOk(d.kind, |d.data|)
  }

  predicate RecordOk(r: Record, bitmapSize: nat) {
    && r.flags < 0x1_0000_0000
    && |r.version| < 256
    && |r.bitmap| == bitmapSize
    && |r.descs| < 256
    && (forall i | 0 <= i < |r.descs| :: DescOk(r.descs[i]))
    && |r.packageData| < 0x1_0000
    && RecordLen(r) < 0x1_0000
  }

  predicate ComponentOk(c: Component, imageSize: nat) {
    && c.classification < 0x1_0000 && c.identifier < 0x1_0000
    && c.stamp < 0x1_0000_0000
    && c.options < 0x1_0000 && c.activation < 0x1_0000
    && c.location < 0x1_0000_0000 && c.size < 0x1_0000_0000
    && c.location + c.size <= imageSize
    && |c.version| < 256
  }

  // ----- encoding

  function DescBytes(d: Desc): seq<byte>
    requires DescOk(d)
  {
    Le16(d.kind) + (Le16(|d.data|) + d.data)
  }

  function DescsBytes(ds: seq<Desc>): seq<byte>
    requires forall i | 0 <= i < |ds| :: DescOk(ds[i])
  {
    if ds == [] then [] else DescBytes(ds[0]) + DescsBytes(ds[1..])
  }

  function DescsLen(ds: seq<Desc>): nat {
    if ds == [] then 0 else TLV_SIZE + |ds[0].data| + DescsLen(ds[1..])
  }

  function RecordLen(r: Record): nat {
    RECORD_SIZE + |r.bitmap| + |r.version| + DescsLen(r.descs) + |r.packageData|
  }

  /** The fixed part of a record. */
  function RecordInfo(r: Record): seq<byte>
    requires RecordOk(r, |r.bitmap|)
  {
    Le16(RecordLen(r)) + ([|r.descs|] + (Le32(r.flags) + ([r.versionType] + ([|r.version|] + Le16(|r.packageData|)))))
  }

  function RecordBytes(r: Record): seq<byte>
    requires RecordOk(r, |r.bitmap|)
  {
    RecordInfo(r) + (r.bitmap + (r.version + (DescsBytes(r.descs) + r.packageData)))
  }

  function RecordsBytes(rs: seq<Record>, bitmapSize: nat): seq<byte>
    requires forall i | 0 <= i < |rs| :: RecordOk(rs[i], bitmapSize)
  {
    if rs == [] then []
    else
      assert RecordOk(rs[0], bitmapSize);
      RecordBytes(rs[0]) + RecordsBytes(rs[1..], bitmapSize)
  }

  function ComponentBytes(c: Component): seq<byte>
    requires ComponentOk(c, c.location + c.size)
  {
    Le16(c.classification) + (Le16(c.identifier) + (Le32(c.stamp) + (Le16(c.options) + (Le16(c.activation) +
    (Le32(c.location) + (Le32(c.size) + ([c.versionType] + ([|c.version|] + c.version))))))))
  }

  function ComponentsBytes(cs: seq<Component>, imageSize: nat): seq<byte>
    requires forall i | 0 <= i < |cs| :: ComponentOk(cs[i], imageSize)
  {
    if cs == [] then []
    else
      assert ComponentOk(cs[0], imageSize);
      ComponentBytes(cs[0]) + ComponentsBytes(cs[1..], imageSize)
  }

  /** Package header information with its version string. */
  function HeaderBytes(p: Package, total: nat): seq<byte>
    requires total < 0x1_0000 && 8 * p.bitmapSize < 0x1_0000 && |p.version| < 256
  {
    HEADER_ID + ([REVISION] + (Le16(total) + (p.release + (Le16(8 * p.bitmapSize) +
    ([p.versionType] + ([|p.version|] + p.version))))))
  }

  predicate PackageOk(p: Package, imageSize: nat) {
    && |p.release| == 13
    && 8 * p.bitmapSize < 0x1_0000
    && |p.version| < 256
    && |p.records| < 256
    && (forall i | 0 <= i < |p.records| :: RecordOk(p.records[i], p.bitmapSize))
    && |p.components| < 256
    && (forall i | 0 <= i < |p.components| :: ComponentOk(p.components[i], imageSize))
  }

  /** Everything up to the checksum. */
  function BodyBytes(p: Package, total: nat, imageSize: nat): seq<byte>
    requires PackageOk(p, imageSize) && total < 0x1_0000
  {
    HeaderBytes(p, total) + ([|p.records|] + (RecordsBytes(p.records, p.bitmapSize) +
    (Le16(|p.components|) + ComponentsBytes(p.components, imageSize))))
  }

  // ----- a piece of an image

  /** The bytes `s` stand in the image at offset `o`. */
  predicate At(img: seq<byte>, o: nat, s: seq<byte>) {
    o + |s| <= |img| && img[o..o + |s|] == s
  }

  lemma AtSplit(img: seq<byte>, o: nat, a: seq<byte>, b: seq<byte>)
    ensures At(img, o, a + b) <==> At(img, o, a) && At(img, o + |a|, b)
  {
    if At(img, o, a + b) {
      assert img[o..o + |a + b|][..|a|] == img[o..o + |a|];
      assert img[o..o + |a + b|][|a|..] == img[o + |a|..o + |a| + |b|];
      assert (a + b)[..|a|] == a && (a + b)[|a|..] == b;
    }
    if At(img, o, a) && At(img, o + |a|, b) {
      assert img[o..o + |a + b|] == img[o..o + |a|] + img[o + |a|..o + |a| + |b|];
    }
  }

  lemma AtByte(img: seq<byte>, o: nat, b: byte)
    ensures At(img, o, [b]) <==> o < |img| && img[o] == b
  {
    if o < |img| {
      assert img[o..o + 1] == [img[o]];
    }
  }

  lemma At16(img: seq<byte>, o: nat, n: nat)
    requires n < 0x1_0000
    ensures At(img, o, Le16(n)) <==> o + 2 <= |img| && Get16(img, o) == n
  {
    if o + 2 <= |img| {
      assert img[o..o + 2] == [img[o], img[o + 1]];
    }
  }

  lemma At32(img: seq<byte>, o: nat, n: nat)
    requires n < 0x1_0000_0000
    ensures At(img, o, Le32(n)) <==> o + 4 <= |img| && Get32(img, o) == n
  {
    AtSplit(img, o, Le16(n % 0x1_0000), Le16(n / 0x1_0000));
    At16(img, o, n % 0x1_0000);
    At16(img, o + 2, n / 0x1_0000);
  }

  // ----- lengths

  lemma {:induction false} DescsBytesLen(ds: seq<Desc>)
    requires forall i | 0 <= i < |ds| :: DescOk(ds[i])
    ensures |DescsBytes(ds)| == DescsLen(ds)
  {
    if ds != [] {
      DescsBytesLen(ds[1..]);
    }
  }

  lemma RecordBytesLen(r: Record)
    requires RecordOk(r, |r.bitmap|)
    ensures |RecordInfo(r)| == RECORD_SIZE && |RecordBytes(r)| == RecordLen(r)
  {
    DescsBytesLen(r.descs);
  }
}
