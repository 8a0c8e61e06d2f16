/**
 * The on-flash vocabulary of UBI that the image generator writes: sizes,
 * magics and flag values, the erase-counter header, the volume-identifier
 * header and the volume-table record.
 *
 * Every multi-byte field that the generator stores with cpu_to_be16/32/64 is
 * held here as the unsigned value of that width it carries. Where each field
 * sits inside the header and in which byte order (the structure layout) is the
 * business of a Codec, which supplies the bytes of a header or record that
 * precede its CRC, and its CRC-32 routine. The CRC field itself, the last four
 * bytes of each structure, is encoded here, big-endian.
 */
module Media {
  import opened Bytes

  // Sizes of the on-flash structures; each ends in a 4-byte CRC of what precedes it.
  const EC_HDR_SIZE: nat := 64
  const VID_HDR_SIZE: nat := 64
  const VTBL_RECORD_SIZE: nat := 172
  const EC_HDR_SIZE_CRC: nat := EC_HDR_SIZE - 4
  const VID_HDR_SIZE_CRC: nat := VID_HDR_SIZE - 4
  const VTBL_RECORD_SIZE_CRC: nat := VTBL_RECORD_SIZE - 4

  const MAX_VOLUMES: nat := 128
  const VOL_NAME_MAX: nat := 127

  const CRC32_INIT: uint32 := 0xFFFF_FFFF
  const EC_HDR_MAGIC: int := 0x5542_4923
  const VID_HDR_MAGIC: int := 0x5542_4921

  // Volume types.
  const VID_DYNAMIC: int := 1
  const VID_STATIC: int := 2

  // Volume modes and replica-position sentinels of the MLC-safe extension
  // (their numeric values are placeholders; only their distinctness matters).
  const VID_MODE_NORMAL: int := 0
  const VID_MODE_MLC_SAFE: int := 1
  const VID_MODE_SLC: int := 2
  const VID_LPOS_CONSOLIDATED: int := 0xFF
  const VID_LPOS_INVALID: int := 0xFE

  // The internal layout volume that holds the volume table.
  const COMPAT_REJECT: int := 5
  const LAYOUT_VOLUME_ID: int := 0x7FFF_EFFF
  const LAYOUT_VOLUME_EBS: int := 2
  const LAYOUT_VOLUME_ALIGN: int := 1
  const LAYOUT_VOLUME_TYPE: int := VID_DYNAMIC
  const LAYOUT_VOLUME_NAME: seq<char> := "layout volume"
  const LAYOUT_VOLUME_COMPAT: int := COMPAT_REJECT

  type NameField = s: seq<byte> | |s| == VOL_NAME_MAX + 1 witness seq(128, _ => 0)

  /** struct ubi_ec_hdr without its trailing hdr_crc. */
  datatype EcBody = EcBody(
    magic: uint32, version: byte, ec: uint64,
    vidHdrOffset: uint32, dataOffset: uint32, imageSeq: uint32)

  datatype EcHdr = EcHdr(body: EcBody, hdrCrc: uint32)

  /** struct ubi_vid_hdr without its trailing hdr_crc. */
  datatype VidBody = VidBody(
    magic: uint32, version: byte, volType: byte, copyFlag: byte, compat: byte,
    volMode: byte, lpos: byte, volId: uint32, lnum: uint32,
    dataSize: uint32, usedEbs: uint32, dataPad: uint32, dataCrc: uint32, sqnum: uint64)

  datatype VidHdr = VidHdr(body: VidBody, hdrCrc: uint32)

  /** struct ubi_vtbl_record without its trailing crc. */
  datatype VtblBody = VtblBody(
    reservedPebs: uint32, alignment: uint32, dataPad: uint32,
    volType: byte, updMarker: byte, nameLen: uint16, name: NameField,
    flags: byte, volMode: byte, slcRatio: byte, reservedLebs: uint32)

  datatype VtblRecord = VtblRecord(body: VtblBody, crc: uint32)

  /** The contents of a structure after memset(.., 0, sizeof ..). */
  function ZeroEcBody(): EcBody
  {
    EcBody(0, 0, 0, 0, 0, 0)
  }

  function ZeroVidBody(): VidBody
  {
    VidBody(0, 0, 0, 0, 0, 0, 0, 0, 0, 0, 0, 0, 0, 0)
  }

  function ZeroVtblBody(): VtblBody
  {
    VtblBody(0, 0, 0, 0, 0, 0, Zeros(VOL_NAME_MAX + 1), 0, 0, 0, 0)
  }

  function ZeroVtblRecord(): VtblRecord
  {
    VtblRecord(ZeroVtblBody(), 0)
  }

  /**
   * The collaborators that fix the byte-level format: mtd_crc32, and for each
   * structure the bytes that precede its CRC field (struct layout, padding
   * included). The CRC field is the last 4 bytes of each structure.
   */
  datatype Codec = Codec(
    crc32: (uint32, seq<byte>) -> uint32,
    ecPrefix: EcBody -> seq<byte>,
    vidPrefix: VidBody -> seq<byte>,
    vtblPrefix: VtblBody -> seq<byte>)

  /** What any layout of the C structures guarantees: fixed sizes, and a record
      zeroed by memset is all zero bytes. */
  ghost predicate ValidCodec(c: Codec)
  {
    && (forall b :: |c.ecPrefix(b)| == EC_HDR_SIZE_CRC)
    && (forall b :: |c.vidPrefix(b)| == VID_HDR_SIZE_CRC)
    && (forall b :: |c.vtblPrefix(b)| == VTBL_RECORD_SIZE_CRC)
    && c.vtblPrefix(ZeroVtblBody()) == Zeros(VTBL_RECORD_SIZE_CRC)
  }

  /** The CRC stamped over the given bytes: mtd_crc32(UBI_CRC32_INIT, ..). */
  function StampCrc(c: Codec, prefix: seq<byte>): uint32
  {
    c.crc32(CRC32_INIT, prefix)
  }

  /** The check a mounter applies to a structure: its last 4 bytes, read big-endian,
      are the CRC-32 of everything before them. */
  predicate CrcValid(c: Codec, image: seq<byte>)
    requires |image| >= 4
  {
    FromBE(image[|image| - 4..]) == c.crc32(CRC32_INIT, image[..|image| - 4]) as nat
  }

  /** A structure validates exactly when its CRC field is the stamp of its prefix. */
  lemma {:induction false} CrcValidIffStamped(c: Codec, prefix: seq<byte>, crc: uint32)
    ensures CrcValid(c, prefix + BE32(crc)) <==> crc == StampCrc(c, prefix)
  {
    var image := prefix + BE32(crc);
    assert image[|image| - 4..] == BE32(crc);
    assert image[..|image| - 4] == prefix;
    BE32Value(crc);
  }

  function EcImage(c: Codec, h: EcHdr): (r: seq<byte>)
    requires ValidCodec(c)
    ensures |r| == EC_HDR_SIZE
  {
    c.ecPrefix(h.body) + BE32(h.hdrCrc)
  }

  function VidImage(c: Codec, h: VidHdr): (r: seq<byte>)
    requires ValidCodec(c)
    ensures |r| == VID_HDR_SIZE
  {
    c.vidPrefix(h.body) + BE32(h.hdrCrc)
  }

  function RecordImage(c: Codec, r: VtblRecord): (img: seq<byte>)
    requires ValidCodec(c)
    ensures |img| == VTBL_RECORD_SIZE
  {
    c.vtblPrefix(r.body) + BE32(r.crc)
  }

  /** The bytes of a volume table: its records back to back. */
  function TableImage(c: Codec, t: seq<VtblRecord>): (img: seq<byte>)
    requires ValidCodec(c)
    ensures |img| == |t| * VTBL_RECORD_SIZE
  {
    if t == [] then [] else TableImage(c, t[..|t| - 1]) + RecordImage(c, t[|t| - 1])
  }

  /** Record k of a table occupies bytes [k * 172, (k + 1) * 172) of its image. */
  lemma {:induction false} TableImageAt(c: Codec, t: seq<VtblRecord>, k: int)
    requires ValidCodec(c)
    requires 0 <= k < |t|
    ensures TableImage(c, t)[k * VTBL_RECORD_SIZE..(k + 1) * VTBL_RECORD_SIZE]
            == RecordImage(c, t[k])
  {
    var init := t[..|t| - 1];
    var a := TableImage(c, init);
    var r := RecordImage(c, t[|t| - 1]);
    assert TableImage(c, t) == a + r;
    assert |a| == (|t| - 1) * VTBL_RECORD_SIZE;
    if k < |t| - 1 {
      TableImageAt(c, init, k);
      assert init[k] == t[k];
      assert (k + 1) * VTBL_RECORD_SIZE <= |a|;
      assert (a + r)[k * VTBL_RECORD_SIZE..(k + 1) * VTBL_RECORD_SIZE]
          == a[k * VTBL_RECORD_SIZE..(k + 1) * VTBL_RECORD_SIZE];
    } else {
      assert k * VTBL_RECORD_SIZE == |a|;
      assert (a + r)[|a|..|a| + VTBL_RECORD_SIZE] == r;
    }
  }

  predicate RecordValid(c: Codec, r: VtblRecord)
    requires ValidCodec(c)
  {
    CrcValid(c, RecordImage(c, r))
  }

  predicate EcHdrValid(c: Codec, h: EcHdr)
    requires ValidCodec(c)
  {
    CrcValid(c, EcImage(c, h))
  }

  predicate VidHdrValid(c: Codec, h: VidHdr)
    requires ValidCodec(c)
  {
    CrcValid(c, VidImage(c, h))
  }

  /** The record after its crc field is set to mtd_crc32(UBI_CRC32_INIT, rec, UBI_VTBL_RECORD_SIZE_CRC). */
  function Restamp(c: Codec, r: VtblRecord): (s: VtblRecord)
    requires ValidCodec(c)
    ensures s.body == r.body && RecordValid(c, s)
  {
    CrcValidIffStamped(c, c.vtblPrefix(r.body), StampCrc(c, c.vtblPrefix(r.body)));
    VtblRecord(r.body, StampCrc(c, c.vtblPrefix(r.body)))
  }

  /** A record validates iff its CRC field is the stamp of its body. */
  lemma {:induction false} RecordValidIff(c: Codec, r: VtblRecord)
    requires ValidCodec(c)
    ensures RecordValid(c, r) <==> r.crc == StampCrc(c, c.vtblPrefix(r.body))
  {
    CrcValidIffStamped(c, c.vtblPrefix(r.body), r.crc);
  }
}
