/**
 * Stamping of the two per-block headers: the erase-counter (EC) header at the
 * start of every PEB, and the volume-identifier (VID) header of a LEB. Each is
 * zeroed, filled in, and finished with the CRC of everything before its CRC.
 */
module Headers {
  import opened Bytes
  import opened Media
  import opened Geometry

  /** A header body finished with the CRC of its encoded bytes. */
  function SealEc(c: Codec, b: EcBody): (h: EcHdr)
    requires ValidCodec(c)
    ensures h.body == b && EcHdrValid(c, h)
  {
    CrcValidIffStamped(c, c.ecPrefix(b), StampCrc(c, c.ecPrefix(b)));
    EcHdr(b, StampCrc(c, c.ecPrefix(b)))
  }

  function SealVid(c: Codec, b: VidBody): (h: VidHdr)
    requires ValidCodec(c)
    ensures h.body == b && VidHdrValid(c, h)
  {
    CrcValidIffStamped(c, c.vidPrefix(b), StampCrc(c, c.vidPrefix(b)));
    VidHdr(b, StampCrc(c, c.vidPrefix(b)))
  }

  /** ubigen_init_ec_hdr. */
  function InitEcHdr(c: Codec, ui: UbigenInfo, ec: int): (h: EcHdr)
    requires ValidCodec(c)
    ensures h.body.magic == U32(EC_HDR_MAGIC)
    ensures h.body.version == U8(ui.ubiVer)
    ensures h.body.ec == U64(ec)
    ensures h.body.vidHdrOffset == U32(ui.vidHdrOffs)
    ensures h.body.dataOffset == U32(ui.dataOffs)
    ensures h.body.imageSeq == U32(ui.imageSeq)
    ensures EcHdrValid(c, h)
  {
    var b := ZeroEcBody().(
      magic := U32(EC_HDR_MAGIC), version := U8(ui.ubiVer), ec := U64(ec),
      vidHdrOffset := U32(ui.vidHdrOffs), dataOffset := U32(ui.dataOffs),
      imageSeq := U32(ui.imageSeq));
    SealEc(c, b)
  }

  /** What ubigen_init_vid_hdr needs: for a static volume, data_size bytes of data. */
  predicate VidHdrPre(vi: VolInfo, data: seq<byte>, dataSize: int)
  {
    vi.volType == VID_STATIC ==> 0 <= dataSize <= |data|
  }

  /** ubigen_init_vid_hdr. */
  function InitVidHdr(c: Codec, ui: UbigenInfo, vi: VolInfo, lnum: int, lpos: int,
                      data: seq<byte>, dataSize: int): (h: VidHdr)
    requires ValidCodec(c) && VidHdrPre(vi, data, dataSize)
    ensures h.body.magic == U32(VID_HDR_MAGIC)
    ensures h.body.version == U8(ui.ubiVer)
    ensures h.body.volType == U8(vi.volType) && h.body.volMode == U8(vi.mode)
    ensures h.body.volId == U32(vi.id)
    ensures h.body.lnum == U32(lnum)
    ensures h.body.dataPad == U32(vi.dataPad)
    ensures h.body.compat == U8(vi.compat)
    // the replica position is stored only in MLC-safe mode
    ensures h.body.lpos == if vi.mode == VID_MODE_MLC_SAFE then U8(lpos) else 0
    // size, used-block count and data CRC only for static volumes
    ensures vi.volType == VID_STATIC ==>
      && h.body.dataSize == U32(dataSize)
      && h.body.usedEbs == U32(vi.usedEbs)
      && h.body.dataCrc == c.crc32(CRC32_INIT, data[..dataSize])
    ensures vi.volType != VID_STATIC ==>
      h.body.dataSize == 0 && h.body.usedEbs == 0 && h.body.dataCrc == 0
    ensures h.body.copyFlag == 0 && h.body.sqnum == 0
    ensures VidHdrValid(c, h)
  {
    var isStatic := vi.volType == VID_STATIC;
    SealVid(c, VidBody(
      U32(VID_HDR_MAGIC), U8(ui.ubiVer), U8(vi.volType), 0, U8(vi.compat), U8(vi.mode),
      if vi.mode == VID_MODE_MLC_SAFE then U8(lpos) else 0,
      U32(vi.id), U32(lnum),
      if isStatic then U32(dataSize) else 0,
      if isStatic then U32(vi.usedEbs) else 0,
      U32(vi.dataPad),
      if isStatic then c.crc32(CRC32_INIT, data[..dataSize]) else 0,
      0))
  }

  /** ubigen_init_dummy_vid_hdr: only magic, version, type, mode and the
      "consolidated" replica position are set; every other field is zero. */
  function InitDummyVidHdr(c: Codec, ui: UbigenInfo, vi: VolInfo): (h: VidHdr)
    requires ValidCodec(c)
    ensures h.body.magic == U32(VID_HDR_MAGIC)
    ensures h.body.version == U8(ui.ubiVer)
    ensures h.body.volType == U8(vi.volType) && h.body.volMode == U8(vi.mode)
    ensures h.body.lpos == U8(VID_LPOS_CONSOLIDATED)
    ensures h.body.(magic := 0, version := 0, volType := 0, volMode := 0, lpos := 0)
            == ZeroVidBody()
    ensures VidHdrValid(c, h)
  {
    var b := ZeroVidBody().(
      magic := U32(VID_HDR_MAGIC), version := U8(ui.ubiVer),
      volType := U8(vi.volType), volMode := U8(vi.mode),
      lpos := U8(VID_LPOS_CONSOLIDATED));
    SealVid(c, b)
  }

  /** The dummy header differs from every real header of a volume that is not in
      MLC-safe mode in its replica position. */
  lemma {:induction false} DummyDistinguishable(c: Codec, ui: UbigenInfo, vi: VolInfo, lnum: int,
                                                lpos: int,
                                                data: seq<byte>, dataSize: int)
    requires ValidCodec(c) && VidHdrPre(vi, data, dataSize)
    requires vi.mode != VID_MODE_MLC_SAFE
    ensures InitDummyVidHdr(c, ui, vi) != InitVidHdr(c, ui, vi, lnum, lpos, data, dataSize)
  {
    assert InitDummyVidHdr(c, ui, vi).body.lpos != InitVidHdr(c, ui, vi, lnum, lpos, data, dataSize).body.lpos;
  }

  /** Round trip for a static volume: the data CRC stored in the header is the
      CRC a mounter computes over the data_size bytes it reads back. */
  lemma {:induction false} StaticDataCrcRoundTrip(c: Codec, ui: UbigenInfo, vi: VolInfo, lnum: int,
                                                  lpos: int,
                                                  data: seq<byte>, readBack: seq<byte>)
    requires ValidCodec(c) && vi.volType == VID_STATIC
    requires |data| < 0x1_0000_0000
    requires |data| <= |readBack| && readBack[..|data|] == data
    ensures var h := InitVidHdr(c, ui, vi, lnum, lpos, data, |data|);
      && h.body.dataSize as int == |data|
      && h.body.dataCrc == c.crc32(CRC32_INIT, readBack[..h.body.dataSize])
  {
    assert data[..|data|] == data;
  }
}
