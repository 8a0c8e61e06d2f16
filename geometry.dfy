/**
 * The geometry descriptor of the image generator (struct ubigen_info) and the
 * per-volume description its callers fill in (struct ubigen_vol_info), with
 * the derivation of every offset and size from the raw flash parameters.
 */
module Geometry {
  import opened Bytes
  import opened Media
  import opened Pairing

  datatype Option<T> = None | Some(value: T)

  /** struct ubigen_info; the embedded mtd description repeats pebSize, minIoSize
      and pairing, so it is not stored twice. */
  datatype UbigenInfo = UbigenInfo(
    pebSize: int, minIoSize: int, vidHdrOffs: int, dataOffs: int, lebSize: int,
    ubiVer: int, imageSeq: int, maxVolumes: int, vtblSize: int,
    slcLebSize: int, maxLebsPerPeb: int, pairing: Option<PairingScheme>)

  /** struct ubigen_vol_info. */
  datatype VolInfo = VolInfo(
    id: int, volType: int, alignment: int, dataPad: int, usableLebSize: int,
    name: seq<byte>, nameLen: int, compat: int, usedEbs: int, bytes: int,
    flags: int, mode: int, slcRatio: int)

  /** x rounded up to a multiple of m, computed as (x + m - 1) / m * m. */
  function RoundUp(x: int, m: int): (r: int)
    requires x >= 0 && m > 0
    ensures r % m == 0 && x <= r < x + m
  {
    var q := (x + m - 1) / m;
    assert (x + m - 1) == q * m + (x + m - 1) % m;
    MulModZero(q, m);
    q * m
  }

  lemma {:induction false} MulModZero(q: int, m: int)
    requires q >= 0 && m > 0
    ensures (q * m) % m == 0
  {
    Bytes.DivModUnique(q * m, m, q, 0);
  }

  /** The VID header offset actually used: the caller's, or the EC header size
      rounded up to the sub-page size. */
  function VidHdrOffsFor(vidHdrOffs: int, subpageSize: int): int
    requires vidHdrOffs != 0 || subpageSize > 0
    requires vidHdrOffs >= 0
  {
    if vidHdrOffs == 0 then RoundUp(EC_HDR_SIZE, subpageSize) else vidHdrOffs
  }

  function DataOffsFor(vidHdrOffs: int, minIoSize: int, subpageSize: int): int
    requires vidHdrOffs != 0 || subpageSize > 0
    requires vidHdrOffs >= 0 && minIoSize > 0
  {
    RoundUp(VidHdrOffsFor(vidHdrOffs, subpageSize) + VID_HDR_SIZE, minIoSize)
  }

  /** What every descriptor built by InfoInit satisfies. */
  predicate Valid(ui: UbigenInfo)
  {
    && ui.minIoSize > 0
    && EC_HDR_SIZE <= ui.vidHdrOffs
    && ui.vidHdrOffs + VID_HDR_SIZE <= ui.dataOffs < ui.pebSize
    && ui.dataOffs % ui.minIoSize == 0
    && ui.lebSize == ui.pebSize - ui.dataOffs
    && 0 <= ui.maxVolumes <= MAX_VOLUMES
    && ui.vtblSize == ui.maxVolumes * VTBL_RECORD_SIZE <= ui.lebSize
    && (ui.pairing.None? ==> ui.slcLebSize == ui.lebSize && ui.maxLebsPerPeb == 1)
    && (ui.pairing.Some? ==>
          && ui.pairing.value.ngroups > 0
          && ui.maxLebsPerPeb == ui.pairing.value.ngroups
          && ui.slcLebSize == ui.pebSize / ui.pairing.value.ngroups - ui.dataOffs)
  }

  /** What ubigen_info_init needs: a positive I/O unit, a sub-page size when the
      VID header offset is to be derived, a given offset past the EC header, a data
      offset inside the PEB, and at least one group in a pairing scheme. */
  predicate InfoInitPre(pebSize: int, minIoSize: int, subpageSize: int, vidHdrOffs: int,
                        pairing: Option<PairingScheme>)
  {
    && minIoSize > 0
    && (vidHdrOffs == 0 ==> subpageSize > 0)
    && (vidHdrOffs == 0 || vidHdrOffs >= EC_HDR_SIZE)
    && DataOffsFor(vidHdrOffs, minIoSize, subpageSize) < pebSize
    && (pairing.Some? ==> pairing.value.ngroups > 0)
  }

  /** ubigen_info_init. */
  function InfoInit(pebSize: int, minIoSize: int, subpageSize: int, vidHdrOffs: int,
                    ubiVer: int, imageSeq: int, pairing: Option<PairingScheme>): (ui: UbigenInfo)
    requires InfoInitPre(pebSize, minIoSize, subpageSize, vidHdrOffs, pairing)
    ensures ui.pebSize == pebSize && ui.minIoSize == minIoSize && ui.ubiVer == ubiVer
    ensures ui.imageSeq == imageSeq && ui.pairing == pairing
  {
    var vid := VidHdrOffsFor(vidHdrOffs, subpageSize);
    var data := RoundUp(vid + VID_HDR_SIZE, minIoSize);
    var leb := pebSize - data;
    var fit := leb / VTBL_RECORD_SIZE;
    var maxVolumes := if fit > MAX_VOLUMES then MAX_VOLUMES else fit;
    UbigenInfo(
      pebSize, minIoSize, vid, data, leb, ubiVer, imageSeq,
      maxVolumes, maxVolumes * VTBL_RECORD_SIZE,
      if pairing.Some? then pebSize / pairing.value.ngroups - data else leb,
      if pairing.Some? then pairing.value.ngroups else 1,
      pairing)
  }

  /** Lines 46-58: where the two headers and the data go. */
  lemma {:induction false} InfoInitOffsets(pebSize: int, minIoSize: int, subpageSize: int,
                                           vidHdrOffs: int,
                                           ubiVer: int, imageSeq: int, pairing: Option<PairingScheme>)
    requires InfoInitPre(pebSize, minIoSize, subpageSize, vidHdrOffs, pairing)
    ensures var ui := InfoInit(pebSize, minIoSize, subpageSize, vidHdrOffs, ubiVer, imageSeq, pairing);
      // a zero argument is replaced by the least multiple of the sub-page size holding an EC header
      && (vidHdrOffs == 0 ==>
            ui.vidHdrOffs % subpageSize == 0 && EC_HDR_SIZE <= ui.vidHdrOffs < EC_HDR_SIZE + subpageSize)
      && (vidHdrOffs != 0 ==> ui.vidHdrOffs == vidHdrOffs)
      // data starts at the least multiple of the I/O unit past the VID header
      && ui.dataOffs % minIoSize == 0
      && ui.vidHdrOffs + VID_HDR_SIZE <= ui.dataOffs < ui.vidHdrOffs + VID_HDR_SIZE + minIoSize
      && ui.lebSize == pebSize - ui.dataOffs && ui.lebSize > 0
  {
  }

  /** Lines 62-65: the volume table holds as many records as fit in one LEB, but no
      more than the protocol maximum. */
  lemma {:induction false} InfoInitTable(pebSize: int, minIoSize: int, subpageSize: int, vidHdrOffs: int,
                                         ubiVer: int, imageSeq: int, pairing: Option<PairingScheme>)
    requires InfoInitPre(pebSize, minIoSize, subpageSize, vidHdrOffs, pairing)
    ensures var ui := InfoInit(pebSize, minIoSize, subpageSize, vidHdrOffs, ubiVer, imageSeq, pairing);
      && 0 <= ui.maxVolumes <= MAX_VOLUMES && ui.maxVolumes * VTBL_RECORD_SIZE <= ui.lebSize
      && (ui.maxVolumes == MAX_VOLUMES || ui.lebSize < (ui.maxVolumes + 1) * VTBL_RECORD_SIZE)
      && ui.vtblSize == ui.maxVolumes * VTBL_RECORD_SIZE
  {
    InfoInitOffsets(pebSize, minIoSize, subpageSize, vidHdrOffs, ubiVer, imageSeq, pairing);
    TableFits(InfoInit(pebSize, minIoSize, subpageSize, vidHdrOffs, ubiVer, imageSeq, pairing).lebSize);
  }

  /** Lines 71-78: with a pairing scheme an SLC-mode LEB is one group's share of the
      PEB less the headers, and a PEB holds one LEB per group; without, one plain LEB. */
  lemma {:induction false} InfoInitSlc(pebSize: int, minIoSize: int, subpageSize: int, vidHdrOffs: int,
                                       ubiVer: int, imageSeq: int, pairing: Option<PairingScheme>)
    requires InfoInitPre(pebSize, minIoSize, subpageSize, vidHdrOffs, pairing)
    ensures var ui := InfoInit(pebSize, minIoSize, subpageSize, vidHdrOffs, ubiVer, imageSeq, pairing);
      && (pairing.Some? ==>
            ui.slcLebSize == pebSize / pairing.value.ngroups - ui.dataOffs
            && ui.maxLebsPerPeb == pairing.value.ngroups)
      && (pairing.None? ==> ui.slcLebSize == ui.lebSize && ui.maxLebsPerPeb == 1)
  {
  }

  /** Every descriptor ubigen_info_init builds satisfies Valid. */
  lemma {:induction false} InfoInitValid(pebSize: int, minIoSize: int, subpageSize: int, vidHdrOffs: int,
                                         ubiVer: int, imageSeq: int, pairing: Option<PairingScheme>)
    requires InfoInitPre(pebSize, minIoSize, subpageSize, vidHdrOffs, pairing)
    ensures Valid(InfoInit(pebSize, minIoSize, subpageSize, vidHdrOffs, ubiVer, imageSeq, pairing))
  {
    InfoInitOffsets(pebSize, minIoSize, subpageSize, vidHdrOffs, ubiVer, imageSeq, pairing);
    InfoInitTable(pebSize, minIoSize, subpageSize, vidHdrOffs, ubiVer, imageSeq, pairing);
    InfoInitSlc(pebSize, minIoSize, subpageSize, vidHdrOffs, ubiVer, imageSeq, pairing);
  }

  /** The record count of lines 62-64: as many as fit in leb bytes, at most MAX_VOLUMES. */
  lemma {:induction false} TableFits(leb: int)
    requires leb > 0
    ensures var fit := leb / VTBL_RECORD_SIZE;
      var n := if fit > MAX_VOLUMES then MAX_VOLUMES else fit;
      && 0 <= n <= MAX_VOLUMES && n * VTBL_RECORD_SIZE <= leb
      && (n == MAX_VOLUMES || leb < (n + 1) * VTBL_RECORD_SIZE)
  {
  }

  /** A 128 KiB NAND eraseblock with 2 KiB pages and no sub-pages or pairing scheme. */
  lemma {:induction false} NandScenario()
    ensures var ui := InfoInit(0x20000, 2048, 2048, 0, 1, 0, None);
      && ui.vidHdrOffs == 2048 && ui.dataOffs == 4096 && ui.lebSize == 126976
      && ui.maxVolumes == 128 && ui.vtblSize == 22016
      && ui.slcLebSize == 126976 && ui.maxLebsPerPeb == 1
  {
    var ui := InfoInit(0x20000, 2048, 2048, 0, 1, 0, None);
    InfoInitValid(0x20000, 2048, 2048, 0, 1, 0, None);
    assert ui.vidHdrOffs == 2048;
    assert ui.dataOffs == 4096;
  }
}
