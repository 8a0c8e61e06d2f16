/**
 * The volume table: an array of one CRC-protected record per possible volume.
 * ubigen_create_empty_vtbl stamps every all-zero slot with its CRC;
 * ubigen_add_volume rewrites the slot of one volume in place.
 */
module VolumeTable {
  import opened Bytes
  import opened Media
  import opened Geometry

  /** An unused slot: all zero, with the CRC of 168 zero bytes. */
  function EmptyRecord(c: Codec): (r: VtblRecord)
    requires ValidCodec(c)
    ensures r.body == ZeroVtblBody()
    ensures r.crc == c.crc32(CRC32_INIT, Zeros(VTBL_RECORD_SIZE_CRC))
    ensures RecordValid(c, r)
  {
    Restamp(c, ZeroVtblRecord())
  }

  /** ubigen_create_empty_vtbl (without the allocation failure). */
  method CreateEmptyVtbl(c: Codec, ui: UbigenInfo) returns (vtbl: array<VtblRecord>)
    requires ValidCodec(c) && Valid(ui)
    ensures fresh(vtbl) && vtbl.Length == ui.maxVolumes
    ensures forall i | 0 <= i < vtbl.Length :: vtbl[i] == EmptyRecord(c)
  {
    vtbl := new VtblRecord[ui.maxVolumes](_ => ZeroVtblRecord());
    for i := 0 to ui.maxVolumes
      invariant forall j | 0 <= j < i :: vtbl[j] == EmptyRecord(c)
      invariant forall j | i <= j < ui.maxVolumes :: vtbl[j] == ZeroVtblRecord()
    {
      var crc := c.crc32(CRC32_INIT, c.vtblPrefix(vtbl[i].body));
      vtbl[i] := vtbl[i].(crc := crc);
    }
  }

  /** Every slot of a fresh table validates, and all slots are the same record. */
  lemma {:induction false} EmptyTableSlots(c: Codec, t: seq<VtblRecord>, i: int, j: int)
    requires ValidCodec(c)
    requires forall k | 0 <= k < |t| :: t[k] == EmptyRecord(c)
    requires 0 <= i < |t| && 0 <= j < |t|
    ensures RecordValid(c, t[i]) && t[i] == t[j]
    ensures t[i].crc == c.crc32(CRC32_INIT, RecordImage(c, t[i])[..VTBL_RECORD_SIZE_CRC])
  {
    assert RecordImage(c, t[i])[..VTBL_RECORD_SIZE_CRC] == c.vtblPrefix(t[i].body);
  }

  /** The LEB size a volume's data is cut into: the SLC-equivalent one for the two
      page-pairing modes, the plain one otherwise. */
  function EffLebSize(ui: UbigenInfo, vi: VolInfo): (r: int)
    // without a pairing scheme every mode cuts the data into whole LEBs
    ensures Valid(ui) && ui.pairing.None? ==> r == ui.lebSize
  {
    if vi.mode == VID_MODE_SLC || vi.mode == VID_MODE_MLC_SAFE then ui.slcLebSize else ui.lebSize
  }

  /** Number of LEBs needed for the volume's bytes: the ceiling of bytes / LEB size. */
  function NLebs(ui: UbigenInfo, vi: VolInfo): (n: int)
    requires EffLebSize(ui, vi) > 0 && vi.bytes >= 0
    ensures n >= 0
    ensures n * EffLebSize(ui, vi) >= vi.bytes > (n - 1) * EffLebSize(ui, vi)
  {
    var l := EffLebSize(ui, vi);
    var n := (vi.bytes + l - 1) / l;
    assert vi.bytes + l - 1 == n * l + (vi.bytes + l - 1) % l;
    assert (n - 1) * l == n * l - l;
    n
  }

  /** The two argument checks ubigen_add_volume and ubigen_write_volume make. */
  predicate PassesChecks(ui: UbigenInfo, vi: VolInfo)
  {
    vi.id < ui.maxVolumes && vi.alignment < ui.lebSize
  }

  /** What the code needs of its caller: a descriptor from InfoInit, a table of
      maxVolumes records, a non-negative id, and, once the checks pass, a positive
      LEB size to divide by (line 129) and a byte count the count is taken of; then,
      once the PEB count is known not to be negative, a non-zero alignment to take
      the data padding modulo (line 143) and a name that fits (lines 152-153). */
  predicate AddVolumePre(lebsToPebs: (int, int, int, int) -> int, ui: UbigenInfo, vi: VolInfo,
                         tableLength: int)
  {
    && Valid(ui)
    && tableLength == ui.maxVolumes
    && 0 <= vi.id
    && (PassesChecks(ui, vi) ==>
          && 0 < EffLebSize(ui, vi)
          && 0 <= vi.bytes
          && (lebsToPebs(ui.maxLebsPerPeb, vi.mode, vi.slcRatio, NLebs(ui, vi)) >= 0 ==>
                && vi.alignment != 0
                && 0 <= vi.nameLen <= VOL_NAME_MAX
                && vi.nameLen <= |vi.name|))
  }

  /** The name field after memcpy(name, vi->name, name_len) and name[name_len] = 0
      into a zeroed field. */
  function NameOf(vi: VolInfo, field: NameField): NameField
    requires 0 <= vi.nameLen <= VOL_NAME_MAX && vi.nameLen <= |vi.name|
  {
    Splice(field, 0, vi.name[..vi.nameLen])[vi.nameLen := 0]
  }

  datatype AddOutcome = AddOutcome(ret: int, table: seq<VtblRecord>)

  /** The record fields of a volume as a mounter decodes them. */
  predicate HoldsVolume(ui: UbigenInfo, vi: VolInfo, npebs: int, nlebs: int, r: VtblRecord)
    requires vi.alignment != 0 && 0 <= vi.nameLen <= VOL_NAME_MAX && vi.nameLen <= |vi.name|
  {
    && r.body.reservedPebs == U32(npebs)
    && r.body.alignment == U32(vi.alignment)
    && r.body.dataPad == U32(ui.lebSize % vi.alignment)
    && r.body.volType == U8(vi.volType)
    && r.body.volMode == U8(vi.mode)
    && r.body.flags == U8(vi.flags)
    && r.body.updMarker == 0
    && r.body.nameLen == U16(vi.nameLen)
    && r.body.name[..vi.nameLen] == vi.name[..vi.nameLen]
    && (forall k | vi.nameLen <= k < VOL_NAME_MAX + 1 :: r.body.name[k] == 0)
    && (vi.mode == VID_MODE_MLC_SAFE ==> r.body.reservedLebs == U32(nlebs))
    && (vi.mode != VID_MODE_MLC_SAFE ==> r.body.reservedLebs == 0 && r.body.slcRatio == 0)
  }

  /** Slot 0 after line 148 stores the volume's slc_ratio into it. */
  function WithSlcRatio(r: VtblRecord, slcRatio: int): VtblRecord
  {
    r.(body := r.body.(slcRatio := U8(slcRatio)))
  }

  /** The record a successful add writes into a zeroed slot, before its CRC. */
  function FilledRecord(ui: UbigenInfo, vi: VolInfo, npebs: int, nlebs: int): (r: VtblRecord)
    requires vi.alignment != 0 && 0 <= vi.nameLen <= VOL_NAME_MAX && vi.nameLen <= |vi.name|
    ensures HoldsVolume(ui, vi, npebs, nlebs, r) && r.crc == 0
  {
    var z := ZeroVtblBody();
    var b := z.(reservedPebs := U32(npebs), alignment := U32(vi.alignment),
                volType := U8(vi.volType), volMode := U8(vi.mode),
                dataPad := U32(ui.lebSize % vi.alignment), flags := U8(vi.flags));
    var b' := if vi.mode == VID_MODE_MLC_SAFE then b.(reservedLebs := U32(nlebs)) else b;
    var n := NameOf(vi, z.name);
    assert n[..vi.nameLen] == vi.name[..vi.nameLen];
    VtblRecord(b'.(name := n, nameLen := U16(vi.nameLen)), 0)
  }

  /**
   * The table and return value after ubigen_add_volume. The source writes
   * vi->slc_ratio into slot 0 (not into the slot being filled) in MLC-safe
   * mode, and only the slot being filled is re-stamped with its CRC.
   */
  function AddVolumeSpec(c: Codec, lebsToPebs: (int, int, int, int) -> int,
                         ui: UbigenInfo, vi: VolInfo, t: seq<VtblRecord>): (r: AddOutcome)
    requires ValidCodec(c) && AddVolumePre(lebsToPebs, ui, vi, |t|)
    ensures |r.table| == |t|
    // the argument checks fail without touching the table
    ensures !PassesChecks(ui, vi) ==> r == AddOutcome(-1, t)
    // a negative PEB count fails after the slot was zeroed, CRC included
    ensures PassesChecks(ui, vi) ==>
      var npebs := lebsToPebs(ui.maxLebsPerPeb, vi.mode, vi.slcRatio, NLebs(ui, vi));
      && (npebs < 0 ==> r.ret == -1 && r.table == t[vi.id := ZeroVtblRecord()])
      && (npebs >= 0 ==>
            && r.ret == 0
            && HoldsVolume(ui, vi, npebs, NLebs(ui, vi), r.table[vi.id])
            && RecordValid(c, r.table[vi.id]))
    // no other slot changes, except slot 0's slc_ratio in MLC-safe mode
    ensures forall j | 0 <= j < |t| && j != vi.id && j != 0 :: r.table[j] == t[j]
    ensures vi.id != 0 && |t| > 0 ==>
      r.table[0] == if r.ret == 0 && vi.mode == VID_MODE_MLC_SAFE
                    then WithSlcRatio(t[0], vi.slcRatio) else t[0]
    // the volume's own slot carries its slc_ratio only when it is slot 0
    ensures r.ret == 0 && vi.mode == VID_MODE_MLC_SAFE ==>
      r.table[vi.id].body.slcRatio == if vi.id == 0 then U8(vi.slcRatio) else 0
  {
    if !PassesChecks(ui, vi) then AddOutcome(-1, t)
    else
      var id := vi.id;
      var t1 := t[id := ZeroVtblRecord()];
      var nlebs := NLebs(ui, vi);
      var npebs := lebsToPebs(ui.maxLebsPerPeb, vi.mode, vi.slcRatio, nlebs);
      if npebs < 0 then AddOutcome(-1, t1)
      else
        var rec := FilledRecord(ui, vi, npebs, nlebs);
        var rec' := if vi.mode == VID_MODE_MLC_SAFE && id == 0 then WithSlcRatio(rec, vi.slcRatio) else rec;
        var t2 := if vi.mode == VID_MODE_MLC_SAFE && id != 0 then t1[0 := WithSlcRatio(t1[0], vi.slcRatio)] else t1;
        FilledRecordHolds(ui, vi, npebs, nlebs);
        AddOutcome(0, t2[id := Restamp(c, rec')])
  }

  /** In MLC-safe mode slot 0's record keeps the volume's fields once its slc_ratio is set. */
  lemma {:induction false} FilledRecordHolds(ui: UbigenInfo, vi: VolInfo, npebs: int, nlebs: int)
    requires vi.alignment != 0 && 0 <= vi.nameLen <= VOL_NAME_MAX && vi.nameLen <= |vi.name|
    ensures vi.mode == VID_MODE_MLC_SAFE ==>
      HoldsVolume(ui, vi, npebs, nlebs, WithSlcRatio(FilledRecord(ui, vi, npebs, nlebs), vi.slcRatio))
  {
    var r := FilledRecord(ui, vi, npebs, nlebs);
    assert r.body.name[..vi.nameLen] == vi.name[..vi.nameLen];
  }

  /** ubigen_add_volume: updates, in place, the slot of the volume (and slot 0). */
  method AddVolume(c: Codec, lebsToPebs: (int, int, int, int) -> int,
                   ui: UbigenInfo, vi: VolInfo, vtbl: array<VtblRecord>) returns (ret: int)
    requires ValidCodec(c) && AddVolumePre(lebsToPebs, ui, vi, vtbl.Length)
    modifies vtbl
    ensures ret == AddVolumeSpec(c, lebsToPebs, ui, vi, old(vtbl[..])).ret
    ensures vtbl[..] == AddVolumeSpec(c, lebsToPebs, ui, vi, old(vtbl[..])).table
  {
    if vi.id >= ui.maxVolumes {
      return -1;
    }
    if vi.alignment >= ui.lebSize {
      return -1;
    }
    var id := vi.id;
    ghost var t := old(vtbl[..]);
    vtbl[id] := ZeroVtblRecord();
    assert vtbl[..] == t[id := ZeroVtblRecord()];
    // the SLC-mode LEB size for SLC and MLC-safe volumes, else the plain one
    var nlebs := NLebs(ui, vi);
    var npebs := lebsToPebs(ui.maxLebsPerPeb, vi.mode, vi.slcRatio, nlebs);
    if npebs < 0 {
      return -1;
    }
    ghost var rec := FilledRecord(ui, vi, npebs, nlebs);
    // vtbl_rec points at vtbl[id]; it is filled in here as a local record and
    // stored back, so the write through vtbl[0] below is applied to it too when id is 0
    var r := vtbl[id];
    // line 138 computes a count that line 143 overwrites before it is used
    var tmp := (vi.bytes + ui.lebSize - 1) / ui.lebSize;
    r := r.(body := r.body.(reservedPebs := U32(npebs), alignment := U32(vi.alignment)));
    r := r.(body := r.body.(volType := U8(vi.volType), volMode := U8(vi.mode)));
    tmp := ui.lebSize % vi.alignment;
    r := r.(body := r.body.(dataPad := U32(tmp), flags := U8(vi.flags)));
    if vi.mode == VID_MODE_MLC_SAFE {
      if id == 0 {
        r := WithSlcRatio(r, vi.slcRatio);
      } else {
        vtbl[0] := WithSlcRatio(vtbl[0], vi.slcRatio);
      }
      r := r.(body := r.body.(reservedLebs := U32(nlebs)));
    }
    var name := Splice(r.body.name, 0, vi.name[..vi.nameLen]);
    name := name[vi.nameLen := 0];
    r := r.(body := r.body.(name := name, nameLen := U16(vi.nameLen)));
    ghost var rec' := if vi.mode == VID_MODE_MLC_SAFE && id == 0 then WithSlcRatio(rec, vi.slcRatio) else rec;
    assert r.body == rec'.body;
    var crc := c.crc32(CRC32_INIT, c.vtblPrefix(r.body));
    r := r.(crc := crc);
    vtbl[id] := r;
    ret := 0;
  }

  /**
   * When a volume other than 0 is added in MLC-safe mode, slot 0 keeps its old
   * CRC over a changed body: it still validates only if the CRC-32 of the new
   * body happens to equal that of the old one.
   */
  lemma {:induction false} MlcSafeSlotZeroStale(c: Codec, lebsToPebs: (int, int, int, int) -> int,
                                                ui: UbigenInfo, vi: VolInfo, t: seq<VtblRecord>)
    requires ValidCodec(c) && AddVolumePre(lebsToPebs, ui, vi, |t|)
    requires vi.mode == VID_MODE_MLC_SAFE && vi.id != 0
    requires AddVolumeSpec(c, lebsToPebs, ui, vi, t).ret == 0
    requires RecordValid(c, t[0])
    ensures var t' := AddVolumeSpec(c, lebsToPebs, ui, vi, t).table;
      RecordValid(c, t'[0]) <==>
        c.crc32(CRC32_INIT, c.vtblPrefix(t'[0].body)) == c.crc32(CRC32_INIT, c.vtblPrefix(t[0].body))
  {
    var t' := AddVolumeSpec(c, lebsToPebs, ui, vi, t).table;
    RecordValidIff(c, t[0]);
    RecordValidIff(c, t'[0]);
  }

  /** A slot zeroed by a failed add validates only if CRC-32 of 168 zero bytes is 0. */
  lemma {:induction false} ZeroedSlotValidIff(c: Codec)
    requires ValidCodec(c)
    ensures RecordValid(c, ZeroVtblRecord()) <==> c.crc32(CRC32_INIT, Zeros(VTBL_RECORD_SIZE_CRC)) == 0
  {
    RecordValidIff(c, ZeroVtblRecord());
  }

  /** Adding a volume leaves every other volume's slot (but slot 0) validating as before. */
  lemma {:induction false} AddVolumeKeepsOtherSlots(c: Codec, lebsToPebs: (int, int, int, int) -> int,
                                                    ui: UbigenInfo, vi: VolInfo, t: seq<VtblRecord>, j: int)
    requires ValidCodec(c) && AddVolumePre(lebsToPebs, ui, vi, |t|)
    requires 0 < j < |t| && j != vi.id
    ensures RecordValid(c, AddVolumeSpec(c, lebsToPebs, ui, vi, t).table[j]) <==> RecordValid(c, t[j])
  {
  }

  /** A 100 KiB dynamic volume on the 128 KiB / 2 KiB geometry needs one LEB; an id equal
      to the volume count is refused and leaves the table as it was. */
  lemma {:induction false} NandScenarioAddVolume(c: Codec, lebsToPebs: (int, int, int, int) -> int,
                                                 ui: UbigenInfo, vi: VolInfo, t: seq<VtblRecord>)
    requires ValidCodec(c) && |t| == 128 && |vi.name| == 4
    requires ui == InfoInit(0x20000, 2048, 2048, 0, 1, 0, None)
    requires vi == VolInfo(0, VID_DYNAMIC, 1, 0, 126976, vi.name, 4, 0, 0, 100 * 1024, 0, VID_MODE_NORMAL, 0)
    ensures AddVolumePre(lebsToPebs, ui, vi, |t|) && AddVolumePre(lebsToPebs, ui, vi.(id := 128), |t|)
    ensures NLebs(ui, vi) == 1
    ensures lebsToPebs(1, VID_MODE_NORMAL, 0, 1) >= 0 ==>
      var r := AddVolumeSpec(c, lebsToPebs, ui, vi, t);
      r.ret == 0 && r.table[0].body.reservedPebs as int == lebsToPebs(1, VID_MODE_NORMAL, 0, 1) % 0x1_0000_0000
    ensures AddVolumeSpec(c, lebsToPebs, ui, vi.(id := 128), t) == AddOutcome(-1, t)
  {
    NandScenario();
    InfoInitValid(0x20000, 2048, 2048, 0, 1, 0, None);
    assert NLebs(ui, vi) == 1;
  }

  /** An alignment of 0 is no error while the PEB count is refused: the add fails at
      line 136, before line 143 takes the padding modulo the alignment, and leaves the
      slot zeroed, CRC included. */
  lemma {:induction false} NandScenarioZeroAlignment(c: Codec, lebsToPebs: (int, int, int, int) -> int,
                                                     ui: UbigenInfo, vi: VolInfo, t: seq<VtblRecord>)
    requires ValidCodec(c) && |t| == 128
    requires ui == InfoInit(0x20000, 2048, 2048, 0, 1, 0, None)
    requires vi == VolInfo(0, VID_DYNAMIC, 0, 0, 126976, vi.name, 4, 0, 0, 100 * 1024, 0, VID_MODE_NORMAL, 0)
    requires lebsToPebs(1, VID_MODE_NORMAL, 0, 1) < 0
    ensures AddVolumePre(lebsToPebs, ui, vi, |t|)
    ensures AddVolumeSpec(c, lebsToPebs, ui, vi, t) == AddOutcome(-1, t[0 := ZeroVtblRecord()])
  {
    NandScenario();
    InfoInitValid(0x20000, 2048, 2048, 0, 1, 0, None);
    assert NLebs(ui, vi) == 1;
  }
}
