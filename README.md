# A verified model of the UBI image generator

This project models the core of `libubigen`. It is the library the UBI tools use to
build a UBI image for a flash chip. UBI (Unsorted Block Images) is the volume layer on
top of raw NAND/NOR flash.

- **The geometry descriptor.** One function derives it from the raw flash
  parameters. It gives the offsets of the erase-counter (EC) header, the
  volume-identifier (VID) header and the data, the LEB (logical eraseblock) size, the
  size of the volume table, and the SLC-mode figures for MLC NAND with a page-pairing
  scheme.
- **The two headers,** stamped field by field and sealed with the CRC-32 of
  everything before the CRC field.
- **The volume table:** an empty table of CRC-protected records, and a volume added to
  it in place.
- **The composition of one PEB** (physical eraseblock) from a LEB's worth of payload,
  in three modes:
  - plain;
  - SLC emulation, where the payload goes only into the group-0 page of each pair;
  - MLC-safe, where replica VID headers go at the end of the block.
- **The two writers:**
  - `ubigen_write_volume` streams a payload into whole PEBs;
  - `ubigen_write_layout_vol` writes the two copies of the internal layout volume.
- **The page-pairing interface of libmtd** that the SLC emulation relies on. A pairing
  scheme is a value with two conversion functions. `Pairing.ValidScheme` is the
  contract their documentation promises.

How the model is built:

- **Layout of the C structures.** Where a field lies and its byte order are left to a
  `Codec` value. It supplies the bytes of each structure before its CRC, and the
  CRC-32 routine. The CRC field itself is encoded big-endian here.
- **Files.** An input file is an object with its bytes and a position. An output file
  records the bytes of each write at the offset where the write started. Whether a
  seek or a write succeeds, and how many bytes a write takes, is up to the file, so
  each is a nondeterministic choice.

The module structure follows the program:

| module | file | models |
|---|---|---|
| `Bytes` | bytes.dfy | unsigned fields, big-endian encoding, `memset`/`memcpy` |
| `Media` | media.dfy | on-flash structures, constants, the CRC check |
| `Pairing` | pairing.dfy | `struct mtd_pairing_scheme` and its contract |
| `Geometry` | geometry.dfy | `struct ubigen_info`, `ubigen_info_init` |
| `Headers` | headers.dfy | `ubigen_init_ec_hdr`, `ubigen_init_vid_hdr`, `ubigen_init_dummy_vid_hdr` |
| `VolumeTable` | vtbl.dfy | `ubigen_create_empty_vtbl`, `ubigen_add_volume` |
| `Layout` | layout.dfy | `ubigen_layout_vid_and_data` |
| `Writers` | writers.dfy | `ubigen_write_volume`, `ubigen_write_layout_vol` |

Three parts of the source are imperative. A method models each one, with loops and
arrays:

- the loops of the table builder and of the layout code;
- the streaming loop of the volume writer;
- the seek/write sequence of the layout-volume writer.

Each method is proved against a specification function on byte strings or
sequences: `Layout.LayoutImage`, `VolumeTable.AddVolumeSpec`, `Writers.RunBlocks`,
`Writers.LayoutBlock`. The properties are lemmas about these functions.

Some behaviour of the code is modelled as written, although it may look surprising:

- `ubigen_add_volume` stores `slc_ratio` into slot 0 of the table, not into the
  volume's own slot, and does not re-stamp slot 0's CRC (`VolumeTable.MlcSafeSlotZeroStale`).
- A failed PEB count leaves the slot zeroed, with its CRC zeroed too.
- Line 138 computes a value that line 143 overwrites before it is used.
- The SLC scatter loop starts at the pair whose number is `data_offs` counted in
  I/O units. That is a page count which the code uses as a pair index.
- MLC-safe mode copies the payload plainly, from `data_offs`.
- All replica headers go to one slot, the last I/O unit, so only the header of the
  last iteration survives (`Layout.MlcSafeSurvivor`).

## Model

| member | source | states |
|---|---|---|
| `Bytes.FromBEOfBE` | lib/libubigen.c:170-176 | decoding a big-endian field gives the stored value reduced to the field's width |
| `Bytes.BEOfFromBE` | lib/libubigen.c:170-176 | encoding the decoded value of a field gives back the same bytes |
| `Bytes.BE32Value` | lib/libubigen.c:175-176 | be32_to_cpu of a cpu_to_be32 field is the 32-bit value itself |
| `Bytes.SpliceTwice` | lib/libubigen.c:286-291 | a second copy of the same size to the same place hides the first |
| `Bytes.Memset` | lib/libubigen.c:237-238 | after memset, the array holds v in [off, off + n) and its old bytes elsewhere |
| `Bytes.Memcpy` | lib/libubigen.c:274 | after memcpy, the array holds d at [off, off + &#124;d&#124;) and its old bytes elsewhere |
| `Geometry.RoundUp` | lib/libubigen.c:47-49 | the divide-and-multiply rounding gives a multiple of m that is at least x and less than x + m |
| `Geometry.InfoInit` | lib/libubigen.c:41-79 | the PEB size, I/O size, UBI version, image sequence and pairing scheme are stored unchanged |
| `Geometry.InfoInitOffsets` | lib/libubigen.c:46-58 | a zero VID offset becomes the least multiple of the sub-page size holding an EC header, a given one is kept; data starts at the least multiple of the I/O size past the VID header; the LEB is the rest of the PEB and is non-empty |
| `Geometry.InfoInitTable` | lib/libubigen.c:62-65 | the table holds as many 172-byte records as fit in a LEB, capped at 128, and fits in the LEB |
| `Geometry.InfoInitSlc` | lib/libubigen.c:71-78 | with a pairing scheme, an SLC LEB is one group's share of the PEB less the headers and a PEB holds ngroups LEBs; without, one plain LEB |
| `Geometry.InfoInitValid` | lib/libubigen.c:41-79 | every descriptor ubigen_info_init builds satisfies the invariant the rest of the library relies on |
| `Geometry.TableFits` | lib/libubigen.c:62-64 | the capped record count fits in the LEB and is maximal: either 128, or one more record would not fit |
| `Geometry.NandScenario` | lib/libubigen.c:41-79 | a 128 KiB PEB with 2 KiB pages gives VID header at 2048, data at 4096, LEB 126976, 128 volumes, a 22016-byte table |
| `Media.CrcValidIffStamped` | lib/libubigen.c:175-176 | a structure passes the mounter's CRC check exactly when its CRC field is the stamp of the bytes before it |
| `Media.TableImageAt` | lib/libubigen.c:398 | record k of the table occupies bytes [172k, 172(k + 1)) of its image |
| `Media.Restamp` | lib/libubigen.c:156-157 | re-stamping a record keeps its body and makes it pass the CRC check |
| `Media.RecordValidIff` | lib/libubigen.c:156-157 | a record validates if and only if its CRC is the stamp of its body |
| `Pairing.WunitInfoWunit` | include/libmtd.h:96-106 | every page of the eraseblock has pairing info, and get_wunit of that info leads back to the page |
| `Pairing.InfoWunitInfo` | include/libmtd.h:457-467 | a non-negative get_wunit answer is a page of the eraseblock whose info is the argument |
| `Pairing.WunitErrorIffNoPage` | include/libmtd.h:102-106 | get_wunit fails if and only if no page of the eraseblock carries the pairing info |
| `Pairing.GroupInRange` | include/libmtd.h:66-68 | a page's group is a bit position of the cell, below mtd_pairing_groups |
| `Pairing.WunitInjective` | include/libmtd.h:62-64 | distinct pairing infos that name pages name distinct pages |
| `Pairing.SlcEmulationPages` | include/libmtd.h:469-479 | the SLC emulation loop visits, for every pair below npairs, a page of the eraseblock in group 0, a different page for each pair |
| `Pairing.Group0PagesCount` | include/libmtd.h:469-479 | pairs lo up to hi give exactly hi - lo distinct group-0 pages of the eraseblock |
| `Pairing.Group0PagesCard` | include/libmtd.h:473-479 | pairwise distinct pages of a pair range number as many as the pairs |
| `Pairing.InterleavedValid` | include/libmtd.h:91-132 | a two-group scheme that pairs page 2p with page 2p + 1 meets the documented contract, so the contract is satisfiable |
| `VolumeTable.EmptyRecord` | lib/libubigen.c:86-95 | an unused slot is all zero, with the CRC of 168 zero bytes, and passes the CRC check |
| `VolumeTable.CreateEmptyVtbl` | lib/libubigen.c:81-99 | the new table has max_volumes slots, each the empty record |
| `VolumeTable.EmptyTableSlots` | lib/libubigen.c:92-96 | every slot of a fresh table validates, all slots are equal, and each CRC is that of the slot's first 168 bytes |
| `VolumeTable.EffLebSize` | lib/libubigen.c:124-127 | the LEB size the data is cut into; on a device without a pairing scheme it is the plain LEB size in every mode |
| `VolumeTable.NLebs` | lib/libubigen.c:124-129 | the LEB count is the ceiling of bytes over the mode's LEB size (the SLC one for SLC and MLC-safe volumes) |
| `VolumeTable.AddVolumeSpec` | lib/libubigen.c:101-159 | a failed id or alignment check returns -1 with the table untouched (any alignment below the LEB size passes, 0 and negative ones included); a negative PEB count returns -1 with the slot zeroed; otherwise 0, with the slot holding the volume's fields and passing the CRC check; no other slot changes except slot 0's slc_ratio in MLC-safe mode |
| `VolumeTable.FilledRecord` | lib/libubigen.c:139-154 | the filled record, before its CRC (still zero), carries the PEB count, alignment, data padding, type, mode, flags, the name NUL-padded to the field's end, its length, and the LEB count only in MLC-safe mode |
| `VolumeTable.FilledRecordHolds` | lib/libubigen.c:147-150 | in MLC-safe mode the record still carries all those fields once slc_ratio is stored into it (the case of volume 0) |
| `VolumeTable.AddVolume` | lib/libubigen.c:101-159 | the in-place update returns the result and leaves the table that AddVolumeSpec describes |
| `VolumeTable.MlcSafeSlotZeroStale` | lib/libubigen.c:147-157 | after an MLC-safe add of a volume other than 0, slot 0 still validates only if the CRC of its changed body equals that of its old body |
| `VolumeTable.ZeroedSlotValidIff` | lib/libubigen.c:123-136 | a slot zeroed by a failed add validates only if the CRC-32 of 168 zero bytes is 0 |
| `VolumeTable.AddVolumeKeepsOtherSlots` | lib/libubigen.c:105-157 | every other slot but slot 0 validates after an add exactly when it did before |
| `VolumeTable.NandScenarioZeroAlignment` | lib/libubigen.c:129-144 | an alignment of 0 with a refused PEB count is a defined failure: -1, with the slot zeroed, before the padding is taken modulo the alignment |
| `VolumeTable.NandScenarioAddVolume` | lib/libubigen.c:101-159 | a 100 KiB dynamic volume on the 128 KiB geometry needs one LEB and gets the PEB count it is given; id 128 is refused with the table unchanged |
| `Headers.SealEc` | lib/libubigen.c:175-176 | a sealed EC header keeps its body and passes the CRC check |
| `Headers.SealVid` | lib/libubigen.c:206-207 | a sealed VID header keeps its body and passes the CRC check |
| `Headers.InitEcHdr` | lib/libubigen.c:161-177 | the EC header carries the magic, version, erase counter, both offsets and the image sequence, each at its field width, and passes the CRC check |
| `Headers.InitVidHdr` | lib/libubigen.c:179-208 | the VID header carries magic, version, type, mode, id, LEB number, padding and compat; lpos only in MLC-safe mode; size, used blocks and data CRC only for static volumes, else zero; copy flag and sequence number zero; passes the CRC check |
| `Headers.InitDummyVidHdr` | lib/libubigen.c:210-226 | the dummy header has magic, version, type, mode and the "consolidated" position, every other field zero, and passes the CRC check |
| `Headers.DummyDistinguishable` | lib/libubigen.c:194-222 | outside MLC-safe mode no real VID header equals the dummy one |
| `Headers.StaticDataCrcRoundTrip` | lib/libubigen.c:199-204 | for a static volume, the stored data size and data CRC are the size and CRC a reader computes over the bytes it reads back |
| `Layout.Group0Units` | lib/libubigen.c:255-272 | the pages the scatter visits are the group-0 pages of the pairs from the start pair on, in order |
| `Layout.Group0UnitsOk` | lib/libubigen.c:252-272 | those pages are distinct pages of the eraseblock, each in group 0 of its own pair |
| `Layout.Place` | lib/libubigen.c:259-272 | the scatter over the pages u keeps the buffer's length; which bytes it writes is stated by PlaceFrame, PlaceHead and PlacePlaced |
| `Layout.Scatter` | lib/libubigen.c:252-272 | the SLC-emulation scatter from the start pair keeps the buffer's length; its bytes are stated by SlcPlacesPayload, SlcLeavesOtherGroupsErased and SlcDropsExcess |
| `Layout.PlaceFrame` | lib/libubigen.c:259-272 | the scatter writes no byte outside the pages it visits |
| `Layout.PlaceStep` | lib/libubigen.c:260-271 | one iteration puts up to one I/O unit of payload into the first page and continues with the rest |
| `Layout.PlaceAdvance` | lib/libubigen.c:260-271 | the same, stated for the loop variables of the k-th iteration |
| `Layout.PlaceHead` | lib/libubigen.c:264-269 | byte j of the first piece lands at byte j of the first page |
| `Layout.PlacePlaced` | lib/libubigen.c:259-272 | byte j of the k-th I/O unit of payload lands at byte j of the k-th visited page |
| `Layout.PlaceUsesPrefix` | lib/libubigen.c:259-272 | payload beyond one I/O unit per visited page never reaches the buffer |
| `Layout.CapacityIsSlcLeb` | lib/libubigen.c:252-257 | when the PEB is a whole number of cells, the pairs from the start pair on hold exactly one SLC-mode LEB |
| `Layout.ReplicaCountIsCeiling` | lib/libubigen.c:284 | the replica count is the fewest SLC-mode LEBs that hold the payload |
| `Layout.LayoutHdr` | lib/libubigen.c:241-244 | the header a PEB gets at vid_hdr_offs passes the CRC check; in MLC-safe mode it says the LEBs are consolidated, else it names its LEB with replica position 0 |
| `Layout.ReplicasLast` | lib/libubigen.c:286-291 | of all headers copied to the one slot only the last one is left |
| `Layout.ErasedStage` | lib/libubigen.c:237-246 | below vid_hdr_offs the buffer is unchanged, then the header, zeros up to data_offs, erased bytes to the end |
| `Layout.ZeroedStage` | lib/libubigen.c:280-281 | in MLC-safe mode everything from the end of the SLC region on is zero, the rest as the payload step left it |
| `Layout.PayloadKeepsHeaderRegion` | lib/libubigen.c:248-275 | the payload step leaves every byte below data_offs as it was, when no visited page lies below data_offs |
| `Layout.PayloadCopied` | lib/libubigen.c:274 | without scattering, the data region holds the payload at data_offs and erased bytes after it |
| `Layout.PayloadSkipsOtherGroups` | lib/libubigen.c:259-272 | with scattering, a data-region byte of a page outside group 0 stays erased |
| `Layout.MlcSafeImage` | lib/libubigen.c:277-291 | in MLC-safe mode the image is the zeroed stage with the last replica header in the last I/O unit |
| `Layout.MlcSafeSurvivor` | lib/libubigen.c:284-291 | the surviving replica header is the "invalid position" one when the payload needs fewer LEBs than a PEB holds, else the real one of the last LEB |
| `Layout.LastReplicaIs` | lib/libubigen.c:284-291 | the last header the two loops copy is the "invalid position" one when the payload needs fewer LEBs than a PEB holds, else the real one of position count - 1 |
| `Layout.MlcSafeFullBlock` | lib/libubigen.c:284-288 | a payload that fits the SLC region and fills the PEB's LEBs leaves the header of replica position max_lebs_per_peb - 1 |
| `Layout.LayoutHeaderRegion` | lib/libubigen.c:237-246 | below data_offs the image holds the caller's bytes up to vid_hdr_offs, then the VID header, then zeros |
| `Layout.LayoutReadsOnlyPrefix` | lib/libubigen.c:237-292 | the image depends on the buffer it is composed in only through the bytes below vid_hdr_offs |
| `Layout.LayoutKeepsPrefix` | lib/libubigen.c:237-292 | the composition leaves the bytes below vid_hdr_offs (the EC header) as they were |
| `Layout.LayoutPlain` | lib/libubigen.c:273-275 | plain mode: the payload lies at [data_offs, data_offs + len) and the rest of the data region is erased |
| `Layout.SlcLeavesOtherGroupsErased` | lib/libubigen.c:248-272 | SLC emulation leaves every data-region byte of a page outside group 0 erased |
| `Layout.SlcPlacesPayload` | lib/libubigen.c:255-272 | SLC emulation puts byte j of the k-th I/O unit of payload at byte j of the group-0 page of pair start + k |
| `Layout.SlcDropsExcess` | lib/libubigen.c:259-272 | payload beyond one I/O unit per visited pair is dropped: the image is that of the payload cut to this capacity |
| `Layout.MlcSafeDataRegion` | lib/libubigen.c:274-281 | MLC-safe mode, outside the replica slot: payload from data_offs, erased bytes after it, zeros from the end of the SLC region |
| `Layout.LayoutImage` | lib/libubigen.c:228-292 | the composed PEB image has the buffer's length; its bytes are stated by LayoutHeaderRegion, LayoutPlain, the Slc lemmas, MlcSafeDataRegion and MlcSafeSurvivor |
| `Layout.LayoutVidAndData` | lib/libubigen.c:228-292 | the caller's buffer ends up holding the image LayoutImage describes for what it held before |
| `Layout.HeaderRegion` | lib/libubigen.c:237-246 | the buffer ends up as the erased stage for the header of this call |
| `Layout.StampHeader` | lib/libubigen.c:241-244 | the header is the dummy one in MLC-safe mode, else the real one for the LEB with position 0 |
| `Layout.CopyPayload` | lib/libubigen.c:248-275 | the buffer ends up as the payload stage: scattered in SLC mode with pairing, else copied at data_offs |
| `Layout.ScatterLoop` | lib/libubigen.c:249-272 | the loop over pairs leaves the payload spread over the visited group-0 pages, one I/O unit each |
| `Layout.ReplicaLoops` | lib/libubigen.c:282-291 | the two loops leave the buffer with every replica header copied in turn to the last I/O unit |
| `Layout.ReplicasStep` | lib/libubigen.c:286-291 | iteration i copies the real header of position i below the LEB count, else the "invalid position" one |
| `Writers.InFile.Read` | lib/libubigen.c:340 | read hands out what is left of the file, up to the bytes asked for, and advances the offset by as many |
| `Writers.OutFile.Seek` | lib/libubigen.c:403 | lseek refuses a negative offset, may refuse any other, and on success moves the offset there; nothing is written |
| `Writers.OutFile.Write` | lib/libubigen.c:351 | write takes a prefix of the bytes (possibly none, or -1 for an error), records it at the current offset and advances past it |
| `Writers.WrittenAt` | lib/libubigen.c:331-357 | block j of a run written from p lies at p + j·step |
| `Writers.WrittenOutside` | lib/libubigen.c:331-357 | what the file held outside the run is kept |
| `Writers.Chunks` | lib/libubigen.c:331-336 | the payload is cut into pieces of 1 to len bytes |
| `Writers.ChunksFlatten` | lib/libubigen.c:331-336 | the pieces put back together are the payload |
| `Writers.ChunksCount` | lib/libubigen.c:331-336 | there are ceil(bytes / len) pieces, one PEB each |
| `Writers.ChunksFull` | lib/libubigen.c:334-335 | every piece but the last carries exactly len bytes |
| `Writers.ChunksLast` | lib/libubigen.c:334-335 | the last piece carries bytes mod len bytes, or len when len divides bytes |
| `Writers.ChunksSnoc` | lib/libubigen.c:334-336 | reading one more piece after k full ones appends that piece |
| `Writers.BlocksSnoc` | lib/libubigen.c:349-356 | one more piece appends its block, for LEB k·max_lebs_per_peb |
| `Writers.ChunkInSlcRegion` | lib/libubigen.c:328-329 | the per-PEB payload is one LEB's usable size, or in MLC-safe mode max_lebs_per_peb of them, which ends inside the SLC region when the usable size is at most an SLC LEB |
| `Writers.EcFrame` | lib/libubigen.c:325-326 | the buffer prepared once for all blocks is one PEB long; VolumeBlockEcHeader states its bytes |
| `Writers.VolumeBlock` | lib/libubigen.c:349 | the block of LEB lnum is one PEB long; VolumeBlockEcHeader and VolumeBlockVidHeader state its headers |
| `Writers.VolumeRunIs` | lib/libubigen.c:331-357 | the writer's run exists: it makes exactly the blocks VolumeBlock describes |
| `Writers.VolumeBlockEcHeader` | lib/libubigen.c:325-326 | every block starts with the EC header for ec, erased up to vid_hdr_offs |
| `Writers.VolumeBlockVidHeader` | lib/libubigen.c:349 | outside MLC-safe mode, a block's VID header names its LEB number and, for a static volume, the size and CRC of its payload piece |
| `Writers.ReadChunk` | lib/libubigen.c:338-347 | the read succeeds exactly when the input still holds len bytes, and then the buffer holds the next len bytes of the file |
| `Writers.EmitBlock` | lib/libubigen.c:331-356 | a successful iteration reads the piece, writes its PEB at the file offset and advances both files; a failure leaves at most a short part of the block in the file, and nothing at all when the input ran short |
| `Writers.PayloadStep` | lib/libubigen.c:331-356 | writing the next piece adds its block at the next PEB offset |
| `Writers.ProgressStep` | lib/libubigen.c:331-356 | an iteration carries the file from k written blocks to k + 1 |
| `Writers.ProgressFail` | lib/libubigen.c:351-353 | a short write after k blocks leaves those blocks and the part of the next one it got out |
| `Writers.ProgressFile` | lib/libubigen.c:357-361 | after the loop the file holds the run's blocks and its offset is just past them |
| `Writers.NextBlock` | lib/libubigen.c:331-356 | one iteration: on success one more block is in the file and lnum advances by max_lebs_per_peb; on failure the file holds the earlier blocks and a short tail, empty when the input ran short |
| `Writers.WritePayload` | lib/libubigen.c:331-357 | all bytes are read and the file holds one PEB per piece, for LEBs 0, max_lebs_per_peb, ...; on failure it holds the blocks of the whole pieces read so far and a short tail, empty when the input ran out before the next piece |
| `Writers.FailureAfterPieces` | lib/libubigen.c:334-347 | a failure on piece k comes after k whole pieces, and a short read of that piece writes nothing of its block |
| `Writers.WriteVolume` | lib/libubigen.c:294-368 | the result is 0 or -1; a failed id or alignment check writes nothing; a payload the input does not hold fails; otherwise the file holds the run's blocks; a failure comes after whole pieces, with a short tail of the next block only when a write was short, never when a read was |
| `Writers.PrepareVolumeBuffer` | lib/libubigen.c:319-326 | the output buffer is erased below data_offs, with the EC header for ec at its start |
| `Writers.WriteChecked` | lib/libubigen.c:315-366 | past the checks, the same outcome as WriteVolume, failures included, with the per-PEB payload len times max_lebs_per_peb in MLC-safe mode |
| `Writers.RunLayout` | lib/libubigen.c:331-357 | block k of a run lies k steps past the start and is the block of piece k |
| `Writers.WriteVolumeLayout` | lib/libubigen.c:331-357 | block k of the output lies k PEBs past the start and carries piece k of the payload for LEB k·max_lebs_per_peb |
| `Writers.LayoutVolInfo` | lib/libubigen.c:380-389 | the layout volume's descriptor: usable size the whole LEB with no padding, its id, a dynamic type, the reject compat, alignment 1, two LEBs of bytes; mode and used_ebs are left as they were |
| `Writers.LayoutBlock` | lib/libubigen.c:391-422 | a copy of the layout volume is one PEB long; LayoutBlockBytes states every byte |
| `Writers.LayoutBlockBytes` | lib/libubigen.c:396-422 | every byte of a copy: EC header, erased bytes, VID header, erased bytes, the table at data_offs, erased bytes to the end |
| `Writers.LayoutCopiesAgree` | lib/libubigen.c:408-422 | the two copies differ only inside the EC header and the VID header |
| `Writers.Restamp` | lib/libubigen.c:421-422 | stamping both headers over an earlier copy gives the copy for the new values |
| `Writers.PrepareLayoutBuffer` | lib/libubigen.c:391-400 | the prepared buffer is erased, with the table at data_offs |
| `Writers.StampLayoutHeaders` | lib/libubigen.c:408-422 | after stamping, the buffer is the copy for this erase counter and LEB number |
| `Writers.EmitTouchesOnly` | lib/libubigen.c:402-427 | a write at offset a and one at offset b touch the file nowhere else |
| `Writers.EmitLayoutCopy` | lib/libubigen.c:402-414 | on success the copy is in the file at the seek offset and the offset is past it; a negative offset fails with nothing written |
| `Writers.WriteLayoutVol` | lib/libubigen.c:370-435 | the result is 0 or -1; on 0 the file holds copy 0 (LEB 0, ec1) at PEB peb1 and copy 1 (LEB 1, ec2) at PEB peb2; a negative peb1 fails with nothing written; no other offset is ever touched |

## Left out

- Memory allocation (`malloc`/`calloc`) never fails in the model. The source's failure paths return NULL or -1 and write nothing.
- Error messages and `errno` are not modelled; only the returned values are.
- The byte layout of the C structures, and the CRC-32 routine, are left to a `Codec` value. The model fixes only the structure sizes and the big-endian CRC field. `mtd/ubi-media.h` and the CRC-32 code are not part of this model.
- Media: the numeric values of the volume modes (normal, SLC, MLC-safe) and of the two replica-position sentinels are placeholders. The header that defines them is not part of this model, and only their distinctness matters here. One exception: `Headers.DummyDistinguishable` also needs the "consolidated" position to be non-zero modulo 256, because a real header outside MLC-safe mode stores position 0 in that byte.
- `ubi_lebs_to_pebs` is code not part of this model. It is a function parameter of `AddVolume`.
- The page-pairing scheme's two conversion functions are driver code. They are function values whose documented contract is the assumption `ValidScheme`.
- `Writers.InFile.Read`: a read takes as much as the file has left, up to the count. A transient short read that a later call would complete does not happen. The source treats any short read as fatal, so the model has the same outcome for each short read it can express.
- `Writers.OutFile.Seek` and `Writers.OutFile.Write`: whether the file accepts a seek, and how many bytes a write takes, are nondeterministic choices. The model does not represent the file as a flat byte string: it records what each write put where. Overlapping extents are not merged.
- `Writers.WriteVolume` takes a ghost `run` that pins the blocks the file receives. Its precondition `IsVolumeRun` says that the run makes exactly the blocks `VolumeBlock` describes, and `VolumeRunIs` shows that such a run exists.
- `Writers.WriteVolume` requires `bytes >= 0`. The source does not check the sign of its `long long` count. A negative count makes the first read fail: a count of -5 asks read for (size_t)-5 bytes, and that read fails at lines 341-343, so the function returns -1. Or it makes memcpy take a negative length: with a count of -1, read returns -1, which equals the length asked for, and line 349 copies a length of -1.
- `Writers.WriteVolume` requires that no scattered page lies below `data_offs`, and in MLC-safe mode that the replica slot lies at or above it. The source does not check these. Without them, one block's layout can overwrite the EC header kept in the buffer for the next block.
- `Writers.WriteVolume` requires a per-PEB payload that fits the PEB buffer and the composition (`VolumeFits`). The source does not check this, and writes past its buffers otherwise.
- `Writers.WriteVolume` requires a positive per-PEB payload (`0 < ChunkLen` in `VolumeFits`). The source does not check it, and does not terminate without it. With a `usable_leb_size` of 0 (or, in MLC-safe mode, a product of 0) and a positive count, line 336 subtracts 0 on each iteration. A read of 0 bytes returns 0, so each iteration also writes a PEB. The loop goes on until a write fails. The model does not capture that non-terminating run.
- `Layout.LayoutVidAndData` requires that the payload, the data region and the replica slot stay inside the PEB buffer (`LayoutPre`). The source writes out of bounds otherwise.
- `Geometry.InfoInit` requires a positive I/O size and, when the VID offset is derived, a positive sub-page size. It also requires that a given VID offset lies past the EC header, that the data offset lies inside the PEB, and that a pairing scheme has at least one group. The source divides by these or produces a descriptor the rest of the library cannot use, and does not check them.
- `VolumeTable.AddVolumeSpec` requires, once the checks pass, a positive LEB size for the mode and a non-negative byte count. Line 129 divides by the LEB size, and the model does not take a count of negative bytes. It also requires a non-zero alignment and a name that fits the record, but only once the PEB count is known not to be negative. Line 143 takes the padding modulo the alignment, and lines 152-153 copy the name. Before that point an alignment of 0 is a defined failure (`NandScenarioZeroAlignment`). A negative alignment is accepted: with a positive LEB size the padding is the same under C's truncating `%` as under the Euclidean `%` used here. It also requires a non-negative id, which the source's signed comparison lets through to an out-of-bounds slot.
- `VolumeTable.NLebs`: the intermediate value in the source is computed in 64 bits and stored in an `int`. Integers here are unbounded, so truncation of very large volumes is not modelled. The fields the value is stored into are reduced to 32 bits (`U32`).
- `Writers.WriteChecked`: the per-PEB payload length `usable_leb_size * max_lebs_per_peb` is an `int` in the source. Its 32-bit overflow is not modelled.
- `Writers.LayoutVolInfo`: the fields the source leaves uninitialised (mode, used_ebs, flags, slc_ratio) are taken from a parameter standing for the stack contents.
- The libmtd device API (opening devices, reading sysfs, erase and write calls) is not used by the generator's core and is not modelled.
