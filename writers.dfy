/**
 * The two stream writers of the image generator: ubigen_write_volume, which
 * streams a volume's payload into whole PEBs, and ubigen_write_layout_vol,
 * which writes the two copies of the layout volume (the volume table) at given
 * PEB positions. The files they use are objects whose state the system calls
 * change: an input file read front to back, and an output file that records
 * the bytes of each write at the file offset the write started at.
 */
module Writers {
  import opened Bytes
  import opened Media
  import opened Geometry
  import opened Headers
  import opened Layout
  import opened VolumeTable

  // ---------------------------------------------------------------------------
  // Files

  /** An input file open for reading: its bytes and the file offset. */
  class InFile {
    const data: seq<byte>
    var pos: int

    ghost predicate Valid()
      reads this
    {
      0 <= pos <= |data|
    }

    constructor (data: seq<byte>)
      ensures this.data == data && pos == 0 && Valid()
    {
      this.data := data;
      pos := 0;
    }

    /** read(2) of l bytes into buf + off: a file hands out what is left of it, up to l. */
    method Read(buf: array<byte>, off: int, l: int) returns (rd: int)
      requires Valid() && 0 <= off && 0 <= l && off + l <= buf.Length
      modifies this, buf
      ensures Valid()
      ensures rd == Min(l, |data| - old(pos)) && pos == old(pos) + rd
      ensures buf[..] == Splice(old(buf[..]), off, data[old(pos)..pos])
    {
      rd := Min(l, |data| - pos);
      Memcpy(buf, off, data[pos..pos + rd]);
      pos := pos + rd;
    }
  }

  /** The written extents after a write that got d onto the file at offset p. */
  function Emit(e: map<int, seq<byte>>, p: int, d: seq<byte>): map<int, seq<byte>>
  {
    if d == [] then e else e[p := d]
  }

  /** An output file open for writing: the bytes of every write, by the file
      offset the write started at, and the file offset. */
  class OutFile {
    var extents: map<int, seq<byte>>
    var pos: int

    constructor ()
      ensures extents == map[] && pos == 0
    {
      extents := map[];
      pos := 0;
    }

    /** lseek(fd, offset, SEEK_SET): a negative offset is refused; any other one may
        still be refused (the file is a pipe), which the model leaves to the file. */
    method Seek(offset: int) returns (ret: int)
      modifies this
      ensures extents == old(extents)
      ensures ret == -1 || (ret == offset >= 0)
      ensures ret == offset >= 0 ==> pos == offset
      ensures ret == -1 ==> pos == old(pos)
    {
      var ok: bool :| true;
      if offset < 0 || !ok {
        ret := -1;
      } else {
        pos := offset;
        ret := offset;
      }
    }

    /** write(2): the file takes some prefix of the bytes (all of them, a part when
        the medium fills up, or none with -1 for an error); how much is up to the file. */
    method Write(d: seq<byte>) returns (ret: int)
      modifies this
      ensures -1 <= ret <= |d|
      ensures extents == Emit(old(extents), old(pos), d[..Max(ret, 0)])
      ensures pos == old(pos) + Max(ret, 0)
    {
      ret :| -1 <= ret <= |d|;
      if ret > 0 {
        extents := extents[pos := d[..ret]];
        pos := pos + ret;
      }
    }
  }

  /** The extents after blocks bs were written one after another from offset p, each
      step bytes past the one before. */
  function Written(e: map<int, seq<byte>>, p: int, step: int, bs: seq<seq<byte>>): map<int, seq<byte>>
    decreases |bs|
  {
    if bs == [] then e
    else Written(e, p, step, bs[..|bs| - 1])[p + Times(|bs| - 1, step) := bs[|bs| - 1]]
  }

  /** Block j of a run lands at its own offset, and what lay outside the run stays. */
  lemma {:induction false} WrittenAt(e: map<int, seq<byte>>, p: int, step: int, bs: seq<seq<byte>>,
                                     j: int)
    requires step > 0 && 0 <= j < |bs|
    ensures p + j * step in Written(e, p, step, bs)
    ensures Written(e, p, step, bs)[p + j * step] == bs[j]
    decreases |bs|
  {
    var n := |bs| - 1;
    TimesIsMul(n, step);
    if j < n {
      WrittenAt(e, p, step, bs[..n], j);
      MulLe(j + 1, n, step);
      assert (j + 1) * step == j * step + step;
    }
  }

  lemma {:induction false} WrittenOutside(e: map<int, seq<byte>>, p: int, step: int,
                                          bs: seq<seq<byte>>, o: int)
    requires step > 0 && o in e && (o < p || o >= p + |bs| * step)
    ensures o in Written(e, p, step, bs) && Written(e, p, step, bs)[o] == e[o]
    decreases |bs|
  {
    if bs != [] {
      var n := |bs| - 1;
      TimesIsMul(n, step);
      assert |bs| * step == n * step + step;
      WrittenOutside(e, p, step, bs[..n], o);
    }
  }

  // ---------------------------------------------------------------------------
  // ubigen_write_volume

  /** Line 328-329: the payload bytes one PEB carries: a LEB's usable size, times the
      LEBs per PEB in MLC-safe mode. */
  function ChunkLen(ui: UbigenInfo, vi: VolInfo): int
  {
    if vi.mode == VID_MODE_MLC_SAFE then vi.usableLebSize * ui.maxLebsPerPeb else vi.usableLebSize
  }

  /** In MLC-safe mode a chunk of LEBs no larger than SLC LEBs ends within the SLC
      region, below the tail the composition zeroes; otherwise it is one LEB's usable size. */
  lemma {:induction false} ChunkInSlcRegion(ui: UbigenInfo, vi: VolInfo)
    requires Geometry.Valid(ui) && 0 <= vi.usableLebSize
    ensures vi.mode != VID_MODE_MLC_SAFE ==> ChunkLen(ui, vi) == vi.usableLebSize
    ensures vi.mode == VID_MODE_MLC_SAFE && vi.usableLebSize <= ui.slcLebSize ==>
      0 <= ChunkLen(ui, vi) && ui.dataOffs + ChunkLen(ui, vi) <= SlcEnd(ui)
  {
    if vi.mode == VID_MODE_MLC_SAFE && vi.usableLebSize <= ui.slcLebSize {
      assert ui.maxLebsPerPeb >= 0 by {
        if ui.pairing.Some? { assert ui.maxLebsPerPeb == ui.pairing.value.ngroups; }
      }
      Bytes.MulLe(vi.usableLebSize, ui.slcLebSize, ui.maxLebsPerPeb);
      Bytes.MulLe(0, vi.usableLebSize, ui.maxLebsPerPeb);
    }
  }

  /** What the writer needs of its caller once the argument checks pass: a descriptor
      from InfoInit, a chunk that fits the PEB-sized input buffer and the composition,
      no scattered page below data_offs and the MLC-safe replica slot above it. */
  ghost predicate VolumeFits(c: Codec, ui: UbigenInfo, vi: VolInfo)
  {
    && ValidCodec(c) && Geometry.Valid(ui)
    && 0 < ChunkLen(ui, vi) <= ui.pebSize
    && StagePre(ui, vi, ChunkLen(ui, vi), ui.pebSize)
    && (Scattered(ui, vi) ==> ScatterAboveData(ui))
    && (vi.mode == VID_MODE_MLC_SAFE ==> ui.dataOffs <= ReplicaSlot(ui))
  }

  ghost predicate WriteVolumePre(c: Codec, ui: UbigenInfo, vi: VolInfo, bytes: int)
  {
    bytes >= 0 && (PassesChecks(ui, vi) ==> VolumeFits(c, ui, vi))
  }

  /** Lines 325-326: the output buffer as the writer prepares it once: erased below
      data_offs, with the EC header at the start. */
  function EcFrame(c: Codec, ui: UbigenInfo, ec: int): (b: seq<byte>)
    requires ValidCodec(c) && Geometry.Valid(ui)
    ensures |b| == ui.pebSize
  {
    Splice(Fill(Zeros(ui.pebSize), 0, ui.dataOffs, 0xFF), 0, EcImage(c, InitEcHdr(c, ui, ec)))
  }

  /** The PEB the writer emits for LEB lnum carrying the payload piece d. */
  function VolumeBlock(c: Codec, ui: UbigenInfo, vi: VolInfo, ec: int, lnum: int,
                       d: seq<byte>): (b: seq<byte>)
    requires VolumeFits(c, ui, vi) && |d| <= ChunkLen(ui, vi)
    ensures |b| == ui.pebSize
  {
    LayoutImage(c, ui, vi, lnum, d, |d|, EcFrame(c, ui, ec))
  }

  /** The pieces a payload is cut into: len bytes at a time, the last one shorter. */
  function Chunks(p: seq<byte>, len: int): (cs: seq<seq<byte>>)
    requires len > 0
    ensures forall k | 0 <= k < |cs| :: 0 < |cs[k]| <= len
    decreases |p|
  {
    if p == [] then [] else [p[..Min(len, |p|)]] + Chunks(p[Min(len, |p|)..], len)
  }

  function Flatten(cs: seq<seq<byte>>): seq<byte>
  {
    if cs == [] then [] else cs[0] + Flatten(cs[1..])
  }

  /** Round trip: the pieces put back together are the payload. */
  lemma {:induction false} ChunksFlatten(p: seq<byte>, len: int)
    requires len > 0
    ensures Flatten(Chunks(p, len)) == p
    decreases |p|
  {
    if p != [] {
      var n := Min(len, |p|);
      ChunksFlatten(p[n..], len);
      assert Chunks(p, len)[1..] == Chunks(p[n..], len);
      assert p[..n] + p[n..] == p;
    }
  }

  /** One more len in the dividend: one more in the quotient, the same remainder. */
  lemma {:induction false} DivStep(n: int, len: int)
    requires n >= 0 && len > 0
    ensures (n + len) / len == n / len + 1 && (n + len) % len == n % len
  {
    assert n == n / len * len + n % len;
    assert (n / len + 1) * len == n / len * len + len;
    DivModUnique(n + len, len, n / len + 1, n % len);
  }

  /** There are ceil(|p| / len) pieces. */
  lemma {:induction false} ChunksCount(p: seq<byte>, len: int)
    requires len > 0
    ensures |Chunks(p, len)| == (|p| + len - 1) / len
    decreases |p|
  {
    if p == [] {
      DivModUnique(len - 1, len, 0, len - 1);
    } else if |p| <= len {
      assert p[|p|..] == [];
      DivModUnique(|p| + len - 1, len, 1, |p| - 1);
    } else {
      ChunksCount(p[len..], len);
      DivStep(|p| - 1, len);
    }
  }

  /** All pieces but the last have exactly len bytes. */
  lemma {:induction false} ChunksFull(p: seq<byte>, len: int, k: int)
    requires len > 0 && 0 <= k < |Chunks(p, len)| - 1
    ensures |Chunks(p, len)[k]| == len
    decreases |p|
  {
    var n := Min(len, |p|);
    if k > 0 {
      ChunksFull(p[n..], len, k - 1);
    }
  }

  /** The last piece carries |p| mod len bytes, or len when len divides |p|. */
  lemma {:induction false} ChunksLast(p: seq<byte>, len: int)
    requires len > 0 && p != []
    ensures |Chunks(p, len)[|Chunks(p, len)| - 1]| == if |p| % len == 0 then len else |p| % len
    decreases |p|
  {
    if |p| <= len {
      assert p[|p|..] == [];
      if |p| < len {
        DivModUnique(|p|, len, 0, |p|);
      } else {
        DivModUnique(|p|, len, 1, 0);
      }
    } else {
      var rest := Chunks(p[len..], len);
      ChunksLast(p[len..], len);
      DivStep(|p| - len, len);
      assert rest != [];
      assert Chunks(p, len)[|Chunks(p, len)| - 1] == rest[|rest| - 1];
    }
  }

  /** Appending a piece of at most len bytes to k full pieces appends that piece. */
  lemma {:induction false} ChunksSnoc(x: seq<byte>, d: seq<byte>, len: int, k: nat)
    requires len > 0 && |x| == k * len && 0 < |d| <= len
    ensures |Chunks(x, len)| == k
    ensures Chunks(x + d, len) == Chunks(x, len) + [d]
    decreases k
  {
    if k == 0 {
      assert x + d == d;
      assert d[..Min(len, |d|)] == d;
      assert d[Min(len, |d|)..] == [];
    } else {
      var x1 := x[len..];
      assert |x1| == (k - 1) * len;
      ChunksSnoc(x1, d, len, k - 1);
      assert (x + d)[..len] == x[..len];
      assert (x + d)[len..] == x1 + d;
    }
  }

  /** What makes the PEB image of a piece of payload for a LEB number. */
  type BlockMaker = (int, seq<byte>) -> seq<byte>

  /** The shape of a run of PEBs: how a block is made, the payload bytes per block,
      the step in LEB numbers and the step in file offsets from one block to the next. */
  datatype Run = Run(make: BlockMaker, piece: int, lstep: int, step: int)

  /** The blocks of the pieces cs, block n made for LEB n * lstep. */
  ghost function Blocks(f: BlockMaker, cs: seq<seq<byte>>, lstep: int): (bs: seq<seq<byte>>)
    ensures |bs| == |cs|
  {
    seq(|cs|, n requires 0 <= n < |cs| => f(n * lstep, cs[n]))
  }

  /** One more piece adds its block, for LEB |cs| * lstep, at the end. */
  lemma {:induction false} BlocksSnoc(f: BlockMaker, cs: seq<seq<byte>>, d: seq<byte>, lstep: int,
                                      k: nat)
    requires k == |cs|
    ensures Blocks(f, cs + [d], lstep) == Blocks(f, cs, lstep) + [f(Times(k, lstep), d)]
  {
    TimesIsMul(k, lstep);
    var l, m := Blocks(f, cs + [d], lstep), Blocks(f, cs, lstep) + [f(Times(k, lstep), d)];
    forall i | 0 <= i < |l| ensures l[i] == m[i] {
      if i < k {
        assert (cs + [d])[i] == cs[i];
      }
    }
  }

  /** The blocks of a run over payload p: one per piece, from LEB 0. */
  ghost function RunBlocks(r: Run, p: seq<byte>): seq<seq<byte>>
    requires r.piece > 0
  {
    Blocks(r.make, Chunks(p, r.piece), r.lstep)
  }

  /** The writer's blocks: VolumeBlock for every piece that fits. */
  ghost function VolumeMaker(c: Codec, ui: UbigenInfo, vi: VolInfo, ec: int): BlockMaker
  {
    (l: int, d: seq<byte>) =>
      if VolumeFits(c, ui, vi) && |d| <= ChunkLen(ui, vi) then VolumeBlock(c, ui, vi, ec, l, d) else []
  }

  /** The run of ubigen_write_volume: a piece per PEB, LEB numbers max_lebs_per_peb apart. */
  ghost function VolumeRun(c: Codec, ui: UbigenInfo, vi: VolInfo, ec: int): Run
  {
    Run(VolumeMaker(c, ui, vi, ec), ChunkLen(ui, vi), ui.maxLebsPerPeb, ui.pebSize)
  }

  /** r makes the writer's blocks: the block it makes for any piece that fits is the
      one VolumeBlock describes. */
  ghost predicate IsVolumeRun(r: Run, c: Codec, ui: UbigenInfo, vi: VolInfo, ec: int)
    requires VolumeFits(c, ui, vi)
  {
    && r.piece == ChunkLen(ui, vi) && r.lstep == ui.maxLebsPerPeb && r.step == ui.pebSize
    && forall l, d {:trigger VolumeBlock(c, ui, vi, ec, l, d)} | |d| <= ChunkLen(ui, vi) ::
         r.make(l, d) == VolumeBlock(c, ui, vi, ec, l, d)
  }

  lemma {:induction false} VolumeRunIs(c: Codec, ui: UbigenInfo, vi: VolInfo, ec: int)
    requires VolumeFits(c, ui, vi)
    ensures IsVolumeRun(VolumeRun(c, ui, vi, ec), c, ui, vi, ec)
  {
  }

  /** Every block starts with the EC header for ec, erased up to vid_hdr_offs. */
  lemma {:induction false} VolumeBlockEcHeader(c: Codec, ui: UbigenInfo, vi: VolInfo, ec: int, lnum: int,
                                               d: seq<byte>, i: int)
    requires VolumeFits(c, ui, vi) && |d| <= ChunkLen(ui, vi)
    requires 0 <= i < ui.vidHdrOffs
    ensures VolumeBlock(c, ui, vi, ec, lnum, d)[i]
         == if i < EC_HDR_SIZE then EcImage(c, InitEcHdr(c, ui, ec))[i] else 0xFF
  {
    LayoutHeaderRegion(c, ui, vi, lnum, d, |d|, EcFrame(c, ui, ec), i);
  }

  /** Outside MLC-safe mode the VID header of a block names its LEB and, for a static
      volume, the size and CRC of its payload piece. */
  lemma {:induction false} VolumeBlockVidHeader(c: Codec, ui: UbigenInfo, vi: VolInfo, ec: int,
                                                lnum: int,
                                                d: seq<byte>)
    requires VolumeFits(c, ui, vi) && |d| <= ChunkLen(ui, vi)
    requires vi.mode != VID_MODE_MLC_SAFE
    ensures VolumeBlock(c, ui, vi, ec, lnum, d)[ui.vidHdrOffs..ui.vidHdrOffs + VID_HDR_SIZE]
         == VidImage(c, InitVidHdr(c, ui, vi, lnum, 0, d, |d|))
  {
    var b := VolumeBlock(c, ui, vi, ec, lnum, d);
    var v := ui.vidHdrOffs;
    var img := VidImage(c, InitVidHdr(c, ui, vi, lnum, 0, d, |d|));
    forall i | v <= i < v + VID_HDR_SIZE ensures b[i] == img[i - v] {
      LayoutHeaderRegion(c, ui, vi, lnum, d, |d|, EcFrame(c, ui, ec), i);
    }
    assert b[v..v + VID_HDR_SIZE] == img;
  }

  /** Lines 338-347: read(2) until the piece is in, where a short read is fatal. */
  method ReadChunk(inp: InFile, inbuf: array<byte>, len: int) returns (ok: bool)
    requires inp.Valid() && 0 < len <= inbuf.Length
    modifies inp, inbuf
    ensures inp.Valid()
    ensures ok <==> old(inp.pos) + len <= |inp.data|
    ensures ok ==> (inp.pos == old(inp.pos) + len
                    && inbuf[..len] == inp.data[old(inp.pos)..old(inp.pos) + len])
  {
    var l := len;
    while l != 0
      invariant l == len || l == 0
      invariant inp.Valid()
      invariant l == len ==> inp.pos == old(inp.pos)
      invariant l == 0 ==> (inp.pos == old(inp.pos) + len <= |inp.data|
                            && inbuf[..len] == inp.data[old(inp.pos)..old(inp.pos) + len])
      decreases l
    {
      ghost var p := inp.pos;
      var rd := inp.Read(inbuf, len - l, l);
      if rd != l {
        return false;
      }
      assert inbuf[..len] == Splice(old(inbuf[..]), 0, inp.data[p..inp.pos])[..len];
      l := l - rd;
    }
    return true;
  }

  /** One iteration of lines 331-356: read the piece, compose the PEB in outbuf,
      write it out; a short read or a short write is fatal. */
  method EmitBlock(c: Codec, ui: UbigenInfo, vi: VolInfo, ec: int, lnum: int, len: int,
                   inp: InFile, inbuf: array<byte>, outbuf: array<byte>, out: OutFile)
    returns (ok: bool, ghost tail: seq<byte>)
    requires VolumeFits(c, ui, vi) && 0 < len <= ChunkLen(ui, vi)
    requires inp.Valid() && inbuf.Length == ui.pebSize && outbuf.Length == ui.pebSize
    requires inbuf != outbuf
    requires outbuf[..ui.vidHdrOffs] == EcFrame(c, ui, ec)[..ui.vidHdrOffs]
    modifies inp, inbuf, outbuf, out
    ensures inp.Valid()
    ensures old(inp.pos) + len > |inp.data| ==> !ok
    ensures ok ==> (
      && old(inp.pos) + len <= |inp.data| && inp.pos == old(inp.pos) + len
      && out.extents == old(out.extents)[old(out.pos) :=
           VolumeBlock(c, ui, vi, ec, lnum, inp.data[old(inp.pos)..old(inp.pos) + len])]
      && out.pos == old(out.pos) + ui.pebSize
      && outbuf[..ui.vidHdrOffs] == EcFrame(c, ui, ec)[..ui.vidHdrOffs])
    ensures !ok ==> out.extents == Emit(old(out.extents), old(out.pos), tail) && |tail| < ui.pebSize
    // input that runs out fails before the write: nothing of the block reaches the file
    ensures old(inp.pos) + len > |inp.data| ==> tail == [] && out.extents == old(out.extents)
  {
    tail := [];
    ok := ReadChunk(inp, inbuf, len);
    if !ok {
      return;
    }
    ghost var d := inp.data[old(inp.pos)..old(inp.pos) + len];
    ghost var prev := outbuf[..];
    LayoutVidAndData(c, ui, vi, lnum, inbuf[..len], outbuf, len);
    LayoutReadsOnlyPrefix(c, ui, vi, lnum, d, len, prev, EcFrame(c, ui, ec));
    LayoutKeepsPrefix(c, ui, vi, lnum, d, len, prev);
    var w := out.Write(outbuf[..]);
    if w != ui.pebSize {
      ok, tail := false, outbuf[..][..Max(w, 0)];
      return;
    }
    assert outbuf[..][..w] == outbuf[..];
  }

  /** Appending the next piece to a payload of k full pieces adds one block, for the
      next PEB and for LEB k * lstep, to the file. */
  lemma {:induction false} PayloadStep(r: Run, data: seq<byte>, from: int, done: int, len: int, k: nat,
                                       e: map<int, seq<byte>>, p0: int)
    requires r.piece > 0 && done == Times(k, r.piece)
    requires 0 <= from && from + done + len <= |data| && 0 < len <= r.piece
    ensures var blocks := RunBlocks(r, data[from..from + done]);
      && |blocks| == k
      && RunBlocks(r, data[from..from + done + len])
         == blocks + [r.make(Times(k, r.lstep), data[from + done..from + done + len])]
      && Written(e, p0, r.step, RunBlocks(r, data[from..from + done + len]))
         == Written(e, p0, r.step, blocks)[p0 + Times(k, r.step) :=
              r.make(Times(k, r.lstep), data[from + done..from + done + len])]
  {
    var x, d := data[from..from + done], data[from + done..from + done + len];
    assert x + d == data[from..from + done + len];
    TimesIsMul(k, r.piece);
    ChunksSnoc(x, d, r.piece, k);
    var cs := Chunks(x, r.piece);
    BlocksSnoc(r.make, cs, d, r.lstep, k);
    var blocks := RunBlocks(r, x);
    var blk := r.make(Times(k, r.lstep), d);
    assert RunBlocks(r, x + d) == blocks + [blk];
    assert (blocks + [blk])[..k] == blocks;
  }

  /** The file after the first k blocks of a run over data[from..from + done]: those
      blocks laid out one step apart from p0 over what the file held before, and the
      file position just past them. */
  ghost predicate Progress(r: Run, data: seq<byte>, from: int, done: int, e0: map<int, seq<byte>>,
                           p0: int, e: map<int, seq<byte>>, pos: int, k: nat)
    requires r.piece > 0 && 0 <= from <= from + done <= |data|
  {
    var blocks := RunBlocks(r, data[from..from + done]);
    |blocks| == k && e == Written(e0, p0, r.step, blocks) && pos == p0 + Times(k, r.step)
  }

  /** Writing the block of the next piece, for LEB lnum, at the position just past the
      first k blocks gives the file after k + 1 blocks. */
  lemma {:induction false} ProgressStep(r: Run, data: seq<byte>, from: int, done: int, len: int,
                                        e0: map<int, seq<byte>>, p0: int, e: map<int, seq<byte>>, pos: int, k: nat,
                                        at: int, lnum: int, done': int, e': map<int, seq<byte>>, pos': int, k': nat)
    requires r.piece > 0 && done == Times(k, r.piece)
    requires 0 <= from && from + done + len <= |data| && 0 < len <= r.piece
    requires Progress(r, data, from, done, e0, p0, e, pos, k)
    requires at == from + done && lnum == Times(k, r.lstep)
    requires e' == e[pos := r.make(lnum, data[at..at + len])]
    requires pos' == pos + r.step && done' == done + len && k' == k + 1
    ensures Progress(r, data, from, done', e0, p0, e', pos', k')
  {
    PayloadStep(r, data, from, done, len, k, e0, p0);
  }

  /** The file holds the blocks of the pieces of data[from..from + done] laid out one
      step apart from p0 over e0, followed by the bytes `tail` a short write got out. */
  ghost predicate FileHolds(r: Run, data: seq<byte>, from: int, done: int,
                            e0: map<int, seq<byte>>, p0: int, e: map<int, seq<byte>>,
                            tail: seq<byte>)
    requires r.piece > 0 && 0 <= from <= from + done <= |data|
  {
    var blocks := RunBlocks(r, data[from..from + done]);
    e == Emit(Written(e0, p0, r.step, blocks), p0 + |blocks| * r.step, tail)
  }

  /** The file position just past the blocks of the pieces of data[from..from + done]
      laid out one step apart from p0. */
  ghost predicate PosPast(r: Run, data: seq<byte>, from: int, done: int, p0: int, pos: int)
    requires r.piece > 0 && 0 <= from <= from + done <= |data|
  {
    pos == p0 + |RunBlocks(r, data[from..from + done])| * r.step
  }

  /** A short write just past the first k blocks leaves those blocks and the part of
      the next one it got out. */
  lemma {:induction false} ProgressFail(r: Run, data: seq<byte>, from: int, done: int, e0: map<int,
                                        seq<byte>>,
                                        p0: int, e: map<int, seq<byte>>, pos: int, k: nat, tail: seq<byte>)
    requires r.piece > 0 && 0 <= from <= from + done <= |data|
    requires Progress(r, data, from, done, e0, p0, e, pos, k)
    ensures FileHolds(r, data, from, done, e0, p0, Emit(e, pos, tail), tail)
  {
    TimesIsMul(k, r.step);
  }

  /** The file after the first k blocks, as the writer's result states it. */
  lemma {:induction false} ProgressFile(r: Run, data: seq<byte>, from: int, done: int, e0: map<int,
                                        seq<byte>>,
                                        p0: int, e: map<int, seq<byte>>, pos: int, k: nat)
    requires r.piece > 0 && 0 <= from <= from + done <= |data|
    requires Progress(r, data, from, done, e0, p0, e, pos, k)
    ensures FileHolds(r, data, from, done, e0, p0, e, []) && PosPast(r, data, from, done, p0, pos)
  {
    TimesIsMul(k, r.step);
  }

  /** How the writer fails: after whole pieces of the payload, and, when the input
      ran out before the next piece was in, with nothing of the next block written. */
  ghost predicate FailsClean(data: seq<byte>, from: int, done: int, bytes: int, piece: int,
                             tail: seq<byte>)
    requires piece > 0
  {
    && done % piece == 0
    && (from + done + Min(piece, bytes - done) > |data| ==> tail == [])
  }

  /** A failure while writing piece k, of len bytes, is a clean one. */
  lemma {:induction false} FailureAfterPieces(data: seq<byte>, from: int, done: int, bytes: int,
                                              piece: int,
                                              len: int, k: nat, tail: seq<byte>)
    requires piece > 0 && done == Times(k, piece) && done < bytes
    requires len == if bytes - done < piece then bytes - done else piece
    requires from + done + len > |data| ==> tail == []
    ensures FailsClean(data, from, done, bytes, piece, tail)
  {
    TimesIsMul(k, piece);
    MulModZero(k, piece);
  }

  /** One iteration of the loop of lines 331-356: read the piece, compose the PEB, write
      it, and step lnum on by max_lebs_per_peb (line 356); the ghost results carry the
      progress made so far over to the next piece. */
  method NextBlock(c: Codec, ui: UbigenInfo, vi: VolInfo, ec: int, lnum: int, len: int,
                   inp: InFile, inbuf: array<byte>, outbuf: array<byte>, out: OutFile,
                   ghost r: Run, ghost from: int, ghost done: int, ghost k: nat,
                   ghost e0: map<int, seq<byte>>, ghost p0: int)
    returns (ok: bool, next: int, ghost done': int, ghost k': nat, ghost tail: seq<byte>)
    requires VolumeFits(c, ui, vi) && IsVolumeRun(r, c, ui, vi, ec) && 0 < len <= r.piece
    requires done == Times(k, r.piece) && lnum == Times(k, r.lstep)
    requires inp.Valid() && 0 <= from && inp.pos == from + done
    requires inbuf.Length == ui.pebSize && outbuf.Length == ui.pebSize && inbuf != outbuf
    requires outbuf[..ui.vidHdrOffs] == EcFrame(c, ui, ec)[..ui.vidHdrOffs]
    requires Progress(r, inp.data, from, done, e0, p0, out.extents, out.pos, k)
    modifies inp, inbuf, outbuf, out
    ensures inp.Valid()
    ensures ok ==> && done' == done + len && k' == k + 1 && inp.pos == from + done'
                   && next == lnum + r.lstep
                   && outbuf[..ui.vidHdrOffs] == EcFrame(c, ui, ec)[..ui.vidHdrOffs]
                   && Progress(r, inp.data, from, done', e0, p0, out.extents, out.pos, k')
    ensures !ok ==> && done' == done && |tail| < ui.pebSize
                    && FileHolds(r, inp.data, from, done', e0, p0, out.extents, tail)
                    && (from + done + len > |inp.data| ==> tail == [])
  {
    done', k', next := done, k, lnum;
    ok, tail := EmitBlock(c, ui, vi, ec, lnum, len, inp, inbuf, outbuf, out);
    if !ok {
      ProgressFail(r, inp.data, from, done, e0, p0, old(out.extents), old(out.pos), k, tail);
      return;
    }
    ghost var d := inp.data[old(inp.pos)..old(inp.pos) + len];
    assert r.make(lnum, d) == VolumeBlock(c, ui, vi, ec, lnum, d);
    done', k', next := done + len, k + 1, lnum + ui.maxLebsPerPeb;
    ProgressStep(r, inp.data, from, done, len, e0, p0, old(out.extents), old(out.pos), k,
                 old(inp.pos), lnum, done', out.extents, out.pos, k');
  }

  /** Lines 331-356: cut `bytes` bytes of input into pieces of `len` bytes (the last one
      shorter) and write one PEB per piece, for LEBs 0, max_lebs_per_peb, ... On failure
      the file holds the blocks of the `done` bytes read so far, and possibly the part
      `tail` of the next block that a short write got out. */
  method WritePayload(c: Codec, ui: UbigenInfo, vi: VolInfo, ec: int, bytes: int, len: int,
                      inp: InFile, inbuf: array<byte>, outbuf: array<byte>, out: OutFile,
                      ghost r: Run, ghost pos0: int, ghost e0: map<int, seq<byte>>, ghost p0: int)
    returns (ok: bool, ghost done: int, ghost tail: seq<byte>)
    requires VolumeFits(c, ui, vi) && IsVolumeRun(r, c, ui, vi, ec)
    requires bytes >= 0 && len == r.piece && inp.Valid()
    requires inbuf.Length == ui.pebSize && outbuf.Length == ui.pebSize && inbuf != outbuf
    requires outbuf[..ui.vidHdrOffs] == EcFrame(c, ui, ec)[..ui.vidHdrOffs]
    requires pos0 == inp.pos && e0 == out.extents && p0 == out.pos
    modifies inp, inbuf, outbuf, out
    ensures inp.Valid()
    ensures 0 <= done <= bytes && pos0 + done <= |inp.data|
    ensures ok ==> done == bytes && tail == [] && inp.pos == pos0 + bytes
    ensures !ok ==> done < bytes && |tail| < ui.pebSize
    ensures !ok ==> FailsClean(inp.data, pos0, done, bytes, r.piece, tail)
    ensures FileHolds(r, inp.data, pos0, done, e0, p0, out.extents, tail)
    ensures ok ==> PosPast(r, inp.data, pos0, done, p0, out.pos)
  {
    done, tail := 0, [];
    var len := len;
    var remaining := bytes;
    var lnum := 0;
    ghost var emitted: nat := 0;
    assert Progress(r, inp.data, pos0, 0, e0, p0, out.extents, out.pos, 0);
    while remaining != 0
      invariant 0 <= remaining <= bytes && done == bytes - remaining
      invariant 0 < len <= r.piece && (remaining > 0 ==> len == r.piece)
      invariant inp.Valid() && inp.pos == pos0 + done
      invariant remaining > 0 ==> done == Times(emitted, r.piece)
      invariant lnum == Times(emitted, r.lstep)
      invariant outbuf[..ui.vidHdrOffs] == EcFrame(c, ui, ec)[..ui.vidHdrOffs]
      invariant Progress(r, inp.data, pos0, done, e0, p0, out.extents, out.pos, emitted)
      decreases remaining
    {
      if remaining < len {
        len := remaining;
      }
      remaining := remaining - len;
      var ok;
      ghost var t;
      ghost var k := emitted;
      ok, lnum, done, emitted, t := NextBlock(c, ui, vi, ec, lnum, len, inp, inbuf, outbuf, out,
                                              r, pos0, done, emitted, e0, p0);
      if !ok {
        FailureAfterPieces(inp.data, pos0, done, bytes, r.piece, len, k, t);
        return false, done, t;
      }
    }
    ProgressFile(r, inp.data, pos0, done, e0, p0, out.extents, out.pos, emitted);
    return true, done, [];
  }

  /** ubigen_write_volume. The result is 0 or -1. On -1 past the argument checks the
      file holds the blocks of the `done` payload bytes read so far, and possibly the
      part `tail` of the next block that a short write got out. */
  method WriteVolume(c: Codec, ui: UbigenInfo, vi: VolInfo, ec: int, bytes: int,
                     inp: InFile, out: OutFile, ghost run: Run)
    returns (r: int, ghost done: int, ghost tail: seq<byte>)
    requires WriteVolumePre(c, ui, vi, bytes) && inp.Valid()
    requires PassesChecks(ui, vi) ==> IsVolumeRun(run, c, ui, vi, ec)
    modifies inp, out
    ensures r == 0 || r == -1
    ensures inp.Valid()
    // the argument checks of lines 301-313
    ensures !PassesChecks(ui, vi) ==> r == -1 && unchanged(inp, out)
    // a payload the input does not hold is never written out in full
    ensures old(inp.pos) + bytes > |inp.data| ==> r == -1
    ensures PassesChecks(ui, vi) ==>
      && 0 <= done <= bytes && old(inp.pos) + done <= |inp.data|
      && (r == 0 ==> done == bytes && tail == [] && inp.pos == old(inp.pos) + bytes)
      && (r == -1 ==> done < bytes && |tail| < ui.pebSize)
      // a failure comes after whole pieces; a short read writes nothing of the next block
      && (r == -1 ==> done % ChunkLen(ui, vi) == 0)
      && (r == -1 && old(inp.pos) + done + Min(ChunkLen(ui, vi), bytes - done) > |inp.data|
          ==> tail == [])
      && (r == 0 ==> PosPast(run, inp.data, old(inp.pos), done, old(out.pos), out.pos))
      && FileHolds(run, inp.data, old(inp.pos), done, old(out.extents), old(out.pos), out.extents, tail)
  {
    if vi.id >= ui.maxVolumes {
      return -1, 0, [];
    }
    if vi.alignment >= ui.lebSize {
      return -1, 0, [];
    }
    r, done, tail := WriteChecked(c, ui, vi, ec, bytes, inp, out, run);
  }

  /** Lines 316-326: the output buffer, erased below data_offs, with the EC header
      for ec at its start. */
  method PrepareVolumeBuffer(c: Codec, ui: UbigenInfo, ec: int) returns (outbuf: array<byte>)
    requires ValidCodec(c) && Geometry.Valid(ui)
    ensures fresh(outbuf) && outbuf[..] == EcFrame(c, ui, ec)
  {
    outbuf := new byte[ui.pebSize](_ => 0);
    Memset(outbuf, 0, ui.dataOffs, 0xFF);
    Memcpy(outbuf, 0, EcImage(c, InitEcHdr(c, ui, ec)));
  }

  /** Lines 315-366, once the arguments pass the checks: allocate and prepare the
      buffers, work out the payload bytes per PEB, and write the payload out. */
  method WriteChecked(c: Codec, ui: UbigenInfo, vi: VolInfo, ec: int, bytes: int,
                      inp: InFile, out: OutFile, ghost run: Run)
    returns (r: int, ghost done: int, ghost tail: seq<byte>)
    requires VolumeFits(c, ui, vi) && IsVolumeRun(run, c, ui, vi, ec) && bytes >= 0 && inp.Valid()
    modifies inp, out
    ensures r == 0 || r == -1
    ensures inp.Valid()
    ensures 0 <= done <= bytes && old(inp.pos) + done <= |inp.data|
    ensures r == 0 ==> done == bytes && tail == [] && inp.pos == old(inp.pos) + bytes
    ensures r == -1 ==> done < bytes && |tail| < ui.pebSize
    ensures r == -1 ==> FailsClean(inp.data, old(inp.pos), done, bytes, ChunkLen(ui, vi), tail)
    ensures FileHolds(run, inp.data, old(inp.pos), done, old(out.extents), old(out.pos), out.extents, tail)
    ensures r == 0 ==> PosPast(run, inp.data, old(inp.pos), done, old(out.pos), out.pos)
  {
    var inbuf := new byte[ui.pebSize](_ => 0);
    var outbuf := PrepareVolumeBuffer(c, ui, ec);

    var len := vi.usableLebSize;
    if vi.mode == VID_MODE_MLC_SAFE {
      len := len * ui.maxLebsPerPeb;
    }
    var ok;
    ok, done, tail := WritePayload(c, ui, vi, ec, bytes, len, inp, inbuf, outbuf, out, run,
                                 old(inp.pos), old(out.extents), old(out.pos));
    r := if ok then 0 else -1;
  }

  /** Block k of a run written from p0 lies k steps past p0 and is the block of piece k,
      for LEB k * lstep. */
  lemma {:induction false} RunLayout(r: Run, payload: seq<byte>, e: map<int, seq<byte>>, p0: int, k: int)
    requires r.piece > 0 && r.step > 0 && 0 <= k < |Chunks(payload, r.piece)|
    ensures var f := Written(e, p0, r.step, RunBlocks(r, payload));
      && p0 + k * r.step in f
      && f[p0 + k * r.step] == r.make(k * r.lstep, Chunks(payload, r.piece)[k])
  {
    WrittenAt(e, p0, r.step, RunBlocks(r, payload), k);
  }

  /** With the payload in the input and every write taken whole, block k of the file
      lies k PEBs past the start and carries piece k of the payload for LEB
      k * max_lebs_per_peb. */
  lemma {:induction false} WriteVolumeLayout(c: Codec, ui: UbigenInfo, vi: VolInfo, ec: int,
                                             run: Run, payload: seq<byte>,
                                             e: map<int, seq<byte>>, p0: int, k: int)
    requires VolumeFits(c, ui, vi) && IsVolumeRun(run, c, ui, vi, ec)
    requires 0 <= k < |Chunks(payload, ChunkLen(ui, vi))|
    ensures var f := Written(e, p0, ui.pebSize, RunBlocks(run, payload));
      && p0 + k * ui.pebSize in f
      && f[p0 + k * ui.pebSize]
         == VolumeBlock(c, ui, vi, ec, k * ui.maxLebsPerPeb, Chunks(payload, ChunkLen(ui, vi))[k])
  {
    RunLayout(run, payload, e, p0, k);
  }

  // ---------------------------------------------------------------------------
  // ubigen_write_layout_vol

  /** The low byte of each character, as a C string literal is stored. */
  function Ascii(s: seq<char>): (b: seq<byte>)
    ensures |b| == |s|
  {
    seq(|s|, i requires 0 <= i < |s| => ((s[i] as int) % 256) as byte)
  }

  /** Lines 380-389: the layout volume's descriptor. The code leaves mode, used_ebs,
      flags and slc_ratio unset; they keep whatever `junk` holds. */
  function LayoutVolInfo(ui: UbigenInfo, junk: VolInfo): (vi: VolInfo)
    ensures vi.usableLebSize == ui.lebSize && vi.dataPad == 0
    ensures vi.id == LAYOUT_VOLUME_ID && vi.volType == VID_DYNAMIC
    ensures vi.compat == LAYOUT_VOLUME_COMPAT && vi.alignment == LAYOUT_VOLUME_ALIGN
    ensures vi.bytes == ui.lebSize * LAYOUT_VOLUME_EBS
    ensures vi.mode == junk.mode && vi.usedEbs == junk.usedEbs
  {
    var dataPad := ui.lebSize % LAYOUT_VOLUME_ALIGN;
    var usable := ui.lebSize - dataPad;
    junk.(bytes := ui.lebSize * LAYOUT_VOLUME_EBS, id := LAYOUT_VOLUME_ID,
          alignment := LAYOUT_VOLUME_ALIGN, dataPad := ui.lebSize - usable,
          usableLebSize := usable, volType := LAYOUT_VOLUME_TYPE,
          name := Ascii(LAYOUT_VOLUME_NAME), nameLen := |LAYOUT_VOLUME_NAME|,
          compat := LAYOUT_VOLUME_COMPAT)
  }

  /** Lines 396-400: the buffer before the headers: erased, with the table at data_offs. */
  function LayoutBase(c: Codec, ui: UbigenInfo, vtbl: seq<VtblRecord>): (b: seq<byte>)
    requires ValidCodec(c) && Geometry.Valid(ui) && |vtbl| == ui.maxVolumes
    ensures |b| == ui.pebSize
  {
    var b1 := Fill(Zeros(ui.pebSize), 0, ui.dataOffs, 0xFF);
    var b2 := Splice(b1, ui.dataOffs, TableImage(c, vtbl));
    Fill(b2, ui.dataOffs + ui.vtblSize, ui.pebSize - ui.dataOffs - ui.vtblSize, 0xFF)
  }

  /** A copy of the layout volume: the base with the EC header for ec and the VID
      header for LEB lnum. */
  function LayoutBlock(c: Codec, ui: UbigenInfo, vi: VolInfo, vtbl: seq<VtblRecord>, ec: int,
                       lnum: int): (b: seq<byte>)
    requires ValidCodec(c) && Geometry.Valid(ui) && |vtbl| == ui.maxVolumes
    requires vi.volType != VID_STATIC
    ensures |b| == ui.pebSize
  {
    var b1 := Splice(LayoutBase(c, ui, vtbl), 0, EcImage(c, InitEcHdr(c, ui, ec)));
    Splice(b1, ui.vidHdrOffs, VidImage(c, InitVidHdr(c, ui, vi, lnum, 0, [], 0)))
  }

  /** Every byte of a copy: the two headers, the table at data_offs, and the erase
      value everywhere else, the gap after the VID header included. */
  lemma {:induction false} LayoutBlockBytes(c: Codec, ui: UbigenInfo, vi: VolInfo,
                                            vtbl: seq<VtblRecord>, ec: int,
                                            lnum: int, i: int)
    requires ValidCodec(c) && Geometry.Valid(ui) && |vtbl| == ui.maxVolumes
    requires vi.volType != VID_STATIC && 0 <= i < ui.pebSize
    ensures LayoutBlock(c, ui, vi, vtbl, ec, lnum)[i]
         == if i < EC_HDR_SIZE then EcImage(c, InitEcHdr(c, ui, ec))[i]
            else if i < ui.vidHdrOffs then 0xFF
            else if i < ui.vidHdrOffs + VID_HDR_SIZE
              then VidImage(c, InitVidHdr(c, ui, vi, lnum, 0, [], 0))[i - ui.vidHdrOffs]
            else if i < ui.dataOffs then 0xFF
            else if i < ui.dataOffs + ui.vtblSize then TableImage(c, vtbl)[i - ui.dataOffs]
            else 0xFF
  {
    var tbl := TableImage(c, vtbl);
    var b1 := Fill(Zeros(ui.pebSize), 0, ui.dataOffs, 0xFF);
    var b2 := Splice(b1, ui.dataOffs, tbl);
    var base := Fill(b2, ui.dataOffs + ui.vtblSize, ui.pebSize - ui.dataOffs - ui.vtblSize, 0xFF);
    assert base == LayoutBase(c, ui, vtbl);
    assert base[i] == if i < ui.dataOffs + ui.vtblSize && ui.dataOffs <= i
      then tbl[i - ui.dataOffs] else 0xFF;
    var ei := EcImage(c, InitEcHdr(c, ui, ec));
    var vh := VidImage(c, InitVidHdr(c, ui, vi, lnum, 0, [], 0));
    var b3 := Splice(base, 0, ei);
    assert b3[i] == if i < EC_HDR_SIZE then ei[i] else base[i];
    assert LayoutBlock(c, ui, vi, vtbl, ec, lnum) == Splice(b3, ui.vidHdrOffs, vh);
  }

  /** The two copies differ only inside the EC header (its erase counter) and the
      VID header (its LEB number). */
  lemma {:induction false} LayoutCopiesAgree(c: Codec, ui: UbigenInfo, vi: VolInfo,
                                             vtbl: seq<VtblRecord>,
                                             ec1: int, ec2: int, i: int)
    requires ValidCodec(c) && Geometry.Valid(ui) && |vtbl| == ui.maxVolumes
    requires vi.volType != VID_STATIC && 0 <= i < ui.pebSize
    requires EC_HDR_SIZE <= i && !(ui.vidHdrOffs <= i < ui.vidHdrOffs + VID_HDR_SIZE)
    ensures LayoutBlock(c, ui, vi, vtbl, ec1, 0)[i] == LayoutBlock(c, ui, vi, vtbl, ec2, 1)[i]
  {
    LayoutBlockBytes(c, ui, vi, vtbl, ec1, 0, i);
    LayoutBlockBytes(c, ui, vi, vtbl, ec2, 1, i);
  }

  /** Restamping both headers of a copy gives the copy for the new values. */
  lemma {:induction false} Restamp(s: seq<byte>, v: int, e1: seq<byte>, h1: seq<byte>,
                                   e2: seq<byte>, h2: seq<byte>)
    requires |e1| == |e2| <= v && |h1| == |h2| && v + |h1| <= |s|
    ensures Splice(Splice(Splice(Splice(s, 0, e1), v, h1), 0, e2), v, h2)
         == Splice(Splice(s, 0, e2), v, h2)
  {
    var a := Splice(Splice(Splice(Splice(s, 0, e1), v, h1), 0, e2), v, h2);
    var b := Splice(Splice(s, 0, e2), v, h2);
    forall i | 0 <= i < |s| ensures a[i] == b[i] { }
  }

  /** Lines 391-400: the buffer erased, with the table at data_offs. */
  method PrepareLayoutBuffer(c: Codec, ui: UbigenInfo, vtbl: seq<VtblRecord>) returns (outbuf: array<byte>)
    requires ValidCodec(c) && Geometry.Valid(ui) && |vtbl| == ui.maxVolumes
    ensures fresh(outbuf) && outbuf[..] == LayoutBase(c, ui, vtbl)
  {
    outbuf := new byte[ui.pebSize](_ => 0);
    Memset(outbuf, 0, ui.dataOffs, 0xFF);
    Memcpy(outbuf, ui.dataOffs, TableImage(c, vtbl));
    Memset(outbuf, ui.dataOffs + ui.vtblSize, ui.pebSize - ui.dataOffs - ui.vtblSize, 0xFF);
  }

  /** Lines 408-409 and 421-422: both headers stamped into the buffer, over the base or
      over an earlier copy. */
  method StampLayoutHeaders(c: Codec, ui: UbigenInfo, vi: VolInfo, vtbl: seq<VtblRecord>,
                            outbuf: array<byte>, ec: int, lnum: int,
                            ghost first: bool, ghost ec0: int, ghost lnum0: int)
    requires ValidCodec(c) && Geometry.Valid(ui) && |vtbl| == ui.maxVolumes
    requires vi.volType != VID_STATIC
    requires first ==> outbuf[..] == LayoutBase(c, ui, vtbl)
    requires !first ==> outbuf[..] == LayoutBlock(c, ui, vi, vtbl, ec0, lnum0)
    modifies outbuf
    ensures outbuf[..] == LayoutBlock(c, ui, vi, vtbl, ec, lnum)
  {
    ghost var base := LayoutBase(c, ui, vtbl);
    var e := EcImage(c, InitEcHdr(c, ui, ec));
    var h := VidImage(c, InitVidHdr(c, ui, vi, lnum, 0, [], 0));
    Memcpy(outbuf, 0, e);
    Memcpy(outbuf, ui.vidHdrOffs, h);
    if !first {
      Restamp(base, ui.vidHdrOffs, EcImage(c, InitEcHdr(c, ui, ec0)),
              VidImage(c, InitVidHdr(c, ui, vi, lnum0, 0, [], 0)), e, h);
    }
  }

  /** The extents e differ from e0 at most at offsets a and b. */
  ghost predicate TouchesOnly(e0: map<int, seq<byte>>, e: map<int, seq<byte>>, a: int, b: int)
  {
    && (forall o | o in e0 && o != a && o != b :: o in e && e[o] == e0[o])
    && (forall o | o in e :: o in e0 || o == a || o == b)
  }

  lemma {:induction false} EmitTouchesOnly(e0: map<int, seq<byte>>, a: int, b: int, d1: seq<byte>,
                                           d2: seq<byte>)
    ensures TouchesOnly(e0, e0, a, b)
    ensures TouchesOnly(e0, Emit(e0, a, d1), a, b)
    ensures TouchesOnly(e0, Emit(Emit(e0, a, d1), b, d2), a, b)
  {
  }

  /** Lines 402-414 and 416-427: seek to offset seek, stamp both headers, write the
      copy; a failed seek or a short write is fatal. The offset is never lseek's error
      value -1, which no multiple of a PEB size above 1 can be. */
  method EmitLayoutCopy(c: Codec, ui: UbigenInfo, vi: VolInfo, vtbl: seq<VtblRecord>,
                        outbuf: array<byte>, out: OutFile, seek: int, ec: int, lnum: int,
                        ghost first: bool, ghost ec0: int, ghost lnum0: int)
    returns (ok: bool, ghost t: seq<byte>)
    requires ValidCodec(c) && Geometry.Valid(ui) && |vtbl| == ui.maxVolumes
    requires vi.volType != VID_STATIC
    requires first ==> outbuf[..] == LayoutBase(c, ui, vtbl)
    requires !first ==> outbuf[..] == LayoutBlock(c, ui, vi, vtbl, ec0, lnum0)
    requires seek != -1
    modifies outbuf, out
    ensures ok ==> && out.extents == old(out.extents)[seek := LayoutBlock(c, ui, vi, vtbl, ec, lnum)]
                   && out.pos == seek + ui.pebSize
                   && outbuf[..] == LayoutBlock(c, ui, vi, vtbl, ec, lnum)
    ensures !ok ==> out.extents == Emit(old(out.extents), seek, t)
    ensures seek < 0 ==> !ok && out.extents == old(out.extents)
  {
    t := [];
    ghost var e0 := out.extents;
    var ret := out.Seek(seek);
    if ret != seek {
      return false, t;
    }
    assert out.pos == seek && out.extents == e0;
    StampLayoutHeaders(c, ui, vi, vtbl, outbuf, ec, lnum, first, ec0, lnum0);
    var blk := outbuf[..];
    assert |blk| == ui.pebSize > 0;
    ret := out.Write(blk);
    t := blk[..Max(ret, 0)];
    if ret != ui.pebSize {
      return false, t;
    }
    assert t == blk;
    return true, [];
  }

  /** ubigen_write_layout_vol, with the unset descriptor fields taken from `junk`. */
  method WriteLayoutVol(c: Codec, ui: UbigenInfo, peb1: int, peb2: int, ec1: int, ec2: int,
                        vtbl: seq<VtblRecord>, out: OutFile, junk: VolInfo) returns (r: int)
    requires ValidCodec(c) && Geometry.Valid(ui) && |vtbl| == ui.maxVolumes
    modifies out
    ensures r == 0 || r == -1
    ensures var vi := LayoutVolInfo(ui, junk);
      r == 0 ==> && out.extents == old(out.extents)[peb1 * ui.pebSize := LayoutBlock(c, ui, vi, vtbl, ec1, 0)]
                                                   [peb2 * ui.pebSize := LayoutBlock(c, ui, vi, vtbl, ec2, 1)]
                 && out.pos == peb2 * ui.pebSize + ui.pebSize
    // a PEB before the start of the file is refused before anything is written
    ensures peb1 < 0 ==> r == -1 && out.extents == old(out.extents)
    // nothing but the two PEBs is ever touched
    ensures TouchesOnly(old(out.extents), out.extents, peb1 * ui.pebSize, peb2 * ui.pebSize)
  {
    var vi := LayoutVolInfo(ui, junk);
    var outbuf := PrepareLayoutBuffer(c, ui, vtbl);
    ghost var e0 := out.extents;
    ghost var a, b := peb1 * ui.pebSize, peb2 * ui.pebSize;
    if peb1 < 0 {
      MulNeg(peb1, ui.pebSize);
    }
    if peb2 < 0 {
      MulNeg(peb2, ui.pebSize);
    }
    var ok;
    ghost var t1, t2;
    ok, t1 := EmitLayoutCopy(c, ui, vi, vtbl, outbuf, out, peb1 * ui.pebSize, ec1, 0, true, 0, 0);
    if !ok {
      EmitTouchesOnly(e0, a, b, t1, []);
      return -1;
    }
    ghost var d1 := LayoutBlock(c, ui, vi, vtbl, ec1, 0);
    assert out.extents == Emit(e0, a, d1);
    ok, t2 := EmitLayoutCopy(c, ui, vi, vtbl, outbuf, out, peb2 * ui.pebSize, ec2, 1, false, ec1, 0);
    if !ok {
      EmitTouchesOnly(e0, a, b, d1, t2);
      return -1;
    }
    EmitTouchesOnly(e0, a, b, d1, LayoutBlock(c, ui, vi, vtbl, ec2, 1));
    return 0;
  }
}
