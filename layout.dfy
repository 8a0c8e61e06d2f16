/**
 * ubigen_layout_vid_and_data: composing one PEB image (without its EC header)
 * from a LEB's worth of payload, in the three storage modes: plain, SLC
 * emulation on MLC NAND (payload only in the group-0 pages of each pair), and
 * MLC-safe (replica VID headers at the end of the block).
 *
 * The composition is specified step by step on byte strings (ErasedStage,
 * PayloadStage, LayoutImage), since each step works on what the previous one
 * left in the caller's buffer, and LayoutVidAndData is proved to produce it.
 */
module Layout {
  import opened Bytes
  import opened Media
  import opened Pairing
  import opened Geometry
  import opened Headers

  function Min(a: int, b: int): int { if a <= b then a else b }

  function Max(a: int, b: int): int { if a <= b then b else a }

  /** The payload goes only to group-0 pages: SLC mode on a device with pairing. */
  predicate Scattered(ui: UbigenInfo, vi: VolInfo)
  {
    vi.mode == VID_MODE_SLC && ui.maxLebsPerPeb > 1
  }

  /** Write-units (pages) in a PEB. */
  function Wunits(ui: UbigenInfo): int
    requires ui.minIoSize > 0
  {
    ui.pebSize / ui.minIoSize
  }

  /** The pair number the scatter starts from: data_offs rounded up to whole I/O
      units, a count of write-units that the code uses as a pair index. */
  function StartPair(ui: UbigenInfo): int
    requires ui.minIoSize > 0
  {
    (ui.dataOffs + ui.minIoSize - 1) / ui.minIoSize
  }

  /** The facts about the geometry the composition relies on; every descriptor
      built by InfoInit has them. */
  predicate LayoutGeometry(ui: UbigenInfo)
  {
    && ui.minIoSize > 0
    && 0 <= ui.vidHdrOffs && ui.vidHdrOffs + VID_HDR_SIZE <= ui.dataOffs < ui.pebSize
    && ui.maxLebsPerPeb >= 1
    && (ui.maxLebsPerPeb > 1 ==> ui.pairing.Some?)
    && (ui.pairing.Some? ==> ui.pairing.value.ngroups > 0)
  }

  /** What the composition needs from its caller to stay inside the PEB buffer,
      for a payload of plen bytes and a buffer of blen bytes. */
  ghost predicate StagePre(ui: UbigenInfo, vi: VolInfo, plen: int, blen: int)
  {
    && LayoutGeometry(ui) && blen == ui.pebSize && 0 <= plen
    && (Scattered(ui, vi) ==> ValidScheme(ui.pairing.value, Wunits(ui)))
    && (!Scattered(ui, vi) ==> ui.dataOffs + plen <= ui.pebSize)
    && (vi.mode == VID_MODE_MLC_SAFE ==>
          && ui.slcLebSize > 0
          && SlcEnd(ui) <= ui.pebSize
          && VID_HDR_SIZE <= ui.minIoSize <= ui.pebSize)
  }

  /** The same, for len bytes of the caller's input and a valid field layout. */
  ghost predicate LayoutPre(c: Codec, ui: UbigenInfo, vi: VolInfo, inbuf: seq<byte>, len: int,
                            buf: seq<byte>)
  {
    ValidCodec(c) && 0 <= len <= |inbuf| && StagePre(ui, vi, len, |buf|)
  }


  // ---------------------------------------------------------------------------
  // Arithmetic about write-units

  /** A write-unit of the eraseblock lies inside the PEB. */
  lemma {:induction false} UnitFits(w: int, minIo: int, peb: int)
    requires minIo > 0 && peb >= 0 && 0 <= w < peb / minIo
    ensures 0 <= w * minIo && w * minIo + minIo <= peb
  {
    var k := peb / minIo;
    Bytes.MulLe(w + 1, k, minIo);
    assert peb == k * minIo + peb % minIo;
    assert (w + 1) * minIo == w * minIo + minIo;
    Bytes.MulLe(0, w, minIo);
  }

  /** A write-unit that starts at or above lo does not hold a byte below lo. */
  lemma {:induction false} UnitAbove(w: int, m: int, i: int, lo: int)
    requires m > 0 && 0 <= i < lo <= w * m
    ensures w != i / m
  {
    var q := i / m;
    assert q * m <= i by {
      assert i == q * m + i % m;
    }
  }

  /** Byte i lies in write-unit i / m, and nowhere else. */
  lemma {:induction false} OutsideUnit(i: int, w: int, m: int)
    requires m > 0 && i >= 0 && i / m != w
    ensures !(w * m <= i < w * m + m)
  {
    if w * m <= i < w * m + m {
      Bytes.DivModUnique(i, m, w, i - w * m);
    }
  }

  // ---------------------------------------------------------------------------
  // SLC emulation: scattering the payload over the group-0 pages

  /** The group-0 pages of pairs lo up to hi, in the order the loop visits them. */
  function Group0Units(s: PairingScheme, lo: int, hi: int): (u: seq<int>)
    ensures |u| == if lo < hi then hi - lo else 0
    ensures forall k | 0 <= k < |u| :: u[k] == Group0Wunit(s, lo + k)
  {
    if lo < hi then seq(hi - lo, k => Group0Wunit(s, lo + k)) else []
  }

  predicate UnitsIn(u: seq<int>, wunits: int)
  {
    forall k | 0 <= k < |u| :: 0 <= u[k] < wunits
  }

  predicate Distinct(u: seq<int>)
  {
    forall k, l | 0 <= k < l < |u| :: u[k] != u[l]
  }

  /** The pages the SLC loop visits, from any pair on, are distinct group-0 pages of the eraseblock. */
  lemma {:induction false} Group0UnitsOk(s: PairingScheme, wunits: int, lo: int)
    requires ValidScheme(s, wunits) && 0 <= lo
    ensures var u := Group0Units(s, lo, NPairs(s, wunits));
      && UnitsIn(u, wunits) && Distinct(u)
      && forall k | 0 <= k < |u| :: s.getInfo(u[k]) == Found(PairingInfo(lo + k, 0))
  {
    var u := Group0Units(s, lo, NPairs(s, wunits));
    forall k | 0 <= k < |u|
      ensures 0 <= u[k] < wunits && s.getInfo(u[k]) == Found(PairingInfo(lo + k, 0))
    {
      SlcEmulationPages(s, wunits, lo + k, lo + k);
    }
    forall k, l | 0 <= k < l < |u| ensures u[k] != u[l] {
      SlcEmulationPages(s, wunits, lo + k, lo + l);
    }
  }

  /** Up to one I/O unit of payload to each page of u in turn, while payload is left. */
  function Place(b: seq<byte>, u: seq<int>, m: int, d: seq<byte>): (r: seq<byte>)
    requires m > 0 && UnitsIn(u, |b| / m)
    ensures |r| == |b|
    decreases |u|
  {
    if |u| > 0 && |d| > 0 then
      var n := Min(m, |d|);
      UnitFits(u[0], m, |b|);
      Place(Splice(b, u[0] * m, d[..n]), u[1..], m, d[n..])
    else
      b
  }

  /** The loop of lines 259-272 from pair `pair` on: while pairs and payload are
      left, up to one I/O unit of payload goes to the group-0 page of the pair. */
  function Scatter(b: seq<byte>, s: PairingScheme, m: int, pair: int, d: seq<byte>): (r: seq<byte>)
    requires m > 0 && 0 <= pair && ValidScheme(s, |b| / m)
    ensures |r| == |b|
  {
    Group0UnitsOk(s, |b| / m, pair);
    Place(b, Group0Units(s, pair, NPairs(s, |b| / m)), m, d)
  }

  /** Only bytes of the pages in u are written. */
  lemma {:induction false} PlaceFrame(b: seq<byte>, u: seq<int>, m: int, d: seq<byte>, i: int)
    requires m > 0 && UnitsIn(u, |b| / m)
    requires 0 <= i < |b| && i / m !in u
    ensures Place(b, u, m, d)[i] == b[i]
    decreases |u|
  {
    if |u| > 0 && |d| > 0 {
      var n := Min(m, |d|);
      UnitFits(u[0], m, |b|);
      OutsideUnit(i, u[0], m);
      assert i / m !in u[1..] by {
        forall k | 0 <= k < |u| - 1 ensures u[1..][k] != i / m {
          assert u[1..][k] == u[k + 1];
        }
      }
      PlaceFrame(Splice(b, u[0] * m, d[..n]), u[1..], m, d[n..], i);
    }
  }

  /** One step of Place: the first chunk goes to the first page. */
  lemma {:induction false} PlaceStep(b: seq<byte>, u: seq<int>, m: int, d: seq<byte>)
    requires m > 0 && UnitsIn(u, |b| / m) && |u| > 0 && |d| > 0
    ensures 0 <= u[0] * m && u[0] * m + Min(m, |d|) <= |b| && UnitsIn(u[1..], |b| / m)
    ensures Place(b, u, m, d)
         == Place(Splice(b, u[0] * m, d[..Min(m, |d|)]), u[1..], m, d[Min(m, |d|)..])
  {
    UnitFits(u[0], m, |b|);
  }

  /** One step of Place, for the pages from the k-th on and the input from pos to len. */
  lemma {:induction false} PlaceAdvance(b: seq<byte>, u: seq<int>, k: int, k1: int, m: int,
                                        inbuf: seq<byte>,
                                        pos: int, len: int, n: int, at: int, next: int)
    requires m > 0 && 0 <= k < |u| && k1 == k + 1 && UnitsIn(u[k..], |b| / m)
    requires 0 <= pos < len <= |inbuf| && n == Min(m, len - pos) && next == pos + n
    requires at == u[k] * m
    ensures 0 <= at && at + n <= |b| && 0 <= pos <= next <= len && UnitsIn(u[k1..], |b| / m)
    ensures Place(b, u[k..], m, inbuf[pos..len])
         == Place(Splice(b, at, inbuf[pos..next]), u[k1..], m, inbuf[next..len])
  {
    var v := u[k..];
    var d := inbuf[pos..len];
    PlaceStep(b, v, m, d);
    assert v[0] == u[k] && v[1..] == u[k1..];
    assert d[..n] == inbuf[pos..next] && d[n..] == inbuf[next..len];
  }

  /** The pages after the first are distinct, and none of them is the first. */
  lemma {:induction false} DistinctTail(u: seq<int>)
    requires Distinct(u) && |u| > 0
    ensures Distinct(u[1..]) && u[0] !in u[1..]
  {
    forall l | 0 <= l < |u| - 1 ensures u[1..][l] != u[0] {
      assert u[1..][l] == u[l + 1];
    }
    forall a, c | 0 <= a < c < |u| - 1 ensures u[1..][a] != u[1..][c] {
      assert u[1..][a] == u[a + 1] && u[1..][c] == u[c + 1];
    }
  }

  /** Byte j of the first chunk lands at byte j of the first page. */
  lemma {:induction false} PlaceHead(b: seq<byte>, u: seq<int>, m: int, d: seq<byte>, j: int)
    requires m > 0 && UnitsIn(u, |b| / m) && Distinct(u)
    requires |u| > 0 && 0 <= j < m && j < |d|
    ensures 0 <= u[0] * m + j < |b| && Place(b, u, m, d)[u[0] * m + j] == d[j]
  {
    PlaceStep(b, u, m, d);
    DistinctTail(u);
    var b' := Splice(b, u[0] * m, d[..Min(m, |d|)]);
    var at := u[0] * m + j;
    assert b'[at] == d[j];
    Bytes.DivModUnique(at, m, u[0], j);
    assert at / m !in u[1..];
    assert |b'| == |b|;
    PlaceFrame(b', u[1..], m, d[Min(m, |d|)..], at);
  }

  /** Byte j of chunk k of the payload lands at byte j of page u[k]. */
  lemma {:induction false} PlacePlaced(b: seq<byte>, u: seq<int>, m: int, d: seq<byte>, k: int, j: int)
    requires m > 0 && UnitsIn(u, |b| / m) && Distinct(u)
    requires 0 <= k < |u| && 0 <= j < m && k * m + j < |d|
    ensures && 0 <= u[k] * m + j < |b|
            && 0 <= k * m + j
            && Place(b, u, m, d)[u[k] * m + j] == d[k * m + j]
    decreases k
  {
    if k == 0 {
      PlaceHead(b, u, m, d, j);
    } else {
      UnitFits(u[k], m, |b|);
      Bytes.MulAtLeast(k, m);
      Bytes.MulLe(0, k - 1, m);
      assert (k - 1) * m + j + m == k * m + j;
      PlaceStep(b, u, m, d);
      DistinctTail(u);
      assert Min(m, |d|) == m;
      PlacePlaced(Splice(b, u[0] * m, d[..m]), u[1..], m, d[m..], k - 1, j);
      assert u[1..][k - 1] == u[k];
    }
  }

  /** Payload beyond one I/O unit per page does not reach the image. */
  lemma {:induction false} PlaceUsesPrefix(b: seq<byte>, u: seq<int>, m: int, d: seq<byte>)
    requires m > 0 && UnitsIn(u, |b| / m)
    ensures 0 <= |u| * m
    ensures Place(b, u, m, d) == Place(b, u, m, d[..Min(|d|, |u| * m)])
    decreases |u|
  {
    Bytes.MulLe(0, |u|, m);
    if |u| > 0 && |d| > 0 {
      var n := Min(m, |d|);
      UnitFits(u[0], m, |b|);
      var b' := Splice(b, u[0] * m, d[..n]);
      assert UnitsIn(u[1..], |b'| / m);
      PlaceUsesPrefix(b', u[1..], m, d[n..]);
      PlacePrefixStep(b, u, m, d);
    } else if |u| > 0 {
      assert d[..Min(|d|, |u| * m)] == d;
    } else {
      assert d[..Min(|d|, |u| * m)] == [];
    }
  }

  /** The step of PlaceUsesPrefix: the claim for the first page follows from the
      claim for the pages after it. */
  lemma {:induction false} PlacePrefixStep(b: seq<byte>, u: seq<int>, m: int, d: seq<byte>)
    requires m > 0 && UnitsIn(u, |b| / m) && |u| > 0 && |d| > 0
    requires var n := Min(m, |d|);
      && 0 <= u[0] * m && u[0] * m + m <= |b|
      && 0 <= (|u| - 1) * m
      && var b' := Splice(b, u[0] * m, d[..n]);
      && UnitsIn(u[1..], |b'| / m)
      && Place(b', u[1..], m, d[n..]) == Place(b', u[1..], m, d[n..][..Min(|d| - n, (|u| - 1) * m)])
    ensures 0 <= |u| * m
    ensures Place(b, u, m, d) == Place(b, u, m, d[..Min(|d|, |u| * m)])
  {
    var n := Min(m, |d|);
    var cap := |u| * m;
    Bytes.MulAtLeast(|u|, m);
    assert cap - m == (|u| - 1) * m;
    PrefixHead(d, m, cap);
    PlaceStep(b, u, m, d);
    PlaceStep(b, u, m, d[..Min(|d|, cap)]);
  }

  /** Cutting d to cap bytes leaves its first piece as it was, and the rest cut to cap - m. */
  lemma {:induction false} PrefixHead(d: seq<byte>, m: int, cap: int)
    requires 0 < m <= cap && |d| > 0
    ensures var n := Min(m, |d|);
      var d' := d[..Min(|d|, cap)];
      && |d'| > 0 && Min(m, |d'|) == n && d'[..n] == d[..n]
      && d'[n..] == d[n..][..Min(|d| - n, cap - m)]
  {
    var n := Min(m, |d|);
    PrefixTail(d, n, cap);
    assert Min(|d| - n, cap - n) == Min(|d| - n, cap - m);
  }

  /** Cutting d to cap bytes and dropping the first n is cutting the rest to cap - n. */
  lemma {:induction false} PrefixTail(d: seq<byte>, n: int, cap: int)
    requires 0 <= n <= |d| && n <= cap
    ensures d[..Min(|d|, cap)][n..] == d[n..][..Min(|d| - n, cap - n)]
  {
  }

  /** When the PEB is a whole number of cells, the pairs from the start pair on
      hold exactly one SLC-mode LEB. */
  lemma {:induction false} CapacityIsSlcLeb(ui: UbigenInfo, s: PairingScheme, k: int)
    requires Valid(ui) && ui.pairing == Some(s)
    requires k >= 0 && ui.pebSize == k * (ui.minIoSize * s.ngroups)
    ensures (NPairs(s, Wunits(ui)) - StartPair(ui)) * ui.minIoSize == ui.slcLebSize
  {
    var m := ui.minIoSize;
    var g := s.ngroups;
    WholeCells(ui.pebSize, m, g, k);
    var a := ui.dataOffs / m;
    AlignedStart(ui.dataOffs, m);
    assert (k - a) * m == k * m - a * m;
  }

  /** A PEB of k cells of g pages of m bytes: k * g pages, k pairs, k * m bytes per group. */
  lemma {:induction false} WholeCells(peb: int, m: int, g: int, k: int)
    requires m > 0 && g > 0 && k >= 0 && peb == k * (m * g)
    ensures peb / m == k * g && (k * g) / g == k && peb / g == k * m
  {
    assert peb == (k * g) * m;
    Bytes.DivModUnique(peb, m, k * g, 0);
    Bytes.DivModUnique(k * g, g, k, 0);
    assert peb == (k * m) * g;
    Bytes.DivModUnique(peb, g, k * m, 0);
  }

  /** Rounding an aligned offset up to whole units changes nothing. */
  lemma {:induction false} AlignedStart(x: int, m: int)
    requires m > 0 && x >= 0 && x % m == 0
    ensures (x + m - 1) / m == x / m && x == (x / m) * m
  {
    var a := x / m;
    assert x == a * m;
    Bytes.DivModUnique(x + m - 1, m, a, m - 1);
  }

  // ---------------------------------------------------------------------------
  // MLC-safe replica headers

  /** Number of SLC-sized LEBs the payload occupies (line 284). */
  function ReplicaCount(ui: UbigenInfo, len: int): int
    requires ui.slcLebSize > 0 && len >= 0
  {
    (len + ui.slcLebSize - 1) / ui.slcLebSize
  }

  /** The count is the ceiling of len / slc_leb_size: the fewest SLC LEBs that hold len bytes. */
  lemma {:induction false} ReplicaCountIsCeiling(ui: UbigenInfo, len: int)
    requires ui.slcLebSize > 0 && len >= 0
    ensures var n := ReplicaCount(ui, len);
      n >= 0 && n * ui.slcLebSize >= len && (n - 1) * ui.slcLebSize < len
  {
    var m := ui.slcLebSize;
    var n := (len + m - 1) / m;
    assert len + m - 1 == n * m + (len + m - 1) % m;
    assert (n - 1) * m == n * m - m;
  }

  /** The header written on iteration i of the two loops of lines 286-291. */
  function ReplicaHdr(c: Codec, ui: UbigenInfo, vi: VolInfo, lnum: int, inbuf: seq<byte>, len: int,
                      i: int): VidHdr
    requires ValidCodec(c) && ui.slcLebSize > 0 && 0 <= len <= |inbuf|
  {
    if i < ReplicaCount(ui, len) then InitVidHdr(c, ui, vi, lnum, i, inbuf, len)
    else InitVidHdr(c, ui, vi, 0, VID_LPOS_INVALID, inbuf, len)
  }

  /** What the replica loops need: a valid field layout, a positive SLC LEB size,
      and a last I/O unit that holds a VID header. */
  ghost predicate ReplicaPre(c: Codec, ui: UbigenInfo, inbuf: seq<byte>, len: int, blen: int)
  {
    && ValidCodec(c) && 0 <= len <= |inbuf| && ui.slcLebSize > 0 && ui.maxLebsPerPeb >= 1
    && VID_HDR_SIZE <= ui.minIoSize <= ui.pebSize == blen
  }

  /** Iterations of the two loops together: the LEB count, or max_lebs_per_peb if that is more. */
  function ReplicaIterations(ui: UbigenInfo, len: int): int
    requires ui.slcLebSize > 0 && len >= 0
  {
    Max(ReplicaCount(ui, len), ui.maxLebsPerPeb)
  }

  /** The buffer after the first i iterations, each copying its header to the slot. */
  function Replicas(c: Codec, ui: UbigenInfo, vi: VolInfo, lnum: int, inbuf: seq<byte>, len: int,
                    b: seq<byte>, i: nat): (r: seq<byte>)
    requires ReplicaPre(c, ui, inbuf, len, |b|)
    ensures |r| == |b|
  {
    if i == 0 then b
    else Splice(Replicas(c, ui, vi, lnum, inbuf, len, b, i - 1), ReplicaSlot(ui),
                VidImage(c, ReplicaHdr(c, ui, vi, lnum, inbuf, len, i - 1)))
  }

  /** Of the copies to the one slot only the last one is left. */
  lemma {:induction false} ReplicasLast(c: Codec, ui: UbigenInfo, vi: VolInfo, lnum: int,
                                        inbuf: seq<byte>, len: int, b: seq<byte>, i: nat)
    requires ReplicaPre(c, ui, inbuf, len, |b|) && i >= 1
    ensures Replicas(c, ui, vi, lnum, inbuf, len, b, i)
         == Splice(b, ReplicaSlot(ui), VidImage(c, ReplicaHdr(c, ui, vi, lnum, inbuf, len, i - 1)))
  {
    if i > 1 {
      ReplicasLast(c, ui, vi, lnum, inbuf, len, b, i - 1);
      SpliceTwice(b, ReplicaSlot(ui), VidImage(c, ReplicaHdr(c, ui, vi, lnum, inbuf, len, i - 2)),
                  VidImage(c, ReplicaHdr(c, ui, vi, lnum, inbuf, len, i - 1)));
    }
  }

  // ---------------------------------------------------------------------------
  // The composed image, step by step on bytes

  /** Where the MLC-safe zero tail starts: the end of max_lebs_per_peb SLC-mode LEBs. */
  function SlcEnd(ui: UbigenInfo): int
  {
    ui.dataOffs + ui.slcLebSize * ui.maxLebsPerPeb
  }

  /** The one place every MLC-safe replica header is copied to: the last I/O unit. */
  function ReplicaSlot(ui: UbigenInfo): int
  {
    ui.pebSize - ui.minIoSize
  }

  /** Lines 237-246: the header region zeroed and given the header image hdr,
      the data region erased. */
  function ErasedStage(ui: UbigenInfo, hdr: seq<byte>, buf: seq<byte>): (r: seq<byte>)
    requires LayoutGeometry(ui) && |buf| == ui.pebSize && |hdr| == VID_HDR_SIZE
    ensures |r| == |buf|
    ensures forall i | 0 <= i < |buf| ::
      r[i] == if i < ui.vidHdrOffs then buf[i]
              else if i < ui.vidHdrOffs + VID_HDR_SIZE then hdr[i - ui.vidHdrOffs]
              else if i < ui.dataOffs then 0
              else 0xFF
  {
    var b1 := Fill(buf, ui.vidHdrOffs, ui.dataOffs - ui.vidHdrOffs, 0);
    var b2 := Splice(b1, ui.vidHdrOffs, hdr);
    Fill(b2, ui.dataOffs, ui.pebSize - ui.dataOffs, 0xFF)
  }

  /** Lines 248-275: the payload d scattered over group-0 pages, or copied at data_offs. */
  function PayloadStage(ui: UbigenInfo, vi: VolInfo, hdr: seq<byte>, d: seq<byte>,
                        buf: seq<byte>): (r: seq<byte>)
    requires StagePre(ui, vi, |d|, |buf|) && |hdr| == VID_HDR_SIZE
    ensures |r| == |buf|
  {
    var b3 := ErasedStage(ui, hdr, buf);
    if Scattered(ui, vi) then Scatter(b3, ui.pairing.value, ui.minIoSize, StartPair(ui), d)
    else Splice(b3, ui.dataOffs, d)
  }

  /** Lines 280-281: in MLC-safe mode, zeros from the end of the SLC region on. */
  function ZeroedStage(ui: UbigenInfo, vi: VolInfo, hdr: seq<byte>, d: seq<byte>,
                       buf: seq<byte>): (r: seq<byte>)
    requires StagePre(ui, vi, |d|, |buf|) && |hdr| == VID_HDR_SIZE
    requires vi.mode == VID_MODE_MLC_SAFE
    ensures |r| == |buf|
    ensures forall i | 0 <= i < |buf| ::
      r[i] == if i >= SlcEnd(ui) then 0 else PayloadStage(ui, vi, hdr, d, buf)[i]
  {
    Fill(PayloadStage(ui, vi, hdr, d, buf), SlcEnd(ui), ui.pebSize - SlcEnd(ui), 0)
  }

  /** The pages the SLC loop visits. */
  function ScatterUnits(ui: UbigenInfo): seq<int>
    requires LayoutGeometry(ui) && ui.pairing.Some?
  {
    Group0Units(ui.pairing.value, StartPair(ui), NPairs(ui.pairing.value, Wunits(ui)))
  }

  /** Every page the scatter visits lies at or above data_offs, so the scatter
      never reaches the headers. */
  ghost predicate ScatterAboveData(ui: UbigenInfo)
    requires LayoutGeometry(ui) && ui.pairing.Some?
  {
    forall k | 0 <= k < |ScatterUnits(ui)| :: ui.dataOffs <= ScatterUnits(ui)[k] * ui.minIoSize
  }

  /** The payload stage leaves every byte below data_offs as the erase stage left
      it, provided no scattered page lies below data_offs. */
  lemma {:induction false} PayloadKeepsHeaderRegion(ui: UbigenInfo, vi: VolInfo, hdr: seq<byte>,
                                                    d: seq<byte>,
                                                    buf: seq<byte>, i: int)
    requires StagePre(ui, vi, |d|, |buf|) && |hdr| == VID_HDR_SIZE
    requires Scattered(ui, vi) ==> ScatterAboveData(ui)
    requires 0 <= i < ui.dataOffs
    ensures PayloadStage(ui, vi, hdr, d, buf)[i] == ErasedStage(ui, hdr, buf)[i]
  {
    if Scattered(ui, vi) {
      var u := ScatterUnits(ui);
      var m := ui.minIoSize;
      forall k | 0 <= k < |u| ensures u[k] != i / m {
        UnitAbove(u[k], m, i, ui.dataOffs);
      }
      assert i / m !in u;
      Group0UnitsOk(ui.pairing.value, Wunits(ui), StartPair(ui));
      PlaceFrame(ErasedStage(ui, hdr, buf), u, m, d, i);
    }
  }

  /** Without scattering, the data region holds the payload at data_offs and is
      erased after it. */
  lemma {:induction false} PayloadCopied(ui: UbigenInfo, vi: VolInfo, hdr: seq<byte>, d: seq<byte>,
                                         buf: seq<byte>, i: int)
    requires StagePre(ui, vi, |d|, |buf|) && |hdr| == VID_HDR_SIZE && !Scattered(ui, vi)
    requires ui.dataOffs <= i < ui.pebSize
    ensures PayloadStage(ui, vi, hdr, d, buf)[i]
         == if i < ui.dataOffs + |d| then d[i - ui.dataOffs] else 0xFF
  {
  }

  /** With scattering, a data-region byte of a page that is not a group-0 page stays erased. */
  lemma {:induction false} PayloadSkipsOtherGroups(ui: UbigenInfo, vi: VolInfo, hdr: seq<byte>,
                                                   d: seq<byte>,
                                                   buf: seq<byte>, i: int)
    requires StagePre(ui, vi, |d|, |buf|) && |hdr| == VID_HDR_SIZE && Scattered(ui, vi)
    requires ui.dataOffs <= i < ui.pebSize
    requires ui.pairing.value.getInfo(i / ui.minIoSize).Found? ==>
             ui.pairing.value.getInfo(i / ui.minIoSize).info.group != 0
    ensures PayloadStage(ui, vi, hdr, d, buf)[i] == 0xFF
  {
    var u := ScatterUnits(ui);
    Group0UnitsOk(ui.pairing.value, Wunits(ui), StartPair(ui));
    assert i / ui.minIoSize !in u;
    PlaceFrame(ErasedStage(ui, hdr, buf), u, ui.minIoSize, d, i);
  }

  // ---------------------------------------------------------------------------
  // The image of one call

  /** The header put at vid_hdr_offs: the dummy one in MLC-safe mode, else the real one with lpos 0. */
  function LayoutHdr(c: Codec, ui: UbigenInfo, vi: VolInfo, lnum: int, inbuf: seq<byte>,
                     len: int): (h: VidHdr)
    requires ValidCodec(c) && 0 <= len <= |inbuf|
    ensures VidHdrValid(c, h) && h.body.magic == U32(VID_HDR_MAGIC)
    // an MLC-safe PEB says at vid_hdr_offs that its LEBs are consolidated ...
    ensures vi.mode == VID_MODE_MLC_SAFE ==> h.body.lpos == U8(VID_LPOS_CONSOLIDATED)
    // ... any other names its LEB, at replica position 0
    ensures vi.mode != VID_MODE_MLC_SAFE ==> h.body.lnum == U32(lnum) && h.body.lpos == 0
  {
    if vi.mode == VID_MODE_MLC_SAFE then InitDummyVidHdr(c, ui, vi)
    else InitVidHdr(c, ui, vi, lnum, 0, inbuf, len)
  }

  /** The PEB image ubigen_layout_vid_and_data leaves in a buffer that held `buf`. */
  function LayoutImage(c: Codec, ui: UbigenInfo, vi: VolInfo, lnum: int, inbuf: seq<byte>,
                       len: int, buf: seq<byte>): (r: seq<byte>)
    requires LayoutPre(c, ui, vi, inbuf, len, buf)
    ensures |r| == |buf|
  {
    var hdr := VidImage(c, LayoutHdr(c, ui, vi, lnum, inbuf, len));
    if vi.mode != VID_MODE_MLC_SAFE then PayloadStage(ui, vi, hdr, inbuf[..len], buf)
    else Replicas(c, ui, vi, lnum, inbuf, len, ZeroedStage(ui, vi, hdr, inbuf[..len], buf),
                  ReplicaIterations(ui, len))
  }

  /** The replica header that survives: the one of the last iteration. */
  function LastReplica(c: Codec, ui: UbigenInfo, vi: VolInfo, lnum: int, inbuf: seq<byte>,
                       len: int): VidHdr
    requires ValidCodec(c) && ui.slcLebSize > 0 && 0 <= len <= |inbuf|
  {
    ReplicaHdr(c, ui, vi, lnum, inbuf, len, ReplicaIterations(ui, len) - 1)
  }

  /** In MLC-safe mode the image is the zeroed stage with the last replica header in the slot. */
  lemma {:induction false} MlcSafeImage(c: Codec, ui: UbigenInfo, vi: VolInfo, lnum: int,
                                        inbuf: seq<byte>,
                                        len: int, buf: seq<byte>)
    requires LayoutPre(c, ui, vi, inbuf, len, buf) && vi.mode == VID_MODE_MLC_SAFE
    ensures && 0 <= ReplicaSlot(ui) && ReplicaSlot(ui) + VID_HDR_SIZE <= |buf|
      && LayoutImage(c, ui, vi, lnum, inbuf, len, buf)
         == Splice(ZeroedStage(ui, vi, VidImage(c, InitDummyVidHdr(c, ui, vi)), inbuf[..len], buf),
                   ReplicaSlot(ui), VidImage(c, LastReplica(c, ui, vi, lnum, inbuf, len)))
  {
    MlcSafeReplicas(c, ui, vi, lnum, inbuf, len, buf);
    ReplicasLastOf(c, ui, vi, lnum, inbuf, len,
                   ZeroedStage(ui, vi, VidImage(c, InitDummyVidHdr(c, ui, vi)), inbuf[..len], buf));
  }

  /** After all iterations of the replica loops the slot holds the last replica header. */
  lemma {:induction false} ReplicasLastOf(c: Codec, ui: UbigenInfo, vi: VolInfo, lnum: int,
                                          inbuf: seq<byte>,
                                          len: int, b: seq<byte>)
    requires ReplicaPre(c, ui, inbuf, len, |b|)
    ensures Replicas(c, ui, vi, lnum, inbuf, len, b, ReplicaIterations(ui, len))
         == Splice(b, ReplicaSlot(ui), VidImage(c, LastReplica(c, ui, vi, lnum, inbuf, len)))
  {
    var n := ReplicaIterations(ui, len);
    assert n >= ui.maxLebsPerPeb;
    ReplicasLast(c, ui, vi, lnum, inbuf, len, b, n);
    assert LastReplica(c, ui, vi, lnum, inbuf, len) == ReplicaHdr(c, ui, vi, lnum, inbuf, len, n - 1);
  }

  /** In MLC-safe mode the image is what the replica loops make of the zeroed stage. */
  lemma {:induction false} MlcSafeReplicas(c: Codec, ui: UbigenInfo, vi: VolInfo, lnum: int,
                                           inbuf: seq<byte>,
                                           len: int, buf: seq<byte>)
    requires LayoutPre(c, ui, vi, inbuf, len, buf) && vi.mode == VID_MODE_MLC_SAFE
    ensures LayoutImage(c, ui, vi, lnum, inbuf, len, buf)
         == Replicas(c, ui, vi, lnum, inbuf, len,
                     ZeroedStage(ui, vi, VidImage(c, InitDummyVidHdr(c, ui, vi)), inbuf[..len], buf),
                     ReplicaIterations(ui, len))
  {
  }

  /** The two loops of lines 286-291 leave only the last header they write:
      the "invalid position" one when fewer LEBs than a PEB holds are packed,
      else the real one of the last packed LEB. */
  lemma {:induction false} MlcSafeSurvivor(c: Codec, ui: UbigenInfo, vi: VolInfo, lnum: int,
                                           inbuf: seq<byte>,
                                           len: int, buf: seq<byte>)
    requires LayoutPre(c, ui, vi, inbuf, len, buf) && vi.mode == VID_MODE_MLC_SAFE
    ensures var slot := ReplicaSlot(ui);
      var n := ReplicaCount(ui, len);
      LayoutImage(c, ui, vi, lnum, inbuf, len, buf)[slot..slot + VID_HDR_SIZE]
      == VidImage(c, if n < ui.maxLebsPerPeb then InitVidHdr(c, ui, vi, 0, VID_LPOS_INVALID, inbuf, len)
                     else InitVidHdr(c, ui, vi, lnum, n - 1, inbuf, len))
  {
    MlcSafeImage(c, ui, vi, lnum, inbuf, len, buf);
    LastReplicaIs(c, ui, vi, lnum, inbuf, len);
    var b5 := ZeroedStage(ui, vi, VidImage(c, InitDummyVidHdr(c, ui, vi)), inbuf[..len], buf);
    SpliceSlice(b5, ReplicaSlot(ui), VidImage(c, LastReplica(c, ui, vi, lnum, inbuf, len)));
  }

  /** The last of the two loops' iterations is one of the second loop when the payload
      needs fewer LEBs than a PEB holds, else the one of the last packed LEB. */
  lemma {:induction false} LastReplicaIs(c: Codec, ui: UbigenInfo, vi: VolInfo, lnum: int,
                                         inbuf: seq<byte>, len: int)
    requires ValidCodec(c) && ui.slcLebSize > 0 && 0 <= len <= |inbuf|
    ensures var n := ReplicaCount(ui, len);
      LastReplica(c, ui, vi, lnum, inbuf, len)
      == if n < ui.maxLebsPerPeb then InitVidHdr(c, ui, vi, 0, VID_LPOS_INVALID, inbuf, len)
         else InitVidHdr(c, ui, vi, lnum, n - 1, inbuf, len)
  {
  }

  /** A splice is found again where it was put. */
  lemma {:induction false} SpliceSlice(b: seq<byte>, off: int, d: seq<byte>)
    requires 0 <= off && off + |d| <= |b|
    ensures Splice(b, off, d)[off..off + |d|] == d
  {
  }

  /** When the payload fits the SLC region and fills the PEB's LEBs, the surviving
      header is the real one of the last replica position. */
  lemma {:induction false} MlcSafeFullBlock(ui: UbigenInfo, len: int)
    requires ui.slcLebSize > 0 && ui.maxLebsPerPeb >= 1 && len >= 0
    requires len <= ui.slcLebSize * ui.maxLebsPerPeb
    requires ReplicaCount(ui, len) >= ui.maxLebsPerPeb
    ensures ReplicaCount(ui, len) - 1 == ui.maxLebsPerPeb - 1
  {
    var n := ReplicaCount(ui, len);
    ReplicaCountIsCeiling(ui, len);
    if n > ui.maxLebsPerPeb {
      Bytes.MulLe(ui.maxLebsPerPeb, n - 1, ui.slcLebSize);
    }
  }

  /** Below data_offs the image holds the caller's bytes up to vid_hdr_offs, then
      the VID header, then zeros, provided no payload write strays below data_offs. */
  lemma {:induction false} LayoutHeaderRegion(c: Codec, ui: UbigenInfo, vi: VolInfo, lnum: int,
                                              inbuf: seq<byte>,
                                              len: int, buf: seq<byte>, i: int)
    requires LayoutPre(c, ui, vi, inbuf, len, buf)
    requires Scattered(ui, vi) ==> ScatterAboveData(ui)
    requires vi.mode == VID_MODE_MLC_SAFE ==> ui.dataOffs <= ReplicaSlot(ui)
    requires 0 <= i < ui.dataOffs
    ensures LayoutImage(c, ui, vi, lnum, inbuf, len, buf)[i]
         == if i < ui.vidHdrOffs then buf[i]
            else if i < ui.vidHdrOffs + VID_HDR_SIZE
              then VidImage(c, LayoutHdr(c, ui, vi, lnum, inbuf, len))[i - ui.vidHdrOffs]
            else 0
  {
    var hdr := VidImage(c, LayoutHdr(c, ui, vi, lnum, inbuf, len));
    PayloadKeepsHeaderRegion(ui, vi, hdr, inbuf[..len], buf, i);
    if vi.mode == VID_MODE_MLC_SAFE {
      MlcSafeImage(c, ui, vi, lnum, inbuf, len, buf);
      Bytes.MulAtLeast(ui.maxLebsPerPeb, ui.slcLebSize);
    }
  }

  /** The image depends on the buffer it is composed in only through the bytes
      below vid_hdr_offs: everything from there on is overwritten. */
  lemma {:induction false} LayoutReadsOnlyPrefix(c: Codec, ui: UbigenInfo, vi: VolInfo, lnum: int,
                                                 inbuf: seq<byte>,
                                                 len: int, b1: seq<byte>, b2: seq<byte>)
    requires LayoutPre(c, ui, vi, inbuf, len, b1) && |b2| == |b1|
    requires b1[..ui.vidHdrOffs] == b2[..ui.vidHdrOffs]
    ensures LayoutImage(c, ui, vi, lnum, inbuf, len, b1) == LayoutImage(c, ui, vi, lnum, inbuf, len, b2)
  {
    var hdr := VidImage(c, LayoutHdr(c, ui, vi, lnum, inbuf, len));
    forall i | 0 <= i < ui.vidHdrOffs ensures b1[i] == b2[i] {
      assert b1[i] == b1[..ui.vidHdrOffs][i];
      assert b2[i] == b2[..ui.vidHdrOffs][i];
    }
    assert ErasedStage(ui, hdr, b1) == ErasedStage(ui, hdr, b2);
  }

  /** Nor does the composition change those bytes, as long as no payload write
      strays below data_offs. */
  lemma {:induction false} LayoutKeepsPrefix(c: Codec, ui: UbigenInfo, vi: VolInfo, lnum: int,
                                             inbuf: seq<byte>,
                                             len: int, buf: seq<byte>)
    requires LayoutPre(c, ui, vi, inbuf, len, buf)
    requires Scattered(ui, vi) ==> ScatterAboveData(ui)
    requires vi.mode == VID_MODE_MLC_SAFE ==> ui.dataOffs <= ReplicaSlot(ui)
    ensures LayoutImage(c, ui, vi, lnum, inbuf, len, buf)[..ui.vidHdrOffs] == buf[..ui.vidHdrOffs]
  {
    var img := LayoutImage(c, ui, vi, lnum, inbuf, len, buf);
    forall i | 0 <= i < ui.vidHdrOffs ensures img[i] == buf[i] {
      LayoutHeaderRegion(c, ui, vi, lnum, inbuf, len, buf, i);
    }
  }

  /** Plain mode (and SLC mode without pairing): the payload lies at
      [data_offs, data_offs + len) and the rest of the data region is erased. */
  lemma {:induction false} LayoutPlain(c: Codec, ui: UbigenInfo, vi: VolInfo, lnum: int,
                                       inbuf: seq<byte>,
                                       len: int, buf: seq<byte>, i: int)
    requires LayoutPre(c, ui, vi, inbuf, len, buf)
    requires !Scattered(ui, vi) && vi.mode != VID_MODE_MLC_SAFE
    requires ui.dataOffs <= i < ui.pebSize
    ensures LayoutImage(c, ui, vi, lnum, inbuf, len, buf)[i]
         == if i < ui.dataOffs + len then inbuf[i - ui.dataOffs] else 0xFF
  {
    var hdr := VidImage(c, LayoutHdr(c, ui, vi, lnum, inbuf, len));
    PayloadCopied(ui, vi, hdr, inbuf[..len], buf, i);
  }

  /** SLC emulation never writes anything but the erase value into a page of the
      data region that is not a group-0 page. */
  lemma {:induction false} SlcLeavesOtherGroupsErased(c: Codec, ui: UbigenInfo, vi: VolInfo, lnum: int,
                                                      inbuf: seq<byte>, len: int, buf: seq<byte>, i: int)
    requires LayoutPre(c, ui, vi, inbuf, len, buf) && Scattered(ui, vi)
    requires ui.dataOffs <= i < ui.pebSize
    requires ui.pairing.value.getInfo(i / ui.minIoSize).Found? ==>
             ui.pairing.value.getInfo(i / ui.minIoSize).info.group != 0
    ensures LayoutImage(c, ui, vi, lnum, inbuf, len, buf)[i] == 0xFF
  {
    var hdr := VidImage(c, LayoutHdr(c, ui, vi, lnum, inbuf, len));
    PayloadSkipsOtherGroups(ui, vi, hdr, inbuf[..len], buf, i);
  }

  /** SLC emulation: byte j of the k-th I/O unit of payload lands at byte j of the
      k-th page the loop visits, the group-0 page of pair StartPair + k. */
  lemma {:induction false} SlcPlacesPayload(c: Codec, ui: UbigenInfo, vi: VolInfo, lnum: int,
                                            inbuf: seq<byte>, len: int, buf: seq<byte>, k: int, j: int)
    requires LayoutPre(c, ui, vi, inbuf, len, buf) && Scattered(ui, vi)
    requires 0 <= k < |ScatterUnits(ui)| && 0 <= j < ui.minIoSize && k * ui.minIoSize + j < len
    ensures ScatterUnits(ui)[k] == Group0Wunit(ui.pairing.value, StartPair(ui) + k)
    ensures var at := ScatterUnits(ui)[k] * ui.minIoSize + j;
      && 0 <= at < ui.pebSize && 0 <= k * ui.minIoSize + j
      && LayoutImage(c, ui, vi, lnum, inbuf, len, buf)[at] == inbuf[k * ui.minIoSize + j]
  {
    var hdr := VidImage(c, LayoutHdr(c, ui, vi, lnum, inbuf, len));
    Group0UnitsOk(ui.pairing.value, Wunits(ui), StartPair(ui));
    PlacePlaced(ErasedStage(ui, hdr, buf), ScatterUnits(ui), ui.minIoSize, inbuf[..len], k, j);
  }

  /** SLC emulation: payload beyond one I/O unit per visited pair does not reach
      the image; the data region is that of the payload cut to this capacity. */
  lemma {:induction false} SlcDropsExcess(c: Codec, ui: UbigenInfo, vi: VolInfo, lnum: int,
                                          inbuf: seq<byte>, len: int, buf: seq<byte>)
    requires LayoutPre(c, ui, vi, inbuf, len, buf) && Scattered(ui, vi)
    ensures var cap := |ScatterUnits(ui)| * ui.minIoSize;
      && 0 <= cap && UnitsIn(ScatterUnits(ui), Wunits(ui))
      && LayoutImage(c, ui, vi, lnum, inbuf, len, buf)
         == Place(ErasedStage(ui, VidImage(c, InitVidHdr(c, ui, vi, lnum, 0, inbuf, len)), buf),
                  ScatterUnits(ui), ui.minIoSize, inbuf[..Min(len, cap)])
  {
    var hdr := VidImage(c, LayoutHdr(c, ui, vi, lnum, inbuf, len));
    var b3 := ErasedStage(ui, hdr, buf);
    var u := ScatterUnits(ui);
    Group0UnitsOk(ui.pairing.value, Wunits(ui), StartPair(ui));
    PlaceUsesPrefix(b3, u, ui.minIoSize, inbuf[..len]);
    assert inbuf[..len][..Min(len, |u| * ui.minIoSize)] == inbuf[..Min(len, |u| * ui.minIoSize)];
  }

  /** MLC-safe mode: from data_offs on, outside the replica slot, the image holds
      the payload (plain copy), erased bytes, and zeros from the end of the SLC
      region to the end of the block. */
  lemma {:induction false} MlcSafeDataRegion(c: Codec, ui: UbigenInfo, vi: VolInfo, lnum: int,
                                             inbuf: seq<byte>, len: int, buf: seq<byte>, i: int)
    requires LayoutPre(c, ui, vi, inbuf, len, buf) && vi.mode == VID_MODE_MLC_SAFE
    requires ui.dataOffs <= i < ui.pebSize
    requires !(ReplicaSlot(ui) <= i < ReplicaSlot(ui) + VID_HDR_SIZE)
    ensures LayoutImage(c, ui, vi, lnum, inbuf, len, buf)[i]
         == if i >= SlcEnd(ui) then 0
            else if i < ui.dataOffs + len then inbuf[i - ui.dataOffs]
            else 0xFF
  {
    MlcSafeImage(c, ui, vi, lnum, inbuf, len, buf);
    var hdr := VidImage(c, InitDummyVidHdr(c, ui, vi));
    PayloadCopied(ui, vi, hdr, inbuf[..len], buf, i);
  }

  // ---------------------------------------------------------------------------
  // The imperative composition

  /** ubigen_layout_vid_and_data, writing into the caller's PEB buffer. */
  method LayoutVidAndData(c: Codec, ui: UbigenInfo, vi: VolInfo, lnum: int, inbuf: seq<byte>,
                          outbuf: array<byte>, len: int)
    requires LayoutPre(c, ui, vi, inbuf, len, outbuf[..])
    modifies outbuf
    ensures outbuf[..] == LayoutImage(c, ui, vi, lnum, inbuf, len, old(outbuf[..]))
  {
    ghost var buf := outbuf[..];
    ghost var img := VidImage(c, LayoutHdr(c, ui, vi, lnum, inbuf, len));
    HeaderRegion(c, ui, vi, lnum, inbuf, outbuf, len);
    CopyPayload(ui, vi, img, buf, inbuf, outbuf, len);
    if vi.mode != VID_MODE_MLC_SAFE {
      return;
    }
    var offset := ui.dataOffs + ui.slcLebSize * ui.maxLebsPerPeb;
    Memset(outbuf, offset, ui.pebSize - offset, 0);
    assert outbuf[..] == ZeroedStage(ui, vi, img, inbuf[..len], buf);
    ReplicaLoops(c, ui, vi, lnum, inbuf, outbuf, len);
  }

  /** Lines 237-246: the header region zeroed, the header stamped at vid_hdr_offs
      (the dummy one in MLC-safe mode), the data region erased. */
  method HeaderRegion(c: Codec, ui: UbigenInfo, vi: VolInfo, lnum: int, inbuf: seq<byte>,
                      outbuf: array<byte>, len: int)
    requires ValidCodec(c) && 0 <= len <= |inbuf|
    requires LayoutGeometry(ui) && outbuf.Length == ui.pebSize
    modifies outbuf
    ensures outbuf[..] == ErasedStage(ui, VidImage(c, LayoutHdr(c, ui, vi, lnum, inbuf, len)), old(outbuf[..]))
  {
    ghost var b0 := outbuf[..];
    Memset(outbuf, ui.vidHdrOffs, ui.dataOffs - ui.vidHdrOffs, 0);
    ghost var b1 := outbuf[..];
    var img := StampHeader(c, ui, vi, lnum, inbuf, len);
    Memcpy(outbuf, ui.vidHdrOffs, img);
    ghost var b2 := outbuf[..];
    Memset(outbuf, ui.dataOffs, ui.pebSize - ui.dataOffs, 0xFF);
    assert outbuf[..] == Fill(b2, ui.dataOffs, ui.pebSize - ui.dataOffs, 0xFF);
    assert b2 == Splice(b1, ui.vidHdrOffs, img);
    assert b1 == Fill(b0, ui.vidHdrOffs, ui.dataOffs - ui.vidHdrOffs, 0);
  }

  /** Lines 241-245: the dummy header in MLC-safe mode, else the real one for LEB lnum. */
  method StampHeader(c: Codec, ui: UbigenInfo, vi: VolInfo, lnum: int, inbuf: seq<byte>,
                     len: int) returns (img: seq<byte>)
    requires ValidCodec(c) && 0 <= len <= |inbuf|
    ensures img == VidImage(c, LayoutHdr(c, ui, vi, lnum, inbuf, len))
  {
    var hdr;
    if vi.mode == VID_MODE_MLC_SAFE {
      hdr := InitDummyVidHdr(c, ui, vi);
    } else {
      hdr := InitVidHdr(c, ui, vi, lnum, 0, inbuf, len);
    }
    img := VidImage(c, hdr);
  }

  /** Lines 248-275: the payload scattered over group-0 pages in SLC mode on a
      device with pairing, else copied at data_offs. */
  method CopyPayload(ui: UbigenInfo, vi: VolInfo, ghost hdr: seq<byte>, ghost buf: seq<byte>,
                     inbuf: seq<byte>, outbuf: array<byte>, len: int)
    requires StagePre(ui, vi, len, outbuf.Length) && |hdr| == VID_HDR_SIZE && |buf| == outbuf.Length
    requires 0 <= len <= |inbuf| && outbuf[..] == ErasedStage(ui, hdr, buf)
    modifies outbuf
    ensures outbuf[..] == PayloadStage(ui, vi, hdr, inbuf[..len], buf)
  {
    if vi.mode == VID_MODE_SLC && ui.maxLebsPerPeb > 1 {
      ScatterLoop(ui, inbuf, outbuf, len);
    } else {
      Memcpy(outbuf, ui.dataOffs, inbuf[..len]);
    }
  }

  /** Lines 249-272: the SLC scatter loop, one pair at a time. */
  method ScatterLoop(ui: UbigenInfo, inbuf: seq<byte>, outbuf: array<byte>, len: int)
    requires LayoutGeometry(ui) && ui.pairing.Some? && outbuf.Length == ui.pebSize
    requires ValidScheme(ui.pairing.value, Wunits(ui)) && 0 <= len <= |inbuf|
    modifies outbuf
    ensures UnitsIn(ScatterUnits(ui), Wunits(ui))
    ensures outbuf[..] == Place(old(outbuf[..]), ScatterUnits(ui), ui.minIoSize, inbuf[..len])
  {
    var s := ui.pairing.value;
    var m := ui.minIoSize;
    var nwunits := ui.pebSize / m;
    var npairs := nwunits / Groups(s);
    var start := (ui.dataOffs + m - 1) / m;
    assert nwunits == Wunits(ui) && npairs == NPairs(s, nwunits) && start == StartPair(ui);
    ghost var units := ScatterUnits(ui);
    assert |units| == if start < npairs then npairs - start else 0;
    Group0UnitsOk(s, nwunits, start);
    ghost var target := Place(outbuf[..], units, m, inbuf[..len]);
    assert inbuf[0..len] == inbuf[..len];
    var pair, pos, rest := start, 0, len;
    ghost var k := 0;
    while pair < npairs && rest != 0
      invariant start <= pair && (pair == start || pair <= npairs) && pair == start + k
      invariant 0 <= pos && 0 <= rest && pos + rest == len
      invariant UnitsIn(units[k..], nwunits)
      invariant Place(outbuf[..], units[k..], m, inbuf[pos..len]) == target
      decreases npairs - pair
    {
      var wunit := s.getWunit(PairingInfo(pair, 0));
      var wsize := m;
      if wsize > rest {
        wsize := rest;
      }
      assert wunit == units[k];
      var offset := wunit * m;
      var next := pos + wsize;
      ghost var k1 := k + 1;
      PlaceAdvance(outbuf[..], units, k, k1, m, inbuf, pos, len, wsize, offset, next);
      Memcpy(outbuf, offset, inbuf[pos..next]);
      pos, rest := next, rest - wsize;
      pair, k := pair + 1, k1;
    }
  }

  /** Lines 282-291: the replica headers, all copied to the one slot at the end of the block. */
  method ReplicaLoops(c: Codec, ui: UbigenInfo, vi: VolInfo, lnum: int, inbuf: seq<byte>,
                      outbuf: array<byte>, len: int)
    requires ReplicaPre(c, ui, inbuf, len, outbuf.Length)
    modifies outbuf
    ensures outbuf[..] == Replicas(c, ui, vi, lnum, inbuf, len, old(outbuf[..]), ReplicaIterations(ui, len))
  {
    var slot := ui.pebSize - ui.minIoSize;
    var nlebs := (len + ui.slcLebSize - 1) / ui.slcLebSize;
    ghost var n := ReplicaIterations(ui, len);
    assert n == if nlebs < ui.maxLebsPerPeb then ui.maxLebsPerPeb else nlebs;
    ghost var b5 := outbuf[..];
    var i := 0;
    while i < nlebs
      invariant 0 <= i <= nlebs
      invariant outbuf[..] == Replicas(c, ui, vi, lnum, inbuf, len, b5, i)
    {
      ReplicasStep(c, ui, vi, lnum, inbuf, len, b5, i);
      Memcpy(outbuf, slot, VidImage(c, InitVidHdr(c, ui, vi, lnum, i, inbuf, len)));
      i := i + 1;
    }
    while i < ui.maxLebsPerPeb
      invariant nlebs <= i <= n
      invariant outbuf[..] == Replicas(c, ui, vi, lnum, inbuf, len, b5, i)
    {
      ReplicasStep(c, ui, vi, lnum, inbuf, len, b5, i);
      Memcpy(outbuf, slot, VidImage(c, InitVidHdr(c, ui, vi, 0, VID_LPOS_INVALID, inbuf, len)));
      i := i + 1;
    }
    assert i == n;
  }

  /** One iteration of either loop: header i is the real one of replica position i
      while i is below the LEB count, then the "invalid position" one. */
  lemma {:induction false} ReplicasStep(c: Codec, ui: UbigenInfo, vi: VolInfo, lnum: int,
                                        inbuf: seq<byte>,
                                        len: int, b: seq<byte>, i: nat)
    requires ReplicaPre(c, ui, inbuf, len, |b|)
    ensures Replicas(c, ui, vi, lnum, inbuf, len, b, i + 1)
         == Splice(Replicas(c, ui, vi, lnum, inbuf, len, b, i), ReplicaSlot(ui),
                   VidImage(c, if i < ReplicaCount(ui, len) then InitVidHdr(c, ui, vi, lnum, i, inbuf, len)
                               else InitVidHdr(c, ui, vi, 0, VID_LPOS_INVALID, inbuf, len)))
  {
  }
}
