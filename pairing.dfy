/**
 * The NAND page-pairing interface of libmtd: a pairing scheme maps each
 * write-unit (page) of an eraseblock to (pair, group) coordinates and back.
 * The two conversion functions belong to the flash driver; here they are
 * values of a scheme, and the contract their documentation promises is the
 * predicate ValidScheme that users of a scheme may rely on.
 */
module Pairing {

  /** The error code the conversion functions return for an invalid argument. */
  const EINVAL: int := 22

  /** struct mtd_pairing_info: the pair a page belongs to and its bit position in the cell. */
  datatype PairingInfo = PairingInfo(pair: int, group: int)

  /** Outcome of get_info: a status of 0 with the filled-in info, or a negative status. */
  datatype InfoLookup = Found(info: PairingInfo) | Invalid(status: int)

  /** struct mtd_pairing_scheme (without its sysfs name). */
  datatype PairingScheme = PairingScheme(
    ngroups: int,
    getInfo: int -> InfoLookup,
    getWunit: PairingInfo -> int)

  /** Number of pairs of an eraseblock of `wunits` write-units. */
  function NPairs(s: PairingScheme, wunits: int): int
    requires s.ngroups > 0
  {
    wunits / s.ngroups
  }

  /** The documented contract of a pairing scheme for an eraseblock of `wunits` write-units. */
  ghost predicate ValidScheme(s: PairingScheme, wunits: int)
  {
    && s.ngroups > 0
    && wunits >= 0
    // get_info fills info exactly for the pages of the eraseblock, otherwise returns -EINVAL
    && (forall w :: s.getInfo(w).Found? <==> 0 <= w < wunits)
    && (forall w :: s.getInfo(w).Invalid? ==> s.getInfo(w).status == -EINVAL)
    // the group is the bit position inside a cell of ngroups bits
    && (forall w | s.getInfo(w).Found? ::
          0 <= s.getInfo(w).info.group < s.ngroups && 0 <= s.getInfo(w).info.pair)
    // get_wunit is the reverse of get_info ...
    && (forall w | s.getInfo(w).Found? :: s.getWunit(s.getInfo(w).info) == w)
    // ... and any non-negative answer is a page whose pairing info is the argument
    && (forall i :: s.getWunit(i) >= 0 ==> s.getInfo(s.getWunit(i)) == Found(i))
    // group 0 of every pair below wunits / ngroups names a page (software SLC emulation)
    && (forall p | 0 <= p < NPairs(s, wunits) :: s.getWunit(PairingInfo(p, 0)) >= 0)
  }

  /** mtd_pairing_groups. */
  function Groups(s: PairingScheme): int
  {
    s.ngroups
  }

  /** Round trip one way: the pairing info of a valid write-unit leads back to it. */
  lemma {:induction false} WunitInfoWunit(s: PairingScheme, wunits: int, w: int)
    requires ValidScheme(s, wunits)
    requires 0 <= w < wunits
    ensures s.getInfo(w).Found?
    ensures s.getWunit(s.getInfo(w).info) == w
  {
  }

  /** Round trip the other way: a pairing info with a page leads back to itself. */
  lemma {:induction false} InfoWunitInfo(s: PairingScheme, wunits: int, i: PairingInfo)
    requires ValidScheme(s, wunits)
    requires s.getWunit(i) >= 0
    ensures 0 <= s.getWunit(i) < wunits
    ensures s.getInfo(s.getWunit(i)) == Found(i)
  {
  }

  /** get_wunit fails exactly on the pairing infos that no page carries. */
  lemma {:induction false} WunitErrorIffNoPage(s: PairingScheme, wunits: int, i: PairingInfo)
    requires ValidScheme(s, wunits)
    ensures s.getWunit(i) < 0 <==> forall w | 0 <= w < wunits :: s.getInfo(w) != Found(i)
  {
    if s.getWunit(i) < 0 {
      forall w | 0 <= w < wunits ensures s.getInfo(w) != Found(i) {
      }
    } else {
      assert s.getInfo(s.getWunit(i)) == Found(i);
    }
  }

  /** Every page's group is a bit position of the cell. */
  lemma {:induction false} GroupInRange(s: PairingScheme, wunits: int, w: int)
    requires ValidScheme(s, wunits)
    requires 0 <= w < wunits
    ensures 0 <= s.getInfo(w).info.group < Groups(s)
  {
  }

  /** Distinct pairing infos that both name a page name distinct pages. */
  lemma {:induction false} WunitInjective(s: PairingScheme, wunits: int, i: PairingInfo, j: PairingInfo)
    requires ValidScheme(s, wunits)
    requires s.getWunit(i) >= 0 && s.getWunit(j) >= 0
    requires i != j
    ensures s.getWunit(i) != s.getWunit(j)
  {
    assert s.getInfo(s.getWunit(i)) == Found(i);
    assert s.getInfo(s.getWunit(j)) == Found(j);
  }

  /** The group-0 page of pair p, as the SLC emulation loop visits it. */
  function Group0Wunit(s: PairingScheme, p: int): int
  {
    s.getWunit(PairingInfo(p, 0))
  }

  /** SLC emulation: iterating the pairs with group 0 visits pages of the eraseblock
      that belong to group 0, and two different pairs never give the same page. */
  lemma {:induction false} SlcEmulationPages(s: PairingScheme, wunits: int, p: int, q: int)
    requires ValidScheme(s, wunits)
    requires 0 <= p < NPairs(s, wunits) && 0 <= q < NPairs(s, wunits)
    ensures 0 <= Group0Wunit(s, p) < wunits
    ensures s.getInfo(Group0Wunit(s, p)) == Found(PairingInfo(p, 0))
    ensures s.getInfo(Group0Wunit(s, p)).info.group == 0
    ensures p != q ==> Group0Wunit(s, p) != Group0Wunit(s, q)
  {
    assert s.getWunit(PairingInfo(p, 0)) >= 0;
    assert s.getWunit(PairingInfo(q, 0)) >= 0;
    if p != q {
      WunitInjective(s, wunits, PairingInfo(p, 0), PairingInfo(q, 0));
    }
  }

  /** The pages the SLC emulation loop visits from pair lo up to pair hi. */
  ghost function Group0Pages(s: PairingScheme, lo: int, hi: int): set<int>
  {
    set p | lo <= p < hi :: Group0Wunit(s, p)
  }

  /** SLC emulation uses exactly one page per pair: npairs pairs give npairs distinct
      group-0 pages of the eraseblock. */
  lemma {:induction false} Group0PagesCount(s: PairingScheme, wunits: int, lo: int, hi: int)
    requires ValidScheme(s, wunits)
    requires 0 <= lo <= hi <= NPairs(s, wunits)
    ensures |Group0Pages(s, lo, hi)| == hi - lo
    ensures forall w | w in Group0Pages(s, lo, hi) ::
      0 <= w < wunits && s.getInfo(w).info.group == 0
  {
    forall p, q | lo <= p < q < hi ensures Group0Wunit(s, p) != Group0Wunit(s, q) {
      SlcEmulationPages(s, wunits, p, q);
    }
    Group0PagesCard(s, lo, hi);
    forall w | w in Group0Pages(s, lo, hi)
      ensures 0 <= w < wunits && s.getInfo(w).info.group == 0
    {
      var p :| lo <= p < hi && w == Group0Wunit(s, p);
      SlcEmulationPages(s, wunits, p, p);
    }
  }

  /** Pairs lo up to hi with pairwise distinct group-0 pages give hi - lo pages. */
  lemma {:induction false} Group0PagesCard(s: PairingScheme, lo: int, hi: int)
    requires lo <= hi
    requires forall p, q | lo <= p < q < hi :: Group0Wunit(s, p) != Group0Wunit(s, q)
    ensures |Group0Pages(s, lo, hi)| == hi - lo
    decreases hi - lo
  {
    if lo < hi {
      Group0PagesCard(s, lo + 1, hi);
      var rest := Group0Pages(s, lo + 1, hi);
      assert Group0Pages(s, lo, hi) == rest + {Group0Wunit(s, lo)};
      assert Group0Wunit(s, lo) !in rest;
    } else {
      assert Group0Pages(s, lo, hi) == {};
    }
  }

  /** A two-group scheme that pairs page 2p with page 2p + 1: a device the contract admits. */
  function Interleaved(wunits: int): PairingScheme
  {
    PairingScheme(
      2,
      w => if 0 <= w < wunits then Found(PairingInfo(w / 2, w % 2)) else Invalid(-EINVAL),
      (i: PairingInfo) => if 0 <= i.group < 2 && 0 <= i.pair && 2 * i.pair + i.group < wunits
           then 2 * i.pair + i.group else -EINVAL)
  }

  lemma {:induction false} InterleavedValid(wunits: int)
    requires wunits >= 0
    ensures ValidScheme(Interleaved(wunits), wunits)
  {
    var s := Interleaved(wunits);
    forall p | 0 <= p < NPairs(s, wunits) ensures s.getWunit(PairingInfo(p, 0)) >= 0 {
      assert 2 * p < wunits;
    }
  }
}
