/** The dirty-page bitmap of one region, as the set of its dirty page indices.

    The bitmap type itself is not part of this model; only the one operation
    the region layer uses, `set_addr_range(start, n)`, is given here, under the
    ASSUMPTION that it marks dirty every page index from `start / ps` to
    `(start + n - 1) / ps` and does nothing when `n == 0`. Setting bits is
    sequential set union (the atomic word updates are not modelled). */
module Bitmap {

  /** Number of pages (bits) of a bitmap over `len` bytes: `ceil(len / ps)`. */
  function NumPages(len: nat, ps: nat): nat
    requires ps > 0
  {
    (len + ps - 1) / ps
  }

  /** The page indices `set_addr_range(start, n)` marks. */
  function PagesOf(start: nat, n: nat, ps: nat): set<nat>
    requires ps > 0
  {
    if n == 0 then {} else PageRange(start / ps, (start + n - 1) / ps)
  }

  /** The page indices `lo ..= hi`. */
  function PageRange(lo: nat, hi: nat): (r: set<nat>)
    ensures forall p :: p in r <==> lo <= p <= hi
    decreases hi + 1 - lo
  {
    if lo > hi then {} else {lo} + PageRange(lo + 1, hi)
  }

  /** The bitmap after `set_addr_range(start, n)`: bits are only ever added. */
  function SetAddrRange(pages: set<nat>, start: nat, n: nat, ps: nat): set<nat>
    requires ps > 0
  {
    pages + PagesOf(start, n, ps)
  }

  /** The page holding byte offset `b`. */
  function PageOf(b: nat, ps: nat): nat
    requires ps > 0
  {
    b / ps
  }

  lemma DivMonotone(a: nat, b: nat, ps: nat)
    requires ps > 0 && a <= b
    ensures a / ps <= b / ps
  {
    PageStartBelow(a / ps, a, ps);
    PageStartBelow(a / ps, b, ps);
  }

  /** `p <= x / ps` exactly when page `p` starts at or before byte `x`. */
  lemma PageStartBelow(p: nat, x: nat, ps: nat)
    requires ps > 0
    ensures p <= x / ps <==> p * ps <= x
  {
    var q, r := x / ps, x % ps;
    assert x == q * ps + r && r < ps;
    if p <= q {
      assert p * ps <= q * ps;
    } else {
      assert p >= q + 1;
      assert p * ps >= (q + 1) * ps == q * ps + ps;
    }
  }

  /** The marked pages are exactly the pages holding some byte of `[start, start + n)`. */
  lemma PagesOfExact(start: nat, n: nat, ps: nat, p: nat)
    requires ps > 0
    ensures p in PagesOf(start, n, ps) <==>
            exists b: nat :: start <= b < start + n && PageOf(b, ps) == p
  {
    if p in PagesOf(start, n, ps) {
      var b: nat := if p * ps < start then start else p * ps;
      PageStartBelow(p, start + n - 1, ps);
      if p * ps < start {
        PageStartBelow(p + 1, start, ps);
        assert (p + 1) * ps == p * ps + ps;
        PageStartBelow(p, start, ps);
      } else {
        assert (p * ps) / ps == p by {
          PageStartBelow(p, p * ps, ps);
          PageStartBelow(p + 1, p * ps, ps);
          assert (p + 1) * ps == p * ps + ps;
        }
      }
      assert start <= b < start + n && PageOf(b, ps) == p;
    }
    if b: nat :| start <= b < start + n && PageOf(b, ps) == p {
      DivMonotone(start, b, ps);
      DivMonotone(b, start + n - 1, ps);
    }
  }

  /** Pages marked for a range inside a region of `len` bytes lie inside its bitmap. */
  lemma PagesOfInBounds(start: nat, n: nat, len: nat, ps: nat)
    requires ps > 0 && start + n <= len
    ensures forall p :: p in PagesOf(start, n, ps) ==> p < NumPages(len, ps)
  {
    forall p | p in PagesOf(start, n, ps)
      ensures p < NumPages(len, ps)
    {
      PageStartBelow(p, start + n - 1, ps);
      PageStartBelow(p + 1, len + ps - 1, ps);
      assert (p + 1) * ps == p * ps + ps;
    }
  }

  /** Writing 4 bytes at offset 0x1005 with 0x1000-byte pages marks page 1 only. */
  lemma SanityFourBytesAt0x1005()
    ensures PagesOf(0x1005, 4, 0x1000) == {1}
    ensures 0 !in PagesOf(0x1005, 4, 0x1000)
  {
    var s := PagesOf(0x1005, 4, 0x1000);
    assert 0x1005 / 0x1000 == 1 && 0x1008 / 0x1000 == 1;
    assert forall p :: p in s <==> p == 1;
  }
}
