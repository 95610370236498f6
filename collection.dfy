/** The structural side of `GuestMemoryMmap`: the ordered list of regions,
    its validation, copy-on-write insertion and removal, and the lookup of the
    region holding a guest address. A collection is a value (`seq` of
    region summaries); every operation returns a new value and leaves its
    input as it was. */
module Collection {
  import opened Types

  /** What the structural operations see of a region: its guest start
      address, its length, and whether it has a dirty bitmap. */
  datatype RegionInfo = RegionInfo(start: nat, len: nat, hasBitmap: bool)

  /** A region as `GuestRegionMmap::new` admits it, with at least one byte. */
  predicate WellFormed(r: RegionInfo) {
    r.len > 0 && r.start + r.len <= U64_MAX
  }

  predicate AllWellFormed(rs: seq<RegionInfo>) {
    forall i :: 0 <= i < |rs| ==> WellFormed(rs[i])
  }

  /** `last_addr`: the guest address of the region's last byte. */
  function Last(r: RegionInfo): nat
    requires r.len > 0
  {
    r.start + r.len - 1
  }

  /** Whether guest address `addr` lies in region `r`. */
  predicate Contains(r: RegionInfo, addr: nat)
    requires r.len > 0
  {
    r.start <= addr <= Last(r)
  }

  /** Whether two regions share a guest address. */
  predicate Overlap(a: RegionInfo, b: RegionInfo)
    requires a.len > 0 && b.len > 0
  {
    a.start <= Last(b) && b.start <= Last(a)
  }

  /** Pair `j, j + 1` passes the window check of `from_arc_regions`. */
  predicate PairOk(rs: seq<RegionInfo>, j: nat)
    requires AllWellFormed(rs) && j + 1 < |rs|
  {
    Last(rs[j]) < rs[j + 1].start
  }

  /** The collection invariant: well-formed regions, each ending before the
      next one starts (so the starts strictly increase). */
  predicate Valid(rs: seq<RegionInfo>) {
    AllWellFormed(rs) && forall j: nat :: j + 1 < |rs| ==> PairOk(rs, j)
  }

  /** Starts in non-decreasing order, as `sort_by_key` leaves them. */
  predicate SortedByStart(rs: seq<RegionInfo>) {
    forall i, j :: 0 <= i < j < |rs| ==> rs[i].start <= rs[j].start
  }

  /** In a valid collection every region ends before any later one starts. */
  lemma {:induction false} ValidPairwise(rs: seq<RegionInfo>, i: nat, j: nat)
    requires Valid(rs) && i < j < |rs|
    ensures Last(rs[i]) < rs[j].start
    decreases j - i
  {
    assert PairOk(rs, i);
    if i + 1 < j {
      ValidPairwise(rs, i + 1, j);
    }
  }

  /** A valid collection's regions are pairwise disjoint and sorted. */
  lemma ValidDisjointSorted(rs: seq<RegionInfo>)
    requires Valid(rs)
    ensures forall i, j :: 0 <= i < j < |rs| ==> !Overlap(rs[i], rs[j])
    ensures SortedByStart(rs)
  {
    forall i, j | 0 <= i < j < |rs| ensures !Overlap(rs[i], rs[j]) && rs[i].start <= rs[j].start {
      ValidPairwise(rs, i, j);
    }
  }

  // ---- from_arc_regions ----

  /** The error of the first pair that fails the window check. */
  function PairError(rs: seq<RegionInfo>, k: nat): Error
    requires AllWellFormed(rs) && k + 1 < |rs|
  {
    if rs[k].start > rs[k + 1].start then UnsortedMemoryRegions else MemoryRegionOverlap
  }

  /** Pair `k` is the first pair, from `i` on, that fails the window check. */
  predicate FirstBadPair(rs: seq<RegionInfo>, i: nat, k: nat)
    requires AllWellFormed(rs)
  {
    i <= k && k + 1 < |rs| && !PairOk(rs, k) &&
    forall j: nat :: i <= j < k ==> PairOk(rs, j)
  }

  /** The window scan of `from_arc_regions` from pair `i` on. */
  function ScanPairs(rs: seq<RegionInfo>, i: nat): (r: Option<Error>)
    requires AllWellFormed(rs)
    ensures r.Some? ==> r.value == UnsortedMemoryRegions || r.value == MemoryRegionOverlap
    decreases |rs| - i
  {
    if i + 1 >= |rs| then None
    else if rs[i].start > rs[i + 1].start then Some(UnsortedMemoryRegions)
    else if Last(rs[i]) >= rs[i + 1].start then Some(MemoryRegionOverlap)
    else ScanPairs(rs, i + 1)
  }

  /** `from_arc_regions`: the collection, or the first violation found. */
  function Validate(rs: seq<RegionInfo>): (r: Result<seq<RegionInfo>>)
    requires AllWellFormed(rs)
    ensures r.Err? ==> r.error in {NoMemoryRegion, UnsortedMemoryRegions, MemoryRegionOverlap}
  {
    if |rs| == 0 then Err(NoMemoryRegion)
    else match ScanPairs(rs, 0)
      case None => Ok(rs)
      case Some(e) => Err(e)
  }

  /** The scan finds nothing exactly when every pair from `i` passes, and
      otherwise reports the first failing pair's error. */
  lemma {:induction false} ScanPairsSpec(rs: seq<RegionInfo>, i: nat)
    requires AllWellFormed(rs)
    ensures ScanPairs(rs, i).None? <==> forall j: nat :: i <= j && j + 1 < |rs| ==> PairOk(rs, j)
    ensures forall k: nat :: FirstBadPair(rs, i, k) ==> ScanPairs(rs, i) == Some(PairError(rs, k))
    ensures ScanPairs(rs, i).Some? ==> exists k: nat :: FirstBadPair(rs, i, k)
    decreases |rs| - i
  {
    if i + 1 < |rs| {
      ScanPairsSpec(rs, i + 1);
      if PairOk(rs, i) {
        assert rs[i].start <= rs[i + 1].start;
        forall k: nat | FirstBadPair(rs, i, k) ensures FirstBadPair(rs, i + 1, k) {}
        if ScanPairs(rs, i).Some? {
          var k: nat :| FirstBadPair(rs, i + 1, k);
          assert FirstBadPair(rs, i, k);
        }
      } else {
        assert FirstBadPair(rs, i, i);
        forall k: nat | FirstBadPair(rs, i, k) ensures k == i {}
      }
    }
  }

  /** `from_arc_regions` succeeds exactly on a non-empty valid list, and
      then returns that list unchanged. */
  lemma ValidateOk(rs: seq<RegionInfo>)
    requires AllWellFormed(rs)
    ensures Validate(rs).Ok? <==> |rs| > 0 && Valid(rs)
    ensures Validate(rs).Ok? ==> Validate(rs).value == rs
  {
    ScanPairsSpec(rs, 0);
  }

  /** `from_arc_regions` fails with `NoMemoryRegion` exactly on an empty list
      and otherwise with the error of the first pair, scanning left to
      right, that is unsorted or overlapping. */
  lemma ValidateErr(rs: seq<RegionInfo>, e: Error)
    requires AllWellFormed(rs)
    ensures Validate(rs) == Err(NoMemoryRegion) <==> |rs| == 0
    ensures |rs| > 0 ==>
      (Validate(rs) == Err(e) <==> exists k: nat :: FirstBadPair(rs, 0, k) && e == PairError(rs, k))
  {
    ScanPairsSpec(rs, 0);
    if |rs| > 0 && Validate(rs) == Err(e) {
      var k: nat :| FirstBadPair(rs, 0, k);
    }
  }

  /** `from_arc_regions` as the source runs it: a scan over the windows of
      two adjacent regions with an early return on the first bad one. */
  method FromArcRegions(rs: seq<RegionInfo>) returns (r: Result<seq<RegionInfo>>)
    requires AllWellFormed(rs)
    ensures r == Validate(rs)
  {
    if |rs| == 0 {
      return Err(NoMemoryRegion);
    }
    var i := 0;
    while i + 1 < |rs|
      invariant 0 <= i < |rs|
      invariant ScanPairs(rs, i) == ScanPairs(rs, 0)
    {
      var prev, next := rs[i], rs[i + 1];
      if prev.start > next.start {
        return Err(UnsortedMemoryRegions);
      }
      if Last(prev) >= next.start {
        return Err(MemoryRegionOverlap);
      }
      i := i + 1;
    }
    r := Ok(rs);
  }

  // ---- insert_region: push, then a stable sort by start ----

  /** Inserts `x` into `s` from the back, after every element whose start
      is not greater than `x.start` (one step of a stable insertion sort). */
  function InsertByStart(s: seq<RegionInfo>, x: RegionInfo): (r: seq<RegionInfo>)
    ensures |r| == |s| + 1
    decreases |s|
  {
    if |s| == 0 then [x]
    else if s[|s| - 1].start <= x.start then s + [x]
    else InsertByStart(s[..|s| - 1], x) + [s[|s| - 1]]
  }

  /** `sort_by_key(start_addr)`: a stable sort by start address (insertion
      sort); `SortByStartSpec` shows it sorts and permutes. */
  function SortByStart(s: seq<RegionInfo>): (r: seq<RegionInfo>)
    ensures |r| == |s|
    decreases |s|
  {
    if |s| == 0 then []
    else InsertByStart(SortByStart(s[..|s| - 1]), s[|s| - 1])
  }

  /** Where `InsertByStart` puts `x`: after the trailing elements whose
      start is greater than `x.start`. */
  function InsertPos(s: seq<RegionInfo>, x: RegionInfo): (k: nat)
    ensures k <= |s|
    decreases |s|
  {
    if |s| == 0 then 0
    else if s[|s| - 1].start <= x.start then |s|
    else InsertPos(s[..|s| - 1], x)
  }

  /** `InsertByStart` splices `x` in at `InsertPos`: every element after it
      starts later than `x`, and on a sorted list every element before it
      starts no later. */
  lemma {:induction false} InsertPosSpec(s: seq<RegionInfo>, x: RegionInfo)
    ensures InsertByStart(s, x) == s[..InsertPos(s, x)] + [x] + s[InsertPos(s, x)..]
    ensures forall i :: InsertPos(s, x) <= i < |s| ==> s[i].start > x.start
    ensures SortedByStart(s) ==> forall i :: 0 <= i < InsertPos(s, x) ==> s[i].start <= x.start
    decreases |s|
  {
    if |s| > 0 && s[|s| - 1].start > x.start {
      var init := s[..|s| - 1];
      InsertPosSpec(init, x);
      var k := InsertPos(s, x);
      assert init[..k] == s[..k];
      assert init[k..] + [s[|s| - 1]] == s[k..];
      forall i | k <= i < |s| ensures s[i].start > x.start {
        if i < |s| - 1 { assert s[i] == init[i]; }
      }
      if SortedByStart(s) {
        assert SortedByStart(init);
        forall i | 0 <= i < k ensures s[i].start <= x.start {
          assert s[i] == init[i];
        }
      }
    } else if |s| > 0 {
      assert s[..|s|] == s;
    }
  }

  /** The elements of `s` with `x` spliced in at `k`, by position. */
  lemma SpliceAt(s: seq<RegionInfo>, x: RegionInfo, k: nat)
    requires k <= |s|
    ensures var t := s[..k] + [x] + s[k..];
      && |t| == |s| + 1
      && (forall i :: 0 <= i < k ==> t[i] == s[i])
      && t[k] == x
      && (forall i :: k < i < |t| ==> t[i] == s[i - 1])
      && multiset(t) == multiset(s) + multiset{x}
  {
    assert s == s[..k] + s[k..];
  }

  /** Inserting adds exactly `x`. */
  lemma InsertByStartPerm(s: seq<RegionInfo>, x: RegionInfo)
    ensures multiset(InsertByStart(s, x)) == multiset(s) + multiset{x}
  {
    InsertPosSpec(s, x);
    SpliceAt(s, x, InsertPos(s, x));
  }

  /** Inserting adds exactly `x` and keeps a sorted list sorted. */
  lemma InsertByStartSpec(s: seq<RegionInfo>, x: RegionInfo)
    ensures multiset(InsertByStart(s, x)) == multiset(s) + multiset{x}
    ensures SortedByStart(s) ==> SortedByStart(InsertByStart(s, x))
  {
    InsertPosSpec(s, x);
    var k := InsertPos(s, x);
    SpliceAt(s, x, k);
    var r := InsertByStart(s, x);
    if SortedByStart(s) {
      forall i, j | 0 <= i < j < |r| ensures r[i].start <= r[j].start {
        var a := if i < k then s[i] else if i == k then x else s[i - 1];
        var b := if j < k then s[j] else if j == k then x else s[j - 1];
        assert r[i] == a && r[j] == b;
      }
    }
  }

  /** The sort returns a permutation of its input. */
  lemma {:induction false} SortByStartPerm(s: seq<RegionInfo>)
    ensures multiset(SortByStart(s)) == multiset(s)
    decreases |s|
  {
    if |s| > 0 {
      var init, last := s[..|s| - 1], s[|s| - 1];
      SortByStartPerm(init);
      InsertByStartPerm(SortByStart(init), last);
      assert s == init + [last];
    }
  }

  /** The sort returns a list sorted by start address. */
  lemma {:induction false} SortByStartSorted(s: seq<RegionInfo>)
    ensures SortedByStart(SortByStart(s))
    decreases |s|
  {
    if |s| > 0 {
      var init := s[..|s| - 1];
      SortByStartSorted(init);
      InsertByStartSpec(SortByStart(init), s[|s| - 1]);
    }
  }

  /** The sort returns a sorted permutation of its input. */
  lemma SortByStartSpec(s: seq<RegionInfo>)
    ensures multiset(SortByStart(s)) == multiset(s)
    ensures SortedByStart(SortByStart(s))
  {
    SortByStartPerm(s);
    SortByStartSorted(s);
  }

  /** Sorting an already sorted list leaves it as it is. */
  lemma {:induction false} SortSortedIdentity(s: seq<RegionInfo>)
    requires SortedByStart(s)
    ensures SortByStart(s) == s
    decreases |s|
  {
    if |s| > 0 {
      var init := s[..|s| - 1];
      var last := s[|s| - 1];
      assert SortedByStart(init);
      SortSortedIdentity(init);
      assert s == init + [last];
      if |init| > 0 {
        assert init[|init| - 1].start <= last.start;
      }
      assert InsertPos(init, last) == |init|;
      InsertPosSpec(init, last);
      assert init[..|init|] == init;
      assert SortByStart(s) == InsertByStart(init, last);
    }
  }

  /** Pushing `x` onto a sorted list and sorting it puts `x` at `InsertPos`. */
  lemma PushSort(s: seq<RegionInfo>, x: RegionInfo)
    requires SortedByStart(s)
    ensures SortByStart(s + [x]) == s[..InsertPos(s, x)] + [x] + s[InsertPos(s, x)..]
  {
    assert (s + [x])[..|s|] == s;
    SortSortedIdentity(s);
    InsertPosSpec(s, x);
  }

  /** A list holding the same elements as a list of well-formed regions
      holds only well-formed regions. */
  lemma SameElementsWellFormed(s: seq<RegionInfo>, r: seq<RegionInfo>)
    requires AllWellFormed(s) && multiset(r) == multiset(s)
    ensures AllWellFormed(r)
  {
    forall i | 0 <= i < |r| ensures WellFormed(r[i]) {
      assert r[i] in multiset(r);
      assert r[i] in s;
    }
  }

  /** `is_dirty_tracking_enabled`: every region has a bitmap (so an empty
      collection tracks). */
  function IsDirtyTrackingEnabled(rs: seq<RegionInfo>): (b: bool)
    ensures b <==> forall i :: 0 <= i < |rs| ==> rs[i].hasBitmap
    decreases |rs|
  {
    |rs| == 0 || (rs[0].hasBitmap && IsDirtyTrackingEnabled(rs[1..]))
  }

  /** The region `insert_region` adds: with a bitmap exactly when the
      collection tracks dirty pages. */
  function Tracked(rs: seq<RegionInfo>, region: RegionInfo): RegionInfo {
    region.(hasBitmap := IsDirtyTrackingEnabled(rs))
  }

  /** `insert_region`: a new collection holding the old regions and
      `region`, sorted by start and validated. */
  function InsertRegion(rs: seq<RegionInfo>, region: RegionInfo): Result<seq<RegionInfo>>
    requires AllWellFormed(rs) && WellFormed(region)
  {
    var pushed := rs + [Tracked(rs, region)];
    assert AllWellFormed(pushed);
    SortByStartSpec(pushed);
    SameElementsWellFormed(pushed, SortByStart(pushed));
    Validate(SortByStart(pushed))
  }

  /** Inserting never reports unsorted regions nor an empty collection. */
  lemma InsertNeverUnsorted(rs: seq<RegionInfo>, region: RegionInfo)
    requires AllWellFormed(rs) && WellFormed(region)
    ensures InsertRegion(rs, region) != Err(UnsortedMemoryRegions)
    ensures InsertRegion(rs, region) != Err(NoMemoryRegion)
  {
    var pushed := rs + [Tracked(rs, region)];
    var sorted := SortByStart(pushed);
    assert AllWellFormed(pushed);
    SortByStartSpec(pushed);
    SameElementsWellFormed(pushed, sorted);
    ScanPairsSpec(sorted, 0);
  }

  /** `x` placed at `k` in a valid list, where every earlier region starts
      no later than `x` and every later one starts after it. */
  predicate SplicePoint(rs: seq<RegionInfo>, x: RegionInfo, k: nat) {
    && k <= |rs|
    && (forall i :: 0 <= i < k ==> rs[i].start <= x.start)
    && (forall i :: k <= i < |rs| ==> rs[i].start > x.start)
  }

  lemma SpliceWellFormed(rs: seq<RegionInfo>, x: RegionInfo, k: nat)
    requires AllWellFormed(rs) && WellFormed(x) && k <= |rs|
    ensures AllWellFormed(rs[..k] + [x] + rs[k..])
  {
    var t := rs[..k] + [x] + rs[k..];
    forall i | 0 <= i < |t| ensures WellFormed(t[i]) {
      if i < k { assert t[i] == rs[i]; }
      else if i > k { assert t[i] == rs[i - 1]; }
    }
  }

  /** Splicing a region disjoint from all others keeps the list valid. */
  lemma {:induction false} SpliceDisjointValid(rs: seq<RegionInfo>, x: RegionInfo, k: nat)
    requires Valid(rs) && WellFormed(x) && SplicePoint(rs, x, k)
    requires forall i :: 0 <= i < |rs| ==> !Overlap(rs[i], x)
    ensures Valid(rs[..k] + [x] + rs[k..])
  {
    var t := rs[..k] + [x] + rs[k..];
    SpliceWellFormed(rs, x, k);
    forall j: nat | j + 1 < |t| ensures PairOk(t, j) {
      if j + 1 < k {
        assert t[j] == rs[j] && t[j + 1] == rs[j + 1];
        assert PairOk(rs, j);
      } else if j + 1 == k {
        assert t[j] == rs[j] && t[j + 1] == x;
        assert !Overlap(rs[j], x);
      } else if j == k {
        assert t[j] == x && t[j + 1] == rs[k];
        assert !Overlap(rs[k], x);
      } else {
        assert t[j] == rs[j - 1] && t[j + 1] == rs[j];
        assert PairOk(rs, j - 1);
      }
    }
  }

  /** Splicing a region that overlaps another breaks validity. */
  lemma {:induction false} SpliceOverlapInvalid(rs: seq<RegionInfo>, x: RegionInfo, k: nat, i: nat)
    requires Valid(rs) && WellFormed(x) && SplicePoint(rs, x, k)
    requires i < |rs| && Overlap(rs[i], x)
    ensures !Valid(rs[..k] + [x] + rs[k..])
  {
    var t := rs[..k] + [x] + rs[k..];
    SpliceWellFormed(rs, x, k);
    if i < k {
      if i + 1 < k {
        ValidPairwise(rs, i, k - 1);
      }
      assert t[k - 1] == rs[k - 1] && t[k] == x;
      assert !PairOk(t, k - 1);
    } else {
      if i > k {
        ValidPairwise(rs, k, i);
      }
      assert t[k] == x && t[k + 1] == rs[k];
      assert !PairOk(t, k);
    }
  }

  /** On a valid collection, `insert_region` succeeds exactly when `region`
      overlaps no existing region; the result is the old list with the
      tracked region at its sorted place, and is valid again. */
  lemma {:induction false} InsertRegionSpec(rs: seq<RegionInfo>, region: RegionInfo)
    requires Valid(rs) && WellFormed(region)
    ensures InsertRegion(rs, region).Ok? <==>
            forall i :: 0 <= i < |rs| ==> !Overlap(rs[i], region)
    ensures InsertRegion(rs, region).Err? ==> InsertRegion(rs, region) == Err(MemoryRegionOverlap)
    ensures InsertRegion(rs, region).Ok? ==>
            var k := InsertPos(rs, Tracked(rs, region));
            && InsertRegion(rs, region).value == rs[..k] + [Tracked(rs, region)] + rs[k..]
            && Valid(InsertRegion(rs, region).value)
  {
    var x := Tracked(rs, region);
    ValidDisjointSorted(rs);
    PushSort(rs, x);
    InsertPosSpec(rs, x);
    var k := InsertPos(rs, x);
    var t := rs[..k] + [x] + rs[k..];
    assert SplicePoint(rs, x, k);
    SpliceWellFormed(rs, x, k);
    ValidateOk(t);
    InsertNeverUnsorted(rs, region);
    if forall i :: 0 <= i < |rs| ==> !Overlap(rs[i], region) {
      SpliceDisjointValid(rs, x, k);
    } else {
      var i :| 0 <= i < |rs| && Overlap(rs[i], region);
      SpliceOverlapInvalid(rs, x, k, i);
    }
  }

  // ---- binary search by start address ----

  /** Outcome of `binary_search_by_key`: the index of a match, or where the
      key would be inserted. */
  datatype SearchResult = Found(index: nat) | NotFound(insertAt: nat)

  /** `binary_search_by_key(key, start_addr)` on `rs[lo..hi]`: halves the
      range until the key is met or the range is empty. */
  function SearchByStart(rs: seq<RegionInfo>, key: nat, lo: nat, hi: nat): (r: SearchResult)
    requires lo <= hi <= |rs| && SortedByStart(rs)
    ensures r.Found? ==> lo <= r.index < hi && rs[r.index].start == key
    ensures r.NotFound? ==> lo <= r.insertAt <= hi
    ensures r.NotFound? ==> forall i :: lo <= i < r.insertAt ==> rs[i].start < key
    ensures r.NotFound? ==> forall i :: r.insertAt <= i < hi ==> rs[i].start > key
    decreases hi - lo
  {
    if lo >= hi then NotFound(lo)
    else
      var mid := lo + (hi - lo) / 2;
      if rs[mid].start < key then SearchByStart(rs, key, mid + 1, hi)
      else if rs[mid].start > key then SearchByStart(rs, key, lo, mid)
      else Found(mid)
  }

  /** The search over the whole list. */
  function Search(rs: seq<RegionInfo>, key: nat): (r: SearchResult)
    requires SortedByStart(rs)
  {
    SearchByStart(rs, key, 0, |rs|)
  }

  /** In a valid collection the search finds a start exactly when some
      region starts there, and then finds that region. */
  lemma SearchFindsStart(rs: seq<RegionInfo>, key: nat)
    requires Valid(rs)
    ensures SortedByStart(rs)
    ensures Search(rs, key).Found? <==> exists i :: 0 <= i < |rs| && rs[i].start == key
    ensures forall i :: 0 <= i < |rs| && rs[i].start == key ==> Search(rs, key) == Found(i)
  {
    ValidDisjointSorted(rs);
    forall i | 0 <= i < |rs| && rs[i].start == key ensures Search(rs, key) == Found(i) {
      var j := Search(rs, key).index;
      if j < i { ValidPairwise(rs, j, i); }
      if i < j { ValidPairwise(rs, i, j); }
    }
  }

  // ---- find_region ----

  /** `find_region`: the index of the region holding `addr`. An exact start
      match wins; otherwise the region just before the insertion point holds
      `addr` when `addr` is not past its last address. */
  function FindRegion(rs: seq<RegionInfo>, addr: nat): (r: Option<nat>)
    requires Valid(rs)
    ensures r.Some? ==> r.value < |rs| && Contains(rs[r.value], addr)
    ensures r.None? <==> forall i :: 0 <= i < |rs| ==> !Contains(rs[i], addr)
  {
    ValidDisjointSorted(rs);
    match Search(rs, addr)
    case Found(i) => Some(i)
    case NotFound(x) =>
      if x > 0 && addr <= Last(rs[x - 1]) then Some(x - 1)
      else
        assert forall i :: 0 <= i < |rs| ==> !Contains(rs[i], addr) by {
          forall i | 0 <= i < |rs| ensures !Contains(rs[i], addr) {
            if i + 1 < x { ValidPairwise(rs, i, x - 1); }
          }
        }
        None
  }

  /** At most one region of a valid collection holds an address, so
      `find_region` returns the one that does. */
  lemma FindRegionUnique(rs: seq<RegionInfo>, addr: nat, i: nat)
    requires Valid(rs) && i < |rs| && Contains(rs[i], addr)
    ensures FindRegion(rs, addr) == Some(i)
  {
    var j := FindRegion(rs, addr).value;
    if j < i { ValidPairwise(rs, j, i); }
    if i < j { ValidPairwise(rs, i, j); }
  }

  /** Reference lookup: the first region of `rs[k..]` holding `addr`, by a
      plain scan. */
  function RegionHolding(rs: seq<RegionInfo>, addr: nat, k: nat): (r: Option<nat>)
    requires AllWellFormed(rs) && k <= |rs|
    ensures r.Some? ==> k <= r.value < |rs| && Contains(rs[r.value], addr)
    ensures r.None? <==> forall i :: k <= i < |rs| ==> !Contains(rs[i], addr)
    decreases |rs| - k
  {
    if k == |rs| then None
    else if Contains(rs[k], addr) then Some(k)
    else RegionHolding(rs, addr, k + 1)
  }

  /** The binary-search lookup of `find_region` agrees with the plain scan. */
  lemma FindRegionIsScan(rs: seq<RegionInfo>, addr: nat)
    requires Valid(rs)
    ensures FindRegion(rs, addr) == RegionHolding(rs, addr, 0)
  {
    var scan := RegionHolding(rs, addr, 0);
    if scan.Some? {
      FindRegionUnique(rs, addr, scan.value);
    }
  }

  // ---- remove_region ----

  /** A successful removal: the new collection and the detached region. */
  datatype Removal = Removal(regions: seq<RegionInfo>, removed: RegionInfo)

  /** `remove_region(base, size)`: finds the region starting at `base` by
      binary search and removes it when its length is `size`. */
  function RemoveRegion(rs: seq<RegionInfo>, base: nat, size: nat): Result<Removal>
    requires Valid(rs)
  {
    ValidDisjointSorted(rs);
    match Search(rs, base)
    case Found(i) =>
      if rs[i].len == size then Ok(Removal(rs[..i] + rs[i + 1..], rs[i]))
      else Err(InvalidGuestRegion)
    case NotFound(_) => Err(InvalidGuestRegion)
  }

  /** Removing from a valid list leaves a valid list. */
  lemma {:induction false} RemoveKeepsValid(rs: seq<RegionInfo>, i: nat)
    requires Valid(rs) && i < |rs|
    ensures Valid(rs[..i] + rs[i + 1..])
  {
    var t := rs[..i] + rs[i + 1..];
    forall j | 0 <= j < |t| ensures t[j] == (if j < i then rs[j] else rs[j + 1]) {}
    forall j: nat | j + 1 < |t| ensures PairOk(t, j) {
      if j + 1 < i {
        assert PairOk(rs, j);
      } else if j + 1 == i {
        ValidPairwise(rs, j, i + 1);
      } else {
        assert PairOk(rs, j + 1);
      }
    }
  }

  /** On a valid collection `remove_region(base, size)` succeeds exactly
      when some region starts at `base` with length `size` (a matching base
      with another size fails); it returns that region and the list without
      it, in order, which is valid again. */
  lemma RemoveRegionSpec(rs: seq<RegionInfo>, base: nat, size: nat)
    requires Valid(rs)
    ensures RemoveRegion(rs, base, size).Ok? <==>
            exists i :: 0 <= i < |rs| && rs[i].start == base && rs[i].len == size
    ensures RemoveRegion(rs, base, size).Err? ==>
            RemoveRegion(rs, base, size).error == InvalidGuestRegion
    ensures forall i :: 0 <= i < |rs| && rs[i].start == base && rs[i].len == size ==>
            && RemoveRegion(rs, base, size) == Ok(Removal(rs[..i] + rs[i + 1..], rs[i]))
            && Valid(rs[..i] + rs[i + 1..])
  {
    SearchFindsStart(rs, base);
    forall i | 0 <= i < |rs| && rs[i].start == base && rs[i].len == size
      ensures Valid(rs[..i] + rs[i + 1..])
    {
      RemoveKeepsValid(rs, i);
    }
  }

  /** Removing a just-inserted region by its base and size gives back the
      original list, and the region as it was inserted. */
  lemma InsertThenRemove(rs: seq<RegionInfo>, region: RegionInfo)
    requires Valid(rs) && WellFormed(region)
    requires InsertRegion(rs, region).Ok?
    ensures Valid(InsertRegion(rs, region).value)
    ensures RemoveRegion(InsertRegion(rs, region).value, region.start, region.len)
            == Ok(Removal(rs, Tracked(rs, region)))
  {
    InsertRegionSpec(rs, region);
    var x := Tracked(rs, region);
    var k := InsertPos(rs, x);
    var t := rs[..k] + [x] + rs[k..];
    assert t[k] == x;
    assert t[..k] + t[k + 1..] == rs;
    RemoveRegionSpec(t, region.start, region.len);
  }
}
