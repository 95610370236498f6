/** Building a `GuestMemoryMmap` from address ranges, and the in-order
    traversals of its regions (`with_regions`, `map_and_fold`). */
module GuestMemory {
  import opened Types
  import opened Collection

  /** One `(guest_base, size, file_offset)` entry of `from_ranges_with_files`. */
  datatype Range = Range(base: nat, size: nat, fileOffset: Option<nat>)

  /** One region per range, in order, each with a bitmap exactly when
      `track` is set; the first range whose mapping cannot be created, or
      whose end overflows a u64 address, ends the walk with its error.
      Creating the host mapping is abstracted by `mapOk`; a zero-length
      mapping is never created. */
  function BuildRegions(ranges: seq<Range>, track: bool, mapOk: Range -> bool)
    : (r: Result<seq<RegionInfo>>)
    ensures r.Ok? ==> |r.value| == |ranges| && AllWellFormed(r.value)
    ensures r.Ok? ==> forall i :: 0 <= i < |ranges| ==>
              r.value[i] == RegionInfo(ranges[i].base, ranges[i].size, track)
    ensures r.Err? ==> r.error == MmapRegionFailure || r.error == InvalidGuestRegion
    decreases |ranges|
  {
    if |ranges| == 0 then Ok([])
    else
      var g := ranges[0];
      if g.size == 0 || !mapOk(g) then Err(MmapRegionFailure)
      else if CheckedAdd(g.base, g.size).None? then Err(InvalidGuestRegion)
      else match BuildRegions(ranges[1..], track, mapOk)
        case Err(e) => Err(e)
        case Ok(rest) => Ok([RegionInfo(g.base, g.size, track)] + rest)
  }

  /** A range `BuildRegions` turns into a region: its mapping can be
      created and its end fits a u64 address. */
  predicate RangeOk(g: Range, mapOk: Range -> bool) {
    g.size > 0 && mapOk(g) && g.base + g.size <= U64_MAX
  }

  /** The error a range that is not `RangeOk` stops the walk with. */
  function RangeError(g: Range, mapOk: Range -> bool): Error {
    if g.size == 0 || !mapOk(g) then MmapRegionFailure else InvalidGuestRegion
  }

  /** Building succeeds exactly when every range is `RangeOk`, and
      otherwise fails with the error of the first range that is not. */
  lemma {:induction false} BuildRegionsOutcome(ranges: seq<Range>, track: bool, mapOk: Range -> bool)
    ensures BuildRegions(ranges, track, mapOk).Ok? <==>
      forall i :: 0 <= i < |ranges| ==> RangeOk(ranges[i], mapOk)
    ensures BuildRegions(ranges, track, mapOk).Err? ==>
      exists k :: && 0 <= k < |ranges|
                  && !RangeOk(ranges[k], mapOk)
                  && (forall j :: 0 <= j < k ==> RangeOk(ranges[j], mapOk))
                  && BuildRegions(ranges, track, mapOk).error == RangeError(ranges[k], mapOk)
    decreases |ranges|
  {
    if |ranges| > 0 && RangeOk(ranges[0], mapOk) {
      var tail := ranges[1..];
      BuildRegionsOutcome(tail, track, mapOk);
      assert forall i :: 1 <= i < |ranges| ==> ranges[i] == tail[i - 1];
      if BuildRegions(tail, track, mapOk).Err? {
        var k :| && 0 <= k < |tail|
                 && !RangeOk(tail[k], mapOk)
                 && (forall j :: 0 <= j < k ==> RangeOk(tail[j], mapOk))
                 && BuildRegions(tail, track, mapOk).error == RangeError(tail[k], mapOk);
        assert ranges[k + 1] == tail[k];
      }
    }
  }

  /** `from_ranges_with_files`: builds the regions, then validates them
      as `from_regions` does. */
  function FromRangesWithFiles(ranges: seq<Range>, track: bool, mapOk: Range -> bool)
    : Result<seq<RegionInfo>>
  {
    match BuildRegions(ranges, track, mapOk)
    case Err(e) => Err(e)
    case Ok(rs) => Validate(rs)
  }

  /** A collection built from ranges has one region per range, in the given
      order, is valid, and tracks dirty pages exactly when asked to. */
  lemma FromRangesSpec(ranges: seq<Range>, track: bool, mapOk: Range -> bool)
    ensures FromRangesWithFiles(ranges, track, mapOk).Ok? ==>
      var rs := FromRangesWithFiles(ranges, track, mapOk).value;
      && |rs| == |ranges| > 0
      && Valid(rs)
      && (forall i :: 0 <= i < |rs| ==> rs[i].start == ranges[i].base && rs[i].len == ranges[i].size)
      && IsDirtyTrackingEnabled(rs) == track
    ensures FromRangesWithFiles(ranges, track, mapOk).Ok? <==>
      && |ranges| > 0
      && BuildRegions(ranges, track, mapOk).Ok?
      && Valid(BuildRegions(ranges, track, mapOk).value)
    ensures BuildRegions(ranges, track, mapOk).Err? ==>
      FromRangesWithFiles(ranges, track, mapOk) == Err(BuildRegions(ranges, track, mapOk).error)
    ensures |ranges| == 0 ==> FromRangesWithFiles(ranges, track, mapOk) == Err(NoMemoryRegion)
  {
    var b := BuildRegions(ranges, track, mapOk);
    if b.Ok? {
      ValidateOk(b.value);
      if |ranges| > 0 {
        assert b.value[0].hasBitmap == track;
      }
    }
  }

  // ---- traversal ----

  /** Outcome of a per-region callback. */
  datatype Outcome<E> = Pass | Fail(error: E)

  /** `with_regions` (and `with_regions_mut`, the same loop): calls `cb` on
      each `(index, region)` in order and stops at, and returns, the first
      failure. */
  method WithRegions<E>(rs: seq<RegionInfo>, cb: (nat, RegionInfo) -> Outcome<E>)
    returns (r: Outcome<E>)
    ensures r.Pass? <==> forall i :: 0 <= i < |rs| ==> cb(i, rs[i]).Pass?
    ensures r.Fail? ==> exists k :: 0 <= k < |rs| && cb(k, rs[k]) == r &&
                                  forall j :: 0 <= j < k ==> cb(j, rs[j]).Pass?
  {
    var index := 0;
    while index < |rs|
      invariant 0 <= index <= |rs|
      invariant forall j :: 0 <= j < index ==> cb(j, rs[j]).Pass?
    {
      var res := cb(index, rs[index]);
      if res.Fail? {
        return res;
      }
      index := index + 1;
    }
    r := Pass;
  }

  /** The left fold `map_and_fold` runs from position `i` with accumulator `acc`. */
  function FoldFrom<T>(rs: seq<RegionInfo>, i: nat, acc: T,
                       mapf: (nat, RegionInfo) -> T, foldf: (T, T) -> T): T
    requires i <= |rs|
    decreases |rs| - i
  {
    if i == |rs| then acc else FoldFrom(rs, i + 1, foldf(acc, mapf(i, rs[i])), mapf, foldf)
  }

  /** `map_and_fold`: maps every `(index, region)` and folds the results
      from the left, starting from `init`. */
  function MapAndFold<T>(rs: seq<RegionInfo>, init: T,
                         mapf: (nat, RegionInfo) -> T, foldf: (T, T) -> T): T
  {
    FoldFrom(rs, 0, init, mapf, foldf)
  }

  /** Folding a prefix and then one more region. */
  lemma {:induction false} FoldFromSnoc<T>(rs: seq<RegionInfo>, x: RegionInfo, i: nat, acc: T,
                                           mapf: (nat, RegionInfo) -> T, foldf: (T, T) -> T)
    requires i <= |rs|
    ensures FoldFrom(rs + [x], i, acc, mapf, foldf)
         == foldf(FoldFrom(rs, i, acc, mapf, foldf), mapf(|rs|, x))
    decreases |rs| - i
  {
    if i < |rs| {
      assert (rs + [x])[i] == rs[i];
      FoldFromSnoc(rs, x, i + 1, foldf(acc, mapf(i, rs[i])), mapf, foldf);
    }
  }

  /** `map_and_fold` is a left fold: the last region's mapped value is
      combined last, and an empty collection gives `init`. */
  lemma MapAndFoldLeft<T>(rs: seq<RegionInfo>, x: RegionInfo, init: T,
                          mapf: (nat, RegionInfo) -> T, foldf: (T, T) -> T)
    ensures MapAndFold([], init, mapf, foldf) == init
    ensures MapAndFold(rs + [x], init, mapf, foldf)
         == foldf(MapAndFold(rs, init, mapf, foldf), mapf(|rs|, x))
  {
    FoldFromSnoc(rs, x, 0, init, mapf, foldf);
  }

  /** Sum of the region lengths. */
  function TotalLen(rs: seq<RegionInfo>): nat {
    if |rs| == 0 then 0 else TotalLen(rs[..|rs| - 1]) + rs[|rs| - 1].len
  }

  /** The typical use: folding the lengths with `+` gives the total size. */
  lemma {:induction false} MapAndFoldTotalSize(rs: seq<RegionInfo>)
    ensures MapAndFold(rs, 0, (i: nat, r: RegionInfo) => r.len, (a: int, b: int) => a + b)
         == TotalLen(rs)
    decreases |rs|
  {
    if |rs| > 0 {
      var init := rs[..|rs| - 1];
      assert rs == init + [rs[|rs| - 1]];
      MapAndFoldTotalSize(init);
      MapAndFoldLeft(init, rs[|rs| - 1], 0, (i: nat, r: RegionInfo) => r.len, (a: int, b: int) => a + b);
    }
  }
}
