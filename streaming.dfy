/** The streaming reads of `GuestMemoryMmap` (`read_from`,
    `read_exact_from`): a transfer from a byte source into guest memory that
    may span several regions, one chunk at a time.

    The region walk is the upstream `try_access` default: find the region
    holding the current address, offer the callback
    `min(remaining, region.len - offset)` bytes at that offset, stop when the
    callback reports 0 bytes or an error, and otherwise advance; when no
    region holds the current address the walk ends, with
    `InvalidGuestAddress(addr)` if nothing was transferred at all. */
module Streaming {
  import opened Types
  import opened Volatile
  import opened Region
  import opened Collection
  import opened Bitmap

  /** The largest transfer one callback performs. */
  const MAX_ACCESS_CHUNK: nat := 4096

  /** What the structural operations see of a region object. */
  function InfoOf(region: GuestRegionMmap): RegionInfo
    reads region
  {
    RegionInfo(region.guestBase, region.mapping.Length, region.dirtyBitmap.Some?)
  }

  /** The collection layout of a list of region objects. */
  function Layout(regions: seq<GuestRegionMmap>): (l: seq<RegionInfo>)
    reads set region | region in regions
    ensures |l| == |regions|
    ensures forall i :: 0 <= i < |regions| ==> l[i] == InfoOf(regions[i])
  {
    seq(|regions|, i reads set region | region in regions
                     requires 0 <= i < |regions| => InfoOf(regions[i]))
  }

  /** The region objects still match the layout `layout`. */
  predicate Mirrors(regions: seq<GuestRegionMmap>, layout: seq<RegionInfo>)
    reads set region | region in regions
  {
    |regions| == |layout| && forall i :: 0 <= i < |regions| ==> InfoOf(regions[i]) == layout[i]
  }

  /** Every region object keeps its invariant. */
  ghost predicate AllValid(regions: seq<GuestRegionMmap>)
    reads set region | region in regions
  {
    forall i :: 0 <= i < |regions| ==> regions[i].Valid()
  }

  /** Mirroring a layout means having it as the layout. */
  lemma MirrorsLayout(regions: seq<GuestRegionMmap>, layout: seq<RegionInfo>)
    requires Mirrors(regions, layout)
    ensures Layout(regions) == layout
  {
  }

  /** One chunk the walk copies: region index, offset in it, bytes. */
  datatype Chunk = Chunk(region: nat, offset: nat, data: seq<Byte>)

  /** No two region objects share a host mapping: each region owns its
      own, as each `GuestRegionMmap` owns its `MmapRegion`. */
  predicate OwnMappings(regions: seq<GuestRegionMmap>) {
    forall i, j :: 0 <= i < j < |regions| ==> regions[i].mapping != regions[j].mapping
  }

  /** Regions of a valid layout are distinct objects: two entries for one
      object would overlap. */
  lemma DistinctRegions(regions: seq<GuestRegionMmap>, layout: seq<RegionInfo>)
    requires Mirrors(regions, layout) && Valid(layout)
    ensures forall i, j :: 0 <= i < j < |regions| ==> regions[i] != regions[j]
  {
    forall i, j | 0 <= i < j < |regions|
      ensures regions[i] != regions[j]
    {
      ValidPairwise(layout, i, j);
    }
  }

  /** What the streaming reads change of a region, as a value: its bytes,
      its dirty pages, and the page size they are counted in. */
  datatype RegionState = RegionState(mem: seq<Byte>, dirty: Option<set<nat>>, pageSize: nat)

  function StateOf(region: GuestRegionMmap): RegionState
    reads region, region.mapping
  {
    RegionState(region.mapping[..], region.dirtyBitmap, region.pageSize)
  }

  /** The states of a list of region objects. */
  function States(regions: seq<GuestRegionMmap>): (s: seq<RegionState>)
    reads set region | region in regions
    reads set region | region in regions :: region.mapping
    ensures |s| == |regions|
    ensures forall i :: 0 <= i < |regions| ==> s[i] == StateOf(regions[i])
  {
    seq(|regions|, i reads (set region | region in regions), (set region | region in regions :: region.mapping)
                     requires 0 <= i < |regions| => StateOf(regions[i]))
  }

  /** The region objects hold `states`, one for one. */
  ghost predicate Shows(regions: seq<GuestRegionMmap>, states: seq<RegionState>)
    reads set region | region in regions
    reads set region | region in regions :: region.mapping
  {
    |states| == |regions| && forall i :: 0 <= i < |regions| ==> StateOf(regions[i]) == states[i]
  }

  /** The states the region objects hold are their `States`. */
  lemma ShowsStates(regions: seq<GuestRegionMmap>, states: seq<RegionState>)
    requires Shows(regions, states)
    ensures States(regions) == states
  {
  }

  /** Every chunk lands inside a region with a positive page size. */
  predicate Fits(states: seq<RegionState>, chunks: seq<Chunk>) {
    forall j :: 0 <= j < |chunks| ==>
      && chunks[j].region < |states|
      && states[chunks[j].region].pageSize > 0
      && chunks[j].offset + |chunks[j].data| <= |states[chunks[j].region].mem|
  }

  /** Two lists of region states with the same regions: same lengths,
      page sizes and bitmap presence. */
  predicate SameShape(a: seq<RegionState>, b: seq<RegionState>) {
    && |a| == |b|
    && forall i :: 0 <= i < |a| ==>
         && |a[i].mem| == |b[i].mem|
         && a[i].pageSize == b[i].pageSize
         && a[i].dirty.Some? == b[i].dirty.Some?
  }

  /** A region after the region `write` of `data` at `off`. */
  function WriteState(s: RegionState, off: nat, data: seq<Byte>): RegionState
    requires s.pageSize > 0 && off + |data| <= |s.mem|
  {
    RegionState(Overwrite(s.mem, off, data), MarkDirty(s.dirty, off, |data|, s.pageSize), s.pageSize)
  }

  /** The regions after the chunks are written, first to last, each through
      its region's `write`. */
  function Apply(states: seq<RegionState>, chunks: seq<Chunk>): (r: seq<RegionState>)
    requires Fits(states, chunks)
    ensures SameShape(states, r)
    decreases |chunks|
  {
    if |chunks| == 0 then states
    else
      var c := chunks[0];
      Apply(states[c.region := WriteState(states[c.region], c.offset, c.data)], chunks[1..])
  }

  /** Writing two runs of chunks one after the other is writing them all. */
  lemma {:induction false} ApplyAppend(states: seq<RegionState>, a: seq<Chunk>, b: seq<Chunk>)
    requires Fits(states, a) && Fits(Apply(states, a), b)
    ensures Fits(states, a + b)
    ensures Apply(states, a + b) == Apply(Apply(states, a), b)
    decreases |a|
  {
    if |a| == 0 {
      assert a + b == b;
    } else {
      var c := a[0];
      var next := states[c.region := WriteState(states[c.region], c.offset, c.data)];
      assert (a + b)[0] == c && (a + b)[1..] == a[1..] + b;
      ApplyAppend(next, a[1..], b);
    }
  }

  /** A byte no chunk covers keeps its value. */
  lemma {:induction false} ApplyUntouched(states: seq<RegionState>, chunks: seq<Chunk>, i: nat, b: nat)
    requires Fits(states, chunks) && i < |states| && b < |states[i].mem|
    requires forall j :: 0 <= j < |chunks| && chunks[j].region == i ==>
               !(chunks[j].offset <= b < chunks[j].offset + |chunks[j].data|)
    ensures Apply(states, chunks)[i].mem[b] == states[i].mem[b]
    decreases |chunks|
  {
    if |chunks| > 0 {
      var c := chunks[0];
      var next := states[c.region := WriteState(states[c.region], c.offset, c.data)];
      assert next[i].mem[b] == states[i].mem[b];
      ApplyUntouched(next, chunks[1..], i, b);
    }
  }

  /** After the chunks are written a region's bitmap holds exactly the
      pages it held before and the pages of the chunks written to it. */
  lemma {:induction false} ApplyDirty(states: seq<RegionState>, chunks: seq<Chunk>, i: nat, p: nat)
    requires Fits(states, chunks) && i < |states| && states[i].dirty.Some?
    ensures p in Apply(states, chunks)[i].dirty.value <==>
              || p in states[i].dirty.value
              || exists c :: c in chunks && c.region == i && p in PagesOf(c.offset, |c.data|, states[i].pageSize)
    decreases |chunks|
  {
    if |chunks| > 0 {
      var c := chunks[0];
      var next := states[c.region := WriteState(states[c.region], c.offset, c.data)];
      ApplyDirty(next, chunks[1..], i, p);
      assert forall d :: d in chunks <==> d == c || d in chunks[1..];
    }
  }

  /** Result of the walk: its count or error, the chunks copied in order,
      and the source script left afterwards. */
  datatype Access = Access(res: Result<nat>, chunks: seq<Chunk>, rest: seq<ReadOutcome>)

  /** Sum of the chunk sizes. */
  function ChunkBytes(chunks: seq<Chunk>): nat {
    if |chunks| == 0 then 0 else |chunks[0].data| + ChunkBytes(chunks[1..])
  }

  /** What one `try_access` iteration offers its callback at `cur`: the
      region holding `cur`, the offset of `cur` in it, and
      `min(remaining, region.len - offset)` bytes; or no region at all. */
  datatype Offer = NoRegion | Offer(region: nat, offset: nat, len: nat)

  function OfferAt(rs: seq<RegionInfo>, cur: nat, remaining: nat): (o: Offer)
    requires AllWellFormed(rs)
    ensures o.NoRegion? <==> forall i :: 0 <= i < |rs| ==> !Contains(rs[i], cur)
    ensures o.Offer? ==> && o.region < |rs|
                         && rs[o.region].start + o.offset == cur
                         && o.offset < rs[o.region].len
                         && o.offset + o.len <= rs[o.region].len
                         && o.len <= remaining
                         && (o.len == remaining || o.offset + o.len == rs[o.region].len)
  {
    match RegionHolding(rs, cur, 0)
    case None => NoRegion
    case Some(i) =>
      var off := cur - rs[i].start;
      Offer(i, off, Min(remaining, rs[i].len - off))
  }

  /** No offer where `find_region` finds no region. */
  lemma OfferAtNone(rs: seq<RegionInfo>, cur: nat, remaining: nat)
    requires Valid(rs) && FindRegion(rs, cur).None?
    ensures OfferAt(rs, cur, remaining) == NoRegion
  {
    FindRegionIsScan(rs, cur);
  }

  /** The offer is made on the region `find_region` returns, at the offset
      of `cur` in it. */
  lemma OfferAtFound(rs: seq<RegionInfo>, cur: nat, remaining: nat, i: nat, start: nat, len: nat)
    requires Valid(rs) && FindRegion(rs, cur) == Some(i)
    requires i < |rs| && rs[i].start == start && rs[i].len == len
    ensures start <= cur < start + len
    ensures OfferAt(rs, cur, remaining) == Offer(i, cur - start, Min(remaining, len - (cur - start)))
  {
    FindRegionIsScan(rs, cur);
  }

  /** One `try_access` lookup: `find_region` at `cur`, then the offset of
      `cur` in the region found and the length the callback is offered. */
  method Locate(rs: seq<RegionInfo>, cur: nat, remaining: nat) returns (o: Offer)
    requires Valid(rs)
    ensures o == OfferAt(rs, cur, remaining)
  {
    var found := FindRegion(rs, cur);
    if found.None? {
      OfferAtNone(rs, cur, remaining);
      return NoRegion;
    }
    var i := found.value;
    OfferAtFound(rs, cur, remaining, i, rs[i].start, rs[i].len);
    var off := cur - rs[i].start;
    o := Offer(i, off, Min(remaining, rs[i].len - off));
  }

  /** `read_from` as `try_access` runs it, `total` bytes in: each callback
      reads at most `min(len, MAX_ACCESS_CHUNK)` bytes from `src` (retrying
      interrupted reads) and writes them at the current address. */
  function TryAccess(rs: seq<RegionInfo>, addr: nat, src: seq<ReadOutcome>, count: nat, total: nat)
    : Access
    requires AllWellFormed(rs) && total <= count
    decreases count - total
  {
    match OfferAt(rs, addr + total, count - total)
    case NoRegion =>
      if total == 0 then Access(Err(InvalidGuestAddress(addr)), [], src)
      else Access(Ok(total), [], src)
    case Offer(i, off, len) =>
      var step := ReadOnce(src, Min(len, MAX_ACCESS_CHUNK));
      match step.res
      case Err(e) => Access(Err(e), [], step.rest)
      case Ok(bytes) =>
        if |bytes| == 0 then Access(Ok(total), [], step.rest)
        else
          var c := Chunk(i, off, bytes);
          if total + |bytes| == count then Access(Ok(count), [c], step.rest)
          else
            var more := TryAccess(rs, addr, step.rest, count, total + |bytes|);
            Access(more.res, [c] + more.chunks, more.rest)
  }

  /** A successful `read_from` reports a count between what was already
      transferred and `count`, equal to the bytes it copied. */
  lemma {:induction false} TryAccessCount(rs: seq<RegionInfo>, addr: nat, src: seq<ReadOutcome>,
                                          count: nat, total: nat)
    requires AllWellFormed(rs) && total <= count
    ensures var a := TryAccess(rs, addr, src, count, total);
      a.res.Ok? ==> total <= a.res.value <= count && a.res.value == total + ChunkBytes(a.chunks)
    decreases count - total
  {
    match OfferAt(rs, addr + total, count - total)
    case NoRegion =>
    case Offer(i, off, len) =>
      var step := ReadOnce(src, Min(len, MAX_ACCESS_CHUNK));
      if step.res.Ok? && |step.res.value| > 0 {
        var c := Chunk(i, off, step.res.value);
        if total + |step.res.value| == count {
          assert ChunkBytes([c]) == |c.data| + ChunkBytes([]);
        } else {
          var next := total + |step.res.value|;
          TryAccessCount(rs, addr, step.rest, count, next);
          var more := TryAccess(rs, addr, step.rest, count, next);
          assert TryAccess(rs, addr, src, count, total) == Access(more.res, [c] + more.chunks, more.rest);
          assert ([c] + more.chunks)[1..] == more.chunks;
          assert ChunkBytes([c] + more.chunks) == |c.data| + ChunkBytes(more.chunks);
        }
      }
  }

  /** `read_from` fails only with `IOError`, or with
      `InvalidGuestAddress(addr)` when nothing was transferred. */
  lemma {:induction false} TryAccessErrors(rs: seq<RegionInfo>, addr: nat, src: seq<ReadOutcome>,
                                           count: nat, total: nat)
    requires AllWellFormed(rs) && total <= count
    ensures var a := TryAccess(rs, addr, src, count, total);
      a.res.Err? ==> a.res.error == IOError || (a.res.error == InvalidGuestAddress(addr) && total == 0)
    decreases count - total
  {
    match OfferAt(rs, addr + total, count - total)
    case NoRegion =>
    case Offer(i, off, len) =>
      var step := ReadOnce(src, Min(len, MAX_ACCESS_CHUNK));
      if step.res.Ok? && |step.res.value| > 0 && total + |step.res.value| < count {
        var next := total + |step.res.value|;
        TryAccessErrors(rs, addr, step.rest, count, next);
        var more := TryAccess(rs, addr, step.rest, count, next);
        assert TryAccess(rs, addr, src, count, total)
            == Access(more.res, [Chunk(i, off, step.res.value)] + more.chunks, more.rest);
      }
  }

  /** Every chunk `read_from` copies is non-empty, at most
      `MAX_ACCESS_CHUNK` bytes, and inside the region it is written to. */
  lemma {:induction false} TryAccessChunks(rs: seq<RegionInfo>, addr: nat, src: seq<ReadOutcome>,
                                           count: nat, total: nat)
    requires AllWellFormed(rs) && total <= count
    ensures forall c :: c in TryAccess(rs, addr, src, count, total).chunks ==>
              && 0 < |c.data| <= MAX_ACCESS_CHUNK
              && c.region < |rs| && c.offset + |c.data| <= rs[c.region].len
    decreases count - total
  {
    match OfferAt(rs, addr + total, count - total)
    case NoRegion =>
    case Offer(i, off, len) =>
      var step := ReadOnce(src, Min(len, MAX_ACCESS_CHUNK));
      if step.res.Ok? && |step.res.value| > 0 && total + |step.res.value| < count {
        var next := total + |step.res.value|;
        TryAccessChunks(rs, addr, step.rest, count, next);
        var more := TryAccess(rs, addr, step.rest, count, next);
        assert TryAccess(rs, addr, src, count, total)
            == Access(more.res, [Chunk(i, off, step.res.value)] + more.chunks, more.rest);
      }
  }

  /** Guest address of the first byte of a chunk. */
  function GuestStart(rs: seq<RegionInfo>, c: Chunk): nat
    requires c.region < |rs|
  {
    rs[c.region].start + c.offset
  }

  /** The chunks cover consecutive guest addresses, the first starting at
      `from`, each next one where the one before it ends. */
  predicate Consecutive(rs: seq<RegionInfo>, chunks: seq<Chunk>, from: nat)
    decreases |chunks|
  {
    |chunks| == 0 ||
    (chunks[0].region < |rs| && GuestStart(rs, chunks[0]) == from
     && Consecutive(rs, chunks[1..], from + |chunks[0].data|))
  }

  /** Consecutive chunks all start at or after `from`. */
  lemma {:induction false} ConsecutiveAbove(rs: seq<RegionInfo>, chunks: seq<Chunk>, from: nat)
    requires Consecutive(rs, chunks, from)
    ensures forall j :: 0 <= j < |chunks| ==> chunks[j].region < |rs| && GuestStart(rs, chunks[j]) >= from
    decreases |chunks|
  {
    if |chunks| > 0 {
      ConsecutiveAbove(rs, chunks[1..], from + |chunks[0].data|);
      assert forall j :: 1 <= j < |chunks| ==> chunks[j] == chunks[1..][j - 1];
    }
  }

  /** Consecutive chunks never overwrite one another, so after they are
      written every byte of every chunk is in its region. */
  lemma {:induction false} ConsecutiveVisible(rs: seq<RegionInfo>, chunks: seq<Chunk>, from: nat,
                                              states: seq<RegionState>)
    requires Consecutive(rs, chunks, from) && Fits(states, chunks)
    ensures forall j, k :: 0 <= j < |chunks| && 0 <= k < |chunks[j].data| ==>
              Apply(states, chunks)[chunks[j].region].mem[chunks[j].offset + k] == chunks[j].data[k]
    decreases |chunks|
  {
    if |chunks| > 0 {
      var c := chunks[0];
      var stored := states[c.region := WriteState(states[c.region], c.offset, c.data)];
      var more := chunks[1..];
      assert Apply(states, chunks) == Apply(stored, more);
      ConsecutiveVisible(rs, more, from + |c.data|, stored);
      ConsecutiveAbove(rs, more, from + |c.data|);
      forall k | 0 <= k < |c.data|
        ensures Apply(stored, more)[c.region].mem[c.offset + k] == c.data[k]
      {
        ApplyUntouched(stored, more, c.region, c.offset + k);
      }
      assert forall j :: 1 <= j < |chunks| ==> chunks[j] == more[j - 1];
    }
  }

  /** The walk copies to consecutive guest addresses from `addr + total` on. */
  lemma {:induction false} TryAccessContiguous(rs: seq<RegionInfo>, addr: nat, src: seq<ReadOutcome>,
                                               count: nat, total: nat)
    requires AllWellFormed(rs) && total <= count
    ensures Consecutive(rs, TryAccess(rs, addr, src, count, total).chunks, addr + total)
    decreases count - total
  {
    match OfferAt(rs, addr + total, count - total)
    case NoRegion =>
    case Offer(i, off, len) =>
      var step := ReadOnce(src, Min(len, MAX_ACCESS_CHUNK));
      if step.res.Ok? && |step.res.value| > 0 {
        var c := Chunk(i, off, step.res.value);
        var next := total + |step.res.value|;
        if next == count {
          assert TryAccess(rs, addr, src, count, total).chunks == [c];
          assert Consecutive(rs, [c][1..], next);
        } else {
          TryAccessContiguous(rs, addr, step.rest, count, next);
          var more := TryAccess(rs, addr, step.rest, count, next).chunks;
          assert TryAccess(rs, addr, src, count, total).chunks == [c] + more;
          assert ([c] + more)[1..] == more;
        }
      }
  }

  /** Every byte the walk copies is in guest memory afterwards, where a
      later `read` finds it. */
  lemma TryAccessVisible(rs: seq<RegionInfo>, addr: nat, src: seq<ReadOutcome>,
                         count: nat, total: nat, states: seq<RegionState>)
    requires AllWellFormed(rs) && total <= count
    requires Fits(states, TryAccess(rs, addr, src, count, total).chunks)
    ensures var chunks := TryAccess(rs, addr, src, count, total).chunks;
      forall j, k :: 0 <= j < |chunks| && 0 <= k < |chunks[j].data| ==>
        Apply(states, chunks)[chunks[j].region].mem[chunks[j].offset + k] == chunks[j].data[k]
  {
    TryAccessContiguous(rs, addr, src, count, total);
    ConsecutiveVisible(rs, TryAccess(rs, addr, src, count, total).chunks, addr + total, states);
  }

  /** With no region at the current address the walk ends: with
      `InvalidGuestAddress(addr)` if nothing was copied, else with the count
      so far; the source is left untouched. */
  lemma TryAccessNoRegion(rs: seq<RegionInfo>, addr: nat, src: seq<ReadOutcome>, count: nat, total: nat)
    requires AllWellFormed(rs) && total <= count
    requires OfferAt(rs, addr + total, count - total) == NoRegion
    ensures TryAccess(rs, addr, src, count, total).res
         == if total == 0 then Err(InvalidGuestAddress(addr)) else Ok(total)
    ensures TryAccess(rs, addr, src, count, total).rest == src
    ensures TryAccess(rs, addr, src, count, total).chunks == []
  {
  }

  /** The walk ends after a callback that failed, read nothing, or
      completed `count`. */
  lemma TryAccessStops(rs: seq<RegionInfo>, addr: nat, src: seq<ReadOutcome>, count: nat, total: nat,
                       offer: Offer, step: ReadStep)
    requires AllWellFormed(rs) && total <= count
    requires offer.Offer? && OfferAt(rs, addr + total, count - total) == offer
    requires step == ReadOnce(src, Min(offer.len, MAX_ACCESS_CHUNK))
    ensures step.res.Err? ==> TryAccess(rs, addr, src, count, total).res == Err(IOError)
    ensures step.res.Ok? && |step.res.value| == 0 ==> TryAccess(rs, addr, src, count, total).res == Ok(total)
    ensures step.res.Ok? && total + |step.res.value| == count ==>
              TryAccess(rs, addr, src, count, total).res == Ok(count)
    ensures step.res.Err? || |step.res.value| == 0 || total + |step.res.value| == count ==>
              TryAccess(rs, addr, src, count, total).rest == step.rest
    ensures step.res.Err? || |step.res.value| == 0 ==> TryAccess(rs, addr, src, count, total).chunks == []
    ensures step.res.Ok? && 0 < |step.res.value| && total + |step.res.value| == count ==>
              TryAccess(rs, addr, src, count, total).chunks == [Chunk(offer.region, offer.offset, step.res.value)]
  {
  }

  /** One callback that copied a non-empty chunk short of `count` leaves
      the rest of the walk to start from the address after it. */
  lemma TryAccessStep(rs: seq<RegionInfo>, addr: nat, src: seq<ReadOutcome>, count: nat, total: nat,
                      offer: Offer, step: ReadStep, rest: seq<ReadOutcome>, next: nat)
    requires AllWellFormed(rs) && total <= count
    requires offer.Offer? && OfferAt(rs, addr + total, count - total) == offer
    requires step == ReadOnce(src, Min(offer.len, MAX_ACCESS_CHUNK)) && rest == step.rest
    requires step.res.Ok? && 0 < |step.res.value| && next == total + |step.res.value| < count
    ensures TryAccess(rs, addr, src, count, total).res == TryAccess(rs, addr, rest, count, next).res
    ensures TryAccess(rs, addr, src, count, total).rest == TryAccess(rs, addr, rest, count, next).rest
    ensures TryAccess(rs, addr, src, count, total).chunks
         == [Chunk(offer.region, offer.offset, step.res.value)] + TryAccess(rs, addr, rest, count, next).chunks
  {
  }

  /** Interrupted reads ahead of the source are retried and show neither
      in the outcome of `read_from` nor in what it copies. */
  lemma InterruptsNeverSurface(rs: seq<RegionInfo>, addr: nat, n: nat, src: seq<ReadOutcome>,
                               count: nat, total: nat)
    requires AllWellFormed(rs) && total <= count
    ensures TryAccess(rs, addr, Interrupts(n) + src, count, total).res
         == TryAccess(rs, addr, src, count, total).res
    ensures TryAccess(rs, addr, Interrupts(n) + src, count, total).chunks
         == TryAccess(rs, addr, src, count, total).chunks
  {
    match OfferAt(rs, addr + total, count - total)
    case NoRegion =>
    case Offer(i, off, len) =>
      InterruptsIgnored(n, src, Min(len, MAX_ACCESS_CHUNK));
  }

  /** The retry loop of the `read_from` callback: reads into a buffer of
      `cap` bytes, going round again while the source reports an
      interruption. */
  method ReadChunk(src: seq<ReadOutcome>, cap: nat) returns (res: Result<seq<Byte>>, rest: seq<ReadOutcome>)
    ensures ReadStep(res, rest) == ReadOnce(src, cap)
  {
    rest := src;
    while |rest| > 0 && rest[0] == Interrupted
      invariant ReadOnce(rest, cap) == ReadOnce(src, cap)
      decreases |rest|
    {
      rest := rest[1..];
    }
    if |rest| == 0 {
      return Ok([]), [];
    }
    match rest[0]
    case Failed =>
      res, rest := Err(IOError), rest[1..];
    case Data(bs) =>
      res, rest := Ok(bs[..Min(|bs|, cap)]), rest[1..];
  }

  /** The `read_from` callback on one region: reads at most
      `min(len, MAX_ACCESS_CHUNK)` bytes from `src`, writes them into the
      region at `caddr`, and reports how many there were. */
  method FillChunk(region: GuestRegionMmap, caddr: nat, len: nat, src: seq<ReadOutcome>)
    returns (r: Result<nat>, rest: seq<ReadOutcome>)
    requires region.Valid() && caddr + len <= region.mapping.Length
    modifies region.mapping, region`dirtyBitmap
    ensures region.Valid()
    ensures var step := ReadOnce(src, Min(len, MAX_ACCESS_CHUNK));
      && rest == step.rest
      && (step.res.Err? ==> && r == Err(IOError)
                            && region.mapping[..] == old(region.mapping[..])
                            && region.dirtyBitmap == old(region.dirtyBitmap))
      && (step.res.Ok? ==> && r == Ok(|step.res.value|)
                           && region.mapping[..] == Overwrite(old(region.mapping[..]), caddr, step.res.value)
                           && region.dirtyBitmap
                              == MarkDirty(old(region.dirtyBitmap), caddr, |step.res.value|, region.pageSize))
  {
    var res;
    res, rest := ReadChunk(src, Min(len, MAX_ACCESS_CHUNK));
    if res.Err? {
      return Err(IOError), rest;
    }
    var written := region.Write(res.value, caddr);
    assert written == Ok(|res.value|) && res.value[..|res.value|] == res.value;
    r := Ok(|res.value|);
  }

  /** The callback `try_access` runs on the region at `offer`, seen from
      the collection: the chunk it reads is written into that region, and
      every region object keeps its invariant and its place in the layout. */
  method Fill(regions: seq<GuestRegionMmap>, layout: seq<RegionInfo>, offer: Offer, src: seq<ReadOutcome>,
              ghost before: seq<RegionState>)
    returns (r: Result<nat>, rest: seq<ReadOutcome>, ghost written: seq<Chunk>)
    requires Valid(layout) && Mirrors(regions, layout) && AllValid(regions) && OwnMappings(regions)
    requires Shows(regions, before)
    requires offer.Offer? && offer.region < |layout|
    requires offer.offset + offer.len <= layout[offer.region].len
    modifies regions[offer.region], regions[offer.region].mapping
    ensures Mirrors(regions, layout) && AllValid(regions)
    ensures Fits(before, written) && Shows(regions, Apply(before, written))
    ensures var step := ReadOnce(src, Min(offer.len, MAX_ACCESS_CHUNK));
      && rest == step.rest
      && (step.res.Err? ==> r == Err(IOError) && written == [])
      && (step.res.Ok? ==> r == Ok(|step.res.value|))
      && (step.res.Ok? && |step.res.value| == 0 ==> written == [])
      && (step.res.Ok? && |step.res.value| > 0 ==>
            written == [Chunk(offer.region, offer.offset, step.res.value)])
  {
    DistinctRegions(regions, layout);
    var region := regions[offer.region];
    r, rest := FillChunk(region, offer.offset, offer.len, src);
    assert forall i :: 0 <= i < |regions| ==> InfoOf(regions[i]) == layout[i];
    ghost var step := ReadOnce(src, Min(offer.len, MAX_ACCESS_CHUNK));
    if step.res.Err? || |step.res.value| == 0 {
      written := [];
      assert Overwrite(before[offer.region].mem, offer.offset, []) == before[offer.region].mem;
    } else {
      var c := Chunk(offer.region, offer.offset, step.res.value);
      written := [c];
      assert Shows(regions, before[offer.region := WriteState(before[offer.region], c.offset, c.data)]);
      assert Apply(before, written) == Apply(before[offer.region := WriteState(before[offer.region], c.offset, c.data)], []);
    }
  }

  /** A walk that has written `done` and will go on as `a` ends as `target`. */
  predicate Leads(target: Access, done: seq<Chunk>, a: Access) {
    a.res == target.res && a.rest == target.rest && target.chunks == done + a.chunks
  }

  /** What is left of the walk from `total` bytes in, on what is left of
      the source, ends as `target` does, after the chunks `done`. */
  predicate Pending(layout: seq<RegionInfo>, addr: nat, count: nat, target: Access,
                    rest: seq<ReadOutcome>, total: nat, done: seq<Chunk>)
    requires AllWellFormed(layout) && total <= count
  {
    Leads(target, done, TryAccess(layout, addr, rest, count, total))
  }

  /** A step that writes `written` and then goes on as `b` keeps a walk
      that went on as `a` on its way to `target`. */
  lemma LeadsStep(target: Access, done: seq<Chunk>, written: seq<Chunk>, a: Access, b: Access)
    requires Leads(target, done, a)
    requires a.res == b.res && a.rest == b.rest && a.chunks == written + b.chunks
    ensures Leads(target, done + written, b)
  {
    assert done + (written + b.chunks) == (done + written) + b.chunks;
  }

  /** One iteration of the `try_access` loop of `read_from`, `total` bytes
      in: either the walk stops here with its final count or error, or it
      copied a chunk and goes on from `next > total` with the same final
      outcome; `written` is what it wrote into the regions. */
  method AccessStep(regions: seq<GuestRegionMmap>, layout: seq<RegionInfo>, addr: nat, count: nat,
                    total: nat, src: seq<ReadOutcome>, ghost before: seq<RegionState>,
                    ghost target: Access, ghost done: seq<Chunk>)
    returns (stop: bool, r: Result<nat>, rest: seq<ReadOutcome>, next: nat, ghost written: seq<Chunk>)
    requires Valid(layout) && Mirrors(regions, layout) && AllValid(regions) && OwnMappings(regions)
    requires Shows(regions, before)
    requires total <= count && Pending(layout, addr, count, target, src, total, done)
    modifies set region | region in regions
    modifies set region | region in regions :: region.mapping
    ensures Mirrors(regions, layout) && AllValid(regions)
    ensures Fits(before, written) && Shows(regions, Apply(before, written))
    ensures next <= count
    ensures stop ==> r == target.res && rest == target.rest && target.chunks == done + written
    ensures !stop ==> total < next <= count && Pending(layout, addr, count, target, rest, next, done + written)
  {
    next := total;
    written := [];
    var offer := Locate(layout, addr + total, count - total);
    if offer.NoRegion? {
      TryAccessNoRegion(layout, addr, src, count, total);
      r := if total == 0 then Err(InvalidGuestAddress(addr)) else Ok(total);
      return true, r, src, next, written;
    }
    ghost var step := ReadOnce(src, Min(offer.len, MAX_ACCESS_CHUNK));
    TryAccessStops(layout, addr, src, count, total, offer, step);
    var filled;
    filled, rest, written := Fill(regions, layout, offer, src, before);
    if filled.Err? {
      return true, Err(IOError), rest, next, written;
    }
    if filled.value == 0 {
      return true, Ok(total), rest, next, written;
    }
    if total + filled.value == count {
      return true, Ok(count), rest, next, written;
    }
    next := total + filled.value;
    TryAccessStep(layout, addr, src, count, total, offer, step, rest, next);
    LeadsStep(target, done, written, TryAccess(layout, addr, src, count, total),
              TryAccess(layout, addr, rest, count, next));
    stop, r := false, Ok(next);
  }

  /** The `try_access` loop of `read_from` over the regions of `layout`. */
  method Walk(regions: seq<GuestRegionMmap>, layout: seq<RegionInfo>, addr: nat, src: seq<ReadOutcome>,
              count: nat, ghost initial: seq<RegionState>)
    returns (r: Result<nat>, rest: seq<ReadOutcome>)
    requires Valid(layout) && Mirrors(regions, layout) && AllValid(regions) && OwnMappings(regions)
    requires Shows(regions, initial)
    modifies set region | region in regions
    modifies set region | region in regions :: region.mapping
    ensures Mirrors(regions, layout) && AllValid(regions)
    ensures r == TryAccess(layout, addr, src, count, 0).res
    ensures rest == TryAccess(layout, addr, src, count, 0).rest
    ensures var chunks := TryAccess(layout, addr, src, count, 0).chunks;
      Fits(initial, chunks) && Shows(regions, Apply(initial, chunks))
  {
    ghost var target := TryAccess(layout, addr, src, count, 0);
    ghost var done: seq<Chunk> := [];
    var total := 0;
    rest := src;
    r := Ok(0);
    var stop := false;
    while !stop
      invariant total <= count
      invariant Mirrors(regions, layout) && AllValid(regions)
      invariant Fits(initial, done) && Shows(regions, Apply(initial, done))
      invariant !stop ==> Pending(layout, addr, count, target, rest, total, done)
      invariant stop ==> r == target.res && rest == target.rest && target.chunks == done
      decreases !stop, count - total
    {
      ghost var written;
      stop, r, rest, total, written :=
        AccessStep(regions, layout, addr, count, total, rest, Apply(initial, done), target, done);
      ApplyAppend(initial, done, written);
      done := done + written;
    }
  }

  /** Collection `read_from`: copies up to `count` bytes from `src` into
      guest memory starting at `addr`, chunk by chunk, across regions; the
      regions end up as the walk's chunks written into them in order. */
  method ReadFrom(regions: seq<GuestRegionMmap>, addr: nat, src: seq<ReadOutcome>, count: nat)
    returns (r: Result<nat>, rest: seq<ReadOutcome>)
    requires Valid(Layout(regions)) && AllValid(regions) && OwnMappings(regions)
    modifies set region | region in regions
    modifies set region | region in regions :: region.mapping
    ensures AllValid(regions)
    ensures Layout(regions) == old(Layout(regions))
    ensures r == TryAccess(old(Layout(regions)), addr, src, count, 0).res
    ensures rest == TryAccess(old(Layout(regions)), addr, src, count, 0).rest
    ensures var chunks := TryAccess(old(Layout(regions)), addr, src, count, 0).chunks;
      Fits(old(States(regions)), chunks) && States(regions) == Apply(old(States(regions)), chunks)
  {
    var layout := Layout(regions);
    ghost var initial := States(regions);
    r, rest := Walk(regions, layout, addr, src, count, initial);
    MirrorsLayout(regions, layout);
    ShowsStates(regions, Apply(initial, TryAccess(layout, addr, src, count, 0).chunks));
  }

  /** `read_exact_from`'s verdict on the count `read_from` returned. */
  function ExactOutcome(res: Result<nat>, count: nat): (r: Result<()>)
    ensures r.Ok? <==> res == Ok(count)
    ensures res.Ok? && res.value != count ==> r == Err(PartialBuffer(count, res.value))
    ensures res.Err? ==> r == Err(res.error)
  {
    match res
    case Err(e) => Err(e)
    case Ok(n) => if n != count then Err(PartialBuffer(count, n)) else Ok(())
  }

  /** Collection `read_exact_from`: `read_from`, then `PartialBuffer` with
      the expected and completed counts whenever fewer than `count` bytes
      came. */
  method ReadExactFrom(regions: seq<GuestRegionMmap>, addr: nat, src: seq<ReadOutcome>, count: nat)
    returns (r: Result<()>, rest: seq<ReadOutcome>)
    requires Valid(Layout(regions)) && AllValid(regions) && OwnMappings(regions)
    modifies set region | region in regions
    modifies set region | region in regions :: region.mapping
    ensures AllValid(regions)
    ensures Layout(regions) == old(Layout(regions))
    ensures r == ExactOutcome(TryAccess(old(Layout(regions)), addr, src, count, 0).res, count)
    ensures rest == TryAccess(old(Layout(regions)), addr, src, count, 0).rest
    ensures var chunks := TryAccess(old(Layout(regions)), addr, src, count, 0).chunks;
      Fits(old(States(regions)), chunks) && States(regions) == Apply(old(States(regions)), chunks)
  {
    var res;
    res, rest := ReadFrom(regions, addr, src, count);
    r := ExactOutcome(res, count);
  }
}
