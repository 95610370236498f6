/** One guest memory region: a host mapping placed at a guest base address,
    with an optional dirty-page bitmap (`GuestRegionMmap`). */
module Region {
  import opened Types
  import opened Bitmap
  import opened Volatile

  /** `mark_dirty_pages`: sets the pages of `[start, start + n)` in the bitmap
      when there is one, and is a no-op otherwise. */
  function MarkDirty(dirty: Option<set<nat>>, start: nat, n: nat, ps: nat): (r: Option<set<nat>>)
    requires ps > 0
    ensures r.Some? <==> dirty.Some?
    ensures r.Some? ==> dirty.value <= r.value
    ensures r.Some? ==> forall p :: p in r.value - dirty.value ==> p in PagesOf(start, n, ps)
    ensures n == 0 ==> r == dirty
  {
    match dirty
    case None => None
    case Some(pages) =>
      var marked := SetAddrRange(pages, start, n, ps);
      assert n == 0 ==> marked == pages;
      Some(marked)
  }

  /** A region after `mark_dirty_pages` has every page holding a byte of
      `[start, start + n)` dirty, and no page it did not already have that
      holds none of them. */
  lemma {:induction false} MarkDirtyExact(dirty: set<nat>, start: nat, n: nat, ps: nat, p: nat)
    requires ps > 0
    ensures var r := MarkDirty(Some(dirty), start, n, ps);
            p in r.value <==> p in dirty || exists b: nat :: start <= b < start + n && PageOf(b, ps) == p
  {
    PagesOfExact(start, n, ps, p);
  }

  /** With a bitmap, every byte that differs between `before` and `after`
      lies in a dirty page: what dirty tracking is there to guarantee. */
  predicate Covers(before: seq<Byte>, after: seq<Byte>, dirty: Option<set<nat>>, ps: nat)
    requires ps > 0
  {
    dirty.Some? ==>
      forall b :: 0 <= b < |before| && b < |after| && after[b] != before[b] ==> PageOf(b, ps) in dirty.value
  }

  /** Storing `data` and marking exactly its bytes covers every change. */
  lemma StoreMarkedCovers(mem: seq<Byte>, dirty: Option<set<nat>>, off: nat, data: seq<Byte>, ps: nat)
    requires ps > 0 && off + |data| <= |mem|
    ensures Covers(mem, Overwrite(mem, off, data), MarkDirty(dirty, off, |data|, ps), ps)
  {
    if dirty.Some? {
      var after := Overwrite(mem, off, data);
      forall b | 0 <= b < |mem| && after[b] != mem[b]
        ensures PageOf(b, ps) in MarkDirty(dirty, off, |data|, ps).value
      {
        MarkDirtyExact(dirty.value, off, |data|, ps, PageOf(b, ps));
      }
    }
  }

  /** Two bytes stored at 0x10 of a clean tracked region, with no page
      marked, leave a change no dirty page covers. */
  lemma StoreUnmarkedMisses()
    ensures !Covers(seq(0x2000, _ => 0), Overwrite(seq(0x2000, _ => 0), 0x10, [7, 7]), Some({}), 0x1000)
  {
    var mem: seq<Byte> := seq(0x2000, _ => 0);
    assert Overwrite(mem, 0x10, [7, 7])[0x10] == 7;
  }

  class GuestRegionMmap {
    /** The host mapping backing the region, one element per byte. */
    const mapping: array<Byte>
    /** The guest physical address of the first byte. */
    const guestBase: nat
    /** The host page size the bitmap is built with. */
    const pageSize: nat
    /** The dirty-page bitmap, as the set of dirty page indices. */
    var dirtyBitmap: Option<set<nat>>

    /** The region invariant `new` establishes: the region's end fits in a
        u64, and every dirty page lies inside the region. */
    ghost predicate Valid()
      reads this
    {
      && pageSize > 0
      && guestBase + mapping.Length <= U64_MAX
      && (dirtyBitmap.Some? ==>
            forall p :: p in dirtyBitmap.value ==> p < NumPages(mapping.Length, pageSize))
    }

    constructor Init(mapping: array<Byte>, guestBase: nat, pageSize: nat)
      requires pageSize > 0 && guestBase + mapping.Length <= U64_MAX
      ensures Valid()
      ensures this.mapping == mapping && this.guestBase == guestBase && this.pageSize == pageSize
      ensures dirtyBitmap == None
    {
      this.mapping := mapping;
      this.guestBase := guestBase;
      this.pageSize := pageSize;
      this.dirtyBitmap := None;
    }

    /** `GuestRegionMmap::new`: rejects a mapping whose end overflows a u64
        address; a new region has no dirty bitmap. */
    static method New(mapping: array<Byte>, guestBase: nat, pageSize: nat)
      returns (r: Result<GuestRegionMmap>)
      requires pageSize > 0
      ensures r.Err? <==> guestBase + mapping.Length > U64_MAX
      ensures r.Err? ==> r.error == InvalidGuestRegion
      ensures r.Ok? ==> fresh(r.value) && r.value.Valid()
      ensures r.Ok? ==> r.value.mapping == mapping && r.value.guestBase == guestBase
      ensures r.Ok? ==> r.value.pageSize == pageSize && r.value.dirtyBitmap == None
    {
      if CheckedAdd(guestBase, mapping.Length).None? {
        return Err(InvalidGuestRegion);
      }
      var region := new GuestRegionMmap.Init(mapping, guestBase, pageSize);
      r := Ok(region);
    }

    /** `enable_dirty_page_tracking`: gives a region without a bitmap an
        all-clean one and leaves an existing bitmap, with its dirty pages,
        as it was. */
    method EnableDirtyPageTracking()
      requires Valid()
      modifies this`dirtyBitmap
      ensures Valid()
      ensures old(dirtyBitmap).None? ==> dirtyBitmap == Some({})
      ensures old(dirtyBitmap).Some? ==> dirtyBitmap == old(dirtyBitmap)
    {
      if dirtyBitmap.None? {
        dirtyBitmap := Some({});
      }
    }

    /** `mark_dirty_pages` on a range the caller has bounds-checked. */
    method MarkDirtyPages(start: nat, n: nat)
      requires Valid() && start + n <= mapping.Length
      modifies this`dirtyBitmap
      ensures Valid()
      ensures dirtyBitmap == MarkDirty(old(dirtyBitmap), start, n, pageSize)
    {
      PagesOfInBounds(start, n, mapping.Length, pageSize);
      dirtyBitmap := MarkDirty(dirtyBitmap, start, n, pageSize);
    }

    /** The slice's copy of `data` into the mapping at `off`. */
    method CopyIn(off: nat, data: seq<Byte>)
      requires off + |data| <= mapping.Length
      modifies mapping
      ensures mapping[..] == Overwrite(old(mapping[..]), off, data)
    {
      var i := 0;
      while i < |data|
        invariant 0 <= i <= |data|
        invariant forall k :: 0 <= k < mapping.Length ==>
          mapping[k] == if off <= k < off + i then data[k - off] else old(mapping[k])
      {
        mapping[off + i] := data[i];
        i := i + 1;
      }
      assert mapping[..] == Overwrite(old(mapping[..]), off, data);
    }

    /** The slice's copy of `n` bytes at `off` out of the mapping. */
    method CopyOut(off: nat, n: nat) returns (data: seq<Byte>)
      requires off + n <= mapping.Length
      ensures data == mapping[off..off + n]
    {
      data := [];
      var i := 0;
      while i < n
        invariant 0 <= i <= n
        invariant data == mapping[off..off + i]
      {
        data := data + [mapping[off + i]];
        i := i + 1;
      }
    }

    /** `write`: copies what fits of `buf` at `off` and marks dirty exactly
        the bytes it copied. */
    method Write(buf: seq<Byte>, off: nat) returns (r: Result<nat>)
      requires Valid()
      modifies mapping, this`dirtyBitmap
      ensures Valid()
      ensures r == CopyCount(mapping.Length, off, |buf|)
      ensures r.Ok? ==> mapping[..] == Overwrite(old(mapping[..]), off, buf[..r.value])
      ensures r.Ok? ==> dirtyBitmap == MarkDirty(old(dirtyBitmap), off, r.value, pageSize)
      ensures r.Err? ==> mapping[..] == old(mapping[..]) && dirtyBitmap == old(dirtyBitmap)
    {
      r := CopyCount(mapping.Length, off, |buf|);
      if r.Ok? {
        CopyIn(off, buf[..r.value]);
        MarkDirtyPages(off, r.value);
      }
    }

    /** `read`: returns what fits of a `bufLen`-byte read at `off`. */
    method Read(bufLen: nat, off: nat) returns (r: Result<seq<Byte>>)
      ensures r.Ok? <==> off <= mapping.Length
      ensures r.Err? ==> r.error == InvalidBackendAddress
      ensures r.Ok? ==> |r.value| == CopyCount(mapping.Length, off, bufLen).value
      ensures r.Ok? ==> r.value == mapping[off..off + |r.value|]
    {
      match CopyCount(mapping.Length, off, bufLen)
      case Err(e) =>
        r := Err(e);
      case Ok(n) =>
        var data := CopyOut(off, n);
        r := Ok(data);
    }

    /** `write_slice`: marks `[off, off + buf.len)` on success, only the
        completed prefix on `PartialBuffer`, and nothing on another error. */
    method WriteSlice(buf: seq<Byte>, off: nat) returns (r: Result<()>)
      requires Valid()
      modifies mapping, this`dirtyBitmap
      ensures Valid()
      ensures r == SliceOutcome(mapping.Length, off, |buf|)
      ensures off <= mapping.Length ==>
        mapping[..] == Overwrite(old(mapping[..]), off, buf[..SliceCompleted(mapping.Length, off, |buf|)])
      ensures off > mapping.Length ==> mapping[..] == old(mapping[..])
      ensures r.Ok? ==> dirtyBitmap == MarkDirty(old(dirtyBitmap), off, |buf|, pageSize)
      ensures r.Err? && r.error.PartialBuffer? ==>
        dirtyBitmap == MarkDirty(old(dirtyBitmap), off, r.error.completed, pageSize)
      ensures r.Err? && !r.error.PartialBuffer? ==> dirtyBitmap == old(dirtyBitmap)
    {
      var n := SliceCompleted(mapping.Length, off, |buf|);
      r := SliceOutcome(mapping.Length, off, |buf|);
      if off <= mapping.Length {
        CopyIn(off, buf[..n]);
        if r.Ok? || r.error.PartialBuffer? {
          MarkDirtyPages(off, n);
        }
      }
    }

    /** `read_slice`: the bytes copied into the buffer (all `bufLen` on
        success, the completed prefix on `PartialBuffer`). */
    method ReadSlice(bufLen: nat, off: nat) returns (r: Result<()>, got: seq<Byte>)
      ensures r == SliceOutcome(mapping.Length, off, bufLen)
      ensures |got| == SliceCompleted(mapping.Length, off, bufLen)
      ensures off <= mapping.Length ==> got == mapping[off..off + |got|]
      ensures r.Ok? ==> |got| == bufLen
    {
      r := SliceOutcome(mapping.Length, off, bufLen);
      var n := SliceCompleted(mapping.Length, off, bufLen);
      got := [];
      if off <= mapping.Length {
        got := CopyOut(off, n);
      }
    }

    /** `write_obj`: the object's bytes go through `write_slice`. */
    method WriteObj(val: seq<Byte>, off: nat) returns (r: Result<()>)
      requires Valid()
      modifies mapping, this`dirtyBitmap
      ensures Valid()
      ensures r == SliceOutcome(mapping.Length, off, |val|)
      ensures off <= mapping.Length ==>
        mapping[..] == Overwrite(old(mapping[..]), off, val[..SliceCompleted(mapping.Length, off, |val|)])
      ensures off > mapping.Length ==> mapping[..] == old(mapping[..])
      ensures r.Ok? ==> dirtyBitmap == MarkDirty(old(dirtyBitmap), off, |val|, pageSize)
      ensures r.Err? && r.error.PartialBuffer? ==>
        dirtyBitmap == MarkDirty(old(dirtyBitmap), off, r.error.completed, pageSize)
      ensures r.Err? && !r.error.PartialBuffer? ==> dirtyBitmap == old(dirtyBitmap)
    {
      r := WriteSlice(val, off);
    }

    /** `read_obj`: an object of `size` bytes read through `read_slice`; the
        object is returned only when it was read in full. */
    method ReadObj(size: nat, off: nat) returns (r: Result<seq<Byte>>)
      ensures r.Ok? <==> SliceOutcome(mapping.Length, off, size).Ok?
      ensures r.Err? ==> r.error == SliceOutcome(mapping.Length, off, size).error
      ensures r.Ok? ==> r.value == mapping[off..off + size]
    {
      var res, got := ReadSlice(size, off);
      if res.Ok? {
        r := Ok(got);
      } else {
        r := Err(res.error);
      }
    }

    /** Region `read_from`: one read from `src` of at most `count` bytes into
        `[off, off + count)`; marks dirty the bytes it returns. */
    method ReadFrom(off: nat, src: seq<ReadOutcome>, count: nat)
      returns (r: Result<nat>, rest: seq<ReadOutcome>)
      requires Valid()
      modifies mapping, this`dirtyBitmap
      ensures Valid()
      ensures !StreamInBounds(mapping.Length, off, count) ==> r == Err(InvalidBackendAddress) && rest == src
      ensures StreamInBounds(mapping.Length, off, count) ==>
        var step := ReadOnce(src, count);
        && rest == step.rest
        && (step.res.Err? ==> r == Err(IOError))
        && (step.res.Ok? ==>
              && r == Ok(|step.res.value|)
              && mapping[..] == Overwrite(old(mapping[..]), off, step.res.value))
      ensures r.Ok? ==> r.value <= count
      ensures r.Ok? ==> dirtyBitmap == MarkDirty(old(dirtyBitmap), off, r.value, pageSize)
      ensures r.Err? ==> mapping[..] == old(mapping[..]) && dirtyBitmap == old(dirtyBitmap)
    {
      rest := src;
      if !StreamInBounds(mapping.Length, off, count) {
        return Err(InvalidBackendAddress), rest;
      }
      var step := ReadOnce(src, count);
      rest := step.rest;
      if step.res.Err? {
        return Err(IOError), rest;
      }
      CopyIn(off, step.res.value);
      MarkDirtyPages(off, |step.res.value|);
      r := Ok(|step.res.value|);
    }

    /** Region `read_exact_from`: fills `[off, off + count)` from `src`;
        marks `count` bytes dirty only when all of them arrived, although a
        short read has already stored what it got. */
    method ReadExactFrom(off: nat, src: seq<ReadOutcome>, count: nat)
      returns (r: Result<()>, rest: seq<ReadOutcome>)
      requires Valid()
      modifies mapping, this`dirtyBitmap
      ensures Valid()
      ensures !StreamInBounds(mapping.Length, off, count) ==>
        r == Err(InvalidBackendAddress) && mapping[..] == old(mapping[..]) && rest == src
      ensures StreamInBounds(mapping.Length, off, count) ==>
        var step := ReadExact(src, count);
        && rest == step.rest
        && (r.Ok? <==> step.ok)
        && (r.Err? ==> r.error == IOError)
        && mapping[..] == Overwrite(old(mapping[..]), off, step.got)
      ensures r.Ok? ==> dirtyBitmap == MarkDirty(old(dirtyBitmap), off, count, pageSize)
      ensures r.Err? ==> dirtyBitmap == old(dirtyBitmap)
    {
      rest := src;
      if !StreamInBounds(mapping.Length, off, count) {
        return Err(InvalidBackendAddress), rest;
      }
      var step := ReadExact(src, count);
      rest := step.rest;
      CopyIn(off, step.got);
      if !step.ok {
        return Err(IOError), rest;
      }
      MarkDirtyPages(off, count);
      r := Ok(());
    }

    /** Region `read_exact_from` as dirty tracking intends it: a short read
        marks the bytes it stored, so every byte the call changes lies in a
        dirty page; on success it marks the same `count` bytes. */
    method ReadExactFromMarked(off: nat, src: seq<ReadOutcome>, count: nat)
      returns (r: Result<()>, rest: seq<ReadOutcome>)
      requires Valid()
      modifies mapping, this`dirtyBitmap
      ensures Valid()
      ensures !StreamInBounds(mapping.Length, off, count) ==>
        && r == Err(InvalidBackendAddress) && rest == src
        && mapping[..] == old(mapping[..]) && dirtyBitmap == old(dirtyBitmap)
      ensures StreamInBounds(mapping.Length, off, count) ==>
        var step := ReadExact(src, count);
        && rest == step.rest
        && (r.Ok? <==> step.ok)
        && (r.Err? ==> r.error == IOError)
        && mapping[..] == Overwrite(old(mapping[..]), off, step.got)
        && dirtyBitmap == MarkDirty(old(dirtyBitmap), off, |step.got|, pageSize)
      ensures Covers(old(mapping[..]), mapping[..], dirtyBitmap, pageSize)
    {
      rest := src;
      if !StreamInBounds(mapping.Length, off, count) {
        return Err(InvalidBackendAddress), rest;
      }
      var step := ReadExact(src, count);
      rest := step.rest;
      CopyIn(off, step.got);
      MarkDirtyPages(off, |step.got|);
      StoreMarkedCovers(old(mapping[..]), old(dirtyBitmap), off, step.got, pageSize);
      r := if step.ok then Ok(()) else Err(IOError);
    }

    /** Region `write_to`: one write of `[off, off + count)` to `dst`;
        returns the bytes the sink took. */
    method WriteTo(off: nat, dst: seq<WriteOutcome>, count: nat)
      returns (r: Result<nat>, sent: seq<Byte>)
      ensures !StreamInBounds(mapping.Length, off, count) ==> r == Err(InvalidBackendAddress)
      ensures StreamInBounds(mapping.Length, off, count) ==> r == WriteOnce(dst, count)
      ensures r.Ok? ==> r.value <= count && off + r.value <= mapping.Length
      ensures r.Ok? ==> sent == mapping[off..off + r.value]
      ensures r.Err? ==> sent == []
    {
      sent := [];
      if !StreamInBounds(mapping.Length, off, count) {
        return Err(InvalidBackendAddress), sent;
      }
      r := WriteOnce(dst, count);
      if r.Ok? {
        sent := CopyOut(off, r.value);
      }
    }

    /** Region `write_all_to`: sends `[off, off + count)` in order, and
        succeeds exactly when the sink takes all of it; `sent` is what the
        sink took before the call returned. */
    method WriteAllTo(off: nat, dst: seq<WriteOutcome>, count: nat) returns (r: Result<()>, sent: seq<Byte>)
      ensures !StreamInBounds(mapping.Length, off, count) ==> r == Err(InvalidBackendAddress) && sent == []
      ensures StreamInBounds(mapping.Length, off, count) ==>
        && (r.Ok? <==> Accepts(dst, count) == count)
        && (r.Err? ==> r.error == IOError)
        && |sent| == Accepts(dst, count)
        && sent == mapping[off..off + |sent|]
      ensures r.Ok? ==> sent == mapping[off..off + count]
    {
      sent := [];
      if !StreamInBounds(mapping.Length, off, count) {
        return Err(InvalidBackendAddress), sent;
      }
      WriteAllTakesAll(dst, count);
      sent := CopyOut(off, Accepts(dst, count));
      r := if WriteAll(dst, count) then Ok(()) else Err(IOError);
    }

    /** `store`: atomic access is not offered by this region type. */
    method Store(val: seq<Byte>, off: nat) returns (r: Result<()>)
      ensures r == Err(HostAddressNotAvailable)
    {
      r := Err(HostAddressNotAvailable);
    }

    /** `load`: atomic access is not offered by this region type. */
    method Load(size: nat, off: nat) returns (r: Result<seq<Byte>>)
      ensures r == Err(HostAddressNotAvailable)
    {
      r := Err(HostAddressNotAvailable);
    }

    /** `as_volatile_slice`: not offered by this region type. */
    method AsVolatileSlice() returns (r: Result<()>)
      ensures r == Err(HostAddressNotAvailable)
    {
      r := Err(HostAddressNotAvailable);
    }
  }

  /** Writing 4 bytes at offset 0x1005 of a tracked two-page region at guest
      address 0x1000 marks page 1 dirty and leaves page 0 clean. */
  method DirtyPageExample()
  {
    var mapping := new Byte[0x2000];
    var res := GuestRegionMmap.New(mapping, 0x1000, 0x1000);
    var region := res.value;
    region.EnableDirtyPageTracking();
    var w := region.Write([1, 2, 3, 4], 0x1005);
    assert w == Ok(4);
    SanityFourBytesAt0x1005();
    assert {} + PagesOf(0x1005, 4, 0x1000) == {1};
    assert region.dirtyBitmap == Some({1});
  }

  /** A `read_exact_from` of 4 bytes from a source holding 2 stores them at
      0x10 of a clean tracked region and fails, leaving no page dirty, so
      the stored bytes are not covered. */
  method ShortReadUnmarked()
  {
    var mapping := new Byte[0x2000](_ => 0);
    ghost var before := mapping[..];
    var res := GuestRegionMmap.New(mapping, 0x1000, 0x1000);
    var region := res.value;
    region.EnableDirtyPageTracking();
    var r, rest := region.ReadExactFrom(0x10, [Data([7, 7])], 4);
    assert ReadExact([Data([7, 7])], 4).got == [7, 7];
    assert r == Err(IOError) && region.dirtyBitmap == Some({});
    assert before == seq(0x2000, _ => 0);
    StoreUnmarkedMisses();
    assert !Covers(before, region.mapping[..], region.dirtyBitmap, region.pageSize);
  }
}
