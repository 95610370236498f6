# Guest memory model of `vm-memory/src/mmap.rs`

This project models the guest-physical memory layer of a virtual machine
monitor and proves properties of it. The layer has two parts.

**One region (`GuestRegionMmap`).** A region is a host mapping placed at a
guest base address, with an optional dirty-page bitmap.

- It is modelled as a Dafny class. Its fields are the mapping (an
  `array<Byte>`), the guest base, the page size, and the bitmap (an optional
  set of dirty page indices). The methods update the mapping and the bitmap
  in place.
- Every write into the mapping (`write`, `write_slice`, `write_obj`,
  `read_from`) copies what the slice contract allows and then marks dirty
  exactly the bytes it transferred. Accesses that only read the mapping
  (`read`, `read_slice`, `read_obj`, `write_to`, `write_all_to`) mark
  nothing.
- `read_exact_from` is the exception. It marks its `count` bytes only when
  all of them arrived. A short read has already stored what it got, but it
  marks none of it (see "## Findings").

**The whole address space (`GuestMemoryMmap`).** This is an ordered list of
regions.

- Its structural operations are modelled as pure functions over a list of
  `(start, len, hasBitmap)` records:
  - `from_ranges_with_files` and `from_arc_regions`;
  - the copy-on-write `insert_region` and `remove_region`;
  - `find_region`, `is_dirty_tracking_enabled`, `with_regions` and
    `map_and_fold`.
- The collection `read_from` / `read_exact_from` work on the region objects
  themselves. They walk the regions as the `try_access` default does, and
  each chunk is written with the region's own `write`. They are methods
  proved against a specification function of that walk (`TryAccess`).
  Their final state is stated as a value: the snapshot of every region
  (bytes, dirty pages, page size) with the walk's chunks applied in order
  (`Apply`).

Two foreign types are modelled by contracts that are assumed, not derived,
because their code is not part of this model:

- **The volatile slice.** The region delegates its copies to it.
  `volatile.dfy`'s module comment states the assumed contract.
- **The `Bitmap` type.** It is used through `set_addr_range`.
  `bitmap.dfy`'s module comment states the assumption.

`Read` sources and `Write` sinks are finite scripts of outcomes: data,
interrupted, or failed.

Files:

- `types.dfy`: errors, bytes, the u64 bound, and the result wrappers.
- `bitmap.dfy`: page marking.
- `volatile.dfy`: the slice contract and the scripted streams.
- `region.dfy`: the region class.
- `collection.dfy`: the structural collection operations.
- `memory.dfy`: construction from ranges, and the traversals.
- `streaming.dfy`: the collection streaming reads.

## Model

| member | source | states |
|---|---|---|
| Types.CheckedAdd | src/vm-memory/src/mmap.rs:59-67 | `checked_add` on u64 is None exactly when the sum exceeds `U64_MAX`, and otherwise the sum |
| Region.GuestRegionMmap.New | src/vm-memory/src/mmap.rs:59-68 | fails with `InvalidGuestRegion` exactly when `guest_base + len` overflows a u64; on success the region is fresh, keeps the mapping and base, and has no dirty bitmap |
| Region.GuestRegionMmap.EnableDirtyPageTracking | src/vm-memory/src/mmap.rs:71-82 | gives a region without a bitmap an all-clean one; an existing bitmap, with its dirty pages, is left unchanged (idempotent) |
| Region.MarkDirty | src/vm-memory/src/mmap.rs:90-94 | marking is a no-op without a bitmap and for `n == 0`; it only adds pages, and only pages of `[start, start + n)` |
| Region.MarkDirtyExact | src/vm-memory/src/mmap.rs:90-94 | after marking, a page is dirty iff it was dirty already or it holds a byte of `[start, start + n)` |
| Region.GuestRegionMmap.MarkDirtyPages | src/vm-memory/src/mmap.rs:90-94 | the bitmap becomes `MarkDirty` of the old one, and every dirty page stays inside the region |
| Bitmap.SetAddrRange | src/vm-memory/src/mmap.rs:90-94 | `set_addr_range` adds the pages of `[start, start + n)` to the dirty set; which pages those are is stated by `Bitmap.PagesOfExact` |
| Bitmap.PagesOfExact | src/vm-memory/src/mmap.rs:90-94 | the pages `set_addr_range(start, n)` marks are exactly the pages holding a byte of `[start, start + n)` |
| Bitmap.PagesOfInBounds | src/vm-memory/src/mmap.rs:90-94 | marking a range inside the region marks only pages the region's bitmap has |
| Bitmap.SanityFourBytesAt0x1005 | src/vm-memory/src/mmap.rs:90-94 | with page size 0x1000, the 4 bytes at 0x1005 lie in page 1 only |
| Volatile.CopyCount | src/vm-memory/src/mmap.rs:119-134 | the slice copy fails with `InvalidBackendAddress` iff `off > len`; otherwise it copies at most the buffer, stays in the mapping, and stops only at the buffer's end or the mapping's end |
| Volatile.SliceOutcome | src/vm-memory/src/mmap.rs:136-157 | `write_slice`/`read_slice` succeed iff the whole buffer fits, and otherwise report `PartialBuffer(buf.len, len - off)` or the bounds error |
| Volatile.SliceCompleted | src/vm-memory/src/mmap.rs:136-157 | the bytes moved before a slice call returns: all on success, the completed count on `PartialBuffer`, none past the end |
| Volatile.Overwrite | src/vm-memory/src/mmap.rs:119-127 | writing `data` at `off` changes exactly the bytes from `off` for the length of `data` to `data` and keeps every other byte |
| Volatile.OverwriteThenRead | src/vm-memory/src/mmap.rs:119-134 | reading back a range just written returns the bytes written |
| Region.GuestRegionMmap.Write | src/vm-memory/src/mmap.rs:119-127 | returns the slice copy count; the mapping gets that prefix of the buffer, and exactly those bytes are marked dirty; on error nothing changes |
| Region.GuestRegionMmap.Read | src/vm-memory/src/mmap.rs:129-134 | succeeds iff `off <= len`, returns the slice copy count of bytes, which are the mapping's bytes at `off` |
| Region.GuestRegionMmap.WriteSlice | src/vm-memory/src/mmap.rs:136-150 | copies the completed prefix; marks `[off, off + buf.len)` on success, only `[off, off + completed)` on `PartialBuffer`, and nothing on another error |
| Region.GuestRegionMmap.ReadSlice | src/vm-memory/src/mmap.rs:152-157 | returns the slice outcome and the completed prefix of the mapping at `off` |
| Region.GuestRegionMmap.WriteObj | src/vm-memory/src/mmap.rs:161-168 | the same outcome, bytes and dirty marking as `write_slice` of the object's bytes |
| Region.GuestRegionMmap.ReadObj | src/vm-memory/src/mmap.rs:170-175 | succeeds iff `read_slice` of the object's size does, and then returns the mapping's bytes at `off` |
| Volatile.ReadOnce | src/vm-memory/src/mmap.rs:177-193 | one retried `read`: never more bytes than the buffer; any failure is `IOError` |
| Volatile.ReadOnceLeavesSuffix | src/vm-memory/src/mmap.rs:177-193 | a read consumes a prefix of the source and leaves the rest |
| Volatile.InterruptsIgnored | src/vm-memory/src/mmap.rs:511-520 | interrupted reads ahead of the source never change what a read returns |
| Volatile.ReadOnceFails | src/vm-memory/src/mmap.rs:511-520 | a read fails iff the first outcome that is not an interruption is a failure |
| Region.GuestRegionMmap.CopyIn | src/vm-memory/src/mmap.rs:119-127 | the slice's copy into the mapping: the bytes at `off` become `data` and every other byte is kept |
| Region.GuestRegionMmap.CopyOut | src/vm-memory/src/mmap.rs:129-134 | the slice's copy out of the mapping returns the mapping's bytes from `off` |
| Region.GuestRegionMmap.ReadFrom | src/vm-memory/src/mmap.rs:177-193 | fails with `InvalidBackendAddress` when `off + count` leaves the mapping, consuming nothing; otherwise one read of at most `count` bytes is stored at `off`, exactly the returned count is marked dirty, an error changes nothing, and the source is left as the read leaves it |
| Volatile.ReadExact | src/vm-memory/src/mmap.rs:195-210 | `read_exact` delivers at most `need` bytes and succeeds iff it delivered all of them |
| Region.GuestRegionMmap.ReadExactFrom | src/vm-memory/src/mmap.rs:195-210 | stores what `read_exact` delivered; succeeds iff all `count` bytes came, and marks `[off, off + count)` dirty only then; the source is left as `read_exact` leaves it, and untouched on the bounds error |
| Region.StoreMarkedCovers | src/vm-memory/src/mmap.rs:90-94 | storing bytes and marking exactly them leaves every changed byte in a dirty page |
| Region.StoreUnmarkedMisses | src/vm-memory/src/mmap.rs:205-208 | two bytes stored in a clean tracked region with no page marked leave a changed byte in a clean page |
| Region.ShortReadUnmarked | src/vm-memory/src/mmap.rs:195-210 | a 4-byte `read_exact_from` from a 2-byte source stores both bytes, fails with `IOError`, and leaves the bitmap with no dirty page |
| Region.GuestRegionMmap.ReadExactFromMarked | src/vm-memory/src/mmap.rs:195-210 | `read_exact_from` marking what it stored: the same outcome, bytes and source as `read_exact_from`, the delivered bytes marked dirty even on a short read, and every changed byte in a dirty page |
| Volatile.WriteOnce | src/vm-memory/src/mmap.rs:212-225 | one retried `write` takes at most what it is offered; a failure is `IOError` |
| Region.GuestRegionMmap.WriteTo | src/vm-memory/src/mmap.rs:212-225 | bounds error outside the mapping; otherwise the sink's count, which is at most `count`, and the bytes sent are the mapping's at `off`; the bitmap is untouched |
| Volatile.Accepts | src/vm-memory/src/mmap.rs:227-240 | what a sink takes over successive writes never exceeds what is owed |
| Volatile.WriteAll | src/vm-memory/src/mmap.rs:227-240 | `write_all` on a sink script; its contract is `Volatile.WriteAllTakesAll` |
| Volatile.WriteAllTakesAll | src/vm-memory/src/mmap.rs:227-240 | `write_all` succeeds iff the sink takes every byte |
| Region.GuestRegionMmap.WriteAllTo | src/vm-memory/src/mmap.rs:227-240 | bounds error outside the mapping, with nothing sent; otherwise succeeds iff the sink takes all `count` bytes, and fails with `IOError` otherwise; the sink receives the mapping's bytes from `off`, as many as it accepted, so all of `[off, off + count)` on success |
| Region.GuestRegionMmap.Store | src/vm-memory/src/mmap.rs:242-250 | always `HostAddressNotAvailable` |
| Region.GuestRegionMmap.Load | src/vm-memory/src/mmap.rs:252-259 | always `HostAddressNotAvailable` |
| Region.GuestRegionMmap.AsVolatileSlice | src/vm-memory/src/mmap.rs:317-320 | always `HostAddressNotAvailable` |
| Region.DirtyPageExample | src/vm-memory/src/mmap.rs:119-127 | writing 4 bytes at 0x1005 of a tracked region with 0x1000-byte pages returns 4 and leaves exactly page 1 dirty |
| GuestMemory.BuildRegions | src/vm-memory/src/mmap.rs:366-397 | one region per range, in order, each well formed and with a bitmap exactly when tracking is asked; the first failing mapping gives `MmapRegionFailure`, an overflowing end `InvalidGuestRegion` |
| GuestMemory.BuildRegionsOutcome | src/vm-memory/src/mmap.rs:366-397 | building succeeds iff every range has a positive size, maps, and ends at or below `U64_MAX`; otherwise the error is that of the first range that does not: `MmapRegionFailure` if it fails to map, else `InvalidGuestRegion` |
| GuestMemory.FromRangesWithFiles | src/vm-memory/src/mmap.rs:366-408 | builds the regions and validates them; its contract is `GuestMemory.FromRangesSpec` |
| GuestMemory.FromRangesSpec | src/vm-memory/src/mmap.rs:366-408 | succeeds iff there is a range, building succeeds and the built list is valid; a build error passes through unchanged; a built collection is non-empty, valid, keeps each range's base and size in order, and tracks dirty pages exactly when asked; no ranges gives `NoMemoryRegion` |
| Collection.ValidPairwise | src/vm-memory/src/mmap.rs:422-441 | in a collection that passes the window check, every region ends before any later region starts |
| Collection.ValidDisjointSorted | src/vm-memory/src/mmap.rs:422-441 | a valid collection is pairwise non-overlapping and sorted by start |
| Collection.ScanPairs | src/vm-memory/src/mmap.rs:427-438 | the window scan can only report `UnsortedMemoryRegions` or `MemoryRegionOverlap` |
| Collection.ScanPairsSpec | src/vm-memory/src/mmap.rs:427-438 | the scan finds nothing iff every pair passes, and otherwise reports the error of the first failing pair: unsorted is checked before overlap |
| Collection.Validate | src/vm-memory/src/mmap.rs:422-441 | `from_arc_regions` fails only with `NoMemoryRegion`, `UnsortedMemoryRegions` or `MemoryRegionOverlap` |
| Collection.ValidateOk | src/vm-memory/src/mmap.rs:422-441 | success iff the list is non-empty and valid, and then the collection is the input list unchanged |
| Collection.ValidateErr | src/vm-memory/src/mmap.rs:422-441 | `NoMemoryRegion` iff the list is empty; otherwise the error is `e` iff `e` is the error of the first failing pair |
| Collection.FromArcRegions | src/vm-memory/src/mmap.rs:422-441 | the loop over the windows with early returns computes exactly `Validate` |
| Collection.InsertPosSpec | src/vm-memory/src/mmap.rs:459-460 | inserting from the back splices the region in after every region starting no later than it |
| Collection.InsertByStart | src/vm-memory/src/mmap.rs:459-460 | one insertion step of the stable sort, one element longer; its contract is `Collection.InsertByStartSpec` |
| Collection.InsertByStartPerm | src/vm-memory/src/mmap.rs:459-460 | insertion adds exactly the new region |
| Collection.InsertByStartSpec | src/vm-memory/src/mmap.rs:459-460 | insertion adds exactly the new region and keeps a sorted list sorted |
| Collection.SortByStart | src/vm-memory/src/mmap.rs:460 | `sort_by_key(start_addr)` as a stable insertion sort of the same length; its contract is `Collection.SortByStartSpec` |
| Collection.SortByStartPerm | src/vm-memory/src/mmap.rs:460 | the sort returns a permutation of its input |
| Collection.SortByStartSorted | src/vm-memory/src/mmap.rs:460 | the sort returns a list sorted by start |
| Collection.SortByStartSpec | src/vm-memory/src/mmap.rs:460 | `sort_by_key(start_addr)` returns a permutation of its input, sorted by start |
| Collection.SortSortedIdentity | src/vm-memory/src/mmap.rs:460 | sorting a list already sorted by start leaves it unchanged |
| Collection.PushSort | src/vm-memory/src/mmap.rs:458-460 | pushing onto a sorted list and sorting places the new region at its insertion point |
| Collection.SameElementsWellFormed | src/vm-memory/src/mmap.rs:458-460 | a permutation of well-formed regions is well formed |
| Collection.IsDirtyTrackingEnabled | src/vm-memory/src/mmap.rs:488-490 | true iff every region has a bitmap, so true for an empty collection |
| Collection.InsertNeverUnsorted | src/vm-memory/src/mmap.rs:447-463 | `insert_region` never fails with `UnsortedMemoryRegions` or `NoMemoryRegion` |
| Collection.SpliceWellFormed | src/vm-memory/src/mmap.rs:447-463 | splicing a well-formed region into a well-formed list stays well formed |
| Collection.SpliceDisjointValid | src/vm-memory/src/mmap.rs:447-463 | splicing a region that overlaps none at its sorted position keeps the collection valid |
| Collection.SpliceOverlapInvalid | src/vm-memory/src/mmap.rs:447-463 | splicing a region that overlaps one of them makes the collection invalid |
| Collection.InsertRegion | src/vm-memory/src/mmap.rs:447-463 | `insert_region`: push the region with the collection's tracking, sort, validate; its contract is `Collection.InsertRegionSpec` |
| Collection.InsertRegionSpec | src/vm-memory/src/mmap.rs:447-463 | on a valid collection, insertion succeeds iff the region overlaps none, fails only with `MemoryRegionOverlap`, and yields the old list with the region, given a bitmap iff every old region has one, spliced in at its sorted position, and valid |
| Collection.SearchByStart | src/vm-memory/src/mmap.rs:476 | `binary_search_by_key` returns a match's index, or the insertion point with smaller starts before it and larger ones after |
| Collection.Search | src/vm-memory/src/mmap.rs:476 | `binary_search_by_key` over the whole list; its contract is `Collection.SearchByStart` and `Collection.SearchFindsStart` |
| Collection.SearchFindsStart | src/vm-memory/src/mmap.rs:476-477 | in a valid collection, the search finds a start iff some region has it, and then at that region's index |
| Collection.RemoveKeepsValid | src/vm-memory/src/mmap.rs:471-485 | removing any region of a valid collection leaves it valid |
| Collection.RemoveRegion | src/vm-memory/src/mmap.rs:471-485 | `remove_region`; its contract is `Collection.RemoveRegionSpec` |
| Collection.RemoveRegionSpec | src/vm-memory/src/mmap.rs:471-485 | succeeds iff some region has exactly that base and size; it then returns that region and the list without it, in order and valid; otherwise `InvalidGuestRegion`, even when only the base matches |
| Collection.InsertThenRemove | src/vm-memory/src/mmap.rs:447-485 | removing a just-inserted region by its base and size gives back the original list and the inserted region |
| Collection.FindRegion | src/vm-memory/src/mmap.rs:553-561 | on a valid collection, returns a region holding the address, and None iff no region holds it |
| Collection.FindRegionUnique | src/vm-memory/src/mmap.rs:553-561 | the region found is the unique one holding the address |
| Collection.RegionHolding | src/vm-memory/src/mmap.rs:553-561 | reference lookup by a scan: the first region holding the address, or None iff there is none |
| Collection.FindRegionIsScan | src/vm-memory/src/mmap.rs:553-561 | the binary-search lookup agrees with the scan on every valid collection |
| GuestMemory.WithRegions | src/vm-memory/src/mmap.rs:563-581 | passes iff the callback passes on every `(index, region)`; otherwise returns the first failure, with all earlier indices passing |
| GuestMemory.FoldFromSnoc | src/vm-memory/src/mmap.rs:583-593 | folding one more region combines its mapped value last |
| GuestMemory.MapAndFold | src/vm-memory/src/mmap.rs:583-593 | `map_and_fold` from `init`; its contract is `GuestMemory.MapAndFoldLeft` |
| GuestMemory.MapAndFoldLeft | src/vm-memory/src/mmap.rs:583-593 | `map_and_fold` of nothing is `init`, and the last region's mapped value is folded in last (a left fold) |
| GuestMemory.MapAndFoldTotalSize | src/vm-memory/src/mmap.rs:583-593 | mapping lengths and folding with `+` from 0 gives the total size |
| Streaming.Layout | src/vm-memory/src/mmap.rs:492-524 | the record view of the region list: one `(start, len, hasBitmap)` record per region object, in order |
| Streaming.MirrorsLayout | src/vm-memory/src/mmap.rs:492-524 | a list of records that mirrors each region object is its layout |
| Streaming.OfferAt | src/vm-memory/src/mmap.rs:492-524 | what the walk offers at an address: no region iff none holds it; otherwise the holding region, the offset of the address in it, and `min(remaining, len - offset)` bytes, stopping short only at the region's end |
| Streaming.OfferAtNone | src/vm-memory/src/mmap.rs:553-561 | when `find_region` finds nothing, nothing is offered |
| Streaming.OfferAtFound | src/vm-memory/src/mmap.rs:553-561 | when `find_region` finds a region, the offer is that region at `addr - start` for `min(remaining, len - offset)` bytes |
| Streaming.Locate | src/vm-memory/src/mmap.rs:492-524 | the walk's region lookup through `find_region` computes exactly `OfferAt` |
| Streaming.TryAccess | src/vm-memory/src/mmap.rs:492-524 | the `try_access` walk as a value: outcome, chunks written and source left; its contract is the `TryAccess*` lemmas below |
| Streaming.TryAccessCount | src/vm-memory/src/mmap.rs:492-524 | a successful `read_from` returns a count no larger than `count`, equal to the bytes copied |
| Streaming.TryAccessErrors | src/vm-memory/src/mmap.rs:492-524 | `read_from` fails only with `IOError`, or with `InvalidGuestAddress(addr)` when nothing was transferred |
| Streaming.TryAccessChunks | src/vm-memory/src/mmap.rs:509-516 | every chunk is non-empty, at most `MAX_ACCESS_CHUNK` (4096) bytes, and lies inside its region |
| Streaming.TryAccessNoRegion | src/vm-memory/src/mmap.rs:492-524 | with no region at the current address the walk ends: `InvalidGuestAddress` if nothing was transferred yet, the running total otherwise |
| Streaming.TryAccessStops | src/vm-memory/src/mmap.rs:512-520 | a failed callback ends the walk with `IOError`, a 0-byte read with the running total, and a read completing `count` with `count` |
| Streaming.TryAccessStep | src/vm-memory/src/mmap.rs:492-524 | a non-empty chunk short of `count` continues the walk from the address after it |
| Streaming.InterruptsNeverSurface | src/vm-memory/src/mmap.rs:518 | interrupted reads ahead of the source change neither the outcome nor the chunks copied |
| Streaming.TryAccessContiguous | src/vm-memory/src/mmap.rs:492-524 | the chunks of the walk are consecutive in guest address space, the first at `addr + total`, each starting where the previous one ended |
| Streaming.ConsecutiveAbove | src/vm-memory/src/mmap.rs:492-524 | every chunk of a consecutive run starts at or after the run's first address |
| Streaming.ConsecutiveVisible | src/vm-memory/src/mmap.rs:492-524 | applying chunks at consecutive guest addresses leaves every byte of every chunk at its offset in its region: no later chunk overwrites an earlier one |
| Streaming.TryAccessVisible | src/vm-memory/src/mmap.rs:492-524 | after the walk's chunks are written, every byte read from the source is in its region at its chunk's offset, also when the walk ends in `IOError` or short of `count` |
| Streaming.DistinctRegions | src/vm-memory/src/mmap.rs:422-441 | the region objects of a valid collection are distinct objects |
| Streaming.States | src/vm-memory/src/mmap.rs:492-524 | the snapshot of the region objects: one `(bytes, bitmap, page size)` value per region, in order |
| Streaming.ShowsStates | src/vm-memory/src/mmap.rs:492-524 | region objects that hold a list of snapshots, one for one, have it as their `States` |
| Streaming.Apply | src/vm-memory/src/mmap.rs:119-127 | writing chunks in order, each through the region `write` (bytes stored, pages marked), keeps every region's size, page size and bitmap presence |
| Streaming.ApplyAppend | src/vm-memory/src/mmap.rs:492-524 | writing two runs of chunks one after the other is writing them all |
| Streaming.ApplyUntouched | src/vm-memory/src/mmap.rs:119-127 | a byte no chunk covers keeps its value |
| Streaming.ApplyDirty | src/vm-memory/src/mmap.rs:90-94 | after the chunks, a page of a tracked region is dirty iff it was dirty before or a chunk into that region covers it |
| Streaming.LeadsStep | src/vm-memory/src/mmap.rs:492-524 | a step that writes some chunks and leaves the rest of the walk unchanged keeps the walk on its way to the same outcome |
| Streaming.ReadChunk | src/vm-memory/src/mmap.rs:511-520 | the callback's retry loop computes exactly one retried read |
| Streaming.FillChunk | src/vm-memory/src/mmap.rs:509-520 | one callback: the bytes read are written at the offset and exactly those are marked dirty; a failed read is `IOError` and changes nothing |
| Streaming.Fill | src/vm-memory/src/mmap.rs:509-520 | a callback on the offered region keeps every region's layout and invariant; the regions become their snapshots with the chunk read (none on an error or an empty read) applied |
| Streaming.AccessStep | src/vm-memory/src/mmap.rs:492-524 | one iteration of the walk either ends it with the outcome and chunks of `TryAccess`, or advances the total strictly, preserving the outcome still to come; the regions become their snapshots with the iteration's chunk applied |
| Streaming.Walk | src/vm-memory/src/mmap.rs:492-524 | the `try_access` loop over the region objects returns the walk's outcome and leftover source, and leaves the regions as their snapshots with the walk's chunks applied in order |
| Streaming.ReadFrom | src/vm-memory/src/mmap.rs:492-524 | collection `read_from` returns the outcome of the `try_access` walk and the source it leaves, keeps the region layout and every region's invariant, and leaves every region as its old snapshot with the walk's chunks applied in order |
| Streaming.ExactOutcome | src/vm-memory/src/mmap.rs:534-542 | success iff `read_from` returned exactly `count`; a shorter count gives `PartialBuffer(count, res)`; an error passes through |
| Streaming.ReadExactFrom | src/vm-memory/src/mmap.rs:526-543 | collection `read_exact_from` is `read_from` followed by the `PartialBuffer` check; the regions are changed as by `read_from`, also when it reports `PartialBuffer`, and the source is left as the walk leaves it |

## Left out

- The host page-size query (`sysconf`) and its panic are left out; the page size is a positive parameter of the region.
- Creating host mappings (anonymous or file-backed `mmap`) is a predicate `mapOk` that says whether creating a range's mapping succeeds. A zero-length range is taken to fail to map. File offsets are carried but not checked.
- `as_slice`, `as_mut_slice`, `get_host_address`, `get_slice` and `local_volatile_slice` hand out raw host pointers or slices; they are replaced by the assumed slice contract.
- The volatile slice's own code and the `Bitmap` type are not part of this model. Their behaviour is the assumed contract stated in the module comments of `volatile.dfy` and `bitmap.dfy`.
- `Arc` sharing and the bitmap's atomic bit setting are concurrency concerns. Collections are plain values, and setting bits is sequential set union.
- The `Read`/`Write` trait objects are finite scripts of outcomes; a script that runs out behaves as end of file.
- The `__nondet` placeholder has no behaviour of its own and is left out.
- `Deref`, `dirty_bitmap`, `len`, `start_addr`, `file_offset`, `num_regions` and `GuestMemoryMmap::new` are accessors with no logic of their own.
- `from_ranges`, `from_ranges_with_tracking` and `from_regions` forward to `from_ranges_with_files` / `from_arc_regions`, so they are not modelled separately.
- `with_regions_mut` has the same loop as `with_regions`, which `GuestMemory.WithRegions` models.
- Collection-level `write`, `read`, `write_to` and other `Bytes` calls of the collection are upstream trait defaults, not code of this file.
- Error values keep only their kind: the wrapped `io::Error` and mmap error payloads, and the conversion between the region and collection error types, are not modelled.
- Streaming.ReadFrom: the regions are taken to own distinct host mappings. Two regions mapping the same host memory, which would alias writes between them, are not modelled.
- Streaming.TryAccess: the u64 wrap-around of the guest address arithmetic in `try_access` is not modelled. Every region of a valid collection ends at or below `U64_MAX`, so no address the walk reaches inside a region overflows.
- Streaming.ReadFrom: the collection regions are a sequence of region objects; the `Arc` indirection and the `assert_eq!` on the written count are not modelled, because the region write of an in-bounds chunk always copies all of it.

## Findings

| source | as written | input that shows it | evidently intended | confidence | as-written member | corrected member |
|---|---|---|---|---|---|---|
| src/vm-memory/src/mmap.rs:195-210 | region `read_exact_from` returns early on a short read, after the slice has stored the bytes it got, without marking them dirty | a tracked region, `count` 4, a source delivering 2 bytes then end of file: 2 bytes change and no page is dirty | every byte written into a tracked region lies in a dirty page, as for `write` and `write_slice` | medium, not executed | Region.ShortReadUnmarked | Region.GuestRegionMmap.ReadExactFromMarked |
