/** Values shared by the region and the collection layers: guest addresses,
    bytes, the error kinds of the guest memory layer, and result wrappers. */
module Types {

  /** Largest value of a u64 guest address or length. */
  const U64_MAX: nat := 0xFFFF_FFFF_FFFF_FFFF

  /** One byte of guest memory. */
  newtype Byte = x: int | 0 <= x < 256

  /** The error kinds the memory model reports. */
  datatype Error =
    | InvalidGuestRegion
    | NoMemoryRegion
    | UnsortedMemoryRegions
    | MemoryRegionOverlap
    | MmapRegionFailure
    | HostAddressNotAvailable
    | InvalidBackendAddress
    | InvalidGuestAddress(addr: nat)
    | IOError
    | PartialBuffer(expected: nat, completed: nat)

  datatype Option<T> = None | Some(value: T)

  datatype Result<T> = Ok(value: T) | Err(error: Error)

  /** `checked_add` on u64: None exactly when the sum does not fit. */
  function CheckedAdd(a: nat, b: nat): (r: Option<nat>)
    ensures r.None? <==> a + b > U64_MAX
    ensures r.Some? ==> r.value == a + b && r.value <= U64_MAX
  {
    if a + b > U64_MAX then None else Some(a + b)
  }

  function Min(a: nat, b: nat): (m: nat)
    ensures m <= a && m <= b && (m == a || m == b)
  {
    if a <= b then a else b
  }
}
