/** Kernel vocabulary shared by the allocator model: fixed-width integers,
    the `Result` of a fallible kernel call, the error kinds the allocator can
    report, and the outcomes of the library calls it depends on. */
module KernelTypes {

  /** The kernel's `u32`, used for the `max_devices` module parameter and the pool limit. */
  newtype u32 = x: int | 0 <= x < 0x1_0000_0000

  const U32_MAX: u32 := 0xFFFF_FFFF

  datatype Option<+T> = None | Some(value: T)

  datatype Result<+T> = Ok(value: T) | Err(error: Error)

  /** The errors the allocator reports. */
  datatype Error =
    | NoSpace      // ENOSPC: no index below the pool limit is free
    | NoMemory     // ENOMEM: reserving, formatting or boxing the name, or allocating the pool, failed
    | StoreFailed  // the XArray refused to fill the reservation

  /** What the four allocating library calls of `MiscPool::next` do on one
      invocation: `reserve_limit` (which allocates with `GFP_KERNEL`),
      `CString::try_from_fmt`, `KBox::new` and `fill_locked`. Each may fail;
      the model takes their outcome as an input. */
  datatype Faults = Faults(reserveFails: bool, formatFails: bool, boxFails: bool, fillFails: bool)
  {
    predicate NoneFail() { !reserveFails && !formatFails && !boxFails && !fillFails }
  }

  const NoFaults := Faults(false, false, false, false)
}
