# Misc-device ordinal allocator of the Tenstorrent kernel driver

This project models the ordinal/name allocator in `tt/device/misc.rs` of the
Rust Tenstorrent driver, and proves properties about it. Each probed device
asks the allocator for a small ordinal and a devfs name `tenstorrent/<ordinal>`.

- `MiscPool` is a table (an XArray) from ordinal to boxed name, bounded by
  `limit = max_devices + 1`. `next` reserves the lowest free index below the
  limit, formats the name, fills the reservation and reads the stored name
  back. `free` removes an entry.
- `MiscSupply` holds the pool in a write-once slot. `init` installs a pool
  built from `max_devices` on the first `next` and does nothing afterwards.
  `free` is a no-op until a pool exists.
- `MiscOrdinal` is the handle returned with each ordinal. Dropping it frees
  the ordinal through the supply.

Files:

- `kernel.dfy` (module `KernelTypes`): `u32`, `Option`, `Result`, the allocator's errors, and `Faults`. `Faults` gives the outcome of the four allocating library calls in `MiscPool::next`.
- `device_name.dfy` (module `DeviceName`): `DEVICE_PREFIX`, decimal formatting, and a parser that inverts it.
- `pool_spec.dfy` (module `PoolSpec`): the pool table as a value. It holds the lowest-free reservation policy, `Next` and `Free` as transitions, and the density, exhaustion, reuse and rollback lemmas.
- `supply_spec.dfy` (modules `SupplySpec` and `SupplyExamples`): the supply as a value, plus `Run`, which replays a sequence of `next`/`free` calls. It holds the write-once and no-double-allocation lemmas and a worked example.
- `misc.dfy` (module `Misc`): the classes `MiscPool`, `MiscSupply` and `MiscOrdinal`, which change their fields in place. Each method is proved to perform the transition of the matching specification function. It also holds `Register` and a probe/remove/probe scenario.

Inputs that come from outside the allocator become parameters:

- `max_devices` is passed to `MiscSupply.Next` and `Init`.
- Whether the pool allocation fails is `poolAllocFails`.
- Whether `reserve_limit`, `CString::try_from_fmt`, `KBox::new` or `fill_locked` fail is given by `Faults`.

The default `max_devices` is 32 (`tt_core.rs:84-87`), so the default pool serves 33 ordinals, `0` to `32`.

Because `MiscPool::new` adds one to `max_devices`, the pool serves
`max_devices + 1` ordinals, not `max_devices`. With `max_devices = 2`, three
ordinals (0, 1 and 2) are served and the fourth call fails;
`SupplyExamples.LazyInitMaxTwo` proves that sequence.

## Model

| member | source | states |
|---|---|---|
| `DeviceName.Name` | tt/device/misc.rs:207-211 | the name is `DEVICE_PREFIX` (`tenstorrent`, misc.rs:44), a slash, and the ordinal's canonical decimal numeral; `NameRoundTrip`, `ParseNameRoundTrip` and `NameInjective` prove it identifies the ordinal |
| `DeviceName.Decimal` | tt/device/misc.rs:211 | the ordinal is written as a canonical decimal numeral: at least one digit, all digits, a leading zero only for 0 |
| `DeviceName.DecimalRoundTrip` | tt/device/misc.rs:211 | reading the decimal numeral of `n` back gives `n` |
| `DeviceName.ParseDecimalRoundTrip` | tt/device/misc.rs:211 | every canonical numeral is the decimal form of the value it reads as |
| `DeviceName.NameRoundTrip` | tt/device/misc.rs:207-211 | parsing `"tenstorrent/<k>"` gives back `k` |
| `DeviceName.ParseNameRoundTrip` | tt/device/misc.rs:207-211 | every string the parser accepts is exactly the formatted name of the ordinal it yields |
| `DeviceName.NameInjective` | tt/device/misc.rs:44 | two ordinals get the same devfs name iff they are equal; a name holds no NUL, as a `CString` requires |
| `PoolSpec.LimitAsWritten` | tt/device/misc.rs:182-185 | `limit += 1` on a `u32`; equals `max_devices + 1` whenever that does not overflow |
| `PoolSpec.LimitAsWrittenCanBeZero` | tt/device/misc.rs:183-185 | some `max_devices` (namely `u32::MAX`) makes the computed limit 0, contrary to the `NonZero` safety claim |
| `PoolSpec.PoolLimit` | tt/device/misc.rs:182-185 | the intended limit is never zero and agrees with the computed one wherever the `u32` add does not overflow |
| `PoolSpec.LowestFreeFrom` | tt/device/misc.rs:204 | the index reserved is free, below the limit, and every smaller index is taken; there is none iff every index below the limit is taken |
| `PoolSpec.Next` | tt/device/misc.rs:201-223 | success returns an ordinal below the limit that was absent, is the lowest free one, and is stored with its formatted name; all other entries are unchanged. The call fails with `NoSpace` iff every index below the limit is taken. When a free index exists, a failed `reserve_limit`, `try_from_fmt` or `KBox::new` gives `NoMemory` and a failed `fill_locked` gives `StoreFailed`; every failure leaves the table unchanged. It keeps the table well formed |
| `PoolSpec.Free` | tt/device/misc.rs:226-228 | removes `ordinal`, is a no-op if it is absent, and leaves all other entries unchanged |
| `PoolSpec.NextAtMostMax` | tt/device/misc.rs:182-185 | every ordinal a pool built from `max_devices` hands out is at most `max_devices` |
| `PoolSpec.NextAfterPrefix` | tt/device/misc.rs:204 | on a table holding exactly `0..n-1` with `n` below the limit, `next` hands out `n` |
| `PoolSpec.Density` | tt/device/misc.rs:204-213 | from an empty pool, `n <= limit` calls return `0, 1, ..., n-1` in order with their names, and fill exactly those |
| `PoolSpec.Exhaustion` | tt/device/misc.rs:204 | the call after `limit` allocations fails with `NoSpace` and leaves the table unchanged |
| `PoolSpec.FreeAfterExhaustion` | tt/device/misc.rs:226-228 | after exhaustion, freeing any `k` below the limit makes `k` the next ordinal handed out |
| `PoolSpec.ReuseAfterFree` | tt/device/misc.rs:226-228 | next, free of that ordinal, then next returns the same ordinal and name and restores the same table |
| `PoolSpec.RollbackThenRetry` | tt/device/misc.rs:211-213 | a failed reserve, format, box or fill leaves the table unchanged, and the next fault-free call hands out the lowest free ordinal, the one the failed call reserved or would have reserved |
| `PoolSpec.DefaultPoolServes33` | tt_core.rs:84-87 | with the default `max_devices` of 32 the limit is 33: ordinals 0 to 32 are served in order and the 34th call fails with `NoSpace` |
| `SupplySpec.Init` | tt/device/misc.rs:140-153 | returns early and unchanged once installed; otherwise installs an empty pool with limit `max_devices + 1`, or fails with `NoMemory` and installs nothing |
| `SupplySpec.Next` | tt/device/misc.rs:130-133 | on an uninstalled supply, a failed pool allocation gives `NoMemory` and installs nothing; otherwise the result is that of an empty pool with limit `max_devices + 1`, which is installed. Once installed, it is exactly the installed pool's `next` with the same limit, whatever `max_devices` now is. Handed-out ordinals are below the installed limit |
| `SupplySpec.Free` | tt/device/misc.rs:118-122 | a no-op before installation, otherwise the pool's `free` |
| `SupplySpec.InstalledStays` | tt/device/misc.rs:140-153 | after any sequence of calls an installed pool remains installed with the same limit |
| `SupplySpec.LimitFromFirstInstall` | tt/device/misc.rs:140-153 | from a fresh supply, a pool is installed iff some `next` allocated one; its limit comes from the `max_devices` read by that first successful `init` |
| `SupplySpec.RunKeepsValid` | tt/device/misc.rs:201-228 | every sequence of calls keeps each entry below the limit and holding its own ordinal's name |
| `SupplySpec.HeldNotGranted` | tt/device/misc.rs:203-204 | while `k` is filled and not freed, no call hands out `k` |
| `SupplySpec.NoDoubleGrant` | tt/device/misc.rs:203-216 | if two replies hand out the same ordinal, a `free` of that ordinal came between them |
| `SupplySpec.ReuseAfterDrop` | tt/device/misc.rs:83-88 | next, then the drop's `free` of the handed-out ordinal, then next returns the same ordinal and name |
| `SupplyExamples.LazyInitMaxTwo` | tt/device/misc.rs:182-185 | with `max_devices = 2` a fresh supply hands out 0, 1 and 2. The fourth call fails with `NoSpace`. After freeing 0, the next call hands out `0` and `tenstorrent/0` |
| `Misc.MiscPool.constructor` | tt/device/misc.rs:182-190 | an empty, valid table whose limit is `max_devices + 1` |
| `Misc.MiscPool.Next` | tt/device/misc.rs:201-223 | changes `names` in place exactly as `PoolSpec.Next`: reserve (or fail before reserving), then roll back or fill. No reservation is left pending, and a fresh, undropped handle comes back |
| `Misc.MiscPool.Free` | tt/device/misc.rs:226-228 | changes `names` in place exactly as `PoolSpec.Free` |
| `Misc.MiscSupply.constructor` | tt/device/misc.rs:112-115 | a supply with no pool installed |
| `Misc.MiscSupply.Init` | tt/device/misc.rs:140-153 | performs `SupplySpec.Init`; an installed pool object is kept, and a new one is only installed when none was |
| `Misc.MiscSupply.Next` | tt/device/misc.rs:130-133 | performs `SupplySpec.Next` and reuses the same pool object once one is installed |
| `Misc.MiscSupply.Free` | tt/device/misc.rs:118-122 | performs `SupplySpec.Free` and never installs a pool |
| `Misc.MiscOrdinal.constructor` | tt/device/misc.rs:78-80 | a handle holding the given ordinal, not yet dropped |
| `Misc.MiscOrdinal.Drop` | tt/device/misc.rs:83-88 | frees the handle's ordinal through the supply, and can happen only once per handle |
| `Misc.Register` | tt/device/misc.rs:51-60 | takes the next ordinal and name from the supply, and reports exhaustion exactly when the supply answered `NoSpace` |
| `Misc.ProbeRemoveProbe` | tt/device/misc.rs:83-88 | on the class model: after next and dropping the returned handle, the next call returns the same ordinal and name |

## Left out

- Concurrency is not modelled: the XArray lock (`tt/device/misc.rs:203`, `227`), the `SetOnce` publication ordering, and the check-then-populate race in `init`. Every operation is sequential and atomic. So `populate` always succeeds, and its ignored result plays no part.
- The `ok_or(ENOMEM)` after `init` (`tt/device/misc.rs:132`) cannot fire when calls are sequential. The model has no such branch.
- The `ok_or(ERANGE)` after reading back the filled entry (`tt/device/misc.rs:216`) cannot fire either, because the entry was just filled under the same guard.
- The rollback after a failed format, box or fill (`tt/device/misc.rs:211-213`) is the XArray binding's release of the dropped `Reservation`, which is not part of this model. That release runs while `guard` (`tt/device/misc.rs:203`) is still held, because `res` is declared after `guard` and is dropped first. The model assumes the release succeeds and removes the reserved index.
- The `&'static CStr` built from a raw pointer (`tt/device/misc.rs:216-219`) is modelled as a string equal to the stored entry.
- The lowest-free choice of `reserve_limit` is the policy of the kernel XArray created with `AllocKind::Alloc`. It is not written out in this file, and the model states it as `PoolSpec.LowestFree`.
- The errno the XArray binding returns on exhaustion is not part of this model. `NoSpace` stands for the `ENOSPC` that `register` tests for. C's `__xa_alloc` reports a full range as `EBUSY`; if the binding passes that through, `register` never logs exhaustion, so `Misc.Register`'s `exhaustionLogged <==> NoSpace` holds only if the binding maps exhaustion to `ENOSPC`.
- The errno of a failed `fill_locked` is not part of this model. It is the distinct error `StoreFailed`.
- Misc.MiscOrdinal.Drop: that a handle is dropped exactly once is a guarantee of Rust ownership. The model expresses it with a ghost `dropped` flag and a precondition, not with a type.
- Ordinals are unbounded `nat`s rather than `usize`. They never exceed the limit, which is at most 2^32.
- Logging (`pr_info!`, `pr_err!`) is left out. Only the exhaustion log decision of `register` is kept, as `exhaustionLogged`.
- `MiscDeviceRegistration::register`, `TtMisc::open` and `PinnedDrop` are left out because they are kernel calls.
- PCI probe glue, the sysfs compatibility overlay, hardware ID tables and the version string are not part of this model.

## Findings

| source | as written | input that shows it | evidently intended | confidence | as-written member | corrected member |
|---|---|---|---|---|---|---|
| tt/device/misc.rs:183-185 | `limit += 1` on a `u32`, then `NonZero::new_unchecked(limit)`, with a safety comment that the value is non-zero | module parameter `max_devices=4294967295`: the add overflows, so the kernel either panics (overflow checks on) or passes 0 to `new_unchecked` (overflow checks off) | a non-zero limit that serves ordinals `0..=max_devices`, e.g. an inclusive range bound | not executed; the panic or wrap depends on the kernel's overflow-check setting | `PoolSpec.LimitAsWritten`, `PoolSpec.LimitAsWrittenCanBeZero` | `PoolSpec.PoolLimit` |
