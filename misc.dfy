/** The misc-device allocator as the driver runs it: `MiscPool` owns the
    XArray of names and changes it in place, `MiscSupply` installs a pool
    once and delegates to it, and `MiscOrdinal` frees its ordinal through
    the supply when it is dropped. Every method is proved to perform the
    transition the `PoolSpec` and `SupplySpec` functions define. */
module Misc {

  import opened KernelTypes
  import DeviceName
  import PoolSpec
  import SupplySpec

  /** An XArray slot: claimed by a reservation, or filled with a boxed name. */
  datatype Entry = Reserved | Filled(name: string)

  /** The ordinal and name a successful `next` returns, with the handle seen as its value. */
  function AsValue(res: Result<(MiscOrdinal, string)>): Result<(nat, string)>
  {
    match res
    case Ok((handle, name)) => Ok((handle.value, name))
    case Err(e) => Err(e)
  }

  /** The filled entries of an XArray, as the table of names they hold. */
  function FilledNames(slots: map<nat, Entry>): PoolSpec.Names
  {
    map k | k in slots && slots[k].Filled? :: slots[k].name
  }

  /** With no reservation pending, every slot is a filled name. */
  lemma FilledNamesKeys(slots: map<nat, Entry>)
    requires forall k :: k in slots ==> slots[k].Filled?
    ensures FilledNames(slots).Keys == slots.Keys
  {
  }

  /** Filling a fresh slot adds exactly that name to the table. */
  lemma FilledNamesAfterFill(slots: map<nat, Entry>, k: nat, name: string)
    requires k !in slots
    ensures FilledNames(slots[k := Filled(name)]) == FilledNames(slots)[k := name]
  {
  }

  /** `MiscPool`: the ordinal limit and the XArray `names`. */
  class MiscPool {
    const limit: nat
    var names: map<nat, Entry>

    /** Between calls no reservation is pending, and the filled entries are well formed. */
    ghost predicate Valid()
      reads this
    {
      && limit >= 1
      && (forall k :: k in names ==> names[k].Filled?)
      && PoolSpec.WellFormed(Table(), limit)
    }

    /** The filled entries of `names`. */
    function Table(): PoolSpec.Names
      reads this
    {
      FilledNames(names)
    }

    /** `MiscPool::new`: an empty table whose limit is one more than `max_devices`. */
    constructor (maxDevices: u32)
      ensures Valid()
      ensures limit == PoolSpec.PoolLimit(maxDevices) && Table() == map[]
    {
      limit := PoolSpec.PoolLimit(maxDevices);
      names := map[];
    }

    /** `MiscPool::next`: reserve the lowest free index below the limit,
        format and box its name, fill the reservation and read the stored
        name back. A failed reservation changes nothing; a failure after
        the reservation drops it. */
    method Next(faults: Faults) returns (res: Result<(MiscOrdinal, string)>)
      requires Valid()
      modifies this
      ensures Valid()
      ensures AsValue(res) == PoolSpec.Next(old(Table()), limit, faults).0
      ensures Table() == PoolSpec.Next(old(Table()), limit, faults).1
      ensures res.Ok? ==> fresh(res.value.0) && !res.value.0.dropped
    {
      FilledNamesKeys(names);
      var found := PoolSpec.LowestFree(names.Keys, limit);
      if found.None? {
        return Err(NoSpace);
      }
      if faults.reserveFails {
        return Err(NoMemory);
      }
      var ordinal := found.value;
      ghost var before := names;
      names := names[ordinal := Reserved];

      if faults.formatFails || faults.boxFails {
        names := names - {ordinal};
        assert names == before;
        return Err(NoMemory);
      }
      var value := DeviceName.Name(ordinal);
      if faults.fillFails {
        names := names - {ordinal};
        assert names == before;
        return Err(StoreFailed);
      }
      names := names[ordinal := Filled(value)];
      assert names == before[ordinal := Filled(value)];
      FilledNamesAfterFill(before, ordinal, value);

      var stored := names[ordinal].name;
      var handle := new MiscOrdinal(ordinal);
      res := Ok((handle, stored));
    }

    /** `MiscPool::free`: remove the entry of `ordinal`, if there is one. */
    method Free(ordinal: nat)
      requires Valid()
      modifies this
      ensures Valid()
      ensures Table() == PoolSpec.Free(old(Table()), ordinal)
    {
      names := names - {ordinal};
      assert Table() == PoolSpec.Free(old(Table()), ordinal);
    }
  }

  /** `MiscSupply`: the `SetOnce` holding the pool, empty until the first `next`. */
  class MiscSupply {
    var pool: MiscPool?

    ghost predicate Valid()
      reads this, pool
    {
      pool != null ==> pool.Valid()
    }

    ghost function State(): SupplySpec.State
      reads this, pool
    {
      if pool == null then SupplySpec.Uninstalled
      else SupplySpec.Installed(pool.limit, pool.Table())
    }

    /** `MiscSupply::new`: no pool yet. */
    constructor ()
      ensures Valid() && State() == SupplySpec.Uninstalled
    {
      pool := null;
    }

    /** `MiscSupply::init`: return at once if a pool is installed; otherwise
        build one from `max_devices` and install it. */
    method Init(maxDevices: u32, poolAllocFails: bool) returns (res: Result<()>)
      requires Valid()
      modifies this
      ensures Valid()
      ensures (res, State()) == SupplySpec.Init(old(State()), maxDevices, poolAllocFails)
      ensures old(pool) != null ==> pool == old(pool)
      ensures pool != old(pool) ==> fresh(pool)
    {
      if pool != null {
        return Ok(());
      }
      if poolAllocFails {
        return Err(NoMemory);
      }
      pool := new MiscPool(maxDevices);
      res := Ok(());
    }

    /** `MiscSupply::next`: `init`, then the installed pool's `next`. */
    method Next(maxDevices: u32, poolAllocFails: bool, faults: Faults) returns (res: Result<(MiscOrdinal, string)>)
      requires Valid()
      modifies this, pool
      ensures Valid()
      ensures AsValue(res) == SupplySpec.Next(old(State()), maxDevices, poolAllocFails, faults).0
      ensures State() == SupplySpec.Next(old(State()), maxDevices, poolAllocFails, faults).1
      ensures old(pool) != null ==> pool == old(pool)
      ensures pool != old(pool) ==> fresh(pool)
      ensures res.Ok? ==> fresh(res.value.0) && !res.value.0.dropped
    {
      var init := Init(maxDevices, poolAllocFails);
      if init.Err? {
        return Err(init.error);
      }
      res := pool.Next(faults);
    }

    /** `MiscSupply::free`: nothing before a pool is installed, otherwise the pool's `free`. */
    method Free(ordinal: nat)
      requires Valid()
      modifies pool
      ensures Valid() && pool == old(pool)
      ensures State() == SupplySpec.Free(old(State()), ordinal)
    {
      if pool != null {
        pool.Free(ordinal);
      }
    }
  }

  /** `MiscOrdinal`: owns one handed-out ordinal and frees it when dropped.
      `dropped` records that the handle has been consumed; the owning type
      guarantees a handle is dropped once. */
  class MiscOrdinal {
    const value: nat
    ghost var dropped: bool

    /** `MiscOrdinal::new`. */
    constructor (value: nat)
      ensures this.value == value && !dropped
    {
      this.value := value;
      dropped := false;
    }

    /** `Drop for MiscOrdinal`: free the ordinal through the global supply, once. */
    method Drop(supply: MiscSupply)
      requires supply.Valid() && !dropped
      modifies this, supply.pool
      ensures dropped && supply.Valid() && supply.pool == old(supply.pool)
      ensures supply.State() == SupplySpec.Free(old(supply.State()), value)
    {
      dropped := true;
      supply.Free(value);
    }
  }

  /** `TtMisc::register`: take the next ordinal and name from the supply,
      logging when `max_devices` ordinals are already allocated. */
  method Register(supply: MiscSupply, maxDevices: u32, poolAllocFails: bool, faults: Faults)
    returns (res: Result<(MiscOrdinal, string)>, exhaustionLogged: bool)
    requires supply.Valid()
    modifies supply, supply.pool
    ensures supply.Valid()
    ensures AsValue(res) == SupplySpec.Next(old(supply.State()), maxDevices, poolAllocFails, faults).0
    ensures supply.State() == SupplySpec.Next(old(supply.State()), maxDevices, poolAllocFails, faults).1
    ensures exhaustionLogged <==> res == Err(NoSpace)
  {
    res := supply.Next(maxDevices, poolAllocFails, faults);
    exhaustionLogged := res.Err? && res.error == NoSpace;
  }

  /** A device probe followed by its teardown and a second probe: the
      handle's drop frees the ordinal, so the second probe gets the same
      ordinal and name back. */
  method ProbeRemoveProbe(supply: MiscSupply, maxDevices: u32)
    returns (first: Result<(nat, string)>, second: Result<(nat, string)>)
    requires supply.Valid()
    modifies supply, supply.pool
    ensures supply.Valid()
    ensures first == SupplySpec.Next(old(supply.State()), maxDevices, false, NoFaults).0
    ensures first.Ok? ==> second == first && supply.State() == old(SupplySpec.Next(supply.State(), maxDevices, false, NoFaults).1)
  {
    ghost var s0 := supply.State();
    var r := supply.Next(maxDevices, false, NoFaults);
    first := AsValue(r);
    second := first;
    if r.Ok? {
      r.value.0.Drop(supply);
      var again := supply.Next(maxDevices, false, NoFaults);
      second := AsValue(again);
      SupplySpec.ReuseAfterDrop(s0, maxDevices, false);
    }
  }
}
