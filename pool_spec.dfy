/** The ordinal/name table of `MiscPool` as a value: a sparse map from
    ordinal to devfs name, bounded by the pool limit. `Next` and `Free` are
    the state transitions of `MiscPool::next` and `MiscPool::free`; the class
    `Misc.MiscPool` is proved to perform exactly these transitions. */
module PoolSpec {

  import opened KernelTypes
  import DeviceName

  /** The filled entries of the XArray `names`. */
  type Names = map<nat, string>

  /** The default of the `max_devices` module parameter. */
  const DEFAULT_MAX_DEVICES: u32 := 32

  /** The pool limit as `MiscPool::new` computes it: `limit += 1` on a `u32`,
      which wraps to 0 when `max_devices` is `u32::MAX`. */
  function LimitAsWritten(maxDevices: u32): (limit: u32)
    ensures maxDevices < U32_MAX ==> limit as int == maxDevices as int + 1
  {
    ((maxDevices as int + 1) % 0x1_0000_0000) as u32
  }

  /** For `max_devices = u32::MAX` the limit computed by `MiscPool::new` is
      zero, the value its `NonZero::new_unchecked` must not receive. */
  lemma LimitAsWrittenCanBeZero()
    ensures exists m: u32 :: LimitAsWritten(m) == 0
  {
    assert LimitAsWritten(U32_MAX) == 0;
  }

  /** The pool limit as intended: one more than `max_devices`, never zero,
      so that ordinals `0..=max_devices` can be handed out. */
  function PoolLimit(maxDevices: u32): (limit: nat)
    ensures limit >= 1
    ensures maxDevices < U32_MAX ==> limit == LimitAsWritten(maxDevices) as nat
  {
    maxDevices as nat + 1
  }

  /** The pool's invariant: only ordinals below the limit are present, and
      each holds the name formatted from its own ordinal. */
  ghost predicate WellFormed(names: Names, limit: nat)
  {
    forall k :: k in names ==> k < limit && names[k] == DeviceName.Name(k)
  }

  /** The smallest index in `[from, limit)` not in `used`. */
  function LowestFreeFrom(used: set<nat>, from: nat, limit: nat): (r: Option<nat>)
    requires from <= limit
    ensures r.Some? ==> from <= r.value < limit && r.value !in used
    ensures r.Some? ==> forall j :: from <= j < r.value ==> j in used
    ensures r.None? <==> forall j :: from <= j < limit ==> j in used
    decreases limit - from
  {
    if from == limit then None
    else if from !in used then Some(from)
    else LowestFreeFrom(used, from + 1, limit)
  }

  /** The index `reserve_limit(..limit)` claims: the XArray (created with
      `AllocKind::Alloc`) hands out the lowest free index below the limit. */
  function LowestFree(used: set<nat>, limit: nat): Option<nat>
  {
    LowestFreeFrom(used, 0, limit)
  }

  /** `MiscPool::next`: reserve the lowest free index below `limit`, format
      its name, fill the reservation and return the ordinal with the stored
      name. A failing reservation leaves the table alone; a failing later
      library call drops the reservation. */
  function Next(names: Names, limit: nat, faults: Faults): (r: (Result<(nat, string)>, Names))
    ensures r.0.Ok? ==>
      var (k, name) := r.0.value;
      && k < limit && k !in names
      && (forall j :: 0 <= j < k ==> j in names)
      && name == DeviceName.Name(k)
      && r.1 == names[k := name]
    ensures r.0.Err? ==> r.1 == names
    ensures r.0 == Err(NoSpace) <==> forall j :: 0 <= j < limit ==> j in names
    ensures r.0.Ok? <==> faults.NoneFail() && exists j :: 0 <= j < limit && j !in names
    ensures r.0 == Err(NoMemory) <==>
      (faults.reserveFails || faults.formatFails || faults.boxFails) && exists j :: 0 <= j < limit && j !in names
    ensures r.0 == Err(StoreFailed) <==>
      (!faults.reserveFails && !faults.formatFails && !faults.boxFails && faults.fillFails)
      && exists j :: 0 <= j < limit && j !in names
    ensures WellFormed(names, limit) ==> WellFormed(r.1, limit)
  {
    match LowestFree(names.Keys, limit)
    case None => (Err(NoSpace), names)
    case Some(k) =>
      if faults.reserveFails then (Err(NoMemory), names)
      else if faults.formatFails || faults.boxFails then (Err(NoMemory), names)
      else if faults.fillFails then (Err(StoreFailed), names)
      else
        var name := DeviceName.Name(k);
        (Ok((k, name)), names[k := name])
  }

  /** `MiscPool::free`: remove the entry of `ordinal`, if any. */
  function Free(names: Names, ordinal: nat): (r: Names)
    ensures ordinal !in r
    ensures ordinal !in names ==> r == names
    ensures forall j :: j != ordinal ==> (j in r <==> j in names)
    ensures forall j :: j in r ==> r[j] == names[j]
  {
    names - {ordinal}
  }

  /** `n` fault-free calls of `Next` with no `Free` between them. */
  ghost function Allocate(names: Names, limit: nat, n: nat): (r: (seq<Result<(nat, string)>>, Names))
    ensures |r.0| == n
  {
    if n == 0 then ([], names)
    else
      var prev := Allocate(names, limit, n - 1);
      var next := Next(prev.1, limit, NoFaults);
      (prev.0 + [next.0], next.1)
  }

  /** Every ordinal a pool built from `max_devices` hands out is at most `max_devices`. */
  lemma NextAtMostMax(names: Names, maxDevices: u32, faults: Faults)
    ensures Next(names, PoolLimit(maxDevices), faults).0.Ok? ==>
      Next(names, PoolLimit(maxDevices), faults).0.value.0 <= maxDevices as nat
  {
  }

  /** On a table holding exactly the ordinals below `n < limit`, a
      fault-free `Next` hands out `n`. */
  lemma NextAfterPrefix(m: Names, limit: nat, n: nat)
    requires n < limit
    requires forall j: nat :: j in m <==> j < n
    ensures Next(m, limit, NoFaults) == (Ok((n, DeviceName.Name(n))), m[n := DeviceName.Name(n)])
  {
    var r := Next(m, limit, NoFaults).0;
    assert n !in m;
    assert r.Ok?;
    assert r.value.0 == n by {
      assert r.value.0 !in m && (r.value.0 > n ==> n in m);
    }
  }

  /** Density: from an empty pool, `n <= limit` calls hand out `0, 1, ..., n - 1`
      in that order, with their names, and fill exactly those ordinals. */
  lemma {:induction false} Density(limit: nat, n: nat)
    requires n <= limit
    ensures forall i :: 0 <= i < n ==> Allocate(map[], limit, n).0[i] == Ok((i, DeviceName.Name(i)))
    ensures forall j: nat :: j in Allocate(map[], limit, n).1 <==> j < n
    ensures WellFormed(Allocate(map[], limit, n).1, limit)
  {
    if n > 0 {
      Density(limit, n - 1);
      var prev := Allocate(map[], limit, n - 1);
      NextAfterPrefix(prev.1, limit, n - 1);
      var x := Ok((n - 1, DeviceName.Name(n - 1)));
      var m' := prev.1[n - 1 := DeviceName.Name(n - 1)];
      assert Allocate(map[], limit, n) == (prev.0 + [x], m');
      assert forall i :: 0 <= i < n - 1 ==> (prev.0 + [x])[i] == prev.0[i];
      assert WellFormed(m', limit);
    }
  }

  /** Exhaustion: once every ordinal below the limit is handed out, the next
      call fails with `NoSpace` and leaves the table as it was. */
  lemma Exhaustion(limit: nat)
    ensures var (rs, m) := Allocate(map[], limit, limit + 1);
      && rs[limit] == Err(NoSpace)
      && m == Allocate(map[], limit, limit).1
  {
    Density(limit, limit);
  }

  /** After exhaustion, freeing any ordinal `k` makes `k` the next one handed out. */
  lemma FreeAfterExhaustion(limit: nat, k: nat)
    requires k < limit
    ensures var full := Allocate(map[], limit, limit).1;
      Next(Free(full, k), limit, NoFaults).0 == Ok((k, DeviceName.Name(k)))
  {
    Density(limit, limit);
    var full := Allocate(map[], limit, limit).1;
    var r := Next(Free(full, k), limit, NoFaults).0;
    assert exists j :: 0 <= j < limit && j !in Free(full, k) by {
      assert k !in Free(full, k);
    }
    assert forall j :: 0 <= j < k ==> j in Free(full, k);
    assert r.value.0 == k by {
      assert r.value.0 !in Free(full, k) && (r.value.0 > k ==> k in Free(full, k));
    }
  }

  /** Reuse: allocating, freeing what was allocated and allocating again
      hands out the same ordinal and restores the same table. */
  lemma ReuseAfterFree(names: Names, limit: nat)
    ensures var (r, m) := Next(names, limit, NoFaults);
      r.Ok? ==> Next(Free(m, r.value.0), limit, NoFaults) == (r, m)
  {
    var (r, m) := Next(names, limit, NoFaults);
    if r.Ok? {
      assert Free(m, r.value.0) == names;
    }
  }

  /** Rollback: when reserving, formatting, boxing or filling fails, the
      ordinal is not kept, and the next fault-free call hands it out. */
  lemma RollbackThenRetry(names: Names, limit: nat, faults: Faults)
    requires !faults.NoneFail()
    ensures var (r, m) := Next(names, limit, faults);
      && r.Err? && m == names
      && (LowestFree(names.Keys, limit).Some? ==>
            Next(m, limit, NoFaults).0 == Ok((LowestFree(names.Keys, limit).value,
                                               DeviceName.Name(LowestFree(names.Keys, limit).value))))
  {
  }

  /** With the default `max_devices` of 32 the pool serves 33 ordinals,
      `0` to `32`; the 34th call is refused. */
  lemma DefaultPoolServes33()
    ensures PoolLimit(DEFAULT_MAX_DEVICES) == 33
    ensures var limit := PoolLimit(DEFAULT_MAX_DEVICES);
      var rs := Allocate(map[], limit, limit + 1).0;
      && (forall i :: 0 <= i < 33 ==> rs[i] == Ok((i, DeviceName.Name(i))))
      && rs[33] == Err(NoSpace)
  {
    Density(33, 33);
    Exhaustion(33);
  }
}
