/**
 The runtime over its slot array, module cache and instance table. Each method is one step of
 AppSlots: it updates the three in the order of the firmware and leaves what the step says.
 */
module Runtimes {
  import opened Bits
  import opened Errnos
  import opened InstanceMaps
  import opened ModuleCaches
  import opened AppSlots

  /** A WebAssembly or an ahead-of-time compiled binary, by its size and magic number. */
  predicate IsBinary(binary: seq<byte>) {
    |binary| >= 8 && (binary[..4] == [0, 0x61, 0x73, 0x6D] || binary[..4] == [0, 0x61, 0x6F, 0x74])
  }

  /** The letters after the zero byte are asm or aot. */
  lemma IsBinaryIff(binary: seq<byte>)
    ensures IsBinary(binary) <==>
              && |binary| >= 8 && binary[0] == 0 && binary[1] as int == 'a' as int
              && ((binary[2] as int == 's' as int && binary[3] as int == 'm' as int)
                  || (binary[2] as int == 'o' as int && binary[3] as int == 't' as int))
  {
    if |binary| >= 8 {
      assert binary[..4] == [binary[0], binary[1], binary[2], binary[3]];
    }
  }

  /** How the wait for a new app thread ends; `inst` is NULL when instantiation failed. */
  datatype Launch = NoThread | TimedOut | Answered(inst: nat)

  class Runtime {
    const apps: array<App>
    const cache: ModuleCache
    const insts: InstanceMap
    ghost var log: seq<Event>

    ghost predicate Valid()
    {
      insts.Valid()
    }

    ghost function View(): (r: State)
      requires Valid()
      reads this, apps, cache.entries, insts.buckets
    {
      State(apps[..], cache.entries[..], insts.View(), log)
    }

    constructor (slots: nat, cacheSize: nat)
      ensures Valid() && Initial(View())
      ensures fresh(apps) && fresh(cache.entries) && fresh(insts.buckets)
    {
      apps := new App[slots](i => FREE);
      cache := new ModuleCache(cacheSize);
      insts := new InstanceMap();
      log := [];
    }

    method Unload(m: nat)
      requires Valid()
      modifies this`log
      ensures log == old(log) + [Unloaded(m)]
    {
      log := log + [Unloaded(m)];
    }

    /**
     Checks the binary, reserves the first free slot, and releases it again if the binary gives no
     module; `made` is what verification, allocation and loading of the binary come to.
     */
    method LoadWasm(ready: bool, binary: seq<byte>, hash: nat, made: Result<nat>, now: int) returns (r: Result<nat>)
      requires Valid()
      modifies this`log, apps, cache.entries
      ensures r == if !ready then Err(ENODEV)
                   else if !IsBinary(binary) then Err(EINVAL)
                   else if FindFree(old(apps[..])).None? then Err(ENOMEM)
                   else if made.Err? then Err(made.error)
                   else Ok(FindFree(old(apps[..])).value)
      ensures View() == if r.Ok? then LoadStep(old(View()), hash, Some(made.value), now) else old(View())
    {
      if !ready {
        return Err(ENODEV);
      }
      if !IsBinary(binary) {
        return Err(EINVAL);
      }
      ghost var before := View();
      var i: nat := 0;
      while i < apps.Length && apps[i].used
        invariant i <= apps.Length
        invariant FindFree(apps[..]) == FindFree(apps[..], i)
      {
        i := i + 1;
      }
      if i == apps.Length {
        return Err(ENOMEM);
      }
      apps[i] := apps[i].(used := true);
      if made.Err? {
        apps[i] := apps[i].(used := false);
        assert apps[..] == before.apps;
        return Err(made.error);
      }
      log := log + [Loaded(made.value)];
      apps[i] := apps[i].(wasm := Some(made.value), status := Created, hash := hash, hashValid := true);
      var unloaded := cache.StoreModule(hash, made.value, now);
      if unloaded.Some? {
        Unload(unloaded.value);
      }
      return Ok(i);
    }

    /** Removes and frees the instance, unloads the module, drops the cache entry. */
    method TearDown(s: nat)
      requires Valid() && s < apps.Length
      modifies this`log, apps, cache.entries, insts.buckets
      ensures View() == Torn(old(View()), s, old(apps[s].used), old(apps[s].status))
    {
      if apps[s].instance != NULL {
        insts.RemoveInst(apps[s].instance);
        apps[s] := apps[s].(instance := NULL);
      }
      if apps[s].wasm.Some? {
        Unload(apps[s].wasm.value);
        apps[s] := apps[s].(wasm := None);
      }
      if apps[s].hashValid {
        cache.ReleaseModule(apps[s].hash);
        cache.InvalidateModule(apps[s].hash);
        apps[s] := apps[s].(hashValid := false);
      }
    }

    /** The end of an app's thread; freeing the slot is the last write. */
    method ThreadEnd(s: nat)
      requires Valid() && s < apps.Length
      modifies this`log, apps, cache.entries, insts.buckets
      ensures View() == ExitStep(old(View()), s)
    {
      if apps[s].status != Error {
        apps[s] := apps[s].(status := Exited);
      }
      TearDown(s);
      apps[s] := apps[s].(used := false);
    }

    /** Creates the app's thread and waits until it has instantiated the module or failed. */
    method StartApp(s: int, launch: Launch) returns (r: Result<()>)
      requires Valid()
      modifies this`log, apps, cache.entries, insts.buckets
      ensures r == if !SlotValid(old(apps[..]), s) then Err(EINVAL)
                   else if old(View()).apps[s].status == Running then Ok(())
                   else if launch.NoThread? then Err(ENOMEM)
                   else if launch.TimedOut? then Err(ETIMEDOUT)
                   else if launch.inst == NULL || old(View()).apps[s].wasm.None? then Err(EIO)
                   else Ok(())
      ensures View() == match launch
                        case NoThread => old(View())
                        case TimedOut => StartTimeoutStep(old(View()), s)
                        case Answered(inst) => StartStep(old(View()), s, inst)
    {
      if !(0 <= s < apps.Length && apps[s].used) {
        return Err(EINVAL);
      }
      if apps[s].status == Running {
        return Ok(());
      }
      if launch.NoThread? {
        return Err(ENOMEM);
      }
      if launch.TimedOut? {
        apps[s] := apps[s].(used := false);
        return Err(ETIMEDOUT);
      }
      if launch.inst == NULL || apps[s].wasm.None? {
        apps[s] := apps[s].(status := Error);
        ThreadEnd(s);
        return Err(EIO);
      }
      apps[s] := apps[s].(instance := launch.inst);
      var _ := insts.InsertAt(launch.inst, s);
      apps[s] := apps[s].(status := Running);
      return Ok(());
    }

    /** Waits for the thread to end; on a timeout aborts it and cleans up in its place. */
    method StopApp(s: int, timedOut: bool) returns (r: Result<()>)
      requires Valid()
      modifies this`log, apps, cache.entries, insts.buckets
      ensures View() == StopStep(old(View()), s, timedOut)
      ensures r == if SlotValid(old(apps[..]), s) then Ok(()) else Err(EINVAL)
    {
      if !(0 <= s < apps.Length && apps[s].used) {
        return Err(EINVAL);
      }
      if apps[s].status == Stopped || apps[s].status == Created {
        return Ok(());
      }
      if apps[s].status == Running {
        if timedOut {
          TearDown(s);
        } else {
          ThreadEnd(s);
        }
      }
      apps[s] := apps[s].(status := Stopped);
      return Ok(());
    }

    method DestroyApp(s: int, timedOut: bool) returns (r: Result<()>)
      requires Valid()
      modifies this`log, apps, cache.entries, insts.buckets
      ensures View() == DestroyStep(old(View()), s, timedOut)
      ensures r == if SlotValid(old(apps[..]), s) then Ok(()) else Err(EINVAL)
    {
      if !(0 <= s < apps.Length && apps[s].used) {
        return Err(EINVAL);
      }
      if apps[s].status == Running || apps[s].status == Exited {
        var _ := StopApp(s, timedOut);
      }
      TearDown(s);
      apps[s] := apps[s].(used := false, status := Stopped);
      return Ok(());
    }

    /** Table lookup first, then the scan of the slots, which repairs the table. */
    method SlotForInst(inst: nat) returns (slot: int)
      requires Valid()
      modifies insts.buckets
      ensures (slot, View()) == SlotOfInst(old(View()), inst)
    {
      if inst == NULL {
        return -1;
      }
      slot := insts.SlotOf(inst);
      if slot >= 0 {
        return;
      }
      var i: nat := 0;
      while i < apps.Length
        invariant i <= apps.Length
        invariant FindInstance(apps[..], inst) == FindInstance(apps[..], inst, i)
      {
        if apps[i].used && apps[i].instance == inst {
          var _ := insts.InsertAt(inst, i);
          return i;
        }
        i := i + 1;
      }
      return -1;
    }
  }
}
