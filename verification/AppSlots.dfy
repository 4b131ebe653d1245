/**
 The life of app slots as a state machine: load, start, stop, thread exit, destroy and lookup
 are one step each. The slots, the module cache and the instance table are kept separately;
 this module says what every step keeps true across the three.
 */
module AppSlots {
  import opened Errnos
  import opened InstanceMaps
  import opened ModuleCaches

  datatype Status = Created | Running | Exited | Stopped | Error

  /** `instance` is NULL while no instance lives. */
  datatype App = App(used: bool, status: Status, wasm: Option<nat>, hash: nat, hashValid: bool, instance: nat)

  const FREE := App(false, Stopped, None, 0, false, NULL)

  /** Calls into the WebAssembly runtime, with the module handle. */
  datatype Event = Loaded(m: nat) | Unloaded(m: nat)

  datatype State = State(apps: seq<App>, cache: seq<Entry>, map_: Table, log: seq<Event>)

  function FindFree(apps: seq<App>, i: nat := 0): (r: Option<nat>)
    requires i <= |apps|
    ensures r.Some? ==> i <= r.value < |apps| && !apps[r.value].used
    ensures r.None? ==> forall k :: i <= k < |apps| ==> apps[k].used
    decreases |apps| - i
  {
    if i == |apps| then None else if !apps[i].used then Some(i) else FindFree(apps, i + 1)
  }

  function FindInstance(apps: seq<App>, p: nat, i: nat := 0): (r: Option<nat>)
    requires i <= |apps|
    ensures r.Some? ==> i <= r.value < |apps| && apps[r.value].used && apps[r.value].instance == p
    ensures r.None? ==> forall k :: i <= k < |apps| ==> !(apps[k].used && apps[k].instance == p)
    decreases |apps| - i
  {
    if i == |apps| then None
    else if apps[i].used && apps[i].instance == p then Some(i)
    else FindInstance(apps, p, i + 1)
  }

  predicate SlotValid(apps: seq<App>, s: int) { 0 <= s < |apps| && apps[s].used }

  // ----- the steps -----

  /** `m` is the module the runtime made of the binary; None is a failure anywhere on the way. */
  function LoadStep(st: State, hash: nat, m: Option<nat>, now: int): (r: State) {
    var s := FindFree(st.apps);
    if s.None? || m.None? then st
    else
      var app := st.apps[s.value].(used := true, status := Created, wasm := m, hash := hash, hashValid := true);
      var evicted := Evicted(st.cache, hash);
      st.(apps := st.apps[s.value := app],
          cache := Store(st.cache, hash, m.value, now),
          log := st.log + [Loaded(m.value)] + if evicted.Some? then [Unloaded(evicted.value)] else [])
  }

  /** Drops the instance, the module and the cache entry of slot `s`, and leaves it with this status. */
  function Torn(st: State, s: nat, used: bool, status: Status): (r: State)
    requires s < |st.apps|
  {
    var app := st.apps[s];
    State(
      st.apps[s := app.(instance := NULL, wasm := None, hashValid := false, used := used, status := status)],
      if app.hashValid then Invalidate(Release(st.cache, app.hash), app.hash) else st.cache,
      Remove(st.map_, app.instance),
      st.log + if app.wasm.Some? then [Unloaded(app.wasm.value)] else [])
  }

  /** The thread of slot `s` ends by itself. */
  function ExitStep(st: State, s: nat): (r: State)
    requires s < |st.apps|
  {
    Torn(st, s, false, if st.apps[s].status == Error then Error else Exited)
  }

  /** `p` is the new instance, NULL when instantiation fails; a slot without a module always fails. */
  function StartStep(st: State, s: int, p: nat): (r: State) {
    if !SlotValid(st.apps, s) || st.apps[s].status == Running then st
    else
      var app := st.apps[s];
      if p == NULL || app.wasm.None? then ExitStep(st.(apps := st.apps[s := app.(status := Error)]), s)
      else st.(apps := st.apps[s := app.(instance := p, status := Running)], map_ := Put(st.map_, p, s))
  }

  /** `timedOut`: the thread did not end in time and was aborted. */
  function StopStep(st: State, s: int, timedOut: bool): (r: State) {
    if !SlotValid(st.apps, s) || st.apps[s].status == Stopped || st.apps[s].status == Created then st
    else if st.apps[s].status == Running then Torn(st, s, timedOut, Stopped)
    else st.(apps := st.apps[s := st.apps[s].(status := Stopped)])
  }

  function DestroyStep(st: State, s: int, timedOut: bool): (r: State) {
    if !SlotValid(st.apps, s) then st
    else
      var status := st.apps[s].status;
      var st' := if status == Running || status == Exited then StopStep(st, s, timedOut) else st;
      Torn(st', s, false, Stopped)
  }

  /** The slot of an instance, and the table with a missing entry put back. */
  function SlotOfInst(st: State, p: nat): (r: (int, State)) {
    var slot := Get(st.map_, p);
    if p == NULL then (-1, st)
    else if slot >= 0 then (slot, st)
    else
      match FindInstance(st.apps, p)
      case Some(i) => (i, st.(map_ := Put(st.map_, p, i)))
      case None => (-1, st)
  }

  /** A start whose instantiation did not answer in time: the slot is freed as it stands. */
  function StartTimeoutStep(st: State, s: int): (r: State) {
    if !SlotValid(st.apps, s) || st.apps[s].status == Running then st
    else st.(apps := st.apps[s := st.apps[s].(used := false)])
  }

  // ----- which modules are loaded -----

  function After(loaded: Option<set<nat>>, e: Event): (r: Option<set<nat>>) {
    match loaded
    case None => None
    case Some(live) =>
      match e
      case Loaded(m) => if m in live then None else Some(live + {m})
      case Unloaded(m) => if m in live then Some(live - {m}) else None
  }

  /** The modules loaded and not yet unloaded; None if one was ever unloaded while not loaded. */
  function Live(log: seq<Event>): (r: Option<set<nat>>) {
    if log == [] then Some({}) else After(Live(log[..|log| - 1]), log[|log| - 1])
  }

  lemma LiveNext(log: seq<Event>, e: Event)
    ensures Live(log + [e]) == After(Live(log), e)
  {
    assert (log + [e])[..|log|] == log;
  }

  predicate HasModule(app: App) { app.used && app.wasm.Some? }

  /** The modules of the slots in use. */
  ghost function Owned(apps: seq<App>): (r: set<nat>) {
    set s | 0 <= s < |apps| && HasModule(apps[s]) :: apps[s].wasm.value
  }

  // ----- what holds in every state -----

  /**
   A slot has its hash exactly while it has a module, and an instance exactly while it runs. Only a start timeout leaves a module in a
   free slot; those modules are in `gone`.
   */
  ghost predicate AppsOk(apps: seq<App>, gone: set<nat>) {
    && (forall s :: 0 <= s < |apps| ==>
          (apps[s].wasm.Some? <==> apps[s].hashValid)
          && (apps[s].wasm.Some? && !apps[s].used ==> apps[s].wasm.value in gone)
          && (apps[s].instance != NULL <==> apps[s].status == Running)
          && (apps[s].status == Running ==> HasModule(apps[s])))
    && (forall s, t :: 0 <= s < t < |apps| && apps[s].wasm.Some? ==> apps[s].wasm != apps[t].wasm)
    && (forall s, t :: 0 <= s < t < |apps| && apps[s].instance != NULL ==> apps[s].instance != apps[t].instance)
  }

  /** The slot owning a cached module: it holds the module under the same hash. */
  ghost predicate Owns(app: App, e: Entry) {
    e.wasm.Some? && app.wasm == e.wasm && app.hashValid && app.hash == e.hash && app.used
  }

  ghost predicate HasOwner(apps: seq<App>, e: Entry) {
    exists s :: 0 <= s < |apps| && Owns(apps[s], e)
  }

  /** Cached hashes are distinct; a cached module has a reference, and an owner unless a start timeout lost it. */
  ghost predicate CacheOk(apps: seq<App>, cache: seq<Entry>, gone: set<nat>) {
    && Distinct(cache)
    && (forall i :: 0 <= i < |cache| && cache[i].used ==>
          cache[i].refs >= 1 && cache[i].wasm.Some? && (cache[i].wasm.value in gone || HasOwner(apps, cache[i])))
  }

  /** The first bucket holding a live instance along its chain says its own slot. */
  ghost predicate MapOk(apps: seq<App>, b: Table) {
    forall s :: 0 <= s < |apps| && apps[s].instance != NULL ==> Right(b, apps[s].instance, s)
  }

  /** The loaded modules are those of the slots in use and, apart from them, those in `gone`. */
  ghost predicate Balanced(st: State, gone: set<nat>) {
    Live(st.log) == Some(Owned(st.apps) + gone) && Owned(st.apps) !! gone
  }

  ghost predicate Inv(st: State, gone: set<nat>) {
    && AppsOk(st.apps, gone)
    && CacheOk(st.apps, st.cache, gone)
    && MapOk(st.apps, st.map_)
    && Balanced(st, gone)
  }

  /** At most one slot owns a cached module. */
  lemma OwnerUnique(st: State, gone: set<nat>, i: nat, s: nat, t: nat)
    requires Inv(st, gone) && i < |st.cache| && s < |st.apps| && t < |st.apps|
    requires Owns(st.apps[s], st.cache[i]) && Owns(st.apps[t], st.cache[i])
    ensures s == t
  {
  }

  // ----- every step keeps it -----

  lemma {:induction false} NothingToEvict(es: seq<Entry>, n: nat)
    requires n <= |es| && forall k :: 0 <= k < n ==> es[k].refs >= 1
    ensures FindOldest(es, n) == None
  {
    if n > 0 {
      NothingToEvict(es, n - 1);
    }
  }

  /** No store ever evicts: an entry that nobody references does not exist. */
  lemma StoreNeverEvicts(apps: seq<App>, cache: seq<Entry>, gone: set<nat>, hash: nat)
    requires CacheOk(apps, cache, gone)
    ensures Evicted(cache, hash) == None
  {
    if FindVacant(cache).None? {
      NothingToEvict(cache, |cache|);
    }
  }

  /** Slots that still own what they owned, and a new owner of `m`. */
  lemma StoreOk(apps: seq<App>, cache: seq<Entry>, apps': seq<App>, gone: set<nat>, s: nat, hash: nat, m: nat, now: int)
    requires CacheOk(apps, cache, gone) && |apps'| == |apps| && s < |apps| && !apps[s].used
    requires forall t :: 0 <= t < |apps| && t != s ==> apps'[t] == apps[t]
    requires apps'[s].used && apps'[s].wasm == Some(m) && apps'[s].hash == hash && apps'[s].hashValid
    ensures CacheOk(apps', Store(cache, hash, m, now), gone)
  {
    hide FindEntry, FindVacant, FindOldest;
    if FindVacant(cache).None? {
      NothingToEvict(cache, |cache|);
    }
    var cache' := Store(cache, hash, m, now);
    assert Owns(apps'[s], Entry(true, hash, Some(m), 1, now));
    forall i | 0 <= i < |cache'| && cache'[i].used && cache'[i].wasm.Some? && cache'[i].wasm.value !in gone
      ensures HasOwner(apps', cache'[i])
    {
      if cache'[i] != Entry(true, hash, Some(m), 1, now) {
        var t :| 0 <= t < |apps| && Owns(apps[t], cache[i]);
        assert Owns(apps'[t], cache'[i]);
      }
    }
  }

  /** Releasing and invalidating the hash of a slot drops the entry it owns, if it owns one, and no other slot's. */
  lemma DropOk(apps: seq<App>, cache: seq<Entry>, gone: set<nat>, s: nat, app': App)
    requires CacheOk(apps, cache, gone) && s < |apps| && apps[s].hashValid
    ensures CacheOk(apps[s := app'], Invalidate(Release(cache, apps[s].hash), apps[s].hash), gone)
  {
    hide FindEntry;
    var hash := apps[s].hash;
    var mid := Release(cache, hash);
    var cache' := Invalidate(mid, hash);
    var apps' := apps[s := app'];
    forall i | 0 <= i < |cache'| && cache'[i].used
      ensures cache'[i] == cache[i] && cache[i].hash != hash
    {
      assert Matches(mid[i], hash) <==> Matches(cache[i], hash);
    }
    forall i | 0 <= i < |cache'| && cache'[i].used && cache'[i].wasm.value !in gone
      ensures HasOwner(apps', cache'[i])
    {
      var t :| 0 <= t < |apps| && Owns(apps[t], cache[i]);
      assert t != s;
      assert Owns(apps'[t], cache'[i]);
    }
  }

  /** A module that is not loaded is free for the runtime to return. */
  ghost predicate Fresh(st: State, m: nat) {
    Live(st.log).Some? && m !in Live(st.log).value
  }

  lemma LoadKeeps(st: State, gone: set<nat>, hash: nat, m: Option<nat>, now: int)
    requires Inv(st, gone) && (m.Some? ==> Fresh(st, m.value))
    ensures Inv(LoadStep(st, hash, m, now), gone)
  {
    hide FindFree, Store, Evicted, Live, CacheOk, MapOk, AppsOk, Owned;
    var s := FindFree(st.apps);
    if s.Some? && m.Some? {
      var st' := LoadStep(st, hash, m, now);
      FreeHasNoInstance(st.apps, gone, s.value);
      StoreOk(st.apps, st.cache, st'.apps, gone, s.value, hash, m.value, now);
      FilledOk(st.apps, gone, s.value, st'.apps[s.value], st.map_);
      StoreNeverEvicts(st.apps, st.cache, gone, hash);
      LiveNext(st.log, Loaded(m.value));
      assert st'.log == st.log + [Loaded(m.value)];
      OwnedAfter(st.apps, gone, s.value, st'.apps[s.value]);
      assert Owned(st'.apps) == Owned(st.apps) + {m.value};
      assert Owned(st'.apps) + gone == Owned(st.apps) + gone + {m.value};
    }
  }

  /** A free slot takes a module nobody has. */
  lemma FilledOk(apps: seq<App>, gone: set<nat>, s: nat, app: App, b: Table)
    requires AppsOk(apps, gone) && MapOk(apps, b) && s < |apps| && !apps[s].used
    requires app.wasm.Some? && app.wasm.value !in Owned(apps) + gone && app.hashValid && app.used
    requires app.instance == NULL && app.status != Running
    ensures AppsOk(apps[s := app], gone) && MapOk(apps[s := app], b)
  {
    hide Right;
    forall t | 0 <= t < |apps| && apps[t].wasm.Some?
      ensures apps[t].wasm != app.wasm
    {
      if apps[t].used {
        IsOwned(apps, t);
      }
    }
  }

  lemma FreeHasNoInstance(apps: seq<App>, gone: set<nat>, s: nat)
    requires AppsOk(apps, gone) && s < |apps| && !apps[s].used
    ensures apps[s].instance == NULL
  {
  }

  function ModuleOf(app: App): (r: set<nat>) { if HasModule(app) then {app.wasm.value} else {} }

  lemma OwnedAfter(apps: seq<App>, gone: set<nat>, s: nat, app: App)
    requires AppsOk(apps, gone) && s < |apps|
    ensures Owned(apps[s := app]) == Owned(apps) - ModuleOf(apps[s]) + ModuleOf(app)
  {
    var apps' := apps[s := app];
    forall m | m in Owned(apps')
      ensures m in Owned(apps) - ModuleOf(apps[s]) + ModuleOf(app)
    {
      var t :| 0 <= t < |apps'| && HasModule(apps'[t]) && apps'[t].wasm.value == m;
      if t != s {
        assert HasModule(apps[t]) && apps[t].wasm == Some(m);
      }
    }
    forall m | m in Owned(apps) - ModuleOf(apps[s]) + ModuleOf(app)
      ensures m in Owned(apps')
    {
      if m in ModuleOf(app) {
        assert HasModule(apps'[s]);
      } else {
        var t :| 0 <= t < |apps| && HasModule(apps[t]) && apps[t].wasm.value == m;
        assert HasModule(apps'[t]);
      }
    }
  }

  lemma IsOwned(apps: seq<App>, s: nat)
    requires s < |apps| && HasModule(apps[s])
    ensures apps[s].wasm.value in Owned(apps)
  {
  }

  /** Torn is never called for a free slot that still has a module. */
  predicate Tearable(app: App) { app.used || app.wasm.None? }

  lemma TornKeeps(st: State, gone: set<nat>, s: nat, used: bool, status: Status)
    requires Inv(st, gone) && s < |st.apps| && Tearable(st.apps[s]) && status != Running
    ensures Inv(Torn(st, s, used, status), gone)
  {
    var app := st.apps[s];
    var st' := Torn(st, s, used, status);
    assert AppsOk(st'.apps, gone);
    assert CacheOk(st'.apps, st'.cache, gone) by { TornCache(st, gone, s, used, status); }
    assert MapOk(st'.apps, st'.map_) by { TornMap(st, gone, s, used, status); }
    assert Balanced(st', gone) by {
      hide Live, CacheOk, MapOk, AppsOk, Owned;
      OwnedAfter(st.apps, gone, s, st'.apps[s]);
      if app.wasm.Some? {
        LiveNext(st.log, Unloaded(app.wasm.value));
        IsOwned(st.apps, s);
        assert Owned(st'.apps) + gone == Owned(st.apps) + gone - {app.wasm.value};
      } else {
        assert st'.log == st.log;
        assert Owned(st'.apps) == Owned(st.apps);
      }
    }
  }

  lemma TornCache(st: State, gone: set<nat>, s: nat, used: bool, status: Status)
    requires Inv(st, gone) && s < |st.apps|
    ensures var st' := Torn(st, s, used, status); CacheOk(st'.apps, st'.cache, gone)
  {
    hide Live, MapOk, Owned, Release, Invalidate, Remove, Right;
    var st' := Torn(st, s, used, status);
    if st.apps[s].hashValid {
      DropOk(st.apps, st.cache, gone, s, st'.apps[s]);
    } else {
      forall i | 0 <= i < |st.cache| && st.cache[i].used && HasOwner(st.apps, st.cache[i])
        ensures HasOwner(st'.apps, st.cache[i])
      {
        var t :| 0 <= t < |st.apps| && Owns(st.apps[t], st.cache[i]);
        assert Owns(st'.apps[t], st.cache[i]);
      }
    }
  }

  lemma TornMap(st: State, gone: set<nat>, s: nat, used: bool, status: Status)
    requires Inv(st, gone) && s < |st.apps|
    ensures var st' := Torn(st, s, used, status); MapOk(st'.apps, st'.map_)
  {
    hide Live, CacheOk, Owned, Release, Invalidate, Remove, Right;
    var st' := Torn(st, s, used, status);
    forall t | 0 <= t < |st'.apps| && st'.apps[t].instance != NULL
      ensures Right(st'.map_, st'.apps[t].instance, t)
    {
      RemoveKeepsRight(st.map_, st.apps[s].instance, st.apps[t].instance, t);
    }
  }

  lemma StartKeeps(st: State, gone: set<nat>, s: int, p: nat)
    requires Inv(st, gone) && (p != NULL ==> FindInstance(st.apps, p).None?)
    ensures Inv(StartStep(st, s, p), gone)
  {
    if SlotValid(st.apps, s) && st.apps[s].status != Running {
      var app := st.apps[s];
      if p == NULL || app.wasm.None? {
        StatusKeeps(st, gone, s, Error);
        TornKeeps(st.(apps := st.apps[s := app.(status := Error)]), gone, s, false, Error);
      } else {
        LaunchKeeps(st, gone, s, p);
      }
    }
  }

  /** Changing the status of a slot without an instance. */
  lemma StatusKeeps(st: State, gone: set<nat>, s: nat, status: Status)
    requires Inv(st, gone) && s < |st.apps| && st.apps[s].instance == NULL && status != Running
    ensures Inv(st.(apps := st.apps[s := st.apps[s].(status := status)]), gone)
  {
    hide Live, Right;
    var apps' := st.apps[s := st.apps[s].(status := status)];
    SameOwners(st.apps, apps', st.cache, gone);
  }

  lemma SameOwners(apps: seq<App>, apps': seq<App>, cache: seq<Entry>, gone: set<nat>)
    requires CacheOk(apps, cache, gone) && |apps| == |apps'|
    requires forall t :: 0 <= t < |apps| ==>
               apps'[t].wasm == apps[t].wasm && apps'[t].used == apps[t].used
               && apps'[t].hash == apps[t].hash && apps'[t].hashValid == apps[t].hashValid
    ensures CacheOk(apps', cache, gone) && Owned(apps') == Owned(apps)
  {
    forall i | 0 <= i < |cache| && HasOwner(apps, cache[i])
      ensures HasOwner(apps', cache[i])
    {
      var t :| 0 <= t < |apps| && Owns(apps[t], cache[i]);
      assert Owns(apps'[t], cache[i]);
    }
    assert forall t :: 0 <= t < |apps| ==> (HasModule(apps'[t]) <==> HasModule(apps[t]));
    assert forall t :: 0 <= t < |apps| ==> apps'[t].wasm == apps[t].wasm;
  }

  lemma LaunchKeeps(st: State, gone: set<nat>, s: nat, p: nat)
    requires Inv(st, gone) && s < |st.apps| && HasModule(st.apps[s]) && st.apps[s].instance == NULL
    requires p != NULL && FindInstance(st.apps, p).None?
    ensures Inv(st.(apps := st.apps[s := st.apps[s].(instance := p, status := Running)], map_ := Put(st.map_, p, s)), gone)
  {
    hide Live, Right, Put, FindInstance;
    var apps' := st.apps[s := st.apps[s].(instance := p, status := Running)];
    SameOwners(st.apps, apps', st.cache, gone);
    hide CacheOk, Owned;
    PutRight(st.map_, p, s);
    forall t | 0 <= t < |apps'| && apps'[t].instance != NULL
      ensures Right(Put(st.map_, p, s), apps'[t].instance, t)
    {
      if t != s {
        PutKeepsRight(st.map_, p, s, apps'[t].instance, t);
      }
    }
  }

  lemma StopKeeps(st: State, gone: set<nat>, s: int, timedOut: bool)
    requires Inv(st, gone)
    ensures Inv(StopStep(st, s, timedOut), gone)
  {
    if SlotValid(st.apps, s) {
      if st.apps[s].status == Running {
        TornKeeps(st, gone, s, timedOut, Stopped);
      } else {
        StatusKeeps(st, gone, s, Stopped);
      }
    }
  }

  lemma DestroyKeeps(st: State, gone: set<nat>, s: int, timedOut: bool)
    requires Inv(st, gone)
    ensures Inv(DestroyStep(st, s, timedOut), gone)
  {
    hide Inv, Torn, StopStep;
    if SlotValid(st.apps, s) {
      var status := st.apps[s].status;
      var st' := if status == Running || status == Exited then StopStep(st, s, timedOut) else st;
      StopKeeps(st, gone, s, timedOut);
      StopSlots(st, s, timedOut);
      TornKeeps(st', gone, s, false, Stopped);
    }
  }

  lemma StopSlots(st: State, s: int, timedOut: bool)
    ensures |StopStep(st, s, timedOut).apps| == |st.apps|
    ensures SlotValid(st.apps, s) ==> Tearable(StopStep(st, s, timedOut).apps[s])
  {
  }

  lemma LookupKeeps(st: State, gone: set<nat>, p: nat)
    requires Inv(st, gone)
    ensures Inv(SlotOfInst(st, p).1, gone)
  {
    hide Live, Right, Put, Get;
    var i := FindInstance(st.apps, p);
    if p != NULL && Get(st.map_, p) < 0 && i.Some? {
      PutRight(st.map_, p, i.value);
      forall t | 0 <= t < |st.apps| && st.apps[t].instance != NULL
        ensures Right(Put(st.map_, p, i.value), st.apps[t].instance, t)
      {
        if t != i.value {
          PutKeepsRight(st.map_, p, i.value, st.apps[t].instance, t);
        }
      }
    }
  }

  /** The module a start timeout abandons. */
  function Lost(st: State, a: Action): (r: set<nat>) {
    if a.StartTimeout? && SlotValid(st.apps, a.slot) && st.apps[a.slot].status != Running then ModuleOf(st.apps[a.slot])
    else {}
  }

  /** A start timeout moves the module of its slot, if there is one, from the owned to the lost. */
  lemma StartTimeoutKeeps(st: State, gone: set<nat>, s: int)
    requires Inv(st, gone)
    ensures Inv(StartTimeoutStep(st, s), gone + Lost(st, StartTimeout(s)))
    ensures var st' := StartTimeoutStep(st, s);
            && st' == st.(apps := st'.apps)
            && (SlotValid(st.apps, s) && st.apps[s].status != Running ==> st'.apps == st.apps[s := st.apps[s].(used := false)])
  {
    assert gone + {} == gone;
    if SlotValid(st.apps, s) && st.apps[s].status != Running {
      hide Live, Right;
      var st' := StartTimeoutStep(st, s);
      OwnedAfter(st.apps, gone, s, st'.apps[s]);
      var gone' := gone + ModuleOf(st.apps[s]);
      forall i | 0 <= i < |st.cache| && st.cache[i].used && st.cache[i].wasm.value !in gone'
        ensures HasOwner(st'.apps, st.cache[i])
      {
        var t :| 0 <= t < |st.apps| && Owns(st.apps[t], st.cache[i]);
        assert Owns(st'.apps[t], st.cache[i]);
      }
      if HasModule(st.apps[s]) {
        IsOwned(st.apps, s);
      }
      assert Owned(st'.apps) + gone' == Owned(st.apps) + gone;
    }
  }

  /** Main result: in every such state, a live instance is found in its own slot. */
  lemma LookupFindsOwn(st: State, gone: set<nat>, s: nat)
    requires Inv(st, gone) && s < |st.apps| && st.apps[s].instance != NULL
    ensures SlotOfInst(st, st.apps[s].instance).0 == s
  {
    GetRight(st.map_, st.apps[s].instance, s);
  }

  // ----- what a load and a teardown change -----

  /** A load takes the first free slot for its module and hash, counts or caches it, and changes nothing else. */
  lemma LoadTakes(st: State, gone: set<nat>, hash: nat, m: nat, now: int)
    requires Inv(st, gone) && Fresh(st, m) && FindFree(st.apps).Some?
    ensures var st', s := LoadStep(st, hash, Some(m), now), FindFree(st.apps).value;
            && Owned(st'.apps) == Owned(st.apps) + {m} && st'.log == st.log + [Loaded(m)] && st'.map_ == st.map_
            && st'.apps == st.apps[s := App(true, Created, Some(m), hash, true, NULL)]
            && (forall h :: Cached(st'.cache, h) ==
                  if h != hash then Cached(st.cache, h)
                  else if Cached(st.cache, h).Some? then Some((Cached(st.cache, h).value.0, Cached(st.cache, h).value.1 + 1))
                  else if FindVacant(st.cache).Some? then Some((Some(m), 1))
                  else None)
  {
    hide LoadStep, Live, MapOk, FindEntry, FindVacant, Store, Owned, Cached, Evicted;
    var s := FindFree(st.apps).value;
    LoadSlots(st, hash, m, now);
    FreeHasNoInstance(st.apps, gone, s);
    EvictsNothing(st, gone, hash);
    OwnedAfter(st.apps, gone, s, LoadStep(st, hash, Some(m), now).apps[s]);
    assert ModuleOf(st.apps[s]) == {};
    StoreCaches(st.cache, hash, m, now);
  }

  /** A request for a slot that is not in use changes nothing, and neither does starting an app that runs. */
  lemma NothingToDo(st: State, s: int, p: nat, timedOut: bool)
    ensures !SlotValid(st.apps, s) ==>
              StartStep(st, s, p) == StartTimeoutStep(st, s) == StopStep(st, s, timedOut) == DestroyStep(st, s, timedOut) == st
    ensures SlotValid(st.apps, s) && st.apps[s].status == Running ==> StartStep(st, s, p) == StartTimeoutStep(st, s) == st
    ensures FindFree(st.apps).None? ==> LoadStep(st, p, Some(p), p) == st
  {
  }

  lemma LoadSlots(st: State, hash: nat, m: nat, now: int)
    requires FindFree(st.apps).Some?
    ensures var st', s := LoadStep(st, hash, Some(m), now), FindFree(st.apps).value;
            && st'.apps == st.apps[s := App(true, Created, Some(m), hash, true, st.apps[s].instance)]
            && st'.cache == Store(st.cache, hash, m, now) && st'.map_ == st.map_
            && (Evicted(st.cache, hash).None? ==> st'.log == st.log + [Loaded(m)])
  {
  }

  /**
   Slot `s` has given up all it had, and nothing else changed: its module is the one unloaded, its
   hash the one forgotten, its instance is not found any more.
   */
  ghost predicate GaveUp(st: State, st': State, s: nat)
    requires s < |st.apps|
  {
    var app := st.apps[s];
    && |st'.apps| == |st.apps| && (forall t :: 0 <= t < |st.apps| && t != s ==> st'.apps[t] == st.apps[t])
    && st'.apps[s].wasm == None && st'.apps[s].instance == NULL
    && Owned(st'.apps) == Owned(st.apps) - (if app.wasm.Some? then {app.wasm.value} else {})
    && st'.log == st.log + (if app.wasm.Some? then [Unloaded(app.wasm.value)] else [])
    && (forall h :: Cached(st'.cache, h) == if app.wasm.Some? && h == app.hash then None else Cached(st.cache, h))
    && (app.instance != NULL ==> SlotOfInst(st', app.instance) == (-1, st'))
  }

  lemma TornGivesUp(st: State, gone: set<nat>, s: nat, used: bool, status: Status)
    requires Inv(st, gone) && s < |st.apps| && Tearable(st.apps[s])
    ensures var st' := Torn(st, s, used, status);
            GaveUp(st, st', s) && st'.apps[s].used == used && st'.apps[s].status == status
  {
    hide Live, MapOk, Release, Invalidate, Remove, Owned, Cached, SlotOfInst;
    var st' := Torn(st, s, used, status);
    OwnedAfter(st.apps, gone, s, st'.apps[s]);
    DropForgets(st.cache, st.apps[s].hash);
    if st.apps[s].instance != NULL {
      TornNotFound(st, gone, s, used, status);
    }
  }

  lemma TornNotFound(st: State, gone: set<nat>, s: nat, used: bool, status: Status)
    requires Inv(st, gone) && s < |st.apps| && st.apps[s].instance != NULL
    ensures var st' := Torn(st, s, used, status); SlotOfInst(st', st.apps[s].instance) == (-1, st')
  {
    hide Live, MapOk, Release, Invalidate, Remove, CacheOk, Owned, Get;
    RemoveForgets(st.map_, st.apps[s].instance);
  }

  /** A running app that is stopped: its slot stays reserved only after an abort. */
  lemma StopEnds(st: State, gone: set<nat>, s: nat, timedOut: bool)
    requires Inv(st, gone) && SlotValid(st.apps, s) && st.apps[s].status == Running
    ensures var st' := StopStep(st, s, timedOut);
            && GaveUp(st, st', s) && st.apps[s].wasm.Some? && st.apps[s].instance != NULL
            && st'.apps[s].status == Stopped && st'.apps[s].used == timedOut
  {
    hide Inv, Torn, GaveUp;
    TornGivesUp(st, gone, s, timedOut, Stopped);
    RunningHas(st, gone, s);
  }

  lemma RunningHas(st: State, gone: set<nat>, s: nat)
    requires Inv(st, gone) && s < |st.apps| && st.apps[s].status == Running
    ensures HasModule(st.apps[s]) && st.apps[s].instance != NULL
  {
  }

  /** Stopping an app that does not run changes at most its status. */
  lemma StopOthers(st: State, s: int, timedOut: bool)
    requires !SlotValid(st.apps, s) || st.apps[s].status != Running
    ensures StopStep(st, s, timedOut) ==
            if SlotValid(st.apps, s) && (st.apps[s].status == Exited || st.apps[s].status == Error)
            then st.(apps := st.apps[s := st.apps[s].(status := Stopped)]) else st
  {
  }

  /** Destroying frees the slot and all it had, whatever its status. */
  lemma DestroyFrees(st: State, gone: set<nat>, s: nat, timedOut: bool)
    requires Inv(st, gone) && SlotValid(st.apps, s)
    ensures var st' := DestroyStep(st, s, timedOut);
            GaveUp(st, st', s) && !st'.apps[s].used && st'.apps[s].status == Stopped
  {
    hide Inv, Torn, GaveUp, StopStep;
    var status := st.apps[s].status;
    var st1 := StopStep(st, s, timedOut);
    if status == Running {
      StopEnds(st, gone, s, timedOut);
      StopKeeps(st, gone, s, timedOut);
      EmptySlot(st, st1, s);
      TornGivesUp(st1, gone, s, false, Stopped);
      TornTable(st1, s, false, Stopped);
      GivesUpTwice(st, st1, Torn(st1, s, false, Stopped), s);
    } else if status == Exited {
      StopOthers(st, s, timedOut);
      StopKeeps(st, gone, s, timedOut);
      TornGivesUp(st1, gone, s, false, Stopped);
      SameModules(st.apps, st1.apps);
      SameGivesUp(st, st1, Torn(st1, s, false, Stopped), s, Stopped);
    } else {
      TornGivesUp(st, gone, s, false, Stopped);
    }
  }

  lemma EmptySlot(st: State, st': State, s: nat)
    requires s < |st.apps| && GaveUp(st, st', s)
    ensures s < |st'.apps| && Tearable(st'.apps[s]) && st'.apps[s].instance == NULL
  {
  }

  lemma TornTable(st: State, s: nat, used: bool, status: Status)
    requires s < |st.apps| && st.apps[s].instance == NULL
    ensures Torn(st, s, used, status).map_ == st.map_
  {
  }

  lemma GivesUpTwice(st: State, st1: State, st2: State, s: nat)
    requires s < |st.apps| && GaveUp(st, st1, s) && s < |st1.apps| && GaveUp(st1, st2, s)
    requires st2.map_ == st1.map_
    ensures GaveUp(st, st2, s)
  {
    hide Owned, Cached, Get, Put;
  }

  lemma SameGivesUp(st: State, st1: State, st2: State, s: nat, status: Status)
    requires s < |st.apps| && |st1.apps| == |st.apps| && GaveUp(st1, st2, s)
    requires st1 == st.(apps := st.apps[s := st.apps[s].(status := status)]) && Owned(st1.apps) == Owned(st.apps)
    ensures GaveUp(st, st2, s)
  {
    hide Owned, Cached, SlotOfInst;
  }

  /** A thread that ends by itself frees its slot and all it had. */
  lemma ExitFrees(st: State, gone: set<nat>, s: nat)
    requires Inv(st, gone) && SlotValid(st.apps, s) && st.apps[s].status == Running
    ensures var st' := ExitStep(st, s);
            GaveUp(st, st', s) && !st'.apps[s].used && st'.apps[s].status == Exited
  {
    hide Inv, Torn, GaveUp;
    TornGivesUp(st, gone, s, false, Exited);
  }

  /** A start that succeeds: the slot runs the new instance with the module it had. */
  lemma StartRuns(st: State, s: nat, p: nat)
    requires SlotValid(st.apps, s) && st.apps[s].status != Running && st.apps[s].wasm.Some? && p != NULL
    ensures var st' := StartStep(st, s, p);
            && st'.apps == st.apps[s := st.apps[s].(instance := p, status := Running)]
            && st'.cache == st.cache && st'.log == st.log
  {
  }

  /** A start whose instantiation fails frees the slot and all it had. */
  lemma StartFails(st: State, gone: set<nat>, s: nat, p: nat)
    requires Inv(st, gone) && SlotValid(st.apps, s) && st.apps[s].status != Running
    requires p == NULL || st.apps[s].wasm.None?
    ensures var st' := StartStep(st, s, p);
            GaveUp(st, st', s) && !st'.apps[s].used && st'.apps[s].status == Error
  {
    hide Torn, GaveUp, Live, CacheOk, MapOk, Owned;
    NotRunningHasNone(st, gone, s);
    var st1 := st.(apps := st.apps[s := st.apps[s].(status := Error)]);
    StatusKeeps(st, gone, s, Error);
    hide Inv;
    TornGivesUp(st1, gone, s, false, Error);
    SameModules(st.apps, st1.apps);
    SameGivesUp(st, st1, Torn(st1, s, false, Error), s, Error);
  }

  lemma NotRunningHasNone(st: State, gone: set<nat>, s: nat)
    requires Inv(st, gone) && s < |st.apps| && st.apps[s].status != Running
    ensures st.apps[s].instance == NULL
  {
  }

  /** A started app's instance is found by the table alone, if the table had a place for it. */
  lemma StartIsFound(st: State, s: nat, p: nat)
    requires SlotValid(st.apps, s) && st.apps[s].status != Running && st.apps[s].wasm.Some? && p != NULL
    requires PutAt(st.map_, p) < SIZE
    ensures SlotOfInst(StartStep(st, s, p), p) == (s, StartStep(st, s, p))
  {
    hide Get, Put, PutAt;
    PutThenGet(st.map_, p, s);
  }

  /** A lookup changes nothing but the table; one of a live instance leaves it found by the table alone, given a place. */
  lemma LookupRepairs(st: State, gone: set<nat>, s: nat)
    requires Inv(st, gone) && s < |st.apps| && st.apps[s].instance != NULL
    ensures var st' := SlotOfInst(st, st.apps[s].instance).1;
            && st' == st.(map_ := st'.map_)
            && (PutAt(st.map_, st.apps[s].instance) < SIZE ==> Get(st'.map_, st.apps[s].instance) == s)
  {
    hide Get, Put, PutAt, Live, CacheOk, Owned;
    var p := st.apps[s].instance;
    LookupFindsOwn(st, gone, s);
    if Get(st.map_, p) < 0 && PutAt(st.map_, p) < SIZE {
      PutThenGet(st.map_, p, s);
    }
  }

  // ----- runs -----

  datatype Action =
    | Load(hash: nat, wasm: Option<nat>, now: int)
    | Start(slot: int, inst: nat)
    | StartTimeout(slot: int)
    | ThreadExit(running: nat)
    | Stop(slot: int, timedOut: bool)
    | Destroy(slot: int, timedOut: bool)
    | Lookup(inst: nat)

  /**
   What the WebAssembly runtime promises: a new module is not one still loaded, a new instance not
   one that is alive. A thread can end by itself only while it runs.
   */
  ghost predicate Possible(st: State, a: Action) {
    match a
    case Load(_, m, _) => m.Some? ==> Fresh(st, m.value)
    case Start(_, p) => p != NULL ==> FindInstance(st.apps, p).None?
    case ThreadExit(s) => s < |st.apps| && st.apps[s].used && st.apps[s].status == Running
    case _ => true
  }

  function Next(st: State, a: Action): (r: State)
    requires a.ThreadExit? ==> a.running < |st.apps|
  {
    match a
    case Load(h, m, now) => LoadStep(st, h, m, now)
    case Start(s, p) => StartStep(st, s, p)
    case StartTimeout(s) => StartTimeoutStep(st, s)
    case ThreadExit(s) => ExitStep(st, s)
    case Stop(s, timedOut) => StopStep(st, s, timedOut)
    case Destroy(s, timedOut) => DestroyStep(st, s, timedOut)
    case Lookup(p) => SlotOfInst(st, p).1
  }

  lemma NextKeeps(st: State, gone: set<nat>, a: Action)
    requires Inv(st, gone) && Possible(st, a)
    ensures Inv(Next(st, a), gone + Lost(st, a))
  {
    hide Inv, LoadStep, StartStep, StopStep, DestroyStep, SlotOfInst, StartTimeoutStep, Torn;
    assert gone + {} == gone;
    match a
    case Load(h, m, now) => LoadKeeps(st, gone, h, m, now);
    case Start(s, p) => StartKeeps(st, gone, s, p);
    case StartTimeout(s) => StartTimeoutKeeps(st, gone, s);
    case ThreadExit(s) => TornKeeps(st, gone, s, false, if st.apps[s].status == Error then Error else Exited);
    case Stop(s, timedOut) => StopKeeps(st, gone, s, timedOut);
    case Destroy(s, timedOut) => DestroyKeeps(st, gone, s, timedOut);
    case Lookup(p) => LookupKeeps(st, gone, p);
  }

  ghost predicate Initial(st: State) {
    && (forall s :: 0 <= s < |st.apps| ==> st.apps[s] == FREE)
    && (forall i :: 0 <= i < |st.cache| ==> st.cache[i] == VACANT)
    && st.map_ == seq(SIZE, i => EMPTY)
    && st.log == []
  }

  ghost predicate Run(states: seq<State>, actions: seq<Action>) {
    && |states| == |actions| + 1 && Initial(states[0])
    && forall i :: 0 <= i < |actions| ==> Possible(states[i], actions[i]) && states[i + 1] == Next(states[i], actions[i])
  }

  /** The modules start timeouts abandoned in the first `i` steps. */
  function Abandoned(states: seq<State>, actions: seq<Action>, i: nat): (r: set<nat>)
    requires i <= |actions| < |states|
  {
    if i == 0 then {} else Abandoned(states, actions, i - 1) + Lost(states[i - 1], actions[i - 1])
  }

  lemma InitialInv(st: State)
    requires Initial(st)
    ensures Inv(st, {})
  {
    assert Owned(st.apps) == {} && Owned(st.apps) + {} == {};
  }

  lemma {:induction false} RunInv(states: seq<State>, actions: seq<Action>, i: nat)
    requires Run(states, actions) && i <= |actions|
    ensures Inv(states[i], Abandoned(states, actions, i))
  {
    hide Inv, Initial, Next, Possible, Lost;
    if i == 0 {
      InitialInv(states[0]);
    } else {
      RunInv(states, actions, i - 1);
      NextKeeps(states[i - 1], Abandoned(states, actions, i - 1), actions[i - 1]);
    }
  }

  /**
   Main result, over any run from start-up: the modules loaded and not yet unloaded are exactly
   those of the slots in use, one slot each, and apart from them those start timeouts abandoned;
   none was ever unloaded while not loaded.
   */
  lemma RunOwnership(states: seq<State>, actions: seq<Action>, i: nat)
    requires Run(states, actions) && i <= |actions|
    ensures var st, lost := states[i], Abandoned(states, actions, i);
            && Live(st.log) == Some(Owned(st.apps) + lost) && Owned(st.apps) !! lost
            && (forall s, t :: 0 <= s < t < |st.apps| && st.apps[s].wasm.Some? ==> st.apps[s].wasm != st.apps[t].wasm)
            && (Live(st.log) == Some(Owned(st.apps)) <==> lost == {})
  {
    RunInv(states, actions, i);
    hide Live, Owned, CacheOk, MapOk, Abandoned;
    NothingAdded(Owned(states[i].apps), Abandoned(states, actions, i));
  }

  lemma NothingAdded(a: set<nat>, b: set<nat>)
    requires a !! b
    ensures a + b == a <==> b == {}
  {
    assert a + b - a == b && a - a == {};
  }

  /** Over any run, cached hashes are distinct and every cached module is still loaded, with a reference and its owner. */
  lemma RunCache(states: seq<State>, actions: seq<Action>, i: nat, k: nat)
    requires Run(states, actions) && i <= |actions|
    ensures var st, lost := states[i], Abandoned(states, actions, i);
            && Distinct(st.cache) && Live(st.log).Some?
            && (k < |st.cache| && st.cache[k].used ==>
                  && st.cache[k].refs >= 1 && st.cache[k].wasm.Some?
                  && st.cache[k].wasm.value in Live(st.log).value
                  && (st.cache[k].wasm.value !in lost ==> HasOwner(st.apps, st.cache[k])))
  {
    RunInv(states, actions, i);
    var st := states[i];
    if k < |st.cache| && st.cache[k].used && HasOwner(st.apps, st.cache[k]) {
      var s :| 0 <= s < |st.apps| && Owns(st.apps[s], st.cache[k]);
      IsOwned(st.apps, s);
    }
  }

  /** Over any run, a live instance is found in its own slot. */
  lemma RunLookup(states: seq<State>, actions: seq<Action>, i: nat, s: nat)
    requires Run(states, actions) && i <= |actions|
    requires s < |states[i].apps| && states[i].apps[s].instance != NULL
    ensures SlotOfInst(states[i], states[i].apps[s].instance).0 == s
  {
    RunInv(states, actions, i);
    LookupFindsOwn(states[i], Abandoned(states, actions, i), s);
  }

  /** Over any run, a slot has an instance exactly while it runs, and then it is in use and has its module. */
  lemma RunRunning(states: seq<State>, actions: seq<Action>, i: nat, s: nat)
    requires Run(states, actions) && i <= |actions| && s < |states[i].apps|
    ensures var app := states[i].apps[s];
            && (app.instance != NULL <==> app.status == Running)
            && (app.status == Running ==> app.used && app.wasm.Some?)
  {
    RunInv(states, actions, i);
  }

  // ----- what a start timeout loses -----

  /** A step only adds to the log, and unloads only modules of slots in use. */
  ghost predicate Extends(st: State, log: seq<Event>) {
    && |st.log| <= |log| && log[..|st.log|] == st.log
    && forall k :: |st.log| <= k < |log| && log[k].Unloaded? ==> log[k].m in Owned(st.apps)
  }

  lemma TornExtends(st: State, s: nat, used: bool, status: Status)
    requires s < |st.apps| && Tearable(st.apps[s])
    ensures Extends(st, Torn(st, s, used, status).log)
  {
    if st.apps[s].wasm.Some? {
      IsOwned(st.apps, s);
    }
  }

  lemma NextExtends(st: State, gone: set<nat>, a: Action)
    requires Inv(st, gone) && Possible(st, a)
    ensures Extends(st, Next(st, a).log)
  {
    hide Inv, Torn, FindFree, Live;
    match a
    case Load(h, m, now) =>
      assert Evicted(st.cache, h) == None by { EvictsNothing(st, gone, h); }
    case Start(s, p) =>
      if SlotValid(st.apps, s) && st.apps[s].status != Running && (p == NULL || st.apps[s].wasm.None?) {
        var mid := st.(apps := st.apps[s := st.apps[s].(status := Error)]);
        TornExtends(mid, s, false, Error);
        SameModules(st.apps, mid.apps);
      }
    case StartTimeout(s) =>
    case ThreadExit(s) => TornExtends(st, s, false, if st.apps[s].status == Error then Error else Exited);
    case Stop(s, timedOut) =>
      if SlotValid(st.apps, s) {
        TornExtends(st, s, timedOut, Stopped);
      }
    case Destroy(s, timedOut) =>
      if SlotValid(st.apps, s) {
        DestroyExtends(st, s, timedOut);
      }
    case Lookup(p) =>
  }

  lemma EvictsNothing(st: State, gone: set<nat>, hash: nat)
    requires Inv(st, gone)
    ensures Evicted(st.cache, hash) == None
  {
    StoreNeverEvicts(st.apps, st.cache, gone, hash);
  }

  lemma SameModules(apps: seq<App>, apps': seq<App>)
    requires |apps| == |apps'|
    requires forall t :: 0 <= t < |apps| ==> apps'[t].wasm == apps[t].wasm && apps'[t].used == apps[t].used
    ensures Owned(apps') == Owned(apps)
  {
    assert forall t :: 0 <= t < |apps| ==> (HasModule(apps'[t]) <==> HasModule(apps[t]));
  }

  lemma DestroyExtends(st: State, s: int, timedOut: bool)
    requires SlotValid(st.apps, s)
    ensures Extends(st, DestroyStep(st, s, timedOut).log)
  {
    hide Owned;
    var status := st.apps[s].status;
    var st' := if status == Running || status == Exited then StopStep(st, s, timedOut) else st;
    StopSlots(st, s, timedOut);
    if status == Running {
      TornExtends(st, s, timedOut, Stopped);
      assert st'.apps[s].wasm.None?;
      assert Torn(st', s, false, Stopped).log == st'.log;
    } else {
      SameModules(st.apps, st'.apps);
      TornExtends(st', s, false, Stopped);
    }
  }

  /**
   Main result: a module abandoned by a start timeout stays loaded for the rest of every run: it is
   never unloaded, no slot in use ever has it, and it is counted among the abandoned forever.
   */
  lemma {:induction false} AbandonedForever(states: seq<State>, actions: seq<Action>, i: nat, j: nat, m: nat)
    requires Run(states, actions) && i <= j <= |actions| && m in Abandoned(states, actions, i)
    ensures m in Abandoned(states, actions, j)
    ensures Live(states[j].log).Some? && m in Live(states[j].log).value && m !in Owned(states[j].apps)
    ensures |states[i].log| <= |states[j].log|
    ensures forall k :: |states[i].log| <= k < |states[j].log| ==> states[j].log[k] != Unloaded(m)
    decreases j
  {
    hide Live, Next, Possible, Lost;
    RunOwnership(states, actions, j);
    if i < j {
      AbandonedForever(states, actions, i, j - 1, m);
      RunInv(states, actions, j - 1);
      NextExtends(states[j - 1], Abandoned(states, actions, j - 1), actions[j - 1]);
      var before, after := states[j - 1].log, states[j].log;
      forall k | |states[i].log| <= k < |after|
        ensures after[k] != Unloaded(m)
      {
        assert k < |before| ==> after[k] == after[..|before|][k] == before[k];
      }
    }
  }

  /** Loading the slot again overwrites the last trace of the module: no slot knows it any more. */
  lemma ReloadForgets(st: State, gone: set<nat>, hash: nat, m: nat, now: int)
    requires Inv(st, gone) && Fresh(st, m) && FindFree(st.apps).Some?
    ensures var s := FindFree(st.apps).value;
            st.apps[s].wasm.Some? ==>
              forall t :: 0 <= t < |st.apps| ==> LoadStep(st, hash, Some(m), now).apps[t].wasm != st.apps[s].wasm
  {
    hide Live, CacheOk, MapOk, FindFree, Store;
    LoadSlots(st, hash, m, now);
  }

  /** A module is abandoned if and only if some start timeout hit the slot in use that had it. */
  lemma {:induction false} AbandonedIff(states: seq<State>, actions: seq<Action>, i: nat, m: nat)
    requires Run(states, actions) && i <= |actions|
    ensures m in Abandoned(states, actions, i) <==> exists k :: 0 <= k < i && m in Lost(states[k], actions[k])
  {
    hide Run, Lost;
    if i > 0 {
      AbandonedIff(states, actions, i - 1, m);
    }
  }

  lemma LoadsFirst(st: State, m: nat)
    requires Initial(st) && |st.apps| == 1
    ensures var st1 := Next(st, Load(1, Some(m), 0));
            && Possible(st, Load(1, Some(m), 0)) && Inv(st1, {})
            && st1.apps == [App(true, Created, Some(m), 1, true, NULL)]
            && st1.log == [Loaded(m)] && Live(st1.log) == Some({m})
  {
    InitialInv(st);
    EvictsNothing(st, {}, 1);
    LiveNext([], Loaded(m));
    assert [] + [Loaded(m)] == [Loaded(m)] && {} + {m} == {m};
    LoadKeeps(st, {}, 1, Some(m), 0);
  }

  lemma LoadsAgain(st: State, gone: set<nat>, m: nat)
    requires Inv(st, gone) && |st.apps| == 1 && !st.apps[0].used && Fresh(st, m)
    ensures var st' := Next(st, Load(2, Some(m), 1));
            && st'.apps == [App(true, Created, Some(m), 2, true, st.apps[0].instance)]
            && Live(st'.log) == Some(Live(st.log).value + {m}) && Owned(st'.apps) == {m}
  {
    hide AppsOk, CacheOk, MapOk;
    EvictsNothing(st, gone, 2);
    LiveNext(st.log, Loaded(m));
    var st' := Next(st, Load(2, Some(m), 1));
    assert st'.log == st.log + [Loaded(m)];
    assert HasModule(st'.apps[0]);
  }

  /** From start-up: a load, a start timeout and a load leave a module loaded that no slot knows. */
  lemma StartTimeoutLeaks(st: State, m: nat, m': nat)
    requires Initial(st) && |st.apps| == 1 && m != m'
    ensures var a, b, c := Load(1, Some(m), 0), StartTimeout(0), Load(2, Some(m'), 1);
            var st1 := Next(st, a);
            var st2 := Next(st1, b);
            var st3 := Next(st2, c);
            && Run([st, st1, st2, st3], [a, b, c])
            && Live(st3.log) == Some({m, m'}) && Owned(st3.apps) == {m'} && st3.apps[0].wasm == Some(m')
  {
    hide Initial, Inv, LoadStep, Live, Owned;
    var st1 := Next(st, Load(1, Some(m), 0));
    LoadsFirst(st, m);
    var st2 := Next(st1, StartTimeout(0));
    assert st2.log == st1.log && st2.apps == [App(false, Created, Some(m), 1, true, NULL)];
    StartTimeoutKeeps(st1, {}, 0);
    LoadsAgain(st2, {} + Lost(st1, StartTimeout(0)), m');
    assert {m} + {m'} == {m, m'};
  }
}
