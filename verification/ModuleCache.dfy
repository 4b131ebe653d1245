/**
 The cache of loaded modules: looked up by hash, counted, and evicted least recently used first
 among the entries nobody references.
 */
module ModuleCaches {
  import opened Errnos

  datatype Entry = Entry(used: bool, hash: nat, wasm: Option<nat>, refs: nat, lastUsed: int)

  const NEVER: int := 0x7FFF_FFFF_FFFF_FFFF

  const VACANT := Entry(false, 0, None, 0, 0)

  predicate Matches(e: Entry, hash: nat) { e.used && e.hash == hash }

  function FindEntry(es: seq<Entry>, hash: nat, i: nat := 0): (r: Option<nat>)
    requires i <= |es|
    ensures r.Some? ==> i <= r.value < |es| && Matches(es[r.value], hash)
    ensures r.None? ==> forall k :: i <= k < |es| ==> !Matches(es[k], hash)
    decreases |es| - i
  {
    if i == |es| then None else if Matches(es[i], hash) then Some(i) else FindEntry(es, hash, i + 1)
  }

  function FindVacant(es: seq<Entry>, i: nat := 0): (r: Option<nat>)
    requires i <= |es|
    ensures r.Some? ==> i <= r.value < |es| && !es[r.value].used
    ensures r.None? ==> forall k :: i <= k < |es| ==> es[k].used
    decreases |es| - i
  {
    if i == |es| then None else if !es[i].used then Some(i) else FindVacant(es, i + 1)
  }

  /** Older than `t` and nobody references it. */
  predicate Evictable(e: Entry, t: int) { e.refs == 0 && e.lastUsed < t }

  /** The scan for the entry to evict among the first `n`. */
  function FindOldest(es: seq<Entry>, n: nat): (r: Option<nat>)
    requires n <= |es|
    ensures r.Some? ==> r.value < n && es[r.value].refs == 0
  {
    if n == 0 then None
    else
      var r := FindOldest(es, n - 1);
      if Evictable(es[n - 1], if r.Some? then es[r.value].lastUsed else NEVER) then Some(n - 1) else r
  }

  /** The entry chosen is the least recently used of those without references, the first of them on a tie. */
  lemma {:induction false} FindOldestIsOldest(es: seq<Entry>, n: nat)
    requires n <= |es| && forall k :: 0 <= k < |es| ==> es[k].lastUsed < NEVER
    ensures FindOldest(es, n).None? <==> forall k :: 0 <= k < n ==> es[k].refs > 0
    ensures FindOldest(es, n).Some? ==>
              forall k :: 0 <= k < n && es[k].refs == 0 ==>
                es[FindOldest(es, n).value].lastUsed <= es[k].lastUsed
                && (k < FindOldest(es, n).value ==> es[FindOldest(es, n).value].lastUsed < es[k].lastUsed)
  {
    if n > 0 {
      FindOldestIsOldest(es, n - 1);
      var r := FindOldest(es, n - 1);
      if r.None? && es[n - 1].refs > 0 {
        assert FindOldest(es, n) == None;
      }
    }
  }

  function Victim(es: seq<Entry>): (r: Option<nat>) {
    var v := FindVacant(es);
    if v.Some? then v else FindOldest(es, |es|)
  }

  function Store(es: seq<Entry>, hash: nat, m: nat, now: int): (r: seq<Entry>) {
    match FindEntry(es, hash)
    case Some(i) => es[i := es[i].(refs := es[i].refs + 1, lastUsed := now)]
    case None =>
      match Victim(es)
      case None => es
      case Some(i) => if es[i].used && es[i].refs > 0 then es else es[i := Entry(true, hash, Some(m), 1, now)]
  }

  /** The module a store unloads to make room. */
  function Evicted(es: seq<Entry>, hash: nat): (r: Option<nat>) {
    if FindEntry(es, hash).Some? then None
    else
      match Victim(es)
      case None => None
      case Some(i) => if es[i].used && es[i].refs == 0 then es[i].wasm else None
  }

  function Release(es: seq<Entry>, hash: nat): (r: seq<Entry>) {
    match FindEntry(es, hash)
    case None => es
    case Some(i) => if es[i].refs > 0 then es[i := es[i].(refs := es[i].refs - 1)] else es
  }

  function Invalidate(es: seq<Entry>, hash: nat): (r: seq<Entry>) {
    match FindEntry(es, hash)
    case None => es
    case Some(i) => es[i := es[i].(wasm := None, used := false, refs := 0)]
  }

  // ----- the cache as a map from hashes -----

  ghost predicate Distinct(es: seq<Entry>) {
    forall i, j :: 0 <= i < j < |es| && es[i].used && es[j].used ==> es[i].hash != es[j].hash
  }

  /** The module and the references cached under a hash. */
  function Cached(es: seq<Entry>, hash: nat): (r: Option<(Option<nat>, nat)>) {
    match FindEntry(es, hash)
    case None => None
    case Some(i) => Some((es[i].wasm, es[i].refs))
  }

  lemma CachedAt(es: seq<Entry>, i: nat)
    requires Distinct(es) && i < |es| && es[i].used
    ensures FindEntry(es, es[i].hash) == Some(i)
  {
    assert Matches(es[i], es[i].hash);
  }

  /** Changing entry `i` between hash `hash` and vacancy leaves what is cached under any other hash. */
  lemma OthersCached(es: seq<Entry>, i: nat, e: Entry, hash: nat, h: nat)
    requires i < |es| && Distinct(es) && Distinct(es[i := e]) && h != hash
    requires (es[i].used ==> es[i].hash == hash) && (e.used ==> e.hash == hash)
    ensures Cached(es[i := e], h) == Cached(es, h)
  {
    var es' := es[i := e];
    var r := FindEntry(es, h);
    if r.Some? {
      CachedAt(es', r.value);
    } else {
      forall k | 0 <= k < |es'|
        ensures !Matches(es'[k], h)
      {
        assert !Matches(es[k], h);
      }
    }
  }

  /** A store counts a cached hash once more, fills a vacant entry with a new one, and touches no other hash. */
  lemma StoreCaches(es: seq<Entry>, hash: nat, m: nat, now: int)
    requires Distinct(es) && forall k :: 0 <= k < |es| && es[k].used ==> es[k].refs >= 1
    ensures Distinct(Store(es, hash, m, now))
    ensures forall h :: Cached(Store(es, hash, m, now), h) ==
              if h != hash then Cached(es, h)
              else if Cached(es, h).Some? then Some((Cached(es, h).value.0, Cached(es, h).value.1 + 1))
              else if FindVacant(es).Some? then Some((Some(m), 1))
              else None
  {
    hide FindEntry, FindVacant, Victim;
    if FindEntry(es, hash).Some? {
      StoreCounts(es, hash, m, now);
    } else if FindVacant(es).Some? {
      StoreFills(es, hash, m, now);
    } else {
      StoreRefused(es, hash, m, now);
    }
  }

  lemma StoreCounts(es: seq<Entry>, hash: nat, m: nat, now: int)
    requires Distinct(es) && FindEntry(es, hash).Some?
    ensures var es' := Store(es, hash, m, now);
            && Distinct(es') && Cached(es, hash).Some?
            && Cached(es', hash) == Some((Cached(es, hash).value.0, Cached(es, hash).value.1 + 1))
            && forall h :: h != hash ==> Cached(es', h) == Cached(es, h)
  {
    var i := FindEntry(es, hash).value;
    var es' := Store(es, hash, m, now);
    assert es' == es[i := es'[i]];
    CachedAt(es', i);
    forall h | h != hash
      ensures Cached(es', h) == Cached(es, h)
    {
      OthersCached(es, i, es'[i], hash, h);
    }
  }

  lemma StoreFills(es: seq<Entry>, hash: nat, m: nat, now: int)
    requires Distinct(es) && FindEntry(es, hash).None? && FindVacant(es).Some?
    ensures var es' := Store(es, hash, m, now);
            && Distinct(es') && Cached(es, hash).None? && Cached(es', hash) == Some((Some(m), 1))
            && forall h :: h != hash ==> Cached(es', h) == Cached(es, h)
  {
    var i := FindVacant(es).value;
    var es' := Store(es, hash, m, now);
    assert es' == es[i := es'[i]];
    forall k | 0 <= k < |es| && es[k].used
      ensures es[k].hash != hash
    {
      assert !Matches(es[k], hash);
    }
    CachedAt(es', i);
    forall h | h != hash
      ensures Cached(es', h) == Cached(es, h)
    {
      OthersCached(es, i, es'[i], hash, h);
    }
  }

  lemma StoreRefused(es: seq<Entry>, hash: nat, m: nat, now: int)
    requires FindEntry(es, hash).None? && FindVacant(es).None?
    requires forall k :: 0 <= k < |es| && es[k].used ==> es[k].refs >= 1
    ensures Store(es, hash, m, now) == es && Cached(es, hash).None?
  {
  }

  /** With no vacant entry, a store gives the oldest entry nobody references to the new hash, and unloads its module. */
  lemma StoreEvicts(es: seq<Entry>, hash: nat, m: nat, now: int)
    requires Distinct(es) && FindEntry(es, hash).None? && FindVacant(es).None? && FindOldest(es, |es|).Some?
    ensures var es', v := Store(es, hash, m, now), es[FindOldest(es, |es|).value];
            && Distinct(es') && Evicted(es, hash) == v.wasm
            && v.used && v.refs == 0 && v.hash != hash
            && (forall h :: Cached(es', h) == if h == hash then Some((Some(m), 1)) else if h == v.hash then None else Cached(es, h))
  {
    var i := FindOldest(es, |es|).value;
    var es' := Store(es, hash, m, now);
    assert !Matches(es[i], hash);
    forall k | 0 <= k < |es| && k != i
      ensures es[k].hash != hash && es[k].hash != es[i].hash
    {
      assert !Matches(es[k], hash);
    }
    CachedAt(es', i);
    forall h | h != hash
      ensures Cached(es', h) == if h == es[i].hash then None else Cached(es, h)
    {
      var r := FindEntry(es, h);
      if r.Some? && r.value != i {
        CachedAt(es', r.value);
      } else {
        forall k | 0 <= k < |es'|
          ensures !Matches(es'[k], h)
        {
          assert !Matches(es[k], h) || k == i;
        }
      }
    }
  }

  /** When an entry was last stored. */
  function StoredAt(es: seq<Entry>, hash: nat): (r: Option<int>) {
    match FindEntry(es, hash)
    case None => None
    case Some(i) => Some(es[i].lastUsed)
  }

  /** Whenever a store leaves the hash cached, it leaves the time with it. */
  lemma StoreStamps(es: seq<Entry>, hash: nat, m: nat, now: int)
    requires Distinct(es) && Cached(Store(es, hash, m, now), hash).Some?
    ensures StoredAt(Store(es, hash, m, now), hash) == Some(now)
  {
    var es' := Store(es, hash, m, now);
    var at := FindEntry(es, hash);
    if at.Some? {
      CachedAt(es', at.value);
    } else {
      var i := FindEntry(es', hash).value;
      assert !Matches(es[i], hash);
    }
  }

  /** A release counts one reference less, down to none, and touches no other hash. */
  lemma ReleaseCounts(es: seq<Entry>, hash: nat)
    requires Distinct(es)
    ensures Distinct(Release(es, hash))
    ensures forall h :: Cached(Release(es, hash), h) ==
              if h == hash && Cached(es, h).Some?
              then Some((Cached(es, h).value.0, if Cached(es, h).value.1 > 0 then Cached(es, h).value.1 - 1 else 0))
              else Cached(es, h)
  {
    var es' := Release(es, hash);
    var at := FindEntry(es, hash);
    if at.Some? {
      var i := at.value;
      assert es' == es[i := es'[i]];
      CachedAt(es', i);
      forall h | h != hash
        ensures Cached(es', h) == Cached(es, h)
      {
        OthersCached(es, i, es'[i], hash, h);
      }
    }
  }

  /** Release and invalidate together forget the hash, and touch no other. */
  lemma DropForgets(es: seq<Entry>, hash: nat)
    requires Distinct(es)
    ensures var es' := Invalidate(Release(es, hash), hash);
            && Distinct(es') && (forall h :: Cached(es', h) == if h == hash then None else Cached(es, h))
            && |es'| == |es|
            && forall k :: 0 <= k < |es| && es[k].used && !es'[k].used ==> es'[k].wasm == None && es'[k].refs == 0
  {
    var mid := Release(es, hash);
    var es' := Invalidate(mid, hash);
    var at := FindEntry(es, hash);
    if at.Some? {
      var i := at.value;
      CachedAt(mid, i);
      assert es' == es[i := es'[i]];
      forall k | 0 <= k < |es'|
        ensures !Matches(es'[k], hash)
      {
      }
      forall h | h != hash
        ensures Cached(es', h) == Cached(es, h)
      {
        OthersCached(es, i, es'[i], hash, h);
      }
    }
  }

  class ModuleCache {
    const entries: array<Entry>

    constructor (size: nat)
      ensures fresh(entries) && entries[..] == seq(size, i => VACANT)
    {
      entries := new Entry[size](i => VACANT);
      new;
      assert entries[..] == seq(size, i => VACANT);
    }

    method FindLocked(hash: nat) returns (r: Option<nat>)
      ensures r == FindEntry(entries[..], hash)
    {
      var i: nat := 0;
      while i < entries.Length
        invariant i <= entries.Length
        invariant FindEntry(entries[..], hash) == FindEntry(entries[..], hash, i)
      {
        if entries[i].used && entries[i].hash == hash {
          return Some(i);
        }
        i := i + 1;
      }
      return None;
    }

    method FindLruLocked() returns (r: Option<nat>)
      ensures r == Victim(entries[..])
    {
      var i: nat := 0;
      while i < entries.Length
        invariant i <= entries.Length
        invariant FindVacant(entries[..]) == FindVacant(entries[..], i)
      {
        if !entries[i].used {
          return Some(i);
        }
        i := i + 1;
      }
      var oldest := NEVER;
      r := None;
      i := 0;
      while i < entries.Length
        invariant i <= entries.Length
        invariant r == FindOldest(entries[..], i)
        invariant oldest == if r.Some? then entries[r.value].lastUsed else NEVER
      {
        if entries[i].refs == 0 && entries[i].lastUsed < oldest {
          oldest := entries[i].lastUsed;
          r := Some(i);
        }
        i := i + 1;
      }
    }

    /** Caches a module; `unloaded` is the evicted module, which the runtime unloads. */
    method StoreModule(hash: nat, m: nat, now: int) returns (unloaded: Option<nat>)
      modifies entries
      ensures entries[..] == Store(old(entries[..]), hash, m, now)
      ensures unloaded == Evicted(old(entries[..]), hash)
    {
      unloaded := None;
      var existing := FindLocked(hash);
      if existing.Some? {
        var i := existing.value;
        entries[i] := entries[i].(refs := entries[i].refs + 1, lastUsed := now);
        return;
      }
      var slot := FindLruLocked();
      if slot.None? {
        return;
      }
      var i := slot.value;
      if entries[i].used {
        if entries[i].refs > 0 {
          return;
        }
        unloaded := entries[i].wasm;
      }
      entries[i] := Entry(true, hash, Some(m), 1, now);
    }

    method ReleaseModule(hash: nat)
      modifies entries
      ensures entries[..] == Release(old(entries[..]), hash)
    {
      var e := FindLocked(hash);
      if e.Some? && entries[e.value].refs > 0 {
        entries[e.value] := entries[e.value].(refs := entries[e.value].refs - 1);
      }
    }

    method InvalidateModule(hash: nat)
      modifies entries
      ensures entries[..] == Invalidate(old(entries[..]), hash)
    {
      var e := FindLocked(hash);
      if e.Some? {
        entries[e.value] := entries[e.value].(wasm := None, used := false, refs := 0);
      }
    }
  }
}
