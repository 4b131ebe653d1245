/**
 The settings service over the flash store: each request reads and writes single records, in
 the order NvsStore lists, and together they are a finite map from keys to values.
 */
module Settings {
  import opened Errnos
  import opened NvsStore

  /** Sizes of the key and value buffers, terminator included. */
  datatype Limits = Limits(key: nat, value: nat)

  /** Record ids are 16 bits and id 0 is the counter. */
  const MAX_RECORDS: nat := 65534

  /** `strncpy` into a buffer of `size` bytes with the terminator forced. */
  function Truncated(s: string, size: nat): (r: string)
    requires 0 < size
  {
    if |s| < size then s else s[..size - 1]
  }

  /** It is the longest beginning of the text that leaves room for the terminator. */
  lemma TruncatedIsLongest(s: string, size: nat, t: string)
    requires 0 < size
    ensures Truncated(s, size) <= s && |Truncated(s, size)| < size
    ensures t <= s && |t| < size ==> t <= Truncated(s, size)
  {
  }

  ghost predicate Room(f: Flash, key: string) {
    f.count.Some? && Find(f.cells, f.count.value, key).None? ==> f.count.value < MAX_RECORDS
  }

  /** Where a key is: a missing counter and a missing key are different errors. */
  function Locate(f: Flash, key: string): (r: Result<nat>) {
    if f.count.None? then Err(ENOENT)
    else
      match Find(f.cells, f.count.value, key)
      case None => Err(NotFound)
      case Some(i) => Ok(i)
  }

  function Fetched(f: Flash, key: string, size: nat): (r: Result<string>)
    requires 0 < size
  {
    if f.count.None? then Err(ENOENT)
    else
      match Lookup(f, key)
      case None => Err(NotFound)
      case Some(e) => if e.encrypted then Err(ENOTSUP) else Ok(Truncated(e.value, size))
  }

  // ----- requests -----

  datatype Request = SetReq(key: string, value: string) | DeleteReq(key: string) | ClearReq | RebootReq

  function Served(limits: Limits, f: Flash, r: Request): (g: Flash)
    requires f.count.Some?
  {
    match r
    case SetReq(key, value) =>
      if |value| >= limits.value || |key| >= limits.key then f
      else ApplyAll(f, SetWrites(f, Entry(key, value, false)))
    case DeleteReq(key) => ApplyAll(f, DeleteWrites(f, key))
    case ClearReq => Flash(Some(0), map[])
    case RebootReq => Reboot(f)
  }

  /** A set that adds a record needs a free record id. */
  ghost predicate Servable(limits: Limits, f: Flash, r: Request) {
    r.SetReq? && |r.value| < limits.value && |r.key| < limits.key ==> Room(f, r.key)
  }

  lemma ApplyNext(f: Flash, ws: seq<Write>, i: nat)
    requires i < |ws|
    ensures ApplyAll(f, ws[..i + 1]) == Apply(ApplyAll(f, ws[..i]), ws[i])
    ensures ws[..i + 1] == ws[..i] + [ws[i]]
  {
    assert ws[..i + 1][..i] == ws[..i];
  }

  class Store {
    const limits: Limits
    var initialized: bool
    var nvs: Flash
    ghost var log: seq<Write>

    constructor (limits: Limits, nvs: Flash)
      ensures this.limits == limits && this.nvs == nvs && !initialized && log == []
    {
      this.limits := limits;
      this.nvs := nvs;
      initialized := false;
      log := [];
    }

    /** Since the state `f` with log `l`, exactly the writes `ws` were made, in order. */
    ghost predicate Wrote(f: Flash, l: seq<Write>, ws: seq<Write>)
      reads this
    {
      nvs == ApplyAll(f, ws) && log == l + ws
    }

    method Put(w: Write)
      modifies this`nvs, this`log
      ensures nvs == Apply(old(nvs), w) && log == old(log) + [w]
    {
      nvs := Apply(nvs, w);
      log := log + [w];
    }

    /** Makes write `i` of the list `ws` begun at `f`. */
    method PutNext(w: Write, ghost f: Flash, ghost l: seq<Write>, ghost ws: seq<Write>, ghost i: nat)
      requires i < |ws| && ws[i] == w && Wrote(f, l, ws[..i])
      modifies this`nvs, this`log
      ensures Wrote(f, l, ws[..i + 1])
    {
      ApplyNext(f, ws, i);
      Put(w);
    }

    method GetId(key: string) returns (r: Result<nat>)
      ensures r == Locate(nvs, key)
      ensures match r
              case Ok(i) => nvs.count.Some? && i < nvs.count.value && Hit(nvs.cells, key, i) && NoHit(nvs.cells, key, 0, i)
              case Err(e) =>
                if nvs.count.None? then e == ENOENT else e == NotFound && NoHit(nvs.cells, key, 0, nvs.count.value)
    {
      if nvs.count.None? {
        return Err(ENOENT);
      }
      var n := nvs.count.value;
      var i: nat := 0;
      while i < n
        invariant i <= n
        invariant Find(nvs.cells, n, key) == Find(nvs.cells, n, key, i)
      {
        if i in nvs.cells && nvs.cells[i].key == key {
          return Ok(i);
        }
        i := i + 1;
      }
      return Err(NotFound);
    }

    method Get(key: string, size: nat) returns (r: Result<string>)
      ensures r == if size == 0 || !initialized || |key| >= limits.key then Err(EINVAL) else Fetched(nvs, key, size)
      ensures initialized && 0 < size && |key| < limits.key ==>
                && (nvs.count.None? ==> r == Err(ENOENT))
                && (nvs.count.Some? && Lookup(nvs, key).None? ==> r == Err(NotFound))
                && (Lookup(nvs, key).Some? && Lookup(nvs, key).value.encrypted ==> r == Err(ENOTSUP))
    {
      if size == 0 || !initialized || |key| >= limits.key {
        return Err(EINVAL);
      }
      var id := GetId(key);
      if id.Err? {
        return Err(id.error);
      }
      var entry := nvs.cells[id.value];
      if entry.encrypted {
        return Err(ENOTSUP);
      }
      return Ok(Truncated(entry.value, size));
    }

    method Set(key: string, value: string, encrypted: bool) returns (r: Result<()>)
      requires Servable(limits, nvs, SetReq(key, value))
      modifies this`nvs, this`log
      ensures r == if !initialized then Err(EINVAL)
                   else if |value| >= limits.value || |key| >= limits.key then Err(E2BIG)
                   else if encrypted then Err(ENOTSUP)
                   else if old(nvs).count.None? then Err(ENOENT)
                   else Ok(())
      ensures r.Err? ==> nvs == old(nvs) && log == old(log)
      ensures r.Ok? ==> Wrote(old(nvs), old(log), SetWrites(old(nvs), Entry(key, value, false)))
      ensures initialized && !encrypted && old(nvs).count.Some? ==> nvs == Served(limits, old(nvs), SetReq(key, value))
    {
      if !initialized {
        return Err(EINVAL);
      }
      if |value| >= limits.value || |key| >= limits.key {
        return Err(E2BIG);
      }
      if encrypted {
        return Err(ENOTSUP);
      }
      if nvs.count.None? {
        return Err(ENOENT);
      }
      var entry := Entry(Truncated(key, limits.key), Truncated(value, limits.value), false);
      var counter := nvs.count.value;
      var id := GetId(key);
      ghost var ws := SetWrites(nvs, entry);
      if id.Err? {
        PutNext(PutCell(counter, entry), old(nvs), old(log), ws, 0);
        PutNext(PutCount(counter + 1), old(nvs), old(log), ws, 1);
      } else {
        PutNext(PutCell(id.value, entry), old(nvs), old(log), ws, 0);
      }
      assert ws[..|ws|] == ws;
      return Ok(());
    }

    method Delete(key: string) returns (r: Result<()>)
      modifies this`nvs, this`log
      ensures r == if !initialized then Err(EINVAL)
                   else if Locate(old(nvs), key).Err? then Err(Locate(old(nvs), key).error)
                   else if DeleteWrites(old(nvs), key) == [] then Err(ENOENT)
                   else Ok(())
      ensures r.Err? ==> nvs == old(nvs) && log == old(log)
      ensures r.Ok? ==> Wrote(old(nvs), old(log), DeleteWrites(old(nvs), key))
      ensures initialized && old(nvs).count.Some? ==> nvs == Served(limits, old(nvs), DeleteReq(key))
    {
      if !initialized {
        return Err(EINVAL);
      }
      var id := GetId(key);
      if id.Err? {
        return Err(id.error);
      }
      var last := nvs.count.value - 1;
      ghost var ws := DeleteWrites(nvs, key);
      if id.value != last {
        if last !in nvs.cells {
          return Err(ENOENT);
        }
        PutNext(PutCell(id.value, nvs.cells[last]), old(nvs), old(log), ws, 0);
        PutNext(DropCell(last), old(nvs), old(log), ws, 1);
        PutNext(PutCount(last), old(nvs), old(log), ws, 2);
      } else {
        PutNext(DropCell(id.value), old(nvs), old(log), ws, 0);
        PutNext(PutCount(last), old(nvs), old(log), ws, 1);
      }
      assert ws[..|ws|] == ws;
      return Ok(());
    }

    method ReadPresent(counter: nat) returns (buf: seq<Entry>)
      ensures buf == Present(nvs.cells, counter)
    {
      buf := [];
      var i: nat := 0;
      while i < counter
        invariant i <= counter
        invariant buf == Present(nvs.cells, i)
      {
        if i in nvs.cells {
          buf := buf + [nvs.cells[i]];
        }
        i := i + 1;
      }
    }

    /** Reads every record, rewrites them packed, drops the rest, then writes the counter. */
    method Compact(counter: nat)
      requires nvs.count == Some(counter)
      modifies this`nvs, this`log
      ensures Wrote(old(nvs), old(log), CompactWrites(old(nvs)))
    {
      var buf := ReadPresent(counter);
      var valid := |buf|;
      ghost var ws := CompactWrites(nvs);
      assert ApplyAll(nvs, ws[..0]) == nvs;
      assert ws[counter] == PutCount(valid);
      hide ApplyAll, CompactWrites, Present;
      var i: nat := 0;
      while i < valid
        invariant i <= valid
        invariant Wrote(old(nvs), old(log), ws[..i])
      {
        CompactWriteAt(old(nvs), i);
        PutNext(PutCell(i, buf[i]), old(nvs), old(log), ws, i);
        i := i + 1;
      }
      while i < counter
        invariant valid <= i <= counter
        invariant Wrote(old(nvs), old(log), ws[..i])
      {
        CompactWriteAt(old(nvs), i);
        PutNext(DropCell(i), old(nvs), old(log), ws, i);
        i := i + 1;
      }
      PutNext(PutCount(valid), old(nvs), old(log), ws, i);
      assert ws[..|ws|] == ws;
    }

    /** Mounts the store, creates a missing counter and compacts if a slot below the counter is empty. */
    method InitFlash()
      modifies this`nvs, this`log
      ensures initialized ==> nvs == old(nvs) && log == old(log)
      ensures !initialized ==> Wrote(old(nvs), old(log), HealWrites(old(nvs)))
    {
      if initialized {
        return;
      }
      if nvs.count.None? {
        ghost var ws := HealWrites(nvs);
        PutNext(PutCount(0), old(nvs), old(log), ws, 0);
        assert ws[..1] == ws;
      } else {
        var counter := nvs.count.value;
        var hasHoles := false;
        var i: nat := 0;
        while i < counter && !hasHoles
          invariant i <= counter
          invariant hasHoles ==> HasHoles(nvs)
          invariant !hasHoles ==> forall k: nat :: k < i ==> k in nvs.cells
          decreases counter - i, !hasHoles
        {
          if i !in nvs.cells {
            hasHoles := true;
          } else {
            i := i + 1;
          }
        }
        if hasHoles {
          Compact(counter);
        }
      }
    }

    method Init()
      modifies this
      ensures initialized
      ensures !old(initialized) ==> Wrote(old(nvs), old(log), HealWrites(old(nvs))) && Contiguous(nvs)
      ensures !old(initialized) && old(nvs).count.Some? ==> nvs == Served(limits, old(nvs), RebootReq)
      ensures old(initialized) ==> nvs == old(nvs) && log == old(log)
    {
      ghost var before := nvs;
      InitFlash();
      initialized := true;
      HealMakesContiguous(before);
    }

    /** Erases the flash store and starts it again. */
    method Clear() returns (r: Result<()>)
      modifies this
      ensures initialized == old(initialized)
      ensures r == if initialized then Ok(()) else Err(EINVAL)
      ensures r.Ok? ==> nvs == Flash(Some(0), map[])
      ensures r.Ok? && old(nvs).count.Some? ==> nvs == Served(limits, old(nvs), ClearReq)
      ensures r.Err? ==> nvs == old(nvs)
    {
      if !initialized {
        return Err(EINVAL);
      }
      nvs := Flash(None, map[]);
      initialized := false;
      InitFlash();
      assert ApplyAll(Flash(None, map[]), [PutCount(0)]) == Apply(ApplyAll(Flash(None, map[]), []), PutCount(0));
      initialized := true;
      return Ok(());
    }
  }

  // ----- the store is a finite map over any run -----

  function Meaning(limits: Limits, m: map<string, string>, r: Request): (res: map<string, string>) {
    match r
    case SetReq(key, value) => if |value| >= limits.value || |key| >= limits.key then m else m[key := value]
    case DeleteReq(key) => m - {key}
    case ClearReq => map[]
    case RebootReq => m
  }

  /** Records lie in slots 0 .. count - 1 and nowhere else, with distinct keys. */
  ghost predicate Layout(f: Flash) {
    && f.count.Some?
    && (forall i: nat :: i in f.cells <==> i < f.count.value)
    && (forall i: nat, j: nat :: i < j < f.count.value ==> f.cells[i].key != f.cells[j].key)
  }

  /** The store is laid out so, and what it holds is the map `m`. */
  ghost predicate Holds(f: Flash, m: map<string, string>) {
    && Layout(f) && f.count.value == |m|
    && (forall key :: Lookup(f, key) == if key in m then Some(Entry(key, m[key], false)) else None)
  }

  lemma LayoutNeeds(f: Flash)
    requires Layout(f)
    ensures f.count.Some? && Contiguous(f) && Distinct(f)
  {
  }

  lemma SetLayout(f: Flash, e: Entry)
    requires Layout(f)
    ensures var n := f.count.value;
            var g := ApplyAll(f, SetWrites(f, e));
            Layout(g) && g.count.value == if Find(f.cells, n, e.key).Some? then n else n + 1
  {
    hide ApplyAll, SetWrites, Find, Lookup;
    SetDone(f, e);
    var at := Find(f.cells, f.count.value, e.key);
    forall i: nat | i < f.count.value && at != Some(i)
      ensures f.cells[i].key != e.key
    {
      assert at.Some? ==> Hit(f.cells, e.key, at.value);
      assert at.None? ==> !Hit(f.cells, e.key, i);
    }
  }

  lemma DeleteLayout(f: Flash, key: string)
    requires Layout(f)
    ensures var n := f.count.value;
            var g := ApplyAll(f, DeleteWrites(f, key));
            Layout(g) && g.count.value == if Find(f.cells, n, key).Some? then n - 1 else n
  {
    hide ApplyAll, DeleteWrites, Find, Lookup;
    DeleteDone(f, key);
  }

  lemma Held(f: Flash, m: map<string, string>, key: string)
    requires Holds(f, m)
    ensures Find(f.cells, |m|, key).Some? <==> key in m
  {
    assert Lookup(f, key).Some? <==> key in m;
  }

  lemma SizeAfterPut(m: map<string, string>, key: string, value: string)
    ensures |m[key := value]| == |m| + if key in m then 0 else 1
  {
    assert m[key := value].Keys == m.Keys + {key};
  }

  lemma SizeAfterDrop(m: map<string, string>, key: string)
    ensures |m - {key}| == |m| - if key in m then 1 else 0
  {
    assert (m - {key}).Keys == m.Keys - {key};
  }

  lemma SetHolds(f: Flash, m: map<string, string>, key: string, value: string)
    requires Holds(f, m)
    ensures Holds(ApplyAll(f, SetWrites(f, Entry(key, value, false))), m[key := value])
  {
    Held(f, m, key);
    LayoutNeeds(f);
    hide ApplyAll, SetWrites, Lookup, Find, Layout;
    var e := Entry(key, value, false);
    SetLayout(f, e);
    SetDone(f, e);
    SizeAfterPut(m, key, value);
  }

  lemma DeleteHolds(f: Flash, m: map<string, string>, key: string)
    requires Holds(f, m)
    ensures Holds(ApplyAll(f, DeleteWrites(f, key)), m - {key})
  {
    Held(f, m, key);
    LayoutNeeds(f);
    hide ApplyAll, DeleteWrites, Lookup, Find, Layout, Contiguous, Distinct;
    DeleteLayout(f, key);
    DeleteDone(f, key);
    SizeAfterDrop(m, key);
  }

  /** Every step keeps the layout and does to the map what the request means. */
  lemma ServedHolds(limits: Limits, f: Flash, m: map<string, string>, r: Request)
    requires Holds(f, m)
    ensures Holds(Served(limits, f, r), Meaning(limits, m, r))
  {
    match r
    case SetReq(key, value) => SetHolds(f, m, key, value);
    case DeleteReq(key) => DeleteHolds(f, m, key);
    case ClearReq =>
    case RebootReq =>
  }

  /** There is room exactly for a key that is there, or while the map has fewer than 65534. */
  lemma RoomIff(f: Flash, m: map<string, string>, key: string)
    requires Holds(f, m)
    ensures Room(f, key) <==> key in m || |m| < 65534
  {
    Held(f, m, key);
  }

  /** The states of a run: each served request leads to the next. */
  ghost predicate Run(limits: Limits, states: seq<Flash>, requests: seq<Request>) {
    && |states| == |requests| + 1
    && states[0] == Flash(Some(0), map[])
    && forall i :: 0 <= i < |requests| ==>
         && states[i].count.Some? && Servable(limits, states[i], requests[i])
         && states[i + 1] == Served(limits, states[i], requests[i])
  }

  /** The map a run of requests means, from the empty map. */
  function MapOf(limits: Limits, requests: seq<Request>): (r: map<string, string>) {
    if requests == [] then map[]
    else Meaning(limits, MapOf(limits, requests[..|requests| - 1]), requests[|requests| - 1])
  }

  /** Main result: after any run from an empty store, the flash holds exactly the finite map of the requests. */
  lemma {:induction false} RunHolds(limits: Limits, states: seq<Flash>, requests: seq<Request>)
    requires Run(limits, states, requests)
    ensures Holds(states[|requests|], MapOf(limits, requests))
    decreases |requests|
  {
    if requests != [] {
      var n := |requests| - 1;
      RunHolds(limits, states[..n + 1], requests[..n]);
      ServedHolds(limits, states[n], MapOf(limits, requests[..n]), requests[n]);
    }
  }

  /** What a read returns after the run: the last value set, cut to the caller's buffer. */
  lemma RunFetched(limits: Limits, states: seq<Flash>, requests: seq<Request>, key: string, size: nat)
    requires Run(limits, states, requests) && 0 < size
    ensures var m := MapOf(limits, requests);
            Fetched(states[|requests|], key, size) == (if key in m then Ok(Truncated(m[key], size)) else Err(NotFound))
  {
    RunHolds(limits, states, requests);
  }
}
