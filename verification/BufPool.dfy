/**
 The shared buffer pool as an interleaved protocol. A thread first takes the semaphore, then
 scans the pool under the mutex; other threads may run between the two.
 */
module BufPool {
  import opened Errnos

  const COUNT: nat := 8

  /** The pool's own state: the semaphore and the `in_use` flags. */
  datatype Pool = Pool(sem: nat, inUse: seq<bool>)

  function FindFree(inUse: seq<bool>, i: nat := 0): (r: Option<nat>)
    requires i <= |inUse|
    ensures r.Some? ==> i <= r.value < |inUse| && !inUse[r.value]
    ensures r.None? ==> forall k :: i <= k < |inUse| ==> inUse[k]
    decreases |inUse| - i
  {
    if i == |inUse| then None else if !inUse[i] then Some(i) else FindFree(inUse, i + 1)
  }

  /** `k_sem_give`: the count stops at its limit. */
  function Give(sem: nat): (r: nat) { if sem < COUNT then sem + 1 else sem }

  function Unref(p: Pool, b: nat): (r: Pool)
    requires b < |p.inUse|
  {
    if p.inUse[b] then Pool(Give(p.sem), p.inUse[b := false]) else p
  }

  // ----- threads -----

  /**
   The pool with the threads that took the semaphore but have no buffer yet, those about to give
   it back because they found none, and who was handed which buffer.
   */
  datatype State = State(pool: Pool, tokens: set<nat>, failed: set<nat>, holds: set<(nat, nat)>)

  datatype Action = Take(thread: nat) | Scan(thread: nat) | GiveBack(thread: nat) | Free(thread: nat, buffer: nat)

  /** A thread takes only when the semaphore is up, and scans only after taking. */
  predicate Enabled(st: State, a: Action) {
    match a
    case Take(t) => st.pool.sem > 0 && t !in st.tokens && t !in st.failed
    case Scan(t) => t in st.tokens
    case GiveBack(t) => t in st.failed
    case Free(t, b) => b < |st.pool.inUse|
  }

  function Next(st: State, a: Action): (r: State)
    requires Enabled(st, a)
  {
    match a
    case Take(t) => st.(pool := st.pool.(sem := st.pool.sem - 1), tokens := st.tokens + {t})
    case Scan(t) =>
      (match FindFree(st.pool.inUse)
       case Some(b) =>
         st.(pool := st.pool.(inUse := st.pool.inUse[b := true]), tokens := st.tokens - {t}, holds := st.holds + {(t, b)})
       case None => st.(tokens := st.tokens - {t}, failed := st.failed + {t}))
    case GiveBack(t) => st.(pool := st.pool.(sem := Give(st.pool.sem)), failed := st.failed - {t})
    case Free(t, b) => st.(pool := Unref(st.pool, b), holds := st.holds - {(t, b)})
  }

  function FreeCount(inUse: seq<bool>): (r: nat) {
    if inUse == [] then 0 else FreeCount(inUse[..|inUse| - 1]) + if inUse[|inUse| - 1] then 0 else 1
  }

  lemma {:induction false} FreeCountSet(inUse: seq<bool>, b: nat, v: bool)
    requires b < |inUse|
    ensures FreeCount(inUse[b := v]) == FreeCount(inUse) + (if inUse[b] then 1 else 0) - (if v then 1 else 0)
    decreases |inUse|
  {
    var n := |inUse| - 1;
    if b < n {
      FreeCountSet(inUse[..n], b, v);
      assert inUse[b := v][..n] == inUse[..n][b := v];
    } else {
      assert inUse[b := v][..n] == inUse[..n];
    }
  }

  lemma {:induction false} FreeCountBounds(inUse: seq<bool>)
    ensures FreeCount(inUse) <= |inUse|
    ensures FreeCount(inUse) > 0 ==> FindFree(inUse).Some?
  {
    if inUse != [] {
      var n := |inUse| - 1;
      FreeCountBounds(inUse[..n]);
      if inUse[n] && FindFree(inUse[..n]).Some? {
        assert !inUse[FindFree(inUse[..n]).value];
      }
    }
  }

  /** The semaphore plus the tokens under way is the number of free buffers, and nobody failed to find one. */
  ghost predicate Balanced(st: State) {
    && |st.pool.inUse| == 8
    && st.pool.sem + |st.tokens| == FreeCount(st.pool.inUse)
    && st.failed == {}
  }

  lemma NextBalanced(st: State, a: Action)
    requires Balanced(st) && Enabled(st, a)
    ensures Balanced(Next(st, a))
  {
    FreeCountBounds(st.pool.inUse);
    match a
    case Take(t) =>
    case Scan(t) =>
      assert |st.tokens| > 0;
      FreeCountSet(st.pool.inUse, FindFree(st.pool.inUse).value, true);
    case GiveBack(t) =>
    case Free(t, b) =>
      FreeCountSet(st.pool.inUse, b, false);
      FreeCountBounds(st.pool.inUse[b := false]);
  }

  ghost predicate Initial(st: State) {
    st == State(Pool(8, seq(8, i => false)), {}, {}, {})
  }

  ghost predicate Run(states: seq<State>, actions: seq<Action>) {
    && |states| == |actions| + 1 && Initial(states[0])
    && forall i :: 0 <= i < |actions| ==> Enabled(states[i], actions[i]) && states[i + 1] == Next(states[i], actions[i])
  }

  lemma {:induction false} AllFree(n: nat)
    ensures FreeCount(seq(n, i => false)) == n
  {
    if n > 0 {
      AllFree(n - 1);
      assert seq(n, i => false)[..n - 1] == seq(n - 1, i => false);
    }
  }

  /**
   Main result, whatever the threads do and whoever frees: the count is right, so a thread that
   took the semaphore always finds a buffer and never gives the semaphore back.
   */
  lemma {:induction false} RunBalanced(states: seq<State>, actions: seq<Action>, i: nat)
    requires Run(states, actions) && i <= |actions|
    ensures Balanced(states[i])
    ensures i < |actions| && actions[i].Scan? ==> FindFree(states[i].pool.inUse).Some?
    ensures i < |actions| ==> !actions[i].GiveBack?
  {
    if i == 0 {
      AllFree(COUNT);
    } else {
      RunBalanced(states, actions, i - 1);
      NextBalanced(states[i - 1], actions[i - 1]);
    }
    FreeCountBounds(states[i].pool.inUse);
  }

  // ----- sharing -----

  /** A buffer is in use exactly while one thread was handed it, and no two threads share one. */
  ghost predicate Exclusive(st: State) {
    && (forall h :: h in st.holds ==> h.1 < |st.pool.inUse| && st.pool.inUse[h.1])
    && (forall b :: 0 <= b < |st.pool.inUse| && st.pool.inUse[b] ==> exists t :: (t, b) in st.holds)
    && (forall h, g :: h in st.holds && g in st.holds && h.1 == g.1 ==> h == g)
  }

  lemma NextExclusive(st: State, a: Action)
    requires Exclusive(st) && Enabled(st, a) && !a.Free?
    ensures Exclusive(Next(st, a))
  {
    var st' := Next(st, a);
    forall b | 0 <= b < |st'.pool.inUse| && st'.pool.inUse[b]
      ensures exists t :: (t, b) in st'.holds
    {
      if st.pool.inUse[b] {
        var t :| (t, b) in st.holds;
        assert (t, b) in st'.holds;
      } else {
        assert (a.thread, b) in st'.holds;
      }
    }
  }

  /** A free keeps buffers exclusive if and only if it comes from the holder, or the buffer is free already. */
  lemma FreeExclusiveIff(st: State, t: nat, b: nat)
    requires Exclusive(st) && b < |st.pool.inUse|
    ensures Exclusive(Next(st, Free(t, b))) <==> (t, b) in st.holds || !st.pool.inUse[b]
  {
    var st' := Next(st, Free(t, b));
    if st.pool.inUse[b] && (t, b) !in st.holds {
      var u :| (u, b) in st.holds;
      assert (u, b) in st'.holds && !st'.pool.inUse[b];
    } else {
      forall c | 0 <= c < |st'.pool.inUse| && st'.pool.inUse[c]
        ensures exists u :: (u, c) in st'.holds
      {
        var u :| (u, c) in st.holds;
        assert (u, c) in st'.holds;
      }
    }
  }

  /** If only holders free, no two threads ever share a buffer. */
  lemma {:induction false} RunExclusive(states: seq<State>, actions: seq<Action>, i: nat)
    requires Run(states, actions) && i <= |actions|
    requires forall k :: 0 <= k < i && actions[k].Free? ==> (actions[k].thread, actions[k].buffer) in states[k].holds
    ensures Exclusive(states[i])
  {
    if i > 0 {
      RunExclusive(states, actions, i - 1);
      var a := actions[i - 1];
      if a.Free? {
        FreeExclusiveIff(states[i - 1], a.thread, a.buffer);
      } else {
        NextExclusive(states[i - 1], a);
      }
    }
  }

  /** A run in which a free by thread 2 of the buffer of thread 1 ends with both of them holding it. */
  lemma ForeignFreeShares(st: State)
    requires Initial(st)
    ensures var actions := [Take(1), Scan(1), Free(2, 0), Take(2), Scan(2)];
            exists states: seq<State> :: Run(states, actions) && states[0] == st && states[5].holds == {(1, 0), (2, 0)}
  {
    var free := seq(COUNT, i => false);
    var taken := free[0 := true];
    assert taken[0 := false] == free;
    var states := [
      st,
      State(Pool(COUNT - 1, free), {1}, {}, {}),
      State(Pool(COUNT - 1, taken), {}, {}, {(1, 0)}),
      State(Pool(COUNT, free), {}, {}, {(1, 0)}),
      State(Pool(COUNT - 1, free), {2}, {}, {(1, 0)}),
      State(Pool(COUNT - 1, taken), {}, {}, {(1, 0), (2, 0)})
    ];
    assert FindFree(free) == Some(0);
    assert Run(states, [Take(1), Scan(1), Free(2, 0), Take(2), Scan(2)]);
  }

  // ----- the critical sections -----

  class Buffers {
    var sem: nat
    const inUse: array<bool>
    const len: array<nat>

    ghost predicate Valid()
      reads this
    {
      inUse.Length == COUNT && len.Length == COUNT && sem <= COUNT
    }

    ghost function View(): (r: Pool)
      reads this, inUse
    {
      Pool(sem, inUse[..])
    }

    constructor ()
      ensures Valid() && View() == Pool(8, seq(8, i => false)) && fresh(inUse) && fresh(len)
    {
      sem := COUNT;
      inUse := new bool[COUNT](i => false);
      len := new nat[COUNT](i => 0);
      new;
      assert inUse[..] == seq(COUNT, i => false);
    }

    /** A take that would have to wait fails, as on a timeout. */
    method TakeSem() returns (ok: bool)
      modifies this`sem
      ensures ok == (old(sem) > 0)
      ensures sem == if ok then old(sem) - 1 else old(sem)
    {
      ok := sem > 0;
      if ok {
        sem := sem - 1;
      }
    }

    /** The scan under the mutex: the first free buffer, marked and emptied. */
    method ScanPool() returns (r: Option<nat>)
      requires Valid()
      modifies inUse, len
      ensures Valid()
      ensures r == FindFree(old(inUse[..]))
      ensures inUse[..] == if r.Some? then old(inUse[..])[r.value := true] else old(inUse[..])
      ensures len[..] == if r.Some? then old(len[..])[r.value := 0] else old(len[..])
    {
      var i: nat := 0;
      while i < COUNT
        invariant i <= COUNT
        invariant FindFree(inUse[..]) == FindFree(inUse[..], i)
        invariant inUse[..] == old(inUse[..]) && len[..] == old(len[..])
      {
        if !inUse[i] {
          inUse[i] := true;
          len[i] := 0;
          return Some(i);
        }
        i := i + 1;
      }
      return None;
    }

    /** The semaphore, then the scan; a scan that finds nothing gives the semaphore back. */
    method Alloc() returns (r: Option<nat>)
      requires Valid()
      modifies this`sem, inUse, len
      ensures Valid()
      ensures r == if old(sem) > 0 then FindFree(old(inUse[..])) else None
      ensures View() == if r.Some? then Pool(old(sem) - 1, old(inUse[..])[r.value := true]) else old(View())
      ensures len[..] == if r.Some? then old(len[..])[r.value := 0] else old(len[..])
    {
      var ok := TakeSem();
      if !ok {
        return None;
      }
      r := ScanPool();
      if r.None? {
        sem := Give(sem);
      }
    }

    /** Marks the buffer free and gives the semaphore, unless it was free already. */
    method Release(b: nat)
      requires Valid() && b < COUNT
      modifies this`sem, inUse, len
      ensures Valid() && View() == Unref(old(View()), b)
      ensures len[..] == if old(inUse[b]) then old(len[..])[b := 0] else old(len[..])
    {
      if inUse[b] {
        inUse[b] := false;
        len[b] := 0;
        sem := Give(sem);
      }
    }
  }
}
