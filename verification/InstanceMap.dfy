/**
 The open-addressing table from instance pointers to app slots. Removal leaves no tombstone, so
 a probe chain can break and an entry can stay behind; this module says what survives that.
 */
module InstanceMaps {
  const SIZE: nat := 16
  const NULL: nat := 0

  datatype Bucket = Bucket(inst: nat, slot: int)

  const EMPTY := Bucket(NULL, -1)

  type Table = b: seq<Bucket> | |b| == SIZE witness seq(SIZE, i => EMPTY)

  function PtrHash(p: nat): (r: nat)
    ensures r < SIZE
  {
    (p / 16 * 2654435761) % SIZE
  }

  function Probe(p: nat, i: nat): (r: nat)
    ensures r < SIZE
  {
    (PtrHash(p) + i) % SIZE
  }

  /** The probe at which a put of `p` lands: the first bucket that is free or its own. */
  function PutAt(b: Table, p: nat, i: nat := 0): (r: nat)
    requires i <= SIZE
    ensures i <= r <= SIZE
    decreases SIZE - i
  {
    if i == SIZE || b[Probe(p, i)].inst == NULL || b[Probe(p, i)].inst == p then i else PutAt(b, p, i + 1)
  }

  function Put(b: Table, p: nat, slot: int): (r: Table) {
    var i := PutAt(b, p);
    if i == SIZE then b else b[Probe(p, i) := Bucket(p, slot)]
  }

  /** The probe at which `p` is found before any free bucket. */
  function GetAt(b: Table, p: nat, i: nat := 0): (r: nat)
    requires i <= SIZE
    ensures i <= r <= SIZE
    decreases SIZE - i
  {
    if i == SIZE || b[Probe(p, i)].inst == p then i
    else if b[Probe(p, i)].inst == NULL then SIZE
    else GetAt(b, p, i + 1)
  }

  function Get(b: Table, p: nat): (r: int) {
    if p == NULL || GetAt(b, p) == SIZE then -1 else b[Probe(p, GetAt(b, p))].slot
  }

  function Remove(b: Table, p: nat): (r: Table) {
    if p == NULL || GetAt(b, p) == SIZE then b else b[Probe(p, GetAt(b, p)) := EMPTY]
  }

  // ----- what outlives broken chains -----

  /** The first probe whose bucket holds `p`, whatever free buckets come before it. */
  function First(b: Table, p: nat, i: nat := 0): (r: nat)
    requires i <= SIZE
    ensures i <= r <= SIZE
    ensures r < SIZE ==> b[Probe(p, r)].inst == p
    decreases SIZE - i
  {
    if i == SIZE || b[Probe(p, i)].inst == p then i else First(b, p, i + 1)
  }

  /** If any bucket on the chain of `p` holds it, the first one says `slot`. */
  predicate Right(b: Table, p: nat, slot: int) {
    First(b, p) < SIZE ==> b[Probe(p, First(b, p))].slot == slot
  }

  /** Both tables say the same about `p`. */
  ghost predicate Agree(b: Table, c: Table, p: nat) {
    forall k :: 0 <= k < SIZE ==>
      (b[k].inst == p <==> c[k].inst == p) && (b[k].inst == p ==> b[k] == c[k])
  }

  lemma {:induction false} AgreeFirst(b: Table, c: Table, p: nat, i: nat)
    requires Agree(b, c, p) && i <= SIZE
    ensures First(b, p, i) == First(c, p, i)
    decreases SIZE - i
  {
    if i < SIZE {
      AgreeFirst(b, c, p, i + 1);
    }
  }

  lemma AgreeRight(b: Table, c: Table, p: nat, slot: int)
    requires Agree(b, c, p) && Right(b, p, slot)
    ensures Right(c, p, slot)
  {
    hide First;
    AgreeFirst(b, c, p, 0);
  }

  lemma {:induction false} PutFirst(b: Table, p: nat, slot: int, i: nat)
    requires p != NULL && i <= PutAt(b, p) < SIZE && PutAt(b, p, i) == PutAt(b, p)
    ensures var at := First(Put(b, p, slot), p, i);
            at < SIZE && Put(b, p, slot)[Probe(p, at)].slot == slot
    decreases SIZE - i
  {
    if b[Probe(p, i)].inst != NULL && b[Probe(p, i)].inst != p {
      PutFirst(b, p, slot, i + 1);
    }
  }

  lemma {:induction false} PutNowhere(b: Table, p: nat, i: nat)
    requires i <= SIZE && PutAt(b, p, i) == SIZE
    ensures First(b, p, i) == SIZE
    decreases SIZE - i
  {
    if i < SIZE {
      PutNowhere(b, p, i + 1);
    }
  }

  /** A put makes its own pointer right, stale copies and a full table notwithstanding. */
  lemma PutRight(b: Table, p: nat, slot: int)
    requires p != NULL
    ensures Right(Put(b, p, slot), p, slot)
  {
    if PutAt(b, p) == SIZE {
      PutNowhere(b, p, 0);
    } else {
      PutFirst(b, p, slot, 0);
    }
  }

  lemma {:induction false} PutAtFree(b: Table, p: nat, i: nat)
    requires i <= SIZE
    ensures var at := PutAt(b, p, i);
            at < SIZE ==> b[Probe(p, at)].inst == NULL || b[Probe(p, at)].inst == p
    decreases SIZE - i
  {
    if i < SIZE {
      PutAtFree(b, p, i + 1);
    }
  }

  lemma {:induction false} GetAtHolds(b: Table, p: nat, i: nat)
    requires i <= SIZE
    ensures GetAt(b, p, i) < SIZE ==> b[Probe(p, GetAt(b, p, i))].inst == p && First(b, p, i) == GetAt(b, p, i)
    decreases SIZE - i
  {
    if i < SIZE {
      GetAtHolds(b, p, i + 1);
    }
  }

  lemma PutKeepsRight(b: Table, p: nat, slot: int, q: nat, s: int)
    requires p != q && q != NULL && Right(b, q, s)
    ensures Right(Put(b, p, slot), q, s)
  {
    PutAtFree(b, p, 0);
    AgreeRight(b, Put(b, p, slot), q, s);
  }

  lemma RemoveKeepsRight(b: Table, p: nat, q: nat, s: int)
    requires p != q && q != NULL && Right(b, q, s)
    ensures Right(Remove(b, p), q, s)
  {
    GetAtHolds(b, p, 0);
    AgreeRight(b, Remove(b, p), q, s);
  }

  lemma GetRight(b: Table, p: nat, slot: int)
    requires p != NULL && Right(b, p, slot)
    ensures Get(b, p) == slot || Get(b, p) == -1
  {
    GetAtHolds(b, p, 0);
  }

  /** Right after a put that found a place, a get finds the slot without any scan. */
  lemma PutThenGet(b: Table, p: nat, slot: int)
    requires p != NULL && PutAt(b, p) < SIZE
    ensures Get(Put(b, p, slot), p) == slot
  {
    PutReached(b, p, slot, 0);
    PutFirst(b, p, slot, 0);
    GetAtHolds(Put(b, p, slot), p, 0);
  }

  lemma {:induction false} PutReached(b: Table, p: nat, slot: int, i: nat)
    requires p != NULL && i <= PutAt(b, p) < SIZE && PutAt(b, p, i) == PutAt(b, p)
    ensures GetAt(Put(b, p, slot), p, i) < SIZE
    decreases SIZE - i
  {
    if b[Probe(p, i)].inst != NULL && b[Probe(p, i)].inst != p {
      PutReached(b, p, slot, i + 1);
    }
  }

  /** Right after a removal the pointer is not found. */
  lemma RemoveForgets(b: Table, p: nat)
    requires p != NULL
    ensures Get(Remove(b, p), p) == -1
  {
    GetAtHolds(b, p, 0);
    if GetAt(b, p) < SIZE {
      RemovedAt(b, p, 0);
    }
  }

  lemma {:induction false} RemovedAt(b: Table, p: nat, i: nat)
    requires p != NULL && i <= GetAt(b, p) < SIZE && GetAt(b, p, i) == GetAt(b, p)
    requires b[Probe(p, GetAt(b, p))].inst == p
    ensures GetAt(Remove(b, p), p, i) == SIZE
    decreases SIZE - i
  {
    if b[Probe(p, i)].inst != p {
      RemovedAt(b, p, i + 1);
    }
  }

  // ----- when a removed pointer comes back -----

  lemma {:induction false} FirstIsFirst(b: Table, p: nat, i: nat, k: nat)
    requires i <= k < SIZE
    ensures k < First(b, p, i) ==> b[Probe(p, k)].inst != p
    decreases k - i
  {
    if i < k {
      FirstIsFirst(b, p, i + 1, k);
    }
  }

  lemma ProbesDiffer(p: nat, i: nat, k: nat)
    requires i < SIZE && k < SIZE && i != k
    ensures Probe(p, i) != Probe(p, k)
  {
    hide PtrHash;
    var h := PtrHash(p);
  }

  /** A removal leaves nothing behind: `p` is nowhere, or it is found and stands on no later probe. */
  ghost predicate Alone(b: Table, p: nat) {
    First(b, p) == SIZE || (GetAt(b, p) < SIZE && forall k :: GetAt(b, p) < k < SIZE ==> b[Probe(p, k)].inst != p)
  }

  /** Exactly then a removal clears its pointer. */
  lemma RemoveClearsIff(b: Table, p: nat)
    requires p != NULL
    ensures First(Remove(b, p), p) == SIZE <==> Alone(b, p)
  {
    hide First, GetAt, Probe;
    var c := Remove(b, p);
    var at := GetAt(b, p);
    GetAtHolds(b, p, 0);
    if at < SIZE {
      forall k | 0 <= k < SIZE && k != at
        ensures c[Probe(p, k)] == b[Probe(p, k)]
      {
        ProbesDiffer(p, k, at);
      }
      if Alone(b, p) {
        forall k | 0 <= k < SIZE
          ensures c[Probe(p, k)].inst != p
        {
          FirstIsFirst(b, p, 0, k);
        }
      } else {
        var k :| at < k < SIZE && b[Probe(p, k)].inst == p;
        FirstIsFirst(c, p, 0, k);
      }
    }
  }

  datatype Op = PutOp(inst: nat, slot: int) | RemoveOp(inst: nat)

  function Apply(b: Table, op: Op): (r: Table) {
    match op
    case PutOp(q, slot) => Put(b, q, slot)
    case RemoveOp(q) => Remove(b, q)
  }

  function ApplyAll(b: Table, ops: seq<Op>): (r: Table) {
    if ops == [] then b else Apply(ApplyAll(b, ops[..|ops| - 1]), ops[|ops| - 1])
  }

  /** Puts and removals of other pointers than `p`. */
  predicate Foreign(ops: seq<Op>, p: nat) {
    forall k :: 0 <= k < |ops| ==> ops[k].inst != p
  }

  /** What the first bucket holding `p` says, or -1. */
  function Said(b: Table, p: nat): (r: int) {
    if First(b, p) < SIZE then b[Probe(p, First(b, p))].slot else -1
  }

  lemma {:induction false} ForeignKeepRight(c: Table, ops: seq<Op>, p: nat, slot: int)
    requires p != NULL && Foreign(ops, p) && Right(c, p, slot)
    ensures Right(ApplyAll(c, ops), p, slot)
  {
    hide Right, Put, Remove;
    if ops != [] {
      var mid := ApplyAll(c, ops[..|ops| - 1]);
      ForeignKeepRight(c, ops[..|ops| - 1], p, slot);
      match ops[|ops| - 1]
      case PutOp(q, s) => PutKeepsRight(mid, q, s, p, slot);
      case RemoveOp(q) => RemoveKeepsRight(mid, q, p, slot);
    }
  }

  /** A pointer other than `p` whose chain starts at bucket `t`. */
  function Stranger(t: nat, p: nat): (q: nat)
    requires t < SIZE
    ensures q != p && q != NULL && Probe(q, 0) == t
  {
    var q := 16 * (t + SIZE);
    if q != p then q else 16 * (t + 2 * SIZE)
  }

  /** Puts of strangers into the free ones of the first `n` buckets on the chain of `p`. */
  function Fillers(c: Table, p: nat, n: nat): (r: seq<Op>)
    ensures Foreign(r, p)
  {
    if n == 0 then []
    else
      var t := Probe(p, n - 1);
      Fillers(c, p, n - 1) + if c[t].inst == NULL then [PutOp(Stranger(t, p), 0)] else []
  }

  lemma {:induction false} FillersFill(c: Table, p: nat, n: nat, k: nat)
    requires p != NULL && n <= First(c, p) && n <= SIZE && k < SIZE
    ensures var d := ApplyAll(c, Fillers(c, p, n));
            if k < n then d[Probe(p, k)].inst != NULL && d[Probe(p, k)].inst != p
            else d[Probe(p, k)] == c[Probe(p, k)]
  {
    hide First, Probe, Stranger;
    if n > 0 {
      var t := Probe(p, n - 1);
      var d := ApplyAll(c, Fillers(c, p, n - 1));
      FillersFill(c, p, n - 1, k);
      FirstIsFirst(c, p, 0, n - 1);
      if k != n - 1 {
        ProbesDiffer(p, k, n - 1);
      }
      if c[t].inst == NULL {
        FillersFill(c, p, n - 1, n - 1);
        var q := Stranger(t, p);
        assert Fillers(c, p, n)[..|Fillers(c, p, n - 1)|] == Fillers(c, p, n - 1);
        assert ApplyAll(c, Fillers(c, p, n)) == Put(d, q, 0) == d[t := Bucket(q, 0)];
      } else {
        assert Fillers(c, p, n) == Fillers(c, p, n - 1);
      }
    }
  }

  lemma {:induction false} ReachedAt(d: Table, p: nat, i: nat, n: nat)
    requires p != NULL && i <= n < SIZE && d[Probe(p, n)].inst == p
    requires forall k :: i <= k < n ==> d[Probe(p, k)].inst != NULL && d[Probe(p, k)].inst != p
    ensures GetAt(d, p, i) == n
    decreases n - i
  {
    if i < n {
      ReachedAt(d, p, i + 1, n);
    }
  }

  /** With the free buckets before its first copy filled, a pointer is found and says what it said. */
  lemma FilledIsFound(c: Table, p: nat)
    requires p != NULL && First(c, p) < SIZE
    ensures Get(ApplyAll(c, Fillers(c, p, First(c, p))), p) == Said(c, p)
  {
    hide ApplyAll, Fillers, Probe;
    var n := First(c, p);
    var d := ApplyAll(c, Fillers(c, p, n));
    forall k | 0 <= k < SIZE
      ensures if k < n then d[Probe(p, k)].inst != NULL && d[Probe(p, k)].inst != p
              else d[Probe(p, k)] == c[Probe(p, k)]
    {
      FillersFill(c, p, n, k);
    }
    ReachedAt(d, p, 0, n);
  }

  /** Some puts and removals of other pointers make `p` found if and only if a bucket on its chain still says a slot. */
  lemma ComesBackIff(c: Table, p: nat)
    requires p != NULL
    ensures (exists ops :: Foreign(ops, p) && Get(ApplyAll(c, ops), p) != -1) <==> Said(c, p) != -1
  {
    hide ApplyAll, Get, Fillers, Foreign, First;
    forall ops | Foreign(ops, p)
      ensures Get(ApplyAll(c, ops), p) in {-1, Said(c, p)}
    {
      ForeignKeepRight(c, ops, p, Said(c, p));
      GetRight(ApplyAll(c, ops), p, Said(c, p));
    }
    if Said(c, p) != -1 {
      FilledIsFound(c, p);
    }
  }

  /** A removed pointer can be found again, without a put of it, if and only if its removal left a copy. */
  lemma RemovedReturnsIff(b: Table, p: nat)
    requires p != NULL && forall k :: 0 <= k < SIZE && b[k].inst == p ==> b[k].slot >= 0
    ensures (exists ops :: Foreign(ops, p) && Get(ApplyAll(Remove(b, p), ops), p) != -1) <==> !Alone(b, p)
  {
    hide ApplyAll, Get, GetAt, Foreign, First, Alone;
    ComesBackIff(Remove(b, p), p);
    RemoveClearsIff(b, p);
  }

  /** Such a table comes from puts alone: the removal of 16 breaks the chain of 272, a put of 16 mends it. */
  lemma StaleEntryReturns()
    ensures var empty: Table := seq(SIZE, i => EMPTY);
            var b := Put(Put(empty, 16, 0), 272, 1);
            var c := Remove(Remove(b, 16), 272);
            Get(c, 272) == -1 && Get(Put(c, 16, 0), 272) == 1
  {
    var empty: Table := seq(SIZE, i => EMPTY);
    assert Probe(16, 0) == 1 && Probe(272, 0) == 1 && Probe(272, 1) == 2;
    assert PutAt(empty, 16) == 0;
    assert PutAt(Put(empty, 16, 0), 272, 1) == 1;
    var b := Put(Put(empty, 16, 0), 272, 1);
    assert b == empty[1 := Bucket(16, 0)][2 := Bucket(272, 1)];
    assert GetAt(b, 16) == 0;
    var c := Remove(Remove(b, 16), 272);
    assert c == b[1 := EMPTY];
    assert PutAt(c, 16) == 0;
    assert GetAt(Put(c, 16, 0), 272, 1) == 1;
  }

  class InstanceMap {
    const buckets: array<Bucket>

    ghost predicate Valid() { buckets.Length == SIZE }

    ghost function View(): (r: Table)
      requires Valid()
      reads buckets
    {
      buckets[..]
    }

    constructor ()
      ensures Valid() && fresh(buckets)
      ensures View() == seq(SIZE, i => EMPTY)
    {
      buckets := new Bucket[SIZE](i => EMPTY);
      new;
      assert buckets[..] == seq(SIZE, i => EMPTY);
    }

    method InsertAt(inst: nat, slot: int) returns (ok: bool)
      requires Valid() && inst != NULL
      modifies buckets
      ensures View() == Put(old(View()), inst, slot)
      ensures ok == (PutAt(old(View()), inst) < SIZE)
    {
      ghost var b := View();
      var i: nat := 0;
      while i < SIZE
        invariant i <= SIZE
        invariant View() == b && PutAt(b, inst) == PutAt(b, inst, i)
      {
        var probe := Probe(inst, i);
        if buckets[probe].inst == NULL || buckets[probe].inst == inst {
          buckets[probe] := Bucket(inst, slot);
          return true;
        }
        i := i + 1;
      }
      return false;
    }

    method SlotOf(inst: nat) returns (slot: int)
      requires Valid()
      ensures slot == Get(View(), inst)
    {
      if inst == NULL {
        return -1;
      }
      var i: nat := 0;
      while i < SIZE
        invariant i <= SIZE
        invariant GetAt(View(), inst) == GetAt(View(), inst, i)
      {
        var probe := Probe(inst, i);
        if buckets[probe].inst == inst {
          return buckets[probe].slot;
        }
        if buckets[probe].inst == NULL {
          break;
        }
        i := i + 1;
      }
      return -1;
    }

    method RemoveInst(inst: nat)
      requires Valid()
      modifies buckets
      ensures View() == Remove(old(View()), inst)
    {
      if inst == NULL {
        return;
      }
      ghost var b := View();
      var i: nat := 0;
      while i < SIZE
        invariant i <= SIZE
        invariant View() == b && GetAt(b, inst) == GetAt(b, inst, i)
      {
        var probe := Probe(inst, i);
        if buckets[probe].inst == inst {
          buckets[probe] := EMPTY;
          return;
        }
        if buckets[probe].inst == NULL {
          break;
        }
        i := i + 1;
      }
    }
  }
}
