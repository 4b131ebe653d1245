/**
 The settings records as they lie in the flash key-value store, and the order in which the
 settings operations write them. Record id 0 holds the counter; slot `i` is record id 1 + i.
 Every write below is one atomic flash operation, so power may go between any two of them.
 */
module NvsStore {
  import opened Errnos

  datatype Entry = Entry(key: string, value: string, encrypted: bool)

  datatype Flash = Flash(count: Option<nat>, cells: map<nat, Entry>)

  datatype Write = PutCell(slot: nat, entry: Entry) | DropCell(slot: nat) | PutCount(n: nat)

  function Apply(f: Flash, w: Write): (r: Flash) {
    match w
    case PutCell(i, e) => f.(cells := f.cells[i := e])
    case DropCell(i) => f.(cells := f.cells - {i})
    case PutCount(n) => f.(count := Some(n))
  }

  function ApplyAll(f: Flash, ws: seq<Write>): (r: Flash) {
    if ws == [] then f else Apply(ApplyAll(f, ws[..|ws| - 1]), ws[|ws| - 1])
  }

  // ----- lookup -----

  predicate Hit(cells: map<nat, Entry>, key: string, i: nat) { i in cells && cells[i].key == key }

  ghost predicate NoHit(cells: map<nat, Entry>, key: string, a: nat, b: nat) {
    forall i: nat :: a <= i < b ==> !Hit(cells, key, i)
  }

  /** The scan of the slots: holes are skipped, the first record with the key wins. */
  function Find(cells: map<nat, Entry>, n: nat, key: string, i: nat := 0): (r: Option<nat>)
    requires i <= n
    ensures r.Some? ==> i <= r.value < n && Hit(cells, key, r.value) && NoHit(cells, key, i, r.value)
    ensures r.None? ==> NoHit(cells, key, i, n)
    decreases n - i
  {
    if i == n then None
    else if Hit(cells, key, i) then Some(i)
    else Find(cells, n, key, i + 1)
  }

  function Lookup(f: Flash, key: string): (r: Option<Entry>) {
    if f.count.None? then None
    else
      match Find(f.cells, f.count.value, key)
      case None => None
      case Some(i) => Some(f.cells[i])
  }

  lemma LookupIs(f: Flash, key: string, p: nat)
    requires f.count.Some? && p < f.count.value
    requires Hit(f.cells, key, p) && NoHit(f.cells, key, 0, p)
    ensures Find(f.cells, f.count.value, key) == Some(p)
    ensures Lookup(f, key) == Some(f.cells[p])
  {
    assert Hit(f.cells, key, p);
  }

  ghost predicate SameLookups(f: Flash, g: Flash) {
    forall key :: Lookup(f, key) == Lookup(g, key)
  }

  // ----- shapes of a store -----

  /** No hole below the counter. */
  ghost predicate Contiguous(f: Flash) {
    f.count.Some? && forall i: nat :: i < f.count.value ==> i in f.cells
  }

  ghost predicate Distinct(f: Flash) {
    f.count.Some? &&
    forall i: nat, j: nat :: i < j < f.count.value && i in f.cells && j in f.cells ==>
      f.cells[i].key != f.cells[j].key
  }

  // ----- what each operation writes -----

  function SetWrites(f: Flash, e: Entry): (r: seq<Write>)
    requires f.count.Some?
  {
    match Find(f.cells, f.count.value, e.key)
    case Some(i) => [PutCell(i, e)]
    case None => [PutCell(f.count.value, e), PutCount(f.count.value + 1)]
  }

  /** The last record moves into the gap. */
  function DeleteWrites(f: Flash, key: string): (r: seq<Write>)
    requires f.count.Some?
  {
    match Find(f.cells, f.count.value, key)
    case None => []
    case Some(i) =>
      var last := f.count.value - 1;
      if i == last then [DropCell(i), PutCount(last)]
      else if last !in f.cells then []
      else [PutCell(i, f.cells[last]), DropCell(last), PutCount(last)]
  }

  /** The records present in the first `n` slots, in order. */
  function Present(cells: map<nat, Entry>, n: nat): (r: seq<Entry>)
    ensures |r| <= n
  {
    if n == 0 then []
    else Present(cells, n - 1) + if n - 1 in cells then [cells[n - 1]] else []
  }

  /** Pack the records, drop the slots left over, then write the new counter. */
  function CompactWrites(f: Flash): (r: seq<Write>)
    requires f.count.Some?
    ensures |r| == f.count.value + 1
  {
    var live := Present(f.cells, f.count.value);
    seq(|live|, (i: nat) requires i < |live| => PutCell(i, live[i]))
    + seq(f.count.value - |live|, (i: nat) => DropCell(|live| + i))
    + [PutCount(|live|)]
  }

  predicate HasHoles(f: Flash)
    requires f.count.Some?
  {
    exists i: nat | i < f.count.value :: i !in f.cells
  }

  /** What start-up writes. */
  function HealWrites(f: Flash): (r: seq<Write>) {
    if f.count.None? then [PutCount(0)]
    else if HasHoles(f) then CompactWrites(f)
    else []
  }

  function Reboot(f: Flash): (r: Flash) { ApplyAll(f, HealWrites(f)) }

  // ----- compaction changes no lookup, at any point -----

  /** Packing keeps the order: a record moves to the place its predecessors leave it. */
  lemma {:induction false} PresentAt(cells: map<nat, Entry>, n: nat, i: nat)
    requires i < n && i in cells
    ensures |Present(cells, i)| < |Present(cells, n)| && Present(cells, n)[|Present(cells, i)|] == cells[i]
  {
    if i < n - 1 {
      PresentAt(cells, n - 1, i);
    }
  }

  lemma {:induction false} PresentPrefix(cells: map<nat, Entry>, m: nat, n: nat)
    requires m <= n
    ensures |Present(cells, m)| <= |Present(cells, n)|
    ensures forall i :: 0 <= i < |Present(cells, m)| ==> Present(cells, n)[i] == Present(cells, m)[i]
  {
    if m < n {
      PresentPrefix(cells, m, n - 1);
    }
  }

  /** The first record with a key is also the first with that key among the packed ones. */
  lemma PresentFirst(cells: map<nat, Entry>, n: nat, key: string, p: nat)
    requires p < n && Hit(cells, key, p) && NoHit(cells, key, 0, p)
    ensures |Present(cells, p)| < |Present(cells, n)| && |Present(cells, p)| <= p
    ensures Present(cells, n)[|Present(cells, p)|] == cells[p]
    ensures forall i :: 0 <= i < |Present(cells, p)| ==> Present(cells, n)[i].key != key
  {
    hide Present;
    PresentAt(cells, n, p);
    PresentPrefix(cells, p, n);
    PresentNone(cells, p, key);
  }

  lemma {:induction false} PresentNone(cells: map<nat, Entry>, n: nat, key: string)
    requires NoHit(cells, key, 0, n)
    ensures forall i :: 0 <= i < |Present(cells, n)| ==> Present(cells, n)[i].key != key
  {
    if n > 0 {
      PresentNone(cells, n - 1, key);
      assert !Hit(cells, key, n - 1);
    }
  }

  /** The store after the first `j` writes of a compaction. */
  ghost predicate Packed(f: Flash, j: nat, g: Flash)
    requires f.count.Some? && j <= f.count.value
  {
    var n := f.count.value;
    var live := Present(f.cells, n);
    g.count == f.count
    && (forall i: nat :: i < j && i < |live| ==> i in g.cells && g.cells[i] == live[i])
    && (forall i: nat :: |live| <= i < j ==> i !in g.cells)
    && (forall i: nat :: j <= i ==> (i in g.cells <==> i in f.cells))
    && (forall i: nat :: j <= i && i in g.cells ==> g.cells[i] == f.cells[i])
  }

  lemma CompactWriteAt(f: Flash, i: nat)
    requires f.count.Some? && i < f.count.value
    ensures var live := Present(f.cells, f.count.value);
            CompactWrites(f)[i] == if i < |live| then PutCell(i, live[i]) else DropCell(i)
  {
  }

  lemma {:induction false} CompactState(f: Flash, j: nat)
    requires f.count.Some? && j <= f.count.value
    ensures Packed(f, j, ApplyAll(f, CompactWrites(f)[..j]))
  {
    hide CompactWrites, Present;
    var ws := CompactWrites(f)[..j];
    if j == 0 {
      assert ApplyAll(f, ws) == f;
    } else {
      CompactState(f, j - 1);
      CompactWriteAt(f, j - 1);
      assert ws[..j - 1] == CompactWrites(f)[..j - 1];
      assert ApplyAll(f, ws) == Apply(ApplyAll(f, ws[..j - 1]), ws[j - 1]);
      hide ApplyAll;
    }
  }

  lemma PackedLookup(f: Flash, j: nat, g: Flash, key: string)
    requires f.count.Some? && j <= f.count.value && Packed(f, j, g)
    ensures Lookup(g, key) == Lookup(f, key)
  {
    var n := f.count.value;
    var live := Present(f.cells, n);
    match Find(f.cells, n, key)
    case Some(p) =>
      PresentFirst(f.cells, n, key, p);
      var m := |Present(f.cells, p)|;
      var at := if m < j then m else p;
      forall i: nat | i < at
        ensures !Hit(g.cells, key, i)
      {
        if i < j && i < |live| {
          assert live[i].key != key;
        } else {
          assert !Hit(f.cells, key, i);
        }
      }
      LookupIs(g, key, at);
    case None =>
      PresentNone(f.cells, n, key);
      forall i: nat | i < n
        ensures !Hit(g.cells, key, i)
      {
        if i < j && i < |live| {
          assert live[i].key != key;
        } else {
          assert !Hit(f.cells, key, i);
        }
      }
  }

  lemma CountLookup(f: Flash, key: string)
    requires f.count.Some?
    ensures Lookup(ApplyAll(f, CompactWrites(f)), key) == Lookup(f, key)
    ensures ApplyAll(f, CompactWrites(f)).count == Some(|Present(f.cells, f.count.value)|)
    ensures ApplyAll(f, CompactWrites(f)).cells == ApplyAll(f, CompactWrites(f)[..f.count.value]).cells
  {
    var n := f.count.value;
    var ws := CompactWrites(f);
    var g := ApplyAll(f, ws[..n]);
    var h := ApplyAll(f, ws);
    assert h == Apply(g, ws[n]);
    CompactState(f, n);
    PackedLookup(f, n, g, key);
    match Find(g.cells, n, key)
    case Some(p) => LookupIs(h, key, p);
    case None =>
      assert NoHit(h.cells, key, 0, h.count.value);
  }

  /** Main result: cut the power after any number of a compaction's writes, and every lookup is as before. */
  lemma CompactKeepsLookups(f: Flash, j: nat)
    requires f.count.Some? && j <= |CompactWrites(f)|
    ensures SameLookups(f, ApplyAll(f, CompactWrites(f)[..j]))
  {
    forall key
      ensures Lookup(f, key) == Lookup(ApplyAll(f, CompactWrites(f)[..j]), key)
    {
      if j <= f.count.value {
        CompactState(f, j);
        PackedLookup(f, j, ApplyAll(f, CompactWrites(f)[..j]), key);
      } else {
        CountLookup(f, key);
        assert CompactWrites(f)[..j] == CompactWrites(f);
      }
    }
  }

  lemma HealKeepsLookups(f: Flash, j: nat)
    requires j <= |HealWrites(f)|
    ensures SameLookups(f, ApplyAll(f, HealWrites(f)[..j]))
  {
    if f.count.None? {
      var ws := HealWrites(f)[..j];
      if j == 1 {
        assert ApplyAll(f, ws) == Apply(ApplyAll(f, ws[..0]), PutCount(0));
      }
    } else if HasHoles(f) {
      CompactKeepsLookups(f, j);
    }
  }

  /** Start-up always leaves a store without holes. */
  lemma HealMakesContiguous(f: Flash)
    ensures Contiguous(Reboot(f))
  {
    if f.count.None? {
      assert ApplyAll(f, [PutCount(0)]) == Apply(ApplyAll(f, []), PutCount(0));
    } else if HasHoles(f) {
      CountLookup(f, "");
      CompactState(f, f.count.value);
    }
  }

  /** Start-ups that lose power after `cuts[0]`, `cuts[1]`, ... writes, and one that completes. */
  function Boots(f: Flash, cuts: seq<nat>): (r: Flash)
    decreases |cuts|
  {
    if cuts == [] then Reboot(f)
    else
      var ws := HealWrites(f);
      Boots(ApplyAll(f, if cuts[0] < |ws| then ws[..cuts[0]] else ws), cuts[1..])
  }

  lemma {:induction false} BootsKeepLookups(f: Flash, cuts: seq<nat>)
    ensures SameLookups(f, Boots(f, cuts)) && Contiguous(Boots(f, cuts))
    decreases |cuts|
  {
    hide Lookup, Contiguous, HealWrites, ApplyAll;
    var ws := HealWrites(f);
    assert ws[..|ws|] == ws;
    if cuts == [] {
      HealKeepsLookups(f, |ws|);
      HealMakesContiguous(f);
    } else {
      var j := if cuts[0] < |ws| then cuts[0] else |ws|;
      HealKeepsLookups(f, j);
      BootsKeepLookups(ApplyAll(f, ws[..j]), cuts[1..]);
    }
  }

  // ----- a set or a delete is atomic -----

  datatype Op = Set(entry: Entry) | Delete(key: string)

  function Writes(f: Flash, op: Op): (r: seq<Write>)
    requires f.count.Some?
  {
    match op
    case Set(e) => SetWrites(f, e)
    case Delete(key) => DeleteWrites(f, key)
  }

  /** The finite-map meaning of an operation, one key at a time. */
  function After(was: Option<Entry>, op: Op, key: string): (r: Option<Entry>) {
    match op
    case Set(e) => if e.key == key then Some(e) else was
    case Delete(k) => if k == key then None else was
  }

  /** After the `j`-th write of a set. */
  lemma SetState(f: Flash, e: Entry, j: nat)
    requires f.count.Some? && j <= |SetWrites(f, e)|
    ensures var n, at := f.count.value, Find(f.cells, f.count.value, e.key);
            ApplyAll(f, SetWrites(f, e)[..j]) == (
              if j == 0 then f
              else if at.Some? then f.(cells := f.cells[at.value := e])
              else Flash(Some(if j == 1 then n else n + 1), f.cells[n := e]))
  {
    var ws := SetWrites(f, e);
    if 0 < j {
      assert ws[..1][..0] == [];
      assert ApplyAll(f, ws[..1]) == Apply(f, ws[0]);
      if 1 < j {
        assert ws[..2][..1] == ws[..1];
        assert ApplyAll(f, ws[..2]) == Apply(ApplyAll(f, ws[..1]), ws[1]);
      }
    }
  }

  /** Setting needs nothing of the store, not even distinct keys. */
  lemma SetLookup(f: Flash, e: Entry, j: nat, key: string)
    requires f.count.Some? && j <= |SetWrites(f, e)|
    ensures Lookup(ApplyAll(f, SetWrites(f, e)[..j]), key)
         == if j < |SetWrites(f, e)| then Lookup(f, key) else After(Lookup(f, key), Set(e), key)
  {
    hide ApplyAll;
    SetState(f, e, j);
    var n := f.count.value;
    var g := ApplyAll(f, SetWrites(f, e)[..j]);
    var at := Find(f.cells, n, e.key);
    if j == 0 {
    } else if key != e.key {
      var r := Find(f.cells, n, key);
      forall i: nat | i < if r.Some? then r.value else g.count.value
        ensures !Hit(g.cells, key, i)
      {
        assert i < n ==> !Hit(f.cells, key, i);
      }
      if r.Some? {
        assert Hit(f.cells, key, r.value) && (at.Some? ==> Hit(f.cells, e.key, at.value));
        LookupIs(g, key, r.value);
      }
    } else {
      var p := if at.Some? then at.value else n;
      forall i: nat | i < p
        ensures !Hit(g.cells, key, i)
      {
        assert !Hit(f.cells, key, i);
      }
      if at.Some? || j == 2 {
        LookupIs(g, key, p);
      }
    }
  }

  lemma SetDone(f: Flash, e: Entry)
    requires f.count.Some?
    ensures var n, at := f.count.value, Find(f.cells, f.count.value, e.key);
            ApplyAll(f, SetWrites(f, e)) == (
              if at.Some? then f.(cells := f.cells[at.value := e]) else Flash(Some(n + 1), f.cells[n := e]))
    ensures forall key :: Lookup(ApplyAll(f, SetWrites(f, e)), key) == After(Lookup(f, key), Set(e), key)
  {
    hide ApplyAll, Lookup, After;
    var ws := SetWrites(f, e);
    assert ws[..|ws|] == ws;
    SetState(f, e, |ws|);
    forall key { SetLookup(f, e, |ws|, key); }
  }

  /** After the `j`-th write of a delete, on a store without holes. */
  lemma DeleteState(f: Flash, key: string, j: nat)
    requires Contiguous(f) && j <= |DeleteWrites(f, key)|
    ensures var ws := DeleteWrites(f, key);
            var g := ApplyAll(f, ws[..j]);
            && (j == 0 ==> g == f)
            && (0 < j ==> var n := f.count.value;
                          var i := Find(f.cells, n, key).value;
                          var moved := if i == n - 1 then f.cells else f.cells[i := f.cells[n - 1]];
                          && g.cells == (if i == n - 1 || 1 < j then moved - {n - 1} else moved)
                          && g.count == Some(if j == |ws| then n - 1 else n))
  {
    var ws := DeleteWrites(f, key);
    if 0 < j {
      assert ws[..1][..0] == [];
      assert ApplyAll(f, ws[..1]) == Apply(f, ws[0]);
      if 1 < j {
        assert ws[..2][..1] == ws[..1];
        assert ApplyAll(f, ws[..2]) == Apply(ApplyAll(f, ws[..1]), ws[1]);
        if 2 < j {
          assert ws[..3][..2] == ws[..2];
          assert ApplyAll(f, ws[..3]) == Apply(ApplyAll(f, ws[..2]), ws[2]);
        }
      }
    }
  }

  /** Deleting from a store without holes and without a second record for the key. */
  lemma DeleteLookup(f: Flash, key: string, j: nat, k: string)
    requires Contiguous(f) && Distinct(f) && j <= |DeleteWrites(f, key)|
    ensures Lookup(ApplyAll(f, DeleteWrites(f, key)[..j]), k)
         == if j == 0 then Lookup(f, k) else After(Lookup(f, k), Delete(key), k)
  {
    hide ApplyAll;
    DeleteState(f, key, j);
    if j == 0 {
      return;
    }
    var n := f.count.value;
    var i := Find(f.cells, n, key).value;
    var g := ApplyAll(f, DeleteWrites(f, key)[..j]);
    var r := Find(f.cells, n, k);
    if r.None? || k == key {
      forall q: nat | q < g.count.value
        ensures !Hit(g.cells, k, q)
      {
        assert !Hit(f.cells, k, q) || q == i;
        assert !Hit(f.cells, k, n - 1) || n - 1 == i;
      }
    } else {
      LookupIs(g, k, if r.value == n - 1 then i else r.value);
    }
  }

  lemma DeleteDone(f: Flash, key: string)
    requires f.count.Some? && Contiguous(f) && Distinct(f)
    ensures var n, at := f.count.value, Find(f.cells, f.count.value, key);
            ApplyAll(f, DeleteWrites(f, key)) == (
              if at.None? then f
              else Flash(Some(n - 1), (if at.value == n - 1 then f.cells else f.cells[at.value := f.cells[n - 1]]) - {n - 1}))
    ensures forall k :: Lookup(ApplyAll(f, DeleteWrites(f, key)), k) == After(Lookup(f, k), Delete(key), k)
  {
    hide ApplyAll;
    var ws := DeleteWrites(f, key);
    assert ws[..|ws|] == ws;
    DeleteState(f, key, |ws|);
    assert ws == [] ==> Lookup(f, key).None?;
    hide Contiguous, Lookup, Distinct;
    forall k { DeleteLookup(f, key, |ws|, k); }
  }
}
