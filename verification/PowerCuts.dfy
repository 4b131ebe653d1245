/**
 Power cuts: which store a cut set, delete or start-up leaves, when it keeps its keys distinct, and
 what lookups are over any sequence of cut operations.
 */
module PowerCuts {
  import opened Errnos
  import opened NvsStore

  // ----- start-ups of stores whose only hole, if any, is the last slot -----

  lemma {:induction false} ContiguousBoots(f: Flash, cuts: seq<nat>)
    requires Contiguous(f)
    ensures Boots(f, cuts) == f
    decreases |cuts|
  {
    if cuts != [] {
      ContiguousBoots(f, cuts[1..]);
    }
  }

  ghost predicate TailHole(f: Flash) {
    f.count.Some? && f.count.value > 0 && f.count.value - 1 !in f.cells
    && forall i: nat :: i < f.count.value - 1 ==> i in f.cells
  }

  lemma {:induction false} PresentAll(cells: map<nat, Entry>, n: nat)
    requires forall i: nat :: i < n ==> i in cells
    ensures |Present(cells, n)| == n && forall i :: 0 <= i < n ==> Present(cells, n)[i] == cells[i]
  {
    if n > 0 {
      PresentAll(cells, n - 1);
    }
  }

  /** Compaction writes every record where it is. */
  lemma TailHoleHeal(f: Flash, j: nat)
    requires TailHole(f) && j <= |HealWrites(f)|
    ensures |HealWrites(f)| == f.count.value + 1
    ensures ApplyAll(f, HealWrites(f)[..j]) ==
            Flash(Some(if j == |HealWrites(f)| then f.count.value - 1 else f.count.value), f.cells)
  {
    hide ApplyAll, CompactWrites;
    var n := f.count.value;
    var g := ApplyAll(f, HealWrites(f)[..j]);
    PresentAll(f.cells, n - 1);
    hide Present;
    assert HasHoles(f);
    var i := if j <= n then j else n;
    CompactState(f, i);
    assert ApplyAll(f, CompactWrites(f)[..i]).cells == f.cells;
    if j == n + 1 {
      CountLookup(f, "");
      assert CompactWrites(f)[..j] == CompactWrites(f);
    }
  }

  lemma {:induction false} TailHoleBoots(f: Flash, cuts: seq<nat>)
    requires TailHole(f)
    ensures Boots(f, cuts) == Flash(Some(f.count.value - 1), f.cells)
    decreases |cuts|
  {
    hide ApplyAll, HealWrites;
    var ws := HealWrites(f);
    assert ws[..|ws|] == ws;
    var j := if cuts != [] && cuts[0] < |ws| then cuts[0] else |ws|;
    TailHoleHeal(f, j);
    if cuts != [] {
      if j < |ws| {
        TailHoleBoots(f, cuts[1..]);
      } else {
        ContiguousBoots(ApplyAll(f, ws), cuts[1..]);
      }
    }
  }

  // ----- what a cut operation leaves -----

  /** A delete that moved the last record into the gap and was cut before dropping it. */
  predicate CutAfterMove(f: Flash, op: Op, j: nat)
    requires f.count.Some?
  {
    op.Delete? && j == 1 && |Writes(f, op)| == 3
  }

  /** A set takes effect with its last write, a delete with its first. */
  predicate TookEffect(f: Flash, op: Op, j: nat)
    requires f.count.Some?
  {
    if op.Set? then j == |Writes(f, op)| else j > 0
  }

  lemma CutSetStore(f: Flash, e: Entry, j: nat)
    requires Contiguous(f) && Distinct(f) && j <= |SetWrites(f, e)|
    ensures var g := ApplyAll(f, SetWrites(f, e)[..j]); Contiguous(g) && Distinct(g)
  {
    hide ApplyAll;
    SetState(f, e, j);
    var at := Find(f.cells, f.count.value, e.key);
    assert at.Some? ==> Hit(f.cells, e.key, at.value);
    if at.None? {
      forall i: nat | i < f.count.value && i in f.cells
        ensures f.cells[i].key != e.key
      {
        assert !Hit(f.cells, e.key, i);
      }
    }
  }

  lemma CutDeleteStore(f: Flash, key: string, j: nat)
    requires Contiguous(f) && Distinct(f) && j <= |DeleteWrites(f, key)|
    ensures var ws := DeleteWrites(f, key);
            var g := ApplyAll(f, ws[..j]);
            && (if 0 < j == |ws| - 1 then TailHole(g) else Contiguous(g))
            && (Distinct(g) <==> !(j == 1 && |ws| == 3))
  {
    hide ApplyAll;
    DeleteState(f, key, j);
    var n, i := f.count.value, Find(f.cells, f.count.value, key);
    if j == 1 && |DeleteWrites(f, key)| == 3 {
      var g := ApplyAll(f, DeleteWrites(f, key)[..j]);
      assert i.value in g.cells && n - 1 in g.cells && g.cells[i.value] == g.cells[n - 1];
    }
  }

  /**
   Main result: cut the power after any `j` writes of a set or a delete, interrupt the following
   start-ups anywhere any number of times: the lookups are those of the old map throughout or
   those of the new map throughout, and keys stay distinct if and only if the cut was not that of
   a delete right after its move.
   */
  lemma PowerCut(f: Flash, op: Op, j: nat, cuts: seq<nat>)
    requires f.count.Some? && Contiguous(f) && Distinct(f) && j <= |Writes(f, op)|
    ensures var g := Boots(ApplyAll(f, Writes(f, op)[..j]), cuts);
            && Contiguous(g)
            && (Distinct(g) <==> !CutAfterMove(f, op, j))
            && forall key :: Lookup(g, key) == if TookEffect(f, op, j) then After(Lookup(f, key), op, key) else Lookup(f, key)
  {
    hide Lookup, Contiguous, ApplyAll, Boots, SetWrites, DeleteWrites, After;
    var g0 := ApplyAll(f, Writes(f, op)[..j]);
    BootsKeepLookups(g0, cuts);
    match op
    case Set(e) =>
      CutSetStore(f, e, j);
      ContiguousBoots(g0, cuts);
      forall key { SetLookup(f, e, j, key); }
    case Delete(k) =>
      CutDeleteStore(f, k, j);
      if TailHole(g0) {
        TailHoleBoots(g0, cuts);
      } else {
        ContiguousBoots(g0, cuts);
      }
      forall key { DeleteLookup(f, k, j, key); }
  }

  // ----- any sequence of cut operations -----

  /** `op` ran until its `done`-th write; start-ups cut at `cuts` and one complete followed. */
  datatype Step = Step(op: Op, done: nat, cuts: seq<nat>)

  ghost predicate Run(stores: seq<Flash>, steps: seq<Step>) {
    && |stores| == |steps| + 1 && Contiguous(stores[0]) && Distinct(stores[0])
    && forall i :: 0 <= i < |steps| ==>
         && stores[i].count.Some? && steps[i].done <= |Writes(stores[i], steps[i].op)|
         && stores[i + 1] == Boots(ApplyAll(stores[i], Writes(stores[i], steps[i].op)[..steps[i].done]), steps[i].cuts)
  }

  /** What the first `i` steps say about a key: those that took effect, in order. */
  function Told(stores: seq<Flash>, steps: seq<Step>, i: nat, key: string): (r: Option<Entry>)
    requires i <= |steps| < |stores| && forall k :: 0 <= k < i ==> stores[k].count.Some?
  {
    if i == 0 then Lookup(stores[0], key)
    else
      var was, s := Told(stores, steps, i - 1, key), steps[i - 1];
      if TookEffect(stores[i - 1], s.op, s.done) then After(was, s.op, key) else was
  }

  /** Main result: over any run of operations, each cut anywhere, but no delete right after its move, the store is the map of those that took effect. */
  lemma {:induction false} RunOfCuts(stores: seq<Flash>, steps: seq<Step>, i: nat)
    requires Run(stores, steps) && i <= |steps|
    requires forall k :: 0 <= k < i ==> !CutAfterMove(stores[k], steps[k].op, steps[k].done)
    ensures Contiguous(stores[i]) && Distinct(stores[i])
    ensures forall key :: Lookup(stores[i], key) == Told(stores, steps, i, key)
  {
    hide Contiguous, Distinct, Lookup, After, TookEffect, CutAfterMove, Writes, Boots, ApplyAll;
    if i > 0 {
      RunOfCuts(stores, steps, i - 1);
      var s := steps[i - 1];
      PowerCut(stores[i - 1], s.op, s.done, s.cuts);
    }
  }

  // ----- exactly when a cut start-up keeps keys distinct -----

  lemma {:induction false} PresentFrom(cells: map<nat, Entry>, n: nat, i: nat) returns (k: nat)
    requires i < |Present(cells, n)|
    ensures k < n && k in cells && |Present(cells, k)| == i && Present(cells, n)[i] == cells[k]
  {
    if i < |Present(cells, n - 1)| {
      k := PresentFrom(cells, n - 1, i);
    } else {
      k := n - 1;
    }
  }

  predicate HoleBelow(f: Flash, j: nat) { exists i: nat | i < j :: i !in f.cells }

  ghost predicate RecordFrom(f: Flash, j: nat)
    requires f.count.Some?
  {
    exists i: nat :: j <= i < f.count.value && i in f.cells
  }

  /** The cut leaves a record in its old place that is already in its new one. */
  ghost predicate Breaks(f: Flash, j: nat)
    requires f.count.Some?
  {
    HoleBelow(f, j) && RecordFrom(f, j)
  }

  lemma {:induction false} FullBelow(cells: map<nat, Entry>, n: nat)
    ensures |Present(cells, n)| == n <==> forall i: nat :: i < n ==> i in cells
  {
    if n > 0 {
      FullBelow(cells, n - 1);
    }
  }

  /** Packing `j` slots of a store with distinct keys. */
  lemma PackedDistinctIff(f: Flash, j: nat, g: Flash)
    requires Distinct(f) && j <= f.count.value && Packed(f, j, g)
    ensures Distinct(g) <==> !Breaks(f, j)
  {
    hide Present;
    var n := f.count.value;
    var live := Present(f.cells, n);
    FullBelow(f.cells, j);
    if Breaks(f, j) {
      var r: nat :| j <= r < n && r in f.cells;
      PresentPrefix(f.cells, j, r);
      PresentAt(f.cells, n, r);
      var a := |Present(f.cells, j)|;
      var k := PresentFrom(f.cells, n, a);
      if k < j {
        PresentAt(f.cells, j, k);
      }
      assert a in g.cells && k in g.cells && g.cells[a] == g.cells[k];
    } else {
      forall a: nat, b: nat | a < b < n && a in g.cells && b in g.cells
        ensures g.cells[a].key != g.cells[b].key
      {
        if a < j {
          var ka := PresentFrom(f.cells, n, a);
          if b < j {
            var kb := PresentFrom(f.cells, n, b);
          } else if ka == b {
            PresentPrefix(f.cells, j, b);
            assert false;
          }
        }
      }
    }
  }

  /** Packing never tells two records with one key apart. */
  lemma PackedKeepsTwo(f: Flash, j: nat, g: Flash)
    requires f.count.Some? && !Distinct(f) && j <= f.count.value && Packed(f, j, g)
    ensures exists a: nat, b: nat :: a < b < f.count.value && a in g.cells && b in g.cells && g.cells[a].key == g.cells[b].key
    ensures !Distinct(g)
  {
    hide Present;
    var n := f.count.value;
    var x: nat, y: nat :| x < y < n && x in f.cells && y in f.cells && f.cells[x].key == f.cells[y].key;
    PresentAt(f.cells, n, x);
    PresentAt(f.cells, n, y);
    PresentAt(f.cells, y, x);
    var a := if x < j then |Present(f.cells, x)| else x;
    var b := if y < j then |Present(f.cells, y)| else y;
    assert a in g.cells && g.cells[a] == f.cells[x];
    assert b in g.cells && g.cells[b] == f.cells[y];
  }

  lemma CutCompaction(f: Flash, j: nat)
    requires f.count.Some? && j <= |CompactWrites(f)|
    ensures Distinct(ApplyAll(f, CompactWrites(f)[..j])) <==> Distinct(f) && !Breaks(f, j)
  {
    hide ApplyAll, CompactWrites, Packed;
    var n := f.count.value;
    var i := if j <= n then j else n;
    var g := ApplyAll(f, CompactWrites(f)[..i]);
    CompactState(f, i);
    if Distinct(f) {
      PackedDistinctIff(f, i, g);
    } else {
      PackedKeepsTwo(f, i, g);
    }
    if j == n + 1 {
      CountLookup(f, "");
      assert CompactWrites(f)[..j] == CompactWrites(f);
      DroppedAbove(f, g);
    }
  }

  /** After all the packing and dropping nothing is left that the new counter would hide. */
  lemma DroppedAbove(f: Flash, g: Flash)
    requires f.count.Some? && Packed(f, f.count.value, g)
    ensures Distinct(Flash(Some(|Present(f.cells, f.count.value)|), g.cells)) <==> Distinct(g)
  {
    hide Present;
    var h := Flash(Some(|Present(f.cells, f.count.value)|), g.cells);
    if Distinct(h) {
      forall a: nat, b: nat | a < b < f.count.value && a in g.cells && b in g.cells
        ensures g.cells[a].key != g.cells[b].key
      {
        assert b < h.count.value;
      }
    }
  }

  lemma CutHeal(f: Flash, j: nat)
    requires f.count.Some? && j <= |HealWrites(f)|
    ensures Distinct(ApplyAll(f, HealWrites(f)[..j])) <==> Distinct(f) && !Breaks(f, j)
    ensures ApplyAll(f, HealWrites(f)[..j]).count.Some?
  {
    hide CompactWrites, Distinct;
    if HasHoles(f) {
      CutCompaction(f, j);
      CompactKeepsCount(f, j);
    }
  }

  lemma CompactKeepsCount(f: Flash, j: nat)
    requires f.count.Some? && j <= |CompactWrites(f)|
    ensures ApplyAll(f, CompactWrites(f)[..j]).count.Some?
  {
    if j <= f.count.value {
      CompactState(f, j);
    } else {
      CountLookup(f, "");
      assert CompactWrites(f)[..j] == CompactWrites(f);
    }
  }

  /** None of the cut start-ups leaves a record in both its places. */
  ghost predicate Unbroken(f: Flash, cuts: seq<nat>)
    requires f.count.Some?
    decreases |cuts|
  {
    cuts == [] || (
      var ws := HealWrites(f);
      var j := if cuts[0] < |ws| then cuts[0] else |ws|;
      CutHeal(f, j);
      !Breaks(f, j) && Unbroken(ApplyAll(f, ws[..j]), cuts[1..]))
  }

  /** Main result: after any start-ups keys are distinct if and only if they were and no cut left a record twice. */
  lemma {:induction false} BootsDistinctIff(f: Flash, cuts: seq<nat>)
    requires f.count.Some?
    ensures Distinct(Boots(f, cuts)) <==> Distinct(f) && Unbroken(f, cuts)
    decreases |cuts|
  {
    hide Distinct, ApplyAll, HealWrites, Breaks;
    var ws := HealWrites(f);
    assert ws[..|ws|] == ws;
    if cuts == [] {
      CutHeal(f, |ws|);
      HealedWhole(f);
    } else {
      var j := if cuts[0] < |ws| then cuts[0] else |ws|;
      CutHeal(f, j);
      BootsDistinctIff(ApplyAll(f, ws[..j]), cuts[1..]);
    }
  }

  lemma HealedWhole(f: Flash)
    requires f.count.Some?
    ensures !Breaks(f, |HealWrites(f)|)
  {
  }

  /** A start-up cut after two writes: the record moved into the hole is there twice for good. */
  lemma CutBootLeavesTwo()
    ensures var a, b := Entry("a", "1", false), Entry("b", "2", false);
            var f := Flash(Some(3), map[0 := a, 2 := b]);
            Distinct(f) && forall cuts :: !Distinct(Boots(f, [2] + cuts))
  {
    var a, b := Entry("a", "1", false), Entry("b", "2", false);
    var f := Flash(Some(3), map[0 := a, 2 := b]);
    forall cuts: seq<nat>
      ensures !Distinct(Boots(f, [2] + cuts))
    {
      hide HealWrites, Boots, ApplyAll, Distinct;
      assert 1 !in f.cells && 2 in f.cells;
      assert HasHoles(f) && HoleBelow(f, 2) && RecordFrom(f, 2);
      assert |HealWrites(f)| == 4 by { HealLength(f); }
      BootsDistinctIff(f, [2] + cuts);
    }
  }

  lemma HealLength(f: Flash)
    requires f.count.Some? && HasHoles(f)
    ensures |HealWrites(f)| == f.count.value + 1
  {
  }

  // ----- exactly when a delete removes its key -----

  ghost predicate Once(f: Flash, key: string)
    requires f.count.Some?
  {
    exists i: nat :: i < f.count.value && Hit(f.cells, key, i) && forall j: nat :: j < f.count.value && Hit(f.cells, key, j) ==> j == i
  }

  /** On a store without holes that holds the key, a completed delete removes it if and only if it held it once. */
  lemma DeleteRemovesIff(f: Flash, key: string)
    requires Contiguous(f) && Lookup(f, key).Some?
    ensures Lookup(ApplyAll(f, DeleteWrites(f, key)), key).None? <==> Once(f, key)
  {
    hide ApplyAll;
    var ws := DeleteWrites(f, key);
    assert ws[..|ws|] == ws;
    DeleteState(f, key, |ws|);
    var n := f.count.value;
    var g := ApplyAll(f, ws);
    var i := Find(f.cells, n, key).value;
    match Find(g.cells, n - 1, key)
    case Some(q) =>
      var other := if q == i then n - 1 else q;
      assert Hit(f.cells, key, i) && Hit(f.cells, key, other) && other != i;
    case None =>
      forall j: nat | j < n && j != i
        ensures !Hit(f.cells, key, j)
      {
        assert !Hit(g.cells, key, if j == n - 1 then i else j);
      }
      assert Hit(f.cells, key, i);
  }

  /** A power cut can leave such a store: after one write of a delete, the moved record is there twice. */
  lemma CutDeleteLeavesTwo()
    ensures var a, b := Entry("a", "1", false), Entry("b", "2", false);
            var f := Flash(Some(2), map[0 := a, 1 := b]);
            var g := Boots(ApplyAll(f, DeleteWrites(f, "a")[..1]), []);
            && Contiguous(f) && Distinct(f) && g.count.Some?
            && Lookup(ApplyAll(g, DeleteWrites(g, "b")), "b") == Some(b)
  {
    var a, b := Entry("a", "1", false), Entry("b", "2", false);
    var f := Flash(Some(2), map[0 := a, 1 := b]);
    assert Hit(f.cells, "a", 0);
    DeleteState(f, "a", 1);
    var g := ApplyAll(f, DeleteWrites(f, "a")[..1]);
    assert g == Flash(Some(2), map[0 := b, 1 := b]);
    assert Boots(g, []) == g;
    assert Hit(g.cells, "b", 0) && Hit(g.cells, "b", 1);
    DeleteState(g, "b", 3);
    var ws := DeleteWrites(g, "b");
    assert ws[..3] == ws;
    LookupIs(ApplyAll(g, ws), "b", 0);
  }
}
