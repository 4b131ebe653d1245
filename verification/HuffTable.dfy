/**
 The decoder's Huffman table: per-length counts, first codes and offsets, and the symbols
 sorted by code length and value, filled in place from a vector of code lengths.
 */
module HuffTables {
  import opened Bits
  import opened Huffman

  const MAX_SYMS: nat := 288

  /** The place of symbol `s` in the sorted symbol table. */
  function Slot(lens: lengths, s: nat): (k: nat)
    requires s < |lens|
  {
    Offset(lens, lens[s]) + Rank(lens, s)
  }

  lemma {:induction false} OffsetSnoc(init: lengths, l: nat, b: nat)
    ensures Offset(init + [l], b) == Offset(init, b) + (if 1 <= l < b then 1 else 0)
  {
    if b > 1 {
      OffsetSnoc(init, l, b - 1);
      assert (init + [l])[..|init|] == init;
    }
  }

  lemma {:induction false} OffsetBound(lens: lengths, b: nat)
    ensures Offset(lens, b) <= |lens|
  {
    if lens == [] {
      OffsetEmpty(b);
    } else {
      var init := lens[..|lens| - 1];
      assert lens == init + [lens[|lens| - 1]];
      OffsetBound(init, b);
      OffsetSnoc(init, lens[|lens| - 1], b);
    }
  }

  lemma {:induction false} OffsetEmpty(b: nat)
    ensures Offset([], b) == 0
  {
    if b > 1 { OffsetEmpty(b - 1); }
  }

  lemma {:induction false} OffsetMono(lens: lengths, a: nat, b: nat)
    requires a < b && 1 <= a
    ensures Offset(lens, a) + Count(lens, a) <= Offset(lens, b)
  {
    if a + 1 < b { OffsetMono(lens, a, b - 1); }
  }

  /** Slots stay inside the symbol table. */
  lemma SlotInRange(lens: lengths, s: nat)
    requires s < |lens| && lens[s] > 0
    ensures Slot(lens, s) < |lens|
  {
    RankBelowCount(lens, s);
    OffsetBound(lens, lens[s] + 1);
  }

  /** No two symbols share a slot. */
  lemma SlotsDistinct(lens: lengths, s: nat, t: nat)
    requires s < |lens| && t < |lens| && lens[s] > 0 && lens[t] > 0 && s != t
    ensures Slot(lens, s) != Slot(lens, t)
  {
    NthOfRank(lens, s);
    NthOfRank(lens, t);
    if lens[s] < lens[t] {
      OffsetMono(lens, lens[s], lens[t]);
    } else if lens[t] < lens[s] {
      OffsetMono(lens, lens[t], lens[s]);
    }
  }

  lemma {:induction false} CountPrefix(lens: lengths, i: nat, b: nat)
    requires i < |lens|
    ensures Count(lens[..i + 1], b) == Count(lens[..i], b) + (if lens[i] == b then 1 else 0)
  {
    assert lens[..i + 1][..i] == lens[..i];
  }

  lemma MaxPrefix(lens: lengths, i: nat)
    requires i < |lens|
    ensures MaxLen(lens[..i + 1]) == if lens[i] > MaxLen(lens[..i]) then lens[i] else MaxLen(lens[..i])
  {
    assert lens[..i + 1][..i] == lens[..i];
  }

  /** The builder's `tmp` row after it has placed the first `i` symbols. */
  function NextRow(row: seq<nat>, lens: lengths, i: nat): (r: seq<nat>)
    requires |row| == MAX_BITS + 1 && Legal(lens) && i <= |lens|
    ensures |r| == |row|
  {
    if i == 0 then row
    else
      var r, l := NextRow(row, lens, i - 1), lens[i - 1];
      if l == 0 then r else r[l := r[l] + 1]
  }

  lemma {:induction false} NextRowCounts(row: seq<nat>, lens: lengths, i: nat, b: nat)
    requires |row| == MAX_BITS + 1 && Legal(lens) && i <= |lens| && 1 <= b <= MAX_BITS
    ensures NextRow(row, lens, i)[b] == row[b] + Count(lens[..i], b)
  {
    if i > 0 {
      NextRowCounts(row, lens, i - 1, b);
      CountPrefix(lens, i - 1, b);
    }
  }

  ghost predicate InTable(lens: lengths, slot: seq<nat>) {
    |slot| == |lens| && forall s :: 0 <= s < |lens| && lens[s] > 0 ==> slot[s] < |lens|
  }

  /** Distinct places in the symbol table for all the symbols that have a code. */
  ghost predicate Placement(lens: lengths, slot: seq<nat>) {
    && InTable(lens, slot)
    && (forall s :: 0 <= s < |lens| && lens[s] > 0 ==> slot[s] == Slot(lens, s))
    && (forall s, t :: 0 <= s < t < |lens| && lens[s] > 0 && lens[t] > 0 ==> slot[s] != slot[t])
  }

  lemma Placed(lens: lengths) returns (slot: seq<nat>)
    ensures Placement(lens, slot)
  {
    slot := seq(|lens|, s requires 0 <= s < |lens| => Slot(lens, s));
    forall s | 0 <= s < |lens| && lens[s] > 0 ensures slot[s] < |lens| {
      SlotInRange(lens, s);
    }
    forall s, t | 0 <= s < t < |lens| && lens[s] > 0 && lens[t] > 0 ensures slot[s] != slot[t] {
      SlotsDistinct(lens, s, t);
    }
  }

  /** Following `row` through the symbols visits exactly the slots of `slot`. */
  ghost predicate Feeds(row: seq<nat>, lens: lengths, slot: seq<nat>)
    requires |row| == MAX_BITS + 1 && Legal(lens) && |slot| == |lens|
  {
    forall i :: 0 <= i < |lens| && lens[i] > 0 ==> NextRow(row, lens, i)[lens[i]] == slot[i]
  }

  lemma FeedsPlacement(row: seq<nat>, lens: lengths) returns (slot: seq<nat>)
    requires |row| == MAX_BITS + 1 && Legal(lens)
    requires forall b :: 1 <= b <= MaxLen(lens) ==> row[b] == Offset(lens, b)
    ensures Placement(lens, slot) && Feeds(row, lens, slot)
  {
    slot := Placed(lens);
    forall i | 0 <= i < |lens| && lens[i] > 0 ensures NextRow(row, lens, i)[lens[i]] == slot[i] {
      NextRowCounts(row, lens, i, lens[i]);
    }
  }

  /** The symbol table after the first `i` symbols have been written to their slots. */
  function Filled(syms: seq<nat>, lens: lengths, slot: seq<nat>, i: nat): (r: seq<nat>)
    requires |lens| <= |syms| && InTable(lens, slot) && i <= |lens|
    ensures |r| == |syms|
  {
    if i == 0 then syms
    else
      var r := Filled(syms, lens, slot, i - 1);
      if lens[i - 1] == 0 then r else r[slot[i - 1] := i - 1]
  }

  lemma {:induction false} FilledAt(syms: seq<nat>, lens: lengths, slot: seq<nat>, i: nat)
    requires |lens| <= |syms| && Placement(lens, slot) && i <= |lens|
    ensures forall s :: 0 <= s < i && lens[s] > 0 ==> Filled(syms, lens, slot, i)[slot[s]] == s
  {
    if i > 0 { FilledAt(syms, lens, slot, i - 1); }
  }

  class HuffTable {
    var maxBits: nat
    const counts: array<nat>
    const first: array<nat>
    const offset: array<nat>
    const syms: array<nat>

    ghost predicate Shape() {
      && counts.Length == first.Length == offset.Length == MAX_BITS + 1
      && syms.Length == MAX_SYMS
      && counts != first && counts != offset && counts != syms
      && first != offset && first != syms && offset != syms
    }

    constructor ()
      ensures Shape() && fresh(counts) && fresh(first) && fresh(offset) && fresh(syms)
    {
      counts := new nat[MAX_BITS + 1];
      first := new nat[MAX_BITS + 1];
      offset := new nat[MAX_BITS + 1];
      syms := new nat[MAX_SYMS];
    }

    /** The rows the decoder uses: 1 to `maxBits`. */
    ghost predicate Rows(lens: lengths)
      requires Shape()
      reads this, counts, first, offset
    {
      && maxBits == MaxLen(lens) <= MAX_BITS
      && (forall b :: 1 <= b <= maxBits ==> counts[b] == Count(lens, b))
      && (forall b :: 1 <= b <= maxBits ==> first[b] == First(lens, b))
      && (forall b :: 1 <= b <= maxBits ==> offset[b] == Offset(lens, b))
    }

    /** The table is the one for the code with lengths `lens`. */
    ghost predicate Represents(lens: lengths)
      reads this, counts, first, offset, syms
    {
      && Shape() && |lens| <= MAX_SYMS && Rows(lens)
      && forall s :: 0 <= s < |lens| && lens[s] > 0 ==> Slot(lens, s) < MAX_SYMS && syms[Slot(lens, s)] == s
    }

    /** First loop of the builder: count the lengths; a length over 15 is an error. */
    method CountLengths(lens: lengths) returns (ok: bool)
      requires Shape()
      modifies this`maxBits, counts
      ensures ok == Legal(lens)
      ensures ok ==> maxBits == MaxLen(lens) <= MAX_BITS
      ensures ok ==> forall b :: 1 <= b <= MAX_BITS ==> counts[b] == Count(lens, b)
    {
      for b := 0 to MAX_BITS + 1
        invariant forall k :: 0 <= k < b ==> counts[k] == 0
      {
        counts[b] := 0;
      }
      maxBits := 0;
      for i := 0 to |lens|
        invariant Legal(lens[..i]) && maxBits == MaxLen(lens[..i]) <= MAX_BITS
        invariant forall b :: 1 <= b <= MAX_BITS ==> counts[b] == Count(lens[..i], b)
      {
        if lens[i] > MAX_BITS {
          return false;
        }
        MaxPrefix(lens, i);
        forall b ensures Count(lens[..i + 1], b) == Count(lens[..i], b) + (if lens[i] == b then 1 else 0) {
          CountPrefix(lens, i, b);
        }
        if lens[i] != 0 {
          counts[lens[i]] := counts[lens[i]] + 1;
          if lens[i] > maxBits {
            maxBits := lens[i];
          }
        }
      }
      assert lens[..|lens|] == lens;
      ok := true;
    }

    /** Second loop: first code of each length. */
    method FillFirst(ghost lens: lengths)
      requires Shape() && maxBits == MaxLen(lens) <= MAX_BITS
      requires forall b :: 1 <= b <= MAX_BITS ==> counts[b] == Count(lens, b)
      modifies first
      ensures forall b :: 1 <= b <= maxBits ==> first[b] == First(lens, b)
    {
      hide Wrap16, Count, MaxLen;
      var code: nat := 0;
      for b := 1 to maxBits + 1
        invariant code == First(lens, b)
        invariant forall k :: 1 <= k < b ==> first[k] == First(lens, k)
      {
        first[b] := code;
        Wrap16IsMod(2 * (code + counts[b]));
        code := 2 * (code + counts[b]) % WORD16;
      }
    }

    /** Third loop: symbol offset of each length. */
    method FillOffset(ghost lens: lengths)
      requires Shape() && maxBits == MaxLen(lens) <= MAX_BITS
      requires forall b :: 1 <= b <= MAX_BITS ==> counts[b] == Count(lens, b)
      modifies offset
      ensures forall b :: 1 <= b <= maxBits ==> offset[b] == Offset(lens, b)
    {
      hide Count, MaxLen;
      var off: nat := 0;
      for b := 1 to maxBits + 1
        invariant off == Offset(lens, b)
        invariant forall k :: 1 <= k < b ==> offset[k] == Offset(lens, k)
      {
        offset[b] := off;
        off := off + counts[b];
      }
    }

    /** Last loop: place every used symbol at the next free slot for its length. */
    method PlaceSymbols(lens: lengths, row: seq<nat>, ghost slot: seq<nat>)
      requires |lens| <= syms.Length && |row| == MAX_BITS + 1
      requires Legal(lens) && InTable(lens, slot) && Feeds(row, lens, slot)
      modifies syms
      ensures syms[..] == Filled(old(syms[..]), lens, slot, |lens|)
    {
      var tmp := row;
      for i := 0 to |lens|
        invariant tmp == NextRow(row, lens, i)
        invariant syms[..] == Filled(old(syms[..]), lens, slot, i)
      {
        var l := lens[i];
        if l != 0 {
          syms[tmp[l]] := i;
          tmp := tmp[l := tmp[l] + 1];
        }
      }
    }

    /** Builds the table for the code lengths `lens`; fails on a length over 15. */
    method Build(lens: lengths) returns (ok: bool)
      requires Shape() && |lens| <= MAX_SYMS
      modifies this`maxBits, counts, first, offset, syms
      ensures ok == Legal(lens)
      ensures ok ==> Represents(lens)
    {
      ok := CountLengths(lens);
      if ok {
        FillFirst(lens);
        FillOffset(lens);
        ghost var slot := FeedsPlacement(offset[..], lens);
        PlaceSymbols(lens, offset[..], slot);
        FilledAt(old(syms[..]), lens, slot, |lens|);
      }
    }

    method MaxBits(ghost lens: lengths) returns (m: nat)
      requires Represents(lens)
      ensures m == MaxLen(lens)
    {
      m := maxBits;
    }

    /** The table test for a code word of `b` bits: the symbol it is the code of, if any. */
    method Lookup(ghost lens: lengths, b: nat, code: nat) returns (r: Lookup)
      requires Represents(lens) && 1 <= b <= MaxLen(lens)
      ensures r == Find(lens, b, code)
    {
      if counts[b] != 0 && first[b] <= code < first[b] + counts[b] {
        ghost var s := NthSym(lens, b, code - first[b]);
        assert Slot(lens, s) == offset[b] + (code - first[b]);
        r := Found(syms[offset[b] + (code - first[b])]);
      } else {
        r := NotFound;
      }
    }
  }
}
