/** One sequence standing inside another. */
module Slices {
  /** `e` stands in `s` at `pos`. */
  predicate Standing<T(==)>(s: seq<T>, pos: nat, e: seq<T>) {
    pos + |e| <= |s| && s[pos..pos + |e|] == e
  }

  lemma StandingSplit<T>(s: seq<T>, pos: nat, a: seq<T>, b: seq<T>)
    requires Standing(s, pos, a + b)
    ensures Standing(s, pos, a) && Standing(s, pos + |a|, b)
    ensures pos + |a| + |b| <= |s|
  {
    assert s[pos..pos + |a + b|][..|a|] == a;
    assert s[pos..pos + |a + b|][|a|..] == b;
  }

  lemma StandingFits<T>(s: seq<T>, pos: nat, e: seq<T>)
    requires Standing(s, pos, e)
    ensures pos + |e| <= |s|
  {
  }

  lemma StandingAt<T>(s: seq<T>, pos: nat, e: seq<T>, i: nat)
    requires Standing(s, pos, e) && i < |e|
    ensures pos + |e| <= |s| && s[pos + i] == e[i]
  {
    assert s[pos..pos + |e|][i] == s[pos + i];
  }

  lemma StandingTail<T>(s: seq<T>, pos: nat, e: seq<T>, n: nat)
    requires Standing(s, pos, e) && n <= |e|
    ensures Standing(s, pos + n, e[n..]) && pos + |e| <= |s|
  {
    assert e == e[..n] + e[n..];
    StandingSplit(s, pos, e[..n], e[n..]);
  }

  /** Concatenation under a name of its own, so that proofs can take it apart one seam at a time. */
  function Cat<T>(a: seq<T>, b: seq<T>): (r: seq<T>) { a + b }

  lemma CatStands<T>(s: seq<T>, pos: nat, a: seq<T>, b: seq<T>)
    requires Standing(s, pos, Cat(a, b))
    ensures Standing(s, pos, a) && Standing(s, pos + |a|, b)
    ensures |Cat(a, b)| == |a| + |b| && pos + |a| + |b| <= |s|
  {
    StandingSplit(s, pos, a, b);
  }
}
