/**
 Canonical Huffman codes of section 3.2.2 of RFC 1951, and the decoding walk over them.

 `CodeBits` is the code the RFC assigns to a symbol. `DecodeSym` is the walk the decoder
 makes over its per-length tables, with the 16-bit table entries it uses. The two are
 exact inverses for every code whose Kraft sum does not exceed one.
 */
module Huffman {
  import opened Bits

  const MAX_BITS: nat := 15
  const WORD16: nat := 0x1_0000

  /** Code length of every symbol; 0 marks a symbol that has no code. */
  type lengths = seq<nat>

  predicate Legal(lens: lengths) {
    forall i :: 0 <= i < |lens| ==> lens[i] <= MAX_BITS
  }

  /** How many symbols have codes of `b` bits. */
  function Count(lens: lengths, b: nat): (c: nat)
    ensures c <= |lens|
  {
    if lens == [] then 0
    else Count(lens[..|lens| - 1], b) + (if lens[|lens| - 1] == b then 1 else 0)
  }

  function MaxLen(lens: lengths): (m: nat)
    ensures forall i :: 0 <= i < |lens| ==> lens[i] <= m
    ensures m > 0 ==> exists i :: 0 <= i < |lens| && lens[i] == m
  {
    if lens == [] then 0
    else
      var m := MaxLen(lens[..|lens| - 1]);
      if lens[|lens| - 1] > m then lens[|lens| - 1] else m
  }

  /** Position of symbol `s` among the symbols that share its code length. */
  function Rank(lens: lengths, s: nat): (r: nat)
    requires s < |lens|
  {
    Count(lens[..s], lens[s])
  }

  /** The symbol at position `k` among those with codes of `b` bits. */
  function NthSym(lens: lengths, b: nat, k: nat): (s: nat)
    requires k < Count(lens, b)
    ensures s < |lens| && lens[s] == b && Rank(lens, s) == k
  {
    var init := lens[..|lens| - 1];
    if k < Count(init, b) then
      var s := NthSym(init, b, k);
      assert init[..s] == lens[..s];
      s
    else |init|
  }

  lemma {:induction false} RankBelowCount(lens: lengths, s: nat)
    requires s < |lens|
    ensures Rank(lens, s) < Count(lens, lens[s])
  {
    var init := lens[..|lens| - 1];
    if s < |init| {
      RankBelowCount(init, s);
      assert init[..s] == lens[..s];
    }
  }

  lemma {:induction false} NthOfRank(lens: lengths, s: nat)
    requires s < |lens|
    ensures Rank(lens, s) < Count(lens, lens[s])
    ensures NthSym(lens, lens[s], Rank(lens, s)) == s
  {
    RankBelowCount(lens, s);
    var init := lens[..|lens| - 1];
    if s < |init| {
      NthOfRank(init, s);
      assert init[..s] == lens[..s];
    } else {
      assert init == lens[..s];
    }
  }

  // ----- the canonical code -----

  /** Smallest code of each length, as section 3.2.2 computes it. */
  function CodeStart(lens: lengths, b: nat): (c: nat)
  {
    if b <= 1 then 0 else 2 * (CodeStart(lens, b - 1) + Count(lens, b - 1))
  }

  function CodeValue(lens: lengths, s: nat): (c: nat)
    requires s < |lens|
  {
    CodeStart(lens, lens[s]) + Rank(lens, s)
  }

  /** The code of symbol `s`, most significant bit first. */
  function CodeBits(lens: lengths, s: nat): (c: bits)
    requires s < |lens|
    ensures |c| == lens[s]
  {
    ToMsb(CodeValue(lens, s), lens[s])
  }

  /** The Kraft sum of the code, in units of 2^-15. */
  function KraftSum(lens: lengths): (k: nat)
    requires Legal(lens)
  {
    if lens == [] then 0
    else
      var l := lens[|lens| - 1];
      KraftSum(lens[..|lens| - 1]) + (if l == 0 then 0 else Pow2(MAX_BITS - l))
  }

  /** A code that some prefix code realises: lengths up to 15 and Kraft sum at most one. */
  predicate Prefixable(lens: lengths) {
    Legal(lens) && KraftSum(lens) <= Pow2(MAX_BITS)
  }

  /** The share of the Kraft sum taken by codes of 1 to `b` bits. */
  function LevelSum(lens: lengths, b: nat): (k: nat)
    requires b <= MAX_BITS
  {
    if b == 0 then 0 else LevelSum(lens, b - 1) + Shl(Count(lens, b), MAX_BITS - b)
  }

  lemma {:induction false} LevelSumSnoc(init: lengths, l: nat, b: nat)
    requires b <= MAX_BITS
    ensures LevelSum(init + [l], b) ==
            LevelSum(init, b) + (if 1 <= l <= b then Pow2(MAX_BITS - l) else 0)
  {
    if b > 0 {
      LevelSumSnoc(init, l, b - 1);
      assert (init + [l])[..|init|] == init;
      ShlSum(Count(init, b), 1, MAX_BITS - b);
    }
  }

  lemma {:induction false} LevelSumEmpty(b: nat)
    requires b <= MAX_BITS
    ensures LevelSum([], b) == 0
  {
    if b > 0 {
      LevelSumEmpty(b - 1);
      ShlSum(0, 0, MAX_BITS - b);
    }
  }

  lemma {:induction false} KraftByLevel(lens: lengths)
    requires Legal(lens)
    ensures LevelSum(lens, MAX_BITS) == KraftSum(lens)
  {
    if lens == [] {
      LevelSumEmpty(MAX_BITS);
    } else {
      var init := lens[..|lens| - 1];
      KraftByLevel(init);
      LevelSumSnoc(init, lens[|lens| - 1], MAX_BITS);
      assert init + [lens[|lens| - 1]] == lens;
    }
  }

  lemma {:induction false} LevelSumMono(lens: lengths, a: nat, b: nat)
    requires a <= b <= MAX_BITS
    ensures LevelSum(lens, a) <= LevelSum(lens, b)
  {
    if a < b { LevelSumMono(lens, a, b - 1); }
  }

  /** One past the largest code of `b` bits. */
  function CodeEnd(lens: lengths, b: nat): (c: nat)
  {
    CodeStart(lens, b) + Count(lens, b)
  }

  lemma {:induction false} CodeEndScaled(lens: lengths, b: nat)
    requires 1 <= b <= MAX_BITS
    ensures Shl(CodeEnd(lens, b), MAX_BITS - b) == LevelSum(lens, b)
  {
    if b > 1 {
      CodeEndScaled(lens, b - 1);
      ShlDouble(CodeEnd(lens, b - 1), MAX_BITS - b);
    }
    ShlSum(CodeStart(lens, b), Count(lens, b), MAX_BITS - b);
    ShlSum(0, 0, MAX_BITS - b);
  }

  /** Under the Kraft bound the codes of `b` bits fit in `b` bits. */
  lemma CodesFit(lens: lengths, b: nat)
    requires Prefixable(lens) && 1 <= b <= MAX_BITS
    ensures CodeEnd(lens, b) <= Pow2(b)
  {
    CodeEndScaled(lens, b);
    LevelSumMono(lens, b, MAX_BITS);
    KraftByLevel(lens);
    ShlShl(1, b, MAX_BITS - b);
    ShlOrder(CodeEnd(lens, b), Pow2(b), MAX_BITS - b);
  }

  lemma CodeValueFits(lens: lengths, s: nat)
    requires Prefixable(lens) && s < |lens| && lens[s] > 0
    ensures CodeValue(lens, s) < Pow2(lens[s])
  {
    CodesFit(lens, lens[s]);
    RankBelowCount(lens, s);
  }

  /** Every code of length `l` starts above all the codes of a shorter length `b`. */
  lemma {:induction false} StartsAbove(lens: lengths, b: nat, l: nat)
    requires 1 <= b < l
    ensures Shl(CodeEnd(lens, b), l - b) <= CodeStart(lens, l)
  {
    if b + 1 < l { StartsAbove(lens, b, l - 1); }
  }

  // ----- the decoder's tables and walk -----

  /** Conversion to a 16-bit word. */
  function Wrap16(x: nat): (r: nat)
    ensures r < WORD16 && (x < WORD16 ==> r == x)
  {
    if x < WORD16 then x else Wrap16(x - WORD16)
  }

  lemma {:induction false} Wrap16IsMod(x: nat)
    ensures Wrap16(x) == x % WORD16
  {
    if x >= WORD16 { Wrap16IsMod(x - WORD16); }
  }

  /** First code of each length as the decoder holds it, in 16 bits. */
  function First(lens: lengths, b: nat): (c: nat)
    ensures c < WORD16
  {
    if b <= 1 then 0 else Wrap16(2 * (First(lens, b - 1) + Count(lens, b - 1)))
  }

  /** Where the symbols with codes of `b` bits start in the sorted symbol table. */
  function Offset(lens: lengths, b: nat): (o: nat)
  {
    if b <= 1 then 0 else Offset(lens, b - 1) + Count(lens, b - 1)
  }

  lemma Pow2Fifteen()
    ensures Pow2(15) == 32768
  {
    Pow2Eight();
    ShlShl(1, 8, 7);
    assert Shl(256, 7) == 32768;
  }

  /** The 16-bit entries hold the RFC's values: nothing wraps. */
  lemma {:induction false} FirstIsCodeStart(lens: lengths, b: nat)
    requires Prefixable(lens) && b <= MAX_BITS
    ensures First(lens, b) == CodeStart(lens, b)
  {
    if b > 1 {
      FirstIsCodeStart(lens, b - 1);
      CodesFit(lens, b);
      Pow2Mono(b, MAX_BITS);
      Pow2Fifteen();
    }
  }

  datatype Lookup = Found(sym: nat) | NotFound

  /** The table test for a code word of `b` bits with value `c`. */
  function Find(lens: lengths, b: nat, c: nat): (r: Lookup)
    ensures r.Found? ==> r.sym < |lens|
  {
    var f := First(lens, b);
    if f <= c < f + Count(lens, b) then Found(NthSym(lens, b, c - f)) else NotFound
  }

  /** Outcome of decoding one symbol: the symbol and the position after its code, or an error. */
  datatype Symbol = Symbol(value: nat, pos: nat) | BadSymbol(err: int)

  const ERR_NO_INPUT: int := -1
  const ERR_NO_CODE: int := -3

  /** Continues a walk that has read `code` in `b - 1` bits and stands at bit `pos` of `s`. */
  function DecodeFrom(lens: lengths, s: bits, pos: nat, b: nat, code: nat): (r: Symbol)
    requires 1 <= b && pos <= |s|
    ensures r.Symbol? ==> r.value < |lens| && pos < r.pos <= |s|
    decreases |s| - pos
  {
    if b > MaxLen(lens) then BadSymbol(ERR_NO_CODE)
    else if pos == |s| then BadSymbol(ERR_NO_INPUT)
    else
      var c := 2 * code + BitVal(s[pos]);
      match Find(lens, b, c)
      case Found(v) => Symbol(v, pos + 1)
      case NotFound => DecodeFrom(lens, s, pos + 1, b + 1, c)
  }

  function DecodeSym(lens: lengths, s: bits, pos: nat): (r: Symbol)
    requires pos <= |s|
    ensures r.Symbol? ==> r.value < |lens| && pos < r.pos <= |s|
  {
    DecodeFrom(lens, s, pos, 1, 0)
  }

  // ----- decoding inverts the canonical code -----

  /** No proper prefix of a code is accepted on the way. */
  lemma PrefixNotAccepted(lens: lengths, s: nat, b: nat)
    requires Prefixable(lens) && s < |lens| && 1 <= b < lens[s]
    ensures Find(lens, b, Msb(CodeBits(lens, s)[..b])) == NotFound
  {
    FirstIsCodeStart(lens, b);
    StartsAbove(lens, b, lens[s]);
    CodeValueFits(lens, s);
    MsbRoundTrip(CodeValue(lens, s), lens[s]);
    MsbHead(CodeBits(lens, s), b, CodeEnd(lens, b));
  }

  lemma WholeCodeAccepted(lens: lengths, s: nat)
    requires Prefixable(lens) && s < |lens| && lens[s] > 0
    ensures Find(lens, lens[s], Msb(CodeBits(lens, s))) == Found(s)
  {
    CodeValueFits(lens, s);
    MsbRoundTrip(CodeValue(lens, s), lens[s]);
    FirstIsCodeStart(lens, lens[s]);
    NthOfRank(lens, s);
  }

  /** The value of a prefix grows by one bit at its end. */
  lemma MsbExtend(str: bits, b: nat)
    requires b < |str|
    ensures Msb(str[..b + 1]) == 2 * Msb(str[..b]) + BitVal(str[b])
  {
    assert str[..b + 1] == str[..b] + [str[b]];
    MsbAppend(str[..b], str[b]);
  }

  /** The tables accept `code` as `s` at its full length and no earlier. */
  ghost predicate Accepts(lens: lengths, s: nat, code: bits) {
    && 0 < |code| <= MaxLen(lens)
    && Find(lens, |code|, Msb(code)) == Found(s)
    && forall b :: 1 <= b < |code| ==> Find(lens, b, Msb(code[..b])) == NotFound
  }

  lemma AcceptsCode(lens: lengths, s: nat)
    requires Prefixable(lens) && s < |lens| && lens[s] > 0
    ensures Accepts(lens, s, CodeBits(lens, s))
  {
    WholeCodeAccepted(lens, s);
    forall b | 1 <= b < lens[s]
      ensures Find(lens, b, Msb(CodeBits(lens, s)[..b])) == NotFound
    {
      PrefixNotAccepted(lens, s, b);
    }
  }

  lemma {:induction false} WalkFindsCode(lens: lengths, s: nat, code: bits, str: bits, pos: nat, b: nat)
    requires Accepts(lens, s, code) && b < |code|
    requires pos + |code| <= |str| && str[pos..pos + |code|] == code
    ensures DecodeFrom(lens, str, pos + b, b + 1, Msb(code[..b])) == Symbol(s, pos + |code|)
    decreases |code| - b
  {
    hide Find, Msb, MaxLen;
    MsbExtend(code, b);
    assert str[pos + b] == code[b];
    if b + 1 < |code| {
      WalkFindsCode(lens, s, code, str, pos, b + 1);
    } else {
      assert code[..b + 1] == code;
    }
  }

  /** Reading a symbol's code gives the symbol and consumes exactly the code. */
  lemma DecodeInvertsCode(lens: lengths, s: nat, str: bits, pos: nat)
    requires Prefixable(lens) && s < |lens| && lens[s] > 0
    requires pos + lens[s] <= |str| && str[pos..pos + lens[s]] == CodeBits(lens, s)
    ensures DecodeSym(lens, str, pos) == Symbol(s, pos + lens[s])
  {
    AcceptsCode(lens, s);
    WalkFindsCode(lens, s, CodeBits(lens, s), str, pos, 0);
    assert CodeBits(lens, s)[..0] == [];
  }

  lemma FoundSymbol(lens: lengths, b: nat, c: nat)
    requires Legal(lens) && Find(lens, b, c).Found?
    ensures var s := Find(lens, b, c).sym;
            lens[s] == b <= MAX_BITS && c == First(lens, b) + Rank(lens, s)
  {
    hide First, Count, Rank, NthSym;
  }

  /** A code word that the tables accept is the code of the symbol they return. */
  lemma AcceptedIsCode(lens: lengths, here: bits)
    requires Prefixable(lens) && 1 <= |here| && Find(lens, |here|, Msb(here)).Found?
    ensures var s := Find(lens, |here|, Msb(here)).sym;
            lens[s] == |here| && here == CodeBits(lens, s)
  {
    assert Legal(lens);
    hide Prefixable, Legal, Find, First, Count, CodeStart, Msb, ToMsb, Rank, NthSym;
    FoundSymbol(lens, |here|, Msb(here));
    FirstIsCodeStart(lens, |here|);
    ToMsbOfMsb(here);
  }

  /** `r` is an error, or the symbol whose code starts at `pos`. */
  ghost predicate ReadsCode(lens: lengths, str: bits, pos: nat, r: Symbol) {
    r.Symbol? ==>
      r.value < |lens| && lens[r.value] > 0 && r.pos == pos + lens[r.value] <= |str| &&
      str[pos..r.pos] == CodeBits(lens, r.value)
  }

  lemma {:induction false} WalkSound(lens: lengths, str: bits, pos: nat, b: nat)
    requires Prefixable(lens) && pos + b <= |str|
    ensures ReadsCode(lens, str, pos, DecodeFrom(lens, str, pos + b, b + 1, Msb(str[pos..pos + b])))
    decreases |str| - pos - b
  {
    hide Find, Msb, CodeBits, Prefixable;
    if b < MaxLen(lens) && pos + b < |str| {
      MsbExtend(str[pos..], b);
      assert str[pos..][..b] == str[pos..pos + b] && str[pos..][..b + 1] == str[pos..pos + b + 1];
      if Find(lens, b + 1, Msb(str[pos..pos + b + 1])).Found? {
        AcceptedIsCode(lens, str[pos..pos + b + 1]);
      } else {
        WalkSound(lens, str, pos, b + 1);
      }
    }
  }

  /** Whatever is decoded was preceded by exactly that symbol's code. */
  lemma DecodeOnlyCodes(lens: lengths, str: bits, pos: nat)
    requires Prefixable(lens) && pos <= |str|
    ensures ReadsCode(lens, str, pos, DecodeSym(lens, str, pos))
  {
    assert str[pos..pos] == [];
    WalkSound(lens, str, pos, 0);
  }

  /**
   `DecodeSym` is the exact inverse of the canonical code: it returns `s` at `end` if and
   only if the bits from `pos` to `end` are the code of `s`.
   */
  lemma DecodeIffCode(lens: lengths, str: bits, pos: nat, s: nat, end: nat)
    requires Prefixable(lens) && pos <= end <= |str| && s < |lens| && lens[s] > 0
    ensures DecodeSym(lens, str, pos) == Symbol(s, end) <==> str[pos..end] == CodeBits(lens, s)
  {
    DecodeOnlyCodes(lens, str, pos);
    if str[pos..end] == CodeBits(lens, s) {
      DecodeInvertsCode(lens, s, str, pos);
    }
  }

  /** The canonical code is a prefix code. */
  lemma PrefixFree(lens: lengths, s: nat, t: nat)
    requires Prefixable(lens) && s < |lens| && t < |lens| && lens[s] > 0 && lens[t] > 0
    requires CodeBits(lens, s) <= CodeBits(lens, t)
    ensures s == t
  {
    var c := CodeBits(lens, t);
    assert c[0..lens[s]] == CodeBits(lens, s) && c[0..lens[t]] == c;
    DecodeInvertsCode(lens, s, c, 0);
    DecodeInvertsCode(lens, t, c, 0);
  }

  /** A code cut short is never accepted: the decoder asks for more input. */
  lemma ShortCodeRejected(lens: lengths, s: nat, k: nat)
    requires Prefixable(lens) && s < |lens| && k < lens[s]
    ensures DecodeSym(lens, CodeBits(lens, s)[..k], 0) == BadSymbol(ERR_NO_INPUT)
  {
    var c := CodeBits(lens, s)[..k];
    var r := DecodeSym(lens, c, 0);
    DecodeOnlyCodes(lens, c, 0);
    if r.Symbol? {
      assert CodeBits(lens, r.value) <= CodeBits(lens, s);
      PrefixFree(lens, r.value, s);
    } else {
      EndsForInput(lens, c, 0, 1, 0);
    }
  }

  lemma {:induction false} EndsForInput(lens: lengths, str: bits, pos: nat, b: nat, code: nat)
    requires 1 <= b && pos <= |str| && b + (|str| - pos) <= MaxLen(lens)
    requires DecodeFrom(lens, str, pos, b, code).BadSymbol?
    ensures DecodeFrom(lens, str, pos, b, code) == BadSymbol(ERR_NO_INPUT)
    decreases |str| - pos
  {
    if pos < |str| {
      EndsForInput(lens, str, pos + 1, b + 1, 2 * code + BitVal(str[pos]));
    }
  }
}
