/**
 The code tables of RFC 1951 written out bit by bit: the fixed codes of section 3.2.6, the sending
 order of section 3.2.7, and the two rules of section 3.2.2 that determine every canonical code.
 The decoder reads exactly these.
 */
module CodeTables {
  import opened Bits
  import opened Huffman
  import opened Deflate
  import opened DeflateFormat
  import opened DeflateEncoder
  import opened Slices

  // ----- counting in runs -----

  lemma {:induction false} CountCat(a: lengths, b: lengths, l: nat)
    ensures Count(a + b, l) == Count(a, l) + Count(b, l)
    decreases |b|
  {
    if b == [] {
      assert a + b == a;
    } else {
      assert (a + b)[..|a + b| - 1] == a + b[..|b| - 1];
      CountCat(a, b[..|b| - 1], l);
    }
  }

  lemma {:induction false} CountRepeat(v: nat, n: nat, l: nat)
    ensures Count(Repeat(v, n), l) == if v == l then n else 0
  {
    if n > 0 {
      CountRepeat(v, n - 1, l);
      assert Repeat(v, n)[..n - 1] == Repeat(v, n - 1);
    }
  }

  /** `a` eights, `b` nines, `c` sevens and `d` eights: the shape of every prefix of the literal lengths. */
  function Runs(a: nat, b: nat, c: nat, d: nat): (r: lengths) {
    Repeat(8, a) + Repeat(9, b) + Repeat(7, c) + Repeat(8, d)
  }

  lemma CountRuns(a: nat, b: nat, c: nat, d: nat, l: nat)
    ensures Count(Runs(a, b, c, d), l) == if l == 8 then a + d else if l == 9 then b else if l == 7 then c else 0
  {
    hide Count, Repeat;
    CountCat(Repeat(8, a) + Repeat(9, b) + Repeat(7, c), Repeat(8, d), l);
    CountCat(Repeat(8, a) + Repeat(9, b), Repeat(7, c), l);
    CountCat(Repeat(8, a), Repeat(9, b), l);
    CountRepeat(8, a, l);
    CountRepeat(9, b, l);
    CountRepeat(7, c, l);
    CountRepeat(8, d, l);
  }

  lemma LitPrefix(s: nat)
    requires s <= 288
    ensures FixedLitLengths()[..s] ==
            if s <= 144 then Runs(s, 0, 0, 0) else if s <= 256 then Runs(144, s - 144, 0, 0)
            else if s <= 280 then Runs(144, 112, s - 256, 0) else Runs(144, 112, 24, s - 280)
  {
    hide Repeat;
  }

  lemma LitStarts()
    ensures CodeStart(FixedLitLengths(), 7) == 0
    ensures CodeStart(FixedLitLengths(), 8) == 48 && CodeStart(FixedLitLengths(), 9) == 400
  {
    hide Count;
    LitPrefix(288);
    assert FixedLitLengths()[..288] == FixedLitLengths();
    hide FixedLitLengths, Runs;
    forall l {
      CountRuns(144, 112, 24, 8, l);
    }
    var ll := FixedLitLengths();
    assert CodeStart(ll, 4) == 0;
    assert CodeStart(ll, 7) == 0;
  }

  // ----- the codes of section 3.2.6 -----

  /** The code of literal/length symbol `s`: 00110000.., 110010000.., 0000000.., 11000000.. */
  function LitCode(s: nat): (r: bits)
    requires s < 288
  {
    if s < 144 then ToMsb(48 + s, 8)
    else if s < 256 then ToMsb(400 + (s - 144), 9)
    else if s < 280 then ToMsb(s - 256, 7)
    else ToMsb(192 + (s - 280), 8)
  }

  /** Length of the code of symbol `s` and how many symbols before it have that length. */
  lemma LitRank(s: nat)
    requires s < 288
    ensures |FixedLitLengths()| == 288
    ensures FixedLitLengths()[s] == if s < 144 then 8 else if s < 256 then 9 else if s < 280 then 7 else 8
    ensures Rank(FixedLitLengths(), s) ==
            if s < 144 then s else if s < 256 then s - 144 else if s < 280 then s - 256 else s - 136
  {
    hide Repeat, Count;
    LitPrefix(s);
    hide Runs;
    if s < 144 {
      CountRuns(s, 0, 0, 0, 8);
    } else if s < 256 {
      CountRuns(144, s - 144, 0, 0, 9);
    } else if s < 280 {
      CountRuns(144, 112, s - 256, 0, 7);
    } else {
      CountRuns(144, 112, 24, s - 280, 8);
    }
  }

  lemma CodeFrom(lens: lengths, s: nat, l: nat, start: nat, rank: nat)
    requires s < |lens| && lens[s] == l && CodeStart(lens, l) == start && Rank(lens, s) == rank
    ensures CodeBits(lens, s) == ToMsb(start + rank, l)
  {
    hide ToMsb, CodeStart, Rank;
  }

  lemma LitCodeIs(s: nat)
    requires s < 288
    ensures |FixedLitLengths()| == 288 && CodeBits(FixedLitLengths(), s) == LitCode(s)
  {
    LitRank(s);
    LitStarts();
    hide FixedLitLengths, ToMsb, CodeStart, Rank, CodeBits;
    var ll := FixedLitLengths();
    if s < 144 {
      CodeFrom(ll, s, 8, 48, s);
    } else if s < 256 {
      CodeFrom(ll, s, 9, 400, s - 144);
    } else if s < 280 {
      CodeFrom(ll, s, 7, 0, s - 256);
    } else {
      CodeFrom(ll, s, 8, 48, s - 136);
    }
  }

  lemma DistStart()
    ensures CodeStart(FixedDistLengths(), 5) == 0
  {
    hide Repeat, Count;
    var dist := FixedDistLengths();
    forall l
      ensures Count(dist, l) == if l == 5 then 30 else if l == 0 then 2 else 0
    {
      CountCat(Repeat(5, 30), Repeat(0, 2), l);
      CountRepeat(5, 30, l);
      CountRepeat(0, 2, l);
    }
    hide FixedDistLengths;
    assert CodeStart(dist, 3) == 0;
  }

  lemma DistRank(d: nat)
    requires d < 30
    ensures |FixedDistLengths()| == 32 && FixedDistLengths()[d] == 5 && Rank(FixedDistLengths(), d) == d
  {
    hide Repeat, Count;
    assert FixedDistLengths()[..d] == Repeat(5, d);
    CountRepeat(5, d, 5);
  }

  lemma DistCodeIs(d: nat)
    requires d < 30
    ensures |FixedDistLengths()| == 32 && CodeBits(FixedDistLengths(), d) == ToMsb(d, 5)
  {
    DistRank(d);
    DistStart();
    hide FixedDistLengths, ToMsb, CodeStart, Rank;
  }

  /** A literal/length symbol is read from the fixed code if and only if its code of the table stands there. */
  lemma LitReadIff(str: bits, pos: nat, s: nat, end: nat)
    requires pos <= end <= |str| && s < 288
    ensures DecodeSym(FixedLitLengths(), str, pos) == Symbol(s, end) <==> str[pos..end] == LitCode(s)
  {
    hide DecodeSym, CodeBits, LitCode, FixedLitLengths, Prefixable, Rank;
    FixedLitPrefixable();
    LitRank(s);
    LitCodeIs(s);
    DecodeIffCode(FixedLitLengths(), str, pos, s, end);
  }

  // ----- blocks written with this table -----

  function TokenText(t: Token): (r: bits)
    requires TokenEncodable(t, FixedLitLengths(), FixedDistLengths())
  {
    match t
    case Lit(b) => LitCode(b as nat)
    case Ref(length, distance, l, d) =>
      LitCode(257 + l) + (ToLsb(length - LenBase(l), LenExtra(l)) + (ToMsb(d, 5) + ToLsb(distance - DistBase(d), DistExtra(d))))
  }

  function TokensText(ts: Tokens): (r: bits)
    requires TokensEncodable(ts, FixedLitLengths(), FixedDistLengths())
  {
    match ts
    case End => LitCode(256)
    case Cons(t, rest) => TokenText(t) + TokensText(rest)
  }

  lemma TokenTextIs(t: Token)
    requires TokenEncodable(t, FixedLitLengths(), FixedDistLengths())
    ensures TokenBits(t, FixedLitLengths(), FixedDistLengths()) == TokenText(t)
  {
    hide FixedLitLengths, FixedDistLengths, CodeBits, LitCode, ToMsb, ToLsb, LenBase, DistBase, LenExtra, DistExtra;
    match t
    case Lit(b) => LitCodeIs(b as nat);
    case Ref(_, _, l, d) =>
      LitCodeIs(257 + l);
      DistCodeIs(d);
  }

  lemma {:induction false} TokensTextIs(ts: Tokens)
    requires TokensEncodable(ts, FixedLitLengths(), FixedDistLengths())
    ensures TokensBits(ts, FixedLitLengths(), FixedDistLengths()) == TokensText(ts)
  {
    hide FixedLitLengths, FixedDistLengths, CodeBits, LitCode, TokenBits, TokenText, TokenEncodable;
    match ts
    case End => LitCodeIs(256);
    case Cons(t, rest) =>
      TokenTextIs(t);
      TokensTextIs(rest);
  }

  /** Main result: a stream that begins with a last block of type 01 written with the table inflates to its LZ77 expansion. */
  lemma FixedBlockInflates(ts: Tokens, s: bits, cap: nat)
    requires TokensEncodable(ts, FixedLitLengths(), FixedDistLengths()) && ts.Resolves([])
    requires [true, true, false] + TokensText(ts) <= s
    ensures Inflate(s, 0, [], cap) == Delivered(ts.Expand([]), 3 + |TokensText(ts)|, cap)
  {
    hide FixedLitLengths, FixedDistLengths, TokensText, TokensBits, TokensEncodable, Inflate, Tokens.Size, Stream.Written;
    var st := Last(Fixed(ts));
    TokensTextIs(ts);
    assert [true] + ToLsb(1, 2) == [true, true, false];
    hide ToLsb;
    assert Encode(st, 0) == [true, true, false] + TokensText(ts);
    StreamStands(st, s, 0);
    InflateInverts(st, s, 0, st.End(0), [], cap);
  }

  function Literals(data: seq<byte>): (r: Tokens) {
    if data == [] then End else Cons(Lit(data[0]), Literals(data[1..]))
  }

  lemma {:induction false} LiteralsHold(data: seq<byte>, out: seq<byte>)
    ensures TokensEncodable(Literals(data), FixedLitLengths(), FixedDistLengths())
    ensures Literals(data).Resolves(out) && Literals(data).Expand(out) == out + data
    decreases |data|
  {
    hide FixedLitLengths, FixedDistLengths, HasCode;
    FixedCodesAll();
    if data == [] {
      assert out + data == out;
    } else {
      assert out + [data[0]] + data[1..] == out + data;
      LiteralsHold(data[1..], out + [data[0]]);
    }
  }

  const SEVEN_ZEROS: bits := [false, false, false, false, false, false, false]

  /** The codes of the bytes, one after another, and the end of the block. */
  function BytesText(data: seq<byte>): (r: bits) {
    if data == [] then SEVEN_ZEROS
    else LitCode(data[0] as nat) + BytesText(data[1..])
  }

  lemma {:induction false} BytesTextIs(data: seq<byte>)
    requires TokensEncodable(Literals(data), FixedLitLengths(), FixedDistLengths())
    ensures TokensText(Literals(data)) == BytesText(data)
    decreases |data|
  {
    if data == [] {
      SevenZeros();
    } else {
      hide FixedLitLengths, FixedDistLengths, LitCode;
      BytesTextIs(data[1..]);
    }
  }

  lemma SevenZeros()
    ensures LitCode(256) == SEVEN_ZEROS
  {
    assert ToMsb(0, 3) == [false, false, false];
  }

  /** Any bytes written so come back. */
  lemma FixedBytesInflate(data: seq<byte>, s: bits, cap: nat)
    requires |data| <= cap && [true, true, false] + BytesText(data) <= s
    ensures Inflate(s, 0, [], cap) == Outcome.Done(3 + |BytesText(data)|, data)
  {
    hide FixedLitLengths, FixedDistLengths, TokensText, TokensEncodable, BytesText, Inflate, Literals;
    LiteralsHold(data, []);
    BytesTextIs(data);
    assert [] + data == data;
    FixedBlockInflates(Literals(data), s, cap);
  }

  lemma FixedByteInflates(b: byte, code: bits, s: bits)
    requires code == LitCode(b as nat) && [true, true, false] + (code + SEVEN_ZEROS) <= s
    ensures Inflate(s, 0, [], 1) == Outcome.Done(10 + |code|, [b])
  {
    hide LitCode, Inflate;
    assert [b][1..] == [];
    assert BytesText([b]) == code + SEVEN_ZEROS;
    FixedBytesInflate([b], s, 1);
  }

  /** The three bytes 4B 04 00 are the letter a. */
  lemma LetterA()
    ensures Inflate(Unpack([0x4B, 0x04, 0x00]), 0, [], 1) == Outcome.Done(18, [0x61])
  {
    hide Unpack, LitCode, Inflate;
    var code := LitCode(0x61);
    LetterCode();
    LetterBits();
    var s := Unpack([0x4B, 0x04, 0x00]);
    assert ([true, true, false] + (code + SEVEN_ZEROS)) + [false, false, false, false, false, false] == s;
    FixedByteInflates(0x61, code, s);
  }

  lemma LetterCode()
    ensures LitCode(0x61) == [true, false, false, true, false, false, false, true]
  {
    assert Pow2(7) == 128 && Pow2(6) == 64 && Pow2(5) == 32 && Pow2(4) == 16 && Pow2(3) == 8;
    assert ToMsb(1, 4) == [false, false, false, true];
    assert ToMsb(17, 7) == [false, false, true, false, false, false, true];
  }

  lemma LetterBits()
    ensures Unpack([0x4B, 0x04, 0x00]) ==
            [true, true, false, true, false, false, true, false]
            + ([false, false, true, false, false, false, false, false]
               + [false, false, false, false, false, false, false, false])
  {
    FirstBits();
    SecondBits();
    hide ToLsb;
    UnpackHead(0x00, []);
    UnpackHead(0x04, [0x00]);
    UnpackHead(0x4B, [0x04, 0x00]);
  }

  lemma UnpackHead(b: byte, rest: seq<byte>)
    ensures Unpack([b] + rest) == ToLsb(b as nat, 8) + Unpack(rest) && Unpack([]) == []
  {
    assert ([b] + rest)[1..] == rest;
  }

  lemma FirstBits()
    ensures ToLsb(0x4B, 8) == [true, true, false, true, false, false, true, false]
  {
    assert ToLsb(3, 2) == [true, true];
    assert ToLsb(11, 4) == [true, true, false, true];
    assert ToLsb(11, 6) == [true, true, false, true, false, false];
  }

  lemma SecondBits()
    ensures ToLsb(0x04, 8) == [false, false, true, false, false, false, false, false]
    ensures ToLsb(0x00, 8) == [false, false, false, false, false, false, false, false]
  {
    assert ToLsb(0, 4) == [false, false, false, false];
  }

  // ----- the sending order of section 3.2.7 -----

  lemma SentAt(i: nat)
    requires i < 19
    ensures ClenPlace(i) == [16, 17, 18, 0, 8, 7, 9, 6, 10, 5, 11, 4, 12, 3, 13, 2, 14, 1, 15][i]
  {
  }

  lemma {:induction false} PlacedAt(s: bits, pos: nat, n: nat, i: nat)
    requires n <= 19 && i < 19 && pos + 3 * n <= |s|
    ensures ClenLengths(s, pos, n)[ClenPlace(i)] == if i < n then Lsb(s[pos + 3 * i..pos + 3 * i + 3]) else 0
    decreases n
  {
    hide ClenPlace, Lsb;
    if n > 0 {
      PlacedAt(s, pos, n - 1, i);
      if i != n - 1 {
        ClenPlaceInjective(i, n - 1);
      }
    }
  }

  /** The `i`-th three bits sent are the length of the `i`-th symbol of the list; symbols not sent have none. */
  lemma SendingOrder(s: bits, pos: nat, n: nat, i: nat)
    requires n <= 19 && i < 19 && pos + 3 * n <= |s|
    ensures ClenLengths(s, pos, n)[[16, 17, 18, 0, 8, 7, 9, 6, 10, 5, 11, 4, 12, 3, 13, 2, 14, 1, 15][i]] ==
            if i < n then Lsb(s[pos + 3 * i..pos + 3 * i + 3]) else 0
  {
    hide ClenPlace, Lsb, ClenLengths;
    SentAt(i);
    PlacedAt(s, pos, n, i);
  }

  // ----- the rules of section 3.2.2 -----

  /** Codes of up to fifteen bits are decoded, and a full code of that depth is one of them. */
  lemma FifteenBits()
    ensures forall lens: lengths :: Legal(lens) <==> forall i :: 0 <= i < |lens| ==> lens[i] <= 15
    ensures Prefixable(Stairs(15) + [15])
  {
    StairsKraft(15);
    var s := Stairs(15);
    assert (s + [15])[..|s + [15]| - 1] == s;
    assert Pow2(0) == 1;
    StairsLegal(15);
  }

  /** Lengths 1, 2, ... up to `n`. */
  function Stairs(n: nat): (r: lengths) { if n == 0 then [] else Stairs(n - 1) + [n] }

  lemma {:induction false} StairsLegal(n: nat)
    ensures forall i :: 0 <= i < |Stairs(n)| ==> Stairs(n)[i] <= n
  {
    if n > 0 {
      StairsLegal(n - 1);
    }
  }

  lemma {:induction false} StairsKraft(n: nat)
    requires n <= 15
    ensures Legal(Stairs(n)) && KraftSum(Stairs(n)) + Pow2(15 - n) == Pow2(15)
  {
    StairsLegal(n);
    if n > 0 {
      StairsKraft(n - 1);
      assert Stairs(n)[..|Stairs(n)| - 1] == Stairs(n - 1);
      assert Pow2(16 - n) == 2 * Pow2(15 - n);
    } else {
      assert Stairs(0) == [];
    }
  }

  /** Shorter codes first, and among codes of one length the symbols in order. */
  predicate Precedes(lens: lengths, s: nat, t: nat)
    requires s < |lens| && t < |lens|
  {
    0 < lens[s] && (lens[s] < lens[t] || (lens[s] == lens[t] && s < t))
  }

  lemma {:induction false} CountNone(lens: lengths, b: nat)
    requires forall i :: 0 <= i < |lens| ==> lens[i] != b
    ensures Count(lens, b) == 0
  {
    if lens != [] {
      CountNone(lens[..|lens| - 1], b);
    }
  }

  lemma CountOne(lens: lengths, s: nat, t: nat, b: nat)
    requires s < t <= |lens| && lens[s] == b && forall u :: s < u < t ==> lens[u] != b
    ensures Count(lens[..t], b) == Count(lens[..s], b) + 1
  {
    hide Count;
    assert lens[..t] == lens[..s + 1] + lens[s + 1..t];
    CountCat(lens[..s + 1], lens[s + 1..t], b);
    CountNone(lens[s + 1..t], b);
    CountLast(lens[..s + 1], b);
    assert lens[..s + 1][..s] == lens[..s];
  }

  lemma CountLast(lens: lengths, b: nat)
    requires lens != [] && lens[|lens| - 1] == b
    ensures Count(lens, b) == Count(lens[..|lens| - 1], b) + 1
  {
  }

  lemma {:induction false} StartAfterGap(lens: lengths, b: nat, l: nat)
    requires 1 <= b < l && forall i :: 0 <= i < |lens| ==> !(b < lens[i] < l)
    ensures CodeStart(lens, l) == Shl(CodeEnd(lens, b), l - b)
    decreases l
  {
    hide Count;
    if b + 1 < l {
      StartAfterGap(lens, b, l - 1);
      CountNone(lens, l - 1);
    } else {
      assert Shl(CodeEnd(lens, b), 1) == 2 * Shl(CodeEnd(lens, b), 0);
    }
  }

  /** The code of the next symbol in this order is one more, with zeros appended up to its length. */
  lemma CanonicalNext(lens: lengths, s: nat, t: nat)
    requires s < |lens| && t < |lens| && Precedes(lens, s, t)
    requires forall u :: 0 <= u < |lens| ==> !(Precedes(lens, s, u) && Precedes(lens, u, t))
    ensures CodeValue(lens, t) == Shl(CodeValue(lens, s) + 1, lens[t] - lens[s])
  {
    hide Count, CodeStart;
    if lens[s] == lens[t] {
      forall u | s < u < t
        ensures lens[u] != lens[s]
      {
        assert !(Precedes(lens, s, u) && Precedes(lens, u, t));
      }
      CountOne(lens, s, t, lens[s]);
      assert Shl(CodeValue(lens, s) + 1, 0) == CodeValue(lens, s) + 1;
    } else {
      forall u | 0 <= u < |lens|
        ensures !(lens[s] < lens[u] < lens[t]) && (s < u ==> lens[u] != lens[s]) && (u < t ==> lens[u] != lens[t])
      {
        assert !(Precedes(lens, s, u) && Precedes(lens, u, t));
      }
      CountOne(lens, s, |lens|, lens[s]);
      assert lens[..|lens|] == lens;
      CountNone(lens[..t], lens[t]);
      StartAfterGap(lens, lens[s], lens[t]);
    }
  }

  lemma {:induction false} StartZero(lens: lengths, b: nat)
    requires forall i :: 0 <= i < |lens| ==> !(0 < lens[i] < b)
    ensures CodeStart(lens, b) == 0
  {
    hide Count;
    if b > 1 {
      StartZero(lens, b - 1);
      CountNone(lens, b - 1);
    }
  }

  /** The first symbol's code is all zeros. */
  lemma CanonicalFirst(lens: lengths, t: nat)
    requires t < |lens| && lens[t] > 0 && forall u :: 0 <= u < |lens| ==> !Precedes(lens, u, t)
    ensures CodeValue(lens, t) == 0
  {
    hide Count, CodeStart;
    forall u | 0 <= u < |lens|
      ensures !(0 < lens[u] < lens[t]) && (u < t ==> lens[u] != lens[t])
    {
      assert !Precedes(lens, u, t);
    }
    StartZero(lens, lens[t]);
    CountNone(lens[..t], lens[t]);
  }
}
