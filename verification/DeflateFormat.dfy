/**
 The format of RFC 1951, independent of any decoder: which bit strings are written forms of
 a stream of literals and length/distance pairs, in any mix of stored, fixed and dynamic
 blocks. The decoder is proved to return the LZ77 expansion of whatever is written.
 */
module DeflateFormat {
  import opened Bits
  import opened Huffman
  import opened Deflate

  // ----- fields and codes -----

  /** The `n` bits at `pos` are the value `v`, least significant bit first. */
  predicate FieldAt(s: bits, pos: nat, n: nat, v: int) {
    pos + n <= |s| && Lsb(s[pos..pos + n]) == v
  }

  /** The code of `sym` stands at `pos`. */
  predicate CodeAt(lens: lengths, sym: nat, s: bits, pos: nat) {
    && sym < |lens| && lens[sym] > 0
    && pos + lens[sym] <= |s| && s[pos..pos + lens[sym]] == CodeBits(lens, sym)
  }

  function CodeLen(lens: lengths, sym: nat): (n: nat) {
    if sym < |lens| then lens[sym] else 0
  }

  // ----- tokens, section 3.2.5 -----

  /**
   A literal, or a pair `length`, `distance` written with length code 257 + `l` and
   distance code `d`.
   */
  datatype Token = Lit(b: byte) | Ref(length: nat, distance: nat, l: nat, d: nat) {
    /** The number of bits the token takes in the codes `ll` and `dist`. */
    function Size(ll: lengths, dist: lengths): (n: nat) {
      match this
      case Lit(b) => CodeLen(ll, b as nat)
      case Ref(_, _, l, d) =>
        CodeLen(ll, 257 + l) + (if l < NUM_LEN_CODES then LenExtra(l) else 0) + CodeLen(dist, d) + DistExtra(d)
    }

    /** The token is written at `pos`. */
    predicate Written(ll: lengths, dist: lengths, s: bits, pos: nat): (w: bool)
      ensures w ==> pos + Size(ll, dist) <= |s|
    {
      match this
      case Lit(b) => CodeAt(ll, b as nat, s, pos)
      case Ref(_, _, l, _) =>
        l < NUM_LEN_CODES && CodeAt(ll, 257 + l, s, pos) && MatchWritten(dist, s, pos + ll[257 + l])
    }

    /** The part of a pair after its length code. */
    predicate MatchWritten(dist: lengths, s: bits, pos: nat): (w: bool)
      requires Ref? && l < NUM_LEN_CODES
      ensures w ==> pos + LenExtra(l) + CodeLen(dist, d) + DistExtra(d) <= |s|
    {
      FieldAt(s, pos, LenExtra(l), length - LenBase(l)) && DistanceWritten(dist, s, pos + LenExtra(l))
    }

    predicate DistanceWritten(dist: lengths, s: bits, pos: nat): (w: bool)
      requires Ref?
      ensures w ==> pos + CodeLen(dist, d) + DistExtra(d) <= |s|
    {
      && d < NUM_DIST_CODES && CodeAt(dist, d, s, pos)
      && FieldAt(s, pos + dist[d], DistExtra(d), distance - DistBase(d))
    }

    /** A reference must not reach before the start of the output. */
    predicate Resolves(out: seq<byte>) {
      Ref? ==> 1 <= distance <= |out|
    }

    function Apply(out: seq<byte>): (r: seq<byte>)
      requires Resolves(out)
      ensures |out| <= |r|
    {
      match this
      case Lit(b) => out + [b]
      case Ref(_, _, _, _) => CopyMatch(out, distance, length)
    }
  }

  /** The tokens of a block; `End` is the end-of-block symbol. */
  datatype Tokens = End | Cons(head: Token, tail: Tokens) {
    function Size(ll: lengths, dist: lengths): (n: nat) {
      match this
      case End => CodeLen(ll, END_OF_BLOCK)
      case Cons(t, ts) => t.Size(ll, dist) + ts.Size(ll, dist)
    }

    /** The tokens are written one after another from `pos` on. */
    predicate Written(ll: lengths, dist: lengths, s: bits, pos: nat): (w: bool)
      ensures w ==> pos + Size(ll, dist) <= |s|
    {
      match this
      case End => CodeAt(ll, END_OF_BLOCK, s, pos)
      case Cons(t, ts) => t.Written(ll, dist, s, pos) && ts.Written(ll, dist, s, pos + t.Size(ll, dist))
    }

    predicate Resolves(out: seq<byte>) {
      match this
      case End => true
      case Cons(t, ts) => t.Resolves(out) && ts.Resolves(t.Apply(out))
    }

    /** The LZ77 expansion of the tokens, appended to `out`. */
    function Expand(out: seq<byte>): (r: seq<byte>)
      requires Resolves(out)
      ensures |out| <= |r|
    {
      match this
      case End => out
      case Cons(t, ts) => ts.Expand(t.Apply(out))
    }
  }

  lemma DistanceInverts(t: Token, dist: lengths, s: bits, pos: nat, end: nat)
    requires t.Ref? && Prefixable(dist) && t.DistanceWritten(dist, s, pos)
    requires end == pos + CodeLen(dist, t.d) + DistExtra(t.d)
    ensures ReadDistance(dist, s, pos, t.length) == MatchRef(t.length, t.distance, end)
  {
    DecodeInvertsCode(dist, t.d, s, pos);
    hide CodeBits, Prefixable, DecodeSym;
  }

  lemma MatchInverts(t: Token, dist: lengths, s: bits, pos: nat, end: nat)
    requires t.Ref? && t.l < NUM_LEN_CODES && Prefixable(dist) && t.MatchWritten(dist, s, pos)
    requires end == pos + LenExtra(t.l) + CodeLen(dist, t.d) + DistExtra(t.d)
    ensures ReadMatch(dist, s, pos, t.l) == MatchRef(t.length, t.distance, end)
  {
    hide Prefixable, Token.DistanceWritten, ReadDistance;
    DistanceInverts(t, dist, s, pos + LenExtra(t.l), end);
  }

  /** The decoder's step on a written token. */
  lemma TokenInverts(t: Token, ll: lengths, dist: lengths, s: bits, pos: nat, end: nat, out: seq<byte>, cap: nat)
    requires Prefixable(ll) && Prefixable(dist) && t.Written(ll, dist, s, pos) && end == pos + t.Size(ll, dist)
    requires t.Resolves(out) && |out| <= cap
    ensures var r := DecodeSym(ll, s, pos);
            r.Symbol? && r.value != END_OF_BLOCK &&
            ApplySym(dist, s, r.pos, r.value, out, cap) == Delivered(t.Apply(out), end, cap)
  {
    hide Prefixable, CodeBits, DecodeSym, ReadMatch, Token.MatchWritten;
    match t
    case Lit(b) =>
      DecodeInvertsCode(ll, b as nat, s, pos);
    case Ref(_, _, l, _) =>
      DecodeInvertsCode(ll, 257 + l, s, pos);
      MatchInverts(t, dist, s, pos + ll[257 + l], end);
  }

  /** One round of the symbol loop on a written token. */
  lemma TokenRound(t: Token, ll: lengths, dist: lengths, s: bits, pos: nat, p: nat, out: seq<byte>, cap: nat)
    requires Prefixable(ll) && Prefixable(dist) && t.Written(ll, dist, s, pos) && p == pos + t.Size(ll, dist)
    requires t.Resolves(out) && |out| <= cap
    ensures var mid := t.Apply(out);
            DecodeCodes(ll, dist, s, pos, out, cap) ==
            if |mid| <= cap then DecodeCodes(ll, dist, s, p, mid, cap) else Delivered(mid, p, cap)
  {
    hide Prefixable, DecodeSym, ApplySym, Token.Apply, Token.Written, Token.Size;
    TokenInverts(t, ll, dist, s, pos, p, out, cap);
  }

  /** Decoding a written block body gives the LZ77 expansion of its tokens. */
  lemma {:induction false} CodesInvert(ts: Tokens, ll: lengths, dist: lengths, s: bits, pos: nat, end: nat,
                                       out: seq<byte>, cap: nat)
    requires Prefixable(ll) && Prefixable(dist) && ts.Written(ll, dist, s, pos) && end == pos + ts.Size(ll, dist)
    requires ts.Resolves(out) && |out| <= cap
    ensures DecodeCodes(ll, dist, s, pos, out, cap) == Delivered(ts.Expand(out), end, cap)
  {
    hide Prefixable, CodeBits, DecodeSym, ApplySym, Token.Apply, Token.Written, Token.Size;
    match ts
    case End => DecodeInvertsCode(ll, END_OF_BLOCK, s, pos);
    case Cons(t, rest) =>
      var p := pos + t.Size(ll, dist);
      TokenRound(t, ll, dist, s, pos, p, out, cap);
      if |t.Apply(out)| <= cap {
        CodesInvert(rest, ll, dist, s, p, end, t.Apply(out), cap);
      }
  }

  // ----- stored blocks, section 3.2.4 -----

  /** LEN, NLEN and the data, from the byte boundary after `pos`. */
  predicate StoredWritten(data: seq<byte>, s: bits, pos: nat) {
    var a := ByteAlign(pos);
    && FieldAt(s, a, 16, |data|) && FieldAt(s, a + 16, 16, 0xFFFF - |data|)
    && a + 32 + 8 * |data| <= |s| && s[a + 32..a + 32 + 8 * |data|] == Unpack(data)
  }

  lemma SubSlice(s: bits, pos: nat, len: nat, i: nat, j: nat)
    requires i <= j <= len && pos + len <= |s|
    ensures s[pos..pos + len][i..j] == s[pos + i..pos + j]
  {
    var whole := s[pos..pos + len];
    assert forall k :: 0 <= k < j - i ==> whole[i..j][k] == whole[i + k] == s[pos + i + k];
  }

  lemma {:induction false} BytesInvert(data: seq<byte>, s: bits, pos: nat, n: nat)
    requires pos + 8 * |data| <= |s| && s[pos..pos + 8 * |data|] == Unpack(data) && n <= |data|
    ensures BytesAt(s, pos, n) == data[..n]
    decreases n
  {
    if n > 0 {
      BytesInvert(data, s, pos, n - 1);
      UnpackAt(data, n - 1);
      LsbOfByteBits(data[n - 1]);
      hide Lsb, ByteBits;
      SubSlice(s, pos, 8 * |data|, 8 * (n - 1), 8 * n);
    }
  }

  lemma StoredInverts(data: seq<byte>, s: bits, pos: nat, end: nat, out: seq<byte>, cap: nat)
    requires StoredWritten(data, s, pos) && end == ByteAlign(pos) + 32 + 8 * |data| && |out| <= cap
    ensures DecodeStored(s, pos, out, cap) == Delivered(out + data, end, cap)
  {
    hide ByteAlign, Lsb, Unpack, BytesAt;
    BytesInvert(data, s, ByteAlign(pos) + 32, |data|);
    assert data[..|data|] == data;
  }

  // ----- the fixed codes, section 3.2.6 -----

  lemma {:induction false} KraftAppend(a: lengths, b: lengths)
    requires Legal(a) && Legal(b)
    ensures Legal(a + b) && KraftSum(a + b) == KraftSum(a) + KraftSum(b)
  {
    if b == [] {
      assert a + b == a;
    } else {
      KraftAppend(a, b[..|b| - 1]);
      assert (a + b)[..|a + b| - 1] == a + b[..|b| - 1];
    }
  }

  lemma {:induction false} KraftRepeat(v: nat, n: nat)
    requires v <= MAX_BITS
    ensures Legal(Repeat(v, n)) && KraftSum(Repeat(v, n)) == if v == 0 then 0 else n * Pow2(MAX_BITS - v)
  {
    if n > 0 {
      KraftRepeat(v, n - 1);
      assert Repeat(v, n)[..n - 1] == Repeat(v, n - 1);
      if v > 0 { SuccTimes(n, Pow2(MAX_BITS - v)); }
    }
  }

  lemma SuccTimes(n: nat, p: nat)
    requires n > 0
    ensures n * p == (n - 1) * p + p
  {}

  lemma Powers()
    ensures Pow2(6) == 64 && Pow2(7) == 128 && Pow2(8) == 256 && Pow2(10) == 1024 && Pow2(15) == 32768
  {
    Pow2Eight();
    Pow2Fifteen();
    assert Pow2(9) == 512;
  }

  /** The fixed literal/length code uses up the code space exactly. */
  lemma FixedLitPrefixable()
    ensures Prefixable(FixedLitLengths()) && KraftSum(FixedLitLengths()) == Pow2(MAX_BITS)
  {
    hide KraftSum, Repeat, Shl;
    KraftRepeat(8, 144);
    KraftRepeat(9, 112);
    KraftRepeat(7, 24);
    KraftRepeat(8, 8);
    KraftAppend(Repeat(8, 144), Repeat(9, 112));
    KraftAppend(Repeat(8, 144) + Repeat(9, 112), Repeat(7, 24));
    KraftAppend(Repeat(8, 144) + Repeat(9, 112) + Repeat(7, 24), Repeat(8, 8));
    Powers();
  }

  lemma FixedDistPrefixable()
    ensures Prefixable(FixedDistLengths())
  {
    hide KraftSum, Repeat, Shl;
    KraftRepeat(5, 30);
    KraftRepeat(0, 2);
    KraftAppend(Repeat(5, 30), Repeat(0, 2));
    Powers();
  }

  // ----- code lengths of a dynamic block, section 3.2.7 -----

  /** A code length; a repeat of the previous one; a short or a long run of zeros. */
  datatype LenItem = Length(n: nat) | Same(x: nat) | Zeros(x: nat) | ManyZeros(x: nat) {
    function Sym(): (r: nat) {
      match this
      case Length(n) => n
      case Same(_) => 16
      case Zeros(_) => 17
      case ManyZeros(_) => 18
    }

    function ExtraBits(): (n: nat) {
      match this
      case Length(_) => 0
      case Same(_) => 2
      case Zeros(_) => 3
      case ManyZeros(_) => 7
    }

    function Extra(): (v: nat) {
      if Length? then 0 else x
    }

    function Size(clen: lengths): (n: nat) {
      CodeLen(clen, Sym()) + ExtraBits()
    }

    predicate Written(clen: lengths, s: bits, pos: nat): (w: bool)
      ensures w ==> pos + Size(clen) <= |s|
    {
      && (Length? ==> n < 16)
      && CodeAt(clen, Sym(), s, pos) && FieldAt(s, pos + clen[Sym()], ExtraBits(), Extra())
    }

    predicate Applies(lens: lengths) {
      (Same? ==> lens != []) && (Length? ==> n < 16)
    }

    function Apply(lens: lengths): (r: lengths)
      requires Applies(lens)
      ensures |lens| < |r|
      ensures Legal(lens) ==> Legal(r)
    {
      match this
      case Length(n) => lens + [n]
      case Same(x) => lens + Repeat(lens[|lens| - 1], x + 3)
      case Zeros(x) => lens + Repeat(0, x + 3)
      case ManyZeros(x) => lens + Repeat(0, x + 11)
    }
  }

  datatype LenItems = Done | More(head: LenItem, tail: LenItems) {
    function Size(clen: lengths): (n: nat) {
      match this
      case Done => 0
      case More(i, rest) => i.Size(clen) + rest.Size(clen)
    }

    predicate Written(clen: lengths, s: bits, pos: nat): (w: bool)
      ensures w ==> pos + Size(clen) <= |s|
    {
      match this
      case Done => pos <= |s|
      case More(i, rest) => i.Written(clen, s, pos) && rest.Written(clen, s, pos + i.Size(clen))
    }

    predicate Applies(lens: lengths) {
      match this
      case Done => true
      case More(i, rest) => i.Applies(lens) && rest.Applies(i.Apply(lens))
    }

    /** The items make up `total` lengths; only the last may run over. */
    predicate Fills(lens: lengths, total: nat) {
      match this
      case Done => |lens| >= total
      case More(i, rest) => |lens| < total && i.Applies(lens) && rest.Fills(i.Apply(lens), total)
    }

    function Expand(lens: lengths): (r: lengths)
      requires Applies(lens)
      ensures |lens| <= |r|
      ensures Legal(lens) ==> Legal(r)
    {
      match this
      case Done => lens
      case More(i, rest) => rest.Expand(i.Apply(lens))
    }
  }

  lemma {:induction false} FillsEnough(items: LenItems, lens: lengths, total: nat)
    requires items.Fills(lens, total)
    ensures items.Applies(lens) && |items.Expand(lens)| >= total
    decreases items
  {
    match items
    case Done =>
    case More(i, rest) => FillsEnough(rest, i.Apply(lens), total);
  }

  function Cut(lens: lengths, total: nat): (r: lengths) { if |lens| <= total then lens else lens[..total] }

  lemma RepeatCut(v: nat, n: nat, lens: lengths, total: nat)
    requires |lens| <= total
    ensures lens + Repeat(v, Min(n, total - |lens|)) == Cut(lens + Repeat(v, n), total)
  {
    hide Repeat;
  }

  lemma ItemInverts(i: LenItem, clen: lengths, s: bits, pos: nat, p: nat, lens: lengths, total: nat)
    requires Prefixable(clen) && i.Written(clen, s, pos) && p == pos + i.Size(clen)
    requires i.Applies(lens) && Legal(lens) && |lens| < total
    ensures var r := DecodeSym(clen, s, pos);
            r.Symbol? && ApplyClen(s, r.pos, r.value, lens, total) == LengthsRead(Cut(i.Apply(lens), total), p)
  {
    hide Prefixable, CodeBits, DecodeSym, Lsb, Repeat, Min, Cut;
    DecodeInvertsCode(clen, i.Sym(), s, pos);
    match i
    case Length(n) => assert Cut(lens + [n], total) == lens + [n] by { CutShort(lens + [n], total); }
    case Same(x) => RepeatCut(lens[|lens| - 1], x + 3, lens, total);
    case Zeros(x) => RepeatCut(0, x + 3, lens, total);
    case ManyZeros(x) => RepeatCut(0, x + 11, lens, total);
  }

  lemma CutShort(lens: lengths, total: nat)
    requires |lens| <= total
    ensures Cut(lens, total) == lens
  {
  }

  lemma ItemRound(i: LenItem, clen: lengths, s: bits, pos: nat, p: nat, lens: lengths, total: nat)
    requires Prefixable(clen) && i.Written(clen, s, pos) && p == pos + i.Size(clen)
    requires i.Applies(lens) && Legal(lens) && |lens| < total
    ensures var r := Cut(i.Apply(lens), total);
            && |r| <= total && Legal(r)
            && ReadLengths(clen, s, pos, lens, total) == ReadLengths(clen, s, p, r, total)
  {
    hide Prefixable, DecodeSym, ApplyClen, LenItem.Apply, LenItem.Written, LenItem.Size;
    ItemInverts(i, clen, s, pos, p, lens, total);
  }

  /** Reading written items gives the code lengths they expand to, a last run cut where the lengths end. */
  lemma {:induction false} ItemsInvert(items: LenItems, clen: lengths, s: bits, pos: nat, end: nat, lens: lengths, total: nat)
    requires Prefixable(clen) && items.Written(clen, s, pos) && end == pos + items.Size(clen)
    requires items.Fills(lens, total) && Legal(lens) && |lens| <= total
    ensures items.Applies(lens) && |items.Expand(lens)| >= total
    ensures ReadLengths(clen, s, pos, lens, total) == LengthsRead(items.Expand(lens)[..total], end)
    decreases items
  {
    hide Prefixable, DecodeSym, ApplyClen, LenItem.Apply, LenItem.Written, LenItem.Size;
    FillsEnough(items, lens, total);
    match items
    case Done => assert lens[..total] == lens;
    case More(i, rest) =>
      var p := pos + i.Size(clen);
      ItemRound(i, clen, s, pos, p, lens, total);
      if |i.Apply(lens)| <= total {
        ItemsInvert(rest, clen, s, p, end, i.Apply(lens), total);
      } else {
        assert rest.Done?;
      }
  }

  // ----- the lengths of the code length code -----

  lemma ClenPlaceInjective(i: nat, j: nat)
    requires i < NUM_CLEN_CODES && j < NUM_CLEN_CODES && i != j
    ensures ClenPlace(i) != ClenPlace(j)
  {}

  function ClenIndex(p: nat): (i: nat)
    requires p < NUM_CLEN_CODES
    ensures i < NUM_CLEN_CODES && ClenPlace(i) == p
  {
    if p >= 16 then p - 16 else if p == 0 then 3 else if p >= 8 then 2 * p - 12 else 19 - 2 * p
  }

  /** The first `n` lengths in sending order are written from `pos` on; the rest are zero. */
  ghost predicate ClenWritten(clen: lengths, n: nat, s: bits, pos: nat) {
    && |clen| == NUM_CLEN_CODES && n <= NUM_CLEN_CODES
    && (forall i :: 0 <= i < n ==> FieldAt(s, pos + 3 * i, 3, clen[ClenPlace(i)]))
    && (forall i :: n <= i < NUM_CLEN_CODES ==> clen[ClenPlace(i)] == 0)
  }

  lemma {:induction false} ClenPartly(clen: lengths, n: nat, s: bits, pos: nat, m: nat)
    requires ClenWritten(clen, n, s, pos) && m <= n && pos + 3 * m <= |s|
    ensures forall i :: 0 <= i < m ==> ClenLengths(s, pos, m)[ClenPlace(i)] == clen[ClenPlace(i)]
    ensures forall i :: m <= i < NUM_CLEN_CODES ==> ClenLengths(s, pos, m)[ClenPlace(i)] == 0
  {
    hide ClenPlace, Lsb;
    if m > 0 {
      ClenPartly(clen, n, s, pos, m - 1);
      forall i | 0 <= i < NUM_CLEN_CODES && i != m - 1 ensures ClenPlace(i) != ClenPlace(m - 1) {
        ClenPlaceInjective(i, m - 1);
      }
      assert FieldAt(s, pos + 3 * (m - 1), 3, clen[ClenPlace(m - 1)]);
    }
  }

  lemma ClenInverts(clen: lengths, n: nat, s: bits, pos: nat)
    requires ClenWritten(clen, n, s, pos) && pos + 3 * n <= |s|
    ensures ClenLengths(s, pos, n) == clen
  {
    ClenPartly(clen, n, s, pos, n);
    hide ClenPlace, ClenLengths, ClenIndex;
    forall p | 0 <= p < NUM_CLEN_CODES ensures ClenLengths(s, pos, n)[p] == clen[p] {
      var i := ClenIndex(p);
      assert ClenPlace(i) == p;
    }
  }

  // ----- blocks, section 3.2.3 -----

  /** The counts, code length code and code lengths at the head of a dynamic block. */
  datatype DynHead = DynHead(hlit: nat, hdist: nat, hclen: nat, clen: lengths, items: LenItems) {
    ghost predicate WellFormed() {
      && 257 <= hlit <= 288 && 1 <= hdist <= 32 && 4 <= hclen <= 19
      && Prefixable(clen)
      && items.Fills([], hlit + hdist) && items.Applies([]) && |items.Expand([])| >= hlit + hdist
      && Prefixable(LitLengths()) && Prefixable(DistLengths())
    }

    function LitLengths(): (r: lengths)
      requires items.Applies([]) && |items.Expand([])| >= hlit + hdist
    {
      items.Expand([])[..hlit]
    }

    function DistLengths(): (r: lengths)
      requires items.Applies([]) && |items.Expand([])| >= hlit + hdist
    {
      items.Expand([])[hlit..hlit + hdist]
    }

    function Size(): (n: nat) {
      14 + 3 * hclen + items.Size(clen)
    }

    ghost predicate Written(s: bits, pos: nat): (w: bool)
      ensures w ==> pos + Size() <= |s|
    {
      && pos + Size() <= |s|
      && FieldAt(s, pos, 5, hlit - 257) && FieldAt(s, pos + 5, 5, hdist - 1) && FieldAt(s, pos + 10, 4, hclen - 4)
      && ClenWritten(clen, hclen, s, pos + 14)
      && items.Written(clen, s, pos + 14 + 3 * hclen)
    }
  }

  datatype Block = Stored(data: seq<byte>) | Fixed(ts: Tokens) | Dynamic(h: DynHead, dts: Tokens) {
    function Type(): (t: nat) {
      match this
      case Stored(_) => 0
      case Fixed(_) => 1
      case Dynamic(_, _) => 2
    }

    ghost predicate WellFormed() {
      Dynamic? ==> h.WellFormed()
    }

    /** Where the block ends when its contents start at `pos`. */
    ghost function End(pos: nat): (end: nat)
      requires WellFormed()
    {
      match this
      case Stored(data) => ByteAlign(pos) + 32 + 8 * |data|
      case Fixed(ts) => pos + ts.Size(FixedLitLengths(), FixedDistLengths())
      case Dynamic(h, ts) => pos + h.Size() + ts.Size(h.LitLengths(), h.DistLengths())
    }

    ghost predicate Written(s: bits, pos: nat)
      requires WellFormed()
    {
      match this
      case Stored(data) => StoredWritten(data, s, pos)
      case Fixed(ts) => ts.Written(FixedLitLengths(), FixedDistLengths(), s, pos)
      case Dynamic(h, ts) => h.Written(s, pos) && ts.Written(h.LitLengths(), h.DistLengths(), s, pos + h.Size())
    }

    predicate Resolves(out: seq<byte>) {
      match this
      case Stored(_) => true
      case Fixed(ts) => ts.Resolves(out)
      case Dynamic(_, ts) => ts.Resolves(out)
    }

    /** The block's data after the output `out` of the blocks before it. */
    function Expand(out: seq<byte>): (r: seq<byte>)
      requires Resolves(out)
      ensures |out| <= |r|
    {
      match this
      case Stored(data) => out + data
      case Fixed(ts) => ts.Expand(out)
      case Dynamic(_, ts) => ts.Expand(out)
    }
  }

  lemma HeaderInverts(h: DynHead, s: bits, pos: nat)
    requires h.WellFormed() && h.Written(s, pos)
    ensures pos <= |s| && ReadHeader(s, pos) == Header(h.hlit, h.hdist, h.hclen)
  {
    hide Prefixable, ClenWritten, LenItems.Expand, LenItems.Written, LenItems.Size, Lsb;
  }

  lemma DynamicTailInverts(h: DynHead, ts: Tokens, s: bits, pos: nat, p: nat, end: nat, out: seq<byte>, cap: nat)
    requires h.WellFormed() && h.items.Written(h.clen, s, pos) && p == pos + h.items.Size(h.clen)
    requires ts.Written(h.LitLengths(), h.DistLengths(), s, p) && end == p + ts.Size(h.LitLengths(), h.DistLengths())
    requires ts.Resolves(out) && |out| <= cap
    ensures DynamicTail(h.clen, h.hlit, h.hdist, s, pos, out, cap) == Delivered(ts.Expand(out), end, cap)
  {
    hide Prefixable, LenItems.Expand, LenItems.Written, LenItems.Size, LenItems.Fills, LenItems.Applies, ReadLengths, DecodeCodes;
    hide Tokens.Written, Tokens.Size, Tokens.Expand, Tokens.Resolves;
    ItemsInvert(h.items, h.clen, s, pos, p, [], h.hlit + h.hdist);
    var lens := h.items.Expand([])[..h.hlit + h.hdist];
    assert lens[..h.hlit] == h.LitLengths() && lens[h.hlit..] == h.DistLengths();
    CodesInvert(ts, h.LitLengths(), h.DistLengths(), s, p, end, out, cap);
  }

  lemma DynamicInverts(h: DynHead, ts: Tokens, s: bits, pos: nat, end: nat, out: seq<byte>, cap: nat)
    requires h.WellFormed() && h.Written(s, pos)
    requires ts.Written(h.LitLengths(), h.DistLengths(), s, pos + h.Size())
    requires end == pos + h.Size() + ts.Size(h.LitLengths(), h.DistLengths())
    requires ts.Resolves(out) && |out| <= cap
    ensures pos <= |s| && DecodeDynamic(s, pos, out, cap) == Delivered(ts.Expand(out), end, cap)
  {
    hide Prefixable, ClenWritten, ClenLengths, ReadHeader, DynamicTail, FieldAt;
    hide LenItems.Expand, LenItems.Written, LenItems.Size, LenItems.Applies;
    hide Tokens.Written, Tokens.Size, Tokens.Expand, Tokens.Resolves;
    HeaderInverts(h, s, pos);
    ClenInverts(h.clen, h.hclen, s, pos + 14);
    DynamicTailInverts(h, ts, s, pos + 14 + 3 * h.hclen, pos + h.Size(), end, out, cap);
  }

  lemma BlockInverts(b: Block, s: bits, pos: nat, end: nat, out: seq<byte>, cap: nat)
    requires b.WellFormed() && b.Written(s, pos) && end == b.End(pos)
    requires b.Resolves(out) && |out| <= cap
    ensures pos <= |s| && DecodeBlock(b.Type(), s, pos, out, cap) == Delivered(b.Expand(out), end, cap)
  {
    hide Prefixable, DecodeStored, DecodeDynamic, DecodeCodes, StoredWritten, FixedLitLengths, FixedDistLengths;
    hide Tokens.Written, Tokens.Size, Tokens.Expand, Tokens.Resolves, DynHead.Written, DynHead.WellFormed, DynHead.Size;
    match b
    case Stored(data) =>
      StoredBounds(data, s, pos);
      StoredInverts(data, s, pos, end, out, cap);
    case Fixed(ts) =>
      FixedLitPrefixable();
      FixedDistPrefixable();
      CodesInvert(ts, FixedLitLengths(), FixedDistLengths(), s, pos, end, out, cap);
    case Dynamic(h, ts) =>
      DynamicInverts(h, ts, s, pos, end, out, cap);
  }

  lemma StoredBounds(data: seq<byte>, s: bits, pos: nat)
    requires StoredWritten(data, s, pos)
    ensures pos <= |s|
  {}

  // ----- streams -----

  /** The blocks of a stream; only the last one has its final bit set. */
  datatype Stream = Last(b: Block) | Then(b: Block, rest: Stream) {
    ghost predicate WellFormed() {
      b.WellFormed() && (Then? ==> rest.WellFormed())
    }

    ghost function End(pos: nat): (end: nat)
      requires WellFormed()
    {
      match this
      case Last(b) => b.End(pos + 3)
      case Then(b, rest) => rest.End(b.End(pos + 3))
    }

    /** The blocks are written from `pos` on: final bit, two type bits and contents of each. */
    ghost predicate Written(s: bits, pos: nat)
      requires WellFormed()
    {
      && pos + 3 <= |s| && s[pos] == Last? && FieldAt(s, pos + 1, 2, b.Type()) && b.Written(s, pos + 3)
      && (Then? ==> rest.Written(s, b.End(pos + 3)))
    }

    predicate Resolves(out: seq<byte>) {
      b.Resolves(out) && (Then? ==> rest.Resolves(b.Expand(out)))
    }

    /** The data of the whole stream. */
    function Expand(out: seq<byte>): (r: seq<byte>)
      requires Resolves(out)
      ensures |out| <= |r|
    {
      match this
      case Last(b) => b.Expand(out)
      case Then(b, rest) => rest.Expand(b.Expand(out))
    }
  }

  lemma StreamRound(b: Block, last: bool, s: bits, pos: nat, p: nat, out: seq<byte>, cap: nat)
    requires b.WellFormed() && pos + 3 <= |s| && s[pos] == last && FieldAt(s, pos + 1, 2, b.Type())
    requires b.Written(s, pos + 3) && p == b.End(pos + 3) && b.Resolves(out) && |out| <= cap
    ensures var mid := b.Expand(out);
            Inflate(s, pos, out, cap) ==
            if |mid| <= cap && !last then Inflate(s, p, mid, cap) else Delivered(mid, p, cap)
  {
    hide Block.Written, Block.WellFormed, Block.End, Block.Expand, Block.Resolves, Block.Type, DecodeBlock;
    BlockInverts(b, s, pos + 3, p, out, cap);
  }

  /**
   Inflating any written stream gives exactly its LZ77 expansion and stops at the end of its
   last block, whatever bits follow; if the expansion exceeds the capacity it fails.
   */
  lemma {:induction false} InflateInverts(st: Stream, s: bits, pos: nat, end: nat, out: seq<byte>, cap: nat)
    requires st.WellFormed() && st.Written(s, pos) && end == st.End(pos)
    requires st.Resolves(out) && |out| <= cap
    ensures pos <= |s| && Inflate(s, pos, out, cap) == Delivered(st.Expand(out), end, cap)
    decreases st
  {
    hide Block.Written, Block.WellFormed, Block.End, Block.Expand, Block.Resolves, Block.Type, DecodeBlock, FieldAt;
    match st
    case Last(b) =>
      StreamRound(b, true, s, pos, end, out, cap);
    case Then(b, rest) =>
      var p := b.End(pos + 3);
      StreamRound(b, false, s, pos, p, out, cap);
      if |b.Expand(out)| <= cap {
        InflateInverts(rest, s, p, end, b.Expand(out), cap);
      }
  }
}
