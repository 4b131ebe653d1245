/**
 An encoder for the format: the bits of every stream whose symbols all have codes. They are
 a written form of the stream, so decoding what the encoder produces gives back its data.
 */
module DeflateEncoder {
  import opened Bits
  import opened Huffman
  import opened Deflate
  import opened DeflateFormat
  import opened Slices

  predicate HasCode(lens: lengths, sym: nat) {
    sym < |lens| && lens[sym] > 0
  }

  lemma FieldStands(s: bits, pos: nat, v: nat, n: nat)
    requires v < Pow2(n) && Standing(s, pos, ToLsb(v, n))
    ensures FieldAt(s, pos, n, v)
  {
    LsbRoundTrip(v, n);
  }

  // ----- tokens -----

  predicate TokenEncodable(t: Token, ll: lengths, dist: lengths) {
    match t
    case Lit(b) => HasCode(ll, b as nat)
    case Ref(length, distance, l, d) =>
      && l < NUM_LEN_CODES && 0 <= length - LenBase(l) < Pow2(LenExtra(l)) && HasCode(ll, 257 + l)
      && d < NUM_DIST_CODES && 0 <= distance - DistBase(d) < Pow2(DistExtra(d)) && HasCode(dist, d)
  }

  function TokenBits(t: Token, ll: lengths, dist: lengths): (e: bits)
    requires TokenEncodable(t, ll, dist)
    ensures |e| == t.Size(ll, dist)
  {
    match t
    case Lit(b) => CodeBits(ll, b as nat)
    case Ref(length, distance, l, d) =>
      CodeBits(ll, 257 + l) +
      (ToLsb(length - LenBase(l), LenExtra(l)) + DistanceBits(t, dist))
  }

  lemma TokenStands(t: Token, ll: lengths, dist: lengths, s: bits, pos: nat)
    requires TokenEncodable(t, ll, dist) && Standing(s, pos, TokenBits(t, ll, dist))
    ensures t.Written(ll, dist, s, pos)
  {
    hide CodeBits, Lsb, ToLsb, LenBase, DistBase, LenExtra, DistExtra, Shl;
    if t.Ref? {
      RefStands(t, ll, dist, s, pos);
    }
  }

  lemma RefStands(t: Token, ll: lengths, dist: lengths, s: bits, pos: nat)
    requires t.Ref? && TokenEncodable(t, ll, dist) && Standing(s, pos, TokenBits(t, ll, dist))
    ensures t.Written(ll, dist, s, pos)
  {
    hide CodeBits, Lsb, ToLsb, LenBase, DistBase, LenExtra, DistExtra, Shl, FieldAt, Token.DistanceWritten, Standing;
    hide DistanceBits, CodeAt, Token.Size;
    var a, x := CodeBits(ll, 257 + t.l), ToLsb(t.length - LenBase(t.l), LenExtra(t.l));
    var rest := DistanceBits(t, dist);
    StandingSplit(s, pos, a, x + rest);
    StandingSplit(s, pos + |a|, x, rest);
    CodeStands(ll, 257 + t.l, s, pos);
    FieldStands(s, pos + |a|, t.length - LenBase(t.l), LenExtra(t.l));
    DistanceStands(t, ll, dist, s, pos + |a| + |x|);
  }

  lemma CodeStands(lens: lengths, sym: nat, s: bits, pos: nat)
    requires HasCode(lens, sym) && Standing(s, pos, CodeBits(lens, sym))
    ensures CodeAt(lens, sym, s, pos)
  {
    hide CodeBits;
  }

  function DistanceBits(t: Token, dist: lengths): (e: bits)
    requires t.Ref? && t.d < NUM_DIST_CODES && 0 <= t.distance - DistBase(t.d) && HasCode(dist, t.d)
    ensures |e| == CodeLen(dist, t.d) + DistExtra(t.d)
  {
    CodeBits(dist, t.d) + ToLsb(t.distance - DistBase(t.d), DistExtra(t.d))
  }

  lemma DistanceStands(t: Token, ll: lengths, dist: lengths, s: bits, pos: nat)
    requires t.Ref? && TokenEncodable(t, ll, dist) && Standing(s, pos, DistanceBits(t, dist))
    ensures t.DistanceWritten(dist, s, pos)
  {
    hide CodeBits, Lsb, ToLsb, DistBase, DistExtra, Shl, FieldAt, Standing;
    var c, y := CodeBits(dist, t.d), ToLsb(t.distance - DistBase(t.d), DistExtra(t.d));
    StandingSplit(s, pos, c, y);
    FieldStands(s, pos + |c|, t.distance - DistBase(t.d), DistExtra(t.d));
  }

  predicate TokensEncodable(ts: Tokens, ll: lengths, dist: lengths) {
    match ts
    case End => HasCode(ll, END_OF_BLOCK)
    case Cons(t, rest) => TokenEncodable(t, ll, dist) && TokensEncodable(rest, ll, dist)
  }

  function TokensBits(ts: Tokens, ll: lengths, dist: lengths): (e: bits)
    requires TokensEncodable(ts, ll, dist)
    ensures |e| == ts.Size(ll, dist)
  {
    match ts
    case End => CodeBits(ll, END_OF_BLOCK)
    case Cons(t, rest) => TokenBits(t, ll, dist) + TokensBits(rest, ll, dist)
  }

  lemma {:induction false} TokensStand(ts: Tokens, ll: lengths, dist: lengths, s: bits, pos: nat)
    requires TokensEncodable(ts, ll, dist) && Standing(s, pos, TokensBits(ts, ll, dist))
    ensures ts.Written(ll, dist, s, pos)
  {
    hide CodeBits, TokenBits, TokenEncodable, Token.Written, Token.Size;
    match ts
    case End =>
    case Cons(t, rest) =>
      StandingSplit(s, pos, TokenBits(t, ll, dist), TokensBits(rest, ll, dist));
      TokenStands(t, ll, dist, s, pos);
      TokensStand(rest, ll, dist, s, pos + t.Size(ll, dist));
  }

  // ----- which pairs can be written -----

  lemma LastLength()
    ensures LenBase(27) + Pow2(LenExtra(27)) == 259
  {
    assert LenExtra(27) == 5 && Pow2(5) == 32;
    assert LenBase(7) == 10;
    assert LenBase(11) == 17;
    assert LenBase(15) == 31;
    assert LenBase(19) == 59;
    assert LenBase(23) == 115;
    assert LenBase(27) == 227;
  }

  lemma {:induction false} LengthCode(length: nat, l: nat) returns (r: nat)
    requires l <= 27 && LenBase(l) <= length <= 258
    ensures r < NUM_LEN_CODES && 0 <= length - LenBase(r) < Pow2(LenExtra(r))
    decreases 27 - l
  {
    r := l;
    if length >= LenBase(l) + Pow2(LenExtra(l)) {
      if l == 27 {
        LastLength();
      } else {
        r := LengthCode(length, l + 1);
      }
    }
  }

  lemma {:induction false} LengthsEnd(l: nat, last: nat)
    requires l <= last < 28
    ensures 3 <= LenBase(l) && LenBase(l) + Pow2(LenExtra(l)) <= LenBase(last) + Pow2(LenExtra(last))
    decreases last
  {
    if l < last {
      LengthsEnd(l, last - 1);
    } else if l > 0 {
      LengthsEnd(l - 1, last - 1);
    }
  }

  lemma LastDistance()
    ensures DistBase(30) == 32769
  {
    assert DistBase(8) == 17;
    assert DistBase(12) == 65;
    assert DistBase(16) == 257;
    assert DistBase(20) == 1025;
    assert DistBase(24) == 4097;
    assert DistBase(28) == 16385;
    assert DistExtra(28) == 13 && DistExtra(29) == 13 && Pow2(13) == 8192;
  }

  lemma {:induction false} DistanceCode(distance: nat, d: nat) returns (r: nat)
    requires d <= 29 && DistBase(d) <= distance <= 32768
    ensures r < NUM_DIST_CODES && 0 <= distance - DistBase(r) < Pow2(DistExtra(r))
    decreases 29 - d
  {
    r := d;
    if distance >= DistBase(d) + Pow2(DistExtra(d)) {
      if d == 29 {
        LastDistance();
      } else {
        r := DistanceCode(distance, d + 1);
      }
    }
  }

  lemma {:induction false} DistancesGrow(d: nat, last: nat)
    requires d <= last
    ensures DistBase(d) <= DistBase(last)
  {
    if d < last {
      DistancesGrow(d, last - 1);
    }
  }

  predicate AllPairCodes(ll: lengths, dist: lengths) {
    && (forall s :: 257 <= s < 257 + NUM_LEN_CODES ==> HasCode(ll, s))
    && (forall d :: 0 <= d < NUM_DIST_CODES ==> HasCode(dist, d))
  }

  /** With codes for all symbols, exactly the pairs of lengths 3 to 258 and distances 1 to 32768 can be written. */
  lemma PairsEncodableIff(length: nat, distance: nat, ll: lengths, dist: lengths)
    requires AllPairCodes(ll, dist)
    ensures (exists l: nat, d: nat :: TokenEncodable(Ref(length, distance, l, d), ll, dist))
       <==> 3 <= length <= 258 && 1 <= distance <= 32768
  {
    hide HasCode, LenExtra, DistExtra;
    if 3 <= length <= 258 && 1 <= distance <= 32768 {
      assert LenBase(0) == 3 && DistBase(0) == 1;
      var l := LengthCode(length, 0);
      var d := DistanceCode(distance, 0);
      hide LenBase, DistBase;
      assert TokenEncodable(Ref(length, distance, l, d), ll, dist);
    }
    forall l: nat, d: nat | TokenEncodable(Ref(length, distance, l, d), ll, dist)
      ensures 3 <= length <= 258 && 1 <= distance <= 32768
    {
      LengthAtMost258(length, l);
      LastDistance();
      DistancesGrow(d + 1, 30);
      assert DistBase(d + 1) == DistBase(d) + Pow2(DistExtra(d));
    }
  }

  /** The fixed codes have them, and one for every byte and the end of the block. */
  lemma FixedCodesAll()
    ensures AllPairCodes(FixedLitLengths(), FixedDistLengths())
    ensures forall s :: 0 <= s <= END_OF_BLOCK ==> HasCode(FixedLitLengths(), s)
  {
    hide Repeat;
  }

  lemma LengthAtMost258(length: nat, l: nat)
    requires l < NUM_LEN_CODES && 0 <= length - LenBase(l) < Pow2(LenExtra(l))
    ensures 3 <= length <= 258
  {
    if l == 28 {
      assert LenBase(28) == 258 && LenExtra(28) == 0;
    } else {
      LengthsEnd(l, 27);
      LastLength();
    }
  }

  // ----- stored blocks -----

  function StoredBits(data: seq<byte>, pos: nat): (e: bits)
    requires |data| < 0x1_0000
    ensures |e| == ByteAlign(pos) - pos + 32 + 8 * |data|
  {
    ToLsb(0, ByteAlign(pos) - pos) + (ToLsb(|data|, 16) + (ToLsb(0xFFFF - |data|, 16) + Unpack(data)))
  }

  lemma StoredStands(data: seq<byte>, s: bits, pos: nat)
    requires |data| < 0x1_0000 && Standing(s, pos, StoredBits(data, pos))
    ensures StoredWritten(data, s, pos)
  {
    hide ByteAlign, Lsb, ToLsb, Unpack, Shl;
    var a, n := ByteAlign(pos), |data|;
    var rest := ToLsb(n, 16) + (ToLsb(0xFFFF - n, 16) + Unpack(data));
    StandingSplit(s, pos, ToLsb(0, a - pos), rest);
    StandingSplit(s, a, ToLsb(n, 16), ToLsb(0xFFFF - n, 16) + Unpack(data));
    StandingSplit(s, a + 16, ToLsb(0xFFFF - n, 16), Unpack(data));
    Pow2Sixteen();
    FieldStands(s, a, n, 16);
    FieldStands(s, a + 16, 0xFFFF - n, 16);
  }

  // ----- the head of a dynamic block -----

  predicate ItemEncodable(i: LenItem, clen: lengths) {
    HasCode(clen, i.Sym()) && i.Extra() < Pow2(i.ExtraBits()) && (i.Length? ==> i.n < 16)
  }

  predicate ItemsEncodable(items: LenItems, clen: lengths) {
    match items
    case Done => true
    case More(i, rest) => ItemEncodable(i, clen) && ItemsEncodable(rest, clen)
  }

  function ItemBits(i: LenItem, clen: lengths): (e: bits)
    requires ItemEncodable(i, clen)
    ensures |e| == i.Size(clen)
  {
    CodeBits(clen, i.Sym()) + ToLsb(i.Extra(), i.ExtraBits())
  }

  function ItemsBits(items: LenItems, clen: lengths): (e: bits)
    requires ItemsEncodable(items, clen)
    ensures |e| == items.Size(clen)
  {
    match items
    case Done => []
    case More(i, rest) => ItemBits(i, clen) + ItemsBits(rest, clen)
  }

  lemma ItemStands(i: LenItem, clen: lengths, s: bits, pos: nat)
    requires ItemEncodable(i, clen) && Standing(s, pos, ItemBits(i, clen))
    ensures i.Written(clen, s, pos)
  {
    hide CodeBits, Lsb, ToLsb, Shl;
    StandingSplit(s, pos, CodeBits(clen, i.Sym()), ToLsb(i.Extra(), i.ExtraBits()));
    FieldStands(s, pos + clen[i.Sym()], i.Extra(), i.ExtraBits());
  }

  lemma {:induction false} ItemsStand(items: LenItems, clen: lengths, s: bits, pos: nat)
    requires ItemsEncodable(items, clen) && Standing(s, pos, ItemsBits(items, clen))
    ensures items.Written(clen, s, pos)
  {
    hide ItemBits, ItemEncodable, LenItem.Written, LenItem.Size;
    match items
    case Done =>
    case More(i, rest) =>
      StandingSplit(s, pos, ItemBits(i, clen), ItemsBits(rest, clen));
      ItemStands(i, clen, s, pos);
      ItemsStand(rest, clen, s, pos + i.Size(clen));
  }

  /** Lengths up to 7 in the first `n` places of the sending order, zero in the others. */
  predicate ClenEncodable(clen: lengths, n: nat) {
    && |clen| == NUM_CLEN_CODES && n <= NUM_CLEN_CODES
    && (forall i :: 0 <= i < n ==> clen[ClenPlace(i)] < 8)
    && (forall i :: n <= i < NUM_CLEN_CODES ==> clen[ClenPlace(i)] == 0)
  }

  function ClenBits(clen: lengths, n: nat): (e: bits)
    requires |clen| == NUM_CLEN_CODES && n <= NUM_CLEN_CODES
    ensures |e| == 3 * n
  {
    if n == 0 then [] else ClenBits(clen, n - 1) + ToLsb(clen[ClenPlace(n - 1)], 3)
  }

  lemma {:induction false} ClenStands(clen: lengths, n: nat, s: bits, pos: nat, m: nat)
    requires ClenEncodable(clen, n) && m <= n && Standing(s, pos, ClenBits(clen, m))
    ensures forall i :: 0 <= i < m ==> FieldAt(s, pos + 3 * i, 3, clen[ClenPlace(i)])
  {
    hide ClenPlace, Lsb, ToLsb;
    if m > 0 {
      StandingSplit(s, pos, ClenBits(clen, m - 1), ToLsb(clen[ClenPlace(m - 1)], 3));
      ClenStands(clen, n, s, pos, m - 1);
      assert Pow2(3) == 8;
      FieldStands(s, pos + 3 * (m - 1), clen[ClenPlace(m - 1)], 3);
    }
  }

  predicate HeadEncodable(h: DynHead) {
    && 257 <= h.hlit <= 288 && 1 <= h.hdist <= 32 && 4 <= h.hclen <= 19
    && ClenEncodable(h.clen, h.hclen) && ItemsEncodable(h.items, h.clen)
  }

  function CountBits(h: DynHead): (e: bits)
    requires HeadEncodable(h)
    ensures |e| == 14
  {
    ToLsb(h.hlit - 257, 5) + (ToLsb(h.hdist - 1, 5) + ToLsb(h.hclen - 4, 4))
  }

  function HeadBits(h: DynHead): (e: bits)
    requires HeadEncodable(h)
    ensures |e| == h.Size()
  {
    CountBits(h) + (ClenBits(h.clen, h.hclen) + ItemsBits(h.items, h.clen))
  }

  lemma CountsStand(h: DynHead, s: bits, pos: nat)
    requires HeadEncodable(h) && Standing(s, pos, CountBits(h))
    ensures FieldAt(s, pos, 5, h.hlit - 257) && FieldAt(s, pos + 5, 5, h.hdist - 1) && FieldAt(s, pos + 10, 4, h.hclen - 4)
  {
    assert Pow2(5) == 32 && Pow2(4) == 16;
    hide Lsb, ToLsb, Shl, ItemsEncodable, ClenEncodable, FieldAt;
    var l, d, c := ToLsb(h.hlit - 257, 5), ToLsb(h.hdist - 1, 5), ToLsb(h.hclen - 4, 4);
    StandingSplit(s, pos, l, d + c);
    StandingSplit(s, pos + 5, d, c);
    FieldStands(s, pos, h.hlit - 257, 5);
    FieldStands(s, pos + 5, h.hdist - 1, 5);
    FieldStands(s, pos + 10, h.hclen - 4, 4);
  }

  lemma HeadStands(h: DynHead, s: bits, pos: nat)
    requires HeadEncodable(h) && Standing(s, pos, HeadBits(h))
    ensures h.Written(s, pos)
  {
    hide CountBits, ClenBits, ItemsBits, ItemsEncodable, ClenPlace, LenItems.Written, LenItems.Size, FieldAt;
    var cl, it := ClenBits(h.clen, h.hclen), ItemsBits(h.items, h.clen);
    StandingSplit(s, pos, CountBits(h), cl + it);
    StandingSplit(s, pos + 14, cl, it);
    CountsStand(h, s, pos);
    ClenStands(h.clen, h.hclen, s, pos + 14, h.hclen);
    ItemsStand(h.items, h.clen, s, pos + 14 + 3 * h.hclen);
  }

  // ----- blocks and streams -----

  ghost predicate BlockEncodable(b: Block) {
    && b.WellFormed()
    && match b
       case Stored(data) => |data| < 0x1_0000
       case Fixed(ts) => TokensEncodable(ts, FixedLitLengths(), FixedDistLengths())
       case Dynamic(h, ts) => HeadEncodable(h) && TokensEncodable(ts, h.LitLengths(), h.DistLengths())
  }

  ghost function BlockBits(b: Block, pos: nat): (e: bits)
    requires BlockEncodable(b)
    ensures pos + |e| == b.End(pos)
  {
    match b
    case Stored(data) => StoredBits(data, pos)
    case Fixed(ts) => TokensBits(ts, FixedLitLengths(), FixedDistLengths())
    case Dynamic(h, ts) => HeadBits(h) + TokensBits(ts, h.LitLengths(), h.DistLengths())
  }

  lemma BlockStands(b: Block, s: bits, pos: nat)
    requires BlockEncodable(b) && Standing(s, pos, BlockBits(b, pos))
    ensures b.Written(s, pos)
  {
    hide StoredBits, StoredWritten, TokensBits, TokensEncodable, Tokens.Written, Tokens.Size, Standing;
    hide HeadBits, HeadEncodable, DynHead.Written, DynHead.Size, FixedLitLengths, FixedDistLengths, Prefixable;
    hide LenItems.Applies, LenItems.Expand, DynHead.LitLengths, DynHead.DistLengths, Block.End;
    match b
    case Stored(data) => StoredStands(data, s, pos);
    case Fixed(ts) => TokensStand(ts, FixedLitLengths(), FixedDistLengths(), s, pos);
    case Dynamic(h, ts) =>
      StandingSplit(s, pos, HeadBits(h), TokensBits(ts, h.LitLengths(), h.DistLengths()));
      HeadStands(h, s, pos);
      TokensStand(ts, h.LitLengths(), h.DistLengths(), s, pos + h.Size());
  }

  ghost predicate Encodable(st: Stream) {
    BlockEncodable(st.b) && (st.Then? ==> Encodable(st.rest)) && st.WellFormed()
  }

  /** The stream as bits, its first block header at position `pos`. */
  ghost function Encode(st: Stream, pos: nat): (e: bits)
    requires Encodable(st)
    decreases st
  {
    var head := [st.Last?] + ToLsb(st.b.Type(), 2);
    match st
    case Last(b) => head + BlockBits(b, pos + 3)
    case Then(b, rest) => head + (BlockBits(b, pos + 3) + Encode(rest, b.End(pos + 3)))
  }

  lemma HeaderStands(last: bool, btype: nat, s: bits, pos: nat)
    requires btype < 3 && Standing(s, pos, [last] + ToLsb(btype, 2))
    ensures pos + 3 <= |s| && s[pos] == last && FieldAt(s, pos + 1, 2, btype)
  {
    assert Pow2(2) == 4;
    hide Lsb, ToLsb;
    StandingSplit(s, pos, [last], ToLsb(btype, 2));
    FieldStands(s, pos + 1, btype, 2);
    assert s[pos] == s[pos..pos + 1][0];
  }

  lemma {:induction false} StreamStands(st: Stream, s: bits, pos: nat)
    requires Encodable(st) && Standing(s, pos, Encode(st, pos))
    ensures st.Written(s, pos)
    decreases st
  {
    hide BlockBits, BlockEncodable, Block.Written, Block.WellFormed, Block.End, Standing, ToLsb, FieldAt;
    var head := [st.Last?] + ToLsb(st.b.Type(), 2);
    match st
    case Last(b) =>
      StandingSplit(s, pos, head, BlockBits(b, pos + 3));
      HeaderStands(true, b.Type(), s, pos);
      BlockStands(b, s, pos + 3);
    case Then(b, rest) =>
      StandingSplit(s, pos, head, BlockBits(b, pos + 3) + Encode(rest, b.End(pos + 3)));
      StandingSplit(s, pos + 3, BlockBits(b, pos + 3), Encode(rest, b.End(pos + 3)));
      HeaderStands(false, b.Type(), s, pos);
      BlockStands(b, s, pos + 3);
      StreamStands(rest, s, b.End(pos + 3));
  }

  /** Bytes of the encoded stream, followed by any other bytes. */
  lemma EncodedIsWritten(st: Stream, tail: seq<byte>)
    requires Encodable(st)
    ensures st.Written(Unpack(Pack(Encode(st, 0)) + tail), 0)
  {
    hide Encode, Encodable, Stream.Written, Pack, Unpack;
    var e := Encode(st, 0);
    PackUnpack(e);
    UnpackAppend(Pack(e), tail);
    var s := Unpack(Pack(e) + tail);
    assert s[0..|e|] == Unpack(Pack(e))[..|e|] == e;
    StreamStands(st, s, 0);
  }

  /** Encode, pack into bytes, inflate: the data comes back, for any capacity that holds it. */
  lemma EncodeInflate(st: Stream, tail: seq<byte>, cap: nat)
    requires Encodable(st) && st.Resolves([])
    ensures Inflate(Unpack(Pack(Encode(st, 0)) + tail), 0, [], cap) == Delivered(st.Expand([]), st.End(0), cap)
  {
    hide Encode, Stream.Written, Stream.Resolves, Stream.Expand, Stream.End, Pack, Unpack, Inflate;
    EncodedIsWritten(st, tail);
    InflateInverts(st, Unpack(Pack(Encode(st, 0)) + tail), 0, st.End(0), [], cap);
  }
}
