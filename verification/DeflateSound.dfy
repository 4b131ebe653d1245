/**
 The converse of the format: whatever the decoder accepts was written in it. Together with
 InflateInverts this says exactly which bit strings are inflated, and to what, as long as the codes
 a stream declares are prefix codes; the decoder does not check that they are.
 */
module DeflateSound {
  import opened Bits
  import opened Huffman
  import opened Deflate
  import opened DeflateFormat
  import CodeTables

  // ----- fields and symbols -----

  lemma FieldRead(s: bits, pos: nat, n: nat)
    requires pos <= |s| && ReadBits(s, pos, n).Number?
    ensures FieldAt(s, pos, n, ReadBits(s, pos, n).value) && ReadBits(s, pos, n).pos == pos + n
  {
  }

  lemma SymbolRead(lens: lengths, s: bits, pos: nat)
    requires Prefixable(lens) && pos <= |s| && DecodeSym(lens, s, pos).Symbol?
    ensures var r := DecodeSym(lens, s, pos); CodeAt(lens, r.value, s, pos) && r.pos == pos + CodeLen(lens, r.value)
  {
    hide DecodeSym, CodeBits, Prefixable;
    DecodeOnlyCodes(lens, s, pos);
  }

  // ----- tokens -----

  lemma DistanceSound(dist: lengths, s: bits, pos: nat, length: nat) returns (d: nat)
    requires Prefixable(dist) && pos <= |s| && ReadDistance(dist, s, pos, length).MatchRef?
    ensures var r := ReadDistance(dist, s, pos, length);
            && r.length == length && r.pos == pos + CodeLen(dist, d) + DistExtra(d)
            && forall l :: Ref(length, r.distance, l, d).DistanceWritten(dist, s, pos)
  {
    hide DecodeSym, CodeAt, ReadBits, FieldAt, Prefixable, DistExtra, DistBase;
    SymbolRead(dist, s, pos);
    var sym := DecodeSym(dist, s, pos);
    d := sym.value;
    FieldRead(s, sym.pos, DistExtra(d));
    LengthOfCode(dist, d, s, pos);
  }

  lemma LengthOfCode(lens: lengths, sym: nat, s: bits, pos: nat)
    requires CodeAt(lens, sym, s, pos)
    ensures sym < |lens| && CodeLen(lens, sym) == lens[sym] > 0
  {
  }

  lemma MatchSound(dist: lengths, s: bits, pos: nat, l: nat) returns (t: Token)
    requires Prefixable(dist) && pos <= |s| && ReadMatch(dist, s, pos, l).MatchRef?
    ensures var r := ReadMatch(dist, s, pos, l);
            && t.Ref? && t.l == l < NUM_LEN_CODES && t.length == r.length && t.distance == r.distance
            && t.MatchWritten(dist, s, pos) && r.pos == pos + LenExtra(l) + CodeLen(dist, t.d) + DistExtra(t.d)
  {
    hide Prefixable, ReadBits, ReadDistance, FieldAt, LenExtra, LenBase, DistExtra, Token.DistanceWritten;
    FieldRead(s, pos, LenExtra(l));
    var x := ReadBits(s, pos, LenExtra(l));
    var d := DistanceSound(dist, s, x.pos, LenBase(l) + x.value);
    var r := ReadMatch(dist, s, pos, l);
    t := Ref(r.length, r.distance, l, d);
  }

  /** One symbol that changes the output is one token. */
  lemma TokenSound(ll: lengths, dist: lengths, s: bits, pos: nat, out: seq<byte>, cap: nat) returns (t: Token)
    requires Prefixable(ll) && Prefixable(dist) && pos <= |s| && |out| <= cap
    requires var r := DecodeSym(ll, s, pos);
             r.Symbol? && r.value != END_OF_BLOCK && ApplySym(dist, s, r.pos, r.value, out, cap).Done?
    ensures var r := DecodeSym(ll, s, pos);
            && t.Written(ll, dist, s, pos) && t.Resolves(out)
            && ApplySym(dist, s, r.pos, r.value, out, cap) == Outcome.Done(pos + t.Size(ll, dist), t.Apply(out))
  {
    hide DecodeSym, CodeAt, ReadMatch, CopyMatch, Prefixable, Token.MatchWritten;
    SymbolRead(ll, s, pos);
    var r := DecodeSym(ll, s, pos);
    LengthOfCode(ll, r.value, s, pos);
    if r.value < END_OF_BLOCK {
      t := Lit(r.value as byte);
    } else {
      t := MatchSound(dist, s, r.pos, r.value - 257);
    }
  }

  /** Decoded symbols are written tokens, and the output is their expansion. */
  lemma {:induction false} CodesSound(ll: lengths, dist: lengths, s: bits, pos: nat, out: seq<byte>, cap: nat) returns (ts: Tokens)
    requires Prefixable(ll) && Prefixable(dist) && pos <= |s| && |out| <= cap
    requires DecodeCodes(ll, dist, s, pos, out, cap).Done?
    ensures && ts.Written(ll, dist, s, pos) && ts.Resolves(out)
            && DecodeCodes(ll, dist, s, pos, out, cap) == Outcome.Done(pos + ts.Size(ll, dist), ts.Expand(out))
    decreases |s| - pos
  {
    hide DecodeSym, CodeAt, ApplySym, Prefixable, Token.Written, Token.Apply, Token.Size, Token.Resolves;
    var r := DecodeSym(ll, s, pos);
    if r.value == END_OF_BLOCK {
      SymbolRead(ll, s, pos);
      ts := Tokens.End;
    } else {
      var t := TokenSound(ll, dist, s, pos, out, cap);
      var rest := CodesSound(ll, dist, s, pos + t.Size(ll, dist), t.Apply(out), cap);
      ts := Tokens.Cons(t, rest);
    }
  }

  // ----- stored blocks -----

  lemma {:induction false} BytesSound(s: bits, pos: nat, n: nat)
    requires pos + 8 * n <= |s|
    ensures Unpack(BytesAt(s, pos, n)) == s[pos..pos + 8 * n]
    decreases n
  {
    if n > 0 {
      BytesSound(s, pos, n - 1);
      var last := s[pos + 8 * (n - 1)..pos + 8 * n];
      UnpackAppend(BytesAt(s, pos, n - 1), [Take8(last)]);
      OneByte(last);
      hide Take8, Unpack;
      assert s[pos..pos + 8 * (n - 1)] + last == s[pos..pos + 8 * n];
    }
  }

  lemma OneByte(b: bits)
    requires |b| == 8
    ensures Unpack([Take8(b)]) == b
  {
    ToLsbOfLsb(b);
    assert [Take8(b)][1..] == [];
  }

  lemma StoredSound(s: bits, pos: nat, out: seq<byte>, cap: nat) returns (data: seq<byte>)
    requires pos <= |s| && |out| <= cap && DecodeStored(s, pos, out, cap).Done?
    ensures && StoredWritten(data, s, pos)
            && DecodeStored(s, pos, out, cap) == Outcome.Done(ByteAlign(pos) + 32 + 8 * |data|, out + data)
  {
    hide ByteAlign, Lsb, Unpack, BytesAt;
    var a := ByteAlign(pos);
    data := BytesAt(s, a + 32, Lsb(s[a..a + 16]));
    BytesSound(s, a + 32, Lsb(s[a..a + 16]));
  }

  // ----- the head of a dynamic block -----

  lemma ItemSound(clen: lengths, s: bits, pos: nat, lens: lengths, total: nat) returns (i: LenItem)
    requires Prefixable(clen) && |clen| <= 19 && pos <= |s| && |lens| < total && Legal(lens)
    requires var r := DecodeSym(clen, s, pos); r.Symbol? && ApplyClen(s, r.pos, r.value, lens, total).LengthsRead?
    ensures var r := DecodeSym(clen, s, pos);
            && i.Written(clen, s, pos) && i.Applies(lens)
            && ApplyClen(s, r.pos, r.value, lens, total) == LengthsRead(Cut(i.Apply(lens), total), pos + i.Size(clen))
  {
    hide DecodeSym, CodeAt, Prefixable, ReadBits, FieldAt, Legal;
    SymbolRead(clen, s, pos);
    var r := DecodeSym(clen, s, pos);
    LengthOfCode(clen, r.value, s, pos);
    i := if r.value < 16 then Length(r.value)
         else if r.value == 16 then Same(ReadBits(s, r.pos, 2).value)
         else if r.value == 17 then Zeros(ReadBits(s, r.pos, 3).value)
         else ManyZeros(ReadBits(s, r.pos, 7).value);
    FieldRead(s, r.pos, i.ExtraBits()) by { EmptyField(s, r.pos); }
    EmptyField(s, r.pos);
    ItemCut(i, lens, total);
  }

  lemma EmptyField(s: bits, pos: nat)
    requires pos <= |s|
    ensures ReadBits(s, pos, 0) == Number.Number(0, pos)
  {
    assert s[pos..pos] == [];
  }

  lemma ItemCut(i: LenItem, lens: lengths, total: nat)
    requires |lens| < total && i.Applies(lens)
    ensures i.Length? ==> Cut(i.Apply(lens), total) == lens + [i.n]
    ensures i.Same? ==> Cut(i.Apply(lens), total) == lens + Repeat(lens[|lens| - 1], Min(i.x + 3, total - |lens|))
    ensures i.Zeros? ==> Cut(i.Apply(lens), total) == lens + Repeat(0, Min(i.x + 3, total - |lens|))
    ensures i.ManyZeros? ==> Cut(i.Apply(lens), total) == lens + Repeat(0, Min(i.x + 11, total - |lens|))
  {
    hide Repeat, Min;
    match i
    case Length(n) =>
    case Same(x) => RepeatCut(lens[|lens| - 1], x + 3, lens, total);
    case Zeros(x) => RepeatCut(0, x + 3, lens, total);
    case ManyZeros(x) => RepeatCut(0, x + 11, lens, total);
  }

  lemma {:induction false} ItemsSound(clen: lengths, s: bits, pos: nat, lens: lengths, total: nat) returns (items: LenItems)
    requires Prefixable(clen) && |clen| <= 19 && pos <= |s| && |lens| <= total && Legal(lens)
    requires ReadLengths(clen, s, pos, lens, total).LengthsRead?
    ensures && items.Written(clen, s, pos) && items.Fills(lens, total)
            && items.Applies(lens) && |items.Expand(lens)| >= total
            && ReadLengths(clen, s, pos, lens, total) == LengthsRead(items.Expand(lens)[..total], pos + items.Size(clen))
    decreases |s| - pos
  {
    hide DecodeSym, ApplyClen, Prefixable, LenItem.Written, LenItem.Apply, LenItem.Size, Legal;
    if |lens| == total {
      items := LenItems.Done;
      assert lens[..total] == lens;
    } else {
      var i := ItemSound(clen, s, pos, lens, total);
      var p := pos + i.Size(clen);
      if |i.Apply(lens)| <= total {
        var rest := ItemsSound(clen, s, p, i.Apply(lens), total);
        items := LenItems.More(i, rest);
      } else {
        items := LenItems.More(i, LenItems.Done);
      }
    }
  }

  /** The codes the head of a dynamic block at `pos` declares are prefix codes. */
  ghost predicate DeclaresPrefixCodes(s: bits, pos: nat)
    requires pos <= |s|
  {
    match ReadHeader(s, pos)
    case BadHeader => true
    case Header(hlit, hdist, hclen) =>
      var p := pos + 14 + 3 * hclen;
      p <= |s| ==>
        var clen := ClenLengths(s, pos + 14, hclen);
        && Prefixable(clen)
        && match ReadLengths(clen, s, p, [], hlit + hdist)
           case BadLengths(_) => true
           case LengthsRead(lens, _) => Prefixable(lens[..hlit]) && Prefixable(lens[hlit..])
  }

  lemma HeaderSound(s: bits, pos: nat)
    requires pos <= |s| && ReadHeader(s, pos).Header?
    ensures var r := ReadHeader(s, pos);
            && FieldAt(s, pos, 5, r.hlit - 257) && FieldAt(s, pos + 5, 5, r.hdist - 1) && FieldAt(s, pos + 10, 4, r.hclen - 4)
  {
    hide Lsb;
  }

  lemma ClenSound(s: bits, pos: nat, n: nat)
    requires n <= 19 && pos + 3 * n <= |s|
    ensures ClenWritten(ClenLengths(s, pos, n), n, s, pos)
  {
    hide ClenLengths, ClenPlace, Lsb;
    forall i | 0 <= i < 19
      ensures ClenLengths(s, pos, n)[ClenPlace(i)] == if i < n then Lsb(s[pos + 3 * i..pos + 3 * i + 3]) else 0
    {
      CodeTables.PlacedAt(s, pos, n, i);
    }
  }

  lemma DynamicSound(s: bits, pos: nat, out: seq<byte>, cap: nat) returns (h: DynHead, ts: Tokens)
    requires pos <= |s| && |out| <= cap && DeclaresPrefixCodes(s, pos) && DecodeDynamic(s, pos, out, cap).Done?
    ensures h.WellFormed() && h.Written(s, pos)
    ensures ts.Written(h.LitLengths(), h.DistLengths(), s, pos + h.Size()) && ts.Resolves(out)
    ensures DecodeDynamic(s, pos, out, cap) ==
            Outcome.Done(pos + h.Size() + ts.Size(h.LitLengths(), h.DistLengths()), ts.Expand(out))
  {
    hide ReadHeader, ReadLengths, ClenLengths, DecodeCodes, Prefixable, FieldAt, ClenWritten;
    hide LenItems.Written, LenItems.Size, LenItems.Fills, LenItems.Applies, LenItems.Expand;
    hide Tokens.Written, Tokens.Size, Tokens.Expand, Tokens.Resolves;
    var head := ReadHeader(s, pos);
    HeaderSound(s, pos);
    var p, total := pos + 14 + 3 * head.hclen, head.hlit + head.hdist;
    var clen := ClenLengths(s, pos + 14, head.hclen);
    ClenSound(s, pos + 14, head.hclen);
    var items := ItemsSound(clen, s, p, [], total);
    var lens := ReadLengths(clen, s, p, [], total);
    h := DynHead(head.hlit, head.hdist, head.hclen, clen, items);
    assert lens.lens[..head.hlit] == h.LitLengths() && lens.lens[head.hlit..] == h.DistLengths();
    ts := CodesSound(h.LitLengths(), h.DistLengths(), s, lens.pos, out, cap);
  }

  // ----- streams -----

  /** What a decoded block was. */
  lemma BlockSound(btype: nat, s: bits, pos: nat, out: seq<byte>, cap: nat) returns (b: Block)
    requires pos <= |s| && |out| <= cap && DecodeBlock(btype, s, pos, out, cap).Done?
    requires btype == 2 ==> DeclaresPrefixCodes(s, pos)
    ensures b.Type() == btype && b.WellFormed() && b.Written(s, pos) && b.Resolves(out)
    ensures DecodeBlock(btype, s, pos, out, cap) == Outcome.Done(b.End(pos), b.Expand(out))
  {
    hide Prefixable, DecodeStored, DecodeDynamic, DecodeCodes, StoredWritten, FixedLitLengths, FixedDistLengths;
    hide Tokens.Written, Tokens.Size, Tokens.Expand, Tokens.Resolves, DynHead.Written, DynHead.WellFormed, DynHead.Size;
    hide DeclaresPrefixCodes, ByteAlign;
    if btype == 0 {
      var data := StoredSound(s, pos, out, cap);
      b := Stored(data);
    } else if btype == 1 {
      FixedLitPrefixable();
      FixedDistPrefixable();
      var ts := CodesSound(FixedLitLengths(), FixedDistLengths(), s, pos, out, cap);
      b := Fixed(ts);
    } else {
      var h, ts := DynamicSound(s, pos, out, cap);
      b := Dynamic(h, ts);
    }
  }

  /** Every dynamic block the decoder meets declares prefix codes. */
  ghost predicate AllPrefixCodes(s: bits, pos: nat, out: seq<byte>, cap: nat)
    requires pos <= |s| && |out| <= cap
    decreases |s| - pos
  {
    pos + 3 > |s| || (
      var btype := Lsb(s[pos + 1..pos + 3]);
      && (btype == 2 ==> DeclaresPrefixCodes(s, pos + 3))
      && match DecodeBlock(btype, s, pos + 3, out, cap)
         case Error(_) => true
         case Done(p, o) => s[pos] || AllPrefixCodes(s, p, o, cap))
  }

  /** Whatever is inflated is a written stream, and the output is its data. */
  lemma {:induction false} InflateSound(s: bits, pos: nat, out: seq<byte>, cap: nat) returns (st: Stream)
    requires pos <= |s| && |out| <= cap && AllPrefixCodes(s, pos, out, cap) && Inflate(s, pos, out, cap).Done?
    ensures st.WellFormed() && st.Written(s, pos) && st.Resolves(out)
    ensures Inflate(s, pos, out, cap) == Outcome.Done(st.End(pos), st.Expand(out))
    decreases |s| - pos
  {
    hide DecodeBlock, DeclaresPrefixCodes, Block.Written, Block.WellFormed, Block.End, Block.Expand, Block.Resolves, Lsb;
    var btype := Lsb(s[pos + 1..pos + 3]);
    var b := BlockSound(btype, s, pos + 3, out, cap);
    var r := DecodeBlock(btype, s, pos + 3, out, cap);
    if s[pos] {
      st := Last(b);
    } else {
      var rest := InflateSound(s, r.pos, r.out, cap);
      st := Then(b, rest);
    }
  }

  /** `st` is a stream written from `pos` to `end` that makes `data` of `out`. */
  ghost predicate Makes(st: Stream, s: bits, pos: nat, out: seq<byte>, end: nat, data: seq<byte>) {
    && st.WellFormed() && st.Written(s, pos) && st.Resolves(out)
    && st.End(pos) == end && st.Expand(out) == data
  }

  /**
   Main result: the decoder succeeds if and only if a stream of the format is written there whose data
   fits the buffer, and then the output is that data and the position its end.
   */
  lemma InflateIff(s: bits, pos: nat, out: seq<byte>, cap: nat, end: nat, data: seq<byte>)
    requires pos <= |s| && |out| <= cap && AllPrefixCodes(s, pos, out, cap)
    ensures Inflate(s, pos, out, cap) == Outcome.Done(end, data) <==>
              |data| <= cap && exists st: Stream :: Makes(st, s, pos, out, end, data)
  {
    hide Inflate, AllPrefixCodes, Stream.Written, Stream.WellFormed, Stream.Resolves, Stream.Expand, Stream.End;
    if Inflate(s, pos, out, cap).Done? {
      var st := InflateSound(s, pos, out, cap);
      var r := Inflate(s, pos, out, cap);
      assert Makes(st, s, pos, out, r.pos, r.out);
    }
    forall st: Stream | Makes(st, s, pos, out, end, data)
      ensures Inflate(s, pos, out, cap) == Delivered(data, end, cap)
    {
      InflateInverts(st, s, pos, end, out, cap);
    }
  }
}
