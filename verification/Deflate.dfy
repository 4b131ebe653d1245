/**
 What the DEFLATE decoder computes, on the bit string its input carries: a pure function
 from bits and output capacity to output bytes or an error code. The buffered decoder in
 `Inflaters` is proved equal to it; `DeflateFormat` proves it inverts the encodings of RFC 1951.
 */
module Deflate {
  import opened Bits
  import opened Huffman

  // ----- length and distance codes of section 3.2.5 -----

  const NUM_LEN_CODES: nat := 29
  const NUM_DIST_CODES: nat := 30
  const NUM_CLEN_CODES: nat := 19
  const END_OF_BLOCK: nat := 256

  /** Extra bits of length code 257 + `l`: none for the first eight and the last, then one more every four. */
  function LenExtra(l: nat): (n: nat)
    requires l < NUM_LEN_CODES
  {
    if l < 8 || l == 28 then 0 else if l < 12 then 1 else 1 + LenExtra(l - 4)
  }

  /** Each length code starts where the range of the one before it ends; 258 has its own code. */
  function LenBase(l: nat): (b: nat)
    requires l < NUM_LEN_CODES
  {
    if l == 0 then 3 else if l == 28 then 258 else LenBase(l - 1) + Pow2(LenExtra(l - 1))
  }

  /** Extra bits of distance code `d`: none for the first four, then one more every two. */
  function DistExtra(d: nat): (n: nat)
  {
    if d < 4 then 0 else 1 + DistExtra(d - 2)
  }

  function DistBase(d: nat): (b: nat)
    ensures b >= 1
  {
    if d == 0 then 1 else DistBase(d - 1) + Pow2(DistExtra(d - 1))
  }

  /** Place of the `i`-th sent length of the code length code, section 3.2.7: 16, 17, 18, 0, 8, 7, 9, 6, ... */
  function ClenPlace(i: nat): (p: nat)
    requires i < NUM_CLEN_CODES
    ensures p < NUM_CLEN_CODES
  {
    if i < 3 then 16 + i
    else if i == 3 then 0
    else if i % 2 == 0 then 6 + i / 2
    else 9 - i / 2
  }

  const ERR_INPUT: int := -1
  const ERR_OUTPUT_FULL: int := -2
  const ERR_LENGTH_SYM: int := -4
  const ERR_DIST_SYM: int := -5
  const ERR_DISTANCE: int := -6
  const ERR_STORED_HEADER: int := -7
  const ERR_STORED_CHECK: int := -8
  const ERR_STORED_DATA: int := -9
  const ERR_REPEAT: int := -13
  const ERR_BLOCK_TYPE: int := -15

  /** Output so far with the stream position after it, or the error that stopped the decoder. */
  datatype Outcome = Done(pos: nat, out: seq<byte>) | Error(code: int)

  datatype Number = Number(value: nat, pos: nat) | NoBits

  function ReadBits(s: bits, pos: nat, n: nat): (r: Number)
    requires pos <= |s|
    ensures r.Number? ==> r.pos == pos + n <= |s|
  {
    if pos + n <= |s| then Number(Lsb(s[pos..pos + n]), pos + n) else NoBits
  }

  // ----- LZ77 -----

  /**
   The LZ77 copy: append `length` bytes, each the byte `distance` back from the end of the
   output as it then stands.
   */
  function CopyMatch(out: seq<byte>, distance: nat, length: nat): (r: seq<byte>)
    requires 1 <= distance <= |out|
    ensures |r| == |out| + length
  {
    if length == 0 then out
    else
      var r := CopyMatch(out, distance, length - 1);
      r + [r[|r| - distance]]
  }

  lemma {:induction false} CopyKeeps(out: seq<byte>, distance: nat, length: nat, j: nat)
    requires 1 <= distance <= |out| && j < |out|
    ensures CopyMatch(out, distance, length)[j] == out[j]
  {
    if length > 0 { CopyKeeps(out, distance, length - 1, j); }
  }

  /** The closed form of the copy: byte `i` is byte `i % distance` of the source. */
  lemma {:induction false} CopyIsPeriodic(out: seq<byte>, distance: nat, length: nat, i: nat)
    requires 1 <= distance <= |out| && i < length
    ensures CopyMatch(out, distance, length)[|out| + i] == out[|out| - distance + i % distance]
    decreases length, i
  {
    if i < length - 1 {
      CopyIsPeriodic(out, distance, length - 1, i);
    } else if i >= distance {
      CopyIsPeriodic(out, distance, length - 1, i - distance);
      ModStep(i, distance);
    } else {
      SmallMod(i, distance);
      CopyKeeps(out, distance, length - 1, |out| - distance + i);
    }
  }

  lemma SmallMod(i: nat, d: nat)
    requires i < d
    ensures i % d == i
  {}

  lemma ModStep(i: nat, d: nat)
    requires 0 < d <= i
    ensures (i - d) % d == i % d
  {
    var q, r := i / d, i % d;
    assert i == d * q + r;
    assert i - d == d * (q - 1) + r by { assert d * (q - 1) == d * q - d; }
    RemainderUnique(i - d, d, q - 1, r);
  }

  lemma RemainderUnique(v: nat, m: nat, q: int, r: nat)
    requires r < m && v == m * q + r
    ensures v % m == r
  {
    MulBound(m, v / m - q);
    assert m * (v / m - q) == m * (v / m) - m * q;
  }

  lemma MulBound(m: int, d: int)
    requires m > 0
    ensures d >= 1 ==> m * d >= m
    ensures d <= -1 ==> m * d <= -m
  {}

  /** Output that should become `full`, which fails if it exceeds the capacity. */
  function Delivered(full: seq<byte>, pos: nat, cap: nat): (r: Outcome)
  {
    if |full| <= cap then Done(pos, full) else Error(ERR_OUTPUT_FULL)
  }

  // ----- compressed data, section 3.2.3 -----

  datatype MatchRef = MatchRef(length: nat, distance: nat, pos: nat) | BadMatch(err: int)

  function ReadDistance(dist: lengths, s: bits, pos: nat, length: nat): (r: MatchRef)
    requires pos <= |s|
    ensures r.MatchRef? ==> pos < r.pos <= |s| && r.distance >= 1
  {
    match DecodeSym(dist, s, pos)
    case BadSymbol(e) => BadMatch(e)
    case Symbol(d, p) =>
      if d >= NUM_DIST_CODES then BadMatch(ERR_DIST_SYM)
      else
        match ReadBits(s, p, DistExtra(d))
        case NoBits => BadMatch(ERR_INPUT)
        case Number(x, p') => MatchRef(length, DistBase(d) + x, p')
  }

  /** The rest of a length/distance pair whose length symbol is `257 + l`. */
  function ReadMatch(dist: lengths, s: bits, pos: nat, l: nat): (r: MatchRef)
    requires pos <= |s|
    ensures r.MatchRef? ==> pos < r.pos <= |s| && r.distance >= 1
  {
    if l >= NUM_LEN_CODES then BadMatch(ERR_LENGTH_SYM)
    else
      match ReadBits(s, pos, LenExtra(l))
      case NoBits => BadMatch(ERR_INPUT)
      case Number(x, p) => ReadDistance(dist, s, p, LenBase(l) + x)
  }

  /** What one literal/length symbol does to the output. */
  function ApplySym(dist: lengths, s: bits, pos: nat, sym: nat, out: seq<byte>, cap: nat): (r: Outcome)
    requires pos <= |s| && |out| <= cap && sym != END_OF_BLOCK
    ensures r.Done? ==> |r.out| <= cap && pos <= r.pos <= |s|
  {
    if sym < END_OF_BLOCK then Delivered(out + [sym as byte], pos, cap)
    else
      match ReadMatch(dist, s, pos, sym - 257)
      case BadMatch(e) => Error(e)
      case MatchRef(length, distance, p) =>
        if distance > |out| then Error(ERR_DISTANCE)
        else Delivered(CopyMatch(out, distance, length), p, cap)
  }

  /** Decodes symbols up to and including the end of the block. */
  function DecodeCodes(ll: lengths, dist: lengths, s: bits, pos: nat, out: seq<byte>, cap: nat): (r: Outcome)
    requires pos <= |s| && |out| <= cap
    ensures r.Done? ==> |r.out| <= cap && pos < r.pos <= |s|
    decreases |s| - pos
  {
    match DecodeSym(ll, s, pos)
    case BadSymbol(e) => Error(e)
    case Symbol(sym, p) =>
      if sym == END_OF_BLOCK then Done(p, out)
      else
        match ApplySym(dist, s, p, sym, out, cap)
        case Error(e) => Error(e)
        case Done(p', o) => DecodeCodes(ll, dist, s, p', o, cap)
  }

  // ----- stored blocks, section 3.2.4 -----

  function ByteAlign(pos: nat): (p: nat)
    ensures pos <= p < pos + 8 && p % 8 == 0
  {
    (pos + 7) / 8 * 8
  }

  function BytesAt(s: bits, pos: nat, n: nat): (r: seq<byte>)
    requires pos + 8 * n <= |s|
    ensures |r| == n
    decreases n
  {
    if n == 0 then [] else BytesAt(s, pos, n - 1) + [Take8(s[pos + 8 * (n - 1)..pos + 8 * n])]
  }

  /** A stored block after its LEN and NLEN. */
  function StoredData(len: nat, nlen: nat, s: bits, pos: nat, out: seq<byte>, cap: nat): (r: Outcome)
    requires |out| <= cap
    ensures r.Done? ==> |r.out| <= cap && pos <= r.pos <= |s|
  {
    if len + nlen != 0xFFFF then Error(ERR_STORED_CHECK)
    else if pos + 8 * len > |s| then Error(ERR_STORED_DATA)
    else Delivered(out + BytesAt(s, pos, len), pos + 8 * len, cap)
  }

  /** A stored block whose header starts at bit `a`. */
  function StoredAt(s: bits, a: nat, out: seq<byte>, cap: nat): (r: Outcome)
    requires |out| <= cap
    ensures r.Done? ==> |r.out| <= cap && a < r.pos <= |s|
  {
    if a + 32 > |s| then Error(ERR_STORED_HEADER)
    else StoredData(Lsb(s[a..a + 16]), Lsb(s[a + 16..a + 32]), s, a + 32, out, cap)
  }

  function DecodeStored(s: bits, pos: nat, out: seq<byte>, cap: nat): (r: Outcome)
    requires pos <= |s| && |out| <= cap
    ensures r.Done? ==> |r.out| <= cap && pos < r.pos <= |s|
  {
    StoredAt(s, ByteAlign(pos), out, cap)
  }

  // ----- fixed and dynamic codes, sections 3.2.6 and 3.2.7 -----

  function Repeat(v: nat, n: nat): (r: seq<nat>)
    ensures |r| == n
    ensures forall i :: 0 <= i < n ==> r[i] == v
  {
    if n == 0 then [] else Repeat(v, n - 1) + [v]
  }

  function FixedLitLengths(): (r: lengths) {
    Repeat(8, 144) + Repeat(9, 112) + Repeat(7, 24) + Repeat(8, 8)
  }

  function FixedDistLengths(): (r: lengths) {
    Repeat(5, 30) + Repeat(0, 2)
  }

  function DecodeFixed(s: bits, pos: nat, out: seq<byte>, cap: nat): (r: Outcome)
    requires pos <= |s| && |out| <= cap
    ensures r.Done? ==> |r.out| <= cap && pos < r.pos <= |s|
  {
    DecodeCodes(FixedLitLengths(), FixedDistLengths(), s, pos, out, cap)
  }

  /** The lengths of the code length code, the first `n` of them read from `pos`. */
  function ClenLengths(s: bits, pos: nat, n: nat): (r: lengths)
    requires pos + 3 * n <= |s| && n <= NUM_CLEN_CODES
    ensures |r| == NUM_CLEN_CODES && forall i :: 0 <= i < |r| ==> r[i] <= 7
    decreases n
  {
    if n == 0 then Repeat(0, NUM_CLEN_CODES)
    else
      LsbBound(s[pos + 3 * (n - 1)..pos + 3 * n]);
      assert Pow2(3) == 8;
      ClenLengths(s, pos, n - 1)[ClenPlace(n - 1) := Lsb(s[pos + 3 * (n - 1)..pos + 3 * n])]
  }

  function Min(a: int, b: int): (r: int) { if a < b then a else b }

  datatype LengthsRead = LengthsRead(lens: lengths, pos: nat) | BadLengths(err: int)

  /** What one code length symbol appends to the lengths read so far. */
  function ApplyClen(s: bits, pos: nat, sym: nat, lens: lengths, total: nat): (r: LengthsRead)
    requires pos <= |s| && |lens| < total && Legal(lens)
    ensures r.LengthsRead? ==> pos <= r.pos <= |s| && |r.lens| <= total && Legal(r.lens)
  {
    if sym < 16 then LengthsRead(lens + [sym], pos)
    else if sym == 16 then
      if lens == [] then BadLengths(ERR_REPEAT)
      else
        match ReadBits(s, pos, 2)
        case NoBits => BadLengths(ERR_INPUT)
        case Number(x, p) => LengthsRead(lens + Repeat(lens[|lens| - 1], Min(x + 3, total - |lens|)), p)
    else
      match ReadBits(s, pos, if sym == 17 then 3 else 7)
      case NoBits => BadLengths(ERR_INPUT)
      case Number(x, p) =>
        LengthsRead(lens + Repeat(0, Min(x + (if sym == 17 then 3 else 11), total - |lens|)), p)
  }

  /** Reads code lengths until there are `total` of them. */
  function ReadLengths(clen: lengths, s: bits, pos: nat, lens: lengths, total: nat): (r: LengthsRead)
    requires pos <= |s| && |lens| <= total && Legal(lens)
    ensures r.LengthsRead? ==> pos <= r.pos <= |s| && |r.lens| == total && Legal(r.lens)
    decreases |s| - pos
  {
    if |lens| == total then LengthsRead(lens, pos)
    else
      match DecodeSym(clen, s, pos)
      case BadSymbol(e) => BadLengths(e)
      case Symbol(sym, p) =>
        match ApplyClen(s, p, sym, lens, total)
        case BadLengths(e) => BadLengths(e)
        case LengthsRead(lens', p') => ReadLengths(clen, s, p', lens', total)
  }

  datatype Header = Header(hlit: nat, hdist: nat, hclen: nat) | BadHeader

  /** HLIT, HDIST and HCLEN. */
  function ReadHeader(s: bits, pos: nat): (r: Header)
    requires pos <= |s|
    ensures r.Header? ==> 257 <= r.hlit <= 288 && 1 <= r.hdist <= 32 && 4 <= r.hclen <= 19 && pos + 14 <= |s|
  {
    if pos + 14 > |s| then BadHeader
    else
      LsbBound(s[pos..pos + 5]); LsbBound(s[pos + 5..pos + 10]); LsbBound(s[pos + 10..pos + 14]);
      assert Pow2(5) == 32 && Pow2(4) == 16;
      Header(Lsb(s[pos..pos + 5]) + 257, Lsb(s[pos + 5..pos + 10]) + 1, Lsb(s[pos + 10..pos + 14]) + 4)
  }

  /** A dynamic block after the lengths `clen` of its code length code. */
  function DynamicTail(clen: lengths, hlit: nat, hdist: nat, s: bits, pos: nat, out: seq<byte>, cap: nat): (r: Outcome)
    requires pos <= |s| && |out| <= cap
    ensures r.Done? ==> |r.out| <= cap && pos < r.pos <= |s|
  {
    match ReadLengths(clen, s, pos, [], hlit + hdist)
    case BadLengths(e) => Error(e)
    case LengthsRead(lens, p) => DecodeCodes(lens[..hlit], lens[hlit..], s, p, out, cap)
  }

  /** A dynamic block after its three counts. */
  function DynamicBody(hlit: nat, hdist: nat, hclen: nat, s: bits, pos: nat, out: seq<byte>, cap: nat): (r: Outcome)
    requires pos <= |s| && |out| <= cap && hclen <= NUM_CLEN_CODES
    ensures r.Done? ==> |r.out| <= cap && pos < r.pos <= |s|
  {
    if pos + 3 * hclen > |s| then Error(ERR_INPUT)
    else DynamicTail(ClenLengths(s, pos, hclen), hlit, hdist, s, pos + 3 * hclen, out, cap)
  }

  function DecodeDynamic(s: bits, pos: nat, out: seq<byte>, cap: nat): (r: Outcome)
    requires pos <= |s| && |out| <= cap
    ensures r.Done? ==> |r.out| <= cap && pos < r.pos <= |s|
  {
    match ReadHeader(s, pos)
    case BadHeader => Error(ERR_INPUT)
    case Header(hlit, hdist, hclen) => DynamicBody(hlit, hdist, hclen, s, pos + 14, out, cap)
  }

  // ----- the block loop, section 3.2.3 -----

  function DecodeBlock(btype: nat, s: bits, pos: nat, out: seq<byte>, cap: nat): (r: Outcome)
    requires pos <= |s| && |out| <= cap
    ensures r.Done? ==> |r.out| <= cap && pos < r.pos <= |s|
  {
    if btype == 0 then DecodeStored(s, pos, out, cap)
    else if btype == 1 then DecodeFixed(s, pos, out, cap)
    else if btype == 2 then DecodeDynamic(s, pos, out, cap)
    else Error(ERR_BLOCK_TYPE)
  }

  /** Decodes blocks from bit `pos` up to and including the final one. */
  function Inflate(s: bits, pos: nat, out: seq<byte>, cap: nat): (r: Outcome)
    requires pos <= |s| && |out| <= cap
    ensures r.Done? ==> |r.out| <= cap && pos < r.pos <= |s|
    decreases |s| - pos
  {
    if pos + 3 > |s| then Error(ERR_INPUT)
    else
      match DecodeBlock(Lsb(s[pos + 1..pos + 3]), s, pos + 3, out, cap)
      case Error(e) => Error(e)
      case Done(p, o) => if s[pos] then Done(p, o) else Inflate(s, p, o, cap)
  }
}
