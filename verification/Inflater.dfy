/**
 The buffered DEFLATE decoder: it prefetches whole bytes into a 32-bit word, and writes
 the output buffer in place. Each method is proved to compute the function of the same name
 in `Deflate` on the bit string of the input, whatever the buffer holds on entry.
 */
module Inflaters {
  import opened Bits
  import opened Huffman
  import opened HuffTables
  import opened Deflate

  // ----- the decoder's constant tables -----

  const LEN_BASE: seq<nat> := [
    3, 4, 5, 6, 7, 8, 9, 10, 11, 13, 15, 17, 19, 23, 27, 31,
    35, 43, 51, 59, 67, 83, 99, 115, 131, 163, 195, 227, 258]
  const LEN_EXTRA: seq<nat> := [
    0, 0, 0, 0, 0, 0, 0, 0, 1, 1, 1, 1, 2, 2, 2, 2, 3, 3, 3, 3, 4, 4, 4, 4, 5, 5, 5, 5, 0]
  const DIST_BASE: seq<nat> := [
    1, 2, 3, 4, 5, 7, 9, 13, 17, 25, 33, 49, 65, 97, 129, 193, 257, 385, 513, 769,
    1025, 1537, 2049, 3073, 4097, 6145, 8193, 12289, 16385, 24577]
  const DIST_EXTRA: seq<nat> := [
    0, 0, 0, 0, 1, 1, 2, 2, 3, 3, 4, 4, 5, 5, 6, 6, 7, 7, 8, 8, 9, 9, 10, 10, 11, 11, 12, 12, 13, 13]
  const CLEN_ORDER: seq<nat> := [16, 17, 18, 0, 8, 7, 9, 6, 10, 5, 11, 4, 12, 3, 13, 2, 14, 1, 15]

  lemma {:induction false} LengthExtras(l: nat)
    requires l < NUM_LEN_CODES
    ensures LEN_EXTRA[l] == LenExtra(l) <= 5
  {
    if l >= 12 { LengthExtras(l - 4); }
  }

  /** The length tables are the RFC's ranges: contiguous from 3, and no more than 5 extra bits. */
  lemma {:induction false} LengthTables(l: nat)
    requires l < NUM_LEN_CODES
    ensures LEN_EXTRA[l] == LenExtra(l) <= 5
    ensures LEN_BASE[l] == LenBase(l)
  {
    LengthExtras(l);
    LenBaseValues();
    hide LenBase, LenExtra;
  }

  lemma LenBaseValues()
    ensures LenBase(0) == 3 && LenBase(1) == 4 && LenBase(2) == 5 && LenBase(3) == 6 && LenBase(4) == 7
    ensures LenBase(5) == 8 && LenBase(6) == 9 && LenBase(7) == 10 && LenBase(8) == 11 && LenBase(9) == 13
    ensures LenBase(10) == 15 && LenBase(11) == 17 && LenBase(12) == 19 && LenBase(13) == 23 && LenBase(14) == 27
    ensures LenBase(15) == 31 && LenBase(16) == 35 && LenBase(17) == 43 && LenBase(18) == 51 && LenBase(19) == 59
    ensures LenBase(20) == 67 && LenBase(21) == 83 && LenBase(22) == 99 && LenBase(23) == 115 && LenBase(24) == 131
    ensures LenBase(25) == 163 && LenBase(26) == 195 && LenBase(27) == 227 && LenBase(28) == 258
  {
    assert Pow2(0) == 1 && Pow2(1) == 2 && Pow2(2) == 4 && Pow2(3) == 8 && Pow2(4) == 16 && Pow2(5) == 32;
  }

  method LengthCode(l: nat) returns (base: nat, extra: nat)
    requires l < NUM_LEN_CODES
    ensures base == LenBase(l) && extra == LenExtra(l) <= 5
  {
    LengthTables(l);
    base, extra := LEN_BASE[l], LEN_EXTRA[l];
  }

  lemma {:induction false} DistanceExtras(d: nat)
    requires d < NUM_DIST_CODES
    ensures DIST_EXTRA[d] == DistExtra(d) <= 13
  {
    if d >= 4 { DistanceExtras(d - 2); }
  }

  lemma {:induction false} DistanceTables(d: nat)
    requires d < NUM_DIST_CODES
    ensures DIST_EXTRA[d] == DistExtra(d) <= 13
    ensures DIST_BASE[d] == DistBase(d)
  {
    DistanceExtras(d);
    DistBaseValues();
    hide DistBase, DistExtra;
  }

  lemma DistBaseValues()
    ensures DistBase(0) == 1 && DistBase(1) == 2 && DistBase(2) == 3 && DistBase(3) == 4 && DistBase(4) == 5
    ensures DistBase(5) == 7 && DistBase(6) == 9 && DistBase(7) == 13 && DistBase(8) == 17 && DistBase(9) == 25
    ensures DistBase(10) == 33 && DistBase(11) == 49 && DistBase(12) == 65 && DistBase(13) == 97 && DistBase(14) == 129
    ensures DistBase(15) == 193 && DistBase(16) == 257 && DistBase(17) == 385 && DistBase(18) == 513
    ensures DistBase(19) == 769 && DistBase(20) == 1025 && DistBase(21) == 1537 && DistBase(22) == 2049
    ensures DistBase(23) == 3073 && DistBase(24) == 4097 && DistBase(25) == 6145 && DistBase(26) == 8193
    ensures DistBase(27) == 12289 && DistBase(28) == 16385 && DistBase(29) == 24577
  {
    assert Pow2(0) == 1 && Pow2(1) == 2 && Pow2(2) == 4 && Pow2(3) == 8 && Pow2(4) == 16 && Pow2(5) == 32;
    assert Pow2(6) == 64 && Pow2(7) == 128 && Pow2(8) == 256 && Pow2(9) == 512 && Pow2(10) == 1024;
    assert Pow2(11) == 2048 && Pow2(12) == 4096 && Pow2(13) == 8192;
  }

  method DistanceCode(d: nat) returns (base: nat, extra: nat)
    requires d < NUM_DIST_CODES
    ensures base == DistBase(d) && extra == DistExtra(d) <= 13
  {
    DistanceTables(d);
    base, extra := DIST_BASE[d], DIST_EXTRA[d];
  }

  lemma ClenOrderTable(i: nat)
    requires i < NUM_CLEN_CODES
    ensures CLEN_ORDER[i] == ClenPlace(i)
  {}

  class Inflater {
    const input: seq<byte>
    var inPos: nat
    var bitBuf: nat
    var bitCnt: nat
    const out: array<byte>
    const outCap: nat
    var outPos: nat
    var err: int

    /** The bit string carried by the input. */
    ghost const stream: bits

    constructor (input: seq<byte>, out: array<byte>, outCap: nat)
      requires outCap <= out.Length
      ensures Valid() && this.input == input && this.out == out && this.outCap == outCap
      ensures Pos() == 0 && outPos == 0 && err == 0
    {
      this.input, this.out, this.outCap := input, out, outCap;
      inPos, bitBuf, bitCnt, outPos, err := 0, 0, 0, 0, 0;
      stream := Unpack(input);
    }

    /** Abstract stream position: what has been fetched less what is still buffered. */
    ghost function Pos(): (r: int)
      reads this
    {
      8 * inPos - bitCnt
    }

    /** The buffer holds exactly the `bitCnt` bits of the stream from `Pos()` on. */
    ghost predicate Valid()
      reads this
    {
      && stream == Unpack(input)
      && inPos <= |input| && bitCnt <= 32 && bitCnt <= 8 * inPos
      && bitBuf == Lsb(stream[8 * inPos - bitCnt..8 * inPos])
      && outPos <= outCap <= out.Length
    }

    ghost function Output(): (r: seq<byte>)
      requires outPos <= out.Length
      reads this, out
    {
      out[..outPos]
    }

    // ----- bit reader -----

    lemma RefillStep()
      requires Valid() && bitCnt <= 24 && inPos < |input|
      ensures Or(bitBuf, Shl(input[inPos] as nat, bitCnt)) ==
              Lsb(stream[8 * inPos - bitCnt..8 * (inPos + 1)]) < 0x1_0000_0000
    {
      hide Unpack, Lsb, Or, Shl;
      var held, next := stream[8 * inPos - bitCnt..8 * inPos], stream[8 * inPos..8 * inPos + 8];
      UnpackAt(input, inPos);
      LsbOfByteBits(input[inPos]);
      LsbBound(held);
      OrDisjoint(bitBuf, input[inPos] as nat, bitCnt);
      LsbAppend(held, next);
      assert held + next == stream[8 * inPos - bitCnt..8 * (inPos + 1)];
      LsbBound(held + next);
      Pow2Mono(bitCnt + 8, 32);
      Pow2Word();
    }

    static lemma Pow2Word()
      ensures Pow2(32) == 0x1_0000_0000
    {
      Pow2Eight();
      ShlShl(1, 8, 8);
      assert Shl(256, 8) == 65536;
      ShlShl(1, 16, 8);
      assert Shl(65536, 8) == 16777216;
      ShlShl(1, 24, 8);
      assert Shl(16777216, 8) == 0x1_0000_0000;
    }

    method Refill()
      requires Valid()
      modifies this`inPos, this`bitBuf, this`bitCnt
      ensures Valid() && Pos() == old(Pos())
      ensures bitCnt > 24 || inPos == |input|
    {
      hide Unpack, Lsb, Or, Shl;
      while bitCnt <= 24 && inPos < |input|
        invariant Valid() && Pos() == old(Pos())
        decreases |input| - inPos
      {
        RefillStep();
        bitBuf := Or(bitBuf, Shl(input[inPos] as nat, bitCnt));
        inPos := inPos + 1;
        bitCnt := bitCnt + 8;
      }
    }

    lemma TakeStep(n: nat)
      requires Valid() && n <= bitCnt
      ensures Low(bitBuf, n) == Lsb(stream[Pos()..Pos() + n])
      ensures Shr(bitBuf, n) == Lsb(stream[Pos() + n..8 * inPos])
    {
      var held := stream[Pos()..8 * inPos];
      LsbSplit(held, n);
      assert held[..n] == stream[Pos()..Pos() + n];
      assert held[n..] == stream[Pos() + n..8 * inPos];
    }

    /** Shifts `n` buffered bits out. */
    method Drop(n: nat)
      requires Valid() && n <= bitCnt
      modifies this`bitBuf, this`bitCnt
      ensures Valid() && Pos() == old(Pos()) + n
    {
      TakeStep(n);
      bitBuf := Shr(bitBuf, n);
      bitCnt := bitCnt - n;
    }

    /** Reads `n` bits, least significant first; past the end of the input it fails. */
    method ReadBits(n: nat) returns (v: nat)
      requires Valid() && n <= 25
      modifies this`inPos, this`bitBuf, this`bitCnt, this`err
      ensures Valid()
      ensures match Deflate.ReadBits(stream, old(Pos()), n)
              case Number(x, p) => v == x && Pos() == p && err == old(err)
              case NoBits => v == 0 && Pos() == old(Pos()) && err == ERR_INPUT
    {
      hide Unpack;
      if n == 0 {
        return 0;
      }
      Refill();
      if bitCnt < n {
        err := ERR_INPUT;
        return 0;
      }
      TakeStep(n);
      v := Low(bitBuf, n);
      Drop(n);
    }

    static lemma AlignArith(bytes: nat, held: nat)
      requires held <= 8 * bytes
      ensures ByteAlign(8 * bytes - held) == 8 * bytes - held + held % 8
      ensures (held - held % 8) % 8 == 0
    {}

    /** Drops bits up to the next byte boundary of the stream. */
    method Align()
      requires Valid()
      modifies this`bitBuf, this`bitCnt
      ensures Valid() && Pos() == ByteAlign(old(Pos())) && bitCnt % 8 == 0
    {
      AlignArith(inPos, bitCnt);
      hide Unpack, Lsb, ByteAlign;
      var excess := bitCnt % 8;
      if excess != 0 {
        Drop(excess);
      }
    }

    /** Gives the prefetched whole bytes back to the input. */
    method Rewind()
      requires Valid() && bitCnt % 8 == 0
      modifies this`inPos, this`bitBuf, this`bitCnt
      ensures Valid() && Pos() == old(Pos()) && bitCnt == 0
    {
      inPos := inPos - bitCnt / 8;
      bitBuf := 0;
      bitCnt := 0;
    }

    // ----- output -----

    /** Since the buffer was `orig`, only the bytes from `start` to the write position have changed. */
    ghost predicate Wrote(orig: seq<byte>, start: nat)
      reads this, out
    {
      && start <= outPos <= out.Length == |orig|
      && out[..start] == orig[..start] && out[outPos..] == orig[outPos..]
    }

    lemma WroteTrans(orig: seq<byte>, start: nat, mid: seq<byte>, k: nat)
      requires Wrote(mid, k) && |orig| == |mid| && start <= k
      requires mid[..start] == orig[..start] && mid[k..] == orig[k..]
      ensures Wrote(orig, start)
    {
      assert mid[outPos..] == mid[k..][outPos - k..] == orig[outPos..];
      assert out[..start] == out[..k][..start] == mid[..k][..start] == mid[..start];
    }

    method Emit(b: byte) returns (ok: bool)
      requires Valid()
      modifies this`outPos, this`err, out
      ensures Valid() && ok == (old(outPos) < outCap) && Wrote(old(out[..]), old(outPos))
      ensures Output() == if ok then old(Output()) + [b] else old(Output())
      ensures err == if ok then old(err) else ERR_OUTPUT_FULL
    {
      if outPos >= outCap {
        err := ERR_OUTPUT_FULL;
        return false;
      }
      out[outPos] := b;
      outPos := outPos + 1;
      ok := true;
    }

    /** Emits one more byte of a run of writes that began with `orig` at `start`. */
    method EmitOn(b: byte, ghost orig: seq<byte>, ghost start: nat) returns (ok: bool)
      requires Valid() && Wrote(orig, start)
      modifies this`outPos, this`err, out
      ensures Valid() && Wrote(orig, start) && ok == (old(outPos) < outCap)
      ensures Output() == if ok then old(Output()) + [b] else old(Output())
      ensures err == if ok then old(err) else ERR_OUTPUT_FULL
    {
      hide Valid, Output;
      ghost var mid, k := out[..], outPos;
      ok := Emit(b);
      WroteTrans(orig, start, mid, k);
    }

    /** The state is the one `r` describes. */
    ghost predicate Reached(r: Outcome)
      reads this, out
    {
      && Valid()
      && match r
         case Done(p, o) => err == 0 && Pos() == p && Output() == o
         case Error(e) => err == e != 0
    }

    /** Copies `length` bytes from `distance` back, reading `out[src + i % distance]`. */
    method CopyBack(distance: nat, length: nat) returns (ok: bool)
      requires Valid() && err == 0 && 1 <= distance <= outPos
      modifies this`outPos, this`err, out
      ensures Wrote(old(out[..]), old(outPos)) && Pos() == old(Pos())
      ensures var r := Delivered(CopyMatch(old(Output()), distance, length), old(Pos()), outCap);
              ok == r.Done? && Reached(r)
    {
      ghost var o, orig, start := Output(), out[..], outPos;
      var src := outPos - distance;
      assert Wrote(orig, start);
      hide Wrote, Unpack, Lsb;
      for i := 0 to length
        invariant Valid() && err == 0 && Pos() == old(Pos())
        invariant Output() == CopyMatch(o, distance, i)
        invariant Wrote(orig, start)
      {
        CopyIsPeriodic(o, distance, i + 1, i);
        assert out[src + i % distance] == Output()[src + i % distance] == o[src + i % distance];
        ok := EmitOn(out[src + i % distance], orig, start);
        if !ok {
          return false;
        }
      }
      ok := true;
    }

    // ----- Huffman codes -----

    /** Appends the next bit to a code word. */
    method NextBit(code: nat) returns (c: nat)
      requires Valid() && err == 0
      modifies this`inPos, this`bitBuf, this`bitCnt, this`err
      ensures Valid() && old(Pos()) <= |stream|
      ensures if old(Pos()) < |stream|
              then err == 0 && c == 2 * code + BitVal(stream[old(Pos())]) && Pos() == old(Pos()) + 1
              else err == ERR_NO_INPUT
    {
      ghost var p := Pos();
      var bit := ReadBits(1);
      c := 2 * code + bit;
      if p < |stream| {
        LsbBit(stream, p);
      }
    }

    /** One length of the walk: take one more bit and try the table. */
    method TryLength(t: HuffTable, ghost lens: lengths, b: nat, code: nat) returns (c: nat, r: Lookup)
      requires Valid() && err == 0 && t.Represents(lens) && 1 <= b <= MaxLen(lens)
      modifies this`inPos, this`bitBuf, this`bitCnt, this`err
      ensures Valid() && old(Pos()) <= |stream|
      ensures var walk := DecodeFrom(lens, stream, old(Pos()), b, code);
              if err != 0 then walk == BadSymbol(err)
              else if r.Found? then walk == Symbol(r.sym, Pos())
              else walk == DecodeFrom(lens, stream, Pos(), b + 1, c)
    {
      hide Unpack, Lsb, Msb, First, Offset, Count, Find;
      c := NextBit(code);
      r := NotFound;
      if err == 0 {
        r := t.Lookup(lens, b, c);
      }
    }

    /** Decodes one symbol with the table of the code with lengths `lens`. */
    method DecodeSymbol(t: HuffTable, ghost lens: lengths) returns (sym: int)
      requires Valid() && err == 0 && t.Represents(lens)
      modifies this`inPos, this`bitBuf, this`bitCnt, this`err
      ensures Valid()
      ensures match DecodeSym(lens, stream, old(Pos()))
              case Symbol(v, p) => sym == v && Pos() == p && err == 0
              case BadSymbol(e) => sym == -1 && err == e != 0
    {
      var code: nat := 0;
      var max := t.MaxBits(lens);
      for b := 1 to max + 1
        invariant Valid() && err == 0
        invariant DecodeSym(lens, stream, old(Pos())) == DecodeFrom(lens, stream, Pos(), b, code)
      {
        var r;
        code, r := TryLength(t, lens, b, code);
        if err != 0 {
          return -1;
        }
        if r.Found? {
          return r.sym;
        }
      }
      err := ERR_NO_CODE;
      sym := -1;
    }

    /** The table shares no memory with the output buffer. */
    ghost predicate Apart(t: HuffTable) {
      && t.counts as object != out && t.first as object != out
      && t.offset as object != out && t.syms as object != out
    }

    /** Reads the rest of a length/distance pair and its symbols' extra bits. */
    method ReadMatch(t: HuffTable, ghost dist: lengths, l: nat) returns (ok: bool, length: nat, distance: nat)
      requires Valid() && err == 0 && t.Represents(dist)
      modifies this`inPos, this`bitBuf, this`bitCnt, this`err
      ensures Valid()
      ensures match Deflate.ReadMatch(dist, stream, old(Pos()), l)
              case MatchRef(n, d, p) => ok && length == n && distance == d && Pos() == p && err == 0
              case BadMatch(e) => !ok && err == e != 0
    {
      hide Unpack, Lsb, DecodeSym;
      ok, length, distance := false, 0, 0;
      if l >= NUM_LEN_CODES {
        err := ERR_LENGTH_SYM;
        return;
      }
      var base, extra := LengthCode(l);
      var x := ReadBits(extra);
      length := base + x;
      if err != 0 {
        return;
      }
      ok, distance := ReadDistance(t, dist, length);
    }

    method ReadDistance(t: HuffTable, ghost dist: lengths, ghost length: nat) returns (ok: bool, distance: nat)
      requires Valid() && err == 0 && t.Represents(dist)
      modifies this`inPos, this`bitBuf, this`bitCnt, this`err
      ensures Valid()
      ensures match Deflate.ReadDistance(dist, stream, old(Pos()), length)
              case MatchRef(_, d, p) => ok && distance == d && Pos() == p && err == 0
              case BadMatch(e) => !ok && err == e != 0
    {
      hide Unpack, Lsb, DecodeSym;
      ok, distance := false, 0;
      var dsym := DecodeSymbol(t, dist);
      if err != 0 || dsym < 0 {
        return;
      }
      if dsym >= NUM_DIST_CODES {
        err := ERR_DIST_SYM;
        return;
      }
      var base, extra := DistanceCode(dsym);
      var x := ReadBits(extra);
      distance := base + x;
      ok := err == 0;
    }

    /** What one literal/length symbol other than the end of block does. */
    method ApplySymbol(t: HuffTable, ghost dist: lengths, sym: nat) returns (ok: bool)
      requires Valid() && err == 0 && t.Represents(dist) && sym != END_OF_BLOCK
      modifies this`inPos, this`bitBuf, this`bitCnt, this`outPos, this`err, out
      ensures Wrote(old(out[..]), old(outPos))
      ensures var r := ApplySym(dist, stream, old(Pos()), sym, old(Output()), outCap);
              ok == r.Done? && Reached(r)
    {
      if sym < END_OF_BLOCK {
        ok := Emit(sym as byte);
      } else {
        var length, distance;
        ok, length, distance := ReadMatch(t, dist, sym - 257);
        if ok {
          ok := CopyChecked(distance, length);
        }
      }
    }

    /** The back-reference, once its length and distance are known. */
    method CopyChecked(distance: nat, length: nat) returns (ok: bool)
      requires Valid() && err == 0 && 1 <= distance
      modifies this`outPos, this`err, out
      ensures Wrote(old(out[..]), old(outPos)) && Pos() == old(Pos())
      ensures var o := old(Output());
              var r := if distance > |o| then Error(ERR_DISTANCE) else Delivered(CopyMatch(o, distance, length), old(Pos()), outCap);
              ok == r.Done? && Reached(r)
    {
      if distance > outPos {
        err := ERR_DISTANCE;
        ok := false;
      } else {
        ok := CopyBack(distance, length);
      }
    }

    /** Decodes symbols until the end of the block. */
    method DecodeCodes(tl: HuffTable, td: HuffTable, ghost ll: lengths, ghost dist: lengths) returns (ok: bool)
      requires Valid() && err == 0 && tl.Represents(ll) && td.Represents(dist) && Apart(tl) && Apart(td)
      modifies this`inPos, this`bitBuf, this`bitCnt, this`outPos, this`err, out
      ensures Wrote(old(out[..]), old(outPos))
      ensures var r := Deflate.DecodeCodes(ll, dist, stream, old(Pos()), old(Output()), outCap);
              ok == r.Done? && Reached(r)
    {
      ghost var orig, start := out[..], outPos;
      ghost var r := Deflate.DecodeCodes(ll, dist, stream, Pos(), Output(), outCap);
      while true
        invariant Valid() && err == 0 && Wrote(orig, start)
        invariant tl.Represents(ll) && td.Represents(dist)
        invariant r == Deflate.DecodeCodes(ll, dist, stream, Pos(), Output(), outCap)
        decreases |stream| - Pos()
      {
        var sym := DecodeSymbol(tl, ll);
        if err != 0 || sym < 0 {
          return false;
        }
        if sym == END_OF_BLOCK {
          return true;
        }
        ghost var mid, k := out[..], outPos;
        ok := ApplySymbol(td, dist, sym);
        WroteTrans(orig, start, mid, k);
        if !ok {
          return;
        }
      }
    }

    // ----- blocks -----

    lemma WordValue(p: nat)
      requires Valid() && p + 2 <= |input|
      ensures Or(input[p] as nat, Shl(input[p + 1] as nat, 8)) == Lsb(stream[8 * p..8 * p + 16]) < 0x1_0000
    {
      hide Unpack, Or, Shl, Lsb;
      var lo, hi := stream[8 * p..8 * p + 8], stream[8 * p + 8..8 * p + 16];
      UnpackAt(input, p);
      UnpackAt(input, p + 1);
      LsbOfByteBits(input[p]);
      LsbOfByteBits(input[p + 1]);
      Pow2Eight();
      OrDisjoint(input[p] as nat, input[p + 1] as nat, 8);
      LsbAppend(lo, hi);
      assert lo + hi == stream[8 * p..8 * p + 16];
      ShlByte(input[p + 1] as nat);
    }

    /** Two input bytes as a little-endian word. */
    method Word(p: nat) returns (w: nat)
      requires Valid() && p + 2 <= |input|
      ensures w == Lsb(stream[8 * p..8 * p + 16]) < 0x1_0000
    {
      WordValue(p);
      w := Or(input[p] as nat, Shl(input[p + 1] as nat, 8));
    }

    /** The bytes of a stored block are input bytes. */
    lemma {:induction false} StoredBytes(q: nat, n: nat)
      requires Valid() && q + n <= |input|
      ensures BytesAt(stream, 8 * q, n) == input[q..q + n]
      decreases n
    {
      hide Unpack, Lsb;
      if n > 0 {
        StoredBytes(q, n - 1);
        UnpackAt(input, q + n - 1);
        LsbOfByteBits(input[q + n - 1]);
        assert input[q..q + n] == input[q..q + n - 1] + [input[q + n - 1]];
      }
    }

    /** One whole input byte further, with nothing buffered. */
    method StepOver()
      requires Valid() && bitCnt == 0 && inPos < |input|
      modifies this`inPos
      ensures Valid() && inPos == old(inPos) + 1
    {
      assert stream[8 * inPos..8 * inPos] == [];
      inPos := inPos + 1;
      assert stream[8 * inPos..8 * inPos] == [];
    }

    method CopyOne(ghost orig: seq<byte>, ghost start: nat) returns (ok: bool)
      requires Valid() && err == 0 && bitCnt == 0 && inPos < |input| && Wrote(orig, start)
      modifies this`inPos, this`outPos, this`err, out
      ensures Valid() && Wrote(orig, start) && inPos == old(inPos) + 1
      ensures if ok then err == 0 && Output() == old(Output()) + [input[old(inPos)]]
              else err == ERR_OUTPUT_FULL && |old(Output())| == outCap
    {
      hide Unpack, Lsb;
      ok := EmitOn(input[inPos], orig, start);
      StepOver();
    }

    /** Copies `len` input bytes to the output. */
    method CopyStored(len: nat) returns (ok: bool)
      requires Valid() && err == 0 && bitCnt == 0 && inPos + len <= |input|
      modifies this`inPos, this`outPos, this`err, out
      ensures Wrote(old(out[..]), old(outPos))
      ensures var r := Delivered(old(Output()) + input[old(inPos)..old(inPos) + len], old(Pos()) + 8 * len, outCap);
              ok == r.Done? && Reached(r)
    {
      ghost var o, orig, start, q := Output(), out[..], outPos, inPos;
      ok := true;
      assert Wrote(orig, start);
      hide Wrote, Unpack, Lsb;
      for i := 0 to len
        invariant Valid() && err == 0 && bitCnt == 0 && inPos == q + i && ok
        invariant Output() == o + input[q..q + i]
        invariant Wrote(orig, start)
      {
        ok := CopyOne(orig, start);
        if !ok {
          return;
        }
      }
    }

    method BlockStored() returns (ok: bool)
      requires Valid() && err == 0
      modifies this`inPos, this`bitBuf, this`bitCnt, this`outPos, this`err, out
      ensures Wrote(old(out[..]), old(outPos))
      ensures var r := DecodeStored(stream, old(Pos()), old(Output()), outCap);
              ok == r.Done? && Reached(r)
    {
      Align();
      Rewind();
      ok := false;
      if inPos + 4 > |input| {
        err := ERR_STORED_HEADER;
      } else {
        ok := StoredAfterAlign();
      }
    }

    /** Reads LEN and NLEN. */
    method StoredAfterAlign() returns (ok: bool)
      requires Valid() && err == 0 && bitCnt == 0 && inPos + 4 <= |input|
      modifies this`inPos, this`outPos, this`err, out
      ensures Wrote(old(out[..]), old(outPos))
      ensures var r := StoredAt(stream, old(Pos()), old(Output()), outCap);
              ok == r.Done? && Reached(r)
    {
      var len := Word(inPos);
      var nlen := Word(inPos + 2);
      inPos := inPos + 4;
      assert stream[8 * inPos..8 * inPos] == [];
      ok := StoredData(len, nlen);
    }

    /** Checks LEN against NLEN and copies the data. */
    method StoredData(len: nat, nlen: nat) returns (ok: bool)
      requires Valid() && err == 0 && bitCnt == 0 && len < 0x1_0000 && nlen < 0x1_0000
      modifies this`inPos, this`outPos, this`err, out
      ensures Wrote(old(out[..]), old(outPos))
      ensures var r := Deflate.StoredData(len, nlen, stream, old(Pos()), old(Output()), outCap);
              ok == r.Done? && Reached(r)
    {
      Pow2Sixteen();
      XorComplement(len, nlen, 16);
      ok := false;
      if Xor(len, nlen) != 0xFFFF {
        err := ERR_STORED_CHECK;
      } else if inPos + len > |input| {
        err := ERR_STORED_DATA;
      } else {
        StoredBytes(inPos, len);
        ok := CopyStored(len);
      }
    }

    static method FillLengths(a: array<nat>, lo: nat, hi: nat, v: nat)
      requires lo <= hi <= a.Length
      modifies a
      ensures a[..lo] == old(a[..lo])
      ensures a[..hi] == old(a[..lo]) + Repeat(v, hi - lo)
    {
      for i := lo to hi
        invariant a[..lo] == old(a[..lo])
        invariant a[..i] == old(a[..lo]) + Repeat(v, i - lo)
      {
        a[i] := v;
        assert a[..i + 1] == a[..i] + [v];
      }
    }

    static method FixedLit() returns (ll: lengths)
      ensures ll == FixedLitLengths()
    {
      var a := new nat[288];
      FillLengths(a, 0, 144, 8);
      FillLengths(a, 144, 256, 9);
      FillLengths(a, 256, 280, 7);
      FillLengths(a, 280, 288, 8);
      ll := a[..288];
    }

    static method FixedDist() returns (d: lengths)
      ensures d == FixedDistLengths()
    {
      var a := new nat[32];
      FillLengths(a, 0, 30, 5);
      FillLengths(a, 30, 32, 0);
      d := a[..32];
    }

    method BlockFixed() returns (ok: bool)
      requires Valid() && err == 0
      modifies this`inPos, this`bitBuf, this`bitCnt, this`outPos, this`err, out
      ensures Wrote(old(out[..]), old(outPos))
      ensures var r := DecodeFixed(stream, old(Pos()), old(Output()), outCap);
              ok == r.Done? && Reached(r)
    {
      hide Deflate.DecodeCodes, Unpack, Lsb;
      var ll := FixedLit();
      var d := FixedDist();
      ok := DecodeWith(ll, d);
    }

    /** Builds the two tables of a block and decodes its symbols. */
    method DecodeWith(ll: lengths, d: lengths) returns (ok: bool)
      requires Valid() && err == 0 && Legal(ll) && Legal(d) && |ll| <= MAX_SYMS && |d| <= MAX_SYMS
      modifies this`inPos, this`bitBuf, this`bitCnt, this`outPos, this`err, out
      ensures Wrote(old(out[..]), old(outPos))
      ensures var r := Deflate.DecodeCodes(ll, d, stream, old(Pos()), old(Output()), outCap);
              ok == r.Done? && Reached(r)
    {
      var tl := new HuffTable();
      var td := new HuffTable();
      var built := tl.Build(ll);
      built := td.Build(d);
      ok := DecodeCodes(tl, td, ll, d);
    }

    /** HLIT, HDIST and HCLEN; the error flag is looked at after all three. */
    method ReadCounts() returns (hlit: nat, hdist: nat, hclen: nat)
      requires Valid() && err == 0
      modifies this`inPos, this`bitBuf, this`bitCnt, this`err
      ensures Valid()
      ensures match ReadHeader(stream, old(Pos()))
              case BadHeader => err == ERR_INPUT
              case Header(l, d, c) => err == 0 && hlit == l && hdist == d && hclen == c && Pos() == old(Pos()) + 14
    {
      var l := ReadBits(5);
      var d := ReadBits(5);
      var c := ReadBits(4);
      hlit, hdist, hclen := l + 257, d + 1, c + 4;
    }

    /** The lengths of the code length code; the error flag is looked at after the loop. */
    method ReadClens(n: nat) returns (clen: lengths)
      requires Valid() && err == 0 && n <= NUM_CLEN_CODES
      modifies this`inPos, this`bitBuf, this`bitCnt, this`err
      ensures Valid()
      ensures if old(Pos()) + 3 * n <= |stream|
              then err == 0 && Pos() == old(Pos()) + 3 * n && clen == ClenLengths(stream, old(Pos()), n)
              else err == ERR_INPUT
    {
      ghost var p := Pos();
      clen := Repeat(0, NUM_CLEN_CODES);
      for i := 0 to n
        invariant Valid() && p <= |stream| && |clen| == NUM_CLEN_CODES
        invariant if p + 3 * i <= |stream|
                  then err == 0 && Pos() == p + 3 * i && clen == ClenLengths(stream, p, i)
                  else err == ERR_INPUT
      {
        var v := ReadBits(3);
        ClenOrderTable(i);
        clen := clen[CLEN_ORDER[i] := v];
      }
    }

    /** Writes `rep` copies of `v` from `i` on, but none at or past `total`. */
    static method FillRun(lens: array<nat>, i: nat, total: nat, v: nat, rep: nat) returns (j: nat)
      requires i <= total <= lens.Length
      modifies lens
      ensures j == i + Min(rep, total - i) && lens[..j] == old(lens[..i]) + Repeat(v, j - i)
    {
      j := i;
      while j - i < rep && j < total
        invariant i <= j <= total && j - i <= rep
        invariant lens[..j] == old(lens[..i]) + Repeat(v, j - i)
      {
        lens[j] := v;
        assert lens[..j + 1] == lens[..j] + [v];
        j := j + 1;
      }
    }

    /** What one code length symbol does. */
    method ApplyLength(lens: array<nat>, i: nat, total: nat, sym: nat) returns (ok: bool, j: nat)
      requires Valid() && err == 0 && i < total <= lens.Length && Legal(lens[..i])
      modifies this`inPos, this`bitBuf, this`bitCnt, this`err, lens
      ensures Valid()
      ensures match ApplyClen(stream, old(Pos()), sym, old(lens[..i]), total)
              case BadLengths(e) => !ok && err == e != 0
              case LengthsRead(ls, p) => ok && err == 0 && Pos() == p && j <= total && lens[..j] == ls
    {
      hide Unpack, Lsb;
      ok, j := true, i;
      if sym < 16 {
        lens[i] := sym;
        j := i + 1;
        assert lens[..j] == old(lens[..i]) + [sym];
      } else if sym == 16 && i == 0 {
        err := ERR_REPEAT;
        ok := false;
      } else {
        var v, bits, base := 0, 7, 11;
        if sym == 16 {
          v, bits, base := lens[i - 1], 2, 3;
        } else if sym == 17 {
          bits, base := 3, 3;
        }
        var x := ReadBits(bits);
        ok := err == 0;
        if ok {
          j := FillRun(lens, i, total, v, x + base);
        }
      }
    }

    /** Reads all the code lengths of a dynamic block. */
    method ReadAllLengths(t: HuffTable, ghost clen: lengths, total: nat) returns (ok: bool, lens: array<nat>)
      requires Valid() && err == 0 && t.Represents(clen) && total <= 320
      modifies this`inPos, this`bitBuf, this`bitCnt, this`err
      ensures Valid() && fresh(lens) && lens.Length == 320
      ensures match ReadLengths(clen, stream, old(Pos()), [], total)
              case BadLengths(e) => !ok && err == e != 0
              case LengthsRead(ls, p) => ok && err == 0 && Pos() == p && lens[..total] == ls
    {
      lens := new nat[320](_ => 0);
      var i: nat := 0;
      ok := true;
      ghost var r := ReadLengths(clen, stream, Pos(), [], total);
      while i < total
        invariant Valid() && err == 0 && ok && i <= total && Legal(lens[..i]) && t.Represents(clen)
        invariant r == ReadLengths(clen, stream, Pos(), lens[..i], total)
        decreases |stream| - Pos()
      {
        var sym := DecodeSymbol(t, clen);
        if err != 0 || sym < 0 {
          ok := false;
          return;
        }
        ok, i := ApplyLength(lens, i, total, sym);
        if !ok {
          return;
        }
      }
    }

    method BlockDynamic() returns (ok: bool)
      requires Valid() && err == 0
      modifies this`inPos, this`bitBuf, this`bitCnt, this`outPos, this`err, out
      ensures Wrote(old(out[..]), old(outPos))
      ensures var r := DecodeDynamic(stream, old(Pos()), old(Output()), outCap);
              ok == r.Done? && Reached(r)
    {
      var hlit, hdist, hclen := ReadCounts();
      ok := false;
      if err == 0 {
        ok := DynamicBody(hlit, hdist, hclen);
      }
    }

    /** The part of a dynamic block after its counts. */
    method DynamicBody(hlit: nat, hdist: nat, hclen: nat) returns (ok: bool)
      requires Valid() && err == 0 && hlit <= 288 && hdist <= 32 && hclen <= NUM_CLEN_CODES
      modifies this`inPos, this`bitBuf, this`bitCnt, this`outPos, this`err, out
      ensures Wrote(old(out[..]), old(outPos))
      ensures var r := Deflate.DynamicBody(hlit, hdist, hclen, stream, old(Pos()), old(Output()), outCap);
              ok == r.Done? && Reached(r)
    {
      hide Deflate.DynamicTail, ClenLengths, Unpack, Lsb;
      var clen := ReadClens(hclen);
      ok := false;
      if err == 0 {
        ok := DynamicTail(clen, hlit, hdist);
      }
    }

    /** The part of a dynamic block after the code length code's lengths. */
    method DynamicTail(clen: lengths, hlit: nat, hdist: nat) returns (ok: bool)
      requires Valid() && err == 0 && Legal(clen) && |clen| == NUM_CLEN_CODES
      requires hlit <= 288 && hdist <= 32
      modifies this`inPos, this`bitBuf, this`bitCnt, this`outPos, this`err, out
      ensures Wrote(old(out[..]), old(outPos))
      ensures var r := Deflate.DynamicTail(clen, hlit, hdist, stream, old(Pos()), old(Output()), outCap);
              ok == r.Done? && Reached(r)
    {
      hide Deflate.ReadLengths, Deflate.DecodeCodes, Unpack, Lsb;
      var t := new HuffTable();
      var built := t.Build(clen);
      var lens;
      ok, lens := ReadAllLengths(t, clen, hlit + hdist);
      if ok {
        ghost var ls := lens[..hlit + hdist];
        assert lens[..hlit] == ls[..hlit] && lens[hlit..hlit + hdist] == ls[hlit..];
        ok := DecodeWith(lens[..hlit], lens[hlit..hlit + hdist]);
      }
    }

    method Block(btype: nat) returns (ok: bool)
      requires Valid() && err == 0
      modifies this`inPos, this`bitBuf, this`bitCnt, this`outPos, this`err, out
      ensures Wrote(old(out[..]), old(outPos))
      ensures var r := DecodeBlock(btype, stream, old(Pos()), old(Output()), outCap);
              ok == r.Done? && Reached(r)
    {
      if btype == 0 {
        ok := BlockStored();
      } else if btype == 1 {
        ok := BlockFixed();
      } else if btype == 2 {
        ok := BlockDynamic();
      } else {
        err := ERR_BLOCK_TYPE;
        ok := false;
      }
    }

    /** BFINAL and BTYPE. */
    method BlockHeader() returns (bfinal: nat, btype: nat)
      requires Valid() && err == 0
      modifies this`inPos, this`bitBuf, this`bitCnt, this`err
      ensures Valid()
      ensures if old(Pos()) + 3 <= |stream|
              then err == 0 && Pos() == old(Pos()) + 3 && bfinal == BitVal(stream[old(Pos())]) &&
                   btype == Lsb(stream[old(Pos()) + 1..old(Pos()) + 3])
              else err == ERR_INPUT
    {
      ghost var p := Pos();
      bfinal := ReadBits(1);
      btype := ReadBits(2);
      if p < |stream| {
        LsbBit(stream, p);
      }
    }

    /** One round of the block loop. */
    method NextBlock() returns (ok: bool, bfinal: nat)
      requires Valid() && err == 0
      modifies this`inPos, this`bitBuf, this`bitCnt, this`outPos, this`err, out
      ensures Wrote(old(out[..]), old(outPos))
      ensures var r := Deflate.Inflate(stream, old(Pos()), old(Output()), outCap);
              if ok && bfinal == 0
              then Valid() && err == 0 && Pos() > old(Pos()) && r == Deflate.Inflate(stream, Pos(), Output(), outCap)
              else ok == r.Done? && Reached(r)
    {
      hide Unpack, Lsb, DecodeBlock;
      var btype;
      bfinal, btype := BlockHeader();
      ok := false;
      if err == 0 {
        ok := Block(btype);
      }
    }

    /**
     Decodes the whole stream: the outcome is the one the bit string of the input determines,
     and no byte of the buffer outside the new output is written.
     */
    method InflateRaw() returns (ok: bool)
      requires Valid() && err == 0
      modifies this`inPos, this`bitBuf, this`bitCnt, this`outPos, this`err, out
      ensures Wrote(old(out[..]), old(outPos))
      ensures var r := Deflate.Inflate(stream, old(Pos()), old(Output()), outCap);
              ok == r.Done? && Reached(r)
    {
      ghost var orig, start := out[..], outPos;
      var bfinal: nat := 0;
      ok := true;
      while ok && bfinal == 0
        invariant Wrote(orig, start)
        invariant var r := Deflate.Inflate(stream, old(Pos()), old(Output()), outCap);
                  if ok && bfinal == 0
                  then Valid() && err == 0 && r == Deflate.Inflate(stream, Pos(), Output(), outCap)
                  else ok == r.Done? && Reached(r)
        decreases ok && bfinal == 0, |stream| - Pos()
      {
        ghost var mid, k := out[..], outPos;
        ok, bfinal := NextBlock();
        WroteTrans(orig, start, mid, k);
      }
    }
  }
}
