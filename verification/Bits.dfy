/**
 Bit strings. DEFLATE is defined on a stream of bits; the bytes of the input carry it
 least significant bit first. Integers inside the stream come in two orders: LSB first
 (`Lsb`, for header fields and extra bits) and MSB first (`Msb`, for Huffman codes).

 The C operators on unsigned words, `v << n`, `v >> n`, `v & ((1 << n) - 1)` and `|`, are
 the functions `Shl`, `Shr`, `Low` and `Or` on naturals.
 */
module Bits {
  newtype byte = x: int | 0 <= x < 256

  type bits = seq<bool>

  function BitVal(b: bool): (v: nat) { if b then 1 else 0 }

  function Shl(v: nat, n: nat): (r: nat) { if n == 0 then v else 2 * Shl(v, n - 1) }

  function Shr(v: nat, n: nat): (r: nat) { if n == 0 then v else Shr(v / 2, n - 1) }

  function Low(v: nat, n: nat): (r: nat) { if n == 0 then 0 else v % 2 + 2 * Low(v / 2, n - 1) }

  function Or(a: nat, b: nat): (r: nat)
    decreases a + b
  {
    if a == 0 && b == 0 then 0
    else (if a % 2 == 1 || b % 2 == 1 then 1 else 0) + 2 * Or(a / 2, b / 2)
  }

  function Pow2(n: nat): (p: nat) { Shl(1, n) }

  lemma {:induction false} ShlSum(a: nat, b: nat, n: nat)
    ensures Shl(a + b, n) == Shl(a, n) + Shl(b, n)
  {
    if n > 0 { ShlSum(a, b, n - 1); }
  }

  lemma {:induction false} ShlShl(v: nat, m: nat, n: nat)
    ensures Shl(Shl(v, m), n) == Shl(v, m + n)
  {
    if n > 0 { ShlShl(v, m, n - 1); }
  }

  /** Shifting keeps the order, strictly and not. */
  lemma {:induction false} ShlOrder(a: nat, b: nat, n: nat)
    ensures Shl(a, n) <= Shl(b, n) <==> a <= b
  {
    if n > 0 { ShlOrder(a, b, n - 1); }
  }

  lemma {:induction false} Pow2Mono(a: nat, b: nat)
    requires a <= b
    ensures Pow2(a) <= Pow2(b)
  {
    if a < b { Pow2Mono(a, b - 1); }
  }

  lemma {:induction false} ShlDouble(v: nat, n: nat)
    ensures Shl(2 * v, n) == 2 * Shl(v, n)
  {
    if n > 0 { ShlDouble(v, n - 1); }
  }

  lemma ShlByte(v: nat)
    ensures Shl(v, 8) == 256 * v
  {
    assert Shl(v, 1) == 2 * v;
    assert Shl(v, 2) == 4 * v;
    assert Shl(v, 3) == 8 * v;
    assert Shl(v, 4) == 16 * v;
    assert Shl(v, 5) == 32 * v;
    assert Shl(v, 6) == 64 * v;
    assert Shl(v, 7) == 128 * v;
  }

  /** `|` adds when the operands have no set bit in common. */
  lemma {:induction false} OrDisjoint(a: nat, b: nat, n: nat)
    requires a < Pow2(n)
    ensures Or(a, Shl(b, n)) == a + Shl(b, n)
    decreases n, b
  {
    if n == 0 {
      OrZero(b);
    } else {
      OrDisjoint(a / 2, b, n - 1);
    }
  }

  lemma {:induction false} OrZero(b: nat)
    ensures Or(0, b) == b
  {
    if b > 0 { OrZero(b / 2); }
  }

  function Xor(a: nat, b: nat): (r: nat)
    decreases a + b
  {
    if a == 0 && b == 0 then 0
    else (if a % 2 != b % 2 then 1 else 0) + 2 * Xor(a / 2, b / 2)
  }

  /** `a ^ b` has all its `n` bits set exactly when `a` and `b` are complements. */
  lemma {:induction false} XorComplement(a: nat, b: nat, n: nat)
    requires a < Pow2(n) && b < Pow2(n)
    ensures Xor(a, b) == Pow2(n) - 1 <==> a + b == Pow2(n) - 1
  {
    if n > 0 {
      XorComplement(a / 2, b / 2, n - 1);
    }
  }

  // ----- numbers as bit strings -----

  /** Value of a bit string whose first bit is the least significant. */
  function Lsb(s: bits): (v: nat)
  {
    if s == [] then 0 else BitVal(s[0]) + 2 * Lsb(s[1..])
  }

  /** Value of a bit string whose first bit is the most significant. */
  function Msb(s: bits): (v: nat)
  {
    if s == [] then 0 else 2 * Msb(s[..|s| - 1]) + BitVal(s[|s| - 1])
  }

  /** `v` in `n` bits, least significant first. */
  function ToLsb(v: nat, n: nat): (s: bits)
    ensures |s| == n
  {
    if n == 0 then []
    else if v >= Pow2(n - 1) then ToLsb(v - Pow2(n - 1), n - 1) + [true]
    else ToLsb(v, n - 1) + [false]
  }

  /** `v` in `n` bits, most significant first. */
  function ToMsb(v: nat, n: nat): (s: bits)
    ensures |s| == n
  {
    if n == 0 then []
    else if v >= Pow2(n - 1) then [true] + ToMsb(v - Pow2(n - 1), n - 1)
    else [false] + ToMsb(v, n - 1)
  }

  lemma {:induction false} LsbBound(s: bits)
    ensures Lsb(s) < Pow2(|s|)
  {
    if s != [] { LsbBound(s[1..]); }
  }

  lemma {:induction false} LsbAppend(a: bits, b: bits)
    ensures Lsb(a + b) == Lsb(a) + Shl(Lsb(b), |a|)
  {
    if a == [] {
      assert a + b == b;
    } else {
      assert (a + b)[1..] == a[1..] + b;
      LsbAppend(a[1..], b);
    }
  }

  lemma LsbBit(s: bits, p: nat)
    requires p < |s|
    ensures Lsb(s[p..p + 1]) == BitVal(s[p])
  {
    assert s[p..p + 1][1..] == [];
  }

  lemma {:induction false} MsbAppend(a: bits, b: bool)
    ensures Msb(a + [b]) == 2 * Msb(a) + BitVal(b)
  {
    assert (a + [b])[..|a|] == a;
  }

  /** Taking bits off the front of an LSB-first word is masking and shifting it right. */
  lemma {:induction false} LsbSplit(s: bits, n: nat)
    requires n <= |s|
    ensures Lsb(s[..n]) == Low(Lsb(s), n)
    ensures Lsb(s[n..]) == Shr(Lsb(s), n)
  {
    if n > 0 {
      LsbSplit(s[1..], n - 1);
      assert s[..n][1..] == s[1..][..n - 1];
      assert s[n..] == s[1..][n - 1..];
    } else {
      assert s[0..] == s;
    }
  }

  lemma {:induction false} LsbRoundTrip(v: nat, n: nat)
    requires v < Pow2(n)
    ensures Lsb(ToLsb(v, n)) == v
  {
    if n > 0 {
      var high := v >= Pow2(n - 1);
      var w := if high then v - Pow2(n - 1) else v;
      LsbRoundTrip(w, n - 1);
      LsbAppend(ToLsb(w, n - 1), [high]);
      LsbOne(high, n - 1);
    }
  }

  lemma LsbOne(b: bool, n: nat)
    ensures Shl(Lsb([b]), n) == if b then Pow2(n) else 0
  {
    assert [b][1..] == [];
    ShlSum(0, 0, n);
  }

  /** A leading bit weighs the power of two of the bits after it. */
  lemma {:induction false} MsbCons(b: bool, s: bits)
    ensures Msb([b] + s) == (if b then Pow2(|s|) else 0) + Msb(s)
    decreases |s|
  {
    if s == [] {
      assert [b] + s == [b] && [b][..0] == [];
    } else {
      MsbCons(b, s[..|s| - 1]);
      assert ([b] + s)[..|s|] == [b] + s[..|s| - 1];
    }
  }

  lemma {:induction false} MsbBound(s: bits)
    ensures Msb(s) < Pow2(|s|)
  {
    if s != [] { MsbBound(s[..|s| - 1]); }
  }

  lemma {:induction false} MsbRoundTrip(v: nat, n: nat)
    requires v < Pow2(n)
    ensures Msb(ToMsb(v, n)) == v
  {
    if n > 0 {
      var high := v >= Pow2(n - 1);
      var w := if high then v - Pow2(n - 1) else v;
      MsbRoundTrip(w, n - 1);
      MsbCons(high, ToMsb(w, n - 1));
    }
  }

  lemma {:induction false} ToMsbOfMsb(s: bits)
    ensures ToMsb(Msb(s), |s|) == s
  {
    if s != [] {
      assert s == [s[0]] + s[1..];
      ToMsbOfMsb(s[1..]);
      MsbCons(s[0], s[1..]);
      MsbBound(s[1..]);
    }
  }

  lemma {:induction false} ToLsbOfLsb(s: bits)
    ensures ToLsb(Lsb(s), |s|) == s
  {
    if s != [] {
      var init, last := s[..|s| - 1], s[|s| - 1];
      assert s == init + [last];
      ToLsbOfLsb(init);
      LsbAppend(init, [last]);
      LsbOne(last, |init|);
      LsbBound(init);
    }
  }

  /** A code word that is at least `e` shifted up has its leading bits at least `e`. */
  lemma {:induction false} MsbHead(c: bits, b: nat, e: nat)
    requires b <= |c| && Shl(e, |c| - b) <= Msb(c)
    ensures e <= Msb(c[..b])
    decreases |c|
  {
    if b < |c| {
      MsbHead(c[..|c| - 1], b, e);
      assert c[..|c| - 1][..b] == c[..b];
    } else {
      assert c[..b] == c;
    }
  }

  // ----- bytes carrying bits -----

  /** The eight bits of a byte in stream order. */
  function ByteBits(b: byte): (s: bits)
    ensures |s| == 8
  {
    ToLsb(b as nat, 8)
  }

  lemma LsbOfByteBits(b: byte)
    ensures Lsb(ByteBits(b)) == b as nat
  {
    Pow2Eight();
    LsbRoundTrip(b as nat, 8);
  }

  lemma Pow2Eight()
    ensures Pow2(8) == 256
  {}

  lemma Pow2Sixteen()
    ensures Pow2(16) == 0x1_0000
  {
    Pow2Eight();
    ShlShl(1, 8, 8);
    ShlByte(256);
  }

  /** The bit stream carried by a byte string. */
  function Unpack(data: seq<byte>): (s: bits)
    ensures |s| == 8 * |data|
  {
    if data == [] then [] else ByteBits(data[0]) + Unpack(data[1..])
  }

  lemma {:induction false} UnpackAppend(a: seq<byte>, b: seq<byte>)
    ensures Unpack(a + b) == Unpack(a) + Unpack(b)
  {
    if a == [] {
      assert a + b == b;
    } else {
      assert (a + b)[1..] == a[1..] + b;
      UnpackAppend(a[1..], b);
    }
  }

  lemma {:induction false} UnpackDrop(data: seq<byte>, i: nat)
    requires i <= |data|
    ensures Unpack(data)[8 * i..] == Unpack(data[i..])
  {
    if i > 0 {
      UnpackDrop(data[1..], i - 1);
      assert data[1..][i - 1..] == data[i..];
      assert Unpack(data)[8 * i..] == Unpack(data[1..])[8 * (i - 1)..];
    } else {
      assert data[0..] == data;
    }
  }

  /** Byte `i` occupies the bits `8*i .. 8*i+8`. */
  lemma UnpackAt(data: seq<byte>, i: nat)
    requires i < |data|
    ensures Unpack(data)[8 * i..8 * i + 8] == ByteBits(data[i])
  {
    UnpackDrop(data, i);
    assert Unpack(data)[8 * i..8 * i + 8] == Unpack(data)[8 * i..][..8];
  }

  function Take8(s: bits): (b: byte)
    requires |s| == 8
  {
    LsbBound(s); Pow2Eight();
    Lsb(s) as byte
  }

  /** Packs a bit string into bytes, padding the last byte with zero bits. */
  function Pack(s: bits): (data: seq<byte>)
    decreases |s|
  {
    if s == [] then []
    else if |s| < 8 then [Take8(s + ToLsb(0, 8 - |s|))]
    else [Take8(s[..8])] + Pack(s[8..])
  }

  /** Packing keeps the bit string as a prefix, and adds less than one byte of padding. */
  lemma {:induction false} PackUnpack(s: bits)
    ensures s <= Unpack(Pack(s))
    ensures |Unpack(Pack(s))| < |s| + 8
    decreases |s|
  {
    if s == [] {
    } else if |s| < 8 {
      var t := s + ToLsb(0, 8 - |s|);
      ToLsbOfLsb(t);
      assert Pack(s)[1..] == [];
    } else {
      ToLsbOfLsb(s[..8]);
      PackUnpack(s[8..]);
      assert Pack(s)[1..] == Pack(s[8..]);
      assert s == s[..8] + s[8..];
    }
  }
}
