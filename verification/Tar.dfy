/**
 The tar walker: finds the application binary and the manifest inside an archive held in
 memory, without copying. The last matching regular file of each kind wins.
 */
module Tar {
  import opened Bits
  import opened Errnos
  import opened Slices

  const BLOCK: nat := 512
  const SIZE_AT: nat := 124
  const SIZE_LEN: nat := 12
  const TYPE_AT: nat := 156
  const NAME_LEN: nat := 100
  const SLASH: byte := 47
  const DIGIT0: byte := 48

  /** Wrap-around of the 32-bit `size_t` of the boards. */
  const SIZE_MOD: nat := 0x1_0000_0000

  const APP_WASM: seq<byte> := [97, 112, 112, 46, 119, 97, 115, 109]
  const APP_AOT: seq<byte> := [97, 112, 112, 46, 97, 111, 116]
  const MANIFEST: seq<byte> := [109, 97, 110, 105, 102, 101, 115, 116, 46, 106, 115, 111, 110]

  datatype Slice = Slice(pos: nat, len: nat)

  datatype Found = Found(wasm: Option<Slice>, manifest: Option<Slice>)

  // ----- what the walker computes -----

  predicate IsOctal(b: byte) { DIGIT0 <= b <= 55 }

  /** Continues reading octal digits with `v` read so far; stops at the first other byte. */
  function OctalFrom(field: seq<byte>, v: nat): (r: nat)
    requires v < SIZE_MOD
    ensures r < SIZE_MOD
    decreases |field|
  {
    if field == [] || !IsOctal(field[0]) then v
    else OctalFrom(field[1..], (v * 8 + (field[0] - DIGIT0) as nat) % SIZE_MOD)
  }

  /** The zero-terminated string at `pos`; the end of the buffer also ends it. */
  function CString(tar: seq<byte>, pos: nat): (r: seq<byte>)
    decreases |tar| - pos
  {
    if pos >= |tar| || tar[pos] == 0 then [] else [tar[pos]] + CString(tar, pos + 1)
  }

  /** What follows the last slash. */
  function Base(name: seq<byte>): (r: seq<byte>)
  {
    if name == [] || name[|name| - 1] == SLASH then [] else Base(name[..|name| - 1]) + [name[|name| - 1]]
  }

  predicate IsApp(name: seq<byte>) { Base(name) == APP_WASM || Base(name) == APP_AOT }

  predicate IsManifest(name: seq<byte>) { Base(name) == MANIFEST }

  predicate IsRegular(ttype: byte) { ttype == DIGIT0 || ttype == 0 }

  function Record(f: Found, name: seq<byte>, ttype: byte, data: Slice): (r: Found) {
    if !IsRegular(ttype) then f
    else if IsApp(name) then f.(wasm := Some(data))
    else if IsManifest(name) then f.(manifest := Some(data))
    else f
  }

  function RoundUp(size: nat): (r: nat)
    ensures size <= r < size + BLOCK && r % BLOCK == 0
  {
    (size + BLOCK - 1) / BLOCK * BLOCK
  }

  predicate ZeroBlock(tar: seq<byte>, pos: nat)
    requires pos + BLOCK <= |tar|
  {
    forall k :: pos <= k < pos + BLOCK ==> tar[k] == 0
  }

  function FileSize(tar: seq<byte>, pos: nat): (r: nat)
    requires pos + BLOCK <= |tar|
  {
    OctalFrom(tar[pos + SIZE_AT..pos + SIZE_AT + SIZE_LEN], 0)
  }

  predicate InBounds(tar: seq<byte>, s: Option<Slice>) {
    s.Some? ==> s.value.pos + s.value.len <= |tar|
  }

  /** The walk from the header at `pos`; whatever the bytes are, the slices it returns lie inside them. */
  function Walk(tar: seq<byte>, pos: nat, f: Found): (r: Found)
    ensures InBounds(tar, f.wasm) ==> InBounds(tar, r.wasm)
    ensures InBounds(tar, f.manifest) ==> InBounds(tar, r.manifest)
    decreases |tar| - pos
  {
    if pos + BLOCK > |tar| || ZeroBlock(tar, pos) then f
    else
      var size := FileSize(tar, pos);
      var p := pos + BLOCK;
      if size > |tar| || p > |tar| - size then f
      else Walk(tar, p + RoundUp(size), Record(f, CString(tar, pos), tar[pos + TYPE_AT], Slice(p, size)))
  }

  function Extract(tar: seq<byte>): (r: Result<(Slice, Slice)>)
    ensures r.Ok? ==> InBounds(tar, Some(r.value.0)) && InBounds(tar, Some(r.value.1))
  {
    match Walk(tar, 0, Found(None, None))
    case Found(Some(w), Some(m)) => Ok((w, m))
    case _ => Err(ENOENT)
  }

  // ----- the code -----

  method TarOctal(field: seq<byte>) returns (v: nat)
    ensures v == OctalFrom(field, 0)
  {
    v := 0;
    for i := 0 to |field|
      invariant v < SIZE_MOD
      invariant OctalFrom(field, 0) == OctalFrom(field[i..], v)
    {
      var c := field[i];
      assert field[i..][0] == c && field[i..][1..] == field[i + 1..];
      if c < DIGIT0 || c > 55 {
        return;
      }
      v := (v * 8 + (c - DIGIT0) as nat) % SIZE_MOD;
    }
    assert field[|field|..] == [];
  }

  method AllZero(tar: seq<byte>, pos: nat) returns (z: bool)
    requires pos + BLOCK <= |tar|
    ensures z == ZeroBlock(tar, pos)
  {
    z := true;
    var k := 0;
    while k < BLOCK && z
      invariant k <= BLOCK
      invariant z <==> forall j :: pos <= j < pos + k ==> tar[j] == 0
    {
      if tar[pos + k] != 0 {
        z := false;
      }
      k := k + 1;
    }
  }

  /** `strrchr(name, '/')`, then the byte after it or the whole name. */
  method BaseName(tar: seq<byte>, pos: nat) returns (base: seq<byte>)
    requires pos <= |tar|
    ensures base == Base(CString(tar, pos))
  {
    var p, start := pos, pos;
    NameStart(tar, pos);
    hide Base, CString;
    while p < |tar| && tar[p] != 0
      invariant pos <= start <= p <= |tar|
      invariant CString(tar, pos) == tar[pos..p] + CString(tar, p)
      invariant Base(tar[pos..p]) == tar[start..p]
    {
      NameStep(tar, pos, p, start, CString(tar, pos));
      if tar[p] == SLASH {
        start := p + 1;
      }
      p := p + 1;
    }
    NameEnd(tar, pos, p, CString(tar, pos));
    base := tar[start..p];
  }

  lemma NameStart(tar: seq<byte>, pos: nat)
    requires pos <= |tar|
    ensures CString(tar, pos) == tar[pos..pos] + CString(tar, pos) && Base(tar[pos..pos]) == tar[pos..pos]
  {
    assert tar[pos..pos] == [];
  }

  lemma NameEnd(tar: seq<byte>, pos: nat, p: nat, name: seq<byte>)
    requires pos <= p <= |tar| && (p < |tar| ==> tar[p] == 0) && name == tar[pos..p] + CString(tar, p)
    ensures name == tar[pos..p]
  {}

  /** The scanned part of a name grows by one byte. */
  lemma NameStep(tar: seq<byte>, pos: nat, p: nat, start: nat, name: seq<byte>)
    requires pos <= start <= p < |tar| && tar[p] != 0 && Base(tar[pos..p]) == tar[start..p]
    ensures name == tar[pos..p] + CString(tar, p) ==> name == tar[pos..p + 1] + CString(tar, p + 1)
    ensures Base(tar[pos..p + 1]) == tar[if tar[p] == SLASH then p + 1 else start..p + 1]
  {
    assert tar[start..p + 1] == tar[start..p] + [tar[p]];
    assert tar[pos..p + 1] == tar[pos..p] + [tar[p]];
    assert tar[pos..p + 1][..p - pos] == tar[pos..p];
  }

  method TarExtract(tar: seq<byte>) returns (r: Result<(Slice, Slice)>)
    ensures r == Extract(tar)
  {
    var wasm, manifest: Option<Slice> := None, None;
    var pos: nat := 0;
    while pos + BLOCK <= |tar|
      invariant Walk(tar, 0, Found(None, None)) == Walk(tar, pos, Found(wasm, manifest))
      decreases |tar| - pos
    {
      var z := AllZero(tar, pos);
      if z {
        break;
      }
      var size := TarOctal(tar[pos + SIZE_AT..pos + SIZE_AT + SIZE_LEN]);
      var ttype := tar[pos + TYPE_AT];
      var base := BaseName(tar, pos);
      ghost var name, f := CString(tar, pos), Found(wasm, manifest);
      pos := pos + BLOCK;
      if size > |tar| || pos > |tar| - size {
        break;
      }
      if ttype == DIGIT0 || ttype == 0 {
        if base == APP_WASM || base == APP_AOT {
          wasm := Some(Slice(pos, size));
        } else if base == MANIFEST {
          manifest := Some(Slice(pos, size));
        }
      }
      assert Found(wasm, manifest) == Record(f, name, ttype, Slice(pos, size));
      pos := pos + RoundUp(size);
    }
    if wasm.None? || manifest.None? {
      return Err(ENOENT);
    }
    r := Ok((wasm.value, manifest.value));
  }

  // ----- archives -----

  /** `v` in `n` octal digits, most significant first. */
  function OctalDigits(v: nat, n: nat): (r: seq<byte>)
    ensures |r| == n
  {
    if n == 0 then [] else OctalDigits(v / 8, n - 1) + ["01234567"[v % 8] as byte]
  }

  function Pow8(n: nat): (r: nat) { if n == 0 then 1 else 8 * Pow8(n - 1) }

  /** An archive member: a header block, the file's bytes and the padding to a block boundary. */
  datatype Entry = Entry(head: seq<byte>, name: seq<byte>, digits: nat, data: seq<byte>, pad: seq<byte>) {
    predicate WellFormed() {
      && |head| == BLOCK
      && |name| < NAME_LEN && 0 !in name && head[..|name|] == name && head[|name|] == 0
      && 1 <= digits <= 12 && |data| < Pow8(digits)
      && head[SIZE_AT..SIZE_AT + digits] == OctalDigits(|data|, digits)
      && (digits < 12 ==> head[SIZE_AT + digits] < 48 || head[SIZE_AT + digits] > 55)
      && |data| + |pad| == RoundUp(|data|)
    }

    function Bytes(): (r: seq<byte>) { head + (data + pad) }

    predicate IsAppFile() requires WellFormed() { IsRegular(head[TYPE_AT]) && IsApp(name) }

    predicate IsManifestFile() requires WellFormed() { IsRegular(head[TYPE_AT]) && IsManifest(name) }
  }

  datatype Archive = End | Member(e: Entry, rest: Archive) {
    predicate WellFormed() {
      Member? ==> e.WellFormed() && rest.WellFormed()
    }

    function Bytes(): (r: seq<byte>) {
      match this
      case End => []
      case Member(e, rest) => e.Bytes() + rest.Bytes()
    }

    /** The contents of the last application binary. */
    function LastApp(): (r: Option<seq<byte>>)
      requires WellFormed()
    {
      match this
      case End => None
      case Member(e, rest) =>
        if rest.LastApp().Some? then rest.LastApp() else if e.IsAppFile() then Some(e.data) else None
    }

    /** The contents of the last manifest. */
    function LastManifest(): (r: Option<seq<byte>>)
      requires WellFormed()
    {
      match this
      case End => None
      case Member(e, rest) =>
        if rest.LastManifest().Some? then rest.LastManifest() else if e.IsManifestFile() then Some(e.data) else None
    }
  }

  /** The walk stops at `pos`: less than a block is left, a block of zeros, or a header whose file is cut short. */
  predicate Ends(tar: seq<byte>, pos: nat) {
    pos + 512 > |tar| || ZeroBlock(tar, pos) || pos + 512 + FileSize(tar, pos) > |tar|
  }

  function Contents(tar: seq<byte>, s: Option<Slice>): (r: Option<seq<byte>>)
    requires s.Some? ==> s.value.pos + s.value.len <= |tar|
  {
    if s.Some? then Some(tar[s.value.pos..s.value.pos + s.value.len]) else None
  }

  lemma {:induction false} OctalFromDigits(v: nat, n: nat, rest: seq<byte>)
    requires v < Pow8(n) && v < SIZE_MOD
    ensures OctalFrom(OctalDigits(v, n) + rest, 0) == OctalFrom(rest, v)
    decreases n
  {
    hide OctalFrom, Pow8;
    if n == 0 {
      ZeroPower(v);
      assert OctalDigits(v, n) + rest == rest;
    } else {
      var d := "01234567"[v % 8] as byte;
      assert d == DIGIT0 + (v % 8) as byte;
      LessPower(v, n);
      assert OctalDigits(v, n) + rest == OctalDigits(v / 8, n - 1) + ([d] + rest);
      OctalFromDigits(v / 8, n - 1, [d] + rest);
      assert v / 8 * 8 + v % 8 == v;
      OctalStep(d, v / 8, rest);
    }
  }

  lemma ZeroPower(v: nat)
    requires v < Pow8(0)
    ensures v == 0
  {
  }

  lemma LessPower(v: nat, n: nat)
    requires v < Pow8(n) && n > 0
    ensures v / 8 < Pow8(n - 1)
  {
  }

  lemma OctalStep(b: byte, v: nat, rest: seq<byte>)
    requires IsOctal(b) && v * 8 + (b - DIGIT0) as nat < SIZE_MOD
    ensures OctalFrom([b] + rest, v) == OctalFrom(rest, v * 8 + (b - DIGIT0) as nat)
  {
    assert ([b] + rest)[1..] == rest;
  }

  lemma {:induction false} CStringOf(tar: seq<byte>, pos: nat, name: seq<byte>)
    requires 0 !in name && pos + |name| < |tar|
    requires tar[pos..pos + |name|] == name && tar[pos + |name|] == 0
    ensures CString(tar, pos) == name
    decreases |name|
  {
    if name != [] {
      assert tar[pos] == name[0];
      assert tar[pos + 1..pos + |name|] == name[1..];
      CStringOf(tar, pos + 1, name[1..]);
    }
  }

  /** The header block of a member gives back its name, size and type, and is not a block of zeros. */
  lemma FirstPart(s: seq<byte>, pos: nat, n: nat, k: nat)
    requires k <= n && pos + n <= |s|
    ensures s[pos..pos + n][..k] == s[pos..pos + k]
    ensures s[pos..pos + n] == s[pos..pos + k] + s[pos..pos + n][k..]
  {
  }

  lemma SliceOfSlice(s: seq<byte>, pos: nat, n: nat, a: nat, k: nat)
    requires pos + n <= |s| && a + k <= n
    ensures s[pos..pos + n][a..a + k] == s[pos + a..pos + a + k]
  {
    var l, r := s[pos..pos + n][a..a + k], s[pos + a..pos + a + k];
    assert |l| == |r| && forall i :: 0 <= i < k ==> l[i] == r[i];
    assert l == r;
  }

  lemma NameReads(e: Entry, tar: seq<byte>, pos: nat)
    requires e.WellFormed() && Standing(tar, pos, e.head)
    ensures CString(tar, pos) == e.name && pos + BLOCK <= |tar| && tar[pos + TYPE_AT] == e.head[TYPE_AT]
  {
    hide OctalDigits, Pow8, RoundUp;
    var n, h := |e.name|, tar[pos..pos + BLOCK];
    assert h == e.head;
    assert tar[pos..pos + n] == h[..n] && tar[pos + n] == h[n];
    CStringOf(tar, pos, e.name);
  }

  lemma SizeReads(e: Entry, tar: seq<byte>, pos: nat)
    requires e.WellFormed() && Standing(tar, pos, e.head) && |tar| < SIZE_MOD && |e.data| <= |tar|
    ensures pos + BLOCK <= |tar| && FileSize(tar, pos) == |e.data| && !ZeroBlock(tar, pos)
  {
    hide OctalDigits, Pow8, RoundUp;
    var field := tar[pos + SIZE_AT..pos + SIZE_AT + SIZE_LEN];
    assert tar[pos..pos + BLOCK] == e.head;
    SliceOfSlice(tar, pos, BLOCK, SIZE_AT, SIZE_LEN);
    FirstPart(e.head, SIZE_AT, SIZE_LEN, e.digits);
    OctalFromDigits(|e.data|, e.digits, field[e.digits..]);
    assert e.digits < SIZE_LEN ==> field[e.digits..][0] == e.head[SIZE_AT + e.digits];
    FirstDigit(|e.data|, e.digits);
    assert tar[pos + SIZE_AT] == field[0] != 0;
  }

  lemma HeaderReads(e: Entry, tar: seq<byte>, pos: nat)
    requires e.WellFormed() && Standing(tar, pos, e.head) && |tar| < SIZE_MOD && |e.data| <= |tar|
    ensures pos + BLOCK <= |tar| && CString(tar, pos) == e.name && FileSize(tar, pos) == |e.data|
    ensures tar[pos + TYPE_AT] == e.head[TYPE_AT] && !ZeroBlock(tar, pos)
  {
    hide Entry.WellFormed, Standing, CString, FileSize, ZeroBlock;
    NameReads(e, tar, pos);
    SizeReads(e, tar, pos);
  }

  lemma {:induction false} FirstDigit(v: nat, n: nat)
    requires n > 0
    ensures OctalDigits(v, n)[0] != 0
  {
    if n > 1 { FirstDigit(v / 8, n - 1); }
  }

  /** Walking the members of an archive finds the last file of each kind, with its exact contents. */
  lemma {:induction false} WalkInverts(a: Archive, tar: seq<byte>, pos: nat, f: Found)
    requires a.WellFormed() && Standing(tar, pos, a.Bytes()) && Ends(tar, pos + |a.Bytes()|) && |tar| < SIZE_MOD
    requires InBounds(tar, f.wasm) && InBounds(tar, f.manifest)
    ensures var r := Walk(tar, pos, f);
            && InBounds(tar, r.wasm) && InBounds(tar, r.manifest)
            && Contents(tar, r.wasm) == (if a.LastApp().Some? then a.LastApp() else Contents(tar, f.wasm))
            && Contents(tar, r.manifest) == (if a.LastManifest().Some? then a.LastManifest() else Contents(tar, f.manifest))
    decreases a
  {
    hide Base, ZeroBlock, Entry.WellFormed, Entry.IsAppFile, Entry.IsManifestFile, Entry.Bytes;
    hide Walk, Record, RoundUp, Contents, InBounds, Standing;
    match a
    case End => WalkEnds(tar, pos, f);
    case Member(e, rest) =>
      var f' := WalkMember(e, rest, tar, pos, f);
      WalkInverts(rest, tar, pos + |e.Bytes()|, f');
  }

  lemma WalkEnds(tar: seq<byte>, pos: nat, f: Found)
    requires Ends(tar, pos)
    ensures Walk(tar, pos, f) == f
  {}

  /** One round of the walk on an archive member. */
  lemma WalkMember(e: Entry, rest: Archive, tar: seq<byte>, pos: nat, f: Found) returns (f': Found)
    requires e.WellFormed() && Standing(tar, pos, e.Bytes() + rest.Bytes()) && |tar| < SIZE_MOD
    requires InBounds(tar, f.wasm) && InBounds(tar, f.manifest)
    ensures Walk(tar, pos, f) == Walk(tar, pos + |e.Bytes()|, f')
    ensures Standing(tar, pos + |e.Bytes()|, rest.Bytes())
    ensures InBounds(tar, f'.wasm) && InBounds(tar, f'.manifest)
    ensures Contents(tar, f'.wasm) == (if e.IsAppFile() then Some(e.data) else Contents(tar, f.wasm))
    ensures Contents(tar, f'.manifest) == (if e.IsManifestFile() then Some(e.data) else Contents(tar, f.manifest))
  {
    hide Base, ZeroBlock, CString, FileSize, Entry.WellFormed, Entry.Bytes, Archive.Bytes, Record, RoundUp, Standing, OctalDigits, Walk;
    var p := pos + BLOCK;
    MemberStands(e, rest, tar, pos);
    HeaderReads(e, tar, pos);
    f' := Record(f, e.name, e.head[TYPE_AT], Slice(p, |e.data|));
    RecordContents(e, tar, p, f);
    WalkUnfolds(tar, pos, f);
  }

  lemma WalkUnfolds(tar: seq<byte>, pos: nat, f: Found)
    requires pos + BLOCK <= |tar| && pos + BLOCK + FileSize(tar, pos) <= |tar| && !ZeroBlock(tar, pos)
    ensures var p, size := pos + BLOCK, FileSize(tar, pos);
            Walk(tar, pos, f) == Walk(tar, p + RoundUp(size), Record(f, CString(tar, pos), tar[pos + TYPE_AT], Slice(p, size)))
  {
    hide ZeroBlock, CString, FileSize, Record, RoundUp;
  }

  lemma MemberStands(e: Entry, rest: Archive, tar: seq<byte>, pos: nat)
    requires e.WellFormed() && Standing(tar, pos, e.Bytes() + rest.Bytes())
    ensures |e.head| == BLOCK && Standing(tar, pos, e.head) && Standing(tar, pos + BLOCK, e.data)
    ensures |e.Bytes()| == BLOCK + RoundUp(|e.data|)
    ensures pos + BLOCK + |e.data| <= |tar|
    ensures Standing(tar, pos + BLOCK + RoundUp(|e.data|), rest.Bytes())
  {
    hide RoundUp, OctalDigits, Pow8;
    StandingSplit(tar, pos, e.Bytes(), rest.Bytes());
    StandingSplit(tar, pos, e.head, e.data + e.pad);
    StandingSplit(tar, pos + BLOCK, e.data, e.pad);
  }

  lemma RecordContents(e: Entry, tar: seq<byte>, p: nat, f: Found)
    requires e.WellFormed() && Standing(tar, p, e.data) && InBounds(tar, f.wasm) && InBounds(tar, f.manifest)
    ensures var r := Record(f, e.name, e.head[TYPE_AT], Slice(p, |e.data|));
            && InBounds(tar, r.wasm) && InBounds(tar, r.manifest)
            && Contents(tar, r.wasm) == (if e.IsAppFile() then Some(e.data) else Contents(tar, f.wasm))
            && Contents(tar, r.manifest) == (if e.IsManifestFile() then Some(e.data) else Contents(tar, f.manifest))
  {
    hide Base, RoundUp, OctalDigits, Pow8;
  }
}
