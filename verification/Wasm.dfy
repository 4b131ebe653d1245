/**
 Finding the manifest in a WebAssembly binary: LEB128 numbers, the walk over the sections, and
 the custom section whose content goes to the JSON parser.
 */
module Wasm {
  import opened Bits
  import opened Errnos
  import opened Slices
  import Json

  const WORD: nat := 0x1_0000_0000
  const HEADER: nat := 8
  const CUSTOM: byte := 0
  const LEB_MAX: nat := 5

  /** ".akira.manifest" */
  const SECTION_NAME: seq<byte> := [46, 97, 107, 105, 114, 97, 46, 109, 97, 110, 105, 102, 101, 115, 116]

  // ----- LEB128 -----

  function Group(b: byte): (r: nat) { b as nat % 128 }

  /** The accumulator after byte `i`, in 32-bit arithmetic. */
  function Merge(value: nat, b: byte, i: nat): (r: nat) { Or(value, Shl(Group(b), 7 * i) % WORD) }

  /** The number at `pos` and how many bytes it took; None if it does not end in time. */
  function LebFrom(data: seq<byte>, pos: nat, max: nat, i: nat, value: nat): (r: Option<(nat, nat)>)
    requires pos + max <= |data|
    ensures r.Some? ==> i < r.value.1 <= max
    decreases LEB_MAX - i
  {
    if i >= max || i >= LEB_MAX then None
    else
      var v := Merge(value, data[pos + i], i);
      if data[pos + i] < 128 then Some((v, i + 1)) else LebFrom(data, pos, max, i + 1, v)
  }

  function ReadLeb(data: seq<byte>, pos: nat, max: nat): (r: Option<(nat, nat)>)
    requires pos + max <= |data|
    ensures r.Some? ==> 0 < r.value.1 <= max
  {
    LebFrom(data, pos, max, 0, 0)
  }

  function Weight(i: nat): (r: nat) { if i == 0 then 1 else 128 * Weight(i - 1) }

  /** The value of the first `n` groups. */
  function LebValue(s: seq<byte>, n: nat): (r: nat)
    requires n <= |s|
  {
    if n == 0 then 0 else LebValue(s, n - 1) + Group(s[n - 1]) * Weight(n - 1)
  }

  /** An encoding, padded or not: every byte but the last has its high bit set. */
  predicate IsLeb(s: seq<byte>) {
    0 < |s| && s[|s| - 1] < 128 && forall i :: 0 <= i < |s| - 1 ==> s[i] >= 128
  }

  lemma Shifts(v: nat)
    ensures Shl(v, 7) == 128 * v && Shl(v, 14) == 16384 * v
    ensures Shl(v, 21) == 2097152 * v && Shl(v, 28) == 268435456 * v
  {
    Shift7(v);
    Shift7(Shl(v, 7));
    ShlShl(v, 7, 7);
    Shift7(Shl(v, 14));
    ShlShl(v, 14, 7);
    Shift7(Shl(v, 21));
    ShlShl(v, 21, 7);
  }

  lemma Shift7(v: nat)
    ensures Shl(v, 7) == 128 * v
  {
    assert Shl(v, 1) == 2 * v;
    assert Shl(v, 3) == 8 * v;
    assert Shl(v, 5) == 32 * v;
  }

  lemma Weights()
    ensures Weight(0) == 1 && Weight(1) == 128 && Weight(2) == 16384
    ensures Weight(3) == 2097152 && Weight(4) == 268435456
  {
  }

  lemma ShiftIsWeight(v: nat, i: nat)
    requires i < LEB_MAX
    ensures Shl(v, 7 * i) == v * Weight(i) && Pow2(7 * i) == Weight(i)
  {
    hide Shl, Weight;
    Weights();
    Shifts(v);
    Shifts(1);
    ShiftZero(v);
    ShiftZero(1);
  }

  lemma ShiftZero(v: nat)
    ensures Shl(v, 0) == v
  {
  }

  /** Merging a group adds it at its weight; only the fifth can overflow. */
  lemma MergeAdds(value: nat, b: byte, i: nat)
    requires i < LEB_MAX && value < Weight(i)
    ensures Merge(value, b, i) == (value + Group(b) * Weight(i)) % WORD
    ensures i < 4 ==> Merge(value, b, i) == value + Group(b) * Weight(i) < Weight(i + 1)
  {
    var kept := if i < 4 then Group(b) else Group(b) % 16;
    ShiftIsWeight(Group(b), i);
    ShiftIsWeight(kept, i);
    Weights();
    Kept(Group(b), i);
    hide Weight, Shl, Or;
    assert Shl(Group(b), 7 * i) % WORD == Shl(kept, 7 * i);
    OrDisjoint(value, kept, 7 * i);
    Fits(value, Group(b), i);
  }

  lemma Kept(g: nat, i: nat)
    requires i < LEB_MAX && g < 128
    ensures g * Weight(i) % WORD == (if i < 4 then g else g % 16) * Weight(i)
  {
    Weights();
    hide Weight;
    if i == 4 {
      assert g * 268435456 == g % 16 * 268435456 + g / 16 * WORD;
    }
  }

  lemma Fits(value: nat, g: nat, i: nat)
    requires i < LEB_MAX && g < 128 && value < Weight(i)
    ensures value + (if i < 4 then g else g % 16) * Weight(i) == (value + g * Weight(i)) % WORD
    ensures i < 4 ==> value + g * Weight(i) < Weight(i + 1)
  {
    Weights();
    hide Weight;
    if i == 4 {
      assert g * 268435456 == g % 16 * 268435456 + g / 16 * WORD;
    }
  }

  /** Reading on from group `i` of an encoding. */
  lemma {:induction false} LebReadsFrom(data: seq<byte>, pos: nat, max: nat, s: seq<byte>, i: nat)
    requires IsLeb(s) && |s| <= LEB_MAX && |s| <= max && pos + max <= |data| && Standing(data, pos, s) && i < |s|
    requires LebValue(s, i) < Weight(i)
    ensures LebFrom(data, pos, max, i, LebValue(s, i)) == Some((LebValue(s, |s|) % WORD, |s|))
    decreases |s| - i
  {
    StandingAt(data, pos, s, i);
    hide Standing, Weight, Merge;
    MergeAdds(LebValue(s, i), s[i], i);
    if i < |s| - 1 {
      LebReadsFrom(data, pos, max, s, i + 1);
    }
  }

  /** Any encoding of at most five bytes is read as its value, modulo 2^32. */
  lemma LebReads(data: seq<byte>, pos: nat, max: nat, s: seq<byte>)
    requires IsLeb(s) && |s| <= 5 && |s| <= max && pos + max <= |data| && Standing(data, pos, s)
    ensures ReadLeb(data, pos, max) == Some((LebValue(s, |s|) % 0x1_0000_0000, |s|))
  {
    Weights();
    LebReadsFrom(data, pos, max, s, 0);
  }

  /** The shortest encoding. */
  function Leb(v: nat): (r: seq<byte>) {
    if v < 128 then [v as byte] else [(128 + v % 128) as byte] + Leb(v / 128)
  }

  lemma {:induction false} LebValueCons(s: seq<byte>, n: nat)
    requires 0 < n <= |s|
    ensures LebValue(s, n) == Group(s[0]) + 128 * LebValue(s[1..], n - 1)
  {
    hide Group;
    if n > 1 {
      LebValueCons(s, n - 1);
      Regroup(Group(s[n - 1]), Weight(n - 2));
    }
  }

  lemma Regroup(g: nat, w: nat)
    ensures g * (128 * w) == 128 * (g * w)
  {
  }

  lemma {:induction false} LebIsLeb(v: nat)
    ensures IsLeb(Leb(v)) && LebValue(Leb(v), |Leb(v)|) == v
  {
    var s := Leb(v);
    LebValueCons(s, |s|);
    if v >= 128 {
      LebIsLeb(v / 128);
      assert s[1..] == Leb(v / 128);
      forall i | 0 <= i < |s| - 1
        ensures s[i] >= 128
      {
        assert i > 0 ==> s[i] == Leb(v / 128)[i - 1];
      }
    }
  }

  lemma LebShort(v: nat)
    requires v < WORD
    ensures |Leb(v)| <= LEB_MAX
  {
    assert |Leb(v / 128 / 128 / 128 / 128)| == 1;
    var v3 := v / 128 / 128 / 128;
    assert |Leb(v3)| <= 2;
    var v2 := v / 128 / 128;
    assert |Leb(v2)| <= 3;
    assert |Leb(v / 128)| <= 4;
  }

  /** Main result: every 32-bit number is read back from its encoding, whatever follows it. */
  lemma LebRoundTrip(v: nat, data: seq<byte>, pos: nat, max: nat)
    requires v < 0x1_0000_0000 && |Leb(v)| <= max && pos + max <= |data| && Standing(data, pos, Leb(v))
    ensures ReadLeb(data, pos, max) == Some((v, |Leb(v)|))
  {
    hide Leb, Standing, ReadLeb, LebValue, IsLeb;
    LebIsLeb(v);
    LebShort(v);
    LebReads(data, pos, max, Leb(v));
  }

  /** Nothing is read if and only if none of the bytes there are, five at most, is the last of an encoding. */
  lemma LebRefusedIff(data: seq<byte>, pos: nat, max: nat)
    requires pos + max <= |data|
    ensures ReadLeb(data, pos, max).None? <==> forall i :: pos <= i < pos + max && i < pos + 5 ==> data[i] >= 128
  {
    LebRefusedFrom(data, pos, max, 0, 0);
  }

  lemma {:induction false} LebRefusedFrom(data: seq<byte>, pos: nat, max: nat, i: nat, value: nat)
    requires pos + max <= |data|
    ensures LebFrom(data, pos, max, i, value).None? <==>
              forall k :: pos + i <= k < pos + max && k < pos + 5 ==> data[k] >= 128
    decreases LEB_MAX - i
  {
    hide Merge;
    if i < max && i < LEB_MAX {
      LebRefusedFrom(data, pos, max, i + 1, Merge(value, data[pos + i], i));
    }
  }

  method ReadLeb128(data: seq<byte>, pos: nat, max: nat) returns (r: Option<(nat, nat)>)
    requires pos + max <= |data|
    ensures r == ReadLeb(data, pos, max)
  {
    var value: nat := 0;
    var i: nat := 0;
    while i < max && i < LEB_MAX
      invariant i <= LEB_MAX && ReadLeb(data, pos, max) == LebFrom(data, pos, max, i, value)
    {
      var b := data[pos + i];
      value := Merge(value, b, i);
      if b < 128 {
        return Some((value, i + 1));
      }
      i := i + 1;
    }
    return None;
  }

  // ----- the section walk -----

  /** Where the manifest's content starts and how long it is. */
  function Walk(data: seq<byte>, pos: nat): (r: Result<(nat, nat)>)
    requires pos <= |data|
    ensures r.Ok? ==> r.value.0 + r.value.1 <= |data|
    decreases |data| - pos
  {
    if pos + 1 >= |data| then Err(ENOENT)
    else
      match ReadLeb(data, pos + 1, |data| - pos - 1)
      case None => Err(EINVAL)
      case Some((size, n)) =>
        var body := pos + 1 + n;
        if body + size > |data| then Err(EINVAL)
        else if data[pos] != CUSTOM then Walk(data, body + size)
        else
          match Content(data, body, size)
          case Some(c) => Ok(c)
          case None => Walk(data, body + size)
  }

  /** The content of a custom section of the right name. */
  function Content(data: seq<byte>, body: nat, size: nat): (r: Option<(nat, nat)>)
    requires body + size <= |data|
    ensures r.Some? ==> r.value.0 + r.value.1 <= |data|
  {
    match ReadLeb(data, body, size)
    case None => None
    case Some((nameLen, n)) =>
      if n + nameLen > size then None
      else if data[body + n..body + n + nameLen] == SECTION_NAME then Some((body + n + nameLen, size - n - nameLen))
      else None
  }

  function Text(b: seq<byte>): (r: string) { seq(|b|, (i: nat) requires i < |b| => b[i] as char) }

  /** What the walk hands to the JSON parser decides the result. */
  function Manifest(data: seq<byte>, mask: string -> bv32): (r: Result<Json.Manifest>)
    requires HEADER <= |data|
  {
    match Walk(data, HEADER)
    case Err(e) => Err(e)
    case Ok((at, len)) => Json.Parse(Text(data[at..at + len]), mask)
  }

  /** The content of a custom section that has the manifest's name. */
  method ReadContent(data: seq<byte>, body: nat, size: nat) returns (r: Option<(nat, nat)>)
    requires body + size <= |data|
    ensures r == Content(data, body, size)
  {
    hide ReadLeb;
    var name := ReadLeb128(data, body, size);
    if name.None? || name.value.1 + name.value.0 > size {
      return None;
    }
    var at := body + name.value.1;
    if name.value.0 == |SECTION_NAME| && data[at..at + name.value.0] == SECTION_NAME {
      return Some((at + name.value.0, size - name.value.1 - name.value.0));
    }
    return None;
  }

  method ParseWasmBinary(data: seq<byte>, mask: string -> bv32) returns (r: Result<Json.Manifest>)
    requires HEADER <= |data|
    ensures r == Manifest(data, mask)
  {
    hide ReadLeb, Json.Parse, Text, Content;
    var pos := HEADER;
    while pos < |data|
      invariant HEADER <= pos <= |data| && Walk(data, HEADER) == Walk(data, pos)
    {
      var id := data[pos];
      pos := pos + 1;
      if pos >= |data| {
        break;
      }
      var leb := ReadLeb128(data, pos, |data| - pos);
      if leb.None? {
        return Err(EINVAL);
      }
      var size := leb.value.0;
      pos := pos + leb.value.1;
      if pos + size > |data| {
        return Err(EINVAL);
      }
      if id == CUSTOM {
        var c := ReadContent(data, pos, size);
        if c.Some? {
          r := Json.ParseJson(Text(data[c.value.0..c.value.0 + c.value.1]), mask);
          return;
        }
      }
      pos := pos + size;
    }
    return Err(ENOENT);
  }

  // ----- well-formed binaries -----

  /**
   A section with its size field; a custom section's body is a name with its length field, and
   content, and a broken one's is shorter than the name it announces.
   */
  datatype Section =
    | Other(id: byte, size: seq<byte>, body: seq<byte>)
    | Custom(size: seq<byte>, nameSize: seq<byte>, name: seq<byte>, content: seq<byte>)
    | Broken(size: seq<byte>, nameSize: seq<byte>, said: nat, body: seq<byte>)

  /** A size field that says `n`. */
  predicate Says(s: seq<byte>, n: nat) { IsLeb(s) && |s| <= 5 && n < 0x1_0000_0000 && LebValue(s, |s|) == n }

  function BodyOf(s: Section): (r: seq<byte>) {
    match s
    case Other(_, _, body) => body
    case Custom(_, nameSize, name, content) => Cat(nameSize, Cat(name, content))
    case Broken(_, nameSize, _, body) => Cat(nameSize, body)
  }

  predicate SectionOk(s: Section) {
    match s
    case Other(id, size, body) => id != 0 && Says(size, |body|)
    case Custom(size, nameSize, name, content) => Says(size, |BodyOf(s)|) && Says(nameSize, |name|)
    case Broken(size, nameSize, said, body) => Says(size, |BodyOf(s)|) && Says(nameSize, said) && said > |body|
  }

  function PrintSection(s: Section): (r: seq<byte>) {
    Cat([if s.Other? then s.id else 0], Cat(s.size, BodyOf(s)))
  }

  function PrintSections(ss: seq<Section>): (r: seq<byte>) {
    if ss == [] then [] else Cat(PrintSection(ss[0]), PrintSections(ss[1..]))
  }

  /** The content of the first section of the right name. */
  function FirstManifest(ss: seq<Section>): (r: Option<seq<byte>>) {
    if ss == [] then None
    else if ss[0].Custom? && ss[0].name == SECTION_NAME then Some(ss[0].content)
    else FirstManifest(ss[1..])
  }

  /** The walk found this content. */
  predicate Found(data: seq<byte>, r: Result<(nat, nat)>, c: seq<byte>) {
    r.Ok? && r.value.1 == |c| && Standing(data, r.value.0, c)
  }

  lemma SizeReads(data: seq<byte>, pos: nat, max: nat, s: seq<byte>, n: nat)
    requires Says(s, n) && |s| <= max && pos + max <= |data| && Standing(data, pos, s)
    ensures ReadLeb(data, pos, max) == Some((n, |s|))
  {
    hide Standing, ReadLeb;
    LebReads(data, pos, max, s);
  }

  lemma CustomReads(data: seq<byte>, body: nat, s: Section)
    requires s.Custom? && SectionOk(s) && Standing(data, body, BodyOf(s)) && body + |BodyOf(s)| <= |data|
    ensures var at := body + |s.nameSize| + |s.name|;
            && Content(data, body, |BodyOf(s)|) == (if s.name == SECTION_NAME then Some((at, |s.content|)) else None)
            && Standing(data, at, s.content)
  {
    hide Says, ReadLeb, Cat;
    CatStands(data, body, s.nameSize, Cat(s.name, s.content));
    CatStands(data, body + |s.nameSize|, s.name, s.content);
    SizeReads(data, body, |BodyOf(s)|, s.nameSize, |s.name|);
  }

  lemma BrokenReads(data: seq<byte>, body: nat, s: Section)
    requires s.Broken? && SectionOk(s) && Standing(data, body, BodyOf(s)) && body + |BodyOf(s)| <= |data|
    ensures Content(data, body, |BodyOf(s)|) == None
  {
    hide Says, ReadLeb, Cat;
    CatStands(data, body, s.nameSize, s.body);
    SizeReads(data, body, |BodyOf(s)|, s.nameSize, s.said);
  }

  /** The walk stops in a manifest section and passes over any other. */
  lemma SectionWalks(data: seq<byte>, pos: nat, s: Section)
    requires SectionOk(s) && Standing(data, pos, PrintSection(s))
    ensures pos + |PrintSection(s)| <= |data|
    ensures if s.Custom? && s.name == SECTION_NAME then Found(data, Walk(data, pos), s.content)
            else Walk(data, pos) == Walk(data, pos + |PrintSection(s)|)
  {
    hide Says, ReadLeb, Cat, Standing, Content, BodyOf;
    var id := [if s.Other? then s.id else 0];
    CatStands(data, pos, id, Cat(s.size, BodyOf(s)));
    CatStands(data, pos + 1, s.size, BodyOf(s));
    StandingAt(data, pos, id, 0);
    BodySaid(s);
    SizeReads(data, pos + 1, |data| - pos - 1, s.size, |BodyOf(s)|);
    if s.Custom? {
      CustomReads(data, pos + 1 + |s.size|, s);
    } else if s.Broken? {
      BrokenReads(data, pos + 1 + |s.size|, s);
    }
  }

  lemma BodySaid(s: Section)
    requires SectionOk(s)
    ensures Says(s.size, |BodyOf(s)|) && |s.size| > 0
  {
  }

  lemma {:induction false} SectionsWalk(data: seq<byte>, pos: nat, ss: seq<Section>)
    requires forall i :: 0 <= i < |ss| ==> SectionOk(ss[i])
    requires Standing(data, pos, PrintSections(ss)) && pos + |PrintSections(ss)| <= |data|
    ensures FirstManifest(ss).None? ==> Walk(data, pos) == Walk(data, pos + |PrintSections(ss)|)
    ensures FirstManifest(ss).Some? ==> Found(data, Walk(data, pos), FirstManifest(ss).value)
    decreases |ss|
  {
    hide Standing, SectionOk, PrintSection, Cat, Found, Walk;
    if ss != [] {
      CatStands(data, pos, PrintSection(ss[0]), PrintSections(ss[1..]));
      SectionWalks(data, pos, ss[0]);
      if !(ss[0].Custom? && ss[0].name == SECTION_NAME) {
        SectionsWalk(data, pos + |PrintSection(ss[0])|, ss[1..]);
      }
    }
  }

  /** What the walk makes of the bytes after the last whole section. */
  ghost predicate RestIs(rest: seq<byte>, error: Errno) {
    match error
    case ENOENT => |rest| <= 1
    case EINVAL => |rest| >= 2 && (
      (forall i :: 1 <= i < |rest| && i <= 5 ==> rest[i] >= 128)
      || (exists size: seq<byte>, n: nat :: Says(size, n) && Standing(rest, 1, size) && n > |rest| - 1 - |size|))
    case _ => false
  }

  lemma RestStops(data: seq<byte>, pos: nat, rest: seq<byte>, error: Errno)
    requires Standing(data, pos, rest) && pos + |rest| == |data| && RestIs(rest, error)
    ensures Walk(data, pos) == Err(error)
  {
    hide ReadLeb, Content, Says;
    if error == EINVAL {
      forall i | 0 <= i < |rest|
        ensures data[pos + i] == rest[i]
      {
        StandingAt(data, pos, rest, i);
      }
      if forall i :: 1 <= i < |rest| && i <= 5 ==> rest[i] >= 128 {
        LebRefusedIff(data, pos + 1, |rest| - 1);
        forall i | pos + 1 <= i < pos + |rest| && i < pos + 6
          ensures data[i] >= 128
        {
          assert data[pos + (i - pos)] == rest[i - pos];
        }
      } else {
        var size: seq<byte>, n: nat :| Says(size, n) && Standing(rest, 1, size) && n > |rest| - 1 - |size|;
        assert data[pos + 1..pos + 1 + |size|] == data[pos..pos + |rest|][1..1 + |size|];
        SizeReads(data, pos + 1, |rest| - 1, size, n);
      }
    }
  }

  /**
   Main result: over any well-formed sections after the eight-byte header, the JSON parser gets exactly
   the content of the first manifest section, whatever follows it. Without one the answer is ENOENT, or
   EINVAL if a section is cut short.
   */
  lemma WalkFindsFirst(data: seq<byte>, ss: seq<Section>, rest: seq<byte>, error: Errno, mask: string -> bv32)
    requires Standing(data, 8, Cat(PrintSections(ss), rest)) && 8 + |PrintSections(ss)| + |rest| == |data|
    requires forall i :: 0 <= i < |ss| ==> SectionOk(ss[i])
    requires FirstManifest(ss).None? ==> RestIs(rest, error)
    ensures Manifest(data, mask) ==
            match FirstManifest(ss) case None => Err(error) case Some(c) => Json.Parse(Text(c), mask)
  {
    hide SectionOk, PrintSections, FirstManifest, Walk, Json.Parse, Text, Found, RestIs, Standing, Cat;
    CatStands(data, 8, PrintSections(ss), rest);
    SectionsWalk(data, 8, ss);
    if FirstManifest(ss).Some? {
      ManifestThere(data, FirstManifest(ss).value, mask);
    } else {
      RestStops(data, 8 + |PrintSections(ss)|, rest, error);
      ManifestNot(data, error, mask);
    }
  }

  lemma ManifestThere(data: seq<byte>, c: seq<byte>, mask: string -> bv32)
    requires 8 <= |data| && Found(data, Walk(data, 8), c)
    ensures Manifest(data, mask) == Json.Parse(Text(c), mask)
  {
    hide Walk, Json.Parse, Text;
  }

  lemma ManifestNot(data: seq<byte>, error: Errno, mask: string -> bv32)
    requires 8 <= |data| && Walk(data, 8) == Err(error)
    ensures Manifest(data, mask) == Err(error)
  {
    hide Walk, Json.Parse, Text;
  }

  /** The name of the section, in letters. */
  lemma SectionNameIs()
    ensures Text(SECTION_NAME) == ".akira.manifest"
  {
  }
}
