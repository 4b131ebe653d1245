/**
 The gzip member header, section 2.3 of RFC 1952: where the DEFLATE payload starts and what
 size the trailer announces. The parser accepts a byte string exactly when it is a header
 with its optional fields, a payload and an eight-byte trailer.
 */
module Gzip {
  import opened Bits
  import opened Errnos
  import opened Slices

  const FHCRC: nat := 2
  const FEXTRA: nat := 4
  const FNAME: nat := 8
  const FCOMMENT: nat := 16

  /** `flg & mask` for a mask of one bit. */
  predicate Flag(flg: byte, mask: nat)
    requires mask > 0
  {
    flg as nat / mask % 2 == 1
  }

  datatype Layout = Layout(start: nat, isize: nat)

  /** The bytes at `p` as a little-endian number. */
  function LittleEndian(data: seq<byte>, p: nat, n: nat): (v: nat)
    requires p + n <= |data|
    decreases n
  {
    if n == 0 then 0 else data[p] as nat + 256 * LittleEndian(data, p + 1, n - 1)
  }

  // ----- what the parser computes -----

  /** Position after the zero that ends the string at `pos`. */
  function SkipString(data: seq<byte>, pos: nat): (r: Option<nat>)
    decreases |data| - pos
  {
    if pos >= |data| then None
    else if data[pos] == 0 then Some(pos + 1)
    else SkipString(data, pos + 1)
  }

  function SkipOptional(present: bool, data: seq<byte>, pos: nat): (r: Option<nat>) {
    if present then SkipString(data, pos) else Some(pos)
  }

  function AfterExtra(data: seq<byte>): (p: nat)
    requires |data| >= 18
  {
    if Flag(data[3], FEXTRA) then 12 + LittleEndian(data, 10, 2) else 10
  }

  function Parse(data: seq<byte>): (r: Result<Layout>)
    ensures r.Ok? ==> r.value.start + 8 <= |data| && |data| >= 18
  {
    if |data| < 18 || data[0] != 0x1f || data[1] != 0x8b then Err(EINVAL)
    else if data[2] != 8 then Err(ENOTSUP)
    else
      match SkipOptional(Flag(data[3], FNAME), data, AfterExtra(data))
      case None => Err(EINVAL)
      case Some(p) =>
        match SkipOptional(Flag(data[3], FCOMMENT), data, p)
        case None => Err(EINVAL)
        case Some(q) =>
          var start := if Flag(data[3], FHCRC) then q + 2 else q;
          if start + 8 > |data| then Err(EINVAL)
          else Ok(Layout(start, LittleEndian(data, |data| - 4, 4)))
  }

  /** Scans to the end of a zero-terminated string. */
  method ScanString(data: seq<byte>, from: nat) returns (ok: bool, pos: nat)
    ensures match SkipString(data, from)
            case None => !ok
            case Some(p) => ok && pos == p
  {
    pos := from;
    while pos < |data| && data[pos] != 0
      invariant SkipString(data, from) == SkipString(data, pos)
    {
      pos := pos + 1;
    }
    ok := pos < |data|;
    pos := pos + 1;
  }

  method GzipParse(data: seq<byte>) returns (r: Result<Layout>)
    ensures r == Parse(data)
  {
    if |data| < 18 || data[0] != 0x1f || data[1] != 0x8b {
      return Err(EINVAL);
    }
    if data[2] != 8 {
      return Err(ENOTSUP);
    }
    var flg := data[3];
    var pos: nat := 10;
    var ok := true;
    if Flag(flg, FEXTRA) {
      var xlen := LittleEndian(data, 10, 2);
      pos := pos + 2 + xlen;
    }
    if Flag(flg, FNAME) {
      ok, pos := ScanString(data, pos);
      if !ok { return Err(EINVAL); }
    }
    if Flag(flg, FCOMMENT) {
      ok, pos := ScanString(data, pos);
      if !ok { return Err(EINVAL); }
    }
    if Flag(flg, FHCRC) {
      pos := pos + 2;
    }
    if pos + 8 > |data| {
      return Err(EINVAL);
    }
    r := Ok(Layout(pos, LittleEndian(data, |data| - 4, 4)));
  }

  // ----- the format -----

  /** A header: flags, MTIME/XFL/OS, and the optional fields in the order they are stored. */
  datatype Header = Header(flg: byte, rest: seq<byte>, extra: Option<seq<byte>>, name: Option<seq<byte>>,
                           comment: Option<seq<byte>>, hcrc: Option<seq<byte>>) {
    predicate WellFormed() {
      && |rest| == 6
      && extra.Some? == Flag(flg, 4) && (extra.Some? ==> |extra.value| < 0x1_0000)
      && name.Some? == Flag(flg, 8) && (name.Some? ==> 0 !in name.value)
      && comment.Some? == Flag(flg, 16) && (comment.Some? ==> 0 !in comment.value)
      && hcrc.Some? == Flag(flg, 2) && (hcrc.Some? ==> |hcrc.value| == 2)
    }

    function Fixed(): (r: seq<byte>) { [0x1f, 0x8b, 8, flg] + rest }

    function Extra(): (r: seq<byte>)
      requires WellFormed()
    {
      Counted(extra)
    }

    function Bytes(): (r: seq<byte>)
      requires WellFormed()
    {
      Fixed() + (Extra() + (Terminated(name) + (Terminated(comment) + (if hcrc.Some? then hcrc.value else []))))
    }
  }

  function Counted(x: Option<seq<byte>>): (r: seq<byte>)
    requires x.Some? ==> |x.value| < 0x1_0000
  {
    if x.Some? then [(|x.value| % 256) as byte, (|x.value| / 256) as byte] + x.value else []
  }

  function Terminated(s: Option<seq<byte>>): (r: seq<byte>) {
    if s.Some? then s.value + [0] else []
  }

  lemma {:induction false} SkipOver(data: seq<byte>, pos: nat, s: seq<byte>)
    requires 0 !in s && pos + |s| < |data| && data[pos..pos + |s|] == s && data[pos + |s|] == 0
    ensures SkipString(data, pos) == Some(pos + |s| + 1)
    decreases |s|
  {
    if s != [] {
      assert data[pos] == s[0];
      assert data[pos + 1..pos + |s|] == s[1..];
      SkipOver(data, pos + 1, s[1..]);
    }
  }

  lemma SkipTerminated(data: seq<byte>, pos: nat, s: Option<seq<byte>>)
    requires (s.Some? ==> 0 !in s.value) && Standing(data, pos, Terminated(s))
    ensures SkipOptional(s.Some?, data, pos) == Some(pos + |Terminated(s)|)
  {
    if s.Some? {
      var t, n := s.value, |s.value|;
      assert data[pos..pos + n] == Terminated(s)[..n] == t;
      assert data[pos + n] == Terminated(s)[n] == 0;
      SkipOver(data, pos, t);
    }
  }

  lemma TwoBytes(data: seq<byte>, p: nat)
    requires p + 2 <= |data|
    ensures LittleEndian(data, p, 2) == data[p] as nat + 256 * data[p + 1] as nat
  {
    assert LittleEndian(data, p + 1, 1) == data[p + 1] as nat + 256 * LittleEndian(data, p + 2, 0);
  }

  lemma HeaderSlices(data: seq<byte>, h: Header)
    requires h.WellFormed() && Standing(data, 0, h.Bytes())
    ensures Standing(data, 0, h.Fixed()) && Standing(data, 10, h.Extra())
    ensures var p := 10 + |h.Extra()|; var q := p + |Terminated(h.name)|;
            Standing(data, p, Terminated(h.name)) && Standing(data, q, Terminated(h.comment))
  {
    hide Terminated, Flag, Header.Extra, Standing;
    var x, n, c := h.Extra(), Terminated(h.name), Terminated(h.comment);
    var last := if h.hcrc.Some? then h.hcrc.value else [];
    StandingSplit(data, 0, h.Fixed(), x + (n + (c + last)));
    StandingSplit(data, 10, x, n + (c + last));
    StandingSplit(data, 10 + |x|, n, c + last);
    StandingSplit(data, 10 + |x| + |n|, c, last);
  }

  lemma ExtraEnds(data: seq<byte>, h: Header)
    requires h.WellFormed() && |data| >= 18
    requires Standing(data, 0, h.Fixed()) && Standing(data, 10, h.Extra())
    ensures data[0] == 0x1f && data[1] == 0x8b && data[2] == 8 && data[3] == h.flg
    ensures AfterExtra(data) == 10 + |h.Extra()|
  {
    StandingAt(data, 0, h.Fixed(), 0);
    StandingAt(data, 0, h.Fixed(), 1);
    StandingAt(data, 0, h.Fixed(), 2);
    StandingAt(data, 0, h.Fixed(), 3);
    if h.extra.Some? {
      StandingAt(data, 10, h.Extra(), 0);
      StandingAt(data, 10, h.Extra(), 1);
      TwoBytes(data, 10);
    }
  }

  lemma ParseAt(data: seq<byte>, h: Header)
    requires h.WellFormed() && |h.Bytes()| + 8 <= |data| && Standing(data, 0, h.Bytes())
    ensures Parse(data) == Ok(Layout(|h.Bytes()|, LittleEndian(data, |data| - 4, 4)))
  {
    hide LittleEndian, Flag, AfterExtra, Header.Extra, Terminated, SkipOptional;
    HeaderSlices(data, h);
    ExtraEnds(data, h);
    var p := 10 + |h.Extra()|;
    SkipTerminated(data, p, h.name);
    SkipTerminated(data, p + |Terminated(h.name)|, h.comment);
  }

  /** Header, payload and trailer: the payload is found and the announced size is the trailer's. */
  lemma ParseInverts(h: Header, payload: seq<byte>, trailer: seq<byte>)
    requires h.WellFormed() && |trailer| == 8
    ensures Parse(h.Bytes() + payload + trailer) == Ok(Layout(|h.Bytes()|, LittleEndian(trailer, 4, 4)))
  {
    var data := h.Bytes() + payload + trailer;
    hide Header.Bytes, Header.WellFormed, Parse, LittleEndian;
    assert data[0..|h.Bytes()|] == h.Bytes();
    ParseAt(data, h);
    LittleEndianShift(data, |data| - 4, trailer, 4, 4);
  }

  lemma {:induction false} LittleEndianShift(a: seq<byte>, p: nat, b: seq<byte>, q: nat, n: nat)
    requires p + n <= |a| && q + n <= |b| && a[p..p + n] == b[q..q + n]
    ensures LittleEndian(a, p, n) == LittleEndian(b, q, n)
    decreases n
  {
    if n > 0 {
      assert a[p] == a[p..p + n][0] == b[q];
      assert a[p + 1..p + n] == a[p..p + n][1..] == b[q..q + n][1..] == b[q + 1..q + n];
      LittleEndianShift(a, p + 1, b, q + 1, n - 1);
    }
  }

  // ----- soundness: everything accepted has the format -----

  lemma {:induction false} SkippedString(data: seq<byte>, pos: nat)
    requires SkipString(data, pos).Some?
    ensures var e := SkipString(data, pos).value;
            pos < e <= |data| && data[e - 1] == 0 && 0 !in data[pos..e - 1]
    decreases |data| - pos
  {
    if data[pos] != 0 {
      SkippedString(data, pos + 1);
      var e := SkipString(data, pos).value;
      assert data[pos..e - 1] == [data[pos]] + data[pos + 1..e - 1];
    }
  }

  lemma SkippedOptional(present: bool, data: seq<byte>, pos: nat) returns (s: Option<seq<byte>>)
    requires pos <= |data| && SkipOptional(present, data, pos).Some?
    ensures var e := SkipOptional(present, data, pos).value;
            pos <= e <= |data| && s.Some? == present && (present ==> 0 !in s.value) && data[pos..e] == Terminated(s)
  {
    s := None;
    if present {
      SkippedString(data, pos);
      var e := SkipString(data, pos).value;
      s := Some(data[pos..e - 1]);
      assert data[pos..e] == data[pos..e - 1] + [data[e - 1]];
    }
  }

  lemma CountedExtra(data: seq<byte>) returns (x: Option<seq<byte>>)
    requires |data| >= 18 && AfterExtra(data) <= |data|
    ensures x.Some? == Flag(data[3], FEXTRA) && (x.Some? ==> |x.value| < 0x1_0000)
    ensures Counted(x) == data[10..AfterExtra(data)]
  {
    x := None;
    if Flag(data[3], FEXTRA) {
      TwoBytes(data, 10);
      x := Some(data[12..AfterExtra(data)]);
    }
  }

  /** Whatever the parser accepts is a header, a payload and an eight-byte trailer. */
  lemma ParseSound(data: seq<byte>) returns (h: Header)
    requires Parse(data).Ok?
    ensures h.WellFormed() && |h.Bytes()| == Parse(data).value.start && h.Bytes() <= data
    ensures Parse(data).value.start + 8 <= |data|
  {
    assert 10 <= AfterExtra(data) <= |data|;
    hide Flag, LittleEndian, SkipOptional, Counted, AfterExtra, Terminated;
    var flg := data[3];
    var p := AfterExtra(data);
    SkipMonotone(Flag(flg, FNAME), data, p);
    var extra := CountedExtra(data);
    var name := SkippedOptional(Flag(flg, FNAME), data, p);
    var q := SkipOptional(Flag(flg, FNAME), data, p).value;
    var comment := SkippedOptional(Flag(flg, FCOMMENT), data, q);
    var e := SkipOptional(Flag(flg, FCOMMENT), data, q).value;
    var start := Parse(data).value.start;
    var hcrc := if Flag(flg, FHCRC) then Some(data[e..start]) else None;
    h := Header(flg, data[4..10], extra, name, comment, hcrc);
    assert h.Fixed() == data[..10];
    assert data[e..start] == if h.hcrc.Some? then h.hcrc.value else [];
    Assembled(h, data, p, q, e, start);
  }

  lemma Assembled(h: Header, data: seq<byte>, p: nat, q: nat, e: nat, start: nat)
    requires h.WellFormed() && 10 <= p <= q <= e <= start <= |data|
    requires h.Fixed() == data[..10] && h.Extra() == data[10..p]
    requires Terminated(h.name) == data[p..q] && Terminated(h.comment) == data[q..e]
    requires data[e..start] == if h.hcrc.Some? then h.hcrc.value else []
    ensures h.Bytes() == data[..start]
  {
    hide Header.WellFormed, Header.Fixed, Header.Extra, Terminated;
    Rejoin(data, 10, p, q, e, start);
  }

  /** A byte string is accepted if and only if it has that format; anything else is refused, another method than 8 with ENOTSUP. */
  lemma ParseAcceptsIff(data: seq<byte>)
    ensures Parse(data).Ok? <==>
              exists h: Header :: h.WellFormed() && Standing(data, 0, h.Bytes()) && |h.Bytes()| + 8 <= |data|
    ensures Parse(data).Err? ==>
              Parse(data) == Err(if |data| >= 18 && data[..2] == [0x1f, 0x8b] && data[2] != 8 then ENOTSUP else EINVAL)
  {
    hide Header.WellFormed, Header.Bytes, SkipOptional, AfterExtra, LittleEndian, Flag, Standing;
    if Parse(data).Ok? {
      hide Parse;
      var h := ParseSound(data);
      PrefixStands(data, h.Bytes());
    }
    forall h: Header | h.WellFormed() && Standing(data, 0, h.Bytes()) && |h.Bytes()| + 8 <= |data|
      ensures Parse(data).Ok?
    {
      ParseAt(data, h);
    }
  }

  lemma PrefixStands(data: seq<byte>, e: seq<byte>)
    requires e <= data
    ensures Standing(data, 0, e)
  {
  }

  lemma SkipMonotone(present: bool, data: seq<byte>, pos: nat)
    requires SkipOptional(present, data, pos).Some?
    ensures pos <= SkipOptional(present, data, pos).value
  {
    if present { SkippedString(data, pos); }
  }

  lemma Rejoin(data: seq<byte>, a: nat, b: nat, c: nat, d: nat, e: nat)
    requires a <= b <= c <= d <= e <= |data|
    ensures data[..a] + (data[a..b] + (data[b..c] + (data[c..d] + data[d..e]))) == data[..e]
  {}
}
