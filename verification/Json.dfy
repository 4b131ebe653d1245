/**
 What the manifest parser makes of a JSON text: a cursor runs over the text, known keys fill
 the manifest and the value of any other key is skipped.
 */
module Json {
  import opened Errnos

  const KEY_SIZE: nat := 32
  const NAME_SIZE: nat := 32
  const VERSION_SIZE: nat := 16
  const CAP_SIZE: nat := 64
  const WORD: nat := 0x1_0000_0000

  datatype Manifest = Manifest(name: string, version: string, quota: nat, caps: bv32)

  const DEFAULTS := Manifest("", "", 0, 0)

  predicate IsWs(c: char) { c == ' ' || c == '\t' || c == '\n' || c == '\r' }

  function SkipWs(s: string, p: nat): (r: nat)
    requires p <= |s|
    ensures p <= r <= |s| && (r < |s| ==> !IsWs(s[r]))
    decreases |s| - p
  {
    if p < |s| && IsWs(s[p]) then SkipWs(s, p + 1) else p
  }

  function Unescape(c: char): (r: char) {
    if c == 'n' then '\n' else if c == 'r' then '\r' else if c == 't' then '\t' else c
  }

  /** The characters up to a quote or until the room is used, and where that is. */
  function Body(s: string, p: nat, room: nat): (r: (nat, string))
    requires p <= |s|
    ensures p <= r.0 <= |s|
    decreases |s| - p
  {
    if p == |s| || s[p] == '"' || room == 0 then (p, "")
    else if s[p] == '\\' && p + 1 < |s| then
      var (q, t) := Body(s, p + 2, room - 1);
      (q, [Unescape(s[p + 1])] + t)
    else
      var (q, t) := Body(s, p + 1, room - 1);
      (q, [s[p]] + t)
  }

  /** A C string ends at its first zero. */
  function CString(t: string): (r: string) {
    if t == "" || t[0] == '\0' then "" else [t[0]] + CString(t[1..])
  }

  /** A string literal into a buffer of `size` bytes: where it ends and what the buffer holds. */
  function ParseString(s: string, p: nat, size: nat): (r: Option<(nat, string)>)
    requires p <= |s| && size > 0
    ensures r.Some? ==> p < r.value.0 <= |s|
  {
    if p == |s| || s[p] != '"' then None
    else
      var (q, t) := Body(s, p + 1, size - 1);
      if q < |s| && s[q] == '"' then Some((q + 1, CString(t))) else None
  }

  predicate IsDigit(c: char) { '0' <= c <= '9' }

  function Digit(c: char): (r: nat)
    requires IsDigit(c)
  {
    c as int - '0' as int
  }

  /** Decimal digits in 32-bit arithmetic. */
  function Digits(s: string, p: nat, v: nat): (r: (nat, nat))
    requires p <= |s|
    ensures p <= r.0 <= |s|
    decreases |s| - p
  {
    if p < |s| && IsDigit(s[p]) then Digits(s, p + 1, (v * 10 + Digit(s[p])) % WORD) else (p, v)
  }

  function ParseInt(s: string, p: nat): (r: Option<(nat, nat)>)
    requires p <= |s|
    ensures r.Some? ==> p <= r.value.0 <= |s|
  {
    var q := SkipWs(s, p);
    var (e, v) := Digits(s, q, 0);
    if e == q then None else Some((e, v))
  }

  predicate Opens(c: char) { c == '{' || c == '[' }

  predicate Closes(c: char) { c == '}' || c == ']' }

  /** The end of a value nobody asked for: the comma or the closing bracket that is not inside it. */
  function Skip(s: string, p: nat, depth: nat, inString: bool): (r: nat)
    requires p <= |s|
    ensures p <= r <= |s|
    decreases |s| - p
  {
    if p == |s| then p
    else if inString then
      if s[p] == '\\' && p + 1 < |s| then Skip(s, p + 2, depth, true)
      else Skip(s, p + 1, depth, s[p] != '"')
    else if s[p] == '"' then Skip(s, p + 1, depth, true)
    else if Opens(s[p]) then Skip(s, p + 1, depth + 1, false)
    else if Closes(s[p]) then if depth == 0 then p else Skip(s, p + 1, depth - 1, false)
    else if s[p] == ',' && depth == 0 then p
    else Skip(s, p + 1, depth, false)
  }

  /** The elements of the capability array; each name adds the bits `mask` gives it. */
  function CapsLoop(s: string, p: nat, caps: bv32, mask: string -> bv32): (r: Option<(nat, bv32)>)
    requires p <= |s|
    ensures r.Some? ==> p <= r.value.0 <= |s|
    decreases |s| - p
  {
    var q := SkipWs(s, p);
    if q == |s| then Some((q, caps))
    else if s[q] == ']' then Some((q + 1, caps))
    else if s[q] == ',' then CapsLoop(s, q + 1, caps, mask)
    else
      match ParseString(s, q, CAP_SIZE)
      case None => None
      case Some((e, t)) => CapsLoop(s, e, caps | mask(t), mask)
  }

  function ParseCaps(s: string, p: nat, caps: bv32, mask: string -> bv32): (r: Option<(nat, bv32)>)
    requires p <= |s|
    ensures r.Some? ==> p <= r.value.0 <= |s|
  {
    var q := SkipWs(s, p);
    if q == |s| || s[q] != '[' then None else CapsLoop(s, q + 1, caps, mask)
  }

  /** The value of a key. The network policy is not part of this model. */
  function ParseValue(s: string, p: nat, key: string, m: Manifest, mask: string -> bv32): (r: Result<(nat, Manifest)>)
    requires p <= |s|
    ensures r.Ok? ==> p <= r.value.0 <= |s|
  {
    if key == "name" then
      match ParseString(s, p, NAME_SIZE)
      case None => Err(EINVAL)
      case Some((e, t)) => Ok((e, m.(name := t)))
    else if key == "version" then
      match ParseString(s, p, VERSION_SIZE)
      case None => Err(EINVAL)
      case Some((e, t)) => Ok((e, m.(version := t)))
    else if key == "memory_quota" then
      match ParseInt(s, p)
      case None => Err(EINVAL)
      case Some((e, v)) => Ok((e, m.(quota := v)))
    else if key == "capabilities" then
      match ParseCaps(s, p, m.caps, mask)
      case None => Err(EINVAL)
      case Some((e, c)) => Ok((e, m.(caps := c)))
    else if key == "network_policy" then Err(ENOTSUP)
    else Ok((Skip(s, p, 0, false), m))
  }

  /** One key and its value. */
  function ParseMember(s: string, p: nat, m: Manifest, mask: string -> bv32): (r: Result<(nat, Manifest)>)
    requires p <= |s|
    ensures r.Ok? ==> p < r.value.0 <= |s|
  {
    match ParseString(s, p, KEY_SIZE)
    case None => Err(EINVAL)
    case Some((e, key)) =>
      var colon := SkipWs(s, e);
      if colon == |s| || s[colon] != ':' then Err(EINVAL)
      else ParseValue(s, SkipWs(s, colon + 1), key, m, mask)
  }

  /** The object's members; the end of the text ends it as well as the bracket. */
  function MemberLoop(s: string, p: nat, m: Manifest, mask: string -> bv32): (r: Result<Manifest>)
    requires p <= |s|
    decreases |s| - p
  {
    var q := SkipWs(s, p);
    if q == |s| || s[q] == '}' then Ok(m)
    else if s[q] == ',' then MemberLoop(s, q + 1, m, mask)
    else
      match ParseMember(s, q, m, mask)
      case Err(e) => Err(e)
      case Ok((e, m')) => MemberLoop(s, e, m', mask)
  }

  function Parse(s: string, mask: string -> bv32): (r: Result<Manifest>) {
    var p := SkipWs(s, 0);
    if p == |s| || s[p] != '{' then Err(EINVAL) else MemberLoop(s, p + 1, DEFAULTS, mask)
  }

  // ----- the parser's loops -----

  method SkipSpaces(s: string, p0: nat) returns (p: nat)
    requires p0 <= |s|
    ensures p == SkipWs(s, p0)
  {
    p := p0;
    while p < |s| && IsWs(s[p])
      invariant p <= |s| && SkipWs(s, p0) == SkipWs(s, p)
    {
      p := p + 1;
    }
  }

  method ReadString(s: string, p0: nat, size: nat) returns (r: Option<(nat, string)>)
    requires p0 <= |s| && size > 0
    ensures r == ParseString(s, p0, size)
  {
    if p0 == |s| || s[p0] != '"' {
      return None;
    }
    hide CString, Unescape;
    var p := p0 + 1;
    var out := "";
    while p < |s| && s[p] != '"' && |out| < size - 1
      invariant p <= |s| && |out| <= size - 1
      invariant Body(s, p0 + 1, size - 1).0 == Body(s, p, size - 1 - |out|).0
      invariant Body(s, p0 + 1, size - 1).1 == out + Body(s, p, size - 1 - |out|).1
      decreases |s| - p
    {
      if s[p] == '\\' && p + 1 < |s| {
        out := out + [Unescape(s[p + 1])];
        p := p + 2;
      } else {
        out := out + [s[p]];
        p := p + 1;
      }
    }
    assert Body(s, p, size - 1 - |out|) == (p, "") && out + "" == out;
    if p == |s| || s[p] != '"' {
      return None;
    }
    return Some((p + 1, CString(out)));
  }

  method ReadInt(s: string, p0: nat) returns (r: Option<(nat, nat)>)
    requires p0 <= |s|
    ensures r == ParseInt(s, p0)
  {
    var p := SkipSpaces(s, p0);
    var start := p;
    var value: nat := 0;
    while p < |s| && IsDigit(s[p])
      invariant start <= p <= |s| && Digits(s, start, 0) == Digits(s, p, value)
    {
      value := (value * 10 + Digit(s[p])) % WORD;
      p := p + 1;
    }
    return if p == start then None else Some((p, value));
  }

  method SkipValue(s: string, p0: nat) returns (p: nat)
    requires p0 <= |s|
    ensures p == Skip(s, p0, 0, false)
  {
    p := p0;
    var depth: nat := 0;
    var inString := false;
    while p < |s|
      invariant p <= |s| && Skip(s, p0, 0, false) == Skip(s, p, depth, inString)
      decreases |s| - p
    {
      if !inString {
        if s[p] == '"' {
          inString := true;
        } else if Opens(s[p]) {
          depth := depth + 1;
        } else if Closes(s[p]) {
          if depth == 0 {
            return;
          }
          depth := depth - 1;
        } else if s[p] == ',' && depth == 0 {
          return;
        }
      } else if s[p] == '\\' && p + 1 < |s| {
        p := p + 1;
      } else if s[p] == '"' {
        inString := false;
      }
      p := p + 1;
    }
  }

  method ReadCaps(s: string, p0: nat, caps0: bv32, mask: string -> bv32) returns (r: Option<(nat, bv32)>)
    requires p0 <= |s|
    ensures r == ParseCaps(s, p0, caps0, mask)
  {
    var p := SkipSpaces(s, p0);
    if p == |s| || s[p] != '[' {
      return None;
    }
    p := p + 1;
    var caps := caps0;
    ghost var start := p;
    while true
      invariant p <= |s| && CapsLoop(s, start, caps0, mask) == CapsLoop(s, p, caps, mask)
      decreases |s| - p
    {
      p := SkipSpaces(s, p);
      if p == |s| {
        return Some((p, caps));
      }
      if s[p] == ']' {
        return Some((p + 1, caps));
      }
      if s[p] == ',' {
        p := p + 1;
      } else {
        var item := ReadString(s, p, CAP_SIZE);
        if item.None? {
          return None;
        }
        caps := caps | mask(item.value.1);
        p := item.value.0;
      }
    }
  }

  method ReadValue(s: string, p: nat, key: string, m: Manifest, mask: string -> bv32) returns (r: Result<(nat, Manifest)>)
    requires p <= |s|
    ensures r == ParseValue(s, p, key, m, mask)
  {
    if key == "name" {
      var t := ReadString(s, p, NAME_SIZE);
      return if t.None? then Err(EINVAL) else Ok((t.value.0, m.(name := t.value.1)));
    } else if key == "version" {
      var t := ReadString(s, p, VERSION_SIZE);
      return if t.None? then Err(EINVAL) else Ok((t.value.0, m.(version := t.value.1)));
    } else if key == "memory_quota" {
      var v := ReadInt(s, p);
      return if v.None? then Err(EINVAL) else Ok((v.value.0, m.(quota := v.value.1)));
    } else if key == "capabilities" {
      var c := ReadCaps(s, p, m.caps, mask);
      return if c.None? then Err(EINVAL) else Ok((c.value.0, m.(caps := c.value.1)));
    } else if key == "network_policy" {
      return Err(ENOTSUP);
    }
    var e := SkipValue(s, p);
    return Ok((e, m));
  }

  method ParseJson(s: string, mask: string -> bv32) returns (r: Result<Manifest>)
    ensures r == Parse(s, mask)
  {
    hide ParseString, ParseValue, SkipWs;
    var p := SkipSpaces(s, 0);
    if p == |s| || s[p] != '{' {
      return Err(EINVAL);
    }
    p := p + 1;
    var m := DEFAULTS;
    while true
      invariant p <= |s| && Parse(s, mask) == MemberLoop(s, p, m, mask)
      decreases |s| - p
    {
      p := SkipSpaces(s, p);
      if p == |s| || s[p] == '}' {
        return Ok(m);
      }
      if s[p] == ',' {
        p := p + 1;
      } else {
        var key := ReadString(s, p, KEY_SIZE);
        if key.None? {
          return Err(EINVAL);
        }
        var colon := SkipSpaces(s, key.value.0);
        if colon == |s| || s[colon] != ':' {
          return Err(EINVAL);
        }
        var start := SkipSpaces(s, colon + 1);
        var v := ReadValue(s, start, key.value.1, m, mask);
        if v.Err? {
          return Err(v.error);
        }
        p, m := v.value.0, v.value.1;
      }
    }
  }
}
