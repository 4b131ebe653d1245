/**
 Manifest documents as they are written, and what the parser makes of them: the fields come
 back, fields that are too long are refused, and a value nobody asked for changes nothing.
 */
module JsonDocs {
  import opened Errnos
  import opened Slices
  import opened Json

  // ----- documents -----

  /** A value under an unknown key: plain text, a string, or brackets around any run of these. */
  datatype Value = Plain(text: string) | Quoted(raw: string) | Group(brace: bool, parts: Parts)

  datatype Parts = Nil | Cons(head: Value, tail: Parts)

  /** A capability in the array, with the spaces around it. */
  datatype Item = Item(before: string, raw: string, after: string)

  datatype Field =
    | Name(raw: string)
    | Version(raw: string)
    | Quota(digits: string)
    | Caps(items: seq<Item>, last: string)
    | Unknown(key: string, value: Value)

  /** `gap` is any further commas and spaces before it. */
  datatype Member = Member(gap: string, w0: string, w1: string, w2: string, field: Field, w3: string)

  function Literally(raw: string): (r: string) { Cat("\"", Cat(raw, "\"")) }

  function PrintValue(v: Value): (r: string) {
    match v
    case Plain(text) => text
    case Quoted(raw) => Literally(raw)
    case Group(brace, parts) =>
      Cat(if brace then "{" else "[", Cat(PrintParts(parts), if brace then "}" else "]"))
  }

  function PrintParts(ps: Parts): (r: string) {
    match ps
    case Nil => ""
    case Cons(v, rest) => Cat(PrintValue(v), PrintParts(rest))
  }

  function PrintItem(it: Item): (r: string) { Cat(it.before, Cat(Literally(it.raw), it.after)) }

  /** The elements separated by commas. */
  function PrintItems(items: seq<Item>, first: bool): (r: string) {
    if items == [] then ""
    else Cat(if first then "" else ",", Cat(PrintItem(items[0]), PrintItems(items[1..], false)))
  }

  function KeyText(f: Field): (r: string) {
    match f
    case Name(_) => "name"
    case Version(_) => "version"
    case Quota(_) => "memory_quota"
    case Caps(_, _) => "capabilities"
    case Unknown(key, _) => key
  }

  function PrintField(f: Field): (r: string) {
    match f
    case Name(raw) => Literally(raw)
    case Version(raw) => Literally(raw)
    case Quota(digits) => digits
    case Caps(items, last) => Cat("[", Cat(PrintItems(items, true), Cat(last, "]")))
    case Unknown(_, v) => PrintValue(v)
  }

  /** Spaces, key, spaces, colon, spaces, value, spaces. */
  function PrintMember(m: Member): (r: string) {
    Cat(PrintItem(Item(m.w0, KeyText(m.field), m.w1)), Cat(":", Cat(m.w2, Cat(PrintField(m.field), m.w3))))
  }

  function PrintMembers(ms: seq<Member>, first: bool): (r: string) {
    if ms == [] then ""
    else Cat(if first then "" else ",", Cat(ms[0].gap, Cat(PrintMember(ms[0]), PrintMembers(ms[1..], false))))
  }

  /** Spaces, the opening bracket and the members; `close` is what follows them. */
  function PrintDoc(w: string, ms: seq<Member>, close: string): (r: string) {
    Cat(w, Cat("{", Cat(PrintMembers(ms, true), close)))
  }

  // ----- which are well formed -----

  /** Space, tab, line feed and carriage return: the white space of RFC 8259, section 2. */
  predicate Space(c: char) { c as int == 0x20 || c as int == 0x09 || c as int == 0x0A || c as int == 0x0D }

  predicate Spaces(t: string) { forall i :: 0 <= i < |t| ==> Space(t[i]) }

  predicate Gap(t: string) { forall i :: 0 <= i < |t| ==> Space(t[i]) || t[i] == ',' }

  /** The closing bracket with any text after it, or the end of the text. */
  predicate Closing(t: string) { t == "" || t[0] == '}' }

  /** Between quotes: no bare quote, and no backslash without a character after it. */
  predicate RawOk(raw: string) {
    raw == "" || if raw[0] == '\\' then |raw| >= 2 && RawOk(raw[2..]) else raw[0] != '"' && RawOk(raw[1..])
  }

  function Unquote(raw: string): (r: string) {
    if raw == "" then ""
    else if raw[0] == '\\' && |raw| >= 2 then [Unescape(raw[1])] + Unquote(raw[2..])
    else [raw[0]] + Unquote(raw[1..])
  }

  predicate PlainChar(c: char) { c != '"' && c != '{' && c != '}' && c != '[' && c != ']' }

  /** `top`: not inside brackets, where a comma would end the value. */
  predicate ValueOk(v: Value, top: bool) {
    match v
    case Plain(text) => forall i :: 0 <= i < |text| ==> PlainChar(text[i]) && (top ==> text[i] != ',')
    case Quoted(raw) => RawOk(raw)
    case Group(_, parts) => PartsOk(parts)
  }

  predicate PartsOk(ps: Parts) {
    match ps
    case Nil => true
    case Cons(v, rest) => ValueOk(v, false) && PartsOk(rest)
  }

  predicate ItemOk(it: Item) { Spaces(it.before) && RawOk(it.raw) && Spaces(it.after) }

  predicate IsKnown(key: string) {
    key == "name" || key == "version" || key == "memory_quota" || key == "capabilities" || key == "network_policy"
  }

  predicate ItemsOk(items: seq<Item>) { forall i :: 0 <= i < |items| ==> ItemOk(items[i]) }

  predicate MembersOk(ms: seq<Member>) { forall i :: 0 <= i < |ms| ==> MemberOk(ms[i]) }

  predicate FieldOk(f: Field) {
    match f
    case Name(raw) => RawOk(raw)
    case Version(raw) => RawOk(raw)
    case Quota(digits) => digits != "" && AllDigits(digits)
    case Caps(items, last) => Spaces(last) && ItemsOk(items)
    case Unknown(key, v) => RawOk(key) && !IsKnown(CString(Unquote(key))) && ValueOk(v, true)
  }

  predicate MemberOk(m: Member) { Gap(m.gap) && Spaces(m.w0) && Spaces(m.w1) && Spaces(m.w2) && Spaces(m.w3) && FieldOk(m.field) }

  // ----- what they mean -----

  predicate DecimalDigit(c: char) { 0x30 <= c as int <= 0x39 }

  predicate AllDigits(t: string) { forall i :: 0 <= i < |t| ==> DecimalDigit(t[i]) }

  function Number(digits: string): (r: nat) {
    if digits == "" then 0
    else 10 * Number(digits[..|digits| - 1]) + if IsDigit(digits[|digits| - 1]) then Digit(digits[|digits| - 1]) else 0
  }

  predicate Fits(raw: string, size: nat) { |Unquote(raw)| < size }

  function Held(raw: string): (r: string) { CString(Unquote(raw)) }

  predicate ItemsFit(items: seq<Item>) {
    items == [] || (Fits(items[0].raw, 64) && ItemsFit(items[1..]))
  }

  function CapsOf(items: seq<Item>, caps: bv32, mask: string -> bv32): (r: bv32) {
    if items == [] then caps else CapsOf(items[1..], caps | mask(Held(items[0].raw)), mask)
  }

  predicate FieldFits(f: Field) {
    match f
    case Name(raw) => Fits(raw, 32)
    case Version(raw) => Fits(raw, 16)
    case Quota(_) => true
    case Caps(items, _) => ItemsFit(items)
    case Unknown(key, _) => Fits(key, 32)
  }

  function Filled(m: Manifest, f: Field, mask: string -> bv32): (r: Manifest) {
    match f
    case Name(raw) => m.(name := Held(raw))
    case Version(raw) => m.(version := Held(raw))
    case Quota(digits) => m.(quota := Number(digits) % 0x1_0000_0000)
    case Caps(items, _) => m.(caps := CapsOf(items, m.caps, mask))
    case Unknown(_, _) => m
  }

  /** The fields filled in, in order; refused at the first that does not fit. */
  function Meaning(m: Manifest, ms: seq<Member>, mask: string -> bv32): (r: Result<Manifest>)
    decreases |ms|
  {
    if ms == [] then Ok(m)
    else if !FieldFits(ms[0].field) then Err(EINVAL)
    else Meaning(Filled(m, ms[0].field, mask), ms[1..], mask)
  }

  // ----- strings, numbers and spaces -----

  lemma {:induction false} SpacesSkipped(s: string, p: nat, w: string)
    requires Standing(s, p, w) && Spaces(w)
    ensures SkipWs(s, p) == SkipWs(s, p + |w|)
    decreases |w|
  {
    if w != "" {
      StandingAt(s, p, w, 0);
      StandingSplit(s, p, w[..1], w[1..]);
      assert w[..1] + w[1..] == w;
      SpacesSkipped(s, p + 1, w[1..]);
    }
  }

  /** One turn of the string loop. */
  lemma BodyTurn(s: string, p: nat, room: nat)
    requires p < |s|
    ensures s[p] == '"' || room == 0 ==> Body(s, p, room) == (p, "")
    ensures room > 0 && s[p] == '\\' && p + 1 < |s| ==>
              Body(s, p, room) == (Body(s, p + 2, room - 1).0, [Unescape(s[p + 1])] + Body(s, p + 2, room - 1).1)
    ensures room > 0 && s[p] != '"' && s[p] != '\\' ==>
              Body(s, p, room) == (Body(s, p + 1, room - 1).0, [s[p]] + Body(s, p + 1, room - 1).1)
  {
    hide Unescape;
  }

  /** A literal that fits is read whole; one that does not stops short of its closing quote. */
  lemma {:induction false} BodyReads(s: string, p: nat, raw: string, room: nat)
    requires Standing(s, p, raw) && RawOk(raw) && p + |raw| < |s| && s[p + |raw|] == '"'
    ensures |Unquote(raw)| <= room ==> Body(s, p, room) == (p + |raw|, Unquote(raw))
    ensures |Unquote(raw)| > room ==> Body(s, p, room).0 < |s| && s[Body(s, p, room).0] != '"'
    decreases |raw|
  {
    hide Standing, Unescape, Body;
    BodyTurn(s, p, room);
    if raw != "" {
      StandingAt(s, p, raw, 0);
      var n := if raw[0] == '\\' then 2 else 1;
      StandingAt(s, p, raw, n - 1);
      StandingTail(s, p, raw, n);
      if room > 0 {
        BodyReads(s, p + n, raw[n..], room - 1);
      }
    }
  }

  /** A literal stands at `p`: quote, body, quote. */
  predicate Literal(s: string, p: nat, raw: string) {
    && p + |raw| + 1 < |s| && s[p] == '"' && Standing(s, p + 1, raw) && s[p + 1 + |raw|] == '"'
  }

  lemma StringReads(s: string, p: nat, raw: string, size: nat)
    requires Literal(s, p, raw) && RawOk(raw) && size > 0
    ensures ParseString(s, p, size) == if Fits(raw, size) then Some((p + |raw| + 2, Held(raw))) else None
  {
    hide Body, Unquote, RawOk, Standing, CString;
    BodyReads(s, p + 1, raw, size - 1);
  }

  /** A literal the text ends in is refused. */
  lemma {:induction false} OpenBody(s: string, p: nat, raw: string, room: nat)
    requires Standing(s, p, raw) && RawOk(raw) && p + |raw| == |s|
    ensures var q := Body(s, p, room).0; q == |s| || s[q] != '"'
    decreases |raw|
  {
    hide Standing, Unescape, Body;
    BodyEnds(s, room);
    if raw != "" {
      BodyTurn(s, p, room);
      StandingAt(s, p, raw, 0);
      var n := if raw[0] == '\\' then 2 else 1;
      StandingAt(s, p, raw, n - 1);
      StandingTail(s, p, raw, n);
      if room > 0 {
        OpenBody(s, p + n, raw[n..], room - 1);
      }
    }
  }

  lemma BodyEnds(s: string, room: nat)
    ensures Body(s, |s|, room) == (|s|, "")
  {
  }

  lemma OpenStringRefused(s: string, p: nat, raw: string, size: nat)
    requires p < |s| && s[p] == '"' && Standing(s, p + 1, raw) && RawOk(raw) && p + 1 + |raw| == |s| && size > 0
    ensures ParseString(s, p, size) == None
  {
    hide Body, RawOk, Standing;
    OpenBody(s, p + 1, raw, size - 1);
  }

  /** What a backslash before a character stands for. */
  lemma EscapesMean(c: char)
    ensures Unquote(['\\', c]) == [if c == 'n' then 10 as char else if c == 'r' then 13 as char else if c == 't' then 9 as char else c]
  {
    assert ['\\', c][2..] == "";
  }

  /** A zero character ends the text a buffer holds. */
  lemma {:induction false} ZeroEnds(t: string, rest: string)
    requires forall i :: 0 <= i < |t| ==> t[i] != '\0'
    ensures CString(t + "\0" + rest) == t
  {
    if t == "" {
      assert (t + "\0" + rest)[0] == '\0';
    } else {
      assert (t + "\0" + rest)[1..] == t[1..] + "\0" + rest;
      ZeroEnds(t[1..], rest);
    }
  }

  lemma PrintedLiteral(s: string, p: nat, raw: string)
    requires Standing(s, p, Literally(raw))
    ensures Literal(s, p, raw) && |Literally(raw)| == |raw| + 2
  {
    hide Standing, Cat;
    CatStands(s, p, "\"", Cat(raw, "\""));
    CatStands(s, p + 1, raw, "\"");
    StandingAt(s, p, "\"", 0);
    StandingAt(s, p + 1 + |raw|, "\"", 0);
  }

  lemma {:induction false} DigitsRead(s: string, p: nat, n: nat, digits: string)
    requires Standing(s, p, digits) && n <= |digits|
    requires AllDigits(digits)
    ensures p + n <= |s| && Digits(s, p, 0) == Digits(s, p + n, Number(digits[..n]) % WORD)
  {
    if n > 0 {
      DigitsRead(s, p, n - 1, digits);
      StandingAt(s, p, digits, n - 1);
      var d := digits[..n];
      assert d[..n - 1] == digits[..n - 1];
      TimesTen(Number(digits[..n - 1]), Digit(digits[n - 1]));
    }
  }

  lemma TimesTen(v: nat, d: nat)
    ensures (v % WORD * 10 + d) % WORD == (10 * v + d) % WORD
  {
    var q := v / WORD;
    assert 10 * v + d == (v % WORD * 10 + d) + WORD * (10 * q);
  }

  lemma IntReads(s: string, p: nat, digits: string)
    requires Standing(s, p, digits) && digits != ""
    requires AllDigits(digits)
    requires p + |digits| < |s| ==> !IsDigit(s[p + |digits|])
    ensures ParseInt(s, p) == Some((p + |digits|, Number(digits) % WORD))
  {
    StandingAt(s, p, digits, 0);
    assert IsDigit(s[p]) && !IsWs(s[p]);
    assert digits[..|digits|] == digits;
    DigitsRead(s, p, |digits|, digits);
  }

  // ----- skipped values -----

  lemma {:induction false} RawSkipped(s: string, p: nat, raw: string, depth: nat)
    requires Standing(s, p, raw) && RawOk(raw)
    ensures Skip(s, p, depth, true) == Skip(s, p + |raw|, depth, true)
    decreases |raw|
  {
    if raw != "" {
      StandingAt(s, p, raw, 0);
      if raw[0] == '\\' {
        StandingTail(s, p, raw, 2);
        RawSkipped(s, p + 2, raw[2..], depth);
      } else {
        StandingTail(s, p, raw, 1);
        RawSkipped(s, p + 1, raw[1..], depth);
      }
    }
  }

  lemma {:induction false} PlainSkipped(s: string, p: nat, text: string, depth: nat)
    requires Standing(s, p, text)
    requires forall i :: 0 <= i < |text| ==> PlainChar(text[i]) && (depth == 0 ==> text[i] != ',')
    ensures Skip(s, p, depth, false) == Skip(s, p + |text|, depth, false)
    decreases |text|
  {
    if text != "" {
      StandingAt(s, p, text, 0);
      StandingTail(s, p, text, 1);
      PlainSkipped(s, p + 1, text[1..], depth);
    }
  }

  /** The skipper passes over a whole value, at any depth, and is as deep after it as before. */
  lemma {:induction false} ValueSkipped(s: string, p: nat, v: Value, depth: nat)
    requires Standing(s, p, PrintValue(v)) && ValueOk(v, depth == 0)
    ensures p + |PrintValue(v)| <= |s|
    ensures Skip(s, p, depth, false) == Skip(s, p + |PrintValue(v)|, depth, false)
    decreases v
  {
    hide Standing, Skip, Cat, Literally, RawOk;
    match v
    case Plain(text) => PlainSkipped(s, p, text, depth);
    case Quoted(raw) =>
      PrintedLiteral(s, p, raw);
      RawSkipped(s, p + 1, raw, depth);
      QuoteSkipped(s, p, depth);
      QuoteSkipped(s, p + 1 + |raw|, depth);
    case Group(brace, parts) =>
      BracketsStand(s, p, brace, PrintParts(parts));
      PartsSkipped(s, p + 1, parts, depth + 1);
      BracketSkipped(s, p, depth);
      BracketSkipped(s, p + 1 + |PrintParts(parts)|, depth);
  }

  lemma BracketsStand(s: string, p: nat, brace: bool, inner: string)
    requires Standing(s, p, Cat(if brace then "{" else "[", Cat(inner, if brace then "}" else "]")))
    ensures p + 2 + |inner| <= |s| && Opens(s[p]) && Standing(s, p + 1, inner) && Closes(s[p + 1 + |inner|])
    ensures |Cat(if brace then "{" else "[", Cat(inner, if brace then "}" else "]"))| == |inner| + 2
  {
    hide Standing, Cat;
    var open, close := if brace then "{" else "[", if brace then "}" else "]";
    CatStands(s, p, open, Cat(inner, close));
    CatStands(s, p + 1, inner, close);
    StandingAt(s, p, open, 0);
    StandingAt(s, p + 1 + |inner|, close, 0);
  }

  lemma QuoteSkipped(s: string, p: nat, depth: nat)
    requires p < |s| && s[p] == '"'
    ensures Skip(s, p, depth, false) == Skip(s, p + 1, depth, true)
    ensures Skip(s, p, depth, true) == Skip(s, p + 1, depth, false)
  {
  }

  lemma BracketSkipped(s: string, p: nat, depth: nat)
    requires p < |s| && (Opens(s[p]) || Closes(s[p]))
    ensures Opens(s[p]) ==> Skip(s, p, depth, false) == Skip(s, p + 1, depth + 1, false)
    ensures Closes(s[p]) ==> Skip(s, p, depth + 1, false) == Skip(s, p + 1, depth, false)
  {
  }

  lemma {:induction false} PartsSkipped(s: string, p: nat, ps: Parts, depth: nat)
    requires Standing(s, p, PrintParts(ps)) && PartsOk(ps) && depth > 0
    ensures p + |PrintParts(ps)| <= |s|
    ensures Skip(s, p, depth, false) == Skip(s, p + |PrintParts(ps)|, depth, false)
    decreases ps
  {
    hide Skip, Standing, Cat;
    match ps
    case Nil => StandingFits(s, p, "");
    case Cons(v, rest) =>
      CatStands(s, p, PrintValue(v), PrintParts(rest));
      ValueSkipped(s, p, v, depth);
      PartsSkipped(s, p + |PrintValue(v)|, rest, depth);
  }

  // ----- the capability array -----

  lemma ItemStands(s: string, p: nat, it: Item)
    requires Standing(s, p, PrintItem(it)) && Spaces(it.before)
    ensures var q := p + |it.before|;
            && q < |s| && Literal(s, q, it.raw) && SkipWs(s, p) == q
            && Standing(s, q + |it.raw| + 2, it.after) && q + |it.raw| + 2 + |it.after| <= |s|
    ensures |PrintItem(it)| == |it.before| + |it.raw| + 2 + |it.after|
  {
    hide Standing, Spaces, Cat, Literally;
    CatStands(s, p, it.before, Cat(Literally(it.raw), it.after));
    CatStands(s, p + |it.before|, Literally(it.raw), it.after);
    PrintedLiteral(s, p + |it.before|, it.raw);
    SpacesSkipped(s, p, it.before);
  }

  /** The loop does not mind spaces. */
  lemma CapsSpaces(s: string, p: nat, w: string, caps: bv32, mask: string -> bv32)
    requires Standing(s, p, w) && Spaces(w)
    ensures CapsLoop(s, p, caps, mask) == CapsLoop(s, p + |w|, caps, mask)
  {
    SpacesSkipped(s, p, w);
  }

  lemma CapsComma(s: string, p: nat, caps: bv32, mask: string -> bv32)
    requires p < |s| && s[p] == ','
    ensures CapsLoop(s, p, caps, mask) == CapsLoop(s, p + 1, caps, mask)
  {
  }

  lemma CapsString(s: string, p: nat, q: nat, caps: bv32, mask: string -> bv32)
    requires p <= |s| && SkipWs(s, p) == q < |s| && s[q] == '"'
    ensures CapsLoop(s, p, caps, mask) ==
            match ParseString(s, q, CAP_SIZE) case None => None case Some((e, t)) => CapsLoop(s, e, caps | mask(t), mask)
  {
    hide ParseString;
  }

  /** One array element and the spaces around it. */
  lemma ItemReads(s: string, p: nat, it: Item, caps: bv32, mask: string -> bv32)
    requires Standing(s, p, PrintItem(it)) && ItemOk(it)
    ensures p + |PrintItem(it)| <= |s|
    ensures CapsLoop(s, p, caps, mask) ==
            if Fits(it.raw, CAP_SIZE) then CapsLoop(s, p + |PrintItem(it)|, caps | mask(Held(it.raw)), mask) else None
  {
    hide Standing, Spaces, PrintItem, RawOk, Fits, Held, ParseString, CapsLoop, SkipWs;
    ItemStands(s, p, it);
    var q := p + |it.before|;
    StringReads(s, q, it.raw, CAP_SIZE);
    CapsString(s, p, q, caps, mask);
    if Fits(it.raw, CAP_SIZE) {
      CapsSpaces(s, q + |it.raw| + 2, it.after, caps | mask(Held(it.raw)), mask);
    }
  }

  lemma {:induction false} ItemsRead(s: string, p: nat, items: seq<Item>, first: bool, caps: bv32, mask: string -> bv32)
    requires Standing(s, p, PrintItems(items, first)) && ItemsOk(items)
    ensures p + |PrintItems(items, first)| <= |s|
    ensures CapsLoop(s, p, caps, mask) ==
            if ItemsFit(items) then CapsLoop(s, p + |PrintItems(items, first)|, CapsOf(items, caps, mask), mask) else None
    decreases |items|
  {
    hide Standing, ParseString, Fits, Held, Spaces, ItemOk, PrintItem, Cat, CapsLoop;
    if items == [] {
      StandingFits(s, p, "");
    } else {
      var comma := if first then "" else ",";
      var it, rest := items[0], PrintItems(items[1..], false);
      CatStands(s, p, comma, Cat(PrintItem(it), rest));
      CatStands(s, p + |comma|, PrintItem(it), rest);
      if !first {
        StandingAt(s, p, comma, 0);
        CapsComma(s, p, caps, mask);
      }
      ItemReads(s, p + |comma|, it, caps, mask);
      ItemsRead(s, p + |comma| + |PrintItem(it)|, items[1..], false, caps | mask(Held(it.raw)), mask);
    }
  }

  lemma CapsEnd(s: string, p: nat, caps: bv32, mask: string -> bv32)
    requires p <= |s|
    ensures p < |s| && s[p] == ']' ==> CapsLoop(s, p, caps, mask) == Some((p + 1, caps))
    ensures p == |s| ==> CapsLoop(s, p, caps, mask) == Some((p, caps))
  {
  }

  /** An array the text ends in counts as closed. */
  lemma OpenArrayReads(s: string, p: nat, items: seq<Item>, last: string, caps: bv32, mask: string -> bv32)
    requires Standing(s, p, Cat("[", Cat(PrintItems(items, true), last))) && Spaces(last) && ItemsOk(items)
    requires p + 1 + |PrintItems(items, true)| + |last| == |s|
    ensures ParseCaps(s, p, caps, mask) == if ItemsFit(items) then Some((|s|, CapsOf(items, caps, mask))) else None
  {
    hide Standing, CapsLoop, ItemsFit, CapsOf, PrintItems, Spaces, ItemsOk, Cat;
    var e := p + 1 + |PrintItems(items, true)|;
    CatStands(s, p, "[", Cat(PrintItems(items, true), last));
    CatStands(s, p + 1, PrintItems(items, true), last);
    StandingAt(s, p, "[", 0);
    ItemsRead(s, p + 1, items, true, caps, mask);
    CapsSpaces(s, e, last, CapsOf(items, caps, mask), mask);
    CapsEnd(s, e + |last|, CapsOf(items, caps, mask), mask);
  }

  // ----- the value of a known key -----

  lemma TextReads(s: string, v: nat, raw: string, m: Manifest, mask: string -> bv32)
    requires Standing(s, v, Literally(raw)) && RawOk(raw)
    ensures SkipWs(s, v) == v
    ensures ParseValue(s, v, "name", m, mask) ==
            if Fits(raw, NAME_SIZE) then Ok((v + |raw| + 2, m.(name := Held(raw)))) else Err(EINVAL)
    ensures ParseValue(s, v, "version", m, mask) ==
            if Fits(raw, VERSION_SIZE) then Ok((v + |raw| + 2, m.(version := Held(raw)))) else Err(EINVAL)
  {
    hide Standing, Fits, Held, ParseString;
    PrintedLiteral(s, v, raw);
    StringReads(s, v, raw, NAME_SIZE);
    StringReads(s, v, raw, VERSION_SIZE);
  }

  lemma QuotaReads(s: string, v: nat, digits: string, m: Manifest, mask: string -> bv32)
    requires Standing(s, v, digits) && AllDigits(digits) && digits != ""
    requires v + |digits| < |s| ==> !IsDigit(s[v + |digits|])
    ensures SkipWs(s, v) == v
    ensures ParseValue(s, v, "memory_quota", m, mask) == Ok((v + |digits|, m.(quota := Number(digits) % WORD)))
  {
    StandingAt(s, v, digits, 0);
    IntReads(s, v, digits);
    assert IsDigit(s[v]);
    hide Standing, ParseInt, Number;
  }

  lemma CapsRead(s: string, v: nat, items: seq<Item>, last: string, m: Manifest, mask: string -> bv32)
    requires Standing(s, v, Cat("[", Cat(PrintItems(items, true), Cat(last, "]")))) && Spaces(last) && ItemsOk(items)
    ensures SkipWs(s, v) == v
    ensures ParseValue(s, v, "capabilities", m, mask) ==
            if ItemsFit(items)
            then Ok((v + 2 + |PrintItems(items, true)| + |last|, m.(caps := CapsOf(items, m.caps, mask))))
            else Err(EINVAL)
  {
    hide Standing, CapsLoop, ItemsFit, CapsOf, PrintItems, Spaces, ItemsOk, Cat;
    var e := v + 1 + |PrintItems(items, true)|;
    CatStands(s, v, "[", Cat(PrintItems(items, true), Cat(last, "]")));
    CatStands(s, v + 1, PrintItems(items, true), Cat(last, "]"));
    CatStands(s, e, last, "]");
    StandingAt(s, v, "[", 0);
    StandingAt(s, e + |last|, "]", 0);
    ItemsRead(s, v + 1, items, true, m.caps, mask);
    CapsSpaces(s, e, last, CapsOf(items, m.caps, mask), mask);
    CapsEnd(s, e + |last|, CapsOf(items, m.caps, mask), mask);
  }

  /** A printed known field followed by spaces and the end of the member. */
  lemma FieldReads(s: string, v: nat, f: Field, m: Manifest, mask: string -> bv32)
    requires FieldOk(f) && !f.Unknown? && Standing(s, v, PrintField(f))
    requires v + |PrintField(f)| < |s| ==> !IsDigit(s[v + |PrintField(f)|])
    ensures SkipWs(s, v) == v
    ensures ParseValue(s, v, KeyText(f), m, mask) ==
            if FieldFits(f) then Ok((v + |PrintField(f)|, Filled(m, f, mask))) else Err(EINVAL)
  {
    hide Standing, ParseValue, Fits, Held, RawOk, AllDigits, Number, ItemsFit, CapsOf, Spaces, ItemsOk, PrintItems;
    hide Cat, Literally;
    match f
    case Name(raw) =>
      PrintedLiteral(s, v, raw);
      TextReads(s, v, raw, m, mask);
    case Version(raw) =>
      PrintedLiteral(s, v, raw);
      TextReads(s, v, raw, m, mask);
    case Quota(digits) => QuotaReads(s, v, digits, m, mask);
    case Caps(items, last) =>
      CatStands(s, v, "[", Cat(PrintItems(items, true), Cat(last, "]")));
      CatStands(s, v + 1, PrintItems(items, true), Cat(last, "]"));
      CatStands(s, v + 1 + |PrintItems(items, true)|, last, "]");
      CapsRead(s, v, items, last, m, mask);
    case Unknown(_, _) =>
  }

  // ----- the value of an unknown key -----

  lemma {:induction false} SpacesAreSkipped(s: string, p: nat)
    requires p <= |s|
    ensures Skip(s, p, 0, false) == Skip(s, SkipWs(s, p), 0, false)
    decreases |s| - p
  {
    if p < |s| && IsWs(s[p]) {
      SpacesAreSkipped(s, p + 1);
    }
  }

  lemma SpacesArePlain(w: string)
    requires Spaces(w)
    ensures forall i :: 0 <= i < |w| ==> PlainChar(w[i]) && w[i] != ','
  {
    forall i | 0 <= i < |w|
      ensures PlainChar(w[i]) && w[i] != ','
    {
      assert IsWs(w[i]);
    }
  }

  /** What may follow a member: a comma, the closing bracket or the end of the text. */
  predicate AtEnd(s: string, e: nat) { e <= |s| && (e < |s| ==> s[e] == ',' || s[e] == '}') }

  lemma SkipEnds(s: string, p: nat)
    requires AtEnd(s, p)
    ensures Skip(s, p, 0, false) == p
  {
  }

  /** An unknown value is skipped up to the comma or bracket after it, however the leading spaces fall. */
  lemma UnknownSkipped(s: string, v: nat, x: Value, w: string)
    requires ValueOk(x, true) && Spaces(w) && Standing(s, v, PrintValue(x)) && Standing(s, v + |PrintValue(x)|, w)
    requires AtEnd(s, v + |PrintValue(x)| + |w|)
    ensures Skip(s, SkipWs(s, v), 0, false) == v + |PrintValue(x)| + |w|
  {
    hide Standing, Skip, SkipWs, PrintValue, ValueOk, Spaces;
    ValueSkipped(s, v, x, 0);
    SpacesAreSkipped(s, v);
    SpacesArePlain(w);
    PlainSkipped(s, v + |PrintValue(x)|, w, 0);
    SkipEnds(s, v + |PrintValue(x)| + |w|);
  }

  // ----- members -----

  lemma LoopSpaces(s: string, p: nat, w: string, m: Manifest, mask: string -> bv32)
    requires Standing(s, p, w) && Spaces(w)
    ensures MemberLoop(s, p, m, mask) == MemberLoop(s, p + |w|, m, mask)
  {
    hide ParseMember;
    SpacesSkipped(s, p, w);
  }

  lemma {:induction false} PlainKey(t: string)
    requires forall i :: 0 <= i < |t| ==> t[i] != '"' && t[i] != '\\' && t[i] != '\0'
    ensures RawOk(t) && Unquote(t) == t && CString(t) == t
  {
    if t != "" {
      PlainKey(t[1..]);
    }
  }

  /** The key as the parser holds it, if it fits. */
  function KeyOf(f: Field): (r: string) { if f.Unknown? then Held(f.key) else KeyText(f) }

  lemma KeysRead(f: Field)
    requires FieldOk(f)
    ensures RawOk(KeyText(f)) && Held(KeyText(f)) == KeyOf(f)
    ensures !f.Unknown? ==> Fits(KeyText(f), KEY_SIZE)
  {
    if !f.Unknown? {
      PlainKey(KeyText(f));
    }
  }

  /** Where the value of a printed member begins. */
  function ValueAt(p: nat, mem: Member): (r: nat) {
    p + |PrintItem(Item(mem.w0, KeyText(mem.field), mem.w1))| + 1 + |mem.w2|
  }

  /** Spaces, key, spaces, colon, spaces: then the value begins. */
  lemma HeadStands(s: string, p: nat, mem: Member)
    requires Standing(s, p, PrintMember(mem))
    ensures var head, v := Item(mem.w0, KeyText(mem.field), mem.w1), ValueAt(p, mem);
            var c := p + |PrintItem(head)|;
            && Standing(s, p, PrintItem(head)) && c < |s| && s[c] == ':' && Standing(s, c + 1, mem.w2)
            && Standing(s, v, PrintField(mem.field)) && Standing(s, v + |PrintField(mem.field)|, mem.w3)
            && p + |PrintMember(mem)| == v + |PrintField(mem.field)| + |mem.w3| <= |s|
  {
    var head, val := PrintItem(Item(mem.w0, KeyText(mem.field), mem.w1)), PrintField(mem.field);
    hide Standing, Cat, PrintItem, KeyText, PrintField;
    CatStands(s, p, head, Cat(":", Cat(mem.w2, Cat(val, mem.w3))));
    var c := p + |head|;
    CatStands(s, c, ":", Cat(mem.w2, Cat(val, mem.w3)));
    CatStands(s, c + 1, mem.w2, Cat(val, mem.w3));
    CatStands(s, c + 1 + |mem.w2|, val, mem.w3);
    StandingAt(s, c, ":", 0);
  }

  lemma MemberUnfolds(s: string, k: nat, c: nat, m: Manifest, mask: string -> bv32)
    requires k <= |s| && c < |s| && s[c] == ':'
    requires var key := ParseString(s, k, KEY_SIZE); key.Some? ==> SkipWs(s, key.value.0) == c
    ensures ParseMember(s, k, m, mask) ==
            match ParseString(s, k, KEY_SIZE)
            case None => Err(EINVAL)
            case Some((_, key)) => ParseValue(s, SkipWs(s, c + 1), key, m, mask)
  {
    hide ParseString, ParseValue, SkipWs;
  }

  /** A key with spaces around it, a colon and spaces. */
  lemma KeyReads(s: string, p: nat, head: Item, w2: string, m: Manifest, mask: string -> bv32)
    requires Standing(s, p, PrintItem(head)) && ItemOk(head) && Spaces(w2)
    requires var c := p + |PrintItem(head)|; c < |s| && s[c] == ':' && Standing(s, c + 1, w2)
    ensures var v := p + |PrintItem(head)| + 1 + |w2|;
            && v <= |s| && SkipWs(s, p) < |s| && s[SkipWs(s, p)] == '"'
            && ParseMember(s, SkipWs(s, p), m, mask) == (
                 if Fits(head.raw, KEY_SIZE) then ParseValue(s, SkipWs(s, v), Held(head.raw), m, mask) else Err(EINVAL))
  {
    hide Standing, Spaces, RawOk, Fits, Held, ParseString, ParseValue, ParseMember, PrintItem;
    ItemStands(s, p, head);
    var c := p + |PrintItem(head)|;
    SpacesSkipped(s, c - |head.after|, head.after);
    SpacesSkipped(s, c + 1, w2);
    StandingFits(s, c + 1, w2);
    StringReads(s, p + |head.before|, head.raw, KEY_SIZE);
    MemberUnfolds(s, p + |head.before|, c, m, mask);
  }

  lemma HeadReads(s: string, p: nat, mem: Member, m: Manifest, mask: string -> bv32)
    requires MemberOk(mem) && Standing(s, p, PrintMember(mem))
    ensures ValueAt(p, mem) <= |s| && SkipWs(s, p) < |s| && s[SkipWs(s, p)] == '"'
    ensures ParseMember(s, SkipWs(s, p), m, mask) ==
            if Fits(KeyText(mem.field), KEY_SIZE) then ParseValue(s, SkipWs(s, ValueAt(p, mem)), KeyOf(mem.field), m, mask)
            else Err(EINVAL)
  {
    hide Standing, Spaces, FieldOk, RawOk, Fits, Held, PrintField, KeyText, KeyOf, PrintItem, PrintMember, ParseMember;
    KeysRead(mem.field);
    HeadStands(s, p, mem);
    KeyReads(s, p, Item(mem.w0, KeyText(mem.field), mem.w1), mem.w2, m, mask);
  }

  /** One member: the loop goes on after it with the field filled in, or refuses. */
  lemma MemberReads(s: string, p: nat, mem: Member, m: Manifest, mask: string -> bv32)
    requires Standing(s, p, PrintMember(mem)) && MemberOk(mem)
    requires AtEnd(s, p + |PrintMember(mem)|)
    ensures MemberLoop(s, p, m, mask) == (
              if FieldFits(mem.field) then MemberLoop(s, p + |PrintMember(mem)|, Filled(m, mem.field, mask), mask)
              else Err(EINVAL))
  {
    var f := mem.field;
    hide Standing, Spaces, RawOk, Fits, Held, PrintField, KeyText, PrintItem, PrintMember, ParseMember, MemberLoop, ValueAt;
    HeadReads(s, p, mem, m, mask);
    HeadStands(s, p, mem);
    LoopUnfolds(s, p, m, mask);
    var v := ValueAt(p, mem);
    var e := v + |PrintField(f)|;
    if f.Unknown? {
      UnknownReads(s, v, f, mem.w3, m, mask);
    } else {
      EndOfField(s, e, mem.w3);
      FieldReads(s, v, f, m, mask);
      KeysRead(f);
      LoopSpaces(s, e, mem.w3, Filled(m, f, mask), mask);
    }
  }

  /** How the loop goes on from a member. */
  function AfterMember(s: string, r: Result<(nat, Manifest)>, mask: string -> bv32): (res: Result<Manifest>)
    requires r.Ok? ==> r.value.0 <= |s|
  {
    match r
    case Err(e) => Err(e)
    case Ok((e, m)) => MemberLoop(s, e, m, mask)
  }

  lemma LoopUnfolds(s: string, p: nat, m: Manifest, mask: string -> bv32)
    requires p <= |s| && SkipWs(s, p) < |s| && s[SkipWs(s, p)] == '"'
    ensures MemberLoop(s, p, m, mask) == AfterMember(s, ParseMember(s, SkipWs(s, p), m, mask), mask)
  {
    hide ParseMember;
  }

  lemma EndOfField(s: string, e: nat, w: string)
    requires Standing(s, e, w) && Spaces(w) && AtEnd(s, e + |w|)
    ensures e < |s| ==> !IsDigit(s[e])
  {
    if w != "" {
      StandingAt(s, e, w, 0);
      assert Space(s[e]);
    }
  }

  lemma UnknownReads(s: string, v: nat, f: Field, w: string, m: Manifest, mask: string -> bv32)
    requires FieldOk(f) && f.Unknown? && Spaces(w)
    requires Standing(s, v, PrintField(f)) && Standing(s, v + |PrintField(f)|, w)
    requires AtEnd(s, v + |PrintField(f)| + |w|)
    ensures ParseValue(s, SkipWs(s, v), KeyOf(f), m, mask) == Ok((v + |PrintField(f)| + |w|, m))
    ensures FieldFits(f) == Fits(KeyText(f), KEY_SIZE) && Filled(m, f, mask) == m
  {
    hide Standing, Skip, PrintValue, ValueOk, Spaces, RawOk, Fits;
    UnknownSkipped(s, v, f.value, w);
  }

  lemma LoopComma(s: string, p: nat, m: Manifest, mask: string -> bv32)
    requires p < |s| && s[p] == ','
    ensures MemberLoop(s, p, m, mask) == MemberLoop(s, p + 1, m, mask)
  {
    hide ParseMember;
  }

  lemma LoopEnds(s: string, p: nat, m: Manifest, mask: string -> bv32)
    requires p <= |s| && (p < |s| ==> s[p] == '}')
    ensures MemberLoop(s, p, m, mask) == Ok(m)
  {
    hide ParseMember;
  }

  lemma {:induction false} LoopGap(s: string, p: nat, gap: string, m: Manifest, mask: string -> bv32)
    requires Standing(s, p, gap) && Gap(gap)
    ensures MemberLoop(s, p, m, mask) == MemberLoop(s, p + |gap|, m, mask)
    decreases |gap|
  {
    hide MemberLoop;
    if gap != "" {
      StandingAt(s, p, gap, 0);
      StandingTail(s, p, gap, 1);
      if gap[0] == ',' {
        LoopComma(s, p, m, mask);
      } else {
        LoopSpaces(s, p, gap[..1], m, mask);
      }
      LoopGap(s, p + 1, gap[1..], m, mask);
    }
  }

  /** What follows a member when more members may come. */
  lemma MembersBegin(s: string, p: nat, ms: seq<Member>)
    requires Standing(s, p, PrintMembers(ms, false)) && AtEnd(s, p + |PrintMembers(ms, false)|)
    ensures AtEnd(s, p)
  {
    if ms != [] {
      CatStands(s, p, ",", Cat(ms[0].gap, Cat(PrintMember(ms[0]), PrintMembers(ms[1..], false))));
      StandingAt(s, p, ",", 0);
    }
  }

  /** How the loop goes on from members that mean `r`. */
  function AfterMembers(s: string, p: nat, r: Result<Manifest>, mask: string -> bv32): (res: Result<Manifest>)
    requires p <= |s|
  {
    match r
    case Err(e) => Err(e)
    case Ok(m) => MemberLoop(s, p, m, mask)
  }

  lemma MembersStand(s: string, p: nat, ms: seq<Member>, first: bool)
    requires ms != [] && Standing(s, p, PrintMembers(ms, first))
    ensures var comma, rest := if first then "" else ",", PrintMembers(ms[1..], false);
            var p1 := p + |comma| + |ms[0].gap|;
            && Standing(s, p, comma) && Standing(s, p + |comma|, ms[0].gap) && Standing(s, p1, PrintMember(ms[0]))
            && Standing(s, p1 + |PrintMember(ms[0])|, rest)
            && p + |PrintMembers(ms, first)| == p1 + |PrintMember(ms[0])| + |rest| <= |s|
  {
    hide Standing, PrintMember, Cat;
    var comma, rest := if first then "" else ",", PrintMembers(ms[1..], false);
    CatStands(s, p, comma, Cat(ms[0].gap, Cat(PrintMember(ms[0]), rest)));
    CatStands(s, p + |comma|, ms[0].gap, Cat(PrintMember(ms[0]), rest));
    CatStands(s, p + |comma| + |ms[0].gap|, PrintMember(ms[0]), rest);
  }

  lemma {:induction false} MembersRead(s: string, p: nat, ms: seq<Member>, first: bool, m: Manifest, mask: string -> bv32)
    requires Standing(s, p, PrintMembers(ms, first)) && MembersOk(ms) && AtEnd(s, p + |PrintMembers(ms, first)|)
    ensures MemberLoop(s, p, m, mask) == AfterMembers(s, p + |PrintMembers(ms, first)|, Meaning(m, ms, mask), mask)
    decreases |ms|
  {
    hide Standing, MemberOk, PrintMember, MemberLoop, FieldFits, Filled, Cat, AtEnd;
    if ms != [] {
      var comma := if first then "" else ",";
      MembersStand(s, p, ms, first);
      hide PrintMembers;
      if !first {
        StandingAt(s, p, comma, 0);
        LoopComma(s, p, m, mask);
      }
      assert Gap(ms[0].gap) by { GapOf(ms[0]); }
      LoopGap(s, p + |comma|, ms[0].gap, m, mask);
      var p1 := p + |comma| + |ms[0].gap|;
      MembersBegin(s, p1 + |PrintMember(ms[0])|, ms[1..]);
      MemberReads(s, p1, ms[0], m, mask);
      if FieldFits(ms[0].field) {
        MembersRead(s, p1 + |PrintMember(ms[0])|, ms[1..], false, Filled(m, ms[0].field, mask), mask);
      }
    }
  }

  lemma GapOf(mem: Member)
    requires MemberOk(mem)
    ensures Gap(mem.gap)
  {
  }

  /** Where the members of a printed document end. */
  function MembersEnd(w: string, ms: seq<Member>): (r: nat) { |w| + 1 + |PrintMembers(ms, true)| }

  /** The parser reads the members and goes on with what follows them. */
  lemma DocBegins(w: string, ms: seq<Member>, close: string, mask: string -> bv32)
    requires Spaces(w) && MembersOk(ms) && (close == "" || close[0] == ',' || close[0] == '}')
    ensures var s, e := PrintDoc(w, ms, close), MembersEnd(w, ms);
            && Standing(s, e, close) && |s| == e + |close|
            && Parse(s, mask) == AfterMembers(s, e, Meaning(DEFAULTS, ms, mask), mask)
  {
    var s := PrintDoc(w, ms, close);
    DocStands(w, ms, close);
    hide PrintMembers, Meaning, MembersOk, Spaces, MemberLoop, PrintDoc, Standing;
    var e := MembersEnd(w, ms);
    StandingAt(s, |w|, "{", 0);
    SpacesSkipped(s, 0, w);
    if close != "" {
      StandingAt(s, e, close, 0);
    }
    assert AtEnd(s, e);
    MembersRead(s, |w| + 1, ms, true, DEFAULTS, mask);
  }

  lemma DocStands(w: string, ms: seq<Member>, close: string)
    ensures var s, e := PrintDoc(w, ms, close), MembersEnd(w, ms);
            && Standing(s, 0, w) && Standing(s, |w|, "{") && Standing(s, |w| + 1, PrintMembers(ms, true))
            && Standing(s, e, close) && |s| == e + |close|
  {
    var s, body := PrintDoc(w, ms, close), PrintMembers(ms, true);
    hide PrintMembers;
    assert s[0..|s|] == s;
    hide Cat;
    CatStands(s, 0, w, Cat("{", Cat(body, close)));
    CatStands(s, |w|, "{", Cat(body, close));
    CatStands(s, |w| + 1, body, close);
  }

  /**
   Main result: parsing a printed document gives what it means, whatever spaces and further commas
   it has and whatever follows it; the closing bracket may be missing at the end of the text.
   */
  lemma DocReads(w: string, ms: seq<Member>, close: string, mask: string -> bv32)
    requires Spaces(w) && MembersOk(ms) && Closing(close)
    ensures Parse(PrintDoc(w, ms, close), mask) == Meaning(Manifest("", "", 0, 0), ms, mask)
  {
    hide Parse, PrintDoc, Spaces, MembersOk, Meaning, MemberLoop, MembersEnd;
    DocBegins(w, ms, close, mask);
    var s, e := PrintDoc(w, ms, close), MembersEnd(w, ms);
    if close != "" {
      StandingAt(s, e, close, 0);
    }
    var r := Meaning(DEFAULTS, ms, mask);
    if r.Ok? {
      LoopEnds(s, e, r.value, mask);
    }
  }

  // ----- what is refused -----

  /** A text whose first character after the spaces is not the opening bracket. */
  lemma BadStartRefused(w: string, rest: string, mask: string -> bv32)
    requires Spaces(w) && (rest == "" || (!Space(rest[0]) && rest[0] != '{'))
    ensures Parse(Cat(w, rest), mask) == Err(EINVAL)
  {
    var s := Cat(w, rest);
    assert s[0..|s|] == s;
    CatStands(s, 0, w, rest);
    SpacesSkipped(s, 0, w);
    if rest != "" {
      StandingAt(s, |w|, rest, 0);
    }
  }

  /** After the members, a comma and what should be one more. */
  lemma NextMember(w: string, ms: seq<Member>, gap: string, rest: string, mask: string -> bv32)
    requires Spaces(w) && MembersOk(ms) && Gap(gap)
    ensures var s, e := PrintDoc(w, ms, Cat(",", Cat(gap, rest))), MembersEnd(w, ms) + 1 + |gap|;
            && Standing(s, e, rest) && |s| == e + |rest|
            && Parse(s, mask) == AfterMembers(s, e, Meaning(DEFAULTS, ms, mask), mask)
  {
    hide Parse, PrintDoc, Spaces, MembersOk, Meaning, MemberLoop, MembersEnd, Standing, Gap;
    var close := Cat(",", Cat(gap, rest));
    assert close[0] == ',' && |close| == 1 + |gap| + |rest|;
    hide Cat;
    DocBegins(w, ms, close, mask);
    var s, e := PrintDoc(w, ms, close), MembersEnd(w, ms);
    CatStands(s, e, ",", Cat(gap, rest));
    CatStands(s, e + 1, gap, rest);
    StandingAt(s, e, ",", 0);
    var r := Meaning(DEFAULTS, ms, mask);
    if r.Ok? {
      LoopComma(s, e, r.value, mask);
      LoopGap(s, e + 1, gap, r.value, mask);
    }
  }

  lemma JunkStops(s: string, p: nat, m: Manifest, mask: string -> bv32)
    requires p < |s| && !Space(s[p]) && s[p] != ',' && s[p] != '}' && s[p] != '"'
    ensures MemberLoop(s, p, m, mask) == Err(EINVAL)
  {
  }

  /** Where a key should begin, any other character. */
  lemma JunkRefused(w: string, ms: seq<Member>, gap: string, rest: string, mask: string -> bv32)
    requires Spaces(w) && MembersOk(ms) && Gap(gap)
    requires rest != "" && !Space(rest[0]) && rest[0] != ',' && rest[0] != '}' && rest[0] != '"'
    ensures Parse(PrintDoc(w, ms, Cat(",", Cat(gap, rest))), mask) == Err(EINVAL)
  {
    hide Parse, PrintDoc, Spaces, MembersOk, Meaning, MemberLoop, MembersEnd, Cat;
    NextMember(w, ms, gap, rest, mask);
    var s, e := PrintDoc(w, ms, Cat(",", Cat(gap, rest))), MembersEnd(w, ms) + 1 + |gap|;
    StandingAt(s, e, rest, 0);
    MeaningIsOkIff(DEFAULTS, ms, mask);
    var r := Meaning(DEFAULTS, ms, mask);
    if r.Ok? {
      JunkStops(s, e, r.value, mask);
    }
  }

  /** A key, spaces and something else than a colon, or nothing. */
  lemma NoColonRefused(w: string, ms: seq<Member>, gap: string, head: Item, rest: string, mask: string -> bv32)
    requires Spaces(w) && MembersOk(ms) && Gap(gap) && ItemOk(head)
    requires rest == "" || (!Space(rest[0]) && rest[0] != ':')
    ensures Parse(PrintDoc(w, ms, Cat(",", Cat(gap, Cat(PrintItem(head), rest)))), mask) == Err(EINVAL)
  {
    hide Parse, PrintDoc, Spaces, MembersOk, Meaning, MemberLoop, MembersEnd, Cat, PrintItem, ItemOk;
    var tail := Cat(PrintItem(head), rest);
    NextMember(w, ms, gap, tail, mask);
    var s, e := PrintDoc(w, ms, Cat(",", Cat(gap, tail))), MembersEnd(w, ms) + 1 + |gap|;
    CatStands(s, e, PrintItem(head), rest);
    MeaningIsOkIff(DEFAULTS, ms, mask);
    var r := Meaning(DEFAULTS, ms, mask);
    if r.Ok? {
      if rest != "" {
        StandingAt(s, e + |PrintItem(head)|, rest, 0);
      }
      NoColonStops(s, e, head, r.value, mask);
    }
  }

  lemma NoColonStops(s: string, p: nat, head: Item, m: Manifest, mask: string -> bv32)
    requires Standing(s, p, PrintItem(head)) && ItemOk(head)
    requires var c := p + |PrintItem(head)|; c <= |s| && (c < |s| ==> !Space(s[c]) && s[c] != ':')
    ensures MemberLoop(s, p, m, mask) == Err(EINVAL)
  {
    hide Standing, Spaces, RawOk, Fits, Held, ParseString, ParseValue, PrintItem;
    ItemStands(s, p, head);
    var c := p + |PrintItem(head)|;
    SpacesSkipped(s, c - |head.after|, head.after);
    StringReads(s, p + |head.before|, head.raw, KEY_SIZE);
    LoopUnfolds(s, p, m, mask);
  }

  /** A value of this key cannot begin with `c`. */
  predicate WrongStart(key: string, c: char) {
    if key == "name" || key == "version" then c != '"'
    else if key == "memory_quota" then !DecimalDigit(c)
    else key == "capabilities" && c != '['
  }

  /** A key the parser knows with a value of another kind. */
  lemma WrongValueRefused(
      w: string, ms: seq<Member>, gap: string, head: Item, w2: string, rest: string, mask: string -> bv32)
    requires Spaces(w) && MembersOk(ms) && Gap(gap) && ItemOk(head) && Spaces(w2)
    requires rest != "" && !Space(rest[0]) && WrongStart(Held(head.raw), rest[0])
    ensures Parse(PrintDoc(w, ms, Cat(",", Cat(gap, Cat(PrintItem(head), Cat(":", Cat(w2, rest)))))), mask) == Err(EINVAL)
  {
    hide Parse, PrintDoc, Spaces, MembersOk, Meaning, MemberLoop, MembersEnd, Cat, PrintItem, ItemOk, WrongStart, Held;
    var tail := Cat(PrintItem(head), Cat(":", Cat(w2, rest)));
    NextMember(w, ms, gap, tail, mask);
    MeaningIsOkIff(DEFAULTS, ms, mask);
    var r := Meaning(DEFAULTS, ms, mask);
    if r.Ok? {
      WrongTail(PrintDoc(w, ms, Cat(",", Cat(gap, tail))), MembersEnd(w, ms) + 1 + |gap|, head, w2, rest, r.value, mask);
    }
  }

  lemma WrongTail(s: string, p: nat, head: Item, w2: string, rest: string, m: Manifest, mask: string -> bv32)
    requires Standing(s, p, Cat(PrintItem(head), Cat(":", Cat(w2, rest)))) && ItemOk(head) && Spaces(w2)
    requires rest != "" && !Space(rest[0]) && WrongStart(Held(head.raw), rest[0])
    ensures p <= |s| && MemberLoop(s, p, m, mask) == Err(EINVAL)
  {
    hide Spaces, MemberLoop, Cat, PrintItem, ItemOk, WrongStart, Held, Standing, ParseMember, Fits;
    var c := p + |PrintItem(head)|;
    CatStands(s, p, PrintItem(head), Cat(":", Cat(w2, rest)));
    CatStands(s, c, ":", Cat(w2, rest));
    CatStands(s, c + 1, w2, rest);
    StandingAt(s, c, ":", 0);
    StandingAt(s, c + 1 + |w2|, rest, 0);
    KeyReads(s, p, head, w2, m, mask);
    LoopUnfolds(s, p, m, mask);
    WrongStops(s, c + 1 + |w2|, Held(head.raw), m, mask);
  }

  lemma WrongStops(s: string, v: nat, key: string, m: Manifest, mask: string -> bv32)
    requires v < |s| && !Space(s[v]) && WrongStart(key, s[v])
    ensures SkipWs(s, v) == v && ParseValue(s, v, key, m, mask) == Err(EINVAL)
  {
  }

  // ----- members nobody asked for, and members that do not fit -----

  lemma {:induction false} UnknownMeansNothing(m: Manifest, before: seq<Member>, x: Member, after: seq<Member>, mask: string -> bv32)
    requires x.field.Unknown? && Fits(x.field.key, KEY_SIZE)
    ensures Meaning(m, before + [x] + after, mask) == Meaning(m, before + after, mask)
    decreases |before|
  {
    hide Fits;
    if before == [] {
      assert (before + [x] + after)[1..] == before + after;
    } else {
      assert (before + [x] + after)[1..] == before[1..] + [x] + after;
      assert (before + after)[1..] == before[1..] + after;
      UnknownMeansNothing(Filled(m, before[0].field, mask), before[1..], x, after, mask);
    }
  }

  /** Main result: the parser gives the same for a document with a member of an unknown key that fits put in anywhere. */
  lemma UnknownIgnored(
      w: string, before: seq<Member>, x: Member, after: seq<Member>, close: string, mask: string -> bv32)
    requires Spaces(w) && Closing(close) && MembersOk(before) && MembersOk(after) && MemberOk(x)
    requires x.field.Unknown? && Fits(x.field.key, KEY_SIZE)
    ensures Parse(PrintDoc(w, before + [x] + after, close), mask) == Parse(PrintDoc(w, before + after, close), mask)
  {
    hide Spaces, MemberOk, Fits, Parse, PrintDoc, Meaning;
    UnknownMeansNothing(DEFAULTS, before, x, after, mask);
    DocReads(w, before + [x] + after, close, mask);
    DocReads(w, before + after, close, mask);
  }

  lemma {:induction false} MeaningIsOkIff(m: Manifest, ms: seq<Member>, mask: string -> bv32)
    ensures Meaning(m, ms, mask).Ok? <==> forall i :: 0 <= i < |ms| ==> FieldFits(ms[i].field)
    ensures Meaning(m, ms, mask).Err? ==> Meaning(m, ms, mask) == Err(EINVAL)
    decreases |ms|
  {
    hide FieldFits;
    if ms != [] {
      MeaningIsOkIff(Filled(m, ms[0].field, mask), ms[1..], mask);
      assert forall i :: 0 < i < |ms| ==> ms[i] == ms[1..][i - 1];
    }
  }

  /** Main result: a printed document is accepted if and only if every key and string fits its buffer. */
  lemma AcceptedIff(w: string, ms: seq<Member>, close: string, mask: string -> bv32)
    requires Spaces(w) && MembersOk(ms) && Closing(close)
    ensures var r := Parse(PrintDoc(w, ms, close), mask);
            && (r.Ok? <==> forall i :: 0 <= i < |ms| ==> FieldFits(ms[i].field))
            && (r.Err? ==> r == Err(EINVAL))
  {
    hide Spaces, MembersOk, FieldFits, Parse, PrintDoc, Meaning;
    DocReads(w, ms, close, mask);
    MeaningIsOkIff(DEFAULTS, ms, mask);
  }

  /** An unknown key too long for its buffer is refused wherever it stands and whatever its value. */
  lemma LongKeyRefused(
      w: string, before: seq<Member>, x: Member, after: seq<Member>, close: string, mask: string -> bv32)
    requires Spaces(w) && Closing(close) && MembersOk(before + [x] + after) && x.field.Unknown? && !Fits(x.field.key, KEY_SIZE)
    ensures Parse(PrintDoc(w, before + [x] + after, close), mask) == Err(EINVAL)
  {
    hide Spaces, MembersOk, Fits, Parse, PrintDoc;
    AcceptedIff(w, before + [x] + after, close, mask);
    assert (before + [x] + after)[|before|] == x;
  }

  // ----- printing a manifest -----

  /** A string literal's body for any text. */
  function Escape(t: string): (r: string) {
    if t == "" then ""
    else (if t[0] == '"' || t[0] == '\\' then ['\\', t[0]]
          else if t[0] == '\n' then "\\n"
          else if t[0] == '\r' then "\\r"
          else if t[0] == '\t' then "\\t"
          else [t[0]]) + Escape(t[1..])
  }

  lemma {:induction false} EscapeReads(t: string)
    ensures RawOk(Escape(t)) && Unquote(Escape(t)) == t
  {
    if t != "" {
      EscapeReads(t[1..]);
      var raw, rest := Escape(t), Escape(t[1..]);
      if t[0] in "\"\\\n\r\t" {
        assert raw[2..] == rest && Unescape(raw[1]) == t[0];
      } else {
        assert raw[1..] == rest;
      }
    }
  }

  predicate NoZero(t: string) { forall i :: 0 <= i < |t| ==> t[i] != '\0' }

  lemma {:induction false} CStringWhole(t: string)
    requires NoZero(t)
    ensures CString(t) == t
  {
    if t != "" {
      CStringWhole(t[1..]);
    }
  }

  lemma EscapeHeld(t: string)
    requires NoZero(t)
    ensures RawOk(Escape(t)) && Held(Escape(t)) == t && forall size: nat :: Fits(Escape(t), size) <==> |t| < size
  {
    EscapeReads(t);
    CStringWhole(t);
  }

  function Decimal(n: nat): (r: string) {
    if n < 10 then [('0' as int + n) as char] else Decimal(n / 10) + [('0' as int + n % 10) as char]
  }

  lemma {:induction false} DecimalReads(n: nat)
    ensures Decimal(n) != "" && AllDigits(Decimal(n)) && Number(Decimal(n)) == n
  {
    if n >= 10 {
      DecimalReads(n / 10);
      var d := Decimal(n);
      assert d[..|d| - 1] == Decimal(n / 10);
    } else {
      assert Decimal(n)[..0] == "";
    }
  }

  function Names(caps: seq<string>): (r: seq<Item>) {
    if caps == [] then [] else [Item("", Escape(caps[0]), "")] + Names(caps[1..])
  }

  /** The bits of all the names. */
  function MaskOf(caps: seq<string>, bits: bv32, mask: string -> bv32): (r: bv32) {
    if caps == [] then bits else MaskOf(caps[1..], bits | mask(caps[0]), mask)
  }

  lemma {:induction false} NamesMean(caps: seq<string>, bits: bv32, mask: string -> bv32)
    requires forall i :: 0 <= i < |caps| ==> NoZero(caps[i])
    ensures ItemsOk(Names(caps)) && CapsOf(Names(caps), bits, mask) == MaskOf(caps, bits, mask)
    ensures ItemsFit(Names(caps)) <==> forall i :: 0 <= i < |caps| ==> |caps[i]| < 64
  {
    if caps != [] {
      EscapeHeld(caps[0]);
      NamesMean(caps[1..], bits | mask(caps[0]), mask);
      assert Names(caps)[1..] == Names(caps[1..]);
      hide Fits, Held, Escape, NoZero;
    }
  }

  function Bare(f: Field): (r: Member) { Member("", "", "", "", f, "") }

  /** A manifest printed without spaces. */
  function Printed(name: string, version: string, quota: nat, caps: seq<string>): (r: string) {
    PrintDoc("", Fields(name, version, quota, caps), "}")
  }

  function Fields(name: string, version: string, quota: nat, caps: seq<string>): (r: seq<Member>) {
    [Bare(Name(Escape(name))), Bare(Version(Escape(version))), Bare(Quota(Decimal(quota))), Bare(Caps(Names(caps), ""))]
  }

  /** Main result: a printed manifest is parsed back if its strings fit their buffers, and refused otherwise. */
  lemma ManifestRoundTrip(name: string, version: string, quota: nat, caps: seq<string>, mask: string -> bv32)
    requires NoZero(name) && NoZero(version) && quota < 0x1_0000_0000 && forall i :: 0 <= i < |caps| ==> NoZero(caps[i])
    ensures var fit := |name| < 32 && |version| < 16 && forall i :: 0 <= i < |caps| ==> |caps[i]| < 64;
            Parse(Printed(name, version, quota, caps), mask) ==
            if fit then Ok(Manifest(name, version, quota, MaskOf(caps, 0, mask))) else Err(EINVAL)
  {
    hide Escape, Decimal, Names, ItemsOk, ItemsFit, CapsOf, MaskOf, RawOk, Fits, Held, AllDigits, Number, NoZero, PrintDoc, Parse;
    EscapeHeld(name);
    EscapeHeld(version);
    DecimalReads(quota);
    NamesMean(caps, 0, mask);
    var fields := Fields(name, version, quota, caps);
    assert MembersOk(fields);
    DocReads("", fields, "}", mask);
    MeaningOfFour(DEFAULTS, fields[0], fields[1], fields[2], fields[3], mask);
  }

  lemma MeaningOfFour(m: Manifest, a: Member, b: Member, c: Member, d: Member, mask: string -> bv32)
    ensures Meaning(m, [a, b, c, d], mask) ==
            if FieldFits(a.field) && FieldFits(b.field) && FieldFits(c.field) && FieldFits(d.field)
            then Ok(Filled(Filled(Filled(Filled(m, a.field, mask), b.field, mask), c.field, mask), d.field, mask))
            else Err(EINVAL)
  {
    hide FieldFits, Filled;
    var m1 := Filled(m, a.field, mask);
    var m2 := Filled(m1, b.field, mask);
    var m3 := Filled(m2, c.field, mask);
    assert [a, b, c, d][1..] == [b, c, d] && [b, c, d][1..] == [c, d] && [c, d][1..] == [d] && [d][1..] == [];
    assert Meaning(m3, [d], mask) == if FieldFits(d.field) then Ok(Filled(m3, d.field, mask)) else Err(EINVAL);
    assert Meaning(m2, [c, d], mask) == if FieldFits(c.field) then Meaning(m3, [d], mask) else Err(EINVAL);
    assert Meaning(m1, [b, c, d], mask) == if FieldFits(b.field) then Meaning(m2, [c, d], mask) else Err(EINVAL);
  }
}
