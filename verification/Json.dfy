/** JSON trees, their printed text and the recursive-descent reading of text, as functions. */
module Json {
  import opened Text
  import opened Literal
  import opened Numbers

  /** A cJSON tree. Strings may be missing (NULL) and an item may have no valid type. */
  datatype Item =
    | Invalid
    | Null
    | False
    | True
    | Number(value: Double)
    | Raw(raw: Option<cstring>)
    | String(text: Option<cstring>)
    | Array(items: seq<Item>)
    | Object(members: seq<Member>)

  datatype Member = Member(key: Option<cstring>, value: Item)

  // ---------------------------------------------------------------- printing

  /** The trees that print_value does not reject. */
  predicate CanPrint(c: Codec, v: Item) {
    match v
    case Invalid => false
    case Number(d) => Printable(c, d)
    case Raw(t) => t.Some?
    case Array(items) => forall i :: 0 <= i < |items| ==> CanPrint(c, items[i])
    case Object(ms) => forall i :: 0 <= i < |ms| ==> CanPrint(c, ms[i].value)
    case _ => true
  }

  function Tabs(n: nat): (t: seq<byte>)
    ensures |t| == n && forall i :: 0 <= i < n ==> t[i] == TAB
  {
    if n == 0 then [] else [TAB] + Tabs(n - 1)
  }

  function When(cond: bool, t: seq<byte>): (r: seq<byte>) {
    if cond then t else []
  }

  /** Text of a tree at a nesting depth; `fmt` selects the formatted layout. */
  function Render(c: Codec, v: Item, fmt: bool, depth: nat): (t: seq<byte>)
    decreases v, 1
  {
    match v
    case Invalid => []
    case Null => NULL_WORD
    case False => FALSE_WORD
    case True => TRUE_WORD
    case Number(d) => Format(c, d)
    case Raw(r) => if r.Some? then r.value else []
    case String(s) => Quoted(s)
    case Array(items) => [LBRACKET] + RenderItems(c, items, fmt, depth + 1) + [RBRACKET]
    case Object(ms) =>
      [LBRACE] + When(fmt, [NEWLINE]) + RenderMembers(c, ms, fmt, depth + 1) + When(fmt, Tabs(depth)) + [RBRACE]
  }

  function ItemSeparator(fmt: bool): (t: seq<byte>) {
    [COMMA] + When(fmt, [SPACE])
  }

  function RenderItems(c: Codec, items: seq<Item>, fmt: bool, depth: nat): (t: seq<byte>)
    decreases items, 0
  {
    if items == [] then []
    else Render(c, items[0], fmt, depth) + When(|items| > 1, ItemSeparator(fmt)) + RenderItems(c, items[1..], fmt, depth)
  }

  function KeyText(key: Option<cstring>, fmt: bool, depth: nat): (t: seq<byte>) {
    When(fmt, Tabs(depth)) + Quoted(key) + [COLON] + When(fmt, [TAB])
  }

  function MemberEnd(fmt: bool, last: bool): (t: seq<byte>) {
    When(!last, [COMMA]) + When(fmt, [NEWLINE])
  }

  function RenderMember(c: Codec, m: Member, fmt: bool, depth: nat): (t: seq<byte>)
    decreases m, 2
  {
    KeyText(m.key, fmt, depth) + Render(c, m.value, fmt, depth)
  }

  function RenderMembers(c: Codec, ms: seq<Member>, fmt: bool, depth: nat): (t: seq<byte>)
    decreases ms, 0
  {
    if ms == [] then []
    else RenderMember(c, ms[0], fmt, depth) + MemberEnd(fmt, |ms| == 1) + RenderMembers(c, ms[1..], fmt, depth)
  }

  // ---------------------------------------------------------------- parsing

  const NESTING_LIMIT := 1000

  datatype Parsed<+T> = Fail | Ok(value: T, rest: seq<byte>)

  function Prepend<T>(x: T, r: Parsed<seq<T>>): (p: Parsed<seq<T>>) {
    if r.Fail? then Fail else Ok([x] + r.value, r.rest)
  }

  predicate StartsWith(s: seq<byte>, w: seq<byte>) {
    w <= s
  }

  function ParseString(s: seq<byte>): (r: Parsed<cstring>)
    ensures r.Ok? ==> |r.rest| < |s|
  {
    if s == [] || s[0] != QUOTE then Fail
    else
      match CloseAt(s[1..])
      case None => Fail
      case Some(k) =>
        match Unescape(s[1..1 + k])
        case None => Fail
        case Some(bytes) => Ok(CString(bytes), s[k + 2..])
  }

  function ParseNumber(c: Codec, s: seq<byte>): (r: Parsed<Item>)
    ensures r.Ok? ==> |r.rest| < |s|
  {
    match Strtod(c, NumberRun(s, NUMBER_ROOM))
    case None => Fail
    case Some((d, used)) => Ok(Number(d), s[used..])
  }

  /** One value at the front of a text that lies inside `depth` containers. */
  function ParseValue(c: Codec, s: seq<byte>, depth: nat): (r: Parsed<Item>)
    ensures r.Ok? ==> |r.rest| < |s|
    decreases |s|, 1
  {
    if StartsWith(s, NULL_WORD) then Ok(Null, s[4..])
    else if StartsWith(s, FALSE_WORD) then Ok(False, s[5..])
    else if StartsWith(s, TRUE_WORD) then Ok(True, s[4..])
    else if s == [] then Fail
    else if s[0] == QUOTE then
      match ParseString(s)
      case Fail => Fail
      case Ok(t, rest) => Ok(String(Some(t)), rest)
    else if s[0] == MINUS || IsDigit(s[0]) then ParseNumber(c, s)
    else if s[0] == LBRACKET then ParseArray(c, s, depth)
    else if s[0] == LBRACE then ParseObject(c, s, depth)
    else Fail
  }

  function ParseArray(c: Codec, s: seq<byte>, depth: nat): (r: Parsed<Item>)
    requires s != []
    ensures r.Ok? ==> |r.rest| < |s|
    decreases |s|, 0
  {
    if depth >= NESTING_LIMIT then Fail
    else
      var r := SkipWs(s[1..]);
      if r != [] && r[0] == RBRACKET then Ok(Array([]), r[1..])
      else
        match ParseElements(c, r, depth + 1)
        case Fail => Fail
        case Ok(items, rest) => Ok(Array(items), rest)
  }

  function ParseObject(c: Codec, s: seq<byte>, depth: nat): (r: Parsed<Item>)
    requires s != []
    ensures r.Ok? ==> |r.rest| < |s|
    decreases |s|, 0
  {
    if depth >= NESTING_LIMIT then Fail
    else
      var r := SkipWs(s[1..]);
      if r != [] && r[0] == RBRACE then Ok(Object([]), r[1..])
      else
        match ParseMembers(c, r, depth + 1)
        case Fail => Fail
        case Ok(ms, rest) => Ok(Object(ms), rest)
  }

  /** Comma-separated values up to and including the closing bracket. */
  function ParseElements(c: Codec, s: seq<byte>, depth: nat): (r: Parsed<seq<Item>>)
    ensures r.Ok? ==> |r.rest| < |s|
    decreases |s|, 2
  {
    match ParseValue(c, SkipWs(s), depth)
    case Fail => Fail
    case Ok(v, after) =>
      var r := SkipWs(after);
      if r == [] then Fail
      else if r[0] == COMMA then
        Prepend(v, ParseElements(c, r[1..], depth))
      else if r[0] == RBRACKET then Ok([v], r[1..])
      else Fail
  }

  /** A key, a colon and a value. */
  function ParseMember(c: Codec, s: seq<byte>, depth: nat): (r: Parsed<Member>)
    ensures r.Ok? ==> |r.rest| < |s|
    decreases |s|, 2
  {
    match ParseString(SkipWs(s))
    case Fail => Fail
    case Ok(key, after) =>
      var r := SkipWs(after);
      if r == [] || r[0] != COLON then Fail
      else
        match ParseValue(c, SkipWs(r[1..]), depth)
        case Fail => Fail
        case Ok(v, rest) => Ok(Member(Some(key), v), rest)
  }

  /** Comma-separated members up to and including the closing brace. */
  function ParseMembers(c: Codec, s: seq<byte>, depth: nat): (r: Parsed<seq<Member>>)
    ensures r.Ok? ==> |r.rest| < |s|
    decreases |s|, 3
  {
    match ParseMember(c, s, depth)
    case Fail => Fail
    case Ok(m, after) =>
      var r := SkipWs(after);
      if r == [] then Fail
      else if r[0] == COMMA then
        Prepend(m, ParseMembers(c, r[1..], depth))
      else if r[0] == RBRACE then Ok([m], r[1..])
      else Fail
  }

  const BOM: seq<byte> := [0xEF, 0xBB, 0xBF]

  /** A byte order mark counts only if at least one more byte follows it. */
  function SkipBom(t: seq<byte>): (r: seq<byte>)
    ensures |r| <= |t| && r == t[|t| - |r|..]
  {
    if |t| >= 4 && StartsWith(t, BOM) then t[3..] else t
  }

  /** cJSON_ParseWithOpts on a C string; with `whole`, nothing but whitespace may follow the value. */
  function ParseText(c: Codec, t: seq<byte>, whole: bool): (r: Parsed<Item>)
    ensures r.Ok? ==> |r.rest| < |t|
  {
    match ParseValue(c, SkipWs(SkipBom(t)), 0)
    case Fail => Fail
    case Ok(v, rest) =>
      if !whole then Ok(v, rest)
      else if SkipWs(rest) == [] then Ok(v, [])
      else Fail
  }
}
