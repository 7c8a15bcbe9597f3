/** Parsing what was printed: exactly when it succeeds, and what it yields. */
module RoundTrip {
  import opened Text
  import opened Literal
  import opened Numbers
  import opened Json

  /** Trees whose text is JSON: they print, hold no raw text, and their numbers print as numbers. */
  predicate Readable(c: Codec, v: Item) {
    match v
    case Invalid => false
    case Number(d) => Printable(c, d) && (d.Finite? ==> Legible(c, d.r))
    case Raw(_) => false
    case Array(items) => forall i :: 0 <= i < |items| ==> Readable(c, items[i])
    case Object(ms) => forall i :: 0 <= i < |ms| ==> Readable(c, ms[i].value)
    case _ => true
  }

  function Max(a: nat, b: nat): (m: nat) {
    if a < b then b else a
  }

  /** Number of nested containers. */
  function Height(v: Item): (h: nat)
    decreases v, 0
  {
    match v
    case Array(items) => 1 + ItemsHeight(items)
    case Object(ms) => 1 + MembersHeight(ms)
    case _ => 0
  }

  function ItemsHeight(items: seq<Item>): (h: nat)
    decreases items, 1
  {
    if items == [] then 0 else Max(Height(items[0]), ItemsHeight(items[1..]))
  }

  function MemberHeight(m: Member): (h: nat)
    decreases m, 1
  {
    Height(m.value)
  }

  function MembersHeight(ms: seq<Member>): (h: nat)
    decreases ms, 1
  {
    if ms == [] then 0 else Max(MemberHeight(ms[0]), MembersHeight(ms[1..]))
  }

  /** What a text can express of a tree: a missing string reads as empty, a number as its digits give it, and as null if it is not finite. */
  function Normal(c: Codec, v: Item): (r: Item)
    decreases v, 0
  {
    match v
    case Number(d) => if d.Finite? then Number(ReadBack(c, d.r)) else Null
    case String(None) => String(Some([]))
    case Array(items) => Array(NormalItems(c, items))
    case Object(ms) => Object(NormalMembers(c, ms))
    case _ => v
  }

  function NormalItems(c: Codec, items: seq<Item>): (r: seq<Item>)
    ensures |r| == |items|
    decreases items, 1
  {
    if items == [] then [] else [Normal(c, items[0])] + NormalItems(c, items[1..])
  }

  function NormalKey(key: Option<cstring>): (r: Option<cstring>)
    ensures r.Some?
  {
    if key.None? then Some([]) else key
  }

  function NormalMember(c: Codec, m: Member): (r: Member)
    decreases m, 1
  {
    Member(NormalKey(m.key), Normal(c, m.value))
  }

  function NormalMembers(c: Codec, ms: seq<Member>): (r: seq<Member>)
    ensures |r| == |ms|
    decreases ms, 1
  {
    if ms == [] then [] else [NormalMember(c, ms[0])] + NormalMembers(c, ms[1..])
  }

  /** Success exactly within the nesting limit. */
  function Within<T>(height: nat, depth: nat, value: T, rest: seq<byte>): (r: Parsed<T>) {
    if height + depth <= NESTING_LIMIT then Ok(value, rest) else Fail
  }

  /** What follows a value in a text must not prolong a number. */
  predicate EndsNumber(rest: seq<byte>) {
    rest == [] || !NumberByte(rest[0])
  }

  lemma Regroup(a: seq<byte>, b: seq<byte>, c: seq<byte>, d: seq<byte>)
    ensures a + b + c + d == a + (b + (c + d))
  {
  }

  lemma Regroup6(a: seq<byte>, b: seq<byte>, c: seq<byte>, d: seq<byte>, e: seq<byte>, f: seq<byte>)
    ensures a + b + c + d + e + f == a + (b + (c + (d + (e + f))))
  {
  }

  lemma RenderStart(c: Codec, v: Item, fmt: bool, d: nat, rest: seq<byte>)
    requires Readable(c, v)
    ensures var s := Render(c, v, fmt, d) + rest;
            s != [] && s[0] > 32 && s[0] != RBRACKET && s[0] != RBRACE && s[0] != 0xEF && SkipWs(s) == s
  {
    var t := Render(c, v, fmt, d);
    assert t != [] && t[0] > 32 && t[0] != RBRACKET && t[0] != RBRACE && t[0] != 0xEF;
    assert (t + rest)[0] == t[0];
  }

  lemma ParseStringAt(body: seq<byte>, bytes: cstring)
    requires CloseAt(body).Some? && Unescape(body[..CloseAt(body).value]) == Some(bytes)
    ensures ParseString([QUOTE] + body) == Ok(bytes, body[CloseAt(body).value + 1..])
  {
    var s := [QUOTE] + body;
    var k := CloseAt(body).value;
    Front(QUOTE, body);
    assert s[1..1 + k] == body[..k] && s[k + 2..] == body[k + 1..];
  }

  lemma QuotedShape(key: Option<cstring>, rest: seq<byte>)
    ensures Quoted(key) + rest == [QUOTE] + (Escape(NormalKey(key).value) + ([QUOTE] + rest))
  {
    var e := Escape(NormalKey(key).value);
    assert Quoted(key) == [QUOTE] + e + [QUOTE];
    Regroup([QUOTE], e, [QUOTE], rest);
  }

  lemma ParseQuoted(key: Option<cstring>, rest: seq<byte>)
    ensures ParseString(Quoted(key) + rest) == Ok(NormalKey(key).value, rest)
  {
    hide *;
    var k := NormalKey(key).value;
    var e := Escape(k);
    var end := [QUOTE] + rest;
    QuotedShape(key, rest);
    CloseAtEscape(k, rest);
    TakeDrop(e, end);
    UnescapeEscape(k);
    ParseStringAt(e + end, k);
    assert (e + end)[|e| + 1..] == (e + end)[|e|..][1..];
    Front(QUOTE, rest);
  }

  lemma ParseFormatted(c: Codec, d: Double, rest: seq<byte>, depth: nat)
    requires Printable(c, d) && (d.Finite? ==> Legible(c, d.r)) && EndsNumber(rest)
    ensures ParseValue(c, Format(c, d) + rest, depth) == Ok(Normal(c, Number(d)), rest)
  {
    var t := Format(c, d);
    var s := t + rest;
    assert s[..|t|] == t && s[|t|..] == rest;
    if d.Finite? {
      NumberRunExact(t, rest, NUMBER_ROOM);
      assert s[0] == t[0] != NULL_WORD[0];
      assert ParseValue(c, s, depth) == ParseNumber(c, s);
    }
  }

  lemma ParseWord(c: Codec, w: cstring, rest: seq<byte>, depth: nat)
    requires w == NULL_WORD || w == FALSE_WORD || w == TRUE_WORD
    ensures ParseValue(c, w + rest, depth)
         == Ok(if w == NULL_WORD then Null else if w == FALSE_WORD then False else True, rest)
  {
    var s := w + rest;
    assert w <= s && s[0] == w[0] && s[|w|..] == rest;
  }

  lemma DispatchString(c: Codec, s: seq<byte>, depth: nat)
    requires s != [] && s[0] == QUOTE
    ensures ParseValue(c, s, depth) == match ParseString(s)
                                       case Fail => Fail
                                       case Ok(t, rest) => Ok(String(Some(t)), rest)
  {
  }

  lemma ParseLeaf(c: Codec, v: Item, fmt: bool, d: nat, depth: nat, rest: seq<byte>)
    requires Readable(c, v) && EndsNumber(rest) && !v.Array? && !v.Object?
    ensures ParseValue(c, Render(c, v, fmt, d) + rest, depth) == Ok(Normal(c, v), rest)
  {
    hide ParseValue, ParseString, Quoted;
    match v
    case Null => ParseWord(c, NULL_WORD, rest, depth);
    case False => ParseWord(c, FALSE_WORD, rest, depth);
    case True => ParseWord(c, TRUE_WORD, rest, depth);
    case Number(x) => ParseFormatted(c, x, rest, depth);
    case String(x) =>
      QuotedShape(x, rest);
      ParseQuoted(x, rest);
      DispatchString(c, Quoted(x) + rest, depth);
  }

  lemma DispatchArray(c: Codec, s: seq<byte>, depth: nat)
    requires s != [] && s[0] == LBRACKET
    ensures ParseValue(c, s, depth) == ParseArray(c, s, depth)
  {
  }

  lemma DispatchObject(c: Codec, s: seq<byte>, depth: nat)
    requires s != [] && s[0] == LBRACE
    ensures ParseValue(c, s, depth) == ParseObject(c, s, depth)
  {
  }

  /** Round trip with the nesting limit made explicit, for a value in any context. */
  lemma {:induction false} ParseRendered(c: Codec, v: Item, fmt: bool, d: nat, depth: nat, rest: seq<byte>)
    requires Readable(c, v) && EndsNumber(rest) && depth <= NESTING_LIMIT
    ensures ParseValue(c, Render(c, v, fmt, d) + rest, depth) == Within(Height(v), depth, Normal(c, v), rest)
    decreases v, 0
  {
    hide ParseValue, ParseArray, ParseObject, RenderItems, RenderMembers;
    if v.Array? {
      ArrayCase(c, v.items, fmt, d, depth, rest);
      ParseRenderedArray(c, v.items, fmt, d + 1, depth, rest);
    } else if v.Object? {
      ObjectCase(c, v.members, fmt, d, depth, rest);
      ParseRenderedObject(c, v.members, fmt, d + 1, depth, When(fmt, [NEWLINE]), When(fmt, Tabs(d)), rest);
    } else {
      ParseLeaf(c, v, fmt, d, depth, rest);
    }
  }

  lemma ArrayCase(c: Codec, items: seq<Item>, fmt: bool, d: nat, depth: nat, rest: seq<byte>)
    ensures ParseValue(c, Render(c, Array(items), fmt, d) + rest, depth)
         == ParseArray(c, [LBRACKET] + (RenderItems(c, items, fmt, d + 1) + ([RBRACKET] + rest)), depth)
  {
    Regroup([LBRACKET], RenderItems(c, items, fmt, d + 1), [RBRACKET], rest);
    DispatchArray(c, [LBRACKET] + (RenderItems(c, items, fmt, d + 1) + ([RBRACKET] + rest)), depth);
  }

  lemma ObjectCase(c: Codec, ms: seq<Member>, fmt: bool, d: nat, depth: nat, rest: seq<byte>)
    ensures ParseValue(c, Render(c, Object(ms), fmt, d) + rest, depth)
         == ParseObject(c, [LBRACE] + (When(fmt, [NEWLINE]) + (RenderMembers(c, ms, fmt, d + 1)
                                                               + (When(fmt, Tabs(d)) + ([RBRACE] + rest)))), depth)
  {
    var end := When(fmt, Tabs(d)) + ([RBRACE] + rest);
    Regroup6([LBRACE], When(fmt, [NEWLINE]), RenderMembers(c, ms, fmt, d + 1), When(fmt, Tabs(d)), [RBRACE], rest);
    DispatchObject(c, [LBRACE] + (When(fmt, [NEWLINE]) + (RenderMembers(c, ms, fmt, d + 1) + end)), depth);
  }

  lemma {:induction false} ParseRenderedArray(c: Codec, items: seq<Item>, fmt: bool, d: nat, depth: nat, rest: seq<byte>)
    requires forall i :: 0 <= i < |items| ==> Readable(c, items[i])
    ensures ParseArray(c, [LBRACKET] + (RenderItems(c, items, fmt, d) + ([RBRACKET] + rest)), depth)
         == Within(1 + ItemsHeight(items), depth, Array(NormalItems(c, items)), rest)
    decreases items, 2
  {
    hide ParseElements, Render;
    var inner := RenderItems(c, items, fmt, d) + ([RBRACKET] + rest);
    Front(LBRACKET, inner);
    if items == [] {
      assert inner == [RBRACKET] + rest;
      Front(RBRACKET, rest);
    } else {
      ItemsStart(c, items, fmt, d, [RBRACKET] + rest);
      if depth < NESTING_LIMIT {
        ParseRenderedItems(c, items, fmt, d, depth + 1, rest);
      }
    }
  }

  lemma ItemsStart(c: Codec, items: seq<Item>, fmt: bool, d: nat, end: seq<byte>)
    requires items != [] && Readable(c, items[0])
    ensures var s := RenderItems(c, items, fmt, d) + end; s != [] && s[0] != RBRACKET && SkipWs(s) == s
    ensures RenderItems(c, items, fmt, d) + end
         == Render(c, items[0], fmt, d) + (When(|items| > 1, ItemSeparator(fmt)) + (RenderItems(c, items[1..], fmt, d) + end))
  {
    var sep := When(|items| > 1, ItemSeparator(fmt));
    var more := RenderItems(c, items[1..], fmt, d);
    Regroup(Render(c, items[0], fmt, d), sep, more, end);
    RenderStart(c, items[0], fmt, d, sep + (more + end));
  }

  lemma ElementsStep(c: Codec, s: seq<byte>, ws: seq<byte>, depth: nat, more: seq<byte>,
                     v: Item, h: nat, vs: seq<Item>, hs: nat, rest: seq<byte>)
    requires ParseValue(c, SkipWs(s), depth) == Within(h, depth, v, [COMMA] + (ws + more))
    requires forall i :: 0 <= i < |ws| ==> ws[i] <= 32
    requires ParseElements(c, more, depth) == Within(hs, depth, vs, rest)
    ensures ParseElements(c, s, depth) == Within(Max(h, hs), depth, [v] + vs, rest)
  {
    hide ParseValue;
    Front(COMMA, ws + more);
    SkipBlanks(ws, more);
    assert ParseElements(c, ws + more, depth) == ParseElements(c, more, depth);
  }

  lemma LastElement(c: Codec, s: seq<byte>, depth: nat, rest: seq<byte>, v: Item, h: nat)
    requires ParseValue(c, SkipWs(s), depth) == Within(h, depth, v, [RBRACKET] + rest)
    ensures ParseElements(c, s, depth) == Within(h, depth, [v], rest)
  {
    hide ParseValue;
    Front(RBRACKET, rest);
  }

  lemma {:induction false} ParseRenderedItems(c: Codec, items: seq<Item>, fmt: bool, d: nat, depth: nat, rest: seq<byte>)
    requires items != [] && forall i :: 0 <= i < |items| ==> Readable(c, items[i])
    requires depth <= NESTING_LIMIT
    ensures ParseElements(c, RenderItems(c, items, fmt, d) + ([RBRACKET] + rest), depth)
         == Within(ItemsHeight(items), depth, NormalItems(c, items), rest)
    decreases items, 1
  {
    hide ParseElements, ParseValue, Render, SkipWs;
    var end := [RBRACKET] + rest;
    var more := RenderItems(c, items[1..], fmt, d) + end;
    var tail := When(|items| > 1, ItemSeparator(fmt)) + more;
    ItemsStart(c, items, fmt, d, end);
    if |items| > 1 {
      Assoc([COMMA], When(fmt, [SPACE]), more);
      ParseRendered(c, items[0], fmt, d, depth, tail);
      ParseRenderedItems(c, items[1..], fmt, d, depth, rest);
      ElementsStep(c, RenderItems(c, items, fmt, d) + end, When(fmt, [SPACE]), depth, more,
                   Normal(c, items[0]), Height(items[0]), NormalItems(c, items[1..]), ItemsHeight(items[1..]), rest);
    } else {
      assert tail == end;
      ParseRendered(c, items[0], fmt, d, depth, end);
      LastElement(c, RenderItems(c, items, fmt, d) + end, depth, rest, Normal(c, items[0]), Height(items[0]));
      assert NormalItems(c, items) == [Normal(c, items[0])];
    }
  }

  lemma {:induction false} ParseRenderedObject(c: Codec, ms: seq<Member>, fmt: bool, d: nat, depth: nat,
                                               open: seq<byte>, close: seq<byte>, rest: seq<byte>)
    requires forall i :: 0 <= i < |ms| ==> Readable(c, ms[i].value)
    requires forall i :: 0 <= i < |open| ==> open[i] <= 32
    requires forall i :: 0 <= i < |close| ==> close[i] <= 32
    ensures ParseObject(c, [LBRACE] + (open + (RenderMembers(c, ms, fmt, d) + (close + ([RBRACE] + rest)))), depth)
         == Within(1 + MembersHeight(ms), depth, Object(NormalMembers(c, ms)), rest)
    decreases ms, 3
  {
    hide ParseObject, ParseMembers, RenderMembers, SkipWs;
    var end := close + ([RBRACE] + rest);
    if ms == [] {
      NoMembers(c, fmt, d, end);
      ParseEmptyObject(c, open, close, depth, rest);
    } else {
      var inner := RenderMembers(c, ms, fmt, d) + end;
      assert SkipWs(inner) != [] && SkipWs(inner)[0] == QUOTE by {
        MembersStart(c, ms, fmt, d, end);
      }
      if depth < NESTING_LIMIT {
        ParseRenderedMembers(c, ms, fmt, d, depth + 1, close, rest);
      }
      ParseObjectMembers(c, open, inner, depth, NormalMembers(c, ms), MembersHeight(ms), rest);
    }
  }

  lemma NoMembers(c: Codec, fmt: bool, d: nat, end: seq<byte>)
    ensures RenderMembers(c, [], fmt, d) + end == end
  {
  }

  lemma ParseEmptyObject(c: Codec, open: seq<byte>, close: seq<byte>, depth: nat, rest: seq<byte>)
    requires forall i :: 0 <= i < |open| ==> open[i] <= 32
    requires forall i :: 0 <= i < |close| ==> close[i] <= 32
    ensures ParseObject(c, [LBRACE] + (open + (close + ([RBRACE] + rest))), depth) == Within(1, depth, Object([]), rest)
  {
    var inner := close + ([RBRACE] + rest);
    Front(LBRACE, open + inner);
    SkipBlanks(open, inner);
    SkipBlanks(close, [RBRACE] + rest);
    Front(RBRACE, rest);
  }

  lemma ParseObjectMembers(c: Codec, open: seq<byte>, inner: seq<byte>, depth: nat,
                           ms: seq<Member>, height: nat, rest: seq<byte>)
    requires forall i :: 0 <= i < |open| ==> open[i] <= 32
    requires SkipWs(inner) != [] && SkipWs(inner)[0] == QUOTE
    requires depth < NESTING_LIMIT ==> ParseMembers(c, inner, depth + 1) == Within(height, depth + 1, ms, rest)
    ensures ParseObject(c, [LBRACE] + (open + inner), depth) == Within(1 + height, depth, Object(ms), rest)
  {
    Front(LBRACE, open + inner);
    SkipBlanks(open, inner);
    ParseMembersSkips(c, inner, depth + 1);
    hide ParseMembers;
  }

  lemma MembersStart(c: Codec, ms: seq<Member>, fmt: bool, d: nat, end: seq<byte>)
    requires ms != []
    ensures var r := SkipWs(RenderMembers(c, ms, fmt, d) + end); r != [] && r[0] == QUOTE
    ensures RenderMembers(c, ms, fmt, d) + end
         == RenderMember(c, ms[0], fmt, d) + (MemberEnd(fmt, |ms| == 1) + (RenderMembers(c, ms[1..], fmt, d) + end))
  {
    var tail := MemberEnd(fmt, |ms| == 1) + (RenderMembers(c, ms[1..], fmt, d) + end);
    Regroup(RenderMember(c, ms[0], fmt, d), MemberEnd(fmt, |ms| == 1), RenderMembers(c, ms[1..], fmt, d), end);
    MemberStart(c, ms[0], fmt, d, tail);
  }

  lemma MemberStart(c: Codec, m: Member, fmt: bool, d: nat, end: seq<byte>)
    ensures var value := Render(c, m.value, fmt, d) + end;
            SkipWs(RenderMember(c, m, fmt, d) + end) == Quoted(m.key) + ([COLON] + (When(fmt, [TAB]) + value))
  {
    var value := Render(c, m.value, fmt, d);
    var key := Quoted(m.key);
    Regroup6(When(fmt, Tabs(d)), key, [COLON], When(fmt, [TAB]), value, end);
    var after := key + ([COLON] + (When(fmt, [TAB]) + (value + end)));
    SkipBlanks(When(fmt, Tabs(d)), after);
    assert after[0] == key[0] == QUOTE;
  }

  lemma ParseMembersSkips(c: Codec, s: seq<byte>, depth: nat)
    ensures ParseMembers(c, SkipWs(s), depth) == ParseMembers(c, s, depth)
  {
    assert SkipWs(SkipWs(s)) == SkipWs(s);
    assert ParseMember(c, SkipWs(s), depth) == ParseMember(c, s, depth);
  }

  lemma MemberStep(c: Codec, s: seq<byte>, depth: nat, key: cstring, ws: seq<byte>, value: seq<byte>)
    requires ParseString(SkipWs(s)) == Ok(key, [COLON] + (ws + value))
    requires forall i :: 0 <= i < |ws| ==> ws[i] <= 32
    ensures ParseMember(c, s, depth) == match ParseValue(c, SkipWs(value), depth)
                                        case Fail => Fail
                                        case Ok(v, rest) => Ok(Member(Some(key), v), rest)
  {
    var colon := [COLON] + (ws + value);
    assert SkipWs(colon) == colon && colon[1..] == ws + value;
    SkipBlanks(ws, value);
  }

  lemma {:induction false} ParseRenderedMember(c: Codec, m: Member, fmt: bool, d: nat, depth: nat, rest: seq<byte>)
    requires Readable(c, m.value) && EndsNumber(rest) && depth <= NESTING_LIMIT
    ensures ParseMember(c, RenderMember(c, m, fmt, d) + rest, depth)
         == Within(MemberHeight(m), depth, NormalMember(c, m), rest)
    decreases m, 1
  {
    var value := Render(c, m.value, fmt, d) + rest;
    var colon := [COLON] + (When(fmt, [TAB]) + value);
    MemberStart(c, m, fmt, d, rest);
    ParseQuoted(m.key, colon);
    MemberStep(c, RenderMember(c, m, fmt, d) + rest, depth, NormalKey(m.key).value, When(fmt, [TAB]), value);
    RenderStart(c, m.value, fmt, d, rest);
    ParseRendered(c, m.value, fmt, d, depth, rest);
  }

  lemma MembersStep(c: Codec, s: seq<byte>, ws: seq<byte>, depth: nat, more: seq<byte>,
                    m: Member, h: nat, ms: seq<Member>, hs: nat, rest: seq<byte>)
    requires ParseMember(c, s, depth) == Within(h, depth, m, [COMMA] + (ws + more))
    requires forall i :: 0 <= i < |ws| ==> ws[i] <= 32
    requires ParseMembers(c, more, depth) == Within(hs, depth, ms, rest)
    ensures ParseMembers(c, s, depth) == Within(Max(h, hs), depth, [m] + ms, rest)
  {
    var after := [COMMA] + (ws + more);
    Front(COMMA, ws + more);
    SkipBlanks(ws, more);
    ParseMembersSkips(c, ws + more, depth);
    ParseMembersSkips(c, more, depth);
  }

  lemma {:induction false} ParseRenderedMembers(c: Codec, ms: seq<Member>, fmt: bool, d: nat, depth: nat,
                                                ws: seq<byte>, rest: seq<byte>)
    requires ms != [] && forall i :: 0 <= i < |ms| ==> Readable(c, ms[i].value)
    requires forall i :: 0 <= i < |ws| ==> ws[i] <= 32
    requires depth <= NESTING_LIMIT
    ensures ParseMembers(c, RenderMembers(c, ms, fmt, d) + (ws + ([RBRACE] + rest)), depth)
         == Within(MembersHeight(ms), depth, NormalMembers(c, ms), rest)
    decreases ms, 2
  {
    hide ParseMembers, ParseMember, RenderMember, SkipWs;
    var end := ws + ([RBRACE] + rest);
    var more := RenderMembers(c, ms[1..], fmt, d) + end;
    var tail := MemberEnd(fmt, |ms| == 1) + more;
    MembersStart(c, ms, fmt, d, end);
    if |ms| == 1 {
      assert tail == When(fmt, [NEWLINE]) + end;
      SkipBlanks(When(fmt, [NEWLINE]), end);
      ParseRenderedMember(c, ms[0], fmt, d, depth, tail);
      LastMember(c, RenderMembers(c, ms, fmt, d) + end, ws, depth, rest, NormalMember(c, ms[0]), MemberHeight(ms[0]), tail);
      assert NormalMembers(c, ms) == [NormalMember(c, ms[0])];
    } else {
      Assoc([COMMA], When(fmt, [NEWLINE]), more);
      ParseRenderedMember(c, ms[0], fmt, d, depth, tail);
      ParseRenderedMembers(c, ms[1..], fmt, d, depth, ws, rest);
      MembersStep(c, RenderMembers(c, ms, fmt, d) + end, When(fmt, [NEWLINE]), depth, more,
                  NormalMember(c, ms[0]), MemberHeight(ms[0]), NormalMembers(c, ms[1..]), MembersHeight(ms[1..]), rest);
    }
  }

  lemma LastMember(c: Codec, s: seq<byte>, ws: seq<byte>, depth: nat, rest: seq<byte>,
                   m: Member, h: nat, tail: seq<byte>)
    requires forall i :: 0 <= i < |ws| ==> ws[i] <= 32
    requires ParseMember(c, s, depth) == Within(h, depth, m, tail)
    requires SkipWs(tail) == SkipWs(ws + ([RBRACE] + rest))
    ensures ParseMembers(c, s, depth) == Within(h, depth, [m], rest)
  {
    SkipBlanks(ws, [RBRACE] + rest);
    Front(RBRACE, rest);
    hide ParseMember;
  }

  /**
   Printing and parsing again, formatted or not: it succeeds exactly when the tree nests at most
   1000 containers, consumes the whole text, and yields the normal form of the tree.
   */
  lemma PrintThenParse(c: Codec, v: Item, fmt: bool, whole: bool)
    requires Readable(c, v)
    ensures ParseText(c, Render(c, v, fmt, 0), whole) == Within(Height(v), 0, Normal(c, v), [])
  {
    var t := Render(c, v, fmt, 0);
    assert t + [] == t;
    RenderStart(c, v, fmt, 0, []);
    assert SkipBom(t) == t;
    ParseRendered(c, v, fmt, 0, 0, []);
  }
}
