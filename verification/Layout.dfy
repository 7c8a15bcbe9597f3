/**
 The layout of printed text, told by a scan of the text itself: unformatted text has no blank outside
 its literals, and formatted text is unformatted text with blanks put in by fixed rules.
 */
module Layout {
  import opened Text
  import opened Literal
  import opened Numbers
  import opened Json
  import opened RoundTrip
  import opened Minify
  import RenderFacts

  /** Neither blanks nor slashes outside literals. */
  predicate Tight(s: seq<byte>)
    decreases |s|
  {
    if s == [] then true
    else if s[0] == '\"' as int then CloseAt(s[1..]).Some? && Tight(s[CloseAt(s[1..]).value + 2..])
    else s[0] > ' ' as int && s[0] != '/' as int && Tight(s[1..])
  }

  function Indent(n: nat): (t: seq<byte>)
    ensures |t| == n
  {
    seq(n, _ => '\t' as int)
  }

  /** The containers around a place, from the outside in; true for an object. */
  type nesting = seq<bool>

  function Out(open: nesting): (r: nesting)
    ensures |r| <= |open|
  {
    if open == [] then [] else open[..|open| - 1]
  }

  /** How a text continues on a new line within some containers. */
  function Line(open: nesting): (t: seq<byte>) {
    ['\n' as int] + Indent(|open|)
  }

  /** What stands behind a comma: a new line between members, a blank between elements. */
  function Gap(open: nesting): (t: seq<byte>) {
    if open != [] && open[|open| - 1] then Line(open) else [' ' as int]
  }

  /** The containers around what follows a byte. */
  function Entered(b: byte, open: nesting): (r: nesting) {
    if b == '{' as int then open + [true]
    else if b == '[' as int then open + [false]
    else if b == '}' as int || b == ']' as int then Out(open)
    else open
  }

  /** The closing brace stands on a line of its own. */
  function Lead(b: byte, open: nesting): (t: seq<byte>) {
    if b == '}' as int then Line(Out(open)) else []
  }

  /** A new line follows an opening brace, a tab a colon. */
  function Trail(b: byte, open: nesting): (t: seq<byte>) {
    if b == '{' as int then Line(open + [true])
    else if b == ':' as int then ['\t' as int]
    else if b == ',' as int then Gap(open)
    else []
  }

  /** A text laid out, its literals as they are. An empty object has its braces on two lines. */
  function Laid(s: seq<byte>, open: nesting): (t: seq<byte>)
    decreases |s|
  {
    if s == [] then []
    else if s[0] == '\"' as int then
      if CloseAt(s[1..]).None? then s
      else s[..CloseAt(s[1..]).value + 2] + Laid(s[CloseAt(s[1..]).value + 2..], open)
    else if |s| > 1 && s[0] == '{' as int && s[1] == '}' as int then
      [s[0]] + Line(open) + [s[1]] + Laid(s[2..], open)
    else Lead(s[0], open) + [s[0]] + Trail(s[0], open) + Laid(s[1..], Entered(s[0], open))
  }

  // ---- the parts of a text ----

  /** Bytes that the layout passes over. */
  predicate Unmarked(w: seq<byte>) {
    forall i :: 0 <= i < |w| ==> w[i] > 32 && w[i] !in {34, 44, 47, 58, 91, 93, 123, 125}
  }

  /** What a part of a text adds to the scan, whatever follows: nothing loose, and it is laid out as `t`. */
  ghost predicate Part(w: seq<byte>, open: nesting, t: seq<byte>, next: nesting) {
    forall rest :: Scanned(w, open, t, next, rest)
  }

  predicate Scanned(w: seq<byte>, open: nesting, t: seq<byte>, next: nesting, rest: seq<byte>) {
    Tight(w + rest) == Tight(rest) && Laid(w + rest, open) == t + Laid(rest, next)
  }

  lemma PartOn(a: seq<byte>, b: seq<byte>, open: nesting, x: seq<byte>, mid: nesting, y: seq<byte>, next: nesting)
    requires Part(a, open, x, mid) && Part(b, mid, y, next)
    ensures Part(a + b, open, x + y, next)
  {
    hide Tight, Laid;
    forall rest ensures Scanned(a + b, open, x + y, next, rest) {
      Assoc(a, b, rest);
      assert Scanned(a, open, x, mid, b + rest) && Scanned(b, mid, y, next, rest);
      Assoc(x, y, Laid(rest, next));
    }
  }

  lemma PartNone(open: nesting)
    ensures Part([], open, [], open)
  {
    hide Tight, Laid;
    forall rest ensures Scanned([], open, [], open, rest) {
      assert [] + rest == rest && [] + Laid(rest, open) == Laid(rest, open);
    }
  }

  lemma UnmarkedByte(b: byte, rest: seq<byte>, open: nesting)
    requires Unmarked([b])
    ensures Scanned([b], open, [b], open, rest)
  {
    Front(b, rest);
    assert [b][0] == b;
  }

  lemma {:induction false} UnmarkedPart(w: seq<byte>, open: nesting)
    requires Unmarked(w)
    ensures Part(w, open, w, open)
  {
    hide Part, Scanned;
    if w == [] {
      PartNone(open);
    } else {
      forall rest ensures Scanned([w[0]], open, [w[0]], open, rest) {
        UnmarkedByte(w[0], rest, open);
      }
      PartBy([w[0]], open, [w[0]], open);
      UnmarkedPart(w[1..], open);
      PartOn([w[0]], w[1..], open, [w[0]], open, w[1..], open);
      assert [w[0]] + w[1..] == w;
    }
  }

  lemma PartBy(w: seq<byte>, open: nesting, t: seq<byte>, next: nesting)
    requires forall rest :: Scanned(w, open, t, next, rest)
    ensures Part(w, open, t, next)
  {
  }

  lemma LiteralScanned(s: seq<byte>, n: nat, open: nesting)
    requires s != [] && s[0] == QUOTE && CloseAt(s[1..]) == Some(n) && n + 2 <= |s|
    ensures Tight(s) == Tight(s[n + 2..]) && Laid(s, open) == s[..n + 2] + Laid(s[n + 2..], open)
  {
    hide CloseAt;
  }

  lemma QuotedPart(key: Option<cstring>, open: nesting)
    ensures Part(Quoted(key), open, Quoted(key), open)
  {
    hide Tight, Laid, CloseAt, Quoted, Escape;
    var q := Quoted(key);
    forall rest ensures Scanned(q, open, q, open, rest) {
      var k := NormalKey(key).value;
      var s := q + rest;
      QuotedShape(key, rest);
      QuotedShape(key, []);
      CloseAtEscape(k, rest);
      assert [QUOTE] + [] == [QUOTE] && q + [] == q;
      assert s[1..] == Escape(k) + ([QUOTE] + rest);
      LiteralScanned(s, |Escape(k)|, open);
      assert s[..|q|] == q && s[|q|..] == rest;
    }
  }

  /** A byte that opens no literal and no object. */
  lemma MarkPart(b: byte, open: nesting)
    requires b > 32 && b != SLASH && b != QUOTE && b != LBRACE
    ensures Part([b], open, Lead(b, open) + [b] + Trail(b, open), Entered(b, open))
  {
    hide Lead, Trail, Entered;
    forall rest ensures Scanned([b], open, Lead(b, open) + [b] + Trail(b, open), Entered(b, open), rest) {
      Front(b, rest);
    }
  }

  lemma MarkParts(open: nesting)
    ensures Part([LBRACKET], open, [LBRACKET], open + [false])
    ensures Part([RBRACKET], open, [RBRACKET], Out(open))
    ensures Part([COLON], open, [COLON, TAB], open)
    ensures Part([RBRACE], open, Line(Out(open)) + [RBRACE], Out(open))
    ensures Part([COMMA], open, [COMMA] + Gap(open), open)
  {
    hide Part, Line, Gap, Out;
    MarkPart(LBRACKET, open);
    MarkPart(RBRACKET, open);
    MarkPart(COLON, open);
    MarkPart(RBRACE, open);
    MarkPart(COMMA, open);
    assert [] + [LBRACKET] + [] == [LBRACKET] && [] + [RBRACKET] + [] == [RBRACKET] && [] + [COLON] + [TAB] == [COLON, TAB];
    assert [] + [COMMA] + Gap(open) == [COMMA] + Gap(open);
    assert Line(Out(open)) + [RBRACE] + [] == Line(Out(open)) + [RBRACE];
  }

  lemma EmptyPart(open: nesting)
    ensures Part([LBRACE, RBRACE], open, [LBRACE] + Line(open) + [RBRACE], open)
  {
    hide Line;
    forall rest ensures Scanned([LBRACE, RBRACE], open, [LBRACE] + Line(open) + [RBRACE], open, rest) {
      var s := [LBRACE, RBRACE] + rest;
      assert s[2..] == rest && s[1..] == [RBRACE] + rest && s[1..][1..] == rest;
      assert Tight(s) == Tight(s[1..]) == Tight(rest);
      assert Laid(s, open) == [LBRACE] + Line(open) + [RBRACE] + Laid(rest, open);
    }
  }

  /** An opening brace before something other than the closing one. */
  lemma OpenPart(w: seq<byte>, open: nesting, t: seq<byte>, next: nesting)
    requires w != [] && w[0] == QUOTE && Part(w, open + [true], t, next)
    ensures Part([LBRACE] + w, open, [LBRACE] + Line(open + [true]) + t, next)
  {
    hide Line;
    var open' := open + [true];
    forall rest ensures Scanned([LBRACE] + w, open, [LBRACE] + Line(open') + t, next, rest) {
      assert Scanned(w, open', t, next, rest);
      var s := [LBRACE] + w + rest;
      assert s[1..] == w + rest;
      assert Laid(s, open) == [LBRACE] + Line(open') + Laid(w + rest, open');
      Assoc([LBRACE] + Line(open'), t, Laid(rest, next));
    }
  }

  // ---- printed text ----

  lemma IndentTabs(n: nat)
    ensures Indent(n) == Tabs(n)
  {
  }

  lemma LineText(open: nesting)
    ensures Line(open) == [NEWLINE] + Tabs(|open|)
  {
    hide Indent, Tabs;
    IndentTabs(|open|);
  }

  lemma LayoutText(open: nesting)
    ensures Line(open) == [NEWLINE] + Tabs(|open|)
    ensures Gap(open + [true]) == [NEWLINE] + Tabs(|open| + 1) && Gap(open + [false]) == [SPACE]
    ensures Out(open + [true]) == open && Out(open + [false]) == open
  {
    hide Line, Tabs;
    LineText(open);
    LineText(open + [true]);
    Outside(open, true);
    Outside(open, false);
  }

  lemma Outside(open: nesting, b: bool)
    ensures (open + [b])[|open|] == b && (open + [b])[..|open|] == open
  {
  }

  lemma {:induction false} ValuePart(c: Codec, v: Item, open: nesting)
    requires Readable(c, v)
    ensures Part(Render(c, v, false, |open|), open, Render(c, v, true, |open|), open)
    decreases v, 1
  {
    hide Part, RenderItems, RenderMembers, Format, Quoted;
    if v.Array? {
      ArrayPart(c, v.items, open);
    } else if v.Object? {
      ObjectPart(c, v.members, open);
    } else if v.String? {
      QuotedPart(v.text, open);
    } else {
      LeafUnmarked(c, v);
      UnmarkedPart(Render(c, v, false, |open|), open);
    }
  }

  lemma LeafUnmarked(c: Codec, v: Item)
    requires Readable(c, v) && !v.Array? && !v.Object? && !v.String?
    ensures forall d, fmt :: Unmarked(Render(c, v, fmt, d)) && Render(c, v, fmt, d) == Render(c, v, true, 0)
  {
  }

  lemma {:induction false} ArrayPart(c: Codec, items: seq<Item>, open: nesting)
    requires forall i :: 0 <= i < |items| ==> Readable(c, items[i])
    ensures Part(Render(c, Array(items), false, |open|), open, Render(c, Array(items), true, |open|), open)
    decreases items, 3
  {
    hide Part, Render, RenderItems;
    var inside := open + [false];
    var a, b := RenderItems(c, items, false, |inside|), RenderItems(c, items, true, |inside|);
    RenderFacts.ArrayText(c, items, false, |open|);
    RenderFacts.ArrayText(c, items, true, |open|);
    MarkParts(open);
    ItemsPart(c, items, open);
    PartOn([LBRACKET], a, open, [LBRACKET], inside, b, inside);
    MarkParts(inside);
    LayoutText(open);
    PartOn([LBRACKET] + a, [RBRACKET], open, [LBRACKET] + b, inside, [RBRACKET], open);
  }

  lemma {:induction false} ItemsPart(c: Codec, items: seq<Item>, open: nesting)
    requires forall i :: 0 <= i < |items| ==> Readable(c, items[i])
    ensures var inside := open + [false];
            Part(RenderItems(c, items, false, |inside|), inside, RenderItems(c, items, true, |inside|), inside)
    decreases items, 2
  {
    hide Part, Render;
    var inside := open + [false];
    if items == [] {
      PartNone(inside);
    } else {
      var v, w := Render(c, items[0], false, |inside|), Render(c, items[0], true, |inside|);
      var a, b := RenderItems(c, items[1..], false, |inside|), RenderItems(c, items[1..], true, |inside|);
      ValuePart(c, items[0], inside);
      ItemsPart(c, items[1..], open);
      if |items| > 1 {
        MarkParts(inside);
        LayoutText(open);
        PartOn(v, [COMMA], inside, w, inside, [COMMA] + [SPACE], inside);
        PartOn(v + [COMMA], a, inside, w + ([COMMA] + [SPACE]), inside, b, inside);
        assert ItemSeparator(false) == [COMMA] && ItemSeparator(true) == [COMMA] + [SPACE];
      } else {
        assert a == [] && b == [] && v + [] + [] == v && w + [] + [] == w;
      }
    }
  }

  /** Formatted members without the indentation of the first and the end of the last line. */
  function Inner(c: Codec, ms: seq<Member>, d: nat): (t: seq<byte>)
    requires ms != []
    decreases |ms|
  {
    var first := Quoted(ms[0].key) + [COLON, TAB] + Render(c, ms[0].value, true, d);
    if |ms| == 1 then first else first + ([COMMA] + ([NEWLINE] + Tabs(d))) + Inner(c, ms[1..], d)
  }

  lemma {:induction false} InnerText(c: Codec, ms: seq<Member>, d: nat)
    requires ms != []
    ensures RenderMembers(c, ms, true, d) == Tabs(d) + Inner(c, ms, d) + [NEWLINE]
    decreases |ms|
  {
    hide Render, Quoted;
    var first := Quoted(ms[0].key) + [COLON, TAB] + Render(c, ms[0].value, true, d);
    FirstMember(c, ms[0], d);
    if |ms| == 1 {
      assert RenderMembers(c, ms[1..], true, d) == [];
      assert MemberEnd(true, true) == [NEWLINE];
    } else {
      InnerText(c, ms[1..], d);
      var more := Inner(c, ms[1..], d);
      assert MemberEnd(true, false) == [COMMA] + [NEWLINE];
      assert (Tabs(d) + first) + ([COMMA] + [NEWLINE]) + (Tabs(d) + more + [NEWLINE])
          == Tabs(d) + (first + ([COMMA] + ([NEWLINE] + Tabs(d))) + more) + [NEWLINE];
    }
  }

  lemma FirstMember(c: Codec, m: Member, d: nat)
    ensures RenderMember(c, m, true, d) == Tabs(d) + (Quoted(m.key) + [COLON, TAB] + Render(c, m.value, true, d))
    ensures RenderMember(c, m, false, d) == Quoted(m.key) + [COLON] + Render(c, m.value, false, d)
  {
    hide Render, Quoted;
    var q := Quoted(m.key);
    assert Tabs(d) + q + [COLON] + [TAB] + Render(c, m.value, true, d) == Tabs(d) + (q + [COLON, TAB] + Render(c, m.value, true, d));
    assert [] + q + [COLON] + [] == q + [COLON];
  }

  lemma {:induction false} MemberPart(c: Codec, m: Member, inside: nesting)
    requires Readable(c, m.value)
    ensures Part(RenderMember(c, m, false, |inside|), inside,
                 Quoted(m.key) + [COLON, TAB] + Render(c, m.value, true, |inside|), inside)
    decreases m, 2
  {
    hide Part, Render, RenderMember, Quoted;
    var q, d := Quoted(m.key), |inside|;
    FirstMember(c, m, d);
    QuotedPart(m.key, inside);
    MarkParts(inside);
    ValuePart(c, m.value, inside);
    PartOn(q, [COLON], inside, q, inside, [COLON, TAB], inside);
    PartOn(q + [COLON], Render(c, m.value, false, d), inside, q + [COLON, TAB], inside, Render(c, m.value, true, d), inside);
  }

  lemma {:induction false} MembersPart(c: Codec, ms: seq<Member>, open: nesting)
    requires ms != [] && forall i :: 0 <= i < |ms| ==> Readable(c, ms[i].value)
    ensures var inside := open + [true];
            Part(RenderMembers(c, ms, false, |inside|), inside, Inner(c, ms, |inside|), inside)
    decreases ms, 3
  {
    hide Part, Render, RenderMember, Quoted;
    var inside := open + [true];
    var d := |inside|;
    var v, w := RenderMember(c, ms[0], false, d), Quoted(ms[0].key) + [COLON, TAB] + Render(c, ms[0].value, true, d);
    MemberPart(c, ms[0], inside);
    if |ms| == 1 {
      assert RenderMembers(c, ms[1..], false, d) == [];
      assert MemberEnd(false, true) == [] && v + [] + [] == v;
    } else {
      var a, b, gap := RenderMembers(c, ms[1..], false, d), Inner(c, ms[1..], d), [COMMA] + ([NEWLINE] + Tabs(d));
      MembersPart(c, ms[1..], open);
      MarkParts(inside);
      LayoutText(open);
      PartOn(v, [COMMA], inside, w, inside, gap, inside);
      PartOn(v + [COMMA], a, inside, w + gap, inside, b, inside);
      assert MemberEnd(false, false) == [COMMA];
    }
  }

  lemma MembersQuote(c: Codec, ms: seq<Member>, d: nat)
    requires ms != []
    ensures RenderMembers(c, ms, false, d) != [] && RenderMembers(c, ms, false, d)[0] == QUOTE
  {
    hide Render, RenderMembers, RenderMember, MemberEnd;
    FirstMember(c, ms[0], d);
    RenderFacts.MembersStep(c, ms, 0, false, d);
    assert ms[0..] == ms;
    assert Quoted(ms[0].key)[0] == QUOTE;
  }

  lemma {:induction false} ObjectPart(c: Codec, ms: seq<Member>, open: nesting)
    requires forall i :: 0 <= i < |ms| ==> Readable(c, ms[i].value)
    ensures Part(Render(c, Object(ms), false, |open|), open, Render(c, Object(ms), true, |open|), open)
    decreases ms, 4
  {
    hide Part, Render, RenderMembers, Line, Out, Inner;
    var inside := open + [true];
    var d := |inside|;
    var a := RenderMembers(c, ms, false, d);
    ObjectTexts(c, ms, |open|);
    LayoutText(open);
    if ms == [] {
      EmptyPart(open);
    } else {
      var t := Inner(c, ms, d);
      MembersPart(c, ms, open);
      MembersQuote(c, ms, d);
      OpenPart(a, open, t, inside);
      MarkParts(inside);
      PartOn([LBRACE] + a, [RBRACE], open, [LBRACE] + Line(inside) + t, inside, Line(open) + [RBRACE], open);
      InnerText(c, ms, d);
      LayoutText(inside);
      BraceText(Tabs(d), t, Tabs(|open|));
    }
  }

  lemma BraceText(tabs: seq<byte>, t: seq<byte>, last: seq<byte>)
    ensures [LBRACE] + ([NEWLINE] + tabs) + t + ([NEWLINE] + last + [RBRACE])
         == [LBRACE] + [NEWLINE] + (tabs + t + [NEWLINE]) + last + [RBRACE]
  {
  }

  lemma ObjectTexts(c: Codec, ms: seq<Member>, d: nat)
    ensures Render(c, Object(ms), false, d) == [LBRACE] + RenderMembers(c, ms, false, d + 1) + [RBRACE]
    ensures Render(c, Object(ms), true, d) == [LBRACE] + [NEWLINE] + RenderMembers(c, ms, true, d + 1) + Tabs(d) + [RBRACE]
    ensures ms == [] ==> Render(c, Object(ms), false, d) == [LBRACE, RBRACE]
    ensures ms == [] ==> Render(c, Object(ms), true, d) == [LBRACE] + ([NEWLINE] + Tabs(d)) + [RBRACE]
  {
    hide Render, RenderMembers;
    RenderFacts.ObjectText(c, ms, false, d);
    RenderFacts.ObjectText(c, ms, true, d);
    if ms == [] {
      RenderFacts.NoMembers(c, ms, true, d + 1);
      RenderFacts.NoMembers(c, ms, false, d + 1);
      assert ms[0..] == ms;
    }
  }

  /** Unformatted text is tight, and formatted text is that text laid out. */
  lemma PrintedLayout(c: Codec, v: Item)
    requires Readable(c, v)
    ensures Tight(Render(c, v, false, 0)) && Render(c, v, true, 0) == Laid(Render(c, v, false, 0), [])
  {
    hide Render;
    var s, t := Render(c, v, false, 0), Render(c, v, true, 0);
    ValuePart(c, v, []);
    assert Scanned(s, [], t, [], []);
    assert s + [] == s && t + Laid([], []) == t;
  }

  // ---- taking the layout out again ----

  /** Bytes that are blanks for cJSON_Minify. */
  predicate Blanks(w: seq<byte>) {
    forall i :: 0 <= i < |w| ==> Blank(w[i])
  }

  lemma {:induction false} BlanksThinned(w: seq<byte>, s: seq<byte>, m: seq<byte>)
    requires Blanks(w) && Thinned(s, m)
    ensures Thinned(w + s, m)
  {
    if w == [] {
      assert w + s == s;
    } else {
      BlanksThinned(w[1..], s, m);
      assert (w + s)[0] == w[0] && (w + s)[1..] == w[1..] + s;
    }
  }

  lemma {:induction false} BlanksMin(w: seq<byte>, s: seq<byte>)
    requires Blanks(w)
    ensures Min(w + s) == Min(s)
  {
    hide Min;
    if w == [] {
      assert w + s == s;
    } else {
      BlanksMin(w[1..], s);
      MinBlank(w[0], w[1..] + s);
      assert w + s == [w[0]] + (w[1..] + s);
    }
  }

  lemma LineBlank(open: nesting)
    ensures Blanks(Line(open)) && Blanks(Gap(open)) && Blanks([TAB]) && Blanks([])
  {
  }

  /** One step of the layout of a text that is neither at its end nor at a literal. */
  lemma LaidStep(s: seq<byte>, open: nesting)
    requires s != [] && s[0] != QUOTE
    ensures Blanks(Lead(s[0], open)) && Blanks(Trail(s[0], open)) && Blanks(Line(open))
    ensures Laid(s, open)
         == if |s| > 1 && s[0] == LBRACE && s[1] == RBRACE then [s[0]] + (Line(open) + ([s[1]] + Laid(s[2..], open)))
            else Lead(s[0], open) + ([s[0]] + (Trail(s[0], open) + Laid(s[1..], Entered(s[0], open))))
  {
    hide Line, Gap, Out, CloseAt, Entered, Blanks;
    LineBlank(open);
    LineBlank(Out(open));
    LineBlank(open + [true]);
    if |s| > 1 && s[0] == LBRACE && s[1] == RBRACE {
      Regroup([s[0]], Line(open), [s[1]], Laid(s[2..], open));
    } else {
      Regroup(Lead(s[0], open), [s[0]], Trail(s[0], open), Laid(s[1..], Entered(s[0], open)));
    }
  }

  lemma MarkThinned(b: byte, s: seq<byte>, m: seq<byte>)
    requires b != QUOTE && Thinned(s, m)
    ensures Thinned([b] + s, [b] + m)
  {
    Front(b, s);
    Front(b, m);
  }

  lemma LaidLiteral(s: seq<byte>, open: nesting, n: nat, x: seq<byte>)
    requires s != [] && s[0] == QUOTE && CloseAt(s[1..]) == Some(n) && n + 2 <= |s|
    ensures CloseAt((s[..n + 2] + x)[1..]) == Some(n) && (s[..n + 2] + x)[n + 2..] == x
    ensures Laid(s, open) == s[..n + 2] + Laid(s[n + 2..], open)
  {
    hide CloseAt;
    CloseAtTaken(s[1..], x);
    TakenSlices(s, n + 2, x);
  }

  /** Laying out a text, whatever it is, adds nothing but blanks outside literals. */
  lemma {:induction false} LaidThinned(s: seq<byte>, open: nesting)
    ensures Thinned(Laid(s, open), s)
    decreases |s|
  {
    if s == [] {
    } else if s[0] == QUOTE {
      hide CloseAt;
      if CloseAt(s[1..]).None? {
        ThinnedSelf(s);
      } else {
        var n := CloseAt(s[1..]).value;
        var x := Laid(s[n + 2..], open);
        LaidLiteral(s, open, n, x);
        LaidThinned(s[n + 2..], open);
        assert s[..n + 2] <= s && (s[..n + 2] + x)[..n + 2] == s[..n + 2];
      }
    } else {
      hide Thinned, Laid, Lead, Trail, Entered, Line;
      LaidStep(s, open);
      var before, after, inside := Lead(s[0], open), Trail(s[0], open), Entered(s[0], open);
      if !(|s| > 1 && s[0] == LBRACE && s[1] == RBRACE) {
        LaidThinned(s[1..], inside);
        BlanksThinned(after, Laid(s[1..], inside), s[1..]);
        MarkThinned(s[0], after + Laid(s[1..], inside), s[1..]);
        BlanksThinned(before, [s[0]] + (after + Laid(s[1..], inside)), s);
        assert [s[0]] + s[1..] == s;
      } else {
        after := Line(open);
        LaidThinned(s[2..], open);
        MarkThinned(s[1], Laid(s[2..], open), s[2..]);
        BlanksThinned(after, [s[1]] + Laid(s[2..], open), [s[1]] + s[2..]);
        MarkThinned(s[0], after + ([s[1]] + Laid(s[2..], open)), [s[1]] + s[2..]);
        assert [s[0]] + ([s[1]] + s[2..]) == s;
      }
    }
  }

  /** So formatted and unformatted text differ by blanks outside literals. */
  lemma FormattedThinned(c: Codec, v: Item)
    requires Readable(c, v)
    ensures Thinned(Render(c, v, true, 0), Render(c, v, false, 0))
  {
    hide Render, Thinned, Laid, Tight;
    PrintedLayout(c, v);
    LaidThinned(Render(c, v, false, 0), []);
  }

  lemma LaidNothing(open: nesting)
    ensures Laid([], open) == []
  {
  }

  /** A clean literal is copied as it is. */
  lemma LiteralMin(s: seq<byte>, n: nat, x: seq<byte>)
    requires s != [] && s[0] == QUOTE && CloseAt(s[1..]) == Some(n) && n + 2 <= |s|
    requires n == 0 || s[n] != BACKSLASH || x == []
    ensures Min(s[..n + 2] + x) == s[..n + 2] + Min(x)
  {
    hide CloseAt, StringLength, Min;
    var t := s[..n + 2] + x;
    CloseAtTaken(s[1..], x);
    TakenSlices(s, n + 2, x);
    StopsAtClose(t[1..]);
    MinString(t);
    assert t[..n + 2] == s[..n + 2];
  }

  /** cJSON_Minify takes the layout out of a text again, if its literals are clean. */
  lemma {:induction false} MinLaid(s: seq<byte>, open: nesting)
    requires Tight(s) && Clean(s)
    ensures Min(Laid(s, open)) == s
    decreases |s|
  {
    if s == [] {
    } else if s[0] == QUOTE {
      hide CloseAt, Min, Laid;
      var n := CloseAt(s[1..]).value;
      var rest := s[n + 2..];
      LaidLiteral(s, open, n, Laid(rest, open));
      MinLaid(rest, open);
      if rest == [] {
        LaidNothing(open);
      }
      LiteralMin(s, n, Laid(rest, open));
    } else {
      hide Min, Laid, Clean, Tight, Lead, Trail, Entered, Line;
      TightStep(s);
      LaidStep(s, open);
      var before, after, inside := Lead(s[0], open), Trail(s[0], open), Entered(s[0], open);
      if !(|s| > 1 && s[0] == LBRACE && s[1] == RBRACE) {
        MinLaid(s[1..], inside);
        BlanksMin(before, [s[0]] + (after + Laid(s[1..], inside)));
        MinOrdinary(s[0], after + Laid(s[1..], inside));
        BlanksMin(after, Laid(s[1..], inside));
        assert [s[0]] + s[1..] == s;
      } else {
        after := Line(open);
        TightStep(s[1..]);
        assert s[1..][1..] == s[2..];
        MinLaid(s[2..], open);
        MinOrdinary(s[0], after + ([s[1]] + Laid(s[2..], open)));
        BlanksMin(after, [s[1]] + Laid(s[2..], open));
        MinOrdinary(s[1], Laid(s[2..], open));
        assert [s[0]] + ([s[1]] + s[2..]) == s;
      }
    }
  }

  lemma TightStep(s: seq<byte>)
    requires Tight(s) && Clean(s) && s != [] && s[0] != QUOTE
    ensures Tight(s[1..]) && Clean(s[1..]) && Ordinary(s[0])
  {
  }

  /** Minifying what cJSON_Print prints gives what cJSON_PrintUnformatted prints, if its literals are clean. */
  lemma MinifyPrinted(c: Codec, v: Item)
    requires Readable(c, v) && Clean(Render(c, v, false, 0))
    ensures Min(Render(c, v, true, 0)) == Render(c, v, false, 0)
  {
    hide Render, Min, Laid, Tight, Clean;
    PrintedLayout(c, v);
    MinLaid(Render(c, v, false, 0), []);
  }
}
