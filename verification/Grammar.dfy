/**
 The language that the parser accepts, as a grammar: every text is that of one of its syntax trees, and
 a text is accepted exactly if it is one of at most 1000 nested containers.
 */
module Grammar {
  import opened Text
  import opened Literal
  import opened Numbers
  import opened Json
  import opened RoundTrip
  import opened Minify
  import opened MinifyExact
  import P = Parsing

  /**
   A syntax tree keeps what the value does not: the blanks, the spelling of strings and of numbers. The
   blanks of an array or object are those between its brackets if nothing else is there.
   */
  datatype Syntax =
    | Word(word: Item)
    | Str(body: seq<byte>)
    | Num(digits: seq<byte>, d: Double)
    | Arr(blanks: seq<byte>, elements: seq<Element>)
    | Obj(blanks: seq<byte>, entries: seq<Entry>)

  datatype Element = Element(before: seq<byte>, value: Syntax, after: seq<byte>)

  datatype Entry = Entry(before: seq<byte>, key: seq<byte>, beforeColon: seq<byte>, afterColon: seq<byte>, value: Syntax, after: seq<byte>)

  predicate Space(w: seq<byte>) {
    forall i :: 0 <= i < |w| ==> w[i] <= ' ' as int
  }

  function Bytes(s: string): (r: seq<byte>)
    requires forall i :: 0 <= i < |s| ==> s[i] as int < 256
  {
    seq(|s|, i requires 0 <= i < |s| => s[i] as int)
  }

  // ---- the text of a syntax tree ----

  function Spelled(t: Syntax): (s: seq<byte>)
    decreases t, 1
  {
    match t
    case Word(w) => if w.Null? then Bytes("null") else if w.True? then Bytes("true") else Bytes("false")
    case Str(b) => ['\"' as int] + (b + ['\"' as int])
    case Num(w, _) => w
    case Arr(ws, es) => ['[' as int] + if es == [] then ws + [']' as int] else ElementsText(es)
    case Obj(ws, es) => ['{' as int] + if es == [] then ws + ['}' as int] else EntriesText(es)
  }

  /** Elements with their commas and the closing bracket. */
  function ElementsText(es: seq<Element>): (s: seq<byte>)
    requires es != []
    decreases es, 0
  {
    ElementText(es[0]) + if |es| == 1 then [']' as int] else [',' as int] + ElementsText(es[1..])
  }

  function ElementText(e: Element): (s: seq<byte>)
    decreases e, 2
  {
    e.before + (Spelled(e.value) + e.after)
  }

  function EntriesText(es: seq<Entry>): (s: seq<byte>)
    requires es != []
    decreases es, 0
  {
    EntryText(es[0]) + if |es| == 1 then ['}' as int] else [',' as int] + EntriesText(es[1..])
  }

  function EntryText(e: Entry): (s: seq<byte>)
    decreases e, 2
  {
    e.before + (['\"' as int] + (e.key + ['\"' as int]) + (e.beforeColon + ([':' as int] + (e.afterColon + (Spelled(e.value) + e.after)))))
  }

  // ---- which trees there are ----

  /** The bytes that numbers are made of. */
  predicate Numeric(b: byte) {
    b in Bytes("0123456789+-eE.")
  }

  /** What strtod is given of a text: its numeric bytes up to any other, 63 of them at most. */
  predicate Given(run: seq<byte>, s: seq<byte>) {
    && run <= s && |run| <= 63 && (forall i :: 0 <= i < |run| ==> Numeric(run[i]))
    && (|run| < |s| && Numeric(s[|run|]) ==> |run| == 63)
  }

  /** A number is what strtod takes of the bytes at hand. */
  ghost predicate NumberAt(c: Codec, w: seq<byte>, d: Double, rest: seq<byte>) {
    && w != [] && (w[0] == '-' as int || '0' as int <= w[0] <= '9' as int)
    && exists run :: Given(run, w + rest) && |w| <= |run| && c.scan(run) == (d, |w|)
  }

  /** The tree is one of the grammar, where `rest` follows it in the text. */
  ghost predicate Proper(c: Codec, t: Syntax, rest: seq<byte>)
    decreases t, 1
  {
    match t
    case Word(w) => w.Null? || w.True? || w.False?
    case Str(b) => Closed(b, rest)
    case Num(w, d) => NumberAt(c, w, d, rest)
    case Arr(ws, es) => if es == [] then Space(ws) else ProperElements(c, es, rest)
    case Obj(ws, es) => if es == [] then Space(ws) else ProperEntries(c, es, rest)
  }

  function AfterElement(es: seq<Element>, rest: seq<byte>): (s: seq<byte>)
    requires es != []
  {
    if |es| == 1 then [']' as int] + rest else [',' as int] + (ElementsText(es[1..]) + rest)
  }

  ghost predicate ProperElements(c: Codec, es: seq<Element>, rest: seq<byte>)
    requires es != []
    decreases es, 0
  {
    && ProperElement(c, es[0], AfterElement(es, rest))
    && (|es| > 1 ==> ProperElements(c, es[1..], rest))
  }

  ghost predicate ProperElement(c: Codec, e: Element, rest: seq<byte>)
    decreases e, 2
  {
    Space(e.before) && Space(e.after) && Proper(c, e.value, e.after + rest)
  }

  function AfterEntry(es: seq<Entry>, rest: seq<byte>): (s: seq<byte>)
    requires es != []
  {
    if |es| == 1 then ['}' as int] + rest else [',' as int] + (EntriesText(es[1..]) + rest)
  }

  ghost predicate ProperEntries(c: Codec, es: seq<Entry>, rest: seq<byte>)
    requires es != []
    decreases es, 0
  {
    && ProperEntry(c, es[0], AfterEntry(es, rest))
    && (|es| > 1 ==> ProperEntries(c, es[1..], rest))
  }

  ghost predicate ProperEntry(c: Codec, e: Entry, rest: seq<byte>)
    decreases e, 2
  {
    && Space(e.before) && Space(e.beforeColon) && Space(e.afterColon) && Space(e.after)
    && Closed(e.key, AfterKey(e, rest)) && Proper(c, e.value, e.after + rest)
  }

  function AfterKey(e: Entry, rest: seq<byte>): (s: seq<byte>) {
    e.beforeColon + ([':' as int] + (e.afterColon + (Spelled(e.value) + (e.after + rest))))
  }

  // ---- the value and the nesting of a tree ----

  function Decoded(b: seq<byte>): (r: cstring) {
    if Unescape(b).Some? then CString(Unescape(b).value) else []
  }

  function ValueOf(t: Syntax): (v: Item)
    decreases t, 1
  {
    match t
    case Word(w) => w
    case Str(b) => String(Some(Decoded(b)))
    case Num(_, d) => Number(d)
    case Arr(_, es) => Array(ElementValues(es))
    case Obj(_, es) => Object(EntryValues(es))
  }

  function ElementValue(e: Element): (v: Item)
    decreases e, 2
  {
    ValueOf(e.value)
  }

  function ElementValues(es: seq<Element>): (vs: seq<Item>)
    decreases es, 0
  {
    if es == [] then [] else [ElementValue(es[0])] + ElementValues(es[1..])
  }

  function EntryValue(e: Entry): (m: Member)
    decreases e, 2
  {
    Member(Some(Decoded(e.key)), ValueOf(e.value))
  }

  function EntryValues(es: seq<Entry>): (ms: seq<Member>)
    decreases es, 0
  {
    if es == [] then [] else [EntryValue(es[0])] + EntryValues(es[1..])
  }

  function Nesting(t: Syntax): (n: nat)
    decreases t, 1
  {
    match t
    case Arr(_, es) => 1 + ElementsNesting(es)
    case Obj(_, es) => 1 + EntriesNesting(es)
    case _ => 0
  }

  function ElementNesting(e: Element): (n: nat)
    decreases e, 2
  {
    Nesting(e.value)
  }

  function ElementsNesting(es: seq<Element>): (n: nat)
    decreases es, 0
  {
    if es == [] then 0 else Max(ElementNesting(es[0]), ElementsNesting(es[1..]))
  }

  function EntryNesting(e: Entry): (n: nat)
    decreases e, 2
  {
    Nesting(e.value)
  }

  function EntriesNesting(es: seq<Entry>): (n: nat)
    decreases es, 0
  {
    if es == [] then 0 else Max(EntryNesting(es[0]), EntriesNesting(es[1..]))
  }

  // ---- every tree of the grammar is parsed ----

  lemma WordBytes(w: Item)
    requires w.Null? || w.True? || w.False?
    ensures Spelled(Word(w)) == if w.Null? then NULL_WORD else if w.True? then TRUE_WORD else FALSE_WORD
  {
  }

  lemma SpelledStart(c: Codec, t: Syntax, rest: seq<byte>, more: seq<byte>)
    requires Proper(c, t, rest)
    ensures var s := Spelled(t) + more;
            s != [] && s[0] > 32 && s[0] != RBRACKET && s[0] != RBRACE && SkipWs(s) == s
  {
    hide ElementsText, EntriesText, ProperElements, ProperEntries, Closed, Given;
    if t.Word? {
      WordBytes(t.word);
    }
    assert (Spelled(t) + more)[0] == Spelled(t)[0];
  }

  lemma {:induction false} ValueParses(c: Codec, t: Syntax, depth: nat, rest: seq<byte>)
    requires Proper(c, t, rest) && depth <= 1000
    ensures ParseValue(c, Spelled(t) + rest, depth) == Within(Nesting(t), depth, ValueOf(t), rest)
    decreases t, 3
  {
    hide ParseValue, ParseArray, ParseObject, ElementsText, EntriesText, ProperElements, ProperEntries;
    match t
    case Word(w) => WordParses(c, w, depth, rest);
    case Str(b) => StringParses(c, b, depth, rest);
    case Num(w, d) => NumberParses(c, w, d, depth, rest);
    case Arr(ws, es) => ArrayParses(c, ws, es, depth, rest);
    case Obj(ws, es) => ObjectParses(c, ws, es, depth, rest);
  }

  lemma WordParses(c: Codec, w: Item, depth: nat, rest: seq<byte>)
    requires (w.Null? || w.True? || w.False?) && depth <= 1000
    ensures ParseValue(c, Spelled(Word(w)) + rest, depth) == Ok(w, rest)
  {
    hide ParseValue, Spelled;
    WordBytes(w);
    ParseWord(c, if w.Null? then NULL_WORD else if w.True? then TRUE_WORD else FALSE_WORD, rest, depth);
  }

  lemma StringRead(b: seq<byte>, rest: seq<byte>)
    requires Closed(b, rest)
    ensures ParseString(Spelled(Str(b)) + rest) == Ok(Decoded(b), rest)
  {
    hide ParseString, CString, CloseAt, Unescape;
    var s := Spelled(Str(b)) + rest;
    assert s[0] == QUOTE && s[1..] == b + [QUOTE] + rest;
    LiteralRead(s, b, rest);
  }

  lemma StringParses(c: Codec, b: seq<byte>, depth: nat, rest: seq<byte>)
    requires Closed(b, rest) && depth <= 1000
    ensures ParseValue(c, Spelled(Str(b)) + rest, depth) == Ok(String(Some(Decoded(b))), rest)
  {
    hide ParseValue, ParseString, Closed, Decoded;
    var s := Spelled(Str(b)) + rest;
    StringRead(b, rest);
    assert s[0] == QUOTE;
    DispatchString(c, s, depth);
  }

  lemma NumericByte(b: byte)
    ensures Numeric(b) <==> NumberByte(b)
  {
    var digits := Bytes("0123456789+-eE.");
    assert |digits| == 15;
    assert digits == [48, 49, 50, 51, 52, 53, 54, 55, 56, 57, 43, 45, 101, 69, 46];
  }

  lemma GivenRun(run: seq<byte>, s: seq<byte>)
    ensures Given(run, s) <==> run == NumberRun(s, 63)
  {
    hide NumberRun, Numeric, NumberByte;
    var n := NumberRun(s, 63);
    forall b: byte ensures Numeric(b) <==> NumberByte(b) {
      NumericByte(b);
    }
    if Given(run, s) {
      assert forall i :: 0 <= i < |run| && i < |n| ==> run[i] == s[i] == n[i];
    }
  }

  lemma NumberExactly(c: Codec, w: seq<byte>, d: Double, rest: seq<byte>)
    requires w != []
    ensures (exists run :: Given(run, w + rest) && |w| <= |run| && c.scan(run) == (d, |w|))
       <==> Strtod(c, NumberRun(w + rest, 63)) == Some((d, |w|))
  {
    hide NumberRun, Given;
    var n := NumberRun(w + rest, 63);
    GivenRun(n, w + rest);
    if exists run :: Given(run, w + rest) && |w| <= |run| && c.scan(run) == (d, |w|) {
      var run :| Given(run, w + rest) && |w| <= |run| && c.scan(run) == (d, |w|);
      GivenRun(run, w + rest);
    }
  }

  lemma NumberParses(c: Codec, w: seq<byte>, d: Double, depth: nat, rest: seq<byte>)
    requires NumberAt(c, w, d, rest) && depth <= 1000
    ensures ParseValue(c, w + rest, depth) == Ok(Number(d), rest)
  {
    hide ParseValue, Strtod, NumberRun, Given;
    NumberExactly(c, w, d, rest);
    var s := w + rest;
    assert s[0] == w[0] && s[|w|..] == rest;
    DispatchNumber(c, s, depth);
  }

  lemma {:induction false} ArrayParses(c: Codec, ws: seq<byte>, es: seq<Element>, depth: nat, rest: seq<byte>)
    requires (if es == [] then Space(ws) else ProperElements(c, es, rest)) && depth <= 1000
    ensures ParseValue(c, Spelled(Arr(ws, es)) + rest, depth)
         == Within(1 + ElementsNesting(es), depth, Array(ElementValues(es)), rest)
    decreases es, 2
  {
    hide ParseValue, ParseArray, ParseElements, ElementsText, ProperElements, SkipWs;
    var inner := if es == [] then ws + [RBRACKET] else ElementsText(es);
    var s := Spelled(Arr(ws, es)) + rest;
    assert s == [LBRACKET] + (inner + rest);
    Front(LBRACKET, inner + rest);
    DispatchArray(c, s, depth);
    P.ArrayUnfold(c, s, depth);
    if es == [] {
      EmptyRest(ws, RBRACKET, rest);
    } else {
      ElementsBegin(c, es, rest);
      ElementsSkip(c, inner + rest, depth + 1);
      if depth < 1000 {
        ElementsParse(c, es, depth + 1, rest);
      }
    }
  }

  lemma EmptyRest(ws: seq<byte>, b: byte, rest: seq<byte>)
    requires Space(ws) && b > 32
    ensures SkipWs(ws + [b] + rest) == [b] + rest && ([b] + rest)[1..] == rest
  {
    SkipBlanks(ws, [b] + rest);
    assert ws + [b] + rest == ws + ([b] + rest);
  }

  lemma ElementsSkip(c: Codec, s: seq<byte>, depth: nat)
    ensures ParseElements(c, SkipWs(s), depth) == ParseElements(c, s, depth)
  {
    hide ParseValue;
    assert SkipWs(SkipWs(s)) == SkipWs(s);
  }

  lemma ElementsShape(es: seq<Element>, rest: seq<byte>)
    requires es != []
    ensures ElementsText(es) + rest == es[0].before + (Spelled(es[0].value) + (es[0].after + AfterElement(es, rest)))
  {
    hide Spelled;
  }

  lemma ElementsBegin(c: Codec, es: seq<Element>, rest: seq<byte>)
    requires es != [] && ProperElements(c, es, rest)
    ensures var r := SkipWs(ElementsText(es) + rest); r != [] && r[0] != RBRACKET
  {
    hide Spelled, Proper, ElementsText, SkipWs;
    var e, a := es[0], AfterElement(es, rest);
    ElementsShape(es, rest);
    SkipBlanks(e.before, Spelled(e.value) + (e.after + a));
    SpelledStart(c, e.value, e.after + a, e.after + a);
  }

  lemma {:induction false} ElementsParse(c: Codec, es: seq<Element>, depth: nat, rest: seq<byte>)
    requires es != [] && ProperElements(c, es, rest) && depth <= 1000
    ensures ParseElements(c, ElementsText(es) + rest, depth) == Within(ElementsNesting(es), depth, ElementValues(es), rest)
    decreases es, 1
  {
    hide ParseValue, ParseElements, ElementsText, Spelled, Proper, SkipWs, ValueOf;
    var e, a := es[0], AfterElement(es, rest);
    var s := ElementsText(es) + rest;
    ElementsShape(es, rest);
    SkipBlanks(e.before, Spelled(e.value) + (e.after + a));
    SpelledStart(c, e.value, e.after + a, e.after + a);
    ValueParses(c, e.value, depth, e.after + a);
    ElementsOk(c, s, depth);
    SkipBlanks(e.after, a);
    AfterStart(if |es| == 1 then RBRACKET else COMMA, if |es| == 1 then rest else ElementsText(es[1..]) + rest);
    if |es| > 1 {
      ElementsParse(c, es[1..], depth, rest);
    } else {
      assert es[1..] == [];
      assert ElementValues(es) == [ValueOf(e.value)];
    }
  }

  lemma AfterStart(b: byte, rest: seq<byte>)
    requires b > 32
    ensures SkipWs([b] + rest) == [b] + rest && ([b] + rest)[0] == b && ([b] + rest)[1..] == rest
  {
  }

  lemma {:induction false} ObjectParses(c: Codec, ws: seq<byte>, es: seq<Entry>, depth: nat, rest: seq<byte>)
    requires (if es == [] then Space(ws) else ProperEntries(c, es, rest)) && depth <= 1000
    ensures ParseValue(c, Spelled(Obj(ws, es)) + rest, depth)
         == Within(1 + EntriesNesting(es), depth, Object(EntryValues(es)), rest)
    decreases es, 4
  {
    hide ParseValue, ParseObject, ParseMembers, EntriesText, ProperEntries, SkipWs;
    var inner := if es == [] then ws + [RBRACE] else EntriesText(es);
    var s := Spelled(Obj(ws, es)) + rest;
    assert s == [LBRACE] + (inner + rest);
    Front(LBRACE, inner + rest);
    DispatchObject(c, s, depth);
    P.ObjectUnfold(c, s, depth);
    if es == [] {
      EmptyRest(ws, RBRACE, rest);
    } else {
      EntriesBegin(c, es, rest);
      ParseMembersSkips(c, inner + rest, depth + 1);
      if depth < 1000 {
        EntriesParse(c, es, depth + 1, rest);
      }
    }
  }

  lemma EntriesShape(es: seq<Entry>, rest: seq<byte>)
    requires es != []
    ensures EntriesText(es) + rest == EntryText(es[0]) + AfterEntry(es, rest)
  {
    hide EntryText;
  }

  lemma EntryShape(e: Entry, rest: seq<byte>)
    ensures EntryText(e) + rest == e.before + (Spelled(Str(e.key)) + AfterKey(e, rest))
  {
    var q, v := Spelled(Str(e.key)), Spelled(e.value);
    hide Spelled;
    assert q == [QUOTE] + (e.key + [QUOTE]) by {
      KeySpelled(e.key);
    }
    assert e.before + (q + (e.beforeColon + ([COLON] + (e.afterColon + (v + e.after))))) + rest
        == e.before + (q + (e.beforeColon + ([COLON] + (e.afterColon + (v + (e.after + rest))))));
  }

  lemma KeySpelled(b: seq<byte>)
    ensures Spelled(Str(b)) == [QUOTE] + (b + [QUOTE])
  {
  }

  lemma KeyStarts(b: seq<byte>, rest: seq<byte>)
    ensures var s := Spelled(Str(b)) + rest; s != [] && s[0] == QUOTE && SkipWs(s) == s
  {
    KeySpelled(b);
  }

  lemma EntriesBegin(c: Codec, es: seq<Entry>, rest: seq<byte>)
    requires es != [] && ProperEntries(c, es, rest)
    ensures var r := SkipWs(EntriesText(es) + rest); r != [] && r[0] != RBRACE
  {
    hide Spelled, Proper, EntriesText, SkipWs, EntryText, AfterKey, Closed;
    var e, a := es[0], AfterEntry(es, rest);
    EntriesShape(es, rest);
    EntryShape(e, a);
    SkipBlanks(e.before, Spelled(Str(e.key)) + AfterKey(e, a));
    KeyStarts(e.key, AfterKey(e, a));
  }

  lemma {:induction false} EntryParses(c: Codec, e: Entry, depth: nat, rest: seq<byte>)
    requires ProperEntry(c, e, rest) && depth <= 1000
    ensures ParseMember(c, EntryText(e) + rest, depth) == Within(EntryNesting(e), depth, EntryValue(e), e.after + rest)
    decreases e, 4
  {
    hide ParseValue, ParseMember, ParseString, EntryText, Spelled, Proper, SkipWs, ValueOf, Closed, Decoded;
    var s := EntryText(e) + rest;
    var k := AfterKey(e, rest);
    var colon := [COLON] + (e.afterColon + (Spelled(e.value) + (e.after + rest)));
    EntryShape(e, rest);
    SkipBlanks(e.before, Spelled(Str(e.key)) + k);
    KeyStarts(e.key, k);
    StringRead(e.key, k);
    P.MemberUnfold(c, s, depth);
    SkipBlanks(e.beforeColon, colon);
    AfterStart(COLON, e.afterColon + (Spelled(e.value) + (e.after + rest)));
    SkipBlanks(e.afterColon, Spelled(e.value) + (e.after + rest));
    SpelledStart(c, e.value, e.after + rest, e.after + rest);
    ValueParses(c, e.value, depth, e.after + rest);
  }

  lemma {:induction false} EntriesParse(c: Codec, es: seq<Entry>, depth: nat, rest: seq<byte>)
    requires es != [] && ProperEntries(c, es, rest) && depth <= 1000
    ensures ParseMembers(c, EntriesText(es) + rest, depth) == Within(EntriesNesting(es), depth, EntryValues(es), rest)
    decreases es, 3
  {
    hide ParseMember, ParseMembers, EntriesText, EntryText, ProperEntry, SkipWs, EntryValue, EntryNesting;
    var e, a := es[0], AfterEntry(es, rest);
    var s := EntriesText(es) + rest;
    EntriesShape(es, rest);
    EntryParses(c, e, depth, a);
    MembersOk(c, s, depth);
    AfterSpace(c, e, a);
    AfterStart(if |es| == 1 then RBRACE else COMMA, if |es| == 1 then rest else EntriesText(es[1..]) + rest);
    if |es| > 1 {
      EntriesParse(c, es[1..], depth, rest);
    } else {
      assert es[1..] == [];
      assert EntryValues(es) == [EntryValue(e)];
    }
  }

  lemma AfterSpace(c: Codec, e: Entry, a: seq<byte>)
    requires ProperEntry(c, e, a)
    ensures SkipWs(e.after + a) == SkipWs(a)
  {
    SkipBlanks(e.after, a);
  }

  // ---- whatever is parsed is a tree of the grammar ----

  /** A tree for what was parsed. */
  ghost predicate Derives(c: Codec, t: Syntax, s: seq<byte>, depth: nat, v: Item, rest: seq<byte>) {
    s == Spelled(t) + rest && Proper(c, t, rest) && ValueOf(t) == v && Nesting(t) + depth <= 1000
  }

  ghost predicate DerivesElements(c: Codec, es: seq<Element>, s: seq<byte>, depth: nat, vs: seq<Item>, rest: seq<byte>) {
    && es != [] && s == ElementsText(es) + rest && ProperElements(c, es, rest)
    && ElementValues(es) == vs && ElementsNesting(es) + depth <= 1000
  }

  ghost predicate DerivesEntry(c: Codec, e: Entry, s: seq<byte>, depth: nat, m: Member, rest: seq<byte>) {
    && s == EntryText(e) + rest && ProperEntry(c, e, rest) && EntryValue(e) == m && EntryNesting(e) + depth <= 1000
  }

  ghost predicate DerivesEntries(c: Codec, es: seq<Entry>, s: seq<byte>, depth: nat, ms: seq<Member>, rest: seq<byte>) {
    && es != [] && s == EntriesText(es) + rest && ProperEntries(c, es, rest)
    && EntryValues(es) == ms && EntriesNesting(es) + depth <= 1000
  }

  lemma {:induction false} Blanks(s: seq<byte>) returns (ws: seq<byte>)
    ensures Space(ws) && s == ws + SkipWs(s)
  {
    if s != [] && s[0] <= 32 {
      var rest := Blanks(s[1..]);
      ws := [s[0]] + rest;
      assert s == [s[0]] + s[1..];
    } else {
      ws := [];
      assert [] + s == s;
    }
  }

  lemma {:induction false} ValueSyntax(c: Codec, s: seq<byte>, depth: nat) returns (t: Syntax)
    requires ParseValue(c, s, depth).Ok? && depth <= 1000
    ensures Derives(c, t, s, depth, ParseValue(c, s, depth).value, ParseValue(c, s, depth).rest)
    decreases |s|, 1
  {
    hide ParseValue, ParseString, ParseNumber, ParseArray, ParseObject, Derives, Unclosed;
    ValueStart(c, s, depth);
    if NULL_WORD <= s {
      t := WordSyntax(c, s, depth, Null, NULL_WORD);
    } else if FALSE_WORD <= s {
      t := WordSyntax(c, s, depth, False, FALSE_WORD);
    } else if TRUE_WORD <= s {
      t := WordSyntax(c, s, depth, True, TRUE_WORD);
    } else if s[0] == QUOTE {
      DispatchString(c, s, depth);
      t := StringSyntax(c, s, depth);
    } else if s[0] == LBRACKET {
      DispatchArray(c, s, depth);
      t := ArraySyntax(c, s, depth);
    } else if s[0] == LBRACE {
      DispatchObject(c, s, depth);
      t := ObjectSyntax(c, s, depth);
    } else {
      DispatchNumber(c, s, depth);
      t := NumberSyntax(c, s, depth);
    }
  }

  lemma WordSyntax(c: Codec, s: seq<byte>, depth: nat, w: Item, bytes: cstring) returns (t: Syntax)
    requires bytes <= s && depth <= 1000
    requires (w.Null? && bytes == NULL_WORD) || (w.False? && bytes == FALSE_WORD) || (w.True? && bytes == TRUE_WORD)
    ensures ParseValue(c, s, depth).Ok? && Derives(c, t, s, depth, ParseValue(c, s, depth).value, ParseValue(c, s, depth).rest)
  {
    hide ParseValue, Spelled;
    t := Word(w);
    WordBytes(w);
    var rest := s[|bytes|..];
    assert s == bytes + rest;
    ParseWord(c, bytes, rest, depth);
  }

  lemma LiteralSyntax(s: seq<byte>) returns (b: seq<byte>)
    requires ParseString(s).Ok?
    ensures s == Spelled(Str(b)) + ParseString(s).rest && Closed(b, ParseString(s).rest) && Decoded(b) == ParseString(s).value
  {
    hide ParseString, CloseAt, Unescape, CString;
    StringOpens(s);
    var k := CloseAt(s[1..]).value;
    ParsedLiteral(s);
    ClosingQuote(s[1..], k);
    b := s[1..1 + k];
    var rest := s[k + 2..];
    assert s[1..][..k] == b && s[1..][k + 1..] == rest;
    assert s == [QUOTE] + (b + [QUOTE]) + rest;
  }

  lemma StringSyntax(c: Codec, s: seq<byte>, depth: nat) returns (t: Syntax)
    requires ParseString(s).Ok? && depth <= 1000
    ensures Derives(c, t, s, depth, String(Some(ParseString(s).value)), ParseString(s).rest)
  {
    hide ParseString, Closed, Decoded, Spelled;
    var b := LiteralSyntax(s);
    t := Str(b);
  }

  lemma NumberSyntax(c: Codec, s: seq<byte>, depth: nat) returns (t: Syntax)
    requires s != [] && (s[0] == MINUS || IsDigit(s[0])) && ParseNumber(c, s).Ok? && depth <= 1000
    ensures Derives(c, t, s, depth, ParseNumber(c, s).value, ParseNumber(c, s).rest)
  {
    hide Strtod, NumberRun, Given;
    var r := Strtod(c, NumberRun(s, NUMBER_ROOM)).value;
    t := Num(s[..r.1], r.0);
    assert s == s[..r.1] + s[r.1..];
    NumberExactly(c, s[..r.1], r.0, s[r.1..]);
  }

  lemma {:induction false} ArraySyntax(c: Codec, s: seq<byte>, depth: nat) returns (t: Syntax)
    requires s != [] && s[0] == LBRACKET && ParseArray(c, s, depth).Ok? && depth <= 1000
    ensures Derives(c, t, s, depth, ParseArray(c, s, depth).value, ParseArray(c, s, depth).rest)
    decreases |s|, 0
  {
    hide ParseArray, ParseElements, ElementsText, ProperElements, ElementsNesting, ElementValues;
    P.ArrayUnfold(c, s, depth);
    var r := SkipWs(s[1..]);
    if r != [] && r[0] == RBRACKET {
      var ws := Blanks(s[1..]);
      t := Arr(ws, []);
      EmptyElements();
      assert s == [LBRACKET] + (ws + [RBRACKET]) + r[1..];
    } else {
      ElementsSkip(c, s[1..], depth + 1);
      var es := ElementsSyntax(c, s[1..], depth + 1);
      t := Arr([], es);
      var rest := ParseElements(c, s[1..], depth + 1).rest;
      assert s == [LBRACKET] + ElementsText(es) + rest;
    }
  }

  lemma EmptyElements()
    ensures ElementValues([]) == [] && ElementsNesting([]) == 0 && EntryValues([]) == [] && EntriesNesting([]) == 0
  {
  }

  lemma {:induction false} ElementsSyntax(c: Codec, s: seq<byte>, depth: nat) returns (es: seq<Element>)
    requires ParseElements(c, s, depth).Ok? && depth <= 1000
    ensures DerivesElements(c, es, s, depth, ParseElements(c, s, depth).value, ParseElements(c, s, depth).rest)
    decreases |s|, 2
  {
    hide ParseValue, ParseElements, SkipWs, Derives, DerivesElements;
    ElementsOk(c, s, depth);
    var v := ParseValue(c, SkipWs(s), depth);
    var before := Blanks(s);
    var t := ValueSyntax(c, SkipWs(s), depth);
    var after := Blanks(v.rest);
    var r := SkipWs(v.rest);
    var e := Element(before, t, after);
    ElementJoined(c, e, s, depth, SkipWs(s), v.value, v.rest, r);
    hide DerivesElement;
    if r[0] == COMMA {
      var more := ElementsSyntax(c, r[1..], depth);
      es := [e] + more;
      MoreElements(c, e, more, s, depth, v.value, r, ParseElements(c, r[1..], depth).value, ParseElements(c, r[1..], depth).rest);
    } else {
      es := [e];
      LastElement(c, e, s, depth, v.value, r);
    }
  }

  /** An element, and what is left behind its blanks. */
  ghost predicate DerivesElement(c: Codec, e: Element, s: seq<byte>, depth: nat, v: Item, r: seq<byte>) {
    && Space(e.before) && Space(e.after) && s == e.before + (Spelled(e.value) + (e.after + r))
    && Proper(c, e.value, e.after + r) && ValueOf(e.value) == v && Nesting(e.value) + depth <= 1000
  }

  lemma ElementJoined(c: Codec, e: Element, s: seq<byte>, depth: nat, w: seq<byte>, v: Item, x: seq<byte>, r: seq<byte>)
    requires Space(e.before) && Space(e.after) && s == e.before + w && Derives(c, e.value, w, depth, v, x) && x == e.after + r
    ensures DerivesElement(c, e, s, depth, v, r)
  {
    hide Spelled, Proper, ValueOf, Nesting;
  }

  lemma ElementsUnfold(c: Codec, e: Element, more: seq<Element>, rest: seq<byte>)
    ensures var es := [e] + more;
            && es != [] && es[0] == e && es[1..] == more
            && ElementValues(es) == [ValueOf(e.value)] + ElementValues(more)
            && ElementsNesting(es) == Max(Nesting(e.value), ElementsNesting(more))
            && (ProperElements(c, es, rest) <==>
                && ProperElement(c, e, AfterElement(es, rest))
                && (more != [] ==> ProperElements(c, more, rest)))
  {
    hide Spelled, Proper, ValueOf, Nesting, AfterElement;
    var es := [e] + more;
    assert es[0] == e && es[1..] == more;
  }

  lemma LastElement(c: Codec, e: Element, s: seq<byte>, depth: nat, v: Item, r: seq<byte>)
    requires r != [] && r[0] == RBRACKET && DerivesElement(c, e, s, depth, v, r)
    ensures DerivesElements(c, [e], s, depth, [v], r[1..])
  {
    hide Spelled, Proper, ValueOf, Nesting, ElementsText, ElementValues, ElementsNesting, ProperElements;
    ElementsUnfold(c, e, [], r[1..]);
    var es := [e];
    assert [e] + [] == es && r == [RBRACKET] + r[1..];
    EmptyElements();
    assert [v] + [] == [v];
    ElementsShape(es, r[1..]);
  }

  lemma MoreElements(c: Codec, e: Element, more: seq<Element>, s: seq<byte>, depth: nat, v: Item, r: seq<byte>, vs: seq<Item>, rest: seq<byte>)
    requires r != [] && r[0] == COMMA && DerivesElement(c, e, s, depth, v, r) && DerivesElements(c, more, r[1..], depth, vs, rest)
    ensures DerivesElements(c, [e] + more, s, depth, [v] + vs, rest)
  {
    hide Spelled, Proper, ValueOf, Nesting, ElementsText, ElementValues, ElementsNesting, ProperElements;
    ElementsUnfold(c, e, more, rest);
    assert r == [COMMA] + r[1..];
    ElementsShape([e] + more, rest);
  }

  lemma {:induction false} ObjectSyntax(c: Codec, s: seq<byte>, depth: nat) returns (t: Syntax)
    requires s != [] && s[0] == LBRACE && ParseObject(c, s, depth).Ok? && depth <= 1000
    ensures Derives(c, t, s, depth, ParseObject(c, s, depth).value, ParseObject(c, s, depth).rest)
    decreases |s|, 0
  {
    hide ParseObject, ParseMembers, EntriesText, ProperEntries, EntriesNesting, EntryValues;
    P.ObjectUnfold(c, s, depth);
    var r := SkipWs(s[1..]);
    if r != [] && r[0] == RBRACE {
      var ws := Blanks(s[1..]);
      t := Obj(ws, []);
      EmptyElements();
      assert s == [LBRACE] + (ws + [RBRACE]) + r[1..];
    } else {
      ParseMembersSkips(c, s[1..], depth + 1);
      var es := EntriesSyntax(c, s[1..], depth + 1);
      t := Obj([], es);
      var rest := ParseMembers(c, s[1..], depth + 1).rest;
      assert s == [LBRACE] + EntriesText(es) + rest;
    }
  }

  /** An entry whose own blanks at the end are still to be taken. */
  lemma {:induction false} EntrySyntax(c: Codec, s: seq<byte>, depth: nat) returns (e: Entry)
    requires ParseMember(c, s, depth).Ok? && depth <= 1000
    ensures DerivesEntry(c, e, s, depth, ParseMember(c, s, depth).value, SkipWs(ParseMember(c, s, depth).rest))
    decreases |s|, 2
  {
    hide ParseValue, ParseMember, ParseString, SkipWs, Derives, DerivesEntry;
    P.MemberUnfold(c, s, depth);
    var k := ParseString(SkipWs(s));
    var colon := SkipWs(k.rest);
    var v := ParseValue(c, SkipWs(colon[1..]), depth);
    KeyStart(SkipWs(s));
    var before := Blanks(s);
    var key := LiteralSyntax(SkipWs(s));
    var beforeColon := Blanks(k.rest);
    var afterColon := Blanks(colon[1..]);
    var t := ValueSyntax(c, SkipWs(colon[1..]), depth);
    var after := Blanks(v.rest);
    e := Entry(before, key, beforeColon, afterColon, t, after);
    EntryJoined(c, e, s, depth, SkipWs(s), k.rest, colon, SkipWs(colon[1..]), v.value, v.rest, SkipWs(v.rest));
  }

  lemma EntryJoined(c: Codec, e: Entry, s: seq<byte>, depth: nat, q: seq<byte>, k: seq<byte>, colon: seq<byte>, w: seq<byte>, v: Item,
                    x: seq<byte>, rest: seq<byte>)
    requires Space(e.before) && Space(e.beforeColon) && Space(e.afterColon) && Space(e.after)
    requires s == e.before + q && q == Spelled(Str(e.key)) + k && Closed(e.key, k)
    requires k == e.beforeColon + colon && colon != [] && colon[0] == COLON && colon[1..] == e.afterColon + w
    requires Derives(c, e.value, w, depth, v, x) && x == e.after + rest
    ensures DerivesEntry(c, e, s, depth, Member(Some(Decoded(e.key)), v), rest)
  {
    hide Spelled, Proper, ValueOf, Nesting, Closed, Decoded, EntryText;
    assert colon == [COLON] + colon[1..];
    assert AfterKey(e, rest) == k;
    EntryShape(e, rest);
  }

  lemma {:induction false} EntriesSyntax(c: Codec, s: seq<byte>, depth: nat) returns (es: seq<Entry>)
    requires ParseMembers(c, s, depth).Ok? && depth <= 1000
    ensures DerivesEntries(c, es, s, depth, ParseMembers(c, s, depth).value, ParseMembers(c, s, depth).rest)
    decreases |s|, 3
  {
    hide ParseMember, ParseMembers, SkipWs, DerivesEntry, DerivesEntries;
    MembersOk(c, s, depth);
    var m := ParseMember(c, s, depth);
    var e := EntrySyntax(c, s, depth);
    var r := SkipWs(m.rest);
    if r[0] == COMMA {
      var more := EntriesSyntax(c, r[1..], depth);
      es := [e] + more;
      MoreEntries(c, e, more, s, depth, m.value, r, ParseMembers(c, r[1..], depth).value, ParseMembers(c, r[1..], depth).rest);
    } else {
      es := [e];
      LastEntry(c, e, s, depth, m.value, r);
    }
  }

  lemma EntriesUnfold(c: Codec, e: Entry, more: seq<Entry>, rest: seq<byte>)
    ensures var es := [e] + more;
            && es != [] && es[0] == e && es[1..] == more
            && EntryValues(es) == [EntryValue(e)] + EntryValues(more)
            && EntriesNesting(es) == Max(EntryNesting(e), EntriesNesting(more))
            && (ProperEntries(c, es, rest) <==>
                && ProperEntry(c, e, AfterEntry(es, rest))
                && (more != [] ==> ProperEntries(c, more, rest)))
  {
    hide ProperEntry, EntryValue, EntryNesting, AfterEntry;
    var es := [e] + more;
    assert es[0] == e && es[1..] == more;
  }

  lemma LastEntry(c: Codec, e: Entry, s: seq<byte>, depth: nat, m: Member, r: seq<byte>)
    requires r != [] && r[0] == RBRACE && DerivesEntry(c, e, s, depth, m, r)
    ensures DerivesEntries(c, [e], s, depth, [m], r[1..])
  {
    hide EntryText, ProperEntry, EntryValue, EntryNesting, EntriesText, EntryValues, EntriesNesting, ProperEntries;
    EntriesUnfold(c, e, [], r[1..]);
    var es := [e];
    assert [e] + [] == es && r == [RBRACE] + r[1..];
    EmptyElements();
    assert [m] + [] == [m];
    EntriesShape(es, r[1..]);
  }

  lemma MoreEntries(c: Codec, e: Entry, more: seq<Entry>, s: seq<byte>, depth: nat, m: Member, r: seq<byte>, ms: seq<Member>, rest: seq<byte>)
    requires r != [] && r[0] == COMMA && DerivesEntry(c, e, s, depth, m, r) && DerivesEntries(c, more, r[1..], depth, ms, rest)
    ensures DerivesEntries(c, [e] + more, s, depth, [m] + ms, rest)
  {
    hide EntryText, ProperEntry, EntryValue, EntryNesting, EntriesText, EntryValues, EntriesNesting, ProperEntries;
    EntriesUnfold(c, e, more, rest);
    assert r == [COMMA] + r[1..];
    EntriesShape([e] + more, rest);
  }

  // ---- whole texts ----

  /** A byte order mark or none, blanks, a tree, and something behind it. */
  ghost predicate Document(c: Codec, text: seq<byte>, t: Syntax, after: seq<byte>) {
    exists mark: seq<byte>, before ::
      && (mark == [] || mark == [0xEF, 0xBB, 0xBF]) && Space(before)
      && Proper(c, t, after) && text == mark + (before + (Spelled(t) + after))
  }

  lemma MarkSkipped(mark: seq<byte>, s: seq<byte>)
    requires (mark == [] || mark == [0xEF, 0xBB, 0xBF]) && s != [] && s[0] != 0xEF
    ensures SkipBom(mark + s) == s
  {
    var t := mark + s;
    if mark == [] {
      assert t == s;
    } else {
      assert BOM <= t && t[3..] == s;
    }
  }

  lemma {:induction false} NothingAfter(after: seq<byte>)
    ensures SkipWs(after) == [] <==> Space(after)
  {
    if after != [] && after[0] <= 32 {
      NothingAfter(after[1..]);
      if Space(after[1..]) {
        assert forall i :: 0 < i < |after| ==> after[i] == after[1..][i - 1];
      }
    }
  }

  lemma SpelledFirst(c: Codec, t: Syntax, before: seq<byte>, after: seq<byte>)
    requires Proper(c, t, after) && Space(before)
    ensures var s := before + (Spelled(t) + after);
            s != [] && s[0] != 0xEF && SkipWs(s) == Spelled(t) + after
  {
    hide Proper, SkipWs;
    var s := before + (Spelled(t) + after);
    SkipBlanks(before, Spelled(t) + after);
    SpelledStart(c, t, after, after);
    PlainStart(c, t, after);
    if before != [] {
      assert s[0] == before[0];
    } else {
      assert s == Spelled(t) + after;
    }
  }

  lemma PlainStart(c: Codec, t: Syntax, rest: seq<byte>)
    requires Proper(c, t, rest)
    ensures (Spelled(t) + rest) != [] && (Spelled(t) + rest)[0] < 128
  {
    hide ElementsText, EntriesText, ProperElements, ProperEntries, Closed, Given;
    if t.Word? {
      WordBytes(t.word);
    }
    assert (Spelled(t) + rest)[0] == Spelled(t)[0];
  }

  /**
   Every document of the grammar is parsed to its value, exactly if it nests at most 1000 containers and,
   where the whole text has to be one, nothing but blanks follows.
   */
  lemma DocumentParses(c: Codec, text: seq<byte>, t: Syntax, after: seq<byte>, whole: bool)
    requires Document(c, text, t, after)
    ensures ParseText(c, text, whole) == if Nesting(t) <= 1000 && (!whole || Space(after)) then Ok(ValueOf(t), if whole then [] else after)
                                         else Fail
  {
    hide ParseValue, Proper, Spelled, SkipWs, SkipBom;
    var mark: seq<byte>, before :|
      && (mark == [] || mark == [0xEF, 0xBB, 0xBF]) && Space(before)
      && Proper(c, t, after) && text == mark + (before + (Spelled(t) + after));
    SpelledFirst(c, t, before, after);
    MarkSkipped(mark, before + (Spelled(t) + after));
    ValueParses(c, t, 0, after);
    NothingAfter(after);
  }

  /** And nothing else is: whatever is accepted is a document. */
  lemma AcceptedDocument(c: Codec, text: seq<byte>, whole: bool) returns (t: Syntax, after: seq<byte>)
    requires ParseText(c, text, whole).Ok?
    ensures Document(c, text, t, after) && Nesting(t) <= 1000 && ValueOf(t) == ParseText(c, text, whole).value
    ensures if whole then Space(after) else after == ParseText(c, text, whole).rest
  {
    hide ParseValue, Proper, Spelled, SkipWs, SkipBom;
    var s := SkipBom(text);
    after := ParseValue(c, SkipWs(s), 0).rest;
    var before := Blanks(s);
    t := ValueSyntax(c, SkipWs(s), 0);
    NothingAfter(after);
    BomSplit(text);
    var mark := text[..|text| - |s|];
    assert text == mark + (before + (Spelled(t) + after));
  }

  lemma BomSplit(text: seq<byte>)
    ensures var s := SkipBom(text);
            var mark := text[..|text| - |s|];
            (mark == [] || mark == [0xEF, 0xBB, 0xBF]) && text == mark + s
  {
  }
}
