/** What a parse can yield, and that printing a parsed tree and parsing again gives it back. */
module Reparse {
  import opened Text
  import opened Numbers
  import opened Json
  import opened RoundTrip
  import M = Minify
  import P = Parsing

  /** No string or key is missing, nothing is invalid or raw, and with `finite` every number is finite. */
  predicate Filled(v: Item, finite: bool) {
    match v
    case Invalid => false
    case Raw(_) => false
    case Number(d) => finite ==> d.Finite?
    case String(t) => t.Some?
    case Array(items) => forall i :: 0 <= i < |items| ==> Filled(items[i], finite)
    case Object(ms) => forall i :: 0 <= i < |ms| ==> FilledMember(ms[i], finite)
    case _ => true
  }

  predicate FilledMember(m: Member, finite: bool) {
    m.key.Some? && Filled(m.value, finite)
  }

  /** Every finite number reads back as it was. */
  predicate Exact(c: Codec, v: Item) {
    match v
    case Number(d) => d.Finite? ==> ReadBack(c, d.r) == d
    case Array(items) => forall i :: 0 <= i < |items| ==> Exact(c, items[i])
    case Object(ms) => forall i :: 0 <= i < |ms| ==> Exact(c, ms[i].value)
    case _ => true
  }

  lemma {:induction false} FilledIsNormal(c: Codec, v: Item)
    requires Filled(v, true) && Exact(c, v)
    ensures Normal(c, v) == v
    decreases v, 0
  {
    match v
    case Array(items) => FilledItemsNormal(c, items);
    case Object(ms) => FilledMembersNormal(c, ms);
    case _ =>
  }

  lemma {:induction false} FilledItemsNormal(c: Codec, items: seq<Item>)
    requires forall i :: 0 <= i < |items| ==> Filled(items[i], true) && Exact(c, items[i])
    ensures NormalItems(c, items) == items
    decreases items, 1
  {
    if items != [] {
      FilledIsNormal(c, items[0]);
      FilledItemsNormal(c, items[1..]);
    }
  }

  lemma {:induction false} FilledMembersNormal(c: Codec, ms: seq<Member>)
    requires forall i :: 0 <= i < |ms| ==> FilledMember(ms[i], true) && Exact(c, ms[i].value)
    ensures NormalMembers(c, ms) == ms
    decreases ms, 1
  {
    if ms != [] {
      FilledOneNormal(c, ms[0]);
      FilledMembersNormal(c, ms[1..]);
    }
  }

  lemma {:induction false} FilledOneNormal(c: Codec, m: Member)
    requires FilledMember(m, true) && Exact(c, m.value)
    ensures NormalMember(c, m) == m
    decreases m, 1
  {
    FilledIsNormal(c, m.value);
  }

  // ---- every parsed tree respects the nesting limit and has its strings ----

  /** Parsed inside `depth` containers: within the limit, and nothing missing. */
  predicate Yielded(v: Item, depth: nat) {
    Height(v) + depth <= NESTING_LIMIT && Filled(v, false)
  }

  lemma LeafYielded(c: Codec, s: seq<byte>, depth: nat)
    requires ParseValue(c, s, depth).Ok? && depth <= NESTING_LIMIT && s != [] && s[0] != LBRACKET && s[0] != LBRACE
    ensures Yielded(ParseValue(c, s, depth).value, depth)
  {
    hide ParseString, Strtod, ParseArray, ParseObject;
  }

  lemma {:induction false} ValueYielded(c: Codec, s: seq<byte>, depth: nat)
    requires ParseValue(c, s, depth).Ok? && depth <= NESTING_LIMIT
    ensures Yielded(ParseValue(c, s, depth).value, depth)
    decreases |s|, 1
  {
    hide ParseValue, ParseArray, ParseObject, Yielded;
    M.ValueStart(c, s, depth);
    if s[0] == LBRACKET {
      DispatchArray(c, s, depth);
      ArrayYielded(c, s, depth);
    } else if s[0] == LBRACE {
      DispatchObject(c, s, depth);
      ObjectYielded(c, s, depth);
    } else {
      LeafYielded(c, s, depth);
    }
  }

  lemma {:induction false} ArrayYielded(c: Codec, s: seq<byte>, depth: nat)
    requires s != [] && ParseArray(c, s, depth).Ok?
    ensures Yielded(ParseArray(c, s, depth).value, depth)
    decreases |s|, 0
  {
    hide ParseArray, ParseElements;
    P.ArrayUnfold(c, s, depth);
    var r := SkipWs(s[1..]);
    if !(r != [] && r[0] == RBRACKET) {
      ElementsYielded(c, r, depth + 1);
    }
  }

  lemma {:induction false} ElementsYielded(c: Codec, s: seq<byte>, depth: nat)
    requires ParseElements(c, s, depth).Ok? && depth <= NESTING_LIMIT
    ensures var vs := ParseElements(c, s, depth).value;
            ItemsHeight(vs) + depth <= NESTING_LIMIT && forall i :: 0 <= i < |vs| ==> Filled(vs[i], false)
    decreases |s|, 2
  {
    hide ParseValue, ParseElements;
    M.ElementsOk(c, s, depth);
    var v := ParseValue(c, SkipWs(s), depth);
    ValueYielded(c, SkipWs(s), depth);
    var r := SkipWs(v.rest);
    var vs := ParseElements(c, s, depth).value;
    if r[0] == COMMA {
      ElementsYielded(c, r[1..], depth);
      assert vs[1..] == ParseElements(c, r[1..], depth).value;
    } else {
      assert vs[1..] == [];
    }
  }

  lemma {:induction false} ObjectYielded(c: Codec, s: seq<byte>, depth: nat)
    requires s != [] && ParseObject(c, s, depth).Ok?
    ensures Yielded(ParseObject(c, s, depth).value, depth)
    decreases |s|, 0
  {
    hide ParseObject, ParseMembers;
    P.ObjectUnfold(c, s, depth);
    var r := SkipWs(s[1..]);
    if !(r != [] && r[0] == RBRACE) {
      MembersYielded(c, r, depth + 1);
    }
  }

  lemma {:induction false} MembersYielded(c: Codec, s: seq<byte>, depth: nat)
    requires ParseMembers(c, s, depth).Ok? && depth <= NESTING_LIMIT
    ensures var ms := ParseMembers(c, s, depth).value;
            MembersHeight(ms) + depth <= NESTING_LIMIT && forall i :: 0 <= i < |ms| ==> FilledMember(ms[i], false)
    decreases |s|, 3
  {
    hide ParseMember, ParseMembers;
    M.MembersOk(c, s, depth);
    var m := ParseMember(c, s, depth);
    MemberYielded(c, s, depth);
    var r := SkipWs(m.rest);
    var ms := ParseMembers(c, s, depth).value;
    if r[0] == COMMA {
      MembersYielded(c, r[1..], depth);
      assert ms[1..] == ParseMembers(c, r[1..], depth).value;
    } else {
      assert ms[1..] == [];
    }
  }

  lemma {:induction false} MemberYielded(c: Codec, s: seq<byte>, depth: nat)
    requires ParseMember(c, s, depth).Ok? && depth <= NESTING_LIMIT
    ensures var m := ParseMember(c, s, depth).value;
            MemberHeight(m) + depth <= NESTING_LIMIT && FilledMember(m, false)
    decreases |s|, 2
  {
    hide ParseMember, ParseValue, ParseString;
    P.MemberUnfold(c, s, depth);
    var k := ParseString(SkipWs(s));
    M.KeyStart(SkipWs(s));
    ValueYielded(c, SkipWs(SkipWs(k.rest)[1..]), depth);
  }

  /** A tree that came from a text survives print and parse, up to what its numbers print as. */
  lemma ParsePrintParse(c: Codec, t: seq<byte>, whole: bool, fmt: bool)
    requires ParseText(c, t, whole).Ok? && Readable(c, ParseText(c, t, whole).value)
    ensures var v := ParseText(c, t, whole).value;
            && ParseText(c, Render(c, v, fmt, 0), true) == Ok(Normal(c, v), [])
            && (Filled(v, true) && Exact(c, v) ==> Normal(c, v) == v)
  {
    hide ParseValue, Render;
    var v := ParseText(c, t, whole).value;
    ValueYielded(c, SkipWs(SkipBom(t)), 0);
    PrintThenParse(c, v, fmt, true);
    if Filled(v, true) && Exact(c, v) {
      FilledIsNormal(c, v);
    }
  }

  // ---- trees of integers ----

  /** Integers below 10^15, and no string, key or value missing. */
  predicate Plain(v: Item) {
    match v
    case Invalid => false
    case Raw(_) => false
    case Number(d) => d.Finite? && SmallInteger(d.r)
    case String(t) => t.Some?
    case Array(items) => forall i :: 0 <= i < |items| ==> Plain(items[i])
    case Object(ms) => forall i :: 0 <= i < |ms| ==> ms[i].key.Some? && Plain(ms[i].value)
    case _ => true
  }

  lemma {:induction false} PlainKept(other: real -> cstring, full: real -> cstring, v: Item)
    requires Plain(v)
    ensures Readable(CLibrary(other, full), v) && Filled(v, true) && Exact(CLibrary(other, full), v)
    decreases v
  {
    var c := CLibrary(other, full);
    hide CLibrary, Legible, ReadBack, SmallInteger, Settle;
    if v.Number? {
      SmallIntegersFaithful(other, full, v.value.r);
    } else if v.Array? {
      forall i | 0 <= i < |v.items| ensures Readable(c, v.items[i]) && Filled(v.items[i], true) && Exact(c, v.items[i]) {
        PlainKept(other, full, v.items[i]);
      }
    } else if v.Object? {
      forall i | 0 <= i < |v.members|
        ensures Readable(c, v.members[i].value) && FilledMember(v.members[i], true) && Exact(c, v.members[i].value)
      {
        assert v.members[i] < v;
        PlainKept(other, full, v.members[i].value);
      }
    }
  }

  /** With the C library on integers: such a tree comes back from print and parse exactly as it was. */
  lemma IntegersRoundTrip(other: real -> cstring, full: real -> cstring, v: Item, fmt: bool, whole: bool)
    requires Plain(v) && Height(v) <= NESTING_LIMIT
    ensures var c := CLibrary(other, full);
            ParseText(c, Render(c, v, fmt, 0), whole) == Ok(v, [])
  {
    hide CLibrary, Render, ParseText, Plain, Readable, Filled, Exact, Normal;
    PlainKept(other, full, v);
    PrintThenParse(CLibrary(other, full), v, fmt, whole);
    FilledIsNormal(CLibrary(other, full), v);
  }
}
