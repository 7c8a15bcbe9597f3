/** Unfoldings of the rendered text, and that it never contains a NUL. */
module RenderFacts {
  import opened Text
  import opened Literal
  import opened Numbers
  import opened Json

  lemma ArrayText(c: Codec, items: seq<Item>, fmt: bool, d: nat)
    ensures Render(c, Array(items), fmt, d) == [LBRACKET] + RenderItems(c, items, fmt, d + 1) + [RBRACKET]
    ensures CanPrint(c, Array(items)) <==> forall i :: 0 <= i < |items| ==> CanPrint(c, items[i])
  {
  }

  lemma ObjectText(c: Codec, ms: seq<Member>, fmt: bool, d: nat)
    ensures Render(c, Object(ms), fmt, d)
         == [LBRACE] + When(fmt, [NEWLINE]) + RenderMembers(c, ms, fmt, d + 1) + When(fmt, Tabs(d)) + [RBRACE]
    ensures Render(c, Object(ms), fmt, d)
         == [LBRACE] + When(fmt, [NEWLINE]) + RenderMembers(c, ms, fmt, d + 1) + (When(fmt, Tabs(d)) + [RBRACE])
    ensures CanPrint(c, Object(ms)) <==> forall i :: 0 <= i < |ms| ==> CanPrint(c, ms[i].value)
  {
    Assoc([LBRACE] + When(fmt, [NEWLINE]) + RenderMembers(c, ms, fmt, d + 1), When(fmt, Tabs(d)), [RBRACE]);
  }

  lemma ItemsStep(c: Codec, items: seq<Item>, i: nat, fmt: bool, d: nat)
    requires i < |items|
    ensures RenderItems(c, items[i..], fmt, d)
         == Render(c, items[i], fmt, d) + When(i + 1 < |items|, ItemSeparator(fmt)) + RenderItems(c, items[i + 1..], fmt, d)
  {
    assert items[i..][0] == items[i] && items[i..][1..] == items[i + 1..];
  }

  lemma NoItems(c: Codec, items: seq<Item>, fmt: bool, d: nat)
    ensures RenderItems(c, items[|items|..], fmt, d) == []
  {
  }

  lemma KeyShape(start: seq<byte>, key: Option<cstring>, fmt: bool, d: nat)
    ensures start + KeyText(key, fmt, d)
         == start + When(fmt, Tabs(d)) + Quoted(key) + ([COLON] + When(fmt, [TAB]))
    ensures KeyText(key, fmt, d) == When(fmt, Tabs(d)) + Quoted(key) + ([COLON] + When(fmt, [TAB]))
  {
    Assoc(When(fmt, Tabs(d)) + Quoted(key), [COLON], When(fmt, [TAB]));
    Assoc4(start, When(fmt, Tabs(d)), Quoted(key), [COLON] + When(fmt, [TAB]));
  }

  lemma MembersStep(c: Codec, ms: seq<Member>, i: nat, fmt: bool, d: nat)
    requires i < |ms|
    ensures RenderMembers(c, ms[i..], fmt, d)
         == RenderMember(c, ms[i], fmt, d) + MemberEnd(fmt, i + 1 == |ms|) + RenderMembers(c, ms[i + 1..], fmt, d)
  {
    assert ms[i..][0] == ms[i] && ms[i..][1..] == ms[i + 1..];
  }

  lemma NoMembers(c: Codec, ms: seq<Member>, fmt: bool, d: nat)
    ensures RenderMembers(c, ms[|ms|..], fmt, d) == []
  {
  }

  lemma NulFreeQuoted(key: Option<cstring>)
    ensures NulFree(Quoted(key))
  {
  }

  lemma Assoc4(a: seq<byte>, b: seq<byte>, c: seq<byte>, d: seq<byte>)
    ensures a + (b + c + d) == a + b + c + d
  {
  }

  lemma NulFreeJoin(a: seq<byte>, b: seq<byte>)
    requires NulFree(a) && NulFree(b)
    ensures NulFree(a + b)
  {
  }

  lemma {:induction false} NulFreeRender(c: Codec, v: Item, fmt: bool, d: nat)
    ensures NulFree(Render(c, v, fmt, d))
    decreases v, 1
  {
    if v.Array? {
      hide Render, RenderItems, NulFree;
      var inner := RenderItems(c, v.items, fmt, d + 1);
      ArrayText(c, v.items, fmt, d);
      NulFreeItems(c, v.items, fmt, d + 1);
      NulFreeBytes();
      NulFreeJoin([LBRACKET], inner);
      NulFreeJoin([LBRACKET] + inner, [RBRACKET]);
    } else if v.Object? {
      hide Render, RenderMembers, NulFree, When;
      var open := [LBRACE] + When(fmt, [NEWLINE]);
      var inner := RenderMembers(c, v.members, fmt, d + 1);
      ObjectText(c, v.members, fmt, d);
      NulFreeMembers(c, v.members, fmt, d + 1);
      NulFreeBytes();
      NulFreeLayout(fmt, d);
      NulFreeJoin(open, inner);
      NulFreeJoin(open + inner, When(fmt, Tabs(d)));
      NulFreeJoin(open + inner + When(fmt, Tabs(d)), [RBRACE]);
    }
  }

  lemma NulFreeBytes()
    ensures NulFree([LBRACKET]) && NulFree([RBRACKET]) && NulFree([RBRACE])
  {
  }

  lemma NulFreeLayout(fmt: bool, d: nat)
    ensures NulFree([LBRACE] + When(fmt, [NEWLINE])) && NulFree(When(fmt, Tabs(d)))
    ensures NulFree(ItemSeparator(fmt)) && NulFree(MemberEnd(fmt, true)) && NulFree(MemberEnd(fmt, false))
  {
  }

  lemma NulFreeKey(key: Option<cstring>, fmt: bool, d: nat)
    ensures NulFree(KeyText(key, fmt, d))
  {
    var q := Quoted(key);
    assert NulFree(q);
    hide Quoted;
    assert NulFree(When(fmt, Tabs(d)) + q);
    assert NulFree([COLON] + When(fmt, [TAB]));
    NulFreeJoin(When(fmt, Tabs(d)) + q, [COLON] + When(fmt, [TAB]));
    Assoc(When(fmt, Tabs(d)) + q, [COLON], When(fmt, [TAB]));
  }

  lemma {:induction false} NulFreeItems(c: Codec, items: seq<Item>, fmt: bool, d: nat)
    ensures NulFree(RenderItems(c, items, fmt, d))
    decreases items, 0
  {
    if items != [] {
      hide NulFree, Render, ItemSeparator;
      var sep := When(|items| > 1, ItemSeparator(fmt));
      NulFreeRender(c, items[0], fmt, d);
      NulFreeItems(c, items[1..], fmt, d);
      NulFreeLayout(fmt, d);
      NulFreeEmpty();
      NulFreeJoin(Render(c, items[0], fmt, d), sep);
      NulFreeJoin(Render(c, items[0], fmt, d) + sep, RenderItems(c, items[1..], fmt, d));
    }
  }

  lemma NulFreeEmpty()
    ensures NulFree([])
  {
  }

  lemma {:induction false} NulFreeMember(c: Codec, m: Member, fmt: bool, d: nat)
    ensures NulFree(RenderMember(c, m, fmt, d))
    decreases m, 2
  {
    hide NulFree, Render, KeyText;
    NulFreeKey(m.key, fmt, d);
    NulFreeRender(c, m.value, fmt, d);
    NulFreeJoin(KeyText(m.key, fmt, d), Render(c, m.value, fmt, d));
  }

  lemma {:induction false} NulFreeMembers(c: Codec, ms: seq<Member>, fmt: bool, d: nat)
    ensures NulFree(RenderMembers(c, ms, fmt, d))
    decreases ms, 0
  {
    if ms != [] {
      hide NulFree, RenderMember, MemberEnd;
      var end := MemberEnd(fmt, |ms| == 1);
      NulFreeMember(c, ms[0], fmt, d);
      NulFreeMembers(c, ms[1..], fmt, d);
      NulFreeLayout(fmt, d);
      NulFreeJoin(RenderMember(c, ms[0], fmt, d), end);
      NulFreeJoin(RenderMember(c, ms[0], fmt, d) + end, RenderMembers(c, ms[1..], fmt, d));
    }
  }

  lemma EscapeStep(t: seq<byte>, i: nat)
    requires i < |t|
    ensures Escape(t[i..]) == EscapeByte(t[i]) + Escape(t[i + 1..])
  {
    assert t[i..][0] == t[i] && t[i..][1..] == t[i + 1..];
  }

  lemma EscapeEnd(t: seq<byte>)
    ensures Escape(t[|t|..]) == []
  {
  }

  lemma CloseQuote(prefix: seq<byte>, t: cstring)
    ensures (prefix + [QUOTE] + Escape(t)) + [QUOTE, 0] == (prefix + Quoted(Some(t))) + [0]
  {
    var e := Escape(t);
    assert Quoted(Some(t)) == [QUOTE] + e + [QUOTE];
    assert (prefix + [QUOTE] + e) + [QUOTE, 0] == (prefix + ([QUOTE] + e + [QUOTE])) + [0];
  }

  lemma {:induction false} NothingEscaped(t: seq<byte>)
    requires |Escape(t)| == |t|
    ensures Escape(t) == t
  {
    if t != [] {
      assert |EscapeByte(t[0])| == 1;
      NothingEscaped(t[1..]);
    }
  }
}
