/** Printing and parsing again, judged by cJSON_Compare: which trees come back equal. */
module RoundTripEqual {
  import opened Text
  import opened Numbers
  import opened Json
  import opened RoundTrip
  import opened Compare

  /** Each finite number is recovered by its 15 digits or by its 17. */
  predicate Recovered(c: Codec, v: Item)
    decreases v
  {
    match v
    case Number(d) => d.Finite? ==> Recovers(c, c.brief(d.r), d.r) || Recovers(c, c.full(d.r), d.r)
    case Array(items) => forall i :: 0 <= i < |items| ==> Recovered(c, items[i])
    case Object(ms) => forall i :: 0 <= i < |ms| ==> Recovered(c, ms[i].value)
    case _ => true
  }

  lemma {:induction false} NormalItemsAt(c: Codec, items: seq<Item>, i: nat)
    requires i < |items|
    ensures NormalItems(c, items)[i] == Normal(c, items[i])
  {
    if i > 0 {
      NormalItemsAt(c, items[1..], i - 1);
    }
  }

  lemma {:induction false} NormalMembersAt(c: Codec, ms: seq<Member>, i: nat)
    requires i < |ms|
    ensures NormalMembers(c, ms)[i] == NormalMember(c, ms[i])
  {
    if i > 0 {
      NormalMembersAt(c, ms[1..], i - 1);
    }
  }

  lemma {:induction false} FindNormal(c: Codec, ms: seq<Member>, name: cstring, cs: bool)
    requires forall i :: 0 <= i < |ms| ==> ms[i].key.Some?
    ensures Find(NormalMembers(c, ms), name, cs) == Find(ms, name, cs)
  {
    hide Fold;
    if ms != [] {
      FindNormal(c, ms[1..], name, cs);
      assert NormalMembers(c, ms)[1..] == NormalMembers(c, ms[1..]);
    }
  }

  /** With distinct keys, looking a member's key up finds that member, before and after. */
  lemma FindOwn(c: Codec, ms: seq<Member>, i: nat, cs: bool)
    requires i < |ms| && DistinctKeys(Object(ms), cs)
    ensures ms[i].key.Some? && Find(ms, ms[i].key.value, cs) == Some(i)
    ensures Find(NormalMembers(c, ms), ms[i].key.value, cs) == Some(i)
  {
    hide Fold, Find;
    FindPresent(ms, i, ms[i].key.value, cs);
    FindNormal(c, ms, ms[i].key.value, cs);
  }

  lemma NumberEqual(c: Codec, d: Double)
    requires d.Finite? && Legible(c, d.r)
    ensures CompareDouble(d, ReadBack(c, d.r)) <==> Recovers(c, c.brief(d.r), d.r) || Recovers(c, c.full(d.r), d.r)
  {
    hide Legible, ReadBack, Recovers;
    ReadBackClose(c, d.r);
    assert CompareDouble(d, ReadBack(c, d.r)) == CompareDouble(ReadBack(c, d.r), d);
  }

  lemma MembersEqual(c: Codec, ms: seq<Member>, cs: bool)
    requires DistinctKeys(Object(ms), cs)
    ensures Equal(CompareDouble, Object(ms), Object(NormalMembers(c, ms)), cs) <==>
      forall i :: 0 <= i < |ms| ==> Equal(CompareDouble, ms[i].value, Normal(c, ms[i].value), cs)
  {
    hide Find, DistinctKeys;
    var ns := NormalMembers(c, ms);
    NumbersSymmetric();
    forall i | 0 <= i < |ms|
      ensures ns[i] == NormalMember(c, ms[i])
      ensures Counterpart(CompareDouble, ms[i], ns, cs) == Equal(CompareDouble, ms[i].value, Normal(c, ms[i].value), cs)
      ensures Counterpart(CompareDouble, ns[i], ms, cs) == Equal(CompareDouble, ms[i].value, Normal(c, ms[i].value), cs)
    {
      FindOwn(c, ms, i, cs);
      NormalMembersAt(c, ms, i);
      EqualSymmetric(CompareDouble, ms[i].value, Normal(c, ms[i].value), cs);
    }
    hide Equal, Counterpart, Normal;
    ObjectsEqual(ms, ns, cs);
  }

  lemma ObjectsEqual(ms: seq<Member>, ns: seq<Member>, cs: bool)
    ensures Equal(CompareDouble, Object(ms), Object(ns), cs) <==>
      && (forall i :: 0 <= i < |ms| ==> Counterpart(CompareDouble, ms[i], ns, cs))
      && (forall i :: 0 <= i < |ns| ==> Counterpart(CompareDouble, ns[i], ms, cs))
  {
    hide Counterpart;
  }

  /** The normal form equals the tree exactly when every number is recovered. */
  lemma {:induction false} NormalEqual(c: Codec, v: Item, cs: bool)
    requires Readable(c, v) && DistinctKeys(v, cs)
    ensures Equal(CompareDouble, v, Normal(c, v), cs) <==> Recovered(c, v)
    decreases v
  {
    if v.Number? {
      NumberEqual(c, v.value);
    } else if v.Array? {
      forall i | 0 <= i < |v.items|
        ensures NormalItems(c, v.items)[i] == Normal(c, v.items[i])
        ensures Equal(CompareDouble, v.items[i], Normal(c, v.items[i]), cs) <==> Recovered(c, v.items[i])
      {
        NormalItemsAt(c, v.items, i);
        NormalEqual(c, v.items[i], cs);
      }
    } else if v.Object? {
      MembersEqual(c, v.members, cs);
      forall i | 0 <= i < |v.members|
        ensures Equal(CompareDouble, v.members[i].value, Normal(c, v.members[i].value), cs) <==> Recovered(c, v.members[i].value)
      {
        MemberInside(v.members, i);
        NormalEqual(c, v.members[i].value, cs);
      }
    }
  }

  /**
   A tree with finite numbers, present strings and distinct keys comes back from print and parse, within
   the nesting limit, as a tree that cJSON_Compare takes for the old one exactly when each number is
   recovered by 15 or by 17 digits; its digits need not all be kept.
   */
  lemma PrintParseEqual(c: Codec, v: Item, fmt: bool, whole: bool, cs: bool)
    requires Readable(c, v) && DistinctKeys(v, cs) && Height(v) <= NESTING_LIMIT
    ensures var r := ParseText(c, Render(c, v, fmt, 0), whole);
            r.Ok? && r.rest == [] && (Equal(CompareDouble, v, r.value, cs) <==> Recovered(c, v))
  {
    hide Render, ParseText, Equal, Recovered, Readable, DistinctKeys;
    PrintThenParse(c, v, fmt, whole);
    NormalEqual(c, v, cs);
  }

  // ---- numbers that overflow on the way ----

  predicate AllFinite(v: Item)
    decreases v
  {
    match v
    case Number(d) => d.Finite?
    case Array(items) => forall i :: 0 <= i < |items| ==> AllFinite(items[i])
    case Object(ms) => forall i :: 0 <= i < |ms| ==> AllFinite(ms[i].value)
    case _ => true
  }

  /** The 17 digits of every finite number read back as a finite one. */
  predicate FullFinite(c: Codec, v: Item)
    decreases v
  {
    match v
    case Number(d) => d.Finite? ==> c.scan(c.full(d.r)).0.Finite?
    case Array(items) => forall i :: 0 <= i < |items| ==> FullFinite(c, items[i])
    case Object(ms) => forall i :: 0 <= i < |ms| ==> FullFinite(c, ms[i].value)
    case _ => true
  }

  /** The 15 digits of no number in the tree are beyond every double. */
  predicate NoneOverflows(c: Codec, v: Item)
    decreases v
  {
    match v
    case Number(d) => d.Finite? ==> !BriefOverflows(c, d.r)
    case Array(items) => forall i :: 0 <= i < |items| ==> NoneOverflows(c, items[i])
    case Object(ms) => forall i :: 0 <= i < |ms| ==> NoneOverflows(c, ms[i].value)
    case _ => true
  }

  lemma {:induction false} NormalFinite(c: Codec, v: Item)
    requires Readable(c, v) && FullFinite(c, v)
    ensures AllFinite(Normal(c, v)) <==> NoneOverflows(c, v)
    decreases v
  {
    hide BriefOverflows, ReadBack, Legible;
    if v.Number? && v.value.Finite? {
      OverflowExactly(c, v.value.r);
    } else if v.Array? {
      forall i | 0 <= i < |v.items|
        ensures NormalItems(c, v.items)[i] == Normal(c, v.items[i])
        ensures AllFinite(Normal(c, v.items[i])) <==> NoneOverflows(c, v.items[i])
      {
        NormalItemsAt(c, v.items, i);
        NormalFinite(c, v.items[i]);
      }
    } else if v.Object? {
      forall i | 0 <= i < |v.members|
        ensures NormalMembers(c, v.members)[i] == NormalMember(c, v.members[i])
        ensures AllFinite(Normal(c, v.members[i].value)) <==> NoneOverflows(c, v.members[i].value)
      {
        NormalMembersAt(c, v.members, i);
        MemberInside(v.members, i);
        NormalFinite(c, v.members[i].value);
      }
    }
  }

  /** The tree that comes back holds finite numbers only, exactly when no number's 15 digits overflow. */
  lemma PrintParseFinite(c: Codec, v: Item, fmt: bool, whole: bool)
    requires Readable(c, v) && FullFinite(c, v) && Height(v) <= NESTING_LIMIT
    ensures var r := ParseText(c, Render(c, v, fmt, 0), whole);
            r.Ok? && (AllFinite(r.value) <==> NoneOverflows(c, v))
  {
    hide Render, ParseText, Readable, FullFinite, NoneOverflows;
    PrintThenParse(c, v, fmt, whole);
    NormalFinite(c, v);
  }

  /** The largest double comes back as an infinity, which compares equal to it, and then as null. */
  lemma LargestTree(c: Codec, fmt: bool, whole: bool, cs: bool)
    requires c.brief(Largest()) == LargestDigits() && c.scan == ScanDecimal
    ensures var v, w := Number(Finite(Largest())), Number(Infinite(false));
            && ParseText(c, Render(c, v, fmt, 0), whole) == Ok(w, []) && Equal(CompareDouble, v, w, cs)
            && ParseText(c, Render(c, w, fmt, 0), whole) == Ok(Null, []) && !Equal(CompareDouble, w, Null, cs)
  {
    hide LargestDigits, Largest, ScanDecimal, CompareDouble, ReadBack, Legible, Printable, Render, ParseText;
    var v, w := Number(Finite(Largest())), Number(Infinite(false));
    LargestLost(c);
    ComparedCases(v.value, w.value);
    assert Readable(c, v) && Height(v) == 0 && Normal(c, v) == w;
    PrintThenParse(c, v, fmt, whole);
    InfinityReadable(c, w);
    PrintThenParse(c, w, fmt, whole);
  }

  lemma InfinityReadable(c: Codec, w: Item)
    requires w == Number(Infinite(false))
    ensures Readable(c, w) && Height(w) == 0 && Normal(c, w) == Null
  {
  }
}
