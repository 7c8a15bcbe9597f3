/**
 What cJSON_Compare decides, told without comparing node by node: a tree has a canonical form, in
 which an object is a map from its names, and the comparison is one of canonical forms.
 */
module Canonical {
  import opened Text
  import opened Numbers
  import opened Json
  import opened Compare

  datatype Form =
    | Nothing
    | Word(word: string)
    | Num(d: Double)
    | Literal(text: cstring)
    | RawText(text: cstring)
    | List(items: seq<Form>)
    | Record(members: map<seq<byte>, Form>)

  /** A capital letter as the small one, any other byte as it is. */
  function Small(b: byte): (r: byte) {
    if 'A' as int <= b <= 'Z' as int then 'a' as int + (b - 'A' as int) else b
  }

  /** A name as it counts in the given case mode. */
  function Name(s: seq<byte>, cs: bool): (r: seq<byte>) {
    if cs then s else seq(|s|, i requires 0 <= i < |s| => Small(s[i]))
  }

  /** The canonical form; of members with the same name the first counts. Nothing stands for what is missing or invalid. */
  function FormOf(v: Item, cs: bool): (f: Form)
    decreases v, 1
  {
    match v
    case Invalid => Nothing
    case Null => Word("null")
    case False => Word("false")
    case True => Word("true")
    case Number(d) => Num(d)
    case Raw(t) => if t.Some? then RawText(t.value) else Nothing
    case String(t) => if t.Some? then Literal(t.value) else Nothing
    case Array(items) => List(FormsOf(items, cs))
    case Object(ms) =>
      if forall i :: 0 <= i < |ms| ==> ms[i].key.Some? then Record(RecordOf(ms, cs)) else Nothing
  }

  function FormsOf(items: seq<Item>, cs: bool): (fs: seq<Form>)
    ensures |fs| == |items|
    decreases items, 0
  {
    if items == [] then [] else [FormOf(items[0], cs)] + FormsOf(items[1..], cs)
  }

  function MemberForm(m: Member, cs: bool): (f: Form)
    decreases m, 2
  {
    FormOf(m.value, cs)
  }

  function RecordOf(ms: seq<Member>, cs: bool): (fs: map<seq<byte>, Form>)
    requires forall i :: 0 <= i < |ms| ==> ms[i].key.Some?
    decreases ms, 0
  {
    if ms == [] then map[] else RecordOf(ms[1..], cs)[Name(ms[0].key.value, cs) := MemberForm(ms[0], cs)]
  }

  /** Forms that agree but for their numbers, which need only be close. */
  predicate Near(eq: closeness, x: Form, y: Form)
    decreases x
  {
    match (x, y)
    case (Word(a), Word(b)) => a == b
    case (Num(a), Num(b)) => eq(a, b)
    case (Literal(a), Literal(b)) => a == b
    case (RawText(a), RawText(b)) => a == b
    case (List(a), List(b)) => |a| == |b| && forall i :: 0 <= i < |a| ==> Near(eq, a[i], b[i])
    case (Record(a), Record(b)) => a.Keys == b.Keys && forall k :: k in a ==> Near(eq, a[k], b[k])
    case _ => false
  }

  // ---- names ----

  lemma {:induction false} NameFolds(s: seq<byte>, cs: bool)
    ensures Name(s, cs) == Fold(s, cs)
  {
    if !cs {
      LoweredAll(s);
    }
  }

  lemma {:induction false} LoweredAll(s: seq<byte>)
    ensures |LowerAll(s)| == |s| && forall i :: 0 <= i < |s| ==> LowerAll(s)[i] == Small(s[i])
  {
    if s != [] {
      LoweredAll(s[1..]);
    }
  }

  // ---- the record of an object ----

  predicate Keyed(ms: seq<Member>) {
    forall i :: 0 <= i < |ms| ==> ms[i].key.Some?
  }

  lemma {:induction false} FormAt(items: seq<Item>, cs: bool, i: nat)
    requires i < |items|
    ensures FormsOf(items, cs)[i] == FormOf(items[i], cs)
  {
    if i > 0 {
      FormAt(items[1..], cs, i - 1);
    }
  }

  /** The record holds under each name the first member that the lookup finds, and nothing else. */
  lemma {:induction false} RecordFind(ms: seq<Member>, cs: bool, name: cstring)
    requires Keyed(ms)
    ensures var f := Find(ms, name, cs);
            && (Name(name, cs) in RecordOf(ms, cs) <==> f.Some?)
            && (f.Some? ==> RecordOf(ms, cs)[Name(name, cs)] == FormOf(ms[f.value].value, cs))
  {
    hide Fold, Name, FormOf;
    if ms != [] {
      RecordFind(ms[1..], cs, name);
      NameFolds(name, cs);
      NameFolds(ms[0].key.value, cs);
    }
  }

  lemma {:induction false} RecordNames(ms: seq<Member>, cs: bool, k: seq<byte>) returns (i: nat)
    requires Keyed(ms) && k in RecordOf(ms, cs)
    ensures i < |ms| && Name(ms[i].key.value, cs) == k
  {
    hide Name, FormOf;
    if Name(ms[0].key.value, cs) == k {
      i := 0;
    } else {
      i := RecordNames(ms[1..], cs, k);
      i := i + 1;
    }
  }

  // ---- comparison ----

  /** Trees that compare equal have forms that agree, whatever names occur twice. */
  lemma {:induction false} EqualNear(eq: closeness, a: Item, b: Item, cs: bool)
    requires Equal(eq, a, b, cs)
    ensures Near(eq, FormOf(a, cs), FormOf(b, cs))
    decreases a, 2
  {
    if a.Array? {
      forall i | 0 <= i < |a.items| ensures Near(eq, FormsOf(a.items, cs)[i], FormsOf(b.items, cs)[i]) {
        FormAt(a.items, cs, i);
        FormAt(b.items, cs, i);
        EqualNear(eq, a.items[i], b.items[i], cs);
      }
    } else if a.Object? {
      hide Near, FormOf, Covers;
      MembersNear(eq, a.members, b.members, cs);
    }
  }

  lemma KeyedRecord(ms: seq<Member>, cs: bool)
    requires Keyed(ms)
    ensures FormOf(Object(ms), cs) == Record(RecordOf(ms, cs))
  {
    hide RecordOf;
  }

  lemma RecordsNear(eq: closeness, x: map<seq<byte>, Form>, y: map<seq<byte>, Form>)
    requires forall k :: k in x ==> k in y && Near(eq, x[k], y[k])
    requires forall k :: k in y ==> k in x
    ensures Near(eq, Record(x), Record(y))
  {
  }

  lemma {:induction false} MembersNear(eq: closeness, ms: seq<Member>, ns: seq<Member>, cs: bool)
    requires Covers(eq, ms, ns, cs) && Covers(eq, ns, ms, cs)
    ensures Near(eq, FormOf(Object(ms), cs), FormOf(Object(ns), cs))
    decreases Object(ms), 1
  {
    hide Near, FormOf, RecordOf, Covers;
    CoveredKeyed(eq, ms, ns, cs);
    CoveredKeyed(eq, ns, ms, cs);
    var x, y := RecordOf(ms, cs), RecordOf(ns, cs);
    forall k | k in x ensures k in y && Near(eq, x[k], y[k]) {
      CoversNear(eq, ms, ns, cs, k);
    }
    forall k | k in y ensures k in x {
      CoversName(eq, ns, ms, cs, k);
    }
    RecordsNear(eq, x, y);
    KeyedRecord(ms, cs);
    KeyedRecord(ns, cs);
  }

  lemma CoversName(eq: closeness, ms: seq<Member>, ns: seq<Member>, cs: bool, k: seq<byte>)
    requires Keyed(ms) && Keyed(ns) && Covers(eq, ms, ns, cs) && k in RecordOf(ms, cs)
    ensures k in RecordOf(ns, cs)
  {
    hide Find, Fold, Name, Equal, RecordOf;
    var i := RecordNames(ms, cs, k);
    RecordFind(ns, cs, ms[i].key.value);
    assert Counterpart(eq, ms[i], ns, cs);
  }

  lemma {:induction false} CoversNear(eq: closeness, ms: seq<Member>, ns: seq<Member>, cs: bool, k: seq<byte>)
    requires Keyed(ms) && Keyed(ns) && Covers(eq, ms, ns, cs) && k in RecordOf(ms, cs)
    ensures k in RecordOf(ns, cs) && Near(eq, RecordOf(ms, cs)[k], RecordOf(ns, cs)[k])
    decreases Object(ms), 0
  {
    hide Find, Fold, Name, Equal, RecordOf, FormOf, Near;
    var i := RecordNames(ms, cs, k);
    var name := ms[i].key.value;
    RecordFind(ms, cs, name);
    RecordFind(ns, cs, name);
    var f := Find(ms, name, cs).value;
    FirstCovered(eq, ms, ns, cs, name);
    MemberInside(ms, f);
    EqualNear(eq, ms[f].value, ns[Find(ns, name, cs).value].value, cs);
  }

  lemma CoveredKeyed(eq: closeness, ms: seq<Member>, ns: seq<Member>, cs: bool)
    requires Covers(eq, ms, ns, cs)
    ensures Keyed(ms)
  {
    forall i | 0 <= i < |ms| ensures ms[i].key.Some? {
      assert Counterpart(eq, ms[i], ns, cs);
    }
  }

  /** The first member of a name has the first one of that name for its counterpart. */
  lemma FirstCovered(eq: closeness, ms: seq<Member>, ns: seq<Member>, cs: bool, name: cstring)
    requires Covers(eq, ms, ns, cs) && Find(ms, name, cs).Some?
    ensures Find(ns, name, cs).Some?
    ensures Equal(eq, ms[Find(ms, name, cs).value].value, ns[Find(ns, name, cs).value].value, cs)
  {
    hide Find, Fold, Equal;
    var f := Find(ms, name, cs).value;
    assert Counterpart(eq, ms[f], ns, cs);
    FindMatching(ns, ms[f].key.value, name, cs);
  }

  /** With distinct names the converse holds too. */
  lemma {:induction false} NearEqual(eq: closeness, a: Item, b: Item, cs: bool)
    requires Symmetric(eq) && DistinctKeys(a, cs) && DistinctKeys(b, cs) && Near(eq, FormOf(a, cs), FormOf(b, cs))
    ensures Equal(eq, a, b, cs)
    decreases a, 1
  {
    if a.Array? {
      forall i | 0 <= i < |a.items| ensures Equal(eq, a.items[i], b.items[i], cs) {
        FormAt(a.items, cs, i);
        FormAt(b.items, cs, i);
        NearEqual(eq, a.items[i], b.items[i], cs);
      }
    } else if a.Object? {
      hide Find, Fold, Name, Covers;
      NearCovers(eq, a.members, b.members, cs);
      NearCovered(eq, a.members, b.members, cs);
    }
  }

  ghost predicate NearMembers(eq: closeness, ms: seq<Member>, ns: seq<Member>, cs: bool) {
    && DistinctKeys(Object(ms), cs) && DistinctKeys(Object(ns), cs)
    && Near(eq, FormOf(Object(ms), cs), FormOf(Object(ns), cs))
  }

  /** A member and the one of the same name on the other side. */
  lemma NearPair(eq: closeness, ms: seq<Member>, ns: seq<Member>, cs: bool, name: cstring)
    requires NearMembers(eq, ms, ns, cs)
    ensures Find(ms, name, cs).Some? <==> Find(ns, name, cs).Some?
    ensures Find(ms, name, cs).Some? ==>
      Near(eq, FormOf(ms[Find(ms, name, cs).value].value, cs), FormOf(ns[Find(ns, name, cs).value].value, cs))
  {
    hide Find, Fold, Name;
    RecordFind(ms, cs, name);
    RecordFind(ns, cs, name);
  }

  lemma {:induction false} NearCovers(eq: closeness, ms: seq<Member>, ns: seq<Member>, cs: bool)
    requires Symmetric(eq) && NearMembers(eq, ms, ns, cs)
    ensures Covers(eq, ms, ns, cs)
    decreases Object(ms), 0
  {
    hide Find, Fold, FormOf, Near, Equal;
    forall i | 0 <= i < |ms| ensures Counterpart(eq, ms[i], ns, cs) {
      Alone(ms, cs, i);
      NearPair(eq, ms, ns, cs, ms[i].key.value);
      MemberInside(ms, i);
      NearEqual(eq, ms[i].value, ns[Find(ns, ms[i].key.value, cs).value].value, cs);
    }
  }

  lemma {:induction false} NearCovered(eq: closeness, ms: seq<Member>, ns: seq<Member>, cs: bool)
    requires Symmetric(eq) && NearMembers(eq, ms, ns, cs)
    ensures Covers(eq, ns, ms, cs)
    decreases Object(ms), 0
  {
    hide Find, Fold, FormOf, Near, Equal;
    forall j | 0 <= j < |ns| ensures Counterpart(eq, ns[j], ms, cs) {
      Alone(ns, cs, j);
      NearPair(eq, ms, ns, cs, ns[j].key.value);
      var i := Find(ms, ns[j].key.value, cs).value;
      MemberInside(ms, i);
      NearEqual(eq, ms[i].value, ns[j].value, cs);
      EqualSymmetric(eq, ms[i].value, ns[j].value, cs);
    }
  }

  /** With distinct names a member is found under its own. */
  lemma Alone(ms: seq<Member>, cs: bool, i: nat)
    requires DistinctKeys(Object(ms), cs) && i < |ms|
    ensures Keyed(ms) && Find(ms, ms[i].key.value, cs) == Some(i)
  {
    hide Find, Fold;
    var f := Find(ms, ms[i].key.value, cs);
    FindIsFirst(ms, ms[i].key.value, cs, i);
    assert Matches(ms[i].key, ms[i].key.value, cs);
  }

  // ---- what the comparison means ----

  /** The code's comparison: equal exactly when the canonical forms agree up to compare_double on their numbers. */
  lemma CompareMeans(a: Item, b: Item, cs: bool)
    requires DistinctKeys(a, cs) && DistinctKeys(b, cs)
    ensures Equal(CompareDouble, a, b, cs) <==> Near(CompareDouble, FormOf(a, cs), FormOf(b, cs))
  {
    hide Equal, Near, FormOf, DistinctKeys, CompareDouble;
    NumbersSymmetric();
    if Equal(CompareDouble, a, b, cs) {
      EqualNear(CompareDouble, a, b, cs);
    }
    if Near(CompareDouble, FormOf(a, cs), FormOf(b, cs)) {
      NearEqual(CompareDouble, a, b, cs);
    }
  }

  /** With exact numbers: equal exactly when the canonical forms are the same. */
  lemma SameMeans(a: Item, b: Item, cs: bool)
    requires DistinctKeys(a, cs) && DistinctKeys(b, cs)
    ensures Equal(SameDouble, a, b, cs) <==> FormOf(a, cs) == FormOf(b, cs)
  {
    hide Equal, Near, FormOf, DistinctKeys;
    NumbersSymmetric();
    if Equal(SameDouble, a, b, cs) {
      EqualNear(SameDouble, a, b, cs);
      NearSame(FormOf(a, cs), FormOf(b, cs));
    }
    if FormOf(a, cs) == FormOf(b, cs) {
      DistinctKeysRegular(a, cs);
      RegularEqualsItself(SameDouble, a, cs);
      EqualNear(SameDouble, a, a, cs);
      NearEqual(SameDouble, a, b, cs);
    }
  }

  lemma {:induction false} NearSame(x: Form, y: Form)
    requires Near(SameDouble, x, y)
    ensures x == y
    decreases x
  {
    if x.List? {
      forall i | 0 <= i < |x.items| ensures x.items[i] == y.items[i] {
        NearSame(x.items[i], y.items[i]);
      }
    } else if x.Record? {
      forall k | k in x.members ensures x.members[k] == y.members[k] {
        NearSame(x.members[k], y.members[k]);
      }
      assert x.members == y.members;
    }
  }
}
