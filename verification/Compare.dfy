/** cJSON_Compare on trees, its laws, and key lookup in either case mode. */
module Compare {
  import opened Text
  import opened Numbers
  import opened Json

  function Lower(b: byte): (r: byte) {
    if 65 <= b <= 90 then b + 32 else b
  }

  function LowerAll(s: seq<byte>): (r: seq<byte>) {
    if s == [] then [] else [Lower(s[0])] + LowerAll(s[1..])
  }

  /** What two keys have to agree in. */
  function Fold(s: seq<byte>, caseSensitive: bool): (r: seq<byte>) {
    if caseSensitive then s else LowerAll(s)
  }

  predicate Matches(key: Option<cstring>, name: cstring, cs: bool) {
    key.Some? && Fold(key.value, cs) == Fold(name, cs)
  }

  /**
   get_object_item: the first member with a matching key. The case-sensitive search gives up at a
   member without a key; the other one passes over it.
   */
  function Find(ms: seq<Member>, name: cstring, cs: bool): (r: Option<nat>)
    ensures r.Some? ==> r.value < |ms| && Matches(ms[r.value].key, name, cs)
  {
    if ms == [] then None
    else if Matches(ms[0].key, name, cs) then Some(0)
    else if cs && ms[0].key.None? then None
    else
      var r := Find(ms[1..], name, cs);
      if r.None? then None else Some(r.value + 1)
  }

  /** It is the first: no member before it matches; and if none is found, none that the search reaches matches. */
  lemma {:induction false} FindIsFirst(ms: seq<Member>, name: cstring, cs: bool, j: nat)
    requires j < |ms|
    ensures Find(ms, name, cs).Some? && j < Find(ms, name, cs).value ==> !Matches(ms[j].key, name, cs)
    ensures Find(ms, name, cs).None? && (cs ==> forall i :: 0 <= i < j ==> ms[i].key.Some?) ==> !Matches(ms[j].key, name, cs)
  {
    hide Fold;
    if j > 0 && !Matches(ms[0].key, name, cs) && !(cs && ms[0].key.None?) {
      FindIsFirst(ms[1..], name, cs, j - 1);
    }
  }

  function Size(v: Item): (n: nat)
    decreases v, 0
  {
    match v
    case Array(items) => 1 + SizeItems(items)
    case Object(ms) => 1 + SizeMembers(ms)
    case _ => 1
  }

  function SizeItems(items: seq<Item>): (n: nat)
    decreases items, 1
  {
    if items == [] then 0 else Size(items[0]) + SizeItems(items[1..])
  }

  function SizeMembers(ms: seq<Member>): (n: nat)
    decreases ms, 1
  {
    if ms == [] then 0 else SizeMember(ms[0]) + SizeMembers(ms[1..])
  }

  function SizeMember(m: Member): (n: nat)
    decreases m, 1
  {
    Size(m.value)
  }

  lemma {:induction false} ItemSmaller(items: seq<Item>, i: nat)
    requires i < |items|
    ensures Size(items[i]) <= SizeItems(items)
  {
    if i > 0 {
      ItemSmaller(items[1..], i - 1);
    }
  }

  lemma {:induction false} MemberSmaller(ms: seq<Member>, i: nat)
    requires i < |ms|
    ensures Size(ms[i].value) <= SizeMembers(ms)
  {
    if i > 0 {
      MemberSmaller(ms[1..], i - 1);
    }
  }

  /** When two numbers count as equal. */
  type closeness = (Double, Double) -> bool

  /** cJSON_Compare of two trees that share no node. */
  predicate Equal(eq: closeness, a: Item, b: Item, cs: bool)
    decreases Size(a) + Size(b), 0
  {
    match (a, b)
    case (Null, Null) => true
    case (False, False) => true
    case (True, True) => true
    case (Number(x), Number(y)) => eq(x, y)
    case (Raw(s), Raw(t)) => s.Some? && s == t
    case (String(s), String(t)) => s.Some? && s == t
    case (Array(xs), Array(ys)) =>
      |xs| == |ys| && forall i :: 0 <= i < |xs| ==> (ItemSmaller(xs, i); ItemSmaller(ys, i); Equal(eq, xs[i], ys[i], cs))
    case (Object(ms), Object(ns)) => Covers(eq, ms, ns, cs) && Covers(eq, ns, ms, cs)
    case _ => false
  }

  /** Every member of `ms` has an equal counterpart among `ns`. */
  predicate Covers(eq: closeness, ms: seq<Member>, ns: seq<Member>, cs: bool)
    decreases SizeMembers(ms) + SizeMembers(ns), 2
  {
    forall i :: 0 <= i < |ms| ==> (MemberSmaller(ms, i); Counterpart(eq, ms[i], ns, cs))
  }

  predicate Counterpart(eq: closeness, m: Member, ns: seq<Member>, cs: bool)
    decreases Size(m.value) + SizeMembers(ns), 1
  {
    && m.key.Some?
    && var j := Find(ns, m.key.value, cs);
    && j.Some?
    && (MemberSmaller(ns, j.value); Equal(eq, m.value, ns[j.value].value, cs))
  }

  // ---- symmetry ----

  ghost predicate Symmetric(eq: closeness) {
    forall x, y :: eq(x, y) == eq(y, x)
  }

  /** On all trees. */
  lemma {:induction false} EqualSymmetric(eq: closeness, a: Item, b: Item, cs: bool)
    requires Symmetric(eq)
    ensures Equal(eq, a, b, cs) == Equal(eq, b, a, cs)
    decreases Size(a) + Size(b)
  {
    if a.Array? && b.Array? && |a.items| == |b.items| {
      forall i | 0 <= i < |a.items| ensures Equal(eq, a.items[i], b.items[i], cs) == Equal(eq, b.items[i], a.items[i], cs) {
        ItemSmaller(a.items, i);
        ItemSmaller(b.items, i);
        EqualSymmetric(eq, a.items[i], b.items[i], cs);
      }
    }
  }

  // ---- transitivity ----

  /** Every number in the tree is one of `s`. */
  ghost predicate Over(v: Item, s: iset<Double>)
    decreases v
  {
    match v
    case Number(d) => d in s
    case Array(items) => forall i :: 0 <= i < |items| ==> Over(items[i], s)
    case Object(ms) => forall i :: 0 <= i < |ms| ==> Over(ms[i].value, s)
    case _ => true
  }

  ghost predicate OverMembers(ms: seq<Member>, s: iset<Double>) {
    forall i :: 0 <= i < |ms| ==> Over(ms[i].value, s)
  }

  ghost predicate TransitiveOn(eq: closeness, s: iset<Double>) {
    forall x, y, z :: x in s && y in s && z in s && eq(x, y) && eq(y, z) ==> eq(x, z)
  }

  /** Keys that match find the same member. */
  lemma {:induction false} FindMatching(ms: seq<Member>, name: cstring, other: cstring, cs: bool)
    requires Fold(name, cs) == Fold(other, cs)
    ensures Find(ms, name, cs) == Find(ms, other, cs)
  {
    hide Fold;
    if ms != [] {
      FindMatching(ms[1..], name, other, cs);
    }
  }

  /** For any number comparison: what matters are the numbers in the three trees. */
  lemma {:induction false} EqualTransitive(eq: closeness, s: iset<Double>, a: Item, b: Item, c: Item, cs: bool)
    requires TransitiveOn(eq, s) && Over(a, s) && Over(b, s) && Over(c, s)
    requires Equal(eq, a, b, cs) && Equal(eq, b, c, cs)
    ensures Equal(eq, a, c, cs)
    decreases Size(a) + Size(b) + Size(c), 0
  {
    hide Find;
    if a.Array? {
      forall i | 0 <= i < |a.items| ensures Equal(eq, a.items[i], c.items[i], cs) {
        ItemSmaller(a.items, i);
        ItemSmaller(b.items, i);
        ItemSmaller(c.items, i);
        EqualTransitive(eq, s, a.items[i], b.items[i], c.items[i], cs);
      }
    } else if a.Object? {
      CoversTransitive(eq, s, a.members, b.members, c.members, cs);
      CoversTransitive(eq, s, c.members, b.members, a.members, cs);
    }
  }

  lemma {:induction false} CoversTransitive(eq: closeness, s: iset<Double>,
                                            ms: seq<Member>, ns: seq<Member>, os: seq<Member>, cs: bool)
    requires TransitiveOn(eq, s) && OverMembers(ms, s) && OverMembers(ns, s) && OverMembers(os, s)
    requires Covers(eq, ms, ns, cs) && Covers(eq, ns, os, cs)
    ensures Covers(eq, ms, os, cs)
    decreases SizeMembers(ms) + SizeMembers(ns) + SizeMembers(os), 1
  {
    hide Find, Fold, Equal, TransitiveOn;
    forall i | 0 <= i < |ms| ensures Counterpart(eq, ms[i], os, cs) {
      assert Counterpart(eq, ms[i], ns, cs);
      var j := Find(ns, ms[i].key.value, cs).value;
      assert Counterpart(eq, ns[j], os, cs);
      var k := Find(os, ns[j].key.value, cs).value;
      FindMatching(os, ms[i].key.value, ns[j].key.value, cs);
      MemberSmaller(ms, i);
      MemberSmaller(ns, j);
      MemberSmaller(os, k);
      EqualTransitive(eq, s, ms[i].value, ns[j].value, os[k].value, cs);
    }
  }

  /** Comparison is transitive on the trees over `s`. */
  ghost predicate TransitiveTrees(eq: closeness, s: iset<Double>, cs: bool) {
    forall a, b, c :: Over(a, s) && Over(b, s) && Over(c, s) && Equal(eq, a, b, cs) && Equal(eq, b, c, cs) ==> Equal(eq, a, c, cs)
  }

  /** That is so exactly when the number comparison is transitive on `s`. */
  lemma TransitiveExactly(eq: closeness, s: iset<Double>, cs: bool)
    ensures TransitiveTrees(eq, s, cs) <==> TransitiveOn(eq, s)
  {
    if TransitiveOn(eq, s) {
      forall a, b, c | Over(a, s) && Over(b, s) && Over(c, s) && Equal(eq, a, b, cs) && Equal(eq, b, c, cs)
        ensures Equal(eq, a, c, cs)
      {
        EqualTransitive(eq, s, a, b, c, cs);
      }
    }
    if TransitiveTrees(eq, s, cs) {
      forall x, y, z | x in s && y in s && z in s && eq(x, y) && eq(y, z) ensures eq(x, z) {
        NumbersCompared(eq, x, y, cs);
        NumbersCompared(eq, y, z, cs);
        NumbersCompared(eq, x, z, cs);
      }
    }
  }

  lemma NumbersCompared(eq: closeness, x: Double, y: Double, cs: bool)
    ensures Equal(eq, Number(x), Number(y), cs) <==> eq(x, y)
  {
  }

  // ---- numbers ----

  /** The equality of C. */
  predicate SameDouble(x: Double, y: Double) {
    !x.NaN? && x == y
  }

  lemma NumbersSymmetric()
    ensures Symmetric(CompareDouble) && Symmetric(SameDouble) && forall s :: TransitiveOn(SameDouble, s)
  {
  }

  /** With the relative tolerance, comparison is not transitive: three neighbouring numbers around 1. */
  lemma ToleranceNotTransitive(cs: bool)
    ensures var a, b, c := Number(Finite(1.0)), Number(Finite(1.0 + EPSILON)), Number(Finite(1.0 + 2.0 * EPSILON));
            Equal(CompareDouble, a, b, cs) && Equal(CompareDouble, b, c, cs) && !Equal(CompareDouble, a, c, cs)
  {
  }

  /** Worse with an infinity, such as 1e999 reads as: it equals every number, and every other infinity, but not itself. */
  lemma InfinityEqualsAll(cs: bool, negative: bool, d: Double)
    ensures Equal(CompareDouble, Number(Infinite(negative)), Number(d), cs) <==> !d.NaN? && d != Infinite(negative)
  {
    hide CompareDouble;
    ComparedCases(Infinite(negative), d);
  }

  /** So numbers with an infinity among them compare transitively exactly when there is nothing but NaNs beside it. */
  lemma InfinityTransitive(s: iset<Double>, negative: bool)
    requires Infinite(negative) in s
    ensures TransitiveOn(CompareDouble, s) <==> forall x :: x in s ==> x.NaN? || x == Infinite(negative)
  {
    hide CompareDouble;
    var i := Infinite(negative);
    ComparedCases(i, i);
    forall x ensures CompareDouble(i, x) <==> !x.NaN? && x != i {
      ComparedCases(i, x);
    }
    forall x ensures CompareDouble(x, i) <==> !x.NaN? && x != i {
      ComparedCases(x, i);
    }
    forall x, y ensures CompareDouble(x, y) ==> !x.NaN? && !y.NaN? {
      ComparedCases(x, y);
    }
  }

  /** Integers whose magnitude is below 2^52. */
  ghost function Integers(): (s: iset<Double>) {
    iset d: Double | d.Finite? && d.r == d.r.Floor as real && -TOLERATED < d.r.Floor < TOLERATED
  }

  const TOLERATED := 0x10_0000_0000_0000

  /** On them the tolerance is exact equality. */
  lemma IntegersExact(x: Double, y: Double)
    requires x in Integers() && y in Integers()
    ensures CompareDouble(x, y) <==> x == y
  {
    hide CompareDouble;
    ComparedCases(x, y);
    var a, b := Abs(x.r), Abs(y.r);
    var m := if a > b then a else b;
    assert m * EPSILON < 1.0;
    if x != y {
      assert x.r.Floor != y.r.Floor;
      assert Abs(x.r - y.r) >= 1.0;
    }
  }

  /** So cJSON_Compare, as it is, is transitive on all trees whose numbers are such integers, or that hold none. */
  lemma IntegersTransitive(cs: bool)
    ensures TransitiveTrees(CompareDouble, Integers(), cs)
  {
    forall x, y | x in Integers() && y in Integers() ensures CompareDouble(x, y) <==> x == y {
      IntegersExact(x, y);
    }
    TransitiveExactly(CompareDouble, Integers(), cs);
  }

  /** The bound is tight: the next integer is no longer told from its neighbour. */
  lemma IntegersTight()
    ensures CompareDouble(Finite(TOLERATED as real), Finite((TOLERATED - 1) as real))
    ensures Finite((TOLERATED - 1) as real) in Integers()
  {
  }

  // ---- a tree against its copy ----

  /** Distinct members whose keys match hold equal values. */
  predicate KeysAgree(eq: closeness, ms: seq<Member>, cs: bool) {
    forall i, j :: 0 <= i < |ms| && 0 <= j < |ms| && i != j && ms[i].key.Some? && Matches(ms[j].key, ms[i].key.value, cs) ==>
      Equal(eq, ms[i].value, ms[j].value, cs)
  }

  /** Nothing in the tree is missing or invalid, every number equals itself, and matching keys agree. */
  predicate Regular(eq: closeness, v: Item, cs: bool)
    decreases v
  {
    match v
    case Invalid => false
    case Number(d) => eq(d, d)
    case Raw(t) => t.Some?
    case String(t) => t.Some?
    case Array(items) => forall i :: 0 <= i < |items| ==> Regular(eq, items[i], cs)
    case Object(ms) =>
      && (forall i :: 0 <= i < |ms| ==> ms[i].key.Some? && Regular(eq, ms[i].value, cs))
      && KeysAgree(eq, ms, cs)
    case _ => true
  }

  lemma {:induction false} FindPresent(ms: seq<Member>, i: nat, name: cstring, cs: bool)
    requires i < |ms| && Matches(ms[i].key, name, cs) && forall j :: 0 <= j < |ms| ==> ms[j].key.Some?
    ensures Find(ms, name, cs).Some?
  {
    hide Fold;
    if i > 0 {
      FindPresent(ms[1..], i - 1, name, cs);
    }
  }

  /** A regular tree equals a copy of itself. */
  lemma {:induction false} RegularEqualsItself(eq: closeness, v: Item, cs: bool)
    requires Regular(eq, v, cs)
    ensures Equal(eq, v, v, cs)
    decreases v
  {
    hide Find, Fold;
    if v.Array? {
      forall i | 0 <= i < |v.items| ensures Equal(eq, v.items[i], v.items[i], cs) {
        RegularEqualsItself(eq, v.items[i], cs);
      }
    } else if v.Object? {
      var ms := v.members;
      forall i | 0 <= i < |ms| ensures Counterpart(eq, ms[i], ms, cs) {
        FindPresent(ms, i, ms[i].key.value, cs);
        var f := Find(ms, ms[i].key.value, cs).value;
        MemberInside(ms, i);
        RegularEqualsItself(eq, ms[i].value, cs);
        MemberSmaller(ms, f);
      }
    }
  }

  lemma MemberInside(ms: seq<Member>, i: nat)
    requires i < |ms|
    ensures ms[i].value < Object(ms)
  {
    assert ms[i] < Object(ms);
  }

  /** Where number comparison is symmetric, and transitive on the tree's numbers, only a regular tree equals its copy. */
  lemma {:induction false} OnlyRegularEqualsItself(eq: closeness, s: iset<Double>, v: Item, cs: bool)
    requires Symmetric(eq) && TransitiveOn(eq, s) && Over(v, s) && Equal(eq, v, v, cs)
    ensures Regular(eq, v, cs)
    decreases v
  {
    hide Find, Fold;
    if v.Array? {
      forall i | 0 <= i < |v.items| ensures Regular(eq, v.items[i], cs) {
        OnlyRegularEqualsItself(eq, s, v.items[i], cs);
      }
    } else if v.Object? {
      var ms := v.members;
      forall i | 0 <= i < |ms| ensures ms[i].key.Some? && Regular(eq, ms[i].value, cs) {
        assert Counterpart(eq, ms[i], ms, cs);
        var f := Find(ms, ms[i].key.value, cs).value;
        EqualSymmetric(eq, ms[i].value, ms[f].value, cs);
        EqualTransitive(eq, s, ms[i].value, ms[f].value, ms[i].value, cs);
        MemberInside(ms, i);
        OnlyRegularEqualsItself(eq, s, ms[i].value, cs);
      }
      CoveredKeysAgree(eq, s, ms, cs);
    }
  }

  lemma CoveredKeysAgree(eq: closeness, s: iset<Double>, ms: seq<Member>, cs: bool)
    requires Symmetric(eq) && TransitiveOn(eq, s) && OverMembers(ms, s) && Covers(eq, ms, ms, cs)
    ensures KeysAgree(eq, ms, cs)
  {
    hide Find, Fold, Equal;
    forall i, j | 0 <= i < |ms| && 0 <= j < |ms| && i != j && ms[i].key.Some? && Matches(ms[j].key, ms[i].key.value, cs)
      ensures Equal(eq, ms[i].value, ms[j].value, cs)
    {
      assert Counterpart(eq, ms[i], ms, cs) && Counterpart(eq, ms[j], ms, cs);
      FindMatching(ms, ms[i].key.value, ms[j].key.value, cs);
      var f := Find(ms, ms[i].key.value, cs).value;
      EqualSymmetric(eq, ms[j].value, ms[f].value, cs);
      EqualTransitive(eq, s, ms[i].value, ms[f].value, ms[j].value, cs);
    }
  }

  /** Every member is present and equals the first whose key matches its own. */
  predicate FirstsAgree(eq: closeness, v: Item, cs: bool)
    decreases Size(v), 1
  {
    match v
    case Invalid => false
    case Number(d) => eq(d, d)
    case Raw(t) => t.Some?
    case String(t) => t.Some?
    case Array(items) => forall i :: 0 <= i < |items| ==> (ItemSmaller(items, i); FirstsAgree(eq, items[i], cs))
    case Object(ms) =>
      forall i :: 0 <= i < |ms| ==> FirstAgrees(eq, ms, i, cs)
    case _ => true
  }

  predicate FirstAgrees(eq: closeness, ms: seq<Member>, i: nat, cs: bool)
    requires i < |ms|
    decreases SizeMembers(ms), 2
  {
    && ms[i].key.Some?
    && var f := Find(ms, ms[i].key.value, cs);
    && f.Some?
    && if f.value == i then MemberSmaller(ms, i); FirstsAgree(eq, ms[i].value, cs) else Equal(eq, ms[i].value, ms[f.value].value, cs)
  }

  /** Exactly when a tree equals its copy, for any number comparison whatever, the code's own included. */
  lemma {:induction false} EqualsItselfExactly(eq: closeness, v: Item, cs: bool)
    ensures Equal(eq, v, v, cs) <==> FirstsAgree(eq, v, cs)
    decreases v
  {
    hide Find, Fold;
    if v.Array? {
      forall i | 0 <= i < |v.items| ensures Equal(eq, v.items[i], v.items[i], cs) <==> FirstsAgree(eq, v.items[i], cs) {
        EqualsItselfExactly(eq, v.items[i], cs);
      }
    } else if v.Object? {
      var ms := v.members;
      forall i | 0 <= i < |ms| ensures Counterpart(eq, ms[i], ms, cs) <==> FirstAgrees(eq, ms, i, cs) {
        MemberInside(ms, i);
        EqualsItselfExactly(eq, ms[i].value, cs);
      }
    }
  }

  /** No two members of an object in the tree have matching keys, and nothing is missing or invalid. */
  predicate DistinctKeys(v: Item, cs: bool)
    decreases v
  {
    match v
    case Invalid => false
    case Number(d) => d.Finite?
    case Raw(t) => t.Some?
    case String(t) => t.Some?
    case Array(items) => forall i :: 0 <= i < |items| ==> DistinctKeys(items[i], cs)
    case Object(ms) =>
      && (forall i :: 0 <= i < |ms| ==> ms[i].key.Some? && DistinctKeys(ms[i].value, cs))
      && (forall i, j :: 0 <= i < |ms| && 0 <= j < |ms| && i != j && ms[i].key.Some? ==> !Matches(ms[j].key, ms[i].key.value, cs))
    case _ => true
  }

  /** With distinct keys a complete tree equals its copy, with the tolerance or without. */
  lemma {:induction false} DistinctKeysRegular(v: Item, cs: bool)
    requires DistinctKeys(v, cs)
    ensures Regular(CompareDouble, v, cs) && Regular(SameDouble, v, cs)
    decreases v
  {
    hide Fold;
    if v.Array? {
      forall i | 0 <= i < |v.items| ensures Regular(CompareDouble, v.items[i], cs) && Regular(SameDouble, v.items[i], cs) {
        DistinctKeysRegular(v.items[i], cs);
      }
    } else if v.Object? {
      forall i | 0 <= i < |v.members|
        ensures Regular(CompareDouble, v.members[i].value, cs) && Regular(SameDouble, v.members[i].value, cs)
      {
        MemberInside(v.members, i);
        DistinctKeysRegular(v.members[i].value, cs);
      }
    }
  }
}
