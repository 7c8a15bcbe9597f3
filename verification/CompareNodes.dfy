/** cJSON_Compare and the key lookup on linked nodes. */
module CompareNodes {
  import opened Text
  import opened Numbers
  import opened Json
  import opened Heap
  import opened HeapTree
  import opened HeapRead
  import opened Compare

  /** case_insensitive_strcmp on two present strings, read up to and including their terminators. */
  method CaseInsensitiveStrcmp(a: cstring, b: cstring) returns (n: int)
    ensures n == 0 <==> LowerAll(a) == LowerAll(b)
  {
    var i := 0;
    while LowerAt(a, i) == LowerAt(b, i)
      invariant 0 <= i <= |a| && i <= |b|
      invariant LowerAll(a) == LowerAll(b) <==> LowerAll(a[i..]) == LowerAll(b[i..])
      decreases |a| - i
    {
      if i == |a| {
        LowerEnds(b[i..]);
        return 0;
      }
      LowerHead(a[i..]);
      LowerHead(b[i..]);
      assert a[i..][1..] == a[i + 1..] && b[i..][1..] == b[i + 1..];
      i := i + 1;
    }
    LowerDiffers(a[i..], b[i..]);
    return LowerAt(a, i) - LowerAt(b, i);
  }

  /** The byte at `i`, lowered; the terminator is 0. */
  function LowerAt(s: cstring, i: nat): (n: int)
    requires i <= |s|
  {
    if i < |s| then Lower(s[i]) else 0
  }

  lemma LowerEnds(s: seq<byte>)
    ensures LowerAll(s) == [] <==> s == []
  {
  }

  lemma LowerHead(s: seq<byte>)
    requires s != []
    ensures LowerAll(s) != [] && LowerAll(s)[0] == Lower(s[0]) && LowerAll(s)[1..] == LowerAll(s[1..])
  {
  }

  lemma LowerDiffers(a: seq<byte>, b: seq<byte>)
    requires (if a == [] then 0 else Lower(a[0])) != (if b == [] then 0 else Lower(b[0]))
    ensures LowerAll(a) != LowerAll(b)
  {
    LowerEnds(a);
    LowerEnds(b);
    if a != [] {
      LowerHead(a);
    }
    if b != [] {
      LowerHead(b);
    }
  }

  /** get_object_item. */
  method GetObjectItem(m: Memory, parent: ptr, name: Option<cstring>, cs: bool, ghost t: Tree) returns (item: ptr)
    requires parent != NULL ==> Shows(m.blocks, t) && t.shape.node == parent
    ensures parent == NULL || name.None? ==> item == NULL
    ensures parent != NULL && name.Some? ==>
      var found := Find(Members(m.blocks, t), name.value, cs);
      item == if found.Some? then KidNode(t, found.value) else NULL
  {
    hide Members, Find, Reads, Fold;
    if parent == NULL || name.None? {
      return NULL;
    }
    FirstKid(m.blocks, t);
    item := m.blocks[parent].child;
    ghost var i, ms := 0, Members(m.blocks, t);
    assert ms[0..] == ms;
    while item != NULL
      invariant 0 <= i <= |ms| && item == KidNode(t, i)
      invariant Find(ms, name.value, cs) == if Find(ms[i..], name.value, cs).None? then None else Some(i + Find(ms[i..], name.value, cs).value)
      decreases |ms| - i
    {
      Walk(m.blocks, t, i);
      FindAt(ms, i, name.value, cs);
      var key := StringAt(m.blocks, m.blocks[item].key);
      var equal := false;
      if key.Some? {
        equal := KeysEqual(key.value, name.value, cs);
      }
      if equal {
        return;
      }
      if cs && key.None? {
        return NULL;
      }
      item := m.blocks[item].next;
      i := i + 1;
    }
    if i < |ms| {
      Walk(m.blocks, t, i);
    }
    FindEnd(ms, i, name.value, cs);
  }

  method KeysEqual(key: cstring, name: cstring, cs: bool) returns (r: bool)
    ensures r <==> Matches(Some(key), name, cs)
  {
    hide LowerAll;
    if cs {
      return key == name;
    }
    var n := CaseInsensitiveStrcmp(name, key);
    return n == 0;
  }

  lemma FindAt(ms: seq<Member>, i: nat, name: cstring, cs: bool)
    requires i < |ms|
    ensures Find(ms[i..], name, cs) ==
            if Matches(ms[i].key, name, cs) then Some(0)
            else if cs && ms[i].key.None? then None
            else if Find(ms[i + 1..], name, cs).None? then None
            else Some(Find(ms[i + 1..], name, cs).value + 1)
  {
    hide Matches;
    assert ms[i..][0] == ms[i] && ms[i..][1..] == ms[i + 1..];
  }

  lemma FindEnd(ms: seq<Member>, i: nat, name: cstring, cs: bool)
    requires i >= |ms|
    ensures i == |ms| ==> Find(ms[i..], name, cs) == None
  {
  }

  // ---- comparing ----

  /** cJSON_Compare of two trees that may share nodes: a valid node equals itself, whatever it holds. */
  predicate Alike(eq: closeness, s: Shape, a: Item, t: Shape, b: Item, cs: bool)
    decreases Size(a) + Size(b), 0
  {
    if s.node == t.node then !a.Invalid? && KindOf(a) == KindOf(b)
    else if a.Array? && b.Array? then
      && |s.kids| == |a.items| == |b.items| == |t.kids|
      && forall i :: 0 <= i < |a.items| ==>
        (ItemSmaller(a.items, i); ItemSmaller(b.items, i); Alike(eq, s.kids[i], a.items[i], t.kids[i], b.items[i], cs))
    else if a.Object? && b.Object? then
      AlikeMembers(eq, s.kids, a.members, t.kids, b.members, cs) && AlikeMembers(eq, t.kids, b.members, s.kids, a.members, cs)
    else Equal(eq, a, b, cs)
  }

  /** Every member of `ms` has a counterpart among `ns`. */
  predicate AlikeMembers(eq: closeness, ss: seq<Shape>, ms: seq<Member>, ts: seq<Shape>, ns: seq<Member>, cs: bool)
    decreases SizeMembers(ms) + SizeMembers(ns), 2
  {
    |ss| == |ms| && forall i :: 0 <= i < |ms| ==> (MemberSmaller(ms, i); AlikeMember(eq, ss[i], ms[i], ts, ns, cs))
  }

  predicate AlikeMember(eq: closeness, s: Shape, m: Member, ts: seq<Shape>, ns: seq<Member>, cs: bool)
    decreases Size(m.value) + SizeMembers(ns), 1
  {
    && m.key.Some? && |ts| == |ns|
    && var j := Find(ns, m.key.value, cs);
    && j.Some?
    && (MemberSmaller(ns, j.value); Alike(eq, s, m.value, ts[j.value], ns[j.value].value, cs))
  }

  /** cJSON_Compare, whatever the two trees share. */
  method CompareItems(m: Memory, eq: closeness, a: ptr, b: ptr, cs: bool, ghost s: Tree, ghost t: Tree) returns (r: bool)
    requires a != NULL && b != NULL ==>
      Shows(m.blocks, s) && s.shape.node == a && Shows(m.blocks, t) && t.shape.node == b
    ensures a == NULL || b == NULL ==> !r
    ensures a != NULL && b != NULL ==> r == Alike(eq, s.shape, s.value, t.shape, t.value, cs)
    decreases Size(s.value) + Size(t.value), 1
  {
    hide Reads, Members, Covers, AlikeMembers;
    if a == NULL || b == NULL {
      return false;
    }
    Fields(m.blocks, s);
    Fields(m.blocks, t);
    var x, y := m.blocks[a], m.blocks[b];
    if x.kind != y.kind || x.kind == NoKind {
      return false;
    }
    if a == b {
      return true;
    }
    match x.kind {
      case FalseKind | TrueKind | NullKind =>
        r := true;
      case NumberKind =>
        r := eq(x.number, y.number);
      case StringKind | RawKind =>
        var u, v := StringAt(m.blocks, x.text), StringAt(m.blocks, y.text);
        r := u.Some? && v.Some? && u == v;
      case ArrayKind =>
        r := CompareArrays(m, eq, a, b, cs, s, t);
      case ObjectKind =>
        r := CompareMembers(m, eq, a, b, cs, s, t);
        if r {
          r := CompareMembers(m, eq, b, a, cs, t, s);
        }
    }
  }

  method CompareArrays(m: Memory, eq: closeness, a: ptr, b: ptr, cs: bool, ghost s: Tree, ghost t: Tree) returns (r: bool)
    requires Shows(m.blocks, s) && s.shape.node == a && Shows(m.blocks, t) && t.shape.node == b && a != b
    requires s.value.Array? && t.value.Array?
    ensures r == Alike(eq, s.shape, s.value, t.shape, t.value, cs)
    decreases Size(s.value) + Size(t.value), 0
  {
    hide Reads, Members, Alike;
    FirstKid(m.blocks, s);
    FirstKid(m.blocks, t);
    ArrayKids(m.blocks, s);
    ArrayKids(m.blocks, t);
    var x, y := m.blocks[a].child, m.blocks[b].child;
    ghost var i := 0;
    while x != NULL && y != NULL
      invariant 0 <= i <= |s.shape.kids| && i <= |t.shape.kids| && x == KidNode(s, i) && y == KidNode(t, i)
      invariant forall j :: 0 <= j < i ==> Alike(eq, s.shape.kids[j], s.value.items[j], t.shape.kids[j], t.value.items[j], cs)
      decreases |s.shape.kids| - i
    {
      Walk(m.blocks, s, i);
      Walk(m.blocks, t, i);
      ItemSmaller(s.value.items, i);
      ItemSmaller(t.value.items, i);
      r := CompareItems(m, eq, x, y, cs, Kid(m.blocks, s, i), Kid(m.blocks, t, i));
      if !r {
        ArraysDiffer(eq, s, t, cs, i);
        return;
      }
      x, y := m.blocks[x].next, m.blocks[y].next;
      i := i + 1;
    }
    if i < |s.shape.kids| {
      Walk(m.blocks, s, i);
    }
    if i < |t.shape.kids| {
      Walk(m.blocks, t, i);
    }
    r := x == y;
    ArraysAlike(eq, s, t, cs);
  }

  lemma ArraysDiffer(eq: closeness, s: Tree, t: Tree, cs: bool, i: nat)
    requires s.value.Array? && t.value.Array? && s.shape.node != t.shape.node
    requires i < |s.value.items| == |s.shape.kids| && i < |t.value.items| == |t.shape.kids|
    requires !Alike(eq, s.shape.kids[i], s.value.items[i], t.shape.kids[i], t.value.items[i], cs)
    ensures !Alike(eq, s.shape, s.value, t.shape, t.value, cs)
  {
  }

  lemma ArraysAlike(eq: closeness, s: Tree, t: Tree, cs: bool)
    requires s.value.Array? && t.value.Array? && s.shape.node != t.shape.node
    requires |s.value.items| == |s.shape.kids| && |t.value.items| == |t.shape.kids|
    requires |s.shape.kids| == |t.shape.kids| ==> forall i :: 0 <= i < |s.shape.kids| ==>
      Alike(eq, s.shape.kids[i], s.value.items[i], t.shape.kids[i], t.value.items[i], cs)
    ensures Alike(eq, s.shape, s.value, t.shape, t.value, cs) <==> |s.shape.kids| == |t.shape.kids|
  {
  }

  /** One of the two loops over the members of an object. */
  method CompareMembers(m: Memory, eq: closeness, a: ptr, b: ptr, cs: bool, ghost s: Tree, ghost t: Tree) returns (r: bool)
    requires Shows(m.blocks, s) && s.shape.node == a && Shows(m.blocks, t) && t.shape.node == b
    requires s.value.Object? && t.value.Object?
    ensures r == AlikeMembers(eq, s.shape.kids, s.value.members, t.shape.kids, t.value.members, cs)
    decreases Size(s.value) + Size(t.value), 0
  {
    hide Reads, Members, Alike, Find;
    FirstKid(m.blocks, s);
    FirstKid(m.blocks, t);
    ObjectKids(m.blocks, s);
    ObjectKids(m.blocks, t);
    ObjectSize(s.value);
    ObjectSize(t.value);
    var x := m.blocks[a].child;
    ghost var i, ms, ns := 0, s.value.members, t.value.members;
    while x != NULL
      invariant 0 <= i <= |s.shape.kids| && x == KidNode(s, i)
      invariant forall j :: 0 <= j < i ==> AlikeMember(eq, s.shape.kids[j], ms[j], t.shape.kids, ns, cs)
      decreases |s.shape.kids| - i
    {
      Walk(m.blocks, s, i);
      MemberSmaller(ms, i);
      r := CompareMember(m, eq, x, b, cs, s, t, i);
      if !r {
        return;
      }
      x := m.blocks[x].next;
      i := i + 1;
    }
    if i < |s.shape.kids| {
      Walk(m.blocks, s, i);
    }
    r := true;
  }

  lemma ObjectSize(v: Item)
    requires v.Object?
    ensures Size(v) == 1 + SizeMembers(v.members)
  {
  }

  /** The counterpart of one member is looked up and compared. */
  method CompareMember(m: Memory, eq: closeness, x: ptr, b: ptr, cs: bool, ghost s: Tree, ghost t: Tree, ghost i: nat) returns (r: bool)
    requires Shows(m.blocks, s) && Shows(m.blocks, t) && t.shape.node == b && s.value.Object? && t.value.Object?
    requires i < |s.shape.kids| && |s.shape.kids| == |s.value.members| && x == s.shape.kids[i].node
    ensures r == AlikeMember(eq, s.shape.kids[i], s.value.members[i], t.shape.kids, t.value.members, cs)
    decreases Size(s.value.members[i].value) + SizeMembers(t.value.members), 2
  {
    hide Reads, Members, Alike, Find;
    Walk(m.blocks, s, i);
    FirstKid(m.blocks, t);
    Fields(m.blocks, t);
    ObjectKids(m.blocks, s);
    ObjectKids(m.blocks, t);
    var key := StringAt(m.blocks, m.blocks[x].key);
    var y := GetObjectItem(m, b, key, cs, t);
    if key.Some? && Find(t.value.members, key.value, cs).Some? {
      Walk(m.blocks, t, Find(t.value.members, key.value, cs).value);
    }
    if y == NULL {
      return false;
    }
    ghost var j := Find(t.value.members, key.value, cs).value;
    Walk(m.blocks, t, j);
    MemberSmaller(t.value.members, j);
    r := CompareItems(m, eq, x, y, cs, Kid(m.blocks, s, i), Kid(m.blocks, t, j));
  }

  // ---- what sharing changes ----

  function NodesOf(sh: Shape): (ids: set<ptr>)
    decreases sh, 0
  {
    {sh.node} + NodesOfAll(sh.kids)
  }

  function NodesOfAll(shs: seq<Shape>): (ids: set<ptr>)
    decreases shs, 1
  {
    if shs == [] then {} else NodesOf(shs[0]) + NodesOfAll(shs[1..])
  }

  lemma {:induction false} NodesInside(shs: seq<Shape>, i: nat)
    requires i < |shs|
    ensures NodesOf(shs[i]) <= NodesOfAll(shs)
  {
    if i > 0 {
      NodesInside(shs[1..], i - 1);
    }
  }

  /** Where a tree has a value, its shape has a node. */
  predicate Fits(sh: Shape, v: Item)
    decreases sh
  {
    && |sh.kids| == |KidsOf(v)|
    && forall i :: 0 <= i < |sh.kids| ==> Fits(sh.kids[i], KidsOf(v)[i].value)
  }

  lemma {:induction false} ShowsFits(h: heap, t: Tree)
    requires Shows(h, t)
    ensures Fits(t.shape, t.value)
    decreases t.shape
  {
    KidsFit(h, t.shape.kids, t.value);
    var kids, ms := t.shape.kids, Members(h, t);
    forall i | 0 <= i < |kids| ensures Fits(kids[i], KidsOf(t.value)[i].value) {
      assert kids[i] in kids;
      ShowsFits(h, Tree(kids[i], ms[i].key, ms[i].value));
    }
  }

  /** Two trees without a common node are alike exactly when they are equal. */
  lemma {:induction false} ApartAlike(eq: closeness, s: Shape, a: Item, t: Shape, b: Item, cs: bool)
    requires Fits(s, a) && Fits(t, b) && NodesOf(s) !! NodesOf(t)
    ensures Alike(eq, s, a, t, b, cs) == Equal(eq, a, b, cs)
    decreases Size(a) + Size(b), 0
  {
    if a.Array? && b.Array? && |a.items| == |b.items| {
      forall i | 0 <= i < |a.items|
        ensures Alike(eq, s.kids[i], a.items[i], t.kids[i], b.items[i], cs) == Equal(eq, a.items[i], b.items[i], cs)
      {
        NodesInside(s.kids, i);
        NodesInside(t.kids, i);
        ItemSmaller(a.items, i);
        ItemSmaller(b.items, i);
        assert KidsOf(a)[i].value == a.items[i] && KidsOf(b)[i].value == b.items[i];
        ApartAlike(eq, s.kids[i], a.items[i], t.kids[i], b.items[i], cs);
      }
    } else if a.Object? && b.Object? {
      ApartMembers(eq, s.kids, a.members, t.kids, b.members, cs);
      ApartMembers(eq, t.kids, b.members, s.kids, a.members, cs);
    }
  }

  lemma {:induction false} ApartMembers(eq: closeness, ss: seq<Shape>, ms: seq<Member>, ts: seq<Shape>, ns: seq<Member>, cs: bool)
    requires |ss| == |ms| && |ts| == |ns| && NodesOfAll(ss) !! NodesOfAll(ts)
    requires forall i :: 0 <= i < |ss| ==> Fits(ss[i], ms[i].value)
    requires forall i :: 0 <= i < |ts| ==> Fits(ts[i], ns[i].value)
    ensures AlikeMembers(eq, ss, ms, ts, ns, cs) == Covers(eq, ms, ns, cs)
    decreases SizeMembers(ms) + SizeMembers(ns), 1
  {
    hide Fits, Alike, Equal, Find;
    forall i | 0 <= i < |ms| ensures AlikeMember(eq, ss[i], ms[i], ts, ns, cs) == Counterpart(eq, ms[i], ns, cs) {
      if ms[i].key.Some? && Find(ns, ms[i].key.value, cs).Some? {
        var j := Find(ns, ms[i].key.value, cs).value;
        MemberSmaller(ms, i);
        MemberSmaller(ns, j);
        NodesInside(ss, i);
        NodesInside(ts, j);
        ApartAlike(eq, ss[i], ms[i].value, ts[j], ns[j].value, cs);
      }
    }
  }

  /** Equal trees are alike, whatever they share. */
  lemma {:induction false} EqualAlike(h: heap, eq: closeness, s: Tree, t: Tree, cs: bool)
    requires Shows(h, s) && Shows(h, t) && Equal(eq, s.value, t.value, cs)
    ensures Alike(eq, s.shape, s.value, t.shape, t.value, cs)
    decreases Size(s.value) + Size(t.value), 0
  {
    hide Reads, Members, Find;
    FirstKid(h, s);
    FirstKid(h, t);
    if s.shape.node != t.shape.node && s.value.Array? {
      ArrayKids(h, s);
      ArrayKids(h, t);
      forall i | 0 <= i < |s.value.items|
        ensures Alike(eq, s.shape.kids[i], s.value.items[i], t.shape.kids[i], t.value.items[i], cs)
      {
        Walk(h, s, i);
        Walk(h, t, i);
        ItemSmaller(s.value.items, i);
        ItemSmaller(t.value.items, i);
        EqualAlike(h, eq, Kid(h, s, i), Kid(h, t, i), cs);
      }
    } else if s.shape.node != t.shape.node && s.value.Object? {
      CoversAlike(h, eq, s, t, cs);
      CoversAlike(h, eq, t, s, cs);
    }
  }

  lemma {:induction false} CoversAlike(h: heap, eq: closeness, s: Tree, t: Tree, cs: bool)
    requires Shows(h, s) && Shows(h, t) && s.value.Object? && t.value.Object?
    requires Covers(eq, s.value.members, t.value.members, cs)
    ensures AlikeMembers(eq, s.shape.kids, s.value.members, t.shape.kids, t.value.members, cs)
    decreases SizeMembers(s.value.members) + SizeMembers(t.value.members), 1
  {
    hide Reads, Members, Find, Alike, Equal;
    FirstKid(h, s);
    FirstKid(h, t);
    ObjectKids(h, s);
    ObjectKids(h, t);
    var ms, ns := s.value.members, t.value.members;
    forall i | 0 <= i < |ms| ensures AlikeMember(eq, s.shape.kids[i], ms[i], t.shape.kids, ns, cs) {
      assert Counterpart(eq, ms[i], ns, cs);
      var j := Find(ns, ms[i].key.value, cs).value;
      MemberSmaller(ms, i);
      MemberSmaller(ns, j);
      Walk(h, s, i);
      Walk(h, t, j);
      EqualAlike(h, eq, Kid(h, s, i), Kid(h, t, j), cs);
    }
  }

  /** Sharing makes no difference to a tree that is regular: alike is equal. */
  lemma {:induction false} AlikeEqual(h: heap, eq: closeness, s: Tree, t: Tree, cs: bool)
    requires Shows(h, s) && Shows(h, t) && Regular(eq, s.value, cs) && Regular(eq, t.value, cs)
    ensures Alike(eq, s.shape, s.value, t.shape, t.value, cs) == Equal(eq, s.value, t.value, cs)
    decreases Size(s.value) + Size(t.value), 0
  {
    hide Reads, Members, Find, KeysAgree;
    FirstKid(h, s);
    FirstKid(h, t);
    if s.shape.node == t.shape.node {
      ReadsUnique(h, s, t);
      RegularEqualsItself(eq, s.value, cs);
    } else if s.value.Array? && t.value.Array? && |s.value.items| == |t.value.items| {
      ArrayKids(h, s);
      ArrayKids(h, t);
      forall i | 0 <= i < |s.value.items|
        ensures Alike(eq, s.shape.kids[i], s.value.items[i], t.shape.kids[i], t.value.items[i], cs)
             == Equal(eq, s.value.items[i], t.value.items[i], cs)
      {
        Walk(h, s, i);
        Walk(h, t, i);
        ItemSmaller(s.value.items, i);
        ItemSmaller(t.value.items, i);
        AlikeEqual(h, eq, Kid(h, s, i), Kid(h, t, i), cs);
      }
    } else if s.value.Object? && t.value.Object? {
      AlikeCovers(h, eq, s, t, cs);
      AlikeCovers(h, eq, t, s, cs);
    }
  }

  lemma {:induction false} AlikeCovers(h: heap, eq: closeness, s: Tree, t: Tree, cs: bool)
    requires Shows(h, s) && Shows(h, t) && s.value.Object? && t.value.Object?
    requires Regular(eq, s.value, cs) && Regular(eq, t.value, cs)
    ensures AlikeMembers(eq, s.shape.kids, s.value.members, t.shape.kids, t.value.members, cs)
         == Covers(eq, s.value.members, t.value.members, cs)
    decreases SizeMembers(s.value.members) + SizeMembers(t.value.members), 1
  {
    hide Reads, Members, Find, Alike, Equal, KeysAgree;
    FirstKid(h, s);
    FirstKid(h, t);
    ObjectKids(h, s);
    ObjectKids(h, t);
    var ms, ns := s.value.members, t.value.members;
    forall i | 0 <= i < |ms|
      ensures AlikeMember(eq, s.shape.kids[i], ms[i], t.shape.kids, ns, cs) == Counterpart(eq, ms[i], ns, cs)
    {
      if Find(ns, ms[i].key.value, cs).Some? {
        var j := Find(ns, ms[i].key.value, cs).value;
        MemberSmaller(ms, i);
        MemberSmaller(ns, j);
        Walk(h, s, i);
        Walk(h, t, j);
        AlikeEqual(h, eq, Kid(h, s, i), Kid(h, t, j), cs);
      }
    }
  }

  /** Two arrays whose one element is the same node: they are alike even where no two such trees are equal. */
  lemma SharedNotANumber(eq: closeness, cs: bool)
    requires !eq(NaN, NaN)
    ensures var h: heap := map[1 := BLANK.(kind := ArrayKind, child := 3), 2 := BLANK.(kind := ArrayKind, child := 3),
                               3 := BLANK.(kind := NumberKind, number := NaN)];
            var n, v := Shape(3, NULL, NULL, []), Array([Number(NaN)]);
            var s, t := Tree(Shape(1, NULL, NULL, [n]), None, v), Tree(Shape(2, NULL, NULL, [n]), None, v);
            && Shows(h, s) && Shows(h, t)
            && Alike(eq, s.shape, s.value, t.shape, t.value, cs) && !Equal(eq, s.value, t.value, cs)
  {
    var h: heap := map[1 := BLANK.(kind := ArrayKind, child := 3), 2 := BLANK.(kind := ArrayKind, child := 3),
                       3 := BLANK.(kind := NumberKind, number := NaN)];
    var n, x, v := Shape(3, NULL, NULL, []), Number(NaN), Array([Number(NaN)]);
    assert Reads(h, n, None, x);
    assert !Equal(eq, x, x, cs);
    assert v.items[0] == x;
  }
}
