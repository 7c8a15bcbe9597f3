/** When heap nodes represent a JSON tree. */
module HeapTree {
  import opened Text
  import opened Numbers
  import opened Json
  import opened Heap

  function KindOf(v: Item): (k: Kind) {
    match v
    case Invalid => NoKind
    case Null => NullKind
    case False => FalseKind
    case True => TrueKind
    case Number(_) => NumberKind
    case Raw(_) => RawKind
    case String(_) => StringKind
    case Array(_) => ArrayKind
    case Object(_) => ObjectKind
  }

  function TextOf(v: Item): (t: Option<cstring>) {
    match v
    case Raw(t) => t
    case String(t) => t
    case _ => None
  }

  /** The children of a tree, without the keys of array elements. */
  function KidsOf(v: Item): (ms: seq<Member>) {
    match v
    case Array(items) => seq(|items|, i requires 0 <= i < |items| => Member(None, items[i]))
    case Object(ms) => ms
    case _ => []
  }

  /** The string a key or text pointer leads to. */
  function StringAt(h: heap, p: ptr): (s: Option<cstring>) {
    if p != NULL && IsChars(h, p) then Some(CString(h[p].bytes)) else None
  }

  /** The children of a tree as they stand in the heap: elements of an array may carry keys, which the tree does not show. */
  function KidsIn(h: heap, shs: seq<Shape>, v: Item): (ms: seq<Member>) {
    match v
    case Array(items) =>
      seq(|items|, i requires 0 <= i < |items| => Member(if i < |shs| then StringAt(h, shs[i].key) else None, items[i]))
    case Object(ms) => ms
    case _ => []
  }

  /** The tree has these children; the keys of array elements do not matter. */
  predicate Agrees(v: Item, ms: seq<Member>) {
    match v
    case Array(items) => |items| == |ms| && forall i :: 0 <= i < |ms| ==> items[i] == ms[i].value
    case Object(ns) => ns == ms
    case _ => ms == []
  }

  /** A pointer to a string with these visible contents; a missing string is NULL. */
  predicate Spells(h: heap, p: ptr, t: Option<cstring>) {
    match t
    case None => p == NULL
    case Some(s) => p != NULL && IsChars(h, p) && CString(h[p].bytes) == s
  }

  function First(shs: seq<Shape>): (p: ptr) {
    if shs == [] then NULL else shs[0].node
  }

  /** The sibling links of one child. */
  predicate LinkedAt(h: heap, shs: seq<Shape>, i: nat)
    requires i < |shs|
  {
    && IsNode(h, shs[i].node) && shs[i].node != NULL
    && h[shs[i].node].next == (if i + 1 < |shs| then shs[i + 1].node else NULL)
    && h[shs[i].node].prev == (if i > 0 then shs[i - 1].node else shs[|shs| - 1].node)
  }

  /** The links of a child list: next and prev are mutual, and the head's prev is the tail. */
  predicate Linked(h: heap, shs: seq<Shape>) {
    forall i :: 0 <= i < |shs| ==> LinkedAt(h, shs, i)
  }

  /** The node of `sh` represents `v` under `key`; its own sibling links are left open. */
  predicate Rep(h: heap, sh: Shape, key: Option<cstring>, v: Item)
    decreases sh
  {
    && IsNode(h, sh.node)
    && var n := h[sh.node];
    && n.kind == KindOf(v) && !n.isReference && !n.constKey
    && n.text == sh.text && n.key == sh.key && n.child == First(sh.kids)
    && (v.Number? ==> n.number == v.value)
    && Spells(h, sh.text, TextOf(v)) && Spells(h, sh.key, key)
    && Linked(h, sh.kids)
    && var ms := KidsIn(h, sh.kids, v);
    && |sh.kids| == |ms|
    && forall i :: 0 <= i < |sh.kids| ==> Rep(h, sh.kids[i], ms[i].key, ms[i].value)
  }

  lemma RepKey(h: heap, sh: Shape, key: Option<cstring>, v: Item)
    requires Rep(h, sh, key, v)
    ensures StringAt(h, sh.key) == key
  {
  }

  lemma KidsFit(h: heap, shs: seq<Shape>, v: Item)
    ensures Agrees(v, KidsIn(h, shs, v)) && Agrees(v, KidsOf(v)) && |KidsIn(h, shs, v)| == |KidsOf(v)|
  {
  }

  /** What the children represent are the children of any tree that has them. */
  lemma KidsKnown(h: heap, shs: seq<Shape>, v: Item, ms: seq<Member>)
    requires |shs| == |ms| && Agrees(v, ms) && forall i :: 0 <= i < |shs| ==> Rep(h, shs[i], ms[i].key, ms[i].value)
    ensures KidsIn(h, shs, v) == ms
  {
    hide Rep, StringAt;
    forall i | 0 <= i < |shs| ensures StringAt(h, shs[i].key) == ms[i].key {
      RepKey(h, shs[i], ms[i].key, ms[i].value);
    }
  }

  lemma KidsInFrame(h: heap, k: heap, shs: seq<Shape>, v: Item)
    requires SameOn(h, k, OwnedAll(shs))
    ensures KidsIn(h, shs, v) == KidsIn(k, shs, v)
  {
    forall i | 0 <= i < |shs| ensures StringAt(h, shs[i].key) == StringAt(k, shs[i].key) {
      OwnedAllAt(shs, i);
      assert shs[i].key != NULL ==> shs[i].key in Owned(shs[i]);
    }
  }

  predicate SameButLinks(a: Block, b: Block) {
    a == b || (a.Node? && b.Node? && a.(next := NULL, prev := NULL) == b.(next := NULL, prev := NULL))
  }

  lemma {:induction false} OwnedAllAt(shs: seq<Shape>, i: nat)
    requires i < |shs|
    ensures Owned(shs[i]) <= OwnedAll(shs)
  {
    if i > 0 {
      OwnedAllAt(shs[1..], i - 1);
      assert shs[1..][i - 1] == shs[i];
    }
  }

  lemma SpellsFrame(h: heap, k: heap, p: ptr, t: Option<cstring>)
    requires Spells(h, p, t) && SameOn(h, k, Opt(p))
    ensures Spells(k, p, t)
  {
    assert p != NULL ==> p in Opt(p);
  }

  lemma LinkedFrame(h: heap, k: heap, shs: seq<Shape>)
    requires Linked(h, shs) && SameOn(h, k, OwnedAll(shs))
    ensures Linked(k, shs)
  {
    forall i | 0 <= i < |shs| ensures LinkedAt(k, shs, i) {
      assert LinkedAt(h, shs, i);
      OwnedAllAt(shs, i);
      assert shs[i].node in Owned(shs[i]);
    }
  }

  /** A representation survives changes outside its blocks and of the root's sibling links. */
  lemma {:induction false} RepFrame(h: heap, k: heap, sh: Shape, key: Option<cstring>, v: Item)
    requires Rep(h, sh, key, v) && Separate(sh)
    requires SameOn(h, k, Owned(sh) - {sh.node}) && sh.node in k && SameButLinks(h[sh.node], k[sh.node])
    ensures Rep(k, sh, key, v)
    decreases sh, 1
  {
    var ms := KidsIn(h, sh.kids, v);
    hide Spells, Linked, KidsIn;
    SpellsFrame(h, k, sh.text, TextOf(v));
    SpellsFrame(h, k, sh.key, key);
    LinkedFrame(h, k, sh.kids);
    KidsFrame(h, k, sh.kids, ms);
    KidsInFrame(h, k, sh.kids, v);
  }

  lemma {:induction false} KidsFrame(h: heap, k: heap, shs: seq<Shape>, ms: seq<Member>)
    requires |shs| == |ms| && SeparateAll(shs) && SameOn(h, k, OwnedAll(shs))
    requires forall i :: 0 <= i < |shs| ==> Rep(h, shs[i], ms[i].key, ms[i].value)
    ensures forall i :: 0 <= i < |shs| ==> Rep(k, shs[i], ms[i].key, ms[i].value)
    decreases shs, 0
  {
    forall i | 0 <= i < |shs| ensures Rep(k, shs[i], ms[i].key, ms[i].value) {
      OwnedAllAt(shs, i);
      SeparateAt(shs, i);
      assert shs[i] in shs;
      assert shs[i].node in Owned(shs[i]);
      RepFrame(h, k, shs[i], ms[i].key, ms[i].value);
    }
  }

  lemma {:induction false} SeparateAt(shs: seq<Shape>, i: nat)
    requires i < |shs| && SeparateAll(shs)
    ensures Separate(shs[i])
  {
    if i > 0 {
      SeparateAt(shs[1..], i - 1);
    }
  }

  /** A represented tree owns exactly its blocks. */
  lemma {:induction false} RepOwns(h: heap, sh: Shape, key: Option<cstring>, v: Item)
    requires Rep(h, sh, key, v)
    ensures Owns(h, sh)
    decreases sh, 1
  {
    LinkedChain(h, sh.kids, KidsIn(h, sh.kids, v), 0);
  }

  lemma {:induction false} LinkedChain(h: heap, shs: seq<Shape>, ms: seq<Member>, i: nat)
    requires Linked(h, shs) && |shs| == |ms| && i <= |shs|
    requires forall j :: 0 <= j < |shs| ==> Rep(h, shs[j], ms[j].key, ms[j].value)
    ensures Chain(h, First(shs[i..]), shs[i..])
    decreases shs, 0, |shs| - i
  {
    if i < |shs| {
      assert shs[i] in shs;
      RepOwns(h, shs[i], ms[i].key, ms[i].value);
      LinkedChain(h, shs, ms, i + 1);
      assert shs[i..][0] == shs[i] && shs[i..][1..] == shs[i + 1..];
      assert LinkedAt(h, shs, i);
      assert h[shs[i].node].next == First(shs[i + 1..]);
    }
  }

  /** A node that represents a keyed value, with what it owns. */
  datatype Tree = Tree(shape: Shape, key: Option<cstring>, value: Item)

  ghost predicate Stands(h: heap, t: Tree) {
    t.shape.node != NULL && Rep(h, t.shape, t.key, t.value) && Separate(t.shape)
  }

  /** The children of a node as they stand in the heap. */
  function Members(h: heap, t: Tree): (ms: seq<Member>) {
    KidsIn(h, t.shape.kids, t.value)
  }

  /** Child `i` of a container, as a tree of its own. */
  function Kid(h: heap, t: Tree, i: nat): (x: Tree)
    requires i < |t.shape.kids| && |t.shape.kids| == |Members(h, t)|
  {
    Tree(t.shape.kids[i], Members(h, t)[i].key, Members(h, t)[i].value)
  }
}
