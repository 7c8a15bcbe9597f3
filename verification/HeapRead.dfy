/** Trees as a reader sees them: whoever owns the blocks, and however often a node is shared. */
module HeapRead {
  import opened Text
  import opened Json
  import opened Heap
  import opened HeapTree

  /** The next link of one child. */
  predicate FollowedAt(h: heap, shs: seq<Shape>, i: nat)
    requires i < |shs|
  {
    && IsNode(h, shs[i].node) && shs[i].node != NULL
    && h[shs[i].node].next == (if i + 1 < |shs| then shs[i + 1].node else NULL)
  }

  /**
   Following child and next from the node of `sh`, one sees `v` under `key`. Nothing is said of prev
   links, of reference and constant-key flags, or of who owns the blocks; references and shared
   subtrees are read like any other node.
   */
  predicate Reads(h: heap, sh: Shape, key: Option<cstring>, v: Item)
    decreases sh
  {
    && sh.node != NULL && IsNode(h, sh.node)
    && var n := h[sh.node];
    && n.kind == KindOf(v) && n.text == sh.text && n.key == sh.key && n.child == First(sh.kids)
    && (v.Number? ==> n.number == v.value)
    && Spells(h, sh.text, TextOf(v)) && Spells(h, sh.key, key)
    && (forall i :: 0 <= i < |sh.kids| ==> FollowedAt(h, sh.kids, i))
    && var ms := KidsIn(h, sh.kids, v);
    && |sh.kids| == |ms|
    && forall i :: 0 <= i < |sh.kids| ==> Reads(h, sh.kids[i], ms[i].key, ms[i].value)
  }

  ghost predicate Shows(h: heap, t: Tree) {
    Reads(h, t.shape, t.key, t.value)
  }

  /** Every tree that stands can be read. */
  lemma {:induction false} StandsShows(h: heap, t: Tree)
    requires t.shape.node != NULL && Rep(h, t.shape, t.key, t.value)
    ensures Shows(h, t)
    decreases t.shape
  {
    hide Spells, KidsIn;
    var kids, ms := t.shape.kids, KidsIn(h, t.shape.kids, t.value);
    forall i | 0 <= i < |kids| ensures FollowedAt(h, kids, i) && Reads(h, kids[i], ms[i].key, ms[i].value) {
      assert LinkedAt(h, kids, i);
      assert kids[i] in kids;
      StandsShows(h, Tree(kids[i], ms[i].key, ms[i].value));
    }
  }

  /** What is read survives every change that leaves the old blocks alone. */
  lemma {:induction false} ShowsSame(h: heap, k: heap, t: Tree)
    requires Shows(h, t) && SameOn(h, k, h.Keys)
    ensures Shows(k, t) && Members(k, t) == Members(h, t)
    decreases t.shape
  {
    var kids, ms := t.shape.kids, Members(h, t);
    forall i | 0 <= i < |kids|
      ensures FollowedAt(k, kids, i) && Reads(k, kids[i], ms[i].key, ms[i].value) && StringAt(k, kids[i].key) == StringAt(h, kids[i].key)
    {
      assert FollowedAt(h, kids, i);
      assert kids[i] in kids;
      ShowsSame(h, k, Tree(kids[i], ms[i].key, ms[i].value));
      KeyRead(h, Tree(kids[i], ms[i].key, ms[i].value));
      KeyRead(k, Tree(kids[i], ms[i].key, ms[i].value));
    }
  }

  lemma KeyRead(h: heap, t: Tree)
    requires Shows(h, t)
    ensures StringAt(h, t.shape.key) == t.key && StringAt(h, t.shape.text) == TextOf(t.value)
  {
    hide KidsIn;
  }

  // ---- walking ----

  /** The node of child `i`, or NULL past the last one. */
  function KidNode(t: Tree, i: nat): (p: ptr) {
    if i < |t.shape.kids| then t.shape.kids[i].node else NULL
  }

  /** What a walk along a child list sees at position `i`. */
  lemma Walk(h: heap, t: Tree, i: nat)
    requires Shows(h, t) && i < |t.shape.kids|
    ensures |t.shape.kids| == |Members(h, t)| && Shows(h, Kid(h, t, i))
    ensures KidNode(t, i) != NULL && IsNode(h, KidNode(t, i)) && h[KidNode(t, i)].next == KidNode(t, i + 1)
    ensures StringAt(h, h[KidNode(t, i)].key) == Members(h, t)[i].key
  {
    assert FollowedAt(h, t.shape.kids, i);
    KeyRead(h, Kid(h, t, i));
    hide KidsIn, Spells;
  }

  lemma FirstKid(h: heap, t: Tree)
    requires Shows(h, t)
    ensures IsNode(h, t.shape.node) && h[t.shape.node].child == KidNode(t, 0) && |t.shape.kids| == |Members(h, t)|
    ensures h[t.shape.node].kind == KindOf(t.value)
  {
    hide KidsIn;
  }

  /** What a reader finds in the node itself. */
  lemma Fields(h: heap, t: Tree)
    requires Shows(h, t)
    ensures t.shape.node != NULL && IsNode(h, t.shape.node)
    ensures var n := h[t.shape.node];
            && n.kind == KindOf(t.value) && (t.value.Number? ==> n.number == t.value.value)
            && (n.text != NULL ==> IsChars(h, n.text)) && (n.key != NULL ==> IsChars(h, n.key))
            && StringAt(h, n.text) == TextOf(t.value) && StringAt(h, n.key) == t.key
  {
    KeyRead(h, t);
    hide KidsIn;
  }

  lemma ArrayKids(h: heap, t: Tree)
    requires t.value.Array?
    ensures |Members(h, t)| == |t.value.items|
    ensures forall i :: 0 <= i < |t.value.items| ==> Members(h, t)[i].value == t.value.items[i]
  {
  }

  lemma ObjectKids(h: heap, t: Tree)
    requires t.value.Object?
    ensures Members(h, t) == t.value.members
  {
  }

  // ---- one node, one tree ----

  lemma {:induction false} SameWalk(h: heap, s: Tree, t: Tree, i: nat)
    requires Shows(h, s) && Shows(h, t) && s.shape.node == t.shape.node && i <= |s.shape.kids|
    ensures i <= |t.shape.kids| && KidNode(s, i) == KidNode(t, i)
  {
    hide KidsIn, Spells;
    FirstKid(h, s);
    FirstKid(h, t);
    if i > 0 {
      SameWalk(h, s, t, i - 1);
      Walk(h, s, i - 1);
      if i - 1 < |t.shape.kids| {
        Walk(h, t, i - 1);
      }
    }
  }

  lemma SameLength(h: heap, s: Tree, t: Tree)
    requires Shows(h, s) && Shows(h, t) && s.shape.node == t.shape.node
    ensures |s.shape.kids| == |t.shape.kids|
  {
    hide KidsIn, Spells, Reads;
    SameWalk(h, s, t, |s.shape.kids|);
    SameWalk(h, t, s, |t.shape.kids|);
  }

  /** What is read at a node is determined by the heap. */
  lemma {:induction false} ReadsUnique(h: heap, s: Tree, t: Tree)
    requires Shows(h, s) && Shows(h, t) && s.shape.node == t.shape.node
    ensures s == t
    decreases s.shape
  {
    SameLength(h, s, t);
    FirstKid(h, s);
    FirstKid(h, t);
    var ms, ns := Members(h, s), Members(h, t);
    forall i | 0 <= i < |s.shape.kids| ensures s.shape.kids[i] == t.shape.kids[i] && ms[i] == ns[i] {
      SameWalk(h, s, t, i);
      Walk(h, s, i);
      Walk(h, t, i);
      ReadsUnique(h, Kid(h, s, i), Kid(h, t, i));
    }
    assert s.shape.kids == t.shape.kids && ms == ns;
    KeyRead(h, s);
    KeyRead(h, t);
    SameValue(h, s, t);
  }

  lemma SameValue(h: heap, s: Tree, t: Tree)
    requires Shows(h, s) && Shows(h, t) && s.shape == t.shape && Members(h, s) == Members(h, t) && s.key == t.key
    ensures s == t
  {
    Fields(h, s);
    Fields(h, t);
    if s.value.Array? {
      ArrayKids(h, s);
      ArrayKids(h, t);
      assert s.value.items == t.value.items;
    }
    hide Reads;
  }
}
