/** Child lists while the parser builds them: every state from which they can still be completed or deleted. */
module HeapList {
  import opened Text
  import opened Numbers
  import opened Json
  import opened Heap
  import opened HeapTree

  /** The next links of a list, and the prev links of all but its head. */
  predicate ChainedAt(h: heap, shs: seq<Shape>, i: nat)
    requires i < |shs|
  {
    && IsNode(h, shs[i].node) && shs[i].node != NULL
    && h[shs[i].node].next == (if i + 1 < |shs| then shs[i + 1].node else NULL)
    && (i > 0 ==> h[shs[i].node].prev == shs[i - 1].node)
  }

  /**
   A list under construction on top of the heap `base`: its blocks are exactly what was allocated
   since, nothing older has changed, the first `|ms|` nodes represent `ms` and the others are owned.
   */
  ghost predicate Building(base: heap, h: heap, shs: seq<Shape>, ms: seq<Member>) {
    && SeparateAll(shs) && OwnedAll(shs) !! base.Keys && h.Keys == base.Keys + OwnedAll(shs)
    && SameOn(base, h, base.Keys)
    && (forall i :: 0 <= i < |shs| ==> ChainedAt(h, shs, i))
    && |ms| <= |shs|
    && (forall i :: 0 <= i < |ms| ==> Rep(h, shs[i], ms[i].key, ms[i].value))
    && (forall i :: |ms| <= i < |shs| ==> Owns(h, shs[i]))
  }

  /** `k` is `h` with the node `sh.node` filled in to represent `v`; everything else of `h` is as before. */
  ghost predicate Filled(h: heap, k: heap, sh: Shape, key: Option<cstring>, v: Item) {
    && Rep(k, sh, key, v) && Separate(sh)
    && {sh.node} + Opt(sh.key) <= h.Keys && Owned(sh) - {sh.node} - Opt(sh.key) !! h.Keys
    && k.Keys == h.Keys + Owned(sh)
    && SameOn(h, k, h.Keys - {sh.node})
    && h[sh.node].Node? && k[sh.node].next == h[sh.node].next && k[sh.node].prev == h[sh.node].prev
    && k[sh.node].key == h[sh.node].key
  }

  /** A node that carries a key and nothing else. */
  predicate Blank(h: heap, item: ptr, key: Option<cstring>) {
    && item != NULL && IsNode(h, item)
    && var n := h[item];
    && n.child == NULL && n.text == NULL && !n.isReference && !n.constKey && n.key != item && Spells(h, n.key, key)
  }

  lemma BlankNode(h: heap, item: ptr, key: Option<cstring>)
    requires Blank(h, item, key)
    ensures IsNode(h, item)
  {
  }

  lemma NewNodeBlank(h: heap, tail: ptr, p: ptr)
    requires p != NULL && p !in h && (tail != NULL ==> IsNode(h, tail))
    ensures Blank(Linkup(h, tail, p), p, None) && Linkup(h, tail, p)[p].key == NULL
  {
  }

  lemma FilledKey(h: heap, k: heap, sh: Shape, key: Option<cstring>, v: Item)
    requires Filled(h, k, sh, key, v)
    ensures IsNode(k, sh.node) && sh.key == k[sh.node].key
    ensures sh.key == NULL <==> key == None
  {
  }

  lemma FilledSameKey(h: heap, k: heap, sh: Shape, key: Option<cstring>, v: Item)
    requires Filled(h, k, sh, key, v) && Blank(h, sh.node, key)
    ensures sh.key == h[sh.node].key
  {
  }

  lemma ObjectKids(ms: seq<Member>)
    ensures KidsOf(Object(ms)) == ms
  {
  }

  lemma EmptyList(base: heap)
    ensures Building(base, base, [], [])
  {
  }

  /** A list under construction can be deleted, and that restores the base heap. */
  lemma Discard(base: heap, h: heap, shs: seq<Shape>, ms: seq<Member>)
    requires Building(base, h, shs, ms)
    ensures Chain(h, First(shs), shs) && SeparateAll(shs) && h - OwnedAll(shs) == base
  {
    forall i | 0 <= i < |shs| ensures Owns(h, shs[i]) {
      if i < |ms| {
        RepOwns(h, shs[i], ms[i].key, ms[i].value);
      }
    }
    assert shs[0..] == shs;
    ChainedChain(h, shs, 0);
  }

  lemma {:induction false} ChainedChain(h: heap, shs: seq<Shape>, i: nat)
    requires i <= |shs| && forall j :: 0 <= j < |shs| ==> ChainedAt(h, shs, j) && Owns(h, shs[j])
    ensures Chain(h, First(shs[i..]), shs[i..])
    decreases |shs| - i
  {
    if i < |shs| {
      ChainedChain(h, shs, i + 1);
      assert shs[i..][0] == shs[i] && shs[i..][1..] == shs[i + 1..];
      assert ChainedAt(h, shs, i);
      assert h[shs[i].node].next == First(shs[i + 1..]);
    }
  }

  lemma {:induction false} NodesDistinct(shs: seq<Shape>, i: nat, j: nat)
    requires SeparateAll(shs) && i < j < |shs|
    ensures Owned(shs[i]) !! Owned(shs[j])
  {
    if i == 0 {
      OwnedAllAt(shs[1..], j - 1);
    } else {
      NodesDistinct(shs[1..], i - 1, j - 1);
    }
  }

  function Last(shs: seq<Shape>): (p: ptr) {
    if shs == [] then NULL else shs[|shs| - 1].node
  }

  function Leaf(p: ptr, key: ptr): (sh: Shape) {
    Shape(p, NULL, key, [])
  }

  /** A new blank node linked behind the tail. */
  function Linkup(h: heap, tail: ptr, p: ptr): (k: heap) {
    if tail == NULL then h[p := BLANK]
    else if IsNode(h, tail) then h[tail := h[tail].(next := p)][p := BLANK.(prev := tail)]
    else h
  }

  lemma OwnedLeaf(p: ptr, key: ptr)
    ensures Owned(Leaf(p, key)) == {p} + Opt(key) && OwnedAll([Leaf(p, key)]) == {p} + Opt(key)
    ensures p != NULL && p != key ==> Separate(Leaf(p, key)) && SeparateAll([Leaf(p, key)])
  {
    assert [Leaf(p, key)][1..] == [];
  }

  lemma ShapesOwned(base: heap, h: heap, shs: seq<Shape>, ms: seq<Member>, i: nat)
    requires Building(base, h, shs, ms) && i < |shs|
    ensures shs[i].node in Owned(shs[i]) && Owned(shs[i]) <= OwnedAll(shs) && Owned(shs[i]) <= h.Keys
    ensures Separate(shs[i]) && shs[i].node !in base
    ensures i + 1 < |shs| ==> Last(shs) !in Owned(shs[i])
  {
    hide Rep, Owns, Owned, OwnedAll, Separate, SeparateAll;
    OwnedAllAt(shs, i);
    SeparateAt(shs, i);
    NodeOwned(shs[i]);
    if i + 1 < |shs| {
      NodeOwned(shs[|shs| - 1]);
      NodesDistinct(shs, i, |shs| - 1);
    }
  }

  lemma NodeOwned(sh: Shape)
    ensures sh.node in Owned(sh)
  {
  }

  lemma LeafOwns(h: heap, p: ptr, key: ptr)
    requires IsNode(h, p) && h[p].child == NULL && h[p].text == NULL && h[p].key == key && !h[p].isReference && !h[p].constKey
    requires key != NULL ==> IsChars(h, key)
    ensures Owns(h, Leaf(p, key))
  {
  }

  lemma AttachRep(base: heap, h: heap, shs: seq<Shape>, ms: seq<Member>, p: ptr, i: nat)
    requires Building(base, h, shs, ms) && |ms| == |shs| && p != NULL && p !in h && i < |ms|
    ensures Rep(Linkup(h, Last(shs), p), shs[i], ms[i].key, ms[i].value)
  {
    hide Rep, Owned, OwnedAll, Separate;
    ShapesOwned(base, h, shs, ms, i);
    assert ChainedAt(h, shs, |shs| - 1);
    RepFrame(h, Linkup(h, Last(shs), p), shs[i], ms[i].key, ms[i].value);
  }

  lemma AttachLinks(base: heap, h: heap, shs: seq<Shape>, ms: seq<Member>, p: ptr, i: nat)
    requires Building(base, h, shs, ms) && |ms| == |shs| && p != NULL && p !in h && i <= |shs|
    ensures ChainedAt(Linkup(h, Last(shs), p), shs + [Leaf(p, NULL)], i)
  {
    hide Rep, Owned, OwnedAll, Separate;
    var all := shs + [Leaf(p, NULL)];
    if shs != [] {
      assert ChainedAt(h, shs, |shs| - 1);
    }
    if i < |shs| {
      ShapesOwned(base, h, shs, ms, i);
      assert ChainedAt(h, shs, i);
      assert i + 1 < |shs| ==> all[i + 1] == shs[i + 1];
    }
  }

  /** Appending a blank node keeps the list under construction. */
  lemma Attach(base: heap, h: heap, shs: seq<Shape>, ms: seq<Member>, p: ptr)
    requires Building(base, h, shs, ms) && |ms| == |shs| && p != NULL && p !in h
    ensures Building(base, Linkup(h, Last(shs), p), shs + [Leaf(p, NULL)], ms)
  {
    hide Rep, Owns, Owned, OwnedAll, Separate, SeparateAll, ChainedAt;
    var k := Linkup(h, Last(shs), p);
    var all := shs + [Leaf(p, NULL)];
    forall i | 0 <= i < |ms| ensures Rep(k, all[i], ms[i].key, ms[i].value) {
      AttachRep(base, h, shs, ms, p, i);
    }
    forall i | 0 <= i < |all| ensures ChainedAt(k, all, i) {
      AttachLinks(base, h, shs, ms, p, i);
    }
    if shs != [] {
      ShapesOwned(base, h, shs, ms, |shs| - 1);
      assert ChainedAt(h, shs, |shs| - 1);
      TailIsNode(h, shs);
    }
    OwnedAllSplit(shs, [Leaf(p, NULL)]);
    OwnedLeaf(p, NULL);
    LeafOwns(k, p, NULL);
  }

  lemma TailIsNode(h: heap, shs: seq<Shape>)
    requires shs != [] && ChainedAt(h, shs, |shs| - 1)
    ensures Last(shs) != NULL && IsNode(h, Last(shs))
  {
  }

  lemma OwnedOne(sh: Shape)
    ensures OwnedAll([sh]) == Owned(sh) && (Separate(sh) ==> SeparateAll([sh]))
  {
    assert [sh][1..] == [];
  }

  /** The pending last node may be filled in, with blocks that are new to the heap. */
  lemma Replace(base: heap, h: heap, k: heap, shs: seq<Shape>, ms: seq<Member>, y: Shape)
    requires Building(base, h, shs, ms) && |shs| == |ms| + 1
    requires y.node == shs[|ms|].node && Separate(y) && Owns(k, y)
    requires Owned(shs[|ms|]) <= Owned(y) && Owned(y) - Owned(shs[|ms|]) !! h.Keys
    requires k.Keys == h.Keys + Owned(y) && SameOn(h, k, h.Keys - {y.node})
    requires IsNode(k, y.node) && k[y.node].next == h[y.node].next && k[y.node].prev == h[y.node].prev
    ensures Building(base, k, shs[..|ms|] + [y], ms)
  {
    hide Rep, Owns, Owned, OwnedAll, Separate, SeparateAll, ChainedAt, SameOn;
    var n := |ms|;
    var x := shs[n];
    var all := shs[..n] + [y];
    forall i | 0 <= i < n ensures Rep(k, all[i], ms[i].key, ms[i].value) && ChainedAt(k, all, i) {
      ReplaceOther(base, h, k, shs, ms, y, i);
    }
    ReplaceLast(h, k, shs, y);
    assert shs == shs[..n] + [x];
    OwnedAllSplit(shs[..n], [x]);
    OwnedAllSplit(shs[..n], [y]);
    OwnedOne(x);
    OwnedOne(y);
    ReplaceFrame(base, h, k, shs, ms, y);
  }

  lemma ReplaceLast(h: heap, k: heap, shs: seq<Shape>, y: Shape)
    requires shs != [] && ChainedAt(h, shs, |shs| - 1) && y.node == Last(shs)
    requires IsNode(k, y.node) && k[y.node].next == h[y.node].next && k[y.node].prev == h[y.node].prev
    ensures ChainedAt(k, shs[..|shs| - 1] + [y], |shs| - 1)
  {
  }

  lemma ReplaceFrame(base: heap, h: heap, k: heap, shs: seq<Shape>, ms: seq<Member>, y: Shape)
    requires Building(base, h, shs, ms) && |shs| == |ms| + 1 && y.node == Last(shs)
    requires SameOn(h, k, h.Keys - {y.node})
    ensures SameOn(base, k, base.Keys)
  {
    hide Rep, Owns, Owned, OwnedAll, Separate, SeparateAll, ChainedAt;
    ShapesOwned(base, h, shs, ms, |ms|);
  }

  lemma ReplaceOther(base: heap, h: heap, k: heap, shs: seq<Shape>, ms: seq<Member>, y: Shape, i: nat)
    requires Building(base, h, shs, ms) && |shs| == |ms| + 1 && i < |ms|
    requires y.node == shs[|ms|].node && Owned(shs[|ms|]) <= Owned(y)
    requires k.Keys == h.Keys + Owned(y) && SameOn(h, k, h.Keys - {y.node}) && IsNode(k, y.node)
    ensures var all := shs[..|ms|] + [y];
            Rep(k, all[i], ms[i].key, ms[i].value) && ChainedAt(k, all, i)
  {
    hide Rep, Owns, Owned, OwnedAll, Separate, SeparateAll;
    var all := shs[..|ms|] + [y];
    ShapesOwned(base, h, shs, ms, i);
    assert ChainedAt(h, shs, i);
    RepFrame(h, k, shs[i], ms[i].key, ms[i].value);
    assert all[i + 1].node == shs[i + 1].node;
  }

  /** A pending node that represents a member counts as done. */
  lemma Promote(base: heap, h: heap, shs: seq<Shape>, ms: seq<Member>, m: Member)
    requires Building(base, h, shs, ms) && |shs| == |ms| + 1 && Rep(h, shs[|ms|], m.key, m.value)
    ensures Building(base, h, shs, ms + [m])
  {
    hide Rep, Owns, ChainedAt;
  }

  /** Filling the pending node in completes the list by one member. */
  lemma Fill(base: heap, h: heap, k: heap, shs: seq<Shape>, ms: seq<Member>, y: Shape, m: Member)
    requires Building(base, h, shs, ms) && |shs| == |ms| + 1 && shs[|ms|] == Leaf(y.node, y.key)
    requires Filled(h, k, y, m.key, m.value)
    ensures Building(base, k, shs[..|ms|] + [y], ms + [m])
  {
    OwnedLeaf(y.node, y.key);
    OwnedParts(y);
    RepOwns(k, y, m.key, m.value);
    RepIsNode(k, y, m.key, m.value);
    hide Rep, Owns, Owned, OwnedAll, Separate, SeparateAll, ChainedAt;
    Replace(base, h, k, shs, ms, y);
    Promote(base, k, shs[..|ms|] + [y], ms, m);
  }

  lemma OwnedParts(sh: Shape)
    ensures Owned(sh) == {sh.node} + Opt(sh.text) + Opt(sh.key) + OwnedAll(sh.kids)
  {
  }

  lemma RepIsNode(h: heap, sh: Shape, key: Option<cstring>, v: Item)
    requires Rep(h, sh, key, v)
    ensures IsNode(h, sh.node)
  {
  }

  /** Giving the pending node its key. */
  lemma Name(base: heap, h: heap, shs: seq<Shape>, ms: seq<Member>, item: ptr, p: ptr, bytes: seq<byte>, node: Block)
    requires Building(base, h, shs, ms) && |shs| == |ms| + 1 && shs[|ms|] == Leaf(item, NULL)
    requires p != NULL && p !in h && item in h
    requires node.Node? && h[item].Node? && node == h[item].(kind := node.kind, key := p) && h[item].child == NULL && h[item].text == NULL
    requires !node.isReference && !node.constKey
    ensures Building(base, h[p := Chars(bytes)][item := node], shs[..|ms|] + [Leaf(item, p)], ms)
  {
    var k := h[p := Chars(bytes)][item := node];
    OwnedLeaf(item, NULL);
    OwnedLeaf(item, p);
    ShapesOwned(base, h, shs, ms, |ms|);
    assert ChainedAt(h, shs, |ms|);
    LeafOwns(k, item, p);
    hide Rep, Owns, Owned, OwnedAll, Separate, SeparateAll, ChainedAt;
    Replace(base, h, k, shs, ms, Leaf(item, p));
  }

  /** The head's prev link that closes a list. */
  function CloseList(h: heap, head: ptr, tail: ptr): (k: heap) {
    if head != NULL && IsNode(h, head) then h[head := h[head].(prev := tail)] else h
  }

  lemma ClosedKids(base: heap, h: heap, shs: seq<Shape>, ms: seq<Member>, k: heap)
    requires Building(base, h, shs, ms) && |shs| == |ms|
    requires forall p :: p in OwnedAll(shs) ==> p in k && k[p] == CloseList(h, First(shs), Last(shs))[p]
    ensures Linked(k, shs) && forall i :: 0 <= i < |shs| ==> Rep(k, shs[i], ms[i].key, ms[i].value)
  {
    hide Rep, Owns, Owned, OwnedAll, Separate, SeparateAll;
    forall i | 0 <= i < |shs| ensures LinkedAt(k, shs, i) && Rep(k, shs[i], ms[i].key, ms[i].value) {
      ShapesOwned(base, h, shs, ms, i);
      ShapesOwned(base, h, shs, ms, 0);
      assert ChainedAt(h, shs, i) && ChainedAt(h, shs, 0);
      if i > 0 {
        NodesDistinct(shs, 0, i);
      }
      RepFrame(h, k, shs[i], ms[i].key, ms[i].value);
    }
  }

  /** Hanging a completed list below the container's node. */
  lemma Finish(base: heap, h: heap, shs: seq<Shape>, ms: seq<Member>, item: ptr, key: Option<cstring>, v: Item)
    requires Building(base, h, shs, ms) && |shs| == |ms| && Blank(base, item, key)
    requires (v.Array? || v.Object?) && Agrees(v, ms)
    ensures item in h && h[item].Node?
    ensures var c := CloseList(h, First(shs), Last(shs));
            Filled(base, c[item := h[item].(kind := KindOf(v), child := First(shs))],
                   Shape(item, NULL, base[item].key, shs), key, v)
  {
    hide Rep, Owns, Owned, OwnedAll, Separate, SeparateAll, ChainedAt, Linked, Agrees;
    var c := CloseList(h, First(shs), Last(shs));
    var k := c[item := h[item].(kind := KindOf(v), child := First(shs))];
    var sh := Shape(item, NULL, base[item].key, shs);
    if shs != [] {
      ShapesOwned(base, h, shs, ms, 0);
      assert ChainedAt(h, shs, 0);
      HeadIsNode(h, shs);
    }
    ClosedKids(base, h, shs, ms, k);
    assert Spells(k, sh.key, key);
    OwnedParts(sh);
    SeparateParts(sh);
    FinishRep(k, sh, key, v, ms);
  }

  lemma HeadListed(base: heap, h: heap, shs: seq<Shape>, ms: seq<Member>)
    requires Building(base, h, shs, ms) && shs != []
    ensures First(shs) != NULL && IsNode(h, First(shs)) && First(shs) !in base
    ensures Last(shs) != NULL && IsNode(h, Last(shs))
  {
    ShapesOwned(base, h, shs, ms, 0);
    assert ChainedAt(h, shs, 0) && ChainedAt(h, shs, |shs| - 1);
  }

  lemma NoKids()
    ensures KidsOf(Array([])) == [] && KidsOf(Object([])) == []
  {
  }

  lemma MoreKids(vs: seq<Item>, v: Item)
    ensures KidsOf(Array(vs + [v])) == KidsOf(Array(vs)) + [Member(None, v)]
  {
  }

  lemma HeadIsNode(h: heap, shs: seq<Shape>)
    requires shs != [] && ChainedAt(h, shs, 0)
    ensures IsNode(h, First(shs))
  {
  }

  lemma SeparateParts(sh: Shape)
    requires sh.node != sh.text && sh.node != sh.key && (sh.text == sh.key ==> sh.text == NULL)
    requires {sh.node} + Opt(sh.text) + Opt(sh.key) !! OwnedAll(sh.kids) && SeparateAll(sh.kids)
    ensures Separate(sh)
  {
  }

  lemma FinishRep(k: heap, sh: Shape, key: Option<cstring>, v: Item, ms: seq<Member>)
    requires IsNode(k, sh.node) && sh.text == NULL && (v.Array? || v.Object?)
    requires k[sh.node].kind == KindOf(v) && k[sh.node].text == NULL && k[sh.node].key == sh.key
    requires k[sh.node].child == First(sh.kids) && !k[sh.node].isReference && !k[sh.node].constKey
    requires Spells(k, sh.key, key) && Linked(k, sh.kids) && |sh.kids| == |ms| && Agrees(v, ms)
    requires forall i :: 0 <= i < |sh.kids| ==> Rep(k, sh.kids[i], ms[i].key, ms[i].value)
    ensures Rep(k, sh, key, v)
  {
    KidsKnown(k, sh.kids, v, ms);
    hide KidsIn, Spells, Agrees;
  }

  /** A literal or number written into a blank node. */
  lemma FillLeaf(h: heap, item: ptr, key: Option<cstring>, v: Item, node: Block)
    requires Blank(h, item, key) && !v.Array? && !v.Object? && TextOf(v) == None
    requires node.Node? && node == h[item].(kind := KindOf(v), number := node.number, integer := node.integer)
    requires v.Number? ==> node.number == v.value
    ensures Filled(h, h[item := node], Leaf(item, h[item].key), key, v)
  {
    OwnedLeaf(item, h[item].key);
    assert KidsIn(h[item := node], [], v) == [];
  }

  /** A decoded string hung below a blank node. */
  lemma FillString(h: heap, item: ptr, key: Option<cstring>, p: ptr, bytes: seq<byte>)
    requires Blank(h, item, key) && p != NULL && p !in h
    ensures Filled(h, h[p := Chars(bytes)][item := h[item].(kind := StringKind, text := p)],
                   Shape(item, p, h[item].key, []), key, String(Some(CString(bytes))))
  {
    var sh := Shape(item, p, h[item].key, []);
    var k := h[p := Chars(bytes)][item := h[item].(kind := StringKind, text := p)];
    var v := String(Some(CString(bytes)));
    assert Spells(k, sh.key, key) && Spells(k, p, TextOf(v));
    LeafRep(k, sh, key, v);
    OwnedParts(sh);
    SeparateParts(sh);
    hide Rep, Owned, Separate, Spells;
  }

  lemma LeafRep(k: heap, sh: Shape, key: Option<cstring>, v: Item)
    requires IsNode(k, sh.node) && v.String? && sh.kids == []
    requires k[sh.node].kind == StringKind && k[sh.node].text == sh.text && k[sh.node].key == sh.key
    requires k[sh.node].child == NULL && !k[sh.node].isReference && !k[sh.node].constKey
    requires Spells(k, sh.key, key) && Spells(k, sh.text, TextOf(v))
    ensures Rep(k, sh, key, v)
  {
  }
}
