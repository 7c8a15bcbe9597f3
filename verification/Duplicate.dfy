/** cJSON_Duplicate: a deep copy on fresh blocks, undone when an allocation fails. */
module Duplicate {
  import opened Text
  import opened Numbers
  import opened Json
  import opened Heap
  import opened HeapTree
  import opened HeapList
  import opened HeapRead
  import opened ListEdit
  import opened TreeEdit
  import opened Compare
  import opened CompareNodes

  /** `k` is `h` with nothing changed and one new tree, which stands by itself. */
  ghost predicate Adds(h: heap, k: heap, x: Tree) {
    && Stands(k, x) && Detached(k, x.shape.node)
    && Owned(x.shape) !! h.Keys && k.Keys == h.Keys + Owned(x.shape) && SameOn(h, k, h.Keys)
  }

  /** No node of the tree has a constant key, which a copy would share instead of owning its own. */
  predicate OwnKeys(h: heap, sh: Shape)
    decreases sh
  {
    IsNode(h, sh.node) && !h[sh.node].constKey && forall i :: 0 <= i < |sh.kids| ==> OwnKeys(h, sh.kids[i])
  }

  lemma {:induction false} OwnKeysSame(h: heap, k: heap, sh: Shape)
    requires OwnKeys(h, sh) && SameOn(h, k, h.Keys)
    ensures OwnKeys(k, sh)
    decreases sh
  {
    forall i | 0 <= i < |sh.kids| ensures OwnKeys(k, sh.kids[i]) {
      OwnKeysSame(h, k, sh.kids[i]);
    }
  }

  lemma {:induction false} StandsOwnKeys(h: heap, t: Tree)
    requires Rep(h, t.shape, t.key, t.value)
    ensures OwnKeys(h, t.shape)
    decreases t.shape
  {
    var kids, ms := t.shape.kids, Members(h, t);
    hide KidsIn, Spells, Linked;
    forall i | 0 <= i < |kids| ensures OwnKeys(h, kids[i]) {
      assert kids[i] in kids;
      StandsOwnKeys(h, Tree(kids[i], ms[i].key, ms[i].value));
    }
  }

  /** A tree that can be copied: whoever owns its blocks, with references and shared nodes. */
  ghost predicate Copyable(h: heap, t: Tree) {
    Shows(h, t) && OwnKeys(h, t.shape)
  }

  /** Every tree that stands can be copied. */
  lemma StandsCopyable(h: heap, t: Tree)
    requires Stands(h, t)
    ensures Copyable(h, t)
  {
    hide Rep, Separate;
    StandsShows(h, t);
    StandsOwnKeys(h, t);
  }

  lemma CopyableSame(h: heap, k: heap, t: Tree)
    requires Copyable(h, t) && SameOn(h, k, h.Keys)
    ensures Copyable(k, t) && Members(k, t) == Members(h, t)
  {
    hide Reads, OwnKeys, Members;
    ShowsSame(h, k, t);
    OwnKeysSame(h, k, t.shape);
  }

  /** The value without its children. */
  function Childless(v: Item): (r: Item) {
    match v
    case Array(_) => Array([])
    case Object(_) => Object([])
    case _ => v
  }

  /** A new node with its strings, on top of `h`, and no children yet. */
  ghost predicate Started(h: heap, k: heap, p: ptr, text: ptr, key: ptr, name: Option<cstring>, v: Item) {
    && p != NULL && NULL !in k && IsNode(k, p)
    && k[p] == Node(KindOf(v), NULL, NULL, NULL, text, key, k[p].number, k[p].integer, false, false)
    && (v.Number? ==> k[p].number == v.value)
    && Spells(k, text, TextOf(v)) && Spells(k, key, name)
    && p != text && p != key && (text == key ==> text == NULL)
    && {p} + Opt(text) + Opt(key) !! h.Keys && k.Keys == h.Keys + ({p} + Opt(text) + Opt(key))
    && SameOn(h, k, h.Keys)
  }

  /** The children copied so far, hung below the new node. */
  ghost predicate Growing(h: heap, k: heap, p: ptr, base: heap, shs: seq<Shape>, ms: seq<Member>) {
    && IsNode(h, p) && Building(base, k, shs, ms) && |shs| == |ms|
    && base == h[p := h[p].(child := First(shs))]
  }

  lemma RootRep(k: heap, sh: Shape, key: Option<cstring>, v: Item, ms: seq<Member>)
    requires IsNode(k, sh.node)
    requires k[sh.node].kind == KindOf(v) && k[sh.node].text == sh.text && k[sh.node].key == sh.key
    requires k[sh.node].child == First(sh.kids) && !k[sh.node].isReference && !k[sh.node].constKey
    requires v.Number? ==> k[sh.node].number == v.value
    requires Spells(k, sh.text, TextOf(v)) && Spells(k, sh.key, key) && Linked(k, sh.kids)
    requires |sh.kids| == |ms| && Agrees(v, ms) && forall i :: 0 <= i < |sh.kids| ==> Rep(k, sh.kids[i], ms[i].key, ms[i].value)
    ensures Rep(k, sh, key, v)
  {
    KidsKnown(k, sh.kids, v, ms);
    hide KidsIn, Spells, Agrees;
  }

  // ---- appending a copied child ----

  /** The heap after the copy `p` is linked behind the last copied child, or hung below the new node. */
  function Hooked(k: heap, root: ptr, tail: ptr, p: ptr): (r: heap) {
    if tail == NULL then WithChild(k, root, p) else WithPrev(WithNext(k, tail, p), p, tail)
  }

  lemma HookedAt(base: heap, h: heap, shs: seq<Shape>, ms: seq<Member>, k: heap, x: Tree, root: ptr, i: nat)
    requires Building(base, h, shs, ms) && |shs| == |ms| && Adds(h, k, x) && IsNode(base, root) && i <= |shs|
    ensures ChainedAt(Hooked(k, root, Last(shs), x.shape.node), shs + [x.shape], i)
  {
    hide Rep, Owned, OwnedAll, Separate;
    var all := shs + [x.shape];
    NodeOwned(x.shape);
    if shs != [] {
      ShapesOwned(base, h, shs, ms, |shs| - 1);
      assert ChainedAt(h, shs, |shs| - 1);
    }
    if i < |shs| {
      ShapesOwned(base, h, shs, ms, i);
      assert ChainedAt(h, shs, i);
      assert i + 1 < |shs| ==> all[i + 1] == shs[i + 1];
    }
  }

  lemma HookedRep(base: heap, h: heap, shs: seq<Shape>, ms: seq<Member>, k: heap, x: Tree, root: ptr, i: nat)
    requires Building(base, h, shs, ms) && |shs| == |ms| && Adds(h, k, x) && IsNode(base, root) && i < |shs|
    ensures Rep(Hooked(k, root, Last(shs), x.shape.node), shs[i], ms[i].key, ms[i].value)
  {
    hide Rep, Owned, OwnedAll, Separate;
    NodeOwned(x.shape);
    ShapesOwned(base, h, shs, ms, i);
    ShapesOwned(base, h, shs, ms, |shs| - 1);
    assert ChainedAt(h, shs, |shs| - 1);
    RepFrame(h, Hooked(k, root, Last(shs), x.shape.node), shs[i], ms[i].key, ms[i].value);
  }

  lemma HookedNew(base: heap, h: heap, shs: seq<Shape>, ms: seq<Member>, k: heap, x: Tree, root: ptr)
    requires Building(base, h, shs, ms) && |shs| == |ms| && Adds(h, k, x) && IsNode(base, root)
    ensures Rep(Hooked(k, root, Last(shs), x.shape.node), x.shape, x.key, x.value)
  {
    hide Rep, Owned, OwnedAll, Separate;
    NodeOwned(x.shape);
    var r := Hooked(k, root, Last(shs), x.shape.node);
    RepIsNode(k, x.shape, x.key, x.value);
    AddsLive(h, k, x);
    if shs != [] {
      ShapesOwned(base, h, shs, ms, |shs| - 1);
      assert ChainedAt(h, shs, |shs| - 1);
    }
    RepFrame(k, r, x.shape, x.key, x.value);
  }

  lemma AddsLive(h: heap, k: heap, x: Tree)
    requires Adds(h, k, x)
    ensures Owned(x.shape) <= k.Keys
  {
  }

  /** Hooking the copy in touches nothing older than the new node. */
  lemma HookedFrame(base: heap, h: heap, shs: seq<Shape>, ms: seq<Member>, k: heap, x: Tree, root: ptr, start: heap)
    requires Growing(start, h, root, base, shs, ms) && Adds(h, k, x)
    ensures var next := start[root := start[root].(child := First(shs + [x.shape]))];
            var r := Hooked(k, root, Last(shs), x.shape.node);
            && next.Keys == base.Keys && r.Keys == h.Keys + Owned(x.shape) && SameOn(next, r, next.Keys)
  {
    hide Rep, Owns, Owned, OwnedAll, Separate, SeparateAll, ChainedAt;
    NodeOwned(x.shape);
    if shs != [] {
      ShapesOwned(base, h, shs, ms, |shs| - 1);
      HeadListed(base, h, shs, ms);
      assert First(shs + [x.shape]) == First(shs);
    }
  }

  lemma HookedAll(base: heap, h: heap, shs: seq<Shape>, ms: seq<Member>, k: heap, x: Tree, root: ptr)
    requires Building(base, h, shs, ms) && |shs| == |ms| && Adds(h, k, x) && IsNode(base, root)
    ensures var r, all, more := Hooked(k, root, Last(shs), x.shape.node), shs + [x.shape], ms + [KidMember(x)];
            && (forall i :: 0 <= i < |all| ==> ChainedAt(r, all, i))
            && (forall i :: 0 <= i < |all| ==> Rep(r, all[i], more[i].key, more[i].value))
  {
    hide Rep, ChainedAt, Building, Adds, Hooked;
    var r, all, more := Hooked(k, root, Last(shs), x.shape.node), shs + [x.shape], ms + [KidMember(x)];
    forall i | 0 <= i < |all| ensures ChainedAt(r, all, i) && Rep(r, all[i], more[i].key, more[i].value) {
      HookedAt(base, h, shs, ms, k, x, root, i);
      if i < |shs| {
        HookedRep(base, h, shs, ms, k, x, root, i);
      } else {
        HookedNew(base, h, shs, ms, k, x, root);
      }
    }
  }

  lemma Grow(base: heap, h: heap, shs: seq<Shape>, ms: seq<Member>, k: heap, x: Tree, root: ptr, start: heap)
    requires Growing(start, h, root, base, shs, ms) && Adds(h, k, x)
    ensures var next := start[root := start[root].(child := First(shs + [x.shape]))];
            Growing(start, Hooked(k, root, Last(shs), x.shape.node), root, next, shs + [x.shape], ms + [KidMember(x)])
  {
    hide Rep, Owns, Owned, OwnedAll, Separate, SeparateAll, ChainedAt, Hooked, SameOn, Stands;
    HookedFrame(base, h, shs, ms, k, x, root, start);
    HookedAll(base, h, shs, ms, k, x, root);
    OwnedAllSplit(shs, [x.shape]);
    StandsSeparate(k, x);
    OwnedOne(x.shape);
  }

  lemma StandsSeparate(h: heap, x: Tree)
    requires Stands(h, x)
    ensures Separate(x.shape)
  {
  }

  // ---- giving up, and finishing ----

  /** The half-built copy owns exactly what was added, so deleting it restores the heap. */
  lemma GiveUp(h: heap, start: heap, k: heap, p: ptr, text: ptr, key: ptr, name: Option<cstring>, v: Item, base: heap, shs: seq<Shape>, ms: seq<Member>)
    requires Started(h, start, p, text, key, name, v) && Growing(start, k, p, base, shs, ms)
    ensures var sh := Shape(p, text, key, shs);
            Chain(k, p, [sh]) && SeparateAll([sh]) && k - OwnedAll([sh]) == h
  {
    hide Rep, OwnedAll, SeparateAll, ChainedAt;
    var sh := Shape(p, text, key, shs);
    Discard(base, k, shs, ms);
    OwnedParts(sh);
    OwnedOne(sh);
    SeparateParts(sh);
    assert [sh][1..] == [];
    assert k[p] == base[p];
  }

  /** Closing the list completes the copy. */
  lemma Complete(h: heap, start: heap, k: heap, p: ptr, text: ptr, key: ptr, x: Tree, base: heap, shs: seq<Shape>, ms: seq<Member>)
    requires Started(h, start, p, text, key, x.key, x.value) && Growing(start, k, p, base, shs, ms) && Agrees(x.value, ms)
    requires x.shape == Shape(p, text, key, shs)
    ensures Adds(h, CloseList(k, First(shs), Last(shs)), x)
  {
    CompleteFrame(h, start, k, p, text, key, x, base, shs, ms);
    CompleteRep(h, start, k, p, text, key, x, base, shs, ms);
  }

  lemma CompleteFrame(h: heap, start: heap, k: heap, p: ptr, text: ptr, key: ptr, x: Tree, base: heap, shs: seq<Shape>, ms: seq<Member>)
    requires Started(h, start, p, text, key, x.key, x.value) && Growing(start, k, p, base, shs, ms) && Agrees(x.value, ms)
    requires x.shape == Shape(p, text, key, shs)
    ensures var r := CloseList(k, First(shs), Last(shs));
            && Separate(x.shape) && Owned(x.shape) !! h.Keys && r.Keys == h.Keys + Owned(x.shape) && SameOn(h, r, h.Keys)
            && IsNode(r, p) && r[p] == start[p].(child := First(shs))
  {
    hide Rep, Owns, OwnedAll, SeparateAll, ChainedAt, Agrees, Linked, Spells;
    if shs != [] {
      HeadListed(base, k, shs, ms);
    }
    assert k[p] == base[p];
    OwnedParts(x.shape);
    SeparateParts(x.shape);
  }

  lemma CompleteRep(h: heap, start: heap, k: heap, p: ptr, text: ptr, key: ptr, x: Tree, base: heap, shs: seq<Shape>, ms: seq<Member>)
    requires Started(h, start, p, text, key, x.key, x.value) && Growing(start, k, p, base, shs, ms) && Agrees(x.value, ms)
    requires x.shape == Shape(p, text, key, shs)
    ensures Rep(CloseList(k, First(shs), Last(shs)), x.shape, x.key, x.value)
  {
    hide Rep, Owns, Owned, OwnedAll, Separate, SeparateAll, ChainedAt, Agrees, Linked, Spells, SameOn;
    var r := CloseList(k, First(shs), Last(shs));
    CompleteFrame(h, start, k, p, text, key, x, base, shs, ms);
    CompleteStrings(h, start, k, p, text, key, x, base, shs, ms);
    CompleteKids(k, base, shs, ms);
    RootRep(r, x.shape, x.key, x.value, ms);
  }

  lemma CompleteKids(k: heap, base: heap, shs: seq<Shape>, ms: seq<Member>)
    requires Building(base, k, shs, ms) && |shs| == |ms|
    ensures var r := CloseList(k, First(shs), Last(shs));
            Linked(r, shs) && forall i :: 0 <= i < |shs| ==> Rep(r, shs[i], ms[i].key, ms[i].value)
  {
    hide Rep, Owns, Owned, OwnedAll, Separate, SeparateAll, ChainedAt, Linked;
    if shs != [] {
      HeadListed(base, k, shs, ms);
    }
    ClosedKids(base, k, shs, ms, CloseList(k, First(shs), Last(shs)));
  }

  lemma CompleteStrings(h: heap, start: heap, k: heap, p: ptr, text: ptr, key: ptr, x: Tree, base: heap, shs: seq<Shape>, ms: seq<Member>)
    requires Started(h, start, p, text, key, x.key, x.value) && Growing(start, k, p, base, shs, ms) && Agrees(x.value, ms)
    ensures var r := CloseList(k, First(shs), Last(shs));
            Spells(r, text, TextOf(x.value)) && Spells(r, key, x.key)
  {
    hide Rep, Owns, Owned, OwnedAll, Separate, SeparateAll, ChainedAt, Agrees, Linked;
    if shs != [] {
      HeadListed(base, k, shs, ms);
    }
    var r := CloseList(k, First(shs), Last(shs));
    SpellsFrame(start, r, text, TextOf(x.value));
    SpellsFrame(start, r, key, x.key);
  }

  lemma GrowingKeeps(h: heap, start: heap, k: heap, p: ptr, text: ptr, key: ptr, name: Option<cstring>, v: Item, base: heap, shs: seq<Shape>, ms: seq<Member>)
    requires Started(h, start, p, text, key, name, v) && Growing(start, k, p, base, shs, ms)
    ensures SameOn(h, k, h.Keys) && IsNode(k, p) && k[p].child == First(shs)
  {
    hide Rep, Owns, OwnedAll, SeparateAll;
    assert k[p] == base[p];
  }

  // ---- the method ----

  /** The copied node before its strings. */
  function NodeLike(n: Block): (r: Block)
    requires n.Node?
    ensures r.Node?
  {
    Node(n.kind, NULL, NULL, NULL, NULL, NULL, n.number, n.integer, false, false)
  }

  function AddString(h: heap, q: ptr, s: seq<byte>): (k: heap) {
    if q == NULL then h else h[q := Chars(s)]
  }

  /** cJSON_strdup of a string that may be missing; only what a C reader sees is copied. */
  method CopyString(m: Memory, s: ptr) returns (ok: bool, q: ptr)
    requires m.Valid() && (s != NULL ==> IsChars(m.blocks, s))
    modifies m
    ensures m.Valid()
    ensures !ok ==> m.refused && m.blocks == old(m.blocks)
    ensures ok ==> m.refused == old(m.refused) && (q == NULL <==> s == NULL) && q !in old(m.blocks)
    ensures ok && s == NULL ==> m.blocks == old(m.blocks)
    ensures ok && s != NULL ==> m.blocks == old(m.blocks)[q := Chars(CString(old(m.blocks)[s].bytes))]
  {
    if s == NULL {
      return true, NULL;
    }
    q := m.Allocate(Chars(CString(m.blocks[s].bytes)));
    ok := q != NULL;
  }

  /** The text of a C string read again. */
  lemma ReadAgain(bytes: seq<byte>)
    ensures CString(CString(bytes)) == CString(bytes)
  {
  }

  /** The heap with the new node and the copied strings. */
  function WithCopy(h: heap, p: ptr, n: Block, text: ptr, a: seq<byte>, key: ptr, b: seq<byte>): (k: heap)
    requires n.Node?
  {
    AddString(AddString(h, text, a), key, b)[p := Node(n.kind, NULL, NULL, NULL, text, key, n.number, n.integer, false, false)]
  }

  lemma CopyStarted(h: heap, p: ptr, text: ptr, a: seq<byte>, key: ptr, b: seq<byte>, t: Tree, v: Item)
    requires Shows(h, t) && NULL !in h && p != NULL && {p} + Opt(text) + Opt(key) !! h.Keys
    requires p != text && p != key && (text == key ==> text == NULL)
    requires KindOf(v) == KindOf(t.value) && TextOf(v) == TextOf(t.value) && (v.Number? ==> v == t.value)
    requires IsNode(h, t.shape.node)
    requires text == NULL <==> StringAt(h, h[t.shape.node].text) == None
    requires text != NULL ==> Some(CString(a)) == StringAt(h, h[t.shape.node].text)
    requires key == NULL <==> StringAt(h, h[t.shape.node].key) == None
    requires key != NULL ==> Some(CString(b)) == StringAt(h, h[t.shape.node].key)
    ensures Started(h, WithCopy(h, p, h[t.shape.node], text, a, key, b), p, text, key, t.key, v)
  {
    hide Reads, CString;
    Fields(h, t);
  }

  /** A new node with copies of the strings of `item`. */
  method StartCopy(m: Memory, item: ptr, ghost t: Tree, ghost v: Item) returns (p: ptr, ghost text: ptr, ghost key: ptr)
    requires m.Valid() && Copyable(m.blocks, t) && t.shape.node == item
    requires KindOf(v) == KindOf(t.value) && TextOf(v) == TextOf(t.value) && (v.Number? ==> v == t.value)
    modifies m
    ensures m.Valid()
    ensures p == NULL ==> m.blocks == old(m.blocks) && m.refused
    ensures p != NULL ==>
      m.refused == old(m.refused) && Started(old(m.blocks), m.blocks, p, text, key, t.key, v)
  {
    hide Reads, OwnKeys, Started, CString, KindOf, TextOf;
    ghost var h := m.blocks;
    Fields(h, t);
    var n := m.blocks[item];
    p := m.Allocate(NodeLike(n));
    text, key := NULL, NULL;
    if p == NULL {
      return;
    }
    var ok, q := CopyString(m, n.text);
    if !ok {
      Forget(m, p, h);
      return NULL, NULL, NULL;
    }
    m.blocks := m.blocks[p := m.blocks[p].(text := q)];
    ghost var a: seq<byte> := if q == NULL then [] else CString(h[n.text].bytes);
    assert m.blocks == AddString(h, q, a)[p := Node(n.kind, NULL, NULL, NULL, q, NULL, n.number, n.integer, false, false)];
    if q != NULL {
      ReadAgain(h[n.text].bytes);
    }
    text := q;
    ok, key := NameCopy(m, item, p, h, q, a, t, v);
    if !ok {
      p := NULL;
    }
  }

  /** The second half: the key. */
  method NameCopy(m: Memory, item: ptr, p: ptr, ghost h: heap, q: ptr, ghost a: seq<byte>, ghost t: Tree, ghost v: Item)
    returns (ok: bool, ghost key: ptr)
    requires m.Valid() && Copyable(h, t) && t.shape.node == item && IsNode(h, item) && NULL !in h
    requires p != NULL && p !in h && q !in h && p != q && m.blocks == AddString(h, q, a)[p := Node(h[item].kind, NULL, NULL, NULL, q, NULL, h[item].number, h[item].integer, false, false)]
    requires q == NULL <==> StringAt(h, h[item].text) == None
    requires q != NULL ==> Some(CString(a)) == StringAt(h, h[item].text)
    requires KindOf(v) == KindOf(t.value) && TextOf(v) == TextOf(t.value) && (v.Number? ==> v == t.value)
    modifies m
    ensures m.Valid()
    ensures !ok ==> m.blocks == h && m.refused
    ensures ok ==> m.refused == old(m.refused) && Started(h, m.blocks, p, q, key, t.key, v)
  {
    hide Reads, OwnKeys, Started, CString, KindOf, TextOf;
    Fields(h, t);
    var s := m.blocks[item].key;
    var r;
    ok, r := CopyString(m, s);
    if !ok {
      Forget(m, p, h);
      return false, NULL;
    }
    m.blocks := m.blocks[p := m.blocks[p].(key := r)];
    key := r;
    ghost var b: seq<byte> := if r == NULL then [] else CString(h[s].bytes);
    if r != NULL {
      ReadAgain(h[s].bytes);
    }
    assert m.blocks == WithCopy(h, p, h[item], q, a, r, b);
    CopyStarted(h, p, q, a, r, b, t, v);
  }

  lemma ForgetChain(h: heap, p: ptr)
    requires IsNode(h, p) && p != NULL
    requires var n := h[p];
             && n == BLANK.(kind := n.kind, number := n.number, integer := n.integer, text := n.text) && n.text != p
             && (n.text != NULL ==> IsChars(h, n.text))
    ensures var sh := Shape(p, h[p].text, NULL, []); Chain(h, p, [sh]) && SeparateAll([sh])
  {
    var sh := Shape(p, h[p].text, NULL, []);
    assert [sh][1..] == [] && Chain(h, NULL, []);
    assert Owns(h, sh);
    assert OwnedAll([]) == {};
    assert Separate(sh);
  }

  /** cJSON_Delete of a node that has at most a text. */
  method Forget(m: Memory, p: ptr, ghost h: heap)
    requires m.Valid() && IsNode(m.blocks, p) && p !in h
    requires var n := m.blocks[p];
             && n == BLANK.(kind := n.kind, number := n.number, integer := n.integer, text := n.text) && n.text != p && n.text !in h
             && (n.text != NULL ==> IsChars(m.blocks, n.text))
             && m.blocks.Keys == h.Keys + ({p} + Opt(n.text)) && SameOn(h, m.blocks, h.Keys)
    modifies m`blocks
    ensures m.blocks == h
  {
    ghost var sh := Shape(p, m.blocks[p].text, NULL, []);
    OwnedOne(sh);
    OwnedParts(sh);
    ForgetChain(m.blocks, p);
    m.Delete(p, [sh]);
  }

  // ---- the children ----

  lemma StartGrowing(h: heap, start: heap, p: ptr, text: ptr, key: ptr, name: Option<cstring>, v: Item)
    requires Started(h, start, p, text, key, name, v)
    ensures Growing(start, start, p, start, [], [])
  {
    assert start == start[p := start[p].(child := NULL)];
    EmptyList(start);
  }

  /** Linking the newest copy in. */
  method Hook(m: Memory, root: ptr, tail: ptr, p: ptr, ghost start: heap, ghost base: heap, ghost h: heap,
              ghost shs: seq<Shape>, ghost ms: seq<Member>, ghost x: Tree)
    requires m.Valid() && Growing(start, h, root, base, shs, ms) && Adds(h, m.blocks, x)
    requires tail == Last(shs) && x.shape.node == p
    modifies m`blocks
    ensures m.Valid()
    ensures Growing(start, m.blocks, root, start[root := start[root].(child := First(shs + [x.shape]))],
                    shs + [x.shape], ms + [KidMember(x)])
  {
    hide Rep, Separate, Owned, OwnedAll, SeparateAll, Owns;
    if shs != [] {
      HeadListed(base, h, shs, ms);
    }
    Grow(base, h, shs, ms, m.blocks, x, root, start);
    if tail != NULL {
      SetNext(m, tail, p);
      SetPrev(m, p, tail);
    } else {
      SetChild(m, root, p);
    }
  }

  /** Copies of the children of `item`, one after the other, hung below `p`. */
  method CopyKids(m: Memory, item: ptr, p: ptr, ghost h: heap, ghost text: ptr, ghost key: ptr, ghost t: Tree)
    returns (ok: bool, ghost kids: seq<Shape>)
    requires m.Valid() && Copyable(h, t) && t.shape.node == item
    requires Started(h, m.blocks, p, text, key, t.key, t.value)
    modifies m
    ensures m.Valid()
    ensures !ok ==> m.blocks == h && m.refused
    ensures ok ==> m.refused == old(m.refused) && Adds(h, m.blocks, Tree(Shape(p, text, key, kids), t.key, t.value))
    decreases Size(t.value), 0
  {
    hide Reads, OwnKeys, Owned, OwnedAll, Started, Growing, Members, Agrees, SeparateAll, Adds, SameOn, Copyable;
    ghost var start: heap, base: heap := m.blocks, m.blocks;
    kids := [];
    ghost var i, ms := 0, Members(h, t);
    StartGrowing(h, start, p, text, key, t.key, t.value);
    assert ms[..0] == [];
    GrowingKeeps(h, start, m.blocks, p, text, key, t.key, t.value, base, kids, ms[..0]);
    CopyableSame(h, m.blocks, t);
    CopyableWalk(m.blocks, t, 0);
    var child, tail := m.blocks[item].child, NULL;
    while child != NULL
      invariant m.Valid() && m.refused == old(m.refused)
      invariant 0 <= i <= |ms| && child == KidNode(t, i) && |kids| == i
      invariant Growing(start, m.blocks, p, base, kids, ms[..i])
      invariant Copyable(m.blocks, t) && Members(m.blocks, t) == ms && |ms| == |t.shape.kids|
      invariant tail == Last(kids)
      decreases |ms| - i
    {
      CopyableWalk(m.blocks, t, i);
      KidSmaller(m.blocks, t, i);
      ghost var k := m.blocks;
      ghost var c;
      var newchild;
      newchild, c := Copy(m, child, true, Kid(m.blocks, t, i));
      if newchild == NULL {
        GiveUp(h, start, m.blocks, p, text, key, t.key, t.value, base, kids, ms[..i]);
        m.Delete(p, [Shape(p, text, key, kids)]);
        return false, kids;
      }
      ghost var x := Tree(c, ms[i].key, ms[i].value);
      Hook(m, p, tail, newchild, start, base, k, kids, ms[..i], x);
      assert ms[..i] + [KidMember(x)] == ms[..i + 1];
      kids := kids + [c];
      base := start[p := start[p].(child := First(kids))];
      i := i + 1;
      GrowingKeeps(h, start, m.blocks, p, text, key, t.key, t.value, base, kids, ms[..i]);
      CopyableSame(h, m.blocks, t);
      CopyableWalk(m.blocks, t, i - 1);
      tail := newchild;
      child := m.blocks[child].next;
    }
    if i < |ms| {
      CopyableWalk(m.blocks, t, i);
    }
    assert ms[..i] == ms;
    GrowingKeeps(h, start, m.blocks, p, text, key, t.key, t.value, base, kids, ms);
    MembersAgree(h, t);
    Complete(h, start, m.blocks, p, text, key, Tree(Shape(p, text, key, kids), t.key, t.value), base, kids, ms);
    Close(m, p, tail, start, base, kids, ms);
    ok := true;
  }

  lemma MembersAgree(h: heap, t: Tree)
    ensures Agrees(t.value, Members(h, t))
  {
    KidsFit(h, t.shape.kids, t.value);
  }

  /** The walk of the copier: the child at `i` can be copied too. */
  lemma CopyableWalk(h: heap, t: Tree, i: nat)
    requires Copyable(h, t)
    ensures IsNode(h, t.shape.node) && h[t.shape.node].child == KidNode(t, 0) && |t.shape.kids| == |Members(h, t)|
    ensures i < |t.shape.kids| ==>
      && Copyable(h, Kid(h, t, i)) && KidNode(t, i) != NULL && IsNode(h, KidNode(t, i))
      && h[KidNode(t, i)].next == KidNode(t, i + 1)
  {
    hide Reads, Members;
    FirstKid(h, t);
    if i < |t.shape.kids| {
      Walk(h, t, i);
    }
  }

  /** The head of a finished list is told its tail. */
  method Close(m: Memory, p: ptr, tail: ptr, ghost start: heap, ghost base: heap, ghost kids: seq<Shape>, ghost ms: seq<Member>)
    requires m.Valid() && Growing(start, m.blocks, p, base, kids, ms) && tail == Last(kids)
    requires IsNode(m.blocks, p) && m.blocks[p].child == First(kids)
    modifies m`blocks
    ensures m.Valid() && m.blocks == CloseList(old(m.blocks), First(kids), Last(kids))
  {
    hide Rep, Separate, Owned, OwnedAll, SeparateAll, Owns;
    if kids != [] {
      HeadListed(base, m.blocks, kids, ms);
    }
    if m.blocks[p].child != NULL {
      SetPrev(m, m.blocks[p].child, tail);
    }
  }

  lemma KidSmaller(h: heap, t: Tree, i: nat)
    requires i < |Members(h, t)|
    ensures Size(Members(h, t)[i].value) < Size(t.value)
  {
    if t.value.Array? {
      ItemSmaller(t.value.items, i);
    } else {
      MemberSmaller(t.value.members, i);
    }
  }

  lemma ChildlessLike(v: Item)
    ensures KindOf(Childless(v)) == KindOf(v) && TextOf(Childless(v)) == TextOf(v) && Agrees(Childless(v), [])
    ensures Childless(v).Number? ==> Childless(v) == v
  {
  }

  /** cJSON_Duplicate. */
  method Copy(m: Memory, item: ptr, recurse: bool, ghost t: Tree) returns (p: ptr, ghost c: Shape)
    requires m.Valid() && (item != NULL ==> Copyable(m.blocks, t) && t.shape.node == item)
    modifies m
    ensures m.Valid()
    ensures item == NULL ==> p == NULL && m.refused == old(m.refused)
    ensures p == NULL ==> m.blocks == old(m.blocks) && (item != NULL ==> m.refused)
    ensures p != NULL ==>
      && m.refused == old(m.refused) && c.node == p
      && Adds(old(m.blocks), m.blocks, Tree(c, t.key, if recurse then t.value else Childless(t.value)))
    decreases Size(t.value), 1
  {
    hide Copyable, Owned, OwnedAll, Started, Growing, Agrees, SeparateAll, Adds, SameOn, KindOf, TextOf, Childless;
    ghost var h, v := m.blocks, if recurse then t.value else Childless(t.value);
    c := t.shape;
    if item == NULL {
      return NULL, c;
    }
    ChildlessLike(t.value);
    ghost var text, key;
    p, text, key := StartCopy(m, item, t, v);
    if p == NULL {
      return;
    }
    if !recurse {
      c := Shape(p, text, key, []);
      StartGrowing(h, m.blocks, p, text, key, t.key, v);
      Complete(h, m.blocks, m.blocks, p, text, key, Tree(c, t.key, v), m.blocks, [], []);
      return;
    }
    ghost var kids;
    var ok;
    ok, kids := CopyKids(m, item, p, h, text, key, t);
    c := Shape(p, text, key, kids);
    if !ok {
      p := NULL;
    }
  }

  // ---- a copy against its original ----

  lemma {:induction false} NodesLive(h: heap, t: Tree)
    requires Shows(h, t)
    ensures NodesOf(t.shape) <= h.Keys
    decreases t.shape, 1
  {
    hide KidsIn, Spells;
    NodesLiveAll(h, t.shape.kids, Members(h, t));
  }

  lemma {:induction false} NodesLiveAll(h: heap, shs: seq<Shape>, ms: seq<Member>)
    requires |shs| == |ms| && forall i :: 0 <= i < |shs| ==> Reads(h, shs[i], ms[i].key, ms[i].value)
    ensures NodesOfAll(shs) <= h.Keys
    decreases shs, 0
  {
    hide Reads;
    if shs != [] {
      NodesLive(h, Tree(shs[0], ms[0].key, ms[0].value));
      NodesLiveAll(h, shs[1..], ms[1..]);
    }
  }

  lemma {:induction false} NodesOwned(sh: Shape)
    ensures NodesOf(sh) <= Owned(sh)
    decreases sh, 1
  {
    NodesOwnedAll(sh.kids);
  }

  lemma {:induction false} NodesOwnedAll(shs: seq<Shape>)
    ensures NodesOfAll(shs) <= OwnedAll(shs)
    decreases shs, 0
  {
    if shs != [] {
      NodesOwned(shs[0]);
      NodesOwnedAll(shs[1..]);
    }
  }

  /** cJSON_Compare of an item and its copy: true exactly when each key's first member agrees with all its others. */
  lemma CopyCompares(h: heap, k: heap, t: Tree, c: Shape, eq: closeness, cs: bool)
    requires Shows(h, t) && Adds(h, k, Tree(c, t.key, t.value))
    ensures Shows(k, t) && Shows(k, Tree(c, t.key, t.value))
    ensures Alike(eq, t.shape, t.value, c, t.value, cs) <==> FirstsAgree(eq, t.value, cs)
  {
    hide Reads, Rep, Alike, Equal, Owned, NodesOf, FirstsAgree, Separate, Fits;
    var x := Tree(c, t.key, t.value);
    ShowsSame(h, k, t);
    StandsShows(k, x);
    NodesLive(h, t);
    NodesOwned(c);
    ShowsFits(k, t);
    ShowsFits(k, x);
    ApartAlike(eq, t.shape, t.value, c, t.value, cs);
    EqualsItselfExactly(eq, t.value, cs);
  }

  /** With finite numbers, present strings and distinct keys, the copy compares equal in both directions. */
  lemma CopyEqualsOriginal(h: heap, k: heap, t: Tree, c: Shape, cs: bool)
    requires Shows(h, t) && Adds(h, k, Tree(c, t.key, t.value)) && DistinctKeys(t.value, cs)
    ensures Alike(CompareDouble, t.shape, t.value, c, t.value, cs) && Alike(CompareDouble, c, t.value, t.shape, t.value, cs)
  {
    hide Reads, Rep, Alike, Equal, Owned, NodesOf, Regular, Separate, Fits, DistinctKeys;
    var x := Tree(c, t.key, t.value);
    ShowsSame(h, k, t);
    StandsShows(k, x);
    DistinctKeysRegular(t.value, cs);
    RegularEqualsItself(CompareDouble, t.value, cs);
    AlikeEqual(k, CompareDouble, t, x, cs);
    AlikeEqual(k, CompareDouble, x, t, cs);
  }
}
