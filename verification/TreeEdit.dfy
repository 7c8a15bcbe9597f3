/** What list editing does to the JSON tree that a container node represents. */
module TreeEdit {
  import opened Text
  import opened Json
  import opened Heap
  import opened HeapTree
  import opened HeapList
  import opened ListEdit

  function Nodes(shs: seq<Shape>): (ids: seq<ptr>)
    ensures |ids| == |shs| && forall i :: 0 <= i < |shs| ==> ids[i] == shs[i].node
  {
    seq(|shs|, i requires 0 <= i < |shs| => shs[i].node)
  }

  predicate Container(v: Item) {
    v.Array? || v.Object?
  }

  function Values(ms: seq<Member>): (vs: seq<Item>) {
    seq(|ms|, i requires 0 <= i < |ms| => ms[i].value)
  }

  /** A container of the same kind with these children; an array does not show their keys. */
  function WithMembers(v: Item, ms: seq<Member>): (r: Item) {
    match v
    case Array(_) => Array(Values(ms))
    case Object(_) => Object(ms)
    case _ => v
  }

  lemma WithMembersAgrees(v: Item, ms: seq<Member>)
    requires Container(v)
    ensures var r := WithMembers(v, ms);
            Agrees(r, ms) && KindOf(r) == KindOf(v) && Container(r)
  {
  }

  /** The node with other children. */
  function Edit(t: Tree, kids: seq<Shape>, ms: seq<Member>): (r: Tree) {
    t.(shape := t.shape.(kids := kids), value := WithMembers(t.value, ms))
  }

  /** The container stands with these children in place of its own, their keys included. */
  ghost predicate Became(h: heap, t: Tree, kids: seq<Shape>, ms: seq<Member>) {
    Stands(h, Edit(t, kids, ms)) && Members(h, Edit(t, kids, ms)) == ms
  }

  lemma {:induction false} NodeIn(shs: seq<Shape>, i: nat)
    requires i < |shs|
    ensures shs[i].node in OwnedAll(shs)
  {
    OwnedAllAt(shs, i);
    NodeOwned(shs[i]);
  }

  /** The children of a represented container form a list. */
  lemma StandsLists(h: heap, t: Tree)
    requires Stands(h, t)
    ensures Lists(h, t.shape.node, Nodes(t.shape.kids))
  {
    hide Members, Spells, Owned;
    var kids := t.shape.kids;
    var ids := Nodes(kids);
    forall i | 0 <= i < |ids| ensures LinkAt(h, ids, i) && ids[i] != t.shape.node {
      assert LinkedAt(h, kids, i);
      NodeIn(kids, i);
    }
    forall i, j | 0 <= i < j < |ids| ensures ids[i] != ids[j] {
      NodesDistinct(kids, i, j);
      NodeOwned(kids[i]);
      NodeOwned(kids[j]);
    }
  }

  lemma ListsLinked(h: heap, parent: ptr, shs: seq<Shape>)
    requires Lists(h, parent, Nodes(shs))
    ensures Linked(h, shs) && IsNode(h, parent) && h[parent].child == First(shs)
  {
    forall i | 0 <= i < |shs| ensures LinkedAt(h, shs, i) {
      assert LinkAt(h, Nodes(shs), i);
    }
  }

  /** Blocks of a child that relinking may touch: only its node. */
  ghost predicate OnlyNodes(touched: set<ptr>, shs: seq<Shape>) {
    forall i :: 0 <= i < |shs| ==> Owned(shs[i]) * touched <= {shs[i].node}
  }

  /** A child still represents its value after relinking. */
  lemma KidStands(h: heap, k: heap, parent: ptr, touched: set<ptr>, sh: Shape, key: Option<cstring>, v: Item)
    requires Relinked(h, k, parent, touched) && Rep(h, sh, key, v) && Separate(sh)
    requires parent !in Owned(sh) && Owned(sh) * touched <= {sh.node}
    ensures Rep(k, sh, key, v)
  {
    RepOwns(h, sh, key, v);
    OwnedLive(h, sh);
    NodeOwned(sh);
    hide Rep, Owned, Separate;
    RepFrame(h, k, sh, key, v);
  }

  /** A relinked container represents the tree with the new list of children. */
  lemma Edited(h: heap, k: heap, t: Tree, touched: set<ptr>, kids: seq<Shape>, ms: seq<Member>)
    requires Stands(h, t) && Container(t.value)
    requires SeparateAll(kids) && {t.shape.node} + Opt(t.shape.text) + Opt(t.shape.key) !! OwnedAll(kids)
    requires |kids| == |ms| && forall i :: 0 <= i < |kids| ==> Rep(h, kids[i], ms[i].key, ms[i].value)
    requires Relinked(h, k, t.shape.node, touched) && Lists(k, t.shape.node, Nodes(kids))
    requires OnlyNodes(touched, kids) && touched !! Opt(t.shape.text) + Opt(t.shape.key)
    ensures Became(k, t, kids, ms)
  {
    var sh, v := t.shape.(kids := kids), WithMembers(t.value, ms);
    ListsLinked(k, sh.node, kids);
    forall i | 0 <= i < |kids| ensures Rep(k, kids[i], ms[i].key, ms[i].value) {
      OwnedAllAt(kids, i);
      SeparateAt(kids, i);
      KidStands(h, k, sh.node, touched, kids[i], ms[i].key, ms[i].value);
    }
    hide KidsIn, Linked, Owned, OwnedAll, SeparateAll, Lists, WithMembers, Agrees;
    WithMembersAgrees(t.value, ms);
    RootFields(h, k, t, touched);
    FinishRep(k, sh, t.key, v, ms);
    SeparateParts(sh);
    KidsKnown(k, kids, v, ms);
  }

  lemma RootFields(h: heap, k: heap, t: Tree, touched: set<ptr>)
    requires Stands(h, t) && Container(t.value) && Relinked(h, k, t.shape.node, touched)
    requires touched !! Opt(t.shape.text) + Opt(t.shape.key)
    ensures var n := k[t.shape.node];
            && n.kind == KindOf(t.value) && n.text == NULL && t.shape.text == NULL && n.key == t.shape.key
            && !n.isReference && !n.constKey && Spells(k, t.shape.key, t.key)
            && t.shape.node != t.shape.key
  {
    RepOwns(h, t.shape, t.key, t.value);
    OwnedLive(h, t.shape);
  }

  // ---- the edits ----

  function KidMember(x: Tree): (m: Member) {
    Member(x.key, x.value)
  }

  /** A detached tree beside the container. */
  ghost predicate Beside(h: heap, t: Tree, x: Tree) {
    Stands(h, t) && Container(t.value) && Stands(h, x) && Detached(h, x.shape.node) && Owned(t.shape) !! Owned(x.shape)
  }

  lemma StandsParts(h: heap, t: Tree)
    requires Stands(h, t)
    ensures SeparateAll(t.shape.kids) && {t.shape.node} + Opt(t.shape.text) + Opt(t.shape.key) !! OwnedAll(t.shape.kids)
    ensures |t.shape.kids| == |Members(h, t)|
    ensures forall i :: 0 <= i < |t.shape.kids| ==>
      Rep(h, t.shape.kids[i], Members(h, t)[i].key, Members(h, t)[i].value)
    ensures Owned(t.shape) == {t.shape.node} + Opt(t.shape.text) + Opt(t.shape.key) + OwnedAll(t.shape.kids)
  {
  }

  /** Nodes of separate children are nobody else's blocks. */
  lemma NodesOnly(shs: seq<Shape>, ids: set<ptr>)
    requires SeparateAll(shs) && ids <= Ids(Nodes(shs))
    ensures OnlyNodes(ids, shs) && ids <= OwnedAll(shs)
  {
    forall p | p in ids ensures p in OwnedAll(shs) {
      var j :| 0 <= j < |shs| && shs[j].node == p;
      NodeIn(shs, j);
    }
    forall i | 0 <= i < |shs| ensures Owned(shs[i]) * ids <= {shs[i].node} {
      forall p | p in Owned(shs[i]) * ids ensures p == shs[i].node {
        var j :| 0 <= j < |shs| && shs[j].node == p;
        NodeOwned(shs[j]);
        if j < i {
          NodesDistinct(shs, j, i);
        } else if i < j {
          NodesDistinct(shs, i, j);
        }
      }
    }
  }

  lemma OnlyNodesPart(ids: set<ptr>, shs: seq<Shape>, part: seq<Shape>)
    requires OnlyNodes(ids, shs) && forall sh :: sh in part ==> sh in shs
    ensures OnlyNodes(ids, part)
  {
    forall i | 0 <= i < |part| ensures Owned(part[i]) * ids <= {part[i].node} {
      assert part[i] in shs;
    }
  }

  function InsertedKids<T>(kids: seq<T>, i: nat, x: T): (r: seq<T>)
    requires i <= |kids|
  {
    kids[..i] + [x] + kids[i..]
  }

  /** Putting a separate tree among separate children. */
  lemma SeparateInserted(kids: seq<Shape>, i: nat, x: Shape)
    requires i <= |kids| && SeparateAll(kids) && Separate(x) && OwnedAll(kids) !! Owned(x)
    ensures SeparateAll(InsertedKids(kids, i, x)) && OwnedAll(InsertedKids(kids, i, x)) == OwnedAll(kids) + Owned(x)
  {
    var a, b := kids[..i], kids[i..];
    assert kids == a + b;
    OwnedAllSplit(a, b);
    OwnedOne(x);
    OwnedAllSplit(a, [x]);
    OwnedAllSplit(a + [x], b);
  }

  lemma InsertedStands(h: heap, t: Tree, x: Tree, i: nat)
    requires Beside(h, t, x) && i <= |t.shape.kids| && |t.shape.kids| == |Members(h, t)|
    ensures var kids, ms := InsertedKids(t.shape.kids, i, x.shape), InsertedKids(Members(h, t), i, KidMember(x));
            |kids| == |ms| && forall j :: 0 <= j < |kids| ==> Rep(h, kids[j], ms[j].key, ms[j].value)
  {
    hide Rep, Members, Separate, Owned;
    StandsParts(h, t);
    var kids, ms := InsertedKids(t.shape.kids, i, x.shape), InsertedKids(Members(h, t), i, KidMember(x));
    forall j | 0 <= j < |kids| ensures Rep(h, kids[j], ms[j].key, ms[j].value) {
      if j < i {
        assert kids[j] == t.shape.kids[j] && ms[j] == Members(h, t)[j];
      } else if j == i {
        assert kids[j] == x.shape && ms[j] == KidMember(x);
      } else {
        assert kids[j] == t.shape.kids[j - 1] && ms[j] == Members(h, t)[j - 1];
      }
    }
  }

  /** The general insertion: the relinked heap represents the container with one more child. */
  lemma InsertEdited(h: heap, k: heap, t: Tree, x: Tree, i: nat)
    requires Beside(h, t, x) && i <= |t.shape.kids| && |t.shape.kids| == |Members(h, t)|
    requires Lists(k, t.shape.node, Inserted(Nodes(t.shape.kids), i, x.shape.node))
    requires Relinked(h, k, t.shape.node, Ids(Nodes(t.shape.kids) + [x.shape.node]))
    ensures Became(k, t, InsertedKids(t.shape.kids, i, x.shape), InsertedKids(Members(h, t), i, KidMember(x)))
  {
    hide Rep, Members, Owned, OwnedAll, Separate, SeparateAll, Lists, Relinked;
    StandsParts(h, t);
    var kids := InsertedKids(t.shape.kids, i, x.shape);
    var ids := Ids(Nodes(t.shape.kids) + [x.shape.node]);
    SeparateInserted(t.shape.kids, i, x.shape);
    InsertedStands(h, t, x, i);
    assert Nodes(kids) == Inserted(Nodes(t.shape.kids), i, x.shape.node);
    assert ids <= Ids(Nodes(kids)) by {
      InsertedIds(Nodes(t.shape.kids), i, x.shape.node);
    }
    NodesOnly(kids, ids);
    Edited(h, k, t, ids, kids, InsertedKids(Members(h, t), i, KidMember(x)));
  }

  lemma InsertedIds(ids: seq<ptr>, i: nat, item: ptr)
    requires i <= |ids|
    ensures Ids(ids + [item]) == Ids(Inserted(ids, i, item))
  {
    assert ids == ids[..i] + ids[i..];
  }

  lemma BesideLists(h: heap, t: Tree, x: Tree)
    requires Beside(h, t, x)
    ensures Lists(h, t.shape.node, Nodes(t.shape.kids)) && |t.shape.kids| == |Members(h, t)|
    ensures x.shape.node != t.shape.node && x.shape.node !in Nodes(t.shape.kids)
  {
    hide Rep, Owned, OwnedAll, Separate, SeparateAll, Members;
    StandsLists(h, t);
    StandsParts(h, t);
    NodeOwned(x.shape);
    if x.shape.node in Nodes(t.shape.kids) {
      var j :| 0 <= j < |t.shape.kids| && t.shape.kids[j].node == x.shape.node;
      NodeIn(t.shape.kids, j);
    }
  }

  /** Appending a detached item appends its value and key, and changes no other block. */
  method Append(m: Memory, ghost t: Tree, ghost x: Tree, parent: ptr, item: ptr) returns (ok: bool)
    requires Beside(m.blocks, t, x) && t.shape.node == parent && x.shape.node == item
    modifies m`blocks
    ensures ok
    ensures Became(m.blocks, t, t.shape.kids + [x.shape], Members(old(m.blocks), t) + [KidMember(x)])
    ensures Relinked(old(m.blocks), m.blocks, parent, Ids(Nodes(t.shape.kids) + [item]))
  {
    hide Rep, Members, Owned, OwnedAll, Separate, SeparateAll, Relinked, Became;
    ghost var ids, n, ms := Nodes(t.shape.kids), |t.shape.kids|, Members(m.blocks, t);
    BesideLists(m.blocks, t, x);
    ok := AddItemToArray(m, parent, item, ids);
    assert Inserted(ids, n, item) == ids + [item];
    assert InsertedKids(t.shape.kids, n, x.shape) == t.shape.kids + [x.shape];
    assert InsertedKids(ms, n, KidMember(x)) == ms + [KidMember(x)];
    InsertEdited(old(m.blocks), m.blocks, t, x, n);
  }

  /** Inserting a detached item inserts its value and key at that position. */
  method Insert(m: Memory, ghost t: Tree, ghost x: Tree, parent: ptr, which: nat, item: ptr) returns (ok: bool)
    requires Beside(m.blocks, t, x) && t.shape.node == parent && x.shape.node == item
    modifies m`blocks
    ensures ok && |t.shape.kids| == |Members(old(m.blocks), t)|
    ensures var i := if which < |t.shape.kids| then which else |t.shape.kids|;
            Became(m.blocks, t, InsertedKids(t.shape.kids, i, x.shape), InsertedKids(Members(old(m.blocks), t), i, KidMember(x)))
    ensures Relinked(old(m.blocks), m.blocks, parent, Ids(Nodes(t.shape.kids) + [item]))
  {
    hide Rep, Members, Owned, OwnedAll, Separate, SeparateAll, Relinked, Became;
    BesideLists(m.blocks, t, x);
    ok := InsertItemInArray(m, parent, which, item, Nodes(t.shape.kids));
    InsertEdited(old(m.blocks), m.blocks, t, x, if which < |t.shape.kids| then which else |t.shape.kids|);
  }

  function RemovedKids<T>(kids: seq<T>, i: nat): (r: seq<T>)
    requires i < |kids|
  {
    kids[..i] + kids[i + 1..]
  }

  lemma SeparateRemoved(kids: seq<Shape>, i: nat)
    requires i < |kids| && SeparateAll(kids)
    ensures SeparateAll(RemovedKids(kids, i)) && Separate(kids[i]) && OwnedAll(RemovedKids(kids, i)) !! Owned(kids[i])
    ensures OwnedAll(kids) == OwnedAll(RemovedKids(kids, i)) + Owned(kids[i])
  {
    hide Owned, OwnedAll, Separate, SeparateAll;
    var a, x, b := kids[..i], kids[i], kids[i + 1..];
    assert kids == a + ([x] + b);
    OwnedAllSplit(a, [x] + b);
    OwnedAllSplit([x], b);
    OwnedOne(x);
    OwnedAllSplit(a, b);
    SeparateAt(kids, i);
  }

  lemma RemovedStands(h: heap, t: Tree, i: nat)
    requires Stands(h, t) && |t.shape.kids| == |Members(h, t)| && i < |t.shape.kids|
    ensures var kids, ms := RemovedKids(t.shape.kids, i), RemovedKids(Members(h, t), i);
            |kids| == |ms| && forall j :: 0 <= j < |kids| ==> Rep(h, kids[j], ms[j].key, ms[j].value)
    ensures Rep(h, t.shape.kids[i], Members(h, t)[i].key, Members(h, t)[i].value)
  {
    hide Rep, Members, Separate, Owned;
    StandsParts(h, t);
    var kids, ms := RemovedKids(t.shape.kids, i), RemovedKids(Members(h, t), i);
    forall j | 0 <= j < |kids| ensures Rep(h, kids[j], ms[j].key, ms[j].value) {
      var o := if j < i then j else j + 1;
      assert kids[j] == t.shape.kids[o] && ms[j] == Members(h, t)[o];
    }
  }

  /** After unlinking, the container stands without the child, and the child stands by itself. */
  lemma RemoveEdited(h: heap, k: heap, t: Tree, i: nat)
    requires Stands(h, t) && Container(t.value) && |t.shape.kids| == |Members(h, t)| && i < |t.shape.kids|
    requires Lists(k, t.shape.node, Without(Nodes(t.shape.kids), i)) && Detached(k, t.shape.kids[i].node)
    requires Relinked(h, k, t.shape.node, Ids(Nodes(t.shape.kids)))
    ensures Became(k, t, RemovedKids(t.shape.kids, i), RemovedKids(Members(h, t), i))
    ensures Beside(k, Edit(t, RemovedKids(t.shape.kids, i), RemovedKids(Members(h, t), i)), Kid(h, t, i))
  {
    hide Rep, Members, Owned, OwnedAll, Separate, SeparateAll, Lists, Relinked, WithMembers;
    StandsParts(h, t);
    var all, kids, ms, x := t.shape.kids, RemovedKids(t.shape.kids, i), RemovedKids(Members(h, t), i), Kid(h, t, i);
    var ids := Ids(Nodes(all));
    SeparateRemoved(all, i);
    RemovedStands(h, t, i);
    NodesOnly(all, ids);
    OnlyNodesPart(ids, all, kids);
    assert Nodes(kids) == Without(Nodes(all), i);
    Edited(h, k, t, ids, kids, ms);
    KidStands(h, k, t.shape.node, ids, x.shape, x.key, x.value);
    StandsParts(k, Edit(t, kids, ms));
    WithMembersAgrees(t.value, ms);
  }

  /** Detaching takes the child out, and leaves it standing beside the container. */
  method DetachItemFromArray(m: Memory, ghost t: Tree, parent: ptr, which: int) returns (item: ptr)
    requires Stands(m.blocks, t) && Container(t.value) && t.shape.node == parent
    modifies m`blocks
    ensures |t.shape.kids| == |Members(old(m.blocks), t)|
    ensures !(0 <= which < |t.shape.kids|) ==> item == NULL && m.blocks == old(m.blocks)
    ensures 0 <= which < |t.shape.kids| ==>
      && item == t.shape.kids[which].node
      && var kids, ms := RemovedKids(t.shape.kids, which), RemovedKids(Members(old(m.blocks), t), which);
      && Became(m.blocks, t, kids, ms) && Beside(m.blocks, Edit(t, kids, ms), Kid(old(m.blocks), t, which))
      && Relinked(old(m.blocks), m.blocks, parent, Ids(Nodes(t.shape.kids)))
  {
    hide Rep, Members, Owned, OwnedAll, Separate, SeparateAll, Relinked, Beside, Became, Edit;
    StandsParts(m.blocks, t);
    if which < 0 {
      return NULL;
    }
    ghost var ids := Nodes(t.shape.kids);
    StandsLists(m.blocks, t);
    var found := GetArrayItem(m, parent, which, ids);
    assert which < |ids| ==> LinkAt(m.blocks, ids, which);
    item := DetachItemViaPointer(m, parent, found, ids, if which < |ids| then which else 0);
    if which < |t.shape.kids| {
      RemoveEdited(old(m.blocks), m.blocks, t, which);
    }
  }

  /** A tree outlives the deletion of blocks it does not own. */
  lemma StandsWithout(k: heap, g: heap, t: Tree, gone: set<ptr>)
    requires Stands(k, t) && g == k - gone && Owned(t.shape) !! gone
    ensures Stands(g, t)
  {
    RepOwns(k, t.shape, t.key, t.value);
    OwnedLive(k, t.shape);
    NodeOwned(t.shape);
    RepFrame(k, g, t.shape, t.key, t.value);
  }

  lemma BecameWithout(k: heap, g: heap, t: Tree, kids: seq<Shape>, ms: seq<Member>, gone: set<ptr>)
    requires Became(k, t, kids, ms) && g == k - gone && Owned(Edit(t, kids, ms).shape) !! gone
    ensures Became(g, t, kids, ms)
  {
    var e := Edit(t, kids, ms);
    StandsWithout(k, g, e, gone);
    RepOwns(k, e.shape, e.key, e.value);
    OwnedLive(k, e.shape);
    hide Rep, Owned, OwnedAll, Separate, KidsIn;
    OwnedParts(e.shape);
    KidsInFrame(k, g, kids, e.value);
  }

  /** A detached tree can be deleted as a list of one. */
  lemma LoneChain(h: heap, x: Tree)
    requires Stands(h, x) && Detached(h, x.shape.node)
    ensures Chain(h, x.shape.node, [x.shape]) && SeparateAll([x.shape]) && OwnedAll([x.shape]) == Owned(x.shape)
  {
    RepOwns(h, x.shape, x.key, x.value);
    OwnedOne(x.shape);
    assert [x.shape][1..] == [];
  }

  /** cJSON_DeleteItemFromArray frees exactly the blocks of that child. */
  method DeleteItemFromArray(m: Memory, ghost t: Tree, parent: ptr, which: int)
    requires Stands(m.blocks, t) && Container(t.value) && t.shape.node == parent
    modifies m`blocks
    ensures |t.shape.kids| == |Members(old(m.blocks), t)|
    ensures !(0 <= which < |t.shape.kids|) ==> m.blocks == old(m.blocks)
    ensures 0 <= which < |t.shape.kids| ==>
      && Became(m.blocks, t, RemovedKids(t.shape.kids, which), RemovedKids(Members(old(m.blocks), t), which))
      && m.blocks.Keys == old(m.blocks).Keys - Owned(t.shape.kids[which])
  {
    hide Rep, Members, Owned, OwnedAll, Separate, SeparateAll, Chain, Edit, Became;
    var item := DetachItemFromArray(m, t, parent, which);
    if item != NULL {
      ghost var k := m.blocks;
      ghost var kids, ms := RemovedKids(t.shape.kids, which), RemovedKids(Members(old(m.blocks), t), which);
      LoneChain(k, Kid(old(m.blocks), t, which));
      m.Delete(item, [t.shape.kids[which]]);
      BecameWithout(k, m.blocks, t, kids, ms, Owned(t.shape.kids[which]));
    }
  }

  lemma SeparateReplaced(kids: seq<Shape>, i: nat, x: Shape)
    requires i < |kids| && SeparateAll(kids) && Separate(x) && OwnedAll(kids) !! Owned(x)
    ensures SeparateAll(kids[i := x]) && OwnedAll(kids[i := x]) == OwnedAll(RemovedKids(kids, i)) + Owned(x)
  {
    hide Owned, OwnedAll, Separate, SeparateAll;
    SeparateRemoved(kids, i);
    SeparateInserted(RemovedKids(kids, i), i, x);
    assert InsertedKids(RemovedKids(kids, i), i, x) == kids[i := x];
  }

  lemma ReplacedStands(h: heap, t: Tree, x: Tree, i: nat)
    requires Beside(h, t, x) && i < |t.shape.kids| && |t.shape.kids| == |Members(h, t)|
    ensures var kids, ms := t.shape.kids[i := x.shape], Members(h, t)[i := KidMember(x)];
            forall j :: 0 <= j < |kids| ==> Rep(h, kids[j], ms[j].key, ms[j].value)
  {
    hide Rep, Members, Separate, Owned;
    StandsParts(h, t);
  }

  lemma ReplaceEdited(h: heap, k: heap, t: Tree, x: Tree, i: nat)
    requires Beside(h, t, x) && i < |t.shape.kids| && |t.shape.kids| == |Members(h, t)|
    requires Lists(k, t.shape.node, Nodes(t.shape.kids)[i := x.shape.node])
    requires Relinked(h, k, t.shape.node, Ids(Nodes(t.shape.kids) + [x.shape.node]))
    ensures Became(k, t, t.shape.kids[i := x.shape], Members(h, t)[i := KidMember(x)])
    ensures Owned(t.shape.(kids := t.shape.kids[i := x.shape])) !! Owned(t.shape.kids[i])
  {
    hide Rep, Members, Owned, OwnedAll, Separate, SeparateAll, Lists, Relinked, WithMembers;
    StandsParts(h, t);
    var all, kids, ms := t.shape.kids, t.shape.kids[i := x.shape], Members(h, t)[i := KidMember(x)];
    var ids := Ids(Nodes(all) + [x.shape.node]);
    SeparateReplaced(all, i, x.shape);
    SeparateRemoved(all, i);
    ReplacedStands(h, t, x, i);
    SeparateInserted(all, |all|, x.shape);
    var more := InsertedKids(all, |all|, x.shape);
    assert Nodes(more) == Nodes(all) + [x.shape.node];
    NodesOnly(more, ids);
    OnlyNodesPart(ids, more, kids);
    assert Nodes(kids) == Nodes(all)[i := x.shape.node];
    Edited(h, k, t, ids, kids, ms);
    StandsParts(k, Edit(t, kids, ms));
  }

  /** What replacement needs to know of the child that is to go. */
  lemma Replaceable(h: heap, t: Tree, x: Tree, i: nat)
    requires Beside(h, t, x) && i < |t.shape.kids|
    ensures var sh := t.shape.kids[i];
            && Owns(h, sh) && Separate(sh) && t.shape.node !in Owned(sh)
            && Owned(sh) * Ids(Nodes(t.shape.kids) + [x.shape.node]) <= {sh.node}
  {
    hide Rep, Members, Owned, OwnedAll, Separate, SeparateAll;
    StandsParts(h, t);
    var all := t.shape.kids;
    SeparateRemoved(all, i);
    SeparateInserted(all, |all|, x.shape);
    var more := InsertedKids(all, |all|, x.shape);
    assert Nodes(more) == Nodes(all) + [x.shape.node];
    NodesOnly(more, Ids(Nodes(more)));
    assert more[i] == all[i];
    RepOwns(h, all[i], Members(h, t)[i].key, Members(h, t)[i].value);
    OwnedAllAt(all, i);
  }

  /** cJSON_ReplaceItemInArray puts the new child in place and frees exactly the blocks of the old one. */
  method ReplaceItemInArray(m: Memory, ghost t: Tree, ghost x: Tree, parent: ptr, which: int, item: ptr) returns (ok: bool)
    requires Beside(m.blocks, t, x) && t.shape.node == parent && x.shape.node == item
    modifies m`blocks
    ensures |t.shape.kids| == |Members(old(m.blocks), t)|
    ensures ok <==> 0 <= which < |t.shape.kids|
    ensures !ok ==> m.blocks == old(m.blocks)
    ensures ok ==>
      && Became(m.blocks, t, t.shape.kids[which := x.shape], Members(old(m.blocks), t)[which := KidMember(x)])
      && m.blocks.Keys == old(m.blocks).Keys - Owned(t.shape.kids[which])
  {
    hide Rep, Members, Owned, OwnedAll, Separate, SeparateAll, Relinked, Owns, Became;
    BesideLists(m.blocks, t, x);
    if which < 0 {
      return false;
    }
    ghost var ids := Nodes(t.shape.kids);
    var found := GetArrayItem(m, parent, which, ids);
    if which < |ids| {
      assert LinkAt(m.blocks, ids, which);
      Replaceable(m.blocks, t, x, which);
    }
    ghost var i := if which < |ids| then which else 0;
    ghost var sh := if which < |ids| then t.shape.kids[which] else x.shape;
    ghost var k;
    ok, k := ReplaceItemViaPointer(m, parent, found, item, ids, i, sh);
    if ok {
      ReplaceEdited(old(m.blocks), k, t, x, which);
      BecameWithout(k, m.blocks, t, t.shape.kids[which := x.shape], Members(old(m.blocks), t)[which := KidMember(x)], Owned(sh));
      SameKeys(old(m.blocks), k, parent, Ids(ids + [item]));
    }
  }

  lemma SameKeys(h: heap, k: heap, parent: ptr, touched: set<ptr>)
    requires Relinked(h, k, parent, touched)
    ensures k.Keys == h.Keys
  {
  }
}
