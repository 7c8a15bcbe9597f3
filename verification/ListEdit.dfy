/** Editing the child list of an array or object: append, insert, detach, replace. */
module ListEdit {
  import opened Text
  import opened Heap
  import opened HeapTree

  function NextIn(ids: seq<ptr>, i: nat): (p: ptr)
    requires i < |ids|
  {
    if i + 1 < |ids| then ids[i + 1] else NULL
  }

  /** The head's prev is the tail. */
  function PrevIn(ids: seq<ptr>, i: nat): (p: ptr)
    requires i < |ids|
  {
    if i > 0 then ids[i - 1] else ids[|ids| - 1]
  }

  /** The sibling links of the node at position `i` of a list. */
  predicate LinkAt(h: heap, ids: seq<ptr>, i: nat)
    requires i < |ids|
  {
    ids[i] != NULL && IsNode(h, ids[i]) && h[ids[i]].next == NextIn(ids, i) && h[ids[i]].prev == PrevIn(ids, i)
  }

  predicate Distinct(ids: seq<ptr>) {
    forall i, j :: 0 <= i < j < |ids| ==> ids[i] != ids[j]
  }

  /** The children of `parent` are the nodes `ids`, linked both ways, the head's prev being the tail. */
  predicate Lists(h: heap, parent: ptr, ids: seq<ptr>) {
    && parent != NULL && IsNode(h, parent) && parent !in ids && Distinct(ids)
    && h[parent].child == (if ids == [] then NULL else ids[0])
    && forall i :: 0 <= i < |ids| ==> LinkAt(h, ids, i)
  }

  /** An item that is in no list. */
  predicate Detached(h: heap, item: ptr) {
    item != NULL && IsNode(h, item) && h[item].next == NULL && h[item].prev == NULL
  }

  /** Between the heaps only sibling links of `touched` and the parent's child pointer differ. */
  ghost predicate Relinked(h: heap, k: heap, parent: ptr, touched: set<ptr>) {
    && k.Keys == h.Keys && IsNode(h, parent) && IsNode(k, parent)
    && (forall p :: p in h && p != parent && p !in touched ==> k[p] == h[p])
    && (forall p :: p in h && p != parent && p in touched ==> SameButLinks(h[p], k[p]))
    && k[parent] == h[parent].(child := k[parent].child)
  }

  function WithNext(h: heap, p: ptr, x: ptr): (k: heap) {
    if IsNode(h, p) then h[p := h[p].(next := x)] else h
  }

  function WithPrev(h: heap, p: ptr, x: ptr): (k: heap) {
    if IsNode(h, p) then h[p := h[p].(prev := x)] else h
  }

  function WithChild(h: heap, p: ptr, x: ptr): (k: heap) {
    if IsNode(h, p) then h[p := h[p].(child := x)] else h
  }

  method SetNext(m: Memory, p: ptr, x: ptr)
    requires IsNode(m.blocks, p)
    modifies m`blocks
    ensures m.blocks == WithNext(old(m.blocks), p, x)
  {
    m.blocks := m.blocks[p := m.blocks[p].(next := x)];
  }

  method SetPrev(m: Memory, p: ptr, x: ptr)
    requires IsNode(m.blocks, p)
    modifies m`blocks
    ensures m.blocks == WithPrev(old(m.blocks), p, x)
  {
    m.blocks := m.blocks[p := m.blocks[p].(prev := x)];
  }

  method SetChild(m: Memory, p: ptr, x: ptr)
    requires IsNode(m.blocks, p)
    modifies m`blocks
    ensures m.blocks == WithChild(old(m.blocks), p, x)
  {
    m.blocks := m.blocks[p := m.blocks[p].(child := x)];
  }

  lemma Apart(ids: seq<ptr>, i: nat, j: nat)
    requires Distinct(ids) && i < |ids| && j < |ids|
    ensures ids[i] == ids[j] <==> i == j
  {
  }

  /** get_array_item: the node at a position, or NULL beyond the end. */
  method GetArrayItem(m: Memory, parent: ptr, index: nat, ghost ids: seq<ptr>) returns (item: ptr)
    requires Lists(m.blocks, parent, ids)
    ensures item == if index < |ids| then ids[index] else NULL
  {
    item := m.blocks[parent].child;
    var left := index;
    ghost var i := 0;
    assert ids != [] ==> LinkAt(m.blocks, ids, 0);
    while item != NULL && left > 0
      invariant 0 <= i <= |ids| && i + left == index
      invariant item == if i < |ids| then ids[i] else NULL
      invariant i < |ids| ==> LinkAt(m.blocks, ids, i)
      decreases left
    {
      left := left - 1;
      item := m.blocks[item].next;
      i := i + 1;
      assert i < |ids| ==> LinkAt(m.blocks, ids, i);
    }
  }

  // ---- walking the list both ways ----

  /** The first `n` nodes that next leads to from `p`. */
  function Forward(h: heap, p: ptr, n: nat): (ids: seq<ptr>)
    decreases n
  {
    if n == 0 || !IsNode(h, p) then [] else [p] + Forward(h, h[p].next, n - 1)
  }

  /** The first `n` nodes that prev leads to from `p`, the last one first. */
  function Backward(h: heap, p: ptr, n: nat): (ids: seq<ptr>)
    decreases n
  {
    if n == 0 || !IsNode(h, p) then [] else Backward(h, h[p].prev, n - 1) + [p]
  }

  lemma {:induction false} ForwardFrom(h: heap, parent: ptr, ids: seq<ptr>, i: nat)
    requires Lists(h, parent, ids) && i < |ids|
    ensures Forward(h, ids[i], |ids| - i) == ids[i..]
    decreases |ids| - i
  {
    assert LinkAt(h, ids, i);
    assert ids[i..] == [ids[i]] + ids[i + 1..];
    if i + 1 < |ids| {
      ForwardFrom(h, parent, ids, i + 1);
    }
  }

  lemma {:induction false} BackwardFrom(h: heap, parent: ptr, ids: seq<ptr>, i: nat)
    requires Lists(h, parent, ids) && i < |ids|
    ensures Backward(h, ids[i], i + 1) == ids[..i + 1]
  {
    assert LinkAt(h, ids, i);
    assert ids[..i + 1] == ids[..i] + [ids[i]];
    if i > 0 {
      BackwardFrom(h, parent, ids, i - 1);
    }
  }

  /** A list is read the same in both directions: along next from the head, and along prev from the tail, which the head's prev is. */
  lemma BothWays(h: heap, parent: ptr, ids: seq<ptr>)
    requires Lists(h, parent, ids) && ids != []
    ensures var head := h[parent].child;
            && IsNode(h, head) && Forward(h, head, |ids|) == ids && Backward(h, h[head].prev, |ids|) == ids
            && h[ids[|ids| - 1]].next == NULL
  {
    assert LinkAt(h, ids, 0) && LinkAt(h, ids, |ids| - 1);
    ForwardFrom(h, parent, ids, 0);
    BackwardFrom(h, parent, ids, |ids| - 1);
    assert ids[0..] == ids && ids[..|ids|] == ids;
  }

  // ---- detaching ----

  function Without(ids: seq<ptr>, i: nat): (r: seq<ptr>)
    requires i < |ids|
  {
    ids[..i] + ids[i + 1..]
  }

  /** The heap after the item at position `i` is unlinked. */
  function Unlinked(h: heap, parent: ptr, ids: seq<ptr>, i: nat): (k: heap)
    requires i < |ids|
  {
    var next, prev := NextIn(ids, i), PrevIn(ids, i);
    var h1 := if i > 0 then WithNext(h, prev, next) else h;
    var h2 := if next != NULL then WithPrev(h1, next, prev) else h1;
    var h3 := if i == 0 then WithChild(h2, parent, next)
              else if next == NULL then WithPrev(h2, ids[0], prev)
              else h2;
    WithNext(WithPrev(h3, ids[i], NULL), ids[i], NULL)
  }

  lemma UnlinkedAt(h: heap, parent: ptr, ids: seq<ptr>, i: nat, j: nat)
    requires Lists(h, parent, ids) && i < |ids| && j < |ids| && j != i
    ensures LinkAt(Unlinked(h, parent, ids, i), Without(ids, i), if j < i then j else j - 1)
  {
    assert LinkAt(h, ids, j) && LinkAt(h, ids, i);
    Apart(ids, i, j);
    Apart(ids, 0, j);
    if i > 0 {
      Apart(ids, i - 1, j);
      assert LinkAt(h, ids, i - 1);
    }
    if i + 1 < |ids| {
      Apart(ids, i + 1, j);
      assert LinkAt(h, ids, i + 1);
    }
  }

  lemma UnlinkedLists(h: heap, parent: ptr, ids: seq<ptr>, i: nat)
    requires Lists(h, parent, ids) && i < |ids|
    ensures Lists(Unlinked(h, parent, ids, i), parent, Without(ids, i))
    ensures Detached(Unlinked(h, parent, ids, i), ids[i])
  {
    var k, all := Unlinked(h, parent, ids, i), Without(ids, i);
    assert LinkAt(h, ids, i);
    UnlinkedParent(h, parent, ids, i);
    hide Unlinked, LinkAt;
    forall j | 0 <= j < |all| ensures LinkAt(k, all, j) {
      UnlinkedAt(h, parent, ids, i, if j < i then j else j + 1);
    }
    forall a, b | 0 <= a < b < |all| ensures all[a] != all[b] {
      Apart(ids, if a < i then a else a + 1, if b < i then b else b + 1);
    }
  }

  lemma UnlinkedParent(h: heap, parent: ptr, ids: seq<ptr>, i: nat)
    requires Lists(h, parent, ids) && i < |ids|
    ensures var k := Unlinked(h, parent, ids, i);
            IsNode(k, parent) && k[parent].child == (if Without(ids, i) == [] then NULL else Without(ids, i)[0])
            && Detached(k, ids[i])
  {
    assert LinkAt(h, ids, i);
    if i + 1 < |ids| {
      assert LinkAt(h, ids, i + 1);
    }
  }

  // ---- what an edit leaves alone ----

  lemma RelinkedSame(h: heap, parent: ptr, touched: set<ptr>)
    requires IsNode(h, parent)
    ensures Relinked(h, h, parent, touched)
  {
  }

  lemma RelinkedNext(h: heap, k: heap, parent: ptr, touched: set<ptr>, p: ptr, x: ptr)
    requires Relinked(h, k, parent, touched) && p in touched && p != parent
    ensures Relinked(h, WithNext(k, p, x), parent, touched)
  {
  }

  lemma RelinkedPrev(h: heap, k: heap, parent: ptr, touched: set<ptr>, p: ptr, x: ptr)
    requires Relinked(h, k, parent, touched) && p in touched && p != parent
    ensures Relinked(h, WithPrev(k, p, x), parent, touched)
  {
  }

  lemma RelinkedChild(h: heap, k: heap, parent: ptr, touched: set<ptr>, x: ptr)
    requires Relinked(h, k, parent, touched) && parent !in touched
    ensures Relinked(h, WithChild(k, parent, x), parent, touched)
  {
  }

  function Ids(ids: seq<ptr>): (s: set<ptr>) {
    set p | p in ids
  }

  lemma UnlinkedRelinks(h: heap, parent: ptr, ids: seq<ptr>, i: nat)
    requires Lists(h, parent, ids) && i < |ids|
    ensures Relinked(h, Unlinked(h, parent, ids, i), parent, Ids(ids))
  {
    hide Relinked, WithNext, WithPrev, WithChild, Lists;
    ListsParent(h, parent, ids);
    var t := Ids(ids);
    var next, prev := NextIn(ids, i), PrevIn(ids, i);
    var h1 := if i > 0 then WithNext(h, prev, next) else h;
    var h2 := if next != NULL then WithPrev(h1, next, prev) else h1;
    var h3 := if i == 0 then WithChild(h2, parent, next)
              else if next == NULL then WithPrev(h2, ids[0], prev)
              else h2;
    RelinkedSame(h, parent, t);
    RelinkedNext(h, h, parent, t, prev, next);
    if next != NULL {
      RelinkedPrev(h, h1, parent, t, next, prev);
    }
    RelinkedChild(h, h2, parent, t, next);
    RelinkedPrev(h, h2, parent, t, ids[0], prev);
    RelinkedPrev(h, h3, parent, t, ids[i], NULL);
    RelinkedNext(h, WithPrev(h3, ids[i], NULL), parent, t, ids[i], NULL);
  }

  lemma ListsParent(h: heap, parent: ptr, ids: seq<ptr>)
    requires Lists(h, parent, ids)
    ensures IsNode(h, parent) && parent !in Ids(ids) && parent !in ids
  {
  }

  /** cJSON_DetachItemViaPointer, on an item of the list. */
  method DetachItemViaPointer(m: Memory, parent: ptr, item: ptr, ghost ids: seq<ptr>, ghost i: nat) returns (r: ptr)
    requires parent != NULL && item != NULL ==> Lists(m.blocks, parent, ids) && i < |ids| && ids[i] == item
    modifies m`blocks
    ensures parent == NULL || item == NULL ==> r == NULL && m.blocks == old(m.blocks)
    ensures r != NULL ==> r == item && Detached(m.blocks, item) && Lists(m.blocks, parent, Without(ids, i))
    ensures r != NULL ==> Relinked(old(m.blocks), m.blocks, parent, Ids(ids))
    ensures parent != NULL && item != NULL ==> r != NULL
  {
    if parent == NULL || item == NULL {
      return NULL;
    }
    ghost var h := m.blocks;
    assert LinkAt(h, ids, i) && LinkAt(h, ids, 0);
    Apart(ids, 0, i);
    UnlinkedLists(h, parent, ids, i);
    UnlinkedRelinks(h, parent, ids, i);
    hide Relinked;
    if item != m.blocks[parent].child {
      Apart(ids, i - 1, i);
      assert LinkAt(h, ids, i - 1);
      SetNext(m, m.blocks[item].prev, m.blocks[item].next);
    }
    if m.blocks[item].next != NULL {
      Apart(ids, i, i + 1);
      assert LinkAt(h, ids, i + 1);
      SetPrev(m, m.blocks[item].next, m.blocks[item].prev);
    }
    if item == m.blocks[parent].child {
      SetChild(m, parent, m.blocks[item].next);
    } else if m.blocks[item].next == NULL {
      SetPrev(m, m.blocks[parent].child, m.blocks[item].prev);
    }
    SetPrev(m, item, NULL);
    SetNext(m, item, NULL);
    assert m.blocks == Unlinked(h, parent, ids, i);
    return item;
  }

  // ---- appending ----

  /** The heap after `item` is linked behind the tail. */
  function AppendedTo(h: heap, parent: ptr, ids: seq<ptr>, item: ptr): (k: heap) {
    if ids == [] then WithNext(WithPrev(WithChild(h, parent, item), item, item), item, NULL)
    else
      var tail := ids[|ids| - 1];
      WithPrev(WithPrev(WithNext(h, tail, item), item, tail), ids[0], item)
  }

  lemma AppendedAt(h: heap, parent: ptr, ids: seq<ptr>, item: ptr, j: nat)
    requires Lists(h, parent, ids) && Detached(h, item) && item != parent && item !in ids && j <= |ids|
    ensures LinkAt(AppendedTo(h, parent, ids, item), ids + [item], j)
  {
    if j < |ids| {
      assert LinkAt(h, ids, j) && LinkAt(h, ids, 0) && LinkAt(h, ids, |ids| - 1);
      Apart(ids, 0, j);
      Apart(ids, j, |ids| - 1);
    } else if ids != [] {
      assert LinkAt(h, ids, 0) && LinkAt(h, ids, |ids| - 1);
    }
  }

  lemma AppendedLists(h: heap, parent: ptr, ids: seq<ptr>, item: ptr)
    requires Lists(h, parent, ids) && Detached(h, item) && item != parent && item !in ids
    ensures Lists(AppendedTo(h, parent, ids, item), parent, ids + [item])
    ensures Relinked(h, AppendedTo(h, parent, ids, item), parent, Ids(ids + [item]))
  {
    var k, all := AppendedTo(h, parent, ids, item), ids + [item];
    AppendedRelinks(h, parent, ids, item);
    AppendedParent(h, parent, ids, item);
    hide AppendedTo, LinkAt, Relinked;
    forall j | 0 <= j < |all| ensures LinkAt(k, all, j) {
      AppendedAt(h, parent, ids, item, j);
    }
  }

  lemma AppendedParent(h: heap, parent: ptr, ids: seq<ptr>, item: ptr)
    requires Lists(h, parent, ids) && Detached(h, item) && item != parent && item !in ids
    ensures var k := AppendedTo(h, parent, ids, item); IsNode(k, parent) && k[parent].child == (ids + [item])[0]
  {
    if ids != [] {
      assert LinkAt(h, ids, 0) && LinkAt(h, ids, |ids| - 1);
    }
  }

  lemma AppendedRelinks(h: heap, parent: ptr, ids: seq<ptr>, item: ptr)
    requires Lists(h, parent, ids) && item != parent && item !in ids
    ensures Relinked(h, AppendedTo(h, parent, ids, item), parent, Ids(ids + [item]))
  {
    hide Relinked, WithNext, WithPrev, WithChild, Lists;
    ListsParent(h, parent, ids);
    var t := Ids(ids + [item]);
    RelinkedSame(h, parent, t);
    if ids == [] {
      var h1 := WithChild(h, parent, item);
      RelinkedChild(h, h, parent, t, item);
      RelinkedPrev(h, h1, parent, t, item, item);
      RelinkedNext(h, WithPrev(h1, item, item), parent, t, item, NULL);
    } else {
      var tail := ids[|ids| - 1];
      var h1 := WithNext(h, tail, item);
      RelinkedNext(h, h, parent, t, tail, item);
      RelinkedPrev(h, h1, parent, t, item, tail);
      RelinkedPrev(h, WithPrev(h1, item, tail), parent, t, ids[0], item);
    }
  }

  /** add_item_to_array. */
  method AddItemToArray(m: Memory, parent: ptr, item: ptr, ghost ids: seq<ptr>) returns (ok: bool)
    requires parent != NULL ==> Lists(m.blocks, parent, ids)
    requires item != NULL && item != parent ==> Detached(m.blocks, item) && item !in ids
    modifies m`blocks
    ensures ok <==> item != NULL && parent != NULL && parent != item
    ensures !ok ==> m.blocks == old(m.blocks)
    ensures ok ==> Lists(m.blocks, parent, ids + [item])
    ensures ok ==> Relinked(old(m.blocks), m.blocks, parent, Ids(ids + [item]))
  {
    if item == NULL || parent == NULL || parent == item {
      return false;
    }
    AppendedLists(m.blocks, parent, ids, item);
    var child := m.blocks[parent].child;
    assert ids != [] ==> LinkAt(m.blocks, ids, 0) && LinkAt(m.blocks, ids, |ids| - 1);
    if child == NULL {
      SetChild(m, parent, item);
      SetPrev(m, item, item);
      SetNext(m, item, NULL);
    } else if m.blocks[child].prev != NULL {
      var tail := m.blocks[child].prev;
      SetNext(m, tail, item);
      SetPrev(m, item, tail);
      SetPrev(m, m.blocks[parent].child, item);
    }
    assert m.blocks == AppendedTo(old(m.blocks), parent, ids, item);
    return true;
  }

  // ---- inserting ----

  function Inserted(ids: seq<ptr>, i: nat, item: ptr): (r: seq<ptr>)
    requires i <= |ids|
  {
    ids[..i] + [item] + ids[i..]
  }

  /** The heap after `item` is linked before position `i`. */
  function InsertedAt(h: heap, parent: ptr, ids: seq<ptr>, i: nat, item: ptr): (k: heap)
    requires i < |ids|
  {
    var prev := PrevIn(ids, i);
    var h1 := WithPrev(WithPrev(WithNext(h, item, ids[i]), item, prev), ids[i], item);
    if i == 0 then WithChild(h1, parent, item) else WithNext(h1, prev, item)
  }

  lemma InsertedLink(h: heap, parent: ptr, ids: seq<ptr>, i: nat, item: ptr, j: nat)
    requires Lists(h, parent, ids) && Detached(h, item) && item != parent && item !in ids && i < |ids| && j < |ids|
    ensures LinkAt(InsertedAt(h, parent, ids, i, item), Inserted(ids, i, item), if j < i then j else j + 1)
  {
    assert LinkAt(h, ids, i) && LinkAt(h, ids, j);
    Apart(ids, i, j);
    if i > 0 {
      assert LinkAt(h, ids, i - 1);
      Apart(ids, i - 1, j);
    }
  }

  lemma InsertedNew(h: heap, parent: ptr, ids: seq<ptr>, i: nat, item: ptr)
    requires Lists(h, parent, ids) && Detached(h, item) && item != parent && item !in ids && i < |ids|
    ensures LinkAt(InsertedAt(h, parent, ids, i, item), Inserted(ids, i, item), i)
    ensures var k := InsertedAt(h, parent, ids, i, item);
            IsNode(k, parent) && k[parent].child == Inserted(ids, i, item)[0]
  {
    assert LinkAt(h, ids, i);
    if i > 0 {
      assert LinkAt(h, ids, i - 1);
    }
  }

  lemma InsertedRelinks(h: heap, parent: ptr, ids: seq<ptr>, i: nat, item: ptr)
    requires Lists(h, parent, ids) && item != parent && item !in ids && i < |ids|
    ensures Relinked(h, InsertedAt(h, parent, ids, i, item), parent, Ids(ids + [item]))
  {
    hide Relinked, WithNext, WithPrev, WithChild, Lists;
    ListsParent(h, parent, ids);
    var t, prev := Ids(ids + [item]), PrevIn(ids, i);
    var h1 := WithNext(h, item, ids[i]);
    var h2 := WithPrev(h1, item, prev);
    var h3 := WithPrev(h2, ids[i], item);
    RelinkedSame(h, parent, t);
    RelinkedNext(h, h, parent, t, item, ids[i]);
    RelinkedPrev(h, h1, parent, t, item, prev);
    RelinkedPrev(h, h2, parent, t, ids[i], item);
    RelinkedChild(h, h3, parent, t, item);
    RelinkedNext(h, h3, parent, t, prev, item);
  }

  lemma InsertedLists(h: heap, parent: ptr, ids: seq<ptr>, i: nat, item: ptr)
    requires Lists(h, parent, ids) && Detached(h, item) && item != parent && item !in ids && i < |ids|
    ensures Lists(InsertedAt(h, parent, ids, i, item), parent, Inserted(ids, i, item))
  {
    var k, all := InsertedAt(h, parent, ids, i, item), Inserted(ids, i, item);
    InsertedNew(h, parent, ids, i, item);
    hide InsertedAt, LinkAt;
    forall j | 0 <= j < |all| ensures LinkAt(k, all, j) {
      if j != i {
        InsertedLink(h, parent, ids, i, item, if j < i then j else j - 1);
      }
    }
    forall a, b | 0 <= a < b < |all| ensures all[a] != all[b] {
      if a != i && b != i {
        Apart(ids, if a < i then a else a - 1, if b < i then b else b - 1);
      } else {
        assert all[if a == i then b else a] in ids;
      }
    }
  }

  /** cJSON_InsertItemInArray: before the item at `which`, or at the end when there is none. */
  method InsertItemInArray(m: Memory, parent: ptr, which: int, item: ptr, ghost ids: seq<ptr>) returns (ok: bool)
    requires parent != NULL ==> Lists(m.blocks, parent, ids)
    requires item != NULL && item != parent ==> Detached(m.blocks, item) && item !in ids
    requires parent != NULL && 0 <= which < |ids| ==> item != NULL && item != parent
    modifies m`blocks
    ensures ok <==> which >= 0 && parent != NULL && item != NULL && item != parent
    ensures !ok ==> m.blocks == old(m.blocks)
    ensures ok ==> Lists(m.blocks, parent, Inserted(ids, if which < |ids| then which else |ids|, item))
    ensures ok ==> Relinked(old(m.blocks), m.blocks, parent, Ids(ids + [item]))
  {
    hide Relinked;
    if which < 0 {
      return false;
    }
    var after := NULL;
    if parent != NULL {
      after := GetArrayItem(m, parent, which, ids);
      assert which < |ids| ==> LinkAt(m.blocks, ids, which);
    }
    if after == NULL {
      assert Inserted(ids, |ids|, item) == ids + [item];
      ok := AddItemToArray(m, parent, item, ids);
      return;
    }
    ghost var h := m.blocks;
    InsertedLists(h, parent, ids, which, item);
    InsertedRelinks(h, parent, ids, which, item);
    assert LinkAt(h, ids, which) && LinkAt(h, ids, 0);
    Apart(ids, 0, which);
    SetNext(m, item, after);
    SetPrev(m, item, m.blocks[after].prev);
    SetPrev(m, after, item);
    if after == m.blocks[parent].child {
      SetChild(m, parent, item);
    } else {
      assert LinkAt(h, ids, which - 1);
      SetNext(m, m.blocks[item].prev, item);
    }
    assert m.blocks == InsertedAt(h, parent, ids, which, item);
    return true;
  }

  // ---- replacing ----

  /** The heap after `item` takes the place of the node at position `i`, which is unlinked. */
  function ReplacedAt(h: heap, parent: ptr, ids: seq<ptr>, i: nat, item: ptr): (k: heap)
    requires i < |ids|
  {
    var next, prev := NextIn(ids, i), PrevIn(ids, i);
    var h1 := WithPrev(WithNext(h, item, next), item, prev);
    var h2 := if next != NULL then WithPrev(h1, next, item) else h1;
    var h3 := if i == 0 then if |ids| == 1 then WithPrev(h2, item, item) else h2
              else WithNext(h2, prev, item);
    var h4 := if i == 0 then WithChild(h3, parent, item)
              else if next == NULL then WithPrev(h3, ids[0], item)
              else h3;
    WithPrev(WithNext(h4, ids[i], NULL), ids[i], NULL)
  }

  lemma ReplacedLink(h: heap, parent: ptr, ids: seq<ptr>, i: nat, item: ptr, j: nat)
    requires Lists(h, parent, ids) && Detached(h, item) && item != parent && item !in ids && i < |ids| && j < |ids|
    requires j != i
    ensures LinkAt(ReplacedAt(h, parent, ids, i, item), ids[i := item], j)
  {
    hide Lists, ReplacedAt, LinkAt, Detached;
    if i == 0 {
      ReplacedHeadLink(h, parent, ids, item, j);
    } else {
      ReplacedInnerLink(h, parent, ids, i, item, j);
    }
  }

  lemma ReplacedHeadLink(h: heap, parent: ptr, ids: seq<ptr>, item: ptr, j: nat)
    requires Lists(h, parent, ids) && Detached(h, item) && item != parent && item !in ids && 0 < j < |ids|
    ensures LinkAt(ReplacedAt(h, parent, ids, 0, item), ids[0 := item], j)
  {
    assert LinkAt(h, ids, 0) && LinkAt(h, ids, 1) && LinkAt(h, ids, j);
    Apart(ids, 0, j);
    Apart(ids, 1, j);
  }

  lemma ReplacedInnerLink(h: heap, parent: ptr, ids: seq<ptr>, i: nat, item: ptr, j: nat)
    requires Lists(h, parent, ids) && Detached(h, item) && item != parent && item !in ids && 0 < i < |ids| && j < |ids|
    requires j != i
    ensures LinkAt(ReplacedAt(h, parent, ids, i, item), ids[i := item], j)
  {
    assert LinkAt(h, ids, i) && LinkAt(h, ids, j) && LinkAt(h, ids, i - 1);
    Apart(ids, i, j);
    Apart(ids, 0, j);
    Apart(ids, i - 1, j);
    if i + 1 < |ids| {
      assert LinkAt(h, ids, i + 1);
      Apart(ids, i + 1, j);
    }
    hide Lists, Distinct;
  }

  lemma ReplacedNew(h: heap, parent: ptr, ids: seq<ptr>, i: nat, item: ptr)
    requires Lists(h, parent, ids) && Detached(h, item) && item != parent && item !in ids && i < |ids|
    ensures var k := ReplacedAt(h, parent, ids, i, item);
            && LinkAt(k, ids[i := item], i) && Detached(k, ids[i])
            && IsNode(k, parent) && k[parent].child == ids[i := item][0]
  {
    assert LinkAt(h, ids, i) && LinkAt(h, ids, 0);
    Apart(ids, 0, i);
    if i > 0 {
      assert LinkAt(h, ids, i - 1);
      Apart(ids, i - 1, i);
    }
    if i + 1 < |ids| {
      assert LinkAt(h, ids, i + 1);
      Apart(ids, i, i + 1);
    }
    hide Distinct;
  }

  lemma ReplacedLists(h: heap, parent: ptr, ids: seq<ptr>, i: nat, item: ptr)
    requires Lists(h, parent, ids) && Detached(h, item) && item != parent && item !in ids && i < |ids|
    ensures Lists(ReplacedAt(h, parent, ids, i, item), parent, ids[i := item])
    ensures Detached(ReplacedAt(h, parent, ids, i, item), ids[i])
  {
    var k, all := ReplacedAt(h, parent, ids, i, item), ids[i := item];
    ReplacedNew(h, parent, ids, i, item);
    hide ReplacedAt, LinkAt;
    forall j | 0 <= j < |all| ensures LinkAt(k, all, j) {
      if j != i {
        ReplacedLink(h, parent, ids, i, item, j);
      }
    }
    forall a, b | 0 <= a < b < |all| ensures all[a] != all[b] {
      Apart(ids, a, b);
    }
  }

  lemma ReplacedRelinks(h: heap, parent: ptr, ids: seq<ptr>, i: nat, item: ptr)
    requires Lists(h, parent, ids) && item != parent && item !in ids && i < |ids|
    ensures Relinked(h, ReplacedAt(h, parent, ids, i, item), parent, Ids(ids + [item]))
  {
    hide Relinked, WithNext, WithPrev, WithChild, Lists;
    ListsParent(h, parent, ids);
    var t, next, prev := Ids(ids + [item]), NextIn(ids, i), PrevIn(ids, i);
    RelinkedSame(h, parent, t);
    RelinkedNext(h, h, parent, t, item, next);
    var h0 := WithNext(h, item, next);
    RelinkedPrev(h, h0, parent, t, item, prev);
    var h1 := WithPrev(h0, item, prev);
    if next != NULL {
      RelinkedPrev(h, h1, parent, t, next, item);
    }
    var h2 := if next != NULL then WithPrev(h1, next, item) else h1;
    RelinkedPrev(h, h2, parent, t, item, item);
    RelinkedNext(h, h2, parent, t, prev, item);
    var h3 := if i == 0 then if |ids| == 1 then WithPrev(h2, item, item) else h2 else WithNext(h2, prev, item);
    RelinkedChild(h, h3, parent, t, item);
    RelinkedPrev(h, h3, parent, t, ids[0], item);
    var h4 := if i == 0 then WithChild(h3, parent, item) else if next == NULL then WithPrev(h3, ids[0], item) else h3;
    RelinkedNext(h, h4, parent, t, ids[i], NULL);
    RelinkedPrev(h, WithNext(h4, ids[i], NULL), parent, t, ids[i], NULL);
  }

  /** A node keeps owning what it owned when only its own sibling links and blocks elsewhere change. */
  lemma OwnsRelinked(h: heap, k: heap, parent: ptr, touched: set<ptr>, sh: Shape)
    requires Relinked(h, k, parent, touched) && Owns(h, sh) && Separate(sh)
    requires parent !in Owned(sh) && Owned(sh) * touched <= {sh.node}
    ensures Owns(k, sh)
  {
    OwnedLive(h, sh);
    assert sh.node in Owned(sh);
    if !h[sh.node].isReference {
      ChainFrame(h, k, h[sh.node].child, sh.kids);
    }
  }

  /** cJSON_ReplaceItemViaPointer: the replaced item is deleted with all it owns. */
  method ReplaceItemViaPointer(m: Memory, parent: ptr, item: ptr, replacement: ptr,
                               ghost ids: seq<ptr>, ghost i: nat, ghost sh: Shape)
    returns (ok: bool, ghost k: heap)
    requires parent != NULL && item != NULL && replacement != NULL ==>
      && Lists(m.blocks, parent, ids) && i < |ids| && ids[i] == item
      && (replacement != item ==>
          && Detached(m.blocks, replacement) && replacement != parent && replacement !in ids
          && sh.node == item && Owns(m.blocks, sh) && Separate(sh)
          && parent !in Owned(sh) && Owned(sh) * Ids(ids + [replacement]) <= {item})
    modifies m`blocks
    ensures ok <==> parent != NULL && item != NULL && replacement != NULL
    ensures !ok || replacement == item ==> m.blocks == old(m.blocks)
    ensures ok && replacement != item ==> Lists(m.blocks, parent, ids[i := replacement])
    ensures ok && replacement != item ==>
      && Relinked(old(m.blocks), k, parent, Ids(ids + [replacement])) && Lists(k, parent, ids[i := replacement])
      && m.blocks == k - Owned(sh)
  {
    k := m.blocks;
    if parent == NULL || replacement == NULL || item == NULL {
      return false, k;
    }
    if replacement == item {
      return true, k;
    }
    ghost var h := m.blocks;
    ReplaceLinks(m, parent, item, replacement, ids, i);
    k := m.blocks;
    OwnsRelinked(h, k, parent, Ids(ids + [replacement]), sh);
    assert [sh][1..] == [];
    m.Delete(item, [sh]);
    assert m.blocks == k - Owned(sh);
    Survives(k, m.blocks, parent, ids[i := replacement], Owned(sh));
    ok := true;
  }

  lemma Survives(k: heap, g: heap, parent: ptr, ids: seq<ptr>, gone: set<ptr>)
    requires Lists(k, parent, ids) && g == k - gone && parent !in gone && gone !! Ids(ids)
    ensures Lists(g, parent, ids)
  {
    forall j | 0 <= j < |ids| ensures LinkAt(g, ids, j) {
      assert LinkAt(k, ids, j);
      assert ids[j] in Ids(ids);
    }
  }

  /** The relinking half of cJSON_ReplaceItemViaPointer. */
  method ReplaceLinks(m: Memory, parent: ptr, item: ptr, replacement: ptr, ghost ids: seq<ptr>, ghost i: nat)
    requires Lists(m.blocks, parent, ids) && i < |ids| && ids[i] == item
    requires Detached(m.blocks, replacement) && replacement != parent && replacement !in ids
    modifies m`blocks
    ensures Lists(m.blocks, parent, ids[i := replacement]) && Detached(m.blocks, item)
    ensures Relinked(old(m.blocks), m.blocks, parent, Ids(ids + [replacement]))
  {
    hide Relinked;
    ghost var h := m.blocks;
    ReplacedLists(h, parent, ids, i, replacement);
    ReplacedRelinks(h, parent, ids, i, replacement);
    assert LinkAt(h, ids, i) && LinkAt(h, ids, 0);
    Apart(ids, 0, i);
    SetNext(m, replacement, m.blocks[item].next);
    SetPrev(m, replacement, m.blocks[item].prev);
    if m.blocks[replacement].next != NULL {
      assert LinkAt(h, ids, i + 1);
      Apart(ids, i, i + 1);
      SetPrev(m, m.blocks[replacement].next, replacement);
    }
    if m.blocks[parent].child == item {
      Apart(ids, 0, |ids| - 1);
      if m.blocks[item].prev == item {
        SetPrev(m, replacement, replacement);
      }
      SetChild(m, parent, replacement);
    } else {
      assert LinkAt(h, ids, i - 1);
      Apart(ids, i - 1, i);
      if m.blocks[replacement].prev != NULL {
        SetNext(m, m.blocks[replacement].prev, replacement);
      }
      if m.blocks[replacement].next == NULL {
        SetPrev(m, m.blocks[parent].child, replacement);
      }
    }
    SetNext(m, item, NULL);
    SetPrev(m, item, NULL);
    assert m.blocks == ReplacedAt(h, parent, ids, i, replacement);
  }
}
