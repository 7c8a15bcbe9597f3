/** The C heap of the tree nodes and strings, who owns which block, and cJSON_Delete. */
module Heap {
  import opened Text
  import opened Numbers

  type ptr = nat

  const NULL: ptr := 0

  datatype Kind =
    NoKind | NullKind | FalseKind | TrueKind | NumberKind | RawKind | StringKind | ArrayKind | ObjectKind

  /** An allocated block: a struct cJSON or the bytes of a string before its terminator. */
  datatype Block =
    | Node(kind: Kind, next: ptr, prev: ptr, child: ptr, text: ptr, key: ptr, number: Double, integer: int,
           isReference: bool, constKey: bool)
    | Chars(bytes: seq<byte>)

  const BLANK := Node(NoKind, NULL, NULL, NULL, NULL, NULL, Finite(0.0), 0, false, false)

  /** The live allocations and their contents. */
  type heap = map<ptr, Block>

  predicate IsNode(h: heap, p: ptr) {
    p in h && h[p].Node?
  }

  predicate IsChars(h: heap, p: ptr) {
    p in h && h[p].Chars?
  }

  // ---------------------------------------------------------------- ownership

  /** The pointers a node owns: itself, its strings and its children. */
  datatype Shape = Shape(node: ptr, text: ptr, key: ptr, kids: seq<Shape>)

  function Opt(p: ptr): (s: set<ptr>) {
    if p == NULL then {} else {p}
  }

  function Owned(sh: Shape): (s: set<ptr>)
    decreases sh, 0
  {
    {sh.node} + Opt(sh.text) + Opt(sh.key) + OwnedAll(sh.kids)
  }

  function OwnedAll(shs: seq<Shape>): (s: set<ptr>)
    decreases shs, 1
  {
    if shs == [] then {} else Owned(shs[0]) + OwnedAll(shs[1..])
  }

  /** No block is owned twice. */
  predicate Separate(sh: Shape)
    decreases sh, 0
  {
    && sh.node != sh.text && sh.node != sh.key && (sh.text == sh.key ==> sh.text == NULL)
    && {sh.node} + Opt(sh.text) + Opt(sh.key) !! OwnedAll(sh.kids)
    && SeparateAll(sh.kids)
  }

  predicate SeparateAll(shs: seq<Shape>)
    decreases shs, 1
  {
    shs != [] ==> Separate(shs[0]) && Owned(shs[0]) !! OwnedAll(shs[1..]) && SeparateAll(shs[1..])
  }

  /** `sh` is what the node owns in `h`; references own neither child nor text, constant keys are not owned. */
  predicate Owns(h: heap, sh: Shape)
    decreases sh, 0
  {
    && IsNode(h, sh.node)
    && var n := h[sh.node];
    && sh.text == (if n.isReference then NULL else n.text)
    && sh.key == (if n.constKey then NULL else n.key)
    && (sh.text != NULL ==> IsChars(h, sh.text))
    && (sh.key != NULL ==> IsChars(h, sh.key))
    && (if n.isReference then sh.kids == [] else Chain(h, n.child, sh.kids))
  }

  /** The nodes from `p` on along next are those of `shs`, in this order. */
  predicate Chain(h: heap, p: ptr, shs: seq<Shape>)
    decreases shs, 1
  {
    if shs == [] then p == NULL
    else p == shs[0].node && p != NULL && Owns(h, shs[0]) && Chain(h, h[p].next, shs[1..])
  }

  /** The heaps hold the same blocks at `s`. */
  ghost predicate SameOn(h: heap, k: heap, s: set<ptr>) {
    forall p :: p in s ==> p in h && p in k && h[p] == k[p]
  }

  lemma {:induction false} OwnsFrame(h: heap, k: heap, sh: Shape)
    requires Owns(h, sh) && SameOn(h, k, Owned(sh))
    ensures Owns(k, sh)
    decreases sh, 0
  {
    assert sh.node in Owned(sh);
    if !h[sh.node].isReference {
      ChainFrame(h, k, h[sh.node].child, sh.kids);
    }
  }

  lemma {:induction false} ChainFrame(h: heap, k: heap, p: ptr, shs: seq<Shape>)
    requires Chain(h, p, shs) && SameOn(h, k, OwnedAll(shs))
    ensures Chain(k, p, shs)
    decreases shs, 1
  {
    if shs != [] {
      assert p in Owned(shs[0]);
      OwnsFrame(h, k, shs[0]);
      ChainFrame(h, k, h[p].next, shs[1..]);
    }
  }

  lemma {:induction false} OwnedLive(h: heap, sh: Shape)
    requires Owns(h, sh)
    ensures Owned(sh) <= h.Keys
    decreases sh, 0
  {
    if !h[sh.node].isReference {
      ChainLive(h, h[sh.node].child, sh.kids);
    }
  }

  lemma {:induction false} ChainLive(h: heap, p: ptr, shs: seq<Shape>)
    requires Chain(h, p, shs)
    ensures OwnedAll(shs) <= h.Keys
    decreases shs, 1
  {
    if shs != [] {
      OwnedLive(h, shs[0]);
      ChainLive(h, h[p].next, shs[1..]);
    }
  }

  lemma {:induction false} OwnedAllSplit(a: seq<Shape>, b: seq<Shape>)
    ensures OwnedAll(a + b) == OwnedAll(a) + OwnedAll(b)
    ensures SeparateAll(a + b) <==> SeparateAll(a) && SeparateAll(b) && OwnedAll(a) !! OwnedAll(b)
  {
    if a == [] {
      assert a + b == b;
    } else {
      assert (a + b)[1..] == a[1..] + b;
      OwnedAllSplit(a[1..], b);
    }
  }

  lemma UpperBound(s: set<ptr>) returns (bound: ptr)
    ensures forall p :: p in s ==> p < bound
  {
    if s == {} {
      bound := 0;
    } else {
      var p :| p in s;
      var b := UpperBound(s - {p});
      bound := if p < b then b else p + 1;
      forall q | q in s ensures q < bound {
        assert q == p || q in s - {p};
      }
    }
  }

  lemma ChainStep(h: heap, p: ptr, shs: seq<Shape>)
    requires Chain(h, p, shs) && p != NULL
    ensures shs != [] && p == shs[0].node && Owns(h, shs[0]) && IsNode(h, p) && Chain(h, h[p].next, shs[1..])
  {
  }

  lemma ChainEnd(h: heap, shs: seq<Shape>)
    requires Chain(h, NULL, shs)
    ensures shs == [] && OwnedAll(shs) == {}
  {
  }

  lemma SeparateStep(shs: seq<Shape>)
    requires SeparateAll(shs) && shs != []
    ensures Separate(shs[0]) && SeparateAll(shs[1..])
    ensures OwnedAll(shs) == Owned(shs[0]) + OwnedAll(shs[1..]) && Owned(shs[0]) !! OwnedAll(shs[1..])
  {
  }

  class Memory {
    var blocks: heap
    /** Set when the allocator turned a request down. */
    var refused: bool

    ghost predicate Valid()
      reads this
    {
      NULL !in blocks
    }

    /** malloc; any request may be turned down. */
    method Allocate(b: Block) returns (p: ptr)
      requires Valid()
      modifies this
      ensures Valid()
      ensures p == NULL ==> refused && blocks == old(blocks)
      ensures p != NULL ==> refused == old(refused) && p !in old(blocks) && blocks == old(blocks)[p := b]
    {
      if * {
        refused := true;
        return NULL;
      }
      ghost var bound := UpperBound(blocks.Keys + {NULL});
      assert bound != NULL && bound !in blocks;
      p :| p != NULL && p !in blocks;
      blocks := blocks[p := b];
    }

    /** free: only a live block, so never twice. */
    method Free(p: ptr)
      requires p in blocks
      modifies this`blocks
      ensures blocks == old(blocks) - {p}
    {
      blocks := blocks - {p};
    }

    /** cJSON_Delete frees exactly what the list owns, each block once. */
    method Delete(list: ptr, ghost shs: seq<Shape>)
      requires Chain(blocks, list, shs) && SeparateAll(shs)
      modifies this`blocks
      ensures blocks == old(blocks) - OwnedAll(shs)
      decreases shs, 1
    {
      hide Chain, Owns, Owned, OwnedAll, Separate, SeparateAll;
      var item := list;
      ghost var left := shs;
      ghost var gone: set<ptr> := {};
      while item != NULL
        invariant Chain(blocks, item, left) && SeparateAll(left)
        invariant gone + OwnedAll(left) == OwnedAll(shs) && gone !! OwnedAll(left)
        invariant blocks == old(blocks) - gone
        invariant |left| <= |shs| && left == shs[|shs| - |left|..]
        decreases left
      {
        ChainStep(blocks, item, left);
        SeparateStep(left);
        var next := blocks[item].next;
        ghost var rest := left[1..];
        ghost var before := blocks;
        ChainLive(blocks, next, rest);
        assert left[0] in shs;
        DeleteNode(item, left[0]);
        ChainFrame(before, blocks, next, rest);
        gone := gone + Owned(left[0]);
        item, left := next, rest;
      }
      ChainEnd(blocks, left);
    }

    /** One node with its children and strings. */
    method DeleteNode(item: ptr, ghost sh: Shape)
      requires Owns(blocks, sh) && Separate(sh) && sh.node == item
      modifies this`blocks
      ensures blocks == old(blocks) - Owned(sh)
      decreases sh, 0
    {
      var n := blocks[item];
      ghost var h := blocks;
      OwnedLive(blocks, sh);
      if !n.isReference && n.child != NULL {
        Delete(n.child, sh.kids);
      }
      if !n.isReference && n.text != NULL {
        Free(n.text);
      }
      if !n.constKey && n.key != NULL {
        Free(n.key);
      }
      Free(item);
    }
  }
}
