/** The fragment statistics of a bitmap of used pages. */
module BuddyStats {
  import opened Bitmap
  import opened Fragment

  /** Number of set bits in positions [from, end). */
  function Ones(words: seq<nat>, from: nat, end: nat): (n: nat)
    requires from <= end <= WORD * |words|
    decreases end - from
  {
    if from == end then 0 else (if BitAt(words, from) then 1 else 0) + Ones(words, from + 1, end)
  }

  /** The end of the run of set bits that starts at `p`. */
  function RunEnd(words: seq<nat>, nbits: nat, p: nat): (e: nat)
    requires p <= nbits <= WORD * |words|
    ensures p <= e <= nbits
    ensures forall q :: p <= q < e ==> BitAt(words, q)
    ensures e < nbits ==> !BitAt(words, e)
    decreases nbits - p
  {
    if p == nbits || !BitAt(words, p) then p else RunEnd(words, nbits, p + 1)
  }

  /** The greedy blocks of every maximal run of set bits from `p` on. */
  function Plan(words: seq<nat>, nbits: nat, p: nat): (blocks: seq<nat>)
    requires p <= nbits <= WORD * |words|
    decreases nbits - p
  {
    if p == nbits then [] else
    if !BitAt(words, p) then Plan(words, nbits, p + 1) else
    var e := RunEnd(words, nbits, p);
    Greedy(p, e - p) + Plan(words, nbits, e)
  }

  function Count(blocks: seq<nat>, k: nat): (n: nat) {
    if blocks == [] then 0 else (if blocks[0] == k then 1 else 0) + Count(blocks[1..], k)
  }

  lemma {:induction false} CountAppend(a: seq<nat>, b: seq<nat>, k: nat)
    ensures Count(a + b, k) == Count(a, k) + Count(b, k)
  {
    if a == [] {
      assert a + b == b;
    } else {
      CountAppend(a[1..], b, k);
      assert (a + b)[1..] == a[1..] + b;
    }
  }

  /** Sum over the orders of 2^order times the number of blocks of that order. */
  function Weighted(nr: seq<nat>): (n: nat) {
    if nr == [] then 0 else Weighted(nr[..|nr| - 1]) + Pow2(|nr| - 1) * nr[|nr| - 1]
  }

  lemma {:induction false} WeightedBump(nr: seq<nat>, k: nat)
    requires k < |nr|
    ensures Weighted(nr[k := nr[k] + 1]) == Weighted(nr) + Pow2(k)
  {
    var last := |nr| - 1;
    var bumped := nr[k := nr[k] + 1];
    if k == last {
      assert bumped[..last] == nr[..last];
      assert Pow2(k) * (nr[k] + 1) == Pow2(k) * nr[k] + Pow2(k);
    } else {
      assert bumped[..last] == nr[..last][k := nr[k] + 1];
      WeightedBump(nr[..last], k);
    }
  }

  lemma {:induction false} OnesOfRun(words: seq<nat>, from: nat, mid: nat, end: nat, value: bool)
    requires from <= mid <= end <= WORD * |words|
    requires forall q :: from <= q < mid ==> BitAt(words, q) == value
    ensures Ones(words, from, end) == (if value then mid - from else 0) + Ones(words, mid, end)
    decreases mid - from
  {
    hide BitAt;
    if from < mid {
      OnesOfRun(words, from + 1, mid, end, value);
    }
  }

  lemma {:induction false} RunEndIs(words: seq<nat>, nbits: nat, p: nat, e: nat)
    requires p <= e <= nbits <= WORD * |words|
    requires forall q :: p <= q < e ==> BitAt(words, q)
    requires e < nbits ==> !BitAt(words, e)
    ensures RunEnd(words, nbits, p) == e
    decreases e - p
  {
    hide BitAt;
    if p < e {
      RunEndIs(words, nbits, p + 1, e);
    }
  }

  lemma {:induction false} PlanSkips(words: seq<nat>, nbits: nat, p: nat, q: nat)
    requires p <= q <= nbits <= WORD * |words|
    requires forall r :: p <= r < q ==> !BitAt(words, r)
    ensures Plan(words, nbits, p) == Plan(words, nbits, q)
    decreases q - p
  {
    hide BitAt;
    if p < q {
      PlanSkips(words, nbits, p + 1, q);
    }
  }

  lemma PlanRun(words: seq<nat>, nbits: nat, p: nat, e: nat, k: nat)
    requires p < e <= nbits <= WORD * |words|
    requires forall q :: p <= q < e ==> BitAt(words, q)
    requires e < nbits ==> !BitAt(words, e)
    ensures Plan(words, nbits, p) == Greedy(p, e - p) + Plan(words, nbits, e)
    ensures Count(Plan(words, nbits, p), k) == Count(Greedy(p, e - p), k) + Count(Plan(words, nbits, e), k)
  {
    hide BitAt, Greedy, Count;
    RunEndIs(words, nbits, p, e);
    CountAppend(Greedy(p, e - p), Plan(words, nbits, e), k);
  }

  lemma SinglePage(first: nat)
    ensures Greedy(first, 1) == [0]
  {
    hide Aligned, Order;
    var o := Order(first, 1);
    OrderIsLargest(first, 1, o);
    OrderIsLargest(first, 1, 1);
    assert o == 0;
  }

  /** An account of the bitmap page by page: free pages, and blocks of used pages. */
  datatype Piece = Free | Used(order: nat)

  /** The pieces cover positions [p, nbits) exactly, each used block aligned and of order at most 10. */
  predicate Covers(words: seq<nat>, nbits: nat, p: nat, pieces: seq<Piece>)
    requires p <= nbits <= WORD * |words|
    decreases |pieces|
  {
    if pieces == [] then p == nbits else
    match pieces[0]
    case Free => p < nbits && !BitAt(words, p) && Covers(words, nbits, p + 1, pieces[1..])
    case Used(o) =>
      && Fits(p, nbits - p, o)
      && (forall q :: p <= q < p + Pow2(o) ==> BitAt(words, q))
      && Covers(words, nbits, p + Pow2(o), pieces[1..])
  }

  function UsedBlocks(pieces: seq<Piece>): (n: nat) {
    if pieces == [] then 0 else (if pieces[0].Used? then 1 else 0) + UsedBlocks(pieces[1..])
  }

  lemma FreePiece(words: seq<nat>, nbits: nat, p: nat, pieces: seq<Piece>)
    requires p < nbits <= WORD * |words| && Covers(words, nbits, p, pieces) && !BitAt(words, p)
    ensures pieces != [] && pieces[0].Free? && Covers(words, nbits, p + 1, pieces[1..])
  {
    hide BitAt;
    if pieces[0].Used? {
      assert Pow2(pieces[0].order) > 0;
    }
  }

  /** Inside a run, a cover is a tiling of that run followed by a cover of the rest. */
  lemma {:induction false} SplitRun(words: seq<nat>, nbits: nat, p: nat, e: nat, pieces: seq<Piece>)
    returns (blocks: seq<nat>, rest: seq<Piece>)
    requires p <= e <= nbits <= WORD * |words| && Covers(words, nbits, p, pieces)
    requires forall q :: p <= q < e ==> BitAt(words, q)
    requires e < nbits ==> !BitAt(words, e)
    ensures Tiles(p, e - p, blocks)
    ensures Covers(words, nbits, e, rest)
    ensures UsedBlocks(pieces) == |blocks| + UsedBlocks(rest)
    decreases |pieces|
  {
    hide BitAt, Pow2, Aligned;
    if p == e {
      return [], pieces;
    }
    var o := pieces[0].order;
    FitsAt(p, nbits - p, o);
    assert p + Pow2(o) <= e;
    blocks, rest := SplitRun(words, nbits, p + Pow2(o), e, pieces[1..]);
    blocks := [o] + blocks;
  }

  /** No account of the bitmap uses fewer blocks than the greedy plan. */
  lemma {:induction false} PlanIsOptimal(words: seq<nat>, nbits: nat, p: nat, pieces: seq<Piece>)
    requires p <= nbits <= WORD * |words| && Covers(words, nbits, p, pieces)
    ensures |Plan(words, nbits, p)| <= UsedBlocks(pieces)
    decreases nbits - p
  {
    hide BitAt, Greedy, Covers, Tiles;
    if p < nbits {
      if !BitAt(words, p) {
        FreePiece(words, nbits, p, pieces);
        PlanIsOptimal(words, nbits, p + 1, pieces[1..]);
      } else {
        var e := RunEnd(words, nbits, p);
        var blocks, rest := SplitRun(words, nbits, p, e, pieces);
        GreedyIsOptimal(p, e - p, blocks);
        PlanIsOptimal(words, nbits, e, rest);
      }
    }
  }

  lemma {:induction false} JoinRun(words: seq<nat>, nbits: nat, p: nat, e: nat, blocks: seq<nat>, rest: seq<Piece>)
    returns (pieces: seq<Piece>)
    requires p <= e <= nbits <= WORD * |words| && Covers(words, nbits, e, rest)
    requires forall q :: p <= q < e ==> BitAt(words, q)
    requires Tiles(p, e - p, blocks)
    ensures Covers(words, nbits, p, pieces)
    ensures UsedBlocks(pieces) == |blocks| + UsedBlocks(rest)
    decreases |blocks|
  {
    hide BitAt, Pow2, Aligned;
    if blocks == [] {
      return rest;
    }
    FitsAt(p, e - p, blocks[0]);
    pieces := JoinRun(words, nbits, p + Pow2(blocks[0]), e, blocks[1..], rest);
    pieces := [Used(blocks[0])] + pieces;
  }

  /** The greedy plan is itself such an account. */
  lemma {:induction false} PlanCovers(words: seq<nat>, nbits: nat, p: nat) returns (pieces: seq<Piece>)
    requires p <= nbits <= WORD * |words|
    ensures Covers(words, nbits, p, pieces) && UsedBlocks(pieces) == |Plan(words, nbits, p)|
    decreases nbits - p
  {
    hide BitAt, Greedy, Tiles;
    if p == nbits {
      return [];
    }
    if !BitAt(words, p) {
      pieces := PlanCovers(words, nbits, p + 1);
      pieces := [Free] + pieces;
    } else {
      var e := RunEnd(words, nbits, p);
      pieces := PlanCovers(words, nbits, e);
      GreedyTiles(p, e - p);
      pieces := JoinRun(words, nbits, p, e, Greedy(p, e - p), pieces);
    }
  }

  class BuddyStat {
    const nr: array<nat>
    var used: nat

    ghost predicate Valid()
      reads this, nr
    {
      nr.Length == MAX_ORDER && Weighted(nr[..]) == used
    }

    constructor ()
      ensures Valid() && fresh(nr) && used == 0
      ensures forall k :: 0 <= k < MAX_ORDER ==> nr[k] == 0
    {
      nr := new nat[MAX_ORDER](_ => 0);
      used := 0;
      new;
      AllZero(nr[..]);
    }

    method Bump(k: nat)
      requires k < nr.Length
      modifies nr
      ensures nr[..] == old(nr[..])[k := old(nr[k]) + 1]
      ensures Weighted(nr[..]) == old(Weighted(nr[..])) + Pow2(k)
    {
      nr[k] := nr[k] + 1;
      WeightedBump(old(nr[..]), k);
    }

    /** buddy_stat_mark_used. */
    method MarkUsed(start: nat, pages: nat)
      requires nr.Length == MAX_ORDER
      modifies nr
      ensures forall k :: 0 <= k < MAX_ORDER ==> nr[k] == old(nr[k]) + Count(Greedy(start, pages), k)
      ensures Weighted(nr[..]) == old(Weighted(nr[..])) + pages
    {
      hide Pow2, Weighted, Greedy, Order, Fits;
      var first: nat, len: nat := start, pages;
      while len > 0
        invariant len <= pages
        invariant Weighted(nr[..]) == old(Weighted(nr[..])) + pages - len
        invariant forall k :: 0 <= k < MAX_ORDER ==>
          nr[k] + Count(Greedy(first, len), k) == old(nr[k]) + Count(Greedy(start, pages), k)
      {
        var min := Order(first, len);
        OrderIsLargest(first, len, min);
        FitsAt(first, len, min);
        GreedyShape(first, len);
        Bump(min);
        forall k | 0 <= k < MAX_ORDER
          ensures Count(Greedy(first, len), k)
               == Count([min], k) + Count(Greedy(first + Pow2(min), len - Pow2(min)), k)
        {
          CountAppend([min], Greedy(first + Pow2(min), len - Pow2(min)), k);
        }
        first, len := first + Pow2(min), len - Pow2(min);
      }
      NoGreedy(first);
    }

    /** One round of buddy_stat_generate: the run [first, end). */
    method Account(first: nat, end: nat)
      requires Valid() && first < end
      modifies this, nr
      ensures Valid() && used == old(used) + (end - first)
      ensures forall k :: 0 <= k < MAX_ORDER ==> nr[k] == old(nr[k]) + Count(Greedy(first, end - first), k)
    {
      hide Weighted, Greedy;
      var len := end - first;
      used := used + len;
      if len > 1 {
        MarkUsed(first, len);
      } else {
        SinglePage(first);
        Bump(0);
      }
    }

    /** buddy_stat_generate. */
    method Generate(words: seq<nat>, max: nat)
      requires Valid() && IsBitmap(words, max)
      modifies this, nr
      ensures Valid()
      ensures used == old(used) + Ones(words, 0, max)
      ensures forall k :: 0 <= k < MAX_ORDER ==> nr[k] == old(nr[k]) + Count(Plan(words, max, 0), k)
    {
      hide Weighted, Greedy, Plan, BitAt, Count, Ones, IsBitmap;
      Bounded(words, max);
      var i := FindNext(words, max, 0, false);
      OnesOfRun(words, 0, i, max, false);
      PlanSkips(words, max, 0, i);
      while i < max
        invariant Valid() && i <= max
        invariant i < max ==> BitAt(words, i)
        invariant used + Ones(words, i, max) == old(used) + Ones(words, 0, max)
        invariant forall k :: 0 <= k < MAX_ORDER ==>
          nr[k] + Count(Plan(words, max, i), k) == old(nr[k]) + Count(Plan(words, max, 0), k)
        decreases max - i
      {
        var first := i;
        i := FindNext(words, max, i, true);
        Account(first, i);
        OnesOfRun(words, first, i, max, true);
        forall k | 0 <= k < MAX_ORDER
          ensures Count(Plan(words, max, first), k)
               == Count(Greedy(first, i - first), k) + Count(Plan(words, max, i), k)
        {
          PlanRun(words, max, first, i, k);
        }
        if i < max {
          var end := i;
          i := FindNext(words, max, i, false);
          OnesOfRun(words, end, i, max, false);
          PlanSkips(words, max, end, i);
        }
      }
      NothingLeft(words, max);
    }
  }

  lemma Bounded(words: seq<nat>, max: nat)
    requires IsBitmap(words, max)
    ensures max <= WORD * |words|
  {
  }

  lemma NothingLeft(words: seq<nat>, max: nat)
    requires max <= WORD * |words|
    ensures Plan(words, max, max) == [] && Ones(words, max, max) == 0
    ensures forall k :: Count([], k) == 0
  {
  }

  lemma NoGreedy(first: nat)
    ensures Greedy(first, 0) == []
  {
  }

  lemma {:induction false} AllZero(nr: seq<nat>)
    requires forall k :: 0 <= k < |nr| ==> nr[k] == 0
    ensures Weighted(nr) == 0
  {
    if nr != [] {
      AllZero(nr[..|nr| - 1]);
    }
  }
}
