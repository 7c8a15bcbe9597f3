/** The movability scan: classifying the pages of each 2 MiB block and counting blocks per node. */
module Movability {
  import opened Text

  const HUGE_PAGES := 512

  /** The flags of a page, whether it has more references than mappings, and whether the given processes use it. */
  datatype Page = Page(buddy: bool, slab: bool, lru: bool, head: bool, anon: bool, swapcache: bool,
                       pinned: bool, ofProcess: bool)

  /** A block of 512 pages; `readable` says whether its page structs can be read. */
  datatype Block = Block(pages: seq<Page>, readable: bool)

  predicate Complete(b: Block) {
    |b.pages| == HUGE_PAGES
  }

  datatype Counts = Counts(buddy: nat, slab: nat, movable: nat, pin: nat, processPin: nat, pinSwap: nat)

  const NONE := Counts(0, 0, 0, 0, 0, 0)

  /** An LRU compound page is a whole THP. */
  function Span(p: Page): (n: nat)
    ensures n > 0
  {
    if p.head then HUGE_PAGES else 1
  }

  /** An LRU page is pinned or movable; file pages count as movable. */
  function CountLru(c: Counts, p: Page): (r: Counts) {
    var n := Span(p);
    if p.anon && p.pinned then
      c.(pin := c.pin + n,
         processPin := if p.ofProcess then c.processPin + n else c.processPin,
         pinSwap := if p.swapcache then c.pinSwap + n else c.pinSwap)
    else c.(movable := c.movable + n)
  }

  /** The counts of a block from page `i` on. */
  function CountFrom(b: Block, i: nat, c: Counts): (r: Counts)
    requires Complete(b)
    decreases HUGE_PAGES - i
  {
    if i >= HUGE_PAGES then c else
    var p := b.pages[i];
    if p.buddy then CountFrom(b, i + 1, c.(buddy := c.buddy + 1))
    else if p.slab then CountFrom(b, i + 1, c.(slab := c.slab + 1))
    else if !p.lru then CountFrom(b, i + 1, c)
    else if p.anon && !b.readable then c
    else CountFrom(b, i + Span(p), CountLru(c, p))
  }

  method ScanBlock(b: Block) returns (c: Counts)
    requires Complete(b)
    ensures c == CountFrom(b, 0, NONE)
  {
    c := NONE;
    var idx := 0;
    while idx < HUGE_PAGES
      invariant CountFrom(b, idx, c) == CountFrom(b, 0, NONE)
      decreases HUGE_PAGES - idx
    {
      var p := b.pages[idx];
      if p.buddy {
        c := c.(buddy := c.buddy + 1);
      } else if p.slab {
        c := c.(slab := c.slab + 1);
      } else if p.lru {
        var pages := if p.head then HUGE_PAGES else 1;
        if p.anon {
          if !b.readable {
            return;
          }
          if p.pinned {
            if p.ofProcess {
              c := c.(processPin := c.processPin + pages);
            }
            c := c.(pin := c.pin + pages);
            if p.swapcache {
              c := c.(pinSwap := c.pinSwap + pages);
            }
          } else {
            c := c.(movable := c.movable + pages);
          }
        } else {
          c := c.(movable := c.movable + pages);
        }
        idx := idx + (pages - 1);
      }
      idx := idx + 1;
    }
  }

  /** LRU compound pages start a block. */
  predicate HeadsAligned(b: Block)
    requires Complete(b)
  {
    forall i :: 0 < i < HUGE_PAGES && b.pages[i].lru && b.pages[i].head ==> b.pages[i].buddy || b.pages[i].slab
  }

  function Total(c: Counts): (n: nat) {
    c.buddy + c.slab + c.movable + c.pin
  }

  predicate SubcountsWithin(c: Counts) {
    c.processPin <= c.pin && c.pinSwap <= c.pin
  }

  /** With aligned heads no page is counted twice. */
  lemma {:induction false} CountsWithin(b: Block, i: nat, c: Counts)
    requires Complete(b) && HeadsAligned(b) && Total(c) <= i <= HUGE_PAGES
    ensures Total(CountFrom(b, i, c)) <= HUGE_PAGES
    decreases HUGE_PAGES - i
  {
    if i < HUGE_PAGES {
      var p := b.pages[i];
      if p.buddy {
        CountsWithin(b, i + 1, c.(buddy := c.buddy + 1));
      } else if p.slab {
        CountsWithin(b, i + 1, c.(slab := c.slab + 1));
      } else if !p.lru {
        CountsWithin(b, i + 1, c);
      } else if !p.anon || b.readable {
        CountsWithin(b, i + Span(p), CountLru(c, p));
      }
    }
  }

  /** Wherever heads lie, a block that is all free and movable pages, some of them free, has no others. */
  lemma {:induction false} CountsApart(b: Block, i: nat, c: Counts)
    requires Complete(b) && Total(c) <= i <= HUGE_PAGES && SubcountsWithin(c)
    ensures var r := CountFrom(b, i, c);
            SubcountsWithin(r) && (r.buddy > 0 && r.buddy + r.movable == HUGE_PAGES ==> r.slab == 0 && r.pin == 0)
    decreases HUGE_PAGES - i
  {
    if i < HUGE_PAGES {
      var p := b.pages[i];
      if p.buddy {
        CountsApart(b, i + 1, c.(buddy := c.buddy + 1));
      } else if p.slab {
        CountsApart(b, i + 1, c.(slab := c.slab + 1));
      } else if !p.lru {
        CountsApart(b, i + 1, c);
      } else if (!p.anon || b.readable) && !p.head {
        CountsApart(b, i + 1, CountLru(c, p));
      }
    }
  }

  // ---- what the counts mean ----

  datatype Kind = Free | Slab | Pinned | Movable | Other

  function KindOf(p: Page): (k: Kind) {
    if p.buddy then Free
    else if p.slab then Slab
    else if !p.lru then Other
    else if p.anon && p.pinned then Pinned
    else Movable
  }

  /** Pages of one kind from page `i` on. */
  function CountKind(b: Block, i: nat, k: Kind): (n: nat)
    requires Complete(b) && i <= HUGE_PAGES
    ensures n <= HUGE_PAGES - i
    decreases HUGE_PAGES - i
  {
    if i == HUGE_PAGES then 0 else (if KindOf(b.pages[i]) == k then 1 else 0) + CountKind(b, i + 1, k)
  }

  /** A block of single pages that can be read is counted page by page. */
  predicate Singles(b: Block)
    requires Complete(b)
  {
    b.readable && forall i :: 0 <= i < HUGE_PAGES ==> (KindOf(b.pages[i]).Pinned? || KindOf(b.pages[i]).Movable? ==> !b.pages[i].head)
  }

  lemma {:induction false} CountsAreKinds(b: Block, i: nat, c: Counts)
    requires Complete(b) && Singles(b) && i <= HUGE_PAGES
    ensures var r := CountFrom(b, i, c);
            && r.buddy == c.buddy + CountKind(b, i, Free) && r.slab == c.slab + CountKind(b, i, Slab)
            && r.pin == c.pin + CountKind(b, i, Pinned) && r.movable == c.movable + CountKind(b, i, Movable)
    decreases HUGE_PAGES - i
  {
    if i < HUGE_PAGES {
      var p := b.pages[i];
      CountsAreKinds(b, i + 1,
                     if p.buddy then c.(buddy := c.buddy + 1) else if p.slab then c.(slab := c.slab + 1)
                     else if p.lru then CountLru(c, p) else c);
    }
  }

  // ---- heads that are not at the start of a block ----

  /** A page that is counted as a THP, which ends the walk over the block. */
  predicate HeadAt(b: Block, i: nat)
    requires Complete(b) && i < HUGE_PAGES
  {
    (KindOf(b.pages[i]).Pinned? || KindOf(b.pages[i]).Movable?) && b.pages[i].head && (b.pages[i].anon ==> b.readable)
  }

  /** A page at which the walk gives up. */
  predicate StopAt(b: Block, i: nat)
    requires Complete(b) && i < HUGE_PAGES
  {
    (KindOf(b.pages[i]).Pinned? || KindOf(b.pages[i]).Movable?) && b.pages[i].anon && !b.readable
  }

  /** The head that the walk from page `i` on reaches. */
  function HeadFrom(b: Block, i: nat): (h: Option<nat>)
    requires Complete(b) && i <= HUGE_PAGES
    ensures h.Some? ==> i <= h.value < HUGE_PAGES && HeadAt(b, h.value)
    ensures h.Some? ==> forall k :: i <= k < h.value ==> !HeadAt(b, k) && !StopAt(b, k)
    decreases HUGE_PAGES - i
  {
    if i == HUGE_PAGES || StopAt(b, i) then None
    else if HeadAt(b, i) then Some(i)
    else HeadFrom(b, i + 1)
  }

  /** Some page from `i` on and before `j` counts for something. */
  predicate SomeCounted(b: Block, i: nat, j: nat)
    requires Complete(b) && j <= HUGE_PAGES
  {
    exists k :: i <= k < j && !KindOf(b.pages[k]).Other?
  }

  /** How many of them do. */
  function Counted(b: Block, i: nat, j: nat): (n: nat)
    requires Complete(b) && i <= j <= HUGE_PAGES
    ensures n <= j - i && (n > 0 <==> SomeCounted(b, i, j))
    decreases j - i
  {
    if i == j then 0 else (if KindOf(b.pages[i]).Other? then 0 else 1) + Counted(b, i + 1, j)
  }

  /** A head adds 512 pages to what was counted before it; without one the block is counted page by page. */
  lemma {:induction false} HeadTotal(b: Block, i: nat, c: Counts)
    requires Complete(b) && i <= HUGE_PAGES
    ensures var h := HeadFrom(b, i);
            && (h.Some? ==> Total(CountFrom(b, i, c)) == Total(c) + Counted(b, i, h.value) + HUGE_PAGES)
            && (h.None? ==> Total(CountFrom(b, i, c)) <= Total(c) + HUGE_PAGES - i)
    decreases HUGE_PAGES - i
  {
    if i < HUGE_PAGES {
      var p := b.pages[i];
      if HeadAt(b, i) {
        assert CountFrom(b, i + HUGE_PAGES, CountLru(c, p)) == CountLru(c, p);
      } else if !StopAt(b, i) {
        HeadTotal(b, i + 1,
                  if p.buddy then c.(buddy := c.buddy + 1) else if p.slab then c.(slab := c.slab + 1)
                  else if p.lru then CountLru(c, p) else c);
      }
    }
  }

  /**
   A block is counted for more than its pages exactly when a page that counts comes before the head the
   walk reaches; so is the part of a block from page `i` on.
   */
  lemma {:induction false} CountsExactly(b: Block, i: nat, c: Counts)
    requires Complete(b) && i <= HUGE_PAGES && Total(c) == 0
    ensures Total(CountFrom(b, i, c)) > HUGE_PAGES <==> HeadFrom(b, i).Some? && SomeCounted(b, i, HeadFrom(b, i).value)
  {
    hide *;
    HeadTotal(b, i, c);
    var h := HeadFrom(b, i);
    if h.Some? {
      var n := Counted(b, i, h.value);
    }
  }

  /** Free pages with a stray head behind them. */
  function StrayHead(): (b: Block)
    ensures Complete(b)
  {
    var free := Page(true, false, false, false, false, false, false, false);
    Block(seq(HUGE_PAGES - 1, _ => free) + [Page(false, false, true, true, false, false, false, false)], true)
  }

  lemma {:induction false} StrayHeadFound(i: nat)
    requires i < HUGE_PAGES
    ensures HeadFrom(StrayHead(), i) == Some(HUGE_PAGES - 1) && Counted(StrayHead(), i, HUGE_PAGES - 1) == HUGE_PAGES - 1 - i
    decreases HUGE_PAGES - i
  {
    if i < HUGE_PAGES - 1 {
      StrayHeadFound(i + 1);
    }
  }

  /** They are counted as 1023 pages. */
  lemma {:induction false} StrayHeadCounted()
    ensures Total(CountFrom(StrayHead(), 0, NONE)) == 1023
  {
    hide CountFrom, StrayHead;
    StrayHeadFound(0);
    HeadTotal(StrayHead(), 0, NONE);
  }

  /** A block that starts with a THP is that THP. */
  lemma HugeCounts(b: Block)
    requires Complete(b) && (KindOf(b.pages[0]).Pinned? || KindOf(b.pages[0]).Movable?) && b.pages[0].head && b.readable
    ensures var r := CountFrom(b, 0, NONE);
            r.buddy == 0 && r.slab == 0 && r.pin + r.movable == HUGE_PAGES && (r.pin > 0 <==> KindOf(b.pages[0]).Pinned?)
  {
    assert CountFrom(b, HUGE_PAGES, CountLru(NONE, b.pages[0])) == CountLru(NONE, b.pages[0]);
  }

  lemma {:induction false} BuddiesWithin(b: Block, i: nat, c: Counts)
    requires Complete(b) && i <= HUGE_PAGES
    ensures CountFrom(b, i, c).buddy <= c.buddy + (HUGE_PAGES - i)
    ensures CountFrom(b, i, c).buddy == c.buddy + (HUGE_PAGES - i) <==> forall j :: i <= j < HUGE_PAGES ==> b.pages[j].buddy
    decreases HUGE_PAGES - i
  {
    if i < HUGE_PAGES {
      var p := b.pages[i];
      if p.buddy {
        BuddiesWithin(b, i + 1, c.(buddy := c.buddy + 1));
      } else if p.slab {
        BuddiesWithin(b, i + 1, c.(slab := c.slab + 1));
      } else if !p.lru {
        BuddiesWithin(b, i + 1, c);
      } else if (!p.anon || b.readable) && !p.head {
        BuddiesWithin(b, i + 1, CountLru(c, p));
      }
    }
  }

  // ---- blocks ----

  predicate Unmovable(c: Counts) {
    c.slab > 0 || c.pin > 0
  }

  predicate FreeBlock(c: Counts) {
    c.buddy > 0 && c.buddy + c.movable == HUGE_PAGES && c.movable == 0
  }

  predicate Compactable(c: Counts) {
    c.buddy > 0 && c.buddy + c.movable == HUGE_PAGES && c.movable > 0
  }

  /** No block is both unmovable and free or compactable. */
  lemma KindsExclusive(b: Block)
    requires Complete(b)
    ensures var c := CountFrom(b, 0, NONE);
            SubcountsWithin(c) && !(Unmovable(c) && (FreeBlock(c) || Compactable(c)))
  {
    CountsApart(b, 0, NONE);
  }

  /** A block counts as free exactly when all its pages are free. */
  lemma FreeMeansAllFree(b: Block)
    requires Complete(b)
    ensures FreeBlock(CountFrom(b, 0, NONE)) <==> forall i :: 0 <= i < HUGE_PAGES ==> b.pages[i].buddy
  {
    hide CountFrom;
    BuddiesWithin(b, 0, NONE);
    CountsApart(b, 0, NONE);
    AllFree(b);
  }

  lemma AllFree(b: Block)
    requires Complete(b)
    ensures (forall i :: 0 <= i < HUGE_PAGES ==> b.pages[i].buddy) ==> CountFrom(b, 0, NONE).movable == 0
  {
    if forall i :: 0 <= i < HUGE_PAGES ==> b.pages[i].buddy {
      OnlyFree(b, 0, NONE);
    }
  }

  lemma {:induction false} OnlyFree(b: Block, i: nat, c: Counts)
    requires Complete(b) && forall j :: 0 <= j < HUGE_PAGES ==> b.pages[j].buddy
    ensures CountFrom(b, i, c).movable == c.movable
    decreases HUGE_PAGES - i
  {
    if i < HUGE_PAGES {
      OnlyFree(b, i + 1, c.(buddy := c.buddy + 1));
    }
  }

  /** In a block of single pages: unmovable with a slab or pinned page, compactable when all are free or movable with both. */
  lemma KindsMean(b: Block)
    requires Complete(b) && Singles(b)
    ensures var c := CountFrom(b, 0, NONE);
            && (Unmovable(c) <==> CountKind(b, 0, Slab) > 0 || CountKind(b, 0, Pinned) > 0)
            && (Compactable(c) <==> CountKind(b, 0, Free) > 0 && CountKind(b, 0, Movable) > 0
                                    && CountKind(b, 0, Free) + CountKind(b, 0, Movable) == HUGE_PAGES)
  {
    CountsAreKinds(b, 0, NONE);
  }

  /** The counters of a node. */
  datatype Tally = Tally(buddyPages: nat, slabPages: nat, pinPages: nat, pinSwapPages: nat, processPinPages: nat,
                         unmovable: nat, slab: nat, slabFree: nat, slabMove: nat,
                         pin: nat, pinFree: nat, pinMove: nat, processPin: nat,
                         candidate: nat, free: nat, compact: nat)

  const EMPTY := Tally(0, 0, 0, 0, 0, 0, 0, 0, 0, 0, 0, 0, 0, 0, 0, 0)

  function One(b: bool): (n: nat) {
    if b then 1 else 0
  }

  function AddBlock(t: Tally, c: Counts): (r: Tally) {
    Tally(t.buddyPages + c.buddy, t.slabPages + c.slab, t.pinPages + c.pin,
          t.pinSwapPages + c.pinSwap, t.processPinPages + c.processPin,
          t.unmovable + One(Unmovable(c)),
          t.slab + One(c.slab > 0), t.slabFree + One(c.slab > 0 && c.buddy > 0), t.slabMove + One(c.slab > 0 && c.movable > 0),
          t.pin + One(c.pin > 0), t.pinFree + One(c.pin > 0 && c.buddy > 0), t.pinMove + One(c.pin > 0 && c.movable > 0),
          t.processPin + One(c.pin > 0 && c.processPin > 0),
          t.candidate + One(c.buddy > 0), t.free + One(FreeBlock(c)), t.compact + One(Compactable(c)))
  }

  /** The counter updates at the end of a block. */
  method AddCounts(t: Tally, c: Counts) returns (r: Tally)
    ensures r == AddBlock(t, c)
  {
    r := t.(buddyPages := t.buddyPages + c.buddy, slabPages := t.slabPages + c.slab, pinPages := t.pinPages + c.pin,
            pinSwapPages := t.pinSwapPages + c.pinSwap, processPinPages := t.processPinPages + c.processPin);
    if c.slab != 0 || c.pin != 0 {
      r := r.(unmovable := r.unmovable + 1);
      if c.slab != 0 {
        r := r.(slab := r.slab + 1);
        if c.buddy != 0 {
          r := r.(slabFree := r.slabFree + 1);
        }
        if c.movable != 0 {
          r := r.(slabMove := r.slabMove + 1);
        }
      }
      if c.pin != 0 {
        r := r.(pin := r.pin + 1);
        if c.buddy != 0 {
          r := r.(pinFree := r.pinFree + 1);
        }
        if c.movable != 0 {
          r := r.(pinMove := r.pinMove + 1);
        }
        if c.processPin != 0 {
          r := r.(processPin := r.processPin + 1);
        }
      }
    }
    if c.buddy != 0 {
      r := r.(candidate := r.candidate + 1);
      if c.buddy + c.movable == HUGE_PAGES {
        if c.movable != 0 {
          r := r.(compact := r.compact + 1);
        } else {
          r := r.(free := r.free + 1);
        }
      }
    }
  }

  /** What holds between the counters of a node after `n` of its blocks. */
  predicate Consistent(t: Tally, n: nat) {
    && t.free + t.compact <= t.candidate <= n
    && t.slab <= t.unmovable && t.pin <= t.unmovable && t.unmovable <= t.slab + t.pin
    && t.unmovable + t.free + t.compact <= n
    && t.slabFree <= t.slab && t.slabMove <= t.slab
    && t.pinFree <= t.pin && t.pinMove <= t.pin && t.processPin <= t.pin
    && t.processPinPages <= t.pinPages && t.pinSwapPages <= t.pinPages
  }

  /** Which node each block of a run counts for. */
  type assignment = nat -> nat

  /** The node a block lies on: that of its first frame. */
  function Own(node: nat -> nat): (a: assignment) {
    i => node(HUGE_PAGES * i)
  }

  /** The node the scan charges it to: that of the frame behind it. */
  function Charged(node: nat -> nat): (a: assignment) {
    i => node(HUGE_PAGES * (i + 1))
  }

  /** The counters of node `x` over a run of blocks. */
  function NodeTally(blocks: seq<Block>, a: assignment, x: nat): (t: Tally)
    requires forall b :: b in blocks ==> Complete(b)
  {
    if blocks == [] then EMPTY else
    var n := |blocks| - 1;
    var t := NodeTally(blocks[..n], a, x);
    if a(n) == x then AddBlock(t, CountFrom(blocks[n], 0, NONE)) else t
  }

  /** How many of the first `count` blocks count for node `x`. */
  function NodeBlocks(count: nat, a: assignment, x: nat): (n: nat) {
    if count == 0 then 0 else NodeBlocks(count - 1, a, x) + One(a(count - 1) == x)
  }

  /** Over every run of blocks and however they are assigned, the counters of every node stay consistent. */
  lemma {:induction false} CountersConsistent(blocks: seq<Block>, a: assignment, x: nat)
    requires forall b :: b in blocks ==> Complete(b)
    ensures Consistent(NodeTally(blocks, a, x), NodeBlocks(|blocks|, a, x))
    decreases |blocks|
  {
    hide CountFrom;
    if blocks != [] {
      var n := |blocks| - 1;
      CountersConsistent(blocks[..n], a, x);
      KindsExclusive(blocks[n]);
      ConsistentStep(NodeTally(blocks[..n], a, x), NodeBlocks(n, a, x), CountFrom(blocks[n], 0, NONE));
    }
  }

  lemma ConsistentStep(t: Tally, n: nat, c: Counts)
    requires Consistent(t, n) && SubcountsWithin(c) && !(Unmovable(c) && (FreeBlock(c) || Compactable(c)))
    ensures Consistent(AddBlock(t, c), n + 1)
  {
  }

  /** With aligned heads, page counters never exceed the pages of the blocks counted for the node. */
  lemma {:induction false} PagesConserved(blocks: seq<Block>, a: assignment, x: nat)
    requires forall b :: b in blocks ==> Complete(b) && HeadsAligned(b)
    ensures var t := NodeTally(blocks, a, x);
            t.buddyPages + t.slabPages + t.pinPages <= HUGE_PAGES * NodeBlocks(|blocks|, a, x)
    decreases |blocks|
  {
    hide CountFrom, HeadsAligned;
    if blocks != [] {
      var n := |blocks| - 1;
      PagesConserved(blocks[..n], a, x);
      CountsWithin(blocks[n], 0, NONE);
    }
  }

  // ---- when blocks are charged to the node they lie on ----

  /** Node `x` neither starts nor ends between a block and the next one. */
  predicate NoBoundary(node: nat -> nat, x: nat, i: nat) {
    node(HUGE_PAGES * i) == x <==> node(HUGE_PAGES * (i + 1)) == x
  }

  lemma {:induction false} ChargedAlike(blocks: seq<Block>, node: nat -> nat, x: nat)
    requires forall b :: b in blocks ==> Complete(b)
    requires forall i :: 0 <= i < |blocks| ==> NoBoundary(node, x, i)
    ensures NodeTally(blocks, Charged(node), x) == NodeTally(blocks, Own(node), x)
    decreases |blocks|
  {
    hide CountFrom, AddBlock;
    if blocks != [] {
      ChargedAlike(blocks[..|blocks| - 1], node, x);
      assert NoBoundary(node, x, |blocks| - 1);
    }
  }

  const PLAIN := Page(false, false, false, false, false, false, false, false)

  /** A block of 512 slab pages, or of pages that count as nothing. */
  function Uniform(slab: bool): (b: Block)
    ensures Complete(b)
  {
    Block(seq(HUGE_PAGES, _ => PLAIN.(slab := slab)), true)
  }

  lemma {:induction false} UniformCounts(slab: bool, i: nat, c: Counts)
    requires i <= HUGE_PAGES
    ensures CountFrom(Uniform(slab), i, c) == c.(slab := c.slab + if slab then HUGE_PAGES - i else 0)
    decreases HUGE_PAGES - i
  {
    if i < HUGE_PAGES {
      UniformCounts(slab, i + 1, if slab then c.(slab := c.slab + 1) else c);
    }
  }

  /** `n` blocks, all empty but a block of slab pages at position `i`. */
  function OneSlab(n: nat, i: nat): (blocks: seq<Block>)
    ensures |blocks| == n && forall b :: b in blocks ==> Complete(b)
  {
    if n == 0 then [] else OneSlab(n - 1, i) + [Uniform(n - 1 == i)]
  }

  lemma {:induction false} OneSlabTally(n: nat, i: nat, a: assignment, x: nat)
    ensures NodeTally(OneSlab(n, i), a, x).slabPages == if i < n && a(i) == x then HUGE_PAGES else 0
    decreases n
  {
    hide CountFrom, Uniform;
    if n > 0 {
      var blocks := OneSlab(n, i);
      assert blocks[..n - 1] == OneSlab(n - 1, i);
      OneSlabTally(n - 1, i, a, x);
      UniformCounts(n - 1 == i, 0, NONE);
    }
  }

  /** Whatever the blocks hold, node `x` gets the counters of its own blocks. */
  ghost predicate RightlyCharged(n: nat, node: nat -> nat, x: nat) {
    forall blocks: seq<Block> :: |blocks| == n && (forall b :: b in blocks ==> Complete(b)) ==>
      NodeTally(blocks, Charged(node), x) == NodeTally(blocks, Own(node), x)
  }

  /** That is so exactly when the node has no boundary between any block and the next. */
  lemma ChargedExactly(n: nat, node: nat -> nat, x: nat)
    ensures RightlyCharged(n, node, x) <==> forall i :: 0 <= i < n ==> NoBoundary(node, x, i)
  {
    hide NodeTally;
    if forall i :: 0 <= i < n ==> NoBoundary(node, x, i) {
      forall blocks: seq<Block> | |blocks| == n && (forall b :: b in blocks ==> Complete(b))
        ensures NodeTally(blocks, Charged(node), x) == NodeTally(blocks, Own(node), x)
      {
        ChargedAlike(blocks, node, x);
      }
    }
    if RightlyCharged(n, node, x) {
      forall i | 0 <= i < n ensures NoBoundary(node, x, i) {
        var blocks := OneSlab(n, i);
        assert NodeTally(blocks, Charged(node), x) == NodeTally(blocks, Own(node), x);
        OneSlabTally(n, i, Charged(node), x);
        OneSlabTally(n, i, Own(node), x);
      }
    }
  }

  function AllSlab(n: nat): (blocks: seq<Block>)
    ensures |blocks| == n && forall b :: b in blocks ==> Complete(b)
  {
    if n == 0 then [] else AllSlab(n - 1) + [Uniform(true)]
  }

  lemma {:induction false} AllSlabTally(n: nat, a: assignment, x: nat)
    ensures NodeTally(AllSlab(n), a, x).slabPages == HUGE_PAGES * NodeBlocks(n, a, x)
    decreases n
  {
    hide CountFrom, Uniform;
    if n > 0 {
      var blocks := AllSlab(n);
      assert blocks[..n - 1] == AllSlab(n - 1);
      AllSlabTally(n - 1, a, x);
      UniformCounts(true, 0, NONE);
    }
  }

  /** Two nodes, the second from block 1 on. */
  function TwoNodes(pfn: nat): (n: nat) {
    if pfn < HUGE_PAGES then 0 else 1
  }

  /** Two blocks of slab pages: the second node owns 512 of them and is charged with 1024. */
  lemma Overcharged()
    ensures NodeTally(AllSlab(2), Charged(TwoNodes), 1).slabPages == 1024
    ensures NodeTally(AllSlab(2), Own(TwoNodes), 1).slabPages == 512
  {
    hide CountFrom, Uniform, NodeTally, AllSlab;
    AllSlabTally(2, Charged(TwoNodes), 1);
    AllSlabTally(2, Own(TwoNodes), 1);
    assert NodeBlocks(1, Charged(TwoNodes), 1) == 1 && NodeBlocks(1, Own(TwoNodes), 1) == 0;
  }

  class Scan {
    var counter: map<nat, Tally>

    function Of(x: nat): (t: Tally)
      reads this
    {
      if x in counter then counter[x] else EMPTY
    }

    constructor ()
      ensures forall x :: Of(x) == EMPTY
    {
      counter := map[];
    }

    /** scan_movability over the blocks that kpageflags yields. */
    method ScanMovability(blocks: seq<Block>, node: nat -> nat)
      requires forall b :: b in blocks ==> Complete(b)
      requires counter == map[]
      modifies this
      ensures forall x :: Of(x) == NodeTally(blocks, Charged(node), x)
    {
      hide CountFrom, AddBlock;
      var pfn, i := 0, 0;
      while i < |blocks|
        invariant 0 <= i <= |blocks| && pfn == HUGE_PAGES * i
        invariant forall x :: Of(x) == NodeTally(blocks[..i], Charged(node), x)
      {
        var c := ScanBlock(blocks[i]);
        pfn := pfn + HUGE_PAGES;
        var n := node(pfn);
        assert blocks[..i + 1][..i] == blocks[..i];
        var t := AddCounts(Of(n), c);
        counter := counter[n := t];
        i := i + 1;
      }
      assert blocks[..i] == blocks;
    }
  }
}
