/** What the movability counters count, in terms of the flags of the pages, for blocks of single pages. */
module MovabilityCounts {
  import opened Counting
  import opened Movability

  /** The sorts of pages that are told apart. */
  datatype Sort = FreePage | SlabPage | PinnedPage | MovablePage | ProcessPinned | SwapPinned

  /** Free before slab before LRU; an anonymous LRU page with more references than mappings is pinned, any other movable. */
  predicate Of(p: Page, s: Sort) {
    match s
    case FreePage => p.buddy
    case SlabPage => !p.buddy && p.slab
    case PinnedPage => !p.buddy && !p.slab && p.lru && p.anon && p.pinned
    case MovablePage => !p.buddy && !p.slab && p.lru && !(p.anon && p.pinned)
    case ProcessPinned => !p.buddy && !p.slab && p.lru && p.anon && p.pinned && p.ofProcess
    case SwapPinned => !p.buddy && !p.slab && p.lru && p.anon && p.pinned && p.swapcache
  }

  function Pages(b: Block, n: nat, s: Sort): (m: seq<bool>)
    requires n <= |b.pages|
  {
    seq(n, i requires 0 <= i < n => Of(b.pages[i], s))
  }

  function Amount(c: Counts, s: Sort): (n: nat) {
    match s
    case FreePage => c.buddy
    case SlabPage => c.slab
    case PinnedPage => c.pin
    case MovablePage => c.movable
    case ProcessPinned => c.processPin
    case SwapPinned => c.pinSwap
  }

  /** The counts of the first `n` pages. */
  function Seen(b: Block, n: nat): (c: Counts)
    requires n <= |b.pages|
  {
    Counts(Number(Pages(b, n, FreePage)), Number(Pages(b, n, SlabPage)), Number(Pages(b, n, MovablePage)),
           Number(Pages(b, n, PinnedPage)), Number(Pages(b, n, ProcessPinned)), Number(Pages(b, n, SwapPinned)))
  }

  lemma SeenMore(b: Block, n: nat, s: Sort)
    requires n < |b.pages|
    ensures Number(Pages(b, n + 1, s)) == Number(Pages(b, n, s)) + if Of(b.pages[n], s) then 1 else 0
  {
    hide Number, Of;
    NumberMore(Pages(b, n, s), Of(b.pages[n], s));
    assert Pages(b, n + 1, s) == Pages(b, n, s) + [Of(b.pages[n], s)];
  }

  lemma SeenNext(b: Block, n: nat)
    requires Complete(b) && Singles(b) && n < HUGE_PAGES
    ensures CountFrom(b, n, Seen(b, n)) == CountFrom(b, n + 1, Seen(b, n + 1))
  {
    hide Number, Pages;
    SeenMore(b, n, FreePage);
    SeenMore(b, n, SlabPage);
    SeenMore(b, n, MovablePage);
    SeenMore(b, n, PinnedPage);
    SeenMore(b, n, ProcessPinned);
    SeenMore(b, n, SwapPinned);
  }

  lemma {:induction false} SeenFrom(b: Block, n: nat)
    requires Complete(b) && Singles(b) && n <= HUGE_PAGES
    ensures CountFrom(b, 0, NONE) == CountFrom(b, n, Seen(b, n))
  {
    hide CountFrom, Singles, Seen;
    if n == 0 {
      NothingSeen(b);
    } else {
      SeenFrom(b, n - 1);
      SeenNext(b, n - 1);
    }
  }

  lemma NothingSeen(b: Block)
    ensures Seen(b, 0) == NONE
  {
    hide Number;
    NumberNone();
    assert forall s :: Pages(b, 0, s) == [];
  }

  /** The counts of a block are the numbers of its pages of each sort. */
  lemma CountsMean(b: Block, s: Sort)
    requires Complete(b) && Singles(b)
    ensures Amount(CountFrom(b, 0, NONE), s) == Number(Pages(b, 512, s))
  {
    hide Number, Pages, Singles;
    SeenFrom(b, 512);
    assert CountFrom(b, 512, Seen(b, 512)) == Seen(b, 512);
  }

  predicate Has(b: Block, s: Sort) {
    exists i :: 0 <= i < |b.pages| && Of(b.pages[i], s)
  }

  lemma HasPages(b: Block, s: Sort)
    requires Complete(b) && Singles(b)
    ensures Amount(CountFrom(b, 0, NONE), s) > 0 <==> Has(b, s)
  {
    hide Number, Of, CountFrom, Singles;
    CountsMean(b, s);
    var m := Pages(b, 512, s);
    NumberSome(m);
    if Has(b, s) {
      var i :| 0 <= i < |b.pages| && Of(b.pages[i], s);
      assert m[i];
    }
  }

  /** Every page is free or movable. */
  predicate Mobile(b: Block) {
    forall i :: 0 <= i < |b.pages| ==> Of(b.pages[i], FreePage) || Of(b.pages[i], MovablePage)
  }

  lemma MobilePages(b: Block)
    requires Complete(b) && Singles(b)
    ensures var c := CountFrom(b, 0, NONE); c.buddy + c.movable == 512 <==> Mobile(b)
  {
    hide Number, CountFrom, Singles;
    CountsMean(b, FreePage);
    CountsMean(b, MovablePage);
    var m, k := Pages(b, 512, FreePage), Pages(b, 512, MovablePage);
    NumberAll(m, k);
    assert forall i :: 0 <= i < 512 ==> (m[i] <==> Of(b.pages[i], FreePage)) && (k[i] <==> Of(b.pages[i], MovablePage));
  }

  // ---- the counters of blocks ----

  datatype Counter = Unmovables | Slabs | SlabsFree | SlabsMove | Pins | PinsFree | PinsMove | ProcessPins
                   | Candidates | Frees | Compacts

  function Reading(t: Tally, k: Counter): (n: nat) {
    match k
    case Unmovables => t.unmovable
    case Slabs => t.slab
    case SlabsFree => t.slabFree
    case SlabsMove => t.slabMove
    case Pins => t.pin
    case PinsFree => t.pinFree
    case PinsMove => t.pinMove
    case ProcessPins => t.processPin
    case Candidates => t.candidate
    case Frees => t.free
    case Compacts => t.compact
  }

  /** The blocks a counter is about. */
  predicate About(b: Block, k: Counter) {
    match k
    case Unmovables => Has(b, SlabPage) || Has(b, PinnedPage)
    case Slabs => Has(b, SlabPage)
    case SlabsFree => Has(b, SlabPage) && Has(b, FreePage)
    case SlabsMove => Has(b, SlabPage) && Has(b, MovablePage)
    case Pins => Has(b, PinnedPage)
    case PinsFree => Has(b, PinnedPage) && Has(b, FreePage)
    case PinsMove => Has(b, PinnedPage) && Has(b, MovablePage)
    case ProcessPins => Has(b, ProcessPinned)
    case Candidates => Has(b, FreePage)
    case Frees => forall i :: 0 <= i < |b.pages| ==> Of(b.pages[i], FreePage)
    case Compacts => Mobile(b) && Has(b, FreePage) && Has(b, MovablePage)
  }

  lemma OneBlock(t: Tally, b: Block, k: Counter)
    requires Complete(b) && Singles(b)
    ensures Reading(AddBlock(t, CountFrom(b, 0, NONE)), k) == Reading(t, k) + if About(b, k) then 1 else 0
  {
    hide CountFrom, Has, Mobile, Singles;
    HasPages(b, FreePage);
    HasPages(b, SlabPage);
    HasPages(b, PinnedPage);
    HasPages(b, MovablePage);
    HasPages(b, ProcessPinned);
    MobilePages(b);
    SortsApart(b);
    if k.Frees? {
      FreeMeansAllFree(b);
    }
  }

  lemma SortsApart(b: Block)
    ensures Has(b, ProcessPinned) ==> Has(b, PinnedPage)
  {
    if Has(b, ProcessPinned) {
      var i :| 0 <= i < |b.pages| && Of(b.pages[i], ProcessPinned);
      assert Of(b.pages[i], PinnedPage);
    }
  }

  /** The blocks of a node that a counter is about. */
  function Blocks(blocks: seq<Block>, a: assignment, x: nat, k: Counter): (m: seq<bool>) {
    seq(|blocks|, i requires 0 <= i < |blocks| => a(i) == x && About(blocks[i], k))
  }

  lemma BlocksMore(blocks: seq<Block>, a: assignment, x: nat, k: Counter)
    requires blocks != []
    ensures var n := |blocks| - 1;
            Number(Blocks(blocks, a, x, k)) == Number(Blocks(blocks[..n], a, x, k)) + if a(n) == x && About(blocks[n], k) then 1 else 0
  {
    hide Number, About;
    var n := |blocks| - 1;
    var last := a(n) == x && About(blocks[n], k);
    NumberMore(Blocks(blocks[..n], a, x, k), last);
    assert Blocks(blocks, a, x, k) == Blocks(blocks[..n], a, x, k) + [last];
  }

  lemma TallyMore(blocks: seq<Block>, a: assignment, x: nat)
    requires blocks != [] && forall b :: b in blocks ==> Complete(b)
    ensures var n := |blocks| - 1;
            NodeTally(blocks, a, x) == if a(n) == x then AddBlock(NodeTally(blocks[..n], a, x), CountFrom(blocks[n], 0, NONE))
                                       else NodeTally(blocks[..n], a, x)
  {
    hide AddBlock, CountFrom;
  }

  lemma NoBlocks(a: assignment, x: nat, k: Counter)
    ensures Number(Blocks([], a, x, k)) == 0
  {
    hide Number, About;
    NumberNone();
    assert |Blocks([], a, x, k)| == 0;
  }

  lemma NothingTallied(a: assignment, x: nat, k: Counter)
    ensures Reading(NodeTally([], a, x), k) == 0
  {
    hide AddBlock, CountFrom;
    assert NodeTally([], a, x) == EMPTY;
  }

  /** Every counter of a node is the number of the blocks charged to it that have the pages it speaks of. */
  lemma {:induction false} CountersMean(blocks: seq<Block>, a: assignment, x: nat, k: Counter)
    requires forall b :: b in blocks ==> Complete(b) && Singles(b)
    ensures Reading(NodeTally(blocks, a, x), k) == Number(Blocks(blocks, a, x, k))
    decreases |blocks|
  {
    hide Number, About, Singles, CountFrom, AddBlock, NodeTally, Blocks, Reading;
    if blocks == [] {
      NoBlocks(a, x, k);
      NothingTallied(a, x, k);
    } else {
      var n := |blocks| - 1;
      assert blocks[n] in blocks;
      CountersMean(blocks[..n], a, x, k);
      TallyMore(blocks, a, x);
      BlocksMore(blocks, a, x, k);
      OneBlock(NodeTally(blocks[..n], a, x), blocks[n], k);
    }
  }

  // ---- the counters of pages ----

  /** The pages of a sort in the blocks charged to a node. */
  function PageSum(blocks: seq<Block>, a: assignment, x: nat, s: Sort): (n: nat) {
    if blocks == [] then 0 else
    var n := |blocks| - 1;
    PageSum(blocks[..n], a, x, s) + if a(n) == x then Number(Pages(blocks[n], |blocks[n].pages|, s)) else 0
  }

  function PageReading(t: Tally, s: Sort): (n: nat)
    requires !s.MovablePage?
  {
    match s
    case FreePage => t.buddyPages
    case SlabPage => t.slabPages
    case PinnedPage => t.pinPages
    case ProcessPinned => t.processPinPages
    case SwapPinned => t.pinSwapPages
  }

  lemma {:induction false} PagesMean(blocks: seq<Block>, a: assignment, x: nat, s: Sort)
    requires (forall b :: b in blocks ==> Complete(b) && Singles(b)) && !s.MovablePage?
    ensures PageReading(NodeTally(blocks, a, x), s) == PageSum(blocks, a, x, s)
    decreases |blocks|
  {
    hide Number, Singles, CountFrom, Pages;
    if blocks != [] {
      var n := |blocks| - 1;
      assert blocks[n] in blocks;
      PagesMean(blocks[..n], a, x, s);
      CountsMean(blocks[n], s);
    }
  }
}
