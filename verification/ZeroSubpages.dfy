/** The zero-subpage statistics: a scanner with static state, and its histogram dump. */
module ZeroSubpages {
  import opened PageWindows

  /** A pagemap entry. */
  datatype Raw = Raw(present: bool, pfn: nat)

  /** What the statistics hold between windows. */
  datatype Tally = Tally(base: seq<nat>, totalBase: nat, deferredSplit: nat, rss: nat, lastThp: nat)

  /** Whether the flags of a page frame can be read and name it part of a THP. */
  type thpflags = nat -> bool

  function Present(w: seq<Raw>): (n: nat)
    ensures n <= |w|
  {
    if w == [] then 0 else Present(w[..|w| - 1]) + if w[|w| - 1].present then 1 else 0
  }

  /** The head frame of the huge page that the first present page belongs to, 0 if none. */
  function ThpOf(flags: thpflags, w: seq<Raw>): (pfn: nat) {
    if w == [] then 0
    else if w[0].present then if flags(w[0].pfn) then w[0].pfn - w[0].pfn % HUGE_PAGES else 0
    else ThpOf(flags, w[1..])
  }

  /** What one window adds to the statistics. */
  function Account(flags: thpflags, t: Tally, w: seq<Raw>): (r: Tally)
    requires |t.base| == HUGE_PAGES
    ensures |r.base| == HUGE_PAGES
  {
    var thp, missing := ThpOf(flags, w), |w| - Present(w);
    var u := t.(rss := t.rss + Present(w));
    if thp != 0 then
      u.(deferredSplit := if t.lastThp != thp && (|w| < HUGE_PAGES || missing > 0) then t.deferredSplit + 1 else t.deferredSplit,
         lastThp := thp)
    else if |w| == HUGE_PAGES && missing < |w| then
      u.(base := t.base[missing := t.base[missing] + 1], totalBase := t.totalBase + 1)
    else u
  }

  function AccountAll(flags: thpflags, t: Tally, ws: seq<seq<Raw>>): (r: Tally)
    requires |t.base| == HUGE_PAGES
    ensures |r.base| == HUGE_PAGES
    decreases |ws|
  {
    if ws == [] then t else AccountAll(flags, Account(flags, t, ws[0]), ws[1..])
  }

  // ---- conservation ----

  function Sum(s: seq<nat>): (n: nat) {
    if s == [] then 0 else Sum(s[..|s| - 1]) + s[|s| - 1]
  }

  lemma {:induction false} SumBump(s: seq<nat>, k: nat)
    requires k < |s|
    ensures Sum(s[k := s[k] + 1]) == Sum(s) + 1
  {
    var last := |s| - 1;
    if k == last {
      assert s[k := s[k] + 1][..last] == s[..last];
    } else {
      assert s[k := s[k] + 1][..last] == s[..last][k := s[k] + 1];
      SumBump(s[..last], k);
    }
  }

  /** The histogram of 2 MiB blocks always adds up to their total. */
  lemma {:induction false} HistogramConserved(flags: thpflags, t: Tally, ws: seq<seq<Raw>>)
    requires |t.base| == HUGE_PAGES && Sum(t.base) == t.totalBase
    ensures Sum(AccountAll(flags, t, ws).base) == AccountAll(flags, t, ws).totalBase
    decreases |ws|
  {
    hide Sum, ThpOf, Present;
    if ws != [] {
      var missing := |ws[0]| - Present(ws[0]);
      if missing < HUGE_PAGES {
        SumBump(t.base, missing);
      }
      HistogramConserved(flags, Account(flags, t, ws[0]), ws[1..]);
    }
  }

  /** A 2 MiB block of base pages, at least one of them present. */
  predicate BaseBlock(flags: thpflags, w: seq<Raw>) {
    ThpOf(flags, w) == 0 && |w| == HUGE_PAGES && Present(w) > 0
  }

  /** How many of the windows are such blocks with `k` pages missing. */
  function BlocksMissing(flags: thpflags, ws: seq<seq<Raw>>, k: nat): (n: nat) {
    if ws == [] then 0
    else (if BaseBlock(flags, ws[0]) && |ws[0]| - Present(ws[0]) == k then 1 else 0) + BlocksMissing(flags, ws[1..], k)
  }

  /** Entry `k` of the histogram counts the 2 MiB blocks of base pages with `k` pages missing. */
  lemma {:induction false} HistogramMeans(flags: thpflags, t: Tally, ws: seq<seq<Raw>>, k: nat)
    requires |t.base| == HUGE_PAGES && k < HUGE_PAGES
    ensures AccountAll(flags, t, ws).base[k] == t.base[k] + BlocksMissing(flags, ws, k)
    decreases |ws|
  {
    hide ThpOf, Present;
    if ws != [] {
      HistogramMeans(flags, Account(flags, t, ws[0]), ws[1..], k);
    }
  }

  // ---- the scanner ----

  lemma PresentNext(w: seq<Raw>, i: nat)
    requires i < |w|
    ensures Present(w[..i + 1]) == Present(w[..i]) + if w[i].present then 1 else 0
  {
    assert w[..i + 1][..i] == w[..i];
  }

  lemma {:induction false} ThpNext(flags: thpflags, w: seq<Raw>, i: nat)
    requires i < |w|
    ensures Present(w[..i]) == 0 && w[i].present ==>
      ThpOf(flags, w[..i + 1]) == if flags(w[i].pfn) then w[i].pfn - w[i].pfn % HUGE_PAGES else 0
    ensures Present(w[..i]) > 0 || !w[i].present ==> ThpOf(flags, w[..i + 1]) == ThpOf(flags, w[..i])
    ensures Present(w[..i]) == 0 ==> ThpOf(flags, w[..i]) == 0
    decreases |w|
  {
    if i > 0 {
      var v := w[1..];
      PresentFirst(w[..i]);
      assert w[..i][1..] == v[..i - 1] && w[..i + 1][1..] == v[..i];
      if !w[0].present {
        ThpNext(flags, v, i - 1);
      }
    }
  }

  lemma {:induction false} PresentFirst(w: seq<Raw>)
    requires w != []
    ensures Present(w) == Present(w[1..]) + if w[0].present then 1 else 0
  {
    if |w| > 1 {
      PresentFirst(w[..|w| - 1]);
      assert w[..|w| - 1][1..] == w[1..][..|w| - 2];
    }
  }

  class Scanner {
    const flags: thpflags
    const base: array<nat>
    var totalBase: nat
    var deferredSplit: nat
    var rss: nat
    // static variables of the scanning function
    var nrScan: nat
    var nrNotPresent: nat
    var flagRead: bool
    var thpPfn: nat
    var lastThp: nat

    constructor (flags: thpflags)
      ensures Valid() && fresh(base) && this.flags == flags
      ensures Stats().totalBase == 0 && Stats().rss == 0 && Stats().deferredSplit == 0 && Stats().lastThp == 0
      ensures forall k :: 0 <= k < HUGE_PAGES ==> base[k] == 0
    {
      this.flags := flags;
      base := new nat[HUGE_PAGES](_ => 0);
      totalBase, deferredSplit, rss, nrScan, nrNotPresent, thpPfn, lastThp := 0, 0, 0, 0, 0, 0, 0;
      flagRead := false;
    }

    ghost predicate Valid() {
      base.Length == HUGE_PAGES
    }

    ghost function Stats(): (t: Tally)
      reads this, base
    {
      Tally(base[..], totalBase, deferredSplit, rss, lastThp)
    }

    /** Inside a window: what the static variables know after `i` of its pages. */
    ghost predicate Inside(t: Tally, w: seq<Raw>, i: nat)
      reads this, base
    {
      && i <= |w| && Stats() == t.(rss := t.rss + Present(w[..i]))
      && nrScan == i && nrNotPresent == i - Present(w[..i])
      && (flagRead <==> Present(w[..i]) > 0) && thpPfn == ThpOf(flags, w[..i])
    }

    /** scan_zero_subpages_in_base for page `idx` of a window of `end` pages. */
    method ScanBase(raw: Raw, idx: nat, end: nat, ghost w: seq<Raw>, ghost t: Tally)
      requires Valid() && idx < end == |w| <= HUGE_PAGES && raw == w[idx]
      requires if idx == 0 then Stats() == t else Inside(t, w, idx)
      modifies this, base
      ensures idx + 1 < end ==> Inside(t, w, idx + 1)
      ensures idx + 1 == end ==> Stats() == Account(flags, t, w)
    {
      hide Present, ThpOf;
      EmptyWindow(flags, w);
      if idx == 0 {
        nrScan, nrNotPresent, flagRead, thpPfn := 0, 0, false, 0;
      }
      assert Inside(t, w, idx);
      PresentNext(w, idx);
      ThpNext(flags, w, idx);
      nrScan := nrScan + 1;
      if !raw.present {
        nrNotPresent := nrNotPresent + 1;
      } else {
        rss := rss + 1;
        if !flagRead {
          if flags(raw.pfn) {
            thpPfn := raw.pfn - raw.pfn % HUGE_PAGES;
          }
          flagRead := true;
        }
      }
      assert Inside(t, w, idx + 1);
      if idx == end - 1 {
        assert w[..idx + 1] == w;
        EndRound(w, t);
      }
    }

    /** The end of a window. */
    method EndRound(ghost w: seq<Raw>, ghost t: Tally)
      requires Valid() && |w| <= HUGE_PAGES && Inside(t, w, |w|)
      modifies this, base
      ensures Stats() == Account(flags, t, w)
    {
      assert w[..|w|] == w;
      if thpPfn != 0 && lastThp != thpPfn && (nrScan < HUGE_PAGES || nrNotPresent != 0) {
        deferredSplit := deferredSplit + 1;
      }
      if thpPfn == 0 && nrScan == HUGE_PAGES && nrNotPresent < nrScan {
        base[nrNotPresent] := base[nrNotPresent] + 1;
        totalBase := totalBase + 1;
      }
      if thpPfn != 0 {
        lastThp := thpPfn;
      }
    }
  }

  lemma EmptyWindow(flags: thpflags, w: seq<Raw>)
    ensures Present(w[..0]) == 0 && ThpOf(flags, w[..0]) == 0
  {
  }

  // ---- the region scan ----

  type pagemap = nat -> Raw

  function Read(pm: pagemap, ps: seq<nat>): (w: seq<Raw>)
    ensures |w| == |ps| && forall i :: 0 <= i < |ps| ==> w[i] == pm(ps[i])
  {
    seq(|ps|, i requires 0 <= i < |ps| => pm(ps[i]))
  }

  function ReadAll(pm: pagemap, ws: seq<seq<nat>>): (r: seq<seq<Raw>>) {
    if ws == [] then [] else [Read(pm, ws[0])] + ReadAll(pm, ws[1..])
  }

  /** The frames that present pages of a list map to. */
  function Frames(pm: pagemap, ps: seq<nat>): (s: set<nat>) {
    if ps == [] then {} else (if pm(ps[0]).present then {pm(ps[0]).pfn} else {}) + Frames(pm, ps[1..])
  }

  lemma {:induction false} FramesSplit(pm: pagemap, a: seq<nat>, b: seq<nat>)
    ensures Frames(pm, a + b) == Frames(pm, a) + Frames(pm, b)
  {
    if a == [] {
      assert a + b == b;
    } else {
      assert (a + b)[1..] == a[1..] + b;
      FramesSplit(pm, a[1..], b);
    }
  }

  class RegionScan {
    const zero: Scanner
    var marked: set<nat>

    constructor (zero: Scanner)
      ensures this.zero == zero && marked == {}
    {
      this.zero := zero;
      marked := {};
    }

    /** One window of scan_memory_region. */
    method ScanWindow(pm: pagemap, ps: seq<nat>, scanZero: bool)
      requires zero.Valid() && 0 < |ps| <= HUGE_PAGES
      modifies this, zero, zero.base
      ensures marked == old(marked) + Frames(pm, ps)
      ensures zero.Stats() == if scanZero then Account(zero.flags, old(zero.Stats()), Read(pm, ps)) else old(zero.Stats())
    {
      hide Frames, Account;
      ghost var w, t := Read(pm, ps), zero.Stats();
      var idx := 0;
      FramesNone(pm, ps);
      while idx < |ps|
        invariant 0 <= idx <= |ps|
        invariant marked == old(marked) + Frames(pm, ps[..idx])
        invariant !scanZero || idx == 0 ==> zero.Stats() == t
        invariant scanZero && 0 < idx < |ps| ==> zero.Inside(t, w, idx)
        invariant scanZero && idx == |ps| ==> zero.Stats() == Account(zero.flags, t, w)
      {
        var raw := pm(ps[idx]);
        if scanZero {
          zero.ScanBase(raw, idx, |ps|, w, t);
        }
        if raw.present {
          marked := marked + {raw.pfn};
        }
        FramesNext(pm, ps, idx);
        idx := idx + 1;
      }
      assert ps[..idx] == ps;
    }

    /**
     scan_memory_region, every pagemap read being complete: the frames of all present pages of the
     range are marked, and the zero-subpage statistics are those of its windows taken one by one.
     */
    method ScanMemoryRegion(pm: pagemap, start: nat, end: nat, scanZero: bool)
      requires zero.Valid() && start % PAGE == 0 && end % PAGE == 0 && start <= end
      modifies this, zero, zero.base
      ensures marked == old(marked) + Frames(pm, Pages(start / PAGE, end / PAGE))
      ensures old(Sum(zero.base[..]) == zero.totalBase) ==> Sum(zero.base[..]) == zero.totalBase
      ensures zero.Stats() ==
        if scanZero then AccountAll(zero.flags, old(zero.Stats()), ReadAll(pm, Windows(start, end))) else old(zero.Stats())
    {
      hide Frames, Account, Edge, Pages, Sum;
      var at := start;
      ghost var t := zero.Stats();
      NoPages(pm, start / PAGE);
      var next, pages := ScanStep(end, at);
      while pages != 0
        invariant start <= at <= end && at % PAGE == 0 && next == Edge(at, end)
        invariant (pages == 0 <==> at == end) && (at < end ==> Window(at, next, end))
        invariant marked == old(marked) + Frames(pm, Pages(start / PAGE, at / PAGE))
        invariant !scanZero ==> zero.Stats() == t
        invariant scanZero ==>
          AccountAll(zero.flags, zero.Stats(), ReadAll(pm, Windows(at, end))) == AccountAll(zero.flags, t, ReadAll(pm, Windows(start, end)))
        decreases end - at
      {
        var ps := Pages(at / PAGE, next / PAGE);
        OneBlock(at, next, end);
        WindowsNext(pm, at, end);
        ScanWindow(pm, ps, scanZero);
        PagesSplit(start / PAGE, at / PAGE, next / PAGE);
        FramesSplit(pm, Pages(start / PAGE, at / PAGE), ps);
        at := next;
        next, pages := ScanStep(end, at);
      }
      if old(Sum(zero.base[..]) == zero.totalBase) && scanZero {
        HistogramConserved(zero.flags, t, ReadAll(pm, Windows(start, end)));
      }
    }
  }

  lemma FramesNone(pm: pagemap, ps: seq<nat>)
    ensures Frames(pm, ps[..0]) == {}
  {
  }

  lemma FramesNext(pm: pagemap, ps: seq<nat>, i: nat)
    requires i < |ps|
    ensures Frames(pm, ps[..i + 1]) == Frames(pm, ps[..i]) + if pm(ps[i]).present then {pm(ps[i]).pfn} else {}
  {
    assert ps[..i + 1] == ps[..i] + [ps[i]];
    FramesSplit(pm, ps[..i], [ps[i]]);
    assert [ps[i]][1..] == [];
  }

  lemma NoPages(pm: pagemap, p: nat)
    ensures Frames(pm, Pages(p, p)) == {}
  {
  }

  lemma WindowsNext(pm: pagemap, at: nat, end: nat)
    requires at % PAGE == 0 && end % PAGE == 0 && at < end
    ensures Window(at, Edge(at, end), end)
    ensures var e := Edge(at, end);
            ReadAll(pm, Windows(at, end)) == [Read(pm, Pages(at / PAGE, e / PAGE))] + ReadAll(pm, Windows(e, end))
  {
    hide Edge, Pages;
    EdgeIsWindow(at, end);
    var e := Edge(at, end);
    assert Windows(at, end) == [Pages(at / PAGE, e / PAGE)] + Windows(e, end);
    assert Windows(at, end)[1..] == Windows(e, end);
  }

  // ---- the dump ----

  /** One line of the dump: the blocks with `low` to `high` - 1 zero subpages, and those subpages. */
  datatype Line = Line(low: nat, high: nat, blocks: nat, subpages: nat)

  function RangeSum(s: seq<nat>, low: nat, high: nat): (n: nat)
    requires low <= high <= |s|
    decreases high
  {
    if low == high then 0 else RangeSum(s, low, high - 1) + s[high - 1]
  }

  function RangeWeight(s: seq<nat>, low: nat, high: nat): (n: nat)
    requires low <= high <= |s|
    decreases high
  {
    if low == high then 0 else RangeWeight(s, low, high - 1) + s[high - 1] * (high - 1)
  }

  lemma {:induction false} RangeJoin(s: seq<nat>, low: nat, mid: nat, high: nat)
    requires low <= mid <= high <= |s|
    ensures RangeSum(s, low, high) == RangeSum(s, low, mid) + RangeSum(s, mid, high)
    ensures RangeWeight(s, low, high) == RangeWeight(s, low, mid) + RangeWeight(s, mid, high)
    decreases high
  {
    if mid < high {
      RangeJoin(s, low, mid, high - 1);
    }
  }

  lemma {:induction false} RangeAll(s: seq<nat>)
    ensures RangeSum(s, 0, |s|) == Sum(s)
  {
    if s != [] {
      var t := s[..|s| - 1];
      RangeAll(t);
      RangePrefix(s, t, |t|);
    }
  }

  lemma {:induction false} RangePrefix(s: seq<nat>, t: seq<nat>, n: nat)
    requires n <= |t| && t <= s
    ensures RangeSum(s, 0, n) == RangeSum(t, 0, n)
  {
    if n > 0 {
      RangePrefix(s, t, n - 1);
    }
  }

  function TotalBlocks(ls: seq<Line>): (n: nat) {
    if ls == [] then 0 else TotalBlocks(ls[..|ls| - 1]) + ls[|ls| - 1].blocks
  }

  function TotalSubpages(ls: seq<Line>): (n: nat) {
    if ls == [] then 0 else TotalSubpages(ls[..|ls| - 1]) + ls[|ls| - 1].subpages
  }

  /** The lines tile [0, high). */
  predicate Tiling(ls: seq<Line>, high: nat) {
    if ls == [] then high == 0
    else ls[|ls| - 1].low < ls[|ls| - 1].high == high && Tiling(ls[..|ls| - 1], ls[|ls| - 1].low)
  }

  lemma TotalsAppend(ls: seq<Line>, l: Line)
    ensures TotalBlocks(ls + [l]) == TotalBlocks(ls) + l.blocks && TotalSubpages(ls + [l]) == TotalSubpages(ls) + l.subpages
    ensures Tiling(ls, l.low) && l.low < l.high ==> Tiling(ls + [l], l.high)
  {
    assert (ls + [l])[..|ls|] == ls;
  }

  /** The bounds of the lines: 0, 1, 2, 4 and so on up to 512, the last one raised to take in a full page. */
  function Bound(k: nat, isBase: bool): (n: nat) {
    if k == 0 then 0 else if k == 1 then 1 else if k == 10 && !isBase then 513 else 2 * Bound(k - 1, true)
  }

  /** Each line is about its own part of the histogram. */
  predicate Lines(ls: seq<Line>, histogram: seq<nat>, isBase: bool)
    requires |ls| <= 10 && |histogram| == if isBase then 512 else 513
  {
    forall k :: 0 <= k < |ls| ==>
      && ls[k].low == Bound(k, true) && ls[k].high == Bound(k + 1, isBase) && ls[k].low <= ls[k].high <= |histogram|
      && ls[k].blocks == RangeSum(histogram, ls[k].low, ls[k].high)
      && ls[k].subpages == RangeWeight(histogram, ls[k].low, ls[k].high)
  }

  lemma Bounds()
    ensures Bound(0, true) == 0 && Bound(1, true) == 1 && Bound(2, true) == 2 && Bound(3, true) == 4 && Bound(4, true) == 8
    ensures Bound(5, true) == 16 && Bound(6, true) == 32 && Bound(7, true) == 64 && Bound(8, true) == 128 && Bound(9, true) == 256
    ensures Bound(10, true) == 512 && Bound(10, false) == 513
    ensures forall k :: 0 <= k < 10 ==> Bound(k, false) == Bound(k, true)
  {
  }

  lemma BoundNext(k: nat, isBase: bool)
    requires k < 10
    ensures var low := Bound(k, isBase);
            var next := if low != 0 then low * 2 else 1;
            && low < 512 && low == Bound(k, true)
            && Bound(k + 1, isBase) == (if !isBase && next == 512 then next + 1 else next)
            && low < Bound(k + 1, isBase) <= (if isBase then 512 else 513)
            && (Bound(k + 1, isBase) < 512 <==> k < 9)
  {
    Bounds();
  }

  lemma LinesMore(ls: seq<Line>, l: Line, histogram: seq<nat>, isBase: bool)
    requires |ls| < 10 && |histogram| == (if isBase then 512 else 513) && Lines(ls, histogram, isBase)
    requires l.low == Bound(|ls|, true) && l.high == Bound(|ls| + 1, isBase) && l.low <= l.high <= |histogram|
    requires l.blocks == RangeSum(histogram, l.low, l.high) && l.subpages == RangeWeight(histogram, l.low, l.high)
    ensures Lines(ls + [l], histogram, isBase)
  {
    hide Bound, RangeSum, RangeWeight;
  }

  /**
   huge_stat_dump over either histogram: its lines tile the histogram, so every block and every zero
   subpage is counted in exactly one of them.
   */
  method Dump(histogram: seq<nat>, isBase: bool) returns (ls: seq<Line>)
    requires |histogram| == if isBase then HUGE_PAGES else HUGE_PAGES + 1
    ensures Tiling(ls, |histogram|) && |ls| == 10 && Lines(ls, histogram, isBase)
    ensures TotalBlocks(ls) == Sum(histogram)
    ensures TotalSubpages(ls) == RangeWeight(histogram, 0, |histogram|)
  {
    RangeAll(histogram);
    hide RangeSum, Sum, RangeWeight, TotalBlocks, TotalSubpages, Tiling;
    hide Bound, Lines;
    StartOfLines(histogram, isBase);
    ls := [];
    var low := 0;
    NoLines(histogram);
    while low < HUGE_PAGES
      invariant |ls| <= 10 && low == Bound(|ls|, isBase) && (low < HUGE_PAGES <==> |ls| < 10)
      invariant Lines(ls, histogram, isBase)
      invariant Tiling(ls, low) && low <= |histogram| && (|ls| == 10 ==> low == |histogram|)
      invariant TotalBlocks(ls) == RangeSum(histogram, 0, low) && TotalSubpages(ls) == RangeWeight(histogram, 0, low)
      decreases HUGE_PAGES - low
    {
      BoundNext(|ls|, isBase);
      var next := if low != 0 then low * 2 else 1;
      if !isBase && next == HUGE_PAGES {
        next := next + 1;
      }
      var blocks, subpages := SumLine(histogram, low, next);
      RangeJoin(histogram, 0, low, next);
      TotalsAppend(ls, Line(low, next, blocks, subpages));
      LinesMore(ls, Line(low, next, blocks, subpages), histogram, isBase);
      ls := ls + [Line(low, next, blocks, subpages)];
      low := next;
    }
  }

  method SumLine(histogram: seq<nat>, low: nat, high: nat) returns (blocks: nat, subpages: nat)
    requires low <= high <= |histogram|
    ensures blocks == RangeSum(histogram, low, high) && subpages == RangeWeight(histogram, low, high)
  {
    blocks, subpages := 0, 0;
    for i := low to high
      invariant blocks == RangeSum(histogram, low, i) && subpages == RangeWeight(histogram, low, i)
    {
      blocks, subpages := blocks + histogram[i], subpages + histogram[i] * i;
    }
  }

  lemma StartOfLines(histogram: seq<nat>, isBase: bool)
    requires |histogram| == if isBase then 512 else 513
    ensures Bound(0, isBase) == 0 && Lines([], histogram, isBase) && Bound(10, isBase) == |histogram|
  {
    Bounds();
  }

  lemma NoLines(histogram: seq<nat>)
    ensures RangeSum(histogram, 0, 0) == 0 && RangeWeight(histogram, 0, 0) == 0
    ensures TotalBlocks([]) == 0 && TotalSubpages([]) == 0 && Tiling([], 0)
  {
  }

  /**
   The whole of huge_stat_dump over a histogram kept in step with its counter: nothing when there are
   no huge pages, else lines whose blocks add up to the counter.
   */
  method HugeStatDump(histogram: seq<nat>, total: nat, isBase: bool) returns (ls: seq<Line>)
    requires |histogram| == if isBase then HUGE_PAGES else HUGE_PAGES + 1
    requires Sum(histogram) == total
    ensures TotalBlocks(ls) == total
    ensures total > 0 ==> Tiling(ls, |histogram|) && TotalSubpages(ls) == RangeWeight(histogram, 0, |histogram|)
  {
    if total == 0 {
      return [];
    }
    ls := Dump(histogram, isBase);
  }

  // ---- the scan of huge pages ----

  /** The flags of a 2 MiB block's head frame, and whether the given processes use it. */
  datatype Head = Head(thp: bool, anon: bool, zeroPage: bool, ofProcess: bool)

  /** A page frame as read from memory. */
  datatype Frame = Frame(readable: bool, words: seq<nat>)

  datatype HugeBlock = HugeBlock(head: Head, frames: seq<Frame>)

  predicate Whole(b: HugeBlock) {
    |b.frames| == HUGE_PAGES
  }

  predicate IsZero(words: seq<nat>) {
    forall i :: 0 <= i < |words| ==> words[i] == 0
  }

  /** Zero frames from frame `i` on, up to the first that cannot be read. */
  function ZeroFrom(frames: seq<Frame>, i: nat): (n: nat)
    requires i <= |frames|
    ensures n <= |frames| - i
    decreases |frames| - i
  {
    if i == |frames| || !frames[i].readable then 0
    else (if IsZero(frames[i].words) then 1 else 0) + ZeroFrom(frames, i + 1)
  }

  datatype ThpTally = ThpTally(zero: seq<nat>, total: nat, readonlyZero: nat)

  /** What one block adds: with `limited` only blocks of the given processes count. */
  function AccountThp(t: ThpTally, limited: bool, b: HugeBlock): (r: ThpTally)
    requires |t.zero| == HUGE_PAGES + 1 && Whole(b)
    ensures |r.zero| == HUGE_PAGES + 1
  {
    if (limited && !b.head.ofProcess) || !b.head.thp || !b.head.anon then t
    else if b.head.zeroPage then t.(readonlyZero := t.readonlyZero + 1)
    else
      var n := ZeroFrom(b.frames, 0);
      t.(zero := t.zero[n := t.zero[n] + 1], total := t.total + 1)
  }

  function AccountThps(t: ThpTally, limited: bool, bs: seq<HugeBlock>): (r: ThpTally)
    requires |t.zero| == HUGE_PAGES + 1 && forall b :: b in bs ==> Whole(b)
    ensures |r.zero| == HUGE_PAGES + 1
  {
    if bs == [] then t else AccountThp(AccountThps(t, limited, bs[..|bs| - 1]), limited, bs[|bs| - 1])
  }

  /** The histogram of huge pages always adds up to their total. */
  lemma {:induction false} ThpConserved(t: ThpTally, limited: bool, bs: seq<HugeBlock>)
    requires |t.zero| == HUGE_PAGES + 1 && (forall b :: b in bs ==> Whole(b)) && Sum(t.zero) == t.total
    ensures Sum(AccountThps(t, limited, bs).zero) == AccountThps(t, limited, bs).total
    decreases |bs|
  {
    hide Sum, ZeroFrom;
    if bs != [] {
      var u, b := AccountThps(t, limited, bs[..|bs| - 1]), bs[|bs| - 1];
      ThpConserved(t, limited, bs[..|bs| - 1]);
      assert b in bs && Whole(b);
      SumBump(u.zero, ZeroFrom(b.frames, 0));
    }
  }

  class ThpScanner {
    const zero: array<nat>
    var total: nat
    var readonlyZero: nat

    ghost predicate Valid()
      reads this, zero
    {
      zero.Length == HUGE_PAGES + 1 && Sum(zero[..]) == total
    }

    ghost function Stats(): (t: ThpTally)
      reads this, zero
    {
      ThpTally(zero[..], total, readonlyZero)
    }

    constructor ()
      ensures Valid() && fresh(zero) && total == 0 && readonlyZero == 0
    {
      zero := new nat[HUGE_PAGES + 1](_ => 0);
      total, readonlyZero := 0, 0;
      new;
      SumZero(zero[..]);
    }

    /** Whether a page holds nothing but zero words. */
    static method AllZero(words: seq<nat>) returns (r: bool)
      ensures r <==> IsZero(words)
    {
      var j := 0;
      while j < |words| && words[j] == 0
        invariant 0 <= j <= |words| && forall i :: 0 <= i < j ==> words[i] == 0
      {
        j := j + 1;
      }
      return j == |words|;
    }

    static method CountZero(frames: seq<Frame>) returns (n: nat)
      ensures n == ZeroFrom(frames, 0)
    {
      n := 0;
      var i := 0;
      while i < |frames|
        invariant 0 <= i <= |frames| && n + ZeroFrom(frames, i) == ZeroFrom(frames, 0)
      {
        if !frames[i].readable {
          return;
        }
        var z := AllZero(frames[i].words);
        if z {
          n := n + 1;
        }
        i := i + 1;
      }
    }

    /** scan_zero_subpages_in_thp over the blocks whose flags can be read. */
    method ScanThp(bs: seq<HugeBlock>, limited: bool)
      requires Valid() && forall b :: b in bs ==> Whole(b)
      modifies this, zero
      ensures Valid() && Stats() == AccountThps(old(Stats()), limited, bs)
    {
      hide Sum, ZeroFrom;
      ghost var t := Stats();
      var i := 0;
      assert bs[..0] == [];
      while i < |bs|
        invariant 0 <= i <= |bs| && zero.Length == HUGE_PAGES + 1
        invariant Stats() == AccountThps(t, limited, bs[..i])
      {
        var head := bs[i].head;
        assert bs[..i + 1][..i] == bs[..i];
        assert bs[i] in bs && Whole(bs[i]);
        if (!limited || head.ofProcess) && head.thp && head.anon {
          if head.zeroPage {
            readonlyZero := readonlyZero + 1;
          } else {
            var n := CountZero(bs[i].frames);
            zero[n] := zero[n] + 1;
            total := total + 1;
          }
        }
        i := i + 1;
      }
      assert bs[..i] == bs;
      ThpConserved(t, limited, bs);
    }

    /** The dump of the huge pages accounts for every one of them. */
    method Dump() returns (ls: seq<Line>)
      requires Valid()
      ensures TotalBlocks(ls) == total
    {
      ls := HugeStatDump(zero[..], total, false);
    }
  }

  lemma {:induction false} SumZero(s: seq<nat>)
    requires forall i :: 0 <= i < |s| ==> s[i] == 0
    ensures Sum(s) == 0
  {
    if s != [] {
      SumZero(s[..|s| - 1]);
    }
  }
}
