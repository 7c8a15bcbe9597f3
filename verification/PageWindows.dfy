/** Walking a page-aligned address range in windows that never cross a 2 MiB boundary. */
module PageWindows {

  const PAGE := 4096
  const HUGE_PAGES := 512
  const HUGE := 2097152

  /** Where the window that starts at `at` ends: the next 2 MiB boundary, or the end of the range. */
  function Edge(at: nat, end: nat): (e: nat) {
    var boundary := at + HUGE - (at + HUGE) % HUGE;
    if boundary > end then end else boundary
  }

  /** A window: page aligned, not empty, at most 512 pages, inside one 2 MiB block, ending at its edge or the range's. */
  predicate Window(at: nat, e: nat, end: nat) {
    && at < e <= end && e % PAGE == 0 && e - at <= HUGE && at / HUGE == (e - 1) / HUGE
    && (e == end || e % HUGE == 0)
  }

  lemma BlockIs(x: nat, q: nat)
    requires HUGE * q <= x < HUGE * q + HUGE
    ensures x / HUGE == q && x % HUGE == x - HUGE * q
  {
  }

  lemma BoundaryAligned(q: nat)
    ensures (HUGE * q) % PAGE == 0 && (HUGE * q) % HUGE == 0
  {
    assert HUGE * q == PAGE * (HUGE_PAGES * q);
  }

  lemma EdgeIsWindow(at: nat, end: nat)
    requires at % PAGE == 0 && end % PAGE == 0 && at < end
    ensures Window(at, Edge(at, end), end)
  {
    var q := at / HUGE;
    BlockIs(at, q);
    BlockIs(at + HUGE, q + 1);
    var boundary := HUGE * (q + 1);
    assert Edge(at, end) == if boundary > end then end else boundary;
    BoundaryAligned(q + 1);
    BlockIs(Edge(at, end) - 1, q);
  }

  /** scan_step: the end of the next window and its number of pages, 0 at the end of the range. */
  method ScanStep(end: nat, at: nat) returns (next: nat, pages: nat)
    requires at % PAGE == 0 && end % PAGE == 0 && at <= end
    ensures next == Edge(at, end) && pages * PAGE == next - at
    ensures at == end ==> pages == 0
    ensures at < end ==> Window(at, next, end) && 0 < pages <= HUGE_PAGES
  {
    next := at + HUGE - (at + HUGE) % HUGE;
    if next > end {
      next := end;
    }
    if at < end {
      EdgeIsWindow(at, end);
    }
    pages := (next - at) / PAGE;
  }

  /** The page numbers of an aligned range. */
  function Pages(from: nat, end: nat): (ps: seq<nat>)
    requires from <= end
    decreases end - from
  {
    if from == end then [] else [from] + Pages(from + 1, end)
  }

  lemma {:induction false} PagesSplit(from: nat, mid: nat, end: nat)
    requires from <= mid <= end
    ensures Pages(from, end) == Pages(from, mid) + Pages(mid, end)
    ensures |Pages(from, end)| == end - from
    decreases mid - from, end - from
  {
    if from < mid {
      PagesSplit(from + 1, mid, end);
    } else if from < end {
      PagesSplit(from + 1, from + 1, end);
    }
  }

  lemma {:induction false} PagesAt(from: nat, end: nat, i: nat)
    requires from <= end && i < end - from
    ensures |Pages(from, end)| == end - from && Pages(from, end)[i] == from + i
    decreases end - from
  {
    PagesSplit(from, from, end);
    if i > 0 {
      PagesAt(from + 1, end, i - 1);
    }
  }

  /** The windows of a range, as lists of page numbers. */
  function Windows(at: nat, end: nat): (ws: seq<seq<nat>>)
    requires at % PAGE == 0 && end % PAGE == 0 && at <= end
    decreases end - at
  {
    if at == end then [] else
    EdgeIsWindow(at, end);
    var e := Edge(at, end);
    [Pages(at / PAGE, e / PAGE)] + Windows(e, end)
  }

  function Concat(ws: seq<seq<nat>>): (ps: seq<nat>) {
    if ws == [] then [] else ws[0] + Concat(ws[1..])
  }

  /** The windows, one after the other, hold every page of the range once and in order. */
  lemma {:induction false} WindowsTile(at: nat, end: nat)
    requires at % PAGE == 0 && end % PAGE == 0 && at <= end
    ensures Concat(Windows(at, end)) == Pages(at / PAGE, end / PAGE)
    decreases end - at
  {
    hide Edge;
    if at < end {
      EdgeIsWindow(at, end);
      var e := Edge(at, end);
      WindowsTile(e, end);
      PagesSplit(at / PAGE, e / PAGE, end / PAGE);
      var ws := Windows(at, end);
      assert ws[1..] == Windows(e, end);
    }
  }

  /** Every window has 1 to 512 pages, all of one 2 MiB block. */
  lemma {:induction false} WindowsSmall(at: nat, end: nat, k: nat)
    requires at % PAGE == 0 && end % PAGE == 0 && at <= end && k < |Windows(at, end)|
    ensures var w := Windows(at, end)[k];
            0 < |w| <= HUGE_PAGES && forall i :: 0 <= i < |w| ==> w[i] / HUGE_PAGES == w[0] / HUGE_PAGES
    decreases end - at
  {
    hide Edge;
    EdgeIsWindow(at, end);
    var e := Edge(at, end);
    if k > 0 {
      WindowsSmall(e, end, k - 1);
    } else {
      OneBlock(at, e, end);
    }
  }

  lemma OneBlock(at: nat, e: nat, end: nat)
    requires at % PAGE == 0 && Window(at, e, end)
    ensures var w := Pages(at / PAGE, e / PAGE);
            0 < |w| <= HUGE_PAGES && forall i :: 0 <= i < |w| ==> w[i] / HUGE_PAGES == w[0] / HUGE_PAGES
  {
    var from, last := at / PAGE, e / PAGE;
    var w := Pages(from, last);
    PagesSplit(from, from, last);
    assert from / HUGE_PAGES == at / HUGE && (last - 1) / HUGE_PAGES == (e - 1) / HUGE by {
      BlockOf(from);
      BlockOf(last - 1);
      assert (e - 1) / HUGE == (PAGE * (last - 1)) / HUGE;
    }
    forall i | 0 <= i < |w| ensures w[i] / HUGE_PAGES == w[0] / HUGE_PAGES {
      PagesAt(from, last, i);
      PagesAt(from, last, 0);
    }
  }

  lemma BlockOf(page: nat)
    ensures (PAGE * page) / HUGE == page / HUGE_PAGES
  {
  }
}
