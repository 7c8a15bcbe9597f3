/** What the zero-subpage statistics count, as sets of pages, frames, blocks and windows. */
module ZeroCounts {
  import opened Counting
  import opened PageWindows
  import opened ZeroSubpages

  // ---- pages of a window ----

  function PresentPages(w: seq<Raw>): (m: seq<bool>) {
    seq(|w|, i requires 0 <= i < |w| => w[i].present)
  }

  lemma {:induction false} PresentMeans(w: seq<Raw>)
    ensures Present(w) == Number(PresentPages(w))
  {
    hide Number;
    if w == [] {
      NumberNone();
    } else {
      var n := |w| - 1;
      PresentMeans(w[..n]);
      NumberMore(PresentPages(w[..n]), w[n].present);
      assert PresentPages(w) == PresentPages(w[..n]) + [w[n].present];
    }
  }

  /** The huge page of a window is that of its first present page: 512 frames from a multiple of 512 on. */
  predicate IsThp(flags: thpflags, w: seq<Raw>, head: nat, i: nat) {
    && i < |w| && w[i].present && (forall j :: 0 <= j < i ==> !w[j].present)
    && flags(w[i].pfn) && head % 512 == 0 && head <= w[i].pfn < head + 512
  }

  lemma {:induction false} ThpMeans(flags: thpflags, w: seq<Raw>, head: nat)
    requires head != 0
    ensures ThpOf(flags, w) == head <==> exists i :: IsThp(flags, w, head, i)
    decreases |w|
  {
    if w != [] {
      if w[0].present {
        HeadFrame(w[0].pfn, head);
        if ThpOf(flags, w) == head {
          assert IsThp(flags, w, head, 0);
        }
      } else {
        ThpMeans(flags, w[1..], head);
        if exists i :: IsThp(flags, w[1..], head, i) {
          var i: nat :| IsThp(flags, w[1..], head, i);
          assert IsThp(flags, w, head, i + 1);
        }
        if exists i :: IsThp(flags, w, head, i) {
          var i: nat :| IsThp(flags, w, head, i);
          assert i > 0;
          assert IsThp(flags, w[1..], head, i - 1);
        }
      }
    }
  }

  lemma HeadFrame(pfn: nat, head: nat)
    ensures pfn - pfn % 512 == head <==> head % 512 == 0 && head <= pfn < head + 512
  {
  }

  /** The marked frames are those that a present page of the list maps to. */
  lemma {:induction false} FramesMean(pm: pagemap, ps: seq<nat>, f: nat)
    ensures f in Frames(pm, ps) <==> exists i :: 0 <= i < |ps| && pm(ps[i]).present && pm(ps[i]).pfn == f
  {
    if ps != [] {
      FramesMean(pm, ps[1..], f);
      if exists i :: 0 <= i < |ps| - 1 && pm(ps[1..][i]).present && pm(ps[1..][i]).pfn == f {
        var i :| 0 <= i < |ps| - 1 && pm(ps[1..][i]).present && pm(ps[1..][i]).pfn == f;
        assert ps[i + 1] == ps[1..][i];
      }
      if exists i :: 0 <= i < |ps| && pm(ps[i]).present && pm(ps[i]).pfn == f {
        var i :| 0 <= i < |ps| && pm(ps[i]).present && pm(ps[i]).pfn == f;
        if i > 0 {
          assert ps[1..][i - 1] == ps[i];
        }
      }
    }
  }

  // ---- windows ----

  lemma {:induction false} AccountLast(flags: thpflags, t: Tally, ws: seq<seq<Raw>>, w: seq<Raw>)
    requires |t.base| == HUGE_PAGES
    ensures AccountAll(flags, t, ws + [w]) == Account(flags, AccountAll(flags, t, ws), w)
    decreases |ws|
  {
    hide Account;
    if ws == [] {
      assert ws + [w] == [w] && [w][1..] == [];
      assert AccountAll(flags, Account(flags, t, w), []) == Account(flags, t, w);
    } else {
      assert (ws + [w])[0] == ws[0] && (ws + [w])[1..] == ws[1..] + [w];
      AccountLast(flags, Account(flags, t, ws[0]), ws[1..], w);
    }
  }

  /** The huge page last seen before window `k`, or `last` if there was none. */
  predicate Previous(flags: thpflags, ws: seq<seq<Raw>>, k: nat, last: nat, h: nat)
    requires k <= |ws|
  {
    || (h == last && forall i :: 0 <= i < k ==> ThpOf(flags, ws[i]) == 0)
    || (h != 0 && exists j :: 0 <= j < k && ThpOf(flags, ws[j]) == h && forall i :: j < i < k ==> ThpOf(flags, ws[i]) == 0)
  }

  /** Part of a huge page is gone: the window has less than 512 pages or not all of them present. */
  predicate Split(flags: thpflags, ws: seq<seq<Raw>>, last: nat, k: nat)
    requires k < |ws|
  {
    var h := ThpOf(flags, ws[k]);
    h != 0 && (|ws[k]| < 512 || Number(PresentPages(ws[k])) < |ws[k]|) && !Previous(flags, ws, k, last, h)
  }

  function Splits(flags: thpflags, ws: seq<seq<Raw>>, last: nat): (m: seq<bool>) {
    seq(|ws|, k requires 0 <= k < |ws| => Split(flags, ws, last, k))
  }

  lemma PreviousPrefix(flags: thpflags, ws: seq<seq<Raw>>, w: seq<Raw>, k: nat, last: nat, h: nat)
    requires k <= |ws|
    ensures Previous(flags, ws + [w], k, last, h) <==> Previous(flags, ws, k, last, h)
  {
    hide ThpOf;
    var vs := ws + [w];
    assert forall i :: 0 <= i < k ==> vs[i] == ws[i];
    if Previous(flags, vs, k, last, h) && !(h == last && forall i :: 0 <= i < k ==> ThpOf(flags, vs[i]) == 0) {
      var j :| 0 <= j < k && ThpOf(flags, vs[j]) == h && forall i :: j < i < k ==> ThpOf(flags, vs[i]) == 0;
      assert ThpOf(flags, ws[j]) == h;
    }
    if Previous(flags, ws, k, last, h) && !(h == last && forall i :: 0 <= i < k ==> ThpOf(flags, ws[i]) == 0) {
      var j :| 0 <= j < k && ThpOf(flags, ws[j]) == h && forall i :: j < i < k ==> ThpOf(flags, ws[i]) == 0;
      assert ThpOf(flags, vs[j]) == h;
    }
  }

  lemma PreviousNext(flags: thpflags, ws: seq<seq<Raw>>, last: nat, h: nat)
    requires ws != []
    ensures var n := |ws| - 1;
            var thp := ThpOf(flags, ws[n]);
            Previous(flags, ws, |ws|, last, h) <==> if thp != 0 then h == thp else Previous(flags, ws, n, last, h)
  {
    hide ThpOf;
    var n := |ws| - 1;
    var thp := ThpOf(flags, ws[n]);
    if thp == 0 && Previous(flags, ws, n, last, h) && !(h == last && forall i :: 0 <= i < n ==> ThpOf(flags, ws[i]) == 0) {
      var j :| 0 <= j < n && ThpOf(flags, ws[j]) == h && forall i :: j < i < n ==> ThpOf(flags, ws[i]) == 0;
      assert ThpOf(flags, ws[j]) == h;
    }
  }

  lemma SplitsMore(flags: thpflags, ws: seq<seq<Raw>>, w: seq<Raw>, last: nat)
    ensures Number(Splits(flags, ws + [w], last))
         == Number(Splits(flags, ws, last)) + if Split(flags, ws + [w], last, |ws|) then 1 else 0
  {
    hide ThpOf, Previous, Number;
    var vs := ws + [w];
    forall k | 0 <= k < |ws| ensures Split(flags, vs, last, k) <==> Split(flags, ws, last, k) {
      PreviousPrefix(flags, ws, w, k, last, ThpOf(flags, ws[k]));
    }
    hide Split;
    NumberMore(Splits(flags, ws, last), Split(flags, vs, last, |ws|));
    assert Splits(flags, vs, last) == Splits(flags, ws, last) + [Split(flags, vs, last, |ws|)];
  }

  /**
   The deferred splits are the windows on a huge page with some of its pages gone, consecutive windows on
   the same huge page counted once; the last huge page is remembered across windows without one.
   */
  lemma {:induction false} DeferredMeans(flags: thpflags, t: Tally, ws: seq<seq<Raw>>)
    requires |t.base| == HUGE_PAGES
    ensures var r := AccountAll(flags, t, ws);
            && r.deferredSplit == t.deferredSplit + Number(Splits(flags, ws, t.lastThp))
            && forall h :: r.lastThp == h <==> Previous(flags, ws, |ws|, t.lastThp, h)
    decreases |ws|
  {
    if ws == [] {
      NumberNone();
      assert Splits(flags, ws, t.lastThp) == [];
    } else {
      hide Splits, AccountAll, ThpOf, Previous, Number;
      var n := |ws| - 1;
      var before, w := ws[..n], ws[n];
      assert ws == before + [w];
      DeferredMeans(flags, t, before);
      AccountLast(flags, t, before, w);
      SplitsMore(flags, before, w, t.lastThp);
      PresentMeans(w);
      PreviousPrefix(flags, before, w, n, t.lastThp, ThpOf(flags, w));
      forall h ensures AccountAll(flags, t, ws).lastThp == h <==> Previous(flags, ws, |ws|, t.lastThp, h) {
        PreviousNext(flags, ws, t.lastThp, h);
        PreviousPrefix(flags, before, w, n, t.lastThp, h);
      }
    }
  }

  function TotalPresent(ws: seq<seq<Raw>>): (n: nat) {
    if ws == [] then 0 else Number(PresentPages(ws[0])) + TotalPresent(ws[1..])
  }

  /** The resident pages are the present ones. */
  lemma {:induction false} ResidentMeans(flags: thpflags, t: Tally, ws: seq<seq<Raw>>)
    requires |t.base| == HUGE_PAGES
    ensures AccountAll(flags, t, ws).rss == t.rss + TotalPresent(ws)
    decreases |ws|
  {
    hide ThpOf, PresentPages, Number;
    if ws != [] {
      PresentMeans(ws[0]);
      ResidentMeans(flags, Account(flags, t, ws[0]), ws[1..]);
    }
  }

  // ---- huge pages ----

  /** Every frame up to this one can be read. */
  predicate Reached(frames: seq<Frame>, i: nat)
    requires i <= |frames|
  {
    forall j :: 0 <= j < i ==> frames[j].readable
  }

  predicate ZeroFrame(f: Frame) {
    forall k :: 0 <= k < |f.words| ==> f.words[k] == 0
  }

  /** The frames of zeros before the first that cannot be read. */
  function ZeroFrames(frames: seq<Frame>, n: nat): (m: seq<bool>)
    requires n <= |frames|
  {
    seq(n, i requires 0 <= i < n => Reached(frames, i + 1) && ZeroFrame(frames[i]))
  }

  lemma {:induction false} ZeroPrefix(frames: seq<Frame>, n: nat)
    requires n <= |frames|
    ensures ZeroFrom(frames, 0) == Number(ZeroFrames(frames, n)) + if Reached(frames, n) then ZeroFrom(frames, n) else 0
  {
    hide Number;
    if n == 0 {
      NumberNone();
      assert ZeroFrames(frames, 0) == [];
    } else {
      ZeroPrefix(frames, n - 1);
      var b := Reached(frames, n) && ZeroFrame(frames[n - 1]);
      NumberMore(ZeroFrames(frames, n - 1), b);
      assert ZeroFrames(frames, n) == ZeroFrames(frames, n - 1) + [b];
      ReadOn(frames, n - 1);
    }
  }

  lemma ReadOn(frames: seq<Frame>, i: nat)
    requires i < |frames|
    ensures Reached(frames, i + 1) <==> Reached(frames, i) && frames[i].readable
    ensures IsZero(frames[i].words) <==> ZeroFrame(frames[i])
  {
  }

  lemma ZeroMeans(frames: seq<Frame>)
    ensures ZeroFrom(frames, 0) == Number(ZeroFrames(frames, |frames|))
  {
    hide Number, ZeroFrames;
    ZeroPrefix(frames, |frames|);
  }

  /** Anonymous huge pages, of the given processes if there are any given. */
  predicate Eligible(limited: bool, b: HugeBlock) {
    (limited ==> b.head.ofProcess) && b.head.thp && b.head.anon
  }

  predicate HasZeros(limited: bool, b: HugeBlock, k: nat) {
    Eligible(limited, b) && !b.head.zeroPage && Number(ZeroFrames(b.frames, |b.frames|)) == k
  }

  predicate IsZeroPage(limited: bool, b: HugeBlock) {
    Eligible(limited, b) && b.head.zeroPage
  }

  /** The blocks with `k` zero frames. */
  function WithZeros(limited: bool, bs: seq<HugeBlock>, k: nat): (m: seq<bool>) {
    seq(|bs|, i requires 0 <= i < |bs| => HasZeros(limited, bs[i], k))
  }

  function ZeroPages(limited: bool, bs: seq<HugeBlock>): (m: seq<bool>) {
    seq(|bs|, i requires 0 <= i < |bs| => IsZeroPage(limited, bs[i]))
  }

  lemma BlocksMore(limited: bool, bs: seq<HugeBlock>, b: HugeBlock, k: nat)
    ensures Number(WithZeros(limited, bs + [b], k)) == Number(WithZeros(limited, bs, k)) + if HasZeros(limited, b, k) then 1 else 0
    ensures Number(ZeroPages(limited, bs + [b])) == Number(ZeroPages(limited, bs)) + if IsZeroPage(limited, b) then 1 else 0
  {
    hide HasZeros, IsZeroPage, Number;
    NumberMore(WithZeros(limited, bs, k), HasZeros(limited, b, k));
    NumberMore(ZeroPages(limited, bs), IsZeroPage(limited, b));
    assert WithZeros(limited, bs + [b], k) == WithZeros(limited, bs, k) + [HasZeros(limited, b, k)];
    assert ZeroPages(limited, bs + [b]) == ZeroPages(limited, bs) + [IsZeroPage(limited, b)];
  }

  lemma BlockMeans(t: ThpTally, limited: bool, b: HugeBlock, k: nat)
    requires |t.zero| == HUGE_PAGES + 1 && Whole(b) && k <= HUGE_PAGES
    ensures var r := AccountThp(t, limited, b);
            && r.zero[k] == t.zero[k] + (if HasZeros(limited, b, k) then 1 else 0)
            && r.readonlyZero == t.readonlyZero + if IsZeroPage(limited, b) then 1 else 0
  {
    hide ZeroFrom, ZeroFrames, Number;
    ZeroMeans(b.frames);
  }

  /** Entry `k` of the histogram counts the huge pages with `k` zero frames, the read-only zero page apart. */
  lemma {:induction false} ThpHistogramMeans(t: ThpTally, limited: bool, bs: seq<HugeBlock>, k: nat)
    requires |t.zero| == HUGE_PAGES + 1 && (forall b :: b in bs ==> Whole(b)) && k <= HUGE_PAGES
    ensures var r := AccountThps(t, limited, bs);
            && r.zero[k] == t.zero[k] + Number(WithZeros(limited, bs, k))
            && r.readonlyZero == t.readonlyZero + Number(ZeroPages(limited, bs))
    decreases |bs|
  {
    if bs == [] {
      NumberNone();
      assert WithZeros(limited, bs, k) == [] && ZeroPages(limited, bs) == [];
    } else {
      hide HasZeros, IsZeroPage, WithZeros, ZeroPages, AccountThp, Number;
      var n := |bs| - 1;
      assert bs[n] in bs && bs == bs[..n] + [bs[n]];
      ThpHistogramMeans(t, limited, bs[..n], k);
      BlockMeans(AccountThps(t, limited, bs[..n]), limited, bs[n], k);
      BlocksMore(limited, bs[..n], bs[n], k);
    }
  }
}
