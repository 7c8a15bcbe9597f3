/** The delay arithmetic of the latency report. */
module DelayFormat {
  import opened IoTracer

  /** Nanoseconds to microseconds. */
  function Micro(t: nat): (u: nat)
    ensures u <= t
  {
    t / 1000
  }

  lemma MicroMonotone(a: nat, b: nat)
    requires a <= b
    ensures Micro(a) <= Micro(b)
  {
  }

  const WORD := 0x1_0000_0000_0000_0000

  /** Subtraction of unsigned longs. */
  function Minus(a: nat, b: nat): (d: nat)
    requires a < WORD && b < WORD
  {
    if a >= b then a - b else WORD + a - b
  }

  /** The time points of a report, as unsigned long longs. */
  predicate Times(ts: seq<nat>) {
    |ts| == POINTS && forall i :: 0 <= i < POINTS ==> ts[i] < WORD
  }

  /** The delay of one component: up to point `point`. */
  datatype Delay = Delay(point: nat, delay: nat)

  function Sum(ds: seq<Delay>): (n: nat) {
    if ds == [] then 0 else Sum(ds[..|ds| - 1]) + ds[|ds| - 1].delay
  }

  lemma SumAppend(ds: seq<Delay>, d: Delay)
    ensures Sum(ds + [d]) == Sum(ds) + d.delay
  {
    assert (ds + [d])[..|ds|] == ds;
  }

  /** The latest time among the first `n` points. */
  function Latest(ts: seq<nat>, n: nat): (t: nat)
    requires 0 < n <= |ts|
    ensures ts[0] <= t
    ensures forall i :: 0 <= i < n ==> ts[i] <= t
    ensures exists i :: 0 <= i < n && ts[i] == t
  {
    if n == 1 then ts[0] else
    var t := Latest(ts, n - 1);
    if ts[n - 1] > t then ts[n - 1] else t
  }

  function TotalDelay(ts: seq<nat>): (d: nat)
    requires Times(ts)
  {
    Minus(Micro(ts[COMPLETE]), Micro(ts[START]))
  }

  /** A component is reported for each point later than all before it, with the time since the latest of those. */
  function Components(ts: seq<nat>, n: nat): (ds: seq<Delay>)
    requires 0 < n <= |ts|
  {
    if n == 1 then [] else
    var t := Latest(ts, n - 1);
    if ts[n - 1] > t then
      MicroMonotone(t, ts[n - 1]);
      Components(ts, n - 1) + [Delay(n - 1, Micro(ts[n - 1]) - Micro(t))]
    else Components(ts, n - 1)
  }

  /** The components add up to the span from the start to the latest point, whatever is missing or out of order. */
  lemma {:induction false} ComponentsTelescope(ts: seq<nat>, n: nat)
    requires 0 < n <= |ts|
    ensures Sum(Components(ts, n)) == Micro(Latest(ts, n)) - Micro(ts[START])
  {
    hide Micro, Sum;
    if n == 1 {
      NoComponents();
    } else {
      var t := Latest(ts, n - 1);
      ComponentsTelescope(ts, n - 1);
      if ts[n - 1] > t {
        MicroMonotone(t, ts[n - 1]);
        SumAppend(Components(ts, n - 1), Delay(n - 1, Micro(ts[n - 1]) - Micro(t)));
      }
    }
  }

  lemma NoComponents()
    ensures Sum([]) == 0
  {
  }

  /** The point is later than all before it, the latest of which is `j`. */
  predicate Overtakes(ts: seq<nat>, j: nat, p: nat)
    requires j < p < |ts|
  {
    ts[j] < ts[p] && forall i :: 0 <= i < p ==> ts[i] <= ts[j]
  }

  lemma ComponentsNext(ts: seq<nat>, n: nat)
    requires 1 < n <= |ts|
    ensures var t, before := Latest(ts, n - 1), Components(ts, n - 1);
            if ts[n - 1] > t then
              ts[n - 1] / 1000 >= t / 1000 && Components(ts, n) == before + [Delay(n - 1, ts[n - 1] / 1000 - t / 1000)]
            else Components(ts, n) == before
  {
    hide Latest;
    MicroMonotone(Latest(ts, n - 1), if ts[n - 1] > Latest(ts, n - 1) then ts[n - 1] else Latest(ts, n - 1));
  }

  /** Which of the earlier points is overtaken. */
  lemma OvertakenLatest(ts: seq<nat>, p: nat)
    requires 0 < p < |ts|
    ensures (exists j :: 0 <= j < p && Overtakes(ts, j, p)) <==> ts[p] > Latest(ts, p)
    ensures forall j :: 0 <= j < p && Overtakes(ts, j, p) ==> ts[j] == Latest(ts, p)
  {
    hide Latest;
    var k :| 0 <= k < p && ts[k] == Latest(ts, p);
    if ts[p] > Latest(ts, p) {
      assert Overtakes(ts, k, p);
    }
  }

  /** A delay is that of its point. */
  predicate IsDelay(ts: seq<nat>, d: Delay)
    requires 0 < d.point < |ts|
  {
    exists j :: 0 <= j < d.point && Overtakes(ts, j, d.point) && d.delay + ts[j] / 1000 == ts[d.point] / 1000
  }

  lemma IsDelayLatest(ts: seq<nat>, d: Delay)
    requires 0 < d.point < |ts|
    ensures IsDelay(ts, d) <==> ts[d.point] > Latest(ts, d.point) && d.delay + Latest(ts, d.point) / 1000 == ts[d.point] / 1000
  {
    hide Overtakes, Latest;
    OvertakenLatest(ts, d.point);
  }

  /**
   A delay is reported exactly for the points later than all before them, under their own number, and is
   the time since the latest of those in microseconds.
   */
  lemma {:induction false} ComponentsMean(ts: seq<nat>, n: nat, d: Delay)
    requires 0 < n <= |ts|
    ensures d in Components(ts, n) <==> 0 < d.point < n && IsDelay(ts, d)
  {
    if n > 1 {
      hide Components, Latest, IsDelay;
      ComponentsMean(ts, n - 1, d);
      ComponentsNext(ts, n);
      if d.point == n - 1 {
        IsDelayLatest(ts, d);
      }
    }
  }

  predicate Ascending(ds: seq<Delay>, n: nat) {
    && (forall i :: 0 <= i < |ds| ==> ds[i].point < n)
    && (forall i, j :: 0 <= i < j < |ds| ==> ds[i].point < ds[j].point)
  }

  /** And they are reported in the order of the points. */
  lemma {:induction false} ComponentsInOrder(ts: seq<nat>, n: nat)
    requires 0 < n <= |ts|
    ensures Ascending(Components(ts, n), n)
  {
    if n > 1 {
      hide Components, Latest;
      ComponentsInOrder(ts, n - 1);
      ComponentsNext(ts, n);
    }
  }

  /** delay_convert_to_json. */
  method DelayConvert(ts: seq<nat>) returns (total: nat, delays: seq<Delay>)
    requires Times(ts)
    ensures total == TotalDelay(ts) && delays == Components(ts, POINTS)
  {
    hide Micro;
    total, delays := 0, [];
    var n, skip := 0, false;
    var i := 0;
    while i < POINTS
      invariant 0 <= i <= POINTS && 0 <= n <= i && n < POINTS
      invariant i == 0 ==> delays == [] && !skip
      invariant i > 0 ==> total == TotalDelay(ts) && delays == Components(ts, i)
      invariant i > 0 ==> (if skip then ts[n] else ts[i - 1]) == Latest(ts, i)
    {
      if i == START {
        total := Minus(Micro(ts[COMPLETE]), Micro(ts[START]));
      } else {
        if !skip {
          n := i - 1;
        }
        if ts[i] > ts[n] {
          MicroMonotone(ts[n], ts[i]);
          delays := delays + [Delay(i, Minus(Micro(ts[i]), Micro(ts[n])))];
          skip := false;
        } else {
          skip := true;
        }
      }
      i := i + 1;
    }
  }

  /** The components add up to the total exactly when no point is, in microseconds, later than the completion. */
  lemma ComponentsExact(ts: seq<nat>)
    requires Times(ts)
    ensures Sum(Components(ts, POINTS)) == TotalDelay(ts)
       <==> forall i :: 0 <= i < POINTS ==> Micro(ts[i]) <= Micro(ts[COMPLETE])
  {
    ComponentsTelescope(ts, POINTS);
    var t := Latest(ts, POINTS);
    MicroMonotone(ts[COMPLETE], t);
    MicroMonotone(ts[START], t);
    forall i | 0 <= i < POINTS ensures Micro(ts[i]) <= Micro(t) {
      MicroMonotone(ts[i], t);
    }
  }

  /** So they do for everything the tracer reports. */
  lemma ReportsExact(r: Request)
    requires Reported(r) && Times(r.ts)
    ensures Sum(Components(r.ts, POINTS)) == TotalDelay(r.ts)
  {
    forall i | 0 <= i < POINTS ensures Micro(r.ts[i]) <= Micro(r.ts[COMPLETE]) {
      MicroMonotone(r.ts[i], r.ts[COMPLETE]);
    }
    ComponentsExact(r.ts);
  }

  lemma SourcedTimes(r: Request, es: seq<Stamped>)
    requires Sourced(r, r.sector, es) && forall i :: 0 <= i < |es| ==> es[i].now < WORD
    ensures Times(r.ts)
  {
    forall p | 0 <= p < POINTS ensures r.ts[p] < WORD {
      if r.ts[p] != 0 {
        var i :| 0 <= i < |es| && es[i].now == r.ts[p] && Records(es[i].event, r.sector, p);
      }
    }
  }

  /** Over every run of the tracer with a monotone clock, the components of every reported request add up to its total. */
  lemma RunsExact(target: nat, es: seq<Stamped>, k: nat)
    requires Clocked(es) && (forall i :: 0 <= i < |es| ==> es[i].now < WORD)
    requires k < |Run(State(target, map[], []), es).emitted|
    ensures var r := Run(State(target, map[], []), es).emitted[k];
            Times(r.ts) && Sum(Components(r.ts, POINTS)) == TotalDelay(r.ts)
  {
    hide Run, Components;
    RunKeeps(target, es);
    RunSourced(target, es);
    var r := Run(State(target, map[], []), es).emitted[k];
    SourcedTimes(r, es);
    ReportsExact(r);
  }

  // ---- the largest delay ----

  function Gap(ts: seq<nat>, i: nat): (d: nat)
    requires Times(ts) && 0 < i < POINTS
  {
    Minus(Micro(ts[i]), Micro(ts[i - 1]))
  }

  /** get_max_delay and the point get_max_delay_component names: the first with the largest gap. */
  method MaxDelay(ts: seq<nat>) returns (max: nat, point: nat)
    requires Times(ts)
    ensures forall i :: 0 < i < POINTS ==> Gap(ts, i) <= max
    ensures point == 0 ==> max == 0
    ensures point != 0 ==> point < POINTS && Gap(ts, point) == max && max > 0
    ensures point != 0 ==> forall i :: 0 < i < point ==> Gap(ts, i) < max
  {
    max, point := 0, 0;
    var i := START + 1;
    while i < POINTS
      invariant 1 <= i <= POINTS
      invariant forall k :: 0 < k < i ==> Gap(ts, k) <= max
      invariant point == 0 ==> max == 0
      invariant point != 0 ==> point < i && Gap(ts, point) == max && max > 0
      invariant point != 0 ==> forall k :: 0 < k < point ==> Gap(ts, k) < max
    {
      var delay := Gap(ts, i);
      if max < delay {
        max, point := delay, i;
      }
      i := i + 1;
    }
  }

  predicate InOrder(ts: seq<nat>)
    requires Times(ts)
  {
    forall i :: 0 < i < POINTS ==> Micro(ts[i - 1]) <= Micro(ts[i])
  }

  /**
   The total does not wrap around and no gap exceeds it exactly when the points are in order:
   a missing or late point makes a gap wrap around to more than any total.
   */
  lemma GapsWithinTotal(ts: seq<nat>)
    requires Times(ts)
    ensures InOrder(ts) <==>
      Micro(ts[START]) <= Micro(ts[COMPLETE]) && forall i :: 0 < i < POINTS ==> Gap(ts, i) <= TotalDelay(ts)
  {
    MicroBound(ts[0]);
    MicroBound(ts[1]);
    MicroBound(ts[2]);
    MicroBound(ts[3]);
    MicroBound(ts[4]);
    hide Micro;
    if InOrder(ts) {
      assert Micro(ts[1 - 1]) <= Micro(ts[1]) && Micro(ts[2 - 1]) <= Micro(ts[2]);
      assert Micro(ts[3 - 1]) <= Micro(ts[3]) && Micro(ts[4 - 1]) <= Micro(ts[4]);
    } else {
      var i :| 0 < i < POINTS && Micro(ts[i - 1]) > Micro(ts[i]);
      assert Gap(ts, i) == WORD + Micro(ts[i]) - Micro(ts[i - 1]);
      MicroBound(ts[i - 1]);
    }
  }

  lemma MicroBound(t: nat)
    requires t < WORD
    ensures Micro(t) < WORD / 1000 + 1
  {
  }

  // ---- which reports are in order ----

  /**
   What the tracer reports is in order exactly when the driver point was recorded, or the clock read less
   than a microsecond at the start, and the device point is neither before it nor after the response.
   */
  lemma ReportInOrder(r: Request)
    requires Reported(r) && Times(r.ts)
    ensures InOrder(r.ts) <==>
      && (r.ts[ISSUE_DRIVER] != 0 || Micro(r.ts[START]) == 0)
      && Micro(r.ts[ISSUE_DRIVER]) <= Micro(r.ts[ISSUE_DEVICE]) <= Micro(r.ts[RESPONSE])
  {
    hide Micro;
    var ts := r.ts;
    NoTime();
    MicroMonotone(ts[START], ts[ISSUE_DEVICE]);
    MicroMonotone(ts[RESPONSE], ts[COMPLETE]);
    if ts[ISSUE_DRIVER] != 0 {
      MicroMonotone(ts[START], ts[ISSUE_DRIVER]);
    }
    if InOrder(ts) {
      assert Micro(ts[1 - 1]) <= Micro(ts[1]) && Micro(ts[2 - 1]) <= Micro(ts[2]) && Micro(ts[3 - 1]) <= Micro(ts[3]);
    }
  }

  lemma NoTime()
    ensures Micro(0) == 0
  {
  }

  /** So over every run, for every record it emits: no gap exceeds the total exactly then. */
  lemma RunsInOrder(target: nat, es: seq<Stamped>, k: nat)
    requires Clocked(es) && (forall i :: 0 <= i < |es| ==> es[i].now < WORD)
    requires k < |Run(State(target, map[], []), es).emitted|
    ensures var ts := Run(State(target, map[], []), es).emitted[k].ts;
            && Times(ts)
            && ((forall i :: 0 < i < POINTS ==> Gap(ts, i) <= TotalDelay(ts)) <==>
                && (ts[ISSUE_DRIVER] != 0 || Micro(ts[START]) == 0)
                && Micro(ts[ISSUE_DRIVER]) <= Micro(ts[ISSUE_DEVICE]) <= Micro(ts[RESPONSE]))
  {
    hide Run, Micro, InOrder, Gap;
    RunKeeps(target, es);
    RunSourced(target, es);
    var r := Run(State(target, map[], []), es).emitted[k];
    SourcedTimes(r, es);
    ReportInOrder(r);
    MicroMonotone(r.ts[START], r.ts[COMPLETE]);
    GapsWithinTotal(r.ts);
  }

  /** In particular where every event comes in turn. */
  lemma OrderlyRuns(target: nat, es: seq<Stamped>, k: nat)
    requires Clocked(es) && Orderly(target, es) && (forall i :: 0 <= i < |es| ==> es[i].now < WORD)
    requires k < |Run(State(target, map[], []), es).emitted|
    ensures var ts := Run(State(target, map[], []), es).emitted[k].ts;
            Times(ts) && forall i :: 0 < i < POINTS ==> Gap(ts, i) <= TotalDelay(ts)
  {
    hide Run, Micro, Gap;
    RunsInOrder(target, es, k);
    RunKeeps(target, es);
    RunOrdered(target, es);
    var r := Run(State(target, map[], []), es).emitted[k];
    assert Ordered(r) && Reported(r);
    MicroMonotone(r.ts[ISSUE_DRIVER], r.ts[ISSUE_DEVICE]);
    MicroMonotone(r.ts[ISSUE_DEVICE], r.ts[RESPONSE]);
  }

  /** A request whose driver point no probe reports. */
  function Unseen(dev: nat, x: nat): (es: seq<Stamped>) {
    [Stamped(GetRequest(dev, x, 8), 1000, 0), Stamped(Route(x, ISSUE_DEVICE), 2000, 0),
     Stamped(Route(x, RESPONSE), 3000, 0), Stamped(Finish(dev, x), 4000, 0)]
  }

  lemma UnseenRun(dev: nat, x: nat)
    ensures Clocked(Unseen(dev, x))
    ensures var s := Run(State(0, map[], []), Unseen(dev, x));
            |s.emitted| == 1 && s.emitted[0].ts == [1000, 0, 2000, 3000, 4000]
  {
    var es := Unseen(dev, x);
    var s0 := State(0, map[], []);
    assert es[..4] == es && es[..3][..2] == es[..2] && es[..2][..1] == es[..1] && es[..1][..0] == [] && es[..4][..3] == es[..3];
    var s1 := Step(s0, es[0]);
    assert Run(s0, es[..1]) == s1;
    var s2 := Step(s1, es[1]);
    assert Run(s0, es[..2]) == s2;
    var s3 := Step(s2, es[2]);
    assert Run(s0, es[..3]) == s3;
    assert s3.table[x].ts == [1000, 0, 2000, 3000, 0];
  }

  /** It is reported, and get_max_delay then finds a gap of almost 2^64 microseconds in a total of 3. */
  lemma MissingPointWraps(dev: nat, x: nat)
    ensures var s := Run(State(0, map[], []), Unseen(dev, x));
            && |s.emitted| == 1 && Times(s.emitted[0].ts)
            && TotalDelay(s.emitted[0].ts) == 3 && Gap(s.emitted[0].ts, ISSUE_DRIVER) == WORD - 1
  {
    hide Run, Unseen;
    UnseenRun(dev, x);
  }
}
