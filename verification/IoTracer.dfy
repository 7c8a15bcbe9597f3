/** The block-layer latency tracer as a step system over its per-sector table. */
module IoTracer {

  const START := 0
  const ISSUE_DRIVER := 1
  const ISSUE_DEVICE := 2
  const RESPONSE := 3
  const COMPLETE := 4
  const POINTS := 5
  const CAPACITY := 2048

  /** A request under way: when it passed each point (0 for not yet), where, and how much. */
  datatype Request = Request(sector: nat, ts: seq<nat>, cpu: seq<int>, dataLength: nat)

  /** The driver probes report the points from issue to response. */
  type routed = p: nat | ISSUE_DRIVER <= p <= RESPONSE witness ISSUE_DRIVER

  datatype Event =
    | GetRequest(dev: nat, sector: nat, sectors: nat)
    | Issue(dev: nat, sector: nat, sectors: nat, bytes: nat)
    | Route(sector: nat, point: routed)
    | Finish(dev: nat, sector: nat)

  /** An event with the clock and processor its handler reads. */
  datatype Stamped = Stamped(event: Event, now: nat, cpu: int)

  datatype State = State(target: nat, table: map<nat, Request>, emitted: seq<Request>)

  /** Handlers of a configured target device pass over other devices. */
  predicate Concerns(target: nat, dev: nat) {
    target == 0 || dev == target
  }

  function Insert(table: map<nat, Request>, r: Request): (t: map<nat, Request>) {
    if r.sector !in table && |table| >= CAPACITY then table else table[r.sector := r]
  }

  /** nr_sector * 512 as an unsigned int. */
  function Bytes(sectors: nat): (n: nat) {
    sectors * 512 % 0x1_0000_0000
  }

  function NewRequest(sector: nat, sectors: nat, now: nat, cpu: int): (r: Request)
    ensures |r.ts| == POINTS && |r.cpu| == 3
  {
    Request(sector, [now, 0, 0, 0, 0], [cpu, -1, -1], Bytes(sectors))
  }

  predicate Shaped(r: Request) {
    |r.ts| == POINTS && |r.cpu| == 3
  }

  predicate AllShaped(table: map<nat, Request>) {
    forall x :: x in table ==> Shaped(table[x])
  }

  /** block_rq_issue: the first issue is the driver's, every later one the device's. */
  function Issued(r: Request, sectors: nat, bytes: nat, now: nat): (s: Request)
    requires Shaped(r)
    ensures Shaped(s)
  {
    var point := if r.ts[ISSUE_DRIVER] != 0 then ISSUE_DEVICE else ISSUE_DRIVER;
    r.(ts := r.ts[point := now],
       dataLength := if bytes != 0 then bytes else if sectors != 0 then Bytes(sectors) else r.dataLength)
  }

  /** trace_io_driver_route: a point is recorded once. */
  function Routed(r: Request, point: routed, now: nat, cpu: int): (s: Request)
    requires Shaped(r)
    ensures Shaped(s)
  {
    r.(ts := if r.ts[point] == 0 then r.ts[point := now] else r.ts,
       cpu := if point == RESPONSE then r.cpu[1 := cpu] else r.cpu)
  }

  function Finished(r: Request, now: nat, cpu: int): (s: Request)
    requires Shaped(r)
    ensures Shaped(s)
  {
    r.(ts := if r.ts[COMPLETE] == 0 then r.ts[COMPLETE := now] else r.ts, cpu := r.cpu[2 := cpu])
  }

  /** Only a request seen at the device and on its way back is reported. */
  predicate Reportable(r: Request)
    requires Shaped(r)
  {
    r.ts[ISSUE_DEVICE] != 0 && r.ts[RESPONSE] != 0
  }

  function Step(s: State, e: Stamped): (t: State)
    requires AllShaped(s.table)
    ensures AllShaped(t.table) && t.target == s.target
  {
    match e.event
    case GetRequest(dev, sector, sectors) =>
      if !Concerns(s.target, dev) then s
      else s.(table := Insert(s.table, NewRequest(sector, sectors, e.now, e.cpu)))
    case Issue(dev, sector, sectors, bytes) =>
      if !Concerns(s.target, dev) || sector !in s.table then s
      else s.(table := s.table[sector := Issued(s.table[sector], sectors, bytes, e.now)])
    case Route(sector, point) =>
      if sector !in s.table then s
      else s.(table := s.table[sector := Routed(s.table[sector], point, e.now, e.cpu)])
    case Finish(dev, sector) =>
      if !Concerns(s.target, dev) || sector !in s.table then s
      else
        var r := Finished(s.table[sector], e.now, e.cpu);
        State(s.target, s.table - {sector}, if Reportable(r) then s.emitted + [r] else s.emitted)
  }

  function Run(s: State, es: seq<Stamped>): (t: State)
    requires AllShaped(s.table)
    ensures AllShaped(t.table) && t.target == s.target
  {
    if es == [] then s else Step(Run(s, es[..|es| - 1]), es[|es| - 1])
  }

  // ---- invariants of every run ----

  /** The clock is never 0 and never goes back. */
  predicate Clocked(es: seq<Stamped>) {
    && (forall i :: 0 <= i < |es| ==> es[i].now > 0)
    && (forall i, j :: 0 <= i < j < |es| ==> es[i].now <= es[j].now)
  }

  /** A live request: started, every recorded point between its start and now, not completed. */
  predicate Live(r: Request, x: nat, now: nat) {
    && Shaped(r) && r.sector == x && 0 < r.ts[START] && r.ts[COMPLETE] == 0
    && forall p :: 0 <= p < POINTS && r.ts[p] != 0 ==> r.ts[START] <= r.ts[p] <= now
  }

  /** A reported request: no recorded point before its start or after its completion. */
  predicate Reported(r: Request) {
    && Shaped(r) && 0 < r.ts[START] && 0 < r.ts[COMPLETE] && Reportable(r)
    && forall p :: 0 <= p < POINTS && r.ts[p] != 0 ==> r.ts[START] <= r.ts[p] <= r.ts[COMPLETE]
  }

  predicate Invariant(s: State, now: nat) {
    && (forall x :: x in s.table ==> Live(s.table[x], x, now))
    && (forall i :: 0 <= i < |s.emitted| ==> Reported(s.emitted[i]))
  }

  lemma LiveLater(r: Request, x: nat, now: nat, later: nat)
    requires Live(r, x, now) && now <= later
    ensures Live(r, x, later)
  {
  }

  lemma StepKeeps(s: State, e: Stamped, now: nat)
    requires AllShaped(s.table) && Invariant(s, now) && now <= e.now && e.now > 0
    ensures Invariant(Step(s, e), e.now)
  {
    hide Live, Reported, Bytes, Reportable;
    forall x | x in s.table ensures Live(s.table[x], x, e.now) {
      LiveLater(s.table[x], x, now, e.now);
    }
    var x := e.event.sector;
    if e.event.GetRequest? {
      NewLive(x, e.event.sectors, e.now, e.cpu);
    } else if x in s.table {
      HandledLive(s.table[x], x, e, now);
    }
  }

  lemma NewLive(x: nat, sectors: nat, now: nat, cpu: int)
    requires now > 0
    ensures Live(NewRequest(x, sectors, now, cpu), x, now)
  {
  }

  /** What the handlers make of a live request. */
  lemma HandledLive(r: Request, x: nat, e: Stamped, now: nat)
    requires Live(r, x, now) && now <= e.now && e.now > 0
    ensures e.event.Issue? ==> Live(Issued(r, e.event.sectors, e.event.bytes, e.now), x, e.now)
    ensures e.event.Route? ==> Live(Routed(r, e.event.point, e.now, e.cpu), x, e.now)
    ensures e.event.Finish? && Reportable(Finished(r, e.now, e.cpu)) ==> Reported(Finished(r, e.now, e.cpu))
  {
  }

  function Clock(es: seq<Stamped>): (t: nat) {
    if es == [] then 0 else es[|es| - 1].now
  }

  /** Over every run with a monotone clock, every reported request is in order between start and completion. */
  lemma {:induction false} RunKeeps(target: nat, es: seq<Stamped>)
    requires Clocked(es)
    ensures Invariant(Run(State(target, map[], []), es), Clock(es))
  {
    if es != [] {
      var before := es[..|es| - 1];
      RunKeeps(target, before);
      StepKeeps(Run(State(target, map[], []), before), es[|es| - 1], Clock(before));
    }
  }

  // ---- where the recorded times come from ----

  /** The event records a time for this point of a request on sector `x`. */
  predicate Records(e: Event, x: nat, p: nat) {
    match e
    case GetRequest(_, sector, _) => sector == x && p == START
    case Issue(_, sector, _, _) => sector == x && (p == ISSUE_DRIVER || p == ISSUE_DEVICE)
    case Route(sector, point) => sector == x && p == point
    case Finish(_, sector) => sector == x && p == COMPLETE
  }

  /** Every recorded time is that of an event of the run that records this point. */
  ghost predicate Sourced(r: Request, x: nat, es: seq<Stamped>) {
    Shaped(r) && forall p :: 0 <= p < POINTS && r.ts[p] != 0 ==> exists i :: 0 <= i < |es| && es[i].now == r.ts[p] && Records(es[i].event, x, p)
  }

  lemma SourcedPoint(r: Request, s: Request, x: nat, es: seq<Stamped>, e: Stamped, p: nat)
    requires Sourced(r, x, es) && Shaped(s) && p < POINTS && Records(e.event, x, p) && e.now > 0
    requires s.ts == r.ts || s.ts == r.ts[p := e.now]
    ensures Sourced(s, x, es + [e])
  {
    var more := es + [e];
    forall q | 0 <= q < POINTS && s.ts[q] != 0
      ensures exists i :: 0 <= i < |more| && more[i].now == s.ts[q] && Records(more[i].event, x, q)
    {
      if s.ts[q] == r.ts[q] {
        var i :| 0 <= i < |es| && es[i].now == r.ts[q] && Records(es[i].event, x, q);
        assert more[i] == es[i];
      } else {
        assert q == p && more[|es|] == e;
      }
    }
  }

  lemma SourcedLater(r: Request, x: nat, es: seq<Stamped>, e: Stamped)
    requires Sourced(r, x, es)
    ensures Sourced(r, x, es + [e])
  {
    var more := es + [e];
    forall q | 0 <= q < POINTS && r.ts[q] != 0
      ensures exists i :: 0 <= i < |more| && more[i].now == r.ts[q] && Records(more[i].event, x, q)
    {
      var i :| 0 <= i < |es| && es[i].now == r.ts[q] && Records(es[i].event, x, q);
      assert more[i] == es[i];
    }
  }

  ghost predicate AllSourced(s: State, es: seq<Stamped>) {
    && (forall x :: x in s.table ==> Sourced(s.table[x], x, es))
    && (forall i :: 0 <= i < |s.emitted| ==> Sourced(s.emitted[i], s.emitted[i].sector, es))
  }

  lemma StepSourced(s: State, e: Stamped, es: seq<Stamped>, now: nat)
    requires AllShaped(s.table) && Invariant(s, now) && AllSourced(s, es) && e.now > 0
    ensures AllSourced(Step(s, e), es + [e])
  {
    var t, x := Step(s, e), e.event.sector;
    if x in s.table {
      var r := s.table[x];
      assert Live(r, x, now);
      hide Sourced, Live, Records, Reported;
      match e.event {
        case GetRequest(_, _, _) =>
        case Issue(_, _, sectors, bytes) =>
          RecordsIssue(e, x);
          SourcedPoint(r, Issued(r, sectors, bytes, e.now), x, es, e, if r.ts[ISSUE_DRIVER] != 0 then ISSUE_DEVICE else ISSUE_DRIVER);
        case Route(_, point) =>
          RecordsOther(e, x);
          SourcedPoint(r, Routed(r, point, e.now, e.cpu), x, es, e, point);
        case Finish(_, _) =>
          RecordsOther(e, x);
          SourcedPoint(r, Finished(r, e.now, e.cpu), x, es, e, COMPLETE);
      }
    }
    if e.event.GetRequest? {
      NewSourced(e, es);
    }
    hide Sourced, Live, Records, Reported;
    forall y | y in s.table ensures Sourced(s.table[y], y, es + [e]) {
      SourcedLater(s.table[y], y, es, e);
    }
    forall i | 0 <= i < |s.emitted| ensures Sourced(s.emitted[i], s.emitted[i].sector, es + [e]) {
      SourcedLater(s.emitted[i], s.emitted[i].sector, es, e);
    }
  }

  lemma RecordsIssue(e: Stamped, x: nat)
    requires e.event.Issue? && e.event.sector == x
    ensures Records(e.event, x, ISSUE_DRIVER) && Records(e.event, x, ISSUE_DEVICE)
  {
  }

  lemma RecordsOther(e: Stamped, x: nat)
    requires e.event.sector == x
    ensures e.event.Route? ==> Records(e.event, x, e.event.point)
    ensures e.event.Finish? ==> Records(e.event, x, COMPLETE)
  {
  }

  lemma NewSourced(e: Stamped, es: seq<Stamped>)
    requires e.event.GetRequest?
    ensures Sourced(NewRequest(e.event.sector, e.event.sectors, e.now, e.cpu), e.event.sector, es + [e])
  {
    var more := es + [e];
    assert more[|es|] == e && Records(e.event, e.event.sector, START);
  }

  /** Over every run, each recorded time of a live or reported request is that of an event recording that point. */
  lemma {:induction false} RunSourced(target: nat, es: seq<Stamped>)
    requires Clocked(es)
    ensures AllSourced(Run(State(target, map[], []), es), es)
  {
    hide Sourced, Invariant;
    if es != [] {
      var before, e := es[..|es| - 1], es[|es| - 1];
      RunSourced(target, before);
      RunKeeps(target, before);
      StepSourced(Run(State(target, map[], []), before), e, before, Clock(before));
      assert before + [e] == es;
    }
  }

  // ---- the order of the issue points ----

  /** The device point is set only after the driver point. */
  predicate DriverFirst(r: Request) {
    Shaped(r) && (r.ts[ISSUE_DEVICE] != 0 ==> 0 < r.ts[ISSUE_DRIVER] <= r.ts[ISSUE_DEVICE])
  }

  predicate DriversFirst(s: State) {
    && (forall x :: x in s.table ==> DriverFirst(s.table[x]))
    && (forall i :: 0 <= i < |s.emitted| ==> DriverFirst(s.emitted[i]))
  }

  lemma StepDriversFirst(s: State, e: Stamped, now: nat)
    requires AllShaped(s.table) && Invariant(s, now) && DriversFirst(s) && now <= e.now && e.now > 0
    requires e.event.Route? ==> e.event.point != ISSUE_DEVICE
    ensures DriversFirst(Step(s, e))
  {
    if e.event.sector in s.table {
      assert Live(s.table[e.event.sector], e.event.sector, now);
    }
  }

  /** Where no driver probe reports the device point, every live or reported request passed the driver first. */
  lemma {:induction false} RunDriversFirst(target: nat, es: seq<Stamped>)
    requires Clocked(es) && forall i :: 0 <= i < |es| && es[i].event.Route? ==> es[i].event.point != ISSUE_DEVICE
    ensures DriversFirst(Run(State(target, map[], []), es))
  {
    hide Invariant, DriverFirst;
    if es != [] {
      var before, e := es[..|es| - 1], es[|es| - 1];
      RunDriversFirst(target, before);
      RunKeeps(target, before);
      StepDriversFirst(Run(State(target, map[], []), before), e, Clock(before));
    }
  }

  // ---- requests that pass their points in turn ----

  /** The points recorded so far are the first ones, in order. */
  predicate Ordered(r: Request) {
    && DriverFirst(r)
    && (r.ts[RESPONSE] != 0 ==> 0 < r.ts[ISSUE_DEVICE] <= r.ts[RESPONSE])
  }

  predicate AllOrdered(s: State) {
    && (forall x :: x in s.table ==> Ordered(s.table[x]))
    && (forall i :: 0 <= i < |s.emitted| ==> Ordered(s.emitted[i]))
  }

  /** The event finds its request at a point where its own comes next. */
  predicate InTurn(s: State, e: Event)
    requires AllShaped(s.table)
  {
    e.sector in s.table && (e.Issue? ==> Concerns(s.target, e.dev)) ==>
      var ts := s.table[e.sector].ts;
      match e
      case Issue(_, _, _, _) => ts[if ts[ISSUE_DRIVER] == 0 then ISSUE_DEVICE else RESPONSE] == 0
      case Route(_, point) =>
        ts[point] != 0 || (if point == ISSUE_DRIVER then ts[ISSUE_DEVICE] == 0 else ts[point - 1] != 0 && ts[point + 1] == 0)
      case _ => true
  }

  /** Every event of the run comes in turn. */
  predicate Orderly(target: nat, es: seq<Stamped>) {
    es == [] || (Orderly(target, es[..|es| - 1]) && InTurn(Run(State(target, map[], []), es[..|es| - 1]), es[|es| - 1].event))
  }

  lemma StepOrdered(s: State, e: Stamped, now: nat)
    requires AllShaped(s.table) && Invariant(s, now) && AllOrdered(s) && now <= e.now && e.now > 0 && InTurn(s, e.event)
    ensures AllOrdered(Step(s, e))
  {
    if e.event.sector in s.table {
      assert Live(s.table[e.event.sector], e.event.sector, now);
    }
  }

  /** Over every orderly run, each live or reported request has passed its points in order. */
  lemma {:induction false} RunOrdered(target: nat, es: seq<Stamped>)
    requires Clocked(es) && Orderly(target, es)
    ensures AllOrdered(Run(State(target, map[], []), es))
  {
    hide Invariant, Ordered, InTurn;
    if es != [] {
      var before, e := es[..|es| - 1], es[|es| - 1];
      RunOrdered(target, before);
      RunKeeps(target, before);
      StepOrdered(Run(State(target, map[], []), before), e, Clock(before));
    }
  }

  // ---- at most one report for each request ----

  /** How often a request for the sector was started. */
  function Starts(target: nat, es: seq<Stamped>, x: nat): (n: nat) {
    if es == [] then 0
    else
      var e := es[|es| - 1].event;
      Starts(target, es[..|es| - 1], x) + if e.GetRequest? && e.sector == x && Concerns(target, e.dev) then 1 else 0
  }

  function Reports(rs: seq<Request>, x: nat): (n: nat) {
    if rs == [] then 0 else Reports(rs[..|rs| - 1], x) + if rs[|rs| - 1].sector == x then 1 else 0
  }

  lemma ReportsAppend(rs: seq<Request>, r: Request, x: nat)
    ensures Reports(rs + [r], x) == Reports(rs, x) + if r.sector == x then 1 else 0
  {
    assert (rs + [r])[..|rs|] == rs;
  }

  lemma ClockedBefore(es: seq<Stamped>)
    requires Clocked(es) && es != []
    ensures Clocked(es[..|es| - 1])
  {
  }

  lemma LiveSector(s: State, x: nat, now: nat)
    requires Invariant(s, now) && x in s.table
    ensures s.table[x].sector == x
  {
    assert Live(s.table[x], x, now);
  }

  /** Every report uses up one start of its sector, and a live request still holds one. */
  lemma {:induction false} OneReportEach(target: nat, es: seq<Stamped>, x: nat)
    requires Clocked(es)
    ensures var s := Run(State(target, map[], []), es);
            Reports(s.emitted, x) + (if x in s.table then 1 else 0) <= Starts(target, es, x)
  {
    hide Invariant, Clocked, Reportable, Bytes;
    if es != [] {
      var before, e := es[..|es| - 1], es[|es| - 1];
      var s := Run(State(target, map[], []), before);
      ClockedBefore(es);
      RunKeeps(target, before);
      OneReportEach(target, before, x);
      if e.event.Finish? && e.event.sector in s.table {
        ReportsAppend(s.emitted, Finished(s.table[e.event.sector], e.now, e.cpu), x);
        LiveSector(s, e.event.sector, Clock(before));
      }
    }
  }

  // ---- the handlers ----

  class Tracer {
    const target: nat
    var table: map<nat, Request>
    var emitted: seq<Request>

    ghost predicate Valid()
      reads this
    {
      AllShaped(table) && |table| <= CAPACITY
    }

    ghost function Contents(): (s: State)
      reads this
    {
      State(target, table, emitted)
    }

    constructor (target: nat)
      ensures Valid() && Contents() == State(target, map[], [])
    {
      this.target := target;
      table := map[];
      emitted := [];
    }

    method BlockGetRq(dev: nat, sector: nat, sectors: nat, now: nat, cpu: int)
      requires Valid()
      modifies this
      ensures Valid() && Contents() == Step(old(Contents()), Stamped(GetRequest(dev, sector, sectors), now, cpu))
    {
      if target != 0 && dev != target {
        return;
      }
      var r := NewRequest(sector, sectors, now, cpu);
      if sector in table || |table| < CAPACITY {
        table := table[sector := r];
      }
    }

    method BlockRqIssue(dev: nat, sector: nat, sectors: nat, bytes: nat, now: nat, cpu: int)
      requires Valid()
      modifies this
      ensures Valid() && Contents() == Step(old(Contents()), Stamped(Issue(dev, sector, sectors, bytes), now, cpu))
    {
      if (target != 0 && dev != target) || sector !in table {
        return;
      }
      var r := table[sector];
      var point := ISSUE_DRIVER;
      if r.ts[point] != 0 {
        point := ISSUE_DEVICE;
      }
      r := r.(ts := r.ts[point := now]);
      if bytes != 0 {
        r := r.(dataLength := bytes);
      } else if sectors != 0 {
        r := r.(dataLength := Bytes(sectors));
      }
      table := table[sector := r];
    }

    method DriverRoute(sector: nat, point: routed, now: nat, cpu: int)
      requires Valid()
      modifies this
      ensures Valid() && Contents() == Step(old(Contents()), Stamped(Route(sector, point), now, cpu))
    {
      if sector !in table {
        return;
      }
      var r := table[sector];
      if r.ts[point] == 0 {
        r := r.(ts := r.ts[point := now]);
      }
      if point == RESPONSE {
        r := r.(cpu := r.cpu[1 := cpu]);
      }
      table := table[sector := r];
    }

    method BlockRqComplete(dev: nat, sector: nat, now: nat, cpu: int)
      requires Valid()
      modifies this
      ensures Valid() && Contents() == Step(old(Contents()), Stamped(Finish(dev, sector), now, cpu))
    {
      if (target != 0 && dev != target) || sector !in table {
        return;
      }
      var r := table[sector];
      if r.ts[COMPLETE] == 0 {
        r := r.(ts := r.ts[COMPLETE := now]);
      }
      var complete := r.ts[ISSUE_DEVICE] != 0 && r.ts[RESPONSE] != 0;
      r := r.(cpu := r.cpu[2 := cpu]);
      if complete {
        emitted := emitted + [r];
      }
      table := table - {sector};
    }
  }
}
