/**
 The tracer against a plain log: per sector, the events since its request was started. What the tracer
 keeps of a request is a digest of its log, and what it reports are the digests of the finished logs
 that passed both device points.
 */
module IoLog {
  import opened IoTracer

  /** The logs of the live requests, and those of the finished ones. */
  datatype Log = Log(live: map<nat, seq<Stamped>>, finished: seq<seq<Stamped>>)

  function LogStep(target: nat, l: Log, e: Stamped): (r: Log) {
    if !e.event.Route? && target != 0 && e.event.dev != target then l
    else
      var x := e.event.sector;
      if e.event.GetRequest? then
        if x in l.live || |l.live| < 2048 then l.(live := l.live[x := [e]]) else l
      else if x !in l.live then l
      else if e.event.Finish? then Log(l.live - {x}, l.finished + [l.live[x] + [e]])
      else l.(live := l.live[x := l.live[x] + [e]])
  }

  function LogRun(target: nat, es: seq<Stamped>): (l: Log) {
    if es == [] then Log(map[], []) else LogStep(target, LogRun(target, es[..|es| - 1]), es[|es| - 1])
  }

  // ---- what a log says ----

  /**
   What an event can be: one that reaches the driver, which the first issue or a probe of the driver does;
   a probe of the device or of the response; an issue that says how much data is asked for.
   */
  datatype Kind = ToDriver | ToDevice | ToResponse | Sizing

  predicate Is(e: Event, p: Kind) {
    match p
    case ToDriver => e.Issue? || (e.Route? && e.point == 1)
    case ToDevice => e.Route? && e.point == 2
    case ToResponse => e.Route? && e.point == 3
    case Sizing => e.Issue? && (e.bytes != 0 || e.sectors != 0)
  }

  /** The time of the first event of a kind, 0 if there is none. */
  ghost predicate First(h: seq<Stamped>, p: Kind, t: nat) {
    || (t == 0 && forall i :: 0 <= i < |h| ==> !Is(h[i].event, p))
    || (exists i :: 0 <= i < |h| && Is(h[i].event, p) && t == h[i].now && forall j :: 0 <= j < i ==> !Is(h[j].event, p))
  }

  /** The last event of a kind, -1 if there is none. */
  predicate Last(h: seq<Stamped>, p: Kind, k: int) {
    && -1 <= k < |h| && (k >= 0 ==> Is(h[k].event, p))
    && forall i :: k < i < |h| ==> !Is(h[i].event, p)
  }

  /** An issue behind the event that reached the driver. */
  predicate Reissue(h: seq<Stamped>, i: nat)
    requires i < |h|
  {
    h[i].event.Issue? && exists j :: 0 <= j < i && Is(h[j].event, ToDriver)
  }

  /** The device is reached by the last such issue, or else by the first probe of the device. */
  ghost predicate Device(h: seq<Stamped>, t: nat) {
    || (exists i :: 0 <= i < |h| && Reissue(h, i) && t == h[i].now && forall k :: i < k < |h| ==> !Reissue(h, k))
    || ((forall i :: 0 <= i < |h| ==> !Reissue(h, i)) && First(h, ToDevice, t))
  }

  function SizeOf(e: Event): (n: nat)
    requires e.Issue?
  {
    if e.bytes != 0 then e.bytes else e.sectors * 512 % 0x1_0000_0000
  }

  ghost predicate DataLength(h: seq<Stamped>, n: nat)
    requires h != [] && h[0].event.GetRequest?
  {
    exists k :: Last(h, Sizing, k) && n == if k >= 0 then SizeOf(h[k].event) else h[0].event.sectors * 512 % 0x1_0000_0000
  }

  ghost predicate ResponseCpu(h: seq<Stamped>, c: int) {
    exists k :: Last(h, ToResponse, k) && c == if k >= 0 then h[k].cpu else -1
  }

  predicate Started(h: seq<Stamped>, x: nat) {
    && h != [] && h[0].event.GetRequest?
    && forall i :: 0 <= i < |h| ==> h[i].event.sector == x && h[i].now > 0 && (i > 0 ==> !h[i].event.GetRequest?)
  }

  /** The record of a request whose log so far is `h`. */
  ghost predicate Digest(r: Request, h: seq<Stamped>) {
    && Shaped(r) && Started(h, r.sector)
    && r.ts[0] == h[0].now && First(h, ToDriver, r.ts[1]) && Device(h, r.ts[2]) && First(h, ToResponse, r.ts[3])
    && r.cpu[0] == h[0].cpu && ResponseCpu(h, r.cpu[1]) && DataLength(h, r.dataLength)
  }

  ghost predicate LiveDigest(r: Request, h: seq<Stamped>) {
    Digest(r, h) && r.ts[4] == 0 && r.cpu[2] == -1
  }

  /** The report on a finished log: that of the request before, with the time and processor of the last event. */
  ghost predicate Report(r: Request, h: seq<Stamped>) {
    && |h| > 1 && Digest(r, h[..|h| - 1])
    && r.ts[4] == h[|h| - 1].now && r.cpu[2] == h[|h| - 1].cpu
  }

  /** A log with both device points. */
  ghost predicate Passed(h: seq<Stamped>) {
    && (exists i :: 0 <= i < |h| && (Reissue(h, i) || Is(h[i].event, ToDevice)))
    && (exists i :: 0 <= i < |h| && Is(h[i].event, ToResponse))
  }

  /** The reports on the finished logs that passed both device points, in their order. */
  ghost predicate Reports(rs: seq<Request>, hs: seq<seq<Stamped>>)
    decreases |hs|
  {
    if hs == [] then rs == []
    else
      var h, before := hs[|hs| - 1], hs[..|hs| - 1];
      if Passed(h) then rs != [] && Report(rs[|rs| - 1], h) && Reports(rs[..|rs| - 1], before)
      else Reports(rs, before)
  }

  // ---- one more event ----

  lemma FirstMore(h: seq<Stamped>, p: Kind, t: nat, e: Stamped)
    requires First(h, p, t) && e.now > 0 && forall i :: 0 <= i < |h| ==> h[i].now > 0
    ensures First(h + [e], p, if t == 0 && Is(e.event, p) then e.now else t)
    ensures t == 0 <==> forall i :: 0 <= i < |h| ==> !Is(h[i].event, p)
  {
    var g := h + [e];
    if t == 0 && Is(e.event, p) {
      assert g[|h|] == e;
    } else if t != 0 {
      var i :| 0 <= i < |h| && Is(h[i].event, p) && t == h[i].now && forall j :: 0 <= j < i ==> !Is(h[j].event, p);
      assert g[i] == h[i];
    }
  }

  lemma LastMore(h: seq<Stamped>, p: Kind, k: int, e: Stamped)
    requires Last(h, p, k)
    ensures Last(h + [e], p, if Is(e.event, p) then |h| else k)
  {
  }

  lemma ReissueMore(h: seq<Stamped>, e: Stamped, i: nat)
    requires i < |h|
    ensures Reissue(h + [e], i) <==> Reissue(h, i)
  {
    var g := h + [e];
    if Reissue(g, i) {
      var j :| 0 <= j < i && Is(g[j].event, ToDriver);
      assert Is(h[j].event, ToDriver);
    }
    if Reissue(h, i) {
      var j :| 0 <= j < i && Is(h[j].event, ToDriver);
      assert Is(g[j].event, ToDriver);
    }
  }

  lemma ReissueLast(h: seq<Stamped>, e: Stamped)
    ensures Reissue(h + [e], |h|) <==> e.event.Issue? && exists j :: 0 <= j < |h| && Is(h[j].event, ToDriver)
  {
    var g := h + [e];
    if Reissue(g, |h|) {
      var j :| 0 <= j < |h| && Is(g[j].event, ToDriver);
      assert Is(h[j].event, ToDriver);
    }
    if exists j :: 0 <= j < |h| && Is(h[j].event, ToDriver) {
      var j :| 0 <= j < |h| && Is(h[j].event, ToDriver);
      assert Is(g[j].event, ToDriver);
    }
  }

  /** The device was reached by an issue. */
  ghost predicate ByIssue(h: seq<Stamped>, t: nat) {
    exists i :: 0 <= i < |h| && Reissue(h, i) && t == h[i].now && forall k :: i < k < |h| ==> !Reissue(h, k)
  }

  lemma ReissuesMore(h: seq<Stamped>, e: Stamped)
    ensures forall i :: 0 <= i < |h| ==> (Reissue(h + [e], i) <==> Reissue(h, i))
  {
    hide Reissue;
    forall i | 0 <= i < |h| ensures Reissue(h + [e], i) <==> Reissue(h, i) {
      ReissueMore(h, e, i);
    }
  }

  lemma ByIssueMore(h: seq<Stamped>, t: nat, e: Stamped)
    ensures Reissue(h + [e], |h|) ==> ByIssue(h + [e], e.now)
    ensures !Reissue(h + [e], |h|) && ByIssue(h, t) ==> ByIssue(h + [e], t)
  {
    hide Reissue;
    var g := h + [e];
    ReissuesMore(h, e);
    assert g[|h|] == e;
    if !Reissue(g, |h|) && ByIssue(h, t) {
      var i :| 0 <= i < |h| && Reissue(h, i) && t == h[i].now && forall k :: i < k < |h| ==> !Reissue(h, k);
      assert g[i] == h[i] && Reissue(g, i);
    }
  }

  lemma DeviceMore(h: seq<Stamped>, t: nat, e: Stamped)
    requires Device(h, t) && e.now > 0 && forall i :: 0 <= i < |h| ==> h[i].now > 0
    ensures Device(h + [e], if Reissue(h + [e], |h|) then e.now else if t == 0 && Is(e.event, ToDevice) then e.now else t)
  {
    hide Reissue, First;
    var g := h + [e];
    ByIssueMore(h, t, e);
    ReissuesMore(h, e);
    if !Reissue(g, |h|) {
      if ByIssue(h, t) {
        assert t > 0;
      } else {
        FirstMore(h, ToDevice, t, e);
        assert forall i :: 0 <= i < |g| ==> !Reissue(g, i);
      }
    }
  }

  lemma StartedMore(h: seq<Stamped>, x: nat, e: Stamped)
    requires Started(h, x) && e.event.sector == x && e.now > 0 && !e.event.GetRequest?
    ensures Started(h + [e], x) && (h + [e])[0] == h[0]
  {
  }

  lemma LengthMore(h: seq<Stamped>, n: nat, e: Stamped)
    requires h != [] && h[0].event.GetRequest? && DataLength(h, n)
    ensures DataLength(h + [e], if Is(e.event, Sizing) then SizeOf(e.event) else n)
  {
    var g := h + [e];
    var k :| Last(h, Sizing, k) && n == if k >= 0 then SizeOf(h[k].event) else h[0].event.sectors * 512 % 0x1_0000_0000;
    LastMore(h, Sizing, k, e);
    assert g[0] == h[0] && g[|h|] == e && (k >= 0 ==> g[k] == h[k]);
  }

  lemma CpuMore(h: seq<Stamped>, c: int, e: Stamped)
    requires ResponseCpu(h, c)
    ensures ResponseCpu(h + [e], if Is(e.event, ToResponse) then e.cpu else c)
  {
    var g := h + [e];
    var k :| Last(h, ToResponse, k) && c == if k >= 0 then h[k].cpu else -1;
    LastMore(h, ToResponse, k, e);
    assert g[|h|] == e && (k >= 0 ==> g[k] == h[k]);
  }

  /** Everything a log says, with one more event. */
  lemma DigestMore(r: Request, h: seq<Stamped>, e: Stamped)
    requires Digest(r, h) && e.event.sector == r.sector && e.now > 0 && !e.event.GetRequest?
    ensures var g := h + [e];
            && Started(g, r.sector) && g[0] == h[0]
            && First(g, ToDriver, if r.ts[1] == 0 && Is(e.event, ToDriver) then e.now else r.ts[1])
            && Device(g, if e.event.Issue? && r.ts[1] != 0 then e.now else if r.ts[2] == 0 && Is(e.event, ToDevice) then e.now else r.ts[2])
            && First(g, ToResponse, if r.ts[3] == 0 && Is(e.event, ToResponse) then e.now else r.ts[3])
            && ResponseCpu(g, if Is(e.event, ToResponse) then e.cpu else r.cpu[1])
            && DataLength(g, if Is(e.event, Sizing) then SizeOf(e.event) else r.dataLength)
  {
    hide First, Device, ResponseCpu, DataLength, Reissue, Is;
    StartedMore(h, r.sector, e);
    FirstMore(h, ToDriver, r.ts[1], e);
    FirstMore(h, ToResponse, r.ts[3], e);
    DeviceMore(h, r.ts[2], e);
    ReissueLast(h, e);
    CpuMore(h, r.cpu[1], e);
    LengthMore(h, r.dataLength, e);
  }

  lemma IssueDigest(r: Request, h: seq<Stamped>, e: Stamped)
    requires LiveDigest(r, h) && e.event.Issue? && e.event.sector == r.sector && e.now > 0
    ensures LiveDigest(Issued(r, e.event.sectors, e.event.bytes, e.now), h + [e])
  {
    hide First, Device, ResponseCpu, DataLength, Started;
    DigestMore(r, h, e);
  }

  lemma RouteDigest(r: Request, h: seq<Stamped>, e: Stamped)
    requires LiveDigest(r, h) && e.event.Route? && e.event.sector == r.sector && e.now > 0
    ensures LiveDigest(Routed(r, e.event.point, e.now, e.cpu), h + [e])
  {
    hide First, Device, ResponseCpu, DataLength, Started;
    DigestMore(r, h, e);
  }

  lemma NewDigest(e: Stamped)
    requires e.event.GetRequest? && e.now > 0
    ensures LiveDigest(NewRequest(e.event.sector, e.event.sectors, e.now, e.cpu), [e])
  {
    var h := [e];
    assert Last(h, Sizing, -1) && Last(h, ToResponse, -1);
  }

  lemma FinishDigest(r: Request, h: seq<Stamped>, e: Stamped)
    requires LiveDigest(r, h) && e.event.Finish?
    ensures Report(Finished(r, e.now, e.cpu), h + [e])
  {
    hide First, Device, ResponseCpu, DataLength;
    assert (h + [e])[..|h|] == h;
  }

  /** The record has both device points exactly when the log has. */
  lemma PassedExactly(r: Request, h: seq<Stamped>, e: Stamped)
    requires LiveDigest(r, h) && e.event.Finish?
    ensures Reportable(Finished(r, e.now, e.cpu)) <==> Passed(h + [e])
  {
    hide Reissue, ResponseCpu, DataLength;
    var g := h + [e];
    ReissuesMore(h, e);
    ReissueLast(h, e);
    assert forall i :: 0 <= i < |h| ==> g[i] == h[i];
    if r.ts[2] != 0 && r.ts[3] != 0 {
      if ByIssue(h, r.ts[2]) {
        var i :| 0 <= i < |h| && Reissue(h, i) && r.ts[2] == h[i].now && forall k :: i < k < |h| ==> !Reissue(h, k);
        assert Reissue(g, i);
      } else {
        var i :| 0 <= i < |h| && Is(h[i].event, ToDevice) && r.ts[2] == h[i].now && forall j :: 0 <= j < i ==> !Is(h[j].event, ToDevice);
        assert Is(g[i].event, ToDevice);
      }
      var i :| 0 <= i < |h| && Is(h[i].event, ToResponse) && r.ts[3] == h[i].now && forall j :: 0 <= j < i ==> !Is(h[j].event, ToResponse);
      assert Is(g[i].event, ToResponse);
    }
  }

  // ---- runs ----

  ghost predicate Refines(s: State, l: Log) {
    && s.table.Keys == l.live.Keys
    && (forall x :: x in s.table ==> s.table[x].sector == x && LiveDigest(s.table[x], l.live[x]))
    && Reports(s.emitted, l.finished)
  }

  lemma SameSize<A, B>(m: map<nat, A>, n: map<nat, B>)
    requires m.Keys == n.Keys
    ensures |m| == |n|
  {
    assert |m| == |m.Keys| && |n| == |n.Keys|;
  }

  lemma StepRefines(s: State, l: Log, e: Stamped)
    requires AllShaped(s.table) && Refines(s, l) && e.now > 0
    ensures Refines(Step(s, e), LogStep(s.target, l, e))
  {
    hide LiveDigest, Reports, Reportable, Bytes;
    var x := e.event.sector;
    SameSize(s.table, l.live);
    match e.event
    case GetRequest(_, _, _) => NewDigest(e);
    case Issue(_, _, _, _) =>
      if x in s.table {
        IssueDigest(s.table[x], l.live[x], e);
      }
    case Route(_, _) =>
      if x in s.table {
        RouteDigest(s.table[x], l.live[x], e);
      }
    case Finish(dev, _) =>
      if x in s.table && Concerns(s.target, dev) {
        FinishRefines(s, l, e);
      }
  }

  lemma FinishRefines(s: State, l: Log, e: Stamped)
    requires AllShaped(s.table) && Refines(s, l) && e.event.Finish? && e.event.sector in s.table && Concerns(s.target, e.event.dev)
    ensures Refines(Step(s, e), LogStep(s.target, l, e))
  {
    hide LiveDigest, Report, Passed, Reportable;
    var x := e.event.sector;
    var r, g := Finished(s.table[x], e.now, e.cpu), l.live[x] + [e];
    FinishDigest(s.table[x], l.live[x], e);
    PassedExactly(s.table[x], l.live[x], e);
    assert (l.finished + [g])[..|l.finished|] == l.finished;
    assert (s.emitted + [r])[..|s.emitted|] == s.emitted;
  }

  /** Over every run the tracer's table is the digest of the log, and its reports are those on the finished logs. */
  lemma {:induction false} RunRefines(target: nat, es: seq<Stamped>)
    requires Clocked(es)
    ensures Refines(Run(State(target, map[], []), es), LogRun(target, es))
  {
    hide Refines;
    if es == [] {
      StartRefines(target);
    } else {
      var before, e := es[..|es| - 1], es[|es| - 1];
      RunRefines(target, before);
      StepRefines(Run(State(target, map[], []), before), LogRun(target, before), e);
    }
  }

  lemma StartRefines(target: nat)
    ensures Refines(State(target, map[], []), Log(map[], []))
  {
  }
}
