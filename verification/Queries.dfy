/** The reading side of the metrics table.  The queries leave some freedom (the
    order of rows that share a timestamp, the choice among them), so each query
    is the relation between a table and its admissible answers. */
module Queries {
  import opened Telemetry

  type Points = seq<MetricPoint>

  // ------------------------------------------------------------ QueryMetrics

  const ROW_LIMIT: nat := 1000

  predicate Matches(p: MetricPoint, service: string, from: Time, to: Time) {
    p.service == service && from <= p.timestamp <= to
  }

  /** The points that match, in table order. */
  function Select(points: Points, service: string, from: Time, to: Time): Points {
    if points == [] then []
    else
      var init, last := Select(points[..|points| - 1], service, from, to), points[|points| - 1];
      if Matches(last, service, from, to) then init + [last] else init
  }

  predicate NewestFirst(r: Points) {
    forall i, j :: 0 <= i < j < |r| ==> r[i].timestamp >= r[j].timestamp
  }

  /** An admissible answer: matching points, newest first, and when the limit cuts
      some off, none that is newer than one in the answer. */
  ghost predicate IsMetricsAnswer(points: Points, service: string, from: Time, to: Time, r: Points) {
    IsNewestPart(Select(points, service, from, to), r)
  }

  /** The newest of the given points, up to the limit, newest first. */
  ghost predicate IsNewestPart(all: Points, r: Points) {
    && multiset(r) <= multiset(all)
    && |r| == (if |all| <= ROW_LIMIT then |all| else ROW_LIMIT)
    && NewestFirst(r)
    && forall x, y :: x in multiset(all) - multiset(r) && y in r ==> x.timestamp <= y.timestamp
  }

  lemma {:induction false} SelectMeaning(points: Points, service: string, from: Time, to: Time)
    ensures forall p :: p in Select(points, service, from, to) <==>
                        p in points && p.service == service && from <= p.timestamp <= to
  {
    if points != [] {
      var init, last := points[..|points| - 1], points[|points| - 1];
      assert points == init + [last];
      SelectMeaning(init, service, from, to);
    }
  }

  /** What an answer looks like: at most 1000 points of the service in the time range,
      all of them if there are no more, the newest first. */
  lemma AnswerShape(points: Points, service: string, from: Time, to: Time, r: Points, i: nat)
    requires IsMetricsAnswer(points, service, from, to, r) && i < |r|
    ensures r[i] in points && r[i].service == service && from <= r[i].timestamp <= to
    ensures forall j :: i < j < |r| ==> r[j].timestamp <= r[i].timestamp
    ensures |r| <= 1000 && (|r| < 1000 ==> multiset(r) == multiset(Select(points, service, from, to)))
  {
    SelectMeaning(points, service, from, to);
    assert r[i] in multiset(r) && r[i] in Select(points, service, from, to);
    if |r| < 1000 {
      assert |multiset(r)| == |multiset(Select(points, service, from, to))|;
      SameSizeMultisets(multiset(r), multiset(Select(points, service, from, to)));
    }
  }

  /** How many other matching points are as new as `p`. */
  function Rivals(points: Points, service: string, p: MetricPoint, to: Time): int {
    var late := Select(points, service, p.timestamp, to);
    |late| - multiset(late)[p]
  }

  /** A later start of the window leaves out the earlier points and no others. */
  lemma {:induction false} SelectLater(points: Points, service: string, from: Time, later: Time, to: Time, x: MetricPoint)
    requires from <= later
    ensures multiset(Select(points, service, later, to))[x] ==
            if x.timestamp >= later then multiset(Select(points, service, from, to))[x] else 0
  {
    if points != [] {
      SelectLater(points[..|points| - 1], service, from, later, to, x);
    }
  }

  /** A matching point is in an answer if fewer than the limit of other matching
      points are as new, however many points the whole window holds. */
  lemma AnswerComplete(points: Points, service: string, from: Time, to: Time, r: Points, p: MetricPoint)
    requires IsMetricsAnswer(points, service, from, to, r)
    requires Rivals(points, service, p, to) < ROW_LIMIT
    requires p in points && Matches(p, service, from, to)
    ensures p in r
  {
    var all, late := Select(points, service, from, to), Select(points, service, p.timestamp, to);
    SelectMeaning(points, service, from, to);
    assert p in all;
    if p !in r {
      forall x ensures multiset(r)[x] <= (multiset(late)[p := 0])[x] {
        SelectLater(points, service, from, p.timestamp, to, x);
        if x in r {
          assert p in multiset(all) - multiset(r);
          assert x.timestamp >= p.timestamp;
        }
      }
      SubmultisetSize(multiset(r), multiset(late)[p := 0]);
      assert |multiset(late)[p := 0]| == |late| - multiset(late)[p];
      assert |multiset(r)| == |multiset(all)|;
      SameSizeMultisets(multiset(r), multiset(all));
      assert false;
    }
  }

  lemma SubmultisetSize(a: multiset<MetricPoint>, b: multiset<MetricPoint>)
    requires a <= b
    ensures |a| <= |b|
  {
    assert b == a + (b - a);
  }

  /** The condition is exact: otherwise some admissible answer leaves the point out. */
  lemma AlwaysAnsweredIff(points: Points, service: string, from: Time, to: Time, p: MetricPoint)
    requires p in points && Matches(p, service, from, to)
    ensures (forall r :: IsMetricsAnswer(points, service, from, to, r) ==> p in r) <==>
            Rivals(points, service, p, to) < ROW_LIMIT
  {
    if Rivals(points, service, p, to) < ROW_LIMIT {
      forall r | IsMetricsAnswer(points, service, from, to, r) ensures p in r {
        AnswerComplete(points, service, from, to, r, p);
      }
    } else {
      var r := CrowdedOut(points, service, from, to, p);
    }
  }

  /** Some admissible answer holds a matching point exactly if fewer than the limit of
      matching points are strictly newer. */
  lemma SometimesAnsweredIff(points: Points, service: string, from: Time, to: Time, p: MetricPoint)
    requires p in points && Matches(p, service, from, to)
    ensures (exists r :: IsMetricsAnswer(points, service, from, to, r) && p in r) <==>
            |Select(points, service, p.timestamp + 1, to)| < ROW_LIMIT
  {
    if |Select(points, service, p.timestamp + 1, to)| < ROW_LIMIT {
      var r := FirstOfTies(points, service, from, to, p);
    }
    if r :| IsMetricsAnswer(points, service, from, to, r) && p in r {
      NewerComeFirst(points, service, from, to, p, r);
    }
  }

  /** An answer that holds a point holds all strictly newer ones as well. */
  lemma NewerComeFirst(points: Points, service: string, from: Time, to: Time, p: MetricPoint, r: Points)
    requires IsMetricsAnswer(points, service, from, to, r) && p in r && from <= p.timestamp
    ensures |Select(points, service, p.timestamp + 1, to)| < ROW_LIMIT
  {
    var all, newer := Select(points, service, from, to), Select(points, service, p.timestamp + 1, to);
    forall x ensures (multiset(newer) + multiset{p})[x] <= multiset(r)[x] {
      SelectLater(points, service, from, p.timestamp + 1, to, x);
      assert x in multiset(all) - multiset(r) ==> x.timestamp <= p.timestamp;
      assert p in multiset(r);
    }
    SubmultisetSize(multiset(newer) + multiset{p}, multiset(r));
  }

  /** An answer that prefers the point to others of the same time. */
  lemma FirstOfTies(points: Points, service: string, from: Time, to: Time, p: MetricPoint) returns (r: Points)
    requires p in points && Matches(p, service, from, to)
    requires |Select(points, service, p.timestamp + 1, to)| < ROW_LIMIT
    ensures IsMetricsAnswer(points, service, from, to, r) && p in r
  {
    var all, newer := Select(points, service, from, to), Select(points, service, p.timestamp + 1, to);
    SelectMeaning(points, service, from, to);
    forall x: MetricPoint ensures multiset(newer)[x] == if x.timestamp > p.timestamp then multiset(all)[x] else 0 {
      SelectLater(points, service, from, p.timestamp + 1, to, x);
    }
    var first := SortedByTime(newer);
    var rest := OthersSorted(all, newer, p);
    assert |multiset(first)| == |multiset(newer)|;
    TiesInOrder(first, rest, p);
    r := FrontOf(all, first, rest, p);
  }

  lemma FrontOf(all: Points, first: Points, rest: Points, p: MetricPoint) returns (r: Points)
    requires NewestFirst(first + ([p] + rest)) && |first| < ROW_LIMIT
    requires multiset(first) + multiset{p} + multiset(rest) == multiset(all)
    ensures IsNewestPart(all, r) && p in r
  {
    var sorted := first + ([p] + rest);
    assert multiset(sorted) == multiset(first) + (multiset([p]) + multiset(rest));
    r := FirstRows(all, sorted);
    assert sorted[|first|] == p;
    assert |sorted| > |first| && |r| > |first| && r[|first|] == p;
  }

  lemma OthersSorted(all: Points, newer: Points, p: MetricPoint) returns (rest: Points)
    requires p in all
    requires forall x :: multiset(newer)[x] == if x.timestamp > p.timestamp then multiset(all)[x] else 0
    ensures NewestFirst(rest) && multiset(newer) + multiset{p} + multiset(rest) == multiset(all)
    ensures forall x :: x in rest ==> x.timestamp <= p.timestamp
  {
    var others := multiset(all) - multiset(newer) - multiset{p};
    var listed := ListOf(others);
    rest := SortedByTime(listed);
    forall x | x in rest ensures x.timestamp <= p.timestamp {
      assert x in multiset(rest);
    }
  }

  lemma {:induction false} ListOf(m: multiset<MetricPoint>) returns (points: Points)
    ensures multiset(points) == m
    decreases |m|
  {
    if m == multiset{} {
      points := [];
    } else {
      var x :| x in m;
      points := ListOf(m - multiset{x});
      points := points + [x];
      assert m == m - multiset{x} + multiset{x};
    }
  }

  lemma TiesInOrder(first: Points, rest: Points, p: MetricPoint)
    requires NewestFirst(first) && NewestFirst(rest)
    requires forall x :: x in multiset(first) ==> x.timestamp > p.timestamp
    requires forall x :: x in rest ==> x.timestamp <= p.timestamp
    ensures NewestFirst(first + ([p] + rest))
  {
    assert forall i :: 0 <= i < |first| ==> first[i] in multiset(first);
  }

  function Without(points: Points, p: MetricPoint): (r: Points)
    ensures multiset(r) == multiset(points)[p := 0]
  {
    if points == [] then []
    else
      var init, last := points[..|points| - 1], points[|points| - 1];
      assert points == init + [last];
      if last == p then Without(init, p) else Without(init, p) + [last]
  }

  /** An answer made of the newest of the other points. */
  lemma CrowdedOut(points: Points, service: string, from: Time, to: Time, p: MetricPoint) returns (r: Points)
    requires p in points && Matches(p, service, from, to) && Rivals(points, service, p, to) >= ROW_LIMIT
    ensures IsMetricsAnswer(points, service, from, to, r) && p !in r
  {
    var all, late := Select(points, service, from, to), Select(points, service, p.timestamp, to);
    var others := Without(late, p);
    var sorted := SortedByTime(others);
    assert |multiset(sorted)| == |multiset(others)| == |multiset(late)[p := 0]|;
    r := sorted[..ROW_LIMIT];
    FirstOfSorted(sorted, ROW_LIMIT);
    forall x ensures multiset(sorted)[x] == if x.timestamp >= p.timestamp && x != p then multiset(all)[x] else 0 {
      SelectLater(points, service, from, p.timestamp, to, x);
    }
    NewestOfAll(all, sorted, r, p);
  }

  lemma NewestOfAll(all: Points, sorted: Points, r: Points, p: MetricPoint)
    requires forall x :: multiset(sorted)[x] ==
               if x.timestamp >= p.timestamp && x != p then multiset(all)[x] else 0
    requires multiset(r) <= multiset(sorted)
    requires forall x, y :: x in multiset(sorted) - multiset(r) && y in r ==> x.timestamp <= y.timestamp
    ensures multiset(r) <= multiset(all) && p !in r && |r| <= |all|
    ensures forall x, y :: x in multiset(all) - multiset(r) && y in r ==> x.timestamp <= y.timestamp
  {
    forall x ensures multiset(r)[x] <= multiset(sorted)[x] <= multiset(all)[x] {
    }
    SubmultisetSize(multiset(r), multiset(all));
    assert p !in multiset(r);
    forall x, y | x in multiset(all) - multiset(r) && y in r ensures x.timestamp <= y.timestamp {
      assert multiset(sorted)[y] > 0;
      if x.timestamp >= p.timestamp && x != p {
        assert x in multiset(sorted) - multiset(r);
      }
    }
  }

  lemma SameSizeMultisets(a: multiset<MetricPoint>, b: multiset<MetricPoint>)
    requires a <= b && |a| == |b|
    ensures a == b
  {
    var rest := b - a;
    assert b == a + rest && |b| == |a| + |rest|;
  }

  lemma {:induction false} SortedByTime(points: Points) returns (r: Points)
    ensures NewestFirst(r) && multiset(r) == multiset(points)
  {
    if points == [] {
      r := [];
    } else {
      var init, last := points[..|points| - 1], points[|points| - 1];
      assert points == init + [last];
      var rest := SortedByTime(init);
      r := InsertByTime(rest, last);
    }
  }

  lemma {:induction false} InsertByTime(r: Points, p: MetricPoint) returns (r': Points)
    requires NewestFirst(r)
    ensures NewestFirst(r') && multiset(r') == multiset(r) + multiset{p}
  {
    if r == [] || p.timestamp >= r[0].timestamp {
      r' := [p] + r;
    } else {
      assert r == [r[0]] + r[1..];
      var rest := InsertByTime(r[1..], p);
      r' := [r[0]] + rest;
      forall x | x in rest ensures x.timestamp <= r[0].timestamp {
        assert x in multiset(rest);
        assert x in r[1..] || x == p;
      }
    }
  }

  /** Every table has an answer to every query. */
  lemma MetricsAnswerExists(points: Points, service: string, from: Time, to: Time)
    ensures exists r :: IsMetricsAnswer(points, service, from, to, r)
  {
    var all := Select(points, service, from, to);
    var sorted := SortedByTime(all);
    var r := FirstRows(all, sorted);
    assert IsMetricsAnswer(points, service, from, to, r);
  }

  /** The front of a sorted list is an answer. */
  lemma FirstRows(all: Points, sorted: Points) returns (r: Points)
    requires NewestFirst(sorted) && multiset(sorted) == multiset(all)
    ensures |all| == |sorted| && IsNewestPart(all, r)
    ensures r == sorted[..if |all| <= ROW_LIMIT then |all| else ROW_LIMIT]
  {
    assert |multiset(sorted)| == |multiset(all)|;
    var n := if |all| <= ROW_LIMIT then |all| else ROW_LIMIT;
    FirstOfSorted(sorted, n);
    r := sorted[..n];
  }

  lemma FirstOfSorted(sorted: Points, n: nat)
    requires NewestFirst(sorted) && n <= |sorted|
    ensures multiset(sorted[..n]) <= multiset(sorted)
    ensures forall x, y :: x in multiset(sorted) - multiset(sorted[..n]) && y in sorted[..n] ==>
              x.timestamp <= y.timestamp
  {
    assert sorted == sorted[..n] + sorted[n..];
    assert multiset(sorted) - multiset(sorted[..n]) == multiset(sorted[n..]);
  }

  // ----------------------------------------------------------- QueryServices

  datatype ServiceInfo = ServiceInfo(
    service: string, lastSeen: Time, host: string, cpu: real, mem: real, disk: real)

  /** The columns that the first stage distinguishes rows by. */
  datatype Key = Key(service: string, name: string)

  function KeyOf(p: MetricPoint): Key { Key(p.service, p.name) }

  function Keys(points: Points): set<Key> { set p | p in points :: KeyOf(p) }

  function Services(points: Points): set<string> { set p | p in points :: p.service }

  /** A newest point of its service and metric. */
  ghost predicate IsNewest(points: Points, p: MetricPoint) {
    p in points && forall q :: q in points && KeyOf(q) == KeyOf(p) ==> q.timestamp <= p.timestamp
  }

  /** First stage: one row per service and metric, a newest one. */
  ghost predicate IsLatest(points: Points, latest: map<Key, MetricPoint>) {
    && latest.Keys == Keys(points)
    && forall k :: k in latest ==> KeyOf(latest[k]) == k && IsNewest(points, latest[k])
  }

  /** How the database orders texts. */
  type Collation = (string, string) -> bool

  ghost predicate IsOrder(le: Collation) {
    && (forall x, y :: le(x, y) || le(y, x))
    && (forall x, y :: le(x, y) && le(y, x) ==> x == y)
    && (forall x, y, z :: le(x, y) && le(y, z) ==> le(x, z))
  }

  /** The host labels in the group of a service. */
  function HostsOf(latest: map<Key, MetricPoint>, service: string): set<string> {
    set k | k in latest && k.service == service && "host" in latest[k].labels :: latest[k].labels["host"]
  }

  /** The largest host label in the group of a service, or empty if there is none. */
  ghost predicate IsHost(le: Collation, latest: map<Key, MetricPoint>, service: string, host: string) {
    var hosts := HostsOf(latest, service);
    if hosts == {} then host == "" else host in hosts && forall h :: h in hosts ==> le(h, host)
  }

  /** The largest time in the group of a service. */
  ghost predicate IsMaxTime(latest: map<Key, MetricPoint>, service: string, t: Time) {
    && (exists k :: k in latest && k.service == service && latest[k].timestamp == t)
    && (forall k :: k in latest && k.service == service ==> latest[k].timestamp <= t)
  }

  /** The largest value of a metric in the group of a service, or zero.  The first
      stage leaves at most one row to take it from. */
  function Stat(latest: map<Key, MetricPoint>, service: string, name: string): real {
    var k := Key(service, name);
    if k in latest then latest[k].value else 0.0
  }

  /** Second stage: one group of the first stage. */
  ghost predicate Summarises(le: Collation, latest: map<Key, MetricPoint>, e: ServiceInfo) {
    && IsMaxTime(latest, e.service, e.lastSeen)
    && IsHost(le, latest, e.service, e.host)
    && e.cpu == Stat(latest, e.service, CPU)
    && e.mem == Stat(latest, e.service, MEM)
    && e.disk == Stat(latest, e.service, DISK)
  }

  /** No service twice, and the one seen last first. */
  predicate Ordered(r: seq<ServiceInfo>) {
    forall i, j :: 0 <= i < j < |r| ==> r[i].service != r[j].service && r[i].lastSeen >= r[j].lastSeen
  }

  /** The entries name each of the services once, the one seen last first. */
  ghost predicate Lists(services: set<string>, r: seq<ServiceInfo>) {
    && Ordered(r)
    && (set e | e in r :: e.service) == services
  }

  ghost predicate Groups(le: Collation, latest: map<Key, MetricPoint>, r: seq<ServiceInfo>) {
    && Lists(set k | k in latest :: k.service, r)
    && forall e :: e in r ==> Summarises(le, latest, e)
  }

  /** An admissible answer of the two-stage query. */
  ghost predicate IsServicesAnswer(le: Collation, points: Points, r: seq<ServiceInfo>) {
    exists latest :: IsLatest(points, latest) && Groups(le, latest, r)
  }

  // ------------------------------------------------ the simple specification

  /** The latest time among all points of a service. */
  ghost predicate IsLastSeen(points: Points, service: string, t: Time) {
    && (exists p :: p in points && p.service == service && p.timestamp == t)
    && (forall p :: p in points && p.service == service ==> p.timestamp <= t)
  }

  /** The value of some newest point of the metric, or zero if it has no point. */
  ghost predicate IsNewestValue(points: Points, k: Key, v: real) {
    if k in Keys(points) then
      exists p :: IsNewest(points, p) && KeyOf(p) == k && p.value == v
    else v == 0.0
  }

  /** Some newest point of the metric has no host label above `host`. */
  ghost predicate HostWithin(le: Collation, points: Points, k: Key, host: string) {
    exists p :: IsNewest(points, p) && KeyOf(p) == k && ("host" in p.labels ==> le(p.labels["host"], host))
  }

  ghost predicate HostMissing(points: Points, k: Key) {
    exists p :: IsNewest(points, p) && KeyOf(p) == k && "host" !in p.labels
  }

  /** The largest host label of newest points, one point a metric, or empty. */
  ghost predicate IsHostOfNewest(le: Collation, points: Points, service: string, host: string) {
    || (host == "" && forall k :: k in Keys(points) && k.service == service ==> HostMissing(points, k))
    || (&& (exists p :: IsNewest(points, p) && p.service == service && HasHost(p, host))
        && forall k :: k in Keys(points) && k.service == service ==> HostWithin(le, points, k, host))
  }

  predicate HasHost(p: MetricPoint, host: string) {
    "host" in p.labels && p.labels["host"] == host
  }

  ghost predicate Describes(le: Collation, points: Points, e: ServiceInfo) {
    && IsLastSeen(points, e.service, e.lastSeen)
    && IsHostOfNewest(le, points, e.service, e.host)
    && IsNewestValue(points, Key(e.service, CPU), e.cpu)
    && IsNewestValue(points, Key(e.service, MEM), e.mem)
    && IsNewestValue(points, Key(e.service, DISK), e.disk)
  }

  ghost predicate IsSimpleAnswer(le: Collation, points: Points, r: seq<ServiceInfo>) {
    && Lists(Services(points), r)
    && forall e :: e in r ==> Describes(le, points, e)
  }

  // ------------------------------------------------------------- refinement

  lemma SameServices(points: Points, latest: map<Key, MetricPoint>)
    requires IsLatest(points, latest)
    ensures (set k | k in latest :: k.service) == Services(points)
  {
    var a, b := set k | k in latest :: k.service, Services(points);
    forall s | s in a ensures s in b {
      var k :| k in latest && k.service == s;
      assert IsNewest(points, latest[k]);
    }
    forall s | s in b ensures s in a {
      var p :| p in points && p.service == s;
      assert KeyOf(p) in latest;
    }
  }

  /** The last time of a service can be read off one row per metric. */
  lemma LastSeenFromLatest(points: Points, latest: map<Key, MetricPoint>, service: string, t: Time)
    requires IsLatest(points, latest)
    ensures IsMaxTime(latest, service, t) <==> IsLastSeen(points, service, t)
  {
    forall q | q in points ensures KeyOf(q) in latest && q.timestamp <= latest[KeyOf(q)].timestamp {
      assert IsNewest(points, latest[KeyOf(q)]);
    }
    forall k | k in latest ensures latest[k] in points && latest[k].service == k.service {
      assert IsNewest(points, latest[k]);
    }
    if IsMaxTime(latest, service, t) {
      var k :| k in latest && k.service == service && latest[k].timestamp == t;
      assert latest[k] in points;
    }
    if IsLastSeen(points, service, t) {
      var p :| p in points && p.service == service && p.timestamp == t;
      assert latest[KeyOf(p)].timestamp <= t;
    }
  }

  /** A statistic of the first stage is the value of a newest row. */
  lemma StatFromLatest(points: Points, latest: map<Key, MetricPoint>, service: string, name: string)
    requires IsLatest(points, latest)
    ensures IsNewestValue(points, Key(service, name), Stat(latest, service, name))
  {
    var k := Key(service, name);
    if k in latest {
      assert IsNewest(points, latest[k]) && KeyOf(latest[k]) == k;
    }
  }

  /** The host of a group is the host of newest rows. */
  lemma HostFromLatest(le: Collation, points: Points, latest: map<Key, MetricPoint>, service: string, host: string)
    requires IsLatest(points, latest) && IsHost(le, latest, service, host)
    ensures IsHostOfNewest(le, points, service, host)
  {
    var hosts := HostsOf(latest, service);
    forall k | k in Keys(points) && k.service == service
      ensures IsNewest(points, latest[k]) && KeyOf(latest[k]) == k
      ensures "host" in latest[k].labels ==> latest[k].labels["host"] in hosts
      ensures if hosts == {} then HostMissing(points, k) else HostWithin(le, points, k, host)
    {
    }
    if hosts != {} {
      var k :| k in latest && k.service == service && HasHost(latest[k], host);
      assert IsNewest(points, latest[k]) && latest[k].service == service;
    }
  }

  /** The two-stage query refines the simple specification: one entry per service,
      its last time over all rows, and values and host of newest rows. */
  lemma QueryRefinesSimple(le: Collation, points: Points, r: seq<ServiceInfo>)
    requires IsServicesAnswer(le, points, r)
    ensures IsSimpleAnswer(le, points, r)
    ensures forall e :: e in r ==>
              && IsNewestValue(points, Key(e.service, "cpu_usage_percent"), e.cpu)
              && IsNewestValue(points, Key(e.service, "mem_usage_percent"), e.mem)
              && IsNewestValue(points, Key(e.service, "disk_usage_percent"), e.disk)
    ensures forall i, j :: 0 <= i < j < |r| ==> r[i].service != r[j].service && r[i].lastSeen >= r[j].lastSeen
  {
    var latest :| IsLatest(points, latest) && Groups(le, latest, r);
    SameServices(points, latest);
    forall e | e in r ensures Describes(le, points, e) {
      assert Summarises(le, latest, e);
      LastSeenFromLatest(points, latest, e.service, e.lastSeen);
      StatFromLatest(points, latest, e.service, CPU);
      StatFromLatest(points, latest, e.service, MEM);
      StatFromLatest(points, latest, e.service, DISK);
      HostFromLatest(le, points, latest, e.service, e.host);
    }
  }

  // --------------------------------------------------- the exact description

  /** A newest point for each metric of the service. */
  ghost predicate IsPick(points: Points, service: string, pick: map<Key, MetricPoint>) {
    && (forall k :: k in pick <==> k in Keys(points) && k.service == service)
    && (forall k :: k in pick ==> KeyOf(pick[k]) == k && IsNewest(points, pick[k]))
  }

  /** An entry, by itself: the time is over all points of the service; the statistics
      and the host are those of one newest point for each of its metrics. */
  ghost predicate IsEntry(le: Collation, points: Points, e: ServiceInfo) {
    && IsLastSeen(points, e.service, e.lastSeen)
    && exists pick :: IsPick(points, e.service, pick) && Shows(le, pick, e)
  }

  ghost predicate Shows(le: Collation, pick: map<Key, MetricPoint>, e: ServiceInfo) {
    && IsHost(le, pick, e.service, e.host)
    && e.cpu == Stat(pick, e.service, CPU)
    && e.mem == Stat(pick, e.service, MEM)
    && e.disk == Stat(pick, e.service, DISK)
  }

  /** The choices for one service. */
  function PickOf(latest: map<Key, MetricPoint>, service: string): map<Key, MetricPoint> {
    map k | k in latest && k.service == service :: latest[k]
  }

  lemma SameShown(le: Collation, latest: map<Key, MetricPoint>, e: ServiceInfo)
    ensures Shows(le, PickOf(latest, e.service), e) <==> Shows(le, latest, e)
  {
    var pick := PickOf(latest, e.service);
    forall h ensures h in HostsOf(pick, e.service) <==> h in HostsOf(latest, e.service) {
      if h in HostsOf(latest, e.service) {
        var k :| k in latest && k.service == e.service && HasHost(latest[k], h);
        assert k in pick;
      }
    }
    assert HostsOf(pick, e.service) == HostsOf(latest, e.service);
  }

  ghost function ChosenPick(le: Collation, points: Points, e: ServiceInfo): (pick: map<Key, MetricPoint>)
    requires IsEntry(le, points, e)
    ensures IsPick(points, e.service, pick) && Shows(le, pick, e)
  {
    var pick :| IsPick(points, e.service, pick) && Shows(le, pick, e);
    pick
  }

  predicate HasEntry(r: seq<ServiceInfo>, service: string) {
    exists i :: 0 <= i < |r| && r[i].service == service
  }

  ghost function EntryOf(r: seq<ServiceInfo>, service: string): (e: ServiceInfo)
    requires HasEntry(r, service)
    ensures e in r && e.service == service
  {
    var i :| 0 <= i < |r| && r[i].service == service;
    r[i]
  }

  lemma OnlyEntry(r: seq<ServiceInfo>, e: ServiceInfo)
    requires Ordered(r) && e in r
    ensures HasEntry(r, e.service) && EntryOf(r, e.service) == e
  {
    var i :| 0 <= i < |r| && r[i] == e;
    assert r[i].service == e.service;
    var j :| 0 <= j < |r| && r[j] == EntryOf(r, e.service);
  }

  ghost predicate AreEntries(le: Collation, points: Points, r: seq<ServiceInfo>) {
    Lists(Services(points), r) && forall e :: e in r ==> IsEntry(le, points, e)
  }

  lemma ListedService(points: Points, r: seq<ServiceInfo>, k: Key)
    requires Lists(Services(points), r) && k in Keys(points)
    ensures HasEntry(r, k.service)
  {
    var p :| p in points && KeyOf(p) == k;
    assert p.service in Services(points);
    assert k.service in set e | e in r :: e.service;
    var e :| e in r && e.service == k.service;
    var i :| 0 <= i < |r| && r[i] == e;
    assert r[i].service == k.service;
  }

  /** The choices for all entries together. */
  ghost function JoinedPicks(le: Collation, points: Points, r: seq<ServiceInfo>): (latest: map<Key, MetricPoint>)
    requires AreEntries(le, points, r)
    ensures latest.Keys == Keys(points)
  {
    map k | k in Keys(points) ::
      ListedService(points, r, k);
      ChosenPick(le, points, EntryOf(r, k.service))[k]
  }

  lemma JoinedIsLatest(le: Collation, points: Points, r: seq<ServiceInfo>)
    requires AreEntries(le, points, r)
    ensures IsLatest(points, JoinedPicks(le, points, r))
  {
    var latest := JoinedPicks(le, points, r);
    forall k | k in latest ensures KeyOf(latest[k]) == k && IsNewest(points, latest[k]) {
      ListedService(points, r, k);
      var pick := ChosenPick(le, points, EntryOf(r, k.service));
      assert k in pick;
    }
  }

  lemma JoinedAt(le: Collation, points: Points, r: seq<ServiceInfo>, e: ServiceInfo, k: Key)
    requires AreEntries(le, points, r) && e in r && IsEntry(le, points, e)
    requires k in Keys(points) && k.service == e.service
    ensures JoinedPicks(le, points, r)[k] == ChosenPick(le, points, e)[k]
  {
    ListedService(points, r, k);
    OnlyEntry(r, e);
  }

  lemma SamePick(points: Points, latest: map<Key, MetricPoint>, service: string, pick: map<Key, MetricPoint>)
    requires latest.Keys == Keys(points) && IsPick(points, service, pick)
    requires forall k :: k in pick ==> latest[k] == pick[k]
    ensures PickOf(latest, service) == pick
  {
  }

  lemma JoinedPick(le: Collation, points: Points, r: seq<ServiceInfo>, e: ServiceInfo)
    requires AreEntries(le, points, r) && e in r
    ensures IsEntry(le, points, e)
    ensures PickOf(JoinedPicks(le, points, r), e.service) == ChosenPick(le, points, e)
  {
    var latest, pick := JoinedPicks(le, points, r), ChosenPick(le, points, e);
    forall k | k in pick ensures latest[k] == pick[k] {
      JoinedAt(le, points, r, e, k);
    }
    SamePick(points, latest, e.service, pick);
  }

  lemma JoinedShows(le: Collation, points: Points, r: seq<ServiceInfo>, e: ServiceInfo)
    requires AreEntries(le, points, r) && e in r
    ensures Shows(le, JoinedPicks(le, points, r), e)
  {
    JoinedPick(le, points, r, e);
    SameShown(le, JoinedPicks(le, points, r), e);
  }

  lemma EntryFromLatest(le: Collation, points: Points, latest: map<Key, MetricPoint>, e: ServiceInfo)
    requires IsLatest(points, latest) && Summarises(le, latest, e)
    ensures IsEntry(le, points, e)
  {
    LastSeenFromLatest(points, latest, e.service, e.lastSeen);
    SameShown(le, latest, e);
    assert IsPick(points, e.service, PickOf(latest, e.service));
  }

  /** The two-stage query gives exactly the lists, the service seen last first, that
      hold one such entry for each service. */
  lemma ServicesAnswerIff(le: Collation, points: Points, r: seq<ServiceInfo>)
    ensures IsServicesAnswer(le, points, r) <==> AreEntries(le, points, r)
  {
    if latest :| IsLatest(points, latest) && Groups(le, latest, r) {
      SameServices(points, latest);
      forall e | e in r ensures IsEntry(le, points, e) {
        EntryFromLatest(le, points, latest, e);
      }
    }
    if AreEntries(le, points, r) {
      EntriesAreAnswer(le, points, r);
    }
  }

  lemma EntriesAreAnswer(le: Collation, points: Points, r: seq<ServiceInfo>)
    requires AreEntries(le, points, r)
    ensures IsServicesAnswer(le, points, r)
  {
    var latest := JoinedPicks(le, points, r);
    JoinedIsLatest(le, points, r);
    SameServices(points, latest);
    forall e | e in r ensures Summarises(le, latest, e) {
      JoinedShows(le, points, r, e);
      assert IsEntry(le, points, e);
      LastSeenFromLatest(points, latest, e.service, e.lastSeen);
    }
    assert Groups(le, latest, r);
  }

  // -------------------------------------------------- an answer always exists

  lemma {:induction false} NewestExists(points: Points, k: Key, n: nat) returns (p: MetricPoint)
    requires n <= |points| && exists i :: 0 <= i < n && KeyOf(points[i]) == k
    ensures KeyOf(p) == k && p in points
    ensures forall i :: 0 <= i < n && KeyOf(points[i]) == k ==> points[i].timestamp <= p.timestamp
  {
    var last := points[n - 1];
    if i :| 0 <= i < n - 1 && KeyOf(points[i]) == k {
      p := NewestExists(points, k, n - 1);
      if KeyOf(last) == k && last.timestamp > p.timestamp {
        p := last;
      }
    } else {
      p := last;
    }
  }

  lemma NewestOf(points: Points, k: Key) returns (p: MetricPoint)
    requires k in Keys(points)
    ensures IsNewest(points, p) && KeyOf(p) == k
  {
    var q :| q in points && KeyOf(q) == k;
    var i :| 0 <= i < |points| && points[i] == q;
    p := NewestExists(points, k, |points|);
  }

  /** A group always has a host. */
  lemma HostExists(le: Collation, latest: map<Key, MetricPoint>, service: string) returns (host: string)
    requires IsOrder(le)
    ensures IsHost(le, latest, service, host)
  {
    var hosts := HostsOf(latest, service);
    host := if hosts == {} then "" else Largest(le, hosts);
  }

  ghost function Largest(le: Collation, hosts: set<string>): (host: string)
    requires IsOrder(le) && hosts != {}
    ensures host in hosts && forall h :: h in hosts ==> le(h, host)
  {
    var x :| x in hosts;
    if hosts == {x} then assert le(x, x); x
    else
      var y := Largest(le, hosts - {x});
      if le(x, y) then y else x
  }

  lemma {:induction false} LatestExists(points: Points, keys: set<Key>) returns (latest: map<Key, MetricPoint>)
    requires keys <= Keys(points)
    ensures latest.Keys == keys
    ensures forall k :: k in keys ==> KeyOf(latest[k]) == k && IsNewest(points, latest[k])
  {
    if keys == {} {
      latest := map[];
    } else {
      var k :| k in keys;
      latest := LatestExists(points, keys - {k});
      var p := NewestOf(points, k);
      latest := latest[k := p];
    }
  }

  lemma {:induction false} MaxTimeExists(latest: map<Key, MetricPoint>, keys: set<Key>, service: string)
    returns (t: Time)
    requires keys <= latest.Keys && exists k :: k in keys && k.service == service
    ensures exists k :: k in keys && k.service == service && latest[k].timestamp == t
    ensures forall k :: k in keys && k.service == service ==> latest[k].timestamp <= t
  {
    var k :| k in keys && k.service == service;
    t := latest[k].timestamp;
    if l :| l in keys - {k} && l.service == service {
      var rest := MaxTimeExists(latest, keys - {k}, service);
      t := if rest > t then rest else t;
    }
  }

  lemma {:induction false} InsertEntry(r: seq<ServiceInfo>, e: ServiceInfo) returns (r': seq<ServiceInfo>)
    requires Ordered(r) && forall x :: x in r ==> x.service != e.service
    ensures Ordered(r')
    ensures forall x :: x in r' <==> x in r || x == e
  {
    if r == [] {
      r' := [e];
    } else if e.lastSeen >= r[0].lastSeen {
      r' := [e] + r;
      assert forall i :: 0 <= i < |r| ==> r[i] in r && r[i].lastSeen <= r[0].lastSeen;
    } else {
      var rest := InsertEntry(r[1..], e);
      r' := [r[0]] + rest;
      forall x | x in rest ensures x.service != r[0].service && x.lastSeen <= r[0].lastSeen {
        if x != e {
          var i :| 0 <= i < |r[1..]| && r[1..][i] == x;
          assert r[i + 1] == x;
        }
      }
      assert forall i :: 0 < i < |r'| ==> r'[i] in rest;
    }
  }

  lemma {:induction false} AnswerForServices(le: Collation, latest: map<Key, MetricPoint>, services: set<string>)
    returns (r: seq<ServiceInfo>)
    requires IsOrder(le) && services <= set k | k in latest :: k.service
    ensures Lists(services, r) && forall e :: e in r ==> Summarises(le, latest, e)
  {
    if services == {} {
      r := [];
    } else {
      var s :| s in services;
      r := AnswerForServices(le, latest, services - {s});
      var t := MaxTimeExists(latest, latest.Keys, s);
      var host := HostExists(le, latest, s);
      var e := ServiceInfo(s, t, host, Stat(latest, s, CPU), Stat(latest, s, MEM), Stat(latest, s, DISK));
      assert Summarises(le, latest, e);
      var before := r;
      forall x | x in before ensures x.service in services - {s} {
        assert x.service in set y | y in before :: y.service;
      }
      r := InsertEntry(before, e);
      var names, names' := set y | y in before :: y.service, set y | y in r :: y.service;
      forall x | x in names ensures x in names' {
        var y :| y in before && y.service == x;
        assert y in r;
      }
      assert e in r;
      assert names' == services;
    }
  }

  /** Every table has an answer. */
  lemma ServicesAnswerExists(le: Collation, points: Points)
    requires IsOrder(le)
    ensures exists r :: IsServicesAnswer(le, points, r)
  {
    var latest := LatestExists(points, Keys(points));
    var r := AnswerForServices(le, latest, set k | k in latest :: k.service);
    assert IsLatest(points, latest) && Groups(le, latest, r);
    assert IsServicesAnswer(le, points, r);
  }
}
