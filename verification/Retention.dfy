/** The cleanup of old telemetry, and what it does to the queries. */
module Retention {
  import opened Telemetry
  import opened Storage
  import opened Queries

  const DAY: Time := 86_400_000_000_000

  function Cutoff(now: Time, retainDays: int): Time {
    now - retainDays * DAY
  }

  /** The rows that are older than `cutoff`. */
  function Old(rows: seq<Row>, cutoff: Time): seq<Row> {
    if rows == [] then []
    else
      var init, last := rows[..|rows| - 1], rows[|rows| - 1];
      if last.record.Stamp() < cutoff then Old(init, cutoff) + [last] else Old(init, cutoff)
  }

  class Database {
    var metrics: seq<Row>
    var logs: seq<Row>
    var spans: seq<Row>

    constructor (t: Tables)
      ensures Contents() == t
    {
      metrics, logs, spans := t.metrics, t.logs, t.spans;
    }

    function Contents(): Tables
      reads this
    {
      Tables(metrics, logs, spans)
    }

    /** Three DELETE statements, each with its row count. */
    method CleanupOldTelemetry(now: Time, retainDays: int)
      returns (deletedMetrics: nat, deletedLogs: nat, deletedSpans: nat)
      modifies this
      ensures Contents() == KeepAll(old(Contents()), Cutoff(now, retainDays))
      ensures deletedMetrics == |Old(old(metrics), Cutoff(now, retainDays))|
      ensures deletedLogs == |Old(old(logs), Cutoff(now, retainDays))|
      ensures deletedSpans == |Old(old(spans), Cutoff(now, retainDays))|
      ensures forall r :: r in metrics <==> r in old(metrics) && IsKept(r, now - retainDays * 86_400_000_000_000)
      ensures forall r :: r in logs <==> r in old(logs) && IsKept(r, now - retainDays * 86_400_000_000_000)
      ensures forall r :: r in spans <==> r in old(spans) && IsKept(r, now - retainDays * 86_400_000_000_000)
      ensures deletedMetrics + |metrics| == |old(metrics)| && deletedLogs + |logs| == |old(logs)|
              && deletedSpans + |spans| == |old(spans)|
    {
      var cutoff := Cutoff(now, retainDays);
      KeepAndOld(metrics, cutoff);
      KeepAndOld(logs, cutoff);
      KeepAndOld(spans, cutoff);
      KeptRows(metrics, cutoff);
      KeptRows(logs, cutoff);
      KeptRows(spans, cutoff);
      var n := |metrics|;
      metrics := Keep(metrics, cutoff);
      deletedMetrics := n - |metrics|;
      n := |logs|;
      logs := Keep(logs, cutoff);
      deletedLogs := n - |logs|;
      n := |spans|;
      spans := Keep(spans, cutoff);
      deletedSpans := n - |spans|;
    }
  }

  /** Column by column: metrics and logs stay by their timestamp, spans by their start time. */
  predicate IsKept(r: Row, cutoff: Time) {
    match r.record
    case MetricRecord(p) => p.timestamp >= cutoff
    case LogRecord(l) => l.timestamp >= cutoff
    case SpanRecord(sp) => sp.startTime >= cutoff
    case AggregatorRecord(sp) => sp.startTime >= cutoff
  }

  lemma KeptRows(rows: seq<Row>, cutoff: Time)
    ensures forall r :: r in Keep(rows, cutoff) <==> r in rows && IsKept(r, cutoff)
  {
    KeepMeaning(rows, cutoff, 0);
  }

  /** Deleted and remaining rows together are the rows before. */
  lemma {:induction false} KeepAndOld(rows: seq<Row>, cutoff: Time)
    ensures multiset(Keep(rows, cutoff)) + multiset(Old(rows, cutoff)) == multiset(rows)
    ensures |Keep(rows, cutoff)| + |Old(rows, cutoff)| == |rows|
  {
    if rows != [] {
      var init, last := rows[..|rows| - 1], rows[|rows| - 1];
      assert rows == init + [last];
      KeepAndOld(init, cutoff);
    }
  }

  /** A cleanup after a cleanup amounts to one with the later cutoff; with the same
      cutoff again it deletes nothing. */
  lemma {:induction false} CleanupTwice(rows: seq<Row>, c: Time, d: Time)
    ensures Keep(Keep(rows, c), d) == Keep(rows, if c >= d then c else d)
    ensures Old(Keep(rows, c), c) == []
  {
    if rows != [] {
      var init, last := rows[..|rows| - 1], rows[|rows| - 1];
      CleanupTwice(init, c, d);
      if last.record.Stamp() >= c {
        assert Keep(rows, c)[..|Keep(init, c)|] == Keep(init, c);
      }
    }
  }

  // ----------------------------------------------------- the metrics queries

  /** The points that a metrics table holds. */
  function PointsOf(rows: seq<Row>): Points {
    if rows == [] then []
    else
      var init, last := PointsOf(rows[..|rows| - 1]), rows[|rows| - 1].record;
      if last.MetricRecord? then init + [last.point] else init
  }

  function KeepPoints(points: Points, cutoff: Time): Points {
    if points == [] then []
    else
      var init, last := KeepPoints(points[..|points| - 1], cutoff), points[|points| - 1];
      if last.timestamp < cutoff then init else init + [last]
  }

  lemma {:induction false} PointsOfKeep(rows: seq<Row>, cutoff: Time)
    requires forall k :: 0 <= k < |rows| ==> rows[k].record.MetricRecord?
    ensures PointsOf(Keep(rows, cutoff)) == KeepPoints(PointsOf(rows), cutoff)
  {
    if rows != [] {
      var init, last := rows[..|rows| - 1], rows[|rows| - 1];
      PointsOfKeep(init, cutoff);
      assert PointsOf(rows)[..|PointsOf(init)|] == PointsOf(init);
      if last.record.Stamp() >= cutoff {
        assert Keep(rows, cutoff)[..|Keep(init, cutoff)|] == Keep(init, cutoff);
      }
    }
  }

  lemma {:induction false} KeepPointsMeaning(points: Points, cutoff: Time)
    ensures forall p :: p in KeepPoints(points, cutoff) <==> p in points && p.timestamp >= cutoff
  {
    if points != [] {
      var init, last := points[..|points| - 1], points[|points| - 1];
      assert points == init + [last];
      KeepPointsMeaning(init, cutoff);
    }
  }

  lemma {:induction false} SelectAfterKeep(points: Points, cutoff: Time, service: string, from: Time, to: Time)
    requires forall p :: p in points && Matches(p, service, from, to) ==> p.timestamp >= cutoff
    ensures Select(KeepPoints(points, cutoff), service, from, to) == Select(points, service, from, to)
  {
    if points != [] {
      var init, last := points[..|points| - 1], points[|points| - 1];
      assert points == init + [last];
      SelectAfterKeep(init, cutoff, service, from, to);
      var kept := KeepPoints(init, cutoff);
      if last.timestamp >= cutoff {
        assert KeepPoints(points, cutoff)[..|kept|] == kept;
      }
    }
  }

  /** The rows behind a metrics query stay the same exactly if none of them is
      older than the cutoff. */
  lemma WindowUnchangedIff(points: Points, cutoff: Time, service: string, from: Time, to: Time)
    ensures Select(KeepPoints(points, cutoff), service, from, to) == Select(points, service, from, to) <==>
            forall p :: p in points && Matches(p, service, from, to) ==> p.timestamp >= cutoff
  {
    var kept := KeepPoints(points, cutoff);
    SelectMeaning(points, service, from, to);
    SelectMeaning(kept, service, from, to);
    KeepPointsMeaning(points, cutoff);
    if forall p :: p in points && Matches(p, service, from, to) ==> p.timestamp >= cutoff {
      SelectAfterKeep(points, cutoff, service, from, to);
    } else {
      var p :| p in points && Matches(p, service, from, to) && p.timestamp < cutoff;
      assert p in Select(points, service, from, to) && p !in Select(kept, service, from, to);
    }
  }

  /** The rows behind a metrics query after a cleanup are those that are not too old. */
  lemma {:induction false} SelectKept(points: Points, cutoff: Time, service: string, from: Time, to: Time, x: MetricPoint)
    ensures multiset(Select(KeepPoints(points, cutoff), service, from, to))[x] ==
            if x.timestamp >= cutoff then multiset(Select(points, service, from, to))[x] else 0
  {
    if points != [] {
      var init, last := points[..|points| - 1], points[|points| - 1];
      SelectKept(init, cutoff, service, from, to, x);
      var kept := KeepPoints(init, cutoff);
      if last.timestamp >= cutoff {
        assert KeepPoints(points, cutoff)[..|kept|] == kept;
      }
    }
  }

  /** `kept` are the points of `all` that are not older than the cutoff. */
  ghost predicate IsRecentPart(all: Points, kept: Points, cutoff: Time) {
    forall x :: multiset(kept)[x] == if x.timestamp >= cutoff then multiset(all)[x] else 0
  }

  /** If enough kept points match, an answer over all points holds kept points only,
      and is an answer over the kept ones. */
  lemma FullAnswersSame(all: Points, kept: Points, cutoff: Time, r: Points)
    requires IsRecentPart(all, kept, cutoff) && |kept| >= ROW_LIMIT
    ensures IsNewestPart(kept, r) <==> IsNewestPart(all, r)
  {
    forall x ensures multiset(kept)[x] <= multiset(all)[x] {
    }
    SubmultisetSize(multiset(kept), multiset(all));
    if IsNewestPart(all, r) {
      AnswerIsKept(all, kept, cutoff, r);
      forall x | x in multiset(kept) - multiset(r) ensures x in multiset(all) - multiset(r) {
      }
    }
    if IsNewestPart(kept, r) {
      forall x, y | x in multiset(all) - multiset(r) && y in r ensures x.timestamp <= y.timestamp {
        assert multiset(kept)[y] > 0;
        if x.timestamp >= cutoff {
          assert x in multiset(kept) - multiset(r);
        }
      }
    }
  }

  lemma AnswerIsKept(all: Points, kept: Points, cutoff: Time, r: Points)
    requires IsRecentPart(all, kept, cutoff) && |kept| >= ROW_LIMIT && IsNewestPart(all, r)
    ensures multiset(r) <= multiset(kept)
  {
    if y :| y in r && y.timestamp < cutoff {
      forall x | x in multiset(kept) ensures multiset(kept)[x] <= multiset(r)[x] {
        assert x in multiset(all) - multiset(r) ==> x.timestamp <= y.timestamp;
      }
      assert multiset(kept)[y] == 0 && y in multiset(r);
      assert multiset(kept) + multiset{y} <= multiset(r);
      SubmultisetSize(multiset(kept) + multiset{y}, multiset(r));
      assert false;
    }
    forall x ensures multiset(r)[x] <= multiset(kept)[x] {
      if x in r {
        assert x.timestamp >= cutoff;
      }
    }
  }

  /** All admissible answers to a metrics query are the same before and after a
      cleanup exactly if no matching row is older than the cutoff, or the rows that
      are kept fill the answer anyway. */
  lemma AnswersUnchangedIff(points: Points, cutoff: Time, service: string, from: Time, to: Time)
    ensures (forall r :: IsMetricsAnswer(KeepPoints(points, cutoff), service, from, to, r) <==>
                         IsMetricsAnswer(points, service, from, to, r)) <==>
            || (forall p :: p in points && Matches(p, service, from, to) ==> p.timestamp >= cutoff)
            || |Select(KeepPoints(points, cutoff), service, from, to)| >= ROW_LIMIT
  {
    var all, kept := Select(points, service, from, to), Select(KeepPoints(points, cutoff), service, from, to);
    SelectedPart(points, cutoff, service, from, to);
    if forall p :: p in points && Matches(p, service, from, to) ==> p.timestamp >= cutoff {
      SelectAfterKeep(points, cutoff, service, from, to);
    } else if |kept| >= ROW_LIMIT {
      forall r ensures IsNewestPart(kept, r) <==> IsNewestPart(all, r) {
        FullAnswersSame(all, kept, cutoff, r);
      }
    } else {
      var p :| p in points && Matches(p, service, from, to) && p.timestamp < cutoff;
      SelectMeaning(points, service, from, to);
      MetricsAnswerExists(points, service, from, to);
      var r :| IsMetricsAnswer(points, service, from, to, r);
      LongerAnswer(all, kept, cutoff, p, r);
      assert !IsMetricsAnswer(KeepPoints(points, cutoff), service, from, to, r);
    }
  }

  lemma SelectedPart(points: Points, cutoff: Time, service: string, from: Time, to: Time)
    ensures IsRecentPart(Select(points, service, from, to), Select(KeepPoints(points, cutoff), service, from, to), cutoff)
  {
    forall x: MetricPoint
      ensures multiset(Select(KeepPoints(points, cutoff), service, from, to))[x] ==
              if x.timestamp >= cutoff then multiset(Select(points, service, from, to))[x] else 0
    {
      SelectKept(points, cutoff, service, from, to, x);
    }
  }

  /** With an old row and too few kept ones, an answer is longer than all kept rows. */
  lemma LongerAnswer(all: Points, kept: Points, cutoff: Time, p: MetricPoint, r: Points)
    requires IsRecentPart(all, kept, cutoff) && |kept| < ROW_LIMIT
    requires p in all && p.timestamp < cutoff && IsNewestPart(all, r)
    ensures !IsNewestPart(kept, r)
  {
    assert multiset(kept)[p] == 0 && p in multiset(all);
    forall x ensures (multiset(kept) + multiset{p})[x] <= multiset(all)[x] {
    }
    SubmultisetSize(multiset(kept) + multiset{p}, multiset(all));
  }

  /** A query window that starts at or after the cutoff has the same admissible
      answers before and after the cleanup. */
  lemma LateWindowsUnaffected(points: Points, cutoff: Time, service: string, from: Time, to: Time, r: Points)
    requires from >= cutoff
    ensures IsMetricsAnswer(KeepPoints(points, cutoff), service, from, to, r) <==>
            IsMetricsAnswer(points, service, from, to, r)
  {
    SelectAfterKeep(points, cutoff, service, from, to);
  }

  // ---------------------------------------------------- the services query

  /** A service goes away exactly if it was last seen before the cutoff; if it
      stays, its last time stays too, and no service appears. */
  lemma ServicesAfterCleanup(le: Collation, points: Points, cutoff: Time,
                             before: seq<ServiceInfo>, after: seq<ServiceInfo>, e: ServiceInfo)
    requires IsServicesAnswer(le, points, before)
    requires IsServicesAnswer(le, KeepPoints(points, cutoff), after)
    ensures e in before ==>
              (e.lastSeen >= cutoff <==> exists e' :: e' in after && e'.service == e.service)
    ensures e in before ==>
              forall e' :: e' in after && e'.service == e.service ==> e'.lastSeen == e.lastSeen
    ensures e in after ==> exists e' :: e' in before && e'.service == e.service
  {
    var kept := KeepPoints(points, cutoff);
    AnswerEntries(le, points, before);
    AnswerEntries(le, kept, after);
    if e in before {
      LastSeenAfterCleanup(points, cutoff, e.service, e.lastSeen);
      assert e.lastSeen >= cutoff ==> HasEntry(after, e.service);
    }
    if e in after {
      KeepPointsMeaning(points, cutoff);
      assert HasEntry(after, e.service);
      var p :| p in kept && p.service == e.service;
      assert p in points && p.service in Services(points);
      assert HasEntry(before, e.service);
    }
  }

  /** An answer has entries for exactly the services of the table, each with the time
      the service was last seen. */
  lemma AnswerEntries(le: Collation, points: Points, r: seq<ServiceInfo>)
    requires IsServicesAnswer(le, points, r)
    ensures forall service :: HasEntry(r, service) <==> service in Services(points)
    ensures forall e :: e in r ==> IsLastSeen(points, e.service, e.lastSeen)
  {
    QueryRefinesSimple(le, points, r);
    forall e | e in r ensures IsLastSeen(points, e.service, e.lastSeen) {
      assert Describes(le, points, e);
    }
    forall service ensures HasEntry(r, service) <==> service in Services(points) {
      assert HasEntry(r, service) <==> service in set e | e in r :: e.service;
    }
  }

  lemma LastSeenAfterCleanup(points: Points, cutoff: Time, service: string, t: Time)
    requires IsLastSeen(points, service, t)
    ensures t >= cutoff ==> IsLastSeen(KeepPoints(points, cutoff), service, t)
    ensures t >= cutoff ==> service in Services(KeepPoints(points, cutoff))
    ensures forall t' :: IsLastSeen(KeepPoints(points, cutoff), service, t') ==> t' == t && t >= cutoff
  {
    KeepPointsMeaning(points, cutoff);
    var kept := KeepPoints(points, cutoff);
    var p :| p in points && p.service == service && p.timestamp == t;
    if t >= cutoff {
      assert p in kept;
    }
    forall t' | IsLastSeen(kept, service, t') ensures t' == t && t >= cutoff {
      var q :| q in kept && q.service == service && q.timestamp == t';
      assert q in points;
    }
  }

  /** What a cleanup leaves of the first stage of the services query. */
  function Recent(latest: map<Key, MetricPoint>, cutoff: Time): map<Key, MetricPoint> {
    map k | k in latest && latest[k].timestamp >= cutoff :: latest[k]
  }

  lemma RecentIsLatest(points: Points, cutoff: Time, latest: map<Key, MetricPoint>)
    requires IsLatest(points, latest)
    ensures IsLatest(KeepPoints(points, cutoff), Recent(latest, cutoff))
  {
    var kept, l := KeepPoints(points, cutoff), Recent(latest, cutoff);
    KeepPointsMeaning(points, cutoff);
    forall k | k in l ensures KeyOf(l[k]) == k && IsNewest(kept, l[k]) {
      assert IsNewest(points, latest[k]);
    }
    forall k | k in l ensures k in Keys(kept) {
      assert IsNewest(kept, l[k]);
    }
    forall k | k in Keys(kept) ensures k in l {
      var p :| p in kept && KeyOf(p) == k;
      assert p in points && k in Keys(points) && IsNewest(points, latest[k]);
    }
  }

  lemma LatestExtends(points: Points, cutoff: Time, l: map<Key, MetricPoint>) returns (latest: map<Key, MetricPoint>)
    requires IsLatest(KeepPoints(points, cutoff), l)
    ensures IsLatest(points, latest) && l == Recent(latest, cutoff)
  {
    var kept := KeepPoints(points, cutoff);
    KeepPointsMeaning(points, cutoff);
    var all := LatestExists(points, Keys(points));
    forall k | k in l ensures IsNewest(points, l[k]) && l[k].timestamp >= cutoff {
      assert IsNewest(kept, l[k]);
      forall q | q in points && KeyOf(q) == k ensures q.timestamp <= l[k].timestamp {
        assert q.timestamp >= cutoff ==> q in kept;
      }
    }
    forall k | k in all && k !in l ensures all[k].timestamp < cutoff {
      assert IsNewest(points, all[k]);
      assert all[k] in kept ==> k in Keys(kept);
    }
    latest := all + l;
    assert latest.Keys == Keys(points);
  }

  /** Cleanup and services query commute: the first stages after a cleanup are the
      first stages before it without their old rows. */
  lemma FirstStageCommutes(points: Points, cutoff: Time, l: map<Key, MetricPoint>)
    ensures IsLatest(KeepPoints(points, cutoff), l) <==>
            exists latest :: IsLatest(points, latest) && l == Recent(latest, cutoff)
  {
    if IsLatest(KeepPoints(points, cutoff), l) {
      var latest := LatestExtends(points, cutoff, l);
    }
    if latest :| IsLatest(points, latest) && l == Recent(latest, cutoff) {
      RecentIsLatest(points, cutoff, latest);
    }
  }

  /** So the answers after a cleanup, with their times, statistics and hosts, are the
      summaries of what the cleanup leaves of a first stage before it. */
  lemma ServicesCommute(le: Collation, points: Points, cutoff: Time, r: seq<ServiceInfo>)
    ensures IsServicesAnswer(le, KeepPoints(points, cutoff), r) <==>
            exists latest :: IsLatest(points, latest) && Groups(le, Recent(latest, cutoff), r)
  {
    if l :| IsLatest(KeepPoints(points, cutoff), l) && Groups(le, l, r) {
      var latest := LatestExtends(points, cutoff, l);
    }
    if latest :| IsLatest(points, latest) && Groups(le, Recent(latest, cutoff), r) {
      RecentIsLatest(points, cutoff, latest);
    }
  }

  /** A statistic keeps its admissible values if its newest row stays, and becomes
      zero exactly if its newest row is older than the cutoff. */
  lemma StatsAfterCleanup(points: Points, cutoff: Time, newest: MetricPoint, v: real)
    requires IsNewest(points, newest)
    ensures IsNewestValue(KeepPoints(points, cutoff), KeyOf(newest), v) <==>
            if newest.timestamp >= cutoff then IsNewestValue(points, KeyOf(newest), v) else v == 0.0
  {
    var kept, k := KeepPoints(points, cutoff), KeyOf(newest);
    KeepPointsMeaning(points, cutoff);
    assert k in Keys(points);
    if newest.timestamp >= cutoff {
      assert newest in kept && k in Keys(kept);
      forall p | KeyOf(p) == k ensures IsNewest(kept, p) <==> IsNewest(points, p) {
        if IsNewest(kept, p) {
          assert newest.timestamp <= p.timestamp;
        }
      }
    } else {
      forall p | p in kept ensures KeyOf(p) != k {
        assert p in points;
      }
    }
  }
}
