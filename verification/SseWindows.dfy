/** The live metric stream of the dashboard: a snapshot of the last two minutes,
    then one query per tick over the time since the tick before. */
module SseWindows {
  import opened Telemetry
  import opened Queries

  const TWO_MINUTES: Time := 120_000_000_000

  /** The time range of one query; both ends are included. */
  datatype Window = Window(from: Time, to: Time) {
    predicate Has(x: Time) { from <= x <= to }
  }

  datatype Event =
    | Data(name: string, rows: Points)
    | KeepAlive

  /** Successive clock readings, `clock(0)` first. */
  type Clock = nat -> Time

  ghost predicate Nondecreasing(clock: Clock) {
    forall i: nat, j: nat :: i <= j ==> clock(i) <= clock(j)
  }

  /** The window of the `k`-th query: number zero is the snapshot, the others are
      the updates.  Every tick reads the clock before its query, and the query
      reads it again for its end. */
  function WindowOf(clock: Clock, k: nat): Window {
    if k == 0 then Window(clock(0) - TWO_MINUTES, clock(1))
    else Window(if k == 1 then clock(2) else clock(2 * k - 1), clock(2 * k + 2))
  }

  function Windows(clock: Clock, ticks: nat): (r: seq<Window>)
    ensures |r| == ticks + 1
    ensures forall k :: 0 <= k <= ticks ==> r[k] == WindowOf(clock, k)
  {
    seq(ticks + 1, k requires k >= 0 => WindowOf(clock, k))
  }

  /** What one query writes to the stream. */
  function Written(name: string, result: Option<Points>): seq<Event> {
    match result
    case None => []
    case Some(rows) => if rows == [] then [KeepAlive] else [Data(name, rows)]
  }

  function Name(k: nat): string {
    if k == 0 then "snapshot" else "update"
  }

  /** Everything written by the first `n` queries. */
  function WrittenUpTo(results: nat -> Option<Points>, n: nat): seq<Event> {
    if n == 0 then [] else WrittenUpTo(results, n - 1) + Written(Name(n - 1), results(n - 1))
  }

  /** The event holds what query `k` returned, as a snapshot for the first query and as
      an update for the others. */
  predicate IsRowEvent(results: nat -> Option<Points>, e: Event, k: nat) {
    results(k).Some? && |results(k).value| > 0
    && e == Data(if k == 0 then "snapshot" else "update", results(k).value)
  }

  /** Every event with rows is that of a query; in a stream only the first event with
      rows can be a snapshot. */
  lemma {:induction false} EventNames(results: nat -> Option<Points>, n: nat)
    ensures forall e :: e in WrittenUpTo(results, n) && e.Data? ==> exists k: nat :: k < n && IsRowEvent(results, e, k)
    ensures OneSnapshot(WrittenUpTo(results, n))
  {
    if n > 0 {
      EventNames(results, n - 1);
      var before, last := WrittenUpTo(results, n - 1), Written(Name(n - 1), results(n - 1));
      forall e: Event | e in before + last && e.Data? ensures exists k: nat :: k < n && IsRowEvent(results, e, k) {
        if e in last {
          assert IsRowEvent(results, e, n - 1);
        }
      }
      assert |last| <= 1 && (n == 1 ==> before == []);
      assert n > 1 ==> Name(n - 1) == "update" && forall e :: e in last && e.Data? ==> e.name == "update";
      assert OneSnapshot(before + last);
    }
  }

  /** Of the events with rows only the first can be anything but an update. */
  predicate OneSnapshot(events: seq<Event>) {
    forall i, j :: 0 <= i < j < |events| && events[i].Data? && events[j].Data? ==> events[j].name == "update"
  }

  /** Each query that returned rows has such an event. */
  lemma {:induction false} EventWritten(results: nat -> Option<Points>, n: nat, k: nat)
    requires k < n && results(k).Some? && |results(k).value| > 0
    ensures exists e :: e in WrittenUpTo(results, n) && IsRowEvent(results, e, k)
  {
    if k < n - 1 {
      EventWritten(results, n - 1, k);
      var e :| e in WrittenUpTo(results, n - 1) && IsRowEvent(results, e, k);
      assert e in WrittenUpTo(results, n);
    } else {
      var e := Data(Name(k), results(k).value);
      assert e in Written(Name(k), results(k)) && IsRowEvent(results, e, k);
      assert e in WrittenUpTo(results, n);
    }
  }

  lemma OneMoreWindow(clock: Clock, k: nat)
    requires k >= 1
    ensures Windows(clock, k) == Windows(clock, k - 1) + [WindowOf(clock, k)]
  {
  }

  lemma WrittenFirst(results: nat -> Option<Points>)
    ensures WrittenUpTo(results, 1) == Written("snapshot", results(0))
  {
    assert WrittenUpTo(results, 0) == [];
  }

  class Stream {
    var events: seq<Event>
    var asked: seq<Window>   // the time ranges queried so far

    constructor ()
      ensures events == [] && asked == []
    {
      events, asked := [], [];
    }

    /** `result` is what the query over `since` to `now` returns, None on an error. */
    method PushMetrics(since: Time, now: Time, name: string, result: Option<Points>)
      modifies this
      ensures asked == old(asked) + [Window(since, now)]
      ensures events == old(events) + match result
                                      case None => []
                                      case Some(rows) => if |rows| == 0 then [KeepAlive] else [Data(name, rows)]
      ensures events == old(events) + Written(name, result)
    {
      asked := asked + [Window(since, now)];
      if result.None? {
        return;
      }
      if |result.value| == 0 {
        events := events + [KeepAlive];
        return;
      }
      events := events + [Data(name, result.value)];
    }

    /** One tick; `asks` and `writes` are what was asked and written before the stream. */
    method Tick(clock: Clock, k: nat, since: Time, result: Option<Points>, ghost results: nat -> Option<Points>,
                ghost asks: seq<Window>, ghost writes: seq<Event>)
      returns (now: Time)
      requires k >= 1 && since == WindowOf(clock, k).from && result == results(k)
      requires asked == asks + Windows(clock, k - 1) && events == writes + WrittenUpTo(results, k)
      modifies this
      ensures now == WindowOf(clock, k + 1).from
      ensures asked == asks + Windows(clock, k) && events == writes + WrittenUpTo(results, k + 1)
    {
      now := clock(2 * k + 1);
      PushMetrics(since, clock(2 * k + 2), "update", result);
      OneMoreWindow(clock, k);
    }

    /** The stream up to and including tick number `ticks`. */
    method StreamMetrics(clock: Clock, ticks: nat, results: nat -> Option<Points>)
      modifies this
      ensures asked == old(asked) + Windows(clock, ticks)
      ensures |asked| == |old(asked)| + ticks + 1
      ensures asked[|old(asked)|] == Window(clock(0) - 120_000_000_000, clock(1))
      ensures forall k :: 1 <= k <= ticks ==>
                asked[|old(asked)| + k] == Window(if k == 1 then clock(2) else clock(2 * k - 1), clock(2 * k + 2))
      ensures events == old(events) + WrittenUpTo(results, ticks + 1)
    {
      var since := clock(0) - TWO_MINUTES;
      PushMetrics(since, clock(1), "snapshot", results(0));
      since := clock(2);
      WrittenFirst(results);
      for k := 1 to ticks + 1
        invariant since == WindowOf(clock, k).from
        invariant asked == old(asked) + Windows(clock, k - 1)
        invariant events == old(events) + WrittenUpTo(results, k)
      {
        since := Tick(clock, k, since, results(k), results, old(asked), old(events));
      }
    }
  }

  // ----------------------------------------------------------------- coverage

  /** Some query up to tick `ticks` covers the instant. */
  ghost predicate Covered(clock: Clock, ticks: nat, x: Time) {
    exists k: nat :: k <= ticks && WindowOf(clock, k).Has(x)
  }

  lemma {:induction false} UpdatesCover(clock: Clock, ticks: nat, x: Time) returns (k: nat)
    requires Nondecreasing(clock) && ticks >= 1
    requires clock(2) <= x <= WindowOf(clock, ticks).to
    ensures 1 <= k <= ticks && WindowOf(clock, k).Has(x)
  {
    if x >= WindowOf(clock, ticks).from {
      k := ticks;
    } else {
      assert clock(2 * ticks - 1) <= clock(2 * ticks);
      k := UpdatesCover(clock, ticks - 1, x);
    }
  }

  /** The updates leave no gap from their first `since` to the end of the last
      query.  The only instants missed are those after the end of the snapshot
      query and before that first `since`. */
  lemma ExactCoverage(clock: Clock, ticks: nat, x: Time)
    requires Nondecreasing(clock) && ticks >= 1
    ensures Covered(clock, ticks, x) <==>
            && clock(0) - TWO_MINUTES <= x <= WindowOf(clock, ticks).to
            && !(clock(1) < x < clock(2))
  {
    assert clock(0) <= clock(1) <= clock(2) <= clock(2 * ticks + 2);
    if k: nat :| k <= ticks && WindowOf(clock, k).Has(x) {
      assert k > 0 ==> clock(2) <= WindowOf(clock, k).from;
      assert WindowOf(clock, k).to <= WindowOf(clock, ticks).to;
    }
    if clock(0) - TWO_MINUTES <= x <= clock(1) {
      assert WindowOf(clock, 0).Has(x);
    } else if clock(2) <= x <= WindowOf(clock, ticks).to {
      var k := UpdatesCover(clock, ticks, x);
    }
  }

  // ------------------------------------------------------------- multiplicity

  /** Two successive updates share exactly the instants from a tick's reading of
      the clock to the end of that tick's query. */
  lemma NeighboursShare(clock: Clock, i: nat, x: Time)
    requires Nondecreasing(clock) && i >= 1
    ensures WindowOf(clock, i).Has(x) && WindowOf(clock, i + 1).Has(x) <==>
            clock(2 * i + 1) <= x <= clock(2 * i + 2)
  {
    assert WindowOf(clock, i).from <= clock(2 * i + 1);
    assert clock(2 * i + 2) <= clock(2 * i + 4);
  }

  /** Updates further apart share an instant exactly if the clock stood still
      between them, from the end of the earlier query on. */
  lemma DistantShare(clock: Clock, i: nat, j: nat, x: Time)
    requires Nondecreasing(clock) && i >= 1 && j >= i + 2
    ensures WindowOf(clock, i).Has(x) && WindowOf(clock, j).Has(x) <==>
            clock(2 * i + 2) == x == clock(2 * j - 1)
  {
    assert clock(2 * i + 2) <= clock(2 * j - 1) <= clock(2 * j + 2);
    assert WindowOf(clock, i).from <= clock(2 * i + 2);
  }

  /** If the clock advances between a push and the next tick, no instant is in
      three updates, and it is in two only if they are neighbours and it lies
      between a tick's reading and the end of that tick's query. */
  lemma AtMostTwice(clock: Clock, i: nat, j: nat, x: Time)
    requires Nondecreasing(clock) && 1 <= i < j
    requires forall k: nat :: k >= 1 ==> clock(2 * k + 2) < clock(2 * k + 3)
    requires WindowOf(clock, i).Has(x) && WindowOf(clock, j).Has(x)
    ensures j == i + 1 && clock(2 * i + 1) <= x <= clock(2 * i + 2)
  {
    Separated(clock, i, j);
    NeighboursShare(clock, i, x);
  }

  lemma Separated(clock: Clock, i: nat, j: nat)
    requires Nondecreasing(clock) && 1 <= i
    requires forall k: nat :: k >= 1 ==> clock(2 * k + 2) < clock(2 * k + 3)
    ensures j >= i + 2 ==> WindowOf(clock, i).to < WindowOf(clock, j).from
  {
    if j >= i + 2 {
      assert clock(2 * i + 2) < clock(2 * i + 3) <= clock(2 * j - 1);
    }
  }

  // ------------------------------------------------------------ delivered rows

  /** The results are admissible answers: query `k` sees the table `tables(k)`. */
  ghost predicate Answers(service: string, clock: Clock, tables: nat -> Points, results: nat -> Option<Points>) {
    forall k: nat :: AnswersAt(service, clock, tables, results, k)
  }

  ghost predicate AnswersAt(service: string, clock: Clock, tables: nat -> Points,
                            results: nat -> Option<Points>, k: nat)
  {
    results(k).Some? ==>
      IsMetricsAnswer(tables(k), service, WindowOf(clock, k).from, WindowOf(clock, k).to, results(k).value)
  }

  predicate DeliveredBy(results: nat -> Option<Points>, k: nat, p: MetricPoint) {
    results(k).Some? && p in results(k).value
  }

  /** Query number `k` is the last one, up to tick `ticks`, that covers the instant. */
  ghost predicate IsLastWindow(clock: Clock, ticks: nat, k: nat, x: Time) {
    && 1 <= k <= ticks && WindowOf(clock, k).Has(x)
    && forall j: nat :: k < j <= ticks ==> !WindowOf(clock, j).Has(x)
  }

  lemma {:induction false} LastWindowExists(clock: Clock, ticks: nat, k: nat, x: Time) returns (last: nat)
    requires 1 <= k <= ticks && WindowOf(clock, k).Has(x)
    ensures IsLastWindow(clock, ticks, last, x)
    decreases ticks - k
  {
    if j: nat :| k < j <= ticks && WindowOf(clock, j).Has(x) {
      last := LastWindowExists(clock, ticks, j, x);
    } else {
      last := k;
    }
  }

  /** The row is stored and in the window of the query. */
  ghost predicate Finds(service: string, w: Window, points: Points, p: MetricPoint) {
    p in points && p.service == service && w.Has(p.timestamp)
  }

  /** Fewer than the limit of other rows in the window are as new. */
  predicate NotCrowded(service: string, w: Window, points: Points, p: MetricPoint) {
    Rivals(points, service, p, w.to) < ROW_LIMIT
  }

  lemma DeliveredIfFound(service: string, clock: Clock, tables: nat -> Points,
                         results: nat -> Option<Points>, k: nat, p: MetricPoint)
    requires Answers(service, clock, tables, results) && results(k).Some?
    requires Finds(service, WindowOf(clock, k), tables(k), p) && NotCrowded(service, WindowOf(clock, k), tables(k), p)
    ensures DeliveredBy(results, k, p)
  {
    assert AnswersAt(service, clock, tables, results, k);
    AnswerComplete(tables(k), service, WindowOf(clock, k).from, WindowOf(clock, k).to, results(k).value, p);
  }

  ghost predicate SentIn(e: Event, p: MetricPoint) {
    e.Data? && p in e.rows
  }

  /** The row is in some event written by the first `n` queries. */
  ghost predicate Sent(results: nat -> Option<Points>, n: nat, p: MetricPoint) {
    exists e :: e in WrittenUpTo(results, n) && SentIn(e, p)
  }

  /** A row is delivered by some query exactly if it is in some event of the stream. */
  lemma {:induction false} DeliveredIffWritten(results: nat -> Option<Points>, n: nat, p: MetricPoint)
    ensures (exists k: nat :: k < n && DeliveredBy(results, k, p)) <==>
            Sent(results, n, p)
  {
    if n > 0 {
      DeliveredIffWritten(results, n - 1, p);
      var before, last := WrittenUpTo(results, n - 1), Written(Name(n - 1), results(n - 1));
      assert DeliveredBy(results, n - 1, p) <==> exists e :: e in last && SentIn(e, p) by {
        if DeliveredBy(results, n - 1, p) {
          assert SentIn(last[0], p);
        }
      }
      assert forall e :: e in before + last <==> e in before || e in last;
    }
  }

  /** A query delivers only stored rows of the service inside its window. */
  lemma DeliveredIsCovered(service: string, clock: Clock, tables: nat -> Points,
                           results: nat -> Option<Points>, k: nat, p: MetricPoint)
    requires Answers(service, clock, tables, results) && DeliveredBy(results, k, p)
    ensures p in tables(k) && p.service == service && WindowOf(clock, k).Has(p.timestamp)
  {
    assert AnswersAt(service, clock, tables, results, k);
    var w := WindowOf(clock, k);
    SelectMeaning(tables(k), service, w.from, w.to);
    assert p in multiset(results(k).value);
    assert p in Select(tables(k), service, w.from, w.to);
  }

  /** An instant strictly between the neighbouring windows is in one window only. */
  lemma OnlyWindow(clock: Clock, k: nat, x: Time, j: nat)
    requires Nondecreasing(clock) && k >= 1
    requires clock(2 * k) < x < clock(2 * k + 1)
    ensures WindowOf(clock, j).Has(x) ==> j == k
  {
    if j > k {
      assert clock(2 * k + 1) <= clock(2 * j - 1);
    } else if j == 0 {
      assert clock(1) <= clock(2 * k);
    } else {
      assert j < k ==> clock(2 * j + 2) <= clock(2 * k);
    }
  }

  lemma NoWindowInGap(clock: Clock, x: Time, j: nat)
    requires Nondecreasing(clock) && clock(1) < x < clock(2)
    ensures !WindowOf(clock, j).Has(x)
  {
    assert j > 0 ==> clock(2) <= WindowOf(clock, j).from;
  }

  /** The last query that covers the row's timestamp succeeds, finds it stored, and is
      not crowded. */
  ghost predicate LastQueryFinds(service: string, clock: Clock, ticks: nat, tables: nat -> Points,
                                 results: nat -> Option<Points>, p: MetricPoint)
  {
    forall k: nat {:trigger IsLastWindow(clock, ticks, k, p.timestamp)} ::
      IsLastWindow(clock, ticks, k, p.timestamp) ==>
        results(k).Some? && p in tables(k) && NotCrowded(service, WindowOf(clock, k), tables(k), p)
  }

  /** Every row of the service from the first `since` to the end of the last query is
      sent, provided the last query that covers its timestamp succeeds, finds it
      stored, and is not crowded.  The other queries may fail. */
  lemma EveryRowDelivered(service: string, clock: Clock, ticks: nat, tables: nat -> Points,
                          results: nat -> Option<Points>, p: MetricPoint)
    requires Nondecreasing(clock) && ticks >= 1 && Answers(service, clock, tables, results)
    requires p.service == service && clock(2) <= p.timestamp <= WindowOf(clock, ticks).to
    requires LastQueryFinds(service, clock, ticks, tables, results, p)
    ensures Sent(results, ticks + 1, p)
  {
    var k := UpdatesCover(clock, ticks, p.timestamp);
    k := LastWindowExists(clock, ticks, k, p.timestamp);
    DeliveredIfFound(service, clock, tables, results, k, p);
    DeliveredIffWritten(results, ticks + 1, p);
  }

  /** In a given stream, a row that no successful query finds crowded by others is sent
      up to a tick exactly if some successful query found it. */
  lemma SentIffFound(service: string, clock: Clock, ticks: nat, tables: nat -> Points,
                     results: nat -> Option<Points>, p: MetricPoint)
    requires Answers(service, clock, tables, results)
    requires forall k: nat :: k <= ticks && FoundBy(service, clock, tables, results, p, k) ==>
               NotCrowded(service, WindowOf(clock, k), tables(k), p)
    ensures Sent(results, ticks + 1, p) <==>
            exists k: nat :: k <= ticks && FoundBy(service, clock, tables, results, p, k)
  {
    DeliveredIffWritten(results, ticks + 1, p);
    if k: nat :| k < ticks + 1 && DeliveredBy(results, k, p) {
      DeliveredIsCovered(service, clock, tables, results, k, p);
      assert FoundBy(service, clock, tables, results, p, k);
    }
    if k: nat :| k <= ticks && FoundBy(service, clock, tables, results, p, k) {
      DeliveredIfFound(service, clock, tables, results, k, p);
    }
  }

  ghost predicate FoundBy(service: string, clock: Clock, tables: nat -> Points,
                          results: nat -> Option<Points>, p: MetricPoint, k: nat)
  {
    results(k).Some? && Finds(service, WindowOf(clock, k), tables(k), p)
  }

  // --------------------------------------- over all streams that could be sent

  /** A stream over the given tables in which exactly the queries that `ok` names succeed. */
  ghost predicate CouldBe(service: string, clock: Clock, tables: nat -> Points, ok: nat -> bool,
                          results: nat -> Option<Points>)
  {
    Answers(service, clock, tables, results) && forall k: nat :: results(k).Some? <==> ok(k)
  }

  /** The answer has the row if `want`, and does not have it otherwise, as far as the
      query leaves that open. */
  ghost predicate IsChoice(service: string, w: Window, points: Points, p: MetricPoint, want: bool, r: Points) {
    && IsMetricsAnswer(points, service, w.from, w.to, r)
    && (want && CanReturn(service, w, points, p) ==> p in r)
    && (!want && !MustReturn(service, w, points, p) ==> p !in r)
  }

  /** Every answer of the query holds the row. */
  ghost predicate MustReturn(service: string, w: Window, points: Points, p: MetricPoint) {
    Finds(service, w, points, p) && NotCrowded(service, w, points, p)
  }

  /** Some answer of the query holds the row: fewer than the limit of rows in the
      window are strictly newer. */
  ghost predicate CanReturn(service: string, w: Window, points: Points, p: MetricPoint) {
    Finds(service, w, points, p) && |Select(points, service, p.timestamp + 1, w.to)| < ROW_LIMIT
  }

  /** No answer holds a row that is not stored or not in the window. */
  lemma OnlyFound(service: string, w: Window, points: Points, p: MetricPoint, r: Points)
    requires IsMetricsAnswer(points, service, w.from, w.to, r) && p in r
    ensures Finds(service, w, points, p)
  {
    SelectMeaning(points, service, w.from, w.to);
    assert p in multiset(r);
    assert p in Select(points, service, w.from, w.to);
  }

  lemma ChoiceExists(service: string, w: Window, points: Points, p: MetricPoint, want: bool)
    ensures exists r :: IsChoice(service, w, points, p, want, r)
  {
    MetricsAnswerExists(points, service, w.from, w.to);
    var r :| IsMetricsAnswer(points, service, w.from, w.to, r);
    if Finds(service, w, points, p) {
      AlwaysAnsweredIff(points, service, w.from, w.to, p);
      SometimesAnsweredIff(points, service, w.from, w.to, p);
      if want && CanReturn(service, w, points, p) {
        r :| IsMetricsAnswer(points, service, w.from, w.to, r) && p in r;
      } else if !want && !MustReturn(service, w, points, p) {
        r :| IsMetricsAnswer(points, service, w.from, w.to, r) && p !in r;
      }
    } else if p in r {
      OnlyFound(service, w, points, p, r);
    }
    assert IsChoice(service, w, points, p, want, r);
  }

  ghost function Choice(service: string, w: Window, points: Points, p: MetricPoint, want: bool): (r: Points)
    ensures IsChoice(service, w, points, p, want, r)
  {
    ChoiceExists(service, w, points, p, want);
    var r :| IsChoice(service, w, points, p, want, r);
    r
  }

  /** The stream in which every query that can choose sends the row, or none does. */
  ghost function Extreme(service: string, clock: Clock, tables: nat -> Points, ok: nat -> bool,
                         p: MetricPoint, want: bool): nat -> Option<Points>
  {
    (k: nat) => if ok(k) then Some(Choice(service, WindowOf(clock, k), tables(k), p, want)) else None
  }

  lemma ExtremeCouldBe(service: string, clock: Clock, tables: nat -> Points, ok: nat -> bool,
                       p: MetricPoint, want: bool)
    ensures CouldBe(service, clock, tables, ok, Extreme(service, clock, tables, ok, p, want))
  {
    forall k: nat ensures AnswersAt(service, clock, tables, Extreme(service, clock, tables, ok, p, want), k) {
    }
  }

  /** Query `k` succeeds and has no choice but to return the row. */
  ghost predicate ForcedAt(service: string, clock: Clock, tables: nat -> Points, ok: nat -> bool,
                           p: MetricPoint, k: nat)
  {
    ok(k) && MustReturn(service, WindowOf(clock, k), tables(k), p)
  }

  /** Query `k` succeeds and may return the row. */
  ghost predicate PossibleAt(service: string, clock: Clock, tables: nat -> Points, ok: nat -> bool,
                             p: MetricPoint, k: nat)
  {
    ok(k) && CanReturn(service, WindowOf(clock, k), tables(k), p)
  }

  /** Which rows are sent in any case, exactly: whatever rows the queries choose among
      ties, a row is sent up to a tick exactly if some successful query finds it with
      fewer than the limit of others as new. */
  lemma AlwaysSentIff(service: string, clock: Clock, tables: nat -> Points, ok: nat -> bool, n: nat, p: MetricPoint)
    ensures (forall results :: CouldBe(service, clock, tables, ok, results) ==> Sent(results, n, p)) <==>
            exists k: nat :: k < n && ForcedAt(service, clock, tables, ok, p, k)
  {
    if k: nat :| k < n && ForcedAt(service, clock, tables, ok, p, k) {
      forall results | CouldBe(service, clock, tables, ok, results) ensures Sent(results, n, p) {
        DeliveredIfFound(service, clock, tables, results, k, p);
        DeliveredIffWritten(results, n, p);
      }
    } else {
      var results := Extreme(service, clock, tables, ok, p, false);
      ExtremeCouldBe(service, clock, tables, ok, p, false);
      DeliveredIffWritten(results, n, p);
      forall k: nat | k < n ensures !DeliveredBy(results, k, p) {
        assert !ForcedAt(service, clock, tables, ok, p, k);
      }
    }
  }

  /** Which rows are missed for good in any case, exactly: those that every successful
      query either does not find or finds behind the limit of strictly newer rows. */
  lemma MissedForGood(service: string, clock: Clock, tables: nat -> Points, ok: nat -> bool, p: MetricPoint)
    ensures (forall results, n: nat :: CouldBe(service, clock, tables, ok, results) ==> !Sent(results, n, p)) <==>
            forall k: nat :: !PossibleAt(service, clock, tables, ok, p, k)
  {
    if k: nat :| PossibleAt(service, clock, tables, ok, p, k) {
      var results := Extreme(service, clock, tables, ok, p, true);
      ExtremeCouldBe(service, clock, tables, ok, p, true);
      assert DeliveredBy(results, k, p);
      DeliveredIffWritten(results, k + 1, p);
    } else {
      forall results, n: nat | CouldBe(service, clock, tables, ok, results) ensures !Sent(results, n, p) {
        NeverDelivered(service, clock, tables, ok, results, n, p);
      }
    }
  }

  lemma NeverDelivered(service: string, clock: Clock, tables: nat -> Points, ok: nat -> bool,
                       results: nat -> Option<Points>, n: nat, p: MetricPoint)
    requires CouldBe(service, clock, tables, ok, results)
    requires forall k: nat :: !PossibleAt(service, clock, tables, ok, p, k)
    ensures !Sent(results, n, p)
  {
    DeliveredIffWritten(results, n, p);
    if k: nat :| k < n && DeliveredBy(results, k, p) {
      var w := WindowOf(clock, k);
      assert AnswersAt(service, clock, tables, results, k);
      OnlyFound(service, w, tables(k), p, results(k).value);
      SometimesAnsweredIff(tables(k), service, w.from, w.to, p);
      assert PossibleAt(service, clock, tables, ok, p, k);
    }
  }

  /** In terms of the clock: a row whose timestamp lies strictly between the
      neighbouring windows is never delivered if its one query fails or comes too
      early, and a row in the gap behind the snapshot is never delivered at all. */
  lemma OneChance(service: string, clock: Clock, tables: nat -> Points,
                  results: nat -> Option<Points>, k: nat, p: MetricPoint, j: nat)
    requires Nondecreasing(clock) && Answers(service, clock, tables, results)
    requires || clock(1) < p.timestamp < clock(2)
             || (k >= 1 && clock(2 * k) < p.timestamp < clock(2 * k + 1)
                 && (results(k).None? || p !in tables(k)))
    ensures !DeliveredBy(results, j, p)
  {
    if clock(1) < p.timestamp < clock(2) {
      NoWindowInGap(clock, p.timestamp, j);
    } else {
      OnlyWindow(clock, k, p.timestamp, j);
    }
    if DeliveredBy(results, j, p) {
      DeliveredIsCovered(service, clock, tables, results, j, p);
    }
  }

  /** A clock that advances by ten at each reading. */
  function Steady(i: nat): Time { 10 * i }

  /** Every query succeeds and returns no row. */
  function Nothing(k: nat): Option<Points> { Some([]) }

  /** A table that holds the row from query number `first` on. */
  function StoredFrom(p: MetricPoint, first: nat): nat -> Points {
    k => if k < first then [] else [p]
  }

  lemma NothingFits(points: Points, service: string, w: Window)
    requires |points| <= 1 && forall p :: p in points ==> !w.Has(p.timestamp)
    ensures IsMetricsAnswer(points, service, w.from, w.to, [])
  {
    SelectMeaning(points, service, w.from, w.to);
    var all := Select(points, service, w.from, w.to);
    assert forall i :: 0 <= i < |all| ==> all[i] in all;
  }

  lemma NothingAnswers(p: MetricPoint, first: nat)
    requires forall k: nat :: k >= first ==> !WindowOf(Steady, k).Has(p.timestamp)
    ensures Answers(p.service, Steady, StoredFrom(p, first), Nothing)
    ensures forall n: nat :: !Sent(Nothing, n, p)
  {
    forall k: nat ensures AnswersAt(p.service, Steady, StoredFrom(p, first), Nothing, k) {
      NothingFits(StoredFrom(p, first)(k), p.service, WindowOf(Steady, k));
    }
    forall n: nat ensures !Sent(Nothing, n, p) {
      DeliveredIffWritten(Nothing, n, p);
    }
  }

  /** It happens: a row stamped 25 is stored between the first tick's query, whose
      window ends at 40, and the second tick's, whose window starts at 30.  Every
      query succeeds, the row stays stored, and it is never sent. */
  lemma LateRowNeverSent(p: MetricPoint)
    requires p.timestamp == 25
    ensures Nondecreasing(Steady) && Answers(p.service, Steady, StoredFrom(p, 2), Nothing)
    ensures WindowOf(Steady, 1).Has(p.timestamp) && forall k: nat :: k >= 2 ==> p in StoredFrom(p, 2)(k)
    ensures forall n: nat :: !Sent(Nothing, n, p)
  {
    NothingAnswers(p, 2);
  }

  /** It also happens to a row stored in time: stamped 15, it lies in the gap behind
      the snapshot, which is asked up to 10, while the first update starts at 20. */
  lemma GapRowNeverSent(p: MetricPoint)
    requires p.timestamp == 15
    ensures Nondecreasing(Steady) && Answers(p.service, Steady, StoredFrom(p, 1), Nothing)
    ensures forall k: nat :: k >= 1 ==> p in StoredFrom(p, 1)(k)
    ensures forall n: nat :: !Sent(Nothing, n, p)
  {
    NothingAnswers(p, 1);
  }
}
