/** The pipeline from the agents to the trace view: which spans an agent session
    leaves in the table, and how the trace view shows them. */
module Pipeline {
  import opened Telemetry
  import Storage
  import Delivery
  import Collector
  import TraceForest

  const HEARTBEAT := "metric_collection_interval"
  const RECEIVE := "collector.receive_metrics"
  const INSERT := "aggregator.insert_metric"

  /** A batch of metrics that an agent has sent and the collector has received:
      the session it belongs to, the ID the agent drew for the call, and the span
      ID the collector drew for the batch. */
  datatype Batch = Batch(session: string, callId: string, spanId: string)

  datatype State = State(
    delivery: Delivery.State,
    drawn: set<string>,      // every ID that has been drawn at random so far
    sessions: set<string>,
    batches: set<Batch>)

  datatype Step =
    | Start(session: string)
    | Send(session: string, callId: string, spanId: string)
    | PublishMetric(batch: Batch, metric: Collector.PbMetric, now: Time)
    | PublishBatchSpan(batch: Batch, start: Time, end: Time)
    | Heartbeat(session: string, spanId: string, service: string, now: Time, status: string)
    | PublishLog(entry: LogEntry)
    | Aggregate(step: Delivery.Step)

  function HeartbeatSpan(session: string, spanId: string, service: string, now: Time, status: string): TraceSpan {
    TraceSpan(session, spanId, "", service, HEARTBEAT, now - 60_000_000_000, now, status)
  }

  function Published(step: Step): Delivery.Message
    requires step.PublishMetric? || step.PublishBatchSpan? || step.Heartbeat? || step.PublishLog?
  {
    match step
    case PublishMetric(b, m, now) => Collector.MetricOf(m, now, b.session, b.spanId)
    case PublishBatchSpan(b, start, end) => Collector.CollectorSpan(b.session, b.spanId, b.callId, start, end)
    case Heartbeat(session, id, service, now, status) =>
      Delivery.SpanMessage(Some(HeartbeatSpan(session, id, service, now, status)))
    case PublishLog(entry) => Delivery.LogMessage(Some(entry))
  }

  /** Newly drawn IDs are not empty and have not been drawn before. */
  predicate Fresh(s: State, id: string) {
    id != "" && id !in s.drawn
  }

  predicate Enabled(s: State, step: Step)
    requires |s.delivery.track| == |s.delivery.stream|
  {
    match step
    case Start(session) => Fresh(s, session)
    case Send(session, callId, spanId) =>
      session in s.sessions && Fresh(s, callId) && Fresh(s, spanId) && callId != spanId
    case PublishMetric(b, _, _) => b in s.batches
    case PublishBatchSpan(b, _, _) => b in s.batches
    case Heartbeat(session, id, _, _, _) => session in s.sessions && Fresh(s, id)
    case PublishLog(_) => true
    case Aggregate(d) =>
      && !d.Publish? && Delivery.Enabled(s.delivery, d)
      && (d.DoTrace? ==> Fresh(s, d.id))
  }

  function Apply(s: State, step: Step): State
    requires |s.delivery.track| == |s.delivery.stream| && Enabled(s, step)
  {
    match step
    case Start(session) => s.(drawn := s.drawn + {session}, sessions := s.sessions + {session})
    case Send(session, callId, spanId) =>
      s.(drawn := s.drawn + {callId, spanId}, batches := s.batches + {Batch(session, callId, spanId)})
    case Heartbeat(_, id, _, _, _) =>
      s.(drawn := s.drawn + {id}, delivery := Delivery.Apply(s.delivery, Delivery.Publish(Published(step))))
    case Aggregate(d) =>
      s.(drawn := s.drawn + (if d.DoTrace? then {d.id} else {}), delivery := Delivery.Apply(s.delivery, d))
    case _ => s.(delivery := Delivery.Apply(s.delivery, Delivery.Publish(Published(step))))
  }

  function Init(workers: nat): State {
    State(Delivery.Init(workers), {}, {}, {})
  }

  function Run(workers: nat, steps: seq<Step>): (r: Option<State>)
    ensures r.Some? ==> |r.value.delivery.track| == |r.value.delivery.stream|
  {
    if steps == [] then Some(Init(workers))
    else match Run(workers, steps[..|steps| - 1])
      case None => None
      case Some(s) =>
        var step := steps[|steps| - 1];
        if Enabled(s, step) then Some(Apply(s, step)) else None
  }

  /** What the collector's call appends for a traced batch is what the pipeline's
      publish steps allow: metric messages that carry the batch's span ID, and the
      collector span with that ID. */
  lemma BatchMessagesAllowed(s: State, b: Batch, metrics: seq<Collector.PbMetric>, clock: nat -> Time,
                             outcome: nat -> Outcome, appended: seq<Delivery.Message>, accepted: Option<int>, k: nat)
    requires |s.delivery.track| == |s.delivery.stream| && b in s.batches && b.session != ""
    requires |metrics| > 0 && k < |appended| <= |metrics| + 1
    requires Collector.BatchPublished(b.session, b.callId, metrics, b.spanId, clock, outcome, appended, accepted)
    ensures exists step: Step :: IsPublishOf(s, b, step) && Published(step) == appended[k]
    ensures k < |metrics| ==>
              appended[k].MetricMessage? && appended[k].metric.Some?
              && appended[k].metric.value.collectorSpanId == b.spanId
    ensures k == |metrics| ==>
              appended[k].SpanMessage? && appended[k].span.Some? && appended[k].span.value.spanId == b.spanId
  {
    if k < |metrics| {
      var step := PublishMetric(b, metrics[k], clock(k + 1));
      assert Published(step) == appended[k] && IsPublishOf(s, b, step);
    } else {
      var step := PublishBatchSpan(b, clock(0), clock(|metrics| + 1));
      assert Published(step) == appended[k] && IsPublishOf(s, b, step);
    }
  }

  predicate IsPublishOf(s: State, b: Batch, step: Step)
    requires |s.delivery.track| == |s.delivery.stream|
  {
    (step.PublishMetric? || step.PublishBatchSpan?) && step.batch == b && Enabled(s, step)
  }

  // ---------------------------------------------------------- where messages come from

  predicate Publishes(step: Step) {
    step.PublishMetric? || step.PublishBatchSpan? || step.Heartbeat? || step.PublishLog?
  }

  /** Every message of the stream was published by a step of the run. */
  lemma {:induction false} MessageSource(workers: nat, steps: seq<Step>, i: nat) returns (n: nat)
    requires Run(workers, steps).Some? && i < |Run(workers, steps).value.delivery.stream|
    ensures n < |steps| && Publishes(steps[n]) && Published(steps[n]) == Run(workers, steps).value.delivery.stream[i]
  {
    var init, last := steps[..|steps| - 1], steps[|steps| - 1];
    var before := Run(workers, init).value.delivery.stream;
    if i < |before| {
      n := MessageSource(workers, init, i);
      assert steps[n] == init[n];
    } else {
      n := |steps| - 1;
    }
  }

  /** In every run a stored heartbeat is one that some agent sent, with the same
      session, time and status, and it covers the sixty seconds before. */
  lemma HeartbeatsAsSent(workers: nat, steps: seq<Step>, k: nat)
    requires Run(workers, steps).Some? && k < |Run(workers, steps).value.delivery.tables.spans|
    requires var r := Run(workers, steps).value.delivery.tables.spans[k].record;
             r.SpanRecord? && r.span.operation == "metric_collection_interval"
    ensures exists n :: 0 <= n < |steps| && steps[n].Heartbeat?
              && Run(workers, steps).value.delivery.tables.spans[k].record.span ==
                 TraceSpan(steps[n].session, steps[n].spanId, "", steps[n].service, "metric_collection_interval",
                           steps[n].now - 60_000_000_000, steps[n].now, steps[n].status)
  {
    EveryRun(workers, steps);
    var d := Run(workers, steps).value.delivery;
    var row := d.tables.spans[k];
    assert row in d.tables.spans && Delivery.Traces(d.stream, row);
    var n := MessageSource(workers, steps, row.origin);
    DistinctOperations();
    assert steps[n].Heartbeat?;
  }

  // -------------------------------------------------------------- invariant

  /** The ID was drawn for a batch, by the agent or by the collector. */
  ghost predicate BatchId(s: State, id: string) {
    exists b :: b in s.batches && (b.callId == id || b.spanId == id)
  }

  /** A span of the pipeline: a heartbeat, a collector span, or, when stored, an
      aggregator span. */
  ghost predicate KnownSpan(s: State, sp: TraceSpan, stored: bool) {
    && sp.spanId in s.drawn && sp.spanId != ""
    && if sp.operation == HEARTBEAT then
         sp.parentSpanId == "" && !BatchId(s, sp.spanId)
       else if sp.operation == RECEIVE then
         Batch(sp.traceId, sp.parentSpanId, sp.spanId) in s.batches
       else
         && sp.operation == INSERT && stored && !BatchId(s, sp.spanId)
         && exists b :: b in s.batches && b.session == sp.traceId && b.spanId == sp.parentSpanId
  }

  ghost predicate KnownMessage(s: State, m: Delivery.Message) {
    match m
    case MetricMessage(x) =>
      x.Some? && exists b :: b in s.batches && b.session == x.value.traceId && b.spanId == x.value.collectorSpanId
    case LogMessage(_) => true
    case SpanMessage(x) => x.Some? && KnownSpan(s, x.value, false)
  }

  /** Random IDs serve one purpose only. */
  ghost predicate IdsOk(s: State) {
    && (forall b :: b in s.batches ==> b.callId in s.drawn && b.spanId in s.drawn && b.spanId != "")
    && (forall b, b' :: b in s.batches && b' in s.batches ==> b.callId != b'.spanId)
    && (forall b, b' :: b in s.batches && b' in s.batches && b.spanId == b'.spanId ==> b == b')
  }

  ghost predicate MessagesOk(s: State) {
    forall i :: 0 <= i < |s.delivery.stream| ==> KnownMessage(s, s.delivery.stream[i])
  }

  ghost predicate SpansOk(s: State) {
    forall k :: 0 <= k < |s.delivery.tables.spans| ==>
      var r := s.delivery.tables.spans[k].record;
      r.IsSpan() && KnownSpan(s, r.span, true)
  }

  ghost predicate Inv(s: State) {
    Delivery.Inv(s.delivery) && IdsOk(s) && MessagesOk(s) && SpansOk(s)
  }

  lemma KnownSpanStable(s: State, step: Step, sp: TraceSpan, stored: bool)
    requires |s.delivery.track| == |s.delivery.stream|
    requires Enabled(s, step) && KnownSpan(s, sp, stored)
    ensures KnownSpan(Apply(s, step), sp, stored)
  {
    var s' := Apply(s, step);
    assert s.batches <= s'.batches && s.drawn <= s'.drawn;
  }

  lemma KnownMessageStable(s: State, step: Step, m: Delivery.Message)
    requires |s.delivery.track| == |s.delivery.stream|
    requires Enabled(s, step) && KnownMessage(s, m)
    ensures KnownMessage(Apply(s, step), m)
  {
    var s' := Apply(s, step);
    assert s.batches <= s'.batches;
    if m.SpanMessage? {
      KnownSpanStable(s, step, m.span.value, false);
    }
  }

  lemma IdsStep(s: State, step: Step)
    requires |s.delivery.track| == |s.delivery.stream|
    requires IdsOk(s) && Enabled(s, step)
    ensures IdsOk(Apply(s, step))
  {
  }

  lemma PublishedIsKnown(s: State, step: Step)
    requires |s.delivery.track| == |s.delivery.stream|
    requires IdsOk(s) && Enabled(s, step)
    requires step.PublishMetric? || step.PublishBatchSpan? || step.Heartbeat? || step.PublishLog?
    ensures KnownMessage(Apply(s, step), Published(step))
  {
    var s' := Apply(s, step);
    assert s'.batches == s.batches;
  }

  lemma MessagesStep(s: State, step: Step)
    requires |s.delivery.track| == |s.delivery.stream|
    requires IdsOk(s) && MessagesOk(s) && Enabled(s, step)
    ensures MessagesOk(Apply(s, step))
  {
    var s' := Apply(s, step);
    var n := |s.delivery.stream|;
    forall i | 0 <= i < |s'.delivery.stream| ensures KnownMessage(s', s'.delivery.stream[i]) {
      if i < n {
        assert s'.delivery.stream[i] == s.delivery.stream[i];
        KnownMessageStable(s, step, s.delivery.stream[i]);
      } else {
        PublishedIsKnown(s, step);
      }
    }
  }

  /** A row of the span table after a step was there before, or the step stored it
      for a message. */
  lemma RowOrigin(s: Delivery.State, step: Delivery.Step, k: nat)
    requires |s.track| == |s.stream| && Delivery.Enabled(s, step)
    requires k < |Delivery.Apply(s, step).tables.spans|
    ensures var row := Delivery.Apply(s, step).tables.spans[k];
            || row in s.tables.spans
            || (step.DoInsert? && row.record.SpanRecord? && row.origin < |s.stream| && s.stream[row.origin].Decodable()
                && row.record == s.stream[row.origin].Main())
            || (step.DoTrace? && row.origin < |s.stream| && s.stream[row.origin].Traced()
                && row.record == s.stream[row.origin].Extra(step.id, step.start, step.end))
  {
    if step.Retain? {
      Storage.KeepMeaning(s.tables.spans, step.cutoff, 0);
      assert Delivery.Apply(s, step).tables.spans[k] in Storage.Keep(s.tables.spans, step.cutoff);
    }
  }

  lemma SpansStep(s: State, step: Step)
    requires Inv(s) && Enabled(s, step)
    ensures SpansOk(Apply(s, step))
  {
    var s' := Apply(s, step);
    forall k: nat | k < |s'.delivery.tables.spans|
      ensures s'.delivery.tables.spans[k].record.IsSpan()
              && KnownSpan(s', s'.delivery.tables.spans[k].record.span, true)
    {
      SpanRowStep(s, step, k);
    }
  }

  lemma SpanRowStep(s: State, step: Step, k: nat)
    requires Inv(s) && Enabled(s, step)
    requires k < |Apply(s, step).delivery.tables.spans|
    ensures var s' := Apply(s, step);
            s'.delivery.tables.spans[k].record.IsSpan()
            && KnownSpan(s', s'.delivery.tables.spans[k].record.span, true)
  {
    var s' := Apply(s, step);
    var row := s'.delivery.tables.spans[k];
    if step.Aggregate? {
      RowOrigin(s.delivery, step.step, k);
    }
    if row in s.delivery.tables.spans {
      var j :| 0 <= j < |s.delivery.tables.spans| && s.delivery.tables.spans[j] == row;
      KnownSpanStable(s, step, row.record.span, true);
    } else if step.step.DoInsert? {
      assert KnownMessage(s, s.delivery.stream[row.origin]);
      KnownSpanStable(s, step, row.record.span, false);
    } else {
      assert KnownMessage(s, s.delivery.stream[row.origin]);
    }
  }

  lemma InvStep(s: State, step: Step)
    requires Inv(s) && Enabled(s, step)
    ensures Inv(Apply(s, step))
  {
    var s' := Apply(s, step);
    if step.Aggregate? {
      Delivery.InvStep(s.delivery, step.step);
    } else if s'.delivery != s.delivery {
      Delivery.InvStep(s.delivery, Delivery.Publish(Published(step)));
    }
    IdsStep(s, step);
    MessagesStep(s, step);
    SpansStep(s, step);
  }

  /** Every reachable state satisfies the invariant. */
  lemma {:induction false} EveryRun(workers: nat, steps: seq<Step>)
    requires Run(workers, steps).Some?
    ensures Inv(Run(workers, steps).value)
  {
    if steps == [] {
      Delivery.EveryRun(workers, []);
    } else {
      EveryRun(workers, steps[..|steps| - 1]);
      InvStep(Run(workers, steps[..|steps| - 1]).value, steps[|steps| - 1]);
    }
  }

  // ------------------------------------------------------ the trace of a session

  /** The spans of a trace among the rows of the span table, in table order. */
  function SpansOf(rows: seq<Storage.Row>, traceId: string): seq<TraceSpan> {
    if rows == [] then []
    else
      var init, last := SpansOf(rows[..|rows| - 1], traceId), rows[|rows| - 1].record;
      if last.IsSpan() && last.span.traceId == traceId then init + [last.span] else init
  }

  /** An answer to the query for the spans of a trace.  Spans that start together
      may come in any order. */
  ghost predicate IsTraceAnswer(rows: seq<Storage.Row>, traceId: string, spans: seq<TraceSpan>) {
    && multiset(spans) == multiset(SpansOf(rows, traceId))
    && forall i, j :: 0 <= i < j < |spans| ==> spans[i].startTime <= spans[j].startTime
  }

  lemma {:induction false} SpansOfMeaning(rows: seq<Storage.Row>, traceId: string)
    ensures forall sp :: sp in SpansOf(rows, traceId) <==>
              sp.traceId == traceId
              && exists k :: 0 <= k < |rows| && rows[k].record.IsSpan() && rows[k].record.span == sp
    ensures Storage.UniqueIds(rows) ==> NoDuplicates(TraceForest.SpanIds(SpansOf(rows, traceId)))
  {
    if rows != [] {
      var n := |rows| - 1;
      SpansOfMeaning(rows[..n], traceId);
      var before := SpansOf(rows[..n], traceId);
      assert forall k :: 0 <= k < n ==> rows[..n][k] == rows[k];
      if Storage.UniqueIds(rows) && rows[n].record.IsSpan() && rows[n].record.span.traceId == traceId {
        forall i | 0 <= i < |before| ensures before[i].spanId != rows[n].record.span.spanId {
          assert before[i] in before;
        }
        var last := rows[n].record.span;
        assert TraceForest.SpanIds(before + [last]) == TraceForest.SpanIds(before) + [last.spanId];
      }
    }
  }

  lemma {:induction false} CountAtMostOne(spans: seq<TraceSpan>, x: TraceSpan)
    requires NoDuplicates(TraceForest.SpanIds(spans))
    ensures multiset(spans)[x] <= 1
  {
    if spans != [] {
      var n := |spans| - 1;
      assert spans == spans[..n] + [spans[n]];
      assert TraceForest.SpanIds(spans[..n]) == TraceForest.SpanIds(spans)[..n];
      CountAtMostOne(spans[..n], x);
    }
  }

  /** Reordering keeps span IDs distinct. */
  lemma DistinctInAnyOrder(spans: seq<TraceSpan>, other: seq<TraceSpan>, i: nat, j: nat)
    requires multiset(spans) == multiset(other) && NoDuplicates(TraceForest.SpanIds(other))
    requires i < j < |spans|
    ensures spans[i].spanId != spans[j].spanId
  {
    var x, y := spans[i], spans[j];
    assert x in multiset(spans) && y in multiset(spans);
    assert x in other && y in other;
    if x == y {
      TraceForest.RepeatedElement(spans, i, j);
      CountAtMostOne(other, x);
    } else {
      var k :| 0 <= k < |other| && other[k] == x;
      var l :| 0 <= l < |other| && other[l] == y;
      assert TraceForest.SpanIds(other)[k] == x.spanId && TraceForest.SpanIds(other)[l] == y.spanId;
    }
  }

  lemma AnswerMeaning(s: State, traceId: string, spans: seq<TraceSpan>)
    requires Inv(s) && IsTraceAnswer(s.delivery.tables.spans, traceId, spans)
    ensures NoDuplicates(TraceForest.SpanIds(spans))
    ensures forall sp :: sp in spans ==> KnownSpan(s, sp, true)
  {
    var rows := s.delivery.tables.spans;
    var stored := SpansOf(rows, traceId);
    SpansOfMeaning(rows, traceId);
    forall i: nat, j: nat | i < j < |spans| ensures spans[i].spanId != spans[j].spanId {
      DistinctInAnyOrder(spans, stored, i, j);
    }
    forall sp | sp in spans ensures KnownSpan(s, sp, true) {
      assert sp in multiset(spans);
      assert sp in stored;
      var k :| 0 <= k < |rows| && rows[k].record.IsSpan() && rows[k].record.span == sp;
    }
  }

  /** The collector span of the batch that an aggregator span belongs to is listed. */
  ghost predicate BatchSpanListed(spans: seq<TraceSpan>, sp: TraceSpan) {
    exists c :: c in spans && IsBatchSpan(c, sp)
  }

  /** The table holds the collector span of the batch that an aggregator span belongs to. */
  ghost predicate BatchSpanStored(rows: seq<Storage.Row>, sp: TraceSpan) {
    exists k :: 0 <= k < |rows| && rows[k].record.IsSpan() && IsBatchSpan(rows[k].record.span, sp)
  }

  predicate IsBatchSpan(c: TraceSpan, sp: TraceSpan) {
    c.operation == RECEIVE && c.spanId == sp.parentSpanId
  }

  /** Where the trace view shows a span: aggregator spans below the collector span
      of their batch if that is stored, everything else at the top. */
  ghost function ExpectedDepth(rows: seq<Storage.Row>, sp: TraceSpan): nat {
    if sp.operation == INSERT && BatchSpanStored(rows, sp) then 1 else 0
  }

  /** A stored collector span belongs to the trace of the aggregator spans of its
      batch, so the query for that trace finds it. */
  lemma StoredIffListed(s: State, traceId: string, spans: seq<TraceSpan>, sp: TraceSpan)
    requires Inv(s) && IsTraceAnswer(s.delivery.tables.spans, traceId, spans)
    requires sp in spans && sp.operation == INSERT
    ensures BatchSpanStored(s.delivery.tables.spans, sp) <==> BatchSpanListed(spans, sp)
  {
    var rows := s.delivery.tables.spans;
    SpansOfMeaning(rows, traceId);
    AnswerMeaning(s, traceId, spans);
    forall x ensures x in spans <==> x in SpansOf(rows, traceId) {
      assert x in multiset(spans) <==> x in multiset(SpansOf(rows, traceId));
    }
    if k :| 0 <= k < |rows| && rows[k].record.IsSpan() && IsBatchSpan(rows[k].record.span, sp) {
      var c := rows[k].record.span;
      assert KnownSpan(s, c, true) && KnownSpan(s, sp, true);
      assert INSERT != RECEIVE && INSERT != HEARTBEAT && RECEIVE != HEARTBEAT by { DistinctOperations(); }
      var b :| b in s.batches && b.session == sp.traceId && b.spanId == sp.parentSpanId;
      assert Batch(c.traceId, c.parentSpanId, c.spanId) == b;
      assert c in spans;
    }
    if c :| c in spans && IsBatchSpan(c, sp) {
      assert c in SpansOf(rows, traceId);
    }
  }

  lemma DistinctOperations()
    ensures INSERT != RECEIVE && INSERT != HEARTBEAT && RECEIVE != HEARTBEAT
  {
    assert INSERT[0] == 'a' && RECEIVE[0] == 'c' && HEARTBEAT[0] == 'm';
  }

  /** Only collector spans ever carry a span ID that was drawn for a batch. */
  lemma LinkTarget(s: State, p: TraceSpan, b: Batch)
    requires IdsOk(s) && KnownSpan(s, p, true) && b in s.batches
    ensures p.spanId != b.callId
    ensures p.spanId == b.spanId ==> p.operation == RECEIVE
  {
    if p.spanId == b.callId || p.spanId == b.spanId {
      assert BatchId(s, p.spanId);
    }
  }

  /** Where a span is shown, by what is listed. */
  ghost function ListedDepth(spans: seq<TraceSpan>, sp: TraceSpan): nat {
    if sp.operation == INSERT && BatchSpanListed(spans, sp) then 1 else 0
  }

  lemma SpanDepth(s: State, spans: seq<TraceSpan>, sp: TraceSpan)
    requires IdsOk(s) && NoDuplicates(TraceForest.SpanIds(spans)) && sp in spans
    requires forall p :: p in spans ==> KnownSpan(s, p, true)
    ensures TraceForest.RootAt(TraceForest.Build(spans).byId, sp.spanId, ListedDepth(spans, sp))
  {
    var byId := TraceForest.Build(spans).byId;
    TraceForest.BuildConsistent(spans);
    TraceForest.ByIdMeaning(spans, |spans|);
    var i :| 0 <= i < |spans| && spans[i] == sp;
    assert byId[sp.spanId] == sp;
    if sp.operation == HEARTBEAT {
    } else if sp.operation == RECEIVE {
      NotLinked(s, spans, sp);
    } else if sp.parentSpanId in byId {
      LinkedToBatchSpan(s, spans, sp);
    } else {
      assert forall c :: c in spans ==> c.spanId in byId by {
        forall c | c in spans ensures c.spanId in byId {
          var j :| 0 <= j < |spans| && spans[j] == c;
        }
      }
    }
  }

  /** The ID that an agent drew for a call is the ID of no span. */
  lemma NotLinked(s: State, spans: seq<TraceSpan>, sp: TraceSpan)
    requires IdsOk(s) && NoDuplicates(TraceForest.SpanIds(spans)) && sp in spans && sp.operation == RECEIVE
    requires forall p :: p in spans ==> KnownSpan(s, p, true)
    ensures sp.parentSpanId !in TraceForest.Build(spans).byId
  {
    TraceForest.ByIdMeaning(spans, |spans|);
    if sp.parentSpanId in TraceForest.Build(spans).byId {
      var j :| 0 <= j < |spans| && spans[j].spanId == sp.parentSpanId;
      assert KnownSpan(s, sp, true) && KnownSpan(s, spans[j], true);
      LinkTarget(s, spans[j], Batch(sp.traceId, sp.parentSpanId, sp.spanId));
    }
  }

  lemma LinkedToBatchSpan(s: State, spans: seq<TraceSpan>, sp: TraceSpan)
    requires IdsOk(s) && NoDuplicates(TraceForest.SpanIds(spans)) && sp in spans
    requires sp.operation == INSERT && sp.parentSpanId in TraceForest.Build(spans).byId
    requires forall p :: p in spans ==> KnownSpan(s, p, true)
    ensures BatchSpanListed(spans, sp)
    ensures TraceForest.RootAt(TraceForest.Build(spans).byId, sp.spanId, 1)
  {
    var byId := TraceForest.Build(spans).byId;
    TraceForest.BuildConsistent(spans);
    TraceForest.ByIdMeaning(spans, |spans|);
    var i :| 0 <= i < |spans| && spans[i] == sp;
    var j :| 0 <= j < |spans| && spans[j].spanId == sp.parentSpanId;
    assert KnownSpan(s, sp, true) && KnownSpan(s, spans[j], true);
    var b :| b in s.batches && b.session == sp.traceId && b.spanId == sp.parentSpanId;
    LinkTarget(s, spans[j], b);
    NotLinked(s, spans, spans[j]);
    OneLink(byId, sp.spanId, sp.parentSpanId);
  }

  lemma OneLink(byId: map<string, TraceSpan>, x: string, p: string)
    requires p in byId && TraceForest.Parent(byId, x) == Some(p) && TraceForest.Parent(byId, p) == None
    ensures TraceForest.RootAt(byId, x, 1)
  {
    assert TraceForest.Ancestor(byId, p, 0) == Some(p);
  }

  /** An indented line of a session is an aggregator span, and the line it is
      indented under is the collector span of its batch. */
  lemma IndentedUnderBatchSpan(s: State, spans: seq<TraceSpan>, i: nat)
    requires IdsOk(s) && NoDuplicates(TraceForest.SpanIds(spans))
    requires forall p :: p in spans ==> KnownSpan(s, p, true)
    requires i < |TraceForest.Listing(spans)| && TraceForest.Listing(spans)[i].depth > 0
    ensures IsUnderBatchSpan(TraceForest.Listing(spans), i)
  {
    var lines := TraceForest.Listing(spans);
    TraceForest.IndentationGivesParents(spans, i);
    TraceForest.ListingShape(spans);
    var j: nat :| TraceForest.Encloses(lines, j, i) && lines[j].span.spanId == lines[i].span.parentSpanId;
    var sp, c := lines[i].span, lines[j].span;
    assert lines[i] in lines && lines[j] in lines;
    assert KnownSpan(s, sp, true) && KnownSpan(s, c, true);
    if sp.operation == HEARTBEAT {
      assert false;
    } else if sp.operation == RECEIVE {
      LinkTarget(s, c, Batch(sp.traceId, sp.parentSpanId, sp.spanId));
      assert false;
    } else {
      var b :| b in s.batches && b.session == sp.traceId && b.spanId == sp.parentSpanId;
      LinkTarget(s, c, b);
    }
  }

  /** Line `i` is an aggregator span, indented under the collector span of its batch. */
  ghost predicate IsUnderBatchSpan(lines: seq<TraceForest.Line>, i: nat)
    requires i < |lines|
  {
    && lines[i].span.operation == INSERT
    && exists j: nat :: TraceForest.Encloses(lines, j, i) && IsBatchSpan(lines[j].span, lines[i].span)
  }

  /** End to end, in every run: the trace view of an agent session shows every
      stored span of the session exactly once, at depth zero or one; heartbeats and
      collector spans are at the top, and an aggregator span is indented under the
      collector span of its batch exactly if the table holds that. */
  lemma SessionForest(workers: nat, steps: seq<Step>, traceId: string, spans: seq<TraceSpan>)
    requires Run(workers, steps).Some?
    requires IsTraceAnswer(Run(workers, steps).value.delivery.tables.spans, traceId, spans)
    ensures NoDuplicates(TraceForest.SpanIds(spans))
    ensures var rows := Run(workers, steps).value.delivery.tables.spans;
            forall sp :: sp in spans ==>
              multiset(TraceForest.Listing(spans))[TraceForest.Line(sp, ExpectedDepth(rows, sp))] == 1
    ensures |TraceForest.Listing(spans)| == |spans|
    ensures forall i :: 0 <= i < |TraceForest.Listing(spans)| && TraceForest.Listing(spans)[i].depth > 0 ==>
              IsUnderBatchSpan(TraceForest.Listing(spans), i)
  {
    var s := Run(workers, steps).value;
    EveryRun(workers, steps);
    AnswerMeaning(s, traceId, spans);
    forall sp | sp in spans
      ensures ShownAt(spans, sp, ExpectedDepth(s.delivery.tables.spans, sp))
      ensures !TraceForest.EntersCycle(TraceForest.Build(spans).byId, sp.spanId)
    {
      ShownAtDepth(s, traceId, spans, sp);
    }
    TraceForest.AnnouncedCountIsRight(spans);
    forall i: nat | i < |TraceForest.Listing(spans)| && TraceForest.Listing(spans)[i].depth > 0
      ensures IsUnderBatchSpan(TraceForest.Listing(spans), i)
    {
      IndentedUnderBatchSpan(s, spans, i);
    }
  }

  predicate ShownAt(spans: seq<TraceSpan>, sp: TraceSpan, depth: nat)
    requires NoDuplicates(TraceForest.SpanIds(spans))
  {
    multiset(TraceForest.Listing(spans))[TraceForest.Line(sp, depth)] == 1
  }

  lemma ShownAtDepth(s: State, traceId: string, spans: seq<TraceSpan>, sp: TraceSpan)
    requires Inv(s) && IsTraceAnswer(s.delivery.tables.spans, traceId, spans) && sp in spans
    ensures NoDuplicates(TraceForest.SpanIds(spans))
    ensures ShownAt(spans, sp, ExpectedDepth(s.delivery.tables.spans, sp))
    ensures !TraceForest.EntersCycle(TraceForest.Build(spans).byId, sp.spanId)
  {
    AnswerMeaning(s, traceId, spans);
    SpanDepth(s, spans, sp);
    if sp.operation == INSERT {
      StoredIffListed(s, traceId, spans, sp);
    }
    var byId, depth := TraceForest.Build(spans).byId, ListedDepth(spans, sp);
    TraceForest.ListingCounts(spans, sp, depth);
    TraceForest.BuildConsistent(spans);
    var i :| 0 <= i < |spans| && spans[i] == sp;
    TraceForest.RootOrCycle(byId, sp.spanId);
  }
}
