/** The collector's gRPC server: it publishes each batch message by message. */
module Collector {
  import opened Telemetry
  import opened Delivery

  const TWO_32: int := 0x1_0000_0000

  datatype PbMetric = PbMetric(
    service: string,
    name: string,
    value: real,
    labels: map<string, string>,
    timestamp: Option<Time>)

  datatype PbLog = PbLog(
    service: string,
    level: string,
    message: string,
    traceId: string,
    fields: map<string, string>,
    timestamp: Option<Time>)

  datatype PbSpan = PbSpan(
    traceId: string,
    spanId: string,
    parentSpanId: string,
    service: string,
    operation: string,
    startTime: Option<Time>,
    endTime: Option<Time>,
    status: string)

  /** A missing timestamp becomes the current time. */
  function ProtoTime(t: Option<Time>, now: Time): Time {
    if t.Some? then t.value else now
  }

  function FirstValue(md: Option<map<string, seq<string>>>, key: string): string {
    if md.Some? && key in md.value && md.value[key] != [] then md.value[key][0] else ""
  }

  /** Trace ID and parent span ID of a call, from its metadata. */
  function ExtractTraceMeta(md: Option<map<string, seq<string>>>): (string, string) {
    (FirstValue(md, "trace-id"), FirstValue(md, "parent-span-id"))
  }

  function MetricOf(m: PbMetric, now: Time, traceId: string, spanId: string): Message {
    MetricMessage(Some(MetricMsg(
      MetricPoint(m.service, m.name, m.value, m.labels, ProtoTime(m.timestamp, now)), traceId, spanId)))
  }

  function LogOf(l: PbLog, now: Time): Message {
    LogMessage(Some(LogEntry(l.service, l.level, l.message, l.traceId, l.fields, ProtoTime(l.timestamp, now))))
  }

  function SpanOf(s: PbSpan, now: Time, later: Time): Message {
    SpanMessage(Some(TraceSpan(s.traceId, s.spanId, s.parentSpanId, s.service, s.operation,
                               ProtoTime(s.startTime, now), ProtoTime(s.endTime, later), s.status)))
  }

  /** The span that the collector reports for a traced batch. */
  function CollectorSpan(traceId: string, spanId: string, parentId: string, start: Time, end: Time): Message {
    SpanMessage(Some(TraceSpan(traceId, spanId, parentId,
                               "collector", "collector.receive_metrics", start, end, "ok")))
  }

  /** The span ID a batch is tagged with: a new one if it is traced and not empty. */
  function BatchSpanId(traceId: string, n: nat, drawn: string): string {
    if traceId != "" && n > 0 then drawn else ""
  }

  /** The messages of a batch, in order.  `clock` tells the time: at the start
      of the call, and again each time it is asked. */
  function MetricMessages(metrics: seq<PbMetric>, traceId: string, spanId: string, clock: nat -> Time): (r: seq<Message>)
    ensures |r| == |metrics|
    ensures forall k :: 0 <= k < |metrics| ==> r[k] == MetricOf(metrics[k], clock(k + 1), traceId, spanId)
  {
    seq(|metrics|, k requires 0 <= k < |metrics| => MetricOf(metrics[k], clock(k + 1), traceId, spanId))
  }

  function LogMessages(logs: seq<PbLog>, clock: nat -> Time): (r: seq<Message>)
    ensures |r| == |logs|
    ensures forall k :: 0 <= k < |logs| ==> r[k] == LogOf(logs[k], clock(k))
  {
    seq(|logs|, k requires 0 <= k < |logs| => LogOf(logs[k], clock(k)))
  }

  function SpanMessages(spans: seq<PbSpan>, clock: nat -> Time): (r: seq<Message>)
    ensures |r| == |spans|
    ensures forall k :: 0 <= k < |spans| ==> r[k] == SpanOf(spans[k], clock(2 * k), clock(2 * k + 1))
  {
    seq(|spans|, k requires 0 <= k < |spans| => SpanOf(spans[k], clock(2 * k), clock(2 * k + 1)))
  }

  /** The first `n` publish attempts all succeed. */
  ghost predicate AllConfirmed(outcome: nat -> Outcome, n: nat) {
    forall k: nat :: k < n ==> outcome(k).Confirmed?
  }

  /** Attempt `k` is the first that does not succeed. */
  ghost predicate FirstFailure(outcome: nat -> Outcome, k: nat) {
    AllConfirmed(outcome, k) && !outcome(k).Confirmed?
  }

  /** What a batch leaves in the stream when attempt `k` is the first to fail. */
  function UpTo(messages: seq<Message>, k: nat, outcome: Outcome): seq<Message>
    requires k < |messages|
  {
    messages[..k] + if outcome.TookEffect() then [messages[k]] else []
  }

  /** The first value that the metadata give for a key, or empty: what is read of them. */
  ghost predicate IsMeta(md: Option<map<string, seq<string>>>, key: string, value: string) {
    if md.Some? && key in md.value && |md.value[key]| > 0 then value == md.value[key][0] else value == ""
  }

  /** Field by field, the message for a metric. */
  ghost predicate IsMetricMessage(m: Message, x: PbMetric, now: Time, traceId: string, spanId: string) {
    && m.MetricMessage? && m.metric.Some?
    && m.metric.value.traceId == traceId && m.metric.value.collectorSpanId == spanId
    && var p := m.metric.value.point;
    && p.service == x.service && p.name == x.name && p.value == x.value && p.labels == x.labels
    && p.timestamp == if x.timestamp.Some? then x.timestamp.value else now
  }

  /** Field by field, the message for a log entry. */
  ghost predicate IsLogMessage(m: Message, x: PbLog, now: Time) {
    && m.LogMessage? && m.log.Some?
    && var l := m.log.value;
    && l.service == x.service && l.level == x.level && l.message == x.message
    && l.traceId == x.traceId && l.fields == x.fields
    && l.timestamp == if x.timestamp.Some? then x.timestamp.value else now
  }

  /** Field by field, the message for a span. */
  ghost predicate IsSpanMessage(m: Message, x: PbSpan, now: Time, later: Time) {
    && m.SpanMessage? && m.span.Some?
    && var sp := m.span.value;
    && sp.traceId == x.traceId && sp.spanId == x.spanId && sp.parentSpanId == x.parentSpanId
    && sp.service == x.service && sp.operation == x.operation && sp.status == x.status
    && sp.startTime == (if x.startTime.Some? then x.startTime.value else now)
    && sp.endTime == (if x.endTime.Some? then x.endTime.value else later)
  }

  /** What a call with metrics does to the stream, in terms of the call itself: it
      appends messages for the metrics in order, and at the end, if the call is
      traced and not empty, the span of the batch.  Each message of a traced batch
      carries the ID of that span. */
  ghost predicate PublishesBatch(md: Option<map<string, seq<string>>>, metrics: seq<PbMetric>, drawn: string,
                                 clock: nat -> Time, outcome: nat -> Outcome,
                                 before: seq<Message>, after: seq<Message>, accepted: Option<int>)
  {
    && |before| <= |after| <= |before| + |metrics| + 1 && after[..|before|] == before
    && (accepted.None? <==> exists k :: 0 <= k < |metrics| && !outcome(k).Confirmed?)
    && forall traceId, parentId :: IsMeta(md, "trace-id", traceId) && IsMeta(md, "parent-span-id", parentId) ==>
         BatchPublished(traceId, parentId, metrics, drawn, clock, outcome, after[|before|..], accepted)
  }

  ghost predicate BatchPublished(traceId: string, parentId: string, metrics: seq<PbMetric>, drawn: string,
                                 clock: nat -> Time, outcome: nat -> Outcome,
                                 appended: seq<Message>, accepted: Option<int>)
  {
    var traced := traceId != "" && |metrics| > 0;
    && (forall k :: 0 <= k < |metrics| && k < |appended| ==>
          IsMetricMessage(appended[k], metrics[k], clock(k + 1), traceId, if traced then drawn else ""))
    && (|appended| > |metrics| ==>
          && traced
          && appended[|metrics|] == SpanMessage(Some(TraceSpan(traceId, drawn, parentId,
               "collector", "collector.receive_metrics", clock(0), clock(|metrics| + 1), "ok"))))
    && (accepted.None? ==>
          exists k :: 0 <= k < |metrics| && !outcome(k).Confirmed? && (forall j :: 0 <= j < k ==> outcome(j).Confirmed?)
                      && |appended| == k + if outcome(k).Refused? then 0 else 1)
    && (accepted.Some? ==>
          accepted.value == |metrics| % 0x1_0000_0000
          && |appended| == |metrics| + if traced && !outcome(|metrics|).Refused? then 1 else 0)
  }

  lemma MetaRead(md: Option<map<string, seq<string>>>, traceId: string, parentId: string)
    requires IsMeta(md, "trace-id", traceId) && IsMeta(md, "parent-span-id", parentId)
    ensures ExtractTraceMeta(md) == (traceId, parentId)
  {
  }

  /** The same in terms of the functions above: all messages and the span of the batch,
      or the messages up to the first failure. */
  ghost predicate AppendsBatch(md: Option<map<string, seq<string>>>, metrics: seq<PbMetric>, drawn: string,
                               clock: nat -> Time, outcome: nat -> Outcome, more: seq<Message>, accepted: Option<int>)
  {
    var (traceId, parentId) := ExtractTraceMeta(md);
    var n := |metrics|;
    var messages := MetricMessages(metrics, traceId, BatchSpanId(traceId, n, drawn), clock);
    if AllConfirmed(outcome, n) then
      && accepted == Some(n % TWO_32)
      && more == messages + BatchSpan(traceId, parentId, n, drawn, clock, outcome)
    else
      && accepted == None
      && exists k :: 0 <= k < n && FirstFailure(outcome, k) && more == UpTo(messages, k, outcome(k))
  }

  function BatchSpan(traceId: string, parentId: string, n: nat, drawn: string,
                     clock: nat -> Time, outcome: nat -> Outcome): seq<Message>
  {
    if traceId != "" && n > 0 && outcome(n).TookEffect()
    then [CollectorSpan(traceId, drawn, parentId, clock(0), clock(n + 1))] else []
  }

  lemma MetricFields(metrics: seq<PbMetric>, traceId: string, spanId: string, clock: nat -> Time, k: nat)
    requires k < |metrics|
    ensures IsMetricMessage(MetricMessages(metrics, traceId, spanId, clock)[k], metrics[k], clock(k + 1), traceId, spanId)
  {
  }

  /** A call whose publish attempt `k` is the first to fail. */
  lemma BatchFailed(md: Option<map<string, seq<string>>>, metrics: seq<PbMetric>, drawn: string,
                    clock: nat -> Time, outcome: nat -> Outcome, before: seq<Message>, k: nat, more: seq<Message>)
    requires k < |metrics| && AllConfirmed(outcome, k) && !outcome(k).Confirmed?
    requires var (traceId, parentId) := ExtractTraceMeta(md);
             more == UpTo(MetricMessages(metrics, traceId, BatchSpanId(traceId, |metrics|, drawn), clock), k, outcome(k))
    ensures AppendsBatch(md, metrics, drawn, clock, outcome, more, None)
    ensures PublishesBatch(md, metrics, drawn, clock, outcome, before, before + more, None)
  {
    assert FirstFailure(outcome, k);
    assert (before + more)[|before|..] == more;
    forall traceId, parentId | IsMeta(md, "trace-id", traceId) && IsMeta(md, "parent-span-id", parentId)
      ensures BatchPublished(traceId, parentId, metrics, drawn, clock, outcome, more, None)
    {
      MetaRead(md, traceId, parentId);
      forall i | 0 <= i < |more|
        ensures IsMetricMessage(more[i], metrics[i], clock(i + 1), traceId, BatchSpanId(traceId, |metrics|, drawn))
      {
        MetricFields(metrics, traceId, BatchSpanId(traceId, |metrics|, drawn), clock, i);
      }
      assert forall j :: 0 <= j < k ==> outcome(j).Confirmed?;
    }
  }

  /** A call that publishes all messages. */
  lemma BatchDone(md: Option<map<string, seq<string>>>, metrics: seq<PbMetric>, drawn: string,
                  clock: nat -> Time, outcome: nat -> Outcome, before: seq<Message>, more: seq<Message>)
    requires AllConfirmed(outcome, |metrics|)
    requires var (traceId, parentId) := ExtractTraceMeta(md);
             more == MetricMessages(metrics, traceId, BatchSpanId(traceId, |metrics|, drawn), clock)
                     + BatchSpan(traceId, parentId, |metrics|, drawn, clock, outcome)
    ensures AppendsBatch(md, metrics, drawn, clock, outcome, more, Some(|metrics| % TWO_32))
    ensures PublishesBatch(md, metrics, drawn, clock, outcome, before, before + more, Some(|metrics| % TWO_32))
  {
    assert (before + more)[|before|..] == more;
    forall traceId, parentId | IsMeta(md, "trace-id", traceId) && IsMeta(md, "parent-span-id", parentId)
      ensures BatchPublished(traceId, parentId, metrics, drawn, clock, outcome, more, Some(|metrics| % TWO_32))
    {
      MetaRead(md, traceId, parentId);
      forall i | 0 <= i < |metrics|
        ensures IsMetricMessage(more[i], metrics[i], clock(i + 1), traceId, BatchSpanId(traceId, |metrics|, drawn))
      {
        MetricFields(metrics, traceId, BatchSpanId(traceId, |metrics|, drawn), clock, i);
      }
    }
  }

  class GrpcServer {
    var stream: seq<Message>

    constructor ()
      ensures stream == []
    {
      stream := [];
    }

    method Publish(m: Message, outcome: Outcome) returns (err: bool)
      modifies this
      ensures stream == old(stream) + (if outcome.TookEffect() then [m] else [])
      ensures err == !outcome.Confirmed?
    {
      if outcome.TookEffect() {
        stream := stream + [m];
      }
      err := !outcome.Confirmed?;
    }

    /** `drawn` is the span ID drawn for the batch; `outcome(k)` says how publish
        attempt `k` of this call ends; `clock` tells the time along the call. */
    method SendMetrics(md: Option<map<string, seq<string>>>, metrics: seq<PbMetric>, drawn: string,
                       clock: nat -> Time, outcome: nat -> Outcome)
      returns (accepted: Option<int>)
      modifies this
      ensures PublishesBatch(md, metrics, drawn, clock, outcome, old(stream), stream, accepted)
      ensures exists more :: stream == old(stream) + more
                             && AppendsBatch(md, metrics, drawn, clock, outcome, more, accepted)
    {
      var (traceId, parentId) := ExtractTraceMeta(md);
      var start := clock(0);
      var spanId := "";
      if traceId != "" && |metrics| > 0 {
        spanId := drawn;
      }
      ghost var messages := MetricMessages(metrics, traceId, spanId, clock);
      for k := 0 to |metrics|
        invariant stream == old(stream) + messages[..k]
        invariant AllConfirmed(outcome, k)
      {
        var err := Publish(MetricOf(metrics[k], clock(k + 1), traceId, spanId), outcome(k));
        if err {
          ghost var more := UpTo(messages, k, outcome(k));
          assert stream == old(stream) + more;
          BatchFailed(md, metrics, drawn, clock, outcome, old(stream), k, more);
          return None;
        }
        assert messages[..k + 1] == messages[..k] + [messages[k]];
      }
      assert messages[..|metrics|] == messages;
      if traceId != "" && |metrics| > 0 {
        var n := |metrics|;
        var ignored := Publish(CollectorSpan(traceId, spanId, parentId, start, clock(n + 1)), outcome(n));
      }
      ghost var more := messages + BatchSpan(traceId, parentId, |metrics|, drawn, clock, outcome);
      assert stream == old(stream) + more;
      BatchDone(md, metrics, drawn, clock, outcome, old(stream), more);
      return Some(|metrics| % TWO_32);
    }

    method SendLogs(logs: seq<PbLog>, clock: nat -> Time, outcome: nat -> Outcome) returns (accepted: Option<int>)
      modifies this
      ensures |old(stream)| <= |stream| <= |old(stream)| + |logs| && stream[..|old(stream)|] == old(stream)
      ensures forall k :: 0 <= k < |stream| - |old(stream)| ==>
                IsLogMessage(stream[|old(stream)| + k], logs[k], clock(k))
      ensures accepted.None? <==> exists k :: 0 <= k < |logs| && !outcome(k).Confirmed?
      ensures accepted.Some? ==> |stream| == |old(stream)| + |logs|
      ensures var messages := LogMessages(logs, clock);
              if AllConfirmed(outcome, |logs|) then
                accepted == Some(|logs| % TWO_32) && stream == old(stream) + messages
              else
                && accepted == None
                && exists k :: 0 <= k < |logs| && FirstFailure(outcome, k)
                               && stream == old(stream) + UpTo(messages, k, outcome(k))
    {
      ghost var messages := LogMessages(logs, clock);
      for k := 0 to |logs|
        invariant stream == old(stream) + messages[..k]
        invariant AllConfirmed(outcome, k)
      {
        var err := Publish(LogOf(logs[k], clock(k)), outcome(k));
        if err {
          assert FirstFailure(outcome, k);
          assert stream == old(stream) + UpTo(messages, k, outcome(k));
          return None;
        }
        assert messages[..k + 1] == messages[..k] + [messages[k]];
      }
      assert messages[..|logs|] == messages;
      return Some(|logs| % TWO_32);
    }

    method SendSpans(spans: seq<PbSpan>, clock: nat -> Time, outcome: nat -> Outcome) returns (accepted: Option<int>)
      modifies this
      ensures |old(stream)| <= |stream| <= |old(stream)| + |spans| && stream[..|old(stream)|] == old(stream)
      ensures forall k :: 0 <= k < |stream| - |old(stream)| ==>
                IsSpanMessage(stream[|old(stream)| + k], spans[k], clock(2 * k), clock(2 * k + 1))
      ensures accepted.None? <==> exists k :: 0 <= k < |spans| && !outcome(k).Confirmed?
      ensures accepted.Some? ==> |stream| == |old(stream)| + |spans|
      ensures var messages := SpanMessages(spans, clock);
              if AllConfirmed(outcome, |spans|) then
                accepted == Some(|spans| % TWO_32) && stream == old(stream) + messages
              else
                && accepted == None
                && exists k :: 0 <= k < |spans| && FirstFailure(outcome, k)
                               && stream == old(stream) + UpTo(messages, k, outcome(k))
    {
      ghost var messages := SpanMessages(spans, clock);
      for k := 0 to |spans|
        invariant stream == old(stream) + messages[..k]
        invariant AllConfirmed(outcome, k)
      {
        var err := Publish(SpanOf(spans[k], clock(2 * k), clock(2 * k + 1)), outcome(k));
        if err {
          assert FirstFailure(outcome, k);
          assert stream == old(stream) + UpTo(messages, k, outcome(k));
          return None;
        }
        assert messages[..k + 1] == messages[..k] + [messages[k]];
      }
      assert messages[..|spans|] == messages;
      return Some(|spans| % TWO_32);
    }
  }
}
