/** Delivery of telemetry from the stream to the tables: publish, deliver,
    insert, ack or nak, redeliver.  Any number of aggregator workers run
    interleaved; inserts may fail, replies may get lost, workers may crash. */
module Delivery {
  import opened Telemetry
  import opened Storage

  datatype MetricMsg = MetricMsg(point: MetricPoint, traceId: string, collectorSpanId: string)

  /** A message of one of the three subjects; None when it does not decode. */
  datatype Message =
    | MetricMessage(metric: Option<MetricMsg>)
    | LogMessage(log: Option<LogEntry>)
    | SpanMessage(span: Option<TraceSpan>)
  {
    predicate Decodable() {
      match this
      case MetricMessage(m) => m.Some?
      case LogMessage(l) => l.Some?
      case SpanMessage(s) => s.Some?
    }

    /** The record a handler stores for the message. */
    function Main(): Record
      requires Decodable()
    {
      match this
      case MetricMessage(m) => MetricRecord(m.value.point)
      case LogMessage(l) => LogRecord(l.value)
      case SpanMessage(s) => SpanRecord(s.value)
    }

    predicate Traced() {
      MetricMessage? && metric.Some? && metric.value.traceId != ""
    }

    /** The span the aggregator adds for a traced metric. */
    function Extra(id: string, start: Time, end: Time): Record
      requires Traced()
    {
      AggregatorRecord(TraceSpan(metric.value.traceId, id, metric.value.collectorSpanId,
                                 "aggregator", "aggregator.insert_metric", start, end, "ok"))
    }
  }

  // ---------------------------------------------------- one handler call

  /** The handler's insert of the message's own record. */
  function StoreMain(t: Tables, i: nat, m: Message, outcome: Outcome): (Tables, Outcome)
    requires m.Decodable()
  {
    Insert(t, Row(i, m.Main()), outcome)
  }

  function StoreExtra(t: Tables, i: nat, m: Message, id: string, start: Time, end: Time, outcome: Outcome): Tables
    requires m.Traced()
  {
    Insert(t, Row(i, m.Extra(id, start, end)), outcome).0
  }

  /** A whole handler call: the tables afterwards, and whether to acknowledge. */
  function Handle(t: Tables, i: nat, m: Message, outcome: Outcome,
                  id: string, start: Time, end: Time, extra: Outcome): (Tables, bool)
  {
    if !m.Decodable() then (t, true)
    else
      var (t1, o) := StoreMain(t, i, m, outcome);
      if !o.Confirmed? then (t1, false)
      else if m.Traced() then (StoreExtra(t1, i, m, id, start, end, extra), true)
      else (t1, true)
  }

  /** The aggregator's message handlers, working on the tables. */
  class Aggregator {
    var metrics: seq<Row>
    var logs: seq<Row>
    var spans: seq<Row>

    constructor ()
      ensures Contents() == Tables([], [], [])
    {
      metrics, logs, spans := [], [], [];
    }

    function Contents(): Tables
      reads this
    {
      Tables(metrics, logs, spans)
    }

    method InsertMetric(i: nat, p: MetricPoint, outcome: Outcome) returns (err: bool)
      modifies this`metrics
      ensures metrics == old(metrics) + if outcome.Refused? then [] else [Row(i, MetricRecord(p))]
      ensures err <==> !outcome.Confirmed?
      ensures (Contents(), if err then Refused else Confirmed) ==
              var (t, o) := Insert(old(Contents()), Row(i, MetricRecord(p)), outcome);
              (t, if o.Confirmed? then Confirmed else Refused)
    {
      if outcome.TookEffect() {
        metrics := metrics + [Row(i, MetricRecord(p))];
      }
      err := !outcome.Confirmed?;
    }

    method InsertLog(i: nat, l: LogEntry, outcome: Outcome) returns (err: bool)
      modifies this`logs
      ensures logs == old(logs) + if outcome.Refused? then [] else [Row(i, LogRecord(l))]
      ensures err <==> !outcome.Confirmed?
      ensures (Contents(), if err then Refused else Confirmed) ==
              var (t, o) := Insert(old(Contents()), Row(i, LogRecord(l)), outcome);
              (t, if o.Confirmed? then Confirmed else Refused)
    {
      if outcome.TookEffect() {
        logs := logs + [Row(i, LogRecord(l))];
      }
      err := !outcome.Confirmed?;
    }

    method InsertSpan(i: nat, record: Record, outcome: Outcome) returns (err: bool)
      requires record.IsSpan()
      modifies this`spans
      ensures var taken := exists k :: 0 <= k < |old(spans)| && old(spans)[k].record.IsSpan()
                                       && old(spans)[k].record.span.spanId == record.span.spanId;
              && spans == old(spans) + (if taken || outcome.Refused? then [] else [Row(i, record)])
              && (err <==> taken || !outcome.Confirmed?)
      ensures (Contents(), if err then Refused else Confirmed) ==
              var (t, o) := Insert(old(Contents()), Row(i, record), outcome);
              (t, if o.Confirmed? then Confirmed else Refused)
    {
      if HasSpanId(spans, record.span.spanId) {
        return true;
      }
      if outcome.TookEffect() {
        spans := spans + [Row(i, record)];
      }
      err := !outcome.Confirmed?;
    }

    method ConsumeMetric(i: nat, data: Option<MetricMsg>, outcome: Outcome,
                         id: string, start: Time, end: Time, extra: Outcome)
      returns (ack: bool)
      modifies this
      ensures data.None? ==> ack && Contents() == old(Contents())
      ensures data.Some? ==>
                && (ack <==> outcome.Confirmed?) && logs == old(logs)
                && metrics == old(metrics) + (if outcome.Refused? then [] else [Row(i, MetricRecord(data.value.point))])
                && var taken := exists k :: 0 <= k < |old(spans)| && old(spans)[k].record.IsSpan()
                                            && old(spans)[k].record.span.spanId == id;
                spans == old(spans) +
                  if outcome.Confirmed? && data.value.traceId != "" && !taken && !extra.Refused?
                  then [Row(i, AggregatorRecord(TraceSpan(
                              data.value.traceId, id, data.value.collectorSpanId,
                              "aggregator", "aggregator.insert_metric", start, end, "ok")))]
                  else []
      ensures (Contents(), ack) ==
              Handle(old(Contents()), i, MetricMessage(data), outcome, id, start, end, extra)
    {
      if data.None? {
        return true;
      }
      var msg := data.value;
      var err := InsertMetric(i, msg.point, outcome);
      if err {
        return false;
      }
      if msg.traceId != "" {
        var ignored := InsertSpan(i, AggregatorRecord(TraceSpan(
          msg.traceId, id, msg.collectorSpanId,
          "aggregator", "aggregator.insert_metric", start, end, "ok")), extra);
      }
      return true;
    }

    method ConsumeLog(i: nat, data: Option<LogEntry>, outcome: Outcome) returns (ack: bool)
      modifies this
      ensures data.None? ==> ack && Contents() == old(Contents())
      ensures data.Some? ==>
                && (ack <==> outcome.Confirmed?) && metrics == old(metrics) && spans == old(spans)
                && logs == old(logs) + if outcome.Refused? then [] else [Row(i, LogRecord(data.value))]
      ensures (Contents(), ack) == Handle(old(Contents()), i, LogMessage(data), outcome, "", 0, 0, Refused)
    {
      if data.None? {
        return true;
      }
      var err := InsertLog(i, data.value, outcome);
      return !err;
    }

    method ConsumeSpan(i: nat, data: Option<TraceSpan>, outcome: Outcome) returns (ack: bool)
      modifies this
      ensures data.None? ==> ack && Contents() == old(Contents())
      ensures data.Some? ==>
                && metrics == old(metrics) && logs == old(logs)
                && var taken := exists k :: 0 <= k < |old(spans)| && old(spans)[k].record.IsSpan()
                                            && old(spans)[k].record.span.spanId == data.value.spanId;
                && (ack <==> outcome.Confirmed? && !taken)
                && spans == old(spans) + if taken || outcome.Refused? then [] else [Row(i, SpanRecord(data.value))]
      ensures (Contents(), ack) == Handle(old(Contents()), i, SpanMessage(data), outcome, "", 0, 0, Refused)
    {
      if data.None? {
        return true;
      }
      var err := InsertSpan(i, SpanRecord(data.value), outcome);
      return !err;
    }
  }

  // ------------------------------------------------------------ the protocol

  /** Where a worker stands with the message it was given. */
  datatype Pc =
    | Ready
    | Handling(i: nat)
    | Tracing(i: nat)              // metric stored; the extra span is next
    | Replying(i: nat, ack: bool)  // the handler has returned
  {
    predicate On(j: nat) { !Ready? && i == j }

    /** The worker has stored message `j` (or skipped it) and is going to acknowledge it. */
    predicate Holds(j: nat) { On(j) && (Tracing? || (Replying? && ack)) }
  }

  /** What has happened to one message. */
  datatype Track = Track(
    acked: bool,     // the server has an acknowledgement
    expired: bool,   // the stream has dropped the message
    commits: nat,    // inserts of its own row that took effect
    acks: nat,       // acknowledgements that arrived
    losses: nat,     // inserts that took effect without an acknowledgement arriving
    deleted: nat,    // of its own rows, deleted by retention
    extras: nat)     // aggregator spans stored for it

  datatype State = State(stream: seq<Message>, track: seq<Track>, workers: seq<Pc>, tables: Tables)

  datatype Step =
    | Publish(m: Message)
    | Deliver(w: nat, i: nat)
    | DoInsert(w: nat, outcome: Outcome)
    | DoTrace(w: nat, id: string, start: Time, end: Time, outcome: Outcome)
    | Reply(w: nat, lost: bool)
    | Crash(w: nat)
    | Expire(i: nat)
    | Retain(cutoff: Time)

  function Init(workers: nat): State {
    State([], [], seq(workers, _ => Ready), Tables([], [], []))
  }

  predicate Enabled(s: State, step: Step)
    requires |s.track| == |s.stream|
  {
    match step
    case Publish(_) => true
    case Deliver(w, i) =>
      w < |s.workers| && s.workers[w].Ready? && i < |s.stream| && !s.track[i].acked && !s.track[i].expired
    case DoInsert(w, _) => w < |s.workers| && s.workers[w].Handling? && s.workers[w].i < |s.stream|
    case DoTrace(w, _, _, _, _) =>
      w < |s.workers| && s.workers[w].Tracing? && s.workers[w].i < |s.stream| && s.stream[s.workers[w].i].Traced()
    case Reply(w, _) => w < |s.workers| && s.workers[w].Replying? && s.workers[w].i < |s.stream|
    case Crash(w) => w < |s.workers| && (s.workers[w].Ready? || s.workers[w].i < |s.stream|)
    case Expire(i) => i < |s.stream|
    case Retain(_) => true
  }

  function Apply(s: State, step: Step): State
    requires |s.track| == |s.stream| && Enabled(s, step)
  {
    match step
    case Publish(m) =>
      s.(stream := s.stream + [m], track := s.track + [Track(false, false, 0, 0, 0, 0, 0)])
    case Deliver(w, i) => s.(workers := s.workers[w := Handling(i)])
    case DoInsert(w, outcome) => ApplyInsert(s, w, outcome)
    case DoTrace(w, id, start, end, outcome) =>
      var i := s.workers[w].i;
      var row := Row(i, s.stream[i].Extra(id, start, end));
      var (t, o) := Insert(s.tables, row, outcome);
      var x := s.track[i];
      s.(tables := t,
         track := s.track[i := x.(extras := x.extras + if o.TookEffect() then 1 else 0)],
         workers := s.workers[w := Replying(i, true)])
    case Reply(w, lost) =>
      var i := s.workers[w].i;
      if !s.workers[w].ack then s.(workers := s.workers[w := Ready])
      else if lost then Lose(s, w)
      else
        var x := s.track[i];
        s.(track := s.track[i := x.(acked := true, acks := x.acks + 1)], workers := s.workers[w := Ready])
    case Crash(w) =>
      if s.workers[w].Tracing? || (s.workers[w].Replying? && s.workers[w].ack) then Lose(s, w)
      else s.(workers := s.workers[w := Ready])
    case Expire(i) => s.(track := s.track[i := s.track[i].(expired := true)])
    case Retain(cutoff) =>
      var t := KeepAll(s.tables, cutoff);
      s.(tables := t, track := MarkDeleted(s.track, s.tables, t))
  }

  /** The handler stores the message's record, or skips a message it cannot decode. */
  function ApplyInsert(s: State, w: nat, outcome: Outcome): State
    requires |s.track| == |s.stream| && Enabled(s, DoInsert(w, outcome))
  {
    var i := s.workers[w].i;
    var m := s.stream[i];
    if !m.Decodable() then s.(workers := s.workers[w := Replying(i, true)])
    else
      var (t, o) := StoreMain(s.tables, i, m, outcome);
      var x := s.track[i];
      var pc := if !o.Confirmed? then Replying(i, false) else if m.Traced() then Tracing(i) else Replying(i, true);
      s.(tables := t,
         track := s.track[i := x.(commits := x.commits + (if o.TookEffect() then 1 else 0),
                                  losses := x.losses + (if o.Unconfirmed? then 1 else 0))],
         workers := s.workers[w := pc])
  }

  /** The worker's acknowledgement never reaches the server. */
  function Lose(s: State, w: nat): State
    requires |s.track| == |s.stream| && w < |s.workers| && !s.workers[w].Ready? && s.workers[w].i < |s.stream|
  {
    var i := s.workers[w].i;
    var x := s.track[i];
    s.(track := s.track[i := x.(losses := x.losses + 1)], workers := s.workers[w := Ready])
  }

  function MarkDeleted(track: seq<Track>, before: Tables, after: Tables): (r: seq<Track>)
    ensures |r| == |track|
  {
    seq(|track|, i requires 0 <= i < |track| =>
      track[i].(deleted := track[i].deleted + Gone(before, after, i)))
  }

  /** How many rows of message `i` a change of the tables has removed. */
  function Gone(before: Tables, after: Tables, i: nat): nat {
    if MainRows(before, i) >= MainRows(after, i) then MainRows(before, i) - MainRows(after, i) else 0
  }

  function Run(workers: nat, steps: seq<Step>): (r: Option<State>)
    ensures r.Some? ==> |r.value.track| == |r.value.stream|
  {
    if steps == [] then Some(Init(workers))
    else match Run(workers, steps[..|steps| - 1])
      case None => None
      case Some(s) =>
        var step := steps[|steps| - 1];
        if Enabled(s, step) then Some(Apply(s, step)) else None
  }

  // -------------------------------------------------------- counting workers

  function Holders(workers: seq<Pc>, i: nat): nat {
    if workers == [] then 0
    else Holders(workers[..|workers| - 1], i) + if workers[|workers| - 1].Holds(i) then 1 else 0
  }

  function Tracers(workers: seq<Pc>, i: nat): nat {
    if workers == [] then 0
    else
      var last := workers[|workers| - 1];
      Tracers(workers[..|workers| - 1], i) + if last == Tracing(i) then 1 else 0
  }

  lemma {:induction false} CountUpdate(workers: seq<Pc>, w: nat, pc: Pc, i: nat)
    requires w < |workers|
    ensures Holders(workers[w := pc], i) + (if workers[w].Holds(i) then 1 else 0)
            == Holders(workers, i) + if pc.Holds(i) then 1 else 0
    ensures Tracers(workers[w := pc], i) + (if workers[w] == Tracing(i) then 1 else 0)
            == Tracers(workers, i) + if pc == Tracing(i) then 1 else 0
  {
    var n := |workers| - 1;
    if w == n {
      assert workers[w := pc][..n] == workers[..n];
    } else {
      assert workers[w := pc][..n] == workers[..n][w := pc];
      CountUpdate(workers[..n], w, pc, i);
    }
  }

  lemma {:induction false} NoHolders(workers: seq<Pc>, i: nat)
    requires forall w :: 0 <= w < |workers| ==> !workers[w].Holds(i)
    ensures Holders(workers, i) == 0 && Tracers(workers, i) == 0
  {
    if workers != [] {
      NoHolders(workers[..|workers| - 1], i);
    }
  }

  // ------------------------------------------------------------ the invariant

  /** Workers are on published messages. */
  ghost predicate WorkersOk(s: State) {
    forall w :: 0 <= w < |s.workers| && !s.workers[w].Ready? ==>
      s.workers[w].i < |s.stream| && (s.workers[w].Tracing? ==> s.stream[s.workers[w].i].Traced())
  }

  /** A row goes back to a published message and holds what that message says. */
  predicate Traces(stream: seq<Message>, row: Row) {
    && row.origin < |stream|
    && var m := stream[row.origin];
    match row.record
    case AggregatorRecord(sp) => m.Traced() && row.record == m.Extra(sp.spanId, sp.startTime, sp.endTime)
    case _ => m.Decodable() && row.record == m.Main()
  }

  ghost predicate RowsOk(s: State) {
    && WellFormed(s.tables)
    && (forall r :: r in s.tables.metrics ==> Traces(s.stream, r))
    && (forall r :: r in s.tables.logs ==> Traces(s.stream, r))
    && (forall r :: r in s.tables.spans ==> Traces(s.stream, r))
  }

  /** The books of message `i` balance. */
  predicate Balanced(s: State, i: nat)
    requires i < |s.stream| == |s.track|
  {
    var x := s.track[i];
    && (x.acked <==> x.acks > 0)
    && MainRows(s.tables, i) + x.deleted == x.commits
    && (s.stream[i].Decodable() ==> x.commits == x.acks + x.losses + Holders(s.workers, i))
    && Extras(s.tables.spans, i) <= x.extras
    && x.extras + Tracers(s.workers, i) <= x.commits
  }

  ghost predicate AllBalanced(s: State)
    requires |s.stream| == |s.track|
  {
    forall i :: 0 <= i < |s.stream| ==> Balanced(s, i)
  }

  lemma WorkersStep(s: State, step: Step)
    requires |s.track| == |s.stream| && WorkersOk(s) && Enabled(s, step)
    ensures WorkersOk(Apply(s, step))
  {
  }

  lemma TracesMore(stream: seq<Message>, m: Message, row: Row)
    requires Traces(stream, row)
    ensures Traces(stream + [m], row)
  {
  }

  lemma RowsInsert(s: State, row: Row, outcome: Outcome, s': State)
    requires RowsOk(s) && Traces(s.stream, row)
    requires s'.stream == s.stream && s'.tables == Insert(s.tables, row, outcome).0
    ensures RowsOk(s')
  {
    InsertKeepsWellFormed(s.tables, row, outcome);
  }

  lemma RowsStep(s: State, step: Step)
    requires |s.track| == |s.stream| && WorkersOk(s) && RowsOk(s) && Enabled(s, step)
    ensures RowsOk(Apply(s, step))
  {
    var s' := Apply(s, step);
    match step {
      case Publish(m) =>
        forall r | Traces(s.stream, r) ensures Traces(s'.stream, r) {
          TracesMore(s.stream, m, r);
        }
      case DoInsert(w, outcome) =>
        var i := s.workers[w].i;
        if s.stream[i].Decodable() {
          RowsInsert(s, Row(i, s.stream[i].Main()), outcome, s');
        }
      case DoTrace(w, id, start, end, outcome) =>
        var i := s.workers[w].i;
        RowsInsert(s, Row(i, s.stream[i].Extra(id, start, end)), outcome, s');
      case Retain(cutoff) =>
        KeepKeepsWellFormed(s.tables, cutoff);
        KeepMeaning(s.tables.metrics, cutoff, 0);
        KeepMeaning(s.tables.logs, cutoff, 0);
        KeepMeaning(s.tables.spans, cutoff, 0);
      case _ =>
    }
  }

  lemma BalancedStep(s: State, step: Step, i: nat)
    requires |s.track| == |s.stream| && WorkersOk(s) && RowsOk(s) && Enabled(s, step)
    requires i < |s.stream| && Balanced(s, i)
    ensures Balanced(Apply(s, step), i)
  {
    match step {
      case Deliver(w, j) => CountUpdate(s.workers, w, Handling(j), i);
      case DoInsert(w, outcome) => BalancedInsert(s, w, outcome, i);
      case DoTrace(w, id, start, end, outcome) => BalancedTrace(s, step, i);
      case Reply(w, lost) => BalancedEnd(s, step, i);
      case Crash(w) => BalancedEnd(s, step, i);
      case Retain(cutoff) => BalancedRetain(s, cutoff, i);
      case _ =>
    }
  }

  lemma BalancedTrace(s: State, step: Step, i: nat)
    requires |s.track| == |s.stream| && step.DoTrace? && Enabled(s, step)
    requires i < |s.stream| && Balanced(s, i)
    ensures Balanced(Apply(s, step), i)
  {
    var j := s.workers[step.w].i;
    InsertCounts(s.tables, Row(j, s.stream[j].Extra(step.id, step.start, step.end)), step.outcome, i);
    CountUpdate(s.workers, step.w, Replying(j, true), i);
  }

  lemma BalancedEnd(s: State, step: Step, i: nat)
    requires |s.track| == |s.stream| && (step.Reply? || step.Crash?) && Enabled(s, step)
    requires i < |s.stream| && Balanced(s, i)
    ensures Balanced(Apply(s, step), i)
  {
    CountUpdate(s.workers, step.w, Ready, i);
    var s' := Apply(s, step);
    assert s'.workers == s.workers[step.w := Ready] && s'.tables == s.tables && s'.stream == s.stream;
    if !s.workers[step.w].On(i) {
      assert s'.track[i] == s.track[i];
    }
  }

  lemma BalancedRetain(s: State, cutoff: Time, i: nat)
    requires |s.track| == |s.stream| && i < |s.stream| && Balanced(s, i)
    ensures Balanced(Apply(s, Retain(cutoff)), i)
  {
    KeepMeaning(s.tables.metrics, cutoff, i);
    KeepMeaning(s.tables.logs, cutoff, i);
    KeepMeaning(s.tables.spans, cutoff, i);
  }

  lemma BalancedInsert(s: State, w: nat, outcome: Outcome, i: nat)
    requires |s.track| == |s.stream| && Enabled(s, DoInsert(w, outcome))
    requires i < |s.stream| && Balanced(s, i)
    ensures Balanced(Apply(s, DoInsert(w, outcome)), i)
  {
    var j := s.workers[w].i;
    if s.stream[j].Decodable() {
      BalancedStore(s, w, outcome, i);
    } else {
      CountUpdate(s.workers, w, Replying(j, true), i);
    }
  }

  lemma BalancedStore(s: State, w: nat, outcome: Outcome, i: nat)
    requires |s.track| == |s.stream| && Enabled(s, DoInsert(w, outcome))
    requires s.stream[s.workers[w].i].Decodable()
    requires i < |s.stream| && Balanced(s, i)
    ensures Balanced(ApplyInsert(s, w, outcome), i)
  {
    var j := s.workers[w].i;
    var m := s.stream[j];
    var (t, o) := Insert(s.tables, Row(j, m.Main()), outcome);
    var pc := if !o.Confirmed? then Replying(j, false) else if m.Traced() then Tracing(j) else Replying(j, true);
    InsertCounts(s.tables, Row(j, m.Main()), outcome, i);
    CountUpdate(s.workers, w, pc, i);
    StoreTrack(s, w, outcome, i, o, pc);
  }

  /** What storing a record does to the books of message `i`, given the outcome. */
  lemma StoreTrack(s: State, w: nat, outcome: Outcome, i: nat, o: Outcome, pc: Pc)
    requires |s.track| == |s.stream| && Enabled(s, DoInsert(w, outcome)) && i < |s.stream|
    requires s.stream[s.workers[w].i].Decodable()
    requires var (m, j) := (s.stream[s.workers[w].i], s.workers[w].i);
             && o == StoreMain(s.tables, j, m, outcome).1
             && pc == if !o.Confirmed? then Replying(j, false) else if m.Traced() then Tracing(j) else Replying(j, true)
    ensures var s', own := ApplyInsert(s, w, outcome), i == s.workers[w].i;
            && s'.stream == s.stream && s'.workers == s.workers[w := pc]
            && s'.tables == StoreMain(s.tables, s.workers[w].i, s.stream[s.workers[w].i], outcome).0
            && s'.track[i] == s.track[i].(
                 commits := s.track[i].commits + (if own && o.TookEffect() then 1 else 0),
                 losses := s.track[i].losses + (if own && o.Unconfirmed? then 1 else 0))
  {
  }

  /** Nothing refers to a message that is not published yet. */
  lemma {:induction false} NothingBeyond(rows: seq<Row>, i: nat)
    requires forall r :: r in rows ==> r.origin != i
    ensures Mains(rows, i) == 0 && Extras(rows, i) == 0
  {
    if rows != [] {
      NothingBeyond(rows[..|rows| - 1], i);
    }
  }

  lemma NewMessageBalanced(s: State, m: Message)
    requires |s.track| == |s.stream| && WorkersOk(s) && RowsOk(s)
    ensures Balanced(Apply(s, Publish(m)), |s.stream|)
  {
    var n := |s.stream|;
    NoHolders(s.workers, n);
    NothingBeyond(s.tables.metrics, n);
    NothingBeyond(s.tables.logs, n);
    NothingBeyond(s.tables.spans, n);
  }

  ghost predicate Inv(s: State) {
    |s.track| == |s.stream| && WorkersOk(s) && RowsOk(s) && AllBalanced(s)
  }

  lemma InvStep(s: State, step: Step)
    requires Inv(s) && Enabled(s, step)
    ensures Inv(Apply(s, step))
  {
    WorkersStep(s, step);
    RowsStep(s, step);
    forall i: nat | i < |Apply(s, step).stream| ensures Balanced(Apply(s, step), i) {
      if i < |s.stream| {
        BalancedStep(s, step, i);
      } else {
        NewMessageBalanced(s, step.m);
      }
    }
  }

  /** Every reachable state satisfies the invariant. */
  lemma {:induction false} EveryRun(workers: nat, steps: seq<Step>)
    requires Run(workers, steps).Some?
    ensures Inv(Run(workers, steps).value)
  {
    if steps != [] {
      EveryRun(workers, steps[..|steps| - 1]);
      InvStep(Run(workers, steps[..|steps| - 1]).value, steps[|steps| - 1]);
    }
  }

  // ------------------------------------------------------------ main results

  /** At least once: an acknowledged message does not decode or has been stored;
      a row that is gone was deleted by retention. */
  lemma AckedIsStored(workers: nat, steps: seq<Step>, i: nat)
    requires Run(workers, steps).Some? && i < |Run(workers, steps).value.stream|
    ensures var s := Run(workers, steps).value;
            s.track[i].acked && s.stream[i].Decodable() ==>
              MainRows(s.tables, i) + s.track[i].deleted >= 1
  {
    EveryRun(workers, steps);
    assert Balanced(Run(workers, steps).value, i);
  }

  /** The rows of a message equal its inserts that took effect, and each of these
      ended in an arrived acknowledgement, in a lost one, or is still in a worker's
      hands.  In particular there is exactly one row if nothing was lost, nothing
      is in flight, nothing was deleted and one acknowledgement arrived. */
  lemma RowsAccountedFor(workers: nat, steps: seq<Step>, i: nat)
    requires Run(workers, steps).Some? && i < |Run(workers, steps).value.stream|
    ensures var s := Run(workers, steps).value;
            var x := s.track[i];
            && MainRows(s.tables, i) + x.deleted == x.commits
            && (s.stream[i].Decodable() ==> x.commits == x.acks + x.losses + Holders(s.workers, i))
            && (!s.stream[i].Decodable() ==> x.commits == 0)
            && (s.stream[i].Decodable() && x.losses == 0 && x.deleted == 0 && Holders(s.workers, i) == 0 ==>
                  MainRows(s.tables, i) == x.acks)
  {
    EveryRun(workers, steps);
    var s := Run(workers, steps).value;
    assert Balanced(s, i);
    if !s.stream[i].Decodable() {
      UndecodableNeverStored(workers, steps, i);
    }
  }

  /** The message is delivered only while no worker is on it. */
  ghost predicate OneAtATime(workers: nat, steps: seq<Step>, i: nat) {
    forall n :: 0 <= n < |steps| && steps[n].Deliver? && steps[n].i == i ==>
      NobodyOn(Run(workers, steps[..n]), i)
  }

  predicate NobodyOn(s: Option<State>, i: nat) {
    s.Some? && forall w :: 0 <= w < |s.value.workers| ==> !s.value.workers[w].On(i)
  }

  /** One worker at most is on message `i`, and none after its acknowledgement. */
  ghost predicate AckedOnce(s: State, i: nat)
    requires i < |s.track|
  {
    && (forall v, w ::
          0 <= v < |s.workers| && 0 <= w < |s.workers| && s.workers[v].On(i) && s.workers[w].On(i) ==> v == w)
    && s.track[i].acks <= 1
    && (s.track[i].acks == 1 ==> NobodyOn(Some(s), i))
  }

  lemma AckedOnceStep(s: State, step: Step, i: nat)
    requires |s.track| == |s.stream| && Enabled(s, step) && i < |s.stream| && AckedOnce(s, i)
    requires s.track[i].acked <==> s.track[i].acks > 0
    requires step.Deliver? && step.i == i ==> NobodyOn(Some(s), i)
    ensures AckedOnce(Apply(s, step), i)
  {
  }

  lemma {:induction false} AckedOnceInRun(workers: nat, steps: seq<Step>, i: nat)
    requires Run(workers, steps).Some? && i < |Run(workers, steps).value.stream| && OneAtATime(workers, steps, i)
    ensures AckedOnce(Run(workers, steps).value, i)
  {
    if steps != [] {
      var n := |steps| - 1;
      var init := steps[..n];
      EveryRun(workers, init);
      var before := Run(workers, init).value;
      if i < |before.stream| {
        assert forall k :: 0 <= k < n ==> init[k] == steps[k] && init[..k] == steps[..k];
        assert OneAtATime(workers, init, i);
        AckedOnceInRun(workers, init, i);
        assert Balanced(before, i);
        AckedOnceStep(before, steps[n], i);
      }
    }
  }

  /** If a message is never delivered while a worker is still on it, then once it is
      acknowledged it has one row more than it lost acknowledgements: exactly one
      row if none was lost and none was deleted. */
  lemma OneRowIfOneAtATime(workers: nat, steps: seq<Step>, i: nat)
    requires Run(workers, steps).Some? && i < |Run(workers, steps).value.stream| && OneAtATime(workers, steps, i)
    requires var s := Run(workers, steps).value; s.track[i].acked && s.stream[i].Decodable()
    ensures var s := Run(workers, steps).value;
            MainRows(s.tables, i) + s.track[i].deleted == 1 + s.track[i].losses
  {
    EveryRun(workers, steps);
    AckedOnceInRun(workers, steps, i);
    var s := Run(workers, steps).value;
    assert Balanced(s, i);
    NoHolders(s.workers, i);
  }

  /** Without that condition it is false: two workers that have the same metric at
      the same time both store it, and no acknowledgement is lost. */
  lemma TwoRowsWithoutLoss(metric: MetricMsg) returns (steps: seq<Step>)
    requires metric.traceId == ""
    ensures Run(2, steps).Some?
    ensures var s := Run(2, steps).value;
            && s.stream == [MetricMessage(Some(metric))] && s.track[0].acked
            && s.track[0].losses == s.track[0].deleted == 0 && NobodyOn(Some(s), 0)
            && MainRows(s.tables, 0) == 2
  {
    steps := TwoStored(metric);
    steps := RunSnoc(2, steps, Reply(0, false));
    assert Run(2, steps).value.workers == [Ready, Replying(0, true)];
    steps := RunSnoc(2, steps, Reply(1, false));
    assert Run(2, steps).value.workers == [Ready, Ready];
    TwoMains(Row(0, MetricRecord(metric.point)), 0);
  }

  lemma TwoMains(row: Row, i: nat)
    requires IsMain(row, i)
    ensures Mains([row, row], i) == 2
  {
    CountSnoc([], row, i);
    CountSnoc([row], row, i);
    assert [] + [row] == [row] && [row] + [row] == [row, row];
  }

  lemma SameState(s: State, t: State)
    requires s.stream == t.stream && s.track == t.track && s.workers == t.workers
    requires s.tables.metrics == t.tables.metrics && s.tables.logs == t.tables.logs && s.tables.spans == t.tables.spans
    ensures s == t
  {
  }

  /** Both workers have the message. */
  lemma TwoHandling(m: Message) returns (steps: seq<Step>)
    ensures Run(2, steps) ==
            Some(State([m], [Track(false, false, 0, 0, 0, 0, 0)], [Handling(0), Handling(0)], Tables([], [], [])))
  {
    assert Run(2, []) == Some(Init(2));
    steps := RunSnoc(2, [], Publish(m));
    steps := RunSnoc(2, steps, Deliver(0, 0));
    steps := RunSnoc(2, steps, Deliver(1, 0));
    SameState(Run(2, steps).value,
              State([m], [Track(false, false, 0, 0, 0, 0, 0)], [Handling(0), Handling(0)], Tables([], [], [])));
  }

  /** Both workers have stored it. */
  lemma TwoStored(metric: MetricMsg) returns (steps: seq<Step>)
    requires metric.traceId == ""
    ensures var row := Row(0, MetricRecord(metric.point));
            Run(2, steps) ==
            Some(State([MetricMessage(Some(metric))], [Track(false, false, 2, 0, 0, 0, 0)],
                       [Replying(0, true), Replying(0, true)], Tables([row, row], [], [])))
  {
    var m, row := MetricMessage(Some(metric)), Row(0, MetricRecord(metric.point));
    var s1 := State([m], [Track(false, false, 1, 0, 0, 0, 0)], [Replying(0, true), Handling(0)], Tables([row], [], []));
    steps := TwoHandling(m);
    steps := RunSnoc(2, steps, DoInsert(0, Confirmed));
    SameState(Run(2, steps).value, s1);
    steps := RunSnoc(2, steps, DoInsert(1, Confirmed));
    SecondStored(metric, s1);
  }

  lemma SecondStored(metric: MetricMsg, s: State)
    requires metric.traceId == ""
    requires var m, row := MetricMessage(Some(metric)), Row(0, MetricRecord(metric.point));
             s == State([m], [Track(false, false, 1, 0, 0, 0, 0)],
                        [Replying(0, true), Handling(0)], Tables([row], [], []))
    ensures var row := Row(0, MetricRecord(metric.point));
            Apply(s, DoInsert(1, Confirmed)) ==
            State([MetricMessage(Some(metric))], [Track(false, false, 2, 0, 0, 0, 0)],
                  [Replying(0, true), Replying(0, true)], Tables([row, row], [], []))
  {
    var row := Row(0, MetricRecord(metric.point));
    assert [row] + [row] == [row, row];
    SameState(Apply(s, DoInsert(1, Confirmed)),
              State([MetricMessage(Some(metric))], [Track(false, false, 2, 0, 0, 0, 0)],
                    [Replying(0, true), Replying(0, true)], Tables([row, row], [], [])));
  }

  lemma {:induction false} UndecodableNeverStored(workers: nat, steps: seq<Step>, i: nat)
    requires Run(workers, steps).Some? && i < |Run(workers, steps).value.stream|
    requires !Run(workers, steps).value.stream[i].Decodable()
    ensures Run(workers, steps).value.track[i].commits == 0
  {
    if steps != [] {
      var before := Run(workers, steps[..|steps| - 1]).value;
      if i < |before.stream| {
        UndecodableNeverStored(workers, steps[..|steps| - 1], i);
      }
    }
  }

  /** Every row goes back to a published message and holds what the message says. */
  lemma EveryRowTraces(workers: nat, steps: seq<Step>, row: Row)
    requires Run(workers, steps).Some?
    requires var t := Run(workers, steps).value.tables; row in t.metrics + t.logs + t.spans
    ensures Traces(Run(workers, steps).value.stream, row)
  {
    EveryRun(workers, steps);
  }

  /** What rows hold, in every run, field by field: a metric, log or span row is the
      content of its message; an aggregator span belongs to the trace of its metric
      message and hangs below the span that the message names. */
  lemma RowContents(workers: nat, steps: seq<Step>, row: Row)
    requires Run(workers, steps).Some?
    requires var t := Run(workers, steps).value.tables; row in t.metrics + t.logs + t.spans
    ensures var stream := Run(workers, steps).value.stream;
            && row.origin < |stream|
            && var m := stream[row.origin];
            match row.record
            case MetricRecord(p) => m.MetricMessage? && m.metric.Some? && m.metric.value.point == p
            case LogRecord(l) => m == LogMessage(Some(l))
            case SpanRecord(sp) => m == SpanMessage(Some(sp))
            case AggregatorRecord(sp) =>
              && m.MetricMessage? && m.metric.Some? && m.metric.value.traceId != ""
              && sp.traceId == m.metric.value.traceId && sp.parentSpanId == m.metric.value.collectorSpanId
              && sp.service == "aggregator" && sp.operation == "aggregator.insert_metric" && sp.status == "ok"
  {
    EveryRowTraces(workers, steps, row);
  }

  /** Aggregator spans never outnumber the metric rows stored for their message,
      and only traced messages have any. */
  lemma ExtrasBounded(workers: nat, steps: seq<Step>, i: nat)
    requires Run(workers, steps).Some? && i < |Run(workers, steps).value.stream|
    ensures var s := Run(workers, steps).value;
            && Extras(s.tables.spans, i) <= s.track[i].commits
            && (Extras(s.tables.spans, i) > 0 ==> s.stream[i].Traced())
  {
    EveryRun(workers, steps);
    var s := Run(workers, steps).value;
    assert Balanced(s, i);
    if Extras(s.tables.spans, i) > 0 {
      var row := SomeExtra(s.tables.spans, i);
      assert Traces(s.stream, row);
    }
  }

  lemma {:induction false} SomeExtra(rows: seq<Row>, i: nat) returns (row: Row)
    requires Extras(rows, i) > 0
    ensures row in rows && IsExtra(row, i)
  {
    var last := rows[|rows| - 1];
    if IsExtra(last, i) {
      row := last;
    } else {
      row := SomeExtra(rows[..|rows| - 1], i);
    }
  }

  // --------------------------------------------------------- span messages

  /** No run ever stores two rows with one span ID, and at most one row is there
      for a span message. */
  lemma SpanStoredOnce(workers: nat, steps: seq<Step>, i: nat)
    requires Run(workers, steps).Some? && i < |Run(workers, steps).value.stream|
    ensures var s := Run(workers, steps).value;
            && UniqueIds(s.tables.spans)
            && (s.stream[i].SpanMessage? ==> MainRows(s.tables, i) <= 1)
  {
    EveryRun(workers, steps);
    var s := Run(workers, steps).value;
    if s.stream[i].SpanMessage? {
      forall r | r in s.tables.metrics + s.tables.logs ensures !IsMain(r, i) {
        assert Traces(s.stream, r);
      }
      NoMains(s.tables.metrics, i);
      NoMains(s.tables.logs, i);
      if s.stream[i].span.Some? {
        forall r | r in s.tables.spans && IsMain(r, i)
          ensures r.record == s.stream[i].Main()
        {
          assert Traces(s.stream, r);
        }
        OneMain(s.tables.spans, i, s.stream[i].span.value.spanId);
      } else {
        forall r | r in s.tables.spans ensures !IsMain(r, i) {
          assert Traces(s.stream, r);
        }
        NoMains(s.tables.spans, i);
      }
    }
  }

  lemma {:induction false} NoMains(rows: seq<Row>, i: nat)
    requires forall r :: r in rows ==> !IsMain(r, i)
    ensures Mains(rows, i) == 0
  {
    if rows != [] {
      NoMains(rows[..|rows| - 1], i);
    }
  }

  lemma {:induction false} OneMain(rows: seq<Row>, i: nat, id: string)
    requires UniqueIds(rows)
    requires forall r :: r in rows && IsMain(r, i) ==> r.record.SpanRecord? && r.record.span.spanId == id
    ensures Mains(rows, i) <= 1
  {
    if rows != [] {
      var n := |rows| - 1;
      if IsMain(rows[n], i) {
        forall r | r in rows[..n] ensures !IsMain(r, i) {
          var k :| 0 <= k < n && rows[k] == r;
        }
        NoMains(rows[..n], i);
      } else {
        OneMain(rows[..n], i, id);
      }
    }
  }

  /** The span of message `i` is stored, nobody is about to acknowledge it, and
      the server has no acknowledgement: the last one was lost. */
  ghost predicate Stuck(s: State, i: nat)
    requires |s.track| == |s.stream|
  {
    && i < |s.stream| && s.stream[i].SpanMessage? && s.stream[i].span.Some?
    && HasSpanId(s.tables.spans, s.stream[i].span.value.spanId)
    && !s.track[i].acked
    && forall w :: 0 <= w < |s.workers| ==> !s.workers[w].Holds(i)
  }

  /** A span message gets there when the only worker that has stored it loses its
      acknowledgement, or crashes first. */
  lemma LostReplySticks(s: State, w: nat, i: nat, step: Step)
    requires |s.track| == |s.stream| && i < |s.stream| && s.stream[i].SpanMessage? && s.stream[i].span.Some?
    requires HasSpanId(s.tables.spans, s.stream[i].span.value.spanId) && !s.track[i].acked
    requires w < |s.workers| && s.workers[w] == Replying(i, true)
    requires forall v :: 0 <= v < |s.workers| && v != w ==> !s.workers[v].Holds(i)
    requires step == Reply(w, true) || step == Crash(w)
    ensures Enabled(s, step) && Stuck(Apply(s, step), i)
  {
  }

  /** A span message that stays behind has been stored and lost its acknowledgement,
      unless its row is another message's. */
  lemma StuckHasLoss(workers: nat, steps: seq<Step>, i: nat)
    requires Run(workers, steps).Some? && Stuck(Run(workers, steps).value, i)
    ensures var s := Run(workers, steps).value;
            MainRows(s.tables, i) + s.track[i].deleted > 0 <==> s.track[i].losses > 0
  {
    EveryRun(workers, steps);
    var s := Run(workers, steps).value;
    assert Balanced(s, i);
    NoHolders(s.workers, i);
  }

  lemma {:induction false} MainRowThere(rows: seq<Row>, i: nat) returns (k: nat)
    requires Mains(rows, i) > 0
    ensures k < |rows| && IsMain(rows[k], i)
  {
    var last := |rows| - 1;
    if IsMain(rows[last], i) {
      k := last;
    } else {
      k := MainRowThere(rows[..last], i);
    }
  }

  lemma {:induction false} HolderCounts(workers: seq<Pc>, w: nat, i: nat)
    requires w < |workers| && workers[w].Holds(i)
    ensures Holders(workers, i) >= 1
  {
    if w < |workers| - 1 {
      HolderCounts(workers[..|workers| - 1], w, i);
    }
  }

  /** In every run: a span message whose row was not deleted has lost an
      acknowledgement exactly if its row is there and the message is stuck. */
  lemma LossIffStuck(workers: nat, steps: seq<Step>, i: nat)
    requires Run(workers, steps).Some? && i < |Run(workers, steps).value.stream|
    requires var s := Run(workers, steps).value;
             s.stream[i].SpanMessage? && s.stream[i].span.Some? && s.track[i].deleted == 0
    ensures var s := Run(workers, steps).value;
            s.track[i].losses > 0 <==> Stuck(s, i) && MainRows(s.tables, i) > 0
  {
    EveryRun(workers, steps);
    var s := Run(workers, steps).value;
    assert Balanced(s, i);
    SpanStoredOnce(workers, steps, i);
    if s.track[i].losses > 0 {
      forall w | 0 <= w < |s.workers| ensures !s.workers[w].Holds(i) {
        if s.workers[w].Holds(i) {
          HolderCounts(s.workers, w, i);
        }
      }
      OwnRowHasId(s, i);
    }
    if Stuck(s, i) {
      NoHolders(s.workers, i);
    }
  }

  /** The row of a span message carries its span ID. */
  lemma OwnRowHasId(s: State, i: nat)
    requires RowsOk(s) && i < |s.stream| && s.stream[i].SpanMessage? && s.stream[i].span.Some?
    requires MainRows(s.tables, i) > 0
    ensures HasSpanId(s.tables.spans, s.stream[i].span.value.spanId)
  {
    forall r | r in s.tables.metrics + s.tables.logs ensures !IsMain(r, i) {
      assert Traces(s.stream, r);
    }
    NoMains(s.tables.metrics, i);
    NoMains(s.tables.logs, i);
    var k := MainRowThere(s.tables.spans, i);
    assert Traces(s.stream, s.tables.spans[k]);
  }

  lemma StuckStep(s: State, step: Step, i: nat)
    requires |s.track| == |s.stream| && Stuck(s, i) && Enabled(s, step)
    requires HasSpanId(Apply(s, step).tables.spans, s.stream[i].span.value.spanId)
    ensures Stuck(Apply(s, step), i)
    ensures step.DoInsert? && s.workers[step.w].i == i ==>
              Apply(s, step).workers[step.w] == Replying(i, false) && Apply(s, step).tables == s.tables
  {
    var s' := Apply(s, step);
    if step.DoInsert? && s.workers[step.w].i == i {
      assert s'.workers[step.w] == Replying(i, false);
    }
  }

  /** The states that a run goes through from `s`. */
  ghost predicate Continues(s: State, steps: seq<Step>, states: seq<State>) {
    && |states| == |steps| + 1 && states[0] == s
    && forall k :: 0 <= k < |steps| ==> Follows(states[k], steps[k], states[k + 1])
  }

  predicate Follows(s: State, step: Step, s': State) {
    |s.track| == |s.stream| && Enabled(s, step) && s' == Apply(s, step)
  }

  /** In each of the states the span table holds the ID. */
  ghost predicate RowStays(states: seq<State>, id: string) {
    forall j :: 0 <= j < |states| ==> HasSpanId(states[j].tables.spans, id)
  }

  /** Once a span is stored but its acknowledgement was lost, each redelivery
      hits the unique index: as long as the row remains, the message is never
      acknowledged, whatever happens. */
  lemma {:induction false} StuckForever(s: State, steps: seq<Step>, states: seq<State>, i: nat, k: nat)
    requires |s.track| == |s.stream| && Stuck(s, i)
    requires Continues(s, steps, states) && k < |states|
    requires RowStays(states, s.stream[i].span.value.spanId)
    ensures |states[k].track| == |states[k].stream| && Stuck(states[k], i)
    ensures states[k].stream[i] == s.stream[i]
  {
    if k > 0 {
      StuckForever(s, steps, states, i, k - 1);
      assert Follows(states[k - 1], steps[k - 1], states[k]);
      StuckStep(states[k - 1], steps[k - 1], i);
    }
  }

  /** So, in every run: after a span lost its acknowledgement, no continuation in
      which the row stays ever acknowledges it. */
  lemma {:induction false} LostAckNeverHeals(workers: nat, steps: seq<Step>, more: seq<Step>, i: nat)
    requires Run(workers, steps).Some? && i < |Run(workers, steps).value.stream|
    requires var s := Run(workers, steps).value;
             && s.stream[i].SpanMessage? && s.stream[i].span.Some?
             && s.track[i].losses > 0 && s.track[i].deleted == 0
    requires Run(workers, steps + more).Some?
    requires StaysStored(workers, steps, more, Run(workers, steps).value.stream[i].span.value.spanId)
    ensures var s' := Run(workers, steps + more).value;
            && Stuck(s', i) && s'.stream[i] == Run(workers, steps).value.stream[i]
  {
    if more == [] {
      assert steps + more == steps;
      LossIffStuck(workers, steps, i);
    } else {
      var n := |more| - 1;
      assert (steps + more)[..|steps + more| - 1] == steps + more[..n];
      PrefixStaysStored(workers, steps, more, Run(workers, steps).value.stream[i].span.value.spanId);
      LostAckNeverHeals(workers, steps, more[..n], i);
      StuckStep(Run(workers, steps + more[..n]).value, more[n], i);
    }
  }

  /** The span ID is in the table after the first `k` of the further steps. */
  predicate StoredAfter(workers: nat, steps: seq<Step>, more: seq<Step>, k: nat, id: string)
    requires k <= |more|
  {
    var s := Run(workers, steps + more[..k]);
    s.Some? && HasSpanId(s.value.tables.spans, id)
  }

  ghost predicate StaysStored(workers: nat, steps: seq<Step>, more: seq<Step>, id: string) {
    forall k {:trigger StoredAfter(workers, steps, more, k, id)} :: 0 <= k <= |more| ==>
      StoredAfter(workers, steps, more, k, id)
  }

  lemma PrefixStaysStored(workers: nat, steps: seq<Step>, more: seq<Step>, id: string)
    requires more != [] && StaysStored(workers, steps, more, id)
    ensures StaysStored(workers, steps, more[..|more| - 1], id)
    ensures Run(workers, steps + more).Some? && HasSpanId(Run(workers, steps + more).value.tables.spans, id)
    ensures Run(workers, steps + more[..|more| - 1]).Some?
  {
    var n := |more| - 1;
    assert more[..|more|] == more;
    assert StoredAfter(workers, steps, more, |more|, id) && StoredAfter(workers, steps, more, n, id);
    forall k: nat | k <= n ensures StoredAfter(workers, steps, more[..n], k, id) {
      assert StoredAfter(workers, steps, more, k, id);
      assert more[..n][..k] == more[..k];
    }
  }

  lemma RunSnoc(workers: nat, steps: seq<Step>, step: Step) returns (more: seq<Step>)
    requires Run(workers, steps).Some? && Enabled(Run(workers, steps).value, step)
    ensures more == steps + [step]
    ensures Run(workers, more) == Some(Apply(Run(workers, steps).value, step))
  {
    more := steps + [step];
    assert more[..|more| - 1] == steps;
  }

  /** It happens: one worker stores a span and its acknowledgement is lost. */
  lemma StuckIsReachable(span: TraceSpan) returns (steps: seq<Step>)
    ensures Run(1, steps).Some?
    ensures var s := Run(1, steps).value;
            |s.stream| == 1 && s.stream[0] == SpanMessage(Some(span)) && s.track[0].losses == 1 && Stuck(s, 0)
  {
    assert Run(1, []) == Some(Init(1));
    steps := RunSnoc(1, [], Publish(SpanMessage(Some(span))));
    steps := RunSnoc(1, steps, Deliver(0, 0));
    steps := RunSnoc(1, steps, DoInsert(0, Confirmed));
    var s := Run(1, steps).value;
    assert s.tables.spans == [Row(0, SpanRecord(span))] && s.workers == [Replying(0, true)];
    var rows := s.tables.spans;
    assert rows[0].record.IsSpan() && rows[0].record.span == span;
    assert s.stream[0] == SpanMessage(Some(span)) && HasSpanId(rows, span.spanId);
    assert s.track == [Track(false, false, 1, 0, 0, 0, 0)];
    steps := RunSnoc(1, steps, Reply(0, true));
    LostReplySticks(s, 0, 0, Reply(0, true));
  }

  // ------------------------------------- when a stored span can be acknowledged

  /** Message `i` decodes as a span and has no acknowledgement. */
  predicate OpenSpan(s: State, i: nat)
    requires |s.track| == |s.stream|
  {
    i < |s.stream| && s.stream[i].SpanMessage? && s.stream[i].span.Some? && !s.track[i].acked
  }

  /** The span ID of message `i` is in the table. */
  predicate RowThere(s: State, i: nat)
    requires i < |s.stream| && s.stream[i].SpanMessage? && s.stream[i].span.Some?
  {
    HasSpanId(s.tables.spans, s.stream[i].span.value.spanId)
  }

  ghost predicate AckedAtEnd(states: seq<State>, i: nat) {
    && states != []
    && var last := states[|states| - 1];
    i < |last.track| && last.track[i].acked
  }

  /** Some continuation in which the row stays ends with an acknowledgement. */
  ghost predicate CanBeAckedWithRow(s: State, i: nat)
    requires |s.track| == |s.stream| && OpenSpan(s, i)
  {
    exists steps, states ::
      Continues(s, steps, states) && AckedAtEnd(states, i) && RowStays(states, s.stream[i].span.value.spanId)
  }

  /** Some continuation ends with an acknowledgement. */
  ghost predicate CanBeAcked(s: State, i: nat) {
    exists steps, states :: Continues(s, steps, states) && AckedAtEnd(states, i)
  }

  /** While its row stays, a span message can still be acknowledged exactly if a
      worker that has stored it is about to. */
  lemma AckableIffHeld(s: State, i: nat)
    requires Inv(s) && OpenSpan(s, i) && RowThere(s, i)
    ensures CanBeAckedWithRow(s, i) <==> exists w :: 0 <= w < |s.workers| && s.workers[w].Holds(i)
  {
    if w :| 0 <= w < |s.workers| && s.workers[w].Holds(i) {
      var step := Reply(w, false);
      var steps, states := [step], [s, Apply(s, step)];
      assert Follows(states[0], steps[0], states[1]);
      assert Continues(s, steps, states) && AckedAtEnd(states, i);
    } else {
      assert Stuck(s, i);
      if steps, states :|
        Continues(s, steps, states) && AckedAtEnd(states, i) && RowStays(states, s.stream[i].span.value.spanId)
      {
        StuckForever(s, steps, states, i, |steps|);
        assert false;
      }
    }
  }

  /** No worker will acknowledge message `i` any more, and none can get it. */
  ghost predicate Abandoned(s: State, i: nat)
    requires |s.track| == |s.stream|
  {
    && i < |s.stream| && !s.track[i].acked
    && (s.track[i].expired || s.workers == [])
    && forall w :: 0 <= w < |s.workers| ==> s.workers[w] != Handling(i) && !s.workers[w].Holds(i)
  }

  lemma AbandonedStep(s: State, step: Step, i: nat)
    requires |s.track| == |s.stream| && Abandoned(s, i) && Enabled(s, step)
    ensures Abandoned(Apply(s, step), i)
  {
  }

  lemma {:induction false} AbandonedForever(s: State, steps: seq<Step>, states: seq<State>, i: nat, k: nat)
    requires |s.track| == |s.stream| && Abandoned(s, i)
    requires Continues(s, steps, states) && k < |states|
    ensures |states[k].track| == |states[k].stream| && Abandoned(states[k], i)
  {
    if k > 0 {
      AbandonedForever(s, steps, states, i, k - 1);
      assert Follows(states[k - 1], steps[k - 1], states[k]);
      AbandonedStep(states[k - 1], steps[k - 1], i);
    }
  }

  /** One step before a continuation makes a longer one. */
  lemma StepFirst(s: State, step: Step, i: nat)
    requires |s.track| == |s.stream| && Enabled(s, step) && CanBeAcked(Apply(s, step), i)
    ensures CanBeAcked(s, i)
  {
    var s' := Apply(s, step);
    var steps, states :| Continues(s', steps, states) && AckedAtEnd(states, i);
    var steps', states' := [step] + steps, [s] + states;
    forall k | 0 <= k < |steps'| ensures Follows(states'[k], steps'[k], states'[k + 1]) {
      if k > 0 {
        assert Follows(states[k - 1], steps[k - 1], states[k]);
      }
    }
    assert Continues(s, steps', states') && AckedAtEnd(states', i);
  }

  /** A worker that has the message can store it again after a cleanup. */
  lemma HandlingCanAck(s: State, w: nat, i: nat)
    requires |s.track| == |s.stream| && OpenSpan(s, i) && w < |s.workers| && s.workers[w] == Handling(i)
    ensures CanBeAcked(s, i)
  {
    var cutoff := NoneLeft(s.tables.spans);
    var s1 := Apply(s, Retain(cutoff));
    assert !RowThere(s1, i);
    var s2 := Apply(s1, DoInsert(w, Confirmed));
    var s3 := Apply(s2, Reply(w, false));
    assert Continues(s3, [], [s3]) && AckedAtEnd([s3], i);
    StepFirst(s2, Reply(w, false), i);
    StepFirst(s1, DoInsert(w, Confirmed), i);
    StepFirst(s, Retain(cutoff), i);
  }

  /** A late enough cutoff empties a table. */
  lemma {:induction false} NoneLeft(rows: seq<Row>) returns (cutoff: Time)
    ensures forall c :: c >= cutoff ==> Keep(rows, c) == []
  {
    if rows == [] {
      cutoff := 0;
    } else {
      var last := rows[|rows| - 1].record.Stamp();
      cutoff := NoneLeft(rows[..|rows| - 1]);
      cutoff := if cutoff > last then cutoff else last + 1;
    }
  }

  /** A span that stays behind can be acknowledged again exactly if a worker has the
      message or can still get it: a cleanup may then delete the row, and the next
      insert is accepted. */
  lemma StuckUntilCleanup(s: State, i: nat)
    requires |s.track| == |s.stream| && WorkersOk(s) && Stuck(s, i)
    ensures CanBeAcked(s, i) <==>
            || (exists w :: 0 <= w < |s.workers| && s.workers[w] == Handling(i))
            || (!s.track[i].expired && s.workers != [])
  {
    if w :| 0 <= w < |s.workers| && s.workers[w] == Handling(i) {
      HandlingCanAck(s, w, i);
    } else if !s.track[i].expired && s.workers != [] {
      var s1 := Apply(s, Crash(0));
      var s2 := Apply(s1, Deliver(0, i));
      HandlingCanAck(s2, 0, i);
      StepFirst(s1, Deliver(0, i), i);
      StepFirst(s, Crash(0), i);
    } else if steps, states :| Continues(s, steps, states) && AckedAtEnd(states, i) {
      AbandonedForever(s, steps, states, i, |steps|);
      assert false;
    }
  }

  /** With a database that accepts what the indexes allow, a handler acknowledges
      every message except exactly a span whose ID is already in the table. */
  lemma HealthyHandlerAcks(t: Tables, i: nat, m: Message, id: string, start: Time, end: Time, extra: Outcome)
    ensures Handle(t, i, m, Confirmed, id, start, end, extra).1 <==>
            !(m.SpanMessage? && m.span.Some? && HasSpanId(t.spans, m.span.value.spanId))
  {
  }

  /** Uninterrupted, the steps of a worker amount to one handler call. */
  lemma HandlerIsSteps(s: State, w: nat, i: nat, outcome: Outcome, id: string, start: Time, end: Time, extra: Outcome)
    requires |s.track| == |s.stream| && Enabled(s, Deliver(w, i))
    ensures var s1 := Apply(s, Deliver(w, i));
            && Enabled(s1, DoInsert(w, outcome))
            && var s2 := Apply(s1, DoInsert(w, outcome));
            var trace := DoTrace(w, id, start, end, extra);
            var s3 := if s2.workers[w].Tracing? && Enabled(s2, trace) then Apply(s2, trace) else s2;
            && s3.workers[w].Replying?
            && (s3.tables, s3.workers[w].ack) == Handle(s.tables, i, s.stream[i], outcome, id, start, end, extra)
  {
  }
}
