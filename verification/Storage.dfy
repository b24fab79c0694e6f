/** The telemetry tables and the inserts and deletes that change them. */
module Storage {
  import opened Telemetry

  /** What a row holds.  An aggregator span is one that the aggregator itself
      adds when it stores a traced metric. */
  datatype Record =
    | MetricRecord(point: MetricPoint)
    | LogRecord(entry: LogEntry)
    | SpanRecord(span: TraceSpan)
    | AggregatorRecord(span: TraceSpan)
  {
    /** The column that retention looks at. */
    function Stamp(): Time {
      match this
      case MetricRecord(p) => p.timestamp
      case LogRecord(l) => l.timestamp
      case SpanRecord(s) => s.startTime
      case AggregatorRecord(s) => s.startTime
    }

    predicate IsSpan() { SpanRecord? || AggregatorRecord? }
  }

  /** A row and the stream position of the message that led to it. */
  datatype Row = Row(origin: nat, record: Record)

  datatype Tables = Tables(metrics: seq<Row>, logs: seq<Row>, spans: seq<Row>)

  predicate HasSpanId(rows: seq<Row>, id: string) {
    exists k :: 0 <= k < |rows| && rows[k].record.IsSpan() && rows[k].record.span.spanId == id
  }

  /** The insert of a record, given how the statement would end if no index
      objects.  The unique index on the span ID refuses a second row. */
  function Insert(t: Tables, row: Row, outcome: Outcome): (r: (Tables, Outcome)) {
    match row.record
    case MetricRecord(_) =>
      (if outcome.TookEffect() then t.(metrics := t.metrics + [row]) else t, outcome)
    case LogRecord(_) =>
      (if outcome.TookEffect() then t.(logs := t.logs + [row]) else t, outcome)
    case SpanRecord(s) => InsertSpanRow(t, row, s.spanId, outcome)
    case AggregatorRecord(s) => InsertSpanRow(t, row, s.spanId, outcome)
  }

  function InsertSpanRow(t: Tables, row: Row, id: string, outcome: Outcome): (Tables, Outcome) {
    if HasSpanId(t.spans, id) then (t, Refused)
    else (if outcome.TookEffect() then t.(spans := t.spans + [row]) else t, outcome)
  }

  /** The rows that are not older than `cutoff`. */
  function Keep(rows: seq<Row>, cutoff: Time): seq<Row> {
    if rows == [] then []
    else
      var init, last := rows[..|rows| - 1], rows[|rows| - 1];
      if last.record.Stamp() < cutoff then Keep(init, cutoff) else Keep(init, cutoff) + [last]
  }

  function KeepAll(t: Tables, cutoff: Time): Tables {
    Tables(Keep(t.metrics, cutoff), Keep(t.logs, cutoff), Keep(t.spans, cutoff))
  }

  // ----------------------------------------------------------- counting rows

  /** The row was stored for message `i` itself, not as an extra aggregator span. */
  predicate IsMain(row: Row, i: nat) {
    row.origin == i && !row.record.AggregatorRecord?
  }

  predicate IsExtra(row: Row, i: nat) {
    row.origin == i && row.record.AggregatorRecord?
  }

  function Mains(rows: seq<Row>, i: nat): nat {
    if rows == [] then 0
    else Mains(rows[..|rows| - 1], i) + if IsMain(rows[|rows| - 1], i) then 1 else 0
  }

  function Extras(rows: seq<Row>, i: nat): nat {
    if rows == [] then 0
    else Extras(rows[..|rows| - 1], i) + if IsExtra(rows[|rows| - 1], i) then 1 else 0
  }

  /** Rows stored for message `i`, over all tables. */
  function MainRows(t: Tables, i: nat): nat {
    Mains(t.metrics, i) + Mains(t.logs, i) + Mains(t.spans, i)
  }

  lemma CountSnoc(rows: seq<Row>, row: Row, i: nat)
    ensures Mains(rows + [row], i) == Mains(rows, i) + if IsMain(row, i) then 1 else 0
    ensures Extras(rows + [row], i) == Extras(rows, i) + if IsExtra(row, i) then 1 else 0
  {
    assert (rows + [row])[..|rows|] == rows;
  }

  lemma {:induction false} KeepMeaning(rows: seq<Row>, cutoff: Time, i: nat)
    ensures |Keep(rows, cutoff)| <= |rows|
    ensures forall r :: r in Keep(rows, cutoff) ==> r in rows && r.record.Stamp() >= cutoff
    ensures forall r :: r in rows && r.record.Stamp() >= cutoff ==> r in Keep(rows, cutoff)
    ensures Mains(Keep(rows, cutoff), i) <= Mains(rows, i)
    ensures Extras(Keep(rows, cutoff), i) <= Extras(rows, i)
  {
    if rows != [] {
      var init, last := rows[..|rows| - 1], rows[|rows| - 1];
      assert rows == init + [last];
      KeepMeaning(init, cutoff, i);
      CountSnoc(Keep(init, cutoff), last, i);
    }
  }

  lemma InsertCounts(t: Tables, row: Row, outcome: Outcome, i: nat)
    ensures var (t', o) := Insert(t, row, outcome);
            && MainRows(t', i) == MainRows(t, i) + (if o.TookEffect() && IsMain(row, i) then 1 else 0)
            && Extras(t'.spans, i) == Extras(t.spans, i)
                 + (if o.TookEffect() && row.record.IsSpan() && IsExtra(row, i) then 1 else 0)
  {
    match row.record {
      case MetricRecord(_) => CountSnoc(t.metrics, row, i);
      case LogRecord(_) => CountSnoc(t.logs, row, i);
      case SpanRecord(s) => SpanInsertCounts(t, row, s.spanId, outcome, i);
      case AggregatorRecord(s) => SpanInsertCounts(t, row, s.spanId, outcome, i);
    }
  }

  lemma SpanInsertCounts(t: Tables, row: Row, id: string, outcome: Outcome, i: nat)
    ensures var (t', o) := InsertSpanRow(t, row, id, outcome);
            && t'.metrics == t.metrics && t'.logs == t.logs
            && Mains(t'.spans, i) == Mains(t.spans, i) + (if o.TookEffect() && IsMain(row, i) then 1 else 0)
            && Extras(t'.spans, i) == Extras(t.spans, i) + (if o.TookEffect() && IsExtra(row, i) then 1 else 0)
  {
    CountSnoc(t.spans, row, i);
  }

  // ---------------------------------------------------- what the tables keep

  /** Each table holds its own kind of rows, and span IDs are unique. */
  ghost predicate WellFormed(t: Tables) {
    && (forall k :: 0 <= k < |t.metrics| ==> t.metrics[k].record.MetricRecord?)
    && (forall k :: 0 <= k < |t.logs| ==> t.logs[k].record.LogRecord?)
    && (forall k :: 0 <= k < |t.spans| ==> t.spans[k].record.IsSpan())
    && UniqueIds(t.spans)
  }

  /** No two rows hold the same span ID. */
  ghost predicate UniqueIds(rows: seq<Row>) {
    forall k, l :: 0 <= k < l < |rows| && rows[k].record.IsSpan() && rows[l].record.IsSpan() ==>
      rows[k].record.span.spanId != rows[l].record.span.spanId
  }

  lemma InsertKeepsWellFormed(t: Tables, row: Row, outcome: Outcome)
    requires WellFormed(t)
    ensures WellFormed(Insert(t, row, outcome).0)
  {
  }

  lemma {:induction false} KeepUnique(rows: seq<Row>, cutoff: Time)
    requires (forall k :: 0 <= k < |rows| ==> rows[k].record.IsSpan()) && UniqueIds(rows)
    ensures forall r :: r in Keep(rows, cutoff) ==> r in rows
    ensures (forall k :: 0 <= k < |Keep(rows, cutoff)| ==> Keep(rows, cutoff)[k].record.IsSpan())
    ensures UniqueIds(Keep(rows, cutoff))
  {
    if rows != [] {
      var init, last := rows[..|rows| - 1], rows[|rows| - 1];
      KeepUnique(init, cutoff);
      var kept := Keep(init, cutoff);
      forall k | 0 <= k < |kept| ensures kept[k].record.span.spanId != last.record.span.spanId {
        assert kept[k] in init;
      }
    }
  }

  lemma KeepKeepsWellFormed(t: Tables, cutoff: Time)
    requires WellFormed(t)
    ensures WellFormed(KeepAll(t, cutoff))
  {
    KeepMeaning(t.metrics, cutoff, 0);
    KeepMeaning(t.logs, cutoff, 0);
    KeepUnique(t.spans, cutoff);
    var t' := KeepAll(t, cutoff);
    forall k | 0 <= k < |t'.metrics| ensures t'.metrics[k].record.MetricRecord? {
      assert t'.metrics[k] in t.metrics;
    }
    forall k | 0 <= k < |t'.logs| ensures t'.logs[k].record.LogRecord? {
      assert t'.logs[k] in t.logs;
    }
  }
}
