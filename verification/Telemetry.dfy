/** Values shared by every stage of the telemetry pipeline. */
module Telemetry {

  datatype Option<+T> = None | Some(value: T)

  /** An instant or a duration, in nanoseconds. */
  type Time = int

  const CPU := "cpu_usage_percent"
  const MEM := "mem_usage_percent"
  const DISK := "disk_usage_percent"

  /** A metric point as the agent measures it and the metrics table stores it. */
  datatype MetricPoint = MetricPoint(
    service: string,
    name: string,
    value: real,
    labels: map<string, string>,
    timestamp: Time)

  datatype LogEntry = LogEntry(
    service: string,
    level: string,
    message: string,
    traceId: string,
    fields: map<string, string>,
    timestamp: Time)

  datatype TraceSpan = TraceSpan(
    traceId: string,
    spanId: string,
    parentSpanId: string,
    service: string,
    operation: string,
    startTime: Time,
    endTime: Time,
    status: string)

  /** How a call to a remote party ended: the effect took place and was
      confirmed, nothing happened, or the effect took place but the caller
      saw an error. */
  datatype Outcome = Confirmed | Refused | Unconfirmed {
    predicate TookEffect() { !Refused? }
  }

  predicate NoDuplicates<T(==)>(s: seq<T>) {
    forall i, j :: 0 <= i < j < |s| ==> s[i] != s[j]
  }

  /** A sequence without duplicates is no longer than a set that holds all its elements. */
  lemma {:induction false} NoDuplicatesBound<T>(s: seq<T>, universe: set<T>)
    requires NoDuplicates(s)
    requires forall x :: x in s ==> x in universe
    ensures |s| <= |universe|
    ensures |s| == |universe| <==> universe == set x | x in s
  {
    if s != [] {
      var last := s[|s| - 1];
      var init := s[..|s| - 1];
      assert s == init + [last];
      NoDuplicatesBound(init, universe - {last});
      assert (set x | x in s) == (set x | x in init) + {last};
      assert last !in init;
    } else {
      assert (set x | x in s) == {};
    }
  }

  /** The values that are there, in order. */
  function Somes<T>(s: seq<Option<T>>): seq<T> {
    if s == [] then []
    else match s[|s| - 1]
      case None => Somes(s[..|s| - 1])
      case Some(x) => Somes(s[..|s| - 1]) + [x]
  }

  /** Element by element: each value is kept in its place, and nothing else is. */
  lemma {:induction false} SomesMeaning<T>(a: seq<Option<T>>, b: seq<Option<T>>, x: T)
    ensures Somes(a + b) == Somes(a) + Somes(b)
    ensures Somes<T>([None]) == [] && Somes<T>([]) == [] && Somes([Some(x)]) == [x]
  {
    var none: seq<Option<T>> := [None];
    assert none[..0] == [] && [Some(x)][..0] == [];
    if b == [] {
      assert a + b == a;
    } else {
      SomesMeaning(a, b[..|b| - 1], x);
      assert (a + b)[..|a + b| - 1] == a + b[..|b| - 1];
    }
  }
}
