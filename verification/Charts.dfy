/** The live charts of the dashboard: sliding windows of at most sixty points,
    fed from the batches of the metric stream. */
module Charts {
  import opened Telemetry

  const MAX_PTS: nat := 60

  /** A row of a batch.  Chart labels are formatted instants; here a label is the
      instant itself. */
  datatype Sample = Sample(name: string, timestamp: Time, value: real)

  datatype ChartData = ChartData(labels: seq<Time>, datasets: seq<seq<real>>)

  datatype Point = Point(at: Time, vals: seq<real>)

  /** The number of hundredths nearest to a value, halves away from zero. */
  function Hundredths(v: real): (n: int)
    ensures if v < 0.0 then -0.5 <= n as real - v * 100.0 < 0.5 else -0.5 < n as real - v * 100.0 <= 0.5
  {
    if v < 0.0 then -(-v * 100.0 + 0.5).Floor else (v * 100.0 + 0.5).Floor
  }

  /** A value rounded to two decimals. */
  function ToFixed2(v: real): (r: real)
    ensures if v < 0.0 then -0.005 <= r - v < 0.005 else -0.005 < r - v <= 0.005
  {
    Hundredths(v) as real / 100.0
  }

  // --------------------------------------------------------------- one chart

  function Blank(n: nat): ChartData {
    ChartData([], seq(n, _ => []))
  }

  /** The data without its oldest point if there are too many. */
  function Trim(c: ChartData): ChartData {
    if |c.labels| > MAX_PTS then
      ChartData(c.labels[1..], seq(|c.datasets|, i requires 0 <= i < |c.datasets| =>
        if c.datasets[i] == [] then [] else c.datasets[i][1..]))
    else c
  }

  function Append(c: ChartData, p: Point): ChartData
    requires |p.vals| == |c.datasets|
  {
    ChartData(c.labels + [p.at], seq(|c.datasets|, i requires 0 <= i < |c.datasets| =>
      c.datasets[i] + [ToFixed2(p.vals[i])]))
  }

  function Push(c: ChartData, p: Point): ChartData
    requires |p.vals| == |c.datasets|
  {
    Trim(Append(c, p))
  }

  class Chart {
    var labels: seq<Time>
    var datasets: seq<seq<real>>

    constructor (n: nat)
      ensures Contents() == Blank(n)
    {
      labels, datasets := [], seq(n, _ => []);
    }

    function Contents(): ChartData
      reads this
    {
      ChartData(labels, datasets)
    }

    /** `vals` holds one value per dataset. */
    method PushPt(at: Time, vals: seq<real>)
      requires |vals| == |datasets|
      modifies this
      ensures Contents() == Push(old(Contents()), Point(at, vals))
    {
      labels := labels + [at];
      for i := 0 to |vals|
        invariant |datasets| == |vals| && labels == old(labels) + [at]
        invariant forall k :: 0 <= k < i ==> datasets[k] == old(datasets)[k] + [ToFixed2(vals[k])]
        invariant forall k :: i <= k < |vals| ==> datasets[k] == old(datasets)[k]
      {
        datasets := datasets[i := datasets[i] + [ToFixed2(vals[i])]];
      }
      ghost var appended := Contents();
      assert appended == Append(old(Contents()), Point(at, vals));
      if |labels| > MAX_PTS {
        labels := labels[1..];
        ShiftAll();
      }
    }

    /** Drops the first value of every dataset. */
    method ShiftAll()
      modifies this`datasets
      ensures |datasets| == |old(datasets)|
      ensures forall k :: 0 <= k < |datasets| ==>
                datasets[k] == if old(datasets)[k] == [] then [] else old(datasets)[k][1..]
    {
      for i := 0 to |datasets|
        invariant |datasets| == |old(datasets)|
        invariant forall k :: 0 <= k < i ==>
                    datasets[k] == if old(datasets)[k] == [] then [] else old(datasets)[k][1..]
        invariant forall k :: i <= k < |datasets| ==> datasets[k] == old(datasets)[k]
      {
        datasets := datasets[i := if datasets[i] == [] then [] else datasets[i][1..]];
      }
    }

    method Clear()
      modifies this
      ensures Contents() == Blank(|old(datasets)|)
    {
      labels, datasets := [], seq(|datasets|, _ => []);
    }
  }

  /** The chart shows exactly these points. */
  ghost predicate Shows(c: ChartData, points: seq<Point>) {
    && |c.labels| == |points|
    && (forall k :: 0 <= k < |points| ==> c.labels[k] == points[k].at && |points[k].vals| == |c.datasets|)
    && forall i :: 0 <= i < |c.datasets| ==> ShowsSeries(c.datasets[i], points, i)
  }

  ghost predicate ShowsSeries(data: seq<real>, points: seq<Point>, i: nat) {
    && |data| == |points|
    && forall k :: 0 <= k < |points| ==> i < |points[k].vals| && data[k] == ToFixed2(points[k].vals[i])
  }

  /** The last points of a list, at most sixty. */
  function LastPoints(points: seq<Point>): seq<Point> {
    if |points| > MAX_PTS then points[|points| - MAX_PTS..] else points
  }

  lemma AppendShows(c: ChartData, points: seq<Point>, p: Point)
    requires Shows(c, points) && |p.vals| == |c.datasets|
    ensures Shows(Append(c, p), points + [p])
  {
    var c' := Append(c, p);
    forall i | 0 <= i < |c'.datasets| ensures ShowsSeries(c'.datasets[i], points + [p], i) {
      assert ShowsSeries(c.datasets[i], points, i);
    }
  }

  lemma TrimShows(c: ChartData, points: seq<Point>)
    requires Shows(c, points) && |points| <= MAX_PTS + 1
    ensures Shows(Trim(c), LastPoints(points))
  {
    if |points| > MAX_PTS {
      var c' := Trim(c);
      forall i | 0 <= i < |c'.datasets| ensures ShowsSeries(c'.datasets[i], points[1..], i) {
        assert ShowsSeries(c.datasets[i], points, i);
      }
    }
  }

  /** A push moves the window on by one point. */
  lemma PushShows(c: ChartData, all: seq<Point>, p: Point)
    requires Shows(c, LastPoints(all)) && |p.vals| == |c.datasets|
    ensures Shows(Push(c, p), LastPoints(all + [p]))
    ensures |Push(c, p).labels| <= MAX_PTS
  {
    var shown := LastPoints(all);
    AppendShows(c, shown, p);
    TrimShows(Append(c, p), shown + [p]);
    assert LastPoints(shown + [p]) == LastPoints(all + [p]);
  }

  // -------------------------------------------------------------- all charts

  const RECV := "net_bytes_recv_per_sec"
  const SENT := "net_bytes_sent_per_sec"

  datatype Received = Received(at: Time, value: real)

  /** The four charts, and the received rate that waits for its sent rate. */
  datatype Panel = Panel(cpu: ChartData, mem: ChartData, disk: ChartData, net: ChartData, recv: Option<Received>)

  predicate ValidPanel(p: Panel) {
    |p.cpu.datasets| == |p.mem.datasets| == |p.disk.datasets| == 1 && |p.net.datasets| == 2
  }

  /** The point that a row adds to the chart of the given metric, if any. */
  function PointsFor(r: Sample, name: string): seq<Point> {
    if r.name == name then [Point(r.timestamp, [r.value])] else []
  }

  /** The point that a row adds to the network chart, if any. */
  function NetPoints(r: Sample, recv: Option<Received>): seq<Point> {
    if r.name == SENT && recv.Some? then [Point(recv.value.at, [recv.value.value, r.value / 1024.0])] else []
  }

  function NextReceived(r: Sample, recv: Option<Received>): Option<Received> {
    if r.name == RECV then Some(Received(r.timestamp, r.value / 1024.0)) else recv
  }

  /** A push of the point, if there is one. */
  function PushAny(c: ChartData, points: seq<Point>): ChartData
    requires points != [] ==> |points[0].vals| == |c.datasets|
  {
    if points == [] then c else Push(c, points[0])
  }

  function AddRow(p: Panel, r: Sample): (p': Panel)
    requires ValidPanel(p)
    ensures ValidPanel(p')
  {
    Panel(PushAny(p.cpu, PointsFor(r, CPU)), PushAny(p.mem, PointsFor(r, MEM)),
          PushAny(p.disk, PointsFor(r, DISK)), PushAny(p.net, NetPoints(r, p.recv)), NextReceived(r, p.recv))
  }

  function AddRows(p: Panel, rows: seq<Sample>): (p': Panel)
    requires ValidPanel(p)
    ensures ValidPanel(p')
  {
    if rows == [] then p else AddRow(AddRows(p, rows[..|rows| - 1]), rows[|rows| - 1])
  }

  // -------------------------------------------------- which rows are charted

  /** JavaScript dates hold milliseconds. */
  function Millis(r: Sample): (ms: int)
    ensures ms * 1_000_000 <= r.timestamp < ms * 1_000_000 + 1_000_000
  {
    r.timestamp / 1_000_000
  }

  /** The first nineteen characters of a timestamp stand for its second. */
  function Second(r: Sample): (s: int)
    ensures s * 1_000_000_000 <= r.timestamp < s * 1_000_000_000 + 1_000_000_000
  {
    r.timestamp / 1_000_000_000
  }

  function InsertRow(rows: seq<Sample>, r: Sample): seq<Sample> {
    if rows == [] || Millis(rows[|rows| - 1]) <= Millis(r) then rows + [r]
    else InsertRow(rows[..|rows| - 1], r) + [rows[|rows| - 1]]
  }

  /** The rows sorted by time; rows of the same millisecond keep their order. */
  function SortRows(rows: seq<Sample>): seq<Sample> {
    if rows == [] then [] else InsertRow(SortRows(rows[..|rows| - 1]), rows[|rows| - 1])
  }

  /** Row `i` is the first of its metric and second. */
  predicate IsFirst(rows: seq<Sample>, i: nat)
    requires i < |rows|
  {
    forall j :: 0 <= j < i ==> rows[j].name != rows[i].name || Second(rows[j]) != Second(rows[i])
  }

  /** The rows of a snapshot that are charted. */
  function FirstRows(rows: seq<Sample>, n: nat): seq<Sample>
    requires n <= |rows|
  {
    if n == 0 then []
    else if IsFirst(rows, n - 1) then FirstRows(rows, n - 1) + [rows[n - 1]]
    else FirstRows(rows, n - 1)
  }

  /** The metrics of the first `n` rows, in the order of their first rows. */
  function Names(rows: seq<Sample>, n: nat): (names: seq<string>)
    requires n <= |rows|
    ensures forall i :: 0 <= i < n ==> rows[i].name in names
    ensures forall x :: x in names ==> exists i :: 0 <= i < n && rows[i].name == x
  {
    if n == 0 then []
    else if rows[n - 1].name in Names(rows, n - 1) then Names(rows, n - 1)
    else Names(rows, n - 1) + [rows[n - 1].name]
  }

  /** The last row of a metric among the first `n`. */
  function LastOf(rows: seq<Sample>, n: nat, name: string): Sample
    requires n <= |rows| && exists i :: 0 <= i < n && rows[i].name == name
  {
    if rows[n - 1].name == name then rows[n - 1] else LastOf(rows, n - 1, name)
  }

  /** The rows of an update that are charted: one per metric, its last. */
  function LatestRows(rows: seq<Sample>): (r: seq<Sample>)
    ensures |r| == |Names(rows, |rows|)|
  {
    var names := Names(rows, |rows|);
    seq(|names|, k requires 0 <= k < |names| => assert names[k] in names; LastOf(rows, |rows|, names[k]))
  }

  function Charted(rows: seq<Sample>, isSnapshot: bool): seq<Sample> {
    var sorted := SortRows(rows);
    if isSnapshot then FirstRows(sorted, |sorted|) else LatestRows(sorted)
  }

  // ----------------------------------------------------------- the dashboard

  class Dashboard {
    const cpu: Chart
    const mem: Chart
    const disk: Chart
    const net: Chart
    var recv: Option<Received>

    constructor ()
      ensures Valid() && Contents() == Panel(Blank(1), Blank(1), Blank(1), Blank(2), None)
      ensures fresh({cpu, mem, disk, net})
    {
      cpu := new Chart(1);
      mem := new Chart(1);
      disk := new Chart(1);
      net := new Chart(2);
      recv := None;
    }

    function Contents(): Panel
      reads this, cpu, mem, disk, net
    {
      Panel(cpu.Contents(), mem.Contents(), disk.Contents(), net.Contents(), recv)
    }

    ghost predicate Valid()
      reads this, cpu, mem, disk, net
    {
      && cpu != mem && cpu != disk && cpu != net && mem != disk && mem != net && disk != net
      && ValidPanel(Contents())
    }

    method AddToCharts(r: Sample)
      requires Valid()
      modifies this, cpu, mem, disk, net
      ensures Valid() && Contents() == AddRow(old(Contents()), r)
      ensures r.name != "cpu_usage_percent" ==> cpu.Contents() == old(cpu.Contents())
      ensures r.name != "mem_usage_percent" ==> mem.Contents() == old(mem.Contents())
      ensures r.name != "disk_usage_percent" ==> disk.Contents() == old(disk.Contents())
      ensures r.name != "net_bytes_sent_per_sec" ==> net.Contents() == old(net.Contents())
      ensures r.name == "cpu_usage_percent" ==>
                cpu.Contents() == Push(old(cpu.Contents()), Point(r.timestamp, [r.value]))
      ensures r.name == "mem_usage_percent" ==>
                mem.Contents() == Push(old(mem.Contents()), Point(r.timestamp, [r.value]))
      ensures r.name == "disk_usage_percent" ==>
                disk.Contents() == Push(old(disk.Contents()), Point(r.timestamp, [r.value]))
      ensures recv == if r.name == "net_bytes_recv_per_sec" then Some(Received(r.timestamp, r.value / 1024.0))
                      else old(recv)
      ensures r.name == "net_bytes_sent_per_sec" ==>
                net.Contents() == match old(recv)
                                  case None => old(net.Contents())
                                  case Some(x) => Push(old(net.Contents()), Point(x.at, [x.value, r.value / 1024.0]))
    {
      DistinctMetrics();
      if r.name == CPU {
        cpu.PushPt(r.timestamp, [r.value]);
      } else if r.name == MEM {
        mem.PushPt(r.timestamp, [r.value]);
      } else if r.name == DISK {
        disk.PushPt(r.timestamp, [r.value]);
      } else if r.name == RECV {
        recv := Some(Received(r.timestamp, r.value / 1024.0));
      } else if r.name == SENT {
        if recv.Some? {
          net.PushPt(recv.value.at, [recv.value.value, r.value / 1024.0]);
        }
      }
    }

    method AddAll(rows: seq<Sample>)
      requires Valid()
      modifies this, cpu, mem, disk, net
      ensures Valid() && Contents() == AddRows(old(Contents()), rows)
    {
      for i := 0 to |rows|
        invariant Valid() && Contents() == AddRows(old(Contents()), rows[..i])
      {
        assert rows[..i + 1][..i] == rows[..i];
        AddToCharts(rows[i]);
      }
      assert rows[..|rows|] == rows;
    }

    /** One event of the stream: a snapshot or an update. */
    method ProcessRows(rows: seq<Sample>, isSnapshot: bool)
      requires Valid()
      modifies this, cpu, mem, disk, net
      ensures Valid() && Contents() == AddRows(old(Contents()), Charted(rows, isSnapshot))
    {
      var sorted := SortRows(rows);
      var chosen: seq<Sample>;
      if isSnapshot {
        chosen := PickFirst(sorted);
      } else {
        chosen := PickLatest(sorted);
      }
      AddAll(chosen);
    }

    /** Opening the stream of a service clears the charts.  The waiting received
        rate stays. */
    method OpenMetricStream()
      requires Valid()
      modifies this, cpu, mem, disk, net
      ensures Valid() && Contents() == Panel(Blank(1), Blank(1), Blank(1), Blank(2), old(recv))
      ensures cpu.labels == mem.labels == disk.labels == net.labels == []
      ensures cpu.datasets == mem.datasets == disk.datasets == [[]] && net.datasets == [[], []]
    {
      cpu.Clear();
      mem.Clear();
      disk.Clear();
      net.Clear();
    }
  }

  lemma DistinctMetrics()
    ensures NoDuplicates([CPU, MEM, DISK, RECV, SENT])
  {
    assert CPU[0] == 'c' && MEM[0] == 'm' && DISK[0] == 'd' && RECV[0] == 'n' && SENT[0] == 'n';
    assert RECV[10] == 'r' && SENT[10] == 's';
  }

  method PickFirst(sorted: seq<Sample>) returns (chosen: seq<Sample>)
    ensures chosen == FirstRows(sorted, |sorted|)
  {
    chosen := [];
    var seen: set<(string, int)> := {};
    for i := 0 to |sorted|
      invariant chosen == FirstRows(sorted, i)
      invariant seen == set j | 0 <= j < i :: (sorted[j].name, Second(sorted[j]))
    {
      var key := (sorted[i].name, Second(sorted[i]));
      assert IsFirst(sorted, i) <==> key !in seen;
      if key !in seen {
        seen := seen + {key};
        chosen := chosen + [sorted[i]];
      }
    }
  }

  /** The metrics of the first `n` rows in the order they were met, and the last row of each. */
  ghost predicate Grouped(rows: seq<Sample>, n: nat, names: seq<string>, latest: map<string, Sample>)
    requires n <= |rows|
  {
    && names == Names(rows, n)
    && (forall x :: x in latest <==> x in names)
    && (forall x :: x in latest ==> latest[x] == LastOf(rows, n, x))
  }

  lemma GroupedStep(rows: seq<Sample>, n: nat, names: seq<string>, latest: map<string, Sample>)
    requires n < |rows| && Grouped(rows, n, names, latest)
    ensures var r := rows[n];
            Grouped(rows, n + 1, if r.name in latest then names else names + [r.name], latest[r.name := r])
  {
  }

  method GroupByMetric(sorted: seq<Sample>) returns (names: seq<string>, latest: map<string, Sample>)
    ensures Grouped(sorted, |sorted|, names, latest)
  {
    names, latest := [], map[];
    for i := 0 to |sorted|
      invariant Grouped(sorted, i, names, latest)
    {
      var r := sorted[i];
      GroupedStep(sorted, i, names, latest);
      if r.name !in latest {
        names := names + [r.name];
      }
      latest := latest[r.name := r];
    }
  }

  method PickLatest(sorted: seq<Sample>) returns (chosen: seq<Sample>)
    ensures chosen == LatestRows(sorted)
  {
    var names, latest := GroupByMetric(sorted);
    chosen := [];
    for k := 0 to |names|
      invariant chosen == LatestRows(sorted)[..k]
    {
      assert names[k] in latest;
      chosen := chosen + [latest[names[k]]];
    }
  }

  // ------------------------------------------------ what the charts show

  /** The points that rows add to the chart of a metric, in order. */
  function AllPoints(rows: seq<Sample>, name: string): (points: seq<Point>)
    ensures forall k :: 0 <= k < |points| ==> |points[k].vals| == 1
  {
    if rows == [] then []
    else AllPoints(rows[..|rows| - 1], name) + PointsFor(rows[|rows| - 1], name)
  }

  function LastReceived(rows: seq<Sample>, recv: Option<Received>): Option<Received> {
    if rows == [] then recv
    else NextReceived(rows[|rows| - 1], LastReceived(rows[..|rows| - 1], recv))
  }

  /** The points that rows add to the network chart: each sent rate with the
      received rate last seen before it. */
  function AllNetPoints(rows: seq<Sample>, recv: Option<Received>): (points: seq<Point>)
    ensures forall k :: 0 <= k < |points| ==> |points[k].vals| == 2
  {
    if rows == [] then []
    else
      var init := rows[..|rows| - 1];
      AllNetPoints(init, recv) + NetPoints(rows[|rows| - 1], LastReceived(init, recv))
  }

  /** Row by row, what is charted for a metric: the row's time and value. */
  lemma PointsStep(rows: seq<Sample>, name: string, i: nat)
    requires i < |rows|
    ensures AllPoints(rows[..i + 1], name) ==
            AllPoints(rows[..i], name) + if rows[i].name == name then [Point(rows[i].timestamp, [rows[i].value])] else []
  {
    assert rows[..i + 1][..i] == rows[..i];
  }

  /** Row `j` is the last received rate among the first `n`. */
  predicate IsLastReceived(rows: seq<Sample>, n: nat, j: nat)
    requires n <= |rows|
  {
    && j < n && rows[j].name == "net_bytes_recv_per_sec"
    && forall k :: j < k < n ==> rows[k].name != "net_bytes_recv_per_sec"
  }

  lemma {:induction false} LastReceivedIs(rows: seq<Sample>, recv: Option<Received>, n: nat, j: nat)
    requires n <= |rows| && IsLastReceived(rows, n, j)
    ensures LastReceived(rows[..n], recv) == Some(Received(rows[j].timestamp, rows[j].value / 1024.0))
  {
    assert rows[..n][..n - 1] == rows[..n - 1];
    if j < n - 1 {
      LastReceivedIs(rows, recv, n - 1, j);
    }
  }

  lemma {:induction false} NoneReceived(rows: seq<Sample>, recv: Option<Received>, n: nat)
    requires n <= |rows| && forall k :: 0 <= k < n ==> rows[k].name != "net_bytes_recv_per_sec"
    ensures LastReceived(rows[..n], recv) == recv
  {
    if n > 0 {
      assert rows[..n][..n - 1] == rows[..n - 1];
      NoneReceived(rows, recv, n - 1);
    }
  }

  lemma NetSnoc(rows: seq<Sample>, recv: Option<Received>, i: nat)
    requires i < |rows|
    ensures AllNetPoints(rows[..i + 1], recv) ==
            AllNetPoints(rows[..i], recv) + NetPoints(rows[i], LastReceived(rows[..i], recv))
  {
    assert rows[..i + 1][..i] == rows[..i];
  }

  /** Row by row, what is charted for the network: a sent rate is charted with the last
      received rate before it, at the time of that one, received first. */
  lemma NetPointsStep(rows: seq<Sample>, recv: Option<Received>, i: nat, j: nat)
    requires i < |rows| && rows[i].name == "net_bytes_sent_per_sec" && IsLastReceived(rows, i, j)
    ensures AllNetPoints(rows[..i + 1], recv) ==
            AllNetPoints(rows[..i], recv)
            + [Point(rows[j].timestamp, [rows[j].value / 1024.0, rows[i].value / 1024.0])]
  {
    NetSnoc(rows, recv, i);
    LastReceivedIs(rows, recv, i, j);
  }

  /** No other row adds a point there, except that a sent rate before all received rates
      is charted with the received rate that was waiting, if any. */
  lemma OtherNetPoints(rows: seq<Sample>, recv: Option<Received>, i: nat)
    requires i < |rows|
    requires rows[i].name == "net_bytes_sent_per_sec" ==>
               forall k :: 0 <= k < i ==> rows[k].name != "net_bytes_recv_per_sec"
    ensures AllNetPoints(rows[..i + 1], recv) ==
            AllNetPoints(rows[..i], recv)
            + if rows[i].name == "net_bytes_sent_per_sec" && recv.Some?
              then [Point(recv.value.at, [recv.value.value, rows[i].value / 1024.0])] else []
  {
    NetSnoc(rows, recv, i);
    if rows[i].name == "net_bytes_sent_per_sec" {
      NoneReceived(rows, recv, i);
    }
  }

  lemma PushAnyShows(c: ChartData, all: seq<Point>, points: seq<Point>)
    requires Shows(c, LastPoints(all)) && |points| <= 1
    requires points != [] ==> |points[0].vals| == |c.datasets|
    ensures Shows(PushAny(c, points), LastPoints(all + points))
  {
    if points == [] {
      assert all + points == all;
    } else {
      PushShows(c, all, points[0]);
      assert points == [points[0]];
    }
  }

  /** From blank charts on, every chart shows the last sixty, or fewer, of the
      points that were added to it. */
  lemma {:induction false} ChartsShowLast(p: Panel, rows: seq<Sample>)
    requires p.cpu == Blank(1) && p.mem == Blank(1) && p.disk == Blank(1) && p.net == Blank(2)
    ensures var p' := AddRows(p, rows);
            && Shows(p'.cpu, LastPoints(AllPoints(rows, CPU)))
            && Shows(p'.mem, LastPoints(AllPoints(rows, MEM)))
            && Shows(p'.disk, LastPoints(AllPoints(rows, DISK)))
            && Shows(p'.net, LastPoints(AllNetPoints(rows, p.recv)))
            && p'.recv == LastReceived(rows, p.recv)
  {
    if rows != [] {
      var init, r := rows[..|rows| - 1], rows[|rows| - 1];
      ChartsShowLast(p, init);
      var q := AddRows(p, init);
      PushAnyShows(q.cpu, AllPoints(init, CPU), PointsFor(r, CPU));
      PushAnyShows(q.mem, AllPoints(init, MEM), PointsFor(r, MEM));
      PushAnyShows(q.disk, AllPoints(init, DISK), PointsFor(r, DISK));
      PushAnyShows(q.net, AllNetPoints(init, p.recv), NetPoints(r, q.recv));
    }
  }

  /** An event of the metric stream. */
  datatype Event = Event(rows: seq<Sample>, isSnapshot: bool)

  function AllCharted(events: seq<Event>): seq<Sample> {
    if events == [] then []
    else
      var last := events[|events| - 1];
      AllCharted(events[..|events| - 1]) + Charted(last.rows, last.isSnapshot)
  }

  function Feed(p: Panel, events: seq<Event>): (p': Panel)
    requires ValidPanel(p)
    ensures ValidPanel(p')
  {
    if events == [] then p
    else
      var last := events[|events| - 1];
      AddRows(Feed(p, events[..|events| - 1]), Charted(last.rows, last.isSnapshot))
  }

  lemma {:induction false} AddRowsConcat(p: Panel, a: seq<Sample>, b: seq<Sample>)
    requires ValidPanel(p)
    ensures AddRows(p, a + b) == AddRows(AddRows(p, a), b)
  {
    if b == [] {
      assert a + b == a;
    } else {
      assert (a + b)[..|a + b| - 1] == a + b[..|b| - 1];
      AddRowsConcat(p, a, b[..|b| - 1]);
    }
  }

  lemma {:induction false} FeedIsAddRows(p: Panel, events: seq<Event>)
    requires ValidPanel(p)
    ensures Feed(p, events) == AddRows(p, AllCharted(events))
  {
    if events != [] {
      var last := events[|events| - 1];
      FeedIsAddRows(p, events[..|events| - 1]);
      AddRowsConcat(p, AllCharted(events[..|events| - 1]), Charted(last.rows, last.isSnapshot));
    }
  }

  /** Labels and datasets have equal length, at most sixty. */
  predicate Aligned(c: ChartData) {
    |c.labels| <= MAX_PTS && forall i :: 0 <= i < |c.datasets| ==> |c.datasets[i]| == |c.labels|
  }

  lemma ShowsIsAligned(c: ChartData, points: seq<Point>)
    requires Shows(c, LastPoints(points))
    ensures Aligned(c)
  {
    forall i | 0 <= i < |c.datasets| ensures |c.datasets[i]| == |c.labels| {
      assert ShowsSeries(c.datasets[i], LastPoints(points), i);
    }
  }

  /** Whatever events arrive after a stream is opened, each chart stays aligned and
      shows the last points of the charted rows. */
  lemma AfterAnyEvents(recv: Option<Received>, events: seq<Event>)
    ensures var p := Feed(Panel(Blank(1), Blank(1), Blank(1), Blank(2), recv), events);
            var rows := AllCharted(events);
            && |p.cpu.labels| <= 60 && |p.mem.labels| <= 60 && |p.disk.labels| <= 60 && |p.net.labels| <= 60
            && Aligned(p.cpu) && Aligned(p.mem) && Aligned(p.disk) && Aligned(p.net)
            && Shows(p.cpu, LastPoints(AllPoints(rows, "cpu_usage_percent")))
            && Shows(p.mem, LastPoints(AllPoints(rows, "mem_usage_percent")))
            && Shows(p.disk, LastPoints(AllPoints(rows, "disk_usage_percent")))
            && Shows(p.net, LastPoints(AllNetPoints(rows, recv)))
  {
    var blank := Panel(Blank(1), Blank(1), Blank(1), Blank(2), recv);
    var rows := AllCharted(events);
    FeedIsAddRows(blank, events);
    ChartsShowLast(blank, rows);
    var p := AddRows(blank, rows);
    ShowsIsAligned(p.cpu, AllPoints(rows, CPU));
    ShowsIsAligned(p.mem, AllPoints(rows, MEM));
    ShowsIsAligned(p.disk, AllPoints(rows, DISK));
    ShowsIsAligned(p.net, AllNetPoints(rows, recv));
  }

  // --------------------------------------------------------------- sorting

  predicate Sorted(rows: seq<Sample>) {
    forall i, j :: 0 <= i < j < |rows| ==> Millis(rows[i]) <= Millis(rows[j])
  }

  /** The rows of one millisecond, in order. */
  function Within(rows: seq<Sample>, ms: int): seq<Sample> {
    if rows == [] then []
    else
      var init, last := Within(rows[..|rows| - 1], ms), rows[|rows| - 1];
      if Millis(last) == ms then init + [last] else init
  }

  lemma WithinSnoc(rows: seq<Sample>, r: Sample, ms: int)
    ensures Within(rows + [r], ms) == if Millis(r) == ms then Within(rows, ms) + [r] else Within(rows, ms)
  {
    assert (rows + [r])[..|rows|] == rows;
  }

  lemma {:induction false} InsertRowPermutes(rows: seq<Sample>, r: Sample)
    ensures multiset(InsertRow(rows, r)) == multiset(rows) + multiset{r}
  {
    if rows != [] {
      assert rows == rows[..|rows| - 1] + [rows[|rows| - 1]];
      InsertRowPermutes(rows[..|rows| - 1], r);
    }
  }

  lemma {:induction false} InsertRowSorted(rows: seq<Sample>, r: Sample)
    requires Sorted(rows)
    ensures Sorted(InsertRow(rows, r))
  {
    if rows != [] && Millis(rows[|rows| - 1]) > Millis(r) {
      var init, last := rows[..|rows| - 1], rows[|rows| - 1];
      InsertRowSorted(init, r);
      InsertRowPermutes(init, r);
      var rest := InsertRow(init, r);
      forall i | 0 <= i < |rest| ensures Millis(rest[i]) <= Millis(last) {
        assert rest[i] in multiset(rest);
        assert rest[i] in init || rest[i] == r;
      }
    }
  }

  lemma {:induction false} InsertRowStable(rows: seq<Sample>, r: Sample, ms: int)
    ensures Within(InsertRow(rows, r), ms) == Within(rows + [r], ms)
  {
    if rows != [] && Millis(rows[|rows| - 1]) > Millis(r) {
      var init, last := rows[..|rows| - 1], rows[|rows| - 1];
      assert rows == init + [last];
      InsertRowStable(init, r, ms);
      WithinSnoc(InsertRow(init, r), last, ms);
      WithinSnoc(init, r, ms);
      WithinSnoc(rows, r, ms);
    }
  }

  /** Sorting orders the rows by time, keeps all of them, and keeps the order of
      rows of the same millisecond. */
  lemma {:induction false} SortRowsMeaning(rows: seq<Sample>, ms: int)
    ensures Sorted(SortRows(rows))
    ensures multiset(SortRows(rows)) == multiset(rows)
    ensures Within(SortRows(rows), ms) == Within(rows, ms)
  {
    if rows != [] {
      var init, last := rows[..|rows| - 1], rows[|rows| - 1];
      assert rows == init + [last];
      SortRowsMeaning(init, ms);
      InsertRowSorted(SortRows(init), last);
      InsertRowPermutes(SortRows(init), last);
      InsertRowStable(SortRows(init), last, ms);
      WithinSnoc(init, last, ms);
      WithinSnoc(SortRows(init), last, ms);
    }
  }

  // -------------------------------------------------------- update and snapshot

  lemma {:induction false} LastOfMeaning(rows: seq<Sample>, n: nat, name: string) returns (i: nat)
    requires n <= |rows| && exists i :: 0 <= i < n && rows[i].name == name
    ensures i < n && rows[i] == LastOf(rows, n, name) && rows[i].name == name
    ensures forall j :: i < j < n ==> rows[j].name != name
  {
    if rows[n - 1].name == name {
      i := n - 1;
    } else {
      i := LastOfMeaning(rows, n - 1, name);
    }
  }

  lemma {:induction false} NamesDistinct(rows: seq<Sample>, n: nat)
    requires n <= |rows|
    ensures NoDuplicates(Names(rows, n))
  {
    if n > 0 {
      NamesDistinct(rows, n - 1);
    }
  }

  lemma LatestRowAt(rows: seq<Sample>, k: nat)
    requires k < |LatestRows(rows)|
    ensures LatestRows(rows)[k].name == Names(rows, |rows|)[k]
    ensures LatestRows(rows)[k] in rows
    ensures Sorted(rows) ==>
              forall r :: r in rows && r.name == LatestRows(rows)[k].name ==>
                Millis(r) <= Millis(LatestRows(rows)[k])
  {
    var name := Names(rows, |rows|)[k];
    assert name in Names(rows, |rows|);
    var i := LastOfMeaning(rows, |rows|, name);
    if Sorted(rows) {
      forall r | r in rows && r.name == name ensures Millis(r) <= Millis(rows[i]) {
        var j :| 0 <= j < |rows| && rows[j] == r;
        assert j <= i;
      }
    }
  }

  /** An update charts, for each metric that occurs in the batch, exactly one row,
      and that row is a newest one. */
  lemma UpdateChartsNewest(rows: seq<Sample>)
    ensures OnePerName(Charted(rows, false))
    ensures forall r :: r in Charted(rows, false) ==> IsNewestOf(rows, r)
    ensures MetricNames(Charted(rows, false)) == MetricNames(rows)
  {
    var sorted := SortRows(rows);
    var charted := LatestRows(sorted);
    var names := Names(sorted, |sorted|);
    SortRowsMeaning(rows, 0);
    NamesDistinct(sorted, |sorted|);
    forall r ensures r in rows <==> r in sorted {
      assert r in multiset(rows) <==> r in multiset(sorted);
    }
    forall k | 0 <= k < |charted| ensures charted[k].name == names[k] && IsNewestOf(rows, charted[k]) {
      LatestRowAt(sorted, k);
    }
    forall x | x in MetricNames(rows) ensures x in MetricNames(charted) {
      var r :| r in rows && r.name == x;
      NameIsCharted(sorted, r);
    }
  }

  lemma {:induction false} NamesInOrder(rows: seq<Sample>, n: nat, a: nat, b: nat) returns (i: nat)
    requires n <= |rows| && a < b < |Names(rows, n)|
    ensures i < n && rows[i].name == Names(rows, n)[a]
    ensures forall j :: 0 <= j <= i ==> rows[j].name != Names(rows, n)[b]
  {
    var before := Names(rows, n - 1);
    if b < |before| {
      i := NamesInOrder(rows, n - 1, a, b);
    } else {
      assert before[a] in before;
      i :| 0 <= i < n - 1 && rows[i].name == before[a];
      assert forall j :: 0 <= j < n - 1 ==> rows[j].name in before;
    }
  }

  /** The charted rows of an update are the last ones of their metrics in order of time,
      and they come in the order in which the metrics first occur. */
  lemma UpdateOrder(rows: seq<Sample>, a: nat, b: nat) returns (i: nat, first: nat)
    requires a < |Charted(rows, false)| && b < |Charted(rows, false)|
    ensures var sorted, charted := SortRows(rows), Charted(rows, false);
            && i < |sorted| && sorted[i] == charted[a]
            && (forall j :: i < j < |sorted| ==> sorted[j].name != charted[a].name)
            && first < |sorted| && sorted[first].name == charted[a].name
            && (a < b ==> forall j :: 0 <= j <= first ==> sorted[j].name != charted[b].name)
  {
    var sorted := SortRows(rows);
    LatestRowAt(sorted, a);
    LatestRowAt(sorted, b);
    var name := Names(sorted, |sorted|)[a];
    assert name in Names(sorted, |sorted|);
    i := LastOfMeaning(sorted, |sorted|, name);
    first := i;
    if a < b {
      first := NamesInOrder(sorted, |sorted|, a, b);
    }
  }

  function MetricNames(rows: seq<Sample>): set<string> { set r | r in rows :: r.name }

  predicate OnePerName(rows: seq<Sample>) {
    forall i, j :: 0 <= i < j < |rows| ==> rows[i].name != rows[j].name
  }

  lemma NameIsCharted(sorted: seq<Sample>, r: Sample)
    requires r in sorted
    ensures r.name in MetricNames(LatestRows(sorted))
  {
    var i :| 0 <= i < |sorted| && sorted[i] == r;
    var names := Names(sorted, |sorted|);
    var k :| 0 <= k < |names| && names[k] == r.name;
    LatestRowAt(sorted, k);
    assert LatestRows(sorted)[k] in LatestRows(sorted);
  }

  /** No row of the batch with the same metric is newer. */
  ghost predicate IsNewestOf(rows: seq<Sample>, r: Sample) {
    r in rows && forall q :: q in rows && q.name == r.name ==> Millis(q) <= Millis(r)
  }

  /** In particular an update adds one point to the chart of each metric that
      occurs in the batch, and none to the others. */
  lemma UpdateAddsOnePoint(rows: seq<Sample>, name: string)
    ensures |AllPoints(Charted(rows, false), name)| == if name in MetricNames(rows) then 1 else 0
  {
    UpdateChartsNewest(rows);
    OnePointIfPresent(Charted(rows, false), name);
  }

  lemma {:induction false} OnePointIfPresent(rows: seq<Sample>, name: string)
    requires OnePerName(rows)
    ensures |AllPoints(rows, name)| == if name in MetricNames(rows) then 1 else 0
  {
    if rows != [] {
      var init, last := rows[..|rows| - 1], rows[|rows| - 1];
      OnePointIfPresent(init, name);
      NamesSplit(rows);
    }
  }

  lemma NamesSplit(rows: seq<Sample>)
    requires rows != [] && OnePerName(rows)
    ensures var init, last := rows[..|rows| - 1], rows[|rows| - 1];
            OnePerName(init) && MetricNames(rows) == MetricNames(init) + {last.name} && last.name !in MetricNames(init)
  {
    var init, last := rows[..|rows| - 1], rows[|rows| - 1];
    assert rows == init + [last];
    assert forall k :: 0 <= k < |init| ==> init[k].name != last.name;
  }

  predicate OnePerSecond(rows: seq<Sample>) {
    forall i, j :: 0 <= i < j < |rows| ==> rows[i].name != rows[j].name || Second(rows[i]) != Second(rows[j])
  }

  lemma {:induction false} FirstRowsMeaning(rows: seq<Sample>, n: nat)
    requires n <= |rows|
    ensures forall i :: 0 <= i < n && IsFirst(rows, i) ==> rows[i] in FirstRows(rows, n)
    ensures forall r :: r in FirstRows(rows, n) ==> r in rows[..n]
  {
    if n > 0 {
      FirstRowsMeaning(rows, n - 1);
      assert rows[..n] == rows[..n - 1] + [rows[n - 1]];
    }
  }

  lemma {:induction false} FirstRowsDistinct(rows: seq<Sample>, n: nat)
    requires n <= |rows|
    ensures OnePerSecond(FirstRows(rows, n))
  {
    if n > 0 {
      FirstRowsDistinct(rows, n - 1);
      FirstRowsMeaning(rows, n - 1);
      if IsFirst(rows, n - 1) {
        var f := FirstRows(rows, n - 1);
        forall k | 0 <= k < |f| ensures f[k].name != rows[n - 1].name || Second(f[k]) != Second(rows[n - 1]) {
          assert f[k] in f;
          var i :| 0 <= i < n - 1 && rows[i] == f[k];
        }
      }
    }
  }

  lemma {:induction false} FirstExists(rows: seq<Sample>, i: nat) returns (k: nat)
    requires i < |rows|
    ensures k <= i && IsFirst(rows, k)
    ensures rows[k].name == rows[i].name && Second(rows[k]) == Second(rows[i])
  {
    if IsFirst(rows, i) {
      k := i;
    } else {
      var j :| 0 <= j < i && rows[j].name == rows[i].name && Second(rows[j]) == Second(rows[i]);
      k := FirstExists(rows, j);
    }
  }

  /** A snapshot charts exactly one row per metric and second, and that row is an
      earliest one.  The charted rows are rows of the batch, in order of time. */
  lemma SnapshotChartsEarliest(rows: seq<Sample>, r: Sample)
    ensures var charted := Charted(rows, true);
            && OnePerSecond(charted) && Sorted(charted)
            && (r in charted ==> r in rows)
            && (r in rows ==>
                  exists f :: f in charted && f.name == r.name && Second(f) == Second(r) && Millis(f) <= Millis(r))
  {
    var sorted := SortRows(rows);
    SortRowsMeaning(rows, 0);
    assert r in multiset(sorted) <==> r in multiset(rows);
    FirstRowsMeaning(sorted, |sorted|);
    FirstRowsDistinct(sorted, |sorted|);
    FirstRowsSorted(sorted, |sorted|);
    if r in rows {
      var f := EarliestIsCharted(sorted, r);
    }
  }

  lemma {:induction false} FirstRowsSorted(rows: seq<Sample>, n: nat)
    requires n <= |rows| && Sorted(rows)
    ensures Sorted(FirstRows(rows, n))
    ensures forall f, i :: f in FirstRows(rows, n) && n <= i < |rows| ==> Millis(f) <= Millis(rows[i])
  {
    if n > 0 {
      FirstRowsSorted(rows, n - 1);
      var f := FirstRows(rows, n - 1);
      assert forall k :: 0 <= k < |f| ==> f[k] in f;
    }
  }

  lemma EarliestIsCharted(sorted: seq<Sample>, r: Sample) returns (f: Sample)
    requires r in sorted && Sorted(sorted)
    ensures f in FirstRows(sorted, |sorted|)
    ensures f.name == r.name && Second(f) == Second(r) && Millis(f) <= Millis(r)
  {
    var i :| 0 <= i < |sorted| && sorted[i] == r;
    FirstRowsMeaning(sorted, |sorted|);
    var k := FirstExists(sorted, i);
    f := sorted[k];
  }

  // ------------------------------------------------- the waiting received rate

  /** How many sent rates come before the first received rate. */
  function EarlySent(rows: seq<Sample>): nat {
    if rows == [] then 0
    else
      var init, last := rows[..|rows| - 1], rows[|rows| - 1];
      EarlySent(init) + if last.name == SENT && LastReceived(init, None).None? then 1 else 0
  }

  /** A waiting received rate adds a point for each early sent rate, before all other
      points, and changes nothing else. */
  lemma {:induction false} NetPointsFrom(rows: seq<Sample>, x: Received)
    ensures var with, without := AllNetPoints(rows, Some(x)), AllNetPoints(rows, None);
            |with| == EarlySent(rows) + |without| && with[EarlySent(rows)..] == without
    ensures LastReceived(rows, None).None? ==> AllNetPoints(rows, None) == [] && LastReceived(rows, Some(x)) == Some(x)
    ensures LastReceived(rows, None).Some? ==> LastReceived(rows, Some(x)) == LastReceived(rows, None)
  {
    if rows != [] {
      NetPointsFrom(rows[..|rows| - 1], x);
    }
  }

  /** The network chart's points are the same with and without a waiting rate exactly
      if no sent rate is early, or sixty further points have moved on. */
  lemma LastNetPointsIff(rows: seq<Sample>, x: Received)
    ensures LastPoints(AllNetPoints(rows, Some(x))) == LastPoints(AllNetPoints(rows, None)) <==>
            EarlySent(rows) == 0 || |AllNetPoints(rows, None)| >= MAX_PTS
  {
    NetPointsFrom(rows, x);
    LastOfLonger(AllNetPoints(rows, Some(x)), AllNetPoints(rows, None), EarlySent(rows));
  }

  lemma LastOfLonger(longer: seq<Point>, shorter: seq<Point>, k: nat)
    requires |longer| == k + |shorter| && longer[k..] == shorter
    ensures LastPoints(longer) == LastPoints(shorter) <==> k == 0 || |shorter| >= MAX_PTS
  {
    if |shorter| >= MAX_PTS {
      assert longer[|longer| - MAX_PTS..] == longer[k..][|shorter| - MAX_PTS..];
      assert LastPoints(longer) == longer[|longer| - MAX_PTS..];
      assert LastPoints(shorter) == shorter[|shorter| - MAX_PTS..];
    } else if k > 0 {
      assert |LastPoints(longer)| > |LastPoints(shorter)|;
    }
  }

  /** What a chart shows determines it. */
  lemma ShowsDetermines(c: ChartData, d: ChartData, points: seq<Point>)
    requires Shows(c, points) && Shows(d, points) && |c.datasets| == |d.datasets|
    ensures c == d
  {
    forall i | 0 <= i < |c.datasets| ensures c.datasets[i] == d.datasets[i] {
      assert ShowsSeries(c.datasets[i], points, i) && ShowsSeries(d.datasets[i], points, i);
    }
  }

  /** The network chart after the events, opened with the given waiting rate. */
  function NetAfter(recv: Option<Received>, events: seq<Event>): ChartData {
    Feed(Panel(Blank(1), Blank(1), Blank(1), Blank(2), recv), events).net
  }

  /** Opening a stream does not clear the waiting received rate, so a rate of the
      server viewed before can enter the network chart.  The chart differs for it
      exactly while a sent rate was charted before the first received rate and fewer
      than sixty points have been added since. */
  lemma OldRateLeaksIff(events: seq<Event>, previous: Received)
    ensures NetAfter(Some(previous), events) != NetAfter(None, events) <==>
            EarlySent(AllCharted(events)) > 0 && |AllNetPoints(AllCharted(events), None)| < MAX_PTS
  {
    var rows := AllCharted(events);
    AfterAnyEvents(Some(previous), events);
    AfterAnyEvents(None, events);
    LastNetPointsIff(rows, previous);
    NetPointsFrom(rows, previous);
    if EarlySent(rows) == 0 || |AllNetPoints(rows, None)| >= MAX_PTS {
      ShowsDetermines(NetAfter(Some(previous), events), NetAfter(None, events),
                      LastPoints(AllNetPoints(rows, None)));
    } else {
      assert |NetAfter(Some(previous), events).labels| == |LastPoints(AllNetPoints(rows, Some(previous)))|;
      assert |NetAfter(None, events).labels| == |AllNetPoints(rows, None)|;
    }
  }

  /** It happens with a single update that holds a sent rate alone: the chart then
      shows one point, stamped with the old rate's time. */
  lemma OldRateLeaks(r: Sample, previous: Received)
    requires r.name == SENT
    ensures var events := [Event([r], false)];
            && NetAfter(Some(previous), events).labels == [previous.at]
            && NetAfter(None, events).labels == []
  {
    DistinctMetrics();
    OneEvent(r, Some(previous));
    OneEvent(r, None);
  }

  lemma OneEvent(r: Sample, recv: Option<Received>)
    ensures var labels := NetAfter(recv, [Event([r], false)]).labels;
            && |labels| == |NetPoints(r, recv)|
            && forall k :: 0 <= k < |labels| ==> labels[k] == NetPoints(r, recv)[k].at
  {
    var events := [Event([r], false)];
    OneRow(r);
    assert AllCharted(events[..0]) == [];
    assert AllCharted(events) == [r];
    OneNetPoint(r, recv);
    AfterAnyEvents(recv, events);
  }

  lemma OneNetPoint(r: Sample, recv: Option<Received>)
    ensures AllNetPoints([r], recv) == NetPoints(r, recv)
  {
    assert [r][..0] == [];
    assert AllNetPoints([], recv) == [] && LastReceived([], recv) == recv;
  }

  lemma OneRow(r: Sample)
    ensures Charted([r], false) == [r]
  {
    assert [r][..0] == [] && SortRows([r]) == [r];
    assert Names([r], 0) == [] && Names([r], 1) == [r.name];
  }
}
