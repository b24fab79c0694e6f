/** What the heartbeats of the interleaved agent say about the log entries between
    them. */
module AgentHeartbeats {
  import opened Telemetry
  import opened AgentAlerts
  import opened AgentInterleaving

  /** Event `i` lies between the heartbeat `j` and the heartbeat before it. */
  ghost predicate InInterval(h: History, i: nat, j: nat) {
    i < j < |h| && h[j].Heartbeat? && forall m :: i <= m < j ==> !h[m].Heartbeat?
  }

  lemma {:induction false} WorstMeaning(h: History, n: nat)
    requires n <= |h|
    ensures forall i :: 0 <= i < n && (forall m :: i <= m < n ==> !h[m].Heartbeat?) ==>
              LogLevel(h[i]).Severity() <= Worst(h, n).Severity()
    ensures Worst(h, n) == Info ||
            exists i :: 0 <= i < n && LogLevel(h[i]) == Worst(h, n)
                        && forall m :: i <= m < n ==> !h[m].Heartbeat?
  {
    if n > 0 {
      WorstMeaning(h, n - 1);
    }
  }

  /** A heartbeat carries the worst level logged since the previous heartbeat; in
      particular it is ok exactly when no warning and no error was logged. */
  lemma HeartbeatIsWorst(steps: seq<Step>, j: nat)
    requires Run(steps).Some?
    requires var h := Run(steps).value.history; j < |h| && h[j].Heartbeat?
    ensures var h := Run(steps).value.history;
            && (forall i: nat :: InInterval(h, i, j) ==> LogLevel(h[i]).Severity() <= h[j].status.Severity())
            && (h[j].status != Info ==> exists i: nat :: InInterval(h, i, j) && LogLevel(h[i]) == h[j].status)
  {
    EveryRun(steps);
    var h := Run(steps).value.history;
    assert EventOk(h, j);
    WorstMeaning(h, j);
    if h[j].status != Info {
      var i :| 0 <= i < j && LogLevel(h[i]) == Worst(h, j) && forall m :: i <= m < j ==> !h[m].Heartbeat?;
      assert InInterval(h, i, j);
    }
  }

  /** Each log entry counts in at most one interval, and in exactly one as soon
      as a heartbeat follows it. */
  lemma OneInterval(h: History, i: nat)
    requires i < |h| && !h[i].Heartbeat?
    ensures forall j: nat, j': nat :: InInterval(h, i, j) && InInterval(h, i, j') ==> j == j'
    ensures (exists j: nat :: InInterval(h, i, j)) <==> exists m :: i < m < |h| && h[m].Heartbeat?
  {
    if m :| i < m < |h| && h[m].Heartbeat? {
      var j := FirstHeartbeat(h, i, m);
    }
  }

  /** In every run: as soon as a heartbeat follows a log entry, exactly one heartbeat
      accounts for it, and that one is at least as severe. */
  lemma CountedOnce(steps: seq<Step>, i: nat)
    requires Run(steps).Some?
    requires var h := Run(steps).value.history;
             i < |h| && !h[i].Heartbeat? && exists m :: i < m < |h| && h[m].Heartbeat?
    ensures var h := Run(steps).value.history;
            exists j: nat ::
              && InInterval(h, i, j) && LogLevel(h[i]).Severity() <= h[j].status.Severity()
              && forall j': nat :: InInterval(h, i, j') ==> j' == j
  {
    var h := Run(steps).value.history;
    OneInterval(h, i);
    var j: nat :| InInterval(h, i, j);
    HeartbeatIsWorst(steps, j);
  }

  lemma {:induction false} FirstHeartbeat(h: History, i: nat, m: nat) returns (j: nat)
    requires i < m < |h| && h[m].Heartbeat? && !h[i].Heartbeat?
    ensures InInterval(h, i, j)
    decreases m
  {
    if k :| i < k < m && h[k].Heartbeat? {
      j := FirstHeartbeat(h, i, k);
    } else {
      j := m;
    }
  }
}
