/** The agent's network rates: differences of 64-bit counters between two
    snapshots, divided by the time between them. */
module NetRates {
  import opened Telemetry

  const WORD: int := 0x1_0000_0000_0000_0000

  type Word = x: int | 0 <= x < WORD

  /** The two counters of an interface. */
  datatype Counters = Counters(sent: Word, recv: Word)

  datatype Column = Sent | Recv

  function Get(c: Counters, col: Column): Word {
    if col.Sent? then c.sent else c.recv
  }

  datatype Stat = Stat(name: string, counters: Counters)

  datatype Snapshot = Snapshot(counters: map<string, Counters>, time: Time)

  /** What is sent for one interface: the counters and the rates per second. */
  datatype Rates = Rates(totals: Counters, sent: real, recv: real)

  function Rate(r: Rates, col: Column): real {
    if col.Sent? then r.sent else r.recv
  }

  /** A batch of rates, and the times of the two snapshots it was computed from. */
  datatype Batch = Batch(from: Time, to: Time, rates: map<string, Rates>)

  /** Unsigned 64-bit subtraction. */
  function Sub64(a: Word, b: Word): Word {
    (a - b) % WORD
  }

  function Seconds(d: Time): real {
    d as real / 1_000_000_000.0
  }

  // ----------------------------------------------------------------- snapshots

  /** The interfaces among the first `n` entries; the loopback does not count. */
  function Interfaces(stats: seq<Stat>, n: nat): map<string, Counters>
    requires n <= |stats|
  {
    if n == 0 then map[]
    else if stats[n - 1].name == "lo" then Interfaces(stats, n - 1)
    else Interfaces(stats, n - 1)[stats[n - 1].name := stats[n - 1].counters]
  }

  method NetSnapshot(stats: Option<seq<Stat>>, now: Time) returns (r: Option<Snapshot>)
    ensures r == match stats
                 case None => None
                 case Some(s) => Some(Snapshot(Interfaces(s, |s|), now))
  {
    if stats.None? {
      return None;
    }
    var s := stats.value;
    var m: map<string, Counters> := map[];
    for i := 0 to |s|
      invariant m == Interfaces(s, i)
    {
      if s[i].name != "lo" {
        m := m[s[i].name := s[i].counters];
      }
    }
    return Some(Snapshot(m, now));
  }

  lemma {:induction false} NoLoopback(stats: seq<Stat>, n: nat)
    requires n <= |stats|
    ensures "lo" !in Interfaces(stats, n)
    ensures forall i :: 0 <= i < n && stats[i].name != "lo" ==> stats[i].name in Interfaces(stats, n)
    ensures forall i :: 0 <= i < n && stats[i].name != "lo"
                        && (forall j :: i < j < n ==> stats[j].name != stats[i].name) ==>
              Interfaces(stats, n)[stats[i].name] == stats[i].counters
  {
    if n > 0 {
      NoLoopback(stats, n - 1);
    }
  }

  // --------------------------------------------------------------------- rates

  /** What a rate amounts to over a time. */
  function Volume(rate: real, elapsed: Time): real {
    rate * Seconds(elapsed)
  }

  function PerSecond(d: int, elapsed: Time): (rate: real)
    requires elapsed > 0
    ensures rate * (elapsed as real / 1_000_000_000.0) == d as real
    ensures Volume(rate, elapsed) == d as real
  {
    d as real / Seconds(elapsed)
  }

  function RatesOf(p: Counters, c: Counters, elapsed: Time): (r: Rates)
    requires elapsed > 0
    ensures r.totals == c
    ensures r.sent * (elapsed as real / 1_000_000_000.0) == Sub64(c.sent, p.sent) as real
    ensures r.recv * (elapsed as real / 1_000_000_000.0) == Sub64(c.recv, p.recv) as real
  {
    Rates(c, PerSecond(Sub64(c.sent, p.sent), elapsed), PerSecond(Sub64(c.recv, p.recv), elapsed))
  }

  /** The rates of the interfaces that both snapshots hold. */
  function AllRates(prev: Snapshot, cur: Snapshot): (rates: map<string, Rates>)
    requires cur.time > prev.time
    ensures forall name :: name in rates <==> name in cur.counters && name in prev.counters
  {
    map name | name in cur.counters && name in prev.counters ::
      RatesOf(prev.counters[name], cur.counters[name], cur.time - prev.time)
  }

  /** The batch for two successive snapshots, if one is sent. */
  function BatchOf(prev: Snapshot, cur: Snapshot): seq<Batch> {
    if cur.time - prev.time <= 0 then []
    else if AllRates(prev, cur) == map[] then []
    else [Batch(prev.time, cur.time, AllRates(prev, cur))]
  }

  /** Everything sent for a sequence of snapshots. */
  function Batches(snaps: seq<Snapshot>): seq<Batch> {
    if |snaps| <= 1 then []
    else Batches(snaps[..|snaps| - 1]) + BatchOf(snaps[|snaps| - 2], snaps[|snaps| - 1])
  }

  lemma BatchesSnoc(snaps: seq<Snapshot>, s: Snapshot)
    ensures Batches(snaps + [s]) == if snaps == [] then [] else Batches(snaps) + BatchOf(snaps[|snaps| - 1], s)
  {
    assert (snaps + [s])[..|snaps|] == snaps;
  }

  class NetMonitor {
    var batches: seq<Batch>

    constructor ()
      ensures batches == []
    {
      batches := [];
    }

    /** The map of rates for two snapshots, interface by interface. */
    method ComputeRates(prev: Snapshot, cur: Snapshot) returns (rates: map<string, Rates>)
      requires cur.time > prev.time
      ensures rates == AllRates(prev, cur)
      ensures forall name :: name in rates <==> name in cur.counters && name in prev.counters
    {
      rates := map[];
      var todo := cur.counters.Keys;
      while todo != {}
        invariant todo <= cur.counters.Keys
        invariant rates.Keys == (cur.counters.Keys - todo) * prev.counters.Keys
        invariant forall name :: name in rates ==>
                    rates[name] == RatesOf(prev.counters[name], cur.counters[name], cur.time - prev.time)
        decreases todo
      {
        var name :| name in todo;
        todo := todo - {name};
        if name in prev.counters {
          rates := rates[name := RatesOf(prev.counters[name], cur.counters[name], cur.time - prev.time)];
        }
      }
    }

    /** One round of the loop: send the batch for two snapshots, unless no time has
        passed or they share no interface. */
    method SendRates(prev: Snapshot, cur: Snapshot)
      modifies this
      ensures batches == old(batches) + BatchOf(prev, cur)
      ensures var shared := exists name :: name in cur.counters && name in prev.counters;
              |batches| == |old(batches)| + if cur.time > prev.time && shared then 1 else 0
    {
      if cur.time - prev.time <= 0 {
        return;
      }
      var rates := ComputeRates(prev, cur);
      if rates != map[] {
        batches := batches + [Batch(prev.time, cur.time, rates)];
      }
    }

    /** A successful snapshot after those in `taken`; `start` are the batches sent
        before the first of them.  Until there is a previous snapshot there is
        nothing to compare with. */
    method Advance(prev: Option<Snapshot>, cur: Snapshot, ghost taken: seq<Snapshot>, ghost start: seq<Batch>)
      requires prev == Last(taken) && batches == start + Batches(taken)
      modifies this
      ensures batches == start + Batches(taken + [cur])
    {
      BatchesSnoc(taken, cur);
      if prev.Some? {
        SendRates(prev.value, cur);
      }
    }

    /** The polling loop.  Failed snapshots are passed over; the first poll is the
        snapshot taken before the loop. */
    method StreamNetwork(polls: seq<Option<Snapshot>>)
      modifies this
      ensures batches == old(batches) + Batches(Somes(polls))
    {
      var prev: Option<Snapshot> := None;
      ghost var taken: seq<Snapshot> := [];
      for i := 0 to |polls|
        invariant taken == Somes(polls[..i]) && prev == Last(taken)
        invariant batches == old(batches) + Batches(taken)
      {
        TakenSnoc(polls, i);
        if polls[i].None? {
          continue;
        }
        var cur := polls[i].value;
        Advance(prev, cur, taken, old(batches));
        prev, taken := Some(cur), taken + [cur];
      }
      assert polls[..|polls|] == polls;
    }
  }

  function Last(snaps: seq<Snapshot>): Option<Snapshot> {
    if snaps == [] then None else Some(snaps[|snaps| - 1])
  }

  lemma TakenSnoc(polls: seq<Option<Snapshot>>, i: nat)
    requires i < |polls|
    ensures Somes(polls[..i + 1]) ==
            match polls[i] case None => Somes(polls[..i]) case Some(s) => Somes(polls[..i]) + [s]
  {
    assert polls[..i + 1][..i] == polls[..i];
  }

  // --------------------------------------------------------------- conservation

  /** Rate times elapsed time, summed over the batches that report the interface. */
  function Reported(batches: seq<Batch>, name: string, col: Column): real {
    if batches == [] then 0.0
    else
      var b := batches[|batches| - 1];
      Reported(batches[..|batches| - 1], name, col)
      + if name in b.rates then Volume(Rate(b.rates[name], col), b.to - b.from) else 0.0
  }

  ghost predicate Present(snaps: seq<Snapshot>, name: string) {
    forall i :: 0 <= i < |snaps| ==> name in snaps[i].counters
  }

  /** The increments of successive counter readings. */
  function Increments(snaps: seq<Snapshot>, name: string, col: Column): nat
    requires Present(snaps, name)
  {
    if |snaps| <= 1 then 0
    else
      Increments(snaps[..|snaps| - 1], name, col)
      + Sub64(Get(snaps[|snaps| - 1].counters[name], col), Get(snaps[|snaps| - 2].counters[name], col))
  }

  /** The increments for which no time, or negative time, had passed. */
  function Skipped(snaps: seq<Snapshot>, name: string, col: Column): nat
    requires Present(snaps, name)
  {
    if |snaps| <= 1 then 0
    else
      var cur, prev := snaps[|snaps| - 1], snaps[|snaps| - 2];
      Skipped(snaps[..|snaps| - 1], name, col)
      + if cur.time - prev.time <= 0 then Sub64(Get(cur.counters[name], col), Get(prev.counters[name], col)) else 0
  }

  lemma ReportedSnoc(batches: seq<Batch>, b: Batch, name: string, col: Column)
    ensures Reported(batches + [b], name, col) ==
            Reported(batches, name, col)
            + if name in b.rates then Volume(Rate(b.rates[name], col), b.to - b.from) else 0.0
  {
    assert (batches + [b])[..|batches|] == batches;
  }

  /** For an interface that stays, what the rates report and what was skipped
      together are all increments. */
  lemma {:induction false} NothingLost(snaps: seq<Snapshot>, name: string, col: Column)
    requires Present(snaps, name)
    ensures Reported(Batches(snaps), name, col) + Skipped(snaps, name, col) as real ==
            Increments(snaps, name, col) as real
  {
    if |snaps| > 1 {
      var init := snaps[..|snaps| - 1];
      NothingLost(init, name, col);
      OneStep(Batches(init), snaps[|snaps| - 2], snaps[|snaps| - 1], name, col);
    }
  }

  lemma OneStep(batches: seq<Batch>, prev: Snapshot, cur: Snapshot, name: string, col: Column)
    requires name in prev.counters && name in cur.counters
    ensures var d := Sub64(Get(cur.counters[name], col), Get(prev.counters[name], col));
            Reported(batches + BatchOf(prev, cur), name, col) ==
            Reported(batches, name, col) + if cur.time - prev.time <= 0 then 0.0 else d as real
  {
    if cur.time - prev.time > 0 {
      var rates := AllRates(prev, cur);
      assert name in rates;
      ReportedSnoc(batches, Batch(prev.time, cur.time, rates), name, col);
      RateExact(prev, cur, name, col);
    } else {
      assert batches + [] == batches;
    }
  }

  lemma RateExact(prev: Snapshot, cur: Snapshot, name: string, col: Column)
    requires cur.time > prev.time && name in prev.counters && name in cur.counters
    ensures Volume(Rate(AllRates(prev, cur)[name], col), cur.time - prev.time) ==
            Sub64(Get(cur.counters[name], col), Get(prev.counters[name], col)) as real
  {
    var d, elapsed := Sub64(Get(cur.counters[name], col), Get(prev.counters[name], col)), cur.time - prev.time;
    assert Rate(AllRates(prev, cur)[name], col) == PerSecond(d, elapsed);
  }

  /** The sum of all increments agrees with last minus first modulo 2^64. */
  lemma {:induction false} IncrementsTelescope(snaps: seq<Snapshot>, name: string, col: Column)
    requires snaps != [] && Present(snaps, name)
    ensures Increments(snaps, name, col) % WORD ==
            (Get(snaps[|snaps| - 1].counters[name], col) - Get(snaps[0].counters[name], col)) % WORD
  {
    if |snaps| > 1 {
      var init := snaps[..|snaps| - 1];
      IncrementsTelescope(init, name, col);
      ModSum(Increments(init, name, col),
             Get(snaps[|snaps| - 2].counters[name], col) - Get(snaps[0].counters[name], col),
             Get(snaps[|snaps| - 1].counters[name], col) - Get(snaps[|snaps| - 2].counters[name], col));
    }
  }

  lemma ModSum(a: int, b: int, c: int)
    requires a % WORD == b % WORD
    ensures (a + c % WORD) % WORD == (b + c) % WORD
  {
  }

  /** A counter that advances by less than 2^64 is read off exactly, wrapped or
      not; a step back or a longer step is not. */
  lemma IncrementExactIff(before: int, after: int)
    ensures Sub64(after % WORD, before % WORD) == after - before <==> 0 <= after - before < WORD
  {
  }

  /** The readings are the true byte counts as 64-bit words. */
  ghost predicate Reads(snaps: seq<Snapshot>, name: string, col: Column, truth: seq<int>)
    requires Present(snaps, name)
  {
    && |truth| == |snaps|
    && forall i :: 0 <= i < |snaps| ==> Get(snaps[i].counters[name], col) == truth[i] % WORD
  }

  lemma {:induction false} IncrementsAreTrue(snaps: seq<Snapshot>, name: string, col: Column, truth: seq<int>)
    requires snaps != [] && Present(snaps, name) && Reads(snaps, name, col, truth)
    requires forall i :: 0 < i < |truth| ==> 0 <= truth[i] - truth[i - 1] < WORD
    ensures Increments(snaps, name, col) == truth[|truth| - 1] - truth[0]
  {
    if |snaps| > 1 {
      var n := |snaps| - 1;
      IncrementsAreTrue(snaps[..n], name, col, truth[..n]);
      IncrementExactIff(truth[n - 1], truth[n]);
    }
  }

  /** For an interface present in every successful snapshot whose true byte count
      never steps by 2^64 or more, rate times elapsed time over all sent batches,
      plus the increments skipped because the clock did not advance, is exactly the
      number of bytes moved between the first and the last successful snapshot.
      Failed snapshots in between lose nothing. */
  lemma RatesAddUp(polls: seq<Option<Snapshot>>, name: string, col: Column, truth: seq<int>)
    requires Somes(polls) != [] && Present(Somes(polls), name) && Reads(Somes(polls), name, col, truth)
    requires forall i :: 0 < i < |truth| ==> 0 <= truth[i] - truth[i - 1] < WORD
    ensures Reported(Batches(Somes(polls)), name, col) + Skipped(Somes(polls), name, col) as real ==
            (truth[|truth| - 1] - truth[0]) as real
  {
    NothingLost(Somes(polls), name, col);
    IncrementsAreTrue(Somes(polls), name, col, truth);
  }
}
