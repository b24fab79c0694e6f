/** The agent's high-usage warnings: one latch for CPU, one for memory, and one
    per mount point for disks. */
module Latches {
  import opened Telemetry

  /** A usage reading, with the threshold as each of the two comparisons finds
      it; the threshold may change between them. */
  datatype Reading = Reading(usage: real, first: real, second: real)

  // ---------------------------------------------------------------- one latch

  /** The latch after the first `n` readings. */
  function Latch(rs: seq<Reading>, n: nat): bool
    requires n <= |rs|
  {
    n > 0 &&
    var r := rs[n - 1];
    if r.usage >= r.first && !Latch(rs, n - 1) then true
    else if r.usage < r.second then false
    else Latch(rs, n - 1)
  }

  predicate WarnsAt(rs: seq<Reading>, i: nat)
    requires i < |rs|
  {
    rs[i].usage >= rs[i].first && !Latch(rs, i)
  }

  /** The usage values that are warned about, in order. */
  function Warnings(rs: seq<Reading>, n: nat): seq<real>
    requires n <= |rs|
  {
    if n == 0 then []
    else if WarnsAt(rs, n - 1) then Warnings(rs, n - 1) + [rs[n - 1].usage]
    else Warnings(rs, n - 1)
  }

  lemma {:induction false} PrefixOnly(rs: seq<Reading>, r: Reading, n: nat)
    requires n <= |rs|
    ensures Latch(rs + [r], n) == Latch(rs, n)
    ensures Warnings(rs + [r], n) == Warnings(rs, n)
  {
    if n > 0 {
      assert (rs + [r])[n - 1] == rs[n - 1];
      PrefixOnly(rs, r, n - 1);
    }
  }

  /** One more reading. */
  lemma Snoc(rs: seq<Reading>, r: Reading)
    ensures var warns := r.usage >= r.first && !Latch(rs, |rs|);
            && Latch(rs + [r], |rs| + 1) == (warns || (!(r.usage < r.second) && Latch(rs, |rs|)))
            && Warnings(rs + [r], |rs| + 1) == if warns then Warnings(rs, |rs|) + [r.usage] else Warnings(rs, |rs|)
  {
    PrefixOnly(rs, r, |rs|);
    assert (rs + [r])[|rs|] == r;
  }

  class UsageMonitor {
    var warnings: seq<real>
    var diskWarnings: seq<DiskWarning>

    constructor ()
      ensures warnings == [] && diskWarnings == []
    {
      warnings, diskWarnings := [], [];
    }

    /** The polling loop for CPU, and likewise for memory. */
    method StreamUsage(polls: seq<Option<Reading>>)
      modifies this`warnings
      ensures warnings == old(warnings) + Warnings(Somes(polls), |Somes(polls)|)
    {
      var warnedHigh := false;
      for i := 0 to |polls|
        invariant var rs := Somes(polls[..i]);
                  warnedHigh == Latch(rs, |rs|) && warnings == old(warnings) + Warnings(rs, |rs|)
      {
        assert polls[..i + 1][..i] == polls[..i];
        if polls[i].None? {
          continue;
        }
        var r := polls[i].value;
        Snoc(Somes(polls[..i]), r);
        if r.usage >= r.first && !warnedHigh {
          warnedHigh := true;
          warnings := warnings + [r.usage];
        } else if r.usage < r.second {
          warnedHigh := false;
        }
      }
      assert polls[..|polls|] == polls;
    }

    /** The polling loop for disks: a poll lists the mounts with their readings. */
    method StreamDisk(polls: seq<Option<seq<DiskReading>>>)
      modifies this`diskWarnings
      ensures var rs := AllReadings(polls);
              diskWarnings == old(diskWarnings) + DiskWarnings(rs, |rs|)
    {
      var warnedMounts: map<string, bool> := map[];
      for i := 0 to |polls|
        invariant var rs := AllReadings(polls[..i]);
                  warnedMounts == Mounts(rs, |rs|) && diskWarnings == old(diskWarnings) + DiskWarnings(rs, |rs|)
      {
        assert polls[..i + 1][..i] == polls[..i];
        if polls[i].None? {
          continue;
        }
        var partitions := polls[i].value;
        warnedMounts := ObservePartitions(warnedMounts, partitions, AllReadings(polls[..i]), old(diskWarnings));
      }
      assert polls[..|polls|] == polls;
    }

    /** One poll; `seen` are the readings of the polls before, `start` the warnings
        before the first of them. */
    method ObservePartitions(mounts: map<string, bool>, partitions: seq<DiskReading>,
                             ghost seen: seq<DiskReading>, ghost start: seq<DiskWarning>)
      returns (warnedMounts: map<string, bool>)
      requires mounts == Mounts(seen, |seen|) && diskWarnings == start + DiskWarnings(seen, |seen|)
      modifies this`diskWarnings
      ensures var rs := seen + partitions;
              warnedMounts == Mounts(rs, |rs|) && diskWarnings == start + DiskWarnings(rs, |rs|)
    {
      warnedMounts := mounts;
      assert seen + partitions[..0] == seen;
      for k := 0 to |partitions|
        invariant var rs := seen + partitions[..k];
                  warnedMounts == Mounts(rs, |rs|) && diskWarnings == start + DiskWarnings(rs, |rs|)
      {
        var p := partitions[k];
        assert seen + partitions[..k + 1] == (seen + partitions[..k]) + [p];
        DiskSnoc(seen + partitions[..k], p);
        if p.reading.None? {
          continue;
        }
        var r := p.reading.value;
        if r.usage >= r.first && !(p.mount in warnedMounts && warnedMounts[p.mount]) {
          warnedMounts := warnedMounts[p.mount := true];
          diskWarnings := diskWarnings + [DiskWarning(p.mount, r.usage)];
        } else if r.usage < r.second {
          warnedMounts := warnedMounts[p.mount := false];
        }
      }
      assert partitions[..|partitions|] == partitions;
    }
  }

  /** A reading for which the second comparison was made, and came out below the
      threshold found then. */
  predicate RearmsAt(rs: seq<Reading>, k: nat)
    requires k < |rs|
  {
    !WarnsAt(rs, k) && rs[k].usage < rs[k].second
  }

  /** Two warnings are always separated by a reading strictly below the threshold
      it was compared with, however the threshold changes. */
  lemma WarningsSeparated(rs: seq<Reading>, i: nat, j: nat)
    requires i < j < |rs| && WarnsAt(rs, i) && WarnsAt(rs, j)
    ensures exists k :: i < k < j && RearmsAt(rs, k)
  {
    if forall k :: i < k < j ==> !RearmsAt(rs, k) {
      StaysSet(rs, i, j);
    }
  }

  lemma {:induction false} StaysSet(rs: seq<Reading>, i: nat, n: nat)
    requires i < n <= |rs| && WarnsAt(rs, i) && forall k :: i < k < n ==> !RearmsAt(rs, k)
    ensures Latch(rs, n)
  {
    if i < n - 1 {
      StaysSet(rs, i, n - 1);
      assert !RearmsAt(rs, n - 1);
    }
  }

  /** The latch is set exactly if some warning has not been followed by a reading
      below the threshold. */
  lemma {:induction false} LatchMeaning(rs: seq<Reading>, n: nat)
    requires n <= |rs|
    ensures Latch(rs, n) <==>
            exists i :: 0 <= i < n && WarnsAt(rs, i) && forall k :: i < k < n ==> rs[k].usage >= rs[k].second
  {
    if n > 0 {
      LatchMeaning(rs, n - 1);
      if Latch(rs, n) {
        if WarnsAt(rs, n - 1) {
        } else {
          var i :| 0 <= i < n - 1 && WarnsAt(rs, i) && forall k :: i < k < n - 1 ==> rs[k].usage >= rs[k].second;
          assert forall k :: i < k < n ==> rs[k].usage >= rs[k].second;
        }
      }
    }
  }

  /** How many of the first `n` readings are warned about. */
  function WarnCount(rs: seq<Reading>, n: nat): nat
    requires n <= |rs|
  {
    if n == 0 then 0 else WarnCount(rs, n - 1) + if WarnsAt(rs, n - 1) then 1 else 0
  }

  /** The warnings carry the usage values of the readings warned about, in order. */
  lemma {:induction false} WarningsMeaning(rs: seq<Reading>, n: nat, i: nat)
    requires i < n <= |rs|
    ensures WarnsAt(rs, i) <==> rs[i].usage >= rs[i].first && !Latch(rs, i)
    ensures |Warnings(rs, n)| == WarnCount(rs, n)
    ensures WarnsAt(rs, i) ==>
              WarnCount(rs, i) < |Warnings(rs, n)| && Warnings(rs, n)[WarnCount(rs, i)] == rs[i].usage
  {
    if i < n - 1 {
      WarningsMeaning(rs, n - 1, i);
    } else if i > 0 {
      WarningsMeaning(rs, n - 1, i - 1);
    }
  }

  /** With a fixed threshold the warnings are the upward crossings: a reading at or
      above the threshold that is the first one or follows one below it. */
  lemma {:induction false} WarningsAreCrossings(rs: seq<Reading>, threshold: real, i: nat)
    requires i < |rs|
    requires forall k :: 0 <= k < |rs| ==> rs[k].first == threshold && rs[k].second == threshold
    ensures WarnsAt(rs, i) <==> rs[i].usage >= threshold && (i == 0 || rs[i - 1].usage < threshold)
  {
    if i > 0 {
      FixedLatch(rs, threshold, i);
    }
  }

  lemma {:induction false} FixedLatch(rs: seq<Reading>, threshold: real, n: nat)
    requires 0 < n <= |rs|
    requires forall k :: 0 <= k < |rs| ==> rs[k].first == threshold && rs[k].second == threshold
    ensures Latch(rs, n) <==> rs[n - 1].usage >= threshold
  {
    if n > 1 {
      FixedLatch(rs, threshold, n - 1);
    }
  }

  // ------------------------------------------------------------- many latches

  datatype DiskReading = DiskReading(mount: string, reading: Option<Reading>)

  datatype DiskWarning = DiskWarning(mount: string, usage: real)

  /** All partitions read by the polls that did not fail. */
  function AllReadings(polls: seq<Option<seq<DiskReading>>>): seq<DiskReading> {
    Joined(Somes(polls))
  }

  function Joined(lists: seq<seq<DiskReading>>): seq<DiskReading> {
    if lists == [] then [] else Joined(lists[..|lists| - 1]) + lists[|lists| - 1]
  }

  /** List by list, nothing is left out and the order is kept. */
  lemma {:induction false} JoinedMeaning(a: seq<seq<DiskReading>>, b: seq<seq<DiskReading>>, list: seq<DiskReading>)
    ensures Joined(a + b) == Joined(a) + Joined(b)
    ensures Joined([]) == [] && Joined([list]) == list
  {
    assert [list][..0] == [];
    if b == [] {
      assert a + b == a;
    } else {
      JoinedMeaning(a, b[..|b| - 1], list);
      assert (a + b)[..|a + b| - 1] == a + b[..|b| - 1];
    }
  }

  function IsWarned(mounts: map<string, bool>, mount: string): bool {
    mount in mounts && mounts[mount]
  }

  predicate DiskWarnsAt(rs: seq<DiskReading>, i: nat)
    requires i < |rs|
  {
    rs[i].reading.Some? && rs[i].reading.value.usage >= rs[i].reading.value.first
    && !IsWarned(Mounts(rs, i), rs[i].mount)
  }

  /** The latches of all mounts after the first `n` readings. */
  function Mounts(rs: seq<DiskReading>, n: nat): map<string, bool>
    requires n <= |rs|
  {
    if n == 0 then map[]
    else
      var m, r := Mounts(rs, n - 1), rs[n - 1];
      if r.reading.None? then m
      else if r.reading.value.usage >= r.reading.value.first && !IsWarned(m, r.mount) then m[r.mount := true]
      else if r.reading.value.usage < r.reading.value.second then m[r.mount := false]
      else m
  }

  function DiskWarnings(rs: seq<DiskReading>, n: nat): seq<DiskWarning>
    requires n <= |rs|
  {
    if n == 0 then []
    else if DiskWarnsAt(rs, n - 1) then
      DiskWarnings(rs, n - 1) + [DiskWarning(rs[n - 1].mount, rs[n - 1].reading.value.usage)]
    else DiskWarnings(rs, n - 1)
  }

  lemma {:induction false} DiskPrefixOnly(rs: seq<DiskReading>, r: DiskReading, n: nat)
    requires n <= |rs|
    ensures Mounts(rs + [r], n) == Mounts(rs, n)
    ensures DiskWarnings(rs + [r], n) == DiskWarnings(rs, n)
  {
    if n > 0 {
      assert (rs + [r])[n - 1] == rs[n - 1];
      DiskPrefixOnly(rs, r, n - 1);
    }
  }

  lemma DiskSnoc(rs: seq<DiskReading>, r: DiskReading)
    ensures var m := Mounts(rs, |rs|);
            var m', w' := Mounts(rs + [r], |rs| + 1), DiskWarnings(rs + [r], |rs| + 1);
            if r.reading.None? then
              m' == m && w' == DiskWarnings(rs, |rs|)
            else if r.reading.value.usage >= r.reading.value.first && !IsWarned(m, r.mount) then
              m' == m[r.mount := true]
              && w' == DiskWarnings(rs, |rs|) + [DiskWarning(r.mount, r.reading.value.usage)]
            else
              m' == (if r.reading.value.usage < r.reading.value.second then m[r.mount := false] else m)
              && w' == DiskWarnings(rs, |rs|)
  {
    DiskPrefixOnly(rs, r, |rs|);
    assert (rs + [r])[|rs|] == r;
  }

  /** The readings of one mount among the first `n`. */
  function Of(rs: seq<DiskReading>, n: nat, mount: string): seq<Reading>
    requires n <= |rs|
  {
    if n == 0 then []
    else if rs[n - 1].mount == mount && rs[n - 1].reading.Some? then
      Of(rs, n - 1, mount) + [rs[n - 1].reading.value]
    else Of(rs, n - 1, mount)
  }

  /** The values warned about for one mount. */
  function WarningsFor(ws: seq<DiskWarning>, mount: string): seq<real> {
    if ws == [] then []
    else
      var init, last := WarningsFor(ws[..|ws| - 1], mount), ws[|ws| - 1];
      if last.mount == mount then init + [last.usage] else init
  }

  lemma WarningsForSnoc(ws: seq<DiskWarning>, w: DiskWarning, mount: string)
    ensures WarningsFor(ws + [w], mount) ==
            if w.mount == mount then WarningsFor(ws, mount) + [w.usage] else WarningsFor(ws, mount)
  {
    assert (ws + [w])[..|ws|] == ws;
  }

  /** The map of latches behaves as independent latches: for each mount, its latch
      and its warnings are those of a single latch fed that mount's readings. */
  lemma {:induction false} MountsIndependent(rs: seq<DiskReading>, n: nat, mount: string)
    requires n <= |rs|
    ensures var own := Of(rs, n, mount);
            && IsWarned(Mounts(rs, n), mount) == Latch(own, |own|)
            && WarningsFor(DiskWarnings(rs, n), mount) == Warnings(own, |own|)
  {
    if n > 0 {
      MountsIndependent(rs, n - 1, mount);
      var r, own := rs[n - 1], Of(rs, n - 1, mount);
      if DiskWarnsAt(rs, n - 1) {
        WarningsForSnoc(DiskWarnings(rs, n - 1), DiskWarning(r.mount, r.reading.value.usage), mount);
      }
      if r.reading.Some? {
        Snoc(own, r.reading.value);
      }
    }
  }
}
