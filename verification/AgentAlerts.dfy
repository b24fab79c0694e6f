/** The alerting state that the agent's goroutines share: the counter of failed
    sends and the worst status since the last heartbeat. */
module AgentAlerts {
  import opened Telemetry

  // ------------------------------------------------------- 32-bit arithmetic

  const TWO_31: int := 0x8000_0000

  /** A signed 32-bit word plus one. */
  function Next32(word: int): int {
    if word == TWO_31 - 1 then -TWO_31 else word + 1
  }

  /** A 32-bit word that counts from zero, after `n` increments. */
  function Word(n: nat): (word: int)
    ensures -TWO_31 <= word < TWO_31 && word <= n
  {
    if n == 0 then 0 else Next32(Word(n - 1))
  }

  /** Below 2^31 the word shows the number itself. */
  lemma {:induction false} SmallWord(n: nat)
    requires n < TWO_31
    ensures Word(n) == n
  {
    if n > 0 {
      SmallWord(n - 1);
    }
  }

  /** In general it shows the number in two's complement. */
  lemma {:induction false} WordWraps(n: nat)
    ensures Word(n) == (n + 0x8000_0000) % 0x1_0000_0000 - 0x8000_0000
  {
    if n > 0 {
      WordWraps(n - 1);
    }
  }

  // ------------------------------------------------------------------ status

  datatype Level = Info | Warn | Error {
    function Severity(): nat {
      match this case Info => 0 case Warn => 1 case Error => 2
    }
  }

  /** The interval status after an event of the given level; Info stands for ok. */
  function Raise(status: Level, level: Level): (r: Level)
    ensures r.Severity() == if level.Severity() > status.Severity() then level.Severity() else status.Severity()
  {
    if level == Error then Error
    else if level == Warn && status == Info then Warn
    else status
  }

  /** What a failed send logs when the counter shows `fc` afterwards. */
  function FailureLevel(fc: int): Option<Level> {
    if fc == 3 then Some(Error)
    else if fc > 3 then None
    else Some(Warn)
  }

  // ------------------------------------------------ one goroutine on its own

  datatype LogLine = FailureLine(level: Level, failCount: int) | RecoveryLine(failCount: int)

  /** The line that one send logs, if any. */
  function SendLine(failCount: int, ok: bool): seq<LogLine> {
    if ok then
      if failCount >= 3 then [RecoveryLine(failCount)] else []
    else
      var fc := Next32(failCount);
      match FailureLevel(fc) case Some(level) => [FailureLine(level, fc)] case None => []
  }

  class SystemCollector {
    var failCount: int
    var intervalStatus: Level
    var logged: seq<LogLine>

    constructor ()
      ensures failCount == 0 && intervalStatus == Info && logged == []
    {
      failCount, intervalStatus, logged := 0, Info, [];
    }

    method RaiseStatus(level: Level)
      modifies this`intervalStatus
      ensures intervalStatus == Raise(old(intervalStatus), level)
    {
      if level == Error {
        intervalStatus := Error;
      } else if level == Warn && intervalStatus == Info {
        intervalStatus := Warn;
      }
    }

    method PopStatus() returns (status: Level)
      modifies this`intervalStatus
      ensures status == old(intervalStatus) && intervalStatus == Info
    {
      status := intervalStatus;
      intervalStatus := Info;
    }

    method SendLog(line: LogLine)
      modifies this`intervalStatus, this`logged
      ensures logged == old(logged) + [line]
      ensures intervalStatus == Raise(old(intervalStatus), LineLevel(line))
      ensures intervalStatus == if line.FailureLine? && line.level.Error? then Error
                                else if line.FailureLine? && line.level.Warn? && old(intervalStatus).Info? then Warn
                                else old(intervalStatus)
    {
      var level := LineLevel(line);
      if level == Warn || level == Error {
        RaiseStatus(level);
      }
      logged := logged + [line];
    }

    /** One send while no other goroutine is sending; `ok` is the transport's verdict. */
    method Send(ok: bool)
      modifies this
      ensures logged == old(logged) +
                if ok then
                  if old(failCount) >= 3 then [RecoveryLine(old(failCount))] else []
                else if failCount == 3 then [FailureLine(Error, 3)]
                else if failCount > 3 then []
                else [FailureLine(Warn, failCount)]
      ensures failCount == if ok then 0 else if old(failCount) == 0x7fff_ffff then -0x8000_0000
                           else old(failCount) + 1
      ensures intervalStatus == if ok || failCount > 3 then old(intervalStatus)
                                else if failCount == 3 || old(intervalStatus).Error? then Error
                                else Warn
      ensures logged == old(logged) + SendLine(old(failCount), ok)
      ensures failCount == CountAfter(old(failCount), ok)
      ensures intervalStatus == StatusAfter(old(intervalStatus), SendLine(old(failCount), ok))
    {
      if !ok {
        failCount := Next32(failCount);
        var fc := failCount;
        var level := Warn;
        if fc == 3 {
          level := Error;
        } else if fc > 3 {
          return;
        }
        SendLog(FailureLine(level, fc));
      } else {
        var fc := failCount;
        if fc >= 3 {
          SendLog(RecoveryLine(fc));
          failCount := 0;
        } else {
          failCount := 0;
        }
      }
    }

    /** A goroutine's sends, one after the other. */
    method SendMany(outcomes: seq<bool>)
      modifies this
      ensures logged == old(logged) + LogTrace(old(failCount), outcomes)
    {
      ghost var c0 := failCount;
      for i := 0 to |outcomes|
        invariant failCount == CountAfterAll(c0, outcomes[..i])
        invariant logged == old(logged) + LogTrace(c0, outcomes[..i])
      {
        assert outcomes[..i + 1][..i] == outcomes[..i];
        Send(outcomes[i]);
      }
      assert outcomes[..|outcomes|] == outcomes;
    }
  }

  function LineLevel(line: LogLine): Level {
    match line case FailureLine(level, _) => level case RecoveryLine(_) => Info
  }

  function CountAfter(failCount: int, ok: bool): int {
    if ok then 0 else Next32(failCount)
  }

  function StatusAfter(status: Level, lines: seq<LogLine>): Level {
    if lines == [] then status else Raise(status, LineLevel(lines[0]))
  }

  function CountAfterAll(failCount: int, outcomes: seq<bool>): int {
    if outcomes == [] then failCount
    else CountAfter(CountAfterAll(failCount, outcomes[..|outcomes| - 1]), outcomes[|outcomes| - 1])
  }

  /** Everything logged by a sequence of sends. */
  function LogTrace(failCount: int, outcomes: seq<bool>): seq<LogLine> {
    if outcomes == [] then []
    else
      var init := outcomes[..|outcomes| - 1];
      LogTrace(failCount, init) + SendLine(CountAfterAll(failCount, init), outcomes[|outcomes| - 1])
  }

  // ----------------------------------------- the log trace from the streaks

  /** `n` failed sends in a row. */
  function Streak(n: nat): (s: seq<bool>)
    ensures |s| == n && forall i :: 0 <= i < n ==> !s[i]
  {
    seq(n, _ => false)
  }

  /** What a streak of `n` failures logs: two warnings at most, then one error. */
  function StreakLines(n: nat): seq<LogLine> {
    if n == 0 then []
    else if n == 1 then [FailureLine(Warn, 1)]
    else if n == 2 then [FailureLine(Warn, 1), FailureLine(Warn, 2)]
    else [FailureLine(Warn, 1), FailureLine(Warn, 2), FailureLine(Error, 3)]
  }

  lemma TraceSnoc(c: int, a: seq<bool>, ok: bool)
    ensures CountAfterAll(c, a + [ok]) == CountAfter(CountAfterAll(c, a), ok)
    ensures LogTrace(c, a + [ok]) == LogTrace(c, a) + SendLine(CountAfterAll(c, a), ok)
  {
    assert (a + [ok])[..|a|] == a;
  }

  lemma SnocConcat(a: seq<bool>, b: seq<bool>)
    requires b != []
    ensures a + b == (a + b[..|b| - 1]) + [b[|b| - 1]]
    ensures b == b[..|b| - 1] + [b[|b| - 1]]
  {
  }

  lemma {:induction false} CountConcat(c: int, a: seq<bool>, b: seq<bool>)
    ensures CountAfterAll(c, a + b) == CountAfterAll(CountAfterAll(c, a), b)
  {
    if b == [] {
      assert a + b == a;
    } else {
      SnocConcat(a, b);
      CountConcat(c, a, b[..|b| - 1]);
      TraceSnoc(c, a + b[..|b| - 1], b[|b| - 1]);
    }
  }

  lemma {:induction false} TraceConcat(c: int, a: seq<bool>, b: seq<bool>)
    ensures LogTrace(c, a + b) == LogTrace(c, a) + LogTrace(CountAfterAll(c, a), b)
  {
    if b == [] {
      assert a + b == a;
    } else {
      var init := b[..|b| - 1];
      SnocConcat(a, b);
      TraceConcat(c, a, init);
      TraceSnoc(c, a + init, b[|b| - 1]);
      CountConcat(c, a, init);
    }
  }

  lemma OneSend(c: int, ok: bool)
    ensures CountAfterAll(c, [ok]) == CountAfter(c, ok)
    ensures LogTrace(c, [ok]) == SendLine(c, ok)
  {
    assert [ok][..0] == [];
    assert CountAfterAll(c, []) == c;
    assert LogTrace(c, []) == [];
  }

  /** From a reset counter a streak of failures logs exactly its streak lines. */
  lemma {:induction false} StreakTrace(n: nat)
    requires n < TWO_31
    ensures CountAfterAll(0, Streak(n)) == n
    ensures LogTrace(0, Streak(n)) == StreakLines(n)
    ensures LogTrace(0, Streak(n)) ==
            if n == 0 then []
            else if n == 1 then [FailureLine(Warn, 1)]
            else if n == 2 then [FailureLine(Warn, 1), FailureLine(Warn, 2)]
            else [FailureLine(Warn, 1), FailureLine(Warn, 2), FailureLine(Error, 3)]
  {
    if n > 0 {
      assert Streak(n)[..n - 1] == Streak(n - 1);
      StreakTrace(n - 1);
    }
  }

  /** Streak lengths, each ended by a success, with an open streak at the end. */
  function Outcomes(streaks: seq<nat>, open: nat): seq<bool> {
    if streaks == [] then Streak(open)
    else Streak(streaks[0]) + ([true] + Outcomes(streaks[1..], open))
  }

  /** What a streak of `n` failures and the success that ends it should log. */
  function ClosedLines(n: nat): seq<LogLine> {
    StreakLines(n) + if n >= 3 then [RecoveryLine(n)] else []
  }

  function StreaksLines(streaks: seq<nat>, open: nat): seq<LogLine> {
    if streaks == [] then StreakLines(open)
    else ClosedLines(streaks[0]) + StreaksLines(streaks[1..], open)
  }

  /** Everything logged by the closed streaks and the open one: first streak first. */
  lemma OutcomesTrace(n: nat, rest: seq<bool>)
    ensures LogTrace(0, Streak(n) + ([true] + rest)) ==
            LogTrace(0, Streak(n)) + (SendLine(CountAfterAll(0, Streak(n)), true) + LogTrace(0, rest))
  {
    var c := CountAfterAll(0, Streak(n));
    TraceConcat(0, Streak(n), [true] + rest);
    TraceConcat(c, [true], rest);
    OneSend(c, true);
  }

  /** With a single sender the log is determined by the failure streaks: each
      streak logs min(n, 2) warnings and, from three failures on, one error
      and, when a success ends it, one recovery line carrying its length.  This
      holds exactly if every streak stays below 2^31 failures. */
  lemma {:induction false} SingleSenderLog(streaks: seq<nat>, open: nat)
    ensures LogTrace(0, Outcomes(streaks, open)) == StreaksLines(streaks, open) <==>
            open < TWO_31 && forall i :: 0 <= i < |streaks| ==> streaks[i] < TWO_31
  {
    if streaks == [] {
      WarningsStopUntilWrap(open);
    } else {
      var n, rest := streaks[0], streaks[1..];
      SingleSenderLog(rest, open);
      OutcomesTrace(n, Outcomes(rest, open));
      if n < TWO_31 {
        ShortStreak(n, LogTrace(0, Outcomes(rest, open)), StreaksLines(rest, open));
        FirstShort(streaks);
      } else {
        LongStreak(n, SendLine(CountAfterAll(0, Streak(n)), true) + LogTrace(0, Outcomes(rest, open)),
                   StreaksLines(rest, open));
      }
    }
  }

  lemma ShortStreak(n: nat, a: seq<LogLine>, b: seq<LogLine>)
    requires n < TWO_31
    ensures LogTrace(0, Streak(n)) + (SendLine(CountAfterAll(0, Streak(n)), true) + a) == ClosedLines(n) + b <==>
            a == b
  {
    StreakTrace(n);
    SameFront(ClosedLines(n), a, b);
    assert StreakLines(n) + (SendLine(n, true) + a) == ClosedLines(n) + a;
  }

  lemma LongStreak(n: nat, a: seq<LogLine>, b: seq<LogLine>)
    requires n >= TWO_31
    ensures LogTrace(0, Streak(n)) + a != ClosedLines(n) + b
  {
    LongStreakWarnsAgain(n);
    assert (ClosedLines(n) + b)[3] == RecoveryLine(n);
  }

  lemma SameFront(front: seq<LogLine>, a: seq<LogLine>, b: seq<LogLine>)
    ensures front + a == front + b <==> a == b
  {
    assert (front + a)[|front|..] == a && (front + b)[|front|..] == b;
  }

  lemma FirstShort(streaks: seq<nat>)
    requires streaks != [] && streaks[0] < TWO_31
    ensures (forall i :: 0 <= i < |streaks| ==> streaks[i] < TWO_31) <==>
            (forall i :: 0 <= i < |streaks[1..]| ==> streaks[1..][i] < TWO_31)
  {
    assert streaks == [streaks[0]] + streaks[1..];
  }

  /** For one streak and the success after it, line by line. */
  lemma OneStreak(n: nat)
    requires 3 <= n < TWO_31
    ensures LogTrace(0, Streak(n) + ([true] + [])) ==
            [FailureLine(Warn, 1), FailureLine(Warn, 2), FailureLine(Error, 3), RecoveryLine(n)]
  {
    StreakTrace(n);
    OutcomesTrace(n, []);
  }

  /** Every sequence of outcomes is a sequence of streaks. */
  lemma {:induction false} OutcomesAreStreaks(outcomes: seq<bool>) returns (streaks: seq<nat>, open: nat)
    ensures Outcomes(streaks, open) == outcomes
  {
    if outcomes == [] {
      streaks, open := [], 0;
    } else {
      streaks, open := OutcomesAreStreaks(outcomes[1..]);
      if outcomes[0] {
        assert [true] + outcomes[1..] == outcomes;
        streaks := [0] + streaks;
        assert Streak(0) == [];
      } else if streaks == [] {
        open := open + 1;
      } else {
        assert [false] + Streak(streaks[0]) == Streak(streaks[0] + 1);
        var more := [streaks[0] + 1] + streaks[1..];
        assert Outcomes(more, open) == [false] + Outcomes(streaks, open);
        streaks := more;
      }
    }
  }

  /** The failure number 2^31 wraps the counter and warns again: from there on a
      streak has a fourth line. */
  lemma {:induction false} LongStreakWarnsAgain(n: nat)
    requires n >= TWO_31
    ensures |LogTrace(0, Streak(n))| >= 4 && LogTrace(0, Streak(n))[3] == FailureLine(Warn, -TWO_31)
  {
    assert Streak(n) == Streak(n - 1) + [false];
    TraceSnoc(0, Streak(n - 1), false);
    if n == TWO_31 {
      StreakTrace(n - 1);
    } else {
      LongStreakWarnsAgain(n - 1);
    }
  }

  /** The bound on the length of a streak is exact. */
  lemma WarningsStopUntilWrap(n: nat)
    ensures LogTrace(0, Streak(n)) == StreakLines(n) <==> n < TWO_31
  {
    if n < TWO_31 {
      StreakTrace(n);
    } else {
      LongStreakWarnsAgain(n);
    }
  }
}
