/** A send of the interleaved agent that no other goroutine interrupts: it has the
    effect of the sequential send. */
module AgentSoloSend {
  import opened Telemetry
  import opened AgentAlerts
  import opened AgentInterleaving

  function EventLines(e: Event): seq<LogLine> {
    match e
    case FailureLog(_, _, k, level) => [FailureLine(level, Word(k))]
    case RecoveryLog(_, _, fc) => [RecoveryLine(fc)]
    case _ => []
  }

  /** The lines of the failure counter among the first `n` events. */
  function Lines(h: History, n: nat): seq<LogLine>
    requires n <= |h|
  {
    if n == 0 then [] else Lines(h, n - 1) + EventLines(h[n - 1])
  }

  /** All lines of the failure counter so far. */
  function Logged(s: State): seq<LogLine> {
    Lines(s.history, |s.history|)
  }

  lemma {:induction false} LinesStable(h: History, e: Event, n: nat)
    requires n <= |h|
    ensures Lines(h + [e], n) == Lines(h, n)
  {
    if n > 0 {
      assert (h + [e])[n - 1] == h[n - 1];
      LinesStable(h, e, n - 1);
    }
  }

  /** The line that a step logs, if any. */
  function StepLines(s: State, step: Step): seq<LogLine>
    requires Enabled(s, step)
  {
    match step
    case LogFailure(t) =>
      (match FailureLevel(s.At(t).fc)
       case None => []
       case Some(level) => [FailureLine(level, Word(s.At(t).k))])
    case LogRecovery(t) => [RecoveryLine(s.At(t).fc)]
    case _ => []
  }

  lemma LinesStep(s: State, step: Step)
    requires Enabled(s, step)
    ensures Logged(Apply(s, step)) == Logged(s) + StepLines(s, step)
  {
    var h, h' := s.history, Apply(s, step).history;
    if h' != h {
      assert h' == h + [h'[|h|]];
      LinesStable(h, h'[|h|], |h|);
    }
  }

  /** The steps of one send that no other goroutine interrupts. */
  function SoloSteps(t: Sender, counter: int, ok: bool): seq<Step> {
    if !ok then [SendFails(t), LogFailure(t)]
    else if counter >= 3 then [SendSucceeds(t), LogRecovery(t), Reset(t)]
    else [SendSucceeds(t), Reset(t)]
  }

  /** The effect of one uninterrupted send. */
  ghost predicate IsSend(s: State, r: Option<State>, t: Sender, ok: bool) {
    && r.Some? && r.value.At(t) == Idle
    && r.value.counter == CountAfter(s.counter, ok)
    && r.value.status == StatusAfter(s.status, SendLine(s.counter, ok))
    && Logged(r.value) == Logged(s) + SendLine(s.counter, ok)
  }

  /** Uninterrupted, the atomic steps amount to the sequential send. */
  lemma SoloSend(steps: seq<Step>, t: Sender, ok: bool)
    requires Run(steps).Some? && Run(steps).value.At(t) == Idle
    ensures var s := Run(steps).value;
            IsSend(s, Run(steps + SoloSteps(t, s.counter, ok)), t, ok)
  {
    var s := Run(steps).value;
    if !ok {
      EveryRun(steps);
      FailureEffect(s, t);
      RunTwo(steps, SendFails(t), LogFailure(t));
    } else {
      SuccessEffect(s, t);
      if s.counter >= 3 {
        var read, logged := SendSucceeds(t), LogRecovery(t);
        RunTwo(steps, read, logged);
        RunSnoc(steps + [read, logged], Reset(t));
        assert steps + [read, logged, Reset(t)] == steps + [read, logged] + [Reset(t)];
      } else {
        RunTwo(steps, SendSucceeds(t), Reset(t));
      }
    }
  }

  lemma SuccessEffect(s: State, t: Sender)
    requires s.At(t) == Idle
    ensures var s1 := Apply(s, SendSucceeds(t));
            if s.counter >= 3 then
              Enabled(s1, LogRecovery(t))
              && var s2 := Apply(s1, LogRecovery(t));
              Enabled(s2, Reset(t)) && IsSend(s, Some(Apply(s2, Reset(t))), t, true)
            else
              Enabled(s1, Reset(t)) && IsSend(s, Some(Apply(s1, Reset(t))), t, true)
  {
    ReadEffect(s, t);
    var s1 := Apply(s, SendSucceeds(t));
    if s.counter >= 3 {
      RecoveryEffect(s1, t);
      ResetEffect(Apply(s1, LogRecovery(t)), t);
    } else {
      ResetEffect(s1, t);
    }
  }

  lemma ReadEffect(s: State, t: Sender)
    requires s.At(t) == Idle
    ensures var s' := Apply(s, SendSucceeds(t));
            && s'.At(t).Succeeded? && s'.At(t).fc == s.counter
            && s'.status == s.status && Logged(s') == Logged(s)
  {
    LinesStep(s, SendSucceeds(t));
  }

  lemma RecoveryEffect(s: State, t: Sender)
    requires s.At(t).Succeeded? && s.At(t).fc >= 3
    ensures var s' := Apply(s, LogRecovery(t));
            && s'.At(t).Recovered? && s'.status == StatusAfter(s.status, [RecoveryLine(s.At(t).fc)])
            && Logged(s') == Logged(s) + [RecoveryLine(s.At(t).fc)]
  {
    LinesStep(s, LogRecovery(t));
  }

  lemma ResetEffect(s: State, t: Sender)
    requires Enabled(s, Reset(t))
    ensures var s' := Apply(s, Reset(t));
            s'.At(t) == Idle && s'.counter == 0 && s'.status == s.status && Logged(s') == Logged(s)
  {
    LinesStep(s, Reset(t));
  }

  lemma FailureEffect(s: State, t: Sender)
    requires WordsOk(s) && s.At(t) == Idle
    ensures var s1 := Apply(s, SendFails(t));
            Enabled(s1, LogFailure(t)) && IsSend(s, Some(Apply(s1, LogFailure(t))), t, false)
  {
    var s1 := Apply(s, SendFails(t));
    FailureNoted(s, t);
    FailureLogged(s1, t, SendLine(s.counter, false));
  }

  lemma FailureNoted(s: State, t: Sender)
    requires WordsOk(s) && s.At(t) == Idle
    ensures var s' := Apply(s, SendFails(t));
            && s'.At(t).Failed? && s'.At(t).fc == s'.counter == CountAfter(s.counter, false)
            && s'.At(t).fc == Word(s'.At(t).k)
            && s'.status == s.status && Logged(s') == Logged(s)
  {
    LinesStep(s, SendFails(t));
  }

  /** The line and the status that the second half of a failed send leaves. */
  lemma FailureLogged(s: State, t: Sender, lines: seq<LogLine>)
    requires s.At(t).Failed? && s.At(t).fc == Word(s.At(t).k)
    requires lines == match FailureLevel(s.At(t).fc)
                      case None => [] case Some(level) => [FailureLine(level, s.At(t).fc)]
    ensures var s' := Apply(s, LogFailure(t));
            && s'.At(t) == Idle && s'.counter == s.counter
            && s'.status == StatusAfter(s.status, lines)
            && Logged(s') == Logged(s) + lines
  {
    LinesStep(s, LogFailure(t));
  }
}
