/** The agent's goroutines interleaved.  Four senders share the failure counter;
    every goroutine logs through the shared status register and one of them
    emits the heartbeats.  Each access to shared state is one step. */
module AgentInterleaving {
  import opened Telemetry
  import opened AgentAlerts

  datatype Sender = Cpu | Memory | Disk | Network

  /** What has happened so far.  An epoch is the time between two resets of the
      counter; `k` numbers the failures of an epoch from one. */
  datatype Event =
    | Added(who: Sender, epoch: nat, k: nat, fc: int)
    | Loaded(who: Sender, epoch: nat, fc: int)
    | Stored(who: Sender)
    | FailureLog(who: Sender, epoch: nat, k: nat, level: Level)
    | RecoveryLog(who: Sender, epoch: nat, fc: int)
    | OtherLog(level: Level)
    | Heartbeat(status: Level)

  type History = seq<Event>

  /** Where a sender stands inside one send. */
  datatype Pc =
    | Idle
    | Failed(epoch: nat, k: nat, fc: int)
    | Succeeded(epoch: nat, fc: int)
    | Recovered(epoch: nat)

  datatype State = State(counter: int, status: Level, pc: map<Sender, Pc>, history: History) {
    function At(t: Sender): Pc { if t in pc then pc[t] else Idle }
  }

  datatype Step =
    | SendFails(who: Sender)      // the transport fails; the counter is incremented
    | LogFailure(who: Sender)     // the line for that failure is logged, or skipped
    | SendSucceeds(who: Sender)   // the transport succeeds; the counter is read
    | LogRecovery(who: Sender)    // a count of at least three was read
    | Reset(who: Sender)          // zero is stored
    | LogOther(level: Level)      // any other log entry of any goroutine
    | Beat                        // the heartbeat takes and clears the status

  const INIT := State(0, Info, map[], [])

  predicate Enabled(s: State, step: Step) {
    match step
    case SendFails(t) => s.At(t).Idle?
    case LogFailure(t) => s.At(t).Failed?
    case SendSucceeds(t) => s.At(t).Idle?
    case LogRecovery(t) => s.At(t).Succeeded? && s.At(t).fc >= 3
    case Reset(t) => s.At(t).Recovered? || (s.At(t).Succeeded? && s.At(t).fc < 3)
    case LogOther(_) => true
    case Beat => true
  }

  function Apply(s: State, step: Step): State
    requires Enabled(s, step)
  {
    var h := s.history;
    var n := |h|;
    match step
    case SendFails(t) =>
      var fc := Next32(s.counter);
      s.(counter := fc,
         pc := s.pc[t := Failed(Epoch(h, n), Fails(h, n) + 1, fc)],
         history := h + [Added(t, Epoch(h, n), Fails(h, n) + 1, fc)])
    case LogFailure(t) =>
      var Failed(e, k, fc) := s.At(t);
      match FailureLevel(fc) {
        case None => s.(pc := s.pc[t := Idle])
        case Some(level) =>
          s.(status := Raise(s.status, level),
             pc := s.pc[t := Idle],
             history := h + [FailureLog(t, e, k, level)])
      }
    case SendSucceeds(t) =>
      s.(pc := s.pc[t := Succeeded(Epoch(h, n), s.counter)],
         history := h + [Loaded(t, Epoch(h, n), s.counter)])
    case LogRecovery(t) =>
      var Succeeded(e, fc) := s.At(t);
      s.(pc := s.pc[t := Recovered(e)], history := h + [RecoveryLog(t, e, fc)])
    case Reset(t) =>
      s.(counter := 0, pc := s.pc[t := Idle], history := h + [Stored(t)])
    case LogOther(level) =>
      s.(status := Raise(s.status, level), history := h + [OtherLog(level)])
    case Beat =>
      s.(status := Info, history := h + [Heartbeat(s.status)])
  }

  /** The state after a run, or None when a step was not possible. */
  function Run(steps: seq<Step>): Option<State> {
    if steps == [] then Some(INIT)
    else match Run(steps[..|steps| - 1])
      case None => None
      case Some(s) =>
        var step := steps[|steps| - 1];
        if Enabled(s, step) then Some(Apply(s, step)) else None
  }

  // ------------------------------------------- reading the history on its own

  /** Number of counter resets among the first `n` events. */
  function Epoch(h: History, n: nat): nat
    requires n <= |h|
  {
    if n == 0 then 0 else Epoch(h, n - 1) + if h[n - 1].Stored? then 1 else 0
  }

  /** Number of failures among the first `n` events since the last reset. */
  function Fails(h: History, n: nat): nat
    requires n <= |h|
  {
    if n == 0 || h[n - 1].Stored? then 0
    else Fails(h, n - 1) + if h[n - 1].Added? then 1 else 0
  }

  /** The level at which an event was logged. */
  function LogLevel(e: Event): Level {
    match e
    case FailureLog(_, _, _, level) => level
    case OtherLog(level) => level
    case _ => Info
  }

  /** The worst level logged among the first `n` events since the last heartbeat. */
  function Worst(h: History, n: nat): Level
    requires n <= |h|
  {
    if n == 0 || h[n - 1].Heartbeat? then Info
    else
      var before, level := Worst(h, n - 1), LogLevel(h[n - 1]);
      if level.Severity() > before.Severity() then level else before
  }

  lemma {:induction false} PrefixStable(h: History, e: Event, n: nat)
    requires n <= |h|
    ensures Epoch(h + [e], n) == Epoch(h, n)
    ensures Fails(h + [e], n) == Fails(h, n)
    ensures Worst(h + [e], n) == Worst(h, n)
  {
    if n > 0 {
      assert (h + [e])[n - 1] == h[n - 1];
      PrefixStable(h, e, n - 1);
    }
  }

  lemma {:induction false} EpochMonotone(h: History, m: nat, n: nat)
    requires m <= n <= |h|
    ensures Epoch(h, m) <= Epoch(h, n)
    ensures Epoch(h, m) == Epoch(h, n) ==> Fails(h, m) <= Fails(h, n)
    decreases n
  {
    if m < n {
      EpochMonotone(h, m, n - 1);
    }
  }

  /** If an epoch has seen `m` failures, one of them was number `m`. */
  lemma {:induction false} FailureNumbered(h: History, n: nat, m: nat) returns (i: nat)
    requires n <= |h| && 1 <= m <= Fails(h, n)
    ensures i < n && h[i].Added? && Epoch(h, i) == Epoch(h, n) && Fails(h, i) + 1 == m
  {
    if h[n - 1].Added? && Fails(h, n) == m {
      i := n - 1;
    } else {
      i := FailureNumbered(h, n - 1, m);
    }
  }

  // --------------------------------------- the shared words match the history

  predicate EventOk(h: History, i: nat)
    requires i < |h|
  {
    match h[i]
    case Added(_, e, k, fc) => e == Epoch(h, i) && k == Fails(h, i) + 1 && fc == Word(k)
    case Loaded(_, e, fc) => e == Epoch(h, i) && fc == Word(Fails(h, i))
    case Heartbeat(status) => status == Worst(h, i)
    case _ => true
  }

  ghost predicate WordsOk(s: State) {
    && s.counter == Word(Fails(s.history, |s.history|))
    && s.status == Worst(s.history, |s.history|)
    && forall i :: 0 <= i < |s.history| ==> EventOk(s.history, i)
  }

  lemma EventsOkAppend(h: History, e: Event)
    requires forall i :: 0 <= i < |h| ==> EventOk(h, i)
    requires EventOk(h + [e], |h|)
    ensures forall i :: 0 <= i < |h + [e]| ==> EventOk(h + [e], i)
  {
    forall i: nat | i < |h| ensures EventOk(h + [e], i) {
      PrefixStable(h, e, i);
      assert EventOk(h, i);
    }
  }

  lemma WordsStep(s: State, step: Step)
    requires WordsOk(s) && Enabled(s, step)
    ensures WordsOk(Apply(s, step))
  {
    var s' := Apply(s, step);
    var h := s.history;
    if s'.history != h {
      var e := s'.history[|h|];
      assert s'.history == h + [e];
      PrefixStable(h, e, |h|);
      NewEventOk(s, step);
      EventsOkAppend(h, e);
      LastEvent(h, e);
    }
  }

  lemma LastEvent(h: History, e: Event)
    ensures var n := |h|;
            && Fails(h + [e], n + 1) == (if e.Stored? then 0 else Fails(h, n) + if e.Added? then 1 else 0)
            && Epoch(h + [e], n + 1) == Epoch(h, n) + (if e.Stored? then 1 else 0)
            && Worst(h + [e], n + 1) ==
                 if e.Heartbeat? then Info
                 else if LogLevel(e).Severity() > Worst(h, n).Severity() then LogLevel(e) else Worst(h, n)
  {
    PrefixStable(h, e, |h|);
    assert (h + [e])[|h|] == e;
  }

  lemma NewEventOk(s: State, step: Step)
    requires WordsOk(s) && Enabled(s, step) && Apply(s, step).history != s.history
    ensures EventOk(Apply(s, step).history, |s.history|)
  {
    var h, h' := s.history, Apply(s, step).history;
    PrefixStable(h, h'[|h|], |h|);
  }

  /** The sender a step belongs to. */
  predicate By(step: Step, t: Sender) {
    !step.LogOther? && !step.Beat? && step.who == t
  }

  lemma Frame(s: State, step: Step)
    requires Enabled(s, step)
    ensures var s' := Apply(s, step);
            && (forall t :: !By(step, t) ==> s'.At(t) == s.At(t))
            && |s.history| <= |s'.history| <= |s.history| + 1
            && (forall i :: 0 <= i < |s.history| ==> s'.history[i] == s.history[i])
            && (forall e :: e in s.history ==> e in s'.history)
  {
  }

  // -------------------------------------------------- failure lines are unique

  /** Sender `t` has seen failure `k` of epoch `e` and not yet logged it. */
  predicate IsPending(s: State, t: Sender, e: nat, k: nat) {
    s.At(t).Failed? && s.At(t).epoch == e && s.At(t).k == k
  }

  predicate IsLog(h: History, i: nat, e: nat, k: nat) {
    i < |h| && h[i].FailureLog? && h[i].epoch == e && h[i].k == k
  }

  /** Event `i` is the failure that log line `j` reports. */
  predicate Reports(h: History, i: nat, j: nat)
    requires i < |h| && j < |h| && h[j].FailureLog?
  {
    h[i].Added? && h[i].who == h[j].who && h[i].epoch == h[j].epoch && h[i].k == h[j].k
    && FailureLevel(h[i].fc) == Some(h[j].level)
  }

  ghost predicate HasReport(h: History, j: nat)
    requires j < |h|
  {
    h[j].FailureLog? ==> exists i: nat :: i < j && Reports(h, i, j)
  }

  ghost predicate HasFailure(s: State, t: Sender) {
    s.At(t).Failed? ==> Added(t, s.At(t).epoch, s.At(t).k, s.At(t).fc) in s.history
  }

  ghost predicate LogsReport(s: State) {
    && (forall t :: HasFailure(s, t))
    && (forall j :: 0 <= j < |s.history| ==> HasReport(s.history, j))
  }

  lemma LogsReportStep(s: State, step: Step)
    requires LogsReport(s) && Enabled(s, step)
    ensures LogsReport(Apply(s, step))
  {
    var s' := Apply(s, step);
    var h, h' := s.history, s'.history;
    Frame(s, step);
    forall t ensures HasFailure(s', t) {
      assert HasFailure(s, t);
    }
    forall j: nat | j < |h'| ensures HasReport(h', j) {
      if j < |h| {
        assert HasReport(h, j);
        if h[j].FailureLog? {
          var i: nat :| i < j && Reports(h, i, j);
          assert Reports(h', i, j);
        }
      } else if h'[j].FailureLog? {
        var t := step.who;
        assert HasFailure(s, t);
        var a := Added(t, s.At(t).epoch, s.At(t).k, s.At(t).fc);
        var i: nat :| i < |h| && h[i] == a;
        assert Reports(h', i, j);
      }
    }
  }

  ghost predicate LogsUnique(s: State) {
    && (forall i: nat, j: nat, e: nat, k: nat :: IsLog(s.history, i, e, k) && IsLog(s.history, j, e, k) ==> i == j)
    && (forall t, i: nat, e: nat, k: nat :: IsPending(s, t, e, k) ==> !IsLog(s.history, i, e, k))
    && (forall t, t', e: nat, k: nat :: IsPending(s, t, e, k) && IsPending(s, t', e, k) ==> t == t')
  }

  /** The tags of a new failure have not been used before. */
  lemma NewFailureIsFresh(s: State, i: nat)
    requires WordsOk(s) && LogsReport(s)
    ensures var h := s.history;
            && (i < |h| && h[i].Added? ==> h[i].epoch != Epoch(h, |h|) || h[i].k != Fails(h, |h|) + 1)
            && !IsLog(h, i, Epoch(h, |h|), Fails(h, |h|) + 1)
  {
    var h := s.history;
    if i < |h| && h[i].FailureLog? {
      assert HasReport(h, i);
      var j: nat :| j < i && Reports(h, j, i);
      NewFailureIsFresh(s, j);
    } else if i < |h| && h[i].Added? {
      assert EventOk(h, i);
      EpochMonotone(h, i + 1, |h|);
    }
  }

  lemma NewFailureNotPending(s: State, t: Sender)
    requires WordsOk(s) && LogsReport(s)
    ensures !IsPending(s, t, Epoch(s.history, |s.history|), Fails(s.history, |s.history|) + 1)
  {
    if s.At(t).Failed? {
      assert HasFailure(s, t);
      var a := Added(t, s.At(t).epoch, s.At(t).k, s.At(t).fc);
      var i: nat :| i < |s.history| && s.history[i] == a;
      NewFailureIsFresh(s, i);
    }
  }

  lemma LogsUniqueStep(s: State, step: Step)
    requires WordsOk(s) && LogsReport(s) && LogsUnique(s) && Enabled(s, step)
    ensures LogsUnique(Apply(s, step))
  {
    Frame(s, step);
    var s' := Apply(s, step);
    var h, h' := s.history, s'.history;
    if step.SendFails? {
      var e, k := Epoch(h, |h|), Fails(h, |h|) + 1;
      forall i: nat ensures !IsLog(h, i, e, k) {
        NewFailureIsFresh(s, i);
      }
      forall t ensures !IsPending(s, t, e, k) {
        NewFailureNotPending(s, t);
      }
    }
    forall t, e: nat, k: nat | IsPending(s', t, e, k)
      ensures IsPending(s, t, e, k) || (step == SendFails(t) && e == Epoch(h, |h|) && k == Fails(h, |h|) + 1)
    {
    }
    forall i: nat, e: nat, k: nat | IsLog(h', i, e, k)
      ensures IsLog(h, i, e, k) || (step.LogFailure? && i == |h| && IsPending(s, step.who, e, k))
    {
    }
  }

  // ------------------------------------------- recovery lines, one per epoch

  /** Recovery lines of sender `t` belong to epochs below this bound. */
  function RecoveryBound(s: State, t: Sender): nat {
    match s.At(t)
    case Succeeded(e, _) => e
    case Recovered(e) => e + 1
    case _ => Epoch(s.history, |s.history|)
  }

  ghost predicate HasLoad(s: State, t: Sender) {
    s.At(t).Succeeded? ==> Loaded(t, s.At(t).epoch, s.At(t).fc) in s.history
  }

  ghost predicate FollowsLoad(h: History, j: nat)
    requires j < |h|
  {
    h[j].RecoveryLog? ==>
      h[j].fc >= 3 && exists i: nat :: i < j && h[i] == Loaded(h[j].who, h[j].epoch, h[j].fc)
  }

  ghost predicate LoadsOk(s: State) {
    && (forall t :: HasLoad(s, t))
    && (forall j :: 0 <= j < |s.history| ==> FollowsLoad(s.history, j))
  }

  lemma LoadsStep(s: State, step: Step)
    requires LoadsOk(s) && Enabled(s, step)
    ensures LoadsOk(Apply(s, step))
  {
    var s' := Apply(s, step);
    var h, h' := s.history, s'.history;
    Frame(s, step);
    forall t ensures HasLoad(s', t) {
      assert HasLoad(s, t);
    }
    forall j: nat | j < |h'| ensures FollowsLoad(h', j) {
      if j < |h| {
        assert FollowsLoad(h, j);
        if h[j].RecoveryLog? {
          var i: nat :| i < j && h[i] == Loaded(h[j].who, h[j].epoch, h[j].fc);
          assert h'[i] == h[i];
        }
      } else if h'[j].RecoveryLog? {
        var t := step.who;
        assert HasLoad(s, t);
        var i: nat :| i < |h| && h[i] == Loaded(t, s.At(t).epoch, s.At(t).fc);
        assert h'[i] == h[i];
      }
    }
  }

  /** A read of three or more has led to a recovery line, or is about to. */
  ghost predicate Answered(s: State, i: nat)
    requires i < |s.history|
  {
    var e := s.history[i];
    e.Loaded? && e.fc >= 3 ==>
      || RecoveryLog(e.who, e.epoch, e.fc) in s.history
      || s.At(e.who) == Succeeded(e.epoch, e.fc)
  }

  ghost predicate ReadsAnswered(s: State) {
    forall i :: 0 <= i < |s.history| ==> Answered(s, i)
  }

  lemma ReadsAnsweredStep(s: State, step: Step)
    requires ReadsAnswered(s) && Enabled(s, step)
    ensures ReadsAnswered(Apply(s, step))
  {
    var s' := Apply(s, step);
    Frame(s, step);
    forall i | 0 <= i < |s'.history| ensures Answered(s', i) {
      if i < |s.history| {
        assert Answered(s, i);
        if step.LogRecovery? {
          assert s'.history[|s.history|] == RecoveryLog(step.who, s.At(step.who).epoch, s.At(step.who).fc);
        }
      }
    }
  }

  predicate IsRecovery(h: History, j: nat, t: Sender) {
    j < |h| && h[j].RecoveryLog? && h[j].who == t
  }

  ghost predicate RecoveriesOk(s: State) {
    && (forall t :: RecoveryBound(s, t) <= Epoch(s.history, |s.history|) + if s.At(t).Recovered? then 1 else 0)
    && (forall j: nat, t :: IsRecovery(s.history, j, t) ==> s.history[j].epoch < RecoveryBound(s, t))
    && (forall i: nat, j: nat, t :: i < j && IsRecovery(s.history, i, t) && IsRecovery(s.history, j, t) ==>
          s.history[i].epoch < s.history[j].epoch)
  }

  lemma BoundGrows(s: State, step: Step, t: Sender)
    requires RecoveriesOk(s) && Enabled(s, step)
    ensures var s' := Apply(s, step);
            && RecoveryBound(s, t) <= RecoveryBound(s', t)
            && RecoveryBound(s', t) <= Epoch(s'.history, |s'.history|) + if s'.At(t).Recovered? then 1 else 0
  {
    var s' := Apply(s, step);
    var h, h' := s.history, s'.history;
    Frame(s, step);
    assert RecoveryBound(s, t) <= Epoch(h, |h|) + if s.At(t).Recovered? then 1 else 0;
    if h' != h {
      assert h' == h + [h'[|h|]];
      PrefixStable(h, h'[|h|], |h|);
    }
  }

  lemma RecoveriesStep(s: State, step: Step)
    requires RecoveriesOk(s) && Enabled(s, step)
    ensures RecoveriesOk(Apply(s, step))
  {
    var s' := Apply(s, step);
    var h, h' := s.history, s'.history;
    Frame(s, step);
    forall t
      ensures RecoveryBound(s, t) <= RecoveryBound(s', t)
      ensures RecoveryBound(s', t) <= Epoch(s'.history, |s'.history|) + if s'.At(t).Recovered? then 1 else 0
    {
      BoundGrows(s, step, t);
    }
    forall j: nat, t | IsRecovery(h', j, t)
      ensures IsRecovery(h, j, t) || (step == LogRecovery(t) && j == |h| && h'[j].epoch == RecoveryBound(s, t))
    {
    }
  }

  // ------------------------------------------------------------ all the runs

  ghost predicate Inv(s: State) {
    WordsOk(s) && LogsReport(s) && LogsUnique(s) && LoadsOk(s) && ReadsAnswered(s) && RecoveriesOk(s)
  }

  lemma InitialState()
    ensures Inv(INIT)
  {
    assert forall t :: INIT.At(t) == Idle;
    assert forall t :: HasFailure(INIT, t) && HasLoad(INIT, t) && RecoveryBound(INIT, t) == 0;
  }

  /** Every reachable state satisfies the invariant. */
  lemma {:induction false} EveryRun(steps: seq<Step>)
    requires Run(steps).Some?
    ensures Inv(Run(steps).value)
  {
    if steps == [] {
      InitialState();
    } else {
      var init, step := steps[..|steps| - 1], steps[|steps| - 1];
      EveryRun(init);
      var s := Run(init).value;
      WordsStep(s, step);
      LogsReportStep(s, step);
      LogsUniqueStep(s, step);
      LoadsStep(s, step);
      ReadsAnsweredStep(s, step);
      RecoveriesStep(s, step);
    }
  }

  /** Failures between two resets see 1, 2, 3, ...: whatever the interleaving, a
      failure reads one more than the number of failures since the last reset,
      as a 32-bit word. */
  lemma FailuresCountUp(steps: seq<Step>, i: nat)
    requires Run(steps).Some? && i < |Run(steps).value.history|
    ensures var h := Run(steps).value.history;
            h[i].Added? ==> h[i].fc == Word(Fails(h, i) + 1)
  {
    EveryRun(steps);
    assert EventOk(Run(steps).value.history, i);
  }

  /** The epoch has seen fewer than 2^31 failures. */
  ghost predicate ShortEpoch(h: History, e: nat) {
    forall i :: 0 <= i < |h| && h[i].Added? && h[i].epoch == e ==> h[i].k < TWO_31
  }

  /** A failure line names a failure of its epoch; below 2^31 failures a warning
      is number one or two and an error number three. */
  lemma FailureLineMeaning(steps: seq<Step>, j: nat)
    requires Run(steps).Some?
    requires var h := Run(steps).value.history;
             j < |h| && h[j].FailureLog? && ShortEpoch(h, h[j].epoch)
    ensures var h := Run(steps).value.history;
            match h[j].level case Warn => 1 <= h[j].k <= 2 case Error => h[j].k == 3 case Info => false
  {
    EveryRun(steps);
    var h := Run(steps).value.history;
    assert HasReport(h, j);
    var i: nat :| i < j && Reports(h, i, j);
    assert EventOk(h, i) && h[i].k < TWO_31;
    SmallWord(h[i].k);
  }

  /** Two failure lines of an epoch report different failures. */
  lemma LinesDiffer(steps: seq<Step>, a: nat, b: nat)
    requires Run(steps).Some?
    requires var h := Run(steps).value.history;
             a < b < |h| && h[a].FailureLog? && h[b].FailureLog? && h[a].epoch == h[b].epoch
    ensures var h := Run(steps).value.history; h[a].k != h[b].k
  {
    EveryRun(steps);
    var h := Run(steps).value.history;
    assert IsLog(h, a, h[a].epoch, h[a].k) && IsLog(h, b, h[b].epoch, h[b].k);
  }

  /** In any interleaving an epoch of fewer than 2^31 failures logs at most one error. */
  lemma OneErrorPerEpoch(steps: seq<Step>, a: nat, b: nat)
    requires Run(steps).Some?
    requires var h := Run(steps).value.history;
             && a < b < |h| && h[a].FailureLog? && h[b].FailureLog?
             && h[a].epoch == h[b].epoch && ShortEpoch(h, h[a].epoch)
    ensures var h := Run(steps).value.history; h[a].level != Error || h[b].level != Error
  {
    LinesDiffer(steps, a, b);
    FailureLineMeaning(steps, a);
    FailureLineMeaning(steps, b);
  }

  /** In any interleaving an epoch of fewer than 2^31 failures logs at most two warnings. */
  lemma TwoWarningsPerEpoch(steps: seq<Step>, a: nat, b: nat, c: nat)
    requires Run(steps).Some?
    requires var h := Run(steps).value.history;
             && a < b < c < |h| && h[a].FailureLog? && h[b].FailureLog? && h[c].FailureLog?
             && h[a].epoch == h[b].epoch == h[c].epoch && ShortEpoch(h, h[a].epoch)
    ensures var h := Run(steps).value.history;
            h[a].level != Warn || h[b].level != Warn || h[c].level != Warn
  {
    LinesDiffer(steps, a, b);
    LinesDiffer(steps, a, c);
    LinesDiffer(steps, b, c);
    FailureLineMeaning(steps, a);
    FailureLineMeaning(steps, b);
    FailureLineMeaning(steps, c);
  }

  /** A recovery line implies that, in the epoch of its read, a failure saw the
      count three, before the read. */
  lemma RecoveryNeedsThirdFailure(steps: seq<Step>, j: nat) returns (i: nat)
    requires Run(steps).Some?
    requires var h := Run(steps).value.history; j < |h| && h[j].RecoveryLog?
    ensures var h := Run(steps).value.history;
            i < j && h[i].Added? && h[i].epoch == h[j].epoch && h[i].fc == 3
  {
    EveryRun(steps);
    var h := Run(steps).value.history;
    assert FollowsLoad(h, j);
    var l: nat :| l < j && h[l] == Loaded(h[j].who, h[j].epoch, h[j].fc);
    assert EventOk(h, l);
    i := FailureNumbered(h, l, 3);
    SmallWord(3);
    assert EventOk(h, i);
  }

  /** Recovery lines for one epoch come from different senders: at most four. */
  lemma RecoveriesPerEpoch(steps: seq<Step>, i: nat, j: nat)
    requires Run(steps).Some?
    requires var h := Run(steps).value.history;
             i < j < |h| && h[i].RecoveryLog? && h[j].RecoveryLog? && h[i].epoch == h[j].epoch
    ensures var h := Run(steps).value.history; h[i].who != h[j].who
  {
    EveryRun(steps);
    var h := Run(steps).value.history;
    assert IsRecovery(h, i, h[i].who) && IsRecovery(h, j, h[j].who);
  }

  lemma FourRecoveriesPerEpoch(steps: seq<Step>, lines: seq<nat>, e: nat)
    requires Run(steps).Some?
    requires forall m, n :: 0 <= m < n < |lines| ==> lines[m] < lines[n]
    requires var h := Run(steps).value.history;
             forall m :: 0 <= m < |lines| ==>
               lines[m] < |h| && h[lines[m]].RecoveryLog? && h[lines[m]].epoch == e
    ensures |lines| <= 4
  {
    var h := Run(steps).value.history;
    var senders := seq(|lines|, m requires 0 <= m < |lines| => h[lines[m]].who);
    forall m, n | 0 <= m < n < |senders| ensures senders[m] != senders[n] {
      RecoveriesPerEpoch(steps, lines[m], lines[n]);
    }
    var all := {Cpu, Memory, Disk, Network};
    forall t: Sender ensures t in all {
      match t case Cpu => case Memory => case Disk => case Network =>
    }
    NoDuplicatesBound(senders, all);
  }

  /** When every sender is between two sends, an epoch has a recovery line
      exactly if some success read the counter in it after its third failure.
      A success that read the counter earlier resets it without a word. */
  lemma RecoveryIffLateRead(steps: seq<Step>, e: nat)
    requires Run(steps).Some?
    requires forall t :: Run(steps).value.At(t) == Idle
    ensures var h := Run(steps).value.history;
            (exists j :: 0 <= j < |h| && h[j].RecoveryLog? && h[j].epoch == e) <==>
            (exists i :: 0 <= i < |h| && h[i].Loaded? && Epoch(h, i) == e && Word(Fails(h, i)) >= 3)
  {
    EveryRun(steps);
    var s := Run(steps).value;
    var h := s.history;
    if j :| 0 <= j < |h| && h[j].RecoveryLog? && h[j].epoch == e {
      assert FollowsLoad(h, j);
      var i: nat :| i < j && h[i] == Loaded(h[j].who, h[j].epoch, h[j].fc);
      assert EventOk(h, i);
    }
    if i :| 0 <= i < |h| && h[i].Loaded? && Epoch(h, i) == e && Word(Fails(h, i)) >= 3 {
      assert EventOk(h, i) && Answered(s, i);
      assert s.At(h[i].who) == Idle;
      var j: nat :| j < |h| && h[j] == RecoveryLog(h[i].who, h[i].epoch, h[i].fc);
    }
  }

  lemma RunSnoc(steps: seq<Step>, step: Step)
    requires Run(steps).Some? && Enabled(Run(steps).value, step)
    ensures Run(steps + [step]) == Some(Apply(Run(steps).value, step))
  {
    assert (steps + [step])[..|steps + [step]| - 1] == steps;
  }

  lemma RunTwo(steps: seq<Step>, a: Step, b: Step)
    requires Run(steps).Some? && Enabled(Run(steps).value, a) && Enabled(Apply(Run(steps).value, a), b)
    ensures Run(steps + [a, b]) == Some(Apply(Apply(Run(steps).value, a), b))
  {
    RunSnoc(steps, a);
    RunSnoc(steps + [a], b);
    assert steps + [a, b] == steps + [a] + [b];
  }

  /** One of the first three failures of an epoch, by `t`. */
  lemma FailureRun(steps: seq<Step>, t: Sender) returns (more: seq<Step>, added: Event, logged: Event)
    requires Run(steps).Some? && Run(steps).value.At(t) == Idle
    requires 0 <= Run(steps).value.counter < 3
    ensures more == steps + [SendFails(t), LogFailure(t)]
    ensures Run(more).Some?
    ensures var s, s' := Run(steps).value, Run(more).value;
            && s'.counter == s.counter + 1
            && s'.pc == s.pc[t := Idle]
            && s'.history == s.history + [added, logged]
            && added.Added? && logged.FailureLog? && Some(logged.level) == FailureLevel(s'.counter)
  {
    var s := Run(steps).value;
    var s1 := Apply(s, SendFails(t));
    added := Counted(s, t);
    var s2 := Apply(s1, LogFailure(t));
    logged := LineWritten(s1, t);
    RunTwo(steps, SendFails(t), LogFailure(t));
    more := steps + [SendFails(t), LogFailure(t)];
    assert s.history + [added] + [logged] == s.history + [added, logged];
    assert s1.pc[t := Idle] == s.pc[t := Idle];
  }

  lemma Counted(s: State, t: Sender) returns (e: Event)
    requires s.At(t) == Idle
    ensures var s' := Apply(s, SendFails(t));
            && s'.counter == Next32(s.counter)
            && s'.At(t).Failed? && s'.At(t).fc == s'.counter
            && s'.pc == s.pc[t := s'.At(t)]
            && s'.history == s.history + [e] && e.Added?
  {
    e := Apply(s, SendFails(t)).history[|s.history|];
  }

  lemma LineWritten(s: State, t: Sender) returns (e: Event)
    requires s.At(t).Failed? && FailureLevel(s.At(t).fc).Some?
    ensures var s' := Apply(s, LogFailure(t));
            && s'.counter == s.counter && s'.pc == s.pc[t := Idle]
            && s'.history == s.history + [e]
            && e.FailureLog? && Some(e.level) == FailureLevel(s.At(t).fc)
  {
    e := Apply(s, LogFailure(t)).history[|s.history|];
  }

  /** Two failures of the CPU sender. */
  lemma TwoFailures() returns (steps: seq<Step>)
    ensures Run(steps).Some?
    ensures var s := Run(steps).value;
            && s.counter == 2 && s.pc == map[Cpu := Idle]
            && (forall j :: 0 <= j < |s.history| ==> s.history[j].Added? || s.history[j].FailureLog?)
  {
    var a, b, c, d;
    assert Run([]) == Some(INIT);
    steps, a, b := FailureRun([], Cpu);
    steps, c, d := FailureRun(steps, Cpu);
    assert Run(steps).value.history == [a, b] + [c, d];
  }

  /** Two failures, then a success of the memory sender up to its read of the counter. */
  lemma EarlyRead() returns (steps: seq<Step>)
    ensures Run(steps).Some?
    ensures var s := Run(steps).value;
            && s.counter == 2 && s.pc == map[Cpu := Idle, Memory := Succeeded(0, 2)]
            && (forall j :: 0 <= j < |s.history| ==> !s.history[j].RecoveryLog?)
  {
    steps := TwoFailures();
    var s := Run(steps).value;
    NoResetYet(s.history, |s.history|);
    RunSnoc(steps, SendSucceeds(Memory));
    steps := steps + [SendSucceeds(Memory)];
  }

  lemma {:induction false} NoResetYet(h: History, n: nat)
    requires n <= |h| && forall j :: 0 <= j < n ==> h[j].Added? || h[j].FailureLog?
    ensures Epoch(h, n) == 0
  {
    if n > 0 {
      NoResetYet(h, n - 1);
    }
  }

  /** The race does happen: a success reads two, the third failure logs its
      error, and the success resets the counter.  The error stays without a
      recovery line although a success came after it. */
  lemma RecoveryCanBeLost() returns (steps: seq<Step>)
    ensures Run(steps).Some?
    ensures var s := Run(steps).value;
            && s.counter == 0 && (forall t :: s.At(t) == Idle)
            && (exists j :: 0 <= j < |s.history| && s.history[j].FailureLog? && s.history[j].level == Error)
            && (forall j :: 0 <= j < |s.history| ==> !s.history[j].RecoveryLog?)
  {
    var added, logged;
    steps := EarlyRead();
    var h := Run(steps).value.history;
    steps, added, logged := FailureRun(steps, Cpu);
    RunSnoc(steps, Reset(Memory));
    steps := steps + [Reset(Memory)];
    var h' := Run(steps).value.history;
    assert h' == h + [added, logged, Stored(Memory)];
    assert h'[|h| + 1] == logged && logged.level == Error;
  }
}
