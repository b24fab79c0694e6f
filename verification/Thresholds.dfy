/** Warning thresholds: the settings row, its write-through copy in each API
    replica, and the copies that the agents poll. */
module Thresholds {
  import opened Telemetry

  datatype Config = Config(cpu: real, mem: real, disk: real)

  const DEFAULT := Config(85.0, 90.0, 90.0)

  predicate InRange(c: Config) {
    1.0 <= c.cpu <= 100.0 && 1.0 <= c.mem <= 100.0 && 1.0 <= c.disk <= 100.0
  }

  predicate Positive(c: Config) {
    c.cpu > 0.0 && c.mem > 0.0 && c.disk > 0.0
  }

  /** What a starting store holds, given what it could load. */
  function Loaded(row: Option<Config>): Config {
    if row.Some? && Positive(row.value) then row.value else DEFAULT
  }

  // -------------------------------------------------------------- the objects

  class SettingsTable {
    var thresholds: Option<Config>

    /** The migration seeds the row. */
    constructor ()
      ensures thresholds == Some(Config(85.0, 90.0, 90.0))
    {
      thresholds := Some(DEFAULT);
    }

    method Save(c: Config, outcome: Outcome) returns (err: bool)
      modifies this
      ensures thresholds == if outcome.TookEffect() then Some(c) else old(thresholds)
      ensures err == !outcome.Confirmed?
    {
      if outcome.TookEffect() {
        thresholds := Some(c);
      }
      err := !outcome.Confirmed?;
    }
  }

  datatype Response = BadRequest | Ok(config: Config)

  class ThresholdStore {
    var cfg: Config
    const db: SettingsTable

    /** `reachable` tells whether the row can be read. */
    constructor (db: SettingsTable, reachable: bool)
      ensures this.db == db
      ensures cfg == Loaded(if reachable then db.thresholds else None)
      ensures var row := db.thresholds;
              cfg == if reachable && row.Some? && row.value.cpu > 0.0 && row.value.mem > 0.0 && row.value.disk > 0.0
                     then row.value else Config(85.0, 90.0, 90.0)
    {
      this.db := db;
      this.cfg := DEFAULT;
      new;
      if reachable && db.thresholds.Some? {
        var loaded := db.thresholds.value;
        if loaded.cpu > 0.0 && loaded.mem > 0.0 && loaded.disk > 0.0 {
          cfg := loaded;
        }
      }
    }

    /** A PUT that no other PUT overlaps; None is a body that does not decode. */
    method HandleSet(body: Option<Config>, outcome: Outcome) returns (response: Response)
      modifies this, db
      ensures response.Ok? <==> body.Some? && 1.0 <= body.value.cpu <= 100.0 && 1.0 <= body.value.mem <= 100.0
                                && 1.0 <= body.value.disk <= 100.0
      ensures var accepted := body.Some? && InRange(body.value);
              && response == (if accepted then Ok(body.value) else BadRequest)
              && cfg == (if accepted then body.value else old(cfg))
              && db.thresholds == (if accepted && outcome.TookEffect() then Some(cfg) else old(db.thresholds))
    {
      if body.None? {
        return BadRequest;
      }
      var c := body.value;
      if c.cpu < 1.0 || c.cpu > 100.0 || c.mem < 1.0 || c.mem > 100.0 || c.disk < 1.0 || c.disk > 100.0 {
        return BadRequest;
      }
      cfg := c;
      var ignored := db.Save(c, outcome);
      return Ok(cfg);
    }
  }

  /** The agent's copy. */
  class AgentThresholds {
    var cpu: real
    var mem: real
    var disk: real

    constructor ()
      ensures Contents() == Config(85.0, 90.0, 90.0)
    {
      cpu, mem, disk := 85.0, 90.0, 90.0;
    }

    function Contents(): Config
      reads this
    {
      Config(cpu, mem, disk)
    }

    /** One poll; None is any failure to get and decode an answer. */
    method Fetch(answer: Option<Config>)
      modifies this
      ensures Contents() == Polled(old(Contents()), answer)
      ensures (cpu, mem, disk) ==
              if answer.Some? && answer.value.cpu > 0.0 && answer.value.mem > 0.0 && answer.value.disk > 0.0
              then (answer.value.cpu, answer.value.mem, answer.value.disk) else old((cpu, mem, disk))
    {
      if answer.None? {
        return;
      }
      var c := answer.value;
      if c.cpu > 0.0 && c.mem > 0.0 && c.disk > 0.0 {
        cpu, mem, disk := c.cpu, c.mem, c.disk;
      }
    }
  }

  function Polled(current: Config, answer: Option<Config>): Config {
    if answer.Some? && Positive(answer.value) then answer.value else current
  }

  // ------------------------------------------------------------- interleavings

  /** A PUT that has written the store of a replica and not yet the row. */
  datatype Pending = Pending(replica: nat, config: Config)

  datatype State = State(
    row: Config,
    stores: seq<Config>,
    agents: seq<Config>,
    pending: seq<Pending>,
    accepted: seq<Config>)   // every PUT accepted so far

  datatype Step =
    | Put(replica: nat, config: Config)          // up to the write of the store
    | Save(index: nat, outcome: Outcome)         // the write of the row
    | Restart(replica: nat, reachable: bool)
    | Poll(agent: nat, replica: nat, answered: bool)

  function Init(replicas: nat, agents: nat): State {
    State(DEFAULT, seq(replicas, _ => DEFAULT), seq(agents, _ => DEFAULT), [], [])
  }

  predicate Enabled(s: State, step: Step) {
    match step
    case Put(r, _) => r < |s.stores|
    case Save(k, _) => k < |s.pending|
    case Restart(r, _) => r < |s.stores|
    case Poll(a, r, _) => a < |s.agents| && r < |s.stores|
  }

  /** The PUTs that a crash of a replica does not take along. */
  function OfOthers(pending: seq<Pending>, replica: nat): seq<Pending> {
    if pending == [] then []
    else
      var init, last := OfOthers(pending[..|pending| - 1], replica), pending[|pending| - 1];
      if last.replica == replica then init else init + [last]
  }

  function Apply(s: State, step: Step): State
    requires Enabled(s, step)
  {
    match step
    case Put(r, c) =>
      if InRange(c) then
        s.(stores := s.stores[r := c], pending := s.pending + [Pending(r, c)], accepted := s.accepted + [c])
      else s
    case Save(k, outcome) =>
      s.(row := if outcome.TookEffect() then s.pending[k].config else s.row,
         pending := s.pending[..k] + s.pending[k + 1..])
    case Restart(r, reachable) =>
      s.(stores := s.stores[r := Loaded(if reachable then Some(s.row) else None)],
         pending := OfOthers(s.pending, r))
    case Poll(a, r, answered) =>
      s.(agents := s.agents[a := Polled(s.agents[a], if answered then Some(s.stores[r]) else None)])
  }

  function Run(replicas: nat, agents: nat, steps: seq<Step>): Option<State> {
    if steps == [] then Some(Init(replicas, agents))
    else match Run(replicas, agents, steps[..|steps| - 1])
      case None => None
      case Some(s) =>
        var step := steps[|steps| - 1];
        if Enabled(s, step) then Some(Apply(s, step)) else None
  }

  // -------------------------------------------------------------- provenance

  /** The default, or one whole accepted PUT; in either case within range. */
  predicate Known(s: State, c: Config) {
    InRange(c) && (c == DEFAULT || c in s.accepted)
  }

  ghost predicate AllKnown(s: State) {
    && Known(s, s.row)
    && (forall r :: 0 <= r < |s.stores| ==> Known(s, s.stores[r]))
    && (forall a :: 0 <= a < |s.agents| ==> Known(s, s.agents[a]))
    && (forall k :: 0 <= k < |s.pending| ==> Known(s, s.pending[k].config))
  }

  lemma {:induction false} OfOthersMeaning(pending: seq<Pending>, replica: nat)
    ensures forall p :: p in OfOthers(pending, replica) ==> p in pending
  {
    if pending != [] {
      OfOthersMeaning(pending[..|pending| - 1], replica);
    }
  }

  lemma KnownStep(s: State, step: Step)
    requires AllKnown(s) && Enabled(s, step)
    ensures AllKnown(Apply(s, step))
  {
    var s' := Apply(s, step);
    assert forall c :: Known(s, c) ==> Known(s', c);
    if step.Restart? {
      OfOthersMeaning(s.pending, step.replica);
      forall k | 0 <= k < |s'.pending| ensures Known(s', s'.pending[k].config) {
        assert s'.pending[k] in s.pending;
      }
    } else if step.Put? && InRange(step.config) {
      assert step.config in s'.accepted by { assert s'.accepted[|s.accepted|] == step.config; }
    }
  }

  /** Over all PUTs, failed saves, restarts and polls, with any number of replicas
      and agents and any overlap: every triple anywhere is within range and is the
      default or one whole accepted PUT. */
  lemma {:induction false} EveryTripleKnown(replicas: nat, agents: nat, steps: seq<Step>)
    requires Run(replicas, agents, steps).Some?
    ensures AllKnown(Run(replicas, agents, steps).value)
  {
    if steps != [] {
      EveryTripleKnown(replicas, agents, steps[..|steps| - 1]);
      KnownStep(Run(replicas, agents, steps[..|steps| - 1]).value, steps[|steps| - 1]);
    }
  }

  // ------------------------------------------------------ who wrote what last

  /** The state before step `n` of a run. */
  function Before(replicas: nat, agents: nat, steps: seq<Step>, n: nat): Option<State>
    requires n <= |steps|
  {
    Run(replicas, agents, steps[..n])
  }

  predicate WritesRow(step: Step) {
    step.Save? && step.outcome.TookEffect()
  }

  predicate WritesStore(step: Step, r: nat) {
    || (step.Put? && step.replica == r && InRange(step.config))
    || (step.Restart? && step.replica == r)
  }

  /** Step `n` is the last one that wrote the row. */
  ghost predicate LastRowWrite(steps: seq<Step>, n: nat) {
    n < |steps| && WritesRow(steps[n]) && forall m :: n < m < |steps| ==> !WritesRow(steps[m])
  }

  /** Step `n` is the last one that wrote the store of replica `r`. */
  ghost predicate LastStoreWrite(steps: seq<Step>, r: nat, n: nat) {
    n < |steps| && WritesStore(steps[n], r) && forall m :: n < m < |steps| ==> !WritesStore(steps[m], r)
  }

  /** The triple that a save writes to the row. */
  ghost predicate SavesTriple(before: Option<State>, step: Step, c: Config) {
    && before.Some? && step.Save? && step.index < |before.value.pending|
    && c == before.value.pending[step.index].config
  }

  /** The triple that a PUT or a restart writes to the store of its replica. */
  ghost predicate StoresTriple(before: Option<State>, step: Step, c: Config) {
    && before.Some?
    && match step
       case Put(_, config) => c == config
       case Restart(_, reachable) => c == Loaded(if reachable then Some(before.value.row) else None)
       case _ => false
  }

  /** `c` is the triple of the last save that took effect, or the default if none did. */
  ghost predicate LastSaved(replicas: nat, agents: nat, steps: seq<Step>, c: Config) {
    && ((forall n :: 0 <= n < |steps| ==> !WritesRow(steps[n])) ==> c == DEFAULT)
    && forall n: nat :: LastRowWrite(steps, n) ==> SavesTriple(Before(replicas, agents, steps, n), steps[n], c)
  }

  /** `c` is the triple of the last accepted PUT at replica `r` or what its last
      restart loaded, whichever came later, or the default if there was neither. */
  ghost predicate LastStored(replicas: nat, agents: nat, steps: seq<Step>, r: nat, c: Config) {
    && ((forall n :: 0 <= n < |steps| ==> !WritesStore(steps[n], r)) ==> c == DEFAULT)
    && forall n: nat :: LastStoreWrite(steps, r, n) ==> StoresTriple(Before(replicas, agents, steps, n), steps[n], c)
  }

  /** A run of at least one step, taken apart at its last step. */
  lemma LastStep(replicas: nat, agents: nat, steps: seq<Step>)
    requires steps != [] && Run(replicas, agents, steps).Some?
    ensures var n := |steps| - 1;
            var before := Before(replicas, agents, steps, n);
            && before == Run(replicas, agents, steps[..n])
            && before.Some? && Enabled(before.value, steps[n])
            && Run(replicas, agents, steps) == Some(Apply(before.value, steps[n]))
            && forall k :: 0 <= k < n ==>
                 && steps[..n][k] == steps[k]
                 && Before(replicas, agents, steps[..n], k) == Before(replicas, agents, steps, k)
  {
    var n := |steps| - 1;
    assert forall k :: 0 <= k < n ==> steps[..n][..k] == steps[..k];
  }

  lemma {:induction false} RowIsLastSaved(replicas: nat, agents: nat, steps: seq<Step>)
    requires Run(replicas, agents, steps).Some?
    ensures LastSaved(replicas, agents, steps, Run(replicas, agents, steps).value.row)
  {
    if steps != [] {
      var n := |steps| - 1;
      LastStep(replicas, agents, steps);
      RowIsLastSaved(replicas, agents, steps[..n]);
      SavedStep(replicas, agents, steps, Run(replicas, agents, steps[..n]).value.row,
                Run(replicas, agents, steps).value.row);
    }
  }

  lemma SavedStep(replicas: nat, agents: nat, steps: seq<Step>, before: Config, c: Config)
    requires steps != [] && LastSaved(replicas, agents, steps[..|steps| - 1], before)
    requires forall k :: 0 <= k < |steps| - 1 ==>
               Before(replicas, agents, steps[..|steps| - 1], k) == Before(replicas, agents, steps, k)
    requires if WritesRow(steps[|steps| - 1])
             then SavesTriple(Before(replicas, agents, steps, |steps| - 1), steps[|steps| - 1], c)
             else c == before
    ensures LastSaved(replicas, agents, steps, c)
  {
    var last := |steps| - 1;
    var init := steps[..last];
    if WritesRow(steps[last]) {
      assert forall n: nat :: LastRowWrite(steps, n) ==> n == last;
    } else {
      forall n: nat | LastRowWrite(steps, n) ensures SavesTriple(Before(replicas, agents, steps, n), steps[n], c) {
        assert LastRowWrite(init, n) && init[n] == steps[n];
      }
      if forall n :: 0 <= n < |steps| ==> !WritesRow(steps[n]) {
        assert forall n :: 0 <= n < last ==> init[n] == steps[n];
      }
    }
  }

  lemma {:induction false} StoreIsLastStored(replicas: nat, agents: nat, steps: seq<Step>, r: nat)
    requires Run(replicas, agents, steps).Some? && r < replicas
    ensures var s := Run(replicas, agents, steps).value;
            |s.stores| == replicas && LastStored(replicas, agents, steps, r, s.stores[r])
  {
    if steps != [] {
      var n := |steps| - 1;
      LastStep(replicas, agents, steps);
      StoreIsLastStored(replicas, agents, steps[..n], r);
      StoredStep(replicas, agents, steps, r, Run(replicas, agents, steps[..n]).value.stores[r],
                 Run(replicas, agents, steps).value.stores[r]);
    }
  }

  lemma StoredStep(replicas: nat, agents: nat, steps: seq<Step>, r: nat, before: Config, c: Config)
    requires steps != [] && LastStored(replicas, agents, steps[..|steps| - 1], r, before)
    requires forall k :: 0 <= k < |steps| - 1 ==>
               Before(replicas, agents, steps[..|steps| - 1], k) == Before(replicas, agents, steps, k)
    requires if WritesStore(steps[|steps| - 1], r)
             then StoresTriple(Before(replicas, agents, steps, |steps| - 1), steps[|steps| - 1], c)
             else c == before
    ensures LastStored(replicas, agents, steps, r, c)
  {
    var last := |steps| - 1;
    var init := steps[..last];
    if WritesStore(steps[last], r) {
      assert forall n: nat :: LastStoreWrite(steps, r, n) ==> n == last;
    } else {
      forall n: nat | LastStoreWrite(steps, r, n) ensures StoresTriple(Before(replicas, agents, steps, n), steps[n], c) {
        assert LastStoreWrite(init, r, n) && init[n] == steps[n];
      }
      if forall n :: 0 <= n < |steps| ==> !WritesStore(steps[n], r) {
        assert forall n :: 0 <= n < last ==> init[n] == steps[n];
      }
    }
  }

  lemma {:induction false} LastExists(steps: seq<Step>, writes: Step -> bool, m: nat) returns (n: nat)
    requires m < |steps| && writes(steps[m])
    ensures n < |steps| && writes(steps[n]) && forall k :: n < k < |steps| ==> !writes(steps[k])
    decreases |steps| - m
  {
    if k: nat :| m < k < |steps| && writes(steps[k]) {
      n := LastExists(steps, writes, k);
    } else {
      n := m;
    }
  }

  /** In every run, with any overlap of PUTs and any outcomes: the store of a replica
      agrees with the row exactly if the last save that took effect carried the
      triple that was last put or loaded there. */
  lemma AgreeIffLastWritesEqual(replicas: nat, agents: nat, steps: seq<Step>, r: nat)
    requires Run(replicas, agents, steps).Some? && r < replicas
    ensures var s := Run(replicas, agents, steps).value;
            && |s.stores| == replicas
            && forall saved, stored ::
                 LastSaved(replicas, agents, steps, saved) && LastStored(replicas, agents, steps, r, stored) ==>
                   (s.stores[r] == s.row <==> saved == stored)
  {
    var s := Run(replicas, agents, steps).value;
    RowIsLastSaved(replicas, agents, steps);
    StoreIsLastStored(replicas, agents, steps, r);
    forall saved | LastSaved(replicas, agents, steps, saved) ensures saved == s.row {
      if m :| 0 <= m < |steps| && WritesRow(steps[m]) {
        var n := LastExists(steps, WritesRow, m);
        assert LastRowWrite(steps, n);
        assert SavesTriple(Before(replicas, agents, steps, n), steps[n], saved);
      }
    }
    forall stored | LastStored(replicas, agents, steps, r, stored) ensures stored == s.stores[r] {
      if m :| 0 <= m < |steps| && WritesStore(steps[m], r) {
        var n := LastExists(steps, step => WritesStore(step, r), m);
        assert LastStoreWrite(steps, r, n);
        assert StoresTriple(Before(replicas, agents, steps, n), steps[n], stored);
      }
    }
  }

  // --------------------------------------------------------------- agreement

  /** No PUT is accepted by a replica while another PUT there has not yet written
      the row.  PUTs at different replicas may overlap. */
  ghost predicate NoOverlap(replicas: nat, agents: nat, steps: seq<Step>) {
    forall n :: 0 <= n < |steps| && steps[n].Put? && InRange(steps[n].config) ==>
      NonePending(Before(replicas, agents, steps, n), steps[n].replica)
  }

  predicate NonePending(s: Option<State>, r: nat) {
    s.Some? && forall k :: 0 <= k < |s.value.pending| ==> s.value.pending[k].replica != r
  }

  /** The last step that wrote the store of replica `r` or the row is a save of a
      PUT at `r`, or a restart of `r` that could read the row. */
  ghost predicate InSync(replicas: nat, agents: nat, steps: seq<Step>, r: nat)
    requires Run(replicas, agents, steps).Some?
  {
    steps == [] ||
    var init, last := steps[..|steps| - 1], steps[|steps| - 1];
    match last
    case Put(q, c) => !(q == r && InRange(c)) && InSync(replicas, agents, init, r)
    case Save(k, outcome) =>
      if outcome.TookEffect() then Run(replicas, agents, init).value.pending[k].replica == r
      else InSync(replicas, agents, init, r)
    case Restart(q, reachable) => if q == r then reachable else InSync(replicas, agents, init, r)
    case Poll(_, _, _) => InSync(replicas, agents, init, r)
  }

  /** Each replica has at most one pending PUT, and its store holds that triple. */
  ghost predicate PendingIsStored(s: State) {
    && (forall k :: 0 <= k < |s.pending| ==>
          s.pending[k].replica < |s.stores| && s.stores[s.pending[k].replica] == s.pending[k].config)
    && forall k, l :: 0 <= k < l < |s.pending| ==> s.pending[k].replica != s.pending[l].replica
  }

  lemma {:induction false} OthersStayDistinct(pending: seq<Pending>, r: nat)
    requires forall k, l :: 0 <= k < l < |pending| ==> pending[k].replica != pending[l].replica
    ensures var others := OfOthers(pending, r);
            && (forall p :: p in others <==> p in pending && p.replica != r)
            && forall k, l :: 0 <= k < l < |others| ==> others[k].replica != others[l].replica
  {
    if pending != [] {
      var init, last := pending[..|pending| - 1], pending[|pending| - 1];
      OthersStayDistinct(init, r);
      forall p | p in init ensures p.replica != last.replica {
        var k :| 0 <= k < |init| && init[k] == p;
        assert pending[k] == p;
      }
      assert forall k :: 0 <= k < |OfOthers(init, r)| ==> OfOthers(init, r)[k] in init;
    }
  }

  lemma SaveKeepsStored(s: State, k: nat, outcome: Outcome)
    requires PendingIsStored(s) && Enabled(s, Save(k, outcome))
    ensures PendingIsStored(Apply(s, Save(k, outcome)))
  {
    var left := s.pending[..k] + s.pending[k + 1..];
    assert forall i :: 0 <= i < |left| ==> left[i] == s.pending[if i < k then i else i + 1];
  }

  lemma RestartKeepsStored(s: State, r: nat, reachable: bool)
    requires PendingIsStored(s) && Enabled(s, Restart(r, reachable))
    ensures PendingIsStored(Apply(s, Restart(r, reachable)))
  {
    OthersStayDistinct(s.pending, r);
    var s' := Apply(s, Restart(r, reachable));
    forall k | 0 <= k < |s'.pending|
      ensures s'.pending[k].replica < |s'.stores| && s'.stores[s'.pending[k].replica] == s'.pending[k].config
    {
      assert s'.pending[k] in s.pending;
    }
  }

  lemma PendingIsStoredStep(s: State, step: Step)
    requires PendingIsStored(s) && Enabled(s, step)
    requires step.Put? && InRange(step.config) ==> NonePending(Some(s), step.replica)
    ensures PendingIsStored(Apply(s, step))
  {
    match step {
      case Restart(r, reachable) => RestartKeepsStored(s, r, reachable);
      case Save(k, outcome) => SaveKeepsStored(s, k, outcome);
      case _ =>
    }
  }

  lemma {:induction false} PendingAlwaysStored(replicas: nat, agents: nat, steps: seq<Step>)
    requires Run(replicas, agents, steps).Some? && NoOverlap(replicas, agents, steps)
    ensures PendingIsStored(Run(replicas, agents, steps).value)
  {
    if steps != [] {
      var n := |steps| - 1;
      LastStep(replicas, agents, steps);
      assert NoOverlap(replicas, agents, steps[..n]);
      PendingAlwaysStored(replicas, agents, steps[..n]);
      PendingIsStoredStep(Run(replicas, agents, steps[..n]).value, steps[n]);
    }
  }

  /** A save that takes effect brings the row in line with the store of its replica,
      and so does a restart that can read the row. */
  lemma WriteAgrees(s: State, step: Step)
    requires PendingIsStored(s) && AllKnown(s) && Enabled(s, step)
    ensures var s' := Apply(s, step);
            && (WritesRow(step) ==> s'.stores[s.pending[step.index].replica] == s'.row)
            && (step.Restart? && step.reachable ==> s'.stores[step.replica] == s'.row)
  {
  }

  /** With any number of replicas and no overlapping PUTs at one replica, its store
      and the row agree from each save of its own that takes effect, and from each
      restart that can read the row, until the next write of either. */
  lemma {:induction false} StoreAndRowAgree(replicas: nat, agents: nat, steps: seq<Step>, r: nat)
    requires Run(replicas, agents, steps).Some? && NoOverlap(replicas, agents, steps) && r < replicas
    ensures var s := Run(replicas, agents, steps).value;
            |s.stores| == replicas && (InSync(replicas, agents, steps, r) ==> s.stores[r] == s.row)
  {
    if steps != [] {
      var n := |steps| - 1;
      var init := steps[..n];
      LastStep(replicas, agents, steps);
      assert NoOverlap(replicas, agents, init);
      StoreAndRowAgree(replicas, agents, init, r);
      PendingAlwaysStored(replicas, agents, init);
      EveryTripleKnown(replicas, agents, init);
      WriteAgrees(Run(replicas, agents, init).value, steps[n]);
    }
  }

  /** In particular right after a save that took effect, and right after a restart
      that could read the row. */
  lemma AgreeAfterWrite(replicas: nat, agents: nat, steps: seq<Step>, step: Step)
    requires Run(replicas, agents, steps + [step]).Some? && NoOverlap(replicas, agents, steps + [step])
    ensures Run(replicas, agents, steps).Some? && Enabled(Run(replicas, agents, steps).value, step)
    ensures var s, s' := Run(replicas, agents, steps).value, Run(replicas, agents, steps + [step]).value;
            && PendingIsStored(s) && s' == Apply(s, step)
            && (WritesRow(step) ==> s'.stores[s.pending[step.index].replica] == s'.row)
            && (step.Restart? && step.reachable ==> s'.stores[step.replica] == s'.row)
  {
    var all := steps + [step];
    LastStep(replicas, agents, all);
    assert all[..|all| - 1] == steps;
    assert NoOverlap(replicas, agents, steps);
    PendingAlwaysStored(replicas, agents, steps);
    EveryTripleKnown(replicas, agents, steps);
    WriteAgrees(Run(replicas, agents, steps).value, step);
  }

  /** Two overlapping PUTs on one replica, whatever becomes of their saves: store and
      row agree exactly if the last of the saves that took effect carries the second
      triple, or, if none did, the row held it before. */
  lemma OverlapAgreesIff(s: State, r: nat, a: Config, b: Config, inOrder: bool, first: Outcome, second: Outcome)
    requires r < |s.stores| && s.pending == [] && InRange(a) && InRange(b)
    ensures var s1 := Apply(Apply(s, Put(r, a)), Put(r, b));
            var s2 := Apply(Apply(s1, Save(if inOrder then 0 else 1, first)), Save(0, second));
            var bLast := if inOrder then second.TookEffect() else first.TookEffect() && !second.TookEffect();
            var aLast := if inOrder then first.TookEffect() && !second.TookEffect() else second.TookEffect();
            && s2.pending == [] && s2.stores[r] == b
            && (s2.stores[r] == s2.row <==> bLast || (if aLast then a == b else s.row == b))
  {
  }

  // ---------------------------------------------------------- other replicas

  /** A PUT reaches the row and its own replica, never another replica's store: that
      stays as it is along every continuation without a PUT there and without a
      restart. */
  lemma {:induction false} OtherReplicasStale(replicas: nat, agents: nat, steps: seq<Step>, more: seq<Step>, r: nat)
    requires Run(replicas, agents, steps + more).Some? && r < replicas
    requires forall k :: 0 <= k < |more| ==> !WritesStore(more[k], r)
    ensures Run(replicas, agents, steps).Some?
    ensures var s, s' := Run(replicas, agents, steps).value, Run(replicas, agents, steps + more).value;
            |s.stores| == |s'.stores| == replicas && s'.stores[r] == s.stores[r]
  {
    if more == [] {
      assert steps + more == steps;
      StoreIsLastStored(replicas, agents, steps, r);
    } else {
      var init := more[..|more| - 1];
      assert (steps + more)[..|steps + more| - 1] == steps + init;
      OtherReplicasStale(replicas, agents, steps, init, r);
    }
  }

  /** Two replicas and one PUT of a triple other than the default: the row has it,
      the other replica does not, and it never will without a PUT or a restart there. */
  lemma StaleReplica(c: Config, more: seq<Step>)
    requires InRange(c) && c != DEFAULT
    ensures var steps := [Put(0, c), Save(0, Confirmed)];
            && Run(2, 0, steps).Some?
            && var s := Run(2, 0, steps).value;
            && s.row == c && s.stores == [c, DEFAULT]
            && (Run(2, 0, steps + more).Some? && (forall k :: 0 <= k < |more| ==> !WritesStore(more[k], 1)) ==>
                  var s' := Run(2, 0, steps + more).value;
                  |s'.stores| == 2 && s'.stores[1] == DEFAULT)
  {
    var put, steps := [Put(0, c)], [Put(0, c), Save(0, Confirmed)];
    assert put[..0] == [] && steps[..1] == put;
    assert Run(2, 0, []) == Some(Init(2, 0));
    assert Run(2, 0, put) == Some(Apply(Init(2, 0), Put(0, c)));
    if Run(2, 0, steps + more).Some? && forall k :: 0 <= k < |more| ==> !WritesStore(more[k], 1) {
      OtherReplicasStale(2, 0, steps, more, 1);
    }
  }
}
