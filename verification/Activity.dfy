/** One reconcile of a Workspace's activity: probe if due, record the result,
    evaluate the rules, persist, pause
    (workspaces/controller/internal/controller/workspace_activity.go and the part of
    workspace_controller.go that calls it). Times are UNIX milliseconds, durations
    nanoseconds. */
module Activity {
  import opened Prelude
  import opened Labels
  import opened ActivityRules

  datatype ProbeOutcome = Success | Failure | Timeout

  datatype ProbeResult = ProbeResult(
    startTime: int,
    endTime: int,
    result: ProbeOutcome,
    message: string,
    lastActivity: Option<int>)
  {
    predicate Succeeded() { result == Success }
  }

  datatype LastProbe = LastProbe(startTime: int, endTime: int, result: ProbeOutcome, message: string)

  /** `eligibleAfter` is the content of `rules.pauseWorkspace`, when present. */
  datatype RulesStatus = RulesStatus(eligibleAfter: Option<int>)

  datatype ActivityStatus = ActivityStatus(
    lastActivity: int,
    lastUpdate: int,
    lastProbe: Option<LastProbe>,
    rules: Option<RulesStatus>)

  const NO_ACTIVITY := ActivityStatus(0, 0, None, None)

  datatype WorkspaceState = Running | Terminating | Paused | Pending | Error | Unknown

  datatype Status = Status(state: WorkspaceState, lastRunningTime: int, activity: ActivityStatus)

  /** `spec.podTemplate.activityProbe`. */
  datatype ProbeConfig = ProbeConfig(minProbeIntervalSeconds: Option<int>, probeIntervalSeconds: Option<int>)
  {
    function MinSeconds(): int {
      if minProbeIntervalSeconds.Some? then minProbeIntervalSeconds.value else 300
    }

    function ProbeSeconds(): int {
      if probeIntervalSeconds.Some? then probeIntervalSeconds.value else 3600
    }

    /** The bounds the CRD puts on the two intervals. */
    predicate Valid() {
      1 <= MinSeconds() <= ProbeSeconds() <= 31_536_000
    }
  }

  /** Everything one reconcile reads from outside: clocks, the WorkspaceKind, labels,
      what the probe would answer, and what the API server answers to the writes. */
  datatype Inputs = Inputs(
    newState: WorkspaceState,             // from the Pod and StatefulSet
    stateRequeue: int,                    // requeue asked for while computing the state
    transitionTime: int,                  // clock read when entering Running
    now: int,                             // clock read by reconcileActivity
    probe: Option<ProbeConfig>,
    rules: seq<ActivityRule>,
    namespaceLabels: Result<LabelSet, ()>,
    podConfigLabels: LabelSet,
    outcome: ProbeResult,                 // the answer of the probe, if it runs
    otherStatusChanged: bool,             // some unmodelled status field differs
    statusWrite: WriteOutcome,
    pausePatch: WriteOutcome,
    done: int)                            // clock when the reconcile returns

  datatype Reply = Requeue(after: int) | Failed

  /** What a reconcile does: the status left in the API server, whether the probe ran,
      whether `spec.paused` was set there, and what it tells the work queue. */
  datatype Effect = Effect(stored: Status, probed: bool, paused: bool, reply: Reply)

  // ------------------------------------------------------------------ the steps on values

  /** `timeUntilProbeDue`: nil when a probe is due, otherwise the time still to wait. */
  function TimeUntilDue(last: Option<LastProbe>, now: int, minInterval: int, probeInterval: int): Option<int> {
    if last.None? || last.value.startTime <= 0 then None
    else
      var elapsed := Millis(Wrap64(now - last.value.startTime));
      var required := if last.value.result == Success then probeInterval else minInterval;
      if elapsed < required then Some(Wrap64(required - elapsed)) else None
  }

  /** `recordRunningTransition`, after the new state has been set. */
  function EnterState(s: Status, newState: WorkspaceState, clock: int): Status {
    if newState == Running && (s.state != Running || s.lastRunningTime == 0)
    then Status(newState, clock, NO_ACTIVITY)
    else s.(state := newState)
  }

  /** `updateActivityStatusFromProbe`. */
  function AfterProbe(s: Status, r: ProbeResult): Status {
    var a := s.activity.(lastProbe := Some(LastProbe(r.startTime, r.endTime, r.result, r.message)));
    if !r.Succeeded() then s.(activity := a)
    else
      var seen :=
        if r.lastActivity.Some? then r.lastActivity.value
        else if a.lastActivity <= 0 && s.lastRunningTime > 0 then s.lastRunningTime
        else a.lastActivity;
      s.(activity := a.(lastActivity := seen, lastUpdate := r.endTime))
  }

  /** The eligibility time a rule list asks to publish, if it asks for any. */
  function Published(s: Status, rules: seq<ActivityRule>, w: Subject): Option<int>
    requires PauseRule(rules, w).Ok?
  {
    var d := PauseRule(rules, w).value;
    if d.matched && d.value then Some(EligibleAfter(s.activity.lastActivity, d.secondsSinceActive)) else None
  }

  /** The status after `evaluatePauseDecision` without an error. */
  function AfterEvaluation(s: Status, rules: seq<ActivityRule>, w: Subject): Status
    requires PauseRule(rules, w).Ok?
  {
    var p := Published(s, rules, w);
    if p.Some? || s.activity.rules.Some? then s.(activity := s.activity.(rules := Some(RulesStatus(p)))) else s
  }

  /** Whether `evaluatePauseDecision` answers true when it is allowed to. */
  predicate WantsPause(s: Status, rules: seq<ActivityRule>, w: Subject, now: int)
    requires PauseRule(rules, w).Ok?
  {
    var d := PauseRule(rules, w).value;
    d.matched && d.value
    && Eligible(s.activity.lastActivity, s.lastRunningTime, now, d.secondsSinceActive, d.minRunningSeconds)
  }

  /** The answer of `reconcileActivity`: the in-memory status it leaves, whether the probe
      ran, and either an error or a requeue delay (0 for none) with the pause flag. */
  datatype ActivityAnswer = ActivityAnswer(status: Status, probed: bool, verdict: Result<(int, bool), ()>)

  function ActivityStep(s: Status, i: Inputs): ActivityAnswer {
    if i.probe.None? || s.state != Running then ActivityAnswer(s, false, Ok((0, false)))
    else if i.namespaceLabels.Err? then ActivityAnswer(s, false, Err(()))
    else
      var w := Subject(i.namespaceLabels.value, i.podConfigLabels);
      var minInterval, probeInterval := Seconds(i.probe.value.MinSeconds()), Seconds(i.probe.value.ProbeSeconds());
      var wait := TimeUntilDue(s.activity.lastProbe, i.now, minInterval, probeInterval);
      if wait.Some? then
        if PauseRule(i.rules, w).Err? then ActivityAnswer(s, false, Err(()))
        else ActivityAnswer(AfterEvaluation(s, i.rules, w), false, Ok((wait.value, false)))
      else
        var t := AfterProbe(s, i.outcome);
        if PauseRule(i.rules, w).Err? then ActivityAnswer(t, true, Err(()))
        else
          var next := if i.outcome.Succeeded() then probeInterval else minInterval;
          ActivityAnswer(AfterEvaluation(t, i.rules, w), true,
                         Ok((next, i.outcome.Succeeded() && WantsPause(t, i.rules, w, i.now))))
  }

  /** `mergeReconcileResult` on the two requeue delays. */
  function Sooner(a: int, b: int): (r: int)
    ensures a > 0 ==> 0 < r <= a
    ensures b > 0 ==> 0 < r <= b
    ensures r == a || r == b
    ensures a <= 0 ==> r == b
    ensures b <= 0 < a ==> r == a
  {
    if a <= 0 then b else if b <= 0 then a else if a <= b then a else b
  }

  /** The tail of `Reconcile`: compute the status, run the activity step, write the status if
      it differs, and only then set `spec.paused`. */
  function ReconcileStep(stored: Status, i: Inputs): Effect {
    var a := ActivityStep(EnterState(stored, i.newState, i.transitionTime), i);
    if a.verdict.Err? then Effect(stored, a.probed, false, Failed)
    else
      var write := i.otherStatusChanged || a.status != stored;
      if write && i.statusWrite == Conflict then Effect(stored, a.probed, false, Requeue(1))
      else if write && i.statusWrite == WriteFailed then Effect(stored, a.probed, false, Failed)
      else
        var (after, pause) := a.verdict.value;
        if !pause then Effect(a.status, a.probed, false, Requeue(Sooner(i.stateRequeue, after)))
        else match i.pausePatch
          case Written => Effect(a.status, a.probed, true, Requeue(0))
          case Conflict => Effect(a.status, a.probed, false, Requeue(1))
          case WriteFailed => Effect(a.status, a.probed, false, Failed)
  }

  // ------------------------------------------------------------------ the code, in place

  /** The in-memory Workspace that one reconcile mutates. */
  class Workspace {
    var state: WorkspaceState
    var lastRunningTime: int
    var lastActivity: int
    var lastUpdate: int
    var lastProbe: Option<LastProbe>
    var rules: Option<RulesStatus>

    function Current(): Status
      reads this
    {
      Status(state, lastRunningTime, ActivityStatus(lastActivity, lastUpdate, lastProbe, rules))
    }

    constructor (s: Status)
      ensures Current() == s
    {
      state, lastRunningTime := s.state, s.lastRunningTime;
      lastActivity, lastUpdate := s.activity.lastActivity, s.activity.lastUpdate;
      lastProbe, rules := s.activity.lastProbe, s.activity.rules;
    }

    method RecordRunningTransition(newState: WorkspaceState, clock: int)
      modifies this
      ensures Current() == EnterState(old(Current()), newState, clock)
    {
      var currentState := state;
      state := newState;
      if newState != Running {
        return;
      }
      if currentState != Running || lastRunningTime == 0 {
        lastRunningTime := clock;
        lastActivity, lastUpdate, lastProbe, rules := 0, 0, None, None;
      }
    }

    method UpdateActivityStatusFromProbe(result: ProbeResult)
      modifies `lastProbe, `lastActivity, `lastUpdate
      ensures Current() == AfterProbe(old(Current()), result)
    {
      lastProbe := Some(LastProbe(result.startTime, result.endTime, result.result, result.message));
      if result.Succeeded() {
        if result.lastActivity.Some? {
          lastActivity := result.lastActivity.value;
        } else if lastActivity <= 0 && lastRunningTime > 0 {
          lastActivity := lastRunningTime;
        }
        lastUpdate := result.endTime;
      }
    }

    method EvaluatePauseDecision(spec: seq<ActivityRule>, w: Subject, now: int, allowPause: bool)
      returns (pause: Result<bool, ()>)
      modifies `rules
      ensures pause.Ok? <==> PauseRule(spec, w).Ok?
      ensures pause.Err? ==> Current() == old(Current())
      ensures pause.Ok? ==> Current() == AfterEvaluation(old(Current()), spec, w)
      ensures pause.Ok? ==> (pause.value <==> allowPause && WantsPause(old(Current()), spec, w, now))
    {
      if |spec| == 0 {
        if rules.Some? {
          rules := Some(RulesStatus(None));
        }
        return Ok(false);
      }
      var decision := EvaluatePauseWorkspaceRule(spec, w);
      if decision.Err? {
        return Err(());
      }
      var d := decision.value;
      if !d.matched || !d.value {
        if rules.Some? {
          rules := Some(RulesStatus(None));
        }
        return Ok(false);
      }
      var eligible := Eligible(lastActivity, lastRunningTime, now, d.secondsSinceActive, d.minRunningSeconds);
      rules := Some(RulesStatus(Some(EligibleAfter(lastActivity, d.secondsSinceActive))));
      return Ok(eligible && allowPause);
    }

    method ReconcileActivity(i: Inputs) returns (probed: bool, verdict: Result<(int, bool), ()>)
      modifies this
      ensures ActivityAnswer(Current(), probed, verdict) == ActivityStep(old(Current()), i)
    {
      probed := false;
      if i.probe.None? {
        return false, Ok((0, false));
      }
      if state != Running {
        return false, Ok((0, false));
      }
      var minInterval := Seconds(i.probe.value.MinSeconds());
      var probeInterval := Seconds(i.probe.value.ProbeSeconds());
      if i.namespaceLabels.Err? {
        return false, Err(());
      }
      var w := Subject(i.namespaceLabels.value, i.podConfigLabels);
      var wait := TimeUntilDue(lastProbe, i.now, minInterval, probeInterval);
      if wait.Some? {
        var refreshed := EvaluatePauseDecision(i.rules, w, i.now, false);
        if refreshed.Err? {
          return false, Err(());
        }
        return false, Ok((wait.value, false));
      }
      UpdateActivityStatusFromProbe(i.outcome);
      var pause := EvaluatePauseDecision(i.rules, w, i.now, i.outcome.Succeeded());
      if pause.Err? {
        return true, Err(());
      }
      var next := probeInterval;
      if !i.outcome.Succeeded() {
        next := minInterval;
      }
      return true, Ok((next, pause.value));
    }
  }

  /** The API server's copy of one Workspace. */
  class Store {
    var status: Status
    var specPaused: bool

    constructor ()
      ensures status == Status(Unknown, 0, NO_ACTIVITY) && !specPaused
    {
      status, specPaused := Status(Unknown, 0, NO_ACTIVITY), false;
    }

    /** `Reconcile`, from the computation of the status on. */
    method Reconcile(i: Inputs) returns (probed: bool, reply: Reply)
      modifies this
      ensures var e := ReconcileStep(old(status), i);
              status == e.stored && probed == e.probed && reply == e.reply
              && specPaused == (old(specPaused) || e.paused)
    {
      var workspace := new Workspace(status);
      workspace.RecordRunningTransition(i.newState, i.transitionTime);
      var verdict;
      probed, verdict := workspace.ReconcileActivity(i);
      if verdict.Err? {
        return probed, Failed;
      }
      if i.otherStatusChanged || workspace.Current() != status {
        if i.statusWrite == Conflict {
          return probed, Requeue(1);
        }
        if i.statusWrite == WriteFailed {
          return probed, Failed;
        }
        status := workspace.Current();
      }
      if verdict.value.1 {
        if i.pausePatch == Conflict {
          return probed, Requeue(1);
        }
        if i.pausePatch == WriteFailed {
          return probed, Failed;
        }
        specPaused := true;
        return probed, Requeue(0);
      }
      return probed, Requeue(Sooner(i.stateRequeue, verdict.value.0));
    }
  }
}
