/** What the stored activity status says about the past: over every run of reconciles it is
    determined by the probes recorded since the Workspace last entered Running, and those
    probes are spaced as configured. */
module ActivityHistory {
  import opened Prelude
  import opened ActivityRules
  import opened Activity

  /** One recorded probe and the configuration in force when it ran. */
  datatype Entry = Entry(outcome: ProbeResult, config: ProbeConfig)

  /** What can happen to the stored status: a reconcile that reads it and gets as far as the activity
      step, one that stops early and only writes the state, or one that has read an outdated status
      (`seen`) from the cache, whose status write the API server refuses as a conflict. */
  datatype Event =
    | Reconciled(i: Inputs)
    | StateWritten(state: WorkspaceState)
    | Outdated(seen: Status, i: Inputs)

  const FRESH := Status(Unknown, 0, NO_ACTIVITY)

  /** The Workspace enters Running, which discards the activity of the previous period. */
  predicate Restarts(s: Status, i: Inputs) {
    i.newState == Running && (s.state != Running || s.lastRunningTime == 0)
  }

  /** The status computed by this reconcile reaches the API server. */
  predicate Persisted(s: Status, i: Inputs) {
    var a := ActivityStep(EnterState(s, i.newState, i.transitionTime), i);
    a.verdict.Ok? && (i.statusWrite == Written || (!i.otherStatusChanged && a.status == s))
  }

  function NextStatus(s: Status, e: Event): Status {
    match e
    case Reconciled(i) => ReconcileStep(s, i).stored
    case StateWritten(state) => s.(state := state)
    case Outdated(_, _) => s
  }

  /** The recorded probes of the current Running period. */
  function NextHistory(s: Status, h: seq<Entry>, e: Event): seq<Entry> {
    match e
    case StateWritten(_) => h
    case Outdated(_, _) => h
    case Reconciled(i) =>
      if !Persisted(s, i) then h
      else
        var base := if Restarts(s, i) then [] else h;
        if ReconcileStep(s, i).probed then base + [Entry(i.outcome, i.probe.value)] else base
  }

  /** The time the current Running period began, by the clock of the reconcile that noticed it. */
  function NextStart(s: Status, since: int, e: Event): int {
    if e.Reconciled? && Persisted(s, e.i) && Restarts(s, e.i) then e.i.transitionTime else since
  }

  /** A stored status, and apart from it what really happened: the recorded probes of the current
      Running period and the time it began. */
  datatype Past = Past(status: Status, history: seq<Entry>, since: int)

  function NextPast(p: Past, e: Event): Past {
    Past(NextStatus(p.status, e), NextHistory(p.status, p.history, e), NextStart(p.status, p.since, e))
  }

  /** A run that starts from a Workspace without status. */
  function Run(events: seq<Event>): Past {
    if events == [] then Past(FRESH, [], 0)
    else NextPast(Run(events[..|events| - 1]), events[|events| - 1])
  }

  // ------------------------------------------------------------------ status as a view of history

  function RecordOf(e: Entry): LastProbe {
    LastProbe(e.outcome.startTime, e.outcome.endTime, e.outcome.result, e.outcome.message)
  }

  function LatestProbe(h: seq<Entry>): Option<LastProbe> {
    if h == [] then None else Some(RecordOf(h[|h| - 1]))
  }

  /** End of the latest successful probe, 0 if there is none. */
  function LatestUpdate(h: seq<Entry>): int {
    if h == [] then 0
    else if h[|h| - 1].outcome.Succeeded() then h[|h| - 1].outcome.endTime
    else LatestUpdate(h[..|h| - 1])
  }

  /** The last activity known from the successful probes of a period that began at `since`. */
  function Observed(h: seq<Entry>, since: int): int {
    if h == [] then 0
    else
      var r, before := h[|h| - 1].outcome, Observed(h[..|h| - 1], since);
      if !r.Succeeded() then before
      else if r.lastActivity.Some? then r.lastActivity.value
      else if before <= 0 && since > 0 then since
      else before
  }

  ghost predicate Reflects(s: Status, h: seq<Entry>, since: int) {
    && s.activity.lastProbe == LatestProbe(h)
    && s.activity.lastUpdate == LatestUpdate(h)
    && s.activity.lastActivity == Observed(h, since)
    && s.lastRunningTime == since
  }

  lemma ReflectsAfterProbe(s: Status, h: seq<Entry>, since: int, e: Entry)
    requires Reflects(s, h, since)
    ensures Reflects(AfterProbe(s, e.outcome), h + [e], since)
  {
    assert (h + [e])[..|h + [e]| - 1] == h;
  }

  lemma ActivityStepReflects(s: Status, h: seq<Entry>, since: int, i: Inputs)
    requires Reflects(s, h, since)
    ensures var a := ActivityStep(s, i);
            && (a.probed ==> i.probe.Some?)
            && Reflects(a.status, if a.probed then h + [Entry(i.outcome, i.probe.value)] else h, since)
  {
    if i.probe.Some? {
      ReflectsAfterProbe(s, h, since, Entry(i.outcome, i.probe.value));
    }
  }

  lemma StoredIfPersisted(s: Status, i: Inputs)
    ensures var a, e := ActivityStep(EnterState(s, i.newState, i.transitionTime), i), ReconcileStep(s, i);
            && e.probed == a.probed
            && (a.probed ==> i.probe.Some?)
            && e.stored == if Persisted(s, i) then a.status else s
  {
  }

  lemma StepKeepsReflects(p: Past, e: Event)
    requires Reflects(p.status, p.history, p.since)
    ensures var q := NextPast(p, e); Reflects(q.status, q.history, q.since)
  {
    if e.Reconciled? {
      var i := e.i;
      var restarts := Restarts(p.status, i);
      var t := EnterState(p.status, i.newState, i.transitionTime);
      var base, since := if restarts then [] else p.history, if restarts then i.transitionTime else p.since;
      assert Reflects(t, base, since);
      ActivityStepReflects(t, base, since, i);
      StoredIfPersisted(p.status, i);
    }
  }

  /** Over every run the stored status is a function of what really happened in the current Running
      period: its start and the probes recorded since. */
  lemma {:induction false} StatusRefinesHistory(events: seq<Event>)
    ensures var p := Run(events); Reflects(p.status, p.history, p.since)
  {
    if events != [] {
      StatusRefinesHistory(events[..|events| - 1]);
      StepKeepsReflects(Run(events[..|events| - 1]), events[|events| - 1]);
    }
  }

  /** The history without its failed and timed-out probes. */
  function Successes(h: seq<Entry>): (r: seq<Entry>)
    ensures forall k :: 0 <= k < |r| ==> r[k].outcome.Succeeded()
  {
    if h == [] then []
    else if h[|h| - 1].outcome.Succeeded() then Successes(h[..|h| - 1]) + [h[|h| - 1]]
    else Successes(h[..|h| - 1])
  }

  /** A failed probe never moves `lastActivity` or `lastUpdate`: deleting every failure from the
      history leaves both unchanged. */
  lemma {:induction false} FailuresAreInvisible(h: seq<Entry>, since: int)
    ensures Observed(Successes(h), since) == Observed(h, since)
    ensures LatestUpdate(Successes(h)) == LatestUpdate(h)
  {
    if h != [] {
      var front := h[..|h| - 1];
      FailuresAreInvisible(front, since);
      if h[|h| - 1].outcome.Succeeded() {
        var s := Successes(h);
        assert s[..|s| - 1] == Successes(front);
      }
    }
  }

  /** `k` is the latest successful probe that reported an activity time. */
  ghost predicate LastReport(h: seq<Entry>, k: int) {
    && 0 <= k < |h| && h[k].outcome.Succeeded() && h[k].outcome.lastActivity.Some?
    && forall j :: k < j < |h| && h[j].outcome.Succeeded() ==> h[j].outcome.lastActivity.None?
  }

  /** `Observed` without recursion: the latest report stands, unless it is unusable and a later
      silent success replaced it with the start of the period; with no report at all, the
      start of the period stands as soon as one probe has succeeded. */
  lemma {:induction false} ObservedMeaning(h: seq<Entry>, since: int)
    ensures forall k :: LastReport(h, k) ==>
              Observed(h, since) ==
              (if h[k].outcome.lastActivity.value <= 0 && since > 0 &&
                  (exists j :: k < j < |h| && h[j].outcome.Succeeded())
               then since else h[k].outcome.lastActivity.value)
    ensures (forall k :: 0 <= k < |h| && h[k].outcome.Succeeded() ==> h[k].outcome.lastActivity.None?) ==>
              Observed(h, since) ==
              (if since > 0 && exists k :: 0 <= k < |h| && h[k].outcome.Succeeded() then since else 0)
  {
    if h != [] {
      var n := |h| - 1;
      var front, last := h[..n], h[n];
      assert h == front + [last];
      ObservedMeaning(front, since);
      forall k | LastReport(h, k)
        ensures Observed(h, since) ==
                (if h[k].outcome.lastActivity.value <= 0 && since > 0 &&
                    (exists j :: k < j < |h| && h[j].outcome.Succeeded())
                 then since else h[k].outcome.lastActivity.value)
      {
        if k < n {
          assert LastReport(front, k);
        }
      }
      if forall k :: 0 <= k < |h| && h[k].outcome.Succeeded() ==> h[k].outcome.lastActivity.None? {
        assert forall k :: 0 <= k < n ==> front[k] == h[k];
      }
    }
  }

  /** `LatestUpdate` without recursion: the end of the last success, 0 if nothing has succeeded. */
  lemma {:induction false} LatestUpdateMeaning(h: seq<Entry>)
    ensures forall k ::
              0 <= k < |h| && h[k].outcome.Succeeded() && (forall j :: k < j < |h| ==> !h[j].outcome.Succeeded()) ==>
                LatestUpdate(h) == h[k].outcome.endTime
    ensures (forall k :: 0 <= k < |h| ==> !h[k].outcome.Succeeded()) ==> LatestUpdate(h) == 0
  {
    if h != [] && !h[|h| - 1].outcome.Succeeded() {
      var front := h[..|h| - 1];
      LatestUpdateMeaning(front);
      assert forall k :: 0 <= k < |front| ==> front[k] == h[k];
    }
  }

  // ------------------------------------------------------------------ pauses

  /** `reconcileActivity` answers that the Workspace should be paused. */
  predicate DecidesPause(s: Status, i: Inputs) {
    var a := ActivityStep(EnterState(s, i.newState, i.transitionTime), i);
    a.verdict.Ok? && a.verdict.value.1
  }

  // What a single reconcile has checked when it decides to pause.
  lemma PauseNeedsFreshProbe(s: Status, i: Inputs)
    requires DecidesPause(s, i)
    ensures i.probe.Some? && i.newState == Running && i.namespaceLabels.Ok?
    ensures var a, w := ActivityStep(EnterState(s, i.newState, i.transitionTime), i),
                        Subject(i.namespaceLabels.value, i.podConfigLabels);
            && a.probed && i.outcome.Succeeded() && a.status.activity.lastUpdate == i.outcome.endTime
            && PauseRule(i.rules, w).Ok? && PauseRule(i.rules, w).value.matched && PauseRule(i.rules, w).value.value
            && Eligible(a.status.activity.lastActivity, a.status.lastRunningTime, i.now,
                        PauseRule(i.rules, w).value.secondsSinceActive, PauseRule(i.rules, w).value.minRunningSeconds)
    ensures ReconcileStep(s, i).paused ==> Persisted(s, i)
  {
  }

  /** Over every run, a pause decision rests on a probe that ran and succeeded in that same
      reconcile, on the activity known from the recorded probes of this Running period with that
      probe last, and on a matching rule that asks for a pause and is met. `spec.paused` is
      set only after that evidence has been persisted. So a reconcile that skips its probe or
      whose probe fails never pauses, whatever the stored status says. */
  lemma PauseSafety(events: seq<Event>, i: Inputs)
    requires DecidesPause(Run(events).status, i)
    ensures i.probe.Some? && i.newState == Running && i.namespaceLabels.Ok?
    ensures ReconcileStep(Run(events).status, i).probed && i.outcome.Succeeded()
    ensures var p, w := Run(events), Subject(i.namespaceLabels.value, i.podConfigLabels);
            var restarts := Restarts(p.status, i);
            var since := if restarts then i.transitionTime else p.since;
            var h := (if restarts then [] else p.history) + [Entry(i.outcome, i.probe.value)];
            var a := ActivityStep(EnterState(p.status, i.newState, i.transitionTime), i).status;
            && Reflects(a, h, since) && a.activity.lastUpdate == i.outcome.endTime
            && PauseRule(i.rules, w).Ok? && PauseRule(i.rules, w).value.matched && PauseRule(i.rules, w).value.value
            && Eligible(Observed(h, since), since, i.now,
                        PauseRule(i.rules, w).value.secondsSinceActive, PauseRule(i.rules, w).value.minRunningSeconds)
            && (ReconcileStep(p.status, i).paused ==> NextPast(p, Reconciled(i)) == Past(a, h, since))
  {
    var p := Run(events);
    StatusRefinesHistory(events);
    PauseNeedsFreshProbe(p.status, i);
    var restarts := Restarts(p.status, i);
    ActivityStepReflects(EnterState(p.status, i.newState, i.transitionTime),
                         if restarts then [] else p.history, if restarts then i.transitionTime else p.since, i);
    StoredIfPersisted(p.status, i);
  }

  /** The rule timings fit the CRD's int32 fields. */
  predicate SaneRules(rules: seq<ActivityRule>) {
    forall k :: 0 <= k < |rules| ==>
      && Int32Seconds(rules[k].secondsSinceActive)
      && (rules[k].minRunningSeconds.Some? ==> Int32Seconds(rules[k].minRunningSeconds.value))
  }

  lemma SaneRulesDecideSanely(rules: seq<ActivityRule>, w: Subject)
    requires SaneRules(rules) && PauseRule(rules, w).Ok?
    ensures Int32Seconds(PauseRule(rules, w).value.secondsSinceActive)
    ensures Int32Seconds(PauseRule(rules, w).value.minRunningSeconds)
  {
  }

  ghost predicate ReportsSince(h: seq<Entry>, t: int) {
    forall k :: 0 <= k < |h| && h[k].outcome.Succeeded() && h[k].outcome.lastActivity.Some? ==>
      h[k].outcome.lastActivity.value >= t
  }

  lemma {:induction false} ObservedNotBefore(h: seq<Entry>, since: int)
    requires since > 0 && ReportsSince(h, since)
    ensures Observed(h, since) == 0 || Observed(h, since) >= since
  {
    if h != [] {
      assert ReportsSince(h[..|h| - 1], since);
      ObservedNotBefore(h[..|h| - 1], since);
    }
  }

  /** A restarted Workspace is not paused for what happened before the restart: over every run,
      if the probes recorded since it entered Running report no activity from before that
      moment, a pause comes at least `secondsSinceActive` after it. */
  lemma RestartGrace(events: seq<Event>, i: Inputs)
    requires ReconcileStep(Run(events).status, i).paused && SaneTime(i.now) && SaneRules(i.rules)
    requires var q := NextPast(Run(events), Reconciled(i));
             SaneTime(q.since) && ReportsSince(q.history, q.since) && q.status.activity.lastActivity < 9_223_372_036_854
    ensures i.namespaceLabels.Ok?
    ensures var w, q := Subject(i.namespaceLabels.value, i.podConfigLabels), NextPast(Run(events), Reconciled(i));
            PauseRule(i.rules, w).Ok?
            && i.now >= q.since + 1000 * PauseRule(i.rules, w).value.secondsSinceActive
            && i.now >= q.since + 1000 * PauseRule(i.rules, w).value.minRunningSeconds
  {
    PauseSafety(events, i);
    var q := NextPast(Run(events), Reconciled(i));
    ObservedNotBefore(q.history, q.since);
    SaneRulesDecideSanely(i.rules, Subject(i.namespaceLabels.value, i.podConfigLabels));
    var d := PauseRule(i.rules, Subject(i.namespaceLabels.value, i.podConfigLabels)).value;
    EligibleExact(q.status.activity.lastActivity, q.since, i.now, d.secondsSinceActive, d.minRunningSeconds);
  }

  // ------------------------------------------------------------------ the published eligibility

  /** `evaluatePauseDecision` leaves a status that depends on the inputs alone: the published
      eligibility is present exactly when the matched rule asks for a pause, is computed from
      the current activity whatever was published before, and a second evaluation changes nothing. */
  lemma EvaluationIsNeverStale(s: Status, rules: seq<ActivityRule>, w: Subject, other: Option<RulesStatus>)
    requires PauseRule(rules, w).Ok?
    ensures var t, d := AfterEvaluation(s, rules, w), PauseRule(rules, w).value;
            && (t.activity.rules.Some? && t.activity.rules.value.eligibleAfter.Some? <==>
                  rules != [] && d.matched && d.value)
            && (d.matched && d.value ==>
                  t.activity.rules ==
                    Some(RulesStatus(Some(EligibleAfter(s.activity.lastActivity, d.secondsSinceActive)))))
            && t.(activity := t.activity.(rules := s.activity.rules)) == s
            && AfterEvaluation(t, rules, w) == t
            && (d.matched && d.value ==>
                  AfterEvaluation(s.(activity := s.activity.(rules := other)), rules, w) == t)
  {
  }
}
