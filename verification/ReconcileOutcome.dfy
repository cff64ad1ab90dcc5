/** What one whole reconcile answers and leaves behind: whether it probes and pauses, when it asks to come
    back, what it publishes, and that it drops no unfinished work. */
module ReconcileOutcome {
  import opened Prelude
  import opened ActivityRules
  import opened Activity
  import opened ActivityHistory
  import opened ActivityTiming

  /** A reconcile that gets as far as deciding whether a probe is due. */
  predicate Considers(i: Inputs) {
    i.newState == Running && i.probe.Some? && i.namespaceLabels.Ok?
  }

  /** The Workspace enters Running, or the record it has no longer holds the next probe back. */
  predicate NothingHoldsBack(s: Status, i: Inputs) {
    i.probe.Some? && (Restarts(s, i) || DueIn(s.activity.lastProbe, i.now, i.probe.value).None?)
  }

  /** Only running Workspaces with a probe configured are probed, after their labels have been read,
      and exactly when nothing holds the probe back. */
  lemma ProbesIff(s: Status, i: Inputs)
    ensures ReconcileStep(s, i).probed <==> Considers(i) && NothingHoldsBack(s, i)
  {
    StoredIfPersisted(s, i);
  }

  /** The rule that applies to this reconcile's Workspace. */
  function RuleFor(i: Inputs): Result<Decision, nat>
    requires i.namespaceLabels.Ok?
  {
    PauseRule(i.rules, Subject(i.namespaceLabels.value, i.podConfigLabels))
  }

  /** A pause is decided exactly when a probe runs and succeeds and the rule that applies asks for a
      pause and is met by the activity then known. */
  lemma DecidesPauseIff(s: Status, i: Inputs)
    ensures var a := ActivityStep(EnterState(s, i.newState, i.transitionTime), i).status;
            DecidesPause(s, i) <==>
            && ReconcileStep(s, i).probed && i.outcome.Succeeded()
            && Considers(i) && RuleFor(i).Ok? && RuleFor(i).value.matched && RuleFor(i).value.value
            && Eligible(a.activity.lastActivity, a.lastRunningTime, i.now,
                        RuleFor(i).value.secondsSinceActive, RuleFor(i).value.minRunningSeconds)
  {
    StoredIfPersisted(s, i);
    ProbesIff(s, i);
  }

  // ------------------------------------------------------------------ unfinished work

  /** Labels or rules of a running Workspace with a probe cannot be evaluated. */
  predicate Errs(i: Inputs) {
    i.newState == Running && i.probe.Some? && (i.namespaceLabels.Err? || RuleFor(i).Err?)
  }

  /** A reconcile whose status does not reach the API server never pauses, and is always retried: at once
      after a conflict, and as a failure otherwise. It is lost exactly when labels or rules cannot be
      evaluated or the write it needs is refused. */
  lemma UnpersistedIsRetried(s: Status, i: Inputs)
    ensures Errs(i) ==> !Persisted(s, i) && ReconcileStep(s, i).reply == Failed
    ensures !Errs(i) && i.statusWrite == Written ==> Persisted(s, i)
    ensures !Persisted(s, i) ==> !ReconcileStep(s, i).paused && ReconcileStep(s, i).stored == s
    ensures !Errs(i) && !Persisted(s, i) ==>
              ReconcileStep(s, i).reply == if i.statusWrite == Conflict then Requeue(1) else Failed
  {
  }

  /** A pause that is decided and persisted is never dropped: it is carried out when the patch is accepted,
      and otherwise the reconcile asks to be retried, at once after a conflict. */
  lemma DecidedPauseIsNeverDropped(s: Status, i: Inputs)
    requires DecidesPause(s, i) && Persisted(s, i)
    ensures var e := ReconcileStep(s, i);
            && (e.paused <==> i.pausePatch == Written)
            && (e.paused ==> e.reply == Requeue(0))
            && (i.pausePatch == Conflict ==> e.reply == Requeue(1))
            && (i.pausePatch == WriteFailed ==> e.reply == Failed)
  {
  }

  /** The retry itself cannot carry out a pause whose patch was refused: the probe that justified it is on record, so
      the next reconcile probes, and may pause, exactly when `probeInterval` has elapsed since. */
  lemma RefusedPauseWaitsForProbe(s: Status, i: Inputs, k: Inputs)
    requires DecidesPause(s, i) && Persisted(s, i) && i.pausePatch != Written && i.probe.value.Valid()
    requires Considers(k) && k.probe == i.probe && SaneTime(k.now) && SaneTime(i.outcome.startTime)
    requires ReconcileStep(s, i).stored.lastRunningTime != 0
    ensures var t := ReconcileStep(s, i).stored;
            && (ReconcileStep(t, k).probed <==>
                  k.now - i.outcome.startTime >= 1000 * i.probe.value.ProbeSeconds())
            && (!ReconcileStep(t, k).probed ==> !DecidesPause(t, k) && !ReconcileStep(t, k).paused)
  {
    var t := ReconcileStep(s, i).stored;
    DecidesPauseIff(s, i);
    LeavesRecord(s, i);
    OtherReconcilesLeaveActivityAlone(s, i);
    ProbesIff(t, k);
    DecidesPauseIff(t, k);
    PausesOnlyWhatIsDecided(t, k);
    DueInExact(RecordOf(Entry(i.outcome, i.probe.value)), k.now, k.probe.value);
  }

  lemma PausesOnlyWhatIsDecided(s: Status, i: Inputs)
    ensures ReconcileStep(s, i).paused ==> DecidesPause(s, i)
  {
  }

  /** The reply is a failure, or asks to come back. */
  predicate ComesBack(r: Reply) {
    r == Failed || (r.Requeue? && r.after > 0)
  }

  /** Every reconcile of a running Workspace with a probe comes back, unless it has paused it. */
  lemma RunningWorkspaceComesBack(s: Status, i: Inputs)
    requires i.newState == Running && i.probe.Some? && i.probe.value.Valid()
    requires SaneTime(i.now) && (s.activity.lastProbe.Some? ==> s.activity.lastProbe.value.startTime <= i.now)
    ensures ReconcileStep(s, i).paused || ComesBack(ReconcileStep(s, i).reply)
  {
    UnpersistedIsRetried(s, i);
    if Persisted(s, i) {
      if DecidesPause(s, i) {
        DecidedPauseIsNeverDropped(s, i);
      } else {
        RequeueIsExact(s, i);
        if s.activity.lastProbe.Some? {
          DueInExact(s.activity.lastProbe.value, i.now, i.probe.value);
        }
      }
    }
  }

  // ------------------------------------------------------------------ requeue

  /** Nanoseconds until this reconcile wants the next probe. */
  function UntilNextProbe(s: Status, i: Inputs): int
    requires Considers(i)
  {
    if !NothingHoldsBack(s, i) then DueIn(s.activity.lastProbe, i.now, i.probe.value).value
    else 1_000_000_000 * if i.outcome.Succeeded() then i.probe.value.ProbeSeconds() else i.probe.value.MinSeconds()
  }

  /** The delay asked for: after a success `probeInterval`, after any other probe `minProbeInterval`, and when
      none was due the time until one is; or the time the state computation asks for, if that is sooner. */
  lemma RequeueIsExact(s: Status, i: Inputs)
    requires Considers(i) && i.probe.value.Valid() && Persisted(s, i) && !DecidesPause(s, i)
    ensures var until := UntilNextProbe(s, i);
            var urgent := i.stateRequeue > 0 && (until <= 0 || i.stateRequeue < until);
            ReconcileStep(s, i).reply == Requeue(if urgent then i.stateRequeue else until)
  {
    ProbesIff(s, i);
    SecondsExact(i.probe.value.MinSeconds());
    SecondsExact(i.probe.value.ProbeSeconds());
  }

  /** That delay is the least one after which the next probe is due, whatever the outcome of the last. It counts from
      the start of the probe if one ran, and from the clock of the reconcile if not. */
  lemma RequeueIsLeast(s: Status, i: Inputs, d: int)
    requires Clocked(i) && Considers(i) && i.probe.value.Valid() && Persisted(s, i) && !DecidesPause(s, i)
    requires i.stateRequeue <= 0 && d >= 0
    requires s.activity.lastProbe.Some? ==> s.activity.lastProbe.value.startTime <= i.now
    requires SaneTime(d + if ReconcileStep(s, i).probed then i.outcome.startTime else i.now)
    ensures var e := ReconcileStep(s, i);
            var from := if e.probed then i.outcome.startTime else i.now;
            && e.reply.Requeue? && e.stored.activity.lastProbe.Some?
            && (DueIn(e.stored.activity.lastProbe, from + d, i.probe.value).None?
                <==> d * NANOS_PER_MILLI >= e.reply.after)
  {
    ProbesIff(s, i);
    RequeueIsExact(s, i);
    LeavesRecord(s, i);
    if ReconcileStep(s, i).probed {
      DueInExact(RecordOf(Entry(i.outcome, i.probe.value)), i.outcome.startTime + d, i.probe.value);
    } else {
      WaitIsExact(s.activity.lastProbe.value, i.now, i.probe.value, d);
    }
  }

  lemma LeavesRecord(s: Status, i: Inputs)
    requires Considers(i) && Persisted(s, i)
    ensures ReconcileStep(s, i).stored.activity.lastProbe ==
            if ReconcileStep(s, i).probed then Some(RecordOf(Entry(i.outcome, i.probe.value)))
            else s.activity.lastProbe
  {
    StoredIfPersisted(s, i);
    ProbesIff(s, i);
  }

  // ------------------------------------------------------------------ the published eligibility

  /** What a persisted reconcile of a running Workspace publishes, whether it probes or skips: an eligibility
      time exactly when the rule that applies asks for a pause, computed from the last activity it
      leaves; 0 as long as no activity is known. What was published before does not matter, except
      that a rule status, once there is one in this period, stays there empty. */
  lemma PublishedByReconcile(s: Status, i: Inputs)
    requires Considers(i) && Persisted(s, i)
    ensures RuleFor(i).Ok?
    ensures var a, d := ReconcileStep(s, i).stored.activity, RuleFor(i).value;
            var published := a.rules.Some? && a.rules.value.eligibleAfter.Some?;
            && (published <==> d.matched && d.value)
            && (!published ==> (a.rules.Some? <==> !Restarts(s, i) && s.activity.rules.Some?))
            && (published && Int32Seconds(d.secondsSinceActive) && a.lastActivity < 9_223_372_036_854 ==>
                  a.rules.value.eligibleAfter.value ==
                  if a.lastActivity <= 0 then 0 else a.lastActivity + 1000 * d.secondsSinceActive)
  {
    StoredIfPersisted(s, i);
    var d := RuleFor(i).value;
    if Int32Seconds(d.secondsSinceActive) {
      SecondsExact(d.secondsSinceActive);
    }
  }

  /** What a persisted reconcile of a running Workspace stores about its probe. One that ran is the last
      probe, with its times, result and message; if it succeeded, its end is the last update, and the activity
      it reports the last activity, even an older one. Without a report, and only while no activity is
      known, the start of the Running period takes its place. Nothing else changes either. */
  lemma RecordedByReconcile(s: Status, i: Inputs)
    requires Considers(i) && Persisted(s, i)
    ensures var before := if Restarts(s, i) then ActivityStatus(0, 0, None, None) else s.activity;
            var t, e := ReconcileStep(s, i).stored, ReconcileStep(s, i);
            && t.lastRunningTime == (if Restarts(s, i) then i.transitionTime else s.lastRunningTime)
            && (!e.probed ==> t.activity.lastProbe == before.lastProbe)
            && (e.probed ==>
                  && t.activity.lastProbe.Some?
                  && t.activity.lastProbe.value.startTime == i.outcome.startTime
                  && t.activity.lastProbe.value.endTime == i.outcome.endTime
                  && t.activity.lastProbe.value.result == i.outcome.result
                  && t.activity.lastProbe.value.message == i.outcome.message)
            && (if e.probed && i.outcome.result == Success then
                  && t.activity.lastUpdate == i.outcome.endTime
                  && (i.outcome.lastActivity.Some? ==> t.activity.lastActivity == i.outcome.lastActivity.value)
                  && (i.outcome.lastActivity.None? && (before.lastActivity > 0 || t.lastRunningTime <= 0) ==>
                        t.activity.lastActivity == before.lastActivity)
                  && (i.outcome.lastActivity.None? && before.lastActivity <= 0 && t.lastRunningTime > 0 ==>
                        t.activity.lastActivity == t.lastRunningTime)
                else t.activity.lastUpdate == before.lastUpdate && t.activity.lastActivity == before.lastActivity)
  {
    StoredIfPersisted(s, i);
  }

  /** A persisted reconcile always stores the new state. When the Workspace is not running or has no probe
      it stores nothing else, except that entering Running clears the activity; it then only passes
      on a requeue that the state computation asks for. */
  lemma OtherReconcilesLeaveActivityAlone(s: Status, i: Inputs)
    requires Persisted(s, i)
    ensures ReconcileStep(s, i).stored.state == i.newState
    ensures i.newState != Running || i.probe.None? ==>
              && ReconcileStep(s, i).stored.activity == (if Restarts(s, i) then NO_ACTIVITY else s.activity)
              && ReconcileStep(s, i).stored.lastRunningTime ==
                 (if Restarts(s, i) then i.transitionTime else s.lastRunningTime)
              && ReconcileStep(s, i).reply == Requeue(if i.stateRequeue > 0 then i.stateRequeue else 0)
              && !ReconcileStep(s, i).paused
  {
    StoredIfPersisted(s, i);
  }
}
