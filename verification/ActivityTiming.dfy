/** When probes run: the wait is exact, recorded probes are spaced as configured, and an idle
    Workspace is paused within a bounded time. */
module ActivityTiming {
  import opened Prelude
  import opened ActivityRules
  import opened Activity
  import opened ActivityHistory

  /** Milliseconds a probe with this result keeps the next one away. */
  function RequiredMillis(c: ProbeConfig, result: ProbeOutcome): int {
    1000 * (if result == Success then c.ProbeSeconds() else c.MinSeconds())
  }

  function DueIn(last: Option<LastProbe>, now: int, c: ProbeConfig): Option<int> {
    TimeUntilDue(last, now, Seconds(c.MinSeconds()), Seconds(c.ProbeSeconds()))
  }

  /** int64 nanosecond arithmetic agrees with exact integers over the whole range of sane
      clocks and of intervals the CRD accepts. When the clock has jumped back behind the last
      probe only the decision is exact, not the wait. */
  lemma DueInExact(last: LastProbe, now: int, c: ProbeConfig)
    requires c.Valid() && SaneTime(now) && last.startTime < 9_223_372_036_854
    ensures var remaining := last.startTime + RequiredMillis(c, last.result) - now;
            && (DueIn(Some(last), now, c).Some? <==> last.startTime > 0 && remaining > 0)
            && (0 < remaining && 0 < last.startTime <= now ==>
                  DueIn(Some(last), now, c) == Some(remaining * NANOS_PER_MILLI))
  {
    SecondsExact(c.MinSeconds());
    SecondsExact(c.ProbeSeconds());
    var elapsed := (now - last.startTime) * NANOS_PER_MILLI;
    assert last.startTime > 0 ==> Millis(Wrap64(now - last.startTime)) == elapsed;
  }

  /** Where an interval is not configured, a probe is due an hour after one that succeeded, and five minutes
      after any other. */
  lemma DefaultIntervals(last: LastProbe, now: int, c: ProbeConfig)
    requires c.Valid() && SaneTime(now) && SaneTime(last.startTime)
    ensures c.probeIntervalSeconds.None? && last.result == Success ==>
              (DueIn(Some(last), now, c).None? <==> now - last.startTime >= 60 * 60 * 1000)
    ensures c.minProbeIntervalSeconds.None? && last.result != Success ==>
              (DueIn(Some(last), now, c).None? <==> now - last.startTime >= 5 * 60 * 1000)
  {
    DueInExact(last, now, c);
  }

  /** A wait that is handed out is the least one: waiting it makes the probe due, and nothing
      shorter does. It is positive, and no longer than the required interval. */
  lemma WaitIsExact(last: LastProbe, now: int, c: ProbeConfig, d: int)
    requires c.Valid() && SaneTime(now) && SaneTime(last.startTime) && last.startTime <= now
    requires DueIn(Some(last), now, c).Some?
    requires 0 <= d && SaneTime(now + d)
    ensures var wait := DueIn(Some(last), now, c).value;
            && 0 < wait <= RequiredMillis(c, last.result) * NANOS_PER_MILLI
            && (DueIn(Some(last), now + d, c).None? <==> d * NANOS_PER_MILLI >= wait)
  {
    DueInExact(last, now, c);
    DueInExact(last, now + d, c);
  }

  /** The comment on `timeUntilProbeDue` says that both intervals must have elapsed. The code asks for the
      longer one only after a success, and so differs from the comment exactly when the last
      probe did not succeed and the time since lies between the two intervals. */
  lemma DueDiffersFromComment(last: LastProbe, now: int, c: ProbeConfig)
    requires c.Valid() && SaneTime(now) && SaneTime(last.startTime)
    ensures var elapsed := now - last.startTime;
            var both := elapsed >= 1000 * c.MinSeconds() && elapsed >= 1000 * c.ProbeSeconds();
            (DueIn(Some(last), now, c).None? <==> both) <==>
            (last.result == Success || elapsed < 1000 * c.MinSeconds() || elapsed >= 1000 * c.ProbeSeconds())
  {
    DueInExact(last, now, c);
  }

  /** An input where they differ: a failed probe is retried before `probeInterval` has elapsed. */
  lemma DueBeforeBothIntervals() returns (last: LastProbe, now: int, c: ProbeConfig)
    ensures c.Valid() && SaneTime(now) && SaneTime(last.startTime)
    ensures DueIn(Some(last), now, c).None? && now - last.startTime < 1000 * c.ProbeSeconds()
  {
    last, now, c := LastProbe(1, 1, Failure, ""), 300_001, ProbeConfig(None, None);
    DueInExact(last, now, c);
  }

  /** A clock that stays in range and does not run backwards inside one reconcile. */
  predicate Clocked(i: Inputs) {
    SaneTime(i.now) && i.now <= i.outcome.startTime <= i.outcome.endTime <= i.done && SaneTime(i.done)
  }

  predicate ValidConfig(i: Inputs) {
    i.probe.Some? ==> i.probe.value.Valid()
  }

  /** Returning no sooner than asked after a recorded probe always finds the next one due. */
  lemma RequeueFindsProbeDue(s: Status, i: Inputs, k: Inputs)
    requires Clocked(i) && ValidConfig(i) && Clocked(k)
    requires ReconcileStep(s, i).probed && Persisted(s, i) && !DecidesPause(s, i)
    requires ReconcileStep(s, i).reply.Requeue? && i.stateRequeue <= 0
    requires (k.now - i.outcome.endTime) * NANOS_PER_MILLI >= ReconcileStep(s, i).reply.after
    requires k.newState == Running && k.probe == i.probe && k.namespaceLabels.Ok?
    ensures ReconcileStep(ReconcileStep(s, i).stored, k).probed
  {
    StoredIfPersisted(s, i);
    var c := i.probe.value;
    var s' := ReconcileStep(s, i).stored;
    var last := RecordOf(Entry(i.outcome, c));
    assert s'.activity.lastProbe == Some(last);
    SecondsExact(c.MinSeconds());
    SecondsExact(c.ProbeSeconds());
    assert ReconcileStep(s, i).reply.after == RequiredMillis(c, last.result) * NANOS_PER_MILLI;
    DueInExact(last, k.now, c);
  }

  // ------------------------------------------------------------------ spacing

  /** Each recorded probe starts no sooner after the one before it than the configuration in
      force when it ran asks for. */
  ghost predicate Spaced(h: seq<Entry>) {
    forall k :: 0 <= k < |h| - 1 ==>
      h[k + 1].outcome.startTime - h[k].outcome.startTime
        >= RequiredMillis(h[k + 1].config, h[k].outcome.result)
        >= 1000 * h[k + 1].config.MinSeconds()
  }

  predicate SaneEvent(e: Event) {
    e.Reconciled? ==> Clocked(e.i) && ValidConfig(e.i)
  }

  ghost predicate SaneHistory(h: seq<Entry>) {
    forall k :: 0 <= k < |h| ==> SaneTime(h[k].outcome.startTime)
  }

  /** A probe that runs without a restart comes late enough after the last recorded one. */
  lemma ProbeWaitsForInterval(s: Status, last: LastProbe, i: Inputs)
    requires Clocked(i) && ValidConfig(i) && !Restarts(s, i)
    requires s.activity.lastProbe == Some(last) && SaneTime(last.startTime)
    requires ReconcileStep(s, i).probed
    ensures i.probe.Some?
    ensures i.now - last.startTime >= RequiredMillis(i.probe.value, last.result)
  {
    StoredIfPersisted(s, i);
    DueInExact(last, i.now, i.probe.value);
  }

  lemma StepKeepsSpacing(s: Status, h: seq<Entry>, since: int, e: Event)
    requires Reflects(s, h, since) && Spaced(h) && SaneHistory(h) && SaneEvent(e)
    ensures Spaced(NextHistory(s, h, e)) && SaneHistory(NextHistory(s, h, e))
  {
    if e.Reconciled? && ReconcileStep(s, e.i).probed && !Restarts(s, e.i) && h != [] {
      ProbeWaitsForInterval(s, RecordOf(h[|h| - 1]), e.i);
    }
  }

  /** Probe spacing over every run: the recorded probes of a Running period are at least
      `minProbeInterval` apart, and at least `probeInterval` apart after a success. The clock may
      jump between reconciles and the configuration may change at any time. */
  lemma {:induction false} ProbeSpacing(events: seq<Event>)
    requires forall k :: 0 <= k < |events| ==> SaneEvent(events[k])
    ensures Spaced(Run(events).history) && SaneHistory(Run(events).history)
  {
    if events != [] {
      var front := events[..|events| - 1];
      ProbeSpacing(front);
      StatusRefinesHistory(front);
      var p := Run(front);
      StepKeepsSpacing(p.status, p.history, p.since, events[|events| - 1]);
    }
  }

  // ------------------------------------------------------------------ runs of reconciles

  function StatusAt(s: Status, run: seq<Inputs>, k: nat): Status
    requires k <= |run|
  {
    if k == 0 then s else ReconcileStep(StatusAt(s, run, k - 1), run[k - 1]).stored
  }

  function EffectAt(s: Status, run: seq<Inputs>, k: nat): Effect
    requires k < |run|
  {
    ReconcileStep(StatusAt(s, run, k), run[k])
  }

  // ------------------------------------------------------------------ pause latency

  /** A reconcile in which nothing interferes: the Workspace is Running, the configuration and the
      deciding rule stand, and every write succeeds. */
  ghost predicate Steady(i: Inputs, c: ProbeConfig, d: Decision) {
    && i.newState == Running && i.probe == Some(c) && i.namespaceLabels.Ok?
    && PauseRule(i.rules, Subject(i.namespaceLabels.value, i.podConfigLabels)) == Ok(d)
    && i.statusWrite == Written && i.pausePatch == Written
  }

  /** The probe would succeed and would not change the known last activity. */
  predicate Quiet(i: Inputs, lastActivity: int) {
    i.outcome.Succeeded() && (i.outcome.lastActivity.Some? ==> i.outcome.lastActivity.value == lastActivity)
  }

  /** The next reconcile starts after this one has returned, and no later than it asked for. */
  ghost predicate Timely(i: Inputs, e: Effect, next: Inputs) {
    && i.done <= next.now
    && e.reply.Requeue? && (next.now - i.done) * NANOS_PER_MILLI <= e.reply.after
  }

  /** A decision for a pause, with timings that fit the CRD's int32 fields. */
  predicate AsksForPause(d: Decision) {
    d.matched && d.value && Int32Seconds(d.secondsSinceActive) && Int32Seconds(d.minRunningSeconds)
  }

  /** Hypotheses of the latency bound: `probing` and `skipping` bound how long a reconcile
      takes when it runs the probe and when it does not. */
  ghost predicate Unattended(s: Status, run: seq<Inputs>, c: ProbeConfig, d: Decision, probing: nat, skipping: nat) {
    && c.Valid() && AsksForPause(d)
    && s.state == Running && SaneTime(s.lastRunningTime) && SaneTime(s.activity.lastActivity)
    && (forall k :: 0 <= k < |run| ==>
          Clocked(run[k]) && Steady(run[k], c, d) && Quiet(run[k], s.activity.lastActivity))
    && (forall k :: 0 <= k < |run| ==>
          run[k].done - run[k].now <= if EffectAt(s, run, k).probed then probing else skipping)
    && (forall k :: 0 <= k < |run| - 1 && !EffectAt(s, run, k).paused ==>
          Timely(run[k], EffectAt(s, run, k), run[k + 1]))
    && (s.activity.lastProbe.Some? && |run| > 0 ==>
          s.activity.lastProbe.value.startTime <= run[0].now)
  }

  /** From `e` on, a Workspace with this status meets the rule. */
  predicate EligibleFrom(s: Status, d: Decision, e: int) {
    && e >= s.activity.lastActivity + 1000 * d.secondsSinceActive
    && e >= s.lastRunningTime + 1000 * d.minRunningSeconds
  }

  /** One undisturbed reconcile: it pauses if it probes at or after the eligibility time; if not it
      leaves the known activity alone and asks to come back when the next probe is due. */
  lemma SteadyStep(s: Status, i: Inputs, c: ProbeConfig, d: Decision, e: int)
    requires c.Valid() && AsksForPause(d)
    requires s.state == Running && SaneTime(s.lastRunningTime) && SaneTime(s.activity.lastActivity)
    requires Clocked(i) && Steady(i, c, d) && Quiet(i, s.activity.lastActivity) && EligibleFrom(s, d, e)
    requires s.activity.lastProbe.Some? ==> s.activity.lastProbe.value.startTime <= i.now
    ensures var r := ReconcileStep(s, i);
            && r.stored.state == Running && r.stored.lastRunningTime == s.lastRunningTime
            && r.stored.activity.lastActivity == s.activity.lastActivity
            && r.stored.activity.lastProbe.Some?
            && (r.probed ==> r.stored.activity.lastProbe.value.startTime == i.outcome.startTime)
            && (!r.probed ==> r.stored.activity.lastProbe == s.activity.lastProbe)
            && (r.probed && i.now >= e ==> r.paused)
            && (!r.paused ==> r.reply.Requeue?)
            && (!r.paused && r.probed ==> r.reply.after <= 1000 * c.ProbeSeconds() * NANOS_PER_MILLI)
            && (!r.probed ==>
                  r.reply.after <=
                    (s.activity.lastProbe.value.startTime + 1000 * c.ProbeSeconds() - i.now) * NANOS_PER_MILLI)
  {
    SecondsExact(c.MinSeconds());
    SecondsExact(c.ProbeSeconds());
    EligibleExact(s.activity.lastActivity, s.lastRunningTime, i.now, d.secondsSinceActive, d.minRunningSeconds);
    StoredIfPersisted(s, i);
    if s.activity.lastProbe.Some? {
      DueInExact(s.activity.lastProbe.value, i.now, c);
    }
  }

  /** The latest time at which an idle Workspace that meets the rule from `e` on is paused. */
  function Deadline(c: ProbeConfig, e: int, probing: nat, skipping: nat): int {
    e + 1000 * c.ProbeSeconds() + probing + skipping
  }

  /** A reconcile that does not pause comes before the deadline again: its last probe started at most
      `probing` after the eligibility time, and it asks for the next one in time. */
  lemma NextIsInTime(s: Status, i: Inputs, c: ProbeConfig, d: Decision, e: int, probing: nat, skipping: nat)
    requires c.Valid() && AsksForPause(d)
    requires s.state == Running && SaneTime(s.lastRunningTime) && SaneTime(s.activity.lastActivity)
    requires Clocked(i) && Steady(i, c, d) && Quiet(i, s.activity.lastActivity) && EligibleFrom(s, d, e)
    requires s.activity.lastProbe.Some? ==>
               s.activity.lastProbe.value.startTime <= i.now && s.activity.lastProbe.value.startTime <= e + probing
    requires i.done - i.now <= if ReconcileStep(s, i).probed then probing else skipping
    requires !ReconcileStep(s, i).paused
    ensures var r := ReconcileStep(s, i);
            && r.stored.activity.lastProbe.Some?
            && r.stored.activity.lastProbe.value.startTime <= i.done
            && r.stored.activity.lastProbe.value.startTime <= e + probing
            && r.reply.Requeue?
            && r.reply.after <= (Deadline(c, e, probing, skipping) - i.done) * NANOS_PER_MILLI
  {
    SteadyStep(s, i, c, d, e);
  }

  /** As long as nothing has paused the Workspace its known activity stands and every reconcile comes
      before the deadline. */
  lemma {:induction false} StillRunning(s: Status, run: seq<Inputs>, c: ProbeConfig, d: Decision, e: int,
                                        probing: nat, skipping: nat, k: nat)
    requires Unattended(s, run, c, d, probing, skipping) && EligibleFrom(s, d, e)
    requires 0 < |run| && run[0].now <= e && k < |run|
    requires forall j :: 0 <= j < k ==> !EffectAt(s, run, j).paused
    ensures var t := StatusAt(s, run, k);
            && t.state == Running && t.lastRunningTime == s.lastRunningTime
            && t.activity.lastActivity == s.activity.lastActivity
            && (t.activity.lastProbe.Some? ==>
                  && t.activity.lastProbe.value.startTime <= run[k].now
                  && t.activity.lastProbe.value.startTime <= e + probing)
    ensures run[k].now <= Deadline(c, e, probing, skipping)
  {
    if k > 0 {
      StillRunning(s, run, c, d, e, probing, skipping, k - 1);
      var t := StatusAt(s, run, k - 1);
      assert EffectAt(s, run, k - 1) == ReconcileStep(t, run[k - 1]);
      SteadyStep(t, run[k - 1], c, d, e);
      NextIsInTime(t, run[k - 1], c, d, e, probing, skipping);
      assert Timely(run[k - 1], EffectAt(s, run, k - 1), run[k - 1 + 1]);
    }
  }

  /** Bounded pause latency: an idle Workspace that meets the rule from `e` on is paused by a
      reconcile whose clock reads at most `e + probeInterval + probing + skipping`, however many
      extra reconciles are interleaved. No run gets past that time without a pause: until it comes, every
      reconcile and the next one asked for lie before it. With instantaneous skips the bound is the
      documented `probeInterval` plus the duration of one probe. */
  lemma BoundedPauseLatency(s: Status, run: seq<Inputs>, c: ProbeConfig, d: Decision, e: int,
                            probing: nat, skipping: nat)
    requires Unattended(s, run, c, d, probing, skipping) && EligibleFrom(s, d, e)
    requires 0 < |run| && run[0].now <= e
    ensures var bound, last := Deadline(c, e, probing, skipping), |run| - 1;
            || (exists k :: 0 <= k < |run| && EffectAt(s, run, k).paused && run[k].now <= bound)
            || (&& (forall k :: 0 <= k < |run| ==> !EffectAt(s, run, k).paused && run[k].now <= bound)
                && EffectAt(s, run, last).reply.Requeue?
                && EffectAt(s, run, last).reply.after <= (bound - run[last].done) * NANOS_PER_MILLI)
  {
    for k := 0 to |run|
      invariant forall j :: 0 <= j < k ==>
                  !EffectAt(s, run, j).paused && run[j].now <= Deadline(c, e, probing, skipping)
    {
      StillRunning(s, run, c, d, e, probing, skipping, k);
      if EffectAt(s, run, k).paused {
        return;
      }
    }
    var last := |run| - 1;
    StillRunning(s, run, c, d, e, probing, skipping, last);
    NextIsInTime(StatusAt(s, run, last), run[last], c, d, e, probing, skipping);
  }

  // One reconcile of the run that attains the bound.
  function SlowStep(c: ProbeConfig, now: int, done: int): Inputs {
    Inputs(Running, 0, now, now, Some(c), [ActivityRule(16, None, [], Some(true))], Ok(map[]), map[],
           ProbeResult(done, done, Success, "", None), false, Written, Written, done)
  }

  lemma SlowStepsAreSteady(c: ProbeConfig, now: int, done: int)
    ensures Steady(SlowStep(c, now, done), c, Decision(true, true, 16, 0))
  {
    var rules := SlowStep(c, now, done).rules;
    assert Decisive(rules[0], Subject(map[], map[]));
  }

  // A Workspace that has been idle since it entered Running at `since`.
  predicate IdleSince(s: Status, since: int) {
    s.state == Running && s.lastRunningTime == since && s.activity.lastActivity == since
  }

  lemma SlowStepEffect(s: Status, c: ProbeConfig, since: int, now: int, done: int)
    requires c.Valid() && IdleSince(s, since) && SaneTime(since) && SaneTime(now) && now <= done
    requires s.activity.lastProbe.Some? ==>
               var last := s.activity.lastProbe.value;
               last.result == Success && SaneTime(last.startTime) && last.startTime <= now
    ensures var r := ReconcileStep(s, SlowStep(c, now, done));
            var due := s.activity.lastProbe.None?
                       || now >= s.activity.lastProbe.value.startTime + 1000 * c.ProbeSeconds();
            && r.probed == due && IdleSince(r.stored, since)
            && r.stored.activity.lastProbe ==
               (if due then Some(LastProbe(done, done, Success, "")) else s.activity.lastProbe)
            && (r.paused <==> due && now >= since + 16_000)
            && (!r.paused ==> r.reply == Requeue(NANOS_PER_MILLI *
                  if due then 1000 * c.ProbeSeconds()
                  else s.activity.lastProbe.value.startTime + 1000 * c.ProbeSeconds() - now))
  {
    SlowStepsAreSteady(c, now, done);
    SecondsExact(c.ProbeSeconds());
    EligibleExact(since, since, now, 16, 0);
    StoredIfPersisted(s, SlowStep(c, now, done));
    if s.activity.lastProbe.Some? {
      DueInExact(s.activity.lastProbe.value, now, c);
    }
  }

  // Builds `Unattended` for three reconciles from facts about each of them.
  lemma UnattendedThree(s: Status, run: seq<Inputs>, c: ProbeConfig, d: Decision, probing: nat, skipping: nat)
    requires |run| == 3 && c.Valid() && d == Decision(true, true, 16, 0)
    requires SaneTime(s.activity.lastActivity) && IdleSince(s, s.activity.lastActivity) && s.activity.lastProbe.None?
    requires Clocked(run[0]) && Steady(run[0], c, d) && Quiet(run[0], s.activity.lastActivity)
    requires Clocked(run[1]) && Steady(run[1], c, d) && Quiet(run[1], s.activity.lastActivity)
    requires Clocked(run[2]) && Steady(run[2], c, d) && Quiet(run[2], s.activity.lastActivity)
    requires run[0].done - run[0].now <= probing && EffectAt(s, run, 0).probed
    requires run[1].done - run[1].now <= skipping && !EffectAt(s, run, 1).probed
    requires Timely(run[0], EffectAt(s, run, 0), run[1]) && Timely(run[1], EffectAt(s, run, 1), run[2])
    requires run[2].done - run[2].now <= probing && EffectAt(s, run, 2).probed
    ensures Unattended(s, run, c, d, probing, skipping)
  {
    forall k | 0 <= k < 3
      ensures Clocked(run[k]) && Steady(run[k], c, d) && Quiet(run[k], s.activity.lastActivity)
      ensures run[k].done - run[k].now <= if EffectAt(s, run, k).probed then probing else skipping
    {
      assert k == 0 || k == 1 || k == 2;
    }
    forall k | 0 <= k < 2
      ensures Timely(run[k], EffectAt(s, run, k), run[k + 1])
    {
      assert k == 0 || k == 1;
    }
  }

  function SlowRun(c: ProbeConfig, e: int, probing: nat, skipping: nat): seq<Inputs> {
    var t := e - 1 + probing;
    var late := t + skipping + 1000 * c.ProbeSeconds();
    [SlowStep(c, e - 1, t), SlowStep(c, t, t + skipping), SlowStep(c, late, late + probing)]
  }

  lemma SlowRunFirst(s: Status, c: ProbeConfig, e: int, probing: nat, skipping: nat)
    requires c.Valid() && e > 16_000 && SaneTime(e + 1000 * c.ProbeSeconds() + 2 * probing + skipping)
    requires IdleSince(s, e - 16_000) && s.activity.lastProbe.None?
    ensures var run := SlowRun(c, e, probing, skipping);
            && EffectAt(s, run, 0).probed && !EffectAt(s, run, 0).paused && Timely(run[0], EffectAt(s, run, 0), run[1])
            && IdleSince(StatusAt(s, run, 1), e - 16_000)
            && StatusAt(s, run, 1).activity.lastProbe == Some(LastProbe(run[1].now, run[1].now, Success, ""))
  {
    var run := SlowRun(c, e, probing, skipping);
    assert StatusAt(s, run, 0) == s;
    SlowStepEffect(s, c, e - 16_000, run[0].now, run[0].done);
    assert StatusAt(s, run, 1) == EffectAt(s, run, 0).stored;
  }

  lemma SlowRunSecond(s: Status, c: ProbeConfig, e: int, probing: nat, skipping: nat)
    requires c.Valid() && e > 16_000 && SaneTime(e + 1000 * c.ProbeSeconds() + 2 * probing + skipping)
    requires IdleSince(s, e - 16_000) && s.activity.lastProbe.None?
    ensures var run := SlowRun(c, e, probing, skipping);
            && !EffectAt(s, run, 1).probed && !EffectAt(s, run, 1).paused && Timely(run[1], EffectAt(s, run, 1), run[2])
            && IdleSince(StatusAt(s, run, 2), e - 16_000)
            && StatusAt(s, run, 2).activity.lastProbe == Some(LastProbe(run[1].now, run[1].now, Success, ""))
  {
    var run := SlowRun(c, e, probing, skipping);
    SlowRunFirst(s, c, e, probing, skipping);
    SlowStepEffect(StatusAt(s, run, 1), c, e - 16_000, run[1].now, run[1].done);
    assert StatusAt(s, run, 2) == EffectAt(s, run, 1).stored;
  }

  lemma SlowRunThird(s: Status, c: ProbeConfig, e: int, probing: nat, skipping: nat)
    requires c.Valid() && e > 16_000 && SaneTime(e + 1000 * c.ProbeSeconds() + 2 * probing + skipping)
    requires IdleSince(s, e - 16_000) && s.activity.lastProbe.None?
    ensures var last := EffectAt(s, SlowRun(c, e, probing, skipping), 2); last.probed && last.paused
  {
    var run := SlowRun(c, e, probing, skipping);
    SlowRunSecond(s, c, e, probing, skipping);
    SlowStepEffect(StatusAt(s, run, 2), c, e - 16_000, run[2].now, run[2].done);
  }

  /** The bound is tight, and the time a skipped reconcile takes cannot be left out of it: a
      probe just before the eligibility time, one early reconcile, and the next probe. */
  lemma LatencyBoundIsTight(s: Status, c: ProbeConfig, e: int, probing: nat, skipping: nat)
    requires c.Valid() && e > 16_000 && SaneTime(e + 1000 * c.ProbeSeconds() + 2 * probing + skipping)
    requires IdleSince(s, e - 16_000) && s.activity.lastProbe.None?
    ensures var run, d := SlowRun(c, e, probing, skipping), Decision(true, true, 16, 0);
            && Unattended(s, run, c, d, probing, skipping) && EligibleFrom(s, d, e) && run[0].now <= e
            && !EffectAt(s, run, 0).paused && !EffectAt(s, run, 1).paused && EffectAt(s, run, 2).paused
            && run[2].now == Deadline(c, e, probing, skipping) - 1
  {
    var run := SlowRun(c, e, probing, skipping);
    SlowRunFirst(s, c, e, probing, skipping);
    SlowRunSecond(s, c, e, probing, skipping);
    SlowRunThird(s, c, e, probing, skipping);
    SlowStepsAreSteady(c, run[0].now, run[0].done);
    SlowStepsAreSteady(c, run[1].now, run[1].done);
    SlowStepsAreSteady(c, run[2].now, run[2].done);
    UnattendedThree(s, run, c, Decision(true, true, 16, 0), probing, skipping);
  }
}
