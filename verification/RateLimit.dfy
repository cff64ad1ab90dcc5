/** How far `minProbeIntervalSeconds` limits the rate of probes, and where it does not. */
module RateLimit {
  import opened Prelude
  import opened ActivityRules
  import opened Activity
  import opened ActivityHistory
  import opened ActivityTiming
  import opened ReconcileOutcome

  // ------------------------------------------------------------------ between two probes

  function StatusAfter(s: Status, events: seq<Event>): Status {
    if events == [] then s
    else NextStatus(StatusAfter(s, events[..|events| - 1]), events[|events| - 1])
  }

  predicate ProbesAt(s: Status, e: Event) {
    match e
    case Reconciled(i) => ReconcileStep(s, i).probed
    case StateWritten(_) => false
    case Outdated(seen, i) => ReconcileStep(seen, i).probed
  }

  /** Events among which no probe runs. A reconcile that stops early never writes Running. */
  ghost predicate Probeless(s: Status, between: seq<Event>) {
    between != [] ==>
      var front, last := between[..|between| - 1], between[|between| - 1];
      Probeless(s, front) && !ProbesAt(StatusAfter(s, front), last) && last != StateWritten(Running)
  }

  /** The stored state is Running before, during and after these events. */
  ghost predicate StaysRunning(s: Status, between: seq<Event>) {
    StatusAfter(s, between).state == Running && (between != [] ==> StaysRunning(s, between[..|between| - 1]))
  }

  /** The next reconcile that finds the Workspace running knows of no earlier probe. */
  predicate Forgetful(s: Status) {
    s.state != Running || s.lastRunningTime == 0 || s.activity.lastProbe.None?
  }

  lemma QuietEvent(s: Status, e: Event)
    requires !ProbesAt(s, e) && e != StateWritten(Running)
    ensures var t := NextStatus(s, e);
            && (t.activity.lastProbe == s.activity.lastProbe || t.activity.lastProbe.None?)
            && (Forgetful(s) ==> Forgetful(t))
            && (s.state == t.state == Running && s.lastRunningTime != 0 ==>
                  t.activity.lastProbe == s.activity.lastProbe && t.lastRunningTime == s.lastRunningTime)
  {
    if e.Reconciled? {
      StoredIfPersisted(s, e.i);
    }
  }

  /** Without a probe, the record of the last one survives exactly as long as the stored state stays
      Running. */
  lemma {:induction false} RecordSurvives(s: Status, between: seq<Event>)
    requires Probeless(s, between)
    ensures var t := StatusAfter(s, between);
            && (t.activity.lastProbe == s.activity.lastProbe || t.activity.lastProbe.None?)
            && (Forgetful(s) || !StaysRunning(s, between) ==> Forgetful(t))
            && (s.lastRunningTime != 0 && StaysRunning(s, between) ==>
                  t.activity.lastProbe == s.activity.lastProbe && t.lastRunningTime == s.lastRunningTime)
  {
    if between != [] {
      var front := between[..|between| - 1];
      RecordSurvives(s, front);
      assert StaysRunning(s, front) ==> StatusAfter(s, front).state == Running;
      assert StaysRunning(s, between) <==> StaysRunning(s, front) && StatusAfter(s, between).state == Running;
      QuietEvent(StatusAfter(s, front), between[|between| - 1]);
    }
  }

  // ------------------------------------------------------------------ the exact condition

  /** What a reconcile needs for its probe to be recorded: rules that evaluate, and a status write that the
      API server accepts. */
  predicate Recorded(i: Inputs) {
    && i.namespaceLabels.Ok? && i.statusWrite == Written
    && PauseRule(i.rules, Subject(i.namespaceLabels.value, i.podConfigLabels)).Ok?
  }

  predicate SaneRecord(s: Status) {
    s.activity.lastProbe.Some? ==> s.activity.lastProbe.value.startTime < 9_223_372_036_854
  }

  /** A probing reconcile always changes the status, so it is persisted exactly when `Recorded`. */
  lemma RecordedIffPersisted(s: Status, i: Inputs)
    requires Clocked(i) && ValidConfig(i) && i.transitionTime > 0 && SaneRecord(s)
    requires ReconcileStep(s, i).probed
    ensures i.probe.Some? && (Persisted(s, i) <==> Recorded(i))
    ensures !Persisted(s, i) ==> !ReconcileStep(s, i).paused
  {
    StoredIfPersisted(s, i);
    var t := EnterState(s, i.newState, i.transitionTime);
    assert ActivityStep(t, i).status.activity.lastProbe == Some(RecordOf(Entry(i.outcome, i.probe.value)));
    if s.activity.lastProbe.Some? && !Restarts(s, i) {
      DueInExact(s.activity.lastProbe.value, i.now, i.probe.value);
    }
  }

  /** Why `Outdated` changes nothing: a reconcile whose status write is refused leaves the status it read
      as it is, and does not set `spec.paused`, because whatever it would pause for needs that write. */
  lemma OutdatedReconcileChangesNothing(seen: Status, i: Inputs)
    requires Clocked(i) && ValidConfig(i) && i.transitionTime > 0 && SaneRecord(seen) && i.statusWrite != Written
    ensures ReconcileStep(seen, i).stored == seen && !ReconcileStep(seen, i).paused
  {
    StoredIfPersisted(seen, i);
    if ReconcileStep(seen, i).probed {
      RecordedIffPersisted(seen, i);
    } else if DecidesPause(seen, i) {
      PauseNeedsFreshProbe(seen, i);
    }
  }

  /** A reconcile at or after `from` that finds the same Workspace running under the same configuration. */
  predicate FollowsUp(i: Inputs, from: int, k: Inputs) {
    Clocked(k) && k.now >= from && k.probe == i.probe && k.newState == Running
  }

  /** The probe of reconcile `i` and the next one, `k`, are `minProbeInterval` apart. */
  predicate FarApart(i: Inputs, k: Inputs)
    requires i.probe.Some?
  {
    k.outcome.startTime - i.outcome.startTime >= 1000 * i.probe.value.MinSeconds()
  }

  /** What a reconcile after `i` reads, from a cache that lags behind: the status from before the write
      of `i`, or the one after a number of the events that followed it. */
  datatype View = BeforeWrite | AfterEvents(count: nat)

  function Seen(s: Status, i: Inputs, between: seq<Event>, v: View): Status
    requires v.AfterEvents? ==> v.count <= |between|
  {
    match v
    case BeforeWrite => s
    case AfterEvents(n) => StatusAfter(ReconcileStep(s, i).stored, between[..n])
  }

  /** Reconcile `k` probes when this is what it reads. */
  predicate NextProbes(s: Status, i: Inputs, between: seq<Event>, v: View, k: Inputs)
    requires v.AfterEvents? ==> v.count <= |between|
  {
    ReconcileStep(Seen(s, i, between, v), k).probed
  }

  /** Reconcile `i` has recorded its probe, and the next one reads a status that still shows it: one no
      older than the write of `i`, and from before the stored state left Running. */
  ghost predicate ProbeInView(s: Status, i: Inputs, between: seq<Event>, v: View)
    requires v.AfterEvents? ==> v.count <= |between|
  {
    Recorded(i) && v.AfterEvents? && StaysRunning(ReconcileStep(s, i).stored, between[..v.count])
  }

  /** The documented rate limit and its exact condition. Take any probing reconcile `i`, any events that
      follow it without a probe and are over before the interval is (at `from`), and any view the
      next reconcile may have of them. Whatever reconcile that is, if it probes it does so
      `minProbeInterval` after `i`: this holds if and only if the rules of `i` evaluated, its status
      write was accepted, the status read is no older than that write, and the stored state stayed
      Running up to what is read. Leaving Running means re-entering it, which discards the record. */
  lemma RateLimitIff(s: Status, i: Inputs, between: seq<Event>, v: View, from: int)
    requires Clocked(i) && ValidConfig(i) && i.transitionTime > 0 && SaneRecord(s)
    requires ReconcileStep(s, i).probed && i.probe.Some?
    requires Probeless(ReconcileStep(s, i).stored, between) && (v.AfterEvents? ==> v.count <= |between|)
    requires i.done <= from && SaneTime(from) && from - i.outcome.startTime < 1000 * i.probe.value.MinSeconds()
    ensures ProbeInView(s, i, between, v) <==>
            forall k :: FollowsUp(i, from, k) && NextProbes(s, i, between, v, k) ==> FarApart(i, k)
  {
    var t := Seen(s, i, between, v);
    SeenRecord(s, i, between, v);
    if ProbeInView(s, i, between, v) {
      var last := RecordOf(Entry(i.outcome, i.probe.value));
      forall k | FollowsUp(i, from, k) && NextProbes(s, i, between, v, k) ensures FarApart(i, k) {
        ProbeWaitsForInterval(t, last, k);
      }
    } else {
      var k := SoonestFollowUp(i, from);
      SoonestProbes(s, i, t, from);
      assert FollowsUp(i, from, k) && NextProbes(s, i, between, v, k) && !FarApart(i, k);
    }
  }

  lemma {:induction false} ProbelessPrefix(s: Status, between: seq<Event>, n: nat)
    requires Probeless(s, between) && n <= |between|
    ensures Probeless(s, between[..n])
  {
    if n == |between| {
      assert between[..n] == between;
    } else {
      ProbelessPrefix(s, between[..|between| - 1], n);
      assert between[..|between| - 1][..n] == between[..n];
    }
  }

  // The next reconcile sees the record of `i`, or one no newer than what `i` itself has read.
  lemma SeenRecord(s: Status, i: Inputs, between: seq<Event>, v: View)
    requires Clocked(i) && ValidConfig(i) && i.transitionTime > 0 && SaneRecord(s)
    requires ReconcileStep(s, i).probed && i.probe.Some?
    requires Probeless(ReconcileStep(s, i).stored, between) && (v.AfterEvents? ==> v.count <= |between|)
    ensures var t := Seen(s, i, between, v);
            if ProbeInView(s, i, between, v) then
              && t.state == Running && t.lastRunningTime != 0
              && t.activity.lastProbe == Some(RecordOf(Entry(i.outcome, i.probe.value)))
            else
              Forgetful(t) || (!Forgetful(s) && t.activity.lastProbe == s.activity.lastProbe)
  {
    var s' := ReconcileStep(s, i).stored;
    RecordedIffPersisted(s, i);
    StoredIfPersisted(s, i);
    if v.AfterEvents? {
      ProbelessPrefix(s', between, v.count);
      RecordSurvives(s', between[..v.count]);
    }
  }

  /** The follow-up that comes at `from` and would probe without delay. */
  function SoonestFollowUp(i: Inputs, from: int): Inputs {
    i.(now := from, outcome := i.outcome.(startTime := from, endTime := from), done := from)
  }

  lemma SoonestProbes(s: Status, i: Inputs, t: Status, from: int)
    requires Clocked(i) && ValidConfig(i) && SaneRecord(s) && ReconcileStep(s, i).probed && i.probe.Some?
    requires i.done <= from && SaneTime(from)
    requires Forgetful(t) || (!Forgetful(s) && t.activity.lastProbe == s.activity.lastProbe)
    ensures ReconcileStep(t, SoonestFollowUp(i, from)).probed
  {
    var k := SoonestFollowUp(i, from);
    StoredIfPersisted(s, i);
    ProbesIff(s, i);
    ProbesIff(t, k);
    if !Forgetful(t) {
      DueInExact(s.activity.lastProbe.value, i.now, i.probe.value);
      DueInExact(s.activity.lastProbe.value, from, i.probe.value);
    }
  }

  /** Two inputs that meet the guards of `i` and still break the limit. One early error writes another
      state, and the next reconcile that finds the Workspace running probes at once. */
  lemma ReentryProbesAtOnce(s: Status, i: Inputs, state: WorkspaceState)
    requires Clocked(i) && ReconcileStep(s, i).probed && Recorded(i) && state != Running
    requires i.probe.Some? && i.done - i.outcome.startTime < 1000 * i.probe.value.MinSeconds()
    ensures var k := SoonestFollowUp(i, i.done);
            FollowsUp(i, i.done, k) && NextProbes(s, i, [StateWritten(state)], AfterEvents(1), k) && !FarApart(i, k)
  {
    StoredIfPersisted(s, i);
    var s', between := ReconcileStep(s, i).stored, [StateWritten(state)];
    assert between[..1] == between && between[..0] == [] && StatusAfter(s', []) == s';
    var t := StatusAfter(s', between);
    assert t.state == state;
    ProbesIff(t, SoonestFollowUp(i, i.done));
  }

  /** Or an event that arrives during the probe brings the Workspace back at once, and the cache still
      holds the status from before the write: the reconcile that reads it probes again. Only its
      own status write is refused afterwards. */
  lemma StaleReadProbesAtOnce(s: Status, i: Inputs, between: seq<Event>, from: int)
    requires Clocked(i) && ValidConfig(i) && SaneRecord(s) && ReconcileStep(s, i).probed && Recorded(i)
    requires i.done <= from && SaneTime(from)
    requires i.probe.Some? && from - i.outcome.startTime < 1000 * i.probe.value.MinSeconds()
    ensures var k := SoonestFollowUp(i, from);
            FollowsUp(i, from, k) && NextProbes(s, i, between, BeforeWrite, k) && !FarApart(i, k)
  {
    SoonestProbes(s, i, s, from);
  }

  // ------------------------------------------------------------------ runs that record nothing

  /** Reading the labels works but the deciding activity rule is broken. */
  predicate BrokenRules(i: Inputs) {
    Considers(i) && PauseRule(i.rules, Subject(i.namespaceLabels.value, i.podConfigLabels)).Err?
  }

  /** The API server does not accept the status write. */
  predicate LostWrite(i: Inputs) {
    Considers(i) && i.statusWrite != Written
  }

  lemma BrokenRulesStep(s: Status, i: Inputs)
    requires BrokenRules(i)
    ensures var e := ReconcileStep(s, i);
            e.reply == Failed && !e.paused && e.stored == s && (e.probed <==> NothingHoldsBack(s, i))
  {
    ProbesIff(s, i);
  }

  lemma LostWriteStores(s: Status, i: Inputs)
    requires LostWrite(i)
    ensures ReconcileStep(s, i).stored == s && (ReconcileStep(s, i).probed <==> NothingHoldsBack(s, i))
  {
    StoredIfPersisted(s, i);
    ProbesIff(s, i);
  }

  lemma LostWriteReplies(s: Status, i: Inputs)
    requires LostWrite(i) && ReconcileStep(s, i).probed
    requires Clocked(i) && ValidConfig(i) && i.transitionTime > 0 && SaneRecord(s)
    ensures !ReconcileStep(s, i).paused
    ensures ReconcileStep(s, i).reply ==
            if i.statusWrite == Conflict && !BrokenRules(i) then Requeue(1) else Failed
  {
    RecordedIffPersisted(s, i);
  }

  lemma {:induction false} NothingStored(s: Status, run: seq<Inputs>, k: nat)
    requires forall t, j :: 0 <= j < |run| ==> ReconcileStep(t, run[j]).stored == t
    requires k <= |run|
    ensures StatusAt(s, run, k) == s
  {
    if k > 0 {
      NothingStored(s, run, k - 1);
    }
  }

  /** With a broken rule a run of reconciles stores nothing, whatever status it starts from. So each one
      probes unless a record from before the run still holds it back: at every reconcile of a
      Workspace that is entering Running or has no record, and once an old record is due. */
  lemma BrokenRulesRecordNothing(s: Status, run: seq<Inputs>, k: nat)
    requires forall j :: 0 <= j < |run| ==> BrokenRules(run[j])
    requires k < |run|
    ensures StatusAt(s, run, k) == s
    ensures var e := EffectAt(s, run, k);
            e.reply == Failed && !e.paused && e.stored == s && (e.probed <==> NothingHoldsBack(s, run[k]))
  {
    forall t, j | 0 <= j < |run| ensures ReconcileStep(t, run[j]).stored == t { BrokenRulesStep(t, run[j]); }
    NothingStored(s, run, k);
    BrokenRulesStep(s, run[k]);
  }

  /** The same happens in a run of reconciles whose status writes conflict or fail: nothing is stored, and
      each one probes unless an old record holds it back. A reconcile that has probed does not pause;
      after a conflict it comes back after one nanosecond. */
  lemma LostWritesRecordNothing(s: Status, run: seq<Inputs>, k: nat)
    requires forall j :: 0 <= j < |run| ==> LostWrite(run[j])
    requires k < |run|
    ensures StatusAt(s, run, k) == s
    ensures EffectAt(s, run, k).stored == s && (EffectAt(s, run, k).probed <==> NothingHoldsBack(s, run[k]))
    ensures var e, i := EffectAt(s, run, k), run[k];
            e.probed && Clocked(i) && ValidConfig(i) && i.transitionTime > 0 && SaneRecord(s) ==>
              !e.paused && e.reply == if i.statusWrite == Conflict && !BrokenRules(i) then Requeue(1) else Failed
  {
    forall t, j | 0 <= j < |run| ensures ReconcileStep(t, run[j]).stored == t { LostWriteStores(t, run[j]); }
    NothingStored(s, run, k);
    var i := run[k];
    LostWriteStores(s, i);
    if ReconcileStep(s, i).probed && Clocked(i) && ValidConfig(i) && i.transitionTime > 0 && SaneRecord(s) {
      LostWriteReplies(s, i);
    }
  }
}
