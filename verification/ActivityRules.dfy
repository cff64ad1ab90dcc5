/** First-match evaluation of `spec.activityRules` and the eligibility test that
    follows it (workspaces/controller/internal/helper/activity.go). */
module ActivityRules {
  import opened Prelude
  import opened Labels

  datatype RuleMatch = RuleMatch(matchNamespace: Option<LabelSelector>, matchPodConfig: Option<LabelSelector>)

  datatype ActivityRule = ActivityRule(
    secondsSinceActive: int,
    minRunningSeconds: Option<int>,
    matches: seq<RuleMatch>,
    pauseWorkspace: Option<bool>)

  datatype Decision = Decision(matched: bool, value: bool, secondsSinceActive: int, minRunningSeconds: int)

  const UNMATCHED := Decision(false, false, 0, 0)

  /** The outcome of one match condition, or of the conjunction of several. */
  datatype Verdict = Holds | Fails | Broken

  /** The labels a Workspace is matched against. A nil map reads as an empty one here. */
  datatype Subject = Subject(namespaceLabels: LabelSet, podConfigLabels: LabelSet)

  function SelectorVerdict(s: LabelSelector, labels: LabelSet): Verdict {
    match Compile(s)
    case Err(_) => Broken
    case Ok(sel) => if SelectorMatches(sel, labels) then Holds else Fails
  }

  function ConditionVerdict(m: RuleMatch, w: Subject): Verdict {
    if m.matchNamespace.Some? then SelectorVerdict(m.matchNamespace.value, w.namespaceLabels)
    else if m.matchPodConfig.Some? then SelectorVerdict(m.matchPodConfig.value, w.podConfigLabels)
    else Broken
  }

  /** The first condition from `i` on that does not hold, or the length when all of them do. */
  function FirstFailing(ms: seq<RuleMatch>, w: Subject, i: nat): (k: nat)
    requires i <= |ms|
    ensures i <= k <= |ms|
    ensures forall j :: i <= j < k ==> ConditionVerdict(ms[j], w) == Holds
    ensures k < |ms| ==> ConditionVerdict(ms[k], w) != Holds
    decreases |ms| - i
  {
    if i < |ms| && ConditionVerdict(ms[i], w) == Holds then FirstFailing(ms, w, i + 1) else i
  }

  /** An empty list holds; otherwise the first condition that does not hold decides. */
  function MatchVerdict(ms: seq<RuleMatch>, w: Subject): Verdict {
    var k := FirstFailing(ms, w, 0);
    if k < |ms| then ConditionVerdict(ms[k], w) else Holds
  }

  /** A selector is usable and matches, or is usable and does not. */
  predicate Accepts(s: LabelSelector, labels: LabelSet) {
    ValidSelector(s) && SelectorMatches(Selector(s.matchLabels, s.matchExpressions), labels)
  }

  predicate Declines(s: LabelSelector, labels: LabelSet) {
    ValidSelector(s) && !SelectorMatches(Selector(s.matchLabels, s.matchExpressions), labels)
  }

  /** A `matchNamespace` condition is about the namespace labels and a `matchPodConfig` condition about the
      podConfig labels; the first is the one that counts if both are set. */
  predicate Met(m: RuleMatch, w: Subject) {
    match (m.matchNamespace, m.matchPodConfig)
    case (Some(s), _) => Accepts(s, w.namespaceLabels)
    case (None, Some(s)) => Accepts(s, w.podConfigLabels)
    case (None, None) => false
  }

  predicate Unmet(m: RuleMatch, w: Subject) {
    match (m.matchNamespace, m.matchPodConfig)
    case (Some(s), _) => Declines(s, w.namespaceLabels)
    case (None, Some(s)) => Declines(s, w.podConfigLabels)
    case (None, None) => false
  }

  ghost predicate AllMet(ms: seq<RuleMatch>, w: Subject) {
    forall j :: 0 <= j < |ms| ==> Met(ms[j], w)
  }

  /** Some condition is unmet and every condition before it is met. */
  ghost predicate SomeUnmet(ms: seq<RuleMatch>, w: Subject) {
    exists j :: 0 <= j < |ms| && Unmet(ms[j], w) && forall i :: 0 <= i < j ==> Met(ms[i], w)
  }

  /** `activityRuleMatches`: conditions after the first one that does not hold are not looked at. It answers
      yes exactly when every condition is met, and no exactly when one is unmet before any is unusable. */
  method ActivityRuleMatches(ms: seq<RuleMatch>, w: Subject) returns (v: Verdict)
    ensures v == MatchVerdict(ms, w)
    ensures v == Holds <==> AllMet(ms, w)
    ensures v == Fails <==> SomeUnmet(ms, w)
  {
    MatchVerdictMeaning(ms, w);
    for i := 0 to |ms|
      invariant forall j :: 0 <= j < i ==> ConditionVerdict(ms[j], w) == Holds
    {
      var selector: LabelSelector;
      var labels: LabelSet;
      if ms[i].matchNamespace.Some? {
        selector, labels := ms[i].matchNamespace.value, w.namespaceLabels;
      } else if ms[i].matchPodConfig.Some? {
        selector, labels := ms[i].matchPodConfig.value, w.podConfigLabels;
      } else {
        return Broken;
      }
      var compiled := Compile(selector);
      if compiled.Err? {
        return Broken;
      }
      if !SelectorMatches(compiled.value, labels) {
        return Fails;
      }
    }
    v := Holds;
  }

  /** A rule ends the evaluation when it configures the effect and its match does not fail. */
  predicate Decisive(r: ActivityRule, w: Subject) {
    r.pauseWorkspace.Some? && MatchVerdict(r.matches, w) != Fails
  }

  function FirstDecisive(rules: seq<ActivityRule>, w: Subject, i: nat): (k: nat)
    requires i <= |rules|
    ensures i <= k <= |rules|
    ensures forall j :: i <= j < k ==> !Decisive(rules[j], w)
    ensures k < |rules| ==> Decisive(rules[k], w)
    decreases |rules| - i
  {
    if i < |rules| && !Decisive(rules[i], w) then FirstDecisive(rules, w, i + 1) else i
  }

  function DecisionOf(r: ActivityRule): Decision
    requires r.pauseWorkspace.Some?
  {
    Decision(true, r.pauseWorkspace.value, r.secondsSinceActive,
             if r.minRunningSeconds.Some? then r.minRunningSeconds.value else 0)
  }

  /** What the rule list means for the pauseWorkspace effect: the first decisive rule
      speaks, and if its match is broken the answer is an error naming that rule. */
  function PauseRule(rules: seq<ActivityRule>, w: Subject): Result<Decision, nat> {
    var k := FirstDecisive(rules, w, 0);
    if k == |rules| then Ok(UNMATCHED)
    else if MatchVerdict(rules[k].matches, w) == Broken then Err(k)
    else Ok(DecisionOf(rules[k]))
  }

  /** `EvaluateActivityRule` instantiated at the pauseWorkspace effect. */
  method EvaluatePauseWorkspaceRule(rules: seq<ActivityRule>, w: Subject) returns (d: Result<Decision, nat>)
    ensures d == PauseRule(rules, w)
  {
    for i := 0 to |rules|
      invariant forall j :: 0 <= j < i ==> !Decisive(rules[j], w)
    {
      var rule := rules[i];
      if rule.pauseWorkspace.None? {
        continue;
      }
      var v := ActivityRuleMatches(rule.matches, w);
      if v == Broken {
        return Err(i);
      }
      if v == Fails {
        continue;
      }
      var minRunningSeconds := 0;
      if rule.minRunningSeconds.Some? {
        minRunningSeconds := rule.minRunningSeconds.value;
      }
      return Ok(Decision(true, rule.pauseWorkspace.value, rule.secondsSinceActive, minRunningSeconds));
    }
    d := Ok(UNMATCHED);
  }

  lemma MatchVerdictMeaning(ms: seq<RuleMatch>, w: Subject)
    ensures MatchVerdict(ms, w) == Holds <==> AllMet(ms, w)
    ensures MatchVerdict(ms, w) == Fails <==> SomeUnmet(ms, w)
  {
    forall m | m in ms
      ensures Met(m, w) <==> ConditionVerdict(m, w) == Holds
      ensures Unmet(m, w) <==> ConditionVerdict(m, w) == Fails
    {
    }
    assert FirstFailing(ms, w, 0) < |ms| ==> !Met(ms[FirstFailing(ms, w, 0)], w);
  }

  /** Rule `k` configures the effect, and every earlier rule that does is cleanly not met. */
  ghost predicate IsReached(rules: seq<ActivityRule>, w: Subject, k: int) {
    && 0 <= k < |rules| && rules[k].pauseWorkspace.Some?
    && forall j :: 0 <= j < k && rules[j].pauseWorkspace.Some? ==> SomeUnmet(rules[j].matches, w)
  }

  /** What a rule list means. A rule is matched if and only if it is reached and each of its conditions has a
      valid selector that matches the labels its matcher is about, and the answer is that rule's own
      effect and timings. Evaluation fails exactly at a reached rule with an unusable condition after
      met ones. Otherwise no rule applies, which is so exactly when all are cleanly not met. */
  lemma PauseRuleMeaning(rules: seq<ActivityRule>, w: Subject, k: int)
    ensures IsReached(rules, w, k) && AllMet(rules[k].matches, w) ==>
              PauseRule(rules, w) == Ok(Decision(true, rules[k].pauseWorkspace.value, rules[k].secondsSinceActive,
                match rules[k].minRunningSeconds case Some(seconds) => seconds case None => 0))
    ensures PauseRule(rules, w).Ok? && PauseRule(rules, w).value.matched <==>
            exists j :: IsReached(rules, w, j) && AllMet(rules[j].matches, w)
    ensures PauseRule(rules, w) == Err(k) <==>
            IsReached(rules, w, k) && !AllMet(rules[k].matches, w) && !SomeUnmet(rules[k].matches, w)
    ensures PauseRule(rules, w) == Ok(Decision(false, false, 0, 0)) <==>
            forall j :: 0 <= j < |rules| && rules[j].pauseWorkspace.Some? ==> SomeUnmet(rules[j].matches, w)
  {
    forall j | 0 <= j < |rules| {
      MatchVerdictMeaning(rules[j].matches, w);
    }
    var d := FirstDecisive(rules, w, 0);
    if d < |rules| {
      assert IsReached(rules, w, d);
    }
    forall j | IsReached(rules, w, j) && !SomeUnmet(rules[j].matches, w) ensures j == d {
    }
  }

  /** Rules without a condition on the namespace do not depend on its labels, and the same for the podConfig. */
  lemma UnreadLabelsDoNotMatter(rules: seq<ActivityRule>, w: Subject, labels: LabelSet)
    ensures (forall i, j :: 0 <= i < |rules| && 0 <= j < |rules[i].matches| ==>
               rules[i].matches[j].matchNamespace.None?) ==>
              PauseRule(rules, w.(namespaceLabels := labels)) == PauseRule(rules, w)
    ensures (forall i, j :: 0 <= i < |rules| && 0 <= j < |rules[i].matches| ==>
               rules[i].matches[j].matchPodConfig.None?) ==>
              PauseRule(rules, w.(podConfigLabels := labels)) == PauseRule(rules, w)
  {
    if forall i, j :: 0 <= i < |rules| && 0 <= j < |rules[i].matches| ==> rules[i].matches[j].matchNamespace.None? {
      SameVerdictsSameRule(rules, w, w.(namespaceLabels := labels));
    }
    if forall i, j :: 0 <= i < |rules| && 0 <= j < |rules[i].matches| ==> rules[i].matches[j].matchPodConfig.None? {
      SameVerdictsSameRule(rules, w, w.(podConfigLabels := labels));
    }
  }

  lemma SameVerdictsSameRule(rules: seq<ActivityRule>, w: Subject, v: Subject)
    requires forall i, j :: 0 <= i < |rules| && 0 <= j < |rules[i].matches| ==>
               ConditionVerdict(rules[i].matches[j], w) == ConditionVerdict(rules[i].matches[j], v)
    ensures PauseRule(rules, w) == PauseRule(rules, v)
  {
    forall i | 0 <= i < |rules| ensures MatchVerdict(rules[i].matches, w) == MatchVerdict(rules[i].matches, v) {
      var ms := rules[i].matches;
      assert FirstFailing(ms, w, 0) == FirstFailing(ms, v, 0);
    }
    assert FirstDecisive(rules, w, 0) == FirstDecisive(rules, v, 0);
  }

  /** What the CRD and the webhook enforce: every condition has a matcher with a valid selector. */
  predicate Admitted(rules: seq<ActivityRule>) {
    forall i, j :: 0 <= i < |rules| && 0 <= j < |rules[i].matches| ==>
      var m := rules[i].matches[j];
      && (m.matchNamespace.Some? || m.matchPodConfig.Some?)
      && (m.matchNamespace.Some? ==> ValidSelector(m.matchNamespace.value))
      && (m.matchPodConfig.Some? ==> ValidSelector(m.matchPodConfig.value))
  }

  /** Evaluating admitted rules never fails, whatever the labels. */
  lemma AdmittedRulesNeverErr(rules: seq<ActivityRule>, w: Subject)
    requires Admitted(rules)
    ensures PauseRule(rules, w).Ok?
  {
    forall i, j | 0 <= i < |rules| && 0 <= j < |rules[i].matches|
      ensures ConditionVerdict(rules[i].matches[j], w) != Broken
    {
    }
  }

  const NANOS_PER_MILLI := 1_000_000
  const NANOS_PER_SECOND := 1_000_000_000

  /** `time.Duration(seconds) * time.Second`, an int64 number of nanoseconds. */
  function Seconds(seconds: int): int {
    Wrap64(seconds * NANOS_PER_SECOND)
  }

  /** `time.Duration(millis) * time.Millisecond`. */
  function Millis(millis: int): int {
    Wrap64(millis * NANOS_PER_MILLI)
  }

  /** `Duration.Milliseconds()`: Go's `/` truncates toward zero. */
  function InMillis(nanos: int): int {
    if nanos >= 0 then nanos / NANOS_PER_MILLI else -(-nanos / NANOS_PER_MILLI)
  }

  /** `CalculateEligibleAfter`. */
  function EligibleAfter(lastActivity: int, secondsSinceActive: int): int {
    if lastActivity <= 0 then 0 else Wrap64(lastActivity + InMillis(Seconds(secondsSinceActive)))
  }

  /** The first component of `IsEligibleForPause`; the second is `EligibleAfter`. */
  predicate Eligible(lastActivity: int, lastRunningTime: int, now: int,
                     secondsSinceActive: int, minRunningSeconds: int)
  {
    && lastActivity > 0
    && now >= EligibleAfter(lastActivity, secondsSinceActive)
    && (minRunningSeconds > 0 ==>
          lastRunningTime > 0 && Millis(Wrap64(now - lastRunningTime)) >= Seconds(minRunningSeconds))
  }

  /** A clock reading whose distance from any other one fits in a `time.Duration`. */
  predicate SaneTime(t: int) {
    0 < t < 9_223_372_036_854
  }

  predicate Int32Seconds(s: int) {
    0 <= s < TWO_31
  }

  lemma SecondsExact(s: int)
    requires -TWO_31 <= s < TWO_31
    ensures Seconds(s) == s * NANOS_PER_SECOND
    ensures InMillis(Seconds(s)) == s * 1000
  {
    var n := s * NANOS_PER_SECOND;
    if s >= 0 {
      assert n == (s * 1000) * NANOS_PER_MILLI;
    } else {
      assert -n == (-s * 1000) * NANOS_PER_MILLI;
    }
  }

  /** Eligibility without machine arithmetic: idle long enough and, if the rule asks
      for it, running long enough. */
  lemma EligibleExact(la: int, lrt: int, now: int, ssa: int, mrs: int)
    requires SaneTime(now) && lrt < 9_223_372_036_854 && la < 9_223_372_036_854
    requires Int32Seconds(ssa) && -TWO_31 <= mrs < TWO_31
    ensures EligibleAfter(la, ssa) == if la <= 0 then 0 else la + 1000 * ssa
    ensures Eligible(la, lrt, now, ssa, mrs) <==>
              la > 0 && now >= la + 1000 * ssa && (mrs > 0 ==> lrt > 0 && now >= lrt + 1000 * mrs)
  {
    SecondsExact(ssa);
    SecondsExact(mrs);
    if lrt > 0 {
      assert Millis(Wrap64(now - lrt)) == (now - lrt) * NANOS_PER_MILLI;
    }
  }

  /** The status field is documented as the time after which an evaluation would pause the
      Workspace. The field ignores `minRunningSeconds`, so the claim holds exactly when
      that guard is already met at `eligibleAfter`. */
  lemma EligibleAfterIsThreshold(la: int, lrt: int, ssa: int, mrs: int)
    requires SaneTime(la) && lrt < 9_223_372_036_854 && Int32Seconds(ssa) && -TWO_31 <= mrs < TWO_31
    requires SaneTime(la + 1000 * ssa)
    ensures (forall now :: SaneTime(now) ==>
               (Eligible(la, lrt, now, ssa, mrs) <==> now >= EligibleAfter(la, ssa)))
            <==>
            (mrs <= 0 || (lrt > 0 && lrt + 1000 * mrs <= la + 1000 * ssa))
  {
    forall now | SaneTime(now)
      ensures Eligible(la, lrt, now, ssa, mrs) <==>
                now >= la + 1000 * ssa && (mrs > 0 ==> lrt > 0 && now >= lrt + 1000 * mrs)
    {
      EligibleExact(la, lrt, now, ssa, mrs);
    }
    EligibleExact(la, lrt, la + 1000 * ssa, ssa, mrs);
    assert SaneTime(la + 1000 * ssa);
  }

  /** An input where it is not: the published time has passed and the Workspace is still not eligible. */
  lemma PublishedTimeCanBeEarly() returns (la: int, lrt: int, now: int, ssa: int, mrs: int)
    ensures SaneTime(la) && SaneTime(lrt) && SaneTime(now) && Int32Seconds(ssa) && Int32Seconds(mrs)
    ensures now >= EligibleAfter(la, ssa) && !Eligible(la, lrt, now, ssa, mrs)
  {
    la, lrt, now, ssa, mrs := 1, 1, 16_001, 16, 300;
    EligibleExact(la, lrt, now, ssa, mrs);
  }
}
