# Kubeflow Notebooks workspaces: a verified model

A Dafny 4.11 model of the parts of Kubeflow Notebooks v2 whose behaviour spans several calls, with proofs of
what they keep over every run. `dafny verify dfyconfig.toml` checks everything.

| file | models |
|---|---|
| `Activity.dfy` | one reconcile of a Workspace: activity probe, pause decision, status write, pause patch |
| `ActivityHistory.dfy` | what the stored activity status says about the past, over every run; pause safety |
| `ReconcileOutcome.dfy` | what one whole reconcile answers, records and publishes, and when it comes back |
| `ActivityTiming.dfy` | probe waits, probe spacing, pause latency |
| `RateLimit.dfy` | how far `minProbeIntervalSeconds` limits the rate of probes |
| `ActivityRules.dfy`, `SelectorCache.dfy` | first-match activity rules, eligibility, the cache of compiled selectors |
| `FilterRules.dfy` | the filter-rule engine of the backend |
| `Schema.dfy` | extraction of a self-contained JSON Schema |
| `KindReconciler.dfy` | the WorkspaceKind reconciler |
| `Redirects.dfy` | option redirects: webhook validation and controller resolution |
| `Patterns.dfy`, `Locations.dfy` | CRD patterns and `Location` paths |
| `Labels.dfy`, `Prelude.dfy` | label selectors; optional values, results, Go's fixed-width integers |

Code that mutates objects or loops is modelled by classes and methods whose contracts equate the new state with a
function of the old one; the theorems are about those functions and about runs of them. Clocks, probe answers,
labels, the answers of the API server to writes and what the ConfigMap cache returns are inputs of a step and are
arbitrary unless a lemma says otherwise. Times are UNIX milliseconds and durations int64 nanoseconds with Go's
wrap-around (`Wrap64`, `Wrap32`). Reconciles that read an outdated Workspace from the cache are events of a run
(`Outdated`); the API server refuses their status writes. `SaneTime` is the range in which the distance of two clock readings fits a
`time.Duration`.

## Where the code and its documentation disagree

The model follows the code.

- The comment on `timeUntilProbeDue` asks for both intervals, the code only for the shorter one after a probe that did
  not succeed (`DueDiffersFromComment`, with an input in `DueBeforeBothIntervals`).
- `minProbeIntervalSeconds` is documented as the least time between two probes. Between a probe and the next one this
  holds exactly when the first reconcile's rules evaluated, its status write was accepted, the next reconcile reads a
  status no older than that write, and the stored state stayed Running up to what it reads (`RateLimitIff`). It fails
  in four ways. The controller reads Workspaces through a cache, so a reconcile that comes soon after the first one
  can still read the status from before the write, and probes again (`StaleReadProbesAtOnce`). Any other state
  written in between, as after one transient error, makes the Workspace re-enter Running, which discards the record of
  the probe (`ReentryProbesAtOnce`). A status write answered with a conflict or an error loses the record, and the
  reconcile after it probes again (`LostWritesRecordNothing`). A broken activity rule makes every reconcile fail after
  its probe and before the write (`BrokenRulesRecordNothing`); admission keeps such rules out, because the CRD and the
  webhook, whose failure policy is Fail, reject them, and rules they admit never err (`AdmittedRulesNeverErr`).
- `eligibleAfter` is documented as the time after which an evaluation would pause the Workspace. It ignores
  `minRunningSeconds`; the claim holds exactly when that guard is met by then (`EligibleAfterIsThreshold`, with an input
  in `PublishedTimeCanBeEarly`).
- The pause latency is documented as about `probeIntervalSeconds`. The bound that holds also contains the duration of one
  probing and one skipped reconcile, and it is attained up to one millisecond (`BoundedPauseLatency`,
  `LatencyBoundIsTight`).
- A pause whose patch is refused is logged as one to be requeued, and the reconcile does come back, at once after a
  conflict. But that reconcile finds the probe already on record and may not pause without a new one, so the pause
  waits until `probeInterval` has elapsed (`DecidedPauseIsNeverDropped`, `RefusedPauseWaitsForProbe`).
- "Do not hide or deny without full context" holds for each condition but not for results. Losing a label map newly
  denies or hides a value exactly when the deciding rule reads that map and does no such harm, and the rule that takes
  over from it does (`ContextLossHarmsIff`, with an input in `ContextLossCanDeny`).
- The schema script rewrites every key and string that starts with `#/definitions/`, not only references. Meaning is
  preserved exactly when nothing else starts that way (`MeaningPreservedIffClean`, with an input in
  `ImitationLosesMeaning`).

## Model

| member | source | states |
|---|---|---|
| `ActivityRules.ActivityRuleMatches` | workspaces/controller/internal/helper/activity.go:106-132 | a match exactly when every condition has a valid selector that matches the labels its matcher is about, and no match exactly when one does not match before any is unusable |
| `ActivityRules.EvaluatePauseWorkspaceRule` | workspaces/controller/internal/helper/activity.go:57-101 | the first rule that configures the effect and whose match does not fail speaks, and a broken match is an error naming that rule |
| `ActivityRules.PauseRuleMeaning` | workspaces/controller/internal/helper/activity.go:57-132 | a rule is matched if and only if it is reached and each of its conditions has a valid selector that matches the labels named by its matcher; value, secondsSinceActive and minRunningSeconds (0 if unset) are those of that rule; when evaluation errs and when nothing matches, both exactly |
| `ActivityRules.UnreadLabelsDoNotMatter` | workspaces/controller/internal/helper/activity.go:106-120 | rules without a namespace matcher do not depend on the namespace labels, and the same for the podConfig |
| `ActivityRules.AdmittedRulesNeverErr` | workspaces/controller/internal/webhook/workspacekind_webhook.go:986-999 | rules whose conditions all have a matcher and valid selectors, as the CRD and the webhook enforce, evaluate without an error for every label set |
| `ActivityRules.EligibleExact` | workspaces/controller/internal/helper/activity.go:190-229 | int64 eligibility equals exact arithmetic: idle for secondsSinceActive, activity known, and running for minRunningSeconds if the rule asks for it |
| `ActivityRules.EligibleAfterIsThreshold` | workspaces/controller/api/v1beta1/workspace_types.go:301-309 | the published eligibleAfter is the pause threshold if and only if the minRunningSeconds guard is met by then |
| `ActivityRules.PublishedTimeCanBeEarly` | workspaces/controller/api/v1beta1/workspace_types.go:301-309 | an input past the published time that is not eligible |
| `SelectorCache.CachedSelectors.Lookup` | workspaces/controller/internal/helper/activity.go:148-170 | a lookup stores at most its own selector and, with faithful keys, answers as if nothing were cached |
| `SelectorCache.TransparentIffFaithful` | workspaces/controller/internal/helper/activity.go:134-170 | over every history of lookups the cache is invisible if and only if equal keys mean equal verdicts |
| `Activity.Workspace.RecordRunningTransition` | workspaces/controller/internal/controller/workspace_controller.go:1866-1874 | entering Running, or Running without a start time, sets the start and clears all activity; anything else only sets the state |
| `Activity.Workspace.UpdateActivityStatusFromProbe` | workspaces/controller/internal/controller/workspace_activity.go:203-219 | the new status is `AfterProbe` of the old one, which `StatusRefinesHistory` ties to the probe history |
| `Activity.Workspace.EvaluatePauseDecision` | workspaces/controller/internal/controller/workspace_activity.go:233-287 | the status left is the same whether or not pausing is allowed, is unchanged on error, and the answer is permission and eligibility |
| `Activity.Workspace.ReconcileActivity` | workspaces/controller/internal/controller/workspace_activity.go:62-133 | status, probe, requeue delay and pause flag of one step, including the status already updated when the rules err after a probe |
| `Activity.Store.Reconcile` | workspaces/controller/internal/controller/workspace_controller.go:684-740 | the status is stored only if there was no error and the write succeeded, and spec.paused is set only after that |
| `Activity.Sooner` | workspaces/controller/internal/controller/workspace_controller.go:743-754 | the merged requeue is one of the two, never later than a positive one, and the other one if one of them is not positive |
| `ActivityHistory.StatusRefinesHistory` | workspaces/controller/internal/controller/workspace_activity.go:197-219 | after every run lastProbe is the latest recorded probe of the Running period, lastUpdate the end of the latest success, lastActivity the fold of the successes, lastRunningTime the start of the period |
| `ActivityHistory.FailuresAreInvisible` | workspaces/controller/internal/controller/workspace_activity.go:197-219 | deleting every failed probe from the history changes neither lastActivity nor lastUpdate |
| `ActivityHistory.ObservedMeaning` | workspaces/controller/internal/controller/workspace_activity.go:211-218 | lastActivity in closed form: the latest report, or the start of the period when there is no usable report and a silent success |
| `ActivityHistory.LatestUpdateMeaning` | workspaces/controller/internal/controller/workspace_activity.go:211-219 | lastUpdate in closed form: the end of the last success, 0 without one |
| `ActivityHistory.PauseSafety` | workspaces/controller/internal/controller/workspace_activity.go:71-133 | over every run a pause decision rests on a probe that ran and succeeded in that reconcile, on the recorded history with it last, and on a met rule; spec.paused follows the persisted evidence |
| `ActivityHistory.RestartGrace` | workspaces/controller/internal/controller/workspace_controller.go:1857-1874 | over every run a restarted Workspace is not paused sooner than secondsSinceActive and minRunningSeconds after it entered Running, unless its probes report older activity |
| `ActivityHistory.EvaluationIsNeverStale` | workspaces/controller/internal/controller/workspace_activity.go:241-274 | the published eligibility is present exactly when the matched rule asks for a pause, does not depend on what was published, and a second evaluation changes nothing |
| `ReconcileOutcome.ProbesIff` | workspaces/controller/internal/controller/workspace_activity.go:71-113 | a reconcile probes if and only if the Workspace is running with a probe configured, its labels can be read, and it is entering Running or no record holds the probe back |
| `ReconcileOutcome.DecidesPauseIff` | workspaces/controller/internal/controller/workspace_activity.go:111-122 | a pause is decided if and only if a probe runs and succeeds and the rule that applies asks for a pause and is met by the activity then known |
| `ReconcileOutcome.UnpersistedIsRetried` | workspaces/controller/internal/controller/workspace_controller.go:699-715 | a reconcile is lost exactly when labels or rules cannot be evaluated or the status write it needs is refused; then it neither stores nor pauses and is retried, at once after a conflict and as a failure otherwise |
| `ReconcileOutcome.DecidedPauseIsNeverDropped` | workspaces/controller/internal/controller/workspace_controller.go:717-737 | a decided and persisted pause is carried out if and only if the patch is accepted; a conflict asks to come back at once and any other refusal is a failure |
| `ReconcileOutcome.RefusedPauseWaitsForProbe` | workspaces/controller/internal/controller/workspace_activity.go:103-109 | after a refused pause patch the next reconcile probes, and may pause, if and only if probeInterval has elapsed |
| `ReconcileOutcome.RunningWorkspaceComesBack` | workspaces/controller/internal/controller/workspace_controller.go:699-754 | every reconcile of a running Workspace with a probe fails or asks to come back, unless it has paused the Workspace |
| `ReconcileOutcome.RequeueIsExact` | workspaces/controller/internal/controller/workspace_activity.go:103-132 | the delay asked for is probeInterval after a success, minProbeInterval after any other probe and the remaining wait when none was due, or the more urgent delay of the state computation |
| `ReconcileOutcome.RequeueIsLeast` | workspaces/controller/internal/controller/workspace_activity.go:103-132 | after a persisted reconcile with any outcome, probing or not, the delay asked for is the least one after which the next probe is due |
| `ReconcileOutcome.PublishedByReconcile` | workspaces/controller/internal/controller/workspace_activity.go:241-274 | the eligibility a persisted reconcile publishes, whether it skips or probes: present exactly when the rule that applies asks for a pause, and computed from the last activity it leaves |
| `ReconcileOutcome.RecordedByReconcile` | workspaces/controller/internal/controller/workspace_activity.go:197-219 | each field of the activity that a persisted reconcile stores, in terms of the probe answer and of what was stored before |
| `ReconcileOutcome.OtherReconcilesLeaveActivityAlone` | workspaces/controller/internal/controller/workspace_activity.go:71-83 | without a probe configured or outside Running a reconcile stores the state and leaves the activity alone, except that entering Running clears it, and passes on the requeue of the state computation |
| `ActivityTiming.DueInExact` | workspaces/controller/internal/controller/workspace_activity.go:141-164 | int64 nanosecond arithmetic agrees with exact integers for all sane clocks and all intervals the CRD accepts |
| `ActivityTiming.WaitIsExact` | workspaces/controller/internal/controller/workspace_activity.go:141-164 | the wait handed out is positive, at most the required interval, and the least one after which a probe is due |
| `ActivityTiming.DefaultIntervals` | workspaces/controller/api/v1beta1/workspacekind_types.go:30-34 | with an unset interval a probe is due one hour after a success, and five minutes after any other probe |
| `ActivityTiming.DueDiffersFromComment` | workspaces/controller/internal/controller/workspace_activity.go:135-164 | the code meets its comment if and only if the last probe succeeded or the time since is not between the two intervals |
| `ActivityTiming.DueBeforeBothIntervals` | workspaces/controller/internal/controller/workspace_activity.go:135-164 | a failed probe that is due again before probeInterval has elapsed |
| `ActivityTiming.RequeueFindsProbeDue` | workspaces/controller/internal/controller/workspace_activity.go:124-132 | returning no sooner than asked after a recorded probe always finds the next one due |
| `ActivityTiming.ProbeSpacing` | workspaces/controller/internal/controller/workspace_activity.go:103-113 | over every run recorded probes of a Running period are minProbeInterval apart, and probeInterval apart after a success, under the configuration in force at the later one |
| `RateLimit.RecordSurvives` | workspaces/controller/internal/controller/workspace_controller.go:1866-1874 | through any events without a probe the record of the last probe survives if the stored state stays Running, and is forgotten once it does not |
| `RateLimit.RecordedIffPersisted` | workspaces/controller/internal/controller/workspace_controller.go:699-715 | a probing reconcile is persisted if and only if its rules evaluate and the status write is accepted, and does not pause otherwise |
| `RateLimit.OutdatedReconcileChangesNothing` | workspaces/controller/internal/controller/workspace_controller.go:705-737 | a reconcile whose status write is refused, as that of an outdated one is, changes no stored status and does not set spec.paused |
| `RateLimit.RateLimitIff` | workspaces/controller/api/v1beta1/workspacekind_types.go:461-468 | for every probing reconcile, every probeless continuation and every view of it the cache may give, every possible next probe is minProbeInterval away if and only if the rules evaluated, the write was accepted, the status read is no older than that write and the stored state stayed Running up to it |
| `RateLimit.ReentryProbesAtOnce` | workspaces/controller/internal/controller/workspace_controller.go:1870-1873 | after any recorded probe, one early write of another state lets the next reconcile probe at once |
| `RateLimit.StaleReadProbesAtOnce` | workspaces/controller/cmd/main.go:169-176 | after any recorded probe, a reconcile that still reads the status from before the write probes at once |
| `RateLimit.BrokenRulesRecordNothing` | workspaces/controller/internal/controller/workspace_activity.go:111-122 | from every status, every reconcile of a run with broken rules fails, stores nothing, and probes if and only if the Workspace is entering Running or no old record holds the probe back |
| `RateLimit.LostWritesRecordNothing` | workspaces/controller/internal/controller/workspace_controller.go:705-715 | from every status, a run whose status writes conflict or fail stores nothing, probes under the same condition, and never pauses after a probe |
| `ActivityTiming.BoundedPauseLatency` | workspaces/controller/internal/controller/workspace_activity.go:47-61 | an idle, undisturbed Workspace is paused within probeInterval plus the duration of one probing and one skipped reconcile of becoming eligible, with any extra reconciles interleaved; until then every reconcile and the next one asked for lie before that time |
| `ActivityTiming.LatencyBoundIsTight` | workspaces/controller/internal/controller/workspace_activity.go:47-61 | for all parameters a run that meets the hypotheses and is paused one millisecond before the bound, not earlier |
| `Labels.MatchLabelsAreIn` | workspaces/backend/openapi/docs.go:4509-4527 | a matchLabels pair is equivalent to an In requirement with that one value |
| `Labels.CompilesIff` | workspaces/backend/openapi/docs.go:4543-4570 | a selector compiles if and only if it is well spelt, its operators are known, and exactly its Exists and DoesNotExist requirements have no values |
| `Labels.NegatedOperators` | workspaces/backend/openapi/docs.go:4528-4561 | In looks at the value of the label and Exists at its presence, and NotIn and DoesNotExist are their negations |
| `Labels.RequirementsAreAnded` | workspaces/backend/openapi/docs.go:4513-4526 | requirements are ANDed, and a selector without any matches every label set |
| `Labels.SpawnerLabelsToMap` | workspaces/backend/internal/filterrules/engine.go:340-346 | the map of a label list: its keys are those listed, each with the value of its last entry |
| `Labels.LabelsOfPermutation` | workspaces/backend/internal/filterrules/engine.go:337-346 | reordering labels with distinct keys does not change the map |
| `FilterRules.FilterRulesByScope` | workspaces/backend/internal/filterrules/engine.go:188-196 | the rules of the selected scopes, in order |
| `FilterRules.CompileRules` | workspaces/backend/internal/filterrules/engine.go:202-226 | unusable conditions are dropped, and rules left without conditions |
| `FilterRules.BuildEvalContext` | workspaces/backend/internal/filterrules/engine.go:158-185 | the namespace labels as given, and for imageConfig and podConfig the labels of the first value with the id asked for, from its own list, absent exactly for empty and unknown ids; with the compiled rules of the scopes |
| `FilterRules.RequestCarriesSelectedLabels` | workspaces/backend/internal/filterrules/engine.go:158-185 | the labels a request carries are, for distinct keys, exactly the entries of the first value with the selected id |
| `FilterRules.UnselectedValuesDoNotMatter` | workspaces/backend/internal/filterrules/engine.go:158-185 | a request does not change when the labels of a value that is not selected change |
| `FilterRules.AllConditionsMatch` | workspaces/backend/internal/filterrules/engine.go:254-280 | true exactly when every compiled condition matches |
| `FilterRules.Evaluate` | workspaces/backend/internal/filterrules/engine.go:99-120 | the effect of the first compiled rule that applies, or the default |
| `FilterRules.ResultOf` | workspaces/backend/internal/filterrules/engine.go:315-335 | hiding and denying only when set to true, and a deny message only with a deny |
| `FilterRules.EngineRefinesPlain` | workspaces/backend/internal/filterrules/engine.go:99-280 | pre-filtering and pre-compiling equals a direct first match over the raw rule list for selected scopes and the default for others, malformed conditions included |
| `FilterRules.EvaluateFor` | workspaces/backend/internal/filterrules/engine.go:99-185 | the engine as called end to end returns the plain reading of the rules |
| `FilterRules.EvaluateWorkspaceKind` | workspaces/backend/internal/filterrules/engine.go:134-142 | the result depends on rules and namespace labels alone, and without namespace labels it is the default for every rule list |
| `FilterRules.EvaluateOptionValue` | workspaces/backend/internal/filterrules/engine.go:127-148 | imageConfig and podConfig values get the plain reading of the rules, and every other scope the default |
| `FilterRules.MatchersReadTheirLabels` | workspaces/backend/internal/filterrules/engine.go:228-312 | a one-condition rule applies exactly when its selector is valid and matches the labels its matcher is about: those of the namespace, of the selected value, or of the target itself in its own scope |
| `FilterRules.ConditionsAreAnded` | workspaces/backend/internal/filterrules/engine.go:198-261 | a usable condition has to apply on its own as well, an unusable one may be deleted, and a rule without conditions never applies |
| `FilterRules.PlainConcat` | workspaces/backend/internal/filterrules/engine.go:92-120 | a concatenation evaluates as its first part if a rule of it applies, else as its second |
| `FilterRules.DeleteRule` | workspaces/backend/internal/filterrules/engine.go:99-120 | rules that do not apply, rules of other scopes and rules after the deciding one may be deleted |
| `FilterRules.SwapScopes` | workspaces/backend/internal/filterrules/engine.go:99-120 | neighbouring rules of different scopes may be exchanged |
| `FilterRules.ReorderConditions` | workspaces/backend/internal/filterrules/engine.go:254-261 | conditions of a rule may be reordered |
| `FilterRules.AbsentContextDeletesRules` | workspaces/backend/internal/filterrules/engine.go:268-312 | a request without a label map is the full request on the rule list without the rules that read that map |
| `FilterRules.ContextLossMovesDecision` | workspaces/backend/internal/filterrules/engine.go:42-45 | losing a map never brings an earlier rule into play, and moves the decision down the list if and only if the deciding rule reads that map |
| `FilterRules.ContextLossHarmsIff` | workspaces/backend/internal/filterrules/engine.go:42-45 | losing a map newly denies, api-hides or ui-hides a value if and only if the deciding rule reads the map and does no such harm and the rule that takes over from it does |
| `FilterRules.ContextLossCanDeny` | workspaces/backend/internal/filterrules/engine.go:42-45 | a request that is denied without its namespace labels and allowed with them |
| `FilterRules.SelectionNonInterference` | workspaces/backend/internal/filterrules/engine.go:158-185 | imageConfig values are judged independently of the imageConfig id, podConfig values of the podConfig id, and unknown ids are like empty ones |
| `FilterRules.LabelOrderIsIrrelevant` | workspaces/backend/internal/filterrules/engine.go:337-346 | the order of distinct-key labels is irrelevant in the evaluated value and in every imageConfig and podConfig value a request may select |
| `Schema.Extractor.Collect` | workspaces/frontend/scripts/generate-schema.js:27-40 | terminates on cyclic definitions; what it adds is reachable and its references are in the set |
| `Schema.Extractor.Emit` | workspaces/frontend/scripts/generate-schema.js:44-48 | every needed definition rewritten, or a failure exactly when one is missing |
| `Schema.Extractor.Generate` | workspaces/frontend/scripts/generate-schema.js:42-56 | needs exactly the names reachable from the root, the least closed set containing it, produces output exactly when all are defined, and puts a reference at the top that leads to the root definition |
| `Schema.ReferencesArePointers` | workspaces/frontend/scripts/generate-schema.js:46-54 | a reference under the old prefix is a JSON Pointer to the definition of that name in the member `definitions`, and one under the new prefix to that in the member `$defs` |
| `Schema.ReferenceShape` | workspaces/frontend/scripts/generate-schema.js:36 | a reference is a `$ref` member whose value is the prefix and a non-empty name, and nothing else is one |
| `Schema.EmittedRefs` | workspaces/frontend/scripts/generate-schema.js:46-47 | the emitted references are the original ones and those that already had the new prefix, for every tree |
| `Schema.OutputIsSelfContainedIff` | workspaces/frontend/scripts/generate-schema.js:44-54 | every emitted reference resolves inside the output if and only if the references that already had the new prefix name needed definitions |
| `Schema.MeaningPreservedIffClean` | workspaces/frontend/scripts/generate-schema.js:44-54 | every emitted definition looks the same as the original at every depth of following references if and only if nothing else imitates a reference |
| `Schema.ImitationLosesMeaning` | workspaces/frontend/scripts/generate-schema.js:46 | a definition whose description starts like a reference and is changed by the rewrite |
| `KindReconciler.Tally` | workspaces/controller/internal/controller/workspacekind_controller.go:117-128 | each counter is the int32 number of Workspaces selecting its id, and every option has one |
| `KindReconciler.CountOptions` | workspaces/controller/internal/controller/workspacekind_controller.go:116-144 | the metric at each index counts exactly the selections of that option's id |
| `KindReconciler.UsageConservation` | workspaces/controller/internal/controller/workspacekind_controller.go:116-144 | metrics plus selections of unknown ids are at least the number of Workspaces, and equal if and only if no selected id is listed twice |
| `KindReconciler.StatusAccountsForEveryWorkspace` | workspaces/controller/internal/controller/workspacekind_controller.go:116-149 | for distinct ids and fewer than 2^31 Workspaces both lists of metrics add up with unknown selections to status.workspaces |
| `KindReconciler.StatusOfAsset` | workspaces/controller/internal/controller/workspacekind_controller.go:174-239 | a ConfigMap asset has either the hash of its key or an error naming the reference, never both; other assets have neither; the error tells which of the three causes it was |
| `KindReconciler.KindStore.Reconcile` | workspaces/controller/internal/controller/workspacekind_controller.go:84-168 | stored object, attempted writes and reply of one reconcile for every answer of the API server |
| `KindReconciler.SettledAssets` | workspaces/controller/internal/controller/workspacekind_controller.go:151-165 | the object a settled reconcile leaves describes the icon under icon and the logo under logo, each independently of the other asset and of what was stored before |
| `KindReconciler.WritesAndReply` | workspaces/controller/internal/controller/workspacekind_controller.go:100-168 | which writes are attempted; settled exactly when none of them is refused, a retry after a conflict, a failure after any other refusal; a refused write changes nothing |
| `KindReconciler.RemoveAllConcat` | workspaces/controller/internal/controller/workspacekind_controller.go:102-103 | removing the finalizer keeps the order of the others |
| `KindReconciler.Quiescence` | workspaces/controller/internal/controller/workspacekind_controller.go:84-168 | after a reconcile that settles, every later one with unchanged inputs attempts no write and changes nothing |
| `KindReconciler.AtMostOneWriteEach` | workspaces/controller/internal/controller/workspacekind_controller.go:100-165 | over any run with unchanged inputs, conflicts and failures included, at most one finalizer write and one status write succeed, the status written is a function of the inputs, and no finalizer is removed while a Workspace is listed |
| `Redirects.DetectGraphCycle` | workspaces/controller/internal/helper/graph.go:32-67 | finds a cycle exactly when following edges from the start never stops, and otherwise remembers only safe nodes |
| `Redirects.ValidateRedirects` | workspaces/controller/internal/webhook/workspacekind_webhook.go:888-909 | no error exactly when no redirect runs in a circle and every target exists, in whatever order the map is visited |
| `Redirects.ValidateOptions` | workspaces/controller/internal/webhook/workspacekind_webhook.go:107-125 | the maps the webhook builds from the option values, and its verdict on them |
| `Redirects.LastValueCounts` | workspaces/controller/internal/webhook/workspacekind_webhook.go:107-125 | of several values with one id the id map holds the redirect of the last, and the redirect map that of the last with a redirect |
| `Redirects.Resolve` | workspaces/controller/internal/controller/workspace_controller.go:968-1007 | succeeds exactly when the redirects arrive, reports a circle exactly when they never stop, and returns the distinct options visited in order |
| `Redirects.AcceptedOptionsResolve` | workspaces/controller/internal/controller/workspace_controller.go:968-1007 | every option of a WorkspaceKind the webhook accepts resolves |
| `Redirects.AcceptedIffAllResolve` | workspaces/controller/internal/webhook/workspacekind_webhook.go:888-933 | with distinct ids the webhook accepts exactly the lists of values all of whose options resolve |
| `Patterns.PortIdIsServiceName` | workspaces/controller/api/v1beta1/workspacekind_types.go:46-56 | the pattern with its length limits accepts exactly the documented service names |
| `Patterns.ClusterRoleIsPathSegmentName` | workspaces/controller/api/v1beta1/workspacekind_types.go:444-454 | the pattern accepts exactly the non-empty strings without "/" and "%" other than "." and ".." |
| `Locations.NamespacedLocationText` | workspaces/backend/api/helpers.go:150-154 | both parameters are filled in, each in its own place |
| `Locations.NamespacedRoundTrip` | workspaces/backend/api/helpers.go:149-167 | the router reads back exactly the namespace and name |
| `Locations.ClusterRoundTrip` | workspaces/backend/api/helpers.go:157-160 | the router reads back exactly the name |
| `Locations.LocationsRoundTrip` | workspaces/backend/api/constants/paths.go:18-49 | the round trip for the three templates the handlers use |
| `Locations.LocationTexts` | workspaces/backend/api/constants/paths.go:18-49 | the three Locations spelt out under `/api/v1` |
| `Locations.LocationsAreInjective` | workspaces/backend/api/helpers.go:149-167 | different resources have different Locations |
| `Locations.SwappedOrderLosesNamespace` | workspaces/backend/api/helpers.go:150-154 | substituting the name first spoils the namespace for every resource |

## Left out

- HTTP handlers, authentication, response writing and process setup: plumbing over libraries.
- The Kubernetes client, caches and watches: their answers are inputs of a step. Reading stale data between the list and the finalizer write of a WorkspaceKind is not modelled.
- Fresh reads: `StatusRefinesHistory`, `PauseSafety`, `RestartGrace`, `ProbeSpacing` and `RateLimitIff` hold with outdated reads in the run. `BoundedPauseLatency`, `LatencyBoundIsTight`, `RequeueFindsProbeDue`, `RefusedPauseWaitsForProbe`, `BrokenRulesRecordNothing`, `LostWritesRecordNothing`, `Quiescence` and `AtMostOneWriteEach` are about runs in which every reconcile reads the object as last stored.
- The rest of the Workspace reconcile before the status is computed (ServiceAccount, StatefulSet, Service, VirtualService, RoleBindings, Pod): it reaches the model only through the state it computes or writes.
- Running the probe script and parsing its output: a probe answer is an arbitrary result with arbitrary times.
- The spelling check of label keys and values and the text form of a selector used as cache key: the first is an input bit of a selector, the second a parameter of the cache.
- Texts of errors, probe messages and asset messages: errors are values without a text.
- JSON text in the schema script: definitions are trees, taken to contain no key or string with a quote followed by `#/definitions/`, no key that ends with a quote followed by `$ref`, and no name of a definition that needs escaping. The order of keys in the output is not modelled.
- ReferencesArePointers: for names without a slash; a slash in a name would have to be escaped in a pointer, which neither the script nor the model does.
- Webhook validation other than redirects, and the webhook's decision on update whether redirects need checking again.
- Lookup: the key function is a parameter, because `metav1.FormatLabelSelector` is a library function outside the repository.
- TransparentIffFaithful: says what the keys have to satisfy and leaves open whether those of `metav1.FormatLabelSelector` do.
- Resolve: returns the list of options visited, from which the source's current option, desired option and redirect steps are read off.
- LatencyBoundIsTight: the run is for a rule with secondsSinceActive 16 and no minRunningSeconds, because one family of runs is enough to show that the bound cannot be lowered.
- NamespacedRoundTrip: the router is a match segment by segment; its rule that a parameter is not empty is not modelled, because names are never empty.
