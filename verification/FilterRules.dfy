/** The filter-rule engine: rules are selected by scope and their selectors compiled
    once per request, then evaluated first-match-wins for each value
    (workspaces/backend/internal/filterrules/engine.go). */
module FilterRules {
  import opened Prelude
  import opened Labels

  type Scope = string

  const WORKSPACE_KIND: Scope := "WORKSPACE_KIND"
  const IMAGE_CONFIG: Scope := "IMAGE_CONFIG"
  const POD_CONFIG: Scope := "POD_CONFIG"

  datatype Condition = Condition(
    matchNamespace: Option<LabelSelector>,
    matchImageConfig: Option<LabelSelector>,
    matchPodConfig: Option<LabelSelector>)

  datatype ApiEffect = ApiEffect(hide: Option<bool>, deny: Option<bool>, denyMessage: Option<string>)

  datatype RuleEffect = RuleEffect(uiHide: Option<bool>, api: Option<ApiEffect>)

  datatype FilterRule = FilterRule(scope: Scope, effect: RuleEffect, conditions: seq<Condition>)

  datatype Restrictions = Restrictions(deny: bool, denyMessage: Option<string>)

  datatype EvalResult = EvalResult(uiHide: bool, apiHide: bool, restrictions: Restrictions)

  const DEFAULT := EvalResult(false, false, Restrictions(false, None))

  /** A selectable imageConfig or podConfig value. */
  datatype LabelledOption = LabelledOption(id: string, labels: seq<SpawnerLabel>)

  datatype WorkspaceKind = WorkspaceKind(
    filterRules: seq<FilterRule>,
    imageConfigs: seq<LabelledOption>,
    podConfigs: seq<LabelledOption>)

  datatype Target = Target(scope: Scope, labels: seq<SpawnerLabel>)

  /** The request's labels. An absent map differs from an empty one. */
  datatype Request = Request(
    namespaceLabels: Option<LabelSet>,
    imageConfigLabels: Option<LabelSet>,
    podConfigLabels: Option<LabelSet>)

  datatype CompiledCondition = CompiledCondition(condition: Condition, selector: Selector)

  datatype CompiledRule = CompiledRule(rule: FilterRule, conditions: seq<CompiledCondition>)

  datatype EvalContext = EvalContext(request: Request, rules: seq<CompiledRule>)

  // ------------------------------------------------------------------ the code

  /** `compileSelector`: nil when the condition has to be dropped. */
  function CompileCondition(m: Condition): Option<Selector> {
    var chosen :=
      if m.matchNamespace.Some? then m.matchNamespace
      else if m.matchImageConfig.Some? then m.matchImageConfig
      else m.matchPodConfig;
    if chosen.None? then None
    else match Compile(chosen.value)
      case Ok(s) => Some(s)
      case Err(_) => None
  }

  /** `matchSelector`. */
  predicate MatchSelector(s: Selector, labels: Option<LabelSet>) {
    labels.Some? && SelectorMatches(s, labels.value)
  }

  /** `conditionMatches`, with `imageConfigLabels` and `podConfigLabels`. */
  predicate CompiledMatches(m: CompiledCondition, scope: Scope, own: LabelSet, req: Request) {
    if m.condition.matchNamespace.Some? then
      MatchSelector(m.selector, req.namespaceLabels)
    else if m.condition.matchImageConfig.Some? then
      MatchSelector(m.selector, if scope == IMAGE_CONFIG then Some(own) else req.imageConfigLabels)
    else if m.condition.matchPodConfig.Some? then
      MatchSelector(m.selector, if scope == POD_CONFIG then Some(own) else req.podConfigLabels)
    else false
  }

  /** `resultFromEffect` and `resolveRestrictions`. A deny message is only passed on with a deny. */
  function ResultOf(e: RuleEffect): (r: EvalResult)
    ensures r.uiHide <==> e.uiHide == Some(true)
    ensures e.api.None? ==> !r.apiHide && !r.restrictions.deny
    ensures e.api.Some? ==> (r.apiHide <==> e.api.value.hide == Some(true))
    ensures e.api.Some? ==> (r.restrictions.deny <==> e.api.value.deny == Some(true))
    ensures r.restrictions.denyMessage == if r.restrictions.deny then e.api.value.denyMessage else None
  {
    var denies := e.api.Some? && e.api.value.deny == Some(true);
    EvalResult(e.uiHide == Some(true),
               e.api.Some? && e.api.value.hide == Some(true),
               if denies then Restrictions(true, e.api.value.denyMessage) else Restrictions(false, None))
  }

  function FilteredByScope(rules: seq<FilterRule>, scopes: set<Scope>): seq<FilterRule> {
    if rules == [] then []
    else (if rules[0].scope in scopes then [rules[0]] else []) + FilteredByScope(rules[1..], scopes)
  }

  function CompiledConditions(ms: seq<Condition>): seq<CompiledCondition> {
    if ms == [] then []
    else
      var s := CompileCondition(ms[0]);
      (if s.Some? then [CompiledCondition(ms[0], s.value)] else []) + CompiledConditions(ms[1..])
  }

  function CompiledRules(rules: seq<FilterRule>): seq<CompiledRule> {
    if rules == [] then []
    else
      var ms := CompiledConditions(rules[0].conditions);
      (if ms == [] then [] else [CompiledRule(rules[0], ms)]) + CompiledRules(rules[1..])
  }

  method FilterRulesByScope(rules: seq<FilterRule>, scopes: set<Scope>) returns (filtered: seq<FilterRule>)
    ensures filtered == FilteredByScope(rules, scopes)
  {
    filtered := [];
    for i := 0 to |rules|
      invariant filtered + FilteredByScope(rules[i..], scopes) == FilteredByScope(rules, scopes)
    {
      assert rules[i..][1..] == rules[i + 1..];
      if rules[i].scope in scopes {
        filtered := filtered + [rules[i]];
      }
    }
  }

  method CompileConditions(ms: seq<Condition>) returns (compiled: seq<CompiledCondition>)
    ensures compiled == CompiledConditions(ms)
  {
    compiled := [];
    for i := 0 to |ms|
      invariant compiled + CompiledConditions(ms[i..]) == CompiledConditions(ms)
    {
      assert ms[i..][1..] == ms[i + 1..];
      var selector := CompileCondition(ms[i]);
      if selector.None? {
        continue;
      }
      compiled := compiled + [CompiledCondition(ms[i], selector.value)];
    }
  }

  method CompileRules(rules: seq<FilterRule>) returns (compiled: seq<CompiledRule>)
    ensures compiled == CompiledRules(rules)
  {
    compiled := [];
    for i := 0 to |rules|
      invariant compiled + CompiledRules(rules[i..]) == CompiledRules(rules)
    {
      assert rules[i..][1..] == rules[i + 1..];
      var conditions := CompileConditions(rules[i].conditions);
      if |conditions| == 0 {
        continue;
      }
      compiled := compiled + [CompiledRule(rules[i], conditions)];
    }
  }

  /** The labels of the selected value: absent for an empty id and for one no value has. */
  function Selected(values: seq<LabelledOption>, id: string): Option<LabelSet> {
    if id == "" || values == [] then None
    else if values[0].id == id then Some(LabelsOf(values[0].labels))
    else Selected(values[1..], id)
  }

  method SelectLabels(values: seq<LabelledOption>, id: string) returns (labels: Option<LabelSet>)
    ensures labels == Selected(values, id)
  {
    labels := None;
    if id != "" {
      for i := 0 to |values|
        invariant Selected(values[i..], id) == Selected(values, id)
      {
        assert values[i..][1..] == values[i + 1..];
        if values[i].id == id {
          var found := SpawnerLabelsToMap(values[i].labels);
          return Some(found);
        }
      }
    }
  }

  function RequestFor(wsk: WorkspaceKind, namespaceLabels: Option<LabelSet>,
                      imageConfigId: string, podConfigId: string): Request
  {
    Request(namespaceLabels, Selected(wsk.imageConfigs, imageConfigId), Selected(wsk.podConfigs, podConfigId))
  }

  /** No value is selected: the id is empty, or no value has it. */
  predicate SelectsNothing(values: seq<LabelledOption>, id: string) {
    id == "" || forall v :: v in values ==> v.id != id
  }

  /** Value `k` is selected: it is the first one with this id. */
  ghost predicate Selects(values: seq<LabelledOption>, id: string, k: int) {
    id != "" && 0 <= k < |values| && values[k].id == id && forall j :: 0 <= j < k ==> values[j].id != id
  }

  /** The labels are those of the selected value, and absent exactly when no value is selected. */
  ghost predicate AreOfSelected(labels: Option<LabelSet>, values: seq<LabelledOption>, id: string) {
    && (labels.None? <==> SelectsNothing(values, id))
    && forall k :: Selects(values, id, k) ==> labels.Some? && Tells(labels.value, values[k].labels)
  }

  lemma {:induction false} SelectedIsFirst(values: seq<LabelledOption>, id: string, k: int)
    requires Selects(values, id, k)
    ensures Selected(values, id) == Some(LabelsOf(values[k].labels))
  {
    if k > 0 {
      SelectedIsFirst(values[1..], id, k - 1);
    }
  }

  lemma {:induction false} NothingSelected(values: seq<LabelledOption>, id: string)
    ensures Selected(values, id) == None <==> SelectsNothing(values, id)
  {
    if values != [] {
      NothingSelected(values[1..], id);
      assert values == [values[0]] + values[1..];
    }
  }

  lemma SelectedMeaning(values: seq<LabelledOption>, id: string)
    ensures AreOfSelected(Selected(values, id), values, id)
  {
    NothingSelected(values, id);
    forall k | Selects(values, id, k)
      ensures Selected(values, id).Some? && Tells(Selected(values, id).value, values[k].labels)
    {
      SelectedIsFirst(values, id, k);
      LabelsOfTells(values[k].labels);
    }
  }

  /** The context built for a request has the namespace labels as given, and the labels of the first imageConfig
      and podConfig value with the id asked for, each from its own list. Its rules are those of the scopes. */
  method BuildEvalContext(wsk: WorkspaceKind, namespaceLabels: Option<LabelSet>, scopes: set<Scope>,
                          imageConfigId: string, podConfigId: string) returns (c: EvalContext)
    ensures c.request == RequestFor(wsk, namespaceLabels, imageConfigId, podConfigId)
    ensures c.request.namespaceLabels == namespaceLabels
    ensures AreOfSelected(c.request.imageConfigLabels, wsk.imageConfigs, imageConfigId)
    ensures AreOfSelected(c.request.podConfigLabels, wsk.podConfigs, podConfigId)
    ensures c.rules == CompiledRules(FilteredByScope(wsk.filterRules, scopes))
  {
    SelectedMeaning(wsk.imageConfigs, imageConfigId);
    SelectedMeaning(wsk.podConfigs, podConfigId);
    var filtered := FilterRulesByScope(wsk.filterRules, scopes);
    var compiled := CompileRules(filtered);
    var image := SelectLabels(wsk.imageConfigs, imageConfigId);
    var pod := SelectLabels(wsk.podConfigs, podConfigId);
    c := EvalContext(Request(namespaceLabels, image, pod), compiled);
  }

  predicate CompiledRuleApplies(r: CompiledRule, t: Target, req: Request) {
    r.rule.scope == t.scope
    && forall i :: 0 <= i < |r.conditions| ==> CompiledMatches(r.conditions[i], t.scope, LabelsOf(t.labels), req)
  }

  function EvaluateCompiled(rules: seq<CompiledRule>, t: Target, req: Request): EvalResult {
    if rules == [] then DEFAULT
    else if CompiledRuleApplies(rules[0], t, req) then ResultOf(rules[0].rule.effect)
    else EvaluateCompiled(rules[1..], t, req)
  }

  method AllConditionsMatch(ms: seq<CompiledCondition>, scope: Scope, own: LabelSet, req: Request) returns (all: bool)
    ensures all <==> forall i :: 0 <= i < |ms| ==> CompiledMatches(ms[i], scope, own, req)
  {
    for i := 0 to |ms|
      invariant forall j :: 0 <= j < i ==> CompiledMatches(ms[j], scope, own, req)
    {
      if !CompiledMatches(ms[i], scope, own, req) {
        return false;
      }
    }
    return true;
  }

  method Evaluate(t: Target, c: EvalContext) returns (r: EvalResult)
    ensures r == EvaluateCompiled(c.rules, t, c.request)
  {
    var own := SpawnerLabelsToMap(t.labels);
    for i := 0 to |c.rules|
      invariant EvaluateCompiled(c.rules[i..], t, c.request) == EvaluateCompiled(c.rules, t, c.request)
    {
      assert c.rules[i..][1..] == c.rules[i + 1..];
      if c.rules[i].rule.scope != t.scope {
        continue;
      }
      var all := AllConditionsMatch(c.rules[i].conditions, t.scope, own, c.request);
      if !all {
        continue;
      }
      return ResultOf(c.rules[i].rule.effect);
    }
    r := DEFAULT;
  }

  // ------------------------------------------------------------------ the plain reading of a rule list

  /** Where a condition's labels come from. */
  datatype Source = Namespace | ImageConfig | PodConfig | Own

  /** What a condition asks, if it is usable: a source of labels and a selector for them. */
  function Question(m: Condition, scope: Scope): Option<(Source, LabelSelector)> {
    var q :=
      if m.matchNamespace.Some? then Some((Namespace, m.matchNamespace.value))
      else if m.matchImageConfig.Some? then
        Some((if scope == IMAGE_CONFIG then Own else ImageConfig, m.matchImageConfig.value))
      else if m.matchPodConfig.Some? then
        Some((if scope == POD_CONFIG then Own else PodConfig, m.matchPodConfig.value))
      else None;
    if q.Some? && ValidSelector(q.value.1) then q else None
  }

  function LabelsFrom(src: Source, t: Target, req: Request): Option<LabelSet> {
    match src
    case Namespace => req.namespaceLabels
    case ImageConfig => req.imageConfigLabels
    case PodConfig => req.podConfigLabels
    case Own => Some(LabelsOf(t.labels))
  }

  /** A usable condition holds when its labels are present and satisfy its selector. */
  predicate Satisfied(q: (Source, LabelSelector), t: Target, req: Request) {
    var labels := LabelsFrom(q.0, t, req);
    labels.Some? && SelectorMatches(Selector(q.1.matchLabels, q.1.matchExpressions), labels.value)
  }

  /** A rule applies to a target of its scope when it has a usable condition and every usable
      condition holds. */
  predicate Applies(r: FilterRule, t: Target, req: Request) {
    && r.scope == t.scope
    && (exists m :: m in r.conditions && Question(m, t.scope).Some?)
    && (forall m :: m in r.conditions && Question(m, t.scope).Some? ==> Satisfied(Question(m, t.scope).value, t, req))
  }

  /** The first rule that applies decides. */
  function Plain(rules: seq<FilterRule>, t: Target, req: Request): EvalResult {
    if rules == [] then DEFAULT
    else if Applies(rules[0], t, req) then ResultOf(rules[0].effect)
    else Plain(rules[1..], t, req)
  }

  // ------------------------------------------------------------------ the engine refines the plain reading

  lemma ConditionAgrees(m: Condition, t: Target, req: Request)
    ensures CompileCondition(m).Some? <==> Question(m, t.scope).Some?
    ensures CompileCondition(m).Some? ==>
              (CompiledMatches(CompiledCondition(m, CompileCondition(m).value), t.scope, LabelsOf(t.labels), req)
               <==> Satisfied(Question(m, t.scope).value, t, req))
  {
  }

  /** Compilation keeps exactly the usable conditions. */
  lemma {:induction false} CompiledMembers(ms: seq<Condition>, c: CompiledCondition)
    ensures c in CompiledConditions(ms) <==> c.condition in ms && CompileCondition(c.condition) == Some(c.selector)
  {
    if ms != [] {
      CompiledMembers(ms[1..], c);
      assert ms == [ms[0]] + ms[1..];
    }
  }

  lemma ConditionsAgree(ms: seq<Condition>, t: Target, req: Request)
    ensures CompiledConditions(ms) == [] <==> forall m :: m in ms ==> Question(m, t.scope).None?
    ensures (forall i :: 0 <= i < |CompiledConditions(ms)| ==>
               CompiledMatches(CompiledConditions(ms)[i], t.scope, LabelsOf(t.labels), req))
            <==>
            (forall m :: m in ms && Question(m, t.scope).Some? ==> Satisfied(Question(m, t.scope).value, t, req))
  {
    var cs, own := CompiledConditions(ms), LabelsOf(t.labels);
    forall i | 0 <= i < |cs|
      ensures cs[i].condition in ms && Question(cs[i].condition, t.scope).Some?
      ensures CompiledMatches(cs[i], t.scope, own, req) <==> Satisfied(Question(cs[i].condition, t.scope).value, t, req)
    {
      CompiledMembers(ms, cs[i]);
      ConditionAgrees(cs[i].condition, t, req);
    }
    forall m | m in ms && Question(m, t.scope).Some?
      ensures exists i :: 0 <= i < |cs| && cs[i].condition == m
    {
      ConditionAgrees(m, t, req);
      var c := CompiledCondition(m, CompileCondition(m).value);
      CompiledMembers(ms, c);
      assert c in cs;
    }
    if cs != [] {
      assert cs[0].condition in ms;
    }
  }

  /** The compiled engine refines the plain reading: for every rule list, request and target,
      malformed conditions included, pre-filtering by scope and pre-compiling selectors gives
      the plain result for targets whose scope was selected and the default for all others. */
  lemma {:induction false} EngineRefinesPlain(rules: seq<FilterRule>, scopes: set<Scope>, t: Target, req: Request)
    ensures EvaluateCompiled(CompiledRules(FilteredByScope(rules, scopes)), t, req)
            == if t.scope in scopes then Plain(rules, t, req) else DEFAULT
  {
    if rules != [] {
      var r, rest := rules[0], rules[1..];
      EngineRefinesPlain(rest, scopes, t, req);
      if r.scope in scopes {
        FirstRuleAgrees(r, FilteredByScope(rest, scopes), t, req);
      } else {
        assert FilteredByScope(rules, scopes) == FilteredByScope(rest, scopes);
      }
    }
  }

  lemma FirstRuleAgrees(r: FilterRule, rest: seq<FilterRule>, t: Target, req: Request)
    ensures EvaluateCompiled(CompiledRules([r] + rest), t, req) ==
            if Applies(r, t, req) then ResultOf(r.effect) else EvaluateCompiled(CompiledRules(rest), t, req)
  {
    assert ([r] + rest)[1..] == rest;
    ConditionsAgree(r.conditions, t, req);
    var ms, tail := CompiledConditions(r.conditions), CompiledRules(rest);
    if ms == [] {
      assert CompiledRules([r] + rest) == tail;
    } else {
      assert CompiledRules([r] + rest) == [CompiledRule(r, ms)] + tail;
      assert ([CompiledRule(r, ms)] + tail)[1..] == tail;
      assert CompiledRuleApplies(CompiledRule(r, ms), t, req) <==> Applies(r, t, req);
    }
  }

  /** `buildEvalContext` then `Evaluate`, as every endpoint uses them. */
  method EvaluateFor(wsk: WorkspaceKind, namespaceLabels: Option<LabelSet>, scopes: set<Scope>,
                     imageConfigId: string, podConfigId: string, t: Target) returns (r: EvalResult)
    ensures r == if t.scope in scopes
                 then Plain(wsk.filterRules, t, RequestFor(wsk, namespaceLabels, imageConfigId, podConfigId))
                 else DEFAULT
  {
    var c := BuildEvalContext(wsk, namespaceLabels, scopes, imageConfigId, podConfigId);
    r := Evaluate(t, c);
    EngineRefinesPlain(wsk.filterRules, scopes, t, c.request);
  }

  /** `EvaluateWorkspaceKindFilterScopeRule`. The result depends on the rules and the namespace labels
      alone, and without namespace labels it is the default for every rule list. */
  method EvaluateWorkspaceKind(wsk: WorkspaceKind, namespaceLabels: Option<LabelSet>) returns (r: EvalResult)
    ensures r == Plain(wsk.filterRules, Target("WORKSPACE_KIND", []), Request(namespaceLabels, None, None))
    ensures namespaceLabels.None? ==> r == DEFAULT
  {
    var t := Target(WORKSPACE_KIND, []);
    r := EvaluateFor(wsk, namespaceLabels, {WORKSPACE_KIND}, "", "", t);
    if namespaceLabels.None? {
      NoContextMeansDefault(wsk.filterRules, t);
    }
  }

  /** `BuildEvalContextForImageAndPodCfg` then `Evaluate`: the values of both lists are judged by the rules of
      their scope, and nothing else is. */
  method EvaluateOptionValue(wsk: WorkspaceKind, namespaceLabels: Option<LabelSet>,
                             imageConfigId: string, podConfigId: string, t: Target) returns (r: EvalResult)
    ensures t.scope == "IMAGE_CONFIG" || t.scope == "POD_CONFIG" ==>
              r == Plain(wsk.filterRules, t, RequestFor(wsk, namespaceLabels, imageConfigId, podConfigId))
    ensures t.scope != "IMAGE_CONFIG" && t.scope != "POD_CONFIG" ==> r == DEFAULT
  {
    r := EvaluateFor(wsk, namespaceLabels, {IMAGE_CONFIG, POD_CONFIG}, imageConfigId, podConfigId, t);
  }

  /** Which labels a condition is about, seen from outside: a rule with one matcher applies to a target of its
      scope exactly when its selector is valid and matches the labels of the namespace, of the selected
      imageConfig or podConfig, or of the target itself when that is what the matcher is about. Of several
      matchers in one condition the first of these counts. */
  lemma MatchersReadTheirLabels(e: RuleEffect, s: LabelSelector, a: Option<LabelSelector>, b: Option<LabelSelector>,
                                t: Target, req: Request)
    ensures var holds := (labels: Option<LabelSet>) =>
              && ValidSelector(s) && labels.Some?
              && SelectorMatches(Selector(s.matchLabels, s.matchExpressions), labels.value);
            var own := Some(LabelsOf(t.labels));
            var image := if t.scope == "IMAGE_CONFIG" then own else req.imageConfigLabels;
            var pod := if t.scope == "POD_CONFIG" then own else req.podConfigLabels;
            && Plain([FilterRule(t.scope, e, [Condition(Some(s), a, b)])], t, req)
               == (if holds(req.namespaceLabels) then ResultOf(e) else DEFAULT)
            && Plain([FilterRule(t.scope, e, [Condition(None, Some(s), b)])], t, req)
               == (if holds(image) then ResultOf(e) else DEFAULT)
            && Plain([FilterRule(t.scope, e, [Condition(None, None, Some(s))])], t, req)
               == (if holds(pod) then ResultOf(e) else DEFAULT)
  {
    SingleCondition(e, Condition(Some(s), a, b), t, req);
    SingleCondition(e, Condition(None, Some(s), b), t, req);
    SingleCondition(e, Condition(None, None, Some(s)), t, req);
  }

  lemma SingleCondition(e: RuleEffect, m: Condition, t: Target, req: Request)
    ensures var q := Question(m, t.scope);
            Plain([FilterRule(t.scope, e, [m])], t, req) ==
            if q.Some? && Satisfied(q.value, t, req) then ResultOf(e) else DEFAULT
  {
    var r := FilterRule(t.scope, e, [m]);
    assert m in r.conditions;
    assert Plain([r][1..], t, req) == DEFAULT;
  }

  /** Conditions are ANDed: one that can be evaluated has to apply on its own as well, and one that cannot, for
      want of a matcher or of a valid selector, may be deleted. A rule without any never applies. */
  lemma ConditionsAreAnded(r: FilterRule, m: Condition, t: Target, req: Request)
    requires r.scope == t.scope
    ensures Question(m, t.scope).Some? ==>
              (Applies(r.(conditions := r.conditions + [m]), t, req) <==>
               && Applies(r.(conditions := [m]), t, req)
               && (Applies(r, t, req) || forall c :: c in r.conditions ==> Question(c, t.scope).None?))
    ensures Question(m, t.scope).None? ==>
              (Applies(r.(conditions := r.conditions + [m]), t, req) <==> Applies(r, t, req))
    ensures !Applies(r.(conditions := []), t, req)
  {
    var both, alone := r.(conditions := r.conditions + [m]), r.(conditions := [m]);
    assert m in both.conditions && m in alone.conditions;
    assert forall c :: c in both.conditions <==> c in r.conditions || c == m;
  }

  lemma {:induction false} NoContextMeansDefault(rules: seq<FilterRule>, t: Target)
    requires t.scope == WORKSPACE_KIND
    ensures Plain(rules, t, Request(None, None, None)) == DEFAULT
  {
    if rules != [] {
      NoContextMeansDefault(rules[1..], t);
    }
  }

  // ------------------------------------------------------------------ algebra of rule lists

  /** Evaluating a concatenation is evaluating the first part unless none of its rules applies. */
  lemma {:induction false} PlainConcat(a: seq<FilterRule>, b: seq<FilterRule>, t: Target, req: Request)
    ensures Plain(a + b, t, req) ==
            if exists r :: r in a && Applies(r, t, req) then Plain(a, t, req) else Plain(b, t, req)
  {
    if a == [] {
      assert a + b == b;
    } else {
      assert (a + b)[1..] == a[1..] + b;
      assert a == [a[0]] + a[1..];
      PlainConcat(a[1..], b, t, req);
    }
  }

  /** A rule may be deleted when it does not apply (in particular when its scope is another one),
      or when an earlier rule applies. */
  lemma DeleteRule(a: seq<FilterRule>, r: FilterRule, b: seq<FilterRule>, t: Target, req: Request)
    requires !Applies(r, t, req) || exists x :: x in a && Applies(x, t, req)
    ensures Plain(a + [r] + b, t, req) == Plain(a + b, t, req)
  {
    assert a + [r] + b == a + ([r] + b);
    assert ([r] + b)[1..] == b;
    PlainConcat(a, [r] + b, t, req);
    PlainConcat(a, b, t, req);
  }

  /** Neighbouring rules of different scopes may be exchanged. */
  lemma SwapScopes(a: seq<FilterRule>, r: FilterRule, s: FilterRule, b: seq<FilterRule>, t: Target, req: Request)
    requires r.scope != s.scope
    ensures Plain(a + [r, s] + b, t, req) == Plain(a + [s, r] + b, t, req)
  {
    assert a + [r, s] + b == a + [r] + ([s] + b) == (a + [r]) + [s] + b;
    assert a + [s, r] + b == a + [s] + ([r] + b) == (a + [s]) + [r] + b;
    if r.scope != t.scope {
      DeleteRule(a, r, [s] + b, t, req);
      DeleteRule(a + [s], r, b, t, req);
      assert a + ([s] + b) == a + [s] + b;
    } else {
      DeleteRule(a + [r], s, b, t, req);
      DeleteRule(a, s, [r] + b, t, req);
      assert a + ([r] + b) == a + [r] + b;
    }
  }

  /** Conditions within a rule may be reordered and repeated. */
  lemma ReorderConditions(a: seq<FilterRule>, r: FilterRule, ms: seq<Condition>, b: seq<FilterRule>,
                          t: Target, req: Request)
    requires forall m :: m in ms <==> m in r.conditions
    ensures Plain(a + [r.(conditions := ms)] + b, t, req) == Plain(a + [r] + b, t, req)
  {
    var r' := r.(conditions := ms);
    assert Applies(r', t, req) <==> Applies(r, t, req);
    assert a + [r] + b == a + ([r] + b) && ([r] + b)[1..] == b;
    assert a + [r'] + b == a + ([r'] + b) && ([r'] + b)[1..] == b;
    PlainConcat(a, [r] + b, t, req);
    PlainConcat(a, [r'] + b, t, req);
  }

  // ------------------------------------------------------------------ absent context

  /** The request without one of its three label maps. */
  function Without(req: Request, src: Source): Request
    requires src != Own
  {
    match src
    case Namespace => req.(namespaceLabels := None)
    case ImageConfig => req.(imageConfigLabels := None)
    case PodConfig => req.(podConfigLabels := None)
  }

  predicate Reads(r: FilterRule, scope: Scope, src: Source) {
    exists m :: m in r.conditions && Question(m, scope).Some? && Question(m, scope).value.0 == src
  }

  function NotReading(rules: seq<FilterRule>, scope: Scope, src: Source): seq<FilterRule> {
    if rules == [] then []
    else (if Reads(rules[0], scope, src) then [] else [rules[0]]) + NotReading(rules[1..], scope, src)
  }

  lemma AppliesWithout(r: FilterRule, t: Target, req: Request, src: Source)
    requires src != Own
    ensures Applies(r, t, Without(req, src)) <==> Applies(r, t, req) && !Reads(r, t.scope, src)
  {
    if Reads(r, t.scope, src) {
      var m :| m in r.conditions && Question(m, t.scope).Some? && Question(m, t.scope).value.0 == src;
      assert !Satisfied(Question(m, t.scope).value, t, Without(req, src));
    }
    forall m | m in r.conditions && Question(m, t.scope).Some? && Question(m, t.scope).value.0 != src
      ensures Satisfied(Question(m, t.scope).value, t, Without(req, src))
              <==> Satisfied(Question(m, t.scope).value, t, req)
    {
    }
  }

  /** Absent context equals rule deletion: a request without a label map gives exactly the result
      of the full request on the rule list without the rules that read that map. */
  lemma {:induction false} AbsentContextDeletesRules(rules: seq<FilterRule>, t: Target, req: Request, src: Source)
    requires src != Own
    ensures Plain(rules, t, Without(req, src)) == Plain(NotReading(rules, t.scope, src), t, req)
  {
    if rules != [] {
      AbsentContextDeletesRules(rules[1..], t, req, src);
      AppliesWithout(rules[0], t, req, src);
      var tail := NotReading(rules[1..], t.scope, src);
      if Reads(rules[0], t.scope, src) {
        assert NotReading(rules, t.scope, src) == tail;
      } else {
        assert NotReading(rules, t.scope, src) == [rules[0]] + tail;
        assert ([rules[0]] + tail)[1..] == tail;
      }
    }
  }

  function FirstApplying(rules: seq<FilterRule>, t: Target, req: Request): (k: nat)
    ensures k <= |rules|
    ensures forall j :: 0 <= j < k ==> !Applies(rules[j], t, req)
    ensures k < |rules| ==> Applies(rules[k], t, req)
    ensures Plain(rules, t, req) == if k < |rules| then ResultOf(rules[k].effect) else DEFAULT
  {
    if rules == [] || Applies(rules[0], t, req) then 0 else 1 + FirstApplying(rules[1..], t, req)
  }

  /** Losing context never brings a rule into play that did not apply before, but it can move the
      decision further down the list. It does so exactly when the rule that decided reads the
      lost map. */
  lemma ContextLossMovesDecision(rules: seq<FilterRule>, t: Target, req: Request, src: Source)
    requires src != Own
    ensures FirstApplying(rules, t, req) <= FirstApplying(rules, t, Without(req, src))
    ensures var k := FirstApplying(rules, t, req);
            FirstApplying(rules, t, Without(req, src)) > k <==> k < |rules| && Reads(rules[k], t.scope, src)
  {
    forall j | 0 <= j < |rules|
      ensures Applies(rules[j], t, Without(req, src)) <==> Applies(rules[j], t, req) && !Reads(rules[j], t.scope, src)
    {
      AppliesWithout(rules[j], t, req, src);
    }
  }

  /** Something a result can do to a value, which the default result does not do. */
  datatype Harm = Denied | HiddenFromApi | HiddenInUi

  predicate Does(r: EvalResult, h: Harm) {
    match h
    case Denied => r.restrictions.deny
    case HiddenFromApi => r.apiHide
    case HiddenInUi => r.uiHide
  }

  /** Rule `j` takes over from rule `k` when the context is lost: it applies without the lost map,
      and every rule between them that applies reads that map. */
  ghost predicate TakesOver(rules: seq<FilterRule>, t: Target, req: Request, src: Source, k: int, j: int) {
    && 0 <= k < j < |rules|
    && Applies(rules[j], t, req) && !Reads(rules[j], t.scope, src)
    && forall m :: k < m < j && Applies(rules[m], t, req) ==> Reads(rules[m], t.scope, src)
  }

  /** The comment on the context promises not to hide or deny without full context. Losing a map does
      newly deny or hide a value if and only if the rule that decides with full context reads that
      map and does no such harm, and the rule that takes over does. So the promise is kept
      exactly for the rule lists and requests without such a pair of rules. */
  lemma ContextLossHarmsIff(rules: seq<FilterRule>, t: Target, req: Request, src: Source, h: Harm)
    requires src != Own
    ensures Does(Plain(rules, t, Without(req, src)), h) && !Does(Plain(rules, t, req), h) <==>
            var k := FirstApplying(rules, t, req);
            && k < |rules| && Reads(rules[k], t.scope, src) && !Does(ResultOf(rules[k].effect), h)
            && exists j :: TakesOver(rules, t, req, src, k, j) && Does(ResultOf(rules[j].effect), h)
  {
    var k, l := FirstApplying(rules, t, req), FirstApplying(rules, t, Without(req, src));
    forall j | 0 <= j < |rules|
      ensures Applies(rules[j], t, Without(req, src)) <==>
              Applies(rules[j], t, req) && !Reads(rules[j], t.scope, src)
    {
      AppliesWithout(rules[j], t, req, src);
    }
    ContextLossMovesDecision(rules, t, req, src);
    if l < |rules| && k < l {
      assert TakesOver(rules, t, req, src, k, l);
    }
    forall j | TakesOver(rules, t, req, src, k, j) && k < |rules| && Reads(rules[k], t.scope, src)
      ensures j == l
    {
    }
  }

  /** An input that breaks the promise: without its namespace labels a request is denied what it is
      allowed with them. */
  lemma ContextLossCanDeny() returns (rules: seq<FilterRule>, t: Target, req: Request)
    ensures !Plain(rules, t, req).restrictions.deny
    ensures Plain(rules, t, Without(req, Namespace)).restrictions.deny
  {
    var any := LabelSelector(map[], [Requirement("team", DoesNotExist, [])], true);
    var exempt := FilterRule(IMAGE_CONFIG, RuleEffect(Some(false), None), [Condition(Some(any), None, None)]);
    var denies := RuleEffect(None, Some(ApiEffect(None, Some(true), None)));
    var deny := FilterRule(IMAGE_CONFIG, denies, [Condition(None, Some(any), None)]);
    rules, t, req := [exempt, deny], Target(IMAGE_CONFIG, []), Request(Some(map[]), None, None);
    assert Question(exempt.conditions[0], IMAGE_CONFIG) == Some((Namespace, any));
    assert Question(deny.conditions[0], IMAGE_CONFIG) == Some((Own, any));
    NegatedOperators("team", [], map[]);
    assert SelectorMatches(Selector(map[], any.matchExpressions), map[]);
    assert exempt.conditions[0] in exempt.conditions && deny.conditions[0] in deny.conditions;
    assert Applies(exempt, t, req);
    assert Reads(exempt, IMAGE_CONFIG, Namespace);
    AppliesWithout(exempt, t, req, Namespace);
    assert Applies(deny, t, Without(req, Namespace));
    assert rules[1..] == [deny];
  }

  // ------------------------------------------------------------------ non-interference

  /** Rules of these targets never read the corresponding map of the request. */
  lemma {:induction false} UnreadMapIsIrrelevant(rules: seq<FilterRule>, t: Target, req: Request, req': Request)
    requires req'.namespaceLabels == req.namespaceLabels
    requires t.scope == IMAGE_CONFIG || req'.imageConfigLabels == req.imageConfigLabels
    requires t.scope == POD_CONFIG || req'.podConfigLabels == req.podConfigLabels
    ensures Plain(rules, t, req) == Plain(rules, t, req')
  {
    if rules != [] {
      UnreadMapIsIrrelevant(rules[1..], t, req, req');
      forall m | m in rules[0].conditions && Question(m, t.scope).Some?
        ensures Satisfied(Question(m, t.scope).value, t, req) <==> Satisfied(Question(m, t.scope).value, t, req')
      {
      }
    }
  }

  /** A request carries the labels of the values it selects: the namespace labels as given, and with distinct
      keys exactly the listed labels of the selected imageConfig and podConfig values. */
  lemma RequestCarriesSelectedLabels(wsk: WorkspaceKind, ns: Option<LabelSet>, imageId: string, podId: string, k: int)
    ensures RequestFor(wsk, ns, imageId, podId).namespaceLabels == ns
    ensures var labels := RequestFor(wsk, ns, imageId, podId).imageConfigLabels;
            && AreOfSelected(labels, wsk.imageConfigs, imageId)
            && (Selects(wsk.imageConfigs, imageId, k) && DistinctKeys(wsk.imageConfigs[k].labels) ==>
                  labels.Some? && forall key, value :: key in labels.value && labels.value[key] == value <==>
                                    SpawnerLabel(key, value) in wsk.imageConfigs[k].labels)
    ensures var labels := RequestFor(wsk, ns, imageId, podId).podConfigLabels;
            && AreOfSelected(labels, wsk.podConfigs, podId)
            && (Selects(wsk.podConfigs, podId, k) && DistinctKeys(wsk.podConfigs[k].labels) ==>
                  labels.Some? && forall key, value :: key in labels.value && labels.value[key] == value <==>
                                    SpawnerLabel(key, value) in wsk.podConfigs[k].labels)
  {
    SelectedMeaning(wsk.imageConfigs, imageId);
    SelectedMeaning(wsk.podConfigs, podId);
    if Selects(wsk.imageConfigs, imageId, k) && DistinctKeys(wsk.imageConfigs[k].labels) {
      SelectedIsFirst(wsk.imageConfigs, imageId, k);
      forall key, value { LabelsOfDistinct(wsk.imageConfigs[k].labels, key, value); }
    }
    if Selects(wsk.podConfigs, podId, k) && DistinctKeys(wsk.podConfigs[k].labels) {
      SelectedIsFirst(wsk.podConfigs, podId, k);
      forall key, value { LabelsOfDistinct(wsk.podConfigs[k].labels, key, value); }
    }
  }

  /** Changing the labels of any other value changes nothing. */
  lemma OtherValuesDoNotMatter(values: seq<LabelledOption>, id: string, k: int, j: nat, labels: seq<SpawnerLabel>)
    requires Selects(values, id, k) && j < |values| && j != k
    ensures Selected(values[j := values[j].(labels := labels)], id) == Selected(values, id)
  {
    SelectedIsFirst(values, id, k);
    SelectedIsFirst(values[j := values[j].(labels := labels)], id, k);
  }

  /** Requests, and so all results, do not depend on the labels of values that are not selected. */
  lemma UnselectedValuesDoNotMatter(wsk: WorkspaceKind, ns: Option<LabelSet>, imageId: string, podId: string,
                                    k: int, j: nat, labels: seq<SpawnerLabel>)
    ensures Selects(wsk.imageConfigs, imageId, k) && j < |wsk.imageConfigs| && j != k ==>
              var images := wsk.imageConfigs[j := wsk.imageConfigs[j].(labels := labels)];
              RequestFor(wsk.(imageConfigs := images), ns, imageId, podId) == RequestFor(wsk, ns, imageId, podId)
    ensures Selects(wsk.podConfigs, podId, k) && j < |wsk.podConfigs| && j != k ==>
              var pods := wsk.podConfigs[j := wsk.podConfigs[j].(labels := labels)];
              RequestFor(wsk.(podConfigs := pods), ns, imageId, podId) == RequestFor(wsk, ns, imageId, podId)
  {
    if Selects(wsk.imageConfigs, imageId, k) && j < |wsk.imageConfigs| && j != k {
      OtherValuesDoNotMatter(wsk.imageConfigs, imageId, k, j, labels);
    }
    if Selects(wsk.podConfigs, podId, k) && j < |wsk.podConfigs| && j != k {
      OtherValuesDoNotMatter(wsk.podConfigs, podId, k, j, labels);
    }
  }

  /** imageConfig values are judged independently of the selected imageConfig, podConfig values
      independently of the selected podConfig, and an id no value has is like no id at all. */
  lemma SelectionNonInterference(wsk: WorkspaceKind, ns: Option<LabelSet>, t: Target,
                                 imageId: string, podId: string, id: string)
    ensures t.scope == IMAGE_CONFIG
            || (SelectsNothing(wsk.imageConfigs, id) && SelectsNothing(wsk.imageConfigs, imageId)) ==>
              Plain(wsk.filterRules, t, RequestFor(wsk, ns, imageId, podId))
              == Plain(wsk.filterRules, t, RequestFor(wsk, ns, id, podId))
    ensures t.scope == POD_CONFIG
            || (SelectsNothing(wsk.podConfigs, id) && SelectsNothing(wsk.podConfigs, podId)) ==>
              Plain(wsk.filterRules, t, RequestFor(wsk, ns, imageId, podId))
              == Plain(wsk.filterRules, t, RequestFor(wsk, ns, imageId, id))
  {
    var req := RequestFor(wsk, ns, imageId, podId);
    if SelectsNothing(wsk.imageConfigs, id) && SelectsNothing(wsk.imageConfigs, imageId) {
      NothingSelected(wsk.imageConfigs, id);
      NothingSelected(wsk.imageConfigs, imageId);
    } else if t.scope == IMAGE_CONFIG {
      UnreadMapIsIrrelevant(wsk.filterRules, t, req, RequestFor(wsk, ns, id, podId));
    }
    if SelectsNothing(wsk.podConfigs, id) && SelectsNothing(wsk.podConfigs, podId) {
      NothingSelected(wsk.podConfigs, id);
      NothingSelected(wsk.podConfigs, podId);
    } else if t.scope == POD_CONFIG {
      UnreadMapIsIrrelevant(wsk.filterRules, t, req, RequestFor(wsk, ns, imageId, id));
    }
  }

  /** The same entries in another order, with distinct keys. */
  ghost predicate Reordered(a: seq<SpawnerLabel>, b: seq<SpawnerLabel>) {
    DistinctKeys(a) && DistinctKeys(b) && forall e :: e in a <==> e in b
  }

  ghost predicate ReorderedOptions(a: seq<LabelledOption>, b: seq<LabelledOption>) {
    |a| == |b| && forall i :: 0 <= i < |a| ==> a[i].id == b[i].id && Reordered(a[i].labels, b[i].labels)
  }

  lemma {:induction false} SelectedLabelOrder(a: seq<LabelledOption>, b: seq<LabelledOption>, id: string)
    requires ReorderedOptions(a, b)
    ensures Selected(a, id) == Selected(b, id)
  {
    if a != [] {
      LabelsOfPermutation(a[0].labels, b[0].labels);
      SelectedLabelOrder(a[1..], b[1..], id);
    }
  }

  lemma {:induction false} OwnLabelOrder(rules: seq<FilterRule>, t: Target, labels: seq<SpawnerLabel>, req: Request)
    requires Reordered(t.labels, labels)
    ensures Plain(rules, t, req) == Plain(rules, t.(labels := labels), req)
  {
    LabelsOfPermutation(t.labels, labels);
    if rules != [] {
      OwnLabelOrder(rules[1..], t, labels, req);
      forall m | m in rules[0].conditions && Question(m, t.scope).Some?
        ensures Satisfied(Question(m, t.scope).value, t, req)
                <==> Satisfied(Question(m, t.scope).value, t.(labels := labels), req)
      {
      }
    }
  }

  /** The order of distinct-key labels is irrelevant everywhere: in the evaluated value and in every
      imageConfig and podConfig value that a request may select. */
  lemma LabelOrderIsIrrelevant(wsk: WorkspaceKind, images: seq<LabelledOption>, pods: seq<LabelledOption>,
                               t: Target, labels: seq<SpawnerLabel>,
                               ns: Option<LabelSet>, imageId: string, podId: string)
    requires ReorderedOptions(wsk.imageConfigs, images) && ReorderedOptions(wsk.podConfigs, pods)
    requires Reordered(t.labels, labels)
    ensures var wsk' := wsk.(imageConfigs := images, podConfigs := pods);
            Plain(wsk.filterRules, t, RequestFor(wsk, ns, imageId, podId))
            == Plain(wsk.filterRules, t.(labels := labels), RequestFor(wsk', ns, imageId, podId))
  {
    SelectedLabelOrder(wsk.imageConfigs, images, imageId);
    SelectedLabelOrder(wsk.podConfigs, pods, podId);
    OwnLabelOrder(wsk.filterRules, t, labels, RequestFor(wsk, ns, imageId, podId));
  }
}
