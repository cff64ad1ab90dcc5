/** Kubernetes label selectors, as described by the schema of `v1.LabelSelector`. */
module Labels {
  import opened Prelude

  type LabelSet = map<string, string>

  datatype Operator = In | NotIn | Exists | DoesNotExist | UnknownOperator(name: string)

  datatype Requirement = Requirement(key: string, op: Operator, values: seq<string>)

  /** A selector as written in a spec. `wellSpelt` is the verdict of the library's
      check on the spelling of the label keys and values, which is not modelled. */
  datatype LabelSelector = LabelSelector(matchLabels: LabelSet, matchExpressions: seq<Requirement>, wellSpelt: bool)

  /** A selector after `LabelSelectorAsSelector`: every operator is known. */
  datatype Selector = Selector(equalTo: LabelSet, requirements: seq<Requirement>)

  predicate ValidRequirement(r: Requirement) {
    match r.op
    case In => r.values != []
    case NotIn => r.values != []
    case Exists => r.values == []
    case DoesNotExist => r.values == []
    case UnknownOperator(_) => false
  }

  predicate ValidSelector(s: LabelSelector) {
    s.wellSpelt && forall i :: 0 <= i < |s.matchExpressions| ==> ValidRequirement(s.matchExpressions[i])
  }

  function Compile(s: LabelSelector): Result<Selector, ()> {
    if ValidSelector(s) then Ok(Selector(s.matchLabels, s.matchExpressions)) else Err(())
  }

  predicate RequirementHolds(r: Requirement, labels: LabelSet) {
    match r.op
    case In => r.key in labels && labels[r.key] in r.values
    case NotIn => r.key in labels ==> labels[r.key] !in r.values
    case Exists => r.key in labels
    case DoesNotExist => r.key !in labels
    case UnknownOperator(_) => false
  }

  predicate SelectorMatches(s: Selector, labels: LabelSet) {
    && (forall k :: k in s.equalTo ==> k in labels && labels[k] == s.equalTo[k])
    && (forall i :: 0 <= i < |s.requirements| ==> RequirementHolds(s.requirements[i], labels))
  }

  /** A `matchLabels` pair is equivalent to an `In` requirement with that one value, and has no effect
      on whether the selector is valid. */
  lemma MatchLabelsAreIn(s: LabelSelector, k: string, labels: LabelSet)
    requires k in s.matchLabels
    ensures var r := Requirement(k, In, [s.matchLabels[k]]);
            var t := LabelSelector(s.matchLabels - {k}, s.matchExpressions + [r], s.wellSpelt);
            && (Compile(s).Ok? <==> Compile(t).Ok?)
            && (Compile(s).Ok? ==>
                  (SelectorMatches(Compile(s).value, labels) <==> SelectorMatches(Compile(t).value, labels)))
  {
    var r := Requirement(k, In, [s.matchLabels[k]]);
    var t := LabelSelector(s.matchLabels - {k}, s.matchExpressions + [r], s.wellSpelt);
    assert t.matchExpressions[|s.matchExpressions|] == r;
    assert RequirementHolds(r, labels) <==> k in labels && labels[k] == s.matchLabels[k];
    assert forall i :: 0 <= i < |s.matchExpressions| ==> t.matchExpressions[i] == s.matchExpressions[i];
  }

  /** `NotIn` and `DoesNotExist` are the negations of `In` and `Exists`; `In` with a value looks at the
      label's value, and `Exists` only at its presence. */
  lemma NegatedOperators(k: string, vs: seq<string>, labels: LabelSet)
    ensures RequirementHolds(Requirement(k, NotIn, vs), labels) <==> !RequirementHolds(Requirement(k, In, vs), labels)
    ensures RequirementHolds(Requirement(k, DoesNotExist, []), labels)
            <==> !RequirementHolds(Requirement(k, Exists, []), labels)
    ensures RequirementHolds(Requirement(k, In, vs), labels) ==> RequirementHolds(Requirement(k, Exists, []), labels)
    ensures RequirementHolds(Requirement(k, Exists, []), labels) <==> k in labels
    ensures k in labels ==> (RequirementHolds(Requirement(k, In, vs), labels) <==> labels[k] in vs)
  {
  }

  /** Which selectors compile: the well-spelt ones with known operators only, where exactly the requirements
      `Exists` and `DoesNotExist` come without values. Pairs in `matchLabels` never matter. */
  lemma CompilesIff(s: LabelSelector)
    ensures Compile(s).Ok? <==>
            && s.wellSpelt
            && forall r :: r in s.matchExpressions ==>
                 !r.op.UnknownOperator? && (r.values == [] <==> r.op == Exists || r.op == DoesNotExist)
  {
    if ValidSelector(s) {
      assert forall r :: r in s.matchExpressions ==> ValidRequirement(r);
    } else if s.wellSpelt {
      var i :| 0 <= i < |s.matchExpressions| && !ValidRequirement(s.matchExpressions[i]);
      assert s.matchExpressions[i] in s.matchExpressions;
    }
  }

  /** Requirements are ANDed, and a selector without any matches every label set. With `MatchLabelsAreIn` this
      reduces every selector to its single requirements. */
  lemma RequirementsAreAnded(a: seq<Requirement>, r: Requirement, b: seq<Requirement>, labels: LabelSet)
    ensures SelectorMatches(Selector(map[], a + [r] + b), labels) <==>
            RequirementHolds(r, labels) && SelectorMatches(Selector(map[], a + b), labels)
    ensures SelectorMatches(Selector(map[], []), labels)
  {
    var all, others := a + [r] + b, a + b;
    assert all[|a|] == r;
    assert forall i :: 0 <= i < |a| ==> all[i] == others[i];
    assert forall i :: |a| <= i < |others| ==> others[i] == all[i + 1];
    if RequirementHolds(r, labels) && SelectorMatches(Selector(map[], others), labels) {
      forall i | 0 <= i < |all| ensures RequirementHolds(all[i], labels) {
        assert i > |a| ==> all[i] == others[i - 1];
      }
    }
    if SelectorMatches(Selector(map[], all), labels) {
      forall i | 0 <= i < |others| ensures RequirementHolds(others[i], labels) {
        assert others[i] == if i < |a| then all[i] else all[i + 1];
      }
    }
  }

  /** One `spawner.labels` entry of an option value. */
  datatype SpawnerLabel = SpawnerLabel(key: string, value: string)

  /** The label map of a list of entries: a later entry overrides an earlier one. */
  function LabelsOf(entries: seq<SpawnerLabel>): LabelSet {
    if entries == [] then map[]
    else LabelsOf(entries[..|entries| - 1])[entries[|entries| - 1].key := entries[|entries| - 1].value]
  }

  ghost predicate DistinctKeys(entries: seq<SpawnerLabel>) {
    forall i, j :: 0 <= i < j < |entries| ==> entries[i].key != entries[j].key
  }

  /** `spawnerLabelsToMap` (backend) and `PodConfigLabelsToMap` (controller). */
  method SpawnerLabelsToMap(entries: seq<SpawnerLabel>) returns (result: LabelSet)
    ensures result == LabelsOf(entries)
    ensures Tells(result, entries)
  {
    LabelsOfTells(entries);
    result := map[];
    for i := 0 to |entries|
      invariant result == LabelsOf(entries[..i])
    {
      result := result[entries[i].key := entries[i].value];
      assert entries[..i + 1][..i] == entries[..i];
    }
    assert entries[..|entries|] == entries;
  }

  /** No later entry has the key of entry `i`. */
  ghost predicate IsLast(entries: seq<SpawnerLabel>, i: int) {
    0 <= i < |entries| && forall j :: i < j < |entries| ==> entries[j].key != entries[i].key
  }

  /** The labels have the keys of the entries, each with the value of its last entry, and no others. */
  ghost predicate Tells(labels: LabelSet, entries: seq<SpawnerLabel>) {
    && (forall i :: IsLast(entries, i) ==> entries[i].key in labels && labels[entries[i].key] == entries[i].value)
    && (forall k :: k in labels ==> exists i :: IsLast(entries, i) && entries[i].key == k)
  }

  lemma {:induction false} LastEntryWins(entries: seq<SpawnerLabel>, i: int)
    requires IsLast(entries, i)
    ensures entries[i].key in LabelsOf(entries) && LabelsOf(entries)[entries[i].key] == entries[i].value
  {
    var n := |entries| - 1;
    if i < n {
      assert entries[n].key != entries[i].key;
      LastEntryWins(entries[..n], i);
    }
  }

  lemma {:induction false} KeysAreListed(entries: seq<SpawnerLabel>, k: string) returns (i: int)
    requires k in LabelsOf(entries)
    ensures IsLast(entries, i) && entries[i].key == k
  {
    i := |entries| - 1;
    if entries[i].key != k {
      i := KeysAreListed(entries[..|entries| - 1], k);
    }
  }

  lemma LabelsOfTells(entries: seq<SpawnerLabel>)
    ensures Tells(LabelsOf(entries), entries)
  {
    forall i | IsLast(entries, i) {
      LastEntryWins(entries, i);
    }
    forall k | k in LabelsOf(entries) ensures exists i :: IsLast(entries, i) && entries[i].key == k {
      var i := KeysAreListed(entries, k);
    }
  }

  /** With distinct keys the map holds exactly the listed entries. */
  lemma {:induction false} LabelsOfDistinct(entries: seq<SpawnerLabel>, k: string, v: string)
    requires DistinctKeys(entries)
    ensures k in LabelsOf(entries) && LabelsOf(entries)[k] == v <==> SpawnerLabel(k, v) in entries
  {
    if entries != [] {
      var n := |entries| - 1;
      var front, last := entries[..n], entries[n];
      LabelsOfDistinct(front, k, v);
      assert SpawnerLabel(k, v) in entries <==> SpawnerLabel(k, v) in front || SpawnerLabel(k, v) == last by {
        assert entries == front + [last];
      }
      assert forall i :: 0 <= i < n ==> front[i].key == entries[i].key != last.key;
    }
  }

  /** Reordering entries with distinct keys does not change the map. */
  lemma LabelsOfPermutation(a: seq<SpawnerLabel>, b: seq<SpawnerLabel>)
    requires DistinctKeys(a) && DistinctKeys(b)
    requires forall e :: e in a <==> e in b
    ensures LabelsOf(a) == LabelsOf(b)
  {
    var m, n := LabelsOf(a), LabelsOf(b);
    forall k | k in m ensures k in n && n[k] == m[k] {
      LabelsOfDistinct(a, k, m[k]);
      LabelsOfDistinct(b, k, m[k]);
    }
    forall k | k in n ensures k in m {
      LabelsOfDistinct(a, k, n[k]);
      LabelsOfDistinct(b, k, n[k]);
    }
  }
}
