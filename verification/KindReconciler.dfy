/** The WorkspaceKind reconciler: usage counts, finalizer removal and a status that is written
    only when it changes
    (workspaces/controller/internal/controller/workspacekind_controller.go). */
module KindReconciler {
  import opened Prelude

  datatype OptionMetric = OptionMetric(id: string, workspaces: int)

  datatype ConfigMapRef = ConfigMapRef(namespace: string, name: string, key: string)

  /** An icon or logo. */
  datatype Asset = Asset(url: Option<string>, configMap: Option<ConfigMapRef>)

  /** What the ConfigMap cache answers: the annotations of the object, or an error. */
  datatype Cached = Found(annotations: map<string, string>) | NotFound | Unavailable(cause: string)

  datatype AssetError =
    | ConfigMapNotFound(ref: ConfigMapRef)
    | KeyNotFound(ref: ConfigMapRef)
    | OtherError(ref: ConfigMapRef, cause: string)

  datatype AssetStatus = AssetStatus(sha256: string, error: Option<AssetError>)

  const NO_ASSET_STATUS := AssetStatus("", None)

  datatype KindStatus = KindStatus(
    workspaces: int,
    imageConfig: seq<OptionMetric>,
    podConfig: seq<OptionMetric>,
    icon: AssetStatus,
    logo: AssetStatus)

  /** The parts of the spec that the status depends on: option ids in order, and the two assets. */
  datatype KindSpec = KindSpec(imageConfigIds: seq<string>, podConfigIds: seq<string>, icon: Asset, logo: Asset)

  /** The options a listed Workspace selects. */
  datatype Usage = Usage(imageConfig: string, podConfig: string)

  datatype Observed = Observed(spec: KindSpec, workspaces: seq<Usage>, configMaps: map<(string, string), Cached>)

  const FINALIZER := "workspaces.kubeflow.org/workspacekind-protection"
  const SHA256_ANNOTATION_PREFIX := "VIRTUAL.workspaces.kubeflow.org/sha256."

  // ------------------------------------------------------------------ usage counts

  function Images(ws: seq<Usage>): (ids: seq<string>)
    ensures |ids| == |ws| && forall i :: 0 <= i < |ws| ==> ids[i] == ws[i].imageConfig
  {
    seq(|ws|, i requires 0 <= i < |ws| => ws[i].imageConfig)
  }

  function Pods(ws: seq<Usage>): (ids: seq<string>)
    ensures |ids| == |ws| && forall i :: 0 <= i < |ws| ==> ids[i] == ws[i].podConfig
  {
    seq(|ws|, i requires 0 <= i < |ws| => ws[i].podConfig)
  }

  /** The metric of each option is the number of selections of its id, kept in an int32. */
  function Metrics(ids: seq<string>, selected: seq<string>): (m: seq<OptionMetric>)
    ensures |m| == |ids|
    ensures forall i :: 0 <= i < |ids| ==> m[i] == OptionMetric(ids[i], Wrap32(multiset(selected)[ids[i]]))
  {
    seq(|ids|, i requires 0 <= i < |ids| => OptionMetric(ids[i], Wrap32(multiset(selected)[ids[i]])))
  }

  lemma CountOneMore(n: int)
    ensures Wrap32(Wrap32(n) + 1) == Wrap32(n + 1)
  {
    var m := n + TWO_31;
    assert (m % TWO_32 + 1) % TWO_32 == (m + 1) % TWO_32;
  }

  /** The counters show these selections. */
  ghost predicate Tallies(count: map<string, int>, selected: multiset<string>) {
    && (forall id :: id in count ==> count[id] == Wrap32(selected[id]))
    && (forall id :: id !in count ==> selected[id] == 0)
  }

  lemma TallyOneMore(count: map<string, int>, selected: multiset<string>, id: string)
    requires Tallies(count, selected)
    ensures Tallies(count[id := Wrap32((if id in count then count[id] else 0) + 1)], selected + multiset{id})
  {
    CountOneMore(selected[id]);
  }

  /** The counting loops of `Reconcile`, for one kind of option: a counter for every option and for
      every selected id. */
  method Tally(ids: seq<string>, selected: seq<string>) returns (count: map<string, int>)
    ensures forall j :: 0 <= j < |ids| ==> ids[j] in count
    ensures forall id :: id in count ==> count[id] == Wrap32(multiset(selected)[id])
  {
    count := map[];
    for i := 0 to |ids|
      invariant forall j :: 0 <= j < i ==> ids[j] in count
      invariant forall id :: id in count ==> count[id] == 0
    {
      count := count[ids[i] := 0];
    }
    for i := 0 to |selected|
      invariant forall j :: 0 <= j < |ids| ==> ids[j] in count
      invariant Tallies(count, multiset(selected[..i]))
    {
      var id := selected[i];
      assert multiset(selected[..i + 1]) == multiset(selected[..i]) + multiset{id} by {
        assert selected[..i + 1] == selected[..i] + [id];
      }
      TallyOneMore(count, multiset(selected[..i]), id);
      var current := if id in count then count[id] else 0;
      count := count[id := Wrap32(current + 1)];
    }
    assert selected[..|selected|] == selected;
  }

  /** The metrics, filled in by index. */
  method CountOptions(ids: seq<string>, selected: seq<string>) returns (metrics: seq<OptionMetric>)
    ensures metrics == Metrics(ids, selected)
  {
    var count := Tally(ids, selected);
    var slots := new OptionMetric[|ids|];
    for i := 0 to |ids|
      invariant forall j :: 0 <= j < i ==> slots[j] == OptionMetric(ids[j], count[ids[j]])
    {
      slots[i] := OptionMetric(ids[i], count[ids[i]]);
    }
    metrics := slots[..];
  }

  function Total(m: seq<OptionMetric>): int {
    if m == [] then 0 else Total(m[..|m| - 1]) + m[|m| - 1].workspaces
  }

  /** Selections of ids that no option has. */
  function UnknownSelections(ids: seq<string>, selected: seq<string>): nat {
    if selected == [] then 0
    else UnknownSelections(ids, selected[..|selected| - 1]) + if selected[|selected| - 1] in ids then 0 else 1
  }

  /** The metrics of one more selection: every option with that id counts it. */
  lemma {:induction false} TotalOneMore(ids: seq<string>, selected: seq<string>, id: string)
    requires |selected| + 1 < TWO_31
    ensures Total(Metrics(ids, selected + [id])) == Total(Metrics(ids, selected)) + multiset(ids)[id]
  {
    if ids != [] {
      var n := |ids| - 1;
      TotalOneMore(ids[..n], selected, id);
      LastMetric(ids, selected);
      LastMetric(ids, selected + [id]);
      OneMoreSelection(selected, id, ids[n]);
      assert multiset(ids) == multiset(ids[..n]) + multiset{ids[n]} by {
        assert ids == ids[..n] + [ids[n]];
      }
    }
  }

  lemma OneMoreSelection(selected: seq<string>, id: string, other: string)
    requires |selected| + 1 < TWO_31
    ensures Wrap32(multiset(selected + [id])[other]) ==
            Wrap32(multiset(selected)[other]) + if id == other then 1 else 0
  {
    CountAtMost(selected, other);
  }

  lemma LastMetric(ids: seq<string>, selected: seq<string>)
    requires ids != []
    ensures var n := |ids| - 1;
            Total(Metrics(ids, selected)) == Total(Metrics(ids[..n], selected)) + Wrap32(multiset(selected)[ids[n]])
  {
    assert Metrics(ids, selected)[..|ids| - 1] == Metrics(ids[..|ids| - 1], selected);
  }

  lemma {:induction false} CountAtMost(selected: seq<string>, id: string)
    ensures 0 <= multiset(selected)[id] <= |selected|
  {
    if selected != [] {
      var n := |selected| - 1;
      assert selected == selected[..n] + [selected[n]];
      CountAtMost(selected[..n], id);
    }
  }

  /** Conservation of usage: no Workspace is lost, and the option metrics plus the selections of
      unknown ids add up to the number of Workspaces exactly when no selected id is listed twice. */
  lemma {:induction false} UsageConservation(ids: seq<string>, selected: seq<string>)
    requires |selected| < TWO_31
    ensures Total(Metrics(ids, selected)) + UnknownSelections(ids, selected) >= |selected|
    ensures Total(Metrics(ids, selected)) + UnknownSelections(ids, selected) == |selected| <==>
            forall id :: id in selected ==> multiset(ids)[id] <= 1
  {
    if selected == [] {
      NothingSelected(ids);
    } else {
      var n := |selected| - 1;
      var front, id := selected[..n], selected[n];
      assert selected == front + [id];
      UsageConservation(ids, front);
      TotalOneMore(ids, front, id);
      assert id in ids <==> multiset(ids)[id] >= 1;
    }
  }

  lemma {:induction false} NothingSelected(ids: seq<string>)
    ensures Total(Metrics(ids, [])) == 0
  {
    if ids != [] {
      NothingSelected(ids[..|ids| - 1]);
      LastMetric(ids, []);
    }
  }

  // ------------------------------------------------------------------ status

  /** The status describes this asset: for a ConfigMap asset either the hash found for its key or an error
      that names the reference, never both; nothing for any other asset. */
  predicate Describes(r: AssetStatus, a: Asset, configMaps: map<(string, string), Cached>) {
    && (a.url.Some? || a.configMap.None? ==> r == AssetStatus("", None))
    && (a.url.None? && a.configMap.Some? ==>
          var ref := a.configMap.value;
          var at := (ref.namespace, ref.name);
          var key := "VIRTUAL.workspaces.kubeflow.org/sha256." + ref.key;
          && (r.error.None? <==> at in configMaps && configMaps[at].Found? && key in configMaps[at].annotations)
          && (r.error.None? ==> r.sha256 == configMaps[at].annotations[key])
          && (r.error.Some? ==> r.sha256 == "" && r.error.value.ref == ref)
          && (r.error.Some? && r.error.value.KeyNotFound? <==>
                at in configMaps && configMaps[at].Found? && key !in configMaps[at].annotations)
          && (r.error.Some? && r.error.value.OtherError? <==> at in configMaps && configMaps[at].Unavailable?)
          && (r.error.Some? && r.error.value.OtherError? ==> r.error.value.cause == configMaps[at].cause))
  }

  /** There is no choice: two statuses that describe the same asset are equal. */
  lemma DescriptionIsUnique(r: AssetStatus, s: AssetStatus, a: Asset, configMaps: map<(string, string), Cached>)
    requires Describes(r, a, configMaps) && Describes(s, a, configMaps)
    ensures r == s
  {
  }

  /** `reconcileAssetStatus`. */
  function StatusOfAsset(a: Asset, configMaps: map<(string, string), Cached>): (r: AssetStatus)
    ensures Describes(r, a, configMaps)
  {
    if a.url.Some? || a.configMap.None? then NO_ASSET_STATUS
    else
      var ref := a.configMap.value;
      var cached := if (ref.namespace, ref.name) in configMaps then configMaps[(ref.namespace, ref.name)] else NotFound;
      match cached
      case NotFound => AssetStatus("", Some(ConfigMapNotFound(ref)))
      case Unavailable(cause) => AssetStatus("", Some(OtherError(ref, cause)))
      case Found(annotations) =>
        var key := SHA256_ANNOTATION_PREFIX + ref.key;
        if key in annotations then AssetStatus(annotations[key], None) else AssetStatus("", Some(KeyNotFound(ref)))
  }

  /** The status the reconciler computes from what it observes. */
  function Desired(o: Observed): KindStatus {
    KindStatus(Wrap32(|o.workspaces|),
               Metrics(o.spec.imageConfigIds, Images(o.workspaces)),
               Metrics(o.spec.podConfigIds, Pods(o.workspaces)),
               StatusOfAsset(o.spec.icon, o.configMaps),
               StatusOfAsset(o.spec.logo, o.configMaps))
  }

  ghost predicate Distinct(ids: seq<string>) {
    forall i, j :: 0 <= i < j < |ids| ==> ids[i] != ids[j]
  }

  lemma {:induction false} DistinctMeansOnce(ids: seq<string>, id: string)
    requires Distinct(ids)
    ensures multiset(ids)[id] <= 1
  {
    if ids != [] {
      var n := |ids| - 1;
      DistinctMeansOnce(ids[..n], id);
      assert ids == ids[..n] + [ids[n]];
      assert ids[n] !in ids[..n];
    }
  }

  /** In the published status both lists of metrics account for every Workspace: with the distinct ids
      the CRD enforces, each option shows exactly its own selections, and the metrics and the
      selections of unknown ids add up to `status.workspaces`. */
  lemma StatusAccountsForEveryWorkspace(o: Observed)
    requires |o.workspaces| < TWO_31 && Distinct(o.spec.imageConfigIds) && Distinct(o.spec.podConfigIds)
    ensures var s, images, pods := Desired(o), Images(o.workspaces), Pods(o.workspaces);
            var imageIds, podIds := o.spec.imageConfigIds, o.spec.podConfigIds;
            && s.workspaces == |o.workspaces|
            && Total(s.imageConfig) + UnknownSelections(imageIds, images) == s.workspaces
            && Total(s.podConfig) + UnknownSelections(podIds, pods) == s.workspaces
            && (forall i :: 0 <= i < |s.imageConfig| ==>
                  s.imageConfig[i] == OptionMetric(imageIds[i], multiset(images)[imageIds[i]]))
            && (forall i :: 0 <= i < |s.podConfig| ==>
                  s.podConfig[i] == OptionMetric(podIds[i], multiset(pods)[podIds[i]]))
  {
    MetricsAreExact(o.spec.imageConfigIds, Images(o.workspaces));
    MetricsAreExact(o.spec.podConfigIds, Pods(o.workspaces));
  }

  lemma MetricsAreExact(ids: seq<string>, selected: seq<string>)
    requires |selected| < TWO_31 && Distinct(ids)
    ensures Total(Metrics(ids, selected)) + UnknownSelections(ids, selected) == |selected|
    ensures forall i :: 0 <= i < |ids| ==> Metrics(ids, selected)[i] == OptionMetric(ids[i], multiset(selected)[ids[i]])
  {
    UsageConservation(ids, selected);
    forall id { DistinctMeansOnce(ids, id); }
    forall i | 0 <= i < |ids|
      ensures Metrics(ids, selected)[i] == OptionMetric(ids[i], multiset(selected)[ids[i]])
    {
      CountAtMost(selected, ids[i]);
    }
  }

  datatype Writes = Writes(finalizers: WriteOutcome, status: WriteOutcome)

  datatype Reply = Settled | RetrySoon | Failed

  /** The stored object. */
  datatype Kind = Kind(finalizers: seq<string>, status: KindStatus)

  datatype KindEffect = KindEffect(stored: Kind, finalizerWrite: bool, statusWrite: bool, reply: Reply)

  /** `controllerutil.RemoveFinalizer`. */
  function RemoveAll(fs: seq<string>, f: string): (r: seq<string>)
    ensures f !in r
    ensures forall g :: g != f ==> multiset(r)[g] == multiset(fs)[g]
  {
    if fs == [] then []
    else
      assert fs == [fs[0]] + fs[1..];
      (if fs[0] == f then [] else [fs[0]]) + RemoveAll(fs[1..], f)
  }

  function ReplyTo(w: WriteOutcome): Reply {
    match w
    case Written => Settled
    case Conflict => RetrySoon
    case WriteFailed => Failed
  }

  /** One reconcile of a stored object; the flags say which writes were attempted. */
  function KindStep(k: Kind, o: Observed, w: Writes): KindEffect {
    var release := |o.workspaces| == 0 && FINALIZER in k.finalizers;
    if release && w.finalizers != Written then KindEffect(k, true, false, ReplyTo(w.finalizers))
    else
      var k' := if release then k.(finalizers := RemoveAll(k.finalizers, FINALIZER)) else k;
      if Desired(o) == k.status then KindEffect(k', release, false, Settled)
      else KindEffect(if w.status == Written then k'.(status := Desired(o)) else k', release, true, ReplyTo(w.status))
  }

  class KindStore {
    var finalizers: seq<string>
    var status: KindStatus

    function Current(): Kind
      reads this
    {
      Kind(finalizers, status)
    }

    constructor (k: Kind)
      ensures Current() == k
    {
      finalizers, status := k.finalizers, k.status;
    }

    method Reconcile(o: Observed, w: Writes) returns (finalizerWrite: bool, statusWrite: bool, reply: Reply)
      modifies this
      ensures KindEffect(Current(), finalizerWrite, statusWrite, reply) == KindStep(old(Current()), o, w)
    {
      var currentStatus := status;
      finalizerWrite, statusWrite := false, false;
      if |o.workspaces| == 0 {
        if FINALIZER in finalizers {
          finalizerWrite := true;
          if w.finalizers == Conflict {
            return finalizerWrite, statusWrite, RetrySoon;
          }
          if w.finalizers == WriteFailed {
            return finalizerWrite, statusWrite, Failed;
          }
          finalizers := RemoveAll(finalizers, FINALIZER);
        }
      }
      var images := CountOptions(o.spec.imageConfigIds, Images(o.workspaces));
      var pods := CountOptions(o.spec.podConfigIds, Pods(o.workspaces));
      var icon := StatusOfAsset(o.spec.icon, o.configMaps);
      var logo := StatusOfAsset(o.spec.logo, o.configMaps);
      var newStatus := KindStatus(Wrap32(|o.workspaces|), images, pods, icon, logo);
      if currentStatus != newStatus {
        statusWrite := true;
        if w.status == Conflict {
          return finalizerWrite, statusWrite, RetrySoon;
        }
        if w.status == WriteFailed {
          return finalizerWrite, statusWrite, Failed;
        }
        status := newStatus;
      }
      return finalizerWrite, statusWrite, Settled;
    }
  }

  /** The object a settled reconcile leaves shows each asset in its own field: the icon status describes the
      icon and the logo status the logo, and neither depends on the other asset, on what was stored before
      or on anything but the ConfigMaps. */
  lemma SettledAssets(k: Kind, o: Observed, w: Writes, k': Kind, w': Writes, other: Asset)
    requires KindStep(k, o, w).reply == Settled
    ensures Describes(KindStep(k, o, w).stored.status.icon, o.spec.icon, o.configMaps)
    ensures Describes(KindStep(k, o, w).stored.status.logo, o.spec.logo, o.configMaps)
    ensures var e := KindStep(k', o.(spec := o.spec.(logo := other)), w');
            e.reply == Settled ==> e.stored.status.icon == KindStep(k, o, w).stored.status.icon
    ensures var e := KindStep(k', o.(spec := o.spec.(icon := other)), w');
            e.reply == Settled ==> e.stored.status.logo == KindStep(k, o, w).stored.status.logo
  {
  }

  /** Which writes a reconcile attempts and what it answers. The protection finalizer is removed exactly when no
      Workspace is listed; the status is written after that, and exactly when it changes. The answer is
      settled exactly when no attempted write is refused, a retry after a conflict and a failure
      after any other refusal; a refused write changes nothing. */
  lemma WritesAndReply(k: Kind, o: Observed, w: Writes)
    ensures var e := KindStep(k, o, w);
            && (e.finalizerWrite <==>
                  o.workspaces == [] && "workspaces.kubeflow.org/workspacekind-protection" in k.finalizers)
            && (e.statusWrite <==> (e.finalizerWrite ==> w.finalizers == Written) && k.status != Desired(o))
            && (e.reply == RetrySoon <==>
                  (e.finalizerWrite && w.finalizers == Conflict) || (e.statusWrite && w.status == Conflict))
            && (e.reply == Failed <==>
                  (e.finalizerWrite && w.finalizers == WriteFailed) || (e.statusWrite && w.status == WriteFailed))
            && (!(e.finalizerWrite && w.finalizers == Written) ==> e.stored.finalizers == k.finalizers)
            && (!(e.statusWrite && w.status == Written) ==> e.stored.status == k.status)
  {
  }

  /** Removing the finalizer keeps the order of the others. */
  lemma {:induction false} RemoveAllConcat(a: seq<string>, b: seq<string>, f: string)
    ensures RemoveAll(a + b, f) == RemoveAll(a, f) + RemoveAll(b, f)
  {
    if a == [] {
      assert a + b == b;
    } else {
      assert (a + b)[1..] == a[1..] + b && (a + b)[0] == a[0];
      RemoveAllConcat(a[1..], b, f);
      var kept, front, back := if a[0] == f then [] else [a[0]], RemoveAll(a[1..], f), RemoveAll(b, f);
      assert kept + (front + back) == (kept + front) + back;
    }
  }

  // ------------------------------------------------------------------ runs

  function KindAt(k: Kind, o: Observed, run: seq<Writes>, n: nat): Kind
    requires n <= |run|
  {
    if n == 0 then k else KindStep(KindAt(k, o, run, n - 1), o, run[n - 1]).stored
  }

  function KindEffectAt(k: Kind, o: Observed, run: seq<Writes>, n: nat): KindEffect
    requires n < |run|
  {
    KindStep(KindAt(k, o, run, n), o, run[n])
  }

  /** The stored object needs no further write. */
  predicate UpToDate(k: Kind, o: Observed) {
    (|o.workspaces| > 0 || FINALIZER !in k.finalizers) && k.status == Desired(o)
  }

  /** A reconcile that settles leaves nothing to do: with unchanged inputs every later reconcile
      attempts no write at all and leaves the object as it is. */
  lemma {:induction false} Quiescence(k: Kind, o: Observed, run: seq<Writes>, i: nat, j: nat)
    requires i < j <= |run| && KindEffectAt(k, o, run, i).reply == Settled
    ensures UpToDate(KindAt(k, o, run, j), o)
    ensures KindAt(k, o, run, j) == KindAt(k, o, run, i + 1)
    ensures j < |run| ==> var e := KindEffectAt(k, o, run, j); !e.finalizerWrite && !e.statusWrite && e.reply == Settled
    decreases j
  {
    if i + 1 < j {
      Quiescence(k, o, run, i, j - 1);
    }
  }

  /** Successful writes of the finalizer list and of the status in the first `n` reconciles. */
  function FinalizerWrites(k: Kind, o: Observed, run: seq<Writes>, n: nat): nat
    requires n <= |run|
  {
    if n == 0 then 0
    else FinalizerWrites(k, o, run, n - 1)
         + if KindEffectAt(k, o, run, n - 1).finalizerWrite && run[n - 1].finalizers == Written then 1 else 0
  }

  function StatusWrites(k: Kind, o: Observed, run: seq<Writes>, n: nat): nat
    requires n <= |run|
  {
    if n == 0 then 0
    else StatusWrites(k, o, run, n - 1)
         + if KindEffectAt(k, o, run, n - 1).statusWrite && run[n - 1].status == Written then 1 else 0
  }

  /** Over any run with unchanged inputs, whatever mix of conflicts and failures the API server
      answers, at most one finalizer write and one status write succeed, the only status ever
      written is the one the inputs determine, and the finalizers are untouched as long as a
      Workspace is listed. */
  lemma {:induction false} AtMostOneWriteEach(k: Kind, o: Observed, run: seq<Writes>, n: nat)
    requires n <= |run|
    ensures FinalizerWrites(k, o, run, n) <= 1 && StatusWrites(k, o, run, n) <= 1
    ensures FinalizerWrites(k, o, run, n) == 1 ==> FINALIZER !in KindAt(k, o, run, n).finalizers
    ensures KindAt(k, o, run, n).status == if StatusWrites(k, o, run, n) == 1 then Desired(o) else k.status
    ensures KindAt(k, o, run, n).finalizers ==
            if FinalizerWrites(k, o, run, n) == 1 then RemoveAll(k.finalizers, FINALIZER) else k.finalizers
    ensures |o.workspaces| > 0 ==> FinalizerWrites(k, o, run, n) == 0
  {
    if n > 0 {
      AtMostOneWriteEach(k, o, run, n - 1);
    }
  }
}
