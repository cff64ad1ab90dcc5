/** Option redirects: the webhook's cycle check and the controller's resolution of a selected option
    (workspaces/controller/internal/helper/graph.go, internal/webhook/workspacekind_webhook.go and
    internal/controller/workspace_controller.go). */
module Redirects {
  import opened Prelude

  datatype RedirectingOption = RedirectingOption(id: string, redirect: Option<string>)

  type Edges = map<string, string>

  /** Following edges from `x` stops after at most `n` steps. */
  ghost predicate Ends(edges: Edges, x: string, n: nat)
    decreases n
  {
    x !in edges || (n > 0 && Ends(edges, edges[x], n - 1))
  }

  ghost predicate Terminates(edges: Edges, x: string) {
    exists n: nat :: Ends(edges, x, n)
  }

  ghost predicate IsWalk(edges: Edges, p: seq<string>) {
    forall i :: 0 <= i < |p| - 1 ==> p[i] in edges && edges[p[i]] == p[i + 1]
  }

  /** A walk whose last node leads back to its first. */
  ghost predicate IsCycle(edges: Edges, c: seq<string>) {
    |c| > 0 && IsWalk(edges, c) && c[|c| - 1] in edges && edges[c[|c| - 1]] == c[0]
  }

  lemma EndsStep(edges: Edges, x: string)
    requires x in edges && Terminates(edges, edges[x])
    ensures Terminates(edges, x)
  {
    var n: nat :| Ends(edges, edges[x], n);
    assert Ends(edges, x, n + 1);
  }

  /** If the end of a walk terminates, so does every node on it. */
  lemma {:induction false} WalkTerminates(edges: Edges, p: seq<string>, i: nat)
    requires i < |p| && IsWalk(edges, p) && Terminates(edges, p[|p| - 1])
    ensures Terminates(edges, p[i])
    decreases |p| - i
  {
    if i < |p| - 1 {
      WalkTerminates(edges, p, i + 1);
      assert edges[p[i]] == p[i + 1];
      EndsStep(edges, p[i]);
    }
  }

  lemma {:induction false} CycleNeverEnds(edges: Edges, c: seq<string>, i: nat, n: nat)
    requires IsCycle(edges, c) && i < |c|
    ensures !Ends(edges, c[i], n)
    decreases n
  {
    if n > 0 {
      CycleNeverEnds(edges, c, if i + 1 < |c| then i + 1 else 0, n - 1);
    }
  }

  /** A node on a cycle does not terminate. */
  lemma CycleNeverTerminates(edges: Edges, c: seq<string>)
    requires IsCycle(edges, c)
    ensures !Terminates(edges, c[0])
  {
    forall n: nat ensures !Ends(edges, c[0], n) {
      CycleNeverEnds(edges, c, 0, n);
    }
  }

  /** Conversely, if the start of a walk terminates, so does every node on it. */
  lemma {:induction false} WalkTail(edges: Edges, p: seq<string>, i: nat)
    requires i < |p| && IsWalk(edges, p) && Terminates(edges, p[0])
    ensures Terminates(edges, p[i])
  {
    if i > 0 {
      WalkTail(edges, p, i - 1);
      var n: nat :| Ends(edges, p[i - 1], n);
      assert p[i - 1] in edges && edges[p[i - 1]] == p[(i - 1) + 1];
      assert Ends(edges, p[i], n - 1);
    }
  }

  /** A walk that comes back to its node `i` contains a cycle from there, and never stops. */
  lemma WalkComesBack(edges: Edges, w: seq<string>, i: nat)
    requires IsWalk(edges, w) && i < |w| - 1 && w[i] == w[|w| - 1]
    ensures IsCycle(edges, w[i..|w| - 1]) && !Terminates(edges, w[0])
  {
    var c := w[i..|w| - 1];
    assert forall j :: 0 <= j < |c| ==> c[j] == w[i + j];
    assert c[|c| - 1] == w[|w| - 2] && edges[w[|w| - 2]] == w[(|w| - 2) + 1];
    CycleNeverTerminates(edges, c);
    if Terminates(edges, w[0]) {
      WalkTail(edges, w, i);
    }
  }

  lemma WalkExtends(edges: Edges, w: seq<string>)
    requires |w| > 0 && IsWalk(edges, w) && w[|w| - 1] in edges
    ensures IsWalk(edges, w + [edges[w[|w| - 1]]])
  {
  }

  ghost predicate AllTerminate(edges: Edges, nodes: set<string>) {
    forall x :: x in nodes ==> Terminates(edges, x)
  }

  lemma AllOnWalkTerminate(edges: Edges, w: seq<string>, nodes: set<string>)
    requires |w| > 0 && IsWalk(edges, w) && Terminates(edges, w[|w| - 1])
    requires forall x :: x in nodes ==> x in w
    ensures AllTerminate(edges, nodes) && Terminates(edges, w[0])
  {
    forall i | 0 <= i < |w| ensures Terminates(edges, w[i]) {
      WalkTerminates(edges, w, i);
    }
  }

  method IndexOf(path: seq<string>, node: string) returns (i: nat)
    requires node in path
    ensures i < |path| && path[i] == node
  {
    i := 0;
    while path[i] != node
      invariant i < |path| && node in path[i..]
      decreases |path| - i
    {
      i := i + 1;
    }
  }

  /** `DetectGraphCycle`: it finds a cycle exactly when following edges from the start node never stops,
      and otherwise remembers every node it passed, all of which are safe. */
  method DetectGraphCycle(start: string, checked: set<string>, edges: Edges)
    returns (cycle: Option<seq<string>>, checked': set<string>)
    requires AllTerminate(edges, checked)
    ensures cycle.Some? ==> IsCycle(edges, cycle.value) && checked' == checked
    ensures cycle.None? <==> Terminates(edges, start)
    ensures cycle.None? ==> start in checked' && checked <= checked' && AllTerminate(edges, checked')
  {
    var path: seq<string> := [];
    var pathNodes: set<string> := {};
    var current := start;
    ghost var walk := [start];
    while current !in checked
      invariant walk == path + [current] && walk[0] == start && IsWalk(edges, walk)
      invariant forall x :: x in pathNodes <==> x in path
      decreases edges.Keys - pathNodes
    {
      if current in pathNodes {
        var i := IndexOf(path, current);
        WalkComesBack(edges, walk, i);
        assert walk[i..|walk| - 1] == path[i..];
        return Some(path[i..]), checked;
      }
      path := path + [current];
      pathNodes := pathNodes + {current};
      if current !in edges {
        assert Ends(edges, current, 0);
        break;
      }
      WalkExtends(edges, walk);
      current := edges[current];
      walk := walk + [current];
    }
    AllOnWalkTerminate(edges, walk, pathNodes);
    checked' := checked + pathNodes;
    return None, checked';
  }

  // ------------------------------------------------------------------ validation

  ghost predicate Sound(ids: set<string>, edges: Edges) {
    AllTerminate(edges, edges.Keys) && forall x :: x in edges ==> edges[x] in ids
  }

  /** `validateImageConfigRedirects` and `validatePodConfigRedirects`: no error is reported exactly when no
      redirect runs in a circle and every redirect leads to an existing option, whatever order the
      map is visited in. */
  method ValidateRedirects(ids: set<string>, edges: Edges) returns (accepted: bool)
    ensures accepted <==> Sound(ids, edges)
  {
    accepted := true;
    var checked: set<string> := {};
    var rest := edges.Keys;
    while rest != {}
      invariant rest <= edges.Keys && AllTerminate(edges, checked) && edges.Keys - rest <= checked
      invariant accepted <==> forall x :: x in edges.Keys - rest ==> edges[x] in ids
      decreases rest
    {
      var id :| id in rest;
      var cycle;
      cycle, checked := DetectGraphCycle(id, checked, edges);
      if cycle.Some? {
        return false;
      }
      if edges[id] !in ids {
        accepted := false;
      }
      rest := rest - {id};
    }
  }

  /** Each id with the redirect of its last value. */
  function IdMap(values: seq<RedirectingOption>): map<string, Option<string>> {
    if values == [] then map[]
    else IdMap(values[..|values| - 1])[values[|values| - 1].id := values[|values| - 1].redirect]
  }

  /** The redirects as the webhook collects them: values without one do not erase earlier ones. */
  function RedirectMap(values: seq<RedirectingOption>): Edges {
    if values == [] then map[]
    else
      var v, m := values[|values| - 1], RedirectMap(values[..|values| - 1]);
      if v.redirect.Some? then m[v.id := v.redirect.value] else m
  }

  /** Of several values with one id the controller goes by the last, and the webhook by the last with a redirect. */
  lemma {:induction false} LastValueCounts(values: seq<RedirectingOption>, i: nat)
    requires i < |values|
    ensures (forall j :: i < j < |values| ==> values[j].id != values[i].id) ==>
              values[i].id in IdMap(values) && IdMap(values)[values[i].id] == values[i].redirect
    ensures values[i].redirect.Some? &&
            (forall j :: i < j < |values| ==> values[j].id != values[i].id || values[j].redirect.None?) ==>
              values[i].id in RedirectMap(values) && RedirectMap(values)[values[i].id] == values[i].redirect.value
  {
    var n := |values| - 1;
    if i < n {
      LastValueCounts(values[..n], i);
      assert forall j :: 0 <= j < n ==> values[..n][j] == values[j];
    }
  }

  method ValidateOptions(values: seq<RedirectingOption>) returns (accepted: bool)
    ensures accepted <==> Sound(IdMap(values).Keys, RedirectMap(values))
  {
    var ids: map<string, Option<string>> := map[];
    var edges: Edges := map[];
    for i := 0 to |values|
      invariant ids == IdMap(values[..i]) && edges == RedirectMap(values[..i])
    {
      ids := ids[values[i].id := values[i].redirect];
      if values[i].redirect.Some? {
        edges := edges[values[i].id := values[i].redirect.value];
      }
      assert values[..i + 1][..i] == values[..i];
    }
    assert values[..|values|] == values;
    accepted := ValidateRedirects(ids.Keys, edges);
  }

  lemma {:induction false} RedirectMapCovers(values: seq<RedirectingOption>, x: string)
    ensures x in IdMap(values) && IdMap(values)[x].Some? ==>
              x in RedirectMap(values) && RedirectMap(values)[x] == IdMap(values)[x].value
    ensures x in RedirectMap(values) ==> x in IdMap(values)
  {
    if values != [] {
      RedirectMapCovers(values[..|values| - 1], x);
    }
  }

  // ------------------------------------------------------------------ resolution

  /** Following redirects from `x` through existing options arrives at one without a redirect. */
  ghost predicate Arrives(ids: map<string, Option<string>>, x: string, n: nat)
    decreases n
  {
    x in ids && (ids[x].None? || (n > 0 && Arrives(ids, ids[x].value, n - 1)))
  }

  ghost predicate Resolvable(ids: map<string, Option<string>>, x: string) {
    exists n: nat :: Arrives(ids, x, n)
  }

  datatype RedirectError = OptionNotFound | CircularRedirect | TargetNotFound

  /** The chain is the list of options visited, from the current one to the desired one. */
  ghost predicate IsChain(ids: map<string, Option<string>>, chain: seq<string>) {
    && |chain| > 0
    && (forall i :: 0 <= i < |chain| ==> chain[i] in ids)
    && (forall i :: 0 <= i < |chain| - 1 ==> ids[chain[i]] == Some(chain[i + 1]))
  }

  lemma {:induction false} ChainResolves(ids: map<string, Option<string>>, chain: seq<string>, i: nat)
    requires IsChain(ids, chain) && i < |chain|
    ensures Resolvable(ids, chain[i]) <==> Resolvable(ids, chain[0])
  {
    if i > 0 {
      ChainResolves(ids, chain, i - 1);
      var x, y := chain[i - 1], chain[i];
      assert ids[x] == Some(chain[(i - 1) + 1]);
      if n: nat :| Arrives(ids, y, n) {
        assert Arrives(ids, x, n + 1);
      }
      if n: nat :| Arrives(ids, x, n) {
        assert Arrives(ids, y, n - 1);
      }
    }
  }

  function EdgesOf(ids: map<string, Option<string>>): Edges {
    map x | x in ids && ids[x].Some? :: ids[x].value
  }

  lemma {:induction false} ArrivesTerminates(ids: map<string, Option<string>>, x: string, n: nat)
    requires Arrives(ids, x, n)
    ensures Ends(EdgesOf(ids), x, n)
    decreases n
  {
    if ids[x].Some? {
      ArrivesTerminates(ids, ids[x].value, n - 1);
    }
  }

  lemma ChainIsWalk(ids: map<string, Option<string>>, chain: seq<string>)
    requires IsChain(ids, chain)
    ensures IsWalk(EdgesOf(ids), chain)
  {
    forall i | 0 <= i < |chain| - 1
      ensures chain[i] in EdgesOf(ids) && EdgesOf(ids)[chain[i]] == chain[i + 1]
    {
      assert ids[chain[i]] == Some(chain[i + 1]);
    }
  }

  /** A chain that leads back to one of its members runs in a circle from its start. */
  lemma ChainLoopIsCircular(ids: map<string, Option<string>>, chain: seq<string>, k: nat)
    requires IsChain(ids, chain) && k < |chain| && ids[chain[|chain| - 1]] == Some(chain[k])
    ensures !Terminates(EdgesOf(ids), chain[0]) && !Resolvable(ids, chain[0])
  {
    var edges, c := EdgesOf(ids), chain[k..];
    ChainIsWalk(ids, chain);
    assert forall j :: 0 <= j < |c| ==> c[j] == chain[k + j];
    assert IsCycle(edges, c);
    CycleNeverTerminates(edges, c);
    if Terminates(edges, chain[0]) {
      WalkTail(edges, chain, k);
    }
    if n: nat :| Arrives(ids, chain[0], n) {
      ArrivesTerminates(ids, chain[0], n);
    }
  }

  /** `getImageConfig` and `getPodConfig`. It succeeds exactly when following the redirects arrives, and
      then returns the visited options in order: they are distinct, each redirects to the next, and
      the last one, the desired option, has no redirect. */
  method Resolve(values: seq<RedirectingOption>, selected: string) returns (r: Result<seq<string>, RedirectError>)
    ensures r.Ok? <==> Resolvable(IdMap(values), selected)
    ensures r == Err(OptionNotFound) <==> selected !in IdMap(values)
    ensures r == Err(CircularRedirect) <==>
              selected in IdMap(values) && !Terminates(EdgesOf(IdMap(values)), selected)
    ensures r.Ok? ==>
              && IsChain(IdMap(values), r.value) && r.value[0] == selected
              && IdMap(values)[r.value[|r.value| - 1]].None?
              && (forall i, j :: 0 <= i < j < |r.value| ==> r.value[i] != r.value[j])
  {
    var ids: map<string, Option<string>> := map[];
    for i := 0 to |values|
      invariant ids == IdMap(values[..i])
    {
      ids := ids[values[i].id := values[i].redirect];
      assert values[..i + 1][..i] == values[..i];
    }
    assert values[..|values|] == values;
    if selected !in ids {
      return Err(OptionNotFound);
    }
    var desired := selected;
    var chain := [selected];
    var visited := {selected};
    while ids[desired].Some?
      invariant IsChain(ids, chain) && chain[0] == selected && chain[|chain| - 1] == desired
      invariant forall x :: x in visited <==> x in chain
      invariant forall i, j :: 0 <= i < j < |chain| ==> chain[i] != chain[j]
      invariant visited <= ids.Keys
      decreases ids.Keys - visited
    {
      var next := ids[desired].value;
      ChainResolves(ids, chain, |chain| - 1);
      if next in visited {
        ghost var k :| 0 <= k < |chain| && chain[k] == next;
        ChainLoopIsCircular(ids, chain, k);
        return Err(CircularRedirect);
      }
      if next !in ids {
        assert forall n: nat :: !Arrives(ids, desired, n);
        assert Ends(EdgesOf(ids), next, 0);
        EndsStep(EdgesOf(ids), desired);
        ChainIsWalk(ids, chain);
        WalkTerminates(EdgesOf(ids), chain, 0);
        return Err(TargetNotFound);
      }
      chain := chain + [next];
      visited := visited + {next};
      desired := next;
    }
    assert Arrives(ids, desired, 0) && Ends(EdgesOf(ids), desired, 0);
    ChainIsWalk(ids, chain);
    WalkTerminates(EdgesOf(ids), chain, 0);
    ChainResolves(ids, chain, |chain| - 1);
    return Ok(chain);
  }

  /** A WorkspaceKind the webhook accepts never leaves a Workspace unresolved: every option it has
      resolves, for every list of values, repeated ids included. */
  lemma AcceptedOptionsResolve(values: seq<RedirectingOption>, x: string)
    requires Sound(IdMap(values).Keys, RedirectMap(values)) && x in IdMap(values)
    ensures Resolvable(IdMap(values), x)
  {
    var edges := RedirectMap(values);
    assert Terminates(edges, x) by {
      if x !in edges {
        assert Ends(edges, x, 0);
      }
    }
    var n: nat :| Ends(edges, x, n);
    AcceptedOptionsArrive(values, x, n);
  }

  lemma {:induction false} AcceptedOptionsArrive(values: seq<RedirectingOption>, x: string, n: nat)
    requires Sound(IdMap(values).Keys, RedirectMap(values)) && x in IdMap(values) && Ends(RedirectMap(values), x, n)
    ensures Arrives(IdMap(values), x, n)
    decreases n
  {
    RedirectMapCovers(values, x);
    if IdMap(values)[x].Some? {
      AcceptedOptionsArrive(values, IdMap(values)[x].value, n - 1);
    }
  }

  ghost predicate DistinctIds(values: seq<RedirectingOption>) {
    forall i, j :: 0 <= i < j < |values| ==> values[i].id != values[j].id
  }

  lemma {:induction false} IdMapMembers(values: seq<RedirectingOption>, x: string)
    ensures x in IdMap(values) <==> exists i :: 0 <= i < |values| && values[i].id == x
  {
    if values != [] {
      var n := |values| - 1;
      IdMapMembers(values[..n], x);
      if x in IdMap(values) && x != values[n].id {
        var i :| 0 <= i < n && values[..n][i].id == x;
        assert values[i].id == x;
      }
      if i :| 0 <= i < |values| && values[i].id == x {
        assert i == n || values[..n][i].id == x;
      }
    }
  }

  /** With the distinct ids the CRD enforces, the webhook sees the same redirects as the controller. */
  lemma {:induction false} DistinctIdsAgree(values: seq<RedirectingOption>, x: string)
    requires DistinctIds(values)
    ensures x in RedirectMap(values) <==> x in IdMap(values) && IdMap(values)[x].Some?
    ensures x in RedirectMap(values) ==> IdMap(values)[x] == Some(RedirectMap(values)[x])
  {
    if values != [] {
      var n := |values| - 1;
      DistinctIdsAgree(values[..n], x);
      IdMapMembers(values[..n], values[n].id);
    }
  }

  /** The webhook rejects nothing that works: with distinct ids it accepts exactly the lists of values
      all of whose options resolve. */
  lemma AcceptedIffAllResolve(values: seq<RedirectingOption>)
    requires DistinctIds(values)
    ensures Sound(IdMap(values).Keys, RedirectMap(values)) <==>
            forall x :: x in IdMap(values) ==> Resolvable(IdMap(values), x)
  {
    var ids, edges := IdMap(values), RedirectMap(values);
    if Sound(ids.Keys, edges) {
      forall x | x in ids ensures Resolvable(ids, x) { AcceptedOptionsResolve(values, x); }
    }
    if forall x :: x in ids ==> Resolvable(ids, x) {
      forall x | x in edges ensures Terminates(edges, x) && edges[x] in ids {
        DistinctIdsAgree(values, x);
        var n: nat :| Arrives(ids, x, n);
        assert Arrives(ids, edges[x], n - 1);
        ArrivesEnds(values, x, n);
      }
    }
  }

  lemma {:induction false} ArrivesEnds(values: seq<RedirectingOption>, x: string, n: nat)
    requires DistinctIds(values) && Arrives(IdMap(values), x, n)
    ensures Ends(RedirectMap(values), x, n)
    decreases n
  {
    DistinctIdsAgree(values, x);
    if x in RedirectMap(values) {
      ArrivesEnds(values, RedirectMap(values)[x], n - 1);
    }
  }
}
