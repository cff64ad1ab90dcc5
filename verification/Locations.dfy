/** `Location` headers are built from route templates by textual substitution
    (workspaces/backend/api/helpers.go and api/constants/paths.go). */
module Locations {
  import opened Prelude

  const PATH_PREFIX := "/api/v1"
  const NAMESPACE_PARAM := ":" + "namespace"
  const NAME_PARAM := ":" + "name"

  const ALL_WORKSPACES := PATH_PREFIX + "/workspaces"
  const ALL_WORKSPACE_KINDS := PATH_PREFIX + "/workspacekinds"
  const ALL_SECRETS := PATH_PREFIX + "/secrets"

  /** Route of one namespaced resource of a collection, and of one cluster-scoped resource. */
  function NamespacedRoute(collection: string): string {
    collection + "/" + NAMESPACE_PARAM + "/" + NAME_PARAM
  }

  function ClusterRoute(collection: string): string {
    collection + "/" + NAME_PARAM
  }

  /** The first index at or after `from` where `sub` occurs, or the length. */
  function Find(s: string, sub: string, from: nat): (i: nat)
    requires from <= |s|
    ensures from <= i <= |s|
    ensures forall j :: from <= j < i ==> !(sub <= s[j..])
    ensures i < |s| ==> sub <= s[i..]
    decreases |s| - from
  {
    if from == |s| || sub <= s[from..] then from else Find(s, sub, from + 1)
  }

  /** `strings.Replace(s, old, new, 1)` for a non-empty `old`. */
  function ReplaceFirst(s: string, old_: string, new_: string): string {
    var i := Find(s, old_, 0);
    if i == |s| then s else s[..i] + new_ + s[i + |old_|..]
  }

  /** The first occurrence is the one after a text without the pattern's first character. */
  lemma ReplaceAfter(a: string, old_: string, b: string, new_: string)
    requires old_ != "" && old_[0] !in a
    ensures ReplaceFirst(a + old_ + b, old_, new_) == a + new_ + b
  {
    var s := a + old_ + b;
    var i := Find(s, old_, 0);
    assert s[|a|..] == old_ + b;
    assert old_ <= s[|a|..];
    forall j | 0 <= j < |a| ensures !(old_ <= s[j..]) {
      assert s[j..][0] == a[j];
    }
    assert i == |a| && s[..i] == a;
    assert s[i + |old_|..] == b;
  }

  /** `LocationGetWorkspace` and `LocationGetSecret`. */
  function NamespacedLocation(collection: string, namespace: string, name: string): string {
    ReplaceFirst(ReplaceFirst(NamespacedRoute(collection), NAMESPACE_PARAM, namespace), NAME_PARAM, name)
  }

  /** `LocationGetWorkspaceKind`. */
  function ClusterLocation(collection: string, name: string): string {
    ReplaceFirst(ClusterRoute(collection), NAME_PARAM, name)
  }

  /** The path between slashes. */
  function Split(s: string): (r: seq<string>)
    ensures |r| > 0
  {
    if s == "" then [""]
    else
      var rest := Split(s[1..]);
      if s[0] == '/' then [""] + rest else [[s[0]] + rest[0]] + rest[1..]
  }

  lemma {:induction false} SplitSegment(seg: string)
    requires '/' !in seg
    ensures Split(seg) == [seg]
  {
    if seg != "" {
      SplitSegment(seg[1..]);
      assert [seg[0]] + seg[1..] == seg;
    }
  }

  /** Appending a segment to a path appends it to the split. */
  lemma {:induction false} SplitAppend(a: string, seg: string)
    requires '/' !in seg
    ensures Split(a + "/" + seg) == Split(a) + [seg]
  {
    var s := a + "/" + seg;
    if a == "" {
      assert s[1..] == seg;
      SplitSegment(seg);
    } else {
      assert s[1..] == a[1..] + "/" + seg;
      SplitAppend(a[1..], seg);
      assert s[0] == a[0];
      var r := Split(a[1..]);
      assert (r + [seg])[0] == r[0] && (r + [seg])[1..] == r[1..] + [seg];
    }
  }

  lemma {:induction false} SplitCharacters(s: string, c: char, i: nat)
    requires c !in s && i < |Split(s)|
    ensures c !in Split(s)[i]
  {
    if s != "" {
      var rest := Split(s[1..]);
      forall j | 0 <= j < |rest| ensures c !in rest[j] { SplitCharacters(s[1..], c, j); }
    }
  }

  predicate IsParam(segment: string) {
    segment != "" && segment[0] == ':'
  }

  /** The router: segment by segment, parameters bind and everything else has to be equal. */
  function MatchSegments(route: seq<string>, path: seq<string>): Option<map<string, string>> {
    if |route| != |path| then None
    else if route == [] then Some(map[])
    else
      var n := |route| - 1;
      var m := MatchSegments(route[..n], path[..n]);
      if m.None? then None
      else if IsParam(route[n]) then Some(m.value[route[n] := path[n]])
      else if route[n] == path[n] then m
      else None
  }

  function MatchRoute(route: string, path: string): Option<map<string, string>> {
    MatchSegments(Split(route), Split(path))
  }

  lemma {:induction false} StaticSegmentsMatch(route: seq<string>)
    requires forall i :: 0 <= i < |route| ==> !IsParam(route[i])
    ensures MatchSegments(route, route) == Some(map[])
  {
    if route != [] {
      StaticSegmentsMatch(route[..|route| - 1]);
    }
  }

  lemma StaticPathMatches(path: string)
    requires ':' !in path
    ensures MatchSegments(Split(path), Split(path)) == Some(map[])
  {
    forall i | 0 <= i < |Split(path)| ensures !IsParam(Split(path)[i]) {
      SplitCharacters(path, ':', i);
    }
    StaticSegmentsMatch(Split(path));
  }

  /** Both parameters are filled in, each in its own place. */
  lemma NamespacedLocationText(collection: string, namespace: string, name: string)
    requires ':' !in collection && ':' !in namespace
    ensures NamespacedLocation(collection, namespace, name) == collection + "/" + namespace + "/" + name
  {
    var a, b := collection + "/", "/" + NAME_PARAM;
    assert NamespacedRoute(collection) == a + NAMESPACE_PARAM + b;
    ReplaceAfter(a, NAMESPACE_PARAM, b, namespace);
    var c := a + namespace + "/";
    assert a + namespace + b == c + NAME_PARAM + "";
    ReplaceAfter(c, NAME_PARAM, "", name);
    assert c + name + "" == collection + "/" + namespace + "/" + name;
  }

  /** Location round trip: the router reads back exactly the namespace and name the Location was built
      from, so Locations are injective. Names by section 2.1 of RFC 1123 meet the hypotheses. */
  lemma NamespacedRoundTrip(collection: string, namespace: string, name: string)
    requires ':' !in collection && ':' !in namespace && '/' !in namespace && '/' !in name
    ensures MatchRoute(NamespacedRoute(collection), NamespacedLocation(collection, namespace, name))
            == Some(map[NAMESPACE_PARAM := namespace, NAME_PARAM := name])
  {
    NamespacedLocationText(collection, namespace, name);
    SplitAppend(collection, NAMESPACE_PARAM);
    SplitAppend(collection + "/" + NAMESPACE_PARAM, NAME_PARAM);
    SplitAppend(collection, namespace);
    SplitAppend(collection + "/" + namespace, name);
    StaticPathMatches(collection);
    var base := Split(collection);
    var route1, path1 := base + [NAMESPACE_PARAM], base + [namespace];
    var route, path := route1 + [NAME_PARAM], path1 + [name];
    assert route1[..|base|] == base == path1[..|base|];
    assert MatchSegments(route1, path1) == Some(map[NAMESPACE_PARAM := namespace]);
    assert route[..|base| + 1] == route1 && path[..|base| + 1] == path1;
    assert MatchSegments(route, path) == Some(map[NAMESPACE_PARAM := namespace][NAME_PARAM := name]);
  }

  lemma ClusterRoundTrip(collection: string, name: string)
    requires ':' !in collection && '/' !in name
    ensures ClusterLocation(collection, name) == collection + "/" + name
    ensures MatchRoute(ClusterRoute(collection), ClusterLocation(collection, name)) == Some(map[NAME_PARAM := name])
  {
    var a := collection + "/";
    assert ClusterRoute(collection) == a + NAME_PARAM + "";
    ReplaceAfter(a, NAME_PARAM, "", name);
    assert a + name + "" == collection + "/" + name;
    SplitAppend(collection, NAME_PARAM);
    SplitAppend(collection, name);
    StaticPathMatches(collection);
    var base := Split(collection);
    assert (base + [NAME_PARAM])[..|base|] == base == (base + [name])[..|base|];
  }

  /** The three Locations the handlers build. */
  lemma LocationsRoundTrip(namespace: string, name: string)
    requires ':' !in namespace && '/' !in namespace && '/' !in name
    ensures MatchRoute(NamespacedRoute(ALL_WORKSPACES), NamespacedLocation(ALL_WORKSPACES, namespace, name))
            == Some(map[NAMESPACE_PARAM := namespace, NAME_PARAM := name])
    ensures MatchRoute(NamespacedRoute(ALL_SECRETS), NamespacedLocation(ALL_SECRETS, namespace, name))
            == Some(map[NAMESPACE_PARAM := namespace, NAME_PARAM := name])
    ensures MatchRoute(ClusterRoute(ALL_WORKSPACE_KINDS), ClusterLocation(ALL_WORKSPACE_KINDS, name))
            == Some(map[NAME_PARAM := name])
  {
    NamespacedRoundTrip(ALL_WORKSPACES, namespace, name);
    NamespacedRoundTrip(ALL_SECRETS, namespace, name);
    ClusterRoundTrip(ALL_WORKSPACE_KINDS, name);
  }

  lemma Collections()
    ensures ALL_WORKSPACES == "/api/v1/workspaces"
    ensures ALL_SECRETS == "/api/v1/secrets"
    ensures ALL_WORKSPACE_KINDS == "/api/v1/workspacekinds"
  {
  }

  /** Their texts. */
  lemma LocationTexts(namespace: string, name: string)
    requires ':' !in namespace && '/' !in name
    ensures NamespacedLocation(ALL_WORKSPACES, namespace, name) == "/api/v1/workspaces" + "/" + namespace + "/" + name
    ensures NamespacedLocation(ALL_SECRETS, namespace, name) == "/api/v1/secrets" + "/" + namespace + "/" + name
    ensures ClusterLocation(ALL_WORKSPACE_KINDS, name) == "/api/v1/workspacekinds" + "/" + name
  {
    Collections();
    NamespacedLocationText(ALL_WORKSPACES, namespace, name);
    NamespacedLocationText(ALL_SECRETS, namespace, name);
    ClusterRoundTrip(ALL_WORKSPACE_KINDS, name);
  }

  /** Different resources have different Locations. */
  lemma LocationsAreInjective(collection: string, ns1: string, n1: string, ns2: string, n2: string)
    requires ':' !in collection && ':' !in ns1 && '/' !in ns1 && '/' !in n1 && ':' !in ns2 && '/' !in ns2 && '/' !in n2
    ensures NamespacedLocation(collection, ns1, n1) == NamespacedLocation(collection, ns2, n2) ==>
              ns1 == ns2 && n1 == n2
  {
    NamespacedRoundTrip(collection, ns1, n1);
    NamespacedRoundTrip(collection, ns2, n2);
    var m1, m2 := map[NAMESPACE_PARAM := ns1, NAME_PARAM := n1], map[NAMESPACE_PARAM := ns2, NAME_PARAM := n2];
    assert m1 == m2 ==> m1[NAMESPACE_PARAM] == m2[NAMESPACE_PARAM] && m1[NAME_PARAM] == m2[NAME_PARAM];
  }

  lemma NamespaceParamAbsent(p: string, j: nat)
    requires ':' !in p && j < |p| + 11
    ensures !(NAMESPACE_PARAM <= (p + "space/:name")[j..])
  {
    var b := "space/:name";
    var t := (p + b)[j..];
    assert t[0] == if j < |p| then p[j] else b[j - |p|];
  }

  /** The order of the two substitutions matters: `:name` is a prefix of `:namespace`, so filling in the
      name first spoils the namespace for every resource. */
  lemma SwappedOrderLosesNamespace(collection: string, namespace: string, name: string)
    requires ':' !in collection && ':' !in name
    ensures ReplaceFirst(ReplaceFirst(NamespacedRoute(collection), NAME_PARAM, name), NAMESPACE_PARAM, namespace)
            == collection + "/" + name + "space/:name"
  {
    var a, b := collection + "/", "space/:name";
    assert NAMESPACE_PARAM == NAME_PARAM + "space";
    assert NamespacedRoute(collection) == a + NAME_PARAM + b;
    ReplaceAfter(a, NAME_PARAM, b, name);
    var s := a + name + b;
    forall j | 0 <= j < |s| ensures !(NAMESPACE_PARAM <= s[j..]) {
      NamespaceParamAbsent(a + name, j);
    }
    assert s == collection + "/" + name + "space/:name";
  }
}
