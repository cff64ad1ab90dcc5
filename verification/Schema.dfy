/** Extraction of a self-contained JSON Schema from the Swagger definitions
    (workspaces/frontend/scripts/generate-schema.js). Definitions are JSON trees. The script's
    patterns work on the JSON text, where a quote inside a string is escaped; they see the same
    references as the tree holds provided no key or string contains a quote followed by
    `#/definitions/`, no key ends with a quote followed by `$ref`, and names of definitions need no
    escaping. */
module Schema {
  import opened Prelude
  import opened Locations

  datatype Json = Lit(text: string) | Str(s: string) | Arr(items: Items) | Obj(members: Members)
  datatype Items = NoItems | Item(first: Json, others: Items)
  datatype Members = NoMembers | Member(key: string, value: Json, others: Members)

  type Definitions = map<string, Json>

  const DEFINITIONS := "#/definitions/"
  const DEFS := "#/$defs/"

  /** The definition a member refers to, when it is a reference under `prefix`. */
  function RefName(prefix: string, key: string, value: Json): Option<string> {
    if key == "$ref" && value.Str? && prefix < value.s then Some(value.s[|prefix|..]) else None
  }

  /** All names referred to from anywhere inside a tree. */
  function Refs(prefix: string, j: Json): seq<string> {
    match j
    case Lit(_) => []
    case Str(_) => []
    case Arr(items) => ItemRefs(prefix, items)
    case Obj(members) => MemberRefs(prefix, members)
  }

  function ItemRefs(prefix: string, items: Items): seq<string> {
    match items
    case NoItems => []
    case Item(j, others) => Refs(prefix, j) + ItemRefs(prefix, others)
  }

  function MemberRefs(prefix: string, members: Members): seq<string> {
    match members
    case NoMembers => []
    case Member(k, v, others) =>
      var name := RefName(prefix, k, v);
      (if name.Some? then [name.value] else Refs(prefix, v)) + MemberRefs(prefix, others)
  }

  /** The script's textual replacement, which hits every key and string with the prefix. */
  function RewriteString(s: string): string {
    if DEFINITIONS <= s then DEFS + s[|DEFINITIONS|..] else s
  }

  function Rewrite(j: Json): Json {
    match j
    case Lit(_) => j
    case Str(s) => Str(RewriteString(s))
    case Arr(items) => Arr(RewriteItems(items))
    case Obj(members) => Obj(RewriteMembers(members))
  }

  function RewriteItems(items: Items): Items {
    match items
    case NoItems => NoItems
    case Item(j, others) => Item(Rewrite(j), RewriteItems(others))
  }

  function RewriteMembers(members: Members): Members {
    match members
    case NoMembers => NoMembers
    case Member(k, v, others) => Member(RewriteString(k), Rewrite(v), RewriteMembers(others))
  }

  /** A reference is a `$ref` member whose value is the prefix followed by a name; nothing else is one. */
  lemma ReferenceShape(prefix: string, key: string, value: Json, name: string)
    ensures RefName(prefix, key, value) == Some(name) <==> key == "$ref" && name != "" && value == Str(prefix + name)
  {
    if value.Str? && prefix < value.s {
      assert value.s == prefix + value.s[|prefix|..];
    }
    if value == Str(prefix + name) {
      assert value.s[|prefix|..] == name;
    }
  }

  // ------------------------------------------------------------------ reachability

  function Successors(defs: Definitions, name: string): seq<string> {
    if name in defs then Refs(DEFINITIONS, defs[name]) else []
  }

  ghost predicate IsPath(defs: Definitions, p: seq<string>) {
    |p| > 0 && forall i :: 0 <= i < |p| - 1 ==> p[i + 1] in Successors(defs, p[i])
  }

  ghost predicate Reaches(defs: Definitions, a: string, b: string) {
    exists p :: IsPath(defs, p) && p[0] == a && p[|p| - 1] == b
  }

  lemma ReachesItself(defs: Definitions, a: string)
    ensures Reaches(defs, a, a)
  {
    assert IsPath(defs, [a]);
  }

  lemma ReachesThrough(defs: Definitions, a: string, b: string, c: string)
    requires b in Successors(defs, a) && Reaches(defs, b, c)
    ensures Reaches(defs, a, c)
  {
    var p :| IsPath(defs, p) && p[0] == b && p[|p| - 1] == c;
    var q := [a] + p;
    assert forall i :: 0 < i < |q| ==> q[i] == p[i - 1];
    assert IsPath(defs, q);
  }

  ghost predicate Closed(defs: Definitions, names: set<string>) {
    forall a, b :: a in names && b in Successors(defs, a) ==> b in names
  }

  lemma {:induction false} PathStaysInside(defs: Definitions, names: set<string>, p: seq<string>)
    requires Closed(defs, names) && IsPath(defs, p) && p[0] in names
    ensures p[|p| - 1] in names
  {
    if |p| > 1 {
      var q := p[1..];
      assert p[0 + 1] in Successors(defs, p[0]);
      assert forall i :: 0 <= i < |q| ==> q[i] == p[i + 1];
      PathStaysInside(defs, names, q);
    }
  }

  /** A closed set that consists of names reachable from a member is the least closed set with that member. */
  lemma ClosedReachableIsLeast(defs: Definitions, root: string, names: set<string>)
    requires root in names && Closed(defs, names)
    requires forall x :: x in names ==> Reaches(defs, root, x)
    ensures forall x :: x in names <==> Reaches(defs, root, x)
    ensures forall other: set<string> :: root in other && Closed(defs, other) ==> names <= other
  {
    forall x, s: set<string> | Reaches(defs, root, x) && root in s && Closed(defs, s)
      ensures x in s
    {
      var p :| IsPath(defs, p) && p[0] == root && p[|p| - 1] == x;
      PathStaysInside(defs, s, p);
    }
  }

  /** Every name that occurs: the defined ones and the ones referred to. */
  ghost function Universe(defs: Definitions): set<string> {
    defs.Keys + set k, n | k in defs.Keys && n in Refs(DEFINITIONS, defs[k]) :: n
  }

  // ------------------------------------------------------------------ the script

  datatype Output = Output(ref: string, defs: Definitions)

  class Extractor {
    const definitions: Definitions
    var needed: set<string>

    constructor (definitions: Definitions)
      ensures this.definitions == definitions && needed == {}
    {
      this.definitions := definitions;
      needed := {};
    }

    /** `collect`. It terminates on cyclic definitions because each call that does not return at once
        uses up a name. What it adds is reachable from `name`, and the references of what it
        adds are all in the set when it returns. */
    method Collect(name: string, ghost universe: set<string>)
      requires name in universe && Universe(definitions) <= universe
      modifies this
      ensures old(needed) <= needed && name in needed && needed <= old(needed) + universe
      ensures forall x :: x in needed - old(needed) ==> Reaches(definitions, name, x)
      ensures forall x, y :: x in needed - old(needed) && y in Successors(definitions, x) ==> y in needed
      decreases universe - needed
    {
      if name in needed {
        return;
      }
      needed := needed + {name};
      ReachesItself(definitions, name);
      if name !in definitions {
        return;
      }
      var refs := Refs(DEFINITIONS, definitions[name]);
      for i := 0 to |refs|
        invariant old(needed) + {name} <= needed <= old(needed) + universe
        invariant forall j :: 0 <= j < i ==> refs[j] in needed
        invariant forall x :: x in needed - old(needed) ==> Reaches(definitions, name, x)
        invariant forall x, y :: x in needed - old(needed) && x != name && y in Successors(definitions, x) ==>
                    y in needed
      {
        ghost var before := needed;
        assert refs[i] in Successors(definitions, name) && refs[i] in Universe(definitions);
        Collect(refs[i], universe);
        forall x | x in needed - before
          ensures Reaches(definitions, name, x)
        {
          ReachesThrough(definitions, name, refs[i], x);
        }
      }
    }

    /** The loop that fills `defs`, in any order. It throws when a needed name has no definition. */
    method Emit() returns (out: Option<Definitions>)
      ensures out.Some? <==> needed <= definitions.Keys
      ensures out.Some? ==> out.value == Emitted(definitions, needed)
    {
      var defs: Definitions := map[];
      var rest := needed;
      while rest != {}
        invariant rest <= needed && needed - rest <= definitions.Keys
        invariant defs == Emitted(definitions, needed - rest)
        decreases rest
      {
        var name :| name in rest;
        if name !in definitions {
          return None;
        }
        assert needed - (rest - {name}) == (needed - rest) + {name};
        defs := defs[name := Rewrite(definitions[name])];
        rest := rest - {name};
      }
      assert needed - rest == needed;
      return Some(defs);
    }

    /** The whole script, from an empty set on: it needs exactly the names reachable from the root, which
        is the least closed set containing it, and writes nothing if one of them is undefined. The reference it
        puts at the top leads to the root definition. */
    method Generate(root: string) returns (out: Option<Output>)
      requires needed == {}
      modifies this
      ensures forall x :: x in needed <==> Reaches(definitions, root, x)
      ensures forall other: set<string> :: root in other && Closed(definitions, other) ==> needed <= other
      ensures Closed(definitions, needed)
      ensures out.Some? <==> needed <= definitions.Keys
      ensures out.Some? ==> out.value == Output(DEFS + root, Emitted(definitions, needed))
      ensures out.Some? && '/' !in root ==>
                && root in definitions
                && Target(map["$defs" := out.value.defs], out.value.ref) == Some(Rewrite(definitions[root]))
    {
      Collect(root, Universe(definitions) + {root});
      ClosedReachableIsLeast(definitions, root, needed);
      var defs := Emit();
      if defs.Some? && '/' !in root {
        ReferencesArePointers(defs.value, root);
      }
      return if defs.Some? then Some(Output(DEFS + root, defs.value)) else None;
    }
  }

  function Emitted(defs: Definitions, names: set<string>): Definitions {
    map n | n in names && n in defs :: Rewrite(defs[n])
  }

  // ------------------------------------------------------------------ references as pointers

  /** The member of a document that a pointer by sections 3 and 6 of RFC 6901 leads to, where `members` are the
      document's members that hold definitions. The pointer's escapes are not modelled. */
  function Target(members: map<string, Definitions>, pointer: string): Option<Json> {
    var path := Split(pointer);
    if |path| == 3 && path[0] == "#" && path[1] in members && path[2] in members[path[1]]
    then Some(members[path[1]][path[2]])
    else None
  }

  /** The script reads and writes references that really are pointers to definitions: one under the first prefix
      leads to the definition of that name in the member `definitions` of the Swagger document, and one under
      the second to that in the member `$defs` of the output. */
  lemma ReferencesArePointers(defs: Definitions, name: string)
    requires '/' !in name
    ensures var found := if name in defs then Some(defs[name]) else None;
            && Target(map["definitions" := defs], DEFINITIONS + name) == found
            && Target(map["$defs" := defs], DEFS + name) == found
  {
    PointerPath("definitions", name);
    PointerPath("$defs", name);
    assert DEFINITIONS + name == "#" + "/" + "definitions" + "/" + name;
    assert DEFS + name == "#" + "/" + "$defs" + "/" + name;
  }

  lemma PointerPath(member: string, name: string)
    requires '/' !in member && '/' !in name
    ensures Split("#" + "/" + member + "/" + name) == ["#", member, name]
  {
    SplitSegment("#");
    SplitAppend("#", member);
    SplitAppend("#" + "/" + member, name);
  }

  // ------------------------------------------------------------------ meaning

  /** A document whose references are read under a prefix. */
  datatype Document = Document(defs: Definitions, prefix: string)

  /** Two trees look the same to a reader who follows at most `n` references in a row. */
  ghost predicate Same(n: nat, a: Document, x: Json, b: Document, y: Json)
    decreases n, x
  {
    match (x, y)
    case (Arr(u), Arr(v)) => SameItems(n, a, u, b, v)
    case (Obj(u), Obj(v)) => SameMembers(n, a, u, b, v)
    case _ => x == y && !x.Arr? && !x.Obj?
  }

  ghost predicate SameItems(n: nat, a: Document, x: Items, b: Document, y: Items)
    decreases n, x
  {
    match (x, y)
    case (Item(u, x'), Item(v, y')) => Same(n, a, u, b, v) && SameItems(n, a, x', b, y')
    case _ => x == y == NoItems
  }

  ghost predicate SameMembers(n: nat, a: Document, x: Members, b: Document, y: Members)
    decreases n, x
  {
    match (x, y)
    case (Member(k, u, x'), Member(l, v, y')) =>
      var p, q := RefName(a.prefix, k, u), RefName(b.prefix, l, v);
      && k == l
      && (if p.None? then q.None? && Same(n, a, u, b, v)
          else q.Some? && (n > 0 ==>
            if p.value in a.defs then q.value in b.defs && Same(n - 1, a, a.defs[p.value], b, b.defs[q.value])
            else q.value !in b.defs))
      && SameMembers(n, a, x', b, y')
    case _ => x == y == NoMembers
  }

  /** The only strings with a reference prefix are the values of well-formed `$ref` members under
      `#/definitions/`: nothing else imitates a reference, before or after the rewrite. */
  predicate Clean(j: Json) {
    match j
    case Lit(_) => true
    case Str(s) => !(DEFINITIONS <= s)
    case Arr(items) => CleanItems(items)
    case Obj(members) => CleanMembers(members)
  }

  predicate CleanItems(items: Items) {
    match items
    case NoItems => true
    case Item(j, others) => Clean(j) && CleanItems(others)
  }

  predicate CleanMembers(members: Members) {
    match members
    case NoMembers => true
    case Member(k, v, others) =>
      && !(DEFINITIONS <= k)
      && (RefName(DEFINITIONS, k, v).Some? || (RefName(DEFS, k, v).None? && Clean(v)))
      && CleanMembers(others)
  }

  /** Rewriting turns a reference into the same reference under the new prefix, keeps a reference
      that already has the new prefix, and makes no other reference. */
  lemma RewriteRef(k: string, v: Json)
    ensures RefName(DEFS, RewriteString(k), Rewrite(v)) ==
            if RefName(DEFINITIONS, k, v).Some? then RefName(DEFINITIONS, k, v) else RefName(DEFS, k, v)
    ensures RefName(DEFINITIONS, k, v).None? || RefName(DEFS, k, v).None?
  {
    assert (RewriteString(k) == "$ref") == (k == "$ref") by {
      if DEFINITIONS <= k {
        assert RewriteString(k)[0] == '#';
      }
    }
    if v.Str? && DEFINITIONS <= v.s {
      var s := RewriteString(v.s);
      assert s == DEFS + v.s[|DEFINITIONS|..];
      assert s[|DEFS|..] == v.s[|DEFINITIONS|..];
      assert v.s[2] == 'd' && DEFS[2] == '$';
    }
  }

  /** The emitted references are the original ones and those that already had the new prefix. */
  lemma {:induction false} EmittedRefs(j: Json, y: string)
    ensures y in Refs(DEFS, Rewrite(j)) <==> y in Refs(DEFINITIONS, j) || y in Refs(DEFS, j)
  {
    match j
    case Lit(_) =>
    case Str(_) =>
    case Arr(items) => EmittedItemRefs(items, y);
    case Obj(members) => EmittedMemberRefs(members, y);
  }

  lemma {:induction false} EmittedItemRefs(items: Items, y: string)
    ensures y in ItemRefs(DEFS, RewriteItems(items)) <==>
            y in ItemRefs(DEFINITIONS, items) || y in ItemRefs(DEFS, items)
  {
    match items
    case NoItems =>
    case Item(j, others) =>
      EmittedRefs(j, y);
      EmittedItemRefs(others, y);
  }

  lemma {:induction false} EmittedMemberRefs(members: Members, y: string)
    ensures y in MemberRefs(DEFS, RewriteMembers(members)) <==>
            y in MemberRefs(DEFINITIONS, members) || y in MemberRefs(DEFS, members)
  {
    match members
    case NoMembers =>
    case Member(k, v, others) =>
      RewriteRef(k, v);
      EmittedMemberRefs(others, y);
      EmittedRefs(v, y);
  }

  ghost predicate AllClean(defs: Definitions, names: set<string>) {
    forall x :: x in names && x in defs ==> Clean(defs[x])
  }

  /** Every emitted reference resolves inside the output. */
  ghost predicate SelfContained(defs: Definitions) {
    forall x, y :: x in defs && y in Refs(DEFS, defs[x]) ==> y in defs
  }

  /** The output is self-contained if and only if every reference of a needed definition that already
      had the new prefix names a needed definition; without such references it always is. */
  lemma OutputIsSelfContainedIff(defs: Definitions, names: set<string>)
    requires names <= defs.Keys && Closed(defs, names)
    ensures SelfContained(Emitted(defs, names)) <==>
            forall x, y :: x in names && y in Refs(DEFS, defs[x]) ==> y in names
  {
    var out := Emitted(defs, names);
    forall x, y | x in names
      ensures y in Refs(DEFS, out[x]) <==> y in Successors(defs, x) || y in Refs(DEFS, defs[x])
    {
      EmittedRefs(defs[x], y);
    }
    if SelfContained(out) {
      forall x, y | x in names && y in Refs(DEFS, defs[x]) ensures y in names {
        assert x in out && y in Refs(DEFS, out[x]) && y in out;
      }
    }
  }

  ghost function Before(defs: Definitions): Document {
    Document(defs, DEFINITIONS)
  }

  ghost function After(defs: Definitions, names: set<string>): Document {
    Document(Emitted(defs, names), DEFS)
  }

  lemma {:induction false} CleanTreesKeepMeaning(n: nat, defs: Definitions, names: set<string>, j: Json)
    requires names <= defs.Keys && Closed(defs, names) && AllClean(defs, names)
    requires Clean(j) && forall y :: y in Refs(DEFINITIONS, j) ==> y in names
    ensures Same(n, Before(defs), j, After(defs, names), Rewrite(j))
    decreases n, j
  {
    match j
    case Lit(_) =>
    case Str(_) =>
    case Arr(items) => CleanItemsKeepMeaning(n, defs, names, items);
    case Obj(members) => CleanMembersKeepMeaning(n, defs, names, members);
  }

  lemma {:induction false} CleanItemsKeepMeaning(n: nat, defs: Definitions, names: set<string>, items: Items)
    requires names <= defs.Keys && Closed(defs, names) && AllClean(defs, names)
    requires CleanItems(items) && forall y :: y in ItemRefs(DEFINITIONS, items) ==> y in names
    ensures SameItems(n, Before(defs), items, After(defs, names), RewriteItems(items))
    decreases n, items
  {
    match items
    case NoItems =>
    case Item(j, others) =>
      CleanTreesKeepMeaning(n, defs, names, j);
      CleanItemsKeepMeaning(n, defs, names, others);
  }

  lemma {:induction false} CleanMembersKeepMeaning(n: nat, defs: Definitions, names: set<string>, members: Members)
    requires names <= defs.Keys && Closed(defs, names) && AllClean(defs, names)
    requires CleanMembers(members) && forall y :: y in MemberRefs(DEFINITIONS, members) ==> y in names
    ensures SameMembers(n, Before(defs), members, After(defs, names), RewriteMembers(members))
    decreases n, members
  {
    match members
    case NoMembers =>
    case Member(k, v, others) =>
      RewriteRef(k, v);
      CleanMembersKeepMeaning(n, defs, names, others);
      var name := RefName(DEFINITIONS, k, v);
      if name.None? {
        CleanTreesKeepMeaning(n, defs, names, v);
      } else if n > 0 {
        assert name.value in MemberRefs(DEFINITIONS, members);
        forall y | y in Refs(DEFINITIONS, defs[name.value]) ensures y in names {
          assert y in Successors(defs, name.value);
        }
        CleanTreesKeepMeaning(n - 1, defs, names, defs[name.value]);
      }
  }

  lemma {:induction false} SameImpliesClean(a: Document, b: Document, j: Json)
    requires a.prefix == DEFINITIONS && b.prefix == DEFS && Same(0, a, j, b, Rewrite(j))
    ensures Clean(j)
  {
    match j
    case Lit(_) =>
    case Str(s) =>
      if DEFINITIONS <= s {
        RewriteChanges(s);
      }
    case Arr(items) => SameItemsImpliesClean(a, b, items);
    case Obj(members) => SameMembersImpliesClean(a, b, members);
  }

  lemma {:induction false} SameItemsImpliesClean(a: Document, b: Document, items: Items)
    requires a.prefix == DEFINITIONS && b.prefix == DEFS && SameItems(0, a, items, b, RewriteItems(items))
    ensures CleanItems(items)
  {
    match items
    case NoItems =>
    case Item(j, others) =>
      SameImpliesClean(a, b, j);
      SameItemsImpliesClean(a, b, others);
  }

  lemma {:induction false} SameMembersImpliesClean(a: Document, b: Document, members: Members)
    requires a.prefix == DEFINITIONS && b.prefix == DEFS && SameMembers(0, a, members, b, RewriteMembers(members))
    ensures CleanMembers(members)
  {
    match members
    case NoMembers =>
    case Member(k, v, others) =>
      if DEFINITIONS <= k {
        RewriteChanges(k);
      }
      SameMembersImpliesClean(a, b, others);
      if RefName(DEFINITIONS, k, v).None? {
        SameImpliesClean(a, b, v);
        RewriteRef(k, v);
      }
  }

  lemma RewriteChanges(s: string)
    requires DEFINITIONS <= s
    ensures RewriteString(s) != s
  {
    assert RewriteString(s)[2] == '$' && s[2] == 'd';
  }

  /** Every emitted definition looks the same as the original, however deep references are followed. */
  ghost predicate MeaningKept(defs: Definitions, names: set<string>)
    requires names <= defs.Keys
  {
    forall n: nat, x :: x in names ==> Same(n, Before(defs), defs[x], After(defs, names), Emitted(defs, names)[x])
  }

  /** The rewrite preserves meaning exactly when no needed definition contains a string that imitates
      a reference: then, and only then, every emitted definition looks the same as the
      original one however deep its references are followed. */
  lemma MeaningPreservedIffClean(defs: Definitions, names: set<string>)
    requires names <= defs.Keys && Closed(defs, names)
    ensures AllClean(defs, names) <==> MeaningKept(defs, names)
  {
    if AllClean(defs, names) {
      forall n: nat, x | x in names
        ensures Same(n, Before(defs), defs[x], After(defs, names), Emitted(defs, names)[x])
      {
        forall y | y in Refs(DEFINITIONS, defs[x]) ensures y in names {
          assert y in Successors(defs, x);
        }
        CleanTreesKeepMeaning(n, defs, names, defs[x]);
      }
    }
    if MeaningKept(defs, names) {
      forall x | x in names ensures Clean(defs[x]) {
        assert Same(0, Before(defs), defs[x], After(defs, names), Emitted(defs, names)[x]);
        SameImpliesClean(Before(defs), After(defs, names), defs[x]);
      }
    }
  }

  /** An input where meaning is lost: a description that happens to start like a reference. */
  lemma ImitationLosesMeaning() returns (defs: Definitions, names: set<string>)
    ensures names <= defs.Keys && Closed(defs, names) && !MeaningKept(defs, names)
  {
    var text := Str("#/definitions/ lists the types");
    var members := Member("type", Str("object"), Member("description", text, NoMembers));
    defs, names := map["a" := Obj(members)], {"a"};
    assert RefName(DEFINITIONS, "description", text).None? && !Clean(text);
    assert !CleanMembers(members.others);
    assert MemberRefs(DEFINITIONS, members) == [] by {
      assert MemberRefs(DEFINITIONS, members.others) == [];
    }
    MeaningPreservedIffClean(defs, names);
  }
}
