/** The process-wide cache of compiled selectors used by activity rules
    (`selectorMatches` in workspaces/controller/internal/helper/activity.go). */
module SelectorCache {
  import opened Prelude
  import opened Labels
  import opened ActivityRules

  type Cache = map<string, Result<Selector, ()>>

  function VerdictOf(compiled: Result<Selector, ()>, labels: LabelSet): Verdict {
    match compiled
    case Err(_) => Broken
    case Ok(sel) => if SelectorMatches(sel, labels) then Holds else Fails
  }

  /** Equal keys mean the same thing: the assumption under which sharing an entry is right. */
  ghost predicate Faithful(format: LabelSelector -> string) {
    forall s, t, labels :: format(s) == format(t) ==> SelectorVerdict(s, labels) == SelectorVerdict(t, labels)
  }

  /** Every entry was stored for a selector with its key. */
  ghost predicate Honest(format: LabelSelector -> string, cache: Cache) {
    forall key :: key in cache ==> exists s :: format(s) == key && cache[key] == Compile(s)
  }

  function Store(format: LabelSelector -> string, cache: Cache, s: LabelSelector): Cache {
    if format(s) in cache then cache else cache[format(s) := Compile(s)]
  }

  /** The cache after a sequence of lookups. */
  function CacheAfter(format: LabelSelector -> string, calls: seq<LabelSelector>): Cache {
    if calls == [] then map[]
    else Store(format, CacheAfter(format, calls[..|calls| - 1]), calls[|calls| - 1])
  }

  /** `selectorMatches` with `format` as the key function. */
  class CachedSelectors {
    const format: LabelSelector -> string
    var cache: Cache

    constructor (format: LabelSelector -> string)
      ensures this.format == format && cache == map[]
    {
      this.format := format;
      cache := map[];
    }

    method Lookup(s: LabelSelector, labels: LabelSet) returns (v: Verdict)
      requires Honest(format, cache)
      modifies `cache
      ensures cache == Store(format, old(cache), s) && Honest(format, cache)
      ensures v == VerdictOf(cache[format(s)], labels)
      ensures Faithful(format) ==> v == SelectorVerdict(s, labels)
    {
      var key := format(s);
      var compiled;
      if key in cache {
        compiled := cache[key];
      } else {
        compiled := Compile(s);
        cache := cache[key := compiled];
      }
      v := VerdictOf(compiled, labels);
      if Faithful(format) {
        ghost var t :| format(t) == key && cache[key] == Compile(t);
        assert v == SelectorVerdict(t, labels);
      }
    }
  }

  lemma {:induction false} AfterIsHonest(format: LabelSelector -> string, calls: seq<LabelSelector>)
    ensures Honest(format, CacheAfter(format, calls))
  {
    if calls != [] {
      AfterIsHonest(format, calls[..|calls| - 1]);
    }
  }

  /** After any earlier lookups every lookup answers as if nothing were cached. */
  ghost predicate Transparent(format: LabelSelector -> string) {
    forall calls: seq<LabelSelector>, s, labels ::
      VerdictOf(Store(format, CacheAfter(format, calls), s)[format(s)], labels) == SelectorVerdict(s, labels)
  }

  /** The cache is invisible over every history of lookups exactly when its keys are faithful. Whether the
      keys in use are (`metav1.FormatLabelSelector`, a library function outside the repository) is left
      open: this says what has to be true of them. */
  lemma TransparentIffFaithful(format: LabelSelector -> string)
    ensures Transparent(format) <==> Faithful(format)
  {
    if Faithful(format) {
      forall calls: seq<LabelSelector>, s, labels
        ensures VerdictOf(Store(format, CacheAfter(format, calls), s)[format(s)], labels) == SelectorVerdict(s, labels)
      {
        AfterIsHonest(format, calls + [s]);
        assert (calls + [s])[..|calls|] == calls;
        var cache := CacheAfter(format, calls + [s]);
        var t :| format(t) == format(s) && cache[format(s)] == Compile(t);
        assert SelectorVerdict(t, labels) == SelectorVerdict(s, labels);
      }
    }
    if Transparent(format) {
      forall s, t, labels | format(s) == format(t)
        ensures SelectorVerdict(s, labels) == SelectorVerdict(t, labels)
      {
        var empty, cache := CacheAfter(format, []), CacheAfter(format, [s]);
        assert [s][..0] == [] && empty == map[];
        assert cache == Store(format, empty, s) == map[format(s) := Compile(s)];
        assert Store(format, cache, t) == cache;
      }
    }
  }
}
