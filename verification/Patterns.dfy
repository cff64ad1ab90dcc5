/** The CRD's validation patterns, read as regular expressions, against the rules their documentation
    states (workspaces/controller/api/v1beta1/workspacekind_types.go). */
module Patterns {

  datatype Regex =
    | Empty
    | Class(accepts: char -> bool)
    | Cat(first: Regex, second: Regex)
    | Alt(left: Regex, right: Regex)
    | Star(body: Regex)

  /** `r` matches the whole of `s`. */
  ghost predicate Matches(r: Regex, s: string)
    decreases r, |s|
  {
    match r
    case Empty => s == []
    case Class(accepts) => |s| == 1 && accepts(s[0])
    case Cat(a, b) => exists k :: 0 <= k <= |s| && Matches(a, s[..k]) && Matches(b, s[k..])
    case Alt(a, b) => Matches(a, s) || Matches(b, s)
    case Star(a) => s == [] || exists k :: 0 < k <= |s| && Matches(a, s[..k]) && Matches(r, s[k..])
  }

  ghost function Optional(r: Regex): Regex { Alt(Empty, r) }

  predicate Lower(c: char) { 'a' <= c <= 'z' }
  predicate Digit(c: char) { '0' <= c <= '9' }
  predicate Hyphen(c: char) { c == '-' }

  // ------------------------------------------------------------------ PortId

  ghost const HYPHEN := Optional(Class(c => Hyphen(c)))
  ghost const DIGIT_UNIT := Cat(Class(c => Digit(c)), HYPHEN)
  ghost const ALNUM_UNIT := Cat(HYPHEN, Class(c => Lower(c) || Digit(c)))

  /** `^(?:[0-9]-?)*[a-z](?:-?[a-z0-9])*$` */
  ghost const PORT_ID := Cat(Star(DIGIT_UNIT), Cat(Class(c => Lower(c)), Star(ALNUM_UNIT)))

  predicate NoAdjacentHyphens(s: string) {
    forall i :: 0 <= i < |s| - 1 && s[i] == '-' ==> s[i + 1] != '-'
  }

  /** The documented rule, which is that of section 5.1 of RFC 6335 for lower-case service names. */
  predicate ServiceName(s: string) {
    && 1 <= |s| <= 15
    && (forall i :: 0 <= i < |s| ==> Lower(s[i]) || Digit(s[i]) || Hyphen(s[i]))
    && (exists i :: 0 <= i < |s| && Lower(s[i]))
    && NoAdjacentHyphens(s)
    && s[0] != '-' && s[|s| - 1] != '-'
  }

  ghost predicate DigitPart(s: string) {
    && (forall i :: 0 <= i < |s| ==> Digit(s[i]) || Hyphen(s[i]))
    && NoAdjacentHyphens(s) && (s != [] ==> s[0] != '-')
  }

  ghost predicate AlnumPart(s: string) {
    && (forall i :: 0 <= i < |s| ==> Lower(s[i]) || Digit(s[i]) || Hyphen(s[i]))
    && NoAdjacentHyphens(s) && (s != [] ==> s[|s| - 1] != '-')
  }

  lemma HyphenMatches(s: string)
    ensures Matches(HYPHEN, s) <==> s == [] || s == ['-']
  {
  }

  lemma DigitUnitMatches(s: string)
    ensures Matches(DIGIT_UNIT, s) <==> IsDigitUnit(s)
  {
    var digit := Class(c => Digit(c));
    if Matches(DIGIT_UNIT, s) {
      var k :| 0 <= k <= |s| && Matches(digit, s[..k]) && Matches(HYPHEN, s[k..]);
      HyphenMatches(s[k..]);
    }
    if |s| > 0 && Digit(s[0]) {
      HyphenMatches(s[1..]);
      assert Matches(digit, s[..1]);
      assert s[1..] == [] || s[1..] == ['-'] ==> Matches(DIGIT_UNIT, s);
    }
  }

  lemma AlnumUnitMatches(s: string)
    ensures Matches(ALNUM_UNIT, s) <==> IsAlnumUnit(s)
  {
    var n := |s| - 1;
    var alnum := Class(c => Lower(c) || Digit(c));
    if Matches(ALNUM_UNIT, s) {
      var k :| 0 <= k <= |s| && Matches(HYPHEN, s[..k]) && Matches(alnum, s[k..]);
      HyphenMatches(s[..k]);
    }
    if |s| > 0 && (Lower(s[n]) || Digit(s[n])) {
      HyphenMatches(s[..n]);
      assert Matches(alnum, s[n..]);
      assert s[..n] == [] || s[..n] == ['-'] ==> Matches(ALNUM_UNIT, s);
    }
  }

  lemma StarElim(r: Regex, s: string) returns (k: nat)
    requires Matches(Star(r), s) && s != []
    ensures 0 < k <= |s| && Matches(r, s[..k]) && Matches(Star(r), s[k..])
  {
    k :| 0 < k <= |s| && Matches(r, s[..k]) && Matches(Star(r), s[k..]);
  }

  lemma StarIntro(r: Regex, s: string, k: nat)
    requires 0 < k <= |s| && Matches(r, s[..k]) && Matches(Star(r), s[k..])
    ensures Matches(Star(r), s)
  {
  }

  lemma CatElim(a: Regex, b: Regex, s: string) returns (k: nat)
    requires Matches(Cat(a, b), s)
    ensures k <= |s| && Matches(a, s[..k]) && Matches(b, s[k..])
  {
    k :| 0 <= k <= |s| && Matches(a, s[..k]) && Matches(b, s[k..]);
  }

  lemma CatIntro(a: Regex, b: Regex, s: string, k: nat)
    requires k <= |s| && Matches(a, s[..k]) && Matches(b, s[k..])
    ensures Matches(Cat(a, b), s)
  {
  }

  predicate IsDigitUnit(u: string) {
    |u| > 0 && Digit(u[0]) && (|u| == 1 || (|u| == 2 && u[1] == '-'))
  }

  predicate IsAlnumUnit(u: string) {
    |u| > 0 && (Lower(u[|u| - 1]) || Digit(u[|u| - 1])) && (|u| == 1 || (|u| == 2 && u[0] == '-'))
  }

  lemma DigitPartGrows(u: string, t: string)
    requires IsDigitUnit(u) && DigitPart(t)
    ensures DigitPart(u + t)
  {
    var s := u + t;
    assert forall i :: |u| <= i < |s| ==> s[i] == t[i - |u|];
  }

  lemma AlnumPartGrows(u: string, t: string)
    requires IsAlnumUnit(u) && AlnumPart(t)
    ensures AlnumPart(u + t)
  {
    var s := u + t;
    assert forall i :: |u| <= i < |s| ==> s[i] == t[i - |u|];
  }

  lemma DigitPartSplits(s: string) returns (k: nat)
    requires DigitPart(s) && s != []
    ensures k <= |s| && IsDigitUnit(s[..k]) && DigitPart(s[k..])
  {
    assert s[0] != '-' && (Digit(s[0]) || Hyphen(s[0]));
    k := if |s| > 1 && s[1] == '-' then 2 else 1;
    var t := s[k..];
    assert k < |s| ==> t[0] == s[k] != '-' by {
      if k == 2 && |s| > 2 {
        assert s[1] == '-' && s[1 + 1] != '-';
      }
    }
    assert forall i :: 0 <= i < |t| ==> t[i] == s[i + k];
  }

  lemma AlnumPartSplits(s: string) returns (k: nat)
    requires AlnumPart(s) && s != []
    ensures k <= |s| && IsAlnumUnit(s[..k]) && AlnumPart(s[k..])
  {
    k := if s[0] == '-' then 2 else 1;
    if s[0] == '-' {
      assert |s| > 1 && s[0 + 1] != '-';
    }
    var t := s[k..];
    assert forall i :: 0 <= i < |t| ==> t[i] == s[i + k];
    assert Lower(s[k - 1]) || Digit(s[k - 1]) || Hyphen(s[k - 1]);
  }

  lemma {:induction false} DigitPartMatches(s: string)
    ensures Matches(Star(DIGIT_UNIT), s) <==> DigitPart(s)
    decreases |s|
  {
    if s == [] {
    } else {
      if Matches(Star(DIGIT_UNIT), s) {
        var k := StarElim(DIGIT_UNIT, s);
        DigitUnitMatches(s[..k]);
        DigitPartMatches(s[k..]);
        DigitPartGrows(s[..k], s[k..]);
        assert s == s[..k] + s[k..];
      }
      if DigitPart(s) {
        var k := DigitPartSplits(s);
        DigitUnitMatches(s[..k]);
        DigitPartMatches(s[k..]);
        StarIntro(DIGIT_UNIT, s, k);
      }
    }
  }

  lemma {:induction false} AlnumPartMatches(s: string)
    ensures Matches(Star(ALNUM_UNIT), s) <==> AlnumPart(s)
    decreases |s|
  {
    if s == [] {
    } else {
      if Matches(Star(ALNUM_UNIT), s) {
        var k := StarElim(ALNUM_UNIT, s);
        AlnumUnitMatches(s[..k]);
        AlnumPartMatches(s[k..]);
        AlnumPartGrows(s[..k], s[k..]);
        assert s == s[..k] + s[k..];
      }
      if AlnumPart(s) {
        var k := AlnumPartSplits(s);
        AlnumUnitMatches(s[..k]);
        AlnumPartMatches(s[k..]);
        StarIntro(ALNUM_UNIT, s, k);
      }
    }
  }

  /** The pattern reads a service name around its first letter. */
  lemma PortIdSplits(s: string)
    ensures Matches(PORT_ID, s) <==>
            exists k :: 0 <= k < |s| && DigitPart(s[..k]) && Lower(s[k]) && AlnumPart(s[k + 1..])
  {
    var lower: char -> bool := c => Lower(c);
    var digits, rest := Star(DIGIT_UNIT), Star(ALNUM_UNIT);
    if Matches(PORT_ID, s) {
      var k := CatElim(digits, Cat(Class(lower), rest), s);
      ClassThen(lower, rest, s[k..]);
      DigitPartMatches(s[..k]);
      assert s[k..][1..] == s[k + 1..];
      AlnumPartMatches(s[k + 1..]);
    }
    if k :| 0 <= k < |s| && DigitPart(s[..k]) && Lower(s[k]) && AlnumPart(s[k + 1..]) {
      DigitPartMatches(s[..k]);
      AlnumPartMatches(s[k + 1..]);
      assert s[k..][1..] == s[k + 1..];
      ClassThen(lower, rest, s[k..]);
      CatIntro(digits, Cat(Class(lower), rest), s, k);
    }
  }

  /** The PortId pattern with its length limits accepts exactly the documented names. */
  lemma PortIdIsServiceName(s: string)
    ensures 1 <= |s| <= 15 && Matches(PORT_ID, s) <==> ServiceName(s)
  {
    PortIdSplits(s);
    if 1 <= |s| <= 15 && Matches(PORT_ID, s) {
      var k :| 0 <= k < |s| && DigitPart(s[..k]) && Lower(s[k]) && AlnumPart(s[k + 1..]);
      SplitIsServiceName(s, k);
    }
    if ServiceName(s) {
      var k := FirstLetter(s, 0);
      ServiceNameSplits(s, k);
    }
  }

  lemma {:induction false} FirstLetter(s: string, from: nat) returns (k: nat)
    requires exists i :: from <= i < |s| && Lower(s[i])
    requires forall i :: 0 <= i < from ==> !Lower(s[i])
    ensures k < |s| && Lower(s[k]) && forall i :: 0 <= i < k ==> !Lower(s[i])
    decreases |s| - from
  {
    if Lower(s[from]) {
      k := from;
    } else {
      k := FirstLetter(s, from + 1);
    }
  }

  lemma ServiceNameSplits(s: string, k: nat)
    requires ServiceName(s) && k < |s| && Lower(s[k]) && forall i :: 0 <= i < k ==> !Lower(s[i])
    ensures DigitPart(s[..k]) && AlnumPart(s[k + 1..])
  {
    var a, b := s[..k], s[k + 1..];
    assert forall i :: 0 <= i < k ==> a[i] == s[i];
    assert forall i :: 0 <= i < |b| ==> b[i] == s[i + k + 1];
  }

  lemma SplitIsServiceName(s: string, k: nat)
    requires k < |s| <= 15 && DigitPart(s[..k]) && Lower(s[k]) && AlnumPart(s[k + 1..])
    ensures ServiceName(s)
  {
    var a, b := s[..k], s[k + 1..];
    assert forall i :: 0 <= i < k ==> s[i] == a[i];
    assert forall i :: k < i < |s| ==> s[i] == b[i - k - 1];
  }

  // ------------------------------------------------------------------ ClusterRole names

  ghost const ANY := Class(c => c != '/' && c != '%')
  ghost const NOT_DOT := Class(c => c != '.' && c != '/' && c != '%')
  ghost const DOT := Class(c => c == '.')

  /** `^([^./%][^/%]*|\.[^./%][^/%]*|\.[^/%][^/%]+)$` */
  ghost const CLUSTER_ROLE :=
    Alt(Cat(NOT_DOT, Star(ANY)),
        Alt(Cat(DOT, Cat(NOT_DOT, Star(ANY))), Cat(DOT, Cat(ANY, Cat(ANY, Star(ANY))))))

  /** A path segment name: not "." or "..", and without "/" and "%". */
  predicate PathSegmentName(s: string) {
    s != "." && s != ".." && '/' !in s && '%' !in s
  }

  ghost predicate AllAccepted(s: string) {
    forall i :: 0 <= i < |s| ==> s[i] != '/' && s[i] != '%'
  }

  lemma {:induction false} StarAnyMatches(s: string)
    ensures Matches(Star(ANY), s) <==> AllAccepted(s)
    decreases |s|
  {
    if s != [] {
      StarAnyMatches(s[1..]);
      assert s[..1] == [s[0]];
      if Matches(Star(ANY), s) {
        var k :| 0 < k <= |s| && Matches(ANY, s[..k]) && Matches(Star(ANY), s[k..]);
        assert k == 1;
        assert forall i :: 1 <= i < |s| ==> s[i] == s[1..][i - 1];
      }
      if AllAccepted(s) {
        assert Matches(ANY, s[..1]);
      }
    }
  }

  /** A class followed by anything consumes exactly one character. */
  lemma ClassThen(accepts: char -> bool, r: Regex, s: string)
    ensures Matches(Cat(Class(accepts), r), s) <==> |s| > 0 && accepts(s[0]) && Matches(r, s[1..])
  {
    if Matches(Cat(Class(accepts), r), s) {
      var k :| 0 <= k <= |s| && Matches(Class(accepts), s[..k]) && Matches(r, s[k..]);
      assert k == 1;
    }
    if |s| > 0 && accepts(s[0]) && Matches(r, s[1..]) {
      assert Matches(Class(accepts), s[..1]);
    }
  }

  lemma AcceptedHead(s: string)
    requires s != []
    ensures AllAccepted(s) <==> s[0] != '/' && s[0] != '%' && AllAccepted(s[1..])
  {
    assert forall i :: 1 <= i < |s| ==> s[i] == s[1..][i - 1];
  }

  /** The three alternatives of the pattern. */
  lemma PlainAlternative(s: string)
    ensures Matches(Cat(NOT_DOT, Star(ANY)), s) <==> s != [] && s[0] != '.' && AllAccepted(s)
  {
    ClassThen(NOT_DOT.accepts, Star(ANY), s);
    if s != [] {
      StarAnyMatches(s[1..]);
      AcceptedHead(s);
    }
  }

  lemma DotAlternative(s: string)
    ensures Matches(Cat(DOT, Cat(NOT_DOT, Star(ANY))), s) <==> |s| >= 2 && s[0] == '.' && s[1] != '.' && AllAccepted(s)
  {
    ClassThen(DOT.accepts, Cat(NOT_DOT, Star(ANY)), s);
    if s != [] {
      PlainAlternative(s[1..]);
      AcceptedHead(s);
    }
  }

  lemma AnyThenMore(s: string)
    ensures Matches(Cat(ANY, Cat(ANY, Star(ANY))), s) <==> |s| >= 2 && AllAccepted(s)
  {
    ClassThen(ANY.accepts, Cat(ANY, Star(ANY)), s);
    if s != [] {
      var t := s[1..];
      AcceptedHead(s);
      ClassThen(ANY.accepts, Star(ANY), t);
      if t != [] {
        AcceptedHead(t);
        StarAnyMatches(t[1..]);
      }
    }
  }

  lemma LongDotAlternative(s: string)
    ensures Matches(Cat(DOT, Cat(ANY, Cat(ANY, Star(ANY)))), s) <==> |s| >= 3 && s[0] == '.' && AllAccepted(s)
  {
    ClassThen(DOT.accepts, Cat(ANY, Cat(ANY, Star(ANY))), s);
    if s != [] {
      AnyThenMore(s[1..]);
      AcceptedHead(s);
    }
  }

  /** The ClusterRole pattern accepts exactly the documented names, the empty string excepted. */
  lemma ClusterRoleIsPathSegmentName(s: string)
    ensures Matches(CLUSTER_ROLE, s) <==> s != "" && PathSegmentName(s)
  {
    PlainAlternative(s);
    DotAlternative(s);
    LongDotAlternative(s);
    var short, long := Cat(DOT, Cat(NOT_DOT, Star(ANY))), Cat(DOT, Cat(ANY, Cat(ANY, Star(ANY))));
    assert Matches(CLUSTER_ROLE, s) <==> Matches(Cat(NOT_DOT, Star(ANY)), s) || Matches(Alt(short, long), s);
    assert s == "." <==> |s| == 1 && s[0] == '.';
    assert s == ".." <==> |s| == 2 && s[0] == '.' && s[1] == '.';
  }
}
