/** Capability strings, `component:action` or `component:action@scope`. */
module Cap {
  import opened Base

  const COLON: byte := ':' as int

  const AT: byte := '@' as int

  datatype Cap = Cap(component: Bytes, action: Bytes, scope: Option<Bytes>) {
    /** The same component and action; a scope, if the grant has one, must be
        the one asked for. */
    predicate Satisfies(needed: Cap) {
      && component == needed.component
      && action == needed.action
      && (scope.None? || scope == needed.scope)
    }

    predicate Clean() {
      && CleanPart(component)
      && CleanPart(action)
      && (scope.Some? ==> CleanPart(scope.value))
    }

    /** The string this capability is written as. */
    function Text(): Bytes {
      component + [COLON] + action + if scope.Some? then [AT] + scope.value else []
    }
  }

  predicate CleanPart(p: Bytes) {
    p != [] && COLON !in p && AT !in p
  }

  /** The parts before and after the first `sep`. */
  function SplitOnce(s: Bytes, sep: byte): (r: Option<(Bytes, Bytes)>)
    ensures r.Some? <==> sep in s
    ensures r.Some? ==> s == r.value.0 + [sep] + r.value.1 && sep !in r.value.0
  {
    if s == [] then None
    else if s[0] == sep then Some(([], s[1..]))
    else
      match SplitOnce(s[1..], sep)
      case None => None
      case Some((a, b)) =>
        assert s == [s[0]] + s[1..];
        assert [s[0]] + (a + [sep] + b) == ([s[0]] + a) + [sep] + b;
        Some(([s[0]] + a, b))
  }

  lemma SplitOnceUnique(s: Bytes, sep: byte, a: Bytes, b: Bytes)
    requires s == a + [sep] + b && sep !in a
    ensures SplitOnce(s, sep) == Some((a, b))
  {
    assert s[|a|] == sep;
    var (x, y) := SplitOnce(s, sep).value;
    assert s == x + [sep] + y;
    assert s[|x|] == sep;
    assert forall i :: 0 <= i < |a| ==> s[i] == a[i] && a[i] in a;
    assert forall i :: 0 <= i < |x| ==> s[i] == x[i] && x[i] in x;
    assert x == s[..|a|] == a && y == s[|a| + 1..] == b;
  }

  function Parse(s: Bytes): (c: Option<Cap>) {
    match SplitOnce(s, COLON)
    case None => None
    case Some((component, rest)) =>
      var (action, scope) :=
        match SplitOnce(rest, AT)
        case Some((a, sc)) => (a, Some(sc))
        case None => (rest, None);
      var c := Cap(component, action, scope);
      if c.Clean() then Some(c) else None
  }

  /** A string parses as exactly the clean capability it is the text of. */
  lemma ParseIsTextInverse(s: Bytes, c: Cap)
    ensures Parse(s) == Some(c) <==> c.Clean() && s == c.Text()
  {
    if c.Clean() && s == c.Text() {
      var rest := c.action + if c.scope.Some? then [AT] + c.scope.value else [];
      assert s == c.component + [COLON] + rest;
      SplitOnceUnique(s, COLON, c.component, rest);
      if c.scope.Some? {
        assert rest == c.action + [AT] + c.scope.value;
        SplitOnceUnique(rest, AT, c.action, c.scope.value);
      } else {
        assert rest == c.action;
      }
    }
    if Parse(s) == Some(c) {
      var (component, rest) := SplitOnce(s, COLON).value;
      assert s == component + [COLON] + rest;
      if c.scope.Some? {
        assert rest == c.action + [AT] + c.scope.value;
      }
      assert s == c.Text();
    }
  }

  predicate OnlyAt(s: Bytes, sep: byte, i: nat) {
    i < |s| && s[i] == sep && forall k :: 0 <= k < |s| && k != i ==> s[k] != sep
  }

  /** Which strings are capabilities, said of their characters: one colon with
      something on either side, and at most one at sign, which follows the
      action and is followed by the scope. */
  predicate WellSpelled(s: Bytes) {
    exists i: nat :: OnlyAt(s, 0x3A, i) && 0 < i < |s| - 1
      && (0x40 !in s || exists j: nat :: OnlyAt(s, 0x40, j) && i + 1 < j < |s| - 1)
  }

  lemma ParsesWhatIsSpelled(s: Bytes)
    ensures Parse(s).Some? <==> WellSpelled(s)
  {
    if Parse(s).Some? {
      ParsedIsSpelled(s, Parse(s).value);
    }
    if WellSpelled(s) {
      SpelledParses(s);
    }
  }

  lemma ParsedIsSpelled(s: Bytes, c: Cap)
    requires Parse(s) == Some(c)
    ensures WellSpelled(s)
  {
    ParseIsTextInverse(s, c);
    var i := |c.component|;
    if c.scope.Some? {
      var j := i + 1 + |c.action|;
      assert s == c.component + [COLON] + c.action + [AT] + c.scope.value;
      forall k | 0 <= k < |s|
        ensures s[k] == COLON <==> k == i
        ensures s[k] == AT <==> k == j
      {
        if k < i {
          assert s[k] == c.component[k];
        } else if i < k < j {
          assert s[k] == c.action[k - i - 1];
        } else if k > j {
          assert s[k] == c.scope.value[k - j - 1];
        }
      }
      assert OnlyAt(s, 0x3A, i) && OnlyAt(s, 0x40, j);
    } else {
      assert s == c.component + [COLON] + c.action;
      forall k | 0 <= k < |s|
        ensures s[k] == COLON <==> k == i
        ensures s[k] != AT
      {
        if k < i {
          assert s[k] == c.component[k];
        } else if i < k {
          assert s[k] == c.action[k - i - 1];
        }
      }
      assert OnlyAt(s, 0x3A, i);
    }
  }

  /** A part without the separators is clean when it is not empty. */
  lemma PartIsClean(s: Bytes, from: nat, to: nat)
    requires from < to <= |s| && forall k :: from <= k < to ==> s[k] != COLON && s[k] != AT
    ensures CleanPart(s[from..to])
  {
  }

  lemma SpelledParses(s: Bytes)
    requires WellSpelled(s)
    ensures Parse(s).Some?
  {
    hide Parse;
    var i: nat :| OnlyAt(s, 0x3A, i) && 0 < i < |s| - 1
      && (0x40 !in s || exists j: nat :: OnlyAt(s, 0x40, j) && i + 1 < j < |s| - 1);
    if 0x40 in s {
      var j: nat :| OnlyAt(s, 0x40, j) && i + 1 < j < |s| - 1;
      ScopedParses(s, i, j);
    } else {
      UnscopedParses(s, i);
    }
  }

  lemma ScopedParses(s: Bytes, i: nat, j: nat)
    requires OnlyAt(s, COLON, i) && OnlyAt(s, AT, j) && 0 < i && i + 1 < j < |s| - 1
    ensures Parse(s).Some?
  {
    hide Parse, CleanPart;
    PartIsClean(s, 0, i);
    PartIsClean(s, i + 1, j);
    PartIsClean(s, j + 1, |s|);
    var c := Cap(s[0..i], s[i + 1..j], Some(s[j + 1..|s|]));
    assert s == c.Text();
    ParseIsTextInverse(s, c);
  }

  lemma UnscopedParses(s: Bytes, i: nat)
    requires OnlyAt(s, COLON, i) && AT !in s && 0 < i < |s| - 1
    ensures Parse(s).Some?
  {
    hide Parse, CleanPart;
    PartIsClean(s, 0, i);
    PartIsClean(s, i + 1, |s|);
    var c := Cap(s[0..i], s[i + 1..|s|], None);
    assert s == c.Text();
    ParseIsTextInverse(s, c);
  }

  predicate GrantSatisfies(grant: Bytes, needed: Bytes) {
    match (Parse(grant), Parse(needed))
    case (Some(g), Some(n)) => g.Satisfies(n)
    case _ => false
  }

  /** Does any of `grants` satisfy `needed`? */
  method AnySatisfies(grants: seq<Bytes>, needed: Bytes) returns (r: bool)
    ensures r <==> exists i :: 0 <= i < |grants| && GrantSatisfies(grants[i], needed)
  {
    var n := Parse(needed);
    if n.None? {
      return false;
    }
    for i := 0 to |grants|
      invariant forall k :: 0 <= k < i ==> !GrantSatisfies(grants[k], needed)
    {
      var g := Parse(grants[i]);
      if g.Some? && g.value.Satisfies(n.value) {
        assert GrantSatisfies(grants[i], needed);
        return true;
      }
    }
    return false;
  }

  /** The needs a grant covers: itself and, when it is unscoped, itself with
      any clean scope appended. */
  predicate Covers(grant: Bytes, needed: Bytes) {
    || needed == grant
    || (AT !in grant && grant + [AT] <= needed && CleanPart(needed[|grant| + 1..]))
  }

  lemma ScopeIsTheAt(s: Bytes)
    requires Parse(s).Some?
    ensures Parse(s).value.scope.Some? <==> AT in s
  {
    var c := Parse(s).value;
    ParseIsTextInverse(s, c);
    if c.scope.Some? {
      assert s[|c.component| + 1 + |c.action|] == AT;
    }
  }

  lemma SatisfiesCovers(grant: Bytes, needed: Bytes)
    requires GrantSatisfies(grant, needed)
    ensures Covers(grant, needed)
  {
    var g, n := Parse(grant).value, Parse(needed).value;
    ParseIsTextInverse(grant, g);
    ParseIsTextInverse(needed, n);
    ScopeIsTheAt(grant);
    if g.scope != n.scope {
      assert needed == grant + [AT] + n.scope.value;
      assert needed[|grant| + 1..] == n.scope.value;
    }
  }

  lemma CoversSatisfies(grant: Bytes, needed: Bytes)
    requires Parse(grant).Some? && Covers(grant, needed)
    ensures GrantSatisfies(grant, needed)
  {
    if needed != grant {
      var g, scope := Parse(grant).value, needed[|grant| + 1..];
      ParseIsTextInverse(grant, g);
      ScopeIsTheAt(grant);
      assert needed == grant + [AT] + scope;
      ParseIsTextInverse(needed, g.(scope := Some(scope)));
    }
  }

  /** A string is a capability exactly when, as a grant, it satisfies itself. */
  lemma SatisfiesItself(s: Bytes)
    ensures Parse(s).Some? <==> GrantSatisfies(s, s)
  {
  }

  /** What a grant string satisfies, said on the strings themselves. */
  lemma GrantMeaning(grant: Bytes, needed: Bytes)
    ensures GrantSatisfies(grant, needed) <==> Parse(grant).Some? && Covers(grant, needed)
  {
    if GrantSatisfies(grant, needed) {
      SatisfiesCovers(grant, needed);
    }
    if Parse(grant).Some? && Covers(grant, needed) {
      CoversSatisfies(grant, needed);
    }
  }
}
