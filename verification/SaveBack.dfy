/** Saving the rewritten service file over its input is stable: a second pass finds nothing to do. */
module SaveBack {
  import opened Prelude
  import opened Pattern
  import opened ServiceFile

  // ---------------------------------------------------------------- facts about the patterns

  /** Text that begins like a path match: what a match that began earlier can see of it. */
  predicate BeginsLikePath(s: string) { |s| >= 6 && s[..5] == "/mnt/" && In(TypeChar, s[5]) }

  lemma PathStart(s: string)
    requires Starts(PATH, s)
    ensures BeginsLikePath(s)
  {
    var s1 := s[1..];
    assert MatchFrom(PATH, 1, s1).Some?;
    var s2 := s1[1..];
    assert MatchFrom(PATH, 2, s2).Some?;
    var s3 := s2[1..];
    assert MatchFrom(PATH, 3, s3).Some?;
    var s4 := s3[1..];
    assert MatchFrom(PATH, 4, s4).Some?;
    assert MatchFrom(PATH, 5, s4[1..]).Some?;
    assert s[..5] == [s[0], s1[0], s2[0], s3[0], s4[0]];
  }

  /** Whether a match that stands at element `i` survives such a text depends on `i` alone. */
  lemma PathAcross(i: nat, s: string)
    requires 1 <= i <= |PATH| && BeginsLikePath(s)
    ensures MatchFrom(PATH, i, s).Some? <==> i in {4, 6, 7, 9, 10}
  {
    var s1 := s[1..];
    var s2 := s1[1..];
    var s3 := s2[1..];
    var s4 := s3[1..];
    var s5 := s4[1..];
    assert s[0] == s[..5][0] && s1[0] == s[..5][1] && s2[0] == s[..5][2] && s3[0] == s[..5][3] && s4[0] == s[..5][4];
    assert s5[0] == s[5];
    NameRunFound(s5[1..]);
    assert MatchFrom(PATH, 9, s5).Some? by { NameRunFound(s5); }
    assert MatchFrom(PATH, 8, s5).Some?;
    assert MatchFrom(PATH, 7, s4).Some?;
    assert MatchFrom(PATH, 6, s4).Some?;
    assert MatchFrom(PATH, 6, s3).Some?;
    assert MatchFrom(PATH, 6, s2).Some?;
    assert MatchFrom(PATH, 5, s1).Some?;
    NameRunFound(s1[1..]);
    assert MatchFrom(PATH, 9, s1).Some? by { NameRunFound(s1); }
    assert MatchFrom(PATH, 8, s1).Some?;
    assert MatchFrom(PATH, 7, s).Some?;
    NameRunFound(s);
  }

  lemma {:induction false} NameRunFound(s: string)
    ensures MatchFrom(PATH, 9, s).Some?
    decreases |s|
  {
    if s != "" { NameRunFound(s[1..]); }
  }

  /** A mount path that no name can contain offers nothing to a path match that has begun. */
  lemma PathOffersNothing(m: string)
    requires m != "" && !In(NameChar, m[0])
    ensures OffersNothing(PATH, 1, PATH, m)
  {
    forall i, s, x | 1 <= i <= |PATH| && Starts(PATH, s) && MatchFrom(PATH, i, m + x).Some?
      ensures MatchFrom(PATH, i, s).Some?
    {
      assert (m + x)[0] == m[0];
      PathStart(s);
      PathAcross(i, s);
      assert i !in {1, 2, 3, 5, 8};
    }
  }

  /** The characters a path match consists of. */
  predicate IsPathChar(c: char) { c == '/' || In(NameChar, c) }

  lemma {:induction false} MatchChars(i: nat, s: string)
    requires i <= |PATH| && MatchFrom(PATH, i, s).Some?
    ensures forall j :: 0 <= j < MatchFrom(PATH, i, s).value ==> IsPathChar(s[j])
    decreases |s|, |PATH| - i
  {
    if i < |PATH| {
      if s != "" && In(PATH[i].cls, s[0]) {
        MatchChars(if PATH[i].One? then i + 1 else i, s[1..]);
        assert IsPathChar(s[0]);
        assert forall j :: 1 <= j < |s| ==> s[j] == s[1..][j - 1];
      } else {
        MatchChars(i + 1, s);
      }
    }
  }

  lemma VariableElems(i: nat)
    requires i < |VARIABLE|
    ensures VARIABLE[i].One? && VARIABLE[i].cls == Is(VARIABLE_TEXT[i])
    ensures VARIABLE_TEXT[i] != '/' && VARIABLE_TEXT[i] != 'n'
    ensures VARIABLE_TEXT[i] == '$' <==> i == 0
  {
  }

  /** Neither a mount path nor a role can continue a variable reference that has begun. */
  lemma VariableOffersNothing(b: Pat, r: string)
    requires b == VARIABLE || b == PATH || b == ROLE
    requires r != "" && (r[0] == '/' || r[0] == 'n')
    ensures OffersNothing(VARIABLE, 1, b, r)
  {
    VariableElems(0);
    forall i, s, x | 1 <= i <= |VARIABLE| && Starts(b, s) && MatchFrom(VARIABLE, i, r + x).Some?
      ensures MatchFrom(VARIABLE, i, s).Some?
    {
      assert (r + x)[0] == r[0];
      assert In(b[0].cls, s[0]);
      if i < |VARIABLE| { VariableElems(i); }
    }
  }

  lemma VariableClosed(r: string)
    requires forall c :: c in r ==> c != '$'
    ensures Closed(VARIABLE, r)
  {
    VariableElems(0);
    forall v | NoMatch(VARIABLE, v) ensures NoMatch(VARIABLE, r + v) {
      SkipText(VARIABLE, r, v);
    }
  }

  lemma RoleOffersNothing()
    ensures OffersNothing(ROLE, 1, ROLE, MANAGER_ROLE)
  {
    forall i, s, x | 1 <= i <= |ROLE| && Starts(ROLE, s) && MatchFrom(ROLE, i, MANAGER_ROLE + x).Some?
      ensures MatchFrom(ROLE, i, s).Some?
    {
      assert (MANAGER_ROLE + x)[0] == 'n';
      RoleRefuses(i, MANAGER_ROLE + x);
    }
  }

  /** Inside the role pattern an `n` fits nowhere. */
  lemma RoleRefuses(i: nat, s: string)
    requires 1 <= i <= |ROLE| && s != "" && s[0] == 'n'
    ensures MatchFrom(ROLE, i, s).Some? <==> i == |ROLE|
  {
  }

  const BEFORE_EQUALS := "node.role"

  const AFTER_NAME := "==manager"

  /** A pattern beginning with `n` could start only at the two places where the text has one. */
  lemma TwoPlaces(p: Pat, a: string, b: string, v: string)
    requires p != [] && p[0] == One(Is('n')) && NoMatch(p, v)
    requires 'n' !in a && 'n' !in b
    requires !Starts(p, "n" + (b + v)) && !Starts(p, "n" + (a + ("n" + (b + v))))
    ensures NoMatch(p, "n" + (a + ("n" + (b + v))))
  {
    SkipText(p, b, v);
    var inner := "n" + (b + v);
    assert inner[1..] == b + v;
    SkipText(p, a, inner);
    var outer := "n" + (a + inner);
    assert outer[1..] == a + inner;
  }

  lemma ManagerRoleSplit(v: string)
    ensures MANAGER_ROLE + v == "n" + ("ode.role==ma" + ("n" + ("ager" + v)))
  {
    assert MANAGER_ROLE == "n" + ("ode.role==ma" + ("n" + "ager"));
  }

  /** No role match begins inside the replacement. */
  lemma RoleClosed()
    ensures Closed(ROLE, MANAGER_ROLE)
  {
    forall v | NoMatch(ROLE, v) ensures NoMatch(ROLE, MANAGER_ROLE + v) {
      NagerIsNotNode("ager" + v);
      ManagerIsNotRole(v);
      ManagerRoleSplit(v);
      TwoPlaces(ROLE, "ode.role==ma", "ager", v);
    }
  }

  lemma ManagerIsNotRole(v: string)
    ensures !Starts(ROLE, MANAGER_ROLE + v)
  {
    var s := MANAGER_ROLE + v;
    assert s == BEFORE_EQUALS + (AFTER_NAME + v) && s[9..] == AFTER_NAME + v;
    LiteralStep(ROLE, 0, BEFORE_EQUALS, s);
    ManagerIsNotWorker(s[9..], v);
  }

  lemma NagerIsNotNode(ager: string)
    requires ager != "" && ager[0] == 'a'
    ensures !Starts(ROLE, "n" + ager)
  {
    assert ("n" + ager)[1..] == ager;
    assert MatchFrom(ROLE, 1, ager).None?;
  }

  lemma ManagerIsNotWorker(s: string, v: string)
    requires s == AFTER_NAME + v
    ensures MatchFrom(ROLE, 9, s).None?
  {
    var s1 := s[1..];
    var s2 := s1[1..];
    assert s[0] == '=' && s1[0] == '=' && s2[0] == 'm';
    assert MatchFrom(ROLE, 13, s2).None?;
    assert MatchFrom(ROLE, 12, s2).None?;
    assert MatchFrom(ROLE, 11, s1).None?;
    assert MatchFrom(ROLE, 10, s).None?;
  }

  // ---------------------------------------------------------------- mount paths after one rewriting

  /** A path match is followed by the end of the text or by a character no name contains. */
  lemma {:induction false} MatchIsGreedy(i: nat, t: string)
    requires i <= |PATH| - 1 && MatchFrom(PATH, i, t).Some?
    ensures var k := MatchFrom(PATH, i, t).value; k == |t| || !In(NameChar, t[k])
    decreases |t|, |PATH| - i
  {
    if t != "" && In(PATH[i].cls, t[0]) {
      MatchIsGreedy(if PATH[i].One? then i + 1 else i, t[1..]);
    } else if i + 1 < |PATH| {
      MatchIsGreedy(i + 1, t);
    }
  }

  /** A mount path keeps its extent when such a character follows. */
  lemma {:induction false} MountPathExtent(i: nat, m: string, rest: string)
    requires i <= |PATH| && MatchFrom(PATH, i, m) == Some(|m|)
    requires rest == "" || !In(NameChar, rest[0])
    ensures MatchFrom(PATH, i, m + rest) == Some(|m|)
    decreases |m|, |PATH| - i
  {
    if m == "" {
      assert m + rest == rest;
      assert i >= 9;
    } else {
      assert (m + rest)[0] == m[0] && (m + rest)[1..] == m[1..] + rest;
      if In(PATH[i].cls, m[0]) {
        MountPathExtent(if PATH[i].One? then i + 1 else i, m[1..], rest);
      } else {
        MountPathExtent(i + 1, m, rest);
      }
    }
  }

  predicate OnlyMatch(m: string, t: string) { forall x :: x in AllMatches(PATH, t) ==> x == m }

  lemma OnlyMatchStep(m: string, t: string)
    requires t != ""
    ensures Starts(PATH, t) ==>
      (OnlyMatch(m, t) <==> t[..Match(PATH, t).value] == m && OnlyMatch(m, t[Match(PATH, t).value..]))
    ensures !Starts(PATH, t) ==> (OnlyMatch(m, t) <==> OnlyMatch(m, t[1..]))
  {
    var all := AllMatches(PATH, t);
    if Starts(PATH, t) {
      var k := Match(PATH, t).value;
      var tail := AllMatches(PATH, t[k..]);
      assert all == [t[..k]] + tail;
      assert t[..k] in all && forall x :: x in tail ==> x in all;
      assert forall x :: x in all ==> x == t[..k] || x in tail;
    } else {
      assert all == AllMatches(PATH, t[1..]);
    }
  }

  /** After rewriting, every remaining match of the path pattern is the mount path. */
  lemma {:induction false} RewritingLeavesMount(m: string, t: string)
    requires IsMountPath(m)
    ensures OnlyMatch(m, Rewrite(PATH, m, t))
    decreases |t|
  {
    if t != "" {
      var u := Rewrite(PATH, m, t);
      if Starts(PATH, t) {
        var k := Match(PATH, t).value;
        var rest := Rewrite(PATH, m, t[k..]);
        RewritingLeavesMount(m, t[k..]);
        MatchIsGreedy(0, t);
        PathStart(m);
        assert m[0] == m[..5][0];
        MountPathExtent(0, m, rest);
        assert u[..|m|] == m && u[|m|..] == rest;
        OnlyMatchStep(m, u);
      } else {
        RewritingLeavesMount(m, t[1..]);
        assert u[1..] == Rewrite(PATH, m, t[1..]);
        PathStart(m);
        assert m[0] == m[..5][0];
        PathOffersNothing(m);
        RewriteFindsNoMore(PATH, 1, PATH, m, 1, t[1..]);
        assert !Starts(PATH, u);
        OnlyMatchStep(m, u);
      }
    }
  }

  /**
   * The mount paths under which the rewriting settles: those the pattern accepts as
   * a whole, and those that neither continue a match nor take part in one, whatever
   * stands around them. No text after the mount path helps a match more than `/a/a`.
   */
  predicate Settles(m: string)
    requires m != ""
  {
    IsMountPath(m) || (!In(NameChar, m[0]) && NoMatch(PATH, m + ANY_TAIL))
  }

  const ANY_TAIL := "/a/a"

  lemma {:induction false} TailHelpsMost(i: nat, w: string, v: string)
    requires i <= |PATH| && (i > 0 || w != "") && (v == "" || !In(NameChar, v[0]))
    requires MatchFrom(PATH, i, w + v).Some?
    ensures MatchFrom(PATH, i, w + ANY_TAIL).Some?
    decreases |w|, |PATH| - i
  {
    if w == "" {
      assert w + v == v && w + ANY_TAIL == ANY_TAIL;
      assert i in {4, 6, 7, 9, 10};
      TailContinues(i);
    } else if i < |PATH| {
      assert (w + v)[0] == w[0] && (w + v)[1..] == w[1..] + v;
      assert (w + ANY_TAIL)[0] == w[0] && (w + ANY_TAIL)[1..] == w[1..] + ANY_TAIL;
      if In(PATH[i].cls, w[0]) {
        TailHelpsMost(if PATH[i].One? then i + 1 else i, w[1..], v);
      } else {
        TailHelpsMost(i + 1, w, v);
      }
    }
  }

  lemma TailContinues(i: nat)
    requires i in {4, 6, 7, 9, 10}
    ensures MatchFrom(PATH, i, ANY_TAIL).Some?
  {
    var s := ANY_TAIL;
    var s1 := s[1..];
    var s2 := s1[1..];
    var s3 := s2[1..];
    NameRunFound(s3[1..]);
    NameRunFound(s);
    NameRunFound(s2);
    assert s[0] == '/' && s1[0] == 'a' && s2[0] == '/' && s3[0] == 'a';
    assert MatchFrom(PATH, 8, s3).Some?;
    assert MatchFrom(PATH, 7, s2).Some?;
    assert MatchFrom(PATH, 6, s2).Some?;
    assert MatchFrom(PATH, 5, s1).Some?;
    assert MatchFrom(PATH, 8, s1).Some?;
  }

  /** No match begins inside such a mount path, when no name character follows. */
  lemma {:induction false} NoMatchInMount(m: string, v: string)
    requires NoMatch(PATH, m + ANY_TAIL) && NoMatch(PATH, v) && (v == "" || !In(NameChar, v[0]))
    ensures NoMatch(PATH, m + v)
    decreases |m|
  {
    if m == "" {
      assert m + v == v;
    } else {
      assert (m + v)[1..] == m[1..] + v && (m + ANY_TAIL)[1..] == m[1..] + ANY_TAIL;
      NoMatchInMount(m[1..], v);
      if MatchFrom(PATH, 0, m + v).Some? {
        TailHelpsMost(0, m, v);
        NeverEmpty(m + ANY_TAIL);
      }
    }
  }

  /** A path match is never empty. */
  lemma NeverEmpty(s: string)
    requires MatchFrom(PATH, 0, s).Some?
    ensures Starts(PATH, s)
  {
  }

  /** After rewriting to such a mount path no path match is left. */
  lemma {:induction false} RewritingLeavesNothing(m: string, t: string)
    requires m != "" && !In(NameChar, m[0]) && NoMatch(PATH, m + ANY_TAIL)
    ensures NoMatch(PATH, Rewrite(PATH, m, t))
    decreases |t|
  {
    if t != "" {
      var u := Rewrite(PATH, m, t);
      if Starts(PATH, t) {
        var k := Match(PATH, t).value;
        RewritingLeavesNothing(m, t[k..]);
        MatchIsGreedy(0, t);
        NoMatchInMount(m, Rewrite(PATH, m, t[k..]));
      } else {
        RewritingLeavesNothing(m, t[1..]);
        assert u[1..] == Rewrite(PATH, m, t[1..]);
        PathOffersNothing(m);
        RewriteFindsNoMore(PATH, 1, PATH, m, 1, t[1..]);
      }
    }
  }

  /** Either way, every path match that is left is the mount path. */
  lemma RewritingSettles(m: string, t: string)
    requires m != "" && Settles(m)
    ensures OnlyMatch(m, Rewrite(PATH, m, t))
  {
    if IsMountPath(m) {
      RewritingLeavesMount(m, t);
    } else {
      RewritingLeavesNothing(m, t);
      NoMatchIsNone(PATH, Rewrite(PATH, m, t));
    }
  }

  // ---------------------------------------------------------------- placement keeps the paths

  lemma {:induction false} NameRunExact(w: string, y: string)
    requires forall c :: c in w ==> In(NameChar, c)
    requires y == "" || !In(NameChar, y[0])
    ensures MatchFrom(PATH, 9, w + y) == Some(|w|)
    decreases |w|
  {
    if w == "" {
      assert w + y == y;
    } else {
      assert w[0] in w;
      assert (w + y)[0] == w[0] && (w + y)[1..] == w[1..] + y;
      NameRunExact(w[1..], y);
    }
  }

  /** What a path match standing at element `i` makes of a role name. */
  lemma PathOnRole(i: nat, s: string, y: string)
    requires i <= |PATH| && s == BEFORE_EQUALS + y && y != "" && !IsPathChar(y[0])
    ensures MatchFrom(PATH, i, s) == if i == 8 || i == 9 then Some(9) else if i == 10 then Some(0) else None
  {
    NameRunExact(BEFORE_EQUALS, y);
    assert s[1..] == "ode.role" + y;
    NameRunExact("ode.role", y);
    assert s[0] == 'n' && s[1] == 'o' && s[2] == 'd' && s[3] == 'e' && s[4] == '.';
    TypeRunStops(s);
  }

  lemma TypeRunStops(s: string)
    requires |s| > 4 && s[0] == 'n' && s[1] == 'o' && s[2] == 'd' && s[3] == 'e' && s[4] == '.'
    ensures MatchFrom(PATH, 6, s).None? && MatchFrom(PATH, 5, s).None?
  {
    var s1 := s[1..];
    var s2 := s1[1..];
    var s3 := s2[1..];
    var s4 := s3[1..];
    assert s4[0] == '.' && s3[0] == 'e' && s2[0] == 'd' && s1[0] == 'o';
    assert MatchFrom(PATH, 6, s4).None?;
    assert MatchFrom(PATH, 6, s3).None?;
    assert MatchFrom(PATH, 6, s2).None?;
    assert MatchFrom(PATH, 6, s1).None?;
  }

  /** The text of a role match: the name, then characters that no path contains. */
  lemma RoleText(s: string) returns (y: string)
    requires Starts(ROLE, s)
    ensures s == BEFORE_EQUALS + y && y != "" && !IsPathChar(y[0])
    ensures 9 < Match(ROLE, s).value
    ensures forall j :: 9 <= j < Match(ROLE, s).value ==> s[j] != '/'
  {
    LiteralFound(ROLE, 0, BEFORE_EQUALS, s);
    LiteralStep(ROLE, 0, BEFORE_EQUALS, s);
    y := s[9..];
    RoleTail(9, y);
    assert forall j :: 9 <= j < |s| ==> s[j] == y[j - 9];
    AfterRoleName(y);
  }

  lemma AfterRoleName(y: string)
    requires MatchFrom(ROLE, 9, y).Some?
    ensures y != "" && !IsPathChar(y[0])
    ensures MatchFrom(ROLE, 9, y).value > 0
  {
    assert ROLE[9] == Many(Space) && ROLE[10] == One(Is('='));
    assert MatchFrom(ROLE, 10, y).Some? || (y != "" && In(Space, y[0]));
  }

  lemma {:induction false} RoleTail(i: nat, y: string)
    requires 9 <= i <= |ROLE| && MatchFrom(ROLE, i, y).Some?
    ensures forall j :: 0 <= j < MatchFrom(ROLE, i, y).value ==> y[j] != '/'
    decreases |y|, |ROLE| - i
  {
    if i < |ROLE| {
      if y != "" && In(ROLE[i].cls, y[0]) {
        RoleTail(if ROLE[i].One? then i + 1 else i, y[1..]);
        assert forall j :: 1 <= j < |y| ==> y[j] == y[1..][j - 1];
        RoleElemNotSlash(i);
      } else {
        RoleTail(i + 1, y);
      }
    }
  }

  lemma RoleElemNotSlash(i: nat)
    requires i < |ROLE|
    ensures !In(ROLE[i].cls, '/')
  {
  }

  function Placed(u: string): string { Rewrite(ROLE, MANAGER_ROLE, u) }

  lemma PlacedRole(u: string) returns (y: string, z: string)
    requires Starts(ROLE, u)
    ensures u == BEFORE_EQUALS + y && y != "" && !IsPathChar(y[0])
    ensures Placed(u) == BEFORE_EQUALS + z && z == AFTER_NAME + Placed(u[Match(ROLE, u).value..])
    ensures z != "" && !IsPathChar(z[0])
  {
    y := RoleText(u);
    var rest := Placed(u[Match(ROLE, u).value..]);
    z := AFTER_NAME + rest;
    assert MANAGER_ROLE == BEFORE_EQUALS + AFTER_NAME;
    assert MANAGER_ROLE + rest == BEFORE_EQUALS + z;
    assert z[0] == '=';
  }

  /** Rewriting roles changes neither the extent nor the text of a path match. */
  lemma {:induction false} PlacementKeepsMatches(i: nat, u: string)
    requires i <= |PATH|
    ensures MatchFrom(PATH, i, Placed(u)) == MatchFrom(PATH, i, u)
    ensures var k := MatchFrom(PATH, i, u); k.Some? ==> Placed(u)[..k.value] == u[..k.value]
    decreases |u|, |PATH| - i
  {
    if u == "" || i == |PATH| {
    } else if Starts(ROLE, u) {
      var y, z := PlacedRole(u);
      PathOnRole(i, u, y);
      PathOnRole(i, Placed(u), z);
      assert Placed(u)[..9] == BEFORE_EQUALS == u[..9];
    } else {
      var v := Placed(u);
      assert v[0] == u[0] && v[1..] == Placed(u[1..]);
      if In(PATH[i].cls, u[0]) {
        var next := if PATH[i].One? then i + 1 else i;
        PlacementKeepsMatches(next, u[1..]);
        var k := MatchFrom(PATH, next, u[1..]);
        if k.Some? {
          assert v[..k.value + 1] == [u[0]] + v[1..][..k.value];
          assert u[..k.value + 1] == [u[0]] + u[1..][..k.value];
        }
      } else if PATH[i].Many? {
        PlacementKeepsMatches(i + 1, u);
      }
    }
  }

  /** Like OnlyMatch, entered `n` characters before the end of a match. */
  predicate OnlyMatchAfter(n: nat, m: string, u: string)
    decreases |u|
  {
    if n > 0 then u != "" && IsPathChar(u[0]) && OnlyMatchAfter(n - 1, m, u[1..])
    else if u == "" then true
    else if Starts(PATH, u) then
      u[..Match(PATH, u).value] == m && OnlyMatchAfter(Match(PATH, u).value - 1, m, u[1..])
    else OnlyMatchAfter(0, m, u[1..])
  }

  lemma {:induction false} AfterSkip(n: nat, m: string, u: string)
    ensures OnlyMatchAfter(n, m, u)
       <==> n <= |u| && (forall j :: 0 <= j < n ==> IsPathChar(u[j])) && OnlyMatchAfter(0, m, u[n..])
    decreases |u|
  {
    if n > 0 && u != "" {
      AfterSkip(n - 1, m, u[1..]);
      assert n <= |u| ==> u[1..][n - 1..] == u[n..];
      assert forall j :: 1 <= j < |u| ==> u[j] == u[1..][j - 1];
    } else if n == 0 {
      assert u[0..] == u;
    }
  }

  lemma {:induction false} OnlyMatchIsAfter(m: string, u: string)
    ensures OnlyMatch(m, u) <==> OnlyMatchAfter(0, m, u)
    decreases |u|
  {
    if u != "" {
      OnlyMatchStep(m, u);
      if Starts(PATH, u) {
        var k := Match(PATH, u).value;
        OnlyMatchIsAfter(m, u[k..]);
        AfterSkip(k - 1, m, u[1..]);
        assert u[1..][k - 1..] == u[k..];
        MatchChars(0, u);
      } else {
        OnlyMatchIsAfter(m, u[1..]);
      }
    }
  }

  lemma {:induction false} SlashFree(m: string, w: string, v: string)
    requires '/' !in w
    ensures OnlyMatchAfter(0, m, w + v) <==> OnlyMatchAfter(0, m, v)
    decreases |w|
  {
    if w == "" {
      assert w + v == v;
    } else {
      assert w[0] in w;
      assert (w + v)[0] == w[0] && (w + v)[1..] == w[1..] + v;
      SlashFree(m, w[1..], v);
    }
  }

  lemma RolePart(n: nat, m: string, x: string, y: string, v: string)
    requires x == BEFORE_EQUALS && '/' !in y && y != "" && !IsPathChar(y[0])
    ensures OnlyMatchAfter(n, m, x + y + v) <==> n <= 9 && OnlyMatchAfter(0, m, v)
  {
    var u := x + y + v;
    AfterSkip(n, m, u);
    assert u[9] == y[0];
    assert forall j :: 0 <= j < 9 ==> u[j] == x[j];
    assert forall j :: 0 <= j < 9 ==> IsPathChar(x[j]);
    if n <= 9 {
      assert u[n..] == (x[n..] + y) + v;
      SlashFree(m, x[n..] + y, v);
    }
  }

  lemma {:induction false} PlacementKeepsOnlyMatch(n: nat, m: string, u: string)
    requires OnlyMatchAfter(n, m, u)
    ensures OnlyMatchAfter(n, m, Placed(u))
    decreases |u|
  {
    if u != "" {
      if Starts(ROLE, u) {
        var k := Match(ROLE, u).value;
        var y := RoleText(u);
        var y', z := PlacedRole(u);
        assert u[9..k] != "" && u[9..k][0] == y[0];
        assert u == BEFORE_EQUALS + u[9..k] + u[k..];
        RolePart(n, m, BEFORE_EQUALS, u[9..k], u[k..]);
        PlacementKeepsOnlyMatch(0, m, u[k..]);
        assert Placed(u) == BEFORE_EQUALS + AFTER_NAME + Placed(u[k..]);
        RolePart(n, m, BEFORE_EQUALS, AFTER_NAME, Placed(u[k..]));
      } else {
        var v := Placed(u);
        assert v[0] == u[0] && v[1..] == Placed(u[1..]);
        PlacementKeepsMatches(0, u);
        PlacementKeepsOnlyMatch(
          if n > 0 then n - 1 else if Starts(PATH, u) then Match(PATH, u).value - 1 else 0, m, u[1..]);
      }
    }
  }

  // ---------------------------------------------------------------- the save-back

  lemma MountPathFacts(m: string)
    requires IsMountPath(m)
    ensures m != "" && m[0] == '/'
    ensures forall c :: c in m ==> IsPathChar(c) && c != '$'
  {
    PathStart(m);
    MatchChars(0, m);
    assert m[0] == m[..5][0];
  }

  /**
   * The mount paths a file may be deployed with again and again: absolute, without
   * `$`, and settling. An empty one switches the rewriting off.
   */
  predicate Stable(m: string) { m == "" || (m[0] == '/' && '$' !in m && Settles(m)) }

  /** The storage rewriting leaves no variable reference, and no path match but the mount path. */
  lemma ReplacedPaths(content: string, m: string)
    requires m != "" && Stable(m)
    ensures NoMatch(VARIABLE, ReplaceStoragePaths(content, m))
    ensures OnlyMatch(m, ReplaceStoragePaths(content, m))
  {
    NoVariableLeft(content, m);
    RewritingSettles(m, Rewrite(VARIABLE, m, content));
  }

  lemma NoVariableLeft(content: string, m: string)
    requires m != "" && m[0] == '/' && '$' !in m
    ensures NoMatch(VARIABLE, Rewrite(VARIABLE, m, content))
    ensures NoMatch(VARIABLE, ReplaceStoragePaths(content, m))
  {
    VariableElems(0);
    VariableClosed(m);
    VariableOffersNothing(VARIABLE, m);
    VariableOffersNothing(PATH, m);
    var v := Rewrite(VARIABLE, m, content);
    RewriteAddsNoMatch(VARIABLE, VARIABLE, m, content);
    VariableIsNotPath();
    RewriteAddsNoMatch(VARIABLE, PATH, m, v);
  }

  lemma VariableIsNotPath()
    ensures VARIABLE != PATH && VARIABLE != ROLE
  {
    VariableElems(0);
    assert PATH[0].cls == Is('/') && ROLE[0].cls == Is('n');
  }

  lemma PlacedHasNoRole(u: string)
    ensures NoMatch(ROLE, Placed(u))
  {
    RoleClosed();
    RoleOffersNothing();
    RewriteAddsNoMatch(ROLE, ROLE, MANAGER_ROLE, u);
  }

  lemma PlacedHasNoVariable(u: string)
    requires NoMatch(VARIABLE, u)
    ensures NoMatch(VARIABLE, Placed(u))
  {
    VariableElems(0);
    VariableClosed(MANAGER_ROLE);
    VariableOffersNothing(ROLE, MANAGER_ROLE);
    VariableIsNotPath();
    RewriteAddsNoMatch(VARIABLE, ROLE, MANAGER_ROLE, u);
  }

  /**
   * What every processed text satisfies: with a stable mount path no
   * variable reference is left and the mount path is the only path match; without
   * dedicated workers no worker constraint is left.
   */
  lemma ProcessedText(content: string, mount: string, hasWorkers: bool)
    requires Stable(mount)
    ensures var w := Process(content, mount, hasWorkers);
      && (mount != "" ==> NoMatch(VARIABLE, w) && OnlyMatch(mount, w))
      && (!hasWorkers ==> NoMatch(ROLE, w))
  {
    var u := PathsReplaced(content, mount);
    if mount != "" {
      ReplacedPaths(content, mount);
      PlacedHasNoVariable(u);
      OnlyMatchIsAfter(mount, u);
      PlacementKeepsOnlyMatch(0, mount, u);
      OnlyMatchIsAfter(mount, Placed(u));
    }
    PlacedHasNoRole(u);
  }

  /** Text with those properties is left alone. */
  lemma ProcessedIsStable(w: string, mount: string, hasWorkers: bool)
    requires mount != "" ==> NoMatch(VARIABLE, w) && OnlyMatch(mount, w)
    requires !hasWorkers ==> NoMatch(ROLE, w)
    ensures Process(w, mount, hasWorkers) == w && !Changes(w, mount, hasWorkers)
  {
    if mount != "" {
      NoMatchIsNone(VARIABLE, w);
      RewriteFixes(VARIABLE, mount, w);
      RewriteFixes(PATH, mount, w);
    }
    if !hasWorkers {
      NoMatchIsNone(ROLE, w);
      RewriteFixes(ROLE, MANAGER_ROLE, w);
    }
  }

  /** Processing the saved result again changes nothing, for every input text. */
  lemma ProcessIdempotent(content: string, mount: string, hasWorkers: bool)
    requires Stable(mount)
    ensures var w := Process(content, mount, hasWorkers);
      Process(w, mount, hasWorkers) == w && !Changes(w, mount, hasWorkers)
  {
    ProcessedText(content, mount, hasWorkers);
    ProcessedIsStable(Process(content, mount, hasWorkers), mount, hasWorkers);
  }

  /** Two deployments in a row: the second leaves the file as the first wrote it. */
  method DeployTwice(file: ServiceFile, mount: string, hasWorkers: bool) returns (first: string, second: string)
    requires Stable(mount)
    modifies file
    ensures first == second == file.content == Process(old(file.content), mount, hasWorkers)
  {
    ProcessIdempotent(file.content, mount, hasWorkers);
    var modified;
    first, modified := file.Prepare(mount, hasWorkers, true);
    second, modified := file.Prepare(mount, hasWorkers, true);
    assert !modified;
  }
}
