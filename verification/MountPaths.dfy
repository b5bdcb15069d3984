/**
 * Exactly which configured mount paths survive repeated deployment, and what
 * happens to service files under the others.
 */
module MountPaths {
  import opened Prelude
  import opened Pattern
  import opened ServiceFile
  import opened SaveBack
  import opened TextCount

  // ---------------------------------------------------------------- single matches

  /** A match depends only on its own text, when it ends there. */
  lemma {:induction false} PrefixStillMatches(i: nat, s: string, k: nat)
    requires i <= |PATH| && MatchFrom(PATH, i, s) == Some(k)
    ensures MatchFrom(PATH, i, s[..k]) == Some(k)
    decreases |s|, |PATH| - i
  {
    if i < |PATH| {
      if s != "" && In(PATH[i].cls, s[0]) {
        PrefixStillMatches(if PATH[i].One? then i + 1 else i, s[1..], k - 1);
        assert s[..k][1..] == s[1..][..k - 1];
      } else {
        PrefixStillMatches(i + 1, s, k);
        if k > 0 { assert s[..k][0] == s[0]; }
      }
    }
  }

  /** A match that is found is still found when text follows. */
  lemma {:induction false} FoundStaysFound(i: nat, w: string, v: string)
    requires i <= |PATH| && MatchFrom(PATH, i, w).Some?
    ensures MatchFrom(PATH, i, w + v).Some?
    decreases |w|, |PATH| - i
  {
    if w == "" {
      assert w + v == v;
      if i == 9 { NameRunFound(v); }
    } else if i < |PATH| {
      assert (w + v)[0] == w[0] && (w + v)[1..] == w[1..] + v;
      if In(PATH[i].cls, w[0]) {
        FoundStaysFound(if PATH[i].One? then i + 1 else i, w[1..], v);
      } else {
        FoundStaysFound(i + 1, w, v);
      }
    }
  }

  /** A path match has at least eight characters. */
  lemma MatchLength(s: string)
    requires Starts(PATH, s)
    ensures Match(PATH, s).value >= 8
  {
    LiteralFound(PATH, 0, "/mnt/", s);
    LiteralStep(PATH, 0, "/mnt/", s);
    RestLength(6, s[5..][1..]);
  }

  lemma {:induction false} RestLength(i: nat, s: string)
    requires 6 <= i <= 7 && MatchFrom(PATH, i, s).Some?
    ensures MatchFrom(PATH, i, s).value >= 2
    decreases |s|, 7 - i
  {
    if i == 7 {
      assert MatchFrom(PATH, 8, s[1..]).Some?;
    } else if s != "" && In(TypeChar, s[0]) {
      RestLength(6, s[1..]);
    } else {
      RestLength(7, s);
    }
  }

  lemma {:induction false} MatchNeedsLength(t: string)
    requires !NoMatch(PATH, t)
    ensures |t| >= 8
    decreases |t|
  {
    if Starts(PATH, t) { MatchLength(t); } else { MatchNeedsLength(t[1..]); }
  }

  // ---------------------------------------------------------------- exactly the stable mount paths

  lemma {:induction false} ReplacementStands(r: string, t: string)
    requires !NoMatch(PATH, t)
    ensures |Rewrite(PATH, r, t)| >= |r|
    decreases |t|
  {
    if !Starts(PATH, t) { ReplacementStands(r, t[1..]); }
  }

  /** A short text with a match other than the mount path is changed by rewriting. */
  lemma {:induction false} MatchIsChanged(m: string, u: string)
    requires !NoMatch(PATH, u) && !IsMountPath(m) && |u| <= |m| + 4
    ensures Rewrite(PATH, m, u) != u
    decreases |u|
  {
    if Starts(PATH, u) {
      var k := Match(PATH, u).value;
      var rest := u[k..];
      MatchLength(u);
      if NoMatch(PATH, rest) {
        NoMatchIsNone(PATH, rest);
        RewriteFixes(PATH, m, rest);
        PrefixStillMatches(0, u, k);
        assert m != u[..k];
        assert |m| == k ==> (m + rest)[..k] == m;
      } else {
        MatchNeedsLength(rest);
        ReplacementStands(m, rest);
      }
    } else {
      MatchIsChanged(m, u[1..]);
    }
  }

  /** A text that begins with a path, and goes on too short for another one. */
  lemma OnlyHeadReplaced(m: string, x: string, rest: string)
    requires IsMountPath(x) && |rest| < 8 && (rest == "" || !In(NameChar, rest[0]))
    ensures Rewrite(PATH, m, x + rest) == m + rest
  {
    MountPathFacts(x);
    MountPathExtent(0, x, rest);
    assert (x + rest)[|x|..] == rest;
    if !NoMatch(PATH, rest) { MatchNeedsLength(rest); }
    NoMatchIsNone(PATH, rest);
    RewriteFixes(PATH, m, rest);
  }

  const PROBE := "/mnt/x/y"

  /** The text that shows whether a mount path takes part in a match. */
  lemma ProbeTail(m: string)
    ensures Rewrite(PATH, m, PROBE + ANY_TAIL) == m + ANY_TAIL
  {
    PathLanguage(PROBE, "x", "y");
    OnlyHeadReplaced(m, PROBE, ANY_TAIL);
  }

  /** Text without a slash is passed over. */
  lemma {:induction false} SlashFreeKept(w: string, m: string, v: string)
    requires '/' !in w
    ensures Rewrite(PATH, m, w + v) == w + Rewrite(PATH, m, v)
    decreases |w|
  {
    if w == "" {
      assert w + v == v;
    } else {
      assert w[0] in w && (w + v)[0] == w[0] && (w + v)[1..] == w[1..] + v;
      SlashFreeKept(w[1..], m, v);
    }
  }

  const OPEN := "/mnt/x/"

  /** An open path, and a whole one behind it. */
  lemma OpenDoesNotStart(t: string)
    requires t == OPEN + PROBE
    ensures !Starts(PATH, t)
  {
    var x := t[5..];
    LiteralStep(PATH, 0, "/mnt/", t);
    var y := x[1..];
    assert x[0] == 'x' && y[0] == '/' && y[1..] == PROBE;
    assert MatchFrom(PATH, 8, PROBE).None?;
    assert MatchFrom(PATH, 7, y).None?;
    assert MatchFrom(PATH, 6, y).None?;
    assert MatchFrom(PATH, 5, x).None?;
  }

  lemma SlashKept(m: string, v: string)
    requires v != "" && v[0] != 'm'
    ensures Rewrite(PATH, m, "/" + v) == "/" + Rewrite(PATH, m, v)
  {
    assert ("/" + v)[1..] == v;
    assert MatchFrom(PATH, 1, v).None?;
  }

  lemma ProbeAlone(m: string)
    ensures Rewrite(PATH, m, PROBE) == m
  {
    PathLanguage(PROBE, "x", "y");
    OnlyHeadReplaced(m, PROBE, "");
    assert PROBE + "" == PROBE && m + "" == m;
  }

  lemma OpenAssembled(v: string)
    ensures "/" + ("mnt" + ("/" + ("x" + ("/" + v)))) == OPEN + v
  {
  }

  /** The text that shows what a mount path beginning like a name continues. */
  lemma ProbeHead(m: string)
    ensures Rewrite(PATH, m, OPEN + PROBE) == OPEN + m
  {
    ProbeAlone(m);
    SlashKept(m, PROBE);
    var a := "/" + PROBE;
    SlashFreeKept("x", m, a);
    var b := "x" + a;
    SlashKept(m, b);
    SlashFreeKept("mnt", m, "/" + b);
    OpenAssembled(PROBE);
    OpenAssembled(m);
    OpenDoesNotStart(OPEN + PROBE);
    FirstKept(m, "mnt" + ("/" + b));
  }

  lemma FirstKept(m: string, v: string)
    requires !Starts(PATH, "/" + v)
    ensures Rewrite(PATH, m, "/" + v) == "/" + Rewrite(PATH, m, v)
  {
    assert ("/" + v)[1..] == v;
  }

  /** Any other mount path has a text that the second rewriting changes again. */
  lemma UnsettledText(m: string) returns (t: string)
    requires m != "" && !Settles(m)
    ensures Rewrite(PATH, m, Rewrite(PATH, m, t)) != Rewrite(PATH, m, t)
    ensures '$' !in t
  {
    if In(NameChar, m[0]) {
      t := OPEN + PROBE;
      ProbeHead(m);
      var u := OPEN + m;
      assert u[7..] == m;
      PathLanguage(OPEN + m[..1], "x", m[..1]);
      FoundStaysFound(0, OPEN + m[..1], m[1..]);
      assert u == OPEN + m[..1] + m[1..];
      NeverEmpty(u);
      assert Rewrite(PATH, m, u)[0] == m[0] && u[0] == '/';
    } else {
      t := PROBE + ANY_TAIL;
      ProbeTail(m);
      MatchIsChanged(m, m + ANY_TAIL);
    }
  }

  /** The path rewriting is stable for all texts exactly if the mount path settles; for every mount path. */
  lemma StableRewriting(m: string)
    requires m != ""
    ensures (forall t :: Rewrite(PATH, m, Rewrite(PATH, m, t)) == Rewrite(PATH, m, t)) <==> Settles(m)
  {
    if Settles(m) {
      forall t ensures Rewrite(PATH, m, Rewrite(PATH, m, t)) == Rewrite(PATH, m, t) {
        RewritingSettles(m, t);
        RewriteFixes(PATH, m, Rewrite(PATH, m, t));
      }
    } else {
      var t := UnsettledText(m);
    }
  }

  lemma {:induction false} NoDollarNoVariable(m: string, t: string)
    requires '$' !in t
    ensures Rewrite(VARIABLE, m, t) == t
    decreases |t|
  {
    VariableElems(0);
    if t != "" {
      assert t[0] in t;
      NoDollarNoVariable(m, t[1..]);
    }
  }

  /** On texts without variables a deployment is the path rewriting, and placement without dedicated workers. */
  lemma DeployedOnce(m: string, t: string, hasWorkers: bool)
    requires m != "" && '$' !in t
    ensures Process(t, m, hasWorkers) == AdjustPlacement(Rewrite(PATH, m, t), hasWorkers)
  {
    NoDollarNoVariable(m, t);
  }

  lemma {:induction false} RewriteAddsNoDollar(m: string, t: string)
    requires '$' !in m && '$' !in t
    ensures '$' !in Rewrite(PATH, m, t)
    decreases |t|
  {
    if t != "" {
      RewriteAddsNoDollar(m, if Starts(PATH, t) then t[Match(PATH, t).value..] else t[1..]);
    }
  }

  /** When all solid characters of an unsettled mount path are accounted for, at most one is an equals sign. */
  lemma FewEquals(m: string)
    requires m != "" && m[0] == '/' && Count(Solid, m) == 3
    requires !NoMatch(PATH, m + ANY_TAIL)
    ensures Count(Equal, m + ANY_TAIL) < 2
  {
    var u := m + ANY_TAIL;
    CountConcat(Equal, m, ANY_TAIL);
    NothingCounted(Equal, ANY_TAIL);
    if Starts(PATH, u) {
      var k := Match(PATH, u).value;
      MatchChars(0, u);
      if k <= |m| {
        assert u[..k] == m[..k];
        CountSplit(Solid, m, k);
        CountSplit(Equal, m, k);
        MatchCounts(u);
        EqualUnderSolid(m[k..]);
      } else {
        assert forall i :: 0 <= i < |m| ==> m[i] == u[i];
        NothingCounted(Equal, m);
      }
    } else {
      assert u[1..] == m[1..] + ANY_TAIL;
      if '/' !in m[1..] {
        if !NoMatch(PATH, ANY_TAIL) { MatchNeedsLength(ANY_TAIL); }
        SkipText(PATH, m[1..], ANY_TAIL);
      }
      EqualUnderSolid(m[1..]);
    }
  }

  /** What a deployment writes first, and what it finds when it comes back. */
  lemma UnstableWithoutWorkers(m: string)
    requires m != "" && m[0] == '/' && '$' !in m && !Settles(m)
    ensures var w := Process(PROBE + ANY_TAIL, m, false); Process(w, m, false) != w
  {
    var u := m + ANY_TAIL;
    ProbeTail(m);
    DeployedOnce(m, PROBE + ANY_TAIL, false);
    var w := Placed(u);
    PlacedAddsNoDollar(u);
    DeployedOnce(m, w, false);
    PlacementKeepsNoMatch(u);
    AllMatchesCount(w);
    var again := Rewrite(PATH, m, w);
    PlacementCounts(Solid, again);
    if Count(Solid, m) != 3 {
      PassChangesCount(Solid, m, w, 3);
    } else {
      FewEquals(m);
      RoleNeedsEquals(u);
      NoMatchIsNone(ROLE, u);
      RewriteFixes(ROLE, MANAGER_ROLE, u);
      MatchIsChanged(m, u);
      PlacedBackMeansSame(again, u);
    }
  }

  /** A text that placement turns into one with fewer than two equals signs is that text. */
  lemma PlacedBackMeansSame(v: string, u: string)
    requires Count(Equal, u) < 2
    ensures Placed(v) == u ==> v == u
  {
    PlacementCounts(Equal, v);
    if Count(Equal, v) < 2 {
      RoleNeedsEquals(v);
      NoMatchIsNone(ROLE, v);
      RewriteFixes(ROLE, MANAGER_ROLE, v);
    }
  }

  lemma {:induction false} PlacedAddsNoDollar(t: string)
    requires '$' !in t
    ensures '$' !in Placed(t)
    decreases |t|
  {
    if t != "" {
      PlacedAddsNoDollar(if Starts(ROLE, t) then t[Match(ROLE, t).value..] else t[1..]);
    }
  }

  /** Stability of repeated deployment, for a cluster with or without dedicated workers. */
  ghost predicate DeploysStably(m: string, hasWorkers: bool) {
    forall content :: Process(Process(content, m, hasWorkers), m, hasWorkers) == Process(content, m, hasWorkers)
  }

  /**
   * Repeated deployment leaves every service file as the first one wrote it exactly
   * if the mount path settles; for every absolute mount path, with dedicated workers
   * and without.
   */
  lemma StableMountPaths(m: string, hasWorkers: bool)
    requires m != "" && m[0] == '/' && '$' !in m
    ensures DeploysStably(m, hasWorkers) <==> IsMountPath(m) || NoMatch(PATH, m + "/a/a")
  {
    if Settles(m) {
      forall content
        ensures Process(Process(content, m, hasWorkers), m, hasWorkers) == Process(content, m, hasWorkers)
      {
        ProcessIdempotent(content, m, hasWorkers);
      }
    } else if hasWorkers {
      var t := UnsettledText(m);
      RewriteAddsNoDollar(m, t);
      DeployedOnce(m, t, true);
      DeployedOnce(m, Rewrite(PATH, m, t), true);
      assert Process(Process(t, m, true), m, true) != Process(t, m, true);
    } else {
      UnstableWithoutWorkers(m);
    }
  }

  /** A mount path that is too short swallows a directory with the second deployment. */
  lemma ShallowMountLosesDirectory(hasWorkers: bool)
    ensures Process("/mnt/a/b/c", "/mnt/data", hasWorkers) == "/mnt/data/c"
    ensures Process("/mnt/data/c", "/mnt/data", hasWorkers) == "/mnt/data"
  {
    PathLanguage("/mnt/a/b", "a", "b");
    DeployedHead("/mnt/data", "/mnt/a/b", "/c", hasWorkers);
    assert "/mnt/a/b" + "/c" == "/mnt/a/b/c" && "/mnt/data" + "/c" == "/mnt/data/c";
    PathLanguage("/mnt/data/c", "data", "c");
    DeployedHead("/mnt/data", "/mnt/data/c", "", hasWorkers);
    assert "/mnt/data/c" + "" == "/mnt/data/c" && "/mnt/data" + "" == "/mnt/data";
  }

  lemma DeployedHead(m: string, x: string, rest: string, hasWorkers: bool)
    requires m != "" && IsMountPath(x) && '$' !in rest && |rest| < 8 && (rest == "" || !In(NameChar, rest[0]))
    requires '=' !in m && '=' !in rest
    ensures Process(x + rest, m, hasWorkers) == m + rest
  {
    MountPathFacts(x);
    OnlyHeadReplaced(m, x, rest);
    DeployedOnce(m, x + rest, hasWorkers);
    NothingCounted(Equal, m + rest);
    RoleNeedsEquals(m + rest);
    NoMatchIsNone(ROLE, m + rest);
    RewriteFixes(ROLE, MANAGER_ROLE, m + rest);
  }
}
