/**
 * Mount paths that contain a storage path without being one: service files grow
 * with every deployment.
 */
module MountGrowth {
  import opened Prelude
  import opened Pattern
  import opened ServiceFile
  import opened SaveBack
  import opened TextCount
  import opened MountPaths

  /** An absolute mount path that contains a path match but is none, such as `/mnt/a/b/c` or `/srv/mnt/a/b`. */
  predicate Deeper(m: string) {
    m != "" && m[0] == '/' && '$' !in m && !NoMatch(PATH, m) && !IsMountPath(m)
  }

  // ---------------------------------------------------------------- matches come back

  lemma {:induction false} MatchStays(w: string, v: string)
    requires !NoMatch(PATH, w)
    ensures !NoMatch(PATH, w + v)
    decreases |w|
  {
    if Starts(PATH, w) {
      FoundStaysFound(0, w, v);
      NeverEmpty(w + v);
    } else {
      assert (w + v)[1..] == w[1..] + v;
      MatchStays(w[1..], v);
    }
  }

  lemma {:induction false} MatchReturns(m: string, t: string)
    requires !NoMatch(PATH, m) && !NoMatch(PATH, t)
    ensures !NoMatch(PATH, Rewrite(PATH, m, t))
    decreases |t|
  {
    if Starts(PATH, t) {
      MatchStays(m, Rewrite(PATH, m, t[Match(PATH, t).value..]));
    } else {
      MatchReturns(m, t[1..]);
      assert Rewrite(PATH, m, t)[1..] == Rewrite(PATH, m, t[1..]);
    }
  }

  lemma {:induction false} MatchHasSolid(t: string)
    requires !NoMatch(PATH, t)
    ensures Count(Solid, t) >= 3
    decreases |t|
  {
    if Starts(PATH, t) {
      CountSplit(Solid, t, Match(PATH, t).value);
      MatchCounts(t);
    } else {
      MatchHasSolid(t[1..]);
    }
  }

  // ---------------------------------------------------------------- a path, and then only names and white space

  /** The mount path is a storage path, white space, and perhaps more, but nothing solid. */
  predicate Trailing(m: string) { Starts(PATH, m) && Match(PATH, m).value < |m| && Count(Solid, m) == 3 }

  function Head(m: string): string
    requires Starts(PATH, m)
  {
    m[..Match(PATH, m).value]
  }

  function Trail(m: string): string
    requires Starts(PATH, m)
  {
    m[Match(PATH, m).value..]
  }

  /** Every such mount path that has nothing solid to spare has this form. */
  lemma DeeperOrTrailing(m: string)
    requires Deeper(m)
    ensures Count(Solid, m) > 3 || Trailing(m)
  {
    MatchHasSolid(m);
    if !Starts(PATH, m) { MatchHasSolid(m[1..]); }
  }

  lemma TrailFacts(m: string)
    requires Trailing(m)
    ensures m == Head(m) + Trail(m) && IsMountPath(Head(m)) && Count(Solid, Trail(m)) == 0
    ensures '/' !in Trail(m) && In(Space, Trail(m)[0]) && !In(NameChar, Trail(m)[0])
  {
    CountSplit(Solid, m, Match(PATH, m).value);
    MatchCounts(m);
    EqualUnderSolid(Trail(m));
    PrefixStillMatches(0, m, Match(PATH, m).value);
    MatchIsGreedy(0, m);
  }

  /** After rewriting to such a mount path every path match is its head. */
  lemma {:induction false} HeadsAreLeft(m: string, t: string)
    requires Trailing(m)
    ensures OnlyMatch(Head(m), Rewrite(PATH, m, t))
    decreases |t|
  {
    if t != "" {
      var x, u := Head(m), Rewrite(PATH, m, t);
      TrailFacts(m);
      MountPathFacts(x);
      if Starts(PATH, t) {
        var rest := Rewrite(PATH, m, t[Match(PATH, t).value..]);
        HeadsAreLeft(m, t[Match(PATH, t).value..]);
        var tail := Trail(m) + rest;
        assert u == x + tail && tail[0] == Trail(m)[0];
        MountPathExtent(0, x, tail);
        OnlyMatchIsAfter(x, rest);
        SlashFree(x, Trail(m), rest);
        OnlyMatchIsAfter(x, tail);
        assert u[..|x|] == x && u[|x|..] == tail;
        OnlyMatchStep(x, u);
      } else {
        HeadsAreLeft(m, t[1..]);
        assert u[1..] == Rewrite(PATH, m, t[1..]);
        assert m[0] == x[0];
        PathOffersNothing(m);
        RewriteFindsNoMore(PATH, 1, PATH, m, 1, t[1..]);
        assert !Starts(PATH, u);
        OnlyMatchStep(x, u);
      }
    }
  }

  // ---------------------------------------------------------------- white space behind paths makes no role

  /** What a role match that has begun before sees of the rewritten text. */
  lemma {:induction false} RoleFindsNoMore(m: string, i: nat, w: string)
    requires Trailing(m) && 0 < i <= |ROLE|
    ensures MatchFrom(ROLE, i, Rewrite(PATH, m, w)).Some? ==> MatchFrom(ROLE, i, w).Some?
    decreases |w|, |ROLE| - i
  {
    if w == "" || i == |ROLE| {
    } else if Starts(PATH, w) {
      TrailFacts(m);
      MountPathFacts(Head(m));
      assert Rewrite(PATH, m, w)[0] == '/';
      NoSlashInRole(i, Rewrite(PATH, m, w));
    } else {
      var u := Rewrite(PATH, m, w);
      assert u[0] == w[0] && u[1..] == Rewrite(PATH, m, w[1..]);
      if In(ROLE[i].cls, w[0]) {
        RoleFindsNoMore(m, if ROLE[i].One? then i + 1 else i, w[1..]);
      } else if ROLE[i].Many? {
        RoleFindsNoMore(m, i + 1, w);
      }
    }
  }

  lemma {:induction false} NoSlashInRole(i: nat, s: string)
    requires i < |ROLE| && s != "" && s[0] == '/'
    ensures MatchFrom(ROLE, i, s).None?
    decreases |ROLE| - i
  {
    RoleElemNotSlash(i);
    if ROLE[i].Many? {
      LastIsOne();
      NoSlashInRole(i + 1, s);
    }
  }

  lemma LastIsOne()
    ensures |ROLE| == 19 && ROLE[18].One?
  {
  }

  lemma RoleClasses(i: nat)
    requires i < |ROLE|
    ensures ROLE[i].Many? ==> ROLE[i].cls == Space && i < 18
    ensures ROLE[i].One? ==> !exists c :: In(Space, c) && In(ROLE[i].cls, c)
  {
  }

  /** White space in front helps a role match nowhere. */
  lemma {:induction false} SpaceHelpsNoRole(i: nat, gap: string, v: string)
    requires 0 < i <= |ROLE| && gap != "" && forall c :: c in gap ==> In(Space, c)
    requires MatchFrom(ROLE, i, gap + v).Some?
    ensures MatchFrom(ROLE, i, v).Some?
    decreases |gap|, |ROLE| - i
  {
    if i < |ROLE| {
      assert gap[0] in gap && (gap + v)[0] == gap[0] && (gap + v)[1..] == gap[1..] + v;
      RoleClasses(i);
      if gap[1..] == "" {
        assert gap[1..] + v == v;
      } else {
        SpaceHelpsNoRole(i, gap[1..], v);
      }
    }
  }

  /** Nor does it between a text and what follows. */
  lemma {:induction false} GapHelpsNoRole(m: string, i: nat, y: string, w: string)
    requires Trailing(m) && (forall c :: c in Trail(m) ==> In(Space, c))
    requires i <= |ROLE| && (i > 0 || y != "")
    requires MatchFrom(ROLE, i, y + (Trail(m) + Rewrite(PATH, m, w))).Some?
    ensures MatchFrom(ROLE, i, y + w).Some?
    decreases |y|, |ROLE| - i
  {
    var v := Trail(m) + Rewrite(PATH, m, w);
    if y == "" {
      assert y + v == v && y + w == w;
      SpaceHelpsNoRole(i, Trail(m), Rewrite(PATH, m, w));
      RoleFindsNoMore(m, i, w);
    } else if i < |ROLE| {
      assert (y + v)[0] == y[0] && (y + v)[1..] == y[1..] + v;
      assert (y + w)[0] == y[0] && (y + w)[1..] == y[1..] + w;
      if In(ROLE[i].cls, y[0]) {
        GapHelpsNoRole(m, if ROLE[i].One? then i + 1 else i, y[1..], w);
      } else {
        GapHelpsNoRole(m, i + 1, y, w);
      }
    }
  }

  lemma {:induction false} GapMakesNoRole(m: string, y: string, w: string)
    requires Trailing(m) && (forall c :: c in Trail(m) ==> In(Space, c))
    requires NoMatch(ROLE, y + w) && NoMatch(ROLE, Rewrite(PATH, m, w))
    ensures NoMatch(ROLE, y + (Trail(m) + Rewrite(PATH, m, w)))
    decreases |y|
  {
    var v := Trail(m) + Rewrite(PATH, m, w);
    if y == "" {
      assert y + v == v;
      SkipText(ROLE, Trail(m), Rewrite(PATH, m, w));
    } else {
      assert (y + v)[1..] == y[1..] + v && (y + w)[1..] == y[1..] + w;
      GapMakesNoRole(m, y[1..], w);
      if Starts(ROLE, y + v) {
        GapHelpsNoRole(m, 0, y, w);
        RoleNeverEmpty(y + w);
      }
    }
  }

  lemma RoleNeverEmpty(s: string)
    requires MatchFrom(ROLE, 0, s).Some?
    ensures Starts(ROLE, s)
  {
  }

  lemma NoRoleBehindHead(m: string, w: string, k: nat)
    requires Trailing(m) && (forall c :: c in Trail(m) ==> In(Space, c))
    requires Starts(PATH, w) && Match(PATH, w) == Some(k) && w[..k] == Head(m)
    requires NoMatch(ROLE, w) && NoMatch(ROLE, Rewrite(PATH, m, w[k..]))
    ensures NoMatch(ROLE, Rewrite(PATH, m, w))
  {
    var rest := Rewrite(PATH, m, w[k..]);
    assert w == w[..k] + w[k..];
    GapMakesNoRole(m, w[..k], w[k..]);
    assert m == Head(m) + Trail(m);
    assert m + rest == Head(m) + (Trail(m) + rest);
  }

  /** So rewriting paths to such a mount path makes no role constraint. */
  lemma {:induction false} SpacesMakeNoRole(m: string, w: string)
    requires Trailing(m) && (forall c :: c in Trail(m) ==> In(Space, c))
    requires OnlyMatch(Head(m), w) && NoMatch(ROLE, w)
    ensures NoMatch(ROLE, Rewrite(PATH, m, w))
    decreases |w|
  {
    if w != "" {
      OnlyMatchStep(Head(m), w);
      if Starts(PATH, w) {
        var k := Match(PATH, w).value;
        DropText(ROLE, w, k);
        SpacesMakeNoRole(m, w[k..]);
        NoRoleBehindHead(m, w, k);
      } else {
        SpacesMakeNoRole(m, w[1..]);
        var u := Rewrite(PATH, m, w);
        assert u[0] == w[0] && u[1..] == Rewrite(PATH, m, w[1..]);
        if Starts(ROLE, u) {
          RoleFindsNoMore(m, 1, w[1..]);
          RoleNeverEmpty(w);
        }
      }
    }
  }

  // ---------------------------------------------------------------- growth

  /**
   * What grows: solid characters; if the mount path has none to spare, then all but
   * white space; or else everything.
   */
  function Measure(m: string): Kind {
    if Count(Solid, m) > 3 then Solid
    else if Starts(PATH, m) && Count(Black, m) > |Head(m)| then Black
    else Any
  }

  /** What the first deployment leaves, and every later one keeps. */
  predicate Settled(m: string, w: string, hasWorkers: bool) {
    && !NoMatch(PATH, w) && NoMatch(VARIABLE, w)
    && (Trailing(m) ==> OnlyMatch(Head(m), w))
    && (!hasWorkers ==> NoMatch(ROLE, w))
  }

  lemma DeploymentSettles(m: string, t: string, hasWorkers: bool)
    requires Deeper(m) && !NoMatch(PATH, Rewrite(VARIABLE, m, t))
    ensures Settled(m, Process(t, m, hasWorkers), hasWorkers)
  {
    var v := Rewrite(VARIABLE, m, t);
    var u := Rewrite(PATH, m, v);
    NoVariableLeft(t, m);
    MatchReturns(m, v);
    if Trailing(m) { HeadsAreLeft(m, v); }
    if !hasWorkers {
      PlacementKeepsNoMatch(u);
      PlacedHasNoVariable(u);
      PlacedHasNoRole(u);
      if Trailing(m) {
        OnlyMatchIsAfter(Head(m), u);
        PlacementKeepsOnlyMatch(0, Head(m), u);
        OnlyMatchIsAfter(Head(m), Placed(u));
      }
    }
  }

  /** One more deployment: the measure grows. */
  lemma DeploymentGrows(m: string, w: string, hasWorkers: bool)
    requires Deeper(m) && Settled(m, w, hasWorkers)
    ensures Count(Measure(m), Process(w, m, hasWorkers)) > Count(Measure(m), w)
    ensures Rewrite(VARIABLE, m, w) == w
  {
    NoMatchIsNone(VARIABLE, w);
    RewriteFixes(VARIABLE, m, w);
    var u := Rewrite(PATH, m, w);
    DeeperOrTrailing(m);
    if Count(Solid, m) > 3 {
      AllMatchesCount(w);
      PassChangesCount(Solid, m, w, 3);
      PlacementCounts(Solid, u);
    } else {
      var kind := Measure(m);
      TrailFacts(m);
      CountConcat(kind, Head(m), Trail(m));
      HeadCount(m);
      CountFits(Any, m);
      CountFits(Any, Head(m));
      PassChangesCount(kind, m, w, Count(kind, Head(m)));
      if kind == Black {
        PlacementCounts(Black, u);
      } else if !hasWorkers {
        BlankTrail(m);
        SpacesMakeNoRole(m, w);
        NoMatchIsNone(ROLE, u);
        RewriteFixes(ROLE, MANAGER_ROLE, u);
      }
    }
  }

  lemma HeadCount(m: string)
    requires Starts(PATH, m)
    ensures Count(Black, Head(m)) == |Head(m)|
  {
    MatchCounts(m);
  }

  lemma BlankTrail(m: string)
    requires Trailing(m) && Count(Black, m) <= |Head(m)|
    ensures forall c :: c in Trail(m) ==> In(Space, c)
  {
    TrailFacts(m);
    HeadCount(m);
    CountConcat(Black, Head(m), Trail(m));
    NoneMeansBlank(Trail(m));
  }

  lemma {:induction false} NoneMeansBlank(t: string)
    requires Count(Black, t) == 0
    ensures forall c :: c in t ==> In(Space, c)
  {
    if t != "" { NoneMeansBlank(t[1..]); }
  }

  /** The file after `n` deployments. */
  function Deployed(content: string, m: string, hasWorkers: bool, n: nat): string {
    if n == 0 then content else Process(Deployed(content, m, hasWorkers, n - 1), m, hasWorkers)
  }

  lemma {:induction false} AlwaysSettled(content: string, m: string, hasWorkers: bool, n: nat)
    requires Deeper(m) && !NoMatch(PATH, Rewrite(VARIABLE, m, content))
    ensures var w := Deployed(content, m, hasWorkers, n + 1);
      Settled(m, w, hasWorkers) && Count(Measure(m), w) > n
  {
    if n == 0 {
      assert Deployed(content, m, hasWorkers, 0) == content;
      DeploymentSettles(m, content, hasWorkers);
      HasSomething(m, Deployed(content, m, hasWorkers, 1));
    } else {
      AlwaysSettled(content, m, hasWorkers, n - 1);
      var w := Deployed(content, m, hasWorkers, n);
      DeploymentGrows(m, w, hasWorkers);
      DeploymentSettles(m, w, hasWorkers);
    }
  }

  lemma {:induction false} MoreBlackThanSolid(t: string)
    ensures Count(Solid, t) <= Count(Black, t) <= Count(Any, t)
  {
    if t != "" { MoreBlackThanSolid(t[1..]); }
  }

  lemma HasSomething(m: string, w: string)
    requires !NoMatch(PATH, w)
    ensures Count(Measure(m), w) > 0
  {
    MatchHasSolid(w);
    MoreBlackThanSolid(w);
  }

  /**
   * With such a mount path every service file that mentions a storage path, once its
   * variables are filled in, grows with each deployment without end, with dedicated
   * workers and without.
   */
  lemma DeeperMountGrows(content: string, m: string, hasWorkers: bool, n: nat)
    requires Deeper(m) && !NoMatch(PATH, Rewrite(VARIABLE, m, content))
    ensures var now, next := Deployed(content, m, hasWorkers, n + 1), Deployed(content, m, hasWorkers, n + 2);
      Count(Measure(m), next) > Count(Measure(m), now) > n && |now| > n && now != next
  {
    AlwaysSettled(content, m, hasWorkers, n);
    var now := Deployed(content, m, hasWorkers, n + 1);
    DeploymentGrows(m, now, hasWorkers);
    CountFits(Measure(m), now);
  }
}
