/**
 * Counting characters of a text, and what the two rewritings do to the counts.
 * They measure how a service file changes from one deployment to the next.
 */
module TextCount {
  import opened Prelude
  import opened Pattern
  import opened ServiceFile
  import opened SaveBack

  /** All characters, those that are not white space, those that are in no name either, or equals signs. */
  datatype Kind = Any | Black | Solid | Equal

  predicate Counted(kind: Kind, c: char) {
    match kind
    case Any => true
    case Black => !In(Space, c)
    case Solid => !In(Space, c) && !In(NameChar, c)
    case Equal => c == '='
  }

  function Count(kind: Kind, t: string): nat {
    if t == "" then 0 else (if Counted(kind, t[0]) then 1 else 0) + Count(kind, t[1..])
  }

  lemma {:induction false} CountConcat(kind: Kind, a: string, b: string)
    ensures Count(kind, a + b) == Count(kind, a) + Count(kind, b)
    decreases |a|
  {
    if a == "" {
      assert a + b == b;
    } else {
      assert (a + b)[0] == a[0] && (a + b)[1..] == a[1..] + b;
      CountConcat(kind, a[1..], b);
    }
  }

  lemma CountSplit(kind: Kind, t: string, k: nat)
    requires k <= |t|
    ensures Count(kind, t) == Count(kind, t[..k]) + Count(kind, t[k..])
  {
    assert t == t[..k] + t[k..];
    CountConcat(kind, t[..k], t[k..]);
  }

  lemma {:induction false} CountFits(kind: Kind, t: string)
    ensures Count(kind, t) <= |t| && (kind == Any ==> Count(kind, t) == |t|)
  {
    if t != "" { CountFits(kind, t[1..]); }
  }

  lemma {:induction false} NothingCounted(kind: Kind, t: string)
    requires forall c :: c in t ==> !Counted(kind, c)
    ensures Count(kind, t) == 0
  {
    if t != "" {
      assert t[0] in t;
      NothingCounted(kind, t[1..]);
    }
  }

  lemma {:induction false} EverythingCounted(kind: Kind, t: string)
    requires forall c :: c in t ==> Counted(kind, c)
    ensures Count(kind, t) == |t|
  {
    if t != "" {
      assert t[0] in t;
      EverythingCounted(kind, t[1..]);
    }
  }

  /** Slashes and equals signs are both solid. */
  lemma {:induction false} EqualUnderSolid(t: string)
    ensures Count(Equal, t) + (if '/' in t then 1 else 0) <= Count(Solid, t)
  {
    if t != "" { EqualUnderSolid(t[1..]); }
  }

  // ---------------------------------------------------------------- path matches

  /** A path match has exactly its three slashes of solid characters. */
  lemma {:induction false} MatchSolid(i: nat, s: string)
    requires i <= |PATH| && MatchFrom(PATH, i, s).Some?
    ensures var k := MatchFrom(PATH, i, s).value;
      Count(Solid, s[..k]) == (if i == 0 then 3 else if i < 5 then 2 else if i < 8 then 1 else 0)
    decreases |s|, |PATH| - i
  {
    if i < |PATH| {
      var k := MatchFrom(PATH, i, s).value;
      if s != "" && In(PATH[i].cls, s[0]) {
        MatchSolid(if PATH[i].One? then i + 1 else i, s[1..]);
        assert s[..k][1..] == s[1..][..k - 1] && s[..k][0] == s[0];
        ElementSolid(i, s[0]);
      } else {
        MatchSolid(i + 1, s);
      }
    }
  }

  lemma ElementSolid(i: nat, c: char)
    requires i < |PATH| && In(PATH[i].cls, c)
    ensures Counted(Solid, c) <==> i in {0, 4, 7}
  {
  }

  lemma MatchCounts(s: string)
    requires Starts(PATH, s)
    ensures var x := s[..Match(PATH, s).value];
      Count(Solid, x) == 3 && Count(Equal, x) == 0 && Count(Black, x) == |x|
  {
    MatchSolid(0, s);
    MatchChars(0, s);
    NothingCounted(Equal, s[..Match(PATH, s).value]);
    EverythingCounted(Black, s[..Match(PATH, s).value]);
  }

  lemma {:induction false} AllMatchesCount(t: string)
    ensures forall x :: x in AllMatches(PATH, t) ==> Count(Solid, x) == 3 && Count(Equal, x) == 0
    decreases |t|
  {
    if t != "" {
      if Starts(PATH, t) {
        MatchCounts(t);
        AllMatchesCount(t[Match(PATH, t).value..]);
      } else {
        AllMatchesCount(t[1..]);
      }
    }
  }

  predicate EachCounts(kind: Kind, xs: seq<string>, c: nat) { forall x :: x in xs ==> Count(kind, x) == c }

  lemma OneMore(n: int, d: int)
    ensures (n + 1) * d == n * d + d
  {
  }

  /** Every match brings in what the mount path has beyond it. */
  lemma {:induction false} PassCounts(kind: Kind, m: string, t: string, c: nat)
    requires EachCounts(kind, AllMatches(PATH, t), c)
    ensures Count(kind, Rewrite(PATH, m, t)) == Count(kind, t) + |AllMatches(PATH, t)| * (Count(kind, m) - c)
    decreases |t|
  {
    if t != "" {
      EachStep(kind, t, c);
      if Starts(PATH, t) {
        var rest := t[Match(PATH, t).value..];
        PassCounts(kind, m, rest, c);
        PassHead(kind, m, t, rest);
        OneMore(|AllMatches(PATH, rest)|, Count(kind, m) - c);
      } else {
        PassCounts(kind, m, t[1..], c);
        assert Rewrite(PATH, m, t)[1..] == Rewrite(PATH, m, t[1..]);
      }
    }
  }

  lemma PassHead(kind: Kind, m: string, t: string, rest: string)
    requires Starts(PATH, t) && rest == t[Match(PATH, t).value..]
    ensures Count(kind, Rewrite(PATH, m, t)) == Count(kind, m) + Count(kind, Rewrite(PATH, m, rest))
    ensures Count(kind, t) == Count(kind, t[..Match(PATH, t).value]) + Count(kind, rest)
    ensures |AllMatches(PATH, t)| == |AllMatches(PATH, rest)| + 1
  {
    CountConcat(kind, m, Rewrite(PATH, m, rest));
    CountSplit(kind, t, Match(PATH, t).value);
  }

  lemma EachStep(kind: Kind, t: string, c: nat)
    requires t != "" && EachCounts(kind, AllMatches(PATH, t), c)
    ensures Starts(PATH, t) ==> var k := Match(PATH, t).value;
      Count(kind, t[..k]) == c && EachCounts(kind, AllMatches(PATH, t[k..]), c)
    ensures !Starts(PATH, t) ==> EachCounts(kind, AllMatches(PATH, t[1..]), c)
  {
    if Starts(PATH, t) {
      var k := Match(PATH, t).value;
      var tail := AllMatches(PATH, t[k..]);
      assert AllMatches(PATH, t) == [t[..k]] + tail;
      assert t[..k] in AllMatches(PATH, t) && forall x :: x in tail ==> x in AllMatches(PATH, t);
    }
  }

  /** With a mount path of another count, a pass over a text with a match changes the count, up or down. */
  lemma PassChangesCount(kind: Kind, m: string, t: string, c: nat)
    requires EachCounts(kind, AllMatches(PATH, t), c) && !NoMatch(PATH, t)
    ensures Count(kind, m) > c ==> Count(kind, Rewrite(PATH, m, t)) > Count(kind, t)
    ensures Count(kind, m) < c ==> Count(kind, Rewrite(PATH, m, t)) < Count(kind, t)
  {
    PassCounts(kind, m, t, c);
    NoMatchIsNone(PATH, t);
    SignOfProduct(|AllMatches(PATH, t)|, Count(kind, m) - c);
  }

  lemma SignOfProduct(n: int, d: int)
    requires n > 0
    ensures d > 0 ==> n * d > 0
    ensures d < 0 ==> n * d < 0
  {
  }

  // ---------------------------------------------------------------- role matches

  /** Elements that are single characters or repeated white space. */
  predicate Spaced(p: Pat) { forall i :: 0 <= i < |p| ==> if p[i].One? then p[i].cls.Is? else p[i].cls == Space }

  /** The counted characters of a match of such a pattern from element `i` on; white space is free. */
  function Fixed(kind: Kind, p: Pat, i: nat): nat
    requires i <= |p|
    decreases |p| - i
  {
    if i == |p| then 0
    else (if p[i].One? && p[i].cls.Is? && Counted(kind, p[i].cls.c) then 1 else 0) + Fixed(kind, p, i + 1)
  }

  lemma {:induction false} FixedCount(kind: Kind, p: Pat, i: nat, s: string)
    requires kind != Any && Spaced(p) && i <= |p| && MatchFrom(p, i, s).Some?
    ensures Count(kind, s[..MatchFrom(p, i, s).value]) == Fixed(kind, p, i)
    decreases |s|, |p| - i
  {
    if i < |p| {
      var k := MatchFrom(p, i, s).value;
      if s != "" && In(p[i].cls, s[0]) {
        FixedCount(kind, p, if p[i].One? then i + 1 else i, s[1..]);
        assert s[..k][1..] == s[1..][..k - 1] && s[..k][0] == s[0];
      } else {
        FixedCount(kind, p, i + 1, s);
      }
    }
  }

  lemma {:induction false} FixedSpelled(kind: Kind, p: Pat, i: nat, w: string)
    requires Spells(p, i, w)
    ensures Fixed(kind, p, i) == Count(kind, w) + Fixed(kind, p, i + |w|)
    decreases |w|
  {
    if w != "" {
      assert p[i + 0] == One(Is(w[0]));
      assert Spells(p, i + 1, w[1..]) by {
        forall j | 0 <= j < |w[1..]| ensures p[i + 1 + j] == One(Is(w[1..][j])) {
          assert p[i + (j + 1)] == One(Is(w[j + 1]));
        }
      }
      FixedSpelled(kind, p, i + 1, w[1..]);
    }
  }

  /** Three words with white space between them. */
  ghost predicate Shaped(p: Pat, a: string, b: string, c: string) {
    && Spaced(p) && |p| == |a| + 1 + |b| + 1 + |c|
    && Spells(p, 0, a) && p[|a|].Many?
    && Spells(p, |a| + 1, b) && p[|a| + 1 + |b|].Many?
    && Spells(p, |a| + |b| + 2, c)
  }

  lemma ShapedCount(kind: Kind, p: Pat, a: string, b: string, c: string, s: string)
    requires kind != Any && Shaped(p, a, b, c) && Match(p, s).Some?
    ensures Count(kind, s[..Match(p, s).value]) == Count(kind, a) + Count(kind, b) + Count(kind, c)
  {
    FixedCount(kind, p, 0, s);
    FixedShaped(kind, p, a, b, c);
  }

  lemma FixedShaped(kind: Kind, p: Pat, a: string, b: string, c: string)
    requires Shaped(p, a, b, c)
    ensures Fixed(kind, p, 0) == Count(kind, a) + Count(kind, b) + Count(kind, c)
  {
    var j := |a| + 1;
    var k := j + |b| + 1;
    FixedWord(kind, p, 0, a);
    FixedWord(kind, p, j, b);
    FixedSpelled(kind, p, k, c);
    FixedAtEnd(kind, p);
  }

  lemma FixedAtEnd(kind: Kind, p: Pat)
    ensures Fixed(kind, p, |p|) == 0
  {
  }

  lemma FixedWord(kind: Kind, p: Pat, i: nat, w: string)
    requires Spells(p, i, w) && i + |w| < |p| && p[i + |w|].Many?
    ensures Fixed(kind, p, i) == Count(kind, w) + Fixed(kind, p, i + |w| + 1)
  {
    FixedSpelled(kind, p, i, w);
    SpaceIsFree(kind, p, i + |w|);
  }

  lemma SpaceIsFree(kind: Kind, p: Pat, i: nat)
    requires i < |p| && p[i].Many?
    ensures Fixed(kind, p, i) == Fixed(kind, p, i + 1)
  {
  }

  /** A match counts no more than what replaces it, or the same. */
  ghost predicate CountsUpTo(kind: Kind, p: Pat, r: string, same: bool) {
    forall s :: Starts(p, s) ==>
      var n := Count(kind, s[..Match(p, s).value]); n <= Count(kind, r) && (same ==> n == Count(kind, r))
  }

  lemma LastWordReplaced(kind: Kind, p: Pat, a: string, b: string, c: string, d: string, r: string, same: bool)
    requires kind != Any && Shaped(p, a, b, c) && r == a + (b + d)
    requires Count(kind, c) <= Count(kind, d) && (same ==> Count(kind, c) == Count(kind, d))
    ensures CountsUpTo(kind, p, r, same)
  {
    CountConcat(kind, a, b + d);
    CountConcat(kind, b, d);
    forall s | Starts(p, s)
      ensures var n := Count(kind, s[..Match(p, s).value]); n <= Count(kind, r) && (same ==> n == Count(kind, r))
    {
      ShapedCount(kind, p, a, b, c, s);
    }
  }

  lemma {:induction false} RewriteCounts(kind: Kind, p: Pat, r: string, u: string, same: bool)
    requires CountsUpTo(kind, p, r, same)
    ensures Count(kind, Rewrite(p, r, u)) >= Count(kind, u)
    ensures same ==> Count(kind, Rewrite(p, r, u)) == Count(kind, u)
    decreases |u|
  {
    if u != "" {
      if Starts(p, u) {
        var k := Match(p, u).value;
        RewriteCounts(kind, p, r, u[k..], same);
        CountSplit(kind, u, k);
        CountConcat(kind, r, Rewrite(p, r, u[k..]));
      } else {
        RewriteCounts(kind, p, r, u[1..], same);
        assert Rewrite(p, r, u)[1..] == Rewrite(p, r, u[1..]);
      }
    }
  }

  const EQUALS := "=="
  const WORKER := "worker"
  const MANAGER := "manager"

  lemma RoleIsShaped()
    ensures Shaped(ROLE, BEFORE_EQUALS, EQUALS, WORKER)
    ensures MANAGER_ROLE == BEFORE_EQUALS + (EQUALS + MANAGER)
  {
    RoleIsSpaced();
    RoleName();
    RoleEquals();
    RoleWorker();
  }

  lemma RoleIsSpaced()
    ensures Spaced(ROLE) && |ROLE| == 19 && ROLE[9].Many? && ROLE[12].Many?
  {
  }

  lemma RoleName()
    ensures Spells(ROLE, 0, BEFORE_EQUALS)
  {
  }

  lemma RoleEquals()
    ensures Spells(ROLE, 10, EQUALS)
  {
  }

  lemma RoleWorker()
    ensures Spells(ROLE, 13, WORKER)
  {
  }

  lemma WorkerAndManager(kind: Kind)
    requires kind != Any
    ensures Count(kind, WORKER) <= Count(kind, MANAGER)
    ensures kind != Black ==> Count(kind, WORKER) == Count(kind, MANAGER)
  {
    CountFits(kind, WORKER);
    if kind == Black {
      EverythingCounted(Black, MANAGER);
    } else {
      NothingCounted(kind, WORKER);
      NothingCounted(kind, MANAGER);
    }
  }

  /** Placement keeps the solid characters, and takes nothing but white space away. */
  lemma PlacementCounts(kind: Kind, u: string)
    requires kind != Any
    ensures Count(kind, Placed(u)) >= Count(kind, u)
    ensures kind != Black ==> Count(kind, Placed(u)) == Count(kind, u)
  {
    RoleIsShaped();
    WorkerAndManager(kind);
    LastWordReplaced(kind, ROLE, BEFORE_EQUALS, EQUALS, WORKER, MANAGER, MANAGER_ROLE, kind != Black);
    RewriteCounts(kind, ROLE, MANAGER_ROLE, u, kind != Black);
  }

  lemma RoleHasEquals(s: string)
    requires Match(ROLE, s).Some?
    ensures Count(Equal, s[..Match(ROLE, s).value]) >= 2
  {
    RoleIsShaped();
    EverythingCounted(Equal, EQUALS);
    MiddleCounts(Equal, ROLE, BEFORE_EQUALS, EQUALS, WORKER, s);
  }

  lemma MiddleCounts(kind: Kind, p: Pat, a: string, b: string, c: string, s: string)
    requires kind != Any && Shaped(p, a, b, c) && Match(p, s).Some?
    ensures Count(kind, s[..Match(p, s).value]) >= Count(kind, b)
  {
    ShapedCount(kind, p, a, b, c, s);
  }

  /** A text with fewer than two equals signs has no role constraint. */
  lemma {:induction false} RoleNeedsEquals(u: string)
    requires Count(Equal, u) < 2
    ensures NoMatch(ROLE, u)
    decreases |u|
  {
    if u != "" {
      if Starts(ROLE, u) {
        RoleHasEquals(u);
        CountSplit(Equal, u, Match(ROLE, u).value);
      }
      RoleNeedsEquals(u[1..]);
    }
  }

  /** Placement neither adds nor removes the last path match. */
  lemma {:induction false} PlacementKeepsNoMatch(u: string)
    ensures NoMatch(PATH, Placed(u)) <==> NoMatch(PATH, u)
    decreases |u|
  {
    if u != "" {
      if Starts(ROLE, u) {
        var k := Match(ROLE, u).value;
        var y := RoleText(u);
        PlacementKeepsNoMatch(u[k..]);
        assert u == u[..k] + u[k..];
        SkipText(PATH, u[..k], u[k..]);
        SkipText(PATH, MANAGER_ROLE, Placed(u[k..]));
      } else {
        PlacementKeepsNoMatch(u[1..]);
        PlacementKeepsMatches(0, u);
        assert Placed(u)[1..] == Placed(u[1..]);
      }
    }
  }
}
