/**
 * What the rewriting of a service file means, said on texts: which patterns it
 * looks for, and that it keeps everything between their matches.
 */
module Rendering {
  import opened Prelude
  import opened Pattern
  import opened ServiceFile
  import opened SaveBack

  // ---------------------------------------------------------------- the patterns, in words

  predicate TypeText(s: string) {
    s != "" && forall c :: c in s ==> 'A' <= c <= 'Z' || 'a' <= c <= 'z' || '0' <= c <= '9' || c == '_' || c == '-'
  }

  predicate NameText(s: string) {
    s != "" && forall c :: c in s ==>
      'A' <= c <= 'Z' || 'a' <= c <= 'z' || '0' <= c <= '9' || c == '_' || c == '-' || c == '.'
  }

  predicate Blank(s: string) { forall c :: c in s ==> c as int in {9, 10, 12, 13, 32} }

  /** A storage path: `/mnt/<type>/<name>`. */
  ghost predicate StoragePath(s: string) {
    exists a, b :: TypeText(a) && NameText(b) && s == "/mnt/" + a + "/" + b
  }

  /** A worker constraint: with any white space around the equals signs. */
  ghost predicate WorkerConstraint(s: string) {
    exists x, y :: Blank(x) && Blank(y) && s == "node.role" + x + "==" + y + "worker"
  }

  lemma {:induction false} NamesToTheEnd(s: string)
    requires MatchFrom(PATH, 9, s) == Some(|s|)
    ensures forall c :: c in s ==> In(NameChar, c)
  {
    if s != "" && In(NameChar, s[0]) {
      NamesToTheEnd(s[1..]);
      assert forall c :: c in s ==> c == s[0] || c in s[1..];
    } else {
      assert MatchFrom(PATH, 9, s) == MatchFrom(PATH, 10, s);
    }
  }

  lemma {:induction false} TypeThenName(s: string) returns (a: string, b: string)
    requires MatchFrom(PATH, 6, s) == Some(|s|)
    ensures s == a + "/" + b && NameText(b) && forall c :: c in a ==> In(TypeChar, c)
  {
    if s != "" && In(TypeChar, s[0]) {
      a, b := TypeThenName(s[1..]);
      a := [s[0]] + a;
    } else {
      assert MatchFrom(PATH, 7, s) == Some(|s|) && s != "" && s[0] == '/';
      b := s[1..];
      assert MatchFrom(PATH, 8, b) == Some(|b|) && b != "" && In(NameChar, b[0]);
      assert MatchFrom(PATH, 9, b[1..]) == Some(|b[1..]|);
      NamesToTheEnd(b[1..]);
      assert forall c :: c in b ==> c == b[0] || c in b[1..];
      a := "";
    }
  }

  /** The path pattern accepts exactly the storage paths. */
  lemma PathPattern(s: string)
    ensures IsMountPath(s) <==> StoragePath(s)
  {
    if IsMountPath(s) {
      LiteralFound(PATH, 0, "/mnt/", s);
      LiteralStep(PATH, 0, "/mnt/", s);
      var t := s[5..];
      assert s == "/mnt/" + t && MatchFrom(PATH, 5, t) == Some(|t|);
      var a, b := TypeThenName(t[1..]);
      var whole := [t[0]] + a;
      assert t == whole + "/" + b && In(TypeChar, t[0]);
      assert TypeText(whole);
      assert s == "/mnt/" + whole + "/" + b;
    }
    if StoragePath(s) {
      var a, b :| TypeText(a) && NameText(b) && s == "/mnt/" + a + "/" + b;
      PathLanguage(s, a, b);
    }
  }

  lemma {:induction false} BlankRun(p: Pat, i: nat, x: string, z: string)
    requires i < |p| && p[i] == Many(Space) && Blank(x) && z != "" && !In(Space, z[0])
    ensures MatchFrom(p, i, x + z) == PlusN(MatchFrom(p, i + 1, z), |x|)
    decreases |x|
  {
    if x == "" {
      assert x + z == z;
    } else {
      assert x[0] in x && (x + z)[0] == x[0] && (x + z)[1..] == x[1..] + z;
      assert forall c :: c in x[1..] ==> c in x;
      BlankRun(p, i, x[1..], z);
    }
  }

  lemma {:induction false} BlanksFirst(i: nat, y: string) returns (x: string, z: string)
    requires i < |ROLE| && ROLE[i] == Many(Space) && MatchFrom(ROLE, i, y) == Some(|y|)
    ensures y == x + z && Blank(x) && MatchFrom(ROLE, i + 1, z) == Some(|z|)
    decreases |y|
  {
    if y != "" && In(Space, y[0]) {
      x, z := BlanksFirst(i, y[1..]);
      x := [y[0]] + x;
    } else {
      x, z := "", y;
    }
  }

  lemma RoleParts()
    ensures |ROLE| == 19 && ROLE[9] == Many(Space) && ROLE[12] == Many(Space)
    ensures Spells(ROLE, 0, "node.role") && Spells(ROLE, 10, "==") && Spells(ROLE, 13, "worker")
  {
  }

  lemma WordFirst(i: nat, w: string, s: string) returns (rest: string)
    requires Spells(ROLE, i, w) && MatchFrom(ROLE, i, s) == Some(|s|)
    ensures s == w + rest && MatchFrom(ROLE, i + |w|, rest) == Some(|rest|)
  {
    LiteralFound(ROLE, i, w, s);
    LiteralStep(ROLE, i, w, s);
    rest := s[|w|..];
  }

  lemma RoleIsConstraint(s: string)
    requires Match(ROLE, s) == Some(|s|)
    ensures WorkerConstraint(s)
  {
    RoleParts();
    var s1 := WordFirst(0, "node.role", s);
    var x, s2 := BlanksFirst(9, s1);
    var s3 := WordFirst(10, "==", s2);
    var y, s4 := BlanksFirst(12, s3);
    var s5 := WordFirst(13, "worker", s4);
    assert s5 == "";
    FiveParts("node.role", x, "==", y, "worker");
  }

  lemma FiveParts(a: string, x: string, b: string, y: string, c: string)
    ensures a + x + b + y + c == a + (x + (b + (y + (c + ""))))
    ensures a + x + b + y + c == a + (x + (b + (y + c)))
  {
  }

  /** The role pattern accepts exactly the worker constraints. */
  lemma RolePattern(s: string)
    ensures Match(ROLE, s) == Some(|s|) <==> WorkerConstraint(s)
  {
    if Match(ROLE, s) == Some(|s|) { RoleIsConstraint(s); }
    if WorkerConstraint(s) {
      var x, y :| Blank(x) && Blank(y) && s == "node.role" + x + "==" + y + "worker";
      FiveParts("node.role", x, "==", y, "worker");
      ConstraintMatches(x, y);
    }
  }

  lemma ConstraintMatches(x: string, y: string)
    requires Blank(x) && Blank(y)
    ensures var s := "node.role" + (x + ("==" + (y + "worker"))); Match(ROLE, s) == Some(|s|)
  {
    RoleParts();
    WordsMatch(ROLE, "node.role", x, "==", y, "worker");
  }

  /** A pattern of three words with white space between them matches them at any distance. */
  lemma WordsMatch(p: Pat, a: string, x: string, b: string, y: string, c: string)
    requires |p| == |a| + |b| + |c| + 2 && p[|a|] == Many(Space) && p[|a| + |b| + 1] == Many(Space)
    requires Spells(p, 0, a) && Spells(p, |a| + 1, b) && Spells(p, |a| + |b| + 2, c)
    requires Blank(x) && Blank(y) && b != "" && c != "" && !In(Space, b[0]) && !In(Space, c[0])
    ensures var s := a + (x + (b + (y + c))); Match(p, s) == Some(|s|)
  {
    WordEnds(p, |a| + |b| + 2, c);
    BlankRun(p, |a| + |b| + 1, y, c);
    WordThen(p, |a| + 1, b, y + c);
    BlankRun(p, |a|, x, b + (y + c));
    WordThen(p, 0, a, x + (b + (y + c)));
  }

  lemma WordThen(p: Pat, i: nat, w: string, rest: string)
    requires Spells(p, i, w)
    ensures MatchFrom(p, i, w + rest) == PlusN(MatchFrom(p, i + |w|, rest), |w|)
  {
    LiteralStep(p, i, w, w + rest);
    assert (w + rest)[|w|..] == rest;
  }

  lemma WordEnds(p: Pat, i: nat, w: string)
    requires Spells(p, i, w) && i + |w| == |p|
    ensures MatchFrom(p, i, w) == Some(|w|)
  {
    WordThen(p, i, w, "");
    assert w + "" == w;
  }

  // ---------------------------------------------------------------- variable references

  predicate OccursAt(sub: string, t: string, i: int) { 0 <= i <= |t| - |sub| && t[i..i + |sub|] == sub }

  ghost predicate Occurs(sub: string, t: string) { exists i :: OccursAt(sub, t, i) }

  /** A text whose first character comes nowhere else in it, so that no two occurrences overlap. */
  predicate Unbordered(ref: string) { ref != "" && forall j :: 0 < j < |ref| ==> ref[j] != ref[0] }

  /** Nothing of a reference stands in a text without one, nor across its end. */
  lemma NoneBefore(ref: string, v: string, rest: string, i: nat)
    requires Unbordered(ref) && !Occurs(ref, v) && i < |v| && (rest == "" || rest[0] == ref[0])
    ensures !(ref <= (v + rest)[i..])
  {
    var t := v + rest;
    assert i + |ref| <= |v| ==> t[i..][..|ref|] == v[i..i + |ref|];
    assert !OccursAt(ref, v, i);
    assert rest != "" ==> t[i..][|v| - i] == rest[0];
  }

  /** Every text is made of pieces without the reference, and references between them. */
  lemma {:induction false} ReferencePieces(ref: string, t: string) returns (vs: seq<string>)
    requires ref != ""
    ensures vs != [] && (forall v :: v in vs ==> !Occurs(ref, v)) && t == Join(vs, ref)
    decreases |t|
  {
    if i :| OccursAt(ref, t, i) {
      var k := FirstOccurrence(ref, t, i);
      var more := ReferencePieces(ref, t[k + |ref|..]);
      vs := [t[..k]] + more;
      assert vs[1..] == more;
      assert t == t[..k] + t[k..k + |ref|] + t[k + |ref|..];
    } else {
      vs := [t];
    }
  }

  lemma {:induction false} FirstOccurrence(ref: string, t: string, i: nat) returns (k: nat)
    requires ref != "" && OccursAt(ref, t, i)
    ensures OccursAt(ref, t, k) && !Occurs(ref, t[..k])
    decreases i
  {
    if j :| OccursAt(ref, t[..i], j) {
      assert t[..i][j..j + |ref|] == t[j..j + |ref|];
      k := FirstOccurrence(ref, t, j);
    } else {
      k := i;
    }
  }

  const REFERENCE := "${STORAGE_MOUNT_PATH}"

  lemma ReferenceSpelled()
    ensures Spells(VARIABLE, 0, REFERENCE) && |VARIABLE| == |REFERENCE| && Unbordered(REFERENCE)
  {
    assert |VARIABLE| == |VARIABLE_TEXT|;
    forall j | 0 <= j < |REFERENCE|
      ensures VARIABLE[0 + j] == One(Is(REFERENCE[j])) && (REFERENCE[j] == '$' <==> j == 0)
    {
      VariableElems(j);
    }
  }

  /** A pattern that spells a text out starts exactly where the text stands. */
  lemma SpelledStarts(p: Pat, ref: string, s: string)
    requires Spells(p, 0, ref) && |p| == |ref| && ref != ""
    ensures Starts(p, s) <==> ref <= s
    ensures ref <= s ==> Match(p, s) == Some(|ref|)
  {
    if Starts(p, s) { LiteralFound(p, 0, ref, s); }
    if ref <= s { LiteralStep(p, 0, ref, s); }
  }

  /** The first piece is passed over. */
  lemma PieceKept(p: Pat, ref: string, v: string, rest: string, value: string)
    requires Spells(p, 0, ref) && |p| == |ref| && Unbordered(ref)
    requires !Occurs(ref, v) && (rest == "" || rest[0] == ref[0])
    ensures Rewrite(p, value, v + rest) == v + Rewrite(p, value, rest)
  {
    var t := v + rest;
    forall i | 0 <= i < |v| ensures !Starts(p, t[i..]) {
      NoneBefore(ref, v, rest, i);
      SpelledStarts(p, ref, t[i..]);
    }
    PassOver(p, value, t, |v|);
    assert t[..|v|] == v && t[|v|..] == rest;
  }

  lemma ReferenceReplaced(p: Pat, ref: string, rest: string, value: string)
    requires Spells(p, 0, ref) && |p| == |ref| && ref != ""
    ensures Rewrite(p, value, ref + rest) == value + Rewrite(p, value, rest)
  {
    var t := ref + rest;
    SpelledStarts(p, ref, t);
    assert t[|ref|..] == rest;
  }

  lemma {:induction false} SpelledFilled(p: Pat, ref: string, vs: seq<string>, value: string)
    requires Spells(p, 0, ref) && |p| == |ref| && Unbordered(ref)
    requires vs != [] && forall v :: v in vs ==> !Occurs(ref, v)
    ensures Rewrite(p, value, Join(vs, ref)) == Join(vs, value)
    decreases |vs|
  {
    var v := vs[0];
    assert v in vs;
    if |vs| == 1 {
      PieceKept(p, ref, v, "", value);
      assert v + "" == v;
    } else {
      var tail := Join(vs[1..], ref);
      PieceKept(p, ref, v, ref + tail, value);
      ReferenceReplaced(p, ref, tail, value);
      assert v + ref + tail == v + (ref + tail);
      SpelledFilled(p, ref, vs[1..], value);
    }
  }

  /** Filling in the variable puts the value between the pieces that hold no reference. */
  lemma FilledText(vs: seq<string>, value: string)
    requires vs != [] && forall v :: v in vs ==> !Occurs(REFERENCE, v)
    ensures Rewrite(VARIABLE, value, Join(vs, REFERENCE)) == Join(vs, value)
  {
    ReferenceSpelled();
    SpelledFilled(VARIABLE, REFERENCE, vs, value);
  }

  // ---------------------------------------------------------------- the whole rewriting

  /**
   * What a service file becomes: the mount path replaces the references between the
   * pieces that hold none; then it replaces the leftmost longest storage paths; and
   * without dedicated workers `node.role==manager` replaces the worker constraints.
   * Nothing else is touched.
   */
  lemma ProcessedPieces(mount: string, vs: seq<string>, ps: seq<string>, paths: seq<string>,
                        qs: seq<string>, roles: seq<string>)
    requires mount != "" && vs != [] && forall v :: v in vs ==> !Occurs(REFERENCE, v)
    requires Splits(PATH, Join(vs, mount), ps, paths)
    requires Splits(ROLE, Join(ps, mount), qs, roles)
    ensures Process(Join(vs, REFERENCE), mount, true) == Join(ps, mount)
    ensures Process(Join(vs, REFERENCE), mount, false) == Join(qs, "node.role==manager")
  {
    FilledText(vs, mount);
    RewriteJoins(PATH, mount, Join(vs, mount), ps, paths);
    RewriteJoins(ROLE, MANAGER_ROLE, Join(ps, mount), qs, roles);
  }

  /** Without a mount path only the worker constraints are rewritten. */
  lemma ProcessedWithoutMount(content: string, qs: seq<string>, roles: seq<string>)
    requires Splits(ROLE, content, qs, roles)
    ensures Process(content, "", true) == content
    ensures Process(content, "", false) == Join(qs, "node.role==manager")
  {
    RewriteJoins(ROLE, MANAGER_ROLE, content, qs, roles);
  }

  /** One reference becomes the mount path, when nothing around it makes another path or constraint. */
  lemma ReferenceBecomesMount(a: string, b: string, mount: string, hasWorkers: bool)
    requires mount != "" && !Occurs(REFERENCE, a) && !Occurs(REFERENCE, b)
    requires OnlyMatch(mount, a + mount + b) && (hasWorkers || NoMatch(ROLE, a + mount + b))
    ensures Process(a + REFERENCE + b, mount, hasWorkers) == a + mount + b
  {
    var t := a + mount + b;
    assert Join([a, b], REFERENCE) == a + REFERENCE + b && Join([a, b], mount) == t by {
      assert [a, b][1..] == [b];
    }
    FilledText([a, b], mount);
    RewriteFixes(PATH, mount, t);
    NoMatchIsNone(ROLE, t);
    if !hasWorkers { RewriteFixes(ROLE, MANAGER_ROLE, t); }
  }
}
