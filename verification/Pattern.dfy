/**
 * Leftmost greedy pattern replacement for patterns that are sequences of
 * character classes, each taken once or any number of times.
 */
module Pattern {
  import opened Prelude

  datatype Class = Is(c: char) | TypeChar | NameChar | Space

  predicate IsAlnum(c: char) { 'A' <= c <= 'Z' || 'a' <= c <= 'z' || '0' <= c <= '9' }

  predicate In(cls: Class, c: char) {
    match cls
    case Is(d) => c == d
    case TypeChar => IsAlnum(c) || c == '_' || c == '-'
    case NameChar => IsAlnum(c) || c == '_' || c == '-' || c == '.'
    case Space => c == ' ' || c == '\t' || c == '\n' || c == '\r' || c as int == 12
  }

  datatype Elem = One(cls: Class) | Many(cls: Class)

  type Pat = seq<Elem>

  function Literal(s: string): Pat { seq(|s|, i requires 0 <= i < |s| => One(Is(s[i]))) }

  /** The language of `p` from element `i` on, read as a regular expression. */
  predicate Lang(p: Pat, i: nat, s: string)
    requires i <= |p|
    decreases |s|, |p| - i
  {
    if i == |p| then s == ""
    else match p[i]
      case One(cls) => s != "" && In(cls, s[0]) && Lang(p, i + 1, s[1..])
      case Many(cls) => Lang(p, i + 1, s) || (s != "" && In(cls, s[0]) && Lang(p, i, s[1..]))
  }

  /** The length of the greedy match of `p` from element `i` on, at the start of `s`. */
  function MatchFrom(p: Pat, i: nat, s: string): (k: Option<nat>)
    requires i <= |p|
    ensures k.Some? ==> k.value <= |s|
    decreases |s|, |p| - i
  {
    if i == |p| then Some(0)
    else match p[i]
      case One(cls) => if s != "" && In(cls, s[0]) then Plus1(MatchFrom(p, i + 1, s[1..])) else None
      case Many(cls) =>
        if s != "" && In(cls, s[0]) then Plus1(MatchFrom(p, i, s[1..])) else MatchFrom(p, i + 1, s)
  }

  function Plus1(k: Option<nat>): Option<nat> {
    match k case Some(n) => Some(n + 1) case None => None
  }

  function PlusN(k: Option<nat>, n: nat): Option<nat> {
    match k case Some(j) => Some(j + n) case None => None
  }

  /** Elements of `p` from `i` on that spell out `w`. */
  predicate Spells(p: Pat, i: nat, w: string) {
    i + |w| <= |p| && forall j :: 0 <= j < |w| ==> p[i + j] == One(Is(w[j]))
  }

  lemma {:induction false} LiteralStep(p: Pat, i: nat, w: string, s: string)
    requires Spells(p, i, w) && w <= s
    ensures MatchFrom(p, i, s) == PlusN(MatchFrom(p, i + |w|, s[|w|..]), |w|)
    decreases |w|
  {
    if w == "" {
      assert s[0..] == s;
    } else {
      assert p[i + 0] == One(Is(w[0]));
      assert Spells(p, i + 1, w[1..]) by {
        forall j | 0 <= j < |w[1..]| ensures p[i + 1 + j] == One(Is(w[1..][j])) {
          assert p[i + (j + 1)] == One(Is(w[j + 1]));
        }
      }
      LiteralStep(p, i + 1, w[1..], s[1..]);
      assert s[1..][|w| - 1..] == s[|w|..];
    }
  }

  lemma {:induction false} LiteralFound(p: Pat, i: nat, w: string, s: string)
    requires Spells(p, i, w) && MatchFrom(p, i, s).Some?
    ensures w <= s
    decreases |w|
  {
    if w != "" {
      assert p[i + 0] == One(Is(w[0]));
      assert Spells(p, i + 1, w[1..]) by {
        forall j | 0 <= j < |w[1..]| ensures p[i + 1 + j] == One(Is(w[1..][j])) {
          assert p[i + (j + 1)] == One(Is(w[j + 1]));
        }
      }
      LiteralFound(p, i + 1, w[1..], s[1..]);
      assert w == [w[0]] + w[1..] && s == [s[0]] + s[1..];
    }
  }

  function Match(p: Pat, s: string): Option<nat> { MatchFrom(p, 0, s) }

  predicate Disjoint(a: Class, b: Class) { forall c :: !(In(a, c) && In(b, c)) }

  /** No repetition can give back characters to what follows it. */
  ghost predicate Deterministic(p: Pat) {
    forall i :: 0 <= i < |p| && p[i].Many? && i + 1 < |p| ==> p[i + 1].One? && Disjoint(p[i].cls, p[i + 1].cls)
  }

  lemma {:induction false} MatchIsInLang(p: Pat, i: nat, s: string)
    requires i <= |p| && MatchFrom(p, i, s).Some?
    ensures Lang(p, i, s[..MatchFrom(p, i, s).value])
    decreases |s|, |p| - i
  {
    if i < |p| {
      var k := MatchFrom(p, i, s).value;
      if s != "" && In(p[i].cls, s[0]) {
        MatchIsInLang(p, if p[i].One? then i + 1 else i, s[1..]);
        assert s[..k][1..] == s[1..][..k - 1];
      } else {
        MatchIsInLang(p, i + 1, s);
      }
    }
  }

  /** A prefix that an after-repetition element would start cannot start with a repeated character. */
  lemma NotBoth(p: Pat, i: nat, s: string)
    requires i < |p| && Deterministic(p) && p[i].Many? && i + 1 < |p|
    requires s != "" && In(p[i].cls, s[0])
    ensures !Lang(p, i + 1, s)
  {
  }

  lemma {:induction false} MatchIsLongest(p: Pat, i: nat, s: string, j: nat)
    requires i <= |p| && Deterministic(p) && j <= |s|
    requires Lang(p, i, s[..j])
    ensures MatchFrom(p, i, s).Some? && j <= MatchFrom(p, i, s).value
    decreases |s|, |p| - i
  {
    if i < |p| {
      if j > 0 && In(p[i].cls, s[0]) {
        assert s[..j][1..] == s[1..][..j - 1];
        if p[i].Many? {
          if i + 1 < |p| { NotBoth(p, i, s[..j]); }
          MatchIsLongest(p, i, s[1..], j - 1);
        } else {
          MatchIsLongest(p, i + 1, s[1..], j - 1);
        }
      } else if s != "" && In(p[i].cls, s[0]) {
        // j == 0: only repetitions are left, and only the last element may be one
        EmptyNeedsRepetitions(p, i);
        MatchTail(p, i, s);
      } else {
        MatchIsLongest(p, i + 1, s, j);
      }
    }
  }

  lemma {:induction false} EmptyNeedsRepetitions(p: Pat, i: nat)
    requires i < |p| && Deterministic(p) && Lang(p, i, "")
    ensures i + 1 == |p| && p[i].Many?
  {
    assert ""[..0] == "";
  }

  lemma {:induction false} MatchTail(p: Pat, i: nat, s: string)
    requires i + 1 == |p| && p[i].Many?
    ensures MatchFrom(p, i, s).Some?
    decreases |s|
  {
    if s != "" { MatchTail(p, i, s[1..]); }
  }

  /** The scanner finds a match exactly when some prefix is in the language, and then the longest one. */
  lemma ScannerMeetsRegex(p: Pat, s: string)
    requires Deterministic(p)
    ensures Match(p, s).None? <==> forall j :: 0 <= j <= |s| ==> !Lang(p, 0, s[..j])
    ensures Match(p, s).Some? ==>
      var k := Match(p, s).value;
      Lang(p, 0, s[..k]) && forall j :: k < j <= |s| ==> !Lang(p, 0, s[..j])
  {
    if Match(p, s).Some? { MatchIsInLang(p, 0, s); }
    forall j | 0 <= j <= |s| && Lang(p, 0, s[..j])
      ensures Match(p, s).Some? && j <= Match(p, s).value
    {
      MatchIsLongest(p, 0, s, j);
    }
  }

  // ---------------------------------------------------------------- replacement

  /** The pattern matches a nonempty prefix. */
  predicate Starts(p: Pat, s: string) { Match(p, s).Some? && Match(p, s).value > 0 }

  /** Replaces every leftmost, non-overlapping match by `r`. */
  function Rewrite(p: Pat, r: string, t: string): string {
    if t == "" then ""
    else if Starts(p, t) then r + Rewrite(p, r, t[Match(p, t).value..])
    else [t[0]] + Rewrite(p, r, t[1..])
  }

  /** The leftmost, non-overlapping matches, in order. */
  function AllMatches(p: Pat, t: string): seq<string> {
    if t == "" then []
    else if Starts(p, t) then [t[..Match(p, t).value]] + AllMatches(p, t[Match(p, t).value..])
    else AllMatches(p, t[1..])
  }

  // ---------------------------------------------------------------- what replacement means

  /** The pieces with a text between any two of them. */
  function Join(pieces: seq<string>, glue: string): string
    requires pieces != []
  {
    if |pieces| == 1 then pieces[0] else pieces[0] + glue + Join(pieces[1..], glue)
  }

  /** The pieces with a text of its own between any two of them. */
  function Interleave(pieces: seq<string>, between: seq<string>): string
    requires |pieces| == |between| + 1
  {
    if between == [] then pieces[0] else pieces[0] + between[0] + Interleave(pieces[1..], between[1..])
  }

  /**
   * The text consists of the pieces and the matches between them, each match being
   * the one found at the leftmost place where there is one.
   */
  ghost predicate Splits(p: Pat, t: string, pieces: seq<string>, matches: seq<string>)
    decreases |matches|
  {
    && |pieces| == |matches| + 1
    && t == Interleave(pieces, matches)
    && (forall i :: 0 <= i < |pieces[0]| ==> !Starts(p, t[i..]))
    && (if matches == [] then !Starts(p, t[|pieces[0]|..])
        else matches[0] != "" && Match(p, t[|pieces[0]|..]) == Some(|matches[0]|) &&
             Splits(p, t[|pieces[0]| + |matches[0]|..], pieces[1..], matches[1..]))
  }

  lemma {:induction false} PassOver(p: Pat, r: string, t: string, k: nat)
    requires k <= |t| && forall i :: 0 <= i < k ==> !Starts(p, t[i..])
    ensures Rewrite(p, r, t) == t[..k] + Rewrite(p, r, t[k..])
    ensures AllMatches(p, t) == AllMatches(p, t[k..])
    decreases k
  {
    if k == 0 {
      assert t[0..] == t;
    } else {
      assert t[0..] == t;
      assert forall i :: 0 <= i < k - 1 ==> t[1..][i..] == t[i + 1..];
      PassOver(p, r, t[1..], k - 1);
      assert t[1..][k - 1..] == t[k..] && t[..k] == [t[0]] + t[1..][..k - 1];
    }
  }

  /** Replacement keeps the pieces and puts the new text between them. */
  lemma {:induction false} RewriteJoins(p: Pat, r: string, t: string, pieces: seq<string>, matches: seq<string>)
    requires Splits(p, t, pieces, matches)
    ensures Rewrite(p, r, t) == Join(pieces, r) && AllMatches(p, t) == matches
    decreases |matches|
  {
    var k := |pieces[0]|;
    PassOver(p, r, t, k);
    assert t[..k] == pieces[0];
    if matches == [] {
      assert t[k..] == "";
    } else {
      var rest := Interleave(pieces[1..], matches[1..]);
      assert t == pieces[0] + matches[0] + rest;
      assert t[k..][..|matches[0]|] == matches[0] && t[k..][|matches[0]|..] == t[k + |matches[0]|..] == rest;
      RewriteJoins(p, r, rest, pieces[1..], matches[1..]);
      assert AllMatches(p, t[k..]) == [matches[0]] + AllMatches(p, rest);
    }
  }

  /** And every text splits in this way. */
  lemma {:induction false} EverySplits(p: Pat, t: string) returns (pieces: seq<string>, matches: seq<string>)
    ensures Splits(p, t, pieces, matches)
    decreases |t|
  {
    if t == "" {
      pieces, matches := [""], [];
    } else if Starts(p, t) {
      var k := Match(p, t).value;
      var ps, ms := EverySplits(p, t[k..]);
      pieces, matches := [""] + ps, [t[..k]] + ms;
      assert pieces[1..] == ps && matches[1..] == ms;
      assert t == "" + t[..k] + t[k..] && t[0..] == t;
    } else {
      var ps, ms := EverySplits(p, t[1..]);
      pieces, matches := [[t[0]] + ps[0]] + ps[1..], ms;
      LongerFirst(p, t, ps, ms);
    }
  }

  lemma LongerInterleave(c: string, pieces: seq<string>, between: seq<string>)
    requires |pieces| == |between| + 1
    ensures Interleave([c + pieces[0]] + pieces[1..], between) == c + Interleave(pieces, between)
  {
    var longer := [c + pieces[0]] + pieces[1..];
    assert longer[1..] == pieces[1..];
    if between != [] {
      var rest := Interleave(pieces[1..], between[1..]);
      assert (c + pieces[0]) + between[0] + rest == c + (pieces[0] + between[0] + rest);
    }
  }

  lemma LongerFirst(p: Pat, t: string, pieces: seq<string>, matches: seq<string>)
    requires t != "" && !Starts(p, t) && Splits(p, t[1..], pieces, matches)
    ensures Splits(p, t, [[t[0]] + pieces[0]] + pieces[1..], matches)
  {
    var longer := [[t[0]] + pieces[0]] + pieces[1..];
    LongerInterleave([t[0]], pieces, matches);
    assert t == [t[0]] + t[1..];
    assert longer[1..] == pieces[1..] && |longer[0]| == |pieces[0]| + 1;
    Shifted(p, t, |pieces[0]|);
    assert t[|longer[0]|..] == t[1..][|pieces[0]|..];
    if matches != [] {
      assert t[|longer[0]| + |matches[0]|..] == t[1..][|pieces[0]| + |matches[0]|..];
    }
  }

  lemma Shifted(p: Pat, t: string, k: nat)
    requires t != "" && k < |t| && !Starts(p, t) && forall i :: 0 <= i < k ==> !Starts(p, t[1..][i..])
    ensures forall i :: 0 <= i < k + 1 ==> !Starts(p, t[i..])
  {
    forall i | 0 <= i < k + 1 ensures !Starts(p, t[i..]) {
      if i == 0 { assert t[0..] == t; } else { assert t[i..] == t[1..][i - 1..]; }
    }
  }

  predicate NoMatch(p: Pat, t: string) {
    t == "" || (!Starts(p, t) && NoMatch(p, t[1..]))
  }

  lemma {:induction false} NoMatchIsNone(p: Pat, t: string)
    ensures NoMatch(p, t) <==> AllMatches(p, t) == []
    decreases |t|
  {
    if t != "" && !Starts(p, t) { NoMatchIsNone(p, t[1..]); }
  }

  /** Text whose only matches are already the replacement is left alone. */
  lemma {:induction false} RewriteFixes(p: Pat, r: string, t: string)
    requires forall x :: x in AllMatches(p, t) ==> x == r
    ensures Rewrite(p, r, t) == t
    decreases |t|
  {
    if t != "" {
      if Starts(p, t) {
        var k := Match(p, t).value;
        assert AllMatches(p, t) == [t[..k]] + AllMatches(p, t[k..]);
        assert t[..k] in AllMatches(p, t);
        assert forall x :: x in AllMatches(p, t[k..]) ==> x in AllMatches(p, t);
        RewriteFixes(p, r, t[k..]);
        assert t == t[..k] + t[k..];
      } else {
        assert AllMatches(p, t) == AllMatches(p, t[1..]);
        RewriteFixes(p, r, t[1..]);
        assert t == [t[0]] + t[1..];
      }
    }
  }

  /**
   * Replacing `b` by `r` offers `a` nothing new from element `lo` on: a match that
   * the replacement continues was continued by the match of `b` as well.
   */
  ghost predicate OffersNothing(a: Pat, lo: nat, b: Pat, r: string) {
    forall i, s, x :: lo <= i <= |a| && Starts(b, s) && MatchFrom(a, i, r + x).Some? ==> MatchFrom(a, i, s).Some?
  }

  /** A match of `a` that has begun before the text succeeds in the rewritten text only if it did before. */
  lemma {:induction false} RewriteFindsNoMore(a: Pat, lo: nat, b: Pat, r: string, i: nat, t: string)
    requires lo <= i <= |a| && OffersNothing(a, lo, b, r)
    ensures MatchFrom(a, i, Rewrite(b, r, t)).Some? ==> MatchFrom(a, i, t).Some?
    decreases |t|, |a| - i
  {
    if i == |a| || t == "" {
    } else if Starts(b, t) {
      assert Rewrite(b, r, t) == r + Rewrite(b, r, t[Match(b, t).value..]);
    } else {
      var u := Rewrite(b, r, t);
      assert u[0] == t[0] && u[1..] == Rewrite(b, r, t[1..]);
      if In(a[i].cls, t[0]) {
        RewriteFindsNoMore(a, lo, b, r, if a[i].One? then i + 1 else i, t[1..]);
      } else if a[i].Many? {
        RewriteFindsNoMore(a, lo, b, r, i + 1, t);
      }
    }
  }

  /** No match begins inside a text without the first character of the pattern. */
  lemma {:induction false} SkipText(p: Pat, w: string, v: string)
    requires p != [] && p[0].One? && forall c :: c in w ==> !In(p[0].cls, c)
    ensures NoMatch(p, w + v) <==> NoMatch(p, v)
    decreases |w|
  {
    if w == "" {
      assert w + v == v;
    } else {
      assert (w + v)[1..] == w[1..] + v && (w + v)[0] == w[0];
      assert w[0] in w;
      SkipText(p, w[1..], v);
    }
  }

  /** No match of `a` begins inside `r`, whatever follows. */
  ghost predicate Closed(a: Pat, r: string) { forall v :: NoMatch(a, v) ==> NoMatch(a, r + v) }

  /** Replacing `b` by a closed text gives `a` no match it did not have; none at all when `a` is `b`. */
  lemma {:induction false} RewriteAddsNoMatch(a: Pat, b: Pat, r: string, t: string)
    requires a != [] && a[0].One? && Closed(a, r)
    requires OffersNothing(a, 1, b, r)
    requires NoMatch(a, t) || a == b
    ensures NoMatch(a, Rewrite(b, r, t))
    decreases |t|
  {
    if t != "" {
      if Starts(b, t) {
        var rest := t[Match(b, t).value..];
        if a != b { DropText(a, t, Match(b, t).value); }
        RewriteAddsNoMatch(a, b, r, rest);
        assert NoMatch(a, r + Rewrite(b, r, rest));
      } else {
        RewriteAddsNoMatch(a, b, r, t[1..]);
        var u := Rewrite(b, r, t);
        assert u[1..] == Rewrite(b, r, t[1..]);
        RewriteFindsNoMore(a, 1, b, r, 1, t[1..]);
        assert MatchFrom(a, 0, u).Some? ==> MatchFrom(a, 0, t).Some?;
      }
    }
  }

  lemma {:induction false} DropText(p: Pat, t: string, k: nat)
    requires k <= |t| && NoMatch(p, t)
    ensures NoMatch(p, t[k..])
  {
    if k > 0 {
      DropText(p, t[1..], k - 1);
      assert t[1..][k - 1..] == t[k..];
    }
  }
}
