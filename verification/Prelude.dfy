/** Small shared vocabulary: optional values and the flattening of nested append loops. */
module Prelude {
  datatype Option<+T> = None | Some(value: T)

  /** What a loop `for x in xs { out = append(out, f(x)...) }` leaves in `out`. */
  function FlatMap<A, B>(f: A -> seq<B>, xs: seq<A>): seq<B> {
    if xs == [] then [] else f(xs[0]) + FlatMap(f, xs[1..])
  }

  lemma {:induction false} FlatMapConcat<A, B>(f: A -> seq<B>, xs: seq<A>, ys: seq<A>)
    ensures FlatMap(f, xs + ys) == FlatMap(f, xs) + FlatMap(f, ys)
  {
    if xs == [] {
      assert xs + ys == ys;
    } else {
      var all := xs + ys;
      FlatMapConcat(f, xs[1..], ys);
      assert all[0] == xs[0] && all[1..] == xs[1..] + ys;
      assert FlatMap(f, all) == f(xs[0]) + (FlatMap(f, xs[1..]) + FlatMap(f, ys));
    }
  }

  /** One more turn of the loop. */
  lemma FlatMapSnoc<A, B>(f: A -> seq<B>, xs: seq<A>, i: nat)
    requires i < |xs|
    ensures FlatMap(f, xs[..i + 1]) == FlatMap(f, xs[..i]) + f(xs[i])
  {
    FlatMapConcat(f, xs[..i], [xs[i]]);
    assert xs[..i + 1] == xs[..i] + [xs[i]];
    assert FlatMap(f, [xs[i]]) == f(xs[i]) + FlatMap(f, []);
  }

  lemma {:induction false} FlatMapMembers<A, B>(f: A -> seq<B>, xs: seq<A>, y: B)
    ensures y in FlatMap(f, xs) <==> exists x :: x in xs && y in f(x)
  {
    if xs != [] {
      FlatMapMembers(f, xs[1..], y);
      assert forall x :: x in xs <==> x == xs[0] || x in xs[1..];
    }
  }

  // ---------------------------------------------------------------- text

  function LowerChar(c: char): char { if 'A' <= c <= 'Z' then (c as int + 32) as char else c }

  function UpperChar(c: char): char { if 'a' <= c <= 'z' then (c as int - 32) as char else c }

  function ToUpper(s: string): string { seq(|s|, i requires 0 <= i < |s| => UpperChar(s[i])) }

  function ToLower(s: string): string { seq(|s|, i requires 0 <= i < |s| => LowerChar(s[i])) }

  /** The same text up to the case of its letters; `w` is in lower case. */
  predicate SameLetters(t: string, w: string) {
    |t| == |w| && forall i :: 0 <= i < |w| ==> t[i] == w[i] || ('a' <= w[i] <= 'z' && t[i] as int + 32 == w[i] as int)
  }

  predicate LowerCase(w: string) { forall c :: c in w ==> !('A' <= c <= 'Z') }

  /** Lower-casing answers whether two texts differ in case only. */
  lemma LowerMeansSameLetters(t: string, w: string)
    requires LowerCase(w)
    ensures ToLower(t) == w <==> SameLetters(t, w)
  {
    if SameLetters(t, w) {
      forall i | 0 <= i < |w| ensures ToLower(t)[i] == w[i] {
        assert w[i] in w;
      }
    }
  }

  predicate IsSpace(c: char) { c == ' ' || '\t' <= c <= '\r' || c as int == 0x85 || c as int == 0xA0 }

  /** Without leading and trailing white space. */
  function TrimSpace(s: string): string
    decreases |s|
  {
    if s == "" then s
    else if IsSpace(s[0]) then TrimSpace(s[1..])
    else if IsSpace(s[|s| - 1]) then TrimSpace(s[..|s| - 1])
    else s
  }

  predicate AllSpace(s: string) { forall c :: c in s ==> IsSpace(c) }

  /** Trimming takes white space away at both ends, and nothing else. */
  lemma {:induction false} TrimSplits(s: string) returns (a: string, b: string)
    ensures s == a + TrimSpace(s) + b && AllSpace(a) && AllSpace(b)
    decreases |s|
  {
    a, b := "", "";
    if s != "" && IsSpace(s[0]) {
      a, b := TrimSplits(s[1..]);
      a := [s[0]] + a;
    } else if s != "" && IsSpace(s[|s| - 1]) {
      a, b := TrimSplits(s[..|s| - 1]);
      b := b + [s[|s| - 1]];
    }
  }

  /** A text that neither begins nor ends with white space is what remains of it between any. */
  lemma {:induction false} TrimFinds(a: string, w: string, b: string)
    requires AllSpace(a) && AllSpace(b) && (w != "" ==> !IsSpace(w[0]) && !IsSpace(w[|w| - 1]))
    ensures TrimSpace(a + w + b) == w
    decreases |a| + |b|
  {
    var s := a + w + b;
    if a != "" {
      assert a[0] in a && s[0] == a[0] && s[1..] == a[1..] + w + b;
      TrimFinds(a[1..], w, b);
    } else if b != "" {
      var last := b[|b| - 1];
      assert last in b && s[|s| - 1] == last && s[..|s| - 1] == a + w + b[..|b| - 1];
      if w == "" {
        assert s == b && b[0] in b && s[1..] == a + w + b[1..];
        TrimFinds(a, w, b[1..]);
      } else {
        assert s[0] == w[0];
        TrimFinds(a, w, b[..|b| - 1]);
      }
    } else {
      assert s == w;
    }
  }
}
