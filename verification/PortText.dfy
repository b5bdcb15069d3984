/**
 * Port arguments as text: what the generator prints for a configured port or
 * range, and what iptables reads back from `--dport`.
 */
module PortText {
  import opened Prelude

  const MAX_PORT: nat := 65535

  datatype PortRange = PortRange(lo: nat, hi: nat) {
    predicate Contains(p: nat) { lo <= p <= hi }
  }

  predicate IsDigit(c: char) { '0' <= c <= '9' }

  predicate AllDigits(s: string) { forall c :: c in s ==> IsDigit(c) }

  function DigitChar(d: nat): char
    requires d < 10
  {
    "0123456789"[d]
  }

  /** Decimal printing, as `%d` prints a non-negative integer. */
  function Decimal(n: nat): string {
    if n < 10 then [DigitChar(n)] else Decimal(n / 10) + [DigitChar(n % 10)]
  }

  function FormatInt(i: int): string {
    if i < 0 then "-" + Decimal(-i) else Decimal(i)
  }

  /** Replaces every dash by a colon. */
  function DashToColon(s: string): string {
    seq(|s|, i requires 0 <= i < |s| => if s[i] == '-' then ':' else s[i])
  }

  function DigitsValue(s: string): nat
    requires AllDigits(s)
  {
    if s == [] then 0
    else
      assert s[|s| - 1] in s;
      DigitsValue(s[..|s| - 1]) * 10 + (s[|s| - 1] as int - '0' as int)
  }

  /** A leading zero is refused here: iptables reads such a text as octal. */
  predicate Plain(s: string) { s != [] && AllDigits(s) && (|s| > 1 ==> s[0] != '0') }

  function ParsePort(s: string): Option<nat> {
    if Plain(s) && DigitsValue(s) <= MAX_PORT then Some(DigitsValue(s)) else None
  }

  /** Position of the first colon, or the length when there is none. */
  function FirstColon(s: string): (i: nat)
    ensures i <= |s|
    ensures i < |s| ==> s[i] == ':'
    ensures forall j :: 0 <= j < i ==> s[j] != ':'
  {
    if s == [] || s[0] == ':' then 0 else 1 + FirstColon(s[1..])
  }

  /** How iptables reads a port argument: `n`, `lo:hi`, `:hi` or `lo:`; anything else is refused. */
  function ParsePortArg(s: string): Option<PortRange> {
    var i := FirstColon(s);
    if i == |s| then
      match ParsePort(s)
      case Some(p) => Some(PortRange(p, p))
      case None => None
    else
      var lo := if i == 0 then Some(0) else ParsePort(s[..i]);
      var hi := if i == |s| - 1 then Some(MAX_PORT) else ParsePort(s[i + 1..]);
      if lo.Some? && hi.Some? && lo.value <= hi.value then Some(PortRange(lo.value, hi.value)) else None
  }

  lemma {:induction false} DecimalReadsBack(n: nat)
    ensures Plain(Decimal(n)) && DigitsValue(Decimal(n)) == n
    ensures n > 0 ==> Decimal(n)[0] != '0'
  {
    if n < 10 {
      assert Decimal(n) == [DigitChar(n)];
      assert Decimal(n)[..0] == [];
    } else {
      DecimalReadsBack(n / 10);
      var s := Decimal(n);
      assert s[..|s| - 1] == Decimal(n / 10);
      assert s[0] == Decimal(n / 10)[0];
    }
  }

  lemma SplitLast(s: string)
    requires Plain(s) && |s| > 1
    ensures var init, last := s[..|s| - 1], s[|s| - 1];
      && Plain(init) && init[0] != '0' && IsDigit(last) && s == init + [last]
      && DigitsValue(s) == DigitsValue(init) * 10 + (last as int - '0' as int)
  {
    assert s[|s| - 1] in s;
    assert forall c :: c in s[..|s| - 1] ==> c in s;
  }

  /** A text without leading zeros is the decimal text of its value. */
  lemma {:induction false} PlainIsDecimal(s: string)
    requires Plain(s)
    ensures s == Decimal(DigitsValue(s))
    decreases |s|
  {
    if |s| > 1 {
      var init := s[..|s| - 1];
      SplitLast(s);
      PlainIsDecimal(init);
      PositiveValue(init);
      OneMoreDigit(DigitsValue(init), s[|s| - 1]);
    } else {
      assert s[0] in s;
      OneDigit(s, s[0]);
    }
  }

  lemma OneDigit(s: string, c: char)
    requires s == [c] && IsDigit(c)
    ensures AllDigits(s) && Decimal(DigitsValue(s)) == s
  {
    assert s[..0] == "";
    assert DigitsValue(s) == c as int - '0' as int;
    assert DigitChar(c as int - '0' as int) == c;
  }

  lemma OneMoreDigit(n: nat, c: char)
    requires n > 0 && IsDigit(c)
    ensures Decimal(n * 10 + (c as int - '0' as int)) == Decimal(n) + [c]
  {
    var d := c as int - '0' as int;
    assert DigitChar(d) == c;
    TensAndOnes(n, d);
  }

  lemma TensAndOnes(n: nat, d: nat)
    requires d < 10
    ensures (n * 10 + d) / 10 == n && (n * 10 + d) % 10 == d
  {
  }

  lemma {:induction false} PositiveValue(s: string)
    requires Plain(s) && s[0] != '0'
    ensures DigitsValue(s) > 0
    decreases |s|
  {
    assert s[0] in s;
    if |s| > 1 {
      SplitLast(s);
      PositiveValue(s[..|s| - 1]);
    }
  }

  /** The texts read as a port number are the decimal ones, up to the highest port. */
  lemma ParsePortExactly(s: string, n: nat)
    ensures ParsePort(s) == Some(n) <==> s == Decimal(n) && n <= MAX_PORT
  {
    DecimalReadsBack(n);
    if Plain(s) { PlainIsDecimal(s); }
  }

  predicate Separator(c: char) { c == '-' || c == ':' }

  /** A lower end of a range that admits the port: none, or a number not above it. */
  predicate LowEnd(s: string, port: nat) { s == "" || exists lo :: 0 <= lo <= port && s == Decimal(lo) }

  predicate HighEnd(s: string, port: nat) { s == "" || exists hi :: port <= hi <= MAX_PORT && s == Decimal(hi) }

  /** The ports a configured text is for: one number, or two ends, either of which may be missing. */
  predicate TextOpens(s: string, port: nat) {
    && port <= MAX_PORT
    && (s == Decimal(port) ||
        exists k :: 0 <= k < |s| && Separator(s[k]) && LowEnd(s[..k], port) && HighEnd(s[k + 1..], port))
  }

  lemma DashlessUnchanged(s: string)
    requires '-' !in s
    ensures DashToColon(s) == s
  {
  }

  lemma DashToColonConcat(a: string, b: string)
    ensures DashToColon(a + b) == DashToColon(a) + DashToColon(b)
  {
  }

  lemma DigitsHaveNoSeparator(s: string)
    requires AllDigits(s)
    ensures '-' !in s && ':' !in s
  {
  }

  /** A configured number is opened as exactly that port, and refused above 65535. */
  lemma NumberOpensItself(n: nat)
    ensures ParsePortArg(DashToColon(FormatInt(n))) == if n <= MAX_PORT then Some(PortRange(n, n)) else None
  {
    DecimalReadsBack(n);
    DigitsHaveNoSeparator(Decimal(n));
    DashlessUnchanged(Decimal(n));
  }

  /** A configured text `lo-hi` is opened as exactly the ports between, and refused when empty or too high. */
  lemma RangeOpensItself(lo: nat, hi: nat)
    ensures ParsePortArg(DashToColon(Decimal(lo) + "-" + Decimal(hi)))
         == if lo <= hi <= MAX_PORT then Some(PortRange(lo, hi)) else None
  {
    var a, b := Decimal(lo), Decimal(hi);
    DecimalReadsBack(lo);
    DecimalReadsBack(hi);
    DigitsHaveNoSeparator(a);
    DigitsHaveNoSeparator(b);
    DashlessUnchanged(a);
    DashlessUnchanged(b);
    DashToColonConcat(a + "-", b);
    DashToColonConcat(a, "-");
    SplitAtColon(a, b);
    assert DashToColon(a + "-" + b) == a + ":" + b;
  }

  lemma SplitAtColon(a: string, b: string)
    requires ':' !in a
    ensures var s := a + ":" + b;
      FirstColon(s) == |a| && s[..|a|] == a && s[|a| + 1..] == b
  {
    var s := a + ":" + b;
    assert s[|a|] == ':';
    assert forall j :: 0 <= j < |a| ==> s[j] == a[j];
  }

  /**
   * A negative number is not refused: its sign becomes a colon, and every port
   * from 0 up to its absolute value is opened.
   */
  lemma NegativeOpensFromZero(k: int)
    requires 0 < k
    ensures ParsePortArg(DashToColon(FormatInt(-k))) == if k <= MAX_PORT then Some(PortRange(0, k)) else None
  {
    var b := Decimal(k);
    DecimalReadsBack(k);
    DigitsHaveNoSeparator(b);
    DashlessUnchanged(b);
    DashToColonConcat("-", b);
    assert DashToColon("-") == ":";
    OpenBelow(b);
  }

  /** `:hi` reads as everything up to `hi`. */
  lemma OpenBelow(hi: string)
    requires hi != ""
    ensures ParsePortArg(":" + hi) ==
      match ParsePort(hi) case Some(p) => Some(PortRange(0, p)) case None => None
  {
    var s := ":" + hi;
    assert s[0] == ':' && FirstColon(s) == 0 && s[1..] == hi;
  }

  // ---------------------------------------------------------------- every text

  lemma DecimalHasNoSeparator(n: nat)
    ensures Whole(Decimal(n))
  {
    DecimalReadsBack(n);
    DigitsHaveNoSeparator(Decimal(n));
  }

  /** What iptables reads at one end of a range is the number written there. */
  lemma EndReads(s: string, port: nat)
    requires s != "" && port <= MAX_PORT
    ensures LowEnd(s, port) <==> ParsePort(s).Some? && ParsePort(s).value <= port
    ensures HighEnd(s, port) <==> ParsePort(s).Some? && port <= ParsePort(s).value
  {
    if LowEnd(s, port) {
      var lo :| 0 <= lo <= port && s == Decimal(lo);
      ParsePortExactly(s, lo);
    }
    if HighEnd(s, port) {
      var hi :| port <= hi <= MAX_PORT && s == Decimal(hi);
      ParsePortExactly(s, hi);
    }
    if ParsePort(s).Some? { ParsePortExactly(s, ParsePort(s).value); }
  }

  predicate Whole(s: string) { forall i :: 0 <= i < |s| ==> !Separator(s[i]) }

  lemma EndsAreWhole(s: string, port: nat)
    ensures LowEnd(s, port) || HighEnd(s, port) ==> Whole(s)
    ensures ParsePort(s).Some? || s == Decimal(port) ==> Whole(s)
  {
    if lo :| 0 <= lo <= port && s == Decimal(lo) { DecimalHasNoSeparator(lo); }
    if hi :| port <= hi <= MAX_PORT && s == Decimal(hi) { DecimalHasNoSeparator(hi); }
    DecimalHasNoSeparator(port);
    if AllDigits(s) {
      forall i | 0 <= i < |s| ensures !Separator(s[i]) {
        assert s[i] in s;
      }
    }
  }

  /** Where the first separator stands, if there is one. */
  lemma FirstSeparator(s: string) returns (i: nat)
    ensures i == FirstColon(DashToColon(s)) <= |s| && Whole(s[..i])
    ensures i < |s| ==> Separator(s[i])
    ensures DashToColon(s)[..i] == s[..i]
    ensures i < |s| ==> DashToColon(s)[i + 1..] == DashToColon(s[i + 1..])
  {
    var t := DashToColon(s);
    i := FirstColon(t);
    assert forall j :: 0 <= j < i ==> t[j] != ':' && s[..i][j] == s[j];
    assert i < |s| ==> t[i] == ':';
  }

  lemma WholeUnchanged(s: string)
    ensures Whole(s) ==> DashToColon(s) == s
    ensures !Whole(s) ==> ParsePort(DashToColon(s)).None?
  {
    if Whole(s) {
      assert DashToColon(s) == s;
    } else {
      var j :| 0 <= j < |s| && Separator(s[j]);
      assert DashToColon(s)[j] == ':' && ':' in DashToColon(s);
    }
  }

  /** Every configured text is opened as exactly the ports it is for; one that iptables refuses opens none. */
  lemma TextOpensItself(s: string, port: nat)
    ensures var r := ParsePortArg(DashToColon(s)); (r.Some? && r.value.Contains(port)) <==> TextOpens(s, port)
  {
    var i := FirstSeparator(s);
    if port > MAX_PORT {
    } else if i == |s| {
      assert s[..i] == s;
      WholeUnchanged(s);
      ParsePortExactly(s, port);
    } else {
      var lo, hi := s[..i], s[i + 1..];
      SplitOpens(s, i, port);
      WholeUnchanged(hi);
      EndsAreWhole(hi, port);
      if lo != "" { EndReads(lo, port); }
      if hi != "" { EndReads(hi, port); }
    }
  }

  /** A text with a separator is for the ports between its two ends, and its first separator divides them. */
  lemma SplitOpens(s: string, i: nat, port: nat)
    requires i < |s| && Separator(s[i]) && Whole(s[..i])
    ensures TextOpens(s, port) <==> port <= MAX_PORT && LowEnd(s[..i], port) && HighEnd(s[i + 1..], port)
  {
    EndsAreWhole(s, port);
    forall k | 0 <= k < |s| && Separator(s[k]) && LowEnd(s[..k], port) ensures k == i {
      EndsAreWhole(s[..k], port);
      assert forall j :: 0 <= j < k ==> s[..k][j] == s[j];
      assert forall j :: 0 <= j < i ==> s[..i][j] == s[j];
    }
  }
}
