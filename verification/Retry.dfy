/** Retrying with exponential backoff, and the node agent's register-until-ready loop. */
module Retry {
  import opened Prelude
  import opened Ipv4

  /** Durations are in nanoseconds; the multiplier of every configuration is two. */
  datatype Config = Config(maxAttempts: int, initial: nat, cap: nat)

  datatype Result<T> = Ok(value: T) | Cancelled | Exhausted | NoAttempts

  function Min(a: nat, b: nat): nat { if a <= b then a else b }

  /** The k-th wait: the initial one as given, later ones doubled and capped. */
  function Wait(cfg: Config, k: nat): nat {
    if k == 0 then cfg.initial else Min(cfg.initial * Pow2(k), cfg.cap)
  }

  /** Attempts before number `k` all failed, and none of the waits after them was cancelled. */
  ghost predicate Reaches<T>(fn: nat -> Option<T>, cancel: nat -> bool, k: nat) {
    forall j :: 1 <= j < k ==> fn(j).None? && !cancel(j)
  }

  /** What the whole call returns, said about all attempts at once. */
  ghost predicate Returns<T>(cfg: Config, fn: nat -> Option<T>, cancel: nat -> bool, r: Result<T>, calls: nat) {
    match r
    case Ok(v) => 1 <= calls <= cfg.maxAttempts && Reaches(fn, cancel, calls) && fn(calls) == Some(v)
    case Cancelled =>
      1 <= calls < cfg.maxAttempts && Reaches(fn, cancel, calls) && fn(calls).None? && cancel(calls)
    case Exhausted => 1 <= calls == cfg.maxAttempts && Reaches(fn, cancel, calls) && fn(calls).None?
    case NoAttempts => cfg.maxAttempts < 1 && calls == 0
  }

  /** The whole behaviour of a call: what it returns, how often it calls, and the waits between. */
  ghost predicate Behaves<T>(cfg: Config, fn: nat -> Option<T>, cancel: nat -> bool,
                             r: Result<T>, calls: nat, waits: seq<nat>)
  {
    && Returns(cfg, fn, cancel, r, calls)
    && |waits| == (if calls == 0 || r.Cancelled? then calls else calls - 1)
    && (forall k :: 0 <= k < |waits| ==> waits[k] == Wait(cfg, k))
  }

  function Sum(xs: seq<nat>): nat {
    if xs == [] then 0 else Sum(xs[..|xs| - 1]) + xs[|xs| - 1]
  }

  lemma {:induction false} SumBound(xs: seq<nat>, m: nat)
    requires forall x :: x in xs ==> x <= m
    ensures Sum(xs) <= |xs| * m
  {
    if xs != [] {
      var init, last := xs[..|xs| - 1], xs[|xs| - 1];
      assert xs == init + [last];
      assert last in xs && forall x :: x in init ==> x in xs;
      SumBound(init, m);
      assert |xs| * m == (|xs| - 1) * m + m;
    }
  }

  /** One doubling of the capped backoff. */
  lemma NextWait(cfg: Config, k: nat)
    ensures Min(2 * Wait(cfg, k), cfg.cap) == Wait(cfg, k + 1)
  {
    assert cfg.initial * Pow2(k + 1) == 2 * (cfg.initial * Pow2(k));
    if k > 0 && cfg.initial * Pow2(k) > cfg.cap {
      assert Wait(cfg, k) == cfg.cap;
    }
  }

  /** The variant whose operation only fails or succeeds. */
  method Do(cfg: Config, fn: nat -> bool, cancel: nat -> bool)
    returns (r: Result<()>, calls: nat, waits: seq<nat>)
    ensures Behaves(cfg, Lift(fn), cancel, r, calls, waits)
  {
    var backoff := cfg.initial;
    var attempt := 1;
    waits, calls := [], 0;
    while attempt <= cfg.maxAttempts
      invariant 1 <= attempt && calls == attempt - 1 == |waits|
      invariant attempt <= cfg.maxAttempts || attempt == 1
      invariant Reaches(Lift(fn), cancel, attempt)
      invariant backoff == Wait(cfg, attempt - 1)
      invariant forall k :: 0 <= k < |waits| ==> waits[k] == Wait(cfg, k)
    {
      calls := calls + 1;
      if fn(attempt) { return Ok(()), calls, waits; }
      if attempt < cfg.maxAttempts {
        waits := waits + [backoff];
        if cancel(attempt) { return Cancelled, calls, waits; }
        NextWait(cfg, attempt - 1);
        backoff := 2 * backoff;
        if backoff > cfg.cap { backoff := cfg.cap; }
        attempt := attempt + 1;
        continue;
      }
      return Exhausted, calls, waits;
    }
    r := NoAttempts;
  }

  /** A boolean operation as one with a unit result. */
  function Lift(fn: nat -> bool): nat -> Option<()> { (k: nat) => if fn(k) then Some(()) else None }

  /** The variant whose operation also yields a value. */
  method DoWithResult<T>(cfg: Config, fn: nat -> Option<T>, cancel: nat -> bool)
    returns (r: Result<T>, calls: nat, waits: seq<nat>)
    ensures Behaves(cfg, fn, cancel, r, calls, waits)
  {
    var backoff := cfg.initial;
    var attempt := 1;
    waits, calls := [], 0;
    while attempt <= cfg.maxAttempts
      invariant 1 <= attempt && calls == attempt - 1 == |waits|
      invariant attempt <= cfg.maxAttempts || attempt == 1
      invariant Reaches(fn, cancel, attempt)
      invariant backoff == Wait(cfg, attempt - 1)
      invariant forall k :: 0 <= k < |waits| ==> waits[k] == Wait(cfg, k)
    {
      calls := calls + 1;
      var res := fn(attempt);
      if res.Some? { return Ok(res.value), calls, waits; }
      if attempt < cfg.maxAttempts {
        waits := waits + [backoff];
        if cancel(attempt) { return Cancelled, calls, waits; }
        NextWait(cfg, attempt - 1);
        backoff := 2 * backoff;
        if backoff > cfg.cap { backoff := cfg.cap; }
        attempt := attempt + 1;
        continue;
      }
      return Exhausted, calls, waits;
    }
    r := NoAttempts;
  }

  /** At most one outcome is possible, so the two variants agree. */
  lemma OutcomeIsUnique<T>(cfg: Config, fn: nat -> Option<T>, cancel: nat -> bool,
                           r: Result<T>, n: nat, r': Result<T>, n': nat)
    requires Returns(cfg, fn, cancel, r, n) && Returns(cfg, fn, cancel, r', n')
    ensures r == r' && n == n'
  {
  }

  lemma SuccessExactly<T>(cfg: Config, fn: nat -> Option<T>, cancel: nat -> bool, r: Result<T>, calls: nat)
    requires Returns(cfg, fn, cancel, r, calls)
    ensures r.Ok? <==> exists k: nat :: 1 <= k <= cfg.maxAttempts && Reaches(fn, cancel, k) && fn(k).Some?
    ensures calls <= cfg.maxAttempts || calls == 0
  {
    if k: nat :| 1 <= k <= cfg.maxAttempts && Reaches(fn, cancel, k) && fn(k).Some? {
      OutcomeIsUnique(cfg, fn, cancel, r, calls, Ok(fn(k).value), k);
    }
  }

  /** The closed form of every wait, and the bound on all of them, when the initial wait respects the cap. */
  lemma WaitsAreCapped(cfg: Config, waits: seq<nat>)
    requires cfg.initial <= cfg.cap
    requires |waits| <= cfg.maxAttempts - 1
    requires forall k :: 0 <= k < |waits| ==> waits[k] == Wait(cfg, k)
    ensures forall k :: 0 <= k < |waits| ==> waits[k] == Min(cfg.initial * Pow2(k), cfg.cap)
    ensures Sum(waits) <= (cfg.maxAttempts - 1) * cfg.cap
  {
    forall k | 0 <= k < |waits| ensures waits[k] == Min(cfg.initial * Pow2(k), cfg.cap) {
      CappedWait(cfg, k);
    }
    SumBound(waits, cfg.cap);
    Product(|waits|, cfg.maxAttempts - 1, cfg.cap);
  }

  lemma CappedWait(cfg: Config, k: nat)
    requires cfg.initial <= cfg.cap
    ensures Wait(cfg, k) == Min(cfg.initial * Pow2(k), cfg.cap)
  {
    if k == 0 { assert cfg.initial * Pow2(0) == cfg.initial; }
  }

  lemma Product(a: nat, b: nat, m: nat)
    requires a <= b
    ensures a * m <= b * m
  {
  }

  /** All waits of every run stay within the cap. */
  ghost predicate CapHolds(cfg: Config) {
    forall fn: nat -> Option<()>, cancel: nat -> bool, r: Result<()>, calls: nat, waits: seq<nat>, k: nat ::
      Behaves(cfg, fn, cancel, r, calls, waits) && k < |waits| ==> waits[k] <= cfg.cap
  }

  /** The cap does not apply to the first wait: it holds exactly if that one respects it, or there is none. */
  lemma CapMissesFirstWait(cfg: Config)
    ensures CapHolds(cfg) <==> cfg.maxAttempts <= 1 || cfg.initial <= cfg.cap
  {
    if cfg.maxAttempts > 1 && cfg.initial > cfg.cap {
      var fn: nat -> Option<()> := (k: nat) => None;
      var cancel := (k: nat) => true;
      assert Wait(cfg, 0) == cfg.initial;
      var r: Result<()> := Cancelled;
      assert Behaves(cfg, fn, cancel, r, 1, [cfg.initial]);
      assert [cfg.initial][0] > cfg.cap;
    }
  }

  datatype Reply = Unreachable | SaysReady | SaysWaiting | SaysOther

  datatype JoinResult = Joined | UnknownStatus | ContextDone

  predicate Undecided(r: Reply) { r == Unreachable || r == SaysWaiting }

  const SECOND: nat := 1_000_000_000

  /** The k-th wait of the node agent: doubling from one second up to 32. */
  function JoinWait(k: nat): nat { Min(Pow2(k), 32) * SECOND }

  /**
   * Registers until the controller answers ready. The replies are those received
   * until the context is cancelled. One wait follows each undecided reply.
   */
  method JoinLoop(replies: seq<Reply>) returns (r: JoinResult, waits: seq<nat>)
    ensures r == Joined <==> exists k :: 0 <= k < |replies| && replies[k] == SaysReady
                                && forall j :: 0 <= j < k ==> Undecided(replies[j])
    ensures r == ContextDone <==> forall k :: 0 <= k < |replies| ==> Undecided(replies[k])
    ensures forall k :: 0 <= k < |waits| ==> waits[k] == JoinWait(k)
    ensures |waits| <= |replies| && forall j :: 0 <= j < |waits| ==> Undecided(replies[j])
    ensures |waits| < |replies| ==> !Undecided(replies[|waits|])
    ensures r == UnknownStatus <==> |waits| < |replies| && replies[|waits|] == SaysOther
  {
    var backoff := SECOND;
    waits := [];
    for i := 0 to |replies|
      invariant forall j :: 0 <= j < i ==> Undecided(replies[j])
      invariant |waits| == i && backoff == JoinWait(i)
      invariant forall k :: 0 <= k < |waits| ==> waits[k] == JoinWait(k)
    {
      match replies[i] {
        case SaysReady => return Joined, waits;
        case SaysOther => return UnknownStatus, waits;
        case _ =>
      }
      waits := waits + [backoff];
      BackoffStep(i);
      if backoff < 30 * SECOND { backoff := backoff * 2; }
    }
    r := ContextDone;
  }

  lemma BackoffStep(i: nat)
    ensures JoinWait(i + 1) == if JoinWait(i) < 30 * SECOND then JoinWait(i) * 2 else JoinWait(i)
  {
    if i >= 5 { Pow2Grows(5, i); }
    assert Pow2(5) == 32;
  }
}
