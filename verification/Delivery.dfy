/**
 Delivery of one batch: encode, send, and retry with jittered exponential backoff, guarded so that a
 panic counts as an exhausted batch.
 */
module Delivery {
  import opened Basics
  import opened Responses
  import opened Words
  import JitterRNG

  datatype Config = Config(maxRetries: nat, baseBackoff: int, retryMax: int, rateLimitBackoff: int)

  /** Durations are positive 64-bit integers once the defaults are filled in. */
  ghost predicate ValidConfig(c: Config) {
    && 1 <= c.baseBackoff <= MAX_INT64
    && 1 <= c.retryMax <= MAX_INT64
    && 1 <= c.rateLimitBackoff <= MAX_INT64
  }

  /** The worker's numeric settings; durations are nanoseconds. */
  datatype Settings = Settings(batchSize: int, maxBatchBytes: int, flushInterval: int, maxRetries: int,
                               baseBackoff: int, retryMax: int, rateLimitBackoff: int, maxConcurrent: int)

  const DEFAULTS := Settings(250, 524_288, 5_000_000_000, 0, 200_000_000, 30_000_000_000, 30_000_000_000, 4)

  function Positive(x: int, default: int): int {
    if x <= 0 then default else x
  }

  function WithDefaults(s: Settings): Settings {
    Settings(Positive(s.batchSize, DEFAULTS.batchSize),
             Positive(s.maxBatchBytes, DEFAULTS.maxBatchBytes),
             Positive(s.flushInterval, DEFAULTS.flushInterval),
             if s.maxRetries < 0 then 0 else s.maxRetries,
             Positive(s.baseBackoff, DEFAULTS.baseBackoff),
             Positive(s.retryMax, DEFAULTS.retryMax),
             Positive(s.rateLimitBackoff, DEFAULTS.rateLimitBackoff),
             Positive(s.maxConcurrent, DEFAULTS.maxConcurrent))
  }

  /** Every setting but the number of retries, which may be zero, must be positive. */
  predicate Usable(s: Settings) {
    && s.batchSize > 0 && s.maxBatchBytes > 0 && s.flushInterval > 0 && s.maxRetries >= 0
    && s.baseBackoff > 0 && s.retryMax > 0 && s.rateLimitBackoff > 0 && s.maxConcurrent > 0
  }

  /** Each setting of `r` is the one of `s` or the one of `t`. */
  predicate Mixes(r: Settings, s: Settings, t: Settings) {
    && (r.batchSize == s.batchSize || r.batchSize == t.batchSize)
    && (r.maxBatchBytes == s.maxBatchBytes || r.maxBatchBytes == t.maxBatchBytes)
    && (r.flushInterval == s.flushInterval || r.flushInterval == t.flushInterval)
    && (r.maxRetries == s.maxRetries || r.maxRetries == t.maxRetries)
    && (r.baseBackoff == s.baseBackoff || r.baseBackoff == t.baseBackoff)
    && (r.retryMax == s.retryMax || r.retryMax == t.retryMax)
    && (r.rateLimitBackoff == s.rateLimitBackoff || r.rateLimitBackoff == t.rateLimitBackoff)
    && (r.maxConcurrent == s.maxConcurrent || r.maxConcurrent == t.maxConcurrent)
  }

  /** The least change that makes settings usable: exactly the usable ones stay, the rest take defaults. */
  lemma DefaultsRepair(s: Settings)
    ensures Usable(WithDefaults(s)) && Mixes(WithDefaults(s), s, DEFAULTS)
    ensures WithDefaults(s) == s <==> Usable(s)
    ensures WithDefaults(Settings(0, 0, 0, 0, 0, 0, 0, 0))
            == Settings(250, 512 * 1024, 5_000_000_000, 0, 200_000_000, 30_000_000_000, 30_000_000_000, 4)
    ensures forall r :: Usable(r) && Mixes(r, s, DEFAULTS) ==> Mixes(WithDefaults(s), s, r)
  {
  }

  /** The part of usable settings that governs retries. */
  function RetryConfig(s: Settings): (c: Config)
    requires Usable(s) && s.baseBackoff <= MAX_INT64 && s.retryMax <= MAX_INT64 && s.rateLimitBackoff <= MAX_INT64
    ensures ValidConfig(c)
  {
    Config(s.maxRetries, s.baseBackoff, s.retryMax, s.rateLimitBackoff)
  }

  // ---------------------------------------------------------------- backoff ceiling

  /** The doubling loop in 64-bit arithmetic: `n` more doublings from `d`, stopping at the maximum. */
  function Climb(d: int, max: int, n: nat): int
    decreases n
  {
    if n == 0 then d
    else
      var d2 := Wrap(d * 2);
      if d2 >= max then max else Climb(d2, max, n - 1)
  }

  /** The ceiling the policy promises: uncapped for the first attempt, capped afterwards. */
  function Ceiling(base: int, max: int, n: nat): int {
    if n == 0 then base else Min(base * Pow2(n), max)
  }

  function Min(a: int, b: int): int {
    if a < b then a else b
  }

  lemma {:induction false} ClimbUnderMax(d: int, max: int, n: nat)
    requires n > 0
    ensures Climb(d, max, n) <= max
    decreases n
  {
    if n > 1 && Wrap(d * 2) < max {
      ClimbUnderMax(Wrap(d * 2), max, n - 1);
    }
  }

  lemma TwiceThenPow2(d: int, n: nat)
    requires n > 0
    ensures (d * 2) * Pow2(n - 1) == d * Pow2(n)
  {
  }

  lemma AtLeastTwice(d: int, n: nat)
    requires n > 0 && d >= 0
    ensures d * 2 <= d * Pow2(n)
  {
    Pow2Grows(1, n);
    assert Pow2(1) == 2 by {
      assert Pow2(0) == 1;
    }
    assert d * (Pow2(n) - 2) >= 0;
  }

  /** Even where 64-bit arithmetic wraps, the loop never exceeds the promised ceiling. */
  lemma {:induction false} ClimbUnderCeiling(d: int, max: int, n: nat)
    requires 1 <= d <= MAX_INT64 && 1 <= max <= MAX_INT64
    ensures Climb(d, max, n) <= Ceiling(d, max, n)
    decreases n
  {
    if n > 0 {
      ClimbUnderMax(d, max, n);
      AtLeastTwice(d, n);
      if d * 2 <= MAX_INT64 && d * 2 < max {
        ClimbUnderCeiling(d * 2, max, n - 1);
        TwiceThenPow2(d, n);
      }
    }
  }

  /** The largest doubling of `d` that 64-bit arithmetic still holds. */
  function TopDouble(d: int): (t: int)
    requires 1 <= d <= MAX_INT64
    ensures d <= t <= MAX_INT64 && t * 2 > MAX_INT64
    decreases MAX_INT64 - d
  {
    if d * 2 > MAX_INT64 then d else TopDouble(d * 2)
  }

  /** The loop computes the ceiling, and one more still fits, for this number of doublings. */
  predicate ClimbIsExact(base: int, max: int, n: nat) {
    Climb(base, max, n) == Ceiling(base, max, n) && Climb(base, max, n) < MAX_INT64
  }

  /** What a caller can check: the first doubling fits, and the cap is met before the range ends. */
  predicate RangeSuffices(base: int, max: int)
    requires 1 <= base <= MAX_INT64
  {
    base * 2 <= MAX_INT64 && max <= TopDouble(base)
  }

  lemma {:induction false} ExactInRange(base: int, max: int, n: nat)
    requires 1 <= base && base * 2 <= MAX_INT64 && 1 <= max <= TopDouble(base)
    ensures ClimbIsExact(base, max, n)
    decreases n
  {
    TopIsEven(base);
    if n > 0 {
      AtLeastTwice(base, n);
      if base * 2 < max {
        assert TopDouble(base) == TopDouble(base * 2);
        ExactInRange(base * 2, max, n - 1);
        TwiceThenPow2(base, n);
      }
    }
  }

  lemma {:induction false} TopIsEven(d: int)
    requires 1 <= d && d * 2 <= MAX_INT64
    ensures TopDouble(d) < MAX_INT64
    decreases MAX_INT64 - d
  {
    if d * 4 <= MAX_INT64 {
      TopIsEven(d * 2);
    }
  }

  /** Below the cap, doubling past the top of the range turns the ceiling negative. */
  lemma {:induction false} WrapsPastTop(base: int, max: int) returns (n: nat)
    requires 1 <= base <= MAX_INT64 && 1 <= max <= MAX_INT64 && !RangeSuffices(base, max)
    ensures Climb(base, max, n) < 0 && Ceiling(base, max, n) > 0
    decreases MAX_INT64 - base
  {
    if base * 2 > MAX_INT64 {
      n := 1;
      FirstDoublingWraps(base, max);
    } else {
      assert TopDouble(base) == TopDouble(base * 2);
      var m := WrapsPastTop(base * 2, max);
      n := m + 1;
      assert Climb(base, max, n) == Climb(base * 2, max, m);
    }
    CeilingIsPositive(base, max, n);
  }

  lemma FirstDoublingWraps(base: int, max: int)
    requires base <= MAX_INT64 < base * 2 && 1 <= max
    ensures Climb(base, max, 1) < 0
  {
    assert Wrap(base * 2) == base * 2 - 0x1_0000_0000_0000_0000;
    assert Climb(base, max, 1) == Climb(Wrap(base * 2), max, 0);
  }

  /**
   The backoff arithmetic is exact for every attempt number if and only if the first doubling fits in
   64 bits and the cap does not exceed the largest doubling of the base that does.
   */
  lemma BackoffIsExactIff(base: int, max: int)
    requires 1 <= base <= MAX_INT64 && 1 <= max <= MAX_INT64
    ensures (forall n: nat :: ClimbIsExact(base, max, n)) <==> RangeSuffices(base, max)
  {
    if RangeSuffices(base, max) {
      forall n: nat
        ensures ClimbIsExact(base, max, n)
      {
        ExactInRange(base, max, n);
      }
    } else {
      var n := WrapsPastTop(base, max);
      assert !ClimbIsExact(base, max, n);
    }
  }

  /** In particular for any base below 2^62 and any cap up to 2^62. */
  lemma OrdinaryRangeSuffices(base: int, max: int)
    requires 1 <= base < 0x4000_0000_0000_0000 && max <= 0x4000_0000_0000_0000
    ensures RangeSuffices(base, max)
  {
    var t := TopDouble(base);
  }

  // ---------------------------------------------------------------- the policy

  /** What the outside sees of a delivery: posts, waits and the observer's calls. */
  datatype Effect = Post | Wait(d: int) | Retried | LimitSeen | Sent(n: nat) | Exhausted(n: nat)

  datatype Encoding = Body | EncodeError | EncodePanics

  /** The outcomes a delivery meets: the reply to each attempt, and whether the context is done after its wait. */
  datatype World = World(encoding: Encoding, reply: nat -> Reply, ctxDone: nat -> bool)

  predicate GivesUp(c: Config, w: World, a: nat) {
    Permanent(w.reply(a)) || a >= c.maxRetries
  }

  /** Attempt `a` is the last: success, panic, permanent failure, retries used up, or context done. */
  predicate IsLast(c: Config, w: World, a: nat) {
    w.reply(a).Ok? || w.reply(a).Panics? || GivesUp(c, w, a) || w.ctxDone(a)
  }

  function LastFrom(c: Config, w: World, a: nat): (last: nat)
    requires a <= c.maxRetries
    ensures a <= last <= c.maxRetries && IsLast(c, w, last)
    ensures forall b :: a <= b < last ==> !IsLast(c, w, b)
    decreases c.maxRetries - a
  {
    if IsLast(c, w, a) then a else LastFrom(c, w, a + 1)
  }

  /** The first attempt at which the policy must stop. */
  function LastAttempt(c: Config, w: World): nat {
    LastFrom(c, w, 0)
  }

  /** A wait the policy allows after a failed attempt. */
  predicate WaitAllowed(c: Config, w: World, a: nat, d: int) {
    if RateLimited(w.reply(a)) then d == RateLimitWait(c.rateLimitBackoff, w.reply(a))
    else 0 <= d <= Ceiling(c.baseBackoff, c.retryMax, a)
  }

  /**
   Full jitter below a ceiling: one draw where the range up to it is a positive 64-bit number, and zero
   without a draw where the arithmetic has wrapped.
   */
  function Jittered(seed: Word, top: int): (int, Word) {
    if 0 <= top < MAX_INT64 then (JitterRNG.Draw(seed, 0) % (top + 1), JitterRNG.StateAfter(seed, 1)) else (0, seed)
  }

  /** The wait after failed attempt `a`, with the jitter source at `seed`, and where that leaves the source. */
  function WaitAfter(c: Config, w: World, a: nat, seed: Word): (int, Word) {
    if RateLimited(w.reply(a)) then (RateLimitWait(c.rateLimitBackoff, w.reply(a)), seed)
    else Jittered(seed, Climb(c.baseBackoff, c.retryMax, a))
  }

  /** The state of the jitter source once `k` waits have been decided. */
  function SourceAfter(c: Config, w: World, seed: Word, k: nat): Word {
    if k == 0 then seed else WaitAfter(c, w, k - 1, SourceAfter(c, w, seed, k - 1)).1
  }

  /** The first `k` waits of a delivery that finds the jitter source at `seed`. */
  function Waits(c: Config, w: World, seed: Word, k: nat): (ws: seq<int>)
    ensures |ws| == k
  {
    if k == 0 then [] else Waits(c, w, seed, k - 1) + [WaitAfter(c, w, k - 1, SourceAfter(c, w, seed, k - 1)).0]
  }

  lemma JitterUnderCeiling(c: Config, seed: Word, a: nat)
    requires ValidConfig(c)
    ensures 0 <= Jittered(seed, Climb(c.baseBackoff, c.retryMax, a)).0 <= Ceiling(c.baseBackoff, c.retryMax, a)
  {
    ClimbUnderCeiling(c.baseBackoff, c.retryMax, a);
    CeilingIsPositive(c.baseBackoff, c.retryMax, a);
  }

  /** Full jitter leaves nothing out: every wait up to a ceiling that 64 bits hold is drawn from some seed. */
  lemma EveryWaitIsDrawn(top: int, v: int) returns (seed: Word)
    requires 0 <= v <= top < MAX_INT64
    ensures Jittered(seed, top).0 == v
  {
    hide JitterRNG.Draw, JitterRNG.StateAfter;
    seed := JitterRNG.SeedDrawing(v);
    SmallResidue(v, top + 1);
  }

  lemma SmallResidue(x: int, n: int)
    requires 0 <= x < n
    ensures x % n == x
  {
  }

  /** Doubling a negative power of two stays negative until it wraps to zero, and zero stays zero. */
  lemma {:induction false} NeverPositive(d: int, k: nat, max: int, n: nat)
    requires (d < 0 && d * Pow2(k) == -MAX_INT64 - 1) || d == 0
    requires max >= 1
    ensures Climb(d, max, n) <= 0
    decreases n
  {
    if n > 0 {
      if d < 0 && k > 0 {
        assert d * Pow2(k) == (d * 2) * Pow2(k - 1);
        GrowsAway(d * 2, Pow2(k - 1));
        NeverPositive(d * 2, k - 1, max, n - 1);
      } else {
        assert Wrap(d * 2) == 0;
        NeverPositive(0, 0, max, n - 1);
      }
    }
  }

  lemma GrowsAway(d: int, p: int)
    requires d < 0 && 1 <= p
    ensures d * p <= d
  {
    assert d * (p - 1) <= 0;
  }

  /** The largest base makes every wait zero: one more than it wraps, and so does its double. */
  lemma TopBaseNeverWaits(max: int, seed: Word, a: nat)
    requires 1 <= max
    ensures Jittered(seed, Climb(MAX_INT64, max, a)).0 == 0
  {
    hide Pow2, Jittered;
    if a > 0 {
      PowersUsed();
      Pow2Quartered(64);
      assert Wrap(MAX_INT64 * 2) == -2;
      NeverPositive(-2, 62, max, a - 1);
    }
    NothingToDraw(seed, Climb(MAX_INT64, max, a));
  }

  lemma NothingToDraw(seed: Word, top: int)
    requires top <= 0 || top == MAX_INT64
    ensures Jittered(seed, top).0 == 0
  {
    hide JitterRNG.Draw, JitterRNG.StateAfter;
  }

  /**
   The cap bounds every wait that can be drawn exactly when it is no smaller than the base, or the base is
   the largest duration there is.  Otherwise some seed makes the first wait the base itself.
   */
  lemma CapBindsIff(base: int, max: int)
    requires 1 <= base <= MAX_INT64 && 1 <= max <= MAX_INT64
    ensures (forall seed: Word, a: nat :: Jittered(seed, Climb(base, max, a)).0 <= max)
            <==> base <= max || base == MAX_INT64
  {
    hide Jittered, Climb;
    if base <= max {
      forall seed: Word, a: nat
        ensures Jittered(seed, Climb(base, max, a)).0 <= max
      {
        JitterUnderCeiling(Config(0, base, max, 1), seed, a);
        CeilingBounds(base, max, a);
      }
    } else if base == MAX_INT64 {
      forall seed: Word, a: nat
        ensures Jittered(seed, Climb(base, max, a)).0 <= max
      {
        TopBaseNeverWaits(max, seed, a);
      }
    } else {
      var seed := EveryWaitIsDrawn(base, base);
      ClimbsFrom(base, max);
      assert Jittered(seed, Climb(base, max, 0)).0 > max;
    }
  }

  lemma ClimbsFrom(base: int, max: int)
    ensures Climb(base, max, 0) == base
  {
  }

  lemma WaitIsAllowed(c: Config, w: World, a: nat, seed: Word)
    requires ValidConfig(c)
    ensures WaitAllowed(c, w, a, WaitAfter(c, w, a, seed).0)
  {
    hide Jittered, Climb, Ceiling;
    JitterUnderCeiling(c, seed, a);
  }

  /** Whatever is drawn, every wait is one the policy allows. */
  lemma {:induction false} WaitsAreAllowed(c: Config, w: World, seed: Word, k: nat)
    requires ValidConfig(c)
    ensures forall a :: 0 <= a < k ==> WaitAllowed(c, w, a, Waits(c, w, seed, k)[a])
  {
    hide WaitAfter, WaitAllowed, SourceAfter;
    if k > 0 {
      WaitsAreAllowed(c, w, seed, k - 1);
      WaitIsAllowed(c, w, k - 1, SourceAfter(c, w, seed, k - 1));
    }
  }

  function Noted(r: Reply): seq<Effect> {
    if RateLimited(r) then [LimitSeen] else []
  }

  /** A failed attempt that is retried. */
  function RetriedRound(w: World, a: nat, d: int): seq<Effect> {
    [Post] + Noted(w.reply(a)) + [Retried, Wait(d)]
  }

  function Rounds(w: World, waits: seq<int>, k: nat): seq<Effect>
    requires k <= |waits|
  {
    if k == 0 then [] else Rounds(w, waits, k - 1) + RetriedRound(w, k - 1, waits[k - 1])
  }

  /** How a delivery ends at its last attempt. */
  function Ending(c: Config, w: World, n: nat, last: nat, waits: seq<int>): seq<Effect>
    requires last <= |waits|
    requires WaitsAtEnd(c, w, last) ==> last < |waits|
  {
    if w.reply(last).Ok? then [Post, Sent(n)]
    else if w.reply(last).Panics? then [Post, Exhausted(n)]
    else if GivesUp(c, w, last) then [Post] + Noted(w.reply(last)) + [Exhausted(n)]
    else RetriedRound(w, last, waits[last]) + [Exhausted(n)]
  }

  /** Only a delivery stopped by its context waits after its last attempt. */
  predicate WaitsAtEnd(c: Config, w: World, last: nat) {
    !w.reply(last).Ok? && !w.reply(last).Panics? && !GivesUp(c, w, last)
  }

  function WaitCount(c: Config, w: World): nat {
    if w.encoding.Body? then LastAttempt(c, w) + (if WaitsAtEnd(c, w, LastAttempt(c, w)) then 1 else 0) else 0
  }

  /** The whole of a delivery of `n` items, given the waits drawn. */
  function Policy(c: Config, w: World, n: nat, waits: seq<int>): seq<Effect>
    requires |waits| == WaitCount(c, w)
  {
    if w.encoding.Body? then
      Rounds(w, waits, LastAttempt(c, w)) + Ending(c, w, n, LastAttempt(c, w), waits)
    else [Exhausted(n)]
  }

  /** How one attempt came out, with the wait taken after it. */
  datatype Verdict = Delivered | Panicked | GaveUp | Expired(d: int) | Again(d: int)

  function AttemptEffects(w: World, n: nat, a: nat, v: Verdict): seq<Effect> {
    match v
    case Delivered => [Post, Sent(n)]
    case Panicked => [Post]
    case GaveUp => [Post] + Noted(w.reply(a)) + [Exhausted(n)]
    case Expired(d) => RetriedRound(w, a, d) + [Exhausted(n)]
    case Again(d) => RetriedRound(w, a, d)
  }

  class Sender {
    const cfg: Config
    const rng: JitterRNG.Jitter
    /** Everything observable so far. */
    var effects: seq<Effect>

    /** The settings as given, durations within 64 bits; gaps are filled in. */
    constructor (s: Settings, rng: JitterRNG.Jitter)
      requires s.baseBackoff <= MAX_INT64 && s.retryMax <= MAX_INT64 && s.rateLimitBackoff <= MAX_INT64
      ensures ValidConfig(cfg) && this.rng == rng && effects == []
      ensures Usable(WithDefaults(s)) && cfg == RetryConfig(WithDefaults(s))
      ensures s.maxRetries >= 0 ==> cfg.maxRetries == s.maxRetries
      ensures s.baseBackoff > 0 ==> cfg.baseBackoff == s.baseBackoff
      ensures s.retryMax > 0 ==> cfg.retryMax == s.retryMax
      ensures s.rateLimitBackoff > 0 ==> cfg.rateLimitBackoff == s.rateLimitBackoff
    {
      this.cfg := RetryConfig(WithDefaults(s));
      this.rng := rng;
      effects := [];
    }

    /** Full jitter under the exponential ceiling. */
    method ExpBackoff(attempt: nat) returns (d: int)
      requires ValidConfig(cfg)
      modifies rng
      ensures 0 <= d <= Ceiling(cfg.baseBackoff, cfg.retryMax, attempt)
      ensures (d, rng.state) == Jittered(old(rng.state), Climb(cfg.baseBackoff, cfg.retryMax, attempt))
    {
      hide JitterRNG.Draw, JitterRNG.StateAfter, Ceiling, Pow2, Wrap;
      d := cfg.baseBackoff;
      var i := 0;
      while i < attempt
        invariant 0 <= i <= attempt
        invariant -MAX_INT64 - 1 <= d <= MAX_INT64
        invariant Climb(cfg.baseBackoff, cfg.retryMax, attempt) == Climb(d, cfg.retryMax, attempt - i)
      {
        d := Wrap(d * 2);
        if d >= cfg.retryMax {
          d := cfg.retryMax;
          break;
        }
        i := i + 1;
      }
      assert d == Climb(cfg.baseBackoff, cfg.retryMax, attempt);
      JitterUnderCeiling(cfg, rng.state, attempt);
      TopWraps();
      d := rng.Intn(Wrap(d + 1));
    }

    /** Gives up exactly where the policy does, and otherwise returns the wait the policy takes. */
    method ClassifyRetry(w: World, attempt: nat) returns (backoff: int, giveUp: bool)
      requires ValidConfig(cfg) && (w.reply(attempt).Failed? || w.reply(attempt).OtherError?)
      modifies this`effects, rng
      ensures effects == old(effects) + Noted(w.reply(attempt))
      ensures giveUp <==> GivesUp(cfg, w, attempt)
      ensures !giveUp ==> (backoff, rng.state) == WaitAfter(cfg, w, attempt, old(rng.state))
      ensures giveUp ==> rng.state == old(rng.state)
    {
      if w.reply(attempt).Failed? && w.reply(attempt).e.rateLimited {
        effects := effects + [LimitSeen];
        if attempt >= cfg.maxRetries {
          return 0, true;
        }
        backoff := cfg.rateLimitBackoff;
        if w.reply(attempt).e.retryAfter > backoff {
          backoff := w.reply(attempt).e.retryAfter;
        }
        return backoff, false;
      }
      if w.reply(attempt).Failed? && !w.reply(attempt).e.retryable {
        return 0, true;
      }
      if attempt >= cfg.maxRetries {
        return 0, true;
      }
      backoff := ExpBackoff(attempt);
      giveUp := false;
    }

    /** One attempt: the body of the retry loop. */
    method Attempt(n: nat, w: World, attempt: nat) returns (next: Verdict)
      requires ValidConfig(cfg)
      modifies this`effects, rng
      ensures effects == old(effects) + AttemptEffects(w, n, attempt, next)
      ensures Explains(cfg, w, attempt, next, old(rng.state), rng.state)
    {
      hide WaitAfter, GivesUp;
      effects := effects + [Post];
      if w.reply(attempt).Ok? {
        effects := effects + [Sent(n)];
        return Delivered;
      }
      if w.reply(attempt).Panics? {
        return Panicked;
      }
      var backoff, giveUp := ClassifyRetry(w, attempt);
      if giveUp {
        effects := effects + [Exhausted(n)];
        return GaveUp;
      }
      effects := effects + [Retried];
      effects := effects + [Wait(backoff)];
      if w.ctxDone(attempt) {
        effects := effects + [Exhausted(n)];
        return Expired(backoff);
      }
      next := Again(backoff);
    }

    /** Carries out the policy for `n` items, but for the report a panic keeps it from making. */
    method DeliverBatch(n: nat, w: World) returns (completed: bool)
      requires ValidConfig(cfg)
      modifies this`effects, rng
      ensures rng.state == SourceAfter(cfg, w, old(rng.state), WaitCount(cfg, w))
      ensures completed <==> !(w.encoding.EncodePanics? || (w.encoding.Body? && w.reply(LastAttempt(cfg, w)).Panics?))
      ensures effects + (if completed then [] else [Exhausted(n)])
              == old(effects) + Policy(cfg, w, n, Waits(cfg, w, old(rng.state), WaitCount(cfg, w)))
    {
      hide *;
      ghost var start, seed := effects, rng.state;
      NothingYet(cfg, w, n, seed, start);
      if w.encoding.EncodePanics? {
        return false;
      }
      if w.encoding.EncodeError? {
        effects := effects + [Exhausted(n)];
        return true;
      }
      var attempt := 0;
      while true
        invariant 0 <= attempt <= LastAttempt(cfg, w)
        invariant effects == start + Rounds(w, Waits(cfg, w, seed, attempt), attempt)
        invariant rng.state == SourceAfter(cfg, w, seed, attempt)
        decreases cfg.maxRetries - attempt
      {
        ghost var before := effects;
        var next := Attempt(n, w, attempt);
        if !next.Again? {
          EndsHere(cfg, w, n, attempt, seed, start, before, next, rng.state);
          return !next.Panicked?;
        }
        GoesOn(cfg, w, n, attempt, seed, start, before, next, rng.state);
        attempt := attempt + 1;
      }
    }

    /** Delivers a batch; a panic is contained and counted as exhausted. */
    method SendWithRetry(n: nat, w: World)
      requires ValidConfig(cfg)
      modifies this`effects, rng
      ensures rng.state == SourceAfter(cfg, w, old(rng.state), WaitCount(cfg, w))
      ensures effects == old(effects) + Policy(cfg, w, n, Waits(cfg, w, old(rng.state), WaitCount(cfg, w)))
    {
      var ok := DeliverBatch(n, w);
      if !ok {
        effects := effects + [Exhausted(n)];
      }
    }
  }

  lemma NothingYet(c: Config, w: World, n: nat, seed: Word, start: seq<Effect>)
    ensures start + Rounds(w, Waits(c, w, seed, 0), 0) == start && SourceAfter(c, w, seed, 0) == seed
    ensures !w.encoding.Body? ==>
              WaitCount(c, w) == 0 && start + Policy(c, w, n, Waits(c, w, seed, 0)) == start + [Exhausted(n)]
    ensures start + [] == start
  {
  }

  /** What the contract of an attempt says of its verdict and of the jitter source afterwards. */
  predicate Explains(c: Config, w: World, a: nat, v: Verdict, was: Word, now: Word) {
    && (v.Delivered? <==> w.reply(a).Ok?)
    && (v.Panicked? <==> w.reply(a).Panics?)
    && (v.GaveUp? ==> GivesUp(c, w, a))
    && (if v.Expired? || v.Again?
        then !GivesUp(c, w, a) && (v.d, now) == WaitAfter(c, w, a, was) && w.ctxDone(a) == v.Expired?
        else now == was)
  }

  lemma WaitsGrow(c: Config, w: World, seed: Word, a: nat, d: int, now: Word)
    requires (d, now) == WaitAfter(c, w, a, SourceAfter(c, w, seed, a))
    ensures Waits(c, w, seed, a + 1) == Waits(c, w, seed, a) + [d] && SourceAfter(c, w, seed, a + 1) == now
  {
    hide WaitAfter;
  }

  lemma RoundAppends(w: World, waits: seq<int>, d: int, k: nat)
    requires k == |waits|
    ensures Rounds(w, waits + [d], k + 1) == Rounds(w, waits, k) + RetriedRound(w, k, d)
  {
    hide RetriedRound;
    RoundsExtend(w, waits, d, k);
  }

  /** The last attempt is the first that qualifies. */
  lemma LastIsFirst(c: Config, w: World, a: nat)
    requires a <= LastAttempt(c, w)
    ensures IsLast(c, w, a) <==> a == LastAttempt(c, w)
    ensures LastAttempt(c, w) <= c.maxRetries
  {
    hide IsLast;
  }

  /** What the last attempt appends is the ending of the policy. */
  lemma EndingIs(c: Config, w: World, n: nat, a: nat, v: Verdict, was: Word, now: Word, waits: seq<int>)
    requires Explains(c, w, a, v, was, now) && !v.Again?
    requires |waits| == a + (if v.Expired? then 1 else 0) && (v.Expired? ==> waits[a] == v.d)
    ensures WaitsAtEnd(c, w, a) == v.Expired? && IsLast(c, w, a)
    ensures AttemptEffects(w, n, a, v) + (if v.Panicked? then [Exhausted(n)] else []) == Ending(c, w, n, a, waits)
  {
    hide WaitAfter, RetriedRound, Noted;
    if !v.Panicked? {
      assert AttemptEffects(w, n, a, v) + [] == AttemptEffects(w, n, a, v);
    }
  }

  /** Once an attempt is the last, what it appends completes the policy. */
  lemma EndsHere(c: Config, w: World, n: nat, a: nat, seed: Word, start: seq<Effect>, before: seq<Effect>,
                 v: Verdict, now: Word)
    requires a <= LastAttempt(c, w) && w.encoding.Body?
    requires before == start + Rounds(w, Waits(c, w, seed, a), a)
    requires Explains(c, w, a, v, SourceAfter(c, w, seed, a), now) && !v.Again?
    ensures var k := WaitCount(c, w);
            && before + AttemptEffects(w, n, a, v) + (if v.Panicked? then [Exhausted(n)] else [])
               == start + Policy(c, w, n, Waits(c, w, seed, k))
            && now == SourceAfter(c, w, seed, k)
    ensures v.Panicked? <==> w.reply(LastAttempt(c, w)).Panics?
  {
    hide Waits, SourceAfter, Rounds, Ending, AttemptEffects, LastAttempt, IsLast, GivesUp, WaitAfter, WaitsAtEnd;
    var was, k := SourceAfter(c, w, seed, a), if v.Expired? then a + 1 else a;
    var waits := Waits(c, w, seed, k);
    if v.Expired? {
      WaitsGrow(c, w, seed, a, v.d, now);
      RoundsExtend(w, Waits(c, w, seed, a), v.d, a);
    }
    EndingIs(c, w, n, a, v, was, now, waits);
    LastIsFirst(c, w, a);
    var tail := if v.Panicked? then [Exhausted(n)] else [];
    Associates(before, AttemptEffects(w, n, a, v), tail);
    Associates(start, Rounds(w, waits, a), Ending(c, w, n, a, waits));
  }

  /** A retried attempt adds one round and one wait. */
  lemma GoesOn(c: Config, w: World, n: nat, a: nat, seed: Word, start: seq<Effect>, before: seq<Effect>,
               v: Verdict, now: Word)
    requires a <= LastAttempt(c, w)
    requires before == start + Rounds(w, Waits(c, w, seed, a), a)
    requires Explains(c, w, a, v, SourceAfter(c, w, seed, a), now) && v.Again?
    ensures a < LastAttempt(c, w) <= c.maxRetries
    ensures before + AttemptEffects(w, n, a, v) == start + Rounds(w, Waits(c, w, seed, a + 1), a + 1)
    ensures now == SourceAfter(c, w, seed, a + 1)
  {
    var d := v.d;
    hide Waits, SourceAfter, Rounds, RetriedRound, LastAttempt, WaitAfter;
    LastIsFirst(c, w, a);
    WaitsGrow(c, w, seed, a, d, now);
    RoundAppends(w, Waits(c, w, seed, a), d, a);
    Associates(start, Rounds(w, Waits(c, w, seed, a), a), RetriedRound(w, a, d));
  }

  lemma TopWraps()
    ensures Wrap(MAX_INT64 + 1) < 0
  {
  }

  lemma CeilingIsPositive(base: int, max: int, n: nat)
    requires 1 <= base && 1 <= max
    ensures Ceiling(base, max, n) >= 1
  {
    assert base * Pow2(n) >= 1;
  }

  lemma {:induction false} RoundsExtend(w: World, waits: seq<int>, d: int, k: nat)
    requires k <= |waits|
    ensures Rounds(w, waits + [d], k) == Rounds(w, waits, k)
  {
    if k > 0 {
      RoundsExtend(w, waits, d, k - 1);
    }
  }

  // ---------------------------------------------------------------- what the policy guarantees

  predicate IsPost(e: Effect) { e.Post? }

  predicate IsOutcome(e: Effect) { e.Sent? || e.Exhausted? }

  predicate IsRetry(e: Effect) { e.Retried? }

  predicate IsLimit(e: Effect) { e.LimitSeen? }

  function Count(es: seq<Effect>, p: Effect -> bool): nat {
    if es == [] then 0 else (if p(es[0]) then 1 else 0) + Count(es[1..], p)
  }

  lemma {:induction false} CountConcat(a: seq<Effect>, b: seq<Effect>, p: Effect -> bool)
    ensures Count(a + b, p) == Count(a, p) + Count(b, p)
  {
    if a == [] {
      assert a + b == b;
    } else {
      assert (a + b)[1..] == a[1..] + b;
      CountConcat(a[1..], b, p);
    }
  }

  /** The attempts before `k` that were answered with a rate limit. */
  function LimitedBefore(w: World, k: nat): nat {
    if k == 0 then 0 else LimitedBefore(w, k - 1) + if RateLimited(w.reply(k - 1)) then 1 else 0
  }

  lemma CountsInRound(w: World, a: nat, d: int)
    ensures var r := RetriedRound(w, a, d);
            && Count(r, IsPost) == 1 && Count(r, IsOutcome) == 0 && Count(r, IsRetry) == 1
            && Count(r, IsLimit) == if RateLimited(w.reply(a)) then 1 else 0
  {
    var r := RetriedRound(w, a, d);
    assert r == if RateLimited(w.reply(a)) then [Post, LimitSeen, Retried, Wait(d)] else [Post, Retried, Wait(d)];
    CountShort(r, IsPost);
    CountShort(r, IsOutcome);
    CountShort(r, IsRetry);
    CountShort(r, IsLimit);
  }

  lemma CountShort(es: seq<Effect>, p: Effect -> bool)
    requires |es| <= 4
    ensures Count(es, p) == CountAt(es, p, 0) + CountAt(es, p, 1) + CountAt(es, p, 2) + CountAt(es, p, 3)
  {
    if |es| > 1 {
      assert es[1..][1..] == es[2..];
    }
    if |es| > 2 {
      assert es[2..][1..] == es[3..];
      assert Count(es[1..], p) == (if p(es[1]) then 1 else 0) + Count(es[2..], p);
    }
    if |es| > 3 {
      assert Count(es[3..], p) == if p(es[3]) then 1 else 0;
    }
  }

  function CountAt(es: seq<Effect>, p: Effect -> bool, i: nat): nat {
    if i < |es| && p(es[i]) then 1 else 0
  }

  lemma {:induction false} CountsInRounds(w: World, waits: seq<int>, k: nat)
    requires k <= |waits|
    ensures var r := Rounds(w, waits, k);
            && Count(r, IsPost) == k && Count(r, IsOutcome) == 0 && Count(r, IsRetry) == k
            && Count(r, IsLimit) == LimitedBefore(w, k)
  {
    if k > 0 {
      CountsInRounds(w, waits, k - 1);
      CountsInRound(w, k - 1, waits[k - 1]);
      var a, b := Rounds(w, waits, k - 1), RetriedRound(w, k - 1, waits[k - 1]);
      CountConcat(a, b, IsPost);
      CountConcat(a, b, IsOutcome);
      CountConcat(a, b, IsRetry);
      CountConcat(a, b, IsLimit);
    }
  }

  lemma CountsInEnding(c: Config, w: World, n: nat, last: nat, waits: seq<int>)
    requires last <= |waits| && (WaitsAtEnd(c, w, last) ==> last < |waits|)
    ensures var e := Ending(c, w, n, last, waits);
            && Count(e, IsPost) == 1 && Count(e, IsOutcome) == 1
            && Count(e, IsRetry) == (if WaitsAtEnd(c, w, last) then 1 else 0)
            && Count(e, IsLimit) == (if RateLimited(w.reply(last)) then 1 else 0)
            && e[|e| - 1] == if w.reply(last).Ok? then Sent(n) else Exhausted(n)
  {
    if WaitsAtEnd(c, w, last) {
      var r := RetriedRound(w, last, waits[last]);
      CountsInRound(w, last, waits[last]);
      CountConcat(r, [Exhausted(n)], IsPost);
      CountConcat(r, [Exhausted(n)], IsOutcome);
      CountConcat(r, [Exhausted(n)], IsRetry);
      CountConcat(r, [Exhausted(n)], IsLimit);
    } else {
      var e := Ending(c, w, n, last, waits);
      assert |e| <= 3;
      CountShort(e, IsPost);
      CountShort(e, IsOutcome);
      CountShort(e, IsRetry);
      CountShort(e, IsLimit);
    }
  }

  /**
   Whatever the replies, the context and the panics: at most one post more than the allowed retries,
   one retry notice per wait, one notice per rate-limited reply, and the batch reported exactly once,
   at the very end: as sent exactly when the last attempt succeeded, as exhausted otherwise.
   */
  lemma DeliveryReportsOnce(c: Config, w: World, n: nat, waits: seq<int>)
    requires |waits| == WaitCount(c, w)
    ensures var es := Policy(c, w, n, waits);
            && Count(es, IsPost) == (if w.encoding.Body? then LastAttempt(c, w) + 1 else 0) <= c.maxRetries + 1
            && Count(es, IsRetry) == |waits|
            && Count(es, IsLimit) == (if w.encoding.Body? then LimitedBefore(w, LastAttempt(c, w) + 1) else 0)
            && Count(es, IsOutcome) == 1
            && es[|es| - 1] == if w.encoding.Body? && w.reply(LastAttempt(c, w)).Ok? then Sent(n) else Exhausted(n)
  {
    if w.encoding.Body? {
      var last := LastAttempt(c, w);
      CountsInRounds(w, waits, last);
      CountsInEnding(c, w, n, last, waits);
      var a, b := Rounds(w, waits, last), Ending(c, w, n, last, waits);
      CountConcat(a, b, IsPost);
      CountConcat(a, b, IsOutcome);
      CountConcat(a, b, IsRetry);
      CountConcat(a, b, IsLimit);
    } else {
      assert Policy(c, w, n, waits) == [Exhausted(n)];
    }
  }

  /**
   A batch is sent exactly when some attempt within the retry limit succeeds and every earlier one
   failed transiently with the context still alive after its wait.
   */
  lemma SentIff(c: Config, w: World)
    ensures w.reply(LastAttempt(c, w)).Ok? <==>
            exists a: nat :: a <= c.maxRetries && w.reply(a).Ok? && Reaches(w, a)
  {
    var last := LastAttempt(c, w);
    if w.reply(last).Ok? {
      forall b: nat | b < last
        ensures !w.reply(b).Ok? && !w.reply(b).Panics? && !Permanent(w.reply(b)) && !w.ctxDone(b)
      {
        assert !IsLast(c, w, b);
      }
      assert Reaches(w, last);
    }
    forall a | 0 <= a <= c.maxRetries && w.reply(a).Ok? && Reaches(w, a)
      ensures w.reply(last).Ok?
    {
      assert IsLast(c, w, a);
      assert last <= a;
    }
  }

  /** Every attempt before `a` failed transiently, with the context still alive after its wait. */
  predicate Reaches(w: World, a: nat) {
    forall b: nat :: b < a ==> !w.reply(b).Ok? && !w.reply(b).Panics? && !Permanent(w.reply(b)) && !w.ctxDone(b)
  }

  /** The waits that are not rate limits, added up. */
  function BackoffTotal(w: World, waits: seq<int>, k: nat): int
    requires k <= |waits|
  {
    if k == 0 then 0
    else BackoffTotal(w, waits, k - 1) + if RateLimited(w.reply(k - 1)) then 0 else waits[k - 1]
  }

  /** The largest single backoff. */
  function Most(c: Config): int {
    if c.baseBackoff < c.retryMax then c.retryMax else c.baseBackoff
  }

  /** The backoff waits of a delivery with k waits add up to at most base * (2^k - 1) and k * max(base, cap). */
  lemma {:induction false} BackoffIsBounded(c: Config, w: World, waits: seq<int>, k: nat)
    requires ValidConfig(c) && k <= |waits|
    requires forall a :: 0 <= a < |waits| ==> WaitAllowed(c, w, a, waits[a])
    ensures 0 <= BackoffTotal(w, waits, k) <= c.baseBackoff * (Pow2(k) - 1)
    ensures BackoffTotal(w, waits, k) <= k * Most(c)
  {
    if k > 0 {
      BackoffIsBounded(c, w, waits, k - 1);
      assert WaitAllowed(c, w, k - 1, waits[k - 1]);
      CeilingBounds(c.baseBackoff, c.retryMax, k - 1);
      CeilingIsPositive(c.baseBackoff, c.retryMax, k - 1);
      GeometricStep(c.baseBackoff, k);
      MulStep(k, Most(c));
    }
  }

  lemma CeilingBounds(base: int, max: int, n: nat)
    requires 1 <= base && 1 <= max
    ensures Ceiling(base, max, n) <= base * Pow2(n)
    ensures Ceiling(base, max, n) <= if base < max then max else base
  {
    assert base * (Pow2(n) - 1) >= 0;
  }

  lemma GeometricStep(base: int, k: nat)
    requires k > 0
    ensures base * (Pow2(k) - 1) == base * (Pow2(k - 1) - 1) + base * Pow2(k - 1)
  {
    assert Pow2(k) == Pow2(k - 1) + Pow2(k - 1);
  }

  lemma MulStep(k: nat, x: int)
    requires k > 0
    ensures k * x == (k - 1) * x + x
  {
  }
}
