/**
 The reference policy read from outside: its effects as a timeline of posts and waits, as a run of a
 step-by-step observer, and as reports folded into the self-metrics counters.
 */
module DeliveryLaws {
  import opened Basics
  import opened Delivery
  import opened Responses
  import opened Words
  import JitterRNG

  // ---------------------------------------------------------------- posts and waits

  function Timeline(es: seq<Effect>): seq<Effect> {
    if es == [] then []
    else (if es[0].Post? || es[0].Wait? then [es[0]] else []) + Timeline(es[1..])
  }

  function Durations(es: seq<Effect>): seq<int> {
    if es == [] then [] else (if es[0].Wait? then [es[0].d] else []) + Durations(es[1..])
  }

  lemma {:induction false} TimelineConcat(a: seq<Effect>, b: seq<Effect>)
    ensures Timeline(a + b) == Timeline(a) + Timeline(b)
    ensures Durations(a + b) == Durations(a) + Durations(b)
  {
    hide Timeline, Durations;
    if a == [] {
      EmptyTimeline();
      assert [] + b == b;
    } else {
      assert (a + b)[1..] == a[1..] + b;
      TimelineConcat(a[1..], b);
      FirstInTimeline(a);
      FirstInTimeline(a + b);
      Associates(Kept(a, 0), Timeline(a[1..]), Timeline(b));
      Associates(Lasting(a, 0), Durations(a[1..]), Durations(b));
    }
  }

  lemma EmptyTimeline()
    ensures Timeline([]) == [] && Durations([]) == []
  {
  }

  lemma FirstInTimeline(es: seq<Effect>)
    requires es != []
    ensures Timeline(es) == Kept(es, 0) + Timeline(es[1..]) && Durations(es) == Lasting(es, 0) + Durations(es[1..])
  {
  }

  /** A post before each wait. */
  function Alternation(waits: seq<int>): seq<Effect> {
    if waits == [] then [] else Alternation(waits[..|waits| - 1]) + [Post, Wait(waits[|waits| - 1])]
  }

  lemma RoundTimeline(w: World, a: nat, d: int)
    ensures Timeline(RetriedRound(w, a, d)) == [Post, Wait(d)] && Durations(RetriedRound(w, a, d)) == [d]
  {
    ShortTimeline([Retried, Wait(d)]);
    ShortTimeline(Noted(w.reply(a)));
    TimelineConcat([Post] + Noted(w.reply(a)), [Retried, Wait(d)]);
    TimelineConcat([Post], Noted(w.reply(a)));
  }

  lemma ShortTimeline(es: seq<Effect>)
    requires |es| <= 2
    ensures Timeline(es) == Kept(es, 0) + Kept(es, 1)
    ensures Durations(es) == Lasting(es, 0) + Lasting(es, 1)
  {
    if |es| == 2 {
      assert es == es[..1] + [es[1]] && es[..1] == [es[0]];
      TimelineConcat(es[..1], [es[1]]);
      OneTimeline(es[0]);
      OneTimeline(es[1]);
    } else if |es| == 1 {
      assert es == [es[0]];
      OneTimeline(es[0]);
    }
  }

  lemma OneTimeline(e: Effect)
    ensures Timeline([e]) == if e.Post? || e.Wait? then [e] else []
    ensures Durations([e]) == if e.Wait? then [e.d] else []
  {
    assert [e][1..] == [];
  }

  function Kept(es: seq<Effect>, i: nat): seq<Effect> {
    if i < |es| && (es[i].Post? || es[i].Wait?) then [es[i]] else []
  }

  function Lasting(es: seq<Effect>, i: nat): seq<int> {
    if i < |es| && es[i].Wait? then [es[i].d] else []
  }

  lemma {:induction false} RoundsTimeline(w: World, waits: seq<int>, k: nat)
    requires k <= |waits|
    ensures Timeline(Rounds(w, waits, k)) == Alternation(waits[..k])
    ensures Durations(Rounds(w, waits, k)) == waits[..k]
  {
    hide RetriedRound;
    if k > 0 {
      RoundsTimeline(w, waits, k - 1);
      RoundTimeline(w, k - 1, waits[k - 1]);
      TimelineConcat(Rounds(w, waits, k - 1), RetriedRound(w, k - 1, waits[k - 1]));
      assert waits[..k][..k - 1] == waits[..k - 1];
      assert waits[..k] == waits[..k - 1] + [waits[k - 1]];
    }
  }

  lemma EndingTimeline(c: Delivery.Config, w: World, n: nat, last: nat, waits: seq<int>)
    requires last <= |waits| && (WaitsAtEnd(c, w, last) ==> last < |waits|)
    ensures Timeline(Ending(c, w, n, last, waits))
            == if WaitsAtEnd(c, w, last) then [Post, Wait(waits[last])] else [Post]
    ensures Durations(Ending(c, w, n, last, waits)) == if WaitsAtEnd(c, w, last) then [waits[last]] else []
  {
    hide RetriedRound, GivesUp;
    if WaitsAtEnd(c, w, last) {
      RoundTimeline(w, last, waits[last]);
      ShortTimeline([Exhausted(n)]);
      TimelineConcat(RetriedRound(w, last, waits[last]), [Exhausted(n)]);
    } else if w.reply(last).Ok? {
      ShortTimeline([Post, Sent(n)]);
    } else if w.reply(last).Panics? {
      ShortTimeline([Post, Exhausted(n)]);
    } else {
      ShortTimeline([Post]);
      ShortTimeline(Noted(w.reply(last)));
      ShortTimeline([Exhausted(n)]);
      TimelineConcat([Post] + Noted(w.reply(last)), [Exhausted(n)]);
      TimelineConcat([Post], Noted(w.reply(last)));
    }
  }

  /**
   Every wait decided is taken, for exactly as long, and exactly one stands between two consecutive posts:
   posts and waits alternate, beginning with a post, and a wait is last only if the context ended it all.
   */
  lemma WaitsStandBetweenPosts(c: Delivery.Config, w: World, n: nat, waits: seq<int>)
    requires |waits| == WaitCount(c, w)
    ensures Durations(Policy(c, w, n, waits)) == waits
    ensures Timeline(Policy(c, w, n, waits)) ==
            if !w.encoding.Body? then []
            else if WaitsAtEnd(c, w, LastAttempt(c, w)) then Alternation(waits)
            else Alternation(waits) + [Post]
  {
    hide Rounds, Ending, LastAttempt, WaitsAtEnd, Timeline, Durations, Alternation;
    if w.encoding.Body? {
      var last := LastAttempt(c, w);
      RoundsTimeline(w, waits, last);
      EndingTimeline(c, w, n, last, waits);
      TimelineConcat(Rounds(w, waits, last), Ending(c, w, n, last, waits));
      if WaitsAtEnd(c, w, last) {
        OneMoreWait(waits);
        assert waits[..last] + [waits[last]] == waits;
      } else {
        assert waits[..last] == waits && waits + [] == waits;
      }
    } else {
      NoTimeline(n);
    }
  }

  lemma OneMoreWait(waits: seq<int>)
    requires waits != []
    ensures Alternation(waits) == Alternation(waits[..|waits| - 1]) + [Post, Wait(waits[|waits| - 1])]
  {
  }

  lemma NoTimeline(n: nat)
    ensures Timeline([Exhausted(n)]) == [] && Durations([Exhausted(n)]) == []
  {
    ShortTimeline([Exhausted(n)]);
  }

  // ---------------------------------------------------------------- an observer of deliveries

  /**
   What an observer accepts from attempt `a` on, one effect after the other: a post, the notice of a rate
   limit, and then the report that ends it all, or a retry notice and an allowed wait, after which a
   context that is done ends it all and any other lets the next attempt begin.
   */
  predicate Accepts(c: Delivery.Config, w: World, n: nat, a: nat, es: seq<Effect>)
    decreases |es|, 0
  {
    es != [] && es[0] == Post && AcceptsReply(c, w, n, a, es[1..])
  }

  predicate AcceptsReply(c: Delivery.Config, w: World, n: nat, a: nat, es: seq<Effect>)
    decreases |es|, 2
  {
    if w.reply(a).Ok? then es == [Sent(n)]
    else if w.reply(a).Panics? then es == [Exhausted(n)]
    else if RateLimited(w.reply(a)) then es != [] && es[0] == LimitSeen && AcceptsDecision(c, w, n, a, es[1..])
    else AcceptsDecision(c, w, n, a, es)
  }

  predicate AcceptsDecision(c: Delivery.Config, w: World, n: nat, a: nat, es: seq<Effect>)
    decreases |es|, 1
  {
    if Permanent(w.reply(a)) || a >= c.maxRetries then es == [Exhausted(n)]
    else
      && |es| > 2 && es[0] == Retried && es[1].Wait? && WaitAllowed(c, w, a, es[1].d)
      && if w.ctxDone(a) then es[2..] == [Exhausted(n)] else Accepts(c, w, n, a + 1, es[2..])
  }

  /** The rounds from attempt `a` to the last one, and the ending. */
  function From(c: Delivery.Config, w: World, n: nat, a: nat, last: nat, waits: seq<int>): seq<Effect>
    requires a <= last <= |waits| && (WaitsAtEnd(c, w, last) ==> last < |waits|)
    decreases last - a
  {
    if a == last then Ending(c, w, n, last, waits)
    else RetriedRound(w, a, waits[a]) + From(c, w, n, a + 1, last, waits)
  }

  lemma {:induction false} RoundsThenFrom(c: Delivery.Config, w: World, n: nat, a: nat, last: nat, waits: seq<int>)
    requires a <= last <= |waits| && (WaitsAtEnd(c, w, last) ==> last < |waits|)
    ensures Rounds(w, waits, last) + Ending(c, w, n, last, waits) == Rounds(w, waits, a) + From(c, w, n, a, last, waits)
    decreases last - a
  {
    hide RetriedRound, Ending, WaitsAtEnd;
    if a < last {
      RoundsThenFrom(c, w, n, a + 1, last, waits);
      Associates(Rounds(w, waits, a), RetriedRound(w, a, waits[a]), From(c, w, n, a + 1, last, waits));
    }
  }

  lemma {:induction false} FromIsAccepted(c: Delivery.Config, w: World, n: nat, a: nat, waits: seq<int>)
    requires w.encoding.Body? && a <= LastAttempt(c, w) && |waits| == WaitCount(c, w)
    requires forall i :: 0 <= i < |waits| ==> WaitAllowed(c, w, i, waits[i])
    ensures Accepts(c, w, n, a, From(c, w, n, a, LastAttempt(c, w), waits))
    decreases LastAttempt(c, w) - a
  {
    hide WaitAllowed, LastAttempt;
    var last := LastAttempt(c, w);
    LastIsFirst(c, w, a);
    if a == last {
      EndingIsAccepted(c, w, n, a, waits);
    } else {
      FromIsAccepted(c, w, n, a + 1, waits);
      RoundIsAccepted(c, w, n, a, waits[a], From(c, w, n, a + 1, last, waits));
    }
  }

  lemma RoundIsAccepted(c: Delivery.Config, w: World, n: nat, a: nat, d: int, es: seq<Effect>)
    requires !IsLast(c, w, a) && WaitAllowed(c, w, a, d) && Accepts(c, w, n, a + 1, es)
    ensures Accepts(c, w, n, a, RetriedRound(w, a, d) + es)
  {
    hide WaitAllowed;
    var rest := [Retried, Wait(d)] + es;
    assert rest[2..] == es;
    Associates([Post] + Noted(w.reply(a)), [Retried, Wait(d)], es);
    NoticeIsAccepted(c, w, n, a, rest);
  }

  /** After a failure, a post and the notice due leave the decision to come. */
  lemma NoticeIsAccepted(c: Delivery.Config, w: World, n: nat, a: nat, rest: seq<Effect>)
    requires !w.reply(a).Ok? && !w.reply(a).Panics? && AcceptsDecision(c, w, n, a, rest)
    ensures Accepts(c, w, n, a, ([Post] + Noted(w.reply(a))) + rest)
  {
    hide AcceptsDecision;
    var es := ([Post] + Noted(w.reply(a))) + rest;
    if RateLimited(w.reply(a)) {
      assert es[1..] == [LimitSeen] + rest && es[1..][1..] == rest;
    } else {
      assert es[1..] == rest;
    }
  }

  lemma EndingIsAccepted(c: Delivery.Config, w: World, n: nat, a: nat, waits: seq<int>)
    requires IsLast(c, w, a) && a <= |waits|
    requires WaitsAtEnd(c, w, a) ==> a < |waits| && WaitAllowed(c, w, a, waits[a])
    ensures Accepts(c, w, n, a, Ending(c, w, n, a, waits))
  {
    hide WaitAllowed;
    var es := Ending(c, w, n, a, waits);
    if WaitsAtEnd(c, w, a) {
      var rest := [Retried, Wait(waits[a]), Exhausted(n)];
      assert rest[2..] == [Exhausted(n)];
      NoticeIsAccepted(c, w, n, a, rest);
      assert es == ([Post] + Noted(w.reply(a))) + rest;
    } else if !w.reply(a).Ok? && !w.reply(a).Panics? {
      NoticeIsAccepted(c, w, n, a, [Exhausted(n)]);
    } else {
      assert es[1..] == [if w.reply(a).Ok? then Sent(n) else Exhausted(n)];
    }
  }

  /** The observer accepts every delivery, with the waits drawn whatever the state of the jitter source. */
  lemma DeliveriesAreAccepted(c: Delivery.Config, w: World, n: nat, seed: Word)
    requires Delivery.ValidConfig(c) && w.encoding.Body?
    ensures Accepts(c, w, n, 0, Policy(c, w, n, Waits(c, w, seed, WaitCount(c, w))))
  {
    hide Accepts, WaitAllowed, LastAttempt, WaitsAtEnd, Rounds, Ending, From;
    var waits := Waits(c, w, seed, WaitCount(c, w));
    WaitsAreAllowed(c, w, seed, WaitCount(c, w));
    FromIsAccepted(c, w, n, 0, waits);
    RoundsThenFrom(c, w, n, 0, LastAttempt(c, w), waits);
    NoRounds(w, waits);
    assert [] + From(c, w, n, 0, LastAttempt(c, w), waits) == From(c, w, n, 0, LastAttempt(c, w), waits);
  }

  lemma NoRounds(w: World, waits: seq<int>)
    ensures Rounds(w, waits, 0) == []
  {
  }

  // ---------------------------------------------------------------- what the backoff can be

  /**
   After a transient failure every wait from zero to the promised ceiling is drawn from some state of the
   source, if and only if the doubling loop is exact at that attempt.
   */
  lemma BackoffIsFullIff(c: Delivery.Config, w: World, a: nat)
    requires Delivery.ValidConfig(c) && !RateLimited(w.reply(a))
    ensures (forall v :: 0 <= v <= Ceiling(c.baseBackoff, c.retryMax, a) ==> IsTaken(c, w, a, v))
            <==> ClimbIsExact(c.baseBackoff, c.retryMax, a)
  {
    hide Climb, Ceiling, Jittered, JitterRNG.Draw, JitterRNG.StateAfter, Pow2;
    var top, bound := Climb(c.baseBackoff, c.retryMax, a), Ceiling(c.baseBackoff, c.retryMax, a);
    CeilingIsPositive(c.baseBackoff, c.retryMax, a);
    if ClimbIsExact(c.baseBackoff, c.retryMax, a) {
      forall v | 0 <= v <= bound
        ensures IsTaken(c, w, a, v)
      {
        var seed := EveryWaitIsDrawn(top, v);
        assert WaitAfter(c, w, a, seed).0 == v;
      }
    } else if IsTaken(c, w, a, bound) {
      var seed :| WaitAfter(c, w, a, seed).0 == bound;
      ShortOfCeiling(c, seed, a);
      assert false;
    }
  }

  ghost predicate IsTaken(c: Delivery.Config, w: World, a: nat, v: int) {
    exists seed: Word :: WaitAfter(c, w, a, seed).0 == v
  }

  lemma ShortOfCeiling(c: Delivery.Config, seed: Word, a: nat)
    requires Delivery.ValidConfig(c) && !ClimbIsExact(c.baseBackoff, c.retryMax, a)
    ensures Jittered(seed, Climb(c.baseBackoff, c.retryMax, a)).0 < Ceiling(c.baseBackoff, c.retryMax, a)
  {
    hide Climb, Ceiling, JitterRNG.Draw, JitterRNG.StateAfter, Pow2;
    ClimbUnderCeiling(c.baseBackoff, c.retryMax, a);
    CeilingIsPositive(c.baseBackoff, c.retryMax, a);
  }

  /** With an ordinary configuration the backoff after any transient failure is full jitter, at every attempt. */
  lemma BackoffIsFull(c: Delivery.Config, w: World, a: nat, v: int) returns (seed: Word)
    requires Delivery.ValidConfig(c) && RangeSuffices(c.baseBackoff, c.retryMax) && !RateLimited(w.reply(a))
    requires 0 <= v <= Ceiling(c.baseBackoff, c.retryMax, a)
    ensures WaitAfter(c, w, a, seed).0 == v
  {
    hide Ceiling, WaitAfter, Climb;
    ExactInRange(c.baseBackoff, c.retryMax, a);
    BackoffIsFullIff(c, w, a);
    assert IsTaken(c, w, a, v);
    seed :| WaitAfter(c, w, a, seed).0 == v;
  }

  /** A backoff takes exactly one draw, and a wait after a rate limit takes none and is the longer of the two. */
  lemma OneDrawPerBackoff(c: Delivery.Config, w: World, a: nat, seed: Word)
    requires Delivery.ValidConfig(c)
    ensures !RateLimited(w.reply(a)) && RangeSuffices(c.baseBackoff, c.retryMax) ==>
              WaitAfter(c, w, a, seed).1 == JitterRNG.StateAfter(seed, 1)
    ensures RateLimited(w.reply(a)) ==>
              && WaitAfter(c, w, a, seed).1 == seed
              && WaitAfter(c, w, a, seed).0 >= c.rateLimitBackoff
              && WaitAfter(c, w, a, seed).0 >= w.reply(a).e.retryAfter
              && (WaitAfter(c, w, a, seed).0 == c.rateLimitBackoff
                  || WaitAfter(c, w, a, seed).0 == w.reply(a).e.retryAfter)
  {
    hide Climb, Ceiling, JitterRNG.Draw, JitterRNG.StateAfter, Pow2;
    if RangeSuffices(c.baseBackoff, c.retryMax) {
      ExactInRange(c.baseBackoff, c.retryMax, a);
      CeilingIsPositive(c.baseBackoff, c.retryMax, a);
    }
  }

  // ---------------------------------------------------------------- the reports, counted

  /** What the observer adds to the two counters for a run of effects. */
  function CountSent(es: seq<Effect>): nat {
    if es == [] then 0 else (if es[0].Sent? then es[0].n else 0) + CountSent(es[1..])
  }

  function CountDropped(es: seq<Effect>): nat {
    if es == [] then 0 else (if es[0].Exhausted? then es[0].n else 0) + CountDropped(es[1..])
  }

  lemma {:induction false} CountsConcat(a: seq<Effect>, b: seq<Effect>)
    ensures CountSent(a + b) == CountSent(a) + CountSent(b)
    ensures CountDropped(a + b) == CountDropped(a) + CountDropped(b)
  {
    if a == [] {
      assert a + b == b;
    } else {
      assert (a + b)[1..] == a[1..] + b;
      CountsConcat(a[1..], b);
    }
  }

  lemma CountOne(e: Effect)
    ensures CountSent([e]) == (if e.Sent? then e.n else 0) && CountDropped([e]) == if e.Exhausted? then e.n else 0
  {
    assert [e][1..] == [];
  }

  lemma {:induction false} NothingCounted(es: seq<Effect>)
    requires Count(es, IsOutcome) == 0
    ensures CountSent(es) == 0 && CountDropped(es) == 0
  {
    if es != [] {
      NothingCounted(es[1..]);
    }
  }

  /** Whether a delivery ends with its batch sent. */
  predicate Succeeds(c: Delivery.Config, w: World) {
    w.encoding.Body? && w.reply(LastAttempt(c, w)).Ok?
  }

  /** A delivery raises exactly one of the two counters, by its whole batch. */
  lemma DeliveryCountsItsBatch(c: Delivery.Config, w: World, n: nat, waits: seq<int>)
    requires |waits| == WaitCount(c, w)
    ensures CountSent(Policy(c, w, n, waits)) == if Succeeds(c, w) then n else 0
    ensures CountDropped(Policy(c, w, n, waits)) == if Succeeds(c, w) then 0 else n
  {
    hide Policy, LastAttempt, Count;
    var es := Policy(c, w, n, waits);
    DeliveryReportsOnce(c, w, n, waits);
    SplitReport(es);
    var k := |es| - 1;
    NothingCounted(es[..k]);
    CountsConcat(es[..k], [es[k]]);
    CountOne(es[k]);
    assert es == es[..k] + [es[k]];
  }

  lemma SplitReport(es: seq<Effect>)
    requires Count(es, IsOutcome) == 1
    ensures es != [] && (IsOutcome(es[|es| - 1]) ==> Count(es[..|es| - 1], IsOutcome) == 0)
  {
    var k := |es| - 1;
    CountConcat(es[..k], [es[k]], IsOutcome);
    assert es == es[..k] + [es[k]];
    assert [es[k]][1..] == [];
  }
}
