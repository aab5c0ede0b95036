/**
 Safety of the pipeline over every run: where events are, what the counters say, how much is in use, and
 when the worker sleeps.
 */
module ProtocolSafety {
  import opened Basics
  import opened RingSpec
  import opened Protocol
  import opened ProtocolInvariant

  // ---------------------------------------------------------------- exactly one place

  /** A position an event can be at. */
  datatype Place =
    | InRing(i: nat)
    | AmongEvicted(i: nat)
    | AmongDelivered(i: nat)
    | AmongExhausted(i: nat)
    | WithThread(t: nat, i: nat)

  predicate IsAt(s: State, e: Ev, p: Place) {
    match p
    case InRing(i) => i < |s.g.ring| && s.g.ring[i].item == e
    case AmongEvicted(i) => i < |s.g.evicted| && s.g.evicted[i] == e
    case AmongDelivered(i) => i < |s.g.delivered| && s.g.delivered[i] == e
    case AmongExhausted(i) => i < |s.g.exhausted| && s.g.exhausted[i] == e
    case WithThread(t, i) => t < |s.threads| && i < |HeldBy(s.threads[t])| && HeldBy(s.threads[t])[i] == e
  }

  lemma TwoIndices(s: seq<Ev>, i: nat, j: nat)
    requires i < j < |s| && s[i] == s[j]
    ensures multiset(s)[s[i]] >= 2
  {
    assert s == s[..j] + s[j..];
    assert s[..j][i] == s[i] && s[j..][0] == s[j];
    assert s[i] in multiset(s[..j]) && s[i] in multiset(s[j..]);
  }

  lemma {:induction false} HeldHas(ths: seq<Thread>, t: nat)
    requires t < |ths|
    ensures multiset(HeldBy(ths[t])) <= Held(ths)
  {
    hide HeldBy;
    var n := |ths| - 1;
    if t < n {
      HeldHas(ths[..n], t);
    }
  }

  lemma {:induction false} TwoHolders(ths: seq<Thread>, t: nat, u: nat, e: Ev)
    requires t < u < |ths| && e in HeldBy(ths[t]) && e in HeldBy(ths[u])
    ensures Held(ths)[e] >= 2
  {
    hide HeldBy;
    var n := |ths| - 1;
    if u < n {
      TwoHolders(ths[..n], t, u, e);
    } else {
      HeldHas(ths[..n], t);
      AtLeastOne(HeldBy(ths[t]), Held(ths[..n]), e);
      AtLeastOne(HeldBy(ths[n]), multiset(HeldBy(ths[n])), e);
    }
  }

  lemma AtLeastOne(s: seq<Ev>, m: multiset<Ev>, e: Ev)
    requires multiset(s) <= m && e in s
    ensures m[e] >= 1
  {
    assert e in multiset(s);
  }

  lemma {:induction false} HeldWitness(ths: seq<Thread>, e: Ev) returns (t: nat)
    requires e in Held(ths)
    ensures t < |ths| && e in HeldBy(ths[t])
  {
    var n := |ths| - 1;
    if e in HeldBy(ths[n]) {
      t := n;
    } else {
      t := HeldWitness(ths[..n], e);
    }
  }

  /** How often an event occurs in each kind of place. */
  function Occurrences(s: State, e: Ev, p: Place): nat {
    match p
    case InRing(_) => multiset(Items<Ev>(s.g.ring))[e]
    case AmongEvicted(_) => multiset(s.g.evicted)[e]
    case AmongDelivered(_) => multiset(s.g.delivered)[e]
    case AmongExhausted(_) => multiset(s.g.exhausted)[e]
    case WithThread(_, _) => Held(s.threads)[e]
  }

  predicate SameKind(p: Place, q: Place) {
    || (p.InRing? && q.InRing?)
    || (p.AmongEvicted? && q.AmongEvicted?)
    || (p.AmongDelivered? && q.AmongDelivered?)
    || (p.AmongExhausted? && q.AmongExhausted?)
    || (p.WithThread? && q.WithThread?)
  }

  lemma TotalOccurrences(s: State, e: Ev)
    requires Conserved(s)
    ensures Occurrences(s, e, InRing(0)) + Occurrences(s, e, AmongEvicted(0)) + Occurrences(s, e, AmongDelivered(0))
            + Occurrences(s, e, AmongExhausted(0)) + Occurrences(s, e, WithThread(0, 0))
            == if e < s.g.captured then 1 else 0
  {
    FirstEventsOnce(s.g.captured, e);
    assert (Public(s.g) + Held(s.threads))[e] == FirstEvents(s.g.captured)[e];
  }

  lemma PlaceOccurs(s: State, e: Ev, p: Place)
    requires IsAt(s, e, p)
    ensures Occurrences(s, e, p) >= 1
  {
    match p
    case InRing(i) => assert Items<Ev>(s.g.ring)[i] == e;
    case AmongEvicted(i) => assert s.g.evicted[i] == e;
    case AmongDelivered(i) => assert s.g.delivered[i] == e;
    case AmongExhausted(i) => assert s.g.exhausted[i] == e;
    case WithThread(t, i) =>
      HeldHas(s.threads, t);
      assert e in multiset(HeldBy(s.threads[t]));
  }

  lemma TwoPlacesOccurTwice(s: State, e: Ev, p: Place, q: Place)
    requires IsAt(s, e, p) && IsAt(s, e, q) && p != q && SameKind(p, q)
    ensures Occurrences(s, e, p) >= 2
  {
    match p
    case InRing(i) => TwoIndices(Items<Ev>(s.g.ring), if i < q.i then i else q.i, if i < q.i then q.i else i);
    case AmongEvicted(i) => TwoIndices(s.g.evicted, if i < q.i then i else q.i, if i < q.i then q.i else i);
    case AmongDelivered(i) => TwoIndices(s.g.delivered, if i < q.i then i else q.i, if i < q.i then q.i else i);
    case AmongExhausted(i) => TwoIndices(s.g.exhausted, if i < q.i then i else q.i, if i < q.i then q.i else i);
    case WithThread(t, i) =>
      if t == q.t {
        TwoIndices(HeldBy(s.threads[t]), if i < q.i then i else q.i, if i < q.i then q.i else i);
        HeldHas(s.threads, t);
      } else {
        TwoHolders(s.threads, if t < q.t then t else q.t, if t < q.t then q.t else t, e);
      }
  }

  ghost function Position(s: seq<Ev>, e: Ev): (i: nat)
    requires e in s
    ensures i < |s| && s[i] == e
  {
    var i :| 0 <= i < |s| && s[i] == e;
    i
  }

  lemma SomeKind(s: State, e: Ev)
    requires Conserved(s) && e < s.g.captured
    ensures e in Items<Ev>(s.g.ring) || e in s.g.evicted || e in s.g.delivered || e in s.g.exhausted
            || e in Held(s.threads)
  {
    TotalOccurrences(s, e);
  }

  lemma SomePlace(s: State, e: Ev) returns (p: Place)
    requires Conserved(s) && e < s.g.captured
    ensures IsAt(s, e, p)
  {
    SomeKind(s, e);
    hide Items, Held, HeldBy, Conserved;
    if e in Items<Ev>(s.g.ring) {
      p := InRing(Position(Items<Ev>(s.g.ring), e));
    } else if e in s.g.evicted {
      p := AmongEvicted(Position(s.g.evicted, e));
    } else if e in s.g.delivered {
      p := AmongDelivered(Position(s.g.delivered, e));
    } else if e in s.g.exhausted {
      p := AmongExhausted(Position(s.g.exhausted, e));
    } else {
      var t := HeldWitness(s.threads, e);
      p := WithThread(t, Position(HeldBy(s.threads[t]), e));
    }
  }

  /**
   In every state of every run each captured event is at exactly one place: in the ring, evicted,
   delivered, exhausted, or in the hand of one thread.  An event not captured yet is nowhere.
   */
  lemma ExactlyOnePlace(c: Config, b: seq<State>, k: nat, e: Ev)
    requires ValidConfig(c) && Behavior(c, b) && k < |b|
    ensures (exists p :: IsAt(b[k], e, p)) <==> e < b[k].g.captured
    ensures forall p, q :: IsAt(b[k], e, p) && IsAt(b[k], e, q) ==> p == q
  {
    InvariantHolds(c, b, k);
    var s := b[k];
    TotalOccurrences(s, e);
    if e < s.g.captured {
      var p := SomePlace(s, e);
    }
    forall p, q | IsAt(s, e, p) && IsAt(s, e, q)
      ensures p == q
    {
      PlaceOccurs(s, e, p);
      PlaceOccurs(s, e, q);
      if p != q && SameKind(p, q) {
        TwoPlacesOccurTwice(s, e, p, q);
      }
    }
    forall p | IsAt(s, e, p)
      ensures e < s.g.captured
    {
      PlaceOccurs(s, e, p);
    }
  }

  // ---------------------------------------------------------------- counters

  function HeldCount(th: Thread): nat {
    |HeldBy(th)|
  }

  lemma {:induction false} HeldSize(ths: seq<Thread>)
    ensures |Held(ths)| == Sum(ths, HeldCount)
  {
    if ths != [] {
      HeldSize(ths[..|ths| - 1]);
    }
  }

  lemma {:induction false} FirstEventsSize(n: nat)
    ensures |FirstEvents(n)| == n
  {
    if n > 0 {
      FirstEventsSize(n - 1);
    }
  }

  lemma PublicSize(g: Globals)
    ensures |Public(g)| == |g.ring| + |g.evicted| + |g.delivered| + |g.exhausted|
  {
  }

  /**
   The self-metrics account for every event in every state: captured events are sent, dropped by the
   sender, dropped on overflow (reported or about to be), in the ring, or in some thread's hand.
   */
  lemma CountersBalance(c: Config, b: seq<State>, k: nat)
    requires ValidConfig(c) && Behavior(c, b) && k < |b|
    ensures var s := b[k];
            s.g.captured == s.g.sent + s.g.droppedSend + s.g.droppedOverflow + Sum(s.threads, UnreportedBy)
                            + |s.g.ring| + Sum(s.threads, HeldCount)
  {
    hide Behavior, Bounded, Balanced, Guarded, Awake;
    InvariantHolds(c, b, k);
    var s := b[k];
    PublicSize(s.g);
    HeldSize(s.threads);
    FirstEventsSize(s.g.captured);
    assert |Public(s.g) + Held(s.threads)| == |Public(s.g)| + |Held(s.threads)|;
  }

  // ---------------------------------------------------------------- what is in use

  function Posting(th: Thread): nat {
    if (IsDraining(th) && DrainOf(th).SendingSync?) || (th.Sender? && th.spc.Sending?) then 1 else 0
  }

  function AsyncSender(th: Thread): nat {
    if th.Sender? && th.spc.Sending? then 1 else 0
  }

  function Drainer(th: Thread): nat {
    if IsDraining(th) then 1 else 0
  }

  lemma {:induction false} SumDominated(ths: seq<Thread>, v: Thread -> nat, w: Thread -> nat, x: Thread -> nat)
    requires forall th :: v(th) <= w(th) + x(th)
    ensures Sum(ths, v) <= Sum(ths, w) + Sum(ths, x)
  {
    if ths != [] {
      SumDominated(ths[..|ths| - 1], v, w, x);
    }
  }

  lemma {:induction false} AsyncHoldTokens(ths: seq<Thread>)
    ensures Sum(ths, AsyncSender) <= Sum(ths, TokensOf)
  {
    if ths != [] {
      AsyncHoldTokens(ths[..|ths| - 1]);
    }
  }

  /**
   Asynchronous sends never exceed the semaphore's size, and all sends together never exceed it by more
   than the number of threads that are draining; tokens and wait-group counts match the threads that
   owe them, in every state of every run.
   */
  lemma SendsAreBounded(c: Config, b: seq<State>, k: nat)
    requires ValidConfig(c) && Behavior(c, b) && k < |b|
    ensures var s := b[k];
            && Sum(s.threads, AsyncSender) <= c.maxConcurrent
            && Sum(s.threads, Posting) <= c.maxConcurrent + Sum(s.threads, Drainer)
            && s.g.tokens == Sum(s.threads, TokensOf)
            && s.g.inflight == Sum(s.threads, InflightOf)
  {
    InvariantHolds(c, b, k);
    AsyncHoldTokens(b[k].threads);
    SumDominated(b[k].threads, Posting, TokensOf, Drainer);
  }

  // ---------------------------------------------------------------- bounded memory

  /** No thread holds more than one batch, and a capture call one event. */
  ghost predicate SmallHands(c: Config, s: State) {
    forall t :: 0 <= t < |s.threads| ==> |HeldBy(s.threads[t])| <= c.batchSize
  }

  lemma MovesKeepHandsSmall(c: Config, g: Globals, th: Thread, a: Action)
    requires ValidConfig(c) && Enabled(c, g, th, a) && |HeldBy(th)| <= c.batchSize && Moves(a)
    ensures var (_, th', started) := Effect(c, g, th, a);
            && |HeldBy(th')| <= c.batchSize
            && forall i :: 0 <= i < |started| ==> |HeldBy(started[i])| <= c.batchSize
  {
  }

  lemma EffectKeepsHandsSmall(c: Config, g: Globals, th: Thread, a: Action)
    requires ValidConfig(c) && Enabled(c, g, th, a) && |HeldBy(th)| <= c.batchSize
    ensures var (_, th', started) := Effect(c, g, th, a);
            && |HeldBy(th')| <= c.batchSize
            && forall i :: 0 <= i < |started| ==> |HeldBy(started[i])| <= c.batchSize
  {
    hide Effect, Enabled;
    if Moves(a) {
      MovesKeepHandsSmall(c, g, th, a);
    } else {
      OthersMoveNothing(c, g, th, a);
    }
  }

  lemma {:induction false} HandsStaySmall(c: Config, b: seq<State>, k: nat)
    requires ValidConfig(c) && Behavior(c, b) && k < |b|
    ensures SmallHands(c, b[k])
  {
    if k > 0 {
      hide Effect, Enabled;
      HandsStaySmall(c, b, k - 1);
      var s := b[k - 1];
      var step :| StepEnabled(c, s, step) && b[k] == Take(c, s, step);
      if step.Act? {
        EffectKeepsHandsSmall(c, s.g, s.threads[step.t], step.a);
      }
    }
  }

  function CapturesInTransit(th: Thread): nat {
    if th.Capture? && th.pc.InTransit? then 1 else 0
  }

  lemma {:induction false} HandsAddUp(c: Config, ths: seq<Thread>)
    requires 1 <= c.batchSize && forall t :: 0 <= t < |ths| ==> |HeldBy(ths[t])| <= c.batchSize
    ensures Sum(ths, HeldCount)
            <= c.batchSize * (Sum(ths, AsyncSender) + Sum(ths, Drainer)) + Sum(ths, CapturesInTransit)
  {
    if ths != [] {
      var n := |ths| - 1;
      HandsAddUp(c, ths[..n]);
      var x, d := Sum(ths[..n], AsyncSender) + Sum(ths[..n], Drainer), AsyncSender(ths[n]) + Drainer(ths[n]);
      assert HeldCount(ths[n]) <= c.batchSize * d + CapturesInTransit(ths[n]) by {
        assert d == 0 || d == 1;
      }
      assert c.batchSize * (x + d) == c.batchSize * x + c.batchSize * d;
    }
  }

  /**
   Memory is always bounded: the ring respects both its limits, and all events anywhere in the pipeline
   number at most the ring's limit, one batch for each permitted asynchronous send and each draining
   thread, and one event for each capture call that has not pushed yet.
   */
  lemma MemoryIsBounded(c: Config, b: seq<State>, k: nat)
    requires ValidConfig(c) && Behavior(c, b) && k < |b|
    ensures var s := b[k];
            && |s.g.ring| <= c.maxItems
            && (Total(s.g.ring) <= c.maxBytes || |s.g.ring| == 1)
            && |s.g.ring| + Sum(s.threads, HeldCount)
               <= c.maxItems + c.batchSize * (c.maxConcurrent + Sum(s.threads, Drainer))
                  + Sum(s.threads, CapturesInTransit)
  {
    hide Behavior, Conserved, Counted, Balanced, Guarded, Awake, Sum;
    InvariantHolds(c, b, k);
    SendsAreBounded(c, b, k);
    HandsStaySmall(c, b, k);
    var s := b[k];
    HandsAddUp(c, s.threads);
    MulMonotone(Sum(s.threads, AsyncSender) + Sum(s.threads, Drainer),
                c.maxConcurrent + Sum(s.threads, Drainer), c.batchSize);
  }

  // ---------------------------------------------------------------- no lost wakeup

  /**
   In every run, whenever the loop is waiting for a cue with none pending, and no capture call is
   between its push and its decision to nudge, less than a full batch is waiting in the ring.
   */
  lemma NoLostWakeup(c: Config, b: seq<State>, k: nat, t: nat)
    requires ValidConfig(c) && Behavior(c, b) && k < |b|
    requires t < |b[k].threads| && b[k].threads[t] == Loop(Select) && !b[k].g.trigger
    requires forall u :: 0 <= u < |b[k].threads| ==> Undecided(b[k].threads[u]) == 0
    ensures |b[k].g.ring| < c.batchSize
  {
    InvariantHolds(c, b, k);
    SumUpdate(b[k].threads, t, b[k].threads[t], IdleLoop);
    NobodySumsToZero(b[k].threads, Undecided);
  }

  lemma {:induction false} NobodySumsToZero(ths: seq<Thread>, w: Thread -> nat)
    requires forall t :: 0 <= t < |ths| ==> w(ths[t]) == 0
    ensures Sum(ths, w) == 0
  {
    if ths != [] {
      NobodySumsToZero(ths[..|ths| - 1], w);
    }
  }

  // ---------------------------------------------------------------- closing

  /** In every run each channel is closed at most once and the loop self-disables at most once. */
  lemma ChannelsCloseOnce(c: Config, b: seq<State>, k: nat)
    requires ValidConfig(c) && Behavior(c, b) && k < |b|
    ensures b[k].g.stopCloses <= 1 && b[k].g.stoppedCloses <= 1 && b[k].g.disabled <= 1
    ensures b[k].g.stopCloses == 1 ==> !b[k].g.once.Unused?
  {
    InvariantHolds(c, b, k);
  }

  /**
   Once the first Close has returned, whatever it returned, a Close call can do one thing: return nil,
   changing nothing but its own position.  While the first is at work a later one waits.
   */
  lemma LaterCloseIsInert(c: Config, b: seq<State>, k: nat, t: nat, a: Action)
    requires ValidConfig(c) && Behavior(c, b) && k < |b|
    requires StepEnabled(c, b[k], Act(t, a)) && b[k].threads[t].Close?
    ensures b[k].g.once.Finished? ==>
              b[k].threads[t] == Close(Entering)
              && Take(c, b[k], Act(t, a)) == b[k].(threads := b[k].threads[t := Close(CloseDone(true))])
    ensures b[k].g.once.Running? ==> b[k].threads[t] != Close(Entering)
  {
    InvariantHolds(c, b, k);
    SumUpdate(b[k].threads, t, b[k].threads[t], InOnce);
    if b[k].g.once.Finished? {
      assert InOnce(b[k].threads[t]) == 0;
      assert a.EnterFinished?;
    }
  }
}
