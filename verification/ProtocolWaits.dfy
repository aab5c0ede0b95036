/**
 What a nil return from Flush or Close means, over every run.
 */
module ProtocolWaits {
  import opened RingSpec
  import opened Protocol
  import opened ProtocolInvariant
  import opened ProtocolSafety

  /** No thread has the event in transit. */
  ghost predicate NotInTransit(ths: seq<Thread>, e: Ev) {
    forall t :: 0 <= t < |ths| && ths[t].Capture? && ths[t].pc.InTransit? ==> ths[t].pc.e.item != e
  }

  /** The event is past its push. */
  ghost predicate WasPushed(s: State, e: Ev) {
    e < s.g.captured && NotInTransit(s.threads, e)
  }

  ghost predicate LeftRing(s: State, e: Ev) {
    WasPushed(s, e) && e !in Items<Ev>(s.g.ring)
  }

  /** Evicted, sent, or counted exhausted. */
  predicate Settled(g: Globals, e: Ev) {
    e in g.evicted || e in g.delivered || e in g.exhausted
  }

  /** A draining thread has popped the event and has neither settled it nor handed it to the wait group. */
  predicate HoldsDetached(th: Thread, e: Ev) {
    IsDraining(th) && !DrainOf(th).Popping? && !DrainOf(th).Added? && e in DrainOf(th).batch
  }

  /** Some thread other than `me` holds the event detached. */
  ghost predicate DetachedElsewhere(s: State, me: nat, e: Ev) {
    exists t :: 0 <= t < |s.threads| && t != me && HoldsDetached(s.threads[t], e)
  }

  // ---------------------------------------------------------------- what stays true

  lemma EffectKeepsSettled(c: Config, g: Globals, th: Thread, a: Action)
    requires Enabled(c, g, th, a)
    ensures var g' := Effect(c, g, th, a).0;
            && g.evicted <= g'.evicted && g.delivered <= g'.delivered && g.exhausted <= g'.exhausted
            && g'.captured == g.captured
  {
    if !Moves(a) {
      hide Effect, Enabled;
      OthersMoveNothing(c, g, th, a);
    }
  }

  lemma SettledStays(c: Config, s: State, s': State, e: Ev)
    requires Next(c, s, s') && Settled(s.g, e)
    ensures Settled(s'.g, e)
  {
    hide Effect, Enabled;
    var step :| StepEnabled(c, s, step) && s' == Take(c, s, step);
    if step.Act? {
      EffectKeepsSettled(c, s.g, s.threads[step.t], step.a);
      SettledGrows(s.g, s'.g, e);
    }
  }

  lemma SettledGrows(g: Globals, g': Globals, e: Ev)
    requires g.evicted <= g'.evicted && g.delivered <= g'.delivered && g.exhausted <= g'.exhausted && Settled(g, e)
    ensures Settled(g', e)
  {
    if e in g.evicted {
      var i :| 0 <= i < |g.evicted| && g.evicted[i] == e;
      assert g'.evicted[i] == e;
    } else if e in g.delivered {
      var i :| 0 <= i < |g.delivered| && g.delivered[i] == e;
      assert g'.delivered[i] == e;
    } else {
      var i :| 0 <= i < |g.exhausted| && g.exhausted[i] == e;
      assert g'.exhausted[i] == e;
    }
  }

  lemma {:induction false} SettledForever(c: Config, b: seq<State>, j: nat, k: nat, e: Ev)
    requires Behavior(c, b) && j <= k < |b| && Settled(b[j].g, e)
    ensures Settled(b[k].g, e)
  {
    hide Next;
    if j < k {
      SettledForever(c, b, j, k - 1, e);
      SettledStays(c, b[k - 1], b[k], e);
    }
  }

  lemma PushRing(c: Config, g: Globals, th: Thread, e: Ev)
    requires Enabled(c, g, th, Push) && e in Items<Ev>(Effect(c, g, th, Push).0.ring)
    ensures e in Items<Ev>(g.ring) || e == th.pc.e.item
  {
    var all := g.ring + [th.pc.e];
    ItemsOfSuffix(all, FirstFit(all, c.maxItems, c.maxBytes), e);
    assert Items<Ev>(all) == Items<Ev>(g.ring) + [th.pc.e.item];
  }

  lemma PopRing(c: Config, g: Globals, th: Thread, e: Ev)
    requires Enabled(c, g, th, Pop) && e in Items<Ev>(Effect(c, g, th, Pop).0.ring)
    ensures e in Items<Ev>(g.ring)
  {
    if g.ring != [] {
      ItemsOfSuffix(g.ring, BatchLen(g.ring, c.batchSize, c.maxBatchBytes), e);
    }
  }

  /** Only the captured event of the acting thread can enter the ring. */
  lemma EffectRing(c: Config, g: Globals, th: Thread, a: Action, e: Ev)
    requires Enabled(c, g, th, a) && e in Items<Ev>(Effect(c, g, th, a).0.ring)
    ensures e in Items<Ev>(g.ring) || (th.Capture? && th.pc.InTransit? && e == th.pc.e.item)
  {
    hide Effect;
    match a
    case Push => PushRing(c, g, th, e);
    case Pop => PopRing(c, g, th, e);
    case _ => OthersKeepRing(c, g, th, a);
  }

  /** No thread goes back in transit, and threads that an action starts are senders. */
  lemma EffectThreads(c: Config, g: Globals, th: Thread, a: Action)
    requires Enabled(c, g, th, a)
    ensures var (_, th', started) := Effect(c, g, th, a);
            && !(th'.Capture? && th'.pc.InTransit?)
            && (forall i :: 0 <= i < |started| ==> started[i].Sender?)
  {
    hide FirstFit, BatchLen;
  }

  lemma ItemsOfSuffix(s: seq<Entry<Ev>>, k: nat, e: Ev)
    requires k <= |s| && e in Items<Ev>(s[k..])
    ensures e in Items<Ev>(s)
  {
    var i :| 0 <= i < |s| - k && Items<Ev>(s[k..])[i] == e;
    assert Items<Ev>(s)[k + i] == e;
  }

  lemma ActKeepsPushed(c: Config, s: State, t: nat, a: Action, e: Ev)
    requires StepEnabled(c, s, Act(t, a)) && WasPushed(s, e)
    ensures WasPushed(Take(c, s, Act(t, a)), e)
    ensures e !in Items<Ev>(s.g.ring) ==> e !in Items<Ev>(Take(c, s, Act(t, a)).g.ring)
  {
    hide Effect, Enabled;
    var (g', th', started) := Effect(c, s.g, s.threads[t], a);
    EffectThreads(c, s.g, s.threads[t], a);
    EffectKeepsSettled(c, s.g, s.threads[t], a);
    if e in Items<Ev>(g'.ring) {
      EffectRing(c, s.g, s.threads[t], a, e);
    }
  }

  /** An event past its push stays so, and one that has left the ring never returns. */
  lemma PushedStays(c: Config, s: State, s': State, e: Ev)
    requires Next(c, s, s') && WasPushed(s, e)
    ensures WasPushed(s', e)
    ensures e !in Items<Ev>(s.g.ring) ==> e !in Items<Ev>(s'.g.ring)
  {
    hide Effect, Enabled;
    var step :| StepEnabled(c, s, step) && s' == Take(c, s, step);
    match step
    case Act(t, a) => ActKeepsPushed(c, s, t, a, e);
    case _ =>
  }

  lemma {:induction false} PushedForever(c: Config, b: seq<State>, j: nat, k: nat, e: Ev)
    requires Behavior(c, b) && j <= k < |b| && WasPushed(b[j], e)
    ensures WasPushed(b[k], e)
    ensures e !in Items<Ev>(b[j].g.ring) ==> e !in Items<Ev>(b[k].g.ring)
  {
    hide Next, WasPushed;
    if j < k {
      PushedForever(c, b, j, k - 1, e);
      PushedStays(c, b[k - 1], b[k], e);
    }
  }

  // ---------------------------------------------------------------- the idle moment

  /** With the wait group at zero, an event that has left the ring is settled or held detached. */
  lemma IdleMeansSettled(s: State, me: nat, e: Ev)
    requires Conserved(s) && s.g.inflight == Sum(s.threads, InflightOf) == 0
    requires me < |s.threads| && !IsDraining(s.threads[me]) && LeftRing(s, e)
    ensures Settled(s.g, e) || DetachedElsewhere(s, me, e)
  {
    hide Sum, Conserved, HeldBy, Items, NotInTransit;
    var p := SomePlace(s, e);
    PlaceIsPublicOrHeld(s, e, p);
    if p.WithThread? {
      SumUpdate(s.threads, p.t, s.threads[p.t], InflightOf);
      IdleHolderIsDetached(s.threads, p.t, e);
    }
  }

  /** A thread that holds a pushed event without a wait-group count holds it detached. */
  lemma IdleHolderIsDetached(ths: seq<Thread>, t: nat, e: Ev)
    requires t < |ths| && e in HeldBy(ths[t]) && NotInTransit(ths, e) && InflightOf(ths[t]) == 0
    ensures HoldsDetached(ths[t], e)
  {
  }

  /** In a reachable state a settled event is in nobody's hand. */
  lemma SettledIsNotHeld(c: Config, b: seq<State>, k: nat, me: nat, e: Ev)
    requires ValidConfig(c) && Behavior(c, b) && k < |b| && Settled(b[k].g, e)
    ensures !DetachedElsewhere(b[k], me, e)
  {
    hide Behavior, ValidConfig;
    var s := b[k];
    if t :| 0 <= t < |s.threads| && t != me && HoldsDetached(s.threads[t], e) {
      var q := WithThread(t, Position(HeldBy(s.threads[t]), e));
      assert IsAt(s, e, q);
      var p := SettledPlace(s, e);
      ExactlyOnePlace(c, b, k, e);
      assert false;
    }
  }

  lemma SettledPlace(s: State, e: Ev) returns (p: Place)
    requires Settled(s.g, e)
    ensures IsAt(s, e, p) && !p.WithThread?
  {
    if e in s.g.evicted {
      p := AmongEvicted(Position(s.g.evicted, e));
    } else if e in s.g.delivered {
      p := AmongDelivered(Position(s.g.delivered, e));
    } else {
      p := AmongExhausted(Position(s.g.exhausted, e));
    }
  }

  lemma PlaceIsPublicOrHeld(s: State, e: Ev, p: Place)
    requires IsAt(s, e, p)
    ensures p.InRing? ==> e in Items<Ev>(s.g.ring)
    ensures p.AmongEvicted? || p.AmongDelivered? || p.AmongExhausted? ==> Settled(s.g, e)
  {
    if p.InRing? {
      assert Items<Ev>(s.g.ring)[p.i] == e;
    }
  }

  // ---------------------------------------------------------------- the stages of a drain-and-wait

  /** How far a Flush, or the first Close, has come. */
  datatype Stage = Draining | Drained | SawIdle | Failed | Elsewhere

  function StageOf(th: Thread): Stage {
    match th
    case Flush(f) =>
      (match f
       case FlushDrain(_) => Stage.Draining
       case FlushReport => Drained
       case FlushWait(seen) => if seen then SawIdle else Drained
       case FlushDone(ok) => if ok then SawIdle else Failed)
    case Close(k) =>
      (match k
       case Entering => Elsewhere
       case Stopping => Stage.Draining
       case AwaitLoop => Stage.Draining
       case CloseDrain(_, _) => Stage.Draining
       case CloseWait(_, seen) => if seen then SawIdle else Drained
       case Cancelling(ok) => if ok then SawIdle else Failed
       case CloseDone(ok) => if ok then SawIdle else Failed)
    case _ => Elsewhere
  }

  lemma StageMoves(c: Config, g: Globals, th: Thread, a: Action)
    requires Enabled(c, g, th, a) && StageOf(th) != Elsewhere
    ensures var (g', th', _) := Effect(c, g, th, a);
            && StageOf(th') != Elsewhere
            && (StageOf(th') == Stage.Draining ==> StageOf(th) == Stage.Draining)
            && (StageOf(th') == Drained ==>
                  StageOf(th) == Drained || (StageOf(th) == Stage.Draining && g.ring == [] && g' == g))
            && (StageOf(th') == SawIdle ==>
                  StageOf(th) == SawIdle || (StageOf(th) == Drained && g.inflight == 0 && g' == g && IsWaiting(th')))
  {
  }

  /** At this moment the caller, waiting, found the wait group at zero with its events out of the ring. */
  ghost predicate IdleMoment(b: seq<State>, i: nat, j: nat, me: nat) {
    && i <= j < |b| && me < |b[j].threads|
    && IsWaiting(b[j].threads[me]) && b[j].g.inflight == 0
    && (forall e :: WasPushed(b[i], e) ==> (Settled(b[j].g, e) <==> !DetachedElsewhere(b[j], me, e)))
    && (b[j].threads[me].Close? && b[j].threads[me].cpc.ok ==>
          b[j].g.stoppedCloses == 1 && Sum(b[j].threads, LiveLoop) == 0)
  }

  /** What the stage reached by step `k` guarantees about the events pushed by step `i`. */
  ghost predicate Progress(b: seq<State>, i: nat, k: nat, me: nat) {
    && i <= k < |b| && me < |b[k].threads|
    && StageOf(b[k].threads[me]) != Elsewhere
    && (StageOf(b[k].threads[me]) == Drained ==> forall e :: WasPushed(b[i], e) ==> LeftRing(b[k], e))
    && (StageOf(b[k].threads[me]) == SawIdle ==> exists j: nat :: j <= k && IdleMoment(b, i, j, me))
  }

  lemma OtherStepKeepsThread(c: Config, s: State, step: Step, me: nat)
    requires StepEnabled(c, s, step) && me < |s.threads| && !(step.Act? && step.t == me)
    ensures me < |Take(c, s, step).threads| && Take(c, s, step).threads[me] == s.threads[me]
  {
  }

  lemma StepTaken(c: Config, b: seq<State>, k: nat) returns (step: Step)
    requires Behavior(c, b) && k + 1 < |b|
    ensures StepEnabled(c, b[k], step) && b[k + 1] == Take(c, b[k], step)
  {
    hide StepEnabled, Take;
    assert Next(c, b[k], b[k + 1]);
    step :| StepEnabled(c, b[k], step) && b[k + 1] == Take(c, b[k], step);
  }

  lemma OwnStep(c: Config, s: State, me: nat, a: Action)
    requires StepEnabled(c, s, Act(me, a))
    ensures me < |s.threads| <= |Take(c, s, Act(me, a)).threads| && Enabled(c, s.g, s.threads[me], a)
    ensures Take(c, s, Act(me, a)).g == Effect(c, s.g, s.threads[me], a).0
    ensures Take(c, s, Act(me, a)).threads[me] == Effect(c, s.g, s.threads[me], a).1
  {
    hide Enabled, Effect;
  }

  /** An event pushed by step `i` stays pushed, and out of the ring once it is. */
  lemma PushedAcross(c: Config, b: seq<State>, i: nat, k: nat)
    requires Behavior(c, b) && i <= k && k + 1 < |b|
    ensures forall e :: WasPushed(b[i], e) ==> WasPushed(b[k + 1], e)
    ensures forall e :: WasPushed(b[i], e) && LeftRing(b[k], e) ==> LeftRing(b[k + 1], e)
    ensures b[k + 1].g.ring == [] ==> forall e :: WasPushed(b[i], e) ==> LeftRing(b[k + 1], e)
  {
    hide Behavior, WasPushed;
    forall e | WasPushed(b[i], e)
      ensures WasPushed(b[k + 1], e) && (LeftRing(b[k], e) ==> LeftRing(b[k + 1], e))
    {
      PushedForever(c, b, i, k + 1, e);
      if LeftRing(b[k], e) {
        PushedForever(c, b, k, k + 1, e);
      }
    }
  }

  lemma ProgressStep(c: Config, b: seq<State>, i: nat, k: nat, me: nat)
    requires ValidConfig(c) && Behavior(c, b) && k + 1 < |b| && Progress(b, i, k, me)
    ensures Progress(b, i, k + 1, me)
  {
    hide Behavior, ValidConfig, StageOf, WasPushed, LeftRing, Take, Enabled, Effect, StepEnabled, IdleMoment;
    var s, s' := b[k], b[k + 1];
    var step := StepTaken(c, b, k);
    PushedAcross(c, b, i, k);
    if step.Act? && step.t == me {
      OwnStep(c, s, me, step.a);
      StageMoves(c, s.g, s.threads[me], step.a);
      if StageOf(s'.threads[me]) == SawIdle && StageOf(s.threads[me]) == Drained {
        ReachesIdle(c, b, i, k + 1, me);
      }
    } else {
      OtherStepKeepsThread(c, s, step, me);
    }
    if StageOf(s'.threads[me]) == SawIdle && StageOf(s.threads[me]) == SawIdle {
      var j: nat :| j <= k && IdleMoment(b, i, j, me);
    }
  }

  lemma ReachesIdle(c: Config, b: seq<State>, i: nat, j: nat, me: nat)
    requires ValidConfig(c) && Behavior(c, b) && i <= j < |b| && me < |b[j].threads|
    requires IsWaiting(b[j].threads[me]) && b[j].g.inflight == 0
    requires forall e :: WasPushed(b[i], e) ==> LeftRing(b[j], e)
    ensures IdleMoment(b, i, j, me)
  {
    InvariantHolds(c, b, j);
    forall e | WasPushed(b[i], e)
      ensures Settled(b[j].g, e) <==> !DetachedElsewhere(b[j], me, e)
    {
      IdleMeansSettled(b[j], me, e);
      if Settled(b[j].g, e) {
        SettledIsNotHeld(c, b, j, me, e);
      }
    }
    SumUpdate(b[j].threads, me, b[j].threads[me], SawStopped);
  }

  lemma {:induction false} ProgressHolds(c: Config, b: seq<State>, i: nat, k: nat, me: nat)
    requires ValidConfig(c) && Behavior(c, b) && i <= k < |b|
    requires me < |b[i].threads| && StageOf(b[i].threads[me]) == Stage.Draining
    ensures Progress(b, i, k, me)
  {
    hide Next, StageOf, WasPushed, LeftRing, IdleMoment;
    if i < k {
      ProgressHolds(c, b, i, k - 1, me);
      ProgressStep(c, b, i, k - 1, me);
    }
  }

  // ---------------------------------------------------------------- Flush

  /**
   At step `j` exactly those events pushed by step `i` are settled that no other thread holds detached,
   and these are settled at step `k` too.
   */
  ghost predicate ResolvedExceptDetached(b: seq<State>, i: nat, j: int, k: nat, me: nat) {
    && i <= j <= k < |b|
    && b[j].g.inflight == 0
    && (forall e :: WasPushed(b[i], e) ==> (Settled(b[j].g, e) <==> !DetachedElsewhere(b[j], me, e)))
    && (forall e :: WasPushed(b[i], e) ==> Settled(b[k].g, e) || DetachedElsewhere(b[j], me, e))
  }

  /**
   When Flush returns nil there was a moment during the call at which the wait group was at zero and
   the events pushed before the call were evicted, sent or counted exhausted, except exactly those that
   another thread had then popped and neither settled nor handed to the wait group.
   */
  lemma FlushReturnsNil(c: Config, b: seq<State>, i: nat, k: nat, me: nat)
    requires ValidConfig(c) && Behavior(c, b) && i <= k < |b|
    requires me < |b[i].threads| && b[i].threads[me].Flush? && b[i].threads[me].fpc.FlushDrain?
    requires me < |b[k].threads| && b[k].threads[me] == Flush(FlushDone(true))
    ensures exists j :: ResolvedExceptDetached(b, i, j, k, me)
  {
    ProgressHolds(c, b, i, k, me);
    var j: nat :| j <= k && IdleMoment(b, i, j, me);
    forall e | WasPushed(b[i], e) && Settled(b[j].g, e)
      ensures Settled(b[k].g, e)
    {
      SettledForever(c, b, j, k, e);
    }
    assert ResolvedExceptDetached(b, i, j, k, me);
  }

  /**
   From every reachable state in which a Flush waits and the wait group is at zero, the call can return
   nil in two steps; it then means fully drained if and only if no other thread holds an event detached
   that was pushed before the call.
   */
  lemma FlushDrainsIff(c: Config, b: seq<State>, i: nat, k: nat, me: nat) returns (s1: State, s2: State)
    requires ValidConfig(c) && Behavior(c, b) && i <= k < |b|
    requires me < |b[i].threads| && b[i].threads[me].Flush? && b[i].threads[me].fpc.FlushDrain?
    requires me < |b[k].threads| && b[k].threads[me] == Flush(FlushWait(false)) && b[k].g.inflight == 0
    ensures Next(c, b[k], s1) && Next(c, s1, s2)
    ensures me < |s2.threads| && s2.threads[me] == Flush(FlushDone(true))
    ensures (forall e :: WasPushed(b[i], e) ==> Settled(s2.g, e))
            <==> (forall e :: WasPushed(b[i], e) ==> !DetachedElsewhere(b[k], me, e))
  {
    hide Behavior;
    ProgressHolds(c, b, i, k, me);
    ReachesIdle(c, b, i, k, me);
    s1 := Take(c, b[k], Act(me, SeeIdle));
    s2 := Take(c, s1, Act(me, ReturnNil));
    assert s2.g == b[k].g;
  }

  /** With no other thread draining meanwhile (the loop stopped, say), nil means fully drained. */
  lemma FlushAloneDrains(c: Config, b: seq<State>, i: nat, k: nat, me: nat, e: Ev)
    requires ValidConfig(c) && Behavior(c, b) && i <= k < |b|
    requires me < |b[i].threads| && b[i].threads[me].Flush? && b[i].threads[me].fpc.FlushDrain?
    requires me < |b[k].threads| && b[k].threads[me] == Flush(FlushDone(true))
    requires forall j, t :: i <= j <= k && 0 <= t < |b[j].threads| && t != me ==> !IsDraining(b[j].threads[t])
    requires WasPushed(b[i], e)
    ensures Settled(b[k].g, e)
  {
    FlushReturnsNil(c, b, i, k, me);
    var j :| ResolvedExceptDetached(b, i, j, k, me);
    NobodyHolds(b[j], me, e);
  }

  lemma NobodyHolds(s: State, me: nat, e: Ev)
    requires forall t :: 0 <= t < |s.threads| && t != me ==> !IsDraining(s.threads[t])
    ensures !DetachedElsewhere(s, me, e)
  {
  }

  // ---------------------------------------------------------------- Close

  lemma LiveLoopCounts(ths: seq<Thread>, t: nat)
    requires t < |ths| && Sum(ths, LiveLoop) == 0
    ensures LiveLoop(ths[t]) == 0
  {
    SumUpdate(ths, t, ths[t], LiveLoop);
  }

  /** Only one Close call is inside the guarded body. */
  lemma OneCloseInside(ths: seq<Thread>, t: nat, u: nat)
    requires t < |ths| && u < |ths| && t != u && Sum(ths, InOnce) <= 1 && InOnce(ths[t]) == 1
    ensures InOnce(ths[u]) == 0
  {
    SumUpdate(ths, t, Sender(Gone), InOnce);
    var rest := ths[t := Sender(Gone)];
    SumUpdate(rest, u, rest[u], InOnce);
  }

  /**
   At step `j` exactly those events pushed by step `i` are settled that no Flush holds detached, and
   these are settled at step `k` too.
   */
  ghost predicate ResolvedExceptByFlush(b: seq<State>, i: nat, j: int, k: nat) {
    && i <= j <= k < |b|
    && b[j].g.inflight == 0
    && (forall e :: WasPushed(b[i], e) ==> (Settled(b[j].g, e) <==> !HeldByFlush(b[j], e)))
    && (forall e :: WasPushed(b[i], e) ==> Settled(b[k].g, e) || HeldByFlush(b[j], e))
  }

  /**
   When the first Close returns nil the loop has exited its body, and when its wait ended the events
   pushed before the call closed the stop channel were evicted, sent or counted exhausted, except exactly
   those that a concurrent Flush had popped and neither settled nor handed to the wait group.
   */
  lemma CloseReturnsNil(c: Config, b: seq<State>, i: nat, k: nat, me: nat)
    requires ValidConfig(c) && Behavior(c, b) && i <= k < |b|
    requires me < |b[i].threads| && b[i].threads[me] == Close(Stopping)
    requires me < |b[k].threads| && b[k].threads[me] == Close(CloseDone(true))
    ensures b[k].g.stoppedCloses == 1 && Sum(b[k].threads, LiveLoop) == 0
    ensures exists j :: ResolvedExceptByFlush(b, i, j, k)
  {
    hide Behavior, ValidConfig, Conserved, Counted, Bounded, Balanced, Awake, WasPushed;
    ProgressHolds(c, b, i, k, me);
    var j: nat :| j <= k && IdleMoment(b, i, j, me);
    StaysClose(c, b, i, j, me);
    StaysClose(c, b, j, k, me);
    StoppedForever(c, b, j, k);
    InvariantHolds(c, b, j);
    InvariantHolds(c, b, k);
    forall e | WasPushed(b[i], e)
      ensures Settled(b[j].g, e) <==> !HeldByFlush(b[j], e)
      ensures Settled(b[k].g, e) || HeldByFlush(b[j], e)
    {
      OnlyFlushesHold(b[j], me, e);
      if Settled(b[j].g, e) {
        SettledForever(c, b, j, k, e);
      }
    }
    assert ResolvedExceptByFlush(b, i, j, k);
  }

  /** While the first Close waits with the loop gone, an event held detached elsewhere is held by a Flush. */
  lemma OnlyFlushesHold(s: State, me: nat, e: Ev)
    requires Guarded(s) && Sum(s.threads, LiveLoop) == 0
    requires me < |s.threads| && s.threads[me].Close? && s.threads[me].cpc.CloseWait?
    ensures DetachedElsewhere(s, me, e) <==> HeldByFlush(s, e)
  {
    if t :| 0 <= t < |s.threads| && t != me && HoldsDetached(s.threads[t], e) {
      OnlyFlushesLeft(s, me, t);
      assert HeldByFlush(s, e);
    }
    if t :| 0 <= t < |s.threads| && s.threads[t].Flush? && HoldsDetached(s.threads[t], e) {
      assert t != me;
    }
  }

  /**
   From every reachable state in which the first Close waits without an error so far and the wait group
   is at zero, the call can return nil in three steps; it then means fully drained if and only if no
   Flush holds an event detached that was pushed before the stop channel was closed.
   */
  lemma CloseDrainsIff(c: Config, b: seq<State>, i: nat, k: nat, me: nat) returns (s1: State, s2: State, s3: State)
    requires ValidConfig(c) && Behavior(c, b) && i <= k < |b|
    requires me < |b[i].threads| && b[i].threads[me] == Close(Stopping)
    requires me < |b[k].threads| && b[k].threads[me] == Close(CloseWait(true, false)) && b[k].g.inflight == 0
    ensures Next(c, b[k], s1) && Next(c, s1, s2) && Next(c, s2, s3)
    ensures me < |s3.threads| && s3.threads[me] == Close(CloseDone(true))
    ensures (forall e :: WasPushed(b[i], e) ==> Settled(s3.g, e))
            <==> (forall e :: WasPushed(b[i], e) ==> !HeldByFlush(b[k], e))
  {
    hide Behavior, Next;
    ProgressHolds(c, b, i, k, me);
    ReachesIdle(c, b, i, k, me);
    InvariantHolds(c, b, k);
    s1, s2, s3 := CloseReturns(c, b[k], me);
    forall e | WasPushed(b[i], e)
      ensures Settled(s3.g, e) <==> !HeldByFlush(b[k], e)
    {
      OnlyFlushesHold(b[k], me, e);
    }
  }

  /** The last steps of a Close that waits with the wait group at zero; they settle nothing more. */
  lemma CloseReturns(c: Config, s: State, me: nat) returns (s1: State, s2: State, s3: State)
    requires me < |s.threads| && s.threads[me] == Close(CloseWait(true, false)) && s.g.inflight == 0
    ensures Next(c, s, s1) && Next(c, s1, s2) && Next(c, s2, s3)
    ensures me < |s3.threads| && s3.threads[me] == Close(CloseDone(true))
    ensures s3.g == s.g.(baseCancelled := true, once := Finished)
  {
    s1 := Take(c, s, Act(me, SeeIdle));
    assert s1 == s.(threads := s.threads[me := Close(CloseWait(true, true))]);
    s2 := Take(c, s1, Act(me, ReturnNil));
    assert s2 == s.(threads := s.threads[me := Close(Cancelling(true))]);
    s3 := Take(c, s2, Act(me, Cancel));
  }

  /** With no Flush draining meanwhile, a nil return from the first Close means fully drained. */
  lemma CloseAloneDrains(c: Config, b: seq<State>, i: nat, k: nat, me: nat, e: Ev)
    requires ValidConfig(c) && Behavior(c, b) && i <= k < |b|
    requires me < |b[i].threads| && b[i].threads[me] == Close(Stopping)
    requires me < |b[k].threads| && b[k].threads[me] == Close(CloseDone(true))
    requires forall j, t :: i <= j <= k && 0 <= t < |b[j].threads| && b[j].threads[t].Flush? ==>
               !IsDraining(b[j].threads[t])
    requires WasPushed(b[i], e)
    ensures Settled(b[k].g, e)
  {
    CloseReturnsNil(c, b, i, k, me);
    var j :| ResolvedExceptByFlush(b, i, j, k);
    NoFlushHolds(b[j], e);
  }

  lemma NoFlushHolds(s: State, e: Ev)
    requires forall t :: 0 <= t < |s.threads| && s.threads[t].Flush? ==> !IsDraining(s.threads[t])
    ensures !HeldByFlush(s, e)
  {
  }

  /** Some Flush caller holds the event, neither settled nor in the wait group. */
  ghost predicate HeldByFlush(s: State, e: Ev) {
    exists t :: 0 <= t < |s.threads| && s.threads[t].Flush? && HoldsDetached(s.threads[t], e)
  }

  /** While the first Close waits with the loop gone, only Flush calls can be draining. */
  lemma OnlyFlushesLeft(s: State, me: nat, t: nat)
    requires Guarded(s) && Sum(s.threads, LiveLoop) == 0
    requires me < |s.threads| && t < |s.threads| && t != me
    requires s.threads[me].Close? && s.threads[me].cpc.CloseWait? && IsDraining(s.threads[t])
    ensures s.threads[t].Flush?
  {
    LiveLoopCounts(s.threads, t);
    OneCloseInside(s.threads, me, t);
  }

  /** A Close call that has recorded an error. */
  predicate Tainted(th: Thread) {
    th.Close? &&
    match th.cpc
    case CloseDrain(_, ok) => !ok
    case CloseWait(ok, _) => !ok
    case Cancelling(ok) => !ok
    case CloseDone(ok) => !ok
    case _ => false
  }

  lemma CloseMoves(c: Config, g: Globals, th: Thread, a: Action)
    requires Enabled(c, g, th, a) && th.Close? && !th.cpc.Entering?
    ensures var th' := Effect(c, g, th, a).1;
            th'.Close? && !th'.cpc.Entering? && (Tainted(th) ==> Tainted(th'))
  {
  }

  /** A Close call past its entry stays one, and an error it recorded is what it returns. */
  lemma {:induction false} StaysClose(c: Config, b: seq<State>, i: nat, k: nat, me: nat)
    requires Behavior(c, b) && i <= k < |b|
    requires me < |b[i].threads| && b[i].threads[me].Close? && !b[i].threads[me].cpc.Entering?
    ensures me < |b[k].threads| && b[k].threads[me].Close? && !b[k].threads[me].cpc.Entering?
    ensures Tainted(b[i].threads[me]) ==> Tainted(b[k].threads[me])
  {
    hide Behavior, Take, Enabled, Effect, StepEnabled, Tainted;
    if i < k {
      StaysClose(c, b, i, k - 1, me);
      var step := StepTaken(c, b, k - 1);
      if step.Act? && step.t == me {
        OwnStep(c, b[k - 1], me, step.a);
        CloseMoves(c, b[k - 1].g, b[k - 1].threads[me], step.a);
      } else {
        OtherStepKeepsThread(c, b[k - 1], step, me);
      }
    }
  }

  lemma {:induction false} StoppedForever(c: Config, b: seq<State>, j: nat, k: nat)
    requires Behavior(c, b) && j <= k < |b|
    ensures b[j].g.stoppedCloses <= b[k].g.stoppedCloses
  {
    hide Enabled;
    if j < k {
      StoppedForever(c, b, j, k - 1);
      assert Next(c, b[k - 1], b[k]);
    }
  }

  // ---------------------------------------------------------------- the exception is real

  lemma Extend(c: Config, b: seq<State>, step: Step, s: State) returns (b': seq<State>)
    requires Behavior(c, b) && b[|b| - 1] == s && StepEnabled(c, s, step)
    ensures Behavior(c, b') && b' == b + [Take(c, s, step)]
  {
    hide Enabled, Effect, Take, StepEnabled;
    b' := b + [Take(c, s, step)];
    assert Next(c, s, Take(c, s, step));
    forall i | 0 <= i < |b'| - 1
      ensures Next(c, b'[i], b'[i + 1])
    {
    }
  }

  /** A single event is never evicted by its own push, and pops as a batch of one. */
  lemma OneEventFits(c: Config, e: Entry<Ev>)
    ensures FirstFit([] + [e], c.maxItems, c.maxBytes) == 0
    ensures BatchLen([e], c.batchSize, c.maxBatchBytes) == 1
    ensures Items<Ev>([e][..1]) == [e.item] && [e][1..] == []
    ensures [] + [e] == [e] && ([] + [e])[0..] == [e] && Items<Ev>(([] + [e])[..0]) == []
  {
    assert [] + [e] == [e];
  }

  /** The state of the run below once the loop has popped the only event and a Flush has got as far as `f`. */
  function LoopHolds(g: Globals, f: FlushPc): State {
    State(g, [Loop(LoopPc.Draining(Holding([0]), false)), Capture(Pushed(0)), Flush(f)])
  }

  /** A run in which one event is pushed and nothing else happens. */
  lemma OneEventPushed(c: Config, e: Entry<Ev>) returns (b: seq<State>)
    requires e.item == 0
    ensures Behavior(c, b) && |b| == 3
    ensures b[2] == State(Init().g.(captured := 1, ring := [e]), [Loop(Select), Capture(Pushed(0))])
  {
    hide Behavior, FirstFit, BatchLen;
    OneEventFits(c, e);
    b := [Init()];
    assert Behavior(c, b) by { StartsBehavior(c); }
    b := Extend(c, b, NewCapture(e.size), Init());
    var s1 := State(Init().g.(captured := 1), [Loop(Select), Capture(InTransit(e))]);
    assert b[1] == s1;
    b := Extend(c, b, Act(1, Action.Push), s1);
  }

  /** The run up to the call of Flush: the event is pushed, and the loop wakes and pops it. */
  lemma LoopTakesTheEvent(c: Config, size: Size) returns (b: seq<State>, g: Globals)
    ensures Behavior(c, b) && |b| == 6 && b[5] == LoopHolds(g, FlushDrain(Popping))
    ensures g == Init().g.(captured := 1)
  {
    hide Behavior, FirstFit, BatchLen;
    var e := Entry(0, size);
    OneEventFits(c, e);
    g := Init().g.(captured := 1);
    b := OneEventPushed(c, e);
    b := Extend(c, b, Act(0, Tick), b[2]);
    var s3 := State(g.(ring := [e]), [Loop(LoopPc.Draining(Popping, false)), Capture(Pushed(0))]);
    assert b[3] == s3;
    b := Extend(c, b, Act(0, Action.Pop), s3);
    var s4 := State(g, [Loop(LoopPc.Draining(Holding([0]), false)), Capture(Pushed(0))]);
    assert b[4] == s4;
    b := Extend(c, b, NewFlush, s4);
  }

  lemma StartsBehavior(c: Config)
    ensures Behavior(c, [Init()])
  {
  }

  /**
   The exception is real: a Flush can return nil while an event pushed before the call is still in the
   loop's hand, neither settled nor counted by the wait group.
   */
  lemma FlushCanMissABatch(c: Config, size: Size) returns (b: seq<State>)
    ensures Behavior(c, b) && |b| == 10
    ensures |b[5].threads| == |b[9].threads| == 3
    ensures b[5].threads[2] == Flush(FlushDrain(Popping)) && b[9].threads[2] == Flush(FlushDone(true))
    ensures WasPushed(b[5], 0) && !Settled(b[9].g, 0)
  {
    hide Behavior;
    var g;
    b, g := LoopTakesTheEvent(c, size);
    b := Extend(c, b, Act(2, Action.Pop), LoopHolds(g, FlushDrain(Popping)));
    assert b[6] == LoopHolds(g, FlushReport);
    b := Extend(c, b, Act(2, Report), LoopHolds(g, FlushReport));
    assert b[7] == LoopHolds(g, FlushWait(false));
    b := Extend(c, b, Act(2, SeeIdle), LoopHolds(g, FlushWait(false)));
    assert b[8] == LoopHolds(g, FlushWait(true));
    b := Extend(c, b, Act(2, ReturnNil), LoopHolds(g, FlushWait(true)));
    assert b[9] == LoopHolds(g, FlushDone(true));
  }

  /** One event in the hand of a Flush, with a Close at `k` and the loop at `l`. */
  function FlushHolds(g: Globals, l: LoopPc, k: ClosePc): State {
    State(g, [Loop(l), Capture(Pushed(0)), Flush(FlushDrain(Holding([0]))), Close(k)])
  }

  /** A run up to the closing of stop: one event is pushed and popped by a Flush before Close is called. */
  lemma FlushTakesTheEvent(c: Config, size: Size) returns (b: seq<State>, g: Globals)
    ensures Behavior(c, b) && |b| == 7 && b[6] == FlushHolds(g, Select, Stopping)
    ensures g == Init().g.(captured := 1, once := Running)
  {
    hide Behavior, FirstFit, BatchLen;
    var e := Entry(0, size);
    OneEventFits(c, e);
    var g0 := Init().g.(captured := 1);
    b := OneEventPushed(c, e);
    b := Extend(c, b, NewFlush, b[2]);
    var s3 := State(g0.(ring := [e]), [Loop(Select), Capture(Pushed(0)), Flush(FlushDrain(Popping))]);
    assert b[3] == s3;
    b := Extend(c, b, Act(2, Action.Pop), s3);
    var s4 := State(g0, [Loop(Select), Capture(Pushed(0)), Flush(FlushDrain(Holding([0])))]);
    assert b[4] == s4;
    b := Extend(c, b, NewClose, s4);
    assert b[5] == FlushHolds(g0, Select, Entering);
    g := g0.(once := Running);
    b := Extend(c, b, Act(3, EnterOnce), FlushHolds(g0, Select, Entering));
  }

  /** The first Close carries on: the loop hears the stop, finds the ring empty and ends. */
  lemma LoopEndsBesideFlush(c: Config, size: Size) returns (b: seq<State>, g: Globals)
    ensures Behavior(c, b) && |b| == 11 && b[6].threads == FlushHolds(g, Select, Stopping).threads
    ensures b[6].g.captured == 1 && b[10] == FlushHolds(g, Exited, AwaitLoop)
    ensures g == Init().g.(captured := 1, once := Running, stopCloses := 1, stoppedCloses := 1)
  {
    hide Behavior;
    var g0;
    b, g0 := FlushTakesTheEvent(c, size);
    b := Extend(c, b, Act(3, CloseStop), FlushHolds(g0, Select, Stopping));
    var g1 := g0.(stopCloses := 1);
    assert b[7] == FlushHolds(g1, Select, AwaitLoop);
    b := Extend(c, b, Act(0, SeeStop), FlushHolds(g1, Select, AwaitLoop));
    assert b[8] == FlushHolds(g1, LoopPc.Draining(Popping, true), AwaitLoop);
    b := Extend(c, b, Act(0, Action.Pop), FlushHolds(g1, LoopPc.Draining(Popping, true), AwaitLoop));
    assert b[9] == FlushHolds(g1, Unwinding(false), AwaitLoop);
    b := Extend(c, b, Act(0, CloseStopped), FlushHolds(g1, Unwinding(false), AwaitLoop));
    g := g1.(stoppedCloses := 1);
  }

  /**
   The exception of Close is real too: it can return nil while an event pushed before the call is still
   in the hand of a Flush.
   */
  lemma CloseCanMissABatch(c: Config, size: Size) returns (b: seq<State>)
    ensures Behavior(c, b) && |b| == 16
    ensures |b[6].threads| == |b[15].threads| == 4
    ensures b[6].threads[3] == Close(Stopping) && b[15].threads[3] == Close(CloseDone(true))
    ensures WasPushed(b[6], 0) && !Settled(b[15].g, 0)
  {
    hide Behavior;
    var g;
    b, g := LoopEndsBesideFlush(c, size);
    b := Extend(c, b, Act(3, SeeStopped), FlushHolds(g, Exited, AwaitLoop));
    assert b[11] == FlushHolds(g, Exited, CloseDrain(Popping, true));
    b := Extend(c, b, Act(3, Action.Pop), FlushHolds(g, Exited, CloseDrain(Popping, true)));
    assert b[12] == FlushHolds(g, Exited, CloseWait(true, false));
    b := Extend(c, b, Act(3, SeeIdle), FlushHolds(g, Exited, CloseWait(true, false)));
    assert b[13] == FlushHolds(g, Exited, CloseWait(true, true));
    b := Extend(c, b, Act(3, ReturnNil), FlushHolds(g, Exited, CloseWait(true, true)));
    assert b[14] == FlushHolds(g, Exited, Cancelling(true));
    b := Extend(c, b, Act(3, Cancel), FlushHolds(g, Exited, Cancelling(true)));
    assert b[15] == FlushHolds(g.(baseCancelled := true, once := Finished), Exited, CloseDone(true));
  }
}
