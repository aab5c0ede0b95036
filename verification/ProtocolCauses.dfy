/**
 Why things happen in the pipeline: what a cue makes the loop do, how the loop comes to its end, when a
 batch is sent on the drainer's own thread, and when the base context is cancelled.
 */
module ProtocolCauses {
  import opened Protocol
  import opened ProtocolInvariant
  import opened ProtocolSafety
  import opened ProtocolWaits

  // ---------------------------------------------------------------- the loop is the first thread

  ghost predicate HasLoop(s: State) {
    s.threads != [] && s.threads[0].Loop?
  }

  function LoopOf(s: State): LoopPc
    requires HasLoop(s)
  {
    s.threads[0].lpc
  }

  lemma LoopStaysLoop(c: Config, g: Globals, th: Thread, a: Action)
    requires Enabled(c, g, th, a) && th.Loop?
    ensures Effect(c, g, th, a).1.Loop?
  {
  }

  lemma {:induction false} LoopIsFirst(c: Config, b: seq<State>, k: nat)
    requires Behavior(c, b) && k < |b|
    ensures HasLoop(b[k])
  {
    hide Enabled, Effect, Take, StepEnabled;
    if k > 0 {
      LoopIsFirst(c, b, k - 1);
      var step := StepTaken(c, b, k - 1);
      if step.Act? && step.t == 0 {
        OwnStep(c, b[k - 1], 0, step.a);
        LoopStaysLoop(c, b[k - 1].g, b[k - 1].threads[0], step.a);
      } else {
        OtherStepKeepsThread(c, b[k - 1], step, 0);
      }
    }
  }

  // ---------------------------------------------------------------- a cue makes the loop drain

  lemma CueStartsDrain(c: Config, g: Globals, a: Action)
    requires Enabled(c, g, Loop(Select), a)
    ensures IsDraining(Effect(c, g, Loop(Select), a).1)
  {
  }

  lemma DrainEndsEmpty(c: Config, g: Globals, th: Thread, a: Action)
    requires Enabled(c, g, th, a) && IsDraining(th) && !IsDraining(Effect(c, g, th, a).1)
    ensures g.ring == [] && Effect(c, g, th, a).0 == g
  {
  }

  /** The events pushed by step `i` are out of the ring at step `k`. */
  ghost predicate AllLeft(b: seq<State>, i: nat, k: nat)
    requires i < |b| && k < |b|
  {
    forall e :: WasPushed(b[i], e) ==> LeftRing(b[k], e)
  }

  /**
   Whatever cue the loop takes, a tick, the trigger or the stop, it drains before anything else: once it is
   through, every event pushed before the cue is out of the ring.
   */
  lemma {:induction false} CueDrains(c: Config, b: seq<State>, i: nat, k: nat)
    requires Behavior(c, b) && i < k < |b|
    requires HasLoop(b[i]) && LoopOf(b[i]) == Select && HasLoop(b[i + 1]) && LoopOf(b[i + 1]) != Select
    ensures HasLoop(b[k]) && (IsDraining(b[k].threads[0]) || AllLeft(b, i, k))
    decreases k
  {
    hide Behavior, Enabled, Effect, Take, StepEnabled, WasPushed, LeftRing, IsDraining;
    LoopIsFirst(c, b, k);
    LoopIsFirst(c, b, k - 1);
    var step := StepTaken(c, b, k - 1);
    PushedAcross(c, b, i, k - 1);
    if k > i + 1 {
      CueDrains(c, b, i, k - 1);
    }
    if step.Act? && step.t == 0 {
      OwnStep(c, b[k - 1], 0, step.a);
      if k == i + 1 {
        CueStartsDrain(c, b[i].g, step.a);
      } else if IsDraining(b[k - 1].threads[0]) && !IsDraining(b[k].threads[0]) {
        DrainEndsEmpty(c, b[k - 1].g, b[k - 1].threads[0], step.a);
      }
    } else {
      OtherStepKeepsThread(c, b[k - 1], step, 0);
    }
  }

  // ---------------------------------------------------------------- how the loop ends

  /** The loop has panicked by step `k`. */
  ghost predicate Panicked(b: seq<State>, k: nat) {
    exists i :: 0 <= i <= k && i < |b| && HasLoop(b[i]) && LoopOf(b[i]) == Unwinding(true)
  }

  /** What the shared state says of a loop that has, or has not, panicked. */
  predicate Fate(g: Globals, l: LoopPc, panicked: bool) {
    && g.disabled == (if panicked && l.Exited? then 1 else 0)
    && g.stoppedCloses == (if l.Disabling? || l.Exited? then 1 else 0)
    && (panicked ==> l == Unwinding(true) || l.Disabling? || l.Exited?)
    && (l == Unwinding(true) || l.Disabling? ==> panicked)
    && ((l.Exited? && !panicked) || l == Unwinding(false) || (l.Draining? && l.last) ==> g.stopCloses > 0)
  }

  lemma LoopKeepsFate(c: Config, g: Globals, l: LoopPc, a: Action, panicked: bool)
    requires Enabled(c, g, Loop(l), a) && Fate(g, l, panicked)
    ensures var (g', th', _) := Effect(c, g, Loop(l), a);
            th'.Loop? && Fate(g', th'.lpc, panicked || th'.lpc == Unwinding(true))
  {
  }

  lemma OthersKeepFate(c: Config, g: Globals, th: Thread, a: Action)
    requires Enabled(c, g, th, a) && !th.Loop?
    ensures var g' := Effect(c, g, th, a).0;
            g'.disabled == g.disabled && g'.stoppedCloses == g.stoppedCloses && g'.stopCloses >= g.stopCloses
  {
  }

  lemma {:induction false} FateHolds(c: Config, b: seq<State>, k: nat)
    requires ValidConfig(c) && Behavior(c, b) && k < |b|
    ensures HasLoop(b[k]) && Fate(b[k].g, LoopOf(b[k]), Panicked(b, k))
    decreases k
  {
    hide ValidConfig, Enabled, Effect, Fate, Panicked;
    LoopIsFirst(c, b, k);
    if k == 0 {
      FateAtStart(c, b);
    } else {
      FateHolds(c, b, k - 1);
      PanickedGrows(b, k);
      var s := b[k - 1];
      var step := StepTaken(c, b, k - 1);
      if !step.Act? {
        SameFate(s.g, b[k].g, LoopOf(s), Panicked(b, k - 1));
      } else if step.t == 0 {
        LoopKeepsFate(c, s.g, LoopOf(s), step.a, Panicked(b, k - 1));
      } else {
        OnlyOneLoop(c, b, k - 1, step.t);
        OthersKeepFate(c, s.g, s.threads[step.t], step.a);
        SameFate(s.g, b[k].g, LoopOf(s), Panicked(b, k - 1));
      }
    }
  }

  lemma FateAtStart(c: Config, b: seq<State>)
    requires Behavior(c, b)
    ensures HasLoop(b[0]) && Fate(b[0].g, LoopOf(b[0]), Panicked(b, 0))
  {
  }

  lemma PanickedGrows(b: seq<State>, k: nat)
    requires 0 < k < |b| && HasLoop(b[k])
    ensures Panicked(b, k) <==> Panicked(b, k - 1) || LoopOf(b[k]) == Unwinding(true)
  {
  }

  lemma SameFate(g: Globals, g': Globals, l: LoopPc, panicked: bool)
    requires Fate(g, l, panicked)
    requires g'.disabled == g.disabled && g'.stoppedCloses == g.stoppedCloses && g'.stopCloses >= g.stopCloses
    ensures Fate(g', l, panicked) && (l == Unwinding(true) ==> panicked)
  {
  }

  lemma {:induction false} OnlyOneLoop(c: Config, b: seq<State>, k: nat, t: nat)
    requires Behavior(c, b) && k < |b| && 0 < t < |b[k].threads|
    ensures !b[k].threads[t].Loop?
    decreases k
  {
    hide Enabled, Effect, Take, StepEnabled;
    if k > 0 {
      var s := b[k - 1];
      var step := StepTaken(c, b, k - 1);
      if t >= |s.threads| {
        NewThreadsAreNoLoops(c, s, step, t);
      } else {
        OnlyOneLoop(c, b, k - 1, t);
        if step.Act? && step.t == t {
          OwnStep(c, s, t, step.a);
          KindStays(c, s.g, s.threads[t], step.a);
        } else {
          OtherStepKeepsThread(c, s, step, t);
        }
      }
    }
  }

  lemma NewThreadsAreNoLoops(c: Config, s: State, step: Step, t: nat)
    requires StepEnabled(c, s, step) && |s.threads| <= t < |Take(c, s, step).threads|
    ensures !Take(c, s, step).threads[t].Loop?
  {
    hide Enabled, Effect;
    if step.Act? {
      StartsSenders(c, s.g, s.threads[step.t], step.a);
    }
  }

  lemma KindStays(c: Config, g: Globals, th: Thread, a: Action)
    requires Enabled(c, g, th, a) && !th.Loop?
    ensures !Effect(c, g, th, a).1.Loop?
  {
  }

  lemma StartsSenders(c: Config, g: Globals, th: Thread, a: Action)
    requires Enabled(c, g, th, a)
    ensures forall i :: 0 <= i < |Effect(c, g, th, a).2| ==> Effect(c, g, th, a).2[i].Sender?
  {
  }

  /**
   A loop that has ended was told to stop or has panicked, and it is counted as disabled, once, exactly if it
   has panicked; the channel that tells of its end is closed exactly from its unwinding on.
   */
  lemma LoopEndsForAReason(c: Config, b: seq<State>, k: nat)
    requires ValidConfig(c) && Behavior(c, b) && k < |b|
    ensures HasLoop(b[k])
    ensures LoopOf(b[k]) == Exited ==> (b[k].g.disabled == 1 <==> Panicked(b, k))
    ensures LoopOf(b[k]) == Exited && !Panicked(b, k) ==> b[k].g.stopCloses == 1
    ensures LoopOf(b[k]) != Exited ==> b[k].g.disabled == 0
    ensures b[k].g.stoppedCloses == 1 <==> LoopOf(b[k]) == Exited || LoopOf(b[k]) == Disabling
  {
    hide Behavior, Panicked;
    FateHolds(c, b, k);
    ChannelsCloseOnce(c, b, k);
  }

  // ---------------------------------------------------------------- sending on one's own thread

  /**
   A drainer with a batch in hand has one way to go: an asynchronous send while a token is free, and a send
   on its own thread exactly when all MaxConcurrent tokens are taken.
   */
  lemma DispatchIsForced(c: Config, b: seq<State>, k: nat, t: nat, a: Action)
    requires ValidConfig(c) && Behavior(c, b) && k < |b| && t < |b[k].threads|
    requires IsDraining(b[k].threads[t]) && DrainOf(b[k].threads[t]).Holding?
    ensures StepEnabled(c, b[k], Act(t, a)) <==> a == if b[k].g.tokens == c.maxConcurrent then StartSync else Acquire
  {
    hide Conserved, Counted, Bounded, Guarded, Awake;
    InvariantHolds(c, b, k);
  }

  // ---------------------------------------------------------------- the base context

  lemma EffectKeepsCancel(c: Config, g: Globals, th: Thread, a: Action)
    requires Enabled(c, g, th, a) && (g.baseCancelled <==> g.once.Finished?)
    ensures var g' := Effect(c, g, th, a).0;
            (g'.baseCancelled <==> g'.once.Finished?) && (g.baseCancelled ==> g'.baseCancelled)
  {
  }

  /** The base context, under which the loop sends, is cancelled exactly when the first Close has finished. */
  lemma {:induction false} BaseCancelledIff(c: Config, b: seq<State>, k: nat)
    requires Behavior(c, b) && k < |b|
    ensures b[k].g.baseCancelled <==> b[k].g.once.Finished?
  {
    hide Enabled, Effect;
    if k > 0 {
      BaseCancelledIff(c, b, k - 1);
      var s := b[k - 1];
      var step := StepTaken(c, b, k - 1);
      if step.Act? {
        EffectKeepsCancel(c, s.g, s.threads[step.t], step.a);
      }
    }
  }

  // ---------------------------------------------------------------- Flush and Close drain in any case

  lemma DrainStageEnds(c: Config, g: Globals, th: Thread, a: Action)
    requires Enabled(c, g, th, a) && StageOf(th) == Stage.Draining && StageOf(Effect(c, g, th, a).1) != Stage.Draining
    ensures g.ring == [] && Effect(c, g, th, a).0 == g
  {
  }

  /**
   A Flush, or the first Close, has emptied the ring of everything pushed before the call when it returns,
   nil or not: a context that expires cuts the waiting short, never the draining.
   */
  lemma {:induction false} DrainsInAnyCase(c: Config, b: seq<State>, i: nat, k: nat, me: nat)
    requires ValidConfig(c) && Behavior(c, b) && i <= k < |b|
    requires me < |b[i].threads| && StageOf(b[i].threads[me]) == Stage.Draining
    ensures me < |b[k].threads| && StageOf(b[k].threads[me]) != Elsewhere
    ensures StageOf(b[k].threads[me]) == Stage.Draining || AllLeft(b, i, k)
    decreases k
  {
    hide Behavior, ValidConfig, Enabled, Effect, Take, StepEnabled, WasPushed, LeftRing, StageOf;
    if i < k {
      DrainsInAnyCase(c, b, i, k - 1, me);
      var step := StepTaken(c, b, k - 1);
      PushedAcross(c, b, i, k - 1);
      if step.Act? && step.t == me {
        OwnStep(c, b[k - 1], me, step.a);
        StageMoves(c, b[k - 1].g, b[k - 1].threads[me], step.a);
        if StageOf(b[k - 1].threads[me]) == Stage.Draining && StageOf(b[k].threads[me]) != Stage.Draining {
          DrainStageEnds(c, b[k - 1].g, b[k - 1].threads[me], step.a);
        }
      } else {
        OtherStepKeepsThread(c, b[k - 1], step, me);
      }
    }
  }

  // ---------------------------------------------------------------- panics of the queue report

  /** In the loop a panicking report is the end of it: it never selects again, and it ends counted as disabled. */
  lemma PanicDisables(c: Config, b: seq<State>, i: nat, k: nat)
    requires ValidConfig(c) && Behavior(c, b) && i < k < |b|
    requires HasLoop(b[i]) && StepEnabled(c, b[i], Act(0, ReportPanics))
    requires b[i + 1] == Take(c, b[i], Act(0, ReportPanics))
    ensures HasLoop(b[k])
    ensures LoopOf(b[k]) == Unwinding(true) || LoopOf(b[k]) == Disabling || LoopOf(b[k]) == Exited
    ensures LoopOf(b[k]) == Exited ==> b[k].g.disabled == 1
  {
    hide Behavior, ValidConfig;
    FateHolds(c, b, k);
    OwnStep(c, b[i], 0, ReportPanics);
    ReportPanicsUnwinds(c, b[i].g, LoopOf(b[i]));
    assert HasLoop(b[i + 1]) && LoopOf(b[i + 1]) == Unwinding(true);
    assert Panicked(b, k);
  }

  lemma ReportPanicsUnwinds(c: Config, g: Globals, l: LoopPc)
    requires Enabled(c, g, Loop(l), ReportPanics)
    ensures Effect(c, g, Loop(l), ReportPanics).1 == Loop(Unwinding(true))
  {
  }

  /** In a Flush a panicking report makes no difference at all. */
  lemma FlushReportIsGuarded(c: Config, s: State, t: nat)
    requires t < |s.threads| && s.threads[t].Flush?
    ensures StepEnabled(c, s, Act(t, Report)) <==> StepEnabled(c, s, Act(t, ReportPanics))
    ensures StepEnabled(c, s, Act(t, Report)) ==> Take(c, s, Act(t, Report)) == Take(c, s, Act(t, ReportPanics))
  {
  }
}
