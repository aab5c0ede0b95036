/**
 How the protocol's one-step sends stand for whole deliveries: a resolution does to the counters and the
 records what the reports of a delivery do, and over a run the records list the resolutions in order.
 */
module Outcomes {
  import opened Protocol
  import opened ProtocolInvariant
  import opened DeliveryLaws
  import Delivery

  /** The step resolves a batch, as sent or as exhausted. */
  predicate Resolves(a: Action, ok: bool) {
    a == EndSync(ok) || a == Resolve(ok)
  }

  /**
   Resolving a batch with the outcome of a delivery moves exactly the counters that the reports of that
   delivery move, records the batch accordingly, takes it out of the thread's hand and changes no more.
   */
  lemma ResolutionIsDelivery(c: Config, s: State, t: nat, a: Action,
                             dc: Delivery.Config, w: Delivery.World, waits: seq<int>)
    requires StepEnabled(c, s, Act(t, a)) && Resolves(a, Succeeds(dc, w))
    requires |waits| == Delivery.WaitCount(dc, w)
    ensures var batch, s' := HeldBy(s.threads[t]), Take(c, s, Act(t, a));
            var es := Delivery.Policy(dc, w, |batch|, waits);
            && s'.g == s.g.(sent := s.g.sent + CountSent(es), droppedSend := s.g.droppedSend + CountDropped(es),
                            delivered := if Succeeds(dc, w) then s.g.delivered + batch else s.g.delivered,
                            exhausted := if Succeeds(dc, w) then s.g.exhausted else s.g.exhausted + batch)
            && |s'.threads| == |s.threads| && HeldBy(s'.threads[t]) == []
  {
    hide Delivery.Policy, CountSent, CountDropped;
    var batch := HeldBy(s.threads[t]);
    DeliveryCountsItsBatch(dc, w, |batch|, waits);
    ResolvingEffect(c, s.g, s.threads[t], a, Succeeds(dc, w));
  }

  lemma ResolvingEffect(c: Config, g: Globals, th: Thread, a: Action, ok: bool)
    requires Enabled(c, g, th, a) && Resolves(a, ok)
    ensures var (g', th', started) := Effect(c, g, th, a);
            var batch := HeldBy(th);
            && started == [] && HeldBy(th') == []
            && g' == if ok then g.(delivered := g.delivered + batch, sent := g.sent + |batch|)
                     else g.(exhausted := g.exhausted + batch, droppedSend := g.droppedSend + |batch|)
  {
  }

  /** Nothing but a resolution touches what was sent or given up. */
  lemma OnlyResolutionsSettle(c: Config, g: Globals, th: Thread, a: Action)
    requires Enabled(c, g, th, a) && !a.EndSync? && !a.Resolve?
    ensures SameOutcomes(Effect(c, g, th, a).0, g)
  {
    if IsDraining(th) {
      DrainKeepsOutcomes(c, g, th, a);
    }
  }

  lemma DrainKeepsOutcomes(c: Config, g: Globals, th: Thread, a: Action)
    requires Enabled(c, g, th, a) && !a.EndSync? && IsDraining(th)
    ensures SameOutcomes(Effect(c, g, th, a).0, g)
  {
  }

  predicate SameOutcomes(g: Globals, h: Globals) {
    g.delivered == h.delivered && g.exhausted == h.exhausted && g.sent == h.sent && g.droppedSend == h.droppedSend
  }

  // ---------------------------------------------------------------- over a run

  /** A run together with the steps it took. */
  ghost predicate Traces(c: Config, b: seq<State>, steps: seq<Step>) {
    && |b| == |steps| + 1 && b[0] == Init()
    && forall i :: 0 <= i < |steps| ==> StepEnabled(c, b[i], steps[i]) && b[i + 1] == Take(c, b[i], steps[i])
  }

  /** Every run took some steps. */
  lemma {:induction false} RunsHaveSteps(c: Config, b: seq<State>) returns (steps: seq<Step>)
    requires Behavior(c, b)
    ensures Traces(c, b, steps)
  {
    hide StepEnabled, Take;
    steps := [];
    if |b| > 1 {
      var n := |b| - 1;
      assert Behavior(c, b[..n]) by {
        forall i | 0 <= i < n - 1
          ensures Next(c, b[..n][i], b[..n][i + 1])
        {
          assert Next(c, b[i], b[i + 1]);
        }
      }
      steps := RunsHaveSteps(c, b[..n]);
      assert Next(c, b[n - 1], b[n - 1 + 1]);
      var step :| StepEnabled(c, b[n - 1], step) && b[n] == Take(c, b[n - 1], step);
      steps := steps + [step];
      forall i | 0 <= i < n
        ensures StepEnabled(c, b[i], steps[i]) && b[i + 1] == Take(c, b[i], steps[i])
      {
        assert i < n - 1 ==> b[..n][i] == b[i] && b[..n][i + 1] == b[i + 1];
      }
    }
  }

  /** The batches resolved as `ok` in the first `k` steps, in the order of their resolution. */
  ghost function Resolved(b: seq<State>, steps: seq<Step>, k: nat, ok: bool): seq<Ev>
    requires k <= |steps| && |b| == |steps| + 1
    requires forall i :: 0 <= i < k && steps[i].Act? ==> steps[i].t < |b[i].threads|
  {
    if k == 0 then []
    else
      var step := steps[k - 1];
      Resolved(b, steps, k - 1, ok)
      + if step.Act? && Resolves(step.a, ok) then HeldBy(b[k - 1].threads[step.t]) else []
  }

  /**
   Over every run what is recorded as sent is exactly the batches whose delivery succeeded, in the order in
   which they were resolved, and likewise for what was given up; the counters are their sizes.
   */
  lemma {:induction false} RecordsListResolutions(c: Config, b: seq<State>, steps: seq<Step>, k: nat)
    requires Traces(c, b, steps) && k <= |steps|
    ensures b[k].g.delivered == Resolved(b, steps, k, true) && b[k].g.exhausted == Resolved(b, steps, k, false)
    ensures b[k].g.sent == |b[k].g.delivered| && b[k].g.droppedSend == |b[k].g.exhausted|
  {
    hide Enabled, Effect, HeldBy;
    if k > 0 {
      RecordsListResolutions(c, b, steps, k - 1);
      var s, step := b[k - 1], steps[k - 1];
      assert StepEnabled(c, s, step) && b[k - 1 + 1] == Take(c, s, step);
      if step.Act? {
        var a := step.a;
        if a.EndSync? || a.Resolve? {
          ResolvingEffect(c, s.g, s.threads[step.t], a, a.ok);
        } else {
          OnlyResolutionsSettle(c, s.g, s.threads[step.t], a);
        }
      }
    }
  }
}
