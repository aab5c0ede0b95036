/**
 The pipeline comes to rest: without new calls and ticks every schedule is finite, and where it ends
 nothing is left half done.
 */
module ProtocolProgress {
  import opened Protocol
  import opened ProtocolInvariant
  import opened ProtocolSafety

  // ---------------------------------------------------------------- every schedule is finite

  /** The most steps a thread can still cause on its own. */
  function Work(th: Thread): nat {
    match th
    case Capture(pc) =>
      (match pc
       case InTransit(_) => 40
       case Pushed(_) => 13
       case Checking => 12
       case Notifying => 11
       case Returned => 0)
    case Loop(l) =>
      (match l
       case Select => 10
       case Draining(d, last) => (if last then 6 else 12) + DrainWork(d)
       case Reporting => 11
       case Unwinding(_) => 4
       case Disabling => 2
       case Exited => 0)
    case Flush(f) =>
      (match f
       case FlushDrain(d) => 6 + DrainWork(d)
       case FlushReport => 5
       case FlushWait(seen) => if seen then 3 else 4
       case FlushDone(_) => 0)
    case Close(k) =>
      (match k
       case Entering => 14
       case Stopping => 13
       case AwaitLoop => 12
       case CloseDrain(d, _) => 10 + DrainWork(d)
       case CloseWait(_, seen) => if seen then 7 else 8
       case Cancelling(_) => 6
       case CloseDone(_) => 0)
    case Sender(p) =>
      (match p
       case Sending(_) => 3
       case Releasing => 2
       case Finishing => 1
       case Gone => 0)
  }

  function DrainWork(d: Drain): nat {
    match d
    case Popping => 0
    case Holding(_) => 24
    case Tokened(_) => 23
    case Added(_) => 22
    case SendingSync(_) => 1
  }

  function PendingWork(g: Globals): nat {
    25 * |g.ring| + if g.trigger then 5 else 0
  }

  function Potential(s: State): nat {
    Sum(s.threads, Work) + PendingWork(s.g)
  }

  /** An action uses up work. */
  ghost predicate UsesUp(c: Config, g: Globals, th: Thread, a: Action)
    requires Enabled(c, g, th, a)
  {
    var (g', th', started) := Effect(c, g, th, a);
    Work(th') + Sum(started, Work) + PendingWork(g') < Work(th) + PendingWork(g)
  }

  lemma CaptureUsesUp(c: Config, g: Globals, th: Thread, a: Action)
    requires Enabled(c, g, th, a) && !a.Tick? && th.Capture?
    ensures UsesUp(c, g, th, a)
  {
  }

  lemma DrainUsesUp(c: Config, g: Globals, th: Thread, a: Action)
    requires Enabled(c, g, th, a) && !a.Tick? && IsDraining(th)
    ensures UsesUp(c, g, th, a)
  {
    if a.Spawn? {
      SumSingle(Sender(Sending(DrainOf(th).batch)), Work);
    }
  }

  lemma SenderUsesUp(c: Config, g: Globals, th: Thread, a: Action)
    requires Enabled(c, g, th, a) && !a.Tick? && th.Sender?
    ensures UsesUp(c, g, th, a)
  {
  }

  lemma LoopUsesUp(c: Config, g: Globals, th: Thread, a: Action)
    requires Enabled(c, g, th, a) && !a.Tick? && th.Loop? && !IsDraining(th)
    ensures UsesUp(c, g, th, a)
  {
  }

  lemma FlushUsesUp(c: Config, g: Globals, th: Thread, a: Action)
    requires Enabled(c, g, th, a) && !a.Tick? && th.Flush? && !IsDraining(th)
    ensures UsesUp(c, g, th, a)
  {
  }

  lemma CloseUsesUp(c: Config, g: Globals, th: Thread, a: Action)
    requires Enabled(c, g, th, a) && !a.Tick? && th.Close? && !IsDraining(th)
    ensures UsesUp(c, g, th, a)
  {
  }

  lemma EffectUsesUp(c: Config, g: Globals, th: Thread, a: Action)
    requires Enabled(c, g, th, a) && !a.Tick?
    ensures UsesUp(c, g, th, a)
  {
    hide Enabled, Effect, UsesUp;
    if IsDraining(th) {
      DrainUsesUp(c, g, th, a);
    } else {
      match th
      case Capture(_) => CaptureUsesUp(c, g, th, a);
      case Sender(_) => SenderUsesUp(c, g, th, a);
      case Loop(_) => LoopUsesUp(c, g, th, a);
      case Flush(_) => FlushUsesUp(c, g, th, a);
      case Close(_) => CloseUsesUp(c, g, th, a);
    }
  }

  /** A step of a thread already there, other than the ticker firing. */
  ghost predicate OrdinaryNext(c: Config, s: State, s': State) {
    exists t: nat, a :: StepEnabled(c, s, Act(t, a)) && !a.Tick? && s' == Take(c, s, Act(t, a))
  }

  lemma OrdinaryStepWorks(c: Config, s: State, s': State)
    requires OrdinaryNext(c, s, s')
    ensures Potential(s') < Potential(s)
  {
    hide Effect, Enabled, Work;
    var t: nat, a :| StepEnabled(c, s, Act(t, a)) && !a.Tick? && s' == Take(c, s, Act(t, a));
    var (g', th', started) := Effect(c, s.g, s.threads[t], a);
    EffectUsesUp(c, s.g, s.threads[t], a);
    SumStep(s.threads, t, th', started, Work);
  }

  /**
   Without new calls and without ticks, every schedule of the threads, fair or not, is over after a
   number of steps that the state it starts from bounds: no livelock.
   */
  lemma {:induction false} SchedulesAreFinite(c: Config, run: seq<State>)
    requires run != [] && forall i :: 0 <= i < |run| - 1 ==> OrdinaryNext(c, run[i], run[i + 1])
    ensures |run| - 1 <= Potential(run[0])
  {
    hide OrdinaryNext, Potential;
    if |run| > 1 {
      assert OrdinaryNext(c, run[0], run[1]);
      OrdinaryStepWorks(c, run[0], run[1]);
      forall i | 0 <= i < |run[1..]| - 1
        ensures OrdinaryNext(c, run[1..][i], run[1..][i + 1])
      {
        assert OrdinaryNext(c, run[i + 1], run[i + 1 + 1]);
      }
      SchedulesAreFinite(c, run[1..]);
    }
  }

  // ---------------------------------------------------------------- where they end

  /** Nothing can happen short of a new call, a tick, or a context expiring. */
  ghost predicate AtRest(c: Config, s: State) {
    forall t: nat, a :: StepEnabled(c, s, Act(t, a)) ==> a.Tick? || a.ReturnErr? || a.StopTimeout?
  }

  predicate IsOver(th: Thread) {
    match th
    case Capture(pc) => pc.Returned?
    case Loop(l) => l.Select? || l.Exited?
    case Flush(f) => f.FlushDone?
    case Close(k) => k.CloseDone?
    case Sender(p) => p.Gone?
  }

  predicate Ordinary(a: Action) {
    !a.Tick? && !a.ReturnErr? && !a.StopTimeout?
  }

  lemma CannotAct(c: Config, s: State, t: nat, a: Action)
    requires AtRest(c, s) && Ordinary(a) && t < |s.threads|
    ensures !Enabled(c, s.g, s.threads[t], a)
  {
    assert !StepEnabled(c, s, Act(t, a));
  }

  predicate IsWorker(th: Thread) {
    IsDraining(th) || ((th.Capture? || th.Sender?) && !IsOver(th))
  }

  /** What a thread with work in hand does next. */
  function WorkerAction(c: Config, g: Globals, th: Thread): Action
    requires IsWorker(th)
  {
    match th
    case Capture(pc) =>
      (match pc
       case InTransit(_) => Action.Push
       case Pushed(_) => CountDrops
       case Checking => Check
       case Notifying => Notify)
    case Sender(p) =>
      (match p
       case Sending(_) => Resolve(true)
       case Releasing => ReleaseToken
       case Finishing => FinishSend)
    case _ =>
      (match DrainOf(th)
       case Popping => Action.Pop
       case Holding(_) => if g.tokens < c.maxConcurrent then Acquire else StartSync
       case Tokened(_) => AddInflight
       case Added(_) => Spawn
       case SendingSync(_) => EndSync(true))
  }

  lemma WorkerCanAct(c: Config, g: Globals, th: Thread)
    requires IsWorker(th) && TokensOf(th) <= g.tokens && InflightOf(th) <= g.inflight
    ensures Ordinary(WorkerAction(c, g, th)) && Enabled(c, g, th, WorkerAction(c, g, th))
  {
  }

  /** No capture call, drain or send is ever stuck halfway. */
  lemma NoWorkerIsStuck(c: Config, s: State, t: nat)
    requires Inv(c, s) && AtRest(c, s) && t < |s.threads|
    ensures !IsWorker(s.threads[t])
  {
    var th := s.threads[t];
    SumUpdate(s.threads, t, th, TokensOf);
    SumUpdate(s.threads, t, th, InflightOf);
    if IsWorker(th) {
      WorkerCanAct(c, s.g, th);
      CannotAct(c, s, t, WorkerAction(c, s.g, th));
    }
  }

  /** At rest no token and no wait-group count is outstanding. */
  lemma NothingOutstanding(c: Config, s: State)
    requires Inv(c, s) && AtRest(c, s)
    ensures s.g.tokens == 0 && s.g.inflight == 0
  {
    forall t | 0 <= t < |s.threads|
      ensures TokensOf(s.threads[t]) == 0 && InflightOf(s.threads[t]) == 0
    {
      NoWorkerIsStuck(c, s, t);
    }
    NobodySumsToZero(s.threads, TokensOf);
    NobodySumsToZero(s.threads, InflightOf);
  }

  /** A thread that with the wait group at zero can go on by itself. */
  predicate IsWaiter(th: Thread) {
    || (th.Loop? && !IsOver(th) && !IsDraining(th))
    || (th.Flush? && !IsOver(th) && !IsDraining(th))
    || (th.Close? && !IsOver(th) && !IsDraining(th) && !th.cpc.Entering? && !th.cpc.AwaitLoop?)
  }

  function WaiterAction(th: Thread): Action
    requires IsWaiter(th)
  {
    if IsWaiting(th) then (if IdleSeen(th) then ReturnNil else SeeIdle)
    else
      match th
      case Loop(l) => if l.Reporting? then Report else if l.Unwinding? then CloseStopped else CountDisabled
      case Flush(_) => Report
      case Close(k) => if k.Stopping? then CloseStop else Cancel
  }

  lemma WaiterCanAct(c: Config, g: Globals, th: Thread)
    requires IsWaiter(th) && g.inflight == 0
    ensures Ordinary(WaiterAction(th)) && Enabled(c, g, th, WaiterAction(th))
  {
  }

  lemma NoWaiterIsStuck(c: Config, s: State, t: nat)
    requires Inv(c, s) && AtRest(c, s) && t < |s.threads|
    ensures !IsWaiter(s.threads[t])
  {
    NothingOutstanding(c, s);
    if IsWaiter(s.threads[t]) {
      WaiterCanAct(c, s.g, s.threads[t]);
      CannotAct(c, s, t, WaiterAction(s.threads[t]));
    }
  }

  /** The first Close is never left waiting: the loop hears the stop. */
  lemma NoCloserAwaits(c: Config, s: State, t: nat)
    requires Inv(c, s) && AtRest(c, s) && t < |s.threads|
    ensures s.threads[t] != Close(AwaitLoop)
  {
    hide Effect, Conserved, Counted, Awake, Balanced, AtRest;
    if s.threads[t] == Close(AwaitLoop) {
      CannotAct(c, s, t, SeeStopped);
      SumUpdate(s.threads, t, s.threads[t], InOnce);
      NobodyBeforeStop(c, s);
      var u := SumWitness(s.threads, LiveLoop);
      NoWaiterIsStuck(c, s, u);
      NoWorkerIsStuck(c, s, u);
      CannotAct(c, s, u, SeeStop);
      assert false;
    }
  }

  lemma NobodyBeforeStop(c: Config, s: State)
    requires Inv(c, s) && AtRest(c, s)
    ensures Sum(s.threads, BeforeStop) == 0
  {
    hide Inv, AtRest;
    forall t | 0 <= t < |s.threads|
      ensures BeforeStop(s.threads[t]) == 0
    {
      CannotAct(c, s, t, CloseStop);
    }
    NobodySumsToZero(s.threads, BeforeStop);
  }

  lemma NoCloserEnters(c: Config, s: State, t: nat)
    requires Inv(c, s) && AtRest(c, s) && t < |s.threads|
    ensures s.threads[t] != Close(Entering)
  {
    hide Effect, Conserved, Counted, Awake, Balanced, AtRest;
    if s.threads[t] == Close(Entering) {
      CannotAct(c, s, t, EnterOnce);
      CannotAct(c, s, t, EnterFinished);
      var u := SumWitness(s.threads, InOnce);
      NoWorkerIsStuck(c, s, u);
      NoWaiterIsStuck(c, s, u);
      NoCloserAwaits(c, s, u);
      assert false;
    }
  }

  /**
   Deadlock freedom and quiescence: in every run, where nothing more can happen without a new call, a
   tick or an expiring context, every call has returned and every sender is gone, no token or wait-group
   count is outstanding, the captured events are exactly those sent, dropped by the sender, dropped on
   overflow and still in the ring, and a loop still alive has been told of no stop and has less than a
   full batch waiting.
   */
  lemma RestIsQuiescent(c: Config, b: seq<State>, k: nat)
    requires ValidConfig(c) && Behavior(c, b) && k < |b| && AtRest(c, b[k])
    ensures var s := b[k];
            && (forall t :: 0 <= t < |s.threads| ==> IsOver(s.threads[t]) && HeldBy(s.threads[t]) == [])
            && s.g.tokens == 0 && s.g.inflight == 0
            && s.g.captured == s.g.sent + s.g.droppedSend + s.g.droppedOverflow + |s.g.ring|
            && (forall t :: 0 <= t < |s.threads| && s.threads[t] == Loop(Select) ==>
                  !s.g.trigger && s.g.stopCloses == 0 && |s.g.ring| < c.batchSize)
  {
    var s := b[k];
    InvariantHolds(c, b, k);
    forall t | 0 <= t < |s.threads|
      ensures IsOver(s.threads[t]) && HeldBy(s.threads[t]) == []
      ensures s.threads[t] == Loop(Select) ==> !s.g.trigger && s.g.stopCloses == 0
    {
      NoWorkerIsStuck(c, s, t);
      NoWaiterIsStuck(c, s, t);
      NoCloserAwaits(c, s, t);
      NoCloserEnters(c, s, t);
      CannotAct(c, s, t, TakeTrigger);
      CannotAct(c, s, t, SeeStop);
    }
    NothingOutstanding(c, s);
    NobodySumsToZero(s.threads, HeldCount);
    NobodySumsToZero(s.threads, UnreportedBy);
    CountersBalance(c, b, k);
    forall t | 0 <= t < |s.threads| && s.threads[t] == Loop(Select)
      ensures |s.g.ring| < c.batchSize
    {
      NoLostWakeup(c, b, k, t);
    }
  }
}
