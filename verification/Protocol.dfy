/**
 The delivery pipeline as a concurrent protocol: capture calls push into the ring and nudge the worker,
 the worker loop and any number of Flush and Close callers drain it, and asynchronous senders deliver
 under a semaphore and a wait group.

 Every thread is a program counter with its local data; a step runs one thread across one access to
 shared state.  A context may expire at any moment, the ticker may fire at any moment, and every encode
 or send may succeed, fail or panic: these are choices of the environment.
 */
module Protocol {
  import opened RingSpec
  import opened Wrappers

  /** Events are numbered in the order of their capture. */
  type Ev = nat

  datatype Config = Config(maxItems: int, maxBytes: int, batchSize: int, maxBatchBytes: int, maxConcurrent: int)

  ghost predicate ValidConfig(c: Config) {
    1 <= c.maxItems && 1 <= c.maxBytes && 1 <= c.batchSize && 1 <= c.maxBatchBytes && 1 <= c.maxConcurrent
  }

  // ---------------------------------------------------------------- threads

  /**
   A drain in progress: about to pop, a batch in hand, a batch with a semaphore token, a batch already
   added to the wait group, or a batch being sent on the drainer's own thread.
   */
  datatype Drain =
    | Popping
    | Holding(batch: seq<Ev>)
    | Tokened(batch: seq<Ev>)
    | Added(batch: seq<Ev>)
    | SendingSync(batch: seq<Ev>)

  /**
   A capture call: counted but not pushed; pushed with evictions to report; before the length check;
   before the nudge.
   */
  datatype CapturePc = InTransit(e: Entry<Ev>) | Pushed(dropped: nat) | Checking | Notifying | Returned

  /** The worker loop; `last` marks the drain after a stop, Unwinding the deferred close of `stopped`. */
  datatype LoopPc = Select | Draining(d: Drain, last: bool) | Reporting | Unwinding(panicked: bool) | Disabling | Exited

  datatype FlushPc = FlushDrain(d: Drain) | FlushReport | FlushWait(idleSeen: bool) | FlushDone(ok: bool)

  datatype ClosePc =
    | Entering
    | Stopping
    | AwaitLoop
    | CloseDrain(d: Drain, ok: bool)
    | CloseWait(ok: bool, idleSeen: bool)
    | Cancelling(ok: bool)
    | CloseDone(ok: bool)

  datatype SenderPc = Sending(batch: seq<Ev>) | Releasing | Finishing | Gone

  datatype Thread =
    | Capture(pc: CapturePc)
    | Loop(lpc: LoopPc)
    | Flush(fpc: FlushPc)
    | Close(cpc: ClosePc)
    | Sender(spc: SenderPc)

  predicate IsDraining(th: Thread) {
    || (th.Loop? && th.lpc.Draining?)
    || (th.Flush? && th.fpc.FlushDrain?)
    || (th.Close? && th.cpc.CloseDrain?)
  }

  function DrainOf(th: Thread): Drain
    requires IsDraining(th)
  {
    match th
    case Loop(l) => l.d
    case Flush(f) => f.d
    case Close(k) => k.d
  }

  function WithDrain(th: Thread, d: Drain): Thread
    requires IsDraining(th)
  {
    match th
    case Loop(l) => Loop(Draining(d, l.last))
    case Flush(_) => Flush(FlushDrain(d))
    case Close(k) => Close(CloseDrain(d, k.ok))
  }

  /** Where a drainer goes once it has found the ring empty. */
  function AfterDrain(th: Thread): Thread
    requires IsDraining(th)
  {
    match th
    case Loop(l) => if l.last then Loop(Unwinding(false)) else Loop(Reporting)
    case Flush(_) => Flush(FlushReport)
    case Close(k) => Close(CloseWait(k.ok, false))
  }

  // ---------------------------------------------------------------- shared state

  datatype Once = Unused | Running | Finished

  /**
   The ring, the self-metrics counters, the semaphore and wait group, the channels and the close guard.
   `evicted`, `delivered` and `exhausted` record where events went, and `stopCloses` and `stoppedCloses`
   count the closings of the two channels (a second one would panic).
   */
  datatype Globals = Globals(
    ring: seq<Entry<Ev>>,
    captured: nat, sent: nat, droppedSend: nat, droppedOverflow: nat, disabled: nat,
    evicted: seq<Ev>, delivered: seq<Ev>, exhausted: seq<Ev>,
    tokens: int, inflight: int,
    trigger: bool, stopCloses: nat, stoppedCloses: nat,
    once: Once, baseCancelled: bool)

  datatype State = State(g: Globals, threads: seq<Thread>)

  function Init(): State {
    State(Globals([], 0, 0, 0, 0, 0, [], [], [], 0, 0, false, 0, 0, Unused, false), [Loop(Select)])
  }

  // ---------------------------------------------------------------- steps of one thread

  datatype Action =
    | Push | CountDrops | Check | Notify
    | Pop | Acquire | StartSync | AddInflight | Spawn | EndSync(ok: bool)
    | Resolve(ok: bool) | ReleaseToken | FinishSend
    | Tick | TakeTrigger | SeeStop | Report | ReportPanics | CloseStopped | CountDisabled
    | SeeIdle | ReturnNil | ReturnErr
    | EnterOnce | EnterFinished | CloseStop | SeeStopped | StopTimeout | Cancel

  /** Waiting for the wait group, in Flush or in Close. */
  predicate IsWaiting(th: Thread) {
    (th.Flush? && th.fpc.FlushWait?) || (th.Close? && th.cpc.CloseWait?)
  }

  predicate IdleSeen(th: Thread)
    requires IsWaiting(th)
  {
    if th.Flush? then th.fpc.idleSeen else th.cpc.idleSeen
  }

  // Capture calls.

  predicate CaptureEnabled(pc: CapturePc, a: Action) {
    match a
    case Push => pc.InTransit?
    case CountDrops => pc.Pushed?
    case Check => pc.Checking?
    case Notify => pc.Notifying?
    case _ => false
  }

  function CaptureEffect(c: Config, g: Globals, pc: CapturePc, a: Action): (Globals, CapturePc)
    requires CaptureEnabled(pc, a)
  {
    match a
    case Push =>
      var all := g.ring + [pc.e];
      var k := FirstFit(all, c.maxItems, c.maxBytes);
      (g.(ring := all[k..], evicted := g.evicted + Items<Ev>(all[..k])), Pushed(k))
    case CountDrops => (g.(droppedOverflow := g.droppedOverflow + pc.dropped), Checking)
    case Check => (g, if |g.ring| >= c.batchSize then Notifying else Returned)
    case Notify => (g.(trigger := true), Returned)
  }

  // Draining, by the loop, by Flush and by Close.

  predicate DrainEnabled(c: Config, g: Globals, d: Drain, a: Action) {
    match a
    case Pop => d.Popping?
    case Acquire => d.Holding? && g.tokens < c.maxConcurrent
    case StartSync => d.Holding? && g.tokens >= c.maxConcurrent
    case AddInflight => d.Tokened?
    case Spawn => d.Added?
    case EndSync(_) => d.SendingSync?
    case _ => false
  }

  /** A batch leaves the pipeline as sent or as exhausted, and is counted. */
  function Settle(g: Globals, batch: seq<Ev>, ok: bool): Globals {
    if ok then g.(delivered := g.delivered + batch, sent := g.sent + |batch|)
    else g.(exhausted := g.exhausted + batch, droppedSend := g.droppedSend + |batch|)
  }

  /** No next position means that the ring was found empty. */
  function DrainEffect(c: Config, g: Globals, d: Drain, a: Action): (Globals, Option<Drain>, seq<Thread>)
    requires DrainEnabled(c, g, d, a)
  {
    match a
    case Pop =>
      var n := BatchLen(g.ring, c.batchSize, c.maxBatchBytes);
      if n == 0 then (g, None, []) else (g.(ring := g.ring[n..]), Some(Holding(Items<Ev>(g.ring[..n]))), [])
    case Acquire => (g.(tokens := g.tokens + 1), Some(Tokened(d.batch)), [])
    case StartSync => (g, Some(SendingSync(d.batch)), [])
    case AddInflight => (g.(inflight := g.inflight + 1), Some(Added(d.batch)), [])
    case Spawn => (g, Some(Popping), [Sender(Sending(d.batch))])
    case EndSync(ok) => (Settle(g, d.batch, ok), Some(Popping), [])
  }

  // Asynchronous senders.

  predicate SenderEnabled(g: Globals, pc: SenderPc, a: Action) {
    match a
    case Resolve(_) => pc.Sending?
    case ReleaseToken => pc.Releasing? && g.tokens > 0
    case FinishSend => pc.Finishing? && g.inflight > 0
    case _ => false
  }

  function SenderEffect(g: Globals, pc: SenderPc, a: Action): (Globals, SenderPc)
    requires SenderEnabled(g, pc, a)
  {
    match a
    case Resolve(ok) => (Settle(g, pc.batch, ok), Releasing)
    case ReleaseToken => (g.(tokens := g.tokens - 1), Finishing)
    case FinishSend => (g.(inflight := g.inflight - 1), Gone)
  }

  // The loop between drains.

  predicate LoopEnabled(g: Globals, pc: LoopPc, a: Action) {
    match a
    case Tick => pc.Select?
    case TakeTrigger => pc.Select? && g.trigger
    case SeeStop => pc.Select? && g.stopCloses > 0
    case Report => pc.Reporting?
    case ReportPanics => pc.Reporting?
    case CloseStopped => pc.Unwinding?
    case CountDisabled => pc.Disabling?
    case _ => false
  }

  function LoopEffect(g: Globals, pc: LoopPc, a: Action): (Globals, LoopPc)
    requires LoopEnabled(g, pc, a)
  {
    match a
    case Tick => (g, Draining(Popping, false))
    case TakeTrigger => (g.(trigger := false), Draining(Popping, false))
    case SeeStop => (g, Draining(Popping, true))
    case Report => (g, Select)
    case ReportPanics => (g, Unwinding(true))
    case CloseStopped => (g.(stoppedCloses := g.stoppedCloses + 1), if pc.panicked then Disabling else Exited)
    case CountDisabled => (g.(disabled := g.disabled + 1), Exited)
  }

  // Flush after its drain: the report is guarded, so a panicking observer makes no difference.

  predicate FlushEnabled(g: Globals, pc: FlushPc, a: Action) {
    match a
    case Report => pc.FlushReport?
    case ReportPanics => pc.FlushReport?
    case SeeIdle => pc == FlushWait(false) && g.inflight == 0
    case ReturnNil => pc == FlushWait(true)
    case ReturnErr => pc.FlushWait?
    case _ => false
  }

  function FlushEffect(g: Globals, pc: FlushPc, a: Action): FlushPc
    requires FlushEnabled(g, pc, a)
  {
    match a
    case Report => FlushWait(false)
    case ReportPanics => FlushWait(false)
    case SeeIdle => FlushWait(true)
    case ReturnNil => FlushDone(true)
    case ReturnErr => FlushDone(false)
  }

  // Close around its drain.

  predicate CloseEnabled(g: Globals, pc: ClosePc, a: Action) {
    match a
    case EnterOnce => pc.Entering? && g.once.Unused?
    case EnterFinished => pc.Entering? && g.once.Finished?
    case CloseStop => pc.Stopping?
    case SeeStopped => pc.AwaitLoop? && g.stoppedCloses > 0
    case StopTimeout => pc.AwaitLoop?
    case SeeIdle => pc.CloseWait? && !pc.idleSeen && g.inflight == 0
    case ReturnNil => pc.CloseWait? && pc.idleSeen
    case ReturnErr => pc.CloseWait?
    case Cancel => pc.Cancelling?
    case _ => false
  }

  function CloseEffect(g: Globals, pc: ClosePc, a: Action): (Globals, ClosePc)
    requires CloseEnabled(g, pc, a)
  {
    match a
    case EnterOnce => (g.(once := Running), Stopping)
    case EnterFinished => (g, CloseDone(true))
    case CloseStop => (g.(stopCloses := g.stopCloses + 1), AwaitLoop)
    case SeeStopped => (g, CloseDrain(Popping, true))
    case StopTimeout => (g, CloseDrain(Popping, false))
    case SeeIdle => (g, CloseWait(pc.ok, true))
    case ReturnNil => (g, Cancelling(pc.ok))
    case ReturnErr => (g, Cancelling(false))
    case Cancel => (g.(baseCancelled := true, once := Finished), CloseDone(pc.ok))
  }

  predicate Enabled(c: Config, g: Globals, th: Thread, a: Action) {
    if IsDraining(th) then DrainEnabled(c, g, DrainOf(th), a)
    else
      match th
      case Capture(pc) => CaptureEnabled(pc, a)
      case Loop(pc) => LoopEnabled(g, pc, a)
      case Flush(pc) => FlushEnabled(g, pc, a)
      case Close(pc) => CloseEnabled(g, pc, a)
      case Sender(pc) => SenderEnabled(g, pc, a)
  }

  /** The effect of an enabled action: new shared state, the thread afterwards, and threads it starts. */
  function Effect(c: Config, g: Globals, th: Thread, a: Action): (Globals, Thread, seq<Thread>)
    requires Enabled(c, g, th, a)
  {
    if IsDraining(th) then
      var (g', d, started) := DrainEffect(c, g, DrainOf(th), a);
      (g', if d.Some? then WithDrain(th, d.value) else AfterDrain(th), started)
    else
      match th
      case Capture(pc) =>
        var (g', pc') := CaptureEffect(c, g, pc, a);
        (g', Capture(pc'), [])
      case Loop(pc) =>
        var (g', pc') := LoopEffect(g, pc, a);
        (g', Loop(pc'), [])
      case Flush(pc) => (g, Flush(FlushEffect(g, pc, a)), [])
      case Close(pc) =>
        var (g', pc') := CloseEffect(g, pc, a);
        (g', Close(pc'), [])
      case Sender(pc) =>
        var (g', pc') := SenderEffect(g, pc, a);
        (g', Sender(pc'), [])
  }

  // ---------------------------------------------------------------- steps of the system

  /** One thread acts, or the application starts a capture of an event of some size, a Flush or a Close. */
  datatype Step = Act(t: nat, a: Action) | NewCapture(size: Size) | NewFlush | NewClose

  predicate StepEnabled(c: Config, s: State, step: Step) {
    step.Act? ==> step.t < |s.threads| && Enabled(c, s.g, s.threads[step.t], step.a)
  }

  function Take(c: Config, s: State, step: Step): State
    requires StepEnabled(c, s, step)
  {
    match step
    case Act(t, a) =>
      var (g', th, started) := Effect(c, s.g, s.threads[t], a);
      State(g', s.threads[t := th] + started)
    case NewCapture(size) =>
      State(s.g.(captured := s.g.captured + 1), s.threads + [Capture(InTransit(Entry(s.g.captured, size)))])
    case NewFlush => s.(threads := s.threads + [Flush(FlushDrain(Popping))])
    case NewClose => s.(threads := s.threads + [Close(Entering)])
  }

  ghost predicate Next(c: Config, s: State, s': State) {
    exists step :: StepEnabled(c, s, step) && s' == Take(c, s, step)
  }

  /** A finite run of the system from its initial state. */
  ghost predicate Behavior(c: Config, b: seq<State>) {
    && b != []
    && b[0] == Init()
    && forall i :: 0 <= i < |b| - 1 ==> Next(c, b[i], b[i + 1])
  }

  // ---------------------------------------------------------------- what threads hold

  /** The events a thread alone knows about. */
  function HeldBy(th: Thread): seq<Ev> {
    match th
    case Capture(pc) => if pc.InTransit? then [pc.e.item] else []
    case Sender(spc) => if spc.Sending? then spc.batch else []
    case _ => if IsDraining(th) && !DrainOf(th).Popping? then DrainOf(th).batch else []
  }

  /** Semaphore tokens, wait-group counts and unreported evictions a thread is responsible for. */
  function TokensOf(th: Thread): nat {
    if IsDraining(th) && (DrainOf(th).Tokened? || DrainOf(th).Added?) then 1
    else if th.Sender? && (th.spc.Sending? || th.spc.Releasing?) then 1
    else 0
  }

  function InflightOf(th: Thread): nat {
    if IsDraining(th) && DrainOf(th).Added? then 1
    else if th.Sender? && !th.spc.Gone? then 1
    else 0
  }

  function UnreportedBy(th: Thread): nat {
    if th.Capture? && th.pc.Pushed? then th.pc.dropped else 0
  }

  /** Between its push and its decision to nudge the worker. */
  function Undecided(th: Thread): nat {
    if th.Capture? && (th.pc.Pushed? || th.pc.Checking? || th.pc.Notifying?) then 1 else 0
  }

  /** The loop between finding the ring empty and taking its next cue. */
  function IdleLoop(th: Thread): nat {
    if th.Loop? && (th.lpc.Select? || th.lpc.Reporting?) then 1 else 0
  }

  /** The loop before it closes `stopped`. */
  function LiveLoop(th: Thread): nat {
    if th.Loop? && !th.lpc.Disabling? && !th.lpc.Exited? then 1 else 0
  }

  function UnfinishedLoop(th: Thread): nat {
    if th.Loop? && !th.lpc.Exited? then 1 else 0
  }

  /** Inside the guarded body of the first Close, and there before the closing of `stop`. */
  function InOnce(th: Thread): nat {
    if th.Close? && !th.cpc.Entering? && !th.cpc.CloseDone? then 1 else 0
  }

  function BeforeStop(th: Thread): nat {
    if th == Close(Stopping) then 1 else 0
  }

  /** A Close that has seen the loop stopped and reports no error so far. */
  function SawStopped(th: Thread): nat {
    if th.Close? && (th.cpc.CloseDrain? || th.cpc.CloseWait? || th.cpc.Cancelling?) && th.cpc.ok
    then 1 else 0
  }

  function Sum(ths: seq<Thread>, w: Thread -> nat): nat {
    if ths == [] then 0 else Sum(ths[..|ths| - 1], w) + w(ths[|ths| - 1])
  }

  function Held(ths: seq<Thread>): multiset<Ev> {
    if ths == [] then multiset{} else Held(ths[..|ths| - 1]) + multiset(HeldBy(ths[|ths| - 1]))
  }
}
