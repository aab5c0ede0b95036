/**
 What every interleaving of the pipeline keeps.
 */
module ProtocolInvariant {
  import opened RingSpec
  import opened Protocol

  // ---------------------------------------------------------------- sums over threads

  lemma {:induction false} SumConcat(a: seq<Thread>, b: seq<Thread>, w: Thread -> nat)
    ensures Sum(a + b, w) == Sum(a, w) + Sum(b, w)
  {
    if b == [] {
      assert a + b == a;
    } else {
      SumConcat(a, b[..|b| - 1], w);
      assert (a + b)[..|a + b| - 1] == a + b[..|b| - 1];
    }
  }

  lemma SumSingle(th: Thread, w: Thread -> nat)
    ensures Sum([th], w) == w(th)
  {
    assert [th][..0] == [];
  }

  lemma SumUpdate(ths: seq<Thread>, t: nat, th: Thread, w: Thread -> nat)
    requires t < |ths|
    ensures Sum(ths[t := th], w) == Sum(ths, w) - w(ths[t]) + w(th)
    ensures w(ths[t]) <= Sum(ths, w)
  {
    var a, b := ths[..t], ths[t + 1..];
    assert ths == a + [ths[t]] + b && ths[t := th] == a + [th] + b;
    SumConcat(a + [ths[t]], b, w);
    SumConcat(a + [th], b, w);
    SumConcat(a, [ths[t]], w);
    SumConcat(a, [th], w);
    SumSingle(ths[t], w);
    SumSingle(th, w);
  }

  /** The effect of a step on any sum. */
  lemma SumStep(ths: seq<Thread>, t: nat, th: Thread, started: seq<Thread>, w: Thread -> nat)
    requires t < |ths|
    ensures Sum(ths[t := th] + started, w) == Sum(ths, w) - w(ths[t]) + w(th) + Sum(started, w)
  {
    SumUpdate(ths, t, th, w);
    SumConcat(ths[t := th], started, w);
  }

  lemma {:induction false} SumWitness(ths: seq<Thread>, w: Thread -> nat) returns (t: nat)
    requires Sum(ths, w) > 0
    ensures t < |ths| && w(ths[t]) > 0
  {
    var n := |ths| - 1;
    if w(ths[n]) > 0 {
      t := n;
    } else {
      t := SumWitness(ths[..n], w);
    }
  }

  lemma {:induction false} HeldConcat(a: seq<Thread>, b: seq<Thread>)
    ensures Held(a + b) == Held(a) + Held(b)
  {
    if b == [] {
      assert a + b == a;
    } else {
      var c := b[..|b| - 1];
      HeldConcat(a, c);
      assert (a + b)[..|a + b| - 1] == a + c;
      assert Held(a + b) == Held(a + c) + multiset(HeldBy(b[|b| - 1]));
    }
  }

  lemma HeldSingle(th: Thread)
    ensures Held([th]) == multiset(HeldBy(th))
  {
    assert [th][..0] == [];
  }

  lemma HeldStep(ths: seq<Thread>, t: nat, th: Thread, started: seq<Thread>)
    requires t < |ths|
    ensures Held(ths[t := th] + started) + multiset(HeldBy(ths[t])) == Held(ths) + multiset(HeldBy(th)) + Held(started)
  {
    var a, b := ths[..t], ths[t + 1..];
    assert ths == a + [ths[t]] + b && ths[t := th] == a + [th] + b;
    HeldConcat(a + [ths[t]], b);
    HeldConcat(a + [th], b);
    HeldConcat(a, [ths[t]]);
    HeldConcat(a, [th]);
    HeldSingle(ths[t]);
    HeldSingle(th);
    HeldConcat(ths[t := th], started);
  }

  // ---------------------------------------------------------------- the invariant

  /** The events 0 to n-1, once each. */
  function FirstEvents(n: nat): multiset<Ev> {
    if n == 0 then multiset{} else FirstEvents(n - 1) + multiset{n - 1}
  }

  lemma {:induction false} FirstEventsOnce(n: nat, e: Ev)
    ensures FirstEvents(n)[e] == if e < n then 1 else 0
  {
    if n > 0 {
      FirstEventsOnce(n - 1, e);
    }
  }

  /** The events in the ring and the events that have left the pipeline. */
  function Public(g: Globals): multiset<Ev> {
    multiset(Items<Ev>(g.ring)) + multiset(g.evicted) + multiset(g.delivered) + multiset(g.exhausted)
  }

  /** Each captured event is in the ring, settled, or held by a thread, and in one of these places once. */
  ghost predicate Conserved(s: State) {
    Public(s.g) + Held(s.threads) == FirstEvents(s.g.captured)
  }

  ghost predicate Counted(s: State) {
    && s.g.sent == |s.g.delivered|
    && s.g.droppedSend == |s.g.exhausted|
    && s.g.droppedOverflow + Sum(s.threads, UnreportedBy) == |s.g.evicted|
  }

  ghost predicate Bounded(c: Config, s: State) {
    |s.g.ring| <= c.maxItems && (Total(s.g.ring) <= c.maxBytes || |s.g.ring| == 1)
  }

  ghost predicate Balanced(c: Config, s: State) {
    && s.g.tokens == Sum(s.threads, TokensOf) <= c.maxConcurrent
    && s.g.inflight == Sum(s.threads, InflightOf)
  }

  ghost predicate Guarded(s: State) {
    && s.g.stopCloses + Sum(s.threads, BeforeStop) == (if s.g.once.Unused? then 0 else 1)
    && Sum(s.threads, InOnce) == (if s.g.once.Running? then 1 else 0)
    && s.g.stoppedCloses + Sum(s.threads, LiveLoop) == 1
    && s.g.disabled + Sum(s.threads, UnfinishedLoop) <= 1
    && (Sum(s.threads, SawStopped) > 0 ==> s.g.stoppedCloses > 0)
  }

  /** If the loop is idle without a cue and nobody is about to give one, a full batch is not waiting. */
  ghost predicate Awake(c: Config, s: State) {
    || s.g.trigger
    || |s.g.ring| < c.batchSize
    || Sum(s.threads, Undecided) > 0
    || Sum(s.threads, IdleLoop) == 0
  }

  ghost predicate Inv(c: Config, s: State) {
    Conserved(s) && Counted(s) && Bounded(c, s) && Balanced(c, s) && Guarded(s) && Awake(c, s)
  }

  // ---------------------------------------------------------------- local balance of each action

  lemma ItemsSplit(s: seq<Entry<Ev>>, k: nat)
    requires k <= |s|
    ensures multiset(Items<Ev>(s)) == multiset(Items<Ev>(s[..k])) + multiset(Items<Ev>(s[k..]))
  {
    assert Items<Ev>(s) == Items<Ev>(s[..k]) + Items<Ev>(s[k..]);
  }

  /** The actions that move events between places. */
  predicate Moves(a: Action) {
    a.Push? || a.Pop? || a.Spawn? || a.EndSync? || a.Resolve?
  }

  ghost predicate StaysPut(c: Config, g: Globals, th: Thread, a: Action)
    requires Enabled(c, g, th, a)
  {
    var (g', th', started) := Effect(c, g, th, a);
    && HeldBy(th') == HeldBy(th) && started == []
    && g'.captured == g.captured && g'.ring == g.ring && g'.evicted == g.evicted
    && g'.delivered == g.delivered && g'.exhausted == g.exhausted
  }

  lemma DrainMovesNothing(c: Config, g: Globals, th: Thread, a: Action)
    requires Enabled(c, g, th, a) && !Moves(a) && IsDraining(th)
    ensures StaysPut(c, g, th, a)
  {
  }

  lemma WaitMovesNothing(c: Config, g: Globals, th: Thread, a: Action)
    requires Enabled(c, g, th, a) && !Moves(a) && !IsDraining(th) && (th.Close? || th.Flush? || th.Loop?)
    ensures StaysPut(c, g, th, a)
  {
  }

  lemma OthersMoveNothing(c: Config, g: Globals, th: Thread, a: Action)
    requires Enabled(c, g, th, a) && !Moves(a)
    ensures StaysPut(c, g, th, a)
  {
    if IsDraining(th) {
      DrainMovesNothing(c, g, th, a);
    } else if th.Close? || th.Flush? || th.Loop? {
      WaitMovesNothing(c, g, th, a);
    }
  }

  lemma SettleConserves(g: Globals, batch: seq<Ev>, ok: bool)
    ensures Public(Settle(g, batch, ok)) == Public(g) + multiset(batch)
  {
  }

  lemma PushConserves(c: Config, g: Globals, th: Thread)
    requires Enabled(c, g, th, Push)
    ensures var (g', th', started) := Effect(c, g, th, Push);
            Public(g) + multiset(HeldBy(th)) == Public(g') + multiset(HeldBy(th')) + Held(started)
  {
    var (g', th', started) := Effect(c, g, th, Push);
    var all := g.ring + [th.pc.e];
    var k := FirstFit(all, c.maxItems, c.maxBytes);
    assert HeldBy(th) == [th.pc.e.item] && HeldBy(th') == [] && started == [];
    assert g' == g.(ring := all[k..], evicted := g.evicted + Items<Ev>(all[..k]));
    RingTurnsOver(g, g', th.pc.e, k);
  }

  lemma RingTurnsOver(g: Globals, g': Globals, e: Entry<Ev>, k: nat)
    requires k <= |g.ring| + 1
    requires g' == g.(ring := (g.ring + [e])[k..], evicted := g.evicted + Items<Ev>((g.ring + [e])[..k]))
    ensures Public(g) + multiset([e.item]) == Public(g')
  {
    var all := g.ring + [e];
    ItemsSplit(all, k);
    assert Items<Ev>(all) == Items<Ev>(g.ring) + [e.item];
    assert multiset(Items<Ev>(all)) == multiset(Items<Ev>(g.ring)) + multiset([e.item]);
    assert multiset(g'.evicted) == multiset(g.evicted) + multiset(Items<Ev>(all[..k]));
    Regroup(multiset(Items<Ev>(g.ring)), multiset([e.item]),
            multiset(Items<Ev>(all[..k])), multiset(Items<Ev>(all[k..])),
            multiset(g.evicted), multiset(g.delivered), multiset(g.exhausted));
  }

  lemma Regroup(r: multiset<Ev>, x: multiset<Ev>, a: multiset<Ev>, b: multiset<Ev>,
                v: multiset<Ev>, d: multiset<Ev>, h: multiset<Ev>)
    requires r + x == a + b
    ensures r + v + d + h + x == b + (v + a) + d + h
  {
    assert r + v + d + h + x == (r + x) + v + d + h;
  }

  lemma PopConserves(c: Config, g: Globals, th: Thread)
    requires Enabled(c, g, th, Pop)
    ensures var (g', th', started) := Effect(c, g, th, Pop);
            Public(g) + multiset(HeldBy(th)) == Public(g') + multiset(HeldBy(th')) + Held(started)
  {
    var (g', th', started) := Effect(c, g, th, Pop);
    var n := BatchLen(g.ring, c.batchSize, c.maxBatchBytes);
    assert HeldBy(th) == [] && started == [];
    if n == 0 {
      assert g' == g && HeldBy(th') == [];
    } else {
      assert HeldBy(th') == Items<Ev>(g.ring[..n]);
      RingShrinks(g, g', n);
    }
  }

  lemma RingShrinks(g: Globals, g': Globals, n: nat)
    requires n <= |g.ring| && g' == g.(ring := g.ring[n..])
    ensures Public(g) == Public(g') + multiset(Items<Ev>(g.ring[..n]))
  {
    ItemsSplit(g.ring, n);
  }

  lemma SpawnConserves(c: Config, g: Globals, th: Thread)
    requires Enabled(c, g, th, Spawn)
    ensures var (g', th', started) := Effect(c, g, th, Spawn);
            g' == g && HeldBy(th') == [] && Held(started) == multiset(HeldBy(th))
  {
    HeldSingle(Sender(Sending(DrainOf(th).batch)));
  }

  lemma SettlingLeavesNothing(c: Config, g: Globals, th: Thread, a: Action)
    requires Enabled(c, g, th, a) && (a.EndSync? || a.Resolve?)
    ensures var (g', th', started) := Effect(c, g, th, a);
            g' == Settle(g, HeldBy(th), a.ok) && HeldBy(th') == [] && started == []
  {
  }

  /** What an action takes from one place it puts in another. */
  lemma EffectConserves(c: Config, g: Globals, th: Thread, a: Action)
    requires Enabled(c, g, th, a)
    ensures var (g', th', started) := Effect(c, g, th, a);
            Public(g) + multiset(HeldBy(th)) == Public(g') + multiset(HeldBy(th')) + Held(started)
  {
    hide Effect, Enabled;
    if a.Push? {
      PushConserves(c, g, th);
    } else if a.Pop? {
      PopConserves(c, g, th);
    } else if a.Spawn? {
      SpawnConserves(c, g, th);
    } else if a.EndSync? || a.Resolve? {
      SettlingLeavesNothing(c, g, th, a);
      SettleConserves(g, HeldBy(th), a.ok);
    } else {
      OthersMoveNothing(c, g, th, a);
    }
  }

  /** Counters follow the record, and tokens and wait-group counts follow the threads that owe them. */
  ghost predicate Booked(c: Config, g: Globals, th: Thread, a: Action)
    requires Enabled(c, g, th, a)
  {
    var (g', th', started) := Effect(c, g, th, a);
    && g'.captured == g.captured
    && g'.sent - g.sent == |g'.delivered| - |g.delivered|
    && g'.droppedSend - g.droppedSend == |g'.exhausted| - |g.exhausted|
    && g'.droppedOverflow + UnreportedBy(th') + Sum(started, UnreportedBy) - g.droppedOverflow - UnreportedBy(th)
       == |g'.evicted| - |g.evicted|
    && g'.tokens - g.tokens == TokensOf(th') + Sum(started, TokensOf) - TokensOf(th)
    && g'.inflight - g.inflight == InflightOf(th') + Sum(started, InflightOf) - InflightOf(th)
    && (g'.tokens <= g.tokens || g'.tokens <= c.maxConcurrent)
  }

  function Indicator(p: bool): int {
    if p then 1 else 0
  }

  /** What an action does to the close guard and to the two channels. */
  ghost predicate Orderly(c: Config, g: Globals, th: Thread, a: Action)
    requires Enabled(c, g, th, a)
  {
    var (g', th', _) := Effect(c, g, th, a);
    && ((InOnce(th) > 0 ==> g.once.Running?) ==>
          InOnce(th') - InOnce(th) == Indicator(g'.once.Running?) - Indicator(g.once.Running?)
          && g'.stopCloses + BeforeStop(th') - g.stopCloses - BeforeStop(th)
             == Indicator(g.once.Unused?) - Indicator(g'.once.Unused?))
    && g'.stoppedCloses + LiveLoop(th') == g.stoppedCloses + LiveLoop(th)
    && g'.disabled + UnfinishedLoop(th') <= g.disabled + UnfinishedLoop(th)
    && g'.stoppedCloses >= g.stoppedCloses
    && (SawStopped(th') > 0 ==> SawStopped(th) > 0 || g.stoppedCloses > 0)
  }

  /** What an action does to the ring's length and to the worker's cues. */
  ghost predicate Attentive(c: Config, g: Globals, th: Thread, a: Action)
    requires Enabled(c, g, th, a)
  {
    var (g', th', _) := Effect(c, g, th, a);
    // the ring grows only under the eyes of a capture call
    && (|g'.ring| > |g.ring| ==> Undecided(th') > 0)
    // a capture call that returns has seen a short ring or nudged the worker
    && (Undecided(th') < Undecided(th) ==> g'.trigger || |g'.ring| < c.batchSize)
    // a cue is consumed only by the loop leaving its rest
    && (g.trigger && !g'.trigger ==> IdleLoop(th) > 0 && IdleLoop(th') == 0)
    // the loop comes to rest only after finding the ring empty
    && (IdleLoop(th') > IdleLoop(th) ==> |g'.ring| == 0)
  }

  lemma CaptureIsBooked(c: Config, g: Globals, th: Thread, a: Action)
    requires ValidConfig(c) && Enabled(c, g, th, a) && th.Capture?
    ensures Booked(c, g, th, a)
  {
  }

  lemma PopIsBooked(c: Config, g: Globals, th: Thread)
    requires ValidConfig(c) && Enabled(c, g, th, Pop)
    ensures Booked(c, g, th, Pop)
  {
    hide Items;
  }

  lemma PopIsOrderly(c: Config, g: Globals, th: Thread)
    requires ValidConfig(c) && Enabled(c, g, th, Pop)
    ensures Orderly(c, g, th, Pop)
  {
    hide Items;
  }

  lemma PopIsAttentive(c: Config, g: Globals, th: Thread)
    requires ValidConfig(c) && Enabled(c, g, th, Pop)
    ensures Attentive(c, g, th, Pop)
  {
    hide Items;
  }

  lemma AcquireIsLawful(c: Config, g: Globals, th: Thread)
    requires ValidConfig(c) && Enabled(c, g, th, Acquire)
    ensures Booked(c, g, th, Acquire) && Orderly(c, g, th, Acquire) && Attentive(c, g, th, Acquire)
  {
  }

  lemma StartSyncIsLawful(c: Config, g: Globals, th: Thread)
    requires ValidConfig(c) && Enabled(c, g, th, StartSync)
    ensures Booked(c, g, th, StartSync) && Orderly(c, g, th, StartSync) && Attentive(c, g, th, StartSync)
  {
  }

  lemma AddInflightIsLawful(c: Config, g: Globals, th: Thread)
    requires ValidConfig(c) && Enabled(c, g, th, AddInflight)
    ensures Booked(c, g, th, AddInflight) && Orderly(c, g, th, AddInflight) && Attentive(c, g, th, AddInflight)
  {
  }

  lemma EndSyncIsLawful(c: Config, g: Globals, th: Thread, ok: bool)
    requires ValidConfig(c) && Enabled(c, g, th, EndSync(ok))
    ensures Booked(c, g, th, EndSync(ok)) && Orderly(c, g, th, EndSync(ok)) && Attentive(c, g, th, EndSync(ok))
  {
  }

  lemma SpawnIsOrderly(c: Config, g: Globals, th: Thread)
    requires ValidConfig(c) && Enabled(c, g, th, Spawn)
    ensures Orderly(c, g, th, Spawn) && Attentive(c, g, th, Spawn)
  {
  }

  lemma SpawnIsBooked(c: Config, g: Globals, th: Thread)
    requires ValidConfig(c) && Enabled(c, g, th, Spawn)
    ensures Booked(c, g, th, Spawn)
  {
    var th' := Sender(Sending(DrainOf(th).batch));
    SumSingle(th', UnreportedBy);
    SumSingle(th', TokensOf);
    SumSingle(th', InflightOf);
  }

  lemma SenderIsBooked(c: Config, g: Globals, th: Thread, a: Action)
    requires ValidConfig(c) && Enabled(c, g, th, a) && th.Sender?
    ensures Booked(c, g, th, a)
  {
  }

  lemma LoopIsBooked(c: Config, g: Globals, th: Thread, a: Action)
    requires ValidConfig(c) && Enabled(c, g, th, a) && th.Loop? && !IsDraining(th)
    ensures Booked(c, g, th, a)
  {
  }

  lemma FlushIsBooked(c: Config, g: Globals, th: Thread, a: Action)
    requires ValidConfig(c) && Enabled(c, g, th, a) && th.Flush? && !IsDraining(th)
    ensures Booked(c, g, th, a)
  {
  }

  lemma CloseIsBooked(c: Config, g: Globals, th: Thread, a: Action)
    requires ValidConfig(c) && Enabled(c, g, th, a) && th.Close? && !IsDraining(th)
    ensures Booked(c, g, th, a)
  {
  }

  lemma CaptureIsOrderly(c: Config, g: Globals, th: Thread, a: Action)
    requires ValidConfig(c) && Enabled(c, g, th, a) && th.Capture?
    ensures Orderly(c, g, th, a)
  {
  }

  lemma CaptureIsAttentive(c: Config, g: Globals, th: Thread, a: Action)
    requires ValidConfig(c) && Enabled(c, g, th, a) && th.Capture?
    ensures Attentive(c, g, th, a)
  {
  }

  lemma SenderIsOrderly(c: Config, g: Globals, th: Thread, a: Action)
    requires ValidConfig(c) && Enabled(c, g, th, a) && th.Sender?
    ensures Orderly(c, g, th, a)
  {
  }

  lemma SenderIsAttentive(c: Config, g: Globals, th: Thread, a: Action)
    requires ValidConfig(c) && Enabled(c, g, th, a) && th.Sender?
    ensures Attentive(c, g, th, a)
  {
  }

  lemma LoopIsOrderly(c: Config, g: Globals, th: Thread, a: Action)
    requires ValidConfig(c) && Enabled(c, g, th, a) && th.Loop? && !IsDraining(th)
    ensures Orderly(c, g, th, a)
  {
  }

  lemma LoopIsAttentive(c: Config, g: Globals, th: Thread, a: Action)
    requires ValidConfig(c) && Enabled(c, g, th, a) && th.Loop? && !IsDraining(th)
    ensures Attentive(c, g, th, a)
  {
  }

  lemma FlushIsOrderly(c: Config, g: Globals, th: Thread, a: Action)
    requires ValidConfig(c) && Enabled(c, g, th, a) && th.Flush? && !IsDraining(th)
    ensures Orderly(c, g, th, a)
  {
  }

  lemma FlushIsAttentive(c: Config, g: Globals, th: Thread, a: Action)
    requires ValidConfig(c) && Enabled(c, g, th, a) && th.Flush? && !IsDraining(th)
    ensures Attentive(c, g, th, a)
  {
  }

  lemma CloseIsOrderly(c: Config, g: Globals, th: Thread, a: Action)
    requires ValidConfig(c) && Enabled(c, g, th, a) && th.Close? && !IsDraining(th)
    ensures Orderly(c, g, th, a)
  {
  }

  lemma CloseIsAttentive(c: Config, g: Globals, th: Thread, a: Action)
    requires ValidConfig(c) && Enabled(c, g, th, a) && th.Close? && !IsDraining(th)
    ensures Attentive(c, g, th, a)
  {
  }

  lemma DrainIsLawful(c: Config, g: Globals, th: Thread, a: Action)
    requires ValidConfig(c) && Enabled(c, g, th, a) && IsDraining(th)
    ensures Booked(c, g, th, a) && Orderly(c, g, th, a) && Attentive(c, g, th, a)
  {
    hide Effect, Booked, Orderly, Attentive;
    match a
    case Pop =>
      PopIsBooked(c, g, th);
      PopIsOrderly(c, g, th);
      PopIsAttentive(c, g, th);
    case Acquire => AcquireIsLawful(c, g, th);
    case StartSync => StartSyncIsLawful(c, g, th);
    case AddInflight => AddInflightIsLawful(c, g, th);
    case Spawn =>
      SpawnIsBooked(c, g, th);
      SpawnIsOrderly(c, g, th);
    case EndSync(ok) => EndSyncIsLawful(c, g, th, ok);
    case _ =>
  }

  lemma EffectIsLawful(c: Config, g: Globals, th: Thread, a: Action)
    requires ValidConfig(c) && Enabled(c, g, th, a)
    ensures Booked(c, g, th, a) && Orderly(c, g, th, a) && Attentive(c, g, th, a)
  {
    hide Enabled, Effect, Booked, Orderly, Attentive;
    if IsDraining(th) {
      DrainIsLawful(c, g, th, a);
    } else {
      match th
      case Capture(_) =>
        CaptureIsBooked(c, g, th, a);
        CaptureIsOrderly(c, g, th, a);
        CaptureIsAttentive(c, g, th, a);
      case Sender(_) =>
        SenderIsBooked(c, g, th, a);
        SenderIsOrderly(c, g, th, a);
        SenderIsAttentive(c, g, th, a);
      case Loop(_) =>
        LoopIsBooked(c, g, th, a);
        LoopIsOrderly(c, g, th, a);
        LoopIsAttentive(c, g, th, a);
      case Flush(_) =>
        FlushIsBooked(c, g, th, a);
        FlushIsOrderly(c, g, th, a);
        FlushIsAttentive(c, g, th, a);
      case Close(_) =>
        CloseIsBooked(c, g, th, a);
        CloseIsOrderly(c, g, th, a);
        CloseIsAttentive(c, g, th, a);
    }
  }

  lemma PushBounds(c: Config, g: Globals, th: Thread)
    requires ValidConfig(c) && Enabled(c, g, th, Push)
    ensures var g' := Effect(c, g, th, Push).0;
            |g'.ring| <= c.maxItems && (Total(g'.ring) <= c.maxBytes || |g'.ring| == 1)
  {
  }

  lemma PopBounds(c: Config, g: Globals, th: Thread)
    requires ValidConfig(c) && Enabled(c, g, th, Pop)
    requires |g.ring| <= c.maxItems && (Total(g.ring) <= c.maxBytes || |g.ring| == 1)
    ensures var g' := Effect(c, g, th, Pop).0;
            |g'.ring| <= c.maxItems && (Total(g'.ring) <= c.maxBytes || |g'.ring| == 1)
  {
    TotalSplit(g.ring, BatchLen(g.ring, c.batchSize, c.maxBatchBytes));
  }

  lemma OthersKeepRing(c: Config, g: Globals, th: Thread, a: Action)
    requires Enabled(c, g, th, a) && !a.Push? && !a.Pop?
    ensures Effect(c, g, th, a).0.ring == g.ring
  {
    if Moves(a) {
    } else {
      hide Effect;
      OthersMoveNothing(c, g, th, a);
    }
  }

  lemma EffectBounds(c: Config, g: Globals, th: Thread, a: Action)
    requires ValidConfig(c) && Enabled(c, g, th, a)
    requires |g.ring| <= c.maxItems && (Total(g.ring) <= c.maxBytes || |g.ring| == 1)
    ensures var g' := Effect(c, g, th, a).0;
            |g'.ring| <= c.maxItems && (Total(g'.ring) <= c.maxBytes || |g'.ring| == 1)
  {
    hide Effect;
    match a
    case Push => PushBounds(c, g, th);
    case Pop => PopBounds(c, g, th);
    case _ => OthersKeepRing(c, g, th, a);
  }

  /** Threads that an action starts are senders and take no part in the guards. */
  lemma StartedAreSenders(c: Config, g: Globals, th: Thread, a: Action)
    requires Enabled(c, g, th, a)
    ensures var started := Effect(c, g, th, a).2;
            && Sum(started, BeforeStop) == 0 && Sum(started, InOnce) == 0 && Sum(started, LiveLoop) == 0
            && Sum(started, UnfinishedLoop) == 0 && Sum(started, SawStopped) == 0
            && Sum(started, Undecided) == 0 && Sum(started, IdleLoop) == 0
  {
    if a.Spawn? {
      var th' := Sender(Sending(DrainOf(th).batch));
      SumSingle(th', BeforeStop);
      SumSingle(th', InOnce);
      SumSingle(th', LiveLoop);
      SumSingle(th', UnfinishedLoop);
      SumSingle(th', SawStopped);
      SumSingle(th', Undecided);
      SumSingle(th', IdleLoop);
    }
  }

  // ---------------------------------------------------------------- preservation

  lemma ActConserves(c: Config, s: State, t: nat, a: Action)
    requires ValidConfig(c) && StepEnabled(c, s, Act(t, a)) && Conserved(s)
    ensures Conserved(Take(c, s, Act(t, a)))
  {
    hide Effect, Enabled, Orderly, Attentive, Public, Held, HeldBy;
    var th := s.threads[t];
    var (g', th', started) := Effect(c, s.g, th, a);
    EffectConserves(c, s.g, th, a);
    EffectIsLawful(c, s.g, th, a);
    HeldStep(s.threads, t, th', started);
    Rebalance(Public(s.g), Public(g'), multiset(HeldBy(th)), multiset(HeldBy(th')), Held(started),
              Held(s.threads), Held(s.threads[t := th'] + started));
  }

  /** Cancelling what moved between a thread and the rest. */
  lemma Rebalance(p: multiset<Ev>, p': multiset<Ev>, h: multiset<Ev>, h': multiset<Ev>, st: multiset<Ev>,
                  all: multiset<Ev>, all': multiset<Ev>)
    requires p + h == p' + h' + st && all' + h == all + h' + st
    ensures p + all == p' + all'
  {
    forall e
      ensures (p + all)[e] == (p' + all')[e]
    {
      assert (p + h)[e] == (p' + h' + st)[e] && (all' + h)[e] == (all + h' + st)[e];
    }
  }

  lemma ActCounts(c: Config, s: State, t: nat, a: Action)
    requires ValidConfig(c) && StepEnabled(c, s, Act(t, a)) && Counted(s)
    ensures Counted(Take(c, s, Act(t, a)))
  {
    hide Effect, Enabled, Orderly, Attentive;
    var (g', th', started) := Effect(c, s.g, s.threads[t], a);
    EffectIsLawful(c, s.g, s.threads[t], a);
    SumStep(s.threads, t, th', started, UnreportedBy);
  }

  lemma ActBalances(c: Config, s: State, t: nat, a: Action)
    requires ValidConfig(c) && StepEnabled(c, s, Act(t, a)) && Balanced(c, s)
    ensures Balanced(c, Take(c, s, Act(t, a)))
  {
    hide Effect, Enabled, Orderly, Attentive;
    var (g', th', started) := Effect(c, s.g, s.threads[t], a);
    EffectIsLawful(c, s.g, s.threads[t], a);
    SumStep(s.threads, t, th', started, TokensOf);
    SumStep(s.threads, t, th', started, InflightOf);
  }

  lemma ActGuards(c: Config, s: State, t: nat, a: Action)
    requires ValidConfig(c) && StepEnabled(c, s, Act(t, a)) && Guarded(s)
    ensures Guarded(Take(c, s, Act(t, a)))
  {
    hide Effect, Enabled, Booked, Attentive, InOnce, BeforeStop, LiveLoop, UnfinishedLoop, SawStopped, Sum;
    var th := s.threads[t];
    var (g', th', started) := Effect(c, s.g, th, a);
    SumUpdate(s.threads, t, th', InOnce);
    SumUpdate(s.threads, t, th', SawStopped);
    EffectIsLawful(c, s.g, th, a);
    StartedAreSenders(c, s.g, th, a);
    SumStep(s.threads, t, th', started, BeforeStop);
    SumStep(s.threads, t, th', started, InOnce);
    SumStep(s.threads, t, th', started, LiveLoop);
    SumStep(s.threads, t, th', started, UnfinishedLoop);
    SumStep(s.threads, t, th', started, SawStopped);
  }

  /** There is one loop. */
  lemma {:induction false} IdleIsUnfinished(ths: seq<Thread>)
    ensures Sum(ths, IdleLoop) <= Sum(ths, UnfinishedLoop)
  {
    if ths != [] {
      IdleIsUnfinished(ths[..|ths| - 1]);
    }
  }

  lemma ActKeepsAwake(c: Config, s: State, t: nat, a: Action)
    requires ValidConfig(c) && StepEnabled(c, s, Act(t, a)) && Awake(c, s) && Guarded(s)
    ensures Awake(c, Take(c, s, Act(t, a)))
  {
    hide Effect, Enabled, Booked, Orderly;
    var th := s.threads[t];
    var (g', th', started) := Effect(c, s.g, th, a);
    EffectIsLawful(c, s.g, th, a);
    StartedAreSenders(c, s.g, th, a);
    SumStep(s.threads, t, th', started, Undecided);
    SumStep(s.threads, t, th', started, IdleLoop);
    SumUpdate(s.threads, t, th', Undecided);
    SumUpdate(s.threads, t, th', IdleLoop);
    IdleIsUnfinished(s.threads);
  }

  lemma StartAdds(ths: seq<Thread>, th: Thread, w: Thread -> nat)
    ensures Sum(ths + [th], w) == Sum(ths, w) + w(th)
  {
    SumConcat(ths, [th], w);
    SumSingle(th, w);
  }

  /** A thread with nothing but, possibly, a newly captured event. */
  ghost predicate IsFresh(g: Globals, th: Thread) {
    && (HeldBy(th) == [] || HeldBy(th) == [g.captured])
    && UnreportedBy(th) == TokensOf(th) == InflightOf(th) == BeforeStop(th) == InOnce(th) == LiveLoop(th) == 0
    && UnfinishedLoop(th) == SawStopped(th) == Undecided(th) == IdleLoop(th) == 0
  }

  ghost predicate Adds(s: State, s': State, th: Thread) {
    && IsFresh(s.g, th)
    && s'.threads == s.threads + [th]
    && s'.g == s.g.(captured := s.g.captured + |HeldBy(th)|)
  }

  lemma StartIsFresh(c: Config, s: State, step: Step) returns (th: Thread)
    requires !step.Act?
    ensures Adds(s, Take(c, s, step), th)
  {
    match step
    case NewCapture(size) => th := Capture(InTransit(Entry(s.g.captured, size)));
    case NewFlush => th := Flush(FlushDrain(Popping));
    case NewClose => th := Close(Entering);
  }

  lemma AddConserves(s: State, s': State, th: Thread)
    requires Conserved(s) && Adds(s, s', th)
    ensures Conserved(s')
  {
    hide HeldBy, Public, Held, FirstEvents;
    HeldGrows(s.threads, th);
    SamePublic(s.g, s'.g);
    FreshIsNext(s.g.captured, HeldBy(th));
    Transfers(Public(s.g), Public(s'.g), Held(s.threads), Held(s'.threads), multiset(HeldBy(th)),
              FirstEvents(s.g.captured), FirstEvents(s.g.captured + |HeldBy(th)|));
    assert s'.g.captured == s.g.captured + |HeldBy(th)|;
  }

  lemma Transfers(p: multiset<Ev>, p': multiset<Ev>, a: multiset<Ev>, a': multiset<Ev>, h: multiset<Ev>,
                  f: multiset<Ev>, f': multiset<Ev>)
    requires p + a == f && p' == p && a' == a + h && f' == f + h
    ensures p' + a' == f'
  {
  }

  lemma HeldGrows(ths: seq<Thread>, th: Thread)
    ensures Held(ths + [th]) == Held(ths) + multiset(HeldBy(th))
  {
    assert (ths + [th])[..|ths|] == ths;
  }

  lemma SamePublic(g: Globals, g': Globals)
    requires g'.ring == g.ring && g'.evicted == g.evicted && g'.delivered == g.delivered && g'.exhausted == g.exhausted
    ensures Public(g') == Public(g)
  {
  }

  lemma FreshIsNext(n: nat, held: seq<Ev>)
    requires held == [] || held == [n]
    ensures FirstEvents(n + |held|) == FirstEvents(n) + multiset(held)
  {
    if held == [] {
      assert FirstEvents(n) + multiset{} == FirstEvents(n);
    } else {
      assert multiset(held) == multiset{n};
      assert FirstEvents(n + 1) == FirstEvents(n) + multiset{n};
    }
  }

  lemma AddKeepsInv(c: Config, s: State, s': State, th: Thread)
    requires Inv(c, s) && Adds(s, s', th)
    ensures Inv(c, s')
  {
    AddConserves(s, s', th);
    StartAdds(s.threads, th, UnreportedBy);
    StartAdds(s.threads, th, TokensOf);
    StartAdds(s.threads, th, InflightOf);
    StartAdds(s.threads, th, Undecided);
    StartAdds(s.threads, th, IdleLoop);
    StartAdds(s.threads, th, BeforeStop);
    StartAdds(s.threads, th, InOnce);
    StartAdds(s.threads, th, LiveLoop);
    StartAdds(s.threads, th, UnfinishedLoop);
    StartAdds(s.threads, th, SawStopped);
    assert Guarded(s');
  }

  lemma StepKeepsInv(c: Config, s: State, s': State)
    requires ValidConfig(c) && Inv(c, s) && Next(c, s, s')
    ensures Inv(c, s')
  {
    hide Effect, Enabled;
    var step :| StepEnabled(c, s, step) && s' == Take(c, s, step);
    match step
    case Act(t, a) =>
      ActConserves(c, s, t, a);
      ActCounts(c, s, t, a);
      EffectBounds(c, s.g, s.threads[t], a);
      ActBalances(c, s, t, a);
      ActGuards(c, s, t, a);
      ActKeepsAwake(c, s, t, a);
    case _ =>
      var th := StartIsFresh(c, s, step);
      AddKeepsInv(c, s, s', th);
  }

  lemma InitInv(c: Config)
    requires ValidConfig(c)
    ensures Inv(c, Init())
  {
    var th := Loop(Select);
    HeldSingle(th);
    SumSingle(th, UnreportedBy);
    SumSingle(th, TokensOf);
    SumSingle(th, InflightOf);
    SumSingle(th, BeforeStop);
    SumSingle(th, InOnce);
    SumSingle(th, LiveLoop);
    SumSingle(th, UnfinishedLoop);
    SumSingle(th, SawStopped);
  }

  /** Every state of every run satisfies the invariant. */
  lemma {:induction false} InvariantHolds(c: Config, b: seq<State>, i: nat)
    requires ValidConfig(c) && Behavior(c, b) && i < |b|
    ensures Inv(c, b[i])
  {
    hide Next;
    if i == 0 {
      InitInv(c);
    } else {
      InvariantHolds(c, b, i - 1);
      StepKeepsInv(c, b[i - 1], b[i]);
    }
  }
}
