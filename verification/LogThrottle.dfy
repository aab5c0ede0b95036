/**
 The self-throttling log gate: a window per call site and level, a cap per global window, and a count
 of suppressed lines that is reported with the next line let through.
 */
module LogThrottle {
  import opened Basics

  datatype Key = Key(file: string, line: int, level: int)

  datatype Entry = Entry(nextAllowed: int, suppressed: nat)

  /** The zero time; an unset window start and a fresh entry carry it. */
  const ZERO_TIME := 0

  const FRESH := Entry(ZERO_TIME, 0)

  datatype Config = Config(window: int, globalWindow: int, globalCap: int)

  ghost predicate ValidConfig(c: Config) {
    c.window > 0 && c.globalWindow > 0
  }

  datatype State = State(entries: map<Key, Entry>, windowStart: int, windowCount: nat)

  datatype Verdict = Verdict(emit: bool, suppressed: nat)

  datatype Call = Call(key: Key, now: int)

  function EntryFor(st: State, k: Key): Entry {
    if k in st.entries then st.entries[k] else FRESH
  }

  /** The global window is reopened by the first call ever and by any call a full window later. */
  predicate Reopens(c: Config, st: State, now: int) {
    st.windowStart == ZERO_TIME || now - st.windowStart >= c.globalWindow
  }

  predicate CapReached(c: Config, count: int) {
    c.globalCap > 0 && count >= c.globalCap
  }

  /** The effect of one admission. */
  function Admit(c: Config, st: State, call: Call): (State, Verdict) {
    var start := if Reopens(c, st, call.now) then call.now else st.windowStart;
    var count := if Reopens(c, st, call.now) then 0 else st.windowCount;
    var e := EntryFor(st, call.key);
    if call.now < e.nextAllowed || CapReached(c, count) then
      (State(st.entries[call.key := e.(suppressed := e.suppressed + 1)], start, count), Verdict(false, 0))
    else
      (State(st.entries[call.key := Entry(call.now + c.window, 0)], start, count + 1), Verdict(true, e.suppressed))
  }

  class Throttler {
    const cfg: Config
    var entries: map<Key, Entry>
    var globalWindowStart: int
    var globalCount: nat

    ghost function View(): State
      reads this
    {
      State(entries, globalWindowStart, globalCount)
    }

    constructor (window: int, globalWindow: int, globalCap: int)
      ensures ValidConfig(cfg) && cfg.globalCap == globalCap
      ensures cfg.window == if window <= 0 then 5_000_000_000 else window
      ensures cfg.globalWindow == if globalWindow <= 0 then 1_000_000_000 else globalWindow
      ensures View() == Start()
    {
      cfg := Config(if window <= 0 then 5_000_000_000 else window,
                    if globalWindow <= 0 then 1_000_000_000 else globalWindow,
                    globalCap);
      entries := map[];
      globalWindowStart := ZERO_TIME;
      globalCount := 0;
    }

    /** Decides one line; `now` is the clock reading taken inside the critical section. */
    method AdmitLine(k: Key, now: int) returns (emit: bool, suppressed: nat)
      modifies this
      ensures (View(), Verdict(emit, suppressed)) == Admit(cfg, old(View()), Call(k, now))
    {
      if globalWindowStart == ZERO_TIME || now - globalWindowStart >= cfg.globalWindow {
        globalWindowStart := now;
        globalCount := 0;
      }
      if k !in entries {
        entries := entries[k := FRESH];
      }
      var e := entries[k];
      if now < e.nextAllowed {
        entries := entries[k := e.(suppressed := e.suppressed + 1)];
        assert entries == old(entries)[k := e.(suppressed := e.suppressed + 1)];
        return false, 0;
      }
      if cfg.globalCap > 0 && globalCount >= cfg.globalCap {
        entries := entries[k := e.(suppressed := e.suppressed + 1)];
        assert entries == old(entries)[k := e.(suppressed := e.suppressed + 1)];
        return false, 0;
      }
      suppressed := e.suppressed;
      entries := entries[k := Entry(now + cfg.window, 0)];
      assert entries == old(entries)[k := Entry(now + cfg.window, 0)];
      globalCount := globalCount + 1;
      emit := true;
    }
  }

  // ---------------------------------------------------------------- runs

  function Start(): State {
    State(map[], ZERO_TIME, 0)
  }

  function After(c: Config, calls: seq<Call>): State {
    if calls == [] then Start() else Admit(c, After(c, calls[..|calls| - 1]), calls[|calls| - 1]).0
  }

  /** The verdict on the i-th call of a run. */
  function VerdictOn(c: Config, calls: seq<Call>, i: nat): Verdict
    requires i < |calls|
  {
    Admit(c, After(c, calls[..i]), calls[i]).1
  }

  predicate Emitted(c: Config, calls: seq<Call>, i: nat)
    requires i < |calls|
  {
    VerdictOn(c, calls, i).emit
  }

  lemma PrefixAgrees(c: Config, calls: seq<Call>, n: nat, i: nat)
    requires i < n <= |calls|
    ensures VerdictOn(c, calls[..n], i) == VerdictOn(c, calls, i)
  {
    assert calls[..n][..i] == calls[..i];
  }

  // ---------------------------------------------------------------- per key

  /** Calls, emitted lines and reported suppressions of one key. */
  function Calls(calls: seq<Call>, k: Key): nat {
    if calls == [] then 0
    else Calls(calls[..|calls| - 1], k) + if calls[|calls| - 1].key == k then 1 else 0
  }

  function Emits(c: Config, calls: seq<Call>, k: Key): nat {
    if calls == [] then 0
    else Emits(c, calls[..|calls| - 1], k)
         + if calls[|calls| - 1].key == k && Emitted(c, calls, |calls| - 1) then 1 else 0
  }

  function Reported(c: Config, calls: seq<Call>, k: Key): nat {
    if calls == [] then 0
    else Reported(c, calls[..|calls| - 1], k)
         + if calls[|calls| - 1].key == k then VerdictOn(c, calls, |calls| - 1).suppressed else 0
  }

  /**
   No line is lost from the count: in every run the calls of a key are its emitted lines, plus the
   suppressions reported with them, plus the suppressions still pending, whatever the clock does and
   however the two limits interleave.
   */
  lemma {:induction false} EveryCallIsAccountedFor(c: Config, calls: seq<Call>, k: Key)
    ensures Calls(calls, k) == Emits(c, calls, k) + Reported(c, calls, k) + EntryFor(After(c, calls), k).suppressed
  {
    if calls != [] {
      EveryCallIsAccountedFor(c, calls[..|calls| - 1], k);
    }
  }

  /** How many calls it took to reach the last emitted line of a key; zero when there is none. */
  function UpToLastEmit(c: Config, calls: seq<Call>, k: Key): (n: nat)
    ensures n <= |calls|
    ensures n > 0 ==> calls[n - 1].key == k && Emitted(c, calls[..n], n - 1)
  {
    if calls == [] then 0
    else if calls[|calls| - 1].key == k && Emitted(c, calls, |calls| - 1) then
      assert calls[..|calls|] == calls;
      |calls|
    else
      var n := UpToLastEmit(c, calls[..|calls| - 1], k);
      assert calls[..|calls| - 1][..n] == calls[..n];
      n
  }

  /** The calls of a key since its last emitted line. */
  function SilentCalls(c: Config, calls: seq<Call>, k: Key): int {
    Calls(calls, k) - Calls(calls[..UpToLastEmit(c, calls, k)], k)
  }

  lemma {:induction false} PendingIsSilent(c: Config, calls: seq<Call>, k: Key)
    ensures EntryFor(After(c, calls), k).suppressed == SilentCalls(c, calls, k)
  {
    if calls != [] {
      var n := |calls| - 1;
      PendingIsSilent(c, calls[..n], k);
      var m := UpToLastEmit(c, calls[..n], k);
      assert calls[..n][..m] == calls[..m] && calls[..|calls|] == calls;
    }
  }

  /**
   An emitted line reports exactly the calls of its key since the previous emitted line of the key, all of
   them suppressed; a suppressed line reports nothing.
   */
  lemma ReportsTheSilence(c: Config, calls: seq<Call>, i: nat)
    requires i < |calls|
    ensures VerdictOn(c, calls, i).suppressed
            == if Emitted(c, calls, i) then SilentCalls(c, calls[..i], calls[i].key) else 0
  {
    PendingIsSilent(c, calls[..i], calls[i].key);
  }

  /** Between the last emitted line of a key and now nothing of the key was emitted. */
  lemma {:induction false} SilentSinceLastEmit(c: Config, calls: seq<Call>, k: Key, i: nat)
    requires UpToLastEmit(c, calls, k) <= i < |calls| && calls[i].key == k
    ensures !Emitted(c, calls, i)
    decreases |calls|
  {
    var n := |calls| - 1;
    if i < n {
      SilentSinceLastEmit(c, calls[..n], k, i);
      PrefixAgrees(c, calls, n, i);
    }
  }

  /** The key may not log again before a full window after each of its emitted lines. */
  lemma {:induction false} WindowOutlastsEmit(c: Config, calls: seq<Call>, i: nat)
    requires ValidConfig(c) && i < |calls| && Emitted(c, calls, i)
    ensures EntryFor(After(c, calls), calls[i].key).nextAllowed >= calls[i].now + c.window
    decreases |calls|
  {
    var n := |calls| - 1;
    if i < n {
      PrefixAgrees(c, calls, n, i);
      WindowOutlastsEmit(c, calls[..n], i);
    } else {
      assert calls[..n] == calls[..i];
    }
  }

  /** Two emitted lines of one key are at least a window apart, in every run. */
  lemma EmitsAreSpaced(c: Config, calls: seq<Call>, i: nat, j: nat)
    requires ValidConfig(c) && i < j < |calls| && calls[i].key == calls[j].key
    requires Emitted(c, calls, i) && Emitted(c, calls, j)
    ensures calls[j].now - calls[i].now >= c.window
  {
    PrefixAgrees(c, calls, j, i);
    WindowOutlastsEmit(c, calls[..j], i);
  }

  // ---------------------------------------------------------------- global cap

  /** A clock that never runs backwards. */
  ghost predicate Nondecreasing(calls: seq<Call>) {
    forall i, j :: 0 <= i <= j < |calls| ==> calls[i].now <= calls[j].now
  }

  /** Emitted lines at or after the instant `from`. */
  function EmitsSince(c: Config, calls: seq<Call>, from: int): nat {
    if calls == [] then 0
    else EmitsSince(c, calls[..|calls| - 1], from)
         + if from <= calls[|calls| - 1].now && Emitted(c, calls, |calls| - 1) then 1 else 0
  }

  /** Emitted lines in the half-open interval [from, to). */
  function EmitsWithin(c: Config, calls: seq<Call>, from: int, to: int): nat {
    if calls == [] then 0
    else EmitsWithin(c, calls[..|calls| - 1], from, to)
         + if from <= calls[|calls| - 1].now < to && Emitted(c, calls, |calls| - 1) then 1 else 0
  }

  /** The call that opened the current global window, found from the clock readings alone. */
  function Opener(c: Config, calls: seq<Call>): (i: nat)
    requires calls != []
    ensures i < |calls|
  {
    var n := |calls| - 1;
    if n == 0 then 0
    else
      var o := Opener(c, calls[..n]);
      if calls[o].now == ZERO_TIME || calls[n].now - calls[o].now >= c.globalWindow then n else o
  }

  function EmitsFrom(c: Config, calls: seq<Call>, from: nat): nat
    decreases |calls|
  {
    if |calls| <= from then 0
    else EmitsFrom(c, calls[..|calls| - 1], from) + if Emitted(c, calls, |calls| - 1) then 1 else 0
  }

  /** The state tracks the window: its start is the opener's reading, its count the lines since. */
  lemma {:induction false} StateTracksWindow(c: Config, calls: seq<Call>)
    requires ValidConfig(c) && calls != []
    ensures var o := Opener(c, calls);
            && After(c, calls).windowStart == calls[o].now
            && After(c, calls).windowCount == EmitsFrom(c, calls, o)
    ensures c.globalCap > 0 ==> After(c, calls).windowCount <= c.globalCap
  {
    var n := |calls| - 1;
    if n > 0 {
      StateTracksWindow(c, calls[..n]);
      NothingFrom(c, calls[..n], n);
    } else {
      assert calls[..0] == [];
      NothingFrom(c, calls[..n], n);
    }
  }

  lemma NothingFrom(c: Config, calls: seq<Call>, from: nat)
    requires |calls| <= from
    ensures EmitsFrom(c, calls, from) == 0
  {
  }

  /** Every throttle window lets through at most the cap. */
  lemma WindowHonoursCap(c: Config, calls: seq<Call>)
    requires ValidConfig(c) && c.globalCap > 0 && calls != []
    ensures EmitsFrom(c, calls, Opener(c, calls)) <= c.globalCap
  {
    StateTracksWindow(c, calls);
  }

  /**
   The gate as a policy over the history alone: a line passes exactly when the clock is not before the
   zero time, no line of its key passed less than a window ago, and the current global window still
   has room.
   */
  lemma GateDecision(c: Config, calls: seq<Call>, call: Call)
    requires ValidConfig(c)
    ensures Emitted(c, calls + [call], |calls|) <==>
            && call.now >= ZERO_TIME
            && (forall i :: 0 <= i < |calls| && calls[i].key == call.key && Emitted(c, calls, i)
                  ==> call.now >= calls[i].now + c.window)
            && !CapReached(c, EmitsFrom(c, calls, Opener(c, calls + [call])))
  {
    assert (calls + [call])[..|calls|] == calls;
    RoomInWindow(c, calls, call);
    KeyMayLog(c, calls, call);
  }

  lemma KeyMayLog(c: Config, calls: seq<Call>, call: Call)
    requires ValidConfig(c)
    ensures call.now >= EntryFor(After(c, calls), call.key).nextAllowed <==>
            && call.now >= ZERO_TIME
            && forall i :: 0 <= i < |calls| && calls[i].key == call.key && Emitted(c, calls, i)
                 ==> call.now >= calls[i].now + c.window
  {
    var next := EntryFor(After(c, calls), call.key).nextAllowed;
    NextAllowedHasReason(c, calls, call.key);
    if call.now >= next {
      forall i | 0 <= i < |calls| && calls[i].key == call.key && Emitted(c, calls, i)
        ensures call.now >= calls[i].now + c.window
      {
        WindowOutlastsEmit(c, calls, i);
      }
    } else if next != ZERO_TIME {
      var i: nat :| EmittedAt(c, calls, call.key, i, next);
    }
  }

  /** The room the gate sees is what the clock readings and verdicts so far leave. */
  lemma RoomInWindow(c: Config, calls: seq<Call>, call: Call)
    requires ValidConfig(c)
    ensures var st := After(c, calls);
            (if Reopens(c, st, call.now) then 0 else st.windowCount)
            == EmitsFrom(c, calls, Opener(c, calls + [call]))
  {
    assert (calls + [call])[..|calls|] == calls;
    assert forall i :: 0 <= i < |calls| ==> calls[i] == (calls + [call])[i];
    if calls != [] {
      StateTracksWindow(c, calls);
    }
  }

  ghost predicate EmittedAt(c: Config, calls: seq<Call>, k: Key, i: nat, next: int) {
    i < |calls| && calls[i].key == k && calls[i].now + c.window == next && Emitted(c, calls, i)
  }

  lemma {:induction false} NextAllowedHasReason(c: Config, calls: seq<Call>, k: Key)
    requires ValidConfig(c)
    ensures var next := EntryFor(After(c, calls), k).nextAllowed;
            next >= ZERO_TIME && (next != ZERO_TIME ==> exists i: nat :: EmittedAt(c, calls, k, i, next))
  {
    if calls != [] {
      var n := |calls| - 1;
      NextAllowedHasReason(c, calls[..n], k);
      var next := EntryFor(After(c, calls[..n]), k).nextAllowed;
      if calls[n].key == k && Emitted(c, calls, n) {
        assert EmittedAt(c, calls, k, n, calls[n].now + c.window);
      } else if next != ZERO_TIME {
        var i: nat :| EmittedAt(c, calls[..n], k, i, next);
        PrefixAgrees(c, calls, n, i);
        assert EmittedAt(c, calls, k, i, next);
      }
    }
  }

  lemma {:induction false} EmitsFromAreRecent(c: Config, calls: seq<Call>, o: nat, from: int)
    requires Nondecreasing(calls) && (o < |calls| ==> from <= calls[o].now)
    ensures EmitsFrom(c, calls, o) <= EmitsSince(c, calls, from)
    decreases |calls|
  {
    if |calls| > o {
      var n := |calls| - 1;
      assert o < n ==> calls[..n][o] == calls[o];
      EmitsFromAreRecent(c, calls[..n], o, from);
    }
  }

  /**
   The cap never costs a line that a sliding window would let through: with a clock that never runs
   backwards, a line of a key that may log passes if fewer lines than the cap passed in the last window.
   */
  lemma RoomWhenQuiet(c: Config, calls: seq<Call>, call: Call)
    requires ValidConfig(c) && Nondecreasing(calls + [call]) && call.now >= ZERO_TIME
    requires forall i :: 0 <= i < |calls| && calls[i].key == call.key && Emitted(c, calls, i)
               ==> call.now >= calls[i].now + c.window
    requires c.globalCap > 0 ==> EmitsSince(c, calls, call.now - c.globalWindow + 1) < c.globalCap
    ensures Emitted(c, calls + [call], |calls|)
  {
    hide Emitted, EmitsFrom, EmitsSince, Opener, Nondecreasing;
    GateDecision(c, calls, call);
    OpenerIsRecent(c, calls, call);
    PrefixIsNondecreasing(calls, call);
    var o := Opener(c, calls + [call]);
    if o < |calls| {
      EmitsFromAreRecent(c, calls, o, call.now - c.globalWindow + 1);
    } else {
      NothingFrom(c, calls, o);
    }
  }

  lemma PrefixIsNondecreasing(calls: seq<Call>, call: Call)
    requires Nondecreasing(calls + [call])
    ensures Nondecreasing(calls)
  {
    assert forall i :: 0 <= i < |calls| ==> (calls + [call])[i] == calls[i];
  }

  /** The call that opened the current window is younger than a window, unless it is the newest call. */
  lemma OpenerIsRecent(c: Config, calls: seq<Call>, call: Call)
    ensures var o := Opener(c, calls + [call]);
            o <= |calls| && (o < |calls| ==> call.now - calls[o].now < c.globalWindow)
  {
    assert (calls + [call])[..|calls|] == calls;
  }

  // ---------------------------------------------------------------- emits per interval

  lemma {:induction false} NoneSinceFuture(c: Config, calls: seq<Call>, from: int)
    requires Nondecreasing(calls) && (calls != [] ==> calls[|calls| - 1].now < from)
    ensures EmitsSince(c, calls, from) == 0
  {
    if calls != [] {
      NoneSinceFuture(c, calls[..|calls| - 1], from);
    }
  }

  /** What the state allows to have been emitted since `from`. */
  function Allowance(c: Config, st: State, from: int): int
    requires c.globalWindow > 0
  {
    if st.windowStart < from then st.windowCount
    else Windows(c, from, st.windowStart) * c.globalCap + st.windowCount
  }

  /** The windows that can lie between `from` and a window start, counting one that straddles `from`. */
  function Windows(c: Config, from: int, start: int): int
    requires c.globalWindow > 0
  {
    (start - from) / c.globalWindow + 1
  }

  lemma LaterWindowStart(c: Config, from: int, start: int, now: int)
    requires ValidConfig(c) && c.globalCap > 0 && from <= start && start + c.globalWindow <= now
    ensures Windows(c, from, start) * c.globalCap + c.globalCap <= Windows(c, from, now) * c.globalCap
  {
    var a := (start - from) / c.globalWindow;
    QuotientAtLeast(start - from, c.globalWindow, a);
    QuotientAtLeast(now - from, c.globalWindow, a + 1);
    MulMonotone(a + 2, Windows(c, from, now), c.globalCap);
  }

  lemma QuotientAtLeast(x: int, d: int, q: int)
    requires d > 0
    ensures x / d >= q <==> x >= q * d
  {
    var p := x / d;
    assert x == p * d + x % d;
    if p >= q {
      MulMonotone(q, p, d);
    } else {
      MulMonotone(p + 1, q, d);
    }
  }

  lemma {:induction false} EmitsWithinAllowance(c: Config, calls: seq<Call>, from: int)
    requires ValidConfig(c) && c.globalCap > 0 && Nondecreasing(calls) && from > ZERO_TIME && calls != []
    ensures EmitsSince(c, calls, from) <= Allowance(c, After(c, calls), from)
    ensures After(c, calls).windowStart <= calls[|calls| - 1].now
    ensures After(c, calls).windowCount <= c.globalCap
  {
    var n := |calls| - 1;
    var before, st, now := calls[..n], After(c, calls[..n]), calls[n].now;
    StateTracksWindow(c, calls);
    if now < from {
      NoneSinceFuture(c, calls, from);
    } else if before == [] {
      assert now - from >= 0;
      AtLeastOneWindow(c, from, now);
    } else {
      EmitsWithinAllowance(c, before, from);
      StateTracksWindow(c, before);
      assert before[n - 1].now <= now;
      if !Reopens(c, st, now) {
      } else if st.windowStart < from {
        AtLeastOneWindow(c, from, now);
      } else {
        LaterWindowStart(c, from, st.windowStart, now);
      }
    }
  }

  lemma AtLeastOneWindow(c: Config, from: int, now: int)
    requires ValidConfig(c) && c.globalCap > 0 && from <= now
    ensures Windows(c, from, now) * c.globalCap >= c.globalCap
  {
    MulMonotone(1, Windows(c, from, now), c.globalCap);
  }

  lemma {:induction false} WithinIsSince(c: Config, calls: seq<Call>, from: int, to: int)
    requires Nondecreasing(calls) && (calls != [] ==> calls[|calls| - 1].now < to)
    ensures EmitsWithin(c, calls, from, to) == EmitsSince(c, calls, from)
  {
    if calls != [] {
      WithinIsSince(c, calls[..|calls| - 1], from, to);
    }
  }

  /**
   With a clock that never runs backwards, any half-open interval of m global windows lets through at
   most (m + 1) times the cap: twice the cap for one window's length.  The interval must not contain
   the zero time; see `ZeroTimeDefeatsCap`.
   */
  lemma {:induction false} IntervalHonoursCap(c: Config, calls: seq<Call>, from: int, m: nat)
    requires ValidConfig(c) && c.globalCap > 0 && Nondecreasing(calls)
    requires !(from <= ZERO_TIME < from + m * c.globalWindow)
    ensures EmitsWithin(c, calls, from, from + m * c.globalWindow) <= (m + 1) * c.globalCap
  {
    var to := from + m * c.globalWindow;
    MulMonotone(0, m + 1, c.globalCap);
    if calls != [] {
      var n := |calls| - 1;
      if to <= calls[n].now || from <= ZERO_TIME {
        if from <= calls[n].now < to {
          NothingBeforeZero(c, calls, n);
        }
        IntervalHonoursCap(c, calls[..n], from, m);
      } else {
        WithinIsSince(c, calls, from, to);
        EmitsWithinAllowance(c, calls, from);
        var start := After(c, calls).windowStart;
        if start >= from {
          WindowsInSpan(c, from, start, m);
        } else {
          MulMonotone(1, m + 1, c.globalCap);
        }
      }
    }
  }

  lemma NothingBeforeZero(c: Config, calls: seq<Call>, i: nat)
    requires ValidConfig(c) && i < |calls| && calls[i].now < ZERO_TIME
    ensures !Emitted(c, calls, i)
  {
    NextAllowedHasReason(c, calls[..i], calls[i].key);
  }

  lemma WindowsInSpan(c: Config, from: int, start: int, m: nat)
    requires ValidConfig(c) && c.globalCap > 0 && from <= start < from + m * c.globalWindow
    ensures Windows(c, from, start) * c.globalCap + c.globalCap <= (m + 1) * c.globalCap
  {
    QuotientAtLeast(start - from, c.globalWindow, m);
    MulMonotone(Windows(c, from, start) + 1, m + 1, c.globalCap);
  }

  /** `n` calls of different keys, all reading the zero time. */
  function ZeroRun(n: nat): (calls: seq<Call>)
    ensures |calls| == n
    ensures forall i :: 0 <= i < n ==> calls[i] == Call(Key("", i, 0), ZERO_TIME)
  {
    if n == 0 then [] else ZeroRun(n - 1) + [Call(Key("", n - 1, 0), ZERO_TIME)]
  }

  lemma NoEntryYet(c: Config, k: Key)
    ensures EntryFor(After(c, []), k) == FRESH && After(c, []).windowStart == ZERO_TIME
  {
  }

  lemma AdmitElsewhere(c: Config, st: State, call: Call, k: Key)
    requires call.key != k
    ensures EntryFor(Admit(c, st, call).0, k) == EntryFor(st, k)
    ensures st.windowStart == call.now == ZERO_TIME ==> Admit(c, st, call).0.windowStart == ZERO_TIME
  {
  }

  lemma {:induction false} KeyNeverUsed(c: Config, n: nat, k: nat)
    requires n <= k
    ensures EntryFor(After(c, ZeroRun(n)), Key("", k, 0)) == FRESH
    ensures After(c, ZeroRun(n)).windowStart == ZERO_TIME
  {
    hide Admit, EntryFor;
    if n == 0 {
      NoEntryYet(c, Key("", k, 0));
    } else {
      KeyNeverUsed(c, n - 1, k);
      assert ZeroRun(n)[..n - 1] == ZeroRun(n - 1);
      AdmitElsewhere(c, After(c, ZeroRun(n - 1)), Call(Key("", n - 1, 0), ZERO_TIME), Key("", k, 0));
    }
  }

  lemma ZeroCallPasses(c: Config, n: nat)
    requires n > 0 && c.globalCap > 0
    ensures Emitted(c, ZeroRun(n), n - 1)
    ensures ZeroRun(n)[..n - 1] == ZeroRun(n - 1)
  {
    hide After;
    KeyNeverUsed(c, n - 1, n - 1);
    assert ZeroRun(n)[..n - 1] == ZeroRun(n - 1);
  }

  /** The cap does not hold for an interval that contains the zero time: any number of lines can pass. */
  lemma {:induction false} ZeroTimeDefeatsCap(c: Config, from: int, to: int, n: nat)
    requires ValidConfig(c) && c.globalCap > 0 && from <= ZERO_TIME < to
    ensures Nondecreasing(ZeroRun(n)) && EmitsWithin(c, ZeroRun(n), from, to) == n
  {
    hide Emitted;
    if n > 0 {
      ZeroTimeDefeatsCap(c, from, to, n - 1);
      ZeroCallPasses(c, n);
    }
  }

  /**
   The bound of `IntervalHonoursCap` holds over every run with such a clock exactly for the intervals
   that do not contain the zero time.
   */
  lemma CapHoldsIff(c: Config, from: int, m: nat)
    requires ValidConfig(c) && c.globalCap > 0
    ensures (forall calls :: Nondecreasing(calls) ==>
               EmitsWithin(c, calls, from, from + m * c.globalWindow) <= (m + 1) * c.globalCap)
            <==> !(from <= ZERO_TIME < from + m * c.globalWindow)
  {
    var to := from + m * c.globalWindow;
    if from <= ZERO_TIME < to {
      MulMonotone(0, m + 1, c.globalCap);
      var n := (m + 1) * c.globalCap + 1;
      ZeroTimeDefeatsCap(c, from, to, n);
      assert Nondecreasing(ZeroRun(n));
    } else {
      forall calls | Nondecreasing(calls)
        ensures EmitsWithin(c, calls, from, to) <= (m + 1) * c.globalCap
      {
        IntervalHonoursCap(c, calls, from, m);
      }
    }
  }
}
