/**
 What the buffer promises over whole histories of pushes, pops and drains.
 */
module RingHistory {
  import opened RingBuffer
  import opened RingSpec

  datatype Op<T> =
    | Push(e: Entry<T>)
    | Pop(itemLimit: int, byteLimit: int)
    | Drain

  /**
   A history executed so far: everything pushed, the number of entries reported as dropped, the
   number handed out, what is held, the backing capacity and the entries copied by growth steps.
   */
  datatype Run<T> = Run(pushed: seq<Entry<T>>, dropped: nat, popped: nat, held: seq<Entry<T>>, cap: int, copied: nat)

  function ExecOp<T>(r: Run<T>, op: Op<T>, maxItems: int, maxBytes: int): Run<T> {
    match op
    case Push(e) =>
      var all := r.held + [e];
      var grows := 0 <= r.cap && MustGrow(|r.held|, r.cap, maxItems);
      Run(r.pushed + [e],
          r.dropped + FirstFit(all, maxItems, maxBytes),
          r.popped,
          NewestFit(all, maxItems, maxBytes),
          if grows then GrownCap(r.cap, maxItems) else r.cap,
          if grows then r.copied + |r.held| else r.copied)
    case Pop(itemLimit, byteLimit) =>
      var n := BatchLen(r.held, itemLimit, byteLimit);
      r.(popped := r.popped + n, held := r.held[n..])
    case Drain =>
      r.(popped := r.popped + |r.held|, held := [])
  }

  /** The history `ops`, executed on an empty buffer. */
  function Exec<T>(ops: seq<Op<T>>, maxItems: int, maxBytes: int): Run<T> {
    if ops == [] then Run([], 0, 0, [], 0, 0)
    else ExecOp(Exec(ops[..|ops| - 1], maxItems, maxBytes), ops[|ops| - 1], maxItems, maxBytes)
  }

  /** Where the window of held entries begins in the push history. */
  function Start<T>(r: Run<T>): int {
    |r.pushed| - |r.held|
  }

  ghost predicate WindowInv<T>(r: Run<T>, maxItems: int, maxBytes: int) {
    && |r.held| <= |r.pushed|
    && r.held == r.pushed[Start(r)..]
    && r.dropped + r.popped == Start(r)
    && |r.held| <= maxItems
    && (Total(r.held) <= maxBytes || |r.held| == 1)
  }

  /**
   After every history the buffer holds exactly the newest entries of the push history: a window that
   ends at the newest one.  Whatever is missing was reported as dropped or handed out, nothing else,
   and the window respects both bounds.
   */
  lemma {:induction false} WindowOfHistory<T>(ops: seq<Op<T>>, maxItems: int, maxBytes: int)
    requires 1 <= maxItems && 1 <= maxBytes
    ensures WindowInv(Exec(ops, maxItems, maxBytes), maxItems, maxBytes)
  {
    hide WindowInv, ExecOp;
    if ops == [] {
      EmptyWindow<T>(maxItems, maxBytes);
    } else {
      var r := Exec(ops[..|ops| - 1], maxItems, maxBytes);
      WindowOfHistory(ops[..|ops| - 1], maxItems, maxBytes);
      match ops[|ops| - 1]
      case Push(e) => PushMovesWindow(r, e, maxItems, maxBytes);
      case Pop(itemLimit, byteLimit) => PopKeepsWindow(r, itemLimit, byteLimit, maxItems, maxBytes);
      case Drain => DrainKeepsWindow(r, maxItems, maxBytes);
    }
  }

  lemma EmptyWindow<T>(maxItems: int, maxBytes: int)
    requires 1 <= maxItems && 1 <= maxBytes
    ensures WindowInv(Exec<T>([], maxItems, maxBytes), maxItems, maxBytes)
  {
    hide ExecOp, FirstFit, BatchLen, GrownCap;
    var r := Exec<T>([], maxItems, maxBytes);
    assert Start(r) == 0 && Total(r.held) == 0;
    assert r.held == r.pushed == r.pushed[0..];
  }

  lemma PopKeepsWindow<T>(r: Run<T>, itemLimit: int, byteLimit: int, maxItems: int, maxBytes: int)
    requires 1 <= maxBytes && WindowInv(r, maxItems, maxBytes)
    ensures WindowInv(ExecOp(r, Pop(itemLimit, byteLimit), maxItems, maxBytes), maxItems, maxBytes)
  {
    hide WindowInv, BatchLen;
    TakingKeepsWindow(r, BatchLen(r.held, itemLimit, byteLimit), maxItems, maxBytes);
  }

  lemma DrainKeepsWindow<T>(r: Run<T>, maxItems: int, maxBytes: int)
    requires 1 <= maxBytes && WindowInv(r, maxItems, maxBytes)
    ensures WindowInv(ExecOp(r, Drain, maxItems, maxBytes), maxItems, maxBytes)
  {
    hide WindowInv;
    TakingKeepsWindow(r, |r.held|, maxItems, maxBytes);
    assert r.held[|r.held|..] == [];
  }

  lemma TakingKeepsWindow<T>(r: Run<T>, n: nat, maxItems: int, maxBytes: int)
    requires WindowInv(r, maxItems, maxBytes) && n <= |r.held| && 1 <= maxBytes
    ensures WindowInv(r.(popped := r.popped + n, held := r.held[n..]), maxItems, maxBytes)
  {
    TotalSplit(r.held, n);
    assert r.pushed[Start(r)..][n..] == r.pushed[Start(r) + n..];
  }

  lemma PushMovesWindow<T>(r: Run<T>, e: Entry<T>, maxItems: int, maxBytes: int)
    requires 1 <= maxItems && 1 <= maxBytes
    requires WindowInv(r, maxItems, maxBytes)
    ensures var r' := ExecOp(r, Push(e), maxItems, maxBytes);
            && WindowInv(r', maxItems, maxBytes)
            && Start(r') == Max(Start(r), FirstFit(r'.pushed, maxItems, maxBytes))
  {
    var all, h := r.held + [e], r.pushed + [e];
    var k := FirstFit(all, maxItems, maxBytes);
    assert all == h[Start(r)..];
    assert h[Start(r) + k..] == all[k..];
    FirstFitOfSuffix(h, Start(r), maxItems, maxBytes);
  }

  /**
   Eviction is minimal: after any push in any history the window begins where it began before, or
   where the longest suffix of the whole push history that fits both bounds begins (the newest entry
   alone if none does), whichever is later.
   */
  lemma EvictionIsMinimal<T>(ops: seq<Op<T>>, e: Entry<T>, maxItems: int, maxBytes: int)
    requires 1 <= maxItems && 1 <= maxBytes
    ensures var before := Exec(ops, maxItems, maxBytes);
            var after := Exec(ops + [Push(e)], maxItems, maxBytes);
            && Start(after) == Max(Start(before), FirstFit(before.pushed + [e], maxItems, maxBytes))
            && after.dropped - before.dropped == Start(after) - Start(before)
  {
    WindowOfHistory(ops, maxItems, maxBytes);
    WindowOfHistory(ops + [Push(e)], maxItems, maxBytes);
    assert (ops + [Push(e)])[..|ops|] == ops;
    PushMovesWindow(Exec(ops, maxItems, maxBytes), e, maxItems, maxBytes);
  }

  /** Growth so far: the capacity is zero, a doubling of eight, or clamped to the bound. */
  ghost predicate GrowthInv<T>(r: Run<T>, maxItems: int) {
    && 0 <= |r.held| <= r.cap <= maxItems
    && |r.held| <= |r.pushed|
    && (r.cap == 0 ==> r.copied == 0)
    && (0 < r.cap < maxItems ==> r.cap >= MIN_INITIAL_CAP && r.copied + MIN_INITIAL_CAP <= r.cap)
    && r.copied <= 2 * |r.pushed|
    && r.copied < 2 * maxItems
  }

  lemma GrowthStep<T>(r: Run<T>, op: Op<T>, maxItems: int, maxBytes: int)
    requires 1 <= maxItems && 1 <= maxBytes
    requires GrowthInv(r, maxItems)
    ensures GrowthInv(ExecOp(r, op, maxItems, maxBytes), maxItems)
  {
    match op
    case Push(e) =>
      var all := r.held + [e];
      var k := FirstFit(all, maxItems, maxBytes);
      if k == 0 && |all| > 1 {
        assert all[0..] == all;
      }
    case Pop(_, _) =>
    case Drain =>
  }

  /**
   Growth is amortised: over every history the entries copied by growth steps are at most twice the
   pushes and fewer than twice the item bound, and the capacity never exceeds the item bound.
   */
  lemma {:induction false} GrowthIsAmortised<T>(ops: seq<Op<T>>, maxItems: int, maxBytes: int)
    requires 1 <= maxItems && 1 <= maxBytes
    ensures GrowthInv(Exec(ops, maxItems, maxBytes), maxItems)
  {
    if ops != [] {
      GrowthIsAmortised(ops[..|ops| - 1], maxItems, maxBytes);
      GrowthStep(Exec(ops[..|ops| - 1], maxItems, maxBytes), ops[|ops| - 1], maxItems, maxBytes);
    }
  }

  /** The most entries held at any time of a history. */
  function Peak<T>(ops: seq<Op<T>>, maxItems: int, maxBytes: int): nat {
    if ops == [] then 0
    else Larger(Peak(ops[..|ops| - 1], maxItems, maxBytes), |Exec(ops, maxItems, maxBytes).held|)
  }

  function Larger(a: nat, b: nat): nat {
    if a < b then b else a
  }

  /**
   The store follows the load: over every history its capacity is at most twice the most entries ever held,
   or eight, and never more than the item bound; it always has room for what is held, and never shrinks.
   */
  lemma {:induction false} CapacityFollowsPeak<T>(ops: seq<Op<T>>, maxItems: int, maxBytes: int)
    requires 1 <= maxItems && 1 <= maxBytes
    ensures var r := Exec(ops, maxItems, maxBytes);
            && |r.held| <= r.cap <= maxItems
            && r.cap <= Larger(MIN_INITIAL_CAP, 2 * Peak(ops, maxItems, maxBytes))
            && (ops != [] ==> Exec(ops[..|ops| - 1], maxItems, maxBytes).cap <= r.cap)
  {
    hide FirstFit, BatchLen, NewestFit;
    GrowthIsAmortised(ops, maxItems, maxBytes);
    if ops != [] {
      GrowthIsAmortised(ops[..|ops| - 1], maxItems, maxBytes);
      CapacityFollowsPeak(ops[..|ops| - 1], maxItems, maxBytes);
      PeakCoversLoad(ops[..|ops| - 1], maxItems, maxBytes);
    }
  }

  lemma PeakCoversLoad<T>(ops: seq<Op<T>>, maxItems: int, maxBytes: int)
    ensures |Exec(ops, maxItems, maxBytes).held| <= Peak(ops, maxItems, maxBytes)
  {
  }

  /** The state of a buffer, with the drops reported and the items handed out, is what the history says. */
  ghost predicate Follows<T>(b: Buffer<T>, r: Run<T>, dropped: int, popped: int)
    reads b, b.buf, b.sz
  {
    && b.Valid() && b.Contents() == r.held && b.buf.Length == r.cap && b.copied == r.copied
    && dropped == r.dropped && popped == r.popped
  }

  /** One call on the buffer is one step of the history. */
  method Perform<T>(b: Buffer<T>, op: Op<T>, ghost r: Run<T>, dropped: int, popped: int)
    returns (dropped': int, popped': int)
    requires Follows(b, r, dropped, popped)
    requires op.Push? ==> op.e == b.EntryOf(op.e.item)
    modifies b, b.buf, b.sz
    ensures Follows(b, ExecOp(r, op, b.maxItems, b.maxBytes), dropped', popped')
    ensures (b.buf == old(b.buf) && b.sz == old(b.sz)) || (fresh(b.buf) && fresh(b.sz))
  {
    hide FirstFit, Fits, Total, BatchLen;
    match op {
      case Push(e) =>
        var n := b.Push(e.item);
        dropped', popped' := dropped + n, popped;
      case Pop(itemLimit, byteLimit) =>
        var batch := b.PopBatch(itemLimit, byteLimit);
        dropped', popped' := dropped, popped + |batch|;
      case Drain =>
        var all := b.DrainAll();
        dropped', popped' := dropped, popped + |all|;
    }
  }

  /** A whole history carried out on a new buffer ends where `Exec` does, store and copies included. */
  method Replay<T>(b: Buffer<T>, ops: seq<Op<T>>) returns (dropped: int, popped: int)
    requires b.Valid() && b.Contents() == [] && b.buf.Length == 0 && b.copied == 0
    requires forall i :: 0 <= i < |ops| && ops[i].Push? ==> ops[i].e == b.EntryOf(ops[i].e.item)
    modifies b, b.buf, b.sz
    ensures Follows(b, Exec(ops, b.maxItems, b.maxBytes), dropped, popped)
  {
    hide ExecOp;
    dropped, popped := 0, 0;
    for i := 0 to |ops|
      invariant Follows(b, Exec(ops[..i], b.maxItems, b.maxBytes), dropped, popped)
      invariant (b.buf == old(b.buf) && b.sz == old(b.sz)) || (fresh(b.buf) && fresh(b.sz))
    {
      assert ops[..i + 1][..i] == ops[..i];
      dropped, popped := Perform(b, ops[i], Exec(ops[..i], b.maxItems, b.maxBytes), dropped, popped);
    }
    assert ops[..|ops|] == ops;
  }
}
