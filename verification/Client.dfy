/**
 The tail of a capture call and the worker's pop, written over the real buffer, and tied to the steps
 of the protocol: run without interruption they have exactly the effect of those steps.
 */
module Client {
  import opened Basics
  import opened RingSpec
  import opened RingBuffer
  import opened Protocol
  import opened Wrappers

  /** The steps of one capture after it is counted, taken one after the other with nothing in between. */
  function EnqueueAlone(c: Config, g: Globals, e: Entry<Ev>): Globals {
    var (g1, pushed) := CaptureEffect(c, g, InTransit(e), Push);
    var (g2, checking) := CaptureEffect(c, g1, pushed, CountDrops);
    var (g3, decided) := CaptureEffect(c, g2, checking, Check);
    if decided.Notifying? then CaptureEffect(c, g3, decided, Notify).0 else g3
  }

  function CaptureAlone(c: Config, g: Globals, e: Entry<Ev>): Globals {
    EnqueueAlone(c, g.(captured := g.captured + 1), e)
  }

  lemma StepsOfEnqueue(c: Config, g: Globals, e: Entry<Ev>, g': Globals, k: nat)
    requires g' == EnqueueAlone(c, g, e) && k == FirstFit(g.ring + [e], c.maxItems, c.maxBytes)
    ensures g'.captured == g.captured
    ensures g'.ring == (g.ring + [e])[k..]
    ensures g'.evicted == g.evicted + Items<Ev>((g.ring + [e])[..k])
    ensures g'.droppedOverflow == g.droppedOverflow + k
    ensures g'.trigger == (g.trigger || |g'.ring| >= c.batchSize)
  {
    hide FirstFit, Items;
    var (g1, pushed) := CaptureEffect(c, g, InTransit(e), Push);
    var (g2, checking) := CaptureEffect(c, g1, pushed, CountDrops);
    assert checking == Checking;
  }

  /**
   A capture never loses its own event, reports every event it pushes out, and leaves a cue for the
   worker exactly when there was one already or a full batch is waiting.
   */
  lemma CaptureKeepsItsEvent(c: Config, g: Globals, e: Entry<Ev>)
    ensures var g' := CaptureAlone(c, g, e);
            && g'.ring != [] && g'.ring[|g'.ring| - 1] == e
            && g'.evicted + Items<Ev>(g'.ring) == g.evicted + Items<Ev>(g.ring) + [e.item]
            && g'.droppedOverflow - g.droppedOverflow == |g'.evicted| - |g.evicted|
            && (g'.trigger <==> g.trigger || |g'.ring| >= c.batchSize)
  {
    var k := FirstFit(g.ring + [e], c.maxItems, c.maxBytes);
    StepsOfEnqueue(c, g.(captured := g.captured + 1), e, CaptureAlone(c, g, e), k);
    CutOnce(g.ring, e, k, g.evicted);
    hide *;
  }

  /** Cutting a run at one place loses nothing, and keeps the newest entry if the cut is before it. */
  lemma CutOnce(ring: seq<Entry<Ev>>, e: Entry<Ev>, k: nat, evicted: seq<Ev>)
    requires k <= |ring|
    ensures (ring + [e])[k..] != [] && (ring + [e])[k..][|ring| - k] == e
    ensures evicted + Items<Ev>((ring + [e])[..k]) + Items<Ev>((ring + [e])[k..])
            == evicted + Items<Ev>(ring) + [e.item]
    ensures |Items<Ev>((ring + [e])[..k])| == k
  {
    var all := ring + [e];
    var a, b := Items<Ev>(all[..k]), Items<Ev>(all[k..]);
    assert a + b == Items<Ev>(all) == Items<Ev>(ring) + [e.item];
    Associates(evicted, a, b);
    Associates(evicted, Items<Ev>(ring), [e.item]);
  }

  class Pipeline {
    const ring: Buffer<Ev>
    const batchSize: int
    const maxBatchBytes: int
    var captured: nat
    var droppedOverflow: nat
    /** The one slot of the channel that wakes the worker. */
    var trigger: bool

    ghost predicate Represents(c: Config, g: Globals)
      reads this, ring, ring.buf, ring.sz
    {
      && ring.Valid()
      && ring.maxItems == c.maxItems && ring.maxBytes == c.maxBytes
      && batchSize == c.batchSize && maxBatchBytes == c.maxBatchBytes
      && ring.Contents() == g.ring
      && captured == g.captured && droppedOverflow == g.droppedOverflow && trigger == g.trigger
    }

    constructor (ring: Buffer<Ev>, batchSize: int, maxBatchBytes: int)
      requires ring.Valid() && ring.Contents() == []
      ensures this.ring == ring && this.batchSize == batchSize && this.maxBatchBytes == maxBatchBytes
      ensures forall maxConcurrent ::
                Represents(Config(ring.maxItems, ring.maxBytes, batchSize, maxBatchBytes, maxConcurrent), Init().g)
    {
      this.ring, this.batchSize, this.maxBatchBytes := ring, batchSize, maxBatchBytes;
      captured, droppedOverflow, trigger := 0, 0, false;
    }

    /** Counts the event, then hands it to the pipeline. */
    method FinishAndEnqueue(e: Ev, ghost c: Config, ghost g: Globals)
      requires Represents(c, g)
      modifies this, ring, ring.buf, ring.sz
      ensures Represents(c, CaptureAlone(c, g, ring.EntryOf(e)))
      ensures (ring.buf == old(ring.buf) && ring.sz == old(ring.sz)) || (fresh(ring.buf) && fresh(ring.sz))
    {
      captured := captured + 1;
      Enqueue(e, c, g.(captured := g.captured + 1));
    }

    /** Push, count what was pushed out, and wake the worker when a full batch waits. */
    method Enqueue(e: Ev, ghost c: Config, ghost g: Globals)
      requires Represents(c, g)
      modifies this`droppedOverflow, this`trigger, ring, ring.buf, ring.sz
      ensures Represents(c, EnqueueAlone(c, g, ring.EntryOf(e)))
      ensures (ring.buf == old(ring.buf) && ring.sz == old(ring.sz)) || (fresh(ring.buf) && fresh(ring.sz))
    {
      hide EnqueueAlone, FirstFit, Fits, Total, Items;
      ghost var g' := EnqueueAlone(c, g, ring.EntryOf(e));
      var dropped := ring.Push(e);
      StepsOfEnqueue(c, g, ring.EntryOf(e), g', dropped);
      assert ring.Contents() == g'.ring && dropped == g'.droppedOverflow - g.droppedOverflow;
      if dropped > 0 {
        droppedOverflow := droppedOverflow + dropped;
      }
      assert droppedOverflow == g'.droppedOverflow && ring.Valid() && ring.Contents() == g'.ring;
      var n := ring.Len();
      if n >= batchSize {
        Notify();
      }
      assert trigger == g'.trigger;
    }

    /** Fills the slot if it is empty and never blocks. */
    method Notify()
      modifies this`trigger
      ensures trigger
    {
      if !trigger {
        trigger := true;
      }
    }

    /** One pop of a drain: the batch in hand, or nothing when the ring is empty. */
    method PopNext(ghost c: Config, ghost g: Globals) returns (batch: seq<Ev>)
      requires Represents(c, g)
      modifies ring, ring.buf
      ensures ring.buf == old(ring.buf) && ring.sz == old(ring.sz)
      ensures var (g', d, started) := DrainEffect(c, g, Popping, Pop);
              && Represents(c, g') && started == []
              && d == if batch == [] then None else Some(Holding(batch))
    {
      batch := ring.PopBatch(batchSize, maxBatchBytes);
      ghost var n := BatchLen(g.ring, batchSize, maxBatchBytes);
      assert n == 0 ==> g.ring[n..] == g.ring;
    }
  }
}
