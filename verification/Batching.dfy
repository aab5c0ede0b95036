/**
 The worker's drain loop run without concurrent pushes: it empties the buffer in order, and no other
 way of cutting the same entries into requests needs fewer of them.
 */
module Batching {
  import opened RingSpec
  import opened RingBuffer

  /** The batches a drain loop takes from `s`. */
  function Batches<T>(s: seq<Entry<T>>, itemLimit: int, byteLimit: int): seq<seq<Entry<T>>>
    decreases |s|
  {
    if s == [] then [] else
      var n := BatchLen(s, itemLimit, byteLimit);
      [s[..n]] + Batches(s[n..], itemLimit, byteLimit)
  }

  function Concat<T>(gs: seq<seq<T>>): seq<T> {
    if gs == [] then [] else gs[0] + Concat(gs[1..])
  }

  /** A cut of `s` into consecutive groups that one request each may carry. */
  ghost predicate IsCut<T>(gs: seq<seq<Entry<T>>>, s: seq<Entry<T>>, itemLimit: int, byteLimit: int) {
    && Concat(gs) == s
    && forall i :: 0 <= i < |gs| ==> Sendable(gs[i], itemLimit, byteLimit)
  }

  lemma {:induction false} BatchesAreACut<T>(s: seq<Entry<T>>, itemLimit: int, byteLimit: int)
    ensures IsCut(Batches(s, itemLimit, byteLimit), s, itemLimit, byteLimit)
    decreases |s|
  {
    if s != [] {
      var n := BatchLen(s, itemLimit, byteLimit);
      BatchesAreACut(s[n..], itemLimit, byteLimit);
      CutCons(s[..n], Batches(s[n..], itemLimit, byteLimit), s[n..], itemLimit, byteLimit);
      assert s[..n] + s[n..] == s;
    }
  }

  lemma CutCons<T>(g: seq<Entry<T>>, gs: seq<seq<Entry<T>>>, rest: seq<Entry<T>>, itemLimit: int, byteLimit: int)
    requires Sendable(g, itemLimit, byteLimit) && IsCut(gs, rest, itemLimit, byteLimit)
    ensures IsCut([g] + gs, g + rest, itemLimit, byteLimit)
  {
    assert ([g] + gs)[1..] == gs;
  }

  /** Greedy stays ahead: a shorter remainder never needs more batches. */
  lemma {:induction false} FewerForSuffix<T>(s: seq<Entry<T>>, k: nat, itemLimit: int, byteLimit: int)
    requires k <= |s|
    ensures |Batches(s[k..], itemLimit, byteLimit)| <= |Batches(s, itemLimit, byteLimit)|
    decreases |s|
  {
    hide BatchLen, Sendable, Total;
    if k < |s| {
      var n := BatchLen(s, itemLimit, byteLimit);
      if n <= k {
        FewerForSuffix(s[n..], k - n, itemLimit, byteLimit);
        assert s[n..][k - n..] == s[k..];
      } else {
        var m := BatchLen(s[k..], itemLimit, byteLimit);
        assert s[..n] == s[0..n];
        SendableWithin(s, 0, k, n, itemLimit, byteLimit);
        assert s[k..][..n - k] == s[k..n];
        BatchLenIsThreshold(s[k..], n - k, itemLimit, byteLimit);
        FewerForSuffix(s[n..], k + m - n, itemLimit, byteLimit);
        assert s[n..][k + m - n..] == s[k..][m..];
      }
    }
  }

  /** No cut into sendable groups has fewer groups than the drain loop makes. */
  lemma {:induction false} FewestBatches<T>(gs: seq<seq<Entry<T>>>, s: seq<Entry<T>>, itemLimit: int, byteLimit: int)
    requires IsCut(gs, s, itemLimit, byteLimit)
    ensures |Batches(s, itemLimit, byteLimit)| <= |gs|
  {
    if gs != [] {
      var g, n := gs[0], BatchLen(s, itemLimit, byteLimit);
      assert s[..|g|] == g && s[|g|..] == Concat(gs[1..]);
      BatchLenIsThreshold(s, |g|, itemLimit, byteLimit);
      FewestBatches(gs[1..], s[|g|..], itemLimit, byteLimit);
      FewerForSuffix(s[|g|..], n - |g|, itemLimit, byteLimit);
      assert s[|g|..][n - |g|..] == s[n..];
    }
  }

  function ItemBatches<T>(gs: seq<seq<Entry<T>>>): (r: seq<seq<T>>)
    ensures |r| == |gs| && forall i :: 0 <= i < |gs| ==> r[i] == Items(gs[i])
  {
    seq(|gs|, i requires 0 <= i < |gs| => Items(gs[i]))
  }

  /** Taking one more batch from `now`. */
  lemma NextBatch<T>(done: seq<seq<Entry<T>>>, now: seq<Entry<T>>, all: seq<seq<Entry<T>>>,
                     itemLimit: int, byteLimit: int)
    requires now != [] && done + Batches(now, itemLimit, byteLimit) == all
    ensures var n := BatchLen(now, itemLimit, byteLimit);
            && (done + [now[..n]]) + Batches(now[n..], itemLimit, byteLimit) == all
            && ItemBatches(done + [now[..n]]) == ItemBatches(done) + [Items(now[..n])]
  {
    hide BatchLen;
  }

  /** Empties the ring; `sent` lists the greedy batches of its contents in the order of dispatch. */
  method DispatchReady<T>(ring: Buffer<T>, batchSize: int, maxBatchBytes: int) returns (sent: seq<seq<T>>)
    requires ring.Valid()
    modifies ring, ring.buf
    ensures ring.Valid() && ring.Contents() == []
    ensures sent == ItemBatches(Batches(old(ring.Contents()), batchSize, maxBatchBytes))
  {
    hide BatchLen, ItemBatches;
    sent := [];
    ghost var was := ring.Contents();
    ghost var done: seq<seq<Entry<T>>> := [];
    while true
      invariant ring.Valid() && ring.buf == old(ring.buf)
      invariant sent == ItemBatches(done)
      invariant done + Batches(ring.Contents(), batchSize, maxBatchBytes) == Batches(was, batchSize, maxBatchBytes)
      decreases ring.count
    {
      ghost var now := ring.Contents();
      ghost var n := BatchLen(now, batchSize, maxBatchBytes);
      var batch := ring.PopBatch(batchSize, maxBatchBytes);
      if |batch| == 0 {
        break;
      }
      NextBatch(done, now, Batches(was, batchSize, maxBatchBytes), batchSize, maxBatchBytes);
      sent := sent + [batch];
      done := done + [now[..n]];
    }
  }
}
