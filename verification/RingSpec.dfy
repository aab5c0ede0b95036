/**
 What the bounded pending buffer promises, stated on plain sequences.

 A buffer holds entries oldest first.  A push appends the newest entry and then keeps the longest
 suffix that respects both the item bound and the byte bound (the newest entry always survives).
 A pop removes the longest prefix that respects the limits of one request (one entry at least).
 The class `RingBuffer.Buffer` is proved against these definitions.
 */
module RingSpec {

  /** The byte cost of an entry; the buffer clamps estimates to at least one. */
  type Size = n: int | 1 <= n witness 1

  datatype Entry<T> = Entry(item: T, size: Size)

  /** The items of a run of entries, without their sizes. */
  function Items<T>(s: seq<Entry<T>>): (r: seq<T>)
    ensures |r| == |s| && forall i :: 0 <= i < |s| ==> r[i] == s[i].item
  {
    seq(|s|, i requires 0 <= i < |s| => s[i].item)
  }

  /** The estimated size of a run of entries. */
  function Total<T>(s: seq<Entry<T>>): nat {
    if s == [] then 0 else s[0].size + Total(s[1..])
  }

  lemma {:induction false} TotalOfConcat<T>(a: seq<Entry<T>>, b: seq<Entry<T>>)
    ensures Total(a + b) == Total(a) + Total(b)
  {
    if a == [] {
      assert a + b == b;
    } else {
      TotalOfConcat(a[1..], b);
      assert (a + b)[1..] == a[1..] + b;
    }
  }

  lemma TotalOfAppend<T>(s: seq<Entry<T>>, e: Entry<T>)
    ensures Total(s + [e]) == Total(s) + e.size
  {
    TotalOfConcat(s, [e]);
  }

  lemma TotalSplit<T>(s: seq<Entry<T>>, k: nat)
    requires k <= |s|
    ensures Total(s) == Total(s[..k]) + Total(s[k..])
  {
    TotalOfConcat(s[..k], s[k..]);
    assert s == s[..k] + s[k..];
  }

  // ---------------------------------------------------------------- pushing

  /** Within both bounds of the buffer. */
  predicate Fits<T>(s: seq<Entry<T>>, maxItems: int, maxBytes: int) {
    |s| <= maxItems && Total(s) <= maxBytes
  }

  /** Where the longest suffix that fits begins, or the index of the newest entry if none fits. */
  function FirstFit<T>(s: seq<Entry<T>>, maxItems: int, maxBytes: int): (k: nat)
    requires s != []
    ensures k < |s|
    ensures Fits(s[k..], maxItems, maxBytes) || k == |s| - 1
    ensures forall j :: 0 <= j < k ==> !Fits(s[j..], maxItems, maxBytes)
  {
    if |s| == 1 || Fits(s, maxItems, maxBytes) then
      assert s[0..] == s;
      0
    else
      var k := 1 + FirstFit(s[1..], maxItems, maxBytes);
      assert s[k..] == s[1..][k - 1..];
      assert forall j :: 1 <= j < k ==> s[j..] == s[1..][j - 1..];
      assert s[0..] == s;
      k
  }

  /** The properties `FirstFit` promises determine it. */
  lemma FirstFitIsUnique<T>(s: seq<Entry<T>>, maxItems: int, maxBytes: int, k: nat)
    requires k < |s|
    requires Fits(s[k..], maxItems, maxBytes) || k == |s| - 1
    requires forall j :: 0 <= j < k ==> !Fits(s[j..], maxItems, maxBytes)
    ensures k == FirstFit(s, maxItems, maxBytes)
  {
  }

  lemma SuffixFits<T>(s: seq<Entry<T>>, k: nat, maxItems: int, maxBytes: int)
    requires k <= |s| && Fits(s, maxItems, maxBytes)
    ensures Fits(s[k..], maxItems, maxBytes)
  {
    TotalSplit(s, k);
  }

  /** Entries already gone from the front change the outcome only by being gone. */
  lemma {:induction false} FirstFitOfSuffix<T>(s: seq<Entry<T>>, k: nat, maxItems: int, maxBytes: int)
    requires k < |s|
    ensures k + FirstFit(s[k..], maxItems, maxBytes) == Max(k, FirstFit(s, maxItems, maxBytes))
  {
    if k == 0 {
      assert s[0..] == s;
    } else if Fits(s, maxItems, maxBytes) {
      SuffixFits(s, k, maxItems, maxBytes);
    } else {
      FirstFitOfSuffix(s[1..], k - 1, maxItems, maxBytes);
      assert s[1..][k - 1..] == s[k..];
    }
  }

  function Max(a: int, b: int): int {
    if a < b then b else a
  }

  /** The entries that survive a push of the last entry of `s`. */
  function NewestFit<T>(s: seq<Entry<T>>, maxItems: int, maxBytes: int): seq<Entry<T>>
    requires s != []
  {
    s[FirstFit(s, maxItems, maxBytes)..]
  }

  /**
   A push evicts only under force: nothing while both bounds hold, and otherwise not one entry more than it
   takes to meet both, the newest entry excepted.
   */
  lemma EvictsUnderForce<T>(s: seq<Entry<T>>, maxItems: int, maxBytes: int)
    requires s != []
    ensures var k := FirstFit(s, maxItems, maxBytes);
            && (k == 0 <==> |s| == 1 || (|s| <= maxItems && Total(s) <= maxBytes))
            && (k > 0 ==> |s| - (k - 1) > maxItems || Total(s[k - 1..]) > maxBytes)
            && (k < |s| - 1 ==> |s| - k <= maxItems && Total(s[k..]) <= maxBytes)
  {
    hide Total;
    var k := FirstFit(s, maxItems, maxBytes);
    assert s[0..] == s;
    if k > 0 {
      assert !Fits(s[k - 1..], maxItems, maxBytes);
      assert !Fits(s[0..], maxItems, maxBytes);
    }
  }

  // ---------------------------------------------------------------- popping

  /** A group of entries that one request may carry; a non-positive limit is ignored. */
  predicate Sendable<T>(g: seq<Entry<T>>, maxItems: int, maxBytes: int) {
    && g != []
    && (maxItems > 0 ==> |g| <= maxItems)
    && (maxBytes > 0 ==> Total(g) <= maxBytes || |g| == 1)
  }

  /** The length of the longest sendable prefix; zero only for the empty buffer. */
  function BatchLen<T>(s: seq<Entry<T>>, maxItems: int, maxBytes: int): (n: nat)
    ensures n <= |s| && (n == 0 <==> s == [])
    ensures s != [] ==> Sendable(s[..n], maxItems, maxBytes)
    ensures forall m :: n < m <= |s| ==> !Sendable(s[..m], maxItems, maxBytes)
  {
    if s == [] then 0 else LongestFrom(s, |s|, maxItems, maxBytes)
  }

  function LongestFrom<T>(s: seq<Entry<T>>, k: nat, maxItems: int, maxBytes: int): (n: nat)
    requires 1 <= k <= |s|
    ensures 1 <= n <= k && Sendable(s[..n], maxItems, maxBytes)
    ensures forall m :: n < m <= k ==> !Sendable(s[..m], maxItems, maxBytes)
  {
    if k == 1 || Sendable(s[..k], maxItems, maxBytes) then k else LongestFrom(s, k - 1, maxItems, maxBytes)
  }

  /** A contiguous part of a sendable group is sendable. */
  lemma SendableWithin<T>(s: seq<Entry<T>>, a: nat, b: nat, c: nat, maxItems: int, maxBytes: int)
    requires a <= b < c <= |s| && Sendable(s[a..c], maxItems, maxBytes)
    ensures Sendable(s[b..c], maxItems, maxBytes)
  {
    TotalSplit(s[a..c], b - a);
    assert s[a..c][b - a..] == s[b..c];
  }

  lemma SendablePrefix<T>(s: seq<Entry<T>>, m: nat, n: nat, maxItems: int, maxBytes: int)
    requires 1 <= m <= n <= |s| && Sendable(s[..n], maxItems, maxBytes)
    ensures Sendable(s[..m], maxItems, maxBytes)
  {
    TotalSplit(s[..n], m);
    assert s[..n][..m] == s[..m];
  }

  /** A prefix is sendable exactly when it is non-empty and no longer than the batch. */
  lemma BatchLenIsThreshold<T>(s: seq<Entry<T>>, m: nat, maxItems: int, maxBytes: int)
    requires 1 <= m <= |s|
    ensures Sendable(s[..m], maxItems, maxBytes) <==> m <= BatchLen(s, maxItems, maxBytes)
  {
    var n := BatchLen(s, maxItems, maxBytes);
    if m <= n {
      SendablePrefix(s, m, n, maxItems, maxBytes);
    }
  }

  /**
   A pop takes no more than the limits allow, one entry excepted, and stops only where one of them would be
   broken by the next entry.
   */
  lemma PopsUpToTheLimits<T>(s: seq<Entry<T>>, maxItems: int, maxBytes: int)
    ensures var n := BatchLen(s, maxItems, maxBytes);
            && (maxItems > 0 ==> n <= maxItems)
            && (maxBytes > 0 ==> Total(s[..n]) <= maxBytes || n == 1)
            && (n < |s| ==> (maxItems > 0 && n == maxItems) || (maxBytes > 0 && Total(s[..n + 1]) > maxBytes))
  {
    hide Total;
    var n := BatchLen(s, maxItems, maxBytes);
    if n < |s| {
      BatchLenIsThreshold(s, n + 1, maxItems, maxBytes);
    } else if s == [] {
      NoTotal(s[..n]);
    }
  }

  lemma NoTotal<T>(s: seq<Entry<T>>)
    requires s == []
    ensures Total(s) == 0
  {
  }

  // ---------------------------------------------------------------- backing capacity

  const MIN_INITIAL_CAP := 8

  /** The capacity after one growth step: doubled, at least eight, never above the item bound. */
  function GrownCap(cap: nat, maxItems: int): int {
    var c := Max(cap * 2, MIN_INITIAL_CAP);
    if c > maxItems then maxItems else c
  }

  /** A push grows the backing arrays only when they are full and may still grow. */
  predicate MustGrow(count: nat, cap: nat, maxItems: int) {
    count == cap && count < maxItems
  }
}
