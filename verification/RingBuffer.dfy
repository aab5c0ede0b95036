/**
 The circular buffer itself: two parallel arrays that wrap around, a head index, a count and a
 running byte total, with a backing store that grows by doubling.
 */
module RingBuffer {
  import opened RingSpec
  import opened Wrappers

  lemma ReducedOnce(x: int, n: int)
    requires 0 <= x < 2 * n
    ensures x % n == if x < n then x else x - n
  {
    if x >= n {
      assert x == n + (x - n);
      assert (n + (x - n)) % n == (x - n) % n;
    }
  }

  /** An index reduced by the capacity; one subtraction is all the reduction ever does. */
  function WrapAround(x: int, n: int): (r: int)
    requires 0 <= x < 2 * n
    ensures r == if x < n then x else x - n
  {
    ReducedOnce(x, n);
    x % n
  }

  /** The array slot of the i-th oldest entry. */
  function Slot(head: int, i: int, cap: int): int {
    if head + i < cap then head + i else head + i - cap
  }

  class Buffer<T> {
    var buf: array<T>
    var sz: array<int>
    var head: int
    var count: int
    var bytes: int
    /** The entries moved by growth steps so far. */
    ghost var copied: nat
    const maxItems: int
    const maxBytes: int
    const sizeOf: T -> int
    /** What a released slot is overwritten with. */
    const zero: T

    /** The arrays agree in length and never exceed the item bound; every live slot has a positive size. */
    ghost predicate Shape()
      reads this, buf, sz
    {
      && (buf as object) != (sz as object)
      && buf.Length == sz.Length <= maxItems
      && 0 <= count <= buf.Length
      && 0 <= head <= buf.Length && (buf.Length > 0 ==> head < buf.Length)
      && 1 <= maxItems && 1 <= maxBytes
      && (forall i :: 0 <= i < count ==> sz[Slot(head, i, buf.Length)] >= 1)
      && (forall i :: count <= i < buf.Length ==> buf[Slot(head, i, buf.Length)] == zero)
    }

    /** The entries held, oldest first. */
    ghost function Contents(): (s: seq<Entry<T>>)
      requires Shape()
      reads this, buf, sz
      ensures |s| == count
    {
      seq(count, i requires 0 <= i < count && Shape() reads this, buf, sz =>
        Entry(buf[Slot(head, i, buf.Length)], sz[Slot(head, i, buf.Length)]))
    }

    /** Between calls the byte total is exact and over budget only for a single entry. */
    ghost predicate Valid()
      reads this, buf, sz
    {
      && Shape()
      && bytes == Total(Contents())
      && (bytes <= maxBytes || count == 1)
    }

    constructor (maxItems: int, maxBytes: int, sizeOf: Option<T -> int>, zero: T)
      ensures Valid() && fresh(buf) && fresh(sz)
      ensures Contents() == [] && buf.Length == 0 && copied == 0 && this.zero == zero
      ensures this.maxItems == if maxItems <= 0 then 1 else maxItems
      ensures this.maxBytes == if maxBytes <= 0 then 0x4000_0000_0000_0000 else maxBytes
      ensures sizeOf.Some? ==> this.sizeOf == sizeOf.value
      ensures sizeOf.None? ==> forall x: T :: this.sizeOf(x) == 1
    {
      this.maxItems := if maxItems <= 0 then 1 else maxItems;
      this.maxBytes := if maxBytes <= 0 then 0x4000_0000_0000_0000 else maxBytes;
      var uniform: T -> int := (_: T) => 1;
      if sizeOf.Some? {
        this.sizeOf := sizeOf.value;
      } else {
        this.sizeOf := uniform;
      }
      this.zero := zero;
      buf := new T[0];
      sz := new int[0];
      head, count, bytes, copied := 0, 0, 0, 0;
    }

    /** The entry a pushed item becomes: its estimate, clamped to at least one byte. */
    function EntryOf(item: T): (e: Entry<T>)
      ensures e.item == item && e.size >= sizeOf(item) && (e.size == sizeOf(item) || e.size == 1)
    {
      Entry(item, Max(sizeOf(item), 1))
    }

    /** Removes the head entry and overwrites its slot, so that nothing keeps the item alive. */
    method PopOldest()
      requires Shape() && count > 0
      modifies this`head, this`count, this`bytes, buf
      ensures Shape() && Contents() == old(Contents())[1..]
      ensures bytes == old(bytes) - old(Contents())[0].size
      ensures buf == old(buf) && sz == old(sz) && buf[old(head)] == zero
    {
      hide WrapAround;
      ghost var was := Contents();
      bytes := bytes - sz[head];
      buf[head] := zero;
      head := WrapAround(head + 1, buf.Length);
      count := count - 1;
      assert forall i :: 0 <= i < count ==> Slot(head, i, buf.Length) == Slot(old(head), i + 1, buf.Length);
      assert forall i :: count <= i < buf.Length - 1 ==>
               Slot(head, i, buf.Length) == Slot(old(head), i + 1, buf.Length);
      assert Slot(head, buf.Length - 1, buf.Length) == old(head);
      assert Contents() == was[1..];
    }

    /** Copies the live entries into new arrays, oldest first from index zero, each of them once. */
    method Relinearize(newCap: int) returns (newBuf: array<T>, newSz: array<int>, ghost copies: nat)
      requires Shape() && count <= newCap
      ensures fresh(newBuf) && fresh(newSz) && (newBuf as object) != (newSz as object)
      ensures newBuf.Length == newSz.Length == newCap
      ensures forall i :: 0 <= i < count ==> newBuf[i] == Contents()[i].item && newSz[i] == Contents()[i].size
      ensures forall i :: count <= i < newCap ==> newBuf[i] == zero
      ensures copies == count
    {
      hide WrapAround, Total;
      newBuf := new T[newCap](_ => zero);
      newSz := new int[newCap](_ => 0);
      copies := 0;
      for i := 0 to count
        invariant copies == i
        invariant forall j :: 0 <= j < i ==> newBuf[j] == Contents()[j].item && newSz[j] == Contents()[j].size
        invariant forall j :: i <= j < newCap ==> newBuf[j] == zero
      {
        var idx := WrapAround(head + i, buf.Length);
        newBuf[i] := buf[idx];
        newSz[i] := sz[idx];
        copies := copies + 1;
      }
    }

    /** Moves the contents, unchanged, into a strictly larger store that starts at index zero. */
    method Grow()
      requires Shape() && MustGrow(count, buf.Length, maxItems)
      modifies this`buf, this`sz, this`head, this`copied
      ensures Shape() && Contents() == old(Contents())
      ensures fresh(buf) && fresh(sz) && head == 0
      ensures buf.Length == GrownCap(old(buf.Length), maxItems)
      ensures buf.Length > old(buf.Length) && copied == old(copied) + count
    {
      var newCap := buf.Length * 2;
      if newCap < MIN_INITIAL_CAP {
        newCap := MIN_INITIAL_CAP;
      }
      if newCap > maxItems {
        newCap := maxItems;
      }
      ghost var was := Contents();
      var newBuf, newSz, copies := Relinearize(newCap);
      buf, sz, head, copied := newBuf, newSz, 0, copied + copies;
      assert forall i :: 0 <= i < newCap ==> Slot(head, i, buf.Length) == i;
      assert Contents() == was;
    }

    /** Writes one entry behind the newest; the first half of a push. */
    method Append(item: T, size: int)
      requires Shape() && count < buf.Length && size >= 1
      modifies this`count, this`bytes, buf, sz
      ensures Shape() && Contents() == old(Contents()) + [Entry(item, size)]
      ensures bytes == old(bytes) + size
    {
      hide WrapAround;
      ghost var was := Contents();
      var tail := WrapAround(head + count, buf.Length);
      buf[tail] := item;
      sz[tail] := size;
      count := count + 1;
      bytes := bytes + size;
      assert forall i :: 0 <= i < buf.Length && i != old(count) ==> Slot(head, i, buf.Length) != tail;
      assert Contents() == was + [Entry(item, size)];
    }

    /** Evicts oldest entries while the byte budget is exceeded, sparing the newest entry. */
    method EvictToBudget() returns (dropped: int)
      requires Shape() && count >= 1 && bytes == Total(Contents())
      modifies this`head, this`count, this`bytes, buf
      ensures Valid() && buf == old(buf) && sz == old(sz)
      ensures 0 <= dropped < |old(Contents())| && Contents() == old(Contents())[dropped..]
      ensures forall j :: 0 <= j < dropped ==> Total(old(Contents())[j..]) > maxBytes
    {
      dropped := 0;
      ghost var was := Contents();
      while bytes > maxBytes && count > 1
        invariant Shape() && buf == old(buf) && sz == old(sz)
        invariant 0 <= dropped < |was| && Contents() == was[dropped..] && bytes == Total(Contents())
        invariant forall j :: 0 <= j < dropped ==> Total(was[j..]) > maxBytes
        decreases count
      {
        assert was[dropped..][1..] == was[dropped + 1..];
        PopOldest();
        dropped := dropped + 1;
      }
    }

    /** Keeps the longest fitting suffix of the old contents and the item; never refuses the item. */
    method Push(item: T) returns (dropped: int)
      requires Valid()
      modifies this, buf, sz
      ensures Valid()
      ensures dropped == FirstFit(old(Contents()) + [EntryOf(item)], maxItems, maxBytes)
      ensures Contents() == NewestFit(old(Contents()) + [EntryOf(item)], maxItems, maxBytes)
      ensures buf.Length == if MustGrow(old(count), old(buf.Length), maxItems)
                            then GrownCap(old(buf.Length), maxItems) else old(buf.Length)
      ensures copied == if MustGrow(old(count), old(buf.Length), maxItems)
                        then old(copied) + old(count) else old(copied)
      ensures (buf == old(buf) && sz == old(sz)) || (fresh(buf) && fresh(sz))
    {
      hide Total, FirstFit, NewestFit, Fits;
      var size := sizeOf(item);
      if size < 1 {
        size := 1;
      }
      dropped := 0;
      ghost var was := Contents();
      if count == buf.Length && count < maxItems {
        Grow();
      }
      if count == maxItems {
        TakeNext(was, 0);
        PopOldest();
        dropped := dropped + 1;
      }
      ghost var first := dropped;
      ghost var kept := Contents();
      TotalOfAppend(kept, EntryOf(item));
      Append(item, size);
      var more := EvictToBudget();
      dropped := dropped + more;
      EvictionIsFirstFit(was, EntryOf(item), maxItems, maxBytes, first, more);
    }

    /** Returns the oldest item and removes it. */
    method TakeOldest() returns (item: T)
      requires Shape() && count > 0
      modifies this`head, this`count, this`bytes, buf
      ensures Shape() && Contents() == old(Contents())[1..] && item == old(Contents())[0].item
      ensures bytes == old(bytes) - old(Contents())[0].size
      ensures buf == old(buf) && sz == old(sz)
    {
      item := buf[head];
      PopOldest();
    }

    lemma HeadSize()
      requires Shape() && count > 0
      ensures 0 <= head < sz.Length && sz[head] == Contents()[0].size
    {
    }

    /** Removes and returns the longest prefix one request may carry. */
    method PopBatch(itemLimit: int, byteLimit: int) returns (out: seq<T>)
      requires Valid()
      modifies this`head, this`count, this`bytes, buf
      ensures Valid() && buf == old(buf) && sz == old(sz)
      ensures var n := BatchLen(old(Contents()), itemLimit, byteLimit);
              out == Items(old(Contents())[..n]) && Contents() == old(Contents())[n..]
    {
      hide Shape, Contents, Total, BatchLen, Items, HasTaken, Slot;
      ghost var was := Contents();
      ghost var n := BatchLen(was, itemLimit, byteLimit);
      HasTakenNone(was);
      if count == 0 {
        return [];
      }
      out := [];
      var batchBytes := 0;
      while count > 0
        invariant Shape() && buf == old(buf) && sz == old(sz)
        invariant |out| <= n && HasTaken(was, out, batchBytes)
        invariant Contents() == was[|out|..] && bytes == Total(Contents())
        invariant bytes <= maxBytes || count == 1
        decreases count
      {
        NextInBatch(was, out, batchBytes, itemLimit, byteLimit);
        if itemLimit > 0 && |out| >= itemLimit {
          break;
        }
        HeadSize();
        var s := sz[head];
        if |out| > 0 && byteLimit > 0 && batchBytes + s > byteLimit {
          break;
        }
        TakeNext(was, |out|);
        var item := TakeOldest();
        out := out + [item];
        batchBytes := batchBytes + s;
      }
      HasTakenAll(was, out, batchBytes);
    }

    /** Empties the buffer into a list that keeps the order of arrival. */
    method DrainAll() returns (out: seq<T>)
      requires Valid()
      modifies this`head, this`count, this`bytes, buf
      ensures Valid() && buf == old(buf) && sz == old(sz)
      ensures out == Items(old(Contents())) && Contents() == []
    {
      if count == 0 {
        return [];
      }
      out := [];
      ghost var was := Contents();
      while count > 0
        invariant Shape() && buf == old(buf) && sz == old(sz)
        invariant |out| <= |was| && Contents() == was[|out|..] && out == Items(was[..|out|])
        invariant bytes == Total(Contents()) && (bytes <= maxBytes || count == 1)
        decreases count
      {
        TakeNext(was, |out|);
        var item := TakeOldest();
        out := out + [item];
      }
      assert was[..|out|] == was;
    }

    method Len() returns (n: int)
      requires Valid()
      ensures n == |Contents()| <= maxItems
    {
      n := count;
    }

    method Bytes() returns (n: int)
      requires Valid()
      ensures n == Total(Contents()) && (n <= maxBytes || |Contents()| == 1)
    {
      n := bytes;
    }
  }

  /** Evicting for the item bound first and for the byte bound second reaches the longest fitting suffix. */
  lemma EvictionIsFirstFit<T>(was: seq<Entry<T>>, e: Entry<T>, maxItems: int, maxBytes: int, first: int, more: int)
    requires 1 <= maxItems && |was| <= maxItems
    requires first == if |was| == maxItems then 1 else 0
    requires var kept := was[first..] + [e];
             && 0 <= more < |kept|
             && (Total(kept[more..]) <= maxBytes || more == |kept| - 1)
             && forall j :: 0 <= j < more ==> Total(kept[j..]) > maxBytes
    ensures first + more == FirstFit(was + [e], maxItems, maxBytes)
    ensures (was[first..] + [e])[more..] == NewestFit(was + [e], maxItems, maxBytes)
  {
    var all, kept := was + [e], was[first..] + [e];
    assert kept == all[first..];
    assert kept[more..] == all[first + more..];
    forall j | 0 <= j < first + more
      ensures !Fits(all[j..], maxItems, maxBytes)
    {
      EarlierSuffixIsTooBig(all, kept, maxItems, maxBytes, first, more, j);
    }
    FirstFitIsUnique(all, maxItems, maxBytes, first + more);
  }

  lemma EarlierSuffixIsTooBig<T>(all: seq<Entry<T>>, kept: seq<Entry<T>>, maxItems: int, maxBytes: int,
                                 first: int, more: int, j: int)
    requires first == (if |all| == maxItems + 1 then 1 else 0) && first <= |all| && kept == all[first..]
    requires 0 <= j < first + more && 0 <= more < |kept|
    requires forall j :: 0 <= j < more ==> Total(kept[j..]) > maxBytes
    ensures !Fits(all[j..], maxItems, maxBytes)
  {
    if j >= first {
      assert kept[j - first..] == all[j..];
    }
  }

  /** Moving one entry from the front of what is left to the end of what was taken. */
  lemma TakeNext<T>(s: seq<Entry<T>>, k: nat)
    requires k < |s|
    ensures Items(s[..k + 1]) == Items(s[..k]) + [s[k].item]
    ensures s[k..][1..] == s[k + 1..]
    ensures Total(s[k..]) == s[k].size + Total(s[k + 1..])
  {
    assert s[k..][1..] == s[k + 1..];
    assert s[..k + 1] == s[..k] + [s[k]];
  }

  /** What a pop has collected so far, and its size. */
  ghost predicate HasTaken<T>(s: seq<Entry<T>>, out: seq<T>, size: int) {
    |out| <= |s| && out == Items(s[..|out|]) && size == Total(s[..|out|])
  }

  lemma HasTakenNone<T>(s: seq<Entry<T>>)
    ensures HasTaken(s, [], 0) && Items(s[..0]) == [] && s[0..] == s
  {
  }

  lemma HasTakenAll<T>(s: seq<Entry<T>>, out: seq<T>, size: int)
    requires HasTaken(s, out, size)
    ensures out == Items(s[..|out|])
  {
  }

  /** One more entry fits the batch exactly when neither limit of the pop loop triggers. */
  lemma NextInBatch<T>(s: seq<Entry<T>>, out: seq<T>, size: int, itemLimit: int, byteLimit: int)
    requires HasTaken(s, out, size)
    requires |out| < |s| && |out| <= BatchLen(s, itemLimit, byteLimit)
    ensures |out| < BatchLen(s, itemLimit, byteLimit)
            <==> !(itemLimit > 0 && |out| >= itemLimit)
                 && !(|out| > 0 && byteLimit > 0 && size + s[|out|].size > byteLimit)
    ensures HasTaken(s, out + [s[|out|].item], size + s[|out|].size)
  {
    var k := |out|;
    assert s[..k + 1] == s[..k] + [s[k]];
    TotalOfAppend(s[..k], s[k]);
    TakeNext(s, k);
    BatchLenIsThreshold(s, k + 1, itemLimit, byteLimit);
  }
}
