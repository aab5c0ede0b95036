/**
 The attribute sanitizer: a depth-bounded walk over an arbitrary Go value graph, which may be cyclic
 through maps, slices and pointers.
 */
module Sanitizer {
  import opened Wrappers

  const MAX_DEPTH := 10

  /** A value the sanitizer passes through: text, a boolean or a number. */
  datatype Scalar = Text(s: string) | Bool(b: bool) | Number(kind: string, value: real)

  /**
   A Go value as the sanitizer sees it, by the first case that applies: nil, a built-in scalar, an error
   or Stringer with its text, a map, a slice or array, a pointer, or anything else.
   */
  datatype Value<!R> =
    | Nil
    | Basic(scalar: Scalar)
    | Described(text: string)
    | Table(ref: R)
    | List(ref: R)
    | NilPointer
    | Pointer(ref: R)
    | Other(id: int)

  /**
   What references lead to: the entries of a map in iteration order, with their keys as text (different
   keys of a typed map may share a text), the elements of a slice, and the target of a pointer.  `show` is
   the text of the default format, which leaves a string as it is and is None for a value on which it does
   not end.
   */
  datatype Heap<!R> = Heap(
    entries: R -> seq<(string, Value<R>)>,
    elements: R -> seq<Value<R>>,
    target: R -> Value<R>,
    show: Value<R> -> Option<string>)

  ghost predicate ValidHeap<R(!new)>(h: Heap<R>) {
    forall s :: h.show(Basic(Text(s))) == Some(s)
  }

  datatype Json = JNull | JScalar(scalar: Scalar) | JTable(fields: map<string, Json>) | JList(items: seq<Json>)

  // ---------------------------------------------------------------- pointer chains

  /** The value after at most `n` dereferences. */
  ghost function Deref<R>(h: Heap<R>, v: Value<R>, n: nat): Value<R>
    decreases n
  {
    if n > 0 && v.Pointer? then Deref(h, h.target(v.ref), n - 1) else v
  }

  /** The chain of pure pointers that begins at `v` is finite. */
  ghost predicate Grounded<R>(h: Heap<R>, v: Value<R>) {
    exists n: nat :: !Deref(h, v, n).Pointer?
  }

  /** The number of pointers in front of the first value that is none, found within `n` steps. */
  ghost function HopsWithin<R>(h: Heap<R>, v: Value<R>, n: nat): nat
    decreases n
  {
    if n > 0 && v.Pointer? then 1 + HopsWithin(h, h.target(v.ref), n - 1) else 0
  }

  lemma {:induction false} HopsAgree<R>(h: Heap<R>, v: Value<R>, m: nat, n: nat)
    requires !Deref(h, v, m).Pointer? && !Deref(h, v, n).Pointer?
    ensures HopsWithin(h, v, m) == HopsWithin(h, v, n) && Deref(h, v, m) == Deref(h, v, n)
    decreases m
  {
    if v.Pointer? {
      HopsAgree(h, h.target(v.ref), m - 1, n - 1);
    }
  }

  ghost function Hops<R>(h: Heap<R>, v: Value<R>): nat
    requires Grounded(h, v)
  {
    var n: nat :| !Deref(h, v, n).Pointer?;
    HopsWithin(h, v, n)
  }

  /** The first value of the chain that is no pointer. */
  ghost function Base<R>(h: Heap<R>, v: Value<R>): (w: Value<R>)
    requires Grounded(h, v)
    ensures !w.Pointer?
  {
    var n: nat :| !Deref(h, v, n).Pointer?;
    Deref(h, v, n)
  }

  lemma ChainStep<R>(h: Heap<R>, v: Value<R>)
    requires v.Pointer?
    ensures Grounded(h, v) <==> Grounded(h, h.target(v.ref))
    ensures Grounded(h, v) ==> Hops(h, v) == 1 + Hops(h, h.target(v.ref)) && Base(h, v) == Base(h, h.target(v.ref))
  {
    var t := h.target(v.ref);
    if Grounded(h, v) {
      var n: nat :| !Deref(h, v, n).Pointer?;
      assert !Deref(h, t, n - 1).Pointer?;
    }
    if Grounded(h, t) {
      var n: nat :| !Deref(h, t, n).Pointer?;
      assert !Deref(h, v, n + 1).Pointer?;
      var a: nat :| !Deref(h, v, a).Pointer? && Hops(h, v) == HopsWithin(h, v, a);
      var b: nat :| !Deref(h, t, b).Pointer? && Hops(h, t) == HopsWithin(h, t, b);
      HopsAgree(h, v, a, b + 1);
      var c: nat :| !Deref(h, v, c).Pointer? && Base(h, v) == Deref(h, v, c);
      var d: nat :| !Deref(h, t, d).Pointer? && Base(h, t) == Deref(h, t, d);
      HopsAgree(h, v, c, d + 1);
    }
  }

  lemma ChainEnd<R>(h: Heap<R>, v: Value<R>)
    requires !v.Pointer?
    ensures Grounded(h, v) && Base(h, v) == v && Hops(h, v) == 0
  {
    assert !Deref(h, v, 0).Pointer?;
  }

  /**
   The part of the graph the sanitizer can reach from `v` at this depth has only finite pointer chains, and
   the default format ends on what it is asked to show there.  For the sanitizer's own recursion cycles
   through maps and slices are no obstacle: the depth bound cuts them.
   */
  ghost predicate Walkable<R>(h: Heap<R>, v: Value<R>, depth: nat)
    decreases MAX_DEPTH - depth
  {
    if depth >= MAX_DEPTH then v.Nil? || h.show(v).Some?
    else
      Grounded(h, v) &&
      var w := Base(h, v);
      && (w.Other? ==> h.show(w).Some?)
      && (w.Table? ==> forall i :: 0 <= i < |h.entries(w.ref)| ==> Walkable(h, h.entries(w.ref)[i].1, depth + 1))
      && (w.List? ==> forall i :: 0 <= i < |h.elements(w.ref)| ==> Walkable(h, h.elements(w.ref)[i], depth + 1))
  }

  lemma WalkableTarget<R>(h: Heap<R>, v: Value<R>, depth: nat)
    requires v.Pointer? && depth < MAX_DEPTH
    ensures Walkable(h, v, depth) <==> Walkable(h, h.target(v.ref), depth)
  {
    ChainStep(h, v);
  }

  lemma WalkableHere<R>(h: Heap<R>, v: Value<R>, depth: nat)
    requires depth < MAX_DEPTH && !v.Pointer?
    ensures Walkable(h, v, depth) <==>
            && (v.Other? ==> h.show(v).Some?)
            && (v.Table? ==> forall i :: 0 <= i < |h.entries(v.ref)| ==> Walkable(h, h.entries(v.ref)[i].1, depth + 1))
            && (v.List? ==> forall i :: 0 <= i < |h.elements(v.ref)| ==> Walkable(h, h.elements(v.ref)[i], depth + 1))
  {
    ChainEnd(h, v);
  }

  /** The lexicographic measure of the recursion. */
  ghost function Chain<R>(h: Heap<R>, v: Value<R>): nat {
    if Grounded(h, v) then Hops(h, v) else 0
  }

  // ---------------------------------------------------------------- the walk

  /** The sanitized form of `v`. */
  function Sanitized<R>(h: Heap<R>, v: Value<R>, depth: nat): Json
    requires Walkable(h, v, depth)
    decreases MAX_DEPTH - depth, Chain(h, v), 1, 0
  {
    if v.Nil? then JNull
    else if depth >= MAX_DEPTH then JScalar(Text(h.show(v).value))
    else
      match v
      case Basic(s) => JScalar(s)
      case Described(text) => JScalar(Text(text))
      case Table(ref) =>
        WalkableHere(h, v, depth);
        JTable(SanitizedEntries(h, h.entries(ref), depth + 1))
      case List(ref) =>
        WalkableHere(h, v, depth);
        JList(SanitizedElements(h, h.elements(ref), depth + 1))
      case NilPointer => JNull
      case Pointer(ref) =>
        WalkableTarget(h, v, depth);
        ChainStep(h, v);
        Sanitized(h, h.target(ref), depth)
      case Other(_) =>
        WalkableHere(h, v, depth);
        JScalar(Text(h.show(v).value))
  }

  /** Later entries overwrite earlier ones with the same key. */
  function SanitizedEntries<R>(h: Heap<R>, es: seq<(string, Value<R>)>, depth: nat): map<string, Json>
    requires depth <= MAX_DEPTH && forall i :: 0 <= i < |es| ==> Walkable(h, es[i].1, depth)
    decreases MAX_DEPTH - depth + 1, 0, 0, |es|
  {
    if es == [] then map[]
    else
      var n := |es| - 1;
      SanitizedEntries(h, es[..n], depth)[es[n].0 := Sanitized(h, es[n].1, depth)]
  }

  function SanitizedElements<R>(h: Heap<R>, vs: seq<Value<R>>, depth: nat): (r: seq<Json>)
    requires depth <= MAX_DEPTH && forall i :: 0 <= i < |vs| ==> Walkable(h, vs[i], depth)
    ensures |r| == |vs|
    decreases MAX_DEPTH - depth + 1, 0, 0, |vs|
  {
    if vs == [] then []
    else
      var n := |vs| - 1;
      SanitizedElements(h, vs[..n], depth) + [Sanitized(h, vs[n], depth)]
  }

  /** Converts a value; calls itself on elements one level deeper and on the target of a pointer. */
  method SanitizeValue<R>(h: Heap<R>, v: Value<R>, depth: nat) returns (j: Json)
    requires Walkable(h, v, depth)
    ensures j == Sanitized(h, v, depth)
    decreases MAX_DEPTH - depth, Chain(h, v), 1, 0
  {
    if v.Nil? {
      return JNull;
    }
    if depth >= MAX_DEPTH {
      return JScalar(Text(h.show(v).value));
    }
    match v {
      case Basic(s) =>
        j := JScalar(s);
      case Described(text) =>
        j := JScalar(Text(text));
      case Table(ref) =>
        WalkableHere(h, v, depth);
        var out := SanitizeEntries(h, h.entries(ref), depth + 1);
        j := JTable(out);
      case List(ref) =>
        WalkableHere(h, v, depth);
        var out := SanitizeElements(h, h.elements(ref), depth + 1);
        j := JList(out);
      case NilPointer =>
        j := JNull;
      case Pointer(ref) =>
        WalkableTarget(h, v, depth);
        ChainStep(h, v);
        j := SanitizeValue(h, h.target(ref), depth);
      case Other(_) =>
        WalkableHere(h, v, depth);
        j := JScalar(Text(h.show(v).value));
    }
  }

  /** The loop over the entries of a map. */
  method SanitizeEntries<R>(h: Heap<R>, es: seq<(string, Value<R>)>, depth: nat) returns (out: map<string, Json>)
    requires depth <= MAX_DEPTH && forall i :: 0 <= i < |es| ==> Walkable(h, es[i].1, depth)
    ensures out == SanitizedEntries(h, es, depth)
    decreases MAX_DEPTH - depth + 1, 0, 0, |es|
  {
    hide Sanitized, Walkable;
    out := map[];
    for i := 0 to |es|
      invariant out == SanitizedEntries(h, es[..i], depth)
    {
      assert es[..i + 1][..i] == es[..i];
      var item := SanitizeValue(h, es[i].1, depth);
      out := out[es[i].0 := item];
    }
    assert es[..|es|] == es;
  }

  /** The loop over the elements of a slice or an array. */
  method SanitizeElements<R>(h: Heap<R>, vs: seq<Value<R>>, depth: nat) returns (out: seq<Json>)
    requires depth <= MAX_DEPTH && forall i :: 0 <= i < |vs| ==> Walkable(h, vs[i], depth)
    ensures out == SanitizedElements(h, vs, depth)
    decreases MAX_DEPTH - depth + 1, 0, 0, |vs|
  {
    hide Sanitized, Walkable;
    out := [];
    for i := 0 to |vs|
      invariant out == SanitizedElements(h, vs[..i], depth)
    {
      assert vs[..i + 1][..i] == vs[..i];
      var item := SanitizeValue(h, vs[i], depth);
      out := out + [item];
    }
    assert vs[..|vs|] == vs;
  }

  /** The snapshot of an attribute bag; an empty bag has none. */
  method SanitizeAttributes<R>(h: Heap<R>, bag: seq<(string, Value<R>)>) returns (out: Option<map<string, Json>>)
    requires forall i :: 0 <= i < |bag| ==> Walkable(h, bag[i].1, 0)
    ensures out == if bag == [] then None else Some(SanitizedEntries(h, bag, 0))
  {
    if |bag| == 0 {
      return None;
    }
    var m := SanitizeEntries(h, bag, 0);
    out := Some(m);
  }

  // ---------------------------------------------------------------- when the walk ends

  /** What the default format makes of a value, if it ends. */
  function Shown<R>(h: Heap<R>, v: Value<R>): Option<Json> {
    if h.show(v).Some? then Some(JScalar(Text(h.show(v).value))) else None
  }

  /** The same walk with at most `fuel` nested calls; None when that is not enough. */
  function Walk<R>(h: Heap<R>, v: Value<R>, depth: nat, fuel: nat): Option<Json>
    decreases fuel, 0
  {
    if fuel == 0 then None
    else if v.Nil? then Some(JNull)
    else if depth >= MAX_DEPTH then Shown(h, v)
    else
      match v
      case Basic(s) => Some(JScalar(s))
      case Described(text) => Some(JScalar(Text(text)))
      case Table(ref) =>
        var r := WalkEntries(h, h.entries(ref), depth + 1, fuel - 1);
        if r.Some? then Some(JTable(r.value)) else None
      case List(ref) =>
        var r := WalkElements(h, h.elements(ref), depth + 1, fuel - 1);
        if r.Some? then Some(JList(r.value)) else None
      case NilPointer => Some(JNull)
      case Pointer(ref) => Walk(h, h.target(ref), depth, fuel - 1)
      case Other(_) => Shown(h, v)
  }

  function WalkEntries<R>(h: Heap<R>, es: seq<(string, Value<R>)>, depth: nat, fuel: nat): Option<map<string, Json>>
    decreases fuel, 1 + |es|
  {
    if es == [] then Some(map[])
    else
      var n := |es| - 1;
      var before, last := WalkEntries(h, es[..n], depth, fuel), Walk(h, es[n].1, depth, fuel);
      if before.Some? && last.Some? then Some(before.value[es[n].0 := last.value]) else None
  }

  function WalkElements<R>(h: Heap<R>, vs: seq<Value<R>>, depth: nat, fuel: nat): Option<seq<Json>>
    decreases fuel, 1 + |vs|
  {
    if vs == [] then Some([])
    else
      var n := |vs| - 1;
      var before, last := WalkElements(h, vs[..n], depth, fuel), Walk(h, vs[n], depth, fuel);
      if before.Some? && last.Some? then Some(before.value + [last.value]) else None
  }

  /** The recursion ends. */
  ghost predicate Halts<R>(h: Heap<R>, v: Value<R>, depth: nat) {
    exists fuel: nat :: Walk(h, v, depth, fuel).Some?
  }

  /** A walk that ends has met finite chains only, and its result is the sanitized form. */
  lemma {:induction false} EndedWalk<R>(h: Heap<R>, v: Value<R>, depth: nat, fuel: nat)
    requires Walk(h, v, depth, fuel).Some?
    ensures Walkable(h, v, depth) && Walk(h, v, depth, fuel).value == Sanitized(h, v, depth)
    decreases fuel, 0
  {
    if v.Nil? || depth >= MAX_DEPTH {
      if !v.Pointer? {
        ChainEnd(h, v);
      }
    } else {
      match v
      case Table(ref) =>
        EndedEntries(h, h.entries(ref), depth + 1, fuel - 1);
        WalkableHere(h, v, depth);
      case List(ref) =>
        EndedElements(h, h.elements(ref), depth + 1, fuel - 1);
        WalkableHere(h, v, depth);
      case Pointer(ref) =>
        EndedWalk(h, h.target(ref), depth, fuel - 1);
        WalkableTarget(h, v, depth);
      case Other(_) =>
        WalkableHere(h, v, depth);
      case _ =>
        ChainEnd(h, v);
    }
  }

  lemma {:induction false} EndedEntries<R>(h: Heap<R>, es: seq<(string, Value<R>)>, depth: nat, fuel: nat)
    requires depth <= MAX_DEPTH && WalkEntries(h, es, depth, fuel).Some?
    ensures forall i :: 0 <= i < |es| ==> Walkable(h, es[i].1, depth)
    ensures WalkEntries(h, es, depth, fuel).value == SanitizedEntries(h, es, depth)
    decreases fuel, 1 + |es|
  {
    if es != [] {
      var n := |es| - 1;
      EndedEntries(h, es[..n], depth, fuel);
      EndedWalk(h, es[n].1, depth, fuel);
      forall i | 0 <= i < |es|
        ensures Walkable(h, es[i].1, depth)
      {
        assert i < n ==> es[i] == es[..n][i];
      }
    }
  }

  lemma {:induction false} EndedElements<R>(h: Heap<R>, vs: seq<Value<R>>, depth: nat, fuel: nat)
    requires depth <= MAX_DEPTH && WalkElements(h, vs, depth, fuel).Some?
    ensures forall i :: 0 <= i < |vs| ==> Walkable(h, vs[i], depth)
    ensures WalkElements(h, vs, depth, fuel).value == SanitizedElements(h, vs, depth)
    decreases fuel, 1 + |vs|
  {
    if vs != [] {
      var n := |vs| - 1;
      EndedElements(h, vs[..n], depth, fuel);
      EndedWalk(h, vs[n], depth, fuel);
      forall i | 0 <= i < |vs|
        ensures Walkable(h, vs[i], depth)
      {
        assert i < n ==> vs[i] == vs[..n][i];
      }
    }
  }

  /** More fuel changes nothing. */
  lemma {:induction false} MoreFuel<R>(h: Heap<R>, v: Value<R>, depth: nat, f: nat, g: nat)
    requires Walk(h, v, depth, f).Some? && f <= g
    ensures Walk(h, v, depth, g).Some?
    decreases f, 0
  {
    if !v.Nil? && depth < MAX_DEPTH {
      match v
      case Table(ref) => MoreFuelEntries(h, h.entries(ref), depth + 1, f - 1, g - 1);
      case List(ref) => MoreFuelElements(h, h.elements(ref), depth + 1, f - 1, g - 1);
      case Pointer(ref) => MoreFuel(h, h.target(ref), depth, f - 1, g - 1);
      case _ =>
    }
  }

  lemma {:induction false} MoreFuelEntries<R>(h: Heap<R>, es: seq<(string, Value<R>)>, depth: nat, f: nat, g: nat)
    requires WalkEntries(h, es, depth, f).Some? && f <= g
    ensures WalkEntries(h, es, depth, g).Some?
    decreases f, 1 + |es|
  {
    if es != [] {
      MoreFuelEntries(h, es[..|es| - 1], depth, f, g);
      MoreFuel(h, es[|es| - 1].1, depth, f, g);
    }
  }

  lemma {:induction false} MoreFuelElements<R>(h: Heap<R>, vs: seq<Value<R>>, depth: nat, f: nat, g: nat)
    requires WalkElements(h, vs, depth, f).Some? && f <= g
    ensures WalkElements(h, vs, depth, g).Some?
    decreases f, 1 + |vs|
  {
    if vs != [] {
      MoreFuelElements(h, vs[..|vs| - 1], depth, f, g);
      MoreFuel(h, vs[|vs| - 1], depth, f, g);
    }
  }

  lemma {:induction false} WalkableHalts<R>(h: Heap<R>, v: Value<R>, depth: nat) returns (fuel: nat)
    requires Walkable(h, v, depth)
    ensures Walk(h, v, depth, fuel).Some?
    decreases MAX_DEPTH - depth, Chain(h, v), 1, 0
  {
    fuel := 1;
    if !v.Nil? && depth < MAX_DEPTH {
      match v
      case Table(ref) =>
        WalkableHere(h, v, depth);
        var f := EntriesHalt(h, h.entries(ref), depth + 1);
        fuel := f + 1;
      case List(ref) =>
        WalkableHere(h, v, depth);
        var f := ElementsHalt(h, h.elements(ref), depth + 1);
        fuel := f + 1;
      case Pointer(ref) =>
        WalkableTarget(h, v, depth);
        ChainStep(h, v);
        var f := WalkableHalts(h, h.target(ref), depth);
        fuel := f + 1;
      case Other(_) =>
        WalkableHere(h, v, depth);
      case _ =>
    }
  }

  lemma {:induction false} EntriesHalt<R>(h: Heap<R>, es: seq<(string, Value<R>)>, depth: nat) returns (fuel: nat)
    requires depth <= MAX_DEPTH && forall i :: 0 <= i < |es| ==> Walkable(h, es[i].1, depth)
    ensures WalkEntries(h, es, depth, fuel).Some?
    decreases MAX_DEPTH - depth + 1, 0, 0, |es|
  {
    fuel := 0;
    if es != [] {
      var n := |es| - 1;
      var f := EntriesHalt(h, es[..n], depth);
      var g := WalkableHalts(h, es[n].1, depth);
      fuel := f + g;
      MoreFuelEntries(h, es[..n], depth, f, fuel);
      MoreFuel(h, es[n].1, depth, g, fuel);
    }
  }

  lemma {:induction false} ElementsHalt<R>(h: Heap<R>, vs: seq<Value<R>>, depth: nat) returns (fuel: nat)
    requires depth <= MAX_DEPTH && forall i :: 0 <= i < |vs| ==> Walkable(h, vs[i], depth)
    ensures WalkElements(h, vs, depth, fuel).Some?
    decreases MAX_DEPTH - depth + 1, 0, 0, |vs|
  {
    fuel := 0;
    if vs != [] {
      var n := |vs| - 1;
      var f := ElementsHalt(h, vs[..n], depth);
      var g := WalkableHalts(h, vs[n], depth);
      fuel := f + g;
      MoreFuelElements(h, vs[..n], depth, f, fuel);
      MoreFuel(h, vs[n], depth, g, fuel);
    }
  }

  /**
   The walk ends exactly on graphs whose reachable pure-pointer chains are finite, however many cycles run
   through maps and slices, and on which the default format ends wherever the walk resorts to it.
   */
  lemma HaltsIffWalkable<R>(h: Heap<R>, v: Value<R>, depth: nat)
    ensures Halts(h, v, depth) <==> Walkable(h, v, depth)
  {
    if fuel: nat :| Walk(h, v, depth, fuel).Some? {
      EndedWalk(h, v, depth, fuel);
    }
    if Walkable(h, v, depth) {
      var fuel := WalkableHalts(h, v, depth);
    }
  }

  /** On a map that holds itself everything hangs on the default format of that map at the depth bound. */
  lemma {:induction false} SelfMapWalkable<R>(h: Heap<R>, r: R, k: string, depth: nat)
    requires h.entries(r) == [(k, Table(r))] && depth <= MAX_DEPTH
    ensures Walkable(h, Table(r), depth) <==> h.show(Table(r)).Some?
    decreases MAX_DEPTH - depth
  {
    if depth < MAX_DEPTH {
      WalkableHere(h, Table(r), depth);
      SelfMapWalkable(h, r, k, depth + 1);
      assert h.entries(r)[0].1 == Table(r);
    }
  }

  lemma SelfMapEndsIff<R>(h: Heap<R>, r: R, k: string)
    requires h.entries(r) == [(k, Table(r))]
    ensures Halts(h, Table(r), 0) <==> h.show(Table(r)).Some?
  {
    HaltsIffWalkable(h, Table(r), 0);
    SelfMapWalkable(h, r, k, 0);
  }

  /** A pointer to itself is never resolved. */
  lemma SelfPointerNeverEnds<R>(h: Heap<R>, r: R)
    requires h.target(r) == Pointer(r)
    ensures !Halts(h, Pointer(r), 0)
  {
    HaltsIffWalkable(h, Pointer(r), 0);
    forall n: nat
      ensures Deref(h, Pointer(r), n).Pointer?
    {
      SelfPointerStays(h, r, n);
    }
  }

  lemma {:induction false} SelfPointerStays<R>(h: Heap<R>, r: R, n: nat)
    requires h.target(r) == Pointer(r)
    ensures Deref(h, Pointer(r), n) == Pointer(r)
  {
    if n > 0 {
      SelfPointerStays(h, r, n - 1);
    }
  }

  // ---------------------------------------------------------------- what comes out

  /** Output at a given depth: containers only above the bound, plain text and nil at it. */
  ghost predicate OutputAt(j: Json, depth: nat)
    decreases MAX_DEPTH - depth
  {
    match j
    case JNull => true
    case JScalar(s) => depth < MAX_DEPTH || s.Text?
    case JTable(m) => depth < MAX_DEPTH && forall k :: k in m ==> OutputAt(m[k], depth + 1)
    case JList(s) => depth < MAX_DEPTH && forall i :: 0 <= i < |s| ==> OutputAt(s[i], depth + 1)
  }

  ghost predicate AllOutput(m: map<string, Json>, depth: nat) {
    forall k :: k in m ==> OutputAt(m[k], depth)
  }

  lemma TableIsOutput(m: map<string, Json>, depth: nat)
    requires depth < MAX_DEPTH && AllOutput(m, depth + 1)
    ensures OutputAt(JTable(m), depth)
  {
  }

  ghost predicate AllOutputItems(s: seq<Json>, depth: nat) {
    forall i :: 0 <= i < |s| ==> OutputAt(s[i], depth)
  }

  lemma ListIsOutput(s: seq<Json>, depth: nat)
    requires depth < MAX_DEPTH && AllOutputItems(s, depth + 1)
    ensures OutputAt(JList(s), depth)
  {
  }

  lemma {:induction false} SanitizedIsOutput<R>(h: Heap<R>, v: Value<R>, depth: nat)
    requires Walkable(h, v, depth)
    ensures OutputAt(Sanitized(h, v, depth), depth)
    decreases MAX_DEPTH - depth, Chain(h, v), 1, 0
  {
    hide Sanitized, Walkable, OutputAt, SanitizedEntries, SanitizedElements;
    if depth >= MAX_DEPTH || !(v.Table? || v.List? || v.Pointer?) {
      LeafIsOutput(h, v, depth);
    } else if v.Table? {
      WalkableHere(h, v, depth);
      EntriesAreOutput(h, h.entries(v.ref), depth + 1);
      TableWalk(h, v, depth);
      TableIsOutput(SanitizedEntries(h, h.entries(v.ref), depth + 1), depth);
    } else if v.List? {
      WalkableHere(h, v, depth);
      ElementsAreOutput(h, h.elements(v.ref), depth + 1);
      ListWalk(h, v, depth);
      ListIsOutput(SanitizedElements(h, h.elements(v.ref), depth + 1), depth);
    } else {
      PointerWalk(h, v, depth);
      ChainStep(h, v);
      SanitizedIsOutput(h, h.target(v.ref), depth);
    }
  }

  lemma LeafIsOutput<R>(h: Heap<R>, v: Value<R>, depth: nat)
    requires Walkable(h, v, depth) && (depth >= MAX_DEPTH || !(v.Table? || v.List? || v.Pointer?))
    ensures OutputAt(Sanitized(h, v, depth), depth)
  {
  }

  lemma ListWalk<R>(h: Heap<R>, v: Value<R>, depth: nat)
    requires depth < MAX_DEPTH && v.List?
    requires forall i :: 0 <= i < |h.elements(v.ref)| ==> Walkable(h, h.elements(v.ref)[i], depth + 1)
    ensures Walkable(h, v, depth) && Sanitized(h, v, depth) == JList(SanitizedElements(h, h.elements(v.ref), depth + 1))
  {
    WalkableHere(h, v, depth);
  }

  lemma PointerWalk<R>(h: Heap<R>, v: Value<R>, depth: nat)
    requires depth < MAX_DEPTH && v.Pointer? && Walkable(h, v, depth)
    ensures Walkable(h, h.target(v.ref), depth) && Sanitized(h, v, depth) == Sanitized(h, h.target(v.ref), depth)
  {
    WalkableTarget(h, v, depth);
  }

  lemma {:induction false} EntriesAreOutput<R>(h: Heap<R>, es: seq<(string, Value<R>)>, depth: nat)
    requires depth <= MAX_DEPTH && forall i :: 0 <= i < |es| ==> Walkable(h, es[i].1, depth)
    ensures AllOutput(SanitizedEntries(h, es, depth), depth)
    decreases MAX_DEPTH - depth + 1, 0, 0, |es|
  {
    if es != [] {
      var n := |es| - 1;
      EntriesAreOutput(h, es[..n], depth);
      SanitizedIsOutput(h, es[n].1, depth);
      var m, j := SanitizedEntries(h, es[..n], depth), Sanitized(h, es[n].1, depth);
      assert SanitizedEntries(h, es, depth) == m[es[n].0 := j];
    }
  }

  lemma {:induction false} ElementsAreOutput<R>(h: Heap<R>, vs: seq<Value<R>>, depth: nat)
    requires depth <= MAX_DEPTH && forall i :: 0 <= i < |vs| ==> Walkable(h, vs[i], depth)
    ensures AllOutputItems(SanitizedElements(h, vs, depth), depth)
    decreases MAX_DEPTH - depth + 1, 0, 0, |vs|
  {
    if vs != [] {
      var n := |vs| - 1;
      ElementsAreOutput(h, vs[..n], depth);
      SanitizedIsOutput(h, vs[n], depth);
      var r, j := SanitizedElements(h, vs[..n], depth), Sanitized(h, vs[n], depth);
      assert SanitizedElements(h, vs, depth) == r + [j];
    }
  }

  /** At most `n` containers are nested inside one another. */
  ghost predicate NestedWithin(j: Json, n: nat)
    decreases n
  {
    match j
    case JNull => true
    case JScalar(_) => true
    case JTable(m) => n > 0 && forall k :: k in m ==> NestedWithin(m[k], n - 1)
    case JList(s) => n > 0 && forall i :: 0 <= i < |s| ==> NestedWithin(s[i], n - 1)
  }

  lemma {:induction false} OutputIsShallow(j: Json, depth: nat)
    requires depth <= MAX_DEPTH && OutputAt(j, depth)
    ensures NestedWithin(j, MAX_DEPTH - depth)
    decreases MAX_DEPTH - depth
  {
    match j
    case JTable(m) =>
      forall k | k in m
        ensures NestedWithin(m[k], MAX_DEPTH - depth - 1)
      {
        OutputIsShallow(m[k], depth + 1);
      }
    case JList(s) =>
      forall i | 0 <= i < |s|
        ensures NestedWithin(s[i], MAX_DEPTH - depth - 1)
      {
        OutputIsShallow(s[i], depth + 1);
      }
    case _ =>
  }

  /** Every sanitized attribute nests at most ten containers deep. */
  lemma SanitizedIsShallow<R>(h: Heap<R>, v: Value<R>, depth: nat)
    requires depth <= MAX_DEPTH && Walkable(h, v, depth)
    ensures NestedWithin(Sanitized(h, v, depth), MAX_DEPTH - depth)
  {
    SanitizedIsOutput(h, v, depth);
    OutputIsShallow(Sanitized(h, v, depth), depth);
  }

  // ---------------------------------------------------------------- sanitizing twice

  /** The Go value `v` is laid out in memory as the output `j`: fresh string-keyed maps and slices. */
  ghost predicate Holds<R>(h: Heap<R>, v: Value<R>, j: Json, depth: nat)
    decreases MAX_DEPTH - depth
  {
    match j
    case JNull => v == Nil
    case JScalar(s) => v == Basic(s)
    case JTable(m) =>
      && depth < MAX_DEPTH && v.Table?
      && var es := h.entries(v.ref);
      && (forall a, b :: 0 <= a < b < |es| ==> es[a].0 != es[b].0)
      && (forall k :: k in m ==> HasKey(es, k))
      && (forall i :: 0 <= i < |es| ==> es[i].0 in m && Holds(h, es[i].1, m[es[i].0], depth + 1))
    case JList(s) =>
      && depth < MAX_DEPTH && v.List?
      && |h.elements(v.ref)| == |s|
      && (forall i :: 0 <= i < |s| ==> Holds(h, h.elements(v.ref)[i], s[i], depth + 1))
  }

  /** Sanitizing output again, wherever it is stored, changes nothing. */
  lemma {:induction false} OutputIsFixed<R(!new)>(h: Heap<R>, v: Value<R>, j: Json, depth: nat)
    requires ValidHeap(h) && OutputAt(j, depth) && Holds(h, v, j, depth)
    ensures Walkable(h, v, depth) && Sanitized(h, v, depth) == j
    decreases MAX_DEPTH - depth, 1, 0
  {
    match j
    case JTable(m) => FixedTable(h, v, m, depth);
    case JList(s) => FixedList(h, v, s, depth);
    case _ => FixedLeaf(h, v, j, depth);
  }

  lemma FixedLeaf<R(!new)>(h: Heap<R>, v: Value<R>, j: Json, depth: nat)
    requires ValidHeap(h) && OutputAt(j, depth) && Holds(h, v, j, depth) && (j.JNull? || j.JScalar?)
    ensures Walkable(h, v, depth) && Sanitized(h, v, depth) == j
  {
    ChainEnd(h, v);
  }

  lemma {:induction false} FixedTable<R(!new)>(h: Heap<R>, v: Value<R>, m: map<string, Json>, depth: nat)
    requires ValidHeap(h) && OutputAt(JTable(m), depth) && Holds(h, v, JTable(m), depth)
    ensures Walkable(h, v, depth) && Sanitized(h, v, depth) == JTable(m)
    decreases MAX_DEPTH - depth, 0, 0
  {
    hide Sanitized, SanitizedEntries, Walkable;
    var es := h.entries(v.ref);
    FixedEntries(h, es, m, depth + 1);
    TableWalk(h, v, depth);
    SameTable(SanitizedEntries(h, es, depth + 1), m, es);
  }

  lemma TableWalk<R>(h: Heap<R>, v: Value<R>, depth: nat)
    requires depth < MAX_DEPTH && v.Table?
    requires forall i :: 0 <= i < |h.entries(v.ref)| ==> Walkable(h, h.entries(v.ref)[i].1, depth + 1)
    ensures Walkable(h, v, depth) && Sanitized(h, v, depth) == JTable(SanitizedEntries(h, h.entries(v.ref), depth + 1))
  {
    WalkableHere(h, v, depth);
  }

  lemma {:induction false} FixedList<R(!new)>(h: Heap<R>, v: Value<R>, s: seq<Json>, depth: nat)
    requires ValidHeap(h) && OutputAt(JList(s), depth) && Holds(h, v, JList(s), depth)
    ensures Walkable(h, v, depth) && Sanitized(h, v, depth) == JList(s)
    decreases MAX_DEPTH - depth, 0, 0
  {
    FixedElements(h, h.elements(v.ref), s, depth + 1);
    WalkableHere(h, v, depth);
  }

  ghost predicate HasKey<R>(es: seq<(string, Value<R>)>, k: string) {
    exists i :: 0 <= i < |es| && es[i].0 == k
  }

  lemma SameTable<R>(r: map<string, Json>, m: map<string, Json>, es: seq<(string, Value<R>)>)
    requires forall k :: k in r <==> HasKey(es, k)
    requires forall k :: k in r ==> k in m && r[k] == m[k]
    requires forall k :: k in m ==> HasKey(es, k)
    ensures r == m
  {
  }

  lemma {:induction false} SanitizedKeys<R>(h: Heap<R>, es: seq<(string, Value<R>)>, depth: nat)
    requires depth <= MAX_DEPTH && forall i :: 0 <= i < |es| ==> Walkable(h, es[i].1, depth)
    ensures forall k :: k in SanitizedEntries(h, es, depth) <==> HasKey(es, k)
  {
    if es != [] {
      var n := |es| - 1;
      SanitizedKeys(h, es[..n], depth);
      forall k
        ensures HasKey(es, k) <==> HasKey(es[..n], k) || es[n].0 == k
      {
        if HasKey(es[..n], k) {
          var i :| 0 <= i < n && es[..n][i].0 == k;
          assert es[i].0 == k;
        }
        if i :| 0 <= i < |es| && es[i].0 == k {
          assert i < n ==> es[..n][i].0 == k;
        }
      }
    }
  }

  lemma {:induction false} FixedEntries<R(!new)>(h: Heap<R>, es: seq<(string, Value<R>)>, m: map<string, Json>,
                                                 depth: nat)
    requires ValidHeap(h) && depth <= MAX_DEPTH
    requires forall i :: 0 <= i < |es| ==>
               es[i].0 in m && OutputAt(m[es[i].0], depth) && Holds(h, es[i].1, m[es[i].0], depth)
    ensures forall i :: 0 <= i < |es| ==> Walkable(h, es[i].1, depth)
    ensures forall k :: k in SanitizedEntries(h, es, depth) <==> HasKey(es, k)
    ensures forall k :: k in SanitizedEntries(h, es, depth) ==> k in m && SanitizedEntries(h, es, depth)[k] == m[k]
    decreases MAX_DEPTH - depth, 2, |es|
  {
    if es != [] {
      var n := |es| - 1;
      FixedEntries(h, es[..n], m, depth);
      OutputIsFixed(h, es[n].1, m[es[n].0], depth);
      forall i | 0 <= i < |es|
        ensures Walkable(h, es[i].1, depth)
      {
        assert i < n ==> es[i] == es[..n][i];
      }
      SanitizedKeys(h, es, depth);
    }
  }

  lemma {:induction false} FixedElements<R(!new)>(h: Heap<R>, vs: seq<Value<R>>, s: seq<Json>, depth: nat)
    requires ValidHeap(h) && depth <= MAX_DEPTH && |vs| == |s|
    requires forall i :: 0 <= i < |vs| ==> OutputAt(s[i], depth) && Holds(h, vs[i], s[i], depth)
    ensures forall i :: 0 <= i < |vs| ==> Walkable(h, vs[i], depth)
    ensures SanitizedElements(h, vs, depth) == s
    decreases MAX_DEPTH - depth, 2, |vs|
  {
    if vs != [] {
      var n := |vs| - 1;
      FixedElements(h, vs[..n], s[..n], depth);
      OutputIsFixed(h, vs[n], s[n], depth);
      forall i | 0 <= i < |vs|
        ensures Walkable(h, vs[i], depth)
      {
        assert i < n ==> vs[i] == vs[..n][i];
      }
    }
  }

  /** Sanitizing twice at the same depth is sanitizing once. */
  lemma SanitizeTwice<R, Q(!new)>(h: Heap<R>, v: Value<R>, depth: nat, h2: Heap<Q>, v2: Value<Q>)
    requires Walkable(h, v, depth) && ValidHeap(h2)
    requires Holds(h2, v2, Sanitized(h, v, depth), depth)
    ensures Walkable(h2, v2, depth) && Sanitized(h2, v2, depth) == Sanitized(h, v, depth)
  {
    SanitizedIsOutput(h, v, depth);
    OutputIsFixed(h2, v2, Sanitized(h, v, depth), depth);
  }

  // A memory in which every output can be laid out: containers are addressed by what they hold.

  ghost function Stored(j: Json): Value<Json> {
    match j
    case JNull => Nil
    case JScalar(s) => Basic(s)
    case JTable(_) => Table(j)
    case JList(_) => List(j)
  }

  lemma KeysGrow<R>(es: seq<(string, Value<R>)>, e: (string, Value<R>))
    ensures HasKey([e] + es, e.0)
    ensures forall k :: HasKey(es, k) ==> HasKey([e] + es, k)
  {
    assert ([e] + es)[0] == e;
    forall k | HasKey(es, k)
      ensures HasKey([e] + es, k)
    {
      var i :| 0 <= i < |es| && es[i].0 == k;
      assert ([e] + es)[i + 1] == es[i];
    }
  }

  ghost function SomeKey(m: map<string, Json>): (k: string)
    requires m != map[]
    ensures k in m
  {
    var k :| k in m;
    k
  }

  /** The entries of a map in some order. */
  ghost function Listing(m: map<string, Json>): (es: seq<(string, Value<Json>)>)
    decreases |m|
  {
    if m == map[] then [] else
      var k := SomeKey(m);
      [(k, Stored(m[k]))] + Listing(m - {k})
  }

  lemma {:induction false} ListingLists(m: map<string, Json>)
    ensures var es := Listing(m);
            && (forall i :: 0 <= i < |es| ==> es[i].0 in m && es[i].1 == Stored(m[es[i].0]))
            && (forall a, b :: 0 <= a < b < |es| ==> es[a].0 != es[b].0)
            && (forall k :: k in m ==> HasKey(es, k))
    decreases |m|
  {
    hide Stored, HasKey;
    if m != map[] {
      var k := SomeKey(m);
      ListingLists(m - {k});
      KeysGrow(Listing(m - {k}), (k, Stored(m[k])));
    }
  }

  ghost function Storage(): Heap<Json> {
    Heap((r: Json) => if r.JTable? then Listing(r.fields) else [],
         (r: Json) => if r.JList? then seq(|r.items|, i requires 0 <= i < |r.items| => Stored(r.items[i])) else [],
         (r: Json) => Nil,
         (v: Value<Json>) => Some(if v.Basic? && v.scalar.Text? then v.scalar.s else ""))
  }

  /** Every output can be laid out in memory, so `SanitizeTwice` speaks about every output. */
  lemma {:induction false} OutputCanBeStored(j: Json, depth: nat)
    requires OutputAt(j, depth)
    ensures ValidHeap(Storage()) && Holds(Storage(), Stored(j), j, depth)
    decreases MAX_DEPTH - depth
  {
    match j
    case JTable(m) =>
      ListingLists(m);
      forall k | k in m
        ensures Holds(Storage(), Stored(m[k]), m[k], depth + 1)
      {
        OutputCanBeStored(m[k], depth + 1);
      }
    case JList(s) =>
      forall i | 0 <= i < |s|
        ensures Holds(Storage(), Stored(s[i]), s[i], depth + 1)
      {
        OutputCanBeStored(s[i], depth + 1);
      }
    case _ =>
  }
}
