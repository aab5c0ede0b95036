/**
 The sanitizer's output read along paths: what stands at the end of a path of keys and indices is the
 sanitized form of the Go value at the end of the same path, pointers followed on the way.
 */
module SanitizedPaths {
  import opened Wrappers
  import opened Sanitizer

  datatype Hop = Field(key: string) | Index(i: nat)

  /** The last entry with a key, as in a map that is written entry by entry. */
  ghost function Lookup<R>(es: seq<(string, Value<R>)>, k: string): Option<Value<R>> {
    if es == [] then None
    else if es[|es| - 1].0 == k then Some(es[|es| - 1].1)
    else Lookup(es[..|es| - 1], k)
  }

  /** One hop into a Go value behind its pointers. */
  ghost function Enter<R>(h: Heap<R>, v: Value<R>, hop: Hop): Option<Value<R>> {
    if !Grounded(h, v) then None
    else
      var w := Base(h, v);
      match hop
      case Field(k) => if w.Table? then Lookup(h.entries(w.ref), k) else None
      case Index(i) => if w.List? && i < |h.elements(w.ref)| then Some(h.elements(w.ref)[i]) else None
  }

  /** The Go value at the end of a path. */
  ghost function Follow<R>(h: Heap<R>, v: Value<R>, path: seq<Hop>): Option<Value<R>>
    decreases |path|
  {
    if path == [] then Some(v)
    else if Enter(h, v, path[0]).None? then None
    else Follow(h, Enter(h, v, path[0]).value, path[1..])
  }

  function Open(j: Json, hop: Hop): Option<Json> {
    match hop
    case Field(k) => if j.JTable? && k in j.fields then Some(j.fields[k]) else None
    case Index(i) => if j.JList? && i < |j.items| then Some(j.items[i]) else None
  }

  /** The output at the end of a path. */
  function Get(j: Json, path: seq<Hop>): Option<Json>
    decreases |path|
  {
    if path == [] then Some(j)
    else if Open(j, path[0]).None? then None
    else Get(Open(j, path[0]).value, path[1..])
  }

  // ---------------------------------------------------------------- pointers and containers

  /** Pointers leave no trace above the depth bound. */
  lemma {:induction false} PointersAreTransparent<R>(h: Heap<R>, v: Value<R>, depth: nat)
    requires Walkable(h, v, depth) && depth < MAX_DEPTH
    ensures Grounded(h, v) && Walkable(h, Base(h, v), depth)
    ensures Sanitized(h, v, depth) == Sanitized(h, Base(h, v), depth)
    decreases Chain(h, v)
  {
    hide Sanitized, Walkable;
    if v.Pointer? {
      PointerWalk(h, v, depth);
      WalkableTarget(h, v, depth);
      IsGrounded(h, v, depth);
      ChainStep(h, v);
      PointersAreTransparent(h, h.target(v.ref), depth);
    } else {
      ChainEnd(h, v);
    }
  }

  lemma IsGrounded<R>(h: Heap<R>, v: Value<R>, depth: nat)
    requires Walkable(h, v, depth) && depth < MAX_DEPTH
    ensures Grounded(h, v)
  {
  }

  lemma {:induction false} EntryOfKey<R>(h: Heap<R>, es: seq<(string, Value<R>)>, depth: nat, k: string)
    requires depth <= MAX_DEPTH && forall i :: 0 <= i < |es| ==> Walkable(h, es[i].1, depth)
    ensures k in SanitizedEntries(h, es, depth) <==> Lookup(es, k).Some?
    ensures Lookup(es, k).Some? ==>
              && Walkable(h, Lookup(es, k).value, depth)
              && SanitizedEntries(h, es, depth)[k] == Sanitized(h, Lookup(es, k).value, depth)
  {
    hide Sanitized, Walkable;
    if es != [] {
      EntryOfKey(h, es[..|es| - 1], depth, k);
    }
  }

  lemma {:induction false} ElementAt<R>(h: Heap<R>, vs: seq<Value<R>>, depth: nat, i: nat)
    requires depth <= MAX_DEPTH && forall i :: 0 <= i < |vs| ==> Walkable(h, vs[i], depth)
    requires i < |vs|
    ensures SanitizedElements(h, vs, depth)[i] == Sanitized(h, vs[i], depth)
    decreases |vs|
  {
    hide Sanitized, Walkable;
    if i < |vs| - 1 {
      ElementAt(h, vs[..|vs| - 1], depth, i);
    }
  }

  // ---------------------------------------------------------------- one node

  /** What may stand for a value, by the kind it has behind its pointers. */
  ghost predicate Depicts<R>(h: Heap<R>, v: Value<R>, j: Json) {
    Grounded(h, v) &&
    var w := Base(h, v);
    match w
    case Nil => j == JNull
    case NilPointer => j == JNull
    case Basic(s) => j == JScalar(s)
    case Described(text) => j == JScalar(Text(text))
    case Other(_) => h.show(w).Some? && j == JScalar(Text(h.show(w).value))
    case Table(ref) => j.JTable? && forall k :: k in j.fields <==> Lookup(h.entries(ref), k).Some?
    case List(ref) => j.JList? && |j.items| == |h.elements(ref)|
    case Pointer(_) => false
  }

  /** Up to nine containers deep a value is depicted by its kind, at ten by its default format. */
  lemma NodeShape<R>(h: Heap<R>, v: Value<R>, depth: nat)
    requires Walkable(h, v, depth)
    ensures depth < 10 ==> Depicts(h, v, Sanitized(h, v, depth))
    ensures depth >= 10 ==>
              Sanitized(h, v, depth) == if v.Nil? then JNull else JScalar(Text(h.show(v).value))
  {
    if depth < MAX_DEPTH {
      PointersAreTransparent(h, v, depth);
      BaseShape(h, Base(h, v), depth);
      ChainEnd(h, Base(h, v));
    }
  }

  lemma BaseShape<R>(h: Heap<R>, w: Value<R>, depth: nat)
    requires Walkable(h, w, depth) && depth < MAX_DEPTH && !w.Pointer?
    ensures Depicts(h, w, Sanitized(h, w, depth))
  {
    ChainEnd(h, w);
    WalkableHere(h, w, depth);
    if w.Table? {
      forall k
        ensures k in SanitizedEntries(h, h.entries(w.ref), depth + 1) <==> Lookup(h.entries(w.ref), k).Some?
      {
        EntryOfKey(h, h.entries(w.ref), depth + 1, k);
      }
    }
  }

  // ---------------------------------------------------------------- whole paths

  lemma HopsAgreeOnce<R>(h: Heap<R>, v: Value<R>, depth: nat, hop: Hop)
    requires Walkable(h, v, depth) && depth < MAX_DEPTH
    ensures Open(Sanitized(h, v, depth), hop).Some? <==> Enter(h, v, hop).Some?
    ensures Enter(h, v, hop).Some? ==>
              && Walkable(h, Enter(h, v, hop).value, depth + 1)
              && Open(Sanitized(h, v, depth), hop).value == Sanitized(h, Enter(h, v, hop).value, depth + 1)
  {
    PointersAreTransparent(h, v, depth);
    var w := Base(h, v);
    BaseShape(h, w, depth);
    ChainEnd(h, w);
    WalkableHere(h, w, depth);
    if w.Table? && hop.Field? {
      TableWalk(h, w, depth);
      EntryOfKey(h, h.entries(w.ref), depth + 1, hop.key);
    } else if w.List? && hop.Index? && hop.i < |h.elements(w.ref)| {
      ListWalk(h, w, depth);
      ElementAt(h, h.elements(w.ref), depth + 1, hop.i);
    }
  }

  /**
   Within the depth bound the output has exactly the paths the Go value has, and what stands at the end of
   one is the sanitized form of what the Go value has there.
   */
  lemma {:induction false} PathsAgree<R>(h: Heap<R>, v: Value<R>, depth: nat, path: seq<Hop>)
    requires Walkable(h, v, depth) && depth + |path| <= 10
    ensures Get(Sanitized(h, v, depth), path).Some? <==> Follow(h, v, path).Some?
    ensures Follow(h, v, path).Some? ==>
              && Walkable(h, Follow(h, v, path).value, depth + |path|)
              && Get(Sanitized(h, v, depth), path).value == Sanitized(h, Follow(h, v, path).value, depth + |path|)
    decreases |path|
  {
    hide Sanitized, Walkable, Enter, Open;
    if path != [] {
      HopsAgreeOnce(h, v, depth, path[0]);
      if Enter(h, v, path[0]).Some? {
        PathsAgree(h, Enter(h, v, path[0]).value, depth + 1, path[1..]);
      }
    }
  }

  /** At the end of any path of fewer than ten hops stands what depicts the Go value there. */
  lemma PathsDepict<R>(h: Heap<R>, v: Value<R>, path: seq<Hop>)
    requires Walkable(h, v, 0) && |path| < 10 && Follow(h, v, path).Some?
    ensures Get(Sanitized(h, v, 0), path).Some?
    ensures Depicts(h, Follow(h, v, path).value, Get(Sanitized(h, v, 0), path).value)
  {
    hide Sanitized, Walkable, Follow, Get, Depicts;
    PathsAgree(h, v, 0, path);
    NodeShape(h, Follow(h, v, path).value, |path|);
  }
}
