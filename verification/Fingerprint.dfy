/**
 The byte stream an event feeds to its grouping hash, and what two equal streams say about two events.
 */
module Text {
  type Byte = b: int | 0 <= b < 256

  /** A Unicode scalar value, as obtained by ranging over a string. */
  type Rune = r: int | 0 <= r < 0xD800 || 0xE000 <= r < 0x11_0000

  /** UTF-8 encoding of one rune. */
  function EncodeRune(r: Rune): seq<Byte> {
    if r < 0x80 then [r]
    else if r < 0x800 then [0xC0 + r / 64, 0x80 + r % 64]
    else if r < 0x1_0000 then [0xE0 + r / 4096, 0x80 + r / 64 % 64, 0x80 + r % 64]
    else [0xF0 + r / 262144, 0x80 + r / 4096 % 64, 0x80 + r / 64 % 64, 0x80 + r % 64]
  }

  function Encode(rs: seq<Rune>): seq<Byte> {
    if rs == [] then [] else EncodeRune(rs[0]) + Encode(rs[1..])
  }

  /** Reads the first rune of a stream: its value and the bytes it takes. */
  function DecodeFirst(s: seq<int>): (int, nat) {
    if |s| == 0 then (0, 0)
    else if s[0] < 0x80 then (s[0], 1)
    else if s[0] < 0xE0 && |s| >= 2 then ((s[0] - 0xC0) * 64 + (s[1] - 0x80), 2)
    else if s[0] < 0xF0 && |s| >= 3 then ((s[0] - 0xE0) * 4096 + (s[1] - 0x80) * 64 + (s[2] - 0x80), 3)
    else if |s| >= 4 then
      ((s[0] - 0xF0) * 262144 + (s[1] - 0x80) * 4096 + (s[2] - 0x80) * 64 + (s[3] - 0x80), 4)
    else (0, 0)
  }

  lemma DecodesFirst(r: Rune, rest: seq<Byte>)
    ensures DecodeFirst(EncodeRune(r) + rest) == (r, |EncodeRune(r)|)
  {
    assert r / 4096 == r / 64 / 64 && r / 262144 == r / 64 / 64 / 64;
  }

  /** UTF-8 streams are unambiguous. */
  lemma {:induction false} EncodeIsInjective(a: seq<Rune>, b: seq<Rune>)
    requires Encode(a) == Encode(b)
    ensures a == b
  {
    if a != [] && b != [] {
      DecodesFirst(a[0], Encode(a[1..]));
      DecodesFirst(b[0], Encode(b[1..]));
      var n := |EncodeRune(a[0])|;
      assert Encode(a)[n..] == Encode(a[1..]) && Encode(b)[n..] == Encode(b[1..]);
      EncodeIsInjective(a[1..], b[1..]);
    }
  }

  predicate NulFree(s: seq<Byte>) {
    0 !in s
  }

  lemma {:induction false} EncodedNul(rs: seq<Rune>)
    ensures NulFree(Encode(rs)) <==> 0 !in rs
  {
    if rs != [] {
      EncodedNul(rs[1..]);
      assert 0 in EncodeRune(rs[0]) <==> rs[0] == 0;
      assert rs == [rs[0]] + rs[1..];
    }
  }

  // ---------------------------------------------------------------- separator encoding

  /** The parts with a NUL byte between neighbours. */
  function Join(parts: seq<seq<Byte>>): seq<Byte>
    requires parts != []
  {
    if |parts| == 1 then parts[0] else parts[0] + [0] + Join(parts[1..])
  }

  /** Cuts a stream at its NUL bytes. */
  function Split(s: seq<Byte>): (parts: seq<seq<Byte>>)
    ensures parts != []
  {
    if s == [] then [[]]
    else
      var rest := Split(s[1..]);
      if s[0] == 0 then [[]] + rest else [[s[0]] + rest[0]] + rest[1..]
  }

  lemma {:induction false} SplitPart(p: seq<Byte>, rest: seq<Byte>)
    requires NulFree(p)
    ensures Split(p + [0] + rest) == [p] + Split(rest)
    ensures Split(p) == [p]
  {
    if p == [] {
      assert p + [0] + rest == [0] + rest;
    } else {
      SplitPart(p[1..], rest);
      assert (p + [0] + rest)[1..] == p[1..] + [0] + rest;
      assert p == [p[0]] + p[1..];
    }
  }

  /** Splitting undoes joining when no part contains the separator. */
  lemma {:induction false} SplitUndoesJoin(parts: seq<seq<Byte>>)
    requires parts != [] && forall i :: 0 <= i < |parts| ==> NulFree(parts[i])
    ensures Split(Join(parts)) == parts
  {
    if |parts| == 1 {
      SplitPart(parts[0], []);
    } else {
      SplitUndoesJoin(parts[1..]);
      SplitPart(parts[0], Join(parts[1..]));
    }
  }

  // ---------------------------------------------------------------- separators inside parts

  function Nuls(s: seq<Byte>): nat {
    multiset(s)[0]
  }

  /** The NUL bytes inside the parts, not counting the separators. */
  function NulsWithin(parts: seq<seq<Byte>>): nat {
    if parts == [] then 0 else Nuls(parts[0]) + NulsWithin(parts[1..])
  }

  predicate AllNulFree(parts: seq<seq<Byte>>) {
    forall i :: 0 <= i < |parts| ==> NulFree(parts[i])
  }

  lemma {:induction false} NoNulsWithin(parts: seq<seq<Byte>>)
    ensures AllNulFree(parts) <==> NulsWithin(parts) == 0
  {
    if parts != [] {
      NoNulsWithin(parts[1..]);
      assert NulFree(parts[0]) <==> Nuls(parts[0]) == 0;
      assert forall i :: 0 < i < |parts| ==> parts[i] == parts[1..][i - 1];
    }
  }

  /** A stream has the NULs inside its parts and one between each two neighbours. */
  lemma {:induction false} NulsOfJoin(parts: seq<seq<Byte>>)
    requires parts != []
    ensures Nuls(Join(parts)) == NulsWithin(parts) + |parts| - 1
  {
    if |parts| == 1 {
      assert NulsWithin(parts[1..]) == 0;
    } else {
      NulsOfJoin(parts[1..]);
    }
  }

  /** Exchanging a separator with a NUL inside a neighbour leaves the stream as it is. */
  lemma {:induction false} ExchangeKeepsJoin(a: seq<seq<Byte>>, p: seq<Byte>, x: seq<Byte>, q: seq<Byte>,
                                             b: seq<seq<Byte>>)
    ensures Join(a + [p + [0] + x, q] + b) == Join(a + [p, x + [0] + q] + b)
  {
    var s, t := a + [p + [0] + x, q] + b, a + [p, x + [0] + q] + b;
    if a == [] {
      assert s[1..] == [q] + b && t[1..] == [x + [0] + q] + b;
      JoinPrefix(x + [0], q, b);
      assert s == [p + [0] + x] + ([q] + b);
      assert t == [p] + ([x + [0] + q] + b);
      assert Join(s) == p + [0] + x + [0] + Join([q] + b);
      assert Join(t) == p + [0] + (x + [0] + Join([q] + b));
    } else {
      ExchangeKeepsJoin(a[1..], p, x, q, b);
      assert s[1..] == a[1..] + [p + [0] + x, q] + b;
      assert t[1..] == a[1..] + [p, x + [0] + q] + b;
    }
  }

  lemma JoinPrefix(x: seq<Byte>, q: seq<Byte>, b: seq<seq<Byte>>)
    ensures Join([x + q] + b) == x + Join([q] + b)
  {
    assert ([x + q] + b)[1..] == b && ([q] + b)[1..] == b;
  }

  /** A NUL inside a part lets a different list of as many parts join to the same stream. */
  lemma NulMovesBoundary(parts: seq<seq<Byte>>, i: nat) returns (other: seq<seq<Byte>>)
    requires i < |parts| && |parts| > 1 && !NulFree(parts[i])
    ensures |other| == |parts| && other != parts && Join(other) == Join(parts)
  {
    var j :| 0 <= j < |parts[i]| && parts[i][j] == 0;
    var x, y := parts[i][..j], parts[i][j + 1..];
    assert parts[i] == x + [0] + y;
    if i + 1 < |parts| {
      var q := parts[i + 1];
      ExchangeKeepsJoin(parts[..i], x, y, q, parts[i + 2..]);
      other := parts[..i] + [x, y + [0] + q] + parts[i + 2..];
      assert parts == parts[..i] + [x + [0] + y, q] + parts[i + 2..];
      assert |other[i]| < |parts[i]|;
    } else {
      var p := parts[i - 1];
      ExchangeKeepsJoin(parts[..i - 1], p, x, y, []);
      other := parts[..i - 1] + [p + [0] + x, y] + [];
      assert parts == parts[..i - 1] + [p, x + [0] + y] + [];
      assert |other[i]| < |parts[i]|;
    }
  }
}

module Fingerprint {
  import opened Basics
  import opened Text

  datatype Frame = Frame(function_: seq<Byte>, file: seq<Byte>, line: int, inApp: bool)

  datatype Event = Event(errorType: seq<Byte>, message: seq<Rune>, stack: seq<Frame>)

  /** The character classes, as the Unicode tables give them; '0' is a digit. */
  datatype Unicode = Unicode(isDigit: Rune -> bool, isSpace: Rune -> bool)

  const ZERO: Rune := 48

  ghost predicate ValidTables(u: Unicode) {
    u.isDigit(ZERO)
  }

  // ---------------------------------------------------------------- message normalisation

  /** The length of the digit run a message begins with. */
  function RunLength(u: Unicode, m: seq<Rune>): (n: nat)
    ensures n <= |m| && (m != [] && u.isDigit(m[0]) ==> n > 0)
    ensures forall i :: 0 <= i < n ==> u.isDigit(m[i])
    ensures n < |m| ==> !u.isDigit(m[n])
  {
    if m == [] || !u.isDigit(m[0]) then 0 else 1 + RunLength(u, m[1..])
  }

  /** Every maximal run of digits becomes a single '0'. */
  function Collapse(u: Unicode, m: seq<Rune>): seq<Rune>
    decreases |m|
  {
    if m == [] then []
    else if u.isDigit(m[0]) then [ZERO] + Collapse(u, m[RunLength(u, m)..])
    else [m[0]] + Collapse(u, m[1..])
  }

  /** What is left to write when the previous rune was (or was not) a digit. */
  function CollapseFrom(u: Unicode, inDigits: bool, m: seq<Rune>): seq<Rune>
    decreases |m|
  {
    if m == [] then []
    else Written(u, inDigits, m[0]) + CollapseFrom(u, u.isDigit(m[0]), m[1..])
  }

  /** What one rune adds to the output. */
  function Written(u: Unicode, inDigits: bool, r: Rune): seq<Rune> {
    if !u.isDigit(r) then [r] else if inDigits then [] else [ZERO]
  }

  lemma {:induction false} CollapseByRune(u: Unicode, m: seq<Rune>)
    ensures CollapseFrom(u, false, m) == Collapse(u, m)
    ensures CollapseFrom(u, true, m) == Collapse(u, m[RunLength(u, m)..])
    decreases |m|
  {
    if m != [] {
      CollapseByRune(u, m[1..]);
      if u.isDigit(m[0]) {
        assert m[RunLength(u, m)..] == m[1..][RunLength(u, m[1..])..];
      } else {
        assert m[0..] == m;
      }
    }
  }

  function TrimLeft(u: Unicode, m: seq<Rune>): seq<Rune> {
    if m != [] && u.isSpace(m[0]) then TrimLeft(u, m[1..]) else m
  }

  function TrimRight(u: Unicode, m: seq<Rune>): seq<Rune> {
    if m != [] && u.isSpace(m[|m| - 1]) then TrimRight(u, m[..|m| - 1]) else m
  }

  function Normalize(u: Unicode, m: seq<Rune>): seq<Rune> {
    TrimRight(u, TrimLeft(u, Collapse(u, m)))
  }

  lemma NextRune(u: Unicode, b: seq<Rune>, inDigits: bool, m: seq<Rune>, i: nat)
    requires i < |m|
    ensures b + CollapseFrom(u, inDigits, m[i..])
            == (if !u.isDigit(m[i]) then b + [m[i]] else if inDigits then b else b + [ZERO])
               + CollapseFrom(u, u.isDigit(m[i]), m[i + 1..])
  {
    assert m[i..][1..] == m[i + 1..];
    Associates(b, Written(u, inDigits, m[i]), CollapseFrom(u, u.isDigit(m[i]), m[i + 1..]));
    assert b + [] == b;
  }

  /** Before the first rune everything is left to write. */
  lemma FirstRune(u: Unicode, m: seq<Rune>)
    ensures [] + CollapseFrom(u, false, m[0..]) == Collapse(u, m)
  {
    CollapseByRune(u, m);
    assert m[0..] == m;
  }

  /** After the last rune nothing is. */
  lemma LastRune(u: Unicode, b: seq<Rune>, inDigits: bool, m: seq<Rune>)
    ensures b + CollapseFrom(u, inDigits, m[|m|..]) == b
  {
  }

  method NormalizeMessage(u: Unicode, msg: seq<Rune>) returns (out: seq<Rune>)
    ensures out == Normalize(u, msg)
  {
    hide Collapse, CollapseFrom, TrimLeft, TrimRight, RunLength;
    var b: seq<Rune> := [];
    var inDigits := false;
    FirstRune(u, msg);
    for i := 0 to |msg|
      invariant b + CollapseFrom(u, inDigits, msg[i..]) == Collapse(u, msg)
    {
      var r := msg[i];
      NextRune(u, b, inDigits, msg, i);
      if u.isDigit(r) {
        if !inDigits {
          b := b + [ZERO];
          inDigits := true;
        }
        continue;
      }
      inDigits := false;
      b := b + [r];
    }
    LastRune(u, b, inDigits, msg);
    out := TrimRight(u, TrimLeft(u, b));
  }

  /** A message in which every digit run is a lone '0'. */
  ghost predicate Collapsed(u: Unicode, m: seq<Rune>) {
    && (forall i :: 0 <= i < |m| && u.isDigit(m[i]) ==> m[i] == ZERO)
    && (forall i :: 0 < i < |m| && u.isDigit(m[i - 1]) ==> !u.isDigit(m[i]))
  }

  lemma {:induction false} CollapseCollapses(u: Unicode, inDigits: bool, m: seq<Rune>)
    requires ValidTables(u)
    ensures Collapsed(u, CollapseFrom(u, inDigits, m))
    ensures inDigits && CollapseFrom(u, inDigits, m) != [] ==> !u.isDigit(CollapseFrom(u, inDigits, m)[0])
    decreases |m|
  {
    if m != [] {
      CollapseCollapses(u, u.isDigit(m[0]), m[1..]);
    }
  }

  lemma {:induction false} CollapsedIsKept(u: Unicode, m: seq<Rune>)
    requires Collapsed(u, m)
    ensures CollapseFrom(u, false, m) == m
    ensures m != [] && !u.isDigit(m[0]) ==> CollapseFrom(u, true, m) == m
  {
    if m != [] {
      CollapsedIsKept(u, m[1..]);
      if u.isDigit(m[0]) && |m| > 1 {
        assert !u.isDigit(m[1]);
      }
    }
  }

  lemma {:induction false} TrimLeftKeeps(u: Unicode, m: seq<Rune>)
    ensures Collapsed(u, m) ==> Collapsed(u, TrimLeft(u, m))
    ensures TrimLeft(u, m) != [] ==> !u.isSpace(TrimLeft(u, m)[0])
  {
    if m != [] && u.isSpace(m[0]) {
      TrimLeftKeeps(u, m[1..]);
    }
  }

  lemma {:induction false} TrimRightKeeps(u: Unicode, m: seq<Rune>)
    requires m != [] ==> !u.isSpace(m[0])
    ensures Collapsed(u, m) ==> Collapsed(u, TrimRight(u, m))
    ensures var t := TrimRight(u, m); t != [] ==> !u.isSpace(t[0]) && !u.isSpace(t[|t| - 1])
  {
    if m != [] && u.isSpace(m[|m| - 1]) {
      TrimRightKeeps(u, m[..|m| - 1]);
    }
  }

  /** Normalising is idempotent, and its result is collapsed and free of outer white space. */
  lemma NormalizeIsIdempotent(u: Unicode, m: seq<Rune>)
    requires ValidTables(u)
    ensures var t := Normalize(u, m);
            && Collapsed(u, t)
            && (t != [] ==> !u.isSpace(t[0]) && !u.isSpace(t[|t| - 1]))
            && Normalize(u, t) == t
  {
    CollapseByRune(u, m);
    CollapseCollapses(u, false, m);
    TrimLeftKeeps(u, Collapse(u, m));
    TrimRightKeeps(u, TrimLeft(u, Collapse(u, m)));
    var t := Normalize(u, m);
    CollapseByRune(u, t);
    CollapsedIsKept(u, t);
  }

  /** Whether the rune before the rest of the message is a digit. */
  function EndsInDigit(u: Unicode, f: bool, a: seq<Rune>): bool {
    if a == [] then f else u.isDigit(a[|a| - 1])
  }

  lemma {:induction false} CollapseOfConcat(u: Unicode, f: bool, a: seq<Rune>, b: seq<Rune>)
    ensures CollapseFrom(u, f, a + b) == CollapseFrom(u, f, a) + CollapseFrom(u, EndsInDigit(u, f, a), b)
    decreases |a|
  {
    if a == [] {
      assert a + b == b;
    } else {
      var d := u.isDigit(a[0]);
      CollapseOfConcat(u, d, a[1..], b);
      assert (a + b)[1..] == a[1..] + b && (a + b)[0] == a[0];
      assert EndsInDigit(u, d, a[1..]) == EndsInDigit(u, f, a);
      Associates(Written(u, f, a[0]), CollapseFrom(u, d, a[1..]), CollapseFrom(u, EndsInDigit(u, f, a), b));
    }
  }

  lemma {:induction false} CollapseOfDigits(u: Unicode, f: bool, d: seq<Rune>)
    requires d != [] && forall i :: 0 <= i < |d| ==> u.isDigit(d[i])
    ensures CollapseFrom(u, f, d) == if f then [] else [ZERO]
    decreases |d|
  {
    if |d| > 1 {
      CollapseOfDigits(u, true, d[1..]);
    }
  }

  /** Messages that differ only in a number group together. */
  lemma NumbersDoNotMatter(u: Unicode, a: seq<Rune>, d: seq<Rune>, e: seq<Rune>, b: seq<Rune>)
    requires d != [] && forall i :: 0 <= i < |d| ==> u.isDigit(d[i])
    requires e != [] && forall i :: 0 <= i < |e| ==> u.isDigit(e[i])
    ensures Normalize(u, a + d + b) == Normalize(u, a + e + b)
  {
    var f := if a == [] then false else u.isDigit(a[|a| - 1]);
    CollapseByRune(u, a + d + b);
    CollapseByRune(u, a + e + b);
    CollapseOfConcat(u, false, a + d, b);
    CollapseOfConcat(u, false, a + e, b);
    CollapseOfConcat(u, false, a, d);
    CollapseOfConcat(u, false, a, e);
    CollapseOfDigits(u, f, d);
    CollapseOfDigits(u, f, e);
  }

  // ---------------------------------------------------------------- the stream

  function InApp(frames: seq<Frame>): seq<Frame> {
    if frames == [] then []
    else (if frames[0].inApp then [frames[0]] else []) + InApp(frames[1..])
  }

  method InAppFrames(frames: seq<Frame>) returns (out: seq<Frame>)
    ensures out == InApp(frames)
  {
    out := [];
    assert frames[0..] == frames;
    for i := 0 to |frames|
      invariant out + InApp(frames[i..]) == InApp(frames)
    {
      assert frames[i..][1..] == frames[i + 1..];
      if frames[i].inApp {
        out := out + [frames[i]];
      }
    }
  }

  function FrameBytes(frames: seq<Frame>): seq<Byte> {
    if frames == [] then []
    else FrameBytes(frames[..|frames| - 1])
         + [0] + frames[|frames| - 1].function_ + [0] + frames[|frames| - 1].file
  }

  /** The bytes written to the hash. */
  function Stream(u: Unicode, e: Event): seq<Byte> {
    if InApp(e.stack) != [] then e.errorType + FrameBytes(InApp(e.stack))
    else Encode(Normalize(u, e.message))
  }

  function StackBytes(t: seq<Byte>, frames: seq<Frame>): seq<Byte> {
    t + FrameBytes(frames)
  }

  lemma StackBytesGrow(t: seq<Byte>, frames: seq<Frame>, i: nat)
    requires i < |frames|
    ensures StackBytes(t, frames[..0]) == t && StackBytes(t, frames[..|frames|]) == StackBytes(t, frames)
    ensures StackBytes(t, frames[..i + 1])
            == StackBytes(t, frames[..i]) + [0] + frames[i].function_ + [0] + frames[i].file
  {
    assert frames[..i + 1][..i] == frames[..i] && frames[..|frames|] == frames;
    LastFrameBytes(t, frames[..i + 1]);
  }

  lemma StreamForms(u: Unicode, e: Event)
    ensures InApp(e.stack) != [] ==> Stream(u, e) == StackBytes(e.errorType, InApp(e.stack))
    ensures InApp(e.stack) == [] ==> Stream(u, e) == Encode(Normalize(u, e.message))
  {
  }

  /** Writes the stream piece by piece and returns its hash. */
  method ComputeFingerprint(u: Unicode, e: Event, hash: seq<Byte> -> string) returns (fp: string)
    ensures fp == hash(Stream(u, e))
  {
    hide *;
    StreamForms(u, e);
    var h: seq<Byte> := [];
    var frames := InAppFrames(e.stack);
    if |frames| > 0 {
      h := h + e.errorType;
      StackBytesGrow(e.errorType, frames, 0);
      for i := 0 to |frames|
        invariant h == StackBytes(e.errorType, frames[..i])
      {
        StackBytesGrow(e.errorType, frames, i);
        h := h + [0];
        h := h + frames[i].function_;
        h := h + [0];
        h := h + frames[i].file;
      }
      assert h == Stream(u, e);
    } else {
      assert frames == [];
      var m := NormalizeMessage(u, e.message);
      h := h + Encode(m);
      assert h == Encode(m);
      assert h == Stream(u, e);
    }
    fp := hash(h);
  }

  datatype Signature = Signature(function_: seq<Byte>, file: seq<Byte>)

  function Signatures(frames: seq<Frame>): (r: seq<Signature>)
    ensures |r| == |frames|
    ensures forall i :: 0 <= i < |r| ==> r[i] == Signature(frames[i].function_, frames[i].file)
  {
    seq(|frames|, i requires 0 <= i < |frames| => Signature(frames[i].function_, frames[i].file))
  }

  /** What an event is meant to be grouped by. */
  datatype Group = ByStack(errorType: seq<Byte>, frames: seq<Signature>) | ByMessage(text: seq<Rune>)

  function GroupOf(u: Unicode, e: Event): Group {
    if InApp(e.stack) != [] then ByStack(e.errorType, Signatures(InApp(e.stack)))
    else ByMessage(Normalize(u, e.message))
  }

  /** The parts of a stream that NUL bytes separate. */
  function PartsOf(g: Group): (parts: seq<seq<Byte>>)
    ensures parts != []
  {
    match g
    case ByStack(t, frames) => [t] + Flat(frames)
    case ByMessage(m) => [Encode(m)]
  }

  function Flat(sigs: seq<Signature>): (r: seq<seq<Byte>>)
    ensures |r| == 2 * |sigs|
    ensures forall i :: 0 <= i < |sigs| ==> r[2 * i] == sigs[i].function_ && r[2 * i + 1] == sigs[i].file
  {
    if sigs == [] then []
    else Flat(sigs[..|sigs| - 1]) + [sigs[|sigs| - 1].function_, sigs[|sigs| - 1].file]
  }

  lemma {:induction false} JoinExtends(parts: seq<seq<Byte>>, p: seq<Byte>)
    requires parts != []
    ensures Join(parts + [p]) == Join(parts) + [0] + p
  {
    if |parts| == 1 {
      assert (parts + [p])[1..] == [p];
    } else {
      JoinExtends(parts[1..], p);
      assert (parts + [p])[1..] == parts[1..] + [p];
    }
  }

  lemma {:induction false} StackStreamJoins(t: seq<Byte>, frames: seq<Frame>)
    ensures t + FrameBytes(frames) == Join([t] + Flat(Signatures(frames)))
  {
    if frames == [] {
      assert [t] + Flat(Signatures(frames)) == [t];
    } else {
      var n := |frames| - 1;
      StackStreamJoins(t, frames[..n]);
      LastFrameJoins(t, Signatures(frames[..n]), Signatures(frames)[n]);
      assert Signatures(frames) == Signatures(frames[..n]) + [Signatures(frames)[n]];
      LastFrameBytes(t, frames);
    }
  }

  lemma LastFrameBytes(t: seq<Byte>, frames: seq<Frame>)
    requires frames != []
    ensures var n := |frames| - 1;
            t + FrameBytes(frames)
            == (t + FrameBytes(frames[..n])) + [0] + frames[n].function_ + [0] + frames[n].file
  {
    var n := |frames| - 1;
    var b, f, g := FrameBytes(frames[..n]), frames[n].function_, frames[n].file;
    Associates(t, b + [0] + f + [0], g);
    Associates(t, b + [0] + f, [0]);
    Associates(t, b + [0], f);
    Associates(t, b, [0]);
  }

  lemma LastFrameJoins(t: seq<Byte>, sigs: seq<Signature>, last: Signature)
    ensures Join([t] + Flat(sigs + [last])) == Join([t] + Flat(sigs)) + [0] + last.function_ + [0] + last.file
  {
    var parts := [t] + Flat(sigs);
    JoinExtends(parts, last.function_);
    JoinExtends(parts + [last.function_], last.file);
    assert (sigs + [last])[..|sigs|] == sigs;
    assert parts + [last.function_] + [last.file] == [t] + Flat(sigs + [last]);
  }

  lemma StreamJoinsParts(u: Unicode, e: Event)
    ensures Stream(u, e) == Join(PartsOf(GroupOf(u, e)))
  {
    if InApp(e.stack) != [] {
      StackStreamJoins(e.errorType, InApp(e.stack));
    }
  }

  lemma PartsDetermineGroup(g: Group, h: Group)
    requires PartsOf(g) == PartsOf(h)
    requires g.ByStack? ==> g.frames != []
    requires h.ByStack? ==> h.frames != []
    ensures g == h
  {
    match (g, h)
    case (ByStack(t, a), ByStack(s, b)) =>
      assert PartsOf(g)[0] == t && PartsOf(h)[0] == s;
      assert Flat(a) == PartsOf(g)[1..] == PartsOf(h)[1..] == Flat(b);
      forall i | 0 <= i < |a|
        ensures a[i] == b[i]
      {
        assert Flat(a)[2 * i] == Flat(b)[2 * i] && Flat(a)[2 * i + 1] == Flat(b)[2 * i + 1];
      }
    case (ByMessage(m), ByMessage(k)) =>
      assert PartsOf(g)[0] == PartsOf(h)[0];
      EncodeIsInjective(m, k);
    case _ =>
  }

  /** The text that reaches the stream contains no NUL. */
  ghost predicate NulFreeEvent(e: Event) {
    if InApp(e.stack) != [] then
      && NulFree(e.errorType)
      && forall i :: 0 <= i < |InApp(e.stack)| ==>
           NulFree(InApp(e.stack)[i].function_) && NulFree(InApp(e.stack)[i].file)
    else 0 !in e.message
  }

  lemma {:induction false} CollapseAddsNoNul(u: Unicode, f: bool, m: seq<Rune>)
    requires 0 !in m
    ensures 0 !in CollapseFrom(u, f, m)
    decreases |m|
  {
    if m != [] {
      CollapseAddsNoNul(u, u.isDigit(m[0]), m[1..]);
    }
  }

  lemma {:induction false} TrimLeftAddsNothing(u: Unicode, m: seq<Rune>, r: Rune)
    requires r !in m
    ensures r !in TrimLeft(u, m)
  {
    if m != [] && u.isSpace(m[0]) {
      TrimLeftAddsNothing(u, m[1..], r);
    }
  }

  lemma {:induction false} TrimRightAddsNothing(u: Unicode, m: seq<Rune>, r: Rune)
    requires r !in m
    ensures r !in TrimRight(u, m)
  {
    if m != [] && u.isSpace(m[|m| - 1]) {
      TrimRightAddsNothing(u, m[..|m| - 1], r);
    }
  }

  lemma PartsAreNulFree(u: Unicode, e: Event)
    requires NulFreeEvent(e)
    ensures forall i :: 0 <= i < |PartsOf(GroupOf(u, e))| ==> NulFree(PartsOf(GroupOf(u, e))[i])
  {
    var parts := PartsOf(GroupOf(u, e));
    if InApp(e.stack) != [] {
      var sigs := Signatures(InApp(e.stack));
      forall i | 0 < i < |parts|
        ensures NulFree(parts[i])
      {
        var j := (i - 1) / 2;
        assert parts[i] == Flat(sigs)[i - 1];
        assert i - 1 == 2 * j || i - 1 == 2 * j + 1;
        assert NulFree(sigs[j].function_) && NulFree(sigs[j].file);
      }
    } else {
      CollapseByRune(u, e.message);
      CollapseAddsNoNul(u, false, e.message);
      TrimLeftAddsNothing(u, Collapse(u, e.message), 0);
      TrimRightAddsNothing(u, TrimLeft(u, Collapse(u, e.message)), 0);
      EncodedNul(Normalize(u, e.message));
    }
  }

  /**
   Without NULs the stream is unambiguous: two events write the same bytes exactly when they belong to
   the same group, that is, when both have in-app frames and agree on the type and on the ordered
   functions and files (whatever their lines and other frames), or neither has and their messages
   normalise to the same text.
   */
  lemma StreamsIdentifyGroups(u: Unicode, d: Event, e: Event)
    requires NulFreeEvent(d) && NulFreeEvent(e)
    ensures Stream(u, d) == Stream(u, e) <==> GroupOf(u, d) == GroupOf(u, e)
  {
    StreamJoinsParts(u, d);
    StreamJoinsParts(u, e);
    if Stream(u, d) == Stream(u, e) {
      PartsAreNulFree(u, d);
      PartsAreNulFree(u, e);
      SplitUndoesJoin(PartsOf(GroupOf(u, d)));
      SplitUndoesJoin(PartsOf(GroupOf(u, e)));
      PartsDetermineGroup(GroupOf(u, d), GroupOf(u, e));
    }
  }

  // ---------------------------------------------------------------- when NULs matter

  /** Frames whose functions and files are the given parts in turn. */
  function FramesOf(parts: seq<seq<Byte>>): (frames: seq<Frame>)
    requires |parts| % 2 == 0
    ensures |frames| == |parts| / 2
    ensures forall i :: 0 <= i < |frames| ==> frames[i] == Frame(parts[2 * i], parts[2 * i + 1], 0, true)
  {
    seq(|parts| / 2, i requires 0 <= i < |parts| / 2 => Frame(parts[2 * i], parts[2 * i + 1], 0, true))
  }

  lemma {:induction false} InAppKeepsAll(frames: seq<Frame>)
    requires forall i :: 0 <= i < |frames| ==> frames[i].inApp
    ensures InApp(frames) == frames
  {
    if frames != [] {
      InAppKeepsAll(frames[1..]);
    }
  }

  /** Every odd number of parts, three or more, is what some stack writes. */
  lemma StackWithParts(u: Unicode, parts: seq<seq<Byte>>) returns (d: Event)
    requires |parts| % 2 == 1 && |parts| > 1
    ensures InApp(d.stack) == d.stack && |d.stack| == |parts| / 2
    ensures PartsOf(GroupOf(u, d)) == parts
  {
    var frames := FramesOf(parts[1..]);
    d := Event(parts[0], [], frames);
    InAppKeepsAll(frames);
    var flat := Flat(Signatures(frames));
    assert |flat| == |parts[1..]|;
    forall i | 0 <= i < |flat|
      ensures flat[i] == parts[1..][i]
    {
      assert i == 2 * (i / 2) || i == 2 * (i / 2) + 1;
      assert Signatures(frames)[i / 2] == Signature(frames[i / 2].function_, frames[i / 2].file);
    }
    assert flat == parts[1..];
  }

  lemma StackPartsNulFree(u: Unicode, e: Event)
    requires InApp(e.stack) != []
    ensures NulFreeEvent(e) <==> AllNulFree(PartsOf(GroupOf(u, e)))
  {
    var frames, parts := InApp(e.stack), PartsOf(GroupOf(u, e));
    if NulFreeEvent(e) {
      PartsAreNulFree(u, e);
    }
    if AllNulFree(parts) {
      assert parts[0] == e.errorType;
      forall i | 0 <= i < |frames|
        ensures NulFree(frames[i].function_) && NulFree(frames[i].file)
      {
        assert Signatures(frames)[i] == Signature(frames[i].function_, frames[i].file);
        assert Flat(Signatures(frames))[2 * i] == parts[2 * i + 1];
        assert Flat(Signatures(frames))[2 * i + 1] == parts[2 * i + 2];
      }
    }
  }

  /** A stack with a NUL in its type, a function or a file shares its bytes with another of the same height. */
  lemma NulSharesStream(u: Unicode, e: Event) returns (d: Event)
    requires InApp(e.stack) != [] && !NulFreeEvent(e)
    ensures |InApp(d.stack)| == |InApp(e.stack)| && Stream(u, d) == Stream(u, e) && GroupOf(u, d) != GroupOf(u, e)
  {
    var parts := PartsOf(GroupOf(u, e));
    StackPartsNulFree(u, e);
    var i :| 0 <= i < |parts| && !NulFree(parts[i]);
    var other := NulMovesBoundary(parts, i);
    d := StackWithParts(u, other);
    StreamJoinsParts(u, d);
    StreamJoinsParts(u, e);
  }

  /** Equal bytes and equal heights: if one stack is free of NULs, so is the other. */
  lemma NulFreedomIsVisible(u: Unicode, d: Event, e: Event)
    requires InApp(e.stack) != [] && |InApp(d.stack)| == |InApp(e.stack)| && Stream(u, d) == Stream(u, e)
    ensures NulFreeEvent(d) <==> NulFreeEvent(e)
  {
    var p, q := PartsOf(GroupOf(u, d)), PartsOf(GroupOf(u, e));
    StreamJoinsParts(u, d);
    StreamJoinsParts(u, e);
    NulsOfJoin(p);
    NulsOfJoin(q);
    NoNulsWithin(p);
    NoNulsWithin(q);
    StackPartsNulFree(u, d);
    StackPartsNulFree(u, e);
  }

  /** The stream of `e` tells its group from that of every event with as many in-app frames. */
  ghost predicate IsUnambiguous(u: Unicode, e: Event) {
    forall d: Event :: |InApp(d.stack)| == |InApp(e.stack)| && Stream(u, d) == Stream(u, e)
      ==> GroupOf(u, d) == GroupOf(u, e)
  }

  /**
   Among events with the same number of in-app frames the stream identifies the group of a stack
   exactly when its type and the functions and files of its in-app frames hold no NUL; the stream of a
   message always does.
   */
  lemma UnambiguousIff(u: Unicode, e: Event)
    ensures IsUnambiguous(u, e) <==> InApp(e.stack) == [] || NulFreeEvent(e)
  {
    if InApp(e.stack) == [] {
      forall d: Event | |InApp(d.stack)| == 0 && Stream(u, d) == Stream(u, e)
        ensures GroupOf(u, d) == GroupOf(u, e)
      {
        EncodeIsInjective(Normalize(u, d.message), Normalize(u, e.message));
      }
    } else if NulFreeEvent(e) {
      forall d: Event | |InApp(d.stack)| == |InApp(e.stack)| && Stream(u, d) == Stream(u, e)
        ensures GroupOf(u, d) == GroupOf(u, e)
      {
        NulFreedomIsVisible(u, d, e);
        StreamsIdentifyGroups(u, d, e);
      }
    } else {
      var d := NulSharesStream(u, e);
    }
  }

  /** The two forms coincide for a message exactly when its normalised text holds two NULs or more. */
  lemma MessageMeetsStackIff(u: Unicode, e: Event)
    requires InApp(e.stack) == []
    ensures (exists d: Event :: InApp(d.stack) != [] && Stream(u, d) == Stream(u, e)) <==> Nuls(Stream(u, e)) >= 2
  {
    var s := Stream(u, e);
    forall d: Event | InApp(d.stack) != [] && Stream(u, d) == s
      ensures Nuls(s) >= 2
    {
      StreamJoinsParts(u, d);
      NulsOfJoin(PartsOf(GroupOf(u, d)));
    }
    if Nuls(s) >= 2 {
      var parts := CutTwice(s);
      var d := StackWithParts(u, parts);
      StreamJoinsParts(u, d);
    }
  }

  /** The stream of `e` tells its group from that of every other stack. */
  ghost predicate IsUniqueStack(u: Unicode, e: Event) {
    forall d: Event :: InApp(d.stack) != [] && Stream(u, d) == Stream(u, e) ==> GroupOf(u, d) == GroupOf(u, e)
  }

  /**
   Over stacks of every height the stream identifies the group exactly for a single in-app frame without
   NULs: two frames or more always write the bytes of one frame whose file holds the rest.
   */
  lemma UniqueStackIff(u: Unicode, e: Event)
    requires InApp(e.stack) != []
    ensures IsUniqueStack(u, e) <==> |InApp(e.stack)| == 1 && NulFreeEvent(e)
  {
    StreamJoinsParts(u, e);
    NulsOfJoin(PartsOf(GroupOf(u, e)));
    if |InApp(e.stack)| >= 2 {
      var parts := CutTwice(Stream(u, e));
      var d := StackWithParts(u, parts);
      StreamJoinsParts(u, d);
      assert |PartsOf(GroupOf(u, d))| == 3 < |PartsOf(GroupOf(u, e))|;
    } else if NulFreeEvent(e) {
      forall d: Event | InApp(d.stack) != [] && Stream(u, d) == Stream(u, e)
        ensures GroupOf(u, d) == GroupOf(u, e)
      {
        SameHeight(u, d, e);
        UnambiguousIff(u, e);
      }
    } else {
      var d := NulSharesStream(u, e);
    }
  }

  lemma SameHeight(u: Unicode, d: Event, e: Event)
    requires InApp(d.stack) != [] && |InApp(e.stack)| == 1 && NulFreeEvent(e) && Stream(u, d) == Stream(u, e)
    ensures |InApp(d.stack)| == 1
  {
    StreamJoinsParts(u, d);
    StreamJoinsParts(u, e);
    NulsOfJoin(PartsOf(GroupOf(u, d)));
    NulsOfJoin(PartsOf(GroupOf(u, e)));
    StackPartsNulFree(u, e);
    NoNulsWithin(PartsOf(GroupOf(u, e)));
  }

  /** The stream of `e` tells its group from that of every other event. */
  ghost predicate IsUnique(u: Unicode, e: Event) {
    forall d: Event :: Stream(u, d) == Stream(u, e) ==> GroupOf(u, d) == GroupOf(u, e)
  }

  /** The bytes are those of a text in normal form. */
  ghost predicate SpellsNormalText(u: Unicode, s: seq<Byte>) {
    exists t: seq<Rune> :: Normalize(u, t) == t && Encode(t) == s
  }

  /**
   Over all events the stream identifies the group exactly for a message with fewer than two NULs in its
   normal form, and for a single in-app frame without NULs whose bytes do not spell a normal text.
   */
  lemma UniqueIff(u: Unicode, e: Event)
    requires ValidTables(u)
    ensures IsUnique(u, e) <==>
            if InApp(e.stack) == [] then Nuls(Stream(u, e)) < 2
            else |InApp(e.stack)| == 1 && NulFreeEvent(e) && !SpellsNormalText(u, Stream(u, e))
  {
    if InApp(e.stack) == [] {
      MessageMeetsStackIff(u, e);
      UnambiguousIff(u, e);
    } else {
      UniqueStackIff(u, e);
      if t: seq<Rune> :| Normalize(u, t) == t && Encode(t) == Stream(u, e) {
        var d := Event([], t, []);
        assert Stream(u, d) == Stream(u, e) && GroupOf(u, d).ByMessage?;
      }
      forall d: Event | InApp(d.stack) == [] && Stream(u, d) == Stream(u, e)
        ensures SpellsNormalText(u, Stream(u, e))
      {
        NormalizeIsIdempotent(u, d.message);
      }
    }
  }

  lemma CutTwice(s: seq<Byte>) returns (parts: seq<seq<Byte>>)
    requires Nuls(s) >= 2
    ensures |parts| == 3 && Join(parts) == s
  {
    var i :| 0 <= i < |s| && s[i] == 0;
    var a, b := s[..i], s[i + 1..];
    assert s == a + [0] + b;
    if Nuls(a) > 0 {
      var j :| 0 <= j < |a| && a[j] == 0;
      parts := ThreeParts(s, j, i);
    } else {
      var j :| 0 <= j < |b| && b[j] == 0;
      parts := ThreeParts(s, i, i + 1 + j);
    }
  }

  lemma ThreeParts(s: seq<Byte>, i: nat, j: nat) returns (parts: seq<seq<Byte>>)
    requires i < j < |s| && s[i] == 0 && s[j] == 0
    ensures |parts| == 3 && Join(parts) == s
  {
    var x, y, z := s[..i], s[i + 1..j], s[j + 1..];
    parts := [x, y, z];
    assert parts[1..] == [y, z] && [y, z][1..] == [z];
    assert Join([y, z]) == y + [0] + Join([z]) == y + [0] + z;
    assert Join(parts) == x + [0] + Join([y, z]);
    assert s == x + [0] + (y + [0] + z);
  }

  lemma BytesOfFew(g: Frame, h: Frame)
    ensures FrameBytes([g]) == [0] + g.function_ + [0] + g.file
    ensures FrameBytes([g, h]) == [0] + g.function_ + [0] + g.file + [0] + h.function_ + [0] + h.file
  {
    assert [g][..0] == [] && [g, h][..1] == [g];
  }

  /** An input: with a NUL in a function name, stacks of different heights can write the same bytes too. */
  lemma NulMakesStacksCollide(u: Unicode)
    ensures exists d: Event, e: Event ::
              Stream(u, d) == Stream(u, e) && GroupOf(u, d) != GroupOf(u, e) && !NulFreeEvent(d) && NulFreeEvent(e)
  {
    var f := Frame([65, 0, 66, 0, 67], [68], 1, true);
    var g, h := Frame([65], [66], 1, true), Frame([67], [68], 1, true);
    var d, e := Event([84], [], [f]), Event([84], [], [g, h]);
    InAppKeepsAll([f]);
    InAppKeepsAll([g, h]);
    BytesOfFew(f, f);
    BytesOfFew(g, h);
    hide FrameBytes, InApp;
    assert FrameBytes([f]) == FrameBytes([g, h]);
    assert |Signatures([f])| != |Signatures([g, h])|;
    assert !NulFreeEvent(d) by {
      assert InApp(d.stack)[0].function_[1] == 0;
    }
    assert NulFreeEvent(e);
    assert Stream(u, d) == Stream(u, e);
  }
}
