/**
 What the grouping key keeps of an event, and what it does not: the normal form of a message read against
 the message itself, and the stream of a stack read frame by frame.
 */
module Grouping {
  import opened Basics
  import opened Text
  import opened Fingerprint

  // ---------------------------------------------------------------- numbers become zeros

  /** A stretch of text without digits and the number that follows it. */
  datatype Piece = Piece(text: seq<Rune>, number: seq<Rune>)

  predicate DigitFree(u: Unicode, m: seq<Rune>) {
    forall i :: 0 <= i < |m| ==> !u.isDigit(m[i])
  }

  predicate IsNumber(u: Unicode, m: seq<Rune>) {
    m != [] && forall i :: 0 <= i < |m| ==> u.isDigit(m[i])
  }

  /** Texts and numbers in turn; no two numbers touch, so each is a maximal run of digits. */
  predicate IsReading(u: Unicode, ps: seq<Piece>, tail: seq<Rune>) {
    && DigitFree(u, tail)
    && (forall i :: 0 <= i < |ps| ==> DigitFree(u, ps[i].text) && IsNumber(u, ps[i].number))
    && (forall i :: 0 < i < |ps| ==> ps[i].text != [])
  }

  function Written(ps: seq<Piece>, tail: seq<Rune>): seq<Rune> {
    if ps == [] then tail else ps[0].text + (ps[0].number + Written(ps[1..], tail))
  }

  function Zeroed(ps: seq<Piece>): seq<Piece> {
    if ps == [] then [] else [Piece(ps[0].text, [ZERO])] + Zeroed(ps[1..])
  }

  /** Every message can be read that way. */
  lemma {:induction false} EveryMessageReads(u: Unicode, m: seq<Rune>) returns (ps: seq<Piece>, tail: seq<Rune>)
    ensures IsReading(u, ps, tail) && Written(ps, tail) == m
    ensures m != [] && u.isDigit(m[0]) ==> ps != [] && ps[0].text == []
    decreases |m|
  {
    if m == [] {
      ps, tail := [], [];
    } else {
      ps, tail := EveryMessageReads(u, m[1..]);
      assert m == [m[0]] + m[1..];
      if !u.isDigit(m[0]) {
        ps, tail := LetterFirst(u, m[0], ps, tail);
      } else if ps != [] && ps[0].text == [] {
        ps := LongerNumber(u, m[0], ps, tail);
      } else {
        ps := NewNumber(u, m[0], ps, tail);
      }
    }
  }

  lemma LetterFirst(u: Unicode, r: Rune, ps: seq<Piece>, tail: seq<Rune>) returns (qs: seq<Piece>, end: seq<Rune>)
    requires IsReading(u, ps, tail) && !u.isDigit(r)
    ensures IsReading(u, qs, end) && Written(qs, end) == [r] + Written(ps, tail)
  {
    if ps == [] {
      qs, end := [], [r] + tail;
    } else {
      qs, end := [Piece([r] + ps[0].text, ps[0].number)] + ps[1..], tail;
      Associates([r], ps[0].text, ps[0].number + Written(ps[1..], tail));
    }
  }

  lemma LongerNumber(u: Unicode, r: Rune, ps: seq<Piece>, tail: seq<Rune>) returns (qs: seq<Piece>)
    requires IsReading(u, ps, tail) && u.isDigit(r) && ps != [] && ps[0].text == []
    ensures IsReading(u, qs, tail) && Written(qs, tail) == [r] + Written(ps, tail)
    ensures qs != [] && qs[0].text == []
  {
    qs := [Piece([], [r] + ps[0].number)] + ps[1..];
    Associates([r], ps[0].number, Written(ps[1..], tail));
    assert Written(ps, tail) == ps[0].number + Written(ps[1..], tail);
  }

  lemma NewNumber(u: Unicode, r: Rune, ps: seq<Piece>, tail: seq<Rune>) returns (qs: seq<Piece>)
    requires IsReading(u, ps, tail) && u.isDigit(r) && (ps != [] ==> ps[0].text != [])
    ensures IsReading(u, qs, tail) && Written(qs, tail) == [r] + Written(ps, tail)
    ensures qs != [] && qs[0].text == []
  {
    qs := [Piece([], [r])] + ps;
    assert qs[1..] == ps;
  }

  /** Collapsing keeps every text and puts one zero for each number. */
  lemma NumbersBecomeZeros(u: Unicode, ps: seq<Piece>, tail: seq<Rune>)
    requires IsReading(u, ps, tail)
    ensures Collapse(u, Written(ps, tail)) == Written(Zeroed(ps), tail)
  {
    CollapseByRune(u, Written(ps, tail));
    CollapseReading(u, false, ps, tail);
  }

  lemma {:induction false} CollapseReading(u: Unicode, f: bool, ps: seq<Piece>, tail: seq<Rune>)
    requires IsReading(u, ps, tail) && (f && ps != [] ==> ps[0].text != [])
    ensures CollapseFrom(u, f, Written(ps, tail)) == Written(Zeroed(ps), tail)
    decreases |ps|
  {
    if ps == [] {
      CollapseOfText(u, f, tail);
    } else {
      var t, d, rest := ps[0].text, ps[0].number, Written(ps[1..], tail);
      CollapseOfConcat(u, f, t, d + rest);
      CollapseOfText(u, f, t);
      CollapseOfConcat(u, EndsInDigit(u, f, t), d, rest);
      CollapseOfDigits(u, EndsInDigit(u, f, t), d);
      CollapseReading(u, true, ps[1..], tail);
    }
  }

  lemma {:induction false} CollapseOfText(u: Unicode, f: bool, m: seq<Rune>)
    requires DigitFree(u, m)
    ensures CollapseFrom(u, f, m) == m
    decreases |m|
  {
    if m != [] {
      CollapseOfText(u, false, m[1..]);
    }
  }

  // ---------------------------------------------------------------- only outer space goes

  predicate AllSpace(u: Unicode, m: seq<Rune>) {
    forall i :: 0 <= i < |m| ==> u.isSpace(m[i])
  }

  lemma {:induction false} LeftTrimmed(u: Unicode, m: seq<Rune>) returns (a: seq<Rune>)
    ensures AllSpace(u, a) && m == a + TrimLeft(u, m)
  {
    a := [];
    if m != [] && u.isSpace(m[0]) {
      a := LeftTrimmed(u, m[1..]);
      a := [m[0]] + a;
    }
  }

  lemma {:induction false} RightTrimmed(u: Unicode, m: seq<Rune>) returns (b: seq<Rune>)
    ensures AllSpace(u, b) && m == TrimRight(u, m) + b
  {
    b := [];
    if m != [] && u.isSpace(m[|m| - 1]) {
      b := RightTrimmed(u, m[..|m| - 1]);
      assert m == m[..|m| - 1] + [m[|m| - 1]];
      b := b + [m[|m| - 1]];
    }
  }

  /**
   Normalising loses nothing but numbers and outer white space: the message with a zero for each of its
   numbers is the normal form between two stretches of space.
   */
  lemma NormalizeKeepsText(u: Unicode, ps: seq<Piece>, tail: seq<Rune>) returns (a: seq<Rune>, b: seq<Rune>)
    requires IsReading(u, ps, tail)
    ensures Written(Zeroed(ps), tail) == a + Normalize(u, Written(ps, tail)) + b
    ensures AllSpace(u, a) && AllSpace(u, b)
  {
    var m := Collapse(u, Written(ps, tail));
    NumbersBecomeZeros(u, ps, tail);
    a := LeftTrimmed(u, m);
    b := RightTrimmed(u, TrimLeft(u, m));
    Associates(a, Normalize(u, Written(ps, tail)), b);
  }

  predicate Bare(u: Unicode, m: seq<Rune>) {
    m != [] ==> !u.isSpace(m[0]) && !u.isSpace(m[|m| - 1])
  }

  /** A message is its own normal form exactly when its digits are lone zeros and it has no outer white space. */
  lemma NormalFormsAre(u: Unicode, m: seq<Rune>)
    requires ValidTables(u)
    ensures Normalize(u, m) == m <==> Collapsed(u, m) && Bare(u, m)
  {
    hide Collapse, CollapseFrom, TrimLeft, TrimRight, Collapsed;
    NormalizeIsIdempotent(u, m);
    if Collapsed(u, m) && Bare(u, m) {
      CollapseByRune(u, m);
      CollapsedIsKept(u, m);
      BareIsKept(u, m);
    }
  }

  lemma BareIsKept(u: Unicode, m: seq<Rune>)
    requires Bare(u, m)
    ensures TrimRight(u, TrimLeft(u, m)) == m
  {
  }

  /** In particular messages without digits and outer white space group together only if they are equal. */
  lemma PlainMessagesStayApart(u: Unicode, m: seq<Rune>, k: seq<Rune>)
    requires ValidTables(u) && DigitFree(u, m) && Bare(u, m) && DigitFree(u, k) && Bare(u, k)
    ensures Normalize(u, m) == Normalize(u, k) <==> m == k
  {
    NormalFormsAre(u, m);
    NormalFormsAre(u, k);
  }

  // ---------------------------------------------------------------- which frames count

  lemma {:induction false} InAppConcat(a: seq<Frame>, b: seq<Frame>)
    ensures InApp(a + b) == InApp(a) + InApp(b)
  {
    if a == [] {
      assert a + b == b;
    } else {
      assert (a + b)[1..] == a[1..] + b;
      InAppConcat(a[1..], b);
      FirstInApp(a);
      FirstInApp(a + b);
      hide InApp;
      Associates(if a[0].inApp then [a[0]] else [], InApp(a[1..]), InApp(b));
    }
  }

  lemma FirstInApp(a: seq<Frame>)
    requires a != []
    ensures InApp(a) == (if a[0].inApp then [a[0]] else []) + InApp(a[1..])
  {
  }

  lemma InAppInside(a: seq<Frame>, f: Frame, b: seq<Frame>)
    ensures InApp(a + [f] + b) == InApp(a) + (if f.inApp then [f] else []) + InApp(b)
  {
    InAppConcat(a + [f], b);
    InAppConcat(a, [f]);
    assert [f][1..] == [];
  }

  /** Frames of other code can come and go without touching the key. */
  lemma OtherFramesDoNotMatter(u: Unicode, e: Event, a: seq<Frame>, f: Frame, b: seq<Frame>)
    requires !f.inApp && e.stack == a + [f] + b
    ensures Stream(u, e) == Stream(u, e.(stack := a + b))
  {
    InAppInside(a, f, b);
    InAppConcat(a, b);
    assert InApp(a) + [] == InApp(a);
  }

  /** In-app frames can move to other lines without touching the key. */
  lemma LinesDoNotMatter(u: Unicode, e: Event, i: nat, line: int)
    requires i < |e.stack|
    ensures Stream(u, e) == Stream(u, e.(stack := e.stack[i := e.stack[i].(line := line)]))
  {
    var a, f, b := e.stack[..i], e.stack[i], e.stack[i + 1..];
    var g := f.(line := line);
    assert e.stack == a + [f] + b && e.stack[i := g] == a + [g] + b;
    InAppInside(a, f, b);
    InAppInside(a, g, b);
    if f.inApp {
      FrameBytesInside(InApp(a), f, g, InApp(b));
    }
  }

  lemma {:induction false} FrameBytesInside(a: seq<Frame>, f: Frame, g: Frame, b: seq<Frame>)
    requires f.function_ == g.function_ && f.file == g.file
    ensures FrameBytes(a + [f] + b) == FrameBytes(a + [g] + b)
    decreases |b|
  {
    var s, t := a + [f] + b, a + [g] + b;
    if b == [] {
      assert s[..|s| - 1] == a && t[..|t| - 1] == a;
    } else {
      var c := b[..|b| - 1];
      assert s[..|s| - 1] == a + [f] + c && t[..|t| - 1] == a + [g] + c;
      FrameBytesInside(a, f, g, c);
    }
  }

  /** An in-app frame written into the stack shows: the height of the group is the number of in-app frames. */
  lemma InAppFramesCount(a: seq<Frame>, f: Frame, b: seq<Frame>)
    requires f.inApp
    ensures |InApp(a)| < |InApp(a + [f] + b)| == |InApp(a + b)| + 1
    ensures InApp(a + [f] + b)[|InApp(a)|] == f
  {
    InAppInside(a, f, b);
    InAppConcat(a, b);
  }

  /** Two stacks without NULs write the same bytes exactly when type, functions and files agree throughout. */
  lemma StacksWriteAlikeIff(u: Unicode, d: Event, e: Event)
    requires InApp(d.stack) != [] && InApp(e.stack) != [] && NulFreeEvent(d) && NulFreeEvent(e)
    ensures Stream(u, d) == Stream(u, e) <==>
            && d.errorType == e.errorType
            && |InApp(d.stack)| == |InApp(e.stack)|
            && forall i :: 0 <= i < |InApp(d.stack)| ==>
                 && InApp(d.stack)[i].function_ == InApp(e.stack)[i].function_
                 && InApp(d.stack)[i].file == InApp(e.stack)[i].file
  {
    StreamsIdentifyGroups(u, d, e);
    var p, q := Signatures(InApp(d.stack)), Signatures(InApp(e.stack));
    if p == q {
      forall i | 0 <= i < |p|
        ensures InApp(d.stack)[i].function_ == InApp(e.stack)[i].function_
        ensures InApp(d.stack)[i].file == InApp(e.stack)[i].file
      {
        assert p[i] == q[i];
      }
    }
  }

  /** A stack and a message without NULs never write the same bytes, and two messages only with one normal form. */
  lemma MessagesStandAlone(u: Unicode, d: Event, e: Event)
    requires InApp(d.stack) == [] && NulFreeEvent(d) && NulFreeEvent(e)
    ensures Stream(u, d) == Stream(u, e) <==>
            InApp(e.stack) == [] && Normalize(u, d.message) == Normalize(u, e.message)
  {
    StreamsIdentifyGroups(u, d, e);
  }
}
